/**
 * An aligned read: the read name, its read group and the alignments of each
 * mate, serialised as one archive entry whose size is computed before any
 * byte is written.
 */
module AlignedReads {
  import opened Bytes
  import opened Alignments

  /** A read with the alignments found for its two mates. */
  datatype AlignedRead = AlignedRead(
    ReadGroupCode: u32,
    Name: seq<char>,
    Mate1Alignments: seq<Alignment>,
    Mate2Alignments: seq<Alignment>,
    IsLongRead: bool,
    IsPairedEnd: bool)

  /**
   * The RF_* read status bits, whose values live outside this model. They
   * must be non-zero, disjoint from each other and from RF_UNKNOWN.
   */
  datatype ReadFlags = ReadFlags(unknown: bv8, haveMate1: bv8, haveMate2: bv8)
  {
    predicate Separate()
    {
      haveMate1 != 0 && haveMate2 != 0 &&
      unknown & haveMate1 == 0 && unknown & haveMate2 == 0 && haveMate1 & haveMate2 == 0
    }
  }

  /** The mate count as the unsigned int it is stored in. */
  function Count(als: seq<Alignment>): u32
  {
    Truncate(|als|, U32_LIMIT)
  }

  /** A mate has alignments when its (unsigned int) count is non-zero. */
  predicate Have(als: seq<Alignment>)
  {
    Count(als) > 0
  }

  /** The name length as the unsigned char it is stored in. */
  function NameLength(read: AlignedRead): (n: u8)
    ensures n <= |read.Name|
  {
    Truncate(|read.Name|, U8_LIMIT)
  }

  /** The read status byte: RF_UNKNOWN with a bit for each mate that has alignments. */
  function ReadStatus(read: AlignedRead, flags: ReadFlags): bv8
  {
    flags.unknown | (if Have(read.Mate1Alignments) then flags.haveMate1 else 0) |
    (if Have(read.Mate2Alignments) then flags.haveMate2 else 0)
  }

  /** The mate-1 bit is set exactly when mate 1 has alignments. */
  lemma HaveMate1BitReadBack(read: AlignedRead, flags: ReadFlags)
    requires flags.Separate()
    ensures (ReadStatus(read, flags) & flags.haveMate1 != 0) <==> Have(read.Mate1Alignments)
  {
  }

  /** The mate-2 bit is set exactly when mate 2 has alignments. */
  lemma HaveMate2BitReadBack(read: AlignedRead, flags: ReadFlags)
    requires flags.Separate()
    ensures (ReadStatus(read, flags) & flags.haveMate2 != 0) <==> Have(read.Mate2Alignments)
  {
  }

  /** The sum of the serialisation sizes of a list of alignments. */
  function SizeSum(als: seq<Alignment>): nat
  {
    if |als| == 0 then 0 else SizeSum(als[..|als| - 1]) + GetSerializationSize(als[|als| - 1])
  }

  /** The entry size before it is stored in an unsigned int: name, read group, the two one-byte fields, and each mate present with its count. */
  function RawEntrySize(read: AlignedRead): nat
  {
    NameLength(read) + 4 + 2 +
    (if Have(read.Mate1Alignments) then SizeSum(read.Mate1Alignments) + 4 else 0) +
    (if Have(read.Mate2Alignments) then SizeSum(read.Mate2Alignments) + 4 else 0)
  }

  /** The entry size, accumulated in an unsigned int. */
  function EntrySize(read: AlignedRead): u32
  {
    Truncate(RawEntrySize(read), U32_LIMIT)
  }

  /** Every alignment's size is stated exactly by GetSerializationSize (see Alignments.SerializationSizeMatches). */
  predicate AlignmentsFit(als: seq<Alignment>)
  {
    forall i :: 0 <= i < |als| ==>
      |als[i].Reference| < U16_LIMIT && |als[i].Reference| + |als[i].BaseQualities| + 22 < U32_LIMIT
  }

  /** Sizes that an unsigned int holds without wrapping: the alignments' own, the counts and the entry's. */
  predicate SizesFit(read: AlignedRead)
  {
    AlignmentsFit(read.Mate1Alignments) && AlignmentsFit(read.Mate2Alignments) &&
    |read.Mate1Alignments| < U32_LIMIT && |read.Mate2Alignments| < U32_LIMIT &&
    RawEntrySize(read) < U32_LIMIT
  }

  /** No alignment's GetSerializationSize wraps its unsigned int. */
  predicate AlignmentsBounded(als: seq<Alignment>)
  {
    forall i :: 0 <= i < |als| ==> |als[i].Reference| + |als[i].BaseQualities| + 22 < U32_LIMIT
  }

  /** No size wraps its unsigned int: the alignments' own, the counts and the entry's. Pairwise lengths may exceed an unsigned short. */
  predicate SizesBounded(read: AlignedRead)
  {
    AlignmentsBounded(read.Mate1Alignments) && AlignmentsBounded(read.Mate2Alignments) &&
    |read.Mate1Alignments| < U32_LIMIT && |read.Mate2Alignments| < U32_LIMIT &&
    RawEntrySize(read) < U32_LIMIT
  }

  /** The packed pairwise string of every alignment is long enough for its stored length. */
  predicate PackCovers(pack: Alignment -> seq<byte>, als: seq<Alignment>)
  {
    forall i :: 0 <= i < |als| ==> |pack(als[i])| >= Truncate(|als[i].Reference|, U16_LIMIT)
  }

  /** The records of a list of alignments, one after another. */
  function SerializedAll(als: seq<Alignment>, flags: StatusFlags, pack: Alignment -> seq<byte>): seq<byte>
    requires PackCovers(pack, als)
  {
    if |als| == 0 then []
    else
      var init := als[..|als| - 1];
      assert PackCovers(pack, init) by {
        forall i | 0 <= i < |init| ensures init[i] == als[i] { }
      }
      SerializedAll(init, flags, pack) + Serialized(als[|als| - 1], flags, pack(als[|als| - 1]))
  }

  /** The fixed part of an entry: name length, name, read group code, status byte and the count of each mate present. */
  function ReadHeader(read: AlignedRead, readFlags: ReadFlags): (bs: seq<byte>)
  {
    Pow256Widths();
    var n := NameLength(read);
    [n as byte] + CharBytes(read.Name[..n]) + LittleEndian(read.ReadGroupCode, 4) + [ReadStatus(read, readFlags) as byte] +
    (if Have(read.Mate1Alignments) then LittleEndian(Count(read.Mate1Alignments), 4) else []) +
    (if Have(read.Mate2Alignments) then LittleEndian(Count(read.Mate2Alignments), 4) else [])
  }

  /** The records of one mate, written only when that mate has alignments. */
  function MateRecords(als: seq<Alignment>, flags: StatusFlags, pack: Alignment -> seq<byte>): seq<byte>
    requires PackCovers(pack, als)
  {
    if Have(als) then SerializedAll(als, flags, pack) else []
  }

  /** The bytes Serialize writes for a read: the header, then the records of mate 1 and of mate 2. */
  function SerializedRead(read: AlignedRead, readFlags: ReadFlags, flags: StatusFlags, pack: Alignment -> seq<byte>): seq<byte>
    requires PackCovers(pack, read.Mate1Alignments) && PackCovers(pack, read.Mate2Alignments)
  {
    ReadHeader(read, readFlags) + MateRecords(read.Mate1Alignments, flags, pack) + MateRecords(read.Mate2Alignments, flags, pack)
  }

  /** The records of a list take exactly the summed serialisation sizes. */
  lemma {:induction false} SizeSumMatches(als: seq<Alignment>, flags: StatusFlags, pack: Alignment -> seq<byte>)
    requires PackCovers(pack, als) && AlignmentsFit(als)
    ensures |SerializedAll(als, flags, pack)| == SizeSum(als)
    decreases |als|
  {
    if |als| > 0 {
      var init := als[..|als| - 1];
      var last := als[|als| - 1];
      assert PackCovers(pack, init) && AlignmentsFit(init) by {
        forall i | 0 <= i < |init| ensures init[i] == als[i] { }
      }
      SizeSumMatches(init, flags, pack);
      SerializationSizeMatches(last, flags, pack(last));
    }
  }

  /**
   * Without the unsigned int wrap, the records of a list never take more than
   * the summed serialisation sizes, and take exactly that much when every
   * pairwise length fits an unsigned short.
   */
  lemma {:induction false} SizeSumCovers(als: seq<Alignment>, flags: StatusFlags, pack: Alignment -> seq<byte>)
    requires PackCovers(pack, als) && AlignmentsBounded(als)
    ensures |SerializedAll(als, flags, pack)| <= SizeSum(als)
    ensures |SerializedAll(als, flags, pack)| == SizeSum(als) <==> AlignmentsFit(als)
    decreases |als|
  {
    if |als| > 0 {
      var init := als[..|als| - 1];
      var last := als[|als| - 1];
      assert PackCovers(pack, init) && AlignmentsBounded(init) by {
        forall i | 0 <= i < |init| ensures init[i] == als[i] { }
      }
      assert AlignmentsFit(als) <==> AlignmentsFit(init) && |last.Reference| < U16_LIMIT by {
        forall i | 0 <= i < |init| ensures init[i] == als[i] { }
        if AlignmentsFit(init) && |last.Reference| < U16_LIMIT {
          forall i | 0 <= i < |als|
            ensures |als[i].Reference| < U16_LIMIT && |als[i].Reference| + |als[i].BaseQualities| + 22 < U32_LIMIT
          {
            if i < |init| { assert als[i] == init[i]; }
          }
        }
      }
      SizeSumCovers(init, flags, pack);
      SerializationSizeCovers(last, flags, pack(last));
    }
  }

  /**
   * Without the unsigned int wrap, the bytes written never overrun the entry
   * size computed up front, and fill it exactly when every pairwise length
   * fits an unsigned short.
   */
  lemma EntrySizeCovers(read: AlignedRead, readFlags: ReadFlags, flags: StatusFlags, pack: Alignment -> seq<byte>)
    requires PackCovers(pack, read.Mate1Alignments) && PackCovers(pack, read.Mate2Alignments)
    requires SizesBounded(read)
    ensures |SerializedRead(read, readFlags, flags, pack)| <= EntrySize(read)
    ensures |SerializedRead(read, readFlags, flags, pack)| == EntrySize(read) <==> SizesFit(read)
  {
    Pow256Widths();
    SizeSumCovers(read.Mate1Alignments, flags, pack);
    SizeSumCovers(read.Mate2Alignments, flags, pack);
  }

  /** The entry size computed up front is the number of bytes written, so they fill the resized buffer exactly. */
  lemma EntrySizeMatches(read: AlignedRead, readFlags: ReadFlags, flags: StatusFlags, pack: Alignment -> seq<byte>)
    requires PackCovers(pack, read.Mate1Alignments) && PackCovers(pack, read.Mate2Alignments)
    requires SizesFit(read)
    ensures |SerializedRead(read, readFlags, flags, pack)| == EntrySize(read)
  {
    Pow256Widths();
    SizeSumMatches(read.Mate1Alignments, flags, pack);
    SizeSumMatches(read.Mate2Alignments, flags, pack);
  }

  /**
   * The layout of the header: the name length, the name (as many characters
   * as that byte says), the read group code, the status byte, then the count
   * of each mate that has alignments, mate 1 first.
   */
  lemma ReadHeaderLayout(read: AlignedRead, readFlags: ReadFlags)
    ensures var bs := ReadHeader(read, readFlags);
            var n := NameLength(read);
            var c1 := if Have(read.Mate1Alignments) then 4 else 0;
            var c2 := if Have(read.Mate2Alignments) then 4 else 0;
            |bs| == n + 6 + c1 + c2 &&
            bs[0] as int == n && bs[1..n + 1] == CharBytes(read.Name[..n]) &&
            FromLittleEndian(bs[n + 1..n + 5]) == read.ReadGroupCode &&
            bs[n + 5] == ReadStatus(read, readFlags) as byte &&
            (Have(read.Mate1Alignments) ==> FromLittleEndian(bs[n + 6..n + 10]) == Count(read.Mate1Alignments)) &&
            (Have(read.Mate2Alignments) ==> FromLittleEndian(bs[n + 6 + c1..n + 10 + c1]) == Count(read.Mate2Alignments))
  {
    Pow256Widths();
    var n := NameLength(read);
    var k1 := if Have(read.Mate1Alignments) then LittleEndian(Count(read.Mate1Alignments), 4) else [];
    var k2 := if Have(read.Mate2Alignments) then LittleEndian(Count(read.Mate2Alignments), 4) else [];
    var bs := ReadHeader(read, readFlags);
    assert bs == [n as byte] + CharBytes(read.Name[..n]) + LittleEndian(read.ReadGroupCode, 4) +
                 [ReadStatus(read, readFlags) as byte] + k1 + k2;
    HeaderSlices([n as byte], CharBytes(read.Name[..n]), LittleEndian(read.ReadGroupCode, 4),
                 ReadStatus(read, readFlags) as byte, k1, k2);
  }

  /** Where each piece of a header sits once the pieces are concatenated. */
  lemma HeaderSlices(head: seq<byte>, name: seq<byte>, rg: seq<byte>, status: byte, k1: seq<byte>, k2: seq<byte>)
    requires |head| == 1 && |rg| == 4
    ensures var bs := head + name + rg + [status] + k1 + k2;
            var n := |name|;
            |bs| == n + 6 + |k1| + |k2| &&
            bs[0] == head[0] && bs[1..n + 1] == name && bs[n + 1..n + 5] == rg && bs[n + 5] == status &&
            bs[n + 6..n + 6 + |k1|] == k1 && bs[n + 6 + |k1|..n + 6 + |k1| + |k2|] == k2
  {
    var bs := head + name + rg + [status] + k1 + k2;
    var n := |name|;
    assert bs[1..n + 1] == name by {
      forall i | 0 <= i < n ensures bs[1..n + 1][i] == name[i] { }
    }
    assert bs[n + 1..n + 5] == rg by {
      forall i | 0 <= i < 4 ensures bs[n + 1..n + 5][i] == rg[i] { }
    }
    assert bs[n + 6..n + 6 + |k1|] == k1 by {
      forall i | 0 <= i < |k1| ensures bs[n + 6..n + 6 + |k1|][i] == k1[i] { }
    }
    assert bs[n + 6 + |k1|..n + 6 + |k1| + |k2|] == k2 by {
      forall i | 0 <= i < |k2| ensures bs[n + 6 + |k1|..n + 6 + |k1| + |k2|][i] == k2[i] { }
    }
  }

  /** The records of a prefix of a list are a prefix of the list's records. */
  lemma {:induction false} SerializedAllPrefix(als: seq<Alignment>, flags: StatusFlags, pack: Alignment -> seq<byte>, i: nat)
    requires PackCovers(pack, als) && i <= |als|
    ensures PackCovers(pack, als[..i])
    ensures SerializedAll(als[..i], flags, pack) <= SerializedAll(als, flags, pack)
    decreases |als| - i
  {
    assert PackCovers(pack, als[..i]) by {
      forall j | 0 <= j < i ensures als[..i][j] == als[j] { }
    }
    if i < |als| {
      var init := als[..|als| - 1];
      assert PackCovers(pack, init) by {
        forall j | 0 <= j < |init| ensures init[j] == als[j] { }
      }
      assert init[..i] == als[..i];
      SerializedAllPrefix(init, flags, pack, i);
    } else {
      assert als[..i] == als;
    }
  }

  /** The records of one more alignment are the earlier records followed by its own. */
  lemma SerializedAllStep(als: seq<Alignment>, flags: StatusFlags, pack: Alignment -> seq<byte>, i: nat)
    requires i < |als| && PackCovers(pack, als) && PackCovers(pack, als[..i]) && PackCovers(pack, als[..i + 1])
    ensures SerializedAll(als[..i + 1], flags, pack) == SerializedAll(als[..i], flags, pack) + Serialized(als[i], flags, pack(als[i]))
  {
    assert als[..i + 1][..i] == als[..i];
  }

  lemma ConcatAssociates(a: seq<byte>, b: seq<byte>, c: seq<byte>)
    ensures a + b + c == a + (b + c)
  {
  }

  /** A prefix whose two parts are known is the concatenation of those parts. */
  lemma PrefixExtended(bs: seq<byte>, i: nat, j: nat, before: seq<byte>, span: seq<byte>)
    requires i <= j <= |bs| && bs[..i] == before && bs[i..j] == span
    ensures bs[..j] == before + span
  {
    assert bs[..j] == bs[..i] + bs[i..j];
  }

  /** Writes the records of a list of alignments after what is already written, one Serialize call after another. */
  method SerializeAll(als: seq<Alignment>, flags: StatusFlags, pack: Alignment -> seq<byte>, buffer: array<byte>, cursor: nat, ghost written: seq<byte>)
    returns (next: nat)
    requires PackCovers(pack, als)
    requires cursor + |SerializedAll(als, flags, pack)| <= buffer.Length && buffer[..cursor] == written
    modifies buffer
    ensures next == cursor + |SerializedAll(als, flags, pack)| && buffer[..next] == written + SerializedAll(als, flags, pack)
  {
    next := cursor;
    var i := 0;
    SerializedAllPrefix(als, flags, pack, 0);
    while i < |als|
      invariant 0 <= i <= |als|
      invariant PackCovers(pack, als[..i])
      invariant SerializedAll(als[..i], flags, pack) <= SerializedAll(als, flags, pack)
      invariant next == cursor + |SerializedAll(als[..i], flags, pack)|
      invariant buffer[..next] == written + SerializedAll(als[..i], flags, pack)
    {
      SerializedAllPrefix(als, flags, pack, i + 1);
      SerializedAllStep(als, flags, pack, i);
      ghost var done := SerializedAll(als[..i], flags, pack);
      ghost var record := Serialized(als[i], flags, pack(als[i]));
      var after := Alignments.Serialize(als[i], flags, pack(als[i]), buffer, next);
      PrefixExtended(buffer[..], next, after, written + done, record);
      ConcatAssociates(written, done, record);
      next := after;
      i := i + 1;
    }
    assert als[..i] == als;
  }

  /**
   * Serialize: the buffer is resized to the entry size and the fields are
   * written into it one after another. The bytes written never overrun the
   * buffer, and fill it exactly when every pairwise length fits an unsigned
   * short; a longer alignment is counted whole but written with its length
   * cut to 16 bits.
   */
  method Serialize(read: AlignedRead, readFlags: ReadFlags, flags: StatusFlags, pack: Alignment -> seq<byte>)
    returns (buffer: array<byte>)
    requires PackCovers(pack, read.Mate1Alignments) && PackCovers(pack, read.Mate2Alignments)
    requires SizesBounded(read)
    ensures buffer.Length == EntrySize(read)
    ensures |SerializedRead(read, readFlags, flags, pack)| <= buffer.Length
    ensures buffer[..|SerializedRead(read, readFlags, flags, pack)|] == SerializedRead(read, readFlags, flags, pack)
    ensures SizesFit(read) <==> buffer[..] == SerializedRead(read, readFlags, flags, pack)
  {
    EntrySizeCovers(read, readFlags, flags, pack);
    buffer := new byte[EntrySize(read)];
    var c := WriteHeader(read, readFlags, buffer);
    ghost var written := ReadHeader(read, readFlags);
    c := WriteMate(read.Mate1Alignments, flags, pack, buffer, c, written);
    written := written + MateRecords(read.Mate1Alignments, flags, pack);
    c := WriteMate(read.Mate2Alignments, flags, pack, buffer, c, written);
  }

  /** Writes the header fields at the start of the buffer, one memcpy after another. */
  method WriteHeader(read: AlignedRead, readFlags: ReadFlags, buffer: array<byte>) returns (next: nat)
    requires |ReadHeader(read, readFlags)| <= buffer.Length
    modifies buffer
    ensures next == |ReadHeader(read, readFlags)| && buffer[..next] == ReadHeader(read, readFlags)
  {
    Pow256Widths();
    var n := NameLength(read);
    var name := CharBytes(read.Name[..n]);
    var rg := LittleEndian(read.ReadGroupCode, 4);
    var status := [ReadStatus(read, readFlags) as byte];
    var k1 := if Have(read.Mate1Alignments) then LittleEndian(Count(read.Mate1Alignments), 4) else [];
    var k2 := if Have(read.Mate2Alignments) then LittleEndian(Count(read.Mate2Alignments), 4) else [];
    assert ReadHeader(read, readFlags) == [n as byte] + name + rg + status + k1 + k2;
    next := Put(buffer, 0, [n as byte]);
    next := PutAfter(buffer, next, [n as byte], name);
    next := PutAfter(buffer, next, [n as byte] + name, rg);
    next := PutAfter(buffer, next, [n as byte] + name + rg, status);
    next := PutAfter(buffer, next, [n as byte] + name + rg + status, k1);
    next := PutAfter(buffer, next, [n as byte] + name + rg + status + k1, k2);
  }

  /** Writes the records of one mate after what is already written, when that mate has alignments. */
  method WriteMate(als: seq<Alignment>, flags: StatusFlags, pack: Alignment -> seq<byte>, buffer: array<byte>, cursor: nat, ghost written: seq<byte>)
    returns (next: nat)
    requires PackCovers(pack, als)
    requires cursor + |MateRecords(als, flags, pack)| <= buffer.Length && buffer[..cursor] == written
    modifies buffer
    ensures next == cursor + |MateRecords(als, flags, pack)| && buffer[..next] == written + MateRecords(als, flags, pack)
  {
    next := cursor;
    if Have(als) {
      next := SerializeAll(als, flags, pack, buffer, cursor, written);
    }
  }

  /** Put that keeps track of everything written so far. */
  method PutAfter(buffer: array<byte>, cursor: nat, written: seq<byte>, bytes: seq<byte>) returns (next: nat)
    requires cursor + |bytes| <= buffer.Length && buffer[..cursor] == written
    modifies buffer
    ensures next == cursor + |bytes| && buffer[..next] == written + bytes
  {
    next := Put(buffer, cursor, bytes);
    assert buffer[..next] == buffer[..cursor] + buffer[cursor..next];
  }
}
