/**
 * The alignment record shared by the aligner, the sorter and the colorspace
 * conversion, with its ordering and its fixed binary serialisation.
 */
module Alignments {
  import opened Bytes

  /** An alignment of one read against one reference sequence. */
  datatype Alignment = Alignment(
    MateReferenceBegin: u32,
    MateReferenceEnd: u32,
    MateReferenceIndex: u32,
    ReferenceBegin: u32,
    ReferenceEnd: u32,
    ReferenceIndex: u32,
    Owner: u32,
    ReadGroupCode: u32,
    QueryLength: u16,
    NumMismatches: u16,
    QueryBegin: u16,
    QueryEnd: u16,
    Quality: u8,
    IsFirstMate: bool,
    IsMateReverseStrand: bool,
    IsPairedEnd: bool,
    IsResolvedAsPair: bool,
    IsReverseStrand: bool,
    WasRescued: bool,
    Reference: seq<char>,
    Query: seq<char>,
    BaseQualities: seq<char>,
    Name: seq<char>)

  /** operator<: by reference sequence index, then by reference begin. */
  predicate Precedes(a: Alignment, b: Alignment)
  {
    if a.ReferenceIndex == b.ReferenceIndex then a.ReferenceBegin < b.ReferenceBegin
    else a.ReferenceIndex < b.ReferenceIndex
  }

  /**
   * The ordering is a strict weak order: irreflexive, transitive, and two
   * alignments are unordered exactly when they share index and begin.
   */
  lemma PrecedesIsStrictWeakOrder(a: Alignment, b: Alignment, c: Alignment)
    ensures !Precedes(a, a)
    ensures Precedes(a, b) ==> !Precedes(b, a)
    ensures Precedes(a, b) && Precedes(b, c) ==> Precedes(a, c)
    ensures !Precedes(a, b) && !Precedes(b, a) <==>
            a.ReferenceIndex == b.ReferenceIndex && a.ReferenceBegin == b.ReferenceBegin
  {
  }

  /** A record needs the long form when the query end or the pairwise length exceeds one byte. */
  predicate IsLongRead(queryEnd: int, pairwiseLength: int)
  {
    queryEnd > 255 || pairwiseLength > 255
  }

  /** The byte of a character, as C++ stores a char. */
  function CharByte(c: char): byte
  {
    ((c as int) % 256) as byte
  }

  /** The bytes of a string, one per character. */
  function CharBytes(s: seq<char>): (bs: seq<byte>)
    ensures |bs| == |s|
    ensures forall i :: 0 <= i < |s| ==> bs[i] == CharByte(s[i])
  {
    seq(|s|, i requires 0 <= i < |s| => CharByte(s[i]))
  }

  /** GetSerializationSize, an unsigned int computed before anything is written. */
  function GetSerializationSize(al: Alignment): nat
  {
    var pairwiseLength := |al.Reference|;
    var long := IsLongRead(al.QueryEnd, pairwiseLength);
    Truncate(pairwiseLength + |al.BaseQualities| + 4 * 3 + 2 + 2 + (if long then 2 * 3 else 3), U32_LIMIT)
  }

  /**
   * The AF_* status bits, whose values live outside this model. They must be
   * non-zero, pairwise disjoint and disjoint from AF_UNKNOWN.
   */
  datatype StatusFlags = StatusFlags(unknown: bv8, firstMate: bv8, secondMate: bv8, reverseStrand: bv8, rescued: bv8)
  {
    predicate Separate()
    {
      firstMate != 0 && secondMate != 0 && reverseStrand != 0 && rescued != 0 &&
      unknown & firstMate == 0 && unknown & secondMate == 0 && unknown & reverseStrand == 0 && unknown & rescued == 0 &&
      firstMate & secondMate == 0 && firstMate & reverseStrand == 0 && firstMate & rescued == 0 &&
      secondMate & reverseStrand == 0 && secondMate & rescued == 0 && reverseStrand & rescued == 0
    }

    /** AF_UNKNOWN with each bit whose condition holds or-ed in. */
    function Compose(first: bool, second: bool, reverse: bool, rescue: bool): bv8
    {
      unknown | (if first then firstMate else 0) | (if second then secondMate else 0) |
      (if reverse then reverseStrand else 0) | (if rescue then rescued else 0)
    }
  }

  /** The alignment status byte. */
  function StatusByte(al: Alignment, flags: StatusFlags): bv8
  {
    flags.Compose(al.IsPairedEnd && al.IsFirstMate, al.IsPairedEnd && !al.IsFirstMate, al.IsReverseStrand, al.WasRescued)
  }

  /** The first-mate bit is set exactly for the first mate of a paired-end read. */
  lemma FirstMateBitReadBack(al: Alignment, flags: StatusFlags)
    requires flags.Separate()
    ensures (StatusByte(al, flags) & flags.firstMate != 0) <==> al.IsPairedEnd && al.IsFirstMate
  {
  }

  /** The second-mate bit is set exactly for the other mate of a paired-end read. */
  lemma SecondMateBitReadBack(al: Alignment, flags: StatusFlags)
    requires flags.Separate()
    ensures (StatusByte(al, flags) & flags.secondMate != 0) <==> al.IsPairedEnd && !al.IsFirstMate
  {
  }

  /** The reverse-strand bit mirrors the read orientation. */
  lemma ReverseStrandBitReadBack(al: Alignment, flags: StatusFlags)
    requires flags.Separate()
    ensures (StatusByte(al, flags) & flags.reverseStrand != 0) <==> al.IsReverseStrand
  {
  }

  /** The rescued bit mirrors WasRescued. */
  lemma RescuedBitReadBack(al: Alignment, flags: StatusFlags)
    requires flags.Separate()
    ensures (StatusByte(al, flags) & flags.rescued != 0) <==> al.WasRescued
  {
  }

  /** The three bytes holding the pairwise length, query begin and query end. */
  function ExtentBytes(pairwiseLength: u16, queryBegin: u16, queryEnd: u16): (bs: seq<byte>)
    ensures |bs| == if IsLongRead(queryEnd, pairwiseLength) then 6 else 3
  {
    Pow256Widths();
    if IsLongRead(queryEnd, pairwiseLength) then
      LittleEndian(pairwiseLength, 2) + LittleEndian(queryBegin, 2) + LittleEndian(queryEnd, 2)
    else
      [(pairwiseLength % 256) as byte, (queryBegin % 256) as byte, (queryEnd % 256) as byte]
  }

  /** The fixed-width head of a serialised alignment: everything before the extents. */
  function HeadBytes(al: Alignment, flags: StatusFlags): (bs: seq<byte>)
    ensures |bs| == 16
  {
    Pow256Widths();
    LittleEndian(al.ReferenceBegin, 4) + LittleEndian(al.ReferenceEnd, 4) + LittleEndian(al.ReferenceIndex, 4) +
    [al.Quality as byte, StatusByte(al, flags) as byte] + LittleEndian(al.NumMismatches, 2)
  }

  /**
   * The bytes Serialize writes. The pairwise length is truncated to an
   * unsigned short; `packed` is the packed pairwise string that
   * CMosaikString::Pack produces, of which that many bytes are stored.
   */
  function Serialized(al: Alignment, flags: StatusFlags, packed: seq<byte>): seq<byte>
    requires |packed| >= Truncate(|al.Reference|, U16_LIMIT)
  {
    var pairwiseLength := Truncate(|al.Reference|, U16_LIMIT);
    HeadBytes(al, flags) + ExtentBytes(pairwiseLength, al.QueryBegin, al.QueryEnd) +
    packed[..pairwiseLength] + CharBytes(al.BaseQualities)
  }

  /** The size computed up front is the number of bytes Serialize writes. */
  lemma SerializationSizeMatches(al: Alignment, flags: StatusFlags, packed: seq<byte>)
    requires |al.Reference| < U16_LIMIT && |packed| >= |al.Reference|
    requires |al.Reference| + |al.BaseQualities| + 22 < U32_LIMIT
    ensures |Serialized(al, flags, packed)| == GetSerializationSize(al)
  {
    var pairwiseLength := Truncate(|al.Reference|, U16_LIMIT);
    assert pairwiseLength == |al.Reference|;
    assert |ExtentBytes(pairwiseLength, al.QueryBegin, al.QueryEnd)| == if IsLongRead(al.QueryEnd, |al.Reference|) then 6 else 3;
  }

  /**
   * Without the unsigned int wrap, GetSerializationSize never undercounts the
   * bytes Serialize writes, and counts them exactly when the pairwise length
   * fits an unsigned short: a longer alignment has its length cut to 16 bits
   * when written but counted whole.
   */
  lemma SerializationSizeCovers(al: Alignment, flags: StatusFlags, packed: seq<byte>)
    requires |packed| >= Truncate(|al.Reference|, U16_LIMIT)
    requires |al.Reference| + |al.BaseQualities| + 22 < U32_LIMIT
    ensures |Serialized(al, flags, packed)| <= GetSerializationSize(al)
    ensures |Serialized(al, flags, packed)| == GetSerializationSize(al) <==> |al.Reference| < U16_LIMIT
  {
    if |al.Reference| < U16_LIMIT {
      SerializationSizeMatches(al, flags, packed);
    } else {
      var pairwiseLength := Truncate(|al.Reference|, U16_LIMIT);
      assert pairwiseLength <= |al.Reference| - U16_LIMIT;
      assert |ExtentBytes(pairwiseLength, al.QueryBegin, al.QueryEnd)| <= 6;
    }
  }

  /** The serialised head reads back, field by field, in the order the record is written. */
  lemma HeadRoundTrip(al: Alignment, flags: StatusFlags)
    ensures FromLittleEndian(HeadBytes(al, flags)[0..4]) == al.ReferenceBegin
    ensures FromLittleEndian(HeadBytes(al, flags)[4..8]) == al.ReferenceEnd
    ensures FromLittleEndian(HeadBytes(al, flags)[8..12]) == al.ReferenceIndex
    ensures HeadBytes(al, flags)[12] as int == al.Quality
    ensures HeadBytes(al, flags)[13] == StatusByte(al, flags) as byte
    ensures FromLittleEndian(HeadBytes(al, flags)[14..16]) == al.NumMismatches
  {
    Pow256Widths();
    var rb := LittleEndian(al.ReferenceBegin, 4);
    var re := LittleEndian(al.ReferenceEnd, 4);
    var ri := LittleEndian(al.ReferenceIndex, 4);
    var mm := LittleEndian(al.NumMismatches, 2);
    var bs := HeadBytes(al, flags);
    assert bs == rb + re + ri + [al.Quality as byte, StatusByte(al, flags) as byte] + mm;
    assert bs[0..4] == rb;
    assert bs[4..8] == re;
    assert bs[8..12] == ri;
    assert bs[14..16] == mm;
  }

  /** The extents read back: two bytes each in the long form, the low byte each in the short form. */
  lemma ExtentRoundTrip(pairwiseLength: u16, queryBegin: u16, queryEnd: u16)
    ensures IsLongRead(queryEnd, pairwiseLength) ==>
      var bs := ExtentBytes(pairwiseLength, queryBegin, queryEnd);
      FromLittleEndian(bs[0..2]) == pairwiseLength && FromLittleEndian(bs[2..4]) == queryBegin &&
      FromLittleEndian(bs[4..6]) == queryEnd
    ensures !IsLongRead(queryEnd, pairwiseLength) ==>
      var bs := ExtentBytes(pairwiseLength, queryBegin, queryEnd);
      bs[0] as int == pairwiseLength && bs[1] as int == queryBegin % 256 && bs[2] as int == queryEnd
  {
    Pow256Widths();
    var bs := ExtentBytes(pairwiseLength, queryBegin, queryEnd);
    if IsLongRead(queryEnd, pairwiseLength) {
      assert bs[0..2] == LittleEndian(pairwiseLength, 2);
      assert bs[2..4] == LittleEndian(queryBegin, 2);
      assert bs[4..6] == LittleEndian(queryEnd, 2);
    }
  }

  /** memcpy into a pre-allocated buffer at a cursor, returning the advanced cursor. */
  method Put(buffer: array<byte>, cursor: nat, bytes: seq<byte>) returns (next: nat)
    requires cursor + |bytes| <= buffer.Length
    modifies buffer
    ensures next == cursor + |bytes|
    ensures buffer[cursor..next] == bytes
    ensures buffer[..cursor] == old(buffer[..cursor]) && buffer[next..] == old(buffer[next..])
  {
    var i := 0;
    while i < |bytes|
      invariant 0 <= i <= |bytes|
      invariant buffer[cursor..cursor + i] == bytes[..i]
      invariant buffer[..cursor] == old(buffer[..cursor]) && buffer[cursor + i..] == old(buffer[cursor + i..])
    {
      buffer[cursor + i] := bytes[i];
      i := i + 1;
    }
    next := cursor + |bytes|;
  }

  /**
   * Serialize: writes the record into a pre-allocated buffer, field after
   * field, and returns the advanced buffer cursor.
   */
  method Serialize(al: Alignment, flags: StatusFlags, packed: seq<byte>, buffer: array<byte>, cursor: nat)
    returns (next: nat)
    requires |packed| >= Truncate(|al.Reference|, U16_LIMIT)
    requires cursor + |Serialized(al, flags, packed)| <= buffer.Length
    modifies buffer
    ensures next == cursor + |Serialized(al, flags, packed)|
    ensures buffer[cursor..next] == Serialized(al, flags, packed)
    ensures buffer[..cursor] == old(buffer[..cursor]) && buffer[next..] == old(buffer[next..])
  {
    var pairwiseLength := Truncate(|al.Reference|, U16_LIMIT);
    var head := HeadBytes(al, flags);
    var extents := ExtentBytes(pairwiseLength, al.QueryBegin, al.QueryEnd);
    var pairwise := packed[..pairwiseLength];
    var qualities := CharBytes(al.BaseQualities);
    var c1 := Put(buffer, cursor, head);
    var c2 := Put(buffer, c1, extents);
    PutExtends(buffer, cursor, c1, c2, old(buffer[..]), head, extents);
    ghost var written := buffer[..];
    assert written[cursor..c2] == head + extents && written[..cursor] == old(buffer[..])[..cursor];
    var c3 := Put(buffer, c2, pairwise);
    PrefixKept(buffer[..], written, cursor, c2);
    PutExtends(buffer, cursor, c2, c3, old(buffer[..]), head + extents, pairwise);
    written := buffer[..];
    assert written[cursor..c3] == head + extents + pairwise && written[..cursor] == old(buffer[..])[..cursor];
    next := Put(buffer, c3, qualities);
    PrefixKept(buffer[..], written, cursor, c3);
    PutExtends(buffer, cursor, c3, next, old(buffer[..]), head + extents + pairwise, qualities);
  }

  /** Two contents that agree up to some index agree on every shorter prefix and on the span below it. */
  lemma PrefixKept(now: seq<byte>, before: seq<byte>, start: nat, end: nat)
    requires start <= end <= |now| == |before| && now[..end] == before[..end]
    ensures now[..start] == before[..start] && now[start..end] == before[start..end]
  {
    assert now[..start] == now[..end][..start];
    assert before[..start] == before[..end][..start];
  }

  /** A write that starts where the earlier writes ended extends them. */
  lemma PutExtends(buffer: array<byte>, start: nat, middle: nat, next: nat, original: seq<byte>, before: seq<byte>, bytes: seq<byte>)
    requires start <= middle <= next <= buffer.Length == |original|
    requires buffer[start..middle] == before && buffer[middle..next] == bytes
    requires buffer[..start] == original[..start] && buffer[next..] == original[next..]
    ensures buffer[start..next] == before + bytes
    ensures buffer[..start] == original[..start] && buffer[next..] == original[next..]
  {
    assert buffer[start..next] == buffer[start..middle] + buffer[middle..next];
  }
}
