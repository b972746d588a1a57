/**
 * The layout BuildJumpDatabase gives a jump database: the header, the
 * reserved space and the reference sequence index, then the entries of every
 * reference sequence one after another, with the index written over its
 * place at offset 50 once every reference is done.
 */
module JumpIndex {
  import opened Bytes
  import opened JumpRecords
  import opened JumpDatabase

  // ---------------------------------------------------------------------------
  // Header
  // ---------------------------------------------------------------------------

  /** The first twenty bytes: the signature, the hash size, the archive date and the number of reference sequences. */
  function HeaderBytes(hashSize: u8, time: u64, numRefSeqs: u32): (bs: seq<byte>)
    ensures |bs| == |MOSAIK_SIGNATURE| + 1 + 8 + 4
  {
    Pow256Widths();
    MOSAIK_SIGNATURE + [hashSize] + LittleEndian(time, 8) + LittleEndian(numRefSeqs, 4)
  }

  /** The header reads back field by field. */
  lemma HeaderReadBack(hashSize: u8, time: u64, numRefSeqs: u32)
    ensures var bs := HeaderBytes(hashSize, time, numRefSeqs);
            bs[..7] == MOSAIK_SIGNATURE && bs[7] == hashSize &&
            FromLittleEndian(bs[8..16]) == time && FromLittleEndian(bs[16..20]) == numRefSeqs as nat
  {
    Pow256Widths();
    var bs := HeaderBytes(hashSize, time, numRefSeqs);
    assert bs[8..16] == LittleEndian(time, 8);
    assert bs[16..20] == LittleEndian(numRefSeqs, 4);
  }

  /**
   * Where the first reference's entries begin: the header, then a seek from
   * there over the reserved space and the index, whose size is computed as
   * an unsigned int.
   */
  function EntriesStart(numRefSeqs: u32): (start: nat)
    ensures start >= |MOSAIK_SIGNATURE| + 1 + 8 + 4
    ensures RESERVED_SPACE + INDEX_ENTRY_SIZE * numRefSeqs as nat < U32_LIMIT ==>
              start == REFERENCE_SEQUENCE_INDEX_OFFSET + INDEX_ENTRY_SIZE * numRefSeqs as nat
  {
    |MOSAIK_SIGNATURE| + 1 + 8 + 4 + Truncate(RESERVED_SPACE + INDEX_ENTRY_SIZE * numRefSeqs as nat, U32_LIMIT)
  }

  // ---------------------------------------------------------------------------
  // Reference sequence index
  // ---------------------------------------------------------------------------

  /**
   * ReferenceSequenceIndexEntry: where a reference's entries begin and end in
   * the database, and how many groups of equal hashes it stored.
   */
  datatype IndexEntry = IndexEntry(BeginOffset: nat, EndOffset: nat, NumHashes: u32)

  /** The index entry a fresh index holds. */
  const BLANK_ENTRY := IndexEntry(0, 0, 0)

  /** The bytes one index entry is written as: the begin offset, the length, the count, the offsets as 64-bit values. */
  function IndexEntryBytes(e: IndexEntry): (bs: seq<byte>)
    ensures |bs| == INDEX_ENTRY_SIZE
  {
    Pow256Widths();
    LittleEndian(Truncate(e.BeginOffset, U64_LIMIT), 8) +
    LittleEndian(Truncate(e.EndOffset - e.BeginOffset, U64_LIMIT), 8) +
    LittleEndian(e.NumHashes, 4)
  }

  /** An index entry reads back field by field. */
  lemma IndexEntryReadBack(e: IndexEntry)
    ensures var bs := IndexEntryBytes(e);
            FromLittleEndian(bs[..8]) == e.BeginOffset % U64_LIMIT &&
            FromLittleEndian(bs[8..16]) == (e.EndOffset - e.BeginOffset) % U64_LIMIT &&
            FromLittleEndian(bs[16..]) == e.NumHashes as nat
  {
    Pow256Widths();
    var bs := IndexEntryBytes(e);
    assert bs[..8] == LittleEndian(Truncate(e.BeginOffset, U64_LIMIT), 8);
    assert bs[8..16] == LittleEndian(Truncate(e.EndOffset - e.BeginOffset, U64_LIMIT), 8);
    assert bs[16..] == LittleEndian(e.NumHashes, 4);
  }

  /** The index entries, one after another. */
  function IndexBytes(index: seq<IndexEntry>): (bs: seq<byte>)
    ensures |bs| == 20 * |index|
  {
    if |index| == 0 then [] else IndexBytes(index[..|index| - 1]) + IndexEntryBytes(index[|index| - 1])
  }

  /** The k-th entry sits k entries into the index. */
  lemma {:induction false} IndexBytesAt(index: seq<IndexEntry>, k: nat)
    requires k < |index|
    ensures IndexBytes(index)[20 * k..20 * k + 20] == IndexEntryBytes(index[k])
    decreases |index|
  {
    var init := index[..|index| - 1];
    if k < |init| {
      IndexBytesAt(init, k);
      assert IndexBytes(index)[20 * k..20 * k + 20] == IndexBytes(init)[20 * k..20 * k + 20];
    }
  }

  /** One more entry follows the earlier ones. */
  lemma IndexBytesAppend(index: seq<IndexEntry>, e: IndexEntry)
    ensures IndexBytes(index + [e]) == IndexBytes(index) + IndexEntryBytes(e)
  {
    assert (index + [e])[..|index|] == index;
  }

  /** The first i + 1 entries are the first i and the i-th. */
  lemma IndexBytesNext(index: seq<IndexEntry>, i: nat)
    requires i < |index|
    ensures IndexBytes(index[..i + 1]) == IndexBytes(index[..i]) + IndexEntryBytes(index[i])
  {
    assert index[..i + 1] == index[..i] + [index[i]];
    IndexBytesAppend(index[..i], index[i]);
  }

  // ---------------------------------------------------------------------------
  // Entries of all references
  // ---------------------------------------------------------------------------

  /** The pieces before the n-th, one after another. */
  function Concat(pieces: seq<seq<byte>>, n: nat): seq<byte>
    requires n <= |pieces|
  {
    if n == 0 then [] else Concat(pieces, n - 1) + pieces[n - 1]
  }

  /** Every piece, one after another. */
  function Flat(pieces: seq<seq<byte>>): seq<byte>
  {
    Concat(pieces, |pieces|)
  }

  /** One more piece leaves the concatenation of the earlier ones as it is. */
  lemma {:induction false} ConcatStable(pieces: seq<seq<byte>>, piece: seq<byte>, n: nat)
    requires n <= |pieces|
    ensures Concat(pieces + [piece], n) == Concat(pieces, n)
  {
    if n > 0 {
      ConcatStable(pieces, piece, n - 1);
      assert (pieces + [piece])[n - 1] == pieces[n - 1];
    }
  }

  /** One more piece follows the earlier ones. */
  lemma FlatAppend(pieces: seq<seq<byte>>, piece: seq<byte>)
    ensures Flat(pieces + [piece]) == Flat(pieces) + piece
  {
    ConcatStable(pieces, piece, |pieces|);
    assert (pieces + [piece])[|pieces|] == piece;
  }

  /** The first n pieces open the first m, for n up to m. */
  lemma {:induction false} ConcatPrefix(pieces: seq<seq<byte>>, n: nat, m: nat)
    requires n <= m <= |pieces|
    ensures Concat(pieces, n) <= Concat(pieces, m)
    decreases m
  {
    if n < m {
      ConcatPrefix(pieces, n, m - 1);
      PrefixGrows(Concat(pieces, n), Concat(pieces, m - 1), pieces[m - 1]);
    }
  }

  /** A prefix of a sequence stays a prefix when the sequence grows. */
  lemma PrefixGrows(front: seq<byte>, before: seq<byte>, more: seq<byte>)
    requires front <= before
    ensures front <= before + more
  { }

  /**
   * The index places each reference's piece of entries: the k-th begins,
   * from the start on, after the pieces of the k references before it, and
   * ends its own piece's length later.
   */
  predicate Laid(index: seq<IndexEntry>, pieces: seq<seq<byte>>, start: nat)
  {
    |index| == |pieces| &&
    forall k :: 0 <= k < |index| ==>
      index[k].BeginOffset == start + |Concat(pieces, k)| && index[k].EndOffset == index[k].BeginOffset + |pieces[k]|
  }

  /** Placing one more piece right after the earlier ones keeps the index laid out. */
  lemma LaidAppend(index: seq<IndexEntry>, pieces: seq<seq<byte>>, start: nat, piece: seq<byte>, e: IndexEntry)
    requires Laid(index, pieces, start)
    requires e.BeginOffset == start + |Flat(pieces)| && e.EndOffset == e.BeginOffset + |piece|
    ensures Laid(index + [e], pieces + [piece], start)
  {
    forall k | 0 <= k < |index| + 1 {
      PlacedAfterAppend(index, pieces, start, piece, e, k);
    }
  }

  /** The k-th entry of a grown index places the k-th piece of the grown pieces. */
  lemma PlacedAfterAppend(index: seq<IndexEntry>, pieces: seq<seq<byte>>, start: nat, piece: seq<byte>, e: IndexEntry, k: nat)
    requires Laid(index, pieces, start) && k <= |index|
    requires e.BeginOffset == start + |Flat(pieces)| && e.EndOffset == e.BeginOffset + |piece|
    ensures (index + [e])[k].BeginOffset == start + |Concat(pieces + [piece], k)|
    ensures (index + [e])[k].EndOffset == (index + [e])[k].BeginOffset + |(pieces + [piece])[k]|
  {
    ConcatStable(pieces, piece, k);
    if k < |index| {
      assert (index + [e])[k] == index[k] && (pieces + [piece])[k] == pieces[k];
    }
  }

  // ---------------------------------------------------------------------------
  // The whole database
  // ---------------------------------------------------------------------------

  /** The database: the header, the entries written from the start on, and the index written at offset 50. */
  function Database(header: seq<byte>, start: nat, entries: seq<byte>, index: seq<IndexEntry>): seq<byte>
  {
    WriteAt(WriteAt(header, start, entries), REFERENCE_SEQUENCE_INDEX_OFFSET, IndexBytes(index))
  }

  /** The header stays in the first twenty bytes of the database. */
  lemma DatabaseHeader(hashSize: u8, time: u64, numRefSeqs: u32, entries: seq<byte>, index: seq<IndexEntry>)
    ensures var db := Database(HeaderBytes(hashSize, time, numRefSeqs), EntriesStart(numRefSeqs), entries, index);
            |db| >= 20 && db[..7] == MOSAIK_SIGNATURE && db[7] == hashSize &&
            FromLittleEndian(db[8..16]) == time && FromLittleEndian(db[16..20]) == numRefSeqs as nat
  {
    var header := HeaderBytes(hashSize, time, numRefSeqs);
    var body := WriteAt(header, EntriesStart(numRefSeqs), entries);
    WriteAtKeeps(header, EntriesStart(numRefSeqs), entries, 0, 20);
    WriteAtKeeps(body, REFERENCE_SEQUENCE_INDEX_OFFSET, IndexBytes(index), 0, 20);
    HeaderReadBack(hashSize, time, numRefSeqs);
    var db := Database(header, EntriesStart(numRefSeqs), entries, index);
    assert db[..20] == header;
    assert db[..7] == header[..7] && db[8..16] == header[8..16] && db[16..20] == header[16..20];
  }

  /** The k-th index entry is written at offset 50 + 20k. */
  lemma DatabaseIndexBytes(header: seq<byte>, start: nat, entries: seq<byte>, index: seq<IndexEntry>, k: nat)
    requires k < |index|
    ensures var db := Database(header, start, entries, index);
            var at := REFERENCE_SEQUENCE_INDEX_OFFSET + 20 * k;
            at + 20 <= |db| && db[at..at + 20] == IndexEntryBytes(index[k])
  {
    var at := REFERENCE_SEQUENCE_INDEX_OFFSET + 20 * k;
    WriteAtReadBack(WriteAt(header, start, entries), REFERENCE_SEQUENCE_INDEX_OFFSET, IndexBytes(index), at, at + 20);
    IndexBytesAt(index, k);
  }

  /** The three fields of twenty bytes found at an offset of a file. */
  lemma EntryFields(file: seq<byte>, at: nat, bs: seq<byte>)
    requires at + 20 <= |file| && file[at..at + 20] == bs
    ensures file[at..at + 8] == bs[..8] && file[at + 8..at + 16] == bs[8..16] && file[at + 16..at + 20] == bs[16..]
  {
    assert file[at..at + 8] == file[at..at + 20][..8];
    assert forall i :: 0 <= i < 8 ==> file[at + 8..at + 16][i] == bs[8..16][i];
    assert file[at + 16..at + 20] == file[at..at + 20][16..];
  }

  /** The k-th index entry reads back from offset 50 + 20k: its begin offset, its length and its count. */
  lemma DatabaseIndex(header: seq<byte>, start: nat, entries: seq<byte>, index: seq<IndexEntry>, k: nat)
    requires k < |index|
    ensures var db := Database(header, start, entries, index);
            var at := REFERENCE_SEQUENCE_INDEX_OFFSET + 20 * k;
            at + 20 <= |db| &&
            FromLittleEndian(db[at..at + 8]) == index[k].BeginOffset % U64_LIMIT &&
            FromLittleEndian(db[at + 8..at + 16]) == (index[k].EndOffset - index[k].BeginOffset) % U64_LIMIT &&
            FromLittleEndian(db[at + 16..at + 20]) == index[k].NumHashes as nat
  {
    DatabaseIndexBytes(header, start, entries, index, k);
    EntryFields(Database(header, start, entries, index), REFERENCE_SEQUENCE_INDEX_OFFSET + 20 * k, IndexEntryBytes(index[k]));
    IndexEntryReadBack(index[k]);
  }

  /** A prefix made of two pieces holds the second piece right after the first. */
  lemma PieceAfter(all: seq<byte>, upto: seq<byte>, front: seq<byte>, mine: seq<byte>)
    requires upto <= all && upto == front + mine
    ensures |front| + |mine| <= |all| && all[|front|..|front| + |mine|] == mine
  {
    forall i | 0 <= i < |mine|
      ensures all[|front|..|front| + |mine|][i] == mine[i]
    {
      assert all[|front| + i] == upto[|front| + i];
    }
  }

  /** The k-th piece sits in the concatenation of all pieces right after the pieces before it. */
  lemma PieceWithin(pieces: seq<seq<byte>>, k: nat)
    requires k < |pieces|
    ensures var front := |Concat(pieces, k)|;
            front + |pieces[k]| <= |Flat(pieces)| && Flat(pieces)[front..front + |pieces[k]|] == pieces[k]
  {
    ConcatPrefix(pieces, k + 1, |pieces|);
    PieceAfter(Flat(pieces), Concat(pieces, k + 1), Concat(pieces, k), pieces[k]);
  }

  /** With the index ending before the entries start, a piece of the entries reads back from the database where it was written. */
  lemma DatabaseBody(header: seq<byte>, start: nat, entries: seq<byte>, index: seq<IndexEntry>, front: nat, piece: seq<byte>, i: nat, j: nat)
    requires |header| <= start && REFERENCE_SEQUENCE_INDEX_OFFSET + 20 * |index| <= start
    requires |piece| > 0 && front + |piece| <= |entries| && entries[front..front + |piece|] == piece
    requires i == start + front && j == i + |piece|
    ensures var db := Database(header, start, entries, index);
            i < j <= |db| && db[i..j] == piece
  {
    var body := WriteAt(header, start, entries);
    WriteAtReadBack(header, start, entries, i, j);
    WriteAtKeeps(body, REFERENCE_SEQUENCE_INDEX_OFFSET, IndexBytes(index), i, j);
  }

  /**
   * When the index ends before the entries start, each reference's piece of
   * entries lies between the offsets its index entry records.
   */
  lemma DatabaseEntries(header: seq<byte>, start: nat, pieces: seq<seq<byte>>, index: seq<IndexEntry>, k: nat)
    requires Laid(index, pieces, start) && k < |index| && |pieces[k]| > 0
    requires |header| <= start && REFERENCE_SEQUENCE_INDEX_OFFSET + 20 * |index| <= start
    ensures var db := Database(header, start, Flat(pieces), index);
            index[k].BeginOffset < index[k].EndOffset <= |db| && db[index[k].BeginOffset..index[k].EndOffset] == pieces[k]
  {
    PieceWithin(pieces, k);
    DatabaseBody(header, start, Flat(pieces), index, |Concat(pieces, k)|, pieces[k], index[k].BeginOffset, index[k].EndOffset);
  }

  /**
   * A database laid out by BuildJumpDatabase, when the index size does not
   * wrap around, reads back as the jump database reader expects: the k-th
   * index entry, at offset 50 + 20k, gives where the k-th reference's piece
   * begins, how long it is and how many groups it holds, and the bytes
   * from there are that piece.
   */
  lemma DatabaseReadsBack(hashSize: u8, time: u64, numRefSeqs: u32, pieces: seq<seq<byte>>, index: seq<IndexEntry>, k: nat)
    requires Laid(index, pieces, EntriesStart(numRefSeqs)) && |index| == numRefSeqs as nat
    requires RESERVED_SPACE + INDEX_ENTRY_SIZE * numRefSeqs as nat < U32_LIMIT
    requires k < |index| && |pieces[k]| > 0
    ensures var db := Database(HeaderBytes(hashSize, time, numRefSeqs), EntriesStart(numRefSeqs), Flat(pieces), index);
            var at := REFERENCE_SEQUENCE_INDEX_OFFSET + 20 * k;
            at + 20 <= |db| &&
            FromLittleEndian(db[at..at + 8]) == index[k].BeginOffset % U64_LIMIT &&
            FromLittleEndian(db[at + 8..at + 16]) == |pieces[k]| % U64_LIMIT &&
            FromLittleEndian(db[at + 16..at + 20]) == index[k].NumHashes as nat &&
            index[k].BeginOffset + |pieces[k]| <= |db| &&
            db[index[k].BeginOffset..index[k].BeginOffset + |pieces[k]|] == pieces[k]
  {
    var header := HeaderBytes(hashSize, time, numRefSeqs);
    var start := EntriesStart(numRefSeqs);
    assert INDEX_ENTRY_SIZE * numRefSeqs as nat == 20 * |index|;
    DatabaseIndex(header, start, Flat(pieces), index, k);
    DatabaseEntries(header, start, pieces, index, k);
  }
}
