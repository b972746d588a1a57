/**
 * CJumpCreator: builds a jump database from reference sequences. Each
 * reference is scanned for k-mers, whose (hash, position) records are
 * buffered, sorted and flushed to temporary files; the temporary files of a
 * reference are then merged into groups of equal hashes, and every group is
 * stored as one entry of the database, behind a header and a reference
 * sequence index.
 *
 * The database and the temporary files are byte sequences; the position a
 * write goes to is a field beside the database's bytes.
 */
module JumpCreation {
  import opened Outcome
  import opened Bytes
  import opened JumpRecords
  import opened JumpDatabase
  import opened JumpIndex

  /**
   * How many hash positions the sorting buffer holds before it is flushed:
   * DEFAULT_SORTING_MEMORY gigabytes over sizeof(HashPosition), which is 16
   * bytes once padded.
   */
  const SORTING_CAPACITY: nat := 134217728

  lemma SortingCapacity()
    ensures SORTING_CAPACITY == DEFAULT_SORTING_MEMORY * 1073741824 / 16
  {
  }

  /** The initial size of the entry buffer. */
  const INITIAL_BUFFER_SIZE: nat := 4096

  // ---------------------------------------------------------------------------
  // Temporary files
  // ---------------------------------------------------------------------------

  /** A temporary file as SerializeHashPositions writes it: the records sorted by SortHashPositionAsc. */
  function SortedFile(hps: seq<HashPosition>): (file: seq<byte>)
    ensures |file| == RECORD_SIZE * |hps|
  {
    var sorted := SortAsc(hps);
    assert |sorted| == |multiset(sorted)| == |hps|;
    FileBytes(sorted)
  }

  /** The files of the first f flushes of a full sorting buffer. */
  function FullChunks(hps: seq<HashPosition>, f: nat): (files: seq<seq<byte>>)
    requires f * SORTING_CAPACITY <= |hps|
    ensures |files| == f
  {
    seq(f, k requires 0 <= k < f => SortedFile(hps[k * SORTING_CAPACITY..(k + 1) * SORTING_CAPACITY]))
  }

  /**
   * The temporary files of one reference sequence: one per full buffer, in
   * the order they fill, then the final flush of what is left, which may be
   * empty.
   */
  function ChunkFiles(hps: seq<HashPosition>): (files: seq<seq<byte>>)
    ensures |files| == |hps| / SORTING_CAPACITY + 1
  {
    var f := |hps| / SORTING_CAPACITY;
    FullChunks(hps, f) + [SortedFile(hps[f * SORTING_CAPACITY..])]
  }

  /** More records after the full chunks leave those chunks as they are. */
  lemma FullChunksGrow(hps: seq<HashPosition>, more: seq<HashPosition>, f: nat)
    requires f * SORTING_CAPACITY <= |hps|
    ensures FullChunks(hps + more, f) == FullChunks(hps, f)
  {
    var all := hps + more;
    forall k | 0 <= k < f
      ensures all[k * SORTING_CAPACITY..(k + 1) * SORTING_CAPACITY] == hps[k * SORTING_CAPACITY..(k + 1) * SORTING_CAPACITY]
    {
    }
  }

  /** One more full chunk is one more file after the earlier ones. */
  lemma FullChunksNext(hps: seq<HashPosition>, f: nat)
    requires (f + 1) * SORTING_CAPACITY <= |hps|
    ensures FullChunks(hps, f + 1) == FullChunks(hps, f) + [SortedFile(hps[f * SORTING_CAPACITY..(f + 1) * SORTING_CAPACITY])]
  {
  }

  /** With fewer than a buffer's worth after f full chunks, the files are those chunks and the rest. */
  lemma ChunkFilesEnd(hps: seq<HashPosition>, f: nat)
    requires f * SORTING_CAPACITY <= |hps| < (f + 1) * SORTING_CAPACITY
    ensures ChunkFiles(hps) == FullChunks(hps, f) + [SortedFile(hps[f * SORTING_CAPACITY..])]
  {
    assert |hps| / SORTING_CAPACITY == f;
  }

  /** A temporary file reads back sorted, whatever owner the reader sets. */
  lemma SortedFileSorted(hps: seq<HashPosition>, owner: u8)
    ensures SortedAsc(Records(SortedFile(hps), owner))
  {
    FileRoundTrip(SortAsc(hps), owner);
    SortedWithOwner(SortAsc(hps), owner);
  }

  /**
   * The temporary files of a reference sequence shorter than 2^32 bases are
   * few enough for the merge's one-byte owners, and each reads back sorted.
   */
  lemma ChunkFilesMergeable(hps: seq<HashPosition>)
    requires |hps| < U32_LIMIT
    ensures |ChunkFiles(hps)| <= 32 && FilesSorted(FileRecords(ChunkFiles(hps)))
  {
    var files := ChunkFiles(hps);
    var f := |hps| / SORTING_CAPACITY;
    assert f < 32;
    forall k | 0 <= k < |files|
      ensures SortedAsc(FileRecords(files)[k])
    {
      if k < f {
        SortedFileSorted(hps[k * SORTING_CAPACITY..(k + 1) * SORTING_CAPACITY], k as u8);
      } else {
        SortedFileSorted(hps[f * SORTING_CAPACITY..], k as u8);
      }
    }
  }

  /** The hash positions HashReferenceSequence emits for a whole reference sequence. */
  function ReferencePositions(bases: seq<char>, hashSize: nat): Result<seq<HashPosition>>
    requires |bases| < U32_LIMIT && hashSize <= |bases| + 1 && hashSize <= 32
  {
    WindowPositions(bases, hashSize, |bases| + 1 - hashSize)
  }

  /**
   * What HashReferenceSequences finds for one reference sequence: a sequence
   * shorter than a k-mer less one makes the window count wrap around as an
   * unsigned int, so the scan would read past the bases; otherwise the hash
   * positions of its windows.
   */
  function ReferenceHashes(bases: seq<char>, hashSize: nat): (r: Result<seq<HashPosition>>)
    requires |bases| < U32_LIMIT && 0 < hashSize <= 32
    ensures r.Ok? ==> hashSize <= |bases| + 1 && ReferencePositions(bases, hashSize) == r && |r.value| < U32_LIMIT
  {
    if |bases| + 1 < hashSize then Err(Undefined("the window count wraps around"))
    else
      var hps := ReferencePositions(bases, hashSize);
      if hps.Ok? then WindowPositionsCount(bases, hashSize, |bases| + 1 - hashSize); hps else hps
  }

  /** The temporary files of a reference sequence are those of its hash positions. */
  predicate Hashed(bases: seq<char>, hashSize: nat, files: seq<seq<byte>>)
    requires |bases| < U32_LIMIT && 0 < hashSize <= 32
  {
    ReferenceHashes(bases, hashSize).Ok? && files == ChunkFiles(ReferenceHashes(bases, hashSize).value)
  }

  /** The temporary files of the first |files| reference sequences are those of their hash positions. */
  predicate AllHashed(refs: seq<seq<char>>, hashSize: nat, files: seq<seq<seq<byte>>>)
    requires forall k :: 0 <= k < |refs| ==> |refs[k]| < U32_LIMIT
    requires 0 < hashSize <= 32
  {
    |files| <= |refs| && forall k :: 0 <= k < |files| ==> Hashed(refs[k], hashSize, files[k])
  }

  /** The files of one more hashed reference sequence extend the hashed ones. */
  lemma AllHashedAppend(refs: seq<seq<char>>, hashSize: nat, files: seq<seq<seq<byte>>>, more: seq<seq<byte>>)
    requires forall k :: 0 <= k < |refs| ==> |refs[k]| < U32_LIMIT
    requires 0 < hashSize <= 32 && AllHashed(refs, hashSize, files) && |files| < |refs|
    requires Hashed(refs[|files|], hashSize, more)
    ensures AllHashed(refs, hashSize, files + [more])
  {
    forall k | 0 <= k < |files| + 1
      ensures Hashed(refs[k], hashSize, (files + [more])[k])
    {
      if k < |files| {
        assert (files + [more])[k] == files[k];
      }
    }
  }

  /** The temporary files of hashed reference sequences can be merged. */
  lemma AllHashedMergeable(refs: seq<seq<char>>, hashSize: nat, files: seq<seq<seq<byte>>>)
    requires forall k :: 0 <= k < |refs| ==> |refs[k]| < U32_LIMIT
    requires 0 < hashSize <= 32 && AllHashed(refs, hashSize, files)
    ensures forall k :: 0 <= k < |files| ==> |files[k]| <= 256 && FilesSorted(FileRecords(files[k]))
  {
    forall k | 0 <= k < |files|
      ensures |files[k]| <= 256 && FilesSorted(FileRecords(files[k]))
    {
      ChunkFilesMergeable(ReferenceHashes(refs[k], hashSize).value);
    }
  }

  /** A window start whose window holds J, X or N adds nothing to the hash positions. */
  lemma ScanSkip(bases: seq<char>, hashSize: nat, i: nat, emitted: seq<HashPosition>)
    requires i + 1 + hashSize <= |bases| + 1 && |bases| < U32_LIMIT && hashSize <= 32
    requires WindowPositions(bases, hashSize, i) == Ok(emitted) && Skipped(Window(bases, hashSize, i))
    ensures WindowPositions(bases, hashSize, i + 1) == Ok(emitted)
  {
  }

  /** Any other window start adds its record, or ends the scan, as CreateHash decides on its window. */
  lemma ScanStep(bases: seq<char>, hashSize: nat, i: nat, emitted: seq<HashPosition>, key: Result<u64>)
    requires i + 1 + hashSize <= |bases| + 1 && |bases| < U32_LIMIT && hashSize <= 32
    requires WindowPositions(bases, hashSize, i) == Ok(emitted) && !Skipped(Window(bases, hashSize, i))
    requires HashKey(Window(bases, hashSize, i)) == if key.Ok? then Ok(key.value as nat) else Err(key.failure)
    ensures key.Ok? ==> WindowPositions(bases, hashSize, i + 1) == Ok(emitted + [HashPosition(key.value, i, 0)])
    ensures key.Err? ==> WindowPositions(bases, hashSize, i + 1) == Err(key.failure)
  {
  }

  /** Taking one record out of the merge leaves one record fewer waiting. */
  lemma TakenShrinks<T>(row: multiset<T>, unread: multiset<T>, before: multiset<T>, waiting: multiset<T>, taken: T)
    requires row + unread + multiset{taken} == before + waiting
    ensures |row| + |unread| < |before| + |waiting|
  {
    assert |row + unread + multiset{taken}| == |row| + |unread| + 1;
  }

  /**
   * The smallest waiting record joins the open group, which first becomes a
   * finished group when `close` says the record has a new hash; the next
   * record of its file joins the top row.
   */
  method Advance(recs: seq<seq<HashPosition>>, topRow: seq<HashPosition>, idx: seq<nat>, ghost live: seq<bool>,
                 ghost groups: seq<seq<HashPosition>>, open: seq<HashPosition>, close: bool)
    returns (nextRow: seq<HashPosition>, nextIdx: seq<nat>, ghost nextLive: seq<bool>,
             ghost nextGroups: seq<seq<HashPosition>>, nextOpen: seq<HashPosition>)
    requires Tagged(recs) && FilesSorted(recs) && |topRow| > 0
    requires Merging(recs, topRow, idx, live, groups, open) == true
    requires close <==> |open| > 0 && topRow[|topRow| - 1].Hash != open[0].Hash
    ensures Merging(recs, nextRow, nextIdx, nextLive, nextGroups, nextOpen)
    ensures nextGroups == if close then groups + [open] else groups
    ensures |nextRow| + |Unread(recs, nextIdx, |recs|)| < |topRow| + |Unread(recs, idx, |recs|)|
  {
    var best := topRow[|topRow| - 1];
    var row := topRow[..|topRow| - 1];
    assert topRow == row + [best];
    nextGroups, nextOpen := groups, open + [best];
    if close {
      nextGroups, nextOpen := groups + [open], [best];
    }
    nextRow, nextIdx, nextLive := ReadNext(recs, row, best, idx, live);
    MergeStep(recs, row, best, idx, live, groups, open, nextRow, nextIdx, nextLive, close);
    TakenShrinks(multiset(nextRow), Unread(recs, nextIdx, |recs|), multiset(topRow), Unread(recs, idx, |recs|), best);
  }

  /**
   * Whether StoreHash stores a group of n records rather than failing: the
   * group is not empty, its size converts to an int, and so does the size of
   * its entry.
   */
  predicate Fits(n: nat, limitPositions: bool, maxHashPositions: nat)
  {
    0 < n < 0x8000_0000 && (CappedCount(n, limitPositions, maxHashPositions) + 1) * 4 + 8 < 0x8000_0000
  }

  /** The records of the temporary files as the merge reads them, each tagged with its file's index. */
  function FileRecords(files: seq<seq<byte>>): (recs: seq<seq<HashPosition>>)
    requires |files| <= 256
    ensures |recs| == |files| && Tagged(recs)
    ensures forall k :: 0 <= k < |files| ==> recs[k] == Records(files[k], k as u8)
  {
    var recs := seq(|files|, k requires 0 <= k < |files| => Records(files[k], k as u8));
    assert Tagged(recs) by {
      forall k, i | 0 <= k < |recs| && 0 <= i < |recs[k]| ensures recs[k][i].Owner as nat == k {
        assert Deserialize(files[k], RECORD_SIZE * i, k as u8) == Some(recs[k][i]);
      }
    }
    recs
  }

  /** The diagnostic StoreHash exits with on an empty group. */
  const EMPTY_HASH: string := "Tried to store an empty hash in StoreHash."

  // ---------------------------------------------------------------------------
  // The creator
  // ---------------------------------------------------------------------------

  class JumpCreator {
    /** Bases per k-mer. */
    const hashSize: u8
    /** Whether StoreHash caps the positions it writes. */
    const limitPositions: bool
    /** The flush bound of the sorting buffer, which is also StoreHash's cap. */
    const maxHashPositions: nat
    /** The entry buffer StoreHash fills. */
    var buffer: seq<byte>
    /** The sorting buffer of hash positions. */
    var hashPositions: seq<HashPosition>
    /** The temporary files of each reference sequence hashed so far. */
    var tempReferenceFiles: seq<seq<seq<byte>>>
    /** The number of reference sequences in the archive. */
    var numRefSeqs: u32
    /** The jump database being written. */
    var jumpOut: seq<byte>
    /** The position of the jump database's file pointer. */
    var jumpPos: nat

    /** The bounds every method relies on: the hash size the command line allows and the flush bound. */
    predicate Valid()
      reads this
    {
      4 <= hashSize <= 32 && maxHashPositions == SORTING_CAPACITY
    }

    /**
     * A fresh creator with an empty database. A positive threshold turns the
     * cap on, but the threshold itself is replaced by the flush bound derived
     * from the sorting memory, so the cap is that bound.
     */
    constructor(hashSize: u8, hashPositionThreshold: u32)
      requires 4 <= hashSize <= 32
      ensures Valid() && this.hashSize == hashSize
      ensures limitPositions == (hashPositionThreshold > 0)
      ensures |buffer| == INITIAL_BUFFER_SIZE && hashPositions == [] && tempReferenceFiles == []
      ensures numRefSeqs == 0 && jumpOut == [] && jumpPos == 0
    {
      this.hashSize := hashSize;
      limitPositions := false;
      maxHashPositions := 0;
      numRefSeqs := 0;
      buffer := seq(INITIAL_BUFFER_SIZE, _ => 0);
      jumpOut := [];
      jumpPos := 0;
      hashPositions := [];
      tempReferenceFiles := [];
      if hashPositionThreshold > 0 {
        limitPositions := true;
        maxHashPositions := hashPositionThreshold as nat;
      }
      maxHashPositions := SORTING_CAPACITY;
    }

    /** CheckBufferSize: a buffer shorter than the request grows to it, zero-filled; a long enough one is kept. */
    method CheckBufferSize(numBytes: nat)
      modifies this
      ensures |buffer| == if |old(buffer)| < numBytes then numBytes else |old(buffer)|
      ensures buffer[..|old(buffer)|] == old(buffer) && forall i :: |old(buffer)| <= i < |buffer| ==> buffer[i] == 0
      ensures hashPositions == old(hashPositions) && tempReferenceFiles == old(tempReferenceFiles)
      ensures numRefSeqs == old(numRefSeqs) && jumpOut == old(jumpOut) && jumpPos == old(jumpPos)
    {
      if |buffer| < numBytes {
        buffer := buffer + seq(numBytes - |buffer|, _ => 0);
      }
    }

    /** memcpy into the entry buffer at an offset. */
    method Put(offset: nat, bytes: seq<byte>)
      requires offset + |bytes| <= |buffer|
      modifies this
      ensures buffer == old(buffer)[..offset] + bytes + old(buffer)[offset + |bytes|..]
      ensures hashPositions == old(hashPositions) && tempReferenceFiles == old(tempReferenceFiles)
      ensures numRefSeqs == old(numRefSeqs) && jumpOut == old(jumpOut) && jumpPos == old(jumpPos)
    {
      buffer := buffer[..offset] + bytes + buffer[offset + |bytes|..];
    }

    /** fwrite to the jump database: the bytes go to the file position, which moves past them. */
    method Write(bytes: seq<byte>)
      modifies this
      ensures jumpOut == WriteAt(old(jumpOut), old(jumpPos), bytes) && jumpPos == old(jumpPos) + |bytes|
      ensures buffer == old(buffer) && hashPositions == old(hashPositions) && tempReferenceFiles == old(tempReferenceFiles)
      ensures numRefSeqs == old(numRefSeqs)
    {
      jumpOut := WriteAt(jumpOut, jumpPos, bytes);
      jumpPos := jumpPos + |bytes|;
    }

    /**
     * SerializeHashPositions: the buffered records, sorted by
     * SortHashPositionAsc, become one more temporary file of the current
     * reference sequence, and the buffer is emptied.
     */
    method SerializeHashPositions()
      requires |tempReferenceFiles| > 0
      modifies this
      ensures var n := |old(tempReferenceFiles)| - 1;
              tempReferenceFiles == old(tempReferenceFiles)[..n] + [old(tempReferenceFiles)[n] + [SortedFile(old(hashPositions))]]
      ensures hashPositions == []
      ensures buffer == old(buffer) && numRefSeqs == old(numRefSeqs) && jumpOut == old(jumpOut) && jumpPos == old(jumpPos)
    {
      var sorted := SortAsc(hashPositions);
      var temp := SerializeAll(sorted);
      var n := |tempReferenceFiles| - 1;
      tempReferenceFiles := tempReferenceFiles[..n] + [tempReferenceFiles[n] + [temp]];
      hashPositions := [];
    }

    /** HashPosition::Serialize on each record in turn, into a fresh temporary file. */
    static method SerializeAll(hps: seq<HashPosition>) returns (temp: seq<byte>)
      ensures temp == FileBytes(hps)
    {
      temp := [];
      var i := 0;
      while i < |hps|
        invariant i <= |hps| && temp == FileBytes(hps[..i])
      {
        assert hps[..i + 1][..i] == hps[..i];
        temp := temp + RecordBytes(hps[i]);
        i := i + 1;
      }
      assert hps[..i] == hps;
    }

    /** Whether the window at a position holds J, X or N, looked for base by base. */
    method SkipHash(bases: seq<char>, i: nat) returns (skip: bool)
      requires Valid() && i + hashSize as nat <= |bases|
      ensures skip == Skipped(Window(bases, hashSize as nat, i))
    {
      ghost var window := Window(bases, hashSize as nat, i);
      skip := false;
      var j := 0;
      while j < hashSize as nat
        invariant j <= hashSize as nat
        invariant forall m :: 0 <= m < j ==> window[m] != 'J' && window[m] != 'X' && window[m] != 'N'
      {
        var refBase := bases[i + j];
        assert window[j] == refBase;
        if refBase == 'J' || refBase == 'X' || refBase == 'N' {
          skip := true;
          break;
        }
        j := j + 1;
      }
    }

    /**
     * One emitted record joins the sorting buffer, which is flushed when it
     * is full; `emitted` are the records emitted before it, of which the
     * first `flushed` buffers' worth are in temporary files already.
     */
    method PushHashPosition(hp: HashPosition, ghost emitted: seq<HashPosition>, ghost flushed: nat,
                            ghost before: seq<seq<seq<byte>>>, ghost first: seq<seq<byte>>) returns (ghost nowFlushed: nat)
      requires Valid() && flushed * SORTING_CAPACITY <= |emitted|
      requires hashPositions == emitted[flushed * SORTING_CAPACITY..] && |hashPositions| < SORTING_CAPACITY
      requires tempReferenceFiles == before + [first + FullChunks(emitted, flushed)]
      modifies this
      ensures nowFlushed * SORTING_CAPACITY <= |emitted| + 1
      ensures hashPositions == (emitted + [hp])[nowFlushed * SORTING_CAPACITY..] && |hashPositions| < SORTING_CAPACITY
      ensures tempReferenceFiles == before + [first + FullChunks(emitted + [hp], nowFlushed)]
      ensures buffer == old(buffer) && numRefSeqs == old(numRefSeqs) && jumpOut == old(jumpOut) && jumpPos == old(jumpPos)
    {
      var all := emitted + [hp];
      FullChunksGrow(emitted, [hp], flushed);
      var done := first + FullChunks(all, flushed);
      assert tempReferenceFiles == before + [done];
      hashPositions := hashPositions + [hp];
      assert hashPositions == all[flushed * SORTING_CAPACITY..];
      nowFlushed := flushed;
      if |hashPositions| >= maxHashPositions {
        var block := all[flushed * SORTING_CAPACITY..(flushed + 1) * SORTING_CAPACITY];
        FullChunksNext(all, flushed);
        assert hashPositions == block;
        SerializeHashPositions();
        assert tempReferenceFiles == before + [done + [SortedFile(block)]];
        assert done + [SortedFile(block)] == first + FullChunks(all, flushed + 1);
        nowFlushed := flushed + 1;
        assert all[nowFlushed * SORTING_CAPACITY..] == [];
      }
    }

    /** The final flush of a reference sequence: its temporary files are now the chunks of all it emitted. */
    method FlushLast(ghost emitted: seq<HashPosition>, ghost flushed: nat, ghost before: seq<seq<seq<byte>>>, ghost first: seq<seq<byte>>)
      requires flushed * SORTING_CAPACITY <= |emitted|
      requires hashPositions == emitted[flushed * SORTING_CAPACITY..] && |hashPositions| < SORTING_CAPACITY
      requires tempReferenceFiles == before + [first + FullChunks(emitted, flushed)]
      modifies this
      ensures tempReferenceFiles == before + [first + ChunkFiles(emitted)] && hashPositions == []
      ensures buffer == old(buffer) && numRefSeqs == old(numRefSeqs) && jumpOut == old(jumpOut) && jumpPos == old(jumpPos)
    {
      ChunkFilesEnd(emitted, flushed);
      var done := first + FullChunks(emitted, flushed);
      assert tempReferenceFiles == before + [done];
      SerializeHashPositions();
      assert tempReferenceFiles == before + [done + [SortedFile(emitted[flushed * SORTING_CAPACITY..])]];
      assert done + [SortedFile(emitted[flushed * SORTING_CAPACITY..])] == first + ChunkFiles(emitted);
    }

    /**
     * One window start of HashReferenceSequence: a window without J, X or N
     * has its key computed and its record pushed into the sorting buffer; a
     * key that fails ends the scan.
     */
    method ScanWindow(bases: seq<char>, i: nat, ghost emitted: seq<HashPosition>, ghost flushed: nat,
                      ghost before: seq<seq<seq<byte>>>, ghost first: seq<seq<byte>>)
      returns (r: Result<()>, ghost nowEmitted: seq<HashPosition>, ghost nowFlushed: nat)
      requires Valid() && |bases| < U32_LIMIT && i + hashSize as nat <= |bases|
      requires WindowPositions(bases, hashSize as nat, i) == Ok(emitted)
      requires flushed * SORTING_CAPACITY <= |emitted| && hashPositions == emitted[flushed * SORTING_CAPACITY..]
      requires |hashPositions| < SORTING_CAPACITY && tempReferenceFiles == before + [first + FullChunks(emitted, flushed)]
      modifies this
      ensures r.Err? ==> WindowPositions(bases, hashSize as nat, i + 1) == Err(r.failure)
      ensures r.Ok? ==> WindowPositions(bases, hashSize as nat, i + 1) == Ok(nowEmitted)
      ensures r.Ok? ==> nowFlushed * SORTING_CAPACITY <= |nowEmitted| && hashPositions == nowEmitted[nowFlushed * SORTING_CAPACITY..]
      ensures r.Ok? ==> |hashPositions| < SORTING_CAPACITY && tempReferenceFiles == before + [first + FullChunks(nowEmitted, nowFlushed)]
      ensures buffer == old(buffer) && numRefSeqs == old(numRefSeqs) && jumpOut == old(jumpOut) && jumpPos == old(jumpPos)
    {
      nowEmitted, nowFlushed := emitted, flushed;
      var skip := SkipHash(bases, i);
      if skip {
        ScanSkip(bases, hashSize as nat, i, emitted);
        return Ok(()), nowEmitted, nowFlushed;
      }
      var key := CreateHash(bases[i..], hashSize);
      assert bases[i..][..hashSize] == Window(bases, hashSize as nat, i);
      ScanStep(bases, hashSize as nat, i, emitted, key);
      if key.Err? {
        return Err(key.failure), nowEmitted, nowFlushed;
      }
      var hp := HashPosition(key.value, i as u32, 0);
      nowFlushed := PushHashPosition(hp, emitted, flushed, before, first);
      nowEmitted := emitted + [hp];
      return Ok(()), nowEmitted, nowFlushed;
    }

    /**
     * HashReferenceSequence: every window start whose window holds no J, X
     * or N yields its (key, position) record in the sorting buffer; a full
     * buffer is flushed to a temporary file, and whatever is left is flushed
     * once more at the end. A window whose key fails ends the scan.
     */
    method HashReferenceSequence(bases: seq<char>) returns (r: Result<()>)
      requires Valid() && |bases| < U32_LIMIT && hashSize as nat <= |bases| + 1
      requires |tempReferenceFiles| > 0 && hashPositions == []
      modifies this
      ensures r.Err? ==> ReferencePositions(bases, hashSize as nat) == Err(r.failure)
      ensures r.Ok? ==>
                ReferencePositions(bases, hashSize as nat).Ok? &&
                var n := |old(tempReferenceFiles)| - 1;
                tempReferenceFiles == old(tempReferenceFiles)[..n] +
                                      [old(tempReferenceFiles)[n] + ChunkFiles(ReferencePositions(bases, hashSize as nat).value)] &&
                hashPositions == []
      ensures buffer == old(buffer) && numRefSeqs == old(numRefSeqs) && jumpOut == old(jumpOut) && jumpPos == old(jumpPos)
    {
      var maxPositions := |bases| + 1 - hashSize as nat;
      ghost var n := |tempReferenceFiles| - 1;
      ghost var before := tempReferenceFiles[..n];
      ghost var first := tempReferenceFiles[n];
      ghost var emitted: seq<HashPosition> := [];
      ghost var flushed: nat := 0;
      assert FullChunks(emitted, flushed) == [] && first + [] == first;
      assert tempReferenceFiles == before + [first + FullChunks(emitted, flushed)];
      var i := 0;
      r := Ok(());
      while i < maxPositions && r.Ok?
        invariant i <= maxPositions
        invariant r.Err? ==> ReferencePositions(bases, hashSize as nat) == Err(r.failure)
        invariant r.Ok? ==> WindowPositions(bases, hashSize as nat, i) == Ok(emitted)
        invariant r.Ok? ==> flushed * SORTING_CAPACITY <= |emitted| && hashPositions == emitted[flushed * SORTING_CAPACITY..]
        invariant r.Ok? ==> |hashPositions| < SORTING_CAPACITY && tempReferenceFiles == before + [first + FullChunks(emitted, flushed)]
        invariant buffer == old(buffer) && numRefSeqs == old(numRefSeqs) && jumpOut == old(jumpOut) && jumpPos == old(jumpPos)
      {
        r, emitted, flushed := ScanWindow(bases, i, emitted, flushed, before, first);
        if r.Err? {
          WindowFailureStays(bases, hashSize as nat, i + 1, maxPositions);
        }
        i := i + 1;
      }
      if r.Ok? {
        FlushLast(emitted, flushed, before, first);
      }
    }

    /**
     * HashReferenceSequences: the reference count, kept as an unsigned int,
     * then, for each reference sequence in turn, a fresh list of temporary
     * files that HashReferenceSequence fills. The archive's reference
     * sequences are a parameter.
     */
    method HashReferenceSequences(refs: seq<seq<char>>) returns (r: Result<()>)
      requires Valid() && tempReferenceFiles == [] && hashPositions == []
      requires forall k :: 0 <= k < |refs| ==> |refs[k]| < U32_LIMIT
      modifies this
      ensures numRefSeqs as nat == |refs| % U32_LIMIT
      ensures r.Err? ==> exists k :: 0 <= k < |refs| && ReferenceHashes(refs[k], hashSize as nat) == Err(r.failure)
      ensures r.Ok? ==> |tempReferenceFiles| == |refs| && hashPositions == [] && AllHashed(refs, hashSize as nat, tempReferenceFiles)
      ensures buffer == old(buffer) && jumpOut == old(jumpOut) && jumpPos == old(jumpPos)
    {
      numRefSeqs := Truncate(|refs|, U32_LIMIT) as u32;
      r := Ok(());
      var k := 0;
      while k < |refs|
        invariant k <= |refs| && |tempReferenceFiles| == k && hashPositions == [] && r.Ok?
        invariant AllHashed(refs, hashSize as nat, tempReferenceFiles) == true
        invariant numRefSeqs as nat == |refs| % U32_LIMIT
        invariant buffer == old(buffer) && jumpOut == old(jumpOut) && jumpPos == old(jumpPos)
      {
        ghost var before := tempReferenceFiles;
        tempReferenceFiles := tempReferenceFiles + [[]];
        if |refs[k]| + 1 < hashSize as nat {
          return Err(Undefined("the window count wraps around"));
        }
        ghost var grown := tempReferenceFiles;
        assert grown[..k] == before && grown[k] == [];
        r := HashReferenceSequence(refs[k]);
        if r.Err? {
          return;
        }
        ghost var files := ChunkFiles(ReferencePositions(refs[k], hashSize as nat).value);
        assert [] + files == files;
        assert tempReferenceFiles == before + [files];
        AllHashedAppend(refs, hashSize as nat, before, files);
        k := k + 1;
      }
    }

    /**
     * The positions of the first count records, four bytes each, copied into
     * the entry buffer after its twelve header bytes.
     */
    method PutPositions(shuffled: seq<HashPosition>, count: nat, ghost head: seq<byte>)
      requires count <= |shuffled| && |head| == 12 && 12 + 4 * count <= |buffer| && buffer[..12] == head
      modifies this
      ensures |buffer| == |old(buffer)| && buffer[..12 + 4 * count] == head + PositionBytes(shuffled[..count])
      ensures hashPositions == old(hashPositions) && tempReferenceFiles == old(tempReferenceFiles)
      ensures numRefSeqs == old(numRefSeqs) && jumpOut == old(jumpOut) && jumpPos == old(jumpPos)
    {
      Pow256Widths();
      var offset := 12;
      var i := 0;
      assert shuffled[..0] == [];
      while i < count
        invariant i <= count && offset == 12 + 4 * i && |buffer| == |old(buffer)|
        invariant buffer[..offset] == head + PositionBytes(shuffled[..i])
        invariant hashPositions == old(hashPositions) && tempReferenceFiles == old(tempReferenceFiles)
        invariant numRefSeqs == old(numRefSeqs) && jumpOut == old(jumpOut) && jumpPos == old(jumpPos)
      {
        var bytes := LittleEndian(shuffled[i].Position, 4);
        ghost var written := buffer[..offset];
        Put(offset, bytes);
        assert buffer[..offset + 4] == written + bytes;
        assert shuffled[..i + 1][..i] == shuffled[..i];
        offset := offset + 4;
        i := i + 1;
      }
    }

    /** The hash and the count, copied into the first twelve bytes of the entry buffer. */
    method PutHead(hash: u64, count: nat)
      requires count < U32_LIMIT && 12 <= |buffer|
      modifies this
      ensures Pow256(8) == U64_LIMIT && Pow256(4) == U32_LIMIT
      ensures |buffer| == |old(buffer)| && buffer[..12] == LittleEndian(hash, 8) + LittleEndian(count, 4)
      ensures hashPositions == old(hashPositions) && tempReferenceFiles == old(tempReferenceFiles)
      ensures numRefSeqs == old(numRefSeqs) && jumpOut == old(jumpOut) && jumpPos == old(jumpPos)
    {
      Pow256Widths();
      Put(0, LittleEndian(hash, 8));
      Put(8, LittleEndian(count, 4));
    }

    /** The entry of a group that fits, assembled in the entry buffer and written at the file position. */
    method StoreEntry(group: seq<HashPosition>, shuffle: seq<HashPosition> -> seq<HashPosition>)
      requires IsShuffle(shuffle) && Fits(|group|, limitPositions, maxHashPositions)
      modifies this
      ensures |shuffle(group)| == |group|
      ensures var entry := GroupEntry(group, shuffle, limitPositions, maxHashPositions);
              jumpOut == WriteAt(old(jumpOut), old(jumpPos), entry) && jumpPos == old(jumpPos) + |entry| &&
              |buffer| >= |entry| && buffer[..|entry|] == entry
      ensures hashPositions == old(hashPositions) && tempReferenceFiles == old(tempReferenceFiles) && numRefSeqs == old(numRefSeqs)
    {
      var count := CappedCount(|group|, limitPositions, maxHashPositions);
      var shuffled := shuffle(group);
      assert |shuffled| == |multiset(shuffled)| == |group|;
      var entrySize := (count + 1) * 4 + 8;
      CheckBufferSize(entrySize);
      PutHead(shuffled[0].Hash, count);
      var head := LittleEndian(shuffled[0].Hash, 8) + LittleEndian(count, 4);
      PutPositions(shuffled, count, head);
      assert GroupEntry(group, shuffle, limitPositions, maxHashPositions) == head + PositionBytes(shuffled[..count]);
      Write(buffer[..entrySize]);
    }

    /**
     * StoreHash: an empty group is fatal. Otherwise the group is shuffled, and
     * its entry (the hash, the capped count, and that many positions of the
     * shuffled group) is assembled in the entry buffer and written to the
     * database at the file position.
     */
    method StoreHash(group: seq<HashPosition>, shuffle: seq<HashPosition> -> seq<HashPosition>) returns (r: Result<()>)
      requires IsShuffle(shuffle)
      modifies this
      ensures r.Ok? <==> Fits(|group|, limitPositions, maxHashPositions)
      ensures |group| == 0 ==> r == Err(Fatal(EMPTY_HASH))
      ensures r.Err? && |group| > 0 ==> r.failure.Undefined?
      ensures r.Ok? ==> |shuffle(group)| == |group| &&
                        var entry := GroupEntry(group, shuffle, limitPositions, maxHashPositions);
                        jumpOut == WriteAt(old(jumpOut), old(jumpPos), entry) && jumpPos == old(jumpPos) + |entry| &&
                        |buffer| >= |entry| && buffer[..|entry|] == entry
      ensures r.Err? ==> jumpOut == old(jumpOut) && jumpPos == old(jumpPos) && buffer == old(buffer)
      ensures hashPositions == old(hashPositions) && tempReferenceFiles == old(tempReferenceFiles) && numRefSeqs == old(numRefSeqs)
    {
      if |group| == 0 {
        r := Err(Fatal(EMPTY_HASH));
      } else if |group| >= 0x8000_0000 {
        r := Err(Undefined("the group size does not fit an int"));
      } else if (CappedCount(|group|, limitPositions, maxHashPositions) + 1) * 4 + 8 >= 0x8000_0000 {
        r := Err(Undefined("the entry size does not fit an int"));
      } else {
        StoreEntry(group, shuffle);
        r := Ok(());
      }
    }

    /** The database holds, from a start position on, the entries of the groups stored so far, and the file position is after them. */
    ghost predicate Written(groups: seq<seq<HashPosition>>, shuffle: seq<HashPosition> -> seq<HashPosition>, out0: seq<byte>, pos0: nat)
      reads this
    {
      Storable(groups, shuffle) &&
      jumpOut == WriteAt(out0, pos0, Entries(groups, shuffle, limitPositions, maxHashPositions)) &&
      jumpPos == pos0 + |Entries(groups, shuffle, limitPositions, maxHashPositions)|
    }

    /**
     * StoreHash on the open group, seen as one more group after those already
     * written; on success the count of stored groups, kept as an unsigned int,
     * goes up by one.
     */
    method CloseGroup(open: seq<HashPosition>, shuffle: seq<HashPosition> -> seq<HashPosition>, ghost groups: seq<seq<HashPosition>>,
                      numHashes: u32, ghost out0: seq<byte>, ghost pos0: nat) returns (r: Result<u32>)
      requires IsShuffle(shuffle) && Written(groups, shuffle, out0, pos0) && numHashes as nat == |groups| % U32_LIMIT
      modifies this
      ensures r.Ok? <==> Fits(|open|, limitPositions, maxHashPositions)
      ensures |open| == 0 ==> r == Err(Fatal(EMPTY_HASH))
      ensures r.Err? && |open| > 0 ==> r.failure.Undefined?
      ensures r.Ok? ==> r.value as nat == |groups + [open]| % U32_LIMIT && Written(groups + [open], shuffle, out0, pos0)
      ensures hashPositions == old(hashPositions) && tempReferenceFiles == old(tempReferenceFiles) && numRefSeqs == old(numRefSeqs)
    {
      ghost var written := Entries(groups, shuffle, limitPositions, maxHashPositions);
      ghost var before, at := jumpOut, jumpPos;
      assert before == WriteAt(out0, pos0, written) && at == pos0 + |written|;
      var stored := StoreHash(open, shuffle);
      if stored.Err? {
        return Err(stored.failure);
      }
      ghost var entry := GroupEntry(open, shuffle, limitPositions, maxHashPositions);
      EntriesAppend(groups, open, shuffle, limitPositions, maxHashPositions);
      ghost var all := Entries(groups + [open], shuffle, limitPositions, maxHashPositions);
      WriteThen(before, out0, pos0, written, at, entry, all);
      TruncateStep(numHashes as nat, |groups|, U32_LIMIT);
      r := Ok(Truncate(numHashes as nat + 1, U32_LIMIT) as u32);
    }

    /**
     * The merge of one reference sequence's temporary files in
     * BuildJumpDatabase: the smallest waiting record is taken again and
     * again, records of equal hash are gathered into a group, and each group
     * is stored when a larger hash arrives, the last one when the records run
     * out. The count of groups is kept as an unsigned int.
     */
    method MergeReference(files: seq<seq<byte>>, shuffle: seq<HashPosition> -> seq<HashPosition>)
      returns (r: Result<u32>, ghost groups: seq<seq<HashPosition>>)
      requires IsShuffle(shuffle) && |files| <= 256 && FilesSorted(FileRecords(files))
      modifies this
      ensures AllRecords(FileRecords(files)) == multiset{} ==> r == Err(Fatal(EMPTY_HASH))
      ensures r.Err? && AllRecords(FileRecords(files)) != multiset{} ==> r.failure.Undefined?
      ensures r.Ok? ==> HashGroups(groups) && SortedAsc(Flatten(groups)) &&
                        multiset(Flatten(groups)) == AllRecords(FileRecords(files)) &&
                        r.value as nat == |groups| % U32_LIMIT
      ensures r.Ok? ==> Written(groups, shuffle, old(jumpOut), old(jumpPos))
      ensures hashPositions == old(hashPositions) && tempReferenceFiles == old(tempReferenceFiles) && numRefSeqs == old(numRefSeqs)
    {
      r, groups := MergeRecords(FileRecords(files), shuffle);
    }

    /**
     * The loop of MergeRecords: the first record of every file is read into
     * the top row, then records are taken until the top row is empty.
     */
    method MergeLoop(recs: seq<seq<HashPosition>>, shuffle: seq<HashPosition> -> seq<HashPosition>)
      returns (r: Result<()>, endIdx: seq<nat>, ghost endLive: seq<bool>, ghost groups: seq<seq<HashPosition>>,
               open: seq<HashPosition>, numHashes: u32)
      requires IsShuffle(shuffle) && Tagged(recs) && FilesSorted(recs)
      modifies this
      ensures r.Err? ==> r.failure.Undefined? && AllRecords(recs) != multiset{}
      ensures r.Ok? ==> Merging(recs, [], endIdx, endLive, groups, open) == true
      ensures r.Ok? ==> numHashes as nat == |groups| % U32_LIMIT && Written(groups, shuffle, old(jumpOut), old(jumpPos))
      ensures hashPositions == old(hashPositions) && tempReferenceFiles == old(tempReferenceFiles) && numRefSeqs == old(numRefSeqs)
    {
      var row;
      row, endIdx, endLive := OpenTopRow(recs);
      MergeStart(recs, row, endIdx, endLive);
      assert Written([], shuffle, jumpOut, jumpPos);
      groups, open, numHashes := [], [], 0;
      r := Ok(());
      while |row| > 0 && r.Ok?
        invariant r.Err? ==> r.failure.Undefined? && AllRecords(recs) != multiset{}
        // Each merge-state fact below is compared with true so that the verifier
        // keeps it whole instead of checking every conjunct of Merging apart.
        invariant r.Ok? ==> Merging(recs, row, endIdx, endLive, groups, open) == true
        invariant r.Ok? ==> numHashes as nat == |groups| % U32_LIMIT && Written(groups, shuffle, old(jumpOut), old(jumpPos))
        invariant hashPositions == old(hashPositions) && tempReferenceFiles == old(tempReferenceFiles) && numRefSeqs == old(numRefSeqs)
        decreases if r.Ok? then |row| + |Unread(recs, endIdx, |recs|)| + 1 else 0
      {
        var close := |open| > 0 && row[|row| - 1].Hash != open[0].Hash;
        if close {
          var stored := CloseGroup(open, shuffle, groups, numHashes, old(jumpOut), old(jumpPos));
          if stored.Err? {
            OpenMeansRecords(recs, row, endIdx, groups, open);
            r := Err(stored.failure);
          } else {
            numHashes := stored.value;
          }
        }
        if r.Ok? {
          row, endIdx, endLive, groups, open := Advance(recs, row, endIdx, endLive, groups, open, close);
        }
      }
    }

    /** The merge of MergeReference, on the records its files hold. */
    method MergeRecords(recs: seq<seq<HashPosition>>, shuffle: seq<HashPosition> -> seq<HashPosition>)
      returns (r: Result<u32>, ghost groups: seq<seq<HashPosition>>)
      requires IsShuffle(shuffle) && Tagged(recs) && FilesSorted(recs)
      modifies this
      ensures AllRecords(recs) == multiset{} ==> r == Err(Fatal(EMPTY_HASH))
      ensures r.Err? && AllRecords(recs) != multiset{} ==> r.failure.Undefined?
      ensures r.Ok? ==> HashGroups(groups) && SortedAsc(Flatten(groups)) &&
                        multiset(Flatten(groups)) == AllRecords(recs) &&
                        r.value as nat == |groups| % U32_LIMIT
      ensures r.Ok? ==> Written(groups, shuffle, old(jumpOut), old(jumpPos))
      ensures hashPositions == old(hashPositions) && tempReferenceFiles == old(tempReferenceFiles) && numRefSeqs == old(numRefSeqs)
    {
      var merged, idx, open, numHashes;
      ghost var live;
      merged, idx, live, groups, open, numHashes := MergeLoop(recs, shuffle);
      if merged.Err? {
        return Err(merged.failure), groups;
      }
      MergeEnd(recs, idx, live, groups, open);
      r := CloseGroup(open, shuffle, groups, numHashes, old(jumpOut), old(jumpPos));
      groups := groups + [open];
    }

    /** fseek on the jump database: the file position moves, nothing is written. */
    method Seek(pos: nat)
      modifies this
      ensures jumpPos == pos && jumpOut == old(jumpOut)
      ensures buffer == old(buffer) && hashPositions == old(hashPositions) && tempReferenceFiles == old(tempReferenceFiles)
      ensures numRefSeqs == old(numRefSeqs)
    {
      jumpPos := pos;
    }

    /** The header at the start of an empty database: the signature, the hash size, the archive date and the reference count. */
    method WriteHeader(currentTime: u64)
      requires jumpOut == [] && jumpPos == 0
      modifies this
      ensures jumpOut == HeaderBytes(hashSize, currentTime, numRefSeqs) && jumpPos == |jumpOut|
      ensures buffer == old(buffer) && hashPositions == old(hashPositions) && tempReferenceFiles == old(tempReferenceFiles)
      ensures numRefSeqs == old(numRefSeqs)
    {
      Pow256Widths();
      var date := LittleEndian(currentTime as nat, 8);
      var count := LittleEndian(numRefSeqs as nat, 4);
      WriteAtEnd(jumpOut, MOSAIK_SIGNATURE);
      Write(MOSAIK_SIGNATURE);
      WriteAtEnd(jumpOut, [hashSize]);
      Write([hashSize]);
      WriteAtEnd(jumpOut, date);
      Write(date);
      WriteAtEnd(jumpOut, count);
      Write(count);
    }

    /** The three fields of one index entry, written at the file position. */
    method WriteIndexEntry(e: IndexEntry)
      modifies this
      ensures jumpOut == WriteAt(old(jumpOut), old(jumpPos), IndexEntryBytes(e)) && jumpPos == old(jumpPos) + INDEX_ENTRY_SIZE
      ensures buffer == old(buffer) && hashPositions == old(hashPositions) && tempReferenceFiles == old(tempReferenceFiles)
      ensures numRefSeqs == old(numRefSeqs)
    {
      Pow256Widths();
      ghost var out0, pos0 := jumpOut, jumpPos;
      var begin := LittleEndian(Truncate(e.BeginOffset, U64_LIMIT), 8);
      var length := LittleEndian(Truncate(e.EndOffset - e.BeginOffset, U64_LIMIT), 8);
      var count := LittleEndian(e.NumHashes as nat, 4);
      assert IndexEntryBytes(e) == begin + length + count;
      Write(begin);
      Write(length);
      Write(count);
      WriteAtConsecutive(out0, pos0, begin, length);
      WriteAtConsecutive(out0, pos0, begin + length, count);
    }

    /** How a reference's assembly fails: an empty merge is fatal, anything else is undefined behaviour. */
    ghost predicate FailedOn(files: seq<seq<byte>>, failure: Failure)
      requires |files| <= 256
    {
      (AllRecords(FileRecords(files)) == multiset{} ==> failure == Fatal(EMPTY_HASH)) &&
      (AllRecords(FileRecords(files)) != multiset{} ==> failure.Undefined?)
    }

    /**
     * What the assembly of one reference leaves: its records, non-empty,
     * merged into groups of equal hashes in ascending order, their entries
     * as its piece of the database, and their count in its index entry.
     */
    ghost predicate Assembled(files: seq<seq<byte>>, groups: seq<seq<HashPosition>>, piece: seq<byte>, numHashes: u32,
                              shuffle: seq<HashPosition> -> seq<HashPosition>)
      requires |files| <= 256
    {
      AllRecords(FileRecords(files)) != multiset{} &&
      HashGroups(groups) && SortedAsc(Flatten(groups)) && multiset(Flatten(groups)) == AllRecords(FileRecords(files)) &&
      Storable(groups, shuffle) && piece == Entries(groups, shuffle, limitPositions, maxHashPositions) && |piece| > 0 &&
      numHashes as nat == |groups| % U32_LIMIT
    }

    /** The first |index| references are assembled, each into its groups, its piece and its index entry's count. */
    ghost predicate AllAssembled(files: seq<seq<seq<byte>>>, refGroups: seq<seq<seq<HashPosition>>>, pieces: seq<seq<byte>>,
                                 index: seq<IndexEntry>, shuffle: seq<HashPosition> -> seq<HashPosition>)
    {
      |index| == |refGroups| == |pieces| <= |files| &&
      forall k :: 0 <= k < |index| ==>
        |files[k]| <= 256 && Assembled(files[k], refGroups[k], pieces[k], index[k].NumHashes, shuffle)
    }

    /** One more assembled reference extends the assembled ones. */
    lemma AllAssembledAppend(files: seq<seq<seq<byte>>>, refGroups: seq<seq<seq<HashPosition>>>, pieces: seq<seq<byte>>,
                             index: seq<IndexEntry>, groups: seq<seq<HashPosition>>, piece: seq<byte>, e: IndexEntry,
                             shuffle: seq<HashPosition> -> seq<HashPosition>)
      requires AllAssembled(files, refGroups, pieces, index, shuffle) && |index| < |files| && |files[|index|]| <= 256
      requires Assembled(files[|index|], groups, piece, e.NumHashes, shuffle)
      ensures AllAssembled(files, refGroups + [groups], pieces + [piece], index + [e], shuffle)
    {
      forall k | 0 <= k < |index| + 1
        ensures |files[k]| <= 256 && Assembled(files[k], (refGroups + [groups])[k], (pieces + [piece])[k], (index + [e])[k].NumHashes, shuffle) == true
      {
        if k < |index| {
          assert (refGroups + [groups])[k] == refGroups[k] && (pieces + [piece])[k] == pieces[k] && (index + [e])[k] == index[k];
        }
      }
    }

    /**
     * One pass of BuildJumpDatabase's reference loop: the begin offset is
     * the file position, the reference's files are merged and stored, and
     * the end offset is the file position after them.
     */
    method AssembleReference(files: seq<seq<byte>>, shuffle: seq<HashPosition> -> seq<HashPosition>)
      returns (r: Result<IndexEntry>, ghost groups: seq<seq<HashPosition>>)
      requires IsShuffle(shuffle) && |files| <= 256 && FilesSorted(FileRecords(files))
      modifies this
      ensures r.Err? ==> FailedOn(files, r.failure)
      ensures r.Ok? ==> Storable(groups, shuffle) &&
                        Assembled(files, groups, Entries(groups, shuffle, limitPositions, maxHashPositions), r.value.NumHashes, shuffle) &&
                        jumpOut == WriteAt(old(jumpOut), old(jumpPos), Entries(groups, shuffle, limitPositions, maxHashPositions)) &&
                        r.value.BeginOffset == old(jumpPos) &&
                        r.value.EndOffset == jumpPos == old(jumpPos) + |Entries(groups, shuffle, limitPositions, maxHashPositions)|
      ensures hashPositions == old(hashPositions) && tempReferenceFiles == old(tempReferenceFiles) && numRefSeqs == old(numRefSeqs)
    {
      var begin := jumpPos;
      var merged;
      merged, groups := MergeReference(files, shuffle);
      if merged.Err? {
        return Err(merged.failure), groups;
      }
      assert Flatten(groups) != [];
      EntriesNonEmpty(groups, shuffle, limitPositions, maxHashPositions);
      r := Ok(IndexEntry(begin, jumpPos, merged.value));
    }

    /**
     * The reference loop of BuildJumpDatabase, from the file position on:
     * each reference's entries follow the previous reference's, and its
     * index entry records where they begin and end and how many groups they
     * hold. The first reference that fails ends the loop.
     */
    method AssembleReferences(shuffle: seq<HashPosition> -> seq<HashPosition>)
      returns (r: Result<()>, index: seq<IndexEntry>, ghost refGroups: seq<seq<seq<HashPosition>>>, ghost pieces: seq<seq<byte>>)
      requires IsShuffle(shuffle)
      requires forall k :: 0 <= k < |tempReferenceFiles| ==>
                 |tempReferenceFiles[k]| <= 256 && FilesSorted(FileRecords(tempReferenceFiles[k]))
      modifies this
      ensures hashPositions == old(hashPositions) && tempReferenceFiles == old(tempReferenceFiles) && numRefSeqs == old(numRefSeqs)
      ensures r.Err? ==> exists k :: 0 <= k < |tempReferenceFiles| && FailedOn(tempReferenceFiles[k], r.failure)
      ensures r.Ok? ==> |index| == |tempReferenceFiles| && AllAssembled(tempReferenceFiles, refGroups, pieces, index, shuffle) &&
                        Laid(index, pieces, old(jumpPos)) &&
                        jumpOut == WriteAt(old(jumpOut), old(jumpPos), Flat(pieces)) && jumpPos == old(jumpPos) + |Flat(pieces)|
    {
      ghost var out0, start := jumpOut, jumpPos;
      assert WriteAt(out0, start, []) == out0;
      index, refGroups, pieces := [], [], [];
      r := Ok(());
      var k := 0;
      while k < |tempReferenceFiles|
        invariant hashPositions == old(hashPositions) && tempReferenceFiles == old(tempReferenceFiles) && numRefSeqs == old(numRefSeqs)
        invariant k <= |tempReferenceFiles| && |index| == k
        invariant AllAssembled(tempReferenceFiles, refGroups, pieces, index, shuffle) == true
        invariant Laid(index, pieces, start) == true
        invariant jumpOut == WriteAt(out0, start, Flat(pieces)) && jumpPos == start + |Flat(pieces)|
      {
        ghost var before, at := jumpOut, jumpPos;
        var entry;
        ghost var groups;
        entry, groups := AssembleReference(tempReferenceFiles[k], shuffle);
        if entry.Err? {
          return Err(entry.failure), index, refGroups, pieces;
        }
        ghost var piece := Entries(groups, shuffle, limitPositions, maxHashPositions);
        AllAssembledAppend(tempReferenceFiles, refGroups, pieces, index, groups, piece, entry.value, shuffle);
        LaidAppend(index, pieces, start, piece, entry.value);
        FlatAppend(pieces, piece);
        WriteThen(before, out0, start, Flat(pieces), at, piece, Flat(pieces + [piece]));
        index, refGroups, pieces := index + [entry.value], refGroups + [groups], pieces + [piece];
        k := k + 1;
      }
    }

    /** The index entries, one after another from the file position on. */
    method WriteIndex(index: seq<IndexEntry>)
      modifies this
      ensures jumpOut == WriteAt(old(jumpOut), old(jumpPos), IndexBytes(index)) && jumpPos == old(jumpPos) + 20 * |index|
      ensures buffer == old(buffer) && hashPositions == old(hashPositions) && tempReferenceFiles == old(tempReferenceFiles)
      ensures numRefSeqs == old(numRefSeqs)
    {
      ghost var out0, pos0 := jumpOut, jumpPos;
      assert WriteAt(out0, pos0, []) == out0;
      var i := 0;
      while i < |index|
        invariant i <= |index|
        invariant jumpOut == WriteAt(out0, pos0, IndexBytes(index[..i])) && jumpPos == pos0 + 20 * i
        invariant buffer == old(buffer) && hashPositions == old(hashPositions) && tempReferenceFiles == old(tempReferenceFiles)
        invariant numRefSeqs == old(numRefSeqs)
      {
        WriteIndexEntry(index[i]);
        WriteAtConsecutive(out0, pos0, IndexBytes(index[..i]), IndexEntryBytes(index[i]));
        IndexBytesNext(index, i);
        i := i + 1;
      }
      assert index[..|index|] == index;
    }

    /**
     * BuildJumpDatabase: the header, a seek over the reserved space and the
     * index, the entries of every reference one after another with their
     * offsets and counts recorded, and the index written at offset 50 at
     * the end. The archive date is a parameter.
     */
    method BuildJumpDatabase(currentTime: u64, shuffle: seq<HashPosition> -> seq<HashPosition>)
      returns (r: Result<()>, index: seq<IndexEntry>, ghost refGroups: seq<seq<seq<HashPosition>>>, ghost pieces: seq<seq<byte>>)
      requires IsShuffle(shuffle) && jumpOut == [] && jumpPos == 0
      requires |tempReferenceFiles| == numRefSeqs as nat
      requires forall k :: 0 <= k < |tempReferenceFiles| ==>
                 |tempReferenceFiles[k]| <= 256 && FilesSorted(FileRecords(tempReferenceFiles[k]))
      modifies this
      ensures hashPositions == old(hashPositions) && tempReferenceFiles == old(tempReferenceFiles) && numRefSeqs == old(numRefSeqs)
      ensures r.Err? ==> exists k :: 0 <= k < |tempReferenceFiles| && FailedOn(tempReferenceFiles[k], r.failure)
      ensures r.Ok? ==> |index| == |tempReferenceFiles| && AllAssembled(tempReferenceFiles, refGroups, pieces, index, shuffle) &&
                        Laid(index, pieces, EntriesStart(numRefSeqs)) &&
                        jumpOut == Database(HeaderBytes(hashSize, currentTime, numRefSeqs), EntriesStart(numRefSeqs), Flat(pieces), index)
    {
      WriteHeader(currentTime);
      ghost var header := jumpOut;
      var start := jumpPos + Truncate(RESERVED_SPACE + INDEX_ENTRY_SIZE * numRefSeqs as nat, U32_LIMIT);
      assert start == EntriesStart(numRefSeqs);
      Seek(start);
      r, index, refGroups, pieces := AssembleReferences(shuffle);
      if r.Err? {
        return;
      }
      Seek(REFERENCE_SEQUENCE_INDEX_OFFSET);
      WriteIndex(index);
    }

    /**
     * The creation of a jump database as the program runs it: the reference
     * sequences are hashed into sorted temporary files, then the database is
     * built from them.
     */
    method CreateJumpDatabase(refs: seq<seq<char>>, currentTime: u64, shuffle: seq<HashPosition> -> seq<HashPosition>)
      returns (r: Result<()>, index: seq<IndexEntry>, ghost refGroups: seq<seq<seq<HashPosition>>>, ghost pieces: seq<seq<byte>>)
      requires Valid() && IsShuffle(shuffle)
      requires tempReferenceFiles == [] && hashPositions == [] && jumpOut == [] && jumpPos == 0
      requires |refs| < U32_LIMIT && forall k :: 0 <= k < |refs| ==> |refs[k]| < U32_LIMIT
      modifies this
      ensures numRefSeqs as nat == |refs|
      ensures r.Err? ==> (exists k :: 0 <= k < |refs| && ReferenceHashes(refs[k], hashSize as nat) == Err(r.failure)) ||
                         (exists k :: 0 <= k < |tempReferenceFiles| && |tempReferenceFiles[k]| <= 256 && FailedOn(tempReferenceFiles[k], r.failure))
      ensures r.Ok? ==> |tempReferenceFiles| == |refs| && AllHashed(refs, hashSize as nat, tempReferenceFiles) &&
                        |index| == |refs| && AllAssembled(tempReferenceFiles, refGroups, pieces, index, shuffle) &&
                        Laid(index, pieces, EntriesStart(numRefSeqs)) &&
                        jumpOut == Database(HeaderBytes(hashSize, currentTime, numRefSeqs), EntriesStart(numRefSeqs), Flat(pieces), index)
    {
      r := HashReferenceSequences(refs);
      if r.Err? {
        return r, [], [], [];
      }
      AllHashedMergeable(refs, hashSize as nat, tempReferenceFiles);
      r, index, refGroups, pieces := BuildJumpDatabase(currentTime, shuffle);
    }
  }
}
