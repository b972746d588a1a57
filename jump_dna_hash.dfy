/**
 * The query side of the jump database: CJumpDnaHash looks a k-mer key up in the
 * key table, follows the stored offset into the positions file, and inserts one
 * hash region per stored position into the caller's region tree. The key table and
 * the positions file are byte sequences (kept in memory or read from disk, the bytes
 * are the same), the MRU cache is a map and the region tree is the sequence of
 * regions inserted into it.
 */
module JumpQuery {
  import opened Bytes
  import opened Outcome
  import MemoryUtilities

  /** Bytes per key-table entry: a 40-bit little-endian offset into the positions file. */
  const KEY_LENGTH: nat := 5
  /** The key-table value of a key that has no positions. */
  const ABSENT: nat := 0xff_ffff_ffff
  /** Offsets from here on are negative as an off_type, and fseek64 refuses them. */
  const SIGNED_LIMIT: nat := 0x8000_0000_0000_0000
  /** The length of the disk-path buffer when the hash is opened. */
  const INITIAL_BUFFER_LEN: u32 := 4096

  /** A stretch of the reference that matches a stretch of the query. */
  datatype HashRegion = HashRegion(Begin: u32, End: u32, QueryBegin: u32, QueryEnd: u32)

  /** The share of a key's positions a lookup used, as the fraction used / stored. */
  datatype Occupancy = Occupancy(used: nat, stored: nat)

  /** All positions used: the occupancy 1.0. */
  const FULL := Occupancy(1, 1)

  /** What the key table and positions file say about one key. */
  datatype Hit = Absent | Found(positions: seq<u32>, occupancy: Occupancy)

  /** The data and settings one lookup depends on. */
  datatype Store = Store(hashSize: u8, keys: seq<byte>, positions: seq<byte>,
                         keysInMemory: bool, positionsInMemory: bool, useCache: bool,
                         limitPositions: bool, maxHashPositions: nat)

  /** What one call of Get produces: the occupancy, the regions it inserts and the cache after it. */
  datatype Answer = Answer(occupancy: Occupancy, regions: seq<HashRegion>, cache: map<u64, seq<u32>>)

  /** The region for a k-mer found at reference position p and query position q. */
  function Region(p: u32, q: u32, hashSize: u8): (h: HashRegion)
    ensures h.Begin == p && h.QueryBegin == q
    ensures (h.End - h.Begin - (hashSize - 1)) % U32_LIMIT == 0
    ensures (h.QueryEnd - h.QueryBegin - (hashSize - 1)) % U32_LIMIT == 0
    ensures 0 < hashSize && p + hashSize <= U32_LIMIT ==> h.End - h.Begin + 1 == hashSize
    ensures 0 < hashSize && q + hashSize <= U32_LIMIT ==> h.QueryEnd - h.QueryBegin + 1 == hashSize
  {
    HashRegion(p, Truncate(p + hashSize - 1, U32_LIMIT), q, Truncate(q + hashSize - 1, U32_LIMIT))
  }

  /** One region per position, in order. */
  function Regions(ps: seq<u32>, q: u32, hashSize: u8): seq<HashRegion>
  {
    seq(|ps|, i requires 0 <= i < |ps| => Region(ps[i], q, hashSize))
  }

  lemma RegionsAppend(ps: seq<u32>, p: u32, q: u32, hashSize: u8)
    ensures Regions(ps + [p], q, hashSize) == Regions(ps, q, hashSize) + [Region(p, q, hashSize)]
  {
    assert (ps + [p])[|ps|] == p;
  }

  /** The number of positions used out of `count` stored, when limiting may be on. */
  function Capped(count: nat, limitPositions: bool, maxHashPositions: nat): (n: nat)
    ensures n <= count
    ensures limitPositions ==> n <= maxHashPositions
    ensures n < count <==> limitPositions && count > maxHashPositions
  {
    if limitPositions && count > maxHashPositions then maxHashPositions else count
  }

  /** The occupancy of a lookup that found `count` stored positions. */
  function OccupancyOf(count: nat, limitPositions: bool, maxHashPositions: nat): (o: Occupancy)
    ensures 0 < o.stored && o.used <= o.stored
    ensures o.used * count == Capped(count, limitPositions, maxHashPositions) * o.stored
    ensures o == FULL <==> Capped(count, limitPositions, maxHashPositions) == count || (count == 1 && maxHashPositions == 1)
  {
    if limitPositions && count > maxHashPositions then Occupancy(maxHashPositions, count) else FULL
  }

  /** A 32-bit count or position (four bytes), read as memcpy reads it from a little-endian file. */
  function U32At(blob: seq<byte>, at: nat): u32
    requires at + 4 <= |blob|
  {
    Pow256Widths();
    FromLittleEndian(blob[at..at + 4])
  }

  /** The key table's offset for a key: key * KEY_LENGTH in a 64-bit variable. */
  function KeyOffset(key: u64): nat
  {
    Truncate(key * KEY_LENGTH, U64_LIMIT)
  }

  lemma KeyOffsetExact(key: u64)
    requires key * KEY_LENGTH < U64_LIMIT
    ensures KeyOffset(key) == key * KEY_LENGTH
    ensures KeyOffset(key) % KEY_LENGTH == 0
  {
  }

  /**
   * The positions-file offset stored for a key. In memory, the five bytes must lie
   * inside the table. On disk, a seek past the end reads nothing and leaves the
   * offset at 0, a partial read leaves it indeterminate, and a negative seek leaves
   * the file wherever the previous lookup left it.
   */
  function StoredOffset(keys: seq<byte>, key: u64, inMemory: bool): (r: Result<nat>)
    ensures r.Ok? ==> r.value < Pow256(KEY_LENGTH)
    ensures inMemory ==> (r.Ok? <==> KeyOffset(key) + KEY_LENGTH <= |keys|)
    ensures !inMemory && KeyOffset(key) < SIGNED_LIMIT && |keys| <= KeyOffset(key) ==> r == Ok(0)
  {
    var offset := KeyOffset(key);
    if !inMemory && offset >= SIGNED_LIMIT then Err(Undefined("a negative seek leaves the key file where it was"))
    else if offset + KEY_LENGTH <= |keys| then Ok(FromLittleEndian(keys[offset..offset + KEY_LENGTH]))
    else if !inMemory && offset >= |keys| then Ok(0)
    else Err(Undefined("the key entry runs past the end of the key table"))
  }

  /**
   * The first n of the positions stored from `base`: the i-th sits at the 32-bit
   * offset first + 4 * i, counted modulo 2^32 as the unsigned bufferOffset is.
   */
  function PositionsAt(blob: seq<byte>, base: nat, first: nat, n: nat): (r: Result<seq<u32>>)
    ensures r.Ok? ==> |r.value| == n
    ensures r.Err? ==> r == Err(Undefined(PAST_THE_END))
  {
    if n == 0 then Ok([])
    else
      var prev := PositionsAt(blob, base, first, n - 1);
      var o := base + Truncate(first + 4 * (n - 1), U32_LIMIT);
      if prev.Err? then prev
      else if o + 4 <= |blob| then Ok(prev.value + [U32At(blob, o)])
      else Err(Undefined(PAST_THE_END))
  }

  const PAST_THE_END := "a position is read past the bytes that hold the entry"

  /** Once a read runs past the end, reading more positions fails in the same way. */
  lemma {:induction false} PositionsAtStaysErr(blob: seq<byte>, base: nat, first: nat, i: nat, n: nat)
    requires i <= n && PositionsAt(blob, base, first, i).Err?
    ensures PositionsAt(blob, base, first, n) == PositionsAt(blob, base, first, i)
    decreases n
  {
    if n > i {
      PositionsAtStaysErr(blob, base, first, i, n - 1);
    }
  }

  /** The record of an in-memory positions file at `at`: count, cap, positions. */
  function MemoryRecord(blob: seq<byte>, at: nat, limitPositions: bool, maxHashPositions: nat): Result<Hit>
  {
    if at + 4 > |blob| then Err(Undefined("the count is read past the end of the positions"))
    else
      var count := U32At(blob, at);
      var ps := PositionsAt(blob, at, 4, Capped(count, limitPositions, maxHashPositions));
      if ps.Err? then Err(ps.failure)
      else Ok(Found(ps.value, OccupancyOf(count, limitPositions, maxHashPositions)))
  }

  /** The count a disk read finds at `at`: nothing is read at the very end of the file. */
  function DiskCount(blob: seq<byte>, at: nat): Result<u32>
  {
    if at + 4 <= |blob| then Ok(U32At(blob, at))
    else if at == |blob| then Ok(0)
    else Err(Undefined("a partial read leaves the count indeterminate"))
  }

  /** The bytes of an entry of `count` positions, in the unsigned entrySize. */
  function EntrySize(count: u32): (size: u32)
    ensures count < 0x4000_0000 ==> size == 4 * count
  {
    Truncate(count * 4, U32_LIMIT)
  }

  /** The record of an on-disk positions file at `at`: count, one read of the entry into the buffer, cap, positions. */
  function DiskRecord(blob: seq<byte>, at: nat, limitPositions: bool, maxHashPositions: nat): Result<Hit>
  {
    match DiskCount(blob, at)
    case Err(f) => Err(f)
    case Ok(count) =>
      var size := EntrySize(count);
      if size > 0 && at + 4 + size > |blob| then Err(Undefined("a partial read leaves the entry indeterminate"))
      else
        var filled := if size == 0 then [] else blob[at + 4..at + 4 + size];
        var ps := PositionsAt(filled, 0, 0, Capped(count, limitPositions, maxHashPositions));
        if ps.Err? then Err(ps.failure)
        else Ok(Found(ps.value, OccupancyOf(count, limitPositions, maxHashPositions)))
  }

  /** What the two files say about a key. */
  function Fetch(st: Store, key: u64): Result<Hit>
  {
    match StoredOffset(st.keys, key, st.keysInMemory)
    case Err(f) => Err(f)
    case Ok(at) => Located(st, at)
  }

  /** What the positions file says at the offset the key table gave. */
  function Located(st: Store, at: nat): Result<Hit>
  {
    if at == ABSENT then Ok(Absent)
    else if at > |st.positions| then Err(Fatal("A position was specified that is larger than the jump positions database."))
    else Record(st, at)
  }

  /** The record at `at`, read by the path the settings choose. */
  function Record(st: Store, at: nat): Result<Hit>
  {
    if st.positionsInMemory then MemoryRecord(st.positions, at, st.limitPositions, st.maxHashPositions)
    else DiskRecord(st.positions, at, st.limitPositions, st.maxHashPositions)
  }

  /** One call of Get: a cache hit, or a fetch whose disk-path positions enter the cache. */
  function Query(st: Store, cache: map<u64, seq<u32>>, key: u64, q: u32): Result<Answer>
  {
    if st.useCache && key in cache then Ok(Answer(FULL, Regions(cache[key], q, st.hashSize), cache))
    else
      match Fetch(st, key)
      case Err(f) => Err(f)
      case Ok(Absent) => Ok(Answer(FULL, [], cache))
      case Ok(Found(ps, occupancy)) =>
        var cache' := if st.useCache && !st.positionsInMemory then cache[key := ps] else cache;
        Ok(Answer(occupancy, Regions(ps, q, st.hashSize), cache'))
  }

  /** The positions as the positions file stores them, four bytes each. */
  function PositionBytes(ps: seq<u32>): (bs: seq<byte>)
    ensures |bs| == 4 * |ps|
  {
    if |ps| == 0 then []
    else Pow256Widths(); LittleEndian(ps[0], 4) + PositionBytes(ps[1..])
  }

  lemma {:induction false} PositionBytesAt(ps: seq<u32>, i: nat)
    requires i < |ps|
    ensures Pow256(4) == U32_LIMIT
    ensures PositionBytes(ps)[4 * i..4 * i + 4] == LittleEndian(ps[i], 4)
  {
    Pow256Widths();
    if i > 0 {
      PositionBytesAt(ps[1..], i - 1);
      var rest := PositionBytes(ps[1..]);
      assert PositionBytes(ps) == LittleEndian(ps[0], 4) + rest;
      assert PositionBytes(ps)[4 * i..4 * i + 4]
          == rest[4 * (i - 1)..4 * (i - 1) + 4];
    }
  }

  /** The positions stored from `start`, four little-endian bytes each. */
  predicate StoresPositions(blob: seq<byte>, start: nat, ps: seq<u32>)
  {
    Pow256Widths();
    start + 4 * |ps| <= |blob| &&
    forall i :: 0 <= i < |ps| ==> blob[start + 4 * i..start + 4 * i + 4] == LittleEndian(ps[i], 4)
  }

  /** The encoding lays every position out where the reader looks for it. */
  lemma PositionBytesStores(ps: seq<u32>)
    ensures StoresPositions(PositionBytes(ps), 0, ps)
  {
    forall i | 0 <= i < |ps|
      ensures PositionBytes(ps)[4 * i..4 * i + 4] == LittleEndian(ps[i], 4)
    {
      PositionBytesAt(ps, i);
    }
  }

  /** Reading the encoding of fewer than 2^30 positions gives the positions back. */
  lemma PositionBytesRoundTrip(ps: seq<u32>)
    requires |ps| < 0x4000_0000
    ensures PositionsAt(PositionBytes(ps), 0, 0, |ps|) == Ok(ps)
  {
    PositionBytesStores(ps);
    ReadBackAll(PositionBytes(ps), ps);
  }

  lemma ReadBackAll(blob: seq<byte>, ps: seq<u32>)
    requires |ps| < 0x4000_0000 && StoresPositions(blob, 0, ps)
    ensures PositionsAt(blob, 0, 0, |ps|) == Ok(ps)
  {
    PositionsAtReadBack(blob, 0, 0, ps, |ps|);
    assert ps[..|ps|] == ps;
  }

  /** Stored positions read back, whatever the base and the first offset, while no offset wraps. */
  lemma {:induction false} PositionsAtReadBack(blob: seq<byte>, base: nat, first: nat, ps: seq<u32>, n: nat)
    requires n <= |ps| && first + 4 * |ps| <= U32_LIMIT
    requires StoresPositions(blob, base + first, ps)
    ensures PositionsAt(blob, base, first, n) == Ok(ps[..n])
  {
    if n > 0 {
      PositionsAtReadBack(blob, base, first, ps, n - 1);
      assert Truncate(first + 4 * (n - 1), U32_LIMIT) == first + 4 * (n - 1);
      StoredPositionAt(blob, base + first, ps, n - 1);
      assert ps[..n] == ps[..n - 1] + [ps[n - 1]];
    }
  }

  /** The i-th stored position reads back from its four bytes. */
  lemma StoredPositionAt(blob: seq<byte>, start: nat, ps: seq<u32>, i: nat)
    requires i < |ps| && StoresPositions(blob, start, ps)
    ensures start + 4 * i + 4 <= |blob| && U32At(blob, start + 4 * i) == ps[i]
  {
    Pow256Widths();
    assert blob[start + 4 * i..start + 4 * i + 4] == LittleEndian(ps[i], 4);
  }

  /** Positions stored in a stretch of a file are stored at the front of that stretch. */
  lemma StoresInSlice(blob: seq<byte>, start: nat, end: nat, ps: seq<u32>)
    requires StoresPositions(blob, start, ps) && start + 4 * |ps| <= end <= |blob|
    ensures StoresPositions(blob[start..end], 0, ps)
  {
    Pow256Widths();
    forall i | 0 <= i < |ps|
      ensures blob[start..end][4 * i..4 * i + 4] == LittleEndian(ps[i], 4)
    {
      SliceOfSlice(blob, start, end, 4 * i, 4 * i + 4);
    }
  }

  lemma SliceOfSlice(blob: seq<byte>, start: nat, end: nat, x: nat, y: nat)
    requires x <= y && start + y <= end <= |blob|
    ensures blob[start..end][x..y] == blob[start + x..start + y]
  {
    forall k | 0 <= k < y - x
      ensures blob[start..end][x..y][k] == blob[start + x..start + y][k]
    {
    }
  }

  lemma Pow256Five()
    ensures Pow256(KEY_LENGTH) == ABSENT + 1
  {
    Pow256Widths();
    assert Pow256(KEY_LENGTH) == 256 * Pow256(4);
  }

  /** A key whose table entry holds the sentinel has no positions. */
  lemma FetchAbsent(st: Store, key: u64)
    requires KeyOffset(key) + KEY_LENGTH <= |st.keys|
    requires st.keysInMemory || KeyOffset(key) < SIGNED_LIMIT
    requires FromLittleEndian(st.keys[KeyOffset(key)..KeyOffset(key) + KEY_LENGTH]) == ABSENT
    ensures Fetch(st, key) == Ok(Absent)
    ensures forall cache: map<u64, seq<u32>>, q: u32 :: key !in cache ==> Query(st, cache, key, q) == Ok(Answer(FULL, [], cache))
  {
  }

  /** An offset beyond the positions file is fatal. */
  lemma FetchBeyond(st: Store, key: u64)
    requires StoredOffset(st.keys, key, st.keysInMemory).Ok?
    requires StoredOffset(st.keys, key, st.keysInMemory).value != ABSENT
    requires StoredOffset(st.keys, key, st.keysInMemory).value > |st.positions|
    ensures Fetch(st, key).Err? && Fetch(st, key).failure.Fatal?
  {
  }

  /**
   * A positions record at `at`: the count as four little-endian bytes, then the
   * positions, four bytes each.
   */
  predicate HoldsRecord(blob: seq<byte>, at: nat, ps: seq<u32>)
  {
    Pow256Widths();
    |ps| < U32_LIMIT && at + 4 <= |blob| &&
    blob[at..at + 4] == LittleEndian(|ps|, 4) && StoresPositions(blob, at + 4, ps)
  }

  /** The count of a record reads back. */
  lemma RecordCount(blob: seq<byte>, at: nat, ps: seq<u32>)
    requires HoldsRecord(blob, at, ps)
    ensures at + 4 <= |blob| && U32At(blob, at) == |ps|
  {
    Pow256Widths();
  }

  /** The in-memory path reads a well-formed record as the capped prefix of its positions. */
  lemma MemoryRecordReadsBack(blob: seq<byte>, at: nat, ps: seq<u32>, limitPositions: bool, maxHashPositions: nat)
    requires |ps| < 0x4000_0000 && HoldsRecord(blob, at, ps)
    ensures MemoryRecord(blob, at, limitPositions, maxHashPositions)
         == Ok(Found(ps[..Capped(|ps|, limitPositions, maxHashPositions)], OccupancyOf(|ps|, limitPositions, maxHashPositions)))
  {
    RecordCount(blob, at, ps);
    PositionsAtReadBack(blob, at, 4, ps, Capped(|ps|, limitPositions, maxHashPositions));
  }

  /** The disk path reads a well-formed record as the capped prefix of its positions. */
  lemma DiskRecordReadsBack(blob: seq<byte>, at: nat, ps: seq<u32>, limitPositions: bool, maxHashPositions: nat)
    requires |ps| < 0x4000_0000 && HoldsRecord(blob, at, ps)
    ensures DiskRecord(blob, at, limitPositions, maxHashPositions)
         == Ok(Found(ps[..Capped(|ps|, limitPositions, maxHashPositions)], OccupancyOf(|ps|, limitPositions, maxHashPositions)))
  {
    RecordCount(blob, at, ps);
    assert DiskCount(blob, at) == Ok(|ps|);
    assert EntrySize(|ps|) == 4 * |ps|;
    if |ps| > 0 {
      StoresInSlice(blob, at + 4, at + 4 + 4 * |ps|, ps);
      PositionsAtReadBack(blob[at + 4..at + 4 + 4 * |ps|], 0, 0, ps, Capped(|ps|, limitPositions, maxHashPositions));
    }
  }

  /**
   * A key whose entry points at a well-formed record finds exactly the first
   * Capped(count) stored positions, with occupancy cap / count, whether the positions
   * are read from memory or from disk.
   */
  lemma FetchReadsRecord(st: Store, key: u64, at: nat, ps: seq<u32>)
    requires KeyOffset(key) + KEY_LENGTH <= |st.keys|
    requires st.keysInMemory || KeyOffset(key) < SIGNED_LIMIT
    requires at < ABSENT
    requires FromLittleEndian(st.keys[KeyOffset(key)..KeyOffset(key) + KEY_LENGTH]) == at
    requires |ps| < 0x4000_0000 && HoldsRecord(st.positions, at, ps)
    ensures var n := Capped(|ps|, st.limitPositions, st.maxHashPositions);
            Fetch(st, key) == Ok(Found(ps[..n], OccupancyOf(|ps|, st.limitPositions, st.maxHashPositions)))
  {
    assert StoredOffset(st.keys, key, st.keysInMemory) == Ok(at);
    if st.positionsInMemory {
      MemoryRecordReadsBack(st.positions, at, ps, st.limitPositions, st.maxHashPositions);
    } else {
      DiskRecordReadsBack(st.positions, at, ps, st.limitPositions, st.maxHashPositions);
    }
  }

  /**
   * Asking again for the same key inserts the same regions and leaves the cache as
   * the first call left it: a disk-path miss fills the cache with exactly the
   * positions it emitted.
   */
  lemma QueryRepeats(st: Store, cache: map<u64, seq<u32>>, key: u64, q: u32)
    requires Query(st, cache, key, q).Ok?
    ensures var a := Query(st, cache, key, q).value;
            Query(st, a.cache, key, q).Ok? &&
            Query(st, a.cache, key, q).value.regions == a.regions &&
            Query(st, a.cache, key, q).value.cache == a.cache
  {
    if !(st.useCache && key in cache) {
      var a := Query(st, cache, key, q).value;
      if Fetch(st, key).value.Found? && st.useCache && !st.positionsInMemory {
        assert key in a.cache && a.cache[key] == Fetch(st, key).value.positions;
      }
    }
  }

  /** The byte the metadata file starts with, as fgetc returns it: EOF becomes 0xFF in an unsigned char. */
  function MetaHashSize(meta: seq<byte>): u8
  {
    if |meta| == 0 then 0xFF else meta[0]
  }

  lemma MetaHashSizeMatches(meta: seq<byte>, hashSize: u8)
    requires hashSize < 0xFF
    ensures MetaHashSize(meta) == hashSize <==> |meta| > 0 && meta[0] == hashSize
  {
  }

  /** An opened jump database (CJumpDnaHash). */
  class JumpDnaHash {
    const hashSize: u8
    /** The key table: in memory or on disk, the bytes Get reads are the file's. */
    const keys: seq<byte>
    const positions: seq<byte>
    const keepKeysInMemory: bool
    const keepPositionsInMemory: bool
    var useCache: bool
    var limitPositions: bool
    var maxHashPositions: u16
    /** The MRU cache: key to the positions a disk-path lookup emitted. */
    var cache: map<u64, seq<u32>>
    /** The disk-path read buffer and its tracked length. */
    var buffer: array<byte>
    var bufferLen: u32

    ghost predicate Valid()
      reads this
    {
      buffer.Length == bufferLen
    }

    /** The data and settings a lookup depends on. */
    ghost function State(): Store
      reads this
    {
      Store(hashSize, keys, positions, keepKeysInMemory, keepPositionsInMemory, useCache, limitPositions, maxHashPositions)
    }

    /**
     * The constructor once the metadata file has been checked: the cache is used
     * when it has room and the data is not all in memory, and a position limit turns
     * limiting on.
     */
    constructor (hashSize: u8, keys: seq<byte>, positions: seq<byte>, numPositions: u16,
                 keepKeysInMemory: bool, keepPositionsInMemory: bool, numCachedElements: u32)
      ensures Valid() && fresh(buffer) && bufferLen == INITIAL_BUFFER_LEN
      ensures this.hashSize == hashSize && this.keys == keys && this.positions == positions
      ensures this.keepKeysInMemory == keepKeysInMemory && this.keepPositionsInMemory == keepPositionsInMemory
      ensures useCache <==> numCachedElements > 0 && !(keepKeysInMemory && keepPositionsInMemory)
      ensures limitPositions <==> numPositions > 0
      ensures maxHashPositions == numPositions
      ensures cache == map[]
    {
      this.hashSize := hashSize;
      this.keys := keys;
      this.positions := positions;
      this.keepKeysInMemory := keepKeysInMemory;
      this.keepPositionsInMemory := keepPositionsInMemory;
      limitPositions := false;
      maxHashPositions := 0;
      cache := map[];
      buffer := new byte[INITIAL_BUFFER_LEN];
      bufferLen := INITIAL_BUFFER_LEN;
      var use := false;
      if numCachedElements > 0 {
        use := true;
      }
      if keepKeysInMemory && keepPositionsInMemory {
        use := false;
      }
      useCache := use;
      new;
      if numPositions > 0 {
        RandomizeAndTrimHashPositions(numPositions);
      }
    }

    /** Opens a database: a metadata hash size other than the requested one is fatal. */
    static method Open(hashSize: u8, keys: seq<byte>, meta: seq<byte>, positions: seq<byte>, numPositions: u16,
                       keepKeysInMemory: bool, keepPositionsInMemory: bool, numCachedElements: u32)
      returns (r: Result<JumpDnaHash>)
      ensures r.Err? <==> MetaHashSize(meta) != hashSize
      ensures r.Err? ==> r.failure.Fatal?
      ensures r.Ok? ==> (fresh(r.value) && r.value.Valid() && r.value.State() ==
        Store(hashSize, keys, positions, keepKeysInMemory, keepPositionsInMemory,
              numCachedElements > 0 && !(keepKeysInMemory && keepPositionsInMemory),
              numPositions > 0, numPositions))
      ensures r.Ok? ==> r.value.cache == map[]
    {
      var jumpHashSize := if |meta| == 0 then 0xFF else meta[0];
      if jumpHashSize != hashSize {
        return Err(Fatal("The supplied hash size is different from the hash size of the jump database."));
      }
      var h := new JumpDnaHash(hashSize, keys, positions, numPositions, keepKeysInMemory, keepPositionsInMemory, numCachedElements);
      r := Ok(h);
    }

    /** Turns on the limit of numHashPositions positions per key. */
    method RandomizeAndTrimHashPositions(numHashPositions: u16)
      modifies this
      ensures limitPositions && maxHashPositions == numHashPositions
      ensures useCache == old(useCache) && cache == old(cache)
      ensures buffer == old(buffer) && bufferLen == old(bufferLen)
    {
      limitPositions := true;
      maxHashPositions := numHashPositions;
    }

    /** Reads the key's entry of the key table. */
    method ReadKey(key: u64) returns (r: Result<nat>)
      ensures r == StoredOffset(keys, key, keepKeysInMemory)
    {
      var offset := (key * KEY_LENGTH) % U64_LIMIT;
      if !keepKeysInMemory && offset >= SIGNED_LIMIT {
        return Err(Undefined("a negative seek leaves the key file where it was"));
      }
      if offset + KEY_LENGTH <= |keys| {
        r := Ok(FromLittleEndian(keys[offset..offset + KEY_LENGTH]));
      } else if !keepKeysInMemory && offset >= |keys| {
        r := Ok(0);
      } else {
        r := Err(Undefined("the key entry runs past the end of the key table"));
      }
    }

    /** Inserts one region per position into the region tree. */
    method EmitRegions(ps: seq<u32>, queryPosition: u32, hrt: seq<HashRegion>) returns (out: seq<HashRegion>)
      ensures out == hrt + Regions(ps, queryPosition, hashSize)
    {
      out := hrt;
      var i := 0;
      while i < |ps|
        invariant 0 <= i <= |ps|
        invariant out == hrt + Regions(ps[..i], queryPosition, hashSize)
      {
        RegionsAppend(ps[..i], ps[i], queryPosition, hashSize);
        assert ps[..i + 1] == ps[..i] + [ps[i]];
        out := out + [Region(ps[i], queryPosition, hashSize)];
        i := i + 1;
      }
      assert ps[..|ps|] == ps;
    }

    /** The in-memory path: the count, the cap, then each position at the wrapping bufferOffset. */
    method GetFromMemory(at: nat, queryPosition: u32, hrt: seq<HashRegion>) returns (r: Result<Occupancy>, out: seq<HashRegion>)
      ensures var rec := MemoryRecord(positions, at, limitPositions, maxHashPositions);
              (rec.Err? ==> r == Err(rec.failure)) &&
              (rec.Ok? ==> rec.value.Found? && r == Ok(rec.value.occupancy) &&
                           out == hrt + Regions(rec.value.positions, queryPosition, hashSize))
    {
      out := hrt;
      if at + 4 > |positions| {
        return Err(Undefined("the count is read past the end of the positions")), out;
      }
      var count := U32At(positions, at);
      var numPositions: nat := count;
      var occupancy := FULL;
      if limitPositions && numPositions > maxHashPositions as nat {
        occupancy := Occupancy(maxHashPositions as nat, numPositions);
        numPositions := maxHashPositions as nat;
      }
      var bufferOffset: u32 := 4;
      var i: nat := 0;
      ghost var read: seq<u32> := [];
      while i < numPositions
        invariant i <= numPositions
        invariant bufferOffset == Truncate(4 + 4 * i, U32_LIMIT)
        invariant PositionsAt(positions, at, 4, i) == Ok(read)
        invariant out == hrt + Regions(read, queryPosition, hashSize)
      {
        if at + bufferOffset + 4 > |positions| {
          PositionsAtStaysErr(positions, at, 4, i + 1, numPositions);
          return Err(Undefined(PAST_THE_END)), out;
        }
        var hashPosition := U32At(positions, at + bufferOffset);
        AdvanceOffset(bufferOffset, 4 + 4 * i);
        bufferOffset := (bufferOffset + 4) % U32_LIMIT;
        RegionsAppend(read, hashPosition, queryPosition, hashSize);
        out := out + [Region(hashPosition, queryPosition, hashSize)];
        read := read + [hashPosition];
        i := i + 1;
      }
      r := Ok(occupancy);
    }

    /**
     * The disk path: the count, the buffer grown to the entry size, one read of the
     * entry, the cap, then each position at the wrapping bufferOffset; the positions
     * used enter the cache when it is on.
     */
    method GetFromDisk(key: u64, at: nat, queryPosition: u32, hrt: seq<HashRegion>) returns (r: Result<Occupancy>, out: seq<HashRegion>)
      requires Valid()
      modifies this, buffer
      ensures Valid()
      ensures useCache == old(useCache) && limitPositions == old(limitPositions) && maxHashPositions == old(maxHashPositions)
      ensures var rec := DiskRecord(positions, at, limitPositions, maxHashPositions);
              (rec.Err? ==> r == Err(rec.failure)) &&
              (rec.Ok? ==> rec.value.Found? && r == Ok(rec.value.occupancy) &&
                           out == hrt + Regions(rec.value.positions, queryPosition, hashSize) &&
                           cache == if useCache then old(cache)[key := rec.value.positions] else old(cache))
    {
      out := hrt;
      var count: u32;
      if at + 4 <= |positions| {
        count := U32At(positions, at);
      } else if at == |positions| {
        count := 0;
      } else {
        return Err(Undefined("a partial read leaves the count indeterminate")), out;
      }
      var entrySize: u32 := (count * 4) % U32_LIMIT;
      var loaded;
      ghost var filled;
      loaded, filled := LoadEntry(at, entrySize);
      if !loaded {
        return Err(Undefined("a partial read leaves the entry indeterminate")), out;
      }
      var numPositions: nat := count;
      var occupancy := FULL;
      if limitPositions && numPositions > maxHashPositions as nat {
        occupancy := Occupancy(maxHashPositions as nat, numPositions);
        numPositions := maxHashPositions as nat;
      }
      var taken: seq<u32>;
      taken, out := EmitFromBuffer(filled, entrySize, numPositions, queryPosition, hrt);
      if |taken| < numPositions {
        return Err(Undefined(PAST_THE_END)), out;
      }
      if useCache {
        cache := cache[key := taken];
      }
      r := Ok(occupancy);
    }

    /** Grows the buffer to the entry size and reads the entry into it; a partial read fails. */
    method LoadEntry(at: nat, entrySize: u32) returns (loaded: bool, ghost filled: seq<byte>)
      requires Valid()
      modifies this, buffer
      ensures Valid() && bufferLen == MemoryUtilities.CheckedLength(old(bufferLen), entrySize)
      ensures useCache == old(useCache) && limitPositions == old(limitPositions) && maxHashPositions == old(maxHashPositions)
      ensures cache == old(cache)
      ensures loaded <==> entrySize == 0 || at + 4 + entrySize <= |positions|
      ensures loaded ==> entrySize <= bufferLen && buffer[..entrySize] == filled &&
                         filled == if entrySize == 0 then [] else positions[at + 4..at + 4 + entrySize]
    {
      buffer, bufferLen := MemoryUtilities.CheckBufferSize(buffer, bufferLen, entrySize);
      if entrySize > 0 && at + 4 + entrySize > |positions| {
        return false, [];
      }
      filled := if entrySize == 0 then [] else positions[at + 4..at + 4 + entrySize];
      if entrySize > 0 {
        ReadEntry(at + 4, entrySize);
      }
      loaded := true;
    }

    /** One fread of the entry into the front of the buffer. */
    method ReadEntry(from: nat, size: u32)
      requires Valid() && size <= bufferLen && from + size <= |positions|
      modifies buffer
      ensures buffer[..size] == positions[from..from + size]
    {
      forall i | 0 <= i < size {
        buffer[i] := positions[from + i];
      }
    }

    /** The disk path's loop over the buffer; it stops early where a read would run past the entry. */
    method EmitFromBuffer(ghost filled: seq<byte>, entrySize: u32, numPositions: nat, queryPosition: u32, hrt: seq<HashRegion>)
      returns (taken: seq<u32>, out: seq<HashRegion>)
      requires Valid() && entrySize <= bufferLen && |filled| == entrySize && buffer[..entrySize] == filled
      ensures var ps := PositionsAt(filled, 0, 0, numPositions);
              (ps.Ok? ==> taken == ps.value && out == hrt + Regions(taken, queryPosition, hashSize)) &&
              (ps.Err? <==> |taken| < numPositions)
    {
      out := hrt;
      taken := [];
      var bufferOffset: u32 := 0;
      var i: nat := 0;
      while i < numPositions
        invariant i <= numPositions && |taken| == i
        invariant bufferOffset == Truncate(4 * i, U32_LIMIT)
        invariant PositionsAt(filled, 0, 0, i) == Ok(taken)
        invariant out == hrt + Regions(taken, queryPosition, hashSize)
      {
        if bufferOffset as nat + 4 > entrySize as nat {
          PositionsAtStaysErr(filled, 0, 0, i + 1, numPositions);
          return;
        }
        var hashPosition := U32At(buffer[..entrySize], bufferOffset);
        AdvanceOffset(bufferOffset, 4 * i);
        bufferOffset := (bufferOffset + 4) % U32_LIMIT;
        RegionsAppend(taken, hashPosition, queryPosition, hashSize);
        out := out + [Region(hashPosition, queryPosition, hashSize)];
        taken := taken + [hashPosition];
        i := i + 1;
      }
    }

    /** Get past the cache: the key table, the sentinel, the bounds check, then one of the two paths. */
    method Lookup(key: u64, queryPosition: u32, hrt: seq<HashRegion>) returns (r: Result<Occupancy>, out: seq<HashRegion>)
      requires Valid()
      modifies this, buffer
      ensures Valid()
      ensures useCache == old(useCache) && limitPositions == old(limitPositions) && maxHashPositions == old(maxHashPositions)
      ensures var f := Fetch(old(State()), key);
              (f.Err? ==> r == Err(f.failure)) &&
              (f == Ok(Absent) ==> r == Ok(FULL) && out == hrt && cache == old(cache)) &&
              (f.Ok? && f.value.Found? ==>
                r == Ok(f.value.occupancy) && out == hrt + Regions(f.value.positions, queryPosition, hashSize) &&
                cache == if useCache && !keepPositionsInMemory then old(cache)[key := f.value.positions] else old(cache))
    {
      out := hrt;
      var stored := ReadKey(key);
      if stored.Err? {
        return Err(stored.failure), out;
      }
      r, out := Locate(key, stored.value, queryPosition, hrt);
    }

    /** The sentinel, the bounds check, then the record. */
    method Locate(key: u64, at: nat, queryPosition: u32, hrt: seq<HashRegion>) returns (r: Result<Occupancy>, out: seq<HashRegion>)
      requires Valid()
      modifies this, buffer
      ensures Valid()
      ensures useCache == old(useCache) && limitPositions == old(limitPositions) && maxHashPositions == old(maxHashPositions)
      ensures var f := Located(old(State()), at);
              (f.Err? ==> r == Err(f.failure)) &&
              (f == Ok(Absent) ==> r == Ok(FULL) && out == hrt && cache == old(cache)) &&
              (f.Ok? && f.value.Found? ==>
                r == Ok(f.value.occupancy) && out == hrt + Regions(f.value.positions, queryPosition, hashSize) &&
                cache == if useCache && !keepPositionsInMemory then old(cache)[key := f.value.positions] else old(cache))
    {
      out := hrt;
      if at == ABSENT {
        return Ok(FULL), out;
      }
      if at > |positions| {
        return Err(Fatal("A position was specified that is larger than the jump positions database.")), out;
      }
      r, out := ReadRecord(key, at, queryPosition, hrt);
    }

    /** The record at `at`, from memory or from disk. */
    method ReadRecord(key: u64, at: nat, queryPosition: u32, hrt: seq<HashRegion>) returns (r: Result<Occupancy>, out: seq<HashRegion>)
      requires Valid()
      modifies this, buffer
      ensures Valid()
      ensures useCache == old(useCache) && limitPositions == old(limitPositions) && maxHashPositions == old(maxHashPositions)
      ensures var f := Record(old(State()), at);
              (f.Err? ==> r == Err(f.failure)) &&
              (f.Ok? ==> (f.value.Found? &&
                r == Ok(f.value.occupancy) && out == hrt + Regions(f.value.positions, queryPosition, hashSize) &&
                cache == if useCache && !keepPositionsInMemory then old(cache)[key := f.value.positions] else old(cache)))
    {
      if keepPositionsInMemory {
        r, out := GetFromMemory(at, queryPosition, hrt);
      } else {
        r, out := GetFromDisk(key, at, queryPosition, hrt);
      }
    }

    /**
     * Get: a cache hit inserts the cached positions' regions; otherwise the key table
     * gives the offset, the sentinel means no positions, an offset past the positions
     * file is fatal, and the record there gives the regions and the occupancy.
     */
    method Get(key: u64, queryPosition: u32, hrt: seq<HashRegion>) returns (r: Result<Occupancy>, out: seq<HashRegion>)
      requires Valid()
      modifies this, buffer
      ensures Valid() && State() == old(State())
      ensures var a := Query(old(State()), old(cache), key, queryPosition);
              (a.Err? ==> r == Err(a.failure)) &&
              (a.Ok? ==> r == Ok(a.value.occupancy) && out == hrt + a.value.regions && cache == a.value.cache)
    {
      if useCache && key in cache {
        out := EmitRegions(cache[key], queryPosition, hrt);
        return Ok(FULL), out;
      }
      r, out := Lookup(key, queryPosition, hrt);
    }
  }

  /** bufferOffset += 4 in an unsigned int keeps it at the next offset modulo 2^32. */
  lemma AdvanceOffset(offset: nat, n: nat)
    requires offset == Truncate(n, U32_LIMIT)
    ensures (offset + 4) % U32_LIMIT == Truncate(n + 4, U32_LIMIT)
  {
    var q := n / U32_LIMIT;
    assert n == q * U32_LIMIT + offset;
    if offset + 4 < U32_LIMIT {
      ModUnique(n + 4, q, offset + 4, U32_LIMIT);
    } else {
      assert n + 4 == (q + 1) * U32_LIMIT + (offset + 4 - U32_LIMIT);
      ModUnique(n + 4, q + 1, offset + 4 - U32_LIMIT, U32_LIMIT);
    }
  }
}
