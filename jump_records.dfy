/**
 * The pieces of the jump database that are values: its layout constants, the
 * (hash, position) record and its 12-byte image in the temporary sorting
 * files, the two record orderings, the 2-bit packing of a k-mer into a key,
 * and the k-mers a reference sequence yields.
 */
module JumpRecords {
  import opened Outcome
  import opened Bytes

  /** Bytes of a key-table entry: a 40-bit offset into the position table. */
  const KEY_LENGTH: nat := 5
  /** Gigabytes of memory given to the hash-position buffer. */
  const DEFAULT_SORTING_MEMORY: nat := 2
  /** Bytes reserved after the header fields. */
  const RESERVED_SPACE: nat := 30
  /** Where the reference sequence index starts. */
  const REFERENCE_SEQUENCE_INDEX_OFFSET: nat := 50
  /** The signature that opens a jump database, terminating zero included. */
  const MOSAIK_SIGNATURE: seq<byte> := [0x4D, 0x53, 0x4B, 0x4A, 0x4D, 0x50, 0x00]
  /** Bytes of one serialised hash position: an 8-byte hash and a 4-byte position. */
  const RECORD_SIZE: nat := 12
  /** Bytes of one reference sequence index entry: two 8-byte offsets and a 4-byte count. */
  const INDEX_ENTRY_SIZE: nat := 2 * 8 + 4

  /** The header is the signature, the hash size, the date and the reference count, then the reserved space up to the index. */
  lemma HeaderLayoutConstants()
    ensures |MOSAIK_SIGNATURE| + 1 + 8 + 4 + RESERVED_SPACE == REFERENCE_SEQUENCE_INDEX_OFFSET
    ensures KEY_LENGTH == 5 && Pow256(KEY_LENGTH) == 0x100_0000_0000
  {
  }

  /** A k-mer hash at a reference position; Owner is the temporary file it was read from during the merge. */
  datatype HashPosition = HashPosition(Hash: u64, Position: u32, Owner: u8)

  /** SortHashPositionAsc: by hash, then by position. */
  predicate AscBefore(a: HashPosition, b: HashPosition)
  {
    if a.Hash == b.Hash then a.Position < b.Position else a.Hash < b.Hash
  }

  /** SortHashPositionDesc: by descending hash, then by descending position. */
  predicate DescBefore(a: HashPosition, b: HashPosition)
  {
    if a.Hash == b.Hash then b.Position < a.Position else b.Hash < a.Hash
  }

  /** The descending order is the ascending one with its arguments swapped. */
  lemma DescIsSwappedAsc(a: HashPosition, b: HashPosition)
    ensures DescBefore(a, b) == AscBefore(b, a)
  {
  }

  /**
   * The ascending order is a strict weak order in which two records are
   * unordered exactly when they share hash and position; it is lexicographic.
   */
  lemma AscIsStrictWeakOrder(a: HashPosition, b: HashPosition, c: HashPosition)
    ensures !AscBefore(a, a)
    ensures AscBefore(a, b) ==> !AscBefore(b, a)
    ensures AscBefore(a, b) && AscBefore(b, c) ==> AscBefore(a, c)
    ensures !AscBefore(a, b) && !AscBefore(b, a) <==> a.Hash == b.Hash && a.Position == b.Position
    ensures AscBefore(a, b) <==> a.Hash < b.Hash || (a.Hash == b.Hash && a.Position < b.Position)
  {
  }

  // ---------------------------------------------------------------------------
  // Records in the temporary files
  // ---------------------------------------------------------------------------

  /** HashPosition::Serialize: the hash, then the position; the owner is not written. */
  function RecordBytes(hp: HashPosition): (bs: seq<byte>)
    ensures |bs| == RECORD_SIZE
  {
    Pow256Widths();
    LittleEndian(hp.Hash, 8) + LittleEndian(hp.Position, 4)
  }

  /**
   * HashPosition::Deserialize at a read cursor, for a reader that sets the
   * owner: a whole record when twelve bytes remain, otherwise end of file.
   */
  function Deserialize(file: seq<byte>, cursor: nat, owner: u8): (r: Option<HashPosition>)
    ensures r.Some? <==> cursor + RECORD_SIZE <= |file|
    ensures r.Some? ==> r.value.Owner == owner
  {
    Pow256Widths();
    if cursor + RECORD_SIZE <= |file| then
      Some(HashPosition(FromLittleEndian(file[cursor..cursor + 8]), FromLittleEndian(file[cursor + 8..cursor + 12]), owner))
    else None
  }

  /** A record reads back as written, with the reader's owner. */
  lemma RecordRoundTrip(hp: HashPosition, rest: seq<byte>, owner: u8)
    ensures Deserialize(RecordBytes(hp) + rest, 0, owner) == Some(hp.(Owner := owner))
  {
    Pow256Widths();
    var bs := RecordBytes(hp) + rest;
    assert bs[0..8] == LittleEndian(hp.Hash, 8);
    assert bs[8..12] == LittleEndian(hp.Position, 4);
  }

  /** The bytes of a temporary file holding the records in order. */
  function FileBytes(hps: seq<HashPosition>): (bs: seq<byte>)
    ensures |bs| == RECORD_SIZE * |hps|
  {
    if |hps| == 0 then [] else FileBytes(hps[..|hps| - 1]) + RecordBytes(hps[|hps| - 1])
  }

  /** The records of a file, read one after another by a reader that sets the owner. */
  function Records(file: seq<byte>, owner: u8): (hps: seq<HashPosition>)
    ensures |hps| == |file| / RECORD_SIZE
    ensures forall i :: 0 <= i < |hps| ==> Deserialize(file, RECORD_SIZE * i, owner) == Some(hps[i])
  {
    seq(|file| / RECORD_SIZE, i requires 0 <= i < |file| / RECORD_SIZE => Deserialize(file, RECORD_SIZE * i, owner).value)
  }

  /** After the last whole record the reader reports end of file. */
  lemma DeserializeAfterLast(file: seq<byte>, i: nat, owner: u8)
    requires i >= |Records(file, owner)|
    ensures Deserialize(file, RECORD_SIZE * i, owner).None?
  {
  }

  /** The records with the owner a reader gives them. */
  function WithOwner(hps: seq<HashPosition>, owner: u8): (r: seq<HashPosition>)
    ensures |r| == |hps|
  {
    seq(|hps|, i requires 0 <= i < |hps| => hps[i].(Owner := owner))
  }

  /** Deserialize only looks at the twelve bytes under the cursor. */
  lemma DeserializeLocal(file1: seq<byte>, c1: nat, file2: seq<byte>, c2: nat, owner: u8)
    requires c1 + RECORD_SIZE <= |file1| && c2 + RECORD_SIZE <= |file2|
    requires file1[c1..c1 + RECORD_SIZE] == file2[c2..c2 + RECORD_SIZE]
    ensures Deserialize(file1, c1, owner) == Deserialize(file2, c2, owner)
  {
    assert file1[c1..c1 + 8] == file1[c1..c1 + RECORD_SIZE][..8];
    assert file2[c2..c2 + 8] == file2[c2..c2 + RECORD_SIZE][..8];
    assert file1[c1 + 8..c1 + 12] == file1[c1..c1 + RECORD_SIZE][8..];
    assert file2[c2 + 8..c2 + 12] == file2[c2..c2 + RECORD_SIZE][8..];
  }

  /** The i-th record of a written file reads back as the i-th record written, with the reader's owner. */
  lemma {:induction false} FileRecordAt(hps: seq<HashPosition>, i: nat, owner: u8)
    requires i < |hps|
    ensures Deserialize(FileBytes(hps), RECORD_SIZE * i, owner) == Some(hps[i].(Owner := owner))
    decreases |hps|
  {
    var init := hps[..|hps| - 1];
    var file := FileBytes(hps);
    var front := FileBytes(init);
    assert file == front + RecordBytes(hps[|hps| - 1]);
    var c := RECORD_SIZE * i;
    if i < |init| {
      FileRecordAt(init, i, owner);
      assert c + RECORD_SIZE <= |front| by {
        assert c + RECORD_SIZE == RECORD_SIZE * (i + 1);
      }
      assert file[c..c + RECORD_SIZE] == front[c..c + RECORD_SIZE];
      DeserializeLocal(file, c, front, c, owner);
      assert init[i] == hps[i];
    } else {
      RecordRoundTrip(hps[i], [], owner);
      assert c == |front|;
      assert file[c..c + RECORD_SIZE] == (RecordBytes(hps[i]) + [])[0..RECORD_SIZE];
      DeserializeLocal(file, c, RecordBytes(hps[i]) + [], 0, owner);
    }
  }

  /** The owner a reader sets leaves the order of SortHashPositionAsc as it was. */
  lemma SortedWithOwner(hps: seq<HashPosition>, owner: u8)
    requires SortedAsc(hps)
    ensures SortedAsc(WithOwner(hps, owner))
  {
    var r := WithOwner(hps, owner);
    forall i, j | 0 <= i < j < |r| ensures !AscBefore(r[j], r[i]) {
      assert !AscBefore(hps[j], hps[i]);
    }
  }

  /** Reading a written file gives back its records, in order, with the reader's owner. */
  lemma FileRoundTrip(hps: seq<HashPosition>, owner: u8)
    ensures Records(FileBytes(hps), owner) == WithOwner(hps, owner)
  {
    var file := FileBytes(hps);
    assert |file| / RECORD_SIZE == |hps|;
    forall i | 0 <= i < |hps| ensures Records(file, owner)[i] == WithOwner(hps, owner)[i] {
      FileRecordAt(hps, i, owner);
    }
  }

  // ---------------------------------------------------------------------------
  // Sorting
  // ---------------------------------------------------------------------------

  /** Sorted by SortHashPositionAsc: no record is before an earlier one. */
  predicate SortedAsc(s: seq<HashPosition>)
  {
    forall i, j :: 0 <= i < j < |s| ==> !AscBefore(s[j], s[i])
  }

  /** Sorted by SortHashPositionDesc. */
  predicate SortedDesc(s: seq<HashPosition>)
  {
    forall i, j :: 0 <= i < j < |s| ==> !DescBefore(s[j], s[i])
  }

  /** Inserts a record in front of the first record it does not follow. */
  function Insert(x: HashPosition, s: seq<HashPosition>): (r: seq<HashPosition>)
    ensures multiset(r) == multiset(s) + multiset{x}
    ensures forall y :: y in r <==> y == x || y in s
  {
    if |s| == 0 || !AscBefore(s[0], x) then [x] + s
    else
      assert s == [s[0]] + s[1..];
      [s[0]] + Insert(x, s[1..])
  }

  /** Inserting into a sorted sequence keeps it sorted. */
  lemma {:induction false} InsertSorted(x: HashPosition, s: seq<HashPosition>)
    requires SortedAsc(s)
    ensures SortedAsc(Insert(x, s))
    decreases |s|
  {
    var r := Insert(x, s);
    if |s| == 0 || !AscBefore(s[0], x) {
      forall i, j | 0 <= i < j < |r| ensures !AscBefore(r[j], r[i]) {
        if i == 0 && j > 1 {
          AscIsStrictWeakOrder(s[j - 1], s[0], x);
        }
      }
    } else {
      var rest := Insert(x, s[1..]);
      InsertSorted(x, s[1..]);
      assert r == [s[0]] + rest;
      forall i, j | 0 <= i < j < |r| ensures !AscBefore(r[j], r[i]) {
        if i == 0 {
          var y := rest[j - 1];
          assert y in rest;
          if y != x {
            var k :| 0 <= k < |s[1..]| && s[1..][k] == y;
            assert s[k + 1] == y;
          } else {
            AscIsStrictWeakOrder(s[0], x, x);
          }
        } else {
          assert r[i] == rest[i - 1] && r[j] == rest[j - 1];
        }
      }
    }
  }

  /** std::sort by SortHashPositionAsc: a sorted permutation. */
  function SortAsc(s: seq<HashPosition>): (r: seq<HashPosition>)
    ensures multiset(r) == multiset(s)
    ensures SortedAsc(r)
  {
    if |s| == 0 then [] else
      assert s == [s[0]] + s[1..];
      var rest := SortAsc(s[1..]);
      InsertSorted(s[0], rest);
      Insert(s[0], rest)
  }

  /** The records in the opposite order. */
  function Reversed(s: seq<HashPosition>): (r: seq<HashPosition>)
    ensures |r| == |s| && multiset(r) == multiset(s)
    ensures forall i :: 0 <= i < |s| ==> r[i] == s[|s| - 1 - i]
  {
    if |s| == 0 then [] else
      assert s == s[..|s| - 1] + [s[|s| - 1]];
      [s[|s| - 1]] + Reversed(s[..|s| - 1])
  }

  /** std::sort by SortHashPositionDesc: a permutation sorted in descending order, so its last record is the smallest. */
  function SortDesc(s: seq<HashPosition>): (r: seq<HashPosition>)
    ensures multiset(r) == multiset(s)
    ensures SortedDesc(r)
  {
    var r := Reversed(SortAsc(s));
    assert SortedDesc(r) by {
      forall i, j | 0 <= i < j < |r| ensures !DescBefore(r[j], r[i]) {
        DescIsSwappedAsc(r[j], r[i]);
      }
    }
    r
  }

  // ---------------------------------------------------------------------------
  // k-mer keys
  // ---------------------------------------------------------------------------

  /**
   * CreateHash's translation table, entry by entry from 'A' to 'Z': the
   * two-bit code of a nucleotide letter, -1 for a letter that is not one.
   */
  function Code(c: char): int
    requires 'A' <= c <= 'Z'
  {
    match c
    case 'A' => 0
    case 'B' => 3
    case 'C' => 1
    case 'D' => 3
    case 'E' => -1
    case 'F' => -1
    case 'G' => 2
    case 'H' => 3
    case 'I' => -1
    case 'J' => -1
    case 'K' => 3
    case 'L' => -1
    case 'M' => 0
    case 'N' => 3
    case 'O' => -1
    case 'P' => -1
    case 'Q' => -1
    case 'R' => 0
    case 'S' => 2
    case 'T' => 3
    case 'U' => -1
    case 'V' => 0
    case 'W' => 3
    case 'X' => 1
    case 'Y' => 3
    case _ => -1  // 'Z'
  }

  /**
   * The canonical bases get 0-3, each IUPAC ambiguity code gets one of
   * them, and only ten letters have no code.
   */
  lemma TranslationTable(c: char)
    requires 'A' <= c <= 'Z'
    ensures Code(c) < 0 <==> c in "EFIJLOPQUZ"
    ensures Code(c) < 4
    ensures Code('A') == 0 && Code('C') == 1 && Code('G') == 2 && Code('T') == 3
    ensures c in "BDHKMNRSVWXY" ==> 0 <= Code(c) < 4
  {
  }

  /** Every code is below 4. */
  lemma CodeBelowFour(c: char)
    requires 'A' <= c <= 'Z'
    ensures Code(c) < 4
  {
  }

  /** The canonical bases have distinct codes. */
  lemma CanonicalCodesDistinct(a: char, b: char)
    requires a in "ACGT" && b in "ACGT"
    ensures Code(a) >= 0 && (Code(a) == Code(b) <==> a == b)
  {
  }

  /** 4 raised to the length of a fragment. */
  function Pow4(n: nat): (p: nat)
    ensures p >= 1
  {
    if n == 0 then 1 else 4 * Pow4(n - 1)
  }

  /**
   * The key of a fragment, built as CreateHash builds it: each base shifts
   * the key left by two bits and adds its code, the first base ending up
   * most significant. The first base outside 'A'..'Z' indexes past the
   * table; the first letter without a code is fatal.
   */
  function HashKey(fragment: seq<char>): Result<nat>
    decreases |fragment|
  {
    if |fragment| == 0 then Ok(0)
    else
      match HashKey(fragment[..|fragment| - 1])
      case Err(f) => Err(f)
      case Ok(key) =>
        var c := fragment[|fragment| - 1];
        if !('A' <= c <= 'Z') then Err(Undefined("translation table indexed outside A-Z"))
        else if Code(c) < 0 then Err(Fatal("unrecognized nucleotide in hash table"))
        else Ok(key * 4 + Code(c))
  }

  /** Every character of the fragment is a letter with a code. */
  predicate Hashable(fragment: seq<char>)
  {
    forall i :: 0 <= i < |fragment| ==> 'A' <= fragment[i] <= 'Z' && Code(fragment[i]) >= 0
  }

  /** A key exists exactly for fragments of coded letters; it takes two bits per base, and a failure is either fatal or out of the table. */
  lemma {:induction false} HashKeyDefined(fragment: seq<char>)
    ensures HashKey(fragment).Ok? <==> Hashable(fragment)
    ensures HashKey(fragment).Ok? ==> HashKey(fragment).value < Pow4(|fragment|)
    decreases |fragment|
  {
    if |fragment| > 0 {
      var init := fragment[..|fragment| - 1];
      HashKeyDefined(init);
      var c := fragment[|fragment| - 1];
      if Hashable(fragment) {
        assert Hashable(init) by {
          forall i | 0 <= i < |init| ensures init[i] == fragment[i] { }
        }
        CodeBelowFour(c);
      } else if Hashable(init) {
        assert !('A' <= c <= 'Z' && Code(c) >= 0);
      }
    }
  }

  /** Fragments of equal length with equal keys have equal codes at every position. */
  lemma {:induction false} HashKeyInjective(f: seq<char>, g: seq<char>)
    requires |f| == |g| && HashKey(f).Ok? && HashKey(g).Ok? && HashKey(f).value == HashKey(g).value
    ensures Hashable(f) && Hashable(g)
    ensures forall i :: 0 <= i < |f| ==> Code(f[i]) == Code(g[i])
    decreases |f|
  {
    HashKeyDefined(f);
    HashKeyDefined(g);
    if |f| > 0 {
      var n := |f| - 1;
      assert f[..n + 1] == f && g[..n + 1] == g;
      assert Hashable(f[..n]) && Hashable(g[..n]) by {
        forall i | 0 <= i < n ensures f[..n][i] == f[i] && g[..n][i] == g[i] { }
      }
      HashKeyDefined(f[..n]);
      HashKeyDefined(g[..n]);
      var kf := HashKey(f[..n]).value;
      var kg := HashKey(g[..n]).value;
      KeyStep(f, n, kf);
      KeyStep(g, n, kg);
      CodeBelowFour(f[n]);
      CodeBelowFour(g[n]);
      DigitsAgree(kf, Code(f[n]), kg, Code(g[n]));
      HashKeyInjective(f[..n], g[..n]);
      forall i | 0 <= i < |f| ensures Code(f[i]) == Code(g[i]) {
        if i < n {
          assert Code(f[..n][i]) == Code(g[..n][i]);
          assert f[..n][i] == f[i] && g[..n][i] == g[i];
        } else {
          assert i == n;
        }
      }
    }
  }

  /** Base-4 digits are unique. */
  lemma DigitsAgree(k1: nat, d1: int, k2: nat, d2: int)
    requires 0 <= d1 < 4 && 0 <= d2 < 4 && k1 * 4 + d1 == k2 * 4 + d2
    ensures d1 == d2 && k1 == k2
  {
  }

  /** Fragments of A, C, G and T of equal length have a key each, and the keys are equal exactly when the fragments are. */
  lemma CanonicalKeysDistinct(f: seq<char>, g: seq<char>)
    requires |f| == |g|
    requires forall i :: 0 <= i < |f| ==> f[i] in "ACGT"
    requires forall i :: 0 <= i < |g| ==> g[i] in "ACGT"
    ensures HashKey(f).Ok? && HashKey(g).Ok?
    ensures HashKey(f).value == HashKey(g).value <==> f == g
  {
    assert Hashable(f) && Hashable(g) by {
      forall i | 0 <= i < |f| ensures 'A' <= f[i] <= 'Z' && Code(f[i]) >= 0 && 'A' <= g[i] <= 'Z' && Code(g[i]) >= 0 {
        CanonicalCodesDistinct(f[i], g[i]);
        CanonicalCodesDistinct(g[i], f[i]);
      }
    }
    HashKeyDefined(f);
    HashKeyDefined(g);
    if HashKey(f).value == HashKey(g).value {
      HashKeyInjective(f, g);
      forall i | 0 <= i < |f| ensures f[i] == g[i] {
        CanonicalCodesDistinct(f[i], g[i]);
      }
    }
  }

  /**
   * CreateHash: the key of the first fragmentLen characters, computed base
   * by base; more than 32 bases do not fit a 64-bit key and are fatal.
   */
  method CreateHash(fragment: seq<char>, fragmentLen: u8) returns (r: Result<u64>)
    requires fragmentLen <= |fragment|
    ensures fragmentLen > 32 ==> r.Err? && r.failure.Fatal?
    ensures fragmentLen <= 32 ==> HashKey(fragment[..fragmentLen]) == if r.Ok? then Ok(r.value as nat) else Err(r.failure)
  {
    if fragmentLen > 32 {
      return Err(Fatal("this hash table can only handle fragments smaller or equal to 32 bases"));
    }
    var key: u64 := 0;
    var i: nat := 0;
    while i < fragmentLen as nat
      invariant i <= fragmentLen as nat
      invariant HashKey(fragment[..i]) == Ok(key as nat)
      invariant key as nat < Pow4(i)
    {
      var step := AppendBase(fragment, i, key);
      if step.Err? {
        FailureStaysKey(fragment, i + 1, fragmentLen as nat);
        return step;
      }
      key := step.value;
      i := i + 1;
    }
    return Ok(key);
  }

  /**
   * One iteration of CreateHash: the key shifted left by two bits with the
   * base's code in the low bits; a letter without a code is fatal, and a
   * character outside 'A'..'Z' would index past the table.
   */
  method AppendBase(fragment: seq<char>, i: nat, key: u64) returns (r: Result<u64>)
    requires i < |fragment| && i < 32 && HashKey(fragment[..i]) == Ok(key as nat) && key as nat < Pow4(i)
    ensures HashKey(fragment[..i + 1]) == if r.Ok? then Ok(r.value as nat) else Err(r.failure)
    ensures r.Ok? ==> r.value as nat < Pow4(i + 1)
  {
    var c := fragment[i];
    KeyStep(fragment, i, key as nat);
    if !('A' <= c <= 'Z') {
      return Err(Undefined("translation table indexed outside A-Z"));
    }
    var tValue := Code(c);
    if tValue < 0 {
      return Err(Fatal("unrecognized nucleotide in hash table"));
    }
    CodeBelowFour(c);
    PowersOfFour(i + 1);
    // key << 2 | tValue: the two low bits are clear after the shift, and nothing leaves the top because key < 4^31.
    return Ok(key * 4 + tValue as u64);
  }

  /** One more base of the fragment extends its key, or fails on a letter without a code. */
  lemma KeyStep(fragment: seq<char>, i: nat, key: nat)
    requires i < |fragment| && HashKey(fragment[..i]) == Ok(key)
    ensures var c := fragment[i];
            HashKey(fragment[..i + 1]) ==
              if !('A' <= c <= 'Z') then Err(Undefined("translation table indexed outside A-Z"))
              else if Code(c) < 0 then Err(Fatal("unrecognized nucleotide in hash table"))
              else Ok(key * 4 + Code(c))
  {
    assert fragment[..i + 1][..i] == fragment[..i];
  }

  /** At most 32 bases fit a 64-bit key. */
  lemma PowersOfFour(n: nat)
    requires n <= 32
    ensures Pow4(n) <= U64_LIMIT
    decreases 32 - n
  {
    if n < 32 {
      PowersOfFour(n + 1);
    } else {
      Pow4Doubles(8);
      Pow4Doubles(16);
      assert Pow4(8) == 0x1_0000;
    }
  }

  /** Doubling the length squares the power. */
  lemma {:induction false} Pow4Doubles(n: nat)
    ensures Pow4(2 * n) == Pow4(n) * Pow4(n)
  {
    Pow4Adds(n, n);
  }

  lemma {:induction false} Pow4Adds(m: nat, n: nat)
    ensures Pow4(m + n) == Pow4(m) * Pow4(n)
    decreases n
  {
    if n > 0 {
      Pow4Adds(m, n - 1);
    }
  }

  /** Once the key of a prefix fails, the key of every longer prefix fails the same way. */
  lemma {:induction false} FailureStaysKey(fragment: seq<char>, i: nat, n: nat)
    requires i <= n <= |fragment| && HashKey(fragment[..i]).Err?
    ensures HashKey(fragment[..n]) == HashKey(fragment[..i])
    decreases n - i
  {
    if i < n {
      assert fragment[..i + 1][..i] == fragment[..i];
      FailureStaysKey(fragment, i + 1, n);
    }
  }

  // ---------------------------------------------------------------------------
  // The k-mers of a reference sequence
  // ---------------------------------------------------------------------------

  /** A window holding J, X or N is not hashed. */
  predicate Skipped(window: seq<char>)
  {
    'J' in window || 'X' in window || 'N' in window
  }

  /** The window of hashSize bases starting at a position. */
  function Window(bases: seq<char>, hashSize: nat, i: nat): seq<char>
    requires i + hashSize <= |bases|
  {
    bases[i..i + hashSize]
  }

  /**
   * The hash positions of the first n window starts, as HashReferenceSequence
   * emits them: skipped windows yield nothing, and the first window whose key
   * fails ends the scan with that failure. The owner is not set at this stage.
   */
  function WindowPositions(bases: seq<char>, hashSize: nat, n: nat): Result<seq<HashPosition>>
    requires n + hashSize <= |bases| + 1 && |bases| < U32_LIMIT && hashSize <= 32
  {
    if n == 0 then Ok([])
    else
      match WindowPositions(bases, hashSize, n - 1)
      case Err(f) => Err(f)
      case Ok(hps) =>
        var window := Window(bases, hashSize, n - 1);
        if Skipped(window) then Ok(hps)
        else
          match HashKey(window)
          case Err(f) => Err(f)
          case Ok(key) =>
            HashKeyDefined(window);
            PowersOfFour(hashSize);
            Ok(hps + [HashPosition(key, n - 1, 0)])
  }

  /** Every emitted position starts an earlier window without J, X or N, and carries that window's key. */
  lemma {:induction false} WindowPositionsSound(bases: seq<char>, hashSize: nat, n: nat)
    requires n + hashSize <= |bases| + 1 && |bases| < U32_LIMIT && hashSize <= 32
    requires WindowPositions(bases, hashSize, n).Ok?
    ensures var hps := WindowPositions(bases, hashSize, n).value;
            forall k :: 0 <= k < |hps| ==> hps[k].Position < n && !Skipped(Window(bases, hashSize, hps[k].Position)) &&
                                           HashKey(Window(bases, hashSize, hps[k].Position)) == Ok(hps[k].Hash as nat)
    decreases n
  {
    if n > 0 {
      WindowPositionsSound(bases, hashSize, n - 1);
      var window := Window(bases, hashSize, n - 1);
      if !Skipped(window) {
        HashKeyDefined(window);
        PowersOfFour(hashSize);
      }
    }
  }

  /** The emitted positions strictly increase. */
  lemma {:induction false} WindowPositionsIncrease(bases: seq<char>, hashSize: nat, n: nat)
    requires n + hashSize <= |bases| + 1 && |bases| < U32_LIMIT && hashSize <= 32
    requires WindowPositions(bases, hashSize, n).Ok?
    ensures var hps := WindowPositions(bases, hashSize, n).value;
            forall k, l :: 0 <= k < l < |hps| ==> hps[k].Position < hps[l].Position
    decreases n
  {
    if n > 0 {
      WindowPositionsIncrease(bases, hashSize, n - 1);
      WindowPositionsSound(bases, hashSize, n - 1);
    }
  }

  /** Every window without J, X or N among the first n has its position emitted. */
  lemma {:induction false} WindowPositionsComplete(bases: seq<char>, hashSize: nat, n: nat)
    requires n + hashSize <= |bases| + 1 && |bases| < U32_LIMIT && hashSize <= 32
    requires WindowPositions(bases, hashSize, n).Ok?
    ensures var hps := WindowPositions(bases, hashSize, n).value;
            forall i :: 0 <= i < n && !Skipped(Window(bases, hashSize, i)) ==> exists k :: 0 <= k < |hps| && hps[k].Position == i
    decreases n
  {
    if n > 0 {
      WindowPositionsComplete(bases, hashSize, n - 1);
      var hps := WindowPositions(bases, hashSize, n - 1).value;
      var window := Window(bases, hashSize, n - 1);
      if !Skipped(window) {
        HashKeyDefined(window);
        PowersOfFour(hashSize);
        var all := WindowPositions(bases, hashSize, n).value;
        assert all == hps + [HashPosition(HashKey(window).value, n - 1, 0)];
        forall i | 0 <= i < n && !Skipped(Window(bases, hashSize, i))
          ensures exists k :: 0 <= k < |all| && all[k].Position == i
        {
          if i < n - 1 {
            var k :| 0 <= k < |hps| && hps[k].Position == i;
            assert all[k] == hps[k];
          } else {
            assert all[|hps|].Position == i;
          }
        }
      }
    }
  }

  /** A failed scan stays failed as more windows are scanned. */
  lemma {:induction false} WindowFailureStays(bases: seq<char>, hashSize: nat, i: nat, n: nat)
    requires i <= n && n + hashSize <= |bases| + 1 && |bases| < U32_LIMIT && hashSize <= 32
    requires WindowPositions(bases, hashSize, i).Err?
    ensures WindowPositions(bases, hashSize, n) == WindowPositions(bases, hashSize, i)
    decreases n - i
  {
    if i < n {
      WindowFailureStays(bases, hashSize, i + 1, n);
    }
  }

  /** A scan of n window starts emits at most n positions. */
  lemma {:induction false} WindowPositionsCount(bases: seq<char>, hashSize: nat, n: nat)
    requires n + hashSize <= |bases| + 1 && |bases| < U32_LIMIT && hashSize <= 32
    requires WindowPositions(bases, hashSize, n).Ok?
    ensures |WindowPositions(bases, hashSize, n).value| <= n
    decreases n
  {
    if n > 0 {
      WindowPositionsCount(bases, hashSize, n - 1);
    }
  }
}
