/**
 * The file-level pieces of building a jump database: positioned writes into
 * the database file, the stored entry of one group of equal hashes, the
 * grouping the merge produces, and the state of the k-way merge over the
 * sorted temporary files of one reference sequence.
 */
module JumpDatabase {
  import opened Outcome
  import opened Bytes
  import opened JumpRecords

  // ---------------------------------------------------------------------------
  // Positioned writes
  // ---------------------------------------------------------------------------

  /** The byte at offset i of a file, reading zero past its end. */
  function ByteOf(file: seq<byte>, i: nat): byte
  {
    if i < |file| then file[i] else 0
  }

  /** The length of a file after a write: an empty write changes nothing, a longer one grows the file just enough. */
  function WrittenLength(file: seq<byte>, pos: nat, bytes: seq<byte>): nat
  {
    if |bytes| == 0 || pos + |bytes| <= |file| then |file| else pos + |bytes|
  }

  /**
   * fwrite at the file position: the bytes land at the position, every other
   * byte stays, and a gap between the old end and the position reads as zeros.
   */
  function WriteAt(file: seq<byte>, pos: nat, bytes: seq<byte>): (r: seq<byte>)
  {
    seq(WrittenLength(file, pos, bytes), i requires 0 <= i < WrittenLength(file, pos, bytes) =>
      if pos <= i < pos + |bytes| then bytes[i - pos] else ByteOf(file, i))
  }

  /** Two writes, the second where the first ended, are one write of both. */
  lemma WriteAtConsecutive(file: seq<byte>, pos: nat, a: seq<byte>, b: seq<byte>)
    ensures WriteAt(WriteAt(file, pos, a), pos + |a|, b) == WriteAt(file, pos, a + b)
  {
    var first := WriteAt(file, pos, a);
    var r1 := WriteAt(first, pos + |a|, b);
    var r2 := WriteAt(file, pos, a + b);
    assert |r1| == |r2|;
    forall i | 0 <= i < |r1| ensures r1[i] == r2[i] {
      if pos + |a| <= i < pos + |a| + |b| {
        assert r2[i] == (a + b)[i - pos];
      } else if pos <= i < pos + |a| {
        assert r1[i] == first[i];
      }
    }
  }

  /** A write at the end of a file appends to it. */
  lemma WriteAtEnd(file: seq<byte>, bytes: seq<byte>)
    ensures WriteAt(file, |file|, bytes) == file + bytes
  {
    var r := WriteAt(file, |file|, bytes);
    assert |r| == |file + bytes|;
    forall k | 0 <= k < |r| ensures r[k] == (file + bytes)[k] {
    }
  }

  /** A non-empty write reads back where it was written. */
  lemma WriteAtReadBack(file: seq<byte>, pos: nat, bytes: seq<byte>, i: nat, j: nat)
    requires pos <= i <= j <= pos + |bytes| && |bytes| > 0
    ensures j <= |WriteAt(file, pos, bytes)| && WriteAt(file, pos, bytes)[i..j] == bytes[i - pos..j - pos]
  {
    var r := WriteAt(file, pos, bytes);
    forall k | 0 <= k < j - i ensures r[i..j][k] == bytes[i - pos..j - pos][k] {
      assert r[i + k] == bytes[i + k - pos];
    }
  }

  /** The bytes of a file outside a write keep their values. */
  lemma WriteAtKeeps(file: seq<byte>, pos: nat, bytes: seq<byte>, i: nat, j: nat)
    requires i <= j <= |file| && (j <= pos || pos + |bytes| <= i)
    ensures j <= |WriteAt(file, pos, bytes)| && WriteAt(file, pos, bytes)[i..j] == file[i..j]
  {
    var r := WriteAt(file, pos, bytes);
    forall k | 0 <= k < j - i ensures r[i..j][k] == file[i..j][k] {
      assert r[i + k] == ByteOf(file, i + k);
    }
  }

  // ---------------------------------------------------------------------------
  // Stored entries
  // ---------------------------------------------------------------------------

  /** random_shuffle, abstracted: any rearrangement of the group. */
  ghost predicate IsShuffle(shuffle: seq<HashPosition> -> seq<HashPosition>)
  {
    forall s :: multiset(shuffle(s)) == multiset(s)
  }

  /** The number of positions StoreHash writes: the group size, capped at the limit when limiting is on. */
  function CappedCount(n: nat, limitPositions: bool, maxHashPositions: nat): (count: nat)
    ensures count <= n
    ensures limitPositions ==> count <= maxHashPositions
    ensures n <= maxHashPositions || !limitPositions ==> count == n
  {
    if limitPositions && n > maxHashPositions then maxHashPositions else n
  }

  /** The positions of the records, four bytes each. */
  function PositionBytes(hps: seq<HashPosition>): (bs: seq<byte>)
    ensures |bs| == 4 * |hps|
  {
    if |hps| == 0 then [] else PositionBytes(hps[..|hps| - 1]) + LittleEndian(hps[|hps| - 1].Position, 4)
  }

  /** The entry StoreHash writes: the hash, the number of positions, then the positions. */
  function StoredEntry(hash: u64, positions: seq<HashPosition>): (bs: seq<byte>)
    requires |positions| < 0x8000_0000
    ensures |bs| == (|positions| + 1) * 4 + 8
  {
    LittleEndian(hash, 8) + LittleEndian(|positions|, 4) + PositionBytes(positions)
  }

  /** The entry of one group: the shuffled group's hash and its first capped-count positions. */
  function GroupEntry(group: seq<HashPosition>, shuffle: seq<HashPosition> -> seq<HashPosition>, limitPositions: bool, maxHashPositions: nat): (bs: seq<byte>)
    requires 0 < |group| < 0x8000_0000 && |shuffle(group)| == |group|
  {
    StoredEntry(shuffle(group)[0].Hash, shuffle(group)[..CappedCount(|group|, limitPositions, maxHashPositions)])
  }

  /** Every group can be stored: it is non-empty, its size fits an int, and the shuffle keeps its size. */
  predicate Storable(groups: seq<seq<HashPosition>>, shuffle: seq<HashPosition> -> seq<HashPosition>)
  {
    forall g :: 0 <= g < |groups| ==> 0 < |groups[g]| < 0x8000_0000 && |shuffle(groups[g])| == |groups[g]|
  }

  /** The entries of the groups, one after another. */
  function Entries(groups: seq<seq<HashPosition>>, shuffle: seq<HashPosition> -> seq<HashPosition>, limitPositions: bool, maxHashPositions: nat): seq<byte>
    requires Storable(groups, shuffle)
  {
    if |groups| == 0 then []
    else
      var init := groups[..|groups| - 1];
      assert Storable(init, shuffle) by {
        forall g | 0 <= g < |init| ensures init[g] == groups[g] { }
      }
      Entries(init, shuffle, limitPositions, maxHashPositions) + GroupEntry(groups[|groups| - 1], shuffle, limitPositions, maxHashPositions)
  }

  /** The entries of one more group follow the earlier entries. */
  lemma EntriesAppend(groups: seq<seq<HashPosition>>, group: seq<HashPosition>, shuffle: seq<HashPosition> -> seq<HashPosition>, limitPositions: bool, maxHashPositions: nat)
    requires Storable(groups, shuffle) && 0 < |group| < 0x8000_0000 && |shuffle(group)| == |group|
    ensures Storable(groups + [group], shuffle)
    ensures Entries(groups + [group], shuffle, limitPositions, maxHashPositions) ==
            Entries(groups, shuffle, limitPositions, maxHashPositions) + GroupEntry(group, shuffle, limitPositions, maxHashPositions)
  {
    assert (groups + [group])[..|groups|] == groups;
  }

  /** Stored groups leave entries behind them. */
  lemma EntriesNonEmpty(groups: seq<seq<HashPosition>>, shuffle: seq<HashPosition> -> seq<HashPosition>, limitPositions: bool, maxHashPositions: nat)
    requires Storable(groups, shuffle) && |groups| > 0
    ensures |Entries(groups, shuffle, limitPositions, maxHashPositions)| > 0
  {
    assert |GroupEntry(groups[|groups| - 1], shuffle, limitPositions, maxHashPositions)| >= 12;
  }

  /** A write where an earlier write ended extends it: together they write the concatenation. */
  lemma WriteThen(file: seq<byte>, out: seq<byte>, pos: nat, written: seq<byte>, at: nat, entry: seq<byte>, all: seq<byte>)
    requires file == WriteAt(out, pos, written) && at == pos + |written| && all == written + entry
    ensures WriteAt(file, at, entry) == WriteAt(out, pos, all) && at + |entry| == pos + |all|
  {
    WriteAtConsecutive(out, pos, written, entry);
  }

  /** The entry of a group reads back: its hash, the capped count, and that many positions drawn from the group. */
  lemma GroupEntryReadBack(group: seq<HashPosition>, shuffle: seq<HashPosition> -> seq<HashPosition>, limitPositions: bool, maxHashPositions: nat)
    requires 0 < |group| < 0x8000_0000 && multiset(shuffle(group)) == multiset(group)
    requires forall i :: 0 <= i < |group| ==> group[i].Hash == group[0].Hash
    ensures |shuffle(group)| == |group|
    ensures var bs := GroupEntry(group, shuffle, limitPositions, maxHashPositions);
            var count := CappedCount(|group|, limitPositions, maxHashPositions);
            |bs| == (count + 1) * 4 + 8 &&
            FromLittleEndian(bs[..8]) == group[0].Hash &&
            FromLittleEndian(bs[8..12]) == count &&
            bs[12..] == PositionBytes(shuffle(group)[..count]) &&
            multiset(shuffle(group)[..count]) <= multiset(group)
  {
    Pow256Widths();
    var shuffled := shuffle(group);
    assert |multiset(shuffled)| == |multiset(group)|;
    assert shuffled[0] in multiset(group);
    var count := CappedCount(|group|, limitPositions, maxHashPositions);
    var bs := GroupEntry(group, shuffle, limitPositions, maxHashPositions);
    assert bs == LittleEndian(shuffled[0].Hash, 8) + LittleEndian(count, 4) + PositionBytes(shuffled[..count]);
    assert bs[..8] == LittleEndian(shuffled[0].Hash, 8);
    assert bs[8..12] == LittleEndian(count, 4);
    assert shuffled == shuffled[..count] + shuffled[count..];
  }

  // ---------------------------------------------------------------------------
  // Groups of equal hashes
  // ---------------------------------------------------------------------------

  /** All records of a group share its first record's hash. */
  predicate SameHash(group: seq<HashPosition>)
  {
    forall i :: 0 <= i < |group| ==> group[i].Hash == group[0].Hash
  }

  /**
   * Groups as the merge emits them: none is empty, each holds one hash, and
   * the hashes strictly ascend from group to group.
   */
  predicate HashGroups(groups: seq<seq<HashPosition>>)
  {
    (forall g :: 0 <= g < |groups| ==> |groups[g]| > 0 && SameHash(groups[g])) &&
    (forall g, h :: 0 <= g < h < |groups| ==> groups[g][0].Hash < groups[h][0].Hash)
  }

  /** The records of the groups, one group after another. */
  function Flatten(groups: seq<seq<HashPosition>>): seq<HashPosition>
  {
    if |groups| == 0 then [] else Flatten(groups[..|groups| - 1]) + groups[|groups| - 1]
  }

  /** The records of one more group follow the earlier records. */
  lemma FlattenAppend(groups: seq<seq<HashPosition>>, group: seq<HashPosition>)
    ensures Flatten(groups + [group]) == Flatten(groups) + group
  {
    assert (groups + [group])[..|groups|] == groups;
  }

  /** Closing a group whose hash exceeds every earlier group's keeps the groups well formed. */
  lemma HashGroupsAppend(groups: seq<seq<HashPosition>>, group: seq<HashPosition>)
    requires HashGroups(groups) && |group| > 0 && SameHash(group)
    requires |groups| > 0 ==> groups[|groups| - 1][0].Hash < group[0].Hash
    ensures HashGroups(groups + [group])
  {
    var all: seq<seq<HashPosition>> := groups + [group];
    forall g, h | 0 <= g < h < |all| ensures all[g][0].Hash < all[h][0].Hash {
      assert all[g] == groups[g];
      if h < |groups| {
        assert all[h] == groups[h];
      } else {
        assert all[h] == group;
        if g < |groups| - 1 {
          assert groups[g][0].Hash < groups[|groups| - 1][0].Hash;
        }
      }
    }
  }

  // ---------------------------------------------------------------------------
  // The k-way merge
  // ---------------------------------------------------------------------------

  /**
   * The merge reads the temporary files of one reference sequence as the
   * records each holds, every record tagged with its file's index as owner.
   */
  predicate Tagged(recs: seq<seq<HashPosition>>)
  {
    |recs| <= 256 && forall k, i :: 0 <= k < |recs| && 0 <= i < |recs[k]| ==> recs[k][i].Owner as nat == k
  }

  /** Every temporary file is sorted by SortHashPositionAsc. */
  predicate FilesSorted(recs: seq<seq<HashPosition>>)
    requires |recs| <= 256
  {
    forall k :: 0 <= k < |recs| ==> SortedAsc(recs[k])
  }

  /** Read cursors, as the number of records read from each file. */
  predicate Cursors(recs: seq<seq<HashPosition>>, idx: seq<nat>)
  {
    |recs| <= 256 && |idx| == |recs| && forall k :: 0 <= k < |recs| ==> idx[k] <= |recs[k]|
  }

  /** The records of the first n files that have not been read yet. */
  function Unread(recs: seq<seq<HashPosition>>, idx: seq<nat>, n: nat): multiset<HashPosition>
    requires Cursors(recs, idx) && n <= |recs|
  {
    if n == 0 then multiset{} else Unread(recs, idx, n - 1) + multiset(recs[n - 1][idx[n - 1]..])
  }

  /** Every record of every file. */
  function AllRecords(recs: seq<seq<HashPosition>>): multiset<HashPosition>
    requires |recs| <= 256
  {
    Unread(recs, seq(|recs|, _ => 0), |recs|)
  }

  /**
   * Which files still have a record waiting in the top row: the files with
   * records left to read are among them, and each of them has had a record
   * read.
   */
  predicate RowShape(recs: seq<seq<HashPosition>>, idx: seq<nat>, live: seq<bool>)
  {
    |idx| == |recs| && |live| == |recs| &&
    forall k :: 0 <= k < |recs| && live[k] ==> 1 <= idx[k] <= |recs[k]|
  }

  /** The records waiting in the top row: the last record read from each live file among the first n. */
  function RowRecords(recs: seq<seq<HashPosition>>, idx: seq<nat>, live: seq<bool>, n: nat): multiset<HashPosition>
    requires RowShape(recs, idx, live) && n <= |recs|
  {
    if n == 0 then multiset{}
    else RowRecords(recs, idx, live, n - 1) + if live[n - 1] then multiset{recs[n - 1][idx[n - 1] - 1]} else multiset{}
  }

  /** Every file with records left to read is live. */
  predicate Live(recs: seq<seq<HashPosition>>, idx: seq<nat>, live: seq<bool>)
  {
    Cursors(recs, idx) && RowShape(recs, idx, live) &&
    forall k :: 0 <= k < |recs| && idx[k] < |recs[k]| ==> live[k]
  }

  /**
   * The merge state: the top row holds exactly the waiting records, sorted
   * by SortHashPositionDesc so that the smallest is last.
   */
  ghost predicate MergeState(recs: seq<seq<HashPosition>>, topRow: seq<HashPosition>, idx: seq<nat>, live: seq<bool>)
  {
    SortedDesc(topRow) && Live(recs, idx, live) && multiset(topRow) == RowRecords(recs, idx, live, |recs|)
  }

  /** Reading one more record of a file keeps the cursors within the files. */
  lemma CursorsAdvance(recs: seq<seq<HashPosition>>, idx: seq<nat>, o: nat)
    requires Cursors(recs, idx) && o < |recs| && idx[o] < |recs[o]|
    ensures Cursors(recs, idx[o := idx[o] + 1])
  {
    var next := idx[o := idx[o] + 1];
    forall k | 0 <= k < |recs| ensures next[k] <= |recs[k]| {
      if k != o {
        assert next[k] == idx[k];
      }
    }
  }

  /** The unread records of a file are its next record and those after it. */
  lemma UnreadOfFile(rs: seq<HashPosition>, i: nat)
    requires i < |rs|
    ensures multiset(rs[i..]) == multiset(rs[i + 1..]) + multiset{rs[i]}
  {
    assert rs[i..] == [rs[i]] + rs[i + 1..];
  }

  /** Reading one more record of file o removes exactly that record from the unread ones. */
  lemma {:induction false} UnreadAdvance(recs: seq<seq<HashPosition>>, idx: seq<nat>, o: nat, n: nat)
    requires Cursors(recs, idx) && o < |recs| && idx[o] < |recs[o]| && o < n <= |recs|
    requires Cursors(recs, idx[o := idx[o] + 1])
    ensures Unread(recs, idx, n) == Unread(recs, idx[o := idx[o] + 1], n) + multiset{recs[o][idx[o]]}
    decreases n
  {
    var next := idx[o := idx[o] + 1];
    if n - 1 == o {
      UnreadUnchanged(recs, idx, next, n - 1);
      UnreadOfFile(recs[o], idx[o]);
    } else {
      UnreadAdvance(recs, idx, o, n - 1);
      assert next[n - 1] == idx[n - 1];
    }
  }

  /** The unread records of the first n files depend only on those files' cursors. */
  lemma {:induction false} UnreadUnchanged(recs: seq<seq<HashPosition>>, idx1: seq<nat>, idx2: seq<nat>, n: nat)
    requires Cursors(recs, idx1) && Cursors(recs, idx2) && n <= |recs|
    requires forall k :: 0 <= k < n ==> idx1[k] == idx2[k]
    ensures Unread(recs, idx1, n) == Unread(recs, idx2, n)
    decreases n
  {
    if n > 0 {
      UnreadUnchanged(recs, idx1, idx2, n - 1);
    }
  }

  /** A waiting record is the last one read from its own file, which is live. */
  lemma {:induction false} InRow(recs: seq<seq<HashPosition>>, idx: seq<nat>, live: seq<bool>, n: nat, t: HashPosition)
    requires Tagged(recs) && RowShape(recs, idx, live) && n <= |recs| && t in RowRecords(recs, idx, live, n)
    ensures t.Owner as nat < n && live[t.Owner] && t == recs[t.Owner][idx[t.Owner] - 1]
    decreases n
  {
    if t !in RowRecords(recs, idx, live, n - 1) {
      assert live[n - 1] && t == recs[n - 1][idx[n - 1] - 1];
    } else {
      InRow(recs, idx, live, n - 1, t);
    }
  }

  /** The last record read from a live file is waiting in the row. */
  lemma {:induction false} MemberInRow(recs: seq<seq<HashPosition>>, idx: seq<nat>, live: seq<bool>, k: nat, n: nat)
    requires RowShape(recs, idx, live) && k < n <= |recs|
    ensures live[k] ==> recs[k][idx[k] - 1] in RowRecords(recs, idx, live, n)
    decreases n
  {
    if k < n - 1 {
      MemberInRow(recs, idx, live, k, n - 1);
    }
  }

  /** With no record waiting, no file is live. */
  lemma EmptyRow(recs: seq<seq<HashPosition>>, idx: seq<nat>, live: seq<bool>)
    requires RowShape(recs, idx, live) && RowRecords(recs, idx, live, |recs|) == multiset{}
    ensures forall k :: 0 <= k < |recs| ==> !live[k]
  {
    forall k | 0 <= k < |recs| ensures !live[k] {
      MemberInRow(recs, idx, live, k, |recs|);
    }
  }

  /** With no file live, every file has been read to its end. */
  lemma {:induction false} NothingUnread(recs: seq<seq<HashPosition>>, idx: seq<nat>, live: seq<bool>, n: nat)
    requires Live(recs, idx, live) && n <= |recs| && forall k :: 0 <= k < |recs| ==> !live[k]
    ensures Unread(recs, idx, n) == multiset{}
    decreases n
  {
    if n > 0 {
      NothingUnread(recs, idx, live, n - 1);
      assert idx[n - 1] == |recs[n - 1]|;
    }
  }

  /** Reading the next record of a live file keeps the row's shape. */
  lemma RowShapeAdvance(recs: seq<seq<HashPosition>>, idx: seq<nat>, live: seq<bool>, o: nat)
    requires RowShape(recs, idx, live) && o < |recs| && idx[o] < |recs[o]|
    ensures RowShape(recs, idx[o := idx[o] + 1], live)
  {
    var next := idx[o := idx[o] + 1];
    forall k | 0 <= k < |recs| && live[k] ensures 1 <= next[k] <= |recs[k]| {
      if k != o {
        assert next[k] == idx[k];
      }
    }
  }

  /** Reading the next record of a live file replaces its waiting record by that one. */
  lemma {:induction false} RowAdvance(recs: seq<seq<HashPosition>>, idx: seq<nat>, live: seq<bool>, o: nat, n: nat)
    requires RowShape(recs, idx, live) && o < n <= |recs| && live[o] && idx[o] < |recs[o]|
    requires RowShape(recs, idx[o := idx[o] + 1], live)
    ensures RowRecords(recs, idx[o := idx[o] + 1], live, n) + multiset{recs[o][idx[o] - 1]} ==
            RowRecords(recs, idx, live, n) + multiset{recs[o][idx[o]]}
    decreases n
  {
    var next := idx[o := idx[o] + 1];
    if n - 1 == o {
      RowRecordsPrefix(recs, idx, live, next, live, n - 1);
    } else {
      RowAdvance(recs, idx, live, o, n - 1);
      RowExtend(recs, idx, live, next, live, n, multiset{recs[o][idx[o] - 1]}, multiset{recs[o][idx[o]]});
    }
  }

  /**
   * Two row states that agree on file n - 1 differ on the first n files'
   * waiting records as they do on the first n - 1 files'.
   */
  lemma RowExtend(recs: seq<seq<HashPosition>>, idx1: seq<nat>, live1: seq<bool>, idx2: seq<nat>, live2: seq<bool>, n: nat,
                  x: multiset<HashPosition>, y: multiset<HashPosition>)
    requires RowShape(recs, idx1, live1) && RowShape(recs, idx2, live2) && 0 < n <= |recs|
    requires idx1[n - 1] == idx2[n - 1] && live1[n - 1] == live2[n - 1]
    requires RowRecords(recs, idx2, live2, n - 1) + x == RowRecords(recs, idx1, live1, n - 1) + y
    ensures RowRecords(recs, idx2, live2, n) + x == RowRecords(recs, idx1, live1, n) + y
  {
    var last := if live1[n - 1] then multiset{recs[n - 1][idx1[n - 1] - 1]} else multiset{};
    assert RowRecords(recs, idx1, live1, n) == RowRecords(recs, idx1, live1, n - 1) + last;
    assert RowRecords(recs, idx2, live2, n) == RowRecords(recs, idx2, live2, n - 1) + last;
    AddToBoth(RowRecords(recs, idx2, live2, n - 1), RowRecords(recs, idx1, live1, n - 1), last, x, y);
  }

  /** Taking the same records away from both sides of an equation of multisets. */
  lemma Cancel(a: multiset<HashPosition>, b: multiset<HashPosition>, x: multiset<HashPosition>)
    requires a + x == b + x
    ensures a == b
  {
    forall t ensures a[t] == b[t] {
      assert (a + x)[t] == (b + x)[t];
    }
  }

  /** Adding the same records to both sides of an equation of multisets. */
  lemma AddToBoth(a: multiset<HashPosition>, b: multiset<HashPosition>, c: multiset<HashPosition>, x: multiset<HashPosition>, y: multiset<HashPosition>)
    requires a + x == b + y
    ensures a + c + x == b + c + y
  {
    calc {
      a + c + x;
      (a + x) + c;
      (b + y) + c;
      b + c + y;
    }
  }

  /** A file leaving the row keeps the row's shape. */
  lemma RowShapeRetire(recs: seq<seq<HashPosition>>, idx: seq<nat>, live: seq<bool>, o: nat)
    requires RowShape(recs, idx, live) && o < |recs|
    ensures RowShape(recs, idx, live[o := false])
  {
    var after := live[o := false];
    forall k | 0 <= k < |recs| && after[k] ensures 1 <= idx[k] <= |recs[k]| {
      assert after[k] == live[k];
    }
  }

  /** A file whose last record is taken leaves the row. */
  lemma {:induction false} RowRetire(recs: seq<seq<HashPosition>>, idx: seq<nat>, live: seq<bool>, o: nat, n: nat)
    requires RowShape(recs, idx, live) && o < n <= |recs| && live[o]
    requires RowShape(recs, idx, live[o := false])
    ensures RowRecords(recs, idx, live[o := false], n) + multiset{recs[o][idx[o] - 1]} == RowRecords(recs, idx, live, n)
    decreases n
  {
    var after := live[o := false];
    if n - 1 == o {
      RowRecordsPrefix(recs, idx, live, idx, after, n - 1);
    } else {
      RowRetire(recs, idx, live, o, n - 1);
      assert after[n - 1] == live[n - 1];
    }
  }

  /** A file whose first record is read joins the row with that record. */
  lemma {:induction false} RowJoin(recs: seq<seq<HashPosition>>, idx: seq<nat>, live: seq<bool>, o: nat, n: nat)
    requires RowShape(recs, idx, live) && o < n <= |recs| && !live[o] && 0 < |recs[o]|
    requires RowShape(recs, idx[o := 1], live[o := true])
    ensures RowRecords(recs, idx[o := 1], live[o := true], n) + multiset{} == RowRecords(recs, idx, live, n) + multiset{recs[o][0]}
    decreases n
  {
    if n - 1 == o {
      RowRecordsPrefix(recs, idx, live, idx[o := 1], live[o := true], n - 1);
    } else {
      RowJoin(recs, idx, live, o, n - 1);
      RowExtend(recs, idx, live, idx[o := 1], live[o := true], n, multiset{}, multiset{recs[o][0]});
    }
  }

  /** The waiting records of the first n files depend only on those files' cursors. */
  lemma {:induction false} RowRecordsPrefix(recs: seq<seq<HashPosition>>, idx1: seq<nat>, live1: seq<bool>, idx2: seq<nat>, live2: seq<bool>, n: nat)
    requires RowShape(recs, idx1, live1) && RowShape(recs, idx2, live2) && n <= |recs|
    requires forall k :: 0 <= k < n ==> idx1[k] == idx2[k] && live1[k] == live2[k]
    ensures RowRecords(recs, idx1, live1, n) == RowRecords(recs, idx2, live2, n)
    decreases n
  {
    if n > 0 {
      RowRecordsPrefix(recs, idx1, live1, idx2, live2, n - 1);
    }
  }

  /** The state of OpenTopRow once the first `owner` files have been opened. */
  ghost predicate Opened(recs: seq<seq<HashPosition>>, row: seq<HashPosition>, idx: seq<nat>, live: seq<bool>, owner: nat)
  {
    owner <= |recs| && Cursors(recs, idx) && RowShape(recs, idx, live) &&
    (forall k :: 0 <= k < owner ==> (idx[k] < |recs[k]| ==> live[k])) &&
    (forall k :: owner <= k < |recs| ==> idx[k] == 0 && !live[k]) &&
    multiset(row) == RowRecords(recs, idx, live, |recs|) &&
    multiset(row) + Unread(recs, idx, |recs|) == AllRecords(recs)
  }

  /** Nothing is open before the loop. */
  lemma OpenedNone(recs: seq<seq<HashPosition>>)
    requires |recs| <= 256
    ensures Opened(recs, [], seq(|recs|, _ => 0), seq(|recs|, _ => false), 0)
  {
    var idx: seq<nat> := seq(|recs|, _ => 0);
    var live := seq(|recs|, _ => false);
    NothingRow(recs, idx, live, |recs|);
  }

  /** With no file live, no record waits. */
  lemma {:induction false} NothingRow(recs: seq<seq<HashPosition>>, idx: seq<nat>, live: seq<bool>, n: nat)
    requires RowShape(recs, idx, live) && n <= |recs| && forall k :: 0 <= k < |recs| ==> !live[k]
    ensures RowRecords(recs, idx, live, n) == multiset{}
    decreases n
  {
    if n > 0 {
      NothingRow(recs, idx, live, n - 1);
    }
  }

  /** Opening file `owner` reads its first record into the row, if it has one. */
  lemma OpenedStep(recs: seq<seq<HashPosition>>, row: seq<HashPosition>, idx: seq<nat>, live: seq<bool>, owner: nat)
    requires Opened(recs, row, idx, live, owner) && owner < |recs| && 0 < |recs[owner]|
    ensures Opened(recs, row + [recs[owner][0]], idx[owner := 1], live[owner := true], owner + 1)
  {
    var hp := recs[owner][0];
    var next, nextLive := idx[owner := 1], live[owner := true];
    CursorsAdvance(recs, idx, owner);
    UnreadAdvance(recs, idx, owner, |recs|);
    assert RowShape(recs, next, nextLive) by {
      forall k | 0 <= k < |recs| && nextLive[k] ensures 1 <= next[k] <= |recs[k]| {
        if k != owner {
          assert next[k] == idx[k] && nextLive[k] == live[k];
        }
      }
    }
    RowJoin(recs, idx, live, owner, |recs|);
    assert multiset(row + [hp]) == multiset(row) + multiset{hp};
    assert forall k :: 0 <= k < owner + 1 ==> (next[k] < |recs[k]| ==> nextLive[k]) by {
      forall k | 0 <= k < owner + 1 && next[k] < |recs[k]| ensures nextLive[k] {
        if k != owner {
          assert next[k] == idx[k] && nextLive[k] == live[k];
        }
      }
    }
  }

  /**
   * The top row as BuildJumpDatabase first fills it: the first record of
   * every file that has one, sorted by SortHashPositionDesc.
   */
  method OpenTopRow(recs: seq<seq<HashPosition>>) returns (topRow: seq<HashPosition>, idx: seq<nat>, ghost live: seq<bool>)
    requires Tagged(recs)
    ensures MergeState(recs, topRow, idx, live)
    ensures multiset(topRow) + Unread(recs, idx, |recs|) == AllRecords(recs)
  {
    var row: seq<HashPosition> := [];
    idx := seq(|recs|, _ => 0);
    live := seq(|recs|, _ => false);
    OpenedNone(recs);
    var owner := 0;
    while owner < |recs|
      invariant Opened(recs, row, idx, live, owner)
    {
      if 0 < |recs[owner]| {
        var hp := recs[owner][0];
        OpenedStep(recs, row, idx, live, owner);
        idx := idx[owner := 1];
        live := live[owner := true];
        row := row + [hp];
      }
      owner := owner + 1;
    }
    topRow := SortDesc(row);
  }

  /**
   * Taking a file's waiting record and reading that file's next record: the
   * next record takes its place in the row and leaves the unread records.
   */
  lemma AdvanceStep(recs: seq<seq<HashPosition>>, row: seq<HashPosition>, best: HashPosition, idx: seq<nat>, live: seq<bool>, o: nat)
    requires Live(recs, idx, live) && multiset(row + [best]) == RowRecords(recs, idx, live, |recs|)
    requires o < |recs| && live[o] && idx[o] < |recs[o]| && best == recs[o][idx[o] - 1]
    ensures Live(recs, idx[o := idx[o] + 1], live)
    ensures multiset(row + [recs[o][idx[o]]]) == RowRecords(recs, idx[o := idx[o] + 1], live, |recs|)
    ensures multiset(row + [recs[o][idx[o]]]) + Unread(recs, idx[o := idx[o] + 1], |recs|) + multiset{best} ==
            multiset(row + [best]) + Unread(recs, idx, |recs|)
  {
    var hp := recs[o][idx[o]];
    var next := idx[o := idx[o] + 1];
    CursorsAdvance(recs, idx, o);
    RowShapeAdvance(recs, idx, live, o);
    assert Live(recs, next, live) by {
      forall k | 0 <= k < |recs| && next[k] < |recs[k]| ensures live[k] {
        if k != o {
          assert next[k] == idx[k];
        }
      }
    }
    UnreadAdvance(recs, idx, o, |recs|);
    RowAdvance(recs, idx, live, o, |recs|);
    assert multiset(row + [hp]) == multiset(row) + multiset{hp};
    assert multiset(row + [best]) == multiset(row) + multiset{best};
    Cancel(RowRecords(recs, next, live, |recs|), multiset(row + [hp]), multiset{best});
    var rest := Unread(recs, next, |recs|);
    calc {
      multiset(row + [hp]) + rest + multiset{best};
      (multiset(row) + multiset{best}) + (rest + multiset{hp});
      multiset(row + [best]) + Unread(recs, idx, |recs|);
    }
  }

  /**
   * Taking the waiting record of a file that has been read to its end: the
   * file leaves the row and the unread records stay as they are.
   */
  lemma RetireStep(recs: seq<seq<HashPosition>>, row: seq<HashPosition>, best: HashPosition, idx: seq<nat>, live: seq<bool>, o: nat)
    requires Live(recs, idx, live) && multiset(row + [best]) == RowRecords(recs, idx, live, |recs|)
    requires o < |recs| && live[o] && idx[o] == |recs[o]| && best == recs[o][idx[o] - 1]
    ensures Live(recs, idx, live[o := false])
    ensures multiset(row) == RowRecords(recs, idx, live[o := false], |recs|)
  {
    var after := live[o := false];
    RowShapeRetire(recs, idx, live, o);
    assert Live(recs, idx, after) by {
      forall k | 0 <= k < |recs| && idx[k] < |recs[k]| ensures after[k] {
        assert k != o;
      }
    }
    RowRetire(recs, idx, live, o, |recs|);
    assert multiset(row + [best]) == multiset(row) + multiset{best};
    Cancel(RowRecords(recs, idx, after, |recs|), multiset(row), multiset{best});
  }

  /** In a file sorted by SortHashPositionAsc, no record precedes the one before it. */
  lemma NextNotBefore(rs: seq<HashPosition>, i: nat)
    requires SortedAsc(rs) && 0 < i < |rs|
    ensures !AscBefore(rs[i], rs[i - 1])
  {
  }

  /** Reordering records that no record precedes gives records that none precedes. */
  lemma NoneBefore(s: seq<HashPosition>, r: seq<HashPosition>, best: HashPosition)
    requires multiset(r) == multiset(s) && forall t :: t in s ==> !AscBefore(t, best)
    ensures forall i :: 0 <= i < |r| ==> !AscBefore(r[i], best)
  {
    forall i | 0 <= i < |r| ensures !AscBefore(r[i], best) {
      assert r[i] in multiset(s);
    }
  }

  /** In a row sorted by SortHashPositionDesc, no record precedes the last one. */
  lemma LastIsLeast(row: seq<HashPosition>, best: HashPosition)
    requires SortedDesc(row + [best])
    ensures forall t :: t in row ==> !AscBefore(t, best)
  {
    forall t | t in row ensures !AscBefore(t, best) {
      var i :| 0 <= i < |row| && row[i] == t;
      assert (row + [best])[i] == t && (row + [best])[|row|] == best;
      DescIsSwappedAsc(best, t);
    }
  }

  /** Sorting the waiting records again gives a merge state. */
  lemma Resorted(recs: seq<seq<HashPosition>>, unsorted: seq<HashPosition>, topRow: seq<HashPosition>, idx: seq<nat>, live: seq<bool>)
    requires Live(recs, idx, live) && multiset(unsorted) == RowRecords(recs, idx, live, |recs|)
    requires SortedDesc(topRow) && multiset(topRow) == multiset(unsorted)
    ensures MergeState(recs, topRow, idx, live)
  {
  }

  /**
   * What the re-sort needs of the row once the file of the record taken has
   * been read on or retired: it holds the waiting records of the new cursors,
   * no record went missing, and the record taken precedes all of it.
   */
  ghost predicate Refilled(recs: seq<seq<HashPosition>>, row: seq<HashPosition>, best: HashPosition, idx: seq<nat>,
                           unsorted: seq<HashPosition>, next: seq<nat>, nextLive: seq<bool>)
  {
    Cursors(recs, idx) && Live(recs, next, nextLive) && multiset(unsorted) == RowRecords(recs, next, nextLive, |recs|) &&
    multiset(unsorted) + Unread(recs, next, |recs|) + multiset{best} == multiset(row + [best]) + Unread(recs, idx, |recs|) &&
    forall t :: t in unsorted ==> !AscBefore(t, best)
  }

  /** Reading the next record of the file of the record taken refills the row. */
  lemma AdvanceRefills(recs: seq<seq<HashPosition>>, row: seq<HashPosition>, best: HashPosition, idx: seq<nat>, live: seq<bool>)
    requires MergeState(recs, row + [best], idx, live) && FilesSorted(recs) && Tagged(recs)
    requires best.Owner as nat < |idx| && idx[best.Owner] < |recs[best.Owner]|
    ensures Refilled(recs, row, best, idx, row + [recs[best.Owner][idx[best.Owner]]],
                     idx[best.Owner := idx[best.Owner] + 1], live)
  {
    assert best in multiset(row + [best]);
    InRow(recs, idx, live, |recs|, best);
    LastIsLeast(row, best);
    var o := best.Owner as nat;
    var hp := recs[o][idx[o]];
    NextNotBefore(recs[o], idx[o]);
    forall t | t in row + [hp] ensures !AscBefore(t, best) {
      if t !in row {
        assert t == hp;
      }
    }
    AdvanceStep(recs, row, best, idx, live, o);
  }

  /** Retiring the exhausted file of the record taken leaves the rest of the row. */
  lemma RetireRefills(recs: seq<seq<HashPosition>>, row: seq<HashPosition>, best: HashPosition, idx: seq<nat>, live: seq<bool>)
    requires MergeState(recs, row + [best], idx, live) && Tagged(recs)
    requires best.Owner as nat < |idx| && idx[best.Owner] >= |recs[best.Owner]|
    ensures Refilled(recs, row, best, idx, row, idx, live[best.Owner := false])
  {
    assert best in multiset(row + [best]);
    InRow(recs, idx, live, |recs|, best);
    LastIsLeast(row, best);
    RetireStep(recs, row, best, idx, live, best.Owner as nat);
    assert multiset(row) + multiset{best} == multiset(row + [best]);
  }

  /** Sorting a refilled row gives the next merge state. */
  lemma RefilledSorts(recs: seq<seq<HashPosition>>, row: seq<HashPosition>, best: HashPosition, idx: seq<nat>,
                      unsorted: seq<HashPosition>, next: seq<nat>, nextLive: seq<bool>)
    requires Refilled(recs, row, best, idx, unsorted, next, nextLive)
    ensures MergeState(recs, SortDesc(unsorted), next, nextLive)
    ensures multiset(SortDesc(unsorted)) + Unread(recs, next, |recs|) + multiset{best} ==
            multiset(row + [best]) + Unread(recs, idx, |recs|)
    ensures forall i :: 0 <= i < |SortDesc(unsorted)| ==> !AscBefore(SortDesc(unsorted)[i], best)
  {
    var topRow := SortDesc(unsorted);
    NoneBefore(unsorted, topRow, best);
    Resorted(recs, unsorted, topRow, next, nextLive);
  }

  /**
   * The second half of one step of the merge loop: once the smallest record
   * has been taken off the top row, the next record of its file, if any,
   * joins the row, and the row is sorted again. The record taken precedes
   * every record now in the row.
   */
  method ReadNext(recs: seq<seq<HashPosition>>, row: seq<HashPosition>, best: HashPosition, idx: seq<nat>, ghost live: seq<bool>)
    returns (topRow: seq<HashPosition>, next: seq<nat>, ghost nextLive: seq<bool>)
    requires MergeState(recs, row + [best], idx, live) && FilesSorted(recs) && Tagged(recs)
    ensures MergeState(recs, topRow, next, nextLive)
    ensures multiset(topRow) + Unread(recs, next, |recs|) + multiset{best} == multiset(row + [best]) + Unread(recs, idx, |recs|)
    ensures forall i :: 0 <= i < |topRow| ==> !AscBefore(topRow[i], best)
  {
    assert best in multiset(row + [best]);
    InRow(recs, idx, live, |recs|, best);
    var owner := best.Owner;
    var unsorted;
    if idx[owner] < |recs[owner]| {
      AdvanceRefills(recs, row, best, idx, live);
      unsorted, next, nextLive := row + [recs[owner][idx[owner]]], idx[owner := idx[owner] + 1], live;
    } else {
      RetireRefills(recs, row, best, idx, live);
      unsorted, next, nextLive := row, idx, live[owner := false];
    }
    RefilledSorts(recs, row, best, idx, unsorted, next, nextLive);
    topRow := SortDesc(unsorted);
  }

  // ---------------------------------------------------------------------------
  // Grouping the merged records
  // ---------------------------------------------------------------------------

  /** A record that no record of a sorted sequence follows may be appended to it. */
  lemma SortedAppend(s: seq<HashPosition>, x: HashPosition)
    requires SortedAsc(s) && (|s| > 0 ==> !AscBefore(x, s[|s| - 1]))
    ensures SortedAsc(s + [x])
  {
    var t := s + [x];
    forall i, j | 0 <= i < j < |t| ensures !AscBefore(t[j], t[i]) {
      if j == |s| && i < |s| - 1 {
        AscIsStrictWeakOrder(x, s[|s| - 1], s[i]);
      }
    }
  }

  /**
   * The order of the records the merge loop has taken: sorted, in closed
   * groups of one hash each followed by the open group, with the hashes
   * ascending, and no waiting record of the top row before the last one taken.
   */
  ghost predicate TakenOrder(topRow: seq<HashPosition>, groups: seq<seq<HashPosition>>, open: seq<HashPosition>)
  {
    HashGroups(groups) && SameHash(open) && SortedAsc(Flatten(groups) + open) &&
    (|groups| > 0 ==> |open| > 0 && groups[|groups| - 1][0].Hash < open[0].Hash) &&
    (|open| > 0 ==> forall i :: 0 <= i < |topRow| ==> !AscBefore(topRow[i], open[|open| - 1]))
  }

  /**
   * The state of the merge loop: the merge state of the top row, every
   * record either waiting, unread, or taken into the closed groups and the
   * open group, and the taken records in order.
   */
  ghost predicate Merging(recs: seq<seq<HashPosition>>, topRow: seq<HashPosition>, idx: seq<nat>, live: seq<bool>,
                          groups: seq<seq<HashPosition>>, open: seq<HashPosition>)
  {
    MergeState(recs, topRow, idx, live) &&
    multiset(topRow) + Unread(recs, idx, |recs|) + multiset(Flatten(groups) + open) == AllRecords(recs) &&
    TakenOrder(topRow, groups, open)
  }

  /** The opened top row starts the merge loop with nothing taken. */
  lemma MergeStart(recs: seq<seq<HashPosition>>, topRow: seq<HashPosition>, idx: seq<nat>, live: seq<bool>)
    requires MergeState(recs, topRow, idx, live) && multiset(topRow) + Unread(recs, idx, |recs|) == AllRecords(recs)
    ensures Merging(recs, topRow, idx, live, [], [])
  {
    NothingTaken(topRow);
  }

  /** Before the first step nothing is taken, and nothing taken is in order. */
  lemma NothingTaken(topRow: seq<HashPosition>)
    ensures multiset(Flatten([]) + []) == multiset{}
    ensures TakenOrder(topRow, [], [])
  {
    var none: seq<HashPosition> := [];
    assert Flatten([]) + none == none;
  }

  /** Taking one more record keeps the account of every record. */
  lemma TakenAccount(all: multiset<HashPosition>, before: multiset<HashPosition>, after: multiset<HashPosition>,
                     taken: seq<HashPosition>, best: HashPosition)
    requires before + multiset(taken) == all
    requires after + multiset{best} == before
    ensures after + multiset(taken + [best]) == all
  {
    calc {
      after + multiset(taken + [best]);
      after + (multiset(taken) + multiset{best});
      (after + multiset{best}) + multiset(taken);
      all;
    }
  }

  /** The smallest waiting record follows every record taken. */
  lemma TakenThenBest(row: seq<HashPosition>, best: HashPosition, groups: seq<seq<HashPosition>>, open: seq<HashPosition>)
    requires TakenOrder(row + [best], groups, open)
    ensures SortedAsc(Flatten(groups) + open + [best])
    ensures |open| > 0 ==> open[0].Hash <= best.Hash
  {
    var taken := Flatten(groups) + open;
    if |open| > 0 {
      assert (row + [best])[|row|] == best;
      assert taken[|taken| - 1] == open[|open| - 1];
    }
    SortedAppend(taken, best);
  }

  /** A record with the open group's hash joins the open group. */
  lemma OrderJoin(row: seq<HashPosition>, best: HashPosition, groups: seq<seq<HashPosition>>, open: seq<HashPosition>, topRow: seq<HashPosition>)
    requires TakenOrder(row + [best], groups, open)
    requires forall i :: 0 <= i < |topRow| ==> !AscBefore(topRow[i], best)
    requires |open| == 0 || best.Hash == open[0].Hash
    ensures TakenOrder(topRow, groups, open + [best])
  {
    TakenThenBest(row, best, groups, open);
    assert Flatten(groups) + (open + [best]) == Flatten(groups) + open + [best];
  }

  /** A record with a larger hash closes the open group and opens the next. */
  lemma OrderClose(row: seq<HashPosition>, best: HashPosition, groups: seq<seq<HashPosition>>, open: seq<HashPosition>, topRow: seq<HashPosition>)
    requires TakenOrder(row + [best], groups, open)
    requires forall i :: 0 <= i < |topRow| ==> !AscBefore(topRow[i], best)
    requires |open| > 0 && best.Hash != open[0].Hash
    ensures TakenOrder(topRow, groups + [open], [best])
  {
    TakenThenBest(row, best, groups, open);
    FlattenAppend(groups, open);
    HashGroupsAppend(groups, open);
  }

  /**
   * One step of the merge loop: the smallest waiting record either joins the
   * open group, when it has the open group's hash (or nothing is open yet),
   * or closes the open group and opens a new one; the next record of its
   * file then joins the row.
   */
  lemma MergeStep(recs: seq<seq<HashPosition>>, row: seq<HashPosition>, best: HashPosition, idx: seq<nat>, live: seq<bool>,
                  groups: seq<seq<HashPosition>>, open: seq<HashPosition>,
                  topRow: seq<HashPosition>, next: seq<nat>, nextLive: seq<bool>, close: bool)
    requires Merging(recs, row + [best], idx, live, groups, open)
    requires MergeState(recs, topRow, next, nextLive)
    requires multiset(topRow) + Unread(recs, next, |recs|) + multiset{best} == multiset(row + [best]) + Unread(recs, idx, |recs|)
    requires forall i :: 0 <= i < |topRow| ==> !AscBefore(topRow[i], best)
    requires close <==> |open| > 0 && best.Hash != open[0].Hash
    ensures close ==> Merging(recs, topRow, next, nextLive, groups + [open], [best])
    ensures !close ==> Merging(recs, topRow, next, nextLive, groups, open + [best])
  {
    var taken := Flatten(groups) + open;
    TakenAccount(AllRecords(recs), multiset(row + [best]) + Unread(recs, idx, |recs|),
                 multiset(topRow) + Unread(recs, next, |recs|), taken, best);
    if close {
      OrderClose(row, best, groups, open, topRow);
      FlattenAppend(groups, open);
      assert Flatten(groups + [open]) + [best] == taken + [best];
    } else {
      OrderJoin(row, best, groups, open, topRow);
      assert Flatten(groups) + (open + [best]) == taken + [best];
    }
  }

  /** While a group is open, some record exists. */
  lemma OpenMeansRecords(recs: seq<seq<HashPosition>>, topRow: seq<HashPosition>, idx: seq<nat>,
                         groups: seq<seq<HashPosition>>, open: seq<HashPosition>)
    requires |recs| <= 256 && Cursors(recs, idx) && |open| > 0
    requires multiset(topRow) + Unread(recs, idx, |recs|) + multiset(Flatten(groups) + open) == AllRecords(recs)
    ensures AllRecords(recs) != multiset{}
  {
    var taken := Flatten(groups) + open;
    assert taken[|taken| - 1] in multiset(taken);
  }

  /**
   * When the top row is empty every record has been taken: the open group is
   * empty exactly when there were no records, and otherwise closing it leaves
   * groups that hold every record, sorted, one hash per group, with the
   * hashes ascending.
   */
  lemma MergeEnd(recs: seq<seq<HashPosition>>, idx: seq<nat>, live: seq<bool>, groups: seq<seq<HashPosition>>, open: seq<HashPosition>)
    requires Merging(recs, [], idx, live, groups, open)
    ensures |open| == 0 <==> AllRecords(recs) == multiset{}
    ensures |open| > 0 ==> HashGroups(groups + [open]) && SortedAsc(Flatten(groups + [open])) &&
                           multiset(Flatten(groups + [open])) == AllRecords(recs)
  {
    EmptyRow(recs, idx, live);
    NothingUnread(recs, idx, live, |recs|);
    var taken := Flatten(groups) + open;
    assert multiset(taken) == AllRecords(recs);
    FlattenAppend(groups, open);
    if |open| > 0 {
      HashGroupsAppend(groups, open);
      OpenMeansRecords(recs, [], idx, groups, open);
    } else {
      assert |groups| == 0;
      assert taken == [];
    }
  }

}
