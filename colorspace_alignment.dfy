/**
 * The stages of the colorspace-to-basespace alignment conversion that the
 * main and the legacy utilities perform identically: the prefix count of
 * reference gaps, what gap patching may change, the split into maximal
 * identity runs, the remapping of per-transition qualities to per-base
 * qualities and the advanced end coordinates.
 */
module ColorspaceAlignment {
  import opened Bytes
  import opened ColorspaceHeader
  import opened Alignments

  /** ARRAY_EXTENSION: the slack added whenever the gap-count array grows. */
  const ARRAY_EXTENSION: nat := 10

  /** The number of gap characters in a string. */
  function GapCount(s: seq<char>): (n: nat)
    ensures n <= |s|
  {
    if |s| == 0 then 0 else GapCount(s[..|s| - 1]) + (if s[|s| - 1] == '-' then 1 else 0)
  }

  /** A string without gap characters counts no gaps. */
  lemma {:induction false} GapCountWithoutGaps(s: seq<char>)
    requires forall i :: 0 <= i < |s| ==> s[i] != '-'
    ensures GapCount(s) == 0
  {
    if |s| > 0 {
      GapCountWithoutGaps(s[..|s| - 1]);
    }
  }

  /** Some pairwise position holds a gap in the reference or in the query. */
  predicate HasGap(reference: seq<char>, query: seq<char>)
    requires |reference| <= |query|
  {
    exists i :: 0 <= i < |reference| && (reference[i] == '-' || query[i] == '-')
  }

  /**
   * The mNumGapsObserved array and its length mNumGapsObservedLen: for each
   * pairwise position, the number of reference gaps before it. The array
   * starts out empty (the NULL pointer of the constructor).
   */
  class ObservedGaps {
    var counts: array<u16>
    var capacity: nat

    ghost predicate Valid()
      reads this
    {
      counts.Length == capacity && capacity < U16_LIMIT
    }

    constructor()
      ensures Valid() && capacity == 0
    {
      counts := new u16[0];
      capacity := 0;
    }

    /**
     * UpdateObservedGaps: grows the array when the alignment is longer than it,
     * fills in the prefix gap counts and reports whether any position is gapped.
     */
    method Update(reference: seq<char>, query: seq<char>) returns (hasGaps: bool)
      requires Valid()
      requires |reference| == |query|
      requires |reference| + ARRAY_EXTENSION < U16_LIMIT
      modifies this, counts
      ensures Valid()
      ensures old(capacity) < |reference| ==> capacity == |reference| + ARRAY_EXTENSION && fresh(counts)
      ensures |reference| <= old(capacity) ==> capacity == old(capacity) && counts == old(counts)
      ensures capacity >= |reference|
      ensures forall i :: 0 <= i < |reference| ==> counts[i] as int == GapCount(reference[..i])
      ensures hasGaps <==> HasGap(reference, query)
    {
      if |reference| > capacity {
        capacity := |reference| + ARRAY_EXTENSION;
        counts := new u16[capacity];
      }
      var numReferenceGaps := 0;
      var numGapPositions := 0;
      var i := 0;
      while i < |reference|
        invariant Valid() && capacity >= |reference|
        invariant capacity == if old(capacity) < |reference| then |reference| + ARRAY_EXTENSION else old(capacity)
        invariant old(capacity) < |reference| ==> fresh(counts)
        invariant |reference| <= old(capacity) ==> counts == old(counts)
        invariant 0 <= i <= |reference|
        invariant numReferenceGaps == GapCount(reference[..i])
        invariant numGapPositions <= i
        invariant numGapPositions > 0 <==> exists j :: 0 <= j < i && (reference[j] == '-' || query[j] == '-')
        invariant forall j :: 0 <= j < i ==> counts[j] as int == GapCount(reference[..j])
      {
        counts[i] := numReferenceGaps;
        assert reference[..i + 1][..i] == reference[..i];
        if reference[i] == '-' {
          numReferenceGaps := numReferenceGaps + 1;
        }
        if reference[i] == '-' || query[i] == '-' {
          numGapPositions := numGapPositions + 1;
        }
        i := i + 1;
      }
      hasGaps := numGapPositions > 0;
    }
  }

  /**
   * The genome from the alignment's reference begin (`window`) covers one base
   * more than the pairwise length, and the observed-gap counts `g` cover every
   * pairwise position with no more gaps than positions before it.
   */
  ghost predicate GapsFit(window: seq<char>, g: seq<int>, length: nat)
  {
    length < |window| && length <= |g| && forall i :: 0 <= i < length ==> 0 <= g[i] <= i
  }

  /** The genome from the alignment's reference begin on: what mpBsRefSeqs[ReferenceIndex] + ReferenceBegin points at. */
  function GenomeWindow(al: Alignment, references: seq<seq<char>>): (window: seq<char>)
    requires al.ReferenceIndex as nat < |references| && al.ReferenceBegin as nat <= |references[al.ReferenceIndex]|
    ensures |window| == |references[al.ReferenceIndex]| - al.ReferenceBegin as nat
  {
    references[al.ReferenceIndex][al.ReferenceBegin..]
  }

  // ---------------------------------------------------------------------------
  // Gap patching
  // ---------------------------------------------------------------------------

  /** Every position whose character changed was a gap or directly follows one. */
  ghost predicate ChangedOnlyAtRuns(original: seq<char>, current: seq<char>)
  {
    |current| == |original| &&
    forall j {:trigger current[j]} {:trigger original[j]} :: 0 <= j < |current| && current[j] != original[j] ==> original[j] == '-' || (0 < j && original[j - 1] == '-')
  }

  /** No position from i on has changed yet. */
  ghost predicate UntouchedFrom(original: seq<char>, current: seq<char>, i: nat)
  {
    |current| == |original| && forall j :: i <= j < |current| ==> current[j] == original[j]
  }

  /** Before i, a reference gap that remains was a gap opposite the end of a query gap run. */
  ghost predicate ReferenceGapsJustified(R0: seq<char>, Q0: seq<char>, reference: seq<char>, i: nat)
    requires |R0| == |Q0| == |reference|
  {
    forall j :: 0 <= j < i && j < |reference| && reference[j] == '-' ==> R0[j] == '-' && 0 < j && Q0[j - 1] == '-'
  }

  /** Before i, a query gap that remains was a gap opposite a reference gap. */
  ghost predicate QueryGapsJustified(R0: seq<char>, Q0: seq<char>, query: seq<char>, i: nat)
    requires |R0| == |Q0| == |query|
  {
    forall j :: 0 <= j < i && j < |query| && query[j] == '-' ==> Q0[j] == '-' && R0[j] == '-'
  }

  /** Positions opposite a reference gap run may keep their query gaps. */
  lemma QueryGapsOppositeReferenceRun(R0: seq<char>, Q0: seq<char>, query: seq<char>, left: nat, right: nat)
    requires |R0| == |Q0| == |query| && right <= |query|
    requires QueryGapsJustified(R0, Q0, query, left) && UntouchedFrom(Q0, query, left)
    requires forall j :: left <= j < right ==> R0[j] == '-'
    ensures QueryGapsJustified(R0, Q0, query, right)
  {
  }

  /** Reference positions after a query gap run keep whatever gaps they had. */
  lemma ReferenceGapsOppositeQueryRun(R0: seq<char>, Q0: seq<char>, reference: seq<char>, query: seq<char>, left: nat, right: nat)
    requires |R0| == |Q0| == |reference| == |query| && left < right < |query|
    requires ReferenceGapsJustified(R0, Q0, reference, left + 1)
    requires UntouchedFrom(R0, reference, left + 1) && UntouchedFrom(Q0, query, left)
    requires forall j :: left <= j < right ==> query[j] == '-'
    ensures ReferenceGapsJustified(R0, Q0, reference, right + 1)
  {
  }

  /** A stretch of the reference without gaps extends the justified prefix. */
  lemma ReferenceGapsExtend(R0: seq<char>, Q0: seq<char>, before: seq<char>, after: seq<char>, left: nat, right: nat)
    requires |R0| == |Q0| == |before| == |after| && left <= right < |after|
    requires ReferenceGapsJustified(R0, Q0, before, left)
    requires forall j :: 0 <= j < left ==> after[j] == before[j]
    requires forall j :: left <= j <= right ==> after[j] != '-'
    ensures ReferenceGapsJustified(R0, Q0, after, right + 1)
  {
  }

  /** A stretch of the query without gaps extends the justified prefix. */
  lemma QueryGapsExtend(R0: seq<char>, Q0: seq<char>, before: seq<char>, after: seq<char>, left: nat, right: nat)
    requires |R0| == |Q0| == |before| == |after| && left <= right < |after|
    requires QueryGapsJustified(R0, Q0, before, left)
    requires forall j :: 0 <= j < left ==> after[j] == before[j]
    requires forall j :: left <= j <= right ==> after[j] != '-'
    ensures QueryGapsJustified(R0, Q0, after, right + 1)
  {
  }

  /** Patching the run from `left` to `right` keeps the changes confined to gap runs. */
  lemma RunPatched(original: seq<char>, before: seq<char>, after: seq<char>, left: nat, right: nat)
    requires ChangedOnlyAtRuns(original, before) && UntouchedFrom(original, before, left)
    requires |after| == |before| && left < right < |before|
    requires forall j :: left <= j < right ==> before[j] == '-'
    requires forall j :: 0 <= j < |after| && !(left <= j <= right) ==> after[j] == before[j]
    ensures ChangedOnlyAtRuns(original, after) && UntouchedFrom(original, after, right + 1)
  {
  }

  /**
   * What gap patching guarantees about the pairwise strings: their lengths
   * are kept, only gap runs and the colours closing them change, a reference
   * gap survives only right after a query gap, and a query gap only opposite
   * a reference gap.
   */
  ghost predicate PatchedAlignment(alRef: seq<char>, alQry: seq<char>, patchedRef: seq<char>, patchedQry: seq<char>)
  {
    |alRef| == |alQry| &&
    ChangedOnlyAtRuns(alRef, patchedRef) && ChangedOnlyAtRuns(alQry, patchedQry) &&
    (forall j :: 0 <= j < |patchedRef| && patchedRef[j] == '-' ==> alRef[j] == '-' && 0 < j && alQry[j - 1] == '-') &&
    (forall j :: 0 <= j < |patchedQry| && patchedQry[j] == '-' ==> alQry[j] == '-' && alRef[j] == '-')
  }

  /** Strings with no gap anywhere are their own patched form. */
  lemma NothingToPatch(alRef: seq<char>, alQry: seq<char>)
    requires |alRef| == |alQry| && !HasGap(alRef, alQry)
    ensures PatchedAlignment(alRef, alQry, alRef, alQry)
  {
  }

  // ---------------------------------------------------------------------------
  // Identity regions
  // ---------------------------------------------------------------------------

  /** Two pairs of basespace runs, reference after reference and query after query. */
  function Joined(a: (seq<char>, seq<char>), b: (seq<char>, seq<char>)): (seq<char>, seq<char>)
  {
    (a.0 + b.0, a.1 + b.1)
  }

  /** The position just past a region. */
  function End(r: Region): nat
  {
    r.Begin as nat + r.Length as nat
  }

  /** Every region is non-empty and ends inside the strings and before position `limit`. */
  ghost predicate RegionsInside(rv: seq<Region>, length: nat, limit: nat)
  {
    forall k :: 0 <= k < |rv| ==> 1 <= rv[k].Length && End(rv[k]) <= length && End(rv[k]) < limit
  }

  /** Reference and query agree throughout every region. */
  ghost predicate RegionsAgree(reference: seq<char>, query: seq<char>, rv: seq<Region>)
    requires |reference| == |query|
    requires RegionsInside(rv, |reference|, |reference| + 1)
  {
    forall k, j :: 0 <= k < |rv| && rv[k].Begin <= j < End(rv[k]) ==> reference[j] == query[j]
  }

  /** Every region is bounded on both sides by a disagreeing position or an end of the strings. */
  ghost predicate RegionsMaximal(reference: seq<char>, query: seq<char>, rv: seq<Region>)
    requires |reference| == |query|
    requires RegionsInside(rv, |reference|, |reference| + 1)
  {
    (forall k :: 0 <= k < |rv| && End(rv[k]) < |reference| ==> reference[End(rv[k])] != query[End(rv[k])]) &&
    (forall k :: 0 <= k < |rv| && 0 < rv[k].Begin ==> reference[rv[k].Begin - 1] != query[rv[k].Begin - 1])
  }

  /** Each region starts strictly after the previous one ends. */
  ghost predicate RegionsOrdered(rv: seq<Region>)
  {
    forall k :: 0 < k < |rv| ==> End(rv[k - 1]) < rv[k].Begin
  }

  /** Every agreeing position before `limit` lies in some region. */
  ghost predicate AgreementCovered(reference: seq<char>, query: seq<char>, rv: seq<Region>, limit: nat)
    requires |reference| == |query|
  {
    forall j :: 0 <= j < limit && j < |reference| && reference[j] == query[j] ==>
      exists k :: 0 <= k < |rv| && rv[k].Begin <= j < End(rv[k])
  }

  /**
   * The regions are the maximal runs of positions where reference and query
   * agree, in increasing order: each is non-empty and agrees throughout, is
   * bounded on both sides by a disagreeing position or an end of the strings,
   * and every agreeing position lies in one of them.
   */
  ghost predicate IdentityRegions(reference: seq<char>, query: seq<char>, rv: seq<Region>)
    requires |reference| == |query|
  {
    RegionsInside(rv, |reference|, |reference| + 1) &&
    RegionsAgree(reference, query, rv) &&
    RegionsMaximal(reference, query, rv) &&
    RegionsOrdered(rv) &&
    AgreementCovered(reference, query, rv, |reference|)
  }

  /**
   * What FindIndenticalRegions has established once its scan reaches position
   * i: the regions found so far end before i and are maximal identity runs in
   * order, the position before i disagrees, and every agreeing position before
   * i is covered.
   */
  ghost predicate ScannedUpTo(reference: seq<char>, query: seq<char>, rv: seq<Region>, i: nat)
    requires |reference| == |query|
  {
    RegionsInside(rv, |reference|, i) && i <= |reference| + 1 &&
    RegionsAgree(reference, query, rv) &&
    RegionsMaximal(reference, query, rv) &&
    RegionsOrdered(rv) &&
    (0 < i <= |reference| ==> reference[i - 1] != query[i - 1]) &&
    AgreementCovered(reference, query, rv, i)
  }

  /** Recording the run that starts at i and stops at end moves the scan past end. */
  lemma ScanRecordsRun(reference: seq<char>, query: seq<char>, rv: seq<Region>, i: nat, end: nat, r: Region)
    requires |reference| == |query|
    requires ScannedUpTo(reference, query, rv, i)
    requires i < end <= |reference| && r.Begin as nat == i && r.Length as nat == end - i
    requires forall j :: i <= j < end ==> reference[j] == query[j]
    requires end < |reference| ==> reference[end] != query[end]
    ensures ScannedUpTo(reference, query, rv + [r], end + 1)
  {
    RecordedRunIsMaximal(reference, query, rv, i, end, r);
    RecordedRunCovers(reference, query, rv, i, end, r);
  }

  lemma RecordedRunIsMaximal(reference: seq<char>, query: seq<char>, rv: seq<Region>, i: nat, end: nat, r: Region)
    requires |reference| == |query|
    requires ScannedUpTo(reference, query, rv, i)
    requires i < end <= |reference| && r.Begin as nat == i && r.Length as nat == end - i
    requires forall j :: i <= j < end ==> reference[j] == query[j]
    requires end < |reference| ==> reference[end] != query[end]
    ensures RegionsInside(rv + [r], |reference|, end + 1)
    ensures RegionsAgree(reference, query, rv + [r])
    ensures RegionsMaximal(reference, query, rv + [r])
    ensures RegionsOrdered(rv + [r])
  {
    var rv' := rv + [r];
    assert forall k :: 0 <= k < |rv| ==> rv'[k] == rv[k];
    assert RegionsInside(rv', |reference|, end + 1) by {
      assert RegionsInside(rv, |reference|, i);
    }
    RecordedRunAgrees(reference, query, rv, i, end, r);
    RecordedRunBounded(reference, query, rv, i, end, r);
  }

  lemma RecordedRunAgrees(reference: seq<char>, query: seq<char>, rv: seq<Region>, i: nat, end: nat, r: Region)
    requires |reference| == |query|
    requires RegionsInside(rv, |reference|, i) && RegionsAgree(reference, query, rv)
    requires i < end <= |reference| && r.Begin as nat == i && r.Length as nat == end - i
    requires forall j :: i <= j < end ==> reference[j] == query[j]
    ensures RegionsInside(rv + [r], |reference|, end + 1)
    ensures RegionsAgree(reference, query, rv + [r])
  {
    var rv' := rv + [r];
    assert forall k :: 0 <= k < |rv| ==> rv'[k] == rv[k];
  }

  lemma RecordedRunBounded(reference: seq<char>, query: seq<char>, rv: seq<Region>, i: nat, end: nat, r: Region)
    requires |reference| == |query|
    requires RegionsInside(rv, |reference|, i) && RegionsMaximal(reference, query, rv) && RegionsOrdered(rv)
    requires 0 < i <= |reference| ==> reference[i - 1] != query[i - 1]
    requires i < end <= |reference| && r.Begin as nat == i && r.Length as nat == end - i
    requires end < |reference| ==> reference[end] != query[end]
    ensures RegionsInside(rv + [r], |reference|, end + 1)
    ensures RegionsMaximal(reference, query, rv + [r])
    ensures RegionsOrdered(rv + [r])
  {
    var rv' := rv + [r];
    assert forall k :: 0 <= k < |rv| ==> rv'[k] == rv[k];
  }

  lemma RecordedRunCovers(reference: seq<char>, query: seq<char>, rv: seq<Region>, i: nat, end: nat, r: Region)
    requires |reference| == |query|
    requires AgreementCovered(reference, query, rv, i)
    requires i < end && r.Begin as nat == i && r.Length as nat == end - i
    requires end < |reference| ==> reference[end] != query[end]
    ensures AgreementCovered(reference, query, rv + [r], end + 1)
  {
    var rv' := rv + [r];
    forall j | 0 <= j < end + 1 && j < |reference| && reference[j] == query[j]
      ensures exists k :: 0 <= k < |rv'| && rv'[k].Begin <= j < End(rv'[k])
    {
      if j < i {
        var k :| 0 <= k < |rv| && rv[k].Begin <= j < End(rv[k]);
        assert rv'[k] == rv[k];
      } else {
        assert rv'[|rv|].Begin <= j < End(rv'[|rv|]);
      }
    }
  }

  /** A disagreeing position is passed over. */
  lemma ScanSkipsMismatch(reference: seq<char>, query: seq<char>, rv: seq<Region>, i: nat)
    requires |reference| == |query|
    requires ScannedUpTo(reference, query, rv, i)
    requires i < |reference| && reference[i] != query[i]
    ensures ScannedUpTo(reference, query, rv, i + 1)
  {
  }

  /** A finished scan has found the maximal identity runs. */
  lemma ScanComplete(reference: seq<char>, query: seq<char>, rv: seq<Region>, i: nat)
    requires |reference| == |query|
    requires ScannedUpTo(reference, query, rv, i) && i >= |reference|
    ensures IdentityRegions(reference, query, rv)
  {
  }

  /** FindIndenticalRegions: the maximal identity runs of a pairwise alignment, in order. */
  method FindIdenticalRegions(reference: seq<char>, query: seq<char>) returns (rv: seq<Region>)
    requires |reference| == |query|
    requires |reference| < U16_LIMIT - 1
    ensures IdentityRegions(reference, query, rv)
  {
    rv := [];
    var i := 0;
    while i < |reference|
      invariant ScannedUpTo(reference, query, rv, i)
    {
      if reference[i] == query[i] {
        var r := NewRegion(i);
        var end := i;
        while end < |reference| && reference[end] == query[end]
          invariant i <= end <= |reference|
          invariant r.Begin as nat == i && r.Length as nat == end - i
          invariant forall j :: i <= j < end ==> reference[j] == query[j]
        {
          r := r.(Length := r.Length + 1);
          end := end + 1;
        }
        ScanRecordsRun(reference, query, rv, i, end, r);
        rv := rv + [r];
        i := end;
      } else {
        ScanSkipsMismatch(reference, query, rv, i);
      }
      i := i + 1;
    }
    ScanComplete(reference, query, rv, i);
  }

  /** Two identical strings form a single identity region spanning them. */
  lemma OneRegionWhenIdentical(reference: seq<char>, query: seq<char>, rv: seq<Region>)
    requires |reference| == |query| && 1 <= |reference| && reference == query
    requires IdentityRegions(reference, query, rv)
    ensures |rv| == 1 && rv[0].Begin == 0 && End(rv[0]) == |reference|
  {
    assert reference[0] == query[0];
    var k :| 0 <= k < |rv| && rv[k].Begin <= 0 < End(rv[k]);
    assert rv[k].Begin == 0 && End(rv[k]) == |reference|;
    LaterRegionStartsLater(rv, k);
    SecondRegionFollowsFirst(rv, |reference|);
  }

  /** Only the first of the ordered regions can start at position 0. */
  lemma LaterRegionStartsLater(rv: seq<Region>, k: nat)
    requires RegionsOrdered(rv) && k < |rv|
    ensures 0 < k ==> 0 < rv[k].Begin
  {
    if 0 < k {
      assert End(rv[k - 1]) < rv[k].Begin;
    }
  }

  /** In ordered regions within `length`, a second region leaves the first ending before `length`. */
  lemma SecondRegionFollowsFirst(rv: seq<Region>, length: nat)
    requires RegionsInside(rv, length, length + 1) && RegionsOrdered(rv)
    ensures 2 <= |rv| ==> End(rv[0]) < length
  {
    if 2 <= |rv| {
      assert End(rv[0]) < rv[1].Begin && End(rv[1]) <= length;
    }
  }

  /**
   * The per-base qualities of a colorspace alignment: a base overlaps the
   * transitions on either side of it and takes the lower of their qualities;
   * the two end bases each overlap one transition.
   */
  function RemappedQualities(csQualities: seq<char>): (bsQualities: seq<char>)
    requires 1 <= |csQualities|
    ensures |bsQualities| == |csQualities| + 1
    ensures bsQualities[0] == csQualities[0] && bsQualities[|csQualities|] == csQualities[|csQualities| - 1]
    ensures forall i {:trigger bsQualities[i]} :: 0 < i < |csQualities| ==>
              SignedQuality(bsQualities[i]) <= SignedQuality(csQualities[i - 1]) &&
              SignedQuality(bsQualities[i]) <= SignedQuality(csQualities[i]) &&
              (bsQualities[i] == csQualities[i - 1] || bsQualities[i] == csQualities[i])
  {
    var n := |csQualities|;
    var bsQualities := seq(n + 1, i requires 0 <= i <= n => RemappedQuality(csQualities, i));
    assert forall i :: 0 <= i <= n ==> bsQualities[i] == RemappedQuality(csQualities, i);
    bsQualities
  }

  /** The quality of base `i`: the lower of the transitions on either side of it. */
  function RemappedQuality(csQualities: seq<char>, i: nat): (q: char)
    requires 1 <= |csQualities| && i <= |csQualities|
    ensures i == 0 ==> q == csQualities[0]
    ensures i == |csQualities| ==> q == csQualities[|csQualities| - 1]
    ensures 0 < i < |csQualities| ==>
              SignedQuality(q) <= SignedQuality(csQualities[i - 1]) && SignedQuality(q) <= SignedQuality(csQualities[i]) &&
              (q == csQualities[i - 1] || q == csQualities[i])
  {
    var n := |csQualities|;
    if i == 0 then csQualities[0]
    else if i == n then csQualities[n - 1]
    else LowerQuality(csQualities[i], csQualities[i - 1])
  }

  /**
   * A quality character as the signed byte `char` holds: its low eight bits,
   * with those from 0x80 up read as negative.
   */
  function SignedQuality(c: char): (v: int)
    ensures -128 <= v < 128
    ensures c as int < 128 ==> v == c as int
    ensures 128 <= c as int < 256 ==> v == c as int - 256
  {
    var b := c as int % 256;
    if b < 128 then b else b - 256
  }

  /**
   * The lower of two quality characters as signed bytes (std::min over
   * `char`), preferring the second on a tie.
   */
  function LowerQuality(a: char, b: char): (q: char)
    ensures SignedQuality(q) <= SignedQuality(a) && SignedQuality(q) <= SignedQuality(b) && (q == a || q == b)
    ensures SignedQuality(a) == SignedQuality(b) ==> q == b
  {
    if SignedQuality(a) < SignedQuality(b) then a else b
  }

  /** Between qualities below 0x80, the signed minimum is the lower code point. */
  lemma LowerQualityAscii(a: char, b: char)
    requires a as int < 128 && b as int < 128
    ensures LowerQuality(a, b) == if a < b then a else b
  {
  }

  /** A quality from 0x80 up is negative as a signed byte, so it wins against 'A'. */
  lemma HighQualityIsLower()
    ensures LowerQuality('A', '\U{C8}') == '\U{C8}'
  {
  }

  /**
   * The quality remapping loop of ConvertAlignmentToBasespace: writes the
   * first quality, each inner minimum and the last quality through a cursor
   * into a buffer one longer than the colour qualities.
   */
  method RemapQualities(csQualities: seq<char>) returns (bsQualities: array<char>)
    requires 1 <= |csQualities| < U16_LIMIT
    ensures bsQualities[..] == RemappedQualities(csQualities)
  {
    var n := |csQualities|;
    bsQualities := new char[n + 1];
    bsQualities[0] := csQualities[0];
    var i := 1;
    while i < n
      invariant 1 <= i <= n
      invariant forall k :: 0 <= k < i ==> bsQualities[k] == RemappedQuality(csQualities, k)
    {
      bsQualities[i] := LowerQuality(csQualities[i], csQualities[i - 1]);
      i := i + 1;
    }
    bsQualities[n] := csQualities[n - 1];
    assert forall k :: 0 <= k <= n ==> bsQualities[k] == RemappedQuality(csQualities, k);
  }

  /**
   * The end coordinates ConvertAlignmentToBasespace leaves once the anchor
   * base is prepended: both ends one base further on (the reference end as a
   * 32-bit and the query end as a 16-bit counter) and the query length
   * recomputed from them, truncated to 16 bits.
   */
  function EndsAdvanced(al: Alignment): (r: Alignment)
    ensures r.QueryEnd as int == (al.QueryEnd as int + 1) % U16_LIMIT
    ensures r.ReferenceEnd as int == (al.ReferenceEnd as int + 1) % U32_LIMIT
    ensures al.QueryEnd + 1 < U16_LIMIT && al.QueryBegin <= al.QueryEnd && al.QueryEnd - al.QueryBegin + 2 < U16_LIMIT ==>
              r.QueryLength == al.QueryEnd - al.QueryBegin + 2
  {
    al.(ReferenceEnd := Truncate(al.ReferenceEnd as int + 1, U32_LIMIT),
        QueryEnd := Truncate(al.QueryEnd as int + 1, U16_LIMIT),
        QueryLength := Truncate(Truncate(al.QueryEnd as int + 1, U16_LIMIT) - al.QueryBegin as int + 1, U16_LIMIT))
  }

  /** The advanced ends, field by field. */
  lemma EndsAdvancedFields(al: Alignment, referenceEnd: u32, queryEnd: u16, queryLength: u16)
    requires referenceEnd as int == Truncate(al.ReferenceEnd as int + 1, U32_LIMIT)
    requires queryEnd as int == Truncate(al.QueryEnd as int + 1, U16_LIMIT)
    requires queryLength as int == Truncate(queryEnd as int - al.QueryBegin as int + 1, U16_LIMIT)
    ensures EndsAdvanced(al) == al.(ReferenceEnd := referenceEnd, QueryEnd := queryEnd, QueryLength := queryLength)
  {
  }
}
