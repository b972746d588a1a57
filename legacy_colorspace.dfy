/**
 * The legacy colorspace utilities: the same conversion of a colorspace
 * alignment to basespace as the main utilities, with gap runs filled with N
 * instead of patched with transition colours, identity runs copied from the
 * genome, mismatch runs decoded through a table that must hold every pair,
 * and a mismatch count that compares bytes.
 */
module LegacyColorspace {
  import opened Outcome
  import opened Bytes
  import opened ColorspaceHeader
  import LegacyHeader = LegacyColorspaceHeader
  import opened LegacyColorspaceTables
  import opened ColorspaceAlignment
  import opened ColorspaceTranscoding
  import opened Alignments

  // ---------------------------------------------------------------------------
  // Gap patching with N
  // ---------------------------------------------------------------------------

  /**
   * Where the N fill of a gap run starting at `start` stops: the first
   * position from `start` on that is not a gap, or the last index when the
   * run reaches it.
   */
  function FillStop(s: seq<char>, start: nat): (stop: nat)
    requires start < |s|
    ensures start <= stop < |s|
    ensures forall j :: start <= j < stop ==> s[j] == '-'
    ensures stop == |s| - 1 || s[stop] != '-'
    decreases |s| - start
  {
    if s[start] != '-' || start == |s| - 1 then start else FillStop(s, start + 1)
  }

  /** The first position satisfying FillStop's description is FillStop. */
  lemma {:induction false} FillStopIs(s: seq<char>, start: nat, stop: nat)
    requires start <= stop < |s|
    requires forall j :: start <= j < stop ==> s[j] == '-'
    requires stop == |s| - 1 || s[stop] != '-'
    ensures FillStop(s, start) == stop
    decreases stop - start
  {
    if start < stop {
      FillStopIs(s, start + 1, stop);
    }
  }

  /** The string with 'N' written over the positions from `start` through `stop`. */
  function Filled(s: seq<char>, start: nat, stop: nat): (r: seq<char>)
    requires start <= stop < |s|
    ensures |r| == |s|
    ensures forall j :: 0 <= j < |s| ==> r[j] == if start <= j <= stop then 'N' else s[j]
  {
    s[..start] + seq(stop - start + 1, _ => 'N') + s[stop + 1..]
  }

  /**
   * One half-step of the legacy PatchColorspaceGaps at position i: a gap there
   * is filled with N through FillStop and the scan moves to that position;
   * anything else leaves the string and the position alone.
   */
  function FillRun(s: seq<char>, i: nat): (r: (seq<char>, nat))
    requires i < |s|
    ensures |r.0| == |s| && i <= r.1 < |s|
    ensures s[i] != '-' ==> r == (s, i)
    ensures s[i] == '-' ==> forall j :: 0 <= j < |s| ==> r.0[j] == if i <= j <= r.1 then 'N' else s[j]
  {
    if s[i] == '-' then (Filled(s, i, FillStop(s, i)), FillStop(s, i)) else (s, i)
  }

  /**
   * The pair the legacy PatchColorspaceGaps leaves when its scan is at
   * position i: the reference half-step at i, the query half-step at the
   * position that reached, then the scan from one past it.
   */
  function LegacyPatchedFrom(ref: seq<char>, qry: seq<char>, i: nat): (r: (seq<char>, seq<char>))
    requires |ref| == |qry| && i <= |ref|
    ensures |r.0| == |r.1| == |ref|
    decreases |ref| - i
  {
    if i == |ref| then (ref, qry)
    else
      var (ref1, j) := FillRun(ref, i);
      var (qry1, k) := FillRun(qry, j);
      LegacyPatchedFrom(ref1, qry1, k + 1)
  }

  /** LegacyPatchedFrom at a position inside the alignment is its two half-steps followed by the rest of the scan. */
  lemma FilledFromUnfolds(ref: seq<char>, qry: seq<char>, i: nat, ref1: seq<char>, j: nat, qry1: seq<char>, k: nat, next: nat)
    requires |ref| == |qry| && i < |ref|
    requires FillRun(ref, i).0 == ref1 && FillRun(ref, i).1 == j
    requires FillRun(qry, j).0 == qry1 && FillRun(qry, j).1 == k && next == k + 1
    ensures next <= |ref1| == |qry1|
    ensures LegacyPatchedFrom(ref, qry, i) == LegacyPatchedFrom(ref1, qry1, next)
  {
  }

  /** A scan that has passed the last position leaves the pair as it is. */
  lemma FilledToTheEnd(ref: seq<char>, qry: seq<char>)
    requires |ref| == |qry|
    ensures LegacyPatchedFrom(ref, qry, |ref|) == (ref, qry)
  {
  }

  /** A scan over an alignment without gaps changes nothing. */
  lemma {:induction false} GapFreeNotFilled(ref: seq<char>, qry: seq<char>, i: nat)
    requires |ref| == |qry| && i <= |ref|
    requires forall j :: i <= j < |ref| ==> ref[j] != '-' && qry[j] != '-'
    ensures LegacyPatchedFrom(ref, qry, i) == (ref, qry)
    decreases |ref| - i
  {
    if i < |ref| {
      GapFreeNotFilled(ref, qry, i + 1);
    }
  }

  /**
   * The reference gap "A-C" opposite "AGC" is filled through the C that ends
   * it, since the fill runs through the position that stops the scan.
   */
  lemma FillCoversClosingColour()
    ensures LegacyPatchedFrom("A-C", "AGC", 0) == ("ANN", "AGC")
  {
    assert FillStop("A-C", 1) == 2;
    assert Filled("A-C", 1, 2) == "ANN";
  }

  /** Every position that changed now holds an N. */
  ghost predicate ChangedToN(original: seq<char>, current: seq<char>)
  {
    |current| == |original| && forall j :: 0 <= j < |current| && current[j] != original[j] ==> current[j] == 'N'
  }

  /**
   * Filling a gap run through the position that ends it keeps every change
   * an N at a gap or right after one, and leaves the rest untouched.
   */
  lemma FillKeepsChangesAtRuns(original: seq<char>, before: seq<char>, start: nat, stop: nat)
    requires ChangedOnlyAtRuns(original, before) && ChangedToN(original, before) && UntouchedFrom(original, before, start)
    requires start <= stop < |before| && before[start] == '-'
    requires forall j :: start <= j < stop ==> before[j] == '-'
    ensures ChangedOnlyAtRuns(original, Filled(before, start, stop))
    ensures ChangedToN(original, Filled(before, start, stop))
    ensures UntouchedFrom(original, Filled(before, start, stop), stop + 1)
  {
    var after := Filled(before, start, stop);
    forall j | 0 <= j < |after| && after[j] != original[j]
      ensures original[j] == '-' || (0 < j && original[j - 1] == '-')
    {
      if j < start {
        assert after[j] == before[j];
      } else if j <= stop {
        assert before[j] == original[j];
        if j > start {
          assert original[j - 1] == before[j - 1];
        }
      }
    }
  }

  // ---------------------------------------------------------------------------
  // Identity and mismatch runs
  // ---------------------------------------------------------------------------

  /**
   * One step of the several-region loop of the legacy ConvertAlignmentToBasespace,
   * from identity run k to run k + 1: the mismatch run between them is decoded,
   * reference and query alike, from the genome base at its start shifted by the
   * reference gaps before it; run k is copied from the genome at its own start,
   * Length + 1 bases, and is followed by the decoded bases without the last one.
   * A pair missing from the table is fatal.
   */
  ghost function LegacyStep(bs: map<(char, char), char>, window: seq<char>, g: seq<int>, ref: seq<char>, qry: seq<char>,
                            rv: seq<Region>, k: nat): (r: Result<(seq<char>, seq<char>)>)
    requires GapsFit(window, g, |qry|) && |ref| == |qry|
    requires RegionsInside(rv, |qry|, |qry| + 1) && RegionsOrdered(rv) && k + 1 < |rv|
    ensures r.Ok? ==> |r.value.0| == |r.value.1| == rv[k + 1].Begin as nat - rv[k].Begin as nat
    ensures r.Ok? ==> r.value.0[..rv[k].Length as nat + 1] == r.value.1[..rv[k].Length as nat + 1] ==
                      window[rv[k].Begin as nat..End(rv[k]) + 1]
    ensures r.Err? <==> !Decodable(bs, window[End(rv[k]) - g[End(rv[k])]], qry[End(rv[k])..rv[k + 1].Begin]) ||
                        !Decodable(bs, window[End(rv[k]) - g[End(rv[k])]], ref[End(rv[k])..rv[k + 1].Begin])
  {
    assert End(rv[k]) < rv[k + 1].Begin as nat by { assert 0 < k + 1 < |rv|; }
    var mmBegin := End(rv[k]);
    var mmEnd := rv[k + 1].Begin as nat - 1;
    var lastBase := window[mmBegin - g[mmBegin]];
    match MismatchBases(bs, lastBase, ref[mmBegin..mmEnd + 1], qry[mmBegin..mmEnd + 1])
    case Err(f) => Err(f)
    case Ok(mm) =>
      var matched := window[rv[k].Begin as nat..mmBegin + 1];
      assert (matched + mm.0)[..|matched|] == matched && (matched + mm.1)[..|matched|] == matched;
      Ok((matched + mm.0, matched + mm.1))
  }

  /**
   * The mismatch run of a legacy step, decoded reference and query alike from
   * the same seed base, without the last base of each; a pair missing from
   * the table is fatal.
   */
  ghost function MismatchBases(bs: map<(char, char), char>, lastBase: char, csRef: seq<char>, csQry: seq<char>)
    : (r: Result<(seq<char>, seq<char>)>)
    requires 1 <= |csRef| == |csQry|
    ensures r.Err? <==> !Decodable(bs, lastBase, csQry) || !Decodable(bs, lastBase, csRef)
    ensures r.Err? ==> r.failure.Fatal?
    ensures r.Ok? ==> |r.value.0| == |r.value.1| == |csQry| - 1
    ensures r.Ok? ==> r.value.0 == Decoded(bs, lastBase, csRef)[..|csRef| - 1] && r.value.1 == Decoded(bs, lastBase, csQry)[..|csQry| - 1]
  {
    if !Decodable(bs, lastBase, csQry) || !Decodable(bs, lastBase, csRef) then
      Err(Fatal("unknown combination found when converting to basespace"))
    else
      var numMismatchBases := |csQry| - 1;
      Ok((Decoded(bs, lastBase, csRef)[..numMismatchBases], Decoded(bs, lastBase, csQry)[..numMismatchBases]))
  }

  /** The first n steps of the legacy several-region loop, in order. */
  ghost function LegacyStepBases(bs: map<(char, char), char>, window: seq<char>, g: seq<int>, ref: seq<char>, qry: seq<char>,
                                 rv: seq<Region>, n: nat): (r: Result<(seq<char>, seq<char>)>)
    requires GapsFit(window, g, |qry|) && |ref| == |qry|
    requires RegionsInside(rv, |qry|, |qry| + 1) && RegionsOrdered(rv) && n < |rv|
    ensures r.Ok? ==> |r.value.0| == |r.value.1| == rv[n].Begin as nat - rv[0].Begin as nat
    ensures r.Err? ==> r.failure.Fatal?
    decreases n
  {
    if n == 0 then Ok(([], []))
    else
      match LegacyStepBases(bs, window, g, ref, qry, rv, n - 1)
      case Err(f) => Err(f)
      case Ok(emitted) =>
        match LegacyStep(bs, window, g, ref, qry, rv, n - 1)
        case Err(f) => Err(f)
        case Ok(step) => Ok(Joined(emitted, step))
  }

  /** The several-region loop stops at the first failing step and otherwise extends what it has emitted by that step. */
  lemma LegacyStepBasesNext(bs: map<(char, char), char>, window: seq<char>, g: seq<int>, ref: seq<char>, qry: seq<char>,
                            rv: seq<Region>, n: nat)
    requires GapsFit(window, g, |qry|) && |ref| == |qry|
    requires RegionsInside(rv, |qry|, |qry| + 1) && RegionsOrdered(rv) && n + 1 < |rv|
    requires LegacyStepBases(bs, window, g, ref, qry, rv, n).Ok?
    ensures LegacyStep(bs, window, g, ref, qry, rv, n).Err? ==>
              LegacyStepBases(bs, window, g, ref, qry, rv, n + 1) == Err(LegacyStep(bs, window, g, ref, qry, rv, n).failure)
    ensures LegacyStep(bs, window, g, ref, qry, rv, n).Ok? ==>
              LegacyStepBases(bs, window, g, ref, qry, rv, n + 1) ==
                Ok(Joined(LegacyStepBases(bs, window, g, ref, qry, rv, n).value, LegacyStep(bs, window, g, ref, qry, rv, n).value))
  {
  }

  /** Once a step of the several-region loop fails, the loop's result is that failure. */
  lemma {:induction false} LegacyStepBasesFailureStays(bs: map<(char, char), char>, window: seq<char>, g: seq<int>, ref: seq<char>,
                                                       qry: seq<char>, rv: seq<Region>, n: nat, m: nat)
    requires GapsFit(window, g, |qry|) && |ref| == |qry|
    requires RegionsInside(rv, |qry|, |qry| + 1) && RegionsOrdered(rv) && n <= m < |rv|
    requires LegacyStepBases(bs, window, g, ref, qry, rv, n).Err?
    ensures LegacyStepBases(bs, window, g, ref, qry, rv, m) == LegacyStepBases(bs, window, g, ref, qry, rv, n)
    decreases m - n
  {
    if n < m {
      LegacyStepBasesFailureStays(bs, window, g, ref, qry, rv, n, m - 1);
    }
  }

  /**
   * The basespace reference and query the legacy region stage builds. With one
   * identity run both are the Length + 1 genome bases from its start; with
   * several, the steps followed by the last run, copied from its start shifted
   * by the reference gaps before it. Without any run the loop would start
   * past the end of the region vector.
   */
  ghost function LegacyConvertedBases(bs: map<(char, char), char>, window: seq<char>, g: seq<int>, ref: seq<char>, qry: seq<char>,
                                      rv: seq<Region>): (r: Result<(seq<char>, seq<char>)>)
    requires GapsFit(window, g, |qry|) && |ref| == |qry| && RegionsInside(rv, |qry|, |qry| + 1) && RegionsOrdered(rv)
    ensures r.Ok? ==> 1 <= |rv| && |r.value.0| == |r.value.1|
    ensures r.Ok? && 2 <= |rv| ==> |r.value.0| == End(rv[|rv| - 1]) - rv[0].Begin as nat + 1
    ensures |rv| == 0 <==> r.Err? && r.failure.Undefined?
  {
    if |rv| == 0 then Err(Undefined("no identity region to iterate from"))
    else if |rv| == 1 then
      var bases := window[rv[0].Begin as nat..End(rv[0]) + 1];
      Ok((bases, bases))
    else
      match LegacyStepBases(bs, window, g, ref, qry, rv, |rv| - 1)
      case Err(f) => Err(f)
      case Ok(emitted) =>
        var final := rv[|rv| - 1];
        var start := final.Begin as nat - g[final.Begin];
        var matched := window[start..start + final.Length as nat + 1];
        Ok(Joined(emitted, (matched, matched)))
  }

  /**
   * With exactly one identity run the reference becomes the Length + 1 genome
   * bases from the start of the run, whatever the pairwise strings hold, and
   * the query equals it.
   */
  lemma SingleRegionCopiesGenome(bs: map<(char, char), char>, window: seq<char>, g: seq<int>, ref: seq<char>, qry: seq<char>, rv: seq<Region>)
    requires GapsFit(window, g, |qry|) && |ref| == |qry| && RegionsInside(rv, |qry|, |qry| + 1) && RegionsOrdered(rv)
    requires |rv| == 1
    ensures LegacyConvertedBases(bs, window, g, ref, qry, rv).Ok?
    ensures var bases := LegacyConvertedBases(bs, window, g, ref, qry, rv).value;
            |bases.0| == rv[0].Length as nat + 1 && bases.1 == bases.0 &&
            forall i :: 0 <= i < |bases.0| ==> bases.0[i] == window[rv[0].Begin as nat + i]
  {
  }

  /**
   * Identity run k appears in `emitted` with its genome bases, at the offset
   * where it begins relative to the first run.
   */
  ghost predicate HoldsRun(window: seq<char>, rv: seq<Region>, emitted: seq<char>, k: nat)
    requires k < |rv|
  {
    rv[0].Begin <= rv[k].Begin && End(rv[k]) + 1 <= |window| &&
    End(rv[k]) - rv[0].Begin as nat + 1 <= |emitted| &&
    emitted[rv[k].Begin as nat - rv[0].Begin as nat..End(rv[k]) - rv[0].Begin as nat + 1] == window[rv[k].Begin as nat..End(rv[k]) + 1]
  }

  /** The first n identity runs appear in `emitted` with their genome bases. */
  ghost predicate HoldsRuns(window: seq<char>, rv: seq<Region>, emitted: seq<char>, n: nat)
    requires n <= |rv|
  {
    forall k :: 0 <= k < n ==> HoldsRun(window, rv, emitted, k)
  }

  /** Appending a step that starts with run n's genome bases, right where run n begins, extends HoldsRuns to run n. */
  lemma HoldsRunsJoin(window: seq<char>, rv: seq<Region>, emitted: seq<char>, step: seq<char>, joined: seq<char>, n: nat)
    requires n < |rv| && RegionsOrdered(rv) && End(rv[n]) + 1 <= |window|
    requires HoldsRuns(window, rv, emitted, n)
    requires rv[0].Begin <= rv[n].Begin && |emitted| == rv[n].Begin as nat - rv[0].Begin as nat
    requires rv[n].Length as nat + 1 <= |step| && step[..rv[n].Length as nat + 1] == window[rv[n].Begin as nat..End(rv[n]) + 1]
    requires joined == emitted + step
    ensures HoldsRuns(window, rv, joined, n + 1)
  {
    forall k | 0 <= k < n + 1
      ensures HoldsRun(window, rv, joined, k)
    {
      var lo := rv[k].Begin as nat - rv[0].Begin as nat;
      var hi := End(rv[k]) - rv[0].Begin as nat + 1;
      if k < n {
        assert HoldsRun(window, rv, emitted, k);
        assert joined[lo..hi] == emitted[lo..hi];
      } else {
        assert joined[lo..hi] == step[..rv[n].Length as nat + 1];
      }
    }
  }

  /** Appending step n to both emitted strings extends HoldsRuns to run n in both. */
  lemma StepHoldsRun(window: seq<char>, rv: seq<Region>, n: nat, refBefore: seq<char>, qryBefore: seq<char>,
                     refStep: seq<char>, qryStep: seq<char>, refSB: seq<char>, qrySB: seq<char>)
    requires RegionsOrdered(rv) && n + 1 < |rv| && End(rv[n]) + 1 <= |window|
    requires HoldsRuns(window, rv, refBefore, n) && HoldsRuns(window, rv, qryBefore, n)
    requires refSB == refBefore + refStep && qrySB == qryBefore + qryStep
    requires |refBefore| == |qryBefore| == rv[n].Begin as nat - rv[0].Begin as nat
    requires |refStep| == |qryStep| == rv[n + 1].Begin as nat - rv[n].Begin as nat
    requires refStep[..rv[n].Length as nat + 1] == qryStep[..rv[n].Length as nat + 1] == window[rv[n].Begin as nat..End(rv[n]) + 1]
    ensures HoldsRuns(window, rv, refSB, n + 1) && HoldsRuns(window, rv, qrySB, n + 1)
  {
    RegionsStartInOrder(rv, 0, n);
    RegionsStartInOrder(rv, n, n + 1);
    HoldsRunsJoin(window, rv, refBefore, refStep, refSB, n);
    HoldsRunsJoin(window, rv, qryBefore, qryStep, qrySB, n);
  }

  /**
   * Each step of the several-region loop starts with the genome bases of its
   * identity run: after n steps, runs 0 to n - 1 appear in both emitted
   * strings at the offsets where they begin relative to the first run.
   */
  lemma {:induction false} StepBasesHoldRuns(bs: map<(char, char), char>, window: seq<char>, g: seq<int>, ref: seq<char>, qry: seq<char>,
                                            rv: seq<Region>, n: nat, refSB: seq<char>, qrySB: seq<char>)
    requires GapsFit(window, g, |qry|) && |ref| == |qry|
    requires RegionsInside(rv, |qry|, |qry| + 1) && RegionsOrdered(rv) && n < |rv|
    requires LegacyStepBases(bs, window, g, ref, qry, rv, n) == Ok((refSB, qrySB))
    ensures HoldsRuns(window, rv, refSB, n) && HoldsRuns(window, rv, qrySB, n)
    decreases n
  {
    if n > 0 {
      var refBefore, qryBefore, refStep, qryStep := LegacyStepBasesParts(bs, window, g, ref, qry, rv, n, refSB, qrySB);
      StepBasesHoldRuns(bs, window, g, ref, qry, rv, n - 1, refBefore, qryBefore);
      StepHoldsRun(window, rv, n - 1, refBefore, qryBefore, refStep, qryStep, refSB, qrySB);
    }
  }

  /** What the several-region loop has emitted after n steps splits into the first n - 1 steps and the last. */
  lemma LegacyStepBasesParts(bs: map<(char, char), char>, window: seq<char>, g: seq<int>, ref: seq<char>, qry: seq<char>,
                             rv: seq<Region>, n: nat, refSB: seq<char>, qrySB: seq<char>)
    returns (refBefore: seq<char>, qryBefore: seq<char>, refStep: seq<char>, qryStep: seq<char>)
    requires GapsFit(window, g, |qry|) && |ref| == |qry|
    requires RegionsInside(rv, |qry|, |qry| + 1) && RegionsOrdered(rv) && 0 < n < |rv|
    requires LegacyStepBases(bs, window, g, ref, qry, rv, n) == Ok((refSB, qrySB))
    ensures LegacyStepBases(bs, window, g, ref, qry, rv, n - 1) == Ok((refBefore, qryBefore))
    ensures refSB == refBefore + refStep && qrySB == qryBefore + qryStep
    ensures End(rv[n - 1]) + 1 <= |window|
    ensures |refBefore| == |qryBefore| == rv[n - 1].Begin as nat - rv[0].Begin as nat
    ensures |refStep| == |qryStep| == rv[n].Begin as nat - rv[n - 1].Begin as nat
    ensures refStep[..rv[n - 1].Length as nat + 1] == qryStep[..rv[n - 1].Length as nat + 1] ==
            window[rv[n - 1].Begin as nat..End(rv[n - 1]) + 1]
  {
    var before := LegacyStepBases(bs, window, g, ref, qry, rv, n - 1).value;
    var step := LegacyStep(bs, window, g, ref, qry, rv, n - 1).value;
    refBefore, qryBefore, refStep, qryStep := before.0, before.1, step.0, step.1;
  }

  /** Regions that are ordered start in the order of their indices, each run ending before the next starts. */
  lemma {:induction false} RegionsStartInOrder(rv: seq<Region>, j: nat, k: nat)
    requires RegionsOrdered(rv) && j <= k < |rv|
    ensures rv[j].Begin <= rv[k].Begin
    ensures j < k ==> End(rv[j]) <= rv[k].Begin as nat
    decreases k - j
  {
    if j < k {
      RegionsStartInOrder(rv, j, k - 1);
      assert End(rv[k - 1]) < rv[k].Begin as nat;
    }
  }

  // ---------------------------------------------------------------------------
  // Mismatches and the finished alignment
  // ---------------------------------------------------------------------------

  /** The mismatch count of the legacy utilities: the positions whose reference and query bytes differ. */
  function ByteMismatches(reference: seq<char>, query: seq<char>): (n: nat)
    requires |reference| <= |query|
    ensures n <= |reference|
    ensures n == 0 <==> forall i :: 0 <= i < |reference| ==> reference[i] == query[i]
  {
    if |reference| == 0 then 0
    else
      var last := |reference| - 1;
      ByteMismatches(reference[..last], query) + (if reference[last] != query[last] then 1 else 0)
  }

  /**
   * The alignment the legacy ConvertAlignmentToBasespace leaves once its
   * basespace reference and query are built: the byte mismatch count over
   * them, one quality per base, and the advanced ends. Without a colour
   * quality the remapping reads outside the quality string.
   */
  function LegacyFinished(al: Alignment, bsReference: seq<char>, bsQuery: seq<char>): (r: Result<Alignment>)
    requires |bsReference| == |bsQuery| < U16_LIMIT && |al.BaseQualities| < U16_LIMIT
    ensures r.Ok? <==> 1 <= |al.BaseQualities|
    ensures r.Ok? ==> r.value.Reference == bsReference && r.value.Query == bsQuery
    ensures r.Ok? ==> r.value.NumMismatches as nat <= |bsReference|
    ensures r.Ok? ==> |r.value.BaseQualities| == |al.BaseQualities| + 1
    ensures r.Ok? ==> r.value.QueryEnd as int == (al.QueryEnd as int + 1) % U16_LIMIT
  {
    if |al.BaseQualities| == 0 then Err(Undefined("no colour quality to remap"))
    else
      var numMismatches: u16 := ByteMismatches(bsReference, bsQuery);
      Ok(EndsAdvanced(al).(Reference := bsReference, Query := bsQuery,
                           NumMismatches := numMismatches, BaseQualities := RemappedQualities(al.BaseQualities)))
  }

  /** A colorspace alignment that matches the genome exactly, with no gaps. */
  ghost predicate ExactLegacyAlignment(al: Alignment, window: seq<char>)
  {
    al.Reference == al.Query && 1 <= |al.Reference| < |window| &&
    forall i :: 0 <= i < |al.Reference| ==> al.Reference[i] != '-'
  }

  /**
   * A gapless colorspace alignment that matches the genome exactly converts
   * to the genome bases it covers, one more than its colours, reference and
   * query alike.
   */
  lemma ExactLegacyAlignmentConverts(bs: map<(char, char), char>, al: Alignment, window: seq<char>, g: seq<int>, rv: seq<Region>)
    requires ExactLegacyAlignment(al, window)
    requires GapsFit(window, g, |al.Query|)
    requires IdentityRegions(al.Reference, al.Query, rv)
    ensures LegacyConvertedBases(bs, window, g, al.Reference, al.Query, rv) ==
              Ok((window[..|al.Reference| + 1], window[..|al.Reference| + 1]))
  {
    OneRegionWhenIdentical(al.Reference, al.Query, rv);
  }

  // ---------------------------------------------------------------------------
  // The utilities object
  // ---------------------------------------------------------------------------

  /**
   * The legacy utilities: the two tables, which it only ever searches, and
   * the observed-gap counts.
   */
  class LegacyColorspaceUtilities {
    const basespace: map<(char, char), char>
    const colorspace: map<(char, char), char>
    const gaps: ObservedGaps

    ghost predicate Valid()
      reads gaps
    {
      gaps.Valid()
    }

    /** The observed-gap counts fit an alignment of `length` positions over `window`. */
    ghost predicate GapsReady(window: seq<char>, length: nat)
      reads gaps, gaps.counts
    {
      GapsFit(window, gaps.counts[..], length)
    }

    /** The constructor fills both tables and starts with no gap-count array. */
    constructor()
      ensures Valid() && fresh(gaps) && gaps.capacity == 0
      ensures basespace == InitialBasespaceMap() && colorspace == InitialColorspaceMap()
    {
      basespace := InitialBasespaceMap();
      colorspace := InitialColorspaceMap();
      gaps := new ObservedGaps();
    }

    /**
     * ConvertColorspaceToBasespace: the bases of a colour string walked from a
     * seed base through the basespace table; a missing pair is fatal. Only
     * the first |colours| mod 2^16 colours are decoded, as the length is an
     * unsigned short.
     */
    method ConvertColorspaceToBasespace(seed: char, colours: seq<char>) returns (r: Result<seq<char>>)
      ensures var decoded := colours[..Truncate(|colours|, U16_LIMIT)];
              && (r.Ok? <==> Decodable(basespace, seed, decoded))
              && (r.Ok? ==> r.value == Decoded(basespace, seed, decoded))
      ensures r.Err? ==> r.failure.Fatal?
      ensures |colours| == U16_LIMIT ==> r == Ok([])
    {
      r := ColorspaceTranscoding.ConvertColorspaceToBasespace(basespace, seed, colours);
    }

    /**
     * ConvertReadBasespaceToPseudoColorspace: the colours of the transitions
     * between the read's simplified bases, N standing for X, through the
     * colorspace table; a missing pair is fatal.
     */
    method ConvertReadBasespaceToPseudoColorspace(read: array<char>) returns (r: Result<nat>)
      modifies read
      ensures read.Length == 0 ==> r.Err? && r.failure.Undefined?
      ensures read.Length > 0 ==> (r.Ok? <==> Encodable(colorspace, LegacyHeader.GetSimplifiedBase, old(read[..])))
      ensures r.Ok? ==> r.value == read.Length - 1 &&
                        read[..r.value] == Encoded(colorspace, LegacyHeader.GetSimplifiedBase, old(read[..]))
    {
      r := ColorspaceTranscoding.ConvertReadBasespaceToPseudoColorspace(read, colorspace, LegacyHeader.GetSimplifiedBase);
    }

    /**
     * FillGapRun: memset of 'N' from a gap at `start` through the position
     * that ends its run, or through the last index when the run reaches it;
     * returns that position.
     */
    method FillGapRun(s: array<char>, start: nat) returns (stop: nat)
      requires start < s.Length && s[start] == '-'
      modifies s
      ensures stop == FillStop(old(s[..]), start)
      ensures s[..] == Filled(old(s[..]), start, stop)
    {
      var lastIndex := s.Length - 1;
      var index := start;
      while s[index] == '-' && index < lastIndex
        invariant start <= index <= lastIndex
        invariant forall j :: start <= j < index ==> s[j] == '-'
        decreases lastIndex - index
      {
        index := index + 1;
      }
      FillStopIs(s[..], start, index);
      ghost var before := s[..];
      var j := start;
      while j <= index
        invariant start <= j <= index + 1
        invariant forall p :: 0 <= p < s.Length ==> s[p] == if start <= p < j then 'N' else before[p]
      {
        s[j] := 'N';
        j := j + 1;
      }
      stop := index;
      assert s[..] == Filled(before, start, stop);
    }

    /**
     * PatchColorspaceGaps of the legacy utilities: at each position it visits,
     * a reference gap run and then a query gap run are filled with N through
     * the position that ends them, and the scan resumes after the last
     * position filled.
     */
    method PatchColorspaceGaps(reference: array<char>, query: array<char>)
      requires reference != query && reference.Length == query.Length < U16_LIMIT
      modifies reference, query
      ensures PatchedAlignment(old(reference[..]), old(query[..]), reference[..], query[..])
      ensures ChangedToN(old(reference[..]), reference[..]) && ChangedToN(old(query[..]), query[..])
      ensures (reference[..], query[..]) == LegacyPatchedFrom(old(reference[..]), old(query[..]), 0)
    {
      ghost var R0 := reference[..];
      ghost var Q0 := query[..];
      ghost var patched := LegacyPatchedFrom(R0, Q0, 0);
      var pairwiseLen := reference.Length;
      var i := 0;
      while i < pairwiseLen
        invariant 0 <= i <= pairwiseLen
        invariant UntouchedFrom(R0, reference[..], i) && UntouchedFrom(Q0, query[..], i)
        invariant ReferenceGapsJustified(R0, Q0, reference[..], i)
        invariant QueryGapsJustified(R0, Q0, query[..], i)
        invariant ChangedOnlyAtRuns(R0, reference[..]) && ChangedOnlyAtRuns(Q0, query[..])
        invariant ChangedToN(R0, reference[..]) && ChangedToN(Q0, query[..])
        invariant LegacyPatchedFrom(reference[..], query[..], i) == patched
      {
        ghost var ref0, qry0, i0 := reference[..], query[..], i;
        i := PatchReferenceRun(reference, query, i, R0, Q0);
        ghost var ref1, j := reference[..], i;
        i := PatchQueryRun(reference, query, i, R0, Q0);
        ghost var k := i;
        i := i + 1;
        FilledFromUnfolds(ref0, qry0, i0, ref1, j, query[..], k, i);
      }
      FilledToTheEnd(reference[..], query[..]);
    }

    /** The reference half of one step of PatchColorspaceGaps, at position i. */
    method PatchReferenceRun(reference: array<char>, query: array<char>, i: nat, ghost R0: seq<char>, ghost Q0: seq<char>)
      returns (next: nat)
      requires reference != query && reference.Length == query.Length == |R0| == |Q0| && i < reference.Length
      requires UntouchedFrom(R0, reference[..], i) && UntouchedFrom(Q0, query[..], i)
      requires ReferenceGapsJustified(R0, Q0, reference[..], i) && QueryGapsJustified(R0, Q0, query[..], i)
      requires ChangedOnlyAtRuns(R0, reference[..]) && ChangedToN(R0, reference[..])
      modifies reference
      ensures i <= next < reference.Length
      ensures UntouchedFrom(R0, reference[..], next + 1) && UntouchedFrom(Q0, query[..], next)
      ensures ReferenceGapsJustified(R0, Q0, reference[..], next + 1) && QueryGapsJustified(R0, Q0, query[..], next)
      ensures ChangedOnlyAtRuns(R0, reference[..]) && ChangedToN(R0, reference[..])
      ensures reference[..] == FillRun(old(reference[..]), i).0 && next == FillRun(old(reference[..]), i).1
    {
      if reference[i] == '-' {
        ghost var before := reference[..];
        next := FillGapRun(reference, i);
        FillKeepsChangesAtRuns(R0, before, i, next);
        ReferenceGapsExtend(R0, Q0, before, reference[..], i, next);
        QueryGapsOppositeReferenceRun(R0, Q0, query[..], i, next);
      } else {
        next := i;
        ReferenceGapsExtend(R0, Q0, reference[..], reference[..], i, i);
      }
    }

    /** The query half of one step of PatchColorspaceGaps, at the position the reference half reached. */
    method PatchQueryRun(reference: array<char>, query: array<char>, i: nat, ghost R0: seq<char>, ghost Q0: seq<char>)
      returns (last: nat)
      requires reference != query && reference.Length == query.Length == |R0| == |Q0| && i < reference.Length
      requires UntouchedFrom(R0, reference[..], i + 1) && UntouchedFrom(Q0, query[..], i)
      requires ReferenceGapsJustified(R0, Q0, reference[..], i + 1) && QueryGapsJustified(R0, Q0, query[..], i)
      requires ChangedOnlyAtRuns(Q0, query[..]) && ChangedToN(Q0, query[..])
      modifies query
      ensures i <= last < query.Length
      ensures UntouchedFrom(R0, reference[..], last + 1) && UntouchedFrom(Q0, query[..], last + 1)
      ensures ReferenceGapsJustified(R0, Q0, reference[..], last + 1) && QueryGapsJustified(R0, Q0, query[..], last + 1)
      ensures ChangedOnlyAtRuns(Q0, query[..]) && ChangedToN(Q0, query[..])
      ensures query[..] == FillRun(old(query[..]), i).0 && last == FillRun(old(query[..]), i).1
    {
      if query[i] == '-' {
        ghost var before := query[..];
        last := FillGapRun(query, i);
        FillKeepsChangesAtRuns(Q0, before, i, last);
        QueryGapsExtend(R0, Q0, before, query[..], i, last);
        if i < last {
          ReferenceGapsOppositeQueryRun(R0, Q0, reference[..], before, i, last);
        }
      } else {
        last := i;
        QueryGapsExtend(R0, Q0, query[..], query[..], i, i);
      }
    }

    /**
     * One iteration of the legacy several-region loop: decodes the mismatch
     * run after identity run k and emits run k followed by it.
     */
    method GetStep(window: seq<char>, ref: seq<char>, qry: seq<char>, rv: seq<Region>, k: nat)
      returns (r: Result<(seq<char>, seq<char>)>)
      requires GapsReady(window, |qry|) && |ref| == |qry| < U16_LIMIT
      requires RegionsInside(rv, |qry|, |qry| + 1) && RegionsOrdered(rv) && k + 1 < |rv|
      ensures r == LegacyStep(basespace, window, gaps.counts[..], ref, qry, rv, k)
    {
      var previous := rv[k];
      var current := rv[k + 1];
      assert End(previous) < current.Begin as nat by { assert 0 < k + 1 < |rv|; }
      var mmBegin := End(previous);
      var mmEnd := current.Begin as nat - 1;
      var csRef := ref[mmBegin..mmEnd + 1];
      var csQry := qry[mmBegin..mmEnd + 1];
      var lastBase := window[mmBegin - gaps.counts[mmBegin] as nat];
      var mismatched := DecodeMismatchRun(lastBase, csRef, csQry);
      if mismatched.Err? {
        return Err(mismatched.failure);
      }
      var (bsRefMismatchBases, bsQryMismatchBases) := mismatched.value;
      var matchRegion := window[previous.Begin as nat..mmBegin + 1];
      if |bsQryMismatchBases| == 0 {
        assert matchRegion + bsRefMismatchBases == matchRegion && matchRegion + bsQryMismatchBases == matchRegion;
        return Ok((matchRegion, matchRegion));
      }
      return Ok((matchRegion + bsRefMismatchBases, matchRegion + bsQryMismatchBases));
    }

    /** The mismatch run of a step, decoded reference and query alike from the same seed, without the last base of each. */
    method DecodeMismatchRun(lastBase: char, csRef: seq<char>, csQry: seq<char>) returns (r: Result<(seq<char>, seq<char>)>)
      requires 1 <= |csRef| == |csQry| < U16_LIMIT
      ensures r == MismatchBases(basespace, lastBase, csRef, csQry)
    {
      ShortColoursDecodedWhole(csQry);
      ShortColoursDecodedWhole(csRef);
      var bsQry := ConvertColorspaceToBasespace(lastBase, csQry);
      if bsQry.Err? {
        return Err(Fatal("unknown combination found when converting to basespace"));
      }
      var bsRef := ConvertColorspaceToBasespace(lastBase, csRef);
      if bsRef.Err? {
        return Err(Fatal("unknown combination found when converting to basespace"));
      }
      var numMismatchBases := |bsQry.value| - 1;
      return Ok((bsRef.value[..numMismatchBases], bsQry.value[..numMismatchBases]));
    }

    /** The loop of the legacy several-region branch: one step per identity run but the last, stopping at the first failure. */
    method ConvertSteps(window: seq<char>, ref: seq<char>, qry: seq<char>, rv: seq<Region>)
      returns (r: Result<(seq<char>, seq<char>)>)
      requires GapsReady(window, |qry|) && |ref| == |qry| < U16_LIMIT
      requires RegionsInside(rv, |qry|, |qry| + 1) && RegionsOrdered(rv) && 2 <= |rv|
      ensures r == LegacyStepBases(basespace, window, gaps.counts[..], ref, qry, rv, |rv| - 1)
    {
      var refSB: seq<char> := [];
      var qrySB: seq<char> := [];
      var n := 0;
      while n < |rv| - 1
        invariant 0 <= n <= |rv| - 1
        invariant LegacyStepBases(basespace, window, gaps.counts[..], ref, qry, rv, n) == Ok((refSB, qrySB))
      {
        var step := GetStep(window, ref, qry, rv, n);
        LegacyStepBasesNext(basespace, window, gaps.counts[..], ref, qry, rv, n);
        if step.Err? {
          LegacyStepBasesFailureStays(basespace, window, gaps.counts[..], ref, qry, rv, n + 1, |rv| - 1);
          return Err(step.failure);
        }
        refSB := refSB + step.value.0;
        qrySB := qrySB + step.value.1;
        n := n + 1;
      }
      return Ok((refSB, qrySB));
    }

    /** The region stage of the legacy ConvertAlignmentToBasespace once the identity runs are known. */
    method ConvertIdentityRegions(window: seq<char>, ref: seq<char>, qry: seq<char>, rv: seq<Region>)
      returns (r: Result<(seq<char>, seq<char>)>)
      requires GapsReady(window, |qry|) && |ref| == |qry| < U16_LIMIT
      requires RegionsInside(rv, |qry|, |qry| + 1) && RegionsOrdered(rv)
      ensures r == LegacyConvertedBases(basespace, window, gaps.counts[..], ref, qry, rv)
    {
      if |rv| == 0 {
        return Err(Undefined("no identity region to iterate from"));
      }
      if |rv| == 1 {
        var bases := window[rv[0].Begin as nat..End(rv[0]) + 1];
        return Ok((bases, bases));
      }
      var steps := ConvertSteps(window, ref, qry, rv);
      if steps.Err? {
        return Err(steps.failure);
      }
      var final := rv[|rv| - 1];
      var start := final.Begin as nat - gaps.counts[final.Begin] as nat;
      var matchRegion := window[start..start + final.Length as nat + 1];
      return Ok(Joined(steps.value, (matchRegion, matchRegion)));
    }

    /** The byte mismatch count of the legacy ConvertAlignmentToBasespace. */
    method CountMismatches(reference: seq<char>, query: seq<char>) returns (numMismatches: u16)
      requires |reference| == |query| < U16_LIMIT
      ensures numMismatches as int == ByteMismatches(reference, query)
    {
      numMismatches := 0;
      var i := 0;
      while i < |reference|
        invariant 0 <= i <= |reference|
        invariant numMismatches as int == ByteMismatches(reference[..i], query)
      {
        assert reference[..i + 1][..i] == reference[..i];
        if reference[i] != query[i] {
          numMismatches := numMismatches + 1;
        }
        i := i + 1;
      }
      assert reference[..i] == reference;
    }

    /** The mismatch count, the quality remapping and the end coordinates of the legacy conversion. */
    method FinishAlignment(al: Alignment, bsReference: seq<char>, bsQuery: seq<char>) returns (r: Result<Alignment>)
      requires |bsReference| == |bsQuery| < U16_LIMIT && |al.BaseQualities| < U16_LIMIT
      ensures r == LegacyFinished(al, bsReference, bsQuery)
    {
      var numMismatches := CountMismatches(bsReference, bsQuery);
      if |al.BaseQualities| == 0 {
        return Err(Undefined("no colour quality to remap"));
      }
      var bsQualities := RemapQualities(al.BaseQualities);
      var referenceEnd := (al.ReferenceEnd as int + 1) % U32_LIMIT;
      var queryEnd := (al.QueryEnd as int + 1) % U16_LIMIT;
      var queryLength := (queryEnd - al.QueryBegin as int + 1) % U16_LIMIT;
      EndsAdvancedFields(al, referenceEnd, queryEnd, queryLength);
      var ended := al.(ReferenceEnd := referenceEnd, QueryEnd := queryEnd, QueryLength := queryLength);
      r := Ok(ended.(Reference := bsReference, Query := bsQuery, NumMismatches := numMismatches,
                     BaseQualities := bsQualities[..]));
    }

    /**
     * The legacy ConvertAlignmentToBasespace: records the reference gaps, fills
     * the gap runs with N when any position is gapped, rebuilds the basespace
     * reference and query from the identity regions of the patched alignment,
     * counts their byte mismatches, remaps the qualities to bases and moves
     * both ends one base on. The patched strings and the regions are returned
     * as ghosts so that the result can be stated against them.
     */
    method ConvertAlignmentToBasespace(al: Alignment, references: seq<seq<char>>)
      returns (r: Result<Alignment>, ghost patchedRef: seq<char>, ghost patchedQry: seq<char>, ghost rv: seq<Region>)
      requires Valid()
      requires al.ReferenceIndex as nat < |references| && |al.Query| == |al.Reference|
      requires |al.Reference| + ARRAY_EXTENSION < U16_LIMIT && |al.BaseQualities| < U16_LIMIT
      requires al.ReferenceBegin as nat + |al.Reference| < |references[al.ReferenceIndex]|
      modifies gaps, gaps.counts
      ensures Valid()
      ensures gaps.counts.Length >= |al.Reference|
      ensures forall i :: 0 <= i < |al.Reference| ==> gaps.counts[i] as int == GapCount(al.Reference[..i])
      ensures !HasGap(al.Reference, al.Query) ==> patchedRef == al.Reference && patchedQry == al.Query
      ensures PatchedAlignment(al.Reference, al.Query, patchedRef, patchedQry)
      ensures ChangedToN(al.Reference, patchedRef) && ChangedToN(al.Query, patchedQry)
      ensures (patchedRef, patchedQry) == LegacyPatchedFrom(al.Reference, al.Query, 0)
      ensures IdentityRegions(patchedRef, patchedQry, rv)
      ensures GapsFit(GenomeWindow(al, references), gaps.counts[..], |patchedQry|)
      ensures r.Ok? ==> LegacyConvertedBases(basespace, GenomeWindow(al, references), gaps.counts[..], patchedRef, patchedQry, rv) ==
                          Ok((r.value.Reference, r.value.Query))
      ensures r.Ok? ==> r == LegacyFinished(al, r.value.Reference, r.value.Query)
      ensures |al.BaseQualities| == 0 ==> r.Err?
      ensures ExactLegacyAlignment(al, GenomeWindow(al, references)) && 1 <= |al.BaseQualities| ==>
                r.Ok? && r.value.Reference == r.value.Query == GenomeWindow(al, references)[..|al.Reference| + 1] &&
                r.value.NumMismatches == 0
    {
      var window := GenomeWindow(al, references);
      ghost var exact := ExactLegacyAlignment(al, window);
      if exact {
        assert !HasGap(al.Reference, al.Query);
      }
      var reference, query := PatchAlignment(window, al.Reference, al.Query);
      patchedRef, patchedQry := reference, query;
      var bases;
      bases, rv := ConvertRegions(window, reference, query);
      if exact {
        ExactLegacyAlignmentConverts(basespace, al, window, gaps.counts[..], rv);
      }
      if bases.Err? {
        return Err(bases.failure), patchedRef, patchedQry, rv;
      }
      r := FinishAlignment(al, bases.value.0, bases.value.1);
    }

    /**
     * The gap stage of the legacy ConvertAlignmentToBasespace: UpdateObservedGaps
     * over the pairwise strings, then PatchColorspaceGaps on copies of them when
     * some position is gapped.
     */
    method PatchAlignment(window: seq<char>, alRef: seq<char>, alQry: seq<char>) returns (reference: seq<char>, query: seq<char>)
      requires Valid() && |alRef| == |alQry| && |alRef| + ARRAY_EXTENSION < U16_LIMIT && |alRef| < |window|
      modifies gaps, gaps.counts
      ensures Valid()
      ensures gaps.counts.Length >= |alRef|
      ensures forall i :: 0 <= i < |alRef| ==> gaps.counts[i] as int == GapCount(alRef[..i])
      ensures GapsReady(window, |alRef|)
      ensures !HasGap(alRef, alQry) ==> reference == alRef && query == alQry
      ensures PatchedAlignment(alRef, alQry, reference, query)
      ensures ChangedToN(alRef, reference) && ChangedToN(alQry, query)
      ensures (reference, query) == LegacyPatchedFrom(alRef, alQry, 0)
    {
      var pairwiseLen := |alRef|;
      var refChars := new char[pairwiseLen](i requires 0 <= i < pairwiseLen => alRef[i]);
      var qryChars := new char[pairwiseLen](i requires 0 <= i < pairwiseLen => alQry[i]);
      assert refChars[..] == alRef && qryChars[..] == alQry;
      var hasGaps := gaps.Update(refChars[..], qryChars[..]);
      assert GapsReady(window, pairwiseLen);
      if !hasGaps {
        NothingToPatch(alRef, alQry);
        GapFreeNotFilled(alRef, alQry, 0);
        return alRef, alQry;
      }
      PatchColorspaceGaps(refChars, qryChars);
      return refChars[..], qryChars[..];
    }

    /**
     * The region stage of the legacy ConvertAlignmentToBasespace: finds the
     * identity regions of the patched alignment and rebuilds the basespace
     * reference and query from them.
     */
    method ConvertRegions(window: seq<char>, ref: seq<char>, qry: seq<char>)
      returns (r: Result<(seq<char>, seq<char>)>, ghost rv: seq<Region>)
      requires GapsReady(window, |qry|) && |ref| == |qry| < U16_LIMIT - 1
      ensures IdentityRegions(ref, qry, rv)
      ensures r == LegacyConvertedBases(basespace, window, gaps.counts[..], ref, qry, rv)
    {
      var regions := FindIdenticalRegions(ref, qry);
      rv := regions;
      r := ConvertIdentityRegions(window, ref, qry, regions);
    }
  }
}
