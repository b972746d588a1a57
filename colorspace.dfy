/**
 * CColorspaceUtilities, the main colorspace utilities: converts a colorspace
 * pairwise alignment into basespace by patching gap runs with colour
 * transitions, splitting the alignment into identity runs and rebuilding
 * each run from the genome and the seed-and-transition tables. The genome
 * sequence from the alignment's reference begin is passed in as `window`.
 */
module Colorspace {
  import opened Outcome
  import opened Bytes
  import opened ColorspaceHeader
  import opened ColorspaceTables
  import opened ColorspaceAlignment
  import opened ColorspaceTranscoding
  import opened ColorspaceDerivation
  import opened Alignments
  import opened ColorspaceFinish

  // ---------------------------------------------------------------------------
  // Reference definitions of the conversion stages
  // ---------------------------------------------------------------------------

  /** Some genome base at a position from `first` to `last` (not gap-shifted) is not canonical. */
  predicate HasNonCanonical(window: seq<char>, first: nat, last: nat)
    requires last < |window|
  {
    exists p :: first <= p <= last && !IsCanonicalBase(window[p])
  }

  /**
   * GetMatchRegion: the genome bases of an identity run, one more than its
   * length, taken from the gap-shifted start; the query equals them unless the
   * genome holds a non-canonical base there, in which case it is decoded from
   * the derived seed through the query colours.
   */
  function MatchRegion(table: map<(char, char), char>, window: seq<char>, g: seq<int>, qry: seq<char>, first: nat, last: nat)
    : (r: Result<(seq<char>, seq<char>)>)
    requires GapsFit(window, g, |qry|) && first <= last < |qry|
    ensures r.Ok? ==> |r.value.0| == |r.value.1| == last - first + 2
    ensures r.Ok? ==> r.value.0 == window[first - g[first]..last - g[first] + 2]
    ensures r.Ok? && !HasNonCanonical(window, first, last) ==> r.value.1 == r.value.0
    ensures r.Err? <==> HasNonCanonical(window, first, last) && DerivedBase(table, window, g, qry, first).Err?
  {
    var start := first - g[first];
    var reference := window[start..start + (last - first + 1) + 1];
    if !HasNonCanonical(window, first, last) then Ok((reference, reference))
    else match DerivedBase(table, window, g, qry, first)
      case Err(f) => Err(f)
      case Ok(seed) => Ok((reference, [seed] + Transcribed(table, seed, qry[first..last + 1])))
  }

  /** The seed the query side of a mismatch region decodes from. */
  function QuerySeed(table: map<(char, char), char>, window: seq<char>, g: seq<int>, qry: seq<char>, first: nat, seed: char)
    : Result<char>
    requires GapsFit(window, g, |qry|)
  {
    if first == 0 && !IsCanonicalBase(seed) then BeginQueryBase(table, window, g, qry) else Ok(seed)
  }

  /**
   * GetMismatchRegion: reference and query colours of the run decoded from the
   * derived base at its start (the query from the derived first query base when
   * the run starts the alignment on a non-canonical genome base), with that
   * seed prepended when the run starts the alignment, and the last base
   * dropped unless the run ends the alignment.
   */
  function MismatchRegion(table: map<(char, char), char>, window: seq<char>, g: seq<int>, ref: seq<char>, qry: seq<char>,
                          first: nat, last: nat, isLast: bool): (r: Result<(seq<char>, seq<char>)>)
    requires GapsFit(window, g, |qry|) && |ref| == |qry| && first <= last < |qry|
    ensures r.Ok? ==> |r.value.0| == |r.value.1| == (last - first + 1) + (if first == 0 then 1 else 0) - (if isLast then 0 else 1)
  {
    match DerivedBase(table, window, g, qry, first)
    case Err(f) => Err(f)
    case Ok(seed) =>
      match QuerySeed(table, window, g, qry, first, seed)
      case Err(f) => Err(f)
      case Ok(querySeed) => Ok(MismatchBases(table, seed, querySeed, ref, qry, first, last, isLast))
  }

  /** The bases of a mismatch run once its reference and query seeds are known. */
  function MismatchBases(table: map<(char, char), char>, seed: char, querySeed: char, ref: seq<char>, qry: seq<char>,
                         first: nat, last: nat, isLast: bool): (bases: (seq<char>, seq<char>))
    requires |ref| == |qry| && first <= last < |qry|
    ensures |bases.0| == |bases.1| == (last - first + 1) + (if first == 0 then 1 else 0) - (if isLast then 0 else 1)
  {
    var bsRef := (if first == 0 then [seed] else []) + Transcribed(table, seed, ref[first..last + 1]);
    var bsQry := (if first == 0 then [querySeed] else []) + Transcribed(table, querySeed, qry[first..last + 1]);
    if isLast then (bsRef, bsQry) else (bsRef[..|bsQry| - 1], bsQry[..|bsQry| - 1])
  }

  /** Every table lookup a mismatch region makes finds its pair in the basespace table `bs`. */
  ghost predicate MismatchRegionDecodes(bs: map<(char, char), char>, window: seq<char>, g: seq<int>, ref: seq<char>, qry: seq<char>,
                                        first: nat, last: nat)
    requires GapsFit(window, g, |qry|) && |ref| == |qry| && first <= last < |qry|
  {
    var seed := DerivedBase(bs, window, g, qry, first);
    seed.Ok? && Decodable(bs, seed.value, ref[first..last + 1]) &&
    var querySeed := QuerySeed(bs, window, g, qry, first, seed.value);
    querySeed.Ok? && Decodable(bs, querySeed.value, qry[first..last + 1])
  }

  /** An ambiguity set in which every canonical base matches itself. */
  ghost predicate MatchesItself(ambiguity: set<(char, char)>)
  {
    forall b :: IsCanonicalBase(b) ==> SortedPair(b, b) in ambiguity
  }

  /** In the initial ambiguity set every canonical base matches itself. */
  lemma InitialAmbiguityMatchesItself()
    ensures MatchesItself(InitialAmbiguitySet())
  {
    forall b | IsCanonicalBase(b)
      ensures SortedPair(b, b) in InitialAmbiguitySet()
    {
      AmbiguitySetMeaning(b, b);
    }
  }

  /** Canonical bases read against themselves are never a mismatch. */
  lemma {:induction false} IdenticalBasesDoNotMismatch(ambiguity: set<(char, char)>, bases: seq<char>)
    requires MatchesItself(ambiguity)
    requires forall i :: 0 <= i < |bases| ==> IsCanonicalBase(bases[i])
    ensures AmbiguityMismatches(ambiguity, bases, bases) == 0
  {
    forall i | 0 <= i < |bases|
      ensures SortedPair(bases[i], bases[i]) in ambiguity
    {
    }
  }

  /** A colorspace alignment that matches the genome exactly, with no gaps and canonical genome bases. */
  ghost predicate ExactColorspaceAlignment(al: Alignment, window: seq<char>)
  {
    al.Reference == al.Query && 1 <= |al.Reference| < |window| &&
    (forall i :: 0 <= i < |al.Reference| ==> al.Reference[i] != '-') &&
    (forall i :: 0 <= i <= |al.Reference| ==> IsCanonicalBase(window[i]))
  }

  /** Every table lookup a match region makes finds its pair in the initial basespace table. */
  ghost predicate MatchRegionDecodes(bs: map<(char, char), char>, window: seq<char>, g: seq<int>, qry: seq<char>, first: nat, last: nat)
    requires GapsFit(window, g, |qry|) && first <= last < |qry|
  {
    var seed := DerivedBase(bs, window, g, qry, first);
    !HasNonCanonical(window, first, last) ||
    (seed.Ok? && Decodable(bs, seed.value, qry[first..last + 1]))
  }

  /** The mismatch run before the lone identity run starting at `first`, seeded at the start of the alignment. */
  function LeftFlank(bs: map<(char, char), char>, window: seq<char>, g: seq<int>, ref: seq<char>, qry: seq<char>, first: nat): (r: Result<(seq<char>, seq<char>)>)
    requires GapsFit(window, g, |qry|) && |ref| == |qry| && first < |qry|
    ensures r.Ok? ==> |r.value.0| == |r.value.1| == first
  {
    if 0 < first then MismatchRegion(bs, window, g, ref, qry, 0, first - 1, false) else Ok(([], []))
  }

  /** The mismatch run after the lone identity run ending at `last`, which ends the alignment. */
  function RightFlank(bs: map<(char, char), char>, window: seq<char>, g: seq<int>, ref: seq<char>, qry: seq<char>, last: nat): (r: Result<(seq<char>, seq<char>)>)
    requires GapsFit(window, g, |qry|) && |ref| == |qry| && last < |qry|
    ensures r.Ok? ==> |r.value.0| == |r.value.1| == |qry| - 1 - last
  {
    if last < |qry| - 1 then MismatchRegion(bs, window, g, ref, qry, last + 1, |qry| - 1, true) else Ok(([], []))
  }

  /**
   * The one-region case of ConvertAlignmentToBasespace: the mismatch run
   * before the identity run, the identity run, and the mismatch run after it,
   * each flank present only when non-empty.
   */
  function SingleRegionBases(bs: map<(char, char), char>, window: seq<char>, g: seq<int>, ref: seq<char>, qry: seq<char>, region: Region)
    : (r: Result<(seq<char>, seq<char>)>)
    requires GapsFit(window, g, |qry|) && |ref| == |qry| && 1 <= region.Length && End(region) <= |qry|
    ensures r.Ok? ==> |r.value.0| == |r.value.1| == |qry| + 1
  {
    var first := region.Begin as nat;
    var last := End(region) - 1;
    Assembled(MatchRegion(bs, window, g, qry, first, last), LeftFlank(bs, window, g, ref, qry, first),
              RightFlank(bs, window, g, ref, qry, last))
  }

  /** The left flank, the matched bases and the right flank, joined in that order; the first failure otherwise. */
  function Assembled(matched: Result<(seq<char>, seq<char>)>, left: Result<(seq<char>, seq<char>)>, right: Result<(seq<char>, seq<char>)>)
    : Result<(seq<char>, seq<char>)>
  {
    match matched
    case Err(f) => Err(f)
    case Ok(m) =>
      match left
      case Err(f) => Err(f)
      case Ok(l) =>
        match right
        case Err(f) => Err(f)
        case Ok(r) => Ok(Joined(Joined(l, m), r))
  }

  /** A single identity run whose pieces all convert is its left flank, its own bases and its right flank. */
  lemma SingleRegionIs(bs: map<(char, char), char>, window: seq<char>, g: seq<int>, ref: seq<char>, qry: seq<char>, region: Region,
                       matched: (seq<char>, seq<char>), left: (seq<char>, seq<char>), right: (seq<char>, seq<char>))
    requires GapsFit(window, g, |qry|) && |ref| == |qry| && 1 <= region.Length && End(region) <= |qry|
    requires MatchRegion(bs, window, g, qry, region.Begin as nat, End(region) - 1) == Ok(matched)
    requires LeftFlank(bs, window, g, ref, qry, region.Begin as nat) == Ok(left)
    requires RightFlank(bs, window, g, ref, qry, End(region) - 1) == Ok(right)
    ensures SingleRegionBases(bs, window, g, ref, qry, region) == Ok(Joined(Joined(left, matched), right))
  {
  }

  /**
   * The first n steps of the several-region loop of ConvertAlignmentToBasespace:
   * step k emits identity run k - 1 followed by the mismatch run between it
   * and identity run k, without that run's last base. Together the steps span
   * the bases from the start of the first run to the start of run n.
   */
  function StepBases(bs: map<(char, char), char>, window: seq<char>, g: seq<int>, ref: seq<char>, qry: seq<char>, rv: seq<Region>, n: nat)
    : (r: Result<(seq<char>, seq<char>)>)
    requires GapsFit(window, g, |qry|) && |ref| == |qry|
    requires RegionsInside(rv, |qry|, |qry| + 1) && RegionsOrdered(rv) && n < |rv|
    ensures r.Ok? ==> |r.value.0| == |r.value.1| == rv[n].Begin as nat - rv[0].Begin as nat
    decreases n
  {
    if n == 0 then Ok(([], []))
    else
      match StepBases(bs, window, g, ref, qry, rv, n - 1)
      case Err(f) => Err(f)
      case Ok(emitted) =>
        match Step(bs, window, g, ref, qry, rv, n - 1)
        case Err(f) => Err(f)
        case Ok(step) => Ok(Joined(emitted, step))
  }

  /**
   * One step of the several-region loop, from identity run k to run k + 1:
   * the bases of run k followed by those of the mismatch run after it.
   */
  function Step(bs: map<(char, char), char>, window: seq<char>, g: seq<int>, ref: seq<char>, qry: seq<char>, rv: seq<Region>, k: nat)
    : (r: Result<(seq<char>, seq<char>)>)
    requires GapsFit(window, g, |qry|) && |ref| == |qry|
    requires RegionsInside(rv, |qry|, |qry| + 1) && RegionsOrdered(rv) && k + 1 < |rv|
    ensures r.Ok? ==> |r.value.0| == |r.value.1| == rv[k + 1].Begin as nat - rv[k].Begin as nat
  {
    match MismatchRegion(bs, window, g, ref, qry, End(rv[k]), rv[k + 1].Begin as nat - 1, false)
    case Err(f) => Err(f)
    case Ok(mismatched) =>
      match MatchRegion(bs, window, g, qry, rv[k].Begin as nat, End(rv[k]) - 1)
      case Err(f) => Err(f)
      case Ok(matched) => Ok(Joined(matched, mismatched))
  }

  /** A step whose mismatch run and identity run both convert is the identity run followed by the mismatch run. */
  lemma StepIs(bs: map<(char, char), char>, window: seq<char>, g: seq<int>, ref: seq<char>, qry: seq<char>, rv: seq<Region>, k: nat,
               mismatched: (seq<char>, seq<char>), matched: (seq<char>, seq<char>))
    requires GapsFit(window, g, |qry|) && |ref| == |qry|
    requires RegionsInside(rv, |qry|, |qry| + 1) && RegionsOrdered(rv) && k + 1 < |rv|
    requires MismatchRegion(bs, window, g, ref, qry, End(rv[k]), rv[k + 1].Begin as nat - 1, false) == Ok(mismatched)
    requires MatchRegion(bs, window, g, qry, rv[k].Begin as nat, End(rv[k]) - 1) == Ok(matched)
    ensures Step(bs, window, g, ref, qry, rv, k) == Ok(Joined(matched, mismatched))
  {
  }

  /**
   * The basespace reference and query ConvertAlignmentToBasespace builds from
   * the identity regions of the patched alignment. With one region the result
   * is one base longer than the alignment; with several, it spans only from
   * the first region's start to one past the last region's end, since the
   * mismatch runs before the first and after the last region are not emitted.
   * Without any region the iteration over the regions is undefined.
   */
  function ConvertedBases(bs: map<(char, char), char>, window: seq<char>, g: seq<int>, ref: seq<char>, qry: seq<char>, rv: seq<Region>)
    : (r: Result<(seq<char>, seq<char>)>)
    requires GapsFit(window, g, |qry|) && |ref| == |qry| && RegionsInside(rv, |qry|, |qry| + 1) && RegionsOrdered(rv)
    ensures r.Ok? ==> 1 <= |rv| && |r.value.0| == |r.value.1| <= |qry| + 1
    ensures r.Ok? && |rv| == 1 ==> |r.value.0| == |qry| + 1
    ensures r.Ok? && 2 <= |rv| ==> |r.value.0| == End(rv[|rv| - 1]) - rv[0].Begin as nat + 1
  {
    if |rv| == 0 then Err(Undefined("no identity region to iterate from"))
    else if |rv| == 1 then SingleRegionBases(bs, window, g, ref, qry, rv[0])
    else
      var final := rv[|rv| - 1];
      match StepBases(bs, window, g, ref, qry, rv, |rv| - 1)
      case Err(f) => Err(f)
      case Ok(emitted) =>
        match MatchRegion(bs, window, g, qry, final.Begin as nat, End(final) - 1)
        case Err(f) => Err(f)
        case Ok(matched) => Ok(Joined(emitted, matched))
  }

  /** The loop over several identity runs extends what it has emitted by one step at a time. */
  lemma StepBasesGrow(bs: map<(char, char), char>, window: seq<char>, g: seq<int>, ref: seq<char>, qry: seq<char>, rv: seq<Region>, n: nat,
                      emitted: (seq<char>, seq<char>), step: (seq<char>, seq<char>))
    requires GapsFit(window, g, |qry|) && |ref| == |qry|
    requires RegionsInside(rv, |qry|, |qry| + 1) && RegionsOrdered(rv) && n + 1 < |rv|
    requires StepBases(bs, window, g, ref, qry, rv, n) == Ok(emitted)
    requires Step(bs, window, g, ref, qry, rv, n) == Ok(step)
    ensures StepBases(bs, window, g, ref, qry, rv, n + 1) == Ok(Joined(emitted, step))
  {
  }

  /** Several identity runs convert to the emitted steps followed by the bases of the final run. */
  lemma SeveralRegionsAre(bs: map<(char, char), char>, window: seq<char>, g: seq<int>, ref: seq<char>, qry: seq<char>, rv: seq<Region>,
                          steps: Result<(seq<char>, seq<char>)>, matched: Result<(seq<char>, seq<char>)>)
    requires GapsFit(window, g, |qry|) && |ref| == |qry|
    requires RegionsInside(rv, |qry|, |qry| + 1) && RegionsOrdered(rv) && 2 <= |rv|
    requires steps.Ok? && steps == StepBases(bs, window, g, ref, qry, rv, |rv| - 1)
    requires matched.Ok? && matched == MatchRegion(bs, window, g, qry, rv[|rv| - 1].Begin as nat, End(rv[|rv| - 1]) - 1)
    ensures ConvertedBases(bs, window, g, ref, qry, rv) == Ok(Joined(steps.value, matched.value))
  {
  }

  /** An identity run whose bases and flanking mismatch runs find every pair they look up. */
  ghost predicate SingleRegionDecodes(bs: map<(char, char), char>, window: seq<char>, g: seq<int>, ref: seq<char>, qry: seq<char>, region: Region)
    requires GapsFit(window, g, |qry|) && |ref| == |qry| && 1 <= region.Length && End(region) <= |qry|
  {
    var first := region.Begin as nat;
    var last := End(region) - 1;
    MatchRegionDecodes(bs, window, g, qry, first, last) &&
    (0 < first ==> MismatchRegionDecodes(bs, window, g, ref, qry, 0, first - 1)) &&
    (last < |qry| - 1 ==> MismatchRegionDecodes(bs, window, g, ref, qry, last + 1, |qry| - 1))
  }

  /**
   * An exact colorspace alignment has one identity region, needs no table
   * entry beyond the genome, and converts to the genome bases under it, one
   * more than its length, on both sides.
   */
  lemma ExactAlignmentConverts(bs: map<(char, char), char>, al: Alignment, window: seq<char>, g: seq<int>, rv: seq<Region>)
    requires ExactColorspaceAlignment(al, window)
    requires GapsFit(window, g, |al.Query|) && NoGaps(g, |al.Query|)
    requires IdentityRegions(al.Reference, al.Query, rv)
    ensures |rv| == 1 && SingleRegionDecodes(bs, window, g, al.Reference, al.Query, rv[0])
    ensures ConvertedBases(bs, window, g, al.Reference, al.Query, rv) ==
              Ok((window[..|al.Reference| + 1], window[..|al.Reference| + 1]))
  {
    var n := |al.Reference|;
    OneRegionWhenIdentical(al.Reference, al.Query, rv);
    assert !HasNonCanonical(window, 0, n - 1);
    var matched := MatchRegion(bs, window, g, al.Query, 0, n - 1);
    assert matched == Ok((window[..n + 1], window[..n + 1]));
    var bases := window[..n + 1];
    var none: seq<char> := [];
    assert none + bases + none == bases;
  }

  /**
   * What the stages after the gap stage promise of a successful conversion
   * of `al`: the identity regions `rv` of the patched strings, rebuilt into
   * basespace by ConvertedBases and then finished.
   */
  ghost predicate ConvertedAs(bs: map<(char, char), char>, ambiguity: set<(char, char)>, al: Alignment, window: seq<char>,
                              g: seq<int>, patchedRef: seq<char>, patchedQry: seq<char>, rv: seq<Region>, r: Result<Alignment>)
  {
    r.Ok? ==>
      |patchedRef| == |patchedQry| && IdentityRegions(patchedRef, patchedQry, rv) && GapsFit(window, g, |patchedQry|) &&
      ConvertedBases(bs, window, g, patchedRef, patchedQry, rv) == Ok((r.value.Reference, r.value.Query)) &&
      |r.value.Reference| == |r.value.Query| < U16_LIMIT && |al.BaseQualities| < U16_LIMIT &&
      r == Finished(ambiguity, al, r.value.Reference, r.value.Query)
  }

  /**
   * Converting an exact colorspace alignment that has a quality succeeds with
   * the genome under it on both sides and no mismatch, whatever the
   * conversion after the gap stage returned, given what that stage promises.
   */
  lemma ExactAlignmentFinishes(bs: map<(char, char), char>, ambiguity: set<(char, char)>, al: Alignment, window: seq<char>,
                               g: seq<int>, rv: seq<Region>, r: Result<Alignment>)
    requires MatchesItself(ambiguity)
    requires ExactColorspaceAlignment(al, window) && 1 <= |al.BaseQualities| < U16_LIMIT
    requires GapsFit(window, g, |al.Query|) && NoGaps(g, |al.Query|)
    requires IdentityRegions(al.Reference, al.Query, rv)
    requires |rv| == 1 && SingleRegionDecodes(bs, window, g, al.Reference, al.Query, rv[0]) ==> r.Ok?
    requires ConvertedAs(bs, ambiguity, al, window, g, al.Reference, al.Query, rv, r)
    ensures r.Ok? && r.value.Reference == r.value.Query == window[..|al.Reference| + 1] && r.value.NumMismatches == 0
  {
    ExactAlignmentConverts(bs, al, window, g, rv);
    IdenticalBasesDoNotMismatch(ambiguity, window[..|al.Reference| + 1]);
  }

  /** The gap run starting at `start` reaches the end of the string. */
  predicate RunReachesEnd(cs: seq<char>, start: nat)
  {
    forall j :: start <= j < |cs| ==> cs[j] == '-'
  }

  /** The end of the gap run starting at `start`: the first later position that is not a gap. */
  function RunEnd(cs: seq<char>, start: nat): (right: nat)
    requires start < |cs| && !RunReachesEnd(cs, start)
    ensures start <= right < |cs| && cs[right] != '-'
    ensures forall j :: start <= j < right ==> cs[j] == '-'
    decreases |cs| - start
  {
    if cs[start] != '-' then start else RunEnd(cs, start + 1)
  }

  /** The first non-gap position after a gap run is its end. */
  lemma RunEndIs(cs: seq<char>, start: nat, right: nat)
    requires start <= right < |cs| && cs[right] != '-'
    requires forall j :: start <= j < right ==> cs[j] == '-'
    ensures !RunReachesEnd(cs, start) && RunEnd(cs, start) == right
    decreases right - start
  {
    if start < right {
      RunEndIs(cs, start + 1, right);
    }
  }

  /**
   * The colours PatchColorspaceGap writes over a run of n positions: the
   * transition from the left base into a gap, gap-to-gap transitions inside,
   * and the transition from a gap into the right base.
   */
  function RunColours(cs: map<(char, char), char>, leftBase: char, rightBase: char, n: nat): (run: seq<char>)
    requires n >= 2
    ensures |run| == n
    ensures run[0] == Lookup(cs, (leftBase, '-'))
    ensures run[n - 1] == Lookup(cs, ('-', rightBase))
    ensures forall j :: 0 < j < n - 1 ==> run[j] == Lookup(cs, ('-', '-'))
    ensures NeverGap(cs) ==> forall j :: 0 <= j < n ==> run[j] != '-'
  {
    [Lookup(cs, (leftBase, '-'))] + seq(n - 2, _ => Lookup(cs, ('-', '-'))) + [Lookup(cs, ('-', rightBase))]
  }

  /**
   * The run written over `left` to `right` when the closing colour is
   * `closing` and the derived left base `leftBase`: its right base is decoded
   * from the left base through the closing colour.
   */
  function PatchedRun(bs: map<(char, char), char>, cs: map<(char, char), char>, leftBase: char, closing: char, left: nat, right: nat)
    : (run: seq<char>)
    requires left < right
    ensures |run| == right - left + 1
  {
    RunColours(cs, leftBase, Lookup(bs, (leftBase, GetSimplifiedBase(closing))), right - left + 1)
  }

  /** `s` with `run` written over it from position `start` on, one colour at a time. */
  function Overwritten(s: seq<char>, start: nat, run: seq<char>): (r: seq<char>)
    requires start + |run| <= |s|
    ensures |r| == |s|
    decreases |run|
  {
    if run == [] then s else Overwritten(s[start := run[0]], start + 1, run[1..])
  }

  /** Overwriting replaces exactly the slice the run covers. */
  lemma {:induction false} OverwrittenIs(s: seq<char>, start: nat, run: seq<char>)
    requires start + |run| <= |s|
    ensures Overwritten(s, start, run) == s[..start] + run + s[start + |run|..]
    decreases |run|
  {
    if run != [] {
      var s1 := s[start := run[0]];
      OverwrittenIs(s1, start + 1, run[1..]);
      assert s1[..start + 1] == s[..start] + [run[0]];
      assert s1[start + 1 + |run[1..]|..] == s[start + |run|..];
      assert [run[0]] + run[1..] == run;
    }
  }

  /**
   * PatchColorspaceGap on values, for the gap at `start` of `s`: the left base
   * is derived from the query `qry` (which may be `s` itself); a failed
   * derivation fails first, then a run reaching the end; otherwise the run
   * and its closing colour are overwritten with PatchedRun and the closing
   * position is returned.
   */
  function GapPatched(bs: map<(char, char), char>, cs: map<(char, char), char>, window: seq<char>, g: seq<int>,
                      s: seq<char>, qry: seq<char>, start: nat): (r: Result<(seq<char>, nat)>)
    requires GapsFit(window, g, |qry|) && |s| == |qry| && start < |s| && s[start] == '-'
    ensures r.Ok? ==> start < r.value.1 < |s| && |r.value.0| == |s|
  {
    var leftBase := DerivedBase(bs, window, g, qry, start);
    if leftBase.Err? then Err(leftBase.failure)
    else if RunReachesEnd(s, start) then Err(Undefined("gap run reaches the end of the alignment"))
    else
      var right := RunEnd(s, start);
      Ok((Overwritten(s, start, PatchedRun(bs, cs, leftBase.value, s[right], start, right)), right))
  }

  /**
   * What GapPatched promises: it fails exactly when the left base cannot be
   * derived or the run reaches the end, with the derivation's failure first;
   * otherwise it returns the run's end and changes nothing outside the run
   * and its closing colour, leaving no gap inside them when no colour read
   * is a gap.
   */
  lemma GapPatchedMeans(bs: map<(char, char), char>, cs: map<(char, char), char>, window: seq<char>, g: seq<int>,
                        s: seq<char>, qry: seq<char>, start: nat)
    requires GapsFit(window, g, |qry|) && |s| == |qry| && start < |s| && s[start] == '-'
    ensures var r := GapPatched(bs, cs, window, g, s, qry, start);
            (r.Ok? <==> !RunReachesEnd(s, start) && DerivedBase(bs, window, g, qry, start).Ok?) &&
            (DerivedBase(bs, window, g, qry, start).Err? ==> r == Err(DerivedBase(bs, window, g, qry, start).failure)) &&
            (r.Ok? ==> r.value.1 == RunEnd(s, start)) &&
            (r.Ok? ==> forall j :: 0 <= j < |s| && !(start <= j <= r.value.1) ==> r.value.0[j] == s[j]) &&
            (r.Ok? && NeverGap(cs) ==> forall j :: start <= j <= r.value.1 ==> r.value.0[j] != '-')
  {
    var r := GapPatched(bs, cs, window, g, s, qry, start);
    if r.Ok? {
      var right := RunEnd(s, start);
      var run := PatchedRun(bs, cs, DerivedBase(bs, window, g, qry, start).value, s[right], start, right);
      OverwrittenIs(s, start, run);
      assert forall j :: start <= j <= right ==> r.value.0[j] == run[j - start];
    }
  }

  /**
   * A gap patcher: given a string, the query its left bases are derived from
   * and the position of a gap, it returns the patched string and the
   * position its patch reached, never before the gap and never past the end.
   * The scan of PatchColorspaceGaps below is stated over any patcher.
   */
  ghost predicate Advances(patch: (seq<char>, seq<char>, nat) -> Result<(seq<char>, nat)>)
  {
    forall s: seq<char>, qry: seq<char>, start: nat :: patch(s, qry, start).Ok? ==>
      start < patch(s, qry, start).value.1 < |s| && |patch(s, qry, start).value.0| == |s|
  }

  type Patcher = patch: (seq<char>, seq<char>, nat) -> Result<(seq<char>, nat)> | Advances(patch)
    witness (s: seq<char>, qry: seq<char>, start: nat) => Err(Undefined("nothing is patched"))

  /**
   * PatchColorspaceGap as a patcher over the given tables, genome window and
   * observed-gap counts: GapPatched wherever that is defined.
   */
  ghost function GapPatcher(bs: map<(char, char), char>, cs: map<(char, char), char>, window: seq<char>, g: seq<int>)
    : Patcher
  {
    (s: seq<char>, qry: seq<char>, start: nat) =>
      if GapsFit(window, g, |qry|) && |s| == |qry| && start < |s| && s[start] == '-' then GapPatched(bs, cs, window, g, s, qry, start)
      else Err(Undefined("not a gap of the scanned alignment"))
  }

  /** On a gap of an alignment that fits, GapPatcher patches as GapPatched says. */
  lemma GapPatcherPatches(bs: map<(char, char), char>, cs: map<(char, char), char>, window: seq<char>, g: seq<int>,
                          s: seq<char>, qry: seq<char>, start: nat)
    requires GapsFit(window, g, |qry|) && |s| == |qry| && start < |s| && s[start] == '-'
    ensures GapPatcher(bs, cs, window, g)(s, qry, start) == GapPatched(bs, cs, window, g, s, qry, start)
  {
  }

  /**
   * One half-step of PatchColorspaceGaps at position i of `s`: a gap there is
   * patched as `patch` says; anything else leaves `s` and i alone.
   */
  function StepPatched(patch: Patcher, s: seq<char>, qry: seq<char>, i: nat): (r: Result<(seq<char>, nat)>)
    requires |s| == |qry| && i < |s|
    ensures r.Ok? ==> i <= r.value.1 < |s| && |r.value.0| == |s|
    ensures s[i] != '-' ==> r == Ok((s, i))
  {
    if s[i] == '-' then patch(s, qry, i) else Ok((s, i))
  }

  /**
   * One iteration of the scan of PatchColorspaceGaps at position i: the
   * reference half-step at i with the left base derived from the query, then
   * the query half-step at the position that reached, which is returned; the
   * scan resumes one past it. The first failing half-step fails the iteration.
   */
  function ScanStep(patch: Patcher, ref: seq<char>, qry: seq<char>, i: nat): (r: Result<(seq<char>, seq<char>, nat)>)
    requires |ref| == |qry| && i < |ref|
    ensures r.Ok? ==> |r.value.0| == |r.value.1| == |ref| && i <= r.value.2 < |ref|
  {
    var refStep := StepPatched(patch, ref, qry, i);
    if refStep.Err? then Err(refStep.failure)
    else
      var qryStep := StepPatched(patch, qry, qry, refStep.value.1);
      if qryStep.Err? then Err(qryStep.failure)
      else Ok((refStep.value.0, qryStep.value.0, qryStep.value.1))
  }

  /**
   * The outcome of PatchColorspaceGaps when its scan is at position i: the
   * scan performs iterations until it passes the end; the first failing
   * half-step fails the whole. An iteration is taken apart into its four
   * parts below, so that a reasoning step about one iteration does not drag
   * in the patching of the next.
   */
  function PatchedFrom(patch: Patcher, ref: seq<char>, qry: seq<char>, i: nat): (r: Result<(seq<char>, seq<char>)>)
    requires |ref| == |qry| && i <= |ref|
    decreases |ref| - i, 3
  {
    if i == |ref| then Ok((ref, qry)) else ReferenceHalfFrom(patch, ref, qry, i)
  }

  /** The reference half of the iteration at i: a reference gap there is patched, then the query half follows. */
  function ReferenceHalfFrom(patch: Patcher, ref: seq<char>, qry: seq<char>, i: nat): (r: Result<(seq<char>, seq<char>)>)
    requires |ref| == |qry| && i < |ref|
    decreases |ref| - i, 2
  {
    if ref[i] == '-' then ReferenceGapFrom(patch, ref, qry, i) else QueryHalfFrom(patch, ref, qry, i)
  }

  /** The reference gap at i patched as `patch` says, with the query half at the position it reached. */
  function ReferenceGapFrom(patch: Patcher, ref: seq<char>, qry: seq<char>, i: nat): (r: Result<(seq<char>, seq<char>)>)
    requires |ref| == |qry| && i < |ref| && ref[i] == '-'
    decreases |ref| - i, 1
  {
    var patched := patch(ref, qry, i);
    if patched.Err? then Err(patched.failure)
    else QueryHalfFrom(patch, patched.value.0, qry, patched.value.1)
  }

  /** The query half of an iteration at j: a query gap there is patched, then the scan resumes one past it. */
  function QueryHalfFrom(patch: Patcher, ref: seq<char>, qry: seq<char>, j: nat): (r: Result<(seq<char>, seq<char>)>)
    requires |ref| == |qry| && j < |ref|
    decreases |ref| - j, 1
  {
    if qry[j] == '-' then QueryGapFrom(patch, ref, qry, j) else PatchedFrom(patch, ref, qry, j + 1)
  }

  /** The query gap at j patched as `patch` says, with the scan resuming one past the position it reached. */
  function QueryGapFrom(patch: Patcher, ref: seq<char>, qry: seq<char>, j: nat): (r: Result<(seq<char>, seq<char>)>)
    requires |ref| == |qry| && j < |ref| && qry[j] == '-'
    decreases |ref| - j, 0
  {
    var patched := patch(qry, qry, j);
    if patched.Err? then Err(patched.failure)
    else PatchedFrom(patch, ref, patched.value.0, patched.value.1 + 1)
  }

  /** An iteration whose two half-steps succeed resumes the scan where the query half-step left it. */
  lemma ScanStepSucceeds(patch: Patcher, ref: seq<char>, qry: seq<char>, i: nat, ref1: seq<char>, j: nat, qry1: seq<char>, k: nat)
    requires |ref| == |qry| && i < |ref|
    requires StepPatched(patch, ref, qry, i) == Ok((ref1, j))
    requires StepPatched(patch, qry, qry, j) == Ok((qry1, k))
    ensures ScanStep(patch, ref, qry, i) == Ok((ref1, qry1, k))
  {
  }

  /** A failing reference half-step fails the iteration with its failure. */
  lemma ReferenceHalfFails(patch: Patcher, ref: seq<char>, qry: seq<char>, i: nat, f: Failure)
    requires |ref| == |qry| && i < |ref|
    requires StepPatched(patch, ref, qry, i) == Err(f)
    ensures ScanStep(patch, ref, qry, i) == Err(f)
  {
  }

  /** A failing query half-step after a successful reference half-step fails the iteration with its failure. */
  lemma QueryHalfFails(patch: Patcher, ref: seq<char>, qry: seq<char>, i: nat, ref1: seq<char>, j: nat, f: Failure)
    requires |ref| == |qry| && i < |ref|
    requires StepPatched(patch, ref, qry, i) == Ok((ref1, j))
    requires StepPatched(patch, qry, qry, j) == Err(f)
    ensures ScanStep(patch, ref, qry, i) == Err(f)
  {
  }

  /** A failing iteration fails the scan with its failure. */
  lemma ScanFails(patch: Patcher, ref: seq<char>, qry: seq<char>, i: nat, f: Failure)
    requires |ref| == |qry| && i < |ref|
    requires ScanStep(patch, ref, qry, i) == Err(f)
    ensures PatchedFrom(patch, ref, qry, i) == Err(f)
  {
    var refStep := StepPatched(patch, ref, qry, i);
    if refStep.Err? {
      assert ReferenceHalfFrom(patch, ref, qry, i) == Err(f);
    } else {
      var (ref1, j) := refStep.value;
      if qry[j] == '-' {
        assert QueryGapFrom(patch, ref1, qry, j) == Err(f);
      }
      if ref[i] == '-' {
        assert ReferenceGapFrom(patch, ref, qry, i) == QueryHalfFrom(patch, ref1, qry, j);
      }
      assert ReferenceHalfFrom(patch, ref, qry, i) == Err(f);
    }
  }

  /** PatchedFrom after a successful iteration is PatchedFrom from where the iteration resumes. */
  lemma PatchedFromUnfolds(patch: Patcher, ref: seq<char>, qry: seq<char>, i: nat, ref1: seq<char>, qry1: seq<char>, k: nat, next: nat)
    requires |ref| == |qry| && i < |ref|
    requires ScanStep(patch, ref, qry, i) == Ok((ref1, qry1, k)) && next == k + 1
    ensures next <= |ref1| == |qry1|
    ensures PatchedFrom(patch, ref, qry, i) == PatchedFrom(patch, ref1, qry1, next)
  {
    var (ref2, j) := StepPatched(patch, ref, qry, i).value;
    if ref[i] == '-' {
      assert ReferenceGapFrom(patch, ref, qry, i) == QueryHalfFrom(patch, ref2, qry, j);
    }
    if qry[j] == '-' {
      assert QueryGapFrom(patch, ref2, qry, j) == PatchedFrom(patch, ref1, qry1, next);
    }
    assert QueryHalfFrom(patch, ref2, qry, j) == PatchedFrom(patch, ref1, qry1, next);
  }

  /** A scan that has passed the last position succeeds with the pair as it is. */
  lemma PatchedToTheEnd(patch: Patcher, ref: seq<char>, qry: seq<char>)
    requires |ref| == |qry|
    ensures PatchedFrom(patch, ref, qry, |ref|) == Ok((ref, qry))
  {
  }

  /** A scan over an alignment without gaps succeeds and changes nothing. */
  lemma {:induction false} GapFreeNotPatched(patch: Patcher, ref: seq<char>, qry: seq<char>, i: nat)
    requires |ref| == |qry| && i <= |ref|
    requires forall j :: i <= j < |ref| ==> ref[j] != '-' && qry[j] != '-'
    ensures PatchedFrom(patch, ref, qry, i) == Ok((ref, qry))
    decreases |ref| - i
  {
    if i < |ref| {
      GapFreeNotPatched(patch, ref, qry, i + 1);
      assert QueryHalfFrom(patch, ref, qry, i) == PatchedFrom(patch, ref, qry, i + 1);
    }
  }

  /** A reference gap run reaching the end of the alignment fails the scan that meets it. */
  lemma RunToEndFails(bs: map<(char, char), char>, cs: map<(char, char), char>, window: seq<char>,
                      g: seq<int>, ref: seq<char>, qry: seq<char>, i: nat)
    requires GapsFit(window, g, |qry|) && |ref| == |qry| && i < |ref| && ref[i] == '-' && RunReachesEnd(ref, i)
    ensures PatchedFrom(GapPatcher(bs, cs, window, g), ref, qry, i).Err?
  {
    assert GapPatched(bs, cs, window, g, ref, qry, i).Err?;
    assert ReferenceGapFrom(GapPatcher(bs, cs, window, g), ref, qry, i).Err?;
  }

  /** A colorspace table none of whose reads, '\0' for a missing pair included, is a gap. */
  ghost predicate NeverGap(cs: map<(char, char), char>)
  {
    forall key :: Lookup(cs, key) != '-'
  }

  /** No read of the initial colorspace table is a gap. */
  lemma InitialColoursNeverGap()
    ensures NeverGap(InitialColorspaceMap())
  {
    forall key
      ensures Lookup(InitialColorspaceMap(), key) != '-'
    {
      if key in InitialColorspaceMap() {
        ColoursAreNotGaps(key);
      }
    }
  }

  // ---------------------------------------------------------------------------
  // The utilities object
  // ---------------------------------------------------------------------------

  /**
   * The basespace and colorspace tables (std::maps read through operator[],
   * which inserts '\0' for a missing pair), the ambiguity set and the
   * observed-gap counts.
   */
  class ColorspaceUtilities {
    var bsMap: map<(char, char), char>
    var csMap: map<(char, char), char>
    const ambiguitySet: set<(char, char)>
    const gaps: ObservedGaps
    /** The tables the constructor fills bsMap and csMap with. */
    ghost const basespace: map<(char, char), char>
    ghost const colorspace: map<(char, char), char>

    /**
     * The maps hold their initial entries plus '\0' entries that reads of
     * missing pairs inserted; what the methods need of the initial tables is
     * that no colour read is a gap and that canonical bases match themselves.
     */
    ghost predicate Valid()
      reads this, gaps
    {
      gaps.Valid() &&
      ExtendsWithDefaults(bsMap, basespace) &&
      ExtendsWithDefaults(csMap, colorspace) &&
      NeverGap(colorspace) && MatchesItself(ambiguitySet)
    }

    /** The observed-gap counts fit an alignment of `length` positions over `window`. */
    ghost predicate GapsReady(window: seq<char>, length: nat)
      reads gaps, gaps.counts
    {
      GapsFit(window, gaps.counts[..], length)
    }

    /** The constructor fills the three tables and starts with no gap-count array. */
    constructor()
      ensures Valid() && fresh(gaps) && gaps.capacity == 0
      ensures basespace == InitialBasespaceMap() && colorspace == InitialColorspaceMap()
      ensures ambiguitySet == InitialAmbiguitySet()
      ensures bsMap == basespace && csMap == colorspace
    {
      basespace := InitialBasespaceMap();
      colorspace := InitialColorspaceMap();
      bsMap := InitialBasespaceMap();
      csMap := InitialColorspaceMap();
      ambiguitySet := InitialAmbiguitySet();
      gaps := new ObservedGaps();
      InitialColoursNeverGap();
      InitialAmbiguityMatchesItself();
    }

    /** mBSMap[key]: reads the initial entry, inserting '\0' for a missing pair. */
    method BasespaceAt(key: (char, char)) returns (base: char)
      requires Valid()
      modifies this
      ensures Valid() && base == Lookup(basespace, key)
      ensures bsMap == WithDefault(old(bsMap), key) && csMap == old(csMap)
    {
      LookupThroughDefaults(bsMap, basespace, key);
      base := Lookup(bsMap, key);
      bsMap := WithDefault(bsMap, key);
    }

    /** mCSMap[key]: reads the initial entry, inserting '\0' for a missing pair. */
    method ColourAt(key: (char, char)) returns (colour: char)
      requires Valid()
      modifies this
      ensures Valid() && colour == Lookup(colorspace, key)
      ensures csMap == WithDefault(old(csMap), key) && bsMap == old(bsMap)
    {
      LookupThroughDefaults(csMap, colorspace, key);
      colour := Lookup(csMap, key);
      csMap := WithDefault(csMap, key);
    }

    /** The backward search of DeriveBase: the nearest position at or before `start` with a canonical genome base. */
    method SearchBack(window: seq<char>, qry: seq<char>, start: nat) returns (k: Option<nat>)
      requires Valid() && GapsReady(window, |qry|) && start < |qry|
      ensures k == LastCanonical(window, gaps.counts[..], qry, start)
    {
      ghost var g: seq<int> := gaps.counts[..];
      var counts := gaps.counts;
      var checkIndex: nat := start;
      while true
        invariant checkIndex <= start
        invariant LastCanonical(window, g, qry, start) == LastCanonical(window, g, qry, checkIndex)
        decreases checkIndex
      {
        var seed := window[checkIndex - counts[checkIndex] as int];
        assert seed == GappedBase(window, g, qry, checkIndex);
        if IsCanonicalBase(seed) {
          return Some(checkIndex);
        }
        if checkIndex == 0 {
          return None;
        }
        checkIndex := checkIndex - 1;
      }
    }

    /**
     * The forward search of DeriveBase and DeriveBeginQueryBase: the first
     * position from `start` whose genome base is canonical and whose preceding
     * colour is not a gap or, when `strict`, is canonical.
     */
    method SearchAhead(window: seq<char>, qry: seq<char>, start: nat, strict: bool) returns (k: Option<nat>)
      requires Valid() && GapsReady(window, |qry|) && 1 <= start < |qry|
      ensures k == FirstUsable(window, gaps.counts[..], qry, start, strict)
    {
      ghost var g: seq<int> := gaps.counts[..];
      var counts := gaps.counts;
      var checkIndex: nat := start;
      while true
        invariant start <= checkIndex < |qry|
        invariant FirstUsable(window, g, qry, start, strict) == FirstUsable(window, g, qry, checkIndex, strict)
        decreases |qry| - checkIndex
      {
        var seed := window[checkIndex - counts[checkIndex] as int];
        var csBase := qry[checkIndex - 1 - counts[checkIndex - 1] as int];
        assert seed == GappedBase(window, g, qry, checkIndex) && csBase == GappedColour(g, qry, checkIndex - 1);
        if IsCanonicalBase(seed) && (if strict then IsCanonicalBase(csBase) else csBase != '-') {
          return Some(checkIndex);
        }
        if checkIndex == |qry| - 1 {
          return None;
        }
        checkIndex := checkIndex + 1;
      }
    }

    /** The forward walk of DeriveBase: decodes the simplified query colours from `start` up to `stop`. */
    method WalkAhead(qry: seq<char>, seed: char, start: nat, stop: nat) returns (base: char)
      requires Valid() && start <= stop <= |qry|
      modifies this
      ensures Valid() && csMap == old(csMap)
      ensures base == WalkForward(basespace, seed, qry, start, stop)
    {
      base := seed;
      var checkIndex := start;
      while checkIndex < stop
        invariant start <= checkIndex <= stop
        invariant Valid() && csMap == old(csMap)
        invariant base == WalkForward(basespace, seed, qry, start, checkIndex)
      {
        base := BasespaceAt((base, GetSimplifiedBase(qry[checkIndex])));
        checkIndex := checkIndex + 1;
      }
    }

    /** The backward walk: decodes the gap-shifted query colours that are not gaps, from `start` back to `stop`. */
    method WalkBack(window: seq<char>, qry: seq<char>, seed: char, start: nat, stop: nat) returns (base: char)
      requires Valid() && GapsReady(window, |qry|) && stop <= start < |qry|
      modifies this
      ensures Valid() && csMap == old(csMap)
      ensures base == WalkBackward(basespace, seed, gaps.counts[..], qry, start, stop)
    {
      ghost var g: seq<int> := gaps.counts[..];
      var counts := gaps.counts;
      base := seed;
      var checkIndex := start;
      while checkIndex > stop
        invariant stop <= checkIndex <= start
        invariant Valid() && csMap == old(csMap)
        invariant base == WalkBackward(basespace, seed, g, qry, start, checkIndex)
      {
        var csBase := qry[checkIndex - 1 - counts[checkIndex - 1] as int];
        assert csBase == GappedColour(g, qry, checkIndex - 1);
        if csBase != '-' {
          base := BasespaceAt((base, GetSimplifiedBase(csBase)));
        }
        checkIndex := checkIndex - 1;
      }
    }

    /**
     * DeriveBase: the basespace base at pairwise position `pos`, derived from
     * the genome and, where the genome base is ambiguous, from the query
     * colours.
     */
    method DeriveBase(window: seq<char>, qry: seq<char>, pos: nat) returns (r: Result<char>)
      requires Valid() && GapsReady(window, |qry|) && pos < |qry|
      modifies this
      ensures Valid() && csMap == old(csMap)
      ensures r == DerivedBase(basespace, window, gaps.counts[..], qry, pos)
    {
      var counts := gaps.counts;
      if pos == 0 {
        return Ok(window[0]);
      }
      var canonicalBase := window[pos - counts[pos] as int];
      if IsCanonicalBase(canonicalBase) {
        return Ok(canonicalBase);
      }
      // case 1: the nearest canonical genome base earlier in the alignment
      var earlier := SearchBack(window, qry, pos - 1);
      if earlier.Some? {
        var k := earlier.value;
        canonicalBase := WalkAhead(qry, window[k - counts[k] as int], k, pos);
        return Ok(canonicalBase);
      }
      // case 2: the first usable canonical genome base later in the alignment
      if pos < |qry| - 1 {
        var later := SearchAhead(window, qry, pos + 1, false);
        if later.Some? {
          var k := later.value;
          canonicalBase := WalkBack(window, qry, window[k - counts[k] as int], k, pos);
          return Ok(canonicalBase);
        }
      }
      return Err(Fatal("unable to derive the base"));
    }

    /**
     * DeriveBeginQueryBase: the query's first basespace base, from the genome
     * or walked back from the first later position whose genome base and
     * preceding colour are both canonical.
     */
    method DeriveBeginQueryBase(window: seq<char>, qry: seq<char>) returns (r: Result<char>)
      requires Valid() && GapsReady(window, |qry|)
      modifies this
      ensures Valid() && csMap == old(csMap)
      ensures r == BeginQueryBase(basespace, window, gaps.counts[..], qry)
    {
      var counts := gaps.counts;
      var canonicalBase := window[0];
      if IsCanonicalBase(canonicalBase) {
        return Ok(canonicalBase);
      }
      if |qry| < 2 {
        return Err(Undefined("search for a canonical base runs past a one-position alignment"));
      }
      var later := SearchAhead(window, qry, 1, true);
      if later.Some? {
        var k := later.value;
        canonicalBase := WalkBack(window, qry, window[k - counts[k] as int], k, 0);
        return Ok(canonicalBase);
      }
      return Err(Fatal("unable to derive the base at the beginning of the alignment"));
    }

    /**
     * ConvertColorspaceToBasespace through this object's basespace table: a
     * successful decode equals the walk through the initial table, and
     * whatever the initial table decodes, decodes. Only the first
     * |colours| mod 2^16 colours are decoded, as the length is an unsigned
     * short.
     */
    method ConvertColorspaceToBasespace(seed: char, colours: seq<char>) returns (r: Result<seq<char>>)
      requires Valid()
      ensures var decoded := colours[..Truncate(|colours|, U16_LIMIT)];
              && (r.Ok? ==> r.value == Transcribed(basespace, seed, decoded))
              && (Decodable(basespace, seed, decoded) ==> r.Ok?)
      ensures r.Err? ==> r.failure.Fatal?
      ensures |colours| == U16_LIMIT ==> r == Ok([])
    {
      r := ColorspaceTranscoding.ConvertColorspaceToBasespace(bsMap, seed, colours);
      var decoded := colours[..Truncate(|colours|, U16_LIMIT)];
      if r.Ok? {
        DecodedThroughDefaults(bsMap, basespace, seed, decoded);
      }
      if Decodable(basespace, seed, decoded) {
        DecodableThroughDefaults(bsMap, basespace, seed, decoded);
      }
    }

    /** GetMatchRegion: the basespace reference and query of the identity run from `regionBegin` to `regionEnd`. */
    method GetMatchRegion(window: seq<char>, qry: seq<char>, regionBegin: nat, regionEnd: nat)
      returns (r: Result<(seq<char>, seq<char>)>)
      requires Valid() && GapsReady(window, |qry|) && regionBegin <= regionEnd < |qry| < U16_LIMIT
      modifies this
      ensures Valid() && csMap == old(csMap)
      ensures r.Ok? ==> r == MatchRegion(basespace, window, gaps.counts[..], qry, regionBegin, regionEnd)
      ensures MatchRegionDecodes(basespace, window, gaps.counts[..], qry, regionBegin, regionEnd) ==> r.Ok?
      ensures r.Err? ==> r.failure.Fatal?
    {
      var counts := gaps.counts;
      var regionLength := regionEnd - regionBegin + 1;
      var hasNonCanonicalBase := FindNonCanonical(window, regionBegin, regionEnd);
      var start := regionBegin - counts[regionBegin] as int;
      var bsRef := window[start..start + regionLength + 1];
      if !hasNonCanonicalBase {
        return Ok((bsRef, bsRef));
      }
      var seed := DeriveBase(window, qry, regionBegin);
      if seed.Err? {
        return Err(seed.failure);
      }
      ShortColoursDecodedWhole(qry[regionBegin..regionBegin + regionLength]);
      var decoded := ConvertColorspaceToBasespace(seed.value, qry[regionBegin..regionBegin + regionLength]);
      if decoded.Err? {
        return Err(decoded.failure);
      }
      return Ok((bsRef, [seed.value] + decoded.value));
    }

    /** The scan of GetMatchRegion for a genome base that is not canonical, from `first` to `last`. */
    method FindNonCanonical(window: seq<char>, first: nat, last: nat) returns (found: bool)
      requires first <= last < |window|
      ensures found == HasNonCanonical(window, first, last)
    {
      found := false;
      var p := first;
      while p <= last && !found
        invariant first <= p <= last + 1
        invariant found ==> HasNonCanonical(window, first, last)
        invariant !found ==> forall q :: first <= q < p ==> IsCanonicalBase(window[q])
        decreases last + 1 - p, !found
      {
        if !IsCanonicalBase(window[p]) {
          found := true;
        } else {
          p := p + 1;
        }
      }
    }

    /** The seed a mismatch run's query decodes from, deriving the query's first base when the genome's is ambiguous. */
    method GetQuerySeed(window: seq<char>, qry: seq<char>, regionBegin: nat, seed: char) returns (r: Result<char>)
      requires Valid() && GapsReady(window, |qry|)
      modifies this
      ensures Valid() && csMap == old(csMap)
      ensures r == QuerySeed(basespace, window, gaps.counts[..], qry, regionBegin, seed)
    {
      if regionBegin == 0 && !IsCanonicalBase(seed) {
        r := DeriveBeginQueryBase(window, qry);
      } else {
        r := Ok(seed);
      }
    }

    /** Decodes a run of colours from its seed, with the seed in front when the run starts the alignment. */
    method DecodeRun(seed: char, colours: seq<char>, withSeed: bool) returns (r: Result<seq<char>>)
      requires Valid() && |colours| < U16_LIMIT
      ensures r.Ok? ==> r.value == (if withSeed then [seed] else []) + Transcribed(basespace, seed, colours)
      ensures Decodable(basespace, seed, colours) ==> r.Ok?
    {
      ShortColoursDecodedWhole(colours);
      var decoded := ConvertColorspaceToBasespace(seed, colours);
      if decoded.Err? {
        return Err(decoded.failure);
      }
      r := Ok((if withSeed then [seed] else []) + decoded.value);
    }

    /**
     * GetMismatchRegion: the basespace reference and query of the mismatch run
     * from `regionBegin` to `regionEnd`; the number of bases it contributes is
     * the length of either.
     */
    method GetMismatchRegion(window: seq<char>, ref: seq<char>, qry: seq<char>, regionBegin: nat, regionEnd: nat, isLastRegion: bool)
      returns (r: Result<(seq<char>, seq<char>)>)
      requires Valid() && GapsReady(window, |qry|) && |ref| == |qry| < U16_LIMIT && regionBegin <= regionEnd < |qry|
      modifies this
      ensures Valid() && csMap == old(csMap)
      ensures r.Ok? ==> r == MismatchRegion(basespace, window, gaps.counts[..], ref, qry, regionBegin, regionEnd, isLastRegion)
      ensures MismatchRegionDecodes(basespace, window, gaps.counts[..], ref, qry, regionBegin, regionEnd) ==> r.Ok?
    {
      ghost var g: seq<int> := gaps.counts[..];
      var seed := DeriveBase(window, qry, regionBegin);
      if seed.Err? {
        return Err(seed.failure);
      }
      var refDecoded := DecodeRun(seed.value, ref[regionBegin..regionEnd + 1], regionBegin == 0);
      if refDecoded.Err? {
        return Err(refDecoded.failure);
      }
      var querySeed := GetQuerySeed(window, qry, regionBegin, seed.value);
      if querySeed.Err? {
        return Err(querySeed.failure);
      }
      var qryDecoded := DecodeRun(querySeed.value, qry[regionBegin..regionEnd + 1], regionBegin == 0);
      if qryDecoded.Err? {
        return Err(qryDecoded.failure);
      }
      var bsRef := refDecoded.value;
      var bsQry := qryDecoded.value;
      var numMismatchBases := |bsQry|;
      if !isLastRegion {
        numMismatchBases := numMismatchBases - 1;
        bsRef := bsRef[..numMismatchBases];
        bsQry := bsQry[..numMismatchBases];
      }
      assert (bsRef, bsQry) == MismatchBases(basespace, seed.value, querySeed.value, ref, qry, regionBegin, regionEnd, isLastRegion);
      return Ok((bsRef, bsQry));
    }

    /**
     * PatchColorspaceGap: replaces the gap run of `cs` starting at
     * `currentIndex` and the colour closing it with colour transitions,
     * returning the position of the closing colour. The left base is derived
     * from the current query; a run reaching the end of the alignment leaves
     * no closing colour to read.
     */
    method PatchColorspaceGap(cs: array<char>, query: array<char>, window: seq<char>, currentIndex: nat) returns (r: Result<nat>)
      requires Valid() && GapsReady(window, query.Length) && cs.Length == query.Length < U16_LIMIT
      requires currentIndex < cs.Length && cs[currentIndex] == '-'
      modifies this, cs
      ensures Valid()
      ensures r.Err? <==> RunReachesEnd(old(cs[..]), currentIndex) ||
                          DerivedBase(basespace, window, gaps.counts[..], old(query[..]), currentIndex).Err?
      ensures r.Err? ==> forall j :: 0 <= j < cs.Length ==> cs[j] == old(cs[j])
      ensures r.Ok? ==> !RunReachesEnd(old(cs[..]), currentIndex) && r.value == RunEnd(old(cs[..]), currentIndex)
      ensures r.Ok? ==> currentIndex < r.value &&
                        forall j :: currentIndex <= j <= r.value ==>
                          cs[j] == PatchedRun(basespace, colorspace, DerivedBase(basespace, window, gaps.counts[..], old(query[..]), currentIndex).value,
                                              old(cs[r.value]), currentIndex, r.value)[j - currentIndex]
      ensures r.Ok? ==> forall j :: 0 <= j < cs.Length && !(currentIndex <= j <= r.value) ==> cs[j] == old(cs[j])
      ensures r.Ok? ==> forall j :: currentIndex <= j <= r.value ==> cs[j] != '-'
      ensures r.Ok? ==> forall j :: currentIndex <= j < r.value ==> old(cs[j]) == '-'
      ensures r.Ok? ==> GapPatched(basespace, colorspace, window, gaps.counts[..], old(cs[..]), old(query[..]), currentIndex) ==
                          Ok((cs[..], r.value))
      ensures r.Err? ==> GapPatched(basespace, colorspace, window, gaps.counts[..], old(cs[..]), old(query[..]), currentIndex) ==
                           Err(r.failure)
    {
      ghost var s0 := cs[..];
      var rightGapPos := FindRunEnd(cs, currentIndex);
      var leftGapBase := DeriveBase(window, query[..], currentIndex);
      if leftGapBase.Err? {
        return Err(leftGapBase.failure);
      }
      if rightGapPos == cs.Length {
        return Err(Undefined("gap run reaches the end of the alignment"));
      }
      var leftBase := leftGapBase.value;
      var rightGapBase := BasespaceAt((leftBase, GetSimplifiedBase(cs[rightGapPos])));
      WriteRun(cs, currentIndex, rightGapPos, leftBase, rightGapBase);
      OverwrittenIs(s0, currentIndex, PatchedRun(basespace, colorspace, leftBase, s0[rightGapPos], currentIndex, rightGapPos));
      assert cs[..] == s0[..currentIndex] + PatchedRun(basespace, colorspace, leftBase, s0[rightGapPos], currentIndex, rightGapPos) +
                       s0[rightGapPos + 1..];
      return Ok(rightGapPos);
    }

    /** The scan of PatchColorspaceGap: the first position from `start` that is not a gap, or the length. */
    method FindRunEnd(cs: array<char>, start: nat) returns (right: nat)
      requires start < cs.Length
      ensures start <= right <= cs.Length
      ensures right == cs.Length <==> RunReachesEnd(cs[..], start)
      ensures right < cs.Length ==> right == RunEnd(cs[..], start)
    {
      right := start;
      while right < cs.Length && cs[right] == '-'
        invariant start <= right <= cs.Length
        invariant forall j :: start <= j < right ==> cs[j] == '-'
      {
        right := right + 1;
      }
      if right < cs.Length {
        RunEndIs(cs[..], start, right);
      }
    }

    /** The write loop of PatchColorspaceGap: the transition colours over positions `left` to `right`. */
    method WriteRun(cs: array<char>, left: nat, right: nat, leftBase: char, rightBase: char)
      requires Valid() && left < right < cs.Length
      modifies this, cs
      ensures Valid() && bsMap == old(bsMap)
      ensures forall j :: 0 <= j < cs.Length && !(left <= j <= right) ==> cs[j] == old(cs[j])
      ensures forall j :: left <= j <= right ==> cs[j] == RunColours(colorspace, leftBase, rightBase, right - left + 1)[j - left]
      ensures cs[..] == old(cs[..])[..left] + RunColours(colorspace, leftBase, rightBase, right - left + 1) + old(cs[..])[right + 1..]
    {
      ghost var run := RunColours(colorspace, leftBase, rightBase, right - left + 1);
      var i := left;
      while i <= right
        invariant left <= i <= right + 1
        invariant Valid() && bsMap == old(bsMap)
        invariant forall j :: 0 <= j < cs.Length && !(left <= j < i) ==> cs[j] == old(cs[j])
        invariant forall j :: left <= j < i ==> cs[j] == run[j - left]
      {
        if i == left {
          cs[i] := ColourAt((leftBase, '-'));
        } else if i == right {
          cs[i] := ColourAt(('-', rightBase));
        } else {
          cs[i] := ColourAt(('-', '-'));
        }
        i := i + 1;
      }
      assert cs[..] == old(cs[..])[..left] + run + old(cs[..])[right + 1..];
    }

    /**
     * PatchColorspaceGaps: walks the alignment once, patching each gap run met
     * in the reference and then the one met in the query at the position
     * reached. The walk relies on the reference and the query never being
     * gapped at the same position: a reference gap can survive only right
     * after a patched query run, and a query gap only opposite a reference gap.
     */
    method PatchColorspaceGaps(reference: array<char>, query: array<char>, window: seq<char>) returns (r: Result<()>)
      requires Valid() && GapsReady(window, query.Length)
      requires reference != query && reference.Length == query.Length < U16_LIMIT
      modifies this, reference, query
      ensures Valid()
      ensures r.Ok? ==> forall j :: 0 <= j < reference.Length && reference[j] == '-' ==>
                          old(reference[j]) == '-' && 0 < j && old(query[j - 1]) == '-'
      ensures r.Ok? ==> forall j :: 0 <= j < query.Length && query[j] == '-' ==>
                          old(query[j]) == '-' && old(reference[j]) == '-'
      ensures ChangedOnlyAtRuns(old(reference[..]), reference[..])
      ensures ChangedOnlyAtRuns(old(query[..]), query[..])
      ensures r.Ok? ==> PatchedFrom(GapPatcher(basespace, colorspace, window, gaps.counts[..]), old(reference[..]), old(query[..]), 0) ==
                          Ok((reference[..], query[..]))
      ensures r.Err? ==> PatchedFrom(GapPatcher(basespace, colorspace, window, gaps.counts[..]), old(reference[..]), old(query[..]), 0) ==
                           Err(r.failure)
    {
      ghost var R0 := reference[..];
      ghost var Q0 := query[..];
      ghost var g := gaps.counts[..];
      ghost var patched := PatchedFrom(GapPatcher(basespace, colorspace, window, g), R0, Q0, 0);
      var pairwiseLen := reference.Length;
      var i := 0;
      while i < pairwiseLen
        invariant 0 <= i <= pairwiseLen
        invariant Valid() && gaps.counts[..] == g && GapsFit(window, g, query.Length)
        invariant UntouchedFrom(R0, reference[..], i) && UntouchedFrom(Q0, query[..], i)
        invariant ReferenceGapsJustified(R0, Q0, reference[..], i)
        invariant QueryGapsJustified(R0, Q0, query[..], i)
        invariant ChangedOnlyAtRuns(R0, reference[..]) && ChangedOnlyAtRuns(Q0, query[..])
        invariant PatchedFrom(GapPatcher(basespace, colorspace, window, g), reference[..], query[..], i) == patched
      {
        ghost var ref0, qry0, i0 := reference[..], query[..], i;
        var step := PatchStep(reference, query, window, i, R0, Q0);
        if step.Err? {
          ScanFails(GapPatcher(basespace, colorspace, window, g), ref0, qry0, i0, step.failure);
          return Err(step.failure);
        }
        i := step.value + 1;
        PatchedFromUnfolds(GapPatcher(basespace, colorspace, window, g), ref0, qry0, i0, reference[..], query[..], step.value, i);
      }
      PatchedToTheEnd(GapPatcher(basespace, colorspace, window, g), reference[..], query[..]);
      return Ok(());
    }

    /**
     * One iteration of PatchColorspaceGaps at position i: the reference half
     * and then the query half; returns the position the query half reached.
     */
    method PatchStep(reference: array<char>, query: array<char>, window: seq<char>, i: nat, ghost R0: seq<char>, ghost Q0: seq<char>)
      returns (r: Result<nat>)
      requires Valid() && GapsReady(window, query.Length)
      requires reference != query && reference.Length == query.Length < U16_LIMIT && i < reference.Length
      requires UntouchedFrom(R0, reference[..], i) && UntouchedFrom(Q0, query[..], i)
      requires ReferenceGapsJustified(R0, Q0, reference[..], i) && QueryGapsJustified(R0, Q0, query[..], i)
      requires ChangedOnlyAtRuns(R0, reference[..]) && ChangedOnlyAtRuns(Q0, query[..])
      modifies this, reference, query
      ensures Valid()
      ensures ChangedOnlyAtRuns(R0, reference[..]) && ChangedOnlyAtRuns(Q0, query[..])
      ensures r.Ok? ==> UntouchedFrom(R0, reference[..], r.value + 1) && UntouchedFrom(Q0, query[..], r.value + 1)
      ensures r.Ok? ==> ReferenceGapsJustified(R0, Q0, reference[..], r.value + 1) && QueryGapsJustified(R0, Q0, query[..], r.value + 1)
      ensures r.Ok? ==> ScanStep(GapPatcher(basespace, colorspace, window, gaps.counts[..]), old(reference[..]), old(query[..]), i) ==
                          Ok((reference[..], query[..], r.value))
      ensures r.Err? ==> ScanStep(GapPatcher(basespace, colorspace, window, gaps.counts[..]), old(reference[..]), old(query[..]), i) ==
                           Err(r.failure)
    {
      ghost var g := gaps.counts[..];
      ghost var ref0, qry0 := reference[..], query[..];
      r := PatchReferenceStep(reference, query, window, i, R0, Q0);
      if r.Err? {
        ReferenceHalfFails(GapPatcher(basespace, colorspace, window, g), ref0, qry0, i, r.failure);
        return;
      }
      ghost var ref1, j := reference[..], r.value;
      r := PatchQueryStep(reference, query, window, r.value, R0, Q0);
      if r.Err? {
        QueryHalfFails(GapPatcher(basespace, colorspace, window, g), ref0, qry0, i, ref1, j, r.failure);
        return;
      }
      ScanStepSucceeds(GapPatcher(basespace, colorspace, window, g), ref0, qry0, i, ref1, j, query[..], r.value);
    }

    /** The reference half of one step of PatchColorspaceGaps, at position i. */
    method PatchReferenceStep(reference: array<char>, query: array<char>, window: seq<char>, i: nat, ghost R0: seq<char>, ghost Q0: seq<char>)
      returns (r: Result<nat>)
      requires Valid() && GapsReady(window, query.Length)
      requires reference != query && reference.Length == query.Length < U16_LIMIT && i < reference.Length
      requires UntouchedFrom(R0, reference[..], i) && UntouchedFrom(Q0, query[..], i)
      requires ReferenceGapsJustified(R0, Q0, reference[..], i) && QueryGapsJustified(R0, Q0, query[..], i)
      requires ChangedOnlyAtRuns(R0, reference[..])
      modifies this, reference
      ensures Valid()
      ensures ChangedOnlyAtRuns(R0, reference[..])
      ensures r.Ok? ==> i <= r.value < reference.Length
      ensures r.Ok? ==> UntouchedFrom(R0, reference[..], r.value + 1) && UntouchedFrom(Q0, query[..], r.value)
      ensures r.Ok? ==> ReferenceGapsJustified(R0, Q0, reference[..], r.value + 1) && QueryGapsJustified(R0, Q0, query[..], r.value)
      ensures r.Ok? ==> StepPatched(GapPatcher(basespace, colorspace, window, gaps.counts[..]), old(reference[..]), query[..], i) ==
                          Ok((reference[..], r.value))
      ensures r.Err? ==> StepPatched(GapPatcher(basespace, colorspace, window, gaps.counts[..]), old(reference[..]), query[..], i) ==
                           Err(r.failure)
    {
      if reference[i] == '-' {
        ghost var before := reference[..];
        var patched := PatchColorspaceGap(reference, query, window, i);
        GapPatcherPatches(basespace, colorspace, window, gaps.counts[..], before, query[..], i);
        if patched.Err? {
          assert reference[..] == before;
          return Err(patched.failure);
        }
        RunPatched(R0, before, reference[..], i, patched.value);
        ReferenceGapsExtend(R0, Q0, before, reference[..], i, patched.value);
        QueryGapsOppositeReferenceRun(R0, Q0, query[..], i, patched.value);
        return Ok(patched.value);
      }
      ReferenceGapsExtend(R0, Q0, reference[..], reference[..], i, i);
      return Ok(i);
    }

    /** The query half of one step of PatchColorspaceGaps, at the position the reference half reached; returns the position it reaches. */
    method PatchQueryStep(reference: array<char>, query: array<char>, window: seq<char>, i: nat, ghost R0: seq<char>, ghost Q0: seq<char>)
      returns (r: Result<nat>)
      requires Valid() && GapsReady(window, query.Length)
      requires reference != query && reference.Length == query.Length < U16_LIMIT && i < reference.Length
      requires UntouchedFrom(R0, reference[..], i + 1) && UntouchedFrom(Q0, query[..], i)
      requires ReferenceGapsJustified(R0, Q0, reference[..], i + 1) && QueryGapsJustified(R0, Q0, query[..], i)
      requires ChangedOnlyAtRuns(Q0, query[..])
      modifies this, query
      ensures Valid()
      ensures ChangedOnlyAtRuns(Q0, query[..])
      ensures r.Ok? ==> i <= r.value < reference.Length
      ensures r.Ok? ==> UntouchedFrom(R0, reference[..], r.value + 1) && UntouchedFrom(Q0, query[..], r.value + 1)
      ensures r.Ok? ==> ReferenceGapsJustified(R0, Q0, reference[..], r.value + 1) && QueryGapsJustified(R0, Q0, query[..], r.value + 1)
      ensures r.Ok? ==> StepPatched(GapPatcher(basespace, colorspace, window, gaps.counts[..]), old(query[..]), old(query[..]), i) ==
                          Ok((query[..], r.value))
      ensures r.Err? ==> StepPatched(GapPatcher(basespace, colorspace, window, gaps.counts[..]), old(query[..]), old(query[..]), i) ==
                           Err(r.failure)
    {
      if query[i] == '-' {
        ghost var before := query[..];
        var patched := PatchColorspaceGap(query, query, window, i);
        GapPatcherPatches(basespace, colorspace, window, gaps.counts[..], before, before, i);
        if patched.Err? {
          assert query[..] == before;
          return Err(patched.failure);
        }
        RunPatched(Q0, before, query[..], i, patched.value);
        QueryGapsExtend(R0, Q0, before, query[..], i, patched.value);
        ReferenceGapsOppositeQueryRun(R0, Q0, reference[..], before, i, patched.value);
        return Ok(patched.value);
      }
      QueryGapsExtend(R0, Q0, query[..], query[..], i, i);
      return Ok(i);
    }

    /** The mismatch run GetMismatchRegion yields before a lone identity run starting at `first`, if any. */
    method GetLeftFlank(window: seq<char>, ref: seq<char>, qry: seq<char>, first: nat) returns (r: Result<(seq<char>, seq<char>)>)
      requires Valid() && GapsReady(window, |qry|) && |ref| == |qry| < U16_LIMIT && first < |qry|
      modifies this
      ensures Valid() && csMap == old(csMap)
      ensures r.Ok? ==> r == LeftFlank(basespace, window, gaps.counts[..], ref, qry, first)
      ensures (0 < first ==> MismatchRegionDecodes(basespace, window, gaps.counts[..], ref, qry, 0, first - 1)) ==> r.Ok?
    {
      if first == 0 {
        return Ok(([], []));
      }
      r := GetMismatchRegion(window, ref, qry, 0, first - 1, false);
    }

    /** The mismatch run GetMismatchRegion yields after a lone identity run ending at `last`, if any. */
    method GetRightFlank(window: seq<char>, ref: seq<char>, qry: seq<char>, last: nat) returns (r: Result<(seq<char>, seq<char>)>)
      requires Valid() && GapsReady(window, |qry|) && |ref| == |qry| < U16_LIMIT && last < |qry|
      modifies this
      ensures Valid() && csMap == old(csMap)
      ensures r.Ok? ==> r == RightFlank(basespace, window, gaps.counts[..], ref, qry, last)
      ensures (last < |qry| - 1 ==> MismatchRegionDecodes(basespace, window, gaps.counts[..], ref, qry, last + 1, |qry| - 1)) ==> r.Ok?
    {
      if last == |qry| - 1 {
        return Ok(([], []));
      }
      r := GetMismatchRegion(window, ref, qry, last + 1, |qry| - 1, true);
    }

    /** The one-region branch of ConvertAlignmentToBasespace. */
    method ConvertSingleRegion(window: seq<char>, ref: seq<char>, qry: seq<char>, region: Region)
      returns (r: Result<(seq<char>, seq<char>)>)
      requires Valid() && GapsReady(window, |qry|) && |ref| == |qry| < U16_LIMIT
      requires 1 <= region.Length && End(region) <= |qry|
      modifies this
      ensures Valid() && csMap == old(csMap)
      ensures r.Ok? ==> r == SingleRegionBases(basespace, window, gaps.counts[..], ref, qry, region)
      ensures SingleRegionDecodes(basespace, window, gaps.counts[..], ref, qry, region) ==> r.Ok?
    {
      ghost var g := gaps.counts[..];
      var matchBegin := region.Begin as nat;
      var matchEnd := End(region) - 1;
      var matched := GetMatchRegion(window, qry, matchBegin, matchEnd);
      if matched.Err? {
        return Err(matched.failure);
      }
      assert gaps.counts[..] == g;
      var left := GetLeftFlank(window, ref, qry, matchBegin);
      if left.Err? {
        return Err(left.failure);
      }
      assert gaps.counts[..] == g;
      var right := GetRightFlank(window, ref, qry, matchEnd);
      if right.Err? {
        return Err(right.failure);
      }
      assert gaps.counts[..] == g;
      SingleRegionIs(basespace, window, g, ref, qry, region, matched.value, left.value, right.value);
      return Ok(Joined(Joined(left.value, matched.value), right.value));
    }

    /**
     * One iteration of the several-region loop: the mismatch run between
     * identity runs k and k + 1, then run k, emitted as run k followed by the
     * mismatch run when that run has bases.
     */
    method GetStep(window: seq<char>, ref: seq<char>, qry: seq<char>, rv: seq<Region>, k: nat)
      returns (r: Result<(seq<char>, seq<char>)>)
      requires Valid() && GapsReady(window, |qry|) && |ref| == |qry| < U16_LIMIT
      requires RegionsInside(rv, |qry|, |qry| + 1) && RegionsOrdered(rv) && k + 1 < |rv|
      modifies this
      ensures Valid() && csMap == old(csMap)
      ensures r.Ok? ==> r == Step(basespace, window, gaps.counts[..], ref, qry, rv, k)
    {
      ghost var g := gaps.counts[..];
      var previous := rv[k];
      var mismatchBegin := End(previous);
      var mismatchEnd := rv[k + 1].Begin as nat - 1;
      var mismatched := GetMismatchRegion(window, ref, qry, mismatchBegin, mismatchEnd, false);
      if mismatched.Err? {
        return Err(mismatched.failure);
      }
      assert gaps.counts[..] == g;
      ghost var mm := mismatched.value;
      assert MismatchRegion(basespace, window, g, ref, qry, mismatchBegin, mismatchEnd, false) == Ok(mm);
      var matched := GetMatchRegion(window, qry, previous.Begin as nat, End(previous) - 1);
      if matched.Err? {
        return Err(matched.failure);
      }
      assert gaps.counts[..] == g;
      assert GapsFit(window, g, |qry|);
      assert MatchRegion(basespace, window, g, qry, rv[k].Begin as nat, End(rv[k]) - 1) == Ok(matched.value);
      StepIs(basespace, window, g, ref, qry, rv, k, mm, matched.value);
      var refSB := matched.value.0;
      var qrySB := matched.value.1;
      if |mismatched.value.1| > 0 {
        refSB := refSB + mismatched.value.0;
        qrySB := qrySB + mismatched.value.1;
      } else {
        assert refSB + mismatched.value.0 == refSB && qrySB + mismatched.value.1 == qrySB;
      }
      return Ok((refSB, qrySB));
    }

    /** The loop of the several-region branch: one step per identity run but the last, stopping at the first failure. */
    method ConvertSteps(window: seq<char>, ref: seq<char>, qry: seq<char>, rv: seq<Region>, ghost g: seq<int>)
      returns (r: Result<(seq<char>, seq<char>)>)
      requires Valid() && GapsReady(window, |qry|) && |ref| == |qry| < U16_LIMIT && gaps.counts[..] == g
      requires RegionsInside(rv, |qry|, |qry| + 1) && RegionsOrdered(rv) && 2 <= |rv|
      modifies this
      ensures Valid() && csMap == old(csMap) && gaps.counts[..] == g
      ensures r.Ok? ==> r == StepBases(basespace, window, g, ref, qry, rv, |rv| - 1)
    {
      var refSB: seq<char> := [];
      var qrySB: seq<char> := [];
      var n := 0;
      while n < |rv| - 1
        invariant 0 <= n <= |rv| - 1
        invariant Valid() && csMap == old(csMap) && gaps.counts[..] == g
        invariant StepBases(basespace, window, g, ref, qry, rv, n) == Ok((refSB, qrySB))
      {
        var step := GetStep(window, ref, qry, rv, n);
        if step.Err? {
          return Err(step.failure);
        }
        StepBasesGrow(basespace, window, g, ref, qry, rv, n, (refSB, qrySB), step.value);
        refSB := refSB + step.value.0;
        qrySB := qrySB + step.value.1;
        n := n + 1;
      }
      return Ok((refSB, qrySB));
    }

    /** The bases of the last identity run, shifted by the reference gaps before it. */
    method GetFinalMatch(window: seq<char>, qry: seq<char>, rv: seq<Region>, ghost g: seq<int>)
      returns (r: Result<(seq<char>, seq<char>)>)
      requires Valid() && GapsReady(window, |qry|) && |qry| < U16_LIMIT && gaps.counts[..] == g
      requires RegionsInside(rv, |qry|, |qry| + 1) && 1 <= |rv|
      modifies this
      ensures Valid() && csMap == old(csMap) && gaps.counts[..] == g
      ensures r.Ok? ==> r == MatchRegion(basespace, window, g, qry, rv[|rv| - 1].Begin as nat, End(rv[|rv| - 1]) - 1)
    {
      assert 1 <= rv[|rv| - 1].Length && End(rv[|rv| - 1]) <= |qry|;
      r := GetMatchRegion(window, qry, rv[|rv| - 1].Begin as nat, End(rv[|rv| - 1]) - 1);
    }

    /** The several-region branch of ConvertAlignmentToBasespace. */
    method ConvertSeveralRegions(window: seq<char>, ref: seq<char>, qry: seq<char>, rv: seq<Region>, ghost g: seq<int>)
      returns (r: Result<(seq<char>, seq<char>)>)
      requires Valid() && GapsReady(window, |qry|) && |ref| == |qry| < U16_LIMIT && gaps.counts[..] == g
      requires RegionsInside(rv, |qry|, |qry| + 1) && RegionsOrdered(rv) && 2 <= |rv|
      modifies this
      ensures Valid() && csMap == old(csMap) && gaps.counts[..] == g
      ensures r.Ok? ==> r == ConvertedBases(basespace, window, g, ref, qry, rv)
    {
      var steps := ConvertSteps(window, ref, qry, rv, g);
      if steps.Err? {
        return Err(steps.failure);
      }
      var matched := GetFinalMatch(window, qry, rv, g);
      if matched.Err? {
        return Err(matched.failure);
      }
      SeveralRegionsAre(basespace, window, g, ref, qry, rv, steps, matched);
      return Ok(Joined(steps.value, matched.value));
    }

    /**
     * ConvertAlignmentToBasespace: records the reference gaps, patches the gap
     * runs when any position is gapped, rebuilds the basespace reference and
     * query from the identity regions of the patched alignment, counts their
     * mismatches, remaps the qualities to bases and moves both ends one base
     * on. The patched strings and the regions are returned as ghosts so that
     * the result can be stated against them.
     */
    method ConvertAlignmentToBasespace(al: Alignment, references: seq<seq<char>>)
      returns (r: Result<Alignment>, ghost patchedRef: seq<char>, ghost patchedQry: seq<char>, ghost rv: seq<Region>)
      requires Valid()
      requires al.ReferenceIndex as nat < |references| && |al.Query| == |al.Reference|
      requires |al.Reference| + ARRAY_EXTENSION < U16_LIMIT && |al.BaseQualities| < U16_LIMIT
      requires al.ReferenceBegin as nat + |al.Reference| < |references[al.ReferenceIndex]|
      modifies this, gaps, gaps.counts
      ensures Valid()
      ensures gaps.counts.Length >= |al.Reference|
      ensures forall i :: 0 <= i < |al.Reference| ==> gaps.counts[i] as int == GapCount(al.Reference[..i])
      ensures r.Ok? ==> !HasGap(al.Reference, al.Query) ==> patchedRef == al.Reference && patchedQry == al.Query
      ensures r.Ok? ==> PatchedAlignment(al.Reference, al.Query, patchedRef, patchedQry)
      ensures GapsFit(GenomeWindow(al, references), gaps.counts[..], |al.Query|)
      ensures var patched := PatchedFrom(GapPatcher(basespace, colorspace, GenomeWindow(al, references), gaps.counts[..]), al.Reference, al.Query, 0);
              (patched.Err? ==> r == Err(patched.failure)) && (r.Ok? ==> (patchedRef, patchedQry) == patched.value)
      ensures ConvertedAs(basespace, ambiguitySet, al, GenomeWindow(al, references), gaps.counts[..], patchedRef, patchedQry, rv, r)
      ensures |al.BaseQualities| == 0 ==> r.Err?
      ensures ExactColorspaceAlignment(al, GenomeWindow(al, references)) && 1 <= |al.BaseQualities| ==>
                r.Ok? && r.value.Reference == r.value.Query == GenomeWindow(al, references)[..|al.Reference| + 1] &&
                r.value.NumMismatches == 0
    {
      var window := GenomeWindow(al, references);
      ghost var exact := ExactColorspaceAlignment(al, window);
      if exact {
        assert !HasGap(al.Reference, al.Query);
      }
      var patched := PatchAlignment(window, al.Reference, al.Query);
      if patched.Err? {
        return Err(patched.failure), al.Reference, al.Query, [];
      }
      var (reference, query) := patched.value;
      patchedRef, patchedQry := reference, query;
      r, rv := ConvertPatched(al, window, reference, query);
      if exact && 1 <= |al.BaseQualities| {
        forall i | 0 <= i < |al.Reference|
          ensures gaps.counts[i] == 0
        {
          GapCountWithoutGaps(al.Reference[..i]);
        }
      }
    }

    /**
     * The stages of ConvertAlignmentToBasespace after the gaps are patched:
     * the basespace strings rebuilt from the identity regions, then the
     * finished alignment.
     */
    method ConvertPatched(al: Alignment, window: seq<char>, reference: seq<char>, query: seq<char>)
      returns (r: Result<Alignment>, ghost rv: seq<Region>)
      requires Valid() && GapsReady(window, |query|) && |reference| == |query| < U16_LIMIT - 1 && |al.BaseQualities| < U16_LIMIT
      modifies this
      ensures Valid()
      ensures IdentityRegions(reference, query, rv)
      ensures ConvertedAs(basespace, ambiguitySet, al, window, gaps.counts[..], reference, query, rv, r)
      ensures |al.BaseQualities| == 0 ==> r.Err?
      ensures |rv| == 1 && SingleRegionDecodes(basespace, window, gaps.counts[..], reference, query, rv[0]) && 1 <= |al.BaseQualities| ==>
                r.Ok?
      ensures ExactColorspaceAlignment(al, window) && 1 <= |al.BaseQualities| && reference == al.Reference && query == al.Query &&
              NoGaps(gaps.counts[..], |query|) ==>
                r.Ok? && r.value.Reference == r.value.Query == window[..|al.Reference| + 1] && r.value.NumMismatches == 0
    {
      var bases;
      bases, rv := ConvertRegions(window, reference, query);
      if bases.Err? {
        r := Err(bases.failure);
      } else {
        r := FinishAlignment(al, bases.value.0, bases.value.1);
      }
      if ExactColorspaceAlignment(al, window) && 1 <= |al.BaseQualities| && reference == al.Reference && query == al.Query &&
         NoGaps(gaps.counts[..], |query|) {
        ExactAlignmentFinishes(basespace, ambiguitySet, al, window, gaps.counts[..], rv, r);
      }
    }

    /**
     * The gap stage of ConvertAlignmentToBasespace: UpdateObservedGaps over
     * the pairwise strings, then PatchColorspaceGaps on copies of them when
     * some position is gapped.
     */
    method PatchAlignment(window: seq<char>, alRef: seq<char>, alQry: seq<char>) returns (r: Result<(seq<char>, seq<char>)>)
      requires Valid() && |alRef| == |alQry| && |alRef| + ARRAY_EXTENSION < U16_LIMIT && |alRef| < |window|
      modifies this, gaps, gaps.counts
      ensures Valid()
      ensures gaps.counts.Length >= |alRef|
      ensures forall i :: 0 <= i < |alRef| ==> gaps.counts[i] as int == GapCount(alRef[..i])
      ensures GapsReady(window, |alRef|)
      ensures !HasGap(alRef, alQry) ==> r == Ok((alRef, alQry))
      ensures r.Ok? ==> PatchedAlignment(alRef, alQry, r.value.0, r.value.1)
      ensures r == PatchedFrom(GapPatcher(basespace, colorspace, window, gaps.counts[..]), alRef, alQry, 0)
    {
      var pairwiseLen := |alRef|;
      var reference := new char[pairwiseLen](i requires 0 <= i < pairwiseLen => alRef[i]);
      var query := new char[pairwiseLen](i requires 0 <= i < pairwiseLen => alQry[i]);
      assert reference[..] == alRef && query[..] == alQry;
      var hasGaps := gaps.Update(reference[..], query[..]);
      assert GapsReady(window, pairwiseLen);
      if !hasGaps {
        NothingToPatch(alRef, alQry);
        GapFreeNotPatched(GapPatcher(basespace, colorspace, window, gaps.counts[..]), alRef, alQry, 0);
        return Ok((alRef, alQry));
      }
      var patched := PatchColorspaceGaps(reference, query, window);
      if patched.Err? {
        return Err(patched.failure);
      }
      return Ok((reference[..], query[..]));
    }

    /**
     * The last stages of ConvertAlignmentToBasespace once the basespace
     * reference and query are built: the mismatch count, the quality
     * remapping and the end coordinates.
     */
    method FinishAlignment(al: Alignment, bsReference: seq<char>, bsQuery: seq<char>) returns (r: Result<Alignment>)
      requires |bsReference| == |bsQuery| < U16_LIMIT && |al.BaseQualities| < U16_LIMIT
      ensures r == Finished(ambiguitySet, al, bsReference, bsQuery)
    {
      var referenceEnd := (al.ReferenceEnd as int + 1) % U32_LIMIT;
      var queryEnd := (al.QueryEnd as int + 1) % U16_LIMIT;
      var queryLength := (queryEnd - al.QueryBegin as int + 1) % U16_LIMIT;
      var numMismatches := CountMismatches(bsReference, bsQuery);
      if |al.BaseQualities| == 0 {
        return Err(Undefined("no colour quality to remap"));
      }
      var bsQualities := RemapQualities(al.BaseQualities);
      EndsAdvancedFields(al, referenceEnd, queryEnd, queryLength);
      var ended := al.(ReferenceEnd := referenceEnd, QueryEnd := queryEnd, QueryLength := queryLength);
      r := Ok(ended.(Reference := bsReference, Query := bsQuery, NumMismatches := numMismatches,
                     BaseQualities := bsQualities[..]));
    }

    /**
     * The region stage of ConvertAlignmentToBasespace: finds the identity
     * regions of the patched alignment and rebuilds the basespace reference
     * and query from them.
     */
    method ConvertRegions(window: seq<char>, ref: seq<char>, qry: seq<char>)
      returns (r: Result<(seq<char>, seq<char>)>, ghost rv: seq<Region>)
      requires Valid() && GapsReady(window, |qry|) && |ref| == |qry| < U16_LIMIT - 1
      modifies this
      ensures Valid() && csMap == old(csMap)
      ensures IdentityRegions(ref, qry, rv)
      ensures r.Ok? ==> r == ConvertedBases(basespace, window, gaps.counts[..], ref, qry, rv)
      ensures |rv| == 1 && SingleRegionDecodes(basespace, window, gaps.counts[..], ref, qry, rv[0]) ==> r.Ok?
    {
      var regions := FindIdenticalRegions(ref, qry);
      rv := regions;
      if |regions| == 0 {
        return Err(Undefined("no identity region to iterate from")), rv;
      }
      if |regions| == 1 {
        r := ConvertSingleRegion(window, ref, qry, regions[0]);
        return r, rv;
      }
      r := ConvertSeveralRegions(window, ref, qry, regions, gaps.counts[..]);
    }

    /** The mismatch count of ConvertAlignmentToBasespace, over the basespace reference and query. */
    method CountMismatches(reference: seq<char>, query: seq<char>) returns (numMismatches: u16)
      requires |reference| == |query| < U16_LIMIT
      ensures numMismatches as int == AmbiguityMismatches(ambiguitySet, reference, query)
    {
      numMismatches := 0;
      var i := 0;
      while i < |reference|
        invariant 0 <= i <= |reference|
        invariant numMismatches as int == AmbiguityMismatches(ambiguitySet, reference[..i], query)
      {
        assert reference[..i + 1][..i] == reference[..i];
        if SortedPair(reference[i], query[i]) !in ambiguitySet {
          numMismatches := numMismatches + 1;
        }
        i := i + 1;
      }
      assert reference[..i] == reference;
    }
  }
}
