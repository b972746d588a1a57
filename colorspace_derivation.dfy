/**
 * Reference definitions for the main colorspace utilities: std::map reads
 * through operator[], the walk of a colour string through the basespace
 * table, and the derivation of a base at an alignment position from the
 * genome and the query colours, together with the theorems saying that on a
 * faithful colour read the derivation recovers the read's own bases.
 */
module ColorspaceDerivation {
  import opened Outcome
  import opened ColorspaceHeader
  import opened ColorspaceTables
  import opened ColorspaceTranscoding
  import opened ColorspaceAlignment

  /** std::map::operator[] as a read: the stored value, or the '\0' it default-inserts. */
  function Lookup(m: map<(char, char), char>, key: (char, char)): char
  {
    if key in m then m[key] else '\0'
  }

  /** The map after operator[] on `key`: unchanged when present, otherwise holding '\0' there. */
  function WithDefault(m: map<(char, char), char>, key: (char, char)): (m': map<(char, char), char>)
    ensures key in m' && m.Keys <= m'.Keys
    ensures forall k :: Lookup(m', k) == Lookup(m, k)
  {
    if key in m then m else m[key := '\0']
  }

  /** A table holds its initial entries plus keys that operator[] inserted with '\0'. */
  ghost predicate ExtendsWithDefaults(m: map<(char, char), char>, initial: map<(char, char), char>)
  {
    initial.Keys <= m.Keys && forall k :: k in m ==> m[k] == Lookup(initial, k)
  }

  /** Reads through operator[] see only the initial contents. */
  lemma LookupThroughDefaults(m: map<(char, char), char>, initial: map<(char, char), char>, key: (char, char))
    requires ExtendsWithDefaults(m, initial)
    ensures Lookup(m, key) == Lookup(initial, key)
    ensures ExtendsWithDefaults(WithDefault(m, key), initial)
  {
  }

  /** The bases walked from a seed through the colours, reading the table with operator[]. */
  function Transcribed(table: map<(char, char), char>, seed: char, colours: seq<char>): (bases: seq<char>)
    ensures |bases| == |colours|
    ensures |colours| > 0 ==> bases[0] == Lookup(table, (seed, colours[0]))
    ensures forall i :: 0 < i < |colours| ==> bases[i] == Lookup(table, (bases[i - 1], colours[i]))
    decreases |colours|
  {
    if |colours| == 0 then []
    else
      var next := Lookup(table, (seed, colours[0]));
      var rest := Transcribed(table, next, colours[1..]);
      assert forall i :: 1 < i < |colours| ==> colours[1..][i - 1] == colours[i];
      [next] + rest
  }

  /** A successful find-based decode through a grown table yields the walk through the initial one. */
  lemma {:induction false} DecodedThroughDefaults(m: map<(char, char), char>, initial: map<(char, char), char>, seed: char, colours: seq<char>)
    requires ExtendsWithDefaults(m, initial) && Decodable(m, seed, colours)
    ensures Decoded(m, seed, colours) == Transcribed(initial, seed, colours)
    decreases |colours|
  {
    if |colours| > 0 {
      DecodedThroughDefaults(m, initial, m[(seed, colours[0])], colours[1..]);
    }
  }

  /** Whatever decodes through the initial table also decodes through a grown one. */
  lemma {:induction false} DecodableThroughDefaults(m: map<(char, char), char>, initial: map<(char, char), char>, seed: char, colours: seq<char>)
    requires ExtendsWithDefaults(m, initial) && Decodable(initial, seed, colours)
    ensures Decodable(m, seed, colours)
    decreases |colours|
  {
    if |colours| > 0 {
      DecodableThroughDefaults(m, initial, initial[(seed, colours[0])], colours[1..]);
    }
  }

  // ---------------------------------------------------------------------------
  // Positions of a pairwise alignment against the genome
  // ---------------------------------------------------------------------------

  /** The genome base under pairwise position i, shifted left by the reference gaps before it. */
  function GappedBase(window: seq<char>, g: seq<int>, qry: seq<char>, i: nat): char
    requires GapsFit(window, g, |qry|) && i < |qry|
  {
    window[i - g[i]]
  }

  /** The query colour at pairwise position i, read at the gap-shifted index. */
  function GappedColour(g: seq<int>, qry: seq<char>, i: nat): char
    requires i < |qry| <= |g| && 0 <= g[i] <= i
  {
    qry[i - g[i]]
  }

  /** The nearest position at or before i whose genome base is canonical. */
  function LastCanonical(window: seq<char>, g: seq<int>, qry: seq<char>, i: nat): (k: Option<nat>)
    requires GapsFit(window, g, |qry|) && i < |qry|
    ensures k.Some? ==> k.value <= i && IsCanonicalBase(GappedBase(window, g, qry, k.value))
    ensures k.Some? ==> forall j :: k.value < j <= i ==> !IsCanonicalBase(GappedBase(window, g, qry, j))
    ensures k.None? ==> forall j :: 0 <= j <= i ==> !IsCanonicalBase(GappedBase(window, g, qry, j))
    decreases i
  {
    if IsCanonicalBase(GappedBase(window, g, qry, i)) then Some(i)
    else if i == 0 then None
    else LastCanonical(window, g, qry, i - 1)
  }

  /**
   * A later position that can seed a backward walk: its genome base is
   * canonical and the colour before it is usable, that is not a gap or, when
   * `strict`, a canonical letter.
   */
  predicate Usable(window: seq<char>, g: seq<int>, qry: seq<char>, i: nat, strict: bool)
    requires GapsFit(window, g, |qry|) && 1 <= i < |qry|
  {
    var colour := GappedColour(g, qry, i - 1);
    IsCanonicalBase(GappedBase(window, g, qry, i)) && (if strict then IsCanonicalBase(colour) else colour != '-')
  }

  /** The first usable position from i to the last pairwise position. */
  function FirstUsable(window: seq<char>, g: seq<int>, qry: seq<char>, i: nat, strict: bool): (k: Option<nat>)
    requires GapsFit(window, g, |qry|) && 1 <= i < |qry|
    ensures k.Some? ==> i <= k.value < |qry| && Usable(window, g, qry, k.value, strict)
    ensures k.Some? ==> forall j :: i <= j < k.value ==> !Usable(window, g, qry, j, strict)
    ensures k.None? ==> forall j :: i <= j < |qry| ==> !Usable(window, g, qry, j, strict)
    decreases |qry| - i
  {
    if Usable(window, g, qry, i, strict) then Some(i)
    else if i == |qry| - 1 then None
    else FirstUsable(window, g, qry, i + 1, strict)
  }

  /** The base reached from `base` at position `start` by decoding the simplified query colours up to `stop`. */
  function WalkForward(table: map<(char, char), char>, base: char, qry: seq<char>, start: nat, stop: nat): char
    requires start <= stop <= |qry|
    decreases stop
  {
    if stop == start then base
    else Lookup(table, (WalkForward(table, base, qry, start, stop - 1), GetSimplifiedBase(qry[stop - 1])))
  }

  /**
   * The base reached from `base` at position `start` by walking back to `stop`,
   * decoding each gap-shifted query colour that is not a gap.
   */
  function WalkBackward(table: map<(char, char), char>, base: char, g: seq<int>, qry: seq<char>, start: nat, stop: nat): char
    requires stop <= start <= |qry| <= |g| && forall i :: 0 <= i < |qry| ==> 0 <= g[i] <= i
    decreases start - stop
  {
    if stop == start then base
    else
      var previous := WalkBackward(table, base, g, qry, start, stop + 1);
      var colour := GappedColour(g, qry, stop);
      if colour != '-' then Lookup(table, (previous, GetSimplifiedBase(colour))) else previous
  }

  /**
   * DeriveBase: the genome base at position 0; otherwise the gap-shifted
   * genome base when canonical; otherwise a walk forward from the nearest
   * earlier canonical genome base, or else a walk back from the first usable
   * later one; failing both, a fatal error.
   */
  function DerivedBase(table: map<(char, char), char>, window: seq<char>, g: seq<int>, qry: seq<char>, pos: nat): Result<char>
    requires GapsFit(window, g, |qry|) && pos < |qry|
  {
    if pos == 0 then Ok(window[0])
    else if IsCanonicalBase(GappedBase(window, g, qry, pos)) then Ok(GappedBase(window, g, qry, pos))
    else match LastCanonical(window, g, qry, pos - 1)
      case Some(k) => Ok(WalkForward(table, GappedBase(window, g, qry, k), qry, k, pos))
      case None =>
        if pos < |qry| - 1 then
          match FirstUsable(window, g, qry, pos + 1, false)
          case Some(k) => Ok(WalkBackward(table, GappedBase(window, g, qry, k), g, qry, k, pos))
          case None => Err(Fatal("unable to derive the base"))
        else Err(Fatal("unable to derive the base"))
  }

  /**
   * DeriveBeginQueryBase: the first genome base when canonical; otherwise a
   * walk back to position 0 from the first later position whose genome base
   * and preceding colour are both canonical. A one-position alignment sends
   * the search past the end of the strings.
   */
  function BeginQueryBase(table: map<(char, char), char>, window: seq<char>, g: seq<int>, qry: seq<char>): Result<char>
    requires GapsFit(window, g, |qry|)
  {
    if IsCanonicalBase(window[0]) then Ok(window[0])
    else if |qry| < 2 then Err(Undefined("search for a canonical base runs past a one-position alignment"))
    else match FirstUsable(window, g, qry, 1, true)
      case Some(k) => Ok(WalkBackward(table, GappedBase(window, g, qry, k), g, qry, k, 0))
      case None => Err(Fatal("unable to derive the base at the beginning of the alignment"))
  }

  // ---------------------------------------------------------------------------
  // Faithful colour reads
  // ---------------------------------------------------------------------------

  /** The query colours are the transitions between consecutive canonical bases of `bases`. */
  ghost predicate ColoursOf(bases: seq<char>, qry: seq<char>)
  {
    |bases| == |qry| + 1 &&
    (forall i :: 0 <= i < |bases| ==> IsCanonicalBase(bases[i])) &&
    (forall i :: 0 <= i < |qry| ==> qry[i] == Lookup(InitialColorspaceMap(), (bases[i], bases[i + 1])))
  }

  /** Every canonical genome base in the first n positions is the read's base there. */
  ghost predicate GenomeAgrees(window: seq<char>, bases: seq<char>, n: nat)
    requires n <= |window| && n <= |bases|
  {
    forall i :: 0 <= i < n && IsCanonicalBase(window[i]) ==> window[i] == bases[i]
  }

  /** No position is preceded by a reference gap. */
  ghost predicate NoGaps(g: seq<int>, n: nat)
    requires n <= |g|
  {
    forall i :: 0 <= i < n ==> g[i] == 0
  }

  /** The colour between two canonical bases is a canonical letter, and decodes in both directions. */
  lemma TransitionDecodes(x: char, y: char)
    requires IsCanonicalBase(x) && IsCanonicalBase(y)
    ensures IsCanonicalBase(Lookup(InitialColorspaceMap(), (x, y)))
    ensures Lookup(InitialBasespaceMap(), (x, Lookup(InitialColorspaceMap(), (x, y)))) == y
    ensures Lookup(InitialBasespaceMap(), (y, Lookup(InitialColorspaceMap(), (x, y)))) == x
  {
    DecodeInvertsEncode(x, y);
    DecodeInvertsEncode(y, x);
    ColorspaceMapSymmetric(x, y);
  }

  /**
   * Every colour of `qry` is a non-gap that `table` decodes from either of
   * the bases around it into the other.
   */
  ghost predicate DecodesBothWays(table: map<(char, char), char>, bases: seq<char>, qry: seq<char>)
  {
    |bases| == |qry| + 1 &&
    forall i :: 0 <= i < |qry| ==>
      qry[i] != '-' && GetSimplifiedBase(qry[i]) == qry[i] &&
      Lookup(table, (bases[i], GetSimplifiedBase(qry[i]))) == bases[i + 1] &&
      Lookup(table, (bases[i + 1], GetSimplifiedBase(qry[i]))) == bases[i]
  }

  /** The basespace table decodes the colours of a canonical sequence in both directions. */
  lemma ColoursDecodeBothWays(bases: seq<char>, qry: seq<char>)
    requires ColoursOf(bases, qry)
    ensures DecodesBothWays(InitialBasespaceMap(), bases, qry)
  {
    forall i | 0 <= i < |qry|
      ensures qry[i] != '-' && GetSimplifiedBase(qry[i]) == qry[i]
      ensures Lookup(InitialBasespaceMap(), (bases[i], GetSimplifiedBase(qry[i]))) == bases[i + 1]
      ensures Lookup(InitialBasespaceMap(), (bases[i + 1], GetSimplifiedBase(qry[i]))) == bases[i]
    {
      TransitionDecodes(bases[i], bases[i + 1]);
      CanonicalBasesAreFixed(qry[i]);
    }
  }

  /** Walking forward through colours that decode both ways visits the bases. */
  lemma {:induction false} WalkForwardFollowsBases(table: map<(char, char), char>, bases: seq<char>, qry: seq<char>, start: nat, stop: nat)
    requires DecodesBothWays(table, bases, qry) && start <= stop <= |qry|
    ensures WalkForward(table, bases[start], qry, start, stop) == bases[stop]
    decreases stop
  {
    if stop > start {
      WalkForwardFollowsBases(table, bases, qry, start, stop - 1);
    }
  }

  /** Walking back through colours that decode both ways, with no reference gaps, visits the bases. */
  lemma {:induction false} WalkBackwardFollowsBases(table: map<(char, char), char>, bases: seq<char>, g: seq<int>, qry: seq<char>, start: nat, stop: nat)
    requires DecodesBothWays(table, bases, qry) && stop <= start <= |qry| <= |g| && NoGaps(g, |qry|)
    ensures WalkBackward(table, bases[start], g, qry, start, stop) == bases[stop]
    decreases start - stop
  {
    if stop < start {
      WalkBackwardFollowsBases(table, bases, g, qry, start, stop + 1);
      assert GappedColour(g, qry, stop) == qry[stop];
    }
  }

  /** Transcribing colours that decode both ways from the first base yields the rest of the bases. */
  lemma {:induction false} TranscribedFollowsBases(table: map<(char, char), char>, bases: seq<char>, qry: seq<char>, start: nat, stop: nat)
    requires DecodesBothWays(table, bases, qry) && start <= stop <= |qry|
    ensures Transcribed(table, bases[start], qry[start..stop]) == bases[start + 1..stop + 1]
    decreases stop - start
  {
    if start < stop {
      assert qry[start..stop][1..] == qry[start + 1..stop];
      TranscribedFollowsBases(table, bases, qry, start + 1, stop);
    }
  }

  /** With no usable position from i on, a faithful read's genome has no canonical base from i on. */
  lemma NoUsableMeansNoCanonical(bases: seq<char>, window: seq<char>, g: seq<int>, qry: seq<char>, i: nat, strict: bool)
    requires GapsFit(window, g, |qry|) && NoGaps(g, |qry|) && ColoursOf(bases, qry)
    requires 1 <= i < |qry| && FirstUsable(window, g, qry, i, strict).None?
    ensures forall j :: i <= j < |qry| ==> !IsCanonicalBase(window[j])
  {
    forall j | i <= j < |qry| ensures !IsCanonicalBase(window[j]) {
      assert GappedBase(window, g, qry, j) == window[j];
      assert GappedColour(g, qry, j - 1) == qry[j - 1];
      TransitionColourCanonical(bases[j - 1], bases[j]);
      assert !Usable(window, g, qry, j, strict);
    }
  }

  /** With no canonical position up to i, the genome has no canonical base up to i. */
  lemma NoCanonicalBefore(window: seq<char>, g: seq<int>, qry: seq<char>, i: nat)
    requires GapsFit(window, g, |qry|) && NoGaps(g, |qry|)
    requires i < |qry| && LastCanonical(window, g, qry, i).None?
    ensures forall j :: 0 <= j <= i ==> !IsCanonicalBase(window[j])
  {
    forall j | 0 <= j <= i ensures !IsCanonicalBase(window[j]) {
      assert GappedBase(window, g, qry, j) == window[j];
    }
  }

  /** The colour between two canonical bases is a canonical letter. */
  lemma TransitionColourCanonical(x: char, y: char)
    requires IsCanonicalBase(x) && IsCanonicalBase(y)
    ensures IsCanonicalBase(Lookup(InitialColorspaceMap(), (x, y)))
  {
  }

  /**
   * On a faithful colour read with no reference gaps, DeriveBase recovers the
   * read's base at every inner position, and succeeds whenever the genome
   * has a canonical base anywhere under the alignment.
   */
  lemma DerivedBaseRecoversRead(bases: seq<char>, window: seq<char>, g: seq<int>, qry: seq<char>, pos: nat)
    requires GapsFit(window, g, |qry|) && NoGaps(g, |qry|)
    requires ColoursOf(bases, qry) && GenomeAgrees(window, bases, |qry|)
    requires 0 < pos < |qry|
    ensures DerivedBase(InitialBasespaceMap(), window, g, qry, pos).Ok? ==>
              DerivedBase(InitialBasespaceMap(), window, g, qry, pos).value == bases[pos]
    ensures (exists j :: 0 <= j < |qry| && IsCanonicalBase(window[j])) ==>
              DerivedBase(InitialBasespaceMap(), window, g, qry, pos).Ok?
  {
    assert GappedBase(window, g, qry, pos) == window[pos];
    if !IsCanonicalBase(window[pos]) {
      if LastCanonical(window, g, qry, pos - 1).Some? {
        DerivedFromBefore(bases, window, g, qry, pos);
      } else {
        DerivedFromAfter(bases, window, g, qry, pos);
      }
    }
  }

  /** DerivedBaseRecoversRead when the genome base is not canonical and a canonical one lies before it. */
  lemma DerivedFromBefore(bases: seq<char>, window: seq<char>, g: seq<int>, qry: seq<char>, pos: nat)
    requires GapsFit(window, g, |qry|) && NoGaps(g, |qry|)
    requires ColoursOf(bases, qry) && GenomeAgrees(window, bases, |qry|)
    requires 0 < pos < |qry|
    requires !IsCanonicalBase(window[pos]) && LastCanonical(window, g, qry, pos - 1).Some?
    ensures DerivedBase(InitialBasespaceMap(), window, g, qry, pos).Ok? ==>
              DerivedBase(InitialBasespaceMap(), window, g, qry, pos).value == bases[pos]
    ensures (exists j :: 0 <= j < |qry| && IsCanonicalBase(window[j])) ==>
              DerivedBase(InitialBasespaceMap(), window, g, qry, pos).Ok?
  {
    assert GappedBase(window, g, qry, pos) == window[pos];
    var k := LastCanonical(window, g, qry, pos - 1).value;
    assert GappedBase(window, g, qry, k) == window[k];
    ColoursDecodeBothWays(bases, qry);
    WalkForwardFollowsBases(InitialBasespaceMap(), bases, qry, k, pos);
  }

  /** DerivedBaseRecoversRead when the genome base is not canonical and no canonical one lies before it. */
  lemma DerivedFromAfter(bases: seq<char>, window: seq<char>, g: seq<int>, qry: seq<char>, pos: nat)
    requires GapsFit(window, g, |qry|) && NoGaps(g, |qry|)
    requires ColoursOf(bases, qry) && GenomeAgrees(window, bases, |qry|)
    requires 0 < pos < |qry|
    requires !IsCanonicalBase(window[pos]) && LastCanonical(window, g, qry, pos - 1).None?
    ensures DerivedBase(InitialBasespaceMap(), window, g, qry, pos).Ok? ==>
              DerivedBase(InitialBasespaceMap(), window, g, qry, pos).value == bases[pos]
    ensures (exists j :: 0 <= j < |qry| && IsCanonicalBase(window[j])) ==>
              DerivedBase(InitialBasespaceMap(), window, g, qry, pos).Ok?
  {
    assert GappedBase(window, g, qry, pos) == window[pos];
    NoCanonicalBefore(window, g, qry, pos - 1);
    if pos < |qry| - 1 {
      match FirstUsable(window, g, qry, pos + 1, false)
      case Some(k) =>
        assert GappedBase(window, g, qry, k) == window[k];
        ColoursDecodeBothWays(bases, qry);
        WalkBackwardFollowsBases(InitialBasespaceMap(), bases, g, qry, k, pos);
      case None =>
        NoUsableMeansNoCanonical(bases, window, g, qry, pos + 1, false);
    }
  }

  /**
   * On a faithful colour read with no reference gaps, DeriveBeginQueryBase
   * recovers the read's first base, and succeeds whenever the genome has a
   * canonical base under the alignment and the alignment has two positions.
   */
  lemma BeginQueryBaseRecoversRead(bases: seq<char>, window: seq<char>, g: seq<int>, qry: seq<char>)
    requires GapsFit(window, g, |qry|) && NoGaps(g, |qry|)
    requires ColoursOf(bases, qry) && GenomeAgrees(window, bases, |qry|) && |qry| >= 1
    ensures BeginQueryBase(InitialBasespaceMap(), window, g, qry).Ok? ==>
              BeginQueryBase(InitialBasespaceMap(), window, g, qry).value == bases[0]
    ensures (exists j :: 0 <= j < |qry| && IsCanonicalBase(window[j])) && |qry| >= 2 ==>
              BeginQueryBase(InitialBasespaceMap(), window, g, qry).Ok?
  {
    if !IsCanonicalBase(window[0]) && |qry| >= 2 {
      match FirstUsable(window, g, qry, 1, true)
      case Some(k) =>
        assert GappedBase(window, g, qry, k) == window[k];
        ColoursDecodeBothWays(bases, qry);
        WalkBackwardFollowsBases(InitialBasespaceMap(), bases, g, qry, k, 0);
      case None =>
        NoUsableMeansNoCanonical(bases, window, g, qry, 1, true);
    }
  }
}
