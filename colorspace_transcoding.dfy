/**
 * Character-level conversions shared by both colorspace utilities: decoding a
 * colour string from a seed base through a (base, colour) table, encoding a
 * read as the colours of its transitions, and the read-level maps between
 * colour digits and pseudo-colorspace letters.
 */
module ColorspaceTranscoding {
  import opened Outcome
  import opened Bytes

  /** Every step of decoding `colours` from `seed` finds its (base, colour) pair in the table. */
  ghost predicate Decodable(table: map<(char, char), char>, seed: char, colours: seq<char>)
    decreases |colours|
  {
    |colours| == 0 ||
    ((seed, colours[0]) in table && Decodable(table, table[(seed, colours[0])], colours[1..]))
  }

  /**
   * The bases obtained by walking the colours from the seed: each base is the
   * table entry for the previous base (the seed for the first) and its colour.
   */
  function Decoded(table: map<(char, char), char>, seed: char, colours: seq<char>): (bases: seq<char>)
    requires Decodable(table, seed, colours)
    ensures |bases| == |colours|
    ensures |colours| > 0 ==> bases[0] == table[(seed, colours[0])]
    ensures forall i :: 0 < i < |colours| ==> (bases[i - 1], colours[i]) in table && bases[i] == table[(bases[i - 1], colours[i])]
    decreases |colours|
  {
    if |colours| == 0 then []
    else
      var next := table[(seed, colours[0])];
      var rest := Decoded(table, next, colours[1..]);
      assert forall i :: 1 < i < |colours| ==> colours[1..][i - 1] == colours[i];
      [next] + rest
  }

  /** Decoding a concatenation continues from the last base of the first part. */
  lemma {:induction false} DecodedAppend(table: map<(char, char), char>, seed: char, colours: seq<char>, c: char)
    requires Decodable(table, seed, colours)
    requires (if |colours| == 0 then seed else Decoded(table, seed, colours)[|colours| - 1], c) in table
    ensures Decodable(table, seed, colours + [c])
    ensures Decoded(table, seed, colours + [c]) ==
            Decoded(table, seed, colours) + [table[(if |colours| == 0 then seed else Decoded(table, seed, colours)[|colours| - 1], c)]]
    decreases |colours|
  {
    if |colours| > 0 {
      var next := table[(seed, colours[0])];
      assert (colours + [c])[1..] == colours[1..] + [c];
      DecodedAppend(table, next, colours[1..], c);
    }
  }

  /**
   * ConvertColorspaceToBasespace: the bases of a colour string walked from a
   * seed base; a (base, colour) pair missing from the table is fatal. The
   * length is held in an unsigned short, so only the first |colours| mod 2^16
   * colours are decoded.
   */
  method ConvertColorspaceToBasespace(table: map<(char, char), char>, seed: char, colours: seq<char>)
    returns (r: Result<seq<char>>)
    ensures var decoded := colours[..Truncate(|colours|, U16_LIMIT)];
            && (r.Ok? <==> Decodable(table, seed, decoded))
            && (r.Ok? ==> r.value == Decoded(table, seed, decoded))
    ensures r.Err? ==> r.failure.Fatal?
    ensures |colours| == U16_LIMIT ==> r == Ok([])
  {
    var csLen := Truncate(|colours|, U16_LIMIT);
    var bases := new char[csLen];
    var previous := seed;
    var i := 0;
    while i < csLen
      invariant 0 <= i <= csLen
      invariant Decodable(table, seed, colours[..i])
      invariant bases[..i] == Decoded(table, seed, colours[..i])
      invariant previous == if i == 0 then seed else bases[i - 1]
    {
      if (previous, colours[i]) !in table {
        assert colours[..csLen][..i] == colours[..i];
        DecodableSplit(table, seed, colours[..csLen], i);
        return Err(Fatal("unknown combination found when converting to basespace"));
      }
      assert colours[..i + 1] == colours[..i] + [colours[i]];
      DecodedAppend(table, seed, colours[..i], colours[i]);
      bases[i] := table[(previous, colours[i])];
      previous := bases[i];
      i := i + 1;
    }
    return Ok(bases[..]);
  }

  /** A colour string shorter than 2^16 is decoded whole. */
  lemma ShortColoursDecodedWhole(colours: seq<char>)
    requires |colours| < U16_LIMIT
    ensures colours[..Truncate(|colours|, U16_LIMIT)] == colours
  {
  }

  /** Decoding fails at the first step whose pair is missing. */
  lemma {:induction false} DecodableSplit(table: map<(char, char), char>, seed: char, colours: seq<char>, i: nat)
    requires i < |colours| && Decodable(table, seed, colours[..i])
    requires (if i == 0 then seed else Decoded(table, seed, colours[..i])[i - 1], colours[i]) !in table
    ensures !Decodable(table, seed, colours)
    decreases i
  {
    if i > 0 {
      var next := table[(seed, colours[0])];
      assert colours[..i][1..] == colours[1..][..i - 1];
      DecodableSplit(table, next, colours[1..], i - 1);
    }
  }

  // ---------------------------------------------------------------------------
  // Basespace reads to pseudo-colorspace
  // ---------------------------------------------------------------------------

  /** Every transition between neighbouring simplified bases of the read has a colour in the table. */
  predicate Encodable(table: map<(char, char), char>, simplify: char -> char, read: seq<char>)
  {
    forall i :: 0 < i < |read| ==> (simplify(read[i - 1]), simplify(read[i])) in table
  }

  /** The colours of the transitions between neighbouring simplified bases of a read. */
  function Encoded(table: map<(char, char), char>, simplify: char -> char, read: seq<char>): (colours: seq<char>)
    requires |read| >= 1 && Encodable(table, simplify, read)
    ensures |colours| == |read| - 1
  {
    seq(|read| - 1, i requires 0 <= i < |read| - 1 => table[(simplify(read[i]), simplify(read[i + 1]))])
  }

  /**
   * ConvertReadBasespaceToPseudoColorspace: rewrites the read in place so that
   * its first |read| - 1 characters are the colours of its transitions, then
   * trims the last character; returns the new length. A transition missing
   * from the table is fatal; the empty read cannot be trimmed.
   */
  method ConvertReadBasespaceToPseudoColorspace(read: array<char>, table: map<(char, char), char>, simplify: char -> char)
    returns (r: Result<nat>)
    modifies read
    ensures read.Length == 0 ==> r.Err? && r.failure.Undefined?
    ensures read.Length > 0 ==> (r.Ok? <==> Encodable(table, simplify, old(read[..])))
    ensures r.Ok? ==> r.value == read.Length - 1 && read[..r.value] == Encoded(table, simplify, old(read[..]))
  {
    if read.Length == 0 {
      return Err(Undefined("trimming an empty read"));
    }
    ghost var original := read[..];
    read[0] := simplify(read[0]);
    var i := 1;
    while i < read.Length
      invariant 1 <= i <= read.Length
      invariant read[i - 1] == simplify(original[i - 1])
      invariant forall k :: i <= k < read.Length ==> read[k] == original[k]
      invariant forall k :: 0 < k < i ==> (simplify(original[k - 1]), simplify(original[k])) in table
      invariant forall k :: 0 <= k < i - 1 ==> read[k] == table[(simplify(original[k]), simplify(original[k + 1]))]
    {
      read[i] := simplify(read[i]);
      if (read[i - 1], read[i]) !in table {
        assert !Encodable(table, simplify, original) by {
          assert (simplify(original[i - 1]), simplify(original[i])) !in table;
        }
        return Err(Fatal("unknown combination found when converting to colorspace"));
      }
      read[i - 1] := table[(read[i - 1], read[i])];
      i := i + 1;
    }
    assert Encodable(table, simplify, original);
    assert read[..read.Length - 1] == Encoded(table, simplify, original);
    return Ok(read.Length - 1);
  }

  // ---------------------------------------------------------------------------
  // Colour digits and pseudo-colorspace letters
  // ---------------------------------------------------------------------------

  /**
   * The pseudo-colorspace letter of a colorspace read character: digits 0-3
   * become A, C, G, T, X stays, a missing colour '-' becomes N and an
   * unreadable colour '.' becomes A; anything else has none.
   */
  function PseudoOfColour(c: char): Option<char>
  {
    match c
    case '0' => Some('A')
    case '1' => Some('C')
    case '2' => Some('G')
    case '3' => Some('T')
    case 'X' => Some('X')
    case '-' => Some('N')
    case '.' => Some('A')
    case _ => None
  }

  /** The colour digit of a pseudo-colorspace letter: A, C, G, T become 0-3, X and N stay; anything else has none. */
  function ColourOfPseudo(c: char): Option<char>
  {
    match c
    case 'A' => Some('0')
    case 'C' => Some('1')
    case 'G' => Some('2')
    case 'T' => Some('3')
    case 'X' => Some('X')
    case 'N' => Some('N')
    case _ => None
  }

  /** The two maps undo each other on the digits 0-3 and X. */
  lemma ColourPseudoRoundTrip(c: char)
    ensures c in "0123X" ==> PseudoOfColour(c).Some? && ColourOfPseudo(PseudoOfColour(c).value) == Some(c)
    ensures c in "ACGTX" ==> ColourOfPseudo(c).Some? && PseudoOfColour(ColourOfPseudo(c).value) == Some(c)
    ensures PseudoOfColour(c).Some? <==> c in "0123X-."
    ensures ColourOfPseudo(c).Some? <==> c in "ACGTXN"
  {
  }

  /** ConvertReadColorspaceToPseudoColorspace: every character mapped in place; an unrecognised one is fatal. */
  method ConvertReadColorspaceToPseudoColorspace(read: array<char>) returns (r: Result<()>)
    modifies read
    ensures r.Ok? <==> forall i :: 0 <= i < read.Length ==> PseudoOfColour(old(read[i])).Some?
    ensures r.Ok? ==> forall i :: 0 <= i < read.Length ==> read[i] == PseudoOfColour(old(read[i])).value
  {
    var i := 0;
    while i < read.Length
      invariant 0 <= i <= read.Length
      invariant forall k :: i <= k < read.Length ==> read[k] == old(read[k])
      invariant forall k :: 0 <= k < i ==> PseudoOfColour(old(read[k])).Some? && read[k] == PseudoOfColour(old(read[k])).value
    {
      var p := PseudoOfColour(read[i]);
      if p.None? {
        return Err(Fatal("unrecognized nucleotide when converting read to pseudo-colorspace"));
      }
      read[i] := p.value;
      i := i + 1;
    }
    return Ok(());
  }

  /** ConvertReadPseudoColorspaceToColorspace: every character mapped in place; an unrecognised one is fatal. */
  method ConvertReadPseudoColorspaceToColorspace(read: array<char>) returns (r: Result<()>)
    modifies read
    ensures r.Ok? <==> forall i :: 0 <= i < read.Length ==> ColourOfPseudo(old(read[i])).Some?
    ensures r.Ok? ==> forall i :: 0 <= i < read.Length ==> read[i] == ColourOfPseudo(old(read[i])).value
  {
    var i := 0;
    while i < read.Length
      invariant 0 <= i <= read.Length
      invariant forall k :: i <= k < read.Length ==> read[k] == old(read[k])
      invariant forall k :: 0 <= k < i ==> ColourOfPseudo(old(read[k])).Some? && read[k] == ColourOfPseudo(old(read[k])).value
    {
      var c := ColourOfPseudo(read[i]);
      if c.None? {
        return Err(Fatal("unrecognized nucleotide when converting read to colorspace"));
      }
      read[i] := c.value;
      i := i + 1;
    }
    return Ok(());
  }
}
