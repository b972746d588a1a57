/**
 * The three lookup tables the main colorspace utilities build in their
 * constructor. The tables never change after construction except through
 * std::map's operator[], which the class models; here they are the
 * constructor's initial contents.
 */
module ColorspaceTables {
  import opened Outcome
  import opened ColorspaceHeader

  /** The characters that take part in a base-to-colour transition. */
  const TRANSITION_BASES: set<char> := {'A', 'C', 'G', 'T', 'N', '-'}

  /** The characters a table key can hold: bases, N, the gap and the colour letters. */
  const TABLE_CHARS: set<char> := {'A', 'C', 'G', 'T', 'N', '-', 'E', 'F', 'I', 'L', 'O', 'P'}

  /** Every pair of table characters; both tables are keyed inside it. */
  function TableKeys(): set<(char, char)>
  {
    set a <- TABLE_CHARS, b <- TABLE_CHARS :: (a, b)
  }

  /** The entry InitializeBasespaceMap stores under (previous base, colour), if any. */
  function BasespaceEntry(previous: char, colour: char): Option<char>
  {
    match (previous, colour)
    case ('A', 'A') => Some('A') case ('A', 'C') => Some('C') case ('A', 'G') => Some('G')
    case ('A', 'T') => Some('T') case ('A', 'E') => Some('N') case ('A', 'F') => Some('-')
    case ('C', 'A') => Some('C') case ('C', 'C') => Some('A') case ('C', 'G') => Some('T')
    case ('C', 'T') => Some('G') case ('C', 'F') => Some('N') case ('C', 'I') => Some('-')
    case ('G', 'A') => Some('G') case ('G', 'C') => Some('T') case ('G', 'G') => Some('A')
    case ('G', 'T') => Some('C') case ('G', 'I') => Some('N') case ('G', 'L') => Some('-')
    case ('T', 'A') => Some('T') case ('T', 'C') => Some('G') case ('T', 'G') => Some('C')
    case ('T', 'T') => Some('A') case ('T', 'L') => Some('N') case ('T', 'O') => Some('-')
    case ('N', 'E') => Some('A') case ('N', 'F') => Some('C') case ('N', 'I') => Some('G')
    case ('N', 'L') => Some('T') case ('N', 'O') => Some('N') case ('N', 'P') => Some('-')
    case ('-', 'F') => Some('A') case ('-', 'I') => Some('C') case ('-', 'L') => Some('G')
    case ('-', 'O') => Some('T') case ('-', 'P') => Some('N') case ('-', 'E') => Some('-')
    case _ => None
  }

  /** The entry InitializeColorspaceMap stores under (base, next base), if any. */
  function ColorspaceEntry(base: char, next: char): Option<char>
  {
    match (base, next)
    case ('A', 'A') => Some('A') case ('A', 'C') => Some('C') case ('A', 'G') => Some('G')
    case ('A', 'T') => Some('T') case ('A', 'N') => Some('E') case ('A', '-') => Some('F')
    case ('C', 'A') => Some('C') case ('C', 'C') => Some('A') case ('C', 'G') => Some('T')
    case ('C', 'T') => Some('G') case ('C', 'N') => Some('F') case ('C', '-') => Some('I')
    case ('G', 'A') => Some('G') case ('G', 'C') => Some('T') case ('G', 'G') => Some('A')
    case ('G', 'T') => Some('C') case ('G', 'N') => Some('I') case ('G', '-') => Some('L')
    case ('T', 'A') => Some('T') case ('T', 'C') => Some('G') case ('T', 'G') => Some('C')
    case ('T', 'T') => Some('A') case ('T', 'N') => Some('L') case ('T', '-') => Some('O')
    case ('N', 'A') => Some('E') case ('N', 'C') => Some('F') case ('N', 'G') => Some('I')
    case ('N', 'T') => Some('L') case ('N', 'N') => Some('O') case ('N', '-') => Some('P')
    case ('-', 'A') => Some('F') case ('-', 'C') => Some('I') case ('-', 'G') => Some('L')
    case ('-', 'T') => Some('O') case ('-', 'N') => Some('P') case ('-', '-') => Some('E')
    case _ => None
  }

  /** The basespace entry under a key, if any. */
  function BasespaceAt(key: (char, char)): Option<char> { BasespaceEntry(key.0, key.1) }

  /** The colorspace entry under a key, if any. */
  function ColorspaceAt(key: (char, char)): Option<char> { ColorspaceEntry(key.0, key.1) }

  /** InitializeBasespaceMap: (previous base, colour) to the next base. */
  function InitialBasespaceMap(): map<(char, char), char>
  {
    map k | k in TableKeys() && BasespaceAt(k).Some? :: BasespaceAt(k).value
  }

  /** InitializeColorspaceMap: (base, next base) to the colour of the transition. */
  function InitialColorspaceMap(): map<(char, char), char>
  {
    map k | k in TableKeys() && ColorspaceAt(k).Some? :: ColorspaceAt(k).value
  }

  /** InitializeAmbiguitySet: the sorted pairs that do not count as a mismatch. */
  function InitialAmbiguitySet(): set<(char, char)>
  {
    {
      SortedPair('A', 'A'), SortedPair('C', 'C'), SortedPair('G', 'G'), SortedPair('T', 'T'),
      SortedPair('M', 'A'), SortedPair('M', 'C'), SortedPair('R', 'A'), SortedPair('R', 'G'),
      SortedPair('W', 'A'), SortedPair('W', 'T'), SortedPair('S', 'C'), SortedPair('S', 'G'),
      SortedPair('Y', 'C'), SortedPair('Y', 'T'), SortedPair('K', 'G'), SortedPair('K', 'T'),
      SortedPair('V', 'A'), SortedPair('V', 'C'), SortedPair('V', 'G'), SortedPair('H', 'A'),
      SortedPair('H', 'C'), SortedPair('H', 'T'), SortedPair('D', 'A'), SortedPair('D', 'G'),
      SortedPair('D', 'T'), SortedPair('B', 'C'), SortedPair('B', 'G'), SortedPair('B', 'T')
    }
  }

  /** Decoding the colour of the transition x to y, starting from x, gives back y. */
  lemma DecodeInvertsEncode(x: char, y: char)
    requires x in TRANSITION_BASES && y in TRANSITION_BASES
    ensures (x, y) in InitialColorspaceMap()
    ensures (x, InitialColorspaceMap()[(x, y)]) in InitialBasespaceMap()
    ensures InitialBasespaceMap()[(x, InitialColorspaceMap()[(x, y)])] == y
  {
  }

  /** No colour in the colorspace table is a gap, so a patched run holds no gap. */
  lemma ColoursAreNotGaps(key: (char, char))
    requires key in InitialColorspaceMap()
    ensures InitialColorspaceMap()[key] != '-'
  {
  }

  /** Between canonical bases the colour of a transition does not depend on its direction. */
  lemma ColorspaceMapSymmetric(x: char, y: char)
    requires IsCanonicalBase(x) && IsCanonicalBase(y)
    ensures (x, y) in InitialColorspaceMap() && (y, x) in InitialColorspaceMap()
    ensures InitialColorspaceMap()[(x, y)] == InitialColorspaceMap()[(y, x)]
  {
  }

  /**
   * A reference/query pair is not a mismatch when both are the same canonical base,
   * or one is a canonical base the other, a two- or three-base IUPAC code, stands for.
   */
  predicate AmbiguousMatch(a: char, b: char)
  {
    (IsCanonicalBase(a) && (a == b || a in IupacBases(b))) ||
    (IsCanonicalBase(b) && (a == b || b in IupacBases(a)))
  }

  /** The ambiguity set holds exactly the IUPAC-compatible pairs. */
  lemma AmbiguitySetMeaning(a: char, b: char)
    ensures SortedPair(a, b) in InitialAmbiguitySet() <==> AmbiguousMatch(a, b)
  {
  }
}
