/**
 * The lookup tables of the legacy colorspace utilities. Gaps there are
 * filled with N before decoding, so N stands for "gap" in both tables and
 * X is carried through unchanged.
 */
module LegacyColorspaceTables {
  import opened Outcome

  /** The bases a legacy transition can start from. */
  const SEED_BASES: set<char> := {'A', 'C', 'G', 'T', '-', 'X'}
  /** The bases a legacy transition can end in. */
  const TARGET_BASES: set<char> := {'A', 'C', 'G', 'T', 'X'}

  /** The characters a legacy table key can hold. */
  const TABLE_CHARS: set<char> := {'A', 'C', 'G', 'T', 'N', '-', 'X'}

  /** Every pair of legacy table characters; both tables are keyed inside it. */
  function TableKeys(): set<(char, char)>
  {
    set a <- TABLE_CHARS, b <- TABLE_CHARS :: (a, b)
  }

  /** The entry the legacy InitializeBasespaceMap stores under (previous base, colour), if any. */
  function BasespaceEntry(previous: char, colour: char): Option<char>
  {
    match (previous, colour)
    case ('A', 'A') => Some('A') case ('A', 'C') => Some('C') case ('A', 'G') => Some('G')
    case ('A', 'T') => Some('T') case ('A', 'N') => Some('-') case ('A', 'X') => Some('X')
    case ('C', 'A') => Some('C') case ('C', 'C') => Some('A') case ('C', 'G') => Some('T')
    case ('C', 'T') => Some('G') case ('C', 'N') => Some('-') case ('C', 'X') => Some('X')
    case ('G', 'A') => Some('G') case ('G', 'C') => Some('T') case ('G', 'G') => Some('A')
    case ('G', 'T') => Some('C') case ('G', 'N') => Some('-') case ('G', 'X') => Some('X')
    case ('T', 'A') => Some('T') case ('T', 'C') => Some('G') case ('T', 'G') => Some('C')
    case ('T', 'T') => Some('A') case ('T', 'N') => Some('-') case ('T', 'X') => Some('X')
    case ('-', 'A') => Some('A') case ('-', 'C') => Some('C') case ('-', 'G') => Some('G')
    case ('-', 'T') => Some('T') case ('-', 'N') => Some('-') case ('-', 'X') => Some('X')
    case ('X', 'A') => Some('A') case ('X', 'C') => Some('C') case ('X', 'G') => Some('G')
    case ('X', 'T') => Some('T') case ('X', 'N') => Some('-') case ('X', 'X') => Some('X')
    case _ => None
  }

  /** The entry the legacy InitializeColorspaceMap stores under (base, next base), if any. */
  function ColorspaceEntry(base: char, next: char): Option<char>
  {
    match (base, next)
    case ('A', 'A') => Some('A') case ('A', 'C') => Some('C') case ('A', 'G') => Some('G')
    case ('A', 'T') => Some('T') case ('A', 'N') => Some('N') case ('A', 'X') => Some('X')
    case ('C', 'A') => Some('C') case ('C', 'C') => Some('A') case ('C', 'G') => Some('T')
    case ('C', 'T') => Some('G') case ('C', 'N') => Some('N') case ('C', 'X') => Some('X')
    case ('G', 'A') => Some('G') case ('G', 'C') => Some('T') case ('G', 'G') => Some('A')
    case ('G', 'T') => Some('C') case ('G', 'N') => Some('N') case ('G', 'X') => Some('X')
    case ('T', 'A') => Some('T') case ('T', 'C') => Some('G') case ('T', 'G') => Some('C')
    case ('T', 'T') => Some('A') case ('T', 'N') => Some('N') case ('T', 'X') => Some('X')
    case ('-', 'A') => Some('A') case ('-', 'C') => Some('C') case ('-', 'G') => Some('G')
    case ('-', 'T') => Some('T') case ('-', 'N') => Some('N') case ('-', 'X') => Some('X')
    case ('X', 'A') => Some('A') case ('X', 'C') => Some('C') case ('X', 'G') => Some('G')
    case ('X', 'T') => Some('T') case ('X', 'N') => Some('N') case ('X', 'X') => Some('X')
    case _ => None
  }

  /** The basespace entry under a key, if any. */
  function BasespaceAt(key: (char, char)): Option<char> { BasespaceEntry(key.0, key.1) }

  /** The colorspace entry under a key, if any. */
  function ColorspaceAt(key: (char, char)): Option<char> { ColorspaceEntry(key.0, key.1) }

  /** The legacy InitializeBasespaceMap: (previous base, colour) to the next base. */
  function InitialBasespaceMap(): map<(char, char), char>
  {
    map k | k in TableKeys() && BasespaceAt(k).Some? :: BasespaceAt(k).value
  }

  /** The legacy InitializeColorspaceMap: (base, next base) to the colour of the transition. */
  function InitialColorspaceMap(): map<(char, char), char>
  {
    map k | k in TableKeys() && ColorspaceAt(k).Some? :: ColorspaceAt(k).value
  }

  /** Decoding the colour of the transition x to y, starting from x, gives back y. */
  lemma DecodeInvertsEncode(x: char, y: char)
    requires x in SEED_BASES && y in TARGET_BASES
    ensures (x, y) in InitialColorspaceMap()
    ensures (x, InitialColorspaceMap()[(x, y)]) in InitialBasespaceMap()
    ensures InitialBasespaceMap()[(x, InitialColorspaceMap()[(x, y)])] == y
  {
  }

  /** An N colour decodes to a gap from every seed, and N is the only colour that does. */
  lemma NColourDecodesToGap(x: char, c: char)
    requires x in SEED_BASES && (x, c) in InitialBasespaceMap()
    ensures InitialBasespaceMap()[(x, c)] == '-' <==> c == 'N'
  {
  }

  /** The legacy tables cover the seeds in SEED_BASES and no colour outside A, C, G, T, N, X. */
  lemma BasespaceMapDomain(x: char, c: char)
    ensures (x, c) in InitialBasespaceMap() <==> x in SEED_BASES && c in {'A', 'C', 'G', 'T', 'N', 'X'}
  {
  }
}
