/**
 * The inline helpers and macros of the colorspace utilities header:
 * table-key packing, the identity-region record, IUPAC simplification
 * and the canonical-base test.
 */
module ColorspaceHeader {
  import opened Bytes

  /**
   * A char as the int it promotes to, in the low 16 bits a short key keeps:
   * char is signed, so a byte of 0x80 or more sign-extends.
   */
  function Promoted(c: bv8): (i: bv16)
    ensures (i & 0xFF) as bv8 == c
    ensures c < 0x80 ==> i == c as bv16
    ensures c >= 0x80 ==> i >> 8 == 0xFF
  {
    if c < 0x80 then c as bv16 else c as bv16 | 0xFF00
  }

  /** The value of a signed char. */
  function SignedValue(c: bv8): (v: int)
    ensures -128 <= v < 128
    ensures c < 0x80 <==> v >= 0
  {
    if c < 0x80 then c as int else c as int - 256
  }

  /**
   * PACK_SHORT as the short key it is stored under: the first char shifted into
   * the high half, or-ed with the second, both promoted to int first (the bits
   * above the low 16 do not reach the key).
   */
  function PackShort(a: bv8, b: bv8): (key: bv16)
    ensures (key & 0xFF) as bv8 == b
    ensures b < 0x80 ==> (key >> 8) as bv8 == a
    ensures b >= 0x80 ==> key >> 8 == 0xFF
  {
    (Promoted(a) << 8) | Promoted(b)
  }

  /** PACK_SORTED_SHORT: PACK_SHORT of the pair with the smaller char, in signed order, first. */
  function PackSortedShort(a: bv8, b: bv8): (key: bv16)
    ensures key == PackShort(a, b) || key == PackShort(b, a)
    ensures a < 0x80 && b < 0x80 ==> (key >> 8) as bv8 <= (key & 0xFF) as bv8
  {
    if SignedValue(a) < SignedValue(b) then PackShort(a, b) else PackShort(b, a)
  }

  /**
   * Packing loses nothing for the keys the tables hold: a pair of ASCII chars
   * (every table key is one) shares its key with no other pair of chars.
   */
  lemma PackShortInjective(a: bv8, b: bv8, c: bv8, d: bv8)
    requires a < 0x80 && b < 0x80
    ensures PackShort(a, b) == PackShort(c, d) <==> a == c && b == d
  {
    if PackShort(a, b) == PackShort(c, d) {
      assert (PackShort(c, d) >> 8) as bv8 == a;
    }
  }

  /** A second char of 0x80 or more sign-extends over the first: 'A' and 'C' followed by 0xC3 share a key. */
  lemma PackShortSignExtends()
    ensures PackShort(0x41, 0xC3) == PackShort(0x43, 0xC3) == 0xFFC3
  {
  }

  /** The sorted key does not depend on the order of its arguments. */
  lemma PackSortedShortSymmetric(a: bv8, b: bv8)
    ensures PackSortedShort(a, b) == PackSortedShort(b, a)
  {
  }

  /**
   * A pair of ASCII chars (every ambiguity-set key is one) shares its sorted key
   * only with the same two chars, in either order.
   */
  lemma PackSortedShortInjective(a: bv8, b: bv8, c: bv8, d: bv8)
    requires a < 0x80 && b < 0x80
    ensures PackSortedShort(a, b) == PackSortedShort(c, d) <==> (a == c && b == d) || (a == d && b == c)
  {
    var (x, y) := if SignedValue(a) < SignedValue(b) then (a, b) else (b, a);
    PackShortInjective(x, y, c, d);
    PackShortInjective(x, y, d, c);
  }

  /** Above 0x7F the sorted key collides: (0xC2, 0xC4) and (0xC3, 0xC4) both pack to 0xFFC4. */
  lemma PackSortedShortSignExtends()
    ensures PackSortedShort(0xC2, 0xC4) == PackSortedShort(0xC3, 0xC4) == 0xFFC4
  {
  }

  /**
   * The lookup tables are keyed by PACK_SHORT of two characters; since PACK_SHORT
   * is injective on the ASCII pairs the tables hold, and no other pair shares
   * their keys, the model keys them by the character pair itself, and keys
   * PACK_SORTED_SHORT by the pair with the smaller character first.
   */
  function SortedPair(a: char, b: char): (p: (char, char))
    ensures p.0 <= p.1
    ensures {p.0, p.1} == {a, b}
  {
    if a < b then (a, b) else (b, a)
  }

  lemma SortedPairSymmetric(a: char, b: char)
    ensures SortedPair(a, b) == SortedPair(b, a)
  {
  }

  /** RegionT: a run of identical pairwise positions. */
  datatype Region = Region(Begin: u16, Length: u16)

  /** The RegionT constructor. */
  function NewRegion(beg: u16): (r: Region)
    ensures r.Begin == beg && r.Length == 0
  {
    Region(beg, 0)
  }

  /** The bases an IUPAC two- or three-base ambiguity code stands for (empty for any other character). */
  function IupacBases(c: char): set<char>
  {
    match c
    case 'M' => {'A', 'C'}
    case 'R' => {'A', 'G'}
    case 'W' => {'A', 'T'}
    case 'S' => {'C', 'G'}
    case 'Y' => {'C', 'T'}
    case 'K' => {'G', 'T'}
    case 'V' => {'A', 'C', 'G'}
    case 'H' => {'A', 'C', 'T'}
    case 'D' => {'A', 'G', 'T'}
    case 'B' => {'C', 'G', 'T'}
    case _ => {}
  }

  predicate IsAmbiguityCode(c: char)
  {
    c in "MRWSYKVHDB"
  }

  /** The characters the main simplification rewrites. */
  const SIMPLIFIED_CHARACTERS: set<char> := {'M', 'R', 'V', 'S', 'B', 'D', 'H', 'K', 'W', 'Y', 'X'}

  /**
   * GetSimplifiedBase: replaces an ambiguity code by the base most frequent in the
   * human genome among those it stands for, and X by N.
   */
  function GetSimplifiedBase(c: char): (s: char)
    ensures c !in SIMPLIFIED_CHARACTERS ==> s == c
    ensures IsAmbiguityCode(c) ==> s in IupacBases(c) && s in "AGT"
    ensures c == 'X' ==> s == 'N'
  {
    match c
    case 'M' | 'R' | 'V' => 'A'
    case 'S' => 'G'
    case 'B' | 'D' | 'H' | 'K' | 'W' | 'Y' => 'T'
    case 'X' => 'N'
    case _ => c
  }

  /** Simplifying twice is simplifying once. */
  lemma SimplifiedBaseIdempotent(c: char)
    ensures GetSimplifiedBase(GetSimplifiedBase(c)) == GetSimplifiedBase(c)
  {
  }

  /** IsCanonicalBase: A, C, G and T, and nothing else. */
  predicate IsCanonicalBase(c: char)
  {
    c == 'A' || c == 'C' || c == 'G' || c == 'T'
  }

  /**
   * Among the bases, N, X and the ambiguity codes, the canonical bases and N are
   * exactly the fixed points of simplification, and every ambiguity code
   * simplifies to a canonical base.
   */
  lemma CanonicalBasesAreFixed(c: char)
    ensures c in "ACGTNX" || IsAmbiguityCode(c) ==> (GetSimplifiedBase(c) == c <==> IsCanonicalBase(c) || c == 'N')
    ensures IsAmbiguityCode(c) ==> IsCanonicalBase(GetSimplifiedBase(c))
  {
  }
}

/**
 * The legacy header of the same name: its simplification turns N into X
 * instead of X into N. Its PACK_SHORT and RegionT are the same definitions
 * as in the main header and are shared from there.
 */
module LegacyColorspaceHeader {
  import Main = ColorspaceHeader

  /** GetSimplifiedBase of the legacy tree. */
  function GetSimplifiedBase(c: char): (s: char)
    ensures c !in {'M', 'R', 'V', 'S', 'B', 'D', 'H', 'K', 'W', 'Y', 'N'} ==> s == c
    ensures Main.IsAmbiguityCode(c) ==> s in Main.IupacBases(c)
    ensures c == 'N' ==> s == 'X'
  {
    match c
    case 'M' | 'R' | 'V' => 'A'
    case 'S' => 'G'
    case 'B' | 'D' | 'H' | 'K' | 'W' | 'Y' => 'T'
    case 'N' => 'X'
    case _ => c
  }

  lemma SimplifiedBaseIdempotent(c: char)
    ensures GetSimplifiedBase(GetSimplifiedBase(c)) == GetSimplifiedBase(c)
    ensures GetSimplifiedBase('X') == 'X'
  {
  }

  /** The two simplifications differ only on N and X. */
  lemma DiffersFromMainOnlyOnNX(c: char)
    ensures c != 'N' && c != 'X' ==> GetSimplifiedBase(c) == Main.GetSimplifiedBase(c)
    ensures GetSimplifiedBase('N') == 'X' && Main.GetSimplifiedBase('N') == 'N'
    ensures GetSimplifiedBase('X') == 'X' && Main.GetSimplifiedBase('X') == 'N'
  {
  }
}
