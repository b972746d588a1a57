/** Fixed-width unsigned integers and their little-endian byte images. */
module Bytes {

  /** A byte, as the integer value it holds. */
  type byte = u8

  const U8_LIMIT: nat := 0x100
  const U16_LIMIT: nat := 0x1_0000
  const U32_LIMIT: nat := 0x1_0000_0000
  const U64_LIMIT: nat := 0x1_0000_0000_0000_0000

  type u8 = n: int | 0 <= n < 0x100
  type u16 = n: int | 0 <= n < 0x1_0000
  type u32 = n: int | 0 <= n < 0x1_0000_0000
  type u64 = n: int | 0 <= n < 0x1_0000_0000_0000_0000

  /** 256 raised to the number of bytes of a field. */
  function Pow256(width: nat): (p: nat)
    ensures p >= 1
  {
    if width == 0 then 1 else 256 * Pow256(width - 1)
  }

  /** The value of a little-endian byte string, as memcpy of a native x86 integer reads it. */
  function FromLittleEndian(bs: seq<byte>): (n: nat)
    ensures n < Pow256(|bs|)
  {
    if |bs| == 0 then 0 else bs[0] as nat + 256 * FromLittleEndian(bs[1..])
  }

  /** The `width` bytes a memcpy of a native x86 integer of value `n` writes. */
  function LittleEndian(n: nat, width: nat): (bs: seq<byte>)
    requires n < Pow256(width)
    ensures |bs| == width
    ensures FromLittleEndian(bs) == n
  {
    if width == 0 then []
    else
      DivideByByte(n, Pow256(width - 1));
      var rest := LittleEndian(n / 256, width - 1);
      var bs := [(n % 256) as byte] + rest;
      assert bs[0] as nat == n % 256 && bs[1..] == rest;
      bs
  }

  /** Dropping the low byte of a value below 256 * p leaves a value below p. */
  lemma DivideByByte(n: nat, p: nat)
    requires n < 256 * p
    ensures n / 256 < p
    ensures n == n % 256 + 256 * (n / 256)
  {
  }

  /** Decoding is the inverse of encoding in the other direction too. */
  lemma {:induction false} LittleEndianOfDecoded(bs: seq<byte>)
    ensures LittleEndian(FromLittleEndian(bs), |bs|) == bs
  {
    if |bs| > 0 {
      var n := FromLittleEndian(bs);
      assert n / 256 == FromLittleEndian(bs[1..]);
      LittleEndianOfDecoded(bs[1..]);
    }
  }

  /** Two equal-width encodings agree exactly when the values do. */
  lemma LittleEndianInjective(m: nat, n: nat, width: nat)
    requires m < Pow256(width) && n < Pow256(width)
    ensures LittleEndian(m, width) == LittleEndian(n, width) <==> m == n
  {
  }

  /** A C++ conversion to an unsigned type of `limit` values keeps the value modulo `limit`. */
  function Truncate(n: int, limit: nat): (r: nat)
    requires limit > 0
    ensures r < limit
    ensures 0 <= n < limit ==> r == n
  {
    n % limit
  }

  lemma MulAtLeast(d: int, m: int)
    requires d >= 1 && m > 0
    ensures d * m >= m
  {
    assert d * m == (d - 1) * m + m;
  }

  lemma QuotientAtMost(a: int, q: int, r: int, m: int, q2: int, r2: int)
    requires m > 0 && a == q * m + r && 0 <= r < m && a == q2 * m + r2 && 0 <= r2
    ensures q2 <= q
  {
    if q2 > q {
      assert q2 * m == q * m + (q2 - q) * m;
      MulAtLeast(q2 - q, m);
    }
  }

  /** Euclidean division leaves a unique remainder. */
  lemma ModUnique(a: int, q: int, r: int, m: int)
    requires m > 0 && a == q * m + r && 0 <= r < m
    ensures a % m == r
  {
    QuotientAtMost(a, q, r, m, a / m, a % m);
    QuotientAtMost(a, a / m, a % m, m, q, r);
  }

  /** A counter kept modulo `limit` stays the count modulo `limit` when both go up by one. */
  lemma TruncateStep(count: nat, n: nat, limit: nat)
    requires limit > 0 && count == n % limit
    ensures Truncate(count + 1, limit) == (n + 1) % limit
  {
    var q := n / limit;
    if count + 1 < limit {
      ModUnique(n + 1, q, count + 1, limit);
    } else {
      assert n + 1 == (q + 1) * limit;
      ModUnique(n + 1, q + 1, 0, limit);
      ModUnique(count + 1, 1, 0, limit);
    }
  }

  lemma Pow256Widths()
    ensures Pow256(1) == U8_LIMIT && Pow256(2) == U16_LIMIT
    ensures Pow256(4) == U32_LIMIT && Pow256(8) == U64_LIMIT
  {
    assert Pow256(2) == 256 * Pow256(1);
    assert Pow256(4) == 256 * (256 * Pow256(2));
    assert Pow256(8) == 256 * (256 * (256 * (256 * Pow256(4))));
  }
}
