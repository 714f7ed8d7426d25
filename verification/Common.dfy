/** What several components share: bytes, optional values, and a few facts about multiplication. */
module Common {

  type byte = x: int | 0 <= x < 256

  datatype Option<+T> = None | Some(value: T)

  const INT_MIN := -0x8000_0000
  const INT_MAX := 0x7fff_ffff

  type int32 = x: int | -0x8000_0000 <= x <= 0x7fff_ffff

  type uint32 = x: int | 0 <= x < 0x1_0000_0000

  /** A C int: two's complement truncation to 32 bits. */
  function Wrap(x: int): (r: int32)
    ensures INT_MIN <= x <= INT_MAX ==> r == x
    ensures INT_MAX < x < 0x1_0000_0000 ==> r < 0
  {
    (x + 0x8000_0000) % 0x1_0000_0000 - 0x8000_0000
  }

  function Pow2(k: nat): (p: nat)
    ensures p >= 1
  {
    if k == 0 then 1 else 2 * Pow2(k - 1)
  }

  lemma MulAtLeast(k: int, m: int)
    requires 1 <= k && 0 <= m
    ensures m <= k * m
  {
  }

  lemma DivMod(y: nat, s: nat)
    requires s > 0
    ensures y == (y / s) * s + y % s && y % s < s
  {
    assert y == s * (y / s) + y % s;
  }

  /** Quotient and remainder are determined. */
  lemma ModUnique(x: int, q: int, r: int, m: int)
    requires 0 <= r < m
    requires x == q * m + r
    ensures x % m == r && x / m == q
  {
    var q', r' := x / m, x % m;
    assert x == q' * m + r' by { assert x == m * (x / m) + x % m; }
    assert (q - q') * m == r' - r;
    if q != q' {
      MulAtLeast(if q' < q then q - q' else q' - q, m);
    }
  }
}
