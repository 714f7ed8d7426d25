/**
 LZ4_count and LZ4_NbCommonBytes (little endian, 64-bit registers): the match length is measured a
 word at a time, the first differing byte being found from the trailing zeros of an exclusive or.
 Registers are natural numbers; exclusive or and trailing zeros are defined on their binary digits.
 */
module Lz4Count {
  import opened Common
  import opened Lz4Format

  const STEPSIZE := 8

  // ----- Registers ------------------------------------------------------------------------------

  /** LZ4_read_ARCH, LZ4_read32 and LZ4_read16: `k` bytes, the first one lowest. */
  function ReadLE(src: seq<byte>, i: nat, k: nat): nat
    requires i + k <= |src|
    decreases k
  {
    if k == 0 then 0 else src[i] as nat + 256 * ReadLE(src, i + 1, k - 1)
  }

  function Xor(a: nat, b: nat): nat
    decreases a + b
  {
    if a == 0 && b == 0 then 0
    else (if a % 2 == b % 2 then 0 else 1) + 2 * Xor(a / 2, b / 2)
  }

  /** __builtin_ctzll */
  function CountTrailingZeros(x: nat): nat
    requires x != 0
  {
    if x % 2 == 1 then 0 else 1 + CountTrailingZeros(x / 2)
  }

  /** LZ4_NbCommonBytes */
  function NbCommonBytes(diff: nat): nat
    requires diff != 0
  {
    CountTrailingZeros(diff) / 8
  }

  lemma {:induction false} XorZero(a: nat, b: nat)
    ensures Xor(a, b) == 0 <==> a == b
    decreases a + b
  {
    if a != 0 || b != 0 {
      XorZero(a / 2, b / 2);
    }
  }

  // ----- Splitting off low digits ---------------------------------------------------------------

  lemma HalfOf(k: nat, l: nat, h: nat)
    requires k > 0
    ensures (l + Pow2(k) * h) / 2 == l / 2 + Pow2(k - 1) * h
    ensures (l + Pow2(k) * h) % 2 == l % 2
  {
    assert Pow2(k) * h == 2 * (Pow2(k - 1) * h);
  }

  lemma XorDigit(a: nat, b: nat)
    ensures Xor(a, b) == (if a % 2 == b % 2 then 0 else 1) + 2 * Xor(a / 2, b / 2)
  {
  }

  /** Equal low digits cancel. */
  lemma {:induction false} XorEqualLow(k: nat, l: nat, h: nat, h': nat)
    requires l < Pow2(k)
    ensures Xor(l + Pow2(k) * h, l + Pow2(k) * h') == Pow2(k) * Xor(h, h')
    decreases k
  {
    hide Xor;
    if k > 0 {
      var a, b := l + Pow2(k) * h, l + Pow2(k) * h';
      HalfOf(k, l, h);
      HalfOf(k, l, h');
      XorDigit(a, b);
      XorEqualLow(k - 1, l / 2, h, h');
      assert Pow2(k) * Xor(h, h') == 2 * (Pow2(k - 1) * Xor(h, h'));
    }
  }

  lemma TrailingZerosDouble(x: nat)
    requires x != 0
    ensures CountTrailingZeros(2 * x) == 1 + CountTrailingZeros(x)
  {
  }

  lemma TrailingZerosOdd(x: nat)
    ensures CountTrailingZeros(1 + 2 * x) == 0
  {
  }

  /** Different low digits leave a one among them. */
  lemma {:induction false} XorDifferentLow(k: nat, l: nat, l': nat, h: nat, h': nat)
    requires l < Pow2(k) && l' < Pow2(k) && l != l'
    ensures var d := Xor(l + Pow2(k) * h, l' + Pow2(k) * h'); d != 0 && CountTrailingZeros(d) < k
    decreases k
  {
    hide Xor;
    hide CountTrailingZeros;
    var a, b := l + Pow2(k) * h, l' + Pow2(k) * h';
    XorDigit(a, b);
    HalfOf(k, l, h);
    HalfOf(k, l', h');
    if l % 2 == l' % 2 {
      XorDifferentLow(k - 1, l / 2, l' / 2, h, h');
      TrailingZerosDouble(Xor(a / 2, b / 2));
    } else {
      TrailingZerosOdd(Xor(a / 2, b / 2));
    }
  }

  lemma {:induction false} TrailingZerosScale(k: nat, d: nat)
    requires d != 0
    ensures Pow2(k) * d != 0 && CountTrailingZeros(Pow2(k) * d) == k + CountTrailingZeros(d)
    decreases k
  {
    hide CountTrailingZeros;
    if k > 0 {
      TrailingZerosScale(k - 1, d);
      assert Pow2(k) * d == 2 * (Pow2(k - 1) * d);
      TrailingZerosDouble(Pow2(k - 1) * d);
    }
  }

  lemma Pow2Of8()
    ensures Pow2(8) == 256
  {
    assert Pow2(4) == 16;
  }

  /** The `n` bytes at `i` repeat those `dist` back. */
  ghost predicate Repeats(src: seq<byte>, i: nat, n: nat, dist: nat) {
    dist <= i && i + n <= |src| && forall p :: i <= p < i + n ==> src[p] == src[p - dist]
  }

  /** One byte: equal low bytes reduce the comparison to the rest, different ones end it. */
  lemma LowByte(l: byte, l': byte, h: nat, h': nat)
    ensures var a, b := l as nat + 256 * h, l' as nat + 256 * h';
            && (a == b <==> l == l' && h == h')
            && (l != l' ==> Xor(b, a) != 0 && NbCommonBytes(Xor(b, a)) == 0)
            && (l == l' && h != h' ==>
                  Xor(b, a) != 0 && Xor(h', h) != 0 && NbCommonBytes(Xor(b, a)) == 1 + NbCommonBytes(Xor(h', h)))
  {
    hide Xor;
    hide CountTrailingZeros;
    Pow2Of8();
    if l != l' {
      XorDifferentLow(8, l', l, h', h);
    } else if h != h' {
      XorEqualLow(8, l, h', h);
      XorZero(h', h);
      TrailingZerosScale(8, Xor(h', h));
    }
  }

  /** Registers are equal exactly when their bytes are; otherwise the first difference is located. */
  lemma {:induction false} FirstDifference(src: seq<byte>, i: nat, dist: nat, k: nat)
    requires dist <= i && i + k <= |src|
    ensures var a, b := ReadLE(src, i, k), ReadLE(src, i - dist, k);
            && (a == b <==> Repeats(src, i, k, dist))
            && (a != b ==> Xor(b, a) != 0 &&
                           var n := NbCommonBytes(Xor(b, a));
                           n < k && Repeats(src, i, n, dist) && src[i + n] != src[i + n - dist])
    decreases k
  {
    hide Xor;
    hide NbCommonBytes;
    if k > 0 {
      FirstDifference(src, i + 1, dist, k - 1);
      LowByte(src[i], src[i - dist], ReadLE(src, i + 1, k - 1), ReadLE(src, i + 1 - dist, k - 1));
    }
  }

  // ----- LZ4_count ------------------------------------------------------------------------------

  /** `n` is the length of the longest run at `i`, up to `limit`, that repeats the data `dist` back. */
  ghost predicate IsLongestRepeat(src: seq<byte>, i: nat, dist: nat, limit: nat, n: nat) {
    && Repeats(src, i, n, dist) && i + n <= limit <= |src|
    && (i + n < limit ==> src[i + n] != src[i + n - dist])
  }

  lemma WordStep(src: seq<byte>, start: nat, n: nat, dist: nat, limit: nat, a: nat, b: nat)
    requires 0 < dist <= start && start + n + 8 <= limit <= |src| && Repeats(src, start, n, dist)
    requires a == ReadLE(src, start + n, 8) && b == ReadLE(src, start + n - dist, 8)
    ensures a == b ==> Repeats(src, start, n + 8, dist)
    ensures a != b ==> Xor(b, a) != 0 && IsLongestRepeat(src, start, dist, limit, n + NbCommonBytes(Xor(b, a)))
  {
    hide Xor;
    hide NbCommonBytes;
    hide ReadLE;
    FirstDifference(src, start + n, dist, 8);
  }

  method Count(src: seq<byte>, start: nat, match0: nat, limit: nat) returns (n: nat)
    requires match0 < start <= limit <= |src|
    ensures IsLongestRepeat(src, start, start - match0, limit, n)
  {
    hide Xor;
    hide NbCommonBytes;
    hide ReadLE;
    ghost var dist := start - match0;
    n := 0;
    while start + n < limit - (STEPSIZE - 1)
      invariant start + n <= limit
      invariant Repeats(src, start, n, dist)
    {
      var a, b := ReadLE(src, start + n, 8), ReadLE(src, match0 + n, 8);
      WordStep(src, start, n, dist, limit, a, b);
      if a != b {
        n := n + NbCommonBytes(Xor(b, a));
        return;
      }
      n := n + 8;
    }
    n := CountPiece(src, start, match0, limit, n, 4);
    n := CountPiece(src, start, match0, limit, n, 2);
    n := CountPiece(src, start, match0, limit, n, 1);
  }

  /** The run ends, by the limit or by a difference, less than `k` bytes after position `p`. */
  ghost predicate EndsWithin(src: seq<byte>, p: nat, dist: nat, limit: nat, k: nat)
    requires dist <= p <= limit <= |src|
  {
    limit - p < k || exists q :: p <= q < p + k && q < limit && src[q] != src[q - dist]
  }

  /** Accept `k` more bytes if they fit and are equal as one register. */
  method CountPiece(src: seq<byte>, start: nat, match0: nat, limit: nat, n0: nat, k: nat) returns (n: nat)
    requires match0 < start <= start + n0 <= limit <= |src| && k > 0
    requires Repeats(src, start, n0, start - match0)
    requires EndsWithin(src, start + n0, start - match0, limit, 2 * k)
    ensures start + n <= limit
    ensures Repeats(src, start, n, start - match0)
    ensures EndsWithin(src, start + n, start - match0, limit, k)
  {
    n := n0;
    if start + n < limit - (k - 1) {
      FirstDifference(src, start + n, start - match0, k);
      if ReadLE(src, match0 + n, k) == ReadLE(src, start + n, k) {
        n := n + k;
      }
    }
  }
}
