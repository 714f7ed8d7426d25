/**
 The fixed-point helpers of custom_op/example/QuantHelper.h. 32-bit results wrap explicitly; double
 arithmetic is over the reals.
 */
module Quant {
  import opened Common

  const U32 := 0x1_0000_0000
  const P30 := 0x4000_0000
  const P31 := 0x8000_0000

  /** The source's division: towards zero. */
  function Truncate(x: int, d: int): (r: int)
    requires d > 0
  {
    if x >= 0 then x / d else -((-x) / d)
  }

  function Abs(x: int): nat {
    if x < 0 then -x else x
  }

  // ----- Rounding -------------------------------------------------------------------------------

  /** `r` is the integer nearest to x / p; a tie goes away from zero. */
  ghost predicate NearestAway(r: int, x: int, p: int) {
    2 * Abs(x - r * p) <= p && (2 * Abs(x - r * p) == p ==> Abs(r * p) > Abs(x))
  }

  /** `r` is the integer nearest to x / p; a tie goes up. */
  ghost predicate NearestUp(r: int, x: int, p: int) {
    2 * Abs(x - r * p) <= p && (2 * Abs(x - r * p) == p ==> r * p > x)
  }

  /** Half of 2^exponent, as an integer. */
  function Nudge(exponent: nat): nat {
    if exponent == 0 then 0 else Pow2(exponent - 1)
  }

  /** The source's arithmetic shift of a 32-bit value. */
  function ShiftRight(x: int32, exponent: nat): (r: int32) {
    DivShrinks(x, Pow2(exponent));
    x / Pow2(exponent)
  }

  lemma MulGrows(k: int, p: int)
    requires p >= 1
    ensures k >= 0 ==> k * p >= k
    ensures k < 0 ==> k * p <= -p && k * p <= k
  {
    if k >= 0 {
      assert k * p == k + k * (p - 1);
    } else {
      var j := -k;
      assert j * p == j + j * (p - 1) && j * p == p + (j - 1) * p;
      assert k * p == -(j * p);
    }
  }

  lemma DivFloor(x: int, p: int)
    requires p > 0
    ensures (x / p) * p <= x < (x / p) * p + p
  {
    assert x == p * (x / p) + x % p;
  }

  lemma DivShrinks(x: int, p: int)
    requires p > 0
    ensures (if x < 0 then x <= x / p < 0 else 0 <= x / p <= x)
  {
    var r := x / p;
    DivFloor(x, p);
    assert (r + 1) * p == r * p + p;
    MulGrows(r, p);
    MulGrows(r + 1, p);
  }

  /** RoundingDivideByPOT. Shifted right by 31 bits, `x & -exponent` is the sign of `x`. */
  function RoundingDivideByPOT(x: int32, exponent: nat): (r: int32) {
    if x == 0 then 0
    else if exponent == 0 then x
    else
      var fixup := if x < 0 then -1 else 0;
      var fixedUp := Wrap(x + fixup);
      ShiftRight(Wrap(fixedUp + Nudge(exponent)), exponent)
  }

  /** SaturatingRoundingDoublingHighMul. */
  function HighMul(a: int32, b: int32): (r: int32) {
    var ab := a * b;
    var nudge := if ab >= 0 then P30 else 1 - P30;
    Wrap(Truncate(ab + nudge, P31))
  }

  lemma Pow2At()
    ensures Pow2(30) == P30 && Pow2(31) == P31
  {
    assert Pow2(10) == 1024;
    assert Pow2(20) == 1024 * 1024;
  }

  lemma {:induction false} Pow2Monotone(j: nat, k: nat)
    requires j <= k
    ensures Pow2(j) <= Pow2(k)
    decreases k
  {
    if j < k {
      Pow2Monotone(j, k - 1);
    }
  }

  lemma NudgeBound(exponent: nat)
    requires exponent <= 31
    ensures Nudge(exponent) <= P30
    ensures exponent > 0 ==> Pow2(exponent) == 2 * Nudge(exponent)
  {
    Pow2At();
    if exponent > 0 {
      Pow2Monotone(exponent - 1, 30);
    }
  }

  lemma HalfAway(x: int, n: nat, r: int)
    requires n > 0 && r == (x + (if x < 0 then -1 else 0) + n) / (2 * n)
    ensures NearestAway(r, x, 2 * n)
  {
    var p, y := 2 * n, x + (if x < 0 then -1 else 0) + n;
    DivFloor(y, p);
    DivShrinks(y, p);
    MulGrows(r, p);
  }

  lemma WrapTwice(x: int32, n: nat)
    requires 1 <= n <= P30 && x + n <= INT_MAX
    ensures x < 0 ==> Wrap(Wrap(x - 1) + n) == x - 1 + n
    ensures x >= 0 ==> Wrap(Wrap(x) + n) == x + n
  {
  }

  lemma DivideFits(x: int32, exponent: nat)
    requires exponent <= 31 && x + Nudge(exponent) <= INT_MAX
    ensures NearestAway(RoundingDivideByPOT(x, exponent), x, Pow2(exponent))
  {
    hide Pow2, NearestAway, Wrap, Nudge;
    NudgeBound(exponent);
    if exponent == 0 || x == 0 {
      Pow2Zero();
      AwayExact(RoundingDivideByPOT(x, exponent), Pow2(exponent));
    } else {
      var n := Nudge(exponent);
      WrapTwice(x, n);
      var y := x + (if x < 0 then -1 else 0) + n;
      assert RoundingDivideByPOT(x, exponent) == y / (2 * n);
      HalfAway(x, n, y / (2 * n));
    }
  }

  lemma AwayExact(r: int, p: int)
    requires p > 0
    ensures NearestAway(r, r * p, p)
  {
  }

  lemma Pow2Zero()
    ensures Pow2(0) == 1
  {
  }

  lemma DivideOverflows(x: int32, exponent: nat)
    requires exponent <= 31 && x + Nudge(exponent) > INT_MAX
    ensures RoundingDivideByPOT(x, exponent) < 0 < x
  {
    hide Pow2;
    NudgeBound(exponent);
    assert Wrap(x + Nudge(exponent)) == x + Nudge(exponent) - U32;
    DivShrinks(x + Nudge(exponent) - U32, Pow2(exponent));
  }

  /** The nearest integer, unless adding half of 2^exponent leaves 32 bits. */
  lemma DivideNearest(x: int32, exponent: nat)
    requires exponent <= 31
    ensures NearestAway(RoundingDivideByPOT(x, exponent), x, Pow2(exponent)) <==> x + Nudge(exponent) <= INT_MAX
  {
    hide Pow2;
    if x + Nudge(exponent) <= INT_MAX {
      DivideFits(x, exponent);
    } else {
      DivideOverflows(x, exponent);
      MulGrows(RoundingDivideByPOT(x, exponent), Pow2(exponent));
    }
  }

  lemma ProductRange(a: int32, b: int32)
    ensures -P31 * INT_MAX <= a * b <= P31 * P31
    ensures a * b > P31 * INT_MAX <==> a == INT_MIN && b == INT_MIN
  {
    var x, y := Abs(a), Abs(b);
    AbsMul(a, b);
    MulLe(x, P31, y);
    MulLe(y, P31, P31);
    if x < P31 {
      MulLe(x, INT_MAX, y);
      MulLe(y, P31, INT_MAX);
    } else if y < P31 {
      MulLe(y, INT_MAX, P31);
    }
  }

  lemma AbsMul(a: int, b: int)
    ensures a * b == if (a < 0) == (b < 0) then Abs(a) * Abs(b) else -(Abs(a) * Abs(b))
  {
  }

  lemma MulLe(x: nat, c: nat, y: nat)
    requires x <= c
    ensures x * y <= c * y && y * x <= y * c
  {
    assert c * y == x * y + (c - x) * y;
  }

  /** The nearest integer to a * b / 2^31, but for the one product that needs 33 bits. */
  lemma HighMulNearest(a: int32, b: int32)
    ensures NearestUp(HighMul(a, b), a * b, P31) <==> !(a == INT_MIN && b == INT_MIN)
    ensures a == INT_MIN && b == INT_MIN ==> HighMul(a, b) == INT_MIN
    ensures a * b >= 0 && !(a == INT_MIN && b == INT_MIN) ==> HighMul(a, b) == (a * b + P30) / P31
    ensures a * b < 0 ==> HighMul(a, b) <= 0
  {
    ProductRange(a, b);
  }

  /** The qdm path up to saturation. */
  function MultiplyAndShift(a: int32, m: int32, rshift: nat): int32 {
    RoundingDivideByPOT(HighMul(a, m), rshift)
  }

  /** |q - a * m / 2^(31 + s)| <= 1/2 + 1/2^(s + 1), scaled up by 2^(32 + s). */
  ghost predicate WithinBound(q: int, a: int, m: int, s: nat) {
    2 * Abs(a * m - q * Pow2(s) * P31) <= Pow2(s) * P31 + P31
  }

  /** What the caller has to keep clear of: a rounded product within half a unit of 2^31. */
  predicate InRange(a: int32, m: int32, s: nat) {
    a * m + P30 < P31 * (P31 - Nudge(s))
  }

  lemma InRangeIff(a: int32, m: int32, s: nat)
    requires s <= 31
    ensures InRange(a, m, s) <==> !(a == INT_MIN && m == INT_MIN) && HighMul(a, m) + Nudge(s) <= INT_MAX
  {
    hide HighMul, Nudge;
    ProductRange(a, m);
    HighMulNearest(a, m);
    NudgeBound(s);
    var n := Nudge(s);
    if a * m < 0 {
      assert P31 * (P31 - n) >= P31 * P30;
    } else {
      DivFloor(a * m + P30, P31);
    }
  }

  lemma ErrorsAdd(q: int, p: int, am: int, pow: nat)
    requires NearestUp(p, am, P31) && NearestAway(q, p, pow)
    ensures 2 * Abs(am - q * pow * P31) <= pow * P31 + P31
  {
    var e := p - q * pow;
    assert am - q * pow * P31 == (am - p * P31) + P31 * e;
  }

  /** A negative result for a product in the upper half of the range is far outside the bound. */
  lemma NegativeTooFar(q: int, am: int, pow: nat)
    requires q < 0 && pow > 0 && am + P30 >= P31 * P30
    ensures 2 * Abs(am - q * pow * P31) > pow * P31 + P31
  {
    MulGrows(q, pow);
    assert q * pow * P31 <= -(pow * P31);
  }

  lemma OutOfRange(a: int32, m: int32, s: nat)
    requires s <= 31 && !InRange(a, m, s)
    ensures MultiplyAndShift(a, m, s) < 0
    ensures a * m + P30 >= P31 * P30
  {
    hide HighMul, Nudge, RoundingDivideByPOT, Pow2, NearestUp;
    InRangeIff(a, m, s);
    HighMulNearest(a, m);
    NudgeBound(s);
    MulLe(P30, P31 - Nudge(s), P31);
    var p := HighMul(a, m);
    if p + Nudge(s) > INT_MAX {
      DivideOverflows(p, s);
    } else {
      NegativeStays(p, s);
    }
  }

  lemma NegativeStays(x: int32, s: nat)
    requires s <= 31 && x == INT_MIN
    ensures RoundingDivideByPOT(x, s) < 0
  {
    hide Pow2;
    NudgeBound(s);
    if s > 0 {
      assert Wrap(Wrap(x - 1) + Nudge(s)) == x - 1 + Nudge(s);
      DivShrinks(x - 1 + Nudge(s), Pow2(s));
    }
  }

  /** The two roundings together stay within the bound exactly on the inputs in range. */
  lemma MultiplyAndShiftError(a: int32, m: int32, s: nat)
    requires s <= 31
    ensures WithinBound(MultiplyAndShift(a, m, s), a, m, s) <==> InRange(a, m, s)
  {
    hide HighMul, Nudge, RoundingDivideByPOT, Pow2, InRange;
    InRangeIff(a, m, s);
    HighMulNearest(a, m);
    var p, q := HighMul(a, m), MultiplyAndShift(a, m, s);
    if InRange(a, m, s) {
      DivideNearest(p, s);
      ErrorsAdd(q, p, a * m, Pow2(s));
    } else {
      OutOfRange(a, m, s);
      NegativeTooFar(q, a * m, Pow2(s));
    }
  }

  // ----- Finding multiplier and shift -----------------------------------------------------------

  /** x * 2^k */
  function Scaled(x: real, k: int): real {
    if k >= 0 then x * Pow2(k) as real else x / Pow2(-k) as real
  }

  lemma DivUnique(a: real, b: real, c: real)
    requires b != 0.0 && a == c * b
    ensures a / b == c
  {
  }

  lemma HalveTwice(x: real, p: real)
    requires p > 0.0
    ensures 2.0 * (x / (2.0 * p)) == x / p
  {
    var y := x / p;
    assert y * p == x;
    DivUnique(x, 2.0 * p, y / 2.0);
  }

  lemma ScaledStep(x: real, k: int)
    ensures Scaled(x, k + 1) == 2.0 * Scaled(x, k)
  {
    if k < 0 {
      HalveTwice(x, Pow2(-k - 1) as real);
    }
  }

  lemma {:induction false} ScaledUp(x: real, k: int, j: nat)
    ensures Scaled(x, k + j) == Scaled(x, k) * Pow2(j) as real
  {
    hide Scaled;
    if j == 0 {
      Pow2Zero();
    } else {
      ScaledUp(x, k, j - 1);
      ScaledStep(x, k + (j - 1));
      DoublePower(Scaled(x, k), j);
    }
  }

  lemma DoublePower(y: real, j: nat)
    requires j > 0
    ensures y * Pow2(j) as real == 2.0 * (y * Pow2(j - 1) as real)
  {
    hide Pow2;
    Pow2Step(j);
  }

  lemma Pow2Step(j: nat)
    requires j > 0
    ensures Pow2(j) == 2 * Pow2(j - 1)
  {
  }

  lemma {:induction false} ScaledMonotone(x: real, j: nat, k: nat)
    requires x > 0.0 && j <= k
    ensures 0.0 < Scaled(x, j) <= Scaled(x, k)
    decreases k
  {
    hide Pow2;
    if j < k {
      ScaledMonotone(x, j, k - 1);
      ScaledStep(x, k - 1);
    }
  }

  /** The least shift that brings 2 * scale up to the limit. */
  ghost predicate FoundShift(scale: real, max: real, r: nat) {
    Scaled(scale, r) < max <= Scaled(scale, r + 1)
  }

  /** findRShiftAndMultiplierFromQScale without qdm. */
  method FindRShift(scale: real, max: nat) returns (rshift: nat, multiplier: nat)
    requires scale < max as real && 0 < max < U32
    ensures Scaled(scale, 63) < max as real ==> rshift == 0 && multiplier == 0
    ensures Scaled(scale, 63) >= max as real ==>
      && rshift < 63 && FoundShift(scale, max as real, rshift)
      && max <= 2 * multiplier + 1 && multiplier < max
      && 0.0 <= Scaled(scale, rshift) - multiplier as real < 1.0
  {
    hide Scaled;
    var r := 0;
    ScaledZero(scale);
    while r < 63
      invariant r <= 63 && Scaled(scale, r) < max as real
    {
      if Scaled(scale, r + 1) >= max as real {
        ScaledStep(scale, r);
        ScaledPositive(scale, r + 1);
        ScaledMonotone(scale, r + 1, 63);
        multiplier := Scaled(scale, r).Floor;
        rshift := r;
        return;
      }
      r := r + 1;
    }
    return 0, 0;
  }

  lemma ScaledZero(x: real)
    ensures Scaled(x, 0) == x
  {
  }

  lemma ScaledPositive(x: real, k: nat)
    ensures Scaled(x, k) > 0.0 <==> x > 0.0
  {
    hide Pow2;
    var p := Pow2(k) as real;
    if x > 0.0 {
      assert x * p > 0.0;
    } else {
      assert -x * p >= 0.0;
    }
  }

  /** Only one shift will do, so the multiplier uses all the precision the limit allows. */
  lemma FoundShiftUnique(scale: real, max: real, r: nat, k: nat)
    requires max > 0.0 && FoundShift(scale, max, r) && FoundShift(scale, max, k)
    ensures r == k
  {
    hide Scaled;
    ScaledPositive(scale, r + 1);
    if r < k {
      ScaledMonotone(scale, r + 1, k);
    } else if k < r {
      ScaledMonotone(scale, k + 1, r);
    }
  }

  /** With the default limit of 127 the multiplier is between 63 and 126. */
  method FindRShiftInt8(scale: real) returns (rshift: nat, multiplier: nat)
    requires scale < 127.0
    ensures Scaled(scale, 63) >= 127.0 ==> 63 <= multiplier <= 126 && 0.0 <= Scaled(scale, rshift) - multiplier as real < 1.0
    ensures Scaled(scale, 63) < 127.0 ==> multiplier == 0
  {
    hide Scaled;
    rshift, multiplier := FindRShift(scale, 127);
  }

  // ----- QuantizeMultiplier and the whole qdm path ----------------------------------------------

  function AbsR(x: real): real {
    if x < 0.0 then -x else x
  }

  /** std::round: the nearest integer, the one further from zero if there are two. */
  function Round(x: real): (r: int)
    ensures AbsR(x - r as real) <= 0.5
    ensures AbsR(x - r as real) == 0.5 ==> AbsR(r as real) > AbsR(x)
  {
    if x >= 0.0 then (x + 0.5).Floor else -((-x + 0.5).Floor)
  }

  /** std::frexp: x = fraction * 2^exponent with the fraction in [1/2, 1), up to sign. */
  ghost predicate Frexp(x: real, fraction: real, exponent: int) {
    fraction == Scaled(x, -exponent) && 0.5 <= AbsR(fraction) < 1.0
  }

  /** The multiplier and shift of a scale, given what frexp makes of it. */
  function Quantized(x: real, fraction: real, exponent: int): (int, int) {
    var fixed := Round(fraction * P31 as real);
    var (f, shift) := if fixed == P31 then (P30, exponent + 1) else (fixed, exponent);
    if x == 0.0 || shift < -31 then (0, 0) else (f, shift)
  }

  /**
   QuantizeMultiplier, given what frexp makes of a non-zero multiplier: 30 bits of precision, and
   flushed to zero only below 2^-32.
   */
  method QuantizeMultiplier(x: real, fraction: real, exponent: int) returns (multiplier: int32, shift: int)
    requires x != 0.0 ==> Frexp(x, fraction, exponent)
    ensures (multiplier as int, shift) == Quantized(x, fraction, exponent)
    ensures x == 0.0 ==> multiplier == 0 && shift == 0
    ensures x != 0.0 && multiplier == 0 ==> shift == 0 && exponent < -31
    ensures multiplier != 0 ==> -31 <= shift && exponent <= shift <= exponent + 1
    ensures multiplier != 0 ==> P30 <= Abs(multiplier) && AbsR(Scaled(x, 31 - shift) - multiplier as real) <= 0.5
  {
    hide Scaled;
    hide Round;
    if x == 0.0 {
      return 0, 0;
    }
    ScaledUp(x, -exponent, 31);
    Pow2At();
    var scaled := fraction * P31 as real;
    var fixed := Round(scaled);
    shift := exponent;
    if fixed == P31 {
      ScaledStep(x, 30 - exponent);
      fixed := P30;
      shift := shift + 1;
    }
    if shift < -31 {
      shift, fixed := 0, 0;
    }
    multiplier := fixed;
  }

  /**
   From a real scale to an integer result: as long as the product is in range, the result is within
   1/2 + 1/2^s of accumulator times scale. (Both sides are multiplied by 2^(31 + s).)
   */
  lemma QdmError(scale: real, a: int32, m: int32, s: nat)
    requires s <= 31 && AbsR(Scaled(scale, 31 + s) - m as real) <= 0.5 && InRange(a, m, s)
    ensures var unit := Pow2(s) as real * P31 as real;
            AbsR(a as real * Scaled(scale, 31 + s) - MultiplyAndShift(a, m, s) as real * unit) <= unit / 2.0 + P31 as real
  {
    hide Scaled, MultiplyAndShift, InRange, Pow2;
    CastMul(Pow2(s), P31);
    MultiplyAndShiftError(a, m, s);
    var q := MultiplyAndShift(a, m, s);
    ErrorsAddReal(q, a, m, Pow2(s), Scaled(scale, 31 + s));
  }

  lemma ErrorsAddReal(q: int, a: int32, m: int32, pow: nat, x: real)
    requires 2 * Abs(a * m - q * pow * P31) <= pow * P31 + P31
    requires AbsR(x - m as real) <= 0.5
    ensures AbsR(a as real * x - q as real * (pow * P31) as real) <= (pow * P31) as real / 2.0 + P31 as real
  {
    var e, unit := x - m as real, (pow * P31) as real;
    var am, qu := a as real * m as real, q as real * unit;
    ScaleError(a as real, e, P31 as real);
    Distribute(a as real, m as real, e);
    CastProducts(q, a, m, pow);
    HalfBound(a * m - q * pow * P31, pow * P31 + P31);
    AddErrors(a as real * x, am, qu, a as real * e, unit, P31 as real);
  }

  lemma Distribute(a: real, m: real, e: real)
    ensures a * (m + e) == a * m + a * e
  {
  }

  lemma HalfBound(d: int, b: int)
    requires 2 * Abs(d) <= b
    ensures AbsR(d as real) <= b as real / 2.0
  {
  }

  lemma AddErrors(ax: real, am: real, qu: real, ae: real, unit: real, c: real)
    requires ax == am + ae && AbsR(am - qu) <= (unit + c) / 2.0 && AbsR(ae) <= c / 2.0
    ensures AbsR(ax - qu) <= unit / 2.0 + c
  {
  }

  lemma CastProducts(q: int, a: int, m: int, pow: nat)
    ensures a as real * m as real - q as real * (pow * P31) as real == (a * m - q * pow * P31) as real
  {
    assert q * (pow * P31) == q * pow * P31;
    CastMul(a, m);
    CastMul(q, pow * P31);
  }

  lemma CastMul(a: int, b: int)
    ensures a as real * b as real == (a * b) as real
  {
  }

  lemma ScaleError(a: real, e: real, c: real)
    requires AbsR(a) <= c && AbsR(e) <= 0.5
    ensures AbsR(a * e) <= c / 2.0
  {
    assert AbsR(a * e) == AbsR(a) * AbsR(e);
    assert AbsR(a) * AbsR(e) <= AbsR(a) * 0.5;
  }

  // ----- From scale to result -------------------------------------------------------------------

  /** |q - a * scale| <= 1/2 + 1/2^s */
  ghost predicate Accurate(q: int, scale: real, a: int, s: nat) {
    AbsR(a as real * scale - q as real) <= 0.5 + 1.0 / Pow2(s) as real
  }

  /** What a caller can check of scale and accumulator: flushed to zero, or a rounded product in range. */
  ghost predicate ScaleInRange(scale: real, fraction: real, exponent: int, a: int32) {
    var (m, shift) := Quantized(scale, fraction, exponent);
    m == 0 || (INT_MIN <= m <= INT_MAX && shift <= 0 && InRange(a, m, -shift))
  }

  /**
   findRShiftAndMultiplierFromQScale and applyMultiplierAndRShiftAndSaturateInt8 in qdm mode, up to
   saturation: scale and accumulator in, rounded product out. `ok` is false where the source asserts a
   non-negative shift. The result is within 1/2 + 1/2^s exactly when scale and accumulator are in range.
   */
  method ScaleAccumulator(scale: real, fraction: real, exponent: int, a: int32) returns (ok: bool, s: nat, q: int32)
    requires scale != 0.0 ==> Frexp(scale, fraction, exponent)
    ensures ok <==> Quantized(scale, fraction, exponent).1 <= 0
    ensures ok ==> s == -Quantized(scale, fraction, exponent).1
    ensures ok ==> (Accurate(q, scale, a, s) <==> ScaleInRange(scale, fraction, exponent, a))
    ensures ok && Quantized(scale, fraction, exponent).0 == 0 ==> q == 0 && AbsR(a as real * scale) <= 0.5
  {
    hide Scaled, InRange, Pow2, MultiplyAndShift, Quantized, Accurate;
    var m, shift := QuantizeMultiplier(scale, fraction, exponent);
    ok, s, q := shift <= 0, 0, 0;
    if !ok {
      return;
    }
    s := -shift;
    q := MultiplyAndShift(a, m, s);
    if m == 0 {
      ZeroMultiplier(a);
      if scale != 0.0 {
        Flushed(scale, fraction, exponent, a);
      }
      NothingIsAccurate(scale, a);
    } else if InRange(a, m, s) {
      ErrorPerUnit(scale, a, m, s);
    } else {
      ErrorBeyond(scale, a, m, s);
    }
  }

  lemma NothingIsAccurate(scale: real, a: int32)
    requires AbsR(a as real * scale) <= 0.5
    ensures Accurate(0, scale, a, 0)
  {
    Pow2Zero();
  }

  lemma ErrorPerUnit(scale: real, a: int32, m: int32, s: nat)
    requires s <= 31 && AbsR(Scaled(scale, 31 + s) - m as real) <= 0.5 && InRange(a, m, s)
    ensures Accurate(MultiplyAndShift(a, m, s), scale, a, s)
  {
    hide Scaled, InRange, Pow2, MultiplyAndShift;
    QdmError(scale, a, m, s);
    ScaledNatural(scale, s);
    AtLeastOne(s);
    PerUnitFrom(a as real, scale, Pow2(s) as real, P31 as real, MultiplyAndShift(a, m, s) as real, Scaled(scale, 31 + s));
  }

  lemma AtLeastOne(s: nat)
    ensures Pow2(s) as real >= 1.0
  {
  }

  lemma PerUnitFrom(a: real, scale: real, pow: real, c: real, q: real, x: real)
    requires pow >= 1.0 && c > 0.0 && x == scale * (pow * c)
    requires AbsR(a * x - q * (pow * c)) <= pow * c / 2.0 + c
    ensures AbsR(a * scale - q) <= 0.5 + 1.0 / pow
  {
    Reassociate(a, scale, pow * c);
    PerUnit(a * scale, q, pow, c);
  }

  /** Out of range the result is negative although the product is large. */
  lemma ErrorBeyond(scale: real, a: int32, m: int32, s: nat)
    requires s <= 31 && AbsR(Scaled(scale, 31 + s) - m as real) <= 0.5 && !InRange(a, m, s)
    ensures !Accurate(MultiplyAndShift(a, m, s), scale, a, s)
  {
    hide Scaled, InRange, Pow2, MultiplyAndShift;
    OutOfRange(a, m, s);
    ScaledNatural(scale, s);
    AtLeastOne(s);
    LargeProduct(a, m);
    BeyondFrom(a as real, m as real, scale, Pow2(s) as real, P31 as real, MultiplyAndShift(a, m, s) as real, Scaled(scale, 31 + s));
  }

  lemma LargeProduct(a: int32, m: int32)
    requires a * m + P30 >= P31 * P30
    ensures a as real * m as real >= 2.0 * P31 as real
    ensures AbsR(a as real) <= P31 as real
  {
    CastMul(a, m);
  }

  lemma BeyondFrom(a: real, m: real, scale: real, pow: real, c: real, q: real, x: real)
    requires pow >= 1.0 && c > 0.0 && x == scale * (pow * c) && AbsR(x - m) <= 0.5
    requires AbsR(a) <= c && a * m >= 2.0 * c && q <= -1.0
    ensures AbsR(a * scale - q) > 0.5 + 1.0 / pow
  {
    UnitAtLeast(q, pow, c);
    OneOver(pow, c);
    BeyondBound(a, m, scale, pow * c, c, q, x - m, 0.5 + 1.0 / pow);
  }

  lemma BeyondBound(a: real, m: real, scale: real, unit: real, c: real, q: real, e: real, bound: real)
    requires unit >= c > 0.0 && scale * unit == m + e && AbsR(e) <= 0.5
    requires AbsR(a) <= c && a * m >= 2.0 * c && q * unit <= -unit && bound * unit == unit / 2.0 + c
    ensures AbsR(a * scale - q) > bound
  {
    BeyondUnits(a, m, scale, unit, c, q * unit, e);
    AboveBound(a * scale, q, unit, bound);
  }

  lemma AboveBound(x: real, q: real, unit: real, bound: real)
    requires unit > 0.0 && AbsR(x * unit - q * unit) > bound * unit
    ensures AbsR(x - q) > bound
  {
    AbsScale(x, q, unit);
    BoundScaled(AbsR(x - q), bound, unit);
  }

  lemma BeyondUnits(a: real, m: real, scale: real, unit: real, c: real, qu: real, e: real)
    requires unit >= c > 0.0 && scale * unit == m + e && AbsR(e) <= 0.5
    requires AbsR(a) <= c && a * m >= 2.0 * c && qu <= -unit
    ensures AbsR(a * scale * unit - qu) > unit / 2.0 + c
  {
    ScaleError(a, e, c);
    SplitProduct(a, scale, unit, m, e);
    FarApart(a * m, a * e, qu, unit, c);
  }

  lemma SplitProduct(a: real, x: real, unit: real, m: real, e: real)
    requires x * unit == m + e
    ensures a * x * unit == a * m + a * e
  {
    Reassociate(a, x, unit);
    Distribute(a, m, e);
  }

  lemma FarApart(am: real, ae: real, qu: real, unit: real, c: real)
    requires c > 0.0 && am >= 2.0 * c && AbsR(ae) <= c / 2.0 && qu <= -unit && unit >= c
    ensures AbsR(am + ae - qu) > unit / 2.0 + c
  {
  }

  /** A bound holds scaled up if it holds. */
  lemma BoundScaled(z: real, bound: real, unit: real)
    requires unit > 0.0
    ensures z <= bound ==> z * unit <= bound * unit
  {
    MulSigns(bound - z, unit);
    assert (bound - z) * unit == bound * unit - z * unit;
  }

  lemma UnitAtLeast(q: real, pow: real, c: real)
    requires q <= -1.0 && pow >= 1.0 && c > 0.0
    ensures pow * c >= c && q * (pow * c) <= -(pow * c)
  {
    MulSigns(pow - 1.0, c);
    assert (pow - 1.0) * c == pow * c - c;
    MulSigns(-1.0 - q, pow * c);
    assert (-1.0 - q) * (pow * c) == -(pow * c) - q * (pow * c);
  }

  lemma ZeroMultiplier(a: int32)
    ensures MultiplyAndShift(a, 0, 0) == 0
  {
  }

  lemma Reassociate(a: real, b: real, c: real)
    ensures a * (b * c) == a * b * c
  {
  }

  /** 2^(31 + s) */
  lemma ScaledNatural(x: real, s: nat)
    ensures Scaled(x, 31 + s) == x * (Pow2(s) as real * P31 as real)
  {
    hide Pow2;
    ScaledUp(x, s, 31);
    Pow2At();
    Reassociate(x, Pow2(s) as real, P31 as real);
  }

  lemma PerUnit(x: real, q: real, pow: real, c: real)
    requires pow >= 1.0 && c > 0.0
    requires AbsR(x * (pow * c) - q * (pow * c)) <= pow * c / 2.0 + c
    ensures AbsR(x - q) <= 0.5 + 1.0 / pow
  {
    var unit, z := pow * c, AbsR(x - q);
    assert unit > 0.0;
    AbsScale(x, q, unit);
    var bound := 0.5 + 1.0 / pow;
    assert bound * unit == unit / 2.0 + c by { OneOver(pow, c); }
    if z > bound {
      MulSigns(z - bound, unit);
    }
  }

  lemma MulSigns(u: real, v: real)
    ensures u >= 0.0 && v >= 0.0 ==> u * v >= 0.0
    ensures u > 0.0 && v > 0.0 ==> u * v > 0.0
  {
  }

  lemma AbsScale(x: real, q: real, unit: real)
    requires unit > 0.0
    ensures AbsR(x * unit - q * unit) == AbsR(x - q) * unit
  {
    assert x * unit - q * unit == (x - q) * unit;
  }

  lemma OneOver(pow: real, c: real)
    requires pow > 0.0
    ensures (0.5 + 1.0 / pow) * (pow * c) == pow * c / 2.0 + c
  {
    var inv := 1.0 / pow;
    assert inv * pow == 1.0;
    Reassociate(inv, pow, c);
  }

  /** Below 2^-32 no 32-bit accumulator reaches one half. */
  lemma Flushed(x: real, fraction: real, exponent: int, a: int32)
    requires Frexp(x, fraction, exponent) && exponent < -31
    ensures AbsR(a as real * x) <= 0.5
  {
    hide Scaled;
    ScaledUp(x, 32, -exponent - 32);
    ScaledNatural(x, 1);
    var big, more := Scaled(x, 32), Pow2(-exponent - 32) as real;
    assert fraction == big * more && more >= 1.0;
    Shrinks(big, more);
    assert Pow2(1) == 2;
    SmallProduct(a as real, x);
  }

  lemma Shrinks(big: real, more: real)
    requires more >= 1.0 && AbsR(big * more) < 1.0
    ensures AbsR(big) < 1.0
  {
    assert AbsR(big * more) == AbsR(big) * more;
    assert AbsR(big) * (more - 1.0) >= 0.0;
  }

  lemma SmallProduct(a: real, x: real)
    requires AbsR(a) <= P31 as real && AbsR(x * (2.0 * P31 as real)) < 1.0
    ensures AbsR(a * x) <= 0.5
  {
    var c := P31 as real;
    assert AbsR(x * (2.0 * c)) == AbsR(x) * (2.0 * c);
    assert AbsR(a * x) == AbsR(a) * AbsR(x);
    MulSigns(c - AbsR(a), AbsR(x));
    assert (c - AbsR(a)) * AbsR(x) == c * AbsR(x) - AbsR(a) * AbsR(x);
  }
}
