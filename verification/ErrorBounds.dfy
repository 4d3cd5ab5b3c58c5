// The error accounting of external/double-conversion/strtod.cc: how far a 64-bit
// significand may be from the number it stands for, in eighths of its unit.
module ErrorBounds {
  import opened Powers
  import opened DigitGeneration
  import opened DecimalMeaning
  import opened DiyFps

  // An eighth of 2^e.
  ghost function Eighth(e: int): real { RPow(2, e - 3) }

  lemma EighthIs(e: int)
    ensures Eighth(e) == RPow(2, e - 3) && 0.0 < Eighth(e)
  {
    RPowPos(2, e - 3);
  }

  ghost function TimesTens(y: real, q: int): real { y * RPow(10, q) }

  lemma TimesTensIs(y: real, q: int, z: real)
    requires z == RPow(10, q)
    ensures TimesTens(y, q) == y * z
  {
  }

  // x is f units, give or take err eighths; w is an eighth of a unit.
  ghost predicate Within(x: real, f: int, err: int, w: real)
  {
    (8 * f - err) as real * w <= x <= (8 * f + err) as real * w
  }

  ghost predicate StrictlyWithin(x: real, f: int, err: int, w: real)
  {
    (8 * f - err) as real * w < x < (8 * f + err) as real * w
  }

  // ---------- Shifting ----------

  lemma ScaledEighths(a: int, p: nat, w: real)
    ensures (a * p) as real * w == a as real * (p as real * w)
  {
    RealMul(a, p);
    RealAssoc(a as real, p as real, w);
  }

  lemma Distribute(f: int, err: int, p: nat)
    ensures 8 * (f * p) - err * p == (8 * f - err) * p
    ensures 8 * (f * p) + err * p == (8 * f + err) * p
  {
  }

  // Shifting the significand and the error to the left loses nothing.
  lemma WithinShifted(x: real, f: int, err: int, w: real, p: nat)
    ensures Within(x, f * p, err * p, w) <==> Within(x, f, err, p as real * w)
    ensures StrictlyWithin(x, f * p, err * p, w) <==> StrictlyWithin(x, f, err, p as real * w)
  {
    Distribute(f, err, p);
    ScaledEighths(8 * f - err, p, w);
    ScaledEighths(8 * f + err, p, w);
  }

  // Shifting right loses less than a unit, and an eighth for the error itself.
  lemma WithinShiftedRight(x: real, f: nat, err: nat, w: real, p: nat)
    requires StrictlyWithin(x, f, err, w) && 0.0 < w && 0 < p
    ensures StrictlyWithin(x, f / p, err / p + 9, p as real * w)
  {
    DivMod(f, p);
    DivMod(err, p);
    var f', err' := f / p, err / p;
    Distribute(f', err' + 9, p);
    assert (err' + 9) * p == err' * p + 9 * p;
    ScaledEighths(8 * f' - (err' + 9), p, w);
    ScaledEighths(8 * f' + (err' + 9), p, w);
    RealMulLe((8 * f + err) as real, ((8 * f' + (err' + 9)) * p) as real, w);
    RealMulLe(((8 * f' - (err' + 9)) * p) as real, (8 * f - err) as real, w);
  }

  // ---------- Multiplying ----------

  predicate ProductLe(a: int, b: int, c: int, d: int) { a * b <= c * d }

  predicate ProductLt(a: int, b: int, c: int, d: int) { a * b < c * d }

  lemma AtMostProduct(x: real, y: real, a: int, b: int, c: int, w: real, t: real, m: int)
    requires 0.0 <= x <= a as real * w && y <= b as real * t && 0.0 < w && 0.0 < t && 0 <= b && ProductLe(a, b, c, m)
    ensures x * y <= c as real * (m as real * (w * t))
    ensures ProductLt(a, b, c, m) ==> x * y < c as real * (m as real * (w * t))
  {
    TwoProducts(x, y, a as real, b as real, w, t);
    RealMul(a, b);
    RealMul(c, m);
    Regroup(a as real, b as real, w, t);
    RealPositive(w, t);
    RealAssoc(c as real, m as real, w * t);
    ScaleLe(a * b, c * m, w * t);
  }

  lemma TwoProducts(x: real, y: real, a: real, b: real, w: real, t: real)
    requires 0.0 <= x <= a * w && y <= b * t && 0.0 <= b && 0.0 < t
    ensures x * y <= a * w * (b * t)
  {
    RealMulLe(0.0, b, t);
    RealMulLe(x, a * w, b * t);
    RealMulLe(y, b * t, x);
  }

  lemma Regroup(a: real, b: real, w: real, t: real)
    ensures a * w * (b * t) == a * b * (w * t)
  {
  }

  lemma AtLeastProduct(x: real, y: real, a: int, b: int, c: int, w: real, t: real, m: int)
    requires a as real * w <= x && b as real * t <= y && 0.0 < w && 0.0 < t && 0 <= a && 0 <= b && ProductLe(c, m, a, b)
    ensures c as real * (m as real * (w * t)) <= x * y
    ensures ProductLt(c, m, a, b) ==> c as real * (m as real * (w * t)) < x * y
  {
    TwoLowerProducts(x, y, a as real, b as real, w, t);
    RealMul(a, b);
    RealMul(c, m);
    Regroup(a as real, b as real, w, t);
    RealPositive(w, t);
    RealAssoc(c as real, m as real, w * t);
    ScaleLe(c * m, a * b, w * t);
  }

  lemma TwoLowerProducts(x: real, y: real, a: real, b: real, w: real, t: real)
    requires a * w <= x && b * t <= y && 0.0 <= b && 0.0 <= a && 0.0 < w && 0.0 < t
    ensures a * w * (b * t) <= x * y && 0.0 <= x
  {
    RealMulLe(0.0, b, t);
    RealMulLe(0.0, a, w);
    RealMulLe(a * w, x, b * t);
    RealMulLe(b * t, y, x);
  }

  // The rounded upper half of a product is within half a unit.
  lemma RoundedProduct(f: nat, g: nat, h: nat)
    requires 0 <= f * g && h == HalfUp(f * g, TWO_64)
    ensures (2 * h - 1) * TWO_64 <= 2 * (f * g) < (2 * h + 1) * TWO_64
  {
    hide HalfUp;
    HalfUpBounds(f * g, TWO_64, h);
  }

  // The interval of x times y, where y is between k and l units of t.
  lemma WithinProduct(x: real, f: nat, err: nat, w: real, y: real, k: nat, l: nat, t: real, h: nat, e: nat, m: int, unit: real)
    requires unit == m as real * (w * t)
    requires Within(x, f, err, w) && 0.0 < w && 0.0 < t && err <= 8 * f
    requires k as real * t <= y <= l as real * t
    requires ProductLe(8 * h - e, m, 8 * f - err, k) && ProductLe(8 * f + err, l, 8 * h + e, m)
    ensures Within(x * y, h, e, unit)
    ensures ProductLt(8 * h - e, m, 8 * f - err, k) && ProductLt(8 * f + err, l, 8 * h + e, m) ==>
      StrictlyWithin(x * y, h, e, unit)
  {
    hide ProductLe, ProductLt;
    RealMulLe(0.0, (8 * f - err) as real, w);
    AtMostProduct(x, y, 8 * f + err, l, 8 * h + e, w, t, m);
    AtLeastProduct(x, y, 8 * f - err, k, 8 * h - e, w, t, m);
  }

  // By an exact factor y of g units of t.
  lemma MultiplyExact(x: real, f: nat, err: nat, w: real, y: real, g: nat, t: real, h: nat, unit: real)
    requires y == g as real * t && unit == TWO_64 as real * (w * t)
    requires Within(x, f, err, w) && 0.0 < w && 0.0 < t && g <= TWO_64 && err <= 8 * f
    requires 0 <= f * g && h == HalfUp(f * g, TWO_64)
    ensures Within(x * y, h, err + 4, unit)
  {
    hide HalfUp, ProductLe, ProductLt;
    ExactFactors(f, err, g, h);
    WithinProduct(x, f, err, w, y, g, g, t, h, err + 4, TWO_64, unit);
  }

  lemma ExactFactors(f: nat, err: nat, g: nat, h: nat)
    requires g <= TWO_64 && 0 <= f * g && h == HalfUp(f * g, TWO_64)
    ensures ProductLe(8 * f + err, g, 8 * h + (err + 4), TWO_64)
    ensures ProductLe(8 * h - (err + 4), TWO_64, 8 * f - err, g)
  {
    hide HalfUp;
    RoundedProduct(f, g, h);
    ExactBounds(f, err, g, h, f * g);
  }

  lemma ExactBounds(f: nat, err: nat, g: nat, h: nat, p: nat)
    requires p == f * g && g <= TWO_64 && (2 * h - 1) * TWO_64 <= 2 * p < (2 * h + 1) * TWO_64
    ensures (8 * f + err) * g <= (8 * h + (err + 4)) * TWO_64
    ensures (8 * h - (err + 4)) * TWO_64 <= (8 * f - err) * g
  {
    MulLe(g, TWO_64, err);
    assert (8 * f + err) * g == 8 * p + err * g;
    assert (8 * f - err) * g == 8 * p - err * g;
  }

  // By a factor y that is only known to half a unit: strictly within an error of
  // one more unit.
  lemma MultiplyRounded(x: real, f: nat, err: nat, w: real, y: real, g: nat, t: real, h: nat, unit: real)
    requires unit == (2 * TWO_64) as real * (w * t)
    requires Within(x, f, err, w) && 0.0 < w && 0.0 < t && f < TWO_64 && 0 < g < TWO_64 && err <= 8 * f
    requires (2 * g - 1) as real * t <= y <= (2 * g + 1) as real * t
    requires 0 <= f * g && h == HalfUp(f * g, TWO_64)
    ensures StrictlyWithin(x * y, h, err + 8, unit)
  {
    hide HalfUp, ProductLe, ProductLt;
    RoundedFactors(f, err, g, h);
    WithinProduct(x, f, err, w, y, 2 * g - 1, 2 * g + 1, t, h, err + 8, 2 * TWO_64, unit);
  }

  lemma RoundedFactors(f: nat, err: nat, g: nat, h: nat)
    requires f < TWO_64 && g < TWO_64 && 0 <= f * g && h == HalfUp(f * g, TWO_64)
    ensures ProductLt(8 * f + err, 2 * g + 1, 8 * h + (err + 8), 2 * TWO_64)
    ensures ProductLt(8 * h - (err + 8), 2 * TWO_64, 8 * f - err, 2 * g - 1)
    ensures ProductLe(8 * f + err, 2 * g + 1, 8 * h + (err + 8), 2 * TWO_64)
    ensures ProductLe(8 * h - (err + 8), 2 * TWO_64, 8 * f - err, 2 * g - 1)
  {
    hide HalfUp;
    RoundedProduct(f, g, h);
    RoundedBounds(f, err, g, h, f * g);
  }

  lemma RoundedBounds(f: nat, err: nat, g: nat, h: nat, p: nat)
    requires p == f * g && f < TWO_64 && g < TWO_64 && (2 * h - 1) * TWO_64 <= 2 * p < (2 * h + 1) * TWO_64
    ensures (8 * f + err) * (2 * g + 1) < (8 * h + (err + 8)) * (2 * TWO_64)
    ensures (8 * h - (err + 8)) * (2 * TWO_64) < (8 * f - err) * (2 * g - 1)
  {
    MulLe(g, TWO_64 - 1, err);
    assert (8 * f + err) * (2 * g + 1) == 16 * p + 8 * f + 2 * (g * err) + err;
    assert (8 * f - err) * (2 * g - 1) == 16 * p - 8 * f - 2 * (g * err) + err;
  }

  lemma Weaker(x: real, f: int, err: int, more: int, w: real)
    requires StrictlyWithin(x, f, err, w) && err <= more && 0.0 < w
    ensures StrictlyWithin(x, f, more, w)
  {
    BelowLarger(x, 8 * f + err, 8 * f + more, w);
    AboveSmaller(x, 8 * f - err, 8 * f - more, w);
  }

  lemma BelowLarger(x: real, a: int, b: int, w: real)
    requires x < a as real * w && a <= b && 0.0 < w
    ensures x < b as real * w
  {
    RealMulLe(a as real, b as real, w);
  }

  lemma AboveSmaller(x: real, a: int, b: int, w: real)
    requires a as real * w < x && b <= a && 0.0 < w
    ensures b as real * w < x
  {
    RealMulLe(b as real, a as real, w);
  }
}
