// external/double-conversion/strtod.cc: the approximation of decimal digits with
// 64-bit arithmetic and an error bound.
module Approximation {
  import opened Powers
  import opened Decimal
  import opened DigitGeneration
  import opened DecimalMeaning
  import opened DiyFps
  import opened DoubleBits
  import opened Ieee
  import opened CachedPowers
  import opened ErrorBounds
  import opened Underflow
  import opened Comparison
  import opened Rounding

  const MAX_UINT64: int := 0xFFFF_FFFF_FFFF_FFFF
  const MAX_UINT64_DECIMAL_DIGITS := 19
  const DENOMINATOR := 8

  // ---------- Reading as many digits as fit ----------

  method ReadUint64(buffer: seq<char>) returns (result: uint64, readDigits: nat)
    requires IsDigits(buffer)
    ensures readDigits <= |buffer| && result == DecVal(buffer[..readDigits])
    ensures readDigits < |buffer| ==> MAX_UINT64 / 10 <= result
    ensures result < MAX_UINT64 && (|buffer| > 0 ==> readDigits > 0)
  {
    hide DecVal;
    result := 0;
    var i := 0;
    DecEmpty();
    assert buffer[..0] == [];
    while i < |buffer| && result <= MAX_UINT64 / 10 - 1
      invariant 0 <= i <= |buffer| && 0 <= result < MAX_UINT64 && result == DecVal(buffer[..i])
    {
      DecAppend(buffer[..i], buffer[i]);
      assert buffer[..i + 1] == buffer[..i] + [buffer[i]];
      result := 10 * result + DigitValue(buffer[i]);
      i := i + 1;
    }
    readDigits := i;
  }

  // The unread digits round the significand, halves upwards.
  method ReadDiyFp(buffer: seq<char>) returns (result: DiyFp, remaining: nat)
    requires IsDigits(buffer) && |buffer| > 0
    ensures fresh(result) && result.e == 0 && result.f <= MAX_UINT64 && remaining < |buffer|
    ensures 0 < Pow(10, remaining) && result.f == HalfUp(DecVal(buffer), Pow(10, remaining))
    ensures remaining > 0 ==> MAX_UINT64 / 10 <= result.f
    ensures remaining == 0 ==> result.f == DecVal(buffer)
    ensures |buffer| < MAX_UINT64_DECIMAL_DIGITS ==> remaining == 0
  {
    hide DecVal, Pow, HalfUp;
    var significand, readDigits := ReadUint64(buffer);
    PowZero(10);
    if |buffer| < MAX_UINT64_DECIMAL_DIGITS { ShortIsReadWhole(buffer, readDigits); }
    if |buffer| == readDigits {
      assert buffer[..readDigits] == buffer;
      HalfUpFromDigits(DecVal(buffer), 1, DecVal(buffer), 0);
      result := new DiyFp(significand, 0);
      remaining := 0;
    } else {
      UnreadDigits(buffer, readDigits);
      PowPos(10, |buffer| - readDigits);
      if buffer[readDigits] >= '5' {
        significand := significand + 1;
      }
      result := new DiyFp(significand, 0);
      remaining := |buffer| - readDigits;
    }
  }

  lemma ShortIsReadWhole(buffer: seq<char>, readDigits: nat)
    requires IsDigits(buffer) && readDigits <= |buffer| < MAX_UINT64_DECIMAL_DIGITS
    requires readDigits < |buffer| ==> MAX_UINT64 / 10 <= DecVal(buffer[..readDigits])
    ensures readDigits == |buffer|
  {
    hide DecVal, Pow;
    if readDigits < |buffer| {
      DecBound(buffer[..readDigits]);
      PowMono(10, readDigits, 17);
      TenTo17();
    }
  }

  lemma TenTo17()
    ensures Pow(10, 17) == 100_000_000_000_000_000
  {
    hide Pow;
    AdjustmentPowers();
    PowAdd(10, 7, 7);
    PowAdd(10, 14, 3);
  }

  // The first unread digit decides how the whole rest rounds.
  lemma UnreadDigits(buffer: seq<char>, n: nat)
    requires IsDigits(buffer) && n < |buffer|
    ensures 0 < Pow(10, |buffer| - n)
    ensures HalfUp(DecVal(buffer), Pow(10, |buffer| - n))
         == DecVal(buffer[..n]) + (if buffer[n] >= '5' then 1 else 0)
  {
    hide DecVal, Pow, HalfUp;
    var low, rest := buffer[..n], buffer[n..];
    assert buffer == low + rest;
    DecConcat(low, rest);
    DecBound(rest);
    PowPos(10, |rest|);
    HalfUpFromDigits(DecVal(buffer), Pow(10, |rest|), DecVal(low), DecVal(rest));
    var tail := rest[1..];
    assert rest == [rest[0]] + tail;
    DecConcat([rest[0]], tail);
    DecSingle(rest[0]);
    DecBound(tail);
    PowStep(10, |tail|);
    FirstDigitDecides(DigitValue(rest[0]), DecVal(tail), Pow(10, |tail|));
  }

  lemma DecSingle(c: char)
    requires IsDigit(c)
    ensures DecVal([c]) == DigitValue(c)
  {
    assert [c] == [] + [c];
    DecAppend([], c);
  }

  lemma FirstDigitDecides(d: nat, tail: nat, p: nat)
    requires d <= 9 && tail < p
    ensures 2 * (d * p + tail) >= 10 * p <==> d >= 5
  {
    if d >= 5 { MulLe(5, d, p); } else { MulLe(d, 4, p); }
  }

  // ---------- The approximation and its error ----------

  // The digits before the point when 'remaining' of them come after it.
  ghost function Leading(buffer: seq<char>, remaining: nat): real
    requires IsDigits(buffer)
  {
    DecimalValue(DecVal(buffer), 0 - remaining)
  }

  lemma ReadingError(v: nat, remaining: nat, f: nat)
    requires 0 < Pow(10, remaining) && f == HalfUp(v, Pow(10, remaining))
    ensures Within(DecimalValue(v, 0 - remaining), f, if remaining == 0 then 0 else 4, Eighth(0))
    ensures f as real - 0.5 <= DecimalValue(v, 0 - remaining) < f as real + 0.5
    ensures remaining == 0 ==> DecimalValue(v, 0 - remaining) == f as real
  {
    hide Pow, RPow, HalfUp, DecimalValue;
    OneEighth();
    LeadingTimes(v, remaining);
    if remaining == 0 {
      PowZero(10);
      HalfUpOfOne(v);
    } else {
      RoundedHalf(v, Pow(10, remaining), f, DecimalValue(v, 0 - remaining));
    }
  }

  lemma LeadingTimes(v: nat, remaining: nat)
    ensures DecimalValue(v, 0 - remaining) * Pow(10, remaining) as real == v as real
  {
    hide Pow, RPow, DecimalValue;
    DecimalIs(v, 0 - remaining);
    RPowNat(10, remaining);
    RPowAdd(10, 0 - remaining, remaining);
    RPowZero(10);
    RealAssoc(v as real, RPow(10, 0 - remaining), RPow(10, remaining));
  }

  lemma RoundedHalf(v: nat, p: nat, f: nat, y: real)
    requires 0 < p && f == HalfUp(v, p) && y * p as real == v as real
    ensures f as real - 0.5 <= y < f as real + 0.5
  {
    hide HalfUp;
    HalfUpBounds(v, p, f);
    HalfUnit(v, p, f);
    DoubleBetween(2 * f - 1, 2 * f + 1, v, p, y);
  }

  lemma DoubleBetween(a: int, b: int, v: int, p: nat, y: real)
    requires 0 < p && a * p <= 2 * v < b * p && y * p as real == v as real
    ensures a as real <= 2.0 * y < b as real
  {
    RealMul(a, p);
    RealMul(b, p);
    Doubled(y, p as real);
    RealScaleLe(a as real, 2.0 * y, p as real);
    RealScaleLe(2.0 * y, b as real, p as real);
  }

  lemma Doubled(y: real, p: real)
    ensures 2.0 * y * p == 2.0 * (y * p)
  {
  }

  lemma HalfUpOfOne(v: nat)
    ensures HalfUp(v, 1) == v
  {
  }

  lemma OneEighth()
    ensures Eighth(0) == 0.125
  {
  }

  lemma HalfUnit(v: nat, p: nat, f: nat)
    requires f * (2 * p) <= 2 * v + p < (f + 1) * (2 * p)
    ensures (2 * f - 1) * p <= 2 * v < (2 * f + 1) * p
  {
  }

  lemma ReadNonNegative(buffer: seq<char>, exponent: int)
    requires IsDigits(buffer)
    ensures 0.0 <= Read(buffer, exponent)
  {
    hide RPow, DecVal;
    RPowPos(10, exponent);
    RealMulLe(0.0, DecVal(buffer) as real, RPow(10, exponent));
  }
  // The digits as a normalized significand and an error in eighths of its unit.
  method ReadNormalized(buffer: seq<char>) returns (input: DiyFp, remaining: nat, error: uint64, ghost significand: nat)
    requires IsDigits(buffer) && |buffer| > 0 && DecVal(buffer) > 0
    ensures fresh(input) && TWO_63 <= input.f && -64 < input.e <= 0 && remaining < |buffer|
    ensures 0 < Pow(10, remaining) && significand == HalfUp(DecVal(buffer), Pow(10, remaining))
    ensures input.f == significand * Pow(2, 0 - input.e)
    ensures remaining > 0 ==> MAX_UINT64 / 10 <= significand
    ensures remaining == 0 ==> significand == DecVal(buffer) && error == 0
    ensures |buffer| < MAX_UINT64_DECIMAL_DIGITS ==> remaining == 0
    ensures error <= 32
    ensures Within(Leading(buffer, remaining), input.f, error, Eighth(input.e))
    ensures significand as real - 0.5 <= Leading(buffer, remaining) < significand as real + 0.5
    ensures 0.0 <= Leading(buffer, remaining) < TWO_64 as real
    ensures remaining == 0 ==> Leading(buffer, remaining) == significand as real
  {
    hide DecVal, Pow, RPow, HalfUp, DecimalValue;
    input, remaining := ReadDiyFp(buffer);
    significand := input.f;
    ReadingError(DecVal(buffer), remaining, significand);
    ReadNonNegative(buffer, 0 - remaining);
    error := if remaining == 0 then 0 else DENOMINATOR / 2;
    var oldE := input.e;
    ghost var shift := input.Normalize();
    SmallShift(significand, shift);
    ShiftedInput(Leading(buffer, remaining), significand, error, 0, shift);
    error := error * Pow(2, oldE - input.e);
  }

  lemma SmallShift(f: nat, shift: nat)
    requires f * Pow(2, shift) < TWO_64
    ensures MAX_UINT64 / 10 <= f ==> 0 < Pow(2, shift) <= 8
  {
    hide Pow;
    PowPos(2, shift);
    if MAX_UINT64 / 10 <= f {
      MulLe(MAX_UINT64 / 10, f, Pow(2, shift));
      if 4 <= shift { PowMono(2, 4, shift); TwoTo4(); } else { PowMono(2, shift, 3); TwoTo4(); }
    }
  }

  // Moving to the left by 'shift' keeps the interval, in the new unit.
  lemma ShiftedInput(x: real, f: nat, err: nat, e: int, shift: nat)
    ensures Within(x, f * Pow(2, shift), err * Pow(2, shift), Eighth(e - shift)) <==> Within(x, f, err, Eighth(e))
    ensures StrictlyWithin(x, f * Pow(2, shift), err * Pow(2, shift), Eighth(e - shift))
        <==> StrictlyWithin(x, f, err, Eighth(e))
  {
    hide Pow, RPow;
    EighthShifted(e, shift);
    WithinShifted(x, f, err, Eighth(e - shift), Pow(2, shift));
  }

  lemma EighthShifted(e: int, shift: nat)
    ensures Eighth(e) == Pow(2, shift) as real * Eighth(e - shift)
  {
    hide Pow, RPow;
    RPowAdd(2, shift, e - shift - 3);
    RPowNat(2, shift);
  }

  // ---------- Multiplying with powers of ten ----------

  lemma LargeProduct(f: nat, g: nat)
    requires TWO_63 <= f && TWO_63 <= g
    ensures TWO_63 * TWO_63 <= f * g
  {
    MulLe(TWO_63, f, TWO_63);
    MulLe(TWO_63, g, f);
  }

  lemma LargeUpperHalf(p: nat, b: nat)
    requires b * TWO_64 <= p
    ensures b <= HalfUp(p, TWO_64)
  {
    DivLe(2 * p + TWO_64, 2 * TWO_64, b);
  }

  // A short number times a small power of ten is an integer below 2^64: the
  // lower half of the product with the normalized power is zero.
  lemma NothingLost(significand: nat, length: nat, a: nat, s: nat, t: nat, f: nat, g: nat)
    requires significand < Pow(10, length) && 0 < a && length + a <= MAX_UINT64_DECIMAL_DIGITS
    requires f == significand * Pow(2, s) && g == Pow(10, a) * Pow(2, t)
    requires TWO_63 * TWO_63 <= f * g
    ensures f * g % TWO_64 == 0
  {
    hide Pow;
    var n := significand * Pow(10, a);
    SmallNumber(significand, length, a);
    PowAdd(2, s, t);
    MulPairs(significand, Pow(2, s), Pow(10, a), Pow(2, t));
    PowPos(2, s + t);
    if s + t <= 62 {
      TooFewTwos(n, s + t);
    } else if s + t == 63 {
      TwoTo64();
      PowStep(10, a - 1);
      EvenTimes(significand, Pow(10, a - 1), n);
    } else {
      TwoTo64();
      PowAdd(2, s + t - 64, 64);
      MultipleOf(n, Pow(2, s + t - 64), f * g);
    }
  }

  lemma SmallNumber(significand: nat, length: nat, a: nat)
    requires significand < Pow(10, length) && length + a <= MAX_UINT64_DECIMAL_DIGITS
    ensures 0 <= significand * Pow(10, a) < TWO_64
  {
    hide Pow;
    PowAdd(10, length, a);
    PowPos(10, a);
    MulLe(0, significand, Pow(10, a));
    MulLt(significand, Pow(10, length), Pow(10, a));
    PowMono(10, length + a, MAX_UINT64_DECIMAL_DIGITS);
    TenTo19();
  }

  lemma TooFewTwos(n: nat, k: nat)
    requires n < TWO_64 && k <= 62
    ensures n * Pow(2, k) < TWO_63 * TWO_63
  {
    hide Pow;
    TwoTo64();
    PowAdd(2, 62, 2);
    PowAdd(2, 1, 1);
    TwoTo1();
    PowMono(2, k, 62);
    SmallFactors(n, Pow(2, k));
  }

  lemma TenTo19()
    ensures Pow(10, 19) == 10_000_000_000_000_000_000
  {
    hide Pow;
    TenTo17();
    AdjustmentPowers();
    PowAdd(10, 17, 2);
  }

  lemma SmallFactors(n: nat, p: nat)
    requires n < TWO_64 && p <= 0x4000_0000_0000_0000
    ensures n * p < TWO_63 * TWO_63
  {
    MulLe(p, 0x4000_0000_0000_0000, n);
    MulLe(n, TWO_64 - 1, 0x4000_0000_0000_0000);
  }

  lemma EvenTimes(k: nat, t: nat, n: nat)
    requires n == k * (10 * t)
    ensures n * TWO_63 % TWO_64 == 0
  {
    assert n == 2 * (5 * (k * t));
    DivUnique(n * TWO_63, TWO_64, 5 * (k * t), 0);
  }

  lemma MultipleOf(n: nat, p: nat, m: nat)
    requires m == n * (p * TWO_64)
    ensures m % TWO_64 == 0
  {
    assert m == (n * p) * TWO_64;
    DivUnique(m, TWO_64, n * p, 0);
  }

  lemma ExactUpperHalf(p: nat)
    requires p % TWO_64 == 0
    ensures HalfUp(p, TWO_64) * TWO_64 == p
  {
    HalfUpFromDigits(p, TWO_64, p / TWO_64, 0);
  }

  lemma MultiplyWithoutLoss(x: real, f: nat, w: real, y: real, g: nat, t: real, h: nat, unit: real)
    requires y == g as real * t && unit == TWO_64 as real * (w * t)
    requires Within(x, f, 0, w) && 0.0 < w && 0.0 < t && f * g == h * TWO_64
    ensures Within(x * y, h, 0, unit)
  {
    hide ProductLe, ProductLt;
    assert ProductLe(8 * h, TWO_64, 8 * f, g) && ProductLe(8 * f, g, 8 * h, TWO_64) by { EightTimes(f, g, h); }
    WithinProduct(x, f, 0, w, y, g, g, t, h, 0, TWO_64, unit);
  }

  lemma EightTimes(f: nat, g: nat, h: nat)
    requires f * g == h * TWO_64
    ensures ProductLe(8 * h, TWO_64, 8 * f, g) && ProductLe(8 * f, g, 8 * h, TWO_64)
  {
    assert 8 * f * g == 8 * (f * g);
  }

  // Units multiply like their exponents.
  lemma ProductUnit(e: int, g: int)
    ensures TWO_64 as real * (Eighth(e) * RPow(2, g)) == Eighth(e + g + 64)
  {
    hide RPow;
    RPowAdd(2, e - 3, g);
    RPowAdd(2, 64, e + g - 3);
    RPowNat(2, 64);
    TwoTo64();
  }

  lemma PowerAsReal(a: nat, e: nat, g: nat)
    requires g == Pow(10, a) * Pow(2, e)
    ensures g as real * RPow(2, 0 - e) == RPow(10, a)
  {
    hide Pow, RPow;
    RPowNat(10, a);
    RPowNat(2, e);
    RPowAdd(2, e, 0 - e);
    RPowZero(2);
    RealMul(Pow(10, a), Pow(2, e));
    RealAssoc(RPow(10, a), RPow(2, e), RPow(2, 0 - e));
  }

  // The product with an exact power of ten g * 2^-ge adds half a unit of error.
  lemma AdjustedRoughly(y: real, f: nat, e: int, error: nat, a: nat, g: nat, ge: nat, h: nat)
    requires Within(y, f, error, Eighth(e)) && error <= 8 * f
    requires g == Pow(10, a) * Pow(2, ge) && g < TWO_64
    requires 0 <= f * g && h == HalfUp(f * g, TWO_64)
    ensures Within(TimesTens(y, a), h, error + 4, Eighth(e - ge + 64))
  {
    hide Pow, RPow, HalfUp, TimesTens, Eighth;
    var t, z := RPow(2, 0 - ge), RPow(10, a);
    PowerAsReal(a, ge, g);
    ProductUnit(e, 0 - ge);
    EighthIs(e);
    RPowPos(2, 0 - ge);
    TimesTensIs(y, a, z);
    MultiplyExact(y, f, error, Eighth(e), z, g, t, h, Eighth(e - ge + 64));
  }

  // No error at all when the digits leave room for the power.
  lemma AdjustedExactly(y: real, f: nat, e: int, significand: nat, a: nat, length: nat, g: nat, ge: nat, h: nat)
    requires e <= 0 && Within(y, f, 0, Eighth(e)) && f == significand * Pow(2, 0 - e)
    requires g == Pow(10, a) * Pow(2, ge) && 0 < a && TWO_63 * TWO_63 <= f * g
    requires significand < Pow(10, length) && length + a <= MAX_UINT64_DECIMAL_DIGITS
    requires h == HalfUp(f * g, TWO_64)
    ensures Within(TimesTens(y, a), h, 0, Eighth(e - ge + 64))
  {
    hide Pow, RPow, HalfUp, TimesTens, Eighth;
    var t, z := RPow(2, 0 - ge), RPow(10, a);
    NothingLost(significand, length, a, 0 - e, ge, f, g);
    ExactUpperHalf(f * g);
    PowerAsReal(a, ge, g);
    ProductUnit(e, 0 - ge);
    EighthIs(e);
    RPowPos(2, 0 - ge);
    TimesTensIs(y, a, z);
    MultiplyWithoutLoss(y, f, Eighth(e), z, g, t, h, Eighth(e - ge + 64));
  }

  // input times 10^adjustment.
  method Adjust(input: DiyFp, error0: uint64, adjustment: nat, length: nat, ghost y: real, ghost significand: nat)
    returns (error: uint64)
    requires 0 < adjustment < DECIMAL_EXPONENT_DISTANCE && TWO_63 <= input.f && -64 < input.e <= 0 && error0 <= 32
    requires Within(y, input.f, error0, Eighth(input.e))
    requires input.f == significand * Pow(2, 0 - input.e)
    requires length < MAX_UINT64_DECIMAL_DIGITS ==> error0 == 0 && significand < Pow(10, length)
    modifies input
    ensures TWO_63 / 2 <= input.f && error <= 36
    ensures Within(TimesTens(y, adjustment), input.f, error, Eighth(input.e))
    ensures 0 <= old(input.f) * 0xf424_0000_0000_0000
    ensures adjustment == 6 ==>
      input.f == HalfUp(old(input.f) * 0xf424_0000_0000_0000, TWO_64) && input.e == old(input.e) + 20
  {
    hide Pow, RPow, HalfUp, TimesTens, Eighth;
    var adjustmentPower := AdjustmentPowerOfTen(adjustment);
    ghost var f: int, e, g: int, ge := input.f, input.e, adjustmentPower.f, 0 - adjustmentPower.e;
    LargeProduct(f, g);
    input.Multiply(adjustmentPower);
    LargeUpperHalf(f * g, TWO_63 / 2);
    error := error0;
    if MAX_UINT64_DECIMAL_DIGITS - length >= adjustment {
      AdjustedExactly(y, f, e, significand, adjustment, length, g, ge, input.f);
    } else {
      AdjustedRoughly(y, f, e, error, adjustment, g, ge, input.f);
      error := error + DENOMINATOR / 2;
    }
  }

  // The product with a cached power adds one unit, and is strictly inside.
  lemma CachedProduct(y: real, a: int, f: nat, e: int, error: nat, entry: CachedPower, h: nat)
    requires Within(TimesTens(y, a), f, error, Eighth(e)) && f < TWO_64 && error <= 8 * f && entry.IsGood()
    requires 0 <= f * entry.significand && h == HalfUp(f * entry.significand, TWO_64)
    ensures StrictlyWithin(TimesTens(y, a + entry.decimalExponent), h, error + 8, Eighth(e + entry.binaryExponent + 64))
  {
    hide RPow, HalfUp, TimesTens, Eighth, Within;
    var x, t, p, unit := TimesTens(y, a), RPow(2, entry.binaryExponent - 1), RPow(10, entry.decimalExponent),
      Eighth(e + entry.binaryExponent + 64);
    EighthIs(e);
    RPowPos(2, entry.binaryExponent - 1);
    DoubleUnit(e, entry.binaryExponent);
    TensAdd(y, a, entry.decimalExponent);
    MultiplyRounded(x, f, error, Eighth(e), p, entry.significand, t, h, unit);
  }

  lemma GoodIsNormalized(entry: CachedPower)
    requires entry.IsGood()
    ensures TWO_63 <= entry.significand
  {
  }

  lemma DoubleUnit(e: int, g: int)
    ensures Eighth(e + g + 64) == (2 * TWO_64) as real * (Eighth(e) * RPow(2, g - 1))
  {
    hide RPow, Eighth;
    ProductUnit(e, g);
    RPowStep(2, g - 1);
    Twice(TWO_64 as real, Eighth(e), RPow(2, g - 1));
  }

  lemma Twice(m: real, a: real, b: real)
    ensures m * (a * (2.0 * b)) == 2.0 * m * (a * b)
  {
  }

  lemma TensAdd(y: real, a: int, b: int)
    ensures TimesTens(y, a) * RPow(10, b) == TimesTens(y, a + b)
  {
    hide RPow;
    RPowAdd(10, a, b);
    RealAssoc(y, RPow(10, a), RPow(10, b));
  }

  lemma TensZero(y: real)
    ensures TimesTens(y, 0) == y
  {
    RPowZero(10);
  }

  lemma ShiftBelow8(f: nat, shift: nat)
    requires 0x2000_0000_0000_0000 <= f && f * Pow(2, shift) < TWO_64
    ensures 1 <= Pow(2, shift) <= 4
    ensures TWO_63 <= f ==> shift == 0
  {
    hide Pow;
    PowPos(2, shift);
    TwoTo4();
    TwoTo1();
    MulLe(0x2000_0000_0000_0000, f, Pow(2, shift));
    PowAdd(2, 1, 1);
    if 3 <= shift { PowMono(2, 3, shift); } else { PowMono(2, shift, 2); }
    if TWO_63 <= f && 1 <= shift {
      MulLe(TWO_63, f, Pow(2, shift));
      PowMono(2, 1, shift);
    }
  }

  // The product with a cached power adds one unit, rounded up by an eighth when
  // there was an error before; normalizing shifts at most twice.
  lemma CachedError(y: real, a: int, f: nat, e: int, error: nat, entry: CachedPower, h: nat, shift: nat)
    requires Within(TimesTens(y, a), f, error, Eighth(e)) && TWO_63 / 2 <= f < TWO_64 && error <= 36 && entry.IsGood()
    requires 0 <= f * entry.significand && h == HalfUp(f * entry.significand, TWO_64)
    requires h * Pow(2, shift) < TWO_64
    ensures var e' := e + entry.binaryExponent + 64; var error' := error + 8 + (if error == 0 then 0 else 1);
      1 <= Pow(2, shift) <= 4 && (TWO_63 <= h ==> shift == 0)
      && StrictlyWithin(TimesTens(y, a + entry.decimalExponent), h * Pow(2, shift), error' * Pow(2, shift), Eighth(e' - shift))
  {
    hide Pow, RPow, HalfUp, TimesTens, Eighth, CachedPower.IsGood;
    var e', x := e + entry.binaryExponent + 64, TimesTens(y, a + entry.decimalExponent);
    GoodIsNormalized(entry);
    LargeCachedProduct(f, entry);
    CachedProduct(y, a, f, e, error, entry, h);
    EighthIs(e');
    var error' := error + 8 + (if error == 0 then 0 else 1);
    Weaker(x, h, error + 8, error', Eighth(e'));
    ShiftBelow8(h, shift);
    ShiftedInput(x, h, error', e', shift);
  }

  // input times the cached power, normalized.
  method MultiplyCached(input: DiyFp, cachedPower: DiyFp, error0: uint64, ghost y: real, ghost a: int, ghost entry: CachedPower)
    returns (error: uint64)
    requires entry.IsGood() && cachedPower.f == entry.significand && cachedPower.e == entry.binaryExponent
    requires cachedPower != input && TWO_63 / 2 <= input.f && error0 <= 36
    requires Within(TimesTens(y, a), input.f, error0, Eighth(input.e))
    modifies input
    ensures TWO_63 <= input.f && error <= 200
    ensures StrictlyWithin(TimesTens(y, a + entry.decimalExponent), input.f, error, Eighth(input.e))
    ensures 0 <= old(input.f) * entry.significand
    ensures TWO_63 <= HalfUp(old(input.f) * entry.significand, TWO_64) ==> input.e == old(input.e) + entry.binaryExponent + 64
  {
    hide Pow, RPow, HalfUp, TimesTens, Eighth, CachedPower.IsGood, Within;
    ghost var f: int, e := input.f, input.e;
    GoodIsNormalized(entry);
    LargeCachedProduct(f, entry);
    input.Multiply(cachedPower);
    var errorB, errorAb, fixedError := DENOMINATOR / 2, if error0 == 0 then 0 else 1, DENOMINATOR / 2;
    error := error0 + errorB + errorAb + fixedError;
    var oldE := input.e;
    ghost var h: int := input.f;
    ghost var shift := input.Normalize();
    CachedError(y, a, f, e, error0, entry, h, shift);
    AtMostFourfold(error, Pow(2, shift));
    error := error * Pow(2, oldE - input.e);
  }

  lemma AtMostFourfold(error: nat, p: nat)
    requires error <= 45 && p <= 4
    ensures 0 <= error * p <= 180
  {
    MulLe(p, 4, error);
  }

  lemma LargeCachedProduct(f: nat, entry: CachedPower)
    requires TWO_63 / 2 <= f && TWO_63 <= entry.significand
    ensures 0 <= f * entry.significand && 0x2000_0000_0000_0000 <= HalfUp(f * entry.significand, TWO_64)
  {
    LargeQuarterProduct(f, entry.significand);
  }

  lemma LargeQuarterProduct(f: nat, g: nat)
    requires TWO_63 / 2 <= f && TWO_63 <= g
    ensures 0 <= f * g && 0x2000_0000_0000_0000 <= HalfUp(f * g, TWO_64)
  {
    MulLe(TWO_63 / 2, f, TWO_63);
    MulLe(TWO_63, g, f);
    LargeUpperHalf(f * g, 0x2000_0000_0000_0000);
  }

  // input times 10^exponent.
  method MultiplyWithPower(input: DiyFp, error0: uint64, exponent: int, length: nat, cache: seq<CachedPower>,
                           ghost y: real, ghost significand: nat)
    returns (error: uint64)
    requires GoodCache(cache) && MIN_DECIMAL_EXPONENT <= exponent <= MAX_DECIMAL_EXPONENT
    requires TWO_63 <= input.f && -64 < input.e <= 0 && error0 <= 32
    requires Within(y, input.f, error0, Eighth(input.e))
    requires input.f == significand * Pow(2, 0 - input.e)
    requires length < MAX_UINT64_DECIMAL_DIGITS ==> error0 == 0 && significand < Pow(10, length)
    modifies input
    ensures TWO_63 <= input.f && error <= 200
    ensures StrictlyWithin(TimesTens(y, exponent), input.f, error, Eighth(input.e))
    ensures exponent == -342 && BOUNDARY < significand < BOUNDARY + 10 ==> -1138 <= input.e
  {
    hide Pow, RPow, HalfUp, TimesTens, Eighth, CachedPower.IsGood;
    ghost var f: int, e := input.f, input.e;
    var cachedPower, found, entry := GetCachedPowerForDecimalExponent(cache, exponent);
    error := error0;
    TensZero(y);
    if found != exponent {
      error := Adjust(input, error0, exponent - found, length, y, significand);
    }
    ghost var f1: int, e1 := input.f, input.e;
    error := MultiplyCached(input, cachedPower, error, y, exponent - found, entry);
    if exponent == -342 && BOUNDARY < significand < BOUNDARY + 10 {
      FirstPower(entry);
      NearBoundaryShift(significand, f, 0 - e);
      NextToBoundary(significand, f, f1, HalfUp(f1 * entry.significand, TWO_64), entry.significand);
    }
  }

  lemma NearBoundaryShift(significand: nat, f: nat, shift: nat)
    requires BOUNDARY < significand < BOUNDARY + 10 && f == significand * Pow(2, shift) && TWO_63 <= f < TWO_64
    ensures shift == 2 && f == 4 * significand
  {
    hide Pow;
    TwoTo1();
    PowAdd(2, 1, 1);
    ShiftedRange(significand, shift);
  }

  lemma ShiftedRange(f: nat, shift: nat)
    ensures shift <= 1 ==> f * Pow(2, shift) <= 2 * f
    ensures 3 <= shift ==> 8 * f <= f * Pow(2, shift)
  {
    hide Pow;
    TwoTo1();
    TwoTo4();
    if shift <= 1 {
      PowMono(2, shift, 1);
      MulLe(Pow(2, shift), 2, f);
    } else if 3 <= shift {
      PowMono(2, 3, shift);
      MulLe(8, Pow(2, shift), f);
    }
  }

  // ---------- The approximation ----------

  // An estimate below 2^-1075 belongs to a number that is not above it.
  lemma NotAboveBoundary(y: real, q: int, significand: nat, remaining: nat, f: nat, err: nat)
    requires StrictlyWithin(TimesTens(y, q), f, err, Eighth(DENORMAL_EXPONENT - 65)) && f < TWO_64 && err <= 200
    requires significand as real - 0.5 <= y < significand as real + 0.5 && 0.0 <= y < TWO_64 as real
    requires remaining == 0 ==> y == significand as real
    requires remaining > 0 ==> MAX_UINT64 / 10 <= significand
    requires q == -342 ==> significand <= BOUNDARY || BOUNDARY + 10 <= significand
    ensures TimesTens(y, q) <= RPow(2, -1075)
  {
    hide RPow, Eighth, TimesTens;
    var x, t := TimesTens(y, q), RPow(10, -342);
    RPowPos(10, -342);
    FarBelow(x, f, err, t);
    if q <= -343 {
      SmallPower(y, q);
    } else if q == -342 {
      TimesTensIs(y, q, t);
      if significand <= BOUNDARY {
        AtMostBoundary(y, t, x);
      } else {
        NotThatFar(y, t, x);
      }
    } else {
      LargePower(y, q, significand, remaining, x, t);
    }
  }

  lemma AtMostBoundary(z: real, t: real, x: real)
    requires t == RPow(10, -342) && x == z * t && 2.0 * z <= (2 * BOUNDARY + 1) as real
    ensures x <= RPow(2, -1075)
  {
    hide RPow;
    RPowPos(10, -342);
    BelowBoundary(RPow(10, -343), t, RPow(2, -1075));
    RealMulLe(2.0 * z, (2 * BOUNDARY + 1) as real, t);
    Doubled(z, t);
  }

  lemma NotThatFar(z: real, t: real, x: real)
    requires t == RPow(10, -342) && x == z * t && 2.0 * x < (2 * BOUNDARY + 19) as real * t
    ensures 2.0 * z < (2 * BOUNDARY + 19) as real
  {
    hide RPow;
    RPowPos(10, -342);
    Doubled(z, t);
    RealScaleLe((2 * BOUNDARY + 19) as real, 2.0 * z, t);
  }

  lemma FarBelow(x: real, f: nat, err: nat, t: real)
    requires StrictlyWithin(x, f, err, Eighth(DENORMAL_EXPONENT - 65)) && f < TWO_64 && err <= 200
    requires t == RPow(10, -342)
    ensures 2.0 * x < (2 * BOUNDARY + 19) as real * t
  {
    hide RPow, Eighth;
    var w := Eighth(DENORMAL_EXPONENT - 65);
    EighthIs(DENORMAL_EXPONENT - 65);
    AboveBoundary(t, w);
    BelowLarger(x, 8 * f + err, TWO_64 * 8 + 200, w);
    DoubledCoefficient(TWO_64 * 8 + 200, w);
  }

  lemma DoubledCoefficient(a: int, w: real)
    ensures (2 * a) as real * w == 2.0 * (a as real * w)
  {
    RealMul(2, a);
  }

  lemma SmallPower(y: real, q: int)
    requires 0.0 <= y < TWO_64 as real && q <= -343
    ensures TimesTens(y, q) <= RPow(2, -1075)
  {
    hide RPow, TimesTens;
    var p, s := RPow(10, q), RPow(10, -343);
    BelowBoundary(s, RPow(10, -342), RPow(2, -1075));
    RPowPos(10, q);
    RPowMono(10, q, -343);
    TimesTensIs(y, q, p);
    RealMulLe(y, TWO_64 as real, p);
    RealMulLe(p, s, TWO_64 as real);
  }

  lemma LargePower(y: real, q: int, significand: nat, remaining: nat, x: real, t: real)
    requires t == RPow(10, -342) && x == TimesTens(y, q) && -341 <= q
    requires significand as real - 0.5 <= y && 0.0 <= y
    requires remaining == 0 ==> y == significand as real
    requires remaining > 0 ==> MAX_UINT64 / 10 <= significand
    requires 2.0 * x < (2 * BOUNDARY + 19) as real * t
    ensures x <= RPow(2, -1075)
  {
    hide RPow, TimesTens, Pow;
    var k := q + 341;
    var p, z := Pow(10, k), TimesTens(y, k + 1);
    TensAdd(y, k + 1, -342);
    RPowNat(10, k + 1);
    PowStep(10, k);
    PowPos(10, k);
    assert Pow(10, k + 1) == 10 * p;
    TimesTensIs(y, k + 1, Pow(10, k + 1) as real);
    NotThatFar(z, t, x);
    if remaining == 0 {
      WholeTens(significand, p, z);
      AtMostBoundary(z, t, x);
    } else {
      AtLeastTenfold(y, p, z);
    }
  }

  lemma AtLeastTenfold(y: real, p: nat, z: real)
    requires z == y * (10 * p) as real && 1 <= p && 0.0 <= y
    ensures 10.0 * y <= z
  {
    RealMulLe(10.0, (10 * p) as real, y);
  }

  // A multiple of ten is at most BOUNDARY or at least ten more.
  lemma WholeTens(m: nat, p: nat, z: real)
    requires z == m as real * (10 * p) as real && 2.0 * z < (2 * BOUNDARY + 19) as real
    ensures 2.0 * z <= (2 * BOUNDARY) as real
  {
    RealMul(m, 10 * p);
    TenDivides(m, p, m * (10 * p));
  }

  lemma ReadIs(buffer: seq<char>, exponent: int, remaining: nat)
    requires IsDigits(buffer)
    ensures TimesTens(Leading(buffer, remaining), exponent + remaining) == Read(buffer, exponent)
  {
    hide RPow, DecVal;
    RPowAdd(10, 0 - remaining, exponent + remaining);
    RealAssoc(DecVal(buffer) as real, RPow(10, 0 - remaining), RPow(10, exponent + remaining));
  }

  lemma TinyIsZero(x: real)
    requires 0.0 <= x <= RPow(2, -1075)
    ensures RoundsTo(x, 0)
  {
    hide RPow;
    FirstBoundaries();
  }

  // When the result is exact it is the double nearest to the digits; otherwise
  // it is that double or the one just below.
  method DiyFpStrtod(buffer: seq<char>, exponent: int, cache: seq<CachedPower>) returns (result: uint64, exact: bool)
    requires IsDigits(buffer) && |buffer| > 0 && DecVal(buffer) > 0 && GoodCache(cache)
    requires exponent + |buffer| <= MAX_DECIMAL_POWER
    ensures result <= INFINITY
    ensures exact ==> RoundsTo(Read(buffer, exponent), result)
    ensures !exact ==>
      RoundsTo(Read(buffer, exponent), result) || (result < INFINITY && RoundsTo(Read(buffer, exponent), result + 1))
  {
    hide DecVal, Pow, RPow, HalfUp, TimesTens, Eighth, RoundsTo, Read, Leading, DecimalValue, GoodCache;
    var input, remaining, error, significand := ReadNormalized(buffer);
    ghost var y := Leading(buffer, remaining);
    var q := exponent + remaining;
    ReadIs(buffer, exponent, remaining);
    if q < MIN_DECIMAL_EXPONENT {
      SmallPower(y, q);
      ReadNonNegative(buffer, exponent);
      TinyIsZero(Read(buffer, exponent));
      return 0, true;
    }
    if |buffer| < MAX_UINT64_DECIMAL_DIGITS { DecBound(buffer); }
    error := MultiplyWithPower(input, error, q, |buffer|, cache, y, significand);
    if input.e == DENORMAL_EXPONENT - 65 {
      NotAboveBoundary(y, q, significand, remaining, input.f, error);
    }
    result, exact := RoundInput(input, error, Read(buffer, exponent));
  }
}
