// external/double-conversion/bignum-dtoa.cc: exact digits of a double, shortest
// or of a given number.
module BignumDtoa {
  import opened Powers
  import opened Bigits
  import opened Bignums
  import opened Decimal
  import opened DigitBuffer
  import opened ShortestDigits
  import opened DigitGeneration
  import opened StartValues
  import opened DecimalMeaning
  import opened ClosestDigits
  import opened Ieee
  import opened OddPowers
  import opened Logarithms
  import PowerTable

  // The exponent for a significand that is shifted until the hidden bit is set.
  method NormalizedExponent(significand: uint64, exponent0: int) returns (exponent: int)
    requires 0 < significand < 2 * HIDDEN_BIT
    ensures exponent <= exponent0 <= exponent + 52
    ensures Pow(2, 52 - (exponent0 - exponent)) <= significand < Pow(2, 53 - (exponent0 - exponent))
  {
    hide Pow;
    exponent := exponent0;
    PowZero(2);
    var shifted := significand;
    while shifted / HIDDEN_BIT % 2 == 0
      invariant exponent <= exponent0
      invariant 0 < shifted < 2 * HIDDEN_BIT && shifted == significand * Pow(2, exponent0 - exponent)
      decreases 2 * HIDDEN_BIT - shifted
    {
      PowStep(2, exponent0 - exponent);
      DoubledProduct(significand, Pow(2, exponent0 - exponent));
      shifted := shifted * 2;
      exponent := exponent - 1;
    }
    BitsOfSignificand(significand, exponent0 - exponent);
  }

  lemma DoubledProduct(a: int, b: int)
    ensures a * (2 * b) == 2 * (a * b)
  {
  }

  lemma BitsOfSignificand(significand: nat, shift: nat)
    requires 0 < significand && HIDDEN_BIT <= significand * Pow(2, shift) < 2 * HIDDEN_BIT
    requires significand < 2 * HIDDEN_BIT
    ensures shift <= 52 && Pow(2, 52 - shift) <= significand < Pow(2, 53 - shift)
  {
    hide Pow;
    TwoTo53();
    PowStep(2, 52);
    PowPos(2, shift);
    if 53 <= shift {
      PowMono(2, 53, shift);
      MulLe(1, significand, Pow(2, shift));
    } else {
      PowAdd(2, 53 - shift, shift);
      MulCancelLt(significand, Pow(2, 53 - shift), Pow(2, shift));
      if shift <= 52 {
        PowAdd(2, 52 - shift, shift);
        MulCancelLe(Pow(2, 52 - shift), significand, Pow(2, shift));
      }
    }
  }

  // The product and the difference are ones of doubles, off by 'error'.
  method EstimatePower(exponent: int, error: real) returns (power: int)
    requires -1200 <= exponent <= 1100 && -HARDWARE_ERROR <= error <= HARDWARE_ERROR
    ensures RPow(10, power - 1) <= RPow(2, exponent + 52) <= RPow(10, power)
  {
    hide RPow;
    var estimate := (exponent + SIGNIFICAND_SIZE - 1) as real * ONE_OVER_LOG2_10 - 0.0000000001 + error;
    CeilingOfLogarithm(exponent + 52, estimate);
    power := Ceiling(estimate);
  }

  // 10^(k-1) <= v, possibly too low by one, and the same for v's upper boundary.
  ghost predicate GoodEstimate(v: Double, power: int)
  {
    RPow(10, power - 1) <= v.Value() && v.Upper() < RPow(10, power + 1)
  }

  lemma EstimateIsGood(v: Double, shift: nat, power: int)
    requires v.IsFinitePositive() && shift <= 52 && Pow(2, 52 - shift) <= v.Significand() < Pow(2, 53 - shift)
    requires RPow(10, power - 1) <= RPow(2, v.Exponent() - shift + 52) <= RPow(10, power)
    ensures GoodEstimate(v, power)
  {
    hide RPow, Pow, Double.Exponent, Double.Significand;
    var m, e := v.Significand(), v.Exponent();
    AtLeastPower(m, 52 - shift, e);
    PowStep(2, 53 - shift);
    BelowPower(2, 2 * m + 1, 54 - shift, e - 1);
    RPowStep(2, e - shift + 52);
    RPowStep(10, power);
    RPowPos(10, power);
  }

  lemma AtLeastPower(m: nat, n: nat, e: int)
    requires Pow(2, n) <= m
    ensures RPow(2, n + e) <= m as real * RPow(2, e)
  {
    hide RPow, Pow;
    RPowNat(2, n);
    RPowAdd(2, n, e);
    RPowPos(2, e);
    RealMulLe(Pow(2, n) as real, m as real, RPow(2, e));
  }

  // Numerator, denominator and deltas for v / 10^power.
  method InitialScaledStartValues(significand: uint64, exponent: int, lowerBoundaryIsCloser: bool,
                                  power: int, needDeltas: bool,
                                  numerator: Bignum, denominator: Bignum, deltaMinus: Bignum, deltaPlus: Bignum,
                                  ghost isEven: bool)
    requires Separate(numerator, denominator, deltaMinus, deltaPlus) && deltaMinus != deltaPlus
    requires numerator.Valid() && denominator.Valid() && deltaMinus.Holds(0) && deltaPlus.Holds(0)
    requires InRange(exponent, power) && (exponent >= 0 ==> power >= 0) && significand < 0x20_0000_0000_0000
    modifies numerator, numerator.bigits, denominator, denominator.bigits
    modifies deltaMinus, deltaMinus.bigits, deltaPlus, deltaPlus.bigits
    ensures var g := StartInterval(isEven, significand, exponent, power, needDeltas, lowerBoundaryIsCloser);
      State(numerator, denominator, deltaMinus, deltaPlus, g.n, g.d, g.minus, g.plus)
  {
    hide Bignum.Holds, Unit, DenominatorUnit, StartNumerator, Shifted, Pow, PB;
    FactorsFit(significand, exponent, power);
    if exponent >= 0 {
      PositiveExponent(significand, exponent, power, needDeltas, numerator, denominator, deltaMinus, deltaPlus);
    } else if power >= 0 {
      NegativeExponentPositivePower(significand, exponent, power, needDeltas, numerator, denominator, deltaMinus, deltaPlus);
    } else {
      NegativeExponentNegativePower(significand, exponent, power, needDeltas, numerator, denominator, deltaMinus, deltaPlus);
    }
    if needDeltas && lowerBoundaryIsCloser {
      ghost var n, d, unit := StartNumerator(significand, exponent, power), DenominatorUnit(exponent, power), Unit(exponent, power);
      ShiftedOnce(2 * n);
      ShiftedOnce(2 * d);
      ShiftedOnce(unit);
      ShiftSmall(denominator, 1, 2 * d);
      ShiftSmall(numerator, 1, 2 * n);
      ShiftSmall(deltaPlus, 1, unit);
    }
  }

  // The start values as one interval; without deltas both distances are zero.
  ghost function StartInterval(inclusive: bool, significand: nat, exponent: int, power: int,
                               needDeltas: bool, closer: bool): (g: Interval)
    ensures g.inclusive == inclusive
  {
    var n, d, unit := StartNumerator(significand, exponent, power), DenominatorUnit(exponent, power), Unit(exponent, power);
    if !needDeltas then Interval(inclusive, n, d, 0, 0)
    else if closer then Interval(inclusive, 4 * n, 4 * d, unit, 2 * unit)
    else Interval(inclusive, 2 * n, 2 * d, unit, unit)
  }

  // Multiplies by ten unless the fraction, up to its upper boundary, already
  // reaches one.
  method FixupMultiply10(power: int, isEven: bool,
                         numerator: Bignum, denominator: Bignum, deltaMinus: Bignum, deltaPlus: Bignum, ghost g: Interval)
    returns (decimalPoint: int)
    requires State(numerator, denominator, deltaMinus, deltaPlus, g.n, g.d, g.minus, g.plus) && deltaMinus != deltaPlus
    requires g.inclusive == isEven && 10 * g.d < PB(LIMIT) && g.minus <= g.n
    modifies numerator, numerator.bigits, deltaMinus, deltaMinus.bigits, deltaPlus, deltaPlus.bigits
    ensures var f := g.FixedUp();
      State(numerator, denominator, deltaMinus, deltaPlus, f.n, f.d, f.minus, f.plus)
    ensures decimalPoint == if g.ReachesOne() then power + 1 else power
  {
    hide PB, Bignum.Value, Bignum.Mantissa;
    var order := Bignum.PlusCompare(numerator, deltaPlus, denominator);
    var inRange := if isEven then order >= 0 else order > 0;
    if inRange {
      decimalPoint := power + 1;
    } else {
      decimalPoint := power;
      FitsTimes10(g.n, g.d);
      FitsTimes10(g.minus, g.d);
      FitsTimes10(g.plus, g.d);
      numerator.Times10();
      var same := Bignum.Compare(deltaMinus, deltaPlus);
      deltaMinus.Times10();
      if same == 0 {
        deltaPlus.AssignBignum(deltaMinus);
      } else {
        deltaPlus.Times10();
      }
    }
  }

  // ---------- The start values and the double ----------

  // One unit of the fraction as a real number.
  lemma Kappa(exponent: int, power: int) returns (kappa: real)
    requires InRange(exponent, power)
    ensures 0.0 < kappa && 0 < Unit(exponent, power) && 0 < DenominatorUnit(exponent, power)
    ensures DenominatorUnit(exponent, power) as real * kappa == RPow(10, power)
    ensures Unit(exponent, power) as real * kappa == RPow(2, exponent)
  {
    hide Pow, RPow, Unit, DenominatorUnit, PB;
    UnitBounds(exponent, power);
    ScaleRelation(exponent, power);
    RPowPos(10, power);
    var u, d, t := Unit(exponent, power) as real, DenominatorUnit(exponent, power) as real, RPow(10, power);
    kappa := t / d;
    DivTimes(t, d);
    RealAssoc(d, u, kappa);
    RealAssoc(u, d, kappa);
    RealCancel(u * kappa, RPow(2, exponent), d);
  }

  lemma ScaleRelation(exponent: int, power: int)
    ensures Unit(exponent, power) as real * RPow(10, power) == DenominatorUnit(exponent, power) as real * RPow(2, exponent)
  {
    hide Pow, RPow;
    var e, e', p, p' := if exponent >= 0 then exponent else 0, if exponent < 0 then -exponent else 0,
                        if power >= 0 then power else 0, if power < 0 then -power else 0;
    RPowNat(2, e);
    RPowNat(2, e');
    RPowNat(10, p);
    RPowNat(10, p');
    RealMul(Pow(2, e), Pow(10, p'));
    RealMul(Pow(10, p), Pow(2, e'));
    RPowAdd(10, p', power);
    RPowAdd(2, e', exponent);
    RealAssoc(RPow(2, e), RPow(10, p'), RPow(10, power));
    RealAssoc(RPow(10, p), RPow(2, e'), RPow(2, exponent));
  }

  lemma EstimateInRange(v: Double, power: int)
    requires v.IsFinitePositive() && GoodEstimate(v, power)
    ensures InRange(v.Exponent(), power) && (v.Exponent() >= 0 ==> power >= 0)
  {
    hide Pow, RPow, Double.Value, Double.Upper, Double.Exponent, Double.Significand;
    v.Layout();
    v.NextValue();
    ValueBounds(v);
    TenAboveTwos();
    RPowZero(10);
    if power > 360 { RPowMono(10, 360, power - 1); }
    if power < -360 { RPowMono(10, power + 1, -360); }
    if v.Exponent() >= 0 && power < 0 { RPowMono(10, power + 1, 0); }
  }

  lemma ValueBounds(v: Double)
    requires v.IsFinitePositive()
    ensures RPow(2, DENORMAL_EXPONENT) <= v.Value() && v.Value() < RPow(2, 1024)
    ensures v.Exponent() >= 0 ==> 1.0 <= v.Value()
  {
    hide RPow, Double.Exponent, Double.Significand;
    v.Layout();
    PartsBounds(v.Significand(), v.Exponent());
  }

  lemma PartsBounds(f: nat, e: int)
    requires 0 < f < 0x20_0000_0000_0000 && DENORMAL_EXPONENT <= e < MAX_EXPONENT
    ensures RPow(2, DENORMAL_EXPONENT) <= f as real * RPow(2, e) && f as real * RPow(2, e) < RPow(2, 1024)
    ensures e >= 0 ==> 1.0 <= f as real * RPow(2, e)
  {
    hide Pow, RPow;
    RPowMono(2, DENORMAL_EXPONENT, e);
    RPowPos(2, e);
    AtLeastOnce(f as real, RPow(2, e));
    RPowAtLeastOne(e);
    TwoTo53();
    BelowPower(2, f, 53, e);
    RPowMono(2, 53 + e, 1024);
  }

  lemma AtLeastOnce(a: real, p: real)
    requires 1.0 <= a && 0.0 <= p
    ensures p <= a * p
  {
  }

  lemma RPowAtLeastOne(e: int)
    ensures 0 <= e ==> 1.0 <= RPow(2, e)
  {
    hide RPow;
    RPowZero(2);
    if 0 <= e { RPowMono(2, 0, e); }
  }

  lemma PowThreeOfTwo()
    ensures Pow(2, 3) == 8
  {
  }

  lemma TenAboveTwos()
    ensures RPow(2, 1024) <= RPow(10, 360) && RPow(10, -360) <= RPow(2, DENORMAL_EXPONENT)
  {
    hide Pow, RPow;
    PowMul(2, 3, 360);
    PowThreeOfTwo();
    PowBaseMono(8, 10, 360);
    RPowNat(2, 1080);
    RPowNat(10, 360);
    RPowMono(2, 1024, 1080);
    RPowMono(2, 1074, 1080);
    RPowPos(10, 360);
    RPowPos(2, 1074);
    RPowAdd(10, 360, -360);
    RPowAdd(2, 1074, -1074);
    RPowZero(10);
    RPowZero(2);
    RPowPos(10, -360);
    RPowPos(2, -1074);
    Reciprocals(RPow(2, 1074), RPow(2, -1074), RPow(10, 360), RPow(10, -360));
  }

  lemma Reciprocals(a: real, a': real, b: real, b': real)
    requires 0.0 < a <= b && 0.0 < a' && 0.0 < b' && a * a' == 1.0 && b * b' == 1.0
    ensures b' <= a'
  {
    if a' < b' {
      RealMulLt(a', b', a);
      RealMulLe(a, b, b');
    }
  }

  // The start values are v and its boundaries, divided by 10^power.
  lemma StartRepresents(v: Double, power: int) returns (unit: real)
    requires v.IsFinitePositive() && InRange(v.Exponent(), power)
    ensures Represents(StartOf(v, power), v, power + 1, unit)
  {
    hide Pow, RPow, PB, Unit, DenominatorUnit, Double.Exponent, Double.Significand, Double.LowerBoundaryIsCloser;
    var f, e, closer := v.Significand(), v.Exponent(), v.LowerBoundaryIsCloser();
    var kappa := Kappa(e, power);
    unit := if closer then kappa / 4.0 else kappa / 2.0;
    var u := Unit(e, power);
    v.LowerBoundary();
    v.Layout();
    RPowStep(2, e - 1);
    RPowStep(2, e - 2);
    RealMul(f, u);
    RealAssoc(f as real, u as real, kappa);
    BoundaryOffsets(f, RPow(2, e), RPow(2, e - 1), RPow(2, e - 2));
  }

  ghost function StartOf(v: Double, power: int): Interval
  {
    StartInterval(v.d64 % 2 == 0, v.Significand(), v.Exponent(), power, true, v.LowerBoundaryIsCloser())
  }

  lemma BoundaryOffsets(f: nat, p: real, half: real, quarter: real)
    requires p == 2.0 * half && half == 2.0 * quarter
    ensures (2 * f + 1) as real * half == f as real * p + half
    ensures (2 * f - 1) as real * half == f as real * p - half
    ensures (4 * f - 1) as real * quarter == f as real * p - quarter
  {
    var x := f as real;
    assert (2 * f + 1) as real == 2.0 * x + 1.0;
    assert (2 * f - 1) as real == 2.0 * x - 1.0;
    assert (4 * f - 1) as real == 4.0 * x - 1.0;
    assert (2.0 * x + 1.0) * half == x * (2.0 * half) + half;
    assert (2.0 * x - 1.0) * half == x * (2.0 * half) - half;
    assert (4.0 * x - 1.0) * quarter == x * (4.0 * quarter) - quarter;
  }

  // After the fixup generation can start, at the reported decimal point.
  lemma FixupStarts(v: Double, power: int) returns (unit: real)
    requires v.IsFinitePositive() && GoodEstimate(v, power) && InRange(v.Exponent(), power)
    ensures var g := StartOf(v, power);
      && Represents(g.FixedUp(), v, if g.ReachesOne() then power + 1 else power, unit)
      && g.FixedUp().Start() && g.minus <= g.n
  {
    hide Pow, RPow, PB, Double.Value, Double.Upper, StartOf, Represents, Interval.Start, Interval.FixedUp, Interval.ReachesOne;
    var g := StartOf(v, power);
    unit := StartRepresents(v, power);
    StartShape(v, power);
    RPowStep(10, power);
    RPowStep(10, power - 1);
    EstimateBounds(g, v, power, unit);
    if g.ReachesOne() {
      ReachesOneStarts(g, v.Significand());
    } else {
      ScaledStarts(g, v.Significand());
      unit := ScaledRepresents(g, v, power, unit);
    }
  }

  ghost predicate HasShape(g: Interval, f: nat)
  {
    && g.Proper() && g.n == 2 * f * g.plus && 0 < f < 0x20_0000_0000_0000
    && (g.minus == g.plus || (2 * g.minus == g.plus && f == HIDDEN_BIT))
    && g.d <= 10 * g.n && g.n + g.plus < 10 * g.d
  }

  lemma ReachesOneStarts(g: Interval, f: nat)
    requires HasShape(g, f) && g.ReachesOne()
    ensures g.FixedUp() == g && g.Start() && g.minus <= g.n
  {
    hide Pow, Interval.Scaled;
    EnoughDigits(g, f);
    MulLe(2, 2 * f, g.plus);
  }

  lemma ScaledStarts(g: Interval, f: nat)
    requires HasShape(g, f) && !g.ReachesOne()
    ensures g.FixedUp().Start() && g.minus <= g.n
  {
    hide Pow, Interval.Scaled;
    EnoughDigits(g.FixedUp(), f);
    MulLe(2, 2 * f, g.plus);
  }

  lemma ScaledRepresents(g: Interval, v: Double, power: int, unit0: real) returns (unit: real)
    requires v.IsFinitePositive() && Represents(g, v, power + 1, unit0) && !g.ReachesOne()
    requires RPow(10, power) == 10.0 * RPow(10, power - 1)
    ensures Represents(g.FixedUp(), v, power, unit)
  {
    hide RPow, Double.Value, Double.Upper;
    unit := unit0 / 10.0;
    TenthUnit(g, unit0);
  }

  lemma TenthUnit(g: Interval, unit: real)
    ensures (10 * g.n) as real * (unit / 10.0) == g.n as real * unit
    ensures (10 * g.plus) as real * (unit / 10.0) == g.plus as real * unit
    ensures (10 * g.minus) as real * (unit / 10.0) == g.minus as real * unit
    ensures g.d as real * (unit / 10.0) == g.d as real * unit / 10.0
  {
  }

  // The significand counts half units of the last place.
  lemma StartShape(v: Double, power: int)
    requires v.IsFinitePositive() && InRange(v.Exponent(), power)
    ensures var g, f := StartOf(v, power), v.Significand();
      && g.Proper() && g.n == 2 * f * g.plus && 0 < f < 0x20_0000_0000_0000
      && (g.minus == g.plus || (2 * g.minus == g.plus && f == HIDDEN_BIT))
  {
    hide Pow, PB, Unit, DenominatorUnit, Double.Exponent, Double.Significand;
    v.Layout();
    if v.LowerBoundaryIsCloser() { CloserIsPowerOfTwo(v); }
    UnitBounds(v.Exponent(), power);
    TwiceProduct(v.Significand(), Unit(v.Exponent(), power));
  }

  lemma CloserIsPowerOfTwo(v: Double)
    requires v.LowerBoundaryIsCloser()
    ensures v.Significand() == HIDDEN_BIT
  {
  }

  lemma TwiceProduct(f: int, u: int)
    ensures 2 * (f * u) == 2 * f * u && 4 * (f * u) == 2 * f * (2 * u)
  {
  }

  lemma EstimateBounds(g: Interval, v: Double, power: int, unit: real)
    requires v.IsFinitePositive() && GoodEstimate(v, power) && Represents(g, v, power + 1, unit)
    requires RPow(10, power) == 10.0 * RPow(10, power - 1) && RPow(10, power + 1) == 10.0 * RPow(10, power)
    ensures g.d <= 10 * g.n && g.n + g.plus < 10 * g.d
  {
    hide RPow, Double.Value, Double.Upper;
    ScaleLe(g.d, 10 * g.n, unit);
    assert (10 * g.n) as real * unit == 10.0 * (g.n as real * unit);
    ScaleLe(g.n + g.plus, 10 * g.d, unit);
    assert (10 * g.d) as real * unit == 10.0 * (g.d as real * unit);
    assert (g.n + g.plus) as real * unit == g.n as real * unit + g.plus as real * unit;
  }

  // Seventeen digits tell neighbouring doubles apart: 2^54 < 2 * 10^16.
  lemma EnoughDigits(g: Interval, f: nat)
    requires g.Proper() && g.n == 2 * f * g.plus && f < 0x20_0000_0000_0000
    requires g.minus == g.plus || (2 * g.minus == g.plus && f == HIDDEN_BIT)
    requires g.d <= g.n + g.plus
    ensures g.d < g.Scaled(16).minus + g.Scaled(16).plus
  {
    hide Pow;
    TenTo16();
    MulLe(2 * f, 2 * 0x1F_FFFF_FFFF_FFFF, g.plus);
  }

  lemma TenTo16()
    ensures Pow(10, 16) == 10000000000000000
  {
    PowAdd(10, 8, 8);
    assert Pow(10, 8) == 100000000;
  }

  // ---------- Fixed and counted digits ----------

  // v * 10^places rounded, for v == n/d * 10^(point-1).
  ghost function FixedTarget(n: nat, d: nat, point: int, places: int): int
    requires 0 < d
  {
    PowPos(10, if point + places >= 1 then point + places - 1 else 1 - point - places);
    if point + places >= 1 then
      HalfUp(n * Pow(10, point + places - 1), d)
    else
      MulLe(1, d, Pow(10, 1 - point - places)); HalfUp(n, d * Pow(10, 1 - point - places))
  }

  // 'requestedDigits' digits after the point, for a fraction in [1, 10).
  method BignumToFixed(requestedDigits: nat, decimalPoint0: int, numerator: Bignum, denominator: Bignum,
                       buffer: array<char>, ghost n: nat, ghost d: nat)
    returns (length: nat, decimalPoint: int)
    requires Fraction(numerator, denominator, n, d) && 0 < d <= n < 10 * d && 10 * d < PB(LIMIT)
    requires 0 < buffer.Length && decimalPoint0 + requestedDigits <= buffer.Length
    modifies numerator, numerator.bigits, denominator, denominator.bigits, buffer
    ensures length <= buffer.Length && IsDigits(buffer[..length]) && (length > 0 ==> buffer[0] != '0')
    ensures length <= 1 || length <= decimalPoint0 + requestedDigits
    ensures 0 <= decimalPoint + requestedDigits - length
    ensures length == 0 ==> decimalPoint == -(requestedDigits as int)
    ensures DecVal(buffer[..length]) * Pow(10, decimalPoint + requestedDigits - length)
      == FixedTarget(n, d, decimalPoint0, requestedDigits)
  {
    hide PB, DecVal, Pow, HalfUp;
    PowZero(10);
    PowOne(10);
    DecEmpty();
    assert buffer[..0] == [];
    if -decimalPoint0 > requestedDigits {
      decimalPoint := -(requestedDigits as int);
      length := 0;
      TooSmall(n, d, 1 - decimalPoint0 - requestedDigits);
    } else if -decimalPoint0 == requestedDigits {
      decimalPoint := decimalPoint0;
      FitsTimes10(d, d);
      denominator.Times10();
      var order := Bignum.PlusCompare(numerator, numerator, denominator);
      HalfUpFromDigits(n, d * 10, 0, n);
      if order >= 0 {
        buffer[0] := '1';
        length := 1;
        decimalPoint := decimalPoint + 1;
        One(buffer[..1]);
      } else {
        length := 0;
      }
    } else {
      length := decimalPoint0 + requestedDigits;
      decimalPoint := GenerateCountedDigits(length, decimalPoint0, numerator, denominator, buffer, n, d);
    }
  }

  lemma TooSmall(n: nat, d: nat, k: nat)
    requires n < 10 * d && 2 <= k
    ensures 0 < d * Pow(10, k) && HalfUp(n, d * Pow(10, k)) == 0
  {
    hide Pow, HalfUp;
    PowMono(10, 2, k);
    Hundred();
    MulLe(100, Pow(10, k), d);
    HalfUpFromDigits(n, d * Pow(10, k), 0, n);
  }

  lemma Hundred()
    ensures Pow(10, 2) == 100
  {
  }

  // Without deltas the fraction after the fixup lies in [1, 10).
  lemma FixupWithoutDeltas(v: Double, power: int) returns (unit: real)
    requires v.IsFinitePositive() && GoodEstimate(v, power) && InRange(v.Exponent(), power)
    requires v.Exponent() >= 0 ==> power >= 0
    ensures var g := PlainStart(v, power);
      && g.minus == 0 && 0 < g.d
      && g.FixedUp().d <= g.FixedUp().n < 10 * g.d && g.FixedUp().d == g.d
      && IsFraction(g.FixedUp().n, g.d, v, if g.ReachesOne() then power + 1 else power, unit)
  {
    hide Pow, RPow, PB, Double.Value, Double.Upper, StartInterval, IsFraction;
    var g := PlainStart(v, power);
    PlainShape(v, power);
    unit := PlainFraction(v, power);
    RPowStep(10, power);
    RPowStep(10, power - 1);
    FractionBounds(g.n, g.d, v, power, unit);
    if !g.ReachesOne() {
      unit := TenthFraction(g.n, g.d, v, power, unit);
    }
  }

  ghost function PlainStart(v: Double, power: int): Interval
  {
    StartInterval(v.d64 % 2 == 0, v.Significand(), v.Exponent(), power, false, v.LowerBoundaryIsCloser())
  }

  lemma PlainShape(v: Double, power: int)
    requires v.IsFinitePositive() && InRange(v.Exponent(), power) && (v.Exponent() >= 0 ==> power >= 0)
    ensures var g := PlainStart(v, power);
      && g.minus == 0 == g.plus && 0 < g.d && (g.inclusive <==> v.d64 % 2 == 0)
      && (!g.inclusive ==> g.n != g.d)
  {
    hide Pow, PB, Unit, DenominatorUnit, StartNumerator, Double.Exponent, Double.Significand;
    UnitBounds(v.Exponent(), power);
    if v.d64 % 2 == 1 { OddIsNoPowerOfTen(v, power); }
  }

  lemma PlainFraction(v: Double, power: int) returns (unit: real)
    requires v.IsFinitePositive() && InRange(v.Exponent(), power)
    ensures IsFraction(PlainStart(v, power).n, PlainStart(v, power).d, v, power + 1, unit)
  {
    hide Pow, RPow, PB, Unit, DenominatorUnit, Double.Exponent, Double.Significand;
    var f, u := v.Significand(), Unit(v.Exponent(), power);
    unit := Kappa(v.Exponent(), power);
    RealMul(f, u);
    RealAssoc(f as real, u as real, unit);
  }

  lemma FractionBounds(n: nat, d: nat, v: Double, power: int, unit: real)
    requires v.IsFinitePositive() && GoodEstimate(v, power) && IsFraction(n, d, v, power + 1, unit)
    requires RPow(10, power) == 10.0 * RPow(10, power - 1) && RPow(10, power + 1) == 10.0 * RPow(10, power)
    ensures d <= 10 * n && n < 10 * d
  {
    hide RPow, Double.Value, Double.Upper;
    v.NextValue();
    ScaleLe(d, 10 * n, unit);
    assert (10 * n) as real * unit == 10.0 * (n as real * unit);
    ScaleLe(n, 10 * d, unit);
    assert (10 * d) as real * unit == 10.0 * (d as real * unit);
  }

  lemma TenthFraction(n: nat, d: nat, v: Double, power: int, unit0: real) returns (unit: real)
    requires IsFraction(n, d, v, power + 1, unit0) && RPow(10, power) == 10.0 * RPow(10, power - 1)
    ensures IsFraction(10 * n, d, v, power, unit)
  {
    hide RPow, Double.Value;
    unit := unit0 / 10.0;
    assert (10 * n) as real * unit == n as real * unit0;
    assert d as real * unit == d as real * unit0 / 10.0;
  }

  // ---------- The conversion ----------

  datatype Mode = Shortest | Fixed | Precision

  lemma FixedMeaning(v: Double, n: nat, d: nat, point: int, unit: real, places: int, digits: nat, exponent: int)
    requires IsFraction(n, d, v, point, unit) && -places <= exponent
    requires digits * Pow(10, exponent + places) == FixedTarget(n, d, point, places)
    ensures IsFixed(v, places, digits, exponent)
  {
    hide Pow, RPow, HalfUp, RoundHalfUp, DecimalValue, Double.Value, InPlaces;
    ScaledFraction(n, d, v, point, unit, places);
    var x := v.Value() * RPow(10, places);
    InPlacesIs(v, places, x);
    if 1 <= point + places {
      HalfUpIsRounding(n * Pow(10, point + places - 1), d, x);
    } else {
      HalfUpIsRounding(n, d * Pow(10, 1 - point - places), x);
    }
    DecimalRefine(digits, exponent, -places);
  }

  // Shortest digits, 'requestedDigits' digits after the point, or
  // 'requestedDigits' digits in all.
  method BignumDtoa(v: Double, mode: Mode, requestedDigits: nat, buffer: array<char>, error: real)
    returns (length: nat, decimalPoint: int)
    requires v.IsFinitePositive() && -HARDWARE_ERROR <= error <= HARDWARE_ERROR
    requires mode.Shortest? ==> 18 <= buffer.Length
    requires mode.Fixed? ==> 2 <= buffer.Length && v.Value() < RPow(10, buffer.Length - requestedDigits - 1)
    requires mode.Precision? ==> 0 < requestedDigits < buffer.Length
    modifies buffer
    ensures length < buffer.Length && buffer[length] == '\0' && IsDigits(buffer[..length])
    ensures length > 0 ==> buffer[0] != '0'
    ensures mode.Shortest? ==> length <= 17 && IsShortest(v, DecVal(buffer[..length]), length, decimalPoint)
    ensures mode.Fixed? ==> IsFixed(v, requestedDigits, DecVal(buffer[..length]), decimalPoint - length)
    ensures mode.Fixed? ==> length - decimalPoint <= requestedDigits
    ensures mode.Fixed? && length == 0 ==> decimalPoint == -(requestedDigits as int)
    ensures mode.Precision? ==>
      length == requestedDigits && IsPrecise(v, length, DecVal(buffer[..length]), decimalPoint)
  {
    hide PB, Pow, RPow, DecVal, Double.Value, Double.Upper, StartInterval, Bignum.Holds, RoundHalfUp, HalfUp;
    var significand, exponent, closer := v.Significand(), v.Exponent(), v.LowerBoundaryIsCloser();
    var needDeltas := mode.Shortest?;
    var isEven := significand % 2 == 0;
    v.Layout();
    var normalizedExponent := NormalizedExponent(significand, exponent);
    var estimatedPower := EstimatePower(normalizedExponent, error);
    EstimateIsGood(v, exponent - normalizedExponent, estimatedPower);
    EstimateInRange(v, estimatedPower);
    if mode.Fixed? && -estimatedPower - 1 > requestedDigits {
      TooSmallForFixed(v, estimatedPower, requestedDigits);
      buffer[0] := '\0';
      assert buffer[..0] == [];
      return 0, -(requestedDigits as int);
    }
    if needDeltas {
      length, decimalPoint := ShortestDtoa(v, significand, exponent, closer, isEven, buffer, estimatedPower);
    } else {
      length, decimalPoint := CountedDtoa(v, mode, requestedDigits, significand, exponent, closer, isEven, buffer, estimatedPower);
    }
    ghost var digits: seq<char> := buffer[..length];
    buffer[length] := '\0';
    assert buffer[..length] == digits;
  }

  method ShortestDtoa(v: Double, significand: nat, exponent: int, closer: bool, isEven: bool,
                      buffer: array<char>, estimatedPower: int)
    returns (length: nat, decimalPoint: int)
    requires v.IsFinitePositive() && GoodEstimate(v, estimatedPower) && Parts(v, significand, exponent, closer, isEven)
    requires InRange(exponent, estimatedPower) && (exponent >= 0 ==> estimatedPower >= 0)
    requires 18 <= buffer.Length
    modifies buffer
    ensures 0 < length <= 17 && IsDigits(buffer[..length]) && buffer[0] != '0'
    ensures IsShortest(v, DecVal(buffer[..length]), length, decimalPoint)
  {
    hide PB, Pow, RPow, DecVal, Double.Value, Double.Upper, StartInterval, Bignum.Holds,
         Interval.Start, Interval.Shortest, Interval.FixedUp, Represents, IsShortestOnGrid, IsShortest;
    var numerator, denominator, deltaMinus, deltaPlus := NewBignums();
    ghost var g := StartOf(v, estimatedPower);
    StartFits(v, estimatedPower);
    ghost var unit := FixupStarts(v, estimatedPower);
    InitialScaledStartValues(significand, exponent, closer, estimatedPower, true,
                             numerator, denominator, deltaMinus, deltaPlus, isEven);
    decimalPoint := FixupMultiply10(estimatedPower, isEven, numerator, denominator, deltaMinus, deltaPlus, g);
    FixedUpKeeps(g);
    length := GenerateShortestDigits(numerator, denominator, deltaMinus, deltaPlus, isEven, buffer, g.FixedUp());
    ShortestMeaning(g.FixedUp(), v, decimalPoint, unit, length, DecVal(buffer[..length]));
    DecBound(buffer[..length]);
    ShortestOnGridIsShortest(v, DecVal(buffer[..length]), length, decimalPoint);
  }

  method NewBignums() returns (a: Bignum, b: Bignum, c: Bignum, d: Bignum)
    ensures fresh(a) && fresh(b) && fresh(c) && fresh(d)
    ensures fresh(a.bigits) && fresh(b.bigits) && fresh(c.bigits) && fresh(d.bigits)
    ensures Separate(a, b, c, d) && c != d
    ensures a.Valid() && b.Valid() && c.Holds(0) && d.Holds(0)
  {
    a := new Bignum();
    b := new Bignum();
    c := new Bignum();
    d := new Bignum();
  }

  ghost predicate Parts(v: Double, significand: nat, exponent: int, closer: bool, isEven: bool)
  {
    && significand == v.Significand() < 0x20_0000_0000_0000 && exponent == v.Exponent()
    && closer == v.LowerBoundaryIsCloser() && isEven == (v.d64 % 2 == 0)
  }

  lemma StartFits(v: Double, power: int)
    requires v.IsFinitePositive() && InRange(v.Exponent(), power)
    ensures 10 * StartOf(v, power).d < PB(LIMIT) && 10 * PlainStart(v, power).d < PB(LIMIT)
    ensures PlainStart(v, power).minus == 0 == PlainStart(v, power).plus
  {
    hide Pow, PB, Unit, DenominatorUnit, StartNumerator;
    v.Layout();
    FactorsFit(v.Significand(), v.Exponent(), power);
  }

  lemma FixedUpKeeps(g: Interval)
    ensures g.FixedUp().d == g.d && g.FixedUp().inclusive == g.inclusive
    ensures g.minus == 0 == g.plus ==> g.FixedUp().minus == 0 == g.FixedUp().plus
  {
  }

  method CountedDtoa(v: Double, mode: Mode, requestedDigits: nat,
                     significand: nat, exponent: int, closer: bool, isEven: bool,
                     buffer: array<char>, estimatedPower: int)
    returns (length: nat, decimalPoint: int)
    requires v.IsFinitePositive() && GoodEstimate(v, estimatedPower) && Parts(v, significand, exponent, closer, isEven)
    requires InRange(exponent, estimatedPower) && (exponent >= 0 ==> estimatedPower >= 0)
    requires mode.Fixed? ==> 2 <= buffer.Length && v.Value() < RPow(10, buffer.Length - requestedDigits - 1)
    requires mode.Precision? ==> 0 < requestedDigits < buffer.Length
    requires !mode.Shortest?
    modifies buffer
    ensures length < buffer.Length && IsDigits(buffer[..length]) && (length > 0 ==> buffer[0] != '0')
    ensures mode.Fixed? ==> IsFixed(v, requestedDigits, DecVal(buffer[..length]), decimalPoint - length)
    ensures mode.Fixed? ==> length - decimalPoint <= requestedDigits
    ensures mode.Fixed? && length == 0 ==> decimalPoint == -(requestedDigits as int)
    ensures mode.Precision? ==>
      length == requestedDigits && IsPrecise(v, length, DecVal(buffer[..length]), decimalPoint)
  {
    hide PB, Pow, RPow, DecVal, Double.Value, Double.Upper, StartInterval, Bignum.Holds, HalfUp,
         IsFraction, IsFixed, IsPrecise;
    var numerator, denominator, deltaMinus, deltaPlus := NewBignums();
    ghost var g := PlainStart(v, estimatedPower);
    StartFits(v, estimatedPower);
    ghost var unit := FixupWithoutDeltas(v, estimatedPower);
    InitialScaledStartValues(significand, exponent, closer, estimatedPower, false,
                             numerator, denominator, deltaMinus, deltaPlus, isEven);
    decimalPoint := FixupMultiply10(estimatedPower, isEven, numerator, denominator, deltaMinus, deltaPlus, g);
    ghost var f, magnitude := g.FixedUp(), decimalPoint;
    assert Fraction(numerator, denominator, f.n, f.d);
    if mode.Fixed? {
      PointFits(v, f.n, f.d, magnitude, unit, buffer.Length - requestedDigits - 1);
      length, decimalPoint := BignumToFixed(requestedDigits, decimalPoint, numerator, denominator, buffer, f.n, f.d);
      FixedMeaning(v, f.n, f.d, magnitude, unit, requestedDigits, DecVal(buffer[..length]), decimalPoint - length);
    } else {
      length := requestedDigits;
      decimalPoint := GenerateCountedDigits(requestedDigits, decimalPoint, numerator, denominator, buffer, f.n, f.d);
      PreciseMeaning(v, f.n, f.d, magnitude, unit, length, DecVal(buffer[..length]), decimalPoint);
    }
  }

  lemma PointFits(v: Double, n: nat, d: nat, magnitude: int, unit: real, room: int)
    requires IsFraction(n, d, v, magnitude, unit) && d <= n && v.Value() < RPow(10, room)
    ensures magnitude <= room
  {
    hide RPow, Double.Value;
    ScaleLe(d, n, unit);
    if room < magnitude { RPowMono(10, room, magnitude - 1); }
  }

  lemma PreciseMeaning(v: Double, n: nat, d: nat, magnitude: int, unit: real, count: nat, digits: nat, point: int)
    requires IsFraction(n, d, v, magnitude, unit) && d <= n < 10 * d && 0 < count
    requires magnitude <= point <= magnitude + 1 && 0 <= n * Pow(10, count - 1)
    requires digits * (if point == magnitude then 1 else 10) == HalfUp(n * Pow(10, count - 1), d)
    ensures IsPrecise(v, count, digits, point)
  {
    hide Pow, RPow, HalfUp, IsFixed, Double.Value;
    PowZero(10);
    PowOne(10);
    FixedMeaning(v, n, d, magnitude, unit, count - magnitude, digits, point - count);
    RPowStep(10, magnitude - 1);
    ScaleLe(d, n, unit);
    ScaleLe(n, 10 * d, unit);
    assert (10 * d) as real * unit == 10.0 * (d as real * unit);
    assert HasMagnitude(v, magnitude);
  }

  lemma TooSmallForFixed(v: Double, power: int, places: nat)
    requires v.IsFinitePositive() && GoodEstimate(v, power) && -power - 1 > places
    ensures DecVal([]) == 0 && IsFixed(v, places, 0, 0 - places)
  {
    hide Pow, RPow, Double.Value, Double.Upper;
    v.NextValue();
    RPowPos(10, places);
    RPowAdd(10, power + 1, places);
    RPowMono(10, power + 1 + places, -1);
    OneTenth();
    RealMulLt(v.Value(), RPow(10, power + 1), RPow(10, places));
    var x := v.Value() * RPow(10, places);
    assert x < 0.1;
    ValueNotNegative(v);
    RealMulLe(0.0, v.Value(), RPow(10, places));
    assert (x + 0.5).Floor == 0;
  }

  lemma OneTenth()
    ensures RPow(10, -1) == 0.1
  {
    assert RPow(10, 0) == 1.0;
  }

  lemma ValueNotNegative(v: Double)
    ensures 0.0 <= v.Value()
  {
    hide RPow;
    RPowPos(2, v.Exponent());
  }

  // ---------- The length that a division asserts ----------

  lemma BaseIsTwos(length: nat)
    ensures PB(length) == Pow(2, 28 * length)
  {
    hide Pow;
    TwoTo28();
    PowMul(2, 28, length);
  }

  lemma ScaledBelow(t: real, u: real, s: real, w: real, b: real)
    requires 0.0 < s && w == t * s && b == u * s && w < b
    ensures t < u
  {
    RealScaleLe(t, u, s);
  }

  lemma ScaledBound(t: real, u: real, s: real, w: real, b: real)
    requires 0.0 < s && w == t * s && b == u * s && 268435456.0 * t <= 268435455.0 * u
    ensures 268435456.0 * w <= 268435455.0 * b
  {
    RealMulLe(268435456.0 * t, 268435455.0 * u, s);
    assert 268435456.0 * t * s == 268435456.0 * (t * s);
    assert 268435455.0 * u * s == 268435455.0 * (u * s);
  }

  // A power of ten times a power of two does not begin with a bigit of ones.
  lemma TopNotAllOnes(p: nat, s: nat, length: nat)
    requires p <= 347 && 0 < length && Pow(10, p) * Pow(2, s) < PB(length)
    ensures Pow(10, p) * Pow(2, s) <= (BASE - 1) * PB(length - 1)
  {
    hide Pow, RPow, PB;
    BaseIsTwos(length);
    PBStep(length - 1);
    RPowNat(10, p);
    RPowNat(2, s);
    RPowNat(2, 28 * length);
    RPowPos(2, s);
    RPowAdd(2, 28 * length - s, s);
    RealMul(Pow(10, p), Pow(2, s));
    var w, b := (Pow(10, p) * Pow(2, s)) as real, PB(length) as real;
    ScaledBelow(RPow(10, p), RPow(2, 28 * length - s), RPow(2, s), w, b);
    PowerTable.NoTenJustBelowTwo(p, 28 * length - s);
    ScaledBound(RPow(10, p), RPow(2, 28 * length - s), RPow(2, s), w, b);
  }

  lemma DenominatorIsPower(v: Double, power: int, times: nat) returns (p: nat, s: nat)
    requires v.IsFinitePositive() && GoodEstimate(v, power) && (times == 1 || times == 2 || times == 4)
    ensures p <= 347 && times * DenominatorUnit(v.Exponent(), power) == Pow(10, p) * Pow(2, s)
  {
    hide Pow, RPow, Double.Value, Double.Upper, Double.Exponent, Double.Significand;
    PowerTable.DoubleRange(v);
    if 348 <= power { RPowMono(10, 347, power - 1); }
    p := if power >= 0 then power else 0;
    var bits: nat := if v.Exponent() < 0 then -v.Exponent() else 0;
    s := bits + if times == 1 then 0 else if times == 2 then 1 else 2;
    PowStep(2, bits);
    PowStep(2, bits + 1);
    TimesFactor(times, Pow(10, p), Pow(2, bits));
  }

  lemma TimesFactor(c: int, a: int, b: int)
    ensures c * (a * b) == a * (c * b)
  {
  }

  // So the length that DivideModuloIntBignum asserts is there in every division
  // by one of these denominators.
  lemma DenominatorKeepsLength(v: Double, power: int, needDeltas: bool, length: nat)
    requires v.IsFinitePositive() && GoodEstimate(v, power) && 0 < length
    requires var d := (if needDeltas then StartOf(v, power) else PlainStart(v, power)).d; PB(length - 1) <= d < PB(length)
    ensures var d := (if needDeltas then StartOf(v, power) else PlainStart(v, power)).d;
      forall n: nat :: PB(length - 1) <= n < 0x1_0000 * d ==> PB(length - 1) <= LongRest(n, d, length)
  {
    hide Pow, RPow, PB, LongRest, DenominatorUnit, Unit, StartNumerator, Double.Value, Double.Upper;
    var times := if !needDeltas then 1 else if v.LowerBoundaryIsCloser() then 4 else 2;
    var p, s := DenominatorIsPower(v, power, times);
    TopNotAllOnes(p, s, length);
    LengthAssertion(times * DenominatorUnit(v.Exponent(), power), length);
  }
}
