// external/double-conversion/bignum-dtoa.cc: the fraction that conversion of a
// double starts from.
module StartValues {
  import opened Powers
  import opened Bigits
  import opened Bignums
  import opened DigitGeneration
  import opened Ieee

  // v / 10^power == f * Unit / DenominatorUnit for v == f * 2^exponent.
  ghost function Unit(exponent: int, power: int): nat
  {
    Pow(2, if exponent >= 0 then exponent else 0) * Pow(10, if power < 0 then -power else 0)
  }

  ghost function DenominatorUnit(exponent: int, power: int): nat
  {
    Pow(10, if power >= 0 then power else 0) * Pow(2, if exponent < 0 then -exponent else 0)
  }

  predicate InRange(exponent: int, power: int)
  {
    DENORMAL_EXPONENT <= exponent < MAX_EXPONENT && -360 <= power <= 360
  }

  lemma {:induction false} TenBelowTwos(n: nat)
    ensures Pow(10, n) <= Pow(2, 4 * n)
  {
    PowMul(2, 4, n);
    assert Pow(2, 4) == 16;
    PowBaseMono(10, 16, n);
  }

  ghost function Shifted(v: nat, shift: nat): nat { v * Pow(2, shift) }

  ghost function Product(v: nat, factor: nat): nat { v * factor }

  // The numerator before a common denominator is introduced.
  ghost function StartNumerator(f: nat, exponent: int, power: int): nat { f * Unit(exponent, power) }

  lemma UnitCases(f: nat, exponent: int, power: int)
    ensures exponent >= 0 && power >= 0 ==>
      && StartNumerator(f, exponent, power) == Shifted(f, exponent)
      && Unit(exponent, power) == Shifted(1, exponent) && DenominatorUnit(exponent, power) == Pow(10, power)
    ensures exponent < 0 && power >= 0 ==>
      && StartNumerator(f, exponent, power) == f
      && Unit(exponent, power) == 1 && DenominatorUnit(exponent, power) == Shifted(Pow(10, power), -exponent)
    ensures exponent < 0 && power < 0 ==>
      && StartNumerator(f, exponent, power) == Product(Pow(10, -power), f)
      && Unit(exponent, power) == Pow(10, -power) && DenominatorUnit(exponent, power) == Shifted(1, -exponent)
  {
    hide Pow;
    PowZero(2);
    PowZero(10);
  }

  lemma ShiftedOnce(v: nat)
    ensures Shifted(v, 1) == 2 * v
  {
    hide Pow;
    PowOne(2);
  }

  // Everything stays far below the capacity.
  lemma UnitBounds(exponent: int, power: int)
    requires InRange(exponent, power)
    ensures 0 < Unit(exponent, power) <= Pow(2, 2600) && 0 < DenominatorUnit(exponent, power) <= Pow(2, 2600)
    ensures Pow(10, if power < 0 then -power else power) <= Pow(2, 2600)
    ensures Pow(2, 2600) * Pow(2, 60) < PB(LIMIT) && PB(LIMIT) * PB(1) < PB(CAPACITY - 1)
  {
    hide Pow, PB;
    var a, b := if power < 0 then -power else power, if exponent < 0 then -exponent else exponent;
    TenBelowTwos(a);
    PowMono(2, 4 * a, 1440);
    PowMono(2, b, 1074);
    PowZero(2);
    PowZero(10);
    PowPos(2, b);
    PowPos(10, a);
    PowAdd(2, 1440, 1074);
    PowMono(2, 2514, 2600);
    PowMono(2, 1440, 2600);
    PowMono(2, 1074, 2600);
    var p, q := Pow(10, a), Pow(2, b);
    MulLe(p, Pow(2, 1440), q);
    MulLe(q, Pow(2, 1074), Pow(2, 1440));
    MulLe(1, p, q);
    PowAdd(2, 2600, 60);
    PowMul(2, BIGIT_SIZE, LIMIT);
    TwoTo28();
    PBIsPow(LIMIT);
    PowStrictMono(2, 2660, BIGIT_SIZE * LIMIT);
    PBAdd(LIMIT, 1);
    PBMono(LIMIT + 2, CAPACITY - 1);
    PBStep(LIMIT + 1);
  }

  lemma Room(b: Bignum)
    requires b.Valid() && b.Value() < PB(LIMIT)
    ensures b.used <= LIMIT && b.exponent <= LIMIT && b.Mantissa() <= b.Value()
    ensures b.used == 0 <==> b.Value() == 0
  {
    hide PB;
    b.LengthAtMost(LIMIT);
    b.ValuePositive();
    MulLe(1, PB(b.exponent), b.Mantissa());
  }

  lemma TenFits(n: nat)
    requires n <= 360
    ensures PowerFits(10, n)
  {
    assert Odd(10) == 5;
    assert BitSize(1) == 1 && BitSize(2) == 2;
    assert BitSize(5) == 3;
  }

  // The operations, as far as the start values need them.

  method ShiftSmall(b: Bignum, shift: nat, ghost v: nat)
    requires b.Holds(v) && v < PB(LIMIT) && shift <= 2000
    modifies b, b.bigits
    ensures b.Holds(Shifted(v, shift))
  {
    hide PB, Pow;
    Room(b);
    b.ShiftLeft(shift);
  }

  method MultiplySmall(b: Bignum, factor: uint64, ghost v: nat)
    requires b.Holds(v) && v < PB(LIMIT) && Product(v, factor) < PB(CAPACITY)
    modifies b, b.bigits
    ensures b.Holds(Product(v, factor))
  {
    hide PB;
    Room(b);
    MulLe(b.Mantissa(), b.Value(), factor);
    b.MultiplyByUInt64(factor);
  }

  method SetTo(b: Bignum, value: uint64)
    requires b.Valid()
    modifies b, b.bigits
    ensures b.Holds(value)
  {
    b.AssignUInt64(value);
  }

  method SetToOne(b: Bignum)
    requires b.Valid()
    modifies b, b.bigits
    ensures b.Holds(1)
  {
    b.AssignUInt16(1);
  }

  method SetToPowerOfTen(b: Bignum, n: nat)
    requires b.Valid() && n <= 360
    modifies b, b.bigits
    ensures b.Holds(Pow(10, n))
  {
    TenFits(n);
    b.AssignPowerUInt16(10, n);
  }

  method CopyOf(b: Bignum, other: Bignum, ghost v: nat)
    requires b.Valid() && other.Holds(v) && b.Apart(other)
    modifies b, b.bigits
    ensures b.Holds(v)
  {
    b.AssignBignum(other);
  }

  lemma HoldsIsValid(b: Bignum, v: nat)
    requires b.Holds(v)
    ensures b.Valid()
  {
  }

  method PositiveExponent(significand: uint64, exponent: int, power: int, needDeltas: bool,
                          numerator: Bignum, denominator: Bignum, deltaMinus: Bignum, deltaPlus: Bignum)
    requires Separate(numerator, denominator, deltaMinus, deltaPlus) && deltaMinus != deltaPlus
    requires numerator.Valid() && denominator.Valid() && deltaMinus.Holds(0) && deltaPlus.Holds(0)
    requires InRange(exponent, power) && exponent >= 0 && power >= 0 && significand < 0x20_0000_0000_0000
    modifies numerator, numerator.bigits, denominator, denominator.bigits
    modifies deltaMinus, deltaMinus.bigits, deltaPlus, deltaPlus.bigits
    ensures numerator.Holds((if needDeltas then 2 else 1) * StartNumerator(significand, exponent, power))
    ensures denominator.Holds((if needDeltas then 2 else 1) * DenominatorUnit(exponent, power))
    ensures deltaMinus.Holds(if needDeltas then Unit(exponent, power) else 0)
    ensures deltaPlus.Holds(if needDeltas then Unit(exponent, power) else 0)
  {
    hide Bignum.Holds, Unit, DenominatorUnit, StartNumerator, Shifted, Product, Pow, PB;
    FactorsFit(significand, exponent, power);
    UnitCases(significand, exponent, power);
    ghost var n, d := StartNumerator(significand, exponent, power), DenominatorUnit(exponent, power);
    ShiftedOnce(n);
    ShiftedOnce(d);
    SetTo(numerator, significand);
    ShiftSmall(numerator, exponent, significand);
    SetToPowerOfTen(denominator, power);
    if needDeltas {
      ShiftSmall(denominator, 1, d);
      ShiftSmall(numerator, 1, n);
      HoldsIsValid(deltaPlus, 0);
      SetToOne(deltaPlus);
      ShiftSmall(deltaPlus, exponent, 1);
      HoldsIsValid(deltaMinus, 0);
      SetToOne(deltaMinus);
      ShiftSmall(deltaMinus, exponent, 1);
    }
  }

  method NegativeExponentPositivePower(significand: uint64, exponent: int, power: int, needDeltas: bool,
                                       numerator: Bignum, denominator: Bignum, deltaMinus: Bignum, deltaPlus: Bignum)
    requires Separate(numerator, denominator, deltaMinus, deltaPlus) && deltaMinus != deltaPlus
    requires numerator.Valid() && denominator.Valid() && deltaMinus.Holds(0) && deltaPlus.Holds(0)
    requires InRange(exponent, power) && exponent < 0 <= power && significand < 0x20_0000_0000_0000
    modifies numerator, numerator.bigits, denominator, denominator.bigits
    modifies deltaMinus, deltaMinus.bigits, deltaPlus, deltaPlus.bigits
    ensures numerator.Holds((if needDeltas then 2 else 1) * StartNumerator(significand, exponent, power))
    ensures denominator.Holds((if needDeltas then 2 else 1) * DenominatorUnit(exponent, power))
    ensures deltaMinus.Holds(if needDeltas then Unit(exponent, power) else 0)
    ensures deltaPlus.Holds(if needDeltas then Unit(exponent, power) else 0)
  {
    hide Bignum.Holds, Unit, DenominatorUnit, StartNumerator, Shifted, Product, Pow, PB;
    FactorsFit(significand, exponent, power);
    UnitCases(significand, exponent, power);
    ghost var n, d := StartNumerator(significand, exponent, power), DenominatorUnit(exponent, power);
    ShiftedOnce(n);
    ShiftedOnce(d);
    SetTo(numerator, significand);
    SetToPowerOfTen(denominator, power);
    ShiftSmall(denominator, -exponent, Pow(10, power));
    if needDeltas {
      ShiftSmall(denominator, 1, d);
      ShiftSmall(numerator, 1, n);
      HoldsIsValid(deltaPlus, 0);
      SetToOne(deltaPlus);
      HoldsIsValid(deltaMinus, 0);
      SetToOne(deltaMinus);
    }
  }

  // The numerator first serves as 10^-power.
  method NegativeExponentNegativePower(significand: uint64, exponent: int, power: int, needDeltas: bool,
                                       numerator: Bignum, denominator: Bignum, deltaMinus: Bignum, deltaPlus: Bignum)
    requires Separate(numerator, denominator, deltaMinus, deltaPlus) && deltaMinus != deltaPlus
    requires numerator.Valid() && denominator.Valid() && deltaMinus.Holds(0) && deltaPlus.Holds(0)
    requires InRange(exponent, power) && exponent < 0 && power < 0 && significand < 0x20_0000_0000_0000
    modifies numerator, numerator.bigits, denominator, denominator.bigits
    modifies deltaMinus, deltaMinus.bigits, deltaPlus, deltaPlus.bigits
    ensures numerator.Holds((if needDeltas then 2 else 1) * StartNumerator(significand, exponent, power))
    ensures denominator.Holds((if needDeltas then 2 else 1) * DenominatorUnit(exponent, power))
    ensures deltaMinus.Holds(if needDeltas then Unit(exponent, power) else 0)
    ensures deltaPlus.Holds(if needDeltas then Unit(exponent, power) else 0)
  {
    hide Bignum.Holds, Unit, DenominatorUnit, StartNumerator, Shifted, Product, Pow, PB;
    FactorsFit(significand, exponent, power);
    UnitCases(significand, exponent, power);
    ghost var n, d := StartNumerator(significand, exponent, power), DenominatorUnit(exponent, power);
    ShiftedOnce(n);
    ShiftedOnce(d);
    SetToPowerOfTen(numerator, -power);
    if needDeltas {
      HoldsIsValid(deltaPlus, 0);
      CopyOf(deltaPlus, numerator, Pow(10, -power));
      HoldsIsValid(deltaMinus, 0);
      CopyOf(deltaMinus, numerator, Pow(10, -power));
    }
    MultiplySmall(numerator, significand, Pow(10, -power));
    SetToOne(denominator);
    ShiftSmall(denominator, -exponent, 1);
    if needDeltas {
      ShiftSmall(numerator, 1, n);
      ShiftSmall(denominator, 1, d);
    }
  }

  lemma FactorsFit(significand: nat, exponent: int, power: int)
    requires InRange(exponent, power) && significand < 0x20_0000_0000_0000
    ensures 4 * StartNumerator(significand, exponent, power) < PB(LIMIT)
    ensures 40 * DenominatorUnit(exponent, power) < PB(LIMIT) && 4 * Unit(exponent, power) < PB(LIMIT)
    ensures significand < PB(LIMIT)
    ensures Pow(10, if power < 0 then -power else power) < PB(LIMIT) && 1 < PB(LIMIT) < PB(CAPACITY)
  {
    hide Pow, PB, Unit, DenominatorUnit;
    UnitBounds(exponent, power);
    TwoTo60();
    var u, b := Unit(exponent, power), Pow(2, 2600);
    MulLe(significand, 0x20_0000_0000_0000, u);
    MulLe(u, b, 0x20_0000_0000_0000);
    MulLe(0, significand, u);
    PBMono(CAPACITY - 1, CAPACITY);
    PBOne();
    MulLe(1, PB(1), PB(LIMIT));
  }

  lemma TwoTo60()
    ensures Pow(2, 60) == 0x1000_0000_0000_0000
  {
    TwoTo28();
    PowAdd(2, 28, 28);
    PowAdd(2, 56, 4);
    assert Pow(2, 4) == 16;
  }
}
