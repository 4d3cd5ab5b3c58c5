// external/double-conversion/strtod.cc: the exact comparison of a decimal
// string with a binary floating-point number.
module Comparison {
  import opened Powers
  import opened Bigits
  import opened Bignums
  import opened Decimal
  import opened DigitBuffer
  import opened DecimalMeaning
  import opened DiyFps
  import opened Ieee

  const MAX_DECIMAL_POWER := 309
  const MIN_DECIMAL_POWER := -324
  const MAX_SIGNIFICANT_DIGITS := 780

  // The number that digits and exponent denote.
  ghost function Read(digits: seq<char>, exponent: int): real
    requires IsDigits(digits)
  {
    DecimalValue(DecVal(digits), exponent)
  }

  ghost function SignOf(x: real, y: real): int
  {
    if x < y then -1 else if x > y then 1 else 0
  }

  function Positive(x: int): nat { if x > 0 then x else 0 }

  // Both numbers as integers, but for their powers of two.
  method CommonTens(buffer: seq<char>, exponent: int, f: uint64) returns (b: Bignum, d: Bignum)
    requires IsDigits(buffer) && |buffer| <= MAX_SIGNIFICANT_DIGITS
    requires MIN_DECIMAL_POWER < |buffer| + exponent <= MAX_DECIMAL_POWER + 1
    ensures fresh(b) && fresh(b.bigits) && fresh(d) && fresh(d.bigits) && b.Apart(d)
    ensures b.Valid() && b.Value() == DecVal(buffer) * Pow(10, Positive(exponent))
    ensures d.Valid() && d.Value() == f * Pow(10, Positive(0 - exponent))
    ensures b.used < CAPACITY && d.used < CAPACITY && b.exponent < 1000 && d.exponent < 1000
  {
    hide PB, Pow, DecVal, Bignum.Value, Bignum.Mantissa;
    b := new Bignum();
    d := new Bignum();
    b.AssignDecimalString(buffer);
    d.AssignUInt64(f);
    PowZero(10);
    if exponent >= 0 {
      DigitsFit(buffer, exponent);
      PBMono(CAPACITY - 2, CAPACITY - 1);
      b.FivesFit(exponent);
      b.MultiplyByPowerOfTen(exponent);
      b.LengthAtMost(CAPACITY - 2);
    } else {
      SmallTimesFives(d, -exponent);
      d.MultiplyByPowerOfTen(-exponent);
      d.UsedAtMost(97);
    }
  }

  // The side with the negative power of two is left alone.
  method ScaleByTwos(b: Bignum, d: Bignum, e: int)
    requires b.Valid() && d.Valid() && b.Apart(d)
    requires b.used < CAPACITY && d.used < CAPACITY && b.exponent < 1000 && d.exponent < 1000
    requires -1100 <= e <= 1100
    modifies b, b.bigits, d, d.bigits
    ensures b.Valid() && b.Value() == old(b.Value()) * Pow(2, Positive(0 - e))
    ensures d.Valid() && d.Value() == old(d.Value()) * Pow(2, Positive(e))
  {
    hide PB, Pow, Bignum.Value, Bignum.Mantissa;
    PowZero(2);
    if e > 0 {
      d.ShiftLeft(e);
    } else {
      b.ShiftLeft(-e);
    }
  }

  // The sign of buffer * 10^exponent - diyFp.
  method CompareBufferWithDiyFp(buffer: seq<char>, exponent: int, diyFp: DiyFp) returns (r: int)
    requires IsDigits(buffer) && |buffer| <= MAX_SIGNIFICANT_DIGITS
    requires MIN_DECIMAL_POWER < |buffer| + exponent <= MAX_DECIMAL_POWER + 1
    requires -1100 <= diyFp.e <= 1100
    ensures r == SignOf(Read(buffer, exponent), BinaryValue(diyFp.f, diyFp.e))
  {
    hide PB, Pow, RPow, DecVal, Bignum.Value, Bignum.Mantissa, DecimalValue, BinaryValue, Positive;
    var b, d := CommonTens(buffer, exponent, diyFp.f);
    ScaleByTwos(b, d, diyFp.e);
    r := Bignum.Compare(b, d);
    CommonScale(DecVal(buffer), exponent, diyFp.f, diyFp.e, b.Value(), d.Value());
  }

  lemma DigitsFit(buffer: seq<char>, exponent: nat)
    requires IsDigits(buffer) && |buffer| + exponent <= MAX_DECIMAL_POWER + 1
    ensures DecVal(buffer) * Pow(10, exponent) < PB(CAPACITY - 2)
  {
    hide Pow, PB, DecVal;
    DecBound(buffer);
    PowAdd(10, |buffer|, exponent);
    PowPos(10, exponent);
    MulLt(DecVal(buffer), Pow(10, |buffer|), Pow(10, exponent));
    DecimalFits(|buffer| + exponent);
  }

  // 5^1104 < 2^2576.
  lemma FivesBelow(n: nat)
    requires n <= 1104
    ensures Pow(5, n) <= Pow(2, 2576)
  {
    hide Pow;
    PowMono(5, n, 1104);
    PowMul(5, 3, 368);
    Cubes();
    PowBaseMono(125, 128, 368);
    PowMul(2, 7, 368);
  }

  lemma Cubes()
    ensures Pow(5, 3) == 125 && Pow(2, 7) == 128
  {
  }

  lemma SmallTimesFives(b: Bignum, n: nat)
    requires b.Valid() && b.Value() < TWO_64 && n <= 1104
    ensures b.Mantissa() * Pow(5, n) < PB(96) && PB(96) <= PB(CAPACITY - 1)
    ensures b.Mantissa() * Pow(5, n) * Pow(2, n % BIGIT_SIZE) < PB(97)
  {
    hide Pow, PB, Bignum.Mantissa;
    MantissaAtMostValue(b);
    FivesBelow(n);
    TwoTo64();
    PowPos(5, n);
    ProductBelow(b.Mantissa(), Pow(5, n), TWO_64, Pow(2, 2576));
    PowAdd(2, 64, 2576);
    BitsInBigits(2640);
    PBMono(95, 96);
    PBMono(96, CAPACITY - 1);
    TwoTo28();
    PowStrictMono(2, n % BIGIT_SIZE, BIGIT_SIZE);
    PowPos(2, n % BIGIT_SIZE);
    PBStep(96);
    ProductBelow(b.Mantissa() * Pow(5, n), Pow(2, n % BIGIT_SIZE), PB(96), BASE);
  }

  lemma ProductBelow(a: nat, b: nat, c: nat, d: nat)
    requires a < c && 0 < b <= d
    ensures 0 <= a * b < c * d
  {
    MulLe(0, a, b);
    MulLt(a, c, b);
    MulLe(b, d, c);
  }

  lemma MantissaAtMostValue(b: Bignum)
    requires b.Shaped()
    ensures b.Mantissa() <= b.Value()
  {
    hide PB;
    MulLe(1, PB(b.exponent), b.Mantissa());
  }

  // Multiplying both sides by the same powers makes them integers.
  lemma CommonScale(digits: nat, q: int, f: nat, e: int, x: int, y: int)
    requires x == digits * Pow(10, Positive(q)) * Pow(2, Positive(0 - e))
    requires y == f * Pow(10, Positive(0 - q)) * Pow(2, Positive(e))
    ensures Sign(x - y) == SignOf(DecimalValue(digits, q), BinaryValue(f, e))
  {
    hide Pow, RPow, DecimalValue, BinaryValue;
    var unit := RPow(10, Positive(0 - q)) * RPow(2, Positive(0 - e));
    PositiveUnit(q, e);
    DecimalSide(digits, q, e);
    BinarySide(f, q, e);
    SameSign(x, y, DecimalValue(digits, q), BinaryValue(f, e), unit);
  }

  lemma PositiveUnit(q: int, e: int)
    ensures 0.0 < RPow(10, Positive(0 - q)) * RPow(2, Positive(0 - e))
  {
    hide *;
    RPowPos(10, Positive(0 - q));
    RPowPos(2, Positive(0 - e));
    RealPositive(RPow(10, Positive(0 - q)), RPow(2, Positive(0 - e)));
  }

  lemma DecimalSide(digits: nat, q: int, e: int)
    ensures (digits * Pow(10, Positive(q)) * Pow(2, Positive(0 - e))) as real
         == DecimalValue(digits, q) * (RPow(10, Positive(0 - q)) * RPow(2, Positive(0 - e)))
  {
    hide *;
    RPowNat(2, Positive(0 - e));
    TimesPower(10, q);
    DecimalIs(digits, q);
    LeftSide(digits, Pow(10, Positive(q)), Pow(2, Positive(0 - e)), RPow(10, q), RPow(10, Positive(0 - q)), RPow(2, Positive(0 - e)));
  }

  lemma BinarySide(f: nat, q: int, e: int)
    ensures (f * Pow(10, Positive(0 - q)) * Pow(2, Positive(e))) as real
         == BinaryValue(f, e) * (RPow(10, Positive(0 - q)) * RPow(2, Positive(0 - e)))
  {
    hide *;
    BinaryIs(f, e);
    RPowNat(10, Positive(0 - q));
    TimesPower(2, e);
    RightSide(f, Pow(10, Positive(0 - q)), Pow(2, Positive(e)), RPow(2, e), RPow(10, Positive(0 - q)), RPow(2, Positive(0 - e)));
  }

  lemma LeftSide(a: int, b: int, c: int, t: real, k: real, l: real)
    requires b as real == t * k && c as real == l
    ensures (a * b * c) as real == a as real * t * (k * l)
  {
    ThreeFactors(a, b, c);
    RegroupLeft(a as real, t, k, l);
  }

  lemma RightSide(a: int, b: int, c: int, t: real, k: real, l: real)
    requires b as real == k && c as real == t * l
    ensures (a * b * c) as real == a as real * t * (k * l)
  {
    ThreeFactors(a, b, c);
    RegroupRight(a as real, k, t, l);
  }

  lemma TimesPower(b: nat, q: int)
    requires 0 < b
    ensures Pow(b, Positive(q)) as real == RPow(b, q) * RPow(b, Positive(0 - q))
  {
    hide Pow, RPow;
    RPowNat(b, Positive(q));
    RPowAdd(b, q, Positive(0 - q));
  }

  lemma ThreeFactors(a: int, b: int, c: int)
    ensures (a * b * c) as real == a as real * b as real * c as real
  {
    RealMul(a, b);
    RealMul(a * b, c);
  }

  lemma RegroupLeft(a: real, t: real, k: real, l: real)
    ensures a * (t * k) * l == a * t * (k * l)
  {
  }

  lemma RegroupRight(f: real, k: real, p: real, l: real)
    ensures f * k * (p * l) == f * p * (k * l)
  {
  }

  lemma SameSign(x: int, y: int, a: real, b: real, unit: real)
    requires 0.0 < unit && x as real == a * unit && y as real == b * unit
    ensures Sign(x - y) == SignOf(a, b)
  {
    RealScaleLe(a, b, unit);
    RealScaleLe(b, a, unit);
  }
}
