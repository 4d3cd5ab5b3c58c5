// external/double-conversion/strtod.cc: reading decimal digits. When the
// approximation does not decide, one exact comparison with the boundary above
// it does.
module Strtod {
  import opened Powers
  import opened Decimal
  import opened DigitBuffer
  import opened DecimalMeaning
  import opened DiyFps
  import opened Ieee
  import opened CachedPowers
  import opened Comparison
  import opened Rounding
  import opened Approximation
  import opened DoubleOperations

  // Halfway to the next double, as a significand of one bit more.
  method UpperBoundary(d: Double) returns (boundary: DiyFp)
    requires d.d64 < INFINITY
    ensures fresh(boundary) && boundary.f < 4 * HIDDEN_BIT
    ensures DENORMAL_EXPONENT - 1 <= boundary.e < MAX_EXPONENT
    ensures BinaryValue(boundary.f, boundary.e) == d.Upper()
  {
    d.Layout();
    boundary := new DiyFp(d.Significand() * 2 + 1, d.Exponent() - 1);
  }

  predicate IsTrimmed(digits: seq<char>)
  {
    IsDigits(digits) && (|digits| == 0 || (digits[0] != '0' && digits[|digits| - 1] != '0'))
  }

  // ---------- Numbers out of range ----------

  lemma FivesAbove()
    ensures Pow(2, 751) <= Pow(5, 324) && Pow(2, 715) <= Pow(5, 309)
  {
    hide Pow;
    Five28();
    TwoTo4();
    PowMul(5, 28, 11);
    PowMul(2, 65, 11);
    PowBaseMono(Pow(2, 65), Pow(5, 28), 11);
    PowMono(5, 308, 309);
    PowAdd(5, 308, 16);
    PowAdd(2, 715, 36);
    PowPos(5, 308);
    PowPos(2, 36);
    MulLe(Pow(2, 715), Pow(5, 308), Pow(2, 36));
    MulLe(Pow(2, 36), Pow(5, 16), Pow(5, 308));
  }

  lemma Five28()
    ensures Pow(2, 65) <= Pow(5, 28) && Pow(2, 36) <= Pow(5, 16)
  {
    hide Pow;
    FourFives();
    PowAdd(5, 4, 4);
    PowAdd(5, 8, 8);
    PowAdd(5, 16, 8);
    PowAdd(5, 24, 4);
    TwoTo64();
    TwoTo1();
    TwoTo4();
    PowAdd(2, 64, 1);
    PowAdd(2, 32, 4);
  }

  lemma FourFives()
    ensures Pow(5, 4) == 625
  {
  }

  // 10^309 is above 2^1024, 10^-324 below 2^-1075.
  lemma TensAndTwos(large: real, small: real, p: real, q: real)
    requires large == RPow(10, 309) && small == RPow(10, -324) && p == RPow(2, 1024) && q == RPow(2, -1075)
    ensures p <= large && small <= q
  {
    hide Pow, RPow;
    FivesAbove();
    RPowNat(10, 309);
    RPowNat(2, 1024);
    PowProduct(2, 5, 309);
    PowAdd(2, 309, 715);
    PowPos(2, 309);
    MulLe(Pow(2, 715), Pow(5, 309), Pow(2, 309));
    Underflow.DecimalAgainstBinary(1, 324, 1, 1075);
  }

  // Every boundary is below 2^1024.
  lemma BoundaryBelow(w: nat)
    requires w < INFINITY
    ensures Double(w).Upper() <= RPow(2, 1024)
  {
    hide RPow;
    var d := Double(w);
    d.Layout();
    RPowMono(2, d.Exponent() - 1, MAX_EXPONENT - 2);
    RPowPos(2, d.Exponent() - 1);
    TwoTo53();
    RPowNat(2, 54);
    PowStep(2, 53);
    RPowAdd(2, 54, MAX_EXPONENT - 2);
    CountedProductLe(2 * d.Significand() + 1, 4 * HIDDEN_BIT, RPow(2, d.Exponent() - 1), RPow(2, MAX_EXPONENT - 2));
  }

  lemma TooLarge(digits: seq<char>, exponent: int)
    requires IsTrimmed(digits) && |digits| > 0 && exponent + |digits| - 1 >= MAX_DECIMAL_POWER
    ensures RoundsTo(Read(digits, exponent), INFINITY)
  {
    hide Pow, RPow, DecVal, Double.Upper;
    TensAndTwos(RPow(10, 309), RPow(10, -324), RPow(2, 1024), RPow(2, -1075));
    BoundaryBelow(INFINITY - 1);
    AtLeastPower(digits, exponent);
    RPowMono(10, 309, exponent + |digits| - 1);
  }

  lemma AtLeastPower(digits: seq<char>, exponent: int)
    requires IsDigits(digits) && |digits| > 0 && digits[0] != '0'
    ensures RPow(10, exponent + |digits| - 1) <= Read(digits, exponent)
  {
    hide Pow, RPow, DecVal;
    DecLeading(digits);
    RPowNat(10, |digits| - 1);
    RPowAdd(10, |digits| - 1, exponent);
    RPowPos(10, exponent);
    RealMulLe(Pow(10, |digits| - 1) as real, DecVal(digits) as real, RPow(10, exponent));
  }

  lemma TooSmall(digits: seq<char>, exponent: int)
    requires IsDigits(digits) && exponent + |digits| <= MIN_DECIMAL_POWER
    ensures RoundsTo(Read(digits, exponent), 0)
  {
    hide Pow, RPow, DecVal;
    TensAndTwos(RPow(10, 309), RPow(10, -324), RPow(2, 1024), RPow(2, -1075));
    DecBound(digits);
    BelowPower(10, DecVal(digits), |digits|, exponent);
    RPowMono(10, exponent + |digits|, -324);
    ReadNonNegative(digits, exponent);
    TinyIsZero(Read(digits, exponent));
  }

  lemma NoDigits(exponent: int)
    ensures IsDigits([]) && RoundsTo(Read([], exponent), 0)
  {
    hide RPow;
    RPowPos(2, -1075);
    TinyIsZero(0.0);
  }

  // ---------- Reading trimmed digits ----------

  // Out of range, by one operation of the hardware, or by the approximation.
  method ComputeGuess(trimmed: seq<char>, exponent: int, cache: seq<CachedPower>, hardware: Arithmetic)
    returns (guess: uint64, isCorrect: bool)
    requires IsTrimmed(trimmed) && GoodCache(cache) && hardware.IsCorrect()
    ensures guess <= INFINITY
    ensures isCorrect ==> RoundsTo(Read(trimmed, exponent), guess)
    ensures !isCorrect ==>
      guess < INFINITY && (RoundsTo(Read(trimmed, exponent), guess) || RoundsTo(Read(trimmed, exponent), guess + 1))
    ensures !isCorrect ==> MIN_DECIMAL_POWER < exponent + |trimmed| <= MAX_DECIMAL_POWER
  {
    hide RoundsTo, DecVal, GoodCache, Pow, DecimalValue, Arithmetic.IsCorrect;
    if |trimmed| == 0 {
      NoDigits(exponent);
      return 0, true;
    }
    if exponent + |trimmed| - 1 >= MAX_DECIMAL_POWER {
      TooLarge(trimmed, exponent);
      return INFINITY, true;
    }
    if exponent + |trimmed| <= MIN_DECIMAL_POWER {
      TooSmall(trimmed, exponent);
      return 0, true;
    }
    DecLeading(trimmed);
    PowPos(10, |trimmed| - 1);
    isCorrect, guess := DoubleStrtod(trimmed, exponent, hardware);
    if isCorrect {
      return;
    }
    guess, isCorrect := DiyFpStrtod(trimmed, exponent, cache);
    if !isCorrect && guess == INFINITY {
      isCorrect := true;
    }
  }

  method StrtodTrimmed(trimmed: seq<char>, exponent: int, cache: seq<CachedPower>, hardware: Arithmetic)
    returns (result: uint64)
    requires IsTrimmed(trimmed) && |trimmed| <= MAX_SIGNIFICANT_DIGITS && GoodCache(cache) && hardware.IsCorrect()
    ensures result <= INFINITY && RoundsTo(Read(trimmed, exponent), result)
  {
    hide RoundsTo, Read, DecVal, GoodCache, Double.Upper, BinaryValue, Arithmetic.IsCorrect;
    var guess, isCorrect := ComputeGuess(trimmed, exponent, cache, hardware);
    if isCorrect {
      return guess;
    }
    BoundaryDecides(Read(trimmed, exponent), guess);
    Double(guess).Layout();
    var upperBoundary := UpperBoundary(Double(guess));
    var comparison := CompareBufferWithDiyFp(trimmed, exponent, upperBoundary);
    if comparison < 0 {
      return guess;
    } else if comparison > 0 {
      return Double(guess).NextDouble().d64;
    } else if Double(guess).Significand() % 2 == 0 {
      return guess;
    } else {
      return Double(guess).NextDouble().d64;
    }
  }

  // ---------- Trimming ----------

  method TrimLeadingZeros(buffer: seq<char>) returns (trimmed: seq<char>)
    requires IsDigits(buffer)
    ensures IsDigits(trimmed) && |trimmed| <= |buffer| && trimmed == buffer[|buffer| - |trimmed|..]
    ensures DecVal(trimmed) == DecVal(buffer) && (|trimmed| > 0 ==> trimmed[0] != '0')
  {
    hide DecVal;
    var i := 0;
    while i < |buffer|
      invariant 0 <= i <= |buffer| && forall k :: 0 <= k < i ==> buffer[k] == '0'
    {
      if buffer[i] != '0' {
        DecLeadingZeros(buffer, i);
        return buffer[i..];
      }
      i := i + 1;
    }
    DecLeadingZeros(buffer, |buffer|);
    assert buffer[|buffer|..] == [];
    return [];
  }

  method TrimTrailingZeros(buffer: seq<char>) returns (trimmed: seq<char>)
    requires IsDigits(buffer)
    ensures trimmed <= buffer && IsDigits(trimmed)
    ensures DecVal(buffer) == DecVal(trimmed) * Pow(10, |buffer| - |trimmed|)
    ensures |trimmed| > 0 ==> trimmed[|trimmed| - 1] != '0'
  {
    hide DecVal, Pow;
    var i := |buffer| - 1;
    while i >= 0
      invariant -1 <= i < |buffer| && forall k :: i < k < |buffer| ==> buffer[k] == '0'
    {
      if buffer[i] != '0' {
        DecTrailingZeros(buffer, i + 1);
        return buffer[..i + 1];
      }
      i := i - 1;
    }
    DecTrailingZeros(buffer, 0);
    assert buffer[..0] == [];
    return [];
  }

  // ---------- Cutting to the significant digits ----------

  // The unit of the last digit that is kept is 10^p, and 'kept' has 779 digits.
  ghost predicate OnOneSide(b: real, kept: nat, p: int)
  {
    b <= DecimalValue(kept, p) || DecimalValue(kept + 1, p) <= b
  }

  // No boundary between two doubles lies strictly inside a unit of the 779th
  // digit: a boundary is a multiple of the unit, or it is smaller or larger than
  // every number with these digits.
  lemma BoundariesOutside(w: nat, kept: nat, p: int)
    requires w < INFINITY && Pow(10, MAX_SIGNIFICANT_DIGITS - 2) <= kept
    ensures OnOneSide(Double(w).Upper(), kept, p)
  {
    hide Pow, RPow, DecimalValue;
    var d := Double(w);
    d.Layout();
    if p > -469 {
      BoundaryBelow(w);
      AboveEveryDouble(kept, p);
    } else if p <= d.Exponent() - 1 {
      MultipleOfUnit(2 * d.Significand() + 1, d.Exponent() - 1, kept, p);
    } else {
      BelowEveryKept(2 * d.Significand() + 1, d.Exponent() - 1, kept, p);
    }
  }

  lemma AboveEveryDouble(kept: nat, p: int)
    requires Pow(10, MAX_SIGNIFICANT_DIGITS - 2) <= kept && p > -469
    ensures RPow(2, 1024) <= DecimalValue(kept, p)
  {
    hide Pow, RPow;
    TensAndTwos(RPow(10, 309), RPow(10, -324), RPow(2, 1024), RPow(2, -1075));
    RPowNat(10, MAX_SIGNIFICANT_DIGITS - 2);
    RPowAdd(10, MAX_SIGNIFICANT_DIGITS - 2, p);
    RPowMono(10, 309, MAX_SIGNIFICANT_DIGITS - 2 + p);
    RPowPos(10, p);
    RealMulLe(Pow(10, MAX_SIGNIFICANT_DIGITS - 2) as real, kept as real, RPow(10, p));
  }

  // m * 2^e is an integer number of 10^p when p <= e and p is negative.
  lemma MultipleOfUnit(m: nat, e: int, kept: nat, p: int)
    requires p <= 0 && p <= e
    ensures OnOneSide(BinaryValue(m, e), kept, p)
  {
    hide Pow, RPow, DecimalValue, BinaryValue;
    var k := m * Pow(5, 0 - p) * Pow(2, e - p);
    AsUnits(m, e, p);
    if k <= kept { DecimalLe(k, kept, p); } else { DecimalLe(kept + 1, k, p); }
  }

  lemma DecimalLe(a: int, b: int, p: int)
    requires a <= b
    ensures DecimalValue(a, p) <= DecimalValue(b, p)
  {
    hide RPow;
    RPowPos(10, p);
    RealMulLe(a as real, b as real, RPow(10, p));
  }

  lemma DecimalLt(a: int, b: int, p: int)
    requires a < b
    ensures DecimalValue(a, p) < DecimalValue(b, p)
  {
    hide RPow;
    RPowPos(10, p);
    RealMulLt(a as real, b as real, RPow(10, p));
  }

  lemma AsUnits(m: nat, e: int, p: int)
    requires p <= 0 && p <= e
    ensures 0 <= m * Pow(5, 0 - p) * Pow(2, e - p) && BinaryValue(m, e) == DecimalValue(m * Pow(5, 0 - p) * Pow(2, e - p), p)
  {
    hide Pow, RPow;
    var n, k := 0 - p, e - p;
    PowPos(5, n);
    PowPos(2, k);
    MulLe(0, m, Pow(5, n));
    MulLe(0, m * Pow(5, n), Pow(2, k));
    RPowNat(2, k);
    RPowNat(5, n);
    RPowNat(2, n);
    RPowNat(10, n);
    PowProduct(2, 5, n);
    RealMul(Pow(2, n), Pow(5, n));
    ThreeFactors(m, Pow(5, n), Pow(2, k));
    RPowAdd(2, k, p);
    RPowAdd(10, n, p);
    RPowAdd(2, n, p);
    RPowZero(10);
    RPowZero(2);
    UnitFactors(m as real, RPow(5, n), RPow(2, k), RPow(2, n), RPow(10, p), RPow(2, p), RPow(2, e));
  }

  lemma UnitFactors(m: real, fives: real, twos: real, n: real, ten: real, two: real, target: real)
    requires n * fives * ten == 1.0 && n * two == 1.0 && target == twos * two
    ensures m * fives * twos * ten == m * target
  {
    assert fives * ten == two by {
      assert n * (fives * ten) == n * two;
      assert two * (n * (fives * ten)) == two * (n * two);
      assert two * n * (fives * ten) == two * n * two;
    }
    assert m * fives * twos * ten == m * twos * (fives * ten);
  }

  // A boundary whose unit is finer than 10^p is below every number of 779 digits.
  lemma BelowEveryKept(m: nat, e: int, kept: nat, p: int)
    requires Pow(10, MAX_SIGNIFICANT_DIGITS - 2) <= kept && m < 4 * HIDDEN_BIT && -1075 <= e < p <= -469
    ensures BinaryValue(m, e) <= DecimalValue(kept, p)
  {
    hide Pow, RPow;
    var n := 0 - p;
    FivesAgainstTens(n);
    RPowPos(2, e);
    RPowMono(2, e, p);
    CountedProductLe(m, 4 * HIDDEN_BIT, RPow(2, e), RPow(2, p));
    RPowPos(10, p);
    CountedProductLe(4 * HIDDEN_BIT * Pow(5, n), kept, RPow(10, p), RPow(10, p));
    AsUnits(4 * HIDDEN_BIT, p, p);
    PowZero(2);
  }

  // 2^54 * 5^1075 < 10^778.
  lemma FivesAgainstTens(n: nat)
    requires n <= 1075
    ensures 4 * HIDDEN_BIT * Pow(5, n) <= Pow(10, MAX_SIGNIFICANT_DIGITS - 2)
  {
    hide Pow;
    PowMono(5, n, 1075);
    PowProduct(2, 5, 778);
    PowAdd(5, 778, 297);
    MoreFives();
    MulLe(Pow(5, n), Pow(5, 778) * Pow(5, 297), 4 * HIDDEN_BIT);
    MulLe(4 * HIDDEN_BIT * Pow(5, 297), Pow(2, 778), Pow(5, 778));
  }

  // 2^54 * 5^297 <= 2^778.
  lemma MoreFives()
    ensures 4 * HIDDEN_BIT * Pow(5, 297) <= Pow(2, 778)
  {
    hide Pow;
    PowMul(5, 3, 99);
    Comparison.Cubes();
    PowBaseMono(125, 128, 99);
    PowMul(2, 7, 99);
    TwoTo53();
    PowStep(2, 53);
    PowAdd(2, 54, 693);
    PowMono(2, 747, 778);
    MulLe(Pow(5, 297), Pow(2, 693), 4 * HIDDEN_BIT);
  }

  // Strictly between two neighbouring numbers of 779 digits.
  ghost predicate Inside(x: real, kept: nat, p: int)
  {
    DecimalValue(kept, p) < x < DecimalValue(kept + 1, p)
  }

  // Numbers that only differ after the 779th digit round alike.
  lemma SameRounding(x: real, y: real, kept: nat, p: int, u: nat)
    requires Pow(10, MAX_SIGNIFICANT_DIGITS - 2) <= kept && Inside(x, kept, p) && Inside(y, kept, p)
    requires u <= INFINITY && RoundsTo(x, u)
    ensures RoundsTo(y, u)
  {
    hide Pow, DecimalValue, Double.Upper;
    if 0 < u { BoundariesOutside(u - 1, kept, p); }
    if u < INFINITY { BoundariesOutside(u, kept, p); }
  }

  // The digits after the kept ones are not all zero.
  lemma CutInside(v: nat, exponent: int, kept: nat, m: nat, rest: nat)
    requires v == kept * Pow(10, m) + rest && 0 < rest < Pow(10, m)
    ensures Inside(DecimalValue(v, exponent), kept, exponent + m)
  {
    hide Pow, DecimalValue;
    DecimalRefine(kept, exponent + m, exponent);
    DecimalRefine(kept + 1, exponent + m, exponent);
    assert (kept + 1) * Pow(10, m) == kept * Pow(10, m) + Pow(10, m);
    DecimalLt(kept * Pow(10, m), v, exponent);
    DecimalLt(v, (kept + 1) * Pow(10, m), exponent);
  }

  // Keeps 779 digits and writes a one after them.
  method CutToMaxSignificantDigits(buffer: seq<char>, exponent: int, significantBuffer: array<char>)
    returns (significantExponent: int)
    requires IsTrimmed(buffer) && MAX_SIGNIFICANT_DIGITS < |buffer|
    requires MAX_SIGNIFICANT_DIGITS <= significantBuffer.Length
    modifies significantBuffer
    ensures significantBuffer[..MAX_SIGNIFICANT_DIGITS] == buffer[..MAX_SIGNIFICANT_DIGITS - 1] + ['1']
    ensures significantExponent == exponent + |buffer| - MAX_SIGNIFICANT_DIGITS
  {
    for i := 0 to MAX_SIGNIFICANT_DIGITS - 1
      invariant significantBuffer[..i] == buffer[..i]
    {
      significantBuffer[i] := buffer[i];
    }
    significantBuffer[MAX_SIGNIFICANT_DIGITS - 1] := '1';
    significantExponent := exponent + (|buffer| - MAX_SIGNIFICANT_DIGITS);
  }

  // The same doubles are nearest to both.
  ghost predicate RoundAlike(x: real, y: real)
  {
    forall u: nat | u <= INFINITY :: RoundsTo(x, u) <==> RoundsTo(y, u)
  }

  lemma CutRoundsAlike(buffer: seq<char>, exponent: int)
    requires IsTrimmed(buffer) && MAX_SIGNIFICANT_DIGITS < |buffer|
    ensures var cut := buffer[..MAX_SIGNIFICANT_DIGITS - 1] + ['1'];
      IsTrimmed(cut)
      && RoundAlike(Read(cut, exponent + |buffer| - MAX_SIGNIFICANT_DIGITS), Read(buffer, exponent))
  {
    hide Pow, DecVal, DecimalValue, RoundsTo;
    var n := MAX_SIGNIFICANT_DIGITS - 1;
    var first, last := buffer[..n], buffer[n..];
    var cut := first + ['1'];
    assert buffer == first + last;
    DecConcat(first, last);
    DecBound(last);
    NonZeroEnd(last);
    DecLeading(first);
    CutInside(DecVal(buffer), exponent, DecVal(first), |last|, DecVal(last));
    DecAppend(first, '1');
    TenAndOne(DecVal(first));
    CutInside(DecVal(cut), exponent + |last| - 1, DecVal(first), 1, 1);
    var x, y := Read(cut, exponent + |last| - 1), Read(buffer, exponent);
    forall u: nat | u <= INFINITY
      ensures RoundsTo(x, u) <==> RoundsTo(y, u)
    {
      if RoundsTo(x, u) { SameRounding(x, y, DecVal(first), exponent + |last|, u); }
      if RoundsTo(y, u) { SameRounding(y, x, DecVal(first), exponent + |last|, u); }
    }
  }

  lemma NonZeroEnd(s: seq<char>)
    requires IsDigits(s) && |s| > 0 && s[|s| - 1] != '0'
    ensures 0 < DecVal(s)
  {
  }

  lemma TenAndOne(k: nat)
    ensures Pow(10, 1) == 10 && 10 * k + 1 == k * Pow(10, 1) + 1
  {
  }

  method TrimAndCut(buffer: seq<char>, exponent: int, bufferCopySpace: array<char>)
    returns (trimmed: seq<char>, updatedExponent: int)
    requires IsDigits(buffer) && MAX_SIGNIFICANT_DIGITS <= bufferCopySpace.Length
    modifies bufferCopySpace
    ensures IsTrimmed(trimmed) && |trimmed| <= MAX_SIGNIFICANT_DIGITS
    ensures RoundAlike(Read(trimmed, updatedExponent), Read(buffer, exponent))
  {
    hide DecVal, Pow, DecimalValue, RoundsTo;
    var leftTrimmed := TrimLeadingZeros(buffer);
    var rightTrimmed := TrimTrailingZeros(leftTrimmed);
    updatedExponent := exponent + (|leftTrimmed| - |rightTrimmed|);
    DecimalRefine(DecVal(rightTrimmed), updatedExponent, exponent);
    assert Read(rightTrimmed, updatedExponent) == Read(buffer, exponent);
    if |rightTrimmed| > MAX_SIGNIFICANT_DIGITS {
      CutRoundsAlike(rightTrimmed, updatedExponent);
      updatedExponent := CutToMaxSignificantDigits(rightTrimmed, updatedExponent, bufferCopySpace);
      trimmed := bufferCopySpace[..MAX_SIGNIFICANT_DIGITS];
    } else {
      trimmed := rightTrimmed;
    }
  }

  // Any number of digits is read as the nearest double, ties to even.
  method Strtod(buffer: seq<char>, exponent: int, cache: seq<CachedPower>, hardware: Arithmetic) returns (result: uint64)
    requires IsDigits(buffer) && GoodCache(cache) && hardware.IsCorrect()
    ensures result <= INFINITY && RoundsTo(Read(buffer, exponent), result)
  {
    hide RoundsTo, Read, GoodCache, Arithmetic.IsCorrect;
    var copyBuffer := new char[MAX_SIGNIFICANT_DIGITS];
    var trimmed, updatedExponent := TrimAndCut(buffer, exponent, copyBuffer);
    result := StrtodTrimmed(trimmed, updatedExponent, cache, hardware);
  }
}
