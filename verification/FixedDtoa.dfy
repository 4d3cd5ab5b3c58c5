// external/double-conversion/fixed-dtoa.cc: a fixed number of digits after the
// point with 64-bit and 128-bit arithmetic only.
module FixedDtoa {
  import opened Powers
  import opened Decimal
  import opened DigitBuffer
  import opened DigitGeneration
  import opened DecimalMeaning
  import opened DiyFps
  import opened Ieee
  import opened FillDigits
  import opened UInt128s
  import opened Rounding
  import CachedPowers

  // ---------- Rounding up ----------

  // One more in the last place; an empty buffer stands for zero.
  method RoundUp(buffer: array<char>, length0: nat, decimalPoint0: int) returns (length: nat, decimalPoint: int)
    requires length0 < buffer.Length && IsDigits(buffer[..length0]) && (length0 == 0 ==> decimalPoint0 == 0)
    modifies buffer
    ensures length <= length0 + 1 && length < buffer.Length + 1 && (length0 > 0 ==> length == length0)
    ensures length <= buffer.Length && IsDigits(buffer[..length])
    ensures DecimalValue(DecVal(buffer[..length]), decimalPoint - length)
         == DecimalValue(old(DecVal(buffer[..length0])) + 1, decimalPoint0 - length0)
  {
    hide DecVal, Pow, DecimalValue, WithTen;
    ghost var d := DecVal(buffer[..length0]);
    if length0 == 0 {
      buffer[0] := '1';
      assert buffer[..0] == [];
      DecEmpty();
      One(buffer[..1]);
      return 1, 1;
    }
    length, decimalPoint := length0, decimalPoint0;
    ghost var s: seq<char> := buffer[..length0];
    buffer[length0 - 1] := Increment(buffer[length0 - 1]);
    LastIncremented(s, buffer[..length0]);
    var carriedOut := PropagateCarry(buffer, length0);
    if carriedOut {
      decimalPoint := decimalPoint + 1;
      PowStep(10, length0 - 1);
      DecimalRefine(Pow(10, length0 - 1), decimalPoint - length0, decimalPoint0 - length0);
      TensTimesTen(length0);
    }
  }

  lemma TensTimesTen(n: nat)
    requires n > 0
    ensures Pow(10, n - 1) * Pow(10, 1) == Pow(10, n)
  {
    hide Pow;
    PowAdd(10, n - 1, 1);
  }

  // ---------- Digits of a fraction ----------

  // n / 2^p is the value so far: digits, then a binary fraction. Multiplying by
  // five while the point moves by one bit multiplies it by ten.
  lemma NextDigit(d: nat, fraction: nat, t: nat, n: nat)
    requires 0 < t && fraction < 2 * t && d * (2 * t) + fraction == n
    ensures 5 * fraction / t <= 9 && (10 * d + 5 * fraction / t) * t + 5 * fraction % t == 5 * n
  {
    DivLt(5 * fraction, t, 10);
    DivMod(5 * fraction, t);
    var q := 5 * fraction / t;
    assert (10 * d + q) * t == 5 * (d * (2 * t)) + q * t;
  }

  // The bit below the point says whether the fraction is at least one half.
  lemma RoundBit(d: nat, fraction: nat, t: nat, n: nat)
    requires 0 < t && fraction < 2 * t && d * (2 * t) + fraction == n
    ensures fraction / t % 2 == 1 <==> t <= fraction
    ensures HalfUp(n, 2 * t) == if t <= fraction then d + 1 else d
  {
    HalfUpFromDigits(n, 2 * t, d, fraction);
    if t <= fraction { DivUnique(fraction, t, 1, fraction - t); } else { DivUnique(fraction, t, 0, fraction); }
  }

  // What k digits of n / 2^p are: all of it, or rounded halves upwards after the
  // last one that is wanted.
  ghost predicate Converted(n: nat, p: nat, count: nat, k: nat, e: nat)
  {
    && k <= count && k <= p && 0 < Pow(2, p - k)
    && (e * Pow(2, p - k) == n * Pow(5, k) || (k == count && e == HalfUp(n * Pow(5, k), Pow(2, p - k))))
  }

  // A state of the loop: k digits are written and the rest is a fraction.
  ghost predicate Partial(s: seq<char>, fraction: nat, n: nat, p: nat, k: nat)
  {
    IsDigits(s) && k <= p && fraction < Pow(2, p - k) && DecVal(s) * Pow(2, p - k) + fraction == n * Pow(5, k)
  }

  lemma PartialStep(s: seq<char>, fraction: nat, n: nat, p: nat, k: nat)
    requires Partial(s, fraction, n, p, k) && 0 < fraction
    ensures k < p && 0 < Pow(2, p - k - 1)
    ensures var q := 5 * fraction / Pow(2, p - k - 1);
      q <= 9 && Partial(s + [DigitChar(q)], 5 * fraction % Pow(2, p - k - 1), n, p, k + 1)
  {
    hide Pow, DecVal;
    PowZero(2);
    PowStep(2, p - k - 1);
    PowPos(2, p - k - 1);
    var t := Pow(2, p - k - 1);
    NextDigit(DecVal(s), fraction, t, n * Pow(5, k));
    DecAppend(s, DigitChar(5 * fraction / t));
    FiveTimes(n, k);
    DivMod(5 * fraction, t);
  }

  lemma FiveTimes(n: nat, k: nat)
    ensures 5 * (n * Pow(5, k)) == n * Pow(5, k + 1)
  {
    hide Pow;
    PowStep(5, k);
    var p := Pow(5, k);
    assert n * (5 * p) == 5 * (n * p);
  }

  lemma PartialEnd(s: seq<char>, fraction: nat, n: nat, p: nat, k: nat, count: nat)
    requires Partial(s, fraction, n, p, k) && k <= count && (fraction == 0 || k == count)
    ensures fraction == 0 ==> Converted(n, p, count, k, DecVal(s))
    ensures fraction > 0 ==> k < p && 0 < Pow(2, p - k - 1)
    ensures fraction > 0 ==>
      Converted(n, p, count, k, DecVal(s) + if fraction / Pow(2, p - k - 1) % 2 == 1 then 1 else 0)
  {
    hide Pow, DecVal, HalfUp;
    PowPos(2, p - k);
    if fraction > 0 {
      PowZero(2);
      PowStep(2, p - k - 1);
      PowPos(2, p - k - 1);
      RoundBit(DecVal(s), fraction, Pow(2, p - k - 1), n * Pow(5, k));
    }
  }

  // Writes a digit after those of the buffer.
  method PutDigit(buffer: array<char>, length: nat, digit: nat)
    requires length < buffer.Length && digit <= 9
    modifies buffer
    ensures buffer[..length + 1] == old(buffer[..length]) + [DigitChar(digit)]
  {
    buffer[length] := DigitChar(digit);
  }

  // One 64-bit number is sufficient: it never overflows, for three steps because
  // it starts with at most 56 bits, and then because the point has moved.
  ghost predicate Fits(fractionals: nat, i: nat)
  {
    && (i == 0 ==> fractionals < 0x100_0000_0000_0000)
    && (i == 1 ==> fractionals < 0x500_0000_0000_0000)
    && (i == 2 ==> fractionals < 0x1900_0000_0000_0000)
    && (i >= 3 ==> fractionals < 0x2000_0000_0000_0000)
  }

  lemma FitsNext(s: seq<char>, fraction: nat, before: nat, n: nat, p: nat, k: nat)
    requires p <= 64 && Fits(before, k) && fraction <= 5 * before && Partial(s, fraction, n, p, k + 1)
    ensures Fits(fraction, k + 1)
  {
    hide Pow, DecVal;
    if k + 1 >= 3 {
      PowMono(2, p - k - 1, 61);
      TwoTo61();
    }
  }

  method FillFractionals64(fractionals0: uint64, exponent: int, fractionalCount: nat, buffer: array<char>,
                           length0: nat, decimalPoint0: int, ghost n: nat)
    returns (length: nat, decimalPoint: int, ghost k: nat, ghost e: nat)
    requires -64 <= exponent <= 0 && fractionals0 < 0x100_0000_0000_0000
    requires length0 + fractionalCount + 1 <= buffer.Length && decimalPoint0 == length0
    requires Partial(buffer[..length0], fractionals0, n, 0 - exponent, 0)
    modifies buffer
    ensures length <= length0 + fractionalCount + 1 <= buffer.Length && IsDigits(buffer[..length])
    ensures Converted(n, 0 - exponent, fractionalCount, k, e)
    ensures DecimalValue(DecVal(buffer[..length]), decimalPoint - length) == DecimalValue(e, 0 - k)
  {
    hide DecVal, Pow, DecimalValue, Partial, Fits;
    var fractionals: uint64 := fractionals0;
    var point := -exponent;
    length, decimalPoint := length0, decimalPoint0;
    var i := 0;
    FitsFirst(fractionals);
    while i < fractionalCount && fractionals != 0
      invariant 0 <= i <= fractionalCount && length == length0 + i && point == 0 - exponent - i
      invariant Partial(buffer[..length], fractionals, n, 0 - exponent, i) && Fits(fractionals, i)
    {
      ghost var before: int, s: seq<char> := fractionals, buffer[..length];
      PartialStep(s, before, n, 0 - exponent, i);
      FitsTimesFive(before, i);
      fractionals := fractionals * 5;
      point := point - 1;
      var digit := fractionals / Pow(2, point);
      PutDigit(buffer, length, digit);
      length := length + 1;
      Remainder(5 * before, Pow(2, point));
      fractionals := fractionals - digit * Pow(2, point);
      FitsNext(buffer[..length], fractionals, before, n, 0 - exponent, i);
      i := i + 1;
    }
    PartialDigits(buffer[..length], fractionals, n, 0 - exponent, i);
    k, e := i, DecVal(buffer[..length]);
    PartialEnd(buffer[..length], fractionals, n, 0 - exponent, i, fractionalCount);
    if fractionals != 0 && fractionals / Pow(2, point - 1) % 2 == 1 {
      length, decimalPoint := RoundUp(buffer, length, decimalPoint);
      e := e + 1;
    }
  }

  lemma FitsFirst(fractionals: nat)
    requires fractionals < 0x100_0000_0000_0000
    ensures Fits(fractionals, 0)
  {
  }

  lemma FitsTimesFive(fractionals: nat, i: nat)
    requires Fits(fractionals, i)
    ensures 5 * fractionals < TWO_64
  {
  }

  lemma PartialDigits(s: seq<char>, fraction: nat, n: nat, p: nat, k: nat)
    requires Partial(s, fraction, n, p, k)
    ensures IsDigits(s) && k <= p
  {
  }

  lemma Remainder(x: nat, t: nat)
    requires 0 < t
    ensures 0 <= x - x / t * t == x % t <= x
  {
    DivMod(x, t);
    DivLe(x, t, 0);
    MulLe(0, x / t, t);
  }

  lemma TwoTo61()
    ensures Pow(2, 61) == 0x2000_0000_0000_0000
  {
    hide Pow;
    TwoTo64();
    TwoTo1();
    PowAdd(2, 1, 1);
    PowAdd(2, 61, 2);
  }

  // As before, with the point 128 bits up.
  ghost predicate Fits128(fractionals: nat, i: nat)
  {
    && (i == 0 ==> fractionals < 0x80_0000_0000_0000 * TWO_64)
    && (i == 1 ==> fractionals < 0x280_0000_0000_0000 * TWO_64)
    && (i == 2 ==> fractionals < 0xC80_0000_0000_0000 * TWO_64)
    && (i >= 3 ==> fractionals < 0x2000_0000_0000_0000 * TWO_64)
  }

  lemma FitsTimesFive128(fractionals: nat, i: nat)
    requires Fits128(fractionals, i)
    ensures 5 * fractionals < TWO_64 * TWO_64
  {
  }

  lemma FitsNext128(s: seq<char>, fraction: nat, before: nat, n: nat, k: nat)
    requires Fits128(before, k) && fraction <= 5 * before && Partial(s, fraction, n, 128, k + 1)
    ensures Fits128(fraction, k + 1)
  {
    hide Pow, DecVal;
    if k + 1 >= 3 {
      PowMono(2, 127 - k, 125);
      TwoTo61();
      TwoTo64();
      PowAdd(2, 61, 64);
    }
  }

  // One more digit of a 128-bit fraction.
  method NextDigit128(fractionals128: UInt128, point: nat, buffer: array<char>, length: nat, ghost m: nat, ghost i: nat)
    requires i < 20 && point == 127 - i && length < buffer.Length && fractionals128.Value() > 0
    requires Partial(buffer[..length], fractionals128.Value(), m, 128, i) && Fits128(fractionals128.Value(), i)
    modifies fractionals128, buffer
    ensures Partial(buffer[..length + 1], fractionals128.Value(), m, 128, i + 1) && Fits128(fractionals128.Value(), i + 1)
  {
    hide Pow, UInt128.Value, DecVal;
    ghost var f, s: seq<char> := fractionals128.Value(), buffer[..length];
    PartialStep(s, f, m, 128, i);
    FitsTimesFive128(f, i);
    fractionals128.Multiply(5);
    SmallQuotient(5 * f, Pow(2, point));
    var digit := fractionals128.DivModPowerOf2(point);
    PutDigit(buffer, length, digit);
    Remainder(5 * f, Pow(2, point));
    FitsNext128(buffer[..length + 1], fractionals128.Value(), f, m, i);
  }

  method FillFractionals128(fractionals: uint64, exponent: int, fractionalCount: nat, buffer: array<char>,
                            length0: nat, decimalPoint0: int, ghost n: nat)
    returns (length: nat, decimalPoint: int, ghost k: nat, ghost e: nat)
    requires -128 <= exponent < -64 && fractionals < 0x100_0000_0000_0000 && fractionalCount <= 20
    requires length0 + fractionalCount + 1 <= buffer.Length && decimalPoint0 == length0
    requires Partial(buffer[..length0], fractionals, n, 0 - exponent, 0)
    modifies buffer
    ensures length <= length0 + fractionalCount + 1 <= buffer.Length && IsDigits(buffer[..length])
    ensures 0 <= n * Pow(2, 128 + exponent) && Converted(n * Pow(2, 128 + exponent), 128, fractionalCount, k, e)
    ensures DecimalValue(DecVal(buffer[..length]), decimalPoint - length) == DecimalValue(e, 0 - k)
  {
    hide DecVal, Pow, DecimalValue, Partial, UInt128.Value, Fits128;
    var fractionals128 := new UInt128(fractionals, 0);
    fractionals128.Shift(-exponent - 64);
    ghost var m := MovedPoint(buffer[..length0], fractionals, n, 0 - exponent);
    var point := 128;
    length, decimalPoint := length0, decimalPoint0;
    var i := 0;
    var zero := fractionals128.IsZero();
    while i < fractionalCount && !zero
      invariant 0 <= i <= fractionalCount && length == length0 + i && point == 128 - i
      invariant Partial(buffer[..length], fractionals128.Value(), m, 128, i) && Fits128(fractionals128.Value(), i)
      invariant zero <==> fractionals128.Value() == 0
    {
      point := point - 1;
      NextDigit128(fractionals128, point, buffer, length, m, i);
      length := length + 1;
      zero := fractionals128.IsZero();
      i := i + 1;
    }
    PartialDigits(buffer[..length], fractionals128.Value(), m, 128, i);
    k, e := i, DecVal(buffer[..length]);
    PartialEnd(buffer[..length], fractionals128.Value(), m, 128, i, fractionalCount);
    var bit := fractionals128.BitAt(point - 1);
    ZeroBit(fractionals128.Value(), Pow(2, point - 1));
    if bit == 1 {
      length, decimalPoint := RoundUp(buffer, length, decimalPoint);
      e := e + 1;
    }
  }

  lemma ZeroBit(x: nat, t: nat)
    requires 0 < t
    ensures x == 0 ==> x / t % 2 == 0
  {
  }

  lemma SmallQuotient(x: nat, t: nat)
    requires 0 < t && x / t <= 9
    ensures x < 0x8000_0000 * t
  {
    DivMod(x, t);
    MulLe(x / t + 1, 0x8000_0000, t);
  }

  // The significand in the high half, shifted down to 128 fractional bits.
  lemma MovedPoint(s: seq<char>, fraction: uint64, n: nat, p: nat) returns (m: nat)
    requires Partial(s, fraction, n, p, 0) && 65 <= p <= 128 && fraction < 0x100_0000_0000_0000
    ensures 0 <= n * Pow(2, 128 - p) && m == n * Pow(2, 128 - p) && 0 < Pow(2, p - 64)
    ensures Partial(s, fraction * TWO_64 / Pow(2, p - 64), m, 128, 0)
    ensures Fits128(fraction * TWO_64 / Pow(2, p - 64), 0)
  {
    hide Pow, DecVal;
    var q := Pow(2, 128 - p);
    PowPos(2, 128 - p);
    PowPos(2, p - 64);
    PowAdd(2, p - 64, 128 - p);
    PowAdd(2, p, 128 - p);
    TwoTo64();
    PowZero(5);
    MulLe(0, n, q);
    m := n * q;
    var f := fraction * q;
    MulLe(0, fraction, q);
    assert fraction * TWO_64 == f * Pow(2, p - 64) by { Reordered(fraction, Pow(2, p - 64), q); }
    DivUnique(fraction * TWO_64, Pow(2, p - 64), f, 0);
    MovedSum(DecVal(s), Pow(2, p), fraction, q);
    MulLt(fraction, Pow(2, p), q);
    PowMono(2, 128 - p, 63);
    MulLe(q, TWO_63, fraction);
  }

  lemma Reordered(f: nat, a: nat, q: nat)
    ensures f * (a * q) == f * q * a
  {
  }

  lemma MovedSum(d: nat, t: nat, f: nat, q: nat)
    ensures (d * t + f) * q == d * (t * q) + f * q
  {
  }

  // ---------- What the digits denote ----------

  lemma ScaledBinary(v: Double, n: nat, p: nat, k: nat)
    requires v.Value() * Pow(2, p) as real == n as real && k <= p
    ensures v.Value() * RPow(10, k) * Pow(2, p - k) as real == (n * Pow(5, k)) as real
  {
    hide Pow, RPow, Double.Value;
    RPowNat(10, k);
    PowProduct(2, 5, k);
    PowAdd(2, k, p - k);
    RealMul(Pow(2, k), Pow(5, k));
    RealMul(Pow(2, k), Pow(2, p - k));
    RealMul(n, Pow(5, k));
    Rearranged(v.Value(), Pow(2, k) as real, Pow(5, k) as real, Pow(2, p - k) as real);
  }

  lemma Rearranged(v: real, a: real, b: real, c: real)
    ensures v * (a * b) * c == v * (a * c) * b
  {
  }

  // Converted digits are v rounded to 'count' places.
  lemma ConvertedIsFixed(v: Double, n: nat, p: nat, count: nat, k: nat, e: nat)
    requires v.Value() * Pow(2, p) as real == n as real && Converted(n, p, count, k, e)
    ensures IsFixed(v, count, e, 0 - k)
  {
    hide Pow, RPow, Double.Value, HalfUp, RoundHalfUp, DecimalValue;
    ScaledBinary(v, n, p, k);
    var t := Pow(2, p - k);
    if e * t == n * Pow(5, k) {
      RealMul(e, t);
      SameFactor(v.Value() * RPow(10, k), e as real, t as real);
      ExactIsFixed(v, count, k, e);
    } else {
      RoundedIsFixed(v, count, n * Pow(5, k), t, e);
    }
  }

  lemma RoundedIsFixed(v: Double, count: nat, n: nat, t: nat, e: nat)
    requires 0 < t && e == HalfUp(n, t) && v.Value() * RPow(10, count) * t as real == n as real
    ensures IsFixed(v, count, e, 0 - count)
  {
    hide RPow, Double.Value, HalfUp, RoundHalfUp, DecimalValue;
    var x := v.Value() * RPow(10, count);
    HalfUpIsRounding(n, t, x);
  }

  lemma SameFactor(a: real, b: real, c: real)
    requires 0.0 < c && a * c == b * c
    ensures a == b
  {
  }

  // Nothing is left to be rounded when k <= count places are enough.
  lemma ExactIsFixed(v: Double, count: nat, k: nat, e: nat)
    requires k <= count && v.Value() * RPow(10, k) == e as real
    ensures IsFixed(v, count, e, 0 - k)
  {
    hide Pow, RPow, Double.Value, RoundHalfUp, DecimalValue;
    DecimalRefine(e, 0 - k, 0 - count);
    RPowAdd(10, k, count - k);
    RPowNat(10, count - k);
    RealMul(e, Pow(10, count - k));
    RealAssoc(v.Value(), RPow(10, k), RPow(10, count - k));
    var x := v.Value() * RPow(10, count);
    assert x == (e * Pow(10, count - k)) as real;
    WholeNumber(e * Pow(10, count - k));
  }

  lemma WholeNumber(m: int)
    ensures RoundHalfUp(m as real) == m
  {
  }

  lemma ValueTimes(v: Double, p: nat)
    requires v.Exponent() == 0 - p
    ensures v.Value() * Pow(2, p) as real == v.Significand() as real
  {
    hide Pow, RPow;
    RPowNat(2, p);
    RPowAdd(2, 0 - p, p);
    PowZero(2);
    RPowNat(2, 0);
    RealAssoc(v.Significand() as real, RPow(2, 0 - p), RPow(2, p));
  }

  lemma MoreTwos(x: real, n: nat, p: nat, q: nat)
    requires x * Pow(2, p) as real == n as real
    ensures 0 <= n * Pow(2, q) && x * Pow(2, p + q) as real == (n * Pow(2, q)) as real
  {
    hide Pow;
    PowAdd(2, p, q);
    PowPos(2, q);
    MulLe(0, n, Pow(2, q));
    RealMul(Pow(2, p), Pow(2, q));
    RealMul(n, Pow(2, q));
    RealAssoc(x, Pow(2, p) as real, Pow(2, q) as real);
  }

  // The digits of the integral part are in the buffer; those of fractionals *
  // 2^exponent follow, rounded after the last one.
  method FillFractionals(fractionals: uint64, exponent: int, fractionalCount: nat, buffer: array<char>,
                         length0: nat, decimalPoint0: int, ghost v: Double)
    returns (length: nat, decimalPoint: int)
    requires -128 <= exponent <= 0 && fractionals < 0x100_0000_0000_0000 && fractionalCount <= 20
    requires length0 + fractionalCount + 1 <= buffer.Length && decimalPoint0 == length0
    requires v.Exponent() == exponent && Partial(buffer[..length0], fractionals, v.Significand(), 0 - exponent, 0)
    modifies buffer
    ensures length <= length0 + fractionalCount + 1 && IsDigits(buffer[..length])
    ensures IsFixed(v, fractionalCount, DecVal(buffer[..length]), decimalPoint - length)
  {
    hide DecVal, Pow, DecimalValue, Partial, Converted, Double.Value, RPow, RoundHalfUp;
    ghost var k, e;
    ValueTimes(v, 0 - exponent);
    if -exponent <= 64 {
      length, decimalPoint, k, e :=
        FillFractionals64(fractionals, exponent, fractionalCount, buffer, length0, decimalPoint0, v.Significand());
      ConvertedIsFixed(v, v.Significand(), 0 - exponent, fractionalCount, k, e);
    } else {
      length, decimalPoint, k, e :=
        FillFractionals128(fractionals, exponent, fractionalCount, buffer, length0, decimalPoint0, v.Significand());
      MoreTwos(v.Value(), v.Significand(), 0 - exponent, 128 + exponent);
      ConvertedIsFixed(v, v.Significand() * Pow(2, 128 + exponent), 128, fractionalCount, k, e);
    }
  }

  // ---------- Zeros at both ends ----------

  method TrimZeros(buffer: array<char>, length0: nat, decimalPoint0: int) returns (length: nat, decimalPoint: int)
    requires length0 <= buffer.Length && IsDigits(buffer[..length0])
    modifies buffer
    ensures length <= length0 && IsDigits(buffer[..length])
    ensures length > 0 ==> buffer[0] != '0' && buffer[length - 1] != '0'
    ensures DecimalValue(DecVal(buffer[..length]), decimalPoint - length)
         == DecimalValue(old(DecVal(buffer[..length0])), decimalPoint0 - length0)
  {
    hide DecVal, DecimalValue;
    decimalPoint := decimalPoint0;
    length := DropTrailingZeros(buffer, length0, decimalPoint);
    var firstNonZero := DropLeadingZeros(buffer, length);
    if firstNonZero != 0 {
      length := length - firstNonZero;
      decimalPoint := decimalPoint - firstNonZero;
    }
  }

  method DropTrailingZeros(buffer: array<char>, length0: nat, decimalPoint: int) returns (length: nat)
    requires length0 <= buffer.Length && IsDigits(buffer[..length0])
    ensures length <= length0 && IsDigits(buffer[..length]) && (length > 0 ==> buffer[length - 1] != '0')
    ensures DecimalValue(DecVal(buffer[..length]), decimalPoint - length)
         == DecimalValue(DecVal(buffer[..length0]), decimalPoint - length0)
  {
    hide DecVal, DecimalValue, Pow;
    length := length0;
    while length > 0 && buffer[length - 1] == '0'
      invariant length <= length0
      invariant forall k :: length <= k < length0 ==> buffer[k] == '0'
    {
      length := length - 1;
    }
    ghost var all: seq<char> := buffer[..length0];
    assert all[..length] == buffer[..length];
    DecTrailingZeros(all, length);
    DecimalRefine(DecVal(all[..length]), decimalPoint - length, decimalPoint - length0);
  }

  // Moves the digits after the leading zeros to the front.
  method DropLeadingZeros(buffer: array<char>, length: nat) returns (firstNonZero: nat)
    requires length <= buffer.Length && IsDigits(buffer[..length]) && (length > 0 ==> buffer[length - 1] != '0')
    modifies buffer
    ensures firstNonZero <= length && IsDigits(buffer[..length - firstNonZero])
    ensures length > firstNonZero ==> buffer[0] != '0' && buffer[length - firstNonZero - 1] != '0'
    ensures DecVal(buffer[..length - firstNonZero]) == old(DecVal(buffer[..length]))
  {
    hide DecVal;
    ghost var all: seq<char> := buffer[..length];
    firstNonZero := 0;
    while firstNonZero < length && buffer[firstNonZero] == '0'
      invariant firstNonZero <= length
      invariant forall k :: 0 <= k < firstNonZero ==> all[k] == '0'
    {
      firstNonZero := firstNonZero + 1;
    }
    DecLeadingZeros(all, firstNonZero);
    assert all[firstNonZero..] == buffer[firstNonZero..length];
    if firstNonZero != 0 {
      MoveLeft(buffer, firstNonZero, length);
    }
    assert buffer[..length - firstNonZero] == all[firstNonZero..];
    if firstNonZero < length {
      assert buffer[..length - firstNonZero][0] == all[firstNonZero..][0];
      assert buffer[..length - firstNonZero][length - firstNonZero - 1] == all[firstNonZero..][length - firstNonZero - 1];
    }
  }

  method MoveLeft(buffer: array<char>, offset: nat, length: nat)
    requires offset <= length <= buffer.Length
    modifies buffer
    ensures buffer[..length - offset] == old(buffer[offset..length])
  {
    for i := offset to length
      invariant forall k :: 0 <= k < i - offset ==> buffer[k] == old(buffer[k + offset])
      invariant forall k :: i <= k < length ==> buffer[k] == old(buffer[k])
    {
      buffer[i - offset] := buffer[i];
    }
  }

  // ---------- The conversion ----------

  const FIVE_17: uint64 := 0xB1_A2BC_2EC5
  const TEN_17: int := 100_000_000_000_000_000

  lemma FiveSeventeen()
    ensures FIVE_17 == Pow(5, 17) && TEN_17 == Pow(10, 17) && Pow(2, 17) == 0x2_0000
  {
    hide Pow;
    Fives();
    PowAdd(5, 8, 8);
    PowAdd(5, 16, 1);
    TwoTo8();
    TwoTo1();
    PowAdd(2, 8, 8);
    PowAdd(2, 16, 1);
    PowProduct(2, 5, 17);
  }

  lemma Fives()
    ensures Pow(5, 8) == 390625 && Pow(5, 1) == 5
  {
  }

  // Dividing by a factor of 10^17, the other factor p being put back.
  lemma Ten17Split(x: nat, divisor: nat, p: nat)
    requires 0 < divisor && divisor * p == TEN_17
    ensures 0 <= x % divisor * p < TEN_17
    ensures x / divisor * TEN_17 + x % divisor * p == x * p
  {
    DivMod(x, divisor);
    var q, m := x / divisor, x % divisor;
    MulLe(0, m, p);
    MulLe(m + 1, divisor, p);
    Factored(q, m, divisor, p, x);
  }

  lemma Factored(q: nat, m: nat, divisor: nat, p: nat, x: nat)
    requires x == q * divisor + m && divisor * p == TEN_17
    ensures q * TEN_17 + m * p == x * p && (m + 1) * p == m * p + p
  {
    assert q * divisor * p == q * (divisor * p);
  }

  // v as quotient * 10^17 + remainder, when v is an integer of up to 73 bits.
  method DivideByTen17(significand: uint64, exponent: nat) returns (quotient: uint32, remainder: uint64)
    requires significand < 2 * HIDDEN_BIT && 11 < exponent <= 20
    ensures quotient < 100_000 && remainder < TEN_17
    ensures quotient * TEN_17 + remainder == significand * Pow(2, exponent)
  {
    hide Pow;
    FiveSeventeen();
    var divisor: uint64 := FIVE_17;
    var divisorPower := 17;
    if exponent > divisorPower {
      ShiftUpTo3(significand, exponent - 17);
      PowAdd(2, exponent - 17, 17);
      var dividend: uint64 := significand * Pow(2, exponent - divisorPower);
      Ten17Split(dividend, divisor, 0x2_0000);
      DivLt(dividend, divisor, 100_000);
      MulAssoc(significand, Pow(2, exponent - 17), 0x2_0000);
      quotient := dividend / divisor;
      remainder := dividend % divisor * Pow(2, divisorPower);
    } else {
      PowAdd(2, 17 - exponent, exponent);
      SmallShift(17 - exponent);
      divisor := divisor * Pow(2, divisorPower - exponent);
      MulAssoc(FIVE_17, Pow(2, 17 - exponent), Pow(2, exponent));
      Ten17Split(significand, divisor, Pow(2, exponent));
      DivLt(significand, divisor, 100_000);
      quotient := significand / divisor;
      remainder := significand % divisor * Pow(2, exponent);
    }
  }

  lemma ShiftUpTo3(x: nat, k: nat)
    requires x < 2 * HIDDEN_BIT && k <= 3
    ensures 0 <= x * Pow(2, k) < 16 * HIDDEN_BIT
  {
    hide Pow;
    CachedPowers.TwoTo4();
    PowPos(2, k);
    PowMono(2, k, 3);
    MulLe(0, x, Pow(2, k));
    MulLe(Pow(2, k), 8, x);
  }

  lemma SmallShift(k: nat)
    requires k <= 5
    ensures 1 <= Pow(2, k) <= 256
  {
    hide Pow;
    TwoTo8();
    PowPos(2, k);
    PowMono(2, k, 8);
  }

  lemma ShiftUpTo11(x: nat, k: nat)
    requires x < 2 * HIDDEN_BIT && k <= 11
    ensures 0 <= x * Pow(2, k) < TWO_64
  {
    hide Pow;
    TwoTo10();
    TwoTo1();
    PowAdd(2, 10, 1);
    PowPos(2, k);
    PowMono(2, k, 11);
    MulLe(0, x, Pow(2, k));
    MulLe(Pow(2, k), 2048, x);
  }

  // An integer has no digits after the point.
  lemma IntegerIsFixed(v: Double, count: nat, e: nat)
    requires v.Exponent() >= 0 && e == v.Significand() * Pow(2, v.Exponent())
    ensures IsFixed(v, count, e, 0)
  {
    hide Pow, RPow, Double.Value;
    RPowNat(2, v.Exponent());
    RealMul(v.Significand(), Pow(2, v.Exponent()));
    RPowZero(10);
    assert v.Value() == e as real by { IntegerValue(v, e); }
    var x, one := v.Value(), RPow(10, 0);
    assert x * one == x;
    ExactIsFixed(v, count, 0, e);
  }

  lemma IntegerValue(v: Double, e: nat)
    requires v.Exponent() >= 0 && e == v.Significand() * Pow(2, v.Exponent())
    ensures v.Value() == e as real
  {
    hide Pow, RPow;
    RPowNat(2, v.Exponent());
    RealMul(v.Significand(), Pow(2, v.Exponent()));
  }

  // Below 2^-75 not even the twentieth digit is rounded up.
  lemma TinyIsFixed(v: Double, count: nat, exponent: int)
    requires v.d64 < INFINITY && v.Exponent() < -128 && count <= 20
    ensures IsFixed(v, count, 0, exponent)
  {
    hide Pow, RPow, Double.Value;
    v.Layout();
    var x := v.Value() * RPow(10, count);
    TensUpTo20(count);
    SmallPower();
    SmallValue(v);
    TinyProduct(x, v.Value(), RPow(10, count), RPow(2, -76));
    assert RoundHalfUp(x) == 0;
    DecimalIs(0, exponent);
    DecimalIs(0, 0 - count);
  }

  lemma TensUpTo20(count: nat)
    requires count <= 20
    ensures 0.0 < RPow(10, count) <= 100_000_000_000_000_000_000.0
  {
    hide Pow, RPow;
    RPowPos(10, count);
    RPowMono(10, count, 20);
    RPowNat(10, 20);
    TenTo20();
  }

  lemma TinyProduct(x: real, y: real, q: real, s: real)
    requires x == y * q && 0.0 <= y <= s && 0.0 < q <= 100_000_000_000_000_000_000.0
    requires s * 1_000_000_000_000_000_000_000.0 < 1.0
    ensures 0.0 <= x < 0.5
  {
    RealProductLe(y, q, s, 100_000_000_000_000_000_000.0);
    RealMulLe(0.0, y, q);
  }

  lemma SmallValue(v: Double)
    requires v.Significand() < 2 * HIDDEN_BIT && v.Exponent() < -128
    ensures 0.0 <= v.Value() <= RPow(2, -76)
  {
    hide Pow, RPow;
    var e := v.Exponent();
    RPowPos(2, e);
    RPowMono(2, e, -129);
    TwoTo53();
    RPowNat(2, 53);
    RPowAdd(2, 53, -129);
    RealProductLe(v.Significand() as real, RPow(2, e), (2 * HIDDEN_BIT) as real, RPow(2, -129));
    RealMulLe(0.0, v.Significand() as real, RPow(2, e));
  }

  lemma TenTo20()
    ensures Pow(10, 20) == 100_000_000_000_000_000_000
  {
    hide Pow;
    TenTo10();
    PowAdd(10, 10, 10);
  }

  lemma SmallPower()
    ensures RPow(2, -76) * 1_000_000_000_000_000_000_000.0 < 1.0 && 0.0 < RPow(2, -76)
  {
    hide Pow, RPow;
    RPowPos(2, -76);
    RPowAdd(2, -76, 76);
    RPowNat(2, 76);
    RPowNat(2, 0);
    PowZero(2);
    TwoTo64();
    TwoTo10();
    CachedPowers.TwoTo4();
    PowAdd(2, 64, 10);
    PowAdd(2, 2, 74);
    PowAdd(2, 1, 1);
    TwoTo1();
  }

  // The digits of an integer of up to 73 bits.
  method FillIntegral(significand: uint64, exponent: nat, buffer: array<char>) returns (length: nat)
    requires significand < 2 * HIDDEN_BIT && exponent <= 20 && 24 <= buffer.Length
    modifies buffer
    ensures length <= 24 && IsDigits(buffer[..length]) && DecVal(buffer[..length]) == significand * Pow(2, exponent)
  {
    hide Pow, DecVal;
    assert buffer[..0] == [];
    DecEmpty();
    if exponent + SIGNIFICAND_SIZE > 64 {
      var quotient, remainder := DivideByTen17(significand, exponent);
      length := FillDigits32(quotient, buffer, 0);
      AtMostFive(length, quotient);
      length := FillDigits64FixedLength(remainder, buffer, length);
    } else {
      ShiftUpTo11(significand, exponent);
      length := FillDigits64(significand * Pow(2, exponent), buffer, 0);
    }
  }

  lemma AtMostFive(length: nat, quotient: nat)
    requires quotient < 100_000 && (length > 0 ==> Pow(10, length - 1) <= quotient)
    ensures length <= 5
  {
    hide Pow;
    TenTo5();
    if 6 <= length { PowMono(10, 5, length - 1); }
  }

  // The digits before the point, and what is left after it.
  method FillIntegrals(significand: uint64, exponent: int, buffer: array<char>) returns (length: nat, fractionals: uint64)
    requires significand < 2 * HIDDEN_BIT && -53 < exponent < 0 && 24 <= buffer.Length
    modifies buffer
    ensures length <= 24 && fractionals < 2 * HIDDEN_BIT
    ensures Partial(buffer[..length], fractionals, significand, 0 - exponent, 0)
  {
    hide Pow, DecVal;
    assert buffer[..0] == [];
    DecEmpty();
    PowPos(2, 0 - exponent);
    PowZero(5);
    Remainder(significand, Pow(2, 0 - exponent));
    DivMod(significand, Pow(2, 0 - exponent));
    DivAtMost(significand, Pow(2, 0 - exponent));
    var integrals: uint64 := significand / Pow(2, -exponent);
    fractionals := significand - integrals * Pow(2, -exponent);
    if integrals > 0xFFFF_FFFF {
      length := FillDigits64(integrals, buffer, 0);
    } else {
      length := FillDigits32(integrals, buffer, 0);
    }
  }

  // Succeeds exactly when neither the number nor the digit count is too large;
  // the digits are those of v rounded to 'fractionalCount' places.
  method FastFixedDtoa(v: Double, fractionalCount: nat, buffer: array<char>)
    returns (ok: bool, length: nat, decimalPoint: int)
    requires v.d64 < INFINITY
    requires fractionalCount <= 20 ==> 26 + fractionalCount <= buffer.Length
    modifies buffer
    ensures ok <==> v.Exponent() <= 20 && fractionalCount <= 20
    ensures ok ==> length < buffer.Length && buffer[length] == '\0' && IsDigits(buffer[..length])
    ensures ok ==> IsFixed(v, fractionalCount, DecVal(buffer[..length]), decimalPoint - length)
    ensures ok && length > 0 ==> buffer[0] != '0' && buffer[length - 1] != '0'
    ensures ok && length == 0 ==> decimalPoint == -(fractionalCount as int)
    ensures ok ==> length - decimalPoint <= fractionalCount
  {
    hide Pow, DecVal, DecimalValue, RPow, Double.Value, RoundHalfUp, Partial;
    var significand, exponent := v.Significand(), v.Exponent();
    v.Layout();
    ok, length, decimalPoint := true, 0, 0;
    if exponent > 20 {
      return false, 0, 0;
    }
    if fractionalCount > 20 {
      return false, 0, 0;
    }
    if exponent >= 0 {
      length := FillIntegral(significand, exponent, buffer);
      decimalPoint := length;
      IntegerIsFixed(v, fractionalCount, DecVal(buffer[..length]));
    } else if exponent > -SIGNIFICAND_SIZE {
      var fractionals;
      length, fractionals := FillIntegrals(significand, exponent, buffer);
      decimalPoint := length;
      length, decimalPoint := FillFractionals(fractionals, exponent, fractionalCount, buffer, length, decimalPoint, v);
    } else if exponent < -128 {
      buffer[0] := '\0';
      length, decimalPoint := 0, -(fractionalCount as int);
      assert buffer[..0] == [];
      DecEmpty();
      TinyIsFixed(v, fractionalCount, decimalPoint);
    } else {
      assert buffer[..0] == [];
      NoIntegrals(buffer[..0], significand, 0 - exponent);
      length, decimalPoint := FillFractionals(significand, exponent, fractionalCount, buffer, 0, 0, v);
    }
    ghost var written := length;
    length, decimalPoint := TrimZeros(buffer, length, decimalPoint);
    ghost var digits: seq<char> := buffer[..length];
    buffer[length] := '\0';
    assert buffer[..length] == digits;
    if length == 0 {
      DecEmpty();
      DecimalIs(0, decimalPoint - length);
      decimalPoint := -(fractionalCount as int);
      DecimalIs(0, decimalPoint - length);
    } else {
      NoMorePlaces(v, fractionalCount, digits, decimalPoint);
    }
  }

  // Digits that do not end in a zero need no more places than were rounded to.
  lemma NoMorePlaces(v: Double, places: nat, digits: seq<char>, point: int)
    requires IsDigits(digits) && |digits| > 0 && digits[|digits| - 1] != '0'
    requires IsFixed(v, places, DecVal(digits), point - |digits|)
    ensures |digits| - point <= places
  {
    hide Pow, RPow, Double.Value, RoundHalfUp, DecimalValue, DecVal, InPlaces;
    LastDigit(digits);
    NonZeroDecimal(DecVal(digits), point - |digits|);
    var rounded := RoundHalfUp(InPlaces(v, places));
    if rounded <= 0 { NotPositive(rounded, 0 - places); }
    SameNumber(DecVal(digits), point - |digits|, rounded, 0 - places);
  }

  lemma NotPositive(a: int, q: int)
    requires a <= 0
    ensures DecimalValue(a, q) <= 0.0
  {
    hide RPow;
    RPowPos(10, q);
    RealMulLe(a as real, 0.0, RPow(10, q));
  }

  lemma NoIntegrals(s: seq<char>, significand: nat, p: nat)
    requires s == [] && significand < 2 * HIDDEN_BIT && 53 <= p
    ensures Partial(s, significand, significand, p, 0)
  {
    hide Pow;
    TwoTo53();
    PowMono(2, 53, p);
    PowZero(5);
  }

  // ---------- The fast path and the exact one ----------

  function Zeros(k: nat): (s: seq<char>)
    ensures |s| == k && IsDigits(s)
  {
    seq(k, i => '0')
  }

  lemma {:induction false} ZerosValue(k: nat)
    ensures DecVal(Zeros(k)) == 0
  {
    if k != 0 {
      assert Zeros(k) == Zeros(k - 1) + ['0'];
      ZerosValue(k - 1);
      DecAppend(Zeros(k - 1), '0');
    }
  }

  lemma DigitCount(x: nat, a: nat, b: nat)
    requires 0 < a && Pow(10, a - 1) <= x < Pow(10, a) && 0 < b && Pow(10, b - 1) <= x < Pow(10, b)
    ensures a == b
  {
    hide Pow;
    if a < b { PowMono(10, a, b - 1); }
    if b < a { PowMono(10, b, a - 1); }
  }

  // The same number times a power of ten is the same digits with zeros.
  lemma WithZeros(fast: seq<char>, slow: seq<char>, k: nat)
    requires IsDigits(fast) && |fast| > 0 && fast[0] != '0' && IsDigits(slow) && (|slow| > 0 ==> slow[0] != '0')
    requires DecVal(slow) == DecVal(fast) * Pow(10, k)
    ensures slow == fast + Zeros(k)
  {
    hide Pow, DecVal;
    DecLeading(fast);
    DecBound(fast);
    DecBound(slow);
    PowPos(10, k);
    PowPos(10, |fast| - 1);
    PowAdd(10, |fast| - 1, k);
    PowAdd(10, |fast|, k);
    MulLe(Pow(10, |fast| - 1), DecVal(fast), Pow(10, k));
    MulLt(DecVal(fast), Pow(10, |fast|), Pow(10, k));
    PowPos(10, |fast| - 1 + k);
    if slow == [] {
      DecEmpty();
    } else {
      DecLeading(slow);
      DigitCount(DecVal(slow), |slow|, |fast| + k);
      DecConcat(fast, Zeros(k));
      ZerosValue(k);
      DecInjective(slow, fast + Zeros(k));
    }
  }

  // Both conversions to the same places give the same point, and the exact one
  // the digits of the fast one, which never end in a zero, and zeros.
  lemma FastRefinesSlow(v: Double, places: nat, fast: seq<char>, fastPoint: int, slow: seq<char>, slowPoint: int)
    requires IsDigits(fast) && IsFixed(v, places, DecVal(fast), fastPoint - |fast|)
    requires IsDigits(slow) && IsFixed(v, places, DecVal(slow), slowPoint - |slow|)
    requires if |fast| > 0 then fast[0] != '0' && fast[|fast| - 1] != '0' else fastPoint == 0 - places
    requires if |slow| > 0 then slow[0] != '0' else slowPoint == 0 - places
    ensures fastPoint == slowPoint && |fast| <= |slow| && slow == fast + Zeros(|slow| - |fast|)
  {
    hide Pow, RPow, Double.Value, RoundHalfUp, DecimalValue, DecVal;
    if |fast| > 0 {
      LastDigit(fast);
      SameNumber(DecVal(fast), fastPoint - |fast|, DecVal(slow), slowPoint - |slow|);
      WithZeros(fast, slow, fastPoint - |fast| - (slowPoint - |slow|));
    } else {
      DecEmpty();
      ZeroDecimal(fastPoint);
      if |slow| > 0 {
        DecLeading(slow);
        PowPos(10, |slow| - 1);
        NonZeroDecimal(DecVal(slow), slowPoint - |slow|);
      }
    }
  }

  lemma ZeroDecimal(q: int)
    ensures DecimalValue(0, q) == 0.0
  {
  }

  lemma NonZeroDecimal(a: nat, q: int)
    requires 0 < a
    ensures 0.0 < DecimalValue(a, q)
  {
    hide RPow;
    RPowPos(10, q);
    RealPositive(a as real, RPow(10, q));
  }

  lemma SameNumber(a: nat, p: int, b: nat, q: int)
    requires DecimalValue(a, p) == DecimalValue(b, q) && a % 10 != 0
    ensures q <= p && b == a * Pow(10, p - q)
  {
    hide Pow, RPow, DecimalValue;
    if p < q {
      DecimalRefine(b, q, p);
      SameDecimal(a, b * Pow(10, q - p), p);
      PowStep(10, q - p - 1);
      TenDivides(b, Pow(10, q - p - 1), a);
    } else {
      DecimalRefine(a, p, q);
      SameDecimal(a * Pow(10, p - q), b, q);
    }
  }

  lemma SameDecimal(a: int, b: int, q: int)
    requires DecimalValue(a, q) == DecimalValue(b, q)
    ensures a == b
  {
    hide RPow;
    RPowPos(10, q);
    SameFactor(a as real, b as real, RPow(10, q));
  }

  lemma LastDigit(s: seq<char>)
    requires IsDigits(s) && |s| > 0 && s[|s| - 1] != '0'
    ensures DecVal(s) % 10 != 0
  {
    var d, c := DecVal(s[..|s| - 1]), DigitValue(s[|s| - 1]);
    DivUnique(10 * d + c, 10, d, c);
  }
}
