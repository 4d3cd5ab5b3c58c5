// external/double-conversion/strtod.cc: short inputs, where one correctly rounded
// operation of the hardware gives the result.
module DoubleOperations {
  import opened Powers
  import opened Decimal
  import opened DecimalMeaning
  import opened Ieee
  import opened DoubleBits
  import opened Approximation
  import opened Rounding

  const MAX_EXACT_DOUBLE_INTEGER_DECIMAL_DIGITS := 15
  const EXACT_POWERS_OF_TEN_SIZE := 23

  // How the build multiplies and divides: not relied on, or rounding every exact
  // result to a double.
  datatype Arithmetic = Unreliable | Reliable(round: real -> uint64)
  {
    // What IEEE 754-2008 guarantees for results that are not negative.
    ghost predicate IsCorrect()
    {
      Reliable? ==> forall x: real :: 0.0 <= x ==> round(x) <= INFINITY && RoundsTo(x, round(x))
    }
  }

  // ---------- Numbers that are doubles ----------

  lemma {:induction false} ExactDouble(f: nat, e: int) returns (u: nat)
    requires f < 2 * HIDDEN_BIT && DENORMAL_EXPONENT <= e < MAX_EXPONENT
    ensures u < INFINITY && Double(u).Value() == f as real * RPow(2, e)
    decreases 2 * HIDDEN_BIT - f
  {
    hide RPow;
    if HIDDEN_BIT <= f || e == DENORMAL_EXPONENT {
      u := BitsOf(f, e);
      BitsLayout(f, e);
    } else if f == 0 {
      u := 0;
    } else {
      u := ExactDouble(2 * f, e - 1);
      DoubleSignificand(f, e);
    }
  }

  // An operation with such a result is exact.
  lemma RoundsToItself(x: real, f: nat, e: int, u: nat)
    requires f < 2 * HIDDEN_BIT && DENORMAL_EXPONENT <= e < MAX_EXPONENT && x == f as real * RPow(2, e)
    requires u <= INFINITY && RoundsTo(x, u)
    ensures Double(u).Value() == x
  {
    hide RPow, RoundsTo, Double.Value;
    var w := ExactDouble(f, e);
    ExactRounds(x, w);
    RoundsToIsUnique(x, u, w);
  }

  lemma WholeIsExact(n: nat, u: nat)
    requires n < 2 * HIDDEN_BIT && u <= INFINITY && RoundsTo(n as real, u)
    ensures Double(u).Value() == n as real
  {
    hide RPow, RoundsTo, Double.Value;
    RPowNat(2, 0);
    PowZero(2);
    RoundsToItself(n as real, n, 0, u);
  }

  lemma FivesFit(k: nat)
    requires k < EXACT_POWERS_OF_TEN_SIZE
    ensures Pow(5, k) < 2 * HIDDEN_BIT
  {
    hide Pow;
    FiveTo11();
    PowAdd(5, 11, 11);
    PowMono(5, k, 22);
  }

  lemma FiveTo11()
    ensures Pow(5, 11) == 48828125
  {
  }

  // The table of powers of ten holds doubles.
  lemma PowersAreDoubles(k: nat)
    requires k < EXACT_POWERS_OF_TEN_SIZE
    ensures exists u: nat :: u < INFINITY && Double(u).Value() == Pow(10, k) as real
  {
    hide RPow, Pow, Double.Value;
    FivesFit(k);
    PowProduct(2, 5, k);
    RPowNat(2, k);
    RealMul(Pow(5, k), Pow(2, k));
    var u := ExactDouble(Pow(5, k), k);
  }

  // ---------- One operation ----------

  lemma ShortNumber(trimmed: seq<char>)
    requires IsDigits(trimmed) && |trimmed| <= MAX_EXACT_DOUBLE_INTEGER_DECIMAL_DIGITS
    ensures DecVal(trimmed) < Pow(10, |trimmed|) && Pow(10, 15) < 2 * HIDDEN_BIT
  {
    hide Pow, DecVal;
    DecBound(trimmed);
    TenTo17();
    PowAdd(10, 15, 2);
    assert Pow(10, 2) == 100 by { TenTo2(); }
  }

  lemma TenTo2()
    ensures Pow(10, 2) == 100
  {
  }

  lemma Divided(n: nat, k: nat)
    ensures 0.0 < Pow(10, k) as real && n as real / Pow(10, k) as real == DecimalValue(n, 0 - k)
    ensures 0.0 <= DecimalValue(n, 0 - k)
  {
    hide Pow, RPow;
    PowPos(10, k);
    RPowNat(10, k);
    RPowAdd(10, 0 - k, k);
    RPowZero(10);
    RPowPos(10, 0 - k);
    RealMulLe(0.0, n as real, RPow(10, 0 - k));
    QuotientIs(n as real, RPow(10, 0 - k), Pow(10, k) as real);
  }

  lemma QuotientIs(x: real, p: real, q: real)
    requires p * q == 1.0 && 0.0 < q
    ensures x / q == x * p
  {
    assert x * p * q == x * (p * q);
  }

  lemma Multiplied(n: nat, k: nat)
    ensures n as real * Pow(10, k) as real == DecimalValue(n, k) && 0.0 <= DecimalValue(n, k)
  {
    hide Pow, RPow;
    RPowNat(10, k);
    RPowPos(10, k);
    RealMulLe(0.0, n as real, RPow(10, k));
  }

  // Zeros that fill a number up to fifteen digits.
  lemma FilledUp(n: nat, length: nat, k: nat)
    requires length <= 15 && n < Pow(10, length) && 15 - length <= k
    ensures 0 <= n * Pow(10, 15 - length) < Pow(10, 15)
    ensures n as real * Pow(10, 15 - length) as real == (n * Pow(10, 15 - length)) as real
    ensures DecimalValue(n * Pow(10, 15 - length), k - (15 - length)) == DecimalValue(n, k)
  {
    hide Pow, RPow, DecimalValue;
    PowPos(10, 15 - length);
    PowAdd(10, length, 15 - length);
    MulLt(n, Pow(10, length), Pow(10, 15 - length));
    MulLe(0, n, Pow(10, 15 - length));
    RealMul(n, Pow(10, 15 - length));
    DecimalRefine(n, k, k - (15 - length));
  }

  lemma Rounded(hardware: Arithmetic, x: real)
    requires hardware.IsCorrect() && hardware.Reliable? && 0.0 <= x
    ensures hardware.round(x) <= INFINITY && RoundsTo(x, hardware.round(x))
  {
    hide RoundsTo;
  }

  // A whole number divided by an exact power of ten.
  method Divide(d: Double, k: nat, hardware: Arithmetic, ghost n: nat) returns (result: uint64)
    requires hardware.IsCorrect() && hardware.Reliable? && d.Value() == n as real
    ensures result <= INFINITY && RoundsTo(DecimalValue(n, 0 - k), result)
  {
    hide Pow, RPow, DecimalValue, RoundsTo, Double.Value, Arithmetic.IsCorrect;
    Divided(n, k);
    var quotient := d.Value() / Pow(10, k) as real;
    Rounded(hardware, quotient);
    result := hardware.round(quotient);
  }

  // A whole number multiplied by one.
  method Multiply(d: Double, k: nat, hardware: Arithmetic, ghost n: nat) returns (result: uint64)
    requires hardware.IsCorrect() && hardware.Reliable? && d.Value() == n as real
    ensures result <= INFINITY && RoundsTo(DecimalValue(n, k), result)
  {
    hide Pow, RPow, DecimalValue, RoundsTo, Double.Value, Arithmetic.IsCorrect;
    Multiplied(n, k);
    var product := d.Value() * Pow(10, k) as real;
    Rounded(hardware, product);
    result := hardware.round(product);
  }

  // At most fifteen digits as a double.
  method WholeDouble(trimmed: seq<char>, hardware: Arithmetic) returns (result: uint64)
    requires IsDigits(trimmed) && |trimmed| <= MAX_EXACT_DOUBLE_INTEGER_DECIMAL_DIGITS
    requires hardware.IsCorrect() && hardware.Reliable?
    ensures Double(result).Value() == DecVal(trimmed) as real
  {
    hide Pow, RPow, DecVal, RoundsTo, Double.Value, Arithmetic.IsCorrect;
    ShortNumber(trimmed);
    PowMono(10, |trimmed|, 15);
    var digits, readDigits := ReadUint64(trimmed);
    ShortIsReadWhole(trimmed, readDigits);
    assert trimmed[..readDigits] == trimmed;
    Rounded(hardware, digits as real);
    result := hardware.round(digits as real);
    WholeIsExact(digits, result);
  }

  lemma FilledDouble(n: nat, length: nat, k: nat, u: nat)
    requires length <= 15 && n < Pow(10, length) && 15 - length <= k && Pow(10, 15) < 2 * HIDDEN_BIT
    requires u <= INFINITY && RoundsTo(DecimalValue(n, 15 - length), u)
    ensures 0 <= n * Pow(10, 15 - length) && Double(u).Value() == (n * Pow(10, 15 - length)) as real
    ensures DecimalValue(n * Pow(10, 15 - length), k - (15 - length)) == DecimalValue(n, k)
  {
    hide Pow, RPow, DecimalValue, RoundsTo, Double.Value;
    FilledUp(n, length, k);
    Multiplied(n, 15 - length);
    WholeIsExact(n * Pow(10, 15 - length), u);
  }

  // Where it answers, the result is the nearest double.
  method DoubleStrtod(trimmed: seq<char>, exponent: int, hardware: Arithmetic) returns (ok: bool, result: uint64)
    requires IsDigits(trimmed) && hardware.IsCorrect()
    ensures ok <==> hardware.Reliable? && |trimmed| <= 15 && -23 < exponent < 38 - |trimmed|
    ensures ok ==> result <= INFINITY && RoundsTo(DecimalValue(DecVal(trimmed), exponent), result)
  {
    hide Pow, RPow, DecVal, DecimalValue, RoundsTo, Double.Value, Arithmetic.IsCorrect;
    if hardware.Unreliable? {
      return false, 0;
    }
    if |trimmed| <= MAX_EXACT_DOUBLE_INTEGER_DECIMAL_DIGITS {
      ghost var n := DecVal(trimmed);
      if exponent < 0 && -exponent < EXACT_POWERS_OF_TEN_SIZE {
        result := WholeDouble(trimmed, hardware);
        result := Divide(Double(result), -exponent, hardware, n);
        return true, result;
      }
      if 0 <= exponent && exponent < EXACT_POWERS_OF_TEN_SIZE {
        result := WholeDouble(trimmed, hardware);
        result := Multiply(Double(result), exponent, hardware, n);
        return true, result;
      }
      var remainingDigits := MAX_EXACT_DOUBLE_INTEGER_DECIMAL_DIGITS - |trimmed|;
      if 0 <= exponent && exponent - remainingDigits < EXACT_POWERS_OF_TEN_SIZE {
        result := WholeDouble(trimmed, hardware);
        result := Multiply(Double(result), remainingDigits, hardware, n);
        ShortNumber(trimmed);
        FilledDouble(n, |trimmed|, exponent, result);
        result := Multiply(Double(result), exponent - remainingDigits, hardware, n * Pow(10, remainingDigits));
        return true, result;
      }
    }
    ok, result := false, 0;
  }
}
