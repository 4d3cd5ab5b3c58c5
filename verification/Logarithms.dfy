// How many decimal digits a power of two has, from a product with a double that
// stands for log10(2): what the estimate of the decimal power and the index of a
// cached power both rely on.
module Logarithms {
  import opened Powers

  // The constant of external/double-conversion/bignum-dtoa.cc:407 and
  // external/double-conversion/cached-powers.cc:137.
  const ONE_OVER_LOG2_10: real := 0.30102999566398114

  // More than what is subtracted and what products of doubles can be off.
  const TOLERANCE: real := 0.000000001

  // What a product and a difference of doubles of this size can be off.
  const HARDWARE_ERROR: real := 0.0000000001

  function Ceiling(x: real): (k: int)
    ensures (k - 1) as real < x <= k as real
  {
    -((-x).Floor)
  }

  ghost predicate IsLogarithm(x: real, n: int)
  {
    n as real * ONE_OVER_LOG2_10 - TOLERANCE <= x <= n as real * ONE_OVER_LOG2_10 + TOLERANCE
  }

  // ---------- 205/681 < log10(2) < 146/485 ----------

  lemma SmallPowers()
    ensures Pow(5, 1) == 5 && Pow(5, 3) == 125 && Pow(5, 5) == 3125
    ensures Pow(2, 6) == 64 && Pow(2, 9) == 512 && Pow(2, 10) == 1024
  {
  }

  const FIVE_41: int := 45474735088646411895751953125

  lemma Fives()
    ensures Pow(5, 41) == FIVE_41 && Pow(5, 146) == FIVE_41 * FIVE_41 * FIVE_41 * 95367431640625 * 125
    ensures Pow(5, 205) == FIVE_41 * FIVE_41 * FIVE_41 * FIVE_41 * FIVE_41
  {
    hide Pow;
    SmallPowers();
    PowAdd(5, 5, 5);
    PowAdd(5, 10, 10);
    PowAdd(5, 20, 20);
    PowAdd(5, 40, 1);
    PowAdd(5, 41, 41);
    PowAdd(5, 82, 41);
    PowAdd(5, 123, 20);
    PowAdd(5, 143, 3);
    PowAdd(5, 82, 82);
    PowAdd(5, 164, 41);
  }

  const TWO_80: int := 0x1_0000_0000_0000_0000_0000

  lemma Twos()
    ensures Pow(2, 339) == TWO_80 * TWO_80 * TWO_80 * TWO_80 * 1024 * 512
    ensures Pow(2, 476) == TWO_80 * TWO_80 * TWO_80 * TWO_80 * TWO_80 * TWO_80 / 16
  {
    hide Pow;
    SmallPowers();
    PowAdd(2, 10, 10);
    PowAdd(2, 20, 20);
    PowAdd(2, 40, 40);
    PowAdd(2, 80, 80);
    PowAdd(2, 160, 160);
    PowAdd(2, 320, 10);
    PowAdd(2, 330, 9);
    PowAdd(2, 320, 80);
    PowAdd(2, 400, 40);
    PowAdd(2, 440, 20);
    PowAdd(2, 460, 10);
    PowAdd(2, 470, 6);
  }

  lemma DecimalFromBelow()
    ensures Pow(10, 205) <= Pow(2, 681)
  {
    hide Pow;
    Fives();
    Twos();
    PowProduct(2, 5, 205);
    PowAdd(2, 476, 205);
    PowPos(2, 205);
    MulLe(Pow(5, 205), Pow(2, 476), Pow(2, 205));
  }

  lemma DecimalFromAbove()
    ensures Pow(2, 485) <= Pow(10, 146)
  {
    hide Pow;
    Fives();
    Twos();
    PowProduct(2, 5, 146);
    PowAdd(2, 339, 146);
    PowPos(2, 146);
    MulLe(Pow(2, 339), Pow(5, 146), Pow(2, 146));
  }

  // ---------- Powers compared by their exponents ----------

  lemma {:induction false} PowBaseStrictMono(a: nat, b: nat, n: nat)
    requires a < b && 0 < n
    ensures Pow(a, n) < Pow(b, n)
  {
    if n != 1 { PowBaseStrictMono(a, b, n - 1); }
    MulLe(Pow(a, n - 1), Pow(b, n - 1), a);
    PowPos(b, n - 1);
    MulLt(a, b, Pow(b, n - 1));
  }

  // a^p <= b^q compares a^m and b^n for every m / n up to p / q.
  lemma RootLe(a: nat, p: nat, b: nat, q: nat, m: nat, n: nat)
    requires 1 <= b && 0 < p && Pow(a, p) <= Pow(b, q) && q * m <= p * n
    ensures Pow(a, m) <= Pow(b, n)
  {
    hide Pow;
    if Pow(b, n) < Pow(a, m) {
      PowBaseStrictMono(Pow(b, n), Pow(a, m), p);
      PowMul(b, n, p);
      PowMul(a, m, p);
      PowMul(a, p, m);
      PowMul(b, q, m);
      PowBaseMono(Pow(a, p), Pow(b, q), m);
      Commutes(m, p);
      Commutes(n, p);
      PowMono(b, q * m, p * n);
    }
  }

  lemma Commutes(a: int, b: int)
    ensures a * b == b * a
  {
  }

  lemma Reciprocals(b: nat, k: nat)
    requires 0 < b
    ensures RPow(b, 0 - k) * Pow(b, k) as real == 1.0
  {
    hide RPow, Pow;
    RPowAdd(b, 0 - k, k);
    RPowNat(b, k);
    RPowNat(b, 0);
    PowZero(b);
  }

  lemma SmallerReciprocal(a: real, x: real, b: real, y: real)
    requires a * x == 1.0 == b * y && 0.0 < x <= y && 0.0 < a
    ensures b <= a
  {
    if a < b {
      RealMulLt(a, b, x);
      RealProductLe(b, x, b, y);
    }
  }

  lemma InverseLe(a: nat, m: nat, b: nat, n: nat)
    requires 0 < a && 0 < b && Pow(a, m) <= Pow(b, n)
    ensures RPow(b, 0 - n) <= RPow(a, 0 - m)
  {
    hide RPow, Pow;
    Reciprocals(a, m);
    Reciprocals(b, n);
    PowPos(a, m);
    RPowPos(a, 0 - m);
    SmallerReciprocal(RPow(a, 0 - m), Pow(a, m) as real, RPow(b, 0 - n), Pow(b, n) as real);
  }

  lemma AroundOne(a: nat, m: int, b: nat, n: int)
    requires 1 <= a && 1 <= b && m <= 0 <= n
    ensures RPow(a, m) <= RPow(b, n)
  {
    hide RPow;
    RPowMono(a, m, 0);
    RPowMono(b, 0, n);
    RPowNat(a, 0);
    RPowNat(b, 0);
    PowZero(a);
    PowZero(b);
  }

  lemma TenBelowTwo(m: int, n: int)
    requires if n >= 0 then 681 * m <= 205 * n else 485 * m <= 146 * n
    ensures RPow(10, m) <= RPow(2, n)
  {
    hide RPow, Pow;
    if n >= 0 && m <= 0 {
      AroundOne(10, m, 2, n);
    } else if n >= 0 {
      DecimalFromBelow();
      RootLe(10, 205, 2, 681, m, n);
      RPowNat(10, m);
      RPowNat(2, n);
    } else {
      DecimalFromAbove();
      RootLe(2, 485, 10, 146, -n, -m);
      InverseLe(2, -n, 10, -m);
    }
  }

  lemma TwoBelowTen(n: int, m: int)
    requires if n >= 0 then 146 * n <= 485 * m else 205 * n <= 681 * m
    ensures RPow(2, n) <= RPow(10, m)
  {
    hide RPow, Pow;
    if n >= 0 {
      DecimalFromAbove();
      RootLe(2, 485, 10, 146, n, m);
      RPowNat(2, n);
      RPowNat(10, m);
    } else if m >= 0 {
      AroundOne(2, n, 10, m);
    } else {
      DecimalFromBelow();
      RootLe(10, 205, 2, 681, -m, -n);
      InverseLe(10, -m, 2, -n);
    }
  }

  // ---------- Rounding up ----------

  // No fraction with a denominator up to 1165 lies between 205/681 and 146/485.
  lemma NoFractionBetween(m: int, n: int)
    requires -1165 <= n <= 1165
    ensures n > 0 && 205 * n < 681 * m ==> 146 * n <= 485 * m
    ensures n > 0 && 485 * m < 146 * n ==> 681 * m <= 205 * n
    ensures n < 0 && 146 * n < 485 * m ==> 205 * n <= 681 * m
    ensures n < 0 && 681 * m < 205 * n ==> 485 * m <= 146 * n
  {
  }

  // Rounding the product up gives the number of decimal digits of 2^n, or one
  // more than a power of ten needs.
  lemma CeilingOfLogarithm(n: int, x: real)
    requires -1165 <= n <= 1165 && IsLogarithm(x, n)
    ensures RPow(10, Ceiling(x) - 1) <= RPow(2, n) <= RPow(10, Ceiling(x))
  {
    hide RPow;
    var k := Ceiling(x);
    NoFractionBetween(k, n);
    NoFractionBetween(k - 1, n);
    TwoBelowTen(n, k);
    TenBelowTwo(k - 1, n);
  }
}
