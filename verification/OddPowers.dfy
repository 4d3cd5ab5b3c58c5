// No power of ten is a double with an odd significand: of the powers of five
// none lies between 2^52 and 2^53.
module OddPowers {
  import opened Powers
  import opened Ieee
  import opened StartValues

  lemma {:induction false} PowFiveOdd(n: nat)
    ensures Pow(5, n) % 2 == 1
  {
    if n != 0 { PowFiveOdd(n - 1); }
  }

  lemma {:induction false} PowTwoNotByFive(n: nat)
    ensures Pow(2, n) % 5 != 0
  {
    if n != 0 { PowTwoNotByFive(n - 1); }
  }

  lemma EvenMultiple(a: nat, n: nat)
    requires 0 < n
    ensures a * Pow(2, n) % 2 == 0
  {
    hide Pow;
    PowStep(2, n - 1);
    var h := a * Pow(2, n - 1);
    assert a * (2 * Pow(2, n - 1)) == 2 * h;
  }

  lemma MultipleOfFive(a: nat, n: nat)
    requires 0 < n
    ensures a * Pow(10, n) % 5 == 0
  {
    hide Pow;
    PowStep(10, n - 1);
    var h := a * Pow(10, n - 1);
    assert a * (10 * Pow(10, n - 1)) == 5 * (2 * h);
  }

  lemma MulCancelEq(a: int, b: int, c: int)
    requires c != 0 && a * c == b * c
    ensures a == b
  {
  }

  // f * 2^e == 10^p with f odd leaves only f == 5^p.
  lemma OddFactor(f: nat, e: nat, p: nat)
    requires f % 2 == 1 && f * Pow(2, e) == Pow(10, p)
    ensures f == Pow(5, p)
  {
    hide Pow;
    PowProduct(5, 2, p);
    PowFiveOdd(p);
    if e < p {
      PowAdd(2, p - e, e);
      PowPos(2, e);
      var a, b, c := Pow(5, p), Pow(2, p - e), Pow(2, e);
      assert a * (b * c) == a * b * c;
      MulCancelEq(f, a * b, c);
      EvenMultiple(a, p - e);
    } else if p < e {
      PowAdd(2, e - p, p);
      PowPos(2, p);
      var b, c := Pow(2, e - p), Pow(2, p);
      assert f * (b * c) == f * b * c;
      MulCancelEq(f * b, Pow(5, p), c);
      EvenMultiple(f, e - p);
    } else {
      PowPos(2, p);
      MulCancelEq(f, Pow(5, p), Pow(2, p));
    }
  }

  lemma NotAPowerOfFive(p: nat)
    ensures !(HIDDEN_BIT <= Pow(5, p) < 2 * HIDDEN_BIT)
  {
    hide Pow;
    Fives();
    if p <= 22 { PowMono(5, p, 22); } else { PowMono(5, 23, p); }
  }

  lemma Fives()
    ensures Pow(5, 22) == 2384185791015625 && Pow(5, 23) == 11920928955078125
  {
    PowAdd(5, 11, 11);
    assert Pow(5, 11) == 48828125;
    assert Pow(5, 23) == 5 * Pow(5, 22);
  }

  lemma OddIsNoPowerOfTen(v: Double, power: int)
    requires v.IsFinitePositive() && v.d64 % 2 == 1 && (v.Exponent() >= 0 ==> power >= 0)
    ensures StartNumerator(v.Significand(), v.Exponent(), power) != DenominatorUnit(v.Exponent(), power)
  {
    hide Pow, Double.Exponent, Double.Significand, Unit, DenominatorUnit, StartNumerator;
    v.Layout();
    var f, e := v.Significand(), v.Exponent();
    UnitCases(f, e, power);
    ProductIs(f, e, power);
    if e >= 0 {
      if f * Pow(2, e) == Pow(10, power) {
        OddFactor(f, e, power);
        NotAPowerOfFive(power);
      }
    } else if power >= 0 {
      EvenMultiple(Pow(10, power), -e);
    } else {
      MultipleOfFive(f, -power);
      PowTwoNotByFive(-e);
    }
  }

  lemma ProductIs(f: nat, e: int, power: int)
    ensures 0 <= e ==> Shifted(f, e) == f * Pow(2, e)
    ensures e < 0 && 0 <= power ==> Shifted(Pow(10, power), -e) == Pow(10, power) * Pow(2, -e)
    ensures e < 0 && power < 0 ==> Product(Pow(10, -power), f) == f * Pow(10, -power) && Shifted(1, -e) == Pow(2, -e)
  {
    hide Pow;
  }
}
