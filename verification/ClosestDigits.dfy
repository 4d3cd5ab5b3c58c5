// What shortest digits are among all decimals: of no more digits than any other
// that is read as the double, and the closest of their length.
module ClosestDigits {
  import opened Powers
  import opened DiyFps
  import opened CachedPowers
  import opened DecimalMeaning
  import opened Ieee
  import opened Underflow

  // No decimal of so many digits that is read as v, wherever its point is, is
  // nearer to v.
  ghost predicate ClosestOfLength(v: Double, digits: nat, length: nat, exponent: int)
    requires v.IsFinitePositive()
  {
    forall m: nat, q: int :: m < Pow(10, length) && RoundsTo(DecimalValue(m, q), v.d64)
      ==> Distance(DecimalValue(digits, exponent), v.Value()) <= Distance(DecimalValue(m, q), v.Value())
  }

  // The digits read back as v; no decimal with fewer digits does; and none with
  // as many is nearer to v.
  ghost predicate IsShortest(v: Double, digits: nat, length: nat, point: int)
    requires v.IsFinitePositive()
  {
    && IsShortestOnGrid(v, digits, length, point)
    && digits < Pow(10, length)
    && ClosestOfLength(v, digits, length, point - length)
  }

  // No other decimal with the same last place is as near to v.
  ghost predicate UniquelyNearest(v: Double, digits: nat, exponent: int)
    requires v.IsFinitePositive()
  {
    forall m: int :: m != digits && RoundsTo(DecimalValue(m, exponent), v.d64)
      ==> Distance(DecimalValue(digits, exponent), v.Value()) < Distance(DecimalValue(m, exponent), v.Value())
  }

  ghost predicate IsUniqueShortest(v: Double, digits: nat, length: nat, point: int)
    requires v.IsFinitePositive()
  {
    IsShortest(v, digits, length, point) && UniquelyNearest(v, digits, point - length)
  }

  // ---------- Powers of ten just above a double ----------

  lemma Two752()
    ensures Pow(2, 752) == 0x10_0000 * TWO_732
  {
    hide Pow;
    Twos();
    TwoTo8();
    TwoTo4();
    PowAdd(2, 8, 8);
    PowAdd(2, 16, 4);
    PowAdd(2, 732, 20);
  }

  // 10^-323 in units of 2^-1075, half of the smallest double.
  lemma TinyTen()
    ensures 3.0 * RPow(2, -1075) < RPow(10, -323)
    ensures 19.0 * RPow(10, -323) < 80.0 * RPow(2, -1075)
  {
    hide Pow, RPow;
    Five342();
    Five19();
    PowAdd(5, 323, 19);
    Two752();
    MulCancelLt(3 * Pow(5, 323), Pow(2, 752), Pow(5, 19));
    MulCancelLt(19 * Pow(2, 752), 80 * Pow(5, 323), Pow(5, 19));
    DecimalAgainstBinary(1, 323, 3, 1075);
    DecimalAgainstBinary(19, 323, 80, 1075);
  }

  lemma BelowTiny(u: real, t: real, tiny: real, k: int)
    requires t == RPow(10, k) && tiny == RPow(10, -323) && u == RPow(2, -1075)
    ensures k >= -322 ==> 30.0 * u < t
    ensures k == -323 ==> 3.0 * u < t && 19.0 * t < 80.0 * u
    ensures k <= -324 ==> 19.0 * t < 8.0 * u
  {
    hide RPow;
    TinyTen();
    RPowStep(10, -323);
    RPowStep(10, -324);
    if k >= -322 { RPowMono(10, -322, k); }
    if k <= -324 { RPowMono(10, k, -324); }
  }

  // p is f times w, for an f that may be small.
  ghost predicate Multiple(f: nat, w: real, p: real)
  {
    && (f <= 9 ==> p <= 9.0 * w) && (10 <= f ==> 10.0 * w <= p)
    && w <= p && (2 <= f ==> 2.0 * w <= p) && (f == 1 ==> p == w)
  }

  lemma TimesUnit(f: nat, x: real, y: real, w: real)
    requires 0.0 < w && x == f as real && y == (2 * f + 1) as real && 1 <= f
    ensures y * w == 2.0 * (x * w) + w
    ensures Multiple(f, w, x * w)
  {
    OddTimes(x, y, w);
    if f <= 9 { RealMulLe(x, 9.0, w); }
    if 10 <= f { RealMulLe(10.0, x, w); }
    RealMulLe(1.0, x, w);
    if 2 <= f { RealMulLe(2.0, x, w); }
  }

  lemma OddTimes(x: real, y: real, w: real)
    requires y == 2.0 * x + 1.0
    ensures y * w == 2.0 * (x * w) + w
  {
  }

  lemma TenAgainstUnits(f: nat, e: int, w: real, p: real, t: real, k: int)
    requires 1 <= f && (f <= 9 ==> e == -1075) && w == RPow(2, e) && t == RPow(10, k) && 0.0 < w
    requires Multiple(f, w, p) && t <= 2.0 * p + w
    ensures 19.0 * t < 40.0 * p
  {
    hide RPow;
    if f <= 9 { BelowTiny(w, t, RPow(10, -323), k); }
  }

  // A power of ten that is at most the upper boundary of v is at most a
  // nineteenth more than v.
  lemma NoTenFarAbove(v: Double, k: int)
    requires v.IsFinitePositive() && RPow(10, k) <= v.Upper()
    ensures 19.0 * RPow(10, k) < 20.0 * v.Value()
  {
    hide RPow, Multiple;
    v.Layout();
    var f, e := v.Significand(), v.Exponent();
    RPowPos(2, e - 1);
    RPowStep(2, e - 1);
    var x, w := f as real, RPow(2, e - 1);
    TimesUnit(f, x, (2 * f + 1) as real, w);
    TenAgainstUnits(f, e - 1, w, x * w, RPow(10, k), k);
  }

  lemma TenIsNearer(value: real, x: real, t: real)
    requires 0.0 < t && 10.0 * x <= 9.0 * t && 19.0 * t < 20.0 * value
    ensures Distance(t, value) < Distance(x, value)
  {
  }

  // ---------- The closest of its length ----------

  // A number between two that are read as v is read as v.
  lemma RoundsBetween(v: Double, x: real, y: real, z: real)
    requires v.IsFinitePositive() && RoundsTo(x, v.d64) && RoundsTo(z, v.d64) && x <= y <= z
    ensures RoundsTo(y, v.d64)
  {
    hide Double.Upper;
  }

  lemma AtMostUpper(v: Double, x: real)
    requires v.IsFinitePositive() && RoundsTo(x, v.d64)
    ensures x <= v.Upper()
  {
    hide Double.Upper;
  }

  lemma OnlyOneDigit(v: Double, length: nat, k: int)
    requires v.IsFinitePositive() && 0 < length && RoundsTo(RPow(10, k), v.d64)
    requires forall m: nat, q: int :: RoundsTo(DecimalValue(m, q), v.d64) ==> Pow(10, length - 1) <= m
    ensures length == 1
  {
    hide RPow, Pow, RoundsTo, DecimalValue;
    DecimalOne(k);
    PowOfTen();
    if 2 <= length { PowMono(10, 1, length - 1); }
  }

  lemma OneDigitBelow(m: nat, q: int, k: int)
    requires m <= 9 && q < k
    ensures 10.0 * DecimalValue(m, q) <= 9.0 * RPow(10, k)
  {
    hide RPow;
    RPowPos(10, q);
    RPowMono(10, q + 1, k);
    RPowStep(10, q);
    RealMulLe(m as real, 9.0, RPow(10, q));
  }

  // Digits below a power of ten that is read as v too: there is only one digit,
  // and the power is nearer.
  lemma PowerIsNearer(v: Double, length: nat, k: int, m: nat, q: int)
    requires v.IsFinitePositive() && 0 < length && m < Pow(10, length) && length + q <= k
    requires RoundsTo(RPow(10, k), v.d64)
    requires forall m: nat, q: int :: RoundsTo(DecimalValue(m, q), v.d64) ==> Pow(10, length - 1) <= m
    ensures length == 1
    ensures Distance(RPow(10, k), v.Value()) < Distance(DecimalValue(m, q), v.Value())
  {
    hide RPow, Pow, RoundsTo, Double.Value, Double.Upper, Distance, DecimalValue;
    OnlyOneDigit(v, length, k);
    PowOfTen();
    OneDigitBelow(m, q, k);
    AtMostUpper(v, RPow(10, k));
    NoTenFarAbove(v, k);
    RPowPos(10, k);
    TenIsNearer(v.Value(), DecimalValue(m, q), RPow(10, k));
  }

  lemma PowOfTen()
    ensures Pow(10, 0) == 1 && Pow(10, 1) == 10
  {
  }

  // The first digit of shortest digits is not zero.
  lemma AtLeastPowerOfTen(v: Double, digits: nat, length: nat, point: int)
    requires v.IsFinitePositive() && IsShortestOnGrid(v, digits, length, point)
    ensures RPow(10, point - 1) <= DecimalValue(digits, point - length)
  {
    hide RPow, Pow, RoundsTo, DecimalValue, NearestWithUnit;
    RPowPos(10, point - length);
    RPowNat(10, length - 1);
    RPowAdd(10, length - 1, point - length);
    DecimalIs(digits, point - length);
    RealMulLe(Pow(10, length - 1) as real, digits as real, RPow(10, point - length));
  }

  lemma BelowPowerOfTen(m: nat, length: nat, q: int)
    requires m < Pow(10, length)
    ensures DecimalValue(m, q) < RPow(10, length + q)
  {
    hide RPow, Pow;
    BelowPower(10, m, length, q);
  }

  lemma ShortestIsClosest(v: Double, digits: nat, length: nat, point: int, m: nat, q: int)
    requires v.IsFinitePositive() && IsShortestOnGrid(v, digits, length, point)
    requires m < Pow(10, length) && RoundsTo(DecimalValue(m, q), v.d64)
    ensures Distance(DecimalValue(digits, point - length), v.Value()) <= Distance(DecimalValue(m, q), v.Value())
  {
    hide RPow, Pow, RoundsTo, DecimalValue, Double.Value, Distance;
    if point - length <= q {
      DecimalRefine(m, q, point - length);
    } else {
      AtLeastPowerOfTen(v, digits, length, point);
      BelowPowerOfTen(m, length, q);
      RPowMono(10, length + q, point - 1);
      RoundsBetween(v, DecimalValue(m, q), RPow(10, point - 1), DecimalValue(digits, point - length));
      PowerIsNearer(v, length, point - 1, m, q);
      DecimalOne(point - 1);
    }
  }

  lemma ShortestOnGridIsShortest(v: Double, digits: nat, length: nat, point: int)
    requires v.IsFinitePositive() && IsShortestOnGrid(v, digits, length, point) && digits < Pow(10, length)
    ensures IsShortest(v, digits, length, point)
  {
    hide Pow, RoundsTo, DecimalValue, Double.Value, Distance, IsShortestOnGrid;
    forall m: nat, q: int | m < Pow(10, length) && RoundsTo(DecimalValue(m, q), v.d64)
      ensures Distance(DecimalValue(digits, point - length), v.Value()) <= Distance(DecimalValue(m, q), v.Value())
    {
      ShortestIsClosest(v, digits, length, point, m, q);
    }
  }

  // ---------- There is one ----------

  lemma SameLength(v: Double, a: nat, length: nat, point: int, b: nat, length': nat, point': int)
    requires v.IsFinitePositive() && IsShortest(v, a, length, point) && IsShortest(v, b, length', point')
    ensures length == length'
  {
    hide Pow, RoundsTo, DecimalValue, Double.Value, Distance, ClosestOfLength, NearestWithUnit;
    if length < length' { PowMono(10, length, length' - 1); }
    if length' < length { PowMono(10, length', length - 1); }
  }

  lemma PointNotSmaller(v: Double, a: nat, length: nat, point: int, b: nat, point': int)
    requires v.IsFinitePositive() && IsShortest(v, a, length, point) && IsShortest(v, b, length, point')
    ensures point' <= point
  {
    hide RPow, Pow, RoundsTo, DecimalValue, Double.Value, Distance, NearestWithUnit;
    if point < point' {
      PowOfTen();
      PowMono(10, 1, length);
      DecimalOne(point' - 1);
      AtLeastPowerOfTen(v, b, length, point');
      BelowPowerOfTen(a, length, point - length);
      RPowMono(10, point, point' - 1);
      RoundsBetween(v, DecimalValue(a, point - length), RPow(10, point' - 1), DecimalValue(b, point' - length));
      PowerIsNearer(v, length, point' - 1, a, point - length);
      assert false;
    }
  }

  // Shortest digits of one double have the same length and the same point.
  lemma SamePoint(v: Double, a: nat, length: nat, point: int, b: nat, length': nat, point': int)
    requires v.IsFinitePositive() && IsShortest(v, a, length, point) && IsShortest(v, b, length', point')
    ensures length == length' && point == point'
  {
    hide IsShortest;
    SameLength(v, a, length, point, b, length', point');
    PointNotSmaller(v, a, length, point, b, point');
    PointNotSmaller(v, b, length, point', a, point);
  }

  // ---------- Two equally near ones ----------

  lemma Neighbours(a: int, c: int, b: int, t: real, x: real, z: real, y: real, value: real)
    requires 0.0 < t && a < b && c == a + 1 && x == a as real * t && z == c as real * t && y == b as real * t
    requires Distance(x, value) == Distance(y, value)
    ensures x < value < y && 2.0 * value == x + y
    ensures c < b ==> x < z < y && Distance(z, value) < Distance(x, value)
    ensures c == b ==> x + y == (2 * a + 1) as real * t
  {
    ScaleLe(a, b, t);
    ScaleLe(a, c, t);
    ScaleLe(c, b, t);
    SumTimes(a as real, b as real, (2 * a + 1) as real, t);
  }

  lemma SumTimes(a: real, b: real, c: real, t: real)
    ensures c == a + b ==> a * t + b * t == c * t
  {
  }

  // Two nearest numbers with one last place are neighbours with v in the middle.
  lemma TieNeighbours(v: Double, a: int, b: int, q: int)
    requires v.IsFinitePositive() && a < b && NearestWithUnit(v, a, q)
    requires RoundsTo(DecimalValue(a, q), v.d64) && RoundsTo(DecimalValue(b, q), v.d64)
    requires Distance(DecimalValue(a, q), v.Value()) == Distance(DecimalValue(b, q), v.Value())
    ensures b == a + 1 && 2.0 * v.Value() == DecimalValue(2 * a + 1, q)
  {
    hide RPow, RoundsTo, Double.Value, Distance;
    RPowPos(10, q);
    var middle := DecimalValue(a + 1, q);
    Neighbours(a, a + 1, b, RPow(10, q), DecimalValue(a, q), middle, DecimalValue(b, q), v.Value());
    if a + 2 <= b {
      RoundsBetween(v, DecimalValue(a, q), middle, DecimalValue(b, q));
    }
  }

  lemma NotLess(v: Double, a: nat, b: nat, length: nat, point: int)
    requires v.IsFinitePositive() && IsShortest(v, a, length, point) && IsShortest(v, b, length, point)
    ensures b <= a
  {
    hide RPow, Pow, RoundsTo, DecimalValue, Double.Value, Distance, ClosestOfLength;
    if a < b {
      TieNeighbours(v, a, b, point - length);
      assert false;
    }
  }

  // The shortest digits and their point are a function of the double.
  lemma ShortestIsUnique(v: Double, a: nat, length: nat, point: int, b: nat, length': nat, point': int)
    requires v.IsFinitePositive() && IsShortest(v, a, length, point) && IsShortest(v, b, length', point')
    ensures a == b && length == length' && point == point'
  {
    hide IsShortest;
    SamePoint(v, a, length, point, b, length', point');
    NotLess(v, a, b, length, point);
    NotLess(v, b, a, length, point);
  }

  // What the documentation asks for: no larger number with the same last place
  // that reads back as v is as near.
  ghost predicate IsAwayFromZero(v: Double, digits: nat, exponent: int)
    requires v.IsFinitePositive()
  {
    forall m: int :: digits < m && RoundsTo(DecimalValue(m, exponent), v.d64)
      ==> Distance(DecimalValue(digits, exponent), v.Value()) < Distance(DecimalValue(m, exponent), v.Value())
  }

  lemma MiddleIsTie(v: Double, a: int, q: int)
    requires 2.0 * v.Value() == DecimalValue(2 * a + 1, q)
    ensures Distance(DecimalValue(a, q), v.Value()) == Distance(DecimalValue(a + 1, q), v.Value())
  {
    hide RPow, Double.Value;
    RPowPos(10, q);
    ScaleLe(a, a + 1, RPow(10, q));
    SumTimes(a as real, (a + 1) as real, (2 * a + 1) as real, RPow(10, q));
  }

  // The digits are the documented ones except exactly when they are even, v is in
  // the middle between them and the next number, and that reads back as v too.
  lemma DocumentedTie(v: Double, a: nat, length: nat, point: int)
    requires v.IsFinitePositive() && IsShortest(v, a, length, point)
    ensures IsAwayFromZero(v, a, point - length) <==>
      !(a % 2 == 0 && 2.0 * v.Value() == DecimalValue(2 * a + 1, point - length)
        && RoundsTo(DecimalValue(a + 1, point - length), v.d64))
  {
    hide RPow, Pow, RoundsTo, DecimalValue, Double.Value, Distance, ClosestOfLength;
    var q := point - length;
    if 2.0 * v.Value() == DecimalValue(2 * a + 1, q) { MiddleIsTie(v, a, q); }
    if !IsAwayFromZero(v, a, q) {
      var m: int :| a < m && RoundsTo(DecimalValue(m, q), v.d64)
        && Distance(DecimalValue(a, q), v.Value()) >= Distance(DecimalValue(m, q), v.Value());
      TieNeighbours(v, a, m, q);
    }
  }

  // ---------- Such a double: 2 + 2^-17 ----------

  const TIE: Double := Double(0x4000_0004_0000_0000)

  // Its value and boundaries in the unit that 2^-52 and 10^-16 are multiples of.
  const TIE_VALUE: int := 1374394777600000000000000000
  const TIE_UPPER: int := 1374394777600000152587890625
  const TIE_LOWER: int := 1374394777599999847412109375

  lemma TieUnits() returns (w: real)
    ensures 0.0 < w && RPow(10, -16) == 68719476736.0 * w && RPow(2, -52) == 152587890625.0 * w
  {
    hide RPow, Pow;
    w := RPow(10, -16) / 68719476736.0;
    RPowPos(10, -16);
    Two36();
    PowProduct(2, 5, 16);
    RPowNat(10, 16);
    RPowAdd(10, -16, 16);
    RPowZero(10);
    RPowNat(2, 36);
    RPowAdd(2, -52, 36);
    RPowNat(2, 16);
    RPowAdd(2, -16, 16);
    RPowZero(2);
    RealMul(Pow(2, 16), Pow(5, 16));
    UnitOfBoth(RPow(10, -16), RPow(2, -16), RPow(2, -52), Pow(2, 16) as real, w);
  }

  lemma UnitOfBoth(t: real, h: real, u: real, s: real, w: real)
    requires t == 68719476736.0 * w && t * (s * 152587890625.0) == 1.0 == h * s && u * 68719476736.0 == h && 0.0 < s
    ensures u == 152587890625.0 * w
  {
    assert s * h == s * (t * 152587890625.0);
    RealCancel(h, t * 152587890625.0, s);
  }

  lemma Two36()
    ensures Pow(2, 36) == 68719476736 && Pow(5, 16) == 152587890625 && Pow(10, 16) == 1_0000_0000_0000_0000
  {
    hide Pow;
    SmallTwosAndFives();
    PowAdd(2, 9, 9);
    PowAdd(2, 18, 18);
    PowAdd(5, 8, 8);
    PowAdd(10, 8, 8);
    TenTo8();
  }

  lemma SmallTwosAndFives()
    ensures Pow(2, 9) == 512 && Pow(5, 8) == 390625
  {
  }

  lemma TieLayout()
    ensures TIE.IsFinitePositive() && TIE.d64 % 2 == 0
    ensures TIE.Significand() == 0x10_0004_0000_0000 && TIE.Exponent() == -51 && !TIE.LowerBoundaryIsCloser()
  {
  }

  // Value and boundaries, and decimals of 17 digits, in a common unit.
  lemma TieValues(w: real)
    requires 0.0 < w && RPow(10, -16) == 68719476736.0 * w && RPow(2, -52) == 152587890625.0 * w
    ensures TIE.IsFinitePositive()
    ensures TIE.Value() == TIE_VALUE as real * w
    ensures TIE.Upper() == TIE_UPPER as real * w
    ensures Double(TIE.d64 - 1).Upper() == TIE_LOWER as real * w
    ensures forall m: int :: DecimalValue(m, -16) == (m * 68719476736) as real * w
  {
    hide RPow;
    TieLayout();
    TIE.LowerBoundary();
    RPowStep(2, -52);
    forall m: int ensures DecimalValue(m, -16) == (m * 68719476736) as real * w
    {
      RealMul(m, 68719476736);
      RealAssoc(m as real, 68719476736.0, w);
    }
  }

  lemma BetweenUnits(n: int, low: int, high: int, x: real, lower: real, upper: real, w: real)
    requires 0.0 < w && x == n as real * w && lower == low as real * w && upper == high as real * w
    ensures lower <= x <= upper <==> low <= n <= high
  {
    ScaleLe(low, n, w);
    ScaleLe(n, high, w);
  }

  lemma EvenRounds(v: Double, x: real)
    requires v.IsFinitePositive() && v.d64 % 2 == 0
    ensures RoundsTo(x, v.d64) <==> Double(v.d64 - 1).Upper() <= x <= v.Upper()
  {
    hide Double.Upper;
  }

  // What reads back as this double, in units of 10^-16, is one of four numbers.
  lemma TieRounds(m: int)
    ensures TIE.IsFinitePositive()
    ensures RoundsTo(DecimalValue(m, -16), TIE.d64) <==> 20000076293945311 <= m <= 20000076293945314
  {
    hide RPow, DecimalValue, Double.Value, Double.Upper, RoundsTo;
    var w := TieUnits();
    TieLayout();
    TieValues(w);
    var n := m * 68719476736;
    EvenRounds(TIE, DecimalValue(m, -16));
    BetweenUnits(n, TIE_LOWER, TIE_UPPER, DecimalValue(m, -16), Double(TIE.d64 - 1).Upper(), TIE.Upper(), w);
  }

  lemma TieIsLarge(m: nat, q: int)
    requires q < -16 && m < Pow(10, 16)
    ensures TIE.IsFinitePositive() && !RoundsTo(DecimalValue(m, q), TIE.d64)
  {
    hide RPow, Pow, DecimalValue, Double.Value, Double.Upper, RoundsTo;
    var w := TieUnits();
    TieLayout();
    TieValues(w);
    Two36();
    BelowPowerOfTen(m, 16, q);
    RPowMono(10, 16 + q, 0);
    RPowNat(10, 16);
    RPowAdd(10, 16, -16);
    RPowNat(10, 0);
    var one := 10000000000000000;
    DecimalIs(one, -16);
    assert DecimalValue(one, -16) == (one * 68719476736) as real * w;
    ScaleLe(one * 68719476736, TIE_LOWER, w);
    EvenRounds(TIE, DecimalValue(m, q));
  }

  // Sixteen digits are not enough.
  lemma TieHasSeventeen(m: nat, q: int)
    requires RoundsTo(DecimalValue(m, q), TIE.d64)
    ensures Pow(10, 16) <= m
  {
    hide RPow, Pow, DecimalValue, RoundsTo;
    Two36();
    if q < -16 {
      if m < Pow(10, 16) { TieIsLarge(m, q); }
    } else {
      DecimalRefine(m, q, -16);
      if q == -16 {
        PowZero(10);
      } else {
        PowStep(10, q + 15);
        TenDivides(m, Pow(10, q + 15), m * Pow(10, q + 16));
      }
      TieRounds(m * Pow(10, q + 16));
    }
  }

  lemma TieDistance(m: int, w: real)
    requires 0.0 < w && RPow(10, -16) == 68719476736.0 * w && RPow(2, -52) == 152587890625.0 * w
    ensures TIE.IsFinitePositive()
    ensures Distance(DecimalValue(m, -16), TIE.Value())
      == (if m * 68719476736 < TIE_VALUE then TIE_VALUE - m * 68719476736 else m * 68719476736 - TIE_VALUE) as real * w
  {
    hide RPow, DecimalValue, Double.Value;
    TieValues(w);
    var n := m * 68719476736;
    assert DecimalValue(m, -16) == n as real * w;
    ScaleLe(n, TIE_VALUE, w);
    ScaleLe(TIE_VALUE, n, w);
    assert (TIE_VALUE - n) as real == TIE_VALUE as real - n as real;
    assert (n - TIE_VALUE) as real == n as real - TIE_VALUE as real;
  }

  lemma TieNearest(m: int)
    requires m <= 20000076293945312 || 20000076293945313 <= m
    ensures TIE.IsFinitePositive()
    ensures Distance(DecimalValue(20000076293945312, -16), TIE.Value()) <= Distance(DecimalValue(m, -16), TIE.Value())
    ensures m == 20000076293945313 ==>
      Distance(DecimalValue(20000076293945312, -16), TIE.Value()) == Distance(DecimalValue(m, -16), TIE.Value())
  {
    hide RPow, DecimalValue, Double.Value, Distance;
    TieLayout();
    var w := TieUnits();
    TieDistance(m, w);
    TieDistance(20000076293945312, w);
    var n := m * 68719476736;
    var gap := if n < TIE_VALUE then TIE_VALUE - n else n - TIE_VALUE;
    ScaleLe(TIE_VALUE - 20000076293945312 * 68719476736, gap, w);
  }

  // The code gives the even one of two results, the documentation the other.
  lemma TieInput()
    ensures TIE.IsFinitePositive() && IsShortest(TIE, 20000076293945312, 17, 1)
    ensures RoundsTo(DecimalValue(20000076293945313, -16), TIE.d64)
    ensures Distance(DecimalValue(20000076293945312, -16), TIE.Value())
      == Distance(DecimalValue(20000076293945313, -16), TIE.Value())
    ensures !IsAwayFromZero(TIE, 20000076293945312, -16)
  {
    hide RPow, Pow, DecimalValue, Double.Value, Distance, RoundsTo, ClosestOfLength, IsShortest;
    TieLayout();
    TieRounds(20000076293945312);
    TieRounds(20000076293945313);
    TieNearest(20000076293945313);
    forall m: nat, q: int | RoundsTo(DecimalValue(m, q), TIE.d64)
      ensures Pow(10, 16) <= m
    {
      TieHasSeventeen(m, q);
    }
    forall m: int | RoundsTo(DecimalValue(m, -16), TIE.d64)
      ensures Distance(DecimalValue(20000076293945312, -16), TIE.Value()) <= Distance(DecimalValue(m, -16), TIE.Value())
    {
      TieNearest(m);
    }
    Two36();
    PowStep(10, 16);
    ShortestOnGridIsShortest(TIE, 20000076293945312, 17, 1);
  }
}
