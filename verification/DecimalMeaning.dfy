// What the integer facts about generated digits say about the double: its
// rounding boundaries, and decimals near it.
module DecimalMeaning {
  import opened Powers
  import opened Ieee
  import opened ShortestDigits
  import opened DigitGeneration

  // The decimal digits * 10^exponent.
  ghost function DecimalValue(digits: int, exponent: int): real
  {
    digits as real * RPow(10, exponent)
  }

  // The interval is that of v, in units where its denominator is 10^(point-1).
  ghost predicate Represents(g: Interval, v: Double, point: int, unit: real)
    requires v.IsFinitePositive()
  {
    && 0.0 < unit && g.d as real * unit == RPow(10, point - 1)
    && g.n as real * unit == v.Value()
    && v.Value() + g.plus as real * unit == v.Upper()
    && v.Value() - g.minus as real * unit == Double(v.d64 - 1).Upper()
    && (g.inclusive <==> v.d64 % 2 == 0)
  }

  lemma ScaleLe(a: int, b: int, unit: real)
    requires 0.0 < unit
    ensures a <= b <==> a as real * unit <= b as real * unit
    ensures a < b <==> a as real * unit < b as real * unit
  {
    if a < b {
      RealMulLt(a as real, b as real, unit);
    } else if b < a {
      RealMulLt(b as real, a as real, unit);
    }
  }

  lemma RealScaleLe(a: real, b: real, unit: real)
    requires 0.0 < unit
    ensures a <= b <==> a * unit <= b * unit
    ensures a < b <==> a * unit < b * unit
  {
    if a < b {
      RealMulLt(a, b, unit);
    } else if b < a {
      RealMulLt(b, a, unit);
    }
  }

  // e * d, counted in units, is the decimal e * 10^(point-1-j) times 10^j.
  lemma GridValue(g: Interval, v: Double, point: int, unit: real, j: nat, e: int)
    requires v.IsFinitePositive() && Represents(g, v, point, unit)
    ensures 0.0 < RPow(10, j)
    ensures (e * g.d) as real * unit == DecimalValue(e, point - 1 - j) * RPow(10, j)
  {
    hide RPow, Double.Value, Double.Upper;
    RPowPos(10, j);
    RealMul(e, g.d);
    RPowAdd(10, point - 1 - j, j);
    var x, d := e as real, g.d as real;
    RealAssoc(x, d, unit);
    RealAssoc(x, RPow(10, point - 1 - j), RPow(10, j));
  }

  lemma ScaledReal(a: int, p: nat, unit: real)
    ensures (a * p) as real * unit == (a as real * unit) * p as real
  {
    RealMul(a, p);
    var x, y := a as real, p as real;
    RealAssoc(x, y, unit);
    RealAssoc(x, unit, y);
  }

  // The digits seen so far lie between the boundaries exactly when the decimal
  // they denote would be read back as v.
  lemma GridPoint(g: Interval, v: Double, point: int, unit: real, j: nat, e: int)
    requires v.IsFinitePositive() && Represents(g, v, point, unit)
    ensures g.Scaled(j).Has(e * g.d) <==> RoundsTo(DecimalValue(e, point - 1 - j), v.d64)
  {
    hide RPow, Double.Value, Double.Upper, DecimalValue, Pow;
    GridValue(g, v, point, unit, j, e);
    RPowNat(10, j);
    var p := RPow(10, j);
    var y := DecimalValue(e, point - 1 - j);
    var s := g.Scaled(j);
    ScaledReal(g.n, Pow(10, j), unit);
    ScaledReal(g.plus, Pow(10, j), unit);
    ScaledReal(g.minus, Pow(10, j), unit);
    UpperSide(s.n, s.plus, e * g.d, unit, v.Value(), v.Upper(), y, p);
    LowerSide(s.n, s.minus, e * g.d, unit, v.Value(), Double(v.d64 - 1).Upper(), y, p);
  }

  lemma UpperSide(n: int, plus: int, x: int, unit: real, value: real, upper: real, y: real, p: real)
    requires 0.0 < unit && 0.0 < p
    requires n as real * unit == value * p && plus as real * unit == (upper - value) * p
    requires x as real * unit == y * p
    ensures x <= n + plus <==> y <= upper
    ensures x < n + plus <==> y < upper
  {
    ScaleLe(x, n + plus, unit);
    assert (n + plus) as real * unit == n as real * unit + plus as real * unit;
    assert value * p + (upper - value) * p == upper * p;
    RealScaleLe(y, upper, p);
  }

  lemma LowerSide(n: int, minus: int, x: int, unit: real, value: real, lower: real, y: real, p: real)
    requires 0.0 < unit && 0.0 < p
    requires n as real * unit == value * p && minus as real * unit == (value - lower) * p
    requires x as real * unit == y * p
    ensures n - minus <= x <==> lower <= y
    ensures n - minus < x <==> lower < y
  {
    ScaleLe(n - minus, x, unit);
    assert (n - minus) as real * unit == n as real * unit - minus as real * unit;
    assert value * p - (value - lower) * p == lower * p;
    RealScaleLe(lower, y, p);
  }

  lemma GridGap(g: Interval, v: Double, point: int, unit: real, j: nat, e: int)
    requires v.IsFinitePositive() && Represents(g, v, point, unit)
    ensures 0.0 < RPow(10, j)
    ensures Gap(e * g.d, g.Scaled(j).n) as real * unit == Distance(DecimalValue(e, point - 1 - j), v.Value()) * RPow(10, j)
  {
    hide RPow, Double.Value, Double.Upper, DecimalValue, Pow;
    GridValue(g, v, point, unit, j, e);
    RPowNat(10, j);
    ScaledReal(g.n, Pow(10, j), unit);
    var p, n, x := RPow(10, j), g.Scaled(j).n, e * g.d;
    var y := DecimalValue(e, point - 1 - j);
    ScaleLe(x, n, unit);
    RealScaleLe(y, v.Value(), p);
    assert (n - x) as real * unit == n as real * unit - x as real * unit;
    assert (x - n) as real * unit == x as real * unit - n as real * unit;
    assert (v.Value() - y) * p == v.Value() * p - y * p;
    assert (y - v.Value()) * p == y * p - v.Value() * p;
  }

  // ---------- Shortest decimals ----------

  // The digits read back as v; no decimal with fewer digits does; and of those
  // with the same unit none is nearer to v, and none as near if the digits are odd.
  ghost predicate IsShortestOnGrid(v: Double, digits: nat, length: nat, point: int)
    requires v.IsFinitePositive()
  {
    && 0 < length
    && RoundsTo(DecimalValue(digits, point - length), v.d64)
    && (forall m: nat, q: int :: RoundsTo(DecimalValue(m, q), v.d64) ==> Pow(10, length - 1) <= m)
    && NearestWithUnit(v, digits, point - length)
    && EvenAtTie(v, digits, point - length)
  }

  ghost predicate NearestWithUnit(v: Double, digits: int, exponent: int)
    requires v.IsFinitePositive()
  {
    forall m: int :: RoundsTo(DecimalValue(m, exponent), v.d64)
      ==> Distance(DecimalValue(digits, exponent), v.Value()) <= Distance(DecimalValue(m, exponent), v.Value())
  }

  ghost predicate EvenAtTie(v: Double, digits: int, exponent: int)
    requires v.IsFinitePositive()
  {
    forall m: int :: m != digits && RoundsTo(DecimalValue(m, exponent), v.d64)
      && Distance(DecimalValue(digits, exponent), v.Value()) == Distance(DecimalValue(m, exponent), v.Value())
      ==> digits % 2 == 0
  }

  lemma ShortestMeaning(g: Interval, v: Double, point: int, unit: real, length: nat, digits: nat)
    requires v.IsFinitePositive() && Represents(g, v, point, unit)
    requires g.Start() && g.Shortest(length, digits)
    ensures IsShortestOnGrid(v, digits, length, point)
  {
    hide RPow, Double.Value, Double.Upper, DecimalValue, Pow, RoundsTo, Represents, Interval.Scaled, Interval.Start, Interval.Has;
    GridPoint(g, v, point, unit, length - 1, digits);
    var exponent := point - length;
    forall m: int | RoundsTo(DecimalValue(m, exponent), v.d64)
      ensures Distance(DecimalValue(digits, exponent), v.Value()) <= Distance(DecimalValue(m, exponent), v.Value())
    {
      GridPoint(g, v, point, unit, length - 1, m);
      GridNearer(g, v, point, unit, length - 1, digits, m);
    }
    forall m: int | m != digits && RoundsTo(DecimalValue(m, exponent), v.d64)
      && Distance(DecimalValue(digits, exponent), v.Value()) == Distance(DecimalValue(m, exponent), v.Value())
      ensures digits % 2 == 0
    {
      GridPoint(g, v, point, unit, length - 1, m);
      GridAsNear(g, v, point, unit, length - 1, digits, m);
    }
    forall m: nat, q: int | RoundsTo(DecimalValue(m, q), v.d64)
      ensures Pow(10, length - 1) <= m
    {
      NoShorter(g, v, point, unit, length, digits, m, q);
    }
  }

  lemma UnitPositive(g: Interval, v: Double, point: int, unit: real)
    requires v.IsFinitePositive() && Represents(g, v, point, unit)
    ensures 0.0 < unit
  {
  }

  lemma GridNearer(g: Interval, v: Double, point: int, unit: real, j: nat, a: int, b: int)
    requires v.IsFinitePositive() && Represents(g, v, point, unit)
    requires Gap(a * g.d, g.Scaled(j).n) <= Gap(b * g.d, g.Scaled(j).n)
    ensures Distance(DecimalValue(a, point - 1 - j), v.Value()) <= Distance(DecimalValue(b, point - 1 - j), v.Value())
  {
    hide RPow, Double.Value, Double.Upper, DecimalValue, Pow, Interval.Scaled, Represents, Gap, Distance;
    assert 0.0 < unit by { UnitPositive(g, v, point, unit); }
    GridGap(g, v, point, unit, j, a);
    GridGap(g, v, point, unit, j, b);
    ScaleLe(Gap(a * g.d, g.Scaled(j).n), Gap(b * g.d, g.Scaled(j).n), unit);
    RealScaleLe(Distance(DecimalValue(a, point - 1 - j), v.Value()), Distance(DecimalValue(b, point - 1 - j), v.Value()), RPow(10, j));
  }

  lemma GridAsNear(g: Interval, v: Double, point: int, unit: real, j: nat, a: int, b: int)
    requires v.IsFinitePositive() && Represents(g, v, point, unit)
    requires Distance(DecimalValue(a, point - 1 - j), v.Value()) == Distance(DecimalValue(b, point - 1 - j), v.Value())
    ensures Gap(a * g.d, g.Scaled(j).n) == Gap(b * g.d, g.Scaled(j).n)
  {
    hide RPow, Double.Value, Double.Upper, DecimalValue, Pow, Interval.Scaled, Represents, Gap, Distance;
    assert 0.0 < unit by { UnitPositive(g, v, point, unit); }
    GridGap(g, v, point, unit, j, a);
    GridGap(g, v, point, unit, j, b);
    ScaleLe(Gap(a * g.d, g.Scaled(j).n), Gap(b * g.d, g.Scaled(j).n), unit);
    ScaleLe(Gap(b * g.d, g.Scaled(j).n), Gap(a * g.d, g.Scaled(j).n), unit);
  }

  // A decimal with a larger unit lies on the coarser grid.
  lemma DecimalRefine(m: int, q: int, to: int)
    requires to <= q
    ensures DecimalValue(m, q) == DecimalValue(m * Pow(10, q - to), to)
  {
    hide RPow, Pow;
    RPowAdd(10, q - to, to);
    RPowNat(10, q - to);
    RealMul(m, Pow(10, q - to));
    RealAssoc(m as real, Pow(10, q - to) as real, RPow(10, to));
  }

  lemma NoShorter(g: Interval, v: Double, point: int, unit: real, length: nat, digits: nat, m: nat, q: int)
    requires v.IsFinitePositive() && Represents(g, v, point, unit)
    requires g.Start() && g.Shortest(length, digits) && RoundsTo(DecimalValue(m, q), v.d64)
    ensures Pow(10, length - 1) <= m
  {
    hide RPow, Double.Value, Double.Upper, DecimalValue, Pow, RoundsTo, Represents, Interval.Scaled, Interval.Start, Interval.Has;
    if length == 1 {
      PowZero(10);
      NotZero(g, v, point, unit, m, q);
    } else if m < Pow(10, length - 1) {
      var grid := point - length + 1;
      if grid <= q {
        DecimalRefine(m, q, grid);
        GridPoint(g, v, point, unit, length - 2, m * Pow(10, q - grid));
      } else {
        BelowPower(10, m, length - 1, q);
        DecimalIs(m, q);
        RPowMono(10, length - 1 + q, point - 1);
        OneRoundsToo(g, v, point, unit, DecimalValue(m, q));
        DecimalRefine(1, point - 1, grid);
        DecimalOne(point - 1);
        GridPoint(g, v, point, unit, length - 2, 1 * Pow(10, length - 2));
      }
    }
  }

  lemma DecimalIs(m: int, q: int)
    ensures DecimalValue(m, q) == m as real * RPow(10, q)
  {
  }

  lemma DecimalOne(q: int)
    ensures DecimalValue(1, q) == RPow(10, q)
  {
  }

  lemma NotZero(g: Interval, v: Double, point: int, unit: real, m: nat, q: int)
    requires v.IsFinitePositive() && Represents(g, v, point, unit) && g.Start()
    requires RoundsTo(DecimalValue(m, q), v.d64)
    ensures 0 < m
  {
    hide RPow, Double.Value, Double.Upper, Interval.Scaled;
    ScaleLe(g.minus, g.n, unit);
  }

  // When something below 10^(point-1) rounds to v, that power does so too.
  lemma OneRoundsToo(g: Interval, v: Double, point: int, unit: real, x: real)
    requires v.IsFinitePositive() && Represents(g, v, point, unit) && g.Start()
    requires RoundsTo(x, v.d64) && x < RPow(10, point - 1)
    ensures RoundsTo(RPow(10, point - 1), v.d64)
  {
    hide RPow, Double.Value, Double.Upper, Interval.Scaled;
    ScaleLe(g.d, g.n + g.plus, unit);
    assert (g.n + g.plus) as real * unit == g.n as real * unit + g.plus as real * unit;
  }

  // ---------- Rounding to a given number of digits ----------

  // The nearest integer, halves upwards.
  ghost function RoundHalfUp(x: real): int { (x + 0.5).Floor }

  // v in units of the last of 'places' digits after the point.
  ghost function InPlaces(v: Double, places: int): real { v.Value() * RPow(10, places) }

  lemma InPlacesIs(v: Double, places: int, x: real)
    requires x == v.Value() * RPow(10, places)
    ensures InPlaces(v, places) == x
  {
  }

  // The digits of v rounded to 'places' digits after the point.
  ghost predicate IsFixed(v: Double, places: int, digits: nat, exponent: int)
  {
    DecimalValue(digits, exponent) == DecimalValue(RoundHalfUp(InPlaces(v, places)), -places)
  }

  // 10^(k-1) <= v < 10^k.
  ghost predicate HasMagnitude(v: Double, k: int)
  {
    RPow(10, k - 1) <= v.Value() && v.Value() < RPow(10, k)
  }

  // v rounded to 'count' significant digits.
  ghost predicate IsPrecise(v: Double, count: nat, digits: nat, point: int)
  {
    exists k: int :: HasMagnitude(v, k) && IsFixed(v, count - k, digits, point - count)
  }

  // n/d counts units of 10^(point-1) of v.
  ghost predicate IsFraction(n: nat, d: nat, v: Double, point: int, unit: real)
  {
    0.0 < unit && 0 < d && d as real * unit == RPow(10, point - 1) && n as real * unit == v.Value()
  }

  lemma HalfUpIsRounding(n: nat, d: nat, x: real)
    requires 0 < d && n as real == x * d as real
    ensures HalfUp(n, d) == RoundHalfUp(x)
  {
    hide HalfUp;
    var q := HalfUp(n, d);
    HalfUpBounds(n, d, q);
    RealMul(q, 2 * d);
    RealMul(q + 1, 2 * d);
    var b, u := (2 * n + d) as real, (2 * d) as real;
    MiddleScaled(x, d as real, u);
    assert b == 2.0 * n as real + d as real;
    FloorBetween(x + 0.5, q as real, (q + 1) as real, u, b);
  }

  lemma MiddleScaled(x: real, z: real, u: real)
    requires u == 2.0 * z
    ensures (x + 0.5) * u == 2.0 * (x * z) + z
  {
  }

  lemma HalfUpBounds(n: nat, d: nat, q: nat)
    requires 0 < d && q == HalfUp(n, d)
    ensures q * (2 * d) <= 2 * n + d < (q + 1) * (2 * d)
  {
    DivMod(2 * n + d, 2 * d);
    assert (q + 1) * (2 * d) == q * (2 * d) + 2 * d;
  }

  lemma FloorBetween(x: real, y: real, z: real, u: real, b: real)
    requires 0.0 < u && y * u <= b && b < z * u && b == x * u
    ensures y <= x < z
  {
    RealScaleLe(y, x, u);
    RealScaleLe(x, z, u);
  }

  // v scaled by 10^places, as a fraction over d or over a larger denominator.
  lemma ScaledFraction(n: nat, d: nat, v: Double, point: int, unit: real, places: int)
    requires IsFraction(n, d, v, point, unit)
    ensures 1 <= point + places ==>
      0 <= n * Pow(10, point + places - 1)
      && (n * Pow(10, point + places - 1)) as real == v.Value() * RPow(10, places) * d as real
    ensures point + places <= 0 ==>
      0 < d * Pow(10, 1 - point - places)
      && n as real == v.Value() * RPow(10, places) * (d * Pow(10, 1 - point - places)) as real
  {
    hide Pow, RPow, Double.Value;
    var w := v.Value() * RPow(10, places);
    RPowAdd(10, point - 1, places);
    var x, y, z := n as real, d as real, RPow(10, places);
    RealSwap(w, y, unit);
    assert w * (y * unit) == v.Value() * (z * (y * unit)) by { RealAssoc(v.Value(), z, y * unit); }
    if 1 <= point + places {
      var k := point + places - 1;
      RPowNat(10, k);
      RealMul(n, Pow(10, k));
      PowPos(10, k);
      MulLe(0, n, Pow(10, k));
      RealSwap(x, Pow(10, k) as real, unit);
      RealCancel((n * Pow(10, k)) as real, w * y, unit);
    } else {
      var k := 1 - point - places;
      RPowNat(10, k);
      PowPos(10, k);
      MulLe(1, d, Pow(10, k));
      RealMul(d, Pow(10, k));
      RPowAdd(10, k, point - 1 + places);
      RPowZero(10);
      var p := Pow(10, k) as real;
      UnitProduct(v.Value(), z, y, p, unit);
      RealCancel(x, w * (d * Pow(10, k)) as real, unit);
    }
  }

  lemma RealSwap(a: real, b: real, c: real)
    ensures a * b * c == a * c * b == c * (a * b) == a * (b * c)
  {
  }

  lemma UnitProduct(v: real, z: real, y: real, p: real, unit: real)
    requires p * (y * unit * z) == 1.0
    ensures unit * (v * z * (y * p)) == v
  {
    assert unit * (v * z * (y * p)) == v * (p * (y * unit * z));
  }
}
