// external/double-conversion/fast-dtoa.cc: Grisu3, the shortest digits or a
// refusal.
module FastDtoa {
  import opened Powers
  import opened Decimal
  import opened DecimalMeaning
  import opened ClosestDigits
  import opened DiyFps
  import opened DigitGeneration
  import opened Ieee
  import opened CachedPowers
  import opened Logarithms
  import PowerTable
  import opened Rounding
  import opened Approximation
  import opened ErrorBounds
  import opened Weeding
  import opened GrisuDigits

  // z in scaled units.
  ghost function Units(c: real, z: real): real { c * z }

  // The size of the scaled units.
  ghost function Slope(mk: int, unit: nat, one: nat): real { RPow(10, mk) * (unit * one) as real }

  lemma SlopeIs(mk: int, unit: nat, one: nat, p: real)
    requires p == RPow(10, mk)
    ensures Slope(mk, unit, one) == p * (unit * one) as real
  {
  }

  // The scaled number and its boundaries are where the arithmetic takes them to
  // be, give or take one unit.
  ghost predicate Located(v: Double, c: real, top: int, distance: int, interval: int, unit: int)
    requires v.IsFinitePositive()
  {
    && 0.0 < c
    && (distance - unit) as real < top as real - Units(c, v.Value()) < (distance + unit) as real
    && 0.0 < top as real - Units(c, v.Upper()) < (2 * unit) as real
    && (interval - 2 * unit) as real < top as real - Units(c, Double(v.d64 - 1).Upper()) < interval as real
  }

  // The decimals with the exponent of the last digit are the multiples of step.
  ghost predicate Steps(c: real, exponent: int, step: int)
  {
    0.0 < c && c * RPow(10, exponent) == step as real
  }

  lemma StepAt(c: real, exponent: int, step: int, m: int)
    requires Steps(c, exponent, step)
    ensures c * DecimalValue(m, exponent) == (m * step) as real
  {
    hide RPow;
    RealMul(m, step);
    var p := RPow(10, exponent);
    assert c * (m as real * p) == m as real * (c * p);
  }

  lemma ScaledOrder(c: real, x: real, y: real)
    requires 0.0 < c
    ensures x < y <==> c * x < c * y
    ensures x <= y <==> c * x <= c * y
  {
    RealScaleLe(x, y, c);
  }

  // Numbers that round to v are strictly inside the unsafe interval.
  lemma RoundingIsInside(v: Double, c: real, top: int, distance: int, interval: int, unit: int, z: real)
    requires v.IsFinitePositive() && Located(v, c, top, distance, interval, unit) && RoundsTo(z, v.d64)
    ensures 0.0 < top as real - c * z < interval as real
  {
    hide RPow, Double.Value, Double.Upper;
    ScaledOrder(c, z, v.Upper());
    ScaledOrder(c, Double(v.d64 - 1).Upper(), z);
  }

  // Numbers in the safe interval round to v.
  lemma SafeRounds(v: Double, c: real, top: int, distance: int, interval: int, unit: int, z: real)
    requires v.IsFinitePositive() && Located(v, c, top, distance, interval, unit)
    requires (2 * unit) as real <= top as real - c * z <= (interval - 2 * unit) as real
    ensures RoundsTo(z, v.d64)
  {
    hide RPow, Double.Value, Double.Upper, Units;
    UnitsAre(c, z);
    UnitsOrder(c, z, v.Upper());
    UnitsOrder(c, Double(v.d64 - 1).Upper(), z);
  }

  lemma UnitsAre(c: real, z: real)
    ensures Units(c, z) == c * z
  {
  }

  lemma ScaledDistance(c: real, x: real, y: real, top: int)
    requires 0.0 < c
    ensures Distance(top as real - c * x, top as real - c * y) == c * Distance(x, y)
  {
    ScaledOrder(c, x, y);
    ScaledOrder(c, y, x);
  }

  lemma NearerInUnits(c: real, x: real, y: real, z: real, top: int)
    requires 0.0 < c && Distance(top as real - c * x, top as real - c * z) < Distance(top as real - c * y, top as real - c * z)
    ensures Distance(x, z) < Distance(y, z)
  {
    hide Distance;
    ScaledDistance(c, x, z, top);
    ScaledDistance(c, y, z, top);
    ScaledOrder(c, Distance(x, z), Distance(y, z));
  }

  // No multiple of ten steps is inside the unsafe interval, because the digits
  // did not stop one place earlier.
  lemma NoTens(start: seq<char>, rest0: nat, top: nat, step: nat, interval: nat, n: int)
    requires Stopped(start, rest0, top, step, interval) && top - n * (10 * step) < interval
    ensures top < n * (10 * step)
  {
    hide Pow;
    NoTensAt(DecVal(start[..|start| - 1]), DigitValue(start[|start| - 1]), rest0, top, step, interval, n);
  }

  lemma NoTensAt(b: nat, l: nat, rest0: nat, top: nat, step: nat, interval: nat, n: int)
    requires (10 * b + l) * step + rest0 == top && rest0 < step && l <= 9 && interval <= rest0 + l * step
    requires top - n * (10 * step) < interval
    ensures top < n * (10 * step)
  {
    TensApart(b, l, step);
    var s := 10 * step;
    if n <= b {
      MulLe(n, b, s);
    } else {
      MulLe(b + 1, n, s);
      MulLe(l, 9, step);
    }
  }

  lemma TensApart(b: int, l: int, step: int)
    ensures (10 * b + l) * step == b * (10 * step) + l * step
    ensures (b + 1) * (10 * step) == b * (10 * step) + 10 * step
  {
  }

  lemma TopOf(start: seq<char>, rest0: nat, top: nat, step: nat, interval: nat)
    requires Stopped(start, rest0, top, step, interval)
    ensures IsDigits(start) && 0 < |start| <= MAXIMAL_LENGTH && rest0 < step && DecVal(start) * step + rest0 == top
    ensures Pow(10, |start| - 1) <= DecVal(start)
  {
  }

  // The accepted digits lie in the safe interval.
  lemma AcceptedRounds(v: Double, grid: Grid, digits: seq<char>, tooHigh: nat, interval: nat, distance: nat,
                       c: real, exponent: int)
    requires v.IsFinitePositive() && grid.Accepts(digits, tooHigh, interval, distance)
    requires Located(v, c, tooHigh * grid.unit, distance * grid.unit, interval * grid.unit, grid.unit)
    requires Steps(c, exponent, grid.tenKappa)
    ensures RoundsTo(DecimalValue(DecVal(digits), exponent), v.d64)
  {
    hide DecVal, Pow, RPow, Double.Value, Double.Upper, DecimalValue, RoundsTo, Steps, Stopped, Settled, Lowered, Located;
    var step, top := grid.tenKappa, tooHigh * grid.unit;
    TopOf(grid.start, grid.rest0, top, step, interval * grid.unit);
    StepAt(c, exponent, step, DecVal(digits));
    StepsBelow(DecVal(grid.start), grid.t, step, grid.rest0, top);
    SafeRounds(v, c, top, distance * grid.unit, interval * grid.unit, grid.unit, DecimalValue(DecVal(digits), exponent));
  }

  lemma StepsBelow(b: int, t: int, step: int, rest0: int, top: int)
    requires b * step + rest0 == top
    ensures top - (b - t) * step == rest0 + t * step
  {
  }

  // Every other number with the same last place that rounds to v is further
  // from it.
  lemma AcceptedIsNearest(v: Double, grid: Grid, digits: seq<char>, tooHigh: nat, interval: nat, distance: nat,
                          c: real, exponent: int, m: int)
    requires v.IsFinitePositive() && grid.Accepts(digits, tooHigh, interval, distance) && 0 < grid.unit
    requires Located(v, c, tooHigh * grid.unit, distance * grid.unit, interval * grid.unit, grid.unit)
    requires Steps(c, exponent, grid.tenKappa) && RoundsTo(DecimalValue(m, exponent), v.d64) && m != DecVal(digits)
    ensures Distance(DecimalValue(DecVal(digits), exponent), v.Value()) < Distance(DecimalValue(m, exponent), v.Value())
  {
    hide DecVal, Pow, RPow, Double.Value, Double.Upper, DecimalValue, RoundsTo, Steps, Stopped, Settled, Lowered, Located;
    var top := tooHigh * grid.unit;
    TopOf(grid.start, grid.rest0, top, grid.tenKappa, interval * grid.unit);
    NearestStep(v, grid.rest0, grid.t, grid.tenKappa, top, interval * grid.unit, distance * grid.unit, grid.unit,
                c, exponent, DecVal(grid.start), DecVal(digits), m);
  }

  lemma NearestStep(v: Double, rest0: nat, t: nat, step: nat, top: nat, interval: nat, distance: nat, unit: nat,
                    c: real, exponent: int, b: nat, d: nat, m: int)
    requires v.IsFinitePositive() && Located(v, c, top, distance, interval, unit) && 0 < unit
    requires Settled(rest0, t, step, interval, distance - unit, distance + unit)
    requires b * step + rest0 == top && rest0 < step && d + t == b
    requires Steps(c, exponent, step) && RoundsTo(DecimalValue(m, exponent), v.d64) && m != d
    ensures Distance(DecimalValue(d, exponent), v.Value()) < Distance(DecimalValue(m, exponent), v.Value())
  {
    hide RPow, Double.Value, Double.Upper, DecimalValue, RoundsTo, Steps, Settled, Distance;
    var x, y, z := DecimalValue(d, exponent), DecimalValue(m, exponent), v.Value();
    StepAt(c, exponent, step, d);
    StepAt(c, exponent, step, m);
    StepsBelow(b, t, step, rest0, top);
    StepsBelow(b, b - m, step, rest0, top);
    RoundingIsInside(v, c, top, distance, interval, unit, y);
    NearerSteps(rest0, t, step, interval, distance, unit, b - m, top, d * step, m * step, c * z, c * x, c * y);
    NearerInUnits(c, x, y, z, top);
  }

  // In units below the top.
  lemma NearerSteps(rest0: nat, t: nat, step: nat, interval: nat, distance: nat, unit: nat, s: int, top: int,
                    x: int, y: int, z: real, cx: real, cy: real)
    requires Settled(rest0, t, step, interval, distance - unit, distance + unit) && rest0 < step && 0 < unit && s != t
    requires top - x == rest0 + t * step && top - y == rest0 + s * step && cx == x as real && cy == y as real
    requires (distance - unit) as real < top as real - z < (distance + unit) as real
    requires 0.0 < top as real - cy < interval as real
    ensures Distance(top as real - cx, top as real - z) < Distance(top as real - cy, top as real - z)
  {
    hide Settled, Distance;
    SettledIsClosest(rest0, t, step, interval, distance - unit, distance + unit, s, top as real - z);
    assert (rest0 + t * step) as real == top as real - cx;
    assert (rest0 + s * step) as real == top as real - cy;
  }

  lemma AcceptedStart(grid: Grid, digits: seq<char>, tooHigh: nat, interval: nat, distance: nat)
    requires grid.Accepts(digits, tooHigh, interval, distance)
    ensures |grid.start| == |digits|
    ensures Stopped(grid.start, grid.rest0, tooHigh * grid.unit, grid.tenKappa, interval * grid.unit)
  {
  }

  // No number with fewer digits rounds to v.
  lemma AcceptedIsShortest(v: Double, grid: Grid, digits: seq<char>, tooHigh: nat, interval: nat, distance: nat,
                           c: real, exponent: int, m: nat, q: int)
    requires v.IsFinitePositive() && grid.Accepts(digits, tooHigh, interval, distance)
    requires Located(v, c, tooHigh * grid.unit, distance * grid.unit, interval * grid.unit, grid.unit)
    requires Steps(c, exponent, grid.tenKappa) && RoundsTo(DecimalValue(m, q), v.d64)
    ensures Pow(10, |digits| - 1) <= m
  {
    hide DecVal, Pow, RPow, Double.Value, Double.Upper, DecimalValue, RoundsTo, Steps, Stopped, Grid.Accepts, Located;
    AcceptedStart(grid, digits, tooHigh, interval, distance);
    var step, top, inside := grid.tenKappa, tooHigh * grid.unit, interval * grid.unit;
    TopOf(grid.start, grid.rest0, top, step, inside);
    RoundingIsInside(v, c, top, distance * grid.unit, inside, grid.unit, DecimalValue(m, q));
    if m < Pow(10, |digits| - 1) {
      if q > exponent {
        CoarserIsOutside(grid.start, grid.rest0, top, step, inside, c, exponent, m, q);
      } else if |digits| == 1 {
        PowZero(10);
        ZeroDoesNotRound(v, q);
      } else {
        ShorterIsOutside(grid.start, grid.rest0, top, step, inside, c, exponent, m, q);
      }
    }
  }

  lemma CoarserIsOutside(start: seq<char>, rest0: nat, top: nat, step: nat, interval: nat, c: real, exponent: int, m: nat, q: int)
    requires Stopped(start, rest0, top, step, interval) && Steps(c, exponent, step) && exponent < q
    ensures !(0.0 < top as real - c * DecimalValue(m, q) < interval as real)
  {
    hide Pow, RPow, DecimalValue, Stopped, Steps;
    var n := m * Pow(10, q - exponent - 1);
    DecimalRefine(m, q, exponent + 1);
    TenStepAt(c, exponent, step, n);
    if top - n * (10 * step) < interval {
      NoTens(start, rest0, top, step, interval, n);
    }
  }

  lemma ShorterIsOutside(start: seq<char>, rest0: nat, top: nat, step: nat, interval: nat, c: real, exponent: int, m: nat, q: int)
    requires Stopped(start, rest0, top, step, interval) && Steps(c, exponent, step) && q <= exponent
    requires 2 <= |start| && m < Pow(10, |start| - 1)
    ensures interval as real <= top as real - c * DecimalValue(m, q)
  {
    hide Pow, RPow, DecimalValue, Stopped, Steps, DecVal;
    TopOf(start, rest0, top, step, interval);
    var n := Pow(10, |start| - 2);
    PowStep(10, |start| - 2);
    MulLe(10 * n, DecVal(start), step);
    assert n * (10 * step) == 10 * n * step;
    ShorterBelow(m, q, |start|, exponent);
    TenStepAt(c, exponent, step, n);
    ScaledOrder(StepsPositive(c, exponent, step), DecimalValue(m, q), DecimalValue(n, exponent + 1));
    if top - n * (10 * step) < interval {
      NoTens(start, rest0, top, step, interval, n);
    }
  }

  ghost function StepsPositive(c: real, exponent: int, step: int): (r: real)
    requires Steps(c, exponent, step)
    ensures r == c && 0.0 < r
  {
    c
  }

  lemma TenStepAt(c: real, exponent: int, step: int, n: int)
    requires Steps(c, exponent, step)
    ensures c * DecimalValue(n, exponent + 1) == (n * (10 * step)) as real
  {
    hide RPow, DecimalValue, Steps;
    RefineByTen(n, exponent);
    StepAt(c, exponent, step, 10 * n);
    assert 10 * n * step == n * (10 * step);
  }

  lemma RefineByTen(n: int, exponent: int)
    ensures DecimalValue(n, exponent + 1) == DecimalValue(10 * n, exponent)
  {
    hide RPow;
    RPowStep(10, exponent);
    RealMul(10, n);
  }

  lemma ZeroDoesNotRound(v: Double, q: int)
    requires v.IsFinitePositive()
    ensures !RoundsTo(DecimalValue(0, q), v.d64)
  {
    hide Double.Upper, RPow;
    UpperPositive(Double(v.d64 - 1));
  }

  lemma UpperPositive(d: Double)
    ensures 0.0 < d.Upper()
  {
    hide RPow;
    RPowPos(2, d.Exponent() - 1);
    var p, m := RPow(2, d.Exponent() - 1), (2 * d.Significand() + 1) as real;
    RealMulLt(0.0, m, p);
    assert d.Upper() == m * p;
  }

  // A number of fewer digits that does not reach beyond the last place is below
  // the smallest one with all of them.
  lemma ShorterBelow(m: nat, q: int, length: nat, exponent: int)
    requires 2 <= length && m < Pow(10, length - 1) && q <= exponent
    ensures DecimalValue(m, q) < DecimalValue(Pow(10, length - 2), exponent + 1)
  {
    hide Pow, RPow;
    BelowPower(10, m, length - 1, q);
    RPowMono(10, length - 1 + q, length - 1 + exponent);
    RPowNat(10, length - 2);
    RPowAdd(10, length - 2, exponent + 1);
  }

  lemma AcceptsHas(grid: Grid, digits: seq<char>, tooHigh: nat, interval: nat, distance: nat)
    requires grid.Accepts(digits, tooHigh, interval, distance)
    ensures IsDigits(digits) && 0 < |digits| <= MAXIMAL_LENGTH
  {
  }

  // Every accepted result is a shortest one, without an equally near other one.
  lemma AcceptedMeaning(v: Double, grid: Grid, digits: seq<char>, tooHigh: nat, interval: nat, distance: nat,
                        c: real, exponent: int)
    requires v.IsFinitePositive() && grid.Accepts(digits, tooHigh, interval, distance) && 0 < grid.unit
    requires Located(v, c, tooHigh * grid.unit, distance * grid.unit, interval * grid.unit, grid.unit)
    requires Steps(c, exponent, grid.tenKappa)
    ensures IsDigits(digits) && IsUniqueShortest(v, DecVal(digits), |digits|, exponent + |digits|)
  {
    hide DecVal, Pow, RPow, Double.Value, Double.Upper, DecimalValue, RoundsTo, Steps, Located, Distance, Grid.Accepts, IsShortest;
    AcceptsHas(grid, digits, tooHigh, interval, distance);
    AcceptedRounds(v, grid, digits, tooHigh, interval, distance, c, exponent);
    forall m: nat, q: int | RoundsTo(DecimalValue(m, q), v.d64)
      ensures Pow(10, |digits| - 1) <= m
    {
      AcceptedIsShortest(v, grid, digits, tooHigh, interval, distance, c, exponent, m, q);
    }
    forall m: int | m != DecVal(digits) && RoundsTo(DecimalValue(m, exponent), v.d64)
      ensures Distance(DecimalValue(DecVal(digits), exponent), v.Value()) < Distance(DecimalValue(m, exponent), v.Value())
    {
      AcceptedIsNearest(v, grid, digits, tooHigh, interval, distance, c, exponent, m);
    }
    DecBound(digits);
    UniqueIsNearest(v, DecVal(digits), exponent);
    ShortestOnGridIsShortest(v, DecVal(digits), |digits|, exponent + |digits|);
  }

  lemma UniqueIsNearest(v: Double, digits: nat, exponent: int)
    requires v.IsFinitePositive() && UniquelyNearest(v, digits, exponent)
    ensures NearestWithUnit(v, digits, exponent) && EvenAtTie(v, digits, exponent)
  {
    hide DecimalValue, RoundsTo, Distance, Double.Value;
  }

  // ---------- Scaling the number and its boundaries ----------

  // A number known to one unit of 2^e, in units of which one has 'unit' parts.
  lemma UnitsOf(x: real, f: nat, e: int, unit: nat, one: nat)
    requires StrictlyWithin(x, f, 8, Eighth(e)) && 0 < unit && e <= 0 && one == Pow(2, 0 - e)
    ensures ((f - 1) * unit) as real < x * (unit * one) as real < ((f + 1) * unit) as real
  {
    hide Pow, RPow, Eighth;
    EighthOfOne(e, one);
    EighthIs(e);
    PowPos(2, 0 - e);
    var w := Eighth(e);
    assert (8 * f - 8) as real * w < x < (8 * f + 8) as real * w;
    EightUnits(f - 1, w, one as real, x, unit as real);
    EightUnits(f + 1, w, one as real, x, unit as real);
    RealMul(unit, one);
    RealMul(f - 1, unit);
    RealMul(f + 1, unit);
  }

  lemma EighthOfOne(e: int, one: nat)
    requires e <= 0 && one == Pow(2, 0 - e)
    ensures 8.0 * Eighth(e) * one as real == 1.0
  {
    hide Pow, RPow;
    RPowNat(2, 0 - e);
    RPowAdd(2, e, 0 - e);
    RPowStep(2, e - 1);
    RPowStep(2, e - 2);
    RPowStep(2, e - 3);
    RPowNat(2, 0);
    PowZero(2);
  }

  lemma EightUnits(k: int, w: real, one: real, x: real, unit: real)
    requires 8.0 * w * one == 1.0 && 0.0 < unit && 0.0 < one
    ensures (8 * k) as real * w < x ==> k as real * unit < x * (unit * one)
    ensures x < (8 * k) as real * w ==> x * (unit * one) < k as real * unit
  {
    var s := unit * one;
    RealMulLt(0.0, unit, one);
    assert (8 * k) as real * w * s == k as real * unit by {
      Regrouped(k as real, w, one, unit);
    }
    RealScaleLe((8 * k) as real * w, x, s);
    RealScaleLe(x, (8 * k) as real * w, s);
  }

  lemma Regrouped(k: real, w: real, one: real, unit: real)
    requires 8.0 * w * one == 1.0
    ensures 8.0 * k * w * (unit * one) == k * unit
  {
    assert 8.0 * k * w * (unit * one) == k * unit * (8.0 * w * one);
  }

  lemma LocatedByError(v: Double, mk: int, low: nat, w: nat, high: nat, e: int, unit: nat, one: nat)
    requires v.IsFinitePositive() && e <= 0 && one == Pow(2, 0 - e) && 0 < unit && low <= w <= high
    requires StrictlyWithin(TimesTens(v.Value(), mk), w, 8, Eighth(e))
    requires StrictlyWithin(TimesTens(v.Upper(), mk), high, 8, Eighth(e))
    requires StrictlyWithin(TimesTens(Double(v.d64 - 1).Upper(), mk), low, 8, Eighth(e))
    ensures Located(v, Slope(mk, unit, one), (high + 1) * unit, (high + 1 - w) * unit, (high - low + 2) * unit, unit)
  {
    hide Pow, RPow, Eighth, TimesTens, Double.Value, Double.Upper, StrictlyWithin, Slope, Units;
    var c := Slope(mk, unit, one);
    var low0, low1 := LocatedOne(Double(v.d64 - 1).Upper(), mk, low, e, unit, one);
    var w0, w1 := LocatedOne(v.Value(), mk, w, e, unit, one);
    var high0, high1 := LocatedOne(v.Upper(), mk, high, e, unit, one);
    ScalePositive(mk, unit, one, e);
    Differences(low, w, high, unit);
  }

  lemma ScalePositive(mk: int, unit: nat, one: nat, e: int)
    requires 0 < unit && e <= 0 && one == Pow(2, 0 - e)
    ensures 0.0 < Slope(mk, unit, one)
  {
    hide Pow, RPow;
    RPowPos(10, mk);
    PowPos(2, 0 - e);
    MulLe(1, unit, one);
    var p := RPow(10, mk);
    RealMulLt(0.0, p, (unit * one) as real);
    SlopeIs(mk, unit, one, p);
  }

  lemma LocatedOne(z: real, mk: int, f: nat, e: int, unit: nat, one: nat) returns (below: int, above: int)
    requires e <= 0 && one == Pow(2, 0 - e) && 0 < unit
    requires StrictlyWithin(TimesTens(z, mk), f, 8, Eighth(e))
    ensures below == (f - 1) * unit && above == (f + 1) * unit
    ensures below as real < Units(Slope(mk, unit, one), z) < above as real
  {
    hide Pow, RPow, Eighth, TimesTens, StrictlyWithin, Slope;
    var p := RPow(10, mk);
    UnitsOf(TimesTens(z, mk), f, e, unit, one);
    TimesTensIs(z, mk, p);
    SlopeIs(mk, unit, one, p);
    Commuted(z, p, (unit * one) as real);
    below, above := (f - 1) * unit, (f + 1) * unit;
  }

  lemma Commuted(z: real, p: real, s: real)
    ensures z * p * s == p * s * z
  {
  }

  lemma Differences(low: int, w: int, high: int, unit: int)
    ensures (high + 1) * unit - (w - 1) * unit == (high + 1 - w) * unit + unit
    ensures (high + 1) * unit - (w + 1) * unit == (high + 1 - w) * unit - unit
    ensures (high + 1) * unit - (high - 1) * unit == 2 * unit
    ensures (high + 1) * unit - (low - 1) * unit == (high - low + 2) * unit
    ensures (high + 1) * unit - (low + 1) * unit == (high - low + 2) * unit - 2 * unit
  {
  }

  // One unit of the last digit is tenKappa of the scaled units.
  lemma ScaleIsStep(unit: nat, tenKappa: nat, kappa: int, mk: int, e: int, one: nat)
    requires e <= 0 && one == Pow(2, 0 - e) && DigitScale(kappa, one, unit, tenKappa) && 0 < unit
    ensures Steps(Slope(mk, unit, one), kappa - mk, tenKappa)
  {
    hide Pow, RPow, Slope;
    var p, q := RPow(10, mk), RPow(10, kappa - mk);
    ScalePositive(mk, unit, one, e);
    SlopeIs(mk, unit, one, p);
    RPowAdd(10, mk, kappa - mk);
    Reordered(p, (unit * one) as real, q);
    if kappa >= 0 {
      RPowNat(10, kappa);
      RealMul(Pow(10, kappa), one);
    } else {
      RPowNat(10, 0 - kappa);
      RPowAdd(10, kappa, 0 - kappa);
      RPowZero(10);
      RealMul(unit, one);
      RealAssoc(RPow(10, kappa), unit as real, one as real);
    }
  }

  lemma Reordered(a: real, s: real, b: real)
    ensures a * s * b == a * b * s
  {
  }

  // ---------- Normalized boundaries ----------

  // f * 2^e is the value of v with the most significant of 64 bits set.
  ghost predicate Normalized(f: nat, e: int, significand: nat, exponent: int, shift: nat)
  {
    TWO_63 <= f < TWO_64 && f == significand * Pow(2, shift) && e == exponent - shift
  }

  method AsNormalizedDiyFp(v: Double) returns (w: DiyFp, ghost shift: nat)
    requires v.IsFinitePositive()
    ensures fresh(w) && Normalized(w.f, w.e, v.Significand(), v.Exponent(), shift)
  {
    hide Pow;
    v.Layout();
    var f, e := v.Significand(), v.Exponent();
    shift := 0;
    PowZero(2);
    while f / HIDDEN_BIT % 2 == 0
      invariant 0 < f < 2 * HIDDEN_BIT && f == v.Significand() * Pow(2, shift) && e == v.Exponent() - shift
      decreases 2 * HIDDEN_BIT - f
    {
      ShiftMore(v.Significand(), shift, 1);
      TwoTo1();
      f := f * 2;
      e := e - 1;
      shift := shift + 1;
    }
    TwoTo53();
    ShiftMore(v.Significand(), shift, 11);
    f := f * 0x800;
    e := e - 11;
    shift := shift + 11;
    w := new DiyFp(f, e);
  }

  // The boundaries of v with a common exponent.
  method NormalizedBoundaries(v: Double) returns (mMinus: DiyFp, mPlus: DiyFp, ghost shift: nat)
    requires v.IsFinitePositive()
    ensures fresh(mMinus) && fresh(mPlus) && mMinus.e == mPlus.e
    ensures Normalized(mPlus.f, mPlus.e, 2 * v.Significand() + 1, v.Exponent() - 1, shift) && 4 <= shift
    ensures v.LowerBoundaryIsCloser() ==> mMinus.f == (4 * v.Significand() - 1) * Pow(2, shift - 1)
    ensures !v.LowerBoundaryIsCloser() ==> mMinus.f == (2 * v.Significand() - 1) * Pow(2, shift)
  {
    hide Pow;
    v.Layout();
    var f, e := v.Significand(), v.Exponent();
    mPlus := new DiyFp(f * 2 + 1, e - 1);
    shift := mPlus.Normalize();
    EnoughShift(2 * f + 1, shift);
    if v.LowerBoundaryIsCloser() {
      CloserBelow(f, shift);
      mMinus := new DiyFp(f * 4 - 1, e - 2);
    } else {
      LowerBelow(f, shift);
      mMinus := new DiyFp(f * 2 - 1, e - 1);
    }
    mMinus.f := mMinus.f * Pow(2, mMinus.e - mPlus.e);
    mMinus.e := mPlus.e;
  }

  lemma EnoughShift(f: nat, shift: nat)
    requires f < 4 * HIDDEN_BIT && TWO_63 <= f * Pow(2, shift)
    ensures 4 <= shift
  {
    hide Pow;
    TwoTo4();
    if shift <= 3 {
      PowMono(2, shift, 3);
      MulLe(Pow(2, shift), 8, f);
    }
  }

  lemma CloserBelow(f: nat, shift: nat)
    requires 0 < f && 2 <= shift && (2 * f + 1) * Pow(2, shift) < TWO_64
    ensures 0 <= (4 * f - 1) * Pow(2, shift - 1) < TWO_64
  {
    hide Pow;
    PowStep(2, shift - 1);
    PowPos(2, shift - 1);
    var p := Pow(2, shift - 1);
    MulLe(4 * f - 1, 4 * f + 2, p);
    MulLe(0, 4 * f - 1, p);
    assert (2 * f + 1) * (2 * p) == (4 * f + 2) * p;
  }

  lemma LowerBelow(f: nat, shift: nat)
    requires 0 < f && (2 * f + 1) * Pow(2, shift) < TWO_64
    ensures 0 <= (2 * f - 1) * Pow(2, shift) < TWO_64
  {
    hide Pow;
    PowPos(2, shift);
    MulLe(2 * f - 1, 2 * f + 1, Pow(2, shift));
    MulLe(0, 2 * f - 1, Pow(2, shift));
  }

  // The number and its upper boundary are normalized alike.
  lemma SameShift(f: nat, s: nat, w: nat, r: nat, m: nat)
    requires 0 < f && w == f * Pow(2, s) && TWO_63 <= w < TWO_64 && 1 <= s
    requires m == (2 * f + 1) * Pow(2, r) && TWO_63 <= m < TWO_64
    ensures r == s - 1
  {
    hide Pow;
    if s <= r { LargerShift(f, s, r); }
    if r + 2 <= s { SmallerShift(f, s, r); }
  }

  lemma LargerShift(f: nat, s: nat, r: nat)
    requires TWO_63 <= f * Pow(2, s) && s <= r
    ensures TWO_64 <= (2 * f + 1) * Pow(2, r)
  {
    hide Pow;
    PowMono(2, s, r);
    MulLe(Pow(2, s), Pow(2, r), 2 * f + 1);
    var p := Pow(2, s);
    assert (2 * f + 1) * p == 2 * (f * p) + p;
  }

  lemma SmallerShift(f: nat, s: nat, r: nat)
    requires 0 < f && f * Pow(2, s) < TWO_64 && r + 2 <= s
    ensures (2 * f + 1) * Pow(2, r) < TWO_63
  {
    hide Pow;
    RoomForOne(f, s);
    QuarterPower(r, s);
    PowPos(2, s);
    QuarterProduct(f, Pow(2, s), Pow(2, r));
  }

  // A multiple of 2^s below 2^64 leaves room for one more.
  lemma RoomForOne(f: nat, s: nat)
    requires 0 < f && f * Pow(2, s) < TWO_64
    ensures (f + 1) * Pow(2, s) <= TWO_64
  {
    hide Pow;
    ShiftBelow64(f, s);
    TwoTo64();
    PowAdd(2, 64 - s, s);
    PowPos(2, s);
    MulCancelLt(f, Pow(2, 64 - s), Pow(2, s));
    MulLe(f + 1, Pow(2, 64 - s), Pow(2, s));
  }

  lemma QuarterPower(r: nat, s: nat)
    requires r + 2 <= s
    ensures 4 * Pow(2, r) <= Pow(2, s)
  {
    hide Pow;
    PowStep(2, r);
    PowStep(2, r + 1);
    PowMono(2, r + 2, s);
  }

  lemma QuarterProduct(f: nat, p: nat, q: nat)
    requires (f + 1) * p <= TWO_64 && 0 < p && 4 * q <= p
    ensures (2 * f + 1) * q < TWO_63
  {
    MulLe(4 * q, p, 2 * f + 1);
    assert (2 * f + 1) * p == 2 * ((f + 1) * p) - p;
    assert (2 * f + 1) * (4 * q) == 4 * ((2 * f + 1) * q);
  }

  // ---------- The scaled interval ----------

  // 'plus', w and 'minus' are far enough apart to stay apart when they are
  // multiplied, and the interval is wide enough for seventeen digits.
  ghost predicate WellApart(minus: nat, w: nat, plus: nat)
  {
    2 <= minus && minus + 4 <= w && w + 4 <= plus && plus <= (plus - minus) * 10_000_000_000_000_000
  }

  lemma BoundariesApart(v: Double, shift: nat, minus: nat, w: nat, plus: nat)
    requires v.IsFinitePositive() && 4 <= shift
    requires w == v.Significand() * Pow(2, shift + 1) && plus == (2 * v.Significand() + 1) * Pow(2, shift)
    requires v.LowerBoundaryIsCloser() ==> minus == (4 * v.Significand() - 1) * Pow(2, shift - 1)
    requires !v.LowerBoundaryIsCloser() ==> minus == (2 * v.Significand() - 1) * Pow(2, shift)
    ensures WellApart(minus, w, plus)
  {
    hide Pow;
    v.Layout();
    TwoTo4();
    PowMono(2, 3, shift - 1);
    PowStep(2, shift - 1);
    PowStep(2, shift);
    if v.LowerBoundaryIsCloser() {
      CloserApart(Pow(2, shift - 1), minus, w, plus);
    } else {
      EvenlyApart(v.Significand(), Pow(2, shift), minus, w, plus);
    }
  }

  lemma CloserApart(h: nat, minus: nat, w: nat, plus: nat)
    requires 8 <= h && minus == (4 * HIDDEN_BIT - 1) * h && w == HIDDEN_BIT * (4 * h) && plus == (2 * HIDDEN_BIT + 1) * (2 * h)
    ensures WellApart(minus, w, plus)
  {
  }

  lemma EvenlyApart(f: nat, p: nat, minus: nat, w: nat, plus: nat)
    requires 0 < f < 2 * HIDDEN_BIT && 8 <= p
    requires minus == (2 * f - 1) * p && w == f * (2 * p) && plus == (2 * f + 1) * p
    ensures WellApart(minus, w, plus)
  {
    MulLe(1, 2 * f - 1, p);
    MulLe(2 * f + 1, 2 * 10_000_000_000_000_000, p);
    assert w == 2 * f * p && plus == w + p && minus == w - p;
  }

  // The products of the three with a normalized power, rounded.
  lemma ScaledApart(minus: nat, w: nat, plus: nat, g: nat, low: nat, mid: nat, high: nat)
    requires WellApart(minus, w, plus) && TWO_63 <= plus < TWO_64 && TWO_63 <= g < TWO_64
    requires 0 <= minus * g && 0 <= w * g && 0 <= plus * g
    requires low == HalfUp(minus * g, TWO_64) && mid == HalfUp(w * g, TWO_64) && high == HalfUp(plus * g, TWO_64)
    ensures 0 < low < mid < high < MAX_SIGNIFICAND && 0x4000_0000_0000_0000 <= high
    ensures high + 1 <= (high - low + 2) * 10_000_000_000_000_000
  {
    hide HalfUp;
    UpperHalfGap(minus, w, g);
    UpperHalfGap(w, plus, g);
    LargeProduct(plus, g);
    LargeUpperHalf(plus * g, 0x4000_0000_0000_0000);
    BelowProduct(plus, g, TWO_64, TWO_64);
    UpperHalfBelow(plus * g);
    MulLe(2, minus, g);
    LargeUpperHalf(minus * g, 1);
    WideEnough(minus, plus, g, low, high);
  }

  lemma UpperHalfGap(a: nat, b: nat, g: nat)
    requires a + 4 <= b && TWO_63 <= g && 0 <= a * g && 0 <= b * g
    ensures HalfUp(a * g, TWO_64) < HalfUp(b * g, TWO_64)
  {
    hide HalfUp;
    MulLe(a + 4, b, g);
    assert (a + 4) * g == a * g + 4 * g;
    HalfUpBounds(a * g, TWO_64, HalfUp(a * g, TWO_64));
    HalfUpBounds(b * g, TWO_64, HalfUp(b * g, TWO_64));
  }

  lemma UpperHalfBelow(p: nat)
    requires p <= (TWO_64 - 1) * (TWO_64 - 1)
    ensures HalfUp(p, TWO_64) < MAX_SIGNIFICAND
  {
    DivLt(2 * p + TWO_64, 2 * TWO_64, MAX_SIGNIFICAND);
  }

  lemma WideEnough(minus: nat, plus: nat, g: nat, low: nat, high: nat)
    requires minus <= plus <= (plus - minus) * 10_000_000_000_000_000 && 0 <= minus * g && 0 <= plus * g
    requires low == HalfUp(minus * g, TWO_64) && high == HalfUp(plus * g, TWO_64)
    ensures high + 1 <= (high - low + 2) * 10_000_000_000_000_000
  {
    hide HalfUp;
    WidthTimes(minus, plus, g);
    WidthOfUpperHalves(minus * g, plus * g, low, high);
  }

  lemma WidthTimes(minus: nat, plus: nat, g: nat)
    requires plus <= (plus - minus) * 10_000_000_000_000_000
    ensures plus * g <= (plus * g - minus * g) * 10_000_000_000_000_000
  {
    MulLe(plus, (plus - minus) * 10_000_000_000_000_000, g);
    assert (plus - minus) * 10_000_000_000_000_000 * g == (plus * g - minus * g) * 10_000_000_000_000_000;
  }

  lemma WidthOfUpperHalves(a: nat, b: nat, low: nat, high: nat)
    requires b <= (b - a) * 10_000_000_000_000_000
    requires low == HalfUp(a, TWO_64) && high == HalfUp(b, TWO_64)
    ensures high + 1 <= (high - low + 2) * 10_000_000_000_000_000
  {
    hide HalfUp;
    HalfUpBounds(a, TWO_64, low);
    HalfUpBounds(b, TWO_64, high);
  }

  // A number that a shifted significand gives exactly, times a cached power: less
  // than one unit off.
  lemma ScaledError(y: real, m: nat, exponent: int, f: nat, shift: nat, entry: CachedPower, h: nat)
    requires y == DiyFps.BinaryValue(m, exponent) && f == m * Pow(2, shift) && f < TWO_64 && entry.IsGood()
    requires 0 <= f * entry.significand && h == HalfUp(f * entry.significand, TWO_64)
    ensures StrictlyWithin(TimesTens(y, entry.decimalExponent), h, 8, Eighth(exponent - shift + entry.binaryExponent + 64))
  {
    hide Pow, HalfUp, TimesTens, Eighth, CachedPower.IsGood, StrictlyWithin;
    WholeUnits(y, m, exponent);
    ShiftedInput(y, m, 0, exponent, shift);
    TensZero(y);
    CachedProduct(y, 0, f, exponent - shift, 0, entry, h);
  }

  lemma WholeUnits(y: real, m: nat, e: int)
    requires y == DiyFps.BinaryValue(m, e)
    ensures Within(y, m, 0, Eighth(e))
  {
    hide RPow;
    RPowStep(2, e - 1);
    RPowStep(2, e - 2);
    RPowStep(2, e - 3);
    EightfoldUnit(m, RPow(2, e - 3));
  }

  lemma EightfoldUnit(m: nat, w: real)
    ensures (8 * m) as real * w == m as real * (2.0 * (2.0 * (2.0 * w)))
  {
    assert (8 * m) as real == 8.0 * m as real;
  }

  // ---------- The conversion ----------

  // The scaled number and boundaries, each less than one unit off.
  ghost predicate ScaledTo(v: Double, mk: int, low: nat, w: nat, high: nat, e: int)
    requires v.IsFinitePositive()
  {
    && StrictlyWithin(TimesTens(v.Value(), mk), w, 8, Eighth(e))
    && StrictlyWithin(TimesTens(v.Upper(), mk), high, 8, Eighth(e))
    && StrictlyWithin(TimesTens(Double(v.d64 - 1).Upper(), mk), low, 8, Eighth(e))
    && 0 < low < w < high < MAX_SIGNIFICAND && 0x4000_0000_0000_0000 <= high
    && high + 1 <= (high - low + 2) * 10_000_000_000_000_000
  }

  lemma ScaledBoundaries(v: Double, s: nat, r: nat, minus: nat, w: nat, plus: nat, entry: CachedPower,
                         low: nat, mid: nat, high: nat)
    requires v.IsFinitePositive() && entry.IsGood()
    requires Normalized(w, v.Exponent() - s, v.Significand(), v.Exponent(), s) && 1 <= s
    requires Normalized(plus, v.Exponent() - 1 - r, 2 * v.Significand() + 1, v.Exponent() - 1, r) && 4 <= r
    requires v.LowerBoundaryIsCloser() ==> minus == (4 * v.Significand() - 1) * Pow(2, r - 1)
    requires !v.LowerBoundaryIsCloser() ==> minus == (2 * v.Significand() - 1) * Pow(2, r)
    requires 0 <= minus * entry.significand && 0 <= w * entry.significand && 0 <= plus * entry.significand
    requires low == HalfUp(minus * entry.significand, TWO_64) && mid == HalfUp(w * entry.significand, TWO_64)
    requires high == HalfUp(plus * entry.significand, TWO_64)
    ensures r == s - 1
    ensures ScaledTo(v, entry.decimalExponent, low, mid, high, v.Exponent() - s + entry.binaryExponent + 64)
  {
    hide Pow, HalfUp, TimesTens, Eighth, CachedPower.IsGood, StrictlyWithin, Double.Value, Double.Upper, BinaryValue;
    v.Layout();
    SameShift(v.Significand(), s, w, r, plus);
    BoundariesApart(v, r, minus, w, plus);
    GoodIsNormalized(entry);
    ScaledApart(minus, w, plus, entry.significand, low, mid, high);
    AsBinaryValues(v);
    ScaledError(v.Value(), v.Significand(), v.Exponent(), w, s, entry, mid);
    ScaledError(v.Upper(), 2 * v.Significand() + 1, v.Exponent() - 1, plus, r, entry, high);
    if v.LowerBoundaryIsCloser() {
      ScaledError(Double(v.d64 - 1).Upper(), 4 * v.Significand() - 1, v.Exponent() - 2, minus, r - 1, entry, low);
    } else {
      ScaledError(Double(v.d64 - 1).Upper(), 2 * v.Significand() - 1, v.Exponent() - 1, minus, r, entry, low);
    }
  }

  lemma AsBinaryValues(v: Double)
    requires v.IsFinitePositive()
    ensures v.Value() == BinaryValue(v.Significand(), v.Exponent())
    ensures v.Upper() == BinaryValue(2 * v.Significand() + 1, v.Exponent() - 1)
    ensures v.LowerBoundaryIsCloser() ==>
      Double(v.d64 - 1).Upper() == BinaryValue(4 * v.Significand() - 1, v.Exponent() - 2)
    ensures !v.LowerBoundaryIsCloser() ==>
      Double(v.d64 - 1).Upper() == BinaryValue(2 * v.Significand() - 1, v.Exponent() - 1)
  {
    hide RPow, BinaryValue, Double.Significand, Double.Exponent, Double.LowerBoundaryIsCloser;
    BinaryIs(v.Significand(), v.Exponent());
    BinaryIs(2 * v.Significand() + 1, v.Exponent() - 1);
    LowerAsBinaryValue(v);
  }

  lemma LowerAsBinaryValue(v: Double)
    requires v.IsFinitePositive()
    ensures v.LowerBoundaryIsCloser() ==>
      Double(v.d64 - 1).Upper() == BinaryValue(4 * v.Significand() - 1, v.Exponent() - 2)
    ensures !v.LowerBoundaryIsCloser() ==>
      Double(v.d64 - 1).Upper() == BinaryValue(2 * v.Significand() - 1, v.Exponent() - 1)
  {
    hide RPow, BinaryValue, Double.Significand, Double.Exponent, Double.LowerBoundaryIsCloser, Double.Upper;
    BinaryIs(4 * v.Significand() - 1, v.Exponent() - 2);
    BinaryIs(2 * v.Significand() - 1, v.Exponent() - 1);
    v.LowerBoundary();
  }

  lemma ScaledMeaning(v: Double, grid: Grid, digits: seq<char>, kappa: int, mk: int, low: nat, w: nat, high: nat, e: int)
    requires v.IsFinitePositive() && e <= 0 && ScaledTo(v, mk, low, w, high, e)
    requires grid.Scale(kappa, Pow(2, 0 - e)) && 0 < grid.unit
    requires grid.Accepts(digits, high + 1, high - low + 2, high + 1 - w)
    ensures IsDigits(digits) && IsUniqueShortest(v, DecVal(digits), |digits|, kappa - mk + |digits|)
  {
    hide Pow, StrictlyWithin, TimesTens, Eighth, Double.Value, Double.Upper, Grid.Accepts, DigitScale, Slope, Located, Steps, IsUniqueShortest;
    LocatedByError(v, mk, low, w, high, e, grid.unit, Pow(2, 0 - e));
    ScaleIsStep(grid.unit, grid.tenKappa, kappa, mk, e, Pow(2, 0 - e));
    AcceptedMeaning(v, grid, digits, high + 1, high - low + 2, high + 1 - w, Slope(mk, grid.unit, Pow(2, 0 - e)), kappa - mk);
  }

  // A copy of a times b.
  method Times(a: DiyFp, b: DiyFp) returns (result: DiyFp)
    ensures fresh(result) && 0 <= a.f * b.f
    ensures result.f == HalfUp(a.f * b.f, TWO_64) && result.e == a.e + b.e + 64
  {
    hide HalfUp;
    MulLe(0, a.f, b.f);
    result := new DiyFp(a.f, a.e);
    result.Multiply(b);
  }

  lemma ScaleIsPositive(grid: Grid, kappa: int, one: nat)
    requires grid.Scale(kappa, one)
    ensures 0 < grid.unit
  {
    hide Pow;
    if kappa < 0 { PowPos(10, 0 - kappa); }
  }

  method Grisu3(v: Double, buffer: array<char>, cache: seq<CachedPower>, error: real)
    returns (ok: bool, length: nat, decimalExponent: int)
    requires v.IsFinitePositive() && GoodCache(cache) && -HARDWARE_ERROR <= error <= HARDWARE_ERROR
    requires MAXIMAL_LENGTH <= buffer.Length
    modifies buffer
    ensures length <= MAXIMAL_LENGTH && IsDigits(buffer[..length])
    ensures ok ==> IsUniqueShortest(v, DecVal(buffer[..length]), length, decimalExponent + length)
  {
    hide Pow, RPow, DecVal, HalfUp, Normalized, ScaledTo, Grid.Accepts, Grid.Scale, IsUniqueShortest,
      CachedPower.IsGood, Double.Value, Double.Upper;
    var w, s := AsNormalizedDiyFp(v);
    var boundaryMinus, boundaryPlus, r := NormalizedBoundaries(v);
    NormalizedIs(w.f, w.e, v.Significand(), v.Exponent(), s);
    NormalizedIs(boundaryPlus.f, boundaryPlus.e, 2 * v.Significand() + 1, v.Exponent() - 1, r);
    ShiftOfDouble(v, s, w.f, w.e);
    var tenMkMinimalBinaryExponent := MINIMAL_TARGET_EXPONENT - (w.e + 64);
    var tenMkMaximalBinaryExponent := MAXIMAL_TARGET_EXPONENT - (w.e + 64);
    var tenMk, mk, entry := GetCachedPowerForBinaryExponentRange(cache, tenMkMinimalBinaryExponent, tenMkMaximalBinaryExponent, error);
    var scaledW := Times(w, tenMk);
    var scaledBoundaryMinus := Times(boundaryMinus, tenMk);
    var scaledBoundaryPlus := Times(boundaryPlus, tenMk);
    ScaledBoundaries(v, s, r, boundaryMinus.f, w.f, boundaryPlus.f, entry, scaledBoundaryMinus.f, scaledW.f, scaledBoundaryPlus.f);
    ScaledRange(v, mk, scaledBoundaryMinus.f, scaledW.f, scaledBoundaryPlus.f, scaledW.e);
    var kappa;
    ghost var grid;
    ok, length, kappa, grid := DigitGen(scaledBoundaryMinus, scaledW, scaledBoundaryPlus, buffer);
    decimalExponent := -mk + kappa;
    if ok {
      ScaleIsPositive(grid, kappa, Pow(2, 0 - scaledW.e));
      AcceptsHas(grid, buffer[..length], scaledBoundaryPlus.f + 1, scaledBoundaryPlus.f - scaledBoundaryMinus.f + 2,
                 scaledBoundaryPlus.f + 1 - scaledW.f);
      ScaledMeaning(v, grid, buffer[..length], kappa, mk, scaledBoundaryMinus.f, scaledW.f, scaledBoundaryPlus.f, scaledW.e);
    }
  }

  lemma NormalizedIs(f: nat, e: int, significand: nat, exponent: int, shift: nat)
    requires Normalized(f, e, significand, exponent, shift)
    ensures e == exponent - shift
  {
  }

  lemma ShiftOfDouble(v: Double, s: nat, f: nat, e: int)
    requires v.IsFinitePositive() && Normalized(f, e, v.Significand(), v.Exponent(), s)
    ensures 1 <= s <= 63 && -1137 <= e <= 970
  {
    hide Pow;
    v.Layout();
    PowZero(2);
    TwoTo64();
    if 64 <= s {
      PowMono(2, 64, s);
      MulLe(1, v.Significand(), Pow(2, s));
    }
  }

  lemma ScaledRange(v: Double, mk: int, low: nat, w: nat, high: nat, e: int)
    requires v.IsFinitePositive() && ScaledTo(v, mk, low, w, high, e)
    ensures 0 < low < w < high < MAX_SIGNIFICAND && 0x4000_0000_0000_0000 <= high
    ensures high + 1 <= (high - low + 2) * 10_000_000_000_000_000
  {
  }

  // ---------- A given number of digits ----------

  // v in units of the last digit, y, is known well enough to be rounded.
  lemma RoundedUnits(y: real, w: nat, unit: nat, start: nat, rest: nat, step: nat, rounded: nat)
    requires start * step + rest == w * unit && rest < step && 2 * unit < step
    requires ((w - 1) * unit) as real < y * step as real < ((w + 1) * unit) as real
    requires rounded == start + (if 2 * rest >= step then 1 else 0)
    requires if 2 * rest >= step then 2 * (rest - unit) >= step else 2 * (rest + unit) <= step
    ensures RoundHalfUp(y) == rounded
  {
    hide RoundHalfUp;
    OneUnitOff(w, unit);
    var a, b := 2 * rounded - 1, 2 * rounded + 1;
    StepsOf(start, rounded - start, step);
    assert a * step <= 2 * ((w - 1) * unit) && 2 * ((w + 1) * unit) <= b * step;
    HalfSteps(y, a, b, step, (w - 1) * unit, (w + 1) * unit);
    FloorOf(y, rounded);
  }

  lemma OneUnitOff(w: int, unit: int)
    ensures (w - 1) * unit == w * unit - unit && (w + 1) * unit == w * unit + unit
  {
  }

  lemma StepsOf(start: int, up: int, step: int)
    ensures (2 * (start + up) - 1) * step == 2 * (start * step) + (2 * up - 1) * step
    ensures (2 * (start + up) + 1) * step == 2 * (start * step) + (2 * up + 1) * step
  {
  }

  lemma HalfSteps(y: real, a: int, b: int, step: nat, low: int, high: int)
    requires 0 < step && low as real < y * step as real < high as real
    requires a * step <= 2 * low && 2 * high <= b * step
    ensures a as real < 2.0 * y < b as real
  {
    RealMul(a, step);
    RealMul(b, step);
    Doubled(y, step as real);
    RealScaleLe(2.0 * y, a as real, step as real);
    RealScaleLe(b as real, 2.0 * y, step as real);
  }

  lemma FloorOf(y: real, n: int)
    requires (2 * n - 1) as real < 2.0 * y < (2 * n + 1) as real
    ensures RoundHalfUp(y) == n
  {
  }

  // v in units of the last digit, times the step, is v in scaled units.
  lemma UnitsOfLastDigit(v: Double, c: real, exponent: int, step: int, y: real)
    requires Steps(c, exponent, step) && y == v.Value() * RPow(10, 0 - exponent)
    ensures y * step as real == Units(c, v.Value())
  {
    hide RPow, Double.Value;
    RPowAdd(10, 0 - exponent, exponent);
    RPowZero(10);
    FourFactors(v.Value(), RPow(10, 0 - exponent), c, RPow(10, exponent));
  }

  lemma FourFactors(z: real, a: real, c: real, b: real)
    requires a * b == 1.0
    ensures z * a * (c * b) == c * z
  {
    assert z * a * (c * b) == c * z * (a * b);
  }

  lemma CountedRounds(v: Double, grid: CountedGrid, w: nat, c: real, exponent: int)
    requires grid.Accepts(w) && Steps(c, exponent, grid.tenKappa)
    requires ((w - 1) * grid.unit) as real < Units(c, v.Value()) < ((w + 1) * grid.unit) as real
    ensures IsFixed(v, 0 - exponent, grid.rounded, exponent)
  {
    hide RPow, Double.Value, Steps, RoundHalfUp, Units, DecVal, Pow, InPlaces;
    var y := v.Value() * RPow(10, 0 - exponent);
    InPlacesIs(v, 0 - exponent, y);
    UnitsOfLastDigit(v, c, exponent, grid.tenKappa, y);
    RoundedUnits(y, w, grid.unit, DecVal(grid.start), grid.rest, grid.tenKappa, grid.rounded);
  }

  // A carry out of all nines is the same number with the point moved.
  lemma CarriedIsFixed(v: Double, places: int, length: nat, exponent: int)
    requires 0 < length && IsFixed(v, places, Pow(10, length), exponent)
    ensures IsFixed(v, places, Pow(10, length - 1), exponent + 1)
  {
    hide RPow, Pow, InPlaces, RoundHalfUp, DecimalValue;
    RefineByTen(Pow(10, length - 1), exponent);
    PowStep(10, length - 1);
  }

  lemma ScaledNumber(v: Double, f: nat, e: int, s: nat, entry: CachedPower, h: nat)
    requires v.IsFinitePositive() && entry.IsGood() && Normalized(f, e, v.Significand(), v.Exponent(), s)
    requires 0 <= f * entry.significand && h == HalfUp(f * entry.significand, TWO_64)
    ensures StrictlyWithin(TimesTens(v.Value(), entry.decimalExponent), h, 8, Eighth(e + entry.binaryExponent + 64))
    ensures 0x4000_0000_0000_0000 <= h
  {
    hide Pow, HalfUp, TimesTens, Eighth, CachedPower.IsGood, StrictlyWithin, Double.Value, BinaryValue;
    GoodIsNormalized(entry);
    AsBinaryValues(v);
    ScaledError(v.Value(), v.Significand(), v.Exponent(), f, s, entry, h);
    LargeProduct(f, entry.significand);
    LargeUpperHalf(f * entry.significand, 0x4000_0000_0000_0000);
  }

  // The powers of ten around w, in whole units: m and ten times m.
  lemma PowersAround(n: nat, kappa: int, one: nat, unit: nat, step: nat) returns (m: nat)
    requires DigitScale(kappa, one, unit, step) && 0 < n && 0 < n + kappa
    ensures 0 <= m * unit && Pow(10, n - 1) * step == m * unit && Pow(10, n) * step == 10 * (m * unit)
  {
    hide Pow;
    m := Pow(10, n - 1 + kappa) * one;
    if kappa >= 0 {
      PowAdd(10, n - 1, kappa);
      Ordered(Pow(10, n - 1), Pow(10, kappa), one);
    } else {
      PowAdd(10, n - 1 + kappa, 0 - kappa);
      MulSwap(Pow(10, n - 1 + kappa), Pow(10, 0 - kappa), one);
    }
    PowStep(10, n - 1);
    Tenfold(Pow(10, n - 1), step);
    PowPos(10, n - 1);
    MulLe(0, Pow(10, n - 1), step);
  }

  lemma Ordered(a: int, b: int, c: int)
    ensures a * (b * c) == a * b * c
  {
  }

  lemma Tenfold(a: int, b: int)
    ensures 10 * a * b == 10 * (a * b)
  {
  }

  lemma BetweenPowers(start: nat, rest: nat, w: nat, unit: nat, step: nat, p: nat, m: nat)
    requires start * step + rest == w * unit && rest < step && p <= start < 10 * p && 0 < unit
    requires p * step == m * unit
    ensures m <= w < 10 * m && (w == m ==> start == p && rest == 0)
  {
    MulLe(p, start, step);
    MulLe(start + 1, 10 * p, step);
    Tenfold(p, step);
    MulOneMore(start, step);
    MulCancelLe(m, w, unit);
    Tenfold(m, unit);
    MulCancelLt(w, 10 * m, unit);
    if w == m && p < start { MulLt(p, start, step); }
  }

  // The scaled position of a power of ten.
  lemma PowerAt(c: real, exponent: int, step: nat, n: nat)
    requires Steps(c, exponent, step)
    ensures Units(c, RPow(10, n + exponent)) == (Pow(10, n) * step) as real
  {
    hide Pow, RPow, DecimalValue, Steps;
    StepAt(c, exponent, step, Pow(10, n));
    DecimalIs(Pow(10, n), exponent);
    RPowNat(10, n);
    RPowAdd(10, n, exponent);
  }

  lemma UnitsOrder(c: real, x: real, y: real)
    requires 0.0 < c
    ensures Units(c, x) <= Units(c, y) ==> x <= y
    ensures Units(c, x) < Units(c, y) ==> x < y
  {
    ScaledOrder(c, x, y);
    ScaledOrder(c, y, x);
  }

  // v has as many digits before its last place as w, or w is the power of ten
  // that v is just below.
  lemma Magnitude(v: Double, c: real, exponent: int, step: nat, n: nat, w: nat, unit: nat, m: nat)
    requires Steps(c, exponent, step) && 0 < n && m <= w < 10 * m && 0 < unit
    requires Pow(10, n - 1) * step == m * unit && Pow(10, n) * step == 10 * (m * unit)
    requires ((w - 1) * unit) as real < Units(c, v.Value()) < ((w + 1) * unit) as real
    ensures (m * unit) as real <= Units(c, v.Value()) ==> HasMagnitude(v, n + exponent)
    ensures m < w ==> (m * unit) as real <= Units(c, v.Value())
  {
    hide Pow, RPow, Steps, Units, Double.Value;
    assert 0.0 < c by { StepsArePositive(c, exponent, step); }
    PowerAt(c, exponent, step, n);
    PowerAt(c, exponent, step, n - 1);
    MulLe(w + 1, 10 * m, unit);
    Tenfold(m, unit);
    UnitsOrder(c, v.Value(), RPow(10, n + exponent));
    UnitsOrder(c, RPow(10, n - 1 + exponent), v.Value());
    if m < w { MulLe(m, w - 1, unit); }
  }

  lemma StepsArePositive(c: real, exponent: int, step: int)
    requires Steps(c, exponent, step)
    ensures 0.0 < c
  {
  }

  // No double is so little below a power of ten that w is that power.
  lemma NotJustBelow(v: Double, c: real, exponent: int, step: nat, n: nat, w: nat, unit: nat)
    requires v.IsFinitePositive() && Steps(c, exponent, step) && 0 < n && Pow(10, n - 1) * step == w * unit
    requires 0x4000_0000_0000_0000 <= w && 0 < unit && (w * unit - unit) as real < Units(c, v.Value())
    ensures (w * unit) as real <= Units(c, v.Value())
  {
    hide Pow, RPow, Steps, Units, Double.Value;
    StepsArePositive(c, exponent, step);
    PowerAt(c, exponent, step, n - 1);
    var t := RPow(10, n - 1 + exponent);
    if Units(c, v.Value()) < (w * unit) as real {
      UnitsOrder(c, v.Value(), t);
      PowerTable.NoDoubleJustBelow(v, n - 1 + exponent);
      UnitsApart(c, t, v.Value());
      MulLe(0x4000_0000_0000_0000, w, unit);
    }
  }

  lemma UnitsApart(c: real, t: real, z: real)
    requires 0.0 < c && t <= PowerTable.TWO_62 as real * (t - z)
    ensures Units(c, t) <= PowerTable.TWO_62 as real * (Units(c, t) - Units(c, z))
  {
    RealMulLe(t, PowerTable.TWO_62 as real * (t - z), c);
    assert PowerTable.TWO_62 as real * (t - z) * c == PowerTable.TWO_62 as real * (c * t - c * z);
  }

  lemma CountedMeaning(v: Double, grid: CountedGrid, mk: int, kappa: int, w: nat, e: int)
    requires v.IsFinitePositive() && e <= 0 && grid.Accepts(w) && DigitScale(kappa, Pow(2, 0 - e), grid.unit, grid.tenKappa)
    requires StrictlyWithin(TimesTens(v.Value(), mk), w, 8, Eighth(e)) && 0x4000_0000_0000_0000 <= w
    requires 0 < |grid.start| + kappa
    ensures IsFixed(v, 0 - (kappa - mk), grid.rounded, kappa - mk)
    ensures IsPrecise(v, |grid.start|, grid.rounded, kappa - mk + |grid.start|)
  {
    hide Pow, RPow, DecVal, Double.Value, Steps, Slope, Units, DigitScale, StrictlyWithin, TimesTens, Eighth, IsFixed,
      HasMagnitude, CountedGrid.Accepts;
    var one, unit, step, n, exponent := Pow(2, 0 - e), grid.unit, grid.tenKappa, |grid.start|, kappa - mk;
    var c := Slope(mk, unit, one);
    CountedHas(grid, w);
    ScaleIsStep(unit, step, kappa, mk, e, one);
    var low, high := LocatedOne(v.Value(), mk, w, e, unit, one);
    CountedRounds(v, grid, w, c, exponent);
    var m := PowersAround(n, kappa, one, unit, step);
    PowStep(10, n - 1);
    DecBound(grid.start);
    BetweenPowers(DecVal(grid.start), grid.rest, w, unit, step, Pow(10, n - 1), m);
    OneUnitOff(w, unit);
    if w == m { NotJustBelow(v, c, exponent, step, n, w, unit); }
    Magnitude(v, c, exponent, step, n, w, unit, m);
    PreciseWith(v, n, n + exponent, grid.rounded, exponent);
  }

  lemma CountedHas(grid: CountedGrid, w: nat)
    requires grid.Accepts(w)
    ensures |grid.start| > 0 && 0 < grid.unit && IsDigits(grid.start) && grid.rest < grid.tenKappa
    ensures DecVal(grid.start) * grid.tenKappa + grid.rest == w * grid.unit
    ensures Pow(10, |grid.start| - 1) <= DecVal(grid.start)
    ensures 2 * grid.unit < grid.tenKappa && DecVal(grid.start) <= grid.rounded
  {
    hide Pow, DecVal;
  }

  // Twenty digits would need more than 64 bits for w.
  lemma AtMostNineteen(grid: CountedGrid, w: nat)
    requires grid.Accepts(w) && w < TWO_64
    ensures |grid.start| <= 19
  {
    hide Pow, DecVal, CountedGrid.Accepts;
    CountedHas(grid, w);
    if 20 <= |grid.start| {
      TenTo19();
      PowMono(10, 19, |grid.start| - 1);
      MulLe(10_000_000_000_000_000_000, DecVal(grid.start), grid.tenKappa);
      MulLe(w, TWO_64, grid.unit);
    }
  }

  lemma PreciseWith(v: Double, n: nat, k: int, digits: nat, exponent: int)
    requires HasMagnitude(v, k) && IsFixed(v, n - k, digits, exponent)
    ensures IsPrecise(v, n, digits, exponent + n)
  {
    hide HasMagnitude, IsFixed;
  }

  lemma CarriedIsPrecise(v: Double, length: nat, point: int)
    requires 0 < length && IsPrecise(v, length, Pow(10, length), point)
    ensures IsPrecise(v, length, Pow(10, length - 1), point + 1)
  {
    hide HasMagnitude, IsFixed, Pow;
    var k: int :| HasMagnitude(v, k) && IsFixed(v, length - k, Pow(10, length), point - length);
    CarriedIsFixed(v, length - k, length, point - length);
    PreciseWith(v, length, k, Pow(10, length - 1), point + 1 - length);
  }

  method Grisu3Counted(v: Double, requestedDigits: nat, buffer: array<char>, cache: seq<CachedPower>, error: real)
    returns (ok: bool, length: nat, decimalExponent: int)
    requires v.IsFinitePositive() && GoodCache(cache) && -HARDWARE_ERROR <= error <= HARDWARE_ERROR
    requires 0 < requestedDigits <= buffer.Length
    modifies buffer
    ensures length <= requestedDigits && IsDigits(buffer[..length])
    ensures ok ==> length == requestedDigits <= 19 && buffer[0] != '0'
    ensures ok ==> IsPrecise(v, length, DecVal(buffer[..length]), decimalExponent + length)
  {
    hide Pow, RPow, DecVal, HalfUp, Normalized, DigitScale, CountedGrid.Accepts, IsFixed,
      CachedPower.IsGood, Double.Value, Double.Upper;
    var w, s := AsNormalizedDiyFp(v);
    NormalizedIs(w.f, w.e, v.Significand(), v.Exponent(), s);
    ShiftOfDouble(v, s, w.f, w.e);
    var tenMkMinimalBinaryExponent := MINIMAL_TARGET_EXPONENT - (w.e + 64);
    var tenMkMaximalBinaryExponent := MAXIMAL_TARGET_EXPONENT - (w.e + 64);
    var tenMk, mk, entry := GetCachedPowerForBinaryExponentRange(cache, tenMkMinimalBinaryExponent, tenMkMaximalBinaryExponent, error);
    var scaledW := Times(w, tenMk);
    ScaledNumber(v, w.f, w.e, s, entry, scaledW.f);
    var kappa;
    ghost var grid, carriedOut;
    ok, length, kappa, grid, carriedOut := DigitGenCounted(scaledW, requestedDigits, buffer);
    decimalExponent := -mk + kappa;
    if ok {
      AtMostNineteen(grid, scaledW.f);
      CountedMeaning(v, grid, mk, if carriedOut then kappa - 1 else kappa, scaledW.f, scaledW.e);
      if carriedOut {
        CarriedIsPrecise(v, length, decimalExponent - 1 + length);
      }
      CountedHas(grid, scaledW.f);
      FirstNotZero(buffer[..length]);
    }
  }

  // ---------- Both modes ----------

  datatype FastDtoaMode = FastShortest | FastPrecision

  // A refusal leaves the work to the exact algorithm.
  method FastDtoa(v: Double, mode: FastDtoaMode, requestedDigits: nat, buffer: array<char>,
                  cache: seq<CachedPower>, error: real)
    returns (result: bool, length: nat, decimalPoint: int)
    requires v.IsFinitePositive() && GoodCache(cache) && -HARDWARE_ERROR <= error <= HARDWARE_ERROR
    requires mode.FastShortest? ==> MAXIMAL_LENGTH < buffer.Length
    requires mode.FastPrecision? ==> 0 < requestedDigits < buffer.Length
    modifies buffer
    ensures length <= buffer.Length && IsDigits(buffer[..length])
    ensures result ==> length < buffer.Length && buffer[length] == '\0'
    ensures result && mode.FastShortest? ==>
      length <= MAXIMAL_LENGTH && IsUniqueShortest(v, DecVal(buffer[..length]), length, decimalPoint)
    ensures result && mode.FastPrecision? ==>
      length == requestedDigits <= 19 && buffer[0] != '0' && IsPrecise(v, length, DecVal(buffer[..length]), decimalPoint)
  {
    hide DecVal, IsUniqueShortest, GoodCache, IsPrecise, IsFixed;
    var decimalExponent;
    match mode {
      case FastShortest =>
        result, length, decimalExponent := Grisu3(v, buffer, cache, error);
      case FastPrecision =>
        result, length, decimalExponent := Grisu3Counted(v, requestedDigits, buffer, cache, error);
    }
    decimalPoint := 0;
    if result {
      decimalPoint := length + decimalExponent;
      ghost var digits: seq<char> := buffer[..length];
      buffer[length] := '\0';
      assert buffer[..length] == digits;
    }
  }

  // ---------- The fast path and the exact one ----------

  // Accepted shortest digits are those of the exact algorithm, as is the point.
  lemma FastRefinesExact(v: Double, fast: seq<char>, fastPoint: int, exact: seq<char>, exactPoint: int)
    requires v.IsFinitePositive() && IsDigits(fast) && IsDigits(exact)
    requires IsShortest(v, DecVal(fast), |fast|, fastPoint) && IsShortest(v, DecVal(exact), |exact|, exactPoint)
    ensures fast == exact && fastPoint == exactPoint
  {
    hide DecVal, IsShortest;
    ShortestIsUnique(v, DecVal(fast), |fast|, fastPoint, DecVal(exact), |exact|, exactPoint);
    DecInjective(fast, exact);
  }

  lemma SamePlace(a: nat, b: nat, length: nat, p: int, q: int)
    requires 0 < length && Pow(10, length - 1) <= a && b < Pow(10, length) && DecimalValue(a, p) == DecimalValue(b, q)
    ensures p <= q
  {
    hide Pow, RPow, DecimalValue;
    if q < p {
      BelowPowerOfTen(b, length, q);
      RPowPos(10, p);
      RPowNat(10, length - 1);
      RPowAdd(10, length - 1, p);
      RPowMono(10, length + q, length - 1 + p);
      DecimalIs(a, p);
      RealMulLe(Pow(10, length - 1) as real, a as real, RPow(10, p));
    }
  }

  lemma SameMagnitude(v: Double, k: int, l: int)
    requires HasMagnitude(v, k) && HasMagnitude(v, l)
    ensures k == l
  {
    hide RPow, Double.Value;
    if k < l { RPowMono(10, k, l - 1); }
    if l < k { RPowMono(10, l, k - 1); }
  }

  // So are rounded digits.
  lemma RoundedRefinesExact(v: Double, fast: seq<char>, fastPoint: int, exact: seq<char>, exactPoint: int)
    requires IsDigits(fast) && IsDigits(exact) && |fast| == |exact| > 0 && fast[0] != '0' && exact[0] != '0'
    requires IsPrecise(v, |fast|, DecVal(fast), fastPoint) && IsPrecise(v, |exact|, DecVal(exact), exactPoint)
    ensures fast == exact && fastPoint == exactPoint
  {
    hide DecVal, Pow, RPow, DecimalValue, HasMagnitude, InPlaces, RoundHalfUp, Double.Value;
    var n := |fast|;
    var k: int :| HasMagnitude(v, k) && IsFixed(v, n - k, DecVal(fast), fastPoint - n);
    var l: int :| HasMagnitude(v, l) && IsFixed(v, n - l, DecVal(exact), exactPoint - n);
    SameMagnitude(v, k, l);
    DecLeading(fast);
    DecLeading(exact);
    DecBound(fast);
    DecBound(exact);
    SamePlace(DecVal(fast), DecVal(exact), n, fastPoint - n, exactPoint - n);
    SamePlace(DecVal(exact), DecVal(fast), n, exactPoint - n, fastPoint - n);
    SameFactor(DecVal(fast), DecVal(exact), fastPoint - n);
    DecInjective(fast, exact);
  }

  lemma SameFactor(a: nat, b: nat, q: int)
    requires DecimalValue(a, q) == DecimalValue(b, q)
    ensures a == b
  {
    hide RPow;
    RPowPos(10, q);
    ScaleLe(a, b, RPow(10, q));
    ScaleLe(b, a, RPow(10, q));
  }
}
