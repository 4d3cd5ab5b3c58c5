// external/double-conversion/ieee.h: the layout of a double and the values
// halfway to its neighbours.
module Ieee {
  import opened Powers

  const HIDDEN_BIT: int := 0x10_0000_0000_0000
  const INFINITY: int := 0x7FF0_0000_0000_0000
  const SIGNIFICAND_SIZE := 53
  const EXPONENT_BIAS := 0x3FF + 52
  const DENORMAL_EXPONENT := 1 - EXPONENT_BIAS
  const MAX_EXPONENT := 0x7FF - EXPONENT_BIAS

  datatype Double = Double(d64: uint64) {
    function SignificandField(): nat { d64 % HIDDEN_BIT }

    function ExponentField(): nat { d64 / HIDDEN_BIT % 0x800 }

    predicate IsDenormal() { ExponentField() == 0 }

    // Zero, positive or infinite; not a NaN.
    predicate IsNonNegative() { d64 <= INFINITY }

    predicate IsFinitePositive() { 0 < d64 < INFINITY }

    function Exponent(): int
    {
      if IsDenormal() then DENORMAL_EXPONENT else ExponentField() - EXPONENT_BIAS
    }

    function Significand(): nat
    {
      if IsDenormal() then SignificandField() else SignificandField() + HIDDEN_BIT
    }

    predicate LowerBoundaryIsCloser()
    {
      SignificandField() == 0 && Exponent() != DENORMAL_EXPONENT
    }

    // For a double that is not negative and not a NaN.
    function NextDouble(): Double
      requires IsNonNegative()
    {
      if d64 == INFINITY then this else Double(d64 + 1)
    }

    // Infinity stands for the first power of two that is too large.
    function Value(): real
    {
      Significand() as real * RPow(2, Exponent())
    }

    // Halfway to the next double.
    ghost function Upper(): real
    {
      (2 * Significand() + 1) as real * RPow(2, Exponent() - 1)
    }

    lemma Layout()
      requires IsNonNegative()
      ensures Significand() < 2 * HIDDEN_BIT
      ensures DENORMAL_EXPONENT <= Exponent() <= MAX_EXPONENT
      ensures Exponent() > DENORMAL_EXPONENT ==> HIDDEN_BIT <= Significand()
      ensures Exponent() == MAX_EXPONENT <==> d64 == INFINITY
      ensures d64 % 2 == Significand() % 2
      ensures d64 == 0 <==> Significand() == 0
    {
    }

    lemma NextSignificand()
      requires d64 < INFINITY
      ensures var n := Double(d64 + 1);
        || (n.Exponent() == Exponent() && n.Significand() == Significand() + 1)
        || (n.Exponent() == Exponent() + 1 && n.Significand() == HIDDEN_BIT && Significand() + 1 == 2 * HIDDEN_BIT
            && n.LowerBoundaryIsCloser())
    {
    }

    // Upper is halfway between this and the next value.
    lemma NextValue()
      requires d64 < INFINITY
      ensures Double(d64 + 1).Value() == (Significand() + 1) as real * RPow(2, Exponent())
      ensures Upper() + Upper() == Value() + Double(d64 + 1).Value()
      ensures Value() < Upper() < Double(d64 + 1).Value()
    {
      hide RPow;
      NextSignificand();
      var n, e := Double(d64 + 1), Exponent();
      RPowStep(2, e);
      RPowStep(2, e - 1);
      RPowPos(2, e - 1);
      assert n.Value() == (Significand() + 1) as real * RPow(2, e);
    }

    // The lower boundary, from this double's own significand.
    lemma LowerBoundary()
      requires 0 < d64 <= INFINITY
      ensures LowerBoundaryIsCloser() ==>
        Double(d64 - 1).Upper() == (4 * Significand() - 1) as real * RPow(2, Exponent() - 2)
      ensures !LowerBoundaryIsCloser() ==>
        Double(d64 - 1).Upper() == (2 * Significand() - 1) as real * RPow(2, Exponent() - 1)
    {
      hide RPow;
      Double(d64 - 1).NextSignificand();
      RPowStep(2, Exponent() - 2);
    }
  }

  // How many bits a double has for the significand of a number of this size.
  function SignificandSizeForOrderOfMagnitude(order: int): nat
  {
    if order >= DENORMAL_EXPONENT + SIGNIFICAND_SIZE then SIGNIFICAND_SIZE
    else if order <= DENORMAL_EXPONENT then 0
    else order - DENORMAL_EXPONENT
  }

  lemma {:induction false} ValueMonotone(u: nat, w: nat)
    requires u < w <= INFINITY
    ensures Double(u).Value() < Double(w).Value() && Double(u).Upper() < Double(w).Value()
    ensures Double(u).Upper() < Double(w).Upper() || w == INFINITY
    decreases w
  {
    hide Double.Upper, Double.Value;
    Double(w - 1).NextValue();
    if u < w - 1 { ValueMonotone(u, w - 1); }
    if w < INFINITY { Double(w).NextValue(); }
  }

  // ---------- Round to nearest, ties to even ----------

  // Between the two boundaries of u; on a boundary only if u is even.
  ghost predicate RoundsTo(x: real, u: nat)
    requires u <= INFINITY
  {
    && (0 < u ==> Double(u - 1).Upper() <= x && (u % 2 == 1 ==> Double(u - 1).Upper() < x))
    && (u < INFINITY ==> x <= Double(u).Upper() && (u % 2 == 1 ==> x < Double(u).Upper()))
  }

  lemma TieAbove(x: real, w: nat)
    requires w < INFINITY && w % 2 == 1 && x == Double(w).Upper()
    ensures RoundsTo(x, w + 1)
  {
    hide Double.Upper, Double.Value;
    if w + 1 < INFINITY { ValueMonotone(w, w + 1); }
  }

  // Every number that is not negative rounds to one.
  lemma {:induction false} NearestExists(x: real, w: nat) returns (u: nat)
    requires 0.0 <= x && w <= INFINITY && (w < INFINITY ==> x <= Double(w).Upper())
    ensures u <= INFINITY && RoundsTo(x, u)
    decreases w
  {
    hide Double.Upper, Double.Value, RoundsTo;
    if 0 < w && x <= Double(w - 1).Upper() {
      u := NearestExists(x, w - 1);
    } else if w < INFINITY && w % 2 == 1 && x == Double(w).Upper() {
      TieAbove(x, w);
      u := w + 1;
    } else {
      Between(x, w);
      u := w;
    }
  }

  lemma Between(x: real, w: nat)
    requires w <= INFINITY && (0 < w ==> Double(w - 1).Upper() < x)
    requires w < INFINITY ==> x <= Double(w).Upper() && (w % 2 == 1 ==> x < Double(w).Upper())
    ensures RoundsTo(x, w)
  {
    hide Double.Upper, Double.Value;
  }

  lemma RoundsToIsUnique(x: real, u: nat, w: nat)
    requires u <= INFINITY && w <= INFINITY && RoundsTo(x, u) && RoundsTo(x, w)
    ensures u == w
  {
    hide Double.Upper, Double.Value;
    if u + 1 < w { ValueMonotone(u, w - 1); }
    if w + 1 < u { ValueMonotone(w, u - 1); }
  }

  // A double stands for itself.
  lemma ExactRounds(x: real, u: nat)
    requires u < INFINITY && Double(u).Value() == x
    ensures RoundsTo(x, u)
  {
    hide Double.Value, Double.Upper;
    Double(u).NextValue();
    if 0 < u { Double(u - 1).NextValue(); }
  }

  // The boundary decides between a double and the next one; a tie goes to the
  // even one.
  lemma BoundaryDecides(x: real, u: nat)
    requires u < INFINITY && (RoundsTo(x, u) || RoundsTo(x, u + 1))
    ensures x < Double(u).Upper() ==> RoundsTo(x, u)
    ensures x > Double(u).Upper() ==> RoundsTo(x, u + 1)
    ensures x == Double(u).Upper() ==> RoundsTo(x, if u % 2 == 0 then u else u + 1)
  {
    hide Double.Upper;
  }

  ghost function Distance(x: real, y: real): real { if x < y then y - x else x - y }

  // The boundaries express IEEE 754-2008 section 4.3.1: no double is nearer,
  // and of two equally near ones the even one is taken.
  lemma RoundsToIsNearest(x: real, u: nat, w: nat)
    requires u < INFINITY && w < INFINITY && RoundsTo(x, u)
    ensures Distance(x, Double(u).Value()) <= Distance(x, Double(w).Value())
    ensures u != w && Distance(x, Double(u).Value()) == Distance(x, Double(w).Value()) ==> u % 2 == 0
  {
    hide Double.Upper, Double.Value;
    if u < w {
      Double(u).NextValue();
      if u + 1 < w { ValueMonotone(u + 1, w); }
    } else if w < u {
      Double(u - 1).NextValue();
      if w < u - 1 { ValueMonotone(w, u - 1); }
    }
  }
}
