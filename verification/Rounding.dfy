// The rounding step of external/double-conversion/strtod.cc: whether a 64-bit
// significand with an error decides which double the number rounds to.
module Rounding {
  import opened Powers
  import opened DecimalMeaning
  import opened DiyFps
  import opened DoubleBits
  import opened Ieee
  import opened ErrorBounds

  // k eighths of a unit of p * 8 smaller ones.
  lemma EighthsOf(k: int, p: nat, w: real, unit: real)
    requires unit == (8 * p) as real * w
    ensures (k * p) as real * w == k as real / 8.0 * unit
  {
    RealMul(k, p);
    RealAssoc(k as real, p as real, w);
    assert unit == 8.0 * (p as real * w);
    Eighths(k as real, p as real * w);
  }

  lemma Eighths(k: real, a: real)
    ensures k * a == k / 8.0 * (8.0 * a)
  {
  }

  lemma BelowEighths(x: real, a: int, k: int, p: nat, w: real, unit: real)
    requires 0.0 < w && unit == (8 * p) as real * w && x < a as real * w && a <= k * p
    ensures x < k as real / 8.0 * unit
  {
    EighthsOf(k, p, w, unit);
    RealMulLe(a as real, (k * p) as real, w);
  }

  lemma AboveEighths(x: real, a: int, k: int, p: nat, w: real, unit: real)
    requires 0.0 < w && unit == (8 * p) as real * w && a as real * w < x && k * p <= a
    ensures k as real / 8.0 * unit < x
  {
    EighthsOf(k, p, w, unit);
    RealMulLe((k * p) as real, a as real, w);
  }

  // f split into s units of p and a rest.
  lemma Parts(f: nat, p: nat, k: int)
    requires 0 < p
    ensures (8 * (f / p) + k) * p == 8 * f - 8 * (f % p) + k * p
  {
    DivMod(f, p);
    var s, r := f / p, f % p;
    assert (8 * s + k) * p == 8 * (s * p) + k * p;
  }

  // Where x is between two multiples of the unit, from the precision bits.
  lemma Around(x: real, f: nat, err: nat, w: real, p: nat, unit: real)
    requires StrictlyWithin(x, f, err, w) && 0.0 < w && unit == (8 * p) as real * w && 0 < p && err <= p
    ensures ((f / p) as real - 0.25) * unit < x < ((f / p) as real + 1.25) * unit
  {
    var s := f / p;
    Parts(f, p, -2);
    Parts(f, p, 10);
    DivMod(f, p);
    AboveEighths(x, 8 * f - err, 8 * s - 2, p, w, unit);
    BelowEighths(x, 8 * f + err, 8 * s + 10, p, w, unit);
    assert (8 * s - 2) as real / 8.0 == s as real - 0.25;
    assert (8 * s + 10) as real / 8.0 == s as real + 1.25;
  }

  lemma UpperHalf(x: real, f: nat, err: nat, w: real, p: nat, unit: real)
    requires StrictlyWithin(x, f, err, w) && 0.0 < w && unit == (8 * p) as real * w && 0 < p
    requires 4 * p + err <= 8 * (f % p)
    ensures ((f / p) as real + 0.5) * unit < x
  {
    Parts(f, p, 4);
    AboveEighths(x, 8 * f - err, 8 * (f / p) + 4, p, w, unit);
    assert (8 * (f / p) + 4) as real / 8.0 == (f / p) as real + 0.5;
  }

  lemma LowerHalf(x: real, f: nat, err: nat, w: real, p: nat, unit: real)
    requires StrictlyWithin(x, f, err, w) && 0.0 < w && unit == (8 * p) as real * w && 0 < p
    requires 8 * (f % p) + err <= 4 * p
    ensures x < ((f / p) as real + 0.5) * unit
  {
    Parts(f, p, 4);
    BelowEighths(x, 8 * f + err, 8 * (f / p) + 4, p, w, unit);
    assert (8 * (f / p) + 4) as real / 8.0 == (f / p) as real + 0.5;
  }

  lemma Middle(x: real, f: nat, err: nat, w: real, p: nat, unit: real)
    requires StrictlyWithin(x, f, err, w) && 0.0 < w && unit == (8 * p) as real * w && 0 < p && err <= p
    requires 4 * p - err < 8 * (f % p) < 4 * p + err
    ensures ((f / p) as real + 0.25) * unit < x < ((f / p) as real + 0.75) * unit
  {
    MiddleAbove(x, f, err, w, p, unit);
    MiddleBelow(x, f, err, w, p, unit);
  }

  lemma MiddleAbove(x: real, f: nat, err: nat, w: real, p: nat, unit: real)
    requires StrictlyWithin(x, f, err, w) && 0.0 < w && unit == (8 * p) as real * w && 0 < p && err <= p
    requires 4 * p - err < 8 * (f % p)
    ensures ((f / p) as real + 0.25) * unit < x
  {
    Parts(f, p, 2);
    AboveEighths(x, 8 * f - err, 8 * (f / p) + 2, p, w, unit);
    assert (8 * (f / p) + 2) as real / 8.0 == (f / p) as real + 0.25;
  }

  lemma MiddleBelow(x: real, f: nat, err: nat, w: real, p: nat, unit: real)
    requires StrictlyWithin(x, f, err, w) && 0.0 < w && unit == (8 * p) as real * w && 0 < p && err <= p
    requires 8 * (f % p) < 4 * p + err
    ensures x < ((f / p) as real + 0.75) * unit
  {
    Parts(f, p, 6);
    BelowEighths(x, 8 * f + err, 8 * (f / p) + 6, p, w, unit);
    assert (8 * (f / p) + 6) as real / 8.0 == (f / p) as real + 0.75;
  }

  lemma UnitIs(e: int, p: nat)
    ensures RPow(2, e + p) == (8 * Pow(2, p)) as real * Eighth(e)
  {
    hide Pow, RPow;
    RPowAdd(2, p, e);
    RPowNat(2, p);
    RPowStep(2, e - 1);
    RPowStep(2, e - 2);
    RPowStep(2, e - 3);
    RealAssoc(Pow(2, p) as real, 8.0, RPow(2, e - 3));
  }

  // The decision taken from the precision bits, for every double but the
  // smallest denormals' neighbourhood of zero.
  lemma Decision(x: real, f: nat, e: int, err: nat, p: nat)
    requires StrictlyWithin(x, f, err, Eighth(e)) && 0 < Pow(2, p) && err <= Pow(2, p)
    requires f / Pow(2, p) < 2 * HIDDEN_BIT && IsNormal(f / Pow(2, p), e + p)
    ensures var s := f / Pow(2, p); var bits, half := 8 * (f % Pow(2, p)), 4 * Pow(2, p);
      && (half + err <= bits ==> RoundsTo(x, BitsOf(s + 1, e + p)))
      && (bits <= half - err ==> RoundsTo(x, BitsOf(s, e + p)))
      && (half - err < bits < half + err ==>
        var u := BitsOf(s, e + p); RoundsTo(x, u) || (u < INFINITY && RoundsTo(x, u + 1)))
  {
    hide Pow, RPow, Eighth, RoundsTo, BitsOf;
    var w, unit, P := Eighth(e), RPow(2, e + p), Pow(2, p);
    var s, bits := f / P, 8 * (f % P);
    EighthIs(e);
    UnitIs(e, p);
    RPowPos(2, e + p);
    Around(x, f, err, w, P, unit);
    if 4 * P + err <= bits {
      UpperHalf(x, f, err, w, P, unit);
      RoundsUp(x, s, e + p, unit);
    } else if bits <= 4 * P - err {
      LowerHalf(x, f, err, w, P, unit);
      RoundsDown(x, s, e + p, unit);
    } else {
      Middle(x, f, err, w, P, unit);
      RoundsNear(x, s, e + p, unit);
    }
  }

  // Below the smallest denormal the result is zero. It may be half a unit too
  // low when x is beyond 2^-1075.
  lemma BelowDenormals(x: real, f: nat, e: int, err: nat, p: nat)
    requires StrictlyWithin(x, f, err, Eighth(e)) && 0 < Pow(2, p) && err <= Pow(2, p)
    requires f / Pow(2, p) == 0 && e + p < DENORMAL_EXPONENT
    ensures e + p < DENORMAL_EXPONENT - 1 || x <= RPow(2, DENORMAL_EXPONENT - 1) ==> RoundsTo(x, 0)
    ensures RoundsTo(x, 0) || RoundsTo(x, 1)
  {
    hide Pow, RPow, Eighth;
    var unit, h := RPow(2, e + p), RPow(2, DENORMAL_EXPONENT - 1);
    EighthIs(e);
    UnitIs(e, p);
    RPowPos(2, e + p);
    Around(x, f, err, Eighth(e), Pow(2, p), unit);
    assert x < 1.25 * unit;
    if e + p < DENORMAL_EXPONENT - 1 {
      RPowMono(2, e + p, DENORMAL_EXPONENT - 2);
      RPowStep(2, DENORMAL_EXPONENT - 2);
    }
    FirstBoundaries();
  }

  lemma FirstBoundaries()
    ensures Double(0).Upper() == RPow(2, DENORMAL_EXPONENT - 1)
    ensures Double(1).Upper() == 3.0 * RPow(2, DENORMAL_EXPONENT - 1)
  {
    hide RPow;
  }

  // ---------- The precision that is left ----------

  // input has no more than size + p bits, and exactly 64 unless it was shifted.
  ghost predicate Prepared(f: nat, e: int, p: nat, order: int)
  {
    && e + p == order - SignificandSizeForOrderOfMagnitude(order) && 11 <= p <= 60
    && f < Pow(2, SignificandSizeForOrderOfMagnitude(order) + p)
    && (SignificandSizeForOrderOfMagnitude(order) == SIGNIFICAND_SIZE ==> p == 11 && TWO_63 <= f)
  }

  // Near zero there are too few bits for the denominator of the error: both
  // are shifted.
  method DropBits(input: DiyFp, error0: uint64, ghost x: real) returns (p: nat, error: uint64)
    requires TWO_63 <= input.f && error0 <= 200 && StrictlyWithin(x, input.f, error0, Eighth(input.e))
    modifies input
    ensures Prepared(input.f, input.e, p, 64 + old(input.e)) && error <= 209
    ensures StrictlyWithin(x, input.f, error, Eighth(input.e))
  {
    hide Pow, RPow, Eighth, StrictlyWithin;
    var order := 64 + input.e;
    var size := SignificandSizeForOrderOfMagnitude(order);
    ghost var f: int, e := input.f, input.e;
    p := 64 - size;
    error := error0;
    TwoTo64();
    if p + 3 >= 64 {
      var shift := p + 3 - 64 + 1;
      DroppedBits(x, f, error, e, shift, size);
      input.f := input.f / Pow(2, shift);
      input.e := input.e + shift;
      error := error / Pow(2, shift) + 1 + 8;
      p := p - shift;
    }
  }

  lemma DroppedBits(x: real, f: nat, error: nat, e: int, shift: nat, size: nat)
    requires StrictlyWithin(x, f, error, Eighth(e)) && f < TWO_64 && shift <= 4 && size + shift == 4
    ensures 0 < Pow(2, shift)
    ensures f / Pow(2, shift) < Pow(2, 64 - shift) && error / Pow(2, shift) <= error
    ensures f / Pow(2, shift) <= f
    ensures StrictlyWithin(x, f / Pow(2, shift), error / Pow(2, shift) + 9, Eighth(e + shift))
  {
    hide Pow, RPow, Eighth;
    var q := Pow(2, shift);
    PowPos(2, shift);
    TwoTo64();
    PowAdd(2, 64 - shift, shift);
    DivLt(f, q, Pow(2, 64 - shift));
    DivAtMost(error, q);
    DivAtMost(f, q);
    EighthIs(e);
    EighthIs(e + shift);
    WithinShiftedRight(x, f, error, Eighth(e), q);
    EighthOfShift(e, shift);
  }

  lemma EighthOfShift(e: int, shift: nat)
    ensures Pow(2, shift) as real * Eighth(e) == Eighth(e + shift)
  {
    hide Pow, RPow;
    RPowAdd(2, shift, e - 3);
    RPowNat(2, shift);
  }

  // s is the significand that is left of input.
  lemma PreparedIsNormal(f: nat, e: int, p: nat, order: int, s: nat)
    requires Prepared(f, e, p, order) && s * Pow(2, p) <= f < (s + 1) * Pow(2, p)
    ensures s < 2 * HIDDEN_BIT
    ensures DENORMAL_EXPONENT <= order ==> IsNormal(s, e + p)
    ensures order < DENORMAL_EXPONENT ==> s == 0 && e + p == order
  {
    hide Pow;
    var size := SignificandSizeForOrderOfMagnitude(order);
    SignificandBelow(f, p, size, s);
    if size == SIGNIFICAND_SIZE {
      FullSignificand(f, s);
    }
  }

  lemma SignificandBelow(f: nat, p: nat, size: nat, s: nat)
    requires f < Pow(2, size + p) && size <= 53 && s * Pow(2, p) <= f
    ensures s < 2 * HIDDEN_BIT && (size <= 52 ==> s < HIDDEN_BIT) && (size == 0 ==> s == 0)
  {
    hide Pow;
    PowAdd(2, size, p);
    PowPos(2, p);
    MulCancelLt(s, Pow(2, size), Pow(2, p));
    TwoTo53();
    PowMono(2, size, 53);
    if size <= 52 { PowMono(2, size, 52); }
    PowZero(2);
  }

  lemma FullSignificand(f: nat, s: nat)
    requires TWO_63 <= f < (s + 1) * Pow(2, 11)
    ensures HIDDEN_BIT <= s
  {
    hide Pow;
    TwoTo53();
  }

  lemma PowerRange(p: nat)
    requires 11 <= p <= 60
    ensures 2048 <= Pow(2, p) <= 0x1000_0000_0000_0000
  {
    hide Pow;
    TwoTo53();
    PowMono(2, 11, p);
    PowMono(2, p, 60);
  }

  // The bits that a significand and an exponent are turned into.
  ghost function Rounded(s: nat, e: int): (bits: nat)
    requires s <= 2 * HIDDEN_BIT && (e < DENORMAL_EXPONENT || IsNormal(s, e))
    ensures bits <= INFINITY
  {
    if e < DENORMAL_EXPONENT then 0 else BitsOf(s, e)
  }

  // What each of the three outcomes means.
  ghost predicate Outcome(x: real, s: nat, e: int, bits: nat, half: nat, err: nat)
    requires s < 2 * HIDDEN_BIT && (e < DENORMAL_EXPONENT || IsNormal(s, e))
  {
    var sure := e != DENORMAL_EXPONENT - 1 || x <= RPow(2, DENORMAL_EXPONENT - 1);
    && (half + err <= bits ==> sure ==> RoundsTo(x, Rounded(s + 1, e)))
    && (bits <= half - err ==> sure ==> RoundsTo(x, Rounded(s, e)))
    && (half - err < bits < half + err ==>
      RoundsTo(x, Rounded(s, e)) || (Rounded(s, e) < INFINITY && RoundsTo(x, Rounded(s, e) + 1)))
  }

  lemma InputDecision(x: real, f: nat, e: int, err: nat, p: nat, order: int)
    requires StrictlyWithin(x, f, err, Eighth(e)) && Prepared(f, e, p, order) && err <= 209
    ensures 2048 <= Pow(2, p) <= 0x1000_0000_0000_0000
    ensures var s := f / Pow(2, p);
      s < 2 * HIDDEN_BIT && (e + p < DENORMAL_EXPONENT || IsNormal(s, e + p))
      && (order < DENORMAL_EXPONENT ==> e + p == order) && (e + p < DENORMAL_EXPONENT ==> order < DENORMAL_EXPONENT && s == 0)
      && Outcome(x, s, e + p, 8 * (f % Pow(2, p)), 4 * Pow(2, p), err)
  {
    hide Pow, RPow, Eighth, RoundsTo, BitsOf;
    PowerRange(p);
    DivMod(f, Pow(2, p));
    PreparedIsNormal(f, e, p, order, f / Pow(2, p));
    if DENORMAL_EXPONENT <= order {
      Decision(x, f, e, err, p);
    } else {
      BelowDenormals(x, f, e, err, p);
    }
  }

  // Rounds input to a double. 'exact' says that no number within the error
  // rounds differently; otherwise the result is right or the next lower double.
  method RoundInput(input: DiyFp, error0: uint64, ghost x: real) returns (result: uint64, exact: bool)
    requires TWO_63 <= input.f && error0 <= 200 && StrictlyWithin(x, input.f, error0, Eighth(input.e))
    modifies input
    ensures result <= INFINITY
    ensures exact && (old(input.e) != DENORMAL_EXPONENT - 65 || x <= RPow(2, DENORMAL_EXPONENT - 1)) ==> RoundsTo(x, result)
    ensures !exact ==> RoundsTo(x, result) || (result < INFINITY && RoundsTo(x, result + 1))
  {
    hide Pow, RPow, Eighth, RoundsTo, Prepared, BitsOf, StrictlyWithin;
    ghost var order := 64 + input.e;
    var p, error := DropBits(input, error0, x);
    InputDecision(x, input.f, input.e, error, p, order);
    PreparedRange(input.f, input.e, p, order);
    PowStep(2, p - 1);
    var precisionBits: uint64 := input.f % Pow(2, p);
    var halfWay: uint64 := Pow(2, p - 1);
    precisionBits := precisionBits * 8;
    halfWay := halfWay * 8;
    var rounded, exponent := input.f / Pow(2, p), input.e + p;
    if precisionBits >= halfWay + error {
      rounded := rounded + 1;
    }
    result := DiyFpToUint64(rounded, exponent);
    exact := !(halfWay - error < precisionBits && precisionBits < halfWay + error);
  }

  lemma PreparedRange(f: nat, e: int, p: nat, order: int)
    requires Prepared(f, e, p, order)
    ensures 11 <= p <= 60 && 2048 <= Pow(2, p) <= 0x1000_0000_0000_0000
  {
    hide Pow;
    PowerRange(p);
  }
}
