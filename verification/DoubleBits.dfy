// Building doubles from a significand and an exponent, and which double a real
// number near one rounds to.
module DoubleBits {
  import opened Powers
  import opened Ieee

  // significand * 2^exponent is laid out without shifting.
  predicate IsNormal(significand: int, exponent: int)
  {
    0 <= significand <= 2 * HIDDEN_BIT && DENORMAL_EXPONENT <= exponent
    && (HIDDEN_BIT <= significand || exponent == DENORMAL_EXPONENT)
  }

  // The bits of significand * 2^exponent; a full carry and overflow included.
  function BitsOf(significand: int, exponent: int): (bits: int)
    requires IsNormal(significand, exponent)
    ensures 0 <= bits <= INFINITY
  {
    var bits := (exponent - DENORMAL_EXPONENT) * HIDDEN_BIT + significand;
    if bits < INFINITY then bits else INFINITY
  }

  lemma BitsLayout(significand: nat, exponent: int)
    requires IsNormal(significand, exponent) && significand < 2 * HIDDEN_BIT
    ensures exponent < MAX_EXPONENT <==> BitsOf(significand, exponent) < INFINITY
    ensures exponent < MAX_EXPONENT ==> var d := Double(BitsOf(significand, exponent));
      d.Significand() == significand && d.Exponent() == exponent
    ensures exponent < MAX_EXPONENT ==> BitsOf(significand + 1, exponent) == BitsOf(significand, exponent) + 1
    ensures MAX_EXPONENT <= exponent ==> BitsOf(significand + 1, exponent) == INFINITY
  {
  }

  // How many bits a significand has beyond 53.
  ghost function Excess(f: nat): (k: nat)
    ensures 0 < Pow(2, k) && f / Pow(2, k) < 2 * HIDDEN_BIT
    ensures 2 * HIDDEN_BIT <= f ==> HIDDEN_BIT <= f / Pow(2, k)
  {
    if f < 2 * HIDDEN_BIT then
      PowZero(2); 0
    else
      HalvedAgain(f, Excess(f / 2)); 1 + Excess(f / 2)
  }

  lemma HalvedAgain(f: nat, k: nat)
    ensures 0 < Pow(2, k) && 0 < Pow(2, k + 1) && f / Pow(2, k + 1) == f / 2 / Pow(2, k)
  {
    hide Pow;
    PowStep(2, k);
    PowPos(2, k);
    var p, h := Pow(2, k), f / 2;
    DivMod(h, p);
    var q, r := h / p, h % p;
    MulSwap(q, 2, p);
    DivUnique(f, 2 * p, q, 2 * r + f % 2);
  }

  // The significand without its excess bits.
  ghost function Shortened(f: nat): (s: nat)
    ensures s < 2 * HIDDEN_BIT && (2 * HIDDEN_BIT <= f ==> HIDDEN_BIT <= s)
    ensures f < 2 * HIDDEN_BIT ==> s == f
  {
    PowZero(2);
    f / Pow(2, Excess(f))
  }

  lemma ShortenedStep(f: nat)
    requires 2 * HIDDEN_BIT <= f
    ensures Shortened(f) == Shortened(f / 2) && Excess(f) == 1 + Excess(f / 2)
  {
    HalvedAgain(f, Excess(f / 2));
  }

  // Excess bits are cut off; then the bits are those of the number that is left,
  // infinity when it is too large and zero when its unit is too small.
  method DiyFpToUint64(f: uint64, e: int) returns (bits: uint64)
    ensures IsNormal(f, e) ==> bits == BitsOf(f, e)
    ensures e + Excess(f) < DENORMAL_EXPONENT ==> bits == 0
    ensures 2 * HIDDEN_BIT <= f && DENORMAL_EXPONENT <= e + Excess(f) ==> bits == BitsOf(Shortened(f), e + Excess(f))
    ensures 0 < f && DENORMAL_EXPONENT <= e + Excess(f) < MAX_EXPONENT ==>
      bits < INFINITY && Double(bits).Value() == Worth(Shortened(f), e + Excess(f))
  {
    hide RPow, Excess, Shortened, Double.Value, Worth;
    var significand, exponent := f, e;
    while significand > 2 * HIDDEN_BIT - 1
      invariant 0 <= significand < 0x1_0000_0000_0000_0000
      invariant exponent + Excess(significand) == e + Excess(f) && Shortened(significand) == Shortened(f)
      invariant f < 2 * HIDDEN_BIT ==> significand == f && exponent == e
      invariant f == 2 * HIDDEN_BIT ==>
        (significand == f && exponent == e) || (significand == HIDDEN_BIT && exponent == e + 1)
      invariant 0 < f ==> 0 < significand
      decreases significand
    {
      ShortenedStep(significand);
      significand := significand / 2;
      exponent := exponent + 1;
    }
    ShortIsWhole(significand);
    bits := PackedBits(significand, exponent);
  }

  // The number s * 2^x.
  ghost function Worth(s: int, x: int): real { s as real * RPow(2, x) }

  // The fields of a double for at most 53 bits.
  method PackedBits(s: nat, x: int) returns (bits: uint64)
    requires s < 2 * HIDDEN_BIT
    ensures MAX_EXPONENT <= x ==> bits == INFINITY
    ensures x < DENORMAL_EXPONENT ==> bits == 0
    ensures IsNormal(s, x) ==> bits == BitsOf(s, x)
    ensures 0 < s && DENORMAL_EXPONENT <= x < MAX_EXPONENT ==> bits < INFINITY && Double(bits).Value() == Worth(s, x)
  {
    hide RPow, Worth, Double.Value, BitsOf;
    var significand, exponent := s, x;
    if exponent >= MAX_EXPONENT {
      TooLarge(s, x);
      return INFINITY;
    }
    if exponent < DENORMAL_EXPONENT {
      return 0;
    }
    while exponent > DENORMAL_EXPONENT && significand / HIDDEN_BIT % 2 == 0
      invariant 0 <= significand < 2 * HIDDEN_BIT && DENORMAL_EXPONENT <= exponent < MAX_EXPONENT
      invariant IsNormal(s, x) ==> significand == s && exponent == x
      invariant Worth(significand, exponent) == Worth(s, x)
      decreases exponent - DENORMAL_EXPONENT
    {
      DoubleSignificand(significand, exponent);
      significand := significand * 2;
      exponent := exponent - 1;
    }
    FieldsAre(significand, exponent);
    var biasedExponent := 0;
    if !(exponent == DENORMAL_EXPONENT && significand / HIDDEN_BIT % 2 == 0) {
      biasedExponent := exponent + EXPONENT_BIAS;
    }
    bits := significand % HIDDEN_BIT + biasedExponent * HIDDEN_BIT;
  }

  lemma TooLarge(s: nat, x: int)
    requires MAX_EXPONENT <= x
    ensures IsNormal(s, x) ==> BitsOf(s, x) == INFINITY
  {
  }

  lemma FieldsAre(s: nat, x: int)
    requires s < 2 * HIDDEN_BIT && DENORMAL_EXPONENT <= x < MAX_EXPONENT
    requires x > DENORMAL_EXPONENT ==> s / HIDDEN_BIT % 2 != 0
    ensures IsNormal(s, x) && BitsOf(s, x) < INFINITY && Double(BitsOf(s, x)).Value() == Worth(s, x)
    ensures BitsOf(s, x)
      == s % HIDDEN_BIT + (if x == DENORMAL_EXPONENT && s / HIDDEN_BIT % 2 == 0 then 0 else x + EXPONENT_BIAS) * HIDDEN_BIT
  {
    hide RPow;
    BitsLayout(s, x);
  }

  lemma ShortIsWhole(f: nat)
    requires f < 2 * HIDDEN_BIT
    ensures Excess(f) == 0 && Shortened(f) == f
  {
  }

  lemma DoubleSignificand(s: int, e: int)
    ensures Worth(2 * s, e - 1) == Worth(s, e)
  {
    hide RPow;
    RPowStep(2, e - 1);
  }

  // ---------- Rounding a number near significand * 2^exponent ----------

  lemma UpperOf(significand: nat, exponent: int)
    requires IsNormal(significand, exponent) && significand < 2 * HIDDEN_BIT && exponent < MAX_EXPONENT
    ensures Double(BitsOf(significand, exponent)).Upper() == (significand as real + 0.5) * RPow(2, exponent)
  {
    hide RPow;
    BitsLayout(significand, exponent);
    RPowStep(2, exponent - 1);
    HalfStep(significand, RPow(2, exponent - 1));
  }

  lemma HalfStep(s: int, h: real)
    ensures (2 * s + 1) as real * h == (s as real + 0.5) * (2.0 * h)
  {
  }

  // Less than half a unit above significand, and not below its lower boundary.
  lemma RoundsDown(x: real, significand: nat, exponent: int, unit: real)
    requires unit == RPow(2, exponent)
    requires IsNormal(significand, exponent) && significand < 2 * HIDDEN_BIT
    requires (significand as real - 0.25) * unit <= x
    requires x < (significand as real + 0.5) * unit
    ensures RoundsTo(x, BitsOf(significand, exponent))
  {
    hide RPow, Double.Upper, Double.Value;
    BitsLayout(significand, exponent);
    if exponent < MAX_EXPONENT {
      UpperOf(significand, exponent);
      LowerBelow(x, significand, exponent);
    } else {
      BeyondLargest(x, significand, exponent);
    }
  }

  lemma LowerBelow(x: real, significand: nat, exponent: int)
    requires IsNormal(significand, exponent) && significand < 2 * HIDDEN_BIT && exponent < MAX_EXPONENT
    requires (significand as real - 0.25) * RPow(2, exponent) <= x
    ensures var u := BitsOf(significand, exponent);
      0 < u ==> Double(u - 1).Upper() <= x && (u % 2 == 1 ==> Double(u - 1).Upper() < x)
  {
    hide RPow, Double.Upper, Double.Value;
    BitsLayout(significand, exponent);
    RPowPos(2, exponent);
    if significand > HIDDEN_BIT || (exponent == DENORMAL_EXPONENT && significand > 0) {
      BitsLayout(significand - 1, exponent);
      UpperOf(significand - 1, exponent);
      RealMulLt(significand as real - 0.5, significand as real - 0.25, RPow(2, exponent));
    } else if exponent > DENORMAL_EXPONENT {
      BitsLayout(2 * HIDDEN_BIT - 1, exponent - 1);
      UpperOf(2 * HIDDEN_BIT - 1, exponent - 1);
      RPowStep(2, exponent - 1);
      QuarterStep(RPow(2, exponent - 1));
    }
  }

  lemma QuarterStep(h: real)
    ensures ((2 * HIDDEN_BIT - 1) as real + 0.5) * h == (HIDDEN_BIT as real - 0.25) * (2.0 * h)
  {
  }

  // At least the boundary above the largest finite double.
  lemma BeyondLargest(x: real, significand: nat, exponent: int)
    requires HIDDEN_BIT <= significand && MAX_EXPONENT <= exponent
    requires (significand as real - 0.25) * RPow(2, exponent) <= x
    ensures RoundsTo(x, INFINITY)
  {
    hide RPow, Double.Value, Double.Upper;
    UpperOf(2 * HIDDEN_BIT - 1, MAX_EXPONENT - 1);
    assert BitsOf(2 * HIDDEN_BIT - 1, MAX_EXPONENT - 1) == INFINITY - 1;
    RPowStep(2, MAX_EXPONENT - 1);
    QuarterStep(RPow(2, MAX_EXPONENT - 1));
    RPowMono(2, MAX_EXPONENT, exponent);
    RPowPos(2, exponent);
    RealMulLe(HIDDEN_BIT as real - 0.25, significand as real - 0.25, RPow(2, exponent));
    RealMulLe(RPow(2, MAX_EXPONENT), RPow(2, exponent), HIDDEN_BIT as real - 0.25);
  }

  // More than half a unit above significand.
  lemma RoundsUp(x: real, significand: nat, exponent: int, unit: real)
    requires unit == RPow(2, exponent)
    requires IsNormal(significand, exponent) && significand < 2 * HIDDEN_BIT
    requires (significand as real + 0.5) * unit < x
    requires x < (significand as real + 1.25) * unit
    ensures RoundsTo(x, BitsOf(significand + 1, exponent))
  {
    hide RPow, Double.Upper, Double.Value;
    BitsLayout(significand, exponent);
    RPowPos(2, exponent);
    if exponent < MAX_EXPONENT {
      UpperOf(significand, exponent);
      AboveNext(x, significand, exponent);
    } else {
      RealMulLt(significand as real - 0.25, significand as real + 0.5, RPow(2, exponent));
      BeyondLargest(x, significand, exponent);
    }
  }

  lemma AboveNext(x: real, significand: nat, exponent: int)
    requires IsNormal(significand, exponent) && significand < 2 * HIDDEN_BIT && exponent < MAX_EXPONENT
    requires x < (significand as real + 1.25) * RPow(2, exponent)
    ensures var u := BitsOf(significand + 1, exponent);
      u < INFINITY ==> x < Double(u).Upper()
  {
    hide RPow, Double.Upper, Double.Value;
    RPowPos(2, exponent);
    BitsLayout(significand, exponent);
    if significand + 1 < 2 * HIDDEN_BIT {
      UpperOf(significand + 1, exponent);
      RealMulLt(significand as real + 1.25, (significand + 1) as real + 0.5, RPow(2, exponent));
    } else if exponent + 1 < MAX_EXPONENT {
      BitsLayout(HIDDEN_BIT, exponent + 1);
      UpperOf(HIDDEN_BIT, exponent + 1);
      RPowStep(2, exponent);
      var s, p := significand as real, RPow(2, exponent);
      assert (HIDDEN_BIT as real + 0.5) * (2.0 * p) == (s + 2.0) * p;
      RealMulLt(s + 1.25, s + 2.0, p);
    }
  }

  // Near the middle: the lower neighbour or the next double.
  lemma RoundsNear(x: real, significand: nat, exponent: int, unit: real)
    requires unit == RPow(2, exponent)
    requires IsNormal(significand, exponent) && significand < 2 * HIDDEN_BIT
    requires (significand as real + 0.25) * unit < x
    requires x < (significand as real + 0.75) * unit
    ensures var u := BitsOf(significand, exponent);
      RoundsTo(x, u) || (u < INFINITY && RoundsTo(x, u + 1))
  {
    hide RPow, Double.Upper, Double.Value;
    BitsLayout(significand, exponent);
    RPowPos(2, exponent);
    var p, s := RPow(2, exponent), significand as real;
    RealMulLt(s - 0.25, s + 0.25, p);
    if MAX_EXPONENT <= exponent {
      BeyondLargest(x, significand, exponent);
    } else {
      var u := BitsOf(significand, exponent);
      UpperOf(significand, exponent);
      LowerBelow(x, significand, exponent);
      RealMulLt(s + 0.75, s + 1.25, p);
      AboveNext(x, significand, exponent);
    }
  }
}
