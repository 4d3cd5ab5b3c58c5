// Below the smallest denormal: where exactly 2^-1075, the boundary between zero
// and the smallest double, lies among the decimals that the reader handles. The
// approximation of external/double-conversion/strtod.cc is right there because
// of the one table entry that it multiplies with.
module Underflow {
  import opened Powers
  import opened DecimalMeaning
  import opened DiyFps
  import opened DigitGeneration
  import opened CachedPowers

  // The integer next below 2^-1075 in units of 10^-342.
  const BOUNDARY: int := 2470328229206232720
  // The significand of 10^-348.
  const FIRST_POWER: int := 0xfa8f_d5a0_081c_0288

  const FIVE_342: int :=
    0x0449_0BCD_F48E_A1D2_1C40_41FC_4A1D_08A4_66B4_941B_C439_87B8_DAD3_EE9E_EA2B_B740_2CC0_F4C1_1365_108D_C3A9_A0FE_F09E_6856_F3DE_D96E_4E03_C6B7_30BF_8A87_0E9A_E7AF_3ED0_A9D5_BB06_C2E9_B26A_AFBD_AEFC_2169_17AF_6AF2_D4A4_EC22_7281_1D62_A108_161E_F5CA_9DC9

  lemma Five342()
    ensures Pow(5, 342) == FIVE_342
  {
    hide Pow;
    assert Pow(5, 9) == 1953125 by { Five9(); }
    PowAdd(5, 9, 9);
    PowAdd(5, 18, 18);
    PowAdd(5, 18, 1);
    assert Pow(5, 1) == 5 by { Five9(); }
    PowAdd(5, 36, 36);
    PowAdd(5, 72, 72);
    PowAdd(5, 144, 144);
    PowAdd(5, 288, 36);
    PowAdd(5, 324, 18);
  }

  lemma Twos()
    ensures Pow(2, 732) == TWO_732 && Pow(2, 733) == 2 * TWO_732
    ensures Pow(2, 800) == 16 * TWO_64 * TWO_732 && Pow(2, 796) == TWO_64 * TWO_732
    ensures Pow(2, 873) == 0x2000 * TWO_64 * TWO_64 * TWO_732
  {
    hide Pow;
    TwoTo64();
    TwoTo8();
    TwoTo4();
    PowAdd(2, 64, 64);
    PowAdd(2, 128, 128);
    PowAdd(2, 256, 256);
    PowAdd(2, 512, 128);
    PowAdd(2, 640, 64);
    PowAdd(2, 8, 8);
    PowAdd(2, 16, 8);
    PowAdd(2, 24, 4);
    PowAdd(2, 704, 28);
    TwoTo1();
    PowAdd(2, 732, 1);
    PowAdd(2, 732, 64);
    PowAdd(2, 796, 4);
    PowAdd(2, 796, 64);
    PowAdd(2, 860, 8);
    PowAdd(2, 868, 4);
    PowAdd(2, 872, 1);
  }

  const TWO_732: int :=
    0x1000_0000_0000_0000_0000_0000_0000_0000_0000_0000_0000_0000_0000_0000_0000_0000_0000_0000_0000_0000_0000_0000_0000_0000_0000_0000_0000_0000_0000_0000_0000_0000_0000_0000_0000_0000_0000_0000_0000_0000_0000_0000_0000_0000_0000_0000

  // Comparing m * 10^-a with n * 2^-b.
  lemma DecimalAgainstBinary(m: nat, a: nat, n: nat, b: nat)
    requires a <= b
    ensures m * Pow(2, b - a) <= n * Pow(5, a) <==> m as real * RPow(10, 0 - a) <= n as real * RPow(2, 0 - b)
    ensures m * Pow(2, b - a) < n * Pow(5, a) <==> m as real * RPow(10, 0 - a) < n as real * RPow(2, 0 - b)
    ensures n * Pow(5, a) < m * Pow(2, b - a) <==> n as real * RPow(2, 0 - b) < m as real * RPow(10, 0 - a)
  {
    hide Pow, RPow;
    var unit := RPow(5, a) * RPow(2, b);
    RPowPos(5, a);
    RPowPos(2, b);
    PowProduct(2, 5, a);
    PowAdd(2, a, b - a);
    RPowNat(5, a);
    RPowNat(2, b);
    RPowNat(10, a);
    RPowNat(2, b - a);
    RPowAdd(10, 0 - a, a);
    RPowAdd(2, 0 - b, b);
    RPowZero(10);
    RPowZero(2);
    RealMul(Pow(2, a), Pow(5, a));
    RealMul(Pow(2, a), Pow(2, b - a));
    RealMul(m, Pow(2, b - a));
    RealMul(n, Pow(5, a));
    LeftUnit(m as real, RPow(10, 0 - a), Pow(5, a) as real, Pow(2, a) as real, Pow(2, b - a) as real);
    RightUnit(n as real, RPow(2, 0 - b), RPow(5, a), RPow(2, b));
    RealPositive(RPow(5, a), RPow(2, b));
    RealScaleLe(m as real * RPow(10, 0 - a), n as real * RPow(2, 0 - b), unit);
    RealScaleLe(n as real * RPow(2, 0 - b), m as real * RPow(10, 0 - a), unit);
  }

  lemma LeftUnit(m: real, t: real, fives: real, twos: real, rest: real)
    requires t * (twos * fives) == 1.0
    ensures m * t * (fives * (twos * rest)) == m * rest
  {
    assert m * t * (fives * (twos * rest)) == m * (t * (twos * fives)) * rest;
  }

  lemma RightUnit(n: real, t: real, fives: real, twos: real)
    requires t * twos == 1.0
    ensures n * t * (fives * twos) == n * fives
  {
    assert n * t * (fives * twos) == n * (t * twos) * fives;
  }

  // ---------- The boundary ----------

  // 2^64 * 10^-343 and (BOUNDARY + 1/2) * 10^-342 are below 2^-1075.
  lemma BelowBoundary(s: real, t: real, b: real)
    requires s == RPow(10, -343) && t == RPow(10, -342) && b == RPow(2, -1075)
    ensures TWO_64 as real * s <= b
    ensures (2 * BOUNDARY + 1) as real * t <= 2.0 * b
  {
    hide Pow, RPow;
    Five342();
    Twos();
    PowStep(5, 342);
    DecimalAgainstBinary(TWO_64, 343, 1, 1075);
    DecimalAgainstBinary(2 * BOUNDARY + 1, 342, 2, 1075);
  }

  // Ten more than BOUNDARY is too far above for any error below 25 units.
  lemma AboveBoundary(t: real, w: real)
    requires t == RPow(10, -342) && w == RPow(2, -1142)
    ensures (2 * (TWO_64 * 8 + 200)) as real * w <= (2 * BOUNDARY + 19) as real * t
  {
    hide Pow, RPow;
    Five342();
    Twos();
    DecimalAgainstBinary(2 * BOUNDARY + 19, 342, 2 * (TWO_64 * 8 + 200), 1142);
  }

  lemma FirstPowerBounds()
    ensures (2 * FIRST_POWER - 1) as real * RPow(2, -1221) < RPow(10, -348)
    ensures RPow(10, -348) < (2 * FIRST_POWER + 1) as real * RPow(2, -1221)
  {
    hide Pow, RPow;
    Five342();
    Five9();
    Twos();
    PowAdd(5, 342, 6);
    DecimalAgainstBinary(1, 348, 2 * FIRST_POWER - 1, 1221);
    DecimalAgainstBinary(1, 348, 2 * FIRST_POWER + 1, 1221);
  }

  // There is one normalized significand within half a unit of 10^-348.
  lemma FirstPower(entry: CachedPower)
    requires entry.IsGood() && entry.decimalExponent == -348
    ensures entry.binaryExponent == -1220 && FIRST_POWER <= entry.significand
  {
    hide Pow, RPow;
    FirstPowerBounds();
    var e, p := entry.binaryExponent, RPow(2, -1221);
    var s: int := entry.significand;
    RPowPos(2, -1221);
    RPowPos(2, e - 1);
    if e >= -1219 {
      RPowMono(2, -1220, e - 1);
      RPowStep(2, -1221);
      CountedProductLe(2 * TWO_63 - 1, 2 * s - 1, RPow(2, -1220), RPow(2, e - 1));
    } else if e <= -1221 {
      RPowMono(2, e - 1, -1222);
      RPowStep(2, -1222);
      CountedProductLe(2 * s + 1, 2 * TWO_64, RPow(2, e - 1), RPow(2, -1222));
    } else {
      Sandwiched(2 * FIRST_POWER - 1, 2 * s + 1, RPow(10, -348), p);
    }
  }

  lemma Sandwiched(a: int, b: int, x: real, w: real)
    requires a as real * w < x <= b as real * w && 0.0 < w
    ensures a < b
  {
    ScaleLe(b, a, w);
  }

  // ---------- The one significand next to the boundary ----------

  lemma HalfUpMono(a: nat, b: nat)
    requires a <= b
    ensures HalfUp(a, TWO_64) <= HalfUp(b, TWO_64)
  {
  }

  // The two multiplications round BOUNDARY + 1 to no less than 2^-1075.
  lemma NextToBoundary(significand: nat, f: nat, h: nat, g: nat, power: nat)
    requires BOUNDARY < significand && f == 4 * significand && FIRST_POWER <= power
    requires 0 <= f * 0xf424_0000_0000_0000 && h == HalfUp(f * 0xf424_0000_0000_0000, TWO_64)
    requires 0 <= h * power && g == HalfUp(h * power, TWO_64)
    ensures TWO_63 <= g
  {
    HalfUpMono((4 * (BOUNDARY + 1)) * 0xf424_0000_0000_0000, f * 0xf424_0000_0000_0000);
    var h0 := 0x82c7_30be_c1ca_c961;
    assert h0 <= h;
    MulLe(h0, h, FIRST_POWER);
    MulLe(FIRST_POWER, power, h);
    HalfUpMono(h0 * FIRST_POWER, h * power);
  }
}
