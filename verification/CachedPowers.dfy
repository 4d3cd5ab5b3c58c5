// external/double-conversion/cached-powers.cc: normalized powers of ten, and the
// exact powers between two of them.
module CachedPowers {
  import opened Powers
  import opened DiyFps
  import opened Logarithms

  const DECIMAL_EXPONENT_DISTANCE := 8
  const MIN_DECIMAL_EXPONENT := -348
  const MAX_DECIMAL_EXPONENT := 340

  datatype CachedPower = CachedPower(significand: uint64, binaryExponent: int, decimalExponent: int) {
    // Normalized, and within half a unit in the last place of its power of ten.
    ghost predicate IsGood()
    {
      && TWO_63 <= significand
      && (2 * significand - 1) as real * RPow(2, binaryExponent - 1) <= RPow(10, decimalExponent)
      && RPow(10, decimalExponent) <= (2 * significand + 1) as real * RPow(2, binaryExponent - 1)
    }
  }

  // What the table is documented to hold.
  ghost predicate GoodCache(cache: seq<CachedPower>)
  {
    && |cache| == 87
    && forall i :: 0 <= i < |cache| ==>
      cache[i].IsGood() && cache[i].decimalExponent == MIN_DECIMAL_EXPONENT + DECIMAL_EXPONENT_DISTANCE * i
  }

  method GetCachedPowerForDecimalExponent(cache: seq<CachedPower>, requested: int)
    returns (power: DiyFp, found: int, ghost entry: CachedPower)
    requires GoodCache(cache)
    requires MIN_DECIMAL_EXPONENT <= requested < MAX_DECIMAL_EXPONENT + DECIMAL_EXPONENT_DISTANCE
    ensures fresh(power) && entry.IsGood() && entry.decimalExponent == found
    ensures power.f == entry.significand && power.e == entry.binaryExponent
    ensures found <= requested < found + DECIMAL_EXPONENT_DISTANCE
    ensures (found - MIN_DECIMAL_EXPONENT) % DECIMAL_EXPONENT_DISTANCE == 0
  {
    hide RPow;
    var index := (requested - MIN_DECIMAL_EXPONENT) / DECIMAL_EXPONENT_DISTANCE;
    entry := cache[index];
    power := new DiyFp(cache[index].significand, cache[index].binaryExponent);
    found := cache[index].decimalExponent;
  }

  // The digits of 2^n tell which entry has a binary exponent of n - 63 or a
  // little more: its power of ten is the next one above 2^n, or up to seven more.
  lemma BinaryExponentOf(entry: CachedPower, k: int, n: int)
    requires entry.IsGood() && k <= entry.decimalExponent <= k + 7
    requires RPow(10, k - 1) <= RPow(2, n) <= RPow(10, k)
    ensures n - 63 <= entry.binaryExponent <= n - 36
  {
    hide RPow, CachedPower.IsGood;
    EntryBelow(entry);
    EntryAbove(entry);
    if entry.binaryExponent < n - 63 {
      RPowMono(2, entry.binaryExponent + 64, n);
      RPowMono(10, k, entry.decimalExponent);
    }
    if n - 36 < entry.binaryExponent {
      RPowMono(10, entry.decimalExponent, k + 7);
      EightMoreDigits(k, n);
      RPowMono(2, n + 27, entry.binaryExponent + 62);
      TwentySevenMoreBits(n);
    }
  }

  lemma EntryBelow(entry: CachedPower)
    requires entry.IsGood()
    ensures RPow(10, entry.decimalExponent) < RPow(2, entry.binaryExponent + 64)
  {
    hide RPow, Pow;
    var s: int, e := entry.significand, entry.binaryExponent;
    TwoTo65();
    BelowPower(2, 2 * s + 1, 65, e - 1);
  }

  lemma EntryAbove(entry: CachedPower)
    requires entry.IsGood()
    ensures RPow(2, entry.binaryExponent + 62) <= RPow(10, entry.decimalExponent)
  {
    hide RPow, Pow;
    var s: int, e := entry.significand, entry.binaryExponent;
    TwoTo64();
    PowStep(2, 63);
    RPowNat(2, 63);
    RPowAdd(2, 63, e - 1);
    RPowPos(2, e - 1);
    RealMulLe(TWO_63 as real, (2 * s - 1) as real, RPow(2, e - 1));
  }

  lemma TwoTo65()
    ensures Pow(2, 65) == 2 * TWO_64
  {
    hide Pow;
    TwoTo64();
    PowStep(2, 64);
  }

  lemma EightMoreDigits(k: int, n: int)
    requires RPow(10, k - 1) <= RPow(2, n)
    ensures RPow(10, k + 7) <= 100_000_000.0 * RPow(2, n)
  {
    hide RPow;
    RPowAdd(10, 8, k - 1);
    RPowNat(10, 8);
    TenTo8();
    RealMulLe(RPow(10, k - 1), RPow(2, n), RPow(10, 8));
  }

  lemma TenTo8()
    ensures Pow(10, 8) == 100_000_000
  {
  }

  lemma TwoTo27()
    ensures Pow(2, 27) == 134_217_728
  {
    hide Pow;
    SmallPowers();
    PowAdd(2, 10, 10);
    PowAdd(2, 20, 6);
    PowStep(2, 26);
  }

  lemma TwentySevenMoreBits(n: int)
    ensures RPow(2, n + 27) == 134_217_728.0 * RPow(2, n)
    ensures 0.0 < RPow(2, n)
  {
    hide RPow, Pow;
    TwoTo27();
    RPowNat(2, 27);
    RPowAdd(2, 27, n);
    RPowPos(2, n);
  }

  // The entry whose binary exponent lies in a range of 28 or more. The product
  // is one of doubles, off by 'error'.
  method GetCachedPowerForBinaryExponentRange(cache: seq<CachedPower>, minExponent: int, maxExponent: int, error: real)
    returns (power: DiyFp, decimalExponent: int, ghost entry: CachedPower)
    requires GoodCache(cache) && -1100 <= minExponent <= 1050 && minExponent + 27 <= maxExponent
    requires -HARDWARE_ERROR <= error <= HARDWARE_ERROR
    ensures fresh(power) && entry.IsGood() && entry.decimalExponent == decimalExponent
    ensures power.f == entry.significand && power.e == entry.binaryExponent
    ensures minExponent <= power.e <= maxExponent
  {
    hide RPow, CachedPower.IsGood;
    var product := (minExponent + 64 - 1) as real * ONE_OVER_LOG2_10 + error;
    var k := Ceiling(product);
    assert -313 <= k <= 336;
    var index := (k - MIN_DECIMAL_EXPONENT - 1) / DECIMAL_EXPONENT_DISTANCE + 1;
    entry := cache[index];
    CeilingOfLogarithm(minExponent + 63, product);
    BinaryExponentOf(entry, k, minExponent + 63);
    power := new DiyFp(cache[index].significand, cache[index].binaryExponent);
    decimalExponent := cache[index].decimalExponent;
  }

  lemma AdjustmentPowers()
    ensures Pow(10, 1) == 10 && Pow(10, 2) == 100 && Pow(10, 3) == 1000 && Pow(10, 4) == 10000
    ensures Pow(10, 5) == 100000 && Pow(10, 6) == 1000000 && Pow(10, 7) == 10000000
  {
  }

  lemma TwoTo4()
    ensures Pow(2, 3) == 8 && Pow(2, 4) == 16 && Pow(2, 7) == 128
  {
  }

  lemma AdjustmentTwos()
    ensures Pow(2, 60) == 0x1000_0000_0000_0000 && Pow(2, 57) == 0x200_0000_0000_0000
    ensures Pow(2, 54) == 0x40_0000_0000_0000 && Pow(2, 50) == 0x4_0000_0000_0000
    ensures Pow(2, 47) == 0x8000_0000_0000 && Pow(2, 44) == 0x1000_0000_0000 && Pow(2, 40) == 0x100_0000_0000
  {
    hide Pow;
    TwoTo64();
    TwoTo8();
    TwoTo4();
    PowAdd(2, 32, 8);
    PowAdd(2, 40, 4);
    PowAdd(2, 40, 7);
    PowAdd(2, 47, 3);
    PowAdd(2, 50, 4);
    PowAdd(2, 50, 7);
    PowAdd(2, 57, 3);
  }

  // 10^exponent, normalized.
  method AdjustmentPowerOfTen(exponent: int) returns (power: DiyFp)
    requires 0 < exponent < DECIMAL_EXPONENT_DISTANCE
    ensures fresh(power) && TWO_63 <= power.f && -60 <= power.e <= -40
    ensures power.f == Pow(10, exponent) * Pow(2, 0 - power.e)
    ensures exponent == 6 ==> power.f == 0xf424_0000_0000_0000 && power.e == -44
  {
    hide Pow;
    AdjustmentPowers();
    AdjustmentTwos();
    match exponent
    case 1 => power := new DiyFp(0xa000_0000_0000_0000, -60);
    case 2 => power := new DiyFp(0xc800_0000_0000_0000, -57);
    case 3 => power := new DiyFp(0xfa00_0000_0000_0000, -54);
    case 4 => power := new DiyFp(0x9c40_0000_0000_0000, -50);
    case 5 => power := new DiyFp(0xc350_0000_0000_0000, -47);
    case 6 => power := new DiyFp(0xf424_0000_0000_0000, -44);
    case _ => power := new DiyFp(0x9896_8000_0000_0000, -40);
  }
}
