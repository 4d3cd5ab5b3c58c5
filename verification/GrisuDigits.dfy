// external/double-conversion/fast-dtoa.cc: the digit generation of Grisu3 with
// 64-bit integers only.
module GrisuDigits {
  import opened Powers
  import opened Decimal
  import opened DiyFps
  import opened Rounding
  import opened CachedPowers
  import opened FillDigits
  import opened Weeding

  const MINIMAL_TARGET_EXPONENT := -60
  const MAXIMAL_TARGET_EXPONENT := -32
  const MAXIMAL_LENGTH := 17

  // ---------- The biggest power of ten ----------

  const SMALL_POWERS_OF_TEN: seq<nat> :=
    [0, 1, 10, 100, 1000, 10000, 100000, 1000000, 10000000, 100000000, 1000000000]

  lemma SmallPowers(k: nat)
    requires 1 <= k <= 10
    ensures SMALL_POWERS_OF_TEN[k] == Pow(10, k - 1)
  {
    hide Pow;
    AdjustmentPowers();
    PowZero(10);
    PowAdd(10, 7, 1);
    PowAdd(10, 8, 1);
  }

  // How many digits a number of so many bits, or one more, may have.
  function PowerGuess(bits: nat): (guess: nat)
    requires bits <= 32
    ensures 1 <= guess <= 10
  {
    (bits + 1) * 1233 / 4096 + 1
  }

  // Numbers with one bit more than 'bits' have at most as many digits.
  lemma BitsBelowPower(bits: nat)
    requires bits <= 32
    ensures Pow(2, bits + 1) <= 10 * SMALL_POWERS_OF_TEN[PowerGuess(bits)]
  {
    hide Pow;
    TwosTo33();
    PowMono(2, bits + 1, if bits <= 2 then 3 else if bits <= 5 then 6 else if bits <= 8 then 9 else if bits <= 12 then 13
      else if bits <= 15 then 16 else if bits <= 18 then 19 else if bits <= 22 then 23 else if bits <= 25 then 26
      else if bits <= 28 then 29 else 33);
  }

  // A number with at most two bits fewer has at most one digit fewer.
  lemma DigitsOfBits(number: nat, bits: nat)
    requires 4 <= bits <= 32 && Pow(2, bits - 2) <= number
    ensures 1 <= number && SMALL_POWERS_OF_TEN[PowerGuess(bits) - 1] <= number
  {
    hide Pow;
    PowMono(2, 2, bits - 2);
    TwosTo33();
    PowMono(2, if bits <= 5 then 2 else if bits <= 8 then 4 else if bits <= 12 then 7 else if bits <= 15 then 11
      else if bits <= 18 then 14 else if bits <= 22 then 17 else if bits <= 25 then 21 else if bits <= 28 then 24 else 27, bits - 2);
  }

  lemma TwosTo33()
    ensures Pow(2, 2) == 4 && Pow(2, 3) == 8 && Pow(2, 4) == 16 && Pow(2, 6) == 64 && Pow(2, 7) == 128 && Pow(2, 9) == 512
    ensures Pow(2, 11) == 2048 && Pow(2, 13) == 8192 && Pow(2, 14) == 16384 && Pow(2, 16) == 65536
    ensures Pow(2, 17) == 131072 && Pow(2, 19) == 524288 && Pow(2, 21) == 2097152 && Pow(2, 23) == 8388608
    ensures Pow(2, 24) == 16777216 && Pow(2, 26) == 67108864 && Pow(2, 27) == 134217728 && Pow(2, 29) == 536870912
    ensures Pow(2, 33) == 8589934592
  {
    hide Pow;
    TwoTo4();
    TwoTo1();
    PowAdd(2, 1, 1);
    PowAdd(2, 4, 2);
    PowAdd(2, 7, 2);
    PowAdd(2, 9, 2);
    PowAdd(2, 11, 2);
    PowAdd(2, 7, 7);
    PowAdd(2, 14, 2);
    PowAdd(2, 16, 1);
    PowAdd(2, 17, 2);
    PowAdd(2, 19, 2);
    PowAdd(2, 21, 2);
    PowAdd(2, 23, 1);
    PowAdd(2, 24, 2);
    PowAdd(2, 26, 1);
    PowAdd(2, 27, 2);
    PowAdd(2, 29, 4);
  }

  // The table entry that is taken; entry k is 10^(k-1), and entry 0 is 0.
  function ChosenEntry(number: nat, bits: nat): (entry: nat)
    requires bits <= 32
    ensures entry <= 10
  {
    if number < SMALL_POWERS_OF_TEN[PowerGuess(bits)] then PowerGuess(bits) - 1 else PowerGuess(bits)
  }

  // It is the biggest power of ten that is at most number exactly when number is
  // not so small that the guess, even corrected by one, is too big.
  lemma ChosenIsBiggest(number: nat, bits: nat)
    requires bits <= 32 && number < Pow(2, bits + 1)
    ensures var power := SMALL_POWERS_OF_TEN[ChosenEntry(number, bits)];
      0 < power <= number < 10 * power <==> 1 <= number && SMALL_POWERS_OF_TEN[PowerGuess(bits) - 1] <= number
  {
    hide Pow;
    BitsBelowPower(bits);
  }

  // One, said to have up to 30 bits, gets 10^8.
  lemma ChosenIsTooBig()
    ensures 1 < Pow(2, 31) && SMALL_POWERS_OF_TEN[ChosenEntry(1, 30)] == 100_000_000
  {
    hide Pow;
    TwosTo33();
    PowMono(2, 2, 31);
  }

  // The biggest power of ten that is at most number, unless number is too small
  // for numberBits.
  method BiggestPowerTen(number: uint32, numberBits: nat) returns (power: uint32, exponentPlusOne: nat)
    requires numberBits <= 32 && number < Pow(2, numberBits + 1)
    ensures exponentPlusOne <= 10 && power == if exponentPlusOne == 0 then 0 else Pow(10, exponentPlusOne - 1)
    ensures 0 < power <= number < 10 * power
      <==> 1 <= number && SMALL_POWERS_OF_TEN[PowerGuess(numberBits) - 1] <= number
  {
    hide Pow;
    ChosenIsBiggest(number, numberBits);
    var exponentPlusOneGuess := (numberBits + 1) * 1233 / 4096;
    exponentPlusOneGuess := exponentPlusOneGuess + 1;
    if number < SMALL_POWERS_OF_TEN[exponentPlusOneGuess] {
      exponentPlusOneGuess := exponentPlusOneGuess - 1;
    }
    if 1 <= exponentPlusOneGuess { SmallPowers(exponentPlusOneGuess); }
    power := SMALL_POWERS_OF_TEN[exponentPlusOneGuess];
    exponentPlusOne := exponentPlusOneGuess;
  }

  // ---------- Digit generation ----------

  // The digits so far and the rest below one unit of the last of them.
  ghost predicate Split(s: seq<char>, rest: nat, total: nat, unit: nat)
  {
    IsDigits(s) && rest < unit && DecVal(s) * unit + rest == total && (|s| > 0 ==> Pow(10, |s| - 1) <= DecVal(s))
  }

  lemma NextDigit(s: seq<char>, rest: nat, total: nat, unit: nat)
    requires Split(s, rest, total, 10 * unit) && 0 < unit && (|s| == 0 ==> unit <= total)
    ensures rest / unit <= 9
    ensures Split(s + [DigitChar(rest / unit)], rest % unit, total, unit)
    ensures rest / unit * unit + rest % unit == rest
  {
    hide DecVal, Pow;
    DivMod(rest, unit);
    DivLt(rest, unit, 10);
    var q := rest / unit;
    DecAppend(s, DigitChar(q));
    TenfoldUnit(DecVal(s), q, unit);
    if |s| == 0 {
      DecEmpty();
      assert s == [];
      DivLe(rest, unit, 1);
      PowZero(10);
    } else {
      PowStep(10, |s| - 1);
    }
  }

  lemma TenfoldUnit(d: int, q: int, unit: int)
    ensures (10 * d + q) * unit == d * (10 * unit) + q * unit
  {
  }

  // Multiplying the rest, the total and the unit by ten changes nothing.
  lemma TimesTen(s: seq<char>, rest: nat, total: nat, unit: nat)
    requires Split(s, rest, total, unit)
    ensures Split(s, 10 * rest, 10 * total, 10 * unit)
  {
    hide DecVal, Pow;
    var d := DecVal(s);
    assert d * (10 * unit) == 10 * (d * unit);
  }

  // Digits are only added while the unit is at least the interval; seventeen of
  // them are enough for an interval of 10^-16 of the number.
  lemma AtMostSixteen(s: seq<char>, rest: nat, total: nat, unit: nat, interval: nat)
    requires Split(s, rest, total, unit) && interval <= rest && 0 < interval && total <= interval * 10_000_000_000_000_000
    ensures |s| <= 16
  {
    hide DecVal, Pow;
    if |s| > 16 {
      var d := DecVal(s);
      TenTo16();
      PowMono(10, 16, |s| - 1);
      MulLe(10_000_000_000_000_000, d, unit);
      MulLt(interval, unit, 10_000_000_000_000_000);
      assert false;
    }
  }

  lemma TenTo16()
    ensures Pow(10, 16) == 10_000_000_000_000_000
  {
    hide Pow;
    AdjustmentPowers();
    PowAdd(10, 7, 7);
    PowAdd(10, 14, 2);
  }

  // What is known when a digit has been generated: the rest before it was not
  // yet inside the interval.
  ghost predicate Stopped(s: seq<char>, rest: nat, total: nat, unit: nat, interval: nat)
  {
    && 0 < |s| <= MAXIMAL_LENGTH && Split(s, rest, total, unit)
    && interval <= rest + DigitValue(s[|s| - 1]) * unit
  }

  // The digits of totals / one in places down to 10^kappa, and the rest of it.
  ghost predicate IntegralState(s: seq<char>, integrals: nat, fractionals: nat, one: nat, kappa: nat, tooHigh: nat, interval: nat)
  {
    && fractionals < one && Split(s, integrals * one + fractionals, tooHigh, Pow(10, kappa) * one)
    && interval <= integrals * one + fractionals && |s| <= 16
    && (|s| == 0 ==> kappa > 0 && Pow(10, kappa - 1) <= integrals)
  }

  lemma IntegralStep(s: seq<char>, integrals: nat, fractionals: nat, one: nat, kappa: nat, tooHigh: nat, interval: nat, divisor: nat)
    requires IntegralState(s, integrals, fractionals, one, kappa, tooHigh, interval)
    requires kappa > 0 && divisor == Pow(10, kappa - 1)
    ensures 0 < divisor && integrals / divisor <= 9
    ensures var t := s + [DigitChar(integrals / divisor)]; var rest := integrals % divisor * one + fractionals;
      Stopped(t, rest, tooHigh, divisor * one, interval)
  {
    hide DecVal, Pow;
    PowPos(10, kappa - 1);
    PowStep(10, kappa - 1);
    MulLe(1, divisor, one);
    QuotientOfSum(integrals, fractionals, one, divisor);
    var rest := integrals * one + fractionals;
    assert 10 * (divisor * one) == 10 * divisor * one;
    if |s| == 0 {
      MulLe(divisor, integrals, one);
      DecEmpty();
      assert s == [];
    }
    NextDigit(s, rest, tooHigh, divisor * one);
  }

  // Dividing the integral part is dividing the whole.
  lemma QuotientOfSum(integrals: nat, fractionals: nat, one: nat, divisor: nat)
    requires 0 < divisor && fractionals < one
    ensures 0 < divisor * one
    ensures (integrals * one + fractionals) / (divisor * one) == integrals / divisor
    ensures (integrals * one + fractionals) % (divisor * one) == integrals % divisor * one + fractionals
  {
    MulLe(1, divisor, one);
    DivMod(integrals, divisor);
    var q, r := integrals / divisor, integrals % divisor;
    MulLe(0, r, one);
    MulLe(r + 1, divisor, one);
    SumOfParts(q, r, divisor, one, fractionals, integrals);
    DivUnique(integrals * one + fractionals, divisor * one, q, r * one + fractionals);
  }

  lemma SumOfParts(q: int, r: int, divisor: int, one: int, fractionals: int, integrals: int)
    requires integrals == q * divisor + r
    ensures integrals * one + fractionals == q * (divisor * one) + (r * one + fractionals)
    ensures (r + 1) * one == r * one + one
  {
  }

  // A unit of the last digit, 10^kappa, in parts of which 'one' has unit * one.
  ghost predicate DigitScale(kappa: int, one: nat, unit: nat, tenKappa: nat)
  {
    if kappa >= 0 then unit == 1 && tenKappa == Pow(10, kappa) * one
    else unit == Pow(10, 0 - kappa) && tenKappa == one
  }

  // What the result is known to be: the digits of tooHigh where their unit first
  // fits into the interval, lowered t times. It is accepted when it passes the
  // weeding test.
  datatype Grid = Grid(unit: nat, tenKappa: nat, start: seq<char>, rest0: nat, t: nat) {
    ghost predicate Scale(kappa: int, one: nat)
    {
      DigitScale(kappa, one, unit, tenKappa)
    }

    ghost predicate Describes(digits: seq<char>, tooHigh: nat, interval: nat, distance: nat)
    {
      && IsDigits(digits) && |start| == |digits|
      && Stopped(start, rest0, tooHigh * unit, tenKappa, interval * unit)
      && DecVal(digits) + t == DecVal(start)
      && Lowered(rest0, t, tenKappa, interval * unit, distance * unit - unit)
      && rest0 + t * tenKappa <= interval * unit
    }

    ghost predicate Accepts(digits: seq<char>, tooHigh: nat, interval: nat, distance: nat)
    {
      && Describes(digits, tooHigh, interval, distance)
      && Settled(rest0, t, tenKappa, interval * unit, distance * unit - unit, distance * unit + unit)
      && 2 * unit <= rest0 + t * tenKappa <= interval * unit - 4 * unit
    }
  }

  // Weeding the digits that were just generated.
  method Weed(buffer: array<char>, length: nat, tooHigh: uint64, distance: uint64, interval: uint64, unit: uint64,
              scaledDistance: uint64, scaledInterval: uint64, rest: uint64, tenKappa: uint64)
    returns (ok: bool, ghost grid: Grid)
    requires length <= buffer.Length && 0 < distance && distance + 1 <= interval && 4 <= interval && 0 < unit
    requires 0 <= tooHigh * unit && scaledDistance == distance * unit && scaledInterval == interval * unit
    requires Stopped(buffer[..length], rest, tooHigh * unit, tenKappa, scaledInterval) && rest < scaledInterval
    modifies buffer
    ensures IsDigits(buffer[..length]) && grid.unit == unit && grid.tenKappa == tenKappa
    ensures grid.Describes(buffer[..length], tooHigh, interval, distance)
    ensures ok <==> grid.Accepts(buffer[..length], tooHigh, interval, distance)
  {
    hide DecVal, Pow, Split;
    ghost var start: seq<char> := buffer[..length];
    StoppedHas(start, rest, tooHigh * unit, tenKappa, scaledInterval);
    UnitBounds(distance, interval, unit);
    ghost var t;
    ok, t := RoundWeed(buffer, length, scaledDistance, scaledInterval, rest, tenKappa, unit);
    grid := Grid(unit, tenKappa, start, rest, t);
  }

  lemma StoppedHas(s: seq<char>, rest: nat, total: nat, unit: nat, interval: nat)
    requires Stopped(s, rest, total, unit, interval)
    ensures IsDigits(s) && rest < unit
  {
  }

  lemma UnitBounds(distance: nat, interval: nat, unit: nat)
    requires 0 < distance && distance + 1 <= interval && 4 <= interval
    ensures unit <= distance * unit && distance * unit + unit <= interval * unit && 4 * unit <= interval * unit
  {
    MulLe(1, distance, unit);
    MulLe(distance + 1, interval, unit);
    MulLe(4, interval, unit);
    assert (distance + 1) * unit == distance * unit + unit;
  }

  // The integral digits of tooHigh. Stops when the rest is inside the interval.
  method IntegralDigits(tooHigh: uint64, distance: uint64, interval: uint64, one: uint64, e: nat, buffer: array<char>)
    returns (stopped: bool, ok: bool, length: nat, kappa: nat, fractionals: uint64, ghost grid: Grid)
    requires 32 <= e <= 60 && one == Pow(2, e) && 0x4000_0000_0000_0000 <= tooHigh
    requires 0 < distance && distance + 1 <= interval <= tooHigh && 4 <= interval
    requires tooHigh <= interval * 10_000_000_000_000_000 && MAXIMAL_LENGTH <= buffer.Length
    modifies buffer
    ensures length <= MAXIMAL_LENGTH && IsDigits(buffer[..length])
    ensures stopped ==> grid.Scale(kappa, one) && grid.Describes(buffer[..length], tooHigh, interval, distance)
    ensures stopped ==> (ok <==> grid.Accepts(buffer[..length], tooHigh, interval, distance))
    ensures !stopped ==> kappa == 0 && 0 < length <= 16 && interval <= fractionals
    ensures !stopped ==> Split(buffer[..length], fractionals, tooHigh, one)
  {
    hide DecVal, Pow, IntegralState, Split, Stopped, Grid.Describes, Grid.Accepts;
    PowPos(2, e);
    OneBounds(tooHigh, e);
    var integrals: uint32 := tooHigh / one;
    fractionals := tooHigh % one;
    var divisor: uint32;
    DigitsOfBits(integrals, 64 - e);
    divisor, kappa := BiggestPowerTen(integrals, 64 - e);
    length := 0;
    grid := Grid(1, 1, [], 0, 0);
    StartIntegral(tooHigh, one, kappa, interval);
    assert buffer[..0] == [];
    while kappa > 0
      invariant 0 <= kappa <= 10 && length <= 16
      invariant kappa > 0 ==> divisor == Pow(10, kappa - 1)
      invariant IntegralState(buffer[..length], integrals, fractionals, one, kappa, tooHigh, interval)
      invariant kappa == 0 ==> integrals == 0
      invariant 0 <= integrals && 0 <= divisor
    {
      IntegralStep(buffer[..length], integrals, fractionals, one, kappa, tooHigh, interval, divisor);
      var digit := integrals / divisor;
      ghost var s: seq<char> := buffer[..length];
      buffer[length] := DigitChar(digit);
      length := length + 1;
      assert buffer[..length] == s + [DigitChar(digit)];
      integrals := integrals % divisor;
      kappa := kappa - 1;
      RestFits(buffer[..length], integrals, fractionals, one, divisor, tooHigh, interval);
      var rest: uint64 := integrals * one + fractionals;
      if rest < interval {
        ok, grid := Weed(buffer, length, tooHigh, distance, interval, 1, distance, interval, rest, divisor * one);
        return true, ok, length, kappa, fractionals, grid;
      }
      NotStopped(buffer[..length], integrals, fractionals, one, kappa, tooHigh, interval, divisor);
      divisor := divisor / 10;
    }
    stopped, ok := false, false;
    IntegralEnd(buffer[..length], integrals, fractionals, one, tooHigh, interval);
  }

  lemma OneBounds(tooHigh: uint64, e: nat)
    requires 32 <= e <= 60 && 0x4000_0000_0000_0000 <= tooHigh
    ensures 0x1_0000_0000 <= Pow(2, e) <= 0x1000_0000_0000_0000
    ensures Pow(2, 62 - e) <= tooHigh / Pow(2, e) < Pow(2, 64 - e) <= 0x1_0000_0000
    ensures Pow(2, 64 - e) <= Pow(2, 65 - e)
  {
    hide Pow;
    TwoTo64();
    TwoTo53();
    PowMono(2, 32, e);
    PowMono(2, e, 60);
    PowMono(2, 64 - e, 32);
    PowMono(2, 64 - e, 65 - e);
    PowAdd(2, 64 - e, e);
    PowAdd(2, 62 - e, e);
    PowAdd(2, 60, 2);
    TwosTo33();
    DivLe(tooHigh, Pow(2, e), Pow(2, 62 - e));
    DivLt(tooHigh, Pow(2, e), Pow(2, 64 - e));
  }

  lemma StartIntegral(tooHigh: nat, one: nat, kappa: nat, interval: nat)
    requires 0 < one && 0 < kappa && interval <= tooHigh
    requires Pow(10, kappa - 1) <= tooHigh / one < 10 * Pow(10, kappa - 1)
    ensures IntegralState([], tooHigh / one, tooHigh % one, one, kappa, tooHigh, interval)
  {
    hide DecVal, Pow;
    DecEmpty();
    DivMod(tooHigh, one);
    PowStep(10, kappa - 1);
    MulLe(tooHigh / one + 1, Pow(10, kappa), one);
    assert (tooHigh / one + 1) * one == tooHigh / one * one + one;
  }

  lemma RestFits(s: seq<char>, integrals: nat, fractionals: nat, one: nat, divisor: nat, tooHigh: uint64, interval: nat)
    requires Stopped(s, integrals * one + fractionals, tooHigh, divisor * one, interval)
    requires 0 < DecVal(s) || |s| > 0
    ensures IsDigits(s) && 0 < DecVal(s)
    ensures 0 < divisor * one <= tooHigh && integrals * one + fractionals <= tooHigh && 0 <= integrals * one
  {
    hide DecVal, Pow;
    PowPos(10, |s| - 1);
    MulLe(0, integrals, one);
    MulLe(1, DecVal(s), divisor * one);
  }

  lemma NotStopped(s: seq<char>, integrals: nat, fractionals: nat, one: nat, kappa: nat, tooHigh: nat, interval: nat, divisor: nat)
    requires Stopped(s, integrals * one + fractionals, tooHigh, divisor * one, interval) && divisor == Pow(10, kappa)
    requires fractionals < one && interval <= integrals * one + fractionals && 0 < interval
    requires tooHigh <= interval * 10_000_000_000_000_000
    ensures |s| <= 16 && IntegralState(s, integrals, fractionals, one, kappa, tooHigh, interval)
    ensures kappa > 0 ==> divisor / 10 == Pow(10, kappa - 1)
    ensures kappa == 0 ==> integrals == 0
  {
    hide DecVal, Pow;
    AtMostSixteen(s, integrals * one + fractionals, tooHigh, divisor * one, interval);
    if kappa > 0 {
      PowStep(10, kappa - 1);
    } else {
      PowZero(10);
      if 1 <= integrals { MulLe(1, integrals, one); }
    }
  }

  lemma IntegralEnd(s: seq<char>, integrals: nat, fractionals: nat, one: nat, tooHigh: nat, interval: nat)
    requires IntegralState(s, integrals, fractionals, one, 0, tooHigh, interval) && integrals == 0
    ensures IsDigits(s) && Split(s, fractionals, tooHigh, one) && interval <= fractionals && 0 < |s| <= 16
  {
    hide DecVal, Pow;
    PowZero(10);
  }

  // One more digit behind the point: everything is multiplied by ten, the unit of
  // the digits stays.
  lemma FractionalStep(s: seq<char>, fractionals: nat, tooHigh: nat, unit: nat, one: nat, interval: nat)
    requires Split(s, fractionals, tooHigh * unit, one) && interval * unit <= fractionals && 0 < |s| <= 16 && 0 < one
    ensures 10 * fractionals / one <= 9 && tooHigh * (10 * unit) == 10 * (tooHigh * unit)
    ensures 10 * fractionals < 10 * one
    ensures Stopped(s + [DigitChar(10 * fractionals / one)], 10 * fractionals % one, tooHigh * (10 * unit), one, interval * (10 * unit))
  {
    hide DecVal, Pow;
    TimesTen(s, fractionals, tooHigh * unit, one);
    NextDigit(s, 10 * fractionals, 10 * (tooHigh * unit), one);
    TenfoldProducts(tooHigh, interval, unit);
  }

  lemma TenfoldProducts(tooHigh: int, interval: int, unit: int)
    ensures tooHigh * (10 * unit) == 10 * (tooHigh * unit) && interval * (10 * unit) == 10 * (interval * unit)
  {
  }

  lemma FractionalNotStopped(s: seq<char>, rest: nat, tooHigh: nat, unit: nat, one: nat, interval: nat)
    requires Stopped(s, rest, tooHigh * unit, one, interval * unit) && interval * unit <= rest
    requires 0 < interval && 0 < unit && tooHigh <= interval * 10_000_000_000_000_000
    ensures IsDigits(s) && Split(s, rest, tooHigh * unit, one) && 0 < |s| <= 16 && 0 < interval * unit && rest < one
  {
    hide DecVal, Pow;
    MulLe(1, interval, unit);
    MulLe(tooHigh, interval * 10_000_000_000_000_000, unit);
    assert interval * 10_000_000_000_000_000 * unit == interval * unit * 10_000_000_000_000_000;
    AtMostSixteen(s, rest, tooHigh * unit, one, interval * unit);
  }

  // The digits behind the point, until the rest is inside the interval.
  method FractionalDigits(tooHigh: uint64, distance: uint64, interval: uint64, one: uint64, fractionals0: uint64,
                          buffer: array<char>, length0: nat)
    returns (ok: bool, length: nat, kappa: int, ghost grid: Grid)
    requires 0 < one <= 0x1000_0000_0000_0000 && 0 < length0 <= 16 && MAXIMAL_LENGTH <= buffer.Length
    requires 0 < distance && distance + 1 <= interval <= fractionals0 < one && 4 <= interval
    requires tooHigh <= interval * 10_000_000_000_000_000
    requires Split(buffer[..length0], fractionals0, tooHigh, one)
    modifies buffer
    ensures length <= MAXIMAL_LENGTH && IsDigits(buffer[..length])
    ensures grid.Scale(kappa, one) && grid.Describes(buffer[..length], tooHigh, interval, distance)
    ensures ok <==> grid.Accepts(buffer[..length], tooHigh, interval, distance)
  {
    hide DecVal, Pow, Split, Stopped, Grid.Describes, Grid.Accepts;
    var fractionals: uint64 := fractionals0;
    var unit: uint64, unsafeInterval: uint64 := 1, interval;
    length, kappa := length0, 0;
    PowZero(10);
    while true
      invariant 0 < length <= 16 && kappa <= 0 && unit == Pow(10, 0 - kappa) && 0 < unit <= unsafeInterval
      invariant unsafeInterval == interval * unit && unsafeInterval <= fractionals < one && 0 <= tooHigh * unit
      invariant Split(buffer[..length], fractionals, tooHigh * unit, one)
      decreases one - unsafeInterval
    {
      ghost var s: seq<char>, f: int, before: int := buffer[..length], fractionals, unsafeInterval;
      FractionalStep(s, f, tooHigh, unit, one, interval);
      PowStep(10, 0 - kappa);
      TenfoldProducts(tooHigh, interval, unit);
      fractionals := fractionals * 10;
      unit := unit * 10;
      unsafeInterval := unsafeInterval * 10;
      var digit := fractionals / one;
      buffer[length] := DigitChar(digit);
      length := length + 1;
      assert buffer[..length] == s + [DigitChar(digit)];
      fractionals := fractionals % one;
      kappa := kappa - 1;
      if fractionals < unsafeInterval {
        UnitBounds(distance, interval, unit);
        ok, grid := Weed(buffer, length, tooHigh, distance, interval, unit, distance * unit, unsafeInterval, fractionals, one);
        return;
      }
      FractionalNotStopped(buffer[..length], fractionals, tooHigh, unit, one, interval);
    }
  }

  // Generates the digits of too_high until they are in the interval. An accepted
  // result is described by the grid; low, w and high are taken to be off by less
  // than one unit.
  method DigitGen(low: DiyFp, w: DiyFp, high: DiyFp, buffer: array<char>)
    returns (ok: bool, length: nat, kappa: int, ghost grid: Grid)
    requires low.e == w.e == high.e && MINIMAL_TARGET_EXPONENT <= w.e <= MAXIMAL_TARGET_EXPONENT
    requires 0 < low.f < w.f < high.f < MAX_SIGNIFICAND && 0x4000_0000_0000_0000 <= high.f
    requires high.f + 1 <= (high.f - low.f + 2) * 10_000_000_000_000_000 && MAXIMAL_LENGTH <= buffer.Length
    modifies buffer
    ensures length <= MAXIMAL_LENGTH && IsDigits(buffer[..length])
    ensures grid.Scale(kappa, Pow(2, 0 - w.e))
    ensures grid.Describes(buffer[..length], high.f + 1, high.f - low.f + 2, high.f + 1 - w.f)
    ensures ok <==> grid.Accepts(buffer[..length], high.f + 1, high.f - low.f + 2, high.f + 1 - w.f)
  {
    hide DecVal, Pow, Split, Grid.Describes, Grid.Accepts, Grid.Scale;
    var unit := 1;
    var tooLow := new DiyFp(low.f - unit, low.e);
    var tooHigh := new DiyFp(high.f + unit, high.e);
    var unsafeInterval := new DiyFp(tooHigh.f, tooHigh.e);
    unsafeInterval.Subtract(tooLow);
    var distance := new DiyFp(tooHigh.f, tooHigh.e);
    distance.Subtract(w);
    OneBounds(tooHigh.f, 0 - w.e);
    var one: uint64 := Pow(2, -w.e);
    var stopped, fractionals, integralKappa;
    stopped, ok, length, integralKappa, fractionals, grid :=
      IntegralDigits(tooHigh.f, distance.f, unsafeInterval.f, one, -w.e, buffer);
    kappa := integralKappa;
    if stopped {
      return;
    }
    SplitBelow(buffer[..length], fractionals, tooHigh.f, one);
    ok, length, kappa, grid := FractionalDigits(tooHigh.f, distance.f, unsafeInterval.f, one, fractionals, buffer, length);
  }

  const MAX_SIGNIFICAND: int := 0xFFFF_FFFF_FFFF_FFFF

  lemma SplitBelow(s: seq<char>, rest: nat, total: nat, unit: nat)
    requires Split(s, rest, total, unit)
    ensures rest < unit
  {
  }

  // ---------- A given number of digits ----------

  lemma CountedStart(total: nat, one: nat, kappa: nat)
    requires 0 < one && 0 < kappa && Pow(10, kappa - 1) <= total / one < 10 * Pow(10, kappa - 1)
    ensures IntegralState([], total / one, total % one, one, kappa, total, 0)
  {
    hide Pow;
    StartIntegral(total, one, kappa, 0);
  }

  lemma CountedNext(s: seq<char>, integrals: nat, fractionals: nat, one: nat, kappa: nat, total: nat, divisor: nat)
    requires Stopped(s, integrals * one + fractionals, total, divisor * one, 0) && divisor == Pow(10, kappa)
    requires fractionals < one && |s| <= 16
    ensures IsDigits(s) && IntegralState(s, integrals, fractionals, one, kappa, total, 0)
    ensures kappa > 0 ==> divisor / 10 == Pow(10, kappa - 1)
    ensures kappa == 0 ==> integrals == 0
    ensures 0 <= integrals * one && integrals * one + fractionals < divisor * one
  {
    hide DecVal, Pow;
    MulLe(0, integrals, one);
    if kappa > 0 {
      PowStep(10, kappa - 1);
    } else {
      PowZero(10);
      if 1 <= integrals { MulLe(1, integrals, one); }
    }
  }

  lemma CountedSplit(s: seq<char>, rest: nat, total: nat, unit: nat)
    requires Stopped(s, rest, total, unit, 0)
    ensures Split(s, rest, total, unit) && IsDigits(s) && rest < unit && 0 < |s| && Pow(10, |s| - 1) <= DecVal(s)
  {
  }

  lemma UnitAtMostTotal(s: seq<char>, rest: nat, total: nat, unit: nat)
    requires Split(s, rest, total, unit) && |s| > 0
    ensures unit <= total
  {
    hide DecVal, Pow;
    PowPos(10, |s| - 1);
    MulLe(1, DecVal(s), unit);
  }

  // Generates digits of total until there are enough or none are left before the
  // point.
  method CountedIntegralDigits(total: uint64, requestedDigits: nat, one: uint64, e: nat, buffer: array<char>)
    returns (length: nat, kappa: nat, rest: uint64, tenKappa: uint64)
    requires 32 <= e <= 60 && one == Pow(2, e) && 0x4000_0000_0000_0000 <= total
    requires 0 < requestedDigits <= buffer.Length
    modifies buffer
    ensures 0 < length <= requestedDigits && IsDigits(buffer[..length]) && (length < requestedDigits ==> kappa == 0)
    ensures Split(buffer[..length], rest, total, tenKappa) && tenKappa == Pow(10, kappa) * one && kappa <= 10
  {
    hide DecVal, Pow, IntegralState, Split, Stopped;
    PowPos(2, e);
    OneBounds(total, e);
    var integrals: uint32 := total / one;
    var fractionals: uint64 := total % one;
    var divisor: uint32;
    DigitsOfBits(integrals, 64 - e);
    divisor, kappa := BiggestPowerTen(integrals, 64 - e);
    length := 0;
    CountedStart(total, one, kappa);
    assert buffer[..0] == [];
    ghost var digits := kappa;
    while kappa > 0
      invariant 0 <= kappa && length + kappa == digits <= 10 && length < requestedDigits
      invariant kappa > 0 ==> divisor == Pow(10, kappa - 1)
      invariant IntegralState(buffer[..length], integrals, fractionals, one, kappa, total, 0)
      invariant kappa == 0 ==> integrals == 0 && length > 0
      invariant 0 <= integrals && 0 <= divisor
    {
      IntegralStep(buffer[..length], integrals, fractionals, one, kappa, total, 0, divisor);
      var digit := integrals / divisor;
      ghost var s: seq<char> := buffer[..length];
      buffer[length] := DigitChar(digit);
      length := length + 1;
      assert buffer[..length] == s + [DigitChar(digit)];
      integrals := integrals % divisor;
      kappa := kappa - 1;
      CountedNext(buffer[..length], integrals, fractionals, one, kappa, total, divisor);
      CountedSplit(buffer[..length], integrals * one + fractionals, total, divisor * one);
      UnitAtMostTotal(buffer[..length], integrals * one + fractionals, total, divisor * one);
      if length == requestedDigits {
        rest, tenKappa := integrals * one + fractionals, divisor * one;
        return;
      }
      divisor := divisor / 10;
    }
    CountedEnd(buffer[..length], integrals, fractionals, one, total);
    rest, tenKappa := fractionals, one;
  }

  lemma CountedEnd(s: seq<char>, integrals: nat, fractionals: nat, one: nat, total: nat)
    requires IntegralState(s, integrals, fractionals, one, 0, total, 0) && integrals == 0 && 0 < |s|
    ensures IsDigits(s) && Split(s, fractionals, total, one) && one == Pow(10, 0) * one
  {
    hide DecVal, Pow;
    PowZero(10);
  }

  lemma CountedFraction(s: seq<char>, fractionals: nat, total: nat, unit: nat, one: nat)
    requires Split(s, fractionals, total * unit, one) && 0 < |s| && 0 < one
    ensures 10 * fractionals / one <= 9 && 10 * fractionals < 10 * one
    ensures var t := s + [DigitChar(10 * fractionals / one)];
      IsDigits(t) && Split(t, 10 * fractionals % one, total * (10 * unit), one)
  {
    hide DecVal, Pow;
    TimesTen(s, fractionals, total * unit, one);
    NextDigit(s, 10 * fractionals, 10 * (total * unit), one);
    TenfoldProducts(total, 0, unit);
  }

  // What the result is known to be: 'start' are the digits of w, 'rounded' is
  // their number after rounding. It is accepted when that is certain for every
  // number within one unit.
  datatype CountedGrid = CountedGrid(unit: nat, tenKappa: nat, start: seq<char>, rest: nat, rounded: nat) {
    ghost predicate Describes(w: nat)
    {
      |start| > 0 && 0 < unit && Split(start, rest, w * unit, tenKappa)
    }

    ghost predicate IsCertain()
    {
      2 * unit < tenKappa && (2 * (rest + unit) <= tenKappa || tenKappa <= 2 * (rest - unit))
    }

    ghost predicate Accepts(w: nat)
    {
      && Describes(w) && 2 * unit < tenKappa
      && rounded == DecVal(start) + (if 2 * rest >= tenKappa then 1 else 0)
      && (if 2 * rest >= tenKappa then 2 * (rest - unit) >= tenKappa else 2 * (rest + unit) <= tenKappa)
    }
  }

  // 'requestedDigits' digits of w, rounded. A carry out of all nines leaves
  // 10...0, and kappa is one more than for the digits before it.
  method DigitGenCounted(w: DiyFp, requestedDigits: nat, buffer: array<char>)
    returns (ok: bool, length: nat, kappa: int, ghost grid: CountedGrid, ghost carriedOut: bool)
    requires MINIMAL_TARGET_EXPONENT <= w.e <= MAXIMAL_TARGET_EXPONENT && 0x4000_0000_0000_0000 <= w.f
    requires 0 < requestedDigits <= buffer.Length
    modifies buffer
    ensures length <= requestedDigits && IsDigits(buffer[..length])
    ensures grid.Describes(w.f) && length == |grid.start|
    ensures ok <==> length == requestedDigits && grid.IsCertain()
    ensures length < requestedDigits ==> grid.rest <= grid.unit
    ensures ok ==> grid.Accepts(w.f)
    ensures 0 < length + if carriedOut then kappa - 1 else kappa
    ensures DigitScale(if carriedOut then kappa - 1 else kappa, Pow(2, 0 - w.e), grid.unit, grid.tenKappa)
    ensures ok && carriedOut ==> grid.rounded == Pow(10, length) && DecVal(buffer[..length]) == Pow(10, length - 1)
    ensures ok && !carriedOut ==> DecVal(buffer[..length]) == grid.rounded
  {
    hide DecVal, Pow, Split;
    var wError: uint64 := 1;
    OneBounds(w.f, 0 - w.e);
    var one: uint64 := Pow(2, -w.e);
    var kappa0, rest: uint64, tenKappa: uint64;
    length, kappa0, rest, tenKappa := CountedIntegralDigits(w.f, requestedDigits, one, -w.e, buffer);
    kappa := kappa0;
    PowZero(10);
    carriedOut := false;
    assert w.f * 1 == w.f;
    if length < requestedDigits {
      UnitIsOne(buffer[..length], rest, w.f, tenKappa, one);
      while length < requestedDigits && rest > wError
        invariant 0 < length <= requestedDigits && kappa <= 0 < length + kappa && wError == Pow(10, 0 - kappa) && 0 < wError
        invariant rest < one && tenKappa == one && IsDigits(buffer[..length])
        invariant Split(buffer[..length], rest, w.f * wError, one)
      {
        ghost var s: seq<char>, f: int := buffer[..length], rest;
        CountedFraction(s, f, w.f, wError, one);
        PowStep(10, 0 - kappa);
        rest := rest * 10;
        wError := wError * 10;
        var digit := rest / one;
        buffer[length] := DigitChar(digit);
        length := length + 1;
        assert buffer[..length] == s + [DigitChar(digit)];
        rest := rest % one;
        kappa := kappa - 1;
      }
      if length != requestedDigits {
        grid := CountedGrid(wError, tenKappa, buffer[..length], rest, 0);
        return false, length, kappa, grid, false;
      }
    }
    ghost var start: seq<char> := buffer[..length];
    SplitBelow(start, rest, w.f * wError, tenKappa);
    ghost var rounded;
    var carry;
    ok, carry, rounded := RoundWeedCounted(buffer, length, rest, tenKappa, wError);
    carriedOut := carry;
    if carry {
      kappa := kappa + 1;
    }
    grid := CountedGrid(wError, tenKappa, start, rest, rounded);
  }

  lemma UnitIsOne(s: seq<char>, rest: nat, total: nat, tenKappa: nat, one: nat)
    requires Split(s, rest, total, tenKappa) && tenKappa == Pow(10, 0) * one
    ensures tenKappa == one && rest < one && IsDigits(s)
  {
    hide Pow;
    PowZero(10);
  }
}
