// external/double-conversion/string-to-double.cc: reading long hexadecimal and
// octal integers as the nearest double.
module Radix {
  import opened Powers
  import opened DiyFps
  import opened Ieee
  import opened DoubleBits
  import opened Rounding
  import opened RadixDigits

  datatype Result = Junk | Number(negative: bool, bits: uint64)

  // ---------- Rounding the bits beyond the significand ----------

  // Exactly in the middle: the even one of the two neighbours.
  lemma RoundsTie(x: real, significand: nat, exponent: int, unit: real)
    requires unit == RPow(2, exponent)
    requires IsNormal(significand, exponent) && significand < 2 * HIDDEN_BIT
    requires x == (significand as real + 0.5) * unit
    ensures RoundsTo(x, BitsOf(if significand % 2 == 0 then significand else significand + 1, exponent))
  {
    hide RPow, Double.Upper, Double.Value, RoundsTo;
    var s, u := significand as real, BitsOf(significand, exponent);
    RPowPos(2, exponent);
    RealMulLt(s + 0.25, s + 0.5, unit);
    RealMulLt(s + 0.5, s + 0.75, unit);
    RoundsNear(x, significand, exponent, unit);
    BitsLayout(significand, exponent);
    if exponent < MAX_EXPONENT {
      UpperOf(significand, exponent);
      BoundaryDecides(x, u);
      assert u % 2 == significand % 2;
    }
  }

  // The number q * 2^c + d followed by k digits of value tail, in units of the
  // last bit of q: d decides, then whether the tail is zero, then the parity.
  ghost function RoundedUp(q: nat, d: nat, c: nat, zeroTail: bool): bool
    requires 0 < c
  {
    d > Pow(2, c - 1) || (d == Pow(2, c - 1) && (q % 2 == 1 || !zeroTail))
  }

  lemma DroppedBits(x: nat, q: nat, d: nat, c: nat, tail: nat, k: nat)
    requires HIDDEN_BIT <= q < 2 * HIDDEN_BIT && 0 < c && d < Pow(2, c) && tail < Pow(2, k)
    requires x == (q * Pow(2, c) + d) * Pow(2, k) + tail
    ensures RoundsTo(x as real, BitsOf(if RoundedUp(q, d, c, tail == 0) then q + 1 else q, c + k))
  {
    hide Pow, RPow, RoundsTo, BitsOf;
    var h, r, unit := Pow(2, c - 1), Pow(2, k), RPow(2, c + k);
    PowStep(2, c - 1);
    PowPos(2, k);
    HalfUnit(c, k);
    InHalves(x, q, d, h, r, tail);
    Classify(d, h, r, tail);
    RoundAtHalf(x, q, h * r, d * r + tail, c + k, unit, RoundedUp(q, d, c, tail == 0));
  }

  lemma HalfUnit(c: nat, k: nat)
    requires 0 < c
    ensures RPow(2, c + k) == 2.0 * (Pow(2, c - 1) * Pow(2, k)) as real
  {
    hide Pow, RPow;
    PowStep(2, c - 1);
    PowAdd(2, c, k);
    RPowNat(2, c + k);
    Doubled(Pow(2, c - 1), Pow(2, k));
  }

  lemma Doubled(a: int, b: int)
    ensures 2 * a * b == 2 * (a * b)
  {
  }

  // The dropped bits and the tail, compared with half a unit.
  lemma Classify(d: nat, h: nat, r: nat, tail: nat)
    requires d < 2 * h && tail < r
    ensures 0 <= d * r && d * r + tail < 2 * (h * r)
    ensures d > h ==> d * r + tail > h * r
    ensures d == h && tail == 0 ==> d * r + tail == h * r
    ensures d == h && tail > 0 ==> d * r + tail > h * r
    ensures d < h ==> d * r + tail < h * r
  {
    MulLe(0, d, r);
    MulLe(d + 1, 2 * h, r);
    MulOneMore(d, r);
    Doubled(h, r);
    if d > h {
      MulLe(h + 1, d, r);
      MulOneMore(h, r);
    } else if d < h {
      MulLe(d + 1, h, r);
    }
  }

  lemma InHalves(x: nat, q: nat, d: nat, h: nat, r: nat, tail: nat)
    requires x == (q * (2 * h) + d) * r + tail
    ensures x == 2 * (q * (h * r)) + (d * r + tail) && 0 <= d * r && 0 <= h * r
  {
    MulLe(0, d, r);
    MulLe(0, h, r);
    assert q * (2 * h) * r == 2 * (q * (h * r));
  }

  lemma RoundAtHalf(x: nat, q: nat, half: nat, rest: nat, e: int, unit: real, up: bool)
    requires HIDDEN_BIT <= q < 2 * HIDDEN_BIT && 0 <= e && unit == RPow(2, e) && unit == 2.0 * half as real
    requires x == 2 * (q * half) + rest && rest < 2 * half
    requires rest > half ==> up
    requires rest < half ==> !up
    requires rest == half ==> (up <==> q % 2 == 1)
    ensures RoundsTo(x as real, BitsOf(if up then q + 1 else q, e))
  {
    hide RPow, RoundsTo, BitsOf;
    if rest > half {
      AboveHalf(x, q, half, unit);
      RoundsUp(x as real, q, e, unit);
    } else if rest == half {
      AtHalf(x, q, half, unit);
      RoundsTie(x as real, q, e, unit);
    } else {
      BelowHalf(x, q, half, unit);
      RoundsDown(x as real, q, e, unit);
    }
  }

  lemma HalvesAsReal(x: int, q: int, half: int, rest: int, unit: real)
    requires x == 2 * (q * half) + rest && unit == 2.0 * half as real
    ensures x as real == q as real * unit + rest as real
  {
    RealMul(q, half);
    Doubling(q as real, half as real);
  }

  lemma Doubling(q: real, h: real)
    ensures q * (2.0 * h) == 2.0 * (q * h)
  {
  }

  lemma Shifted(q: real, a: real, unit: real)
    ensures (q + a) * unit == q * unit + a * unit
  {
  }

  lemma AboveHalf(x: nat, q: nat, half: nat, unit: real)
    requires 2 * (q * half) + half < x < 2 * (q * half) + 2 * half && unit == 2.0 * half as real
    ensures (q as real + 0.5) * unit < x as real < (q as real + 1.25) * unit
  {
    HalvesAsReal(x, q, half, x - 2 * (q * half), unit);
    Shifted(q as real, 0.5, unit);
    Shifted(q as real, 1.25, unit);
  }

  lemma AtHalf(x: nat, q: nat, half: nat, unit: real)
    requires x == 2 * (q * half) + half && unit == 2.0 * half as real
    ensures x as real == (q as real + 0.5) * unit
  {
    HalvesAsReal(x, q, half, half, unit);
    Shifted(q as real, 0.5, unit);
  }

  lemma BelowHalf(x: nat, q: nat, half: nat, unit: real)
    requires 2 * (q * half) <= x < 2 * (q * half) + half && unit == 2.0 * half as real
    ensures (q as real - 0.25) * unit <= x as real < (q as real + 0.5) * unit
  {
    HalvesAsReal(x, q, half, x - 2 * (q * half), unit);
    Shifted(q as real, 0.5, unit);
    Shifted(q as real, -0.25, unit);
  }

  // ---------- Reading the digits ----------

  // 'read' are the digits before pos, none of the whole number is lost.
  ghost predicate Scanned(text: seq<char>, start: nat, pos: nat, read: seq<nat>, separator: Option<char>, radix: nat)
    requires radix <= 32
  {
    && start <= pos <= |text| && (forall i :: 0 <= i < |read| ==> read[i] < radix)
    && read + DigitsFrom(text, pos, separator, radix) == DigitsFrom(text, start, separator, radix)
    && EndOf(text, pos, separator, radix) == EndOf(text, start, separator, radix)
  }

  lemma ScanStep(text: seq<char>, start: nat, pos: nat, read: seq<nat>, separator: Option<char>, radix: nat)
    requires radix <= 32 && Scanned(text, start, pos, read, separator, radix)
    requires pos < |text| && IsDigitOf(text[pos], radix)
    ensures Scanned(text, start, Advance(text, pos, separator, radix), read + [DigitOf(text[pos], radix)], separator, radix)
  {
    var d, next := DigitOf(text[pos], radix), Advance(text, pos, separator, radix);
    assert read + ([d] + DigitsFrom(text, next, separator, radix)) == read + [d] + DigitsFrom(text, next, separator, radix);
  }

  lemma ScanEnd(text: seq<char>, start: nat, pos: nat, read: seq<nat>, separator: Option<char>, radix: nat)
    requires radix <= 32 && Scanned(text, start, pos, read, separator, radix)
    requires pos < |text| ==> !IsDigitOf(text[pos], radix)
    ensures read == DigitsFrom(text, start, separator, radix) && pos == EndOf(text, start, separator, radix)
  {
    assert read + [] == read;
  }

  // The value of the digit at a position, looked up as the three kinds of digits.
  method DigitAt(c: char, radix: nat) returns (isDigit: bool, digit: nat)
    requires radix <= 32
    ensures isDigit <==> IsDigitOf(c, radix)
    ensures isDigit ==> digit == DigitOf(c, radix)
  {
    DigitKinds(c, radix);
    isDigit, digit := true, 0;
    if IsDecimalDigitForRadix(c, radix) {
      digit := c as int - '0' as int;
    } else if IsCharacterDigitForRadix(c, radix, 'a') {
      digit := c as int - 'a' as int + 10;
    } else if IsCharacterDigitForRadix(c, radix, 'A') {
      digit := c as int - 'A' as int + 10;
    } else {
      isDigit := false;
    }
  }

  // How many bits of number are beyond the 53 that fit.
  method CountOverflowBits(number: nat) returns (overflowBitsCount: nat)
    requires 2 * HIDDEN_BIT <= number
    ensures 0 < overflowBitsCount
    ensures HIDDEN_BIT * Pow(2, overflowBitsCount) <= number < 2 * HIDDEN_BIT * Pow(2, overflowBitsCount)
  {
    hide Pow;
    var overflow := number / (2 * HIDDEN_BIT);
    overflowBitsCount := 1;
    TwoTo1();
    PowZero(2);
    ghost var p := 1;
    while overflow > 1
      invariant 0 < overflow && 0 < overflowBitsCount && p == Pow(2, overflowBitsCount - 1)
      invariant 2 * HIDDEN_BIT * overflow * p <= number < 2 * HIDDEN_BIT * (overflow + 1) * p
      decreases overflow
    {
      HalveOverflow(overflow, p, number);
      PowStep(2, overflowBitsCount - 1);
      overflowBitsCount := overflowBitsCount + 1;
      overflow := overflow / 2;
      p := 2 * p;
    }
    PowStep(2, overflowBitsCount - 1);
  }

  lemma HalveOverflow(overflow: nat, p: nat, number: nat)
    requires 2 * HIDDEN_BIT * overflow * p <= number < 2 * HIDDEN_BIT * (overflow + 1) * p
    ensures 2 * HIDDEN_BIT * (overflow / 2) * (2 * p) <= number < 2 * HIDDEN_BIT * (overflow / 2 + 1) * (2 * p)
  {
    var h := overflow / 2;
    MulLe(2 * HIDDEN_BIT * (2 * h), 2 * HIDDEN_BIT * overflow, p);
    MulLe(2 * HIDDEN_BIT * (overflow + 1), 2 * HIDDEN_BIT * (2 * h + 2), p);
    assert 2 * HIDDEN_BIT * h * (2 * p) == 2 * HIDDEN_BIT * (2 * h) * p;
    assert 2 * HIDDEN_BIT * (h + 1) * (2 * p) == 2 * HIDDEN_BIT * (2 * h + 2) * p;
  }

  lemma RadixRange(radixLog2: nat)
    requires 1 <= radixLog2 <= 5
    ensures 2 <= Pow(2, radixLog2) <= 32
  {
    hide Pow;
    TwoTo1();
    PowMono(2, 1, radixLog2);
    PowMono(2, radixLog2, 5);
    Thirty2();
  }

  lemma Thirty2()
    ensures Pow(2, 5) == 32
  {
  }

  function RadixOf(radixLog2: nat): (radix: nat)
    requires 1 <= radixLog2 <= 5
    ensures 2 <= radix <= 32 && radix == Pow(2, radixLog2)
  {
    RadixRange(radixLog2);
    Pow(2, radixLog2)
  }

  // The remaining digits only count: one of them that is not zero rounds up what
  // would be a tie.
  method SkipTail(text: seq<char>, current0: nat, separator: Option<char>, radixLog2: nat,
                  ghost start: nat, ghost read: seq<nat>)
    returns (current: nat, exponent: nat, zeroTail: bool, ghost tail: seq<nat>)
    requires 1 <= radixLog2 <= 5 && current0 < |text|
    requires Scanned(text, start, Advance(text, current0, separator, RadixOf(radixLog2)), read, separator, RadixOf(radixLog2))
    ensures |tail| <= current <= |text| && current == EndOf(text, start, separator, RadixOf(radixLog2))
    ensures read + tail == DigitsFrom(text, start, separator, RadixOf(radixLog2))
    ensures exponent == radixLog2 * |tail| && (zeroTail <==> RadixValue(tail, RadixOf(radixLog2)) == 0)
    ensures forall i :: 0 <= i < |tail| ==> tail[i] < RadixOf(radixLog2)
  {
    hide Pow, RadixValue, DigitsFrom, EndOf, Scanned;
    var radix := RadixOf(radixLog2);
    zeroTail, exponent, tail := true, 0, [];
    NoTail(radix);
    assert read + [] == read;
    current := Advance(text, current0, separator, radix);
    while current != |text| && IsDigitOf(text[current], radix)
      invariant |tail| <= current <= |text| && Scanned(text, start, current, read + tail, separator, radix)
      invariant exponent == radixLog2 * |tail| && (zeroTail <==> RadixValue(tail, radix) == 0)
      decreases |text| - current
    {
      ghost var d := DigitOf(text[current], radix);
      ScanStep(text, start, current, read + tail, separator, radix);
      assert read + tail + [d] == read + (tail + [d]);
      ValueAppend(tail, d, radix);
      ZeroAppended(RadixValue(tail, radix), d, radix, text[current]);
      zeroTail := zeroTail && text[current] == '0';
      exponent := exponent + radixLog2;
      current := Advance(text, current, separator, radix);
      tail := tail + [d];
    }
    ScanEnd(text, start, current, read + tail, separator, radix);
    TailBelow(text, start, current, read, tail, separator, radix);
  }

  lemma NoTail(radix: nat)
    ensures RadixValue([], radix) == 0
  {
  }

  lemma ZeroAppended(v: nat, d: nat, radix: nat, c: char)
    requires 2 <= radix <= 32 && IsDigitOf(c, radix) && d == DigitOf(c, radix)
    ensures radix * v + d == 0 <==> v == 0 && c == '0'
  {
    MulLe(0, v, radix);
    if 1 <= v { MulLe(1, v, radix); }
  }

  lemma TailBelow(text: seq<char>, start: nat, pos: nat, read: seq<nat>, tail: seq<nat>, separator: Option<char>, radix: nat)
    requires radix <= 32 && Scanned(text, start, pos, read + tail, separator, radix)
    ensures forall i :: 0 <= i < |tail| ==> tail[i] < radix
  {
    forall i | 0 <= i < |tail|
      ensures tail[i] < radix
    {
      assert (read + tail)[|read| + i] == tail[i];
    }
  }

  // The whole number from its leading bits, the dropped ones and the tail.
  lemma LongNumber(read: seq<nat>, tail: seq<nat>, radixLog2: nat, c: nat, q: nat, d: nat)
    requires 1 <= radixLog2 && 0 < c && forall i :: 0 <= i < |tail| ==> tail[i] < Pow(2, radixLog2)
    requires HIDDEN_BIT <= q < 2 * HIDDEN_BIT && d < Pow(2, c)
    requires RadixValue(read, Pow(2, radixLog2)) == q * Pow(2, c) + d
    ensures 0 <= radixLog2 * |tail|
    ensures var up := RoundedUp(q, d, c, RadixValue(tail, Pow(2, radixLog2)) == 0);
      RoundsTo(RadixValue(read + tail, Pow(2, radixLog2)) as real, BitsOf(if up then q + 1 else q, c + radixLog2 * |tail|))
  {
    hide Pow, RadixValue, RoundsTo, BitsOf, RoundedUp;
    var radix := Pow(2, radixLog2);
    ValueConcat(read, tail, radix);
    ValueBelow(tail, radix);
    PowMul(2, radixLog2, |tail|);
    DroppedBits(RadixValue(read + tail, radix), q, d, c, RadixValue(tail, radix), radixLog2 * |tail|);
  }

  // The conversion of an integer of at most 53 bits is exact.
  method IntegerToDouble(number: nat) returns (bits: uint64)
    requires number < 2 * HIDDEN_BIT
    ensures bits <= INFINITY && RoundsTo(number as real, bits)
  {
    hide RPow, RoundsTo, Double.Value;
    if number == 0 {
      ZeroValue();
      ExactRounds(0.0, 0);
      return 0;
    }
    bits := DiyFpToUint64(number, 0);
    RPowZero(2);
    ExactRounds(number as real, bits);
  }

  lemma ZeroValue()
    ensures Double(0).Value() == 0.0
  {
    hide RPow;
  }

  // So many digits leave the exponent, which grows by at most five for each of
  // them, in the range of an int.
  const LONGEST_WITHOUT_OVERFLOW := 429_496_727

  lemma FewOverflowBits(number: nat, count: nat)
    requires HIDDEN_BIT * Pow(2, count) <= number < 64 * HIDDEN_BIT
    ensures count <= 5
  {
    hide Pow;
    if 6 <= count {
      PowMono(2, 6, count);
      PowStep(2, 5);
      Thirty2();
    }
  }

  lemma NextNumber(number: nat, radix: nat, digit: nat)
    requires number < 2 * HIDDEN_BIT && digit < radix <= 32
    ensures radix * number + digit < 64 * HIDDEN_BIT
  {
    MulLe(number + 1, 2 * HIDDEN_BIT, radix);
  }

  lemma TailExponent(radixLog2: nat, digits: nat, length: nat)
    requires radixLog2 <= 5 && digits <= length
    ensures radixLog2 * digits <= 5 * length
  {
    MulLe(radixLog2, 5, digits);
  }

  // Rounds a number of more than 53 bits and reads to the end of its digits.
  method RoundOverflow(text: seq<char>, current0: nat, separator: Option<char>, radixLog2: nat, number0: nat,
                       ghost start: nat, ghost read: seq<nat>)
    returns (current: nat, number: nat, exponent: nat)
    requires 1 <= radixLog2 <= 5 && current0 < |text|
    requires Scanned(text, start, Advance(text, current0, separator, RadixOf(radixLog2)), read, separator, RadixOf(radixLog2))
    requires 2 * HIDDEN_BIT <= number0 == RadixValue(read, RadixOf(radixLog2)) < 64 * HIDDEN_BIT
    ensures |text| <= LONGEST_WITHOUT_OVERFLOW ==> exponent < 0x8000_0000
    ensures current <= |text| && current == EndOf(text, start, separator, RadixOf(radixLog2))
    ensures 0 < number < 2 * HIDDEN_BIT && 0 < exponent && IsNormal(number, exponent)
    ensures RoundsTo(RadixValue(DigitsFrom(text, start, separator, RadixOf(radixLog2)), RadixOf(radixLog2)) as real,
                     BitsOf(number, exponent))
  {
    hide Pow, RadixValue, DigitsFrom, EndOf, Scanned, RoundsTo;
    var overflowBitsCount := CountOverflowBits(number0);
    PowPos(2, overflowBitsCount);
    PowPos(2, overflowBitsCount - 1);
    var droppedBits := number0 % Pow(2, overflowBitsCount);
    number := number0 / Pow(2, overflowBitsCount);
    DivLe(number0, Pow(2, overflowBitsCount), HIDDEN_BIT);
    DivLt(number0, Pow(2, overflowBitsCount), 2 * HIDDEN_BIT);
    exponent := overflowBitsCount;
    var tailExponent, zeroTail;
    ghost var tail;
    current, tailExponent, zeroTail, tail := SkipTail(text, current0, separator, radixLog2, start, read);
    DivMod(number0, Pow(2, overflowBitsCount));
    LongNumber(read, tail, radixLog2, overflowBitsCount, number, droppedBits);
    FewOverflowBits(number0, overflowBitsCount);
    TailExponent(radixLog2, |tail|, |text|);
    exponent := exponent + tailExponent;
    var middleValue := Pow(2, overflowBitsCount - 1);
    if droppedBits > middleValue {
      number := number + 1;
    } else if droppedBits == middleValue {
      if number % 2 != 0 || !zeroTail {
        number := number + 1;
      }
    }
    if number == 2 * HIDDEN_BIT {
      exponent := exponent + 1;
      number := number / 2;
    }
  }

  // Reads the digits from current0 on. Junk is what follows them without being
  // white space, unless that is allowed.
  method RadixStringToIeee(text: seq<char>, current0: nat, radixLog2: nat, sign: bool, separator: Option<char>,
                           allowTrailingJunk: bool)
    returns (current: nat, result: Result)
    requires 1 <= radixLog2 <= 5 && current0 < |text|
    ensures var end := EndOf(text, current0, separator, RadixOf(radixLog2));
      && (result.Junk? <==> !allowTrailingJunk && FirstNonspace(text, end) < |text|)
      && current == if allowTrailingJunk then end else FirstNonspace(text, end)
    ensures result.Number? ==> result.negative == sign && result.bits <= INFINITY
    ensures result.Number? ==>
      RoundsTo(RadixValue(DigitsFrom(text, current0, separator, RadixOf(radixLog2)), RadixOf(radixLog2)) as real, result.bits)
  {
    hide Pow, RadixValue, DigitsFrom, EndOf, Scanned, RoundsTo, FirstNonspace;
    var radix := RadixOf(radixLog2);
    var number, exponent := 0, 0;
    ghost var read: seq<nat> := [];
    current := current0;
    ScanStart(text, current0, separator, radix);
    NoTail(radix);
    while current < |text| && text[current] == '0'
      invariant current <= |text| && Scanned(text, current0, current, read, separator, radix) && RadixValue(read, radix) == 0
      decreases |text| - current
    {
      ScanStep(text, current0, current, read, separator, radix);
      ValueAppend(read, 0, radix);
      read := read + [0];
      current := Advance(text, current, separator, radix);
    }
    var overflowed := false;
    while current < |text| && !overflowed
      invariant current <= |text| && 0 <= number < 2 * HIDDEN_BIT
      invariant !overflowed ==>
        exponent == 0 && Scanned(text, current0, current, read, separator, radix) && RadixValue(read, radix) == number
      invariant overflowed ==>
        current == EndOf(text, current0, separator, radix) && 0 < exponent && number > 0 && IsNormal(number, exponent)
      invariant overflowed ==>
        RoundsTo(RadixValue(DigitsFrom(text, current0, separator, radix), radix) as real, BitsOf(number, exponent))
      decreases !overflowed, |text| - current
    {
      var isDigit, digit := DigitAt(text[current], radix);
      if !isDigit {
        break;
      }
      ScanStep(text, current0, current, read, separator, radix);
      ValueAppend(read, digit, radix);
      read := read + [digit];
      NextNumber(number, radix, digit);
      number := radix * number + digit;
      if number >= 2 * HIDDEN_BIT {
        current, number, exponent := RoundOverflow(text, current, separator, radixLog2, number, current0, read);
        overflowed := true;
      } else {
        current := Advance(text, current, separator, radix);
      }
    }
    if !overflowed {
      ScanEnd(text, current0, current, read, separator, radix);
    }
    if !allowTrailingJunk {
      var found;
      found, current := AdvanceToNonspace(text, current);
      if found {
        return current, Junk;
      }
    }
    var bits;
    if exponent == 0 || number == 0 {
      bits := IntegerToDouble(number);
    } else {
      bits := DiyFpToUint64(number, exponent);
    }
    result := Number(sign, bits);
  }

  lemma ScanStart(text: seq<char>, start: nat, separator: Option<char>, radix: nat)
    requires radix <= 32 && start <= |text|
    ensures Scanned(text, start, start, [], separator, radix)
  {
    assert [] + DigitsFrom(text, start, separator, radix) == DigitsFrom(text, start, separator, radix);
  }
}
