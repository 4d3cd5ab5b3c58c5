// external/double-conversion/bignum-dtoa.cc: digits of a fraction of bignums.
module DigitGeneration {
  import opened Powers
  import opened Bigits
  import opened Bignums
  import opened Decimal
  import opened DigitBuffer
  import opened ShortestDigits

  // Every value that the conversion of a double builds is below B^LIMIT.
  const LIMIT := 100

  // No two of the four numbers share storage, except that the two deltas may
  // be one object.
  ghost predicate Separate(numerator: Bignum, denominator: Bignum, deltaMinus: Bignum, deltaPlus: Bignum)
  {
    && numerator.Apart(denominator) && numerator.Apart(deltaMinus) && numerator.Apart(deltaPlus)
    && denominator.Apart(deltaMinus) && denominator.Apart(deltaPlus)
    && (deltaMinus == deltaPlus || deltaMinus.Apart(deltaPlus))
  }

  // The four numbers of a conversion and their values.
  ghost predicate State(numerator: Bignum, denominator: Bignum, deltaMinus: Bignum, deltaPlus: Bignum,
                        n: nat, d: nat, minus: nat, plus: nat)
    reads numerator, numerator.bigits, denominator, denominator.bigits
    reads deltaMinus, deltaMinus.bigits, deltaPlus, deltaPlus.bigits
  {
    && Separate(numerator, denominator, deltaMinus, deltaPlus)
    && numerator.Holds(n) && denominator.Holds(d) && deltaMinus.Holds(minus) && deltaPlus.Holds(plus)
  }

  // Divides once, appends the digit, and tests whether rounding down, or up,
  // is still between the boundaries.
  method EmitDigit(numerator: Bignum, denominator: Bignum, deltaMinus: Bignum, deltaPlus: Bignum, isEven: bool,
                   buffer: array<char>, length: nat,
                   ghost rest: nat, ghost d: nat, ghost minus: nat, ghost plus: nat)
    returns (digit: nat, roomMinus: bool, roomPlus: bool)
    requires State(numerator, denominator, deltaMinus, deltaPlus, rest, d, minus, plus)
    requires 0 < d && rest < 10 * d && 10 * d < PB(LIMIT)
    requires length < buffer.Length && IsDigits(buffer[..length])
    modifies numerator, numerator.bigits, buffer
    ensures digit == rest / d <= 9
    ensures State(numerator, denominator, deltaMinus, deltaPlus, rest % d, d, minus, plus)
    ensures IsDigits(buffer[..length + 1]) && buffer[length] == DigitChar(digit)
    ensures DecVal(buffer[..length + 1]) == 10 * DecVal(old(buffer[..length])) + digit
    ensures length > 0 ==> buffer[0] == old(buffer[0])
    ensures roomMinus == if isEven then rest % d <= minus else rest % d < minus
    ensures roomPlus == if isEven then rest % d + plus >= d else rest % d + plus > d
  {
    hide PB, DecVal;
    ghost var before: seq<char> := buffer[..length];
    digit := DivideOnce(numerator, denominator, rest, d);
    buffer[length] := DigitChar(digit);
    assert buffer[..length + 1] == before + [DigitChar(digit)];
    DecAppend(before, DigitChar(digit));
    var order := Bignum.Compare(numerator, deltaMinus);
    roomMinus := if isEven then order <= 0 else order < 0;
    order := Bignum.PlusCompare(numerator, deltaPlus, denominator);
    roomPlus := if isEven then order >= 0 else order > 0;
  }

  ghost predicate Fraction(numerator: Bignum, denominator: Bignum, n: nat, d: nat)
    reads numerator, numerator.bigits, denominator, denominator.bigits
  {
    numerator.Apart(denominator) && numerator.Holds(n) && denominator.Holds(d)
  }

  method DivideOnce(numerator: Bignum, denominator: Bignum, ghost n: nat, ghost d: nat) returns (digit: nat)
    requires Fraction(numerator, denominator, n, d)
    requires 0 < d && n < 10 * d && 10 * d < PB(LIMIT)
    modifies numerator, numerator.bigits
    ensures digit == n / d <= 9
    ensures Fraction(numerator, denominator, n % d, d)
  {
    hide PB, Bignum.Value, Bignum.Mantissa;
    numerator.LengthAtMost(LIMIT);
    denominator.ValuePositive();
    digit := numerator.DivideModuloIntBignum(denominator);
    DivLt(n, d, 10);
  }

  lemma LastDigitParity(s: seq<char>)
    requires IsDigits(s) && |s| > 0
    ensures DecVal(s) % 2 == DigitValue(s[|s| - 1]) % 2
  {
    hide DecVal;
    var n := |s| - 1;
    assert s == s[..n] + [s[n]];
    DecAppend(s[..n], s[n]);
  }

  // The last digit stays or is incremented, whichever is nearer; at a tie the
  // even number is taken.
  method RoundDigit(numerator: Bignum, denominator: Bignum, deltaMinus: Bignum, deltaPlus: Bignum,
                    roomMinus: bool, roomPlus: bool, buffer: array<char>, length: nat,
                    ghost g: Interval, ghost low: nat, ghost rest: nat, ghost minus: nat, ghost plus: nat)
    requires State(numerator, denominator, deltaMinus, deltaPlus, rest, g.d, minus, plus)
    requires 0 < length <= buffer.Length && IsDigits(buffer[..length]) && DecVal(buffer[..length]) == low
    requires var s := g.Scaled(length - 1);
      && s.d == g.d && low * g.d + rest == s.n && (low + 1) * g.d == low * g.d + g.d
      && (roomMinus || roomPlus)
      && (roomMinus <==> s.Has(low * g.d)) && (roomPlus <==> s.Has((low + 1) * g.d))
    requires roomPlus ==> buffer[length - 1] != '9'
    modifies buffer
    ensures IsDigits(buffer[..length])
    ensures g.Scaled(length - 1).Chosen(low, DecVal(buffer[..length]))
    ensures forall i :: 0 <= i < length - 1 ==> buffer[i] == old(buffer[i])
    ensures buffer[length - 1] != '0' || (roomMinus && old(buffer[length - 1]) == '0')
  {
    hide PB, Interval.Scaled, DecVal;
    var up := !roomMinus;
    if roomMinus && roomPlus {
      var order := Bignum.PlusCompare(numerator, numerator, denominator);
      up := order > 0 || (order == 0 && DigitValue(buffer[length - 1]) % 2 != 0);
    }
    LastDigitParity(buffer[..length]);
    g.Scaled(length - 1).Choose(low, rest, up);
    if up {
      IncrementLast(buffer, length);
    }
  }

  // Multiplies everything but the denominator by ten; a shared delta once.
  method ScaleUp(numerator: Bignum, denominator: Bignum, deltaMinus: Bignum, deltaPlus: Bignum,
                 ghost n: nat, ghost d: nat, ghost minus: nat, ghost plus: nat)
    requires State(numerator, denominator, deltaMinus, deltaPlus, n, d, minus, plus)
    requires n <= d && minus <= d && plus <= d && 10 * d < PB(LIMIT)
    modifies numerator, numerator.bigits, deltaMinus, deltaMinus.bigits, deltaPlus, deltaPlus.bigits
    ensures State(numerator, denominator, deltaMinus, deltaPlus, 10 * n, d, 10 * minus, 10 * plus)
  {
    hide PB, Bignum.Value, Bignum.Mantissa;
    PBMono(LIMIT, CAPACITY);
    numerator.Times10();
    deltaMinus.Times10();
    if deltaMinus != deltaPlus {
      deltaPlus.Times10();
    }
  }

  // One digit: either the last one, or everything is scaled for the next.
  method NextOrLast(numerator: Bignum, denominator: Bignum, deltaMinus: Bignum, deltaPlus: Bignum, isEven: bool,
                    buffer: array<char>, length: nat, ghost g: Interval, ghost r: nat, ghost rest: nat)
    returns (last: bool, ghost r': nat, ghost rest': nat)
    requires State(numerator, denominator, deltaMinus, deltaPlus, rest, g.d, g.Scaled(length).minus, g.Scaled(length).plus)
    requires g.inclusive == isEven && g.Start() && 10 * g.d < PB(LIMIT) && g.Generated(length, r, rest)
    requires length <= 16 < buffer.Length && IsDigits(buffer[..length]) && r == DecVal(buffer[..length])
    requires length > 0 ==> buffer[0] != '0'
    modifies numerator, numerator.bigits, deltaMinus, deltaMinus.bigits, deltaPlus, deltaPlus.bigits, buffer
    ensures IsDigits(buffer[..length + 1]) && buffer[0] != '0'
    ensures last ==> g.Shortest(length + 1, DecVal(buffer[..length + 1]))
    ensures !last ==> length < 16 && g.Generated(length + 1, r', rest') && r' == DecVal(buffer[..length + 1])
    ensures !last ==> State(numerator, denominator, deltaMinus, deltaPlus, rest', g.d,
                            g.Scaled(length + 1).minus, g.Scaled(length + 1).plus)
  {
    hide PB, Interval.Scaled, DecVal;
    ghost var minus, plus := g.Scaled(length).minus, g.Scaled(length).plus;
    g.DigitStep(length, r, rest);
    g.RestBelow(length, r, rest);
    g.ScaledStep(length);
    assert g.Proper();
    hide State, Interval.Generated, Interval.Start, Interval.Has, Interval.Shortest, Interval.Chosen;
    rest' := rest % g.d;
    var digit, roomMinus, roomPlus := EmitDigit(numerator, denominator, deltaMinus, deltaPlus, isEven,
                                                buffer, length, rest, g.d, minus, plus);
    r' := 10 * r + digit;
    last := roomMinus || roomPlus;
    if last {
      g.RoundUpDigit(length, r, rest);
      RoundDigit(numerator, denominator, deltaMinus, deltaPlus, roomMinus, roomPlus, buffer, length + 1,
                 g, r', rest', minus, plus);
      g.ShortestFound(length, r, rest, DecVal(buffer[..length + 1]));
    } else {
      g.NextDigit(length, r, rest, digit, rest');
      ScaleUp(numerator, denominator, deltaMinus, deltaPlus, rest', g.d, minus, plus);
      rest' := 10 * rest';
    }
  }

  // Digits from left to right until rounding down or up stays between the
  // boundaries.
  method GenerateShortestDigits(numerator: Bignum, denominator: Bignum, deltaMinus: Bignum, deltaPlus0: Bignum,
                                isEven: bool, buffer: array<char>, ghost g: Interval)
    returns (length: nat)
    requires State(numerator, denominator, deltaMinus, deltaPlus0, g.n, g.d, g.minus, g.plus)
    requires g.inclusive == isEven && g.Start() && 10 * g.d < PB(LIMIT)
    requires buffer.Length >= 17
    modifies numerator, numerator.bigits, deltaMinus, deltaMinus.bigits, deltaPlus0, deltaPlus0.bigits, buffer
    ensures 0 < length <= 17 && IsDigits(buffer[..length]) && buffer[0] != '0'
    ensures g.Shortest(length, DecVal(buffer[..length]))
  {
    hide PB, Interval.Scaled, DecVal;
    var deltaPlus := deltaPlus0;
    var same := Bignum.Compare(deltaMinus, deltaPlus);
    if same == 0 {
      deltaPlus := deltaMinus;
    }
    g.ScaledZero();
    g.GeneratedStart();
    DecEmpty();
    assert buffer[..0] == [];
    assert State(numerator, denominator, deltaMinus, deltaPlus, g.n, g.d, g.minus, g.plus);
    hide State, Interval.Generated, Interval.Start, Interval.Shortest;
    length := 0;
    ghost var r, rest: nat := 0, g.n;
    var last := false;
    while !last
      invariant 0 <= length <= 17 && IsDigits(buffer[..length]) && (length > 0 ==> buffer[0] != '0')
      invariant deltaPlus == deltaMinus || deltaPlus == deltaPlus0
      invariant last ==> 0 < length && g.Shortest(length, DecVal(buffer[..length]))
      invariant !last ==> length <= 16 && g.Generated(length, r, rest) && r == DecVal(buffer[..length])
      invariant !last ==> State(numerator, denominator, deltaMinus, deltaPlus, rest, g.d,
                                g.Scaled(length).minus, g.Scaled(length).plus)
      decreases 17 - length, !last
    {
      last, r, rest := NextOrLast(numerator, denominator, deltaMinus, deltaPlus, isEven, buffer, length, g, r, rest);
      length := length + 1;
    }
  }

  // ---------- A given number of digits ----------

  // floor(n * scale / d + 1/2): the nearest integer, halves upwards.
  ghost function HalfUp(n: nat, d: nat): (r: nat)
    requires 0 < d
  {
    (2 * n + d) / (2 * d)
  }

  lemma HalfUpFromDigits(n: nat, d: nat, low: nat, rest: nat)
    requires 0 < d && n == low * d + rest && rest < d
    ensures HalfUp(n, d) == if 2 * rest >= d then low + 1 else low
  {
    var r := if 2 * rest >= d then 2 * rest - d else 2 * rest + d;
    var q := if 2 * rest >= d then low + 1 else low;
    assert (low + 1) * (2 * d) == low * (2 * d) + 2 * d;
    assert 2 * (low * d) == low * (2 * d);
    DivUnique(2 * n + d, 2 * d, q, r);
  }

  // 'count' digits of numerator/denominator < 10; the remainder is rounded,
  // halves upwards, and a carry out of all nines moves the point.
  method GenerateCountedDigits(count: nat, decimalPoint0: int, numerator: Bignum, denominator: Bignum,
                               buffer: array<char>, ghost n: nat, ghost d: nat)
    returns (decimalPoint: int)
    requires Fraction(numerator, denominator, n, d)
    requires 0 < d && n < 10 * d && 10 * d < PB(LIMIT) && 0 < count <= buffer.Length
    modifies numerator, numerator.bigits, buffer
    ensures IsDigits(buffer[..count]) && decimalPoint0 <= decimalPoint <= decimalPoint0 + 1
    ensures 0 < Pow(10, count - 1) && 0 <= n * Pow(10, count - 1)
    ensures DecVal(buffer[..count]) * (if decimalPoint == decimalPoint0 then 1 else 10) == HalfUp(n * Pow(10, count - 1), d)
    ensures d <= n ==> buffer[0] != '0'
  {
    hide PB, DecVal, Pow, HalfUp, Counted, Fraction;
    PowPos(10, count - 1);
    MulLe(0, n, Pow(10, count - 1));
    ghost var r, rest := LeadingDigits(count - 1, numerator, denominator, buffer, n, d);
    CountedStep(n, d, count - 1, r, rest);
    var digit := DivideOnce(numerator, denominator, rest, d);
    var order := TwiceAgainst(numerator, denominator, rest % d, d);
    HalfUpFromDigits(n * Pow(10, count - 1), d, 10 * r + digit, rest % d);
    if order >= 0 {
      digit := digit + 1;
    }
    ghost var before: seq<char> := buffer[..count - 1];
    buffer[count - 1] := DigitChar(digit);
    LastMayBeTen(before, digit, buffer[..count]);
    var carriedOut := PropagateCarry(buffer, count);
    PowStep(10, count - 1);
    decimalPoint := if carriedOut then decimalPoint0 + 1 else decimalPoint0;
  }

  method TwiceAgainst(numerator: Bignum, denominator: Bignum, ghost n: nat, ghost d: nat) returns (order: int)
    requires Fraction(numerator, denominator, n, d)
    ensures order == Sign(2 * n - d)
  {
    order := Bignum.PlusCompare(numerator, numerator, denominator);
  }

  lemma LastMayBeTen(before: seq<char>, digit: nat, after: seq<char>)
    requires IsDigits(before) && digit <= 10 && after == before + [DigitChar(digit)]
    ensures IsDigits(after[..|after| - 1]) && '0' <= after[|after| - 1] <= TEN
    ensures WithTen(after) == 10 * DecVal(before) + digit
    ensures |before| > 0 ==> after[0] == before[0]
    ensures |before| == 0 && digit > 0 ==> after[0] != '0'
  {
    assert after[..|after| - 1] == before;
  }

  // All digits but the last; the numerator is left scaled for that one.
  method LeadingDigits(count: nat, numerator: Bignum, denominator: Bignum, buffer: array<char>, ghost n: nat, ghost d: nat)
    returns (ghost r: nat, ghost rest: nat)
    requires Fraction(numerator, denominator, n, d)
    requires 0 < d && n < 10 * d && 10 * d < PB(LIMIT) && count <= buffer.Length
    modifies numerator, numerator.bigits, buffer
    ensures Fraction(numerator, denominator, rest, d) && Counted(n, d, count, r, rest) && rest < 10 * d
    ensures IsDigits(buffer[..count]) && DecVal(buffer[..count]) == r
    ensures count > 0 && d <= n ==> buffer[0] != '0'
  {
    hide PB, DecVal, Pow;
    PowZero(10);
    DecEmpty();
    assert buffer[..0] == [];
    r, rest := 0, n;
    for i := 0 to count
      invariant Fraction(numerator, denominator, rest, d) && Counted(n, d, i, r, rest)
      invariant IsDigits(buffer[..i]) && DecVal(buffer[..i]) == r
      invariant i > 0 && d <= n ==> buffer[0] != '0'
    {
      CountedStep(n, d, i, r, rest);
      var digit := DivideOnce(numerator, denominator, rest, d);
      ghost var before: seq<char> := buffer[..i];
      buffer[i] := DigitChar(digit);
      assert buffer[..i + 1] == before + [DigitChar(digit)];
      DecAppend(before, DigitChar(digit));
      FitsTimes10(rest % d, d);
      numerator.Times10();
      r, rest := 10 * r + digit, 10 * (rest % d);
    }
  }

  // After i digits with value r.
  ghost predicate Counted(n: nat, d: nat, i: nat, r: nat, rest: nat)
  {
    n * Pow(10, i) == 10 * (r * d) + rest && rest < 10 * d && (i == 0 ==> r == 0)
  }

  lemma CountedStep(n: nat, d: nat, i: nat, r: nat, rest: nat)
    requires 0 < d && Counted(n, d, i, r, rest)
    ensures 0 <= rest / d <= 9 && n * Pow(10, i) == (10 * r + rest / d) * d + rest % d
    ensures Counted(n, d, i + 1, 10 * r + rest / d, 10 * (rest % d))
    ensures i == 0 && d <= n ==> rest / d != 0
  {
    hide Pow;
    CountedRest(n, d, i, r, rest);
    DigitOfRest(rest, d);
    CountedDigit(n, d, i, r, rest, rest / d, rest % d);
    if i == 0 && d <= n { DivLe(rest, d, 1); }
  }

  lemma CountedRest(n: nat, d: nat, i: nat, r: nat, rest: nat)
    requires Counted(n, d, i, r, rest)
    ensures rest < 10 * d && (i == 0 ==> rest == n)
  {
    hide Pow;
    PowZero(10);
  }

  lemma CountedDigit(n: nat, d: nat, i: nat, r: nat, rest: nat, digit: nat, rest': nat)
    requires Counted(n, d, i, r, rest) && rest == digit * d + rest' && rest' < d
    ensures n * Pow(10, i) == (10 * r + digit) * d + rest' && Counted(n, d, i + 1, 10 * r + digit, 10 * rest')
  {
    hide Pow;
    ShiftedDigit(r, digit, d);
    PowStep(10, i);
    TenTimes(n, Pow(10, i));
  }

  lemma FitsTimes10(n: nat, d: nat)
    requires n <= d && 10 * d < PB(LIMIT)
    ensures n * 10 < PB(CAPACITY)
  {
    hide PB;
    PBMono(LIMIT, CAPACITY);
  }
}
