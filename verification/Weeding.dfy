// external/double-conversion/fast-dtoa.cc: the test at the end of Grisu3 that
// accepts digits only when the error of the arithmetic cannot matter.
//
// Numbers are given by their distance below too_high, in units of which the
// scaled number and its boundaries are known to one. The multiples of 10^kappa
// are at the distances rest + s * tenKappa.
module Weeding {
  import opened Powers
  import opened Decimal
  import opened DigitBuffer
  import opened DecimalMeaning
  import opened Ieee

  // Lowers the last digit, which must not be '0'.
  function Decrement(c: char): (r: char)
    requires IsDigit(c) && c != '0'
    ensures IsDigit(r) && DigitValue(r) == DigitValue(c) - 1
  {
    c - 1 as char
  }

  // After t steps: the last step did not go away from any number further than
  // 'small' below too_high, and one more step would not come nearer to any
  // number closer than 'big'.
  ghost predicate Settled(rest0: int, t: nat, tenKappa: int, unsafeInterval: int, small: int, big: int)
  {
    var rest := rest0 + t * tenKappa;
    && (t > 0 ==> rest - tenKappa < small && (rest < small || rest - small <= small - (rest - tenKappa)))
    && (rest >= big || unsafeInterval - rest < tenKappa
        || (rest + tenKappa >= big && big - rest <= rest + tenKappa - big))
  }

  // After t steps: each of them came nearer to 'small' or stayed as near, and one
  // more would not.
  ghost predicate Lowered(rest0: int, t: nat, tenKappa: int, unsafeInterval: int, small: int)
  {
    var rest := rest0 + t * tenKappa;
    && (t > 0 ==> rest - tenKappa < small && (rest < small || rest - small <= small - (rest - tenKappa)))
    && (rest >= small || unsafeInterval - rest < tenKappa
        || (rest + tenKappa >= small && small - rest < rest + tenKappa - small))
  }

  lemma FewerSteps(s: nat, t: nat, tenKappa: int)
    requires 0 < tenKappa
    ensures s < t ==> s * tenKappa + tenKappa <= t * tenKappa
  {
    if s < t { MulLe(s + 1, t, tenKappa); }
  }

  // No other number of steps is settled: digits that are refused after t steps
  // could not have been accepted after any other number of them.
  lemma OnlyLoweredIsSettled(rest0: int, t: nat, tenKappa: int, unsafeInterval: int, small: int, big: int, s: nat)
    requires Lowered(rest0, t, tenKappa, unsafeInterval, small) && 0 < tenKappa && small < big
    requires Settled(rest0, s, tenKappa, unsafeInterval, small, big)
    requires rest0 + t * tenKappa <= unsafeInterval && rest0 + s * tenKappa <= unsafeInterval
    ensures s == t
  {
    FewerSteps(s, t, tenKappa);
    FewerSteps(t, s, tenKappa);
  }

  // Then every other multiple in the unsafe interval is further from any number
  // between 'small' and 'big' below too_high.
  lemma SettledIsClosest(rest0: int, t: nat, tenKappa: int, unsafeInterval: int, small: int, big: int, s: int, d: real)
    requires Settled(rest0, t, tenKappa, unsafeInterval, small, big) && 0 < tenKappa && small < big
    requires small as real < d < big as real
    requires rest0 + s * tenKappa <= unsafeInterval && 0 <= rest0 < tenKappa && 0 <= rest0 + s * tenKappa && s != t
    ensures Distance((rest0 + t * tenKappa) as real, d) < Distance((rest0 + s * tenKappa) as real, d)
  {
    var rest, c := rest0 + t * tenKappa, rest0 + s * tenKappa;
    if s < t {
      MulLe(s, t - 1, tenKappa);
      assert (t - 1) * tenKappa == t * tenKappa - tenKappa;
    } else if t < s {
      MulLe(t + 1, s, tenKappa);
      assert (t + 1) * tenKappa == t * tenKappa + tenKappa;
    }
  }

  method RoundWeed(buffer: array<char>, length: nat, distanceTooHighW: uint64, unsafeInterval: uint64,
                   rest0: uint64, tenKappa: uint64, unit: uint64)
    returns (ok: bool, ghost t: nat)
    requires 0 < length <= buffer.Length && IsDigits(buffer[..length])
    requires 0 < unit <= distanceTooHighW && distanceTooHighW + unit <= unsafeInterval && 4 * unit <= unsafeInterval
    requires rest0 <= unsafeInterval && 0 < tenKappa
    requires unsafeInterval <= rest0 + DigitValue(buffer[length - 1]) * tenKappa
    modifies buffer
    ensures IsDigits(buffer[..length]) && forall k :: 0 <= k < length - 1 ==> buffer[k] == old(buffer[k])
    ensures DecVal(buffer[..length]) == old(DecVal(buffer[..length])) - t
    ensures Lowered(rest0, t, tenKappa, unsafeInterval, distanceTooHighW - unit) && rest0 + t * tenKappa <= unsafeInterval
    ensures ok <==>
      && Settled(rest0, t, tenKappa, unsafeInterval, distanceTooHighW - unit, distanceTooHighW + unit)
      && 2 * unit <= rest0 + t * tenKappa <= unsafeInterval - 4 * unit
  {
    hide DecVal;
    var smallDistance := distanceTooHighW - unit;
    var bigDistance := distanceTooHighW + unit;
    var rest: uint64 := rest0;
    t := 0;
    ghost var last := DigitValue(buffer[length - 1]);
    while rest < smallDistance && unsafeInterval - rest >= tenKappa
          && (rest + tenKappa < smallDistance || smallDistance - rest >= rest + tenKappa - smallDistance)
      invariant rest == rest0 + t * tenKappa <= unsafeInterval && 0 <= t <= last
      invariant IsDigits(buffer[..length]) && forall k :: 0 <= k < length - 1 ==> buffer[k] == old(buffer[k])
      invariant DigitValue(buffer[length - 1]) == last - t
      invariant DecVal(buffer[..length]) == old(DecVal(buffer[..length])) - t
      invariant t > 0 ==>
        rest - tenKappa < smallDistance && (rest < smallDistance || rest - smallDistance <= smallDistance - (rest - tenKappa))
      decreases unsafeInterval - rest
    {
      NotLast(rest0, t, last, tenKappa, unsafeInterval);
      ghost var s: seq<char> := buffer[..length];
      buffer[length - 1] := Decrement(buffer[length - 1]);
      Decremented(s, buffer[..length]);
      rest := rest + tenKappa;
      t := t + 1;
    }
    if rest < bigDistance && unsafeInterval - rest >= tenKappa
       && (rest + tenKappa < bigDistance || bigDistance - rest > rest + tenKappa - bigDistance) {
      return false, t;
    }
    ok := 2 * unit <= rest && rest <= unsafeInterval - 4 * unit;
  }

  // A step that stays in the unsafe interval does not use up the last digit.
  lemma NotLast(rest0: int, t: nat, last: nat, tenKappa: int, unsafeInterval: int)
    requires unsafeInterval <= rest0 + last * tenKappa && 0 < tenKappa && t <= last
    requires unsafeInterval - (rest0 + t * tenKappa) >= tenKappa
    ensures t < last && rest0 + (t + 1) * tenKappa == rest0 + t * tenKappa + tenKappa
  {
  }

  lemma Decremented(s: seq<char>, u: seq<char>)
    requires |s| > 0 && IsDigits(s) && s[|s| - 1] != '0' && u == s[..|s| - 1] + [Decrement(s[|s| - 1])]
    ensures IsDigits(u) && DecVal(u) == DecVal(s) - 1
  {
    hide DecVal;
    var p := s[..|s| - 1];
    assert s == p + [s[|s| - 1]];
    DecAppend(p, s[|s| - 1]);
    DecAppend(p, Decrement(s[|s| - 1]));
  }

  // ---------- A given number of digits ----------

  // rest is below one unit of the last digit, give or take one 'unit'. Rounds
  // when the direction is certain; a carry out of all nines moves the point.
  method RoundWeedCounted(buffer: array<char>, length: nat, rest: uint64, tenKappa: uint64, unit: uint64)
    returns (ok: bool, carriedOut: bool, ghost rounded: nat)
    requires 0 < length <= buffer.Length && IsDigits(buffer[..length]) && rest < tenKappa && 0 < unit
    modifies buffer
    ensures IsDigits(buffer[..length])
    ensures ok <==> 2 * unit < tenKappa && (2 * (rest + unit) <= tenKappa || tenKappa <= 2 * (rest - unit))
    ensures !ok ==> !carriedOut && buffer[..length] == old(buffer[..length])
    ensures ok ==> rounded == old(DecVal(buffer[..length])) + if 2 * rest >= tenKappa then 1 else 0
    ensures ok ==> if 2 * rest >= tenKappa then 2 * (rest - unit) >= tenKappa else 2 * (rest + unit) <= tenKappa
    ensures ok && carriedOut ==> rounded == Pow(10, length) && DecVal(buffer[..length]) == Pow(10, length - 1)
    ensures ok && !carriedOut ==> DecVal(buffer[..length]) == rounded
    ensures ok && old(buffer[0]) != '0' ==> buffer[0] != '0'
  {
    hide DecVal, Pow, WithTen;
    carriedOut := false;
    rounded := DecVal(buffer[..length]);
    if unit >= tenKappa {
      return false, false, rounded;
    }
    if tenKappa - unit <= unit {
      return false, false, rounded;
    }
    if tenKappa - rest > rest && tenKappa - 2 * rest >= 2 * unit {
      return true, false, rounded;
    }
    if rest > unit && tenKappa - (rest - unit) <= rest - unit {
      ghost var s: seq<char> := buffer[..length];
      buffer[length - 1] := Increment(buffer[length - 1]);
      LastIncremented(s, buffer[..length]);
      carriedOut := PropagateCarry(buffer, length);
      rounded := rounded + 1;
      return true, carriedOut, rounded;
    }
    ok := false;
  }
}
