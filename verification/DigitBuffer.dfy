// Operations on a buffer of decimal digits that the conversions share.
module DigitBuffer {
  import opened Powers
  import opened Decimal

  // A digit one past '9', waiting for its carry.
  const TEN: char := ':'

  lemma {:induction false} DecZeros(s: seq<char>)
    requires forall i :: 0 <= i < |s| ==> s[i] == '0'
    ensures IsDigits(s) && DecVal(s) == 0
  {
    if |s| != 0 { DecZeros(s[..|s| - 1]); }
  }

  // Trailing zeros are factors of ten.
  lemma DecTrailingZeros(s: seq<char>, n: nat)
    requires n <= |s| && IsDigits(s[..n]) && forall i :: n <= i < |s| ==> s[i] == '0'
    ensures IsDigits(s) && DecVal(s) == DecVal(s[..n]) * Pow(10, |s| - n)
  {
    hide DecVal, Pow;
    assert s == s[..n] + s[n..];
    DecZeros(s[n..]);
    DecConcat(s[..n], s[n..]);
  }

  // Leading zeros do not count.
  lemma DecLeadingZeros(s: seq<char>, n: nat)
    requires IsDigits(s) && n <= |s| && forall k :: 0 <= k < n ==> s[k] == '0'
    ensures DecVal(s[n..]) == DecVal(s)
  {
    hide DecVal, Pow;
    assert s == s[..n] + s[n..];
    DecZeros(s[..n]);
    DecConcat(s[..n], s[n..]);
  }

  method IncrementLast(buffer: array<char>, length: nat)
    requires 0 < length <= buffer.Length && IsDigits(buffer[..length]) && buffer[length - 1] != '9'
    modifies buffer
    ensures IsDigits(buffer[..length]) && DecVal(buffer[..length]) == DecVal(old(buffer[..length])) + 1
    ensures forall i :: 0 <= i < length - 1 ==> buffer[i] == old(buffer[i])
    ensures buffer[length - 1] != '0'
  {
    hide DecVal;
    ghost var before: seq<char> := buffer[..length];
    assert before[length - 1] == buffer[length - 1];
    buffer[length - 1] := Increment(buffer[length - 1]);
    DecIncrement(before);
    assert buffer[..length] == before[..length - 1] + [Increment(before[length - 1])];
  }

  // The value when the last character may be one past '9'.
  ghost function WithTen(s: seq<char>): nat
    requires 0 < |s| && IsDigits(s[..|s| - 1]) && '0' <= s[|s| - 1] <= TEN
  {
    10 * DecVal(s[..|s| - 1]) + (s[|s| - 1] as int - '0' as int)
  }

  lemma WithTenIsDecVal(s: seq<char>)
    requires 0 < |s| && IsDigits(s)
    ensures IsDigit(s[|s| - 1]) && WithTen(s) == DecVal(s)
  {
  }

  lemma LastIncremented(s: seq<char>, t: seq<char>)
    requires |s| > 0 && IsDigits(s) && t == s[..|s| - 1] + [Increment(s[|s| - 1])]
    ensures IsDigits(t[..|t| - 1]) && '0' <= t[|t| - 1] <= TEN && WithTen(t) == DecVal(s) + 1
  {
    assert t[..|t| - 1] == s[..|s| - 1];
  }

  // Turns a last digit of ten into a carry. When every digit was a nine the
  // digits become 10...0 with one zero too few, and the caller moves the point.
  method PropagateCarry(buffer: array<char>, length: nat) returns (carriedOut: bool)
    requires 0 < length <= buffer.Length && IsDigits(buffer[..length - 1]) && '0' <= buffer[length - 1] <= TEN
    modifies buffer
    ensures IsDigits(buffer[..length])
    ensures carriedOut ==>
      old(WithTen(buffer[..length])) == Pow(10, length) && DecVal(buffer[..length]) == Pow(10, length - 1)
    ensures !carriedOut ==> DecVal(buffer[..length]) == old(WithTen(buffer[..length]))
    ensures carriedOut ==> buffer[0] == '1'
    ensures !carriedOut && old(buffer[0]) != '0' ==> buffer[0] != '0'
  {
    hide Pow, DecVal, WithTen;
    ghost var q := WithTen(buffer[..length]);
    var i := RippleCarry(buffer, length);
    carriedOut := buffer[0] == TEN;
    if carriedOut {
      AllNines(buffer[..1], length, q);
      buffer[0] := '1';
      One(buffer[..1]);
    } else {
      WithTenIsDecVal(buffer[..i + 1]);
    }
    assert buffer[..length][..i + 1] == buffer[..i + 1];
    DecTrailingZeros(buffer[..length], i + 1);
  }

  // Stops at the first digit from the right that needs no carry.
  method RippleCarry(buffer: array<char>, length: nat) returns (i: nat)
    requires 0 < length <= buffer.Length && IsDigits(buffer[..length - 1]) && '0' <= buffer[length - 1] <= TEN
    modifies buffer
    ensures i < length && IsDigits(buffer[..i]) && '0' <= buffer[i] <= TEN && (buffer[i] == TEN ==> i == 0)
    ensures buffer[0] == TEN ==> i == 0
    ensures forall j :: i < j < length ==> buffer[j] == '0'
    ensures old(WithTen(buffer[..length])) == WithTen(buffer[..i + 1]) * Pow(10, length - 1 - i)
    ensures old(buffer[0]) != '0' ==> buffer[0] != '0'
  {
    hide Pow, DecVal, WithTen;
    ghost var q := WithTen(buffer[..length]);
    i := length - 1;
    PowZero(10);
    while i > 0 && buffer[i] == TEN
      invariant 0 <= i < length && IsDigits(buffer[..i]) && '0' <= buffer[i] <= TEN
      invariant forall j :: i < j < length ==> buffer[j] == '0'
      invariant q == WithTen(buffer[..i + 1]) * Pow(10, length - 1 - i)
      invariant old(buffer[0]) != '0' ==> buffer[0] != '0'
    {
      ghost var s: seq<char> := buffer[..i + 1];
      CarryStep(s, Pow(10, length - 1 - i));
      PowStep(10, length - 1 - i);
      ghost var t: seq<char> := s[..i - 1] + [Increment(s[i - 1])];
      buffer[i] := '0';
      buffer[i - 1] := Increment(buffer[i - 1]);
      i := i - 1;
      assert buffer[..i + 1] == t;
    }
    assert i > 0 ==> buffer[..i][0] == buffer[0];
  }

  lemma CarryStep(s: seq<char>, p: nat)
    requires 1 < |s| && IsDigits(s[..|s| - 1]) && s[|s| - 1] == TEN
    ensures var t := s[..|s| - 2] + [Increment(s[|s| - 2])];
      IsDigits(s[..|s| - 2]) && '0' <= t[|t| - 1] <= TEN && t[..|t| - 1] == s[..|s| - 2]
      && WithTen(s) * p == WithTen(t) * (10 * p)
  {
    hide DecVal, Pow;
    var u := s[..|s| - 2];
    var t := u + [Increment(s[|s| - 2])];
    assert s[..|s| - 1] == u + [s[|s| - 2]];
    DecAppend(u, s[|s| - 2]);
    assert t[..|t| - 1] == u;
    assert WithTen(s) == 10 * WithTen(t);
    var w := WithTen(t);
    assert 10 * w * p == w * (10 * p);
  }

  lemma AllNines(s: seq<char>, length: nat, q: nat)
    requires |s| == 1 && s[0] == TEN && 0 < length
    requires q == WithTen(s) * Pow(10, length - 1)
    ensures q == Pow(10, length)
  {
    hide Pow;
    PowStep(10, length - 1);
    assert s[..0] == [];
    DecEmpty();
  }

  lemma One(s: seq<char>)
    requires |s| == 1 && s[0] == '1'
    ensures IsDigits(s) && DecVal(s) == 1
  {
    assert s[..0] == [];
  }
}
