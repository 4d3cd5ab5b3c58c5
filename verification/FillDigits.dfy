// external/double-conversion/fixed-dtoa.cc: writing integers into a buffer of
// digits.
module FillDigits {
  import opened Powers
  import opened Decimal
  import opened DigitBuffer

  // The digits of 'number' after those of 's', in 'places' places.
  lemma Appended(s: seq<char>, t: seq<char>)
    requires IsDigits(s) && IsDigits(t)
    ensures IsDigits(s + t) && DecVal(s + t) == DecVal(s) * Pow(10, |t|) + DecVal(t)
  {
    hide DecVal, Pow;
    DecConcat(s, t);
  }

  lemma Prepended(c: char, t: seq<char>)
    requires IsDigit(c) && IsDigits(t)
    ensures IsDigits([c] + t) && DecVal([c] + t) == DigitValue(c) * Pow(10, |t|) + DecVal(t)
  {
    hide DecVal, Pow;
    assert [c] == [] + [c];
    DecAppend([], c);
    DecEmpty();
    DecConcat([c], t);
  }

  // Writing one more digit in front: number / 10 remains.
  lemma DigitInFront(number: nat, t: seq<char>, total: nat)
    requires IsDigits(t) && DecVal(t) + number * Pow(10, |t|) == total
    ensures var u := [DigitChar(number % 10)] + t;
      IsDigits(u) && DecVal(u) + number / 10 * Pow(10, |u|) == total
  {
    hide DecVal, Pow;
    Prepended(DigitChar(number % 10), t);
    PowStep(10, |t|);
    Peel(number, Pow(10, |t|));
  }

  lemma Peel(number: nat, p: nat)
    ensures number * p == number % 10 * p + number / 10 * (10 * p)
  {
    assert number == number / 10 * 10 + number % 10;
  }

  // The low 'requestedLength' digits of number.
  method FillDigits32FixedLength(number: uint32, requestedLength: nat, buffer: array<char>, length0: nat) returns (length: nat)
    requires length0 + requestedLength <= buffer.Length && IsDigits(buffer[..length0])
    modifies buffer
    ensures length == length0 + requestedLength
    ensures IsDigits(buffer[..length]) && forall k :: 0 <= k < length0 ==> buffer[k] == old(buffer[k])
    ensures number < Pow(10, requestedLength) ==>
      DecVal(buffer[..length]) == old(DecVal(buffer[..length0])) * Pow(10, requestedLength) + number
  {
    hide DecVal, Pow;
    var rest := number;
    var i := requestedLength - 1;
    PowZero(10);
    DecEmpty();
    assert buffer[length0 + requestedLength..length0 + requestedLength] == [];
    while i >= 0
      invariant -1 <= i < requestedLength && 0 <= rest && buffer[..length0] == old(buffer[..length0])
      invariant IsDigits(buffer[length0 + i + 1..length0 + requestedLength])
      invariant DecVal(buffer[length0 + i + 1..length0 + requestedLength]) + rest * Pow(10, requestedLength - 1 - i) == number
    {
      ghost var t: seq<char> := buffer[length0 + i + 1..length0 + requestedLength];
      DigitInFront(rest, t, number);
      buffer[length0 + i] := DigitChar(rest % 10);
      assert buffer[length0 + i..length0 + requestedLength] == [DigitChar(rest % 10)] + t;
      rest := rest / 10;
      i := i - 1;
    }
    length := length0 + requestedLength;
    ghost var s: seq<char>, t: seq<char> := buffer[..length0], buffer[length0..length];
    assert buffer[..length] == s + t;
    Appended(s, t);
    NothingLeft(rest, number, Pow(10, requestedLength));
  }

  lemma NothingLeft(rest: nat, number: nat, p: nat)
    ensures number < p && rest * p <= number ==> rest == 0
    ensures number < p && rest * p <= number ==> rest * p == 0
  {
    if 1 <= rest { MulLe(1, rest, p); }
  }

  ghost function Reversed(s: seq<char>): (r: seq<char>)
    ensures |r| == |s| && (IsDigits(s) ==> IsDigits(r))
  {
    if |s| == 0 then [] else [s[|s| - 1]] + Reversed(s[..|s| - 1])
  }

  lemma ReversedStep(s: seq<char>, c: char)
    ensures Reversed(s + [c]) == [c] + Reversed(s)
  {
    assert (s + [c])[..|s|] == s;
  }

  lemma {:induction false} ReversedAt(s: seq<char>, k: nat)
    requires k < |s|
    ensures Reversed(s)[k] == s[|s| - 1 - k]
  {
    if k > 0 { ReversedAt(s[..|s| - 1], k - 1); }
  }

  // The digits between 'from' and 'to' in reverse order.
  method Exchange(buffer: array<char>, from: nat, to: nat)
    requires from <= to <= buffer.Length
    modifies buffer
    ensures buffer[from..to] == Reversed(old(buffer[from..to]))
    ensures forall k :: 0 <= k < from ==> buffer[k] == old(buffer[k])
  {
    hide Reversed;
    ghost var was: seq<char> := buffer[from..to];
    var i := from;
    var j := to - 1;
    while i < j
      invariant from <= i <= j + 1 <= to && i + j == from + to - 1
      invariant forall k :: 0 <= k < from ==> buffer[k] == old(buffer[k])
      invariant forall k :: from <= k < i || j < k < to ==> buffer[k] == was[to - 1 - k]
      invariant forall k :: i <= k <= j ==> buffer[k] == was[k - from]
    {
      buffer[i], buffer[j] := buffer[j], buffer[i];
      i := i + 1;
      j := j - 1;
    }
    forall k | 0 <= k < to - from
      ensures buffer[from..to][k] == Reversed(was)[k]
    {
      ReversedAt(was, k);
      assert buffer[from + k] == was[to - 1 - (from + k)];
    }
  }

  // The digits of number with the least significant one first.
  method FillReversed(number: uint32, buffer: array<char>, length0: nat) returns (numberLength: nat)
    requires length0 + 10 <= buffer.Length
    modifies buffer
    ensures numberLength <= 10 && IsDigits(buffer[length0..length0 + numberLength])
    ensures forall k :: 0 <= k < length0 ==> buffer[k] == old(buffer[k])
    ensures DecVal(Reversed(buffer[length0..length0 + numberLength])) == number
    ensures numberLength > 0 ==> Pow(10, numberLength - 1) <= number
    ensures number > 0 ==> numberLength > 0
  {
    hide DecVal, Pow, Reversed;
    var rest := number;
    numberLength := 0;
    PowZero(10);
    DecEmpty();
    assert buffer[length0..length0] == [];
    while rest != 0
      invariant 0 <= rest && numberLength <= 10
      invariant forall k :: 0 <= k < length0 ==> buffer[k] == old(buffer[k])
      invariant IsDigits(buffer[length0..length0 + numberLength])
      invariant DecVal(Reversed(buffer[length0..length0 + numberLength])) + rest * Pow(10, numberLength) == number
      invariant numberLength > 0 ==> Pow(10, numberLength - 1) <= number
      invariant numberLength == 0 ==> rest == number
      decreases rest
    {
      ghost var t: seq<char> := buffer[length0..length0 + numberLength];
      TenDigits(rest, numberLength, number, DecVal(Reversed(t)));
      DigitInFront(rest, Reversed(t), number);
      ReversedStep(t, DigitChar(rest % 10));
      buffer[length0 + numberLength] := DigitChar(rest % 10);
      assert buffer[length0..length0 + numberLength + 1] == t + [DigitChar(rest % 10)];
      rest := rest / 10;
      numberLength := numberLength + 1;
    }
  }

  // All digits of number, none for zero: first in reverse order, which is then
  // exchanged.
  method FillDigits32(number: uint32, buffer: array<char>, length0: nat) returns (length: nat)
    requires length0 + 10 <= buffer.Length && IsDigits(buffer[..length0])
    modifies buffer
    ensures length0 <= length <= length0 + 10
    ensures IsDigits(buffer[..length]) && forall k :: 0 <= k < length0 ==> buffer[k] == old(buffer[k])
    ensures DecVal(buffer[..length]) == old(DecVal(buffer[..length0])) * Pow(10, length - length0) + number
    ensures length > length0 ==> Pow(10, length - length0 - 1) <= number
    ensures number > 0 ==> length > length0
  {
    hide DecVal, Pow, Reversed;
    var numberLength := FillReversed(number, buffer, length0);
    Exchange(buffer, length0, length0 + numberLength);
    length := length0 + numberLength;
    ghost var s: seq<char>, t: seq<char> := buffer[..length0], buffer[length0..length];
    assert buffer[..length] == s + t;
    assert s == old(buffer[..length0]);
    Appended(s, t);
  }

  lemma TenDigits(rest: nat, n: nat, number: uint32, low: nat)
    requires 0 < rest && low + rest * Pow(10, n) == number
    ensures n < 10 && Pow(10, n) <= number
  {
    hide Pow;
    PowPos(10, n);
    MulLe(1, rest, Pow(10, n));
    TenTo10();
    if 10 <= n { PowMono(10, 10, n); }
  }

  lemma TenTo10()
    ensures Pow(10, 10) == 10_000_000_000 && Pow(10, 7) == 10_000_000 && Pow(10, 3) == 1000
  {
    hide Pow;
    TenTo5();
    PowAdd(10, 5, 5);
    PowAdd(10, 5, 2);
    PowAdd(10, 3, 2);
  }

  lemma TenTo5()
    ensures Pow(10, 5) == 100_000 && Pow(10, 2) == 100 && Pow(10, 3) == 1000
  {
  }

  const TEN_7: int := 10_000_000

  // The last seventeen digits.
  method FillDigits64FixedLength(number: uint64, buffer: array<char>, length0: nat) returns (length: nat)
    requires length0 + 17 <= buffer.Length && IsDigits(buffer[..length0])
    requires number < 100_000_000_000_000_000
    modifies buffer
    ensures length == length0 + 17
    ensures IsDigits(buffer[..length]) && forall k :: 0 <= k < length0 ==> buffer[k] == old(buffer[k])
    ensures DecVal(buffer[..length]) == old(DecVal(buffer[..length0])) * 100_000_000_000_000_000 + number
  {
    hide DecVal, Pow;
    ghost var d := DecVal(buffer[..length0]);
    TenTo10();
    var part2 := number % TEN_7;
    var rest := number / TEN_7;
    var part1 := rest % TEN_7;
    var part0 := rest / TEN_7;
    length := FillDigits32FixedLength(part0, 3, buffer, length0);
    length := FillDigits32FixedLength(part1, 7, buffer, length);
    length := FillDigits32FixedLength(part2, 7, buffer, length);
  }

  // All digits of number.
  method FillDigits64(number: uint64, buffer: array<char>, length0: nat) returns (length: nat)
    requires length0 + 24 <= buffer.Length && IsDigits(buffer[..length0])
    modifies buffer
    ensures length0 <= length <= length0 + 24
    ensures IsDigits(buffer[..length]) && forall k :: 0 <= k < length0 ==> buffer[k] == old(buffer[k])
    ensures DecVal(buffer[..length]) == old(DecVal(buffer[..length0])) * Pow(10, length - length0) + number
  {
    hide DecVal, Pow;
    ghost var d := DecVal(buffer[..length0]);
    TenTo10();
    var part2 := number % TEN_7;
    var rest := number / TEN_7;
    var part1 := rest % TEN_7;
    var part0 := rest / TEN_7;
    if part0 != 0 {
      length := FillDigits32(part0, buffer, length0);
      Joined(d, length - length0, 14);
      PowAdd(10, 7, 7);
      length := FillDigits32FixedLength(part1, 7, buffer, length);
      length := FillDigits32FixedLength(part2, 7, buffer, length);
    } else if part1 != 0 {
      length := FillDigits32(part1, buffer, length0);
      Joined(d, length - length0, 7);
      length := FillDigits32FixedLength(part2, 7, buffer, length);
    } else {
      length := FillDigits32(part2, buffer, length0);
    }
  }

  lemma Joined(d: nat, m: nat, n: nat)
    ensures d * Pow(10, m + n) == d * Pow(10, m) * Pow(10, n)
  {
    hide Pow;
    PowAdd(10, m, n);
    var p, q := Pow(10, m), Pow(10, n);
    assert d * (p * q) == d * p * q;
  }
}
