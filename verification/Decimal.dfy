// Strings of decimal digits, most significant first.
module Decimal {
  import opened Powers

  predicate IsDigit(c: char) { '0' <= c <= '9' }

  function DigitValue(c: char): (d: nat)
    requires IsDigit(c)
  {
    c as int - '0' as int
  }

  function DigitChar(d: nat): (c: char)
    requires d <= 10
    ensures d <= 9 ==> IsDigit(c) && DigitValue(c) == d
  {
    '0' + d as char
  }

  // One more in the character code; past '9' this is no digit.
  function Increment(c: char): (r: char)
    requires IsDigit(c)
    ensures c != '9' ==> IsDigit(r) && DigitValue(r) == DigitValue(c) + 1
  {
    c + 1 as char
  }

  predicate IsDigits(s: seq<char>)
  {
    forall i :: 0 <= i < |s| ==> IsDigit(s[i])
  }

  function DecVal(s: seq<char>): nat
    requires IsDigits(s)
  {
    if |s| == 0 then 0
    else 10 * DecVal(s[..|s| - 1]) + DigitValue(s[|s| - 1])
  }

  lemma DecAppend(s: seq<char>, c: char)
    requires IsDigits(s) && IsDigit(c)
    ensures IsDigits(s + [c]) && DecVal(s + [c]) == 10 * DecVal(s) + DigitValue(c)
  {
    assert (s + [c])[..|s|] == s;
  }

  lemma DecEmpty()
    ensures DecVal([]) == 0
  {
  }

  lemma {:induction false} DecConcat(s: seq<char>, t: seq<char>)
    requires IsDigits(s) && IsDigits(t)
    ensures IsDigits(s + t) && DecVal(s + t) == DecVal(s) * Pow(10, |t|) + DecVal(t)
  {
    hide Pow, DecVal;
    DecEmpty();
    if |t| == 0 {
      assert s + t == s;
      assert t == [];
      PowZero(10);
    } else {
      var t', c := t[..|t| - 1], t[|t| - 1];
      DecConcat(s, t');
      assert s + t == (s + t') + [c];
      assert t == t' + [c];
      DecAppend(s + t', c);
      DecAppend(t', c);
      PowStep(10, |t'|);
      var v, p := DecVal(s), Pow(10, |t'|);
      assert v * (10 * p) == 10 * (v * p);
    }
  }

  lemma {:induction false} DecBound(s: seq<char>)
    requires IsDigits(s)
    ensures DecVal(s) < Pow(10, |s|)
  {
    if |s| != 0 {
      DecBound(s[..|s| - 1]);
      PowStep(10, |s| - 1);
      assert DigitValue(s[|s| - 1]) <= 9;
    }
  }

  lemma DecLeading(s: seq<char>)
    requires IsDigits(s) && |s| > 0 && s[0] != '0'
    ensures Pow(10, |s| - 1) <= DecVal(s)
  {
    hide Pow;
    assert s == [s[0]] + s[1..];
    DecConcat([s[0]], s[1..]);
    DecAppend([], s[0]);
    assert [] + [s[0]] == [s[0]];
    MulLe(1, DecVal([s[0]]), Pow(10, |s| - 1));
  }

  lemma FirstNotZero(s: seq<char>)
    requires IsDigits(s) && |s| > 0 && Pow(10, |s| - 1) <= DecVal(s)
    ensures s[0] != '0'
  {
    hide Pow;
    assert s == [s[0]] + s[1..];
    DecConcat([s[0]], s[1..]);
    DecAppend([], s[0]);
    assert [] + [s[0]] == [s[0]];
    DecBound(s[1..]);
  }

  // Strings of one length denote different numbers.
  lemma {:induction false} DecInjective(s: seq<char>, t: seq<char>)
    requires IsDigits(s) && IsDigits(t) && |s| == |t| && DecVal(s) == DecVal(t)
    ensures s == t
  {
    if |s| != 0 {
      var n := |s| - 1;
      assert DecVal(s) == 10 * DecVal(s[..n]) + DigitValue(s[n]);
      assert DecVal(t) == 10 * DecVal(t[..n]) + DigitValue(t[n]);
      DecInjective(s[..n], t[..n]);
      assert s == s[..n] + [s[n]] && t == t[..n] + [t[n]];
    }
  }

  // Incrementing the last digit, when it is not a nine, adds one.
  lemma DecIncrement(s: seq<char>)
    requires IsDigits(s) && |s| > 0 && s[|s| - 1] != '9'
    ensures var t := s[..|s| - 1] + [Increment(s[|s| - 1])];
      IsDigits(t) && DecVal(t) == DecVal(s) + 1
  {
    hide DecVal;
    var p := s[..|s| - 1];
    assert s == p + [s[|s| - 1]];
    DecAppend(p, s[|s| - 1]);
    DecAppend(p, Increment(s[|s| - 1]));
  }
}
