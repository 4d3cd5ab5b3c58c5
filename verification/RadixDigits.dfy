// external/double-conversion/string-to-double.cc: the digits of an integer whose
// radix is a power of two, with separators between them.
module RadixDigits {
  import opened Powers

  datatype Option<T> = None | Some(value: T)

  predicate IsDigitOf(c: char, radix: nat)
  {
    || ('0' <= c <= '9' && c as int < '0' as int + radix)
    || (radix > 10 && 'a' <= c && c as int < 'a' as int + radix - 10)
    || (radix > 10 && 'A' <= c && c as int < 'A' as int + radix - 10)
  }

  predicate IsDecimalDigitForRadix(c: char, radix: nat)
  {
    '0' <= c <= '9' && c as int - '0' as int < radix
  }

  predicate IsCharacterDigitForRadix(c: char, radix: nat, aCharacter: char)
  {
    radix > 10 && c >= aCharacter && c as int < aCharacter as int + radix - 10
  }

  function DigitOf(c: char, radix: nat): (d: nat)
    requires IsDigitOf(c, radix) && radix <= 32
    ensures d < radix
  {
    if c <= '9' then c as int - '0' as int
    else if c >= 'a' then c as int - 'a' as int + 10
    else c as int - 'A' as int + 10
  }

  // The two ways to recognize a digit agree, and no character is both kinds.
  lemma DigitKinds(c: char, radix: nat)
    requires radix <= 32
    ensures IsDigitOf(c, radix) <==>
      IsDecimalDigitForRadix(c, radix) || IsCharacterDigitForRadix(c, radix, 'a') || IsCharacterDigitForRadix(c, radix, 'A')
    ensures IsDecimalDigitForRadix(c, radix) ==> DigitOf(c, radix) == c as int - '0' as int
    ensures IsCharacterDigitForRadix(c, radix, 'a') ==> DigitOf(c, radix) == c as int - 'a' as int + 10
    ensures !IsCharacterDigitForRadix(c, radix, 'a') && IsCharacterDigitForRadix(c, radix, 'A') ==>
      DigitOf(c, radix) == c as int - 'A' as int + 10
  {
  }

  const LOWER_DIGITS: seq<char> := "0123456789abcdefghijklmnopqrstuv"
  const UPPER_DIGITS: seq<char> := "0123456789ABCDEFGHIJKLMNOPQRSTUV"

  lemma DigitStrings(d: nat)
    requires d < 32
    ensures LOWER_DIGITS[d] == (if d < 10 then '0' + d as char else 'a' + (d - 10) as char)
    ensures UPPER_DIGITS[d] == (if d < 10 then '0' + d as char else 'A' + (d - 10) as char)
  {
  }

  // The digits of a radix are the first characters of these two strings.
  lemma DigitCharacters(radix: nat)
    requires radix <= 32
    ensures forall d: nat :: d < radix ==> IsDigitOf(LOWER_DIGITS[d], radix) && DigitOf(LOWER_DIGITS[d], radix) == d
    ensures forall d: nat :: d < radix ==> IsDigitOf(UPPER_DIGITS[d], radix) && DigitOf(UPPER_DIGITS[d], radix) == d
    ensures forall c: char :: IsDigitOf(c, radix) ==> c in LOWER_DIGITS[..radix] || c in UPPER_DIGITS[..radix]
  {
    forall d: nat | d < radix
      ensures IsDigitOf(LOWER_DIGITS[d], radix) && DigitOf(LOWER_DIGITS[d], radix) == d
      ensures IsDigitOf(UPPER_DIGITS[d], radix) && DigitOf(UPPER_DIGITS[d], radix) == d
    {
      DigitStrings(d);
    }
    forall c: char | IsDigitOf(c, radix)
      ensures c in LOWER_DIGITS[..radix] || c in UPPER_DIGITS[..radix]
    {
      OneOfTheStrings(c, radix);
    }
  }

  lemma OneOfTheStrings(c: char, radix: nat)
    requires radix <= 32 && IsDigitOf(c, radix)
    ensures c in LOWER_DIGITS[..radix] || c in UPPER_DIGITS[..radix]
  {
    var d := DigitOf(c, radix);
    DigitStrings(d);
    assert LOWER_DIGITS[..radix][d] == LOWER_DIGITS[d] && UPPER_DIGITS[..radix][d] == UPPER_DIGITS[d];
  }

  const WHITESPACE_7: seq<int> := [32, 13, 10, 9, 11, 12]
  const WHITESPACE_16: seq<int> :=
    [160, 8232, 8233, 5760, 6158, 8192, 8193, 8194, 8195, 8196, 8197, 8198, 8199, 8200, 8201, 8202, 8239, 8287, 12288, 65279]

  predicate IsWhitespace(c: char)
  {
    if c as int < 128 then c as int in WHITESPACE_7 else c as int in WHITESPACE_16
  }

  // The first position that is not white space, or the end.
  ghost function FirstNonspace(text: seq<char>, pos: nat): (p: nat)
    requires pos <= |text|
    ensures pos <= p <= |text|
    ensures p < |text| ==> !IsWhitespace(text[p])
    ensures forall i :: pos <= i < p ==> IsWhitespace(text[i])
    decreases |text| - pos
  {
    if pos == |text| || !IsWhitespace(text[pos]) then pos else FirstNonspace(text, pos + 1)
  }

  method AdvanceToNonspace(text: seq<char>, pos: nat) returns (found: bool, current: nat)
    requires pos <= |text|
    ensures current == FirstNonspace(text, pos) && (found <==> current < |text|)
  {
    current := pos;
    while current != |text|
      invariant pos <= current <= |text| && FirstNonspace(text, pos) == FirstNonspace(text, current)
    {
      if !IsWhitespace(text[current]) {
        return true, current;
      }
      current := current + 1;
    }
    found := false;
  }

  // The position after a digit and a separator that another digit follows.
  function Advance(text: seq<char>, pos: nat, separator: Option<char>, radix: nat): (p: nat)
    requires pos < |text|
    ensures pos < p <= |text|
  {
    if separator.None? then pos + 1
    else if !IsDigitOf(text[pos], radix) then pos + 1
    else if pos + 1 == |text| then pos + 1
    else if pos + 2 == |text| then pos + 1
    else if text[pos + 1] == separator.value && IsDigitOf(text[pos + 2], radix) then pos + 2
    else pos + 1
  }

  // The digits from a position on, and the position behind them.
  ghost function DigitsFrom(text: seq<char>, pos: nat, separator: Option<char>, radix: nat): seq<nat>
    requires pos <= |text| && radix <= 32
    decreases |text| - pos
  {
    if pos == |text| || !IsDigitOf(text[pos], radix) then []
    else [DigitOf(text[pos], radix)] + DigitsFrom(text, Advance(text, pos, separator, radix), separator, radix)
  }

  ghost function EndOf(text: seq<char>, pos: nat, separator: Option<char>, radix: nat): (p: nat)
    requires pos <= |text|
    ensures pos <= p <= |text| && (p < |text| ==> !IsDigitOf(text[p], radix))
    decreases |text| - pos
  {
    if pos == |text| || !IsDigitOf(text[pos], radix) then pos
    else EndOf(text, Advance(text, pos, separator, radix), separator, radix)
  }

  // ---------- What is read of a text ----------

  // Digits, with a separator behind those that have a gap.
  function Separated(digits: seq<char>, gaps: seq<bool>, separator: char): (text: seq<char>)
    requires |gaps| + 1 >= |digits|
    ensures |digits| > 0 ==> |text| > 0 && text[0] == digits[0]
  {
    if |digits| <= 1 then digits
    else [digits[0]] + (if gaps[0] then [separator] else []) + Separated(digits[1..], gaps[1..], separator)
  }

  ghost function DigitValues(digits: seq<char>, radix: nat): (values: seq<nat>)
    requires radix <= 32 && forall c: char :: c in digits ==> IsDigitOf(c, radix)
    ensures |values| == |digits| && forall i :: 0 <= i < |digits| ==> values[i] == DigitOf(digits[i], radix)
  {
    seq(|digits|, (i: nat) requires i < |digits| && digits[i] in digits => DigitOf(digits[i], radix))
  }

  // Nothing that continues a number.
  predicate Ends(tail: seq<char>, separator: Option<char>, radix: nat)
  {
    && (|tail| > 0 ==> !IsDigitOf(tail[0], radix))
    && (|tail| > 1 && separator.Some? && tail[0] == separator.value ==> !IsDigitOf(tail[1], radix))
  }

  // The separator is no digit; without one there are no gaps.
  predicate MayGap(gaps: seq<bool>, separator: Option<char>, c: char, radix: nat)
  {
    if separator.Some? then separator.value == c && !IsDigitOf(c, radix) else forall i :: 0 <= i < |gaps| ==> !gaps[i]
  }

  lemma ValuesStep(digits: seq<char>, radix: nat)
    requires radix <= 32 && |digits| > 0 && forall c: char :: c in digits ==> IsDigitOf(c, radix)
    ensures digits[0] in digits && (forall c: char :: c in digits[1..] ==> c in digits)
    ensures DigitValues(digits, radix) == [DigitOf(digits[0], radix)] + DigitValues(digits[1..], radix)
  {
  }

  // What stands at a position and behind it.
  lemma StepOver(text: seq<char>, pos: nat, head: seq<char>, inner: seq<char>)
    requires pos <= |text| && text[pos..] == head + inner
    ensures pos + |head| <= |text| && text[pos + |head|..] == inner
    ensures forall i :: 0 <= i < |head| ==> text[pos + i] == head[i]
    ensures |inner| > 0 ==> pos + |head| < |text| && text[pos + |head|] == inner[0]
  {
    var rest := text[pos..];
    assert rest[|head|..] == inner;
    forall i | 0 <= i < |head| ensures text[pos + i] == head[i] { assert text[pos + i] == rest[i]; }
    if |inner| > 0 { assert text[pos + |head|] == rest[|head|]; }
  }

  // One step over a digit and, perhaps, a separator.
  lemma SeparatedStep(text: seq<char>, pos: nat, digits: seq<char>, gaps: seq<bool>, tail: seq<char>,
                      separator: Option<char>, c: char, radix: nat)
    requires |digits| > 1 && |gaps| + 1 >= |digits| && MayGap(gaps, separator, c, radix)
    requires IsDigitOf(digits[0], radix) && IsDigitOf(digits[1], radix)
    requires pos < |text| && text[pos..] == Separated(digits, gaps, c) + tail
    ensures text[pos] == digits[0] && Advance(text, pos, separator, radix) == pos + if gaps[0] then 2 else 1
    ensures text[Advance(text, pos, separator, radix)..] == Separated(digits[1..], gaps[1..], c) + tail
  {
    var inner := Separated(digits[1..], gaps[1..], c) + tail;
    assert inner[0] == digits[1];
    var head := if gaps[0] then [digits[0], c] else [digits[0]];
    assert Separated(digits, gaps, c) + tail == head + inner;
    hide Separated;
    StepOver(text, pos, head, inner);
    assert text[pos] == head[0];
    if gaps[0] { assert text[pos + 1] == head[1]; }
  }

  lemma LastStep(text: seq<char>, pos: nat, d: char, tail: seq<char>, separator: Option<char>, radix: nat)
    requires pos < |text| && text[pos..] == [d] + tail && Ends(tail, separator, radix)
    ensures text[pos] == d && Advance(text, pos, separator, radix) == pos + 1 && text[pos + 1..] == tail
  {
    var rest := text[pos..];
    assert text[pos] == rest[0] && text[pos + 1..] == rest[1..];
    if |tail| > 0 { assert text[pos + 1] == rest[1] == tail[0]; }
    if |tail| > 1 { assert text[pos + 2] == rest[2] == tail[1]; }
  }

  // A number is read to its end, and single separators between its digits are
  // skipped; one at the end or a second one in a row is not.
  lemma {:induction false} SeparatedDigits(text: seq<char>, pos: nat, digits: seq<char>, gaps: seq<bool>, tail: seq<char>,
                                           separator: Option<char>, c: char, radix: nat)
    requires radix <= 32 && |gaps| + 1 >= |digits| && MayGap(gaps, separator, c, radix)
    requires forall d: char :: d in digits ==> IsDigitOf(d, radix)
    requires pos <= |text| && text[pos..] == Separated(digits, gaps, c) + tail && Ends(tail, separator, radix)
    ensures DigitsFrom(text, pos, separator, radix) == DigitValues(digits, radix)
    ensures EndOf(text, pos, separator, radix) == |text| - |tail|
    decreases |digits|
  {
    hide IsDigitOf, DigitOf, Separated, MayGap;
    if |digits| == 0 {
      NothingWritten(digits, gaps, c);
      assert text[pos..] == tail;
      if |tail| > 0 { assert text[pos] == tail[0]; }
    } else {
      ValuesStep(digits, radix);
      assert digits[0] in digits;
      if |digits| == 1 {
        NothingWritten(digits, gaps, c);
        LastStep(text, pos, digits[0], tail, separator, radix);
        NothingWritten(digits[1..], gaps, c);
        SeparatedDigits(text, pos + 1, digits[1..], gaps, tail, separator, c, radix);
      } else {
        assert digits[1] in digits;
        SeparatedStep(text, pos, digits, gaps, tail, separator, c, radix);
        StillMayGap(gaps, separator, c, radix);
        SeparatedDigits(text, Advance(text, pos, separator, radix), digits[1..], gaps[1..], tail, separator, c, radix);
      }
    }
  }

  lemma NothingWritten(digits: seq<char>, gaps: seq<bool>, c: char)
    requires |digits| <= 1
    ensures Separated(digits, gaps, c) == digits
  {
  }

  lemma StillMayGap(gaps: seq<bool>, separator: Option<char>, c: char, radix: nat)
    requires |gaps| > 0 && MayGap(gaps, separator, c, radix)
    ensures MayGap(gaps[1..], separator, c, radix)
  {
  }

  // The characters that may follow a number.
  lemma WhitespaceCharacters(c: char)
    requires c as int < 128
    ensures IsWhitespace(c) <==> c in " \t\n\r\U{0B}\U{0C}"
  {
  }

  // The number that digits denote.
  ghost function RadixValue(digits: seq<nat>, radix: nat): nat
  {
    if |digits| == 0 then 0
    else radix * RadixValue(digits[..|digits| - 1], radix) + digits[|digits| - 1]
  }

  lemma ValueAppend(digits: seq<nat>, d: nat, radix: nat)
    ensures RadixValue(digits + [d], radix) == radix * RadixValue(digits, radix) + d
  {
    assert (digits + [d])[..|digits|] == digits;
  }

  lemma {:induction false} ValueConcat(s: seq<nat>, t: seq<nat>, radix: nat)
    ensures 0 <= RadixValue(s, radix) * Pow(radix, |t|)
    ensures RadixValue(s + t, radix) == RadixValue(s, radix) * Pow(radix, |t|) + RadixValue(t, radix)
  {
    hide Pow;
    MulLe(0, RadixValue(s, radix), Pow(radix, |t|));
    if |t| == 0 {
      PowZero(radix);
      assert s + t == s;
    } else {
      var t', d := t[..|t| - 1], t[|t| - 1];
      ValueConcat(s, t', radix);
      assert s + t == (s + t') + [d];
      ValueAppend(s + t', d, radix);
      PowStep(radix, |t'|);
      Distributed(RadixValue(s, radix), Pow(radix, |t'|), RadixValue(t', radix), radix);
    }
  }

  lemma Distributed(v: int, p: int, w: int, radix: int)
    ensures radix * (v * p + w) == v * (radix * p) + radix * w
  {
  }

  lemma {:induction false} ValueBelow(digits: seq<nat>, radix: nat)
    requires forall i :: 0 <= i < |digits| ==> digits[i] < radix
    ensures RadixValue(digits, radix) < Pow(radix, |digits|)
  {
    hide Pow;
    PowZero(radix);
    if |digits| > 0 {
      var rest := digits[..|digits| - 1];
      ValueBelow(rest, radix);
      PowStep(radix, |rest|);
      OneMore(RadixValue(rest, radix), digits[|rest|], Pow(radix, |rest|), radix);
    }
  }

  lemma OneMore(v: nat, d: nat, p: nat, radix: nat)
    requires v < p && d < radix
    ensures radix * v + d < radix * p
  {
    MulLe(v + 1, p, radix);
  }
}
