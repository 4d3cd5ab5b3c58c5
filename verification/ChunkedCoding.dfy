// The chunked transfer coding of external/cpp-httplib/httplib.h (section 7.1 of
// RFC 9112): what the writer puts on the wire and what the reader makes of any
// bytes.
module ChunkedCoding {
  import opened Powers
  import opened RadixDigits
  import opened Substrings

  const CRLF: seq<char> := ['\r', '\n']
  const ULONG_MAX: int := 0xFFFF_FFFF_FFFF_FFFF
  const HEADER_MAX_LENGTH := 8192

  // ---------- Hexadecimal lengths ----------

  function HexChar(d: nat): (c: char)
    requires d < 16
    ensures IsDigitOf(c, 16) && DigitOf(c, 16) == d
  {
    if d < 10 then '0' + d as char else 'a' + (d - 10) as char
  }

  predicate IsHex(s: seq<char>)
  {
    forall i :: 0 <= i < |s| ==> IsDigitOf(s[i], 16)
  }

  function HexValue(s: seq<char>): nat
    requires IsHex(s)
  {
    if |s| == 0 then 0 else 16 * HexValue(s[..|s| - 1]) + DigitOf(s[|s| - 1], 16)
  }

  // The shortest digits of n.
  ghost function Hex(n: nat): seq<char>
  {
    if n < 16 then [HexChar(n)] else Hex(n / 16) + [HexChar(n % 16)]
  }

  lemma {:induction false} HexRoundTrip(n: nat)
    ensures IsHex(Hex(n)) && |Hex(n)| > 0 && HexValue(Hex(n)) == n
  {
    if n < 16 {
      assert Hex(n)[..0] == [];
    } else {
      HexRoundTrip(n / 16);
      assert Hex(n)[..|Hex(n)| - 1] == Hex(n / 16);
    }
  }

  lemma HexCharacter(d: nat)
    requires d < 16
    ensures HexChar(d) == LOWER_DIGITS[d] && HexChar(d) in LOWER_DIGITS[..16] && (0 < d ==> HexChar(d) != '0')
  {
    DigitStrings(d);
    assert LOWER_DIGITS[..16][d] == LOWER_DIGITS[d];
  }

  predicate LowerHex(s: seq<char>)
  {
    forall i :: 0 <= i < |s| ==> s[i] in LOWER_DIGITS[..16]
  }

  lemma LowerAppend(s: seq<char>, d: nat)
    requires LowerHex(s) && d < 16
    ensures LowerHex(s + [HexChar(d)])
  {
    HexCharacter(d);
  }

  lemma OneLower(d: nat)
    requires d < 16
    ensures LowerHex([HexChar(d)])
  {
    HexCharacter(d);
  }

  // Small letters, and no zero in front of another digit.
  lemma {:induction false} HexIsShortest(n: nat)
    ensures 0 < |Hex(n)| && LowerHex(Hex(n))
    ensures 0 < n ==> Hex(n)[0] != '0'
    ensures n == 0 ==> Hex(n) == "0"
  {
    hide LowerHex, HexChar;
    HexCharacter(n % 16);
    if n < 16 {
      OneLower(n);
    } else {
      HexIsShortest(n / 16);
      LowerAppend(Hex(n / 16), n % 16);
    }
  }

  // Digits in front of those that are there, until nothing is left.
  method FromIToHex(n: nat) returns (ret: seq<char>)
    ensures ret == Hex(n)
  {
    ret := [HexChar(n % 16)];
    var rest := n / 16;
    while rest > 0
      invariant 0 <= rest && Hex(n) == if rest > 0 then Hex(rest) + ret else ret
      decreases rest
    {
      ret := [HexChar(rest % 16)] + ret;
      rest := rest / 16;
    }
  }

  // ---------- strtoul, base 16 ----------

  predicate IsSpace(c: char) { c == ' ' || (9 <= c as int <= 13) }

  // Where a run of characters of one kind ends.
  function SpacesEnd(s: seq<char>, i: nat): (j: nat)
    requires i <= |s|
    ensures i <= j <= |s|
    decreases |s| - i
  {
    if i < |s| && IsSpace(s[i]) then SpacesEnd(s, i + 1) else i
  }

  function HexEnd(s: seq<char>, i: nat): (j: nat)
    requires i <= |s|
    ensures i <= j <= |s| && IsHex(s[i..j])
    ensures j < |s| ==> !IsDigitOf(s[j], 16)
    decreases |s| - i
  {
    if i < |s| && IsDigitOf(s[i], 16) then HexEnd(s, i + 1) else i
  }

  datatype Parsed = NoNumber | Value(value: nat)

  // White space, a sign, a prefix 0x and hexadecimal digits; what is too large
  // becomes the largest value, and a minus sign negates modulo 2^64.
  function Strtoul16(s: seq<char>): Parsed
  {
    var i := SpacesEnd(s, 0);
    var negative := i < |s| && s[i] == '-';
    var j := if i < |s| && (s[i] == '-' || s[i] == '+') then i + 1 else i;
    var k := if j + 2 < |s| && s[j] == '0' && (s[j + 1] == 'x' || s[j + 1] == 'X') && IsDigitOf(s[j + 2], 16) then j + 2 else j;
    var e := HexEnd(s, k);
    if e == k then NoNumber
    else
      var v := HexValue(s[k..e]);
      if v > ULONG_MAX then Value(ULONG_MAX)
      else if negative && v > 0 then Value(ULONG_MAX + 1 - v)
      else Value(v)
  }

  // ---------- Lines ----------

  // The length of the first line, its terminator included; all of the text when
  // there is none.
  ghost function LineLength(s: seq<char>): (n: nat)
    ensures n <= |s| && (|s| > 0 ==> n > 0)
    decreases |s|
  {
    if |s| <= 1 then |s|
    else if s[0] == '\r' && s[1] == '\n' then 2
    else 1 + LineLength(s[1..])
  }

  lemma {:induction false} LineOf(head: seq<char>, rest: seq<char>)
    requires forall i :: 0 <= i < |head| ==> head[i] != '\r'
    ensures LineLength(head + CRLF + rest) == |head| + 2
    decreases |head|
  {
    var s := head + CRLF + rest;
    if |head| > 0 {
      LineOf(head[1..], rest);
      assert s[1..] == head[1..] + CRLF + rest;
    }
  }

  // No line terminator ends among the first n characters.
  predicate NoBreak(s: seq<char>, n: nat)
    requires n <= |s|
  {
    forall k: nat :: k + 1 < n ==> !(s[k] == '\r' && s[k + 1] == '\n')
  }

  lemma {:induction false} LineEndsAt(s: seq<char>, n: nat)
    requires 2 <= n <= |s| && s[n - 2] == '\r' && s[n - 1] == '\n' && NoBreak(s, n - 1)
    ensures LineLength(s) == n
    decreases n
  {
    if n > 2 {
      assert !(s[0] == '\r' && s[0 + 1] == '\n');
      forall k: nat | k + 1 < n - 2
        ensures !(s[1..][k] == '\r' && s[1..][k + 1] == '\n')
      {
        assert !(s[k + 1] == '\r' && s[k + 1 + 1] == '\n');
      }
      LineEndsAt(s[1..], n - 1);
    }
  }

  lemma {:induction false} LineIsAll(s: seq<char>)
    requires NoBreak(s, |s|)
    ensures LineLength(s) == |s|
    decreases |s|
  {
    if |s| > 1 {
      assert !(s[0] == '\r' && s[0 + 1] == '\n');
      forall k: nat | k + 1 < |s| - 1
        ensures !(s[1..][k] == '\r' && s[1..][k + 1] == '\n')
      {
        assert !(s[k + 1] == '\r' && s[k + 1 + 1] == '\n');
      }
      LineIsAll(s[1..]);
    }
  }

  // Text that ends at its first line terminator.
  predicate IsLine(l: seq<char>)
  {
    2 <= |l| && l[|l| - 2..] == CRLF && NoBreak(l, |l| - 1)
  }

  lemma LineInFront(l: seq<char>, rest: seq<char>)
    requires IsLine(l)
    ensures LineLength(l + rest) == |l| && (l + rest)[..|l|] == l && (l + rest)[|l|..] == rest
  {
    var s, n := l + rest, |l|;
    assert l[n - 2..][0] == '\r' && l[n - 2..][1] == '\n';
    assert forall i :: 0 <= i < n ==> s[i] == l[i];
    LineEndsAt(s, n);
  }

  // The first line of a text and what is behind it; a line without a terminator
  // is the last.
  predicate FirstLine(l: seq<char>, rest: seq<char>)
  {
    IsLine(l) || (0 < |l| && rest == [] && NoBreak(l, |l|))
  }

  lemma FirstLineLength(l: seq<char>, rest: seq<char>)
    requires FirstLine(l, rest)
    ensures LineLength(l + rest) == |l| && (l + rest)[..|l|] == l && (l + rest)[|l|..] == rest
  {
    hide IsLine, NoBreak, LineLength;
    if IsLine(l) {
      LineInFront(l, rest);
    } else {
      LineIsAll(l);
      assert l + rest == l;
    }
  }

  lemma WithoutReturn(head: seq<char>)
    requires forall i :: 0 <= i < |head| ==> head[i] != '\r'
    ensures IsLine(head + CRLF)
  {
  }

  // ---------- The coding ----------

  ghost function Chunk(payload: seq<char>): seq<char>
  {
    Hex(|payload|) + CRLF + payload + CRLF
  }

  ghost function Chunks(payloads: seq<seq<char>>): seq<char>
  {
    if |payloads| == 0 then [] else Chunk(payloads[0]) + Chunks(payloads[1..])
  }

  lemma {:induction false} ChunksAppend(payloads: seq<seq<char>>, payload: seq<char>)
    ensures Chunks(payloads + [payload]) == Chunks(payloads) + Chunk(payload)
    decreases |payloads|
  {
    if |payloads| == 0 {
      assert payloads + [payload] == [payload];
      assert [payload][1..] == [];
      assert Chunks([]) == [];
    } else {
      assert (payloads + [payload])[1..] == payloads[1..] + [payload];
      ChunksAppend(payloads[1..], payload);
    }
  }

  const LAST_CHUNK: seq<char> := ['0', '\r', '\n']

  // ---------- Decoding ----------

  datatype Decoded = Decoded(ok: bool, delivered: seq<char>, rest: seq<char>)

  // The lines after the last chunk, up to an empty one.
  ghost function Trailer(s: seq<char>): (d: Decoded)
    ensures d.delivered == []
    decreases |s|
  {
    var n := LineLength(s);
    if s == [] then Decoded(false, [], [])
    else if s[..n] == CRLF then Decoded(true, [], s[n..])
    else if n > HEADER_MAX_LENGTH then Decoded(false, [], s[n..])
    else Trailer(s[n..])
  }

  // What is delivered, whether the end was reached and what is left unread.
  ghost function Decode(s: seq<char>): Decoded
    decreases |s|
  {
    var n := LineLength(s);
    if s == [] then Decoded(false, [], [])
    else
      var size, body := Strtoul16(s[..n]), s[n..];
      if size.NoNumber? || size.value == ULONG_MAX then Decoded(false, [], body)
      else if size.value == 0 then (if body == [] then Decoded(true, [], []) else Trailer(body))
      else if |body| < size.value then Decoded(false, body, [])
      else
        var after := body[size.value..];
        var m := LineLength(after);
        if after == [] || after[..m] != CRLF then Decoded(false, body[..size.value], after[m..])
        else
          var next := Decode(after[m..]);
          Decoded(next.ok, body[..size.value] + next.delivered, next.rest)
  }

  // ---------- Round trip ----------

  lemma {:induction false} HexEndOf(s: seq<char>, i: nat, e: nat)
    requires i <= e <= |s| && (forall k :: i <= k < e ==> IsDigitOf(s[k], 16)) && (e < |s| ==> !IsDigitOf(s[e], 16))
    ensures HexEnd(s, i) == e
    decreases e - i
  {
    if i < e { HexEndOf(s, i + 1, e); }
  }

  lemma {:induction false} SpacesEndOf(s: seq<char>, i: nat, e: nat)
    requires i <= e <= |s| && (forall k :: i <= k < e ==> IsSpace(s[k])) && (e < |s| ==> !IsSpace(s[e]))
    ensures SpacesEnd(s, i) == e
    decreases e - i
  {
    if i < e { SpacesEndOf(s, i + 1, e); }
  }

  const SPACES: seq<char> := " \t\n\r\U{0B}\U{0C}"

  lemma SpaceCharacters(c: char)
    ensures IsSpace(c) <==> c in SPACES
  {
  }

  predicate StartsWithHex(s: seq<char>) { |s| > 0 && IsDigitOf(s[0], 16) }

  // White space, a sign and a prefix in front of digits.
  predicate Heads(spaces: seq<char>, sign: seq<char>, prefix: seq<char>)
  {
    && (forall c: char :: c in spaces ==> c in SPACES)
    && (sign == "" || sign == "+" || sign == "-") && (prefix == "" || prefix == "0x" || prefix == "0X")
  }

  // What does not fit is the largest value; a minus sign negates modulo 2^64.
  function SizeIn64Bits(negative: bool, v: nat): (size: nat)
    ensures size <= 0xFFFF_FFFF_FFFF_FFFF && (!negative && v <= 0xFFFF_FFFF_FFFF_FFFF ==> size == v)
  {
    if v > 0xFFFF_FFFF_FFFF_FFFF then 0xFFFF_FFFF_FFFF_FFFF
    else if negative && v > 0 then 0x1_0000_0000_0000_0000 - v
    else v
  }

  predicate SpacesBefore(s: seq<char>, i: nat)
  {
    i <= |s| && forall n :: 0 <= n < i ==> IsSpace(s[n])
  }

  predicate HexBetween(s: seq<char>, k: nat, e: nat)
  {
    k < e <= |s| && (forall n :: k <= n < e ==> IsDigitOf(s[n], 16)) && (e < |s| ==> !IsDigitOf(s[e], 16))
  }

  predicate PrefixAt(s: seq<char>, j: nat)
  {
    j + 2 < |s| && s[j] == '0' && (s[j + 1] == 'x' || s[j + 1] == 'X') && IsDigitOf(s[j + 2], 16)
  }

  lemma ParseAt(s: seq<char>, i: nat, j: nat, k: nat, e: nat)
    requires i <= j <= k < e <= |s| && SpacesBefore(s, i) && !IsSpace(s[i]) && HexBetween(s, k, e)
    requires j == (if s[i] == '-' || s[i] == '+' then i + 1 else i) && k == if PrefixAt(s, j) then j + 2 else j
    ensures IsHex(s[k..e]) && Strtoul16(s) == Value(SizeIn64Bits(s[i] == '-', HexValue(s[k..e])))
  {
    hide HexValue;
    SpacesEndOf(s, 0, i);
    HexEndOf(s, k, e);
  }

  // Where the parts of a concatenation are.
  lemma PartsOf(a: seq<char>, b: seq<char>, c: seq<char>, h: seq<char>, tail: seq<char>)
    ensures var s := a + b + c + h + tail;
      && (forall n :: 0 <= n < |a| ==> s[n] == a[n]) && (forall n :: 0 <= n < |b| ==> s[|a| + n] == b[n])
      && (forall n :: 0 <= n < |c| ==> s[|a| + |b| + n] == c[n])
      && (forall n :: 0 <= n < |h| ==> s[|a| + |b| + |c| + n] == h[n])
      && (forall n :: 0 <= n < |tail| ==> s[|a| + |b| + |c| + |h| + n] == tail[n])
      && s[|a| + |b| + |c|..|a| + |b| + |c| + |h|] == h
  {
  }

  lemma HexStarts(c: char)
    requires IsDigitOf(c, 16)
    ensures !IsSpace(c) && c != '-' && c != '+' && c != 'x' && c != 'X'
  {
  }

  // Strings at positions of another.
  predicate At(s: seq<char>, i: nat, part: seq<char>)
  {
    i + |part| <= |s| && forall n :: 0 <= n < |part| ==> s[i + n] == part[n]
  }

  lemma SpacesAt(s: seq<char>, spaces: seq<char>)
    requires At(s, 0, spaces) && forall c: char :: c in spaces ==> c in SPACES
    ensures SpacesBefore(s, |spaces|)
  {
    hide IsSpace;
    forall n | 0 <= n < |spaces|
      ensures IsSpace(s[n])
    {
      assert s[0 + n] == spaces[n];
      SpaceCharacters(s[n]);
    }
  }

  lemma HexAt(s: seq<char>, k: nat, h: seq<char>, tail: seq<char>)
    requires |h| > 0 && IsHex(h) && !StartsWithHex(tail) && At(s, k, h) && At(s, k + |h|, tail) && |s| == k + |h| + |tail|
    ensures HexBetween(s, k, k + |h|)
  {
    hide IsDigitOf;
    forall n | k <= n < k + |h|
      ensures IsDigitOf(s[n], 16)
    {
      assert s[k + (n - k)] == h[n - k];
    }
    if |tail| > 0 { assert s[k + |h| + 0] == tail[0]; }
  }

  // Without a prefix, digits do not look like one.
  lemma NoPrefixAt(s: seq<char>, k: nat, h: seq<char>, tail: seq<char>)
    requires |h| > 0 && IsHex(h) && At(s, k, h) && At(s, k + |h|, tail) && |s| == k + |h| + |tail|
    requires h == "0" && |tail| > 1 && (tail[0] == 'x' || tail[0] == 'X') ==> !IsDigitOf(tail[1], 16)
    ensures !PrefixAt(s, k)
  {
    hide IsDigitOf;
    assert s[k + 0] == h[0];
    if |h| > 1 {
      assert s[k + 1] == h[1];
      HexStarts(h[1]);
    } else {
      OnlyZero(h);
      if |tail| > 0 { assert s[k + |h| + 0] == tail[0]; }
      if |tail| > 1 { assert s[k + |h| + 1] == tail[1]; }
    }
  }

  lemma SizeAt(s: seq<char>, spaces: seq<char>, sign: seq<char>, prefix: seq<char>, h: seq<char>, tail: seq<char>, j: nat, k: nat)
    requires Heads(spaces, sign, prefix) && |h| > 0 && IsHex(h) && !StartsWithHex(tail)
    requires prefix == "" && h == "0" && |tail| > 1 && (tail[0] == 'x' || tail[0] == 'X') ==> !IsDigitOf(tail[1], 16)
    requires j == |spaces| + |sign| && k == j + |prefix| && |s| == k + |h| + |tail| && s[k..k + |h|] == h
    requires At(s, 0, spaces) && At(s, |spaces|, sign) && At(s, j, prefix) && At(s, k, h) && At(s, k + |h|, tail)
    ensures Strtoul16(s) == Value(SizeIn64Bits(sign == "-", HexValue(h)))
  {
    hide IsDigitOf, IsSpace, HexValue, Strtoul16, SizeIn64Bits, At, StartsWithHex, SpacesBefore;
    SpacesAt(s, spaces);
    HexAt(s, k, h, tail);
    if prefix == "" { NoPrefixAt(s, k, h, tail); }
    SignAndPrefix(s, |spaces|, j, k, sign, prefix);
    hide HexBetween;
    ParseAt(s, |spaces|, j, k, k + |h|);
  }

  // A number in base 16, whatever follows it; one that is too large is the
  // largest, and a minus sign negates modulo 2^64.
  lemma SizeOf(spaces: seq<char>, sign: seq<char>, prefix: seq<char>, h: seq<char>, tail: seq<char>)
    requires Heads(spaces, sign, prefix) && |h| > 0 && IsHex(h) && !StartsWithHex(tail)
    requires prefix == "" && h == "0" && |tail| > 1 && (tail[0] == 'x' || tail[0] == 'X') ==> !IsDigitOf(tail[1], 16)
    ensures Strtoul16(spaces + sign + prefix + h + tail) == Value(SizeIn64Bits(sign == "-", HexValue(h)))
  {
    hide IsDigitOf, IsSpace, HexValue, Strtoul16, Heads, IsHex, StartsWithHex, SizeIn64Bits;
    PartsOf(spaces, sign, prefix, h, tail);
    SizeAt(spaces + sign + prefix + h + tail, spaces, sign, prefix, h, tail, |spaces| + |sign|, |spaces| + |sign| + |prefix|);
  }

  lemma OnlyZero(h: seq<char>)
    requires |h| > 0
    ensures h == "0" <==> |h| == 1 && h[0] == '0'
  {
  }

  lemma SignAndPrefix(s: seq<char>, i: nat, j: nat, k: nat, sign: seq<char>, prefix: seq<char>)
    requires i + |sign| == j && j + |prefix| == k < |s| && Heads([], sign, prefix) && At(s, i, sign) && At(s, j, prefix)
    requires IsDigitOf(s[k], 16)
    ensures !IsSpace(s[i]) && (s[i] == '-' <==> sign == "-") && (s[i] == '+' <==> sign == "+")
    ensures prefix != "" ==> k == j + 2 && PrefixAt(s, j)
  {
    hide IsDigitOf, IsSpace;
    HexStarts(s[k]);
    SpaceCharacters(s[i]);
    if |sign| > 0 { assert s[i + 0] == sign[0]; }
    if |prefix| > 0 {
      assert s[j + 0] == prefix[0] && s[j + 1] == prefix[1];
      IsZero(s[j]);
      HexStarts(s[j]);
    }
  }

  // Without a digit there is no number.
  lemma NoSize(spaces: seq<char>, sign: seq<char>, tail: seq<char>)
    requires Heads(spaces, sign, "") && !StartsWithHex(tail)
    requires |tail| > 0 && sign == "" ==> tail[0] !in SPACES && tail[0] != '+' && tail[0] != '-'
    ensures Strtoul16(spaces + sign + tail) == NoNumber
  {
    hide IsDigitOf, IsSpace, HexValue;
    var s := spaces + sign + tail;
    var i, j := |spaces|, |spaces| + |sign|;
    forall n | 0 <= n < i ensures IsSpace(s[n]) { assert s[n] == spaces[n]; SpaceCharacters(s[n]); }
    if |sign| > 0 { assert s[i] == sign[0]; SpaceCharacters(s[i]); }
    if |tail| > 0 { assert s[j] == tail[0]; SpaceCharacters(s[j]); IsZero(tail[0]); }
    SpacesEndOf(s, 0, i);
    HexEndOf(s, j, j);
  }

  lemma IsZero(c: char)
    ensures c == '0' ==> IsDigitOf(c, 16)
  {
  }

  // A length without a prefix or a sign is read as it was written.
  lemma SizeIsRead(n: nat)
    requires n <= ULONG_MAX
    ensures Strtoul16(Hex(n) + CRLF) == Value(n)
  {
    hide Strtoul16, HexValue, Hex;
    HexRoundTrip(n);
    SizeOf("", "", "", Hex(n), CRLF);
    assert "" + "" + "" + Hex(n) + CRLF == Hex(n) + CRLF;
  }

  // ---------- What the reader takes ----------

  // A chunk behind any size line is taken off the front, whatever its bytes are.
  lemma DecodeSized(line: seq<char>, payload: seq<char>, rest: seq<char>)
    requires IsLine(line) && Strtoul16(line) == Value(|payload|) && 0 < |payload| < 0xFFFF_FFFF_FFFF_FFFF
    ensures var next := Decode(rest);
      Decode(line + payload + CRLF + rest) == Decoded(next.ok, payload + next.delivered, next.rest)
  {
    hide IsLine, Strtoul16, LineLength, Trailer;
    var s, body, after := line + payload + CRLF + rest, payload + CRLF + rest, CRLF + rest;
    assert s == line + body;
    LineInFront(line, body);
    assert body[..|payload|] == payload && body[|payload|..] == after;
    EmptyLine();
    LineInFront(CRLF, rest);
  }

  lemma EmptyLine()
    ensures IsLine(CRLF)
  {
  }

  // What may be behind the digits of a size line: a chunk extension, white space.
  predicate IsExtension(x: seq<char>)
  {
    (forall i :: 0 <= i < |x| ==> x[i] != '\r') && !StartsWithHex(x) && (|x| > 0 ==> x[0] != 'x' && x[0] != 'X')
  }

  lemma SizeLine(h: seq<char>, extension: seq<char>)
    requires |h| > 0 && IsHex(h) && HexValue(h) <= 0xFFFF_FFFF_FFFF_FFFF && IsExtension(extension)
    ensures IsLine(h + extension + CRLF) && Strtoul16(h + extension + CRLF) == Value(HexValue(h))
  {
    hide HexValue, Strtoul16, IsLine;
    HexHasNoReturn(h);
    WithoutReturn(h + extension);
    var tail := extension + CRLF;
    ExtensionTail(extension);
    SizeOf("", "", "", h, tail);
    assert "" + "" + "" + h + tail == h + extension + CRLF;
  }

  lemma ExtensionTail(extension: seq<char>)
    requires IsExtension(extension)
    ensures var tail := extension + CRLF;
      |tail| > 0 && !StartsWithHex(tail) && tail[0] != 'x' && tail[0] != 'X'
  {
  }

  lemma HexHasNoReturn(h: seq<char>)
    requires IsHex(h)
    ensures forall i :: 0 <= i < |h| ==> h[i] != '\r'
  {
    forall i | 0 <= i < |h|
      ensures h[i] != '\r'
    {
      assert IsDigitOf(h[i], 16);
    }
  }

  // A chunk with its size in any hexadecimal digits, with or without an extension.
  lemma DecodeSizedChunk(h: seq<char>, extension: seq<char>, payload: seq<char>, rest: seq<char>)
    requires |h| > 0 && IsHex(h) && HexValue(h) == |payload| && 0 < |payload| < 0xFFFF_FFFF_FFFF_FFFF
    requires IsExtension(extension)
    ensures var next := Decode(rest);
      Decode(h + extension + CRLF + payload + CRLF + rest) == Decoded(next.ok, payload + next.delivered, next.rest)
  {
    hide HexValue, Decode, IsExtension, IsLine, Strtoul16;
    SizeLine(h, extension);
    DecodeSized(h + extension + CRLF, payload, rest);
  }

  lemma DecodeChunk(payload: seq<char>, rest: seq<char>)
    requires 0 < |payload| < ULONG_MAX
    ensures var next := Decode(rest);
      Decode(Chunk(payload) + rest) == Decoded(next.ok, payload + next.delivered, next.rest)
  {
    hide HexValue, Hex, Decode, IsHex;
    HexRoundTrip(|payload|);
    DecodeSizedChunk(Hex(|payload|), "", payload, rest);
    assert Hex(|payload|) + "" == Hex(|payload|);
    assert Chunk(payload) + rest == Hex(|payload|) + "" + CRLF + payload + CRLF + rest;
  }

  predicate TrailerLine(l: seq<char>)
  {
    IsLine(l) && l != CRLF && |l| <= 8192
  }

  lemma FlatNone(lines: seq<seq<char>>)
    requires |lines| == 0
    ensures Flat(lines) == []
  {
  }

  lemma {:induction false} TrailerLines(lines: seq<seq<char>>, s: seq<char>)
    requires forall i :: 0 <= i < |lines| ==> TrailerLine(lines[i])
    ensures Trailer(Flat(lines) + s) == Trailer(s)
    decreases |lines|
  {
    hide IsLine, LineLength, Flat;
    if |lines| == 0 {
      FlatNone(lines);
      assert Flat(lines) + s == s;
    } else {
      FlatFront(lines);
      var behind := Flat(lines[1..]) + s;
      assert Flat(lines) + s == lines[0] + behind;
      LineInFront(lines[0], behind);
      TrailerLines(lines[1..], s);
    }
  }

  // After a chunk of size zero, header lines of up to 8192 bytes and an empty
  // line end the content; what follows is not touched.
  lemma DecodeTrailer(h: seq<char>, extension: seq<char>, lines: seq<seq<char>>, rest: seq<char>)
    requires |h| > 0 && IsHex(h) && HexValue(h) == 0 && IsExtension(extension)
    requires forall i :: 0 <= i < |lines| ==> TrailerLine(lines[i])
    ensures Decode(h + extension + CRLF + Flat(lines) + CRLF + rest) == Decoded(true, [], rest)
  {
    hide HexValue, Strtoul16, IsLine, LineLength, Trailer, Flat, TrailerLine, IsExtension;
    SizeLine(h, extension);
    var line, body := h + extension + CRLF, Flat(lines) + (CRLF + rest);
    assert line + Flat(lines) + CRLF + rest == line + body;
    LineInFront(line, body);
    TrailerLines(lines, CRLF + rest);
    TrailerEnds(rest);
  }

  lemma TrailerEnds(rest: seq<char>)
    ensures Trailer(CRLF + rest) == Decoded(true, [], rest)
  {
    hide LineLength;
    EmptyLine();
    LineInFront(CRLF, rest);
  }

  // A longer header line is refused, and so is the end of the stream behind
  // header lines, but not right behind the last chunk.
  lemma TrailerRefused(lines: seq<seq<char>>, line: seq<char>, rest: seq<char>)
    requires (forall i :: 0 <= i < |lines| ==> TrailerLine(lines[i])) && FirstLine(line, rest) && |line| > 8192
    ensures Trailer(Flat(lines) + (line + rest)) == Decoded(false, [], rest)
  {
    hide LineLength, TrailerLine, Flat, FirstLine;
    TrailerLines(lines, line + rest);
    FirstLineLength(line, rest);
  }

  lemma TrailerUnfinished(lines: seq<seq<char>>)
    requires forall i :: 0 <= i < |lines| ==> TrailerLine(lines[i])
    ensures Trailer(Flat(lines)) == Decoded(false, [], [])
  {
    hide TrailerLine, Flat;
    TrailerLines(lines, []);
    assert Flat(lines) + [] == Flat(lines);
  }

  // Behind the line of the last chunk, everything is the trailer; without one the
  // content has ended as well.
  lemma DecodeLast(line: seq<char>, body: seq<char>)
    requires FirstLine(line, body) && Strtoul16(line) == Value(0)
    ensures Decode(line + body) == if body == [] then Decoded(true, [], []) else Trailer(body)
  {
    hide Strtoul16, LineLength, Trailer, FirstLine;
    LineNotEmpty(line, body);
    FirstLineLength(line, body);
  }

  lemma FirstOfLines(line: seq<char>, body: seq<char>)
    requires IsLine(line)
    ensures FirstLine(line, body)
  {
  }

  lemma LineNotEmpty(line: seq<char>, body: seq<char>)
    requires FirstLine(line, body)
    ensures line + body != []
  {
  }

  // What the reader refuses: a size line without a number or with the largest one,
  // the end of the stream inside a chunk, and a chunk without a line end behind it.
  lemma SizeRefused(line: seq<char>, body: seq<char>)
    requires FirstLine(line, body) && (Strtoul16(line) == NoNumber || Strtoul16(line) == Value(0xFFFF_FFFF_FFFF_FFFF))
    ensures Decode(line + body) == Decoded(false, [], body)
  {
    hide Strtoul16, LineLength, Trailer, FirstLine;
    LineNotEmpty(line, body);
    FirstLineLength(line, body);
  }

  lemma CutShort(line: seq<char>, body: seq<char>, n: nat)
    requires FirstLine(line, body) && Strtoul16(line) == Value(n) && |body| < n < 0xFFFF_FFFF_FFFF_FFFF
    ensures Decode(line + body) == Decoded(false, body, [])
  {
    hide Strtoul16, LineLength, Trailer, FirstLine;
    LineNotEmpty(line, body);
    FirstLineLength(line, body);
  }

  lemma NoLineEnd(line: seq<char>, payload: seq<char>, behind: seq<char>, rest: seq<char>)
    requires IsLine(line) && Strtoul16(line) == Value(|payload|) && 0 < |payload| < 0xFFFF_FFFF_FFFF_FFFF
    requires behind + rest == [] || (FirstLine(behind, rest) && behind != CRLF)
    ensures Decode(line + payload + (behind + rest)) == Decoded(false, payload, rest)
  {
    hide Strtoul16, LineLength, Trailer, FirstLine, IsLine;
    var body := payload + (behind + rest);
    assert line + payload + (behind + rest) == line + body;
    LineInFront(line, body);
    FirstOfLines(line, body);
    LineNotEmpty(line, body);
    assert body[..|payload|] == payload && body[|payload|..] == behind + rest;
    if behind + rest != [] { FirstLineLength(behind, rest); }
  }

  // The end marker and the empty line after it; what follows is not touched.
  lemma DecodeEnd(rest: seq<char>)
    ensures Decode(LAST_CHUNK + CRLF + rest) == Decoded(true, [], rest)
  {
    hide Decode, IsExtension, TrailerLine;
    ZeroDigit();
    DecodeTrailer("0", "", [], rest);
    assert "0" + "" + CRLF + Flat([]) + CRLF + rest == LAST_CHUNK + CRLF + rest;
  }

  lemma ZeroDigit()
    ensures IsHex("0") && HexValue("0") == 0 && IsExtension("") && Flat([]) == ""
  {
    assert "0"[..0] == "";
  }

  // Reading what was written delivers the concatenation of the payloads, even
  // when they contain line ends or look like chunks.
  lemma {:induction false} DecodeChunks(payloads: seq<seq<char>>, rest: seq<char>)
    requires forall i :: 0 <= i < |payloads| ==> 0 < |payloads[i]| < ULONG_MAX
    ensures Decode(Chunks(payloads) + LAST_CHUNK + CRLF + rest) == Decoded(true, Flat(payloads), rest)
    decreases |payloads|
  {
    hide Decode, Chunk;
    if |payloads| == 0 {
      assert Chunks(payloads) + LAST_CHUNK + CRLF + rest == LAST_CHUNK + CRLF + rest;
      DecodeEnd(rest);
    } else {
      var behind := Chunks(payloads[1..]) + LAST_CHUNK + CRLF + rest;
      assert Chunks(payloads) + LAST_CHUNK + CRLF + rest == Chunk(payloads[0]) + behind;
      DecodeChunks(payloads[1..], rest);
      DecodeChunk(payloads[0], behind);
      FlatFront(payloads);
    }
  }

  // Without the end marker the reader refuses, but it has delivered the same.
  lemma {:induction false} DecodeUnfinished(payloads: seq<seq<char>>)
    requires forall i :: 0 <= i < |payloads| ==> 0 < |payloads[i]| < ULONG_MAX
    ensures Decode(Chunks(payloads)) == Decoded(false, Flat(payloads), [])
    decreases |payloads|
  {
    hide Chunk;
    if |payloads| > 0 {
      DecodeUnfinished(payloads[1..]);
      DecodeChunk(payloads[0], Chunks(payloads[1..]));
      FlatFront(payloads);
    }
  }
}
