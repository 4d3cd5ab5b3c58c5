// external/cpp-httplib/httplib.h: the multipart parser's buffer and its body
// state, which delivers everything up to the boundary while input arrives in
// pieces of any size.
module Multipart {
  import opened Receivers
  import opened Substrings

  const BODY := 3
  const BOUNDARY := 4

  // A piece is handed over when the boundary is there, or when more is pending
  // than a boundary that is still incomplete can need.
  ghost predicate HandsOver(boundary: seq<char>, text: seq<char>, from: nat)
  {
    from + |boundary| <= |text| && (!NoneBefore(boundary, text, |text|) || from + |boundary| < |text|)
  }

  // Where that piece ends: at the first boundary, or one boundary before the end.
  ghost function PieceEnd(boundary: seq<char>, text: seq<char>): (n: int)
    ensures !NoneBefore(boundary, text, |text|) ==> 0 <= n && IsFirst(boundary, text, n)
    ensures NoneBefore(boundary, text, |text|) ==> n == |text| - |boundary|
  {
    if NoneBefore(boundary, text, |text|) then |text| - |boundary| else FirstOccurrence(boundary, text, 0)
  }

  class MultipartFormDataParser {
    const crlfDashBoundary: seq<char>
    var state: nat
    var isValid: bool
    var buf: seq<char>
    var bufSPos: nat
    var bufEPos: nat

    ghost predicate Shaped()
      reads this
    {
      bufSPos <= bufEPos <= |buf| && 0 < |crlfDashBoundary|
    }

    ghost function Pending(): seq<char>
      reads this
      requires Shaped()
    {
      buf[bufSPos..bufEPos]
    }

    // Nothing of the boundary has been delivered, and nothing of the input lost.
    ghost predicate Body(input: seq<char>, delivered: seq<char>)
      reads this
    {
      && Shaped() && state == BODY && delivered + Pending() == input
      && NoneBefore(crlfDashBoundary, input, |delivered|)
      && (|delivered| > 0 ==> |crlfDashBoundary| <= |Pending()|)
    }

    // In the body state with an empty buffer.
    constructor (boundary: seq<char>)
      ensures crlfDashBoundary == ['\r', '\n', '-', '-'] + boundary && Body([], [])
    {
      crlfDashBoundary := ['\r', '\n', '-', '-'] + boundary;
      state, isValid := BODY, false;
      buf, bufSPos, bufEPos := [], 0, 0;
    }

    // ---------- Buffer ----------

    function BufSize(): nat
      reads this
      requires Shaped()
    {
      bufEPos - bufSPos
    }

    static method StartWith(a: seq<char>, spos: nat, epos: nat, b: seq<char>) returns (r: bool)
      requires spos <= epos <= |a|
      ensures r <==> OccursAt(b, a[..epos], spos)
    {
      if epos - spos < |b| {
        return false;
      }
      for i := 0 to |b|
        invariant forall k :: 0 <= k < i ==> a[k + spos] == b[k]
      {
        if a[i + spos] != b[i] {
          assert a[..epos][spos..spos + |b|][i] == a[i + spos];
          return false;
        }
      }
      r := true;
    }

    // The distance to the first occurrence of s, or the size of the buffer.
    method BufFind(s: seq<char>) returns (pos: nat)
      requires Shaped() && 0 < |s|
      ensures pos <= BufSize() && NoneBefore(s, Pending(), pos)
      ensures pos < BufSize() ==> OccursAt(s, Pending(), pos)
    {
      var c := s[0];
      var off := bufSPos;
      while off < bufEPos
        invariant bufSPos <= off <= bufEPos && NoneBefore(s, Pending(), off - bufSPos)
      {
        var p := off;
        while p < bufEPos && buf[p] != c
          invariant off <= p <= bufEPos && forall k :: off <= k < p ==> buf[k] != c
        {
          p := p + 1;
        }
        NotStarting(s, Pending(), off - bufSPos, p - bufSPos);
        if p == bufEPos {
          return BufSize();
        }
        var remainingSize := bufEPos - p;
        if |s| > remainingSize {
          NoRoom(s, Pending(), p - bufSPos);
          return BufSize();
        }
        var found := StartWith(buf, p, bufEPos, s);
        InPending(s, buf, bufSPos, bufEPos, p);
        if found {
          return p - bufSPos;
        }
        off := p + 1;
      }
      pos := BufSize();
    }

    // Moves what is pending to the front and adds the data behind it.
    method BufAppend(data: seq<char>)
      requires Shaped()
      modifies this`buf, this`bufSPos, this`bufEPos
      ensures Shaped() && Pending() == old(Pending()) + data
    {
      var remainingSize := BufSize();
      if remainingSize > 0 && bufSPos > 0 {
        MoveToFront(remainingSize);
      }
      assert buf[..remainingSize] == old(Pending());
      bufSPos := 0;
      bufEPos := remainingSize;
      if remainingSize + |data| > |buf| {
        buf := buf + seq(remainingSize + |data| - |buf|, _ => '\0');
      }
      assert buf[..remainingSize] == old(Pending());
      Copy(data);
      bufEPos := bufEPos + |data|;
      TwoParts(buf, remainingSize, bufEPos);
    }

    method MoveToFront(remainingSize: nat)
      requires Shaped() && remainingSize == BufSize()
      modifies this`buf
      ensures |buf| == old(|buf|) && buf[..remainingSize] == old(Pending())
    {
      ghost var was := buf;
      var i := 0;
      while i < remainingSize
        invariant 0 <= i <= remainingSize && |buf| == |was|
        invariant forall k :: 0 <= k < i ==> buf[k] == was[bufSPos + k]
        invariant forall k :: i <= k < |buf| ==> buf[k] == was[k]
      {
        buf := buf[i := buf[bufSPos + i]];
        i := i + 1;
      }
    }

    method Copy(data: seq<char>)
      requires bufEPos + |data| <= |buf|
      modifies this`buf
      ensures |buf| == old(|buf|) && buf[..bufEPos] == old(buf[..bufEPos]) && buf[bufEPos..bufEPos + |data|] == data
    {
      ghost var was := buf;
      var i := 0;
      while i < |data|
        invariant 0 <= i <= |data| && |buf| == |was|
        invariant forall k :: 0 <= k < bufEPos ==> buf[k] == was[k]
        invariant forall k :: 0 <= k < i ==> buf[bufEPos + k] == data[k]
      {
        buf := buf[bufEPos + i := data[i]];
        i := i + 1;
      }
    }

    method BufErase(size: nat)
      requires Shaped() && size <= BufSize()
      modifies this`bufSPos
      ensures Shaped() && Pending() == old(Pending())[size..]
    {
      bufSPos := bufSPos + size;
    }

    // ---------- The body state ----------

    // One look at what is pending in the body state. All of the text so far is
    // received or pending.
    method ScanBody(receiver: ContentReceiver, ghost text: seq<char>) returns (ok: bool)
      requires receiver.Valid() && !receiver.refused && Body(text, receiver.received) && |crlfDashBoundary| <= BufSize()
      modifies this`state, this`isValid, this`bufSPos, receiver
      ensures Scanned(text, old(receiver.received), receiver.received, receiver.accepts, ok)
      ensures receiver.Valid() && receiver.refused == !ok
      ensures !ok ==> !isValid && state == BODY && Shaped() && Pending() == old(Pending())
    {
      hide NoneBefore, OccursAt, IsFirst;
      ghost var delivered := receiver.received;
      var pos := BufFind(crlfDashBoundary);
      Behind(crlfDashBoundary, delivered, Pending(), pos);
      Located(crlfDashBoundary, text, |delivered| + pos, pos < BufSize());
      if pos < BufSize() {
        ok := EndBody(pos, receiver, text);
      } else {
        ok := DeliverPending(receiver, text);
      }
    }

    // What one look leaves: a piece has been handed over or not, the receiver
    // has taken it or not, and the body goes on or has ended.
    ghost predicate Scanned(text: seq<char>, before: seq<char>, after: seq<char>,
                            accepts: Taking, ok: bool)
      reads this
    {
      && (HandsOver(crlfDashBoundary, text, |before|) ==>
            |before| <= PieceEnd(crlfDashBoundary, text) <= |text|
            && var piece := text[|before|..PieceEnd(crlfDashBoundary, text)];
            after == before + piece && ok == accepts(before, piece))
      && (!HandsOver(crlfDashBoundary, text, |before|) ==> after == before && ok)
      && (ok && state == BODY ==> Body(text, after) && NoneBefore(crlfDashBoundary, text, |text|))
      && (ok && state != BODY ==> Left(text, after))
    }

    // Delivers what comes before the boundary and drops the boundary.
    method EndBody(pos: nat, receiver: ContentReceiver, ghost text: seq<char>) returns (ok: bool)
      requires receiver.Valid() && !receiver.refused && Shaped() && state == BODY
      requires pos <= BufSize() && receiver.received + Pending() == text
      requires OccursAt(crlfDashBoundary, Pending(), pos) && IsFirst(crlfDashBoundary, text, |receiver.received| + pos)
      requires HandsOver(crlfDashBoundary, text, |receiver.received|)
      requires PieceEnd(crlfDashBoundary, text) == |receiver.received| + pos
      modifies this`state, this`isValid, this`bufSPos, receiver
      ensures Scanned(text, old(receiver.received), receiver.received, receiver.accepts, ok)
      ensures receiver.Valid() && receiver.refused == !ok
      ensures !ok ==> !isValid && state == BODY && Shaped() && Pending() == old(Pending())
    {
      hide NoneBefore, OccursAt, IsFirst;
      ghost var delivered := receiver.received;
      Occurrence(crlfDashBoundary, Pending(), pos);
      Delivered(delivered, buf, bufSPos, bufEPos, pos, |crlfDashBoundary|);
      var piece := buf[bufSPos..bufSPos + pos];
      assert piece == text[|delivered|..|delivered| + pos];
      ok := receiver.Receive(piece);
      if !ok {
        isValid := false;
        return;
      }
      BufErase(pos + |crlfDashBoundary|);
      state := BOUNDARY;
    }

    // Delivers what cannot belong to a boundary that more input completes.
    method DeliverPending(receiver: ContentReceiver, ghost text: seq<char>) returns (ok: bool)
      requires receiver.Valid() && !receiver.refused && Body(text, receiver.received) && |crlfDashBoundary| <= BufSize()
      requires NoneBefore(crlfDashBoundary, text, |text|)
      modifies this`isValid, this`bufSPos, receiver
      ensures Scanned(text, old(receiver.received), receiver.received, receiver.accepts, ok)
      ensures receiver.Valid() && receiver.refused == !ok
      ensures !ok ==> !isValid && Shaped() && Pending() == old(Pending())
    {
      hide NoneBefore;
      ghost var delivered := receiver.received;
      var len := BufSize() - |crlfDashBoundary|;
      NoneBeforeLess(crlfDashBoundary, text, |delivered| + len, |text|);
      DeliveredSome(delivered, buf, bufSPos, bufEPos, len);
      ok := true;
      if len > 0 {
        var piece := buf[bufSPos..bufSPos + len];
        assert piece == text[|delivered|..|delivered| + len];
        ok := receiver.Receive(piece);
        if !ok {
          isValid := false;
          return;
        }
        BufErase(len);
      }
    }

    // The body has ended: what was delivered is what comes before the first
    // boundary, and what follows it is pending.
    ghost predicate Left(text: seq<char>, delivered: seq<char>)
      reads this
    {
      && state == BOUNDARY && Shaped() && IsFirst(crlfDashBoundary, text, |delivered|)
      && delivered + crlfDashBoundary + Pending() == text
    }

    // Appends data and runs the body state until it needs more input, finds the
    // boundary or the receiver refuses. A refused piece stays pending.
    method Parse(data: seq<char>, receiver: ContentReceiver, ghost input: seq<char>) returns (ok: bool)
      requires receiver.Valid() && !receiver.refused && Body(input, receiver.received)
      modifies this, receiver
      ensures Scanned(input + data, old(receiver.received), receiver.received, receiver.accepts, ok)
      ensures receiver.Valid() && receiver.refused == !ok
      ensures !ok ==> !isValid && state == BODY && Shaped() && Pending() == old(Pending()) + data
    {
      hide NoneBefore, OccursAt;
      ghost var text, delivered := input + data, receiver.received;
      Extended(crlfDashBoundary, input, data, |delivered|, |Pending()|);
      BufAppend(data);
      assert delivered + Pending() == text;
      if BufSize() == 0 || |crlfDashBoundary| > BufSize() {
        NoneInside(crlfDashBoundary, text, |delivered|);
        return true;
      }
      ok := ScanBody(receiver, text);
    }
  }

  // The first occurrence in the whole text, as far as it has been searched.
  lemma Located(s: seq<char>, text: seq<char>, n: nat, found: bool)
    requires n <= |text| && NoneBefore(s, text, n) && 0 < |s|
    requires if found then OccursAt(s, text, n) else n == |text|
    ensures found ==> IsFirst(s, text, n) && !NoneBefore(s, text, |text|) && PieceEnd(s, text) == n && n + |s| <= |text|
    ensures !found ==> NoneBefore(s, text, |text|)
  {
    if found {
      assert IsFirst(s, text, n);
      FirstIsUnique(s, text, n, PieceEnd(s, text));
    }
  }

  // What a refusing receiver has been given comes before any boundary.
  ghost predicate Refused(s: seq<char>, text: seq<char>, given: seq<char>)
  {
    given <= text && |given| + |s| <= |text| && NoneBefore(s, text, |given|)
  }

  lemma PieceBeforeBoundary(s: seq<char>, text: seq<char>, before: seq<char>, after: seq<char>)
    requires before <= text
    ensures HandsOver(s, text, |before|) && |before| <= PieceEnd(s, text) <= |text|
      && after == before + text[|before|..PieceEnd(s, text)]
      ==> Refused(s, text, after)
  {
    if HandsOver(s, text, |before|) && |before| <= PieceEnd(s, text) <= |text| {
      assert before + text[|before|..PieceEnd(s, text)] == text[..PieceEnd(s, text)];
    }
  }

  lemma RefusedInLonger(s: seq<char>, prefix: seq<char>, text: seq<char>, given: seq<char>)
    requires prefix <= text && Refused(s, prefix, given)
    ensures Refused(s, text, given) && given <= text && NoneBefore(s, text, |given|)
  {
    forall j: nat | j < |given|
      ensures !OccursAt(s, text, j)
    {
      assert text[j..j + |s|] == prefix[j..j + |s|];
      assert !OccursAt(s, prefix, j);
    }
  }

  // ---------- Every split of the input ----------

  // However the input is cut into chunks, the body is what comes before the first
  // boundary, or, while there is none, all of the input but the bytes pending. A
  // receiver that takes everything is never refused; after a refusal it has been
  // given a part of the body.
  method FeedBody(parser: MultipartFormDataParser, chunks: seq<seq<char>>, receiver: ContentReceiver)
    returns (ok: bool)
    requires parser.Body([], []) && receiver.Valid() && receiver.received == [] && !receiver.refused
    modifies parser, receiver
    ensures parser.Shaped()
    ensures receiver.Valid() && ok == !receiver.refused && (TakesAll(receiver.accepts) ==> ok)
    ensures ok && parser.state == BODY ==>
      receiver.received + parser.Pending() == Flat(chunks)
      && NoneBefore(parser.crlfDashBoundary, Flat(chunks), |Flat(chunks)|)
    ensures ok && parser.state != BODY ==>
      IsFirst(parser.crlfDashBoundary, Flat(chunks), |receiver.received|) && receiver.received <= Flat(chunks)
    ensures !ok ==> receiver.received <= Flat(chunks) && NoneBefore(parser.crlfDashBoundary, Flat(chunks), |receiver.received|)
  {
    hide NoneBefore, OccursAt, IsFirst, Flat, HandsOver, Refused;
    NothingFed(parser.crlfDashBoundary, chunks);
    var i := 0;
    ok := true;
    while i < |chunks| && parser.state == BODY && ok
      invariant 0 <= i <= |chunks| && parser.Shaped()
      invariant receiver.Valid() && ok == !receiver.refused && (TakesAll(receiver.accepts) ==> ok)
      invariant ok && parser.state == BODY ==>
        parser.Body(Flat(chunks[..i]), receiver.received)
        && NoneBefore(parser.crlfDashBoundary, Flat(chunks[..i]), |Flat(chunks[..i])|)
      invariant ok && parser.state != BODY ==> parser.Left(Flat(chunks[..i]), receiver.received)
      invariant !ok ==> Refused(parser.crlfDashBoundary, Flat(chunks[..i]), receiver.received)
      decreases |chunks| - i
    {
      FlatStep(chunks, i);
      ghost var before := receiver.received;
      ok := parser.Parse(chunks[i], receiver, Flat(chunks[..i]));
      i := i + 1;
      PieceBeforeBoundary(parser.crlfDashBoundary, Flat(chunks[..i]), before, receiver.received);
    }
    FlatPrefix(chunks, i);
    if !ok {
      RefusedInLonger(parser.crlfDashBoundary, Flat(chunks[..i]), Flat(chunks), receiver.received);
    } else if parser.state == BODY {
      assert chunks[..i] == chunks;
    } else {
      FirstInPrefix(parser.crlfDashBoundary, Flat(chunks[..i]), Flat(chunks), |receiver.received|);
    }
  }

  lemma NothingFed(s: seq<char>, chunks: seq<seq<char>>)
    ensures Flat(chunks[..0]) == [] && NoneBefore(s, [], 0)
  {
  }
}
