// external/cpp-httplib/httplib.h: writing and reading chunked content over
// streams that take and give any number of bytes at a time.
module Chunked {
  import opened Receivers
  import opened Substrings
  import opened ChunkedCoding

  const RECV_BUFSIZ := 16384

  function Min(a: nat, b: nat): nat { if a <= b then a else b }

  // ---------- Streams ----------

  // How many bytes each call gives is decided by 'arrival'.
  class InputStream {
    const data: seq<char>
    const arrival: nat -> nat
    var pos: nat
    var calls: nat

    constructor (bytes: seq<char>, arrives: nat -> nat)
      ensures Valid() && Rest() == bytes
    {
      data, arrival := bytes, arrives;
      pos, calls := 0, 0;
    }

    ghost predicate Valid()
      reads this
    {
      pos <= |data|
    }

    ghost function Rest(): seq<char>
      reads this
      requires Valid()
    {
      data[pos..]
    }

    // At least one byte, unless there is none.
    method Read(size: nat) returns (bytes: seq<char>)
      requires Valid() && 0 < size
      modifies this
      ensures Valid() && |bytes| <= size && (|bytes| == 0 <==> old(Rest()) == [])
      ensures old(Rest()) == bytes + Rest()
    {
      var n := Min(Min(size, 1 + arrival(calls)), |data| - pos);
      bytes := data[pos..pos + n];
      pos := pos + n;
      calls := calls + 1;
    }
  }

  // Takes some of the bytes it is offered.
  class OutputStream {
    const arrival: nat -> nat
    var written: seq<char>
    var calls: nat

    constructor (arrives: nat -> nat)
      ensures written == []
    {
      arrival := arrives;
      written, calls := [], 0;
    }

    method Write(bytes: seq<char>) returns (length: nat)
      requires |bytes| > 0
      modifies this
      ensures 0 < length <= |bytes| && written == old(written) + bytes[..length]
    {
      length := Min(|bytes|, 1 + arrival(calls));
      written := written + bytes[..length];
      calls := calls + 1;
    }
  }

  method WriteData(strm: OutputStream, d: seq<char>)
    modifies strm
    ensures strm.written == old(strm.written) + d
  {
    var offset := 0;
    assert d[..0] == [];
    while offset < |d|
      invariant 0 <= offset <= |d| && strm.written == old(strm.written) + d[..offset]
    {
      var length := strm.Write(d[offset..]);
      assert d[..offset] + d[offset..][..length] == d[..offset + length];
      offset := offset + length;
    }
    assert d[..|d|] == d;
  }

  // ---------- Reading lines ----------

  // The line is in the fixed buffer until it no longer fits.
  class StreamLineReader {
    const strm: InputStream
    const fixedBuffer: array<char>
    var fixedBufferUsedSize: nat
    var glowableBuffer: seq<char>

    constructor (stream: InputStream, buffer: array<char>)
      requires 2 <= buffer.Length
      ensures Valid() && strm == stream && fixedBuffer == buffer
    {
      strm, fixedBuffer := stream, buffer;
      fixedBufferUsedSize, glowableBuffer := 0, [];
    }

    ghost predicate Valid()
      reads this
    {
      fixedBufferUsedSize < fixedBuffer.Length && 2 <= fixedBuffer.Length
      && (|glowableBuffer| > 0 ==> fixedBufferUsedSize == fixedBuffer.Length - 1)
    }

    // The bytes at ptr().
    function Line(): seq<char>
      reads this, fixedBuffer
      requires Valid()
    {
      if |glowableBuffer| == 0 then fixedBuffer[..fixedBufferUsedSize] else glowableBuffer
    }

    method Append(c: char)
      requires Valid()
      modifies this, fixedBuffer
      ensures Valid() && Line() == old(Line()) + [c]
    {
      if fixedBufferUsedSize < fixedBuffer.Length - 1 {
        fixedBuffer[fixedBufferUsedSize] := c;
        fixedBufferUsedSize := fixedBufferUsedSize + 1;
        fixedBuffer[fixedBufferUsedSize] := '\0';
      } else {
        if |glowableBuffer| == 0 {
          glowableBuffer := fixedBuffer[..fixedBufferUsedSize];
        }
        glowableBuffer := glowableBuffer + [c];
      }
    }

    // Reads byte by byte to the end of the line or of the stream.
    method GetLine() returns (ok: bool)
      requires Valid() && strm.Valid()
      modifies this, fixedBuffer, strm
      ensures Valid() && strm.Valid()
      ensures ok <==> old(strm.Rest()) != []
      ensures ok ==> Line() == old(strm.Rest())[..LineLength(old(strm.Rest()))]
      ensures strm.Rest() == old(strm.Rest())[LineLength(old(strm.Rest()))..]
    {
      hide LineLength;
      ghost var s := strm.Rest();
      fixedBufferUsedSize := 0;
      glowableBuffer := [];
      var prevByte := '\0';
      var i := 0;
      assert s[..0] == [];
      while true
        invariant Valid() && strm.Valid() && i <= |s| && Line() == s[..i] && strm.Rest() == s[i..] && NoBreak(s, i)
        invariant i > 0 ==> prevByte == s[i - 1]
        invariant i == 0 ==> prevByte == '\0'
        decreases |s| - i
      {
        var bytes := strm.Read(1);
        if |bytes| == 0 {
          assert i == |s|;
          LineIsAll(s);
          assert s[..i] == s;
          return i > 0;
        }
        var byte := bytes[0];
        assert s[i..] == bytes + strm.Rest();
        assert s[i] == byte && strm.Rest() == s[i + 1..];
        Append(byte);
        i := i + 1;
        assert s[..i] == s[..i - 1] + [byte];
        if prevByte == '\r' && byte == '\n' {
          LineEndsAt(s, i);
          return true;
        }
        prevByte := byte;
      }
    }
  }

  // ---------- Reading content ----------

  // The receiver has been given what was read from the stream.
  ghost predicate Given(s: seq<char>, rest: seq<char>, before: seq<char>, received: seq<char>, n: nat)
  {
    n <= |s| && rest == s[n..] && received == before + s[..n]
  }

  lemma GivenMore(s: seq<char>, rest: seq<char>, before: seq<char>, received: seq<char>, n: nat, piece: seq<char>, behind: seq<char>)
    requires Given(s, rest, before, received, n) && rest == piece + behind
    ensures Given(s, behind, before, received + piece, n + |piece|)
  {
    assert s == s[..n] + (piece + behind);
    assert s[..n + |piece|] == s[..n] + piece;
  }

  // Delivers the next len bytes, or fewer when the stream ends or the receiver
  // refuses.
  method ReadContentWithLength(strm: InputStream, len: nat, receiver: ContentReceiver) returns (ok: bool, ghost n: nat)
    requires strm.Valid() && receiver.Valid() && !receiver.refused
    modifies strm, receiver
    ensures receiver.Valid() && strm.Valid()
    ensures Given(old(strm.Rest()), strm.Rest(), old(receiver.received), receiver.received, n)
    ensures n <= len && (!receiver.refused ==> n == Min(len, |old(strm.Rest())|))
    ensures ok <==> !receiver.refused && len <= |old(strm.Rest())|
    ensures TakesAll(receiver.accepts) ==> !receiver.refused
  {
    hide Given;
    ghost var s, before := strm.Rest(), receiver.received;
    var r := 0;
    NothingGiven(s, before);
    while r < len
      invariant strm.Valid() && 0 <= r <= len && r <= |s| && receiver.Valid() && !receiver.refused
      invariant Given(s, strm.Rest(), before, receiver.received, r) && |strm.Rest()| == |s| - r
    {
      var readLen := len - r;
      ghost var rest, received := strm.Rest(), receiver.received;
      var bytes := strm.Read(Min(readLen, RECV_BUFSIZ));
      if |bytes| == 0 {
        GivenMore(s, rest, before, received, r, [], strm.Rest());
        assert received + [] == received;
        return false, r;
      }
      GivenMore(s, rest, before, received, r, bytes, strm.Rest());
      var taken := receiver.Receive(bytes);
      r := r + |bytes|;
      if !taken {
        return false, r;
      }
    }
    ok, n := true, r;
  }

  lemma NothingGiven(s: seq<char>, before: seq<char>)
    ensures Given(s, s, before, before, 0)
  {
    assert before + s[..0] == before;
  }

  // What remains to be decoded when some chunks have been delivered.
  ghost predicate Continues(start: seq<char>, delivered: seq<char>, s: seq<char>)
  {
    var next := Decode(s);
    Decode(start) == Decoded(next.ok, delivered + next.delivered, next.rest)
  }

  lemma ContinuesStart(s: seq<char>)
    ensures Continues(s, [], s)
  {
    hide Decode;
    assert [] + Decode(s).delivered == Decode(s).delivered;
  }

  lemma NothingMore(start: seq<char>, delivered: seq<char>)
    requires Continues(start, delivered, [])
    ensures Decode(start) == Decoded(false, delivered, [])
  {
    assert delivered + [] == delivered;
  }

  // The line with the length of the next chunk.
  lemma AtSize(start: seq<char>, delivered: seq<char>, s: seq<char>, size: Parsed, body: seq<char>)
    requires Continues(start, delivered, s) && s != []
    requires size == Strtoul16(s[..LineLength(s)]) && body == s[LineLength(s)..]
    ensures size.NoNumber? || size.value == ULONG_MAX ==> Decode(start) == Decoded(false, delivered, body)
    ensures size == Value(0) && body == [] ==> Decode(start) == Decoded(true, delivered, [])
    ensures size == Value(0) && body != [] ==> Decode(start) == Decoded(Trailer(body).ok, delivered, Trailer(body).rest)
  {
    hide LineLength, Strtoul16, Trailer;
    assert delivered + [] == delivered;
  }

  // The payload and the line end behind it.
  lemma AtPayload(start: seq<char>, delivered: seq<char>, s: seq<char>, size: nat, body: seq<char>, line: nat, behind: seq<char>)
    requires Continues(start, delivered, s) && s != [] && 0 < size && size != ULONG_MAX
    requires Strtoul16(s[..LineLength(s)]) == Value(size) && body == s[LineLength(s)..]
    ensures |body| < size ==> Decode(start) == Decoded(false, delivered + body, [])
    ensures size <= |body| && line == LineLength(body[size..]) && behind == body[size..][line..] ==>
      if body[size..] == [] || body[size..][..line] != CRLF
      then Decode(start) == Decoded(false, delivered + body[..size], behind)
      else Continues(start, delivered + body[..size], behind)
  {
    hide LineLength, Strtoul16, Trailer;
    if size <= |body| && line == LineLength(body[size..]) {
      var next := Decode(body[size..][line..]);
      assert delivered + (body[..size] + next.delivered) == delivered + body[..size] + next.delivered;
    }
  }

  // A refused piece is still one of those that decoding delivers.
  lemma AtRefusal(start: seq<char>, delivered: seq<char>, s: seq<char>, size: nat, body: seq<char>, n: nat)
    requires Continues(start, delivered, s) && s != [] && 0 < size && size != ULONG_MAX
    requires Strtoul16(s[..LineLength(s)]) == Value(size) && body == s[LineLength(s)..]
    requires n <= size && n <= |body|
    ensures delivered + body[..n] <= Decode(start).delivered
  {
    hide LineLength, Strtoul16, Decode, Trailer, Continues;
    if |body| < size {
      AtPayload(start, delivered, s, size, body, 0, []);
    } else {
      var line := LineLength(body[size..]);
      var behind := body[size..][line..];
      AtPayload(start, delivered, s, size, body, line, behind);
      if body[size..] != [] && body[size..][..line] == CRLF {
        ContinuesPrefix(start, delivered + body[..size], behind);
      }
      assert body[..n] <= body[..size];
    }
  }

  lemma ContinuesPrefix(start: seq<char>, delivered: seq<char>, s: seq<char>)
    requires Continues(start, delivered, s)
    ensures delivered <= Decode(start).delivered
  {
    hide Decode;
  }

  // What the reader has done with the bytes of start, when it stops: what it makes
  // of them is what decoding does, unless the receiver stopped it.
  ghost predicate Stopped(start: seq<char>, ok: bool, received: seq<char>, refused: bool, rest: seq<char>)
  {
    && (!refused ==> Decode(start) == Decoded(ok, received, rest))
    && (refused ==> !ok && received <= Decode(start).delivered)
  }

  // A chunk's payload and the line end behind it.
  method ReadChunk(strm: InputStream, lineReader: StreamLineReader, chunkLen: nat, receiver: ContentReceiver,
                   ghost start: seq<char>, ghost s: seq<char>)
    returns (ok: bool)
    requires lineReader.Valid() && strm.Valid() && lineReader.strm == strm && receiver.Valid() && !receiver.refused
    requires Continues(start, receiver.received, s) && s != [] && 0 < chunkLen && chunkLen != ULONG_MAX
    requires Strtoul16(s[..LineLength(s)]) == Value(chunkLen) && strm.Rest() == s[LineLength(s)..]
    modifies strm, lineReader, lineReader.fixedBuffer, receiver
    ensures receiver.Valid() && lineReader.Valid() && strm.Valid()
    ensures !ok ==> Stopped(start, ok, receiver.received, receiver.refused, strm.Rest())
    ensures ok ==> !receiver.refused && Continues(start, receiver.received, strm.Rest()) && |strm.Rest()| < |s|
    ensures TakesAll(receiver.accepts) ==> !receiver.refused
  {
    hide LineLength, Strtoul16, Decode, Trailer, Continues, TakesAll;
    ghost var body, delivered := strm.Rest(), receiver.received;
    ghost var n;
    ok, n := ReadContentWithLength(strm, chunkLen, receiver);
    AtRefusal(start, delivered, s, chunkLen, body, n);
    ghost var line := if chunkLen <= |body| then LineLength(body[chunkLen..]) else 0;
    AtPayload(start, delivered, s, chunkLen, body, line, if chunkLen <= |body| then body[chunkLen..][line..] else []);
    if !ok {
      assert body[..|body|] == body;
      return;
    }
    ok := lineReader.GetLine();
    if !ok {
      return;
    }
    ok := lineReader.Line() == CRLF;
  }

  // Lines up to an empty one.
  method ReadTrailer(strm: InputStream, lineReader: StreamLineReader) returns (ok: bool)
    requires lineReader.Valid() && strm.Valid() && lineReader.strm == strm
    modifies strm, lineReader, lineReader.fixedBuffer
    ensures strm.Valid()
    ensures old(strm.Rest()) == [] ==> ok && strm.Rest() == []
    ensures old(strm.Rest()) != [] ==> Trailer(old(strm.Rest())) == Decoded(ok, [], strm.Rest())
  {
    hide LineLength, Trailer;
    ghost var body := strm.Rest();
    ghost var s := body;
    var more := lineReader.GetLine();
    if !more {
      return true;
    }
    while lineReader.Line() != CRLF
      invariant lineReader.Valid() && strm.Valid()
      invariant s != [] && lineReader.Line() == s[..LineLength(s)] && strm.Rest() == s[LineLength(s)..]
      invariant Trailer(body) == Trailer(s)
      decreases |s|
    {
      TrailerStep(s);
      if |lineReader.Line()| > HEADER_MAX_LENGTH {
        return false;
      }
      s := strm.Rest();
      more := lineReader.GetLine();
      if !more {
        TrailerStep(s);
        return false;
      }
    }
    TrailerStep(s);
    ok := true;
  }

  lemma TrailerStep(s: seq<char>)
    ensures s == [] ==> Trailer(s) == Decoded(false, [], [])
    ensures s != [] && s[..LineLength(s)] == CRLF ==> Trailer(s) == Decoded(true, [], s[LineLength(s)..])
    ensures s != [] && s[..LineLength(s)] != CRLF && LineLength(s) > HEADER_MAX_LENGTH ==>
      Trailer(s) == Decoded(false, [], s[LineLength(s)..])
    ensures s != [] && s[..LineLength(s)] != CRLF && LineLength(s) <= HEADER_MAX_LENGTH ==>
      Trailer(s) == Trailer(s[LineLength(s)..])
  {
    hide LineLength;
  }

  // Reads chunks until one of length zero, then lines until an empty one. What a
  // trailer says is not kept.
  method ReadContentChunked(strm: InputStream, receiver: ContentReceiver) returns (ok: bool)
    requires strm.Valid() && receiver.Valid() && receiver.received == [] && !receiver.refused
    modifies strm, receiver
    ensures receiver.Valid() && strm.Valid()
    ensures Stopped(old(strm.Rest()), ok, receiver.received, receiver.refused, strm.Rest())
    ensures TakesAll(receiver.accepts) ==> !receiver.refused
  {
    hide LineLength, Strtoul16, Decode, Trailer, Continues, TakesAll;
    ghost var start := strm.Rest();
    var buf := new char[16];
    var lineReader := new StreamLineReader(strm, buf);
    ContinuesStart(start);
    ghost var s := start;
    ok := lineReader.GetLine();
    if !ok {
      NothingMore(start, []);
      return;
    }
    while true
      invariant lineReader.Valid() && strm.Valid() && fresh(lineReader) && fresh(lineReader.fixedBuffer)
      invariant lineReader.strm == strm && receiver.Valid() && !receiver.refused
      invariant s != [] && lineReader.Line() == s[..LineLength(s)] && strm.Rest() == s[LineLength(s)..]
      invariant Continues(start, receiver.received, s)
      decreases |s|
    {
      var chunkLen := Strtoul16(lineReader.Line());
      AtSize(start, receiver.received, s, chunkLen, strm.Rest());
      if chunkLen.NoNumber? || chunkLen.value == ULONG_MAX {
        return false;
      }
      if chunkLen.value == 0 {
        break;
      }
      ok := ReadChunk(strm, lineReader, chunkLen.value, receiver, start, s);
      if !ok {
        return;
      }
      s := strm.Rest();
      ok := lineReader.GetLine();
      if !ok {
        NothingMore(start, receiver.received);
        return;
      }
    }
    ok := ReadTrailer(strm, lineReader);
  }

  // ---------- Writing ----------

  // What the content provider writes to, without a compressor.
  class DataSink {
    const strm: OutputStream
    var offset: nat
    var dataAvailable: bool

    constructor (stream: OutputStream)
      ensures strm == stream && offset == 0 && dataAvailable
    {
      strm := stream;
      offset, dataAvailable := 0, true;
    }

    // A chunk for every write that is not empty; an empty one ends the content.
    method Write(d: seq<char>)
      modifies this, strm
      ensures offset == old(offset) + |d| && dataAvailable == (|d| > 0)
      ensures strm.written == old(strm.written) + if |d| > 0 then Chunk(d) else []
    {
      hide Hex;
      dataAvailable := |d| > 0;
      offset := offset + |d|;
      if |d| > 0 {
        var size := FromIToHex(|d|);
        WriteData(strm, size + CRLF + d + CRLF);
      }
    }

    method Done()
      modifies this, strm
      ensures offset == old(offset) && !dataAvailable && strm.written == old(strm.written) + LAST_CHUNK + CRLF
    {
      dataAvailable := false;
      WriteData(strm, LAST_CHUNK);
      WriteData(strm, CRLF);
    }
  }

  // How many payloads are written before the first empty one.
  ghost function NonEmpty(payloads: seq<seq<char>>): (n: nat)
    ensures n <= |payloads| && (forall i :: 0 <= i < n ==> 0 < |payloads[i]|)
    ensures n < |payloads| ==> |payloads[n]| == 0
  {
    if |payloads| == 0 || |payloads[0]| == 0 then 0 else 1 + NonEmpty(payloads[1..])
  }

  // The provider writes one payload at a time and is done after the last.
  method WriteContentChunked(strm: OutputStream, payloads: seq<seq<char>>)
    modifies strm
    ensures strm.written == old(strm.written) + Chunks(payloads[..NonEmpty(payloads)])
      + if NonEmpty(payloads) == |payloads| then LAST_CHUNK + CRLF else []
  {
    hide Chunks, Chunk, NonEmpty;
    var dataSink := new DataSink(strm);
    var i := 0;
    NoChunks(payloads);
    while dataSink.dataAvailable
      invariant 0 <= i <= |payloads| && dataSink.strm == strm && fresh(dataSink)
      invariant dataSink.dataAvailable ==> i <= NonEmpty(payloads) && strm.written == old(strm.written) + Chunks(payloads[..i])
      invariant !dataSink.dataAvailable ==>
        strm.written == old(strm.written) + Chunks(payloads[..NonEmpty(payloads)])
          + if NonEmpty(payloads) == |payloads| then LAST_CHUNK + CRLF else []
      decreases if dataSink.dataAvailable then 1 else 0, |payloads| - i
    {
      if i < |payloads| {
        NonEmptyHas(payloads, i);
        dataSink.Write(payloads[i]);
        if |payloads[i]| > 0 {
          ChunksAppend(payloads[..i], payloads[i]);
          assert payloads[..i + 1] == payloads[..i] + [payloads[i]];
        }
        i := i + 1;
      } else {
        dataSink.Done();
      }
    }
  }

  lemma NoChunks(payloads: seq<seq<char>>)
    ensures Chunks(payloads[..0]) == []
  {
  }

  lemma NonEmptyHas(payloads: seq<seq<char>>, i: nat)
    requires i < |payloads| && i <= NonEmpty(payloads)
    ensures |payloads[i]| > 0 <==> i < NonEmpty(payloads)
  {
  }

  // ---------- Round trip ----------

  // Whatever the streams do, reading what was written delivers the payloads up to
  // the first empty one, and succeeds exactly when none is empty. Bytes behind
  // the content stay in the stream. A receiver that refuses has been given a
  // prefix of the payloads.
  method WriteAndRead(payloads: seq<seq<char>>, behind: seq<char>, writing: nat -> nat, reading: nat -> nat,
                      taking: Taking)
    returns (ok: bool, delivered: seq<char>, refused: bool, ghost pieces: seq<seq<char>>, ghost left: seq<char>)
    requires forall i :: 0 <= i < |payloads| ==> |payloads[i]| < ULONG_MAX
    requires NonEmpty(payloads) < |payloads| ==> behind == []
    ensures ok <==> !refused && forall i :: 0 <= i < |payloads| ==> |payloads[i]| > 0
    ensures !refused ==> delivered == Flat(payloads[..NonEmpty(payloads)]) && left == behind
    ensures refused ==> delivered <= Flat(payloads[..NonEmpty(payloads)])
    ensures ok ==> delivered == Flat(payloads)
    ensures delivered == Flat(pieces) && if refused then Refuses(taking, pieces) else AllTaken(taking, pieces)
    ensures TakesAll(taking) ==> !refused
  {
    hide Chunks, Decode, Flat, NonEmpty, TakesAll, Refuses, AllTaken;
    var output := new OutputStream(writing);
    WriteContentChunked(output, payloads);
    ghost var sent := payloads[..NonEmpty(payloads)];
    var input := new InputStream(output.written + behind, reading);
    ghost var bytes := input.Rest();
    var receiver := new ContentReceiver(taking);
    ok := ReadContentChunked(input, receiver);
    delivered, refused, pieces, left := receiver.received, receiver.refused, receiver.pieces, input.Rest();
    if NonEmpty(payloads) == |payloads| {
      assert sent == payloads;
      DecodeChunks(payloads, behind);
      assert bytes == Chunks(payloads) + LAST_CHUNK + CRLF + behind;
    } else {
      DecodeUnfinished(sent);
      assert bytes == Chunks(sent);
    }
  }
}
