/**
 Relaying an upstream response body to the client and to the exchange record.

 The client side is an independent reader of the wire: the chunked transfer coding of
 section 7.1 of RFC 9112, or a body of declared length.
 */
module ChunkedRelay {
  import opened Wrappers
  import opened Numerals

  // ---------------------------------------------------------------------------
  // The receiving side.

  /** Number of leading bytes that are hexadecimal digits. */
  function DigitRun(s: Bytes): (n: nat)
    ensures n <= |s| && AllDigits(s[..n], 16)
    ensures n < |s| ==> !IsDigit(s[n], 16)
  {
    if s == [] || !IsDigit(s[0], 16) then 0
    else
      var n := 1 + DigitRun(s[1..]);
      assert s[..n] == [s[0]] + s[1..][..n - 1];
      n
  }

  /** The first line end `CR LF` at or after the front, if any. */
  function LineEnd(s: Bytes): (r: Option<nat>)
    ensures r.Some? ==> r.value + 2 <= |s| && s[r.value..r.value + 2] == CRLF
  {
    if |s| < 2 then None
    else if s[0] == CR && s[1] == LF then Some(0)
    else
      var r := LineEnd(s[1..]);
      if r.None? then None else
      assert s[r.value + 1..r.value + 3] == s[1..][r.value..r.value + 2];
      Some(r.value + 1)
  }

  datatype Body = Body(data: Bytes, rest: Bytes)

  /** Skips the trailer section: header lines up to and including the empty line. */
  function SkipTrailers(s: Bytes): (r: Option<Bytes>)
    decreases |s|
  {
    var end := LineEnd(s);
    if end.None? then None
    else if end.value == 0 then Some(s[2..])
    else SkipTrailers(s[end.value + 2..])
  }

  /** Chunk size, optional extensions to the line end, data, line end; size zero ends the body. */
  function DecodeChunked(s: Bytes): Option<Body>
    decreases |s|
  {
    var digits, line := DigitRun(s), LineEnd(s);
    if digits == 0 || line.None? || line.value < digits then None
    else if line.value > digits && s[digits] !in {9, 32, 59} then None
    else
      var size := ReadOn(s[..digits], 0, 16);
      var after := s[line.value + 2..];
      if size == 0 then
        var rest := SkipTrailers(after);
        if rest.None? then None else Some(Body([], rest.value))
      else if |after| < size + 2 || after[size..size + 2] != CRLF then None
      else
        var more := DecodeChunked(after[size + 2..]);
        if more.None? then None else Some(Body(after[..size] + more.value.data, more.value.rest))
  }

  datatype Framing = NoBody | Length(n: nat) | Chunked

  /** What a client takes from the wire after the header section. */
  function ClientBody(framing: Framing, wire: Bytes): Option<Body> {
    match framing
    case NoBody => Some(Body([], wire))
    case Length(n) => if |wire| < n then None else Some(Body(wire[..n], wire[n..]))
    case Chunked => DecodeChunked(wire)
  }

  // ---------------------------------------------------------------------------
  // The sending side, as a value.

  function ChunkBytes(chunk: Bytes): Bytes {
    Print(|chunk|, 16) + CRLF + chunk + CRLF
  }

  const LAST_CHUNK: Bytes := [48] + CRLF + CRLF

  function ChunkedBytes(chunks: seq<Bytes>): Bytes {
    if chunks == [] then LAST_CHUNK else ChunkBytes(chunks[0]) + ChunkedBytes(chunks[1..])
  }

  /** The reads up to the first empty one; an empty read is the end of the upstream body. */
  function UntilEmpty(received: seq<Bytes>): (chunks: seq<Bytes>)
    ensures forall i :: 0 <= i < |chunks| ==> chunks[i] != []
    ensures |chunks| <= |received| && chunks == received[..|chunks|]
    ensures |chunks| < |received| ==> received[|chunks|] == []
  {
    if received == [] || received[0] == [] then [] else [received[0]] + UntilEmpty(received[1..])
  }

  // ---------------------------------------------------------------------------
  // Round trip.

  lemma {:induction false} DigitRunOf(digits: Bytes, rest: Bytes)
    requires AllDigits(digits, 16) && (rest == [] || !IsDigit(rest[0], 16))
    ensures DigitRun(digits + rest) == |digits|
  {
    if digits == [] {
      assert digits + rest == rest;
    } else {
      assert (digits + rest)[1..] == digits[1..] + rest;
      DigitRunOf(digits[1..], rest);
    }
  }

  lemma {:induction false} LineEndOf(line: Bytes, rest: Bytes)
    requires CR !in line
    ensures LineEnd(line + CRLF + rest) == Some(|line|)
  {
    var s := line + CRLF + rest;
    if line == [] {
      assert s[0] == CR && s[1] == LF;
    } else {
      assert s[0] == line[0] && s[1..] == line[1..] + CRLF + rest;
      LineEndOf(line[1..], rest);
    }
  }

  lemma {:induction false} DigitsHaveNoCR(digits: Bytes)
    requires AllDigits(digits, 16)
    ensures CR !in digits
  {
    assert !IsDigit(CR, 16);
  }

  lemma {:induction false} Parts(a: Bytes, b: Bytes)
    ensures (a + b)[..|a|] == a && (a + b)[|a|..] == b
  {
  }

  lemma {:induction false} Middle(a: Bytes, b: Bytes, c: Bytes)
    ensures (a + (b + c))[|a|..|a| + |b|] == b && (a + (b + c))[|a| + |b|..] == c
  {
  }

  /** One turn of the decoder, on a wire whose parts are known. */
  lemma {:induction false} DecodeUnfolds(s: Bytes, digits: nat, size: nat, after: Bytes, tail: Bytes)
    requires DigitRun(s) == digits > 0 && LineEnd(s) == Some(digits) && ReadOn(s[..digits], 0, 16) == size > 0
    requires s[digits + 2..] == after && |after| >= size + 2 && after[size..size + 2] == CRLF && after[size + 2..] == tail
    ensures var more := DecodeChunked(tail);
            DecodeChunked(s) == if more.None? then None else Some(Body(after[..size] + more.value.data, more.value.rest))
  {
    hide DigitRun, LineEnd, ReadOn, SkipTrailers;
  }

  /** Reading one chunk whose size line is the given digits. */
  lemma {:induction false} ChunkStep(digits: Bytes, chunk: Bytes, tail: Bytes)
    requires digits != [] && AllDigits(digits, 16) && ReadOn(digits, 0, 16) == |chunk| > 0
    ensures var more := DecodeChunked(tail);
            DecodeChunked(digits + (CRLF + (chunk + (CRLF + tail)))) ==
            if more.None? then None else Some(Body(chunk + more.value.data, more.value.rest))
  {
    hide DigitRun, LineEnd, ReadOn, DecodeChunked;
    var after := chunk + (CRLF + tail);
    var s := digits + (CRLF + after);
    DigitRunOf(digits, CRLF + after);
    DigitsHaveNoCR(digits);
    LineEndOf(digits, after);
    assert digits + CRLF + after == s;
    Parts(digits, CRLF + after);
    Parts(digits + CRLF, after);
    Parts(chunk, CRLF + tail);
    Middle(chunk, CRLF, tail);
    DecodeUnfolds(s, |digits|, |chunk|, after, tail);
  }

  lemma {:induction false} ChunkDecodes(chunk: Bytes, tail: Bytes)
    requires chunk != []
    ensures var more := DecodeChunked(tail);
            DecodeChunked(ChunkBytes(chunk) + tail) ==
            if more.None? then None else Some(Body(chunk + more.value.data, more.value.rest))
  {
    hide DecodeChunked, ReadOn, Print;
    var digits := Print(|chunk|, 16);
    assert ChunkBytes(chunk) + tail == digits + (CRLF + (chunk + (CRLF + tail)));
    PrintedReadsBack(|chunk|, 16);
    ChunkStep(digits, chunk, tail);
  }

  lemma {:induction false} LastChunkDecodes(rest: Bytes)
    ensures DecodeChunked(LAST_CHUNK + rest) == Some(Body([], rest))
  {
    var s, after := LAST_CHUNK + rest, CRLF + rest;
    assert s == [48] + CRLF + after && s == [48] + (CRLF + after);
    DigitRunOf([48], CRLF + after);
    LineEndOf([48], after);
    assert s[..1] == [48] && s[3..] == after;
    assert ReadOn([48], 0, 16) == 0 by {
      PrintedReadsBack(0, 16);
    }
    assert after == [] + CRLF + rest;
    LineEndOf([], rest);
    assert after[2..] == rest;
  }

  /** Whatever the split into non-empty reads, the chunked wire decodes to their concatenation and nothing more is consumed. */
  lemma {:induction false} ChunkedRoundTrip(chunks: seq<Bytes>, rest: Bytes)
    requires forall i :: 0 <= i < |chunks| ==> chunks[i] != []
    ensures DecodeChunked(ChunkedBytes(chunks) + rest) == Some(Body(Concat(chunks), rest))
  {
    if chunks == [] {
      LastChunkDecodes(rest);
    } else {
      ChunkedRoundTrip(chunks[1..], rest);
      ChunkDecodes(chunks[0], ChunkedBytes(chunks[1..]) + rest);
      assert ChunkedBytes(chunks) + rest == ChunkBytes(chunks[0]) + (ChunkedBytes(chunks[1..]) + rest);
    }
  }

  /** Why the relay stops at an empty read: an empty chunk would end the body for the client. */
  lemma {:induction false} EmptyChunkEndsBody(tail: Bytes)
    ensures ChunkBytes([]) == LAST_CHUNK
    ensures DecodeChunked(ChunkBytes([]) + tail) == Some(Body([], tail))
  {
    assert Print(0, 16) == [48];
    LastChunkDecodes(tail);
  }

  /** The chunks written so far, without the last chunk that ends the body. */
  function UnfinishedBytes(chunks: seq<Bytes>): Bytes {
    if chunks == [] then [] else ChunkBytes(chunks[0]) + UnfinishedBytes(chunks[1..])
  }

  /** A body that is not ended stays undecodable, also when an error response (or anything else that is no digit) follows. */
  lemma {:induction false} UnfinishedNeverDecodes(chunks: seq<Bytes>, more: Bytes)
    requires forall i :: 0 <= i < |chunks| ==> chunks[i] != []
    requires more == [] || !IsDigit(more[0], 16)
    ensures DecodeChunked(UnfinishedBytes(chunks) + more) == None
  {
    if chunks == [] {
      assert UnfinishedBytes(chunks) + more == more;
      assert DigitRun(more) == 0;
    } else {
      UnfinishedNeverDecodes(chunks[1..], more);
      ChunkDecodes(chunks[0], UnfinishedBytes(chunks[1..]) + more);
      Associates(ChunkBytes(chunks[0]), UnfinishedBytes(chunks[1..]), more);
    }
  }

  lemma {:induction false} NoLineEnd(s: Bytes)
    requires forall i :: 0 <= i < |s| ==> s[i] != LF
    ensures LineEnd(s) == None
  {
    if |s| >= 2 {
      NoLineEnd(s[1..]);
    }
  }

  lemma {:induction false} CutLastChunk(k: nat)
    requires k < |LAST_CHUNK|
    ensures DecodeChunked(LAST_CHUNK[..k]) == None
  {
    var s := LAST_CHUNK[..k];
    if k <= 2 {
      NoLineEnd(s);
    } else {
      var tail := CRLF[..k - 3];
      assert s == [48] + (CRLF + tail) && s == [48] + CRLF + tail;
      DigitRunOf([48], CRLF + tail);
      LineEndOf([48], tail);
      assert ReadOn([48], 0, 16) == 0 by {
        PrintedReadsBack(0, 16);
      }
      assert s[..1] == [48] && s[3..] == tail;
      NoLineEnd(tail);
      assert SkipTrailers(tail) == None;
    }
  }

  lemma {:induction false} CutChunk(chunk: Bytes, k: nat)
    requires chunk != [] && k < |ChunkBytes(chunk)|
    ensures DecodeChunked(ChunkBytes(chunk)[..k]) == None
  {
    hide DigitRun, LineEnd, ReadOn, SkipTrailers, Print;
    var digits, s := Print(|chunk|, 16), ChunkBytes(chunk)[..k];
    assert ChunkBytes(chunk) == digits + (CRLF + (chunk + CRLF));
    if k < |digits| + 2 {
      forall i | 0 <= i < k ensures s[i] != LF {
        assert i < |digits| ==> s[i] == digits[i] && IsDigit(digits[i], 16);
      }
      NoLineEnd(s);
    } else {
      var after := (chunk + CRLF)[..k - |digits| - 2];
      assert s == digits + (CRLF + after) && s == digits + CRLF + after;
      DigitsHaveNoCR(digits);
      DigitRunOf(digits, CRLF + after);
      LineEndOf(digits, after);
      PrintedReadsBack(|chunk|, 16);
      assert s[..|digits|] == digits && s[|digits| + 2..] == after;
    }
  }

  /** A chunked wire cut short anywhere never decodes: a client always notices that the body is incomplete. */
  lemma {:induction false} CutBodyNeverDecodes(chunks: seq<Bytes>, k: nat)
    requires forall i :: 0 <= i < |chunks| ==> chunks[i] != []
    requires k < |ChunkedBytes(chunks)|
    ensures DecodeChunked(ChunkedBytes(chunks)[..k]) == None
    decreases |chunks|
  {
    hide DecodeChunked, ChunkBytes;
    if chunks == [] {
      CutLastChunk(k);
    } else {
      var first, rest := ChunkBytes(chunks[0]), ChunkedBytes(chunks[1..]);
      if k < |first| {
        assert (first + rest)[..k] == first[..k];
        CutChunk(chunks[0], k);
      } else {
        assert (first + rest)[..k] == first + rest[..k - |first|];
        CutBodyNeverDecodes(chunks[1..], k - |first|);
        ChunkDecodes(chunks[0], rest[..k - |first|]);
      }
    }
  }

  // ---------------------------------------------------------------------------
  // The relay.

  /** What the reads return, one after the other; the read after them raises if `fails`, and finds the end otherwise. */
  datatype Upstream = Upstream(status: nat, contentLength: Option<nat>, received: seq<Bytes>, fails: bool)

  /** The body is cut off by a failing read: no empty read comes before it. */
  predicate Interrupted(u: Upstream) {
    u.fails && forall i :: 0 <= i < |u.received| ==> u.received[i] != []
  }

  /** The status line and headers of a response; every status line starts with `HTTP`. */
  type ResponseHead = head: Bytes | |head| > 0 && head[0] == 72 witness [72]

  predicate IsBodyless(command: string, status: nat) {
    command == "HEAD" || status in {204, 304}
  }

  /** How the relayed header section tells the client to find the body. */
  function FramingOf(command: string, u: Upstream): Framing {
    if IsBodyless(command, u.status) then NoBody
    else if u.contentLength.Some? then Length(u.contentLength.value)
    else Chunked
  }

  /** Responses to `HEAD`, and those of status 204 and 304, have no body to relay; a declared length is relayed, else the body is chunked. */
  lemma {:induction false} FramingMeans(command: string, u: Upstream)
    ensures FramingOf(command, u) == NoBody <==> command == "HEAD" || u.status == 204 || u.status == 304
    ensures IsBodyless(command, u.status) <==> command == "HEAD" || u.status == 204 || u.status == 304
    ensures forall n: nat :: FramingOf(command, u) == Length(n) <==>
              command != "HEAD" && u.status != 204 && u.status != 304 && u.contentLength == Some(n)
    ensures FramingOf(command, u) == Chunked <==>
              command != "HEAD" && u.status != 204 && u.status != 304 && u.contentLength == None
  {
  }

  class Handler {
    const command: string
    /** Bytes written to the client after the header section. */
    var wfile: Bytes

    constructor (command: string)
      ensures this.command == command && wfile == []
    {
      this.command := command;
      wfile := [];
    }

    method WriteChunk(chunk: Bytes)
      modifies this`wfile
      ensures wfile == old(wfile) + ChunkBytes(chunk)
    {
      wfile := wfile + (Print(|chunk|, 16) + CRLF);
      wfile := wfile + chunk;
      wfile := wfile + CRLF;
    }

    /** Writes the body to the client while collecting it for the record; a failing read is passed on to the caller. */
    method RelayUpstreamResponse(u: Upstream) returns (body: Bytes, raised: bool)
      modifies this`wfile
      ensures raised <==> !FramingOf(command, u).NoBody? && Interrupted(u)
      ensures FramingOf(command, u).NoBody? ==> body == [] && wfile == old(wfile)
      ensures !FramingOf(command, u).NoBody? ==> body == Concat(UntilEmpty(u.received))
      ensures FramingOf(command, u).Length? ==> wfile == old(wfile) + body
      ensures FramingOf(command, u).Chunked? ==>
                wfile == old(wfile) + if raised then UnfinishedBytes(u.received) else ChunkedBytes(UntilEmpty(u.received))
    {
      body, raised := [], false;
      if IsBodyless(command, u.status) {
        return;
      }
      if u.contentLength.Some? {
        body, raised := RelayPlain(u);
      } else {
        body, raised := RelayChunks(u);
      }
    }

    method RelayPlain(u: Upstream) returns (body: Bytes, raised: bool)
      modifies this`wfile
      ensures body == Concat(UntilEmpty(u.received)) && wfile == old(wfile) + body
      ensures raised <==> Interrupted(u)
    {
      ghost var chunks := UntilEmpty(u.received);
      body := [];
      var i := 0;
      while i < |u.received| && u.received[i] != []
        invariant i <= |chunks|
        invariant body == Concat(chunks[..i]) && wfile == old(wfile) + body
      {
        CollectNext(chunks, i);
        body := body + u.received[i];
        wfile := wfile + u.received[i];
        i := i + 1;
      }
      assert chunks[..i] == chunks;
      EndOrFailure(u, i);
      raised := i == |u.received| && u.fails;
    }

    method RelayChunks(u: Upstream) returns (body: Bytes, raised: bool)
      modifies this`wfile
      ensures body == Concat(UntilEmpty(u.received))
      ensures raised <==> Interrupted(u)
      ensures wfile == old(wfile) + if raised then UnfinishedBytes(u.received) else ChunkedBytes(UntilEmpty(u.received))
    {
      ghost var chunks := UntilEmpty(u.received);
      body := [];
      var i := 0;
      ghost var sent := [];
      while i < |u.received| && u.received[i] != []
        invariant i <= |chunks|
        invariant body == Concat(chunks[..i])
        invariant wfile == old(wfile) + sent && sent == UnfinishedBytes(chunks[..i])
      {
        CollectNext(chunks, i);
        SendNext(chunks, i);
        body := body + u.received[i];
        WriteChunk(u.received[i]);
        Associates(old(wfile), sent, ChunkBytes(u.received[i]));
        sent := sent + ChunkBytes(u.received[i]);
        i := i + 1;
      }
      assert chunks[..i] == chunks;
      EndOrFailure(u, i);
      if i == |u.received| && u.fails {
        return body, true;
      }
      LastEndsBody(chunks);
      Associates(old(wfile), sent, LAST_CHUNK);
      wfile := wfile + LAST_CHUNK;
      return body, false;
    }

    /** A second response, written to the client after a failure. */
    method SendProxyError(head: ResponseHead, payload: Bytes) returns (body: Bytes)
      modifies this`wfile
      ensures wfile == old(wfile) + (head + payload) && body == payload
    {
      wfile := wfile + head;
      wfile := wfile + payload;
      body := payload;
    }

    /** Relays the response, or what there is of it and then an error response; returns the body that is recorded. */
    method ProxyRequest(u: Upstream, head: ResponseHead, payload: Bytes) returns (recorded: Bytes, raised: bool)
      modifies this`wfile
      ensures raised <==> !FramingOf(command, u).NoBody? && Interrupted(u)
      ensures raised ==>
                && recorded == payload
                && wfile == old(wfile) + (if FramingOf(command, u).Chunked? then UnfinishedBytes(u.received) else Concat(u.received)) +
                            (head + payload)
      ensures !raised ==>
                && recorded == (if FramingOf(command, u).NoBody? then [] else Concat(UntilEmpty(u.received)))
                && wfile == old(wfile) + if FramingOf(command, u).Chunked? then ChunkedBytes(UntilEmpty(u.received)) else recorded
    {
      recorded, raised := RelayUpstreamResponse(u);
      if raised {
        WithoutEmpty(u.received);
        recorded := SendProxyError(head, payload);
      }
    }
  }

  lemma {:induction false} WithoutEmpty(received: seq<Bytes>)
    requires forall i :: 0 <= i < |received| ==> received[i] != []
    ensures UntilEmpty(received) == received
  {
    if received != [] {
      WithoutEmpty(received[1..]);
    }
  }

  /** The loop stops at the first empty read or, when there is none, where the reads end or fail. */
  lemma {:induction false} EndOrFailure(u: Upstream, i: nat)
    requires i == |UntilEmpty(u.received)| && i <= |u.received|
    ensures i == |u.received| && u.fails <==> Interrupted(u)
    ensures Interrupted(u) ==> UntilEmpty(u.received) == u.received
  {
    if Interrupted(u) {
      WithoutEmpty(u.received);
    }
    if i == |u.received| {
      assert UntilEmpty(u.received) == u.received;
    }
  }

  lemma {:induction false} CollectNext(chunks: seq<Bytes>, i: nat)
    requires i < |chunks|
    ensures Concat(chunks[..i + 1]) == Concat(chunks[..i]) + chunks[i]
  {
    ConcatLast(chunks[..i], chunks[i]);
    assert chunks[..i + 1] == chunks[..i] + [chunks[i]];
  }

  lemma {:induction false} UnfinishedLast(chunks: seq<Bytes>, chunk: Bytes)
    ensures UnfinishedBytes(chunks + [chunk]) == UnfinishedBytes(chunks) + ChunkBytes(chunk)
  {
    hide ChunkBytes;
    if chunks == [] {
      assert chunks + [chunk] == [chunk] && [chunk][1..] == [];
    } else {
      assert (chunks + [chunk])[1..] == chunks[1..] + [chunk];
      UnfinishedLast(chunks[1..], chunk);
      Associates(ChunkBytes(chunks[0]), UnfinishedBytes(chunks[1..]), ChunkBytes(chunk));
    }
  }

  lemma {:induction false} SendNext(chunks: seq<Bytes>, i: nat)
    requires i < |chunks|
    ensures UnfinishedBytes(chunks[..i + 1]) == UnfinishedBytes(chunks[..i]) + ChunkBytes(chunks[i])
  {
    UnfinishedLast(chunks[..i], chunks[i]);
    assert chunks[..i + 1] == chunks[..i] + [chunks[i]];
  }

  lemma {:induction false} LastEndsBody(chunks: seq<Bytes>)
    ensures ChunkedBytes(chunks) == UnfinishedBytes(chunks) + LAST_CHUNK
  {
    hide ChunkBytes;
    if chunks != [] {
      LastEndsBody(chunks[1..]);
      Associates(ChunkBytes(chunks[0]), UnfinishedBytes(chunks[1..]), LAST_CHUNK);
    }
  }

  /**
   Without a failing read the client receives exactly the recorded body and is left at the end
   of the wire; with a declared length this holds iff upstream delivered as much as it declared.
   After a failing read the error is recorded, while the client cannot decode a chunked body at
   all; with a declared length it takes the error response for the missing part of the body.
   */
  method RelayFresh(command: string, u: Upstream, head: ResponseHead, payload: Bytes) returns (recorded: Bytes, wire: Bytes)
    ensures IsBodyless(command, u.status) || !Interrupted(u) ==>
              (var framing := FramingOf(command, u);
               ClientBody(framing, wire) == Some(Body(recorded, [])) <==> (framing.Length? ==> framing.n == |recorded|))
    ensures IsBodyless(command, u.status) ==> recorded == []
    ensures !IsBodyless(command, u.status) && !Interrupted(u) ==> recorded == Concat(UntilEmpty(u.received))
    ensures !IsBodyless(command, u.status) && Interrupted(u) ==>
              && recorded == payload
              && match FramingOf(command, u)
                 case NoBody => false
                 case Chunked => ClientBody(Chunked, wire) == None
                 case Length(n) =>
                   var sent := Concat(u.received) + head + payload;
                   ClientBody(Length(n), wire) == if n <= |sent| then Some(Body(sent[..n], sent[n..])) else None
  {
    var handler := new Handler(command);
    var raised;
    recorded, raised := handler.ProxyRequest(u, head, payload);
    wire := handler.wfile;
    assert [] + wire == wire;
    FramingMeans(command, u);
    hide FramingOf, IsBodyless, Interrupted, ClientBody, UnfinishedBytes, ChunkedBytes, UntilEmpty, Concat;
    if raised {
      ClientAfterFailure(u, head, payload, wire, FramingOf(command, u));
    } else {
      ClientOfWhole(u, recorded, wire, FramingOf(command, u));
    }
  }

  lemma {:induction false} ClientOfWhole(u: Upstream, body: Bytes, wire: Bytes, framing: Framing)
    requires framing.Chunked? ==> body == Concat(UntilEmpty(u.received))
    requires framing.NoBody? ==> body == []
    requires wire == if framing.Chunked? then ChunkedBytes(UntilEmpty(u.received)) else body
    ensures ClientBody(framing, wire) == Some(Body(body, [])) <==> (framing.Length? ==> framing.n == |body|)
  {
    hide DecodeChunked, ChunkedBytes;
    match framing {
      case NoBody =>
      case Length(n) =>
        if n == |body| {
          assert wire[..n] == body && wire[n..] == [];
        } else if n < |body| {
          assert |wire[..n]| < |body|;
        }
      case Chunked =>
        ChunkedRoundTrip(UntilEmpty(u.received), []);
        assert wire == ChunkedBytes(UntilEmpty(u.received)) + [];
    }
  }

  lemma {:induction false} ClientAfterFailure(u: Upstream, head: ResponseHead, payload: Bytes, wire: Bytes, framing: Framing)
    requires !framing.NoBody? && Interrupted(u)
    requires wire == (if framing.Chunked? then UnfinishedBytes(u.received) else Concat(u.received)) + (head + payload)
    ensures framing.Chunked? ==> ClientBody(framing, wire) == None
    ensures framing.Length? ==>
              var sent := Concat(u.received) + head + payload;
              ClientBody(framing, wire) == if framing.n <= |sent| then Some(Body(sent[..framing.n], sent[framing.n..])) else None
  {
    hide DecodeChunked, UnfinishedBytes;
    if framing.Chunked? {
      UnfinishedNeverDecodes(u.received, head + payload);
    } else {
      Associates(Concat(u.received), head, payload);
    }
  }
}
