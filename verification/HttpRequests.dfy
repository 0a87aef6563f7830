/** Whole requests: the sink that a request body is streamed to, and what a server reads of the bytes. */
module HttpRequests {
  import opened Wrappers
  import opened Text
  import opened HeaderFields
  import opened HttpHead
  import opened HttpHeadRoundTrip
  import opened HttpWriter
  import opened HttpBody
  import opened HttpChunks

  /** The bytes of a body in its framing. */
  function BodyBytes(framing: Framing, writes: seq<string>): string {
    if framing == ChunkedBody then ChunkedAll(writes) + LAST_CHUNK else Join(writes)
  }

  /** What the sink has written when the body is not closed yet. */
  function OpenBytes(chunked: bool, writes: seq<string>): string {
    if chunked then ChunkedAll(writes) else Join(writes)
  }

  lemma {:induction false} ChunkedAllAppend(a: seq<string>, b: seq<string>)
    ensures ChunkedAll(a + b) == ChunkedAll(a) + ChunkedAll(b)
  {
    hide Chunked;
    if a == [] {
      assert a + b == b;
    } else {
      assert (a + b)[1..] == a[1..] + b;
      ChunkedAllAppend(a[1..], b);
    }
  }

  lemma OpenBytesSnoc(chunked: bool, writes: seq<string>, data: string)
    ensures OpenBytes(chunked, writes + [data]) == OpenBytes(chunked, writes) + if chunked then Chunked(data) else data
    ensures |Join(writes + [data])| == |Join(writes)| + |data|
  {
    hide Chunked;
    ChunkedAllAppend(writes, [data]);
    JoinAppend(writes, [data]);
    JoinOne(data);
    assert [data][1..] == [];
  }

  /** `RequestBodySink` on an open connection */
  class Sink {
    const chunked: bool
    const total: Option<nat>
    var remaining: Option<nat>
    var failed: bool
    var finished: bool
    var uploaded: nat
    /** everything handed to the connection */
    var written: string
    /** the producer writes that were accepted */
    ghost var accepted: seq<string>

    ghost predicate Valid()
      reads this
    {
      && (chunked ==> total == None)
      && uploaded == |Join(accepted)|
      && (remaining.Some? <==> total.Some?)
      && (total.Some? ==> remaining.value + uploaded == total.value)
      && (!finished ==> written == OpenBytes(chunked, accepted))
    }

    constructor (inChunks: bool, length: Option<nat>)
      requires inChunks ==> length == None
      ensures Valid() && chunked == inChunks && total == length && accepted == [] && !failed && !finished
    {
      chunked, total, remaining := inChunks, length, length;
      failed, finished, uploaded, written, accepted := false, false, 0, "", [];
    }

    method Write(data: string) returns (ok: bool)
      requires Valid()
      modifies this
      ensures Valid() && finished == old(finished)
      ensures ok <==> !old(failed) && !old(finished) && (data == "" || total.None? || |Join(old(accepted))| + |data| <= total.value)
      ensures failed == (old(failed) || (!ok && !old(finished)))
      ensures accepted == if ok then old(accepted) + [data] else old(accepted)
    {
      OpenBytesSnoc(chunked, accepted, data);
      hide Chunked, Join, OpenBytes;
      if failed || finished { return false; }
      if data == "" {
        NothingWritten(chunked, accepted);
        accepted := accepted + [data];
        return true;
      }
      if remaining.Some? && |data| > remaining.value {
        failed := true;
        return false;
      }
      if chunked {
        var bytes := ChunkBytes(data);
        written := written + bytes;
      } else {
        written := written + data;
      }
      if remaining.Some? { remaining := Some(remaining.value - |data|); }
      uploaded := uploaded + |data|;
      accepted := accepted + [data];
      ok := true;
    }

    /** A second call sends nothing and reports only what a write has recorded, not a body that was too short. */
    method Finish() returns (ok: bool)
      requires Valid()
      modifies this
      ensures Valid() && finished && accepted == old(accepted) && failed == old(failed)
      ensures ok <==> !failed && (old(finished) || total.None? || |Join(accepted)| == total.value)
      ensures ok && !old(finished) ==> written == OpenBytes(chunked, accepted) + if chunked then LAST_CHUNK else ""
      ensures !ok || old(finished) ==> written == old(written)
    {
      hide Join, OpenBytes;
      if finished { return !failed; }
      finished := true;
      EmptyFirst(written);
      if failed { return false; }
      if remaining.Some? && remaining.value != 0 { return false; }
      if chunked { written := written + LAST_CHUNK; }
      ok := true;
    }
  }

  lemma NothingWritten(chunked: bool, writes: seq<string>)
    ensures OpenBytes(chunked, writes + [""]) == OpenBytes(chunked, writes)
  {
    OpenBytesSnoc(chunked, writes, "");
    EmptyFirst(OpenBytes(chunked, writes));
  }

  method ChunkBytes(data: string) returns (bytes: string)
    ensures bytes == Chunked(data)
  {
    hide Chunked;
    var writer := new Writer();
    EmptyFirst(Chunked(data));
    writer.WriteChunk(data);
    bytes := writer.written;
  }

  // ---- sending a request

  /** The producer writes of a request; a buffered body is one write. */
  function Writes(request: Request, produced: seq<string>): seq<string> {
    if request.body.Buffered? then [request.body.text] else produced
  }

  /** A streamed body has to have the length that was declared. */
  predicate LengthKept(request: Request, produced: seq<string>) {
    request.body.Streamed? && request.body.length.Some? ==> |Join(produced)| == request.body.length.value
  }

  /** Feeds the sink until it refuses a write; what it does not take makes the body wrong. */
  method Produce(sink: Sink, produced: seq<string>) returns (ok: bool)
    requires sink.Valid() && sink.accepted == [] && !sink.failed && !sink.finished
    modifies sink
    ensures sink.Valid() && sink.finished
    ensures ok <==> (sink.total.Some? ==> |Join(produced)| == sink.total.value)
    ensures ok ==> sink.written == OpenBytes(sink.chunked, produced) + if sink.chunked then LAST_CHUNK else ""
  {
    hide Join, OpenBytes, Chunked;
    JoinNone();
    var i := 0;
    while i < |produced|
      invariant 0 <= i <= |produced| && sink.Valid() && !sink.finished && !sink.failed
      invariant sink.accepted == produced[..i]
    {
      assert produced[..i + 1] == produced[..i] + [produced[i]];
      OpenBytesSnoc(sink.chunked, produced[..i], produced[i]);
      var accepted := sink.Write(produced[i]);
      if !accepted {
        JoinOfPrefix(produced, i + 1);
        ok := sink.Finish();
        return;
      }
      i := i + 1;
    }
    assert produced[..i] == produced;
    ok := sink.Finish();
  }

  lemma JoinOfPrefix(pieces: seq<string>, n: nat)
    requires n <= |pieces|
    ensures |Join(pieces[..n])| <= |Join(pieces)|
  {
    JoinAppend(pieces[..n], pieces[n..]);
    assert pieces == pieces[..n] + pieces[n..];
  }

  /** The slices of a large buffered body. */
  function Slices(body: string): (r: seq<string>)
    ensures Join(r) == body
    decreases |body|
  {
    if |body| <= BLOCK then (JoinOne(body); [body])
    else
      var more := Slices(body[BLOCK..]);
      JoinFirst(body[..BLOCK], more);
      assert body == body[..BLOCK] + body[BLOCK..];
      [body[..BLOCK]] + more
  }

  predicate Printable(request: Request) {
    ValidName(request.name) && ValidTarget(request.target) && AllValid(request.headers)
  }

  lemma HeadWhenSendable(request: Request)
    requires RequestFraming(request).Sized? ==> RequestFraming(request).length <= MAX_U64
    ensures RequestHead(request).Some? <==> HttpWriter.Sendable(request) && AllValid(request.headers)
  {
    hide RequestHead, HttpWriter.Sendable, AllValid, Reads, RequestFraming;
    RequestHeadIsRead(request, "");
  }

  /** Which requests have a head: a token, a printable target, valid fields and version 1.0 or 1.1; a stream must not come with a
      buffered body, and one of unknown length needs version 1.1. */
  lemma RequestsWithHead(request: Request)
    requires RequestFraming(request).Sized? ==> RequestFraming(request).length <= MAX_U64
    ensures request.body.Buffered? ==> (RequestHead(request).Some? <==> Printable(request) && (request.version == 10 || request.version == 11))
    ensures request.body.Streamed? && request.body.length.Some? ==>
              (RequestHead(request).Some? <==> Printable(request) && request.body.buffered == "" && (request.version == 10 || request.version == 11))
    ensures request.body.Streamed? && request.body.length.None? ==>
              (RequestHead(request).Some? <==> Printable(request) && request.body.buffered == "" && request.version == 11)
  {
    HeadWhenSendable(request);
    hide RequestHead, ValidName, ValidTarget, AllValid, RequestFraming;
  }

  /** `write_request`; nothing stands for an error before or while sending. */
  method WriteRequest(request: Request, produced: seq<string>) returns (r: Option<string>)
    ensures r.Some? <==> RequestHead(request).Some? && LengthKept(request, produced)
    ensures r.Some? ==> r.value == RequestHead(request).value + BodyBytes(RequestFraming(request), Writes(request, produced))
  {
    hide RequestHead, Join, ChunkedAll;
    var head := WriteRequestHead(request);
    if head.None? { return None; }
    JoinOne(if request.body.Buffered? then request.body.text else "");
    if request.body.Buffered? && |request.body.text| <= BLOCK { return Some(head.value + request.body.text); }
    var chunked := request.body.Streamed? && request.body.length.None?;
    var length := if request.body.Buffered? then Some(|request.body.text|) else request.body.length;
    var sink := new Sink(chunked, length);
    var writes := if request.body.Buffered? then Slices(request.body.text) else produced;
    var ok := Produce(sink, writes);
    EmptyFirst(OpenBytes(chunked, writes));
    r := if ok then Some(head.value + sink.written) else None;
  }

  // ---- reading it

  /** The body that was sent is the body that is read, and what follows it stays. */
  lemma BodyIsRead(framing: Framing, writes: seq<string>, rest: string, limits: Limits, strict: bool)
    requires framing != Unframed && limits.head >= 2 && |Join(writes)| <= limits.body
    requires framing.Sized? ==> framing.length == |Join(writes)|
    ensures BodyOf(BodyBytes(framing, writes) + rest, framing == ChunkedBody, if framing.Sized? then Some(framing.length) else None, false, limits, strict) ==
            Some((Join(writes), [], rest))
  {
    hide Dechunked, ChunkedAll, Join;
    if framing == ChunkedBody {
      WritesAreRead(writes, rest, 0, limits, strict);
    } else {
      var body := Join(writes);
      assert (body + rest)[..|body|] == body && (body + rest)[|body|..] == rest;
    }
  }

  lemma RequestHeadParts(request: Request, more: string)
    requires RequestHead(request).Some? && (RequestFraming(request).Sized? ==> RequestFraming(request).length <= MAX_U64)
    ensures var text, framing := RequestHead(request).value, RequestFraming(request);
            && |text| >= 4 && Find(text + more, HEAD_END, 0) == |text| - 4
            && var head := ParsedHead(text[..|text| - 2]);
            && head.Some? && head.value.startLine == RequestLine(request) && head.value.headers == Kept(SentRequestFields(request))
            && head.value.Chunked() == (framing == ChunkedBody)
            && (framing.Sized? ==> head.value.contentLength == Some(framing.length))
            && (framing == ChunkedBody ==> head.value.contentLength == None)
  {
    hide RequestHead, Kept, SentRequestFields, ParsedHead, Find, RequestLine, ConnectionValues, RequestFraming, AnyToken;
    RequestHeadIsRead(request, more);
    var text := RequestHead(request).value;
    AcceptedCodings(text[..|text| - 2]);
  }

  /** An accepted head never has both a length and a transfer coding. */
  lemma AcceptedCodings(input: string)
    ensures ParsedHead(input).Some? ==> CodingsAccepted(ParsedHead(input).value)
  {
    hide TakeLines;
  }

  lemma HeadIsCut(text: string, more: string)
    requires |text| >= 4
    ensures (text + more)[..|text| - 2] == text[..|text| - 2] && (text + more)[|text|..] == more
  {}
}
