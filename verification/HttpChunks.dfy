/** Writing a chunked body, and what a reader makes of it. */
module HttpChunks {
  import opened Wrappers
  import opened Text
  import opened HeaderFields
  import opened HttpBody

  const BLOCK: nat := 64 * 1024
  const LAST_CHUNK := "0\r\n\r\n"

  /** `make_chunk_frame` */
  function ChunkFrame(data: string): string {
    NumberText(|data|, 16) + CRLF + data + CRLF
  }

  /** One producer write: nothing for an empty one, several frames for a large one. */
  function Chunked(data: string): string {
    if data == "" then ""
    else if |data| <= BLOCK then ChunkFrame(data)
    else ChunkFrame(data[..BLOCK]) + Chunked(data[BLOCK..])
  }

  function ChunkedAll(writes: seq<string>): string {
    if writes == [] then "" else Chunked(writes[0]) + ChunkedAll(writes[1..])
  }

  class Writer {
    /** everything handed to the connection so far */
    var written: string

    constructor ()
      ensures written == ""
    {
      written := "";
    }

    /** `write_chunk` with the loop of `write_chunk_blocks` */
    method WriteChunk(data: string)
      modifies this
      ensures written == old(written) + Chunked(data)
    {
      if data != "" && |data| <= BLOCK {
        written := written + ChunkFrame(data);
        return;
      }
      var rest := data;
      ghost var sent := "";
      EmptyFirst(Chunked(data));
      EmptyFirst(written);
      while rest != ""
        invariant written == old(written) + sent
        invariant Chunked(data) == sent + Chunked(rest)
        decreases |rest|
      {
        var count := if |rest| < BLOCK then |rest| else BLOCK;
        Regroup(old(written), sent, ChunkFrame(rest[..count]));
        FirstFrame(sent, rest, count);
        written := written + ChunkFrame(rest[..count]);
        sent := sent + ChunkFrame(rest[..count]);
        rest := rest[count..];
      }
      EmptyFirst(sent);
    }

    method WriteLastChunk()
      modifies this
      ensures written == old(written) + LAST_CHUNK
    {
      written := written + LAST_CHUNK;
    }
  }

  lemma FirstFrame(sent: string, rest: string, count: nat)
    requires rest != "" && count == if |rest| < BLOCK then |rest| else BLOCK
    ensures sent + Chunked(rest) == sent + ChunkFrame(rest[..count]) + Chunked(rest[count..])
  {
    hide ChunkFrame;
    EmptyFirst(ChunkFrame(rest[..count]));
    if |rest| <= BLOCK {
      assert rest[..count] == rest && rest[count..] == "";
    }
    Regroup(sent, ChunkFrame(rest[..count]), Chunked(rest[count..]));
  }

  function Frames(pieces: seq<string>): string {
    if pieces == [] then "" else NumberText(|pieces[0]|, 16) + CRLF + pieces[0] + CRLF + Frames(pieces[1..])
  }

  /** A write is printed as chunks of at most 64 KiB, none of them empty, that hold its bytes in order. */
  lemma {:induction false} ChunksAreSmall(data: string) returns (pieces: seq<string>)
    ensures Join(pieces) == data && Chunked(data) == Frames(pieces)
    ensures forall i :: 0 <= i < |pieces| ==> 0 < |pieces[i]| <= 65536
    decreases |data|
  {
    hide NumberText;
    if data == "" {
      pieces := [];
    } else if |data| <= BLOCK {
      pieces := [data];
      JoinOne(data);
      assert pieces[1..] == [] && ChunkFrame(data) + "" == ChunkFrame(data);
    } else {
      var more := ChunksAreSmall(data[BLOCK..]);
      pieces := [data[..BLOCK]] + more;
      assert pieces[1..] == more && data == data[..BLOCK] + data[BLOCK..];
    }
  }

  // ---- reading what was written

  function Pow16(k: nat): nat {
    if k == 0 then 1 else 16 * Pow16(k - 1)
  }

  lemma {:induction false} NumberTextIsShort(n: nat, k: nat)
    requires n < Pow16(k) && k > 0
    ensures |NumberText(n, 16)| <= k
  {
    if n >= 16 {
      var (q, d) := DivMod(n, 16);
      assert q < Pow16(k - 1);
      assert k > 1;
      NumberTextIsShort(q, k - 1);
    }
  }

  lemma NumberTextIsHex(n: nat)
    ensures OneLine(NumberText(n, 16)) && Free(NumberText(n, 16), ';')
  {
    hide NumberText;
    var s := NumberText(n, 16);
    assert AllDigits(s, 16);
    forall i | 0 <= i < |s| ensures s[i] != '\r' && s[i] != '\n' && s[i] != ';' { assert IsDigit(s[i], 16); }
  }

  lemma SizeOfNumber(n: nat)
    requires n <= MAX_U64
    ensures SizeOf(NumberText(n, 16)) == Some(n)
  {
    NumberTextIsHex(n);
    FindAbsent(NumberText(n, 16), ';');
    NumberRoundTrip(n, 16);
    assert ";" == [';'];
    hide NumberText, ParseNumber, Find;
  }

  lemma FrameStarts(data: string, tail: string)
    requires |data| <= BLOCK
    ensures ChunkStart(ChunkFrame(data) + tail) == Some((|data|, data + CRLF + tail))
  {
    var size := NumberText(|data|, 16);
    NumberTextIsHex(|data|);
    assert Pow16(5) == 0x100000;
    NumberTextIsShort(|data|, 5);
    SizeOfNumber(|data|);
    hide NumberText, SizeOf, Find, At;
    FindLineEnd(size, data + CRLF + tail);
    assert ChunkFrame(data) + tail == size + CRLF + (data + CRLF + tail);
  }

  /** A chunk with its line end is delivered whole. */
  lemma ChunkIsDelivered(s: string, size: nat, rest: string, received: nat, limits: Limits, strict: bool)
    requires ChunkStart(s) == Some((size, rest)) && size > 0 && received + size <= limits.body
    requires |rest| >= size + 2 && rest[size..size + 2] == CRLF
    ensures Dechunked(s, received, limits.body, limits.head, strict) ==
            Delivered(rest[..size], Dechunked(rest[size + 2..], received + size, limits.body, limits.head, strict))
  {
    hide ChunkStart, Trailers, Delivered;
  }

  lemma FrameParts(data: string, tail: string, rest: string)
    requires rest == data + CRLF + tail
    ensures |rest| >= |data| + 2 && rest[..|data|] == data && rest[|data|..|data| + 2] == CRLF && rest[|data| + 2..] == tail
  {}

  lemma FrameIsRead(data: string, tail: string, received: nat, limits: Limits, strict: bool)
    requires 0 < |data| <= BLOCK && received + |data| <= limits.body
    ensures Dechunked(ChunkFrame(data) + tail, received, limits.body, limits.head, strict) ==
            Delivered(data, Dechunked(tail, received + |data|, limits.body, limits.head, strict))
  {
    hide *;
    FrameStarts(data, tail);
    var rest := data + CRLF + tail;
    FrameParts(data, tail, rest);
    ChunkIsDelivered(ChunkFrame(data) + tail, |data|, rest, received, limits, strict);
  }

  lemma {:induction false} WriteIsRead(data: string, tail: string, received: nat, limits: Limits, strict: bool)
    requires received + |data| <= limits.body
    ensures Dechunked(Chunked(data) + tail, received, limits.body, limits.head, strict) ==
            Delivered(data, Dechunked(tail, received + |data|, limits.body, limits.head, strict))
    decreases |data|
  {
    hide Dechunked, ChunkFrame;
    if data == "" {
      EmptyFirst(tail);
      EmptyFirst(Dechunked(tail, received, limits.body, limits.head, strict).payload);
    } else if |data| <= BLOCK {
      FrameIsRead(data, tail, received, limits, strict);
    } else {
      var first, more := data[..BLOCK], data[BLOCK..];
      Regroup(ChunkFrame(first), Chunked(more), tail);
      FrameIsRead(first, Chunked(more) + tail, received, limits, strict);
      WriteIsRead(more, tail, received + |first|, limits, strict);
      assert data == first + more;
      DeliveredStep(first, more, Dechunked(tail, received + |data|, limits.body, limits.head, strict));
    }
  }

  lemma NoTrailers(suffix: string, limit: nat, strict: bool)
    requires limit >= 2
    ensures Trailers(CRLF + suffix, 0, limit, strict) == Some(([], suffix))
  {
    FindLineEnd("", suffix);
    EmptyFirst(CRLF);
    hide Find, At;
    assert (CRLF + suffix)[..0] == "" && (CRLF + suffix)[2..] == suffix;
    assert LineOf(CRLF + suffix, limit, strict) == Some(("", suffix));
    hide LineOf;
  }

  lemma LastChunkIsRead(suffix: string, received: nat, limits: Limits, strict: bool)
    requires limits.head >= 2
    ensures Dechunked(LAST_CHUNK + suffix, received, limits.body, limits.head, strict) == Decoded("", Some(([], suffix)))
  {
    var line, rest := "0", CRLF + suffix;
    assert Digit(0) == '0' && NumberText(0, 16) == line;
    NumberTextIsHex(0);
    SizeOfNumber(0);
    FindLineEnd(line, rest);
    assert LAST_CHUNK + suffix == line + CRLF + rest;
    FindLineEnd("", suffix);
    EmptyFirst(CRLF);
    hide NumberText, SizeOf, Find, At;
    NoTrailers(suffix, limits.head, strict);
    hide Trailers;
    assert ChunkStart(LAST_CHUNK + suffix) == Some((0, rest));
    hide ChunkStart;
  }

  /** Any list of producer writes, closed by the last chunk, is read back as their concatenation; the rest stays. */
  lemma {:induction false} WritesAreRead(writes: seq<string>, suffix: string, received: nat, limits: Limits, strict: bool)
    requires limits.head >= 2 && received + |Join(writes)| <= limits.body
    ensures Dechunked(ChunkedAll(writes) + LAST_CHUNK + suffix, received, limits.body, limits.head, strict) ==
            Decoded(Join(writes), Some(([], suffix)))
    decreases |writes|
  {
    hide Dechunked, Chunked;
    if writes == [] {
      EmptyFirst(LAST_CHUNK);
      LastChunkIsRead(suffix, received, limits, strict);
    } else {
      var tail := ChunkedAll(writes[1..]) + LAST_CHUNK + suffix;
      assert ChunkedAll(writes) + LAST_CHUNK + suffix == Chunked(writes[0]) + tail;
      WriteIsRead(writes[0], tail, received, limits, strict);
      WritesAreRead(writes[1..], suffix, received + |writes[0]|, limits, strict);
    }
  }

  // ---- only chunks are read

  /** A chunk as it stands in the stream: its size line, extension included, and its data. */
  datatype ChunkText = ChunkText(line: string, data: string)

  function ChunkTexts(chunks: seq<ChunkText>): string {
    if chunks == [] then "" else chunks[0].line + CRLF + chunks[0].data + CRLF + ChunkTexts(chunks[1..])
  }

  function Payload(chunks: seq<ChunkText>): string {
    if chunks == [] then "" else chunks[0].data + Payload(chunks[1..])
  }

  predicate SizesMatch(chunks: seq<ChunkText>) {
    forall i :: 0 <= i < |chunks| ==> chunks[i].data != "" && SizeOf(chunks[i].line) == Some(|chunks[i].data|)
  }

  lemma StartIsLine(s: string)
    requires ChunkStart(s).Some?
    ensures 0 <= Find(s, CRLF, 0) <= |s|
    ensures var line := s[..Find(s, CRLF, 0)];
            SizeOf(line) == Some(ChunkStart(s).value.0) && s == line + CRLF + ChunkStart(s).value.1
  {
    StartEndsLine(s);
    LineEndAt(s);
    hide SizeOf, Find, At;
    CutAtLineEnd(s, Find(s, CRLF, 0));
  }

  lemma StartEndsLine(s: string)
    requires ChunkStart(s).Some?
    ensures Find(s, CRLF, 0) != -1
  {
    hide Find, At, SizeOf;
  }

  lemma CutAtLineEnd(s: string, end: nat)
    requires end + 2 <= |s| && s[end] == '\r' && s[end + 1] == '\n'
    ensures s == s[..end] + CRLF + s[end + 2..]
  {}

  /** A stream that is decoded to its end consists of chunks whose size lines give the lengths of their data, a line of size
      zero, and trailers. */
  lemma {:induction false} DecodedWasChunked(s: string, received: nat, limits: Limits, strict: bool)
    returns (chunks: seq<ChunkText>, line: string, tail: string)
    requires Dechunked(s, received, limits.body, limits.head, strict).end.Some?
    ensures s == ChunkTexts(chunks) + (line + CRLF + tail) && SizesMatch(chunks) && SizeOf(line) == Some(0)
    ensures Dechunked(s, received, limits.body, limits.head, strict) == Decoded(Payload(chunks), Trailers(tail, 0, limits.head, strict))
    decreases |s|
  {
    hide ChunkStart, SizeOf, Trailers, Find;
    StartIsLine(s);
    ChunkStartIsShorter(s);
    line := s[..Find(s, CRLF, 0)];
    var (size, rest) := ChunkStart(s).value;
    if size == 0 {
      chunks, tail := [], rest;
      EmptyFirst(line + CRLF + tail);
    } else {
      var data, next := rest[..size], rest[size + 2..];
      ChunkIsDelivered(s, size, rest, received, limits, strict);
      var more, last, end := DecodedWasChunked(next, received + size, limits, strict);
      chunks, tail := [ChunkText(line, data)] + more, end;
      assert chunks[1..] == more;
      assert rest == data + CRLF + next;
      OneMoreChunk(s, line, data, next, more, last + CRLF + end);
      line := last;
    }
  }

  lemma OneMoreChunk(s: string, line: string, data: string, next: string, more: seq<ChunkText>, end: string)
    requires s == line + CRLF + (data + CRLF + next) && next == ChunkTexts(more) + end
    ensures s == ChunkTexts([ChunkText(line, data)] + more) + end
  {
    var chunks := [ChunkText(line, data)] + more;
    assert chunks[1..] == more;
    assert ChunkTexts(chunks) == line + CRLF + data + CRLF + ChunkTexts(more);
  }

  /** The whole exchange: the producer's writes, cut into blocks anywhere and followed by anything, arrive complete. */
  method Exchange(writes: seq<string>, suffix: string, blocks: seq<string>, limits: Limits)
    returns (body: string, rest: string, ok: bool)
    requires limits.head >= 2 && |Join(writes)| <= limits.body
    requires Join(blocks) == ChunkedAll(writes) + LAST_CHUNK + suffix
    ensures ok && body == Join(writes) && rest == suffix
  {
    hide Dechunked, Chunked, ChunkedAll, Join;
    var reader := new Reader(blocks);
    WritesAreRead(writes, suffix, 0, limits, true);
    WritesAreRead(writes, suffix, 0, limits, false);
    var trailers := reader.ReadBody(true, None, false, limits, BLOCK);
    ok, body := trailers.Some?, reader.delivered;
    rest := reader.Rest();
  }

  /** What the writer hands to the connection is the stream that `Exchange` reads. */
  method WriteAll(writes: seq<string>) returns (stream: string)
    ensures stream == ChunkedAll(writes) + LAST_CHUNK
  {
    hide Chunked;
    var writer := new Writer();
    ghost var done := "";
    EmptyFirst(ChunkedAll(writes));
    for i := 0 to |writes|
      invariant writer.written == done && ChunkedAll(writes) == done + ChunkedAll(writes[i..])
    {
      assert writes[i..][0] == writes[i] && writes[i..][1..] == writes[i + 1..];
      Regroup(done, Chunked(writes[i]), ChunkedAll(writes[i + 1..]));
      writer.WriteChunk(writes[i]);
      done := done + Chunked(writes[i]);
    }
    EmptyFirst(done);
    writer.WriteLastChunk();
    stream := writer.written;
  }
}
