/** Writing a multipart body, its announced length, and reading it back. */
module MultipartWriter {
  import opened Wrappers
  import opened Text
  import opened HeaderFields
  import opened MultipartHead
  import opened MultipartScan
  import opened MultipartHeadRoundTrip
  import P = MultipartParser

  /** A part to send. `size` is its announced size, if it is known before the data is produced. */
  datatype OutPart = OutPart(metadata: Part, data: string, size: Option<nat>)

  function Prefix(c: Config, part: OutPart): string {
    c.Marker() + CRLF + PrintedHead(part.metadata)
  }

  function Stream(c: Config, parts: seq<OutPart>): string {
    if parts == [] then c.Marker() + "--" + CRLF
    else Prefix(c, parts[0]) + parts[0].data + CRLF + Stream(c, parts[1..])
  }

  /** `MultipartWriter::write` */
  method WriteParts(c: Config, parts: seq<OutPart>) returns (output: string)
    ensures output == Stream(c, parts)
  {
    output := "";
    ghost var all, todo := Stream(c, parts), Stream(c, parts);
    assert parts[0..] == parts;
    for i := 0 to |parts|
      invariant todo == Stream(c, parts[i..]) && all == output + todo
    {
      assert parts[i..][1..] == parts[i + 1..];
      var head := SerializePartHead(parts[i].metadata);
      ghost var rest := Stream(c, parts[i + 1..]);
      assert todo == Prefix(c, parts[i]) + parts[i].data + CRLF + rest;
      var piece := c.Marker() + CRLF + head + parts[i].data + CRLF;
      assert piece == Prefix(c, parts[i]) + parts[i].data + CRLF;
      assert output + (piece + rest) == output + piece + rest;
      output := output + piece;
      todo := rest;
    }
    output := output + (c.Marker() + "--" + CRLF);
    assert parts[|parts|..] == [];
  }

  // ---- the announced length

  predicate SizesKnown(parts: seq<OutPart>) {
    forall i :: 0 <= i < |parts| ==> parts[i].size == Some(|parts[i].data|)
  }

  lemma StreamLength(c: Config, parts: seq<OutPart>, i: nat)
    requires i < |parts|
    ensures |Stream(c, parts[i..])| == |Prefix(c, parts[i])| + |parts[i].data| + 2 + |Stream(c, parts[i + 1..])|
  {
    hide PrintedHead;
    assert parts[i..][1..] == parts[i + 1..];
  }

  lemma KnownSize(parts: seq<OutPart>, i: nat)
    requires i < |parts|
    ensures SizesKnown(parts) ==> parts[i].size == Some(|parts[i].data|)
  {}

  lemma PrefixIs(c: Config, part: OutPart)
    ensures Prefix(c, part) == c.Marker() + CRLF + PrintedHead(part.metadata)
  {}

  lemma StreamEnd(c: Config, parts: seq<OutPart>)
    ensures |Stream(c, parts[|parts|..])| == |c.boundary| + 6
  {
    assert parts[|parts|..] == [];
  }

  /** `content_length`: the exact number of bytes of the body, unless a size is unknown or 64 bits are too few. */
  method ContentLength(c: Config, parts: seq<OutPart>) returns (r: Option<nat>)
    ensures (exists i :: 0 <= i < |parts| && parts[i].size.None?) ==> r == None
    ensures SizesKnown(parts) ==> r == if |Stream(c, parts)| <= MAX_U64 then Some(|Stream(c, parts)|) else None
  {
    var total: nat := 0;
    hide Stream, PrintedHead, Prefix, SizesKnown;
    ghost var known := SizesKnown(parts);
    ghost var all := |Stream(c, parts)|;
    assert parts[0..] == parts;
    for i := 0 to |parts|
      invariant total <= MAX_U64
      invariant forall j :: 0 <= j < i ==> parts[j].size.Some?
      invariant known ==> total + |Stream(c, parts[i..])| == all
    {
      KnownSize(parts, i);
      if parts[i].size.None? { return None; }
      var head := SerializePartHead(parts[i].metadata);
      var prefix := c.Marker() + CRLF + head;
      PrefixIs(c, parts[i]);
      StreamLength(c, parts, i);
      if |prefix| > MAX_U64 - total { return None; }
      total := total + |prefix|;
      if parts[i].size.value > MAX_U64 - total { return None; }
      total := total + parts[i].size.value;
      if 2 > MAX_U64 - total { return None; }
      total := total + 2;
    }
    StreamEnd(c, parts);
    if |c.boundary| + 6 > MAX_U64 - total { return None; }
    total := total + |c.boundary| + 6;
    return Some(total);
  }

  // ---- reading it back

  /** What follows the data of a part: the real delimiter and its ending. */
  function After(c: Config, last: bool): string {
    c.Delimiter() + if last then "--" else CRLF
  }

  /** No delimiter followed by a line end or two hyphens occurs before the real one. */
  ghost predicate Clean(c: Config, data: string, last: bool) {
    forall i: nat :: i < |data| ==> !DelimiterAt(c, data + After(c, last), i)
  }

  /** Data that does not contain the delimiter at all is clean, for every boundary without a carriage return. */
  lemma WithoutDelimiterIsClean(c: Config, data: string, last: bool)
    requires Free(c.boundary, '\r')
    requires forall i: nat :: i < |data| ==> !At(data, i, c.Delimiter())
    ensures Clean(c, data, last)
  {
    var s := data + After(c, last);
    var d := c.Delimiter();
    forall i: nat | i < |data| ensures !DelimiterAt(c, s, i) {
      if i + |d| <= |data| {
        AtPrefix(data, After(c, last), i, d);
      } else {
        // The real delimiter would begin inside this one, but only its first character is a carriage return.
        DelimiterHasOneReturn(c, |data| - i);
        MismatchMeansNotAt(s, i, d, |data| - i);
      }
    }
  }

  lemma DelimiterHasOneReturn(c: Config, k: nat)
    requires Free(c.boundary, '\r') && 0 < k < |c.Delimiter()|
    ensures c.Delimiter()[k] != '\r'
  {
    assert c.Delimiter() == "\r\n--" + c.boundary;
    assert c.Delimiter()[k] == if k < 4 then "\r\n--"[k] else c.boundary[k - 4];
  }

  lemma MismatchMeansNotAt(s: string, i: nat, pattern: string, k: nat)
    requires k < |pattern| && i + k < |s| && s[i + k] != pattern[k]
    ensures !At(s, i, pattern)
  {}

  predicate Acceptable(c: Config, part: OutPart) {
    && Validated(part.metadata) && HeaderSafe(part.metadata)
    && |JoinLines(Fields(part.metadata))| <= c.maxHeader
    && |part.data| <= c.maxPart
  }

  ghost predicate AllAcceptable(c: Config, parts: seq<OutPart>, total: nat)
    decreases |parts|
  {
    parts == [] ||
    (&& Acceptable(c, parts[0])
     && Clean(c, parts[0].data, |parts| == 1)
     && total + |parts[0].data| <= c.maxTotal
     && AllAcceptable(c, parts[1..], total + |parts[0].data|))
  }

  /** The same names, filenames, types and contents, in order. */
  function Expected(parts: seq<OutPart>, index: nat): Trace
    decreases |parts|
  {
    if parts == [] then []
    else PartTrace(parts[0], index) + Expected(parts[1..], index + 1)
  }

  function PartTrace(part: OutPart, index: nat): Trace {
    [Begin(index, Received(part.metadata))] + (Bytes(index, part.data) + [End(index, Received(part.metadata))])
  }

  /** The stream right after a marker. */
  function Tail(c: Config, parts: seq<OutPart>): string {
    if parts == [] then "--" + CRLF
    else CRLF + PrintedHead(parts[0].metadata) + parts[0].data + c.Delimiter() + Tail(c, parts[1..])
  }

  lemma RegroupPart(m: string, head: string, data: string, rest: string)
    ensures m + CRLF + head + data + CRLF + (m + rest) == m + (CRLF + head + data + (CRLF + m) + rest)
  {}

  lemma {:induction false} StreamIsTail(c: Config, parts: seq<OutPart>)
    ensures Stream(c, parts) == c.Marker() + Tail(c, parts)
  {
    hide PrintedHead;
    if parts == [] {
      assert c.Marker() + "--" + CRLF == c.Marker() + ("--" + CRLF);
    } else {
      StreamIsTail(c, parts[1..]);
      RegroupPart(c.Marker(), PrintedHead(parts[0].metadata), parts[0].data, Tail(c, parts[1..]));
    }
  }

  lemma TailStarts(c: Config, parts: seq<OutPart>)
    ensures if parts == [] then "--" <= Tail(c, parts) else CRLF <= Tail(c, parts)
  {
    hide PrintedHead;
  }

  lemma PrintedHeadEnds(part: Part)
    ensures PrintedHead(part) == JoinLines(Fields(part)) + "\r\n\r\n"
  {
    JoinedFieldLines(Fields(part));
    hide JoinLines, Fields, FieldLines;
    assert JoinLines(Fields(part)) + CRLF + CRLF == JoinLines(Fields(part)) + "\r\n\r\n";
  }

  lemma HeadIsFound(c: Config, part: Part, rest: string)
    requires Validated(part)
    ensures var head := JoinLines(Fields(part));
            var s := PrintedHead(part) + rest;
            Find(s, "\r\n\r\n", 0) == |head| && s[..|head|] == head && s[|head| + 4..] == rest
  {
    var fields := Fields(part);
    var head := JoinLines(fields);
    PrintedHeadEnds(part);
    FieldsArePrintable(part);
    hide PrintedHead, JoinLines, Fields, AllPrintable;
    var s := head + HEAD_END + rest;
    forall i: nat | i < |head| ensures !At(s, i, HEAD_END) { NoEarlyHeadEnd(fields, rest, i); }
    AtInMiddle(head, HEAD_END, rest);
    FindIs(s, HEAD_END, 0, |head|);
    assert s[..|head|] == head && s[|head| + 4..] == rest;
  }

  lemma DelimiterPrefix(c: Config, s: string, more: string, i: nat)
    requires i + |c.Delimiter()| + 2 <= |s|
    ensures DelimiterAt(c, s + more, i) == DelimiterAt(c, s, i)
  {
    AtPrefix(s, more, i, c.Delimiter());
    AtPrefix(s, more, i + |c.Delimiter()|, CRLF);
    AtPrefix(s, more, i + |c.Delimiter()|, "--");
  }

  /** The first real delimiter of the rest of the stream ends the data. */
  lemma DataIsFound(c: Config, data: string, last: bool, more: string)
    requires Clean(c, data, last)
    ensures FirstDelimiter(c, data + After(c, last) + more, 0) == |data|
  {
    var short := data + After(c, last);
    var s := short + more;
    DelimiterIsThere(c, data, last);
    DelimiterPrefix(c, short, more, |data|);
    forall i: nat | i < |data| ensures !DelimiterAt(c, s, i) {
      assert !DelimiterAt(c, data + After(c, last), i);
      DelimiterPrefix(c, short, more, i);
    }
    hide DelimiterAt;
    FirstDelimiterIs(c, s, |data|);
  }

  lemma DelimiterIsThere(c: Config, data: string, last: bool)
    ensures DelimiterAt(c, data + After(c, last), |data|)
  {
    var ending := if last then "--" else CRLF;
    AtInMiddle(data, c.Delimiter(), ending);
    AtInMiddle(data + c.Delimiter(), ending, "");
    assert data + After(c, last) == data + c.Delimiter() + ending == data + c.Delimiter() + ending + "";
  }

  /** The body of a part, as the reader finds it. */
  function Body(c: Config, data: string, more: seq<OutPart>): string {
    data + c.Delimiter() + Tail(c, more)
  }

  lemma BodyShape(c: Config, data: string, more: seq<OutPart>)
    ensures Body(c, data, more) == data + After(c, more == []) + Tail(c, more)[2..]
    ensures Body(c, data, more)[..|data|] == data && Body(c, data, more)[|data| + |c.Delimiter()|..] == Tail(c, more)
  {
    TailStarts(c, more);
    hide Tail;
    var tail := Tail(c, more);
    var ending := if more == [] then "--" else CRLF;
    assert tail == ending + tail[2..];
  }

  lemma BodyRoundTrip(c: Config, data: string, more: seq<OutPart>, part: Part, index: nat, total: nat)
    requires Clean(c, data, more == []) && |data| <= c.maxPart && total + |data| <= c.maxTotal
    ensures ScanBody(c, Body(c, data, more), part, index + 1, 0, total) ==
            Prepend(Bytes(index, data) + [End(index, part)], ScanSuffix(c, Tail(c, more), index + 1, total + |data|))
  {
    BodyShape(c, data, more);
    DataIsFound(c, data, more == [], Tail(c, more)[2..]);
    hide Body, Tail, FirstDelimiter, ScanSuffix, Clean;
    ScanBodyAt(c, Body(c, data, more), part, index + 1, 0, total, |data|);
  }

  lemma HeadersRoundTrip(c: Config, metadata: Part, body: string, index: nat, total: nat)
    requires Validated(metadata) && HeaderSafe(metadata) && |JoinLines(Fields(metadata))| <= c.maxHeader && index < c.maxParts
    ensures ScanHeaders(c, PrintedHead(metadata) + body, index, total) ==
            Prepend([Begin(index, Received(metadata))], ScanBody(c, body, Received(metadata), index + 1, 0, total))
  {
    HeadIsFound(c, metadata, body);
    HeadRoundTrip(metadata);
    hide PrintedHead, JoinLines, ParsedHead, ScanBody, Received, Validated, HeaderSafe, Fields, Find;
  }

  lemma SuffixLeadsToHeaders(c: Config, s: string, index: nat, total: nat)
    ensures ScanSuffix(c, CRLF + s, index, total) == ScanHeaders(c, s, index, total)
  {
    assert (CRLF + s)[2..] == s && (CRLF + s)[0] == '\r';
    hide ScanHeaders;
  }

  /** One part, up to the tail of the stream after it. */
  lemma PartRoundTrip(c: Config, part: OutPart, more: seq<OutPart>, index: nat, total: nat)
    requires Acceptable(c, part) && Clean(c, part.data, more == []) && total + |part.data| <= c.maxTotal && index < c.maxParts
    ensures ScanSuffix(c, CRLF + (PrintedHead(part.metadata) + Body(c, part.data, more)), index, total) ==
            Prepend(PartTrace(part, index), ScanSuffix(c, Tail(c, more), index + 1, total + |part.data|))
  {
    hide ScanSuffix, ScanHeaders, ScanBody, PrintedHead, Clean, Received, JoinLines, Fields, Validated, HeaderSafe, Body, Tail;
    var body := Body(c, part.data, more);
    SuffixLeadsToHeaders(c, PrintedHead(part.metadata) + body, index, total);
    HeadersRoundTrip(c, part.metadata, body, index, total);
    BodyRoundTrip(c, part.data, more, Received(part.metadata), index, total);
    PrependAppend([Begin(index, Received(part.metadata))],
                  Bytes(index, part.data) + [End(index, Received(part.metadata))],
                  ScanSuffix(c, Tail(c, more), index + 1, total + |part.data|));
  }

  lemma TailCons(c: Config, parts: seq<OutPart>)
    requires parts != []
    ensures Tail(c, parts) == CRLF + (PrintedHead(parts[0].metadata) + Body(c, parts[0].data, parts[1..]))
  {
    hide PrintedHead;
  }

  lemma EmptyTail(c: Config, index: nat, total: nat)
    ensures ScanSuffix(c, Tail(c, []), index, total) == Some([])
  {}

  lemma {:induction false} TailRoundTrip(c: Config, parts: seq<OutPart>, index: nat, total: nat)
    requires AllAcceptable(c, parts, total) && index + |parts| <= c.maxParts
    ensures ScanSuffix(c, Tail(c, parts), index, total) == Some(Expected(parts, index))
    decreases |parts|
  {
    hide ScanSuffix, Tail, PartTrace, PrintedHead, Body, Clean, Acceptable;
    if parts == [] {
      EmptyTail(c, index, total);
    } else {
      TailCons(c, parts);
      PartRoundTrip(c, parts[0], parts[1..], index, total);
      TailRoundTrip(c, parts[1..], index + 1, total + |parts[0].data|);
    }
  }

  lemma TailEnding(tail: string)
    requires "--" <= tail || CRLF <= tail
    ensures EndingAt(tail, 0)
  {
    assert tail[0..2] == tail[..2];
  }

  lemma BoundaryOpens(c: Config, tail: string)
    requires EndingAt(tail, 0)
    ensures BoundaryAt(c, c.Marker() + tail, 0) && (c.Marker() + tail)[|c.Marker()|..] == tail
  {
    var s := c.Marker() + tail;
    AtDrop(s, |c.Marker()|, |c.Marker()|, CRLF);
    AtDrop(s, |c.Marker()|, |c.Marker()|, "--");
    assert s[|c.Marker()|..] == tail;
    assert s[0..|c.Marker()|] == c.Marker();
  }

  /** The round trip: a written body is accepted by the scan and yields the parts that were written. */
  lemma RoundTrip(c: Config, parts: seq<OutPart>)
    requires AllAcceptable(c, parts, 0) && |parts| <= c.maxParts
    ensures Scan(c, Stream(c, parts)) == Some(Expected(parts, 0))
  {
    hide *;
    var tail := Tail(c, parts);
    StreamIsTail(c, parts);
    TailStarts(c, parts);
    TailRoundTrip(c, parts, 0, 0);
    TailEnding(tail);
    ScanFromMarker(c, tail);
  }

  /** A marker at the very start opens the body. */
  lemma ScanFromMarker(c: Config, tail: string)
    requires EndingAt(tail, 0)
    ensures Scan(c, c.Marker() + tail) == ScanSuffix(c, tail, 0, 0)
  {
    hide ScanSuffix, BoundaryAt, At, EndingAt;
    BoundaryOpens(c, tail);
    P.FirstBoundaryIs(c, c.Marker() + tail, 0);
  }

  /** The same for the incremental parser, however the written body is cut. */
  method Echo(c: Config, parts: seq<OutPart>, pieces: seq<string>) returns (events: seq<P.Event>)
    requires AllAcceptable(c, parts, 0) && |parts| <= c.maxParts
    requires Join(pieces) == Stream(c, parts)
    ensures P.Flatten(events) == Expected(parts, 0)
  {
    RoundTrip(c, parts);
    var accepted: bool;
    accepted, events := P.ParsePieces(c, pieces);
  }
}
