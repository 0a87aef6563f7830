/** Reading lines and bodies of HTTP/1.1 messages from a connection whose bytes arrive in arbitrary blocks.
    The functions say what a message is in terms of all its bytes; the reader is proved to find the same. */
module HttpBody {
  import opened Wrappers
  import opened Text
  import opened HeaderFields
  import opened ReadBuffer

  const LINE_LIMIT: nat := 16 * 1024

  // ---- lines

  /** The first line and what follows it. A strict reader also refuses a line feed inside the line. */
  function LineOf(s: string, limit: nat, strict: bool): Option<(string, string)> {
    var end := Find(s, CRLF, 0);
    if end == -1 || end > limit then None
    else
      assert At(s, end, CRLF);
      if strict && !Free(s[..end], '\n') then None else Some((s[..end], s[end + 2..]))
  }

  /** The line that is read when `view` has arrived and `blocks` will: a line feed is refused while the line end is missing. */
  function Arrived(view: string, blocks: seq<string>, limit: nat): Option<string>
    decreases |blocks|
  {
    var end := Find(view, CRLF, 0);
    FoundWithin(view, CRLF, 0);
    if end != -1 then (if end > limit then None else Some(view[..end]))
    else if !Free(view, '\n') || Overlong(view, limit) then None
    else if blocks == [] then None
    else Arrived(view + blocks[0], blocks[1..], limit)
  }

  /** Too long for a line, even if a line feed follows a carriage return at the end. */
  predicate Overlong(view: string, limit: nat) {
    |view| > limit && (|view| - limit != 1 || view[|view| - 1] != '\r')
  }

  /** A connection as a reader finds it: the bytes in its buffer, and the blocks that will arrive. */
  datatype Arrival = Arrival(view: string, blocks: seq<string>) {
    function All(): string {
      view + Join(blocks)
    }
  }

  /** What is left behind the first line. */
  function AfterLine(a: Arrival): Arrival
    decreases |a.blocks|
  {
    var end := Find(a.view, CRLF, 0);
    FoundWithin(a.view, CRLF, 0);
    if end != -1 then Arrival(a.view[end + 2..], a.blocks)
    else if a.blocks == [] then Arrival("", [])
    else AfterLine(Arrival(a.view + a.blocks[0], a.blocks[1..]))
  }

  lemma AfterLineStep(a: Arrival)
    ensures var end := Find(a.view, CRLF, 0);
            && (end == -1 || 0 <= end <= |a.view| - 2)
            && (end != -1 ==> AfterLine(a) == Arrival(a.view[end + 2..], a.blocks))
            && (end == -1 && a.blocks != [] ==> AfterLine(a) == AfterLine(Arrival(a.view + a.blocks[0], a.blocks[1..])))
  {
    FoundWithin(a.view, CRLF, 0);
  }

  /** What is left behind `n` bytes. */
  function Skip(a: Arrival, n: nat): Arrival
    decreases |a.blocks|
  {
    if n <= |a.view| then Arrival(a.view[n..], a.blocks)
    else if a.blocks == [] then Arrival("", [])
    else Skip(Arrival(a.blocks[0], a.blocks[1..]), n - |a.view|)
  }

  lemma OneBlockOn(view: string, blocks: seq<string>)
    requires blocks != []
    ensures view + Join(blocks) == view + blocks[0] + Join(blocks[1..])
  {}

  lemma {:induction false} AfterLineIsRest(a: Arrival)
    ensures var end := Find(a.All(), CRLF, 0);
            end != -1 ==> end + 2 <= |a.All()| && AfterLine(a).All() == a.All()[end + 2..]
    decreases |a.blocks|
  {
    hide Find, At, Join;
    var end := Find(a.view, CRLF, 0);
    FoundWithin(a.view, CRLF, 0);
    FoundWithin(a.All(), CRLF, 0);
    if end != -1 {
      FoundInPrefix(a.view, Join(a.blocks), CRLF);
    } else if a.blocks == [] {
      JoinNone();
      assert a.All() == a.view;
    } else {
      OneBlockOn(a.view, a.blocks);
      AfterLineIsRest(Arrival(a.view + a.blocks[0], a.blocks[1..]));
    }
  }

  lemma {:induction false} SkipIsRest(a: Arrival, n: nat)
    requires n <= |a.All()|
    ensures Skip(a, n).All() == a.All()[n..]
    decreases |a.blocks|
  {
    hide Join;
    if n > |a.view| {
      if a.blocks == [] {
        JoinNone();
      } else {
        OneBlockOn(a.view, a.blocks);
        assert a.All()[|a.view|..] == a.blocks[0] + Join(a.blocks[1..]);
        SkipIsRest(Arrival(a.blocks[0], a.blocks[1..]), n - |a.view|);
      }
    }
  }

  /** Whatever the cuts, the reader takes what a strict one takes and takes nothing that a lax one refuses. */
  lemma {:induction false} ArrivedIsBetween(view: string, blocks: seq<string>, limit: nat)
    ensures LineOf(view + Join(blocks), limit, true).Some? ==> Arrived(view, blocks, limit).Some?
    ensures Arrived(view, blocks, limit).Some? ==>
              LineOf(view + Join(blocks), limit, false).Some? && LineOf(view + Join(blocks), limit, false).value.0 == Arrived(view, blocks, limit).value
    decreases |blocks|
  {
    hide Find, At;
    var end := Find(view, CRLF, 0);
    FoundWithin(view, CRLF, 0);
    if end != -1 {
      FoundInPrefix(view, Join(blocks), CRLF);
      assert (view + Join(blocks))[..end] == view[..end];
    } else if !Free(view, '\n') {
      FeedSomewhere(view);
      FeedInLine(view, Join(blocks), 0, limit);
    } else if Overlong(view, limit) {
      LongLine(view, Join(blocks), limit);
    } else if blocks == [] {
      assert view + Join(blocks) == view;
    } else {
      assert view + Join(blocks) == view + blocks[0] + Join(blocks[1..]);
      ArrivedIsBetween(view + blocks[0], blocks[1..], limit);
    }
  }

  lemma FeedSomewhere(view: string)
    requires !Free(view, '\n')
    ensures Find(view, "\n", 0) != -1
  {
    var i :| 0 <= i < |view| && view[i] == '\n';
    assert "\n" == ['\n'];
    CharAt(view, i, '\n');
  }

  /** Reading a line does not depend on the cuts exactly when no line feed stands inside a line that fits. */
  lemma CutsDoNotMatter(s: string, limit: nat)
    ensures (forall cuts: seq<string> :: Join(cuts) == s ==> Arrived("", cuts, limit) == Arrived("", [s], limit))
            <==> (LineOf(s, limit, false).Some? ==> Free(LineOf(s, limit, false).value.0, '\n'))
  {
    hide Arrived, LineOf;
    JoinOne(s);
    EmptyFirst(s);
    LaxLine(s, limit);
    ArrivedIsBetween("", [s], limit);
    forall cuts | Join(cuts) == s
      ensures LineOf(s, limit, true).Some? ==> Arrived("", cuts, limit).Some?
      ensures Arrived("", cuts, limit).Some? ==> LineOf(s, limit, false).Some? && LineOf(s, limit, false).value.0 == Arrived("", cuts, limit).value
    {
      ArrivedIsBetween("", cuts, limit);
    }
    StrictIsClean(s, limit);
    if LineOf(s, limit, false).Some? && !Free(LineOf(s, limit, false).value.0, '\n') {
      var cuts := BadCut(s, limit);
      assert Join(cuts) == s;
    }
  }

  lemma StrictIsClean(s: string, limit: nat)
    ensures LineOf(s, limit, true) ==
            if LineOf(s, limit, false).Some? && Free(LineOf(s, limit, false).value.0, '\n') then LineOf(s, limit, false) else None
  {}

  /** A line with a line feed inside is taken when it arrives at once, and refused when it is cut behind the line feed. */
  lemma BadCut(s: string, limit: nat) returns (cuts: seq<string>)
    requires LineOf(s, limit, false).Some? && !Free(LineOf(s, limit, false).value.0, '\n')
    ensures Join(cuts) == s && Arrived("", cuts, limit) == None && Arrived("", [s], limit).Some?
  {
    var line := LineOf(s, limit, false).value.0;
    var i :| 0 <= i < |line| && line[i] == '\n';
    var first, second := s[..i + 1], s[i + 1..];
    cuts := [first, second];
    assert cuts[1..] == [second];
    JoinOne(second);
    assert first + second == s && first[i] == '\n';
    NoLineEndBefore(s, first, second);
    hide LineOf, Arrived;
    TakenAtOnce(s, limit);
    RefusedInPieces(first, second, limit);
  }

  lemma TakenAtOnce(s: string, limit: nat)
    requires LineOf(s, limit, false).Some?
    ensures Arrived("", [s], limit).Some?
  {
    NothingYet(limit);
    EmptyFirst(s);
    assert [s][1..] == [];
    ArrivedStep("", [s], limit);
    ArrivedStep(s, [], limit);
    hide Find, At, Arrived;
  }

  lemma RefusedInPieces(first: string, second: string, limit: nat)
    requires Find(first, CRLF, 0) == -1 && !Free(first, '\n')
    ensures Arrived("", [first, second], limit) == None
  {
    hide Find, At, Arrived, Free;
    NothingYet(limit);
    FeedSomewhere(first);
    EmptyFirst(first);
    assert [first, second][1..] == [second];
    ArrivedStep("", [first, second], limit);
    ArrivedStep(first, [second], limit);
  }

  lemma NoLineEndBefore(s: string, first: string, second: string)
    requires s == first + second && |first| <= Find(s, CRLF, 0)
    ensures Find(first, CRLF, 0) == -1
  {
    forall j | 0 <= j && j + 2 <= |first| ensures !At(first, j, CRLF) { AtPrefix(first, second, j, CRLF); }
  }

  lemma NothingYet(limit: nat)
    ensures Find("", CRLF, 0) == -1 && Find("", "\n", 0) == -1 && !Overlong("", limit)
  {}

  // ---- chunked bodies

  /** The size on the line in front of a chunk; an extension has to look like a field value. */
  function SizeOf(line: string): Option<nat> {
    var semicolon := Find(line, ";", 0);
    if semicolon == -1 then ParseNumber(line, 16)
    else
      assert At(line, semicolon, ";");
      if line[semicolon + 1..] == "" || !ValidValue(line[semicolon + 1..]) then None
      else ParseNumber(line[..semicolon], 16)
  }

  function ChunkStart(s: string): Option<(nat, string)> {
    var line := LineOf(s, LINE_LIMIT, false);
    if line.None? then None
    else
      var size := SizeOf(line.value.0);
      if size.None? then None else Some((size.value, line.value.1))
  }

  const FORBIDDEN_TRAILERS: seq<string> := [
    "Content-Length", "Transfer-Encoding", "Host", "Connection", "Trailer",
    "TE", "Upgrade", "Content-Encoding", "Content-Type", "Content-Range",
    "Authorization", "Proxy-Authorization", "WWW-Authenticate", "Proxy-Authenticate",
    "Cookie", "Set-Cookie", "Range", "If-Range", "Location", "If-Match",
    "If-None-Match", "If-Modified-Since", "If-Unmodified-Since"]

  predicate Forbidden(name: string) {
    exists i :: 0 <= i < |FORBIDDEN_TRAILERS| && EqualsIgnoreCase(name, FORBIDDEN_TRAILERS[i])
  }

  function TrailerOf(line: string): Option<Field> {
    var colon := Find(line, ":", 0);
    if colon == -1 then None
    else
      assert At(line, colon, ":");
      var name, value := line[..colon], Trim(line[colon + 1..]);
      if !ValidName(name) || !ValidValue(value) || Forbidden(name) then None else Some((name, value))
  }

  /** The trailer fields up to the empty line; `used` bytes of the limit are spent already. */
  function Trailers(s: string, used: nat, limit: nat, strict: bool): Option<(seq<Field>, string)>
    decreases |s|
  {
    var line := LineOf(s, limit, strict);
    if line.None? || used + |line.value.0| + 2 > limit then None
    else if line.value.0 == "" then Some(([], line.value.1))
    else
      var field := TrailerOf(line.value.0);
      if field.None? then None
      else
        Prefixed([field.value], Trailers(line.value.1, used + |line.value.0| + 2, limit, strict))
  }

  /** All payload bytes up to the end or to the first defect, and the trailers and the rest unless there is a defect. */
  datatype Decoded = Decoded(payload: string, end: Option<(seq<Field>, string)>)

  function Dechunked(s: string, received: nat, bodyLimit: nat, headLimit: nat, strict: bool): Decoded
    decreases |s|
  {
    var start := ChunkStart(s);
    if start.None? then Decoded("", None)
    else
      var (size, rest) := start.value;
      if size == 0 then Decoded("", Trailers(rest, 0, headLimit, strict))
      else if received + size > bodyLimit then Decoded("", None)
      else if |rest| < size then Decoded(rest, None)
      else if |rest| < size + 2 || rest[size..size + 2] != CRLF then Decoded(rest[..size], None)
      else
        var more := Dechunked(rest[size + 2..], received + size, bodyLimit, headLimit, strict);
        Delivered(rest[..size], more)
  }

  /** The trailers that are read as they arrive, and what is left behind them. */
  function ArrivedTrailers(a: Arrival, used: nat, limit: nat): Option<(seq<Field>, Arrival)>
    decreases |a.All()|
  {
    var line := Arrived(a.view, a.blocks, limit);
    if line.None? || used + |line.value| + 2 > limit then None
    else if line.value == "" then Some(([], AfterLine(a)))
    else
      var field := TrailerOf(line.value);
      if field.None? then None
      else
        LineLeaves(a, limit);
        Prefixed([field.value], ArrivedTrailers(AfterLine(a), used + |line.value| + 2, limit))
  }

  /** The end of a chunked body that is read as it arrives. */
  function ArrivedChunks(a: Arrival, received: nat, bodyLimit: nat, headLimit: nat): Option<(seq<Field>, Arrival)>
    decreases |a.All()|
  {
    var start := ChunkStart(a.All());
    if start.None? then None
    else
      var (size, rest) := start.value;
      if size == 0 then ArrivedTrailers(AfterLine(a), 0, headLimit)
      else if received + size > bodyLimit || |rest| < size + 2 || rest[size..size + 2] != CRLF then None
      else
        ChunkLeaves(a, size, rest);
        ArrivedChunks(AfterLine(Skip(AfterLine(a), size)), received + size, bodyLimit, headLimit)
  }

  lemma LineLeaves(a: Arrival, limit: nat)
    ensures var line := Arrived(a.view, a.blocks, limit);
            line.Some? ==> |AfterLine(a).All()| < |a.All()| && LineOf(a.All(), limit, false) == Some((line.value, AfterLine(a).All()))
  {
    hide Arrived, AfterLine, Find, At;
    ArrivedIsBetween(a.view, a.blocks, limit);
    AfterLineIsRest(a);
  }

  lemma ChunkLeaves(a: Arrival, size: nat, rest: string)
    requires ChunkStart(a.All()) == Some((size, rest))
    ensures AfterLine(a).All() == rest && |rest| < |a.All()|
    ensures |rest| >= size + 2 && rest[size..size + 2] == CRLF ==> AfterLine(Skip(AfterLine(a), size)).All() == rest[size + 2..]
  {
    hide AfterLine, Find, At, SizeOf, Skip;
    AfterLineIsRest(a);
    if |rest| >= size + 2 && rest[size..size + 2] == CRLF {
      SkipIsRest(AfterLine(a), size);
      LineEndFirst(rest[size..]);
      AfterLineIsRest(Skip(AfterLine(a), size));
    }
  }

  lemma LineEndFirst(s: string)
    requires |s| >= 2 && s[..2] == CRLF
    ensures Find(s, CRLF, 0) == 0
  {
    assert s[0..2] == CRLF;
    FindIs(s, CRLF, 0, 0);
  }

  /** Trailers are read as they arrive if a strict reader takes them, and only if a lax one does. */
  lemma {:induction false} TrailersAreBetween(a: Arrival, used: nat, limit: nat)
    ensures Trailers(a.All(), used, limit, true).Some? ==> ArrivedTrailers(a, used, limit).Some?
    ensures ArrivedTrailers(a, used, limit).Some? ==> Trailers(a.All(), used, limit, false) == Left(ArrivedTrailers(a, used, limit))
    decreases |a.All()|
  {
    hide Arrived, AfterLine, LineOf, TrailerOf;
    var line := Arrived(a.view, a.blocks, limit);
    ArrivedIsBetween(a.view, a.blocks, limit);
    LineLeaves(a, limit);
    LaxLine(a.All(), limit);
    if line.Some? && line.value != "" { TrailersAreBetween(AfterLine(a), used + |line.value| + 2, limit); }
  }

  lemma {:induction false} ChunksAreBetween(a: Arrival, received: nat, bodyLimit: nat, headLimit: nat)
    ensures Dechunked(a.All(), received, bodyLimit, headLimit, true).end.Some? ==> ArrivedChunks(a, received, bodyLimit, headLimit).Some?
    ensures ArrivedChunks(a, received, bodyLimit, headLimit).Some? ==>
              Dechunked(a.All(), received, bodyLimit, headLimit, false).end == Left(ArrivedChunks(a, received, bodyLimit, headLimit))
    decreases |a.All()|
  {
    hide ChunkStart, AfterLine, Skip, Trailers, ArrivedTrailers;
    var start := ChunkStart(a.All());
    if start.Some? {
      var (size, rest) := start.value;
      ChunkLeaves(a, size, rest);
      if size == 0 {
        TrailersAreBetween(AfterLine(a), 0, headLimit);
      } else if received + size <= bodyLimit && |rest| >= size + 2 && rest[size..size + 2] == CRLF {
        ChunksAreBetween(AfterLine(Skip(AfterLine(a), size)), received + size, bodyLimit, headLimit);
      }
    }
  }

  /** What the next chunk adds to a chunked body. */
  lemma ChunkStep(a: Arrival, received: nat, bodyLimit: nat, headLimit: nat)
    ensures var start, end := ChunkStart(a.All()), ArrivedChunks(a, received, bodyLimit, headLimit);
            var payload := Dechunked(a.All(), received, bodyLimit, headLimit, false).payload;
            if start.None? then payload == "" && end.None?
            else
              var (size, rest) := start.value;
              if size == 0 then payload == "" && end == ArrivedTrailers(AfterLine(a), 0, headLimit)
              else if received + size > bodyLimit then payload == "" && end.None?
              else if |rest| < size then payload == rest && end.None?
              else if |rest| < size + 2 || rest[size..size + 2] != CRLF then payload == rest[..size] && end.None?
              else
                && payload == rest[..size] + Dechunked(rest[size + 2..], received + size, bodyLimit, headLimit, false).payload
                && end == ArrivedChunks(AfterLine(Skip(AfterLine(a), size)), received + size, bodyLimit, headLimit)
  {
    hide ChunkStart, Trailers, ArrivedTrailers, AfterLine, Skip;
  }

  /** What is left, as bytes. */
  function Left(r: Option<(seq<Field>, Arrival)>): Option<(seq<Field>, string)> {
    if r.None? then None else Some((r.value.0, r.value.1.All()))
  }

  lemma {:induction false} DechunkedWithinLimit(s: string, received: nat, bodyLimit: nat, headLimit: nat, strict: bool)
    requires received <= bodyLimit
    ensures received + |Dechunked(s, received, bodyLimit, headLimit, strict).payload| <= bodyLimit
    decreases |s|
  {
    hide ChunkStart;
    var start := ChunkStart(s);
    if start.Some? {
      var (size, rest) := start.value;
      if size != 0 && received + size <= bodyLimit && |rest| >= size + 2 && rest[size..size + 2] == CRLF {
        ChunkStartIsShorter(s);
        DechunkedWithinLimit(rest[size + 2..], received + size, bodyLimit, headLimit, strict);
      }
    }
  }

  lemma ChunkStartIsShorter(s: string)
    requires ChunkStart(s).Some?
    ensures |ChunkStart(s).value.1| < |s|
  {}

  /** A size line with a line feed in it is not a size line, so only trailers can be read differently. */
  lemma SizeLineIsOneLine(line: string)
    requires !Free(line, '\n')
    ensures SizeOf(line) == None
  {
    var i :| 0 <= i < |line| && line[i] == '\n';
    var semicolon := Find(line, ";", 0);
    if semicolon != -1 {
      assert At(line, semicolon, ";");
      assert line[semicolon..semicolon + 1][0] == ';';
    }
    hide Find, At, Value;
    if semicolon == -1 {
      FeedIsNoDigit(line, i);
    } else if i < semicolon {
      FeedIsNoDigit(line[..semicolon], i);
    } else {
      assert line[semicolon + 1..][i - semicolon - 1] == '\n';
    }
  }

  lemma FeedIsNoDigit(s: string, i: nat)
    requires i < |s| && s[i] == '\n'
    ensures ParseNumber(s, 16) == None
  {
    hide Value;
    assert !IsDigit(s[i], 16);
  }

  // ---- bodies

  datatype Limits = Limits(head: nat, body: nat)

  /** The body at the start of the pending bytes, its trailers, and the bytes behind it. */
  function BodyOf(s: string, chunked: bool, length: Option<nat>, untilEof: bool, limits: Limits, strict: bool)
    : Option<(string, seq<Field>, string)>
  {
    if chunked then
      var decoded := Dechunked(s, 0, limits.body, limits.head, strict);
      if decoded.end.None? then None else Some((decoded.payload, decoded.end.value.0, decoded.end.value.1))
    else if length.Some? then
      if length.value > limits.body || length.value > |s| then None else Some((s[..length.value], [], s[length.value..]))
    else if untilEof then
      if |s| > limits.body then None else Some((s, [], ""))
    else Some(("", [], s))
  }

  /** The body that is read as it arrives, its trailers, and what is left behind it. */
  function ArrivedBody(a: Arrival, chunked: bool, length: Option<nat>, untilEof: bool, limits: Limits)
    : Option<(string, seq<Field>, Arrival)>
  {
    if chunked then
      var end := ArrivedChunks(a, 0, limits.body, limits.head);
      if end.None? then None
      else Some((Dechunked(a.All(), 0, limits.body, limits.head, false).payload, end.value.0, end.value.1))
    else if length.Some? then
      if length.value > limits.body || length.value > |a.All()| then None
      else Some((a.All()[..length.value], [], Skip(a, length.value)))
    else if untilEof then
      if |a.All()| > limits.body then None else Some((a.All(), [], Arrival("", [])))
    else Some(("", [], a))
  }

  /** Every body is read if a strict reader takes it, and only as a lax one would. */
  lemma BodyIsBetween(a: Arrival, chunked: bool, length: Option<nat>, untilEof: bool, limits: Limits)
    ensures BodyOf(a.All(), chunked, length, untilEof, limits, true).Some? ==> ArrivedBody(a, chunked, length, untilEof, limits).Some?
    ensures var r := ArrivedBody(a, chunked, length, untilEof, limits);
            r.Some? ==> BodyOf(a.All(), chunked, length, untilEof, limits, false) == Some((r.value.0, r.value.1, r.value.2.All()))
  {
    hide Dechunked, ArrivedChunks, Skip;
    ChunksAreBetween(a, 0, limits.body, limits.head);
    if length.Some? && length.value <= |a.All()| { SkipIsRest(a, length.value); }
    JoinNone();
    EmptyFirst("");
  }

  // ---- the reader

  /** A connection with the blocks that are still to arrive before the peer closes it. */
  class Reader {
    const buffer: Buffer<char>
    var blocks: seq<string>
    /** the body bytes handed to the consumer */
    var delivered: string

    ghost predicate Valid()
      reads this, buffer
    {
      buffer.Valid()
    }

    ghost function Pending(): string
      requires Valid()
      reads this, buffer
    {
      buffer.View() + Join(blocks)
    }

    ghost function Arriving(): Arrival
      requires Valid()
      reads this, buffer
    {
      Arrival(buffer.View(), blocks)
    }

    constructor (arriving: seq<string>)
      ensures Valid() && Pending() == Join(arriving) && blocks == arriving && fresh(buffer)
    {
      buffer := new Buffer();
      blocks, delivered := arriving, "";
    }

    method Receive() returns (block: Option<string>)
      requires Valid()
      modifies this`blocks
      ensures Valid()
      ensures block.None? ==> old(blocks) == [] && blocks == []
      ensures block.Some? ==> old(blocks) != [] && old(blocks) == [block.value] + blocks
    {
      if blocks == [] { return None; }
      block := Some(blocks[0]);
      blocks := blocks[1..];
    }

    /** Appends the next block to the buffer; the pending bytes stay the same. */
    method Fill(spare: nat) returns (more: bool)
      requires Valid()
      modifies this`blocks, buffer
      ensures Valid() && Pending() == old(Pending())
      ensures more ==> old(blocks) != [] && blocks == old(blocks)[1..] && buffer.View() == old(buffer.View()) + old(blocks)[0]
      ensures !more ==> old(blocks) == [] && old(Pending()) == old(buffer.View()) && buffer.View() == old(buffer.View())
    {
      var block := Receive();
      if block.None? { return false; }
      JoinFirst(block.value, blocks);
      buffer.AppendView(block.value, spare);
      more := true;
    }

    /** What is left of the stream. */
    method Rest() returns (rest: string)
      requires Valid()
      ensures rest == Pending()
    {
      rest := buffer.View() + Join(blocks);
    }

    /** The start of the next head, up to the line end in front of the empty line; it stays in the buffer.
        `read_head_bytes` */
    method ReadHead(limit: nat) returns (r: Option<string>)
      requires Valid()
      modifies this`blocks, buffer
      ensures Valid() && Pending() == old(Pending())
      ensures var end := Find(Pending(), HEAD_END, 0);
              if end == -1 || end + 4 > limit then r == None
              else r == Some(Pending()[..end + 2]) && |buffer.View()| >= end + 4
    {
      hide Find, At;
      var from: nat := 0;
      while true
        invariant Valid() && Pending() == old(Pending()) && from <= |buffer.View()|
        invariant Find(buffer.View(), HEAD_END, from) == Find(buffer.View(), HEAD_END, 0)
        decreases |blocks|
      {
        var view := buffer.View();
        var end := Find(view, HEAD_END, from);
        FoundWithin(view, HEAD_END, 0);
        if end != -1 {
          FoundInPrefix(view, Join(blocks), HEAD_END);
          if end + 4 > limit { return None; }
          assert view[..end + 2] == Pending()[..end + 2];
          return Some(view[..end + 2]);
        }
        NotInPrefix(view, Join(blocks), HEAD_END);
        FoundWithin(Pending(), HEAD_END, 0);
        if buffer.Size() >= limit { return None; }
        from := if |view| > 3 then |view| - 3 else 0;
        var more := Fill(limit);
        if !more { return None; }
        assert buffer.View() == view + buffer.View()[|view|..];
        FindResumed(view, buffer.View()[|view|..], HEAD_END, from);
      }
    }

    /** `read_line`: a line feed is refused only while the line end has not arrived. */
    method ReadLine(limit: nat) returns (r: Option<string>)
      requires Valid()
      modifies this`blocks, buffer
      ensures Valid()
      ensures r == Arrived(old(buffer.View()), old(blocks), limit)
      ensures r.Some? ==> Arriving() == AfterLine(old(Arriving()))
      ensures LineOf(old(Pending()), limit, true).Some? ==> r.Some?
      ensures r.Some? ==> LineOf(old(Pending()), limit, false) == Some((r.value, Pending()))
    {
      hide Find, At, Arrived, Join;
      ghost var goal := Arrived(buffer.View(), blocks, limit);
      ArrivedIsBetween(buffer.View(), blocks, limit);
      var from: nat := 0;
      while true
        invariant Valid() && Pending() == old(Pending()) && from <= |buffer.View()|
        invariant Find(buffer.View(), CRLF, from) == Find(buffer.View(), CRLF, 0)
        invariant Find(buffer.View(), "\n", from) == Find(buffer.View(), "\n", 0)
        invariant Arrived(buffer.View(), blocks, limit) == goal
        invariant AfterLine(Arriving()) == AfterLine(old(Arriving()))
        decreases |blocks|
      {
        var view := buffer.View();
        var end := Find(view, CRLF, from);
        FoundWithin(view, CRLF, 0);
        ArrivedStep(view, blocks, limit);
        if end != -1 {
          FoundInPrefix(view, Join(blocks), CRLF);
          if end > limit { return None; }
          buffer.Consume(end + 2);
          assert Pending() == old(Pending())[end + 2..];
          assert old(Pending())[..end] == view[..end];
          return Some(view[..end]);
        }
        NotInPrefix(view, Join(blocks), CRLF);
        var feed := Find(view, "\n", from);
        if feed != -1 { return None; }
        if |view| > limit && (|view| - limit != 1 || view[|view| - 1] != '\r') { return None; }
        from := if |view| == 0 then 0 else |view| - 1;
        var more := Fill(limit);
        if !more { return None; }
        assert buffer.View() == view + buffer.View()[|view|..];
        FindResumed(view, buffer.View()[|view|..], CRLF, from);
        FindResumed(view, buffer.View()[|view|..], "\n", from);
      }
    }

    /** The size of the next chunk. A size line that is in the buffer is parsed there. */
    method ReadSize() returns (r: Option<nat>)
      requires Valid()
      modifies this`blocks, buffer
      ensures Valid()
      ensures r.None? <==> ChunkStart(old(Pending())).None?
      ensures r.Some? ==> ChunkStart(old(Pending())) == Some((r.value, Pending())) && Arriving() == AfterLine(old(Arriving()))
    {
      hide Find, At, SizeOf;
      ghost var pending := Pending();
      var view := buffer.View();
      var buffered := Find(view, CRLF, 0);
      if buffered != -1 {
        FoundWithin(view, CRLF, 0);
        FoundInPrefix(view, Join(blocks), CRLF);
        assert pending[..buffered] == view[..buffered];
        if buffered > LINE_LIMIT { return None; }
        r := SizeOf(view[..buffered]);
        if r.Some? {
          buffer.Consume(buffered + 2);
          assert Pending() == pending[buffered + 2..];
        }
      } else {
        var line := ReadLine(LINE_LIMIT);
        LaxOrBroken(pending);
        if line.None? { return None; }
        r := SizeOf(line.value);
      }
    }

    /** `deliver_now` of a consumer that accepts every block */
    method Deliver(data: string, limit: nat) returns (ok: bool)
      modifies this`delivered
      ensures ok <==> data == "" || |old(delivered)| + |data| <= limit
      ensures delivered == if ok then old(delivered) + data else old(delivered)
    {
      if data == "" { return true; }
      if |data| > limit || |delivered| > limit - |data| { return false; }
      delivered := delivered + data;
      ok := true;
    }

    /** Hands on a block straight from the connection and buffers what is not wanted yet. */
    method DeliverBlock(block: string, remaining: nat, limit: nat, spare: nat) returns (direct: nat)
      requires Valid() && buffer.View() == "" && |delivered| + remaining <= limit
      modifies this`delivered, buffer
      ensures Valid() && direct == (if remaining < |block| then remaining else |block|) && |delivered| == |old(delivered)| + direct
      ensures buffer.View() == block[direct..]
      ensures delivered + buffer.View() == old(delivered) + block
    {
      direct := if remaining < |block| then remaining else |block|;
      var _ := Deliver(block[..direct], limit);
      if direct < |block| {
        EmptyFirst(block[direct..]);
        buffer.AppendView(block[direct..], spare);
      }
      Recut(old(delivered), block, direct);
    }

    method DeliverBuffered(remaining: nat, limit: nat) returns (count: nat)
      requires Valid() && remaining > 0 && buffer.View() != "" && |delivered| + remaining <= limit
      modifies this`delivered, buffer
      ensures Valid() && 0 < count <= remaining && |delivered| == |old(delivered)| + count
      ensures count == (if remaining < |old(buffer.View())| then remaining else |old(buffer.View())|)
      ensures buffer.View() == old(buffer.View())[count..]
      ensures delivered + buffer.View() == old(delivered + buffer.View()) && |buffer.View()| < |old(buffer.View())|
    {
      var view := buffer.View();
      count := if remaining < |view| then remaining else |view|;
      var _ := Deliver(view[..count], limit);
      buffer.Consume(count);
      Recut(old(delivered), view, count);
    }

    /** Hands on the next `total` bytes, from the buffer or straight from arriving blocks. */
    method DeliverExactly(total: nat, limit: nat, spare: nat) returns (ok: bool)
      requires Valid() && |delivered| + total <= limit
      modifies this`blocks, this`delivered, buffer
      ensures Valid()
      ensures ok <==> total <= |old(Pending())|
      ensures ok ==> delivered == old(delivered) + old(Pending())[..total] && Pending() == old(Pending())[total..]
      ensures ok ==> Arriving() == Skip(old(Arriving()), total)
      ensures !ok ==> delivered == old(delivered) + old(Pending())
    {
      hide Skip, Join;
      JoinNone();
      ghost var start, before, pending := |delivered|, delivered, Pending();
      var remaining := total;
      while remaining > 0
        invariant Valid() && 0 <= remaining <= total && |delivered| == start + total - remaining
        invariant delivered + Pending() == before + pending
        invariant Skip(Arriving(), remaining) == Skip(old(Arriving()), total)
        decreases |blocks|, |buffer.View()|
      {
        ghost var earlier := delivered;
        if buffer.Size() == 0 {
          var block := Receive();
          EmptyFirst(earlier);
          EmptyFirst("");
          if block.None? { return false; }
          JoinFirst(block.value, blocks);
          Regroup(earlier, block.value, Join(blocks));
          EmptyFirst(Join(blocks));
          SkipBlock(block.value, blocks, remaining);
          if block.value != "" {
            var direct := DeliverBlock(block.value, remaining, limit, spare);
            remaining := remaining - direct;
            Regroup(delivered, buffer.View(), Join(blocks));
          }
          continue;
        }
        Regroup(earlier, buffer.View(), Join(blocks));
        SkipBuffered(Arriving(), remaining);
        var count := DeliverBuffered(remaining, limit);
        remaining := remaining - count;
        Regroup(delivered, buffer.View(), Join(blocks));
      }
      SkipNothing(Arriving());
      Splits(before, pending, delivered, Pending(), total);
      ok := true;
    }

    /** The line end behind the data of a chunk. */
    method ReadLineEnd(spare: nat) returns (ok: bool)
      requires Valid()
      modifies this`blocks, buffer
      ensures Valid()
      ensures ok <==> |old(Pending())| >= 2 && old(Pending())[..2] == CRLF
      ensures ok ==> Pending() == old(Pending())[2..] && Arriving() == AfterLine(old(Arriving()))
    {
      hide AfterLine, Join, Find, At;
      ghost var pending := Pending();
      while buffer.Size() < 2
        invariant Valid() && Pending() == pending
        invariant AfterLine(Arriving()) == AfterLine(old(Arriving()))
        decreases |blocks|
      {
        FoundWithin(buffer.View(), CRLF, 0);
        AfterLineStep(Arriving());
        var more := Fill(spare);
        if !more { return false; }
      }
      var view := buffer.View();
      assert view[0] == pending[0] && view[1] == pending[1];
      if view[0] != '\r' || view[1] != '\n' { return false; }
      LineEndFirst(view);
      AfterLineStep(Arriving());
      buffer.Consume(2);
      assert Pending() == pending[2..];
      ok := true;
    }

    /** The trailer part of a chunked body. */
    method ReadTrailers(limit: nat) returns (r: Option<seq<Field>>)
      requires Valid()
      modifies this`blocks, buffer
      ensures Valid()
      ensures r.None? <==> ArrivedTrailers(old(Arriving()), 0, limit).None?
      ensures r.Some? ==> ArrivedTrailers(old(Arriving()), 0, limit) == Some((r.value, Arriving()))
    {
      hide Arrived, AfterLine, TrailerOf;
      var fields: seq<Field> := [];
      var used: nat := 0;
      ghost var goal := ArrivedTrailers(Arriving(), 0, limit);
      assert goal.Some? ==> [] + goal.value.0 == goal.value.0;
      while true
        invariant Valid()
        invariant goal == Prefixed(fields, ArrivedTrailers(Arriving(), used, limit))
        decreases |Pending()|
      {
        LineLeaves(Arriving(), limit);
        var line := ReadLine(limit);
        if line.None? { return None; }
        if |line.value| > limit || used > limit - |line.value| || limit - used - |line.value| < 2 { return None; }
        if line.value == "" {
          assert fields + [] == fields;
          return Some(fields);
        }
        var field := TrailerOf(line.value);
        if field.None? { return None; }
        PrefixedStep(fields, field.value, ArrivedTrailers(Arriving(), used + |line.value| + 2, limit));
        used := used + |line.value| + 2;
        fields := fields + [field.value];
      }
    }

    /** A chunked body: whatever happens, the consumer gets exactly the payload up to the first defect. */
    method ReadChunked(bodyLimit: nat, headLimit: nat, spare: nat) returns (r: Option<seq<Field>>)
      requires Valid() && delivered == ""
      modifies this`blocks, this`delivered, buffer
      ensures Valid()
      ensures delivered == Dechunked(old(Pending()), 0, bodyLimit, headLimit, false).payload
      ensures r.None? <==> ArrivedChunks(old(Arriving()), 0, bodyLimit, headLimit).None?
      ensures r.Some? ==> ArrivedChunks(old(Arriving()), 0, bodyLimit, headLimit) == Some((r.value, Arriving()))
    {
      hide ChunkStart, Trailers, ArrivedTrailers, AfterLine, Skip, Join, Find, At, Dechunked, ArrivedChunks;
      ghost var lax := Dechunked(Pending(), 0, bodyLimit, headLimit, false);
      EmptyFirst(lax.payload);
      while true
        invariant Valid() && |delivered| <= bodyLimit
        invariant lax.payload == delivered + Dechunked(Pending(), |delivered|, bodyLimit, headLimit, false).payload
        invariant ArrivedChunks(Arriving(), |delivered|, bodyLimit, headLimit) == ArrivedChunks(old(Arriving()), 0, bodyLimit, headLimit)
        decreases |Pending()|
      {
        ghost var pending, before := Pending(), delivered;
        EmptyFirst(before);
        ChunkStep(Arriving(), |delivered|, bodyLimit, headLimit);
        var size := ReadSize();
        if size.None? { return None; }
        ChunkStartIsShorter(pending);
        if size.value == 0 {
          r := ReadTrailers(headLimit);
          return;
        }
        if size.value > bodyLimit || |delivered| > bodyLimit - size.value { return None; }
        ghost var rest := Pending();
        var complete := DeliverExactly(size.value, bodyLimit, spare);
        if !complete { return None; }
        var ended := ReadLineEnd(spare);
        assert |rest[size.value..]| >= 2 ==> rest[size.value..][..2] == rest[size.value..size.value + 2];
        if !ended { return None; }
        assert rest[size.value..][2..] == rest[size.value + 2..];
        Regroup(before, rest[..size.value], Dechunked(Pending(), |delivered|, bodyLimit, headLimit, false).payload);
      }
    }

    /** A body of announced length. */
    method ReadSized(total: nat, limit: nat, spare: nat) returns (ok: bool)
      requires Valid() && delivered == ""
      modifies this`blocks, this`delivered, buffer
      ensures Valid() && |delivered| <= limit
      ensures ok <==> total <= limit && total <= |old(Pending())|
      ensures ok ==> delivered == old(Pending())[..total] && Pending() == old(Pending())[total..]
      ensures ok ==> Arriving() == Skip(old(Arriving()), total)
      ensures !ok ==> delivered <= old(Pending())
    {
      if total > limit { return false; }
      ok := DeliverExactly(total, limit, spare);
    }

    /** A body that ends with the connection. */
    method ReadUntilEof(limit: nat) returns (ok: bool)
      requires Valid() && delivered == ""
      modifies this`blocks, this`delivered, buffer
      ensures Valid() && |delivered| <= limit
      ensures ok <==> |old(Pending())| <= limit
      ensures ok ==> delivered == old(Pending()) && Arriving() == Arrival("", [])
      ensures !ok ==> delivered <= old(Pending())
    {
      hide Join;
      ghost var all := Pending();
      EmptyFirst(buffer.View());
      ok := Deliver(buffer.View(), limit);
      buffer.Clear();
      if !ok { return; }
      JoinNone();
      while true
        invariant Valid() && buffer.View() == "" && |delivered| <= limit
        invariant delivered + Join(blocks) == all
        decreases |blocks|
      {
        EmptyFirst(delivered);
        var block := Receive();
        if block.None? { return true; }
        JoinFirst(block.value, blocks);
        Regroup(delivered, block.value, Join(blocks));
        ok := Deliver(block.value, limit);
        if !ok { return; }
      }
    }

    /** `read_body` of a message that may have a body */
    method ReadBody(chunked: bool, length: Option<nat>, untilEof: bool, limits: Limits, spare: nat) returns (r: Option<seq<Field>>)
      requires Valid()
      modifies this`blocks, this`delivered, buffer
      ensures Valid() && |delivered| <= limits.body
      ensures r.None? <==> ArrivedBody(old(Arriving()), chunked, length, untilEof, limits).None?
      ensures r.Some? ==> ArrivedBody(old(Arriving()), chunked, length, untilEof, limits) == Some((delivered, r.value, Arriving()))
      ensures BodyOf(old(Pending()), chunked, length, untilEof, limits, true).Some? ==> r.Some?
      ensures r.Some? ==> BodyOf(old(Pending()), chunked, length, untilEof, limits, false) == Some((delivered, r.value, Pending()))
    {
      hide Dechunked, ArrivedChunks, Skip;
      BodyIsBetween(Arriving(), chunked, length, untilEof, limits);
      delivered := "";
      DechunkedWithinLimit(Pending(), 0, limits.body, limits.head, false);
      if chunked {
        r := ReadChunked(limits.body, limits.head, spare);
        return;
      }
      var ok := true;
      if length.Some? {
        ok := ReadSized(length.value, limits.body, spare);
      } else if untilEof {
        ok := ReadUntilEof(limits.body);
      }
      r := if ok then Some([]) else None;
    }
  }

  lemma SkipBuffered(a: Arrival, n: nat)
    requires a.view != ""
    ensures var count := if n < |a.view| then n else |a.view|;
            Skip(a, n) == Skip(Arrival(a.view[count..], a.blocks), n - count)
  {
    if n > |a.view| && a.blocks == [] { SkipMissing(n - |a.view|); }
  }

  /** Nothing is in the buffer, and a block arrives. */
  lemma SkipBlock(block: string, blocks: seq<string>, n: nat)
    requires n > 0
    ensures var count := if n < |block| then n else |block|;
            Skip(Arrival("", [block] + blocks), n) == Skip(Arrival(block[count..], blocks), n - count)
  {
    assert ([block] + blocks)[1..] == blocks;
    assert Skip(Arrival("", [block] + blocks), n) == Skip(Arrival(block, blocks), n);
    if block != "" { SkipBuffered(Arrival(block, blocks), n); }
  }

  lemma SkipMissing(n: nat)
    requires n > 0
    ensures Skip(Arrival("", []), n) == Arrival("", [])
  {}

  lemma SkipNothing(a: Arrival)
    ensures Skip(a, 0) == a
  {}

  function Delivered(payload: string, more: Decoded): Decoded {
    Decoded(payload + more.payload, more.end)
  }

  lemma DeliveredStep(a: string, b: string, more: Decoded)
    ensures Delivered(a, Delivered(b, more)) == Delivered(a + b, more)
  {
    Regroup(a, b, more.payload);
  }

  function Prefixed<T>(fields: seq<Field>, r: Option<(seq<Field>, T)>): Option<(seq<Field>, T)> {
    if r.None? then None else Some((fields + r.value.0, r.value.1))
  }

  lemma PrefixedStep<T>(fields: seq<Field>, field: Field, r: Option<(seq<Field>, T)>)
    ensures Prefixed(fields, Prefixed([field], r)) == Prefixed(fields + [field], r)
  {
    if r.Some? { assert fields + ([field] + r.value.0) == fields + [field] + r.value.0; }
  }

  lemma LaxLine(s: string, limit: nat)
    ensures LineOf(s, limit, true).Some? ==> LineOf(s, limit, false) == LineOf(s, limit, true)
  {}

  lemma LineIsShorter(s: string, limit: nat)
    ensures LineOf(s, limit, false).Some? ==> |LineOf(s, limit, false).value.1| < |s|
  {}

  /** A size line that only a lax reader takes is refused as a size. */
  lemma LaxOrBroken(s: string)
    ensures LineOf(s, LINE_LIMIT, true) == None ==> ChunkStart(s) == None
  {
    var line := LineOf(s, LINE_LIMIT, false);
    if line.Some? && LineOf(s, LINE_LIMIT, true) == None { SizeLineIsOneLine(line.value.0); }
  }

  lemma ArrivedStep(view: string, blocks: seq<string>, limit: nat)
    ensures var end := Find(view, CRLF, 0);
            && -1 <= end <= |view|
            && (end != -1 ==> Arrived(view, blocks, limit) == if end > limit then None else Some(view[..end]))
            && (end == -1 && (Find(view, "\n", 0) != -1 || Overlong(view, limit) || blocks == []) ==> Arrived(view, blocks, limit) == None)
            && (end == -1 && Find(view, "\n", 0) == -1 && !Overlong(view, limit) && blocks != [] ==>
                  Arrived(view, blocks, limit) == Arrived(view + blocks[0], blocks[1..], limit))
  {
    FoundWithin(view, CRLF, 0);
    if Find(view, "\n", 0) != -1 { FeedAt(view, 0); } else if !Free(view, '\n') { FeedSomewhere(view); }
    hide Find, At;
  }

  lemma LineEndAt(s: string)
    requires Find(s, CRLF, 0) != -1
    ensures var end := Find(s, CRLF, 0); 0 <= end <= |s| - 2 && s[end] == '\r' && s[end + 1] == '\n'
  {
    var end := Find(s, CRLF, 0);
    assert At(s, end, CRLF);
    assert s[end..end + 2][0] == s[end] && s[end..end + 2][1] == s[end + 1];
  }

  lemma FeedAt(s: string, from: nat)
    requires Find(s, "\n", from) != -1
    ensures var feed := Find(s, "\n", from); 0 <= feed < |s| && s[feed] == '\n'
  {
    var feed := Find(s, "\n", from);
    assert At(s, feed, "\n");
    assert s[feed..feed + 1][0] == s[feed];
  }

  /** A line feed in the buffer, without a line end, is inside the line or there is no line. */
  lemma FeedInLine(view: string, more: string, from: nat, limit: nat)
    requires Find(view, CRLF, 0) == -1 && Find(view, "\n", from) != -1
    ensures LineOf(view + more, limit, true) == None
  {
    var feed, end := Find(view, "\n", from), Find(view + more, CRLF, 0);
    NotInPrefix(view, more, CRLF);
    FeedAt(view, from);
    if end != -1 { LineEndAt(view + more); }
    hide Find, At;
    if end != -1 {
      assert feed != end;
      assert (view + more)[..end][feed] == '\n';
    }
  }

  lemma LongLine(view: string, more: string, limit: nat)
    requires Find(view, CRLF, 0) == -1
    requires |view| > limit && (|view| - limit != 1 || view[|view| - 1] != '\r')
    ensures LineOf(view + more, limit, false) == None
  {
    var end := Find(view + more, CRLF, 0);
    NotInPrefix(view, more, CRLF);
    if end != -1 { LineEndAt(view + more); }
    hide Find, At;
    if end != -1 && end == |view| - 1 { assert (view + more)[end] == view[end]; }
  }

  lemma Splits(a: string, b: string, c: string, d: string, n: nat)
    requires a + b == c + d && |c| == |a| + n
    ensures n <= |b| && c == a + b[..n] && d == b[n..]
  {
    assert |b| == n + |d|;
    assert (a + b)[..|a| + n] == a + b[..n] && (c + d)[..|a| + n] == c;
    assert (a + b)[|a| + n..] == b[n..] && (c + d)[|a| + n..] == d;
  }

  lemma Recut(a: string, b: string, n: nat)
    requires n <= |b|
    ensures a + b[..n] + b[n..] == a + b
    ensures n == |b| ==> b[n..] == ""
  {
    assert b == b[..n] + b[n..];
  }
}
