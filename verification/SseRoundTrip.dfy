/** Printing events and parsing them back. */
module SseRoundTrip {
  import opened Wrappers
  import opened Text
  import opened Sse

  /** `SseEvent` as a server fills it in; `retry` is a signed count of milliseconds. */
  datatype Outgoing = Outgoing(data: string, event: string, id: string, retry: Option<int>)

  function SignedText(n: int): string {
    if n < 0 then "-" + NumberText(-n, 10) else NumberText(n, 10)
  }

  function Field(name: string, value: string): string {
    name + ": " + value + "\n"
  }

  function DataLines(data: string): string
    decreases |data|
  {
    var end := Find(data, "\n", 0);
    if end == -1 then Field("data", data) else Field("data", data[..end]) + DataLines(data[end + 1..])
  }

  function Head(e: Outgoing): string {
    (if e.event == "" then "" else Field("event", e.event)) +
    (if e.id == "" then "" else Field("id", e.id)) +
    (if e.retry.None? then "" else Field("retry", SignedText(e.retry.value)))
  }

  function Format(e: Outgoing): string {
    Head(e) + DataLines(e.data) + "\n"
  }

  lemma Literals(value: string)
    ensures Field("event", value) == "event: " + value + "\n"
    ensures Field("id", value) == "id: " + value + "\n"
    ensures Field("retry", value) == "retry: " + value + "\n"
    ensures Field("data", value) == "data: " + value + "\n"
  {
    assert "event" + ": " == "event: " && "id" + ": " == "id: " && "retry" + ": " == "retry: " && "data" + ": " == "data: ";
  }

  /** `format_sse` */
  method FormatSse(e: Outgoing) returns (output: string)
    ensures output == Format(e)
  {
    hide SignedText, DataLines;
    output := "";
    if e.event != "" {
      Literals(e.event);
      output := output + ("event: " + e.event + "\n");
    }
    if e.id != "" {
      Literals(e.id);
      output := output + ("id: " + e.id + "\n");
    }
    if e.retry.Some? {
      Literals(SignedText(e.retry.value));
      output := output + ("retry: " + SignedText(e.retry.value) + "\n");
    }
    assert output == Head(e);
    var lines := FormatData(e.data);
    output := output + lines + "\n";
  }

  /** The line of `data` that starts at `start`; `end` is where `find` sees its line feed. */
  function Line(data: string, start: nat, end: int): string
    requires start <= |data| && (end == -1 || start <= end <= |data|)
  {
    if end == -1 then data[start..] else data[start..end]
  }

  lemma SliceOfSuffix(s: string, start: nat, end: nat)
    requires start <= end < |s|
    ensures s[start..][..end - start] == s[start..end] && s[start..][end - start + 1..] == s[end + 1..]
  {}

  lemma DataLinesStep(data: string)
    ensures var end := Find(data, "\n", 0);
            && (end == -1 || 0 <= end < |data|)
            && DataLines(data) == Field("data", Line(data, 0, end)) + (if end == -1 then "" else DataLines(data[end + 1..]))
  {
    assert data[0..] == data;
  }

  lemma DataLinesFrom(data: string, start: nat)
    requires start <= |data|
    ensures var end := Find(data, "\n", start);
            && (end == -1 || start <= end < |data|)
            && DataLines(data[start..]) ==
               "data: " + Line(data, start, end) + "\n" + (if end == -1 then "" else DataLines(data[end + 1..]))
  {
    hide DataLines, Find, At, Field;
    var rest := data[start..];
    DataLinesStep(rest);
    FindInSuffix(data, "\n", start);
    var end := Find(data, "\n", start);
    Literals(Line(data, start, end));
    if end == -1 {
      assert Line(rest, 0, -1) == rest;
    } else {
      SliceOfSuffix(data, start, end);
    }
  }

  /** The loop of `format_sse`. */
  method FormatData(data: string) returns (output: string)
    ensures output == DataLines(data)
  {
    hide DataLines, Find, At;
    output := "";
    var start := 0;
    ghost var all := DataLines(data);
    ghost var todo := all;
    assert data[0..] == data;
    while start <= |data|
      invariant 0 <= start <= |data|
      invariant todo == DataLines(data[start..])
      invariant all == output + todo
      decreases |data| - start
    {
      DataLinesFrom(data, start);
      var end := Find(data, "\n", start);
      var line := "data: " + Line(data, start, end) + "\n";
      ghost var rest := if end == -1 then "" else DataLines(data[end + 1..]);
      assert todo == line + rest;
      Regroup(output, line, rest);
      output, todo := output + line, rest;
      if end == -1 { return; }
      start := end + 1;
    }
  }

  // ---- what comes back

  /** Events that can be written on the wire at all. */
  predicate Printable(e: Outgoing) {
    Free(e.data, '\r') && OneLine(e.event) && OneLine(e.id) && Free(e.id, '\0')
  }

  function KeptRetry(retry: Option<int>): Option<nat> {
    if retry.Some? && 0 <= retry.value <= MAX_MILLISECONDS then Some(retry.value) else None
  }

  function NextId(lastId: string, e: Outgoing): string {
    if e.id == "" then lastId else e.id
  }

  /** An empty type becomes "message", an empty id inherits the last one. */
  function Received(lastId: string, e: Outgoing): Event {
    Event(e.data, if e.event == "" then "message" else e.event, NextId(lastId, e), KeptRetry(e.retry))
  }

  function ReceivedAll(lastId: string, events: seq<Outgoing>): seq<Event>
    decreases |events|
  {
    if events == [] then [] else [Received(lastId, events[0])] + ReceivedAll(NextId(lastId, events[0]), events[1..])
  }

  function FormatAll(events: seq<Outgoing>): string {
    if events == [] then "" else Format(events[0]) + FormatAll(events[1..])
  }

  function Max(a: nat, b: nat): nat {
    if a < b then b else a
  }

  /** Each line of the data, printed behind its field name, is within the line limit. */
  predicate LinesFit(data: string, limit: nat)
    decreases |data|
  {
    var end := Find(data, "\n", 0);
    FoundWithin(data, "\n", 0);
    if end == -1 then |data| + 6 <= limit else end + 6 <= limit && LinesFit(data[end + 1..], limit)
  }

  /** Within the parser's limits, given the last event id before this event. */
  predicate Fits(options: Options, lastId: string, e: Outgoing) {
    && |e.data| + 1 + |e.event| + |NextId(lastId, e)| <= options.maxEvent
    && |e.event| + |lastId| <= options.maxEvent
    && LinesFit(e.data, options.maxLine)
    && Max(|e.event| + 7, |e.id| + 4) <= options.maxLine
    && (e.retry.Some? ==> |SignedText(e.retry.value)| + 7 <= options.maxLine)
  }

  predicate AllFit(options: Options, lastId: string, events: seq<Outgoing>)
    decreases |events|
  {
    events == [] || (Fits(options, lastId, events[0]) && AllFit(options, NextId(lastId, events[0]), events[1..]))
  }

  // ---- one line at a time

  /** Between two lines. */
  function Between(r: Record): State {
    State(r, "", false)
  }

  lemma FeedLine(options: Options, accepts: Event -> bool, r: Record, line: string, rest: string)
    requires r.failed.None? && OneLine(line) && |line| <= options.maxLine
    requires ProcessLine(options, accepts, r, line).failed.None?
    ensures Feed(options, accepts, Between(r), line + "\n" + rest) ==
            Feed(options, accepts, Between(ProcessLine(options, accepts, r, line)), rest)
  {
    var bytes := line + "\n" + rest;
    assert bytes[..|line|] == line && bytes[|line| + 1..] == rest;
    assert "" + line == line;
    FeedToBreak(options, accepts, Between(r), bytes, |line|);
  }

  /** A printed field is taken apart into its name and value again. */
  lemma FieldLine(options: Options, accepts: Event -> bool, r: Record, name: string, value: string)
    requires name in ["data", "event", "id", "retry"]
    ensures ProcessLine(options, accepts, r, name + ": " + value) ==
            ApplyField(options, r.(firstLine := false), name, value)
  {
    var line := name + ": " + value;
    assert line == name + ":" + (" " + value);
    AtInMiddle(name, ":", " " + value);
    assert forall i :: 0 <= i < |name| ==> name[i] != ':';
    forall j | 0 <= j < |name| ensures !At(line, j, ":") { assert line[j..j + 1][0] == line[j] == name[j]; }
    FindIs(line, ":", 0, |name|);
    assert line[..|name|] == name && line[|name| + 1..] == " " + value;
    assert (" " + value)[1..] == value;
    assert line[0] == name[0] && line[0] != '\U{EF}' && line[0] != ':';
  }

  lemma FeedField(options: Options, accepts: Event -> bool, r: Record, name: string, value: string, rest: string)
    requires r.failed.None? && OneLine(value) && |name| + 2 + |value| <= options.maxLine
    requires name in ["data", "event", "id", "retry"]
    requires ApplyField(options, r.(firstLine := false), name, value).failed.None?
    ensures Feed(options, accepts, Between(r), Field(name, value) + rest) ==
            Feed(options, accepts, Between(ApplyField(options, r.(firstLine := false), name, value)), rest)
  {
    var line := name + ": " + value;
    assert OneLine(name);
    assert OneLine(line) by {
      forall i | 0 <= i < |line| ensures line[i] != '\r' && line[i] != '\n' {
        assert line[i] == if i < |name| then name[i] else if i < |name| + 2 then ": "[i - |name|] else value[i - |name| - 2];
      }
    }
    FieldLine(options, accepts, r, name, value);
    assert Field(name, value) + rest == line + "\n" + rest;
    FeedLine(options, accepts, r, line, rest);
  }

  lemma FirstLine(data: string)
    ensures var end := Find(data, "\n", 0);
            if end == -1 then Free(data, '\n')
            else Free(data[..end], '\n') && data == data[..end] + "\n" + data[end + 1..]
  {
    var end := Find(data, "\n", 0);
    forall i | 0 <= i < |data| && (end == -1 || i < end) ensures data[i] != '\n' {
      assert !At(data, i, "\n");
      assert data[i..i + 1] == [data[i]];
    }
    if end != -1 { assert data[end..end + 1] == "\n"; }
  }

  function WithData(r: Record, data: string): Record {
    r.(data := r.data + data + "\n", firstLine := false)
  }

  lemma FeedData(options: Options, accepts: Event -> bool, r: Record, line: string, rest: string)
    requires r.failed.None? && OneLine(line) && |line| + 6 <= options.maxLine
    requires |r.data| + |line| + 1 + |r.name| + |r.lastId| <= options.maxEvent
    ensures Feed(options, accepts, Between(r), Field("data", line) + rest) == Feed(options, accepts, Between(WithData(r, line)), rest)
  {
    hide Feed, Field;
    FeedField(options, accepts, r, "data", line, rest);
  }

  lemma WithDataTwice(r: Record, data: string, end: nat)
    requires end < |data| && data == data[..end] + "\n" + data[end + 1..]
    ensures WithData(WithData(r, data[..end]), data[end + 1..]) == WithData(r, data)
  {
    var first, more := data[..end], data[end + 1..];
    assert r.data + first + "\n" + more + "\n" == r.data + (first + "\n" + more) + "\n";
  }

  lemma {:induction false} FeedDataLines(options: Options, accepts: Event -> bool, r: Record, data: string, rest: string)
    requires r.failed.None? && Free(data, '\r') && LinesFit(data, options.maxLine)
    requires |r.data| + |data| + 1 + |r.name| + |r.lastId| <= options.maxEvent
    ensures Feed(options, accepts, Between(r), DataLines(data) + rest) == Feed(options, accepts, Between(WithData(r, data)), rest)
    decreases |data|
  {
    var end := Find(data, "\n", 0);
    FirstLine(data);
    DataLinesStep(data);
    hide Feed, Field, DataLines, Find, At;
    if end == -1 {
      assert Line(data, 0, -1) == data;
      assert Field("data", data) + "" + rest == Field("data", data) + rest;
      FeedData(options, accepts, r, data, rest);
    } else {
      var first, more := data[..end], data[end + 1..];
      assert Line(data, 0, end) == first;
      assert DataLines(data) + rest == Field("data", first) + (DataLines(more) + rest);
      FeedData(options, accepts, r, first, DataLines(more) + rest);
      FeedDataLines(options, accepts, WithData(r, first), more, rest);
      WithDataTwice(r, data, end);
    }
  }

  // ---- one event at a time

  lemma SignedTextIsOneLine(n: int)
    ensures OneLine(SignedText(n))
    ensures n < 0 ==> ParseNumber(SignedText(n), 10) == None
  {
    var digits := NumberText(if n < 0 then -n else n, 10);
    assert forall i :: 0 <= i < |digits| ==> IsDigit(digits[i], 10);
    if n < 0 { assert SignedText(n)[0] == '-'; assert !IsDigit(SignedText(n)[0], 10); }
  }

  function WithName(r: Record, name: string): Record {
    if name == "" then r else r.(name := name, firstLine := false)
  }

  function WithId(r: Record, id: string): Record {
    if id == "" then r else r.(lastId := id, firstLine := false)
  }

  function WithRetry(r: Record, retry: Option<int>): Record {
    var kept := KeptRetry(retry);
    if retry.None? then r
    else if kept.Some? then r.(retryDelay := kept, eventRetry := kept, firstLine := false)
    else r.(firstLine := false)
  }

  function WithHead(r: Record, e: Outgoing): Record {
    WithRetry(WithId(WithName(r, e.event), e.id), e.retry)
  }

  function Optional(field: string, value: string): string {
    if value == "" then "" else Field(field, value)
  }

  lemma FeedName(options: Options, accepts: Event -> bool, r: Record, name: string, rest: string)
    requires r.failed.None? && OneLine(name) && |name| + 7 <= options.maxLine
    requires |r.data| + |name| + |r.lastId| <= options.maxEvent
    ensures Feed(options, accepts, Between(r), Optional("event", name) + rest) ==
            Feed(options, accepts, Between(WithName(r, name)), rest)
  {
    if name == "" { assert "" + rest == rest; } else { FeedField(options, accepts, r, "event", name, rest); }
  }

  lemma FeedId(options: Options, accepts: Event -> bool, r: Record, id: string, rest: string)
    requires r.failed.None? && OneLine(id) && Free(id, '\0') && |id| + 4 <= options.maxLine
    requires id == "" || |r.data| + |r.name| + |id| <= options.maxEvent
    ensures Feed(options, accepts, Between(r), Optional("id", id) + rest) ==
            Feed(options, accepts, Between(WithId(r, id)), rest)
  {
    if id == "" { assert "" + rest == rest; } else { FeedField(options, accepts, r, "id", id, rest); }
  }

  lemma FeedRetry(options: Options, accepts: Event -> bool, r: Record, retry: Option<int>, rest: string)
    requires r.failed.None?
    requires retry.Some? ==> |SignedText(retry.value)| + 7 <= options.maxLine && retry.value <= MAX_MILLISECONDS
    ensures var text := if retry.None? then "" else Field("retry", SignedText(retry.value));
            Feed(options, accepts, Between(r), text + rest) == Feed(options, accepts, Between(WithRetry(r, retry)), rest)
  {
    if retry.None? {
      assert "" + rest == rest;
    } else {
      SignedTextIsOneLine(retry.value);
      if retry.value >= 0 { NumberRoundTrip(retry.value, 10); }
      FeedField(options, accepts, r, "retry", SignedText(retry.value), rest);
    }
  }

  lemma FeedHead(options: Options, accepts: Event -> bool, r: Record, e: Outgoing, rest: string)
    requires r.failed.None? && r.data == "" && r.name == ""
    requires Printable(e) && Fits(options, r.lastId, e) && (e.retry.Some? ==> e.retry.value <= MAX_MILLISECONDS)
    ensures Feed(options, accepts, Between(r), Head(e) + rest) == Feed(options, accepts, Between(WithHead(r, e)), rest)
  {
    hide Feed, ApplyField, SignedText, KeptRetry, OneLine, WithRetry, Field;
    var retry := if e.retry.None? then "" else Field("retry", SignedText(e.retry.value));
    var tail := Optional("id", e.id) + (retry + rest);
    assert Head(e) + rest == Optional("event", e.event) + tail;
    FeedName(options, accepts, r, e.event, tail);
    FeedId(options, accepts, WithName(r, e.event), e.id, retry + rest);
    FeedRetry(options, accepts, WithId(WithName(r, e.event), e.id), e.retry, rest);
  }

  function Delivered(r: Record, e: Outgoing): Record {
    WithHead(r, e).(data := "", name := "", eventRetry := None, firstLine := false,
                    delivered := r.delivered + [Received(r.lastId, e)])
  }

  lemma FeedEvent(options: Options, accepts: Event -> bool, r: Record, e: Outgoing, rest: string)
    requires r.failed.None? && r.data == "" && r.name == "" && r.eventRetry == None
    requires Printable(e) && Fits(options, r.lastId, e) && (e.retry.Some? ==> e.retry.value <= MAX_MILLISECONDS)
    requires accepts(Received(r.lastId, e))
    ensures Feed(options, accepts, Between(r), Format(e) + rest) == Feed(options, accepts, Between(Delivered(r, e)), rest)
  {
    hide Feed, Head, DataLines, OneLine;
    var headed, full := WithHead(r, e), WithData(WithHead(r, e), e.data);
    assert Format(e) + rest == Head(e) + (DataLines(e.data) + ("\n" + rest));
    FeedHead(options, accepts, r, e, DataLines(e.data) + ("\n" + rest));
    FeedDataLines(options, accepts, headed, e.data, "\n" + rest);
    FeedBlank(options, accepts, r, e, rest);
  }

  lemma FeedBlank(options: Options, accepts: Event -> bool, r: Record, e: Outgoing, rest: string)
    requires r.failed.None? && r.data == "" && r.name == "" && r.eventRetry == None && accepts(Received(r.lastId, e))
    ensures Feed(options, accepts, Between(WithData(WithHead(r, e), e.data)), "\n" + rest) ==
            Feed(options, accepts, Between(Delivered(r, e)), rest)
  {
    var full := WithData(WithHead(r, e), e.data);
    assert full.data == e.data + "\n";
    assert full.data[..|full.data| - 1] == e.data;
    assert ProcessLine(options, accepts, full, "") == Dispatch(accepts, full);
    assert "" + "\n" + rest == "\n" + rest;
    FeedLine(options, accepts, full, "", rest);
  }

  function DeliveredAll(r: Record, events: seq<Outgoing>): Record
    decreases |events|
  {
    if events == [] then r else DeliveredAll(Delivered(r, events[0]), events[1..])
  }

  lemma {:induction false} DeliveredInOrder(r: Record, events: seq<Outgoing>)
    ensures DeliveredAll(r, events).delivered == r.delivered + ReceivedAll(r.lastId, events)
    ensures DeliveredAll(r, events).failed == r.failed
    decreases |events|
  {
    if events != [] { DeliveredInOrder(Delivered(r, events[0]), events[1..]); }
  }

  ghost predicate Sendable(options: Options, accepts: Event -> bool, lastId: string, events: seq<Outgoing>) {
    && AllFit(options, lastId, events)
    && (forall e :: e in events ==> Printable(e) && (e.retry.Some? ==> e.retry.value <= MAX_MILLISECONDS))
    && (forall e :: e in ReceivedAll(lastId, events) ==> accepts(e))
  }

  lemma SendableTail(options: Options, accepts: Event -> bool, lastId: string, events: seq<Outgoing>)
    requires Sendable(options, accepts, lastId, events) && events != []
    ensures accepts(Received(lastId, events[0]))
    ensures Sendable(options, accepts, NextId(lastId, events[0]), events[1..])
  {
    var all := ReceivedAll(lastId, events);
    assert all[0] == Received(lastId, events[0]) && all[1..] == ReceivedAll(NextId(lastId, events[0]), events[1..]);
  }

  lemma {:induction false} FeedEvents(options: Options, accepts: Event -> bool, r: Record, events: seq<Outgoing>)
    requires r.failed.None? && r.data == "" && r.name == "" && r.eventRetry == None
    requires Sendable(options, accepts, r.lastId, events)
    ensures Feed(options, accepts, Between(r), FormatAll(events)) == Between(DeliveredAll(r, events))
    decreases |events|
  {
    if events != [] {
      SendableTail(options, accepts, r.lastId, events);
      FeedEvent(options, accepts, r, events[0], FormatAll(events[1..]));
      FeedEvents(options, accepts, Delivered(r, events[0]), events[1..]);
    }
  }

  /** The round trip: any list of printable events within the limits, printed one after the other and
      cut anywhere, is delivered back in order, and the parser is between two lines again. */
  lemma RoundTrip(options: Options, accepts: Event -> bool, r: Record, events: seq<Outgoing>, pieces: seq<string>)
    requires r.failed.None? && r.data == "" && r.name == "" && r.eventRetry == None
    requires Sendable(options, accepts, r.lastId, events)
    requires Join(pieces) == FormatAll(events)
    ensures var s := FeedPieces(options, accepts, Between(r), pieces);
            s.record.failed.None? && s.record.delivered == r.delivered + ReceivedAll(r.lastId, events) && s == Between(s.record)
  {
    FeedIsSplitIndependent(options, accepts, Between(r), pieces);
    FeedEvents(options, accepts, r, events);
    DeliveredInOrder(r, events);
  }
}
