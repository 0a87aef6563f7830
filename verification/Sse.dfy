/** The incremental server-sent-events parser and its printer. */
module Sse {
  import opened Wrappers
  import opened Text

  datatype Failure = TooLarge | CallbackFailed

  /** A delivered event. */
  datatype Event = Event(data: string, name: string, id: string, retry: Option<nat>)

  /** `maxLine` and `maxEvent` bound the retained bytes. */
  datatype Options = Options(maxLine: nat, maxEvent: nat, lastEventId: string)

  /** What complete lines have built up; `delivered` lists the events handed to the callbacks. */
  datatype Record = Record(
    data: string,
    name: string,
    lastId: string,
    retryDelay: Option<nat>,
    eventRetry: Option<nat>,
    firstLine: bool,
    failed: Option<Failure>,
    delivered: seq<Event>)

  /** The parser: the record, the line that is still incomplete, and whether a line feed is skipped. */
  datatype State = State(record: Record, line: string, skipLf: bool)

  const BOM := ['\U{EF}', '\U{BB}', '\U{BF}']
  const MAX_MILLISECONDS: nat := 0x7FFF_FFFF_FFFF_FFFF

  // ---- what one line does

  /** A blank line ends an event: the callbacks accept it or throw. */
  function Dispatch(accepts: Event -> bool, s: Record): Record {
    if s.data == "" then s.(name := "", eventRetry := None)
    else
      var data := if s.data[|s.data| - 1] == '\n' then s.data[..|s.data| - 1] else s.data;
      var event := Event(data, if s.name == "" then "message" else s.name, s.lastId, s.eventRetry);
      s.(data := "", name := "", eventRetry := None, delivered := s.delivered + [event],
         failed := if accepts(event) then s.failed else Some(CallbackFailed))
  }

  predicate Exceeds(options: Options, data: nat, name: nat, id: nat) {
    data + name + id > options.maxEvent
  }

  function FieldName(line: string): string {
    var colon := Find(line, ":", 0);
    if colon == -1 then line else line[..colon]
  }

  function FieldValue(line: string): string {
    var colon := Find(line, ":", 0);
    var value := if colon == -1 then "" else line[colon + 1..];
    if value != "" && value[0] == ' ' then value[1..] else value
  }

  function ApplyField(options: Options, s: Record, field: string, value: string): Record {
    if field == "data" then
      if Exceeds(options, |s.data| + |value| + 1, |s.name|, |s.lastId|) then s.(failed := Some(TooLarge))
      else s.(data := s.data + value + "\n")
    else if field == "event" then
      if Exceeds(options, |s.data|, |value|, |s.lastId|) then s.(failed := Some(TooLarge)) else s.(name := value)
    else if field == "id" && Free(value, '\0') then
      if Exceeds(options, |s.data|, |s.name|, |value|) then s.(failed := Some(TooLarge)) else s.(lastId := value)
    else if field == "retry" then
      var parsed := ParseNumber(value, 10);
      if parsed.Some? && parsed.value <= MAX_MILLISECONDS then s.(retryDelay := parsed, eventRetry := parsed) else s
    else s
  }

  function WithoutBom(s: Record, line: string): string {
    if s.firstLine && BOM <= line then line[3..] else line
  }

  /** One complete line, without its terminator. */
  function ProcessLine(options: Options, accepts: Event -> bool, s: Record, line: string): Record {
    var value := WithoutBom(s, line);
    var t := s.(firstLine := false);
    if value == "" then Dispatch(accepts, t)
    else if value[0] == ':' then t
    else ApplyField(options, t, FieldName(value), FieldValue(value))
  }

  // ---- the reference semantics: one byte at a time

  /** After a failure the partial line can no longer be observed. */
  function Settle(s: State): State {
    if s.record.failed.Some? then State(s.record, "", false) else s
  }

  function Overflow(s: State): State {
    State(s.record.(failed := Some(TooLarge)), "", false)
  }

  function EndLine(options: Options, accepts: Event -> bool, s: State, terminator: char): State {
    Settle(State(ProcessLine(options, accepts, s.record, s.line), "", terminator == '\r'))
  }

  function FeedByte(options: Options, accepts: Event -> bool, s: State, c: char): State {
    if s.record.failed.Some? then s
    else if s.skipLf && c == '\n' then s.(skipLf := false)
    else
      var t := s.(skipLf := false);
      if c == '\r' || c == '\n' then EndLine(options, accepts, t, c)
      else if |t.line| + 1 > options.maxLine then Overflow(t)
      else t.(line := t.line + [c])
  }

  function Feed(options: Options, accepts: Event -> bool, s: State, bytes: string): State
    decreases |bytes|
  {
    if bytes == "" then s else Feed(options, accepts, FeedByte(options, accepts, s, bytes[0]), bytes[1..])
  }

  function FeedPieces(options: Options, accepts: Event -> bool, s: State, pieces: seq<string>): State
    decreases |pieces|
  {
    if pieces == [] then s else FeedPieces(options, accepts, Feed(options, accepts, s, pieces[0]), pieces[1..])
  }

  lemma {:induction false} FeedAppend(options: Options, accepts: Event -> bool, s: State, a: string, b: string)
    ensures Feed(options, accepts, s, a + b) == Feed(options, accepts, Feed(options, accepts, s, a), b)
    decreases |a|
  {
    if a == "" {
      assert a + b == b;
    } else {
      assert (a + b)[1..] == a[1..] + b;
      FeedAppend(options, accepts, FeedByte(options, accepts, s, a[0]), a[1..], b);
    }
  }

  /** Where the stream is cut does not matter. */
  lemma {:induction false} FeedIsSplitIndependent(options: Options, accepts: Event -> bool, s: State, pieces: seq<string>)
    ensures FeedPieces(options, accepts, s, pieces) == Feed(options, accepts, s, Join(pieces))
    decreases |pieces|
  {
    if pieces != [] {
      FeedIsSplitIndependent(options, accepts, Feed(options, accepts, s, pieces[0]), pieces[1..]);
      FeedAppend(options, accepts, s, pieces[0], Join(pieces[1..]));
    }
  }

  lemma {:induction false} FeedAfterFailure(options: Options, accepts: Event -> bool, s: State, bytes: string)
    requires s.record.failed.Some?
    ensures Feed(options, accepts, s, bytes) == s
    decreases |bytes|
  {
    if bytes != "" { FeedAfterFailure(options, accepts, s, bytes[1..]); }
  }

  /** A run of ordinary bytes is appended as a whole, or fails as a whole. */
  lemma {:induction false} FeedSegment(options: Options, accepts: Event -> bool, s: State, segment: string)
    requires s.record.failed.None? && !s.skipLf && |s.line| <= options.maxLine
    requires Free(segment, '\r') && Free(segment, '\n')
    ensures Feed(options, accepts, s, segment) ==
            if |s.line| + |segment| > options.maxLine then Overflow(s)
            else s.(line := s.line + segment)
    decreases |segment|
  {
    if segment == "" {
      assert s.line + segment == s.line;
    } else {
      var next := FeedByte(options, accepts, s, segment[0]);
      if next.record.failed.Some? {
        FeedAfterFailure(options, accepts, next, segment[1..]);
      } else {
        FeedSegment(options, accepts, next, segment[1..]);
        assert s.line + segment == next.line + segment[1..];
      }
    }
  }

  /** A line feed after a carriage return belongs to the same line end. */
  lemma FeedSkipsLf(options: Options, accepts: Event -> bool, s: State, bytes: string)
    requires s.record.failed.None? && s.skipLf && bytes != ""
    ensures var t := s.(skipLf := false);
            Feed(options, accepts, s, bytes) ==
            if bytes[0] == '\n' then Feed(options, accepts, t, bytes[1..]) else Feed(options, accepts, t, bytes)
  {}

  /** Everything up to the next line end is taken in one go. */
  lemma FeedToBreak(options: Options, accepts: Event -> bool, s: State, bytes: string, count: nat)
    requires s.record.failed.None? && !s.skipLf && |s.line| <= options.maxLine && count <= |bytes|
    requires Free(bytes[..count], '\r') && Free(bytes[..count], '\n')
    requires count < |bytes| ==> bytes[count] == '\r' || bytes[count] == '\n'
    ensures Feed(options, accepts, s, bytes) ==
            if |s.line| + count > options.maxLine then Overflow(s)
            else
              var appended := s.(line := s.line + bytes[..count]);
              if count == |bytes| then appended
              else Feed(options, accepts, EndLine(options, accepts, appended, bytes[count]), bytes[count + 1..])
  {
    var rest := bytes[count..];
    assert bytes == bytes[..count] + rest;
    FeedAppend(options, accepts, s, bytes[..count], rest);
    FeedSegment(options, accepts, s, bytes[..count]);
    if |s.line| + count > options.maxLine {
      FeedAfterFailure(options, accepts, Overflow(s), rest);
    } else if rest != "" {
      assert rest[1..] == bytes[count + 1..];
    }
  }

  // ---- the implementation

  /** `find_first_of("\r\n")` */
  function FindBreak(s: string): (r: nat)
    ensures r <= |s| && Free(s[..r], '\r') && Free(s[..r], '\n')
    ensures r < |s| ==> s[r] == '\r' || s[r] == '\n'
  {
    if s == "" || s[0] == '\r' || s[0] == '\n' then 0
    else
      assert s[..1 + FindBreak(s[1..])] == [s[0]] + s[1..][..FindBreak(s[1..])];
      1 + FindBreak(s[1..])
  }

  class Parser {
    const options: Options
    const accepts: Event -> bool
    var line: string
    var data: string
    var name: string
    var lastId: string
    var retryDelay: Option<nat>
    var eventRetry: Option<nat>
    var firstLine: bool
    var skipLf: bool
    var failed: Option<Failure>
    var delivered: seq<Event>

    ghost function Kept(): Record
      reads this
    {
      Record(data, name, lastId, retryDelay, eventRetry, firstLine, failed, delivered)
    }

    ghost function Fields(): State
      reads this
    {
      State(Kept(), line, skipLf)
    }

    ghost predicate Valid()
      reads this
    {
      |line| <= options.maxLine
    }

    constructor (options: Options, accepts: Event -> bool)
      ensures Valid() && this.options == options && this.accepts == accepts
      ensures Fields() == State(Record("", "", options.lastEventId, None, None, true, None, []), "", false)
    {
      this.options, this.accepts := options, accepts;
      line, data, name, lastId := "", "", "", options.lastEventId;
      retryDelay, eventRetry := None, None;
      firstLine, skipLf, failed, delivered := true, false, None, [];
    }

    method DispatchEvent()
      requires failed.None?
      modifies this`data, this`name, this`eventRetry, this`delivered, this`failed
      ensures Kept() == Dispatch(accepts, old(Kept()))
    {
      if data == "" {
        name, eventRetry := "", None;
        return;
      }
      if data[|data| - 1] == '\n' { data := data[..|data| - 1]; }
      var event := Event(data, name, lastId, eventRetry);
      if event.name == "" { event := event.(name := "message"); }
      data, name, eventRetry := "", "", None;
      delivered := delivered + [event];
      if !accepts(event) { failed := Some(CallbackFailed); }
    }

    /** `process_line` */
    method Process(text: string)
      requires failed.None?
      modifies this`data, this`name, this`lastId, this`retryDelay, this`eventRetry, this`firstLine, this`delivered, this`failed
      ensures Kept() == ProcessLine(options, accepts, old(Kept()), text)
    {
      var value := text;
      if firstLine {
        firstLine := false;
        if BOM <= value { value := value[3..]; }
      }
      if value == "" {
        DispatchEvent();
        return;
      }
      if value[0] == ':' { return; }
      var field, content := FieldName(value), FieldValue(value);
      if field == "data" {
        if |content| >= options.maxEvent || |data| > options.maxEvent - |content| - 1 ||
           Exceeds(options, |data| + |content| + 1, |name|, |lastId|) {
          failed := Some(TooLarge);
        } else {
          data := data + content + "\n";
        }
      } else if field == "event" {
        if Exceeds(options, |data|, |content|, |lastId|) { failed := Some(TooLarge); } else { name := content; }
      } else if field == "id" && Free(content, '\0') {
        if Exceeds(options, |data|, |name|, |content|) { failed := Some(TooLarge); } else { lastId := content; }
      } else if field == "retry" {
        var milliseconds := ParseNumber(content, 10);
        if milliseconds.Some? && milliseconds.value <= MAX_MILLISECONDS {
          retryDelay, eventRetry := milliseconds, milliseconds;
        }
      }
    }

    /** The part of `feed` that ends a line: a line without a retained start is parsed in place. */
    method EndOfLine(segment: string, terminator: char)
      requires Valid() && failed.None? && |line| + |segment| <= options.maxLine
      modifies this
      ensures Valid()
      ensures Settle(Fields()) == EndLine(options, accepts, old(Fields()).(line := old(line) + segment), terminator)
      ensures failed.None? ==> Settle(Fields()) == Fields()
    {
      if line == "" {
        assert line + segment == segment;
        Process(segment);
      } else {
        line := line + segment;
        Process(line);
      }
      if failed.Some? { return; }
      line := "";
      skipLf := terminator == '\r';
    }

    /** `feed` works on whole segments between line ends, and equals the byte-wise reference. */
    method FeedBytes(input: string) returns (error: Option<Failure>)
      requires Valid()
      modifies this
      ensures Valid() && error == failed
      ensures Settle(Fields()) == Feed(options, accepts, Settle(old(Fields())), input)
    {
      if failed.Some? {
        FeedAfterFailure(options, accepts, Settle(Fields()), input);
        return failed;
      }
      var bytes := input;
      ghost var goal := Feed(options, accepts, Fields(), input);
      while bytes != ""
        invariant Valid() && failed.None?
        invariant Feed(options, accepts, Fields(), bytes) == goal
        decreases |bytes|
      {
        if skipLf {
          FeedSkipsLf(options, accepts, Fields(), bytes);
          skipLf := false;
          if bytes[0] == '\n' { bytes := bytes[1..]; }
          if bytes == "" { break; }
        }
        var count := FindBreak(bytes);
        FeedToBreak(options, accepts, Fields(), bytes, count);
        if |line| + count > options.maxLine {
          failed := Some(TooLarge);
          return failed;
        }
        if count == |bytes| {
          assert bytes[..count] == bytes;
          line := line + bytes;
          break;
        }
        ghost var next := EndLine(options, accepts, Fields().(line := line + bytes[..count]), bytes[count]);
        EndOfLine(bytes[..count], bytes[count]);
        if failed.Some? {
          FeedAfterFailure(options, accepts, next, bytes[count + 1..]);
          return failed;
        }
        bytes := bytes[count + 1..];
      }
      error := failed;
    }

    /** End of stream is not an event delimiter: partial data is dropped. */
    method FinishStream() returns (error: Option<Failure>)
      modifies this
      ensures error == failed == old(failed)
      ensures Fields() == if failed.Some? then old(Fields())
                          else State(old(Kept()).(data := "", name := "", eventRetry := None), "", false)
    {
      if failed.Some? { return failed; }
      line, data, name, eventRetry, skipLf := "", "", "", None, false;
      error := None;
    }

    method Reset()
      modifies this
      ensures Valid()
      ensures Fields() == State(Record("", "", options.lastEventId, None, None, true, None, old(delivered)), "", false)
    {
      line, data, name, lastId := "", "", "", options.lastEventId;
      retryDelay, eventRetry := None, None;
      firstLine, skipLf, failed := true, false, None;
    }
  }
}
