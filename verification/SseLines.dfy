/** Lines of an event stream: LF, CR and CR LF end a line alike, and what a line means does not depend on how it is spelled. */
module SseLines {
  import opened Wrappers
  import opened Text
  import opened Sse
  import opened SseRoundTrip

  datatype LineEnd = Lf | Cr | CrLf

  datatype Terminated = Terminated(text: string, end: LineEnd)

  function EndText(e: LineEnd): string {
    match e
    case Lf => "\n"
    case Cr => "\r"
    case CrLf => "\r\n"
  }

  function StreamText(lines: seq<Terminated>): string {
    if lines == [] then "" else lines[0].text + EndText(lines[0].end) + StreamText(lines[1..])
  }

  /** A line feed behind a lone carriage return would belong to the same line end. */
  predicate Separate(afterCr: bool, lines: seq<Terminated>)
    decreases |lines|
  {
    lines == [] ||
    (OneLine(lines[0].text) && !(afterCr && lines[0] == Terminated("", Lf)) && Separate(lines[0].end == Cr, lines[1..]))
  }

  /** What the lines mean one after the other, up to the first failure. */
  function Processed(options: Options, accepts: Event -> bool, r: Record, lines: seq<Terminated>): Record
    decreases |lines|
  {
    if lines == [] || r.failed.Some? then r
    else if |lines[0].text| > options.maxLine then r.(failed := Some(TooLarge))
    else Processed(options, accepts, ProcessLine(options, accepts, r, lines[0].text), lines[1..])
  }

  /** The parser after one line: the line feed of a CR LF is taken with it. */
  lemma LineIsFed(options: Options, accepts: Event -> bool, r: Record, skip: bool, line: Terminated, rest: string)
    requires r.failed.None? && OneLine(line.text) && !(skip && line == Terminated("", Lf))
    ensures var next := Processed(options, accepts, r, [line]);
            Feed(options, accepts, State(r, "", skip), line.text + EndText(line.end) + rest) ==
            if next.failed.Some? then State(next, "", false)
            else Feed(options, accepts, State(next, "", line.end == Cr), rest)
  {
    var bytes, s := line.text + EndText(line.end) + rest, State(r, "", false);
    var terminator := if line.end == Lf then '\n' else '\r';
    var behind := if line.end == CrLf then "\n" + rest else rest;
    BytesOfLine(line, rest);
    OneLineProcessed(options, accepts, r, line);
    hide Processed, ProcessLine, OneLine;
    if skip { FeedSkipsLf(options, accepts, State(r, "", true), bytes); }
    FeedToBreak(options, accepts, s, bytes, |line.text|) by { OneLineParts(line.text); }
    if |line.text| <= options.maxLine {
      assert "" + line.text == line.text;
      var ended := EndLine(options, accepts, s.(line := line.text), terminator);
      if ended.record.failed.Some? {
        FeedAfterFailure(options, accepts, ended, behind);
      } else if line.end == CrLf {
        FeedSkipsLf(options, accepts, ended, behind);
        assert behind[1..] == rest;
      }
    }
  }

  lemma OneLineParts(s: string)
    ensures OneLine(s) ==> Free(s, '\r') && Free(s, '\n')
  {}

  lemma BytesOfLine(line: Terminated, rest: string)
    requires OneLine(line.text)
    ensures var bytes, count := line.text + EndText(line.end) + rest, |line.text|;
            && count < |bytes| && bytes[..count] == line.text
            && bytes[count] == (if line.end == Lf then '\n' else '\r')
            && bytes[count + 1..] == (if line.end == CrLf then "\n" + rest else rest)
            && (bytes[0] == '\n' <==> line == Terminated("", Lf))
  {
    var bytes := line.text + EndText(line.end) + rest;
    if line.text != "" { assert bytes[0] == line.text[0]; }
  }

  lemma OneLineProcessed(options: Options, accepts: Event -> bool, r: Record, line: Terminated)
    requires r.failed.None?
    ensures Processed(options, accepts, r, [line]) ==
            if |line.text| > options.maxLine then r.(failed := Some(TooLarge)) else ProcessLine(options, accepts, r, line.text)
  {
    assert [line][1..] == [];
  }

  lemma FirstProcessed(options: Options, accepts: Event -> bool, r: Record, lines: seq<Terminated>)
    requires r.failed.None? && lines != []
    ensures Processed(options, accepts, r, lines) ==
            Processed(options, accepts, Processed(options, accepts, r, [lines[0]]), lines[1..])
  {
    OneLineProcessed(options, accepts, r, lines[0]);
    hide ProcessLine;
  }

  lemma FailedStays(options: Options, accepts: Event -> bool, r: Record, lines: seq<Terminated>)
    requires r.failed.Some?
    ensures Processed(options, accepts, r, lines) == r
  {}

  lemma {:induction false} LinesAreFed(options: Options, accepts: Event -> bool, r: Record, skip: bool, lines: seq<Terminated>)
    requires r.failed.None? && Separate(skip, lines)
    ensures var s := Feed(options, accepts, State(r, "", skip), StreamText(lines));
            s.record == Processed(options, accepts, r, lines) && s.line == ""
    decreases |lines|
  {
    if lines != [] {
      hide Feed, ProcessLine, OneLine, Processed;
      var next := Processed(options, accepts, r, [lines[0]]);
      LineIsFed(options, accepts, r, skip, lines[0], StreamText(lines[1..]));
      FirstProcessed(options, accepts, r, lines);
      if next.failed.Some? {
        FailedStays(options, accepts, next, lines[1..]);
      } else {
        LinesAreFed(options, accepts, next, lines[0].end == Cr, lines[1..]);
      }
    }
  }

  /** Lines that end in any of the three ways, cut anywhere, are processed one after the other, and nothing is left of the last one. */
  lemma LinesAreProcessed(options: Options, accepts: Event -> bool, r: Record, lines: seq<Terminated>, pieces: seq<string>)
    requires r.failed.None? && Separate(false, lines) && Join(pieces) == StreamText(lines)
    ensures var s := FeedPieces(options, accepts, Between(r), pieces);
            s.record == Processed(options, accepts, r, lines) && s.line == ""
  {
    FeedIsSplitIndependent(options, accepts, Between(r), pieces);
    LinesAreFed(options, accepts, r, false, lines);
  }

  // ---- a stream with other line ends

  /** The text with every line feed printed as another line end. */
  function Translated(s: string, e: LineEnd): string {
    if s == "" then "" else (if s[0] == '\n' then EndText(e) else [s[0]]) + Translated(s[1..], e)
  }

  /** The lines of a text that ends with a line feed or is empty. */
  function LinesOf(s: string, e: LineEnd): (lines: seq<Terminated>)
    decreases |s|
  {
    var end := Find(s, "\n", 0);
    FoundWithin(s, "\n", 0);
    if end == -1 then [] else [Terminated(s[..end], e)] + LinesOf(s[end + 1..], e)
  }

  predicate Complete(s: string) {
    s == "" || s[|s| - 1] == '\n'
  }

  lemma {:induction false} TranslatedAppend(a: string, b: string, e: LineEnd)
    ensures Translated(a + b, e) == Translated(a, e) + Translated(b, e)
  {
    if a == "" {
      assert a + b == b;
    } else {
      assert (a + b)[1..] == a[1..] + b;
      TranslatedAppend(a[1..], b, e);
    }
  }

  lemma {:induction false} TranslatedLine(s: string, e: LineEnd)
    requires Free(s, '\n')
    ensures Translated(s, e) == s
  {
    if s != "" { TranslatedLine(s[1..], e); }
  }

  lemma OneEnd(e: LineEnd)
    ensures Translated("\n", e) == EndText(e)
  {
    assert "\n"[1..] == "";
  }

  lemma LastFeed(s: string, end: int)
    requires Complete(s) && end == Find(s, "\n", 0)
    ensures end == -1 ==> s == ""
    ensures end != -1 ==> 0 <= end < |s| && Complete(s[end + 1..])
  {
    FoundWithin(s, "\n", 0);
    if s != "" {
      assert "\n" == ['\n'];
      CharAt(s, |s| - 1, '\n');
    }
  }

  /** The lines make up the text, and they are separate in every spelling. */
  lemma {:induction false} LinesMakeText(s: string, e: LineEnd)
    requires Complete(s) && Free(s, '\r')
    ensures StreamText(LinesOf(s, e)) == Translated(s, e) && Separate(e == Cr, LinesOf(s, e))
    decreases |s|
  {
    var end := Find(s, "\n", 0);
    LastFeed(s, end);
    FirstLine(s);
    if end != -1 {
      var line, rest := s[..end], s[end + 1..];
      hide Find, At, Free;
      assert Free(line, '\r') && Free(rest, '\r') by { FreeParts(s, end, '\r'); }
      LinesMakeText(rest, e);
      TranslatedAppend(line + "\n", rest, e);
      TranslatedAppend(line, "\n", e);
      TranslatedLine(line, e);
      OneEnd(e);
      var lines := LinesOf(s, e);
      assert lines == [Terminated(line, e)] + LinesOf(rest, e);
      assert lines[1..] == LinesOf(rest, e);
    }
  }

  lemma FreeParts(s: string, end: nat, c: char)
    requires end < |s| && Free(s, c)
    ensures Free(s[..end], c) && Free(s[end + 1..], c)
  {}

  lemma SeparateFirst(lines: seq<Terminated>, e: LineEnd)
    requires Separate(e == Cr, lines)
    ensures Separate(false, lines)
  {}

  lemma {:induction false} EndsDoNotMatter(options: Options, accepts: Event -> bool, r: Record, s: string, a: LineEnd, b: LineEnd)
    ensures Processed(options, accepts, r, LinesOf(s, a)) == Processed(options, accepts, r, LinesOf(s, b))
    decreases |s|
  {
    var end := Find(s, "\n", 0);
    FoundWithin(s, "\n", 0);
    if end != -1 {
      hide Find, At, ProcessLine;
      var rest := s[end + 1..];
      assert LinesOf(s, a)[1..] == LinesOf(rest, a) && LinesOf(s, b)[1..] == LinesOf(rest, b);
      if r.failed.None? { EndsDoNotMatter(options, accepts, ProcessLine(options, accepts, r, s[..end]), rest, a, b); }
    }
  }

  lemma {:induction false} TranslatedToItself(s: string)
    ensures Translated(s, Lf) == s
  {
    if s != "" {
      TranslatedToItself(s[1..]);
      assert s == [s[0]] + s[1..];
    }
  }

  /** A text of complete lines means the same with every line feed printed as CR or as CR LF, wherever the two are cut. */
  lemma LineEndsAreAlike(options: Options, accepts: Event -> bool, r: Record, s: string, e: LineEnd, pieces: seq<string>, others: seq<string>)
    requires r.failed.None? && Complete(s) && Free(s, '\r')
    requires Join(pieces) == s && Join(others) == Translated(s, e)
    ensures FeedPieces(options, accepts, Between(r), pieces).record == FeedPieces(options, accepts, Between(r), others).record
  {
    hide FeedPieces, Processed, Separate, LinesOf, Translated, StreamText, Complete, Free, Join;
    LinesMakeText(s, Lf);
    LinesMakeText(s, e);
    SeparateFirst(LinesOf(s, Lf), Lf);
    SeparateFirst(LinesOf(s, e), e);
    TranslatedToItself(s);
    EndsDoNotMatter(options, accepts, r, s, Lf, e);
    LinesAreProcessed(options, accepts, r, LinesOf(s, Lf), pieces);
    LinesAreProcessed(options, accepts, r, LinesOf(s, e), others);
  }

  lemma {:induction false} DataLinesAreLines(data: string)
    requires Free(data, '\r')
    ensures Free(DataLines(data), '\r') && Complete(DataLines(data))
    decreases |data|
  {
    var end := Find(data, "\n", 0);
    FoundWithin(data, "\n", 0);
    hide Find, At;
    if end != -1 { DataLinesAreLines(data[end + 1..]); }
  }

  lemma {:induction false} FormatsAreLines(events: seq<Outgoing>)
    requires forall e :: e in events ==> SseRoundTrip.Printable(e)
    ensures Free(FormatAll(events), '\r') && Complete(FormatAll(events))
  {
    if events != [] {
      FormatsAreLines(events[1..]);
      assert events[0] in events;
      FormatIsLines(events[0]);
      hide Format, SseRoundTrip.Printable;
    }
  }

  lemma FormatIsLines(e: Outgoing)
    requires SseRoundTrip.Printable(e)
    ensures Free(Format(e), '\r') && Complete(Format(e))
  {
    DataLinesAreLines(e.data);
    if e.retry.Some? { SignedTextIsOneLine(e.retry.value); }
    hide DataLines, SignedText;
    FieldIsFree("event", e.event);
    FieldIsFree("id", e.id);
    if e.retry.Some? { FieldIsFree("retry", SignedText(e.retry.value)); }
    hide Field;
    assert Free(Head(e), '\r');
  }

  lemma FieldIsFree(name: string, value: string)
    requires name in ["event", "id", "retry"] && Free(value, '\r')
    ensures Free(Field(name, value), '\r')
  {}

  /** The round trip of printed events holds for every line end. */
  lemma RoundTripWith(options: Options, accepts: Event -> bool, r: Record, events: seq<Outgoing>, e: LineEnd, pieces: seq<string>)
    requires r.failed.None? && r.data == "" && r.name == "" && r.eventRetry == None
    requires Sendable(options, accepts, r.lastId, events)
    requires Join(pieces) == Translated(FormatAll(events), e)
    ensures var s := FeedPieces(options, accepts, Between(r), pieces);
            s.record.failed.None? && s.record.delivered == r.delivered + ReceivedAll(r.lastId, events)
  {
    var text := FormatAll(events);
    assert Free(text, '\r') && Complete(text) by { FormatsAreLines(events); }
    hide Sendable, FormatAll, Translated, FeedPieces, ReceivedAll, Free, Complete;
    JoinOne(text);
    RoundTrip(options, accepts, r, events, [text]);
    LineEndsAreAlike(options, accepts, r, text, e, [text], pieces);
  }

  // ---- what a line means

  /** A comment changes nothing. */
  lemma CommentIsIgnored(options: Options, accepts: Event -> bool, r: Record, text: string)
    ensures ProcessLine(options, accepts, r, ":" + text) == r.(firstLine := false)
  {
    assert (":" + text)[0] == ':';
  }

  /** The mark in front of the first line is ignored, and only there. */
  lemma MarkIsIgnored(options: Options, accepts: Event -> bool, r: Record, line: string)
    requires r.firstLine && !(BOM <= line)
    ensures ProcessLine(options, accepts, r, BOM + line) == ProcessLine(options, accepts, r, line)
    ensures ProcessLine(options, accepts, r.(firstLine := false), line) == ProcessLine(options, accepts, r, line)
  {
    assert (BOM + line)[3..] == line;
  }

  /** One space behind the colon is not part of the value, and a line without a colon is a field without a value. */
  lemma FieldSpellings(options: Options, accepts: Event -> bool, r: Record, name: string, value: string)
    requires !r.firstLine && name != "" && Free(name, ':')
    ensures ProcessLine(options, accepts, r, name + ": " + value) == ApplyField(options, r, name, value)
    ensures value == "" || value[0] != ' ' ==> ProcessLine(options, accepts, r, name + ":" + value) == ApplyField(options, r, name, value)
    ensures ProcessLine(options, accepts, r, name) == ApplyField(options, r, name, "")
    ensures name !in ["data", "event", "id", "retry"] ==> ApplyField(options, r, name, value) == r
  {
    hide ApplyField;
    ColonFound(name, " " + value);
    ColonFound(name, value);
    assert name + ": " + value == name + ":" + (" " + value);
    assert (" " + value)[1..] == value;
    assert (name + ":" + value)[0] == name[0] && (name + ":" + (" " + value))[0] == name[0];
    FindAbsent(name, ':');
    assert ":" == [':'];
    hide *;
    UnknownIsIgnored(options, r, name, value);
  }

  lemma UnknownIsIgnored(options: Options, r: Record, name: string, value: string)
    ensures name !in ["data", "event", "id", "retry"] ==> ApplyField(options, r, name, value) == r
  {}

  lemma ColonFound(name: string, rest: string)
    requires Free(name, ':')
    ensures var line := name + ":" + rest; Find(line, ":", 0) == |name| && line[..|name|] == name && line[|name| + 1..] == rest
  {
    var line := name + ":" + rest;
    AtInMiddle(name, ":", rest);
    forall j | 0 <= j < |name| ensures !At(line, j, ":") { assert line[j..j + 1][0] == name[j]; }
    FindIs(line, ":", 0, |name|);
  }

  /** A blank line without data delivers nothing, and with data one event; either way the type and the delay are used up. */
  lemma BlankLine(options: Options, accepts: Event -> bool, r: Record)
    requires !r.firstLine && r.failed.None?
    ensures var t := ProcessLine(options, accepts, r, "");
            && t.data == "" && t.name == "" && t.eventRetry == None && t.lastId == r.lastId && t.retryDelay == r.retryDelay
            && (r.data == "" ==> t.delivered == r.delivered && t.failed == None)
            && (r.data != "" ==>
                  && |t.delivered| == |r.delivered| + 1 && t.delivered[..|r.delivered|] == r.delivered
                  && (t.failed.Some? <==> !accepts(t.delivered[|r.delivered|]))
                  && var event := t.delivered[|r.delivered|];
                     && (r.data == event.data + "\n" || (r.data == event.data && r.data[|r.data| - 1] != '\n'))
                     && event.name == (if r.name == "" then "message" else r.name)
                     && event.id == r.lastId && event.retry == r.eventRetry)
  {
    if r.data != "" && r.data[|r.data| - 1] == '\n' { assert r.data == r.data[..|r.data| - 1] + "\n"; }
  }

  /** A delay in milliseconds belongs to the next event and is remembered for reconnecting. */
  lemma RetryIsKept(options: Options, r: Record, n: nat)
    requires n <= MAX_MILLISECONDS
    ensures ApplyField(options, r, "retry", NumberText(n, 10)) == r.(retryDelay := Some(n), eventRetry := Some(n))
  {
    NumberRoundTrip(n, 10);
    hide NumberText, ParseNumber;
  }

  /** An identifier with a zero character and a delay that is not a number are ignored. */
  lemma InvalidIsIgnored(options: Options, r: Record, value: string)
    ensures !Free(value, '\0') ==> ApplyField(options, r, "id", value) == r
    ensures !(exists n: nat :: n <= MAX_MILLISECONDS && ParseNumber(value, 10) == Some(n)) ==> ApplyField(options, r, "retry", value) == r
  {
    hide ParseNumber;
  }

  // ---- bounded memory

  /** What the parser retains between two pieces is within its limits. */
  predicate Bounded(options: Options, s: State) {
    |s.line| <= options.maxLine && |s.record.data| + |s.record.name| + |s.record.lastId| <= options.maxEvent
  }

  lemma LineKeepsBound(options: Options, accepts: Event -> bool, r: Record, line: string)
    requires |r.data| + |r.name| + |r.lastId| <= options.maxEvent
    ensures var t := ProcessLine(options, accepts, r, line); |t.data| + |t.name| + |t.lastId| <= options.maxEvent
  {
    hide Find, At, ParseNumber, FieldName, FieldValue, WithoutBom;
  }

  /** Whatever arrives, the retained bytes stay within the limits of a line and of an event. */
  lemma {:induction false} RetainedIsBounded(options: Options, accepts: Event -> bool, s: State, bytes: string)
    requires Bounded(options, s)
    ensures Bounded(options, Feed(options, accepts, s, bytes))
    decreases |bytes|
  {
    if bytes != "" {
      LineKeepsBound(options, accepts, s.record, s.line);
      hide ProcessLine;
      RetainedIsBounded(options, accepts, FeedByte(options, accepts, s, bytes[0]), bytes[1..]);
    }
  }
}
