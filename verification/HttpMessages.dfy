/** Whole responses: what `write_response` sends is what `read_response` recovers, message after message,
    however the bytes are cut into blocks. */
module HttpMessages {
  import opened Wrappers
  import opened Text
  import opened HeaderFields
  import opened Headers
  import opened HttpHead
  import opened HttpFraming
  import opened HttpHeadRoundTrip
  import opened HttpWriter
  import opened HttpBody
  import opened HttpChunks
  import opened HttpRequests

  // ---- writing

  predicate Bodyless(name: string, status: nat) {
    EqualsIgnoreCase(name, "HEAD") || HasNoBody(status)
  }

  /** The bytes of a response to a request with this method name. */
  function Sent(name: string, keepAlive: bool, response: Response): Option<string> {
    var head := ResponseHead(keepAlive, response, Sized(|response.body|));
    if head.None? then None else Some(head.value + if Bodyless(name, response.status) then "" else response.body)
  }

  /** `write_body_bytes` */
  method WriteBody(output: string, body: string) returns (written: string)
    ensures written == output + body
  {
    var rest := body;
    written := output;
    ghost var sent := "";
    EmptyFirst(body);
    EmptyFirst(output);
    while rest != ""
      invariant written == output + sent && body == sent + rest
      decreases |rest|
    {
      var count := if |rest| < BLOCK then |rest| else BLOCK;
      Regroup(output, sent, rest[..count]);
      Recut(sent, rest, count);
      written := written + rest[..count];
      sent := sent + rest[..count];
      rest := rest[count..];
    }
    EmptyFirst(sent);
  }

  /** `write_response` */
  method WriteResponse(name: string, keepAlive: bool, response: Response) returns (r: Option<string>)
    ensures r == Sent(name, keepAlive, response)
  {
    hide ResponseHead, EqualsIgnoreCase;
    var omit := EqualsIgnoreCase(name, "HEAD") || HasNoBody(response.status);
    var head := BuildResponseHead(keepAlive, response, false, Some(|response.body|));
    if head.None? { return None; }
    if !omit && response.body != "" && |response.body| <= BLOCK { return Some(head.value + response.body); }
    EmptyFirst(head.value);
    if omit || response.body == "" { return head; }
    var output := WriteBody(head.value, response.body);
    r := Some(output);
  }

  // ---- reading

  datatype Received = Received(status: nat, version: nat, headers: seq<Field>, body: string, keepAlive: bool)

  function VersionOf(text: string): Option<nat> {
    if text == "HTTP/1.1" then Some(11) else if text == "HTTP/1.0" then Some(10) else None
  }

  /** The version and the three-digit status of a status line. */
  function StatusOf(line: string): Option<(nat, nat)> {
    var first := Find(line, " ", 0);
    if first == -1 then None
    else
      assert At(line, first, " ");
      var version := VersionOf(line[..first]);
      var second := Find(line, " ", first + 1);
      assert second != -1 ==> At(line, second, " ");
      var text := if second == -1 then line[first + 1..] else line[first + 1..second];
      var status := ParseNumber(text, 10);
      if version.None? || |text| != 3 || status.None? || status.value < 100 then None else Some((version.value, status.value))
  }

  predicate MayNotHaveBody(name: string, status: nat) {
    || EqualsIgnoreCase(name, "HEAD")
    || (EqualsIgnoreCase(name, "CONNECT") && 200 <= status < 300)
    || HasNoBody(status)
  }

  predicate Informational(status: nat) {
    100 <= status < 200 && status != 101
  }

  /** The start of a response: version, status, head, and the bytes behind the head. */
  function ResponseStart(s: string, limit: nat): Option<(nat, nat, Head, string)> {
    var end := Find(s, HEAD_END, 0);
    if end == -1 || end + 4 > limit then None
    else
      assert At(s, end, HEAD_END);
      var head := ParsedHead(s[..end + 2]);
      if head.None? then None
      else
        var line := StatusOf(head.value.startLine);
        if line.None? then None else Some((line.value.0, line.value.1, head.value, s[end + 4..]))
  }

  function KeepAlive(version: nat, head: Head): bool {
    !head.close && (version >= 11 || head.keepAlive)
  }

  function UntilEof(name: string, status: nat, head: Head): bool {
    !MayNotHaveBody(name, status) && !head.Chunked() && head.contentLength.None?
  }

  /** The next response that is not informational, and the bytes behind it. */
  function NextResponse(s: string, name: string, limits: Limits, strict: bool): Option<(Received, string)>
    decreases |s|
  {
    var start := ResponseStart(s, limits.head);
    if start.None? then None
    else
      var (version, status, head, rest) := start.value;
      if Informational(status) then NextResponse(rest, name, limits, strict)
      else if MayNotHaveBody(name, status) then
        Some((Received(status, version, head.headers, "", KeepAlive(version, head)), rest))
      else
        var untilEof := UntilEof(name, status, head);
        var body := BodyOf(rest, head.Chunked(), head.contentLength, untilEof, limits, strict);
        if body.None? then None
        else Some((Received(status, version, head.headers + body.value.1, body.value.0, KeepAlive(version, head) && !untilEof), body.value.2))
  }

  lemma StartIsShorter(s: string, limit: nat)
    requires ResponseStart(s, limit).Some?
    ensures |ResponseStart(s, limit).value.3| < |s|
  {}

  /** The part of `read_response` up to the consumed head. */
  method ReadStart(reader: Reader, limit: nat) returns (version: nat, status: nat, r: Option<Head>)
    requires reader.Valid()
    modifies reader`blocks, reader.buffer
    ensures reader.Valid()
    ensures r.None? <==> ResponseStart(old(reader.Pending()), limit).None?
    ensures r.Some? ==> ResponseStart(old(reader.Pending()), limit) == Some((version, status, r.value, reader.Pending()))
  {
    hide Find, At, ParsedHead, StatusOf;
    ghost var pending := reader.Pending();
    version, status, r := 0, 0, None;
    var bytes := reader.ReadHead(limit);
    if bytes.None? { return; }
    var head := ParseHead(bytes.value);
    if head.None? { return; }
    var line := StatusOf(head.value.startLine);
    if line.None? { return; }
    version, status := line.value.0, line.value.1;
    ghost var view := reader.buffer.View();
    reader.buffer.Consume(|bytes.value| + 2);
    assert reader.Pending() == pending[|bytes.value| + 2..];
    r := head;
  }

  /** `read_response` without content decoding */
  method ReadResponse(reader: Reader, name: string, limits: Limits, spare: nat) returns (r: Option<Received>)
    requires reader.Valid()
    modifies reader`blocks, reader`delivered, reader.buffer
    ensures reader.Valid()
    ensures NextResponse(old(reader.Pending()), name, limits, true).Some? ==> r.Some?
    ensures r.Some? ==> NextResponse(old(reader.Pending()), name, limits, false) == Some((r.value, reader.Pending()))
  {
    hide ResponseStart, BodyOf, EqualsIgnoreCase, MayNotHaveBody;
    ghost var strict := NextResponse(reader.Pending(), name, limits, true);
    ghost var lax := NextResponse(reader.Pending(), name, limits, false);
    while true
      invariant reader.Valid()
      invariant strict == NextResponse(reader.Pending(), name, limits, true)
      invariant lax == NextResponse(reader.Pending(), name, limits, false)
      decreases |reader.Pending()|
    {
      ghost var pending := reader.Pending();
      var version, status, head := ReadStart(reader, limits.head);
      if head.None? { return None; }
      StartIsShorter(pending, limits.head);
      if Informational(status) { InformationalHasNoBody(name, status); }
      var keepAlive := KeepAlive(version, head.value);
      var noBody := MayNotHaveBody(name, status);
      var untilEof := !noBody && !head.value.Chunked() && head.value.contentLength.None?;
      if untilEof { keepAlive := false; }
      var body, trailers := "", [];
      if !noBody {
        var read := reader.ReadBody(head.value.Chunked(), head.value.contentLength, untilEof, limits, spare);
        if read.None? { return None; }
        body, trailers := reader.delivered, read.value;
      }
      if Informational(status) { continue; }
      assert head.value.headers + [] == head.value.headers;
      return Some(Received(status, version, head.value.headers + trailers, body, keepAlive));
    }
  }

  lemma InformationalHasNoBody(name: string, status: nat)
    requires Informational(status)
    ensures MayNotHaveBody(name, status)
  {}

  // ---- reading what was written

  /** What a reader is meant to recover of a response. */
  function Recovered(name: string, keepAlive: bool, response: Response): Received {
    Received(response.status, response.version, Kept(SentFields(keepAlive, response, Sized(|response.body|))),
             if Bodyless(name, response.status) then "" else response.body, keepAlive && response.keepAlive)
  }

  lemma VersionRoundTrip(version: nat)
    requires version == 10 || version == 11
    ensures VersionOf(VersionText(version)) == Some(version) && |VersionText(version)| == 8 && Free(VersionText(version), ' ')
  {
    assert "HTTP/1.0"[7] != "HTTP/1.1"[7];
  }

  lemma StatusTextLength(status: nat)
    requires 100 <= status <= 999
    ensures |NumberText(status, 10)| == 3
  {
    var (tens, units) := DivMod(status, 10);
    assert 10 <= tens <= 99;
    var (hundreds, rest) := DivMod(tens, 10);
    assert 1 <= hundreds <= 9;
    hide DivMod, Digit;
    assert NumberText(hundreds, 10) == [Digit(hundreds)];
    assert NumberText(tens, 10) == NumberText(hundreds, 10) + [Digit(rest)];
    assert NumberText(status, 10) == NumberText(tens, 10) + [Digit(units)];
  }

  lemma StatusTextIsPlain(status: nat)
    ensures Free(NumberText(status, 10), ' ')
  {
    hide NumberText;
    var s := NumberText(status, 10);
    assert AllDigits(s, 10);
    forall i | 0 <= i < |s| ensures s[i] != ' ' { assert IsDigit(s[i], 10); }
  }

  lemma FindAfterWord(a: string, word: string, rest: string)
    requires Free(word, ' ')
    ensures Find(a + word + " " + rest, " ", |a|) == |a| + |word|
  {
    var s := a + word + " " + rest;
    AtInMiddle(a + word, " ", rest);
    assert s == (a + word) + " " + rest;
    forall j | |a| <= j < |a| + |word| ensures !At(s, j, " ") {
      assert s[j] == word[j - |a|] && word[j - |a|] != ' ';
      assert s[j..j + 1][0] == s[j];
    }
    FindIs(s, " ", |a|, |a| + |word|);
  }

  lemma StatusRoundTrip(response: Response)
    requires (response.version == 10 || response.version == 11) && 100 <= response.status <= 999
    ensures StatusOf(StatusLine(response)) == Some((response.version, response.status))
  {
    var version, status, line := VersionText(response.version), NumberText(response.status, 10), StatusLine(response);
    VersionRoundTrip(response.version);
    StatusTextLength(response.status);
    StatusTextIsPlain(response.status);
    NumberRoundTrip(response.status, 10);
    hide VersionText, NumberText, ParseNumber, Find, At, VersionOf;
    var tail := status + " " + response.reason;
    assert line == "" + version + " " + tail;
    FindAfterWord("", version, tail);
    assert line == (version + " ") + status + " " + response.reason;
    FindAfterWord(version + " ", status, response.reason);
    assert line[..|version|] == version && line[|version| + 1..|version| + 1 + |status|] == status;
  }

  lemma DigitOfValue(c: char)
    requires IsDigit(c, 10)
    ensures Digit(DigitValue(c).value) == c
  {}

  lemma TextOfDigits(q: nat, r: nat)
    requires 0 < q && r < 10
    ensures NumberText(q * 10 + r, 10) == NumberText(q, 10) + [Digit(r)]
  {
    assert (q * 10 + r) / 10 == q && (q * 10 + r) % 10 == r;
    assert DivMod(q * 10 + r, 10) == (q, r);
    hide DivMod, Digit;
  }

  lemma OneDigit(a: nat)
    requires a < 10
    ensures NumberText(a, 10) == [Digit(a)]
  {
    hide DivMod, Digit;
  }

  lemma TextOfThree(a: nat, b: nat, c: nat)
    requires 1 <= a < 10 && b < 10 && c < 10
    ensures NumberText((a * 10 + b) * 10 + c, 10) == [Digit(a)] + [Digit(b)] + [Digit(c)]
  {
    hide *;
    OneDigit(a);
    TextOfDigits(a, b);
    TextOfDigits(a * 10 + b, c);
  }

  lemma ValueSnocIs(s: string, front: string)
    requires AllDigits(s, 10) && s != "" && front == s[..|s| - 1]
    ensures AllDigits(front, 10) && DigitValue(s[|s| - 1]).Some? && Value(s, 10) == Value(front, 10) * 10 + DigitValue(s[|s| - 1]).value
  {
    assert IsDigit(s[|s| - 1], 10);
    hide DigitValue;
  }

  lemma ValueOfThree(text: string)
    requires |text| == 3 && AllDigits(text, 10)
    ensures IsDigit(text[0], 10) && IsDigit(text[1], 10) && IsDigit(text[2], 10)
    ensures Value(text, 10) == (DigitValue(text[0]).value * 10 + DigitValue(text[1]).value) * 10 + DigitValue(text[2]).value
  {
    var one, two := text[..1], text[..2];
    assert two[..1] == one && one[..0] == "" && two[1] == text[1] && one[0] == text[0];
    EmptyValue(10);
    hide Value, DigitValue;
    ValueSnocIs(text, two);
    ValueSnocIs(two, one);
    ValueSnocIs(one, "");
  }

  /** Three digits without a leading zero are the text of their number. */
  lemma ThreeDigits(text: string)
    requires |text| == 3 && AllDigits(text, 10) && 100 <= Value(text, 10)
    ensures Value(text, 10) <= 999 && NumberText(Value(text, 10), 10) == text
  {
    ValueOfThree(text);
    DigitOfValue(text[0]);
    DigitOfValue(text[1]);
    DigitOfValue(text[2]);
    hide Value, DigitValue, Digit, NumberText, AllDigits;
    TextOfThree(DigitValue(text[0]).value, DigitValue(text[1]).value, DigitValue(text[2]).value);
    assert text == [text[0]] + [text[1]] + [text[2]];
  }

  /** The version and the status, with or without a reason behind them. */
  predicate IsStatusLine(line: string, version: nat, status: nat) {
    && (version == 10 || version == 11) && 100 <= status <= 999
    && var front := VersionText(version) + " " + NumberText(status, 10);
       line == front || front + " " <= line
  }

  lemma SpaceBehind(line: string, from: nat)
    requires from <= |line|
    ensures Free(line[from..], ' ') ==> Find(line, " ", from) == -1
  {
    var rest := line[from..];
    if Free(rest, ' ') {
      FindAbsent(rest, ' ');
      assert " " == [' '];
      FindInSuffix(line, " ", from);
    }
  }

  lemma PrintedStatus(line: string, version: nat, status: nat)
    requires IsStatusLine(line, version, status)
    ensures StatusOf(line) == Some((version, status))
  {
    var text, digits := VersionText(version), NumberText(status, 10);
    var front := text + " " + digits;
    VersionRoundTrip(version);
    StatusTextLength(status);
    StatusTextIsPlain(status);
    NumberRoundTrip(status, 10);
    hide VersionText, NumberText, ParseNumber, Find, At, VersionOf;
    if line == front {
      assert line == "" + text + " " + digits && line[|text| + 1..] == digits;
      FindAfterWord("", text, digits);
      SpaceBehind(line, |text| + 1);
      assert line[..|text|] == text;
    } else {
      var reason := line[|front| + 1..];
      assert line == front + " " + reason;
      assert line == "" + text + " " + (digits + " " + reason) && line == (text + " ") + digits + " " + reason;
      FindAfterWord("", text, digits + " " + reason);
      FindAfterWord(text + " ", digits, reason);
      assert line[..|text|] == text && line[|text| + 1..|text| + 1 + |digits|] == digits;
    }
  }

  /** Where the spaces of an accepted line are. */
  lemma StatusSpaces(line: string)
    requires StatusOf(line).Some?
    ensures var first, second := Find(line, " ", 0), Find(line, " ", Find(line, " ", 0) + 1);
            && 0 <= first < |line| && line[first] == ' '
            && (second == -1 || (first < second < |line| && line[second] == ' '))
            && var text := if second == -1 then line[first + 1..] else line[first + 1..second];
               && VersionOf(line[..first]) == Some(StatusOf(line).value.0)
               && |text| == 3 && AllDigits(text, 10) && Value(text, 10) == StatusOf(line).value.1 && 100 <= Value(text, 10)
  {
    var first := Find(line, " ", 0);
    FoundWithin(line, " ", 0);
    FoundWithin(line, " ", first + 1);
    var second := Find(line, " ", first + 1);
    assert " " == [' '];
    CharAt(line, first, ' ');
    if second != -1 { CharAt(line, second, ' '); }
    hide Find, At, Value, AllDigits, VersionOf;
  }

  lemma VersionIsText(text: string)
    ensures VersionOf(text).Some? ==> VersionText(VersionOf(text).value) == text && (VersionOf(text).value == 10 || VersionOf(text).value == 11)
  {}

  lemma JoinedStatus(line: string, first: nat, second: int)
    requires first < |line| && line[first] == ' ' && (second == -1 || (first < second < |line| && line[second] == ' '))
    ensures var text := if second == -1 then line[first + 1..] else line[first + 1..second];
            var front := line[..first] + " " + text;
            if second == -1 then line == front else front + " " <= line
  {
    if second != -1 { assert line[..second + 1] == line[..first] + " " + line[first + 1..second] + " "; }
  }

  lemma AcceptedStatus(line: string)
    requires StatusOf(line).Some?
    ensures IsStatusLine(line, StatusOf(line).value.0, StatusOf(line).value.1)
  {
    StatusSpaces(line);
    var first, second := Find(line, " ", 0), Find(line, " ", Find(line, " ", 0) + 1);
    hide StatusOf, VersionOf, VersionText, NumberText, Find, Value, AllDigits;
    VersionIsText(line[..first]);
    ThreeDigits(if second == -1 then line[first + 1..] else line[first + 1..second]);
    JoinedStatus(line, first, second);
  }

  /** A status line is accepted exactly when it is a known version, a space, three digits that make at least 100, and nothing
      or a space with any reason behind them. */
  lemma StatusLineIs(line: string, version: nat, status: nat)
    ensures StatusOf(line) == Some((version, status)) <==> IsStatusLine(line, version, status)
  {
    if IsStatusLine(line, version, status) { PrintedStatus(line, version, status); }
    if StatusOf(line).Some? { AcceptedStatus(line); }
    hide StatusOf, IsStatusLine;
  }

  lemma TokenOf(value: string, token: string)
    requires Free(value, ',') && Text.Trimmed(value) && value != ""
    ensures AnyToken([value], token) == EqualsIgnoreCase(value, token)
  {
    ItemsOfPlain(value);
    TrimmedStays(value);
    hide EqualsIgnoreCase, Items, TrimBlank;
    assert Items(value)[0] == value;
    assert HasToken(value, token) == EqualsIgnoreCase(value, token);
    assert [value][0] == value;
  }

  lemma TokensOf(keepAlive: bool)
    ensures AnyToken([Token(keepAlive)], "close") == !keepAlive && AnyToken([Token(keepAlive)], "keep-alive") == keepAlive
  {
    var value := Token(keepAlive);
    assert Free(value, ',');
    TokenIsTrimmed(keepAlive);
    SelfEqual(value);
    hide AnyToken;
    TokenOf(value, "close");
    TokenOf(value, "keep-alive");
  }

  lemma SizedBody(body: string, rest: string, limits: Limits, strict: bool)
    requires |body| <= limits.body
    ensures BodyOf(body + rest, false, Some(|body|), false, limits, strict) == Some((body, [], rest))
  {
    assert (body + rest)[..|body|] == body && (body + rest)[|body|..] == rest;
  }

  predicate Deliverable(name: string, keepAlive: bool, response: Response, limits: Limits) {
    && Sent(name, keepAlive, response).Some?
    && ValidValue(response.reason) && |response.body| <= MAX_U64
    && response.status >= 200 && (EqualsIgnoreCase(name, "CONNECT") ==> response.status >= 300)
    && |ResponseHead(keepAlive, response, Sized(|response.body|)).value| <= limits.head
    && (Bodyless(name, response.status) || |response.body| <= limits.body)
  }

  function SentBody(name: string, response: Response): string {
    if Bodyless(name, response.status) then "" else response.body
  }

  /** A head as it is recovered from a response. */
  predicate HeadOf(head: Head, keepAlive: bool, response: Response, wanted: Framing) {
    && head.headers == Kept(SentFields(keepAlive, response, wanted))
    && FramingOf(head) == ResponseFraming(response.status, wanted)
    && head.close == !(keepAlive && response.keepAlive) && head.keepAlive == (keepAlive && response.keepAlive)
  }

  lemma StartOf(text: string, more: string, limit: nat, version: nat, status: nat, head: Head)
    requires 4 <= |text| <= limit && Find(text + more, HEAD_END, 0) == |text| - 4
    requires ParsedHead(text[..|text| - 2]) == Some(head) && StatusOf(head.startLine) == Some((version, status))
    ensures ResponseStart(text + more, limit) == Some((version, status, head, more))
  {
    hide ParsedHead, StatusOf, Find;
    HeadIsCut(text, more);
  }

  lemma HeadIsRead(keepAlive: bool, response: Response, wanted: Framing, more: string)
    requires ResponseHead(keepAlive, response, wanted).Some?
    requires ValidValue(response.reason) && (wanted.Sized? ==> wanted.length <= MAX_U64)
    ensures var text := ResponseHead(keepAlive, response, wanted).value;
            && |text| >= 4 && Find(text + more, HEAD_END, 0) == |text| - 4
            && var head := ParsedHead(text[..|text| - 2]);
            && head.Some? && head.value.startLine == StatusLine(response) && HeadOf(head.value, keepAlive, response, wanted)
  {
    ResponseHeadIsRead(keepAlive, response, wanted, more);
    TokensOf(keepAlive && response.keepAlive);
    hide ResponseHead, ParsedHead, Find, StatusLine, AnyToken, SentFields, Kept, Token, ResponseFraming, FramingOf;
  }

  lemma SentParts(name: string, keepAlive: bool, response: Response, rest: string, limits: Limits)
    requires Deliverable(name, keepAlive, response, limits)
    ensures ResponseHead(keepAlive, response, Sized(|response.body|)).Some?
    ensures Sent(name, keepAlive, response).value + rest ==
            ResponseHead(keepAlive, response, Sized(|response.body|)).value + (SentBody(name, response) + rest)
  {
    hide ResponseHead, Bodyless;
    Regroup(ResponseHead(keepAlive, response, Sized(|response.body|)).value, SentBody(name, response), rest);
  }

  lemma ResponseIsValid(name: string, keepAlive: bool, response: Response, limits: Limits)
    requires Deliverable(name, keepAlive, response, limits)
    ensures (response.version == 10 || response.version == 11) && 200 <= response.status <= 999
    ensures |response.body| <= MAX_U64 && ValidValue(response.reason)
    ensures |ResponseHead(keepAlive, response, Sized(|response.body|)).value| <= limits.head
  {}

  lemma StartIsRead(name: string, keepAlive: bool, response: Response, rest: string, limits: Limits)
    requires Deliverable(name, keepAlive, response, limits)
    ensures var start := ResponseStart(Sent(name, keepAlive, response).value + rest, limits.head);
            && start.Some? && HeadOf(start.value.2, keepAlive, response, Sized(|response.body|))
            && start.value == (response.version, response.status, start.value.2, SentBody(name, response) + rest)
  {
    SentParts(name, keepAlive, response, rest, limits);
    ResponseIsValid(name, keepAlive, response, limits);
    hide *;
    var text := ResponseHead(keepAlive, response, Sized(|response.body|)).value;
    var more := SentBody(name, response) + rest;
    HeadIsRead(keepAlive, response, Sized(|response.body|), more);
    StatusRoundTrip(response);
    StartOf(text, more, limits.head, response.version, response.status, ParsedHead(text[..|text| - 2]).value);
  }

  /** A response without a body ends with its head. */
  lemma BodylessIsNext(s: string, name: string, limits: Limits, strict: bool, version: nat, status: nat, head: Head, rest: string)
    requires ResponseStart(s, limits.head) == Some((version, status, head, rest))
    requires !Informational(status) && MayNotHaveBody(name, status)
    ensures NextResponse(s, name, limits, strict) == Some((Received(status, version, head.headers, "", KeepAlive(version, head)), rest))
  {
    hide ResponseStart, BodyOf, MayNotHaveBody, Informational, KeepAlive;
  }

  lemma SizedIsNext(s: string, name: string, limits: Limits, strict: bool, version: nat, status: nat, head: Head,
                    body: string, rest: string)
    requires ResponseStart(s, limits.head) == Some((version, status, head, body + rest))
    requires !Informational(status) && !MayNotHaveBody(name, status)
    requires FramingOf(head) == Sized(|body|) && |body| <= limits.body
    ensures NextResponse(s, name, limits, strict) == Some((Received(status, version, head.headers, body, KeepAlive(version, head)), rest))
  {
    SizedBody(body, rest, limits, strict);
    hide ResponseStart, BodyOf, MayNotHaveBody, Informational, KeepAlive;
    assert head.headers + [] == head.headers;
  }

  lemma HeadKeepsAlive(head: Head, keepAlive: bool, response: Response, wanted: Framing)
    requires HeadOf(head, keepAlive, response, wanted) && (response.version == 10 || response.version == 11)
    ensures KeepAlive(response.version, head) == (keepAlive && response.keepAlive)
  {
    hide Kept, SentFields, FramingOf, ResponseFraming;
  }

  /** One response: everything about it is recovered, and exactly the bytes behind it are left. */
  lemma ResponseIsRead(name: string, keepAlive: bool, response: Response, rest: string, limits: Limits, strict: bool)
    requires Deliverable(name, keepAlive, response, limits)
    ensures NextResponse(Sent(name, keepAlive, response).value + rest, name, limits, strict) ==
            Some((Recovered(name, keepAlive, response), rest))
  {
    var s := Sent(name, keepAlive, response).value + rest;
    ResponseIsValid(name, keepAlive, response, limits);
    BodylessMay(name, response.status);
    EmptyFirst(rest);
    StartIsRead(name, keepAlive, response, rest, limits);
    hide ResponseHead, EqualsIgnoreCase, SentFields, Kept, ValidValue, ResponseStart, Sent, FramingOf, KeepAlive, NextResponse;
    var head := ResponseStart(s, limits.head).value.2;
    HeadKeepsAlive(head, keepAlive, response, Sized(|response.body|));
    if Bodyless(name, response.status) {
      BodylessIsNext(s, name, limits, strict, response.version, response.status, head, rest);
    } else {
      SizedIsNext(s, name, limits, strict, response.version, response.status, head, response.body, rest);
    }
  }

  lemma BodylessMay(name: string, status: nat)
    requires EqualsIgnoreCase(name, "CONNECT") ==> status >= 300
    ensures MayNotHaveBody(name, status) == Bodyless(name, status)
  {}

  /** The statuses whose responses end with their head, whoever asks. */
  const EMPTY_STATUSES := [101, 204, 205, 304]

  /** A response that may have a body is sent with it, and the body itself is recovered. */
  lemma BodyIsRecovered(name: string, keepAlive: bool, response: Response, rest: string, limits: Limits, strict: bool)
    requires Deliverable(name, keepAlive, response, limits)
    requires !EqualsIgnoreCase(name, "HEAD") && response.status !in EMPTY_STATUSES
    ensures var head, fields := ResponseHead(keepAlive, response, Sized(|response.body|)), SentFields(keepAlive, response, Sized(|response.body|));
            && head.Some? && Sent(name, keepAlive, response) == Some(head.value + response.body)
            && NextResponse(head.value + response.body + rest, name, limits, strict) ==
               Some((Received(response.status, response.version, Kept(fields), response.body, keepAlive && response.keepAlive), rest))
  {
    StatusesWithoutBody(response.status);
    hide ResponseHead, EqualsIgnoreCase, SentFields, Kept, ValidValue, NextResponse, HasNoBody;
    ResponseIsRead(name, keepAlive, response, rest, limits, strict);
  }

  lemma StatusesWithoutBody(status: nat)
    ensures status >= 200 || status == 101 ==> (HasNoBody(status) <==> status in EMPTY_STATUSES)
  {}

  /** A response to HEAD, or with one of these statuses, is sent without its body. */
  lemma BodyIsNotSent(name: string, keepAlive: bool, response: Response)
    requires EqualsIgnoreCase(name, "HEAD") || response.status in EMPTY_STATUSES
    ensures Sent(name, keepAlive, response) == ResponseHead(keepAlive, response, Sized(|response.body|))
  {
    StatusesWithoutBody(response.status);
    hide ResponseHead, EqualsIgnoreCase, HasNoBody;
    var head := ResponseHead(keepAlive, response, Sized(|response.body|));
    if head.Some? { EmptyFirst(head.value); }
  }

  /** The length that the head of a response announces: none for 1xx and 204, zero for 205, and the one of the body otherwise. */
  lemma LengthIsAnnounced(keepAlive: bool, response: Response)
    requires ResponseHead(keepAlive, response, Sized(|response.body|)).Some? && ValidValue(response.reason) && |response.body| <= MAX_U64
    ensures var text := ResponseHead(keepAlive, response, Sized(|response.body|)).value;
            && |text| >= 4
            && var head := ParsedHead(text[..|text| - 2]);
            && head.Some? && head.value.codings == 0
            && head.value.contentLength ==
               (if response.status < 200 || response.status == 204 then None else if response.status == 205 then Some(0) else Some(|response.body|))
  {
    ResponseHeadIsRead(keepAlive, response, Sized(|response.body|), "");
    assert 100 <= response.status;
    hide ResponseHead, ParsedHead, Find, StatusLine, AnyToken, SentFields, Kept, Token;
  }

  /** Such a response ends with its head, whatever length the head announces: the next message follows at once. */
  lemma HeadEndsMessage(s: string, name: string, limits: Limits, strict: bool)
    requires ResponseStart(s, limits.head).Some?
    requires var status := ResponseStart(s, limits.head).value.1;
             status in EMPTY_STATUSES || (status >= 200 && EqualsIgnoreCase(name, "HEAD"))
             || (200 <= status < 300 && EqualsIgnoreCase(name, "CONNECT"))
    ensures var (version, status, head, rest) := ResponseStart(s, limits.head).value;
            NextResponse(s, name, limits, strict) == Some((Received(status, version, head.headers, "", KeepAlive(version, head)), rest))
  {
    var (version, status, head, rest) := ResponseStart(s, limits.head).value;
    StatusesWithoutBody(status);
    hide ResponseStart, EqualsIgnoreCase, HasNoBody, BodyOf, KeepAlive;
    BodylessIsNext(s, name, limits, strict, version, status, head, rest);
  }

  // ---- responses that end with their connection

  /** The bytes of a response without framing fields, from any server. */
  function Unending(response: Response, fields: seq<Field>): string {
    StatusLine(response) + CRLF + FieldLines(fields) + CRLF + response.body
  }

  lemma UnframedStart(response: Response, fields: seq<Field>, limits: Limits)
    requires (response.version == 10 || response.version == 11) && 100 <= response.status <= 999 && ValidValue(response.reason)
    requires AllValid(fields) && ValuesOf(fields, "Content-Length") == [] && ValuesOf(fields, "Transfer-Encoding") == []
    requires |Unending(response, fields)| - |response.body| <= limits.head
    ensures var start := ResponseStart(Unending(response, fields), limits.head);
            && start.Some? && start.value.0 == response.version && start.value.1 == response.status && start.value.3 == response.body
            && start.value.2.headers == Kept(fields) && start.value.2.contentLength.None? && start.value.2.codings == 0
  {
    StatusLineIsValid(response);
    StatusRoundTrip(response);
    assert Announces(fields, Unframed);
    hide StatusLine, FieldLines, ValuesOf, AllValid, ValidValue, Find, ParsedHead, StatusOf, Kept, Announces;
    FramingIsRead(StatusLine(response), fields, Unframed, response.body);
    var text := StatusLine(response) + CRLF + FieldLines(fields);
    assert (text + CRLF)[..|text + CRLF| - 2] == text;
    StartOf(text + CRLF, response.body, limits.head, response.version, response.status, ParsedHead(text).value);
  }

  /** Without framing fields the body is everything up to the end of the connection, which is not kept alive; it is refused
      exactly when it exceeds the limit. */
  lemma UnframedIsReadToEnd(name: string, response: Response, fields: seq<Field>, limits: Limits, strict: bool)
    requires (response.version == 10 || response.version == 11) && 200 <= response.status <= 999 && ValidValue(response.reason)
    requires AllValid(fields) && ValuesOf(fields, "Content-Length") == [] && ValuesOf(fields, "Transfer-Encoding") == []
    requires |Unending(response, fields)| - |response.body| <= limits.head
    requires !EqualsIgnoreCase(name, "HEAD") && !EqualsIgnoreCase(name, "CONNECT") && response.status !in EMPTY_STATUSES
    ensures NextResponse(Unending(response, fields), name, limits, strict) ==
            if |response.body| > limits.body then None
            else Some((Received(response.status, response.version, Kept(fields), response.body, false), ""))
  {
    UnframedStart(response, fields, limits);
    StatusesWithoutBody(response.status);
    hide ResponseStart, EqualsIgnoreCase, HasNoBody, Kept, KeepAlive, Unending, ValuesOf, AllValid, ValidValue;
    var head := ResponseStart(Unending(response, fields), limits.head).value.2;
    assert head.headers + [] == head.headers;
  }

  // ---- streamed responses

  /** The bytes of a response whose body is streamed in chunks. */
  function Streamed(keepAlive: bool, response: Response, writes: seq<string>): Option<string> {
    var head := ResponseHead(keepAlive, response, ChunkedBody);
    if head.None? then None else Some(head.value + (ChunkedAll(writes) + LAST_CHUNK))
  }

  lemma ChunkedIsNext(s: string, name: string, limits: Limits, strict: bool, version: nat, status: nat, head: Head,
                      writes: seq<string>, rest: string)
    requires ResponseStart(s, limits.head) == Some((version, status, head, ChunkedAll(writes) + LAST_CHUNK + rest))
    requires !Informational(status) && !MayNotHaveBody(name, status)
    requires FramingOf(head) == ChunkedBody && |Join(writes)| <= limits.body && limits.head >= 2
    ensures NextResponse(s, name, limits, strict) == Some((Received(status, version, head.headers, Join(writes), KeepAlive(version, head)), rest))
  {
    hide ResponseStart, MayNotHaveBody, Informational, KeepAlive, Dechunked, Chunked, ChunkedAll, Join;
    WritesAreRead(writes, rest, 0, limits, strict);
    assert head.headers + [] == head.headers;
  }

  /** A streamed response is recovered with the concatenation of the producer's writes as its body. */
  lemma StreamIsRead(name: string, keepAlive: bool, response: Response, writes: seq<string>, rest: string, limits: Limits, strict: bool)
    requires Streamed(keepAlive, response, writes).Some? && ValidValue(response.reason)
    requires response.status >= 200 && !MayNotHaveBody(name, response.status)
    requires 2 <= |ResponseHead(keepAlive, response, ChunkedBody).value| <= limits.head && |Join(writes)| <= limits.body
    ensures NextResponse(Streamed(keepAlive, response, writes).value + rest, name, limits, strict) ==
            Some((Received(response.status, response.version, Kept(SentFields(keepAlive, response, ChunkedBody)),
                           Join(writes), keepAlive && response.keepAlive), rest))
  {
    StreamedParts(keepAlive, response, writes, rest);
    assert !Informational(response.status) && ResponseFraming(response.status, ChunkedBody) == ChunkedBody;
    hide ResponseHead, Streamed, ParsedHead, Find, StatusLine, SentFields, Kept, KeepAlive, NextResponse, ChunkedAll, Join, FramingOf,
         MayNotHaveBody, StatusOf, ResponseStart, ValidValue, ResponseFraming;
    var text := ResponseHead(keepAlive, response, ChunkedBody).value;
    var body := ChunkedAll(writes) + LAST_CHUNK + rest;
    HeadIsRead(keepAlive, response, ChunkedBody, body);
    StatusRoundTrip(response);
    var head := ParsedHead(text[..|text| - 2]).value;
    StartOf(text, body, limits.head, response.version, response.status, head);
    HeadKeepsAlive(head, keepAlive, response, ChunkedBody);
    ChunkedIsNext(text + body, name, limits, strict, response.version, response.status, head, writes, rest);
  }

  lemma StreamedParts(keepAlive: bool, response: Response, writes: seq<string>, rest: string)
    requires Streamed(keepAlive, response, writes).Some?
    ensures ResponseHead(keepAlive, response, ChunkedBody).Some? && (response.version == 10 || response.version == 11)
    ensures 100 <= response.status <= 999
    ensures Streamed(keepAlive, response, writes).value + rest ==
            ResponseHead(keepAlive, response, ChunkedBody).value + (ChunkedAll(writes) + LAST_CHUNK + rest)
  {
    Regroup(ResponseHead(keepAlive, response, ChunkedBody).value, ChunkedAll(writes) + LAST_CHUNK, rest);
    hide ChunkedAll;
  }

  // ---- interim responses

  /** A response with a 1xx status other than 101 is skipped, whatever its head says about a body. */
  lemma InterimIsSkipped(text: string, rest: string, name: string, limits: Limits, strict: bool)
    requires ResponseStart(text + rest, limits.head).Some?
    requires var status := ResponseStart(text + rest, limits.head).value.1; 100 <= status < 200 && status != 101
    requires ResponseStart(text + rest, limits.head).value.3 == rest
    ensures NextResponse(text + rest, name, limits, strict) == NextResponse(rest, name, limits, strict)
  {
    hide ResponseStart, BodyOf, MayNotHaveBody;
  }

  /** The interim response that a server sends before it reads an expected body */
  const CONTINUE := "HTTP/1.1 100 Continue\r\n\r\n"

  const CONTINUE_LINE := "HTTP/1.1 100 Continue"

  lemma ContinueLine()
    ensures StatusOf(CONTINUE_LINE) == Some((11, 100)) && ValidValue(CONTINUE_LINE) && OneLine(CONTINUE_LINE)
  {
    var response := Response(100, "Continue", 11, [], true, "");
    HundredText();
    assert StatusLine(response) == CONTINUE_LINE;
    assert ValidValue("Continue");
    StatusRoundTrip(response);
    StatusLineIsValid(response);
    ValidIsOneLine(CONTINUE_LINE);
  }

  lemma NoFields()
    ensures AllValid([]) && Announces([], Unframed) && FieldLines([]) == ""
  {
    assert Values([], "Content-Length") == [] && Values([], "Transfer-Encoding") == [];
  }

  lemma ContinueParts(rest: string)
    ensures CONTINUE == CONTINUE_LINE + CRLF + "" + CRLF && |CONTINUE| == 25
    ensures CONTINUE[..|CONTINUE| - 2] == CONTINUE_LINE + CRLF + ""
  {}

  /** A client that waits for its response does not notice it. */
  lemma ContinueIsSkipped(rest: string, name: string, limits: Limits, strict: bool)
    requires limits.head >= |CONTINUE|
    ensures NextResponse(CONTINUE + rest, name, limits, strict) == NextResponse(rest, name, limits, strict)
  {
    assert Informational(100);
    ContinueParts(rest);
    ContinueLine();
    NoFields();
    var text := CONTINUE_LINE + CRLF + "";
    assert CONTINUE_LINE != "" && |text| == 23;
    hide *;
    FramingIsRead(CONTINUE_LINE, [], Unframed, rest);
    StartOf(CONTINUE, rest, limits.head, 11, 100, ParsedHead(text).value);
    InterimIsSkipped(CONTINUE, rest, name, limits, strict);
  }

  lemma HundredText()
    ensures NumberText(100, 10) == "100"
  {
    assert DivMod(100, 10) == (10, 0) && DivMod(10, 10) == (1, 0);
    assert Digit(0) == '0' && Digit(1) == '1';
    hide DivMod, Digit;
    assert NumberText(1, 10) == [Digit(1)];
    assert NumberText(10, 10) == NumberText(1, 10) + [Digit(0)];
  }

  // ---- conversations

  datatype Reply = Whole(response: Response) | Chunks(response: Response, writes: seq<string>)

  /** One request, as far as its response depends on it, and the reply. */
  datatype Turn = Turn(name: string, keepAlive: bool, reply: Reply)

  function TurnBytes(turn: Turn): Option<string> {
    match turn.reply
    case Whole(response) => Sent(turn.name, turn.keepAlive, response)
    case Chunks(response, writes) => Streamed(turn.keepAlive, response, writes)
  }

  /** Final responses within the limits of the reader. */
  predicate Acceptable(turn: Turn, limits: Limits) {
    match turn.reply
    case Whole(response) => Deliverable(turn.name, turn.keepAlive, response, limits)
    case Chunks(response, writes) =>
      && Streamed(turn.keepAlive, response, writes).Some? && ValidValue(response.reason)
      && response.status >= 200 && !MayNotHaveBody(turn.name, response.status)
      && 2 <= |ResponseHead(turn.keepAlive, response, ChunkedBody).value| <= limits.head && |Join(writes)| <= limits.body
  }

  function TurnRecovered(turn: Turn): Received {
    match turn.reply
    case Whole(response) => Recovered(turn.name, turn.keepAlive, response)
    case Chunks(response, writes) =>
      Received(response.status, response.version, Kept(SentFields(turn.keepAlive, response, ChunkedBody)), Join(writes),
               turn.keepAlive && response.keepAlive)
  }

  function ReplyStatus(reply: Reply): nat {
    reply.response.status
  }

  /** What the server meant to send. */
  function ReplyBody(reply: Reply): string {
    match reply
    case Whole(response) => response.body
    case Chunks(_, writes) => Join(writes)
  }

  /** What the client is meant to see of it: nothing for HEAD and for the statuses without a body. */
  function MeantBody(turn: Turn): string {
    if EqualsIgnoreCase(turn.name, "HEAD") || ReplyStatus(turn.reply) in EMPTY_STATUSES then "" else ReplyBody(turn.reply)
  }

  lemma TurnBody(turn: Turn, limits: Limits)
    requires Acceptable(turn, limits)
    ensures TurnRecovered(turn).status == ReplyStatus(turn.reply)
    ensures TurnRecovered(turn).body == MeantBody(turn)
  {
    StatusesWithoutBody(ReplyStatus(turn.reply));
    hide ResponseHead, EqualsIgnoreCase, SentFields, Kept, ValidValue, HasNoBody, Sent, Streamed, Join;
  }

  predicate AllAcceptable(turns: seq<Turn>, limits: Limits) {
    forall i :: 0 <= i < |turns| ==> TurnBytes(turns[i]).Some? && Acceptable(turns[i], limits)
  }

  /** Everything the server writes on one connection. */
  function Stream(turns: seq<Turn>): string
    requires forall i :: 0 <= i < |turns| ==> TurnBytes(turns[i]).Some?
  {
    if turns == [] then "" else TurnBytes(turns[0]).value + Stream(turns[1..])
  }

  lemma TurnIsRead(turn: Turn, rest: string, limits: Limits, strict: bool)
    requires TurnBytes(turn).Some? && Acceptable(turn, limits)
    ensures NextResponse(TurnBytes(turn).value + rest, turn.name, limits, strict) == Some((TurnRecovered(turn), rest))
  {
    hide NextResponse, Sent, Streamed, ResponseHead, Deliverable, MayNotHaveBody, Recovered, SentFields, Kept, Join;
    match turn.reply
    case Whole(response) => ResponseIsRead(turn.name, turn.keepAlive, response, rest, limits, strict);
    case Chunks(response, writes) => StreamIsRead(turn.name, turn.keepAlive, response, writes, rest, limits, strict);
  }

  /** A client reads the responses of a whole connection one after the other: each one is recovered in order,
      wherever the bytes were cut, and what follows the last one is left. */
  method Converse(turns: seq<Turn>, suffix: string, blocks: seq<string>, limits: Limits) returns (received: seq<Received>, rest: string)
    requires AllAcceptable(turns, limits) && Join(blocks) == Stream(turns) + suffix
    ensures |received| == |turns| && forall i :: 0 <= i < |turns| ==> received[i] == TurnRecovered(turns[i])
    ensures forall i :: 0 <= i < |turns| ==> received[i].body == MeantBody(turns[i])
    ensures rest == suffix
  {
    hide Join, NextResponse, TurnBytes, Acceptable, TurnRecovered;
    var reader := new Reader(blocks);
    received := [];
    for i := 0 to |turns|
      invariant reader.Valid() && fresh(reader) && fresh(reader.buffer)
      invariant reader.Pending() == Stream(turns[i..]) + suffix
      invariant |received| == i && forall j :: 0 <= j < i ==> received[j] == TurnRecovered(turns[j])
    {
      ghost var more := Stream(turns[i + 1..]) + suffix;
      assert turns[i..][0] == turns[i] && turns[i..][1..] == turns[i + 1..];
      Regroup(TurnBytes(turns[i]).value, Stream(turns[i + 1..]), suffix);
      TurnIsRead(turns[i], more, limits, true);
      TurnIsRead(turns[i], more, limits, false);
      var response := ReadResponse(reader, turns[i].name, limits, BLOCK);
      received := received + [response.value];
    }
    forall i | 0 <= i < |turns| ensures TurnRecovered(turns[i]).body == MeantBody(turns[i]) { TurnBody(turns[i], limits); }
    EmptyFirst(suffix);
    rest := reader.Rest();
  }
}
