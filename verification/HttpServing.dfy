/** What a server reads: the requests of a connection one after the other, each with its request line, its `Host`, its
    expectation and its body. */
module HttpServing {
  import opened Wrappers
  import opened Text
  import opened HeaderFields
  import opened Headers
  import opened HttpHead
  import opened HttpFraming
  import opened HttpHeadRoundTrip
  import opened HttpWriter
  import opened HttpBody
  import opened HttpChunks
  import opened HttpRequests
  import opened HttpMessages
  import opened Paths
  import opened UrlText

  // ---- the request line

  /** Name, target and version of a line with exactly two spaces. */
  function LineParts(line: string): Option<(string, string, nat)> {
    var first, last := Find(line, " ", 0), FindLast(line, ' ');
    FoundWithin(line, " ", 0);
    if first == -1 || last == first || Find(line, " ", first + 1) != last then None
    else
      var name, target, version := line[..first], line[first + 1..last], VersionOf(line[last + 1..]);
      if !ValidName(name) || !ValidTarget(target) || version.None? then None else Some((name, target, version.value))
  }

  lemma LastIs(s: string, c: char, i: nat)
    requires i < |s| && s[i] == c && forall j :: i < j < |s| ==> s[j] != c
    ensures FindLast(s, c) == i
  {}

  lemma TokensHaveNoSpace(name: string, target: string)
    requires ValidName(name) && ValidTarget(target)
    ensures Free(name, ' ') && Free(target, ' ')
  {
    forall i | 0 <= i < |name| ensures name[i] != ' ' { assert TokenChar(name[i]); }
  }

  lemma LastSpace(front: string, text: string)
    requires Free(text, ' ')
    ensures FindLast(front + " " + text, ' ') == |front|
  {
    hide *;
    BehindSpace(front, text);
    LastIs(front + " " + text, ' ', |front|);
  }

  lemma BehindSpace(front: string, text: string)
    requires Free(text, ' ')
    ensures var line := front + " " + text;
            |front| < |line| && line[|front|] == ' ' && forall j :: |front| < j < |line| ==> line[j] != ' '
  {
    var line := front + " " + text;
    forall j | |front| < j < |line| ensures line[j] != ' ' { assert line[j] == text[j - |front| - 1]; }
  }

  lemma SpaceRegroup(name: string, target: string, text: string)
    ensures name + " " + target + " " + text == "" + name + " " + (target + " " + text)
    ensures |name + " "| == |name| + 1
  {}

  /** The two spaces of a line. */
  lemma SpacesAt(name: string, target: string, text: string)
    requires Free(name, ' ') && Free(target, ' ') && Free(text, ' ')
    ensures var line, last := name + " " + target + " " + text, |name| + 1 + |target|;
            && Find(line, " ", 0) == |name| && Find(line, " ", |name| + 1) == last && FindLast(line, ' ') == last
  {
    hide *;
    SpaceRegroup(name, target, text);
    FindAfterWord("", name, target + " " + text);
    FindAfterWord(name + " ", target, text);
    LastSpace(name + " " + target, text);
  }

  lemma CutAtSpaces(name: string, target: string, text: string)
    ensures var line, last := name + " " + target + " " + text, |name| + 1 + |target|;
            && line[..|name|] == name && line[|name| + 1..last] == target && line[last + 1..] == text
  {}

  /** A printed request line is taken apart into what it was made of. */
  lemma PrintedLineParts(name: string, target: string, version: nat)
    requires ValidName(name) && ValidTarget(target) && (version == 10 || version == 11)
    ensures LineParts(name + " " + target + " " + VersionText(version)) == Some((name, target, version))
  {
    TokensHaveNoSpace(name, target);
    VersionRoundTrip(version);
    SpacesAt(name, target, VersionText(version));
    CutAtSpaces(name, target, VersionText(version));
    hide ValidName, ValidTarget, VersionText, VersionOf, Find, FindLast, At, Free;
  }

  /** The first and the last space are in this order. */
  lemma SpacesInOrder(line: string)
    ensures var first, last := Find(line, " ", 0), FindLast(line, ' ');
            first == -1 || (first <= last && line[first] == ' ' && line[last] == ' ')
  {
    FoundWithin(line, " ", 0);
    var first := Find(line, " ", 0);
    assert " " == [' '];
    if first != -1 { CharAt(line, first, ' '); }
    hide Find, At;
  }

  lemma JoinedAtSpaces(line: string, first: nat, last: nat)
    requires first < last < |line| && line[first] == ' ' && line[last] == ' '
    ensures line == line[..first] + " " + line[first + 1..last] + " " + line[last + 1..]
  {}

  lemma PartsJoined(line: string)
    requires LineParts(line).Some?
    ensures var (name, target, version) := LineParts(line).value;
            && ValidName(name) && ValidTarget(target) && (version == 10 || version == 11)
            && line == name + " " + target + " " + VersionText(version)
  {
    var first, last := Find(line, " ", 0), FindLast(line, ' ');
    SpacesInOrder(line);
    hide ValidName, ValidTarget, VersionText, VersionOf, Find, FindLast, At;
    VersionIsText(line[last + 1..]);
    JoinedAtSpaces(line, first, last);
  }

  /** A request line is accepted exactly when it is a valid name, a valid target and a known version between single spaces. */
  lemma RequestLineIs(line: string, name: string, target: string, version: nat)
    ensures LineParts(line) == Some((name, target, version)) <==>
            ValidName(name) && ValidTarget(target) && (version == 10 || version == 11)
            && line == name + " " + target + " " + VersionText(version)
  {
    hide *;
    if ValidName(name) && ValidTarget(target) && (version == 10 || version == 11) { PrintedLineParts(name, target, version); }
    if LineParts(line).Some? { PartsJoined(line); }
  }

  // ---- one request

  /** The target of an absolute URL, unless the URL is invalid. */
  type Absolute = string -> Option<string>

  datatype Incoming = Incoming(name: string, target: string, path: string, query: seq<Parameter>, version: nat,
                               headers: seq<Field>, body: string, keepAlive: bool)

  /** The decoded path and the query parameters that a request is dispatched by. */
  function Routing(target: string, absolute: Absolute): Option<(string, seq<Parameter>)> {
    var local := if target != "" && target[0] != '/' && Find(target, "://", 0) != -1 then absolute(target) else Some(target);
    if local.None? then None
    else
      var path := Unescaped(if PathOf(local.value) == "" then "/" else PathOf(local.value), false);
      if path.None? then None
      else Some((path.value, if QueryOf(local.value) == "" then [] else ParsedQuery(QueryOf(local.value)[1..])))
  }

  /** A target spelled with percent escapes leads to the path and the parameters that were spelled. */
  lemma RoutingIs(path: string, params: seq<Parameter>, absolute: Absolute)
    requires IsBytes(path) && AllBytes(params)
    ensures Routing("/" + Escaped(path, false) + "?" + QueryText(params), absolute) == Some(("/" + path, params))
    ensures Routing("/" + Escaped(path, false), absolute) == Some(("/" + path, []))
  {
    var raw, query := "/" + Escaped(path, false), "?" + QueryText(params);
    hide *;
    LocalPath(path);
    QueryRoundTrip(params);
    QueryMark(QueryText(params));
    EmptyFirst(raw);
    Regroup(raw, "?", QueryText(params));
    JoinedParts(raw, query);
    JoinedParts(raw, "");
    LocalRouting(raw + query, raw, path, params, absolute);
    LocalRouting(raw, raw, path, [], absolute);
  }

  lemma QueryMark(text: string)
    ensures ("?" + text)[0] == '?' && ("?" + text)[1..] == text && "?" + text != ""
  {}

  /** A printed path is decoded, and its target is a local one without a question mark. */
  lemma LocalPath(path: string)
    requires IsBytes(path)
    ensures var raw := "/" + Escaped(path, false);
            && Unescaped(raw, false) == Some("/" + path) && Free(raw, '?') && raw != "" && raw[0] == '/'
            && forall more :: (raw + more)[0] == '/'
  {
    var raw := "/" + Escaped(path, false);
    EscapedIsSafe(path, false);
    EscapedComesBack(path, false, false);
    assert raw[1..] == Escaped(path, false);
    assert Unescaped(raw, false) == Prepended('/', Some(path));
    hide Escaped, Unescaped;
    forall i | 0 <= i < |raw| ensures raw[i] != '?' { if i > 0 { assert raw[i] == Escaped(path, false)[i - 1]; } }
  }

  /** A target that starts with a slash is dispatched by its own path and query. */
  lemma LocalRouting(target: string, raw: string, path: string, params: seq<Parameter>, absolute: Absolute)
    requires target != "" && target[0] == '/' && PathOf(target) == raw && raw != "" && Unescaped(raw, false) == Some("/" + path)
    requires if QueryOf(target) == "" then params == [] else ParsedQuery(QueryOf(target)[1..]) == params
    ensures Routing(target, absolute) == Some(("/" + path, params))
  {
    hide Unescaped, ParsedQuery, PathOf, QueryOf, Find;
  }

  /** An absolute target is dispatched by what its URL leads to, and refused when the URL is invalid. */
  lemma AbsoluteRouting(target: string, absolute: Absolute)
    requires target != "" && target[0] != '/' && Find(target, "://", 0) != -1
    requires absolute(target).Some? ==> absolute(target).value != "" && absolute(target).value[0] == '/'
    ensures Routing(target, absolute) == if absolute(target).None? then None else Routing(absolute(target).value, absolute)
  {
    hide Unescaped, ParsedQuery, PathOf, QueryOf, Find;
  }

  /** An HTTP/1.1 request names exactly one host. */
  predicate HostAccepted(version: nat, head: Head) {
    version == 11 ==> !head.invalidHost && head.hosts == 1
  }

  predicate ExpectationAccepted(head: Head) {
    head.hasExpect ==> head.expectContinue
  }

  /** A request without its body, its head, and the bytes behind the head. */
  function RequestStart(s: string, limit: nat, absolute: Absolute): Option<(Incoming, Head, string)> {
    var end := Find(s, HEAD_END, 0);
    if end == -1 || end + 4 > limit then None
    else
      assert At(s, end, HEAD_END);
      var head := ParsedHead(s[..end + 2]);
      if head.None? then None
      else
        var started := Started(head.value, absolute);
        if started.None? then None else Some((started.value, head.value, s[end + 4..]))
  }

  function Started(head: Head, absolute: Absolute): Option<Incoming> {
    var parts := LineParts(head.startLine);
    if parts.None? then None
    else
      var (name, target, version) := parts.value;
      var routing := Routing(target, absolute);
      if !HostAccepted(version, head) || routing.None? || !ExpectationAccepted(head) then None
      else Some(Incoming(name, target, routing.value.0, routing.value.1, version, head.headers, "", KeepAlive(version, head)))
  }

  /** The next request and the bytes behind it. */
  function NextRequest(s: string, limits: Limits, absolute: Absolute, strict: bool): Option<(Incoming, string)> {
    var start := RequestStart(s, limits.head, absolute);
    if start.None? then None
    else
      var (request, head, rest) := start.value;
      var body := BodyOf(rest, head.Chunked(), head.contentLength, false, limits, strict);
      if body.None? then None
      else Some((request.(headers := head.headers + body.value.1, body := body.value.0), body.value.2))
  }

  /** `parse_request_head` */
  method StartRequest(head: Head, absolute: Absolute) returns (r: Option<Incoming>)
    ensures r == Started(head, absolute)
  {
    hide ValidName, ValidTarget, Find, FindLast, At, Unescaped, ParsedQuery, VersionOf, KeepAlive, PathOf, QueryOf;
    var line := head.startLine;
    var first, last := Find(line, " ", 0), FindLast(line, ' ');
    SpacesInOrder(line);
    if first == -1 || last == first || Find(line, " ", first + 1) != last { return None; }
    var name, target := line[..first], line[first + 1..last];
    if !ValidName(name) || !ValidTarget(target) { return None; }
    var version := VersionOf(line[last + 1..]);
    if version.None? { return None; }
    if version.value == 11 {
      if head.invalidHost { return None; }
      if head.hosts != 1 { return None; }
    }
    var keepAlive := KeepAlive(version.value, head);
    var local := target;
    if target != "" && target[0] != '/' && Find(target, "://", 0) != -1 {
      var resolved := absolute(target);
      if resolved.None? { return None; }
      local := resolved.value;
    }
    var raw := PathOf(local);
    if raw == "" { raw := "/"; }
    var path := UrlDecode(raw, false);
    if path.None? { return None; }
    var query: seq<Parameter> := [];
    if QueryOf(local) != "" { query := ParseQuery(QueryOf(local)[1..]); }
    if head.hasExpect && !head.expectContinue { return None; }
    r := Some(Incoming(name, target, path.value, query, version.value, head.headers, "", keepAlive));
  }

  /** `read_request` without content decoding; `answer` is what the server sends before it reads an expected body. */
  method ReadRequest(reader: Reader, limits: Limits, absolute: Absolute, spare: nat) returns (r: Option<Incoming>, answer: string)
    requires reader.Valid()
    modifies reader`blocks, reader`delivered, reader.buffer
    ensures reader.Valid()
    ensures NextRequest(old(reader.Pending()), limits, absolute, true).Some? ==> r.Some?
    ensures r.Some? ==> NextRequest(old(reader.Pending()), limits, absolute, false) == Some((r.value, reader.Pending()))
    ensures var start := RequestStart(old(reader.Pending()), limits.head, absolute);
            answer == if start.Some? && start.value.1.expectContinue then CONTINUE else ""
  {
    hide Find, At, ParsedHead, Started, BodyOf, Join;
    ghost var pending := reader.Pending();
    r, answer := None, "";
    var bytes := reader.ReadHead(limits.head);
    if bytes.None? { return; }
    var head := ParseHead(bytes.value);
    if head.None? { return; }
    var request := StartRequest(head.value, absolute);
    if request.None? { return; }
    reader.buffer.Consume(|bytes.value| + 2);
    assert reader.Pending() == pending[|bytes.value| + 2..];
    if head.value.expectContinue { answer := CONTINUE; }
    var body := reader.ReadBody(head.value.Chunked(), head.value.contentLength, false, limits, spare);
    if body.None? { return; }
    r := Some(request.value.(headers := head.value.headers + body.value, body := reader.delivered));
  }

  // ---- hosts and expectations of a printed head

  predicate BadHost(value: string) {
    value == "" || !Free(value, ',')
  }

  predicate AnyBadHost(values: seq<string>) {
    exists i :: 0 <= i < |values| && BadHost(values[i])
  }

  /** What some values of `Host` and `Expect` add to a head. */
  ghost predicate Controls(head: Head, hosts: seq<string>, expects: seq<string>, next: Head) {
    && next.hosts == head.hosts + |hosts|
    && next.invalidHost == (head.invalidHost || AnyBadHost(hosts))
    && next.hasExpect == (head.hasExpect || expects != [])
    && next.expectContinue == (head.expectContinue || AnyToken(expects, "100-continue"))
  }

  lemma HostControl(head: Head, name: string, value: string)
    requires TakeField(head, name, value).Some?
    ensures var kind, next := KindOf(name), TakeField(head, name, value).value;
            && next.hosts == head.hosts + (if kind == HostField then 1 else 0)
            && next.invalidHost == (head.invalidHost || (kind == HostField && BadHost(value)))
  {
    hide EqualsIgnoreCase, HasToken, Items, TakeLengths, ValidCodings, ValidName, ValidValue, Free;
    if KindOf(name) == HostField { assert EqualsIgnoreCase(name, "Host"); }
  }

  lemma ExpectControl(head: Head, name: string, value: string)
    requires TakeField(head, name, value).Some?
    ensures var kind, next := KindOf(name), TakeField(head, name, value).value;
            && next.hasExpect == (head.hasExpect || kind == ExpectField)
            && next.expectContinue == (head.expectContinue || (kind == ExpectField && HasToken(value, "100-continue")))
  {
    hide EqualsIgnoreCase, HasToken, Items, TakeLengths, ValidCodings, ValidName, ValidValue, Free;
    if KindOf(name) == ExpectField { assert !EqualsIgnoreCase(name, "Host"); }
  }

  lemma AnyBadHostCons(value: string, rest: seq<string>)
    ensures AnyBadHost([value] + rest) == (BadHost(value) || AnyBadHost(rest))
  {
    var all := [value] + rest;
    hide BadHost;
    if BadHost(value) { assert BadHost(all[0]); }
    if AnyBadHost(rest) {
      var i :| 0 <= i < |rest| && BadHost(rest[i]);
      assert BadHost(all[i + 1]);
    }
  }

  lemma ControlsCons(head: Head, kind: Kind, value: string, next: Head, hosts: seq<string>, expects: seq<string>, last: Head)
    requires Controls(next, hosts, expects, last)
    requires next.hosts == head.hosts + (if kind == HostField then 1 else 0)
    requires next.invalidHost == (head.invalidHost || (kind == HostField && BadHost(value)))
    requires next.hasExpect == (head.hasExpect || kind == ExpectField)
    requires next.expectContinue == (head.expectContinue || (kind == ExpectField && HasToken(value, "100-continue")))
    ensures Controls(head, (if kind == HostField then [value] else []) + hosts, (if kind == ExpectField then [value] else []) + expects, last)
  {
    AnyBadHostCons(value, hosts);
    AnyTokenCons(value, expects, "100-continue");
    hide BadHost, HasToken, AnyBadHost, AnyToken;
    assert [] + hosts == hosts && [] + expects == expects;
  }

  lemma {:induction false} FieldsControl(head: Head, fields: seq<Field>)
    requires Usable(fields) && TakeFields(head, fields).Some?
    ensures Controls(head, ValuesOf(fields, "Host"), ValuesOf(fields, "Expect"), TakeFields(head, fields).value)
    decreases |fields|
  {
    hide TakeField, TrimBlank, HasToken, BadHost, ValidValue, KindOf;
    if fields != [] {
      var name, value := fields[0].0, TrimBlank(fields[0].1);
      var next := TakeField(head, name, value).value;
      assert ValidName(name);
      assert Usable(fields[1..]) by {
        forall i | 0 <= i < |fields[1..]| ensures ValidName(fields[1..][i].0) && ValidValue(TrimBlank(fields[1..][i].1)) {
          assert fields[1..][i] == fields[i + 1];
        }
      }
      HostControl(head, name, value);
      ExpectControl(head, name, value);
      FieldsControl(next, fields[1..]);
      ValuesOfCons(fields, HostField);
      ValuesOfCons(fields, ExpectField);
      hide Controls, TakeFields, ValuesOf, Usable;
      ControlsCons(head, KindOf(name), value, next, ValuesOf(fields[1..], "Host"), ValuesOf(fields[1..], "Expect"),
                   TakeFields(next, fields[1..]).value);
    }
  }

  lemma NameIsSent(request: Request, name: string)
    requires name == "Host" || name == "Expect"
    ensures ValuesOf(SentRequestFields(request), name) == ValuesOf(request.headers, name)
  {
    var overrides, framing := RequestOverrides(request), RequestFraming(request);
    RequestOverridesAreConsistent(request);
    OmittedNames(framing, name);
    assert forall k :: 0 <= k < |overrides| ==> |overrides[k].0| > 6 by { hide NumberText, Values; }
    assert forall k :: 0 <= k < |overrides| ==> !EqualsIgnoreCase(name, overrides[k].0);
    hide Emitted, Consistent, RequestOverrides, FramingOmitted, Omitted, Values;
    KeptValues(request.headers, overrides, FramingOmitted(framing), name);
  }

  lemma PrintedControls(startLine: string, fields: seq<Field>)
    requires ValidValue(startLine) && startLine != "" && AllValid(fields)
    ensures var head := ParsedHead(startLine + CRLF + FieldLines(fields));
            head.Some? ==> Controls(NewHead(startLine), ValuesOf(fields, "Host"), ValuesOf(fields, "Expect"), head.value)
  {
    AllValidIsPrintable(fields);
    ParsedLines(startLine, fields);
    hide ParsedHead, FieldLines, TakeFields, ValuesOf, Usable, AllPrintable, AllValid, ValidValue, Controls;
    if ParsedHead(startLine + CRLF + FieldLines(fields)).Some? { FieldsControl(NewHead(startLine), fields); }
  }

  lemma RequestText(request: Request)
    requires RequestHead(request).Some?
    ensures var text, line, fields := RequestHead(request).value, RequestLine(request), SentRequestFields(request);
            && text[..|text| - 2] == line + CRLF + FieldLines(fields)
            && Sendable(request) && ValidValue(line) && line != "" && AllValid(fields)
  {
    var overrides, omitted := RequestOverrides(request), FramingOmitted(RequestFraming(request));
    TargetIsValid(request);
    assert AllValid(request.headers) && AllValid(overrides);
    hide RequestOverrides, RequestLine, FramingOmitted, AllValid, ValidValue, FieldLines, Emitted, Sendable;
    EmittedIsValid(request.headers, overrides, omitted);
    var front := RequestLine(request) + CRLF + FieldLines(SentRequestFields(request));
    assert (front + CRLF)[..|front + CRLF| - 2] == front;
  }

  lemma RequestControls(request: Request)
    requires RequestHead(request).Some?
    ensures var text := RequestHead(request).value;
            var head := ParsedHead(text[..|text| - 2]);
            head.Some? ==> Controls(NewHead(RequestLine(request)), ValuesOf(request.headers, "Host"), ValuesOf(request.headers, "Expect"), head.value)
  {
    hide *;
    RequestText(request);
    NameIsSent(request, "Host");
    NameIsSent(request, "Expect");
    PrintedControls(RequestLine(request), SentRequestFields(request));
  }

  // ---- whole requests

  /** A request with the producer writes of its body. */
  datatype Submission = Submission(request: Request, produced: seq<string>)

  function BodyText(s: Submission): string {
    Join(Writes(s.request, s.produced))
  }

  /** What `write_request` sends; a request with an invalid head is not sent at all. */
  function Submitted(s: Submission): string {
    if RequestHead(s.request).None? then ""
    else RequestHead(s.request).value + BodyBytes(RequestFraming(s.request), Writes(s.request, s.produced))
  }

  /** A request that can be sent, within the limits of the server. */
  predicate Complete(s: Submission, limits: Limits) {
    && RequestHead(s.request).Some? && LengthKept(s.request, s.produced)
    && |RequestHead(s.request).value| <= limits.head
    && |BodyText(s)| <= limits.body && |BodyText(s)| <= MAX_U64
  }

  /** What the sender has to get right about a request that is sent, for the server to accept it. */
  predicate Servable(request: Request, absolute: Absolute) {
    var hosts, expects := ValuesOf(request.headers, "Host"), ValuesOf(request.headers, "Expect");
    && (request.version == 11 ==> |hosts| == 1 && !BadHost(hosts[0]))
    && (expects != [] ==> AnyToken(expects, "100-continue"))
    && Routing(request.target, absolute).Some?
  }

  function KeepsAlive(request: Request): bool {
    var tokens := ConnectionValues(request);
    !AnyToken(tokens, "close") && (request.version >= 11 || AnyToken(tokens, "keep-alive"))
  }

  /** What the server is meant to recover. */
  function Understood(s: Submission, absolute: Absolute): Incoming
    requires Servable(s.request, absolute)
  {
    var request, routing := s.request, Routing(s.request.target, absolute).value;
    Incoming(request.name, request.target, routing.0, routing.1, request.version, Kept(SentRequestFields(request)), BodyText(s), KeepsAlive(request))
  }

  /** Without a `Connection` field of its own a request keeps its flag. */
  lemma FlagSurvives(request: Request)
    requires Values(request.headers, "Connection") == []
    ensures KeepsAlive(request) == request.keepAlive
  {
    TokensOf(request.keepAlive);
    hide AnyToken, Token;
  }

  /** The head of a request is accepted exactly when host, expectation and target are. */
  lemma HeadIsUnderstood(request: Request, head: Head, absolute: Absolute)
    requires head.startLine == RequestLine(request) && Sendable(request)
    requires Controls(NewHead(RequestLine(request)), ValuesOf(request.headers, "Host"), ValuesOf(request.headers, "Expect"), head)
    requires head.close == AnyToken(ConnectionValues(request), "close")
    requires head.keepAlive == AnyToken(ConnectionValues(request), "keep-alive")
    ensures Started(head, absolute) ==
            if !Servable(request, absolute) then None
            else
              var routing := Routing(request.target, absolute).value;
              Some(Incoming(request.name, request.target, routing.0, routing.1, request.version, head.headers, "", KeepsAlive(request)))
  {
    PrintedLineParts(request.name, request.target, request.version);
    HostsDecide(ValuesOf(request.headers, "Host"));
    hide ValuesOf, AnyToken, AnyBadHost, BadHost, LineParts, Routing, ConnectionValues, ValidName, ValidTarget;
  }

  lemma HostsDecide(hosts: seq<string>)
    ensures |hosts| == 1 && !AnyBadHost(hosts) <==> |hosts| == 1 && !BadHost(hosts[0])
  {
    hide BadHost;
    if |hosts| == 1 && BadHost(hosts[0]) { assert AnyBadHost(hosts); }
  }

  /** What the head of a request tells a reader. */
  lemma HeadParts(s: Submission, more: string, limits: Limits)
    requires Complete(s, limits)
    ensures var text, framing := RequestHead(s.request).value, RequestFraming(s.request);
            && 4 <= |text| && Find(text + more, HEAD_END, 0) == |text| - 4 && Sendable(s.request)
            && framing != Unframed && (framing.Sized? ==> framing.length == |BodyText(s)|)
            && var head := ParsedHead(text[..|text| - 2]);
            && head.Some? && head.value.startLine == RequestLine(s.request) && head.value.headers == Kept(SentRequestFields(s.request))
            && head.value.Chunked() == (framing == ChunkedBody)
            && head.value.contentLength == (if framing.Sized? then Some(framing.length) else None)
            && head.value.close == AnyToken(ConnectionValues(s.request), "close")
            && head.value.keepAlive == AnyToken(ConnectionValues(s.request), "keep-alive")
  {
    if s.request.body.Buffered? { JoinOne(s.request.body.text); }
    hide RequestHead, Kept, SentRequestFields, ParsedHead, Find, RequestLine, ConnectionValues, AnyToken, ValidName, ValidTarget, Join;
    RequestHeadParts(s.request, more);
    RequestHeadIsRead(s.request, more);
  }

  lemma StartIsFound(text: string, more: string, limit: nat, absolute: Absolute)
    requires 4 <= |text| <= limit && Find(text + more, HEAD_END, 0) == |text| - 4 && ParsedHead(text[..|text| - 2]).Some?
    ensures var head := ParsedHead(text[..|text| - 2]).value;
            var started := Started(head, absolute);
            RequestStart(text + more, limit, absolute) == if started.None? then None else Some((started.value, head, more))
  {
    hide ParsedHead, Started, Find;
    HeadIsCut(text, more);
  }

  lemma NextIs(s: string, limits: Limits, absolute: Absolute, strict: bool, started: Incoming, head: Head, body: string, more: string, rest: string)
    requires RequestStart(s, limits.head, absolute) == Some((started, head, more))
    requires BodyOf(more, head.Chunked(), head.contentLength, false, limits, strict) == Some((body, [], rest))
    ensures NextRequest(s, limits, absolute, strict) == Some((started.(headers := head.headers, body := body), rest))
  {
    hide RequestStart, BodyOf;
    assert head.headers + [] == head.headers;
  }

  /** A server reads a request that was sent if and only if it names one host, expects nothing unknown and has a target that
      can be routed. Then everything about it is recovered, and exactly the bytes behind it are left. */
  lemma RequestIsRead(s: Submission, rest: string, limits: Limits, absolute: Absolute, strict: bool)
    requires Complete(s, limits)
    ensures NextRequest(Submitted(s) + rest, limits, absolute, strict) ==
            if Servable(s.request, absolute) then Some((Understood(s, absolute), rest)) else None
  {
    var text, framing, writes := RequestHead(s.request).value, RequestFraming(s.request), Writes(s.request, s.produced);
    var more := BodyBytes(framing, writes) + rest;
    HeadParts(s, more, limits);
    var head := ParsedHead(text[..|text| - 2]).value;
    hide RequestHead, Kept, SentRequestFields, ParsedHead, Find, RequestLine, ConnectionValues, AnyToken, Join, BodyBytes, BodyOf, Servable,
         Started, RequestStart, Sendable, RequestFraming, Controls, ValuesOf, Routing;
    RequestControls(s.request);
    HeadIsUnderstood(s.request, head, absolute);
    Regroup(text, BodyBytes(framing, writes), rest);
    StartIsFound(text, more, limits.head, absolute);
    BodyIsRead(framing, writes, rest, limits, strict);
    if Started(head, absolute).Some? {
      NextIs(Submitted(s) + rest, limits, absolute, strict, Started(head, absolute).value, head, BodyText(s), more, rest);
    }
  }

  // ---- pipelined requests

  predicate AllComplete(submissions: seq<Submission>, limits: Limits) {
    forall i :: 0 <= i < |submissions| ==> Complete(submissions[i], limits)
  }

  /** Everything a client sends on one connection. */
  function Pipeline(submissions: seq<Submission>): string {
    if submissions == [] then "" else Submitted(submissions[0]) + Pipeline(submissions[1..])
  }

  lemma NextInPipeline(submissions: seq<Submission>, i: nat, suffix: string, limits: Limits, absolute: Absolute, strict: bool)
    requires AllComplete(submissions, limits) && i < |submissions|
    ensures NextRequest(Pipeline(submissions[i..]) + suffix, limits, absolute, strict) ==
            if Servable(submissions[i].request, absolute)
            then Some((Understood(submissions[i], absolute), Pipeline(submissions[i + 1..]) + suffix)) else None
  {
    hide Join, NextRequest, Submitted, Servable, Understood, Complete;
    var rest := submissions[i..];
    assert rest[0] == submissions[i] && rest[1..] == submissions[i + 1..];
    Regroup(Submitted(submissions[i]), Pipeline(submissions[i + 1..]), suffix);
    RequestIsRead(submissions[i], Pipeline(submissions[i + 1..]) + suffix, limits, absolute, strict);
  }

  /** The first requests of a connection, each one acceptable and recovered, and each one but the last keeping it alive. */
  ghost predicate InOrder(received: seq<Incoming>, submissions: seq<Submission>, absolute: Absolute) {
    && |received| <= |submissions|
    && (forall i :: 0 <= i < |received| ==>
          Servable(submissions[i].request, absolute) && received[i] == Understood(submissions[i], absolute))
    && (forall i :: 0 <= i < |received| - 1 ==> received[i].keepAlive)
  }

  predicate Alive(received: seq<Incoming>) {
    received == [] || received[|received| - 1].keepAlive
  }

  lemma OneMoreInOrder(received: seq<Incoming>, submissions: seq<Submission>, absolute: Absolute)
    requires InOrder(received, submissions, absolute) && |received| < |submissions| && Alive(received)
    requires Servable(submissions[|received|].request, absolute)
    ensures InOrder(received + [Understood(submissions[|received|], absolute)], submissions, absolute)
  {
    hide Servable, Understood;
  }

  lemma NoneInOrder(submissions: seq<Submission>, absolute: Absolute)
    ensures InOrder([], submissions, absolute) && submissions[0..] == submissions && Alive([])
  {}

  /** A server reads the requests of a connection one after the other, at most `count` of them, until one is refused or
      does not keep the connection alive. Wherever the bytes were cut, each request is recovered in order, the first one that is
      not acceptable is refused, and what follows the last one is left. */
  method Serve(blocks: seq<string>, limits: Limits, absolute: Absolute, count: nat,
               ghost submissions: seq<Submission>, ghost suffix: string)
    returns (received: seq<Incoming>, refused: bool, rest: string)
    requires AllComplete(submissions, limits) && count <= |submissions|
    requires Join(blocks) == Pipeline(submissions) + suffix
    ensures |received| <= count && InOrder(received, submissions, absolute)
    ensures refused ==> |received| < count && Alive(received) && !Servable(submissions[|received|].request, absolute)
    ensures !refused ==> rest == Pipeline(submissions[|received|..]) + suffix
    ensures !refused && |received| < count ==> !Alive(received)
  {
    hide Join, NextRequest, Servable, Understood, Complete, Pipeline, InOrder, RequestStart;
    var reader := new Reader(blocks);
    received, refused, rest := [], false, "";
    NoneInOrder(submissions, absolute);
    while |received| < count && Alive(received)
      invariant reader.Valid() && fresh(reader) && fresh(reader.buffer)
      invariant |received| <= count && InOrder(received, submissions, absolute)
      invariant reader.Pending() == Pipeline(submissions[|received|..]) + suffix
      decreases count - |received|
    {
      NextInPipeline(submissions, |received|, suffix, limits, absolute, true);
      NextInPipeline(submissions, |received|, suffix, limits, absolute, false);
      var request, _ := ReadRequest(reader, limits, absolute, BLOCK);
      if request.None? {
        refused := true;
        return;
      }
      OneMoreInOrder(received, submissions, absolute);
      received := received + [request.value];
    }
    rest := reader.Rest();
  }
}
