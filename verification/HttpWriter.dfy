/** The heads that requests and responses are sent with: whatever framing fields the caller supplied,
    a reader sees the framing of the body that follows. */
module HttpWriter {
  import opened Wrappers
  import opened Text
  import opened HeaderFields
  import opened Headers
  import opened HttpHead
  import opened HttpFraming
  import opened HttpHeadRoundTrip

  datatype RequestBody = Buffered(text: string) | Streamed(length: Option<nat>, buffered: string)

  datatype Request = Request(name: string, target: string, version: nat, headers: seq<Field>, keepAlive: bool, body: RequestBody)

  /** `reason` is the phrase that belongs to the status. */
  datatype Response = Response(status: nat, reason: string, version: nat, headers: seq<Field>, keepAlive: bool, body: string)

  function Token(keepAlive: bool): string {
    if keepAlive then "keep-alive" else "close"
  }

  function VersionText(version: nat): string {
    if version == 10 then "HTTP/1.0" else "HTTP/1.1"
  }

  // ---- requests

  predicate ValidTarget(target: string) {
    target != "" && forall i :: 0 <= i < |target| ==> target[i] > ' ' && target[i] != '\U{7f}'
  }

  predicate Sendable(request: Request) {
    && ValidName(request.name) && ValidTarget(request.target) && (request.version == 10 || request.version == 11)
    && (request.body.Streamed? ==> request.body.buffered == "")
    && (request.body.Streamed? && request.body.length.None? ==> request.version != 10)
  }

  function RequestFraming(request: Request): Framing {
    match request.body
    case Buffered(text) => Sized(|text|)
    case Streamed(Some(n), _) => Sized(n)
    case Streamed(None, _) => ChunkedBody
  }

  /** The field that carries a framing, and the framing fields that must not be sent with it. */
  function FramingField(framing: Framing): seq<Field> {
    match framing
    case Sized(n) => [("Content-Length", NumberText(n, 10))]
    case ChunkedBody => [("Transfer-Encoding", "chunked")]
    case Unframed => []
  }

  function FramingOmitted(framing: Framing): seq<string> {
    match framing
    case Sized(_) => ["Transfer-Encoding"]
    case ChunkedBody => ["Content-Length"]
    case Unframed => ["Transfer-Encoding", "Content-Length"]
  }

  function RequestOverrides(request: Request): seq<Field> {
    FramingField(RequestFraming(request))
    + (if Values(request.headers, "Connection") == [] then [("Connection", Token(request.keepAlive))] else [])
    + (if Values(request.headers, "User-Agent") == [] then [("User-Agent", "chhttp/0.4")] else [])
  }

  function RequestLine(request: Request): string {
    request.name + " " + request.target + " " + VersionText(request.version)
  }

  function SentRequestFields(request: Request): seq<Field> {
    Emitted(request.headers, RequestOverrides(request), FramingOmitted(RequestFraming(request)))
  }

  function RequestHead(request: Request): Option<string> {
    if !Sendable(request) then None
    else PrintedHead(RequestLine(request), request.headers, RequestOverrides(request), FramingOmitted(RequestFraming(request)))
  }

  /** The head that `write_request` sends. */
  method WriteRequestHead(request: Request) returns (r: Option<string>)
    ensures r == RequestHead(request)
  {
    if !ValidName(request.name) || !ValidTarget(request.target) || (request.version != 10 && request.version != 11) { return None; }
    if request.body.Streamed? && request.body.buffered != "" { return None; }
    var streaming := request.body.Streamed?;
    var chunked := streaming && request.body.length.None?;
    if chunked && request.version == 10 { return None; }
    var overrides: seq<Field> := [];
    var omitted: seq<string> := [];
    if chunked {
      omitted := omitted + ["Content-Length"];
      overrides := overrides + [("Transfer-Encoding", "chunked")];
    } else {
      omitted := omitted + ["Transfer-Encoding"];
      var length := if streaming then request.body.length.value else |request.body.text|;
      overrides := overrides + [("Content-Length", NumberText(length, 10))];
    }
    if Values(request.headers, "Connection") == [] { overrides := overrides + [("Connection", Token(request.keepAlive))]; }
    if Values(request.headers, "User-Agent") == [] { overrides := overrides + [("User-Agent", "chhttp/0.4")]; }
    assert overrides == RequestOverrides(request) && omitted == FramingOmitted(RequestFraming(request)) by {
      hide NumberText, Values;
    }
    hide *;
    r := SerializeHead(RequestLine(request), request.headers, overrides, omitted);
  }

  // ---- responses

  predicate HasNoBody(status: nat) {
    100 <= status < 200 || status == 204 || status == 205 || status == 304
  }

  /** What `build_response_head` announces, given what its caller wants to send. */
  function ResponseFraming(status: nat, wanted: Framing): Framing {
    if 100 <= status < 200 || status == 204 then Unframed
    else if status == 205 then Sized(0)
    else wanted
  }

  function ResponseOverrides(keepAlive: bool, response: Response, wanted: Framing): seq<Field> {
    (if Values(response.headers, "Server") == [] then [("Server", "chhttp/0.4")] else [])
    + [("Connection", Token(keepAlive && response.keepAlive))]
    + FramingField(ResponseFraming(response.status, wanted))
  }

  function SentFields(keepAlive: bool, response: Response, wanted: Framing): seq<Field> {
    Emitted(response.headers, ResponseOverrides(keepAlive, response, wanted), FramingOmitted(ResponseFraming(response.status, wanted)))
  }

  function StatusLine(response: Response): string {
    VersionText(response.version) + " " + NumberText(response.status, 10) + " " + response.reason
  }

  function ResponseHead(keepAlive: bool, response: Response, wanted: Framing): Option<string> {
    if (response.version != 10 && response.version != 11) || response.status < 100 || response.status > 999 then None
    else PrintedHead(StatusLine(response), response.headers, ResponseOverrides(keepAlive, response, wanted),
                     FramingOmitted(ResponseFraming(response.status, wanted)))
  }

  /** The framing part of `build_response_head`; a 1xx or 204 response drops the framing fields in the other order. */
  method ChooseFraming(status: nat, chunked: bool, length: Option<nat>) returns (fields: seq<Field>, omitted: seq<string>)
    ensures var wanted := if chunked then ChunkedBody else if length.Some? then Sized(length.value) else Unframed;
            var framing := ResponseFraming(status, wanted);
            && fields == FramingField(framing)
            && (omitted == FramingOmitted(framing) || (framing == Unframed && omitted == ["Content-Length", "Transfer-Encoding"]))
  {
    ZeroText();
    hide NumberText;
    fields, omitted := [], [];
    if 100 <= status < 200 || status == 204 {
      omitted := omitted + ["Content-Length"];
      omitted := omitted + ["Transfer-Encoding"];
    } else if status == 205 {
      omitted := omitted + ["Transfer-Encoding"];
      fields := fields + [("Content-Length", "0")];
    } else if chunked {
      omitted := omitted + ["Content-Length"];
      fields := fields + [("Transfer-Encoding", "chunked")];
    } else if length.Some? {
      omitted := omitted + ["Transfer-Encoding"];
      fields := fields + [("Content-Length", NumberText(length.value, 10))];
    } else {
      omitted := omitted + ["Transfer-Encoding"];
      omitted := omitted + ["Content-Length"];
    }
  }

  /** `build_response_head` */
  method BuildResponseHead(keepAlive: bool, response: Response, chunked: bool, length: Option<nat>) returns (r: Option<string>)
    ensures r == ResponseHead(keepAlive, response, if chunked then ChunkedBody else if length.Some? then Sized(length.value) else Unframed)
  {
    if (response.version != 10 && response.version != 11) || response.status < 100 || response.status > 999 { return None; }
    hide PrintedHead, StatusLine, Values, NumberText, ResponseFraming, FramingField, FramingOmitted;
    var keep := keepAlive && response.keepAlive;
    var overrides: seq<Field> := [];
    if Values(response.headers, "Server") == [] { overrides := overrides + [("Server", "chhttp/0.4")]; }
    overrides := overrides + [("Connection", Token(keep))];
    var fields, omitted := ChooseFraming(response.status, chunked, length);
    overrides := overrides + fields;
    ghost var wanted := if chunked then ChunkedBody else if length.Some? then Sized(length.value) else Unframed;
    assert overrides == ResponseOverrides(keepAlive, response, wanted);
    SwapPrinted(StatusLine(response), response.headers, overrides);
    r := SerializeHead(StatusLine(response), response.headers, overrides, omitted);
    hide ResponseOverrides;
    assert r == PrintedHead(StatusLine(response), response.headers, overrides, FramingOmitted(ResponseFraming(response.status, wanted))) by {
      if ResponseFraming(response.status, wanted) == Unframed { UnframedOmitted(); }
    }
  }

  lemma ZeroText()
    ensures NumberText(0, 10) == "0"
  {
    assert Digit(0) == '0';
  }

  lemma UnframedOmitted()
    ensures FramingOmitted(Unframed) == ["Transfer-Encoding", "Content-Length"]
  {}

  lemma SameOmitted(name: string)
    ensures Omitted(name, ["Content-Length", "Transfer-Encoding"]) == Omitted(name, ["Transfer-Encoding", "Content-Length"])
  {
    var a, b := ["Content-Length", "Transfer-Encoding"], ["Transfer-Encoding", "Content-Length"];
    assert a[0] == b[1] && a[1] == b[0];
    hide EqualsIgnoreCase;
  }

  lemma {:induction false} SwapSubstituted(headers: seq<Field>, overrides: seq<Field>, emitted: set<nat>)
    ensures var a, b := ["Content-Length", "Transfer-Encoding"], ["Transfer-Encoding", "Content-Length"];
            && Substituted(headers, overrides, a, emitted) == Substituted(headers, overrides, b, emitted)
            && Used(headers, overrides, a) == Used(headers, overrides, b)
    decreases |headers|
  {
    if headers != [] {
      SameOmitted(headers[0].0);
      hide Omitted, EqualsIgnoreCase;
      var i := OverrideIndex(headers[0].0, overrides);
      SwapSubstituted(headers[1..], overrides, emitted);
      SwapSubstituted(headers[1..], overrides, emitted + {i});
    }
  }

  /** The order of the omitted names does not matter. */
  lemma SwapOmitted(headers: seq<Field>, overrides: seq<Field>)
    ensures Emitted(headers, overrides, ["Content-Length", "Transfer-Encoding"]) ==
            Emitted(headers, overrides, ["Transfer-Encoding", "Content-Length"])
  {
    SwapSubstituted(headers, overrides, {});
  }

  lemma SwapPrinted(startLine: string, headers: seq<Field>, overrides: seq<Field>)
    ensures PrintedHead(startLine, headers, overrides, ["Content-Length", "Transfer-Encoding"]) ==
            PrintedHead(startLine, headers, overrides, ["Transfer-Encoding", "Content-Length"])
  {
    SwapOmitted(headers, overrides);
    hide Emitted, AllValid, FieldLines;
  }

  // ---- what is printed is valid

  lemma {:induction false} SubstitutedIsValid(headers: seq<Field>, overrides: seq<Field>, omitted: seq<string>, emitted: set<nat>)
    requires AllValid(headers) && AllValid(overrides)
    ensures AllValid(Substituted(headers, overrides, omitted, emitted))
    decreases |headers|
  {
    hide ValidName, ValidValue, Omitted, EqualsIgnoreCase;
    if headers != [] {
      var i := OverrideIndex(headers[0].0, overrides);
      assert AllValid(headers[1..]) by {
        forall j | 0 <= j < |headers[1..]| ensures ValidName(headers[1..][j].0) && ValidValue(headers[1..][j].1) {
          assert headers[1..][j] == headers[j + 1];
        }
      }
      SubstitutedIsValid(headers[1..], overrides, omitted, emitted);
      SubstitutedIsValid(headers[1..], overrides, omitted, emitted + {i});
    }
  }

  lemma {:induction false} UnusedIsValid(overrides: seq<Field>, used: set<nat>, from: nat)
    requires AllValid(overrides)
    ensures AllValid(Unused(overrides, used, from))
    decreases |overrides| - from
  {
    hide ValidName, ValidValue;
    if from < |overrides| { UnusedIsValid(overrides, used, from + 1); }
  }

  lemma EmittedIsValid(headers: seq<Field>, overrides: seq<Field>, omitted: seq<string>)
    requires AllValid(headers) && AllValid(overrides)
    ensures AllValid(Emitted(headers, overrides, omitted))
  {
    hide ValidName, ValidValue;
    SubstitutedIsValid(headers, overrides, omitted, {});
    UnusedIsValid(overrides, Used(headers, overrides, omitted), 0);
  }

  // ---- the generated fields

  lemma GeneratedFieldsAreValid()
    ensures ValidName("Content-Length") && ValidName("Transfer-Encoding") && ValidName("Connection")
    ensures ValidName("User-Agent") && ValidName("Server") && ValidValue("chhttp/0.4") && ValidValue("chunked")
    ensures ValidValue("close") && ValidValue("keep-alive")
  {}

  lemma NumberIsValid(n: nat)
    ensures ValidValue(NumberText(n, 10))
  {
    hide NumberText;
    var s := NumberText(n, 10);
    forall i | 0 <= i < |s| ensures FieldChar(s[i]) { assert IsDigit(s[i], 10); }
  }

  lemma FramingFieldIsValid(framing: Framing)
    ensures AllValid(FramingField(framing))
  {
    GeneratedFieldsAreValid();
    if framing.Sized? { NumberIsValid(framing.length); }
    hide ValidName, ValidValue, NumberText;
  }

  lemma NamesAreDifferent()
    ensures !EqualsIgnoreCase("Content-Length", "Transfer-Encoding") && !EqualsIgnoreCase("Transfer-Encoding", "Content-Length")
    ensures !EqualsIgnoreCase("Content-Length", "Connection") && !EqualsIgnoreCase("Connection", "Content-Length")
    ensures !EqualsIgnoreCase("Content-Length", "User-Agent") && !EqualsIgnoreCase("User-Agent", "Content-Length")
    ensures !EqualsIgnoreCase("Content-Length", "Server") && !EqualsIgnoreCase("Server", "Content-Length")
    ensures !EqualsIgnoreCase("Transfer-Encoding", "Connection") && !EqualsIgnoreCase("Connection", "Transfer-Encoding")
    ensures !EqualsIgnoreCase("Transfer-Encoding", "User-Agent") && !EqualsIgnoreCase("User-Agent", "Transfer-Encoding")
    ensures !EqualsIgnoreCase("Transfer-Encoding", "Server") && !EqualsIgnoreCase("Server", "Transfer-Encoding")
    ensures !EqualsIgnoreCase("Connection", "Server") && !EqualsIgnoreCase("Server", "Connection")
  {}

  lemma ConnectionIsNotUserAgent()
    ensures !EqualsIgnoreCase("Connection", "User-Agent") && !EqualsIgnoreCase("User-Agent", "Connection")
  {
    assert "Connection"[0] == 'C' && "User-Agent"[0] == 'U';
    assert LowerChar('C') == 'c' && LowerChar('U') == 'u';
  }

  lemma SelfEqual(s: string)
    ensures EqualsIgnoreCase(s, s)
  {}

  lemma OmittedNames(framing: Framing, name: string)
    ensures Omitted(name, FramingOmitted(framing)) ==
            match framing
            case Sized(_) => EqualsIgnoreCase(name, "Transfer-Encoding")
            case ChunkedBody => EqualsIgnoreCase(name, "Content-Length")
            case Unframed => EqualsIgnoreCase(name, "Transfer-Encoding") || EqualsIgnoreCase(name, "Content-Length")
  {
    hide EqualsIgnoreCase;
    var omitted := FramingOmitted(framing);
    if framing.Unframed? { assert omitted[1] == "Content-Length"; }
    assert framing != ChunkedBody ==> omitted[0] == "Transfer-Encoding";
    assert framing == ChunkedBody ==> omitted[0] == "Content-Length";
  }

  lemma RequestOverridesAreConsistent(request: Request)
    ensures Consistent(RequestOverrides(request), FramingOmitted(RequestFraming(request)))
  {
    NamesAreDifferent();
    ConnectionIsNotUserAgent();
    var framing := RequestFraming(request);
    OmittedNames(framing, "Content-Length");
    OmittedNames(framing, "Transfer-Encoding");
    OmittedNames(framing, "Connection");
    OmittedNames(framing, "User-Agent");
    hide EqualsIgnoreCase, Omitted, Values, NumberText, FramingOmitted;
  }

  lemma ResponseOverridesAreConsistent(keepAlive: bool, response: Response, wanted: Framing)
    ensures Consistent(ResponseOverrides(keepAlive, response, wanted), FramingOmitted(ResponseFraming(response.status, wanted)))
  {
    NamesAreDifferent();
    var framing := ResponseFraming(response.status, wanted);
    OmittedNames(framing, "Content-Length");
    OmittedNames(framing, "Transfer-Encoding");
    OmittedNames(framing, "Connection");
    OmittedNames(framing, "Server");
    hide EqualsIgnoreCase, Omitted, Values, NumberText, FramingOmitted;
  }

  // ---- what a reader sees

  lemma TargetIsValid(request: Request)
    requires Sendable(request)
    ensures ValidValue(RequestLine(request)) && RequestLine(request) != ""
  {
    var line, n := RequestLine(request), |request.name| + 1;
    forall i | 0 <= i < |line| ensures FieldChar(line[i]) {
      if i < |request.name| {
        assert line[i] == request.name[i] && TokenChar(request.name[i]);
      } else if n <= i < n + |request.target| {
        assert line[i] == request.target[i - n];
      }
    }
  }

  /** A field that no override replaces and no rule omits keeps the caller's values; an overridden one has the new value alone. */
  lemma OverriddenValues(headers: seq<Field>, overrides: seq<Field>, omitted: seq<string>, k: nat)
    requires Consistent(overrides, omitted) && k < |overrides|
    ensures Values(Emitted(headers, overrides, omitted), overrides[k].0) == [overrides[k].1]
  {
    EmittedValues(headers, overrides, omitted, overrides[k].0);
    SelfEqual(overrides[k].0);
    IndexOfOverride(overrides, omitted, overrides[k].0, k);
  }

  lemma OmittedValues(headers: seq<Field>, overrides: seq<Field>, omitted: seq<string>, name: string)
    requires Consistent(overrides, omitted) && Omitted(name, omitted)
    ensures Values(Emitted(headers, overrides, omitted), name) == []
  {
    EmittedValues(headers, overrides, omitted, name);
    var k := OverrideIndex(name, overrides);
    if k < |overrides| { IndexOfOverride(overrides, omitted, name, k); }
  }

  lemma TrimmedOne(value: string)
    requires Text.Trimmed(value)
    ensures HttpHeadRoundTrip.Trimmed([value]) == [value] && HttpHeadRoundTrip.Trimmed([]) == []
  {
    TrimmedStays(value);
    assert [value][1..] == [];
  }

  /** Whatever framing fields the caller supplied, the printed fields announce the intended framing. */
  lemma FramingIsAnnounced(headers: seq<Field>, overrides: seq<Field>, framing: Framing, k: nat)
    requires Consistent(overrides, FramingOmitted(framing))
    requires framing != Unframed ==> k < |overrides| && overrides[k] == FramingField(framing)[0]
    requires framing.Sized? ==> framing.length <= MAX_U64
    ensures Announces(Emitted(headers, overrides, FramingOmitted(framing)), framing)
  {
    OmittedNames(framing, "Content-Length");
    OmittedNames(framing, "Transfer-Encoding");
    SelfEqual("Content-Length");
    SelfEqual("Transfer-Encoding");
    TrimmedOne("chunked");
    if framing.Sized? { NumberIsPlain(framing.length); TrimmedOne(NumberText(framing.length, 10)); }
    hide EqualsIgnoreCase, Emitted, Consistent, NumberText, FramingOmitted, Omitted, Text.Trimmed, Values;
    match framing
    case Sized(_) =>
      OverriddenValues(headers, overrides, FramingOmitted(framing), k);
      OmittedValues(headers, overrides, FramingOmitted(framing), "Transfer-Encoding");
    case ChunkedBody =>
      OverriddenValues(headers, overrides, FramingOmitted(framing), k);
      OmittedValues(headers, overrides, FramingOmitted(framing), "Content-Length");
    case Unframed =>
      OmittedValues(headers, overrides, FramingOmitted(framing), "Transfer-Encoding");
      OmittedValues(headers, overrides, FramingOmitted(framing), "Content-Length");
  }

  /** What a reader learns from a head: where it ends, its start line, its framing, its fields and its connection tokens. */
  ghost predicate Reads(text: string, rest: string, startLine: string, framing: Framing, fields: seq<Field>, tokens: seq<string>) {
    && |text| >= 4 && Find(text + rest, HEAD_END, 0) == |text| - 4
    && var head := ParsedHead(text[..|text| - 2]);
    && head.Some? && head.value.startLine == startLine && FramingOf(head.value) == framing
    && (framing != ChunkedBody ==> head.value.codings == 0)
    && head.value.close == AnyToken(tokens, "close")
    && head.value.keepAlive == AnyToken(tokens, "keep-alive")
    && head.value.headers == Kept(fields)
  }

  lemma PrintedIsRead(startLine: string, fields: seq<Field>, framing: Framing, rest: string)
    requires ValidValue(startLine) && startLine != "" && AllValid(fields) && Announces(fields, framing)
    ensures Reads(startLine + CRLF + FieldLines(fields) + CRLF, rest, startLine, framing, fields, ValuesOf(fields, "Connection"))
  {
    FramingIsRead(startLine, fields, framing, rest);
    hide ParsedHead, Find, FieldLines, ValuesOf, AnyToken, FramingOf, Announces, ValidValue, Kept;
    var text := startLine + CRLF + FieldLines(fields);
    assert (text + CRLF)[..|text + CRLF| - 2] == text;
  }

  lemma RequestOverridesAreValid(request: Request)
    ensures AllValid(RequestOverrides(request))
  {
    GeneratedFieldsAreValid();
    FramingFieldIsValid(RequestFraming(request));
    hide ValidName, ValidValue, FramingField, Values;
  }

  function ConnectionValues(request: Request): seq<string> {
    if Values(request.headers, "Connection") == [] then [Token(request.keepAlive)] else ValuesOf(request.headers, "Connection")
  }

  lemma TokenIsTrimmed(keepAlive: bool)
    ensures Text.Trimmed(Token(keepAlive))
  {
    var token := Token(keepAlive);
    assert !Blank(token[0]) && !Blank(token[|token| - 1]);
  }

  lemma NoConnectionOverride(request: Request)
    requires Values(request.headers, "Connection") != []
    ensures var overrides := RequestOverrides(request);
            forall k :: 0 <= k < |overrides| ==> !EqualsIgnoreCase("Connection", overrides[k].0)
  {
    NamesAreDifferent();
    ConnectionIsNotUserAgent();
    hide EqualsIgnoreCase, NumberText, Values, RequestFraming;
  }

  lemma KeptValues(headers: seq<Field>, overrides: seq<Field>, omitted: seq<string>, name: string)
    requires Consistent(overrides, omitted) && !Omitted(name, omitted)
    requires forall k :: 0 <= k < |overrides| ==> !EqualsIgnoreCase(name, overrides[k].0)
    ensures Values(Emitted(headers, overrides, omitted), name) == Values(headers, name)
  {
    EmittedValues(headers, overrides, omitted, name);
  }

  lemma RequestConnection(request: Request)
    ensures ValuesOf(Emitted(request.headers, RequestOverrides(request), FramingOmitted(RequestFraming(request))), "Connection") ==
            ConnectionValues(request)
  {
    var overrides, omitted := RequestOverrides(request), FramingOmitted(RequestFraming(request));
    RequestOverridesAreConsistent(request);
    NamesAreDifferent();
    OmittedNames(RequestFraming(request), "Connection");
    TokenIsTrimmed(request.keepAlive);
    TrimmedOne(Token(request.keepAlive));
    if Values(request.headers, "Connection") == [] {
      assert overrides[1] == ("Connection", Token(request.keepAlive)) by { hide NumberText, Values, EqualsIgnoreCase; }
      hide EqualsIgnoreCase, Emitted, Consistent, RequestOverrides, FramingOmitted, Omitted, Text.Trimmed, Values,
           HttpHeadRoundTrip.Trimmed;
      OverriddenValues(request.headers, overrides, omitted, 1);
    } else {
      NoConnectionOverride(request);
      hide EqualsIgnoreCase, Emitted, Consistent, RequestOverrides, FramingOmitted, Omitted, Text.Trimmed, Values,
           HttpHeadRoundTrip.Trimmed;
      KeptValues(request.headers, overrides, omitted, "Connection");
    }
  }

  /** `parse_head` of the head of a request yields exactly the intended framing, whatever framing fields the caller set. */
  lemma RequestHeadIsRead(request: Request, rest: string)
    requires RequestFraming(request).Sized? ==> RequestFraming(request).length <= MAX_U64
    ensures RequestHead(request).Some? <==> Sendable(request) && AllValid(request.headers)
    ensures RequestHead(request).Some? ==>
            Reads(RequestHead(request).value, rest, RequestLine(request), RequestFraming(request), SentRequestFields(request),
                  ConnectionValues(request))
  {
    if Sendable(request) {
      var overrides, framing := RequestOverrides(request), RequestFraming(request);
      TargetIsValid(request);
      ValidIsOneLine(RequestLine(request));
      RequestOverridesAreValid(request);
      assert |overrides| <= 8 by { hide NumberText, Values; }
      if AllValid(request.headers) {
        var fields := Emitted(request.headers, overrides, FramingOmitted(framing));
        RequestOverridesAreConsistent(request);
        assert overrides[0] == FramingField(framing)[0] by { hide NumberText, Values; }
        hide Emitted, Reads, RequestOverrides, RequestFraming, RequestLine, AllValid, ValidValue, FramingField, FramingOmitted,
             ConnectionValues, ValuesOf;
        FramingIsAnnounced(request.headers, overrides, framing, 0);
        EmittedIsValid(request.headers, overrides, FramingOmitted(framing));
        PrintedIsRead(RequestLine(request), fields, framing, rest);
        RequestConnection(request);
      }
    }
  }

  lemma StatusLineIsValid(response: Response)
    requires ValidValue(response.reason)
    ensures ValidValue(StatusLine(response)) && StatusLine(response) != ""
  {
    NumberIsValid(response.status);
    hide NumberText;
    var version, status, line := VersionText(response.version), NumberText(response.status, 10), StatusLine(response);
    assert ValidValue(version);
    var n, m := |version| + 1, |version| + |status| + 2;
    forall i | 0 <= i < |line| ensures FieldChar(line[i]) {
      if i < |version| {
        assert line[i] == version[i];
      } else if n <= i < n + |status| {
        assert line[i] == status[i - n];
      } else if m <= i {
        assert line[i] == response.reason[i - m];
      }
    }
  }

  lemma ResponseOverridesAreValid(keepAlive: bool, response: Response, wanted: Framing)
    ensures AllValid(ResponseOverrides(keepAlive, response, wanted))
  {
    GeneratedFieldsAreValid();
    FramingFieldIsValid(ResponseFraming(response.status, wanted));
    hide ValidName, ValidValue, FramingField, Values, ResponseFraming;
  }

  lemma ResponseConnection(keepAlive: bool, response: Response, wanted: Framing)
    ensures ValuesOf(Emitted(response.headers, ResponseOverrides(keepAlive, response, wanted),
                             FramingOmitted(ResponseFraming(response.status, wanted))), "Connection") ==
            [Token(keepAlive && response.keepAlive)]
  {
    var token := Token(keepAlive && response.keepAlive);
    var overrides, omitted := ResponseOverrides(keepAlive, response, wanted), FramingOmitted(ResponseFraming(response.status, wanted));
    var k := if Values(response.headers, "Server") == [] then 1 else 0;
    ResponseOverridesAreConsistent(keepAlive, response, wanted);
    TokenIsTrimmed(keepAlive && response.keepAlive);
    TrimmedOne(token);
    hide EqualsIgnoreCase, Emitted, Consistent, NumberText, FramingOmitted, Omitted, Text.Trimmed, Values,
         HttpHeadRoundTrip.Trimmed, FramingField, Token;
    assert overrides[k] == ("Connection", token);
    OverriddenValues(response.headers, overrides, omitted, k);
  }

  /** The head of a response is read back with the framing that belongs to its status and its body. */
  lemma ResponseHeadIsRead(keepAlive: bool, response: Response, wanted: Framing, rest: string)
    requires ValidValue(response.reason) && (wanted.Sized? ==> wanted.length <= MAX_U64)
    ensures ResponseHead(keepAlive, response, wanted).Some? <==>
            (response.version == 10 || response.version == 11) && 100 <= response.status <= 999 && AllValid(response.headers)
    ensures ResponseHead(keepAlive, response, wanted).Some? ==>
            Reads(ResponseHead(keepAlive, response, wanted).value, rest, StatusLine(response),
                  ResponseFraming(response.status, wanted), SentFields(keepAlive, response, wanted),
                  [Token(keepAlive && response.keepAlive)])
  {
    if (response.version == 10 || response.version == 11) && 100 <= response.status <= 999 {
      var overrides, framing := ResponseOverrides(keepAlive, response, wanted), ResponseFraming(response.status, wanted);
      StatusLineIsValid(response);
      ValidIsOneLine(StatusLine(response));
      ResponseOverridesAreValid(keepAlive, response, wanted);
      assert |overrides| <= 8 by { hide NumberText, Values; }
      if AllValid(response.headers) {
        var fields := Emitted(response.headers, overrides, FramingOmitted(framing));
        ResponseOverridesAreConsistent(keepAlive, response, wanted);
        var k := |overrides| - 1;
        assert framing != Unframed ==> overrides[k] == FramingField(framing)[0] by { hide NumberText, Values, ResponseFraming; }
        hide Emitted, Reads, ResponseOverrides, StatusLine, AllValid, ValidValue, FramingField, FramingOmitted, ValuesOf, Token;
        assert framing.Sized? ==> framing.length <= MAX_U64;
        hide ResponseFraming;
        FramingIsAnnounced(response.headers, overrides, framing, if framing == Unframed then 0 else k);
        EmittedIsValid(response.headers, overrides, FramingOmitted(framing));
        PrintedIsRead(StatusLine(response), fields, framing, rest);
        ResponseConnection(keepAlive, response, wanted);
      }
    }
  }
}
