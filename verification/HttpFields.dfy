/** The fields that arrive: name by name, a receiver sees the values of the caller, and generated ones only where they belong. */
module HttpFields {
  import opened Text
  import opened HeaderFields
  import opened Headers
  import opened HttpHead
  import opened HttpFraming
  import opened HttpHeadRoundTrip
  import opened HttpWriter

  /** The caller's values, or a generated one if there are none. */
  function Default(own: seq<string>, value: string): seq<string> {
    if own == [] then [value] else own
  }

  lemma {:induction false} SameNameSameValues(fields: seq<Field>, a: string, b: string)
    requires EqualsIgnoreCase(a, b)
    ensures Values(fields, a) == Values(fields, b)
  {
    if fields != [] {
      SameNameSameValues(fields[1..], a, b);
      assert EqualsIgnoreCase(fields[0].0, a) == EqualsIgnoreCase(fields[0].0, b);
    }
  }

  lemma {:induction false} KeptFieldValues(fields: seq<Field>, name: string)
    ensures Values(Kept(fields), name) == ValuesOf(fields, name)
  {
    hide EqualsIgnoreCase, TrimBlank;
    if fields != [] {
      KeptFieldValues(fields[1..], name);
      var rest := Kept(fields[1..]);
      assert ([(fields[0].0, TrimBlank(fields[0].1))] + rest)[1..] == rest;
      TrimmedFirst(if EqualsIgnoreCase(fields[0].0, name) then [fields[0].1] else [], Values(fields[1..], name));
    }
  }

  lemma TrimmedFirst(first: seq<string>, rest: seq<string>)
    requires |first| <= 1
    ensures HttpHeadRoundTrip.Trimmed(first + rest) == HttpHeadRoundTrip.Trimmed(first) + HttpHeadRoundTrip.Trimmed(rest)
    ensures |first| == 1 ==> HttpHeadRoundTrip.Trimmed(first) == [TrimBlank(first[0])]
  {
    if first == [] { assert first + rest == rest; } else { assert (first + rest)[1..] == rest && first[1..] == []; }
  }

  predicate IsFraming(name: string) {
    EqualsIgnoreCase(name, "Content-Length") || EqualsIgnoreCase(name, "Transfer-Encoding")
  }

  lemma FramingIsNotOmitted(framing: Framing, name: string)
    requires !IsFraming(name)
    ensures !Omitted(name, FramingOmitted(framing))
  {
    OmittedNames(framing, name);
    hide EqualsIgnoreCase;
  }

  /** The values that the head of a request carries for a name outside the framing. */
  function RequestValues(request: Request, name: string): seq<string> {
    var own := Values(request.headers, name);
    if EqualsIgnoreCase(name, "Connection") then Default(own, Token(request.keepAlive))
    else if EqualsIgnoreCase(name, "User-Agent") then Default(own, "chhttp/0.4")
    else own
  }

  lemma FramingFieldIsFraming(framing: Framing, name: string)
    requires !IsFraming(name)
    ensures forall k :: 0 <= k < |FramingField(framing)| ==> !EqualsIgnoreCase(name, FramingField(framing)[k].0)
  {
    hide EqualsIgnoreCase, NumberText;
  }

  lemma OneOverride(overrides: seq<Field>, name: string, k: nat)
    requires k < |overrides| && EqualsIgnoreCase(name, overrides[k].0)
    requires forall j :: 0 <= j < |overrides| && j != k ==> !EqualsIgnoreCase(name, overrides[j].0)
    ensures OverrideIndex(name, overrides) == k
  {
    hide EqualsIgnoreCase;
  }

  lemma FirstLetter(name: string, word: string)
    requires EqualsIgnoreCase(name, word) && word != ""
    ensures name != "" && LowerChar(name[0]) == LowerChar(word[0])
  {}

  lemma NotBoth(name: string)
    ensures !(EqualsIgnoreCase(name, "Connection") && EqualsIgnoreCase(name, "User-Agent"))
    ensures !(EqualsIgnoreCase(name, "Connection") && EqualsIgnoreCase(name, "Server"))
  {
    if EqualsIgnoreCase(name, "Connection") { FirstLetter(name, "Connection"); }
    if EqualsIgnoreCase(name, "User-Agent") { FirstLetter(name, "User-Agent"); }
    assert LowerChar("Connection"[0]) == 'c' && LowerChar("User-Agent"[0]) == 'u';
  }

  /** The value of the override for a name, if there is one. */
  function Override(overrides: seq<Field>, name: string): seq<string> {
    var k := OverrideIndex(name, overrides);
    if k < |overrides| then [overrides[k].1] else []
  }

  lemma RequestOverride(request: Request, name: string)
    requires !IsFraming(name)
    ensures Override(RequestOverrides(request), name) ==
            if EqualsIgnoreCase(name, "Connection") && Values(request.headers, "Connection") == [] then [Token(request.keepAlive)]
            else if EqualsIgnoreCase(name, "User-Agent") && Values(request.headers, "User-Agent") == [] then ["chhttp/0.4"]
            else []
  {
    var overrides := RequestOverrides(request);
    NotBoth(name);
    FramingFieldIsFraming(RequestFraming(request), name);
    FieldsOfFraming(RequestFraming(request));
    hide EqualsIgnoreCase, NumberText, Values, FramingField, IsFraming, Token;
    if EqualsIgnoreCase(name, "Connection") && Values(request.headers, "Connection") == [] {
      OneOverride(overrides, name, 1);
    } else if EqualsIgnoreCase(name, "User-Agent") && Values(request.headers, "User-Agent") == [] {
      OneOverride(overrides, name, |overrides| - 1);
    }
  }

  lemma FieldsOfFraming(framing: Framing)
    ensures |FramingField(framing)| == if framing == Unframed then 0 else 1
  {}

  lemma ResponseOverride(keepAlive: bool, response: Response, wanted: Framing, name: string)
    requires !IsFraming(name)
    ensures Override(ResponseOverrides(keepAlive, response, wanted), name) ==
            if EqualsIgnoreCase(name, "Connection") then [Token(keepAlive && response.keepAlive)]
            else if EqualsIgnoreCase(name, "Server") && Values(response.headers, "Server") == [] then ["chhttp/0.4"]
            else []
  {
    var overrides := ResponseOverrides(keepAlive, response, wanted);
    NotBoth(name);
    FramingFieldIsFraming(ResponseFraming(response.status, wanted), name);
    hide EqualsIgnoreCase, NumberText, Values, FramingField, IsFraming, Token, ResponseFraming;
    var first := if Values(response.headers, "Server") == [] then 1 else 0;
    assert overrides[first] == ("Connection", Token(keepAlive && response.keepAlive));
    if EqualsIgnoreCase(name, "Connection") {
      OneOverride(overrides, name, first);
    } else if EqualsIgnoreCase(name, "Server") && first == 1 {
      OneOverride(overrides, name, 0);
    }
  }

  lemma SentValues(headers: seq<Field>, overrides: seq<Field>, framing: Framing, name: string)
    requires !IsFraming(name) && Consistent(overrides, FramingOmitted(framing))
    ensures var sent, own := Emitted(headers, overrides, FramingOmitted(framing)), Override(overrides, name);
            && Values(sent, name) == (if own != [] then own else Values(headers, name))
            && Values(Kept(sent), name) == HttpHeadRoundTrip.Trimmed(Values(sent, name))
  {
    FramingIsNotOmitted(framing, name);
    hide EqualsIgnoreCase, Emitted, Consistent, FramingOmitted, Omitted, Values, Kept, IsFraming;
    EmittedValues(headers, overrides, FramingOmitted(framing), name);
    KeptFieldValues(Emitted(headers, overrides, FramingOmitted(framing)), name);
  }

  /** Every field of the caller is sent, and `Connection` and `User-Agent` are generated only for a caller without them. */
  lemma RequestFieldsSurvive(request: Request, name: string)
    requires !IsFraming(name)
    ensures Values(SentRequestFields(request), name) == RequestValues(request, name)
    ensures Values(Kept(SentRequestFields(request)), name) == HttpHeadRoundTrip.Trimmed(RequestValues(request, name))
  {
    if EqualsIgnoreCase(name, "Connection") { SameNameSameValues(request.headers, name, "Connection"); }
    if EqualsIgnoreCase(name, "User-Agent") { SameNameSameValues(request.headers, name, "User-Agent"); }
    hide EqualsIgnoreCase, Emitted, Consistent, Values, Kept, Override, IsFraming, Token, RequestOverrides, RequestFraming,
         HttpHeadRoundTrip.Trimmed;
    NotBoth(name);
    RequestOverridesAreConsistent(request);
    RequestOverride(request, name);
    SentValues(request.headers, RequestOverrides(request), RequestFraming(request), name);
  }

  /** The values that the head of a response carries for a name outside the framing. */
  function ResponseValues(keepAlive: bool, response: Response, name: string): seq<string> {
    var own := Values(response.headers, name);
    if EqualsIgnoreCase(name, "Connection") then [Token(keepAlive && response.keepAlive)]
    else if EqualsIgnoreCase(name, "Server") then Default(own, "chhttp/0.4")
    else own
  }

  /** Every field of the handler but `Connection` is sent, and `Server` is generated only for a handler without one. */
  lemma ResponseFieldsSurvive(keepAlive: bool, response: Response, wanted: Framing, name: string)
    requires !IsFraming(name)
    ensures Values(SentFields(keepAlive, response, wanted), name) == ResponseValues(keepAlive, response, name)
    ensures Values(Kept(SentFields(keepAlive, response, wanted)), name) ==
            HttpHeadRoundTrip.Trimmed(ResponseValues(keepAlive, response, name))
  {
    if EqualsIgnoreCase(name, "Server") { SameNameSameValues(response.headers, name, "Server"); }
    hide EqualsIgnoreCase, Emitted, Consistent, Values, Kept, Override, IsFraming, Token, ResponseOverrides, ResponseFraming,
         HttpHeadRoundTrip.Trimmed;
    NotBoth(name);
    ResponseOverridesAreConsistent(keepAlive, response, wanted);
    ResponseOverride(keepAlive, response, wanted, name);
    SentValues(response.headers, ResponseOverrides(keepAlive, response, wanted), ResponseFraming(response.status, wanted), name);
  }
}
