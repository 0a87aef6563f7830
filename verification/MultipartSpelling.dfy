/** Dispositions from any sender: a parameter is spelled as a token or in quotes, and means the same text. */
module MultipartSpelling {
  import opened Wrappers
  import opened Text
  import opened HeaderFields
  import opened Headers
  import opened MultipartHead
  import opened MultipartHeadRoundTrip

  /** A parameter as it is written, with the blanks on both sides of the equals sign. */
  datatype Spelling = Spelling(key: string, text: string, quoted: bool, gap: string)

  predicate AllSpace(s: string) {
    forall i :: 0 <= i < |s| ==> IsSpace(s[i])
  }

  /** A token does not look like a quoted text, and nothing in it ends the parameter. */
  predicate WellSpelled(p: Spelling) {
    && p.key != "" && Tight(p.key) && Plain(p.key) && Free(p.key, '=') && AllSpace(p.gap) && OneLine(p.text)
    && (!p.quoted ==> p.text != "" && Tight(p.text) && Plain(p.text))
  }

  function ValueText(p: Spelling): string {
    if p.quoted then "\"" + Quoted(p.text) + "\"" else p.text
  }

  function ParameterText(p: Spelling): string {
    p.key + p.gap + "=" + p.gap + ValueText(p)
  }

  /** The parameters behind the disposition type. */
  function Spelled(parameters: seq<Spelling>): string {
    if parameters == [] then "" else "; " + ParameterText(parameters[0]) + Spelled(parameters[1..])
  }

  function Texts(parameters: seq<Spelling>): seq<string> {
    if parameters == [] then [] else [ParameterText(parameters[0])] + Texts(parameters[1..])
  }

  // ---- trimming

  lemma {:induction false} SpaceLeftOff(gap: string, s: string)
    requires AllSpace(gap) && (s == "" || !IsSpace(s[0]))
    ensures SpaceLeft(gap + s) == s
  {
    if gap == "" {
      assert gap + s == s;
    } else {
      assert (gap + s)[1..] == gap[1..] + s;
      SpaceLeftOff(gap[1..], s);
    }
  }

  lemma {:induction false} SpaceRightOff(s: string, gap: string)
    requires AllSpace(gap) && (s == "" || !IsSpace(s[|s| - 1]))
    ensures SpaceRight(s + gap) == s
    decreases |gap|
  {
    if gap == "" {
      assert s + gap == s;
    } else {
      var front := gap[..|gap| - 1];
      assert (s + gap)[..|s + gap| - 1] == s + front;
      SpaceRightOff(s, front);
    }
  }

  /** Blanks around a text that starts and ends with something else are trimmed. */
  lemma TrimGap(s: string, gap: string)
    requires s != "" && Tight(s) && AllSpace(gap)
    ensures Trim(s + gap) == s && Trim(gap + s) == s
  {
    SpaceLeftOff(gap, s);
    SpaceLeftOff("", s + gap);
    SpaceRightOff(s, gap);
    SpaceRightOff(s, "");
    assert "" + (s + gap) == s + gap && s + "" == s;
  }

  lemma ValueIsTight(p: Spelling)
    requires WellSpelled(p)
    ensures ValueText(p) != "" && Tight(ValueText(p)) && Decoded(p.gap + ValueText(p)) == Some(p.text)
  {
    if p.quoted {
      DecodedParameter(p.text);
      TightStays(ValueText(p));
    } else {
      assert p.text[0] != '"';
    }
    TrimGap(ValueText(p), p.gap);
    hide Trim, Quoted, Unescape;
  }

  /** How the pieces of a parameter lie in its text. */
  lemma ParameterShape(key: string, gap: string, value: string)
    requires key != "" && value != ""
    ensures var text, front := key + gap + "=" + gap + value, key + gap;
            && text == front + "=" + (gap + value) && text != "" && text[0] == key[0] && text[|text| - 1] == value[|value| - 1]
            && text[..|front|] == front && text[|front| + 1..] == gap + value
  {}

  lemma FrontHasNoEqual(p: Spelling)
    requires WellSpelled(p)
    ensures Free(p.key + p.gap, '=')
  {
    var front := p.key + p.gap;
    forall i | 0 <= i < |front| ensures front[i] != '=' { if i >= |p.key| { assert front[i] == p.gap[i - |p.key|]; } }
  }

  lemma ParameterIsTight(p: Spelling)
    requires WellSpelled(p)
    ensures Trim(" " + ParameterText(p)) == ParameterText(p)
    ensures Find(ParameterText(p), "=", 0) == |p.key + p.gap|
    ensures var equal := |p.key + p.gap|; ParameterText(p)[..equal] == p.key + p.gap && ParameterText(p)[equal + 1..] == p.gap + ValueText(p)
  {
    ValueIsTight(p);
    FrontHasNoEqual(p);
    hide Trim, Quoted, Decoded, ValueText, Find, At, Plain, OneLine, AllSpace, IsSpace;
    ParameterShape(p.key, p.gap, ValueText(p));
    EqualIsFirst(p.key + p.gap, p.gap + ValueText(p));
    TightStays(ParameterText(p));
  }

  lemma EqualIsFirst(front: string, rest: string)
    requires Free(front, '=')
    ensures Find(front + "=" + rest, "=", 0) == |front|
  {
    var s := front + "=" + rest;
    AtInMiddle(front, "=", rest);
    forall j | 0 <= j < |front| ensures !At(s, j, "=") { assert s[j..j + 1][0] == front[j]; }
    FindIs(s, "=", 0, |front|);
  }

  // ---- splitting

  lemma FrontIsPlain(p: Spelling)
    requires WellSpelled(p)
    ensures Plain(" " + (p.key + p.gap + "=" + p.gap)) && (!p.quoted ==> Plain(" " + ParameterText(p)))
  {
    assert Plain(p.gap) by {
      forall i | 0 <= i < |p.gap| ensures p.gap[i] != ';' && p.gap[i] != '"' { assert IsSpace(p.gap[i]); }
    }
    PlainAppend(p.key, p.gap);
    PlainAppend(p.key + p.gap, "=");
    PlainAppend(p.key + p.gap + "=", p.gap);
    PlainAppend(" ", p.key + p.gap + "=" + p.gap);
    hide Plain;
    if !p.quoted {
      PlainAppend(p.key + p.gap + "=" + p.gap, p.text);
      PlainAppend(" ", ParameterText(p));
    }
    PlainPieces();
  }

  lemma PlainPieces()
    ensures Plain("=") && Plain(" ")
  {}

  lemma PlainAppend(a: string, b: string)
    ensures Plain(a) && Plain(b) ==> Plain(a + b)
  {}

  /** A quoted text behind plain characters is crossed as a whole. */
  lemma CrossQuoted(value: string, start: nat, front: string, text: string)
    requires Plain(front) && At(value, start, front + ("\"" + Quoted(text) + "\""))
    ensures SplitFrom(value, start, start, false, false) == SplitFrom(value, start, start + |front| + |Quoted(text)| + 2, false, false)
  {
    hide SplitFrom, Quoted, At, Plain;
    var pattern, quote := front + ("\"" + Quoted(text) + "\""), start + |front|;
    assert pattern[..|front|] == front && pattern[|front| + 1..] == Quoted(text) + "\"";
    AtTail(value, start, pattern, |front| + 1);
    AtIsSlice(value, start, pattern);
    PrefixOfSlice(value, start, |pattern|, |front|);
    SplitPlain(value, start, start, |front|);
    SplitQuote(value, start, quote);
    SplitQuoted(value, start, quote + 1, text);
  }

  lemma QuotedText(p: Spelling)
    ensures |" " + ParameterText(p)| == 1 + |ParameterText(p)|
    ensures p.quoted ==>
              var front := " " + (p.key + p.gap + "=" + p.gap);
              && " " + ParameterText(p) == front + ("\"" + Quoted(p.text) + "\"")
              && 1 + |ParameterText(p)| == |front| + |Quoted(p.text)| + 2
  {
    hide Quoted;
  }

  /** A parameter is crossed as a whole, in either spelling. */
  lemma CrossParameter(value: string, start: nat, p: Spelling)
    requires WellSpelled(p) && At(value, start, " " + ParameterText(p))
    ensures SplitFrom(value, start, start, false, false) == SplitFrom(value, start, start + 1 + |ParameterText(p)|, false, false)
  {
    hide *;
    FrontIsPlain(p);
    QuotedText(p);
    if p.quoted {
      CrossQuoted(value, start, " " + (p.key + p.gap + "=" + p.gap), p.text);
    } else {
      CrossPlain(value, start, " " + ParameterText(p));
    }
  }

  lemma CrossPlain(value: string, start: nat, text: string)
    requires Plain(text) && At(value, start, text)
    ensures SplitFrom(value, start, start, false, false) == SplitFrom(value, start, start + |text|, false, false)
  {
    AtIsSlice(value, start, text);
    hide SplitFrom, At, Plain;
    SplitPlain(value, start, start, |text|);
  }

  lemma Semicolon(text: string, rest: string)
    ensures "; " + text + rest == ";" + (" " + text + rest)
  {}

  lemma SpelledFirst(parameters: seq<Spelling>)
    requires parameters != []
    ensures Spelled(parameters) == ";" + (" " + ParameterText(parameters[0]) + Spelled(parameters[1..]))
  {
    hide ParameterText;
    Semicolon(ParameterText(parameters[0]), Spelled(parameters[1..]));
  }

  lemma BehindSemicolon(value: string, end: nat, rest: string)
    requires end <= |value| && value[end..] == ";" + rest
    ensures end < |value| && value[end] == ';' && value[end + 1..] == rest
  {
    assert value[end..][1..] == rest && value[end..][0] == ';';
  }

  lemma NothingBehind(value: string, end: nat)
    requires end <= |value| && value[end..] == Spelled([])
    ensures end == |value|
  {}

  lemma TextsFirst(parameters: seq<Spelling>)
    requires parameters != []
    ensures Texts(parameters) == [ParameterText(parameters[0])] + Texts(parameters[1..])
    ensures Texts([]) == []
  {}

  /** One parameter and what follows it. */
  lemma SplitOne(value: string, start: nat, p: Spelling, rest: string)
    requires start <= |value| && WellSpelled(p) && value[start..] == " " + ParameterText(p) + rest && (rest == "" || rest[0] == ';')
    ensures var end := start + 1 + |ParameterText(p)|;
            && end <= |value| && value[end..] == rest
            && SplitFrom(value, start, start, false, false) == [ParameterText(p)] + SplitFrom(value, end + 1, end + 1, false, false)
  {
    var first := " " + ParameterText(p);
    hide SplitFrom, ParameterText, WellSpelled, At, Trim;
    PieceAt(value, start, first, rest);
    CrossParameter(value, start, p);
    ParameterIsTight(p);
    if rest != "" { assert value[start + |first|..][0] == rest[0]; }
    SplitEnd(value, start, start + |first|);
  }

  /** Every parameter comes back as one piece. */
  lemma {:induction false} SplitSpelled(value: string, start: nat, parameters: seq<Spelling>)
    requires start <= |value| && parameters != [] && forall i :: 0 <= i < |parameters| ==> WellSpelled(parameters[i])
    requires value[start..] == " " + ParameterText(parameters[0]) + Spelled(parameters[1..])
    ensures SplitFrom(value, start, start, false, false) == Texts(parameters)
    decreases |parameters|
  {
    hide *;
    var rest := parameters[1..];
    var end := start + 1 + |ParameterText(parameters[0])|;
    TextsFirst(parameters);
    if rest == [] {
      NothingSpelled();
      SplitOne(value, start, parameters[0], "");
      NothingBehind(value, end);
      SplitNothing(value);
    } else {
      SpelledFirst(rest);
      SplitOne(value, start, parameters[0], Spelled(rest));
      BehindSemicolon(value, end, " " + ParameterText(rest[0]) + Spelled(rest[1..]));
      SplitSpelled(value, end + 1, rest);
    }
  }

  lemma NothingSpelled()
    ensures Spelled([]) == ""
  {}

  lemma PieceAt(value: string, start: nat, first: string, rest: string)
    requires start <= |value| && value[start..] == first + rest
    ensures start + |first| <= |value| && At(value, start, first) && value[start..start + |first|] == first && value[start + |first|..] == rest
  {
    assert value[start..][..|first|] == first && value[start..][|first|..] == rest;
    assert value[start..start + |first|] == first;
  }

  // ---- what they mean

  /** The text of the last parameter with this key, in any case. */
  function LastText(parameters: seq<Spelling>, key: string, otherwise: string): string
    decreases |parameters|
  {
    if parameters == [] then otherwise
    else LastText(parameters[1..], key, if EqualsIgnoreCase(parameters[0].key, key) then parameters[0].text else otherwise)
  }

  lemma OneApplies(to: Part, p: Spelling, rest: seq<string>)
    requires WellSpelled(p)
    ensures ApplyParameters(to, [ParameterText(p)] + rest) == ApplyParameters(Named(to, p.key, p.text), rest)
  {
    TrimGap(p.key, p.gap);
    hide ParameterText, WellSpelled, Decoded, Trim, EqualsIgnoreCase, Find, At, Tight, Plain, OneLine, AllSpace, ValueText;
    ParameterIsTight(p);
    ValueIsTight(p);
    assert ([ParameterText(p)] + rest)[1..] == rest;
  }

  lemma {:induction false} SpelledApply(to: Part, parameters: seq<Spelling>)
    requires forall i :: 0 <= i < |parameters| ==> WellSpelled(parameters[i])
    ensures ApplyParameters(to, Texts(parameters)) ==
            Some(to.(name := LastText(parameters, "name", to.name), filename := LastText(parameters, "filename", to.filename)))
    decreases |parameters|
  {
    if parameters != [] {
      hide ParameterText, WellSpelled, ApplyParameters, EqualsIgnoreCase;
      OneApplies(to, parameters[0], Texts(parameters[1..]));
      SpelledApply(Named(to, parameters[0].key, parameters[0].text), parameters[1..]);
    }
  }

  lemma SpelledParameters(parameters: seq<Spelling>)
    requires parameters != [] && forall i :: 0 <= i < |parameters| ==> WellSpelled(parameters[i])
    ensures Parameters(FORM_DATA + Spelled(parameters)) == [FORM_DATA] + Texts(parameters)
  {
    hide *;
    var value, rest := FORM_DATA + Spelled(parameters), " " + ParameterText(parameters[0]) + Spelled(parameters[1..]);
    SpelledFirst(parameters);
    FormDataFront(rest);
    SplitFormData(value);
    SplitSpelled(value, 10, parameters);
  }

  lemma FormDataFront(rest: string)
    ensures var value := FORM_DATA + (";" + rest); FORM_DATA + ";" <= value && |value| >= 10 && value[10..] == rest
  {}

  lemma SpelledDisposition(to: Part, parameters: seq<Spelling>)
    requires parameters != [] && forall i :: 0 <= i < |parameters| ==> WellSpelled(parameters[i])
    ensures ApplyDisposition(to, FORM_DATA + Spelled(parameters)) ==
            Some(to.(name := LastText(parameters, "name", to.name), filename := LastText(parameters, "filename", to.filename)))
  {
    hide WellSpelled, Spelled, ApplyParameters, Parameters, EqualsIgnoreCase, Texts;
    SpelledParameters(parameters);
    assert ([FORM_DATA] + Texts(parameters))[1..] == Texts(parameters);
    SpelledApply(to, parameters);
    NamedKeys(to, "");
  }

  /** A disposition with any parameters, spelled as tokens or in quotes, gives the part the texts of its last `name` and its
      last `filename`; other parameters are ignored. */
  lemma SpelledDispositionIsRead(parameters: seq<Spelling>)
    requires parameters != [] && forall i :: 0 <= i < |parameters| ==> WellSpelled(parameters[i])
    requires ValidValue(Spelled(parameters)) && Tight(FORM_DATA + Spelled(parameters))
    ensures var value := FORM_DATA + Spelled(parameters);
            ParsedHead(Line(("Content-Disposition", value))) ==
            Some(Part(LastText(parameters, "name", ""), LastText(parameters, "filename", ""), "", [("Content-Disposition", value)]))
  {
    assert EmptyPart == Part("", "", "", []);
    hide ValidValue, WellSpelled, Spelled, Tight, LastText, ParsedHead, ApplyDisposition, Line;
    var value := FORM_DATA + Spelled(parameters);
    FormDataIsValid();
    ValidAppend(FORM_DATA, Spelled(parameters));
    SpelledDisposition(EmptyPart.(headers := [("Content-Disposition", value)]), parameters);
    DispositionAlone(value);
  }

  lemma FormDataIsValid()
    ensures ValidValue(FORM_DATA)
  {}

  /** A block with nothing but a disposition. */
  lemma DispositionAlone(value: string)
    requires ValidValue(value) && Tight(value)
    ensures ParsedHead(Line(("Content-Disposition", value))) == ApplyDisposition(EmptyPart.(headers := [("Content-Disposition", value)]), value)
  {
    var field := ("Content-Disposition", value);
    ReservedNames();
    ValidIsOneLine(value);
    TightStays(value);
    OneDisposition(value);
    hide ValidName, ValidValue, Trim, Tight, OneLine, ParseLines, ApplyParameters, Parameters, EqualsIgnoreCase, CountName;
    ParseJoinedLines([field], EmptyPart);
    assert EmptyPart.headers + [field] == [field];
    KeepsHeaders(EmptyPart.(headers := [field]), Parameters(value));
    KeepsHeaders(EmptyPart.(headers := [field]), if Parameters(value) == [] then [] else Parameters(value)[1..]);
  }

  lemma {:induction false} KeepsHeaders(part: Part, parameters: seq<string>)
    ensures ApplyParameters(part, parameters).Some? ==> ApplyParameters(part, parameters).value.headers == part.headers
    decreases |parameters|
  {
    hide Decoded, Trim, EqualsIgnoreCase, Find;
    if parameters != [] {
      var equal := Find(parameters[0], "=", 0);
      if equal == -1 {
        KeepsHeaders(part, parameters[1..]);
      } else {
        FoundWithin(parameters[0], "=", 0);
        var key := Trim(parameters[0][..equal]);
        var decoded := Decoded(parameters[0][equal + 1..]);
        if decoded.Some? {
          var named := if EqualsIgnoreCase(key, "name") then part.(name := decoded.value) else part;
          var filed := if EqualsIgnoreCase(key, "filename") then named.(filename := decoded.value) else named;
          KeepsHeaders(filed, parameters[1..]);
        }
      }
    }
  }

  lemma OneDisposition(value: string)
    ensures CountName([("Content-Disposition", value)], "Content-Disposition") == 1
    ensures CountName([("Content-Disposition", value)], "Content-Type") == 0
  {
    ReservedNames();
    assert [("Content-Disposition", value)][1..] == [];
    hide EqualsIgnoreCase;
  }

  // ---- what is refused

  /** A quote that is not closed is not a token either. */
  lemma OpenQuoteIsRefused(text: string)
    requires OneLine(text) && (text == "" || text[|text| - 1] != '"') && Tight("\"" + text)
    ensures Decoded("\"" + text) == None
  {
    TightStays("\"" + text);
  }

  lemma {:induction false} AppliedHeaders(part: Part, fields: seq<Field>)
    ensures ApplyAll(part, fields).Some? ==> ApplyAll(part, fields).value.headers == part.headers + TrimValues(fields)
    decreases |fields|
  {
    hide Trim, ApplyField;
    if fields == [] {
      assert part.headers + [] == part.headers;
    } else {
      var name, value := fields[0].0, Trim(fields[0].1);
      var next := ApplyField(part, name, value);
      if next.Some? {
        FieldIsAdded(part, name, value);
        AppliedHeaders(next.value, fields[1..]);
        assert part.headers + [(name, value)] + TrimValues(fields[1..]) == part.headers + ([(name, value)] + TrimValues(fields[1..]));
      }
    }
  }

  lemma FieldIsAdded(part: Part, name: string, value: string)
    ensures ApplyField(part, name, value).Some? ==> ApplyField(part, name, value).value.headers == part.headers + [(name, value)]
  {
    hide ValidName, ValidValue, EqualsIgnoreCase, ApplyParameters, Parameters;
    var added := part.(headers := part.headers + [(name, value)]);
    var typed := added.(contentType := value);
    var parameters := if Parameters(value) == [] then [] else Parameters(value)[1..];
    KeepsHeaders(added, parameters);
    KeepsHeaders(typed, parameters);
  }

  lemma {:induction false} CountTrimmed(fields: seq<Field>, name: string)
    ensures CountName(TrimValues(fields), name) == CountName(fields, name)
  {
    hide EqualsIgnoreCase, Trim;
    if fields != [] { CountTrimmed(fields[1..], name); }
  }

  /** A block is accepted only with exactly one disposition and at most one content type, and all its fields are kept. */
  lemma AcceptedBlock(fields: seq<Field>)
    requires fields != [] && AllPrintable(fields)
    ensures ParsedHead(JoinLines(fields)).Some? ==>
              && CountName(fields, "Content-Disposition") == 1 && CountName(fields, "Content-Type") <= 1
              && ParsedHead(JoinLines(fields)).value.headers == TrimValues(fields)
  {
    hide ApplyAll, AllPrintable, JoinLines, CountName, TrimValues, ParseLines;
    ParseJoinedLines(fields, EmptyPart);
    AppliedHeaders(EmptyPart, fields);
    CountTrimmed(fields, "Content-Disposition");
    CountTrimmed(fields, "Content-Type");
    assert EmptyPart.headers + TrimValues(fields) == TrimValues(fields);
  }

  // ---- the fields of a part

  function TrimAll(values: seq<string>): seq<string> {
    if values == [] then [] else [Trim(values[0])] + TrimAll(values[1..])
  }

  lemma {:induction false} ValuesTrimmed(fields: seq<Field>, name: string)
    ensures Values(TrimValues(fields), name) == TrimAll(Values(fields, name))
  {
    hide EqualsIgnoreCase, Trim;
    if fields != [] {
      ValuesTrimmed(fields[1..], name);
      var rest := Values(fields[1..], name);
      assert ([fields[0].1] + rest)[1..] == rest && [] + rest == rest;
    }
  }

  lemma {:induction false} CustomValues(headers: seq<Field>, name: string)
    requires forall i :: 0 <= i < |headers| ==> ValidName(headers[i].0) && ValidValue(headers[i].1)
    requires !Reserved(name)
    ensures Values(CustomFields(headers), name) == Values(headers, name)
  {
    if headers != [] {
      assert EqualsIgnoreCase(headers[0].0, name) && Reserved(headers[0].0) ==> Reserved(name);
      hide EqualsIgnoreCase, Reserved, ValidName, ValidValue;
      CustomValues(headers[1..], name);
      var rest := CustomFields(headers[1..]);
      assert ([headers[0]] + rest)[1..] == rest && [] + rest == rest;
    }
  }

  /** A part keeps the values of all its fields but the two that are written from its name, filename and type. */
  lemma PartFieldsSurvive(part: Part, name: string)
    requires Validated(part) && !Reserved(name)
    ensures Values(Received(part).headers, name) == TrimAll(Values(part.headers, name))
    ensures Received(part).name == part.name && Received(part).filename == part.filename && Received(part).contentType == Trim(part.contentType)
  {
    NotReserved(name);
    hide *;
    CustomValues(part.headers, name) by { HeadersAreValid(part); }
    ValuesTrimmed(Fields(part), name);
    FieldsInOrder(part);
    OtherFirst(("Content-Disposition", Disposition(part)), TypeFields(part) + CustomFields(part.headers), name);
    if part.contentType != "" { OtherFirst(("Content-Type", part.contentType), CustomFields(part.headers), name); }
    ReceivedParts(part);
  }

  lemma NotReserved(name: string)
    requires !Reserved(name)
    ensures !EqualsIgnoreCase("Content-Disposition", name) && !EqualsIgnoreCase("Content-Type", name)
  {}

  lemma HeadersAreValid(part: Part)
    requires Validated(part)
    ensures forall i :: 0 <= i < |part.headers| ==> ValidName(part.headers[i].0) && ValidValue(part.headers[i].1)
  {}

  lemma FieldsInOrder(part: Part)
    ensures Fields(part) == [("Content-Disposition", Disposition(part))] + (TypeFields(part) + CustomFields(part.headers))
    ensures TypeFields(part) + CustomFields(part.headers) ==
            if part.contentType == "" then CustomFields(part.headers) else [("Content-Type", part.contentType)] + CustomFields(part.headers)
  {
    hide Disposition, CustomFields;
  }

  lemma ReceivedParts(part: Part)
    ensures Received(part).headers == TrimValues(Fields(part)) && Received(part).name == part.name
    ensures Received(part).filename == part.filename && Received(part).contentType == Trim(part.contentType)
  {}

  lemma OtherFirst(field: Field, rest: seq<Field>, name: string)
    requires !EqualsIgnoreCase(field.0, name)
    ensures Values([field] + rest, name) == Values(rest, name)
  {
    assert ([field] + rest)[1..] == rest;
  }
}
