/** Printing the header block of a part and parsing it again. */
module MultipartHeadRoundTrip {
  import opened Wrappers
  import opened Text
  import opened HeaderFields
  import opened MultipartHead

  /** What `validate_part_metadata` lets through. */
  predicate Validated(part: Part) {
    && part.name != "" && Free(part.name, '\r') && Free(part.name, '\n')
    && Free(part.filename, '\r') && Free(part.filename, '\n')
    && ValidValue(part.contentType)
    && forall i :: 0 <= i < |part.headers| ==> ValidName(part.headers[i].0) && ValidValue(part.headers[i].1)
  }

  // ---- parameters

  predicate Plain(s: string) {
    Free(s, ';') && Free(s, '"')
  }

  /** Outside quotes, ordinary characters are skipped. */
  lemma {:induction false} SplitPlain(value: string, start: nat, i: nat, n: nat)
    requires start <= i && i + n <= |value| && Plain(value[i..i + n])
    ensures SplitFrom(value, start, i, false, false) == SplitFrom(value, start, i + n, false, false)
    decreases n
  {
    if n > 0 {
      assert value[i..i + n][0] == value[i];
      assert value[i + 1..i + n] == value[i..i + n][1..];
      SplitPlain(value, start, i + 1, n - 1);
    }
  }

  lemma AtTail(s: string, i: nat, pattern: string, k: nat)
    requires At(s, i, pattern) && k <= |pattern|
    ensures At(s, i + k, pattern[k..]) && forall j :: 0 <= j < k ==> s[i + j] == pattern[j]
  {
    assert s[i + k..i + |pattern|] == s[i..i + |pattern|][k..];
    forall j | 0 <= j < k ensures s[i + j] == pattern[j] { assert s[i + j] == s[i..i + |pattern|][j]; }
  }

  /** A quoted text is crossed as a whole, whatever it contains. */
  lemma {:induction false} SplitQuoted(value: string, start: nat, i: nat, text: string)
    requires start <= i && At(value, i, Quoted(text) + "\"")
    ensures SplitFrom(value, start, i, true, false) == SplitFrom(value, start, i + |Quoted(text)| + 1, false, false)
    decreases |text|
  {
    var pattern := Quoted(text) + "\"";
    if text == "" {
      AtTail(value, i, pattern, 1);
    } else if text[0] == '\r' || text[0] == '\n' {
      SplitQuoted(value, start, i, text[1..]);
    } else {
      var head := if text[0] == '\\' || text[0] == '"' then ['\\', text[0]] else [text[0]];
      assert pattern == head + (Quoted(text[1..]) + "\"");
      AtTail(value, i, pattern, |head|);
      assert pattern[|head|..] == Quoted(text[1..]) + "\"";
      SplitQuoted(value, start, i + |head|, text[1..]);
    }
  }

  function Parameter(key: string, text: string): string {
    key + "=\"" + Quoted(text) + "\""
  }

  /** The part of a printed parameter before the opening quote. */
  lemma SplitOpening(value: string, start: nat, key: string, text: string)
    requires At(value, start, " " + Parameter(key, text)) && Plain(key)
    ensures var quote := start + |key| + 2;
            && quote < |value| && value[quote] == '"'
            && At(value, quote + 1, Quoted(text) + "\"")
            && SplitFrom(value, start, start, false, false) == SplitFrom(value, start, quote, false, false)
  {
    hide Quoted, SplitFrom, Parameter, At;
    var pattern := " " + Parameter(key, text);
    var n := |key| + 2;
    ParameterParts(key, text);
    AtTail(value, start, pattern, n);
    AtTail(value, start, pattern, n + 1);
    AtIsSlice(value, start, pattern);
    PrefixOfSlice(value, start, |pattern|, n);
    SplitPlain(value, start, start, n);
  }

  lemma ParameterParts(key: string, text: string)
    ensures var pattern, n := " " + Parameter(key, text), |key| + 2;
            && |pattern| > n && pattern[..n] == " " + key + "=" && pattern[n] == '"' && pattern[n + 1..] == Quoted(text) + "\""
  {
    hide Quoted;
  }

  lemma AtIsSlice(s: string, i: int, pattern: string)
    requires At(s, i, pattern)
    ensures 0 <= i && i + |pattern| <= |s| && s[i..i + |pattern|] == pattern
  {}

  lemma PrefixOfSlice(s: string, start: nat, count: nat, n: nat)
    requires n <= count && start + count <= |s|
    ensures s[start..start + n] == s[start..start + count][..n]
  {}

  lemma SplitEnd(value: string, start: nat, end: nat)
    requires start <= end && (end == |value| || (end < |value| && value[end] == ';'))
    ensures SplitFrom(value, start, end, false, false) == [Trim(value[start..end])] + SplitFrom(value, end + 1, end + 1, false, false)
  {}

  lemma SplitQuote(value: string, start: nat, i: nat)
    requires start <= i < |value| && value[i] == '"'
    ensures SplitFrom(value, start, i, false, false) == SplitFrom(value, start, i + 1, true, false)
  {}

  /** A printed parameter comes back as one piece. */
  lemma SplitParameter(value: string, start: nat, key: string, text: string)
    requires At(value, start, " " + Parameter(key, text))
    requires key != "" && Plain(key) && !IsSpace(key[0])
    requires var end := start + 1 + |Parameter(key, text)|; end == |value| || (end < |value| && value[end] == ';')
    ensures var end := start + 1 + |Parameter(key, text)|;
            SplitFrom(value, start, start, false, false) == [Parameter(key, text)] + SplitFrom(value, end + 1, end + 1, false, false)
  {
    hide SplitFrom, Quoted, Trim;
    var end := start + 1 + |Parameter(key, text)|;
    SplitOpening(value, start, key, text);
    SplitQuote(value, start, start + |key| + 2);
    SplitQuoted(value, start, start + |key| + 3, text);
    SplitEnd(value, start, end);
    assert value[start..end] == " " + Parameter(key, text);
    TightStays(Parameter(key, text));
  }

  lemma DecodedParameter(text: string)
    requires Free(text, '\r') && Free(text, '\n')
    ensures Decoded("\"" + Quoted(text) + "\"") == Some(text)
  {
    var quoted := "\"" + Quoted(text) + "\"";
    TightStays(quoted);
    assert quoted[1..|quoted| - 1] == Quoted(text);
    UnescapeQuoted(text);
  }

  lemma FindEqual(key: string, text: string)
    requires Free(key, '=')
    ensures Find(Parameter(key, text), "=", 0) == |key|
    ensures Parameter(key, text)[..|key|] == key
    ensures Parameter(key, text)[|key| + 1..] == "\"" + Quoted(text) + "\""
  {
    var s := Parameter(key, text);
    assert s[|key|..|key| + 1] == "=";
    forall j | 0 <= j < |key| ensures !At(s, j, "=") { assert s[j..j + 1][0] == key[j]; }
    FindIs(s, "=", 0, |key|);
  }

  // ---- the disposition

  const FORM_DATA := "form-data"

  lemma SplitFormData(value: string)
    requires FORM_DATA + ";" <= value
    ensures Parameters(value) == [FORM_DATA] + SplitFrom(value, 10, 10, false, false)
  {
    assert value[0..9] == FORM_DATA by { assert (FORM_DATA + ";")[..9] == FORM_DATA; }
    assert value[9] == ';' by { assert (FORM_DATA + ";")[9] == ';'; }
    SplitPlain(value, 0, 0, 9);
    TightStays(FORM_DATA);
  }

  function NameAndFile(part: Part): seq<string> {
    [Parameter("name", part.name)] + if part.filename == "" then [] else [Parameter("filename", part.filename)]
  }

  lemma DispositionShape(part: Part)
    ensures Disposition(part) ==
            FORM_DATA + ";" + (" " + Parameter("name", part.name)) +
            (if part.filename == "" then "" else ";" + (" " + Parameter("filename", part.filename)))
  {
    hide Quoted;
    assert "form-data; name=\"" == FORM_DATA + ";" + " " + "name" + "=\"";
    assert "; filename=\"" == ";" + " " + "filename" + "=\"";
    var named := FORM_DATA + ";" + (" " + Parameter("name", part.name));
    assert "form-data; name=\"" + Quoted(part.name) + "\"" == named;
    assert "; filename=\"" + Quoted(part.filename) + "\"" == ";" + (" " + Parameter("filename", part.filename));
  }

  lemma DispositionParameters(part: Part)
    ensures Parameters(Disposition(part)) == [FORM_DATA] + NameAndFile(part)
  {
    hide SplitFrom, Quoted, Trim, IsSpace, At, Plain, Disposition, Parameters;
    PlainKeys();
    var value := Disposition(part);
    var first := " " + Parameter("name", part.name);
    DispositionShape(part);
    SplitFormData(value);
    var tail := if part.filename == "" then "" else ";" + (" " + Parameter("filename", part.filename));
    AtInMiddle(FORM_DATA + ";", first, tail);
    SplitParameter(value, 10, "name", part.name);
    var end := 10 + |first|;
    if part.filename == "" {
      SplitNothing(value);
    } else {
      var second := " " + Parameter("filename", part.filename);
      AtInMiddle(FORM_DATA + ";" + first + ";", second, "");
      assert value == FORM_DATA + ";" + first + ";" + second + "";
      SplitParameter(value, end + 1, "filename", part.filename);
      SplitNothing(value);
    }
  }

  lemma SplitNothing(value: string)
    ensures SplitFrom(value, |value| + 1, |value| + 1, false, false) == []
  {}

  lemma PlainKeys()
    ensures Plain("name") && !IsSpace("name"[0]) && Plain("filename") && !IsSpace("filename"[0])
  {}

  function Named(part: Part, key: string, text: string): Part {
    var named := if EqualsIgnoreCase(key, "name") then part.(name := text) else part;
    if EqualsIgnoreCase(key, "filename") then named.(filename := text) else named
  }

  lemma ParameterApplies(to: Part, key: string, text: string, rest: seq<string>)
    requires Free(key, '=') && Tight(key) && Free(text, '\r') && Free(text, '\n')
    ensures ApplyParameters(to, [Parameter(key, text)] + rest) == ApplyParameters(Named(to, key, text), rest)
  {
    hide Parameter, Decoded, Trim, EqualsIgnoreCase, Find;
    FindEqual(key, text);
    DecodedParameter(text);
    TightStays(key);
    assert ([Parameter(key, text)] + rest)[1..] == rest;
  }

  lemma NamedKeys(part: Part, text: string)
    ensures Named(part, "name", text) == part.(name := text) && Named(part, "filename", text) == part.(filename := text)
    ensures Free("name", '=') && Tight("name") && Free("filename", '=') && Tight("filename")
    ensures EqualsIgnoreCase(FORM_DATA, "form-data")
  {}

  lemma NoParameters(part: Part)
    ensures ApplyParameters(part, []) == Some(part)
  {}

  lemma DispositionApplies(part: Part, to: Part)
    requires Validated(part) && to.filename == ""
    ensures ApplyDisposition(to, Disposition(part)) == Some(to.(name := part.name, filename := part.filename))
  {
    var parameters := NameAndFile(part);
    DispositionParameters(part);
    assert Parameters(Disposition(part))[0] == FORM_DATA && Parameters(Disposition(part))[1..] == parameters;
    hide Disposition, Parameters, Parameter, Decoded, SplitFrom, ApplyParameters, Trim, IsSpace, Find;
    NamedKeys(to, part.name);
    NamedKeys(to.(name := part.name), part.filename);
    hide Named;
    var files := if part.filename == "" then [] else [Parameter("filename", part.filename)];
    ParameterApplies(to, "name", part.name, files);
    if part.filename != "" {
      ParameterApplies(to.(name := part.name), "filename", part.filename, []);
      assert files == files + [];
    }
    NoParameters(to.(name := part.name, filename := part.filename));
  }

  // ---- lines

  lemma LineApplies(part: Part, field: Field)
    requires Printable(field)
    ensures ApplyLine(part, Line(field)) == ApplyField(part, field.0, Trim(field.1))
  {
    hide ApplyField;
    var line := Line(field);
    NameChars(field.0);
    LineChars(field);
    FindAbsent(line, '\n');
    var colon := |field.0|;
    assert line[colon..colon + 1] == ":";
    forall j | 0 <= j < colon ensures !At(line, j, ":") { assert line[j..j + 1][0] == field.0[j]; }
    FindIs(line, ":", 0, colon);
    assert line[..colon] == field.0 && line[colon + 1..] == " " + field.1;
    TightStays(field.0);
    TrimAfterSpace(field.1);
  }

  lemma TrimAfterSpace(s: string)
    ensures Trim(" " + s) == Trim(s)
  {
    assert (" " + s)[1..] == s;
  }

  function ApplyAll(part: Part, fields: seq<Field>): Option<Part>
    decreases |fields|
  {
    if fields == [] then Some(part)
    else
      var next := ApplyField(part, fields[0].0, Trim(fields[0].1));
      if next.None? then None else ApplyAll(next.value, fields[1..])
  }

  lemma {:induction false} ParseLinesShift(input: string, cursor: nat, part: Part)
    requires cursor <= |input|
    ensures ParseLines(input, cursor, part) == ParseLines(input[cursor..], 0, part)
    decreases |input| - cursor
  {
    hide ApplyLine, At;
    var rest := input[cursor..];
    if cursor < |input| {
      FindInSuffix(input, CRLF, cursor);
      var end := Find(input, CRLF, cursor);
      if end == -1 {
        assert rest[0..|rest|] == input[cursor..|input|];
      } else {
        FoundWithin(input, CRLF, cursor);
        assert rest[0..end - cursor] == input[cursor..end];
        var next := ApplyLine(part, input[cursor..end]);
        if next.Some? {
          ParseLinesShift(input, end + 2, next.value);
          ParseLinesShift(rest, end + 2 - cursor, next.value);
          assert rest[end + 2 - cursor..] == input[end + 2..];
        }
      }
    }
  }

  lemma ParseFirstLine(line: string, rest: string, part: Part)
    requires OneLine(line)
    ensures ParseLines(line + CRLF + rest, 0, part) ==
            if ApplyLine(part, line).None? then None else ParseLines(rest, 0, ApplyLine(part, line).value)
  {
    hide ApplyLine, Find, At, OneLine;
    FindLineEnd(line, rest);
    var next := ApplyLine(part, line);
    if next.Some? { ParseLinesShift(line + CRLF + rest, |line| + 2, next.value); }
  }

  lemma ParseLastLine(line: string, part: Part)
    requires OneLine(line) && line != ""
    ensures ParseLines(line, 0, part) == ApplyLine(part, line)
  {
    hide ApplyLine;
    FindLineEnd(line, "");
    assert line[0..|line|] == line;
  }

  lemma {:induction false} ParseJoinedLines(fields: seq<Field>, part: Part)
    requires fields != [] && AllPrintable(fields)
    ensures ParseLines(JoinLines(fields), 0, part) == ApplyAll(part, fields)
    decreases |fields|
  {
    var line := Line(fields[0]);
    assert Printable(fields[0]);
    LineChars(fields[0]);
    LineApplies(part, fields[0]);
    hide ApplyField, ApplyLine, Printable, Line, OneLine, ParseLines;
    var next := ApplyLine(part, line);
    if |fields| == 1 {
      ParseLastLine(line, part);
      assert fields[1..] == [];
    } else {
      ParseFirstLine(line, JoinLines(fields[1..]), part);
      if next.Some? { ParseJoinedLines(fields[1..], next.value); }
    }
  }

  // ---- the whole block

  function TrimValues(fields: seq<Field>): seq<Field> {
    if fields == [] then [] else [(fields[0].0, Trim(fields[0].1))] + TrimValues(fields[1..])
  }

  /** What a parser makes of a printed part. */
  function Received(part: Part): Part {
    Part(part.name, part.filename, Trim(part.contentType), TrimValues(Fields(part)))
  }

  lemma {:induction false} TrimKeepsValid(s: string)
    requires ValidValue(s)
    ensures ValidValue(Trim(s))
  {
    SpaceLeftSuffix(s);
    SpaceRightPrefix(SpaceLeft(s));
    var left := SpaceLeft(s);
    var k := |s| - |left|;
    forall i | 0 <= i < |Trim(s)| ensures FieldChar(Trim(s)[i]) { assert Trim(s)[i] == left[i] == s[i + k]; }
  }

  lemma {:induction false} SpaceLeftSuffix(s: string)
    ensures |SpaceLeft(s)| <= |s| && SpaceLeft(s) == s[|s| - |SpaceLeft(s)|..]
  {
    if s != "" && IsSpace(s[0]) { SpaceLeftSuffix(s[1..]); }
  }

  lemma {:induction false} SpaceRightPrefix(s: string)
    ensures SpaceRight(s) <= s
    decreases |s|
  {
    if s != "" && IsSpace(s[|s| - 1]) { SpaceRightPrefix(s[..|s| - 1]); }
  }

  predicate Custom(fields: seq<Field>) {
    forall i :: 0 <= i < |fields| ==> ValidName(fields[i].0) && ValidValue(fields[i].1) && !Reserved(fields[i].0)
  }

  lemma {:induction false} CustomFieldsAreCustom(headers: seq<Field>)
    ensures Custom(CustomFields(headers))
  {
    if headers != [] { CustomFieldsAreCustom(headers[1..]); }
  }

  lemma CustomFieldApplies(part: Part, name: string, value: string)
    requires ValidName(name) && ValidValue(value) && !Reserved(name)
    ensures ApplyField(part, name, value) == Some(part.(headers := part.headers + [(name, value)]))
  {
    hide ValidName, ValidValue, EqualsIgnoreCase, ApplyDisposition;
  }

  /** Custom fields are only collected. */
  lemma {:induction false} CustomApplies(part: Part, fields: seq<Field>)
    requires Custom(fields)
    ensures ApplyAll(part, fields) == Some(part.(headers := part.headers + TrimValues(fields)))
    decreases |fields|
  {
    if fields == [] {
      assert part.headers + [] == part.headers;
    } else {
      hide ValidName, ValidValue, Trim, Reserved, ApplyField;
      var (name, value) := fields[0];
      assert ValidName(fields[0].0) && ValidValue(fields[0].1) && !Reserved(fields[0].0);
      TrimKeepsValid(value);
      CustomFieldApplies(part, name, Trim(value));
      var next := part.(headers := part.headers + [(name, Trim(value))]);
      CustomApplies(next, fields[1..]);
      assert next.headers + TrimValues(fields[1..]) == part.headers + TrimValues(fields);
    }
  }

  lemma {:induction false} CountCustom(fields: seq<Field>)
    requires Custom(fields)
    ensures CountName(TrimValues(fields), "Content-Disposition") == 0 && CountName(TrimValues(fields), "Content-Type") == 0
  {
    if fields != [] {
      assert !Reserved(fields[0].0);
      CountCustom(fields[1..]);
    }
  }

  lemma {:induction false} QuotedIsValid(s: string)
    requires OneLine(s)
    ensures ValidValue(Quoted(s)) <==> ValidValue(s)
  {
    if s != "" {
      var rest := s[1..];
      QuotedIsValid(rest);
      var head := if s[0] == '\\' || s[0] == '"' then ['\\', s[0]] else [s[0]];
      assert Quoted(s) == head + Quoted(rest);
      ValidAppend(head, Quoted(rest));
      ValidAppend([s[0]], rest);
      assert s == [s[0]] + rest;
      assert ValidValue(head) <==> FieldChar(s[0]) by {
        assert head[|head| - 1] == s[0];
        assert FieldChar('\\');
      }
      assert ValidValue([s[0]]) <==> FieldChar(s[0]) by { assert [s[0]][0] == s[0]; }
    }
  }

  lemma ValidAppend(a: string, b: string)
    ensures ValidValue(a + b) <==> ValidValue(a) && ValidValue(b)
  {
    var s := a + b;
    if ValidValue(s) {
      forall i | 0 <= i < |a| ensures FieldChar(a[i]) { assert s[i] == a[i]; }
      forall i | 0 <= i < |b| ensures FieldChar(b[i]) { assert s[i + |a|] == b[i]; }
    }
  }

  /** Metadata that every later parser accepts: no control characters in the names. */
  predicate HeaderSafe(part: Part) {
    ValidValue(part.name) && ValidValue(part.filename)
  }

  lemma DispositionIsValid(part: Part)
    requires Validated(part)
    ensures ValidValue(Disposition(part)) <==> HeaderSafe(part)
    ensures OneLine(Disposition(part)) && Tight(Disposition(part))
  {
    var open, close := "form-data; name=\"", "\"";
    QuotedIsValid(part.name);
    QuotedIsValid(part.filename);
    QuotedIsOneLine(part.name);
    QuotedIsOneLine(part.filename);
    assert ValidValue(open) && ValidValue(close) && OneLine(open) && OneLine(close);
    var first := open + Quoted(part.name) + close;
    ValidAppend(open, Quoted(part.name));
    ValidAppend(open + Quoted(part.name), close);
    OneLineAppend(open, Quoted(part.name));
    OneLineAppend(open + Quoted(part.name), close);
    if part.filename == "" {
      assert Disposition(part) == first;
    } else {
      var more := "; filename=\"";
      assert ValidValue(more) && OneLine(more);
      var second := more + Quoted(part.filename) + close;
      assert Disposition(part) == first + second;
      ValidAppend(more, Quoted(part.filename));
      ValidAppend(more + Quoted(part.filename), close);
      ValidAppend(first, second);
      OneLineAppend(more, Quoted(part.filename));
      OneLineAppend(more + Quoted(part.filename), close);
      OneLineAppend(first, second);
    }
  }

  lemma OneLineAppend(a: string, b: string)
    ensures OneLine(a) && OneLine(b) ==> OneLine(a + b)
  {}

  lemma {:induction false} QuotedIsOneLine(s: string)
    ensures OneLine(Quoted(s))
  {
    if s != "" { QuotedIsOneLine(s[1..]); }
  }

  lemma ReservedNames()
    ensures ValidName("Content-Disposition") && ValidName("Content-Type")
    ensures EqualsIgnoreCase("Content-Disposition", "Content-Disposition") && EqualsIgnoreCase("Content-Type", "Content-Type")
    ensures !EqualsIgnoreCase("Content-Disposition", "Content-Type") && !EqualsIgnoreCase("Content-Type", "Content-Disposition")
  {
    DispositionName();
    TypeName();
    hide ValidName;
  }

  lemma DispositionName()
    ensures ValidName("Content-Disposition")
  {}

  lemma TypeName()
    ensures ValidName("Content-Type")
  {}

  lemma FieldsArePrintable(part: Part)
    requires Validated(part)
    ensures AllPrintable(Fields(part))
  {
    ReservedNames();
    DispositionIsValid(part);
    ValidIsOneLine(part.contentType);
    CustomFieldsAreCustom(part.headers);
    hide ValidName, Disposition, OneLine, ValidValue;
    var custom := CustomFields(part.headers);
    forall i | 0 <= i < |custom| ensures Printable(custom[i]) { ValidIsOneLine(custom[i].1); }
    assert Printable(("Content-Disposition", Disposition(part)));
    assert Printable(("Content-Type", part.contentType));
  }

  function TypeFields(part: Part): seq<Field> {
    if part.contentType == "" then [] else [("Content-Type", part.contentType)]
  }

  /** The content type and the custom fields that follow the disposition. */
  lemma RestApplies(part: Part, to: Part)
    requires Validated(part) && to.contentType == ""
    ensures ApplyAll(to, TypeFields(part) + CustomFields(part.headers)) ==
            Some(to.(contentType := Trim(part.contentType),
                     headers := to.headers + TrimValues(TypeFields(part) + CustomFields(part.headers))))
  {
    var custom := CustomFields(part.headers);
    CustomFieldsAreCustom(part.headers);
    TrimKeepsValid(part.contentType);
    if part.contentType == "" {
      assert TypeFields(part) + custom == custom;
      CustomApplies(to, custom);
      assert Trim("") == "";
    } else {
      ContentTypeApplies(to, part.contentType);
      hide ApplyField, Trim;
      var value := Trim(part.contentType);
      var fields := TypeFields(part) + custom;
      assert fields[1..] == custom && fields[0] == ("Content-Type", part.contentType);
      var typed := to.(headers := to.headers + [("Content-Type", value)], contentType := value);
      CustomApplies(typed, custom);
      assert typed.headers + TrimValues(custom) == to.headers + TrimValues(fields);
    }
  }

  lemma ContentTypeApplies(to: Part, contentType: string)
    requires ValidValue(Trim(contentType))
    ensures ApplyField(to, "Content-Type", Trim(contentType)) ==
            Some(to.(headers := to.headers + [("Content-Type", Trim(contentType))], contentType := Trim(contentType)))
  {
    hide ValidName, ValidValue, Trim, EqualsIgnoreCase;
    ReservedNames();
  }

  lemma DispositionFieldApplies(part: Part)
    requires Validated(part)
    ensures ApplyField(EmptyPart, "Content-Disposition", Trim(Disposition(part))) ==
            if HeaderSafe(part) then
              Some(EmptyPart.(name := part.name, filename := part.filename, headers := [("Content-Disposition", Disposition(part))]))
            else None
  {
    DispositionIsValid(part);
    TightStays(Disposition(part));
    ReservedNames();
    hide Disposition, HeaderSafe, ValidValue, ValidName, Trim, EqualsIgnoreCase, ApplyDisposition, Tight;
    var to := EmptyPart.(headers := [("Content-Disposition", Disposition(part))]);
    assert EmptyPart.headers + [("Content-Disposition", Disposition(part))] == to.headers;
    DispositionApplies(part, to);
  }

  lemma CountReceived(part: Part)
    requires Validated(part)
    ensures CountName(TrimValues(Fields(part)), "Content-Disposition") == 1
    ensures CountName(TrimValues(Fields(part)), "Content-Type") <= 1
  {
    var custom := CustomFields(part.headers);
    CustomFieldsAreCustom(part.headers);
    CountCustom(custom);
    assert EqualsIgnoreCase("Content-Disposition", "Content-Disposition");
    var rest := TypeFields(part) + custom;
    assert Fields(part) == [("Content-Disposition", Disposition(part))] + rest;
    assert Fields(part)[1..] == rest;
    if part.contentType == "" { assert rest == custom; } else { assert rest[1..] == custom; }
    CountRest(part, rest, custom);
  }

  lemma CountRest(part: Part, rest: seq<Field>, custom: seq<Field>)
    requires rest == TypeFields(part) + custom
    requires CountName(TrimValues(custom), "Content-Disposition") == 0 && CountName(TrimValues(custom), "Content-Type") == 0
    ensures CountName(TrimValues(rest), "Content-Disposition") == 0 && CountName(TrimValues(rest), "Content-Type") <= 1
  {
    if part.contentType == "" {
      assert rest == custom;
    } else {
      assert rest[1..] == custom;
      assert TrimValues(rest)[1..] == TrimValues(custom);
    }
  }

  /** A printed header block is parsed back exactly when neither name contains a control character;
      `validate_part_metadata` itself rules out only line breaks. */
  lemma HeadRoundTrip(part: Part)
    requires Validated(part)
    ensures ParsedHead(JoinLines(Fields(part))) == if HeaderSafe(part) then Some(Received(part)) else None
  {
    var fields := Fields(part);
    var rest := TypeFields(part) + CustomFields(part.headers);
    FieldsArePrintable(part);
    ParseJoinedLines(fields, EmptyPart);
    assert fields[0] == ("Content-Disposition", Disposition(part)) && fields[1..] == rest;
    DispositionFieldApplies(part);
    CountReceived(part);
    if HeaderSafe(part) {
      var to := EmptyPart.(name := part.name, filename := part.filename, headers := [("Content-Disposition", Disposition(part))]);
      RestApplies(part, to);
      DispositionIsValid(part);
      TightStays(Disposition(part));
      assert to.headers + TrimValues(rest) == TrimValues(fields);
    }
  }

  /** A control character that the writer accepts and the parser refuses. */
  lemma ControlCharacterIsRefused()
    ensures var part := Part("\U{1}", "", "", []);
            Validated(part) && ParsedHead(JoinLines(Fields(part))) == None
  {
    var part := Part("\U{1}", "", "", []);
    assert !FieldChar(part.name[0]);
    HeadRoundTrip(part);
  }
}
