/** The header block of a multipart part: quoting, splitting and parsing. */
module MultipartHead {
  import opened Wrappers
  import opened Text
  import opened HeaderFields

  datatype Part = Part(name: string, filename: string, contentType: string, headers: seq<Field>)

  const EmptyPart := Part("", "", "", [])

  // ---- parameters

  /** The parameters found from `index` on; `start` is where the current one begins. A semicolon is
      assumed at the end of the text. */
  function SplitFrom(value: string, start: nat, index: nat, quoted: bool, escaped: bool): seq<string>
    requires start <= index <= |value| + 1
    decreases |value| + 1 - index
  {
    if index > |value| then []
    else
      var ch := if index == |value| then ';' else value[index];
      if escaped then SplitFrom(value, start, index + 1, quoted, false)
      else if quoted && ch == '\\' then SplitFrom(value, start, index + 1, quoted, true)
      else
        var inside := if ch == '"' then !quoted else quoted;
        if ch == ';' && !inside then [Trim(value[start..index])] + SplitFrom(value, index + 1, index + 1, inside, false)
        else SplitFrom(value, start, index + 1, inside, false)
  }

  function Parameters(value: string): seq<string> {
    SplitFrom(value, 0, 0, false, false)
  }

  /** `split_parameters` */
  method SplitParameters(value: string) returns (output: seq<string>)
    ensures output == Parameters(value)
  {
    output := [];
    var start, index := 0, 0;
    var quoted, escaped := false, false;
    while index <= |value|
      invariant start <= index <= |value| + 1
      invariant Parameters(value) == output + SplitFrom(value, start, index, quoted, escaped)
    {
      var ch := if index == |value| then ';' else value[index];
      if escaped {
        escaped := false;
      } else if quoted && ch == '\\' {
        escaped := true;
      } else {
        if ch == '"' { quoted := !quoted; }
        if ch == ';' && !quoted {
          output := output + [Trim(value[start..index])];
          start := index + 1;
        }
      }
      index := index + 1;
    }
  }

  /** The text between the quotes, with escapes taken away. */
  function Unescape(inner: string): string {
    if inner == "" then ""
    else if inner[0] == '\\' && |inner| >= 2 then [inner[1]] + Unescape(inner[2..])
    else [inner[0]] + Unescape(inner[1..])
  }

  function Decoded(value: string): Option<string> {
    var text := Trim(value);
    if text == "" || text[0] != '"' then Some(text)
    else if |text| < 2 || text[|text| - 1] != '"' then None
    else Some(Unescape(text[1..|text| - 1]))
  }

  /** `decode_parameter` */
  method DecodeParameter(value: string) returns (r: Option<string>)
    ensures r == Decoded(value)
  {
    var text := Trim(value);
    if text == "" || text[0] != '"' { return Some(text); }
    if |text| < 2 || text[|text| - 1] != '"' { return None; }
    var output := "";
    var index := 1;
    ghost var all := Unescape(text[1..|text| - 1]);
    ghost var rest := all;
    while index + 1 < |text|
      invariant 1 <= index < |text|
      invariant rest == Unescape(text[index..|text| - 1])
      invariant all == output + rest
    {
      UnescapeStep(text, index);
      if text[index] == '\\' && index + 2 < |text| { index := index + 1; }
      output := output + [text[index]];
      index := index + 1;
      rest := Unescape(text[index..|text| - 1]);
    }
    assert rest == "";
    assert output == all;
    return Some(output);
  }

  lemma UnescapeStep(text: string, index: nat)
    requires index + 1 < |text|
    ensures var j := if text[index] == '\\' && index + 2 < |text| then index + 1 else index;
            Unescape(text[index..|text| - 1]) == [text[j]] + Unescape(text[j + 1..|text| - 1])
  {
    var rest := text[index..|text| - 1];
    assert rest[0] == text[index] && rest[1..] == text[index + 1..|text| - 1];
    if |rest| >= 2 { assert rest[1] == text[index + 1] && rest[2..] == text[index + 2..|text| - 1]; }
  }

  function Quoted(value: string): string {
    if value == "" then ""
    else if value[0] == '\r' || value[0] == '\n' then Quoted(value[1..])
    else (if value[0] == '\\' || value[0] == '"' then ['\\', value[0]] else [value[0]]) + Quoted(value[1..])
  }

  lemma {:induction false} QuotedAppend(a: string, b: string)
    ensures Quoted(a + b) == Quoted(a) + Quoted(b)
  {
    if a == "" {
      assert a + b == b;
    } else {
      assert (a + b)[1..] == a[1..] + b;
      QuotedAppend(a[1..], b);
    }
  }

  lemma QuotedSnoc(value: string, i: nat)
    requires i < |value|
    ensures var ch := value[i];
            Quoted(value[..i + 1]) ==
            Quoted(value[..i]) + if ch == '\r' || ch == '\n' then "" else if ch == '\\' || ch == '"' then ['\\', ch] else [ch]
  {
    assert value[..i + 1] == value[..i] + [value[i]];
    QuotedAppend(value[..i], [value[i]]);
    assert [value[i]][1..] == "";
  }

  /** `quote_parameter` */
  method QuoteParameter(value: string) returns (output: string)
    ensures output == Quoted(value)
  {
    output := "";
    assert value[..0] == "";
    for i := 0 to |value|
      invariant output == Quoted(value[..i])
    {
      QuotedSnoc(value, i);
      if value[i] != '\r' && value[i] != '\n' {
        if value[i] == '\\' || value[i] == '"' { output := output + ['\\', value[i]]; } else { output := output + [value[i]]; }
      }
    }
    assert value[..|value|] == value;
  }

  /** Quoting and decoding invert each other, for every text that fits on one line. */
  lemma {:induction false} UnescapeQuoted(value: string)
    requires Free(value, '\r') && Free(value, '\n')
    ensures Unescape(Quoted(value)) == value
  {
    if value != "" {
      UnescapeQuoted(value[1..]);
      var rest := Quoted(value[1..]);
      if value[0] == '\\' || value[0] == '"' {
        assert Quoted(value) == ['\\', value[0]] + rest;
        assert Quoted(value)[2..] == rest;
      } else {
        assert Quoted(value) == [value[0]] + rest;
        assert Quoted(value)[1..] == rest;
      }
    }
  }

  // ---- parsing a header block

  function CountName(headers: seq<Field>, name: string): nat {
    if headers == [] then 0
    else CountName(headers[1..], name) + if EqualsIgnoreCase(headers[0].0, name) then 1 else 0
  }

  /** The parameters after the disposition type: `name` and `filename` are kept, others only decoded. */
  function ApplyParameters(part: Part, parameters: seq<string>): Option<Part>
    decreases |parameters|
  {
    if parameters == [] then Some(part)
    else
      var equal := Find(parameters[0], "=", 0);
      if equal == -1 then ApplyParameters(part, parameters[1..])
      else
        var key := Trim(parameters[0][..equal]);
        var decoded := Decoded(parameters[0][equal + 1..]);
        if decoded.None? then None
        else
          var named := if EqualsIgnoreCase(key, "name") then part.(name := decoded.value) else part;
          var filed := if EqualsIgnoreCase(key, "filename") then named.(filename := decoded.value) else named;
          ApplyParameters(filed, parameters[1..])
  }

  function ApplyDisposition(part: Part, value: string): Option<Part> {
    var parameters := Parameters(value);
    if parameters == [] || !EqualsIgnoreCase(parameters[0], "form-data") then None
    else ApplyParameters(part, parameters[1..])
  }

  function ApplyField(part: Part, name: string, value: string): Option<Part> {
    if !ValidName(name) || !ValidValue(value) then None
    else
      var added := part.(headers := part.headers + [(name, value)]);
      var typed := if EqualsIgnoreCase(name, "Content-Type") then added.(contentType := value) else added;
      if EqualsIgnoreCase(name, "Content-Disposition") then ApplyDisposition(typed, value) else Some(typed)
  }

  function ApplyLine(part: Part, line: string): Option<Part> {
    var colon := Find(line, ":", 0);
    if Find(line, "\n", 0) != -1 || colon == -1 then None
    else ApplyField(part, Trim(line[..colon]), Trim(line[colon + 1..]))
  }

  /** The lines of `input` from `cursor` on. */
  function ParseLines(input: string, cursor: nat, part: Part): Option<Part>
    decreases |input| - cursor
  {
    if cursor >= |input| then Some(part)
    else
      var end := Find(input, CRLF, cursor);
      var next := ApplyLine(part, input[cursor..if end == -1 then |input| else end]);
      if next.None? || end == -1 then next else ParseLines(input, end + 2, next.value)
  }

  function ParsedHead(input: string): Option<Part> {
    var part := ParseLines(input, 0, EmptyPart);
    if part.None? || CountName(part.value.headers, "Content-Disposition") != 1 ||
       CountName(part.value.headers, "Content-Type") > 1 then None
    else part
  }

  method ReadParameters(part: Part, parameters: seq<string>) returns (r: Option<Part>)
    ensures r == ApplyParameters(part, parameters)
  {
    var current := part;
    for i := 0 to |parameters|
      invariant ApplyParameters(part, parameters) == ApplyParameters(current, parameters[i..])
    {
      assert parameters[i..][1..] == parameters[i + 1..];
      var equal := Find(parameters[i], "=", 0);
      if equal != -1 {
        var key := Trim(parameters[i][..equal]);
        var decoded := DecodeParameter(parameters[i][equal + 1..]);
        if decoded.None? { return None; }
        if EqualsIgnoreCase(key, "name") { current := current.(name := decoded.value); }
        if EqualsIgnoreCase(key, "filename") { current := current.(filename := decoded.value); }
      }
    }
    r := Some(current);
  }

  /** One header line. */
  method ReadLine(part: Part, line: string) returns (r: Option<Part>)
    ensures r == ApplyLine(part, line)
  {
    if Find(line, "\n", 0) != -1 { return None; }
    var colon := Find(line, ":", 0);
    if colon == -1 { return None; }
    var name, value := Trim(line[..colon]), Trim(line[colon + 1..]);
    if !ValidName(name) || !ValidValue(value) { return None; }
    var current := part.(headers := part.headers + [(name, value)]);
    if EqualsIgnoreCase(name, "Content-Type") { current := current.(contentType := value); }
    if EqualsIgnoreCase(name, "Content-Disposition") {
      var parameters := SplitParameters(value);
      if parameters == [] || !EqualsIgnoreCase(parameters[0], "form-data") { return None; }
      r := ReadParameters(current, parameters[1..]);
      return r;
    }
    r := Some(current);
  }

  /** `parse_part_head` */
  method ParsePartHead(input: string) returns (r: Option<Part>)
    ensures r == ParsedHead(input)
  {
    hide ApplyLine, CountName;
    var part := EmptyPart;
    var cursor := 0;
    while cursor < |input|
      invariant ParseLines(input, 0, EmptyPart) == ParseLines(input, cursor, part)
      decreases |input| - cursor
    {
      var end := Find(input, CRLF, cursor);
      var lineEnd := if end == -1 then |input| else end;
      var next := ReadLine(part, input[cursor..lineEnd]);
      if next.None? { return None; }
      part := next.value;
      if end == -1 { break; }
      cursor := end + 2;
    }
    if CountName(part.headers, "Content-Disposition") != 1 { return None; }
    if CountName(part.headers, "Content-Type") > 1 { return None; }
    return Some(part);
  }

  // ---- printing a header block

  predicate Reserved(name: string) {
    EqualsIgnoreCase(name, "Content-Disposition") || EqualsIgnoreCase(name, "Content-Type")
  }

  function Disposition(part: Part): string {
    "form-data; name=\"" + Quoted(part.name) + "\"" +
    if part.filename == "" then "" else "; filename=\"" + Quoted(part.filename) + "\""
  }

  /** The fields a printed part carries, in order. */
  function CustomFields(headers: seq<Field>): seq<Field> {
    if headers == [] then []
    else (if Reserved(headers[0].0) || !ValidName(headers[0].0) || !ValidValue(headers[0].1) then [] else [headers[0]])
         + CustomFields(headers[1..])
  }

  function Fields(part: Part): seq<Field> {
    [("Content-Disposition", Disposition(part))] +
    (if part.contentType == "" then [] else [("Content-Type", part.contentType)]) +
    CustomFields(part.headers)
  }

  function PrintedHead(part: Part): string {
    FieldLines(Fields(part)) + CRLF
  }

  lemma CustomFieldsSnoc(headers: seq<Field>, i: nat)
    requires i < |headers|
    ensures CustomFields(headers[..i + 1]) == CustomFields(headers[..i]) + CustomFields([headers[i]])
  {
    assert headers[..i + 1] == headers[..i] + [headers[i]];
    CustomFieldsAppend(headers[..i], [headers[i]]);
  }

  lemma {:induction false} CustomFieldsAppend(a: seq<Field>, b: seq<Field>)
    ensures CustomFields(a + b) == CustomFields(a) + CustomFields(b)
  {
    if a == [] {
      assert a + b == b;
    } else {
      assert (a + b)[1..] == a[1..] + b;
      CustomFieldsAppend(a[1..], b);
    }
  }

  lemma CustomFieldsOne(field: Field)
    ensures CustomFields([field]) ==
            if Reserved(field.0) || !ValidName(field.0) || !ValidValue(field.1) then [] else [field]
  {
    assert [field][1..] == [];
  }

  method PrintCustom(headers: seq<Field>) returns (output: string)
    ensures output == FieldLines(CustomFields(headers))
  {
    hide Reserved, ValidName, ValidValue, CustomFields, FieldLines;
    output := "";
    ghost var done: seq<Field> := [];
    EmptyLines();
    assert headers[..0] == [];
    for i := 0 to |headers|
      invariant done == CustomFields(headers[..i])
      invariant output == FieldLines(done)
    {
      var (name, value) := headers[i];
      CustomFieldsSnoc(headers, i);
      CustomFieldsOne(headers[i]);
      if !Reserved(name) && ValidName(name) && ValidValue(value) {
        FieldLinesAppend(done, [headers[i]]);
        FieldLinesOne(headers[i]);
        output := output + (name + ": " + value + CRLF);
        done := done + [headers[i]];
      } else {
        assert done + [] == done;
      }
    }
    assert headers[..|headers|] == headers;
  }

  lemma EmptyLines()
    ensures CustomFields([]) == [] && FieldLines([]) == ""
  {}

  /** `serialize_part_head` */
  method SerializePartHead(part: Part) returns (output: string)
    ensures output == PrintedHead(part)
  {
    var quoted := QuoteParameter(part.name);
    output := "form-data; name=\"" + quoted + "\"";
    if part.filename != "" {
      quoted := QuoteParameter(part.filename);
      output := output + ("; filename=\"" + quoted + "\"");
    }
    assert output == Disposition(part);
    ghost var first := ("Content-Disposition", Disposition(part));
    output := "Content-Disposition" + ": " + output + CRLF;
    FieldLinesOne(first);
    ghost var fields := [first];
    if part.contentType != "" {
      ghost var second := ("Content-Type", part.contentType);
      FieldLinesOne(second);
      FieldLinesAppend(fields, [second]);
      output := output + ("Content-Type" + ": " + part.contentType + CRLF);
      fields := fields + [second];
    }
    assert output == FieldLines(fields);
    var custom := PrintCustom(part.headers);
    FieldLinesAppend(fields, CustomFields(part.headers));
    assert Fields(part) == fields + CustomFields(part.headers);
    output := output + custom + CRLF;
  }
}
