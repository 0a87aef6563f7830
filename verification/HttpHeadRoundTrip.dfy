/** Parsing a printed head: the framing a reader extracts is the one the writer meant. */
module HttpHeadRoundTrip {
  import opened Wrappers
  import opened Text
  import opened HeaderFields
  import opened Headers
  import opened HttpHead
  import opened HttpFraming

  // ---- reading printed lines

  /** The fields of a head one after the other. */
  function TakeFields(head: Head, fields: seq<Field>): Option<Head>
    decreases |fields|
  {
    if fields == [] then Some(head)
    else
      var next := TakeField(head, fields[0].0, TrimBlank(fields[0].1));
      if next.None? then None else TakeFields(next.value, fields[1..])
  }

  lemma TrimAfterBlank(s: string)
    ensures TrimBlank(" " + s) == TrimBlank(s)
  {
    assert (" " + s)[1..] == s;
  }

  lemma PrintedLine(head: Head, field: Field)
    requires Printable(field)
    ensures Line(field) != "" && TakeLine(head, Line(field)) == TakeField(head, field.0, TrimBlank(field.1))
  {
    hide TakeField;
    var line := Line(field);
    NameChars(field.0);
    var colon := |field.0|;
    assert line[0] == field.0[0] && TokenChar(field.0[0]);
    assert line[colon..colon + 1] == ":";
    forall j | 0 <= j < colon ensures !At(line, j, ":") { assert line[j..j + 1][0] == field.0[j]; }
    FindIs(line, ":", 0, colon);
    assert line[..colon] == field.0 && line[colon + 1..] == " " + field.1;
    TrimAfterBlank(field.1);
  }

  lemma TakeFirstLine(before: string, line: string, rest: string, head: Head)
    requires OneLine(line) && line != ""
    ensures TakeLines(before + (line + CRLF + rest), |before|, head) ==
            if TakeLine(head, line).None? then None
            else TakeLines(before + line + CRLF + rest, |before + line + CRLF|, TakeLine(head, line).value)
  {
    hide TakeLine, At, Find;
    var input := before + (line + CRLF + rest);
    FindLineEnd(line, rest);
    FindInSuffix(input, CRLF, |before|);
    assert input[|before|..] == line + CRLF + rest;
    assert input[|before|..|before| + |line|] == line;
    assert input == before + line + CRLF + rest;
  }

  lemma {:induction false} TakePrintedLines(before: string, fields: seq<Field>, head: Head)
    requires AllPrintable(fields)
    ensures TakeLines(before + FieldLines(fields), |before|, head) == TakeFields(head, fields)
    decreases |fields|
  {
    if fields != [] {
      var line, rest := Line(fields[0]), FieldLines(fields[1..]);
      assert Printable(fields[0]);
      LineChars(fields[0]);
      PrintedLine(head, fields[0]);
      hide TakeLine, TakeField, Printable, Line, OneLine, TakeLines;
      assert FieldLines(fields) == line + CRLF + rest by { assert Line(fields[0]) == line; LineText(fields[0]); }
      TakeFirstLine(before, line, rest, head);
      var next := TakeLine(head, line);
      if next.Some? { TakePrintedLines(before + line + CRLF, fields[1..], next.value); }
    }
  }

  lemma LineText(field: Field)
    ensures Line(field) == field.0 + ": " + field.1
  {}

  // ---- what a list of fields amounts to, name by name

  function Trimmed(values: seq<string>): seq<string> {
    if values == [] then [] else [TrimBlank(values[0])] + Trimmed(values[1..])
  }

  function ValuesOf(fields: seq<Field>, name: string): seq<string> {
    Trimmed(Values(fields, name))
  }

  function Lengths(known: Option<nat>, values: seq<string>): Option<Option<nat>>
    decreases |values|
  {
    if values == [] then Some(known)
    else
      var next := TakeLengths(known, Items(values[0]));
      if next.None? then None else Lengths(next.value, values[1..])
  }

  function Codings(values: seq<string>): seq<string> {
    if values == [] then [] else Items(values[0]) + Codings(values[1..])
  }

  predicate AnyToken(values: seq<string>, token: string) {
    exists i :: 0 <= i < |values| && HasToken(values[i], token)
  }

  predicate Usable(fields: seq<Field>) {
    forall i :: 0 <= i < |fields| ==> ValidName(fields[i].0) && ValidValue(TrimBlank(fields[i].1))
  }

  /** What the controls found in some fields add to a head. */
  ghost predicate Adds(head: Head, lengths: Option<Option<nat>>, codings: seq<string>, hosts: nat, close: bool, keepAlive: bool,
                       result: Option<Head>) {
    if lengths.None? || !ValidCodings(codings) then result == None
    else
      && result.Some?
      && result.value.startLine == head.startLine
      && result.value.contentLength == lengths.value
      && result.value.codings == head.codings + |codings|
      && result.value.finalChunked ==
         (if codings == [] then head.finalChunked else EqualsIgnoreCase(codings[|codings| - 1], "chunked"))
      && result.value.close == (head.close || close)
      && result.value.keepAlive == (head.keepAlive || keepAlive)
      && result.value.hosts == head.hosts + hosts
  }

  /** The head that a list of well-formed fields leads to depends on the value list of each name alone. */
  ghost predicate Amounts(head: Head, fields: seq<Field>, result: Option<Head>) {
    Adds(head, Lengths(head.contentLength, ValuesOf(fields, "Content-Length")), Codings(ValuesOf(fields, "Transfer-Encoding")),
         |ValuesOf(fields, "Host")|, AnyToken(ValuesOf(fields, "Connection"), "close"),
         AnyToken(ValuesOf(fields, "Connection"), "keep-alive"), result)
  }

  datatype Kind = HostField | ExpectField | ConnectionField | LengthField | CodingField | OtherField

  function KindName(kind: Kind): string {
    match kind
    case HostField => "Host"
    case ExpectField => "Expect"
    case ConnectionField => "Connection"
    case LengthField => "Content-Length"
    case CodingField => "Transfer-Encoding"
    case OtherField => ""
  }

  function KindOf(name: string): Kind {
    if EqualsIgnoreCase(name, "Host") then HostField
    else if EqualsIgnoreCase(name, "Expect") then ExpectField
    else if EqualsIgnoreCase(name, "Connection") then ConnectionField
    else if EqualsIgnoreCase(name, "Content-Length") then LengthField
    else if EqualsIgnoreCase(name, "Transfer-Encoding") then CodingField
    else OtherField
  }

  /** A field counts for the control of its own kind and for no other. */
  lemma KindsAreApart(name: string, kind: Kind)
    requires name != ""
    ensures EqualsIgnoreCase(name, KindName(kind)) <==> KindOf(name) == kind && kind != OtherField
  {
    match kind
    case HostField =>
    case ExpectField =>
    case ConnectionField =>
    case LengthField =>
    case CodingField =>
    case OtherField =>
  }

  lemma ValuesOfCons(fields: seq<Field>, kind: Kind)
    requires fields != [] && fields[0].0 != "" && kind != OtherField
    ensures ValuesOf(fields, KindName(kind)) ==
            (if KindOf(fields[0].0) == kind then [TrimBlank(fields[0].1)] else []) + ValuesOf(fields[1..], KindName(kind))
  {
    KindsAreApart(fields[0].0, kind);
    hide EqualsIgnoreCase, TrimBlank, KindOf, KindName;
    var rest := Values(fields[1..], KindName(kind));
    if EqualsIgnoreCase(fields[0].0, KindName(kind)) {
      assert ([fields[0].1] + rest)[1..] == rest;
    } else {
      assert [] + rest == rest;
    }
  }

  lemma LengthsCons(known: Option<nat>, value: string, rest: seq<string>)
    ensures Lengths(known, [value] + rest) ==
            if TakeLengths(known, Items(value)).None? then None else Lengths(TakeLengths(known, Items(value)).value, rest)
  {
    assert ([value] + rest)[1..] == rest;
  }

  lemma CodingsCons(value: string, rest: seq<string>)
    ensures Codings([value] + rest) == Items(value) + Codings(rest)
    ensures ValidCodings(Items(value) + Codings(rest)) <==> ValidCodings(Items(value)) && ValidCodings(Codings(rest))
  {
    assert ([value] + rest)[1..] == rest;
    var a, b := Items(value), Codings(rest);
    if ValidCodings(a + b) {
      forall i | 0 <= i < |a| ensures a[i] != "" && Free(a[i], ';') { assert (a + b)[i] == a[i]; }
      forall i | 0 <= i < |b| ensures b[i] != "" && Free(b[i], ';') { assert (a + b)[i + |a|] == b[i]; }
    }
  }

  lemma AnyTokenCons(value: string, rest: seq<string>, token: string)
    ensures AnyToken([value] + rest, token) == (HasToken(value, token) || AnyToken(rest, token))
  {
    var all := [value] + rest;
    if HasToken(value, token) { assert HasToken(all[0], token); }
    if AnyToken(rest, token) {
      var i :| 0 <= i < |rest| && HasToken(rest[i], token);
      assert HasToken(all[i + 1], token);
    }
  }

  lemma {:induction false} FieldsAmount(head: Head, fields: seq<Field>)
    requires Usable(fields)
    ensures Amounts(head, fields, TakeFields(head, fields))
    decreases |fields|
  {
    if fields != [] {
      var name, value := fields[0].0, TrimBlank(fields[0].1);
      var next := TakeField(head, name, value);
      assert ValidName(fields[0].0) && ValidValue(TrimBlank(fields[0].1));
      assert Usable(fields[1..]) by {
        forall i | 0 <= i < |fields[1..]| ensures ValidName(fields[1..][i].0) && ValidValue(TrimBlank(fields[1..][i].1)) {
          assert fields[1..][i] == fields[i + 1];
        }
      }
      if next.Some? { FieldsAmount(next.value, fields[1..]); }
      FieldAmounts(head, fields, next);
    }
  }

  /** What one field does, by its kind. */
  lemma SimpleFieldTaken(head: Head, name: string, value: string)
    requires ValidName(name) && ValidValue(value) && KindOf(name) != LengthField && KindOf(name) != CodingField
    ensures var next := TakeField(head, name, value);
            && next.Some? && next.value.startLine == head.startLine && next.value.contentLength == head.contentLength
            && next.value.codings == head.codings && next.value.finalChunked == head.finalChunked
            && next.value.hosts == head.hosts + (if KindOf(name) == HostField then 1 else 0)
            && next.value.close == (head.close || (KindOf(name) == ConnectionField && HasToken(value, "close")))
            && next.value.keepAlive == (head.keepAlive || (KindOf(name) == ConnectionField && HasToken(value, "keep-alive")))
  {
    hide EqualsIgnoreCase, HasToken, Items, TakeLengths, ValidCodings;
  }

  lemma LengthFieldTaken(head: Head, name: string, value: string)
    requires ValidName(name) && ValidValue(value) && KindOf(name) == LengthField
    ensures var next, lengths := TakeField(head, name, value), TakeLengths(head.contentLength, Items(value));
            && (next.None? <==> lengths.None?)
            && (next.Some? ==> next.value.contentLength == lengths.value && SameOtherwise(head, next.value))
            && (next.Some? ==> next.value.codings == head.codings && next.value.finalChunked == head.finalChunked)
  {
    hide EqualsIgnoreCase, HasToken, Items, TakeLengths, ValidCodings;
  }

  lemma CodingFieldTaken(head: Head, name: string, value: string)
    requires ValidName(name) && ValidValue(value) && KindOf(name) == CodingField
    ensures var next, items := TakeField(head, name, value), Items(value);
            && (next.None? <==> !ValidCodings(items))
            && (next.Some? ==> next.value.contentLength == head.contentLength && SameOtherwise(head, next.value))
            && (next.Some? ==> next.value.codings == head.codings + |items|
                               && next.value.finalChunked == EqualsIgnoreCase(items[|items| - 1], "chunked"))
  {
    hide EqualsIgnoreCase, HasToken, Items, TakeLengths, ValidCodings;
  }

  predicate SameOtherwise(head: Head, next: Head) {
    next.startLine == head.startLine && next.hosts == head.hosts && next.close == head.close && next.keepAlive == head.keepAlive
  }

  /** What the fields after the first one contribute, seen from the first one. */
  ghost predicate Follows(head: Head, fields: seq<Field>, next: Option<Head>)
    requires fields != []
  {
    && ValidName(fields[0].0) && ValidValue(TrimBlank(fields[0].1))
    && next == TakeField(head, fields[0].0, TrimBlank(fields[0].1))
    && (next.Some? ==> Amounts(next.value, fields[1..], TakeFields(next.value, fields[1..])))
  }

  /** A field that is not about framing shifts its contribution from the rest to the head. */
  lemma AddsShifted(head: Head, next: Head, lengths: Option<Option<nat>>, codings: seq<string>, hosts: nat, more: nat,
                    close: bool, close': bool, keepAlive: bool, keepAlive': bool, result: Option<Head>)
    requires Adds(next, lengths, codings, hosts, close, keepAlive, result)
    requires next.startLine == head.startLine && next.codings == head.codings && next.finalChunked == head.finalChunked
    requires next.hosts == head.hosts + more
    requires next.close == (head.close || close') && next.keepAlive == (head.keepAlive || keepAlive')
    ensures Adds(head, lengths, codings, hosts + more, close' || close, keepAlive' || keepAlive, result)
  {
    hide EqualsIgnoreCase, ValidCodings;
  }

  lemma AddsCodings(head: Head, items: seq<string>, next: Head, lengths: Option<Option<nat>>, codings: seq<string>, hosts: nat,
                    close: bool, keepAlive: bool, result: Option<Head>)
    requires items != [] && ValidCodings(items) && (ValidCodings(items + codings) <==> ValidCodings(codings))
    requires SameOtherwise(head, next) && next.codings == head.codings + |items|
    requires next.finalChunked == EqualsIgnoreCase(items[|items| - 1], "chunked")
    requires Adds(next, lengths, codings, hosts, close, keepAlive, result)
    ensures Adds(head, lengths, items + codings, hosts, close, keepAlive, result)
  {
    hide EqualsIgnoreCase, ValidCodings;
    LastOf(items, codings);
  }

  lemma LastOf(a: seq<string>, b: seq<string>)
    requires a != []
    ensures a + b != [] && (a + b)[|a + b| - 1] == if b == [] then a[|a| - 1] else b[|b| - 1]
  {}

  lemma FieldsTaken(head: Head, fields: seq<Field>)
    requires fields != []
    ensures TakeFields(head, fields) ==
            var next := TakeField(head, fields[0].0, TrimBlank(fields[0].1));
            if next.None? then None else TakeFields(next.value, fields[1..])
  {
    hide TakeField, TrimBlank;
  }

  lemma NothingAdded(head: Head, fields: seq<Field>)
    requires Lengths(head.contentLength, ValuesOf(fields, "Content-Length")).None? || !ValidCodings(Codings(ValuesOf(fields, "Transfer-Encoding")))
    ensures Amounts(head, fields, None)
  {
    hide Lengths, Codings, ValuesOf, ValidCodings, AnyToken;
  }

  lemma TokenOwned(fields: seq<Field>, token: string)
    requires fields != [] && fields[0].0 != ""
    ensures AnyToken(ValuesOf(fields, "Connection"), token) ==
            ((KindOf(fields[0].0) == ConnectionField && HasToken(TrimBlank(fields[0].1), token)) || AnyToken(ValuesOf(fields[1..], "Connection"), token))
  {
    OwnValues(fields);
    AnyTokenCons(TrimBlank(fields[0].1), ValuesOf(fields[1..], "Connection"), token);
    hide AnyToken, HasToken, ValuesOf, KindOf, TrimBlank;
  }

  lemma SimpleFieldAmounts(head: Head, fields: seq<Field>, next: Option<Head>)
    requires fields != [] && Follows(head, fields, next) && KindOf(fields[0].0) != LengthField && KindOf(fields[0].0) != CodingField
    ensures Amounts(head, fields, TakeFields(head, fields))
  {
    var kind, value, rest := KindOf(fields[0].0), TrimBlank(fields[0].1), fields[1..];
    assert fields[0].0 != "";
    hide EqualsIgnoreCase, KindOf, ValuesOf, Lengths, Codings, AnyToken, HasToken, Items, ValidName, ValidValue, TrimBlank, ValidCodings,
         TakeLengths, TakeField, TakeFields, Adds;
    OwnValues(fields);
    SimpleFieldTaken(head, fields[0].0, value);
    TokenOwned(fields, "close");
    TokenOwned(fields, "keep-alive");
    FieldsTaken(head, fields);
    AddsShifted(head, next.value, Lengths(head.contentLength, ValuesOf(rest, "Content-Length")), Codings(ValuesOf(rest, "Transfer-Encoding")),
                |ValuesOf(rest, "Host")|, if kind == HostField then 1 else 0,
                AnyToken(ValuesOf(rest, "Connection"), "close"), kind == ConnectionField && HasToken(value, "close"),
                AnyToken(ValuesOf(rest, "Connection"), "keep-alive"), kind == ConnectionField && HasToken(value, "keep-alive"),
                TakeFields(next.value, rest));
  }

  lemma LengthFieldAmounts(head: Head, fields: seq<Field>, next: Option<Head>)
    requires fields != [] && Follows(head, fields, next) && KindOf(fields[0].0) == LengthField
    ensures Amounts(head, fields, TakeFields(head, fields))
  {
    var value, rest := TrimBlank(fields[0].1), fields[1..];
    assert fields[0].0 != "";
    hide EqualsIgnoreCase, KindOf, ValuesOf, Lengths, Codings, AnyToken, HasToken, Items, ValidName, ValidValue, TrimBlank, ValidCodings,
         TakeLengths, TakeField, TakeFields, Adds;
    OwnValues(fields);
    LengthFieldTaken(head, fields[0].0, value);
    LengthsCons(head.contentLength, value, ValuesOf(rest, "Content-Length"));
    FieldsTaken(head, fields);
    if next.None? {
      NothingAdded(head, fields);
    } else {
      AddsShifted(head, next.value, Lengths(next.value.contentLength, ValuesOf(rest, "Content-Length")),
                  Codings(ValuesOf(rest, "Transfer-Encoding")), |ValuesOf(rest, "Host")|, 0,
                  AnyToken(ValuesOf(rest, "Connection"), "close"), false,
                  AnyToken(ValuesOf(rest, "Connection"), "keep-alive"), false, TakeFields(next.value, rest));
    }
  }

  lemma CodingFieldAmounts(head: Head, fields: seq<Field>, next: Option<Head>)
    requires fields != [] && Follows(head, fields, next) && KindOf(fields[0].0) == CodingField
    ensures Amounts(head, fields, TakeFields(head, fields))
  {
    var value, rest := TrimBlank(fields[0].1), fields[1..];
    assert fields[0].0 != "";
    hide EqualsIgnoreCase, KindOf, ValuesOf, Lengths, Codings, AnyToken, HasToken, Items, ValidName, ValidValue, TrimBlank, ValidCodings,
         TakeLengths, TakeField, TakeFields, Adds;
    OwnValues(fields);
    CodingFieldTaken(head, fields[0].0, value);
    CodingsCons(value, ValuesOf(rest, "Transfer-Encoding"));
    FieldsTaken(head, fields);
    if next.None? {
      NothingAdded(head, fields);
    } else {
      AddsCodings(head, Items(value), next.value, Lengths(head.contentLength, ValuesOf(rest, "Content-Length")),
                  Codings(ValuesOf(rest, "Transfer-Encoding")), |ValuesOf(rest, "Host")|,
                  AnyToken(ValuesOf(rest, "Connection"), "close"), AnyToken(ValuesOf(rest, "Connection"), "keep-alive"),
                  TakeFields(next.value, rest));
    }
  }

  /** The value lists of the controls, with and without the first field. */
  lemma OwnValues(fields: seq<Field>)
    requires fields != [] && fields[0].0 != ""
    ensures var kind, value := KindOf(fields[0].0), TrimBlank(fields[0].1);
            && ValuesOf(fields, "Host") == (if kind == HostField then [value] else []) + ValuesOf(fields[1..], "Host")
            && ValuesOf(fields, "Connection") ==
               (if kind == ConnectionField then [value] + ValuesOf(fields[1..], "Connection") else ValuesOf(fields[1..], "Connection"))
            && ValuesOf(fields, "Content-Length") ==
               (if kind == LengthField then [value] + ValuesOf(fields[1..], "Content-Length") else ValuesOf(fields[1..], "Content-Length"))
            && ValuesOf(fields, "Transfer-Encoding") ==
               (if kind == CodingField then [value] + ValuesOf(fields[1..], "Transfer-Encoding") else ValuesOf(fields[1..], "Transfer-Encoding"))
  {
    ValuesOfCons(fields, HostField);
    ValuesOfCons(fields, ConnectionField);
    ValuesOfCons(fields, LengthField);
    ValuesOfCons(fields, CodingField);
    hide ValuesOf, KindOf, TrimBlank;
  }

  /** One field more: only the control of its kind changes. */
  lemma FieldAmounts(head: Head, fields: seq<Field>, next: Option<Head>)
    requires fields != [] && Follows(head, fields, next)
    ensures Amounts(head, fields, TakeFields(head, fields))
  {
    hide *;
    match KindOf(fields[0].0)
    case LengthField => LengthFieldAmounts(head, fields, next);
    case CodingField => CodingFieldAmounts(head, fields, next);
    case _ => SimpleFieldAmounts(head, fields, next);
  }

  // ---- a printed head is found and parsed

  lemma {:induction false} TrimLeftIsSuffix(s: string)
    ensures |TrimLeft(s)| <= |s| && TrimLeft(s) == s[|s| - |TrimLeft(s)|..]
  {
    if s != "" && Blank(s[0]) { TrimLeftIsSuffix(s[1..]); }
  }

  lemma TrimBlankKeepsValid(s: string)
    requires ValidValue(s)
    ensures ValidValue(TrimBlank(s))
  {
    TrimLeftIsSuffix(s);
    TrimRightKeeps(TrimLeft(s));
    var t, n := TrimBlank(s), |s| - |TrimLeft(s)|;
    forall i | 0 <= i < |t| ensures FieldChar(t[i]) { assert t[i] == TrimLeft(s)[i] == s[n + i]; }
  }

  /** No blank line appears before the end of the head. */
  lemma HeadEndIsFound(startLine: string, fields: seq<Field>, rest: string)
    requires OneLine(startLine) && startLine != "" && AllPrintable(fields)
    ensures var text := startLine + CRLF + FieldLines(fields);
            Find(text + CRLF + rest, HEAD_END, 0) == |text| - 2
  {
    var text := startLine + CRLF + FieldLines(fields);
    var s, n := text + CRLF + rest, |startLine| + 2;
    if fields == [] {
      assert s == startLine + HEAD_END + rest;
      AtInMiddle(startLine, HEAD_END, rest);
    } else {
      JoinedFieldLines(fields);
      var lines := JoinLines(fields);
      LineChars(fields[0]);
      assert s == (startLine + CRLF + lines) + HEAD_END + rest;
      AtInMiddle(startLine + CRLF + lines, HEAD_END, rest);
      assert s[n..] == lines + HEAD_END + rest;
    }
    forall i | 0 <= i < |text| - 2 ensures !At(s, i, HEAD_END) { EarlyHeadEnd(startLine, fields, rest, i); }
    FindIs(s, HEAD_END, 0, |text| - 2);
  }

  lemma EarlyHeadEnd(startLine: string, fields: seq<Field>, rest: string, i: nat)
    requires OneLine(startLine) && startLine != "" && AllPrintable(fields)
    requires i < |startLine + CRLF + FieldLines(fields)| - 2
    ensures !At(startLine + CRLF + FieldLines(fields) + CRLF + rest, i, HEAD_END)
  {
    var s, n := startLine + CRLF + FieldLines(fields) + CRLF + rest, |startLine| + 2;
    if i + 4 <= |s| {
      assert s[i..i + 4][0] == s[i] && s[i..i + 4][2] == s[i + 2];
      if i < |startLine| {
        assert s[i] == startLine[i];
      } else {
        JoinedFieldLines(fields);
        var lines := JoinLines(fields);
        LineChars(fields[0]);
        assert s[n..] == lines + HEAD_END + rest;
        if i == |startLine| {
          assert s[i + 2] == s[n..][0] == lines[0] == Line(fields[0])[0];
        } else if i == |startLine| + 1 {
          assert s[i] == '\n';
        } else {
          NoEarlyHeadEnd(fields, rest, i - n);
          AtDrop(s, n, i, HEAD_END);
        }
      }
    }
  }

  lemma ParsedLines(startLine: string, fields: seq<Field>)
    requires ValidValue(startLine) && startLine != "" && AllPrintable(fields)
    ensures ParsedHead(startLine + CRLF + FieldLines(fields)) ==
            var head := TakeFields(NewHead(startLine), fields);
            if head.None? || !CodingsAccepted(head.value) then None else head
  {
    hide TakeFields, TakeLines, NewHead, CodingsAccepted, FieldLines, Find, At;
    ValidIsOneLine(startLine);
    FindLineEnd(startLine, FieldLines(fields));
    TakePrintedLines(startLine + CRLF, fields, NewHead(startLine));
  }

  /** The fields as a reader keeps them. */
  function Kept(fields: seq<Field>): seq<Field> {
    if fields == [] then [] else [(fields[0].0, TrimBlank(fields[0].1))] + Kept(fields[1..])
  }

  lemma FieldIsKept(head: Head, name: string, value: string)
    requires TakeField(head, name, value).Some?
    ensures TakeField(head, name, value).value.headers == head.headers + [(name, value)]
  {
    hide EqualsIgnoreCase, HasToken, Items, ValidCodings, TakeLengths, ValidName, ValidValue;
  }

  lemma {:induction false} FieldsAreKept(head: Head, fields: seq<Field>)
    ensures TakeFields(head, fields).Some? ==> TakeFields(head, fields).value.headers == head.headers + Kept(fields)
    decreases |fields|
  {
    hide TakeField, TrimBlank;
    if fields == [] {
      assert head.headers + [] == head.headers;
    } else {
      var name, value := fields[0].0, TrimBlank(fields[0].1);
      var next := TakeField(head, name, value);
      if next.Some? {
        FieldIsKept(head, name, value);
        FieldsAreKept(next.value, fields[1..]);
        assert head.headers + [(name, value)] + Kept(fields[1..]) == head.headers + ([(name, value)] + Kept(fields[1..]));
      }
    }
  }

  lemma EmptyHeaders(startLine: string, fields: seq<Field>)
    ensures NewHead(startLine).headers + Kept(fields) == Kept(fields)
  {}

  // ---- the framing a reader extracts

  datatype Framing = Sized(length: nat) | ChunkedBody | Unframed

  function FramingOf(head: Head): Framing {
    if head.Chunked() then ChunkedBody
    else if head.contentLength.Some? then Sized(head.contentLength.value)
    else Unframed
  }

  /** The value lists of the two framing fields say exactly this framing. */
  predicate Announces(fields: seq<Field>, framing: Framing) {
    var lengths, codings := ValuesOf(fields, "Content-Length"), ValuesOf(fields, "Transfer-Encoding");
    match framing
    case Sized(n) => n <= MAX_U64 && lengths == [NumberText(n, 10)] && codings == []
    case ChunkedBody => lengths == [] && codings == ["chunked"]
    case Unframed => lengths == [] && codings == []
  }

  lemma ItemsOfPlain(value: string)
    requires Free(value, ',')
    ensures Items(value) == [TrimBlank(value)]
  {
    FindAbsent(value, ',');
    assert "," == [','];
  }

  lemma NumberIsPlain(n: nat)
    ensures Free(NumberText(n, 10), ',') && Text.Trimmed(NumberText(n, 10))
  {
    hide NumberText;
    var s := NumberText(n, 10);
    assert AllDigits(s, 10);
    forall i | 0 <= i < |s| ensures s[i] != ',' && !Blank(s[i]) { assert IsDigit(s[i], 10); }
  }

  lemma LengthOfNumber(n: nat)
    requires n <= MAX_U64
    ensures Lengths(None, [NumberText(n, 10)]) == Some(Some(n))
  {
    NumberIsPlain(n);
    TrimmedStays(NumberText(n, 10));
    ItemsOfPlain(NumberText(n, 10));
    NumberRoundTrip(n, 10);
    hide NumberText, TrimBlank, Items, ParseNumber;
    assert TakeLengths(Some(n), [NumberText(n, 10)][1..]) == Some(Some(n));
  }

  lemma CodingsOfOne(value: string)
    requires Items(value) == [value] && value != "" && Free(value, ';')
    ensures Codings([value]) == [value] && ValidCodings([value])
  {
    hide Items, Free;
    CodingsCons(value, []);
    assert [value] + [] == [value];
  }

  lemma ChunkedIsPlain()
    ensures Free("chunked", ',') && Free("chunked", ';') && Text.Trimmed("chunked")
  {}

  lemma CodingOfChunked()
    ensures Codings(["chunked"]) == ["chunked"] && ValidCodings(["chunked"]) && EqualsIgnoreCase("chunked", "chunked")
  {
    var value := "chunked";
    assert EqualsIgnoreCase(value, value);
    ChunkedIsPlain();
    hide *;
    TrimmedStays(value);
    ItemsOfPlain(value);
    CodingsOfOne(value);
  }

  /** A reader of printed fields finds the end of the head, accepts it, and sees the announced framing. */
  lemma FramingIsRead(startLine: string, fields: seq<Field>, framing: Framing, rest: string)
    requires ValidValue(startLine) && startLine != "" && AllValid(fields) && Announces(fields, framing)
    ensures var text := startLine + CRLF + FieldLines(fields);
            && Find(text + CRLF + rest, HEAD_END, 0) == |text| - 2
            && var head := ParsedHead(text);
            && head.Some? && head.value.startLine == startLine && FramingOf(head.value) == framing
            && (framing != ChunkedBody ==> head.value.codings == 0)
            && head.value.close == AnyToken(ValuesOf(fields, "Connection"), "close")
            && head.value.keepAlive == AnyToken(ValuesOf(fields, "Connection"), "keep-alive")
            && head.value.headers == Kept(fields)
  {
    FieldsAreKept(NewHead(startLine), fields);
    ValidIsOneLine(startLine);
    AllValidIsPrintable(fields);
    HeadEndIsFound(startLine, fields, rest);
    ParsedLines(startLine, fields);
    FieldsAmount(NewHead(startLine), fields);
    EmptyHeaders(startLine, fields);
    hide ParsedHead, Find, At, FieldLines, TakeFields, ValuesOf, AnyToken, ValidValue, AllValid, ValidCodings, TakeLengths, Kept;
    FramingOfAmounts(startLine, fields, framing, TakeFields(NewHead(startLine), fields));
  }

  lemma AllValidIsPrintable(fields: seq<Field>)
    requires AllValid(fields)
    ensures AllPrintable(fields) && Usable(fields)
  {
    forall i | 0 <= i < |fields| ensures Printable(fields[i]) && ValidValue(TrimBlank(fields[i].1)) {
      ValidIsOneLine(fields[i].1);
      TrimBlankKeepsValid(fields[i].1);
    }
  }

  lemma FramingOfAmounts(startLine: string, fields: seq<Field>, framing: Framing, result: Option<Head>)
    requires Announces(fields, framing) && Amounts(NewHead(startLine), fields, result)
    ensures result.Some? && CodingsAccepted(result.value) && FramingOf(result.value) == framing
    ensures framing != ChunkedBody ==> result.value.codings == 0
    ensures result.value.startLine == startLine
    ensures result.value.close == AnyToken(ValuesOf(fields, "Connection"), "close")
    ensures result.value.keepAlive == AnyToken(ValuesOf(fields, "Connection"), "keep-alive")
  {
    if framing.Sized? { LengthOfNumber(framing.length); }
    CodingOfChunked();
    hide ValuesOf, AnyToken, NumberText, TakeLengths, Items, EqualsIgnoreCase;
  }

  // ---- exactly which framings are accepted

  /** All items of all values are the same number. */
  predicate ItemsAre(items: seq<string>, n: nat) {
    forall j :: 0 <= j < |items| ==> ParseNumber(items[j], 10) == Some(n)
  }

  predicate AllAre(values: seq<string>, n: nat) {
    forall i :: 0 <= i < |values| ==> ItemsAre(Items(values[i]), n)
  }

  lemma {:induction false} TakenLengths(known: Option<nat>, items: seq<string>, n: nat)
    ensures TakeLengths(known, items) == Some(Some(n)) <==>
            (known == Some(n) || (known == None && items != [])) && ItemsAre(items, n)
    decreases |items|
  {
    hide ParseNumber;
    if items != [] {
      var parsed := ParseNumber(items[0], 10);
      TakenLengths(parsed, items[1..], n);
      if ItemsAre(items[1..], n) {
        forall j | 0 < j < |items| ensures ParseNumber(items[j], 10) == Some(n) { assert items[j] == items[1..][j - 1]; }
      }
    }
  }

  lemma {:induction false} TakenNothing(known: Option<nat>, items: seq<string>)
    ensures TakeLengths(known, items) == Some(None) <==> known == None && items == []
    decreases |items|
  {
    hide ParseNumber;
    if items != [] { TakenNothing(ParseNumber(items[0], 10), items[1..]); }
  }

  lemma ItemsAreThere(value: string)
    ensures Items(value) != []
  {}

  lemma AllAreCons(values: seq<string>, n: nat)
    requires values != []
    ensures AllAre(values, n) <==> AllAre(values[1..], n) && ItemsAre(Items(values[0]), n)
  {
    hide Items, ItemsAre;
    if AllAre(values[1..], n) && ItemsAre(Items(values[0]), n) {
      forall i | 0 <= i < |values| ensures ItemsAre(Items(values[i]), n) {
        if i > 0 { assert values[1..][i - 1] == values[i]; }
      }
    }
  }

  /** The lengths of a head are taken together exactly when all of them agree. */
  lemma {:induction false} LengthsAgree(known: Option<nat>, values: seq<string>, n: nat)
    ensures Lengths(known, values) == Some(Some(n)) <==> (known == Some(n) || (known == None && values != [])) && AllAre(values, n)
    decreases |values|
  {
    hide TakeLengths, Items, ItemsAre;
    if values != [] {
      ItemsAreThere(values[0]);
      TakenLengths(known, Items(values[0]), n);
      TakenNothing(known, Items(values[0]));
      AllAreCons(values, n);
      var next := TakeLengths(known, Items(values[0]));
      if next.Some? { LengthsAgree(next.value, values[1..], n); }
    }
  }

  lemma {:induction false} NoLengths(known: Option<nat>, values: seq<string>)
    ensures Lengths(known, values) == Some(None) <==> known == None && values == []
    decreases |values|
  {
    hide TakeLengths, Items;
    if values != [] {
      ItemsAreThere(values[0]);
      TakenNothing(known, Items(values[0]));
      var next := TakeLengths(known, Items(values[0]));
      if next.Some? { NoLengths(next.value, values[1..]); }
    }
  }

  /** What the reader accepts, by the lengths and the codings it has found. */
  lemma AcceptedByControls(startLine: string, fields: seq<Field>, n: nat)
    requires ValidValue(startLine) && startLine != "" && AllValid(fields)
    ensures var head := ParsedHead(startLine + CRLF + FieldLines(fields));
            var lengths := Lengths(None, ValuesOf(fields, "Content-Length"));
            var codings := Codings(ValuesOf(fields, "Transfer-Encoding"));
            && ((head.Some? && FramingOf(head.value) == Unframed) <==> lengths == Some(None) && codings == [])
            && ((head.Some? && FramingOf(head.value) == Sized(n)) <==> lengths == Some(Some(n)) && codings == [])
            && ((head.Some? && FramingOf(head.value) == ChunkedBody) <==> lengths == Some(None) && OnlyChunked(codings))
  {
    AllValidIsPrintable(fields);
    ParsedLines(startLine, fields);
    FieldsAmount(NewHead(startLine), fields);
    hide ParsedHead, FieldLines, TakeFields, ValuesOf, Codings, Lengths, AnyToken, EqualsIgnoreCase, Usable, AllPrintable, AllValid,
         Adds, ValidValue;
    var result := TakeFields(NewHead(startLine), fields);
    assert Adds(NewHead(startLine), Lengths(None, ValuesOf(fields, "Content-Length")), Codings(ValuesOf(fields, "Transfer-Encoding")),
                |ValuesOf(fields, "Host")|, AnyToken(ValuesOf(fields, "Connection"), "close"),
                AnyToken(ValuesOf(fields, "Connection"), "keep-alive"), result);
    ControlsDecide(startLine, Lengths(None, ValuesOf(fields, "Content-Length")), Codings(ValuesOf(fields, "Transfer-Encoding")),
                   |ValuesOf(fields, "Host")|, AnyToken(ValuesOf(fields, "Connection"), "close"),
                   AnyToken(ValuesOf(fields, "Connection"), "keep-alive"), result, n);
  }

  predicate OnlyChunked(codings: seq<string>) {
    |codings| == 1 && ValidCodings(codings) && EqualsIgnoreCase(codings[0], "chunked")
  }

  lemma ControlsDecide(startLine: string, lengths: Option<Option<nat>>, codings: seq<string>, hosts: nat, close: bool, keepAlive: bool,
                       result: Option<Head>, n: nat)
    requires Adds(NewHead(startLine), lengths, codings, hosts, close, keepAlive, result)
    ensures var head := if result.None? || !CodingsAccepted(result.value) then None else result;
            && ((head.Some? && FramingOf(head.value) == Unframed) <==> lengths == Some(None) && codings == [])
            && ((head.Some? && FramingOf(head.value) == Sized(n)) <==> lengths == Some(Some(n)) && codings == [])
            && ((head.Some? && FramingOf(head.value) == ChunkedBody) <==> lengths == Some(None) && OnlyChunked(codings))
  {
    assert ValidCodings([]);
    hide EqualsIgnoreCase, ValidCodings;
  }

  /** A head with well-formed fields is accepted exactly when its framing is unambiguous: no framing field, lengths that all
      agree, or the single coding `chunked` without a length. */
  lemma AcceptedFraming(startLine: string, fields: seq<Field>, n: nat)
    requires ValidValue(startLine) && startLine != "" && AllValid(fields)
    ensures var head := ParsedHead(startLine + CRLF + FieldLines(fields));
            var lengths, codings := ValuesOf(fields, "Content-Length"), Codings(ValuesOf(fields, "Transfer-Encoding"));
            && ((head.Some? && FramingOf(head.value) == Unframed) <==> lengths == [] && codings == [])
            && ((head.Some? && FramingOf(head.value) == Sized(n)) <==> lengths != [] && AllAre(lengths, n) && codings == [])
            && ((head.Some? && FramingOf(head.value) == ChunkedBody) <==> lengths == [] && OnlyChunked(codings))
  {
    hide *;
    AcceptedByControls(startLine, fields, n);
    NoLengths(None, ValuesOf(fields, "Content-Length"));
    LengthsAgree(None, ValuesOf(fields, "Content-Length"), n);
  }
}
