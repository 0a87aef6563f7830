/** What a reader accepts beyond what the writers of this library print: lists of tokens, blanks around values, sizes with
    extensions and in upper case, and trailers. */
module HttpSpelling {
  import opened Wrappers
  import opened Text
  import opened HeaderFields
  import opened Headers
  import opened HttpHead
  import opened HttpFraming
  import opened HttpHeadRoundTrip
  import opened HttpBody
  import opened HttpChunks

  // ---- blanks and lists

  predicate AllBlank(s: string) {
    forall i :: 0 <= i < |s| ==> Blank(s[i])
  }

  lemma {:induction false} BlankLeftOff(gap: string, s: string)
    requires AllBlank(gap) && (s == "" || !Blank(s[0]))
    ensures TrimLeft(gap + s) == s
  {
    if gap == "" {
      assert gap + s == s;
    } else {
      assert (gap + s)[1..] == gap[1..] + s;
      BlankLeftOff(gap[1..], s);
    }
  }

  lemma {:induction false} BlankRightOff(s: string, gap: string)
    requires AllBlank(gap) && (s == "" || !Blank(s[|s| - 1]))
    ensures TrimRight(s + gap) == s
    decreases |gap|
  {
    if gap == "" {
      assert s + gap == s;
    } else {
      assert (s + gap)[..|s + gap| - 1] == s + gap[..|gap| - 1];
      BlankRightOff(s, gap[..|gap| - 1]);
    }
  }

  /** Blanks around a text are taken away, and nothing else. */
  lemma BlanksAreTrimmed(before: string, s: string, behind: string)
    requires AllBlank(before) && AllBlank(behind) && Text.Trimmed(s)
    ensures TrimBlank(before + s + behind) == s
  {
    if s == "" {
      assert before + s + behind == (before + behind) + "";
      BlankLeftOff(before + behind, "");
    } else {
      assert before + s + behind == before + (s + behind);
      BlankLeftOff(before, s + behind);
      BlankRightOff(s, behind);
    }
  }

  /** An item of a list as it is written. */
  datatype Spaced = Spaced(before: string, text: string, behind: string)

  predicate PlainItem(item: Spaced) {
    AllBlank(item.before) && AllBlank(item.behind) && Text.Trimmed(item.text) && Free(item.text, ',')
  }

  function ListText(items: seq<Spaced>): string
    requires items != []
  {
    var first := items[0].before + items[0].text + items[0].behind;
    if |items| == 1 then first else first + "," + ListText(items[1..])
  }

  function ListItems(items: seq<Spaced>): seq<string> {
    if items == [] then [] else [items[0].text] + ListItems(items[1..])
  }

  lemma BlankIsFree(s: string, c: char)
    requires AllBlank(s) && !Blank(c)
    ensures Free(s, c)
  {
    forall i | 0 <= i < |s| ensures s[i] != c { assert Blank(s[i]); }
  }

  lemma ItemIsFree(item: Spaced)
    requires PlainItem(item)
    ensures Free(item.before + item.text + item.behind, ',')
  {
    BlankIsFree(item.before, ',');
    BlankIsFree(item.behind, ',');
  }

  lemma FirstComma(front: string, rest: string)
    requires Free(front, ',')
    ensures var s := front + "," + rest; Find(s, ",", 0) == |front| && s[..|front|] == front && s[|front| + 1..] == rest
  {
    var s := front + "," + rest;
    AtInMiddle(front, ",", rest);
    forall j | 0 <= j < |front| ensures !At(s, j, ",") { assert s[j..j + 1][0] == front[j]; }
    FindIs(s, ",", 0, |front|);
  }

  /** The items of a written list come back in order, without the blanks around them. */
  lemma {:induction false} ListComesBack(items: seq<Spaced>)
    requires items != [] && forall i :: 0 <= i < |items| ==> PlainItem(items[i])
    ensures Items(ListText(items)) == ListItems(items)
    decreases |items|
  {
    var item := items[0];
    var first := item.before + item.text + item.behind;
    ItemIsFree(item);
    BlanksAreTrimmed(item.before, item.text, item.behind);
    hide TrimBlank, Free, Find, PlainItem;
    assert "," == [','];
    if |items| == 1 {
      FindAbsent(first, ',');
      assert items[1..] == [];
    } else {
      FirstComma(first, ListText(items[1..]));
      ListComesBack(items[1..]);
    }
  }

  /** A token is found in a written list exactly when one of its items is that token in any case. */
  lemma TokenInList(items: seq<Spaced>, token: string)
    requires items != [] && forall i :: 0 <= i < |items| ==> PlainItem(items[i])
    ensures HasToken(ListText(items), token) <==>
            exists i :: 0 <= i < |items| && items[i].text != "" && EqualsIgnoreCase(items[i].text, token)
  {
    ListComesBack(items);
    hide EqualsIgnoreCase, Items, ListText, PlainItem;
    ListItemsAt(items);
    if exists i :: 0 <= i < |items| && items[i].text != "" && EqualsIgnoreCase(items[i].text, token) {
      var i :| 0 <= i < |items| && items[i].text != "" && EqualsIgnoreCase(items[i].text, token);
      assert ListItems(items)[i] == items[i].text;
    }
  }

  lemma {:induction false} ListItemsAt(items: seq<Spaced>)
    ensures |ListItems(items)| == |items| && forall i :: 0 <= i < |items| ==> ListItems(items)[i] == items[i].text
  {
    if items != [] {
      ListItemsAt(items[1..]);
      forall i | 0 <= i < |items| ensures ListItems(items)[i] == items[i].text { if i > 0 { assert items[i] == items[1..][i - 1]; } }
    }
  }

  /** A field line is its name, a colon and its value, whatever blanks surround the value. */
  lemma FieldLineIs(head: Head, name: string, before: string, value: string, behind: string)
    requires ValidName(name) && AllBlank(before) && AllBlank(behind) && Text.Trimmed(value)
    ensures TakeLine(head, name + ":" + before + value + behind) == TakeField(head, name, value)
  {
    BlanksAreTrimmed(before, value, behind);
    NameIsFree(name);
    hide TakeField, TrimBlank, Find, At, ValidName, AllBlank, Text.Trimmed, Free;
    FirstColon(name, before + value + behind);
    FourPieces(name, before, value, behind);
  }

  lemma NameIsFree(name: string)
    requires ValidName(name)
    ensures Free(name, ':') && name != "" && !Blank(name[0])
  {
    forall j | 0 <= j < |name| ensures name[j] != ':' { assert TokenChar(name[j]); }
    assert TokenChar(name[0]);
  }

  lemma FourPieces(name: string, before: string, value: string, behind: string)
    ensures name + ":" + before + value + behind == name + ":" + (before + value + behind)
  {}

  lemma FirstColon(front: string, rest: string)
    requires Free(front, ':')
    ensures var s := front + ":" + rest;
            && Find(s, ":", 0) == |front| && s[..|front|] == front && s[|front| + 1..] == rest && (front != "" ==> s[0] == front[0])
  {
    var s := front + ":" + rest;
    AtInMiddle(front, ":", rest);
    forall j | 0 <= j < |front| ensures !At(s, j, ":") { assert s[j..j + 1][0] == front[j]; }
    FindIs(s, ":", 0, |front|);
  }

  /** Lines that start with a blank, as folded ones do, and lines without a colon are refused. */
  lemma RefusedLines(head: Head, line: string)
    requires line != "" && (Blank(line[0]) || Free(line, ':'))
    ensures TakeLine(head, line) == None
  {
    if Free(line, ':') {
      FindAbsent(line, ':');
      assert ":" == [':'];
    }
  }

  lemma {:induction false} TakenAreValid(input: string, cursor: nat, head: Head)
    requires AllValid(head.headers)
    ensures TakeLines(input, cursor, head).Some? ==> AllValid(TakeLines(input, cursor, head).value.headers)
    decreases |input| - cursor
  {
    hide TakeLine, Find, At, ValidName, ValidValue;
    if cursor < |input| {
      var end := Find(input, CRLF, cursor);
      if end != -1 {
        FoundWithin(input, CRLF, cursor);
        var line := input[cursor..end];
        if line != "" {
          var next := TakeLine(head, line);
          if next.Some? {
            LineIsValid(head, line);
            TakenAreValid(input, end + 2, next.value);
          }
        }
      }
    }
  }

  lemma LineIsValid(head: Head, line: string)
    requires line != "" && AllValid(head.headers) && TakeLine(head, line).Some?
    ensures AllValid(TakeLine(head, line).value.headers)
  {
    hide ValidName, ValidValue, EqualsIgnoreCase, HasToken, Items, TakeLengths, ValidCodings, TrimBlank, Find, At;
  }

  /** Whatever head is accepted, its start line and its fields are free of control characters and its names are tokens. */
  lemma AcceptedIsValid(input: string)
    requires ParsedHead(input).Some?
    ensures ValidValue(ParsedHead(input).value.startLine) && AllValid(ParsedHead(input).value.headers)
  {
    HeadIsTaken(input);
    var first := Find(input, CRLF, 0);
    var start := NewHead(input[..first]);
    NoHeaders(input[..first]);
    hide *;
    TakenAreValid(input, first + 2, start);
    KeepsStartLine(input, first + 2, start);
  }

  lemma NoHeaders(startLine: string)
    ensures AllValid(NewHead(startLine).headers) && NewHead(startLine).startLine == startLine
  {}

  lemma HeadIsTaken(input: string)
    requires ParsedHead(input).Some?
    ensures var first := Find(input, CRLF, 0);
            && 0 < first <= |input| && ValidValue(input[..first])
            && TakeLines(input, first + 2, NewHead(input[..first])) == ParsedHead(input)
  {
    FoundWithin(input, CRLF, 0);
    hide TakeLines, ValidValue, Find, At;
  }

  lemma {:induction false} KeepsStartLine(input: string, cursor: nat, head: Head)
    ensures TakeLines(input, cursor, head).Some? ==> TakeLines(input, cursor, head).value.startLine == head.startLine
    decreases |input| - cursor
  {
    hide TakeLine, Find, At;
    if cursor < |input| {
      var end := Find(input, CRLF, cursor);
      if end != -1 {
        FoundWithin(input, CRLF, cursor);
        var line := input[cursor..end];
        if line != "" {
          var next := TakeLine(head, line);
          if next.Some? {
            LineKeepsStart(head, line);
            KeepsStartLine(input, end + 2, next.value);
          }
        }
      }
    }
  }

  lemma LineKeepsStart(head: Head, line: string)
    requires line != "" && TakeLine(head, line).Some?
    ensures TakeLine(head, line).value.startLine == head.startLine
  {
    hide ValidName, ValidValue, EqualsIgnoreCase, HasToken, Items, TakeLengths, ValidCodings, TrimBlank, Find, At;
  }

  // ---- names

  function Upper(s: string): (r: string)
    ensures |r| == |s|
  {
    seq(|s|, i requires 0 <= i < |s| => if 'a' <= s[i] <= 'z' then (s[i] as int - 32) as char else s[i])
  }

  /** Names are compared without regard to the case of ASCII letters, and of nothing else. */
  lemma CaseIsIgnored(s: string, t: string)
    ensures EqualsIgnoreCase(Upper(s), s) && EqualsIgnoreCase(Lower(s), s)
    ensures EqualsIgnoreCase(s, t) <==> Upper(s) == Upper(t)
  {
    if EqualsIgnoreCase(s, t) {
      forall i | 0 <= i < |s| ensures Upper(s)[i] == Upper(t)[i] { assert LowerChar(s[i]) == LowerChar(t[i]); }
    }
    if Upper(s) == Upper(t) {
      assert |s| == |t|;
      forall i | 0 <= i < |s| ensures LowerChar(s[i]) == LowerChar(t[i]) { assert Upper(s)[i] == Upper(t)[i]; }
    }
  }

  // ---- chunk sizes

  lemma {:induction false} ValueIgnoresCase(s: string)
    requires AllDigits(s, 16)
    ensures AllDigits(Lower(s), 16) && Value(Lower(s), 16) == Value(s, 16)
  {
    forall i | 0 <= i < |s| ensures DigitValue(Lower(s)[i]) == DigitValue(s[i]) { assert IsDigit(s[i], 16); }
    forall i | 0 <= i < |s| ensures IsDigit(Lower(s)[i], 16) { assert IsDigit(s[i], 16); }
    if s != "" {
      var front := s[..|s| - 1];
      assert Lower(s)[..|s| - 1] == Lower(front);
      ValueIgnoresCase(front);
      assert IsDigit(s[|s| - 1], 16);
    }
  }

  /** Hexadecimal digits mean the same in both cases. */
  lemma NumbersIgnoreCase(s: string)
    ensures ParseNumber(Lower(s), 16) == ParseNumber(s, 16)
  {
    if AllDigits(s, 16) {
      ValueIgnoresCase(s);
    } else {
      var i :| 0 <= i < |s| && !IsDigit(s[i], 16);
      assert !IsDigit(Lower(s)[i], 16);
    }
  }

  /** A size may carry an extension, which is not empty and looks like a field value. */
  lemma SizeWithExtension(size: string, extension: string)
    requires Free(size, ';')
    ensures SizeOf(size + ";" + extension) == if extension != "" && ValidValue(extension) then SizeOf(size) else None
    ensures SizeOf(size) == ParseNumber(size, 16)
  {
    var line := size + ";" + extension;
    AtInMiddle(size, ";", extension);
    forall j | 0 <= j < |size| ensures !At(line, j, ";") { assert line[j..j + 1][0] == size[j]; }
    FindIs(line, ";", 0, |size|);
    FindAbsent(size, ';');
    assert ";" == [';'];
    assert line[..|size|] == size && line[|size| + 1..] == extension;
    hide ParseNumber, Find, ValidValue;
  }

  // ---- trailers

  function TrimFields(fields: seq<Field>): seq<Field> {
    if fields == [] then [] else [(fields[0].0, Trim(fields[0].1))] + TrimFields(fields[1..])
  }

  predicate TrailerFields(fields: seq<Field>) {
    forall i :: 0 <= i < |fields| ==> ValidName(fields[i].0) && OneLine(fields[i].1) && ValidValue(Trim(fields[i].1))
  }

  predicate NoneForbidden(fields: seq<Field>) {
    forall i :: 0 <= i < |fields| ==> !Forbidden(fields[i].0)
  }

  lemma TrailerLine(field: Field)
    requires ValidName(field.0) && OneLine(field.1) && ValidValue(Trim(field.1))
    ensures TrailerOf(Line(field)) == if Forbidden(field.0) then None else Some((field.0, Trim(field.1)))
    ensures OneLine(Line(field)) && Line(field) != ""
  {
    var line, colon := Line(field), |field.0|;
    NameChars(field.0);
    LineChars(field);
    assert line[colon..colon + 1] == ":";
    forall j | 0 <= j < colon ensures !At(line, j, ":") { assert line[j..j + 1][0] == field.0[j]; }
    FindIs(line, ":", 0, colon);
    assert line[..colon] == field.0 && line[colon + 1..] == " " + field.1;
    assert (" " + field.1)[1..] == field.1;
    hide Forbidden, Find, ValidName, ValidValue;
  }

  lemma LineAtStart(line: string, rest: string, limit: nat, strict: bool)
    requires OneLine(line)
    ensures LineOf(line + CRLF + rest, limit, strict) == if |line| > limit then None else Some((line, rest))
  {
    FindLineEnd(line, rest);
    hide Find, At;
    var s := line + CRLF + rest;
    assert s[..|line|] == line && s[|line| + 2..] == rest;
  }

  lemma FirstFieldLine(fields: seq<Field>, suffix: string)
    requires fields != []
    ensures FieldLines(fields) + CRLF + suffix == Line(fields[0]) + CRLF + (FieldLines(fields[1..]) + CRLF + suffix)
    ensures |FieldLines(fields)| == |Line(fields[0])| + 2 + |FieldLines(fields[1..])|
  {}

  lemma NoFieldLines(suffix: string)
    ensures FieldLines([]) + CRLF + suffix == "" + CRLF + suffix && FieldLines([]) == ""
  {}

  /** One trailer line and what follows it. */
  lemma TrailersStep(field: Field, rest: string, used: nat, limit: nat, strict: bool)
    requires ValidName(field.0) && OneLine(field.1) && ValidValue(Trim(field.1))
    ensures Trailers(Line(field) + CRLF + rest, used, limit, strict) ==
            if Forbidden(field.0) || used + |Line(field)| + 2 > limit then None
            else Prefixed([(field.0, Trim(field.1))], Trailers(rest, used + |Line(field)| + 2, limit, strict))
  {
    hide LineOf, TrailerOf, Line, Forbidden, Trim, Prefixed, Trailers;
    TrailerLine(field);
    LineAtStart(Line(field), rest, limit, strict);
    LineOfTrailers(Line(field) + CRLF + rest, Line(field), rest, used, limit, strict);
  }

  lemma LineOfTrailers(s: string, line: string, rest: string, used: nat, limit: nat, strict: bool)
    requires LineOf(s, limit, strict) == (if |line| > limit then None else Some((line, rest))) && line != ""
    ensures Trailers(s, used, limit, strict) ==
            if used + |line| + 2 > limit || TrailerOf(line).None? then None
            else Prefixed([TrailerOf(line).value], Trailers(rest, used + |line| + 2, limit, strict))
  {
    hide LineOf, TrailerOf, Prefixed;
  }

  lemma TrailersEnd(suffix: string, used: nat, limit: nat, strict: bool)
    ensures Trailers("" + CRLF + suffix, used, limit, strict) == if used + 2 <= limit then Some(([], suffix)) else None
  {
    LineAtStart("", suffix, limit, strict);
    hide LineOf;
  }

  /** Printed trailers are read back if and only if none of them is forbidden and all of them are within the limit. */
  lemma {:induction false} TrailersAreRead(fields: seq<Field>, suffix: string, used: nat, limit: nat, strict: bool)
    requires TrailerFields(fields)
    ensures Trailers(FieldLines(fields) + CRLF + suffix, used, limit, strict) ==
            if NoneForbidden(fields) && used + |FieldLines(fields)| + 2 <= limit then Some((TrimFields(fields), suffix)) else None
    decreases |fields|
  {
    if fields == [] {
      hide Trailers, FieldLines;
      NoFieldLines(suffix);
      TrailersEnd(suffix, used, limit, strict);
    } else {
      hide *;
      FirstIsTrailer(fields);
      PrefixedIs((fields[0].0, Trim(fields[0].1)), TrimFields(fields[1..]), suffix);
      var rest := FieldLines(fields[1..]) + CRLF + suffix;
      FirstFieldLine(fields, suffix);
      TrailersTail(fields);
      TrailersStep(fields[0], rest, used, limit, strict);
      TrailersAreRead(fields[1..], suffix, used + |Line(fields[0])| + 2, limit, strict);
    }
  }

  lemma FirstIsTrailer(fields: seq<Field>)
    requires fields != [] && TrailerFields(fields)
    ensures ValidName(fields[0].0) && OneLine(fields[0].1) && ValidValue(Trim(fields[0].1))
    ensures TrimFields(fields) == [(fields[0].0, Trim(fields[0].1))] + TrimFields(fields[1..])
  {}

  lemma PrefixedIs(field: Field, fields: seq<Field>, rest: string)
    ensures Prefixed<string>([field], Some((fields, rest))) == Some(([field] + fields, rest)) && Prefixed<string>([field], None) == None
  {}

  lemma TrailersTail(fields: seq<Field>)
    requires fields != [] && TrailerFields(fields)
    ensures TrailerFields(fields[1..]) && (NoneForbidden(fields) <==> !Forbidden(fields[0].0) && NoneForbidden(fields[1..]))
  {
    hide ValidName, ValidValue, OneLine, Trim, Forbidden;
    var rest := fields[1..];
    assert forall i :: 0 <= i < |rest| ==> rest[i] == fields[i + 1];
    if !Forbidden(fields[0].0) && NoneForbidden(rest) {
      forall i | 0 <= i < |fields| ensures !Forbidden(fields[i].0) { if i > 0 { assert fields[i] == rest[i - 1]; } }
    }
  }
}
