/** The head of an HTTP/1.1 message: printing it with generated fields, and parsing it. */
module HttpHead {
  import opened Wrappers
  import opened Text
  import opened HeaderFields

  // ---- comma-separated values

  function FirstItem(value: string): string {
    var comma := Find(value, ",", 0);
    TrimBlank(if comma == -1 then value else value[..comma])
  }

  /** The items of a list value, without the blanks around them. */
  function Items(value: string): seq<string>
    decreases |value|
  {
    var comma := Find(value, ",", 0);
    if comma == -1 then [FirstItem(value)] else [FirstItem(value)] + Items(value[comma + 1..])
  }

  predicate HasToken(value: string, token: string) {
    exists i :: 0 <= i < |Items(value)| && Items(value)[i] != "" && EqualsIgnoreCase(Items(value)[i], token)
  }

  /** `header_value_has_token` */
  method ValueHasToken(value: string, token: string) returns (found: bool)
    ensures found == HasToken(value, token)
  {
    var rest := value;
    ghost var seen: seq<string> := [];
    while true
      invariant Items(value) == seen + Items(rest)
      invariant forall i :: 0 <= i < |seen| ==> seen[i] == "" || !EqualsIgnoreCase(seen[i], token)
      decreases |rest|
    {
      var comma := Find(rest, ",", 0);
      var candidate := FirstItem(rest);
      assert Items(value)[|seen|] == candidate;
      if candidate != "" && EqualsIgnoreCase(candidate, token) { return true; }
      seen := seen + [candidate];
      if comma == -1 { break; }
      rest := rest[comma + 1..];
    }
    found := false;
  }

  // ---- what a parsed head records

  datatype Head = Head(
    startLine: string,
    headers: seq<Field>,
    contentLength: Option<nat>,
    codings: nat,
    finalChunked: bool,
    hosts: nat,
    invalidHost: bool,
    close: bool,
    keepAlive: bool,
    hasExpect: bool,
    expectContinue: bool)
  {
    predicate Chunked() {
      codings != 0
    }
  }

  /** All lengths announced so far have to agree. */
  function TakeLengths(known: Option<nat>, items: seq<string>): Option<Option<nat>>
    decreases |items|
  {
    if items == [] then Some(known)
    else
      var parsed := ParseNumber(items[0], 10);
      if parsed.None? || (known.Some? && known != parsed) then None else TakeLengths(parsed, items[1..])
  }

  predicate ValidCodings(items: seq<string>) {
    forall i :: 0 <= i < |items| ==> items[i] != "" && Free(items[i], ';')
  }

  /** One field: it is validated, kept, and the controls it carries are recorded. */
  function TakeField(head: Head, name: string, value: string): Option<Head> {
    if !ValidName(name) || !ValidValue(value) then None
    else
      var kept := head.(headers := head.headers + [(name, value)]);
      if EqualsIgnoreCase(name, "Host") then
        Some(kept.(hosts := head.hosts + 1, invalidHost := head.invalidHost || value == "" || !Free(value, ',')))
      else if EqualsIgnoreCase(name, "Expect") then
        Some(kept.(hasExpect := true, expectContinue := head.expectContinue || HasToken(value, "100-continue")))
      else if EqualsIgnoreCase(name, "Connection") then
        Some(kept.(close := head.close || HasToken(value, "close"), keepAlive := head.keepAlive || HasToken(value, "keep-alive")))
      else if EqualsIgnoreCase(name, "Content-Length") then
        var length := TakeLengths(head.contentLength, Items(value));
        if length.None? then None else Some(kept.(contentLength := length.value))
      else if EqualsIgnoreCase(name, "Transfer-Encoding") then
        var items := Items(value);
        if !ValidCodings(items) then None
        else Some(kept.(codings := head.codings + |items|, finalChunked := EqualsIgnoreCase(items[|items| - 1], "chunked")))
      else Some(kept)
  }

  /** One line: a folded line or a line without a colon is rejected. */
  function TakeLine(head: Head, line: string): Option<Head>
    requires line != ""
  {
    var colon := Find(line, ":", 0);
    if Blank(line[0]) || colon == -1 then None
    else TakeField(head, line[..colon], TrimBlank(line[colon + 1..]))
  }

  /** The fields from `cursor` on, one line each. */
  function TakeLines(input: string, cursor: nat, head: Head): Option<Head>
    decreases |input| - cursor
  {
    if cursor >= |input| then Some(head)
    else
      var end := Find(input, CRLF, cursor);
      if end == -1 then None
      else
        var line := input[cursor..end];
        if line == "" then Some(head)
        else
          var next := TakeLine(head, line);
          if next.None? then None else TakeLines(input, end + 2, next.value)
  }

  function NewHead(startLine: string): Head {
    Head(startLine, [], None, 0, false, 0, false, false, false, false, false)
  }

  /** A transfer coding excludes a length, and the only supported one is `chunked` alone. */
  predicate CodingsAccepted(head: Head) {
    head.codings != 0 ==> head.contentLength.None? && head.finalChunked && head.codings == 1
  }

  function ParsedHead(input: string): Option<Head> {
    var first := Find(input, CRLF, 0);
    if first == -1 || first == 0 || !ValidValue(input[..first]) then None
    else
      var head := TakeLines(input, first + 2, NewHead(input[..first]));
      if head.None? || !CodingsAccepted(head.value) then None else head
  }

  // ---- the implementation of the parser

  /** The visitor of `Content-Length` values. */
  method VisitLengths(known: Option<nat>, items: seq<string>) returns (r: Option<Option<nat>>)
    ensures r == TakeLengths(known, items)
  {
    var length := known;
    for i := 0 to |items|
      invariant TakeLengths(known, items) == TakeLengths(length, items[i..])
    {
      assert items[i..][0] == items[i] && items[i..][1..] == items[i + 1..];
      if items[i] == "" { return None; }
      var parsed := ParseNumber(items[i], 10);
      if parsed.None? { return None; }
      if length.Some? && length != parsed { return None; }
      length := parsed;
    }
    r := Some(length);
  }

  /** The visitor of `Transfer-Encoding` values. */
  method VisitCodings(items: seq<string>) returns (valid: bool)
    ensures valid == ValidCodings(items)
  {
    for i := 0 to |items|
      invariant forall j :: 0 <= j < i ==> items[j] != "" && Free(items[j], ';')
    {
      if items[i] == "" || !Free(items[i], ';') { return false; }
    }
    valid := true;
  }

  /** The part of `parse_head` that looks at one field: the names are told apart by their length first. */
  method VisitField(head: Head, name: string, value: string) returns (r: Option<Head>)
    ensures r == TakeField(head, name, value)
  {
    if !ValidName(name) || !ValidValue(value) { return None; }
    var next := head.(headers := head.headers + [(name, value)]);
    match |name| {
      case 4 =>
        if EqualsIgnoreCase(name, "Host") {
          next := next.(hosts := head.hosts + 1, invalidHost := head.invalidHost || value == "" || !Free(value, ','));
        }
      case 6 =>
        if EqualsIgnoreCase(name, "Expect") {
          var token := ValueHasToken(value, "100-continue");
          next := next.(hasExpect := true, expectContinue := head.expectContinue || token);
        }
      case 10 =>
        if EqualsIgnoreCase(name, "Connection") {
          var close := ValueHasToken(value, "close");
          var keep := ValueHasToken(value, "keep-alive");
          next := next.(close := head.close || close, keepAlive := head.keepAlive || keep);
        }
      case 14 =>
        if EqualsIgnoreCase(name, "Content-Length") {
          var length := VisitLengths(head.contentLength, Items(value));
          if length.None? { return None; }
          next := next.(contentLength := length.value);
        }
      case 17 =>
        if EqualsIgnoreCase(name, "Transfer-Encoding") {
          var items := Items(value);
          var valid := VisitCodings(items);
          if !valid { return None; }
          next := next.(codings := head.codings + |items|, finalChunked := EqualsIgnoreCase(items[|items| - 1], "chunked"));
        }
      case _ =>
    }
    r := Some(next);
  }

  method VisitLine(head: Head, line: string) returns (r: Option<Head>)
    requires line != ""
    ensures r == TakeLine(head, line)
  {
    if Blank(line[0]) { return None; }
    var colon := Find(line, ":", 0);
    if colon == -1 { return None; }
    r := VisitField(head, line[..colon], TrimBlank(line[colon + 1..]));
  }

  /** `parse_head` */
  method ParseHead(input: string) returns (r: Option<Head>)
    ensures r == ParsedHead(input)
  {
    hide TakeLine, ValidValue, At;
    var first := Find(input, CRLF, 0);
    FoundWithin(input, CRLF, 0);
    if first == -1 || first == 0 { return None; }
    if !ValidValue(input[..first]) { return None; }
    var head := NewHead(input[..first]);
    var cursor: nat := first + 2;
    ghost var whole := TakeLines(input, cursor, head);
    while cursor < |input|
      invariant TakeLines(input, cursor, head) == whole
      decreases |input| - cursor
    {
      var end := Find(input, CRLF, cursor);
      FoundWithin(input, CRLF, cursor);
      if end == -1 { return None; }
      var line := input[cursor..end];
      if line == "" { break; }
      var next := VisitLine(head, line);
      if next.None? { return None; }
      head := next.value;
      cursor := end + 2;
    }
    if head.codings != 0 {
      if head.contentLength.Some? { return None; }
      if !head.finalChunked { return None; }
      if head.codings != 1 { return None; }
    }
    r := Some(head);
  }

  // ---- printing a head with generated fields

  /** The index of the first override with this name, or the number of overrides. */
  function OverrideIndex(name: string, overrides: seq<Field>): (i: nat)
    ensures i <= |overrides|
    ensures i < |overrides| ==> EqualsIgnoreCase(name, overrides[i].0)
    ensures forall j :: 0 <= j < i ==> !EqualsIgnoreCase(name, overrides[j].0)
  {
    if overrides == [] then 0
    else if EqualsIgnoreCase(name, overrides[0].0) then 0
    else 1 + OverrideIndex(name, overrides[1..])
  }

  predicate Omitted(name: string, omitted: seq<string>) {
    exists i :: 0 <= i < |omitted| && EqualsIgnoreCase(name, omitted[i])
  }

  /** The fields that are printed in place of `headers`; `emitted` are the overrides used before. */
  function Substituted(headers: seq<Field>, overrides: seq<Field>, omitted: seq<string>, emitted: set<nat>): seq<Field>
    decreases |headers|
  {
    if headers == [] then []
    else
      var (name, _) := headers[0];
      var i := OverrideIndex(name, overrides);
      if Omitted(name, omitted) then Substituted(headers[1..], overrides, omitted, emitted)
      else if i == |overrides| then [headers[0]] + Substituted(headers[1..], overrides, omitted, emitted)
      else (if i in emitted then [] else [overrides[i]]) + Substituted(headers[1..], overrides, omitted, emitted + {i})
  }

  /** The overrides that the headers have used up. */
  function Used(headers: seq<Field>, overrides: seq<Field>, omitted: seq<string>): set<nat> {
    if headers == [] then {}
    else
      var i := OverrideIndex(headers[0].0, overrides);
      Used(headers[1..], overrides, omitted) +
      if Omitted(headers[0].0, omitted) || i == |overrides| then {} else {i}
  }

  /** The overrides from `from` on that no header has used. */
  function Unused(overrides: seq<Field>, used: set<nat>, from: nat): seq<Field>
    decreases |overrides| - from
  {
    if from >= |overrides| then []
    else (if from in used then [] else [overrides[from]]) + Unused(overrides, used, from + 1)
  }

  function Emitted(headers: seq<Field>, overrides: seq<Field>, omitted: seq<string>): seq<Field> {
    Substituted(headers, overrides, omitted, {}) + Unused(overrides, Used(headers, overrides, omitted), 0)
  }

  predicate AllValid(fields: seq<Field>) {
    forall i :: 0 <= i < |fields| ==> ValidName(fields[i].0) && ValidValue(fields[i].1)
  }

  function PrintedHead(startLine: string, headers: seq<Field>, overrides: seq<Field>, omitted: seq<string>): Option<string> {
    if !OneLine(startLine) || |overrides| > 8 || !AllValid(headers) || !AllValid(overrides) then None
    else Some(startLine + CRLF + FieldLines(Emitted(headers, overrides, omitted)) + CRLF)
  }

  lemma SubstitutedSnoc(headers: seq<Field>, i: nat, overrides: seq<Field>, omitted: seq<string>)
    requires i < |headers|
    ensures var name := headers[i].0;
            var k := OverrideIndex(name, overrides);
            var before := Used(headers[..i], overrides, omitted);
            && Used(headers[..i + 1], overrides, omitted) ==
               before + (if Omitted(name, omitted) || k == |overrides| then {} else {k})
            && Substituted(headers[..i + 1], overrides, omitted, {}) ==
               Substituted(headers[..i], overrides, omitted, {}) +
               (if Omitted(name, omitted) then []
                else if k == |overrides| then [headers[i]]
                else if k in before then [] else [overrides[k]])
  {
    assert headers[..i + 1] == headers[..i] + [headers[i]];
    SubstitutedAppend(headers[..i], headers[i], overrides, omitted, {});
  }

  lemma {:induction false} SubstitutedAppend(a: seq<Field>, last: Field, overrides: seq<Field>, omitted: seq<string>, emitted: set<nat>)
    ensures var k := OverrideIndex(last.0, overrides);
            var before := Used(a, overrides, omitted);
            && Used(a + [last], overrides, omitted) == before + (if Omitted(last.0, omitted) || k == |overrides| then {} else {k})
            && Substituted(a + [last], overrides, omitted, emitted) ==
               Substituted(a, overrides, omitted, emitted) +
               (if Omitted(last.0, omitted) then []
                else if k == |overrides| then [last]
                else if k in before || k in emitted then [] else [overrides[k]])
    decreases |a|
  {
    hide Omitted, EqualsIgnoreCase;
    if a == [] {
      assert ([last])[1..] == [];
      assert a + [last] == [last];
    } else {
      assert (a + [last])[1..] == a[1..] + [last];
      var i := OverrideIndex(a[0].0, overrides);
      var next := if Omitted(a[0].0, omitted) || i == |overrides| then emitted else emitted + {i};
      SubstitutedAppend(a[1..], last, overrides, omitted, next);
    }
  }

  /** `serialize_head` */
  method SerializeHead(startLine: string, headers: seq<Field>, overrides: seq<Field>, omitted: seq<string>)
    returns (r: Option<string>)
    ensures r == PrintedHead(startLine, headers, overrides, omitted)
  {
    if !OneLine(startLine) || |overrides| > 8 || !AllValid(headers) || !AllValid(overrides) { return None; }
    var lines := PrintFields(headers, overrides, omitted);
    r := Some(startLine + CRLF + lines + CRLF);
  }

  /** The two loops of `serialize_head`: the caller's fields with substitutions, then the unused overrides. */
  method PrintFields(headers: seq<Field>, overrides: seq<Field>, omitted: seq<string>) returns (output: string)
    ensures output == FieldLines(Emitted(headers, overrides, omitted))
  {
    hide Omitted, EqualsIgnoreCase, FieldLines, Substituted, Used, Unused, OverrideIndex;
    output := "";
    var emitted: set<nat> := {};
    ghost var fields: seq<Field> := [];
    NothingPrinted(overrides, omitted);
    assert headers[..0] == [];
    for i := 0 to |headers|
      invariant emitted == Used(headers[..i], overrides, omitted)
      invariant fields == Substituted(headers[..i], overrides, omitted, {})
      invariant output == FieldLines(fields)
    {
      SubstitutedSnoc(headers, i, overrides, omitted);
      var (name, value) := headers[i];
      if Omitted(name, omitted) { continue; }
      var k := OverrideIndex(name, overrides);
      if k < |overrides| {
        if k !in emitted {
          emitted := emitted + {k};
          PrintOne(fields, overrides[k]);
          output := output + (overrides[k].0 + ": " + overrides[k].1 + CRLF);
          fields := fields + [overrides[k]];
        }
        continue;
      }
      PrintOne(fields, headers[i]);
      output := output + (name + ": " + value + CRLF);
      fields := fields + [headers[i]];
    }
    assert headers[..|headers|] == headers;
    var rest := PrintUnused(overrides, emitted);
    FieldLinesAppend(fields, Unused(overrides, emitted, 0));
    output := output + rest;
  }

  method PrintUnused(overrides: seq<Field>, used: set<nat>) returns (output: string)
    ensures output == FieldLines(Unused(overrides, used, 0))
  {
    hide Unused, FieldLines;
    output := "";
    ghost var fields: seq<Field> := [];
    ghost var all := Unused(overrides, used, 0);
    NothingUnused(overrides, used);
    assert [] + all == all;
    for k := 0 to |overrides|
      invariant all == fields + Unused(overrides, used, k)
      invariant output == FieldLines(fields)
    {
      UnusedStep(overrides, used, k, fields);
      if k in used { continue; }
      PrintOne(fields, overrides[k]);
      output := output + (overrides[k].0 + ": " + overrides[k].1 + CRLF);
      fields := fields + [overrides[k]];
    }
    assert fields + [] == fields;
  }

  lemma UnusedStep(overrides: seq<Field>, used: set<nat>, k: nat, fields: seq<Field>)
    requires k < |overrides|
    ensures fields + Unused(overrides, used, k) ==
            (if k in used then fields else fields + [overrides[k]]) + Unused(overrides, used, k + 1)
  {}

  lemma NothingUnused(overrides: seq<Field>, used: set<nat>)
    ensures Unused(overrides, used, |overrides|) == [] && FieldLines([]) == ""
  {}

  lemma NothingPrinted(overrides: seq<Field>, omitted: seq<string>)
    ensures Used([], overrides, omitted) == {} && Substituted([], overrides, omitted, {}) == [] && FieldLines([]) == ""
  {}

  lemma PrintOne(fields: seq<Field>, field: Field)
    ensures FieldLines(fields + [field]) == FieldLines(fields) + (field.0 + ": " + field.1 + CRLF)
  {
    FieldLinesAppend(fields, [field]);
    FieldLinesOne(field);
  }
}
