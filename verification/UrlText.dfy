/** Percent escapes and query strings. One `char` below 256 stands for one byte. */
module UrlText {
  import opened Wrappers
  import opened Text

  // ---- escapes

  /** `url_decode`; a plus sign stands for a space if `plus` is set. */
  function Unescaped(s: string, plus: bool): Option<string>
    decreases |s|
  {
    if s == "" then Some("")
    else if s[0] == '%' then
      if |s| < 3 then None
      else
        var high, low := DigitValue(s[1]), DigitValue(s[2]);
        if high.None? || low.None? then None else Prepended(ByteChar(high.value, low.value), Unescaped(s[3..], plus))
    else Prepended(if plus && s[0] == '+' then ' ' else s[0], Unescaped(s[1..], plus))
  }

  function Prepended(c: char, rest: Option<string>): Option<string> {
    if rest.None? then None else Some([c] + rest.value)
  }

  function ByteChar(high: nat, low: nat): char {
    if high < 16 && low < 16 then (high * 16 + low) as char else '?'
  }

  /** The loop of `url_decode`. */
  method UrlDecode(value: string, plus: bool) returns (r: Option<string>)
    ensures r == Unescaped(value, plus)
  {
    if Find(value, "%", 0) == -1 && (!plus || Find(value, "+", 0) == -1) {
      NothingEscaped(value, plus);
      return Some(value);
    }
    var output := "";
    var index := 0;
    assert value[0..] == value;
    ghost var all := Unescaped(value, plus);
    WithOutput("", all);
    while index < |value|
      invariant 0 <= index <= |value|
      invariant all == Behind(output, Unescaped(value[index..], plus))
    {
      ghost var rest := value[index..];
      if value[index] == '%' {
        if index + 2 >= |value| { return None; }
        var high, low := DigitValue(value[index + 1]), DigitValue(value[index + 2]);
        if high.None? || low.None? { return None; }
        assert rest[1] == value[index + 1] && rest[2] == value[index + 2] && rest[3..] == value[index + 3..];
        OneMore(output, ByteChar(high.value, low.value), Unescaped(value[index + 3..], plus));
        output := output + [ByteChar(high.value, low.value)];
        index := index + 2;
      } else {
        var c := if plus && value[index] == '+' then ' ' else value[index];
        assert rest[1..] == value[index + 1..];
        OneMore(output, c, Unescaped(value[index + 1..], plus));
        output := output + [c];
      }
      index := index + 1;
    }
    assert value[index..] == "";
    assert output + "" == output;
    r := Some(output);
  }

  function Behind(output: string, rest: Option<string>): Option<string> {
    if rest.None? then None else Some(output + rest.value)
  }

  lemma WithOutput(output: string, rest: Option<string>)
    ensures Behind("", rest) == rest
  {
    if rest.Some? { assert "" + rest.value == rest.value; }
  }

  lemma OneMore(output: string, c: char, rest: Option<string>)
    ensures Behind(output, Prepended(c, rest)) == Behind(output + [c], rest)
  {
    if rest.Some? { assert output + ([c] + rest.value) == output + [c] + rest.value; }
  }

  lemma NothingEscaped(value: string, plus: bool)
    requires Find(value, "%", 0) == -1 && (!plus || Find(value, "+", 0) == -1)
    ensures Unescaped(value, plus) == Some(value)
  {
    assert "%" == ['%'] && "+" == ['+'];
    forall i | 0 <= i < |value| ensures value[i] != '%' && (plus ==> value[i] != '+') {
      CharAt(value, i, '%');
      CharAt(value, i, '+');
    }
    PlainIsKept(value, plus);
  }

  lemma {:induction false} PlainIsKept(s: string, plus: bool)
    requires Free(s, '%') && (plus ==> Free(s, '+'))
    ensures Unescaped(s, plus) == Some(s)
  {
    if s != "" {
      PlainIsKept(s[1..], plus);
      assert s == [s[0]] + s[1..];
    }
  }

  predicate IsHex(c: char) {
    '0' <= c <= '9' || 'a' <= c <= 'f' || 'A' <= c <= 'F'
  }

  /** Two hexadecimal digits follow a percent sign. */
  predicate EscapeAt(s: string, i: nat)
    requires i < |s|
  {
    s[i] == '%' ==> i + 2 < |s| && IsHex(s[i + 1]) && IsHex(s[i + 2])
  }

  predicate WellEscaped(s: string) {
    forall i :: 0 <= i < |s| ==> EscapeAt(s, i)
  }

  lemma EscapeBehind(s: string, n: nat)
    requires n <= |s| && forall i :: 0 <= i < n ==> EscapeAt(s, i)
    ensures WellEscaped(s) <==> WellEscaped(s[n..])
  {
    hide IsHex;
    var rest := s[n..];
    forall i | 0 <= i < |rest| ensures EscapeAt(rest, i) == EscapeAt(s, i + n) {}
    if WellEscaped(rest) {
      forall i | 0 <= i < |s| ensures EscapeAt(s, i) { if i >= n { assert EscapeAt(rest, i - n); } }
    }
  }

  lemma FirstEscape(s: string, plus: bool)
    requires s != ""
    ensures !EscapeAt(s, 0) ==> Unescaped(s, plus) == None
    ensures EscapeAt(s, 0) ==>
              var n := if s[0] == '%' then 3 else 1;
              && n <= |s| && (forall i :: 0 <= i < n ==> EscapeAt(s, i))
              && Unescaped(s, plus).Some? == Unescaped(s[n..], plus).Some?
  {}

  /** A text can be decoded exactly when two hexadecimal digits follow each percent sign. */
  lemma {:induction false} DecodableTexts(s: string, plus: bool)
    ensures Unescaped(s, plus).Some? <==> WellEscaped(s)
    decreases |s|
  {
    if s != "" {
      FirstEscape(s, plus);
      if EscapeAt(s, 0) {
        var n := if s[0] == '%' then 3 else 1;
        EscapeBehind(s, n);
        DecodableTexts(s[n..], plus);
      }
      hide EscapeAt, Unescaped;
    }
  }

  // ---- encoding

  predicate IsBytes(s: string) {
    forall i :: 0 <= i < |s| ==> s[i] as int < 256
  }

  predicate Unreserved(c: char) {
    'a' <= c <= 'z' || 'A' <= c <= 'Z' || '0' <= c <= '9' || c == '-' || c == '_' || c == '.' || c == '~'
  }

  function UpperDigit(d: nat): char
    requires d < 16
  {
    "0123456789ABCDEF"[d]
  }

  function EscapedChar(c: char, plus: bool): string
    requires c as int < 256
  {
    if Unreserved(c) then [c]
    else if plus && c == ' ' then "+"
    else ['%', UpperDigit(c as int / 16), UpperDigit(c as int % 16)]
  }

  function Escaped(s: string, plus: bool): string
    requires IsBytes(s)
  {
    if s == "" then "" else EscapedChar(s[0], plus) + Escaped(s[1..], plus)
  }

  /** `url_encode` */
  method UrlEncode(value: string, plus: bool) returns (output: string)
    requires IsBytes(value)
    ensures output == Escaped(value, plus)
  {
    hide EscapedChar;
    output := "";
    assert value[0..] == value && "" + Escaped(value, plus) == Escaped(value, plus);
    for i := 0 to |value|
      invariant Escaped(value, plus) == output + Escaped(value[i..], plus)
    {
      assert value[i..][0] == value[i] && value[i..][1..] == value[i + 1..];
      Regroup(output, EscapedChar(value[i], plus), Escaped(value[i + 1..], plus));
      output := output + EscapedChar(value[i], plus);
    }
    assert value[|value|..] == "" && output + "" == output;
  }

  lemma DigitComesBack(d: nat)
    requires d < 16
    ensures DigitValue(UpperDigit(d)) == Some(d)
  {}

  lemma CharIsDecoded(c: char, encoded: bool, plus: bool, rest: string)
    requires c as int < 256 && (encoded ==> plus)
    ensures Unescaped(EscapedChar(c, encoded) + rest, plus) == Prepended(c, Unescaped(rest, plus))
  {
    var s := EscapedChar(c, encoded) + rest;
    if Unreserved(c) || (encoded && c == ' ') {
      assert s[1..] == rest;
    } else {
      DigitComesBack(c as int / 16);
      DigitComesBack(c as int % 16);
      hide DigitValue, UpperDigit;
      assert s[3..] == rest;
    }
  }

  /** Every text of bytes comes back from its encoding. */
  lemma {:induction false} EscapedComesBack(s: string, encoded: bool, plus: bool)
    requires IsBytes(s) && (encoded ==> plus)
    ensures Unescaped(Escaped(s, encoded), plus) == Some(s)
  {
    if s != "" {
      hide EscapedChar;
      CharIsDecoded(s[0], encoded, plus, Escaped(s[1..], encoded));
      EscapedComesBack(s[1..], encoded, plus);
      assert s == [s[0]] + s[1..];
    }
  }

  /** An encoding consists of unreserved characters, percent signs and, for spaces, plus signs. */
  lemma {:induction false} EscapedIsSafe(s: string, plus: bool)
    requires IsBytes(s)
    ensures forall i :: 0 <= i < |Escaped(s, plus)| ==> Unreserved(Escaped(s, plus)[i]) || Escaped(s, plus)[i] == '%' || (plus && Escaped(s, plus)[i] == '+')
  {
    if s != "" { EscapedIsSafe(s[1..], plus); }
  }

  // ---- queries

  type Parameter = (string, string)

  /** One part of a query: nothing for an empty part or an escape that cannot be decoded. */
  function PairOf(part: string): seq<Parameter> {
    var equal := Find(part, "=", 0);
    FoundWithin(part, "=", 0);
    var key := Unescaped(if equal == -1 then part else part[..equal], true);
    var value := if equal == -1 then Some("") else Unescaped(part[equal + 1..], true);
    if part == "" || key.None? || value.None? then [] else [(key.value, value.value)]
  }

  function Pairs(s: string): seq<Parameter>
    decreases |s|
  {
    var end := Find(s, "&", 0);
    FoundWithin(s, "&", 0);
    if end == -1 then PairOf(s) else PairOf(s[..end]) + Pairs(s[end + 1..])
  }

  function ParsedQuery(query: string): seq<Parameter> {
    Pairs(if query != "" && query[0] == '?' then query[1..] else query)
  }

  method ParsePair(part: string) returns (r: seq<Parameter>)
    ensures r == PairOf(part)
  {
    if part == "" { return []; }
    var equal := Find(part, "=", 0);
    FoundWithin(part, "=", 0);
    var key := UrlDecode(if equal == -1 then part else part[..equal], true);
    var value := Some("");
    if equal != -1 { value := UrlDecode(part[equal + 1..], true); }
    r := if key.Some? && value.Some? then [(key.value, value.value)] else [];
  }

  lemma PairsFrom(s: string, start: nat)
    requires start <= |s|
    ensures var end := Find(s, "&", start);
            && (end == -1 || start <= end < |s|)
            && Pairs(s[start..]) == if end == -1 then PairOf(s[start..]) else PairOf(s[start..end]) + Pairs(s[end + 1..])
  {
    FindInSuffix(s, "&", start);
    FoundWithin(s, "&", start);
    hide Find, At, PairOf;
    var end, rest := Find(s, "&", start), s[start..];
    if end != -1 { assert rest[..end - start] == s[start..end] && rest[end - start + 1..] == s[end + 1..]; }
  }

  /** `parse_query` */
  method ParseQuery(query: string) returns (result: seq<Parameter>)
    ensures result == ParsedQuery(query)
  {
    hide PairOf, Pairs, Find, At;
    result := [];
    var text := if query != "" && query[0] == '?' then query[1..] else query;
    var start := 0;
    assert text[0..] == text;
    ghost var all, todo := Pairs(text), Pairs(text);
    while start <= |text|
      invariant 0 <= start <= |text|
      invariant todo == Pairs(text[start..]) && all == result + todo
      decreases |text| - start
    {
      PairsFrom(text, start);
      var end := Find(text, "&", start);
      var pair := ParsePair(if end == -1 then text[start..] else text[start..end]);
      result := result + pair;
      if end == -1 { break; }
      todo := Pairs(text[end + 1..]);
      start := end + 1;
    }
  }

  predicate AllBytes(params: seq<Parameter>) {
    forall i :: 0 <= i < |params| ==> IsBytes(params[i].0) && IsBytes(params[i].1)
  }

  function PairText(p: Parameter): string
    requires IsBytes(p.0) && IsBytes(p.1)
  {
    Escaped(p.0, true) + "=" + Escaped(p.1, true)
  }

  function QueryText(params: seq<Parameter>): string
    requires AllBytes(params)
  {
    if params == [] then ""
    else PairText(params[0]) + if |params| == 1 then "" else "&" + QueryText(params[1..])
  }

  /** `make_query` */
  method MakeQuery(params: seq<Parameter>) returns (output: string)
    requires AllBytes(params)
    ensures output == QueryText(params)
  {
    hide Escaped;
    output := "";
    ghost var all := QueryText(params);
    assert params[0..] == params && "" + all == all;
    for i := 0 to |params|
      invariant output == "" <==> i == 0
      invariant all == output + (if i == 0 || i == |params| then "" else "&") + QueryText(params[i..])
    {
      ghost var before := output;
      assert params[i..][0] == params[i] && params[i..][1..] == params[i + 1..];
      if output != "" { output := output + "&"; }
      var key := UrlEncode(params[i].0, true);
      var value := UrlEncode(params[i].1, true);
      output := output + key;
      output := output + "=";
      output := output + value;
      assert output == before + (if i == 0 then "" else "&") + PairText(params[i]);
    }
    assert params[|params|..] == [] && output + "" + "" == output;
  }

  lemma EscapedIsFree(s: string, c: char)
    requires IsBytes(s) && !Unreserved(c) && c != '%' && c != '+'
    ensures Free(Escaped(s, true), c)
  {
    EscapedIsSafe(s, true);
  }

  lemma PairIsFree(p: Parameter)
    requires IsBytes(p.0) && IsBytes(p.1)
    ensures Free(PairText(p), '&')
  {
    EscapedIsFree(p.0, '&');
    EscapedIsFree(p.1, '&');
    hide Escaped;
  }

  lemma SplitAtFirst(front: string, c: char, rest: string)
    requires Free(front, c)
    ensures var s := front + [c] + rest; Find(s, [c], 0) == |front| && s[..|front|] == front && s[|front| + 1..] == rest
  {
    var s := front + [c] + rest;
    AtInMiddle(front, [c], rest);
    forall j | 0 <= j < |front| ensures !At(s, j, [c]) { assert s[j..j + 1][0] == front[j]; }
    FindIs(s, [c], 0, |front|);
  }

  lemma PairComesBack(p: Parameter)
    requires IsBytes(p.0) && IsBytes(p.1)
    ensures PairOf(PairText(p)) == [p]
  {
    EscapedIsFree(p.0, '=');
    EscapedComesBack(p.0, true, true);
    EscapedComesBack(p.1, true, true);
    hide Escaped, Unescaped, Find;
    assert "=" == ['='];
    SplitAtFirst(Escaped(p.0, true), '=', Escaped(p.1, true));
  }

  /** The pairs of a printed query come back in order, whatever bytes they contain. */
  lemma {:induction false} QueryComesBack(params: seq<Parameter>)
    requires AllBytes(params)
    ensures Pairs(QueryText(params)) == params
    decreases |params|
  {
    hide PairOf, PairText, Find;
    assert "&" == ['&'];
    if params == [] {
      FindAbsent("", '&');
      NoPair();
    } else {
      PairIsFree(params[0]);
      PairComesBack(params[0]);
      if |params| == 1 {
        FindAbsent(PairText(params[0]), '&');
        assert PairText(params[0]) + "" == PairText(params[0]);
        assert params == [params[0]];
      } else {
        SplitAtFirst(PairText(params[0]), '&', QueryText(params[1..]));
        assert PairText(params[0]) + ("&" + QueryText(params[1..])) == PairText(params[0]) + "&" + QueryText(params[1..]);
        QueryComesBack(params[1..]);
        assert params == [params[0]] + params[1..];
      }
    }
  }

  lemma NoPair()
    ensures PairOf("") == []
  {}

  /** `parse_query` inverts `make_query`, with or without a question mark in front. */
  lemma QueryRoundTrip(params: seq<Parameter>)
    requires AllBytes(params)
    ensures ParsedQuery(QueryText(params)) == params && ParsedQuery("?" + QueryText(params)) == params
  {
    var text := QueryText(params);
    QueryComesBack(params);
    assert ("?" + text)[1..] == text;
    if params != [] {
      EscapedIsFree(params[0].0, '?');
      var key := Escaped(params[0].0, true);
      assert text[0] == if key == "" then '=' else key[0];
    }
  }

  /** A part without an equals sign is a key with an empty value, and the first equals sign ends the key. */
  lemma PartsOfQuery(key: string, value: string, rest: string)
    requires Free(key, '&') && Free(value, '&') && Free(key, '=') && Free(key, '%') && Free(key, '+') && Free(value, '%') && Free(value, '+')
    requires key != ""
    ensures Pairs(key + "=" + value + "&" + rest) == [(key, value)] + Pairs(rest)
    ensures Pairs(key + "&" + rest) == [(key, "")] + Pairs(rest)
    ensures Pairs("&" + rest) == Pairs(rest)
  {
    var part := key + "=" + value;
    PlainIsKept(key, true);
    PlainIsKept(value, true);
    assert Free(part, '&');
    hide Unescaped, Find;
    assert "&" == ['&'] && "=" == ['='];
    SplitAtFirst(key, '=', value);
    FindAbsent(key, '=');
    SplitAtFirst(part, '&', rest);
    SplitAtFirst(key, '&', rest);
    SplitAtFirst("", '&', rest);
    assert "" + ['&'] + rest == "&" + rest && [] + Pairs(rest) == Pairs(rest);
    NoPair();
  }
}
