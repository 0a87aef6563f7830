/** Route patterns: compiling them to segments, and the backtracking matcher that binds path parameters. */
module RoutePatterns {
  import opened Wrappers
  import opened Text
  import opened UrlText

  datatype Segment = Literal(text: string) | Parameter(name: string) | Wildcard

  /** A pattern without variable parts, one the segment matcher handles, or a regular expression. */
  datatype Pattern = Exact(text: string) | Linear(segments: seq<Segment>) | Expression(text: string)

  type Capture = (string, string)

  // ---- what a match is

  predicate FitsSegment(segment: Segment, value: string, last: bool) {
    match segment
    case Literal(text) => value == text
    case Parameter(_) => value != "" && Free(value, '/')
    case Wildcard => last
  }

  /** One value for each segment. */
  predicate Fits(segments: seq<Segment>, values: seq<string>) {
    |values| == |segments| && forall i :: 0 <= i < |segments| ==> FitsSegment(segments[i], values[i], i == |segments| - 1)
  }

  predicate Decomposes(segments: seq<Segment>, path: string, values: seq<string>) {
    Fits(segments, values) && Join(values) == path
  }

  /** Earlier values are as long as possible. */
  predicate AsGreedy(a: seq<string>, b: seq<string>)
    requires |a| == |b|
  {
    a == [] || |a[0]| > |b[0]| || (|a[0]| == |b[0]| && AsGreedy(a[1..], b[1..]))
  }

  function Captured(segments: seq<Segment>, values: seq<string>): seq<Capture>
    requires |segments| == |values|
  {
    if segments == [] then []
    else
      (match segments[0]
       case Literal(_) => []
       case Parameter(name) => [(name, values[0])]
       case Wildcard => [("wildcard", values[0])]) + Captured(segments[1..], values[1..])
  }

  // ---- the matcher

  /** How long a parameter may be: up to the next slash. */
  function Limit(path: string): (n: nat)
    ensures n <= |path|
  {
    var slash := Find(path, "/", 0);
    FoundWithin(path, "/", 0);
    if slash == -1 then |path| else slash
  }

  /** Tries the parameter lengths from `length` down to 1. */
  function GreedyFrom(segments: seq<Segment>, path: string, length: nat): (r: Option<seq<string>>)
    requires segments != [] && length <= |path|
    ensures r.Some? ==> |r.value| == |segments|
    decreases |segments|, length
  {
    if length == 0 then None
    else
      var more := Greedy(segments[1..], path[length..]);
      if more.Some? then Some([path[..length]] + more.value) else GreedyFrom(segments, path, length - 1)
  }

  /** The values that the matcher binds. */
  function Greedy(segments: seq<Segment>, path: string): (r: Option<seq<string>>)
    ensures r.Some? ==> |r.value| == |segments|
    decreases |segments|, |path| + 1
  {
    if segments == [] then (if path == "" then Some([]) else None)
    else
      match segments[0]
      case Wildcard => if |segments| == 1 then Some([path]) else None
      case Literal(text) =>
        if !At(path, 0, text) then None
        else
          var more := Greedy(segments[1..], path[|text|..]);
          if more.None? then None else Some([text] + more.value)
      case Parameter(_) => GreedyFrom(segments, path, Limit(path))
  }

  class Matcher {
    var captures: seq<Capture>
    var parameters: map<string, string>

    constructor ()
      ensures captures == [] && parameters == map[]
    {
      captures, parameters := [], map[];
    }

    /** `match_segments`: captures are pushed while trying and cut back when a try fails. */
    method MatchSegments(segments: seq<Segment>, index: nat, path: string) returns (matched: bool)
      requires index <= |segments|
      modifies this`captures
      ensures matched <==> Greedy(segments[index..], path).Some?
      ensures captures == if matched then old(captures) + Captured(segments[index..], Greedy(segments[index..], path).value) else old(captures)
      decreases |segments| - index
    {
      hide At, Find;
      var entry := |captures|;
      ghost var rest := segments[index..];
      if index == |segments| {
        if path == "" { return true; }
        captures := captures[..entry];
        return false;
      }
      assert rest[0] == segments[index] && rest[1..] == segments[index + 1..];
      match segments[index]
      case Wildcard =>
        if index + 1 != |segments| {
          captures := captures[..entry];
          return false;
        }
        captures := captures + [("wildcard", path)];
        matched := true;
      case Literal(text) =>
        if At(path, 0, text) {
          AtStart(path, text);
          var more := MatchSegments(segments, index + 1, path[|text|..]);
          if more {
            CapturedFirst(rest, text, Greedy(rest[1..], path[|text|..]).value);
            return true;
          }
        }
        captures := captures[..entry];
        matched := false;
      case Parameter(name) =>
        var limit := Limit(path);
        var length := limit;
        while length >= 1
          invariant 0 <= length <= limit && captures == old(captures)
          invariant Greedy(rest, path) == GreedyFrom(rest, path, length)
        {
          captures := captures + [(name, path[..length])];
          var more := MatchSegments(segments, index + 1, path[length..]);
          if more {
            CapturedFirst(rest, path[..length], Greedy(rest[1..], path[length..]).value);
            return true;
          }
          captures := captures[..entry];
          length := length - 1;
        }
        captures := captures[..entry];
        matched := false;
    }

    /** `match_pattern`; `search` stands for the regular expression engine. */
    method MatchPattern(pattern: Pattern, path: string, search: Search) returns (matched: bool)
      modifies this
      ensures matched <==> Matches(pattern, path, search)
      ensures parameters == if matched then Bound(old(parameters), Bindings(pattern, path, search)) else old(parameters)
    {
      hide Greedy, Captured, Decoded;
      match pattern
      case Exact(text) => matched := path == text;
      case Linear(segments) =>
        captures := [];
        assert segments[0..] == segments;
        matched := MatchSegments(segments, 0, path);
        if !matched { return; }
        assert [] + Captured(segments, Greedy(segments, path).value) == Captured(segments, Greedy(segments, path).value);
        Bind();
      case Expression(text) =>
        var found := search(text, path);
        if found.None? { return false; }
        captures := found.value;
        Bind();
        matched := true;
    }

    /** The loop that decodes the captures into parameters; an undecodable value is kept as it is. */
    method Bind()
      modifies this`parameters
      ensures parameters == Bound(old(parameters), captures)
    {
      hide Decoded;
      for i := 0 to |captures|
        invariant Bound(old(parameters), captures) == Bound(parameters, captures[i..])
      {
        assert captures[i..][0] == captures[i] && captures[i..][1..] == captures[i + 1..];
        parameters := parameters[captures[i].0 := Decoded(captures[i].1)];
      }
    }
  }

  lemma CapturedFirst(segments: seq<Segment>, value: string, more: seq<string>)
    requires segments != [] && |more| == |segments| - 1
    ensures Captured(segments, [value] + more) ==
            (match segments[0]
             case Literal(_) => []
             case Parameter(name) => [(name, value)]
             case Wildcard => [("wildcard", value)]) + Captured(segments[1..], more)
  {
    assert ([value] + more)[1..] == more;
  }

  /** A regular expression engine: the groups of a match, by parameter name. */
  type Search = (string, string) -> Option<seq<Capture>>

  predicate Matches(pattern: Pattern, path: string, search: Search) {
    match pattern
    case Exact(text) => path == text
    case Linear(segments) => Greedy(segments, path).Some?
    case Expression(text) => search(text, path).Some?
  }

  function Bindings(pattern: Pattern, path: string, search: Search): seq<Capture>
    requires Matches(pattern, path, search)
  {
    match pattern
    case Exact(_) => []
    case Linear(segments) => Captured(segments, Greedy(segments, path).value)
    case Expression(text) => search(text, path).value
  }

  // ---- parameters

  function Decoded(value: string): string {
    if Unescaped(value, false).Some? then Unescaped(value, false).value else value
  }

  /** The parameters after binding the captures in order. */
  function Bound(parameters: map<string, string>, captures: seq<Capture>): map<string, string>
    decreases |captures|
  {
    if captures == [] then parameters else Bound(parameters[captures[0].0 := Decoded(captures[0].1)], captures[1..])
  }

  /** Every parameter and the wildcard are captured with their values, and literals are not. */
  lemma {:induction false} CapturesOf(segments: seq<Segment>, values: seq<string>, i: nat)
    requires |segments| == |values| && i < |segments|
    ensures segments[i].Parameter? ==> (segments[i].name, values[i]) in Captured(segments, values)
    ensures segments[i].Wildcard? ==> ("wildcard", values[i]) in Captured(segments, values)
    ensures segments[i].Literal? ==> Captured(segments, values) == Captured(segments[..i] + segments[i + 1..], values[..i] + values[i + 1..])
    decreases |segments|
  {
    var rest, more := segments[1..], values[1..];
    if i > 0 {
      CapturesOf(rest, more, i - 1);
      assert rest[i - 1] == segments[i] && more[i - 1] == values[i];
      var others, their := segments[..i] + segments[i + 1..], values[..i] + values[i + 1..];
      assert others[1..] == rest[..i - 1] + rest[i..] && their[1..] == more[..i - 1] + more[i..];
    } else if segments[0].Literal? {
      assert segments[..0] + segments[1..] == rest && values[..0] + values[1..] == more;
      assert [] + Captured(rest, more) == Captured(rest, more);
    }
  }

  /** A value that was percent-encoded is bound decoded, and one that cannot be decoded is bound as it is. */
  lemma ValuesAreDecoded(value: string)
    ensures IsBytes(value) ==> Decoded(Escaped(value, false)) == value
    ensures !WellEscaped(value) ==> Decoded(value) == value
  {
    if IsBytes(value) { EscapedComesBack(value, false, false); }
    DecodableTexts(value, false);
    hide Escaped, Unescaped, WellEscaped;
  }

  /** The last capture of a name decides its parameter, and all others are kept. */
  lemma {:induction false} BoundValues(parameters: map<string, string>, captures: seq<Capture>, name: string)
    ensures (exists i :: 0 <= i < |captures| && captures[i].0 == name) ==>
              exists i :: 0 <= i < |captures| && captures[i].0 == name && (forall j :: i < j < |captures| ==> captures[j].0 != name)
                          && name in Bound(parameters, captures) && Bound(parameters, captures)[name] == Decoded(captures[i].1)
    ensures (forall i :: 0 <= i < |captures| ==> captures[i].0 != name) ==>
              (name in Bound(parameters, captures) <==> name in parameters) && (name in parameters ==> Bound(parameters, captures)[name] == parameters[name])
    decreases |captures|
  {
    hide Decoded;
    if captures != [] {
      var next, rest := parameters[captures[0].0 := Decoded(captures[0].1)], captures[1..];
      BoundValues(next, rest, name);
      assert forall i :: 0 <= i < |rest| ==> rest[i] == captures[i + 1];
      if exists i :: 0 <= i < |rest| && rest[i].0 == name {
        var i :| 0 <= i < |rest| && rest[i].0 == name && (forall j :: i < j < |rest| ==> rest[j].0 != name)
                 && name in Bound(next, rest) && Bound(next, rest)[name] == Decoded(rest[i].1);
        assert captures[i + 1].0 == name;
        forall j | i + 1 < j < |captures| ensures captures[j].0 != name { assert captures[j] == rest[j - 1]; }
      } else {
        forall j | 0 < j < |captures| ensures captures[j].0 != name { assert captures[j] == rest[j - 1]; }
        if captures[0].0 == name { assert name in Bound(next, rest) && Bound(next, rest)[name] == Decoded(captures[0].1); }
      }
    }
  }

  // ---- the matcher finds the greediest decomposition

  lemma LimitIsSlash(path: string, n: nat)
    requires n <= |path|
    ensures Free(path[..n], '/') <==> n <= Limit(path)
  {
    var slash := Find(path, "/", 0);
    FoundWithin(path, "/", 0);
    assert "/" == ['/'];
    if n <= Limit(path) {
      forall i | 0 <= i < n ensures path[..n][i] != '/' { CharAt(path, i, '/'); }
    } else {
      CharAt(path, slash, '/');
      assert path[..n][slash] == '/';
    }
  }

  lemma FitsFirst(segments: seq<Segment>, value: string, more: seq<string>)
    requires segments != [] && FitsSegment(segments[0], value, |segments| == 1) && Fits(segments[1..], more)
    ensures Fits(segments, [value] + more) && Join([value] + more) == value + Join(more)
  {
    hide FitsSegment;
    var values := [value] + more;
    assert values[1..] == more;
    forall i | 0 <= i < |segments| ensures FitsSegment(segments[i], values[i], i == |segments| - 1) {
      if i > 0 { assert segments[1..][i - 1] == segments[i] && more[i - 1] == values[i]; }
    }
  }

  lemma FitsRest(segments: seq<Segment>, values: seq<string>)
    requires segments != [] && Fits(segments, values)
    ensures FitsSegment(segments[0], values[0], |segments| == 1) && Fits(segments[1..], values[1..])
    ensures Join(values) == values[0] + Join(values[1..])
  {
    hide FitsSegment;
  }

  /** What is found is a decomposition. */
  lemma {:induction false} GreedyDecomposes(segments: seq<Segment>, path: string)
    requires Greedy(segments, path).Some?
    ensures Decomposes(segments, path, Greedy(segments, path).value)
    decreases |segments|, |path| + 1
  {
    hide At, Find, Limit;
    if segments != [] {
      match segments[0]
      case Wildcard =>
        assert [path][1..] == [];
        assert Join([path]) == path + "";
      case Literal(text) =>
        AtStart(path, text);
        GreedyDecomposes(segments[1..], path[|text|..]);
        FitsFirst(segments, text, Greedy(segments[1..], path[|text|..]).value);
      case Parameter(_) => GreedyFromDecomposes(segments, path, Limit(path));
    }
  }

  lemma AtStart(path: string, text: string)
    requires At(path, 0, text)
    ensures |text| <= |path| && path == text + path[|text|..]
  {}

  lemma {:induction false} GreedyFromDecomposes(segments: seq<Segment>, path: string, length: nat)
    requires segments != [] && segments[0].Parameter? && length <= Limit(path) && GreedyFrom(segments, path, length).Some?
    ensures Decomposes(segments, path, GreedyFrom(segments, path, length).value)
    decreases |segments|, length
  {
    hide At, Find, Limit;
    if length > 0 {
      var more := Greedy(segments[1..], path[length..]);
      if more.Some? {
        GreedyDecomposes(segments[1..], path[length..]);
        LimitIsSlash(path, length);
        FitsFirst(segments, path[..length], more.value);
        assert path == path[..length] + path[length..];
      } else {
        GreedyFromDecomposes(segments, path, length - 1);
      }
    }
  }

  /** Whenever there is a decomposition, one is found that is at least as greedy. */
  lemma {:induction false} GreedyIsBest(segments: seq<Segment>, path: string, values: seq<string>)
    requires Decomposes(segments, path, values)
    ensures Greedy(segments, path).Some? && AsGreedy(Greedy(segments, path).value, values)
    decreases |segments|, |path| + 1
  {
    hide At, Find, Limit;
    if segments != [] {
      FitsRest(segments, values);
      var first, more := values[0], values[1..];
      assert path[|first|..] == Join(more) && path[..|first|] == first;
      match segments[0]
      case Wildcard => assert |values| == 1 && more == [] && Join(more) == "";
      case Literal(text) =>
        StartAt(path, text);
        GreedyIsBest(segments[1..], path[|text|..], more);
        var found := Greedy(segments[1..], path[|text|..]).value;
        assert ([text] + found)[1..] == found;
      case Parameter(_) =>
        LimitIsSlash(path, |first|);
        GreedyFromIsBest(segments, path, values, Limit(path));
    }
  }

  lemma StartAt(path: string, text: string)
    requires |text| <= |path| && path[..|text|] == text
    ensures At(path, 0, text)
  {}

  lemma {:induction false} GreedyFromIsBest(segments: seq<Segment>, path: string, values: seq<string>, length: nat)
    requires segments != [] && segments[0].Parameter? && Decomposes(segments, path, values)
    requires |values[0]| <= length <= |path|
    ensures GreedyFrom(segments, path, length).Some? && AsGreedy(GreedyFrom(segments, path, length).value, values)
    decreases |segments|, length
  {
    FitsRest(segments, values);
    var first, rest := values[0], values[1..];
    assert path[|first|..] == Join(rest);
    var more := Greedy(segments[1..], path[length..]);
    if length == |first| {
      GreedyIsBest(segments[1..], path[length..], rest);
    }
    if more.Some? {
      assert ([path[..length]] + more.value)[1..] == more.value;
    } else {
      GreedyFromIsBest(segments, path, values, length - 1);
    }
  }

  /** A path matches exactly when it decomposes into the segments, and the values are the greediest ones. */
  lemma MatchIsGreediest(segments: seq<Segment>, path: string)
    ensures Greedy(segments, path).Some? <==> exists values :: Decomposes(segments, path, values)
    ensures Greedy(segments, path).Some? ==>
              && Decomposes(segments, path, Greedy(segments, path).value)
              && forall values :: Decomposes(segments, path, values) ==> AsGreedy(Greedy(segments, path).value, values)
  {
    hide Join, FitsSegment, Greedy, AsGreedy;
    if Greedy(segments, path).Some? { GreedyDecomposes(segments, path); }
    forall values | Decomposes(segments, path, values)
      ensures Greedy(segments, path).Some? && AsGreedy(Greedy(segments, path).value, values)
    {
      GreedyIsBest(segments, path, values);
    }
  }

  // ---- compiling a pattern

  predicate RegexSpecial(c: char) {
    c in ".^$|()[]{}+?\\"
  }

  datatype Compiling = Compiling(segments: seq<Segment>, pending: string, expression: string, wildcards: nat)

  function Flushed(c: Compiling): Compiling {
    if c.pending == "" then c else c.(segments := c.segments + [Literal(c.pending)], pending := "")
  }

  function WithSegment(c: Compiling, segment: Segment, expression: string): Compiling {
    var flushed := Flushed(c);
    flushed.(segments := flushed.segments + [segment], expression := c.expression + expression)
  }

  function NameEnd(pattern: string, from: nat): (end: nat)
    requires from <= |pattern|
    ensures from <= end <= |pattern|
    decreases |pattern| - from
  {
    if from == |pattern| || pattern[from] == '/' then from else NameEnd(pattern, from + 1)
  }

  /** One element of a pattern at `index`: the state after it and the index behind it, or nothing for a malformed pattern. */
  function CompileOne(pattern: string, index: nat, c: Compiling): Option<(Compiling, nat)>
    requires index < |pattern|
  {
    var ch := pattern[index];
    if ch == '{' then
      var end := Find(pattern, "}", index + 1);
      if end == -1 || end == index + 1 then None
      else
        FoundWithin(pattern, "}", index + 1);
        Some((WithSegment(c, Parameter(pattern[index + 1..end]), "([^/]+)"), end + 1))
    else if ch == ':' && (index == 0 || pattern[index - 1] == '/') then
      var end := NameEnd(pattern, index + 1);
      if end == index + 1 then None else Some((WithSegment(c, Parameter(pattern[index + 1..end]), "([^/]+)"), end))
    else if ch == '*' then
      Some((WithSegment(c, Wildcard, "(.*)").(wildcards := c.wildcards + 1), index + 1))
    else
      Some((c.(pending := c.pending + [ch], expression := c.expression + (if RegexSpecial(ch) then ['\\', ch] else [ch])), index + 1))
  }

  function CompileFrom(pattern: string, index: nat, c: Compiling): Option<Compiling>
    requires index <= |pattern|
    decreases |pattern| - index
  {
    if index == |pattern| then Some(Flushed(c))
    else
      var one := CompileOne(pattern, index, c);
      if one.None? then None
      else
        CompileOneAdvances(pattern, index, c);
        CompileFrom(pattern, one.value.1, one.value.0)
  }

  lemma CompileOneAdvances(pattern: string, index: nat, c: Compiling)
    requires index < |pattern|
    ensures CompileOne(pattern, index, c).Some? ==> index < CompileOne(pattern, index, c).value.1 <= |pattern|
  {
    if pattern[index] == '{' { FoundWithin(pattern, "}", index + 1); }
  }

  predicate HasVariables(pattern: string) {
    exists i :: 0 <= i < |pattern| && (pattern[i] == '{' || pattern[i] == '*' || pattern[i] == ':')
  }

  predicate LinearForm(c: Compiling) {
    c.wildcards == 0 || (c.wildcards == 1 && c.segments != [] && c.segments[|c.segments| - 1] == Wildcard)
  }

  function Compiled(pattern: string): Option<Pattern> {
    if At(pattern, 0, "regex:") then Some(Expression(pattern[6..]))
    else if At(pattern, 0, "^") then Some(Expression(pattern))
    else if !HasVariables(pattern) then Some(Exact(pattern))
    else
      var c := CompileFrom(pattern, 0, Compiling([], "", "^", 0));
      if c.None? then None
      else if LinearForm(c.value) then Some(Linear(c.value.segments))
      else Some(Expression(c.value.expression + "$"))
  }

  /** `compile_pattern`; nothing stands for the exception about a malformed pattern. */
  method CompilePattern(pattern: string) returns (r: Option<Pattern>)
    ensures r == Compiled(pattern)
  {
    hide CompileOne, Find;
    if At(pattern, 0, "regex:") { return Some(Expression(pattern[6..])); }
    if At(pattern, 0, "^") { return Some(Expression(pattern)); }
    if !HasVariables(pattern) { return Some(Exact(pattern)); }
    var c := Compiling([], "", "^", 0);
    var index := 0;
    while index < |pattern|
      invariant 0 <= index <= |pattern|
      invariant CompileFrom(pattern, index, c) == CompileFrom(pattern, 0, Compiling([], "", "^", 0))
    {
      CompileOneAdvances(pattern, index, c);
      var one := CompileOne(pattern, index, c);
      if one.None? { return None; }
      c, index := one.value.0, one.value.1;
    }
    c := Flushed(c);
    r := Some(if LinearForm(c) then Linear(c.segments) else Expression(c.expression + "$"));
  }

  // ---- compiled patterns are in order

  function Wildcards(segments: seq<Segment>): nat {
    if segments == [] then 0 else (if segments[0] == Wildcard then 1 else 0) + Wildcards(segments[1..])
  }

  /** Literals are not empty and not adjacent, and parameters have names. */
  predicate Tidy(segments: seq<Segment>) {
    && (forall i :: 0 <= i < |segments| ==> (segments[i].Literal? ==> segments[i].text != "") && (segments[i].Parameter? ==> segments[i].name != ""))
    && (forall i :: 0 <= i < |segments| - 1 ==> !(segments[i].Literal? && segments[i + 1].Literal?))
  }

  predicate InOrder(c: Compiling) {
    && c.wildcards == Wildcards(c.segments) && Tidy(c.segments)
    && (c.segments != [] ==> !c.segments[|c.segments| - 1].Literal?)
  }

  lemma {:induction false} WildcardsSnoc(segments: seq<Segment>, last: Segment)
    ensures Wildcards(segments + [last]) == Wildcards(segments) + if last == Wildcard then 1 else 0
  {
    if segments == [] {
      assert segments + [last] == [last] && [last][1..] == [];
    } else {
      assert (segments + [last])[1..] == segments[1..] + [last];
      WildcardsSnoc(segments[1..], last);
    }
  }

  lemma {:induction false} WildcardAt(segments: seq<Segment>, i: nat)
    requires i < |segments| && segments[i] == Wildcard
    ensures Wildcards(segments) >= 1 && (Wildcards(segments) == 1 ==> forall j :: 0 <= j < |segments| && j != i ==> segments[j] != Wildcard)
    decreases |segments|
  {
    if i > 0 {
      WildcardAt(segments[1..], i - 1);
      forall j | 0 <= j < |segments| && j != i && Wildcards(segments) == 1 ensures segments[j] != Wildcard {
        if j > 0 { assert segments[1..][j - 1] == segments[j]; }
      }
    } else {
      forall j | 0 < j < |segments| && Wildcards(segments) == 1 ensures segments[j] != Wildcard {
        if segments[j] == Wildcard { WildcardAt(segments[1..], j - 1); }
      }
    }
  }

  lemma FlushedIsTidy(c: Compiling)
    requires InOrder(c)
    ensures Tidy(Flushed(c).segments) && c.wildcards == Wildcards(Flushed(c).segments)
  {
    if c.pending != "" { WildcardsSnoc(c.segments, Literal(c.pending)); }
  }

  lemma WithSegmentInOrder(c: Compiling, segment: Segment, expression: string)
    requires InOrder(c) && !segment.Literal? && (segment.Parameter? ==> segment.name != "")
    ensures var next := WithSegment(c, segment, expression);
            InOrder(next.(wildcards := c.wildcards + if segment == Wildcard then 1 else 0))
  {
    FlushedIsTidy(c);
    WildcardsSnoc(Flushed(c).segments, segment);
    hide Flushed, Wildcards;
  }

  lemma CompileOneInOrder(pattern: string, index: nat, c: Compiling)
    requires index < |pattern| && InOrder(c)
    ensures CompileOne(pattern, index, c).Some? ==> InOrder(CompileOne(pattern, index, c).value.0)
  {
    var ch := pattern[index];
    var name := if ch == '{' then Find(pattern, "}", index + 1) else NameEnd(pattern, index + 1);
    if ch == '{' { FoundWithin(pattern, "}", index + 1); }
    if (ch == '{' || (ch == ':' && (index == 0 || pattern[index - 1] == '/'))) && name > index + 1 {
      WithSegmentInOrder(c, Parameter(pattern[index + 1..name]), "([^/]+)");
    } else if ch == '*' {
      WithSegmentInOrder(c, Wildcard, "(.*)");
    }
    hide InOrder, Find, NameEnd;
    assert ch != '{' && ch != ':' && ch != '*' && CompileOne(pattern, index, c).Some? ==>
      CompileOne(pattern, index, c).value.0.segments == c.segments && CompileOne(pattern, index, c).value.0.wildcards == c.wildcards;
    if CompileOne(pattern, index, c).Some? { SameSegments(c, CompileOne(pattern, index, c).value.0); }
    KeepsWildcards(c, "([^/]+)");
  }

  lemma SameSegments(c: Compiling, d: Compiling)
    ensures c.segments == d.segments && c.wildcards == d.wildcards && InOrder(c) ==> InOrder(d)
  {}

  lemma KeepsWildcards(c: Compiling, expression: string)
    ensures forall segment :: WithSegment(c, segment, expression).wildcards == c.wildcards
  {}

  lemma {:induction false} CompileFromInOrder(pattern: string, index: nat, c: Compiling)
    requires index <= |pattern| && InOrder(c)
    ensures var r := CompileFrom(pattern, index, c);
            r.Some? ==> Tidy(r.value.segments) && r.value.wildcards == Wildcards(r.value.segments)
    decreases |pattern| - index
  {
    if index == |pattern| {
      FlushedIsTidy(c);
    } else {
      CompileOneInOrder(pattern, index, c);
      CompileOneAdvances(pattern, index, c);
      hide CompileOne, InOrder, Tidy;
      var one := CompileOne(pattern, index, c);
      if one.Some? { CompileFromInOrder(pattern, one.value.1, one.value.0); }
    }
  }

  /** A linear pattern has a wildcard at most at its end, no empty and no adjacent literals, and named parameters. */
  lemma LinearIsInOrder(pattern: string)
    requires Compiled(pattern).Some? && Compiled(pattern).value.Linear?
    ensures var segments := Compiled(pattern).value.segments;
            && Tidy(segments)
            && forall i :: 0 <= i < |segments| && segments[i] == Wildcard ==> i == |segments| - 1
  {
    var c := Compiling([], "", "^", 0);
    CompileFromInOrder(pattern, 0, c);
    hide CompileFrom;
    var segments := Compiled(pattern).value.segments;
    forall i | 0 <= i < |segments| && segments[i] == Wildcard ensures i == |segments| - 1 { WildcardAt(segments, i); }
  }

  // ---- compiling what was spelled

  /** An element of a pattern as it is written. */
  datatype Element = Plain(text: string) | Braced(name: string) | Colon(name: string) | Star

  function ElementText(e: Element): string {
    match e
    case Plain(text) => text
    case Braced(name) => "{" + name + "}"
    case Colon(name) => ":" + name
    case Star => "*"
  }

  function SegmentOf(e: Element): Segment {
    match e
    case Plain(text) => Literal(text)
    case Braced(name) => Parameter(name)
    case Colon(name) => Parameter(name)
    case Star => Wildcard
  }

  function Spelled(elements: seq<Element>): string {
    if elements == [] then "" else ElementText(elements[0]) + Spelled(elements[1..])
  }

  /** The regular expression that an element stands for. */
  function ElementExpression(e: Element): string {
    match e
    case Plain(text) => Quoted(text)
    case Star => "(.*)"
    case _ => "([^/]+)"
  }

  function ExpressionOf(elements: seq<Element>): string {
    if elements == [] then "" else ElementExpression(elements[0]) + ExpressionOf(elements[1..])
  }

  function SegmentsOf(elements: seq<Element>): seq<Segment> {
    if elements == [] then [] else [SegmentOf(elements[0])] + SegmentsOf(elements[1..])
  }

  /** A colon is special at the start of a path segment only. */
  predicate AtSegmentStart(before: string) {
    before == "" || before[|before| - 1] == '/'
  }

  predicate PlainText(before: string, text: string) {
    Free(text, '{') && Free(text, '*') && forall i :: 0 <= i < |text| && text[i] == ':' ==> !AtSegmentStart(before + text[..i])
  }

  /** What the first element has to look like behind `before`: texts are not empty and not adjacent, parameters have names that
      do not end early, and a colon stands at the start of a segment and names all of it. */
  predicate FirstFits(before: string, elements: seq<Element>)
    requires elements != []
  {
    match elements[0]
    case Plain(text) => text != "" && PlainText(before, text) && (|elements| > 1 ==> !elements[1].Plain?)
    case Braced(name) => name != "" && Free(name, '}')
    case Colon(name) =>
      AtSegmentStart(before) && name != "" && Free(name, '/') && (Spelled(elements[1..]) == "" || Spelled(elements[1..])[0] == '/')
    case Star => true
  }

  predicate WellSpelled(before: string, elements: seq<Element>)
    decreases |elements|
  {
    elements == [] || (FirstFits(before, elements) && WellSpelled(before + ElementText(elements[0]), elements[1..]))
  }

  lemma PlainIsCompiled(pattern: string, index: nat, c: Compiling)
    requires index < |pattern| && pattern[index] != '{' && pattern[index] != '*'
    requires pattern[index] == ':' ==> !AtSegmentStart(pattern[..index])
    ensures CompileOne(pattern, index, c).Some?
    ensures var (next, end) := CompileOne(pattern, index, c).value;
            && end == index + 1 && next.segments == c.segments && next.pending == c.pending + [pattern[index]] && next.wildcards == c.wildcards
            && next.expression == c.expression + QuotedChar(pattern[index])
  {}

  lemma PlainTail(before: string, text: string)
    requires text != "" && PlainText(before, text)
    ensures PlainText(before + [text[0]], text[1..])
    ensures text[0] == ':' ==> !AtSegmentStart(before)
    ensures text[0] != '{' && text[0] != '*'
  {
    assert before + text[..0] == before;
    forall i | 0 <= i < |text[1..]| && text[1..][i] == ':' ensures !AtSegmentStart(before + [text[0]] + text[1..][..i]) {
      assert before + [text[0]] + text[1..][..i] == before + text[..i + 1];
    }
  }

  /** A character as a regular expression: the special ones stand behind a backslash. */
  function QuotedChar(c: char): string {
    if c in ".^$|()[]{}+?\\" then ['\\', c] else [c]
  }

  function Quoted(text: string): string {
    if text == "" then "" else QuotedChar(text[0]) + Quoted(text[1..])
  }

  /** Plain characters are collected. */
  lemma {:induction false} LiteralIsCollected(pattern: string, index: nat, text: string, c: Compiling)
    requires index + |text| <= |pattern| && pattern[index..index + |text|] == text && PlainText(pattern[..index], text)
    ensures CompileFrom(pattern, index, c) ==
            CompileFrom(pattern, index + |text|, Compiling(c.segments, c.pending + text, c.expression + Quoted(text), c.wildcards))
    decreases |text|
  {
    hide CompileOne, PlainText, QuotedChar, RegexSpecial;
    if text == "" {
      hide CompileFrom;
      assert c.pending + text == c.pending && c.expression + "" == c.expression;
    } else {
      assert pattern[index] == text[0];
      PlainTail(pattern[..index], text);
      PlainIsCompiled(pattern, index, c);
      var next := CompileOne(pattern, index, c).value.0;
      CompileStep(pattern, index, c);
      hide CompileFrom;
      assert pattern[index + 1..index + 1 + |text[1..]|] == text[1..];
      assert pattern[..index] + [text[0]] == pattern[..index + 1];
      LiteralIsCollected(pattern, index + 1, text[1..], next);
      FirstRegroup(c.pending, text);
      Regroup(c.expression, QuotedChar(text[0]), Quoted(text[1..]));
    }
  }

  lemma FirstRegroup(a: string, text: string)
    requires text != ""
    ensures a + [text[0]] + text[1..] == a + text
  {}

  lemma CompileStep(pattern: string, index: nat, c: Compiling)
    requires index < |pattern| && CompileOne(pattern, index, c).Some?
    ensures var (next, end) := CompileOne(pattern, index, c).value;
            end <= |pattern| && CompileFrom(pattern, index, c) == CompileFrom(pattern, end, next)
  {
    CompileOneAdvances(pattern, index, c);
    hide CompileOne;
  }

  lemma BracedIsCompiled(pattern: string, index: nat, name: string, c: Compiling)
    requires index + |name| + 2 <= |pattern| && pattern[index..index + |name| + 2] == "{" + name + "}"
    requires name != "" && Free(name, '}')
    ensures CompileOne(pattern, index, c) == Some((WithSegment(c, Parameter(name), "([^/]+)"), index + |name| + 2))
  {
    var slice, end := pattern[index..index + |name| + 2], index + 1 + |name|;
    assert pattern[index] == slice[0] && pattern[end] == slice[|name| + 1];
    assert "}" == ['}'];
    CharAt(pattern, end, '}');
    forall j | index + 1 <= j < end ensures !At(pattern, j, "}") {
      assert pattern[j] == slice[j - index] == name[j - index - 1];
      CharAt(pattern, j, '}');
    }
    FindIs(pattern, "}", index + 1, end);
    assert pattern[index + 1..end] == slice[1..|name| + 1];
  }

  lemma {:induction false} NameEndIs(pattern: string, from: nat, end: nat)
    requires from <= end <= |pattern| && (end == |pattern| || pattern[end] == '/')
    requires forall i :: from <= i < end ==> pattern[i] != '/'
    ensures NameEnd(pattern, from) == end
    decreases end - from
  {
    if from < end { NameEndIs(pattern, from + 1, end); }
  }

  lemma ColonIsCompiled(pattern: string, index: nat, name: string, c: Compiling)
    requires index + |name| + 1 <= |pattern| && pattern[index..index + |name| + 1] == ":" + name
    requires AtSegmentStart(pattern[..index]) && name != "" && Free(name, '/')
    requires index + |name| + 1 == |pattern| || pattern[index + |name| + 1] == '/'
    ensures CompileOne(pattern, index, c) == Some((WithSegment(c, Parameter(name), "([^/]+)"), index + |name| + 1))
  {
    var slice, end := pattern[index..index + |name| + 1], index + 1 + |name|;
    assert pattern[index] == slice[0];
    forall i | index + 1 <= i < end ensures pattern[i] != '/' { assert pattern[i] == slice[i - index] == name[i - index - 1]; }
    NameEndIs(pattern, index + 1, end);
    assert pattern[index + 1..end] == slice[1..];
  }

  lemma StarIsCompiled(pattern: string, index: nat, c: Compiling)
    requires index < |pattern| && pattern[index] == '*'
    ensures CompileOne(pattern, index, c) == Some((WithSegment(c, Wildcard, "(.*)").(wildcards := c.wildcards + 1), index + 1))
  {}

  /** What compiling the rest of a pattern is expected to give. */
  predicate CompiledTo(r: Option<Compiling>, c: Compiling, segments: seq<Segment>, expression: string) {
    && r.Some? && r.value.segments == Flushed(c).segments + segments && r.value.wildcards == c.wildcards + Wildcards(segments)
    && r.value.expression == c.expression + expression
  }

  lemma CompiledFirst(pattern: string, index: nat, c: Compiling, first: Segment, end: nat, next: Compiling, text: string,
                      rest: seq<Segment>, expression: string)
    requires index <= |pattern| && Took(pattern, index, c, first, end, next, text)
    requires CompiledTo(CompileFrom(pattern, end, next), next, rest, expression)
    ensures CompiledTo(CompileFrom(pattern, index, c), c, [first] + rest, text + expression)
  {
    hide Flushed, CompileFrom, Wildcards;
    Regroup(c.expression, text, expression);
    WildcardsCons(first, rest);
    Regroup(Flushed(c).segments, [first], rest);
  }

  lemma WildcardsCons(first: Segment, rest: seq<Segment>)
    ensures Wildcards([first] + rest) == (if first == Wildcard then 1 else 0) + Wildcards(rest)
  {
    assert ([first] + rest)[1..] == rest;
  }

  lemma FlushedNext(c: Compiling, segment: Segment, expression: string)
    ensures var next := WithSegment(c, segment, expression);
            && Flushed(next) == next && next.pending == "" && next.segments == Flushed(c).segments + [segment] && next.wildcards == c.wildcards
            && next.expression == c.expression + expression
  {}

  lemma SpelledFirst(pattern: string, index: nat, spelled: string, rest: string)
    requires index <= |pattern| && pattern[index..] == spelled + rest
    ensures index + |spelled| <= |pattern| && pattern[index..index + |spelled|] == spelled && pattern[index + |spelled|..] == rest
    ensures pattern[..index + |spelled|] == pattern[..index] + spelled
    ensures rest == "" ==> index + |spelled| == |pattern|
    ensures rest != "" ==> index + |spelled| < |pattern| && pattern[index + |spelled|] == rest[0]
  {
    assert pattern[index..][..|spelled|] == spelled && pattern[index..][|spelled|..] == rest;
  }

  lemma FirstElement(before: string, elements: seq<Element>)
    requires elements != [] && WellSpelled(before, elements)
    ensures FirstFits(before, elements) && WellSpelled(before + ElementText(elements[0]), elements[1..])
    ensures Spelled(elements) == ElementText(elements[0]) + Spelled(elements[1..])
    ensures SegmentsOf(elements) == [SegmentOf(elements[0])] + SegmentsOf(elements[1..])
    ensures ExpressionOf(elements) == ElementExpression(elements[0]) + ExpressionOf(elements[1..])
  {}

  lemma NothingIsCompiled(pattern: string, c: Compiling)
    ensures CompiledTo(CompileFrom(pattern, |pattern|, c), c, SegmentsOf([]), ExpressionOf([]))
  {
    assert c.expression + "" == c.expression && Flushed(c).expression == c.expression;
    assert Flushed(c).segments + [] == Flushed(c).segments;
  }

  lemma NothingIsSpelled(pattern: string, index: nat)
    requires index <= |pattern| && pattern[index..] == Spelled([])
    ensures index == |pattern|
  {}

  /** The segments come back, after what was collected before. */
  lemma {:induction false} SpelledIsCompiled(pattern: string, index: nat, elements: seq<Element>, c: Compiling)
    requires index <= |pattern| && pattern[index..] == Spelled(elements) && WellSpelled(pattern[..index], elements)
    requires c.pending != "" && elements != [] ==> !elements[0].Plain?
    ensures CompiledTo(CompileFrom(pattern, index, c), c, SegmentsOf(elements), ExpressionOf(elements))
    decreases |elements|
  {
    hide *;
    if elements == [] {
      NothingIsSpelled(pattern, index);
      NothingIsCompiled(pattern, c);
    } else {
      var text, rest := ElementText(elements[0]), elements[1..];
      FirstElement(pattern[..index], elements);
      SpelledFirst(pattern, index, text, Spelled(rest));
      var next := ElementIsCompiled(pattern, index, elements, c);
      SpelledIsCompiled(pattern, index + |text|, rest, next);
      CompiledFirst(pattern, index, c, SegmentOf(elements[0]), index + |text|, next, ElementExpression(elements[0]),
                    SegmentsOf(rest), ExpressionOf(rest));
    }
  }

  /** Compiling has taken one segment, and the next element may follow. */
  ghost predicate Took(pattern: string, index: nat, c: Compiling, segment: Segment, end: nat, next: Compiling, expression: string)
    requires index <= |pattern|
  {
    && next.expression == c.expression + expression
    && end <= |pattern| && CompileFrom(pattern, index, c) == CompileFrom(pattern, end, next)
    && Flushed(next).segments == Flushed(c).segments + [segment]
    && next.wildcards == c.wildcards + (if segment == Wildcard then 1 else 0)
    && (next.pending != "" ==> segment.Literal?)
  }

  lemma PlainIsTaken(pattern: string, index: nat, text: string, rest: string, c: Compiling) returns (next: Compiling)
    requires index <= |pattern| && pattern[index..] == text + rest && text != "" && PlainText(pattern[..index], text) && c.pending == ""
    ensures Took(pattern, index, c, Literal(text), index + |text|, next, Quoted(text))
  {
    hide CompileOne, CompileFrom, PlainText, Flushed;
    SpelledFirst(pattern, index, text, rest);
    LiteralIsCollected(pattern, index, text, c);
    next := Compiling(c.segments, c.pending + text, c.expression + Quoted(text), c.wildcards);
    LiteralPending(c, text, next.expression);
  }

  lemma BracedIsTaken(pattern: string, index: nat, name: string, rest: string, c: Compiling) returns (next: Compiling)
    requires index <= |pattern| && pattern[index..] == "{" + name + "}" + rest && name != "" && Free(name, '}')
    ensures Took(pattern, index, c, Parameter(name), index + |"{" + name + "}"|, next, "([^/]+)")
  {
    hide CompileOne, CompileFrom, Flushed, Free, WithSegment;
    SpelledFirst(pattern, index, "{" + name + "}", rest);
    BracedIsCompiled(pattern, index, name, c);
    FlushedNext(c, Parameter(name), "([^/]+)");
    next := VariableStep(pattern, index, c, Parameter(name), "([^/]+)", 0, index + |name| + 2);
  }

  lemma ColonIsTaken(pattern: string, index: nat, name: string, rest: string, c: Compiling) returns (next: Compiling)
    requires index <= |pattern| && pattern[index..] == ":" + name + rest && name != "" && Free(name, '/')
    requires AtSegmentStart(pattern[..index]) && (rest == "" || rest[0] == '/')
    ensures Took(pattern, index, c, Parameter(name), index + |":" + name|, next, "([^/]+)")
  {
    hide CompileOne, CompileFrom, Flushed, Free, WithSegment, AtSegmentStart;
    SpelledFirst(pattern, index, ":" + name, rest);
    ColonIsCompiled(pattern, index, name, c);
    FlushedNext(c, Parameter(name), "([^/]+)");
    next := VariableStep(pattern, index, c, Parameter(name), "([^/]+)", 0, index + |name| + 1);
  }

  lemma StarIsTaken(pattern: string, index: nat, rest: string, c: Compiling) returns (next: Compiling)
    requires index <= |pattern| && pattern[index..] == "*" + rest
    ensures Took(pattern, index, c, Wildcard, index + |"*"|, next, "(.*)")
  {
    hide CompileOne, CompileFrom, Flushed, WithSegment;
    SpelledFirst(pattern, index, "*", rest);
    assert pattern[index] == pattern[index..index + 1][0];
    StarIsCompiled(pattern, index, c);
    next := VariableStep(pattern, index, c, Wildcard, "(.*)", 1, index + 1);
  }

  /** The state behind the first element. */
  lemma ElementIsCompiled(pattern: string, index: nat, elements: seq<Element>, c: Compiling) returns (next: Compiling)
    requires index <= |pattern| && elements != [] && pattern[index..] == ElementText(elements[0]) + Spelled(elements[1..])
    requires FirstFits(pattern[..index], elements) && (c.pending != "" ==> !elements[0].Plain?)
    ensures Took(pattern, index, c, SegmentOf(elements[0]), index + |ElementText(elements[0])|, next, ElementExpression(elements[0]))
    ensures next.pending != "" && |elements| > 1 ==> !elements[1].Plain?
  {
    hide PlainText, AtSegmentStart, Flushed, Spelled, Free, CompileFrom;
    match elements[0]
    case Plain(text) => next := PlainIsTaken(pattern, index, text, Spelled(elements[1..]), c);
    case Braced(name) => next := BracedIsTaken(pattern, index, name, Spelled(elements[1..]), c);
    case Colon(name) => next := ColonIsTaken(pattern, index, name, Spelled(elements[1..]), c);
    case Star => next := StarIsTaken(pattern, index, Spelled(elements[1..]), c);
  }

  /** A parameter or a wildcard becomes a segment of its own. */
  lemma VariableStep(pattern: string, index: nat, c: Compiling, segment: Segment, expression: string, wildcards: nat, end: nat)
    returns (next: Compiling)
    requires index < |pattern|
    requires CompileOne(pattern, index, c) == Some((WithSegment(c, segment, expression).(wildcards := c.wildcards + wildcards), end))
    ensures end <= |pattern| && CompileFrom(pattern, index, c) == CompileFrom(pattern, end, next)
    ensures next.pending == "" && Flushed(next).segments == Flushed(c).segments + [segment] && next.wildcards == c.wildcards + wildcards
    ensures next.expression == c.expression + expression
  {
    next := CompileOne(pattern, index, c).value.0;
    CompileOneAdvances(pattern, index, c);
    FlushedNext(c, segment, expression);
    hide CompileOne, WithSegment;
  }

  lemma LiteralPending(c: Compiling, text: string, expression: string)
    requires c.pending == "" && text != ""
    ensures Flushed(Compiling(c.segments, c.pending + text, expression, c.wildcards)).segments == Flushed(c).segments + [Literal(text)]
  {
    assert c.pending + text == text;
  }

  /** The segments that the linear matcher handles: without a wildcard, or with one at the end only. */
  predicate LinearSegments(segments: seq<Segment>) {
    Wildcards(segments) == 0 || (Wildcards(segments) == 1 && segments != [] && segments[|segments| - 1] == Wildcard)
  }

  /** Elements, spelled with braces or with colons, are compiled to their segments when a wildcard stands at most at their end,
      and otherwise to the regular expression that matches the same texts element by element. */
  lemma CompileRoundTrip(elements: seq<Element>)
    requires WellSpelled("", elements)
    requires HasVariables(Spelled(elements)) && !At(Spelled(elements), 0, "regex:") && !At(Spelled(elements), 0, "^")
    ensures Compiled(Spelled(elements)) ==
            Some(if LinearSegments(SegmentsOf(elements)) then Linear(SegmentsOf(elements)) else Expression("^" + ExpressionOf(elements) + "$"))
  {
    hide *;
    var pattern, c := Spelled(elements), Compiling([], "", "^", 0);
    assert pattern[0..] == pattern && pattern[..0] == "";
    SpelledIsCompiled(pattern, 0, elements, c);
    CompiledAs(pattern, SegmentsOf(elements), ExpressionOf(elements));
  }

  lemma CompiledAs(pattern: string, segments: seq<Segment>, expression: string)
    requires var c := Compiling([], "", "^", 0); CompiledTo(CompileFrom(pattern, 0, c), c, segments, expression)
    requires HasVariables(pattern) && !At(pattern, 0, "regex:") && !At(pattern, 0, "^")
    ensures Compiled(pattern) == Some(if LinearSegments(segments) then Linear(segments) else Expression("^" + expression + "$"))
  {
    hide CompileFrom, HasVariables, At, Wildcards;
    assert [] + segments == segments;
  }

  /** The other kinds of patterns: regular expressions with their marks, and texts without special characters. */
  lemma PatternKinds(text: string)
    ensures Compiled("regex:" + text) == Some(Expression(text)) && Compiled("^" + text) == Some(Expression("^" + text))
    ensures Free(text, '{') && Free(text, '*') && Free(text, ':') && (text == "" || text[0] != '^') ==> Compiled(text) == Some(Exact(text))
  {
    var regex, anchored := "regex:" + text, "^" + text;
    assert regex[0..6] == "regex:" && regex[6..] == text && anchored[0..1] == "^" && anchored[0] == '^';
    if Free(text, ':') && |text| >= 6 { assert text[0..6] != "regex:" by { assert text[5] != ':'; assert "regex:"[5] == ':'; assert text[0..6][5] == text[5]; } }
    if text != "" && text[0] != '^' { assert text[0..1][0] == text[0]; }
    hide CompileFrom;
  }

  /** An opening brace that is not closed, and a parameter without a name, are refused wherever plain text precedes them. */
  lemma MalformedIsRefused(text: string, rest: string)
    requires PlainText("", text) && !At(text + "{" + rest, 0, "regex:") && !At(text + "{" + rest, 0, "^")
    ensures Free(rest, '}') || (rest != "" && rest[0] == '}') ==> Compiled(text + "{" + rest) == None
  {
    var pattern, c := text + "{" + rest, Compiling([], "", "^", 0);
    assert pattern[0..|text|] == text && pattern[..0] == "" && pattern[|text|] == '{';
    assert HasVariables(pattern);
    LiteralIsCollected(pattern, 0, text, c);
    if Free(rest, '}') || (rest != "" && rest[0] == '}') { UnclosedBrace(pattern, |text|, rest, Compiling([], "" + text, "^" + Quoted(text), 0)); }
    hide PlainText, HasVariables, At, CompileOne;
  }

  lemma UnclosedBrace(pattern: string, index: nat, rest: string, c: Compiling)
    requires index < |pattern| && pattern[index] == '{' && pattern[index + 1..] == rest
    requires Free(rest, '}') || (rest != "" && rest[0] == '}')
    ensures CompileFrom(pattern, index, c) == None
  {
    FindInSuffix(pattern, "}", index + 1);
    assert "}" == ['}'];
    if Free(rest, '}') {
      FindAbsent(rest, '}');
    } else {
      CharAt(rest, 0, '}');
      FindIs(rest, "}", 0, 0);
    }
    hide Find, At;
    assert CompileOne(pattern, index, c) == None;
  }
}
