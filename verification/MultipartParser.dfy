/** The incremental multipart parser. Whatever the calls to `feed` are cut into, it accepts the bodies
    the reference scan accepts and reports the same parts. */
module MultipartParser {
  import opened Wrappers
  import opened Text
  import opened HeaderFields
  import opened MultipartHead
  import opened MultipartScan

  datatype Event =
    | PartBegin(index: nat, part: Part)
    | PartData(index: nat, data: string)
    | PartEnd(index: nat, part: Part)

  datatype Mode = FirstBoundaryMode | SuffixMode | HeadersMode | BodyMode | CompleteMode

  datatype Error = Malformed | TooLarge

  /** The fields of the parser. `searchFrom` is where the next search starts. */
  datatype State = State(mode: Mode, buffer: string, searchFrom: nat, part: Part, parts: nat, current: nat, total: nat)

  function Flatten(events: seq<Event>): Trace {
    if events == [] then []
    else
      (match events[0]
       case PartBegin(i, part) => [Begin(i, part)]
       case PartData(i, data) => Bytes(i, data)
       case PartEnd(i, part) => [End(i, part)])
      + Flatten(events[1..])
  }

  lemma {:induction false} FlattenAppend(a: seq<Event>, b: seq<Event>)
    ensures Flatten(a + b) == Flatten(a) + Flatten(b)
    decreases |a|
  {
    if a == [] {
      assert a + b == b;
    } else {
      assert (a + b)[1..] == a[1..] + b;
      FlattenAppend(a[1..], b);
    }
  }

  // ---- what the rest of the stream will produce

  /** The trace still to come when the stream goes on with `future`, or `None` when it is rejected. */
  ghost function Rest(c: Config, s: State, future: string): Option<Trace>
    requires s.mode.BodyMode? ==> s.parts > 0
  {
    match s.mode
    case FirstBoundaryMode => Scan(c, s.buffer + future)
    case SuffixMode => ScanSuffix(c, s.buffer + future, s.parts, s.total)
    case HeadersMode => ScanHeaders(c, s.buffer + future, s.parts, s.total)
    case BodyMode => ScanBody(c, s.buffer + future, s.part, s.parts, s.current, s.total)
    case CompleteMode => Some([])
  }

  /** The search has looked at everything before `from` and no extension of the buffer can match there. */
  ghost predicate NoBoundaryBefore(c: Config, buffer: string, from: nat) {
    forall i: nat :: i < from ==> BoundaryRuledOut(c, buffer, i)
  }

  predicate BoundaryRuledOut(c: Config, buffer: string, i: nat) {
    && i + |c.Marker()| <= |buffer|
    && (MarkerAt(c, buffer, i) ==> i + |c.Marker()| + 2 <= |buffer| && !BoundaryAt(c, buffer, i))
  }

  ghost predicate NoHeadEndBefore(buffer: string, from: nat) {
    forall i: nat :: i < from ==> HeadEndRuledOut(buffer, i)
  }

  predicate HeadEndRuledOut(buffer: string, i: nat) {
    i + 4 <= |buffer| && !At(buffer, i, HEAD_END)
  }

  ghost predicate Sound(c: Config, s: State) {
    && (s.mode.FirstBoundaryMode? ==>
          s.parts == 0 && s.total == 0 && s.searchFrom <= |s.buffer| && NoBoundaryBefore(c, s.buffer, s.searchFrom))
    && (s.mode.SuffixMode? ==> s.searchFrom == 0 && (CRLF <= s.buffer || "--" <= s.buffer))
    && (s.mode.HeadersMode? ==> s.searchFrom <= |s.buffer| && NoHeadEndBefore(s.buffer, s.searchFrom))
    && (s.mode.BodyMode? ==> s.searchFrom == 0 && s.parts > 0 && s.current <= c.maxPart)
    && s.total <= c.maxTotal && s.parts <= c.maxParts
  }

  /** What may stay buffered between two calls. */
  predicate Bounded(c: Config, s: State) {
    match s.mode
    case FirstBoundaryMode => |s.buffer| <= c.maxHeader + |c.Marker()| + 2
    case SuffixMode => false
    case HeadersMode => |s.buffer| <= c.maxHeader + 3
    case BodyMode => |s.buffer| <= |c.Delimiter()| + 1
    case CompleteMode => s.buffer == ""
  }

  /** Nothing more can be read off the buffer: if the stream ended here it would be rejected. */
  ghost predicate Starved(c: Config, s: State)
    requires Sound(c, s)
  {
    !s.mode.CompleteMode? ==> Rest(c, s, "") == None
  }

  predicate Open(s: State) {
    s.mode.BodyMode?
  }

  ghost predicate Produces(c: Config, s: State, input: string, trace: Trace, t: State)
    requires Sound(c, s) && Sound(c, t)
  {
    forall future :: Rest(c, s, input + future) == Prepend(trace, Rest(c, t, future))
  }

  /** From `s`, reading `input` reports `events` and leaves `t`, whatever comes later. */
  ghost predicate Reads(c: Config, s: State, input: string, events: seq<Event>, t: State)
    requires Sound(c, s) && Sound(c, t)
  {
    && Produces(c, s, input, Flatten(events), t)
    && Track(Open(s), s.parts, Flatten(events)) == Some((Open(t), t.parts))
  }

  /** From `s`, reading `input` is rejected, whatever comes later. */
  ghost predicate Rejects(c: Config, s: State, input: string)
    requires Sound(c, s)
  {
    forall future :: Rest(c, s, input + future) == None
  }

  lemma ProducesThen(c: Config, s: State, a: string, e: Trace, t: State, b: string, f: Trace, u: State)
    requires Sound(c, s) && Sound(c, t) && Sound(c, u)
    requires Produces(c, s, a, e, t) && Produces(c, t, b, f, u)
    ensures Produces(c, s, a + b, e + f, u)
  {
    hide Rest, NoBoundaryBefore, NoHeadEndBefore;
    forall future ensures Rest(c, s, a + b + future) == Prepend(e + f, Rest(c, u, future)) {
      assert a + b + future == a + (b + future);
      var last := Rest(c, u, future);
      assert Rest(c, s, a + (b + future)) == Prepend(e, Prepend(f, last));
      PrependAppend(e, f, last);
    }
  }

  lemma ReadsThen(c: Config, s: State, a: string, e: seq<Event>, t: State, b: string, f: seq<Event>, u: State)
    requires Sound(c, s) && Sound(c, t) && Sound(c, u)
    requires Reads(c, s, a, e, t) && Reads(c, t, b, f, u)
    ensures Reads(c, s, a + b, e + f, u)
  {
    FlattenAppend(e, f);
    TrackAppend(Open(s), s.parts, Flatten(e), Flatten(f));
    ProducesThen(c, s, a, Flatten(e), t, b, Flatten(f), u);
  }

  lemma ReadsThenRejects(c: Config, s: State, a: string, e: seq<Event>, t: State, b: string)
    requires Sound(c, s) && Sound(c, t)
    requires Reads(c, s, a, e, t) && Rejects(c, t, b)
    ensures Rejects(c, s, a + b)
  {
    hide Scan, ScanBody, ScanHeaders, ScanSuffix, At;
    forall future ensures Rest(c, s, a + b + future) == None {
      assert a + b + future == a + (b + future);
    }
  }

  lemma ReadsNothing(c: Config, s: State)
    requires Sound(c, s)
    ensures Reads(c, s, "", [], s)
  {
    forall future ensures Rest(c, s, "" + future) == Prepend(Flatten([]), Rest(c, s, future)) {
      assert "" + future == future;
      PrependNothing(Rest(c, s, future));
    }
  }

  lemma PrependNothing(rest: Option<Trace>)
    ensures Prepend([], rest) == rest
  {
    if rest.Some? { assert [] + rest.value == rest.value; }
  }

  // ---- one step of each mode

  lemma BoundaryIsDetermined(c: Config, buffer: string, future: string, i: nat)
    requires i + |c.Marker()| <= |buffer|
    requires MarkerAt(c, buffer, i) ==> i + |c.Marker()| + 2 <= |buffer|
    ensures BoundaryAt(c, buffer + future, i) == BoundaryAt(c, buffer, i)
    ensures MarkerAt(c, buffer + future, i) == MarkerAt(c, buffer, i)
  {
    AtPrefix(buffer, future, i, c.Marker());
    AtPrefix(buffer, future, i - 2, CRLF);
    if MarkerAt(c, buffer, i) {
      AtPrefix(buffer, future, i + |c.Marker()|, CRLF);
      AtPrefix(buffer, future, i + |c.Marker()|, "--");
    }
  }

  lemma FirstBoundaryIs(c: Config, s: string, p: nat)
    requires BoundaryAt(c, s, p) && forall i: nat :: i < p ==> !BoundaryAt(c, s, i)
    ensures FirstBoundary(c, s, 0) == p
  {
    var r := FirstBoundary(c, s, 0);
    assert r != -1 && BoundaryAt(c, s, r);
  }

  /** No marker in the buffer: a later one starts near its end, so an overlong preamble can only fail. */
  lemma NoMarker(c: Config, s: State)
    requires Sound(c, s) && s.mode.FirstBoundaryMode?
    requires forall i: nat :: s.searchFrom <= i ==> !MarkerAt(c, s.buffer, i)
    ensures |s.buffer| > c.maxHeader + |c.Marker()| + 2 ==> Rejects(c, s, "")
    ensures Rest(c, s, "") == None
    ensures NoBoundaryBefore(c, s.buffer, if |s.buffer| >= |c.Marker()| then |s.buffer| - |c.Marker()| + 1 else 0)
  {
    var m := |c.Marker()|;
    forall future ensures FirstBoundary(c, s.buffer + future, 0) == -1 || FirstBoundary(c, s.buffer + future, 0) + m > |s.buffer| {
      var p := FirstBoundary(c, s.buffer + future, 0);
      if p != -1 && p + m <= |s.buffer| {
        if p < s.searchFrom { assert BoundaryRuledOut(c, s.buffer, p); }
        BoundaryIsDetermined(c, s.buffer, future, p);
      }
    }
    assert s.buffer + "" == s.buffer;
    var p := FirstBoundary(c, s.buffer + "", 0);
    assert p == -1 || p + m > |s.buffer|;
    if |s.buffer| > c.maxHeader + m + 2 {
      forall future ensures Rest(c, s, "" + future) == None {
        assert "" + future == future;
        var q := FirstBoundary(c, s.buffer + future, 0);
        assert q == -1 || q + m > |s.buffer|;
      }
    }
  }

  /** The candidate at `position` is the first one that is not ruled out. */
  ghost predicate Candidate(c: Config, s: State, position: nat) {
    && s.searchFrom <= position
    && MarkerAt(c, s.buffer, position)
    && forall i: nat :: s.searchFrom <= i < position ==> !MarkerAt(c, s.buffer, i)
  }

  lemma NothingBeforeCandidate(c: Config, s: State, position: nat, future: string)
    requires Sound(c, s) && s.mode.FirstBoundaryMode? && Candidate(c, s, position)
    ensures forall i: nat :: i < position ==> !BoundaryAt(c, s.buffer + future, i)
  {
    forall i: nat | i < position ensures !BoundaryAt(c, s.buffer + future, i) {
      if i < s.searchFrom { assert BoundaryRuledOut(c, s.buffer, i); }
      BoundaryIsDetermined(c, s.buffer, future, i);
    }
  }

  lemma CandidateTooFar(c: Config, s: State, position: nat)
    requires Sound(c, s) && s.mode.FirstBoundaryMode? && Candidate(c, s, position) && position > c.maxHeader
    ensures Rejects(c, s, "")
  {
    forall future ensures Rest(c, s, "" + future) == None {
      assert "" + future == future;
      NothingBeforeCandidate(c, s, position, future);
      var p := FirstBoundary(c, s.buffer + future, 0);
      assert p == -1 || p >= position;
    }
  }

  lemma CandidateIncomplete(c: Config, s: State, position: nat)
    requires Sound(c, s) && s.mode.FirstBoundaryMode? && Candidate(c, s, position)
    requires |s.buffer| < position + |c.Marker()| + 2
    ensures Sound(c, s.(searchFrom := position)) && Starved(c, s.(searchFrom := position))
  {
    NothingBeforeCandidate(c, s, position, "");
    assert s.buffer + "" == s.buffer;
    assert FirstBoundary(c, s.buffer, 0) == -1;
  }

  lemma CandidateRuledOut(c: Config, s: State, position: nat)
    requires Sound(c, s) && s.mode.FirstBoundaryMode? && Candidate(c, s, position)
    requires position + |c.Marker()| + 2 <= |s.buffer| && !BoundaryAt(c, s.buffer, position)
    ensures Sound(c, s.(searchFrom := position + 1))
  {}

  lemma CandidateEnding(c: Config, s: State, position: nat)
    requires Candidate(c, s, position) && position + |c.Marker()| + 2 <= |s.buffer|
    ensures var ending := s.buffer[position + |c.Marker()|..position + |c.Marker()| + 2];
            BoundaryAt(c, s.buffer, position) <==> ending == CRLF || ending == "--"
  {}

  lemma PrefixStays(a: string, s: string, more: string)
    ensures a <= s ==> a <= s + more
  {}

  lemma EndingIsPrefix(s: string, i: nat)
    requires EndingAt(s, i)
    ensures CRLF <= s[i..] || "--" <= s[i..]
  {
    assert s[i..][..2] == s[i..i + 2];
  }

  lemma CandidateAccepted(c: Config, s: State, position: nat, t: State)
    requires Sound(c, s) && s.mode.FirstBoundaryMode? && Candidate(c, s, position)
    requires position <= c.maxHeader && BoundaryAt(c, s.buffer, position)
    requires t == s.(mode := SuffixMode, buffer := s.buffer[position + |c.Marker()|..], searchFrom := 0)
    ensures Sound(c, t) && Reads(c, s, "", [], t)
  {
    hide ScanSuffix, ScanHeaders, ScanBody, BoundaryRuledOut, NoHeadEndBefore, NoBoundaryBefore, BoundaryAt;
    EndingFollows(c, s, position, t);
    forall future ensures Rest(c, s, "" + future) == Prepend([], Rest(c, t, future)) {
      assert "" + future == future;
      AcceptedLater(c, s, position, t, future);
      PrependNothing(Rest(c, t, future));
    }
  }

  lemma EndingFollows(c: Config, s: State, position: nat, t: State)
    requires BoundaryAt(c, s.buffer, position) && position + |c.Marker()| <= |s.buffer| && t.buffer == s.buffer[position + |c.Marker()|..]
    ensures CRLF <= t.buffer || "--" <= t.buffer
  {
    EndingIsPrefix(s.buffer, position + |c.Marker()|);
  }

  lemma AcceptedLater(c: Config, s: State, position: nat, t: State, future: string)
    requires Sound(c, s) && s.mode.FirstBoundaryMode? && Candidate(c, s, position)
    requires position <= c.maxHeader && BoundaryAt(c, s.buffer, position)
    requires t == s.(mode := SuffixMode, buffer := s.buffer[position + |c.Marker()|..], searchFrom := 0)
    ensures Rest(c, s, future) == Rest(c, t, future)
  {
    hide ScanSuffix, ScanHeaders, ScanBody, BoundaryRuledOut, NoHeadEndBefore;
    var suffix, all := position + |c.Marker()|, s.buffer + future;
    NothingBeforeCandidate(c, s, position, future);
    BoundaryIsDetermined(c, s.buffer, future, position);
    FirstBoundaryIs(c, all, position);
    hide BoundaryAt, FirstBoundary;
    assert all[suffix..] == t.buffer + future;
  }

  lemma SuffixStep(c: Config, s: State, t: State)
    requires Sound(c, s) && s.mode.SuffixMode?
    requires t == if "--" <= s.buffer then s.(mode := CompleteMode, buffer := s.buffer[2..])
                  else s.(mode := HeadersMode, buffer := s.buffer[2..])
    ensures Sound(c, t) && Reads(c, s, "", [], t)
  {
    forall future ensures Rest(c, s, "" + future) == Prepend([], Rest(c, t, future)) {
      assert "" + future == future;
      var all := s.buffer + future;
      assert all[..2] == s.buffer[..2] && all[2..] == t.buffer + future;
      PrependNothing(Rest(c, t, future));
    }
  }

  // ---- headers

  /** No end of the header block in the buffer: an overlong block can only fail. */
  lemma HeadNotEnded(c: Config, s: State)
    requires Sound(c, s) && s.mode.HeadersMode?
    requires forall i: nat :: s.searchFrom <= i ==> !At(s.buffer, i, HEAD_END)
    ensures |s.buffer| > c.maxHeader + 3 ==> Rejects(c, s, "")
    ensures Rest(c, s, "") == None
    ensures NoHeadEndBefore(s.buffer, if |s.buffer| > 3 then |s.buffer| - 3 else 0)
  {
    forall i: nat ensures !At(s.buffer, i, HEAD_END) {
      if i < s.searchFrom { assert HeadEndRuledOut(s.buffer, i); }
    }
    forall i: nat | i + 4 <= |s.buffer| ensures HeadEndRuledOut(s.buffer, i) {}
    assert Find(s.buffer, HEAD_END, 0) == -1;
    forall future ensures Find(s.buffer + future, HEAD_END, 0) == -1 || Find(s.buffer + future, HEAD_END, 0) + 4 > |s.buffer| {
      NotInPrefix(s.buffer, future, HEAD_END);
    }
    assert s.buffer + "" == s.buffer;
    var p := Find(s.buffer + "", HEAD_END, 0);
    assert p == -1 || p + 4 > |s.buffer|;
    if |s.buffer| > c.maxHeader + 3 {
      forall future ensures Rest(c, s, "" + future) == None {
        assert "" + future == future;
        var q := Find(s.buffer + future, HEAD_END, 0);
        assert q == -1 || q + 4 > |s.buffer|;
      }
    }
  }

  ghost predicate HeadEndsAt(s: State, end: nat) {
    && s.searchFrom <= end
    && At(s.buffer, end, HEAD_END)
    && forall i: nat :: s.searchFrom <= i < end ==> !At(s.buffer, i, HEAD_END)
  }

  lemma HeadEndIsFound(c: Config, s: State, end: nat, future: string)
    requires Sound(c, s) && s.mode.HeadersMode? && HeadEndsAt(s, end)
    ensures Find(s.buffer + future, HEAD_END, 0) == end
    ensures (s.buffer + future)[..end] == s.buffer[..end]
    ensures (s.buffer + future)[end + 4..] == s.buffer[end + 4..] + future
  {
    forall i: nat | i <= end ensures At(s.buffer + future, i, HEAD_END) == (i == end) {
      if i < s.searchFrom { assert HeadEndRuledOut(s.buffer, i); }
      AtPrefix(s.buffer, future, i, HEAD_END);
    }
    FindIs(s.buffer + future, HEAD_END, 0, end);
  }

  lemma HeadRejected(c: Config, s: State, end: nat)
    requires Sound(c, s) && s.mode.HeadersMode? && HeadEndsAt(s, end)
    requires end > c.maxHeader || ParsedHead(s.buffer[..end]).None? || s.parts >= c.maxParts
    ensures Rejects(c, s, "")
  {
    forall future ensures Rest(c, s, "" + future) == None {
      assert "" + future == future;
      HeadEndIsFound(c, s, end, future);
    }
  }

  lemma HeadAccepted(c: Config, s: State, end: nat, part: Part, t: State)
    requires Sound(c, s) && s.mode.HeadersMode? && HeadEndsAt(s, end)
    requires end <= c.maxHeader && ParsedHead(s.buffer[..end]) == Some(part) && s.parts < c.maxParts
    requires t == State(BodyMode, s.buffer[end + 4..], 0, part, s.parts + 1, 0, s.total)
    ensures Sound(c, t) && Reads(c, s, "", [PartBegin(s.parts, part)], t)
  {
    hide ScanBody, At, ParsedHead, CountName, ParseLines, FirstBoundary;
    var events := [PartBegin(s.parts, part)];
    assert Flatten(events) == [Begin(s.parts, part)] by { assert events[1..] == []; }
    assert Track(false, s.parts, [Begin(s.parts, part)]) == Some((true, s.parts + 1)) by {
      assert [Begin(s.parts, part)][1..] == [];
    }
    forall future ensures Rest(c, s, "" + future) == Prepend(Flatten(events), Rest(c, t, future)) {
      assert "" + future == future;
      HeadEndIsFound(c, s, end, future);
    }
  }

  // ---- body

  /** Nothing before `count` can turn out to be a real delimiter. */
  ghost predicate OnlyData(c: Config, buffer: string, count: nat) {
    count <= |buffer| && forall i: nat :: i < count ==> DelimiterRuledOut(c, buffer, i)
  }

  predicate DelimiterRuledOut(c: Config, buffer: string, i: nat) {
    && i + |c.Delimiter()| <= |buffer|
    && (At(buffer, i, c.Delimiter()) ==> i + |c.Delimiter()| + 2 <= |buffer| && !DelimiterAt(c, buffer, i))
  }

  lemma DataStaysData(c: Config, buffer: string, count: nat, future: string)
    requires OnlyData(c, buffer, count)
    ensures forall i: nat :: i < count ==> !DelimiterAt(c, buffer + future, i)
  {
    var d := |c.Delimiter()|;
    forall i: nat | i < count ensures !DelimiterAt(c, buffer + future, i) {
      assert DelimiterRuledOut(c, buffer, i);
      var candidate := At(buffer, i, c.Delimiter());
      AtPrefix(buffer, future, i, c.Delimiter());
      if candidate {
        AtPrefix(buffer, future, i + d, CRLF);
        AtPrefix(buffer, future, i + d, "--");
      }
    }
  }

  function DataEvents(parts: nat, data: string): seq<Event>
    requires parts > 0
  {
    if data == "" then [] else [PartData(parts - 1, data)]
  }

  lemma FlattenData(parts: nat, data: string)
    requires parts > 0
    ensures Flatten(DataEvents(parts, data)) == Bytes(parts - 1, data)
  {
    if data != "" { assert DataEvents(parts, data)[1..] == []; }
  }

  lemma BodyEmitsBefore(c: Config, s: State, count: nat, t: State, future: string)
    requires Sound(c, s) && s.mode.BodyMode? && OnlyData(c, s.buffer, count)
    requires t == s.(buffer := s.buffer[count..], current := s.current + count, total := s.total + count)
    ensures Rest(c, s, future) == Prepend(Bytes(s.parts - 1, s.buffer[..count]), Rest(c, t, future))
    ensures s.current + count > c.maxPart || s.total + count > c.maxTotal ==> Rest(c, s, future) == None
  {
    hide ParsedHead, FirstDelimiter, ScanBody, DelimiterAt;
    var head, rest := s.buffer[..count], t.buffer + future;
    assert s.buffer + future == head + rest;
    DataStaysData(c, s.buffer, count, future);
    ScanBodyCut(c, head, rest, s.part, s.parts, s.current, s.total);
  }

  lemma BodyEmits(c: Config, s: State, count: nat, t: State)
    requires Sound(c, s) && s.mode.BodyMode? && OnlyData(c, s.buffer, count)
    requires s.current + count <= c.maxPart && s.total + count <= c.maxTotal
    requires t == s.(buffer := s.buffer[count..], current := s.current + count, total := s.total + count)
    ensures Sound(c, t) && Reads(c, s, "", DataEvents(s.parts, s.buffer[..count]), t)
  {
    FlattenData(s.parts, s.buffer[..count]);
    TrackBytes(s.parts, s.buffer[..count]);
    forall future ensures Rest(c, s, "" + future) == Prepend(Bytes(s.parts - 1, s.buffer[..count]), Rest(c, t, future)) {
      assert "" + future == future;
      BodyEmitsBefore(c, s, count, t, future);
    }
  }

  lemma BodyOverflows(c: Config, s: State, count: nat)
    requires Sound(c, s) && s.mode.BodyMode? && OnlyData(c, s.buffer, count)
    requires s.current + count > c.maxPart || s.total + count > c.maxTotal
    ensures Rejects(c, s, "")
  {
    forall future ensures Rest(c, s, "" + future) == None {
      assert "" + future == future;
      BodyEmitsBefore(c, s, count, s.(buffer := s.buffer[count..], current := s.current + count, total := s.total + count), future);
    }
  }

  lemma BodyEnds(c: Config, s: State, t: State)
    requires Sound(c, s) && s.mode.BodyMode? && DelimiterAt(c, s.buffer, 0)
    requires t == s.(mode := SuffixMode, buffer := s.buffer[|c.Delimiter()|..])
    ensures Sound(c, t) && Reads(c, s, "", [PartEnd(s.parts - 1, s.part)], t)
  {
    var d := |c.Delimiter()|;
    var events := [PartEnd(s.parts - 1, s.part)];
    var trace := [End(s.parts - 1, s.part)];
    assert Flatten(events) == trace by { assert events[1..] == []; }
    assert Track(true, s.parts, trace) == Some((false, s.parts)) by { assert trace[1..] == []; }
    assert EndingAt(s.buffer, d);
    forall future ensures Rest(c, s, "" + future) == Prepend(trace, Rest(c, t, future)) {
      assert "" + future == future;
      var all := s.buffer + future;
      AtPrefix(s.buffer, future, 0, c.Delimiter());
      AtPrefix(s.buffer, future, d, CRLF);
      AtPrefix(s.buffer, future, d, "--");
      FirstDelimiterIs(c, all, 0);
      assert all[d..] == t.buffer + future;
      ScanBodyAt(c, all, s.part, s.parts, s.current, s.total, 0);
      assert Bytes(s.parts - 1, all[..0]) + trace == trace;
    }
  }

  lemma BodyStarves(c: Config, s: State)
    requires Sound(c, s) && s.mode.BodyMode? && |s.buffer| <= |c.Delimiter()| + 1
    ensures Starved(c, s)
  {
    assert s.buffer + "" == s.buffer;
  }

  // ---- appending input

  lemma SearchedStaysSearched(c: Config, buffer: string, slice: string, from: nat)
    requires NoBoundaryBefore(c, buffer, from)
    ensures NoBoundaryBefore(c, buffer + slice, from)
  {
    forall i: nat | i < from ensures BoundaryRuledOut(c, buffer + slice, i) {
      assert BoundaryRuledOut(c, buffer, i);
      BoundaryIsDetermined(c, buffer, slice, i);
    }
  }

  lemma NoHeadEndStays(buffer: string, slice: string, from: nat)
    requires NoHeadEndBefore(buffer, from)
    ensures NoHeadEndBefore(buffer + slice, from)
  {
    forall i: nat | i < from ensures HeadEndRuledOut(buffer + slice, i) {
      assert HeadEndRuledOut(buffer, i);
      AtPrefix(buffer, slice, i, HEAD_END);
    }
  }

  lemma Append(c: Config, s: State, slice: string)
    requires Sound(c, s) && !s.mode.CompleteMode?
    ensures Sound(c, s.(buffer := s.buffer + slice)) && Reads(c, s, slice, [], s.(buffer := s.buffer + slice))
  {
    hide Scan, ScanBody, ScanSuffix, ScanHeaders;
    var t := s.(buffer := s.buffer + slice);
    if s.mode.FirstBoundaryMode? { SearchedStaysSearched(c, s.buffer, slice, s.searchFrom); }
    if s.mode.HeadersMode? { NoHeadEndStays(s.buffer, slice, s.searchFrom); }
    PrefixStays(CRLF, s.buffer, slice);
    PrefixStays("--", s.buffer, slice);
    forall future ensures Rest(c, s, slice + future) == Prepend([], Rest(c, t, future)) {
      assert s.buffer + (slice + future) == t.buffer + future;
      PrependNothing(Rest(c, t, future));
    }
  }

  lemma CompleteReadsAll(c: Config, s: State, input: string)
    requires Sound(c, s) && s.mode.CompleteMode?
    ensures Reads(c, s, input, [], s)
  {
    forall future ensures Rest(c, s, input + future) == Prepend([], Rest(c, s, future)) {
      PrependNothing(Rest(c, s, future));
    }
  }

  // ---- the implementation

  /** How one pass of the parsing loop ends. */
  datatype Flow = Continue | Next | Break | Failed

  class Parser {
    const config: Config
    var mode: Mode
    var buffer: string
    var searchFrom: nat
    var part: Part
    var parts: nat
    var current: nat
    var total: nat
    var error: Option<Error>

    ghost function Fields(): State
      reads this
    {
      State(mode, buffer, searchFrom, part, parts, current, total)
    }

    /** Between two calls: the parser has failed for good, or it holds a bounded piece of the stream. */
    ghost predicate Valid()
      reads this
    {
      error.None? ==> Sound(config, Fields()) && Bounded(config, Fields()) && Starved(config, Fields())
    }

    constructor (config: Config)
      ensures this.config == config && Valid() && error.None?
      ensures Fields() == State(FirstBoundaryMode, "", 0, EmptyPart, 0, 0, 0)
    {
      this.config := config;
      mode, buffer, searchFrom, part := FirstBoundaryMode, "", 0, EmptyPart;
      parts, current, total, error := 0, 0, 0, None;
      new;
      assert Fields().buffer + "" == "";
      assert FirstBoundary(config, "", 0) == -1;
    }

    /** `fail` */
    method Fail()
      modifies this`error, this`buffer
      ensures error == Some(Malformed)
    {
      error, buffer := Some(Malformed), "";
    }

    /** `emit_data`, and the `consume` that follows it at every call */
    method Emit(count: nat) returns (ok: bool, events: seq<Event>)
      requires error.None? && Sound(config, Fields()) && mode.BodyMode? && OnlyData(config, buffer, count)
      modifies this`buffer, this`current, this`total, this`error
      ensures ok ==> error.None? && Sound(config, Fields()) && buffer == old(buffer)[count..]
      ensures ok ==> Reads(config, old(Fields()), "", events, Fields())
      ensures !ok ==> error == Some(TooLarge) && Rejects(config, old(Fields()), "")
    {
      hide Reads, Rejects, Rest, Starved, DelimiterAt, At;
      ghost var s := Fields();
      events := [];
      if count > config.maxPart || current > config.maxPart - count || count > config.maxTotal || total > config.maxTotal - count {
        BodyOverflows(config, s, count);
        error := Some(TooLarge);
        return false, [];
      }
      BodyEmits(config, s, count, s.(buffer := s.buffer[count..], current := s.current + count, total := s.total + count));
      if count != 0 { events := [PartData(parts - 1, buffer[..count])]; }
      assert events == DataEvents(parts, buffer[..count]);
      current, total := current + count, total + count;
      buffer := buffer[count..];
      ok := true;
    }

    /** The search for a marker at the start of a line. */
    method FindCandidate() returns (position: int)
      requires mode.FirstBoundaryMode? && searchFrom <= |buffer|
      ensures position == -1 ==> forall i: nat :: searchFrom <= i ==> !MarkerAt(config, buffer, i)
      ensures position != -1 ==> 0 <= position && Candidate(config, Fields(), position)
    {
      var marker := config.Marker();
      position := Find(buffer, marker, searchFrom);
      while position != -1 && position != 0 && (position < 2 || buffer[position - 2..position] != CRLF)
        invariant position == -1 || (searchFrom <= position && At(buffer, position, marker))
        invariant forall i: nat :: searchFrom <= i && (position == -1 || i < position) ==> !MarkerAt(config, buffer, i)
        decreases if position == -1 then 0 else |buffer| + 1 - position
      {
        position := Find(buffer, marker, position + 1);
      }
    }

    method ParseFirstBoundary() returns (flow: Flow)
      requires error.None? && Sound(config, Fields()) && mode.FirstBoundaryMode?
      modifies this
      ensures flow.Failed? ==> error.Some? && Rejects(config, old(Fields()), "")
      ensures !flow.Failed? ==> error.None? && Sound(config, Fields()) && Reads(config, old(Fields()), "", [], Fields())
      ensures flow.Break? ==> Bounded(config, Fields()) && Starved(config, Fields())
      ensures flow.Continue? ==> buffer == old(buffer) && mode == old(mode) && old(searchFrom) < searchFrom
      ensures flow.Next? ==> |buffer| < |old(buffer)|
    {
      hide Reads, Rejects, Rest, Starved, NoBoundaryBefore, BoundaryRuledOut, NoHeadEndBefore, Candidate, MarkerAt,
           BoundaryAt, EndingAt, At;
      ghost var s := Fields();
      var marker := config.Marker();
      var position := FindCandidate();
      if position == -1 {
        NoMarker(config, s);
        var keep := |marker| + 2;
        if |buffer| > config.maxHeader && |buffer| - config.maxHeader > keep {
          Fail();
          return Failed;
        }
        searchFrom := if |buffer| >= |marker| then |buffer| - |marker| + 1 else 0;
        MovesSearch(config, s, Fields());
        return Break;
      }
      if position > config.maxHeader {
        CandidateTooFar(config, s, position);
        Fail();
        return Failed;
      }
      var suffix := position + |marker|;
      if |buffer| < suffix + 2 {
        CandidateIncomplete(config, s, position);
        searchFrom := position;
        MovesSearch(config, s, Fields());
        return Break;
      }
      var ending := buffer[suffix..suffix + 2];
      CandidateEnding(config, s, position);
      if ending != CRLF && ending != "--" {
        CandidateRuledOut(config, s, position);
        searchFrom := position + 1;
        MovesSearch(config, s, Fields());
        return Continue;
      }
      CandidateAccepted(config, s, position, s.(mode := SuffixMode, buffer := s.buffer[suffix..], searchFrom := 0));
      buffer := buffer[suffix..];
      searchFrom := 0;
      mode := SuffixMode;
      return Next;
    }

    /** The two bytes after a delimiter. They were looked at when the delimiter was taken off the buffer,
        so the "malformed suffix" failure cannot happen. */
    method ParseSuffix()
      requires error.None? && Sound(config, Fields()) && mode.SuffixMode?
      modifies this`mode, this`buffer
      ensures Sound(config, Fields()) && Reads(config, old(Fields()), "", [], Fields())
      ensures |buffer| < |old(buffer)|
    {
      ghost var s := Fields();
      if "--" <= buffer {
        mode, buffer := CompleteMode, buffer[2..];
      } else {
        assert CRLF <= buffer;
        mode, buffer := HeadersMode, buffer[2..];
      }
      SuffixStep(config, s, Fields());
    }

    method ParseHeaders() returns (flow: Flow, events: seq<Event>)
      requires error.None? && Sound(config, Fields()) && mode.HeadersMode?
      modifies this
      ensures flow.Failed? ==> error.Some? && Rejects(config, old(Fields()), "")
      ensures !flow.Failed? ==> error.None? && Sound(config, Fields()) && Reads(config, old(Fields()), "", events, Fields())
      ensures !flow.Continue? && (flow.Break? ==> Bounded(config, Fields()) && Starved(config, Fields()))
      ensures flow.Next? ==> |buffer| < |old(buffer)|
    {
      hide Reads, Rejects, Rest, Starved, NoBoundaryBefore, NoHeadEndBefore, ParsedHead;
      ghost var s := Fields();
      events := [];
      var end := Find(buffer, HEAD_END, searchFrom);
      if end == -1 {
        HeadNotEnded(config, s);
        if |buffer| > config.maxHeader && |buffer| - config.maxHeader > 3 {
          Fail();
          return Failed, [];
        }
        searchFrom := if |buffer| > 3 then |buffer| - 3 else 0;
        MovesSearch(config, s, Fields());
        return Break, [];
      }
      assert HeadEndsAt(s, end);
      if end > config.maxHeader {
        HeadRejected(config, s, end);
        Fail();
        return Failed, [];
      }
      var parsed := ParsePartHead(buffer[..end]);
      if parsed.None? {
        HeadRejected(config, s, end);
        Fail();
        return Failed, [];
      }
      if parts >= config.maxParts {
        HeadRejected(config, s, end);
        Fail();
        return Failed, [];
      }
      part := parsed.value;
      current := 0;
      events := [PartBegin(parts, part)];
      parts := parts + 1;
      buffer := buffer[end + 4..];
      searchFrom := 0;
      mode := BodyMode;
      HeadAccepted(config, s, end, part, Fields());
      return Next, events;
    }

    method ParseBody() returns (flow: Flow, events: seq<Event>)
      requires error.None? && Sound(config, Fields()) && mode.BodyMode?
      modifies this
      ensures flow.Failed? ==> error.Some? && Rejects(config, old(Fields()), "")
      ensures !flow.Failed? ==> error.None? && Sound(config, Fields()) && Reads(config, old(Fields()), "", events, Fields())
      ensures flow.Break? ==> Bounded(config, Fields()) && Starved(config, Fields())
      ensures flow.Next? || flow.Continue? ==> |buffer| < |old(buffer)|
    {
      hide Reads, Rejects, Rest, Starved, NoBoundaryBefore, NoHeadEndBefore, DelimiterAt, OnlyData, EndingAt, At;
      ghost var s := Fields();
      events := [];
      var delimiter := config.Delimiter();
      var position := Find(buffer, delimiter, 0);
      if position == -1 {
        var keep := |delimiter| + 1;
        if |buffer| <= keep {
          BodyStarves(config, s);
          ReadsNothing(config, s);
          return Break, [];
        }
        NoDelimiter(config, buffer);
        var ok, data := Emit(|buffer| - keep);
        if !ok { return Failed, []; }
        return Next, data;
      }
      DelimiterFound(config, buffer, position);
      var suffix := position + |delimiter|;
      if |buffer| < suffix + 2 {
        var ok, data := Emit(position);
        if !ok { return Failed, []; }
        BodyStarves(config, Fields());
        return Break, data;
      }
      var ending := buffer[suffix..suffix + 2];
      Ending(buffer, suffix);
      if ending != CRLF && ending != "--" {
        FalseDelimiter(config, buffer, position);
        var ok, data := Emit(position + 2);
        if !ok { return Failed, []; }
        return Continue, data;
      }
      RealDelimiter(config, buffer, position);
      var ok, data := Emit(position);
      if !ok { return Failed, []; }
      ghost var t := Fields();
      assert "" + "" == "";
      buffer := buffer[|delimiter|..];
      mode := SuffixMode;
      BodyEnds(config, t, Fields());
      ReadsThen(config, s, "", data, t, "", [PartEnd(parts - 1, part)], Fields());
      return Next, data + [PartEnd(parts - 1, part)];
    }

    /** `parse_available` */
    method ParseAvailable() returns (ok: bool, events: seq<Event>)
      requires error.None? && Sound(config, Fields())
      modifies this
      ensures !ok ==> error.Some? && Rejects(config, old(Fields()), "")
      ensures ok ==> Valid() && error.None? && Reads(config, old(Fields()), "", events, Fields())
    {
      hide Reads, Rejects, Rest, Starved, Sound;
      ghost var s := Fields();
      events := [];
      ReadsNothing(config, s);
      assert "" + "" == "";
      while true
        invariant error.None? && Sound(config, Fields()) && Reads(config, s, "", events, Fields())
        decreases |buffer|, |buffer| - searchFrom
      {
        ghost var t := Fields();
        var more: seq<Event> := [];
        var flow := Next;
        if mode.FirstBoundaryMode? {
          SoundBounds(config, t);
          flow := ParseFirstBoundary();
        } else if mode.SuffixMode? {
          ParseSuffix();
        } else if mode.HeadersMode? {
          flow, more := ParseHeaders();
        } else if mode.BodyMode? {
          flow, more := ParseBody();
        } else {
          buffer := "";
          CompleteStarves(config, t, Fields());
          flow := Break;
        }
        if flow.Failed? {
          ReadsThenRejects(config, s, "", events, t, "");
          return false, [];
        }
        ReadsThen(config, s, "", events, t, "", more, Fields());
        events := events + more;
        SoundBounds(config, Fields());
        if flow.Break? { return true, events; }
      }
      ok := true;
    }

    /** One slice of the input of `feed`. */
    method FeedSlice(slice: string) returns (ok: bool, events: seq<Event>)
      requires Valid() && error.None? && !mode.CompleteMode?
      modifies this
      ensures Valid()
      ensures ok ==> error.None? && Reads(config, old(Fields()), slice, events, Fields())
      ensures !ok ==> error.Some? && Rejects(config, old(Fields()), slice)
    {
      hide Reads, Rejects, Rest, Starved, Sound;
      ghost var s := Fields();
      Append(config, s, slice);
      buffer := buffer + slice;
      ghost var t := Fields();
      ok, events := ParseAvailable();
      assert slice + "" == slice && [] + events == events;
      if ok {
        ReadsThen(config, s, slice, [], t, "", events, Fields());
      } else {
        ReadsThenRejects(config, s, slice, [], t, "");
      }
    }

    /** `feed` takes its input in slices, so that the buffer stays bounded whatever the caller passes. */
    method Feed(input: string) returns (r: Option<seq<Event>>)
      requires Valid()
      modifies this
      ensures Valid()
      ensures r.Some? ==> old(error).None? && error.None? && Reads(config, old(Fields()), input, r.value, Fields())
      ensures r.None? ==> error.Some? && (old(error).None? ==> Rejects(config, old(Fields()), input))
    {
      if error.Some? { return None; }
      hide Reads, Rejects, Rest, Starved, Sound, Bounded;
      ghost var s := Fields();
      var events: seq<Event> := [];
      var rest := input;
      ghost var done := "";
      ReadsNothing(config, s);
      while rest != "" && !mode.CompleteMode?
        invariant Valid() && error.None? && input == done + rest && Reads(config, s, done, events, Fields())
        decreases |rest|
      {
        var count := if |rest| < 65536 then |rest| else 65536;
        ghost var t := Fields();
        var ok, more := FeedSlice(rest[..count]);
        if !ok {
          RejectsSlice(config, s, done, events, t, rest, count);
          return None;
        }
        ReadsSlice(config, s, done, events, t, rest, count, more, Fields());
        done := done + rest[..count];
        rest := rest[count..];
        events := events + more;
      }
      if rest == "" {
        assert input == done;
      } else {
        ReadsTail(config, s, done, events, Fields(), rest);
      }
      return Some(events);
    }

    /** `finish` */
    method Finish() returns (r: Option<seq<Event>>)
      requires Valid()
      modifies this
      ensures Valid()
      ensures r.Some? <==> old(error).None? && old(mode).CompleteMode?
      ensures r.Some? ==> r.value == []
    {
      if error.Some? { return None; }
      if !mode.CompleteMode? {
        Fail();
        return None;
      }
      return Some([]);
    }
  }

  lemma ReadsSlice(c: Config, s: State, done: string, events: seq<Event>, t: State, rest: string, count: nat, more: seq<Event>, u: State)
    requires Sound(c, s) && Sound(c, t) && Sound(c, u) && count <= |rest|
    requires Reads(c, s, done, events, t) && Reads(c, t, rest[..count], more, u)
    ensures Reads(c, s, done + rest[..count], events + more, u)
    ensures done + rest == done + rest[..count] + rest[count..]
  {
    hide *;
    ReadsThen(c, s, done, events, t, rest[..count], more, u);
    CutOut(done, rest, count);
  }

  lemma CutOut(done: string, rest: string, count: nat)
    requires count <= |rest|
    ensures done + rest == done + rest[..count] + rest[count..]
  {}

  lemma RejectsSlice(c: Config, s: State, done: string, events: seq<Event>, t: State, rest: string, count: nat)
    requires Sound(c, s) && Sound(c, t) && count <= |rest|
    requires Reads(c, s, done, events, t) && Rejects(c, t, rest[..count])
    ensures Rejects(c, s, done + rest)
  {
    assert done + rest == done + rest[..count] + rest[count..];
    ReadsThenRejects(c, s, done, events, t, rest[..count]);
    MoreInputChangesNothing(c, s, done + rest[..count], rest[count..]);
  }

  lemma ReadsTail(c: Config, s: State, done: string, events: seq<Event>, t: State, rest: string)
    requires Sound(c, s) && Sound(c, t) && t.mode.CompleteMode? && Reads(c, s, done, events, t)
    ensures Reads(c, s, done + rest, events, t)
  {
    CompleteReadsAll(c, t, rest);
    ReadsThen(c, s, done, events, t, rest, [], t);
    assert events + [] == events;
  }

  lemma MoreInputChangesNothing(c: Config, s: State, a: string, b: string)
    requires Sound(c, s) && Rejects(c, s, a)
    ensures Rejects(c, s, a + b)
  {
    hide Rest;
    forall future ensures Rest(c, s, a + b + future) == None {
      assert a + b + future == a + (b + future);
    }
  }

  // ---- every way of cutting a stream

  /** Feeds a parser the pieces one after the other and finishes. Whatever the pieces are, the verdict and
      the trace are those of the reference scan of their concatenation. */
  method ParsePieces(config: Config, pieces: seq<string>) returns (accepted: bool, events: seq<Event>)
    ensures accepted <==> Scan(config, Join(pieces)).Some?
    ensures accepted ==> Flatten(events) == Scan(config, Join(pieces)).value
    ensures accepted ==> exists n :: Track(false, 0, Flatten(events)) == Some((false, n))
  {
    hide Rejects, Rest, Starved, Sound, Scan, Reads;
    var parser := new Parser(config);
    ghost var s := parser.Fields();
    events := [];
    ghost var done := "";
    ReadsNothing(config, s);
    assert pieces[0..] == pieces && "" + Join(pieces) == Join(pieces);
    for i := 0 to |pieces|
      invariant parser.Valid() && parser.error.None? && parser.config == config && fresh(parser)
      invariant done + Join(pieces[i..]) == Join(pieces)
      invariant Reads(config, s, done, events, parser.Fields())
    {
      ghost var t := parser.Fields();
      assert pieces[i..][1..] == pieces[i + 1..];
      var r := parser.Feed(pieces[i]);
      ghost var rest := Join(pieces[i + 1..]);
      assert done + (pieces[i] + rest) == done + pieces[i] + rest;
      if r.None? {
        ReadsThenRejects(config, s, done, events, t, pieces[i]);
        MoreInputChangesNothing(config, s, done + pieces[i], rest);
        RejectedStream(config, s, Join(pieces));
        return false, [];
      }
      ReadsThen(config, s, done, events, t, pieces[i], r.value, parser.Fields());
      done := done + pieces[i];
      events := events + r.value;
    }
    assert done + "" == done;
    FinishedStream(config, s, done, events, parser.Fields());
    var last := parser.Finish();
    accepted := last.Some?;
  }

  lemma RejectedStream(c: Config, s: State, input: string)
    requires s == State(FirstBoundaryMode, "", 0, EmptyPart, 0, 0, 0)
    requires Sound(c, s) && Rejects(c, s, input)
    ensures Scan(c, input) == None
  {
    hide Scan;
    assert Rest(c, s, input + "") == None;
    assert "" + (input + "") == input;
  }

  lemma FinishedStream(c: Config, s: State, input: string, events: seq<Event>, t: State)
    requires s == State(FirstBoundaryMode, "", 0, EmptyPart, 0, 0, 0)
    requires Sound(c, s) && Sound(c, t) && Starved(c, t) && Reads(c, s, input, events, t)
    ensures Scan(c, input) == if t.mode.CompleteMode? then Some(Flatten(events)) else None
    ensures Track(false, 0, Flatten(events)) == Some((Open(t), t.parts))
  {
    hide Scan, ScanBody, ScanHeaders, ScanSuffix;
    assert "" + (input + "") == input;
    assert Rest(c, s, input + "") == Prepend(Flatten(events), Rest(c, t, ""));
    if t.mode.CompleteMode? { assert Flatten(events) + [] == Flatten(events); }
  }

  lemma SoundBounds(c: Config, s: State)
    requires Sound(c, s)
    ensures s.mode.FirstBoundaryMode? ==> s.searchFrom <= |s.buffer|
  {}

  lemma CompleteStarves(c: Config, s: State, t: State)
    requires Sound(c, s) && s.mode.CompleteMode? && t == s.(buffer := "")
    ensures Sound(c, t) && Starved(c, t) && Reads(c, s, "", [], t)
  {
    forall future ensures Rest(c, s, "" + future) == Prepend([], Rest(c, t, future)) {
      PrependNothing(Rest(c, t, future));
    }
  }

  /** Without a delimiter in the buffer, all but its last bytes are data. */
  lemma NoDelimiter(c: Config, buffer: string)
    requires |buffer| > |c.Delimiter()| + 1 && Find(buffer, c.Delimiter(), 0) == -1
    ensures OnlyData(c, buffer, |buffer| - |c.Delimiter()| - 1)
  {}

  /** Up to the first delimiter everything is data. */
  lemma DelimiterFound(c: Config, buffer: string, position: nat)
    requires Find(buffer, c.Delimiter(), 0) == position
    ensures OnlyData(c, buffer, position) && position + |c.Delimiter()| <= |buffer|
  {}

  lemma NoOverlap(c: Config, buffer: string, position: nat)
    requires At(buffer, position, c.Delimiter())
    ensures !At(buffer, position + 1, c.Delimiter())
  {
    if At(buffer, position + 1, c.Delimiter()) { OverlapMeansEqual(buffer, position, c.Delimiter()); }
  }

  lemma OverlapMeansEqual(s: string, i: nat, d: string)
    requires At(s, i, d) && |d| >= 2 && At(s, i + 1, d)
    ensures d[0] == d[1]
  {
    assert s[i..i + |d|][1] == s[i + 1] == s[i + 1..i + 1 + |d|][0];
  }

  /** A false delimiter is data up to its line feed: no delimiter starts at the line feed. */
  lemma FalseDelimiter(c: Config, buffer: string, position: nat)
    requires Find(buffer, c.Delimiter(), 0) == position && position + |c.Delimiter()| + 2 <= |buffer|
    requires !EndingAt(buffer, position + |c.Delimiter()|)
    ensures OnlyData(c, buffer, position + 2)
  {
    hide At, EndingAt;
    DelimiterFound(c, buffer, position);
    NoOverlap(c, buffer, position);
    forall i: nat | i < position + 2 ensures DelimiterRuledOut(c, buffer, i) {}
  }

  lemma RealDelimiter(c: Config, buffer: string, position: nat)
    requires Find(buffer, c.Delimiter(), 0) == position
    requires EndingAt(buffer, position + |c.Delimiter()|)
    ensures DelimiterAt(c, buffer[position..], 0)
  {
    var suffix := position + |c.Delimiter()|;
    AtDrop(buffer, position, position, c.Delimiter());
    AtDrop(buffer, position, suffix, CRLF);
    AtDrop(buffer, position, suffix, "--");
  }

  lemma Ending(buffer: string, i: nat)
    requires i + 2 <= |buffer|
    ensures EndingAt(buffer, i) == (buffer[i..i + 2] == CRLF || buffer[i..i + 2] == "--")
  {}

  /** Only the place where the search goes on has changed. */
  lemma MovesSearch(c: Config, s: State, t: State)
    requires Sound(c, s) && Sound(c, t) && t == s.(searchFrom := t.searchFrom)
    ensures Reads(c, s, "", [], t)
    ensures Rest(c, s, "") == None ==> Starved(c, t)
  {
    hide Scan, ScanBody, ScanSuffix, ScanHeaders;
    forall future ensures Rest(c, s, "" + future) == Prepend([], Rest(c, t, future)) {
      assert "" + future == future;
      PrependNothing(Rest(c, t, future));
    }
  }
}
