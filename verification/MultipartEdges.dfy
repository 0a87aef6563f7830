/** What surrounds the parts of a multipart body: the preamble, the markers that do and do not count, and the epilogue. */
module MultipartEdges {
  import opened Wrappers
  import opened Text
  import opened HeaderFields
  import opened MultipartHead
  import opened MultipartScan

  // ---- markers

  predicate Ends(tail: string) {
    CRLF <= tail || "--" <= tail
  }

  predicate LineStart(front: string) {
    front == "" || (|front| >= 2 && front[|front| - 2..] == CRLF)
  }

  lemma EndingIs(s: string, i: nat, tail: string)
    requires i <= |s| && s[i..] == tail
    ensures EndingAt(s, i) <==> Ends(tail)
  {
    if |tail| >= 2 { assert s[i..i + 2] == tail[..2]; }
    if CRLF <= tail { assert tail[..2] == CRLF; }
    if "--" <= tail { assert tail[..2] == "--"; }
    if EndingAt(s, i) { assert |tail| >= 2; }
  }

  lemma MarkerIs(c: Config, front: string, tail: string)
    ensures var s := front + c.Marker() + tail; BoundaryAt(c, s, |front|) <==> LineStart(front) && Ends(tail)
  {
    var s := front + c.Marker() + tail;
    AtInMiddle(front, c.Marker(), tail);
    assert s[|front| + |c.Marker()|..] == tail;
    EndingIs(s, |front| + |c.Marker()|, tail);
    if |front| >= 2 { assert s[|front| - 2..|front|] == front[|front| - 2..]; }
  }

  /** The first marker opens the body exactly when it stands at the start of a line and is followed by a line end or by two
      hyphens; what is in front of it is ignored. */
  lemma OpeningMarker(c: Config, front: string, tail: string)
    requires var s := front + c.Marker() + tail; forall i: nat :: i < |front| ==> !At(s, i, c.Marker())
    ensures var s := front + c.Marker() + tail;
            if LineStart(front) && Ends(tail) then FirstBoundary(c, s, 0) == |front| else FirstBoundary(c, s, 0) != |front|
    ensures LineStart(front) && Ends(tail) ==>
              Scan(c, front + c.Marker() + tail) == if |front| > c.maxHeader then None else ScanSuffix(c, tail, 0, 0)
  {
    var s := front + c.Marker() + tail;
    MarkerIs(c, front, tail);
    hide EndingAt, ScanSuffix, At, FirstBoundary;
    assert s[|front| + |c.Marker()|..] == tail;
    var r := FirstBoundary(c, s, 0);
    if LineStart(front) && Ends(tail) {
      assert BoundaryAt(c, s, |front|);
      if r != -1 { assert BoundaryAt(c, s, r); }
      assert r == |front|;
    } else if r == |front| {
      assert false;
    }
  }

  /** Data ends at a delimiter exactly when a line end or two hyphens follow it. */
  lemma DelimiterIs(c: Config, data: string, tail: string)
    requires var s := data + c.Delimiter() + tail; forall i: nat :: i < |data| ==> !At(s, i, c.Delimiter())
    ensures var s := data + c.Delimiter() + tail;
            if Ends(tail) then FirstDelimiter(c, s, 0) == |data| else FirstDelimiter(c, s, 0) != |data|
  {
    var s := data + c.Delimiter() + tail;
    AtInMiddle(data, c.Delimiter(), tail);
    assert s[|data| + |c.Delimiter()|..] == tail;
    EndingIs(s, |data| + |c.Delimiter()|, tail);
    hide EndingAt, At, FirstDelimiter;
    var r := FirstDelimiter(c, s, 0);
    if Ends(tail) {
      assert DelimiterAt(c, s, |data|);
      if r != -1 { assert DelimiterAt(c, s, r); }
    } else if r == |data| {
      assert false;
    }
  }

  // ---- the epilogue

  lemma EndingStays(s: string, more: string, i: int)
    requires i + 2 <= |s|
    ensures EndingAt(s + more, i) == EndingAt(s, i)
  {
    AtPrefix(s, more, i, CRLF);
    AtPrefix(s, more, i, "--");
  }

  lemma EndingWithin(s: string, i: int)
    requires EndingAt(s, i)
    ensures i + 2 <= |s|
  {}

  lemma DelimiterStays(c: Config, s: string, more: string)
    requires FirstDelimiter(c, s, 0) != -1
    ensures FirstDelimiter(c, s + more, 0) == FirstDelimiter(c, s, 0)
    ensures FirstDelimiter(c, s, 0) + |c.Delimiter()| + 2 <= |s|
  {
    hide FirstDelimiter, At, EndingAt;
    var p, d := FirstDelimiter(c, s, 0), |c.Delimiter()|;
    assert DelimiterAt(c, s, p);
    EndingWithin(s, p + d);
    forall i: nat | i <= p ensures DelimiterAt(c, s + more, i) == DelimiterAt(c, s, i) {
      AtPrefix(s, more, i, c.Delimiter());
      EndingStays(s, more, i + d);
    }
    hide DelimiterAt;
    FirstDelimiterIs(c, s + more, p);
  }

  lemma BoundaryStays(c: Config, s: string, more: string)
    requires FirstBoundary(c, s, 0) != -1
    ensures FirstBoundary(c, s + more, 0) == FirstBoundary(c, s, 0)
    ensures FirstBoundary(c, s, 0) + |c.Marker()| + 2 <= |s|
  {
    var p, m := FirstBoundary(c, s, 0), |c.Marker()|;
    assert BoundaryAt(c, s, p);
    assert p + m + 2 <= |s|;
    forall i: nat | i <= p ensures BoundaryAt(c, s + more, i) == BoundaryAt(c, s, i) {
      AtPrefix(s, more, i, c.Marker());
      if i >= 2 { AtPrefix(s, more, i - 2, CRLF); }
      EndingStays(s, more, i + m);
    }
    hide BoundaryAt;
    var r := FirstBoundary(c, s + more, 0);
    assert BoundaryAt(c, s + more, p);
    if r != -1 { assert BoundaryAt(c, s + more, r); }
  }

  lemma {:induction false} SuffixStays(c: Config, s: string, more: string, parts: nat, total: nat)
    requires ScanSuffix(c, s, parts, total).Some?
    ensures ScanSuffix(c, s + more, parts, total) == ScanSuffix(c, s, parts, total)
    decreases |s|, 1
  {
    hide FirstDelimiter, ParsedHead;
    assert |s| >= 2 && (s + more)[0] == s[0] && (s + more)[1] == s[1];
    if !("--" <= s) {
      assert (s + more)[2..] == s[2..] + more;
      HeadersStay(c, s[2..], more, parts, total);
    }
  }

  lemma {:induction false} HeadersStay(c: Config, s: string, more: string, parts: nat, total: nat)
    requires ScanHeaders(c, s, parts, total).Some?
    ensures ScanHeaders(c, s + more, parts, total) == ScanHeaders(c, s, parts, total)
    decreases |s|, 2
  {
    hide FirstDelimiter, ParsedHead, Find, At, ScanBody;
    var end := Find(s, HEAD_END, 0);
    FoundWithin(s, HEAD_END, 0);
    FoundInPrefix(s, more, HEAD_END);
    assert (s + more)[..end] == s[..end] && (s + more)[end + 4..] == s[end + 4..] + more;
    BodyStays(c, s[end + 4..], more, ParsedHead(s[..end]).value, parts + 1, 0, total);
  }

  lemma {:induction false} BodyStays(c: Config, s: string, more: string, part: Part, parts: nat, current: nat, total: nat)
    requires parts > 0 && ScanBody(c, s, part, parts, current, total).Some?
    ensures ScanBody(c, s + more, part, parts, current, total) == ScanBody(c, s, part, parts, current, total)
    decreases |s|, 0
  {
    hide FirstDelimiter, ParsedHead, ScanSuffix, ScanHeaders;
    DelimiterStays(c, s, more);
    var p := FirstDelimiter(c, s, 0);
    var rest := s[p + |c.Delimiter()|..];
    assert (s + more)[..p] == s[..p] && (s + more)[p + |c.Delimiter()|..] == rest + more;
    SuffixStays(c, rest, more, parts, total + p);
  }

  /** Whatever follows a complete body, it is read alike. */
  lemma EpilogueIsIgnored(c: Config, s: string, epilogue: string)
    requires Scan(c, s).Some?
    ensures Scan(c, s + epilogue) == Scan(c, s)
  {
    hide FirstBoundary, ScanSuffix;
    BoundaryStays(c, s, epilogue);
    var start := FirstBoundary(c, s, 0) + |c.Marker()|;
    assert (s + epilogue)[start..] == s[start..] + epilogue;
    SuffixStays(c, s[start..], epilogue, 0, 0);
  }
}
