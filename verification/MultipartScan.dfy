/** The reference reading of a complete multipart body: one pass that sees the whole stream. */
module MultipartScan {
  import opened Wrappers
  import opened Text
  import opened HeaderFields
  import opened MultipartHead

  datatype Config = Config(boundary: string, maxHeader: nat, maxParts: nat, maxPart: nat, maxTotal: nat)
  {
    function Marker(): (m: string)
      ensures |m| >= 2
    {
      "--" + boundary
    }

    function Delimiter(): (d: string)
      ensures |d| == |Marker()| + 2 && d[0] == '\r' && d[1] == '\n'
    {
      CRLF + Marker()
    }
  }

  /** What a consumer observes, with the data of a part taken apart into bytes, so that only how the
      data is cut into pieces is left out. */
  datatype Token =
    | Begin(index: nat, part: Part)
    | Byte(index: nat, value: char)
    | End(index: nat, part: Part)

  type Trace = seq<Token>

  function Bytes(index: nat, data: string): Trace {
    seq(|data|, i requires 0 <= i < |data| => Byte(index, data[i]))
  }

  // ---- delimiters of the complete stream

  /** A marker at the start of a line. */
  predicate MarkerAt(c: Config, s: string, i: int) {
    At(s, i, c.Marker()) && (i == 0 || At(s, i - 2, CRLF))
  }

  predicate EndingAt(s: string, i: int) {
    At(s, i, CRLF) || At(s, i, "--")
  }

  /** The marker that opens the body. */
  predicate BoundaryAt(c: Config, s: string, i: int) {
    MarkerAt(c, s, i) && EndingAt(s, i + |c.Marker()|)
  }

  /** A delimiter that ends a part: followed by a line end or by two hyphens. */
  predicate DelimiterAt(c: Config, s: string, i: int) {
    At(s, i, c.Delimiter()) && EndingAt(s, i + |c.Delimiter()|)
  }

  function FirstBoundary(c: Config, s: string, from: nat): (r: int)
    ensures r == -1 || (from <= r && BoundaryAt(c, s, r))
    ensures forall i :: from <= i && (r == -1 || i < r) ==> !BoundaryAt(c, s, i)
    decreases |s| - from
  {
    if from > |s| then -1 else if BoundaryAt(c, s, from) then from else FirstBoundary(c, s, from + 1)
  }

  function FirstDelimiter(c: Config, s: string, from: nat): (r: int)
    ensures r == -1 || (from <= r && DelimiterAt(c, s, r))
    ensures forall i :: from <= i && (r == -1 || i < r) ==> !DelimiterAt(c, s, i)
    decreases |s| - from
  {
    if from > |s| then -1 else if DelimiterAt(c, s, from) then from else FirstDelimiter(c, s, from + 1)
  }

  // ---- the scan

  function Prepend(trace: Trace, rest: Option<Trace>): Option<Trace> {
    if rest.None? then None else Some(trace + rest.value)
  }

  /** `parts` counts the parts so far; `current` and `total` count data bytes, of the part and of all. */
  function ScanBody(c: Config, s: string, part: Part, parts: nat, current: nat, total: nat): Option<Trace>
    requires parts > 0
    decreases |s|, 0
  {
    var p := FirstDelimiter(c, s, 0);
    if p == -1 || current + p > c.maxPart || total + p > c.maxTotal then None
    else Prepend(Bytes(parts - 1, s[..p]) + [End(parts - 1, part)], ScanSuffix(c, s[p + |c.Delimiter()|..], parts, total + p))
  }

  function ScanSuffix(c: Config, s: string, parts: nat, total: nat): Option<Trace>
    decreases |s|, 1
  {
    if "--" <= s then Some([])
    else if CRLF <= s then ScanHeaders(c, s[2..], parts, total)
    else None
  }

  function ScanHeaders(c: Config, s: string, parts: nat, total: nat): Option<Trace>
    decreases |s|, 2
  {
    var end := Find(s, HEAD_END, 0);
    if end == -1 || end > c.maxHeader then None
    else
      var part := ParsedHead(s[..end]);
      if part.None? || parts >= c.maxParts then None
      else Prepend([Begin(parts, part.value)], ScanBody(c, s[end + 4..], part.value, parts + 1, 0, total))
  }

  /** The trace of a whole multipart body, or `None` when it is rejected. */
  function Scan(c: Config, s: string): Option<Trace> {
    var p := FirstBoundary(c, s, 0);
    if p == -1 || p > c.maxHeader then None else ScanSuffix(c, s[p + |c.Marker()|..], 0, 0)
  }

  // ---- the shape of a trace

  /** Reads a trace as (begin byte* end)* with increasing indices; `None` when it has another shape. */
  function Track(open: bool, parts: nat, trace: Trace): Option<(bool, nat)>
    decreases |trace|
  {
    if trace == [] then Some((open, parts))
    else
      match trace[0]
      case Begin(i, _) => if !open && i == parts then Track(true, parts + 1, trace[1..]) else None
      case Byte(i, _) => if open && i + 1 == parts then Track(true, parts, trace[1..]) else None
      case End(i, _) => if open && i + 1 == parts then Track(false, parts, trace[1..]) else None
  }

  lemma {:induction false} TrackAppend(open: bool, parts: nat, a: Trace, b: Trace)
    ensures Track(open, parts, a + b) ==
            if Track(open, parts, a).None? then None
            else Track(Track(open, parts, a).value.0, Track(open, parts, a).value.1, b)
    decreases |a|
  {
    if a == [] {
      assert a + b == b;
    } else {
      assert (a + b)[1..] == a[1..] + b;
      match a[0]
      case Begin(_, _) => TrackAppend(true, parts + 1, a[1..], b);
      case Byte(_, _) => TrackAppend(true, parts, a[1..], b);
      case End(_, _) => TrackAppend(false, parts, a[1..], b);
    }
  }

  lemma {:induction false} TrackBytes(parts: nat, data: string)
    requires parts > 0
    ensures Track(true, parts, Bytes(parts - 1, data)) == Some((true, parts))
    decreases |data|
  {
    if data != "" {
      assert Bytes(parts - 1, data)[1..] == Bytes(parts - 1, data[1..]);
      TrackBytes(parts, data[1..]);
    }
  }

  // ---- moving the origin

  lemma PrependAppend(a: Trace, b: Trace, rest: Option<Trace>)
    ensures Prepend(a + b, rest) == Prepend(a, Prepend(b, rest))
  {
    if rest.Some? { assert a + b + rest.value == a + (b + rest.value); }
  }

  lemma DelimiterShift(c: Config, s: string, count: nat, i: nat)
    requires count <= |s|
    ensures DelimiterAt(c, s[count..], i) == DelimiterAt(c, s, i + count)
  {
    var end := i + |c.Delimiter()|;
    AtDrop(s, count, i + count, c.Delimiter());
    AtDrop(s, count, end + count, CRLF);
    AtDrop(s, count, end + count, "--");
  }

  /** The first delimiter is the one before which there is none. */
  lemma FirstDelimiterIs(c: Config, s: string, p: int)
    requires p == -1 || (0 <= p && DelimiterAt(c, s, p))
    requires forall i: nat :: (p == -1 || i < p) ==> !DelimiterAt(c, s, i)
    ensures FirstDelimiter(c, s, 0) == p
  {
    var r := FirstDelimiter(c, s, 0);
    if r != -1 { assert DelimiterAt(c, s, r); }
  }

  lemma FirstDelimiterShift(c: Config, s: string, count: nat)
    requires count <= |s|
    requires forall i: nat :: i < count ==> !DelimiterAt(c, s, i)
    ensures FirstDelimiter(c, s, 0) ==
            if FirstDelimiter(c, s[count..], 0) == -1 then -1 else FirstDelimiter(c, s[count..], 0) + count
  {
    hide DelimiterAt, FirstDelimiter;
    var q := FirstDelimiter(c, s[count..], 0);
    var p := if q == -1 then -1 else q + count;
    if q != -1 { DelimiterShift(c, s, count, q); }
    forall i: nat | p == -1 || i < p ensures !DelimiterAt(c, s, i) {
      if i >= count { DelimiterShift(c, s, count, i - count); }
    }
    FirstDelimiterIs(c, s, p);
  }

  lemma BytesSplit(s: string, part: Part, parts: nat, count: nat, q: nat)
    requires parts > 0 && count + q <= |s|
    ensures BodyTrace(s, part, parts, count + q) == Bytes(parts - 1, s[..count]) + BodyTrace(s[count..], part, parts, q)
  {}

  lemma ScanRestShift(c: Config, s: string, parts: nat, total: nat, count: nat, q: nat)
    requires count <= |s| && DelimiterAt(c, s, count + q) && DelimiterAt(c, s[count..], q)
    ensures ScanRest(c, s, parts, total, count + q) == ScanRest(c, s[count..], parts, total + count, q)
  {
    var end := q + |c.Delimiter()|;
    assert s[count..][end..] == s[count + end..];
  }

  /** Data before the next real delimiter can be taken out in front of the rest of the body. */
  lemma ScanBodyShift(c: Config, s: string, part: Part, parts: nat, current: nat, total: nat, count: nat)
    requires parts > 0 && count <= |s|
    requires forall i: nat :: i < count ==> !DelimiterAt(c, s, i)
    ensures current + count > c.maxPart || total + count > c.maxTotal ==> ScanBody(c, s, part, parts, current, total) == None
    ensures ScanBody(c, s, part, parts, current, total) ==
            Prepend(Bytes(parts - 1, s[..count]), ScanBody(c, s[count..], part, parts, current + count, total + count))
  {
    FirstDelimiterShift(c, s, count);
    var q := FirstDelimiter(c, s[count..], 0);
    if q == -1 || current + count + q > c.maxPart || total + count + q > c.maxTotal {
      assert ScanBody(c, s, part, parts, current, total) == None;
      assert ScanBody(c, s[count..], part, parts, current + count, total + count) == None;
    } else {
      ScanBodyShiftAt(c, s, part, parts, current, total, count, q);
    }
  }

  lemma ScanBodyShiftAt(c: Config, s: string, part: Part, parts: nat, current: nat, total: nat, count: nat, q: nat)
    requires parts > 0 && count <= |s|
    requires FirstDelimiter(c, s[count..], 0) == q && FirstDelimiter(c, s, 0) == count + q
    requires current + count + q <= c.maxPart && total + count + q <= c.maxTotal
    ensures ScanBody(c, s, part, parts, current, total) ==
            Prepend(Bytes(parts - 1, s[..count]), ScanBody(c, s[count..], part, parts, current + count, total + count))
  {
    hide ParsedHead, BoundaryAt, EndingAt, ScanSuffix, ScanHeaders;
    ScanBodySplit(c, s, part, parts, current, total, count, q);
    ScanBodyAt(c, s[count..], part, parts, current + count, total + count, q);
    PrependAppend(Bytes(parts - 1, s[..count]), BodyTrace(s[count..], part, parts, q), ScanRest(c, s[count..], parts, total + count, q));
  }

  lemma ScanBodySplit(c: Config, s: string, part: Part, parts: nat, current: nat, total: nat, count: nat, q: nat)
    requires parts > 0 && count <= |s|
    requires FirstDelimiter(c, s[count..], 0) == q && FirstDelimiter(c, s, 0) == count + q
    requires current + count + q <= c.maxPart && total + count + q <= c.maxTotal
    ensures ScanBody(c, s, part, parts, current, total) ==
            Prepend(Bytes(parts - 1, s[..count]) + BodyTrace(s[count..], part, parts, q),
                    ScanRest(c, s[count..], parts, total + count, q))
  {
    hide ParsedHead, BoundaryAt, ScanSuffix, ScanHeaders;
    ScanRestShift(c, s, parts, total, count, q);
    BytesSplit(s, part, parts, count, q);
    ScanBodyAt(c, s, part, parts, current, total, count + q);
  }

  /** The data before the delimiter at `p`, and the end of the part. */
  function BodyTrace(s: string, part: Part, parts: nat, p: nat): Trace
    requires parts > 0 && p <= |s|
  {
    Bytes(parts - 1, s[..p]) + [End(parts - 1, part)]
  }

  /** What the scan makes of the stream after the delimiter at `p`. */
  function ScanRest(c: Config, s: string, parts: nat, total: nat, p: nat): Option<Trace>
    requires DelimiterAt(c, s, p)
  {
    ScanSuffix(c, s[p + |c.Delimiter()|..], parts, total + p)
  }

  lemma ScanBodyAt(c: Config, s: string, part: Part, parts: nat, current: nat, total: nat, p: nat)
    requires parts > 0 && FirstDelimiter(c, s, 0) == p && current + p <= c.maxPart && total + p <= c.maxTotal
    ensures ScanBody(c, s, part, parts, current, total) ==
            Prepend(BodyTrace(s, part, parts, p), ScanRest(c, s, parts, total, p))
  {}

  lemma ScanBodyCut(c: Config, head: string, rest: string, part: Part, parts: nat, current: nat, total: nat)
    requires parts > 0
    requires forall i: nat :: i < |head| ==> !DelimiterAt(c, head + rest, i)
    ensures current + |head| > c.maxPart || total + |head| > c.maxTotal ==>
              ScanBody(c, head + rest, part, parts, current, total) == None
    ensures ScanBody(c, head + rest, part, parts, current, total) ==
            Prepend(Bytes(parts - 1, head), ScanBody(c, rest, part, parts, current + |head|, total + |head|))
  {
    hide ParsedHead, DelimiterAt, FirstDelimiter;
    assert (head + rest)[..|head|] == head && (head + rest)[|head|..] == rest;
    ScanBodyShift(c, head + rest, part, parts, current, total, |head|);
  }
}
