/** An accepted multipart body keeps within every limit of its parser, and its events have the right shape. */
module MultipartLimits {
  import opened Wrappers
  import opened Text
  import opened HeaderFields
  import opened MultipartHead
  import opened MultipartScan

  /** How many data bytes a trace has, of all parts and of one part. */
  function DataBytes(trace: Trace): nat {
    if trace == [] then 0 else (if trace[0].Byte? then 1 else 0) + DataBytes(trace[1..])
  }

  function PartBytes(trace: Trace, index: nat): nat {
    if trace == [] then 0 else (if trace[0].Byte? && trace[0].index == index then 1 else 0) + PartBytes(trace[1..], index)
  }

  lemma {:induction false} CountsAppend(a: Trace, b: Trace, index: nat)
    ensures DataBytes(a + b) == DataBytes(a) + DataBytes(b) && PartBytes(a + b, index) == PartBytes(a, index) + PartBytes(b, index)
  {
    if a == [] {
      assert a + b == b;
    } else {
      assert (a + b)[1..] == a[1..] + b;
      CountsAppend(a[1..], b, index);
    }
  }

  lemma {:induction false} CountsOfBytes(part: nat, data: string, index: nat)
    ensures DataBytes(Bytes(part, data)) == |data| && PartBytes(Bytes(part, data), index) == if part == index then |data| else 0
    decreases |data|
  {
    if data != "" {
      assert Bytes(part, data)[1..] == Bytes(part, data[1..]);
      CountsOfBytes(part, data[1..], index);
    }
  }

  lemma CountsOfOne(token: Token, index: nat)
    requires !token.Byte?
    ensures DataBytes([token]) == 0 && PartBytes([token], index) == 0
  {
    assert [token][1..] == [];
  }

  /** The data of a body and the end of its part. */
  lemma CountsOfBody(part: Part, parts: nat, data: string, index: nat)
    requires parts > 0
    ensures var trace := Bytes(parts - 1, data) + [End(parts - 1, part)];
            && DataBytes(trace) == |data| && PartBytes(trace, index) == (if index == parts - 1 then |data| else 0)
            && Track(true, parts, trace) == Some((false, parts))
  {
    CountsOfBytes(parts - 1, data, index);
    CountsOfOne(End(parts - 1, part), index);
    CountsAppend(Bytes(parts - 1, data), [End(parts - 1, part)], index);
    TrackBytes(parts, data);
    TrackAppend(true, parts, Bytes(parts - 1, data), [End(parts - 1, part)]);
    assert [End(parts - 1, part)][1..] == [];
  }

  /** The rest of a trace keeps the limits when `parts` parts with `total` bytes came before it. */
  ghost predicate Keeps(c: Config, trace: Trace, open: bool, parts: nat, total: nat, index: nat, current: nat) {
    && total + DataBytes(trace) <= c.maxTotal
    && current + PartBytes(trace, index) <= c.maxPart
    && Track(open, parts, trace).Some? && !Track(open, parts, trace).value.0 && Track(open, parts, trace).value.1 <= c.maxParts
  }

  /** The bytes of part `index` that came before, when the body of the last part has `current` bytes so far. */
  function Before(index: nat, parts: nat, current: nat): nat {
    if index + 1 == parts then current else 0
  }

  lemma {:induction false} BodyKeeps(c: Config, s: string, part: Part, parts: nat, current: nat, total: nat, index: nat)
    requires 0 < parts <= c.maxParts && current <= c.maxPart && total <= c.maxTotal
    requires ScanBody(c, s, part, parts, current, total).Some?
    ensures Keeps(c, ScanBody(c, s, part, parts, current, total).value, true, parts, total, index, Before(index, parts, current))
    decreases |s|, 0
  {
    hide ScanSuffix, ScanHeaders, ParsedHead;
    var p := FirstDelimiter(c, s, 0);
    var rest := s[p + |c.Delimiter()|..];
    var more := ScanSuffix(c, rest, parts, total + p).value;
    SuffixKeeps(c, rest, parts, total + p, index, if index + 1 == parts then current + p else 0);
    CountsOfBody(part, parts, s[..p], index);
    var first := Bytes(parts - 1, s[..p]) + [End(parts - 1, part)];
    CountsAppend(first, more, index);
    TrackAppend(true, parts, first, more);
  }

  lemma {:induction false} SuffixKeeps(c: Config, s: string, parts: nat, total: nat, index: nat, earlier: nat)
    requires parts <= c.maxParts && total <= c.maxTotal && earlier <= c.maxPart && (index >= parts ==> earlier == 0)
    requires ScanSuffix(c, s, parts, total).Some?
    ensures Keeps(c, ScanSuffix(c, s, parts, total).value, false, parts, total, index, earlier)
    decreases |s|, 1
  {
    if !("--" <= s) { HeadersKeep(c, s[2..], parts, total, index, earlier); }
  }

  lemma {:induction false} HeadersKeep(c: Config, s: string, parts: nat, total: nat, index: nat, earlier: nat)
    requires parts <= c.maxParts && total <= c.maxTotal && earlier <= c.maxPart && (index >= parts ==> earlier == 0)
    requires ScanHeaders(c, s, parts, total).Some?
    ensures Keeps(c, ScanHeaders(c, s, parts, total).value, false, parts, total, index, earlier)
    decreases |s|, 2
  {
    hide ScanBody, ParsedHead;
    var end := Find(s, HEAD_END, 0);
    var part := ParsedHead(s[..end]).value;
    var more := ScanBody(c, s[end + 4..], part, parts + 1, 0, total).value;
    BodyKeeps(c, s[end + 4..], part, parts + 1, 0, total, index);
    if index < parts { OtherPart(c, s[end + 4..], part, parts + 1, 0, total, index); }
    CountsOfOne(Begin(parts, part), index);
    CountsAppend([Begin(parts, part)], more, index);
    assert [Begin(parts, part)][1..] == [];
    TrackAppend(false, parts, [Begin(parts, part)], more);
  }

  /** Once a part is closed, no byte of it follows. */
  lemma {:induction false} OtherPart(c: Config, s: string, part: Part, parts: nat, current: nat, total: nat, index: nat)
    requires parts > 0 && index + 1 < parts && ScanBody(c, s, part, parts, current, total).Some?
    ensures PartBytes(ScanBody(c, s, part, parts, current, total).value, index) == 0
    decreases |s|, 0
  {
    hide ScanSuffix, ScanHeaders, ParsedHead;
    var p := FirstDelimiter(c, s, 0);
    var rest := s[p + |c.Delimiter()|..];
    ClosedInSuffix(c, rest, parts, total + p, index);
    CountsOfBody(part, parts, s[..p], index);
    CountsAppend(Bytes(parts - 1, s[..p]) + [End(parts - 1, part)], ScanSuffix(c, rest, parts, total + p).value, index);
  }

  lemma {:induction false} ClosedInSuffix(c: Config, s: string, parts: nat, total: nat, index: nat)
    requires index < parts && ScanSuffix(c, s, parts, total).Some?
    ensures PartBytes(ScanSuffix(c, s, parts, total).value, index) == 0
    decreases |s|, 1
  {
    if !("--" <= s) { ClosedInHeaders(c, s[2..], parts, total, index); }
  }

  lemma {:induction false} ClosedInHeaders(c: Config, s: string, parts: nat, total: nat, index: nat)
    requires index < parts && ScanHeaders(c, s, parts, total).Some?
    ensures PartBytes(ScanHeaders(c, s, parts, total).value, index) == 0
    decreases |s|, 2
  {
    hide ScanBody, ParsedHead;
    var end := Find(s, HEAD_END, 0);
    var part := ParsedHead(s[..end]).value;
    OtherPart(c, s[end + 4..], part, parts + 1, 0, total, index);
    CountsOfOne(Begin(parts, part), index);
    CountsAppend([Begin(parts, part)], ScanBody(c, s[end + 4..], part, parts + 1, 0, total).value, index);
  }

  /** Whatever body is accepted: its data fits into the total, each part fits into the limit of a part, there are not
      too many parts, and the events are (begin data* end)* with increasing indices. */
  lemma AcceptedIsWithinLimits(c: Config, s: string, index: nat)
    requires Scan(c, s).Some?
    ensures var trace := Scan(c, s).value;
            && DataBytes(trace) <= c.maxTotal && PartBytes(trace, index) <= c.maxPart
            && exists n: nat :: n <= c.maxParts && Track(false, 0, trace) == Some((false, n))
  {
    var p := FirstBoundary(c, s, 0);
    SuffixKeeps(c, s[p + |c.Marker()|..], 0, 0, index, 0);
  }
}
