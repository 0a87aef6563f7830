/** Which bodies depend on how their bytes arrive: exactly those that a strict and a lax reader take differently. */
module HttpCuts {
  import opened Wrappers
  import opened Text
  import opened HeaderFields
  import opened HttpBody

  // ---- at once, and in two pieces

  /** A line that is in the buffer already is read as a lax reader does. */
  lemma LineAtOnce(s: string, limit: nat)
    ensures var line, a := LineOf(s, limit, false), Arrival(s, []);
            && a.All() == s
            && Arrived(s, [], limit) == (if line.None? then None else Some(line.value.0))
            && (line.Some? ==> AfterLine(a) == Arrival(line.value.1, []) && |line.value.1| < |s|)
  {
    JoinNone();
    EmptyFirst(s);
    ArrivedStep(s, [], limit);
    AfterLineStep(Arrival(s, []));
    hide Find, At, Arrived, AfterLine;
  }

  lemma {:induction false} TrailersAtOnce(s: string, used: nat, limit: nat)
    ensures Left(ArrivedTrailers(Arrival(s, []), used, limit)) == Trailers(s, used, limit, false)
    decreases |s|
  {
    hide LineOf, TrailerOf, Arrived, AfterLine, Join;
    LineAtOnce(s, limit);
    var line := LineOf(s, limit, false);
    if line.Some? {
      LineAtOnce(line.value.1, limit);
      if line.value.0 != "" { TrailersAtOnce(line.value.1, used + |line.value.0| + 2, limit); }
    }
  }

  lemma {:induction false} StrictTrailersAreLax(s: string, used: nat, limit: nat)
    requires Trailers(s, used, limit, true).Some?
    ensures Trailers(s, used, limit, false) == Trailers(s, used, limit, true)
    decreases |s|
  {
    hide LineOf, TrailerOf;
    LaxLine(s, limit);
    LineIsShorter(s, limit);
    var (line, rest) := LineOf(s, limit, true).value;
    if line != "" { StrictTrailersAreLax(rest, used + |line| + 2, limit); }
  }

  lemma LineLength(s: string, limit: nat)
    ensures var line := LineOf(s, limit, false);
            line.Some? ==> |line.value.0| + 2 + |line.value.1| == |s| && line.value.1 == s[|line.value.0| + 2..]
  {
    FoundWithin(s, CRLF, 0);
  }

  /** A line that has arrived whole is taken, whatever is still missing behind it. */
  lemma LineInBuffer(s: string, limit: nat, k: nat)
    requires LineOf(s, limit, false).Some? && |LineOf(s, limit, false).value.0| + 2 <= k <= |s|
    ensures var (line, rest) := LineOf(s, limit, false).value;
            && |line| + 2 + |rest| == |s|
            && Arrived(s[..k], [s[k..]], limit) == Some(line)
            && AfterLine(Arrival(s[..k], [s[k..]])) == Arrival(rest[..k - |line| - 2], [rest[k - |line| - 2..]])
  {
    var end := Find(s, CRLF, 0);
    var view, tail := s[..k], s[k..];
    FoundWithin(s, CRLF, 0);
    assert s == view + tail;
    forall i | 0 <= i <= end ensures At(view, i, CRLF) == At(s, i, CRLF) { AtPrefix(view, tail, i, CRLF); }
    FindIs(view, CRLF, 0, end);
    assert view[..end] == s[..end];
    assert view[end + 2..] == s[end + 2..][..k - end - 2] && tail == s[end + 2..][k - end - 2..];
  }

  /** A line that is cut behind a line feed in it is refused. */
  lemma FeedIsRefused(s: string, limit: nat) returns (k: nat)
    requires LineOf(s, limit, false).Some? && !Free(LineOf(s, limit, false).value.0, '\n')
    ensures k <= |s| && Arrived(s[..k], [s[k..]], limit).None?
  {
    var line := LineOf(s, limit, false).value.0;
    var i :| 0 <= i < |line| && line[i] == '\n';
    k := i + 1;
    var first, second := s[..k], s[k..];
    assert first + second == s && first[i] == '\n';
    NoLineEndBefore(s, first, second);
    hide Find, At, Arrived, Free, LineOf;
    FeedSomewhere(first) by { assert !Free(first, '\n') by { FeedInside(first, i); } }
    ArrivedStep(first, [second], limit);
  }

  lemma FeedInside(s: string, i: nat)
    requires i < |s| && s[i] == '\n'
    ensures !Free(s, '\n')
  {}

  // ---- trailers

  /** Trailers that only a lax reader takes are refused under some cut. */
  lemma {:induction false} BadTrailerCut(s: string, used: nat, limit: nat) returns (k: nat)
    requires Trailers(s, used, limit, false).Some? && Trailers(s, used, limit, true).None?
    ensures k <= |s| && ArrivedTrailers(Arrival(s[..k], [s[k..]]), used, limit).None?
    decreases |s|
  {
    hide Find, At, TrailerOf, LineOf, Arrived, AfterLine, Free;
    StrictIsClean(s, limit);
    LineIsShorter(s, limit);
    var (line, rest) := LineOf(s, limit, false).value;
    if !Free(line, '\n') {
      k := FeedIsRefused(s, limit);
    } else {
      var j := BadTrailerCut(rest, used + |line| + 2, limit);
      LineLength(s, limit);
      k := |line| + 2 + j;
      LineInBuffer(s, limit, k);
    }
  }

  // ---- chunks

  lemma {:induction false} StrictChunksAreLax(s: string, received: nat, limits: Limits)
    ensures Dechunked(s, received, limits.body, limits.head, true).payload == Dechunked(s, received, limits.body, limits.head, false).payload
    ensures Dechunked(s, received, limits.body, limits.head, true).end.Some? ==>
              Dechunked(s, received, limits.body, limits.head, true).end == Dechunked(s, received, limits.body, limits.head, false).end
    decreases |s|
  {
    hide ChunkStart, Trailers;
    var start := ChunkStart(s);
    if start.Some? {
      var (size, rest) := start.value;
      ChunkStartIsShorter(s);
      if size == 0 {
        if Trailers(rest, 0, limits.head, true).Some? { StrictTrailersAreLax(rest, 0, limits.head); }
      } else if |rest| >= size + 2 {
        StrictChunksAreLax(rest[size + 2..], received + size, limits);
      }
    }
  }

  lemma {:induction false} ChunksAtOnce(s: string, received: nat, limits: Limits)
    ensures Left(ArrivedChunks(Arrival(s, []), received, limits.body, limits.head)) ==
            Dechunked(s, received, limits.body, limits.head, false).end
    decreases |s|
  {
    hide ChunkStart, Trailers, ArrivedTrailers, AfterLine, Skip, Find, At;
    JoinNone();
    EmptyFirst(s);
    var start := ChunkStart(s);
    if start.Some? {
      var (size, rest) := start.value;
      ChunkLeaves(Arrival(s, []), size, rest);
      AtOnceAfterLine(s);
      EmptyFirst(rest);
      if size == 0 {
        TrailersAtOnce(rest, 0, limits.head);
      } else if |rest| >= size + 2 && rest[size..size + 2] == CRLF {
        AtOnceSkip(rest, size);
        AtOnceAfterLine(rest[size..]);
        EmptyFirst(rest[size + 2..]);
        ChunksAtOnce(rest[size + 2..], received + size, limits);
      }
    }
  }

  lemma AtOnceAfterLine(s: string)
    ensures AfterLine(Arrival(s, [])) == Arrival(AfterLine(Arrival(s, [])).All(), [])
  {
    JoinNone();
    EmptyFirst(AfterLine(Arrival(s, [])).view);
  }

  lemma AtOnceSkip(s: string, n: nat)
    requires n <= |s|
    ensures Skip(Arrival(s, []), n) == Arrival(s[n..], [])
  {}

  /** What is left behind a size line that has arrived whole. */
  lemma StartInBuffer(s: string, size: nat, rest: string, k: nat)
    requires ChunkStart(s) == Some((size, rest)) && |s| - |rest| <= k <= |s|
    ensures var a, j := Arrival(s[..k], [s[k..]]), k - (|s| - |rest|);
            a.All() == s && AfterLine(a) == Arrival(rest[..j], [rest[j..]])
  {
    StartLine(s);
    LineLength(s, LINE_LIMIT);
    hide ChunkStart, LineOf, Arrived, AfterLine, Skip, Find, At;
    LineInBuffer(s, LINE_LIMIT, k);
    hide *;
    TwoPieces(s, k);
  }

  lemma StartLine(s: string)
    requires ChunkStart(s).Some?
    ensures LineOf(s, LINE_LIMIT, false).Some? && LineOf(s, LINE_LIMIT, false).value.1 == ChunkStart(s).value.1
  {}

  lemma TwoPieces(s: string, k: nat)
    requires k <= |s|
    ensures Arrival(s[..k], [s[k..]]).All() == s
  {
    JoinOne(s[k..]);
    assert s[..k] + s[k..] == s;
  }

  lemma SkipInBuffer(rest: string, size: nat, j: nat)
    requires size + 2 <= j <= |rest| && rest[size..size + 2] == CRLF
    ensures AfterLine(Skip(Arrival(rest[..j], [rest[j..]]), size)) == Arrival(rest[size + 2..j], [rest[j..]])
  {
    var view := rest[size..j];
    assert rest[..j][size..] == view && view[..2] == CRLF && view[2..] == rest[size + 2..j];
    LineEndFirst(view);
    hide Find, At;
  }

  /** A chunked body that only a lax reader takes is refused under some cut. */
  lemma {:induction false} BadChunkCut(s: string, received: nat, limits: Limits) returns (k: nat)
    requires Dechunked(s, received, limits.body, limits.head, false).end.Some?
    requires Dechunked(s, received, limits.body, limits.head, true).end.None?
    ensures k <= |s| && ArrivedChunks(Arrival(s[..k], [s[k..]]), received, limits.body, limits.head).None?
    decreases |s|
  {
    hide ChunkStart, Trailers, ArrivedTrailers, AfterLine, Skip, Find, At;
    var (size, rest) := ChunkStart(s).value;
    ChunkStartIsShorter(s);
    if size == 0 {
      var j := BadTrailerCut(rest, 0, limits.head);
      k := |s| - |rest| + j;
      StartInBuffer(s, size, rest, k);
    } else {
      var next := rest[size + 2..];
      var j := BadChunkCut(next, received + size, limits);
      k := |s| - |next| + j;
      StartInBuffer(s, size, rest, k);
      SkipInBuffer(rest, size, size + 2 + j);
      assert next[..j] == rest[size + 2..size + 2 + j] && next[j..] == rest[size + 2 + j..];
    }
  }

  // ---- bodies

  /** An empty buffer is filled before anything else happens. */
  lemma FirstBlock(block: string, blocks: seq<string>, received: nat, limits: Limits)
    ensures ArrivedChunks(Arrival("", [block] + blocks), received, limits.body, limits.head) ==
            ArrivedChunks(Arrival(block, blocks), received, limits.body, limits.head)
  {
    var a, b := Arrival("", [block] + blocks), Arrival(block, blocks);
    FirstLineBlock(block, blocks);
    hide ChunkStart, ArrivedTrailers, AfterLine, Skip, Join;
    assert a.All() == b.All() by {
      JoinFirst(block, blocks);
      EmptyFirst(block + Join(blocks));
    }
  }

  lemma FirstLineBlock(block: string, blocks: seq<string>)
    ensures AfterLine(Arrival("", [block] + blocks)) == AfterLine(Arrival(block, blocks))
  {
    AfterLineStep(Arrival("", [block] + blocks));
    NothingYet(0);
    assert ([block] + blocks)[1..] == blocks;
    EmptyFirst(block);
  }

  /** The result of reading a body, with the bytes that are left. */
  function Outcome(cuts: seq<string>, chunked: bool, length: Option<nat>, untilEof: bool, limits: Limits)
    : Option<(string, seq<Field>, string)>
  {
    var r := ArrivedBody(Arrival("", cuts), chunked, length, untilEof, limits);
    if r.None? then None else Some((r.value.0, r.value.1, r.value.2.All()))
  }

  /** A body is read alike under all cuts if and only if a strict and a lax reader agree about it. */
  lemma BodyCutsDoNotMatter(s: string, chunked: bool, length: Option<nat>, untilEof: bool, limits: Limits)
    ensures (forall cuts: seq<string> :: Join(cuts) == s ==>
               Outcome(cuts, chunked, length, untilEof, limits) == Outcome([s], chunked, length, untilEof, limits))
            <==> BodyOf(s, chunked, length, untilEof, limits, true) == BodyOf(s, chunked, length, untilEof, limits, false)
  {
    hide ArrivedBody, BodyOf, Join;
    JoinOne(s);
    EmptyFirst(s);
    AtOnceIsLax(s, chunked, length, untilEof, limits);
    StrictBodyIsLax(s, chunked, length, untilEof, limits);
    forall cuts | Join(cuts) == s
      ensures BodyOf(s, chunked, length, untilEof, limits, true).Some? ==> Outcome(cuts, chunked, length, untilEof, limits).Some?
      ensures Outcome(cuts, chunked, length, untilEof, limits).Some? ==>
                BodyOf(s, chunked, length, untilEof, limits, false) == Outcome(cuts, chunked, length, untilEof, limits)
    {
      BodyIsBetween(Arrival("", cuts), chunked, length, untilEof, limits);
    }
    if BodyOf(s, chunked, length, untilEof, limits, true) != BodyOf(s, chunked, length, untilEof, limits, false) {
      var cuts := BadBodyCut(s, chunked, length, untilEof, limits);
      assert Join(cuts) == s;
    }
  }

  lemma AtOnceIsLax(s: string, chunked: bool, length: Option<nat>, untilEof: bool, limits: Limits)
    ensures Outcome([s], chunked, length, untilEof, limits) == BodyOf(s, chunked, length, untilEof, limits, false)
  {
    hide Dechunked, ArrivedChunks, Skip, Join;
    JoinOne(s);
    JoinNone();
    EmptyFirst(s);
    EmptyFirst("");
    FirstBlock(s, [], 0, limits);
    assert [s] + [] == [s];
    ChunksAtOnce(s, 0, limits);
    if length.Some? && length.value <= |s| { SkipIsRest(Arrival("", [s]), length.value); }
  }

  lemma StrictBodyIsLax(s: string, chunked: bool, length: Option<nat>, untilEof: bool, limits: Limits)
    ensures BodyOf(s, chunked, length, untilEof, limits, true).Some? ==>
              BodyOf(s, chunked, length, untilEof, limits, true) == BodyOf(s, chunked, length, untilEof, limits, false)
  {
    hide Dechunked;
    StrictChunksAreLax(s, 0, limits);
  }

  /** Two cuts of a body about which the strict and the lax reader disagree: at once it is taken, in two pieces it is refused. */
  lemma BadBodyCut(s: string, chunked: bool, length: Option<nat>, untilEof: bool, limits: Limits) returns (cuts: seq<string>)
    requires BodyOf(s, chunked, length, untilEof, limits, true) != BodyOf(s, chunked, length, untilEof, limits, false)
    ensures Join(cuts) == s && Outcome(cuts, chunked, length, untilEof, limits).None?
    ensures Outcome([s], chunked, length, untilEof, limits).Some?
  {
    hide Dechunked, ArrivedChunks, Join;
    AtOnceIsLax(s, chunked, length, untilEof, limits);
    StrictBodyIsLax(s, chunked, length, untilEof, limits);
    StrictChunksAreLax(s, 0, limits);
    var k := BadChunkCut(s, 0, limits);
    cuts := [s[..k], s[k..]];
    assert [s[..k]] + [s[k..]] == cuts;
    FirstBlock(s[..k], [s[k..]], 0, limits);
    JoinFirst(s[..k], [s[k..]]);
    TwoPieces(s, k);
  }
}
