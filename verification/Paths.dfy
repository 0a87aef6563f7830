/** Dot segments in paths (section 5.2.4 of RFC 3986): the in-place rewriting of a path is a stack of its segments. */
module Paths {
  import opened Wrappers
  import opened Text

  // ---- the rewriting

  function Popped(output: string): string {
    if FindLast(output, '/') == -1 then "" else output[..FindLast(output, '/')]
  }

  /** The length of the next segment, with its slash in front. */
  function SegmentEnd(path: string): (n: nat)
    requires path != ""
    ensures 0 < n <= |path|
  {
    var from := if path[0] == '/' then 1 else 0;
    var next := Find(path, "/", from);
    FoundWithin(path, "/", from);
    if next == -1 then |path|
    else
      assert At(path, next, "/");
      assert path[next..next + 1][0] == path[next];
      next
  }

  /** One round of the loop: the output and the path after it. */
  function Rewrite(path: string, output: string): (string, string)
    requires path != ""
  {
    if At(path, 0, "../") then (output, path[3..])
    else if At(path, 0, "./") then (output, path[2..])
    else if At(path, 0, "/./") then (output, path[2..])
    else if path == "/." then (output, "/")
    else if At(path, 0, "/../") then (Popped(output), path[3..])
    else if path == "/.." then (Popped(output), "/")
    else if path == "." || path == ".." then (output, "")
    else (output + path[..SegmentEnd(path)], path[SegmentEnd(path)..])
  }

  function Removed(path: string, output: string): string
    decreases |path|
  {
    if path == "" then output
    else
      var (output', path') := Rewrite(path, output);
      Removed(path', output')
  }

  /** `remove_dot_segments` */
  method RemoveDotSegments(path: string) returns (output: string)
    ensures output == Removed(path, "")
    ensures path != "" && path[0] == '/' ==> output == Render(Normal(path))
  {
    hide SegmentEnd, Popped;
    var rest := path;
    output := "";
    while rest != ""
      invariant Removed(rest, output) == Removed(path, "")
      decreases |rest|
    {
      if At(rest, 0, "../") { rest := rest[3..]; }
      else if At(rest, 0, "./") { rest := rest[2..]; }
      else if At(rest, 0, "/./") { rest := rest[2..]; }
      else if rest == "/." { rest := "/"; }
      else if At(rest, 0, "/../") {
        rest := rest[3..];
        output := Popped(output);
      }
      else if rest == "/.." {
        rest := "/";
        output := Popped(output);
      }
      else if rest == "." || rest == ".." { rest := ""; }
      else {
        var count := SegmentEnd(rest);
        output := output + rest[..count];
        rest := rest[count..];
      }
    }
    if path != "" && path[0] == '/' { RemovedIsNormal(path); }
  }

  // ---- the reference: a stack of segments

  /** The pieces between slashes; empty ones count. */
  function Split(s: string): (r: seq<string>)
    ensures r != []
    decreases |s|
  {
    var slash := Find(s, "/", 0);
    FoundWithin(s, "/", 0);
    if slash == -1 then [s] else [s[..slash]] + Split(s[slash + 1..])
  }

  function Pop(stack: seq<string>): seq<string> {
    if stack == [] then [] else stack[..|stack| - 1]
  }

  /** A dot segment at the end leaves an empty segment. */
  function Stack(segments: seq<string>, stack: seq<string>): seq<string>
    decreases |segments|
  {
    if segments == [] then stack
    else
      var end := if |segments| == 1 then [""] else [];
      if segments[0] == "." then Stack(segments[1..], stack + end)
      else if segments[0] == ".." then Stack(segments[1..], Pop(stack) + end)
      else Stack(segments[1..], stack + [segments[0]])
  }

  function Normal(path: string): seq<string>
    requires path != ""
  {
    Stack(Split(path[1..]), [])
  }

  function Render(stack: seq<string>): string {
    if stack == [] then "" else Render(stack[..|stack| - 1]) + "/" + stack[|stack| - 1]
  }

  // ---- the rewriting follows the stack

  lemma RenderSnoc(stack: seq<string>, last: string)
    ensures Render(stack + [last]) == Render(stack) + "/" + last
  {
    assert (stack + [last])[..|stack|] == stack;
  }

  lemma {:induction false} LastSlashIs(a: string, last: string)
    requires Free(last, '/')
    ensures FindLast(a + "/" + last, '/') == |a|
    decreases |last|
  {
    var s := a + "/" + last;
    if last == "" {
      assert s[|s| - 1] == '/';
    } else {
      LastSlashIs(a, last[..|last| - 1]);
      assert s[..|s| - 1] == a + "/" + last[..|last| - 1];
    }
  }

  predicate AllFree(segments: seq<string>) {
    forall i :: 0 <= i < |segments| ==> Free(segments[i], '/')
  }

  lemma PoppedIsPop(stack: seq<string>)
    requires AllFree(stack)
    ensures Popped(Render(stack)) == Render(Pop(stack))
  {
    if stack != [] {
      var front, last := stack[..|stack| - 1], stack[|stack| - 1];
      LastSlashIs(Render(front), last);
      assert Render(stack)[..|Render(front)|] == Render(front);
    }
  }

  lemma SplitFirst(segment: string, rest: string)
    requires Free(segment, '/')
    ensures Split(segment + "/" + rest) == [segment] + Split(rest)
    ensures Split(segment) == [segment]
  {
    var s := segment + "/" + rest;
    AtInMiddle(segment, "/", rest);
    forall j | 0 <= j < |segment| ensures !At(s, j, "/") {
      assert s[j] == segment[j] && segment[j] != '/';
      assert s[j..j + 1][0] == s[j];
    }
    FindIs(s, "/", 0, |segment|);
    assert s[..|segment|] == segment && s[|segment| + 1..] == rest;
    FindAbsent(segment, '/');
    assert "/" == ['/'];
  }

  /** A path that starts with a slash: its first segment, and what follows it. */
  lemma FirstSegment(path: string) returns (segment: string, rest: string)
    requires path != "" && path[0] == '/'
    ensures Free(segment, '/') && path == "/" + segment + rest && SegmentEnd(path) == |segment| + 1
    ensures rest == "" || rest[0] == '/'
    ensures Split(path[1..]) == [segment] + (if rest == "" then [] else Split(rest[1..]))
  {
    SegmentEndIs(path);
    hide Find, At, Free, Split, SegmentEnd;
    var n := SegmentEnd(path);
    segment, rest := path[1..n], path[n..];
    CutSegment(path, n);
    hide *;
    SplitSegment(segment, rest, path[1..]);
  }

  lemma CutSegment(path: string, n: nat)
    requires 0 < n <= |path| && path[0] == '/'
    ensures path == "/" + path[1..n] + path[n..] && path[1..] == path[1..n] + path[n..]
  {}

  lemma SplitSegment(segment: string, rest: string, all: string)
    requires Free(segment, '/') && all == segment + rest && (rest == "" || rest[0] == '/')
    ensures Split(all) == [segment] + (if rest == "" then [] else Split(rest[1..]))
  {
    hide Split, Free;
    if rest == "" {
      assert all == segment && [segment] + [] == [segment];
      SplitFirst(segment, "");
    } else {
      assert all == segment + "/" + rest[1..];
      SplitFirst(segment, rest[1..]);
    }
  }

  lemma SegmentEndIs(path: string)
    requires path != "" && path[0] == '/'
    ensures var n := SegmentEnd(path); Free(path[1..n], '/') && (path[n..] == "" || path[n..][0] == '/')
  {
    var n, next := SegmentEnd(path), Find(path, "/", 1);
    FoundWithin(path, "/", 1);
    assert "/" == ['/'];
    forall i | 1 <= i < n ensures path[i] != '/' { CharAt(path, i, '/'); }
    if next != -1 { CharAt(path, next, '/'); }
  }

  /** One round on a path that starts with a slash, by its first segment. */
  lemma RewriteSegment(path: string, segment: string, rest: string, output: string)
    requires path == "/" + segment + rest && Free(segment, '/') && SegmentEnd(path) == |segment| + 1
    requires rest == "" || rest[0] == '/'
    ensures Rewrite(path, output) ==
            if segment == "." then (output, if rest == "" then "/" else rest)
            else if segment == ".." then (Popped(output), if rest == "" then "/" else rest)
            else (output + "/" + segment, rest)
  {
    hide SegmentEnd, Popped;
    assert path[0] == '/';
    StartsOtherwise(path, "../");
    StartsOtherwise(path, "./");
    StartsWith(path, segment, rest, ".");
    StartsWith(path, segment, rest, "..");
    if segment == "." || segment == ".." {
      assert path[|segment| + 1..] == rest;
    } else {
      assert path[..|segment| + 1] == "/" + segment && path[|segment| + 1..] == rest;
      assert output + ("/" + segment) == output + "/" + segment;
    }
  }

  /** The first segment is `dots` exactly when the path is that segment or goes on with a slash. */
  lemma StartsWith(path: string, segment: string, rest: string, dots: string)
    requires path == "/" + segment + rest && Free(segment, '/') && Free(dots, '/') && (rest == "" || rest[0] == '/')
    ensures At(path, 0, "/" + dots + "/") <==> segment == dots && rest != ""
    ensures path == "/" + dots <==> segment == dots && rest == ""
  {
    var pattern := "/" + dots + "/";
    if At(path, 0, pattern) {
      assert path[0..|pattern|] == pattern;
      SameSegment(path, segment, rest, dots);
    }
    if path == "/" + dots {
      SlashFree(path, dots, "");
      assert path[1..] == dots && path[1..] == segment + rest;
      NothingFollows(path, segment, rest, dots);
    }
    if segment == dots && rest != "" { assert path[0..|pattern|] == pattern; }
  }

  lemma NothingFollows(path: string, segment: string, rest: string, dots: string)
    requires path != "" && path[1..] == dots && dots == segment + rest && Free(dots, '/') && (rest == "" || rest[0] == '/')
    ensures rest == "" && segment == dots
  {
    forall i | 0 <= i < |rest| ensures rest[i] != '/' { assert rest[i] == dots[|segment| + i]; }
  }

  lemma StartsOtherwise(path: string, pattern: string)
    requires path != "" && pattern != "" && path[0] != pattern[0]
    ensures !At(path, 0, pattern)
  {
    if |pattern| <= |path| { assert path[0..|pattern|][0] == path[0]; }
  }

  lemma SameSegment(path: string, segment: string, rest: string, dots: string)
    requires path == "/" + segment + rest && Free(segment, '/') && Free(dots, '/') && (rest == "" || rest[0] == '/')
    requires |path| >= |dots| + 2 && path[0..|dots| + 2] == "/" + dots + "/"
    ensures segment == dots && rest != ""
  {
    SlashFree(path, segment, rest);
    SlashFree(path, dots, path[|dots| + 1..]);
    assert path[|dots| + 1] == '/';
    assert rest != "" ==> path[|segment| + 1] == rest[0];
    assert path[1..|dots| + 1] == dots && path[1..|segment| + 1] == segment;
  }

  lemma SlashFree(path: string, segment: string, rest: string)
    requires path == "/" + segment + rest && Free(segment, '/')
    ensures forall i :: 1 <= i <= |segment| ==> path[i] != '/'
  {
    forall i | 1 <= i <= |segment| ensures path[i] != '/' { assert path[i] == segment[i - 1]; }
  }

  lemma {:induction false} RemovedFollowsStack(path: string, stack: seq<string>)
    requires path != "" && path[0] == '/' && AllFree(stack)
    ensures Removed(path, Render(stack)) == Render(Stack(Split(path[1..]), stack))
    decreases |path|, if path == "/" then 0 else 1
  {
    hide At, SegmentEnd, Popped, Render, Split, Rewrite, Free;
    var segment, rest := FirstSegment(path);
    RewriteSegment(path, segment, rest, Render(stack));
    PoppedIsPop(stack);
    var output, next := Rewrite(path, Render(stack)).0, Rewrite(path, Render(stack)).1;
    assert Removed(path, Render(stack)) == Removed(next, output);
    var below := if segment == "." then stack else if segment == ".." then Pop(stack) else stack + [segment];
    if segment != "." && segment != ".." { RenderSnoc(stack, segment); }
    assert output == Render(below) && AllFree(below);
    if next == "" {
      assert Removed(next, output) == output;
      assert Split(path[1..]) == [segment] && [segment][1..] == [];
      assert Stack([segment], stack) == Stack([], below) == below;
    } else if rest == "" {
      LastDots(segment, stack, below);
      SlashAlone(below);
    } else {
      RemovedFollowsStack(next, below);
      assert ([segment] + Split(rest[1..]))[1..] == Split(rest[1..]);
      StackStep(segment, Split(rest[1..]), stack, below);
    }
  }

  lemma StackStep(segment: string, more: seq<string>, stack: seq<string>, below: seq<string>)
    requires more != [] && below == if segment == "." then stack else if segment == ".." then Pop(stack) else stack + [segment]
    ensures Stack([segment] + more, stack) == Stack(more, below)
  {
    assert ([segment] + more)[1..] == more;
    assert stack + [] == stack && Pop(stack) + [] == Pop(stack);
  }

  lemma LastDots(segment: string, stack: seq<string>, below: seq<string>)
    requires (segment == "." && below == stack) || (segment == ".." && below == Pop(stack))
    ensures Stack([segment], stack) == below + [""]
  {
    assert [segment][1..] == [];
  }

  lemma SlashAlone(below: seq<string>)
    ensures Removed("/", Render(below)) == Render(below + [""])
  {
    var path, output := "/", Render(below);
    assert Find(path, "/", 1) == -1;
    assert path[..1] == "/" && path[1..] == "";
    RenderSnoc(below, "");
    assert output + "/" + "" == output + "/";
    assert Removed("", output + "/") == output + "/";
  }

  lemma RemovedIsNormal(path: string)
    requires path != "" && path[0] == '/'
    ensures Removed(path, "") == Render(Normal(path))
  {
    assert Render([]) == "";
    RemovedFollowsStack(path, []);
  }

  // ---- what dot segments mean

  predicate Ordinary(segment: string) {
    segment != "." && segment != ".."
  }

  /** In front of other segments a single dot means nothing, and two dots take back the segment before them. */
  lemma {:induction false} DotsCancel(before: seq<string>, x: string, more: seq<string>, stack: seq<string>)
    requires more != [] && Ordinary(x)
    ensures Stack(before + ["."] + more, stack) == Stack(before + more, stack)
    ensures Stack(before + [x, ".."] + more, stack) == Stack(before + more, stack)
    decreases |before|
  {
    if before == [] {
      assert [] + ["."] + more == ["."] + more && [] + more == more;
      assert [] + [x, ".."] + more == [x] + ([".."] + more);
      StackStep(".", more, stack, stack);
      StackStep(x, [".."] + more, stack, stack + [x]);
      StackStep("..", more, stack + [x], stack);
    } else {
      var first, rest := before[0], before[1..];
      var below := if first == "." then stack else if first == ".." then Pop(stack) else stack + [first];
      assert before + ["."] + more == [first] + (rest + ["."] + more) && before + more == [first] + (rest + more);
      assert before + [x, ".."] + more == [first] + (rest + [x, ".."] + more);
      StackStep(first, rest + ["."] + more, stack, below);
      StackStep(first, rest + [x, ".."] + more, stack, below);
      StackStep(first, rest + more, stack, below);
      DotsCancel(rest, x, more, below);
    }
  }

  /** The same for paths; two dots at the root are ignored. */
  lemma DotSegments(before: seq<string>, x: string, more: seq<string>)
    requires AllFree(before + [x] + more) && more != [] && Ordinary(x)
    ensures Removed(Render(before + ["."] + more), "") == Removed(Render(before + more), "")
    ensures Removed(Render(before + [x, ".."] + more), "") == Removed(Render(before + more), "")
    ensures Removed(Render([".."] + more), "") == Removed(Render(more), "")
  {
    assert AllFree(before) && AllFree(more) && Free(x, '/') by {
      var all := before + [x] + more;
      forall i | 0 <= i < |before| ensures Free(before[i], '/') { assert all[i] == before[i]; }
      forall i | 0 <= i < |more| ensures Free(more[i], '/') { assert all[|before| + 1 + i] == more[i]; }
      assert all[|before|] == x;
    }
    assert Free(".", '/') && Free("..", '/');
    hide Free, Removed, Stack, Split, Render;
    PathOfSegments(before + ["."] + more);
    PathOfSegments(before + [x, ".."] + more);
    PathOfSegments(before + more);
    PathOfSegments([".."] + more);
    PathOfSegments(more);
    DotsCancel(before, x, more, []);
    StackStep("..", more, [], []);
  }

  lemma PathOfSegments(segments: seq<string>)
    requires segments != [] && AllFree(segments)
    ensures Removed(Render(segments), "") == Render(Stack(segments, []))
  {
    RenderCons(segments);
    SplitRendered(segments);
    hide Removed, Stack, Split, Render;
    NormalIsStack(Render(segments));
    RemovedIsNormal(Render(segments));
  }

  // ---- what a normal path looks like

  predicate NoDots(segments: seq<string>) {
    forall i :: 0 <= i < |segments| ==> segments[i] != "." && segments[i] != ".."
  }

  lemma {:induction false} SplitIsFree(s: string)
    ensures AllFree(Split(s))
    decreases |s|
  {
    var slash := Find(s, "/", 0);
    FoundWithin(s, "/", 0);
    var first := if slash == -1 then s else s[..slash];
    assert "/" == ['/'];
    forall i | 0 <= i < |first| ensures first[i] != '/' { CharAt(s, i, '/'); }
    if slash != -1 { SplitIsFree(s[slash + 1..]); }
  }

  lemma {:induction false} StackIsNormal(segments: seq<string>, stack: seq<string>)
    requires AllFree(segments) && AllFree(stack) && NoDots(stack)
    ensures AllFree(Stack(segments, stack)) && NoDots(Stack(segments, stack))
    ensures segments != [] ==> Stack(segments, stack) != []
    decreases |segments|
  {
    hide Free;
    NothingIsFree('/');
    if segments != [] {
      var end := if |segments| == 1 then [""] else [];
      var below := if segments[0] == "." then stack + end else if segments[0] == ".." then Pop(stack) + end else stack + [segments[0]];
      assert AllFree(segments[1..]);
      StackIsNormal(segments[1..], below);
      if |segments| == 1 { assert segments[1..] == [] && below != []; }
    }
  }

  lemma NothingIsFree(c: char)
    ensures Free("", c)
  {}

  lemma {:induction false} StackKeeps(segments: seq<string>, stack: seq<string>)
    requires NoDots(segments)
    ensures Stack(segments, stack) == stack + segments
    decreases |segments|
  {
    if segments == [] {
      assert stack + segments == stack;
    } else {
      StackKeeps(segments[1..], stack + [segments[0]]);
      assert stack + [segments[0]] + segments[1..] == stack + segments;
    }
  }

  lemma {:induction false} SplitRendered(stack: seq<string>)
    requires stack != [] && AllFree(stack)
    ensures Render(stack) != "" && Render(stack)[0] == '/' && Split(Render(stack)[1..]) == stack
    decreases |stack|
  {
    hide Split, Free;
    if |stack| == 1 {
      assert stack[..0] == [] && Render([]) == "";
      assert Render(stack) == "/" + stack[0];
      assert Render(stack)[1..] == stack[0];
      SplitFirst(stack[0], "");
      assert stack == [stack[0]];
    } else {
      RenderCons(stack);
      var rest := Render(stack[1..]);
      SplitRendered(stack[1..]);
      assert Render(stack)[1..] == stack[0] + "/" + rest[1..];
      SplitFirst(stack[0], rest[1..]);
      assert stack == [stack[0]] + stack[1..];
    }
  }

  lemma {:induction false} RenderCons(stack: seq<string>)
    requires stack != []
    ensures Render(stack) == "/" + stack[0] + Render(stack[1..])
    decreases |stack|
  {
    hide Render;
    var front, last := stack[..|stack| - 1], stack[|stack| - 1];
    RenderNothing();
    RenderSnoc(front, last);
    assert stack == front + [last];
    if front == [] {
      assert stack[1..] == [];
    } else {
      RenderCons(front);
      RenderSnoc(front[1..], last);
      assert stack[1..] == front[1..] + [last];
      assert "/" + stack[0] + Render(front[1..]) + "/" + last == "/" + stack[0] + (Render(front[1..]) + "/" + last);
    }
  }

  lemma RenderNothing()
    ensures Render([]) == ""
  {}

  /** A normalised path starts with a slash, has no dot segment, and is not changed by normalising it again. */
  lemma NormalPaths(path: string)
    requires path != "" && path[0] == '/'
    ensures var normal := Removed(path, "");
            && normal != "" && normal[0] == '/'
            && NoDots(Split(normal[1..]))
            && Removed(normal, "") == normal
  {
    RemovedIsNormal(path);
    SplitIsFree(path[1..]);
    StackIsNormal(Split(path[1..]), []);
    var stack := Normal(path);
    SplitRendered(stack);
    hide Split, Stack, Render, Removed, Normal;
    NormalIsStack(path);
    RemovedIsNormal(Render(stack));
    NormalIsStack(Render(stack));
    StackKeeps(stack, []);
    assert [] + stack == stack;
  }

  lemma NormalIsStack(path: string)
    requires path != ""
    ensures Normal(path) == Stack(Split(path[1..]), [])
  {}

  // ---- references

  function PathOf(target: string): string {
    var query := Find(target, "?", 0);
    FoundWithin(target, "?", 0);
    if query == -1 then target else target[..query]
  }

  function QueryOf(target: string): string {
    var query := Find(target, "?", 0);
    FoundWithin(target, "?", 0);
    if query == -1 then "" else target[query..]
  }

  predicate SchemeStart(c: char) {
    'a' <= c <= 'z' || 'A' <= c <= 'Z'
  }

  predicate SchemeChar(c: char) {
    SchemeStart(c) || '0' <= c <= '9' || c == '+' || c == '-' || c == '.'
  }

  /** `has_url_scheme` */
  predicate HasScheme(s: string) {
    var colon := Find(s, ":", 0);
    FoundWithin(s, ":", 0);
    colon > 0 && SchemeStart(s[0]) && forall i :: 1 <= i < colon ==> SchemeChar(s[i])
  }

  /** What `parse_url` makes of a base; its target starts with a slash. */
  datatype Url = Url(scheme: string, origin: string, target: string)

  function WithoutFragment(reference: string): string {
    var hash := Find(reference, "#", 0);
    FoundWithin(reference, "#", 0);
    if hash == -1 then reference else reference[..hash]
  }

  /** The directory of the base in front of a relative reference. */
  function Directory(base: string, reference: string): string {
    if reference != "" && reference[0] == '/' then "" else PathOf(base)[..FindLast(PathOf(base), '/') + 1]
  }

  /** Only paths are normalised; the query of the reference, or without a reference the one of the base, stays as it is. */
  predicate Resolved(base: string, reference: string, target: string)
    requires base != "" && base[0] == '/'
  {
    if reference == "" then target == base
    else if reference[0] == '?' then PathOf(target) == PathOf(base) && QueryOf(target) == reference
    else
      DirectoryIsAbsolute(base, reference);
      PathOf(target) == Render(Normal(Directory(base, reference) + PathOf(reference))) && QueryOf(target) == QueryOf(reference)
  }

  /** The last part of `resolve_url`: a reference without scheme, authority and fragment. */
  method ResolveTarget(base: string, reference: string) returns (target: string)
    requires base != "" && base[0] == '/'
    ensures Resolved(base, reference, target)
  {
    hide Removed, Normal, Render, Find, At, Free, Directory;
    Parts(reference);
    Parts(base);
    if reference == "" { return base; }
    if reference[0] == '?' {
      JoinedParts(PathOf(base), reference);
      return PathOf(base) + reference;
    }
    DirectoryIsAbsolute(base, reference);
    CombinedParts(base, reference);
    var combined := Directory(base, reference) + reference;
    target := RemoveDotSegments(PathOf(combined));
    NothingIsFree('?');
    Parts(combined);
    RemovedKeepsFree(PathOf(combined), "", '?');
    JoinedParts(target, QueryOf(combined));
    target := target + QueryOf(combined);
  }

  /** `resolve_url`; nothing stands for a base that cannot be parsed. */
  method ResolveUrl(base: Option<Url>, reference: string) returns (r: Option<string>)
    requires base.Some? ==> base.value.target != "" && base.value.target[0] == '/'
    ensures var short := WithoutFragment(reference);
            if HasScheme(short) then r == Some(short)
            else if base.None? then r == None
            else if At(short, 0, "//") then r == Some(base.value.scheme + ":" + short)
            else r.Some? && exists target :: r.value == base.value.origin + target && Resolved(base.value.target, short, target)
  {
    hide HasScheme, Resolved;
    var short := WithoutFragment(reference);
    if HasScheme(short) { return Some(short); }
    if base.None? { return None; }
    if At(short, 0, "//") { return Some(base.value.scheme + ":" + short); }
    var target := ResolveTarget(base.value.target, short);
    r := Some(base.value.origin + target);
  }

  lemma {:induction false} FirstIsSlash(path: string)
    requires path != "" && path[0] == '/'
    ensures FindLast(path, '/') >= 0
  {
    assert path[0] == '/';
  }

  /** Path and query make up a target, and the first question mark separates them. */
  lemma Parts(target: string)
    ensures target == PathOf(target) + QueryOf(target) && Free(PathOf(target), '?')
    ensures QueryOf(target) == "" || QueryOf(target)[0] == '?'
    ensures target != "" && target[0] == '?' ==> PathOf(target) == ""
    ensures target != "" && target[0] != '?' ==> PathOf(target) != "" && PathOf(target)[0] == target[0]
  {
    var query, path := Find(target, "?", 0), PathOf(target);
    FoundWithin(target, "?", 0);
    assert "?" == ['?'];
    forall i | 0 <= i < |path| ensures path[i] != '?' { CharAt(target, i, '?'); }
    if query != -1 { CharAt(target, query, '?'); }
    if target != "" { CharAt(target, 0, '?'); }
  }

  lemma JoinedParts(path: string, query: string)
    requires Free(path, '?') && (query == "" || query[0] == '?')
    ensures PathOf(path + query) == path && QueryOf(path + query) == query
  {
    var target := path + query;
    assert "?" == ['?'];
    if query == "" {
      assert target == path;
      FindAbsent(path, '?');
    } else {
      CharAt(target, |path|, '?');
      forall j | 0 <= j < |path| ensures !At(target, j, "?") { CharAt(target, j, '?'); }
      FindIs(target, "?", 0, |path|);
    }
  }

  lemma DirectoryIsAbsolute(base: string, reference: string)
    requires base != "" && base[0] == '/' && reference != "" && reference[0] != '?'
    ensures var path := Directory(base, reference) + PathOf(reference); path != "" && path[0] == '/'
  {
    hide Find, At;
    Parts(base);
    Parts(reference);
    FirstIsSlash(PathOf(base));
  }

  lemma CombinedParts(base: string, reference: string)
    requires reference != ""
    ensures var combined := Directory(base, reference) + reference;
            PathOf(combined) == Directory(base, reference) + PathOf(reference) && QueryOf(combined) == QueryOf(reference)
  {
    var directory := Directory(base, reference);
    Parts(base);
    Parts(reference);
    hide Find, At, PathOf, QueryOf;
    JoinedParts(directory + PathOf(reference), QueryOf(reference));
    assert directory + PathOf(reference) + QueryOf(reference) == directory + reference;
  }

  lemma RewriteKeepsFree(path: string, output: string, c: char)
    requires path != "" && Free(path, c) && Free(output, c) && c != '/'
    ensures var (output', path') := Rewrite(path, output); Free(output', c) && Free(path', c) && |path'| < |path|
  {
    hide SegmentEnd, FindLast;
  }

  /** Normalising brings in no characters but slashes. */
  lemma {:induction false} RemovedKeepsFree(path: string, output: string, c: char)
    requires Free(path, c) && Free(output, c) && c != '/'
    ensures Free(Removed(path, output), c)
    decreases |path|
  {
    hide Rewrite, Free;
    if path != "" {
      RewriteKeepsFree(path, output, c);
      RemovedKeepsFree(Rewrite(path, output).1, Rewrite(path, output).0, c);
    }
  }

  // ---- what the pieces of a reference are

  /** The directory in front of a relative reference is the longest part of the base path that ends with a slash. */
  lemma DirectoryIsLongest(base: string, reference: string)
    requires base != "" && base[0] == '/' && (reference == "" || reference[0] != '/')
    ensures var directory, path := Directory(base, reference), PathOf(base);
            && directory != "" && directory <= path && directory[|directory| - 1] == '/'
            && forall i :: |directory| <= i < |path| ==> path[i] != '/'
  {
    Parts(base);
    FirstIsSlash(PathOf(base));
  }

  /** A fragment starts at the first hash sign and is cut off. */
  lemma FragmentIsCut(reference: string)
    ensures var short := WithoutFragment(reference);
            && Free(short, '#') && short <= reference && (short == reference || reference[|short|] == '#')
  {
    var hash := Find(reference, "#", 0);
    FoundWithin(reference, "#", 0);
    assert "#" == ['#'];
    var short := WithoutFragment(reference);
    forall i | 0 <= i < |short| ensures short[i] != '#' { CharAt(reference, i, '#'); }
    if hash != -1 { CharAt(reference, hash, '#'); }
  }

  /** A reference has a scheme exactly when its first colon ends a letter followed by letters, digits and `+`, `-`, `.`. */
  lemma SchemeIs(front: string, rest: string)
    requires Free(front, ':')
    ensures HasScheme(front + ":" + rest) <==>
            front != "" && SchemeStart(front[0]) && forall i :: 0 <= i < |front| ==> SchemeChar(front[i])
    ensures !HasScheme(front)
  {
    var s := front + ":" + rest;
    AtInMiddle(front, ":", rest);
    forall j | 0 <= j < |front| ensures !At(s, j, ":") { assert s[j..j + 1][0] == front[j]; }
    FindIs(s, ":", 0, |front|);
    FindAbsent(front, ':');
    assert ":" == [':'];
    forall i | 0 <= i < |front| ensures s[i] == front[i] {}
  }
}
