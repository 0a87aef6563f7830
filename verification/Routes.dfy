/** Indexed route dispatch: the buckets by method give the same answer as trying the routes in order of registration. */
module Routes {
  import opened Wrappers
  import opened Text
  import opened RoutePatterns

  /** A registered route; the method is kept in lower case. */
  datatype Route = Route(name: string, pattern: Pattern)

  datatype Bucket = Bucket(patterned: seq<nat>, literalFirst: map<string, nat>)

  // ---- the linear definition

  predicate Serves(route: Route, key: string) {
    key != "" && (route.name == key || (key == "head" && route.name == "get"))
  }

  predicate Answers(route: Route, key: string, path: string, search: Search) {
    Serves(route, key) && Matches(route.pattern, path, search)
  }

  /** The first registered route that serves the method and matches the path. */
  function FirstRoute(routes: seq<Route>, from: nat, key: string, path: string, search: Search): (r: Option<nat>)
    requires from <= |routes|
    ensures r.Some? ==> from <= r.value < |routes| && Answers(routes[r.value], key, path, search)
    ensures forall i :: from <= i < (if r.Some? then r.value else |routes|) ==> !Answers(routes[i], key, path, search)
    decreases |routes| - from
  {
    if from == |routes| then None
    else if Answers(routes[from], key, path, search) then Some(from)
    else FirstRoute(routes, from + 1, key, path, search)
  }

  /** The route is registered for the method, or for GET when the method is HEAD, and its pattern matches. */
  predicate Chosen(route: Route, key: string, path: string, search: Search) {
    && (if key == "head" then route.name == "head" || route.name == "get" else key != "" && route.name == key)
    && Matches(route.pattern, path, search)
  }

  lemma ChosenAreFirst(routes: seq<Route>, key: string, path: string, search: Search)
    ensures var found := FirstRoute(routes, 0, key, path, search);
            && (found.Some? ==> Chosen(routes[found.value], key, path, search))
            && forall i :: 0 <= i < (if found.Some? then found.value else |routes|) ==> !Chosen(routes[i], key, path, search)
  {
    hide Matches;
    var found := FirstRoute(routes, 0, key, path, search);
    forall i | 0 <= i < (if found.Some? then found.value else |routes|) ensures !Chosen(routes[i], key, path, search) {
      assert !Answers(routes[i], key, path, search);
    }
  }

  // ---- the index

  predicate Increasing(s: seq<nat>) {
    forall i, j :: 0 <= i < j < |s| ==> s[i] < s[j]
  }

  /** A bucket lists the patterned routes of a method in order, and the first exact route for each text. */
  predicate BucketFor(bucket: Bucket, routes: seq<Route>, upTo: nat, name: string)
    requires upTo <= |routes|
  {
    && Increasing(bucket.patterned)
    && (forall k :: 0 <= k < |bucket.patterned| ==> Listed(routes, upTo, name, bucket.patterned[k]))
    && (forall i :: 0 <= i < upTo && routes[i].name == name && !routes[i].pattern.Exact? ==> i in bucket.patterned)
    && (forall text :: text in bucket.literalFirst ==> FirstExact(routes, upTo, name, text, bucket.literalFirst[text]))
    && (forall i :: 0 <= i < upTo && routes[i].name == name && routes[i].pattern.Exact? ==> routes[i].pattern.text in bucket.literalFirst)
  }

  predicate Listed(routes: seq<Route>, upTo: nat, name: string, i: nat)
    requires upTo <= |routes|
  {
    i < upTo && routes[i].name == name && !routes[i].pattern.Exact?
  }

  predicate FirstExact(routes: seq<Route>, upTo: nat, name: string, text: string, i: nat)
    requires upTo <= |routes|
  {
    && i < upTo && routes[i].name == name && routes[i].pattern == Exact(text)
    && forall j :: 0 <= j < i && routes[j].name == name ==> routes[j].pattern != Exact(text)
  }

  predicate Indexed(index: map<string, Bucket>, routes: seq<Route>, upTo: nat)
    requires upTo <= |routes|
  {
    && (forall name :: name in index ==> BucketFor(index[name], routes, upTo, name))
    && (forall i :: 0 <= i < upTo ==> routes[i].name in index)
  }

  /** One route more in the bucket of its method. */
  function Extended(bucket: Bucket, routes: seq<Route>, i: nat): Bucket
    requires i < |routes|
  {
    match routes[i].pattern
    case Exact(text) => if text in bucket.literalFirst then bucket else bucket.(literalFirst := bucket.literalFirst[text := i])
    case _ => bucket.(patterned := bucket.patterned + [i])
  }

  lemma ExtendedLists(bucket: Bucket, routes: seq<Route>, i: nat, name: string)
    requires i < |routes| && BucketFor(bucket, routes, i, name) && routes[i].name == name
    ensures BucketFor(Extended(bucket, routes, i), routes, i + 1, name)
  {
    var next := Extended(bucket, routes, i);
    if !routes[i].pattern.Exact? {
      forall k | 0 <= k < |next.patterned| ensures Listed(routes, i + 1, name, next.patterned[k]) {
        if k < |bucket.patterned| { assert Listed(routes, i, name, bucket.patterned[k]); }
      }
      forall j | 0 <= j < i + 1 && routes[j].name == name && !routes[j].pattern.Exact? ensures j in next.patterned {
        if j < i { assert j in bucket.patterned; } else { assert next.patterned[|bucket.patterned|] == i; }
      }
      assert Increasing(next.patterned) by {
        forall a, b | 0 <= a < b < |next.patterned| ensures next.patterned[a] < next.patterned[b] {
          assert Listed(routes, i, name, bucket.patterned[a]);
        }
      }
    }
    forall text | text in next.literalFirst ensures FirstExact(routes, i + 1, name, text, next.literalFirst[text]) {
      if text in bucket.literalFirst { assert FirstExact(routes, i, name, text, bucket.literalFirst[text]); }
    }
    forall k | 0 <= k < |bucket.patterned| ensures Listed(routes, i + 1, name, bucket.patterned[k]) {
      assert Listed(routes, i, name, bucket.patterned[k]);
    }
  }

  lemma OtherBucket(bucket: Bucket, routes: seq<Route>, i: nat, name: string)
    requires i < |routes| && BucketFor(bucket, routes, i, name) && routes[i].name != name
    ensures BucketFor(bucket, routes, i + 1, name)
  {
    forall text | text in bucket.literalFirst ensures FirstExact(routes, i + 1, name, text, bucket.literalFirst[text]) {
      assert FirstExact(routes, i, name, text, bucket.literalFirst[text]);
    }
    forall k | 0 <= k < |bucket.patterned| ensures Listed(routes, i + 1, name, bucket.patterned[k]) {
      assert Listed(routes, i, name, bucket.patterned[k]);
    }
  }

  lemma EmptyBucket(routes: seq<Route>, i: nat, name: string)
    requires i <= |routes| && forall j :: 0 <= j < i ==> routes[j].name != name
    ensures BucketFor(Bucket([], map[]), routes, i, name)
  {}

  lemma EmptyIndex(routes: seq<Route>)
    ensures Indexed(map[], routes, 0)
  {}

  lemma IndexExtended(index: map<string, Bucket>, routes: seq<Route>, i: nat)
    requires i < |routes| && Indexed(index, routes, i)
    ensures var name := routes[i].name;
            Indexed(index[name := Extended(if name in index then index[name] else Bucket([], map[]), routes, i)], routes, i + 1)
  {
    hide BucketFor, Extended;
    var name := routes[i].name;
    var bucket := if name in index then index[name] else Bucket([], map[]);
    if name !in index { EmptyBucket(routes, i, name); }
    ExtendedLists(bucket, routes, i, name);
    forall other | other in index && other != name ensures BucketFor(index[other], routes, i + 1, other) {
      OtherBucket(index[other], routes, i, other);
    }
  }

  class Dispatcher {
    var routes: seq<Route>
    var index: map<string, Bucket>

    ghost predicate Ready()
      reads this
    {
      Indexed(index, routes, |routes|)
    }

    constructor ()
      ensures routes == [] && Ready()
    {
      routes, index := [], map[];
    }

    /** `route`: registration lowers the method. */
    method Register(name: string, pattern: Pattern)
      modifies this`routes
      ensures routes == old(routes) + [Route(Lower(name), pattern)]
    {
      routes := routes + [Route(Lower(name), pattern)];
    }

    /** `build_dispatch_index` */
    method Build()
      modifies this`index
      ensures Ready()
    {
      hide Indexed, Extended;
      index := map[];
      EmptyIndex(routes);
      for i := 0 to |routes|
        invariant routes == old(routes) && Indexed(index, routes, i)
      {
        IndexExtended(index, routes, i);
        var name := routes[i].name;
        var bucket := if name in index then index[name] else Bucket([], map[]);
        index := index[name := Extended(bucket, routes, i)];
      }
    }

    function BucketOf(name: string): Option<Bucket>
      reads this
    {
      if name != "" && name in index then Some(index[name]) else None
    }

    /** The least index of an exact route for the path in the two buckets, or the number of routes. */
    method LiteralIndex(primary: Option<Bucket>, secondary: Option<Bucket>, path: string) returns (literal: nat)
      requires forall text :: primary.Some? && text in primary.value.literalFirst ==> primary.value.literalFirst[text] < |routes|
      requires forall text :: secondary.Some? && text in secondary.value.literalFirst ==> secondary.value.literalFirst[text] < |routes|
      ensures literal <= |routes|
      ensures primary.Some? && path in primary.value.literalFirst ==> literal <= primary.value.literalFirst[path]
      ensures secondary.Some? && path in secondary.value.literalFirst ==> literal <= secondary.value.literalFirst[path]
      ensures literal < |routes| ==>
                || (primary.Some? && path in primary.value.literalFirst && literal == primary.value.literalFirst[path])
                || (secondary.Some? && path in secondary.value.literalFirst && literal == secondary.value.literalFirst[path])
    {
      literal := |routes|;
      if primary.Some? && path in primary.value.literalFirst && primary.value.literalFirst[path] < literal {
        literal := primary.value.literalFirst[path];
      }
      if secondary.Some? && path in secondary.value.literalFirst && secondary.value.literalFirst[path] < literal {
        literal := secondary.value.literalFirst[path];
      }
    }

    /** `locate_route`: the patterned routes of both buckets are merged in order, up to the exact route. */
    method LocateRoute(first: seq<nat>, second: seq<nat>, literal: nat, path: string, search: Search, matcher: Matcher)
      returns (found: Option<nat>)
      requires Increasing(first) && Increasing(second) && literal <= |routes|
      requires forall k :: 0 <= k < |first| ==> first[k] < |routes|
      requires forall k :: 0 <= k < |second| ==> second[k] < |routes|
      requires literal < |routes| ==> routes[literal].pattern == Exact(path)
      modifies matcher
      ensures found.Some? ==> found.value < |routes| && Matches(routes[found.value].pattern, path, search)
      ensures found.Some? ==> found.value <= literal && (found.value == literal || found.value in first || found.value in second)
      ensures found.None? ==> literal == |routes|
      ensures forall k :: 0 <= k < |first| && first[k] < (if found.Some? then found.value else |routes|) ==> !Matches(routes[first[k]].pattern, path, search)
      ensures forall k :: 0 <= k < |second| && second[k] < (if found.Some? then found.value else |routes|) ==> !Matches(routes[second[k]].pattern, path, search)
      ensures found.Some? ==> matcher.parameters == Bound(old(matcher.parameters), Bindings(routes[found.value].pattern, path, search))
      ensures found.None? ==> matcher.parameters == old(matcher.parameters)
    {
      hide Matches, Bindings, Bound;
      var i, j := 0, 0;
      while true
        invariant 0 <= i <= |first| && 0 <= j <= |second|
        invariant forall k :: 0 <= k < i ==> first[k] < literal && !Matches(routes[first[k]].pattern, path, search)
        invariant forall k :: 0 <= k < j ==> second[k] < literal && !Matches(routes[second[k]].pattern, path, search)
        invariant matcher.parameters == old(matcher.parameters)
        decreases |first| - i + |second| - j
      {
        var next := |routes|;
        if i < |first| && first[i] < next { next := first[i]; }
        if j < |second| && second[j] < next { next := second[j]; }
        if next == |routes| || next >= literal { break; }
        var matched := matcher.MatchPattern(routes[next].pattern, path, search);
        if matched { return Some(next); }
        while i < |first| && first[i] == next
          invariant 0 <= i <= |first|
          invariant forall k :: 0 <= k < i ==> first[k] < literal && !Matches(routes[first[k]].pattern, path, search)
        {
          i := i + 1;
        }
        while j < |second| && second[j] == next
          invariant 0 <= j <= |second|
          invariant forall k :: 0 <= k < j ==> second[k] < literal && !Matches(routes[second[k]].pattern, path, search)
        {
          j := j + 1;
        }
      }
      if literal == |routes| { return None; }
      ExactBindsNothing(path, search);
      found := Some(literal);
    }

    /** `find_route` */
    method FindRoute(name: string, path: string, search: Search) returns (found: Option<nat>, parameters: map<string, string>)
      requires Ready()
      ensures found == FirstRoute(routes, 0, Lower(name), path, search)
      ensures found.Some? ==> found.value < |routes| && Chosen(routes[found.value], Lower(name), path, search)
      ensures forall i :: 0 <= i < (if found.Some? then found.value else |routes|) ==> !Chosen(routes[i], Lower(name), path, search)
      ensures parameters == if found.None? then map[] else Bound(map[], Bindings(routes[found.value].pattern, path, search))
    {
      hide BucketFor, Matches, Bindings, Bound, FirstRoute, Lower;
      var key := Lower(name);
      var primary := BucketOf(key);
      var secondary := if key == "head" then BucketOf("get") else None;
      if primary.Some? { BucketIsInRange(primary.value, routes, key); }
      if secondary.Some? { BucketIsInRange(secondary.value, routes, "get"); }
      var literal := LiteralIndex(primary, secondary, path);
      var first := if primary.Some? then primary.value.patterned else [];
      var second := if secondary.Some? then secondary.value.patterned else [];
      var matcher := new Matcher();
      assert literal < |routes| ==> routes[literal].pattern == Exact(path);
      found := LocateRoute(first, second, literal, path, search, matcher);
      NoneBefore(routes, index, key, path, search, first, second, literal, found);
      if found.Some? && found.value in first { BucketServes(primary.value, routes, key, found.value); }
      if found.Some? && found.value in second { BucketServes(secondary.value, routes, "get", found.value); }
      FirstRouteIs(routes, 0, key, path, search, found);
      ChosenAreFirst(routes, key, path, search);
      parameters := matcher.parameters;
    }
  }

  lemma ExactBindsNothing(path: string, search: Search)
    ensures Matches(Exact(path), path, search) && Bindings(Exact(path), path, search) == []
    ensures forall parameters :: Bound(parameters, []) == parameters
  {}

  lemma BucketIsInRange(bucket: Bucket, routes: seq<Route>, name: string)
    requires BucketFor(bucket, routes, |routes|, name)
    ensures Increasing(bucket.patterned)
    ensures forall k :: 0 <= k < |bucket.patterned| ==> bucket.patterned[k] < |routes|
    ensures forall text :: text in bucket.literalFirst ==> bucket.literalFirst[text] < |routes|
    ensures forall text :: text in bucket.literalFirst ==> routes[bucket.literalFirst[text]] == Route(name, Exact(text))
  {
    forall k | 0 <= k < |bucket.patterned| ensures bucket.patterned[k] < |routes| {
      assert Listed(routes, |routes|, name, bucket.patterned[k]);
    }
    forall text | text in bucket.literalFirst
      ensures bucket.literalFirst[text] < |routes| && routes[bucket.literalFirst[text]] == Route(name, Exact(text))
    {
      assert FirstExact(routes, |routes|, name, text, bucket.literalFirst[text]);
    }
  }

  lemma BucketServes(bucket: Bucket, routes: seq<Route>, name: string, i: nat)
    requires BucketFor(bucket, routes, |routes|, name) && i in bucket.patterned
    ensures i < |routes| && routes[i].name == name
  {
    var k :| 0 <= k < |bucket.patterned| && bucket.patterned[k] == i;
    assert Listed(routes, |routes|, name, bucket.patterned[k]);
  }

  /** A route of the bucket before the exact one and before the found one does not match. */
  lemma NotBefore(bucket: Bucket, routes: seq<Route>, name: string, path: string, search: Search, i: nat, bound: nat)
    requires BucketFor(bucket, routes, |routes|, name) && i < bound <= |routes| && routes[i].name == name
    requires path in bucket.literalFirst ==> bound <= bucket.literalFirst[path]
    requires forall k :: 0 <= k < |bucket.patterned| && bucket.patterned[k] < bound && bucket.patterned[k] < |routes| ==>
                           !Matches(routes[bucket.patterned[k]].pattern, path, search)
    ensures !Matches(routes[i].pattern, path, search)
  {
    if path in bucket.literalFirst { assert FirstExact(routes, |routes|, name, path, bucket.literalFirst[path]); }
    if !routes[i].pattern.Exact? {
      assert i in bucket.patterned;
      var k :| 0 <= k < |bucket.patterned| && bucket.patterned[k] == i;
    }
  }

  lemma NoneBefore(routes: seq<Route>, index: map<string, Bucket>, key: string, path: string, search: Search,
                   first: seq<nat>, second: seq<nat>, literal: nat, found: Option<nat>)
    requires Indexed(index, routes, |routes|) && literal <= |routes|
    requires key != "" && key in index ==>
               first == index[key].patterned && (path in index[key].literalFirst ==> literal <= index[key].literalFirst[path])
    requires key == "head" && "get" in index ==>
               second == index["get"].patterned && (path in index["get"].literalFirst ==> literal <= index["get"].literalFirst[path])
    requires forall k :: 0 <= k < |first| ==> first[k] < |routes|
    requires forall k :: 0 <= k < |second| ==> second[k] < |routes|
    requires found.Some? ==> found.value <= literal
    requires found.None? ==> literal == |routes|
    requires var bound := if found.Some? then found.value else |routes|;
             && (forall k :: 0 <= k < |first| && first[k] < bound ==> !Matches(routes[first[k]].pattern, path, search))
             && (forall k :: 0 <= k < |second| && second[k] < bound ==> !Matches(routes[second[k]].pattern, path, search))
    ensures var bound := if found.Some? then found.value else |routes|;
            forall i :: 0 <= i < bound ==> !Answers(routes[i], key, path, search)
  {
    hide Matches, BucketFor;
    var bound := if found.Some? then found.value else |routes|;
    forall i | 0 <= i < bound ensures !Answers(routes[i], key, path, search) {
      if Serves(routes[i], key) {
        var name := routes[i].name;
        NotBefore(index[name], routes, name, path, search, i, bound);
      }
    }
  }

  lemma {:induction false} FirstRouteIs(routes: seq<Route>, from: nat, key: string, path: string, search: Search, found: Option<nat>)
    requires from <= |routes|
    requires found.Some? ==> from <= found.value < |routes| && Answers(routes[found.value], key, path, search)
    requires forall i :: from <= i < (if found.Some? then found.value else |routes|) ==> !Answers(routes[i], key, path, search)
    ensures FirstRoute(routes, from, key, path, search) == found
    decreases |routes| - from
  {
    if from < |routes| && !Answers(routes[from], key, path, search) { FirstRouteIs(routes, from + 1, key, path, search, found); }
  }
}
