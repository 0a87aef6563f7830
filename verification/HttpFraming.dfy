/** What a parsed head says about the framing of its message depends only on the value list of each
    field name, and a printed head has the value lists the writer intended. */
module HttpFraming {
  import opened Text
  import opened HeaderFields
  import opened Headers
  import opened HttpHead

  // ---- substitution acts like `erase` and `set`

  /** Overrides have different names and none of them is omitted. */
  predicate Consistent(overrides: seq<Field>, omitted: seq<string>) {
    && (forall i, j :: 0 <= i < j < |overrides| ==> !EqualsIgnoreCase(overrides[i].0, overrides[j].0))
    && (forall i :: 0 <= i < |overrides| ==> !Omitted(overrides[i].0, omitted))
  }

  lemma IndexOfOverride(overrides: seq<Field>, omitted: seq<string>, name: string, k: nat)
    requires Consistent(overrides, omitted) && k < |overrides| && EqualsIgnoreCase(name, overrides[k].0)
    ensures OverrideIndex(name, overrides) == k && !Omitted(name, omitted)
  {
    forall j | 0 <= j < k ensures !EqualsIgnoreCase(name, overrides[j].0) { NoEarlierOverride(overrides, omitted, name, j, k); }
    NotOmitted(name, overrides[k].0, omitted);
  }

  lemma NoEarlierOverride(overrides: seq<Field>, omitted: seq<string>, name: string, i: nat, k: nat)
    requires Consistent(overrides, omitted) && i < k < |overrides| && EqualsIgnoreCase(name, overrides[k].0)
    ensures !EqualsIgnoreCase(name, overrides[i].0)
  {
    assert !EqualsIgnoreCase(overrides[i].0, overrides[k].0);
  }

  lemma NotOmitted(name: string, other: string, omitted: seq<string>)
    requires EqualsIgnoreCase(name, other) && !Omitted(other, omitted)
    ensures !Omitted(name, omitted)
  {
    forall j | 0 <= j < |omitted| ensures !EqualsIgnoreCase(name, omitted[j]) { assert !EqualsIgnoreCase(other, omitted[j]); }
  }

  /** Which values of `name` the substitution of `headers` leaves, when `emitted` overrides are used up. */
  function Left(headers: seq<Field>, overrides: seq<Field>, omitted: seq<string>, emitted: set<nat>, name: string): seq<string> {
    var k := OverrideIndex(name, overrides);
    if Omitted(name, omitted) then []
    else if k == |overrides| then Values(headers, name)
    else if k in Used(headers, overrides, omitted) && k !in emitted then [overrides[k].1]
    else []
  }

  lemma Symmetric(a: string, b: string)
    ensures EqualsIgnoreCase(a, b) == EqualsIgnoreCase(b, a)
  {}

  lemma SameName(a: string, b: string, overrides: seq<Field>, omitted: seq<string>)
    requires EqualsIgnoreCase(a, b)
    ensures OverrideIndex(a, overrides) == OverrideIndex(b, overrides) && Omitted(a, omitted) == Omitted(b, omitted)
  {
    forall m | 0 <= m < |overrides| ensures EqualsIgnoreCase(a, overrides[m].0) == EqualsIgnoreCase(b, overrides[m].0) {}
    forall m | 0 <= m < |omitted| ensures EqualsIgnoreCase(a, omitted[m]) == EqualsIgnoreCase(b, omitted[m]) {}
  }

  /** What the substitution prints for one field, and the overrides used up after it. */
  function Printed(field: Field, overrides: seq<Field>, omitted: seq<string>, emitted: set<nat>): (seq<Field>, set<nat>) {
    var i := OverrideIndex(field.0, overrides);
    if Omitted(field.0, omitted) then ([], emitted)
    else if i == |overrides| then ([field], emitted)
    else (if i in emitted then [] else [overrides[i]], emitted + {i})
  }

  lemma PrintedValues(field: Field, overrides: seq<Field>, omitted: seq<string>, emitted: set<nat>, name: string)
    requires Consistent(overrides, omitted)
    ensures Values(Printed(field, overrides, omitted, emitted).0, name) ==
            var i, k := OverrideIndex(field.0, overrides), OverrideIndex(name, overrides);
            if Omitted(field.0, omitted) then []
            else if i < |overrides| then (if i == k && i !in emitted then [overrides[k].1] else [])
            else if EqualsIgnoreCase(field.0, name) then [field.1] else []
  {
    hide EqualsIgnoreCase, Omitted;
    var i := OverrideIndex(field.0, overrides);
    ValuesOne(field, name);
    if i < |overrides| {
      ValuesOne(overrides[i], name);
      Symmetric(overrides[i].0, name);
      if EqualsIgnoreCase(overrides[i].0, name) { IndexOfOverride(overrides, omitted, name, i); }
    }
  }

  lemma LeftStep(headers: seq<Field>, overrides: seq<Field>, omitted: seq<string>, emitted: set<nat>, name: string)
    requires headers != [] && Consistent(overrides, omitted)
    ensures var (first, next) := Printed(headers[0], overrides, omitted, emitted);
            Left(headers, overrides, omitted, emitted, name) ==
            Values(first, name) + Left(headers[1..], overrides, omitted, next, name)
  {
    hide EqualsIgnoreCase, Omitted, Consistent;
    PrintedValues(headers[0], overrides, omitted, emitted, name);
    var i, k := OverrideIndex(headers[0].0, overrides), OverrideIndex(name, overrides);
    if EqualsIgnoreCase(headers[0].0, name) { SameName(headers[0].0, name, overrides, omitted); }
    if k < |overrides| { IndexOfOverride(overrides, omitted, name, k); }
  }

  lemma {:induction false} SubstitutedValues(headers: seq<Field>, overrides: seq<Field>, omitted: seq<string>,
                                             emitted: set<nat>, name: string)
    requires Consistent(overrides, omitted)
    ensures Values(Substituted(headers, overrides, omitted, emitted), name) == Left(headers, overrides, omitted, emitted, name)
    decreases |headers|
  {
    if headers != [] {
      var (first, next) := Printed(headers[0], overrides, omitted, emitted);
      LeftStep(headers, overrides, omitted, emitted, name);
      SubstitutedValues(headers[1..], overrides, omitted, next, name);
      ValuesAppend(first, Substituted(headers[1..], overrides, omitted, next), name);
      hide EqualsIgnoreCase, Omitted, Left, Values;
      assert Substituted(headers, overrides, omitted, emitted) == first + Substituted(headers[1..], overrides, omitted, next);
    }
  }

  lemma {:induction false} UnusedValues(overrides: seq<Field>, omitted: seq<string>, used: set<nat>, from: nat, name: string)
    requires Consistent(overrides, omitted)
    ensures Values(Unused(overrides, used, from), name) ==
            var k := OverrideIndex(name, overrides);
            if from <= k < |overrides| && k !in used then [overrides[k].1] else []
    decreases |overrides| - from
  {
    if from < |overrides| {
      UnusedValues(overrides, omitted, used, from + 1, name);
      ValuesAppend(if from in used then [] else [overrides[from]], Unused(overrides, used, from + 1), name);
      ValuesOne(overrides[from], name);
      if EqualsIgnoreCase(overrides[from].0, name) { IndexOfOverride(overrides, omitted, name, from); }
    }
  }

  /** Each name of a printed head: nothing when omitted, the override alone when overridden, else the caller's values. */
  lemma EmittedValues(headers: seq<Field>, overrides: seq<Field>, omitted: seq<string>, name: string)
    requires Consistent(overrides, omitted)
    ensures Values(Emitted(headers, overrides, omitted), name) ==
            var k := OverrideIndex(name, overrides);
            if k < |overrides| then [overrides[k].1]
            else if Omitted(name, omitted) then [] else Values(headers, name)
  {
    var k := OverrideIndex(name, overrides);
    var used := Used(headers, overrides, omitted);
    SubstitutedValues(headers, overrides, omitted, {}, name);
    UnusedValues(overrides, omitted, used, 0, name);
    ValuesAppend(Substituted(headers, overrides, omitted, {}), Unused(overrides, used, 0), name);
    if k < |overrides| { IndexOfOverride(overrides, omitted, name, k); }
  }

  /** The fields after erasing the omitted names and setting the overrides one by one. */
  function ErasedAll(headers: seq<Field>, omitted: seq<string>): seq<Field>
    decreases |omitted|
  {
    if omitted == [] then headers else ErasedAll(Erased(headers, omitted[0]), omitted[1..])
  }

  function SetAll(headers: seq<Field>, overrides: seq<Field>): seq<Field>
    decreases |overrides|
  {
    if overrides == [] then headers else SetAll(Replaced(headers, overrides[0].0, overrides[0].1), overrides[1..])
  }

  lemma {:induction false} ErasedAllValues(headers: seq<Field>, omitted: seq<string>, name: string)
    ensures Values(ErasedAll(headers, omitted), name) == if Omitted(name, omitted) then [] else Values(headers, name)
    decreases |omitted|
  {
    if omitted != [] {
      ErasedAllValues(Erased(headers, omitted[0]), omitted[1..], name);
      ValuesErased(headers, omitted[0], name);
      if EqualsIgnoreCase(omitted[0], name) { assert EqualsIgnoreCase(name, omitted[0]); }
      if Omitted(name, omitted[1..]) {
        var j :| 0 <= j < |omitted[1..]| && EqualsIgnoreCase(name, omitted[1..][j]);
        assert omitted[j + 1] == omitted[1..][j];
      }
      if Omitted(name, omitted) {
        var j :| 0 <= j < |omitted| && EqualsIgnoreCase(name, omitted[j]);
        if j > 0 { assert omitted[1..][j - 1] == omitted[j]; }
      }
    }
  }

  lemma NotTheFirst(overrides: seq<Field>, name: string, j: nat)
    requires Consistent(overrides, []) && j + 1 < |overrides| && EqualsIgnoreCase(name, overrides[0].0)
    ensures !EqualsIgnoreCase(name, overrides[1..][j].0)
  {
    assert overrides[1..][j] == overrides[j + 1];
    assert !EqualsIgnoreCase(overrides[0].0, overrides[j + 1].0);
  }

  lemma {:induction false} SetAllValues(headers: seq<Field>, overrides: seq<Field>, name: string)
    requires Consistent(overrides, [])
    ensures Values(SetAll(headers, overrides), name) ==
            var k := OverrideIndex(name, overrides);
            if k < |overrides| then [overrides[k].1] else Values(headers, name)
    decreases |overrides|
  {
    if overrides != [] {
      var rest := overrides[1..];
      assert Consistent(rest, []) by {
        forall i, j | 0 <= i < j < |rest| ensures !EqualsIgnoreCase(rest[i].0, rest[j].0) {
          assert rest[i] == overrides[i + 1] && rest[j] == overrides[j + 1];
        }
      }
      SetAllValues(Replaced(headers, overrides[0].0, overrides[0].1), rest, name);
      ValuesReplaced(headers, overrides[0].0, overrides[0].1, name);
      var k := OverrideIndex(name, rest);
      if EqualsIgnoreCase(name, overrides[0].0) {
        assert EqualsIgnoreCase(overrides[0].0, name);
        forall j | 0 <= j < |rest| ensures !EqualsIgnoreCase(name, rest[j].0) { NotTheFirst(overrides, name, j); }
      }
    }
  }

  /** Substituting while printing has the effect of `erase` and `set`, name by name. */
  lemma SubstitutionActsLikeSet(headers: seq<Field>, overrides: seq<Field>, omitted: seq<string>, name: string)
    requires Consistent(overrides, omitted)
    ensures Values(Emitted(headers, overrides, omitted), name) == Values(SetAll(ErasedAll(headers, omitted), overrides), name)
  {
    EmittedValues(headers, overrides, omitted, name);
    assert Consistent(overrides, []);
    SetAllValues(ErasedAll(headers, omitted), overrides, name);
    ErasedAllValues(headers, omitted, name);
  }
}
