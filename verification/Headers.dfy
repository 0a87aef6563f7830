/** `Headers`, the ordered field container, and the value lists that matter to a reader of the fields. */
module Headers {
  import opened Text
  import opened HeaderFields

  /** `get_all`: the values of the fields with this name, in order. */
  function Values(fields: seq<Field>, name: string): seq<string> {
    if fields == [] then []
    else (if EqualsIgnoreCase(fields[0].0, name) then [fields[0].1] else []) + Values(fields[1..], name)
  }

  function Erased(fields: seq<Field>, name: string): seq<Field> {
    if fields == [] then []
    else (if EqualsIgnoreCase(fields[0].0, name) then [] else [fields[0]]) + Erased(fields[1..], name)
  }

  /** `set` erases every field of that name and appends the new one. */
  function Replaced(fields: seq<Field>, name: string, value: string): seq<Field> {
    Erased(fields, name) + [(name, value)]
  }

  class Container {
    var values: seq<Field>

    constructor ()
      ensures values == []
    {
      values := [];
    }

    method Add(name: string, value: string)
      modifies this
      ensures values == old(values) + [(name, value)]
    {
      values := values + [(name, value)];
    }

    method Erase(name: string) returns (removed: bool)
      modifies this
      ensures values == Erased(old(values), name)
      ensures removed <==> Values(old(values), name) != []
    {
      var before := values;
      var kept: seq<Field> := [];
      removed := false;
      for i := 0 to |before|
        invariant Erased(before, name) == kept + Erased(before[i..], name)
        invariant removed ==> Values(before, name) != []
        invariant !removed ==> Values(before, name) == Values(before[i..], name)
      {
        assert before[i..][1..] == before[i + 1..];
        if EqualsIgnoreCase(before[i].0, name) { removed := true; } else { kept := kept + [before[i]]; }
      }
      assert kept + [] == kept;
      values := kept;
    }

    method Set(name: string, value: string)
      modifies this
      ensures values == Replaced(old(values), name, value)
    {
      var _ := Erase(name);
      Add(name, value);
    }
  }

  // ---- value lists

  lemma {:induction false} ValuesAppend(a: seq<Field>, b: seq<Field>, name: string)
    ensures Values(a + b, name) == Values(a, name) + Values(b, name)
  {
    if a == [] {
      assert a + b == b;
    } else {
      assert (a + b)[1..] == a[1..] + b;
      ValuesAppend(a[1..], b, name);
    }
  }

  lemma ValuesOne(field: Field, name: string)
    ensures Values([field], name) == if EqualsIgnoreCase(field.0, name) then [field.1] else []
  {
    assert [field][1..] == [];
  }

  lemma {:induction false} ValuesErased(fields: seq<Field>, name: string, other: string)
    ensures Values(Erased(fields, name), other) == if EqualsIgnoreCase(name, other) then [] else Values(fields, other)
  {
    if fields != [] {
      ValuesErased(fields[1..], name, other);
      var first := if EqualsIgnoreCase(fields[0].0, name) then [] else [fields[0]];
      ValuesAppend(first, Erased(fields[1..], name), other);
      ValuesOne(fields[0], other);
    }
  }

  /** After `set`, the name has exactly the new value and every other name keeps its list. */
  lemma ValuesReplaced(fields: seq<Field>, name: string, value: string, other: string)
    ensures Values(Replaced(fields, name, value), other) ==
            if EqualsIgnoreCase(name, other) then [value] else Values(fields, other)
  {
    ValuesErased(fields, name, other);
    ValuesAppend(Erased(fields, name), [(name, value)], other);
    ValuesOne((name, value), other);
  }
}
