/** describeCollectionDefinition as it runs (schema_reader.go): the field list is built from the column
    order and then edited in place from the source hints. */
module SchemaReader {
  import opened Common
  import opened Ordering
  import opened SchemaModel
  import opened SchemaSoundness
  import opened SchemaRuns

  function Self(n: Name): Name { n }

  /** The order of description: columns_order, or the sorted column names when it is empty. */
  ghost predicate OrderOfDescription(def: Definition, order: seq<Name>)
  {
    if def.order != [] then order == def.order
    else SortedBy(order, Self) && Distinct(order) && forall n :: n in order <==> n in def.columns
  }

  method FieldOrder(def: Definition) returns (order: seq<Name>)
    ensures OrderOfDescription(def, order)
  {
    order := def.order;
    if |order| == 0 {
      var todo := def.columns.Keys;
      while todo != {}
        invariant forall n :: n in def.columns <==> n in order || n in todo
        invariant forall n :: n in order ==> n !in todo
        invariant Distinct(order)
        decreases todo
      {
        var n: Name :| n in todo;
        todo := todo - {n};
        order := order + [n];
      }
      ghost var collected := order;
      SortBySorts(order, Self);
      PermutationKeepsDistinct(order, SortBy(order, Self), Self);
      order := SortBy(order, Self);
      forall n
        ensures n in order <==> n in collected
      {
        assert n in order <==> n in multiset(order);
      }
    }
  }

  method PlainFields(def: Definition, order: seq<Name>) returns (fields: Option<seq<Field>>)
    ensures fields.Some? <==> forall i :: 0 <= i < |Visible(def, order)| ==> Describable(def, Visible(def, order)[i])
    ensures fields.Some? ==> |fields.value| == |Visible(def, order)|
    ensures fields.Some? ==> forall i :: 0 <= i < |Visible(def, order)| ==> fields.value[i] == PlainField(def, Visible(def, order)[i])
  {
    hide Hidden;
    var list: seq<Field> := [];
    for i := 0 to |order|
      invariant |list| == |Visible(def, order[..i])|
      invariant forall k :: 0 <= k < |list| ==>
                  Describable(def, Visible(def, order[..i])[k]) && list[k] == PlainField(def, Visible(def, order[..i])[k])
    {
      assert order[..i + 1][..i] == order[..i];
      var name := order[i];
      if Hidden(def, name) {
        continue;
      }
      if !Describable(def, name) {
        VisibleMembers(def, order);
        assert name in Visible(def, order);
        return None;
      }
      list := list + [PlainField(def, name)];
    }
    assert order[..|order|] == order;
    return Some(list);
  }

  method HintsMatch(hints: seq<Hint>, fields: seq<Field>) returns (matches: bool)
    ensures matches <==> NamesMatch(hints, NamesOf(fields))
  {
    matches := |hints| == |fields|;
    if matches {
      for i := 0 to |hints|
        invariant forall k :: 0 <= k < i ==> hints[k].name == fields[k].name
      {
        if hints[i].name != fields[i].name {
          return false;
        }
      }
    }
  }

  /** Positions by name; a repeated name keeps its last one. */
  ghost predicate PositionsOk(names: seq<Name>, n: nat, positions: map<Name, nat>)
    requires n <= |names|
  {
    && (forall i :: 0 <= i < n ==> names[i] in positions && i <= positions[names[i]])
    && (forall x :: x in positions ==> positions[x] < n && names[positions[x]] == x)
  }

  method FieldPositions(fields: seq<Field>) returns (positions: map<Name, nat>)
    ensures PositionsOk(NamesOf(fields), |fields|, positions)
  {
    positions := map[];
    for i := 0 to |fields|
      invariant PositionsOk(NamesOf(fields), i, positions)
    {
      positions := positions[fields[i].name := i];
    }
  }

  /** The hints in order: every one names the field at its own position. */
  predicate InPlace(hints: seq<Hint>, positions: map<Name, nat>, i: nat)
    requires i < |hints|
  {
    hints[i].name in positions && positions[hints[i].name] == i
  }

  lemma InPlaceIff(hints: seq<Hint>, names: seq<Name>, positions: map<Name, nat>)
    requires PositionsOk(names, |names|, positions) && |hints| == |names|
    ensures (forall i :: 0 <= i < |hints| ==> InPlace(hints, positions, i)) <==> NamesMatch(hints, names) && Distinct(names)
  {
    if forall i :: 0 <= i < |hints| ==> InPlace(hints, positions, i) {
      forall i | 0 <= i < |hints|
        ensures hints[i].name == names[i] && positions[names[i]] == i
      {
        assert InPlace(hints, positions, i);
      }
    }
    if NamesMatch(hints, names) && Distinct(names) {
      forall i | 0 <= i < |hints|
        ensures InPlace(hints, positions, i)
      {
        assert names[i] in positions && names[positions[names[i]]] == names[i];
      }
    }
  }

  method ApplyHints(json: Json, hints: seq<Hint>, plain: seq<Field>) returns (fields: Option<seq<Field>>)
    requires |hints| == |plain|
    ensures fields.Some? <==> NamesMatch(hints, NamesOf(plain)) && Distinct(NamesOf(plain))
                              && forall i :: 0 <= i < |hints| ==> HintReadable(json, hints[i])
    ensures fields.Some? ==> |fields.value| == |plain| && forall i :: 0 <= i < |hints| ==> fields.value[i] == Hinted(json, plain[i], hints[i])
  {
    hide HintReadable, Hinted;
    var list := plain;
    var positions := FieldPositions(plain);
    InPlaceIff(hints, NamesOf(plain), positions);
    for i := 0 to |hints|
      invariant |list| == |plain|
      invariant forall k :: 0 <= k < i ==> InPlace(hints, positions, k) && HintReadable(json, hints[k])
      invariant forall k :: 0 <= k < i ==> list[k] == Hinted(json, plain[k], hints[k])
      invariant forall k :: i <= k < |list| ==> list[k] == plain[k]
    {
      if !InPlace(hints, positions, i) {
        return None;
      }
      if !HintReadable(json, hints[i]) {
        return None;
      }
      list := list[i := Hinted(json, list[i], hints[i])];
    }
    return Some(list);
  }

  lemma PlainNames(def: Definition, names: seq<Name>, fields: seq<Field>)
    requires |fields| == |names|
    requires forall i :: 0 <= i < |names| ==> Describable(def, names[i]) && fields[i] == PlainField(def, names[i])
    ensures NamesOf(fields) == names
  {
  }

  lemma OnceEach(s: seq<Name>, x: Name)
    requires Distinct(s)
    ensures multiset(s)[x] == if x in s then 1 else 0
  {
    OnceInDistinct(s, Self, x);
    assert x in s <==> x in multiset(s);
  }

  lemma OneOrderOfDescription(def: Definition, a: seq<Name>, b: seq<Name>)
    requires OrderOfDescription(def, a) && OrderOfDescription(def, b)
    ensures a == b
  {
    if def.order == [] {
      forall x
        ensures multiset(a)[x] == multiset(b)[x]
      {
        OnceEach(a, x);
        OnceEach(b, x);
      }
      assert multiset(a) == multiset(b);
      SortedUnique(a, b, Self);
    }
  }

  /** describeCollectionDefinition: fails exactly when the definition cannot be described, and otherwise
      gives its description. */
  method DescribeCollection(json: Json, def: Definition, name: Name) returns (r: Option<Collection>)
    ensures exists order :: OrderOfDescription(def, order)
    ensures forall order :: OrderOfDescription(def, order) ==> (r.Some? <==> Describes(json, def, order))
    ensures forall order :: OrderOfDescription(def, order) && r.Some? ==> r.value == Description(json, def, order, name)
  {
    hide HintReadable, Hinted, PlainField, Visible, Hidden, OrderOfDescription, Describable;
    var fieldOrder := FieldOrder(def);
    ghost var order := fieldOrder;
    forall other | OrderOfDescription(def, other)
      ensures other == order
    {
      OneOrderOfDescription(def, other, order);
    }
    var plain := PlainFields(def, fieldOrder);
    if plain.None? {
      return None;
    }
    ghost var names := Visible(def, order);
    PlainNames(def, names, plain.value);
    var fields := plain.value;
    var retained := "";
    if def.source.Some? {
      var hints := def.source.value.hints;
      var strict := def.source.value.keyMode != "";
      var matches := HintsMatch(hints, fields);
      if strict && |hints| != |fields| {
        return None;
      }
      if strict || matches {
        var completed := ApplyHints(json, hints, fields);
        if completed.None? {
          return None;
        }
        fields := completed.value;
      }
      retained := def.source.value.retained;
    }
    var key := if def.primaryKey == [] then [KEY_FIELD] else def.primaryKey;
    if def.source.Some? && def.source.value.keyMode == "export-ordinal" {
      key := [];
    }
    assert fields == Description(json, def, order, name).fields;
    return Some(Collection(name, fields, key, retained));
  }

  lemma FirstIsMember(order: seq<Name>)
    ensures order == [] || order[0] in order
  {
  }

  /** The order of description of a sound definition is its column order. */
  lemma SoundOrder(json: Json, def: Definition, order: seq<Name>)
    requires Sound(json, def) && OrderOfDescription(def, order)
    ensures order == def.order
  {
    FirstIsMember(order);
  }

  /** So after every run of AlterCollection calls on a created collection, describing succeeds in the order in which it
      goes through the columns. */
  lemma EveryRunIsDescribed(json: Json, c: Collection, calls: seq<seq<Attempt>>, order: seq<Name>)
    requires Lawful(json) && DistinctFields(c.fields) && Build(json, c).Some?
    requires OrderOfDescription(Run(json, Build(json, c).value, calls).0, order)
    ensures order == Run(json, Build(json, c).value, calls).0.order
    ensures Describes(json, Run(json, Build(json, c).value, calls).0, order)
  {
    hide Run, Build, Sound, Describes, OrderOfDescription;
    EveryRunDescribes(json, c, calls);
    SoundOrder(json, Run(json, Build(json, c).value, calls).0, order);
  }
}
