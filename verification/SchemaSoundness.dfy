/** What alterations keep, so that a created collection can always be described; when an exported one
    cannot; and when a description gives back what was declared. */
module SchemaSoundness {
  import opened Common
  import opened SchemaModel

  /** A hint fits its column: same carrier, and it can be read back. */
  predicate HintFits(json: Json, h: Hint, c: Column) {
    HintReadable(json, h) && CarrierOf(SourceType(h.typ).value) == Some(c.typ)
  }

  /** columns_order lists the columns, each once. */
  ghost predicate OrderListsColumns(def: Definition)
  {
    Distinct(def.order) && forall n :: n in def.order <==> n in def.columns
  }

  ghost predicate TypesKnown(def: Definition)
  {
    forall n :: n in def.columns ==> TypeOfCarrier(def.columns[n].typ).Some?
  }

  /** Hints follow the column order by name and carrier type. */
  ghost predicate HintsFollow(json: Json, def: Definition, hints: seq<Hint>)
  {
    && NamesMatch(hints, def.order)
    && forall i :: 0 <= i < |hints| ==> def.order[i] in def.columns && HintFits(json, hints[i], def.columns[def.order[i]])
  }

  /** The invariant of a collection that was created and altered here. */
  ghost predicate Sound(json: Json, def: Definition)
  {
    && OrderListsColumns(def) && TypesKnown(def) && KeepsHints(def)
    && (def.source.value.hints == [] || HintsFollow(json, def, def.source.value.hints))
  }

  /** What a hint keeps of its field. */
  lemma HintKeeps(json: Json, f: Field)
    requires Lawful(json) && Buildable(json, f)
    ensures var h := BuildHint(json, f).value;
            && h.name == f.name && h.typ == TypeText(f.typ) && h.nullable == f.nullable
            && h.autoIncrement == f.autoIncrement && h.length == f.length
            && (f.precision.Some? ==> h.precision == f.precision.value.0 && h.scale == f.precision.value.1)
            && (f.precision.None? ==> h.precision == 0)
  {
    hide TypeText, CarrierOf, LiteralKind, Lawful;
  }

  lemma DefaultReadsBack(json: Json, f: Field)
    requires Lawful(json) && Buildable(json, f)
    ensures var h := BuildHint(json, f).value;
            match f.default_
            case NoDefault => h.defaultKind == ""
            case CurrentTimestamp => h.defaultKind == "current-timestamp"
            case Literal(kind, v) =>
              h.defaultKind == "literal" && h.defaultType == kind && LiteralKind(kind) && json.decode(kind, h.defaultJson) == Some(v)
  {
    hide TypeText, CarrierOf, LiteralKind;
  }

  lemma BuiltHintFits(json: Json, f: Field)
    requires Lawful(json) && Buildable(json, f)
    ensures HintFits(json, BuildHint(json, f).value, ColumnFor(f)) && BuildHint(json, f).value.name == f.name
    ensures TypeOfCarrier(CarrierOf(f.typ).value).Some?
  {
    SourceTypeReadsText(f.typ);
    HintKeeps(json, f);
    DefaultReadsBack(json, f);
    hide BuildHint, TypeText, SourceType, LiteralKind, Lawful;
  }

  // ----- Creation -----

  ghost predicate DistinctFields(fields: seq<Field>)
  {
    forall i, j :: 0 <= i < j < |fields| ==> fields[i].name != fields[j].name
  }

  lemma {:induction false} ColumnNames(fields: seq<Field>, n: Name)
    requires forall i :: 0 <= i < |fields| ==> CarrierOf(fields[i].typ).Some?
    ensures n in ColumnsOf(fields) <==> exists i :: 0 <= i < |fields| && fields[i].name == n
    decreases |fields|
  {
    hide ColumnFor, CarrierOf;
    if fields != [] {
      var m := |fields| - 1;
      ColumnNames(fields[..m], n);
      if i :| 0 <= i < |fields| && fields[i].name == n {
        assert i < m ==> fields[..m][i].name == n;
      }
    }
  }

  /** Each distinct field gets its column. */
  lemma {:induction false} ColumnOfField(fields: seq<Field>, i: nat)
    requires DistinctFields(fields) && i < |fields| && forall i :: 0 <= i < |fields| ==> CarrierOf(fields[i].typ).Some?
    ensures fields[i].name in ColumnsOf(fields) && ColumnsOf(fields)[fields[i].name] == ColumnFor(fields[i])
    decreases |fields|
  {
    hide ColumnFor, CarrierOf;
    if i < |fields| - 1 {
      ColumnOfField(fields[..|fields| - 1], i);
    }
  }

  lemma ColumnsFacts(fields: seq<Field>)
    requires DistinctFields(fields) && forall i :: 0 <= i < |fields| ==> CarrierOf(fields[i].typ).Some?
    ensures forall n :: n in ColumnsOf(fields) <==> n in NamesOf(fields)
    ensures forall i :: 0 <= i < |fields| ==>
              fields[i].name in ColumnsOf(fields) && ColumnsOf(fields)[fields[i].name] == ColumnFor(fields[i])
  {
    hide ColumnFor, CarrierOf, ColumnsOf;
    var names := NamesOf(fields);
    forall n
      ensures n in ColumnsOf(fields) <==> n in names
    {
      ColumnNames(fields, n);
      if n in ColumnsOf(fields) {
        var i :| 0 <= i < |fields| && fields[i].name == n;
        assert names[i] == n;
      }
    }
    forall i | 0 <= i < |fields|
      ensures fields[i].name in ColumnsOf(fields) && ColumnsOf(fields)[fields[i].name] == ColumnFor(fields[i])
    {
      ColumnOfField(fields, i);
    }
  }

  lemma BuiltIsSound(json: Json, c: Collection)
    requires Lawful(json) && DistinctFields(c.fields) && Build(json, c).Some?
    ensures Sound(json, Build(json, c).value)
  {
    hide BuildHint, ColumnFor, ColumnsOf, HintReadable, Lawful, HintFits;
    var def := Build(json, c).value;
    assert forall i :: 0 <= i < |c.fields| ==> Buildable(json, c.fields[i]);
    ColumnsFacts(c.fields);
    forall i | 0 <= i < |c.fields|
      ensures HintFits(json, def.source.value.hints[i], def.columns[def.order[i]])
      ensures def.source.value.hints[i].name == def.order[i]
      ensures TypeOfCarrier(def.columns[def.order[i]].typ).Some?
    {
      BuiltHintFits(json, c.fields[i]);
      ColumnCarrier(c.fields[i]);
    }
    forall n | n in def.columns
      ensures TypeOfCarrier(def.columns[n].typ).Some?
    {
      var i :| 0 <= i < |def.order| && def.order[i] == n;
    }
  }

  lemma ColumnCarrier(f: Field)
    requires CarrierOf(f.typ).Some?
    ensures ColumnFor(f).typ == CarrierOf(f.typ).value && TypeOfCarrier(ColumnFor(f).typ).Some?
  {
  }

  // ----- Orders -----

  lemma {:induction false} WithoutFacts(order: seq<Name>, name: Name)
    ensures forall n :: n in Without(order, name) <==> n in order && n != name
    ensures Distinct(order) ==> Distinct(Without(order, name))
    ensures |Without(order, name)| <= |order|
    ensures name in order ==> |Without(order, name)| < |order|
    ensures name !in order ==> Without(order, name) == order
    decreases |order|
  {
    if order != [] {
      var n := |order| - 1;
      WithoutFacts(order[..n], name);
      assert order == order[..n] + [order[n]];
      assert Distinct(order) ==> order[n] !in order[..n];
    }
  }

  lemma RenamedFacts(order: seq<Name>, from: Name, to: Name)
    requires Distinct(order) && from in order && to !in order
    ensures Distinct(Renamed(order, from, to))
    ensures forall n :: n in Renamed(order, from, to) <==> (n in order && n != from) || n == to
  {
    var r := Renamed(order, from, to);
    forall n
      ensures n in r <==> (n in order && n != from) || n == to
    {
      if n in order && n != from {
        var i :| 0 <= i < |order| && order[i] == n;
        assert r[i] == n;
      }
      if n == to {
        var i :| 0 <= i < |order| && order[i] == from;
        assert r[i] == n;
      }
    }
  }

  lemma RenameColumnSound(def: Definition, from: Name, to: Name)
    requires OrderListsColumns(def) && TypesKnown(def) && from in def.columns && to !in def.columns
    ensures OrderListsColumns(RenameColumn(def, from, to)) && TypesKnown(RenameColumn(def, from, to))
  {
    RenamedFacts(def.order, from, to);
  }

  // ----- Alterations -----

  lemma AddKeepsOrder(def: Definition, f: Field)
    requires OrderListsColumns(def) && TypesKnown(def) && f.name !in def.columns && CarrierOf(f.typ).Some?
    ensures var after := def.(columns := def.columns[f.name := ColumnFor(f)], order := def.order + [f.name]);
            OrderListsColumns(after) && TypesKnown(after)
  {
    ColumnCarrier(f);
  }

  lemma DropKeepsOrder(def: Definition, name: Name)
    requires OrderListsColumns(def) && TypesKnown(def)
    ensures var after := def.(columns := def.columns - {name}, order := Without(def.order, name));
            OrderListsColumns(after) && TypesKnown(after)
  {
    WithoutFacts(def.order, name);
  }

  /** The definition with field name's column and hint replaced, under the name to. */
  ghost predicate Refreshed(def: Definition, name: Name, to: Name, column: Column, at: nat, h: Hint, after: Definition)
    requires KeepsHints(def) && at < |def.source.value.hints|
  {
    && (to == name || to !in def.columns)
    && after.order == Renamed(def.order, name, to)
    && after.columns == (def.columns - {name})[to := column]
    && after.source == Some(def.source.value.(hints := def.source.value.hints[at := h]))
  }

  lemma RefreshedHintsFollow(json: Json, def: Definition, name: Name, to: Name, column: Column, at: nat, h: Hint, after: Definition)
    requires Sound(json, def) && at < |def.source.value.hints| && def.source.value.hints[at].name == name
    requires Refreshed(def, name, to, column, at, h, after) && h.name == to && HintFits(json, h, column)
    ensures HintsFollow(json, after, after.source.value.hints)
  {
    hide HintFits;
    var hints := def.source.value.hints;
    assert def.order[at] == name;
    forall i | 0 <= i < |hints|
      ensures after.source.value.hints[i].name == after.order[i]
      ensures after.order[i] in after.columns && HintFits(json, after.source.value.hints[i], after.columns[after.order[i]])
    {
      if i != at {
        assert def.order[i] != name;
        assert def.order[i] in def.columns;
        assert after.order[i] == def.order[i];
      }
    }
  }

  /** Whatever Modify makes of a definition, seen as one replacement. */
  lemma ModifyRefreshes(json: Json, def: Definition, name: Name, f: Field, rewriteOk: bool)
    requires OrderListsColumns(def) && KeepsHints(def) && Modify(json, def, name, f, rewriteOk).Some?
    ensures var (after, found) := Modify(json, def, name, f, rewriteOk).value;
            var newField := f.(name := NewName(name, f));
            var at := HintIndex(def.source.value.hints, name);
            && (found <==> at < |def.source.value.hints|) && Buildable(json, newField) && KeepsHints(after)
            && (found ==> Refreshed(def, name, newField.name, ColumnFor(f), at, BuildHint(json, newField).value, after))
  {
    hide BuildHint, ColumnFor;
    var newField := f.(name := NewName(name, f));
    var (after, found) := Modify(json, def, name, f, rewriteOk).value;
    if newField.name == "" || newField.name == name {
      assert newField.name == name;
      assert Renamed(def.order, name, name) == def.order;
      assert (def.columns - {name})[name := ColumnFor(f)] == def.columns[name := ColumnFor(f)];
    } else {
      assert def.columns[name := ColumnFor(f)] - {name} == def.columns - {name};
    }
  }

  lemma ModifyKeepsColumns(json: Json, def: Definition, name: Name, f: Field, rewriteOk: bool)
    requires OrderListsColumns(def) && TypesKnown(def) && Modify(json, def, name, f, rewriteOk).Some?
    ensures var after := Modify(json, def, name, f, rewriteOk).value.0;
            OrderListsColumns(after) && TypesKnown(after)
  {
    hide BuildHint, RenameColumn, HintIndex, CarrierOf, ColumnFor;
    ColumnCarrier(f);
    var to := NewName(name, f);
    var typed := def.(columns := def.columns[name := ColumnFor(f)]);
    assert OrderListsColumns(typed) && TypesKnown(typed);
    if to != "" && to != name {
      RenameColumnSound(typed, name, to);
      SameColumns(typed, Modify(json, def, name, f, rewriteOk).value.0, name, to);
    }
  }

  lemma SameColumns(a: Definition, after: Definition, name: Name, to: Name)
    requires name in a.columns && OrderListsColumns(RenameColumn(a, name, to)) && TypesKnown(RenameColumn(a, name, to))
    requires exists b: Definition :: b.columns == a.columns && b.order == a.order && after == RenameColumn(b, name, to)
    ensures OrderListsColumns(after) && TypesKnown(after)
  {
  }

  /** Modifying a field refreshes its hint, under its new name, in place. */
  lemma ModifyKeepsSound(json: Json, def: Definition, name: Name, f: Field, rewriteOk: bool)
    requires Lawful(json) && Sound(json, def) && Modify(json, def, name, f, rewriteOk).Some?
    ensures var (after, found) := Modify(json, def, name, f, rewriteOk).value;
            && OrderListsColumns(after) && TypesKnown(after) && KeepsHints(after)
            && (found ==> HintsFollow(json, after, after.source.value.hints))
  {
    hide BuildHint, Lawful, Modify, HintsFollow, OrderListsColumns, TypesKnown, Refreshed;
    var newField := f.(name := NewName(name, f));
    var (after, found) := Modify(json, def, name, f, rewriteOk).value;
    ModifyKeepsColumns(json, def, name, f, rewriteOk);
    ModifyRefreshes(json, def, name, f, rewriteOk);
    if found {
      BuiltHintFits(json, newField);
      assert ColumnFor(newField) == ColumnFor(f);
      var at := HintIndex(def.source.value.hints, name);
      RefreshedHintsFollow(json, def, name, newField.name, ColumnFor(f), at, BuildHint(json, newField).value, after);
    }
  }

  /** Every operation keeps the invariant. */
  lemma StepKeepsSound(json: Json, def: Definition, a: Attempt)
    requires Lawful(json) && Sound(json, def) && AlterStep(json, def, a).Some?
    ensures Sound(json, AlterStep(json, def, a).value)
  {
    hide Modify, HintsFollow, OrderListsColumns, TypesKnown, Lawful;
    match a.op
    case AddField(f, _) =>
      if f.name !in def.columns {
        AddKeepsOrder(def, f);
      }
      ClearedIsSound(json, def, a);
    case DropField(name, _) =>
      DropKeepsOrder(def, name);
      ClearedIsSound(json, def, a);
    case ModifyField(name, f) =>
      ModifyKeepsSound(json, def, name, f, a.rewriteOk);
      ClearedIsSound(json, def, a);
    case RenameField(from, to) =>
      RenameColumnSound(def, from, to);
      ClearedIsSound(json, def, a);
    case AddIndex => ClearedIsSound(json, def, a);
    case DropIndex => ClearedIsSound(json, def, a);
  }

  /** Discarding hints touches nothing else. */
  lemma ClearedIsSound(json: Json, def: Definition, a: Attempt)
    requires AlterStep(json, def, a).Some?
    requires var (after, found) := ApplyOp(json, def, a).value;
             && OrderListsColumns(after) && TypesKnown(after) && KeepsHints(after)
             && (found ==> HintsFollow(json, after, after.source.value.hints))
    ensures Sound(json, AlterStep(json, def, a).value)
  {
  }

  lemma {:induction false} AlteredIsSound(json: Json, def: Definition, attempts: seq<Attempt>)
    requires Lawful(json) && Sound(json, def) && Altered(json, def, attempts).Some?
    ensures Sound(json, Altered(json, def, attempts).value)
    decreases |attempts|
  {
    if attempts != [] {
      AlteredIsSound(json, def, attempts[..|attempts| - 1]);
      StepKeepsSound(json, Altered(json, def, attempts[..|attempts| - 1]).value, attempts[|attempts| - 1]);
    }
  }

  // ----- Description -----

  lemma {:induction false} VisibleMembers(def: Definition, order: seq<Name>)
    ensures forall n :: n in Visible(def, order) <==> n in order && !Hidden(def, n)
    decreases |order|
  {
    hide Hidden;
    if order != [] {
      var n := |order| - 1;
      VisibleMembers(def, order[..n]);
      assert order == order[..n] + [order[n]];
    }
  }

  lemma {:induction false} VisibleDistinct(def: Definition, order: seq<Name>)
    requires Distinct(order)
    ensures Distinct(Visible(def, order))
    decreases |order|
  {
    hide Hidden;
    if order != [] {
      var n := |order| - 1;
      VisibleDistinct(def, order[..n]);
      VisibleMembers(def, order[..n]);
      assert order[n] !in order[..n];
      assert order[n] !in Visible(def, order[..n]);
    }
  }

  lemma VisibleStep(def: Definition, order: seq<Name>)
    requires order != []
    ensures var n := |order| - 1;
            Visible(def, order) == if Hidden(def, order[n]) then Visible(def, order[..n]) else Visible(def, order[..n]) + [order[n]]
  {
  }

  lemma {:induction false} VisibleAll(def: Definition, order: seq<Name>)
    requires forall i :: 0 <= i < |order| ==> !Hidden(def, order[i])
    ensures Visible(def, order) == order
    decreases |order|
  {
    hide Hidden, Visible;
    if order == [] {
      assert Visible(def, []) == [] by { VisibleNone(def); }
    } else {
      VisibleAll(def, order[..|order| - 1]);
      VisibleStep(def, order);
    }
  }

  lemma VisibleNone(def: Definition)
    ensures Visible(def, []) == []
  {
  }

  /** A hidden column makes the list shorter. */
  lemma {:induction false} VisibleShorter(def: Definition, order: seq<Name>)
    ensures |Visible(def, order)| <= |order|
    ensures (exists i :: 0 <= i < |order| && Hidden(def, order[i])) ==> |Visible(def, order)| < |order|
    decreases |order|
  {
    hide Hidden, Visible;
    if order == [] {
      VisibleNone(def);
    } else {
      VisibleShorter(def, order[..|order| - 1]);
      VisibleStep(def, order);
      if i :| 0 <= i < |order| && Hidden(def, order[i]) {
        assert i < |order| - 1 ==> order[..|order| - 1][i] == order[i];
      }
    }
  }

  /** A sound definition can be described. */
  lemma SoundDescribes(json: Json, def: Definition)
    requires Sound(json, def)
    ensures Describes(json, def, def.order)
  {
    hide HintReadable, CarrierOf, SourceType, Visible, Hidden;
    VisibleMembers(def, def.order);
    VisibleDistinct(def, def.order);
    var names := Visible(def, def.order);
    if forall i :: 0 <= i < |def.order| ==> !Hidden(def, def.order[i]) {
      VisibleAll(def, def.order);
    } else {
      VisibleShorter(def, def.order);
    }
    forall i | 0 <= i < |names|
      ensures Describable(def, names[i])
    {
      assert names[i] in names;
    }
  }

  /** In every run of alterations from a created collection, the definition lists its columns once each,
      its hints are empty or follow them, and describing it never fails. */
  lemma CreatedStaysDescribable(json: Json, c: Collection, attempts: seq<Attempt>)
    requires Lawful(json) && DistinctFields(c.fields) && Build(json, c).Some?
    requires Altered(json, Build(json, c).value, attempts).Some?
    ensures var def := Altered(json, Build(json, c).value, attempts).value;
            Sound(json, def) && Describes(json, def, def.order)
  {
    BuiltIsSound(json, c);
    AlteredIsSound(json, Build(json, c).value, attempts);
    SoundDescribes(json, Altered(json, Build(json, c).value, attempts).value);
  }

  // ----- Round trips -----

  /** A field's own part of the condition under which a description gives it back. */
  predicate Survives(f: Field) {
    f.name != KEY_FIELD && (f.precision.Some? ==> f.precision.value.0 > 0)
  }

  /** A field is read back from its column and hint exactly when its precision, if any, is positive. */
  lemma FieldReadsBack(json: Json, def: Definition, f: Field)
    requires Lawful(json) && Buildable(json, f) && f.name in def.columns && def.columns[f.name] == ColumnFor(f)
    ensures Describable(def, f.name) && HintReadable(json, BuildHint(json, f).value)
    ensures Hinted(json, PlainField(def, f.name), BuildHint(json, f).value) == f <==>
            (f.precision.Some? ==> f.precision.value.0 > 0)
  {
    SourceTypeReadsText(f.typ);
    BuiltHintFits(json, f);
    HintKeeps(json, f);
    DefaultReadsBack(json, f);
    hide BuildHint, SourceType, TypeText, CarrierOf, TypeOfCarrier, LiteralKind, Lawful;
  }

  /** The declared collection as a definition, with any key mode. */
  ghost predicate Declares(json: Json, c: Collection, def: Definition)
  {
    && AllBuildable(json, c.fields) && def.source.Some? && !def.typedCsv
    && def.columns == ColumnsOf(c.fields) && def.order == NamesOf(c.fields) && def.primaryKey == c.primaryKey
    && def.source.value.hints == HintsOf(json, c.fields) && def.source.value.retained == c.retained
  }

  lemma DeclaredNames(json: Json, c: Collection, def: Definition)
    requires Declares(json, c, def)
    ensures |def.order| == |def.source.value.hints| == |c.fields| && NamesMatch(def.source.value.hints, def.order)
    ensures forall i :: 0 <= i < |c.fields| ==> def.order[i] == c.fields[i].name && def.source.value.hints[i] == BuildHint(json, c.fields[i]).value
    ensures forall i :: 0 <= i < |c.fields| ==> Buildable(json, c.fields[i])
    ensures forall n :: Hidden(def, n) <==> n == KEY_FIELD
  {
    hide ColumnsOf;
    forall i | 0 <= i < |c.fields|
      ensures def.source.value.hints[i].name == def.order[i]
    {
      assert Buildable(json, c.fields[i]);
    }
  }

  /** Without a field named like the synthesized key, describing goes field by field through the hints. */
  lemma DeclaredDescribes(json: Json, c: Collection, def: Definition)
    requires Lawful(json) && DistinctFields(c.fields) && Declares(json, c, def)
    requires forall i :: 0 <= i < |c.fields| ==> c.fields[i].name != KEY_FIELD
    ensures Visible(def, def.order) == def.order && UsesHints(def, def.order) && Describes(json, def, def.order)
    ensures |Description(json, def, def.order, c.name).fields| == |c.fields|
    ensures forall i :: 0 <= i < |c.fields| ==>
              (Description(json, def, def.order, c.name).fields[i] == c.fields[i] <==> Survives(c.fields[i]))
  {
    hide BuildHint, ColumnFor, ColumnsOf, HintReadable, Lawful, Hinted, PlainField, Visible, Hidden, Buildable;
    DeclaredNames(json, c, def);
    DeclaredColumns(json, c, def);
    VisibleAll(def, def.order);
    forall i | 0 <= i < |c.fields|
      ensures Describable(def, def.order[i]) && HintReadable(json, def.source.value.hints[i])
      ensures Hinted(json, PlainField(def, def.order[i]), def.source.value.hints[i]) == c.fields[i] <==> Survives(c.fields[i])
    {
      FieldReadsBack(json, def, c.fields[i]);
    }
  }

  lemma DeclaredColumns(json: Json, c: Collection, def: Definition)
    requires DistinctFields(c.fields) && Declares(json, c, def)
    ensures forall i :: 0 <= i < |c.fields| ==>
              c.fields[i].name in def.columns && CarrierOf(c.fields[i].typ).Some?
              && def.columns[c.fields[i].name] == ColumnFor(c.fields[i])
  {
    assert forall i :: 0 <= i < |c.fields| ==> Buildable(json, c.fields[i]);
    ColumnsFacts(c.fields);
  }

  /** Describing a created collection gives back its declaration exactly when it has a primary key, no
      field named $key, and no precision without digits. */
  lemma CreatedRoundTripIff(json: Json, c: Collection)
    requires Lawful(json) && DistinctFields(c.fields) && Build(json, c).Some?
    ensures var def := Build(json, c).value;
            && Describes(json, def, def.order)
            && (Description(json, def, def.order, c.name) == c <==>
                c.primaryKey != [] && forall i :: 0 <= i < |c.fields| ==> Survives(c.fields[i]))
  {
    hide BuildHint, ColumnFor, ColumnsOf, HintReadable, Hinted, PlainField, Visible, Buildable, Lawful;
    var def := Build(json, c).value;
    BuiltIsSound(json, c);
    SoundDescribes(json, def);
    RoundTrip(json, c, def);
  }

  /** What the fields of a description are worth, for any key mode under which describing succeeds. */
  lemma RoundTrip(json: Json, c: Collection, def: Definition)
    requires Lawful(json) && DistinctFields(c.fields) && Declares(json, c, def) && Describes(json, def, def.order)
    ensures Description(json, def, def.order, c.name) == c <==>
            KeyOf(def) == c.primaryKey && forall i :: 0 <= i < |c.fields| ==> Survives(c.fields[i])
  {
    hide BuildHint, ColumnFor, ColumnsOf, HintReadable, Lawful, Hinted, PlainField, Visible, Hidden, Buildable, Describable, KeyOf;
    var d := Description(json, def, def.order, c.name);
    DeclaredNames(json, c, def);
    if forall i :: 0 <= i < |c.fields| ==> c.fields[i].name != KEY_FIELD {
      DeclaredDescribes(json, c, def);
      if forall i :: 0 <= i < |c.fields| ==> Survives(c.fields[i]) {
        assert d.fields == c.fields;
      }
    } else {
      var i :| 0 <= i < |c.fields| && c.fields[i].name == KEY_FIELD;
      assert Hidden(def, def.order[i]);
      VisibleShorter(def, def.order);
      assert |d.fields| < |c.fields|;
    }
  }

  /** An export is described unless a field is named $key, and gives back its declaration, primary key
      included, exactly when every precision has digits. */
  lemma ExportedRoundTripIff(json: Json, c: Collection)
    requires Lawful(json) && DistinctFields(c.fields) && Export(json, c).Some?
    ensures var def := Export(json, c).value;
            && (Describes(json, def, def.order) <==> forall i :: 0 <= i < |c.fields| ==> c.fields[i].name != KEY_FIELD)
            && (Describes(json, def, def.order) ==>
                (Description(json, def, def.order, c.name) == c <==>
                 forall i :: 0 <= i < |c.fields| ==> Survives(c.fields[i])))
  {
    hide BuildHint, ColumnFor, ColumnsOf, HintReadable, Hinted, PlainField, Visible, Buildable, Lawful, Hidden;
    var def := Export(json, c).value;
    assert Declares(json, c, def);
    DeclaredNames(json, c, def);
    if forall i :: 0 <= i < |c.fields| ==> c.fields[i].name != KEY_FIELD {
      DeclaredDescribes(json, c, def);
      RoundTrip(json, c, def);
    } else {
      var i :| 0 <= i < |c.fields| && c.fields[i].name == KEY_FIELD;
      assert Hidden(def, def.order[i]);
      VisibleShorter(def, def.order);
    }
  }
}
