/** Whole runs of AlterCollection calls, and what altering does to collections that were exported and to
    primary keys. */
module SchemaRuns {
  import opened Common
  import opened SchemaModel
  import opened SchemaSoundness

  // ----- Calls -----

  /** How many operations of a call are applied: all before the first that fails. */
  function AppliedCount(json: Json, def: Definition, attempts: seq<Attempt>): (n: nat)
    ensures n <= |attempts|
    decreases |attempts|
  {
    if attempts == [] then 0
    else
      var r := AlterStep(json, def, attempts[0]);
      if r.None? then 0 else 1 + AppliedCount(json, r.value, attempts[1..])
  }

  /** What a call leaves on disk. */
  function AfterCall(json: Json, def: Definition, attempts: seq<Attempt>): Definition
    decreases |attempts|
  {
    if attempts == [] then def
    else
      var r := AlterStep(json, def, attempts[0]);
      if r.None? then def else AfterCall(json, r.value, attempts[1..])
  }

  /** The definition on disk and the operations applied so far, call after call. */
  function Run(json: Json, def: Definition, calls: seq<seq<Attempt>>): (Definition, seq<Attempt>) {
    if calls == [] then (def, [])
    else
      var (before, applied) := Run(json, def, calls[..|calls| - 1]);
      var call := calls[|calls| - 1];
      (AfterCall(json, before, call), applied + call[..AppliedCount(json, before, call)])
  }

  lemma AlteredOne(json: Json, def: Definition, a: Attempt)
    ensures Altered(json, def, [a]) == AlterStep(json, def, a)
  {
    assert [a][..0] == [];
    assert Altered(json, def, [a][..0]) == Some(def);
  }

  lemma {:induction false} AlteredAppend(json: Json, def: Definition, a: seq<Attempt>, b: seq<Attempt>)
    requires Altered(json, def, a).Some?
    ensures Altered(json, def, a + b) == Altered(json, Altered(json, def, a).value, b)
    decreases |b|
  {
    hide AlterStep;
    if b == [] {
      assert a + b == a;
    } else {
      var n := |b| - 1;
      AlteredAppend(json, def, a, b[..n]);
      assert (a + b)[..|a + b| - 1] == a + b[..n];
    }
  }

  /** A call leaves the fold of its applied operations. */
  lemma {:induction false} CallIsFold(json: Json, def: Definition, attempts: seq<Attempt>)
    ensures Altered(json, def, attempts[..AppliedCount(json, def, attempts)]) == Some(AfterCall(json, def, attempts))
    ensures AppliedCount(json, def, attempts) < |attempts| ==>
              AlterStep(json, AfterCall(json, def, attempts), attempts[AppliedCount(json, def, attempts)]).None?
    decreases |attempts|
  {
    hide AlterStep, Altered;
    if attempts == [] || AlterStep(json, def, attempts[0]).None? {
      assert attempts[..0] == [];
      AlteredNothing(json, def);
    } else {
      var def1 := AlterStep(json, def, attempts[0]).value;
      var n := AppliedCount(json, def1, attempts[1..]);
      CallIsFold(json, def1, attempts[1..]);
      AlteredOne(json, def, attempts[0]);
      AlteredAppend(json, def, [attempts[0]], attempts[1..][..n]);
      assert attempts[..n + 1] == [attempts[0]] + attempts[1..][..n];
    }
  }

  lemma AlteredNothing(json: Json, def: Definition)
    ensures Altered(json, def, []) == Some(def)
  {
  }

  /** After any sequence of calls, some failing, the definition on disk is the fold of exactly the applied
      operations. */
  lemma {:induction false} RunIsFold(json: Json, def: Definition, calls: seq<seq<Attempt>>)
    ensures Altered(json, def, Run(json, def, calls).1) == Some(Run(json, def, calls).0)
    decreases |calls|
  {
    hide AlterStep, Altered, AfterCall, AppliedCount;
    if calls == [] {
      AlteredNothing(json, def);
    } else {
      var call := calls[|calls| - 1];
      RunIsFold(json, def, calls[..|calls| - 1]);
      var (before, applied) := Run(json, def, calls[..|calls| - 1]);
      CallIsFold(json, before, call);
      AlteredAppend(json, def, applied, call[..AppliedCount(json, before, call)]);
    }
  }

  /** So in every run on a created collection, columns_order lists the columns once each, hints are empty
      or follow them by name and carrier type, and describing never fails. */
  lemma EveryRunDescribes(json: Json, c: Collection, calls: seq<seq<Attempt>>)
    requires Lawful(json) && DistinctFields(c.fields) && Build(json, c).Some?
    ensures var (def, applied) := Run(json, Build(json, c).value, calls);
            && Altered(json, Build(json, c).value, applied) == Some(def)
            && Sound(json, def) && Describes(json, def, def.order)
  {
    RunIsFold(json, Build(json, c).value, calls);
    CreatedStaysDescribable(json, c, Run(json, Build(json, c).value, calls).1);
  }

  // ----- Exported collections -----

  /** An exported definition as it stands after export: hints for exactly the visible columns. */
  ghost predicate ExportedOk(json: Json, def: Definition)
  {
    && OrderListsColumns(def) && TypesKnown(def)
    && def.source.Some? && def.source.value.keyMode != ""
    && NamesMatch(def.source.value.hints, Visible(def, def.order))
    && forall i :: 0 <= i < |def.source.value.hints| ==> HintReadable(json, def.source.value.hints[i])
  }

  /** An operation that changes the list of visible columns. */
  predicate ChangesVisible(def: Definition, op: Op) {
    match op
    case AddField(f, _) => f.name !in def.columns && !Hidden(def, f.name)
    case DropField(name, _) => name in def.columns && !Hidden(def, name)
    case ModifyField(name, f) => NewName(name, f) != name && !(Hidden(def, name) && Hidden(def, NewName(name, f)))
    case RenameField(from, to) => !(Hidden(def, from) && Hidden(def, to))
    case _ => false
  }

  lemma {:induction false} VisibleOfSame(a: Definition, b: Definition, order: seq<Name>)
    requires forall n :: Hidden(a, n) <==> Hidden(b, n)
    ensures Visible(a, order) == Visible(b, order)
    decreases |order|
  {
    if order != [] {
      VisibleOfSame(a, b, order[..|order| - 1]);
    }
  }

  lemma WithoutStepped(order: seq<Name>, last: Name, name: Name)
    ensures Without(order + [last], name) == if last == name then Without(order, name) else Without(order, name) + [last]
  {
    assert (order + [last])[..|order|] == order;
  }

  lemma {:induction false} VisibleWithout(def: Definition, order: seq<Name>, name: Name)
    ensures Visible(def, Without(order, name)) == Without(Visible(def, order), name)
    decreases |order|
  {
    if order == [] {
      assert Without(order, name) == [] && Visible(def, order) == [];
    } else {
      hide Hidden, Visible, Without;
      var n := |order| - 1;
      var last := order[n];
      VisibleWithout(def, order[..n], name);
      assert order == order[..n] + [last];
      WithoutStepped(order[..n], last, name);
      VisibleStep(def, order);
      WithoutStepped(Visible(def, order[..n]), last, name);
      VisibleStepped(def, Without(order[..n], name), last);
    }
  }

  lemma {:induction false} RenamedStep(order: seq<Name>, from: Name, to: Name)
    requires order != []
    ensures var n := |order| - 1;
            Renamed(order, from, to) == Renamed(order[..n], from, to) + [if order[n] == from then to else order[n]]
  {
  }

  lemma VisibleStepped(def: Definition, order: seq<Name>, last: Name)
    ensures Visible(def, order + [last]) == if Hidden(def, last) then Visible(def, order) else Visible(def, order) + [last]
  {
    assert (order + [last])[..|order|] == order;
  }

  /** Renaming a hidden column to a visible name lengthens the list, the other way round it shortens it, and
      between visible names it renames. */
  lemma {:induction false} VisibleRenamed(def: Definition, order: seq<Name>, from: Name, to: Name)
    ensures Hidden(def, from) && Hidden(def, to) ==> Visible(def, Renamed(order, from, to)) == Visible(def, order)
    ensures !Hidden(def, from) && !Hidden(def, to) ==>
              Visible(def, Renamed(order, from, to)) == Renamed(Visible(def, order), from, to)
    ensures Hidden(def, from) && !Hidden(def, to) ==> |Visible(def, Renamed(order, from, to))| >= |Visible(def, order)|
    ensures !Hidden(def, from) && Hidden(def, to) ==> |Visible(def, Renamed(order, from, to))| <= |Visible(def, order)|
    ensures Hidden(def, from) && !Hidden(def, to) && from in order ==>
              |Visible(def, Renamed(order, from, to))| > |Visible(def, order)|
    ensures !Hidden(def, from) && Hidden(def, to) && from in order ==>
              |Visible(def, Renamed(order, from, to))| < |Visible(def, order)|
    decreases |order|
  {
    hide Hidden, Visible, Renamed;
    if order == [] {
      VisibleNone(def);
      RenamedNothing(from, to);
    } else {
      var n := |order| - 1;
      VisibleRenamed(def, order[..n], from, to);
      RenamedStep(order, from, to);
      VisibleStepped(def, Renamed(order[..n], from, to), if order[n] == from then to else order[n]);
      VisibleStep(def, order);
      if !Hidden(def, order[n]) {
        var shown := Visible(def, order[..n]);
        RenamedStep(shown + [order[n]], from, to);
        assert (shown + [order[n]])[..|shown|] == shown;
      }
    }
  }

  lemma RenamedNothing(from: Name, to: Name)
    ensures Renamed([], from, to) == []
  {
  }

  /** Only the visible column list decides whether an altered export can be described. */
  lemma ExportedDescribesIff(json: Json, def: Definition, hints: seq<Hint>)
    requires OrderListsColumns(def) && TypesKnown(def) && def.source.Some? && def.source.value.keyMode != ""
    requires def.source.value.hints == hints && forall i :: 0 <= i < |hints| ==> HintReadable(json, hints[i])
    ensures Describes(json, def, def.order) <==> NamesMatch(hints, Visible(def, def.order))
  {
    hide HintReadable, Visible, Hidden;
    VisibleMembers(def, def.order);
    VisibleDistinct(def, def.order);
    var names := Visible(def, def.order);
    forall i | 0 <= i < |names|
      ensures Describable(def, names[i])
    {
      assert names[i] in names;
    }
  }

  lemma ChangesNames(def: Definition, op: Op, after: Definition)
    requires OrderListsColumns(def)
    requires op.RenameField? || op.ModifyField?
    requires var from := if op.RenameField? then op.from else op.name;
             var to := if op.RenameField? then op.to else NewName(op.name, op.newField);
             && from in def.columns
             && (if to == from then after.order == def.order
                 else to !in def.columns && after.order == Renamed(def.order, from, to))
             && (op.RenameField? ==> to != from)
    ensures Visible(def, after.order) == Visible(def, def.order) <==> !ChangesVisible(def, op)
  {
    hide Visible, Hidden, Renamed;
    var from := if op.RenameField? then op.from else op.name;
    var to := if op.RenameField? then op.to else NewName(op.name, op.newField);
    if to != from {
      VisibleRenamed(def, def.order, from, to);
      if !Hidden(def, from) && !Hidden(def, to) {
        VisibleMembers(def, def.order);
        RenamedDiffers(Visible(def, def.order), from, to);
      }
    }
  }

  lemma RenamedDiffers(names: seq<Name>, from: Name, to: Name)
    requires from in names && from != to
    ensures Renamed(names, from, to) != names
  {
    var i :| 0 <= i < |names| && names[i] == from;
    assert Renamed(names, from, to)[i] == to;
  }

  /** Altering an exported collection leaves it describable exactly when the operation does not change
      its visible columns: hints of exports are never updated. */
  lemma ExportedAlterIff(json: Json, def: Definition, a: Attempt)
    requires ExportedOk(json, def) && AlterStep(json, def, a).Some?
    ensures var after := AlterStep(json, def, a).value;
            Describes(json, after, after.order) <==> !ChangesVisible(def, a.op)
  {
    hide HintReadable, Visible, Renamed, Without, BuildHint, ColumnFor, CarrierOf;
    var after := AlterStep(json, def, a).value;
    ExportedStep(json, def, a);
    VisibleOfSame(def, after, after.order);
    ExportedDescribesIff(json, after, def.source.value.hints);
    SameNames(def.source.value.hints, Visible(def, def.order), Visible(def, after.order));
    match a.op
    case AddField(f, _) =>
      if f.name !in def.columns {
        VisibleStepped(def, def.order, f.name);
      }
    case DropField(name, _) =>
      if name in def.columns {
        VisibleWithout(def, def.order, name);
        VisibleMembers(def, def.order);
        WithoutFacts(Visible(def, def.order), name);
      }
    case ModifyField(_, _) => ChangesNames(def, a.op, after);
    case RenameField(_, _) => ChangesNames(def, a.op, after);
    case _ =>
  }

  lemma SameNames(hints: seq<Hint>, a: seq<Name>, b: seq<Name>)
    requires NamesMatch(hints, a)
    ensures NamesMatch(hints, b) <==> b == a
  {
    if NamesMatch(hints, b) {
      assert forall i :: 0 <= i < |a| ==> a[i] == b[i];
    }
  }

  lemma ExportedStep(json: Json, def: Definition, a: Attempt)
    requires ExportedOk(json, def) && AlterStep(json, def, a).Some?
    ensures var after := AlterStep(json, def, a).value;
            && OrderListsColumns(after) && TypesKnown(after) && after.source == def.source && after.typedCsv == def.typedCsv
  {
    hide Visible, Renamed, Without, BuildHint, HintReadable, OrderListsColumns, TypesKnown, RenameColumn;
    match a.op
    case AddField(f, _) =>
      if f.name !in def.columns {
        AddKeepsOrder(def, f);
      }
    case DropField(name, _) => DropKeepsOrder(def, name);
    case ModifyField(name, f) =>
      ModifyKeepsColumns(json, def, name, f, a.rewriteOk);
      ModifySource(json, def, name, f, a.rewriteOk);
    case RenameField(from, to) =>
      RenameColumnSound(def, from, to);
      RenameSource(def, from, to);
    case _ =>
  }

  lemma RenameSource(def: Definition, from: Name, to: Name)
    requires from in def.columns
    ensures RenameColumn(def, from, to).source == def.source && RenameColumn(def, from, to).typedCsv == def.typedCsv
  {
  }

  lemma ModifySource(json: Json, def: Definition, name: Name, f: Field, rewriteOk: bool)
    requires !KeepsHints(def) && Modify(json, def, name, f, rewriteOk).Some?
    ensures var (after, found) := Modify(json, def, name, f, rewriteOk).value;
            after.source == def.source && after.typedCsv == def.typedCsv && !found
  {
  }

  lemma ExportIsExported(json: Json, c: Collection)
    requires Lawful(json) && DistinctFields(c.fields) && Export(json, c).Some?
    requires forall i :: 0 <= i < |c.fields| ==> c.fields[i].name != KEY_FIELD
    ensures var def := Export(json, c).value;
            && ExportedOk(json, def) && Describes(json, def, def.order)
            && (forall n :: n in def.columns ==> exists i :: 0 <= i < |c.fields| && c.fields[i].name == n)
            && (forall n :: Hidden(def, n) <==> n == KEY_FIELD)
  {
    hide BuildHint, ColumnFor, ColumnsOf, HintReadable, Hinted, PlainField, Visible, Buildable, Lawful, HintFits;
    var def := Export(json, c).value;
    BuiltIsSound(json, c);
    assert Declares(json, c, def);
    DeclaredNames(json, c, def);
    DeclaredDescribes(json, c, def);
  }

  /** Any new field added to any export makes it impossible to describe. */
  lemma AddingToExportBreaksIt(json: Json, c: Collection, f: Field)
    requires Lawful(json) && DistinctFields(c.fields) && Export(json, c).Some?
    requires (forall i :: 0 <= i < |c.fields| ==> c.fields[i].name != KEY_FIELD && c.fields[i].name != f.name)
    requires f.name != KEY_FIELD && CarrierOf(f.typ).Some?
    ensures var def := Export(json, c).value;
            var after := AlterStep(json, def, Attempt(AddField(f, false), true, true));
            Describes(json, def, def.order) && after.Some? && !Describes(json, after.value, after.value.order)
  {
    hide BuildHint, ColumnFor, HintReadable, Visible, Lawful, Describes, ExportedOk, Build;
    var def := Export(json, c).value;
    ExportIsExported(json, c);
    ExportedAlterIff(json, def, Attempt(AddField(f, false), true, true));
  }

  // ----- Primary keys -----

  ghost predicate KeyColumnsExist(def: Definition)
  {
    forall n :: n in def.primaryKey ==> n in def.columns
  }

  /** No operation touches the primary key, so its columns keep existing exactly when none of them is
      dropped or renamed. */
  lemma KeyColumnsExistIff(json: Json, def: Definition, a: Attempt)
    requires KeyColumnsExist(def) && AlterStep(json, def, a).Some?
    ensures AlterStep(json, def, a).value.primaryKey == def.primaryKey
    ensures KeyColumnsExist(AlterStep(json, def, a).value) <==>
            match a.op
            case DropField(name, _) => name !in def.primaryKey
            case ModifyField(name, f) => NewName(name, f) == name || name !in def.primaryKey
            case RenameField(from, _) => from !in def.primaryKey
            case _ => true
  {
    hide BuildHint, ColumnFor, CarrierOf, Renamed, Without;
    match a.op
    case ModifyField(name, f) =>
      assert f.name == "" || NewName(name, f) == f.name;
    case _ =>
  }
}
