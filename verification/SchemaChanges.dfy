/** Building, altering and describing a collection as they run: loops over fields and operations, an
    applier that edits the definition in place, and a file that is rewritten after each operation. */
module SchemaChanges {
  import opened Common
  import opened SchemaModel
  import opened SchemaRuns

  /** buildIngitdbCollectionDef. */
  method BuildDefinition(json: Json, c: Collection) returns (r: Option<Definition>)
    ensures r == Build(json, c)
  {
    hide BuildHint, ColumnFor;
    var columns: map<Name, Column> := map[];
    var order: seq<Name> := [];
    var hints: seq<Hint> := [];
    for i := 0 to |c.fields|
      invariant AllBuildable(json, c.fields[..i])
      invariant columns == ColumnsOf(c.fields[..i]) && order == NamesOf(c.fields[..i]) && hints == HintsOf(json, c.fields[..i])
    {
      assert c.fields[..i + 1][..i] == c.fields[..i];
      var f := c.fields[i];
      var carrier := CarrierOf(f.typ);
      if carrier.None? {
        assert !Buildable(json, c.fields[i]);
        return None;
      }
      var hint := BuildHint(json, f);
      if hint.None? {
        assert !Buildable(json, c.fields[i]);
        return None;
      }
      columns := columns[f.name := ColumnFor(f)];
      order := order + [f.name];
      hints := hints + [hint.value];
    }
    assert c.fields[..|c.fields|] == c.fields;
    return Some(Definition(c.name, columns, order, c.primaryKey, Some(Source("", hints, c.retained)), false));
  }

  /** The applier of one AlterCollection call: the parts of the definition it edits are its fields. */
  class Applier {
    const json: Json
    const base: Definition
    var columns: map<Name, Column>
    var order: seq<Name>
    var hints: seq<Hint>
    var sourceFieldsUpdated: bool

    constructor (json: Json, def: Definition)
      ensures this.json == json && base == def && View() == def && !sourceFieldsUpdated
    {
      this.json, base, columns, order := json, def, def.columns, def.order;
      hints := if def.source.Some? then def.source.value.hints else [];
      sourceFieldsUpdated := false;
    }

    /** The definition as it stands in memory. */
    function View(): Definition
      reads this
    {
      base.(columns := columns, order := order,
            source := if base.source.None? then None else Some(base.source.value.(hints := hints)))
    }

    predicate HintsKept()
      reads this
    {
      base.source.Some? && base.source.value.keyMode == ""
    }

    method ReplaceInOrder(from: Name, to: Name)
      modifies this`order
      ensures order == Renamed(old(order), from, to)
    {
      for i := 0 to |order|
        invariant |order| == |old(order)|
        invariant forall k :: 0 <= k < i ==> order[k] == if old(order)[k] == from then to else old(order)[k]
        invariant forall k :: i <= k < |order| ==> order[k] == old(order)[k]
      {
        if order[i] == from {
          order := order[i := to];
        }
      }
    }

    method DeleteFromOrder(name: Name)
      modifies this`order
      ensures order == Without(old(order), name)
    {
      var kept: seq<Name> := [];
      for i := 0 to |order|
        invariant kept == Without(order[..i], name)
      {
        assert order[..i + 1][..i] == order[..i];
        if order[i] != name {
          kept := kept + [order[i]];
        }
      }
      assert order[..|order|] == order;
      order := kept;
    }

    method ApplyAddField(f: Field, ifNotExists: bool, ghost a: Attempt) returns (ok: bool)
      requires a.op == AddField(f, ifNotExists) && !sourceFieldsUpdated
      modifies this
      ensures ok <==> ApplyOp(json, old(View()), a).Some?
      ensures ok ==> ApplyOp(json, old(View()), a) == Some((View(), sourceFieldsUpdated))
    {
      if f.name in columns {
        return ifNotExists;
      }
      if CarrierOf(f.typ).None? {
        return false;
      }
      columns := columns[f.name := ColumnFor(f)];
      order := order + [f.name];
      return true;
    }

    method ApplyDropField(name: Name, ifExists: bool, rewriteOk: bool, ghost a: Attempt) returns (ok: bool)
      requires a.op == DropField(name, ifExists) && a.rewriteOk == rewriteOk && !sourceFieldsUpdated
      modifies this
      ensures ok <==> ApplyOp(json, old(View()), a).Some?
      ensures ok ==> ApplyOp(json, old(View()), a) == Some((View(), sourceFieldsUpdated))
    {
      if name !in columns {
        return ifExists;
      }
      columns := columns - {name};
      DeleteFromOrder(name);
      return rewriteOk;
    }

    method ApplyRenameField(from: Name, to: Name, rewriteOk: bool, ghost a: Attempt) returns (ok: bool)
      requires a.op == RenameField(from, to) && a.rewriteOk == rewriteOk && !sourceFieldsUpdated
      modifies this
      ensures ok <==> ApplyOp(json, old(View()), a).Some?
      ensures ok ==> ApplyOp(json, old(View()), a) == Some((View(), sourceFieldsUpdated))
    {
      if from !in columns {
        return false;
      }
      if to in columns {
        return false;
      }
      var column := columns[from];
      columns := columns - {from};
      columns := columns[to := column];
      ReplaceInOrder(from, to);
      return rewriteOk;
    }

    /** The hint of a field, replaced where it is first found. */
    method RefreshHint(name: Name, hint: Hint)
      requires HintsKept() && !sourceFieldsUpdated
      modifies this`hints, this`sourceFieldsUpdated
      ensures var at := HintIndex(old(hints), name);
              && sourceFieldsUpdated == (at < |old(hints)|)
              && hints == if at < |old(hints)| then old(hints)[at := hint] else old(hints)
    {
      for i := 0 to |hints|
        invariant hints == old(hints) && !sourceFieldsUpdated
        invariant forall j :: 0 <= j < i ==> hints[j].name != name
      {
        if hints[i].name == name {
          hints := hints[i := hint];
          sourceFieldsUpdated := true;
          return;
        }
      }
    }

    method ApplyModifyField(name: Name, f: Field, rewriteOk: bool) returns (ok: bool)
      requires !sourceFieldsUpdated
      modifies this
      ensures ok <==> Modify(json, old(View()), name, f, rewriteOk).Some?
      ensures ok ==> Modify(json, old(View()), name, f, rewriteOk) == Some((View(), sourceFieldsUpdated))
    {
      hide BuildHint, CarrierOf, Renamed, ColumnFor, HintIndex;
      if name !in columns {
        return false;
      }
      if CarrierOf(f.typ).None? {
        return false;
      }
      var newField := if f.name == "" then f.(name := name) else f;
      if HintsKept() {
        var hint := BuildHint(json, newField);
        if hint.None? {
          return false;
        }
        RefreshHint(name, hint.value);
      }
      columns := columns[name := ColumnFor(f)];
      var to := newField.name;
      if to != "" && to != name {
        if to in columns {
          return false;
        }
        var column := columns[name];
        columns := columns - {name};
        columns := columns[to := column];
        ReplaceInOrder(name, to);
        return rewriteOk;
      }
      return true;
    }

    method ApplyTo(a: Attempt) returns (ok: bool)
      requires !sourceFieldsUpdated
      modifies this
      ensures ok <==> ApplyOp(json, old(View()), a).Some?
      ensures ok ==> ApplyOp(json, old(View()), a) == Some((View(), sourceFieldsUpdated))
    {
      match a.op {
        case AddField(f, ifNotExists) => ok := ApplyAddField(f, ifNotExists, a);
        case DropField(name, ifExists) => ok := ApplyDropField(name, ifExists, a.rewriteOk, a);
        case ModifyField(name, f) => ok := ApplyModifyField(name, f, a.rewriteOk);
        case RenameField(from, to) => ok := ApplyRenameField(from, to, a.rewriteOk, a);
        case AddIndex => ok := true;
        case DropIndex => ok := true;
      }
    }
  }

  /** definition.yaml of one collection. */
  class DefinitionFile {
    const json: Json
    var disk: Definition

    constructor (json: Json, disk: Definition)
      ensures this.json == json && this.disk == disk
    {
      this.json, this.disk := json, disk;
    }

    /** AlterCollection: operations in order, the file rewritten after each, up to the first failure. */
    method AlterCollection(attempts: seq<Attempt>) returns (applied: nat)
      modifies this
      ensures applied == AppliedCount(json, old(disk), attempts)
      ensures disk == AfterCall(json, old(disk), attempts)
    {
      hide ApplyOp;
      var ap := new Applier(json, disk);
      for i := 0 to |attempts|
        invariant ap.json == json && ap.View() == disk && !ap.sourceFieldsUpdated && fresh(ap)
        invariant AppliedCount(json, old(disk), attempts) == i + AppliedCount(json, disk, attempts[i..])
        invariant AfterCall(json, old(disk), attempts) == AfterCall(json, disk, attempts[i..])
      {
        var a := attempts[i];
        assert attempts[i..][0] == a && attempts[i..][1..] == attempts[i + 1..];
        var ok := ap.ApplyTo(a);
        if !ok {
          return i;
        }
        if ap.HintsKept() && !ap.sourceFieldsUpdated {
          ap.hints := [];
        }
        ap.sourceFieldsUpdated := false;
        if !a.flushOk {
          return i;
        }
        disk := ap.View();
      }
      return |attempts|;
    }
  }
}
