/** What each alteration of a created collection does to its description. */
module SchemaEffects {
  import opened Common
  import opened SchemaModel
  import opened SchemaSoundness
  import opened SchemaRuns

  /** A field as its column alone describes it. */
  function Coarse(f: Field): Field {
    Field(f.name, if f.typ == Decimal || f.typ == Binary then Text else f.typ, f.nullable, false, 0, NoDefault, None)
  }

  ghost predicate AllDescribable(def: Definition, names: seq<Name>)
  {
    forall i :: 0 <= i < |names| ==> Describable(def, names[i])
  }

  /** The description from columns alone. */
  ghost function PlainList(def: Definition): seq<Field>
    requires AllDescribable(def, Visible(def, def.order))
  {
    var names := Visible(def, def.order);
    seq(|names|, i requires 0 <= i < |names| => PlainField(def, names[i]))
  }

  lemma SoundIsDescribable(json: Json, def: Definition)
    requires Sound(json, def)
    ensures AllDescribable(def, Visible(def, def.order)) && Describes(json, def, def.order)
    ensures forall n :: Hidden(def, n) <==> n == KEY_FIELD
    ensures forall n :: n in Visible(def, def.order) ==> n in def.columns
  {
    hide HintsFollow, Visible;
    SoundDescribes(json, def);
    VisibleMembers(def, def.order);
  }

  /** Once hints are discarded the description is the one from columns alone. */
  lemma WithoutHints(json: Json, def: Definition, name: Name)
    requires Sound(json, def) && def.source.value.hints == []
    ensures AllDescribable(def, Visible(def, def.order)) && Describes(json, def, def.order)
    ensures Description(json, def, def.order, name).fields == PlainList(def)
  {
    hide HintsFollow, Visible, OrderListsColumns, TypesKnown, Hinted;
    SoundIsDescribable(json, def);
  }

  /** Adding a field describes it, as its column does, after all others. */
  lemma DescribedAfterAdd(json: Json, def: Definition, f: Field, a: Attempt, name: Name)
    requires Lawful(json) && Sound(json, def) && a.op.AddField? && a.op.field == f
    requires f.name !in def.columns && f.name != KEY_FIELD && AlterStep(json, def, a).Some?
    ensures AllDescribable(def, Visible(def, def.order))
    ensures var after := AlterStep(json, def, a).value;
            && Describes(json, after, after.order)
            && Description(json, after, after.order, name).fields == PlainList(def) + [Coarse(f)]
  {
    hide Lawful, HintsFollow, Visible, OrderListsColumns, TypesKnown, HintReadable, Hinted;
    var after := AlterStep(json, def, a).value;
    StepKeepsSound(json, def, a);
    SoundIsDescribable(json, def);
    WithoutHints(json, after, name);
    VisibleOfSame(def, after, after.order);
    VisibleStepped(def, def.order, f.name);
    var names, names' := Visible(def, def.order), Visible(after, after.order);
    assert names' == names + [f.name];
    forall i | 0 <= i < |names|
      ensures PlainField(after, names'[i]) == PlainField(def, names[i])
    {
      assert names[i] in names;
    }
    assert PlainField(after, f.name) == Coarse(f);
  }

  /** Dropping a field removes it from the description and leaves the others as their columns describe
      them. */
  lemma DescribedAfterDrop(json: Json, def: Definition, a: Attempt, name: Name, i: nat)
    requires Lawful(json) && Sound(json, def) && a.op.DropField? && a.op.name in def.columns && AlterStep(json, def, a).Some?
    ensures AllDescribable(def, Visible(def, def.order))
    ensures var after := AlterStep(json, def, a).value;
            && Describes(json, after, after.order)
            && var fields := Description(json, after, after.order, name).fields;
               && NamesOf(fields) == Without(NamesOf(PlainList(def)), a.op.name)
               && (i < |fields| ==> fields[i] in PlainList(def))
  {
    hide Lawful, HintsFollow, Visible, OrderListsColumns, TypesKnown, HintReadable, Hinted, Without;
    var after := AlterStep(json, def, a).value;
    StepKeepsSound(json, def, a);
    SoundIsDescribable(json, def);
    WithoutHints(json, after, name);
    VisibleOfSame(def, after, after.order);
    VisibleWithout(def, def.order, a.op.name);
    var names, names' := Visible(def, def.order), Visible(after, after.order);
    assert NamesOf(PlainList(def)) == names;
    assert NamesOf(PlainList(after)) == names';
    WithoutFacts(names, a.op.name);
    if i < |names'| {
      assert names'[i] in names';
      var k :| 0 <= k < |names| && names[k] == names'[i];
      assert PlainField(after, names'[i]) == PlainField(def, names[k]);
      assert PlainList(def)[k] == PlainField(def, names[k]);
    }
  }

  /** Renaming keeps a field's place and what its column says of it. */
  lemma DescribedAfterRename(json: Json, def: Definition, a: Attempt, name: Name)
    requires Lawful(json) && Sound(json, def) && a.op.RenameField? && AlterStep(json, def, a).Some?
    requires a.op.from != KEY_FIELD && a.op.to != KEY_FIELD
    ensures AllDescribable(def, Visible(def, def.order))
    ensures var after := AlterStep(json, def, a).value;
            && Describes(json, after, after.order)
            && var fields := Description(json, after, after.order, name).fields;
               && |fields| == |PlainList(def)|
               && forall i :: 0 <= i < |fields| ==>
                    fields[i] == if PlainList(def)[i].name == a.op.from then PlainList(def)[i].(name := a.op.to) else PlainList(def)[i]
  {
    hide Lawful, HintsFollow, Visible, OrderListsColumns, TypesKnown, HintReadable, Hinted;
    var after := AlterStep(json, def, a).value;
    StepKeepsSound(json, def, a);
    SoundIsDescribable(json, def);
    WithoutHints(json, after, name);
    VisibleOfSame(def, after, after.order);
    VisibleRenamed(def, def.order, a.op.from, a.op.to);
    var names, names' := Visible(def, def.order), Visible(after, after.order);
    assert names' == Renamed(names, a.op.from, a.op.to);
    forall i | 0 <= i < |names|
      ensures PlainField(after, names'[i]) ==
              if names[i] == a.op.from then PlainField(def, names[i]).(name := a.op.to) else PlainField(def, names[i])
    {
      assert names[i] in names;
    }
  }

  /** Modifying a field of a collection whose hints are intact keeps them intact: the description then has
      the new field, as declared, in the place of the old one, and every other field as before. */
  lemma DescribedAfterModify(json: Json, def: Definition, a: Attempt, name: Name, i: nat)
    requires Lawful(json) && Sound(json, def) && a.op.ModifyField? && AlterStep(json, def, a).Some?
    requires def.source.value.hints != [] && KEY_FIELD !in def.columns
    requires Survives(a.op.newField.(name := NewName(a.op.name, a.op.newField)))
    ensures var after := AlterStep(json, def, a).value;
            && Describes(json, def, def.order) && Describes(json, after, after.order)
            && var before, fields := Description(json, def, def.order, name).fields, Description(json, after, after.order, name).fields;
               && |fields| == |before| == |def.order|
               && (i < |fields| ==>
                     fields[i] == if def.order[i] == a.op.name then a.op.newField.(name := NewName(a.op.name, a.op.newField)) else before[i])
  {
    hide Lawful, HintReadable, Hinted, BuildHint, Modify, HintsFollow, OrderListsColumns, TypesKnown, Refreshed;
    hide Describes, Description, Visible, PlainField, AlterStep;
    var after := AlterStep(json, def, a).value;
    var newField := a.op.newField.(name := NewName(a.op.name, a.op.newField));
    StepKeepsSound(json, def, a);
    ModifyFinds(json, def, a);
    ModifyRefreshes(json, def, a.op.name, a.op.newField, a.rewriteOk);
    var at := HintIndex(def.source.value.hints, a.op.name);
    var h := BuildHint(json, newField).value;
    RefreshedNames(json, def, a.op.name, newField.name, ColumnFor(a.op.newField), at, h, after);
    HintedDescription(json, def, name);
    HintedDescription(json, after, name);
    if i < |def.order| {
      RefreshedAt(json, def, a.op.name, newField.name, ColumnFor(a.op.newField), at, h, after, i);
      if def.order[i] == a.op.name {
        ReadsBack(json, after, newField);
      }
    }
  }

  /** With hints that follow the columns, each field is described by its column and its hint. */
  lemma HintedDescription(json: Json, def: Definition, name: Name)
    requires Sound(json, def) && def.source.value.hints != [] && KEY_FIELD !in def.columns
    ensures Describes(json, def, def.order)
    ensures var fields := Description(json, def, def.order, name).fields;
            && |fields| == |def.order| == |def.source.value.hints|
            && forall i :: 0 <= i < |fields| ==>
                 && Describable(def, def.order[i]) && HintReadable(json, def.source.value.hints[i])
                 && fields[i] == Hinted(json, PlainField(def, def.order[i]), def.source.value.hints[i])
  {
    hide HintReadable, Hinted, PlainField, Visible;
    SoundDescribes(json, def);
    forall i | 0 <= i < |def.order|
      ensures !Hidden(def, def.order[i])
    {
      assert def.order[i] in def.order;
    }
    VisibleAll(def, def.order);
  }

  lemma RefreshedNames(json: Json, def: Definition, name: Name, to: Name, column: Column, at: nat, h: Hint, after: Definition)
    requires Sound(json, def) && at < |def.source.value.hints| && Refreshed(def, name, to, column, at, h, after)
    requires KEY_FIELD !in def.columns && to != KEY_FIELD
    ensures KEY_FIELD !in after.columns && |after.order| == |def.order| && after.source.Some? && after.source.value.hints != []
  {
    hide HintsFollow, OrderListsColumns, TypesKnown;
  }

  /** What a refreshed definition holds at one position. */
  lemma RefreshedAt(json: Json, def: Definition, name: Name, to: Name, column: Column, at: nat, h: Hint, after: Definition, i: nat)
    requires Sound(json, def) && at < |def.source.value.hints| && def.source.value.hints[at].name == name
    requires Refreshed(def, name, to, column, at, h, after) && i < |def.order|
    ensures |after.order| == |def.order| == |def.source.value.hints| == |after.source.value.hints|
    ensures def.order[i] == name ==>
              after.order[i] == to && after.source.value.hints[i] == h && to in after.columns && after.columns[to] == column
    ensures def.order[i] != name ==>
              && after.order[i] == def.order[i] && after.source.value.hints[i] == def.source.value.hints[i]
              && def.order[i] in def.columns && def.order[i] in after.columns
              && after.columns[def.order[i]] == def.columns[def.order[i]]
              && (Describable(def, def.order[i]) ==> PlainField(after, def.order[i]) == PlainField(def, def.order[i]))
  {
    hide HintFits;
    assert def.order[i] in def.order && def.order[at] == name;
  }

  lemma ReadsBack(json: Json, def: Definition, f: Field)
    requires Lawful(json) && Buildable(json, f) && f.name in def.columns && def.columns[f.name] == ColumnFor(f) && Survives(f)
    ensures Describable(def, f.name) && HintReadable(json, BuildHint(json, f).value)
    ensures Hinted(json, PlainField(def, f.name), BuildHint(json, f).value) == f
  {
    FieldReadsBack(json, def, f);
  }

  /** With hints that follow the columns, a modified field has one. */
  lemma ModifyFinds(json: Json, def: Definition, a: Attempt)
    requires Sound(json, def) && a.op.ModifyField? && AlterStep(json, def, a).Some? && def.source.value.hints != []
    ensures HintIndex(def.source.value.hints, a.op.name) < |def.source.value.hints|
    ensures Modify(json, def, a.op.name, a.op.newField, a.rewriteOk).Some?
    ensures Modify(json, def, a.op.name, a.op.newField, a.rewriteOk).value == (AlterStep(json, def, a).value, true)
  {
    hide HintReadable, BuildHint, CarrierOf, ColumnFor, RenameColumn, OrderListsColumns, TypesKnown, HintsFollow, HintIndex;
    HintIsFound(json, def, a.op.name);
  }

  lemma HintIsFound(json: Json, def: Definition, name: Name)
    requires Sound(json, def) && def.source.value.hints != [] && name in def.columns
    ensures HintIndex(def.source.value.hints, name) < |def.source.value.hints|
  {
    hide HintReadable, CarrierOf, HintIndex, HintFits;
    var k :| 0 <= k < |def.order| && def.order[k] == name;
    assert def.source.value.hints[k].name == name;
  }

  // ----- What an alteration does to the definition -----

  /** A default that can be kept as a hint: none, the current time, or a literal of a supported kind with a JSON text. */
  predicate DefaultKept(json: Json, f: Field) {
    f.default_.Literal? ==> LiteralKind(f.default_.kind) && json.marshal(f.default_.kind, f.default_.value).Some?
  }

  /** An alteration succeeds exactly when it can be written and: an added field is new and has a type, or may be there; a
      dropped field is there, or need not be; a renamed one is there and its new name is not; a modified one is there, gets
      a type, takes a name that is its own or free, and in a created collection a default that can be kept. */
  lemma AlterSucceedsIff(json: Json, def: Definition, a: Attempt)
    ensures AlterStep(json, def, a).Some? <==>
            && a.flushOk
            && match a.op
               case AddField(f, ifNotExists) => if f.name in def.columns then ifNotExists else f.typ != Null
               case DropField(name, ifExists) => if name in def.columns then a.rewriteOk else ifExists
               case RenameField(from, to) => from in def.columns && to !in def.columns && a.rewriteOk
               case ModifyField(name, f) =>
                 && name in def.columns && f.typ != Null
                 && (def.source.Some? && def.source.value.keyMode == "" ==> DefaultKept(json, f))
                 && (f.name != "" && f.name != name ==> f.name !in def.columns && a.rewriteOk)
               case _ => true
  {
    hide Renamed, Without, HintIndex;
  }

  /** The name under which a column goes on after an operation; None when it is dropped. */
  function NameAfter(op: Op, name: Name): Option<Name> {
    match op
    case DropField(dropped, _) => if name == dropped then None else Some(name)
    case RenameField(from, to) => Some(if name == from then to else name)
    case ModifyField(changed, f) => Some(if name == changed && f.name != "" then f.name else name)
    case _ => Some(name)
  }

  /** The definitions agree on everything but columns, order and hints. */
  predicate SameRest(a: Definition, b: Definition) {
    && b.id == a.id && b.primaryKey == a.primaryKey && b.typedCsv == a.typedCsv
    && (b.source.Some? <==> a.source.Some?)
    && (a.source.Some? ==> b.source.value.keyMode == a.source.value.keyMode && b.source.value.retained == a.source.value.retained)
  }

  lemma ModifyKeepsRest(json: Json, def: Definition, name: Name, f: Field, rewriteOk: bool)
    requires Modify(json, def, name, f, rewriteOk).Some?
    ensures SameRest(def, Modify(json, def, name, f, rewriteOk).value.0)
  {
    hide Renamed, HintIndex, BuildHint, CarrierOf, ColumnFor;
  }

  /** An alteration leaves the name, the key, the format and what the source retains. */
  lemma AlterKeepsRest(json: Json, def: Definition, a: Attempt)
    requires AlterStep(json, def, a).Some?
    ensures SameRest(def, AlterStep(json, def, a).value)
  {
    hide Without, Renamed, CarrierOf, ColumnFor, Modify;
    if a.op.ModifyField? {
      ModifyKeepsRest(json, def, a.op.name, a.op.newField, a.rewriteOk);
    }
  }

  lemma AlteredColumns(json: Json, def: Definition, a: Attempt)
    requires AlterStep(json, def, a).Some?
    ensures a.op.AddField? && a.op.field.name !in def.columns ==> CarrierOf(a.op.field.typ).Some?
    ensures a.op.ModifyField? ==> a.op.name in def.columns && CarrierOf(a.op.newField.typ).Some?
    ensures a.op.RenameField? ==> a.op.from in def.columns && a.op.to !in def.columns
    ensures a.op.ModifyField? && NewName(a.op.name, a.op.newField) != a.op.name ==> NewName(a.op.name, a.op.newField) !in def.columns
    ensures var c, after := def.columns, AlterStep(json, def, a).value.columns;
            match a.op
            case AddField(f, _) => after == if f.name in c then c else c[f.name := ColumnFor(f)]
            case DropField(name, _) => after == c - {name}
            case RenameField(from, to) => after == (c - {from})[to := c[from]]
            case ModifyField(name, f) =>
              after == if NewName(name, f) == name then c[name := ColumnFor(f)] else (c - {name})[NewName(name, f) := ColumnFor(f)]
            case _ => after == c
  {
    hide Without, Renamed, HintIndex, BuildHint, CarrierOf, ColumnFor;
    if a.op.ModifyField? && NewName(a.op.name, a.op.newField) != a.op.name {
      var name := a.op.name;
      assert def.columns[name := ColumnFor(a.op.newField)] - {name} == def.columns - {name};
    }
  }

  /** The column is the field's: required unless nullable; decimals and binaries are stored as text, times as date and
      time. */
  predicate Stores(col: Column, f: Field) {
    && (col.required <==> !f.nullable)
    && (col.typ == CBool <==> f.typ == Bool) && (col.typ == CInt <==> f.typ == Int) && (col.typ == CFloat <==> f.typ == Float)
    && (col.typ == CDateTime <==> f.typ == Time) && (col.typ == CString <==> f.typ in {Text, Decimal, Binary})
    && col.typ in {CBool, CInt, CFloat, CDateTime, CString}
  }

  lemma ColumnStores(f: Field)
    requires CarrierOf(f.typ).Some?
    ensures Stores(ColumnFor(f), f)
  {
  }

  lemma HintAt(json: Json, fields: seq<Field>, i: nat)
    requires AllBuildable(json, fields) && i < |fields|
    ensures |HintsOf(json, fields)| == |fields| && HintsOf(json, fields)[i] == BuildHint(json, fields[i]).value
  {
  }

  lemma NoHints(json: Json, fields: seq<Field>)
    requires AllBuildable(json, fields)
    ensures |HintsOf(json, fields)| == |fields|
  {
  }

  lemma HintEncodes(json: Json, f: Field)
    requires BuildHint(json, f).Some?
    ensures var h := BuildHint(json, f).value;
            h.name == f.name && h.encoding == match f.typ case Decimal => "decimal-string" case Binary => "base64" case _ => ""
  {
  }

  /** A definition that is created or exported has the declared fields in their order, each with its column, under the
      declared name, key and retained parts; an export says how its records get their keys. */
  lemma DefinitionDeclares(json: Json, c: Collection, exported: bool)
    requires DistinctFields(c.fields) && Build(json, c).Some?
    ensures Export(json, c).Some?
    ensures var def := if exported then Export(json, c).value else Build(json, c).value;
            && def.id == c.name && def.primaryKey == c.primaryKey && !def.typedCsv
            && |def.order| == |c.fields| && (forall i :: 0 <= i < |c.fields| ==> def.order[i] == c.fields[i].name)
            && (forall n :: n in def.columns <==> exists i :: 0 <= i < |c.fields| && c.fields[i].name == n)
            && (forall i :: 0 <= i < |c.fields| ==> c.fields[i].name in def.columns && Stores(def.columns[c.fields[i].name], c.fields[i]))
            && def.source.Some? && def.source.value.retained == c.retained
            && |def.source.value.hints| == |c.fields|
            && (forall i :: 0 <= i < |c.fields| ==>
                  var h := def.source.value.hints[i];
                  h.name == c.fields[i].name
                  && h.encoding == match c.fields[i].typ case Decimal => "decimal-string" case Binary => "base64" case _ => "")
            && def.source.value.keyMode ==
               if !exported then "" else if |c.primaryKey| > 0 then "source-primary-key" else "export-ordinal"
  {
    hide BuildHint, ColumnFor, Stores, CarrierOf, HintsOf, ColumnsOf, TypeText, AllBuildable;
    BuiltColumns(json, c.fields);
    BuiltHints(json, c.fields);
  }

  lemma BuiltColumns(json: Json, fields: seq<Field>)
    requires DistinctFields(fields) && AllBuildable(json, fields)
    ensures forall n :: n in ColumnsOf(fields) <==> exists i :: 0 <= i < |fields| && fields[i].name == n
    ensures forall i :: 0 <= i < |fields| ==> fields[i].name in ColumnsOf(fields) && Stores(ColumnsOf(fields)[fields[i].name], fields[i])
  {
    hide BuildHint, ColumnFor, Stores, CarrierOf, ColumnsOf;
    assert forall i :: 0 <= i < |fields| ==> Buildable(json, fields[i]);
    ColumnsFacts(fields);
    forall i | 0 <= i < |fields|
      ensures Stores(ColumnFor(fields[i]), fields[i])
    {
      ColumnStores(fields[i]);
    }
    forall n
      ensures n in ColumnsOf(fields) <==> exists i :: 0 <= i < |fields| && fields[i].name == n
    {
      ColumnNames(fields, n);
    }
  }

  lemma BuiltHints(json: Json, fields: seq<Field>)
    requires AllBuildable(json, fields)
    ensures |HintsOf(json, fields)| == |fields|
    ensures forall i :: 0 <= i < |fields| ==>
              var h := HintsOf(json, fields)[i];
              h.name == fields[i].name && h.encoding == match fields[i].typ case Decimal => "decimal-string" case Binary => "base64" case _ => ""
  {
    hide BuildHint, HintsOf, CarrierOf;
    NoHints(json, fields);
    forall i | 0 <= i < |fields|
      ensures var h := HintsOf(json, fields)[i];
              h.name == fields[i].name && h.encoding == match fields[i].typ case Decimal => "decimal-string" case Binary => "base64" case _ => ""
    {
      HintAt(json, fields, i);
      HintEncodes(json, fields[i]);
    }
  }

  /** It keeps every column under its name or its new one, as it is unless it is modified. */
  lemma AlterKeepsColumns(json: Json, def: Definition, a: Attempt, n: Name)
    requires AlterStep(json, def, a).Some? && n in def.columns && NameAfter(a.op, n).Some?
    ensures var after := AlterStep(json, def, a).value;
            && NameAfter(a.op, n).value in after.columns
            && var col := after.columns[NameAfter(a.op, n).value];
               if a.op.ModifyField? && n == a.op.name then Stores(col, a.op.newField) else col == def.columns[n]
  {
    AlteredColumns(json, def, a);
    if a.op.ModifyField? {
      ColumnStores(a.op.newField);
    }
    hide AlterStep, ColumnFor, CarrierOf, Stores;
  }

  /** Only an added field is new, and it has its column. */
  lemma AlterAddsOnly(json: Json, def: Definition, a: Attempt, m: Name)
    requires AlterStep(json, def, a).Some? && m in AlterStep(json, def, a).value.columns
    ensures || (exists n :: n in def.columns && NameAfter(a.op, n) == Some(m))
            || (a.op.AddField? && m == a.op.field.name && Stores(AlterStep(json, def, a).value.columns[m], a.op.field))
    ensures a.op.AddField? ==> a.op.field.name in AlterStep(json, def, a).value.columns
  {
    AlteredColumns(json, def, a);
    if a.op.AddField? && a.op.field.name !in def.columns {
      ColumnStores(a.op.field);
    }
    hide AlterStep, ColumnFor, CarrierOf, Stores;
    if !(a.op.AddField? && m == a.op.field.name && m !in def.columns) {
      var n := match a.op
               case RenameField(from, to) => if m == to then from else m
               case ModifyField(name, f) => if m == NewName(name, f) then name else m
               case _ => m;
      assert n in def.columns && NameAfter(a.op, n) == Some(m);
    }
  }
}
