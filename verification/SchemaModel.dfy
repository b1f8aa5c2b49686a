/** Collection definitions (schema_modifier.go, schema_reader.go): how they are built, altered and
    described, as functions on values. */
module SchemaModel {
  import opened Common

  type Name = string

  /** dbschema.Type. */
  datatype Type = Bool | Int | Float | Decimal | Text | Binary | Time | Null

  /** ingitdb column types. */
  datatype Carrier =
    | CString | CInt | CFloat | CBool | CDate | CTime | CDateTime | CAny | CL10N
    | CMap(of: string)
    | COther(text: string)

  function CarrierOf(t: Type): Option<Carrier> {
    match t
    case Bool => Some(CBool)
    case Int => Some(CInt)
    case Float => Some(CFloat)
    case Decimal => Some(CString)
    case Text => Some(CString)
    case Binary => Some(CString)
    case Time => Some(CDateTime)
    case Null => None
  }

  function TypeOfCarrier(c: Carrier): Option<Type> {
    match c
    case CString => Some(Text)
    case CInt => Some(Int)
    case CFloat => Some(Float)
    case CBool => Some(Bool)
    case CDate => Some(Time)
    case CTime => Some(Time)
    case CDateTime => Some(Time)
    case CAny => Some(Text)
    case CL10N => Some(Text)
    case CMap(_) => Some(Text)
    case COther(_) => None
  }

  function TypeText(t: Type): string {
    match t
    case Bool => "bool"
    case Int => "int"
    case Float => "float"
    case Decimal => "decimal"
    case Text => "string"
    case Binary => "bytes"
    case Time => "time"
    case Null => "null"
  }

  /** sourceFieldType. */
  function SourceType(text: string): Option<Type> {
    if text == "bool" then Some(Bool)
    else if text == "int" then Some(Int)
    else if text == "float" then Some(Float)
    else if text == "string" then Some(Text)
    else if text == "bytes" then Some(Binary)
    else if text == "time" then Some(Time)
    else if text == "decimal" then Some(Decimal)
    else None
  }

  lemma SourceTypeReadsText(t: Type)
    ensures SourceType(TypeText(t)) == if t == Null then None else Some(t)
  {
  }

  /** A default value; a literal is known by its Go type and its value's text. */
  datatype Default = NoDefault | CurrentTimestamp | Literal(kind: string, value: string)

  /** dbschema.FieldDef. */
  datatype Field = Field(
    name: Name, typ: Type, nullable: bool, autoIncrement: bool, length: int,
    default_: Default, precision: Option<(int, int)>)

  datatype Column = Column(typ: Carrier, required: bool)

  /** ingitdb.SourceFieldDef, the hint kept about a field. */
  datatype Hint = Hint(
    name: Name, typ: string, nullable: bool, autoIncrement: bool, length: int,
    defaultKind: string, defaultType: string, defaultJson: string, precision: int, scale: int, encoding: string)

  /** SourceSchemaDef; retained stands for its indexes, foreign keys, source definition and rights. */
  datatype Source = Source(keyMode: string, hints: seq<Hint>, retained: string)

  datatype Definition = Definition(
    id: Name, columns: map<Name, Column>, order: seq<Name>, primaryKey: seq<Name>,
    source: Option<Source>, typedCsv: bool)

  /** What a caller declares, and what describing gives back. */
  datatype Collection = Collection(name: Name, fields: seq<Field>, primaryKey: seq<Name>, retained: string)

  /** JSON of default literals: marshal, and decode guided by the Go type. */
  datatype Json = Json(marshal: (string, string) -> Option<string>, decode: (string, string) -> Option<string>)

  predicate LiteralKind(kind: string) {
    kind in ["<nil>", "int", "int64", "float64", "string", "bool", "[]uint8"]
  }

  ghost predicate Lawful(json: Json)
  {
    forall kind, v :: LiteralKind(kind) && json.marshal(kind, v).Some? ==>
      json.decode(kind, json.marshal(kind, v).value) == Some(v)
  }

  const KEY_FIELD: Name := "$key"

  // ----- Building -----

  function BuildHint(json: Json, f: Field): Option<Hint> {
    var base := Hint(f.name, TypeText(f.typ), f.nullable, f.autoIncrement, f.length, "", "", "",
                     if f.precision.Some? then f.precision.value.0 else 0,
                     if f.precision.Some? then f.precision.value.1 else 0,
                     if f.typ == Decimal then "decimal-string" else if f.typ == Binary then "base64" else "");
    match f.default_
    case NoDefault => Some(base)
    case CurrentTimestamp => Some(base.(defaultKind := "current-timestamp"))
    case Literal(kind, v) =>
      if !LiteralKind(kind) then None
      else
        var text := json.marshal(kind, v);
        if text.None? then None
        else Some(base.(defaultKind := "literal", defaultJson := text.value, defaultType := kind))
  }

  /** A field that can be represented. */
  predicate Buildable(json: Json, f: Field) {
    CarrierOf(f.typ).Some? && BuildHint(json, f).Some?
  }

  function ColumnFor(f: Field): Column
    requires CarrierOf(f.typ).Some?
  {
    Column(CarrierOf(f.typ).value, !f.nullable)
  }

  predicate AllBuildable(json: Json, fields: seq<Field>) {
    forall i :: 0 <= i < |fields| ==> Buildable(json, fields[i])
  }

  function NamesOf(fields: seq<Field>): seq<Name> {
    seq(|fields|, i requires 0 <= i < |fields| => fields[i].name)
  }

  function HintsOf(json: Json, fields: seq<Field>): seq<Hint>
    requires AllBuildable(json, fields)
  {
    seq(|fields|, i requires 0 <= i < |fields| => BuildHint(json, fields[i]).value)
  }

  function ColumnsOf(fields: seq<Field>): map<Name, Column>
    requires forall i :: 0 <= i < |fields| ==> CarrierOf(fields[i].typ).Some?
  {
    if fields == [] then map[]
    else
      var last := fields[|fields| - 1];
      ColumnsOf(fields[..|fields| - 1])[last.name := ColumnFor(last)]
  }

  /** buildIngitdbCollectionDef. */
  function Build(json: Json, c: Collection): Option<Definition> {
    if !AllBuildable(json, c.fields) then None
    else
      Some(Definition(
        c.name, ColumnsOf(c.fields), NamesOf(c.fields), c.primaryKey,
        Some(Source("", HintsOf(json, c.fields), c.retained)), false))
  }

  /** ExportCollectionDefinition. */
  function Export(json: Json, c: Collection): Option<Definition> {
    var def := Build(json, c);
    if def.None? then None
    else
      var mode := if c.primaryKey == [] then "export-ordinal" else "source-primary-key";
      Some(def.value.(source := Some(def.value.source.value.(keyMode := mode))))
  }

  // ----- Altering -----

  datatype Op =
    | AddField(field: Field, ifNotExists: bool)
    | DropField(name: Name, ifExists: bool)
    | ModifyField(name: Name, newField: Field)
    | RenameField(from: Name, to: Name)
    | AddIndex
    | DropIndex

  /** An operation with what its file effects answer. */
  datatype Attempt = Attempt(op: Op, rewriteOk: bool, flushOk: bool)

  function Without(order: seq<Name>, name: Name): seq<Name> {
    if order == [] then []
    else Without(order[..|order| - 1], name) + (if order[|order| - 1] == name then [] else [order[|order| - 1]])
  }

  function Renamed(order: seq<Name>, from: Name, to: Name): seq<Name> {
    seq(|order|, i requires 0 <= i < |order| => if order[i] == from then to else order[i])
  }

  /** The first hint with a name. */
  function HintIndex(hints: seq<Hint>, name: Name): (i: nat)
    ensures i <= |hints| && (i < |hints| ==> hints[i].name == name)
    ensures forall j :: 0 <= j < i ==> hints[j].name != name
  {
    if hints == [] then 0
    else if hints[0].name == name then 0
    else 1 + HintIndex(hints[1..], name)
  }

  /** Hints are kept up to date for collections that were created, not exported. */
  predicate KeepsHints(def: Definition) {
    def.source.Some? && def.source.value.keyMode == ""
  }

  function WithHints(def: Definition, hints: seq<Hint>): Definition
    requires def.source.Some?
  {
    def.(source := Some(def.source.value.(hints := hints)))
  }

  function NewName(name: Name, f: Field): Name {
    if f.name == "" then name else f.name
  }

  function RenameColumn(def: Definition, from: Name, to: Name): Definition
    requires from in def.columns
  {
    def.(columns := (def.columns - {from})[to := def.columns[from]], order := Renamed(def.order, from, to))
  }

  /** ApplyModifyField, and whether it refreshed a hint. */
  function Modify(json: Json, def: Definition, name: Name, f: Field, rewriteOk: bool): Option<(Definition, bool)> {
    if name !in def.columns || CarrierOf(f.typ).None? then None
    else
      var newField := f.(name := NewName(name, f));
      if KeepsHints(def) && BuildHint(json, newField).None? then None
      else
        var at := if KeepsHints(def) then HintIndex(def.source.value.hints, name) else 0;
        var found := KeepsHints(def) && at < |def.source.value.hints|;
        var hinted := if found then WithHints(def, def.source.value.hints[at := BuildHint(json, newField).value]) else def;
        var typed := hinted.(columns := def.columns[name := ColumnFor(f)]);
        if newField.name == "" || newField.name == name then Some((typed, found))
        else if newField.name in def.columns || !rewriteOk then None
        else Some((RenameColumn(typed, name, newField.name), found))
  }

  /** One operation on the definition, and whether it refreshed a hint; None when it fails. */
  function ApplyOp(json: Json, def: Definition, a: Attempt): Option<(Definition, bool)> {
    match a.op
    case AddField(f, ifNotExists) =>
      if f.name in def.columns then (if ifNotExists then Some((def, false)) else None)
      else if CarrierOf(f.typ).None? then None
      else Some((def.(columns := def.columns[f.name := ColumnFor(f)], order := def.order + [f.name]), false))
    case DropField(name, ifExists) =>
      if name !in def.columns then (if ifExists then Some((def, false)) else None)
      else if !a.rewriteOk then None
      else Some((def.(columns := def.columns - {name}, order := Without(def.order, name)), false))
    case ModifyField(name, f) => Modify(json, def, name, f, a.rewriteOk)
    case RenameField(from, to) =>
      if from !in def.columns || to in def.columns || !a.rewriteOk then None
      else Some((RenameColumn(def, from, to), false))
    case AddIndex => Some((def, false))
    case DropIndex => Some((def, false))
  }

  /** One turn of the AlterCollection loop: hints that were not refreshed are discarded. */
  function AlterStep(json: Json, def: Definition, a: Attempt): Option<Definition> {
    var r := ApplyOp(json, def, a);
    if r.None? || !a.flushOk then None
    else Some(if KeepsHints(r.value.0) && !r.value.1 then WithHints(r.value.0, []) else r.value.0)
  }

  /** The definition after a sequence of operations that all succeed. */
  function Altered(json: Json, def: Definition, attempts: seq<Attempt>): Option<Definition> {
    if attempts == [] then Some(def)
    else
      var before := Altered(json, def, attempts[..|attempts| - 1]);
      if before.None? then None else AlterStep(json, before.value, attempts[|attempts| - 1])
  }

  // ----- Describing -----

  /** Columns that are not fields: the synthesized key, and the transport key of imported typed CSV. */
  predicate Hidden(def: Definition, name: Name) {
    name == KEY_FIELD || (name == "$ID" && def.typedCsv && def.source.Some? && def.source.value.keyMode != "")
  }

  function Visible(def: Definition, order: seq<Name>): seq<Name> {
    if order == [] then []
    else
      var last := order[|order| - 1];
      Visible(def, order[..|order| - 1]) + (if Hidden(def, last) then [] else [last])
  }

  predicate Describable(def: Definition, name: Name) {
    name in def.columns && TypeOfCarrier(def.columns[name].typ).Some?
  }

  function PlainField(def: Definition, name: Name): Field
    requires Describable(def, name)
  {
    Field(name, TypeOfCarrier(def.columns[name].typ).value, !def.columns[name].required, false, 0, NoDefault, None)
  }

  predicate HintReadable(json: Json, h: Hint) {
    && SourceType(h.typ).Some?
    && (h.defaultKind == "" || h.defaultKind == "current-timestamp"
        || (h.defaultKind == "literal" && LiteralKind(h.defaultType) && json.decode(h.defaultType, h.defaultJson).Some?))
  }

  /** A field completed from its hint. */
  function Hinted(json: Json, f: Field, h: Hint): Field
    requires HintReadable(json, h)
  {
    f.(typ := SourceType(h.typ).value, nullable := h.nullable, autoIncrement := h.autoIncrement, length := h.length,
       default_ := if h.defaultKind == "" then f.default_
                   else if h.defaultKind == "current-timestamp" then CurrentTimestamp
                   else Literal(h.defaultType, json.decode(h.defaultType, h.defaultJson).value),
       precision := if h.precision > 0 then Some((h.precision, h.scale)) else f.precision)
  }

  predicate NamesMatch(hints: seq<Hint>, names: seq<Name>) {
    |hints| == |names| && forall i :: 0 <= i < |hints| ==> hints[i].name == names[i]
  }

  function KeyOf(def: Definition): seq<Name> {
    if def.source.Some? && def.source.value.keyMode == "export-ordinal" then []
    else if def.primaryKey == [] then [KEY_FIELD]
    else def.primaryKey
  }

  /** Hints that are used: always for an export, else only when they name the fields in order. */
  predicate UsesHints(def: Definition, names: seq<Name>) {
    def.source.Some? && (def.source.value.keyMode != "" || NamesMatch(def.source.value.hints, names))
  }

  predicate Distinct(names: seq<Name>) {
    forall i, j :: 0 <= i < j < |names| ==> names[i] != names[j]
  }

  /** describeCollectionDefinition succeeds. */
  predicate Describes(json: Json, def: Definition, order: seq<Name>) {
    var names := Visible(def, order);
    && (forall i :: 0 <= i < |names| ==> Describable(def, names[i]))
    && (UsesHints(def, names) ==>
        && NamesMatch(def.source.value.hints, names) && Distinct(names)
        && forall i :: 0 <= i < |names| ==> HintReadable(json, def.source.value.hints[i]))
  }

  /** What describing gives, field by field. */
  function Description(json: Json, def: Definition, order: seq<Name>, name: Name): Collection
    requires Describes(json, def, order)
  {
    var names := Visible(def, order);
    Collection(
      name,
      seq(|names|, i requires 0 <= i < |names| =>
        if UsesHints(def, names) then Hinted(json, PlainField(def, names[i]), def.source.value.hints[i])
        else PlainField(def, names[i])),
      KeyOf(def),
      if def.source.Some? then def.source.value.retained else "")
  }
}
