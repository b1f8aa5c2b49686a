/** Referential integrity (foreign_keys.go, tx_readwrite.go, computed_columns.go, formula.go) over
    top-level collections: local checks on write and delete keep a global invariant. */
module ForeignKeys {
  import opened Common

  type Name = string
  type Key = string
  type Field = string

  datatype Value =
    | Null
    | Text(text: string)
    | Int(n: int)
    | Float(x: real)
    | Bool(b: bool)
    | List(items: seq<Value>)

  type Record = map<Field, Value>

  /** The keys a foreign-key value holds, and whether a list element was not a scalar. */
  datatype Elements = Elements(keys: seq<Key>, malformed: bool)

  /** What the package takes from libraries: foreign-key elements, formula evaluation, fmt's rendering
      of numbers and booleans, record-key validation, and whether a collection's files can be read. */
  datatype Library = Library(
    elements: Value -> Elements,
    evaluate: (string, Record) -> Option<Value>,
    show: Value -> string,
    validKey: Key -> bool,
    readable: Name -> bool)

  datatype ColumnType = StringType | IntType | FloatType | BoolType | AnyType | OtherType

  datatype Column = Column(typ: ColumnType, foreignKey: Name, formula: string, required: bool)

  datatype Kind = SingleRecord | MapOfRecords | OtherKind

  datatype CollectionDef = CollectionDef(kind: Kind, columns: map<Field, Column>, order: seq<Field>)

  type Definition = map<Name, CollectionDef>

  /** The records on disk, by collection and key. */
  type Store = map<Name, map<Key, Record>>

  function RecordsOf(store: Store, c: Name): map<Key, Record> {
    if c in store then store[c] else map[]
  }

  function FieldOf(r: Record, f: Field): Value {
    if f in r then r[f] else Null
  }

  // ----- Formulas -----

  /** coerceFormulaResult. */
  function Coerce(v: Value, t: ColumnType): Option<Value> {
    match t
    case StringType => if v.Text? then Some(v) else None
    case IntType =>
      if v.Int? then Some(v)
      else if v.Float? && v.x.Floor as real == v.x then Some(Int(v.x.Floor))
      else None
    case FloatType => if v.Float? then Some(v) else if v.Int? then Some(Float(v.n as real)) else None
    case BoolType => if v.Bool? then Some(v) else None
    case AnyType => Some(v)
    case OtherType => None
  }

  /** computedForeignKeyString. */
  function KeyString(lib: Library, v: Value): Key {
    match v
    case Null => ""
    case Text(s) => s
    case _ => lib.show(v)
  }

  /** The value a read shows for a computed column: evaluated, then coerced. */
  function Computed(lib: Library, col: Column, r: Record): Option<Value> {
    var raw := lib.evaluate(col.formula, r);
    if raw.None? then None else Coerce(raw.value, col.typ)
  }

  /** ApplyFormulasToRead succeeds: every formula evaluates and coerces. */
  predicate Bakes(lib: Library, def: CollectionDef, r: Record) {
    forall f :: f in def.columns && def.columns[f].formula != "" ==> Computed(lib, def.columns[f], r).Some?
  }

  predicate IsStoredFk(def: CollectionDef, f: Field) {
    f in def.columns && def.columns[f].foreignKey != "" && def.columns[f].formula == ""
  }

  predicate IsComputedFk(def: CollectionDef, f: Field) {
    f in def.columns && def.columns[f].foreignKey != "" && def.columns[f].formula != ""
  }

  // ----- The checks, as conditions -----

  datatype Lookup = Found | Absent | Failed

  /** foreignKeyTargetExists. */
  function TargetExists(lib: Library, def: Definition, store: Store, parent: Name, key: Key): Lookup
    requires parent in def
  {
    if def[parent].kind == SingleRecord && !lib.validKey(key) then Absent
    else if def[parent].kind == OtherKind || !lib.readable(parent) then Failed
    else if key in RecordsOf(store, parent) then Found
    else Absent
  }

  predicate StoredFkOk(lib: Library, def: Definition, store: Store, col: Column, v: Value) {
    var e := lib.elements(v);
    && !e.malformed
    && (e.keys == [] ==> !col.required)
    && (e.keys != [] ==> col.foreignKey in def)
    && forall i :: 0 <= i < |e.keys| ==> TargetExists(lib, def, store, col.foreignKey, e.keys[i]) == Found
  }

  predicate ComputedFkOk(lib: Library, def: Definition, store: Store, col: Column, r: Record) {
    var raw := lib.evaluate(col.formula, r);
    && raw.Some? && col.foreignKey in def
    && TargetExists(lib, def, store, col.foreignKey, KeyString(lib, raw.value)) == Found
  }

  /** A record that passes every write-time rule. */
  predicate Writable(lib: Library, def: Definition, store: Store, child: CollectionDef, r: Record) {
    && (forall f :: f in child.columns && child.columns[f].formula != "" ==> f !in r)
    && (forall f :: f in child.columns && IsStoredFk(child, f) ==> StoredFkOk(lib, def, store, child.columns[f], FieldOf(r, f)))
    && (forall f :: f in child.columns && IsComputedFk(child, f) ==> ComputedFkOk(lib, def, store, child.columns[f], r))
  }

  /** No stored foreign key of this child record holds the key. */
  predicate StoredFkFree(lib: Library, child: CollectionDef, parent: Name, key: Key, r: Record) {
    forall f :: f in child.columns && IsStoredFk(child, f) && child.columns[f].foreignKey == parent ==>
      key !in lib.elements(FieldOf(r, f)).keys
  }

  /** No computed foreign key of this child record reads as the key. */
  predicate ComputedFkFree(lib: Library, child: CollectionDef, parent: Name, key: Key, r: Record) {
    forall f :: f in child.columns && IsComputedFk(child, f) && child.columns[f].foreignKey == parent ==>
      var shown := Computed(lib, child.columns[f], r);
      shown.Some? && (shown.value == Null || shown.value == Text("") || KeyString(lib, shown.value) != key)
  }

  predicate RefersTo(child: CollectionDef, parent: Name) {
    exists f <- child.columns.Keys :: child.columns[f].foreignKey == parent && parent != ""
  }

  /** The scan of one child collection lets the delete pass. */
  predicate ScanOk(lib: Library, def: Definition, store: Store, c: Name, parent: Name, key: Key)
    requires c in def
  {
    RefersTo(def[c], parent) ==>
      && lib.readable(c)
      && forall k :: k in RecordsOf(store, c) ==>
           var r := RecordsOf(store, c)[k];
           Bakes(lib, def[c], r) && StoredFkFree(lib, def[c], parent, key, r)
           && ComputedFkFree(lib, def[c], parent, key, r)
  }

  predicate Deletable(lib: Library, def: Definition, store: Store, parent: Name, key: Key) {
    forall c :: c in def ==> ScanOk(lib, def, store, c, parent, key)
  }

  // ----- The operations, as steps -----

  datatype Op =
    | Set(c: Name, key: Key, data: Record)
    | Insert(c: Name, key: Key, data: Record)
    | Update(c: Name, key: Key, change: Record -> Option<Record>)
    | Delete(c: Name, key: Key)

  predicate Resolvable(lib: Library, def: Definition, c: Name, key: Key) {
    c in def && (def[c].kind == SingleRecord ==> lib.validKey(key))
  }

  function Put(store: Store, c: Name, key: Key, r: Record): Store {
    store[c := RecordsOf(store, c)[key := r]]
  }

  /** Get's image of a record: its stored fields with the computed ones added. */
  function Baked(lib: Library, def: CollectionDef, r: Record): Record
    requires Bakes(lib, def, r)
  {
    r + map f | f in def.columns && def.columns[f].formula != "" :: Computed(lib, def.columns[f], r).value
  }

  function WithoutComputed(def: CollectionDef, r: Record): Record {
    map f | f in r && !(f in def.columns && def.columns[f].formula != "") :: r[f]
  }

  function Step(lib: Library, def: Definition, store: Store, op: Op): (Store, bool) {
    match op
    case Set(c, key, data) =>
      if !Resolvable(lib, def, c, key) || !Writable(lib, def, store, def[c], data)
         || def[c].kind == OtherKind || (def[c].kind == MapOfRecords && !lib.readable(c)) then (store, false)
      else (Put(store, c, key, data), true)
    case Insert(c, key, data) =>
      if !Resolvable(lib, def, c, key) || !Writable(lib, def, store, def[c], data)
         || def[c].kind == OtherKind || (def[c].kind == MapOfRecords && !lib.readable(c))
         || key in RecordsOf(store, c) then (store, false)
      else (Put(store, c, key, data), true)
    case Update(c, key, change) =>
      if !Resolvable(lib, def, c, key) || def[c].kind == OtherKind || !lib.readable(c)
         || key !in RecordsOf(store, c) || !Bakes(lib, def[c], RecordsOf(store, c)[key]) then (store, false)
      else
        var changed := change(Baked(lib, def[c], RecordsOf(store, c)[key]));
        if changed.None? then (store, false)
        else
          var data := WithoutComputed(def[c], changed.value);
          if !Writable(lib, def, store, def[c], data) then (store, false)
          else (Put(store, c, key, data), true)
    case Delete(c, key) =>
      if c !in def then (store, true)
      else if !Resolvable(lib, def, c, key) || TargetExists(lib, def, store, c, key) == Failed then (store, false)
      else if key !in RecordsOf(store, c) then (store, true)
      else if !Deletable(lib, def, store, c, key) then (store, false)
      else (store[c := RecordsOf(store, c) - {key}], true)
  }

  function RunOps(lib: Library, def: Definition, store: Store, ops: seq<Op>): Store
    decreases |ops|
  {
    if ops == [] then store else RunOps(lib, def, Step(lib, def, store, ops[0]).0, ops[1..])
  }

  // ----- Integrity -----

  predicate Resolves(lib: Library, def: Definition, store: Store, parent: Name, key: Key) {
    && parent in def && def[parent].kind != OtherKind
    && (def[parent].kind == SingleRecord ==> lib.validKey(key))
    && key in RecordsOf(store, parent)
  }

  /** Every foreign key of this record that is not empty names a record. */
  ghost predicate RecordResolves(lib: Library, def: Definition, store: Store, child: CollectionDef, r: Record)
  {
    && (forall f, k :: IsStoredFk(child, f) && k in lib.elements(FieldOf(r, f)).keys ==>
          Resolves(lib, def, store, child.columns[f].foreignKey, k))
    && (forall f :: IsComputedFk(child, f) ==>
          var raw := lib.evaluate(child.columns[f].formula, r);
          raw.Some? && KeyString(lib, raw.value) != "" ==>
            Resolves(lib, def, store, child.columns[f].foreignKey, KeyString(lib, raw.value)))
  }

  ghost predicate Integrity(lib: Library, def: Definition, store: Store)
  {
    forall c, k :: c in def && k in RecordsOf(store, c) ==>
      RecordResolves(lib, def, store, def[c], RecordsOf(store, c)[k])
  }

  /** Coercion leaves the key of a computed foreign key unchanged. */
  predicate CoercionKeepsKey(lib: Library, col: Column, r: Record) {
    var raw := lib.evaluate(col.formula, r);
    raw.Some? && Coerce(raw.value, col.typ).Some? ==>
      KeyString(lib, Coerce(raw.value, col.typ).value) == KeyString(lib, raw.value)
  }

  /** A record accepted for writing resolves. */
  lemma WritableResolves(lib: Library, def: Definition, store: Store, child: CollectionDef, r: Record)
    requires Writable(lib, def, store, child, r)
    ensures RecordResolves(lib, def, store, child, r)
  {
  }

  ghost predicate Grows(store: Store, store': Store)
  {
    forall c, k :: k in RecordsOf(store, c) ==> k in RecordsOf(store', c)
  }

  lemma GrowthKeepsResolving(lib: Library, def: Definition, store: Store, store': Store,
                             child: CollectionDef, r: Record)
    requires RecordResolves(lib, def, store, child, r) && Grows(store, store')
    ensures RecordResolves(lib, def, store', child, r)
  {
    forall parent, k | Resolves(lib, def, store, parent, k)
      ensures Resolves(lib, def, store', parent, k)
    {
    }
  }

  /** Writing a writable record keeps integrity: every other reference stays resolved. */
  lemma PutKeepsIntegrity(lib: Library, def: Definition, store: Store, c: Name, key: Key, r: Record)
    requires Integrity(lib, def, store) && c in def && Writable(lib, def, store, def[c], r)
    ensures Integrity(lib, def, Put(store, c, key, r))
  {
    var store' := Put(store, c, key, r);
    assert Grows(store, store');
    WritableResolves(lib, def, store, def[c], r);
    hide RecordResolves, Writable;
    forall d, k | d in def && k in RecordsOf(store', d)
      ensures RecordResolves(lib, def, store', def[d], RecordsOf(store', d)[k])
    {
      if d == c && k == key {
        assert RecordsOf(store', d)[k] == r;
      } else {
        assert RecordsOf(store', d)[k] == RecordsOf(store, d)[k];
      }
      GrowthKeepsResolving(lib, def, store, store', def[d], RecordsOf(store', d)[k]);
    }
  }

  /** A computed reference to (parent, key) that the delete scan cannot see, because coercion shows
      another key than the one the write check looked up. */
  predicate HiddenReference(lib: Library, child: CollectionDef, parent: Name, key: Key, r: Record) {
    exists f <- child.columns.Keys ::
      && IsComputedFk(child, f) && child.columns[f].foreignKey == parent
      && var raw := lib.evaluate(child.columns[f].formula, r);
         && raw.Some? && KeyString(lib, raw.value) == key != ""
         && !CoercionKeepsKey(lib, child.columns[f], r)
  }

  /** No record left after deleting (parent, key) hides a reference to it. */
  predicate NothingHidden(lib: Library, def: Definition, store: Store, parent: Name, key: Key) {
    forall c, k :: c in def && k in RecordsOf(store, c) && !(c == parent && k == key) ==>
      !HiddenReference(lib, def[c], parent, key, RecordsOf(store, c)[k])
  }

  function Removed(store: Store, c: Name, key: Key): Store {
    store[c := RecordsOf(store, c) - {key}]
  }

  lemma OthersStillResolve(lib: Library, def: Definition, store: Store, parent: Name, key: Key, p: Name, k: Key)
    requires Resolves(lib, def, store, p, k) && !(p == parent && k == key)
    ensures Resolves(lib, def, Removed(store, parent, key), p, k)
  {
  }

  /** A child record that the scan passed and that hides no reference resolves without (parent, key). */
  lemma ScannedStillResolves(lib: Library, def: Definition, store: Store, parent: Name, key: Key,
                             child: CollectionDef, r: Record)
    requires RecordResolves(lib, def, store, child, r)
    requires RefersTo(child, parent) ==>
               StoredFkFree(lib, child, parent, key, r) && ComputedFkFree(lib, child, parent, key, r)
    requires !HiddenReference(lib, child, parent, key, r)
    ensures RecordResolves(lib, def, Removed(store, parent, key), child, r)
  {
    forall f, k | IsStoredFk(child, f) && k in lib.elements(FieldOf(r, f)).keys
      ensures Resolves(lib, def, Removed(store, parent, key), child.columns[f].foreignKey, k)
    {
      OthersStillResolve(lib, def, store, parent, key, child.columns[f].foreignKey, k);
    }
    forall f | IsComputedFk(child, f) && lib.evaluate(child.columns[f].formula, r).Some?
               && KeyString(lib, lib.evaluate(child.columns[f].formula, r).value) != ""
      ensures Resolves(lib, def, Removed(store, parent, key), child.columns[f].foreignKey,
                       KeyString(lib, lib.evaluate(child.columns[f].formula, r).value))
    {
      OthersStillResolve(lib, def, store, parent, key, child.columns[f].foreignKey,
                         KeyString(lib, lib.evaluate(child.columns[f].formula, r).value));
    }
  }

  /** The record that hides a reference no longer resolves once its target is gone. */
  lemma HiddenReferenceBreaks(lib: Library, def: Definition, store: Store, parent: Name, key: Key,
                              child: CollectionDef, r: Record)
    requires HiddenReference(lib, child, parent, key, r)
    ensures !RecordResolves(lib, def, Removed(store, parent, key), child, r)
  {
    var f :| f in child.columns.Keys
             && IsComputedFk(child, f) && child.columns[f].foreignKey == parent
             && var raw := lib.evaluate(child.columns[f].formula, r);
                raw.Some? && KeyString(lib, raw.value) == key != "";
    assert !Resolves(lib, def, Removed(store, parent, key), parent, key);
  }

  /** A delete that passes its scans keeps integrity exactly when no remaining record hides a computed
      reference behind a coercion. */
  lemma DeleteKeepsIntegrityIff(lib: Library, def: Definition, store: Store, parent: Name, key: Key)
    requires Integrity(lib, def, store) && Deletable(lib, def, store, parent, key) && parent in def
    ensures Integrity(lib, def, Removed(store, parent, key)) <==>
            NothingHidden(lib, def, store, parent, key)
  {
    var store' := Removed(store, parent, key);
    hide RecordResolves, HiddenReference, StoredFkFree, ComputedFkFree, RefersTo, Bakes;
    if NothingHidden(lib, def, store, parent, key) {
      forall c, k | c in def && k in RecordsOf(store', c)
        ensures RecordResolves(lib, def, store', def[c], RecordsOf(store', c)[k])
      {
        assert k in RecordsOf(store, c) && RecordsOf(store', c)[k] == RecordsOf(store, c)[k];
        assert ScanOk(lib, def, store, c, parent, key);
        ScannedStillResolves(lib, def, store, parent, key, def[c], RecordsOf(store, c)[k]);
      }
    }
    if !NothingHidden(lib, def, store, parent, key) {
      var c, k :| c in def && k in RecordsOf(store, c) && !(c == parent && k == key)
                  && HiddenReference(lib, def[c], parent, key, RecordsOf(store, c)[k]);
      HiddenReferenceBreaks(lib, def, store, parent, key, def[c], RecordsOf(store, c)[k]);
      assert k in RecordsOf(store', c);
    }
  }

  // ----- Whole runs -----

  /** The one way an operation can break integrity: a delete that takes effect while a remaining record
      hides a reference to its target. */
  predicate Uncovers(lib: Library, def: Definition, store: Store, op: Op) {
    op.Delete? && op.c in def && op.key in RecordsOf(store, op.c)
    && Step(lib, def, store, op).1 && !NothingHidden(lib, def, store, op.c, op.key)
  }

  lemma WriteKeepsIntegrity(lib: Library, def: Definition, store: Store, op: Op)
    requires Integrity(lib, def, store) && !op.Delete?
    ensures Integrity(lib, def, Step(lib, def, store, op).0)
  {
    hide Integrity, Writable;
    match op {
      case Set(c, key, data) =>
        if c in def && Writable(lib, def, store, def[c], data) {
          PutKeepsIntegrity(lib, def, store, c, key, data);
        }
      case Insert(c, key, data) =>
        if c in def && Writable(lib, def, store, def[c], data) {
          PutKeepsIntegrity(lib, def, store, c, key, data);
        }
      case Update(c, key, change) =>
        if c in def && key in RecordsOf(store, c) && Bakes(lib, def[c], RecordsOf(store, c)[key]) {
          var changed := change(Baked(lib, def[c], RecordsOf(store, c)[key]));
          if changed.Some? && Writable(lib, def, store, def[c], WithoutComputed(def[c], changed.value)) {
            PutKeepsIntegrity(lib, def, store, c, key, WithoutComputed(def[c], changed.value));
          }
        }
    }
  }

  /** An operation keeps integrity exactly when it uncovers no hidden reference. */
  lemma StepKeepsIntegrityIff(lib: Library, def: Definition, store: Store, op: Op)
    requires Integrity(lib, def, store)
    ensures Integrity(lib, def, Step(lib, def, store, op).0) <==> !Uncovers(lib, def, store, op)
  {
    if op.Delete? {
      hide Integrity, Deletable, NothingHidden;
      if op.c in def && op.key in RecordsOf(store, op.c) && Step(lib, def, store, op).1 {
        DeleteKeepsIntegrityIff(lib, def, store, op.c, op.key);
      }
    } else {
      WriteKeepsIntegrity(lib, def, store, op);
    }
  }

  /** Every state of the run has integrity. */
  ghost predicate AlwaysIntact(lib: Library, def: Definition, store: Store, ops: seq<Op>)
    decreases |ops|
  {
    Integrity(lib, def, store) && (ops != [] ==> AlwaysIntact(lib, def, Step(lib, def, store, ops[0]).0, ops[1..]))
  }

  ghost predicate NeverUncovers(lib: Library, def: Definition, store: Store, ops: seq<Op>)
    decreases |ops|
  {
    ops != [] ==>
      !Uncovers(lib, def, store, ops[0]) && NeverUncovers(lib, def, Step(lib, def, store, ops[0]).0, ops[1..])
  }

  /** If every non-empty foreign key resolves at the start, it does so throughout a sequence of Set, Insert,
      Update and Delete, failed ones included, exactly when no delete uncovers a reference that a coercion
      hid; list-valued and computed keys of every type too. */
  lemma {:induction false} OperationsKeepIntegrityIff(lib: Library, def: Definition, store: Store, ops: seq<Op>)
    requires Integrity(lib, def, store)
    ensures AlwaysIntact(lib, def, store, ops) <==> NeverUncovers(lib, def, store, ops)
    decreases |ops|
  {
    if ops != [] {
      hide Integrity, Step, Uncovers;
      StepKeepsIntegrityIff(lib, def, store, ops[0]);
      if !Uncovers(lib, def, store, ops[0]) {
        OperationsKeepIntegrityIff(lib, def, Step(lib, def, store, ops[0]).0, ops[1..]);
      }
    }
  }

  /** Whatever a computed foreign key's formula yields, coercion leaves its key unchanged. */
  ghost predicate KeysSurviveCoercion(lib: Library, def: Definition)
  {
    forall c, f, r :: c in def && IsComputedFk(def[c], f) ==> CoercionKeepsKey(lib, def[c].columns[f], r)
  }

  /** The result already has the column's type. */
  predicate ResultMatches(v: Value, t: ColumnType) {
    match t
    case IntType => !v.Float?
    case FloatType => !v.Int?
    case _ => true
  }

  /** Formulas that never leave a numeric conversion to the column satisfy that, whatever fmt prints:
      string, bool and untyped columns always, int columns with integer and float columns with float
      results. */
  lemma UncoercedTypesSurvive(lib: Library, def: Definition)
    requires forall c, f, r :: c in def && IsComputedFk(def[c], f) && lib.evaluate(def[c].columns[f].formula, r).Some? ==>
               ResultMatches(lib.evaluate(def[c].columns[f].formula, r).value, def[c].columns[f].typ)
    ensures KeysSurviveCoercion(lib, def)
  {
    forall c, f, r: Record | c in def && IsComputedFk(def[c], f)
      ensures CoercionKeepsKey(lib, def[c].columns[f], r)
    {
      var raw := lib.evaluate(def[c].columns[f].formula, r);
      if raw.Some? {
        assert ResultMatches(raw.value, def[c].columns[f].typ);
      }
    }
  }

  lemma NothingIsHidden(lib: Library, def: Definition, store: Store, parent: Name, key: Key)
    requires KeysSurviveCoercion(lib, def)
    ensures NothingHidden(lib, def, store, parent, key)
  {
  }

  lemma StepKeepsIntegrity(lib: Library, def: Definition, store: Store, op: Op)
    requires Integrity(lib, def, store) && KeysSurviveCoercion(lib, def)
    ensures Integrity(lib, def, Step(lib, def, store, op).0)
  {
    StepKeepsIntegrityIff(lib, def, store, op);
    if op.Delete? {
      NothingIsHidden(lib, def, store, op.c, op.key);
    }
  }

  /** Where coercion changes no key, every sequence of operations keeps integrity. */
  lemma {:induction false} OperationsKeepIntegrity(lib: Library, def: Definition, store: Store, ops: seq<Op>)
    requires Integrity(lib, def, store) && KeysSurviveCoercion(lib, def)
    ensures Integrity(lib, def, RunOps(lib, def, store, ops))
    decreases |ops|
  {
    if ops != [] {
      StepKeepsIntegrity(lib, def, store, ops[0]);
      hide Integrity, KeysSurviveCoercion, Step;
      OperationsKeepIntegrity(lib, def, Step(lib, def, store, ops[0]).0, ops[1..]);
    }
  }

  const EXAMPLE_LIBRARY: Library := Library(
    v => Elements([], false),
    (formula, r) => Some(Int(1000000)),
    v => if v == Int(1000000) then "1000000" else "1e+06",
    key => true,
    c => true)

  const CITIES := CollectionDef(MapOfRecords, map[], [])

  const CITY := Column(FloatType, "cities", "population", false)

  const PEOPLE := CollectionDef(MapOfRecords, map["city" := CITY], ["city"])

  lemma ExampleReferences(r: Record)
    ensures HiddenReference(EXAMPLE_LIBRARY, PEOPLE, "cities", "1000000", r)
    ensures StoredFkFree(EXAMPLE_LIBRARY, PEOPLE, "cities", "1000000", r)
    ensures ComputedFkFree(EXAMPLE_LIBRARY, PEOPLE, "cities", "1000000", r)
    ensures Bakes(EXAMPLE_LIBRARY, PEOPLE, r)
  {
    assert Computed(EXAMPLE_LIBRARY, CITY, r) == Some(Float(1000000 as real));
    assert "city" in PEOPLE.columns.Keys;
  }

  lemma ExampleResolves(def: Definition, store: Store)
    requires "cities" in def && def["cities"] == CITIES && "1000000" in RecordsOf(store, "cities")
    ensures RecordResolves(EXAMPLE_LIBRARY, def, store, PEOPLE, map[])
    ensures RecordResolves(EXAMPLE_LIBRARY, def, store, CITIES, map[])
  {
  }

  /** The premise on coercion is needed. A float column whose formula yields the integer 1000000 is
      checked on write against key "1000000" but read back as "1e+06": deleting that parent succeeds
      and leaves a dangling reference. */
  lemma CoercedKeyDangles() returns (lib: Library, def: Definition, store: Store)
    ensures Integrity(lib, def, store)
    ensures var (store1, ok) := Step(lib, def, store, Delete("cities", "1000000"));
            ok && !Integrity(lib, def, store1)
  {
    lib := EXAMPLE_LIBRARY;
    def := map["cities" := CITIES, "people" := PEOPLE];
    store := map["cities" := map["1000000" := map[]], "people" := map["ann" := map[]]];
    hide RecordResolves, HiddenReference, StoredFkFree, ComputedFkFree, Bakes;
    ExampleReferences(map[]);
    ExampleResolves(def, store);
    assert forall c :: c in def ==> c == "cities" || c == "people";
    assert ScanOk(lib, def, store, "cities", "cities", "1000000");
    assert ScanOk(lib, def, store, "people", "cities", "1000000");
    hide ScanOk;
    assert Deletable(lib, def, store, "cities", "1000000");
    DeleteKeepsIntegrityIff(lib, def, store, "cities", "1000000");
    assert "ann" in RecordsOf(store, "people");
  }
}
