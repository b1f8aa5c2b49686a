/** What Set, Insert, Update and Delete do to the stored records, and exactly when they succeed
    (tx_readwrite.go, foreign_keys.go, computed_columns.go, formula.go). */
module RecordEffects {
  import opened Common
  import opened ForeignKeys

  function RecordAt(store: Store, c: Name, key: Key): Option<Record> {
    if c in store && key in store[c] then Some(store[c][key]) else None
  }

  /** Every record but one is as it was. */
  ghost predicate OnlyChanged(store: Store, after: Store, c: Name, key: Key)
  {
    forall d, k :: d != c || k != key ==> RecordAt(after, d, k) == RecordAt(store, d, k)
  }

  // ----- Values -----

  predicate HasType(v: Value, t: ColumnType) {
    match t
    case StringType => v.Text?
    case IntType => v.Int?
    case FloatType => v.Float?
    case BoolType => v.Bool?
    case AnyType => true
    case OtherType => false
  }

  function Magnitude(v: Value): Option<real> {
    match v
    case Int(n) => Some(n as real)
    case Float(x) => Some(x)
    case _ => None
  }

  /** A coercion gives a value of the column's type that is the value itself or, in a numeric column, the same
      number; it fails when there is none. */
  lemma CoerceIff(v: Value, t: ColumnType, w: Value)
    ensures Coerce(v, t) == Some(w) <==>
            && HasType(w, t)
            && (w == v || ((t == IntType || t == FloatType) && Magnitude(v).Some? && Magnitude(w) == Magnitude(v)))
  {
  }

  // ----- What is accepted -----

  /** The text of a computed value, as a key. */
  function TextOf(lib: Library, v: Value): Key {
    if v == Null then "" else if v.Text? then v.text else lib.show(v)
  }

  /** The key names a record that can be found. */
  predicate NamesRecord(lib: Library, def: Definition, store: Store, parent: Name, key: Key) {
    && parent in def && lib.readable(parent) && RecordAt(store, parent, key).Some?
    && (def[parent].kind == MapOfRecords || (def[parent].kind == SingleRecord && lib.validKey(key)))
  }

  /** The rules of one column: computed ones are not stored and, as references, name a record; a stored
      reference is a list of keys of records, and not an empty one where it is required. */
  predicate FieldAccepted(lib: Library, def: Definition, store: Store, col: Column, f: Field, r: Record) {
    if col.formula != "" then
      && f !in r
      && (col.foreignKey != "" ==>
            && lib.evaluate(col.formula, r).Some?
            && NamesRecord(lib, def, store, col.foreignKey, TextOf(lib, lib.evaluate(col.formula, r).value)))
    else
      col.foreignKey != "" ==>
        var e := lib.elements(if f in r then r[f] else Null);
        && !e.malformed && (col.required ==> e.keys != [])
        && forall k <- e.keys :: NamesRecord(lib, def, store, col.foreignKey, k)
  }

  /** The record may be written there. */
  predicate Accepted(lib: Library, def: Definition, store: Store, c: Name, key: Key, r: Record) {
    && c in def
    && ((def[c].kind == SingleRecord && lib.validKey(key)) || (def[c].kind == MapOfRecords && lib.readable(c)))
    && forall f <- def[c].columns.Keys :: FieldAccepted(lib, def, store, def[c].columns[f], f, r)
  }

  lemma TargetFoundIff(lib: Library, def: Definition, store: Store, parent: Name, key: Key)
    requires parent in def
    ensures TargetExists(lib, def, store, parent, key) == Found <==> NamesRecord(lib, def, store, parent, key)
  {
  }

  lemma StoredFkOkIff(lib: Library, def: Definition, store: Store, col: Column, f: Field, r: Record)
    requires col.formula == "" && col.foreignKey != ""
    ensures StoredFkOk(lib, def, store, col, FieldOf(r, f)) <==> FieldAccepted(lib, def, store, col, f, r)
  {
    var e := lib.elements(FieldOf(r, f));
    hide TargetExists, NamesRecord;
    forall i | 0 <= i < |e.keys| && col.foreignKey in def
      ensures TargetExists(lib, def, store, col.foreignKey, e.keys[i]) == Found <==> NamesRecord(lib, def, store, col.foreignKey, e.keys[i])
    {
      TargetFoundIff(lib, def, store, col.foreignKey, e.keys[i]);
    }
    if e.keys != [] && col.foreignKey !in def {
      NotDefined(lib, def, store, col.foreignKey, e.keys[0]);
    }
  }

  lemma NotDefined(lib: Library, def: Definition, store: Store, parent: Name, key: Key)
    requires parent !in def
    ensures !NamesRecord(lib, def, store, parent, key)
  {
  }

  /** The write checks accept exactly the records that keep the rules of every column. */
  lemma WritableIff(lib: Library, def: Definition, store: Store, child: CollectionDef, r: Record)
    ensures Writable(lib, def, store, child, r) <==>
            forall f <- child.columns.Keys :: FieldAccepted(lib, def, store, child.columns[f], f, r)
  {
    hide StoredFkOk, TargetExists, NamesRecord, KeyString, TextOf;
    forall f | f in child.columns
      ensures FieldAccepted(lib, def, store, child.columns[f], f, r) <==>
              && (child.columns[f].formula != "" ==> f !in r)
              && (IsStoredFk(child, f) ==> StoredFkOk(lib, def, store, child.columns[f], FieldOf(r, f)))
              && (IsComputedFk(child, f) ==> ComputedFkOk(lib, def, store, child.columns[f], r))
    {
      var col := child.columns[f];
      if IsStoredFk(child, f) {
        StoredFkOkIff(lib, def, store, col, f, r);
      } else if IsComputedFk(child, f) && lib.evaluate(col.formula, r).Some? {
        var k := TextOf(lib, lib.evaluate(col.formula, r).value);
        TextIsKey(lib, lib.evaluate(col.formula, r).value);
        NotDefinedOrFound(lib, def, store, col.foreignKey, k);
      }
    }
  }

  lemma TextIsKey(lib: Library, v: Value)
    ensures KeyString(lib, v) == TextOf(lib, v)
  {
  }

  lemma NotDefinedOrFound(lib: Library, def: Definition, store: Store, parent: Name, key: Key)
    ensures NamesRecord(lib, def, store, parent, key) <==>
            parent in def && TargetExists(lib, def, store, parent, key) == Found
  {
  }

  // ----- What an update reads and writes -----

  /** What a reader is shown of r: its stored fields, and every computed one, evaluated and coerced. */
  ghost predicate IsImage(lib: Library, child: CollectionDef, r: Record, shown: Record)
  {
    && (forall f :: f in shown <==> f in r || (f in child.columns && child.columns[f].formula != ""))
    && (forall f :: f in shown ==>
          if f in child.columns && child.columns[f].formula != "" then
            var raw := lib.evaluate(child.columns[f].formula, r);
            raw.Some? && Coerce(raw.value, child.columns[f].typ) == Some(shown[f])
          else shown[f] == r[f])
  }

  /** data is the record without its computed fields. */
  ghost predicate IsStripped(child: CollectionDef, r: Record, data: Record)
  {
    && (forall f :: f in data <==> f in r && !(f in child.columns && child.columns[f].formula != ""))
    && (forall f :: f in data ==> data[f] == r[f])
  }

  /** data is what changing the stored record before leaves to be written. */
  ghost predicate IsChanged(lib: Library, child: CollectionDef, before: Record, change: Record -> Option<Record>, data: Record)
  {
    exists shown: Record :: IsImage(lib, child, before, shown) && change(shown).Some? && IsStripped(child, change(shown).value, data)
  }

  lemma ImageBakes(lib: Library, child: CollectionDef, r: Record, shown: Record)
    requires IsImage(lib, child, r, shown)
    ensures Bakes(lib, child, r)
  {
    hide Coerce;
    forall f | f in child.columns && child.columns[f].formula != ""
      ensures Computed(lib, child.columns[f], r) == Some(shown[f])
    {
      assert f in shown;
    }
  }

  lemma BakedAt(lib: Library, child: CollectionDef, r: Record, f: Field)
    requires Bakes(lib, child, r)
    ensures var computed := f in child.columns && child.columns[f].formula != "";
            && (f in Baked(lib, child, r) <==> f in r || computed)
            && (f in Baked(lib, child, r) ==>
                  Baked(lib, child, r)[f] == if computed then Computed(lib, child.columns[f], r).value else r[f])
  {
    hide Computed;
  }

  lemma ImageIff(lib: Library, child: CollectionDef, r: Record, shown: Record)
    ensures IsImage(lib, child, r, shown) <==> Bakes(lib, child, r) && shown == Baked(lib, child, r)
  {
    if IsImage(lib, child, r, shown) {
      ImageBakes(lib, child, r, shown);
    }
    if Bakes(lib, child, r) {
      forall f: Field
        ensures var computed := f in child.columns && child.columns[f].formula != "";
                && (f in Baked(lib, child, r) <==> f in r || computed)
                && (f in Baked(lib, child, r) ==>
                      Baked(lib, child, r)[f] == if computed then Computed(lib, child.columns[f], r).value else r[f])
      {
        BakedAt(lib, child, r, f);
      }
      hide Baked, Coerce;
      if IsImage(lib, child, r, shown) {
        assert shown.Keys == Baked(lib, child, r).Keys;
      }
    }
  }

  lemma StrippedIff(child: CollectionDef, r: Record, data: Record)
    ensures IsStripped(child, r, data) <==> data == WithoutComputed(child, r)
  {
    if IsStripped(child, r, data) {
      assert data.Keys == WithoutComputed(child, r).Keys;
    }
  }

  lemma ChangedIff(lib: Library, child: CollectionDef, before: Record, change: Record -> Option<Record>, data: Record)
    ensures IsChanged(lib, child, before, change, data) <==>
            && Bakes(lib, child, before) && change(Baked(lib, child, before)).Some?
            && data == WithoutComputed(child, change(Baked(lib, child, before)).value)
  {
    hide IsImage, IsStripped;
    if IsChanged(lib, child, before, change, data) {
      var shown: Record :| IsImage(lib, child, before, shown) && change(shown).Some? && IsStripped(child, change(shown).value, data);
      ImageIff(lib, child, before, shown);
      StrippedIff(child, change(shown).value, data);
    }
    if Bakes(lib, child, before) && change(Baked(lib, child, before)).Some? {
      ImageIff(lib, child, before, Baked(lib, child, before));
      StrippedIff(child, change(Baked(lib, child, before)).value, data);
    }
  }

  // ----- Deleting -----

  /** A column refers to the key in this record, as far as a reader is shown. */
  predicate Refers(lib: Library, col: Column, f: Field, r: Record, parent: Name, key: Key) {
    && col.foreignKey == parent
    && if col.formula == "" then key in lib.elements(if f in r then r[f] else Null).keys
       else
         var raw := lib.evaluate(col.formula, r);
         && raw.Some? && Coerce(raw.value, col.typ).Some?
         && var v := Coerce(raw.value, col.typ).value;
            v != Null && v != Text("") && TextOf(lib, v) == key
  }

  /** Every collection with a column that refers to parent can be read, its computed columns included, and no
      record of it refers to the key. */
  predicate Unreferenced(lib: Library, def: Definition, store: Store, parent: Name, key: Key) {
    forall c <- def.Keys :: (exists f <- def[c].columns.Keys :: def[c].columns[f].foreignKey == parent && parent != "") ==>
      && lib.readable(c)
      && forall k <- RecordsOf(store, c).Keys ::
           forall f <- def[c].columns.Keys ::
             && (def[c].columns[f].formula != "" ==> Computed(lib, def[c].columns[f], RecordsOf(store, c)[k]).Some?)
             && !Refers(lib, def[c].columns[f], f, RecordsOf(store, c)[k], parent, key)
  }

  lemma RecordFreeIff(lib: Library, child: CollectionDef, parent: Name, key: Key, r: Record)
    requires parent != ""
    ensures (Bakes(lib, child, r) && StoredFkFree(lib, child, parent, key, r) && ComputedFkFree(lib, child, parent, key, r)) <==>
            (forall f <- child.columns.Keys ::
               && (child.columns[f].formula != "" ==> Computed(lib, child.columns[f], r).Some?)
               && !Refers(lib, child.columns[f], f, r, parent, key))
  {
    hide KeyString, TextOf, Coerce;
    forall f | f in child.columns && Computed(lib, child.columns[f], r).Some?
      ensures KeyString(lib, Computed(lib, child.columns[f], r).value) == TextOf(lib, Computed(lib, child.columns[f], r).value)
    {
      TextIsKey(lib, Computed(lib, child.columns[f], r).value);
    }
  }

  lemma DeletableIff(lib: Library, def: Definition, store: Store, parent: Name, key: Key)
    ensures Deletable(lib, def, store, parent, key) <==> Unreferenced(lib, def, store, parent, key)
  {
    hide Bakes, StoredFkFree, ComputedFkFree, Refers, Computed;
    forall c, k | c in def && k in RecordsOf(store, c) && parent != ""
      ensures var r := RecordsOf(store, c)[k];
              (Bakes(lib, def[c], r) && StoredFkFree(lib, def[c], parent, key, r) && ComputedFkFree(lib, def[c], parent, key, r)) <==>
              (forall f <- def[c].columns.Keys ::
                 && (def[c].columns[f].formula != "" ==> Computed(lib, def[c].columns[f], r).Some?)
                 && !Refers(lib, def[c].columns[f], f, r, parent, key))
    {
      RecordFreeIff(lib, def[c], parent, key, RecordsOf(store, c)[k]);
    }
  }

  // ----- The operations -----

  /** An operation that fails changes nothing. One that succeeds changes at most its own record: Set and Insert
      leave their data there, Insert where there was nothing; Update leaves the changed record without computed
      fields; Delete leaves nothing in a defined collection. */
  lemma OperationDoes(lib: Library, def: Definition, store: Store, op: Op)
    ensures var (after, ok) := Step(lib, def, store, op);
            && (!ok ==> after == store)
            && OnlyChanged(store, after, op.c, op.key)
            && (ok ==>
                  var was, now := RecordAt(store, op.c, op.key), RecordAt(after, op.c, op.key);
                  match op
                  case Set(_, _, data) => now == Some(data)
                  case Insert(_, _, data) => was == None && now == Some(data)
                  case Update(c, _, change) => was.Some? && now.Some? && c in def && IsChanged(lib, def[c], was.value, change, now.value)
                  case Delete(c, _) => c in def ==> now == None)
  {
    hide Writable, Bakes, Deletable, TargetExists, Baked, WithoutComputed, IsChanged;
    if op.Update? && Step(lib, def, store, op).1 {
      var before := RecordsOf(store, op.c)[op.key];
      ChangedIff(lib, def[op.c], before, op.change, WithoutComputed(def[op.c], op.change(Baked(lib, def[op.c], before)).value));
    }
  }

  /** An operation succeeds exactly when: what is to be written is accepted; an insert finds no record and an
      update finds one that can be shown and changed; a deleted record, in a collection that can be read, is
      not referred to. Deleting what does not exist succeeds. */
  lemma OperationSucceedsIff(lib: Library, def: Definition, store: Store, op: Op)
    ensures Step(lib, def, store, op).1 <==>
            var was := RecordAt(store, op.c, op.key);
            match op
            case Set(c, key, data) => Accepted(lib, def, store, c, key, data)
            case Insert(c, key, data) => was == None && Accepted(lib, def, store, c, key, data)
            case Update(c, key, change) =>
              && was.Some? && c in def && lib.readable(c)
              && exists data: Record :: IsChanged(lib, def[c], was.value, change, data) && Accepted(lib, def, store, c, key, data)
            case Delete(c, key) =>
              c in def ==>
                && lib.readable(c) && (def[c].kind == MapOfRecords || (def[c].kind == SingleRecord && lib.validKey(key)))
                && (was.Some? ==> Unreferenced(lib, def, store, c, key))
  {
    hide Writable, Bakes, Deletable, Baked, WithoutComputed, IsChanged, FieldAccepted, Unreferenced;
    match op
    case Set(c, key, data) => if c in def { WritableIff(lib, def, store, def[c], data); }
    case Insert(c, key, data) => if c in def { WritableIff(lib, def, store, def[c], data); }
    case Update(c, key, change) => UpdateSucceedsIff(lib, def, store, c, key, change);
    case Delete(c, key) => DeletableIff(lib, def, store, c, key);
  }

  lemma UpdateSucceedsIff(lib: Library, def: Definition, store: Store, c: Name, key: Key, change: Record -> Option<Record>)
    ensures Step(lib, def, store, Update(c, key, change)).1 <==>
            var was := RecordAt(store, c, key);
            && was.Some? && c in def && lib.readable(c)
            && exists data: Record :: IsChanged(lib, def[c], was.value, change, data) && Accepted(lib, def, store, c, key, data)
  {
    hide Writable, Bakes, Deletable, Baked, WithoutComputed, IsChanged, FieldAccepted;
    if c in def && RecordAt(store, c, key).Some? {
      var before := RecordsOf(store, c)[key];
      forall data: Record
        ensures IsChanged(lib, def[c], before, change, data) <==>
                && Bakes(lib, def[c], before) && change(Baked(lib, def[c], before)).Some?
                && data == WithoutComputed(def[c], change(Baked(lib, def[c], before)).value)
        ensures Writable(lib, def, store, def[c], data) <==>
                forall f <- def[c].columns.Keys :: FieldAccepted(lib, def, store, def[c].columns[f], f, data)
      {
        ChangedIff(lib, def[c], before, change, data);
        WritableIff(lib, def, store, def[c], data);
      }
    }
  }
}
