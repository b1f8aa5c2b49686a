/** The validators and write operations of a read-write transaction, as loops with early return over
    the columns, collections and records of the store. The order of a scan decides only which violation
    is reported, so scans over maps pick their next element freely. */
module ForeignKeyChecks {
  import opened Common
  import opened Ordering
  import opened ForeignKeys
  import opened RecordEffects

  function Self(f: Field): Field { f }

  function Listed(def: CollectionDef, order: seq<Field>, pred: Column -> bool): seq<Field> {
    if order == [] then []
    else
      var last := order[|order| - 1];
      Listed(def, order[..|order| - 1], pred) +
      (if last in def.columns && pred(def.columns[last]) then [last] else [])
  }

  lemma SortKeepsMembers(s: seq<Field>)
    ensures forall f :: f in SortBy(s, Self) <==> f in s
  {
    SortBySorts(s, Self);
    assert forall f :: f in SortBy(s, Self) <==> f in multiset(SortBy(s, Self));
    assert forall f :: f in s <==> f in multiset(s);
  }

  lemma {:induction false} ListedMatch(def: CollectionDef, order: seq<Field>, pred: Column -> bool)
    ensures forall f :: f in Listed(def, order, pred) ==> f in def.columns && pred(def.columns[f])
    decreases |order|
  {
    if order != [] {
      ListedMatch(def, order[..|order| - 1], pred);
    }
  }

  /** The matching columns that are not in fields. */
  method OtherColumns(def: CollectionDef, pred: Column -> bool, fields: seq<Field>) returns (remaining: seq<Field>)
    ensures forall f :: f in remaining <==> f in def.columns && pred(def.columns[f]) && f !in fields
  {
    remaining := [];
    var todo := def.columns.Keys;
    while todo != {}
      invariant todo <= def.columns.Keys
      invariant forall f :: f in remaining <==> f in def.columns && f !in todo && pred(def.columns[f]) && f !in fields
      decreases todo
    {
      var field: Field :| field in todo;
      todo := todo - {field};
      if field !in fields && pred(def.columns[field]) {
        remaining := remaining + [field];
      }
    }
  }

  /** orderedColumns: the matching columns named in columns_order first, then the others sorted. */
  method OrderedColumns(def: CollectionDef, pred: Column -> bool) returns (fields: seq<Field>)
    ensures forall f :: f in fields <==> f in def.columns && pred(def.columns[f])
    ensures Listed(def, def.order, pred) <= fields
    ensures SortedBy(fields[|Listed(def, def.order, pred)|..], Self)
  {
    hide SortBy, SortedBy;
    fields := [];
    for i := 0 to |def.order|
      invariant fields == Listed(def, def.order[..i], pred)
    {
      assert def.order[..i + 1][..i] == def.order[..i];
      var field := def.order[i];
      if field in def.columns && pred(def.columns[field]) {
        fields := fields + [field];
      }
    }
    assert def.order[..|def.order|] == def.order;
    ListedMatch(def, def.order, pred);
    hide Listed;
    var remaining := OtherColumns(def, pred, fields);
    SortBySorts(remaining, Self);
    SortKeepsMembers(remaining);
    ghost var listed := fields;
    fields := fields + SortBy(remaining, Self);
    assert fields[|listed|..] == SortBy(remaining, Self);
  }

  predicate StoredFk(c: Column) { c.foreignKey != "" && c.formula == "" }

  predicate ComputedColumn(c: Column) { c.formula != "" }

  class Transaction {
    const lib: Library
    const def: Definition
    var store: Store

    constructor (lib: Library, def: Definition, store: Store)
      ensures this.lib == lib && this.def == def && this.store == store
    {
      this.lib, this.def, this.store := lib, def, store;
    }

    method ValidateNoStoredComputedValues(child: CollectionDef, data: Record) returns (ok: bool)
      ensures ok <==> forall f :: f in child.columns && child.columns[f].formula != "" ==> f !in data
    {
      var fields := OrderedColumns(child, ComputedColumn);
      for i := 0 to |fields|
        invariant forall j :: 0 <= j < i ==> fields[j] !in data
      {
        if fields[i] in data {
          return false;
        }
      }
      return true;
    }

    method ValidateWriteForeignKeys(child: CollectionDef, data: Record) returns (ok: bool)
      ensures ok <==> forall f :: f in child.columns && IsStoredFk(child, f) ==>
                        StoredFkOk(lib, def, store, child.columns[f], FieldOf(data, f))
    {
      var fields := OrderedColumns(child, StoredFk);
      for i := 0 to |fields|
        invariant forall j :: 0 <= j < i ==>
                    StoredFkOk(lib, def, store, child.columns[fields[j]], FieldOf(data, fields[j]))
      {
        var field := fields[i];
        var column := child.columns[field];
        assert IsStoredFk(child, field);
        var elements := lib.elements(FieldOf(data, field));
        if elements.malformed {
          return false;
        }
        if |elements.keys| == 0 {
          if column.required {
            return false;
          }
          continue;
        }
        if column.foreignKey !in def {
          return false;
        }
        for k := 0 to |elements.keys|
          invariant forall j :: 0 <= j < k ==>
                      TargetExists(lib, def, store, column.foreignKey, elements.keys[j]) == Found
        {
          if TargetExists(lib, def, store, column.foreignKey, elements.keys[k]) != Found {
            return false;
          }
        }
      }
      assert forall f :: f in child.columns && IsStoredFk(child, f) ==> f in fields;
      return true;
    }

    method ValidateComputedWriteForeignKeys(child: CollectionDef, data: Record) returns (ok: bool)
      ensures ok <==> forall f :: f in child.columns && IsComputedFk(child, f) ==>
                        ComputedFkOk(lib, def, store, child.columns[f], data)
    {
      var fields := OrderedColumns(child, ComputedColumn);
      for i := 0 to |fields|
        invariant forall j :: 0 <= j < i && IsComputedFk(child, fields[j]) ==>
                    ComputedFkOk(lib, def, store, child.columns[fields[j]], data)
      {
        var column := child.columns[fields[i]];
        if column.foreignKey == "" {
          continue;
        }
        assert IsComputedFk(child, fields[i]);
        var result := lib.evaluate(column.formula, data);
        if result.None? || column.foreignKey !in def {
          return false;
        }
        if TargetExists(lib, def, store, column.foreignKey, KeyString(lib, result.value)) != Found {
          return false;
        }
      }
      assert forall f :: f in child.columns && IsComputedFk(child, f) ==> f in fields;
      return true;
    }

    method ValidateWrite(child: CollectionDef, data: Record) returns (ok: bool)
      ensures ok <==> Writable(lib, def, store, child, data)
    {
      ok := ValidateNoStoredComputedValues(child, data);
      if ok {
        ok := ValidateWriteForeignKeys(child, data);
      }
      if ok {
        ok := ValidateComputedWriteForeignKeys(child, data);
      }
    }

    /** The tests of the stored columns. */
    method StoredFree(child: CollectionDef, parent: Name, key: Key, data: Record) returns (free: bool)
      ensures free <==> StoredFkFree(lib, child, parent, key, data)
    {
      var fields := OrderedColumns(child, StoredFk);
      for i := 0 to |fields|
        invariant forall j :: 0 <= j < i && child.columns[fields[j]].foreignKey == parent ==>
                    key !in lib.elements(FieldOf(data, fields[j])).keys
      {
        assert IsStoredFk(child, fields[i]);
        if child.columns[fields[i]].foreignKey == parent && key in lib.elements(FieldOf(data, fields[i])).keys {
          return false;
        }
      }
      assert forall f :: f in child.columns && IsStoredFk(child, f) ==> f in fields;
      return true;
    }

    /** The tests of the computed columns. */
    method ComputedFree(child: CollectionDef, parent: Name, key: Key, data: Record) returns (free: bool)
      requires Bakes(lib, child, data)
      ensures free <==> ComputedFkFree(lib, child, parent, key, data)
    {
      var fields := OrderedColumns(child, ComputedColumn);
      for i := 0 to |fields|
        invariant forall j :: 0 <= j < i && IsComputedFk(child, fields[j]) && child.columns[fields[j]].foreignKey == parent ==>
                    var shown := Computed(lib, child.columns[fields[j]], data);
                    shown.Some? && (shown.value == Null || shown.value == Text("") || KeyString(lib, shown.value) != key)
      {
        var column := child.columns[fields[i]];
        if column.foreignKey != parent || parent == "" {
          continue;
        }
        assert IsComputedFk(child, fields[i]);
        var shown := Computed(lib, column, data).value;
        if shown == Null || shown == Text("") {
          continue;
        }
        if KeyString(lib, shown) == key {
          return false;
        }
      }
      assert forall f :: f in child.columns && IsComputedFk(child, f) ==> f in fields;
      return true;
    }

    /** The per-record part of both delete scans. */
    method FreeOfKey(child: CollectionDef, parent: Name, key: Key, data: Record) returns (free: bool)
      requires Bakes(lib, child, data)
      ensures free <==> StoredFkFree(lib, child, parent, key, data) && ComputedFkFree(lib, child, parent, key, data)
    {
      free := StoredFree(child, parent, key, data);
      if free {
        free := ComputedFree(child, parent, key, data);
      }
    }

    method ValidateDelete(parent: Name, key: Key) returns (ok: bool)
      ensures ok <==> Deletable(lib, def, store, parent, key)
    {
      var names := def.Keys;
      while names != {}
        invariant names <= def.Keys
        invariant forall c :: c in def && c !in names ==> ScanOk(lib, def, store, c, parent, key)
        decreases names
      {
        var c: Name :| c in names;
        names := names - {c};
        if !RefersTo(def[c], parent) {
          continue;
        }
        if !lib.readable(c) {
          assert !ScanOk(lib, def, store, c, parent, key);
          return false;
        }
        var keys := RecordsOf(store, c).Keys;
        while keys != {}
          invariant keys <= RecordsOf(store, c).Keys
          invariant forall k :: k in RecordsOf(store, c) && k !in keys ==>
                      var r := RecordsOf(store, c)[k];
                      Bakes(lib, def[c], r) && StoredFkFree(lib, def[c], parent, key, r)
                      && ComputedFkFree(lib, def[c], parent, key, r)
          decreases keys
        {
          var k: Key :| k in keys;
          keys := keys - {k};
          var r := RecordsOf(store, c)[k];
          if !Bakes(lib, def[c], r) {
            assert !ScanOk(lib, def, store, c, parent, key);
            return false;
          }
          var free := FreeOfKey(def[c], parent, key, r);
          if !free {
            assert !ScanOk(lib, def, store, c, parent, key);
            return false;
          }
        }
      }
      return true;
    }

    method SetRecord(c: Name, key: Key, data: Record) returns (ok: bool)
      modifies this
      ensures (store, ok) == Step(lib, def, old(store), Set(c, key, data))
      ensures ok <==> Accepted(lib, def, old(store), c, key, data)
      ensures OnlyChanged(old(store), store, c, key) && (ok ==> RecordAt(store, c, key) == Some(data)) && (!ok ==> store == old(store))
    {
      OperationDoes(lib, def, store, Set(c, key, data));
      OperationSucceedsIff(lib, def, store, Set(c, key, data));
      hide OnlyChanged, IsChanged, Accepted, RecordAt;
      if !Resolvable(lib, def, c, key) {
        return false;
      }
      var valid := ValidateWrite(def[c], data);
      if !valid || def[c].kind == OtherKind || (def[c].kind == MapOfRecords && !lib.readable(c)) {
        return false;
      }
      store := Put(store, c, key, data);
      return true;
    }

    method InsertRecord(c: Name, key: Key, data: Record) returns (ok: bool)
      modifies this
      ensures (store, ok) == Step(lib, def, old(store), Insert(c, key, data))
      ensures ok <==> RecordAt(old(store), c, key) == None && Accepted(lib, def, old(store), c, key, data)
      ensures OnlyChanged(old(store), store, c, key) && (ok ==> RecordAt(store, c, key) == Some(data)) && (!ok ==> store == old(store))
    {
      OperationDoes(lib, def, store, Insert(c, key, data));
      OperationSucceedsIff(lib, def, store, Insert(c, key, data));
      hide OnlyChanged, IsChanged, Accepted, RecordAt;
      if !Resolvable(lib, def, c, key) {
        return false;
      }
      var valid := ValidateWrite(def[c], data);
      if !valid || def[c].kind == OtherKind || (def[c].kind == MapOfRecords && !lib.readable(c)) {
        return false;
      }
      if key in RecordsOf(store, c) {
        return false;
      }
      store := Put(store, c, key, data);
      return true;
    }

    method UpdateRecord(c: Name, key: Key, change: Record -> Option<Record>) returns (ok: bool)
      modifies this
      ensures (store, ok) == Step(lib, def, old(store), Update(c, key, change))
      ensures ok ==>
                var was, now := RecordAt(old(store), c, key), RecordAt(store, c, key);
                was.Some? && now.Some? && c in def && IsChanged(lib, def[c], was.value, change, now.value)
      ensures OnlyChanged(old(store), store, c, key) && (!ok ==> store == old(store))
    {
      OperationDoes(lib, def, store, Update(c, key, change));
      hide OnlyChanged, IsChanged, Accepted, RecordAt;
      if !Resolvable(lib, def, c, key) || def[c].kind == OtherKind || !lib.readable(c)
         || key !in RecordsOf(store, c) || !Bakes(lib, def[c], RecordsOf(store, c)[key]) {
        return false;
      }
      var changed := change(Baked(lib, def[c], RecordsOf(store, c)[key]));
      if changed.None? {
        return false;
      }
      ok := SetRecord(c, key, WithoutComputed(def[c], changed.value));
    }

    method DeleteRecord(c: Name, key: Key) returns (ok: bool)
      modifies this
      ensures (store, ok) == Step(lib, def, old(store), Delete(c, key))
      ensures OnlyChanged(old(store), store, c, key) && (ok && c in def ==> RecordAt(store, c, key) == None) && (!ok ==> store == old(store))
    {
      OperationDoes(lib, def, store, Delete(c, key));
      hide OnlyChanged, IsChanged, Accepted, RecordAt;
      if c !in def {
        return true;
      }
      if !Resolvable(lib, def, c, key) {
        return false;
      }
      var target := TargetExists(lib, def, store, c, key);
      if target == Failed {
        return false;
      }
      if target == Found {
        var free := ValidateDelete(c, key);
        if !free {
          return false;
        }
      }
      if key !in RecordsOf(store, c) {
        return true;
      }
      store := store[c := RecordsOf(store, c) - {key}];
      return true;
    }
  }
}
