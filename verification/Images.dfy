/** Record images on the heap (tx_readwrite.go, protected.go): Go maps, slices and byte buffers are cells
    that values refer to, field updates edit them in place, and clones must not share them. */
module Images {
  import opened Common
  import D = Documents

  type Loc = nat
  type Field = D.Field
  type Path = D.Path

  /** What an interface variable holds. */
  datatype Val = Nil | Scalar(shown: string) | Ref(loc: Loc)

  /** A mutable cell: map[string]any, []any or []byte. */
  datatype Body = MapBody(entries: map<Field, Val>) | ListBody(vals: seq<Val>) | BytesBody(bytes: Bytes)

  datatype Heap = Heap(cells: map<Loc, Body>, next: Loc)

  ghost predicate Valid(h: Heap)
  {
    forall l: Loc :: l in h.cells ==> l < h.next
  }

  /** How a value lies on the heap: its tree, with the cell of every node. Nodes may share cells. */
  datatype Shape =
    | NilShape
    | ScalarShape(shown: string)
    | BytesShape(loc: Loc, bytes: Bytes)
    | ListShape(loc: Loc, items: seq<Shape>)
    | MapShape(loc: Loc, fields: map<Field, Shape>)

  ghost predicate Fits(h: Heap, v: Val, s: Shape)
    decreases s
  {
    match s
    case NilShape => v == Nil
    case ScalarShape(shown) => v == Scalar(shown)
    case BytesShape(l, bytes) => v == Ref(l) && l in h.cells && h.cells[l] == BytesBody(bytes)
    case ListShape(l, items) =>
      && v == Ref(l) && l in h.cells && h.cells[l].ListBody?
      && |h.cells[l].vals| == |items|
      && forall i :: 0 <= i < |items| ==> Fits(h, h.cells[l].vals[i], items[i])
    case MapShape(l, fields) =>
      && v == Ref(l) && l in h.cells && h.cells[l].MapBody?
      && h.cells[l].entries.Keys == fields.Keys
      && forall f :: f in fields ==> Fits(h, h.cells[l].entries[f], fields[f])
  }

  /** Cell l belongs to the value. */
  ghost predicate Holds(s: Shape, l: Loc)
    decreases s
  {
    match s
    case NilShape => false
    case ScalarShape(_) => false
    case BytesShape(m, _) => l == m
    case ListShape(m, items) => l == m || exists i :: 0 <= i < |items| && Holds(items[i], l)
    case MapShape(m, fields) => l == m || exists f :: f in fields && Holds(fields[f], l)
  }

  ghost predicate Disjoint(a: Shape, b: Shape)
  {
    forall l: Loc :: Holds(a, l) ==> !Holds(b, l)
  }

  /** No cell is reached twice. */
  ghost predicate Separate(s: Shape)
    decreases s
  {
    match s
    case ListShape(m, items) =>
      && (forall i :: 0 <= i < |items| ==> Separate(items[i]) && !Holds(items[i], m))
      && (forall i, j :: 0 <= i < |items| && 0 <= j < |items| && i != j ==> Disjoint(items[i], items[j]))
    case MapShape(m, fields) =>
      && (forall f :: f in fields ==> Separate(fields[f]) && !Holds(fields[f], m))
      && (forall f, g :: f in fields && g in fields && f != g ==> Disjoint(fields[f], fields[g]))
    case _ => true
  }

  /** The document a value denotes. */
  ghost function Erase(s: Shape): D.Tree
    decreases s
  {
    match s
    case NilShape => D.Null
    case ScalarShape(shown) => D.Scalar(shown)
    case BytesShape(_, bytes) => D.Buffer(bytes)
    case ListShape(_, items) => D.List(seq(|items|, i requires 0 <= i < |items| => Erase(items[i])))
    case MapShape(_, fields) => D.Map(map f | f in fields :: Erase(fields[f]))
  }

  lemma {:induction false} HeldIsAllocated(h: Heap, v: Val, s: Shape, l: Loc)
    requires Fits(h, v, s) && Holds(s, l)
    ensures l in h.cells
    decreases s
  {
    match s
    case ListShape(m, items) =>
      if l != m {
        var i :| 0 <= i < |items| && Holds(items[i], l);
        HeldIsAllocated(h, h.cells[m].vals[i], items[i], l);
      }
    case MapShape(m, fields) =>
      if l != m {
        var f :| f in fields && Holds(fields[f], l);
        HeldIsAllocated(h, h.cells[m].entries[f], fields[f], l);
      }
    case _ =>
  }

  /** A value depends only on its own cells. */
  lemma {:induction false} FitsFrame(h: Heap, h': Heap, v: Val, s: Shape)
    requires Fits(h, v, s)
    requires forall l: Loc :: Holds(s, l) && l in h.cells ==> l in h'.cells && h'.cells[l] == h.cells[l]
    ensures Fits(h', v, s)
    decreases s
  {
    match s
    case ListShape(m, items) =>
      assert Holds(s, m);
      forall i | 0 <= i < |items|
        ensures Fits(h', h'.cells[m].vals[i], items[i])
      {
        assert forall l: Loc :: Holds(items[i], l) ==> Holds(s, l);
        FitsFrame(h, h', h.cells[m].vals[i], items[i]);
      }
    case MapShape(m, fields) =>
      assert Holds(s, m);
      forall f | f in fields
        ensures Fits(h', h'.cells[m].entries[f], fields[f])
      {
        assert forall l: Loc :: Holds(fields[f], l) ==> Holds(s, l);
        FitsFrame(h, h', h.cells[m].entries[f], fields[f]);
      }
    case BytesShape(m, _) => assert Holds(s, m);
    case _ =>
  }

  // ----- In-place updates -----

  predicate IsMap(h: Heap, m: Loc) {
    m in h.cells && h.cells[m].MapBody?
  }

  function Lookup(h: Heap, m: Loc, f: Field): Val
    requires IsMap(h, m)
  {
    if f in h.cells[m].entries then h.cells[m].entries[f] else Nil
  }

  /** m[f] = v */
  function Store(h: Heap, m: Loc, f: Field, v: Val): Heap
    requires IsMap(h, m)
  {
    h.(cells := h.cells[m := MapBody(h.cells[m].entries[f := v])])
  }

  /** m[f] = make(map[string]any) */
  function StoreNewMap(h: Heap, m: Loc, f: Field): Heap
    requires IsMap(h, m)
  {
    Heap(Store(h, m, f, Ref(h.next)).cells[h.next := MapBody(map[])], h.next + 1)
  }

  predicate PointsToMap(h: Heap, v: Val) {
    v.Ref? && IsMap(h, v.loc)
  }

  /** applyFieldUpdate and applyIncrement: down to the leaf's map, creating missing maps, then put what
      leaf makes of the value there. */
  function UpdateIn(h: Heap, m: Loc, path: Path, leaf: Val -> Option<Val>): (r: (Heap, bool))
    requires path != [] && IsMap(h, m) && Valid(h)
    ensures Valid(r.0) && h.next <= r.0.next
    ensures forall l :: IsMap(h, l) ==> IsMap(r.0, l)
    decreases |path|
  {
    var existing := Lookup(h, m, path[0]);
    if |path| == 1 then
      var v := leaf(existing);
      if v.None? then (h, false) else (Store(h, m, path[0], v.value), true)
    else if existing == Nil then UpdateIn(StoreNewMap(h, m, path[0]), h.next, path[1..], leaf)
    else if PointsToMap(h, existing) then UpdateIn(h, existing.loc, path[1..], leaf)
    else (h, false)
  }

  /** applyDelete. */
  function DeleteIn(h: Heap, m: Loc, path: Path): (h': Heap)
    requires path != [] && IsMap(h, m)
    ensures h'.next == h.next && h'.cells.Keys == h.cells.Keys
    ensures forall l :: IsMap(h, l) ==> IsMap(h', l)
    decreases |path|
  {
    if |path| == 1 then h.(cells := h.cells[m := MapBody(h.cells[m].entries - {path[0]})])
    else
      var existing := Lookup(h, m, path[0]);
      if PointsToMap(h, existing) then DeleteIn(h, existing.loc, path[1..]) else h
  }

  function Put(v: Val): Val -> Option<Val> {
    (_: Val) => Some(v)
  }

  /** The descent meets a missing or nil intermediate. */
  predicate Misses(h: Heap, m: Loc, path: Path)
    requires path != [] && IsMap(h, m)
    decreases |path|
  {
    |path| > 1 &&
    var existing := Lookup(h, m, path[0]);
    existing == Nil || (PointsToMap(h, existing) && Misses(h, existing.loc, path[1..]))
  }

  lemma {:induction false} FreshDescent(h: Heap, m: Loc, path: Path, leaf: Val -> Option<Val>)
    requires path != [] && Valid(h) && IsMap(h, m) && h.cells[m].entries == map[]
    ensures UpdateIn(h, m, path, leaf).1 <==> leaf(Nil).Some?
    ensures h.next <= UpdateIn(h, m, path, leaf).0.next
    decreases |path|
  {
    if |path| > 1 {
      FreshDescent(StoreNewMap(h, m, path[0]), h.next, path[1..], leaf);
    }
  }

  /** When an update fails, it has changed the heap exactly if it met a missing intermediate, and then it
      failed on the leaf. */
  lemma {:induction false} FailedUpdate(h: Heap, m: Loc, path: Path, leaf: Val -> Option<Val>)
    requires path != [] && Valid(h) && IsMap(h, m) && !UpdateIn(h, m, path, leaf).1
    ensures UpdateIn(h, m, path, leaf).0 != h <==> Misses(h, m, path)
    ensures Misses(h, m, path) ==> leaf(Nil).None?
    decreases |path|
  {
    if |path| > 1 {
      var existing := Lookup(h, m, path[0]);
      if existing == Nil {
        FreshDescent(StoreNewMap(h, m, path[0]), h.next, path[1..], leaf);
      } else if PointsToMap(h, existing) {
        FailedUpdate(h, existing.loc, path[1..], leaf);
      }
    }
  }

  /** A plain set that fails leaves every cell of the heap as it was, whatever is shared with what. */
  lemma FailedSetChangesNothing(h: Heap, m: Loc, path: Path, v: Val)
    requires path != [] && Valid(h) && IsMap(h, m) && !UpdateIn(h, m, path, Put(v)).1
    ensures UpdateIn(h, m, path, Put(v)).0 == h
  {
    FailedUpdate(h, m, path, Put(v));
  }

  // ----- Regions: what an update can reach -----

  predicate InRegion(v: Val, region: set<Loc>) {
    v.Ref? ==> v.loc in region
  }

  ghost predicate Closed(h: Heap, region: set<Loc>)
  {
    forall l: Loc :: l in region ==>
      && l in h.cells
      && (h.cells[l].MapBody? ==> forall f :: f in h.cells[l].entries ==> InRegion(h.cells[l].entries[f], region))
      && (h.cells[l].ListBody? ==> forall i :: 0 <= i < |h.cells[l].vals| ==> InRegion(h.cells[l].vals[i], region))
  }

  function Locs(low: Loc, high: Loc): (r: set<Loc>)
    ensures forall l: Loc :: l in r <==> low <= l < high
  {
    if low >= high then {} else Locs(low, high - 1) + {high - 1}
  }

  /** The region with the cells that were made since. */
  function Grown(region: set<Loc>, low: Loc, high: Loc): set<Loc> {
    region + Locs(low, high)
  }

  ghost predicate SameOutside(h: Heap, h': Heap, region: set<Loc>)
  {
    forall l: Loc :: l in h.cells && l !in region ==> l in h'.cells && h'.cells[l] == h.cells[l]
  }

  lemma NewMapInRegion(h: Heap, m: Loc, f: Field, region: set<Loc>)
    requires Valid(h) && IsMap(h, m) && Closed(h, region) && m in region
    ensures var h' := StoreNewMap(h, m, f);
            Closed(h', Grown(region, h.next, h'.next)) && SameOutside(h, h', region) && h.next in Grown(region, h.next, h'.next)
  {
  }

  /** An update inside a closed region changes nothing outside it and leaves a closed region. */
  lemma {:induction false} UpdateStaysInRegion(h: Heap, m: Loc, path: Path, leaf: Val -> Option<Val>, region: set<Loc>)
    requires path != [] && Valid(h) && IsMap(h, m) && Closed(h, region) && m in region
    requires forall v :: leaf(v).Some? ==> InRegion(leaf(v).value, region)
    ensures var h' := UpdateIn(h, m, path, leaf).0;
            SameOutside(h, h', region) && Closed(h', Grown(region, h.next, h'.next))
    decreases |path|
  {
    var h' := UpdateIn(h, m, path, leaf).0;
    var existing := Lookup(h, m, path[0]);
    if |path| > 1 && existing == Nil {
      NewMapInRegion(h, m, path[0], region);
      var h1 := StoreNewMap(h, m, path[0]);
      var grown := Grown(region, h.next, h1.next);
      UpdateStaysInRegion(h1, h.next, path[1..], leaf, grown);
      assert Grown(grown, h1.next, h'.next) == Grown(region, h.next, h'.next);
    } else if |path| > 1 && PointsToMap(h, existing) {
      UpdateStaysInRegion(h, existing.loc, path[1..], leaf, region);
    } else {
      assert Grown(region, h.next, h'.next) == region;
    }
  }

  lemma {:induction false} DeleteStaysInRegion(h: Heap, m: Loc, path: Path, region: set<Loc>)
    requires path != [] && IsMap(h, m) && Closed(h, region) && m in region
    ensures var h' := DeleteIn(h, m, path);
            SameOutside(h, h', region) && Closed(h', region) && h'.next == h.next && h'.cells.Keys == h.cells.Keys
    decreases |path|
  {
    if |path| > 1 && PointsToMap(h, Lookup(h, m, path[0])) {
      DeleteStaysInRegion(h, Lookup(h, m, path[0]).loc, path[1..], region);
    }
  }

  // ----- Updates of separate values refine updates of documents -----

  /** Where the intermediate for a field lies; a missing one is made at next. */
  ghost function BelowShape(s: Shape, f: Field, next: Loc): Shape
    requires s.MapShape?
  {
    if f !in s.fields || s.fields[f] == NilShape then MapShape(next, map[]) else s.fields[f]
  }

  ghost function BelowNext(s: Shape, f: Field, next: Loc): Loc
    requires s.MapShape?
  {
    if f !in s.fields || s.fields[f] == NilShape then next + 1 else next
  }

  ghost function SetShape(s: Shape, path: Path, v: Shape, next: Loc): Option<Shape>
    requires path != [] && s.MapShape?
    decreases |path|
  {
    if |path| == 1 then Some(MapShape(s.loc, s.fields[path[0] := v]))
    else
      var below, n := BelowShape(s, path[0], next), BelowNext(s, path[0], next);
      if !below.MapShape? then None
      else
        var child := SetShape(below, path[1..], v, n);
        if child.None? then None else Some(MapShape(s.loc, s.fields[path[0] := child.value]))
  }

  ghost function DeleteShape(s: Shape, path: Path): (r: Shape)
    requires path != []
    ensures s.MapShape? ==> r.MapShape? && r.loc == s.loc
    decreases |path|
  {
    if !s.MapShape? || path[0] !in s.fields then s
    else if |path| == 1 then MapShape(s.loc, s.fields - {path[0]})
    else MapShape(s.loc, s.fields[path[0] := DeleteShape(s.fields[path[0]], path[1..])])
  }

  lemma {:induction false} SetErases(s: Shape, path: Path, v: Shape, next: Loc)
    requires path != [] && s.MapShape?
    ensures var r := SetShape(s, path, v, next);
            D.Set(Erase(s), path, Erase(v)) == if r.None? then None else Some(Erase(r.value))
    decreases |path|
  {
    if |path| > 1 {
      var below, n := BelowShape(s, path[0], next), BelowNext(s, path[0], next);
      assert Erase(below) == D.Below(Erase(s), path[0]);
      if below.MapShape? {
        SetErases(below, path[1..], v, n);
        var child := SetShape(below, path[1..], v, n);
        if child.Some? {
          assert Erase(MapShape(s.loc, s.fields[path[0] := child.value])).fields ==
                 Erase(s).fields[path[0] := Erase(child.value)];
        }
      }
    } else {
      assert Erase(MapShape(s.loc, s.fields[path[0] := v])).fields == Erase(s).fields[path[0] := Erase(v)];
    }
  }

  lemma {:induction false} DeleteErases(s: Shape, path: Path)
    requires path != []
    ensures Erase(DeleteShape(s, path)) == D.Delete(Erase(s), path)
    decreases |path|
  {
    if s.MapShape? && path[0] in s.fields {
      if |path| == 1 {
        assert Erase(DeleteShape(s, path)).fields == Erase(s).fields - {path[0]};
      } else {
        DeleteErases(s.fields[path[0]], path[1..]);
        assert Erase(DeleteShape(s, path)).fields ==
               Erase(s).fields[path[0] := Erase(DeleteShape(s.fields[path[0]], path[1..]))];
      }
    }
  }

  /** The cells of the result are cells of the document, of the new value, or new. */
  lemma {:induction false} SetHolds(s: Shape, path: Path, v: Shape, next: Loc, l: Loc)
    requires path != [] && s.MapShape? && SetShape(s, path, v, next).Some?
    requires Holds(SetShape(s, path, v, next).value, l)
    ensures Holds(s, l) || Holds(v, l) || l >= next
    decreases |path|
  {
    var r := SetShape(s, path, v, next).value;
    if l != r.loc {
      var f :| f in r.fields && Holds(r.fields[f], l);
      if f == path[0] && |path| > 1 {
        var below, n := BelowShape(s, path[0], next), BelowNext(s, path[0], next);
        SetHolds(below, path[1..], v, n, l);
      }
    }
  }

  ghost predicate Below(s: Shape, next: Loc)
  {
    forall l: Loc :: Holds(s, l) ==> l < next
  }

  lemma ReplaceChild(s: Shape, f: Field, child: Shape)
    requires s.MapShape? && Separate(s) && Separate(child) && !Holds(child, s.loc)
    requires forall g :: g in s.fields && g != f ==> Disjoint(child, s.fields[g])
    ensures Separate(MapShape(s.loc, s.fields[f := child]))
  {
  }

  lemma ChildHeld(s: Shape, f: Field, l: Loc)
    requires s.MapShape? && f in s.fields && Holds(s.fields[f], l)
    ensures Holds(s, l)
  {
  }

  lemma BelowIsApart(s: Shape, f: Field, next: Loc, v: Shape)
    requires s.MapShape? && Separate(s) && Disjoint(s, v) && Below(s, next) && Below(v, next)
    ensures var below := BelowShape(s, f, next);
            && Separate(below) && Disjoint(below, v) && Below(below, BelowNext(s, f, next))
            && !Holds(below, s.loc) && !Holds(v, s.loc)
    ensures forall g :: g in s.fields && g != f ==> Disjoint(BelowShape(s, f, next), s.fields[g])
  {
    assert Holds(s, s.loc);
    var below := BelowShape(s, f, next);
    if f !in s.fields || s.fields[f] == NilShape {
      assert forall l: Loc :: Holds(below, l) <==> l == next;
      forall g | g in s.fields
        ensures Disjoint(below, s.fields[g])
      {
        if Holds(s.fields[g], next) {
          ChildHeld(s, g, next);
        }
      }
    } else {
      forall l: Loc | Holds(below, l)
        ensures Holds(s, l)
      {
        ChildHeld(s, f, l);
      }
    }
  }

  lemma {:induction false} SetKeepsSeparate(s: Shape, path: Path, v: Shape, next: Loc)
    requires path != [] && s.MapShape? && SetShape(s, path, v, next).Some?
    requires Separate(s) && Separate(v) && Disjoint(s, v) && Below(s, next) && Below(v, next)
    ensures Separate(SetShape(s, path, v, next).value)
    decreases |path|
  {
    hide Separate, Holds;
    var f := path[0];
    BelowIsApart(s, f, next, v);
    var child := v;
    if |path| > 1 {
      var below, n := BelowShape(s, f, next), BelowNext(s, f, next);
      assert Below(v, n);
      SetKeepsSeparate(below, path[1..], v, n);
      child := SetShape(below, path[1..], v, n).value;
      forall l: Loc | Holds(child, l)
        ensures l != s.loc && forall g :: g in s.fields && g != f ==> !Holds(s.fields[g], l)
      {
        SetHolds(below, path[1..], v, n, l);
        OutsideSiblings(s, f, v, next, l);
      }
    } else {
      forall l: Loc | Holds(child, l)
        ensures l != s.loc && forall g :: g in s.fields && g != f ==> !Holds(s.fields[g], l)
      {
        OutsideSiblings(s, f, v, next, l);
      }
    }
    ReplaceChild(s, f, child);
  }

  lemma OutsideSiblings(s: Shape, f: Field, v: Shape, next: Loc, l: Loc)
    requires s.MapShape? && Separate(s) && Disjoint(s, v) && Below(s, next) && Below(v, next)
    requires Holds(BelowShape(s, f, next), l) || Holds(v, l) || l >= next
    ensures l != s.loc && forall g :: g in s.fields && g != f ==> !Holds(s.fields[g], l)
  {
    BelowIsApart(s, f, next, v);
    assert Holds(s, s.loc);
    forall g | g in s.fields && g != f
      ensures !Holds(s.fields[g], l)
    {
      if Holds(s.fields[g], l) {
        ChildHeld(s, g, l);
      }
    }
  }

  lemma {:induction false} DeleteKeepsSeparate(s: Shape, path: Path)
    requires path != [] && Separate(s)
    ensures Separate(DeleteShape(s, path))
    ensures forall l: Loc :: Holds(DeleteShape(s, path), l) ==> Holds(s, l)
    decreases |path|
  {
    if s.MapShape? && path[0] in s.fields && |path| > 1 {
      DeleteKeepsSeparate(s.fields[path[0]], path[1..]);
    }
  }

  /** Only cells of the document change. */
  lemma {:induction false} UpdateTouchesOnly(h: Heap, s: Shape, path: Path, leaf: Val -> Option<Val>)
    requires path != [] && s.MapShape? && Valid(h) && Fits(h, Ref(s.loc), s)
    ensures var h' := UpdateIn(h, s.loc, path, leaf).0;
            forall l: Loc :: l in h.cells && !Holds(s, l) ==> l in h'.cells && h'.cells[l] == h.cells[l]
    decreases |path|
  {
    if |path| > 1 {
      if Lookup(h, s.loc, path[0]) == Nil {
        var h1 := StoreNewMap(h, s.loc, path[0]);
        UpdateTouchesOnly(h1, MapShape(h.next, map[]), path[1..], leaf);
      } else if PointsToMap(h, Lookup(h, s.loc, path[0])) {
        UpdateTouchesOnly(h, s.fields[path[0]], path[1..], leaf);
      }
    }
  }

  lemma {:induction false} DeleteTouchesOnly(h: Heap, s: Shape, path: Path)
    requires path != [] && s.MapShape? && Fits(h, Ref(s.loc), s)
    ensures var h' := DeleteIn(h, s.loc, path);
            && h'.next == h.next && h'.cells.Keys == h.cells.Keys
            && forall l: Loc :: l in h.cells && !Holds(s, l) ==> h'.cells[l] == h.cells[l]
    decreases |path|
  {
    if |path| > 1 && PointsToMap(h, Lookup(h, s.loc, path[0])) {
      DeleteTouchesOnly(h, s.fields[path[0]], path[1..]);
    }
  }

  lemma MapFacts(h: Heap, s: Shape, f: Field)
    requires s.MapShape? && Fits(h, Ref(s.loc), s)
    ensures IsMap(h, s.loc) && (f in s.fields ==> Fits(h, Lookup(h, s.loc, f), s.fields[f]))
    ensures Lookup(h, s.loc, f) == Nil <==> f !in s.fields || s.fields[f] == NilShape
    ensures PointsToMap(h, Lookup(h, s.loc, f)) <==> f in s.fields && s.fields[f].MapShape?
    ensures f in s.fields && s.fields[f].MapShape? ==> Lookup(h, s.loc, f) == Ref(s.fields[f].loc)
  {
  }

  /** The map lies as before except that field f now holds w. */
  lemma MapReassembles(h: Heap, h': Heap, s: Shape, f: Field, w: Val, child: Shape)
    requires s.MapShape? && Fits(h, Ref(s.loc), s) && Separate(s) && Fits(h', w, child)
    requires IsMap(h', s.loc) && h'.cells[s.loc].entries == h.cells[s.loc].entries[f := w]
    requires forall l: Loc :: l in h.cells && l != s.loc && !(f in s.fields && Holds(s.fields[f], l)) ==>
               l in h'.cells && h'.cells[l] == h.cells[l]
    ensures Fits(h', Ref(s.loc), MapShape(s.loc, s.fields[f := child]))
  {
    SiblingsFit(h, h', s, f);
  }

  ghost predicate SetOk(h: Heap, s: Shape, path: Path, v: Val, vs: Shape)
    requires path != [] && s.MapShape? && Valid(h) && IsMap(h, s.loc)
  {
    var r := SetShape(s, path, vs, h.next);
    && (UpdateIn(h, s.loc, path, Put(v)).1 <==> r.Some?)
    && (r.Some? ==> r.value.MapShape? && r.value.loc == s.loc
                    && Fits(UpdateIn(h, s.loc, path, Put(v)).0, Ref(s.loc), r.value))
  }

  lemma SetLeafFits(h: Heap, s: Shape, path: Path, v: Val, vs: Shape)
    requires |path| == 1 && s.MapShape? && Valid(h)
    requires Fits(h, Ref(s.loc), s) && Fits(h, v, vs) && Separate(s) && Disjoint(s, vs)
    ensures SetOk(h, s, path, v, vs)
  {
    hide Fits, Separate;
    MapFacts(h, s, path[0]);
    assert Holds(s, s.loc);
    var h' := Store(h, s.loc, path[0], v);
    FitsFrame(h, h', v, vs);
    MapReassembles(h, h', s, path[0], v, vs);
  }

  lemma NewMapFits(h: Heap, m: Loc, f: Field)
    requires Valid(h) && IsMap(h, m)
    ensures Fits(StoreNewMap(h, m, f), Ref(h.next), MapShape(h.next, map[]))
    ensures forall l: Loc :: Holds(MapShape(h.next, map[]), l) <==> l == h.next
    ensures Separate(MapShape(h.next, map[]))
  {
  }

  lemma ValueSurvivesNewMap(h: Heap, s: Shape, f: Field, v: Val, vs: Shape)
    requires s.MapShape? && Valid(h) && IsMap(h, s.loc) && Fits(h, v, vs) && Disjoint(s, vs)
    ensures Fits(StoreNewMap(h, s.loc, f), v, vs) && Disjoint(MapShape(h.next, map[]), vs)
  {
    FreshIsApart(h, v, vs);
    assert Holds(s, s.loc);
    FitsFrame(h, StoreNewMap(h, s.loc, f), v, vs);
  }

  /** One level of the descent through a map that is made. */
  lemma NewMapStep(h: Heap, s: Shape, path: Path, leaf: Val -> Option<Val>, vs: Shape)
    requires |path| > 1 && s.MapShape? && Valid(h) && IsMap(h, s.loc) && Lookup(h, s.loc, path[0]) == Nil
    requires path[0] !in s.fields || s.fields[path[0]] == NilShape
    ensures UpdateIn(h, s.loc, path, leaf) == UpdateIn(StoreNewMap(h, s.loc, path[0]), h.next, path[1..], leaf)
    ensures var child := SetShape(MapShape(h.next, map[]), path[1..], vs, h.next + 1);
            SetShape(s, path, vs, h.next) ==
            if child.None? then None else Some(MapShape(s.loc, s.fields[path[0] := child.value]))
  {
  }

  lemma SetThroughNewMap(h: Heap, s: Shape, path: Path, v: Val, vs: Shape)
    requires |path| > 1 && s.MapShape? && Valid(h)
    requires Fits(h, Ref(s.loc), s) && Separate(s) && Lookup(h, s.loc, path[0]) == Nil
    requires SetOk(StoreNewMap(h, s.loc, path[0]), MapShape(h.next, map[]), path[1..], v, vs)
    ensures SetOk(h, s, path, v, vs)
  {
    hide Fits, Separate, Holds, UpdateIn, SetShape;
    var f := path[0];
    MapFacts(h, s, f);
    NewMapStep(h, s, path, Put(v), vs);
    var h1 := StoreNewMap(h, s.loc, f);
    var below := MapShape(h.next, map[]);
    NewMapFits(h, s.loc, f);
    UpdateTouchesOnly(h1, below, path[1..], Put(v));
    var child := SetShape(below, path[1..], vs, h1.next);
    if child.Some? {
      MapReassembles(h, UpdateIn(h1, h.next, path[1..], Put(v)).0, s, f, Ref(h.next), child.value);
    }
  }

  lemma SetThroughChild(h: Heap, s: Shape, path: Path, v: Val, vs: Shape)
    requires |path| > 1 && s.MapShape? && Valid(h)
    requires Fits(h, Ref(s.loc), s) && Separate(s)
    requires path[0] in s.fields && s.fields[path[0]].MapShape? && IsMap(h, s.fields[path[0]].loc)
    requires SetOk(h, s.fields[path[0]], path[1..], v, vs)
    ensures SetOk(h, s, path, v, vs)
  {
    hide Fits, Separate, Holds;
    var f := path[0];
    MapFacts(h, s, f);
    var below := s.fields[f];
    NothingHeld(s);
    ChildIsApart(s, f, NilShape);
    UpdateTouchesOnly(h, below, path[1..], Put(v));
    var child := SetShape(below, path[1..], vs, h.next);
    if child.Some? {
      MapReassembles(h, UpdateIn(h, below.loc, path[1..], Put(v)).0, s, f, Ref(below.loc), child.value);
    }
  }

  /** In place, a set on a separate document is the set on the document it denotes. */
  lemma {:induction false} SetFits(h: Heap, s: Shape, path: Path, v: Val, vs: Shape)
    requires path != [] && s.MapShape? && Valid(h)
    requires Fits(h, Ref(s.loc), s) && Fits(h, v, vs) && Separate(s) && Disjoint(s, vs)
    ensures IsMap(h, s.loc) && SetOk(h, s, path, v, vs)
    decreases |path|
  {
    hide Fits, Separate, Holds, Disjoint;
    var f := path[0];
    MapFacts(h, s, f);
    if |path| == 1 {
      SetLeafFits(h, s, path, v, vs);
    } else if Lookup(h, s.loc, f) == Nil {
      NewMapFits(h, s.loc, f);
      ValueSurvivesNewMap(h, s, f, v, vs);
      SetFits(StoreNewMap(h, s.loc, f), MapShape(h.next, map[]), path[1..], v, vs);
      SetThroughNewMap(h, s, path, v, vs);
    } else if PointsToMap(h, Lookup(h, s.loc, f)) {
      ChildIsApart(s, f, vs);
      SetFits(h, s.fields[f], path[1..], v, vs);
      SetThroughChild(h, s, path, v, vs);
    }
  }

  lemma ChildIsApart(s: Shape, f: Field, vs: Shape)
    requires s.MapShape? && f in s.fields && Separate(s) && Disjoint(s, vs)
    ensures Separate(s.fields[f]) && !Holds(s.fields[f], s.loc) && Disjoint(s.fields[f], vs)
  {
    forall l: Loc | Holds(s.fields[f], l)
      ensures Holds(s, l)
    {
      ChildHeld(s, f, l);
    }
  }

  lemma FreshIsApart(h: Heap, v: Val, vs: Shape)
    requires Valid(h) && Fits(h, v, vs)
    ensures !Holds(vs, h.next)
  {
    if Holds(vs, h.next) {
      HeldIsAllocated(h, v, vs, h.next);
    }
  }

  /** Fields other than f lie as before when only the map itself and the cells below f changed. */
  lemma SiblingsFit(h: Heap, h': Heap, s: Shape, f: Field)
    requires s.MapShape? && Fits(h, Ref(s.loc), s) && Separate(s)
    requires forall l: Loc :: l in h.cells && l != s.loc && !(f in s.fields && Holds(s.fields[f], l)) ==>
               l in h'.cells && h'.cells[l] == h.cells[l]
    ensures forall g :: g in s.fields && g != f ==> Fits(h', h.cells[s.loc].entries[g], s.fields[g])
  {
    forall g | g in s.fields && g != f
      ensures Fits(h', h.cells[s.loc].entries[g], s.fields[g])
    {
      FitsFrame(h, h', h.cells[s.loc].entries[g], s.fields[g]);
    }
  }

  lemma {:induction false} DeleteFits(h: Heap, s: Shape, path: Path)
    requires path != [] && s.MapShape? && Fits(h, Ref(s.loc), s) && Separate(s)
    ensures Fits(DeleteIn(h, s.loc, path), Ref(s.loc), DeleteShape(s, path))
    decreases |path|
  {
    hide Separate, Holds;
    var f := path[0];
    var h' := DeleteIn(h, s.loc, path);
    MapFacts(h, s, f);
    if |path| == 1 {
      SiblingsFit(h, h', s, f);
    } else if PointsToMap(h, Lookup(h, s.loc, f)) {
      ChildIsApart(s, f, NilShape) by { NothingHeld(s); }
      DeleteFits(h, s.fields[f], path[1..]);
      DeleteTouchesOnly(h, s.fields[f], path[1..]);
      assert h.cells[s.loc].entries == h.cells[s.loc].entries[f := Ref(s.fields[f].loc)];
      MapReassembles(h, h', s, f, Ref(s.fields[f].loc), DeleteShape(s.fields[f], path[1..]));
    } else if f in s.fields {
      assert s.fields[f := s.fields[f]] == s.fields;
    }
  }

  lemma NothingHeld(s: Shape)
    ensures Disjoint(s, NilShape)
  {
  }

  /** A set that succeeds on a separate document, all at once: the heap holds the document the set
      defines, it is separate again, and only its cells, the value's and new ones are in it. */
  lemma SetRefines(h: Heap, s: Shape, path: Path, v: Val, vs: Shape) returns (r: Shape)
    requires path != [] && s.MapShape? && Valid(h)
    requires Fits(h, Ref(s.loc), s) && Fits(h, v, vs) && Separate(s) && Separate(vs) && Disjoint(s, vs)
    ensures IsMap(h, s.loc)
    ensures UpdateIn(h, s.loc, path, Put(v)).1 <==> D.Set(Erase(s), path, Erase(vs)).Some?
    ensures UpdateIn(h, s.loc, path, Put(v)).1 ==>
              && r.MapShape? && r.loc == s.loc && Separate(r)
              && Fits(UpdateIn(h, s.loc, path, Put(v)).0, Ref(s.loc), r)
              && Some(Erase(r)) == D.Set(Erase(s), path, Erase(vs))
              && forall l: Loc :: Holds(r, l) ==> Holds(s, l) || Holds(vs, l) || l >= h.next
  {
    hide Fits, Separate, Holds, Erase, UpdateIn, SetShape;
    SetFits(h, s, path, v, vs);
    SetErases(s, path, vs, h.next);
    r := s;
    if SetShape(s, path, vs, h.next).Some? {
      r := SetShape(s, path, vs, h.next).value;
      HeldBelow(h, Ref(s.loc), s);
      HeldBelow(h, v, vs);
      SetKeepsSeparate(s, path, vs, h.next);
      forall l: Loc | Holds(r, l)
        ensures Holds(s, l) || Holds(vs, l) || l >= h.next
      {
        SetHolds(s, path, vs, h.next, l);
      }
    }
  }

  lemma HeldBelow(h: Heap, v: Val, s: Shape)
    requires Valid(h) && Fits(h, v, s)
    ensures Below(s, h.next)
  {
    forall l: Loc | Holds(s, l)
      ensures l < h.next
    {
      HeldIsAllocated(h, v, s, l);
    }
  }

  // ----- Increments -----

  /** The value an update finds at the leaf; None when a non-map is in the way. */
  function Current(h: Heap, m: Loc, path: Path): Option<Val>
    requires path != [] && IsMap(h, m)
    decreases |path|
  {
    var existing := Lookup(h, m, path[0]);
    if |path| == 1 then Some(existing)
    else if existing == Nil then Some(Nil)
    else if PointsToMap(h, existing) then Current(h, existing.loc, path[1..])
    else None
  }

  /** The leaf step of applyIncrement, for any reading of values as numbers and back. */
  function Increment(delta: Val, number: Val -> Option<real>, show: (Val, real) -> Val): Val -> Option<Val> {
    (existing: Val) =>
      if number(delta).None? then None
      else if existing == Nil then Some(show(delta, number(delta).value))
      else if number(existing).None? then None
      else Some(show(delta, number(existing).value + number(delta).value))
  }

  /** An update that succeeds is the set of what its leaf step makes of the value found. */
  lemma {:induction false} UpdateIsSet(h: Heap, m: Loc, path: Path, leaf: Val -> Option<Val>)
    requires path != [] && Valid(h) && IsMap(h, m)
    ensures var current := Current(h, m, path);
            && (UpdateIn(h, m, path, leaf).1 <==> current.Some? && leaf(current.value).Some?)
            && (UpdateIn(h, m, path, leaf).1 ==>
                UpdateIn(h, m, path, leaf) == UpdateIn(h, m, path, Put(leaf(current.value).value)))
    decreases |path|
  {
    if |path| > 1 {
      var existing := Lookup(h, m, path[0]);
      if existing == Nil {
        var h1 := StoreNewMap(h, m, path[0]);
        UpdateIsSet(h1, h.next, path[1..], leaf);
        EmptyHasNil(h1, h.next, path[1..]);
      } else if PointsToMap(h, existing) {
        UpdateIsSet(h, existing.loc, path[1..], leaf);
      }
    }
  }

  lemma EmptyHasNil(h: Heap, m: Loc, path: Path)
    requires path != [] && IsMap(h, m) && h.cells[m].entries == map[]
    ensures Current(h, m, path) == Some(Nil)
  {
  }

  /** An increment fails having changed the document exactly when its delta is not a number and an
      intermediate was missing: the maps it made for the path stay. */
  lemma IncrementFailsDirtyIff(h: Heap, m: Loc, path: Path, delta: Val, number: Val -> Option<real>, show: (Val, real) -> Val)
    requires path != [] && Valid(h) && IsMap(h, m)
    ensures var r := UpdateIn(h, m, path, Increment(delta, number, show));
            !r.1 && r.0 != h <==> number(delta).None? && Misses(h, m, path)
  {
    var leaf := Increment(delta, number, show);
    if !UpdateIn(h, m, path, leaf).1 {
      FailedUpdate(h, m, path, leaf);
    } else {
      UpdateIsSet(h, m, path, leaf);
    }
  }

  /** What an update finds at the leaf is what the document reads as there. */
  lemma {:induction false} CurrentReads(h: Heap, s: Shape, path: Path, shown: string)
    requires path != [] && s.MapShape? && Fits(h, Ref(s.loc), s)
    ensures IsMap(h, s.loc)
    ensures Current(h, s.loc, path) == Some(Scalar(shown)) <==> D.Read(Erase(s), path) == Some(D.Scalar(shown))
    decreases |path|
  {
    var f := path[0];
    MapFacts(h, s, f);
    if f in s.fields {
      assert Erase(s).fields[f] == Erase(s.fields[f]);
      if |path| > 1 && s.fields[f].MapShape? {
        CurrentReads(h, s.fields[f], path[1..], shown);
      }
    }
  }

  /** On a separate document, an increment that succeeds makes the path read as the sum of what it read as
      before, a missing or null value counting as zero, and the delta, and changes no path apart from it. */
  lemma IncrementAdds(h: Heap, s: Shape, path: Path, delta: Val, number: Val -> Option<real>, show: (Val, real) -> Val)
    returns (r: Shape)
    requires path != [] && s.MapShape? && Valid(h) && Fits(h, Ref(s.loc), s) && Separate(s)
    requires forall d, x :: show(d, x).Scalar?
    ensures IsMap(h, s.loc)
    ensures var (h', ok) := UpdateIn(h, s.loc, path, Increment(delta, number, show));
            ok ==>
              && Current(h, s.loc, path).Some? && number(delta).Some?
              && var v := Current(h, s.loc, path).value;
                 && (v == Nil || number(v).Some?)
                 && var sum := number(delta).value + if v == Nil then 0.0 else number(v).value;
                    && r.MapShape? && r.loc == s.loc && Fits(h', Ref(s.loc), r)
                    && D.Read(Erase(r), path) == Some(D.Scalar(show(delta, sum).shown))
                    && forall other :: D.Apart(path, other) ==> D.Read(Erase(r), other) == D.Read(Erase(s), other)
  {
    hide Fits, Separate, Holds, Erase, UpdateIn;
    MapFacts(h, s, path[0]);
    var leaf := Increment(delta, number, show);
    UpdateIsSet(h, s.loc, path, leaf);
    r := s;
    if UpdateIn(h, s.loc, path, leaf).1 {
      var w := leaf(Current(h, s.loc, path).value).value;
      var vs := ScalarShape(w.shown);
      ScalarFits(h, s, w.shown);
      r := SetRefines(h, s, path, w, vs);
      D.SetReadsBack(Erase(s), path, D.Scalar(w.shown), []);
      assert path + [] == path;
      forall other | D.Apart(path, other)
        ensures D.Read(Erase(r), other) == D.Read(Erase(s), other)
      {
        D.SetLeavesOthers(Erase(s), path, D.Scalar(w.shown), other);
      }
    }
  }

  lemma ScalarFits(h: Heap, s: Shape, shown: string)
    ensures Fits(h, Scalar(shown), ScalarShape(shown)) && Separate(ScalarShape(shown))
    ensures Disjoint(s, ScalarShape(shown)) && Erase(ScalarShape(shown)) == D.Scalar(shown)
  {
  }

  // ----- Any number of updates inside a region -----

  datatype Update = SetAt(path: Path, value: Val) | DeleteAt(path: Path)

  function UpdateOnce(h: Heap, m: Loc, u: Update): (r: (Heap, bool))
    requires Valid(h) && IsMap(h, m)
    ensures Valid(r.0) && h.next <= r.0.next
    ensures forall l :: IsMap(h, l) ==> IsMap(r.0, l)
  {
    if u.path == [] then (h, true)
    else
      match u
      case SetAt(path, v) => UpdateIn(h, m, path, Put(v))
      case DeleteAt(path) => (DeleteIn(h, m, path), true)
  }

  /** applyUpdates: in order, up to the first error. */
  function UpdateAll(h: Heap, m: Loc, updates: seq<Update>): (r: (Heap, bool))
    requires Valid(h) && IsMap(h, m)
    ensures Valid(r.0) && h.next <= r.0.next
    ensures forall l :: IsMap(h, l) ==> IsMap(r.0, l)
    decreases |updates|
  {
    if updates == [] then (h, true)
    else
      var r := UpdateOnce(h, m, updates[0]);
      if !r.1 then r else UpdateAll(r.0, m, updates[1..])
  }

  lemma UpdateOnceInRegion(h: Heap, m: Loc, u: Update, region: set<Loc>)
    requires Valid(h) && IsMap(h, m) && Closed(h, region) && m in region
    requires u.SetAt? ==> InRegion(u.value, region)
    ensures var h' := UpdateOnce(h, m, u).0;
            SameOutside(h, h', region) && Closed(h', Grown(region, h.next, h'.next))
  {
    assert Grown(region, h.next, h.next) == region;
    if u.path != [] {
      if u.SetAt? {
        UpdateStaysInRegion(h, m, u.path, Put(u.value), region);
      } else {
        DeleteStaysInRegion(h, m, u.path, region);
      }
    }
  }

  lemma {:induction false} UpdatesStayInRegion(h: Heap, m: Loc, updates: seq<Update>, region: set<Loc>)
    requires Valid(h) && IsMap(h, m) && Closed(h, region) && m in region
    requires forall i :: 0 <= i < |updates| && updates[i].SetAt? ==> InRegion(updates[i].value, region)
    ensures SameOutside(h, UpdateAll(h, m, updates).0, region)
    decreases |updates|
  {
    if updates != [] {
      var h1 := UpdateOnce(h, m, updates[0]).0;
      UpdateOnceInRegion(h, m, updates[0], region);
      var grown := Grown(region, h.next, h1.next);
      UpdatesStayInRegion(h1, m, updates[1..], grown);
      var h2 := UpdateAll(h1, m, updates[1..]).0;
      forall l: Loc | l in h.cells && l !in region
        ensures l in h2.cells && h2.cells[l] == h.cells[l]
      {
        assert l !in grown;
      }
    }
  }

  /** Every run of nested updates of a candidate leaves alone each value that shares no cell with what the
      candidate and the new values can reach, however those share cells among themselves. */
  lemma UpdatesSpareOthers(h: Heap, m: Loc, updates: seq<Update>, region: set<Loc>, v: Val, s: Shape)
    requires Valid(h) && IsMap(h, m) && Closed(h, region) && m in region
    requires forall i :: 0 <= i < |updates| && updates[i].SetAt? ==> InRegion(updates[i].value, region)
    requires Fits(h, v, s) && forall l: Loc :: l in region ==> !Holds(s, l)
    ensures Fits(UpdateAll(h, m, updates).0, v, s)
  {
    UpdatesStayInRegion(h, m, updates, region);
    FitsFrame(h, UpdateAll(h, m, updates).0, v, s);
  }

  /** Two candidates that were given the same map are not separate: updating one changes the other. Module
      Aliasing says exactly when that happens. */
  lemma SharedValueLeaks(h: Heap, a: Loc, b: Loc, shared: Loc, f: Field, g: Field)
    requires Valid(h) && a in h.cells && b in h.cells && shared in h.cells
    requires h.cells[a] == h.cells[b] == h.cells[shared] == MapBody(map[])
    requires a != b && a != shared && b != shared
    ensures var h1 := UpdateOnce(h, a, SetAt([f], Ref(shared))).0;
            var h2 := UpdateOnce(h1, b, SetAt([f], Ref(shared))).0;
            var h3 := UpdateOnce(h2, b, SetAt([f, g], Scalar("1"))).0;
            && Fits(h1, Ref(a), MapShape(a, map[f := MapShape(shared, map[])]))
            && Fits(h3, Ref(a), MapShape(a, map[f := MapShape(shared, map[g := ScalarShape("1")])]))
  {
    var h1 := Store(h, a, f, Ref(shared));
    assert UpdateOnce(h, a, SetAt([f], Ref(shared))).0 == h1;
    var h2 := Store(h1, b, f, Ref(shared));
    assert UpdateOnce(h1, b, SetAt([f], Ref(shared))).0 == h2;
    var h3 := Store(h2, shared, g, Scalar("1"));
    assert [f, g][1..] == [g];
    assert UpdateIn(h2, shared, [g], Put(Scalar("1"))) == (h3, true);
    assert Lookup(h2, b, f) == Ref(shared);
    assert UpdateOnce(h2, b, SetAt([f, g], Scalar("1"))).0 == h3;
    assert Fits(h1, Ref(shared), MapShape(shared, map[]));
    assert Fits(h3, Ref(shared), MapShape(shared, map[g := ScalarShape("1")]));
  }
}
