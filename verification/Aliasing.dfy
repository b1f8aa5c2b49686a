/** When an in-place update reaches another value (protected.go, tx_readwrite.go): an update writes to one
    cell that was there before, and changes exactly the values that hold it. */
module Aliasing {
  import opened Common
  import opened Images
  import D = Documents

  /** The last map that was there before, on the way down a path: the one cell an update writes to. */
  function Target(h: Heap, m: Loc, path: Path): (t: Loc)
    requires path != [] && IsMap(h, m)
    ensures IsMap(h, t)
    decreases |path|
  {
    var existing := Lookup(h, m, path[0]);
    if |path| > 1 && PointsToMap(h, existing) then Target(h, existing.loc, path[1..]) else m
  }

  lemma {:induction false} UpdateTouchesTarget(h: Heap, m: Loc, path: Path, leaf: Val -> Option<Val>)
    requires path != [] && Valid(h) && IsMap(h, m)
    ensures var h' := UpdateIn(h, m, path, leaf).0;
            forall l: Loc :: l in h.cells && l != Target(h, m, path) ==> l in h'.cells && h'.cells[l] == h.cells[l]
    decreases |path|
  {
    if |path| > 1 {
      var existing := Lookup(h, m, path[0]);
      if existing == Nil {
        NewCellsOnly(StoreNewMap(h, m, path[0]), h.next, path[1..], leaf, h.next);
      } else if PointsToMap(h, existing) {
        UpdateTouchesTarget(h, existing.loc, path[1..], leaf);
      }
    }
  }

  /** Below a map that was just made, only new cells are written to. */
  lemma {:induction false} NewCellsOnly(h: Heap, m: Loc, path: Path, leaf: Val -> Option<Val>, low: Loc)
    requires path != [] && Valid(h) && IsMap(h, m) && h.cells[m].entries == map[] && low <= m
    ensures var h' := UpdateIn(h, m, path, leaf).0;
            forall l: Loc :: l in h.cells && l < low ==> l in h'.cells && h'.cells[l] == h.cells[l]
    decreases |path|
  {
    if |path| > 1 {
      NewCellsOnly(StoreNewMap(h, m, path[0]), h.next, path[1..], leaf, low);
    }
  }

  lemma {:induction false} DeleteTouchesTarget(h: Heap, m: Loc, path: Path)
    requires path != [] && IsMap(h, m)
    ensures var h' := DeleteIn(h, m, path);
            forall l: Loc :: l in h.cells && l != Target(h, m, path) ==> h'.cells[l] == h.cells[l]
    decreases |path|
  {
    if |path| > 1 && PointsToMap(h, Lookup(h, m, path[0])) {
      DeleteTouchesTarget(h, Lookup(h, m, path[0]).loc, path[1..]);
    }
  }

  /** The target still holds the last field of the path, with this value, before the set. */
  predicate AlreadySet(h: Heap, m: Loc, path: Path, v: Val)
    requires path != [] && IsMap(h, m)
  {
    !Misses(h, m, path)
    && var entries := h.cells[Target(h, m, path)].entries;
       var last := path[|path| - 1];
       last in entries && entries[last] == v
  }

  /** A set that succeeds leaves its target alone exactly when it sets what is already there. */
  lemma {:induction false} SetChangesTargetIff(h: Heap, m: Loc, path: Path, v: Val)
    requires path != [] && Valid(h) && IsMap(h, m) && UpdateIn(h, m, path, Put(v)).1
    ensures var h' := UpdateIn(h, m, path, Put(v)).0;
            Target(h, m, path) in h'.cells
            && (h'.cells[Target(h, m, path)] == h.cells[Target(h, m, path)] <==> AlreadySet(h, m, path, v))
    decreases |path|
  {
    var existing := Lookup(h, m, path[0]);
    if |path| == 1 {
      var entries := h.cells[m].entries;
      if entries[path[0] := v] == entries {
        assert path[0] in entries[path[0] := v];
      }
    } else if existing == Nil {
      var h1 := StoreNewMap(h, m, path[0]);
      NewCellsOnly(h1, h.next, path[1..], Put(v), h.next);
      assert h1.cells[m].entries[path[0]] == Ref(h.next);
    } else {
      SetChangesTargetIff(h, existing.loc, path[1..], v);
      assert path[1..][|path| - 2] == path[|path| - 1];
    }
  }

  /** The descent of a delete ends at a map, and there is something to delete. */
  predicate Deletes(h: Heap, m: Loc, path: Path)
    requires path != [] && IsMap(h, m)
    decreases |path|
  {
    if |path| == 1 then path[0] in h.cells[m].entries
    else PointsToMap(h, Lookup(h, m, path[0])) && Deletes(h, Lookup(h, m, path[0]).loc, path[1..])
  }

  lemma {:induction false} DeleteChangesTargetIff(h: Heap, m: Loc, path: Path)
    requires path != [] && IsMap(h, m)
    ensures DeleteIn(h, m, path).cells[Target(h, m, path)] != h.cells[Target(h, m, path)] <==> Deletes(h, m, path)
    decreases |path|
  {
    if |path| == 1 {
      var entries := h.cells[m].entries;
      if path[0] !in entries {
        assert entries - {path[0]} == entries;
      }
    } else if PointsToMap(h, Lookup(h, m, path[0])) {
      DeleteChangesTargetIff(h, Lookup(h, m, path[0]).loc, path[1..]);
    }
  }

  // ----- Values and the cells they hold -----

  ghost function RootOf(s: Shape): Val {
    match s
    case NilShape => Nil
    case ScalarShape(shown) => Scalar(shown)
    case BytesShape(l, _) => Ref(l)
    case ListShape(l, _) => Ref(l)
    case MapShape(l, _) => Ref(l)
  }

  lemma FitsRoot(h: Heap, v: Val, s: Shape)
    requires Fits(h, v, s)
    ensures v == RootOf(s)
  {
  }

  /** Two heaps on which a value lies in the same way agree on all of its cells. */
  lemma {:induction false} FitsDetermines(h: Heap, h': Heap, v: Val, s: Shape, l: Loc)
    requires Fits(h, v, s) && Fits(h', v, s) && Holds(s, l)
    ensures l in h.cells && l in h'.cells && h'.cells[l] == h.cells[l]
    decreases s
  {
    match s
    case BytesShape(_, _) =>
    case ListShape(m, items) =>
      if l == m {
        forall i | 0 <= i < |items|
          ensures h'.cells[m].vals[i] == h.cells[m].vals[i]
        {
          FitsRoot(h, h.cells[m].vals[i], items[i]);
          FitsRoot(h', h'.cells[m].vals[i], items[i]);
        }
        assert h'.cells[m].vals == h.cells[m].vals;
      } else {
        var i :| 0 <= i < |items| && Holds(items[i], l);
        FitsRoot(h, h.cells[m].vals[i], items[i]);
        FitsRoot(h', h'.cells[m].vals[i], items[i]);
        FitsDetermines(h, h', h.cells[m].vals[i], items[i], l);
      }
    case MapShape(m, fields) =>
      forall f | f in fields
        ensures h'.cells[m].entries[f] == h.cells[m].entries[f] == RootOf(fields[f])
      {
        FitsRoot(h, h.cells[m].entries[f], fields[f]);
        FitsRoot(h', h'.cells[m].entries[f], fields[f]);
      }
      if l == m {
        assert h'.cells[m].entries == h.cells[m].entries;
      } else {
        var f :| f in fields && Holds(fields[f], l);
        FitsDetermines(h, h', h.cells[m].entries[f], fields[f], l);
      }
  }

  /** A change of one cell leaves a value as it lies exactly when the value does not hold the cell. */
  lemma OneCellChanges(h: Heap, h': Heap, t: Loc, w: Val, s: Shape)
    requires Fits(h, w, s) && t in h.cells
    requires forall l: Loc :: l in h.cells && l != t ==> l in h'.cells && h'.cells[l] == h.cells[l]
    ensures Fits(h', w, s) <==> !Holds(s, t) || (t in h'.cells && h'.cells[t] == h.cells[t])
  {
    if Fits(h', w, s) && Holds(s, t) {
      FitsDetermines(h, h', w, s, t);
    }
    if !Holds(s, t) || (t in h'.cells && h'.cells[t] == h.cells[t]) {
      FitsFrame(h, h', w, s);
    }
  }

  /** An update that takes effect on a cell of the value. */
  ghost predicate Hits(h: Heap, m: Loc, u: Update, s: Shape)
    requires Valid(h) && IsMap(h, m)
  {
    && u.path != [] && Holds(s, Target(h, m, u.path))
    && if u.SetAt? then UpdateIn(h, m, u.path, Put(u.value)).1 && !AlreadySet(h, m, u.path, u.value)
       else Deletes(h, m, u.path)
  }

  /** An update of one document, anywhere on the heap, changes another value exactly when the map it writes to
      is one of that value's cells and the write makes a difference. */
  lemma UpdateSparesIff(h: Heap, m: Loc, u: Update, w: Val, s: Shape)
    requires Valid(h) && IsMap(h, m) && Fits(h, w, s)
    ensures Fits(UpdateOnce(h, m, u).0, w, s) <==> !Hits(h, m, u, s)
  {
    hide Fits, Holds;
    if u.path != [] {
      var t := Target(h, m, u.path);
      var h' := UpdateOnce(h, m, u).0;
      if u.SetAt? {
        UpdateTouchesTarget(h, m, u.path, Put(u.value));
        if UpdateIn(h, m, u.path, Put(u.value)).1 {
          SetChangesTargetIff(h, m, u.path, u.value);
        } else {
          FailedSetChangesNothing(h, m, u.path, u.value);
        }
      } else {
        DeleteTouchesTarget(h, m, u.path);
        DeleteChangesTargetIff(h, m, u.path);
      }
      OneCellChanges(h, h', t, w, s);
    }
  }

  // ----- Everything that happens after an image was taken -----

  /** Later work: an update of some document, or new cells made by clones and reads. */
  datatype Edit = EditAt(root: Loc, u: Update) | Grow(cells: map<Loc, Body>, next: Loc)

  predicate Fresh(h: Heap, e: Edit) {
    e.Grow? && h.next <= e.next && forall l :: l in e.cells ==> h.next <= l < e.next
  }

  function EditOnce(h: Heap, e: Edit): (h': Heap)
    requires Valid(h)
    ensures Valid(h')
  {
    match e
    case EditAt(root, u) => if IsMap(h, root) then UpdateOnce(h, root, u).0 else h
    case Grow(cells, next) => if Fresh(h, e) then Heap(h.cells + cells, next) else h
  }

  /** The value lies as it did after every one of the edits. */
  ghost predicate AlwaysFits(h: Heap, edits: seq<Edit>, w: Val, s: Shape)
    requires Valid(h)
    decreases |edits|
  {
    Fits(h, w, s) && (edits != [] ==> AlwaysFits(EditOnce(h, edits[0]), edits[1..], w, s))
  }

  ghost predicate NeverHit(h: Heap, edits: seq<Edit>, s: Shape)
    requires Valid(h)
    decreases |edits|
  {
    edits != [] ==>
      && !(edits[0].EditAt? && IsMap(h, edits[0].root) && Hits(h, edits[0].root, edits[0].u, s))
      && NeverHit(EditOnce(h, edits[0]), edits[1..], s)
  }

  lemma EditSparesIff(h: Heap, e: Edit, w: Val, s: Shape)
    requires Valid(h) && Fits(h, w, s)
    ensures Fits(EditOnce(h, e), w, s) <==> !(e.EditAt? && IsMap(h, e.root) && Hits(h, e.root, e.u, s))
  {
    if e.EditAt? {
      if IsMap(h, e.root) {
        UpdateSparesIff(h, e.root, e.u, w, s);
      }
    } else if Fresh(h, e) {
      FitsFrame(h, EditOnce(h, e), w, s);
    }
  }

  /** A candidate goes on denoting the image that was taken of it, through everything later operations of the
      batch do, exactly when none of their updates writes to one of its cells. */
  lemma {:induction false} ImageHoldsIff(h: Heap, edits: seq<Edit>, w: Val, s: Shape)
    requires Valid(h) && Fits(h, w, s)
    ensures AlwaysFits(h, edits, w, s) <==> NeverHit(h, edits, s)
    decreases |edits|
  {
    hide Fits, Hits, EditOnce;
    if edits != [] {
      EditSparesIff(h, edits[0], w, s);
      if Fits(EditOnce(h, edits[0]), w, s) {
        ImageHoldsIff(EditOnce(h, edits[0]), edits[1..], w, s);
      }
    }
  }

  // ----- Sets on documents that share cells -----

  /** A value lies on a heap in one way only. */
  lemma {:induction false} FitsUnique(h: Heap, v: Val, a: Shape, b: Shape)
    requires Fits(h, v, a) && Fits(h, v, b)
    ensures a == b
    decreases a
  {
    match a
    case ListShape(l, items) =>
      forall i | 0 <= i < |items|
        ensures items[i] == b.items[i]
      {
        FitsUnique(h, h.cells[l].vals[i], items[i], b.items[i]);
      }
    case MapShape(l, fields) =>
      forall f | f in fields
        ensures fields[f] == b.fields[f]
      {
        FitsUnique(h, h.cells[l].entries[f], fields[f], b.fields[f]);
      }
      assert fields == b.fields;
    case _ =>
  }

  /** The part of a value that lies at one of its cells. */
  lemma {:induction false} PartAt(h: Heap, v: Val, s: Shape, t: Loc) returns (part: Shape)
    requires Fits(h, v, s) && Holds(s, t)
    ensures (part == s || part < s) && Fits(h, Ref(t), part)
    decreases s
  {
    part := s;
    match s
    case ListShape(l, items) =>
      if l != t {
        var i :| 0 <= i < |items| && Holds(items[i], t);
        part := PartAt(h, h.cells[l].vals[i], items[i], t);
        assert items[i] < s;
      }
    case MapShape(l, fields) =>
      if l != t {
        var f :| f in fields && Holds(fields[f], t);
        part := PartAt(h, h.cells[l].entries[f], fields[f], t);
        assert fields[f] < s;
      }
    case _ =>
  }

  /** No map is inside itself. */
  lemma NotInsideItself(h: Heap, s: Shape, f: Field)
    requires s.MapShape? && Fits(h, Ref(s.loc), s) && f in s.fields
    ensures !Holds(s.fields[f], s.loc)
  {
    if Holds(s.fields[f], s.loc) {
      var part := PartAt(h, h.cells[s.loc].entries[f], s.fields[f], s.loc);
      FitsUnique(h, Ref(s.loc), part, s);
    }
  }

  /** The value with what lies at t replaced everywhere. */
  ghost function Replace(s: Shape, t: Loc, n: Shape): Shape
    decreases s
  {
    match s
    case ListShape(l, items) => ListShape(l, seq(|items|, i requires 0 <= i < |items| => Replace(items[i], t, n)))
    case MapShape(l, fields) => if l == t then n else MapShape(l, map f | f in fields :: Replace(fields[f], t, n))
    case _ => s
  }

  /** When only the cell t changes, and then lies as n, every value lies with n in place of what was there. */
  lemma {:induction false} ReplacedFits(h: Heap, h': Heap, t: Loc, n: Shape, v: Val, s: Shape)
    requires Fits(h, v, s) && IsMap(h, t) && Fits(h', Ref(t), n)
    requires forall l: Loc :: l in h.cells && l != t ==> l in h'.cells && h'.cells[l] == h.cells[l]
    ensures Fits(h', v, Replace(s, t, n))
    decreases s
  {
    match s
    case ListShape(l, items) =>
      forall i | 0 <= i < |items|
        ensures Fits(h', h.cells[l].vals[i], Replace(items[i], t, n))
      {
        ReplacedFits(h, h', t, n, h.cells[l].vals[i], items[i]);
      }
    case MapShape(l, fields) =>
      if l != t {
        forall f | f in fields
          ensures Fits(h', h.cells[l].entries[f], Replace(fields[f], t, n))
        {
          ReplacedFits(h, h', t, n, h.cells[l].entries[f], fields[f]);
        }
      }
    case _ =>
  }

  /** What is left of the path at the target. */
  function Rest(h: Heap, m: Loc, path: Path): (rest: Path)
    requires path != [] && IsMap(h, m)
    ensures rest != []
    decreases |path|
  {
    var existing := Lookup(h, m, path[0]);
    if |path| > 1 && PointsToMap(h, existing) then Rest(h, existing.loc, path[1..]) else path
  }

  /** An update is the update of its target. */
  lemma {:induction false} UpdateAtTarget(h: Heap, m: Loc, path: Path, leaf: Val -> Option<Val>)
    requires path != [] && Valid(h) && IsMap(h, m)
    ensures UpdateIn(h, m, path, leaf) == UpdateIn(h, Target(h, m, path), Rest(h, m, path), leaf)
    ensures Target(h, Target(h, m, path), Rest(h, m, path)) == Target(h, m, path)
    decreases |path|
  {
    var existing := Lookup(h, m, path[0]);
    if |path| > 1 && PointsToMap(h, existing) {
      UpdateAtTarget(h, existing.loc, path[1..], leaf);
    }
  }

  /** The part of a document at the target of a path. */
  lemma {:induction false} TargetPart(h: Heap, s: Shape, path: Path) returns (part: Shape)
    requires path != [] && s.MapShape? && Fits(h, Ref(s.loc), s)
    ensures IsMap(h, s.loc) && part.MapShape? && part.loc == Target(h, s.loc, path) && Fits(h, Ref(part.loc), part)
    decreases |path|
  {
    MapFacts(h, s, path[0]);
    part := s;
    if |path| > 1 && PointsToMap(h, Lookup(h, s.loc, path[0])) {
      part := TargetPart(h, s.fields[path[0]], path[1..]);
    }
  }

  lemma OthersAtTargetFit(h: Heap, h': Heap, s: Shape)
    requires s.MapShape? && Fits(h, Ref(s.loc), s)
    requires forall l: Loc :: l in h.cells && l != s.loc ==> l in h'.cells && h'.cells[l] == h.cells[l]
    ensures forall g :: g in s.fields ==> Fits(h', h.cells[s.loc].entries[g], s.fields[g])
  {
    forall g | g in s.fields
      ensures Fits(h', h.cells[s.loc].entries[g], s.fields[g])
    {
      NotInsideItself(h, s, g);
      FitsFrame(h, h', h.cells[s.loc].entries[g], s.fields[g]);
    }
  }

  lemma MapWith(h: Heap, h': Heap, s: Shape, f: Field, w: Val, child: Shape)
    requires s.MapShape? && Fits(h, Ref(s.loc), s) && Fits(h', w, child)
    requires IsMap(h', s.loc) && h'.cells[s.loc].entries == h.cells[s.loc].entries[f := w]
    requires forall g :: g in s.fields ==> Fits(h', h.cells[s.loc].entries[g], s.fields[g])
    ensures Fits(h', Ref(s.loc), MapShape(s.loc, s.fields[f := child]))
  {
  }

  lemma SetLeafAtTarget(h: Heap, s: Shape, path: Path, v: Val, vs: Shape)
    requires |path| == 1 && s.MapShape? && Valid(h) && Fits(h, Ref(s.loc), s) && Fits(h, v, vs) && !Holds(vs, s.loc)
    requires IsMap(h, s.loc)
    ensures SetShape(s, path, vs, h.next).Some?
    ensures Fits(UpdateIn(h, s.loc, path, Put(v)).0, Ref(s.loc), SetShape(s, path, vs, h.next).value)
  {
    hide Fits, Holds;
    var h' := Store(h, s.loc, path[0], v);
    MapFacts(h, s, path[0]);
    OthersAtTargetFit(h, h', s);
    FitsFrame(h, h', v, vs);
    MapWith(h, h', s, path[0], v, vs);
  }

  /** Below the target only new maps are made, and they are separate. */
  lemma NewMapsFit(h: Heap, m: Loc, f: Field, rest: Path, v: Val, vs: Shape)
    requires rest != [] && Valid(h) && IsMap(h, m) && Fits(h, v, vs) && !Holds(vs, m)
    ensures var h1 := StoreNewMap(h, m, f);
            var child := SetShape(MapShape(h.next, map[]), rest, vs, h.next + 1);
            && child.Some? && child.value.MapShape? && child.value.loc == h.next
            && Fits(UpdateIn(h1, h.next, rest, Put(v)).0, Ref(h.next), child.value)
  {
    hide Fits, Holds, UpdateIn, SetShape;
    var h1 := StoreNewMap(h, m, f);
    NewMapFits(h, m, f);
    FreshIsApart(h, v, vs);
    FitsFrame(h, h1, v, vs);
    SetFits(h1, MapShape(h.next, map[]), rest, v, vs);
    FreshDescent(h1, h.next, rest, Put(v));
  }

  lemma SetNewMapAtTarget(h: Heap, s: Shape, path: Path, v: Val, vs: Shape)
    requires |path| > 1 && s.MapShape? && Valid(h) && Fits(h, Ref(s.loc), s) && Fits(h, v, vs) && !Holds(vs, s.loc)
    requires IsMap(h, s.loc) && Lookup(h, s.loc, path[0]) == Nil
    ensures SetShape(s, path, vs, h.next).Some?
    ensures Fits(UpdateIn(h, s.loc, path, Put(v)).0, Ref(s.loc), SetShape(s, path, vs, h.next).value)
  {
    hide Fits, Holds, UpdateIn, SetShape;
    var f := path[0];
    var h1 := StoreNewMap(h, s.loc, f);
    MapFacts(h, s, f);
    NewMapStep(h, s, path, Put(v), vs);
    NewMapsFit(h, s.loc, f, path[1..], v, vs);
    NewCellsOnly(h1, h.next, path[1..], Put(v), h.next);
    var h' := UpdateIn(h1, h.next, path[1..], Put(v)).0;
    OthersAtTargetFit(h, h', s);
    MapWith(h, h', s, f, Ref(h.next), SetShape(MapShape(h.next, map[]), path[1..], vs, h.next + 1).value);
  }

  /** At the target, the set lays out the map that it defines, shared or not. */
  lemma SetAtTarget(h: Heap, s: Shape, path: Path, v: Val, vs: Shape)
    requires path != [] && s.MapShape? && Valid(h) && Fits(h, Ref(s.loc), s) && Fits(h, v, vs) && !Holds(vs, s.loc)
    requires IsMap(h, s.loc) && (|path| == 1 || !PointsToMap(h, Lookup(h, s.loc, path[0])))
    requires UpdateIn(h, s.loc, path, Put(v)).1
    ensures SetShape(s, path, vs, h.next).Some?
    ensures Fits(UpdateIn(h, s.loc, path, Put(v)).0, Ref(s.loc), SetShape(s, path, vs, h.next).value)
  {
    if |path| == 1 {
      SetLeafAtTarget(h, s, path, v, vs);
    } else {
      SetNewMapAtTarget(h, s, path, v, vs);
    }
  }

  // ----- When it is the set on the document -----

  /** The cell t is reached by a way that does not follow the path. */
  ghost predicate Elsewhere(s: Shape, path: Path, t: Loc)
    requires path != [] && s.MapShape?
    decreases |path|
  {
    s.loc != t
    && ((exists g :: g in s.fields && g != path[0] && Holds(s.fields[g], t))
        || (|path| > 1 && path[0] in s.fields && s.fields[path[0]].MapShape? && Elsewhere(s.fields[path[0]], path[1..], t)))
  }

  /** Replacing a part changes the document exactly when the part is there and the two denote different ones. */
  lemma {:induction false} ReplaceChangesIff(h: Heap, v: Val, s: Shape, part: Shape, n: Shape)
    requires Fits(h, v, s) && part.MapShape? && Fits(h, Ref(part.loc), part)
    ensures Erase(Replace(s, part.loc, n)) == Erase(s) <==> !Holds(s, part.loc) || Erase(n) == Erase(part)
    decreases s
  {
    var t := part.loc;
    match s
    case ListShape(l, items) =>
      forall i | 0 <= i < |items|
        ensures Erase(Replace(items[i], t, n)) == Erase(items[i]) <==> !Holds(items[i], t) || Erase(n) == Erase(part)
      {
        ReplaceChangesIff(h, h.cells[l].vals[i], items[i], part, n);
      }
      ListChangesIff(s, t, n);
    case MapShape(l, fields) =>
      if l == t {
        FitsUnique(h, v, s, part);
      } else {
        forall f | f in fields
          ensures Erase(Replace(fields[f], t, n)) == Erase(fields[f]) <==> !Holds(fields[f], t) || Erase(n) == Erase(part)
        {
          ReplaceChangesIff(h, h.cells[l].entries[f], fields[f], part, n);
        }
        MapChangesIff(s, t, n);
      }
    case _ =>
  }

  lemma ListChangesIff(s: Shape, t: Loc, n: Shape)
    requires s.ListShape?
    ensures Erase(Replace(s, t, n)) == Erase(s) <==>
            forall i :: 0 <= i < |s.items| ==> Erase(Replace(s.items[i], t, n)) == Erase(s.items[i])
  {
    var a, b := Erase(Replace(s, t, n)).items, Erase(s).items;
    assert |a| == |b| == |s.items|;
    assert forall i :: 0 <= i < |s.items| ==> a[i] == Erase(Replace(s.items[i], t, n)) && b[i] == Erase(s.items[i]);
    if forall i :: 0 <= i < |s.items| ==> Erase(Replace(s.items[i], t, n)) == Erase(s.items[i]) {
      assert a == b;
    }
  }

  lemma MapChangesIff(s: Shape, t: Loc, n: Shape)
    requires s.MapShape? && s.loc != t
    ensures Erase(Replace(s, t, n)) == Erase(s) <==>
            forall f :: f in s.fields ==> Erase(Replace(s.fields[f], t, n)) == Erase(s.fields[f])
  {
    MapErases(s, t, n);
    hide Erase, Replace;
    var a, b := Erase(Replace(s, t, n)), Erase(s);
    if forall f :: f in s.fields ==> Erase(Replace(s.fields[f], t, n)) == Erase(s.fields[f]) {
      assert a.fields == b.fields;
    }
  }

  lemma MapErases(s: Shape, t: Loc, n: Shape)
    requires s.MapShape? && s.loc != t
    ensures Erase(s).Map? && Erase(Replace(s, t, n)).Map?
    ensures Erase(s).fields.Keys == Erase(Replace(s, t, n)).fields.Keys == s.fields.Keys
    ensures forall g :: g in s.fields ==>
              Erase(Replace(s, t, n)).fields[g] == Erase(Replace(s.fields[g], t, n)) && Erase(s).fields[g] == Erase(s.fields[g])
  {
  }

  lemma SetPutsChild(b: D.Tree, path: Path, x: D.Tree)
    requires |path| > 1 && b.Map? && path[0] in b.fields && b.fields[path[0]].Map?
    ensures D.Set(b, path, x) ==
            var child := D.Set(b.fields[path[0]], path[1..], x);
            if child.None? then None else Some(D.Map(b.fields[path[0] := child.value]))
  {
    assert D.Below(b, path[0]) == b.fields[path[0]];
  }

  /** One level of the comparison: the branches off the path must stay, the one on it must be the set. */
  lemma LevelAgreesIff(s: Shape, path: Path, x: D.Tree, t: Loc, n: Shape)
    requires |path| > 1 && s.MapShape? && s.loc != t && path[0] in s.fields && s.fields[path[0]].MapShape?
    ensures Some(Erase(Replace(s, t, n))) == D.Set(Erase(s), path, x) <==>
            && (forall g :: g in s.fields && g != path[0] ==> Erase(Replace(s.fields[g], t, n)) == Erase(s.fields[g]))
            && Some(Erase(Replace(s.fields[path[0]], t, n))) == D.Set(Erase(s.fields[path[0]]), path[1..], x)
    ensures D.Set(Erase(s), path, x) == Some(Erase(s)) <==>
            D.Set(Erase(s.fields[path[0]]), path[1..], x) == Some(Erase(s.fields[path[0]]))
  {
    var f := path[0];
    MapErases(s, t, n);
    assert Erase(s.fields[f]).Map?;
    hide Erase, Replace;
    LevelOfTrees(Erase(Replace(s, t, n)), Erase(s), path, x);
    LevelOfTrees(Erase(s), Erase(s), path, x);
    hide D.Set;
  }

  lemma LevelOfTrees(a: D.Tree, b: D.Tree, path: Path, x: D.Tree)
    requires |path| > 1 && a.Map? && b.Map? && a.fields.Keys == b.fields.Keys && path[0] in b.fields && b.fields[path[0]].Map?
    ensures Some(a) == D.Set(b, path, x) <==>
            && (forall g :: g in b.fields && g != path[0] ==> a.fields[g] == b.fields[g])
            && Some(a.fields[path[0]]) == D.Set(b.fields[path[0]], path[1..], x)
  {
    SetPutsChild(b, path, x);
    var child := D.Set(b.fields[path[0]], path[1..], x);
    hide D.Set;
    if child.Some? {
      PutAgreesIff(a.fields, b.fields, path[0], child.value);
    }
  }

  lemma PutAgreesIff(a: map<Field, D.Tree>, b: map<Field, D.Tree>, f: Field, x: D.Tree)
    requires a.Keys == b.Keys && f in b
    ensures a == b[f := x] <==> (forall g :: g in b && g != f ==> a[g] == b[g]) && a[f] == x
  {
    if a == b[f := x] {
      assert forall g :: g in b && g != f ==> a[g] == b[f := x][g];
    }
  }

  lemma {:induction false} ReplacedIsSetIff(h: Heap, s: Shape, path: Path, part: Shape, n: Shape, x: D.Tree)
    requires path != [] && s.MapShape? && Fits(h, Ref(s.loc), s) && IsMap(h, s.loc)
    requires part.MapShape? && part.loc == Target(h, s.loc, path) && Fits(h, Ref(part.loc), part)
    requires D.Set(Erase(part), Rest(h, s.loc, path), x) == Some(Erase(n))
    ensures D.Set(Erase(s), path, x).Some?
    ensures D.Set(Erase(s), path, x) == Some(Erase(s)) <==> Erase(n) == Erase(part)
    ensures Some(Erase(Replace(s, part.loc, n))) == D.Set(Erase(s), path, x) <==>
            !Elsewhere(s, path, part.loc) || Erase(n) == Erase(part)
    decreases |path|
  {
    hide Fits, Erase, Replace;
    MapFacts(h, s, path[0]);
    var existing := Lookup(h, s.loc, path[0]);
    if |path| > 1 && PointsToMap(h, existing) {
      var c := s.fields[path[0]];
      ReplacedIsSetIff(h, c, path[1..], part, n, x);
      TargetIsBelow(h, s, path);
      LevelAgreesIff(s, path, x, part.loc, n);
      forall g | g in s.fields
        ensures Erase(Replace(s.fields[g], part.loc, n)) == Erase(s.fields[g]) <==> !Holds(s.fields[g], part.loc) || Erase(n) == Erase(part)
      {
        MapFacts(h, s, g);
        ReplaceChangesIff(h, Lookup(h, s.loc, g), s.fields[g], part, n);
      }
      SetNeedsChild(s, path, x);
    } else {
      FitsUnique(h, Ref(s.loc), s, part);
      ReplaceWhole(s, n);
    }
  }

  lemma SetNeedsChild(s: Shape, path: Path, x: D.Tree)
    requires |path| > 1 && s.MapShape? && path[0] in s.fields && s.fields[path[0]].MapShape?
    requires D.Set(Erase(s.fields[path[0]]), path[1..], x).Some?
    ensures D.Set(Erase(s), path, x).Some?
  {
    assert D.Below(Erase(s), path[0]) == Erase(s.fields[path[0]]);
  }

  lemma ReplaceWhole(s: Shape, n: Shape)
    requires s.MapShape?
    ensures Replace(s, s.loc, n) == n
  {
  }

  /** The target of a path that goes on is not the map it starts from. */
  lemma TargetIsBelow(h: Heap, s: Shape, path: Path)
    requires |path| > 1 && s.MapShape? && Fits(h, Ref(s.loc), s) && IsMap(h, s.loc) && PointsToMap(h, Lookup(h, s.loc, path[0]))
    ensures Target(h, s.loc, path) != s.loc
  {
    MapFacts(h, s, path[0]);
    TargetIsHeld(h, s.fields[path[0]], path[1..]);
    NotInsideItself(h, s, path[0]);
  }

  lemma {:induction false} TargetIsHeld(h: Heap, s: Shape, path: Path)
    requires path != [] && s.MapShape? && Fits(h, Ref(s.loc), s)
    ensures IsMap(h, s.loc) && Holds(s, Target(h, s.loc, path))
    decreases |path|
  {
    MapFacts(h, s, path[0]);
    if |path| > 1 && PointsToMap(h, Lookup(h, s.loc, path[0])) {
      TargetIsHeld(h, s.fields[path[0]], path[1..]);
    }
  }

  /** In place, on a document that may share cells: a set that succeeds leaves the document that the set defines exactly
      when the map it writes to is reached by no other way, or the set makes no difference to the document. */
  lemma SharedSetIff(h: Heap, s: Shape, path: Path, v: Val, vs: Shape) returns (r: Shape)
    requires path != [] && s.MapShape? && Valid(h) && Fits(h, Ref(s.loc), s) && Fits(h, v, vs)
    requires IsMap(h, s.loc) && !Holds(vs, Target(h, s.loc, path)) && UpdateIn(h, s.loc, path, Put(v)).1
    ensures Fits(UpdateIn(h, s.loc, path, Put(v)).0, Ref(s.loc), r)
    ensures D.Set(Erase(s), path, Erase(vs)).Some?
    ensures Erase(r) == D.Set(Erase(s), path, Erase(vs)).value <==>
            !Elsewhere(s, path, Target(h, s.loc, path)) || D.Set(Erase(s), path, Erase(vs)) == Some(Erase(s))
  {
    hide Fits, Holds, Erase, UpdateIn, SetShape, Replace, Elsewhere;
    var t, rest := Target(h, s.loc, path), Rest(h, s.loc, path);
    var part := TargetPart(h, s, path);
    UpdateAtTarget(h, s.loc, path, Put(v));
    RestStops(h, s.loc, path);
    SetAtTarget(h, part, rest, v, vs);
    SetErases(part, rest, vs, h.next);
    var n := SetShape(part, rest, vs, h.next).value;
    UpdateTouchesTarget(h, s.loc, path, Put(v));
    ReplacedFits(h, UpdateIn(h, s.loc, path, Put(v)).0, t, n, Ref(s.loc), s);
    ReplacedIsSetIff(h, s, path, part, n, Erase(vs));
    r := Replace(s, t, n);
  }

  lemma {:induction false} RestStops(h: Heap, m: Loc, path: Path)
    requires path != [] && IsMap(h, m)
    ensures |Rest(h, m, path)| == 1 || !PointsToMap(h, Lookup(h, Target(h, m, path), Rest(h, m, path)[0]))
    decreases |path|
  {
    var existing := Lookup(h, m, path[0]);
    if |path| > 1 && PointsToMap(h, existing) {
      RestStops(h, existing.loc, path[1..]);
    }
  }
}
