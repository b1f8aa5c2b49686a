/** The in-place field updates and the recursive clone as they run on the heap, and the images that a
    protected update prepares (tx_readwrite.go:377-516, protected.go:353-384 and 495-533). */
module ImageStore {
  import opened Common
  import opened Images
  import D = Documents

  /** No cell of the old heap has changed. */
  ghost predicate Extends(h: Heap, h': Heap)
  {
    h.next <= h'.next && forall l: Loc :: l in h.cells ==> l in h'.cells && h'.cells[l] == h.cells[l]
  }

  /** w, made since the heap ended at low, is a copy of what s describes. */
  ghost predicate Copy(h: Heap, w: Val, t: Shape, s: Shape, low: Loc)
  {
    && Fits(h, w, t) && Separate(t) && Erase(t) == Erase(s)
    && forall l: Loc :: Holds(t, l) ==> low <= l < h.next
  }

  lemma CopySurvives(h: Heap, h': Heap, w: Val, t: Shape, s: Shape, low: Loc)
    requires Copy(h, w, t, s, low) && h.next <= h'.next
    requires forall l: Loc :: low <= l < h.next && l in h.cells ==> l in h'.cells && h'.cells[l] == h.cells[l]
    ensures Copy(h', w, t, s, low)
  {
    FitsFrame(h, h', w, t);
  }

  lemma ExtendedFits(h: Heap, h': Heap, v: Val, s: Shape)
    requires Fits(h, v, s) && Extends(h, h')
    ensures Fits(h', v, s)
  {
    FitsFrame(h, h', v, s);
  }

  /** The state of the map loop: out holds copies of the entries done so far, in cells of their own. */
  ghost predicate MapCopies(h: Heap, out: map<Field, Val>, ts: map<Field, Shape>, fields: map<Field, Shape>, low: Loc)
  {
    && out.Keys == ts.Keys && ts.Keys <= fields.Keys
    && (forall f :: f in ts ==> Copy(h, out[f], ts[f], fields[f], low))
    && (forall f, g :: f in ts && g in ts && f != g ==> Disjoint(ts[f], ts[g]))
  }

  lemma MapCopiesGrow(h: Heap, h': Heap, out: map<Field, Val>, ts: map<Field, Shape>, fields: map<Field, Shape>, low: Loc,
                      f: Field, w: Val, t: Shape)
    requires MapCopies(h, out, ts, fields, low) && f in fields && f !in ts && low <= h.next <= h'.next
    requires forall l: Loc :: low <= l < h.next && l in h.cells ==> l in h'.cells && h'.cells[l] == h.cells[l]
    requires Copy(h', w, t, fields[f], h.next)
    ensures MapCopies(h', out[f := w], ts[f := t], fields, low)
  {
    hide Separate, Fits, Erase;
    forall g | g in ts
      ensures Copy(h', out[g], ts[g], fields[g], low)
      ensures Disjoint(ts[g], t) && Disjoint(t, ts[g])
    {
      CopySurvives(h, h', out[g], ts[g], fields[g], low);
    }
  }

  lemma MapCopiesClose(h: Heap, o: Loc, out: map<Field, Val>, ts: map<Field, Shape>, s: Shape)
    requires s.MapShape? && MapCopies(h, out, ts, s.fields, o + 1) && ts.Keys == s.fields.Keys
    requires o in h.cells && h.cells[o] == MapBody(out) && o < h.next
    ensures Copy(h, Ref(o), MapShape(o, ts), s, o)
  {
    assert Erase(MapShape(o, ts)).fields == Erase(s).fields;
  }

  ghost predicate ListCopies(h: Heap, out: seq<Val>, ts: seq<Shape>, items: seq<Shape>, low: Loc)
  {
    && |out| == |ts| <= |items|
    && (forall i :: 0 <= i < |ts| ==> Copy(h, out[i], ts[i], items[i], low))
    && (forall i, j :: 0 <= i < |ts| && 0 <= j < |ts| && i != j ==> Disjoint(ts[i], ts[j]))
  }

  lemma ListCopiesGrow(h: Heap, h': Heap, out: seq<Val>, ts: seq<Shape>, items: seq<Shape>, low: Loc, w: Val, t: Shape)
    requires ListCopies(h, out, ts, items, low) && |ts| < |items| && low <= h.next <= h'.next
    requires forall l: Loc :: low <= l < h.next && l in h.cells ==> l in h'.cells && h'.cells[l] == h.cells[l]
    requires Copy(h', w, t, items[|ts|], h.next)
    ensures ListCopies(h', out + [w], ts + [t], items, low)
  {
    hide Separate, Fits, Erase;
    forall i | 0 <= i < |ts|
      ensures Copy(h', out[i], ts[i], items[i], low)
      ensures Disjoint(ts[i], t) && Disjoint(t, ts[i])
    {
      CopySurvives(h, h', out[i], ts[i], items[i], low);
    }
  }

  lemma ListCopiesClose(h: Heap, o: Loc, out: seq<Val>, ts: seq<Shape>, s: Shape)
    requires s.ListShape? && ListCopies(h, out, ts, s.items, o + 1) && |ts| == |s.items|
    requires o in h.cells && h.cells[o] == ListBody(out) && o < h.next
    ensures Copy(h, Ref(o), ListShape(o, ts), s, o)
  {
    assert Erase(ListShape(o, ts)).items == Erase(s).items;
  }

  // ----- The candidate while it is updated -----

  /** Update i as a change of documents. */
  ghost function Changes(updates: seq<Update>, vs: seq<Shape>): seq<D.Change>
    requires |vs| == |updates|
  {
    seq(|updates|, i requires 0 <= i < |updates| =>
      match updates[i]
      case SetAt(path, _) => D.SetAt(path, Erase(vs[i]))
      case DeleteAt(path) => D.DeleteAt(path))
  }

  /** The new values are separate, from each other and from the pre-image. */
  ghost predicate ValuesApart(h: Heap, p: Shape, updates: seq<Update>, vs: seq<Shape>)
  {
    && |vs| == |updates|
    && (forall i :: 0 <= i < |vs| ==> Separate(vs[i]) && Disjoint(p, vs[i]))
    && (forall i :: 0 <= i < |vs| && updates[i].SetAt? ==> Fits(h, updates[i].value, vs[i]))
    && (forall i, j :: 0 <= i < j < |vs| ==> Disjoint(vs[i], vs[j]))
  }

  /** l is a cell of one of the first n values. */
  ghost predicate HeldByFirst(vs: seq<Shape>, n: nat, l: Loc)
  {
    exists j :: 0 <= j < n && j < |vs| && Holds(vs[j], l)
  }

  /** No cell has changed but those of the first n values. */
  ghost predicate Framed(h0: Heap, h: Heap, vs: seq<Shape>, n: nat)
  {
    forall l: Loc :: l in h0.cells && !HeldByFirst(vs, n, l) ==> l in h.cells && h.cells[l] == h0.cells[l]
  }

  /** After n updates the candidate is separate and denotes the document the updates define; it consists
      of new cells and of cells of the values put in so far, and no other cell has changed. */
  ghost predicate Working(h0: Heap, h: Heap, v: Val, c: Shape, p: Shape, updates: seq<Update>, vs: seq<Shape>, n: nat)
  {
    && |vs| == |updates| && n <= |updates| && h0.next <= h.next
    && c.MapShape? && v == Ref(c.loc) && Fits(h, v, c) && Separate(c)
    && D.AppliedAll(Erase(p), Changes(updates, vs)[..n]) == Some(Erase(c))
    && (forall l: Loc :: Holds(c, l) ==> l >= h0.next || HeldByFirst(vs, n, l))
    && Valid(h0) && Framed(h0, h, vs, n)
  }

  lemma WorkStarts(h0: Heap, h: Heap, v: Val, c: Shape, p: Shape, updates: seq<Update>, vs: seq<Shape>)
    requires Valid(h0) && Extends(h0, h) && Copy(h, v, c, p, h0.next) && p.MapShape? && |vs| == |updates|
    ensures Working(h0, h, v, c, p, updates, vs, 0)
  {
    assert Erase(c).Map?;
  }

  lemma WorkIsMap(h: Heap, v: Val, c: Shape)
    requires c.MapShape? && v == Ref(c.loc) && Fits(h, v, c)
    ensures IsMap(h, c.loc)
  {
  }

  lemma HeldGrows(vs: seq<Shape>, n: nat, l: Loc)
    requires HeldByFirst(vs, n, l)
    ensures HeldByFirst(vs, n + 1, l)
  {
  }

  lemma WorkKeepsPre(h0: Heap, h: Heap, p: Shape, pre: Loc, updates: seq<Update>, vs: seq<Shape>, n: nat)
    requires Framed(h0, h, vs, n) && ValuesApart(h0, p, updates, vs) && Fits(h0, Ref(pre), p)
    ensures Fits(h, Ref(pre), p)
  {
    FitsFrame(h0, h, Ref(pre), p);
  }

  lemma WorkSkips(h0: Heap, h: Heap, v: Val, c: Shape, p: Shape, updates: seq<Update>, vs: seq<Shape>, n: nat)
    requires Working(h0, h, v, c, p, updates, vs, n) && n < |updates| && updates[n].path == []
    ensures Working(h0, h, v, c, p, updates, vs, n + 1)
  {
    var changes := Changes(updates, vs);
    assert changes[..n + 1][..n] == changes[..n];
    forall l: Loc | HeldByFirst(vs, n, l)
      ensures HeldByFirst(vs, n + 1, l)
    {
      HeldGrows(vs, n, l);
    }
  }

  lemma WorkDeletes(h0: Heap, h: Heap, v: Val, c: Shape, p: Shape, updates: seq<Update>, vs: seq<Shape>, n: nat)
    requires Working(h0, h, v, c, p, updates, vs, n) && Valid(h) && n < |updates|
    requires updates[n].DeleteAt? && updates[n].path != [] && IsMap(h, c.loc)
    ensures Working(h0, DeleteIn(h, c.loc, updates[n].path), v, DeleteShape(c, updates[n].path), p, updates, vs, n + 1)
  {
    hide Fits, Separate, Erase, Holds, DeleteIn, DeleteShape;
    var path := updates[n].path;
    var changes := Changes(updates, vs);
    assert changes[..n + 1][..n] == changes[..n];
    DeleteFits(h, c, path);
    DeleteErases(c, path);
    DeleteKeepsSeparate(c, path);
    DeleteTouchesOnly(h, c, path);
    WorkFrame(h0, h, DeleteIn(h, c.loc, path), c, vs, n);
  }

  /** The next value shares no cell with the candidate and lies as it did at the start. */
  lemma NextValueIsApart(h0: Heap, h: Heap, v: Val, c: Shape, p: Shape, updates: seq<Update>, vs: seq<Shape>, n: nat)
    requires Working(h0, h, v, c, p, updates, vs, n) && ValuesApart(h0, p, updates, vs)
    requires n < |updates| && updates[n].SetAt?
    ensures Fits(h, updates[n].value, vs[n]) && Separate(vs[n]) && Disjoint(c, vs[n])
  {
    hide Fits, Separate, Erase, Holds;
    forall l: Loc | Holds(vs[n], l)
      ensures l < h0.next && !HeldByFirst(vs, n, l)
    {
      HeldIsAllocated(h0, updates[n].value, vs[n], l);
    }
    FitsFrame(h0, h, updates[n].value, vs[n]);
  }

  lemma WorkSets(h0: Heap, h: Heap, v: Val, c: Shape, p: Shape, updates: seq<Update>, vs: seq<Shape>, n: nat) returns (r: Shape)
    requires Working(h0, h, v, c, p, updates, vs, n) && Valid(h) && ValuesApart(h0, p, updates, vs)
    requires n < |updates| && updates[n].SetAt? && updates[n].path != [] && IsMap(h, c.loc)
    ensures UpdateIn(h, c.loc, updates[n].path, Put(updates[n].value)).1 <==>
              D.AppliedAll(Erase(p), Changes(updates, vs)[..n + 1]).Some?
    ensures UpdateIn(h, c.loc, updates[n].path, Put(updates[n].value)).1 ==>
              Working(h0, UpdateIn(h, c.loc, updates[n].path, Put(updates[n].value)).0, v, r, p, updates, vs, n + 1)
  {
    hide Fits, Separate, Erase, Holds, UpdateIn, ValuesApart;
    var path, w := updates[n].path, updates[n].value;
    var changes := Changes(updates, vs);
    assert changes[..n + 1][..n] == changes[..n];
    assert changes[n] == D.SetAt(path, Erase(vs[n]));
    NextValueIsApart(h0, h, v, c, p, updates, vs, n);
    r := SetRefines(h, c, path, w, vs[n]);
    UpdateTouchesOnly(h, c, path, Put(w));
    var h' := UpdateIn(h, c.loc, path, Put(w)).0;
    WorkFrame(h0, h, h', c, vs, n);
    if UpdateIn(h, c.loc, path, Put(w)).1 {
      forall l: Loc | Holds(r, l)
        ensures l >= h0.next || HeldByFirst(vs, n + 1, l)
      {
        assert Holds(vs[n], l) ==> HeldByFirst(vs, n + 1, l);
      }
    }
  }

  /** The evidence images are new, so they share nothing with what was there, nor with each other. */
  lemma EvidenceIsApart(h: Heap, v: Val, p: Shape, w: Val, c: Shape, h1: Heap, pv: Val, pt: Shape, h2: Heap, cv: Val, ct: Shape)
    requires Valid(h) && Fits(h, v, p) && Fits(h, w, c)
    requires Copy(h1, pv, pt, p, h.next) && h.next <= h1.next && Copy(h2, cv, ct, c, h1.next)
    ensures forall l: Loc :: (Holds(pt, l) ==> !Holds(p, l) && !Holds(c, l) && !Holds(ct, l))
                             && (Holds(ct, l) ==> !Holds(p, l) && !Holds(c, l))
  {
    HeldBelow(h, v, p);
    HeldBelow(h, w, c);
  }

  lemma FramedGrows(h0: Heap, h: Heap, vs: seq<Shape>, n: nat)
    requires Framed(h0, h, vs, n) && n <= |vs|
    ensures Framed(h0, h, vs, |vs|)
  {
  }

  lemma FramedExtends(h0: Heap, h: Heap, h': Heap, vs: seq<Shape>)
    requires Framed(h0, h, vs, |vs|) && Extends(h, h')
    ensures Framed(h0, h', vs, |vs|)
  {
  }

  lemma CopyIsNew(h: Heap, w: Val, t: Shape, s: Shape, low: Loc)
    requires Copy(h, w, t, s, low)
    ensures forall l: Loc :: Holds(t, l) ==> l >= low
  {
  }

  /** Changing only the candidate keeps the frame. */
  lemma WorkFrame(h0: Heap, h: Heap, h': Heap, c: Shape, vs: seq<Shape>, n: nat)
    requires Valid(h0) && Framed(h0, h, vs, n)
    requires forall l: Loc :: Holds(c, l) ==> l >= h0.next || HeldByFirst(vs, n, l)
    requires forall l: Loc :: l in h.cells && !Holds(c, l) ==> l in h'.cells && h'.cells[l] == h.cells[l]
    ensures Framed(h0, h', vs, n + 1)
    ensures forall l: Loc :: Holds(c, l) ==> l >= h0.next || HeldByFirst(vs, n + 1, l)
  {
    forall l: Loc | HeldByFirst(vs, n, l)
      ensures HeldByFirst(vs, n + 1, l)
    {
      HeldGrows(vs, n, l);
    }
  }

  class Memory {
    var heap: Heap

    constructor ()
      ensures heap == Heap(map[], 0)
    {
      heap := Heap(map[], 0);
    }

    /** The set branch of applyFieldUpdate. */
    method ApplyFieldUpdate(root: Loc, path: Path, v: Val) returns (ok: bool)
      requires path != [] && Valid(heap) && IsMap(heap, root)
      modifies this
      ensures (heap, ok) == UpdateIn(old(heap), root, path, Put(v))
      ensures !ok ==> heap == old(heap)
    {
      var m := root;
      for i := 0 to |path| - 1
        invariant Valid(heap) && IsMap(heap, m)
        invariant UpdateIn(heap, m, path[i..], Put(v)) == UpdateIn(old(heap), root, path, Put(v))
      {
        assert path[i..][1..] == path[i + 1..];
        var existing := Lookup(heap, m, path[i]);
        if existing == Nil {
          var child := heap.next;
          heap := StoreNewMap(heap, m, path[i]);
          m := child;
          continue;
        }
        if !PointsToMap(heap, existing) {
          FailedSetChangesNothing(old(heap), root, path, v);
          return false;
        }
        m := existing.loc;
      }
      heap := Store(heap, m, path[|path| - 1], v);
      return true;
    }

    method ApplyIncrement(root: Loc, path: Path, delta: Val, number: Val -> Option<real>, show: (Val, real) -> Val)
      returns (ok: bool)
      requires path != [] && Valid(heap) && IsMap(heap, root)
      modifies this
      ensures (heap, ok) == UpdateIn(old(heap), root, path, Increment(delta, number, show))
      ensures !ok && heap != old(heap) <==> number(delta).None? && Misses(old(heap), root, path)
    {
      var m := root;
      IncrementFailsDirtyIff(heap, root, path, delta, number, show);
      for i := 0 to |path| - 1
        invariant Valid(heap) && IsMap(heap, m)
        invariant UpdateIn(heap, m, path[i..], Increment(delta, number, show)) ==
                  UpdateIn(old(heap), root, path, Increment(delta, number, show))
      {
        assert path[i..][1..] == path[i + 1..];
        var existing := Lookup(heap, m, path[i]);
        if existing == Nil {
          var child := heap.next;
          heap := StoreNewMap(heap, m, path[i]);
          m := child;
          continue;
        }
        if !PointsToMap(heap, existing) {
          return false;
        }
        m := existing.loc;
      }
      var leaf := path[|path| - 1];
      var existing := Lookup(heap, m, leaf);
      var deltaF := number(delta);
      if deltaF.None? {
        return false;
      }
      var current := Some(0.0);
      if existing != Nil {
        current := number(existing);
        if current.None? {
          return false;
        }
      }
      heap := Store(heap, m, leaf, show(delta, current.value + deltaF.value));
      return true;
    }

    method ApplyDelete(root: Loc, path: Path)
      requires path != [] && IsMap(heap, root)
      modifies this
      ensures heap == DeleteIn(old(heap), root, path)
    {
      var m := root;
      for i := 0 to |path| - 1
        invariant IsMap(heap, m) && heap == old(heap)
        invariant DeleteIn(heap, m, path[i..]) == DeleteIn(old(heap), root, path)
      {
        assert path[i..][1..] == path[i + 1..];
        var existing := Lookup(heap, m, path[i]);
        if existing == Nil {
          return;
        }
        if !PointsToMap(heap, existing) {
          return;
        }
        m := existing.loc;
      }
      heap := heap.(cells := heap.cells[m := MapBody(heap.cells[m].entries - {path[|path| - 1]})]);
    }

    method ApplyUpdates(root: Loc, updates: seq<Update>) returns (ok: bool)
      requires Valid(heap) && IsMap(heap, root)
      modifies this
      ensures (heap, ok) == UpdateAll(old(heap), root, updates)
    {
      for i := 0 to |updates|
        invariant Valid(heap) && IsMap(heap, root)
        invariant UpdateAll(heap, root, updates[i..]) == UpdateAll(old(heap), root, updates)
      {
        assert updates[i..][1..] == updates[i + 1..];
        var u := updates[i];
        if |u.path| == 0 {
          continue;
        }
        match u {
          case DeleteAt(path) => ApplyDelete(root, path);
          case SetAt(path, v) =>
            var applied := ApplyFieldUpdate(root, path, v);
            if !applied {
              return false;
            }
        }
      }
      return true;
    }

    /** The images of a protected update of an existing record: the candidate is a clone of the
        pre-image, updated in place; the evidence holds clones of both. */
    method PrepareImages(pre: Loc, ghost p: Shape, updates: seq<Update>, ghost vs: seq<Shape>)
      returns (ok: bool, candidate: Val, preImage: Val, candidateImage: Val, ghost c: Shape, ghost pt: Shape, ghost ct: Shape)
      requires Valid(heap) && p.MapShape? && Fits(heap, Ref(pre), p) && IsMap(heap, pre)
      requires ValuesApart(heap, p, updates, vs)
      modifies this
      ensures Valid(heap) && Fits(heap, Ref(pre), p)
      ensures ok <==> D.AppliedAll(Erase(p), Changes(updates, vs)).Some?
      ensures ok ==> Fits(heap, candidate, c) && Some(Erase(c)) == D.AppliedAll(Erase(p), Changes(updates, vs))
      ensures ok ==> Fits(heap, preImage, pt) && Erase(pt) == Erase(p)
      ensures ok ==> Fits(heap, candidateImage, ct) && Erase(ct) == Erase(c)
      ensures ok ==> forall l: Loc :: (Holds(pt, l) ==> !Holds(p, l) && !Holds(c, l) && !Holds(ct, l))
                                      && (Holds(ct, l) ==> !Holds(p, l) && !Holds(c, l))
      ensures old(heap).next <= heap.next && Framed(old(heap), heap, vs, |vs|)
      ensures ok ==> forall l: Loc :: (Holds(c, l) ==> l >= old(heap).next || HeldByFirst(vs, |vs|, l))
                                      && (Holds(ct, l) ==> l >= old(heap).next)
    {
      hide Fits, Separate, Erase, Holds;
      candidate, preImage, candidateImage, ok := Nil, Nil, Nil, true;
      c, pt, ct := NilShape, NilShape, NilShape;
      ghost var h0 := heap;
      ghost var changes := Changes(updates, vs);
      candidate, c := CloneMap(pre, p);
      WorkStarts(h0, heap, candidate, c, p, updates, vs);
      for i := 0 to |updates|
        invariant Valid(heap) && Working(h0, heap, candidate, c, p, updates, vs, i)
      {
        assert changes[..i + 1][..i] == changes[..i];
        var u := updates[i];
        WorkIsMap(heap, candidate, c);
        ghost var before := heap;
        if |u.path| == 0 {
          WorkSkips(h0, heap, candidate, c, p, updates, vs, i);
          continue;
        }
        match u {
          case DeleteAt(path) =>
            ApplyDelete(candidate.loc, path);
            WorkDeletes(h0, before, candidate, c, p, updates, vs, i);
            c := DeleteShape(c, path);
          case SetAt(path, v) =>
            c := WorkSets(h0, before, candidate, c, p, updates, vs, i);
            var applied := ApplyFieldUpdate(candidate.loc, path, v);
            if !applied {
              D.FirstErrorStops(Erase(p), changes, i + 1);
              WorkKeepsPre(h0, before, p, pre, updates, vs, i);
              FramedGrows(h0, heap, vs, i);
              return false, Nil, Nil, Nil, NilShape, NilShape, NilShape;
            }
        }
      }
      assert changes[..|updates|] == changes;
      WorkKeepsPre(h0, heap, p, pre, updates, vs, |updates|);
      ghost var worked := heap;
      preImage, pt := CloneMap(pre, p);
      ExtendedFits(worked, heap, candidate, c);
      ghost var once := heap;
      candidateImage, ct := CloneImageValue(candidate, c);
      ExtendedFits(once, heap, preImage, pt);
      ExtendedFits(once, heap, candidate, c);
      ExtendedFits(worked, heap, Ref(pre), p);
      EvidenceIsApart(worked, Ref(pre), p, candidate, c, once, preImage, pt, heap, candidateImage, ct);
      FramedExtends(h0, worked, heap, vs);
      CopyIsNew(heap, candidateImage, ct, c, once.next);
    }

    /** cloneImageValue. */
    method CloneImageValue(v: Val, ghost s: Shape) returns (w: Val, ghost t: Shape)
      requires Valid(heap) && Fits(heap, v, s)
      modifies this
      ensures Valid(heap) && Extends(old(heap), heap)
      ensures Copy(heap, w, t, s, old(heap).next)
      decreases s, 1
    {
      if !v.Ref? {
        return v, s;
      }
      match heap.cells[v.loc] {
        case MapBody(_) => w, t := CloneMap(v.loc, s);
        case ListBody(_) => w, t := CloneList(v.loc, s);
        case BytesBody(bytes) =>
          var o := heap.next;
          heap := Heap(heap.cells[o := BytesBody(bytes)], o + 1);
          w, t := Ref(o), BytesShape(o, bytes);
      }
    }

    /** cloneMap of a map that is not nil; entries are visited in any order. */
    method CloneMap(m: Loc, ghost s: Shape) returns (w: Val, ghost t: Shape)
      requires Valid(heap) && Fits(heap, Ref(m), s) && s.MapShape? && IsMap(heap, m)
      modifies this
      ensures Valid(heap) && Extends(old(heap), heap)
      ensures Copy(heap, w, t, s, old(heap).next)
      decreases s, 0
    {
      hide Fits, Separate, Erase, Copy, Holds;
      var o := heap.next;
      heap := Heap(heap.cells[o := MapBody(map[])], o + 1);
      var entries := heap.cells[m].entries;
      EntriesFit(old(heap), m, s);
      var todo := entries.Keys;
      ghost var ts: map<Field, Shape> := map[];
      assert MapCopies(heap, map[], ts, s.fields, o + 1);
      assert Valid(heap) && Extends(old(heap), heap);
      hide Valid, Extends, Store, MapCopies;
      while todo != {}
        invariant todo <= entries.Keys == s.fields.Keys && Valid(heap) && Extends(old(heap), heap)
        invariant o < heap.next && IsMap(heap, o)
        invariant MapCopies(heap, heap.cells[o].entries, ts, s.fields, o + 1) && ts.Keys == entries.Keys - todo
        decreases todo
      {
        var f: Field :| f in todo;
        todo := todo - {f};
        ghost var before := heap;
        ExtendedFits(old(heap), heap, entries[f], s.fields[f]);
        var c, ct := CloneImageValue(entries[f], s.fields[f]);
        EntryCopied(old(heap), before, heap, o, f, c, ct, ts, s.fields);
        heap := Store(heap, o, f, c);
        ts := ts[f := ct];
      }
      w, t := Ref(o), MapShape(o, ts);
      MapCopiesClose(heap, o, heap.cells[o].entries, ts, s);
    }

    method CloneList(m: Loc, ghost s: Shape) returns (w: Val, ghost t: Shape)
      requires Valid(heap) && Fits(heap, Ref(m), s) && s.ListShape?
      modifies this
      ensures Valid(heap) && Extends(old(heap), heap)
      ensures Copy(heap, w, t, s, old(heap).next)
      decreases s, 0
    {
      var vals := heap.cells[m].vals;
      var o := heap.next;
      heap := Heap(heap.cells[o := ListBody([])], o + 1);
      ghost var ts: seq<Shape> := [];
      var out: seq<Val> := [];
      hide Fits, Separate, Erase, Copy, Holds;
      assert Valid(heap) && Extends(old(heap), heap) && ListCopies(heap, out, ts, s.items, o + 1);
      hide Valid, Extends, ListCopies;
      for i := 0 to |vals|
        invariant Valid(heap) && Extends(old(heap), heap)
        invariant o < heap.next && o in heap.cells && heap.cells[o] == ListBody(out)
        invariant ListCopies(heap, out, ts, s.items, o + 1) && |ts| == i
      {
        ghost var before := heap;
        ExtendedFits(old(heap), heap, vals[i], s.items[i]);
        var c, ct := CloneImageValue(vals[i], s.items[i]);
        ItemCopied(old(heap), before, heap, o, out, c, ct, ts, s.items);
        out := out + [c];
        heap := heap.(cells := heap.cells[o := ListBody(out)]);
        ts := ts + [ct];
      }
      w, t := Ref(o), ListShape(o, ts);
      ListCopiesClose(heap, o, out, ts, s);
    }
  }

  /** One round of the copying of a map: the copy of one more entry, made on the heap h, is stored. */
  lemma EntryCopied(h0: Heap, h: Heap, h1: Heap, o: Loc, f: Field, c: Val, ct: Shape, ts: map<Field, Shape>, fields: map<Field, Shape>)
    requires Valid(h0) && h0.next == o < h.next && Extends(h0, h) && IsMap(h, o)
    requires Valid(h1) && Extends(h, h1) && f in fields && f !in ts && Copy(h1, c, ct, fields[f], h.next)
    requires MapCopies(h, h.cells[o].entries, ts, fields, o + 1)
    ensures IsMap(h1, o)
    ensures var h2 := Store(h1, o, f, c);
            && Valid(h2) && Extends(h0, h2) && o < h2.next && IsMap(h2, o)
            && MapCopies(h2, h2.cells[o].entries, ts[f := ct], fields, o + 1)
  {
    hide Copy, MapCopies;
    StoreKeepsCopy(h1, o, f, c, ct, fields[f], h.next);
    MapCopiesGrow(h, Store(h1, o, f, c), h.cells[o].entries, ts, fields, o + 1, f, c, ct);
  }

  /** The same for a list. */
  lemma ItemCopied(h0: Heap, h: Heap, h1: Heap, o: Loc, out: seq<Val>, c: Val, ct: Shape, ts: seq<Shape>, items: seq<Shape>)
    requires Valid(h0) && h0.next == o < h.next && Extends(h0, h) && o in h.cells && h.cells[o] == ListBody(out)
    requires Valid(h1) && Extends(h, h1) && |ts| < |items| && Copy(h1, c, ct, items[|ts|], h.next)
    requires ListCopies(h, out, ts, items, o + 1)
    ensures o in h1.cells
    ensures var h2 := h1.(cells := h1.cells[o := ListBody(out + [c])]);
            Valid(h2) && Extends(h0, h2) && o < h2.next && ListCopies(h2, out + [c], ts + [ct], items, o + 1)
  {
    hide Copy, ListCopies;
    FillKeepsCopy(h1, o, ListBody(out + [c]), c, ct, items[|ts|], h.next);
    ListCopiesGrow(h, h1.(cells := h1.cells[o := ListBody(out + [c])]), out, ts, items, o + 1, c, ct);
  }

  lemma EntriesFit(h: Heap, m: Loc, s: Shape)
    requires s.MapShape? && Fits(h, Ref(m), s)
    ensures IsMap(h, m) && h.cells[m].entries.Keys == s.fields.Keys
    ensures forall f :: f in s.fields ==> Fits(h, h.cells[m].entries[f], s.fields[f])
  {
  }

  lemma FillKeepsCopy(h: Heap, o: Loc, body: Body, w: Val, t: Shape, s: Shape, low: Loc)
    requires o in h.cells && o < low && Copy(h, w, t, s, low)
    ensures Copy(h.(cells := h.cells[o := body]), w, t, s, low)
  {
    CopySurvives(h, h.(cells := h.cells[o := body]), w, t, s, low);
  }

  lemma StoreKeepsCopy(h: Heap, o: Loc, f: Field, w: Val, t: Shape, s: Shape, low: Loc)
    requires IsMap(h, o) && o < low && Copy(h, w, t, s, low)
    ensures Copy(Store(h, o, f, w), w, t, s, low)
  {
    CopySurvives(h, Store(h, o, f, w), w, t, s, low);
  }
}
