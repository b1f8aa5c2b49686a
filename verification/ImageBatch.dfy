/** The images of a whole protected batch (protected.go): evidence is cloned operation by operation while
    later operations go on editing. */
module ImageBatch {
  import opened Common
  import opened Images
  import opened ImageStore
  import D = Documents

  /** l is a cell of a new value of one of the first n operations. */
  ghost predicate HeldByOps(vss: seq<seq<Shape>>, n: nat, l: Loc)
  {
    exists j :: 0 <= j < n && j < |vss| && HeldByFirst(vss[j], |vss[j]|, l)
  }

  /** The pre-images and new values of the operations from n on, as they lie on the heap. */
  ghost predicate InputsLie(h: Heap, pres: seq<Loc>, ps: seq<Shape>, updates: seq<seq<Update>>, vss: seq<seq<Shape>>, n: nat)
  {
    && |pres| == |ps| == |updates| == |vss|
    && (forall i :: n <= i < |pres| ==>
          ps[i].MapShape? && Fits(h, Ref(pres[i]), ps[i]) && ValuesApart(h, ps[i], updates[i], vss[i]))
  }

  /** The values of one operation share no cell with those of another, nor with any pre-image. */
  ghost predicate OpsApart(ps: seq<Shape>, vss: seq<seq<Shape>>)
  {
    && |ps| == |vss|
    && (forall i, j, l: Loc :: 0 <= i < |vss| && 0 <= j < |vss| && i != j && HeldByFirst(vss[i], |vss[i]|, l) ==>
          !HeldByFirst(vss[j], |vss[j]|, l))
    && (forall i, j, l: Loc :: 0 <= i < |vss| && 0 <= j < |ps| && HeldByFirst(vss[i], |vss[i]|, l) ==> !Holds(ps[j], l))
  }

  /** What is known of one prepared operation: the candidate and its image denote the updated document, and the
      candidate's cells are new or belong to values put in so far. */
  ghost predicate PreparedOk(h0: Heap, h: Heap, w: Val, c: Shape, image: Val, ct: Shape, p: Shape, updates: seq<Update>,
                             vs: seq<Shape>, vss: seq<seq<Shape>>, n: nat)
  {
    && |vs| == |updates|
    && Fits(h, w, c) && Fits(h, image, ct) && Erase(ct) == Erase(c)
    && D.AppliedAll(Erase(p), Changes(updates, vs)) == Some(Erase(c))
    && (forall l: Loc :: Holds(c, l) ==> l >= h0.next || HeldByOps(vss, n, l))
    && (forall l: Loc :: Holds(ct, l) ==> l >= h0.next)
  }

  /** Only cells of values of the first n operations have changed. */
  ghost predicate FramedBy(h0: Heap, h: Heap, vss: seq<seq<Shape>>, n: nat)
  {
    h0.next <= h.next
    && forall l: Loc :: l in h0.cells && !HeldByOps(vss, n, l) ==> l in h.cells && h.cells[l] == h0.cells[l]
  }

  /** A cell of one operation's values belongs to no earlier operation. */
  lemma NextValueCells(ps: seq<Shape>, vss: seq<seq<Shape>>, n: nat, l: Loc)
    requires n < |vss| && OpsApart(ps, vss) && HeldByFirst(vss[n], |vss[n]|, l)
    ensures !HeldByOps(vss, n, l)
  {
  }

  /** One more operation leaves what was prepared before it. */
  lemma PreparedSurvives(h0: Heap, h: Heap, h': Heap, w: Val, c: Shape, image: Val, ct: Shape, p: Shape,
                         updates: seq<Update>, vs: seq<Shape>, ps: seq<Shape>, vss: seq<seq<Shape>>, n: nat)
    requires PreparedOk(h0, h, w, c, image, ct, p, updates, vs, vss, n) && n < |vss| && OpsApart(ps, vss)
    requires Framed(h, h', vss[n], |vss[n]|)
    requires forall l: Loc :: HeldByFirst(vss[n], |vss[n]|, l) && l in h.cells ==> l < h0.next
    ensures PreparedOk(h0, h', w, c, image, ct, p, updates, vs, vss, n + 1)
  {
    hide Fits, Holds, Erase, OpsApart, HeldByFirst;
    forall l: Loc | Holds(c, l) && l in h.cells
      ensures l in h'.cells && h'.cells[l] == h.cells[l]
    {
      if HeldByFirst(vss[n], |vss[n]|, l) {
        NextValueCells(ps, vss, n, l);
      }
    }
    FitsFrame(h, h', w, c);
    FitsFrame(h, h', image, ct);
    forall l: Loc | HeldByOps(vss, n, l)
      ensures HeldByOps(vss, n + 1, l)
    {
    }
  }

  /** The inputs of later operations are untouched by one more. */
  lemma InputsSurvive(h: Heap, h': Heap, pres: seq<Loc>, ps: seq<Shape>, updates: seq<seq<Update>>, vss: seq<seq<Shape>>, n: nat)
    requires InputsLie(h, pres, ps, updates, vss, n) && n < |pres| && OpsApart(ps, vss)
    requires Framed(h, h', vss[n], |vss[n]|)
    ensures InputsLie(h', pres, ps, updates, vss, n + 1)
  {
    hide Fits, Holds, Separate, Disjoint;
    forall i | n < i < |pres|
      ensures Fits(h', Ref(pres[i]), ps[i]) && ValuesApart(h', ps[i], updates[i], vss[i])
    {
      FitsFrame(h, h', Ref(pres[i]), ps[i]);
      forall k | 0 <= k < |vss[i]| && updates[i][k].SetAt?
        ensures Fits(h', updates[i][k].value, vss[i][k])
      {
        forall l: Loc | Holds(vss[i][k], l)
          ensures !HeldByFirst(vss[n], |vss[n]|, l)
        {
          assert HeldByFirst(vss[i], |vss[i]|, l);
        }
        FitsFrame(h, h', updates[i][k].value, vss[i][k]);
      }
    }
  }

  /** All cells of new values were there at the start. */
  ghost predicate ValuesOld(h0: Heap, vss: seq<seq<Shape>>)
  {
    forall i, l: Loc :: 0 <= i < |vss| && HeldByFirst(vss[i], |vss[i]|, l) ==> l < h0.next
  }

  lemma FramedByStep(h0: Heap, h: Heap, h': Heap, vss: seq<seq<Shape>>, n: nat)
    requires FramedBy(h0, h, vss, n) && n < |vss| && Framed(h, h', vss[n], |vss[n]|) && h.next <= h'.next
    ensures FramedBy(h0, h', vss, n + 1)
  {
    hide HeldByFirst;
    forall l: Loc | l in h0.cells && !HeldByOps(vss, n + 1, l)
      ensures l in h'.cells && h'.cells[l] == h0.cells[l]
    {
      assert !HeldByOps(vss, n, l) && !HeldByFirst(vss[n], |vss[n]|, l);
    }
  }

  lemma JustPrepared(h0: Heap, before: Heap, h: Heap, w: Val, c: Shape, image: Val, ct: Shape, p: Shape,
                     updates: seq<Update>, vss: seq<seq<Shape>>, n: nat)
    requires n < |vss| && |vss[n]| == |updates| && h0.next <= before.next
    requires Fits(h, w, c) && Fits(h, image, ct) && Erase(ct) == Erase(c)
    requires D.AppliedAll(Erase(p), Changes(updates, vss[n])) == Some(Erase(c))
    requires forall l: Loc :: (Holds(c, l) ==> l >= before.next || HeldByFirst(vss[n], |vss[n]|, l))
                              && (Holds(ct, l) ==> l >= before.next)
    ensures PreparedOk(h0, h, w, c, image, ct, p, updates, vss[n], vss, n + 1)
  {
    hide Fits, Holds, Erase, HeldByFirst;
    forall l: Loc | Holds(c, l)
      ensures l >= h0.next || HeldByOps(vss, n + 1, l)
    {
    }
  }

  /** The evidence loop over a batch of updates. When it has gone through, and so when execution starts, every
      candidate still denotes the image in its evidence, and both denote the updated document. */
  method PrepareBatch(mem: Memory, pres: seq<Loc>, ghost ps: seq<Shape>, updates: seq<seq<Update>>, ghost vss: seq<seq<Shape>>)
    returns (ok: bool, candidates: seq<Val>, images: seq<Val>, ghost cs: seq<Shape>, ghost cts: seq<Shape>)
    requires Valid(mem.heap) && InputsLie(mem.heap, pres, ps, updates, vss, 0) && OpsApart(ps, vss) && ValuesOld(mem.heap, vss)
    modifies mem
    ensures ok <==> forall i :: 0 <= i < |pres| ==> D.AppliedAll(Erase(ps[i]), Changes(updates[i], vss[i])).Some?
    ensures ok ==> |candidates| == |images| == |cs| == |cts| == |pres|
    ensures ok ==> forall i :: 0 <= i < |pres| ==>
              PreparedOk(old(mem.heap), mem.heap, candidates[i], cs[i], images[i], cts[i], ps[i], updates[i], vss[i], vss, |pres|)
  {
    hide Fits, Holds, Erase, OpsApart, PreparedOk, FramedBy, Framed, Changes;
    candidates, images, cs, cts := [], [], [], [];
    ghost var h0 := mem.heap;
    NothingFramed(h0, vss);
    for n := 0 to |pres|
      invariant Valid(mem.heap) && InputsLie(mem.heap, pres, ps, updates, vss, n) && FramedBy(h0, mem.heap, vss, n)
      invariant h0.next <= mem.heap.next
      invariant |candidates| == |images| == |cs| == |cts| == n
      invariant forall i :: 0 <= i < n ==> D.AppliedAll(Erase(ps[i]), Changes(updates[i], vss[i])).Some?
      invariant forall i :: 0 <= i < n ==>
                  PreparedOk(h0, mem.heap, candidates[i], cs[i], images[i], cts[i], ps[i], updates[i], vss[i], vss, n)
    {
      ghost var before := mem.heap;
      IsMapByShape(mem.heap, pres[n], ps[n]);
      var done, candidate, preImage, image, c, pt, ct := mem.PrepareImages(pres[n], ps[n], updates[n], vss[n]);
      if !done {
        return false, [], [], [], [];
      }
      forall i | 0 <= i < n
        ensures PreparedOk(h0, mem.heap, candidates[i], cs[i], images[i], cts[i], ps[i], updates[i], vss[i], vss, n + 1)
      {
        PreparedSurvives(h0, before, mem.heap, candidates[i], cs[i], images[i], cts[i], ps[i], updates[i], vss[i], ps, vss, n);
      }
      JustPrepared(h0, before, mem.heap, candidate, c, image, ct, ps[n], updates[n], vss, n);
      InputsSurvive(before, mem.heap, pres, ps, updates, vss, n);
      FramedByStep(h0, before, mem.heap, vss, n);
      candidates, images, cs, cts := candidates + [candidate], images + [image], cs + [c], cts + [ct];
    }
    ok := true;
  }

  lemma NothingFramed(h: Heap, vss: seq<seq<Shape>>)
    ensures FramedBy(h, h, vss, 0)
  {
  }

  lemma IsMapByShape(h: Heap, m: Loc, s: Shape)
    requires s.MapShape? && Fits(h, Ref(m), s)
    ensures IsMap(h, m)
  {
  }
}
