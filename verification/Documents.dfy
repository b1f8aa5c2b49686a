/** Record documents as trees, and what a field update means on them (tx_readwrite.go): set and delete at
    a path, independent of the in-place code that performs them. */
module Documents {
  import opened Common

  type Field = string
  type Path = seq<Field>

  datatype Tree =
    | Null
    | Scalar(shown: string)
    | Buffer(bytes: Bytes)
    | List(items: seq<Tree>)
    | Map(fields: map<Field, Tree>)

  /** The value found by walking down a path; None when the walk leaves the tree. */
  function Read(t: Tree, path: Path): Option<Tree>
    decreases |path|
  {
    if path == [] then Some(t)
    else if t.Map? && path[0] in t.fields then Read(t.fields[path[0]], path[1..])
    else None
  }

  /** A plain set: missing and null intermediates become maps, any other non-map stops it. */
  function Set(t: Tree, path: Path, v: Tree): Option<Tree>
    requires path != []
    decreases |path|
  {
    if !t.Map? then None
    else
      var child := if |path| == 1 then Some(v) else Set(Below(t, path[0]), path[1..], v);
      if child.None? then None else Some(Put(t, path[0], child.value))
  }

  function Put(t: Tree, field: Field, v: Tree): (r: Tree)
    requires t.Map?
    ensures r.Map?
  {
    Map(t.fields[field := v])
  }

  lemma PutTwice(t: Tree, f: Field, v: Tree, w: Tree)
    requires t.Map?
    ensures Put(Put(t, f, v), f, w) == Put(t, f, w)
    ensures v.Map? ==> Below(Put(t, f, v), f) == v
  {
    assert t.fields[f := v][f := w] == t.fields[f := w];
  }

  lemma PutApart(t: Tree, f: Field, v: Tree, g: Field, w: Tree)
    requires t.Map? && f != g
    ensures Put(Put(t, f, v), g, w) == Put(Put(t, g, w), f, v)
    ensures Below(Put(t, f, v), g) == Below(t, g)
  {
    assert t.fields[f := v][g := w] == t.fields[g := w][f := v];
  }

  /** The intermediate that a set descends into; a missing or null one is created empty. */
  function Below(t: Tree, field: Field): Tree
    requires t.Map?
  {
    if field !in t.fields || t.fields[field] == Null then Map(map[]) else t.fields[field]
  }

  /** Delete at a path; a path that is not there is left alone. */
  function Delete(t: Tree, path: Path): Tree
    requires path != []
    decreases |path|
  {
    if !t.Map? || path[0] !in t.fields then t
    else if |path| == 1 then Map(t.fields - {path[0]})
    else Map(t.fields[path[0] := Delete(t.fields[path[0]], path[1..])])
  }

  /** Neither path leads through the other. */
  predicate Apart(p: Path, q: Path) {
    !(p <= q) && !(q <= p)
  }

  lemma ApartTail(p: Path, q: Path)
    requires p != [] && q != [] && p[0] == q[0]
    ensures Apart(p[1..], q[1..]) <==> Apart(p, q)
  {
    assert p == [p[0]] + p[1..] && q == [q[0]] + q[1..];
    assert p <= q <==> p[1..] <= q[1..];
    assert q <= p <==> q[1..] <= p[1..];
  }

  // ----- Set -----

  lemma {:induction false} SetReadsBack(t: Tree, path: Path, v: Tree, rest: Path)
    requires path != [] && Set(t, path, v).Some?
    ensures Read(Set(t, path, v).value, path + rest) == Read(v, rest)
    decreases |path|
  {
    assert (path + rest)[1..] == path[1..] + rest;
    if |path| == 1 {
      assert path[1..] + rest == rest;
    } else {
      SetReadsBack(Below(t, path[0]), path[1..], v, rest);
    }
  }

  lemma {:induction false} SetLeavesOthers(t: Tree, path: Path, v: Tree, other: Path)
    requires path != [] && Set(t, path, v).Some? && Apart(path, other)
    ensures Read(Set(t, path, v).value, other) == Read(t, other)
    decreases |path|
  {
    assert |path| == 1 && path[0] == other[0] ==> path <= other;
    if path[0] == other[0] {
      ApartTail(path, other);
      SetLeavesOthers(Below(t, path[0]), path[1..], v, other[1..]);
      assert other[1..] != [];
    }
  }

  /** Every intermediate of a set is a map afterwards. */
  lemma {:induction false} SetMakesMaps(t: Tree, path: Path, v: Tree, n: nat)
    requires n < |path| && Set(t, path, v).Some?
    ensures var r := Read(Set(t, path, v).value, path[..n]); r.Some? && r.value.Map?
    decreases |path|
  {
    if n > 0 {
      SetMakesMaps(Below(t, path[0]), path[1..], v, n - 1);
      assert path[..n][1..] == path[1..][..n - 1];
    }
  }

  /** A value that a set cannot descend into. */
  predicate Blocks(t: Tree) { t != Null && !t.Map? }

  predicate BlockedAt(t: Tree, path: Path, n: nat)
    requires n <= |path|
  {
    var r := Read(t, path[..n]);
    r.Some? && Blocks(r.value)
  }

  lemma {:induction false} EmptyNeverFails(path: Path, v: Tree)
    requires path != []
    ensures Set(Map(map[]), path, v).Some?
    decreases |path|
  {
    if |path| > 1 {
      EmptyNeverFails(path[1..], v);
    }
  }

  /** A set on a document fails exactly when some intermediate holds a value that is not a map. */
  lemma {:induction false} SetFailsIff(t: Tree, path: Path, v: Tree)
    requires path != [] && t.Map?
    ensures Set(t, path, v).None? <==> exists n :: 0 < n < |path| && BlockedAt(t, path, n)
    decreases |path|
  {
    if |path| > 1 {
      var field := path[0];
      if field !in t.fields || t.fields[field] == Null {
        EmptyNeverFails(path[1..], v);
        forall n | 0 < n < |path|
          ensures !BlockedAt(t, path, n)
        {
          assert path[..n][0] == field && |path[..n][1..]| == n - 1;
          assert field in t.fields ==> Read(t, path[..n]) == Read(Null, path[..n][1..]);
        }
      } else if t.fields[field].Map? {
        BlockedBelow(t, path);
        SetFailsIff(t.fields[field], path[1..], v);
      } else {
        assert BlockedAt(t, path, 1) by { assert path[..1][1..] == []; }
      }
    }
  }

  lemma BlockedBelow(t: Tree, path: Path)
    requires |path| > 1 && t.Map? && path[0] in t.fields && t.fields[path[0]].Map?
    ensures (exists n :: 0 < n < |path| && BlockedAt(t, path, n)) <==>
            (exists n :: 0 < n < |path[1..]| && BlockedAt(t.fields[path[0]], path[1..], n))
  {
    forall n | 0 < n < |path|
      ensures BlockedAt(t, path, n) == BlockedAt(t.fields[path[0]], path[1..], n - 1)
    {
      assert path[..n][1..] == path[1..][..n - 1];
    }
    if n :| 0 < n < |path| && BlockedAt(t, path, n) {
      assert BlockedAt(t.fields[path[0]], path[1..], n - 1);
      assert n > 1;
    }
    if n :| 0 < n < |path[1..]| && BlockedAt(t.fields[path[0]], path[1..], n) {
      assert BlockedAt(t, path, n + 1);
    }
  }

  lemma {:induction false} LastSetWins(t: Tree, path: Path, v: Tree, w: Tree)
    requires path != [] && Set(t, path, v).Some?
    ensures Set(Set(t, path, v).value, path, w) == Set(t, path, w)
    decreases |path|
  {
    hide Put, Below;
    var child := if |path| == 1 then v else Set(Below(t, path[0]), path[1..], v).value;
    if |path| > 1 {
      LastSetWins(Below(t, path[0]), path[1..], v, w);
      assert child.Map?;
    }
    var next := if |path| == 1 then Some(w) else Set(Below(t, path[0]), path[1..], w);
    if next.Some? {
      PutTwice(t, path[0], child, next.value);
    } else {
      PutTwice(t, path[0], child, Null);
    }
  }

  function Then(t: Option<Tree>, path: Path, v: Tree): Option<Tree>
    requires path != []
  {
    if t.None? then None else Set(t.value, path, v)
  }

  /** A set through another first field. */
  lemma SetAfterPut(t: Tree, f: Field, x: Tree, q: Path, w: Tree)
    requires q != [] && t.Map? && f != q[0]
    ensures Set(Put(t, f, x), q, w) ==
            var y := if |q| == 1 then Some(w) else Set(Below(t, q[0]), q[1..], w);
            if y.None? then None else Some(Put(Put(t, f, x), q[0], y.value))
  {
    hide Put, Below;
    PutApart(t, f, x, q[0], w);
  }

  lemma ForksCommute(t: Tree, p: Path, v: Tree, q: Path, w: Tree)
    requires p != [] && q != [] && p[0] != q[0]
    ensures Then(Set(t, p, v), q, w) == Then(Set(t, q, w), p, v)
  {
    if t.Map? {
      var x := if |p| == 1 then Some(v) else Set(Below(t, p[0]), p[1..], v);
      var y := if |q| == 1 then Some(w) else Set(Below(t, q[0]), q[1..], w);
      assert Set(t, p, v) == if x.None? then None else Some(Put(t, p[0], x.value));
      assert Set(t, q, w) == if y.None? then None else Some(Put(t, q[0], y.value));
      hide Put, Below, Set;
      if x.Some? {
        SetAfterPut(t, p[0], x.value, q, w);
      }
      if y.Some? {
        SetAfterPut(t, q[0], y.value, p, v);
      }
      if x.Some? && y.Some? {
        PutApart(t, p[0], x.value, q[0], y.value);
      }
    }
  }

  /** Two sets through the same first field are two sets below it. */
  lemma ThenBelow(t: Tree, p: Path, v: Tree, q: Path, w: Tree)
    requires |p| > 1 && |q| > 1 && p[0] == q[0] && t.Map?
    ensures Then(Set(t, p, v), q, w) ==
            var r := Then(Set(Below(t, p[0]), p[1..], v), q[1..], w);
            if r.None? then None else Some(Put(t, p[0], r.value))
  {
    hide Put, Below;
    var x := Set(Below(t, p[0]), p[1..], v);
    if x.Some? {
      assert x.value.Map?;
      var z := Set(x.value, q[1..], w);
      PutTwice(t, p[0], x.value, if z.Some? then z.value else Null);
    }
  }

  /** Sets at paths that are apart can be made in either order, failures included. */
  lemma {:induction false} ApartSetsCommute(t: Tree, p: Path, v: Tree, q: Path, w: Tree)
    requires Apart(p, q)
    ensures p != [] && q != [] && Then(Set(t, p, v), q, w) == Then(Set(t, q, w), p, v)
    decreases |p|
  {
    assert p != [] && q != [];
    if p[0] != q[0] {
      ForksCommute(t, p, v, q, w);
    } else if t.Map? {
      ApartTail(p, q);
      assert |p| > 1 && |q| > 1;
      ApartSetsCommute(Below(t, p[0]), p[1..], v, q[1..], w);
      ThenBelow(t, p, v, q, w);
      ThenBelow(t, q, w, p, v);
    }
  }

  // ----- Delete -----

  lemma {:induction false} DeleteRemoves(t: Tree, path: Path)
    requires path != []
    ensures Read(Delete(t, path), path) == None
    decreases |path|
  {
    if |path| > 1 && t.Map? && path[0] in t.fields {
      DeleteRemoves(t.fields[path[0]], path[1..]);
    }
  }

  lemma {:induction false} DeleteIsIdempotent(t: Tree, path: Path)
    requires path != []
    ensures Delete(Delete(t, path), path) == Delete(t, path)
    decreases |path|
  {
    if |path| > 1 && t.Map? && path[0] in t.fields {
      DeleteIsIdempotent(t.fields[path[0]], path[1..]);
    }
  }

  lemma {:induction false} DeleteLeavesOthers(t: Tree, path: Path, other: Path)
    requires path != [] && Apart(path, other)
    ensures Read(Delete(t, path), other) == Read(t, other)
    decreases |path|
  {
    assert |path| == 1 && path[0] == other[0] ==> path <= other;
    if t.Map? && path[0] in t.fields && path[0] == other[0] {
      ApartTail(path, other);
      DeleteLeavesOthers(t.fields[path[0]], path[1..], other[1..]);
    }
  }

  /** Whatever can be read after a delete could be read before it, and nothing changes its kind. */
  lemma {:induction false} DeleteCreatesNothing(t: Tree, path: Path, other: Path)
    requires path != [] && Read(Delete(t, path), other).Some?
    ensures Read(t, other).Some?
    ensures var a, b := Read(Delete(t, path), other).value, Read(t, other).value;
            a == b || (a.Map? && b.Map? && a.fields.Keys <= b.fields.Keys)
    decreases |path|
  {
    if other != [] && |path| > 1 && t.Map? && path[0] in t.fields && path[0] == other[0] {
      DeleteCreatesNothing(t.fields[path[0]], path[1..], other[1..]);
    }
  }

  /** A delete changes nothing exactly when there was nothing at the path. */
  lemma {:induction false} DeleteChangesIff(t: Tree, path: Path)
    requires path != []
    ensures Delete(t, path) == t <==> Read(t, path) == None
    decreases |path|
  {
    if t.Map? && path[0] in t.fields {
      if |path| == 1 {
        assert Delete(t, path).fields != t.fields;
      } else {
        DeleteChangesIff(t.fields[path[0]], path[1..]);
      }
    }
  }

  /** Deleting what was just set gives back the document, where the path's parent was there and the path
      was not. */
  lemma {:induction false} DeleteUndoesSet(t: Tree, path: Path, v: Tree)
    requires path != [] && Read(t, path) == None
    requires var parent := Read(t, path[..|path| - 1]); parent.Some? && parent.value.Map?
    ensures Set(t, path, v).Some? && Delete(Set(t, path, v).value, path) == t
    decreases |path|
  {
    if |path| > 1 {
      assert path[..|path| - 1][1..] == path[1..][..|path| - 2];
      DeleteUndoesSet(t.fields[path[0]], path[1..], v);
    } else {
      assert path[..0] == [];
      assert t.fields[path[0] := v] - {path[0]} == t.fields;
    }
  }

  // ----- Sequences of updates -----

  datatype Change = SetAt(path: Path, value: Tree) | DeleteAt(path: Path)

  function Applied(t: Tree, c: Change): Option<Tree> {
    if c.path == [] then Some(t)
    else
      match c
      case SetAt(path, v) => Set(t, path, v)
      case DeleteAt(path) => Some(Delete(t, path))
  }

  /** applyUpdates up to its first error; updates without a path are skipped. */
  function AppliedAll(t: Tree, changes: seq<Change>): Option<Tree> {
    if changes == [] then Some(t)
    else
      var before := AppliedAll(t, changes[..|changes| - 1]);
      if before.None? then None else Applied(before.value, changes[|changes| - 1])
  }

  lemma {:induction false} FirstErrorStops(t: Tree, changes: seq<Change>, n: nat)
    requires n <= |changes| && AppliedAll(t, changes[..n]).None?
    ensures AppliedAll(t, changes).None?
    decreases |changes|
  {
    if n < |changes| {
      assert changes[..|changes| - 1][..n] == changes[..n];
      FirstErrorStops(t, changes[..|changes| - 1], n);
    } else {
      assert changes[..n] == changes;
    }
  }

  lemma ReadHere(t: Tree)
    ensures Read(t, []) == Some(t)
  {
  }

  lemma ChangeAt(t: Tree, c: Change, path: Path)
    requires Applied(t, c).Some?
    ensures c.path != [] && Apart(c.path, path) ==> Read(Applied(t, c).value, path) == Read(t, path)
    ensures c.SetAt? && c.path == path != [] ==> Read(Applied(t, c).value, path) == Some(c.value)
    ensures c.DeleteAt? && c.path == path != [] ==> Read(Applied(t, c).value, path) == None
  {
    hide Set, Delete, Read;
    if c.path != [] && c.SetAt? {
      if c.path == path {
        SetReadsBack(t, path, c.value, []);
        assert path + [] == path;
        ReadHere(c.value);
      } else if Apart(c.path, path) {
        SetLeavesOthers(t, c.path, c.value, path);
      }
    }
    if c.path != [] && c.DeleteAt? {
      if c.path == path {
        DeleteRemoves(t, path);
      } else if Apart(c.path, path) {
        DeleteLeavesOthers(t, c.path, path);
      }
    }
  }

  /** What a sequence of updates leaves at a path: the last one there decides, as long as later ones are apart from it. */
  lemma {:induction false} LastChangeDecides(t: Tree, changes: seq<Change>, path: Path, i: nat)
    requires AppliedAll(t, changes).Some? && path != []
    requires i <= |changes| && forall k :: i <= k < |changes| ==> changes[k].path != [] && Apart(changes[k].path, path)
    ensures AppliedAll(t, changes[..i]).Some?
    ensures Read(AppliedAll(t, changes).value, path) == Read(AppliedAll(t, changes[..i]).value, path)
    ensures i > 0 && changes[i - 1].path == path ==>
              Read(AppliedAll(t, changes).value, path) == if changes[i - 1].SetAt? then Some(changes[i - 1].value) else None
    ensures i == 0 ==> Read(AppliedAll(t, changes).value, path) == Read(t, path)
    decreases |changes|
  {
    if i < |changes| {
      var init := changes[..|changes| - 1];
      assert init[..i] == changes[..i];
      LastChangeDecides(t, init, path, i);
      ChangeAt(AppliedAll(t, init).value, changes[|changes| - 1], path);
    } else {
      assert changes[..i] == changes;
      if i > 0 {
        ChangeAt(AppliedAll(t, changes[..i - 1]).value, changes[i - 1], path);
      }
    }
  }
}
