/** Nested collections (scoped_collection.go): a parent chain and a collection name resolve to one
    directory under the root collection. */
module ScopedCollections {
  import opened Common
  import opened RecordPaths

  /** record.Key, linked to the key of its parent record. */
  datatype Key = NoKey | Key(collection: string, id: string, parent: Key)

  datatype CollectionDef = CollectionDef(id: string, dirPath: Dir, sub: map<string, CollectionDef>)

  datatype Step = Step(col: string, id: string)

  datatype Error = NotInDefinition | BadSegment | EscapesRoot

  function Ancestors(k: Key): seq<Step> {
    if k == NoKey then [] else Ancestors(k.parent) + [Step(k.collection, k.id)]
  }

  lemma {:induction false} AncestorsExist(k: Key)
    ensures Ancestors(k) == [] <==> k == NoKey
  {
  }

  /** The definition that a chain of collection names leads to. */
  function Descend(def: CollectionDef, names: seq<string>): Option<CollectionDef> {
    if names == [] then Some(def)
    else
      var before := Descend(def, names[..|names| - 1]);
      var last := names[|names| - 1];
      if before.None? || last !in before.value.sub then None else Some(before.value.sub[last])
  }

  /** The names below the root: the other ancestors' collections, then the target. */
  function NamesBelow(chain: seq<Step>, collection: string): seq<string>
    requires chain != []
  {
    seq(|chain|, i requires 0 <= i < |chain| => if i + 1 < |chain| then chain[i + 1].col else collection)
  }

  /** Parent ids and the collection names below them, interleaved. */
  function Interleaved(chain: seq<Step>, names: seq<string>): seq<string>
    requires |names| <= |chain|
  {
    if names == [] then []
    else
      var n := |names| - 1;
      Interleaved(chain, names[..n]) + [Escape(chain[n].id), names[n]]
  }

  predicate IdsValid(chain: seq<Step>) {
    forall i :: 0 <= i < |chain| ==> ValidSegment(chain[i].id)
  }

  /** Collection names that are one plain path segment. */
  predicate NamesPlain(names: seq<string>) {
    forall i :: 0 <= i < |names| ==> Plain(names[i])
  }

  /** filepath.Join(dir, recordKeyToFileName(id), name). */
  function Deeper(dir: Dir, id: string, name: string): Dir {
    Walk(dir, Split(Escape(id)) + Split(name))
  }

  function DirAfter(root: Dir, chain: seq<Step>, names: seq<string>): Dir
    requires |names| <= |chain|
  {
    if names == [] then root
    else
      var n := |names| - 1;
      Deeper(DirAfter(root, chain, names[..n]), chain[n].id, names[n])
  }

  /** What resolving a nested collection comes to. */
  function Resolved(defs: map<string, CollectionDef>, collection: string, chain: seq<Step>): Result<CollectionDef, Error>
    requires chain != []
  {
    if chain[0].col !in defs then Err(NotInDefinition)
    else if !IdsValid(chain) then Err(BadSegment)
    else
      var root := defs[chain[0].col];
      var names := NamesBelow(chain, collection);
      var target := Descend(root, names);
      if target.None? then Err(NotInDefinition)
      else
        var dir := DirAfter(root.dirPath, chain, names);
        if !Contained(root.dirPath, dir) then Err(EscapesRoot) else Ok(target.value.(dirPath := dir))
  }

  method CollectAncestors(parent: Key) returns (ancestors: seq<Step>)
    ensures ancestors == Ancestors(parent)
  {
    ancestors := [];
    var k := parent;
    while k != NoKey
      invariant Ancestors(parent) == Ancestors(k) + ancestors
      decreases k
    {
      ancestors := [Step(k.collection, k.id)] + ancestors;
      k := k.parent;
    }
  }

  /** One more name: descent and directory go one level deeper. */
  lemma OneDeeper(root: CollectionDef, dir: Dir, chain: seq<Step>, names: seq<string>, i: nat)
    requires i < |names| <= |chain|
    ensures DirAfter(dir, chain, names[..i + 1]) == Deeper(DirAfter(dir, chain, names[..i]), chain[i].id, names[i])
    ensures var cur := Descend(root, names[..i]);
            Descend(root, names[..i + 1]) ==
            if cur.None? || names[i] !in cur.value.sub then None else Some(cur.value.sub[names[i]])
  {
    hide Deeper;
    assert names[..i + 1][..i] == names[..i];
  }

  lemma NoDeeper(root: CollectionDef, dir: Dir, chain: seq<Step>)
    ensures DirAfter(dir, chain, []) == dir && Descend(root, []) == Some(root)
  {
  }

  /** resolveScopedCollection. A nested collection is the entry of its name in the definition of the collection that its
      parent record is in, with the directory below that record. */
  method ResolveScopedCollection(defs: map<string, CollectionDef>, collection: string, parent: Key)
    returns (r: Result<CollectionDef, Error>)
    ensures parent == NoKey ==>
              r == if collection in defs then Ok(defs[collection]) else Err(NotInDefinition)
    ensures parent != NoKey ==> Ancestors(parent) != [] && r == Resolved(defs, collection, Ancestors(parent))
    ensures r.Ok? ==>
              var found := NestedDef(defs, collection, parent);
              found.Some? && r.value == CollectionDef(found.value.id, NestedDir(defs, collection, parent), found.value.sub)
    ensures r == Err(NotInDefinition) <==>
            if parent == NoKey then collection !in defs
            else RootCollection(parent) !in defs || (KeyIdsValid(parent) && NestedDef(defs, collection, parent).None?)
  {
    if parent == NoKey {
      if collection !in defs {
        return Err(NotInDefinition);
      }
      return Ok(defs[collection]);
    }
    r := ResolveNested(defs, collection, parent);
    NestedResolution(defs, collection, parent);
    hide Resolved, NestedDef, NestedDir, RootCollection, KeyIdsValid;
  }

  /** Its part for a collection below a record. */
  method ResolveNested(defs: map<string, CollectionDef>, collection: string, parent: Key) returns (r: Result<CollectionDef, Error>)
    requires parent != NoKey
    ensures Ancestors(parent) != [] && r == Resolved(defs, collection, Ancestors(parent))
  {
    hide Deeper, ValidSegment, Contained, Ancestors, Descend, DirAfter;
    AncestorsExist(parent);
    var ancestors := CollectAncestors(parent);
    if ancestors[0].col !in defs {
      return Err(NotInDefinition);
    }
    var cur := defs[ancestors[0].col];
    ghost var root := cur;
    var rootDir := cur.dirPath;
    var dir := rootDir;
    for i := 0 to |ancestors|
      invariant forall j :: 0 <= j < i ==> ValidSegment(ancestors[j].id)
    {
      if !ValidSegment(ancestors[i].id) {
        return Err(BadSegment);
      }
    }
    ghost var names := NamesBelow(ancestors, collection);
    NoDeeper(root, rootDir, ancestors);
    for i := 1 to |ancestors|
      invariant Descend(root, names[..i - 1]) == Some(cur)
      invariant dir == DirAfter(rootDir, ancestors, names[..i - 1])
    {
      OneDeeper(root, rootDir, ancestors, names, i - 1);
      if ancestors[i].col !in cur.sub {
        StaysLost(root, names, i);
        return Err(NotInDefinition);
      }
      dir := Deeper(dir, ancestors[i - 1].id, ancestors[i].col);
      cur := cur.sub[ancestors[i].col];
    }
    var last := |ancestors| - 1;
    OneDeeper(root, rootDir, ancestors, names, last);
    assert names[..last + 1] == names;
    if collection !in cur.sub {
      return Err(NotInDefinition);
    }
    dir := Deeper(dir, ancestors[last].id, collection);
    if !Contained(rootDir, dir) {
      return Err(EscapesRoot);
    }
    return Ok(cur.sub[collection].(dirPath := dir));
  }

  lemma {:induction false} StaysLost(root: CollectionDef, names: seq<string>, n: nat)
    requires n <= |names| && Descend(root, names[..n]).None?
    ensures Descend(root, names).None?
    decreases |names|
  {
    if n < |names| {
      assert names[..|names| - 1][..n] == names[..n];
      StaysLost(root, names[..|names| - 1], n);
    } else {
      assert names[..n] == names;
    }
  }

  // ----- Where nested collections live -----

  lemma PlainSplits(s: string)
    requires '/' !in s
    ensures Split(s) == [s]
  {
    SplitPrepend(s, "");
    assert s + "" == s;
  }

  /** An escaped id and a plain name add exactly two directory levels. */
  lemma DeeperAddsTwo(dir: Dir, id: string, name: string)
    requires ValidSegment(id) && Plain(name)
    ensures Deeper(dir, id, name) == dir + [Escape(id), name] && Plain(Escape(id))
  {
    EscapeGrows(id);
    PlainSplits(Escape(id));
    PlainSplits(name);
    IdIsPlain(id);
    var two := [Escape(id), name];
    assert Split(Escape(id)) + Split(name) == two;
    WalkAppends(dir, two);
    assert two[1..] == [name] && two[1..][1..] == [];
    assert Kept(two[1..]) == [name];
    assert Kept(two) == two;
  }

  lemma IdIsPlain(id: string)
    requires ValidSegment(id)
    ensures Plain(Escape(id))
  {
    assert KEY[5..] == "" && KEY <= KEY;
    assert HasKey(KEY);
    assert Expand(KEY, Escape(id)) == Escape(id) + Expand("", Escape(id)) == Escape(id);
    KeySegmentIsKept(KEY, id);
    EscapeGrows(id);
  }

  lemma {:induction false} DirIsInterleaved(root: Dir, chain: seq<Step>, names: seq<string>)
    requires |names| <= |chain| && IdsValid(chain) && NamesPlain(names)
    ensures DirAfter(root, chain, names) == root + Interleaved(chain, names)
    ensures |Interleaved(chain, names)| == 2 * |names|
    decreases |names|
  {
    if names != [] {
      var n := |names| - 1;
      DirIsInterleaved(root, chain, names[..n]);
      DeeperAddsTwo(DirAfter(root, chain, names[..n]), chain[n].id, names[n]);
      Reassociate(root, Interleaved(chain, names[..n]), [Escape(chain[n].id), names[n]]);
    }
  }

  lemma {:induction false} InterleavedAt(chain: seq<Step>, names: seq<string>, i: nat)
    requires i < |names| <= |chain|
    ensures |Interleaved(chain, names)| == 2 * |names|
    ensures Interleaved(chain, names)[2 * i] == Escape(chain[i].id) && Interleaved(chain, names)[2 * i + 1] == names[i]
    decreases |names|
  {
    var n := |names| - 1;
    if n > 0 {
      InterleavedAt(chain, names[..n], if i < n then i else 0);
    } else {
      assert Interleaved(chain, names[..n]) == [];
    }
  }

  /** Under one root collection, different parent chains or collections live in different directories,
      all of them strictly inside the root. */
  lemma DistinctScopesDistinctDirs(root: Dir, a: seq<Step>, x: string, b: seq<Step>, y: string)
    requires a != [] && b != [] && a[0].col == b[0].col && IdsValid(a) && IdsValid(b)
    requires NamesPlain(NamesBelow(a, x)) && NamesPlain(NamesBelow(b, y))
    ensures Contained(root, DirAfter(root, a, NamesBelow(a, x)))
    ensures DirAfter(root, a, NamesBelow(a, x)) == DirAfter(root, b, NamesBelow(b, y)) ==> a == b && x == y
  {
    var m, n := NamesBelow(a, x), NamesBelow(b, y);
    DirIsInterleaved(root, a, m);
    DirIsInterleaved(root, b, n);
    var p, q := Interleaved(a, m), Interleaved(b, n);
    if root + p == root + q {
      assert p == (root + p)[|root|..] && q == (root + q)[|root|..];
      SameInterleaving(a, x, b, y);
    }
  }

  /** One directory level determines the parent's id and the name below it. */
  lemma SameLevel(a: seq<Step>, m: seq<string>, b: seq<Step>, n: seq<string>, i: nat)
    requires |m| <= |a| && |n| <= |b| && i < |m| && i < |n| && ValidSegment(a[i].id) && ValidSegment(b[i].id)
    requires Interleaved(a, m) == Interleaved(b, n)
    ensures |m| == |n| && a[i].id == b[i].id && m[i] == n[i]
  {
    hide Interleaved, Escape, ValidSegment;
    InterleavedAt(a, m, i);
    InterleavedAt(b, n, i);
    EscapedKeysDiffer(a[i].id, b[i].id);
  }

  lemma SameSteps(a: seq<Step>, x: string, b: seq<Step>, y: string)
    requires a != [] && |a| == |b| && a[0].col == b[0].col && NamesBelow(a, x) == NamesBelow(b, y)
    requires forall i :: 0 <= i < |a| ==> a[i].id == b[i].id
    ensures a == b && x == y
  {
    var m, n := NamesBelow(a, x), NamesBelow(b, y);
    forall i | 0 <= i < |a|
      ensures a[i] == b[i]
    {
      assert i > 0 ==> m[i - 1] == a[i].col && n[i - 1] == b[i].col;
    }
    assert m[|a| - 1] == x && n[|a| - 1] == y;
  }

  lemma SameInterleaving(a: seq<Step>, x: string, b: seq<Step>, y: string)
    requires a != [] && b != [] && a[0].col == b[0].col && IdsValid(a) && IdsValid(b)
    requires Interleaved(a, NamesBelow(a, x)) == Interleaved(b, NamesBelow(b, y))
    ensures a == b && x == y
  {
    hide Interleaved, ValidSegment;
    var m, n := NamesBelow(a, x), NamesBelow(b, y);
    SameLevel(a, m, b, n, 0);
    hide NamesBelow;
    forall i | 0 <= i < |a|
      ensures a[i].id == b[i].id && m[i] == n[i]
    {
      SameLevel(a, m, b, n, i);
    }
    SameSteps(a, x, b, y);
  }

  /** With plain collection names the final containment check never fires: resolution fails only for an
      unknown collection or an id that cannot name a file. */
  lemma NeverEscapes(defs: map<string, CollectionDef>, collection: string, chain: seq<Step>)
    requires chain != [] && NamesPlain(NamesBelow(chain, collection))
    ensures Resolved(defs, collection, chain) != Err(EscapesRoot)
  {
    if chain[0].col in defs && IdsValid(chain) {
      DistinctScopesDistinctDirs(defs[chain[0].col].dirPath, chain, collection, chain, collection);
    }
  }

  /** A schema whose nested collections are named by single path segments, as directory names are. */
  ghost predicate PlainSchema(def: CollectionDef)
    decreases def
  {
    forall name :: name in def.sub ==> Plain(name) && PlainSchema(def.sub[name])
  }

  lemma {:induction false} DescentIsPlain(def: CollectionDef, names: seq<string>)
    requires PlainSchema(def) && Descend(def, names).Some?
    ensures NamesPlain(names) && PlainSchema(Descend(def, names).value)
    decreases |names|
  {
    hide Plain;
    if names != [] {
      DescentIsPlain(def, names[..|names| - 1]);
    }
  }

  /** In such a schema, whatever resolves under one root resolves to a directory of its own, strictly inside the root. */
  lemma ResolvedDirsDiffer(defs: map<string, CollectionDef>, a: seq<Step>, x: string, b: seq<Step>, y: string)
    requires a != [] && b != [] && a[0].col == b[0].col && a[0].col in defs && PlainSchema(defs[a[0].col])
    requires Resolved(defs, x, a).Ok? && Resolved(defs, y, b).Ok?
    ensures Contained(defs[a[0].col].dirPath, Resolved(defs, x, a).value.dirPath)
    ensures Resolved(defs, x, a).value.dirPath == Resolved(defs, y, b).value.dirPath ==> a == b && x == y
  {
    hide DirAfter, ValidSegment, NamesPlain;
    var root := defs[a[0].col];
    DescentIsPlain(root, NamesBelow(a, x));
    DescentIsPlain(root, NamesBelow(b, y));
    DistinctScopesDistinctDirs(root.dirPath, a, x, b, y);
  }

  // ----- The definition that is found -----

  /** The collection of the root record. */
  function RootCollection(parent: Key): string
    requires parent != NoKey
  {
    if parent.parent == NoKey then parent.collection else RootCollection(parent.parent)
  }

  predicate KeyIdsValid(parent: Key) {
    parent != NoKey ==> ValidSegment(parent.id) && KeyIdsValid(parent.parent)
  }

  /** The entry of that name in the definition of the collection that the parent record is in. */
  function NestedDef(defs: map<string, CollectionDef>, collection: string, parent: Key): Option<CollectionDef>
    decreases parent
  {
    if parent == NoKey then (if collection in defs then Some(defs[collection]) else None)
    else
      var above := NestedDef(defs, parent.collection, parent.parent);
      if above.Some? && collection in above.value.sub then Some(above.value.sub[collection]) else None
  }

  /** Below the directory of the collection that the parent record is in, the parent's id and then the name. */
  function NestedDir(defs: map<string, CollectionDef>, collection: string, parent: Key): Dir
    decreases parent
  {
    if parent == NoKey then (if collection in defs then defs[collection].dirPath else [])
    else Walk(NestedDir(defs, parent.collection, parent.parent), Split(Escape(parent.id)) + Split(collection))
  }

  lemma {:induction false} FirstAncestor(parent: Key)
    requires parent != NoKey
    ensures Ancestors(parent) != [] && Ancestors(parent)[0].col == RootCollection(parent)
  {
    if parent.parent != NoKey {
      FirstAncestor(parent.parent);
    }
  }

  lemma {:induction false} AncestorIds(parent: Key)
    ensures IdsValid(Ancestors(parent)) <==> KeyIdsValid(parent)
  {
    hide ValidSegment;
    if parent != NoKey {
      AncestorIds(parent.parent);
      var above, all := Ancestors(parent.parent), Ancestors(parent);
      assert all[|above|].id == parent.id && forall i :: 0 <= i < |above| ==> all[i] == above[i];
    }
  }

  /** The names below the root that lead to the collection the parent record is in. */
  function NamesAbove(parent: Key): seq<string>
    requires parent != NoKey
  {
    if Ancestors(parent.parent) == [] then [] else NamesBelow(Ancestors(parent.parent), parent.collection)
  }

  lemma NamesOfKey(parent: Key, collection: string)
    requires parent != NoKey
    ensures var above, chain := Ancestors(parent.parent), Ancestors(parent);
            && |chain| == |above| + 1 == |NamesAbove(parent)| + 1
            && chain[..|above|] == above && chain[|above|].id == parent.id
            && NamesBelow(chain, collection) == NamesAbove(parent) + [collection]
  {
    var above, chain := Ancestors(parent.parent), Ancestors(parent);
    assert chain == above + [Step(parent.collection, parent.id)];
    LongerNames(above, Step(parent.collection, parent.id), collection);
  }

  lemma LongerNames(above: seq<Step>, step: Step, collection: string)
    ensures var chain := above + [step];
            && chain[..|above|] == above && chain[|above|] == step
            && NamesBelow(chain, collection) == (if above == [] then [] else NamesBelow(above, step.col)) + [collection]
  {
  }

  /** Descent and directory go one level deeper with the key. */
  lemma KeyGoesDeeper(root: CollectionDef, parent: Key, collection: string)
    requires parent != NoKey
    ensures Ancestors(parent) != [] && |NamesAbove(parent)| <= |Ancestors(parent.parent)|
    ensures var names := NamesBelow(Ancestors(parent), collection);
            var cur, dir := Descend(root, NamesAbove(parent)), DirAfter(root.dirPath, Ancestors(parent.parent), NamesAbove(parent));
            && Descend(root, names) == (if cur.None? || collection !in cur.value.sub then None else Some(cur.value.sub[collection]))
            && DirAfter(root.dirPath, Ancestors(parent), names) == Deeper(dir, parent.id, collection)
  {
    NamesOfKey(parent, collection);
    hide Ancestors, NamesBelow, NamesAbove, Deeper, Descend, DirAfter;
    var above, chain := Ancestors(parent.parent), Ancestors(parent);
    var names, upper := NamesBelow(chain, collection), NamesAbove(parent);
    assert names[..|upper|] == upper && names[..|upper| + 1] == names && names[|upper|] == collection;
    OneDeeper(root, root.dirPath, chain, names, |upper|);
    SameDirAfter(root.dirPath, chain, above, upper);
  }

  lemma {:induction false} DescentIsNested(defs: map<string, CollectionDef>, collection: string, parent: Key)
    requires parent != NoKey && RootCollection(parent) in defs
    ensures Ancestors(parent) != []
    ensures var root, chain := defs[RootCollection(parent)], Ancestors(parent);
            && Descend(root, NamesBelow(chain, collection)) == NestedDef(defs, collection, parent)
            && DirAfter(root.dirPath, chain, NamesBelow(chain, collection)) == NestedDir(defs, collection, parent)
    decreases parent
  {
    var root := defs[RootCollection(parent)];
    KeyGoesDeeper(root, parent, collection);
    AncestorsExist(parent.parent);
    NoDeeper(root, root.dirPath, []);
    hide Ancestors, NamesBelow, Descend, DirAfter;
    if parent.parent != NoKey {
      DescentIsNested(defs, parent.collection, parent.parent);
    }
  }

  lemma {:induction false} SameDirAfter(root: Dir, chain: seq<Step>, above: seq<Step>, names: seq<string>)
    requires |names| <= |above| <= |chain| && chain[..|above|] == above
    ensures DirAfter(root, chain, names) == DirAfter(root, above, names)
    decreases |names|
  {
    hide Deeper;
    if names != [] {
      SameDirAfter(root, chain, above, names[..|names| - 1]);
      assert chain[|names| - 1] == chain[..|above|][|names| - 1];
    }
  }

  /** A nested collection resolves to the entry of its name in the definition of the collection that its parent
      record is in, with nothing but the directory replaced. It fails, in this order, when the root collection is
      unknown, when an id cannot name a file, when one of the nested collections is unknown, and when its directory
      is not inside the root's. */
  lemma NestedResolution(defs: map<string, CollectionDef>, collection: string, parent: Key)
    requires parent != NoKey
    ensures Ancestors(parent) != []
    ensures var r, known := Resolved(defs, collection, Ancestors(parent)), RootCollection(parent) in defs;
            var found, dir := NestedDef(defs, collection, parent), NestedDir(defs, collection, parent);
            && (r == Err(NotInDefinition) <==> !known || (KeyIdsValid(parent) && found.None?))
            && (r == Err(BadSegment) <==> known && !KeyIdsValid(parent))
            && (r == Err(EscapesRoot) <==>
                known && KeyIdsValid(parent) && found.Some? && !Contained(defs[RootCollection(parent)].dirPath, dir))
            && (r.Ok? ==> found.Some? && r.value == CollectionDef(found.value.id, dir, found.value.sub))
  {
    FirstAncestor(parent);
    AncestorIds(parent);
    if RootCollection(parent) in defs {
      DescentIsNested(defs, collection, parent);
    }
    hide Descend, DirAfter, Ancestors, NamesBelow, IdsValid, Contained, Walk, Split;
  }

  /** Its directory is the parent's id, escaped, and its own name below the directory of the collection that the parent
      record is in. */
  lemma NestedDirectory(defs: map<string, CollectionDef>, collection: string, parent: Key)
    requires parent != NoKey && ValidSegment(parent.id) && Plain(collection)
    ensures NestedDir(defs, collection, parent) == NestedDir(defs, parent.collection, parent.parent) + [Escape(parent.id), collection]
  {
    var up := NestedDir(defs, parent.collection, parent.parent);
    assert NestedDir(defs, collection, parent) == Deeper(up, parent.id, collection);
    DeeperAddsTwo(up, parent.id, collection);
  }
}
