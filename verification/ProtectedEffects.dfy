/** What a protected batch does to the records (protected.go): when it can be prepared, when it then
    executes, and what a reader finds afterwards, operation by operation. */
module ProtectedEffects {
  import opened Common
  import opened ProtectedBatch

  /** What a reader finds of a record that was stored as image: only map files store it locale-mapped. */
  function Shown(lib: Library, p: Place, image: Image): Image {
    lib.toRead(p, if p.kind == MapOfRecords then lib.toWrite(p, image) else image)
  }

  /** The operation, from what a reader found before to what one finds after. */
  ghost predicate Did(lib: Library, before: Files, after: Files, op: Op)
  {
    var was, now := Get(lib, before, op.place, op.key), Get(lib, after, op.place, op.key);
    match op.action
    case Insert => was == Some(None) && now == Some(Some(Shown(lib, op.place, op.data)))
    case Set => was.Some? && now == Some(Some(Shown(lib, op.place, op.data)))
    case Update =>
      && was.Some? && was.value.Some? && op.change(was.value.value).Some?
      && now == Some(Some(Shown(lib, op.place, op.change(was.value.value).value)))
    case Delete => was.Some? && was.value.Some? && now == Some(None)
  }

  /** Reading and writing leave every record as it is: a collection without localized columns. */
  ghost predicate NoLocale(lib: Library)
  {
    forall p, r :: lib.toRead(p, r) == r && lib.toWrite(p, r) == r
  }

  /** Then a reader finds exactly the data of the operation, or the changed record. */
  predicate DidPlainly(lib: Library, before: Files, after: Files, op: Op) {
    Get(lib, after, op.place, op.key) ==
    match op.action
    case Delete => Some(None)
    case Update =>
      var was := Get(lib, before, op.place, op.key);
      if was.Some? && was.value.Some? then Some(op.change(was.value.value)) else None
    case _ => Some(Some(op.data))
  }

  /** The images that go with an operation before anything is written. */
  ghost predicate Evident(lib: Library, files: Files, op: Op, exists_: bool, pre: Option<Image>, candidate: Option<Image>)
  {
    && Get(lib, files, op.place, op.key) == Some(pre) && (exists_ <==> pre.Some?)
    && (op.action == Insert || op.action == Set ==> candidate == Some(op.data))
    && (op.action == Update ==>
          !op.transforms && (pre.None? ==> candidate == None) && (pre.Some? ==> candidate.Some? && candidate == op.change(pre.value)))
    && (op.action == Delete ==> candidate == None)
  }

  /** The records that no operation names. */
  predicate Unnamed(ops: seq<Op>, p: Place, key: Key) {
    forall i :: 0 <= i < |ops| && ops[i].place.path == p.path ==>
      ops[i].place == p && p.kind == MapOfRecords && ops[i].key != key
  }

  // ----- The fold, by key -----

  lemma {:induction false} FoldAtOther(lib: Library, p: Place, all: map<Key, Image>, ops: seq<Op>, ps: seq<Prepared>, n: nat, key: Key)
    requires n <= |ops| == |ps|
    requires forall i :: 0 <= i < n && ops[i].place.path == p.path ==> ops[i].key != key
    ensures var f := Fold(lib, p, all, ops, ps, n);
            (key in f <==> key in all) && (key in f ==> f[key] == all[key])
  {
    if n > 0 {
      FoldAtOther(lib, p, all, ops, ps, n - 1, key);
    }
  }

  lemma {:induction false} FoldAtOwn(lib: Library, all: map<Key, Image>, ops: seq<Op>, ps: seq<Prepared>, n: nat, i: nat)
    requires DistinctRecords(ops) && i < n <= |ops| == |ps|
    ensures var f, op, p := Fold(lib, ops[i].place, all, ops, ps, n), ops[i], ops[i].place;
            && (op.action == Delete ==> op.key !in f)
            && (op.action != Delete && ps[i].candidate.Some? ==>
                  op.key in f && f[op.key] == lib.toWrite(p, ps[i].candidate.value))
    decreases n
  {
    var f0 := Fold(lib, ops[i].place, all, ops, ps, n - 1);
    assert Fold(lib, ops[i].place, all, ops, ps, n) ==
      if ops[n - 1].place.path == ops[i].place.path then FoldOne(lib, ops[i].place, f0, ops[n - 1], ps[n - 1].candidate) else f0;
    if n - 1 > i {
      FoldAtOwn(lib, all, ops, ps, n - 1, i);
    }
  }

  // ----- What a batch leaves -----

  /** One executed operation checked what was prepared for it. */
  lemma {:induction false} ExecutedChecked(lib: Library, files: Files, ops: seq<Op>, ps: seq<Prepared>, n: nat)
    requires n <= |ops| == |ps| && Execute(lib, files, ops, ps, n).Some?
    ensures forall i :: 0 <= i < n ==>
              && (ops[i].action == Insert ==> !ps[i].exists_)
              && (ops[i].action == Update || ops[i].action == Delete ==> ps[i].exists_)
              && (ops[i].action != Delete ==> ps[i].candidate.Some?)
  {
    if n > 0 {
      ExecutedChecked(lib, files, ops, ps, n - 1);
    }
  }

  /** A batch that executes did every one of its operations. */
  lemma BatchDoes(lib: Library, files: Files, ops: seq<Op>, ps: seq<Prepared>, i: nat)
    requires Lawful(lib) && DistinctRecords(ops) && Prepares(lib, files, ops, ps) && i < |ops|
    requires Execute(lib, files, ops, ps, |ops|).Some?
    ensures Did(lib, files, Execute(lib, files, ops, ps, |ops|).value, ops[i])
    ensures NoLocale(lib) ==> DidPlainly(lib, files, Execute(lib, files, ops, ps, |ops|).value, ops[i])
  {
    hide Execute, Fold, DistinctRecords;
    var after, op := Execute(lib, files, ops, ps, |ops|).value, ops[i];
    ExecutionKeepsFilesOk(lib, files, ops, ps, |ops|);
    ExecutedChecked(lib, files, ops, ps, |ops|);
    assert PrepareOp(lib, files, op) == Some(ps[i]);
    if op.place.kind == MapOfRecords {
      assert MapFileOk(lib, files, after, ops, ps, |ops|, op.place);
      FoldAtOwn(lib, ReadMap(lib, files, op.place).value, ops, ps, |ops|, i);
    } else {
      assert SingleFileOk(lib, files, after, ops, ps, |ops|, i);
    }
  }

  lemma {:induction false} UntouchedPath(lib: Library, files: Files, ops: seq<Op>, ps: seq<Prepared>, n: nat, path: Path)
    requires n <= |ops| == |ps| && Execute(lib, files, ops, ps, n).Some?
    requires forall i :: 0 <= i < |ops| ==> ops[i].place.path != path
    ensures var after := Execute(lib, files, ops, ps, n).value;
            (path in after <==> path in files) && (path in files ==> after[path] == files[path])
  {
    if n > 0 {
      UntouchedPath(lib, files, ops, ps, n - 1, path);
      OtherPathUntouched(lib, Execute(lib, files, ops, ps, n - 1).value, ops[n - 1], ps[n - 1], path);
    }
  }

  /** It leaves every other record as it was, those of the files that it rewrites included. */
  lemma BatchSparesOthers(lib: Library, files: Files, ops: seq<Op>, ps: seq<Prepared>, p: Place, key: Key)
    requires Lawful(lib) && DistinctRecords(ops) && Prepares(lib, files, ops, ps) && Unnamed(ops, p, key)
    requires Execute(lib, files, ops, ps, |ops|).Some?
    ensures Get(lib, Execute(lib, files, ops, ps, |ops|).value, p, key) == Get(lib, files, p, key)
  {
    hide Execute, Fold, DistinctRecords;
    var after := Execute(lib, files, ops, ps, |ops|).value;
    if forall i :: 0 <= i < |ops| ==> ops[i].place.path != p.path {
      UntouchedPath(lib, files, ops, ps, |ops|, p.path);
    } else {
      var i :| 0 <= i < |ops| && ops[i].place.path == p.path;
      ExecutionKeepsFilesOk(lib, files, ops, ps, |ops|);
      assert MapFileOk(lib, files, after, ops, ps, |ops|, ops[i].place);
      assert PrepareOp(lib, files, ops[i]) == Some(ps[i]);
      FoldAtOther(lib, p, ReadMap(lib, files, p).value, ops, ps, |ops|, key);
    }
  }

  // ----- When a batch goes through -----

  /** Every image and every map of images has an encoding. */
  ghost predicate Encodes(lib: Library)
  {
    (forall p, r :: lib.encodeOne(p, r).Some?) && (forall p, m :: lib.encodeMap(p, m).Some?)
  }

  /** Preparation refuses what cannot be read, transforms, and updates of existing records that do not apply. */
  lemma PreparesIff(lib: Library, files: Files, ops: seq<Op>)
    requires Encodes(lib)
    ensures (exists ps :: Prepares(lib, files, ops, ps)) <==>
            (forall i :: 0 <= i < |ops| ==>
               var was := Get(lib, files, ops[i].place, ops[i].key);
               && was.Some?
               && (ops[i].action == Update ==>
                     !ops[i].transforms && (was.value.Some? ==> ops[i].change(was.value.value).Some?)))
  {
    hide Get, Fold;
    if forall i :: 0 <= i < |ops| ==> PrepareOp(lib, files, ops[i]).Some? {
      var ps := seq(|ops|, i requires 0 <= i < |ops| => PrepareOp(lib, files, ops[i]).value);
      forall i | 0 <= i < |ops|
        ensures Predicted(lib, files, ops, ps, i).Some?
      {
        ReadableGroup(lib, files, ops, First(ops, ops[i].place.path));
      }
      assert Prepares(lib, files, ops, ps);
    } else {
      var i :| 0 <= i < |ops| && PrepareOp(lib, files, ops[i]).None?;
    }
  }

  lemma ReadableGroup(lib: Library, files: Files, ops: seq<Op>, i: nat)
    requires i < |ops| && PrepareOp(lib, files, ops[i]).Some?
    ensures ops[i].place.kind == MapOfRecords ==> ReadMap(lib, files, ops[i].place).Some?
  {
  }

  /** The premise of an operation on what a reader finds. */
  predicate Admissible(lib: Library, files: Files, op: Op) {
    var was := Get(lib, files, op.place, op.key);
    match op.action
    case Insert => was == Some(None)
    case Set => was.Some?
    case Update => was.Some? && was.value.Some?
    case Delete => was.Some? && was.value.Some?
  }

  /** A prepared batch executes exactly when every insert is of a missing record and every update and
      delete of an existing one. */
  lemma BatchExecutesIff(lib: Library, files: Files, ops: seq<Op>, ps: seq<Prepared>)
    requires Lawful(lib) && Encodes(lib) && DistinctRecords(ops) && Prepares(lib, files, ops, ps)
    ensures Execute(lib, files, ops, ps, |ops|).Some? <==> forall i :: 0 <= i < |ops| ==> Admissible(lib, files, ops[i])
  {
    hide Execute, Get, DistinctRecords, Lawful;
    if Execute(lib, files, ops, ps, |ops|).Some? {
      ExecutedChecked(lib, files, ops, ps, |ops|);
      forall i | 0 <= i < |ops|
        ensures Admissible(lib, files, ops[i])
      {
        assert PrepareOp(lib, files, ops[i]) == Some(ps[i]);
      }
    }
    if forall i :: 0 <= i < |ops| ==> Admissible(lib, files, ops[i]) {
      AdmissibleExecutes(lib, files, ops, ps, |ops|);
    }
  }

  lemma ExecuteUnfolds(lib: Library, files: Files, ops: seq<Op>, ps: seq<Prepared>, n: nat)
    requires n < |ops| == |ps|
    ensures var before := Execute(lib, files, ops, ps, n);
            Execute(lib, files, ops, ps, n + 1) == if before.None? then None else ExecuteOp(lib, before.value, ops[n], ps[n])
  {
    hide ExecuteOp;
  }

  lemma {:induction false} AdmissibleExecutes(lib: Library, files: Files, ops: seq<Op>, ps: seq<Prepared>, n: nat)
    requires Lawful(lib) && Encodes(lib) && DistinctRecords(ops) && n <= |ops| == |ps|
    requires forall i :: 0 <= i < |ops| ==> PrepareOp(lib, files, ops[i]) == Some(ps[i]) && Admissible(lib, files, ops[i])
    ensures Execute(lib, files, ops, ps, n).Some?
  {
    if n == 0 {
      NothingToExecute(lib, files, ops, ps);
    } else {
      hide Execute, Lawful, Encodes, DistinctRecords, PrepareOp, Admissible, FilesOk, ExecuteOp;
      AdmissibleExecutes(lib, files, ops, ps, n - 1);
      ExecutionKeepsFilesOk(lib, files, ops, ps, n - 1);
      NextIsAdmissible(lib, files, Execute(lib, files, ops, ps, n - 1).value, ops, ps, n - 1);
      ExecuteUnfolds(lib, files, ops, ps, n - 1);
    }
  }

  lemma NothingToExecute(lib: Library, files: Files, ops: seq<Op>, ps: seq<Prepared>)
    requires |ops| == |ps|
    ensures Execute(lib, files, ops, ps, 0) == Some(files)
  {
  }

  lemma NextIsAdmissible(lib: Library, files: Files, before: Files, ops: seq<Op>, ps: seq<Prepared>, n: nat)
    requires Encodes(lib) && DistinctRecords(ops) && n < |ops| == |ps| && FilesOk(lib, files, before, ops, ps, n)
    requires PrepareOp(lib, files, ops[n]) == Some(ps[n]) && Admissible(lib, files, ops[n])
    ensures ExecuteOp(lib, before, ops[n], ps[n]).Some?
  {
    var op := ops[n];
    if op.place.kind == MapOfRecords {
      assert MapFileOk(lib, files, before, ops, ps, n, op.place);
      OwnKeyStillAbsent(lib, ReadMap(lib, files, op.place).value, ops, ps, n);
    } else {
      assert SingleFileOk(lib, files, before, ops, ps, n, n);
    }
    hide Fold, DistinctRecords, FilesOk;
    AdmissibleRuns(lib, files, before, op, ps[n]);
  }

  lemma OwnKeyStillAbsent(lib: Library, all: map<Key, Image>, ops: seq<Op>, ps: seq<Prepared>, n: nat)
    requires DistinctRecords(ops) && n < |ops| == |ps|
    ensures ops[n].key in Fold(lib, ops[n].place, all, ops, ps, n) <==> ops[n].key in all
  {
    FoldAtOther(lib, ops[n].place, all, ops, ps, n, ops[n].key);
  }

  lemma AdmissibleRuns(lib: Library, files0: Files, files: Files, op: Op, p: Prepared)
    requires Encodes(lib) && PrepareOp(lib, files0, op) == Some(p) && Admissible(lib, files0, op)
    requires op.place.kind == MapOfRecords ==>
               && ReadMap(lib, files, op.place).Some? && ReadMap(lib, files0, op.place).Some?
               && (op.key in ReadMap(lib, files, op.place).value <==> op.key in ReadMap(lib, files0, op.place).value)
    requires op.place.kind == SingleRecord ==> (op.place.path in files <==> op.place.path in files0)
    ensures ExecuteOp(lib, files, op, p).Some?
  {
  }

  // ----- Batches that name a record twice -----

  /** Operations on one file agree on its layout, and a file of its own belongs to one record. */
  predicate SameLayout(ops: seq<Op>) {
    forall i, j :: 0 <= i < |ops| && 0 <= j < |ops| && ops[i].place.path == ops[j].place.path ==>
      ops[i].place == ops[j].place && (ops[i].place.kind == SingleRecord ==> ops[i].key == ops[j].key)
  }

  predicate Present(lib: Library, files: Files, p: Place, key: Key) {
    if p.kind == SingleRecord then p.path in files
    else ReadMap(lib, files, p).Some? && key in ReadMap(lib, files, p).value
  }

  lemma WritesKeep(lib: Library, files: Files, op: Op, pr: Prepared, p: Place, key: Key)
    requires Lawful(lib) && ExecuteOp(lib, files, op, pr).Some?
    requires Present(lib, files, p, key) || (op.key == key && op.place == p)
    requires op.place.path == p.path ==> op.place == p && (p.kind == SingleRecord ==> op.key == key)
    requires op.action == Delete ==> op.place.path != p.path || op.key != key
    ensures Present(lib, ExecuteOp(lib, files, op, pr).value, p, key)
  {
    if op.place.path != p.path {
      OtherPathUntouched(lib, files, op, pr, p.path);
    }
  }

  lemma {:induction false} InsertedStays(lib: Library, files: Files, ops: seq<Op>, ps: seq<Prepared>, i: nat, n: nat)
    requires Lawful(lib) && SameLayout(ops) && i < n <= |ops| == |ps|
    requires forall k :: 0 <= k < |ops| ==> PrepareOp(lib, files, ops[k]) == Some(ps[k])
    requires ops[i].action == Insert && Execute(lib, files, ops, ps, n).Some?
    ensures Present(lib, Execute(lib, files, ops, ps, n).value, ops[i].place, ops[i].key)
    decreases n
  {
    hide Lawful, ExecuteOp, Present;
    ExecutedChecked(lib, files, ops, ps, n);
    var op, before := ops[n - 1], Execute(lib, files, ops, ps, n - 1).value;
    assert PrepareOp(lib, files, op) == Some(ps[n - 1]) && PrepareOp(lib, files, ops[i]) == Some(ps[i]);
    if n - 1 > i {
      InsertedStays(lib, files, ops, ps, i, n - 1);
    }
    WritesKeep(lib, before, op, ps[n - 1], ops[i].place, ops[i].key);
  }

  /** A batch that inserts one record twice does not execute, whatever else it does. */
  lemma DuplicateInsertIsRefused(lib: Library, files: Files, ops: seq<Op>, ps: seq<Prepared>, i: nat, j: nat)
    requires Lawful(lib) && SameLayout(ops) && Prepares(lib, files, ops, ps) && i < j < |ops|
    requires ops[i].action == Insert && ops[j].action == Insert && ops[i].place == ops[j].place && ops[i].key == ops[j].key
    ensures Execute(lib, files, ops, ps, |ops|).None?
  {
    hide Execute, Lawful, SameLayout, Predicted, PrepareOp, ExecuteOp;
    if Execute(lib, files, ops, ps, |ops|).Some? {
      PrefixExecutes(lib, files, ops, ps, j + 1, |ops|);
      ExecuteUnfolds(lib, files, ops, ps, j);
      SecondIsRefused(lib, files, ops, ps, i, j);
    }
  }

  lemma SecondIsRefused(lib: Library, files: Files, ops: seq<Op>, ps: seq<Prepared>, i: nat, j: nat)
    requires Lawful(lib) && SameLayout(ops) && i < j < |ops| == |ps| && Execute(lib, files, ops, ps, j).Some?
    requires forall k :: 0 <= k < |ops| ==> PrepareOp(lib, files, ops[k]) == Some(ps[k])
    requires ops[i].action == Insert && ops[j].action == Insert && ops[i].place == ops[j].place && ops[i].key == ops[j].key
    ensures ExecuteOp(lib, Execute(lib, files, ops, ps, j).value, ops[j], ps[j]).None?
  {
    hide Execute, ExecuteOp, PrepareOp, Present, Lawful, SameLayout;
    InsertedStays(lib, files, ops, ps, i, j);
    SecondInsertFails(lib, Execute(lib, files, ops, ps, j).value, ops[j], ps[j]);
  }

  lemma SecondInsertFails(lib: Library, files: Files, op: Op, p: Prepared)
    requires op.action == Insert && Present(lib, files, op.place, op.key)
    ensures ExecuteOp(lib, files, op, p).None?
  {
  }

  lemma {:induction false} PrefixExecutes(lib: Library, files: Files, ops: seq<Op>, ps: seq<Prepared>, m: nat, n: nat)
    requires m <= n <= |ops| == |ps| && Execute(lib, files, ops, ps, n).Some?
    ensures Execute(lib, files, ops, ps, m).Some?
    decreases n
  {
    if m < n {
      PrefixExecutes(lib, files, ops, ps, m, n - 1);
    }
  }

  // ----- What a reader finds -----

  /** Of a missing file nothing; of a file that encodes one record, or a map of records, what it encodes. */
  lemma ReadersFind(lib: Library, files: Files, p: Place, key: Key, image: Image, all: map<Key, Image>)
    requires Lawful(lib)
    ensures p.path !in files ==> Get(lib, files, p, key) == Some(None)
    ensures p.kind == SingleRecord && p.path in files && lib.encodeOne(p, image) == Some(files[p.path]) ==>
              Get(lib, files, p, key) == Some(Some(lib.toRead(p, image)))
    ensures p.kind == MapOfRecords && p.path in files && lib.encodeMap(p, all) == Some(files[p.path]) ==>
              Get(lib, files, p, key) == Some(if key in all then Some(lib.toRead(p, all[key])) else None)
    ensures p.kind == MapOfRecords && p.path in files && lib.parseMap(p, files[p.path]).None? ==> Get(lib, files, p, key) == None
    ensures p.kind == SingleRecord && p.path in files && lib.parseOne(p, files[p.path]).None? ==> Get(lib, files, p, key) == None
  {
  }

  // ----- Revisions -----

  /** With a collision-free hash the data revision of a record changes exactly when its file does, or when it comes into
      being or goes. */
  lemma RevisionChangesIff(lib: Library, before: Files, after: Files, op: Op)
    requires InjectiveHash(lib) && DataRevision(lib, before, op).Some? && DataRevision(lib, after, op).Some?
    ensures DataRevision(lib, before, op) == DataRevision(lib, after, op) <==>
            && (Get(lib, before, op.place, op.key) == Some(None) <==> Get(lib, after, op.place, op.key) == Some(None))
            && (if op.place.path in before then before[op.place.path] else "") ==
               (if op.place.path in after then after[op.place.path] else "")
  {
  }
}
