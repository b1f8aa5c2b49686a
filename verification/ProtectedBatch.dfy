/** Protected batches (protected.go): the revision predicted for a whole batch, from one fold per file,
    against what sequential read-modify-write leaves on disk. */
module ProtectedBatch {
  import opened Common

  type Path = string
  type Key = string
  type Raw = string

  datatype Image = Image(fields: map<string, string>)

  datatype Kind = SingleRecord | MapOfRecords

  /** Where a record lives: resolveRecordPath, the collection's codec, and its record type. */
  datatype Place = Place(path: Path, collection: string, kind: Kind)

  datatype Action = Insert | Set | Update | Delete

  /** A protected operation; change stands for its field updates (None: they cannot be applied), and
      transforms says that one of them is a transform or a server timestamp. */
  datatype Op = Op(
    action: Action, target: string, place: Place, key: Key, data: Image,
    change: Image -> Option<Image>, transforms: bool)

  /** Codecs, locale mapping and the keyed hash, as functions. */
  datatype Library = Library(
    encodeOne: (Place, Image) -> Option<Raw>,
    parseOne: (Place, Raw) -> Option<Image>,
    encodeMap: (Place, map<Key, Image>) -> Option<Raw>,
    parseMap: (Place, Raw) -> Option<map<Key, Image>>,
    toWrite: (Place, Image) -> Image,
    toRead: (Place, Image) -> Image,
    hmac: (string, bool, Raw) -> string)

  /** What is encoded is parsed back. */
  ghost predicate Lawful(lib: Library)
  {
    && (forall p, r :: lib.encodeOne(p, r).Some? ==> lib.parseOne(p, lib.encodeOne(p, r).value) == Some(r))
    && (forall p, m :: lib.encodeMap(p, m).Some? ==> lib.parseMap(p, lib.encodeMap(p, m).value) == Some(m))
  }

  type Files = map<Path, Raw>

  function RawAt(files: Files, p: Path): Raw {
    if p in files then files[p] else ""
  }

  /** readMapOfRecordsFile: a missing file is an empty map; None is a parse error. */
  function ReadMap(lib: Library, files: Files, p: Place): Option<map<Key, Image>> {
    if p.path in files then lib.parseMap(p, files[p.path]) else Some(map[])
  }

  /** readonlyTx.Get: None is an error, Some(None) a missing record. */
  function Get(lib: Library, files: Files, p: Place, key: Key): Option<Option<Image>> {
    match p.kind
    case SingleRecord =>
      if p.path !in files then Some(None)
      else
        var r := lib.parseOne(p, files[p.path]);
        if r.None? then None else Some(Some(lib.toRead(p, r.value)))
    case MapOfRecords =>
      var all := ReadMap(lib, files, p);
      if all.None? then None
      else if key in all.value then Some(Some(lib.toRead(p, all.value[key])))
      else Some(None)
  }

  // ----- Preparation -----

  datatype Prepared = Prepared(exists_: bool, candidate: Option<Image>)

  /** The evidence loop of prepare, for one operation; None when it fails. */
  function PrepareOp(lib: Library, files: Files, op: Op): Option<Prepared> {
    var got := Get(lib, files, op.place, op.key);
    if got.None? then None
    else
      match op.action
      case Delete => Some(Prepared(got.value.Some?, None))
      case Update =>
        if op.transforms then None
        else if got.value.None? then Some(Prepared(false, None))
        else
          var changed := op.change(got.value.value);
          if changed.None? then None else Some(Prepared(true, changed))
      case _ => Some(Prepared(got.value.Some?, Some(op.data)))
  }

  /** protectedStorage.revision of what is on disk now. */
  function DataRevision(lib: Library, files: Files, op: Op): Option<string> {
    var got := Get(lib, files, op.place, op.key);
    if got.None? then None else Some(lib.hmac(op.target, got.value.Some?, RawAt(files, op.place.path)))
  }

  /** One operation folded into the records of the file laid out as p. */
  function FoldOne(lib: Library, p: Place, all: map<Key, Image>, op: Op, candidate: Option<Image>): map<Key, Image> {
    if op.action == Delete then all - {op.key}
    else if candidate.Some? then all[op.key := lib.toWrite(p, candidate.value)]
    else all
  }

  /** Those of the first n operations that are on p's file, folded into its records. */
  function Fold(lib: Library, p: Place, all: map<Key, Image>, ops: seq<Op>, ps: seq<Prepared>, n: nat): map<Key, Image>
    requires n <= |ops| == |ps|
  {
    if n == 0 then all
    else
      var init := Fold(lib, p, all, ops, ps, n - 1);
      if ops[n - 1].place.path == p.path then FoldOne(lib, p, init, ops[n - 1], ps[n - 1].candidate) else init
  }

  /** The first operation on a path: indexes[0] of its group. */
  function First(ops: seq<Op>, path: Path): (k: nat)
    requires exists i :: 0 <= i < |ops| && ops[i].place.path == path
    ensures k < |ops| && ops[k].place.path == path
    ensures forall i :: 0 <= i < k ==> ops[i].place.path != path
  {
    if ops[0].place.path == path then 0
    else
      assert exists i :: 0 <= i < |ops[1..]| && ops[1..][i].place.path == path by {
        var i :| 0 <= i < |ops| && ops[i].place.path == path;
        assert ops[1..][i - 1] == ops[i];
      }
      First(ops[1..], path) + 1
  }

  /** What a group of operations on one path is predicted to leave there, from its first operation. */
  function PredictedGroup(lib: Library, files: Files, ops: seq<Op>, ps: seq<Prepared>, first: nat): Option<(bool, Raw)>
    requires first < |ops| == |ps|
  {
    var p := ops[first].place;
    match p.kind
    case SingleRecord =>
      if ops[first].action != Delete && ps[first].candidate.Some? then
        var raw := lib.encodeOne(p, ps[first].candidate.value);
        if raw.None? then None else Some((true, raw.value))
      else Some((false, ""))
    case MapOfRecords =>
      var all := ReadMap(lib, files, p);
      if all.None? then None
      else
        var raw := lib.encodeMap(p, Fold(lib, p, all.value, ops, ps, |ops|));
        if raw.None? then None else Some((true, raw.value))
  }

  /** assignBatchCandidateRevisions: the existence flag and content it hashes for operation i. */
  function Predicted(lib: Library, files: Files, ops: seq<Op>, ps: seq<Prepared>, i: nat): Option<(bool, Raw)>
    requires i < |ops| == |ps|
  {
    PredictedGroup(lib, files, ops, ps, First(ops, ops[i].place.path))
  }

  /** prepare, including the prediction, succeeds with these evidence entries. */
  ghost predicate Prepares(lib: Library, files: Files, ops: seq<Op>, ps: seq<Prepared>)
  {
    && |ps| == |ops|
    && (forall i :: 0 <= i < |ops| ==> PrepareOp(lib, files, ops[i]) == Some(ps[i]))
    && (forall i :: 0 <= i < |ops| ==> Predicted(lib, files, ops, ps, i).Some?)
  }

  function CandidateRevision(lib: Library, files: Files, ops: seq<Op>, ps: seq<Prepared>, i: nat): string
    requires i < |ops| == |ps| && Predicted(lib, files, ops, ps, i).Some?
  {
    var (exists_, raw) := Predicted(lib, files, ops, ps, i).value;
    lib.hmac(ops[i].target, exists_, raw)
  }

  // ----- Execution -----

  function WriteMap(lib: Library, files: Files, p: Place, all: map<Key, Image>): Option<Files> {
    var raw := lib.encodeMap(p, all);
    if raw.None? then None else Some(files[p.path := raw.value])
  }

  /** readwriteTx.Set and Insert of a candidate (key rules and references hold trivially here). */
  function WriteRecord(lib: Library, files: Files, op: Op, image: Image): Option<Files> {
    match op.place.kind
    case SingleRecord =>
      var raw := lib.encodeOne(op.place, image);
      if raw.None? || (op.action == Insert && op.place.path in files) then None
      else Some(files[op.place.path := raw.value])
    case MapOfRecords =>
      var all := ReadMap(lib, files, op.place);
      if all.None? || (op.action == Insert && op.key in all.value) then None
      else WriteMap(lib, files, op.place, all.value[op.key := lib.toWrite(op.place, image)])
  }

  /** readwriteTx.Delete; a missing record is left alone. */
  function DeleteRecord(lib: Library, files: Files, op: Op): Option<Files> {
    match op.place.kind
    case SingleRecord => Some(files - {op.place.path})
    case MapOfRecords =>
      var all := ReadMap(lib, files, op.place);
      if all.None? then None
      else if op.key !in all.value then Some(files)
      else WriteMap(lib, files, op.place, all.value - {op.key})
  }

  /** One turn of the execute closure. */
  function ExecuteOp(lib: Library, files: Files, op: Op, p: Prepared): Option<Files> {
    match op.action
    case Insert => if p.exists_ || p.candidate.None? then None else WriteRecord(lib, files, op, p.candidate.value)
    case Set => if p.candidate.None? then None else WriteRecord(lib, files, op, p.candidate.value)
    case Update =>
      if !p.exists_ || p.candidate.None? then None else WriteRecord(lib, files, op, p.candidate.value)
    case Delete => if !p.exists_ then None else DeleteRecord(lib, files, op)
  }

  function Execute(lib: Library, files: Files, ops: seq<Op>, ps: seq<Prepared>, n: nat): Option<Files>
    requires n <= |ops| == |ps|
  {
    if n == 0 then Some(files)
    else
      var before := Execute(lib, files, ops, ps, n - 1);
      if before.None? then None else ExecuteOp(lib, before.value, ops[n - 1], ps[n - 1])
  }

  // ----- Prediction meets execution -----

  /** A batch on distinct records: records sharing a file share its layout and have different keys, and
      a single-record file belongs to one operation (its template contains {key}). */
  ghost predicate DistinctRecords(ops: seq<Op>)
  {
    forall i, j :: 0 <= i < j < |ops| && ops[i].place.path == ops[j].place.path ==>
      ops[i].place == ops[j].place && ops[i].place.kind == MapOfRecords && ops[i].key != ops[j].key
  }

  predicate Touched(ops: seq<Op>, path: Path, n: nat)
    requires n <= |ops|
  {
    exists i :: 0 <= i < n && ops[i].place.path == path
  }

  /** A map file after n operations: its records are the fold so far, and once touched its bytes are
      their encoding. */
  ghost predicate MapFileOk(lib: Library, files0: Files, files: Files, ops: seq<Op>, ps: seq<Prepared>, n: nat, p: Place)
    requires n <= |ops| == |ps|
  {
    ReadMap(lib, files0, p).Some? ==>
      var f := Fold(lib, p, ReadMap(lib, files0, p).value, ops, ps, n);
      && ReadMap(lib, files, p) == Some(f)
      && (Touched(ops, p.path, n) ==> p.path in files && lib.encodeMap(p, f) == Some(files[p.path]))
  }

  /** A single-record file after n operations: untouched, written or removed by its one operation. */
  ghost predicate SingleFileOk(lib: Library, files0: Files, files: Files, ops: seq<Op>, ps: seq<Prepared>, n: nat, i: nat)
    requires n <= |ops| == |ps| && i < |ops|
  {
    var p := ops[i].place;
    if i >= n then (p.path in files <==> p.path in files0) && RawAt(files, p.path) == RawAt(files0, p.path)
    else if ops[i].action == Delete then p.path !in files
    else p.path in files && ps[i].candidate.Some? && lib.encodeOne(p, ps[i].candidate.value) == Some(files[p.path])
  }

  ghost predicate FilesOk(lib: Library, files0: Files, files: Files, ops: seq<Op>, ps: seq<Prepared>, n: nat)
    requires n <= |ops| == |ps|
  {
    forall i :: 0 <= i < |ops| ==>
      (ops[i].place.kind == MapOfRecords ==> MapFileOk(lib, files0, files, ops, ps, n, ops[i].place))
      && (ops[i].place.kind == SingleRecord ==> SingleFileOk(lib, files0, files, ops, ps, n, i))
  }

  /** Operations on other keys leave a key's presence in the fold as it was. */
  lemma {:induction false} FoldKeepsOtherKey(lib: Library, p: Place, all: map<Key, Image>, ops: seq<Op>, ps: seq<Prepared>, n: nat, key: Key)
    requires n <= |ops| == |ps|
    requires forall i :: 0 <= i < n && ops[i].place.path == p.path ==> ops[i].key != key
    ensures key in Fold(lib, p, all, ops, ps, n) <==> key in all
  {
    if n > 0 {
      FoldKeepsOtherKey(lib, p, all, ops, ps, n - 1, key);
    }
  }

  lemma OtherPathUntouched(lib: Library, files: Files, op: Op, p: Prepared, path: Path)
    requires ExecuteOp(lib, files, op, p).Some? && path != op.place.path
    ensures var after := ExecuteOp(lib, files, op, p).value;
            (path in after <==> path in files) && (path in files ==> after[path] == files[path])
  {
  }

  /** The n-th operation on its own map file writes the next fold. */
  lemma MapOpFolds(lib: Library, files0: Files, files: Files, ops: seq<Op>, ps: seq<Prepared>, n: nat)
    requires Lawful(lib) && DistinctRecords(ops) && n < |ops| == |ps|
    requires PrepareOp(lib, files0, ops[n]) == Some(ps[n])
    requires ops[n].place.kind == MapOfRecords
    requires MapFileOk(lib, files0, files, ops, ps, n, ops[n].place)
    requires ExecuteOp(lib, files, ops[n], ps[n]).Some?
    ensures MapFileOk(lib, files0, ExecuteOp(lib, files, ops[n], ps[n]).value, ops, ps, n + 1, ops[n].place)
  {
    var p := ops[n].place;
    var all0 := ReadMap(lib, files0, p).value;
    FoldKeepsOtherKey(lib, p, all0, ops, ps, n, ops[n].key);
    var f := Fold(lib, p, all0, ops, ps, n);
    assert Fold(lib, p, all0, ops, ps, n + 1) == FoldOne(lib, p, f, ops[n], ps[n].candidate);
  }

  lemma StepKeepsFilesOk(lib: Library, files0: Files, files: Files, ops: seq<Op>, ps: seq<Prepared>, n: nat)
    requires Lawful(lib) && DistinctRecords(ops) && n < |ops| == |ps|
    requires PrepareOp(lib, files0, ops[n]) == Some(ps[n])
    requires FilesOk(lib, files0, files, ops, ps, n)
    requires ExecuteOp(lib, files, ops[n], ps[n]).Some?
    ensures FilesOk(lib, files0, ExecuteOp(lib, files, ops[n], ps[n]).value, ops, ps, n + 1)
  {
    var after := ExecuteOp(lib, files, ops[n], ps[n]).value;
    forall i | 0 <= i < |ops|
      ensures ops[i].place.kind == MapOfRecords ==> MapFileOk(lib, files0, after, ops, ps, n + 1, ops[i].place)
      ensures ops[i].place.kind == SingleRecord ==> SingleFileOk(lib, files0, after, ops, ps, n + 1, i)
    {
      if ops[i].place.path != ops[n].place.path {
        OtherPathUntouched(lib, files, ops[n], ps[n], ops[i].place.path);
      } else if ops[i].place.kind == MapOfRecords {
        MapOpFolds(lib, files0, files, ops, ps, n);
        assert ops[i].place == ops[n].place;
      } else {
        assert i == n;
      }
    }
  }

  lemma NothingExecuted(lib: Library, files: Files, ops: seq<Op>, ps: seq<Prepared>)
    requires |ops| == |ps|
    ensures FilesOk(lib, files, files, ops, ps, 0)
  {
    hide ReadMap;
  }

  lemma {:induction false} ExecutionKeepsFilesOk(lib: Library, files: Files, ops: seq<Op>, ps: seq<Prepared>, n: nat)
    requires Lawful(lib) && DistinctRecords(ops) && n <= |ops| == |ps|
    requires forall i :: 0 <= i < |ops| ==> PrepareOp(lib, files, ops[i]) == Some(ps[i])
    requires Execute(lib, files, ops, ps, n).Some?
    ensures FilesOk(lib, files, Execute(lib, files, ops, ps, n).value, ops, ps, n)
  {
    hide Lawful, DistinctRecords, PrepareOp, ExecuteOp, FilesOk;
    if n == 0 {
      NothingExecuted(lib, files, ops, ps);
    } else {
      ExecutionKeepsFilesOk(lib, files, ops, ps, n - 1);
      StepKeepsFilesOk(lib, files, Execute(lib, files, ops, ps, n - 1).value, ops, ps, n - 1);
    }
  }

  /** An operation whose candidate revision is computed with the wrong existence flag. */
  predicate MapFileDelete(op: Op) {
    op.action == Delete && op.place.kind == MapOfRecords
  }

  lemma {:induction false} FoldPresence(lib: Library, all: map<Key, Image>, ops: seq<Op>, ps: seq<Prepared>, n: nat, i: nat)
    requires DistinctRecords(ops) && i < n <= |ops| == |ps|
    requires ops[i].action != Delete ==> ps[i].candidate.Some?
    ensures ops[i].key in Fold(lib, ops[i].place, all, ops, ps, n) <==> ops[i].action != Delete
  {
    if n - 1 == i {
      assert Fold(lib, ops[i].place, all, ops, ps, n) ==
        FoldOne(lib, ops[i].place, Fold(lib, ops[i].place, all, ops, ps, n - 1), ops[i], ps[i].candidate);
    } else {
      FoldPresence(lib, all, ops, ps, n - 1, i);
    }
  }

  /** A successful execution had a candidate for every operation but the deletes. */
  lemma {:induction false} ExecutedHaveCandidates(lib: Library, files: Files, ops: seq<Op>, ps: seq<Prepared>, n: nat)
    requires n <= |ops| == |ps| && Execute(lib, files, ops, ps, n).Some?
    ensures forall i :: 0 <= i < n && ops[i].action != Delete ==> ps[i].candidate.Some?
  {
    if n > 0 {
      ExecutedHaveCandidates(lib, files, ops, ps, n - 1);
    }
  }

  /** On distinct records, a group's first operation speaks for all of it. */
  lemma FirstSpeaksForAll(ops: seq<Op>, i: nat)
    requires DistinctRecords(ops) && i < |ops|
    ensures var first := First(ops, ops[i].place.path);
            ops[first].place == ops[i].place && (ops[i].place.kind == SingleRecord ==> first == i)
  {
    var first := First(ops, ops[i].place.path);
    assert first <= i;
  }

  /** What a second preparation finds for operation i. */
  lemma SecondPreparation(lib: Library, files: Files, ops: seq<Op>, ps: seq<Prepared>, i: nat)
    requires Lawful(lib) && DistinctRecords(ops) && Prepares(lib, files, ops, ps) && i < |ops|
    requires Execute(lib, files, ops, ps, |ops|).Some?
    ensures var after := Execute(lib, files, ops, ps, |ops|).value;
            && DataRevision(lib, after, ops[i]) ==
               Some(lib.hmac(ops[i].target, ops[i].action != Delete, RawAt(after, ops[i].place.path)))
            && RawAt(after, ops[i].place.path) == Predicted(lib, files, ops, ps, i).value.1
            && Predicted(lib, files, ops, ps, i).value.0 == (ops[i].action != Delete || MapFileDelete(ops[i]))
  {
    var after := Execute(lib, files, ops, ps, |ops|).value;
    FirstSpeaksForAll(ops, i);
    ExecutionKeepsFilesOk(lib, files, ops, ps, |ops|);
    ExecutedHaveCandidates(lib, files, ops, ps, |ops|);
    if ops[i].place.kind == MapOfRecords {
      assert MapFileOk(lib, files, after, ops, ps, |ops|, ops[i].place);
      assert Touched(ops, ops[i].place.path, |ops|);
      FoldPresence(lib, ReadMap(lib, files, ops[i].place).value, ops, ps, |ops|, i);
    } else {
      assert SingleFileOk(lib, files, after, ops, ps, |ops|, i);
    }
  }

  /** If Execute succeeds, preparing again gives every inserted, set or updated record, and every record
      deleted from a file of its own, the revision that was predicted for the batch. */
  lemma PredictionHolds(lib: Library, files: Files, ops: seq<Op>, ps: seq<Prepared>, i: nat)
    requires Lawful(lib) && DistinctRecords(ops) && Prepares(lib, files, ops, ps) && i < |ops|
    requires Execute(lib, files, ops, ps, |ops|).Some? && !MapFileDelete(ops[i])
    ensures DataRevision(lib, Execute(lib, files, ops, ps, |ops|).value, ops[i]) ==
            Some(CandidateRevision(lib, files, ops, ps, i))
  {
    SecondPreparation(lib, files, ops, ps, i);
  }

  ghost predicate InjectiveHash(lib: Library)
  {
    forall t, e1, r1, e2, r2 :: lib.hmac(t, e1, r1) == lib.hmac(t, e2, r2) ==> e1 == e2 && r1 == r2
  }

  /** With a collision-free hash the exception is exact: the prediction fails for deletes from a map file
      and for nothing else, since it always assumes that the record exists. */
  lemma PredictionHoldsIff(lib: Library, files: Files, ops: seq<Op>, ps: seq<Prepared>, i: nat)
    requires Lawful(lib) && InjectiveHash(lib) && DistinctRecords(ops) && Prepares(lib, files, ops, ps)
    requires i < |ops| && Execute(lib, files, ops, ps, |ops|).Some?
    ensures (DataRevision(lib, Execute(lib, files, ops, ps, |ops|).value, ops[i]) ==
             Some(CandidateRevision(lib, files, ops, ps, i))) <==> !MapFileDelete(ops[i])
  {
    SecondPreparation(lib, files, ops, ps, i);
  }

  /** Deleting one record of any map file: the batch prepares and executes, and its prediction is wrong. */
  lemma MapFileDeleteIsMispredicted(lib: Library, all: map<Key, Image>, op: Op)
    requires Lawful(lib) && InjectiveHash(lib) && MapFileDelete(op) && op.key in all
    requires lib.encodeMap(op.place, all).Some? && lib.encodeMap(op.place, all - {op.key}).Some?
    ensures var files := map[op.place.path := lib.encodeMap(op.place, all).value];
            var ps := [Prepared(true, None)];
            && Prepares(lib, files, [op], ps)
            && Execute(lib, files, [op], ps, 1).Some?
            && DataRevision(lib, Execute(lib, files, [op], ps, 1).value, op) !=
               Some(CandidateRevision(lib, files, [op], ps, 0))
  {
    var files := map[op.place.path := lib.encodeMap(op.place, all).value];
    var ps := [Prepared(true, None)];
    assert Fold(lib, op.place, all, [op], ps, 1) ==
           FoldOne(lib, op.place, Fold(lib, op.place, all, [op], ps, 0), op, None);
    assert Predicted(lib, files, [op], ps, 0).Some?;
    assert Execute(lib, files, [op], ps, 0) == Some(files);
    PredictionHoldsIff(lib, files, [op], ps, 0);
  }
}
