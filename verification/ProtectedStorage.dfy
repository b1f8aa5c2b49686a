/** protectedStorage as it runs: the evidence loop, the grouping by path, and the one-shot execute
    closure with its rollback, each proved against the functions of ProtectedBatch. */
module ProtectedStorage {
  import opened Common
  import opened ProtectedBatch
  import opened ProtectedEffects

  datatype Evidence = Evidence(
    exists_: bool, preImage: Option<Image>, candidateImage: Option<Image>, dataRevision: string, candidateRevision: string)

  datatype ExecuteError = AlreadyCalled | Rejected

  /** Every path has its starting content or has it saved. */
  ghost predicate Covered(base: Files, files: Files, saved: map<Path, Option<Raw>>)
  {
    && (forall p :: p in saved ==> saved[p] == Content(base, p))
    && (forall p :: p !in saved ==> Content(files, p) == Content(base, p))
  }

  ghost predicate SameBut(a: Files, b: Files, path: Path)
  {
    forall p :: p != path ==> Content(b, p) == Content(a, p)
  }

  /** Changing a file that was saved first keeps everything covered. */
  lemma StaysCovered(base: Files, files: Files, after: Files, saved: map<Path, Option<Raw>>, path: Path)
    requires Covered(base, files, saved) && SameBut(files, after, path)
    ensures Covered(base, after, if path in saved then saved else saved[path := Content(files, path)])
  {
  }

  lemma AllStayCovered(files: Files, after: Files, saved: map<Path, Option<Raw>>, path: Path)
    requires SameBut(files, after, path)
    ensures forall base :: Covered(base, files, saved) ==>
              Covered(base, after, if path in saved then saved else saved[path := Content(files, path)])
  {
    forall base | Covered(base, files, saved)
      ensures Covered(base, after, if path in saved then saved else saved[path := Content(files, path)])
    {
      StaysCovered(base, files, after, saved, path);
    }
  }

  lemma TouchedBy(ops: seq<Op>, n: nat)
    requires n < |ops|
    ensures Touched(ops, ops[n].place.path, |ops|)
  {
  }

  function Content(files: Files, p: Path): Option<Raw> {
    if p in files then Some(files[p]) else None
  }

  class Storage {
    const lib: Library
    var files: Files
    var saved: map<Path, Option<Raw>>
    var called: bool

    constructor (lib: Library, files: Files)
      ensures this.lib == lib && this.files == files && saved == map[] && !called
    {
      this.lib, this.files, saved, called := lib, files, map[], false;
    }

    /** The indexes of the operations on each path, in order. */
    method GroupByPath(ops: seq<Op>) returns (byPath: map<Path, seq<nat>>)
      ensures forall i :: 0 <= i < |ops| ==> ops[i].place.path in byPath
      ensures forall p :: p in byPath ==> GroupOk(ops, p, byPath[p], |ops|)
    {
      hide GroupOk;
      byPath := map[];
      for i := 0 to |ops|
        invariant forall k :: 0 <= k < i ==> ops[k].place.path in byPath
        invariant forall p :: p in byPath ==> GroupOk(ops, p, byPath[p], i)
      {
        forall p | p in byPath
          ensures GroupOk(ops, p, if p == ops[i].place.path then byPath[p] + [i] else byPath[p], i + 1)
        {
          GroupGrows(ops, p, byPath[p], i);
        }
        var p := ops[i].place.path;
        if p in byPath {
          byPath := byPath[p := byPath[p] + [i]];
        } else {
          GroupStarts(ops, p, i);
          byPath := byPath[p := [i]];
        }
      }
    }

    /** The map-file branch: the group's operations folded into the file's records. */
    method FoldGroup(ops: seq<Op>, ps: seq<Prepared>, indexes: seq<nat>, p: Place, start: map<Key, Image>)
      returns (all: map<Key, Image>)
      requires |ops| == |ps| && GroupOk(ops, p.path, indexes, |ops|)
      ensures all == Fold(lib, p, start, ops, ps, |ops|)
    {
      all := start;
      SkipsFold(lib, p, start, ops, ps, 0, indexes[0]);
      for k := 0 to |indexes|
        invariant all == Fold(lib, p, start, ops, ps, if k < |indexes| then indexes[k] else |ops|)
      {
        var i := indexes[k];
        if ops[i].action == Delete {
          all := all - {ops[i].key};
        } else if ps[i].candidate.Some? {
          all := all[ops[i].key := lib.toWrite(p, ps[i].candidate.value)];
        }
        assert all == Fold(lib, p, start, ops, ps, i + 1);
        SkipsFold(lib, p, start, ops, ps, i + 1, if k + 1 < |indexes| then indexes[k + 1] else |ops|);
      }
    }

    method PredictGroup(ops: seq<Op>, ps: seq<Prepared>, indexes: seq<nat>, ghost path: Path)
      returns (r: Option<(bool, Raw)>)
      requires |ops| == |ps| && GroupOk(ops, path, indexes, |ops|)
      ensures r == PredictedGroup(lib, files, ops, ps, indexes[0])
    {
      var first := indexes[0];
      var p := ops[first].place;
      match p.kind {
        case SingleRecord =>
          if ops[first].action != Delete && ps[first].candidate.Some? {
            var raw := lib.encodeOne(p, ps[first].candidate.value);
            return if raw.None? then None else Some((true, raw.value));
          }
          return Some((false, ""));
        case MapOfRecords =>
          var read := ReadMap(lib, files, p);
          if read.None? {
            return None;
          }
          var all := FoldGroup(ops, ps, indexes, p, read.value);
          var raw := lib.encodeMap(p, all);
          return if raw.None? then None else Some((true, raw.value));
      }
    }

    /** One path of the batch: predicts its file and stamps the operations on it. */
    method AssignPath(ops: seq<Op>, ps: seq<Prepared>, indexes: seq<nat>, ghost path: Path, evidence: array<Evidence>)
      returns (ok: bool)
      requires |ops| == |ps| == evidence.Length && GroupOk(ops, path, indexes, |ops|)
      modifies evidence
      ensures forall i :: 0 <= i < |ops| && ops[i].place.path != path ==> evidence[i] == old(evidence[i])
      ensures ok ==> forall i :: 0 <= i < |ops| && ops[i].place.path == path ==>
                Stamped(lib, files, ops, ps, i, old(evidence[i]), evidence[i])
      ensures !ok ==> exists i :: 0 <= i < |ops| && Predicted(lib, files, ops, ps, i).None?
    {
      var predicted := PredictGroup(ops, ps, indexes, path);
      IndexesStartAtFirst(ops, path, indexes);
      GroupPredicts(lib, files, ops, ps, path, predicted);
      hide PredictedGroup, Predicted, CandidateRevision, GroupOk;
      if predicted.None? {
        assert Predicted(lib, files, ops, ps, indexes[0]).None?;
        return false;
      }
      StampGroup(ops, ps, indexes, path, predicted.value, evidence);
      return true;
    }

    /** assignBatchCandidateRevisions. Groups are visited in any order. */
    method AssignBatchCandidateRevisions(ops: seq<Op>, ps: seq<Prepared>, evidence: array<Evidence>) returns (ok: bool)
      requires |ops| == |ps| == evidence.Length
      modifies evidence
      ensures ok <==> forall i :: 0 <= i < |ops| ==> Predicted(lib, files, ops, ps, i).Some?
      ensures ok ==> forall i :: 0 <= i < |ops| ==>
                evidence[i] == old(evidence[i]).(candidateRevision := CandidateRevision(lib, files, ops, ps, i))
    {
      hide PredictedGroup, Predicted, Stamped, GroupOk;
      var byPath := GroupByPath(ops);
      var todo := byPath.Keys;
      while todo != {}
        invariant todo <= byPath.Keys
        invariant forall i :: 0 <= i < |ops| && ops[i].place.path !in todo ==>
                    Stamped(lib, files, ops, ps, i, old(evidence[i]), evidence[i])
        invariant forall i :: 0 <= i < |ops| && ops[i].place.path in todo ==> evidence[i] == old(evidence[i])
        decreases todo
      {
        var path: Path :| path in todo;
        todo := todo - {path};
        var done := AssignPath(ops, ps, byPath[path], path, evidence);
        if !done {
          return false;
        }
      }
      StampedMeans(lib, files, ops, ps, old(evidence[..]), evidence[..]);
      return true;
    }

    method StampGroup(ops: seq<Op>, ghost ps: seq<Prepared>, indexes: seq<nat>, ghost path: Path, predicted: (bool, Raw),
                      evidence: array<Evidence>)
      requires |ops| == |ps| == evidence.Length && GroupOk(ops, path, indexes, |ops|)
      modifies evidence
      ensures forall i :: 0 <= i < |ops| ==>
                evidence[i] == if ops[i].place.path != path then old(evidence[i])
                               else old(evidence[i]).(candidateRevision := lib.hmac(ops[i].target, predicted.0, predicted.1))
    {
      for k := 0 to |indexes|
        invariant forall j :: k <= j < |indexes| ==> evidence[indexes[j]] == old(evidence[indexes[j]])
        invariant forall i :: 0 <= i < |ops| && i !in indexes[..k] ==> evidence[i] == old(evidence[i])
        invariant forall i :: i in indexes[..k] ==>
                    evidence[i] == old(evidence[i]).(candidateRevision := lib.hmac(ops[i].target, predicted.0, predicted.1))
      {
        var i := indexes[k];
        evidence[i] := evidence[i].(candidateRevision := lib.hmac(ops[i].target, predicted.0, predicted.1));
        assert indexes[..k + 1] == indexes[..k] + [i];
      }
      assert indexes[..|indexes|] == indexes;
    }

    /** prepare: evidence for every operation, then the revisions predicted for the batch. */
    method Prepare(ops: seq<Op>) returns (ok: bool, ps: seq<Prepared>, evidence: array<Evidence>)
      ensures fresh(evidence)
      ensures ok ==> Prepares(lib, files, ops, ps) && evidence.Length == |ops|
      ensures ok ==> forall i :: 0 <= i < |ops| ==>
                && Evident(lib, files, ops[i], evidence[i].exists_, evidence[i].preImage, evidence[i].candidateImage)
                && Some(evidence[i].dataRevision) == DataRevision(lib, files, ops[i])
                && evidence[i].candidateRevision == CandidateRevision(lib, files, ops, ps, i)
      ensures !ok ==> forall any: seq<Prepared> :: !Prepares(lib, files, ops, any)
    {
      evidence := new Evidence[|ops|](_ => Evidence(false, None, None, "", ""));
      ps := [];
      ok := true;
      for i := 0 to |ops|
        invariant |ps| == i
        invariant forall k :: 0 <= k < i ==> PrepareOp(lib, files, ops[k]) == Some(ps[k])
        invariant forall k :: 0 <= k < i ==>
                    && Evident(lib, files, ops[k], evidence[k].exists_, evidence[k].preImage, evidence[k].candidateImage)
                    && Some(evidence[k].dataRevision) == DataRevision(lib, files, ops[k])
      {
        var prepared := PrepareOp(lib, files, ops[i]);
        if prepared.None? {
          ok := false;
          return;
        }
        ps := ps + [prepared.value];
        evidence[i] := Evidence(
          prepared.value.exists_, Get(lib, files, ops[i].place, ops[i].key).value, prepared.value.candidate,
          lib.hmac(ops[i].target, prepared.value.exists_, RawAt(files, ops[i].place.path)), "");
      }
      ok := AssignBatchCandidateRevisions(ops, ps, evidence);
      forall any: seq<Prepared> | Prepares(lib, files, ops, any)
        ensures any == ps
      {
        assert forall i :: 0 <= i < |ops| ==> any[i] == ps[i];
      }
    }

    /** One operation of the execute closure: the file is saved, then changed or torn. */
    method ExecuteStep(op: Op, p: Prepared, torn: Option<Raw>) returns (ok: bool)
      modifies this`files, this`saved
      ensures ok <==> torn.None? && ExecuteOp(lib, old(files), op, p).Some?
      ensures ok ==> ExecuteOp(lib, old(files), op, p) == Some(files)
      ensures SameBut(old(files), files, op.place.path)
      ensures saved == if op.place.path in old(saved) then old(saved)
                       else old(saved)[op.place.path := Content(old(files), op.place.path)]
    {
      hide ExecuteOp;
      var path := op.place.path;
      if path !in saved {
        saved := saved[path := Content(files, path)];
      }
      if torn.Some? {
        files := files[path := torn.value];
        return false;
      }
      var next := ExecuteOp(lib, files, op, p);
      if next.None? {
        return false;
      }
      ghost var before := files;
      files := next.value;
      forall q | q != path
        ensures Content(files, q) == Content(before, q)
      {
        OtherPathUntouched(lib, before, op, p, q);
      }
      return true;
    }

    /** protectedExecution.Execute: at most once, operation by operation, up to the first error. Each
        operation saves its file before it touches it; a write that tears, at operation tear.0, leaves any
        content. */
    method ExecuteOnce(ops: seq<Op>, ps: seq<Prepared>, tear: Option<(nat, Raw)>) returns (r: Result<(), ExecuteError>)
      requires |ops| == |ps|
      modifies this
      ensures called
      ensures old(called) ==> r == Err(AlreadyCalled) && files == old(files) && saved == old(saved)
      ensures !old(called) ==>
                (if Execute(lib, old(files), ops, ps, |ops|).Some? && !(tear.Some? && tear.value.0 < |ops|)
                 then r == Ok(()) && files == Execute(lib, old(files), ops, ps, |ops|).value
                 else r == Err(Rejected))
      ensures forall base :: Covered(base, old(files), old(saved)) ==> Covered(base, files, saved)
      ensures forall p :: p in saved ==> p in old(saved) || Touched(ops, p, |ops|)
    {
      if called {
        return Err(AlreadyCalled);
      }
      hide ExecuteOp, Touched, Covered, SameBut, Content;
      called := true;
      ghost var files0 := files;
      for n := 0 to |ops|
        invariant called && (tear.Some? ==> n <= tear.value.0)
        invariant Execute(lib, files0, ops, ps, n) == Some(files)
        invariant forall base :: Covered(base, old(files), old(saved)) ==> Covered(base, files, saved)
        invariant forall p :: p in saved ==> p in old(saved) || Touched(ops, p, |ops|)
      {
        var path := ops[n].place.path;
        TouchedBy(ops, n);
        ghost var before, savedBefore := files, saved;
        var torn := if tear.Some? && tear.value.0 == n then Some(tear.value.1) else None;
        var done := ExecuteStep(ops[n], ps[n], torn);
        AllStayCovered(before, files, savedBefore, path);
        if !done {
          if torn.None? {
            LaterFailure(lib, files0, ops, ps, n + 1, |ops|);
          }
          return Err(Rejected);
        }
      }
      return Ok(());
    }

    /** restoreSnapshots over the saved contents; it may stop at one file and leave anything there. */
    method Rollback(fault: Option<(Path, Raw)>) returns (restored: bool)
      modifies this`files
      ensures restored ==> forall p :: Content(files, p) == if p in saved then saved[p] else old(Content(files, p))
      ensures forall p :: p !in saved ==> Content(files, p) == old(Content(files, p))
      ensures restored <==> !(fault.Some? && fault.value.0 in saved)
    {
      var todo := saved.Keys;
      while todo != {}
        invariant todo <= saved.Keys
        invariant fault.Some? && fault.value.0 in saved ==> fault.value.0 in todo
        invariant forall p :: Content(files, p) ==
                    if p in saved && p !in todo then saved[p] else old(Content(files, p))
        decreases todo
      {
        var p: Path :| p in todo;
        todo := todo - {p};
        if fault.Some? && fault.value.0 == p {
          files := files[p := fault.value.1];
          return false;
        }
        files := if saved[p].None? then files - {p} else files[p := saved[p].value];
      }
      return true;
    }

    /** WithinProtectedExecution for a caller that asks for any number of executions, sees their results
        and then accepts or refuses. Whatever happened, torn writes included, a refusal leaves every file as it
        was if the rollback goes through, and otherwise changes only files of the batch; an acceptance after an
        execution that succeeded leaves the batch, with the predicted revisions. */
    method WithinProtectedExecution(ops: seq<Op>, asks: nat, accepts: bool, tear: Option<(nat, Raw)>, fault: Option<(Path, Raw)>)
      returns (ok: bool, executed: bool, restored: bool)
      modifies this
      ensures !ok && restored ==> files == old(files)
      ensures forall p :: !Touched(ops, p, |ops|) ==> Content(files, p) == old(Content(files, p))
      ensures ok <==> accepts && exists ps :: Prepares(lib, old(files), ops, ps)
      ensures asks == 0 ==> !executed && files == old(files)
      ensures fault.None? || ok ==> restored
      ensures ok && executed ==> BatchDone(lib, old(files), files, ops)
      ensures ok && asks > 0 && tear.None? && Lawful(lib) && Encodes(lib) && DistinctRecords(ops) ==>
                (executed <==> forall i :: 0 <= i < |ops| ==> Admissible(lib, old(files), ops[i]))
    {
      hide Prepares, Execute, BatchDone, Lawful, DistinctRecords, Encodes, Admissible, Covered, Touched, Content;
      hide Evident, DataRevision, CandidateRevision;
      ghost var files0 := files;
      var prepared, ps, evidence := Prepare(ops);
      if !prepared {
        return false, false, true;
      }
      executed := RunExecutions(ops, ps, asks, tear);
      if !accepts {
        ghost var left := files;
        restored := Rollback(fault);
        RolledBack(files0, left, files, saved, ops, restored);
        return false, executed, restored;
      }
      if Lawful(lib) && Encodes(lib) && DistinctRecords(ops) {
        BatchExecutesIff(lib, files0, ops, ps);
      }
      if executed {
        ExecutedIsDone(lib, files0, files, ops, ps);
      }
      return true, executed, true;
    }

    /** The callback's calls of Execute; at most the first one does anything. */
    method RunExecutions(ops: seq<Op>, ps: seq<Prepared>, asks: nat, tear: Option<(nat, Raw)>) returns (executed: bool)
      requires |ops| == |ps|
      modifies this
      ensures Covered(old(files), files, saved) && forall p :: p in saved ==> Touched(ops, p, |ops|)
      ensures forall p :: !Touched(ops, p, |ops|) ==> Content(files, p) == old(Content(files, p))
      ensures asks == 0 ==> files == old(files) && saved == map[] && !executed
      ensures executed ==> Execute(lib, old(files), ops, ps, |ops|) == Some(files)
      ensures asks > 0 && tear.None? && !executed ==> Execute(lib, old(files), ops, ps, |ops|).None?
    {
      saved, called, executed := map[], false, false;
      ghost var files0 := files;
      NothingSaved(files);
      hide Execute, Touched, Covered;
      for k := 0 to asks
        invariant Covered(files0, files, saved) && forall p :: p in saved ==> Touched(ops, p, |ops|)
        invariant called <==> k > 0
        invariant k == 0 ==> files == files0 && saved == map[] && !executed
        invariant executed ==> Execute(lib, files0, ops, ps, |ops|) == Some(files)
        invariant k > 0 && tear.None? && !executed ==> Execute(lib, files0, ops, ps, |ops|).None?
      {
        var r := ExecuteOnce(ops, ps, tear);
        executed := executed || r.Ok?;
      }
      OnlySavedDiffer(files0, files, saved);
    }
  }

  lemma NothingSaved(files: Files)
    ensures Covered(files, files, map[])
  {
  }

  lemma OnlySavedDiffer(base: Files, files: Files, saved: map<Path, Option<Raw>>)
    requires Covered(base, files, saved)
    ensures forall p :: p !in saved ==> Content(files, p) == Content(base, p)
  {
  }

  lemma RolledBack(base: Files, left: Files, files: Files, saved: map<Path, Option<Raw>>, ops: seq<Op>, restored: bool)
    requires Covered(base, left, saved) && forall p :: p in saved ==> Touched(ops, p, |ops|)
    requires forall p :: p !in saved ==> Content(files, p) == Content(left, p)
    requires restored ==> forall p :: Content(files, p) == if p in saved then saved[p] else Content(left, p)
    ensures restored ==> files == base
    ensures forall p :: !Touched(ops, p, |ops|) ==> Content(files, p) == Content(base, p)
  {
    hide Touched;
    if restored {
      SameContent(base, files);
    }
  }

  /** What an accepted batch has done: it is the execution of what was prepared; outside map-file deletes every record has
      the revision that was predicted; and, record by record, every operation is done and every record that none names is
      as it was. */
  ghost predicate BatchDone(lib: Library, before: Files, after: Files, ops: seq<Op>)
  {
    && (forall ps :: Prepares(lib, before, ops, ps) ==>
          && Execute(lib, before, ops, ps, |ops|) == Some(after)
          && (Lawful(lib) && DistinctRecords(ops) ==>
                forall i :: 0 <= i < |ops| && !MapFileDelete(ops[i]) ==>
                  DataRevision(lib, after, ops[i]) == Some(CandidateRevision(lib, before, ops, ps, i))))
    && (Lawful(lib) && DistinctRecords(ops) ==>
          && (forall i :: 0 <= i < |ops| ==> Did(lib, before, after, ops[i]))
          && (NoLocale(lib) ==> forall i :: 0 <= i < |ops| ==> DidPlainly(lib, before, after, ops[i]))
          && (forall p, key :: Unnamed(ops, p, key) ==> Get(lib, after, p, key) == Get(lib, before, p, key)))
  }

  lemma ExecutedIsDone(lib: Library, before: Files, after: Files, ops: seq<Op>, ps: seq<Prepared>)
    requires Prepares(lib, before, ops, ps) && Execute(lib, before, ops, ps, |ops|) == Some(after)
    ensures BatchDone(lib, before, after, ops)
  {
    hide Execute, Prepares, Did, DidPlainly, Unnamed, Get, MapFileDelete, DataRevision, CandidateRevision, Lawful, DistinctRecords;
    forall any: seq<Prepared> | Prepares(lib, before, ops, any)
      ensures any == ps
    {
      PreparedOnce(lib, before, ops, any, ps);
    }
    if Lawful(lib) && DistinctRecords(ops) {
      AllAsPredicted(lib, before, after, ops, ps);
      AllDone(lib, before, after, ops, ps);
    }
  }

  lemma AllAsPredicted(lib: Library, before: Files, after: Files, ops: seq<Op>, ps: seq<Prepared>)
    requires Prepares(lib, before, ops, ps) && Execute(lib, before, ops, ps, |ops|) == Some(after) && Lawful(lib) && DistinctRecords(ops)
    ensures forall i :: 0 <= i < |ops| && !MapFileDelete(ops[i]) ==>
              DataRevision(lib, after, ops[i]) == Some(CandidateRevision(lib, before, ops, ps, i))
  {
    hide Execute, Lawful, DistinctRecords, MapFileDelete, DataRevision, PrepareOp;
    forall i | 0 <= i < |ops| && !MapFileDelete(ops[i])
      ensures DataRevision(lib, after, ops[i]) == Some(CandidateRevision(lib, before, ops, ps, i))
    {
      PredictionHolds(lib, before, ops, ps, i);
    }
  }

  lemma AllDone(lib: Library, before: Files, after: Files, ops: seq<Op>, ps: seq<Prepared>)
    requires Prepares(lib, before, ops, ps) && Execute(lib, before, ops, ps, |ops|) == Some(after) && Lawful(lib) && DistinctRecords(ops)
    ensures forall i :: 0 <= i < |ops| ==> Did(lib, before, after, ops[i])
    ensures NoLocale(lib) ==> forall i :: 0 <= i < |ops| ==> DidPlainly(lib, before, after, ops[i])
    ensures forall p, key :: Unnamed(ops, p, key) ==> Get(lib, after, p, key) == Get(lib, before, p, key)
  {
    hide Execute, Prepares, Lawful, DistinctRecords, Did, DidPlainly, Unnamed, Get;
    forall i | 0 <= i < |ops|
      ensures Did(lib, before, after, ops[i]) && (NoLocale(lib) ==> DidPlainly(lib, before, after, ops[i]))
    {
      PreparesLength(lib, before, ops, ps);
      BatchDoes(lib, before, ops, ps, i);
    }
    forall p, key | Unnamed(ops, p, key)
      ensures Get(lib, after, p, key) == Get(lib, before, p, key)
    {
      BatchSparesOthers(lib, before, ops, ps, p, key);
    }
  }

  lemma PreparesLength(lib: Library, files: Files, ops: seq<Op>, ps: seq<Prepared>)
    requires Prepares(lib, files, ops, ps)
    ensures |ps| == |ops|
  {
  }

  lemma PreparedOnce(lib: Library, files: Files, ops: seq<Op>, a: seq<Prepared>, b: seq<Prepared>)
    requires Prepares(lib, files, ops, a) && Prepares(lib, files, ops, b)
    ensures a == b
  {
    hide PrepareOp;
    assert forall i :: 0 <= i < |ops| ==> a[i] == b[i];
  }

  /** The indexes below n of the operations on p, all of them, in order. */
  ghost predicate GroupOk(ops: seq<Op>, p: Path, indexes: seq<nat>, n: nat)
  {
    && n <= |ops| && |indexes| > 0
    && (forall k :: 0 <= k < |indexes| ==> indexes[k] < n && ops[indexes[k]].place.path == p)
    && (forall i, j :: 0 <= i < j < |indexes| ==> indexes[i] < indexes[j])
    && (forall i :: 0 <= i < n && ops[i].place.path == p ==> i in indexes)
  }

  lemma GroupStarts(ops: seq<Op>, p: Path, n: nat)
    requires n < |ops| && ops[n].place.path == p && forall i :: 0 <= i < n ==> ops[i].place.path != p
    ensures GroupOk(ops, p, [n], n + 1)
  {
  }

  lemma GroupGrows(ops: seq<Op>, p: Path, indexes: seq<nat>, n: nat)
    requires n < |ops| && GroupOk(ops, p, indexes, n)
    ensures GroupOk(ops, p, if p == ops[n].place.path then indexes + [n] else indexes, n + 1)
  {
    if p == ops[n].place.path {
      var more := indexes + [n];
      assert more[|indexes|] == n;
      forall i | 0 <= i < n + 1 && ops[i].place.path == p
        ensures i in more
      {
        if i < n {
          var k :| 0 <= k < |indexes| && indexes[k] == i;
          assert more[k] == i;
        }
      }
    }
  }

  /** What is predicted for a path is predicted for each operation on it. */
  lemma GroupPredicts(lib: Library, files: Files, ops: seq<Op>, ps: seq<Prepared>, path: Path, predicted: Option<(bool, Raw)>)
    requires |ops| == |ps| && (exists i :: 0 <= i < |ops| && ops[i].place.path == path)
    requires predicted == PredictedGroup(lib, files, ops, ps, First(ops, path))
    ensures forall i :: 0 <= i < |ops| && ops[i].place.path == path ==>
              && Predicted(lib, files, ops, ps, i) == predicted
              && (predicted.Some? ==>
                    CandidateRevision(lib, files, ops, ps, i) == lib.hmac(ops[i].target, predicted.value.0, predicted.value.1))
  {
    hide PredictedGroup;
  }

  /** The entry of operation i has its predicted revision and is otherwise as it was. */
  ghost predicate Stamped(lib: Library, files: Files, ops: seq<Op>, ps: seq<Prepared>, i: nat, before: Evidence, after: Evidence)
    requires i < |ops| == |ps|
  {
    && Predicted(lib, files, ops, ps, i).Some?
    && after == before.(candidateRevision := CandidateRevision(lib, files, ops, ps, i))
  }

  lemma StampedMeans(lib: Library, files: Files, ops: seq<Op>, ps: seq<Prepared>, before: seq<Evidence>, after: seq<Evidence>)
    requires |ops| == |ps| == |before| == |after|
    requires forall i :: 0 <= i < |ops| ==> Stamped(lib, files, ops, ps, i, before[i], after[i])
    ensures forall i :: 0 <= i < |ops| ==> Predicted(lib, files, ops, ps, i).Some?
    ensures forall i :: 0 <= i < |ops| ==>
              after[i] == before[i].(candidateRevision := CandidateRevision(lib, files, ops, ps, i))
  {
    hide Predicted, CandidateRevision;
    forall i | 0 <= i < |ops|
      ensures Predicted(lib, files, ops, ps, i).Some?
    {
      assert Stamped(lib, files, ops, ps, i, before[i], after[i]);
    }
  }

  lemma IndexesStartAtFirst(ops: seq<Op>, p: Path, indexes: seq<nat>)
    requires GroupOk(ops, p, indexes, |ops|)
    ensures 0 <= indexes[0] < |ops| && ops[indexes[0]].place.path == p && indexes[0] == First(ops, p)
  {
    assert ops[indexes[0]].place.path == p;
    var first := First(ops, p);
    assert first in indexes;
  }

  /** Operations on other files fold to nothing. */
  lemma {:induction false} SkipsFold(lib: Library, p: Place, start: map<Key, Image>, ops: seq<Op>, ps: seq<Prepared>, a: nat, b: nat)
    requires a <= b <= |ops| == |ps|
    requires forall i :: a <= i < b ==> ops[i].place.path != p.path
    ensures Fold(lib, p, start, ops, ps, a) == Fold(lib, p, start, ops, ps, b)
    decreases b
  {
    if a < b {
      SkipsFold(lib, p, start, ops, ps, a, b - 1);
    }
  }

  lemma {:induction false} LaterFailure(lib: Library, files: Files, ops: seq<Op>, ps: seq<Prepared>, n: nat, m: nat)
    requires n <= m <= |ops| == |ps| && Execute(lib, files, ops, ps, n).None?
    ensures Execute(lib, files, ops, ps, m).None?
    decreases m
  {
    if n < m {
      LaterFailure(lib, files, ops, ps, n, m - 1);
    }
  }

  lemma SameContent(a: Files, b: Files)
    requires forall p :: Content(a, p) == Content(b, p)
    ensures a == b
  {
    forall p
      ensures p in a <==> p in b
      ensures p in a ==> a[p] == b[p]
    {
      assert Content(a, p) == Content(b, p);
    }
  }
}
