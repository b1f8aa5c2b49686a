/** Read-write transactions (database.go, tx_readwrite.go, git_commit.go): a snapshot before the first
    change of each file, restoration when the worker or the commit fails. */
module Transactions {
  import opened Ordering

  type Path = string

  datatype File = File(mode: nat, data: string)

  type Files = map<Path, File>

  /** fileSnapshot: the state of a path before its first change. */
  datatype Saved = Missing | Existing(file: File)

  function Save(files: Files, p: Path): Saved {
    if p in files then Existing(files[p]) else Missing
  }

  const DEFAULT_MODE: nat := 0x1a4 // 0o644

  /** os.WriteFile keeps the mode of a file that exists. */
  function PutData(files: Files, p: Path, data: string): Files {
    files[p := File(if p in files then files[p].mode else DEFAULT_MODE, data)]
  }

  /** How one change of a file can go wrong; a torn write leaves any content. */
  datatype Fault = NoFault | SnapshotFails | LeavesFile | Tears(data: string)

  datatype Change =
    | Write(path: Path, data: string, fault: Fault)
    | Remove(path: Path, fault: Fault)

  datatype Tx = Tx(files: Files, saved: map<Path, Saved>, written: seq<Path>)

  /** One change inside a transaction, and whether it reported success. */
  function Apply(tx: Tx, c: Change): (Tx, bool) {
    if c.fault == SnapshotFails then (tx, false)
    else
      var saved := if c.path in tx.saved then tx.saved else tx.saved[c.path := Save(tx.files, c.path)];
      match c
      case Write(p, data, fault) =>
        (match fault
         case LeavesFile => (tx.(saved := saved), false)
         case Tears(torn) => (tx.(files := PutData(tx.files, p, torn), saved := saved), false)
         case _ => (Tx(PutData(tx.files, p, data), saved, tx.written + [p]), true))
      case Remove(p, fault) =>
        if p !in tx.files then (tx.(saved := saved), true)
        else if fault != NoFault then (tx.(saved := saved), false)
        else (Tx(tx.files - {p}, saved, tx.written + [p]), true)
  }

  function ApplyAll(tx: Tx, changes: seq<Change>): Tx {
    if changes == [] then tx
    else Apply(ApplyAll(tx, changes[..|changes| - 1]), changes[|changes| - 1]).0
  }

  /** Restoring one path; umask filters the mode of a file that has to be created again. */
  function RestoreOne(files: Files, p: Path, s: Saved, umask: nat -> nat): Files {
    match s
    case Missing => files - {p}
    case Existing(f) => files[p := File(if p in files then files[p].mode else umask(f.mode), f.data)]
  }

  // ----- What the snapshots guarantee -----

  /** Every path is as at the start or has its starting state saved. */
  ghost predicate Covered(base: Files, tx: Tx)
  {
    && (forall p :: p in tx.saved ==> tx.saved[p] == Save(base, p))
    && (forall p :: p !in tx.saved ==> Save(tx.files, p) == Save(base, p))
  }

  /** Only snapshotted paths differ. */
  ghost predicate DifferOnlyAt(a: Files, b: Files, paths: set<Path>)
  {
    forall p :: p !in paths ==> Save(a, p) == Save(b, p)
  }

  predicate SameDataAt(a: Files, b: Files, p: Path) {
    (p in a <==> p in b) && (p in a ==> a[p].data == b[p].data)
  }

  ghost predicate SameData(a: Files, b: Files)
  {
    forall p :: SameDataAt(a, b, p)
  }

  lemma ApplyKeepsCovered(base: Files, tx: Tx, c: Change)
    requires Covered(base, tx)
    ensures Covered(base, Apply(tx, c).0)
    ensures forall p :: p in tx.saved ==> p in Apply(tx, c).0.saved
  {
  }

  lemma {:induction false} WorkerIsCovered(base: Files, changes: seq<Change>)
    ensures var tx := ApplyAll(Tx(base, map[], []), changes);
            && Covered(base, tx)
            && (forall p :: p in tx.written ==> p in tx.saved)
            && DifferOnlyAt(base, tx.files, tx.saved.Keys)
  {
    if changes != [] {
      WorkerIsCovered(base, changes[..|changes| - 1]);
      ApplyKeepsCovered(base, ApplyAll(Tx(base, map[], []), changes[..|changes| - 1]), changes[|changes| - 1]);
    }
  }

  /** Path p holds what restoring its snapshot makes of it. */
  ghost predicate RestoredAt(before: Files, after: Files, saved: map<Path, Saved>, umask: nat -> nat, p: Path)
    requires p in saved
  {
    Save(after, p) == Save(RestoreOne(before, p, saved[p], umask), p)
  }

  /** The first n paths are restored and nothing else is changed. */
  ghost predicate RestoringAt(before: Files, files: Files, saved: map<Path, Saved>, umask: nat -> nat, order: seq<Path>, n: nat)
  {
    && n <= |order|
    && (forall k :: 0 <= k < n ==> order[k] in saved && RestoredAt(before, files, saved, umask, order[k]))
    && (forall p :: p !in order[..n] ==> Save(files, p) == Save(before, p))
  }

  lemma RestoringStarts(files: Files, saved: map<Path, Saved>, umask: nat -> nat, order: seq<Path>)
    ensures RestoringAt(files, files, saved, umask, order, 0)
  {
  }

  lemma RestoringGoesOn(before: Files, files: Files, saved: map<Path, Saved>, umask: nat -> nat, order: seq<Path>, n: nat)
    requires RestoringAt(before, files, saved, umask, order, n) && n < |order| && order[n] in saved
    requires forall i, j :: 0 <= i < j < |order| ==> order[i] != order[j]
    ensures RestoringAt(before, RestoreOne(files, order[n], saved[order[n]], umask), saved, umask, order, n + 1)
  {
    var p := order[n];
    var after := RestoreOne(files, p, saved[p], umask);
    assert p !in order[..n];
    assert order[..n + 1] == order[..n] + [p];
    forall k | 0 <= k < n
      ensures RestoredAt(before, after, saved, umask, order[k])
    {
      assert order[k] != p && RestoredAt(before, files, saved, umask, order[k]);
    }
  }

  lemma RestoringEnds(before: Files, files: Files, saved: map<Path, Saved>, umask: nat -> nat, order: seq<Path>)
    requires RestoringAt(before, files, saved, umask, order, |order|) && forall p :: p in saved <==> p in order
    ensures DifferOnlyAt(before, files, saved.Keys)
    ensures forall p :: p in saved ==> RestoredAt(before, files, saved, umask, p)
  {
    assert order[..|order|] == order;
    forall p | p in saved
      ensures RestoredAt(before, files, saved, umask, p)
    {
      var k :| 0 <= k < |order| && order[k] == p;
    }
  }

  lemma RestoringTears(before: Files, files: Files, saved: map<Path, Saved>, umask: nat -> nat, order: seq<Path>, n: nat, torn: string)
    requires RestoringAt(before, files, saved, umask, order, n) && n < |order| && forall p :: p in saved <==> p in order
    requires SortedBy(order, Self) && forall i, j :: 0 <= i < j < |order| ==> order[i] != order[j]
    ensures var after := PutData(files, order[n], torn);
            && DifferOnlyAt(before, after, saved.Keys)
            && (forall p :: p in saved && TextBefore(p, order[n]) ==> RestoredAt(before, after, saved, umask, p))
            && (forall p :: p in saved && TextBefore(order[n], p) ==> Save(after, p) == Save(before, p))
  {
    DoneAreBefore(order, n);
    var after := PutData(files, order[n], torn);
    hide TextBefore;
    forall p | p in saved && TextBefore(p, order[n])
      ensures RestoredAt(before, after, saved, umask, p)
    {
      var k :| 0 <= k < n && order[k] == p;
      assert order[k] != order[n] && RestoredAt(before, files, saved, umask, p);
    }
  }

  /** In the sorted order the paths before position n are those that come before its path. */
  lemma DoneAreBefore(order: seq<Path>, n: nat)
    requires n < |order| && SortedBy(order, Self) && forall j, k :: 0 <= j < k < |order| ==> order[j] != order[k]
    ensures forall p :: p in order && TextBefore(p, order[n]) ==> p in order[..n]
    ensures forall p :: p in order && TextBefore(order[n], p) ==> p !in order[..n] && p != order[n]
  {
    forall p | p in order
      ensures TextBefore(p, order[n]) ==> p in order[..n]
      ensures TextBefore(order[n], p) ==> p !in order[..n] && p != order[n]
    {
      var k :| 0 <= k < |order| && order[k] == p;
      CompareIsTextOrder(order[k], order[n]);
      if k < n {
        assert Compare(Self(order[k]), Self(order[n])) <= 0;
        assert order[..n][k] == p;
      } else if k > n {
        assert Compare(Self(order[n]), Self(order[k])) <= 0;
        CompareIsTextOrder(order[n], order[k]);
        assert p !in order[..n];
      }
    }
  }

  /** Restoration after any worker gives every file its starting content; a mode is given back too,
      except that a file the worker removed comes back with the mode the umask leaves of it. */
  lemma RestorationUndoes(base: Files, tx: Tx, after: Files, umask: nat -> nat, complete: bool)
    requires Covered(base, tx)
    requires DifferOnlyAt(tx.files, after, tx.saved.Keys)
    requires complete ==> forall p :: p in tx.saved ==> RestoredAt(tx.files, after, tx.saved, umask, p)
    ensures DifferOnlyAt(base, after, tx.saved.Keys)
    ensures complete ==> SameData(base, after)
    ensures complete ==> forall p :: p in base ==>
              p in after
              && after[p].mode == if p !in tx.saved then base[p].mode
                                  else if p in tx.files then tx.files[p].mode else umask(base[p].mode)
  {
    if complete {
      forall p
        ensures SameDataAt(base, after, p)
      {
        if p in tx.saved {
          assert RestoredAt(tx.files, after, tx.saved, umask, p);
        }
      }
      forall p | p in base
        ensures p in after
        ensures after[p].mode == if p !in tx.saved then base[p].mode
                                 else if p in tx.files then tx.files[p].mode else umask(base[p].mode)
      {
        assert SameDataAt(base, after, p);
        if p in tx.saved {
          assert RestoredAt(tx.files, after, tx.saved, umask, p);
        } else {
          assert Save(tx.files, p) == Save(base, p) == Save(after, p);
        }
      }
    }
  }

  // ----- The transaction as it runs -----

  datatype RestoreFault = NoRestoreFault | RestoreStops(at: Path, torn: string)

  datatype Outcome = Success | WorkerError(restored: bool) | CommitError(restored: bool)

  class Database {
    var files: Files
    var saved: map<Path, Saved>
    var written: seq<Path>

    constructor (files: Files)
      ensures this.files == files
    {
      this.files, saved, written := files, map[], [];
    }

    function View(): Tx
      reads this
    {
      Tx(files, saved, written)
    }

    /** readwriteTx.snapshot. */
    method Snapshot(p: Path, fails: bool) returns (ok: bool)
      modifies this`saved
      ensures ok == !fails
      ensures saved == if fails || p in old(saved) then old(saved) else old(saved)[p := Save(files, p)]
    {
      if fails {
        return false;
      }
      if p in saved {
        return true;
      }
      saved := saved[p := if p in files then Existing(files[p]) else Missing];
      return true;
    }

    method Change(c: Change) returns (ok: bool)
      modifies this
      ensures (View(), ok) == Apply(old(View()), c)
    {
      var ready := Snapshot(c.path, c.fault == SnapshotFails);
      if !ready {
        return false;
      }
      match c {
        case Write(p, data, fault) =>
          if fault == LeavesFile {
            return false;
          }
          if fault.Tears? {
            files := PutData(files, p, fault.data);
            return false;
          }
          files := PutData(files, p, data);
          written := written + [p];
        case Remove(p, fault) =>
          if p !in files {
            return true;
          }
          if fault != NoFault {
            return false;
          }
          files := files - {p};
          written := written + [p];
      }
      return true;
    }

    /** The keys of the snapshot map, collected in any order and then sorted. */
    method SnapshotPaths() returns (order: seq<Path>)
      ensures forall p :: p in saved <==> p in order
      ensures forall i, j :: 0 <= i < j < |order| ==> order[i] != order[j]
      ensures SortedBy(order, Self)
    {
      var todo: set<Path> := saved.Keys;
      order := [];
      while todo != {}
        invariant forall p :: p in saved <==> p in order || p in todo
        invariant forall p :: p in order ==> p !in todo
        invariant forall i, j :: 0 <= i < j < |order| ==> order[i] != order[j]
        decreases todo
      {
        var p: Path :| p in todo;
        todo := todo - {p};
        order := order + [p];
      }
      order := SortPaths(order);
    }

    /** restoreSnapshots: in sorted order, up to the first error. */
    method RestoreSnapshots(umask: nat -> nat, fault: RestoreFault) returns (ok: bool)
      modifies this`files
      ensures DifferOnlyAt(old(files), files, saved.Keys)
      ensures ok <==> !(fault.RestoreStops? && fault.at in saved)
      ensures forall p :: p in saved && (ok || TextBefore(p, fault.at)) ==> RestoredAt(old(files), files, saved, umask, p)
      ensures !ok ==> forall p :: p in saved && TextBefore(fault.at, p) ==> Save(files, p) == Save(old(files), p)
    {
      var order := SnapshotPaths();
      ghost var before := files;
      RestoringStarts(files, saved, umask, order);
      hide RestoringAt, RestoredAt, RestoreOne, PutData, DifferOnlyAt;
      for i := 0 to |order|
        invariant RestoringAt(before, files, saved, umask, order, i)
        invariant forall k :: 0 <= k < i ==> !(fault.RestoreStops? && fault.at == order[k])
      {
        var p := order[i];
        if fault.RestoreStops? && fault.at == p {
          RestoringTears(before, files, saved, umask, order, i, fault.torn);
          files := PutData(files, p, fault.torn);
          return false;
        }
        RestoringGoesOn(before, files, saved, umask, order, i);
        files := RestoreOne(files, p, saved[p], umask);
      }
      RestoringEnds(before, files, saved, umask, order);
      return true;
    }

    /** The worker: changes until it returns. */
    method RunWorker(changes: seq<Change>)
      modifies this
      ensures View() == ApplyAll(Tx(old(files), map[], []), changes)
      ensures Covered(old(files), View()) && DifferOnlyAt(old(files), files, saved.Keys)
    {
      saved, written := map[], [];
      ghost var start := View();
      for i := 0 to |changes|
        invariant View() == ApplyAll(start, changes[..i])
      {
        assert changes[..i + 1][..i] == changes[..i];
        var _ := Change(changes[i]);
      }
      assert changes[..|changes|] == changes;
      WorkerIsCovered(start.files, changes);
    }

    /** Restoration after the worker or the commit failed. */
    method Undo(ghost base: Files, umask: nat -> nat, fault: RestoreFault) returns (ok: bool)
      requires Covered(base, View())
      modifies this`files
      ensures DifferOnlyAt(base, files, saved.Keys)
      ensures ok ==> SameData(base, files)
      ensures ok <==> !(fault.RestoreStops? && fault.at in saved)
    {
      ghost var left := files;
      ok := RestoreSnapshots(umask, fault);
      RestorationUndoes(base, Tx(left, saved, written), files, umask, ok);
    }

    /** runReadwriteTransaction for a worker that makes these changes and then fails or not; commitOk is
        what gitCommitPaths answers when there is a message. */
    method RunReadwriteTransaction(changes: seq<Change>, workerFails: bool, message: bool, commitOk: bool,
                                   umask: nat -> nat, fault: RestoreFault) returns (r: Outcome)
      modifies this
      ensures DifferOnlyAt(old(files), files, saved.Keys)
      ensures r == Success ==> View() == ApplyAll(Tx(old(files), map[], []), changes)
      ensures r.WorkerError? <==> workerFails
      ensures r == Success <==> !workerFails && (message && written != [] ==> commitOk)
      ensures r != Success && r.restored ==> SameData(old(files), files)
      ensures r != Success ==> (r.restored <==> !(fault.RestoreStops? && fault.at in saved))
    {
      RunWorker(changes);
      if workerFails {
        var ok := Undo(old(files), umask, fault);
        return WorkerError(ok);
      }
      if message && |written| > 0 && !commitOk {
        var ok := Undo(old(files), umask, fault);
        return CommitError(ok);
      }
      return Success;
    }
  }

  function Self(p: Path): string { p }

  /** sort.Strings on distinct paths. */
  function SortPaths(s: seq<Path>): (r: seq<Path>)
    requires forall i, j :: 0 <= i < j < |s| ==> s[i] != s[j]
    ensures forall p :: p in r <==> p in s
    ensures forall i, j :: 0 <= i < j < |r| ==> r[i] != r[j]
    ensures SortedBy(r, Self)
  {
    var r := SortBy(s, Self);
    SortedPaths(s);
    r
  }

  lemma SortedPaths(s: seq<Path>)
    requires forall i, j :: 0 <= i < j < |s| ==> s[i] != s[j]
    ensures var r := SortBy(s, Self);
            && (forall p :: p in r <==> p in s)
            && (forall i, j :: 0 <= i < j < |r| ==> r[i] != r[j])
            && SortedBy(r, Self)
  {
    SortBySorts(s, Self);
    PermutationKeepsDistinct(s, SortBy(s, Self), Self);
    forall p
      ensures p in SortBy(s, Self) <==> p in s
    {
      assert p in SortBy(s, Self) <==> p in multiset(SortBy(s, Self));
    }
  }
}
