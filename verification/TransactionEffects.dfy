/** What a read-write transaction leaves (tx_readwrite.go, database.go), path by path and from its changes alone:
    the files after the worker, the paths that are committed, and the version that readers then see. */
module TransactionEffects {
  import opened Common
  import opened Transactions
  import opened TransactionCommits
  import I = TransactionIsolation
  import G = GitCommits

  function Lookup(files: Files, p: Path): Option<File> {
    if p in files then Some(files[p]) else None
  }

  /** What one change makes of the file at its own path. A new file has the default mode, a write to an existing one
      keeps its mode; a torn write leaves what was torn; a failed change leaves the file. */
  function ChangedFile(was: Option<File>, c: Change): Option<File> {
    var mode := if was.Some? then was.value.mode else DEFAULT_MODE;
    match c
    case Write(_, data, NoFault) => Some(File(mode, data))
    case Write(_, _, Tears(torn)) => Some(File(mode, torn))
    case Remove(_, NoFault) => None
    case _ => was
  }

  /** The file at p after the changes, given the one that was there before. */
  function FileAfter(was: Option<File>, changes: seq<Change>, p: Path): Option<File> {
    if changes == [] then was
    else
      var last, before := changes[|changes| - 1], FileAfter(was, changes[..|changes| - 1], p);
      if last.path == p then ChangedFile(before, last) else before
  }

  /** Change i writes p, or removes the file that is there. */
  ghost predicate TakesEffect(base: Files, changes: seq<Change>, p: Path, i: nat)
    requires i < |changes|
  {
    && changes[i].path == p && changes[i].fault == NoFault
    && (changes[i].Remove? ==> FileAfter(Lookup(base, p), changes[..i], p).Some?)
  }

  lemma ApplyAtPath(tx: Tx, c: Change, p: Path)
    ensures Lookup(Apply(tx, c).0.files, p) == if c.path == p then ChangedFile(Lookup(tx.files, p), c) else Lookup(tx.files, p)
    ensures p in Apply(tx, c).0.written <==>
            p in tx.written || (c.path == p && c.fault == NoFault && (c.Remove? ==> p in tx.files))
  {
  }

  /** A change reports success when nothing went wrong, or when there was nothing to remove. */
  lemma ChangeSucceedsIff(tx: Tx, c: Change)
    ensures Apply(tx, c).1 <==> c.fault == NoFault || (c.Remove? && c.fault != SnapshotFails && c.path !in tx.files)
    ensures !Apply(tx, c).1 ==> Apply(tx, c).0.written == tx.written
  {
  }

  lemma FileStep(was: Option<File>, changes: seq<Change>, p: Path)
    requires changes != []
    ensures var last, before := changes[|changes| - 1], FileAfter(was, changes[..|changes| - 1], p);
            FileAfter(was, changes, p) == if last.path == p then ChangedFile(before, last) else before
  {
  }

  /** After any worker every file is what its own changes make of it, one after the other, and the paths to be
      committed are those where a change took effect. */
  lemma {:induction false} WorkerLeaves(base: Files, changes: seq<Change>, p: Path)
    ensures var tx := ApplyAll(Tx(base, map[], []), changes);
            && Lookup(tx.files, p) == FileAfter(Lookup(base, p), changes, p)
            && (p in tx.written <==> exists i :: 0 <= i < |changes| && TakesEffect(base, changes, p, i))
    decreases |changes|
  {
    if changes != [] {
      var n := |changes| - 1;
      var init := changes[..n];
      WorkerLeaves(base, init, p);
      ApplyAtPath(ApplyAll(Tx(base, map[], []), init), changes[n], p);
      FileStep(Lookup(base, p), changes, p);
      hide Apply, FileAfter, ChangedFile;
      forall i | 0 <= i < n
        ensures TakesEffect(base, changes, p, i) <==> TakesEffect(base, init, p, i)
      {
        assert changes[..i] == init[..i];
      }
      assert TakesEffect(base, changes, p, n) <==>
             changes[n].path == p && changes[n].fault == NoFault
             && (changes[n].Remove? ==> p in ApplyAll(Tx(base, map[], []), init).files);
    }
  }

  /** The commit of a transaction has, at every path where a change took effect, the file that the changes leave
      there, and everything else as the commit before. */
  lemma CommitHolds(before: Option<G.Commit>, commit: G.Commit, base: Files, changes: seq<Change>, message: string, p: Path)
    requires var tx := ApplyAll(Tx(base, map[], []), changes);
             CommitsExactly(before, commit, tx.files, tx.written, message)
    ensures var now := FileAfter(Lookup(base, p), changes, p);
            if exists i :: 0 <= i < |changes| && TakesEffect(base, changes, p, i) then
              (p in commit.tree <==> now.Some?) && (now.Some? ==> commit.tree[p] == now.value.data)
            else
              var old_ := if before.Some? then before.value.tree else map[];
              (p in commit.tree <==> p in old_) && (p in old_ ==> commit.tree[p] == old_[p])
  {
    WorkerLeaves(base, changes, p);
  }

  // ----- With other transactions around -----

  function ChangesOf(t: I.Thread, changes: seq<Change>): (r: seq<I.Action>)
    ensures |r| == |changes|
  {
    seq(|changes|, i requires 0 <= i < |changes| => I.Change(t, changes[i]))
  }

  lemma {:induction false} RunConcat(s: I.State, a: seq<I.Action>, b: seq<I.Action>, umask: nat -> nat)
    ensures I.Run(s, a + b, umask) == I.Run(I.Run(s, a, umask), b, umask)
    decreases |a|
  {
    hide I.Step;
    if a == [] {
      assert a + b == b;
    } else {
      assert (a + b)[1..] == a[1..] + b;
      var next := I.Step(s, a[0], umask);
      RunConcat(if next.Some? then next.value else s, a[1..], b, umask);
    }
  }

  lemma {:induction false} WorkerRuns(s: I.State, t: I.Thread, changes: seq<Change>, umask: nat -> nat)
    requires t in s.pcs && s.pcs[t].Writing?
    ensures var tx, s1 := ApplyAll(s.pcs[t].tx, changes), I.Run(s, ChangesOf(t, changes), umask);
            && s1.versions == s.versions && t in s1.pcs && s1.pcs[t] == I.Writing(tx)
            && (s.files == s.pcs[t].tx.files ==> s1.files == tx.files)
    decreases |changes|
  {
    if changes != [] {
      var n := |changes| - 1;
      WorkerRuns(s, t, changes[..n], umask);
      assert ChangesOf(t, changes) == ChangesOf(t, changes[..n]) + [I.Change(t, changes[n])];
      RunConcat(s, ChangesOf(t, changes[..n]), [I.Change(t, changes[n])], umask);
      RunOne(I.Run(s, ChangesOf(t, changes[..n]), umask), I.Change(t, changes[n]), umask);
      hide Apply, I.Run;
    }
  }

  lemma RunOne(s: I.State, a: I.Action, umask: nat -> nat)
    ensures I.Run(s, [a], umask) == var next := I.Step(s, a, umask); if next.Some? then next.value else s
  {
    hide I.Step;
    assert [a][1..] == [];
  }

  /** A transaction that finds the lock free and completes leaves, for the readers that follow, every file as its own
      changes make it. */
  lemma CompletedVersion(s: I.State, t: I.Thread, changes: seq<Change>, umask: nat -> nat, p: Path)
    requires t !in s.pcs && s.writer == None && s.readers == {}
    ensures var s1 := I.Run(s, [I.Lock(t)] + ChangesOf(t, changes) + [I.Succeed(t)], umask);
            && s1.writer == None && |s1.versions| == |s.versions| + 1 && s1.versions[..|s.versions|] == s.versions
            && s1.versions[|s.versions|] == I.Version(I.Completed, s1.files)
            && Lookup(s1.files, p) == FileAfter(Lookup(s.files, p), changes, p)
  {
    hide I.Run, ApplyAll, FileAfter, Apply, RestoreOne, PutData;
    RunConcat(s, [I.Lock(t)] + ChangesOf(t, changes), [I.Succeed(t)], umask);
    RunConcat(s, [I.Lock(t)], ChangesOf(t, changes), umask);
    RunOne(s, I.Lock(t), umask);
    var locked := I.Run(s, [I.Lock(t)], umask);
    WorkerRuns(locked, t, changes, umask);
    RunOne(I.Run(locked, ChangesOf(t, changes), umask), I.Succeed(t), umask);
    WorkerLeaves(s.files, changes, p);
  }
}
