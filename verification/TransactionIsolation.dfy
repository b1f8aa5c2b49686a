/** The transaction lock (database.go): writers hold it exclusively from before their first change to
    the end of their rollback, readers share it. Readers and writers run in every interleaving. */
module TransactionIsolation {
  import opened Common
  import opened Transactions

  type Thread = nat

  datatype Pc =
    | Reading(version: nat)          // holds the shared lock; version: what was there when it got it
    | Writing(tx: Tx)                // holds the exclusive lock, the worker is running
    | RollingBack(saved: map<Path, Saved>, todo: set<Path>)
    | Done

  /** How the files came to be what they are when the exclusive lock was given up. */
  datatype Kind = Initial | Completed | RolledBack | Broken

  datatype Version = Version(kind: Kind, files: Files)

  datatype Seen = Seen(t: Thread, version: nat, files: Files)

  datatype State = State(
    files: Files,
    readers: set<Thread>,
    writer: Option<Thread>,
    pcs: map<Thread, Pc>,
    versions: seq<Version>,
    seen: seq<Seen>)

  datatype Action =
    | RLock(t: Thread)
    | Observe(t: Thread)
    | RUnlock(t: Thread)
    | Lock(t: Thread)
    | Change(t: Thread, change: Change)
    | Succeed(t: Thread)
    | Fail(t: Thread)
    | RestoreNext(t: Thread, p: Path)
    | EndRollback(t: Thread)
    | RestoreError(t: Thread, p: Path, torn: string)  // or the process dies while it restores p
    | Die(t: Thread)                                  // the process dies in the middle of the worker

  function Start(files: Files): State {
    State(files, {}, None, map[], [Version(Initial, files)], [])
  }

  function Leave(s: State, t: Thread, kind: Kind): State {
    s.(writer := None, pcs := s.pcs[t := Done], versions := s.versions + [Version(kind, s.files)])
  }

  function Step(s: State, a: Action, umask: nat -> nat): Option<State> {
    match a
    case RLock(t) =>
      if t in s.pcs || s.writer.Some? || s.versions == [] then None
      else Some(s.(readers := s.readers + {t}, pcs := s.pcs[t := Reading(|s.versions| - 1)]))
    case Observe(t) =>
      if t !in s.pcs || !s.pcs[t].Reading? then None
      else Some(s.(seen := s.seen + [Seen(t, s.pcs[t].version, s.files)]))
    case RUnlock(t) =>
      if t !in s.pcs || !s.pcs[t].Reading? then None
      else Some(s.(readers := s.readers - {t}, pcs := s.pcs[t := Done]))
    case Lock(t) =>
      if t in s.pcs || s.writer.Some? || s.readers != {} then None
      else Some(s.(writer := Some(t), pcs := s.pcs[t := Writing(Tx(s.files, map[], []))]))
    case Change(t, change) =>
      if t !in s.pcs || !s.pcs[t].Writing? then None
      else
        var tx := Apply(s.pcs[t].tx, change).0;
        Some(s.(files := tx.files, pcs := s.pcs[t := Writing(tx)]))
    case Succeed(t) =>
      if t !in s.pcs || !s.pcs[t].Writing? then None else Some(Leave(s, t, Completed))
    case Fail(t) =>
      if t !in s.pcs || !s.pcs[t].Writing? then None
      else Some(s.(pcs := s.pcs[t := RollingBack(s.pcs[t].tx.saved, s.pcs[t].tx.saved.Keys)]))
    case RestoreNext(t, p) =>
      if t !in s.pcs || !s.pcs[t].RollingBack? || p !in s.pcs[t].todo || p !in s.pcs[t].saved then None
      else Some(s.(files := RestoreOne(s.files, p, s.pcs[t].saved[p], umask),
                   pcs := s.pcs[t := s.pcs[t].(todo := s.pcs[t].todo - {p})]))
    case EndRollback(t) =>
      if t !in s.pcs || !s.pcs[t].RollingBack? || s.pcs[t].todo != {} then None
      else Some(Leave(s, t, RolledBack))
    case RestoreError(t, p, torn) =>
      if t !in s.pcs || !s.pcs[t].RollingBack? || p !in s.pcs[t].todo then None
      else Some(Leave(s.(files := PutData(s.files, p, torn)), t, Broken))
    case Die(t) =>
      if t !in s.pcs || !s.pcs[t].Writing? then None else Some(Leave(s, t, Broken))
  }

  function Run(s: State, schedule: seq<Action>, umask: nat -> nat): State
    decreases |schedule|
  {
    if schedule == [] then s
    else
      var next := Step(s, schedule[0], umask);
      Run(if next.Some? then next.value else s, schedule[1..], umask)
  }

  // ----- Invariant -----

  function Latest(s: State): Files
    requires s.versions != []
  {
    s.versions[|s.versions| - 1].files
  }

  /** The paths still to be restored are the only ones whose content differs from the start. */
  ghost predicate HalfRestored(base: Files, files: Files, saved: map<Path, Saved>, todo: set<Path>)
  {
    && todo <= saved.Keys
    && (forall p :: p in saved ==> saved[p] == Save(base, p))
    && (forall p :: p !in todo ==> SameDataAt(base, files, p))
  }

  ghost predicate PcOk(s: State, t: Thread, pc: Pc)
    requires s.versions != []
  {
    match pc
    case Reading(v) => t in s.readers && v == |s.versions| - 1
    case Writing(tx) => s.writer == Some(t) && tx.files == s.files && Covered(Latest(s), tx)
    case RollingBack(saved, todo) => s.writer == Some(t) && HalfRestored(Latest(s), s.files, saved, todo)
    case Done => t !in s.readers && s.writer != Some(t)
  }

  ghost predicate SeenOk(versions: seq<Version>, seen: seq<Seen>)
  {
    forall i :: 0 <= i < |seen| ==>
      seen[i].version < |versions| && seen[i].files == versions[seen[i].version].files
  }

  /** A rolled-back version has the content of the one before it. */
  ghost predicate VersionsOk(versions: seq<Version>)
  {
    && versions != [] && versions[0].kind != RolledBack
    && forall i :: 0 < i < |versions| && versions[i].kind == RolledBack ==>
         SameData(versions[i - 1].files, versions[i].files)
  }

  /** A reader's observations are all of the version it locked. */
  ghost predicate Steady(s: State)
  {
    && (forall i :: 0 <= i < |s.seen| ==>
          s.seen[i].t in s.pcs
          && (s.pcs[s.seen[i].t].Reading? ==> s.pcs[s.seen[i].t].version == s.seen[i].version))
    && (forall i, j :: 0 <= i < |s.seen| && 0 <= j < |s.seen| && s.seen[i].t == s.seen[j].t ==>
          s.seen[i].version == s.seen[j].version)
  }

  lemma StepKeepsSteady(s: State, a: Action, umask: nat -> nat)
    requires Steady(s) && Step(s, a, umask).Some?
    ensures Steady(Step(s, a, umask).value)
  {
    hide Apply, RestoreOne;
  }

  ghost predicate Inv(s: State)
  {
    && VersionsOk(s.versions)
    && SeenOk(s.versions, s.seen)
    && (s.writer == None ==> s.files == Latest(s))
    && (s.writer.Some? ==> s.readers == {} && s.writer.value in s.pcs)
    && (forall t :: t in s.readers ==> t in s.pcs)
    && (forall t :: t in s.pcs ==> PcOk(s, t, s.pcs[t]))
  }

  lemma ReaderStepKeepsInv(s: State, a: Action, umask: nat -> nat)
    requires Inv(s) && Step(s, a, umask).Some? && (a.RLock? || a.Observe? || a.RUnlock? || a.Lock?)
    ensures Inv(Step(s, a, umask).value)
  {
    hide Covered, HalfRestored, SameData;
    if a.Lock? {
      StartIsCovered(s.files);
    }
  }

  lemma StartIsCovered(files: Files)
    ensures Covered(files, Tx(files, map[], []))
  {
  }

  lemma WorkerStepKeepsInv(s: State, a: Action, umask: nat -> nat)
    requires Inv(s) && Step(s, a, umask).Some? && (a.Change? || a.Fail? || a.RestoreNext?)
    ensures Inv(Step(s, a, umask).value)
  {
    hide SeenOk;
    assert PcOk(s, a.t, s.pcs[a.t]);
    if a.Change? {
      ApplyKeepsCovered(Latest(s), s.pcs[a.t].tx, a.change);
      hide Apply, Covered;
    }
  }

  lemma LeavingStepKeepsInv(s: State, a: Action, umask: nat -> nat)
    requires Inv(s) && Step(s, a, umask).Some? && (a.Succeed? || a.EndRollback? || a.RestoreError? || a.Die?)
    ensures Inv(Step(s, a, umask).value)
  {
    hide Covered, Apply;
    assert PcOk(s, a.t, s.pcs[a.t]);
  }

  lemma {:induction false} RunKeepsInv(s: State, schedule: seq<Action>, umask: nat -> nat)
    requires Inv(s) && Steady(s)
    ensures Inv(Run(s, schedule, umask)) && Steady(Run(s, schedule, umask))
    decreases |schedule|
  {
    hide Inv, Step, Steady;
    if schedule != [] {
      var next := Step(s, schedule[0], umask);
      if next.Some? {
        StepKeepsSteady(s, schedule[0], umask);
        match schedule[0] {
          case RLock(_) | Observe(_) | RUnlock(_) | Lock(_) => ReaderStepKeepsInv(s, schedule[0], umask);
          case Change(_, _) | Fail(_) | RestoreNext(_, _) => WorkerStepKeepsInv(s, schedule[0], umask);
          case _ => LeavingStepKeepsInv(s, schedule[0], umask);
        }
        RunKeepsInv(next.value, schedule[1..], umask);
      } else {
        RunKeepsInv(s, schedule[1..], umask);
      }
    }
  }

  /** In every interleaving, whatever a reader sees is a state in which a transaction was completed or
      fully rolled back (and then equal in content to the state before it), unless a restoration failed
      or a process died; and one reader sees the same state for as long as it holds the lock. */
  lemma ReadersSeeWholeTransactions(files: Files, schedule: seq<Action>, umask: nat -> nat)
    ensures var s := Run(Start(files), schedule, umask);
            && VersionsOk(s.versions)
            && SeenOk(s.versions, s.seen)
            && (forall i, j :: 0 <= i < j < |s.seen| && s.seen[i].t == s.seen[j].t ==>
                  s.seen[i].files == s.seen[j].files)
            && ((forall i :: 0 <= i < |schedule| ==> !schedule[i].RestoreError? && !schedule[i].Die?) ==>
                  forall i :: 0 <= i < |s.versions| ==> s.versions[i].kind != Broken)
  {
    assert Inv(Start(files));
    RunKeepsInv(Start(files), schedule, umask);
    if forall i :: 0 <= i < |schedule| ==> !schedule[i].RestoreError? && !schedule[i].Die? {
      NothingBreaks(Start(files), schedule, umask);
    }
  }

  lemma {:induction false} NothingBreaks(s: State, schedule: seq<Action>, umask: nat -> nat)
    requires forall i :: 0 <= i < |schedule| ==> !schedule[i].RestoreError? && !schedule[i].Die?
    requires forall i :: 0 <= i < |s.versions| ==> s.versions[i].kind != Broken
    ensures forall i :: 0 <= i < |Run(s, schedule, umask).versions| ==> Run(s, schedule, umask).versions[i].kind != Broken
    decreases |schedule|
  {
    if schedule != [] {
      var next := Step(s, schedule[0], umask);
      NothingBreaks(if next.Some? then next.value else s, schedule[1..], umask);
    }
  }
}
