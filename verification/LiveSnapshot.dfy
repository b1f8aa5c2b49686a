/** Mounted owner policies (database.go): management calls hold the activation mutex from clearing the
    live snapshot until installing the next one; other controllers publish to the same repository at
    any time in between. */
module LiveSnapshot {
  import opened Common
  import opened Generations
  import opened GenerationRecovery

  type Thread = nat

  /** A snapshot together with the position in HEAD's history it was read from. */
  datatype Read = Read(index: nat, snapshot: Snapshot)

  datatype Pc =
    | Reloading
    | Reloaded(read: Option<Read>)
    | Publishing
    | Published
    | Recovered(read: Option<Read>)

  /** The mutex is held by the one thread that has a program counter. */
  datatype State = State(
    disk: Disk,
    live: Option<Snapshot>,
    holder: Option<(Thread, Pc)>,
    installed: seq<Read>)

  datatype Action =
    | LockReload(t: Thread)
    | ReadForReload(t: Thread, readStop: Stop)
    | InstallReload(t: Thread, hookFails: bool)
    | LockPublish(t: Thread)
    | MountedPublish(t: Thread, c: Candidate, expected: Selected, publishStop: Stop)
    | ReadForPublish(t: Thread, recoverStop: Stop)
    | InstallPublish(t: Thread)
    | OtherPublish(c: Candidate, expected: Selected, publishStop: Stop)
    | OtherReload(readStop: Stop)
    | OtherRecordCommit

  function ReadNow(d: Disk, stop: Stop): (Disk, Option<Read>) {
    var (d1, r) := ReloadStep(d, stop);
    (d1, if r.Ok? && d1.history != [] then Some(Read(|d1.history| - 1, r.value)) else None)
  }

  /** atomic.Pointer.Store and the deferred unlock. */
  function Install(s: State, read: Option<Read>): State {
    if read.None? then s.(live := None, holder := None)
    else s.(live := Some(read.value.snapshot), holder := None, installed := s.installed + [read.value])
  }

  function Step(s: State, a: Action): Option<State> {
    match a
    case LockReload(t) =>
      if s.holder.Some? then None else Some(s.(live := None, holder := Some((t, Reloading))))
    case ReadForReload(t, stop) =>
      if s.holder != Some((t, Reloading)) then None
      else
        var (d1, read) := ReadNow(s.disk, stop);
        Some(s.(disk := d1, holder := Some((t, Reloaded(read)))))
    case InstallReload(t, hookFails) =>
      if s.holder.None? || s.holder.value.0 != t || !s.holder.value.1.Reloaded? then None
      else Some(Install(s, if hookFails then None else s.holder.value.1.read))
    case LockPublish(t) =>
      if s.holder.Some? then None else Some(s.(live := None, holder := Some((t, Publishing))))
    case MountedPublish(t, c, expected, stop) =>
      if s.holder != Some((t, Publishing)) then None
      else Some(s.(disk := PublishStep(s.disk, c, expected, stop).0, holder := Some((t, Published))))
    case ReadForPublish(t, stop) =>
      if s.holder != Some((t, Published)) then None
      else
        var (d1, read) := ReadNow(s.disk, stop);
        Some(s.(disk := d1, holder := Some((t, Recovered(read)))))
    case InstallPublish(t) =>
      if s.holder.None? || s.holder.value.0 != t || !s.holder.value.1.Recovered? then None
      else Some(Install(s, s.holder.value.1.read))
    case OtherPublish(c, expected, stop) => Some(s.(disk := PublishStep(s.disk, c, expected, stop).0))
    case OtherReload(stop) => Some(s.(disk := ReloadStep(s.disk, stop).0))
    case OtherRecordCommit => Some(s.(disk := StepCall(s.disk, RecordCommit)))
  }

  function Run(s: State, schedule: seq<Action>): State
    decreases |schedule|
  {
    if schedule == [] then s
    else
      var next := Step(s, schedule[0]);
      Run(if next.Some? then next.value else s, schedule[1..])
  }

  // ----- Invariant -----

  /** The read is the snapshot that the history entry at its index determines. */
  ghost predicate Authentic(history: seq<Tree>, r: Read)
  {
    && r.index < |history|
    && SoundTree(history[r.index]) && Selection(history[r.index].active).Generation?
    && r.snapshot == HeadSnapshot(history[r.index])
  }

  /** Installed snapshots are authentic and never go back in HEAD's history. */
  ghost predicate Forward(history: seq<Tree>, installed: seq<Read>)
  {
    && (forall i :: 0 <= i < |installed| ==> Authentic(history, installed[i]))
    && (forall i, j :: 0 <= i < j < |installed| ==> installed[i].index <= installed[j].index)
  }

  function Pending(s: State): Option<Read> {
    if s.holder.Some? && (s.holder.value.1.Reloaded? || s.holder.value.1.Recovered?)
    then s.holder.value.1.read else None
  }

  ghost predicate Inv(s: State)
  {
    && Sound(s.disk)
    && Forward(s.disk.history, s.installed)
    && (Pending(s).Some? ==> Forward(s.disk.history, s.installed + [Pending(s).value]))
    && (s.holder.Some? ==> s.live == None)
    && (s.live.Some? ==> s.installed != [] && s.live.value == s.installed[|s.installed| - 1].snapshot)
  }

  lemma LongerHistory(history: seq<Tree>, history': seq<Tree>, installed: seq<Read>)
    requires Forward(history, installed) && history <= history'
    ensures Forward(history', installed)
  {
  }

  lemma ReadIsAuthentic(d: Disk, stop: Stop)
    requires Sound(d)
    ensures var (d1, read) := ReadNow(d, stop);
            && Sound(d1) && d1.history == d.history
            && (read.Some? ==> Authentic(d.history, read.value) && read.value.index == |d.history| - 1)
  {
    RecoverKeepsSound(d, stop);
    var d1 := RecoverStep(d, stop).0;
    if ReloadStep(d, stop).1.Ok? && d.history != [] {
      CompletedReload(d, stop);
    }
  }

  /** A recovery that succeeds was not stopped. */
  lemma RecoveredAsUnstopped(d: Disk, stop: Stop)
    requires RecoverStep(d, stop).1
    ensures RecoverStep(d, stop) == RecoverStep(d, Never)
  {
    hide Complete, Matches, Blobs, PointerRecoverable;
  }

  /** A reload that returned a snapshot was not stopped on the way. */
  lemma CompletedReload(d: Disk, stop: Stop)
    requires Sound(d) && d.history != [] && ReloadStep(d, stop).1.Ok?
    ensures Selection(Head(d).active).Generation?
    ensures ReloadStep(d, stop).1 == Ok(HeadSnapshot(Head(d)))
  {
    hide Verified, Matches, SoundTree, HeadSnapshot, PathResolves, ActiveReadable, RecoverStep, Docs;
    RecoveredAsUnstopped(d, stop);
    RecoverKeepsSound(d, stop);
    ReloadSucceedsIff(d);
  }

  /** HEAD's newest entry is at or past everything installed so far. */
  lemma NewestIsForward(history: seq<Tree>, installed: seq<Read>, r: Read)
    requires Forward(history, installed) && Authentic(history, r) && r.index == |history| - 1
    ensures Forward(history, installed + [r])
  {
    var all := installed + [r];
    forall i, j | 0 <= i < j < |all|
      ensures all[i].index <= all[j].index
    {
      assert Authentic(history, installed[i]);
    }
  }

  lemma DiskStep(s: State, a: Action)
    requires Sound(s.disk) && Step(s, a).Some?
    ensures Sound(Step(s, a).value.disk) && s.disk.history <= Step(s, a).value.disk.history
  {
    hide Sound, PublishStep, ReloadStep;
    match a {
      case OtherPublish(c, expected, stop) => StepCallKeepsSound(s.disk, PublishCall(c, expected, stop));
      case MountedPublish(_, c, expected, stop) => StepCallKeepsSound(s.disk, PublishCall(c, expected, stop));
      case OtherReload(stop) => StepCallKeepsSound(s.disk, ReloadCall(stop));
      case ReadForReload(_, stop) => StepCallKeepsSound(s.disk, ReloadCall(stop));
      case ReadForPublish(_, stop) => StepCallKeepsSound(s.disk, ReloadCall(stop));
      case OtherRecordCommit => StepCallKeepsSound(s.disk, RecordCommit);
      case _ =>
    }
  }

  predicate IsRead(a: Action) {
    a.ReadForReload? || a.ReadForPublish?
  }

  function ReadStop(a: Action): Stop
    requires IsRead(a)
  {
    if a.ReadForReload? then a.readStop else a.recoverStop
  }

  lemma StepKeepsInv(s: State, a: Action)
    requires Inv(s) && Step(s, a).Some?
    ensures Inv(Step(s, a).value) && s.disk.history <= Step(s, a).value.disk.history
  {
    hide Authentic, Sound, PublishStep, ReloadStep, Forward, ReadNow;
    DiskStep(s, a);
    var s1 := Step(s, a).value;
    LongerHistory(s.disk.history, s1.disk.history, s.installed);
    if IsRead(a) {
      ReadIsAuthentic(s.disk, ReadStop(a));
      if Pending(s1).Some? {
        NewestIsForward(s.disk.history, s.installed, Pending(s1).value);
      }
    } else if Pending(s).Some? {
      LongerHistory(s.disk.history, s1.disk.history, s.installed + [Pending(s).value]);
    }
  }

  lemma {:induction false} RunKeepsInv(s: State, schedule: seq<Action>)
    requires Inv(s)
    ensures Inv(Run(s, schedule)) && s.disk.history <= Run(s, schedule).disk.history
    decreases |schedule|
  {
    hide Inv, Step;
    if schedule != [] {
      var next := Step(s, schedule[0]);
      if next.Some? {
        StepKeepsInv(s, schedule[0]);
        RunKeepsInv(next.value, schedule[1..]);
      } else {
        RunKeepsInv(s, schedule[1..]);
      }
    }
  }

  /** The state NewDatabase leaves: the working tree recovered and HEAD's snapshot installed. */
  function Mounted(d: Disk): State {
    var (d1, read) := ReadNow(d, Never);
    Install(State(d1, None, None, []), read)
  }

  lemma MountedInv(d: Disk)
    requires Sound(d)
    ensures Inv(Mounted(d))
  {
    hide Sound, HeadSnapshot, ReloadStep;
    ReadIsAuthentic(d, Never);
  }

  /** In every interleaving of mounted reloads, mounted publications and outside publications, the
      snapshots installed are snapshots of HEAD's history, in an order that never goes back. */
  lemma SnapshotsNeverGoBack(d: Disk, schedule: seq<Action>)
    requires Sound(d)
    ensures var s := Run(Mounted(d), schedule);
            Forward(s.disk.history, s.installed) && (s.holder.Some? ==> s.live == None)
  {
    MountedInv(d);
    RunKeepsInv(Mounted(d), schedule);
  }

  // ----- No outside publisher -----

  /** The live or pending snapshot is the one HEAD determines now. */
  ghost predicate UpToDate(d: Disk, snapshot: Snapshot)
  {
    && d.history != [] && SoundTree(Head(d)) && Selection(Head(d).active).Generation?
    && snapshot == HeadSnapshot(Head(d))
  }

  ghost predicate Current(s: State)
  {
    && (s.live.Some? ==> UpToDate(s.disk, s.live.value))
    && (Pending(s).Some? ==> UpToDate(s.disk, Pending(s).value.snapshot))
  }

  /** HEAD's access tree is what it was. */
  predicate SameHead(d: Disk, d1: Disk) {
    d.history != [] ==> d1.history != [] && Head(d1) == Head(d)
  }

  predicate Publishes(a: Action) {
    a.OtherPublish? || a.MountedPublish?
  }

  lemma StepKeepsHead(s: State, a: Action)
    requires Sound(s.disk) && Step(s, a).Some? && !Publishes(a)
    ensures SameHead(s.disk, Step(s, a).value.disk)
  {
    hide Sound, PublishStep, ReloadStep;
    match a {
      case OtherReload(stop) => ReadIsAuthentic(s.disk, stop); ReloadKeepsHistory(s.disk, stop);
      case ReadForReload(_, stop) => ReadIsAuthentic(s.disk, stop);
      case ReadForPublish(_, stop) => ReadIsAuthentic(s.disk, stop);
      case _ =>
    }
  }

  lemma ReloadKeepsHistory(d: Disk, stop: Stop)
    requires Sound(d)
    ensures ReloadStep(d, stop).0.history == d.history
  {
    RecoverKeepsSound(d, stop);
  }

  lemma StepKeepsCurrent(s: State, a: Action)
    requires Inv(s) && Current(s) && Step(s, a).Some? && !a.OtherPublish?
    ensures Current(Step(s, a).value)
  {
    hide Sound, PublishStep, ReloadStep, SoundTree, HeadSnapshot, ReadNow, Forward;
    var s1 := Step(s, a).value;
    if !a.MountedPublish? {
      StepKeepsHead(s, a);
      if IsRead(a) {
        ReadIsAuthentic(s.disk, ReadStop(a));
      }
    }
  }

  lemma {:induction false} RunKeepsCurrent(s: State, schedule: seq<Action>)
    requires Inv(s) && Current(s)
    requires forall i :: 0 <= i < |schedule| ==> !schedule[i].OtherPublish?
    ensures Current(Run(s, schedule))
    decreases |schedule|
  {
    hide Inv, Step, Current;
    if schedule != [] {
      var next := Step(s, schedule[0]);
      if next.Some? {
        StepKeepsInv(s, schedule[0]);
        StepKeepsCurrent(s, schedule[0]);
        RunKeepsCurrent(next.value, schedule[1..]);
      } else {
        RunKeepsCurrent(s, schedule[1..]);
      }
    }
  }

  /** With no outside publisher, whenever the activation mutex is free the live snapshot is absent or
      HEAD's: no interleaving of mounted calls, failed or stopped anywhere, leaves a stale one. */
  lemma LiveSnapshotIsCurrent(d: Disk, schedule: seq<Action>)
    requires Sound(d)
    requires forall i :: 0 <= i < |schedule| ==> !schedule[i].OtherPublish?
    ensures var s := Run(Mounted(d), schedule);
            s.live.Some? ==> UpToDate(s.disk, s.live.value)
  {
    hide Inv, Sound, HeadSnapshot, ReloadStep, Run;
    MountedInv(d);
    ReadIsAuthentic(d, Never);
    assert Current(Mounted(d));
    RunKeepsCurrent(Mounted(d), schedule);
  }

  // ----- One call alone -----

  lemma Run3(s: State, a: Action, b: Action, c: Action, s1: State, s2: State, s3: State)
    requires Step(s, a) == Some(s1) && Step(s1, b) == Some(s2) && Step(s2, c) == Some(s3)
    ensures Run(s, [a, b, c]) == s3
  {
    hide Step;
    assert [a, b, c][1..] == [b, c] && [b, c][1..] == [c] && [c][1..] == [];
    assert Run(s3, []) == s3;
    assert Run(s2, [c]) == s3;
    assert Run(s1, [b, c]) == s3;
  }

  /** A mounted reload that is not disturbed installs exactly what Reload returns, or leaves no live snapshot; it leaves
      none either when the hook before the installation fails. */
  lemma ReloadInstalls(s: State, t: Thread, hookFails: bool)
    requires s.holder == None && s.disk.history != []
    ensures var s1, r := Run(s, [LockReload(t), ReadForReload(t, Never), InstallReload(t, hookFails)]), ReloadStep(s.disk, Never).1;
            && s1.holder == None && s1.live == (if r.Ok? && !hookFails then Some(r.value) else None)
  {
    var s1 := Step(s, LockReload(t)).value;
    var s2 := Step(s1, ReadForReload(t, Never)).value;
    RecoveryKeepsHistory(s.disk);
    hide ReloadStep;
    Run3(s, LockReload(t), ReadForReload(t, Never), InstallReload(t, hookFails), s1, s2, Step(s2, InstallReload(t, hookFails)).value);
  }

  lemma Run4(s: State, a: Action, b: Action, c: Action, d: Action, s1: State)
    requires Step(s, a) == Some(s1)
    ensures Run(s, [a, b, c, d]) == Run(s1, [b, c, d])
  {
    hide Step;
    assert [a, b, c, d][1..] == [b, c, d];
  }

  /** A mounted publication that is not disturbed publishes, and installs what Reload then returns. */
  lemma PublishInstalls(s: State, t: Thread, c: Candidate, expected: Selected, stop: Stop)
    requires s.holder == None && s.disk.history != []
    ensures var d1 := PublishStep(s.disk, c, expected, stop).0;
            var s1, r := Run(s, [LockPublish(t), MountedPublish(t, c, expected, stop), ReadForPublish(t, Never), InstallPublish(t)]),
                         ReloadStep(d1, Never).1;
            && s1.holder == None && s1.disk.history == d1.history && s1.live == (if r.Ok? then Some(r.value) else None)
  {
    var s1 := Step(s, LockPublish(t)).value;
    var s2 := Step(s1, MountedPublish(t, c, expected, stop)).value;
    var s3 := Step(s2, ReadForPublish(t, Never)).value;
    RecoveryKeepsHistory(s2.disk);
    PublishKeepsHistory(s.disk, c, expected, stop);
    hide ReloadStep, PublishStep;
    Run4(s, LockPublish(t), MountedPublish(t, c, expected, stop), ReadForPublish(t, Never), InstallPublish(t), s1);
    Run3(s1, MountedPublish(t, c, expected, stop), ReadForPublish(t, Never), InstallPublish(t),
         s2, s3, Step(s3, InstallPublish(t)).value);
  }

  lemma PublishKeepsHistory(d: Disk, c: Candidate, expected: Selected, stop: Stop)
    ensures d.history <= PublishStep(d, c, expected, stop).0.history
  {
    hide Advances, PublishStep, BuiltActive, BuiltRevision;
    PublishHistory(d, c, expected, stop);
  }

  lemma RecoveryKeepsHistory(d: Disk)
    ensures ReloadStep(d, Never).0.history == d.history
  {
    hide Complete, Matches, Blobs, PointerRecoverable, ActiveReadable;
  }
}
