/** File locks while operations, callbacks and views run (rooted_files.go): whoever holds one holds it alone, or shares
    it. */
module FileLocks {
  import opened Common
  import opened Leases

  /** The call holds the lock of path, alone or shared: an operation with its own lock, the callback of a locked file,
      or an operation inside a view with a lock of its own. */
  predicate Holds(pc: Pc, path: Path, exclusive: bool) {
    || pc == Locked(FileLock(path, exclusive))
    || (pc.InCallback? && pc.path == path && exclusive)
    || (pc.ViewLocked? && pc.need == FileLock(path, exclusive))
  }

  /** A lock held exclusively is held by nobody else, inside or outside. */
  ghost predicate Exclusive(s: State)
  {
    && (forall t, u, path, e :: t in s.pcs && u in s.pcs && t != u && Holds(s.pcs[t], path, true) ==> !Holds(s.pcs[u], path, e))
    && (forall t, path, e :: t in s.pcs && Holds(s.pcs[t], path, e) && path in s.outside ==> !e && !s.outside[path])
  }

  lemma HoldsIff(pc: Pc, path: Path, exclusive: bool)
    ensures Holds(pc, path, exclusive) <==> HeldLock(pc) == FileLock(path, exclusive)
  {
  }

  /** What a step does to the locks: nothing, one is given up, or one that is free is taken. */
  ghost predicate LocksMove(s: State, t: Thread, s': State)
  {
    && t in s'.pcs && s'.pcs == s.pcs[t := s'.pcs[t]] && s'.outside == s.outside
    && (|| HeldLock(s'.pcs[t]) == NoLock
        || (t in s.pcs && HeldLock(s'.pcs[t]) == HeldLock(s.pcs[t]))
        || Grantable(s, HeldLock(s'.pcs[t])))
  }

  lemma TakingMoves(s: State, t: Thread)
    ensures StepTakeLock(s, t).Some? ==> LocksMove(s, t, StepTakeLock(s, t).value)
  {
    hide Grantable;
  }

  lemma StartingMoves(s: State, t: Thread, call: Call)
    ensures StepBegin(s, t, call).Some? ==> LocksMove(s, t, StepBegin(s, t, call).value)
    ensures StepRLock(s, t).Some? ==> LocksMove(s, t, StepRLock(s, t).value)
  {
    hide Grantable, WriterWaits;
  }

  lemma RUnlockMoves(s: State, t: Thread)
    ensures StepRUnlock(s, t).Some? ==> LocksMove(s, t, StepRUnlock(s, t).value)
  {
    hide Grantable;
  }

  lemma FailMoves(s: State, t: Thread)
    ensures StepFail(s, t).Some? ==> LocksMove(s, t, StepFail(s, t).value)
  {
    hide Grantable;
  }

  lemma CallbackMoves(s: State, t: Thread, callee: Thread)
    ensures StepAwait(s, t, callee).Some? ==> LocksMove(s, t, StepAwait(s, t, callee).value)
    ensures StepResume(s, t).Some? ==> LocksMove(s, t, StepResume(s, t).value)
    ensures StepEndCallback(s, t).Some? ==> LocksMove(s, t, StepEndCallback(s, t).value)
    ensures StepViewEnter(s, t).Some? ==> LocksMove(s, t, StepViewEnter(s, t).value)
  {
    hide Grantable;
  }

  lemma ClosingMoves(s: State, a: Action)
    requires a.CloseDrain? || a.CloseLock? || a.CloseRoot?
    ensures StepClose(s, a).Some? ==> LocksMove(s, a.t, StepClose(s, a).value)
  {
    hide Grantable;
  }

  lemma StepMovesLocks(s: State, a: Action)
    requires Step(s, a).Some? && !IsOutside(a)
    ensures LocksMove(s, a.t, Step(s, a).value)
  {
    hide StepBegin, StepRLock, StepTakeLock, StepRUnlock, StepFail, StepAwait, StepResume, StepEndCallback, StepViewEnter;
    hide StepClose, Grantable;
    TakingMoves(s, a.t);
    StartingMoves(s, a.t, if a.Begin? then a.call else Ordinary(NoLock));
    RUnlockMoves(s, a.t);
    FailMoves(s, a.t);
    CallbackMoves(s, a.t, if a.Await? then a.callee else a.t);
    if a.CloseDrain? || a.CloseLock? || a.CloseRoot? {
      ClosingMoves(s, a);
    }
  }

  ghost predicate NoConflict(s: State)
  {
    && (forall t, u :: t in s.pcs && u in s.pcs && t != u ==> !Conflict(HeldLock(s.pcs[t]), HeldLock(s.pcs[u])))
    && (forall t :: t in s.pcs ==> !LockedOutside(s, HeldLock(s.pcs[t])))
  }

  lemma NoConflictIsExclusive(s: State)
    requires NoConflict(s)
    ensures Exclusive(s)
  {
    forall t, u, path, e | t in s.pcs && u in s.pcs && t != u && Holds(s.pcs[t], path, true)
      ensures !Holds(s.pcs[u], path, e)
    {
      HoldsIff(s.pcs[t], path, true);
      HoldsIff(s.pcs[u], path, e);
    }
    forall t, path, e | t in s.pcs && Holds(s.pcs[t], path, e) && path in s.outside
      ensures !e && !s.outside[path]
    {
      HoldsIff(s.pcs[t], path, e);
    }
  }

  lemma MoveKeepsApart(s: State, t: Thread, s': State)
    requires NoConflict(s) && LocksMove(s, t, s')
    ensures NoConflict(s')
  {
    hide HeldLock;
    assert forall u :: u in s'.pcs && u != t ==> s'.pcs[u] == s.pcs[u];
  }

  lemma StepKeepsApart(s: State, a: Action)
    requires NoConflict(s) && Step(s, a).Some?
    ensures NoConflict(Step(s, a).value)
  {
    hide HeldLock;
    if IsOutside(a) {
      OutsideStep(s, a);
    } else {
      StepMovesLocks(s, a);
      hide Step;
      MoveKeepsApart(s, a.t, Step(s, a).value);
    }
  }

  lemma {:induction false} RunKeepsApart(s: State, schedule: seq<Action>)
    requires NoConflict(s)
    ensures NoConflict(Run(s, schedule))
    decreases |schedule|
  {
    hide NoConflict, Step;
    if schedule != [] {
      var next := Step(s, schedule[0]);
      if next.Some? {
        StepKeepsApart(s, schedule[0]);
        RunKeepsApart(next.value, schedule[1..]);
      } else {
        RunKeepsApart(s, schedule[1..]);
      }
    }
  }

  /** In every interleaving, with locks taken outside at any time, an exclusive lock of a file excludes every other lock
      of it, the callback's own views included. */
  lemma LocksExclude(schedule: seq<Action>)
    ensures Exclusive(Run(Opened, schedule))
  {
    RunKeepsApart(Opened, schedule);
    NoConflictIsExclusive(Run(Opened, schedule));
  }

  /** The lock that a call waits for, with mu held for reading or, for a callback, given back. */
  predicate Asks(pc: Pc, path: Path, exclusive: bool) {
    || pc == Reading(Ordinary(FileLock(path, exclusive)))
    || (pc == AwaitingFlock(path) && exclusive)
    || (pc.ViewReading? && pc.need == FileLock(path, exclusive))
  }

  /** A waiting call takes its lock exactly when nobody outside holds a conflicting one and no call does; it then holds
      that lock and nobody else's has changed. */
  lemma TakesItsLock(s: State, t: Thread, path: Path, exclusive: bool)
    requires t in s.pcs && Asks(s.pcs[t], path, exclusive)
    ensures Step(s, TakeLock(t)).Some? <==>
            && (path in s.outside ==> !exclusive && !s.outside[path])
            && (forall u, e :: u in s.pcs && Holds(s.pcs[u], path, e) ==> !exclusive && !e)
    ensures Step(s, TakeLock(t)).Some? ==>
              var s' := Step(s, TakeLock(t)).value;
              t in s'.pcs && Holds(s'.pcs[t], path, exclusive) && s'.pcs == s.pcs[t := s'.pcs[t]] && s'.outside == s.outside
  {
    forall u, e | u in s.pcs
      ensures Holds(s.pcs[u], path, e) <==> HeldLock(s.pcs[u]) == FileLock(path, e)
    {
      HoldsIff(s.pcs[u], path, e);
    }
    AskedIs(s.pcs[t], path, exclusive);
    GrantableIff(s, path, exclusive);
    hide Grantable, Holds, HeldLock, AskedLock, WithFileLock, Asks;
  }

  lemma AskedIs(pc: Pc, path: Path, exclusive: bool)
    requires Asks(pc, path, exclusive)
    ensures AskedLock(pc) == FileLock(path, exclusive) && Holds(WithFileLock(pc), path, exclusive)
  {
  }

  lemma GrantableIff(s: State, path: Path, exclusive: bool)
    ensures Grantable(s, FileLock(path, exclusive)) <==>
            && (path in s.outside ==> !exclusive && !s.outside[path])
            && (forall u, e :: u in s.pcs && Holds(s.pcs[u], path, e) ==> !exclusive && !e)
  {
    forall u, e | u in s.pcs
      ensures Holds(s.pcs[u], path, e) <==> HeldLock(s.pcs[u]) == FileLock(path, e)
    {
      HoldsIff(s.pcs[u], path, e);
    }
    hide Holds, HeldLock;
    forall u | u in s.pcs
      ensures Conflict(HeldLock(s.pcs[u]), FileLock(path, exclusive)) <==>
              (Holds(s.pcs[u], path, true) || (Holds(s.pcs[u], path, false) && exclusive))
    {
    }
  }
}
