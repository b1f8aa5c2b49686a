/** Which calls of RootedFiles can still return (rooted_files.go). Calls wait for leases, for file locks, for a
    view's mutex and, inside callbacks, for one another; a call can finish exactly when it belongs to no set
    of calls that all wait for each other. */
module CloseProgress {
  import opened Common
  import opened Leases

  /** The file lock that an operation has asked for or will ask for before it can return. */
  function Demand(pc: Pc): Need {
    match pc
    case Leased(call) => if call.Ordinary? then call.need else FileLock(call.path, true)
    case Reading(call) => if call.Ordinary? then call.need else FileLock(call.path, true)
    case AwaitingFlock(path) => FileLock(path, true)
    case ViewHeld(_, need) => need
    case ViewReading(_, need) => need
    case _ => NoLock
  }

  /** The lock is held outside or by one of the calls in held. */
  ghost predicate NeedBlocked(s: State, need: Need, held: set<Thread>)
  {
    LockedOutside(s, need) || exists h :: h in held && h in s.pcs && Conflict(HeldLock(s.pcs[h]), need)
  }

  /** As long as the calls in held do not move on, t cannot return: its lock is held, the call its callback
      waits for is among them, a call through its view is, or a lease that Close waits for. A call that waits
      for a view's mutex is refused once the callback is over, so that callback must be among them too. */
  ghost predicate Blocked(s: State, t: Thread, held: set<Thread>)
    requires t in s.pcs
  {
    match s.pcs[t]
    case InCallback(_, awaits) =>
      (awaits.Some? && awaits.value in held) || (t in s.views && s.views[t].holder.Some? && s.views[t].holder.value in held)
    case ViewWaiting(owner, need) =>
      && owner in s.views && s.views[owner].active && owner in held
      && ((s.views[owner].holder.Some? && s.views[owner].holder.value in held) || NeedBlocked(s, need, held))
    case Closing => exists h :: h in held && LeaseAt(s, h)
    case _ => NeedBlocked(s, Demand(s.pcs[t]), held)
  }

  /** Calls that all wait for one another, or for a lock held outside. */
  ghost predicate Stuck(s: State, calls: set<Thread>)
  {
    forall t :: t in calls ==> t in s.pcs && Blocked(s, t, calls)
  }

  // ----- Stuck calls stay stuck -----

  /** How the state of a stuck call can still change. */
  predicate Stays(pc: Pc, pc': Pc) {
    || pc' == pc
    || (pc.Leased? && pc' == Reading(pc.call))
    || (pc.Reading? && pc.call.WithLock? && pc' == AwaitingFlock(pc.call.path))
    || (pc.ViewWaiting? && pc' == ViewHeld(pc.owner, pc.need))
    || (pc.ViewHeld? && pc' == ViewReading(pc.owner, pc.need))
    || (pc.InCallback? && pc'.InCallback? && pc'.path == pc.path)
  }

  /** Stuck calls are unfinished, and hold a file lock only inside a callback. */
  lemma StuckKinds(s: State, calls: set<Thread>, t: Thread)
    requires Stuck(s, calls) && t in calls
    ensures t in s.pcs && !Finished(s.pcs[t])
    ensures HeldLock(s.pcs[t]) != NoLock ==> s.pcs[t].InCallback?
    ensures HoldsLease(s.pcs[t]) ==> s.pcs[t].Leased? || s.pcs[t].Reading? || s.pcs[t].AwaitingFlock? || s.pcs[t].InCallback?
    ensures UsesView(s.pcs[t]) ==> s.pcs[t].ViewHeld? || s.pcs[t].ViewReading?
    ensures !s.pcs[t].Drained? && !s.pcs[t].Writing?
  {
    assert Blocked(s, t, calls);
  }

  lemma BlockedIsNotGrantable(s: State, need: Need, calls: set<Thread>)
    requires NeedBlocked(s, need, calls)
    ensures !Grantable(s, need) && need != NoLock
  {
  }

  lemma TakingStays(s: State, calls: set<Thread>, a: Action)
    requires Inv(s) && Stuck(s, calls) && Step(s, a).Some? && TakesOrStarts(a) && a.t in calls
    ensures Stays(s.pcs[a.t], Step(s, a).value.pcs[a.t])
  {
    hide Inv, Grantable, WriterWaits, StepRUnlock, StepFail, StepAwait, StepResume, StepEndCallback, StepViewEnter, StepClose;
    hide NeedBlocked;
    assert Blocked(s, a.t, calls);
    if a.TakeLock? {
      BlockedIsNotGrantable(s, Demand(s.pcs[a.t]), calls);
    }
  }

  lemma GivingStays(s: State, calls: set<Thread>, a: Action)
    requires Stuck(s, calls) && Step(s, a).Some? && a.RUnlock? && a.t in calls
    ensures Stays(s.pcs[a.t], Step(s, a).value.pcs[a.t])
  {
    hide StepBegin, StepRLock, StepTakeLock, StepFail, StepAwait, StepResume, StepEndCallback, StepViewEnter, StepClose;
    hide NeedBlocked;
    assert Blocked(s, a.t, calls);
    if !s.pcs[a.t].InCallback? && !s.pcs[a.t].ViewWaiting? && !s.pcs[a.t].Closing? {
      BlockedIsNotGrantable(s, Demand(s.pcs[a.t]), calls);
    }
  }

  lemma WaitingStays(s: State, calls: set<Thread>, a: Action)
    requires !IsOutside(a) && !TakesOrStarts(a) && !Gives(a)
    requires Inv(s) && Stuck(s, calls) && Step(s, a).Some? && a.t in calls
    ensures Stays(s.pcs[a.t], Step(s, a).value.pcs[a.t])
  {
    hide StepBegin, StepRLock, StepTakeLock, StepRUnlock, StepFail, NeedBlocked, ViewsOk, LocksOk, CloseOk;
    StuckKinds(s, calls, a.t);
    assert Blocked(s, a.t, calls);
    if s.pcs[a.t].Closing? {
      StuckCloseWaits(s, calls, a.t);
    }
  }

  lemma StuckCloseWaits(s: State, calls: set<Thread>, t: Thread)
    requires Inv(s) && Stuck(s, calls) && t in calls && s.pcs[t].Closing?
    ensures s.operations > 0
  {
    assert Blocked(s, t, calls);
    var h :| h in calls && LeaseAt(s, h);
    assert h in Holders(s);
  }

  lemma MemberStays(s: State, calls: set<Thread>, a: Action, t: Thread)
    requires Inv(s) && Stuck(s, calls) && Step(s, a).Some? && t in calls
    requires !IsOutside(a) && !(a.Fail? && a.t in calls)
    ensures t in Step(s, a).value.pcs && Stays(s.pcs[t], Step(s, a).value.pcs[t])
  {
    hide Step, Inv, Blocked, Stays;
    StepMovesOne(s, a);
    if a.t == t {
      if TakesOrStarts(a) {
        TakingStays(s, calls, a);
      } else if a.RUnlock? {
        GivingStays(s, calls, a);
      } else {
        WaitingStays(s, calls, a);
      }
    } else {
      assert Stays(s.pcs[t], s.pcs[t]) by { StaysReflexive(s.pcs[t]); }
    }
  }

  lemma StaysReflexive(pc: Pc)
    ensures Stays(pc, pc)
  {
  }

  /** The locks that stuck calls hold stay held. */
  lemma NeedStaysBlocked(s: State, s': State, need: Need, calls: set<Thread>)
    requires Stuck(s, calls) && NeedBlocked(s, need, calls)
    requires forall t :: t in calls ==> t in s'.pcs && Stays(s.pcs[t], s'.pcs[t])
    requires LockedOutside(s, need) ==> LockedOutside(s', need)
    ensures NeedBlocked(s', need, calls)
  {
    if !LockedOutside(s, need) {
      var h :| h in calls && h in s.pcs && Conflict(HeldLock(s.pcs[h]), need);
      StuckKinds(s, calls, h);
      assert HeldLock(s'.pcs[h]) == HeldLock(s.pcs[h]);
    }
  }

  /** A stuck call that holds a view's mutex goes on holding it. */
  lemma HolderStays(s: State, s': State, calls: set<Thread>, owner: Thread)
    requires Inv(s) && Inv(s') && Stuck(s, calls) && owner in s.views
    requires s.views[owner].holder.Some? && s.views[owner].holder.value in calls
    requires forall t :: t in calls ==> t in s'.pcs && Stays(s.pcs[t], s'.pcs[t])
    ensures owner in s'.views && s'.views[owner].holder == s.views[owner].holder
  {
    var h := s.views[owner].holder.value;
    assert OwnerOk(s, owner);
    StuckKinds(s, calls, h);
    assert UserOk(s', h);
  }

  /** A stuck call that waits for a view's mutex goes on waiting, or has it and waits for its lock. */
  lemma ViewStaysBlocked(s: State, s': State, calls: set<Thread>, t: Thread)
    requires Inv(s) && Inv(s') && Stuck(s, calls) && t in calls && s.pcs[t].ViewWaiting?
    requires forall u :: u in calls ==> u in s'.pcs && Stays(s.pcs[u], s'.pcs[u])
    requires forall need :: LockedOutside(s, need) ==> LockedOutside(s', need)
    requires s'.pcs[t].ViewHeld? ==> s.views[s.pcs[t].owner].holder.None?
    ensures Blocked(s', t, calls)
  {
    hide NeedBlocked;
    assert Blocked(s, t, calls);
    var pc := s.pcs[t];
    assert OwnerOk(s, pc.owner);
    assert UserOk(s', pc.owner);
    if s.views[pc.owner].holder.Some? && s.views[pc.owner].holder.value in calls {
      HolderStays(s, s', calls, pc.owner);
    } else {
      NeedStaysBlocked(s, s', pc.need, calls);
    }
  }

  lemma MemberStaysBlocked(s: State, s': State, calls: set<Thread>, a: Action, t: Thread)
    requires Inv(s) && Inv(s') && Stuck(s, calls) && t in calls && Step(s, a) == Some(s')
    requires !(a.Fail? && a.t in calls) && !a.OutsideUnlock?
    requires forall u :: u in calls ==> u in s'.pcs && Stays(s.pcs[u], s'.pcs[u])
    requires forall need :: LockedOutside(s, need) ==> LockedOutside(s', need)
    requires s.pcs[t].InCallback? && s.pcs[t].awaits.Some? && s.pcs[t].awaits.value in calls ==> s'.pcs[t] == s.pcs[t]
    requires s.pcs[t].ViewWaiting? && s'.pcs[t].ViewHeld? ==> s.views[s.pcs[t].owner].holder.None?
    ensures Blocked(s', t, calls)
  {
    hide NeedBlocked, Step, Inv;
    assert Blocked(s, t, calls);
    var pc := s.pcs[t];
    if pc.InCallback? {
      if !(pc.awaits.Some? && pc.awaits.value in calls) {
        HolderStays(s, s', calls, t);
      }
    } else if pc.ViewWaiting? {
      ViewStaysBlocked(s, s', calls, t);
    } else if pc.Closing? {
      var h :| h in calls && LeaseAt(s, h);
      StuckKinds(s, calls, h);
      assert LeaseAt(s', h);
    } else {
      StuckKinds(s, calls, t);
      NeedStaysBlocked(s, s', Demand(pc), calls);
    }
  }

  /** A call that its callback waits for is among the stuck ones, so the wait goes on. */
  lemma WaitGoesOn(s: State, calls: set<Thread>, a: Action, t: Thread)
    requires !IsOutside(a) && !(a.Fail? && a.t in calls)
    requires Inv(s) && Stuck(s, calls) && Step(s, a).Some? && t in calls
    ensures t in Step(s, a).value.pcs
    ensures s.pcs[t].InCallback? && s.pcs[t].awaits.Some? && s.pcs[t].awaits.value in calls ==>
              Step(s, a).value.pcs[t] == s.pcs[t]
    ensures s.pcs[t].ViewWaiting? && Step(s, a).value.pcs[t].ViewHeld? ==>
              s.pcs[t].owner in s.views && s.views[s.pcs[t].owner].holder.None?
  {
    StepMovesOne(s, a);
    if a.t == t && s.pcs[t].InCallback? && s.pcs[t].awaits.Some? && s.pcs[t].awaits.value in calls {
      StuckKinds(s, calls, s.pcs[t].awaits.value);
      CallbackActions(s, a);
    }
    if a.t == t && s.pcs[t].ViewWaiting? {
      ViewWaitingActions(s, a);
    }
  }

  lemma CallbackActions(s: State, a: Action)
    requires !IsOutside(a) && Step(s, a).Some? && a.t in s.pcs && s.pcs[a.t].InCallback? && s.pcs[a.t].awaits.Some?
    ensures a.Resume? && s.pcs[a.t].awaits.value in s.pcs && Finished(s.pcs[s.pcs[a.t].awaits.value])
  {
    hide Grantable, WriterWaits;
  }

  lemma ViewWaitingActions(s: State, a: Action)
    requires !IsOutside(a) && Step(s, a).Some? && a.t in s.pcs && s.pcs[a.t].ViewWaiting?
    ensures a.ViewEnter? && s.pcs[a.t].owner in s.views && s.views[s.pcs[a.t].owner].holder.None?
  {
    hide Grantable, WriterWaits;
  }

  lemma OutsideStays(s: State, a: Action)
    requires Step(s, a).Some? && !a.OutsideUnlock?
    ensures forall need :: LockedOutside(s, need) ==> LockedOutside(Step(s, a).value, need)
  {
    if IsOutside(a) {
      OutsideStep(s, a);
    } else {
      StepMovesOne(s, a);
      hide Step;
    }
  }

  /** Whatever else happens, short of an error in one of them or the release of a lock held outside, stuck
      calls stay stuck. */
  lemma StuckStays(s: State, calls: set<Thread>, a: Action)
    requires Inv(s) && Stuck(s, calls) && Step(s, a).Some? && !a.OutsideUnlock? && !(a.Fail? && a.t in calls)
    ensures Stuck(Step(s, a).value, calls)
  {
    hide Step, Inv, Blocked, Stays, LockedOutside;
    var s' := Step(s, a).value;
    StepKeepsInv(s, a);
    OutsideStays(s, a);
    if IsOutside(a) {
      OutsideStep(s, a);
      forall t | t in calls
        ensures Stays(s.pcs[t], s'.pcs[t])
      {
        StaysReflexive(s.pcs[t]);
      }
    } else {
      forall t | t in calls
        ensures t in s'.pcs && Stays(s.pcs[t], s'.pcs[t])
      {
        MemberStays(s, calls, a, t);
      }
    }
    forall t | t in calls
      ensures t in s'.pcs && Blocked(s', t, calls)
    {
      if IsOutside(a) {
        assert s'.pcs == s.pcs;
      } else {
        WaitGoesOn(s, calls, a, t);
      }
      MemberStaysBlocked(s, s', calls, a, t);
    }
  }

  lemma {:induction false} StuckForever(s: State, calls: set<Thread>, schedule: seq<Action>)
    requires Inv(s) && Stuck(s, calls)
    requires forall i :: 0 <= i < |schedule| ==> !schedule[i].OutsideUnlock? && !(schedule[i].Fail? && schedule[i].t in calls)
    ensures Stuck(Run(s, schedule), calls)
    decreases |schedule|
  {
    hide Step, Inv, Stuck;
    if schedule != [] {
      var next := Step(s, schedule[0]);
      if next.Some? {
        StuckStays(s, calls, schedule[0]);
        StepKeepsInv(s, schedule[0]);
        StuckForever(next.value, calls, schedule[1..]);
      } else {
        StuckForever(s, calls, schedule[1..]);
      }
    }
  }

  // ----- Calls that are not stuck can return -----

  function Unfinished(s: State): set<Thread> {
    set t | t in s.pcs && !Finished(s.pcs[t])
  }

  /** The next action of a call that nothing holds up. */
  function NextMove(s: State, t: Thread): (a: Action)
    requires t in s.pcs && !Finished(s.pcs[t])
    ensures !IsOutside(a) && !a.Fail? && !a.Await? && !a.OutsideUnlock? && a.t == t
  {
    match s.pcs[t]
    case Leased(_) => RLock(t)
    case Reading(call) => if call.Ordinary? && call.need.FileLock? then TakeLock(t) else RUnlock(t)
    case Locked(_) => RUnlock(t)
    case AwaitingFlock(_) => TakeLock(t)
    case InCallback(_, awaits) => if awaits.Some? then Resume(t) else EndCallback(t)
    case Released => EndOperation(t)
    case ViewWaiting(_, _) => ViewEnter(t)
    case ViewHeld(_, _) => RLock(t)
    case ViewReading(_, need) => if need.FileLock? then TakeLock(t) else RUnlock(t)
    case ViewLocked(_, _) => RUnlock(t)
    case Closing => CloseDrain(t)
    case Drained => CloseLock(t)
    case Writing => CloseRoot(t)
  }

  lemma FreeIsGrantable(s: State, need: Need)
    requires !NeedBlocked(s, need, Unfinished(s))
    ensures Grantable(s, need)
  {
    assert forall u :: u in s.pcs && HeldLock(s.pcs[u]) != NoLock ==> u in Unfinished(s);
  }

  lemma LeaseMeansOpen(s: State, t: Thread)
    requires Inv(s) && t in s.pcs && (HoldsLease(s.pcs[t]) || UsesView(s.pcs[t]))
    ensures !WriterWaits(s)
  {
    LeaseOfUser(s);
  }

  /** No call but a stuck one is held up: mu, which prefers writers, never is the reason. */
  lemma FreeCanMove(s: State, t: Thread)
    requires Inv(s) && t in Unfinished(s) && !Blocked(s, t, Unfinished(s)) && !(s.pcs[t].Drained? && s.writer.Some?)
    ensures Step(s, NextMove(s, t)).Some?
  {
    hide Grantable, WriterWaits, NeedBlocked;
    var pc := s.pcs[t];
    assert UserOk(s, t);
    if pc.Leased? || UsesView(pc) {
      LeaseMeansOpen(s, t);
    }
    if pc.Reading? || pc.AwaitingFlock? || pc.ViewReading? {
      FreeIsGrantable(s, Demand(pc));
    }
    if pc.InCallback? {
      CallbackCanEnd(s, t);
    }
    if pc.ViewWaiting? {
      ViewCanEnter(s, t);
    }
    if pc.Closing? {
      NoLeaseLeft(s, t);
    }
    if pc.Drained? {
      NoReaderLeft(s, t);
    }
  }

  lemma HolderIsUnfinished(s: State, o: Thread)
    requires Inv(s) && o in s.views
    ensures s.views[o].holder.Some? ==> s.views[o].holder.value in Unfinished(s)
    ensures s.views[o].active ==> o in Unfinished(s)
    ensures !s.views[o].active ==> s.views[o].holder == None
  {
    assert OwnerOk(s, o);
  }

  lemma CallbackCanEnd(s: State, t: Thread)
    requires Inv(s) && t in Unfinished(s) && s.pcs[t].InCallback? && !Blocked(s, t, Unfinished(s))
    ensures t in s.views && s.views[t].holder == None
    ensures s.pcs[t].awaits.Some? ==> s.pcs[t].awaits.value in s.pcs && Finished(s.pcs[s.pcs[t].awaits.value])
  {
    assert UserOk(s, t);
    HolderIsUnfinished(s, t);
  }

  lemma ViewCanEnter(s: State, t: Thread)
    requires Inv(s) && t in Unfinished(s) && s.pcs[t].ViewWaiting? && !Blocked(s, t, Unfinished(s))
    ensures s.pcs[t].owner in s.views && s.views[s.pcs[t].owner].holder == None
    ensures s.views[s.pcs[t].owner].active ==> !NeedBlocked(s, s.pcs[t].need, Unfinished(s))
  {
    assert UserOk(s, t);
    HolderIsUnfinished(s, s.pcs[t].owner);
  }

  lemma NoLeaseLeft(s: State, t: Thread)
    requires Inv(s) && t in Unfinished(s) && s.pcs[t].Closing? && !Blocked(s, t, Unfinished(s))
    ensures s.operations <= 0
  {
    if s.operations > 0 {
      var h :| h in Holders(s);
      assert h in Unfinished(s) && LeaseAt(s, h);
    }
  }

  lemma NoReaderLeft(s: State, t: Thread)
    requires Inv(s) && t in s.pcs && s.pcs[t].Drained?
    ensures s.readers == {}
  {
    LeaseOfUser(s);
    ReadersUseRoot(s);
  }

  lemma ReadersUseRoot(s: State)
    requires Inv(s)
    ensures forall u :: u in s.readers ==> u in s.pcs && UsesRoot(s.pcs[u])
  {
  }

  // ----- A free move holds up nobody who was not held up before -----

  /** What a move of t changes for the others. */
  ghost predicate MovedAlone(s: State, t: Thread, s': State)
  {
    && t in s'.pcs && s'.pcs == s.pcs[t := s'.pcs[t]] && s'.outside == s.outside
    && (forall o :: o in s'.views && o != t ==> o in s.views && s'.views[o].active == s.views[o].active)
    && (forall o :: o in s'.views && s'.views[o].holder.Some? && s'.views[o].holder.value != t ==>
          o in s.views && s'.views[o].holder == s.views[o].holder)
  }

  lemma StartingIsAlone(s: State, t: Thread, call: Call)
    ensures StepBegin(s, t, call).Some? ==> MovedAlone(s, t, StepBegin(s, t, call).value)
    ensures StepRLock(s, t).Some? ==> MovedAlone(s, t, StepRLock(s, t).value)
  {
    hide WriterWaits;
  }

  lemma LockingIsAlone(s: State, t: Thread)
    requires StepTakeLock(s, t).Some?
    ensures MovedAlone(s, t, StepTakeLock(s, t).value)
  {
    hide Grantable, AskedLock, WithFileLock;
  }

  lemma TakingIsAlone(s: State, a: Action)
    requires TakesOrStarts(a) && Step(s, a).Some?
    ensures MovedAlone(s, a.t, Step(s, a).value)
  {
    hide MovedAlone, StepBegin, StepRLock, StepTakeLock;
    match a
    case Begin(t, call) => StartingIsAlone(s, t, call);
    case RLock(t) => StartingIsAlone(s, t, Ordinary(NoLock));
    case TakeLock(t) => LockingIsAlone(s, t);
  }

  lemma LeavingIsAlone(s: State, t: Thread, owner: Thread)
    requires LeaveView(s, t, owner).Some?
    ensures MovedAlone(s, t, LeaveView(s, t, owner).value)
  {
  }

  lemma GivingIsAlone(s: State, a: Action)
    requires Gives(a) && Step(s, a).Some?
    ensures MovedAlone(s, a.t, Step(s, a).value)
  {
    hide StepBegin, StepRLock, StepTakeLock, StepAwait, StepResume, StepEndCallback, StepViewEnter, StepClose, LeaveView;
    if UsesView(s.pcs[a.t]) {
      LeavingIsAlone(s, a.t, s.pcs[a.t].owner);
    }
  }

  lemma ViewStepIsAlone(s: State, t: Thread)
    ensures StepEndCallback(s, t).Some? ==> MovedAlone(s, t, StepEndCallback(s, t).value)
    ensures StepViewEnter(s, t).Some? ==> MovedAlone(s, t, StepViewEnter(s, t).value)
  {
  }

  /** The other steps leave the views alone. */
  lemma OtherStepKeepsViews(s: State, a: Action)
    requires !IsOutside(a) && Step(s, a).Some? && !TakesOrStarts(a) && !Gives(a) && !a.EndCallback? && !a.ViewEnter?
    ensures Step(s, a).value.views == s.views
  {
    hide StepBegin, StepRLock, StepTakeLock, StepRUnlock, StepFail, StepEndCallback, StepViewEnter;
  }

  lemma MoveIsAlone(s: State, a: Action)
    requires !IsOutside(a) && Step(s, a).Some?
    ensures MovedAlone(s, a.t, Step(s, a).value)
  {
    if TakesOrStarts(a) {
      TakingIsAlone(s, a);
    } else if Gives(a) {
      GivingIsAlone(s, a);
    } else if a.EndCallback? || a.ViewEnter? {
      hide MovedAlone, StepEndCallback, StepViewEnter;
      ViewStepIsAlone(s, a.t);
    } else {
      OtherStepKeepsViews(s, a);
      StepMovesOne(s, a);
      hide Step;
    }
  }

  lemma OthersNoWorse(s: State, t: Thread, s': State, x: Thread, calls: set<Thread>)
    requires MovedAlone(s, t, s') && x != t && t !in calls && x in s.pcs && Blocked(s', x, calls)
    ensures Blocked(s, x, calls)
  {
    hide NeedBlocked;
    assert s'.pcs[x] == s.pcs[x];
    forall need | NeedBlocked(s', need, calls)
      ensures NeedBlocked(s, need, calls)
    {
      NeedNoWorse(s, t, s', need, calls);
    }
    if s.pcs[x].Closing? {
      var h :| h in calls && LeaseAt(s', h);
      assert LeaseAt(s, h);
    }
  }

  lemma NeedNoWorse(s: State, t: Thread, s': State, need: Need, calls: set<Thread>)
    requires MovedAlone(s, t, s') && t !in calls && NeedBlocked(s', need, calls)
    ensures NeedBlocked(s, need, calls)
  {
    if !LockedOutside(s', need) {
      var h :| h in calls && h in s'.pcs && Conflict(HeldLock(s'.pcs[h]), need);
      assert s.pcs[h] == s'.pcs[h];
    }
  }

  /** How many moves a call has left at most. */
  function Rank(pc: Pc): nat {
    match pc
    case Leased(_) => 7
    case Reading(_) => 6
    case AwaitingFlock(_) => 5
    case InCallback(_, awaits) => if awaits.Some? then 4 else 3
    case Locked(_) => 2
    case Released => 1
    case ViewWaiting(_, _) => 4
    case ViewHeld(_, _) => 3
    case ViewReading(_, _) => 2
    case ViewLocked(_, _) => 1
    case Closing => 3
    case Drained => 2
    case Writing => 1
    case _ => 0
  }

  /** After its move the call is one step further and not held up, unless by a Close that has mu. */
  ghost predicate MovedOn(s: State, t: Thread, s': State)
  {
    && t in s.pcs && t in s'.pcs && Rank(s'.pcs[t]) < Rank(s.pcs[t])
    && (Finished(s'.pcs[t]) || !Blocked(s', t, Unfinished(s')))
  }

  lemma FreshlyLocked(s: State, t: Thread)
    requires Inv(s) && t in Unfinished(s) && !Blocked(s, t, Unfinished(s)) && StepTakeLock(s, t).Some?
    ensures MovedOn(s, t, StepTakeLock(s, t).value)
  {
    hide Grantable;
  }

  /** The needs of a call, and who holds what, are as before when it has only moved on to wait. */
  lemma NeedStaysFree(s: State, t: Thread, s': State, need: Need)
    requires t in s.pcs && t in s'.pcs && s'.pcs == s.pcs[t := s'.pcs[t]] && s'.outside == s.outside
    requires HeldLock(s'.pcs[t]) == NoLock && !NeedBlocked(s, need, Unfinished(s))
    ensures !NeedBlocked(s', need, Unfinished(s'))
  {
    forall h | h in Unfinished(s') && h in s'.pcs
      ensures !Conflict(HeldLock(s'.pcs[h]), need)
    {
      if h != t {
        assert h in Unfinished(s);
      }
    }
  }

  /** One step further, to wait for the same lock or for none. */
  predicate StepsUp(pc: Pc, pc': Pc) {
    && Rank(pc') < Rank(pc) && HeldLock(pc') == NoLock
    && !pc.InCallback? && !pc.ViewWaiting? && !pc.Closing? && !pc'.InCallback? && !pc'.ViewWaiting? && !pc'.Closing?
    && (Demand(pc') == Demand(pc) || Demand(pc') == NoLock)
  }

  lemma RLockStep(s: State, t: Thread)
    requires t in s.pcs && StepRLock(s, t).Some?
    ensures t in StepRLock(s, t).value.pcs && StepsUp(s.pcs[t], StepRLock(s, t).value.pcs[t])
  {
    hide WriterWaits;
  }

  lemma RUnlockStep(s: State, t: Thread)
    requires t in s.pcs && StepRUnlock(s, t).Some?
    ensures t in StepRUnlock(s, t).value.pcs && StepsUp(s.pcs[t], StepRUnlock(s, t).value.pcs[t])
  {
  }

  lemma ReaderStep(s: State, t: Thread, a: Action)
    requires t in s.pcs && (a == RLock(t) || a == RUnlock(t)) && Step(s, a).Some?
    ensures t in Step(s, a).value.pcs && StepsUp(s.pcs[t], Step(s, a).value.pcs[t])
  {
    hide StepRLock, StepRUnlock, StepsUp;
    if a.RLock? {
      RLockStep(s, t);
    } else {
      RUnlockStep(s, t);
    }
  }

  lemma ReaderMovedOn(s: State, t: Thread, a: Action)
    requires Inv(s) && t in Unfinished(s) && !Blocked(s, t, Unfinished(s)) && a == NextMove(s, t)
    requires Step(s, a).Some? && (a.RLock? || a.RUnlock?)
    ensures MovedOn(s, t, Step(s, a).value)
  {
    hide Inv, NeedBlocked, Step, NextMove, Demand;
    var s' := Step(s, a).value;
    StepMovesOne(s, a);
    ReaderStep(s, t, a);
    NeedStaysFree(s, t, s', Demand(s.pcs[t]));
    NoNeed(s', Unfinished(s'));
  }

  lemma NoNeed(s: State, held: set<Thread>)
    ensures !NeedBlocked(s, NoLock, held)
  {
  }

  lemma OtherMovedOn(s: State, t: Thread, a: Action)
    requires Inv(s) && t in Unfinished(s) && !Blocked(s, t, Unfinished(s)) && a == NextMove(s, t)
    requires Step(s, a).Some? && !(a.RLock? || a.RUnlock? || a.TakeLock?)
    ensures MovedOn(s, t, Step(s, a).value)
  {
    hide Inv, NeedBlocked, StepBegin, StepRLock, StepTakeLock, StepRUnlock, StepFail;
    var s' := Step(s, a).value;
    StepMovesOne(s, a);
    NoNeed(s', Unfinished(s'));
    if a.ViewEnter? {
      ViewCanEnter(s, t);
      if s.views[s.pcs[t].owner].active {
        NeedStaysFree(s, t, s', s.pcs[t].need);
      }
    }
    if a.Resume? {
      CallbackCanEnd(s, t);
    }
  }

  lemma FreeMovesOn(s: State, t: Thread)
    requires Inv(s) && t in Unfinished(s) && !Blocked(s, t, Unfinished(s)) && !(s.pcs[t].Drained? && s.writer.Some?)
    ensures Step(s, NextMove(s, t)).Some? && MovedOn(s, t, Step(s, NextMove(s, t)).value)
  {
    hide Blocked, MovedOn, Inv;
    FreeCanMove(s, t);
    var a := NextMove(s, t);
    if a.TakeLock? {
      FreshlyLocked(s, t);
    } else if a.RLock? || a.RUnlock? {
      ReaderMovedOn(s, t, a);
    } else {
      OtherMovedOn(s, t, a);
    }
  }

  // ----- Counting down -----

  function Total(keys: seq<Thread>, pcs: map<Thread, Pc>): nat
    requires forall k :: k in keys ==> k in pcs
  {
    if keys == [] then 0 else Total(keys[..|keys| - 1], pcs) + Rank(pcs[keys[|keys| - 1]])
  }

  lemma {:induction false} TotalFalls(keys: seq<Thread>, pcs: map<Thread, Pc>, t: Thread, pc: Pc)
    requires (forall k :: k in keys ==> k in pcs) && t in pcs && Rank(pc) < Rank(pcs[t])
    ensures Total(keys, pcs[t := pc]) <= Total(keys, pcs)
    ensures t in keys ==> Total(keys, pcs[t := pc]) < Total(keys, pcs)
    decreases |keys|
  {
    if keys != [] {
      var n := |keys| - 1;
      TotalFalls(keys[..n], pcs, t, pc);
      assert keys[n] in keys;
      assert t in keys ==> t == keys[n] || t in keys[..n];
    }
  }

  lemma {:induction false} Enumerate(keys: set<Thread>) returns (list: seq<Thread>)
    ensures forall k :: k in list <==> k in keys
    decreases keys
  {
    if keys == {} {
      list := [];
    } else {
      var k :| k in keys;
      list := Enumerate(keys - {k});
      list := list + [k];
    }
  }

  // ----- The theorem -----

  /** Moves of calls that have begun, without errors, cancellations or outside locks. */
  ghost predicate OwnMoves(s: State, schedule: seq<Action>)
  {
    forall i :: 0 <= i < |schedule| ==>
      !IsOutside(schedule[i]) && !schedule[i].Fail? && schedule[i].t in s.pcs
  }

  /** If a call is in no stuck set, some unfinished call can move. */
  lemma SomeoneIsFree(s: State, c: Thread) returns (t: Thread)
    requires Inv(s) && c in Unfinished(s) && forall calls: set<Thread> :: c in calls ==> !Stuck(s, calls)
    ensures t in Unfinished(s) && !Blocked(s, t, Unfinished(s)) && !(s.pcs[t].Drained? && s.writer.Some?)
  {
    hide Blocked;
    assert !Stuck(s, Unfinished(s));
    t :| t in Unfinished(s) && !Blocked(s, t, Unfinished(s));
    if s.pcs[t].Drained? && s.writer.Some? {
      t := s.writer.value;
      WriterIsFree(s, t);
    }
  }

  lemma WriterIsFree(s: State, w: Thread)
    requires Inv(s) && s.writer == Some(w)
    ensures w in Unfinished(s) && s.pcs[w].Writing? && !Blocked(s, w, Unfinished(s))
  {
  }

  /** A free move gets nobody stuck. */
  lemma FreeMoveIsHarmless(s: State, t: Thread, calls: set<Thread>)
    requires Inv(s) && t in Unfinished(s) && !Blocked(s, t, Unfinished(s)) && !(s.pcs[t].Drained? && s.writer.Some?)
    requires Step(s, NextMove(s, t)).Some? && Stuck(Step(s, NextMove(s, t)).value, calls)
    ensures Stuck(s, calls)
  {
    hide Step, Inv, Blocked, NextMove;
    var s' := Step(s, NextMove(s, t)).value;
    FreeMovesOn(s, t);
    MoveIsAlone(s, NextMove(s, t));
    StepKeepsInv(s, NextMove(s, t));
    if t in calls {
      StuckKinds(s', calls, t);
      StuckAreUnfinished(s', calls);
      BlockedGrows(s', t, calls, Unfinished(s'));
    }
    forall x | x in calls
      ensures x in s.pcs && Blocked(s, x, calls)
    {
      assert Blocked(s', x, calls);
      OthersNoWorse(s, t, s', x, calls);
    }
  }

  lemma StuckAreUnfinished(s: State, calls: set<Thread>)
    requires Stuck(s, calls)
    ensures calls <= Unfinished(s)
  {
    forall x | x in calls
      ensures x in Unfinished(s)
    {
      StuckKinds(s, calls, x);
    }
  }

  lemma BlockedGrows(s: State, t: Thread, calls: set<Thread>, more: set<Thread>)
    requires t in s.pcs && Blocked(s, t, calls) && calls <= more
    ensures Blocked(s, t, more)
  {
  }

  lemma {:induction false} FreeCallReturns(s: State, keys: seq<Thread>, c: Thread) returns (schedule: seq<Action>)
    requires Inv(s) && (forall k :: k in keys <==> k in s.pcs) && c in s.pcs
    requires forall calls: set<Thread> :: c in calls ==> !Stuck(s, calls)
    ensures OwnMoves(s, schedule) && c in Run(s, schedule).pcs && Finished(Run(s, schedule).pcs[c])
    decreases Total(keys, s.pcs)
  {
    hide Step, Inv, Blocked, Stuck, Total;
    if Finished(s.pcs[c]) {
      schedule := [];
    } else {
      var t := SomeoneIsFree(s, c);
      FreeMovesOn(s, t);
      var a := NextMove(s, t);
      var s' := Step(s, a).value;
      StepMovesOne(s, a);
      StepKeepsInv(s, a);
      TotalFalls(keys, s.pcs, t, s'.pcs[t]);
      forall calls: set<Thread> | c in calls
        ensures !Stuck(s', calls)
      {
        if Stuck(s', calls) {
          FreeMoveIsHarmless(s, t, calls);
        }
      }
      var rest := FreeCallReturns(s', keys, c);
      schedule := [a] + rest;
      assert schedule[1..] == rest;
    }
  }

  /** In every reachable state a call can still return, by moves of the calls that have begun, if and only if
      it belongs to no set of calls that all wait for one another or for a lock held outside. */
  lemma CallReturnsIff(before: seq<Action>, c: Thread)
    requires c in Run(Opened, before).pcs
    ensures var s := Run(Opened, before);
            (exists after: seq<Action> :: OwnMoves(s, after) && c in Run(s, after).pcs && Finished(Run(s, after).pcs[c])) <==>
            (forall calls: set<Thread> :: c in calls ==> !Stuck(s, calls))
  {
    hide Step, Inv, Stuck, Run;
    var s := Run(Opened, before);
    OpenedInv();
    RunKeepsInv(Opened, before);
    if forall calls: set<Thread> :: c in calls ==> !Stuck(s, calls) {
      var keys := Enumerate(s.pcs.Keys);
      var after := FreeCallReturns(s, keys, c);
    }
    if after: seq<Action> :| OwnMoves(s, after) && c in Run(s, after).pcs && Finished(Run(s, after).pcs[c]) {
      forall calls: set<Thread> | c in calls
        ensures !Stuck(s, calls)
      {
        if Stuck(s, calls) {
          StuckForever(s, calls, after);
          StuckKinds(Run(s, after), calls, c);
        }
      }
    }
  }

  lemma OpenedInv()
    ensures Inv(Opened)
  {
    assert Holders(Opened) == {};
  }

  /** Once a call is in such a set it never returns, whatever calls begin, until an operation in the set fails
      or is cancelled, or a lock held outside is released. */
  lemma HeldUpForever(before: seq<Action>, after: seq<Action>, calls: set<Thread>, c: Thread)
    requires c in calls && Stuck(Run(Opened, before), calls)
    requires forall i :: 0 <= i < |after| ==> !after[i].OutsideUnlock? && !(after[i].Fail? && after[i].t in calls)
    ensures var s := Run(Run(Opened, before), after);
            Stuck(s, calls) && c in s.pcs && !Finished(s.pcs[c])
  {
    hide Step, Inv, Stuck, Run;
    OpenedInv();
    RunKeepsInv(Opened, before);
    StuckForever(Run(Opened, before), calls, after);
    StuckKinds(Run(Run(Opened, before), after), calls, c);
  }

  // ----- What callers have to avoid -----

  /** Callbacks that wait for nothing, and views used without file locks, with no lock held outside: then
      nothing is ever stuck, and every Close can finish. */
  lemma QuietCallbacksReturn(s: State, calls: set<Thread>)
    requires Inv(s) && s.outside == map[]
    requires forall t :: t in s.pcs && s.pcs[t].InCallback? ==> s.pcs[t].awaits == None
    requires forall t :: t in s.pcs && (UsesView(s.pcs[t]) || s.pcs[t].ViewWaiting?) ==> s.pcs[t].need == NoLock
    requires Stuck(s, calls)
    ensures calls == {}
  {
    NoNeed(s, calls);
    forall t | t in calls
      ensures !UsesView(s.pcs[t])
    {
      assert Blocked(s, t, calls);
    }
    forall t | t in calls
      ensures !s.pcs[t].InCallback?
    {
      assert Blocked(s, t, calls);
      if t in s.views {
        ViewFacts(s, t);
      }
    }
    forall t | t in calls
      ensures HeldLock(s.pcs[t]) == NoLock
    {
      StuckKinds(s, calls, t);
    }
    NoLocksNoNeeds(s, calls);
    forall t | t in calls
      ensures s.pcs[t].Closing?
    {
      hide NeedBlocked;
      assert Blocked(s, t, calls);
      if s.pcs[t].ViewWaiting? && s.pcs[t].owner in s.views {
        ViewFacts(s, s.pcs[t].owner);
      }
    }
    ClosesAloneAreFree(s, calls);
  }

  lemma ViewFacts(s: State, o: Thread)
    requires Inv(s) && o in s.views
    ensures s.views[o].active ==> InCallbackAt(s, o)
    ensures s.views[o].holder.Some? ==> s.views[o].holder.value in s.pcs && UsesView(s.pcs[s.views[o].holder.value])
  {
    assert OwnerOk(s, o);
  }

  lemma NoLocksNoNeeds(s: State, calls: set<Thread>)
    requires s.outside == map[] && forall t :: t in calls && t in s.pcs ==> HeldLock(s.pcs[t]) == NoLock
    ensures forall need :: !NeedBlocked(s, need, calls)
  {
  }

  lemma ClosesAloneAreFree(s: State, calls: set<Thread>)
    requires forall t :: t in calls ==> t in s.pcs && s.pcs[t].Closing?
    ensures forall t :: t in calls ==> !Blocked(s, t, calls)
  {
  }

  /** WithExclusiveLock up to its callback. */
  function LockSchedule(t: Thread, path: Path): seq<Action> {
    [Begin(t, WithLock(path)), RLock(t), RUnlock(t), TakeLock(t)]
  }

  function InLock(path: Path): State {
    Opened.(operations := 1, pcs := map[0 := InCallback(path, None)], views := map[0 := View(true, None)])
  }

  lemma LockScheduleRuns(path: Path, rest: seq<Action>)
    ensures Run(Opened, LockSchedule(0, path) + rest) == Run(InLock(path), rest)
  {
    var s1 := Opened.(operations := 1, pcs := Opened.pcs[0 := Leased(WithLock(path))]);
    var s2 := s1.(readers := s1.readers + {0}, pcs := s1.pcs[0 := Reading(WithLock(path))]);
    var s3 := s2.(readers := s2.readers - {0}, pcs := s2.pcs[0 := AwaitingFlock(path)]);
    var s4 := s3.(views := s3.views[0 := View(true, None)], pcs := s3.pcs[0 := InCallback(path, None)]);
    assert s3.readers == {} && s4.pcs == map[0 := InCallback(path, None)] && s4.views == map[0 := View(true, None)];
    assert Step(Opened, Begin(0, WithLock(path))) == Some(s1);
    assert Step(s1, RLock(0)) == Some(s2);
    assert Step(s2, RUnlock(0)) == Some(s3);
    assert Step(s3, TakeLock(0)) == Some(s4);
    assert s4 == InLock(path);
    var all := LockSchedule(0, path) + rest;
    hide Step;
    RunStep(Opened, all, s1);
    RunStep(s1, all[1..], s2);
    RunStep(s2, all[1..][1..], s3);
    RunStep(s3, all[1..][1..][1..], InLock(path));
    assert all[1..][1..][1..][1..] == rest;
  }

  lemma RunStep(s: State, schedule: seq<Action>, s': State)
    requires schedule != [] && Step(s, schedule[0]) == Some(s')
    ensures Run(s, schedule) == Run(s', schedule[1..])
  {
  }

  lemma RunNothing(s: State)
    ensures Run(s, []) == s
  {
  }

  /** A callback that calls Close on its own capability waits for a lease that is its own. */
  lemma CloseInsideCallback(path: Path)
    ensures var s := Run(Opened, LockSchedule(0, path) + [CloseBegin(1), Await(0, 1)]);
            1 in s.pcs && s.pcs[1].Closing? && Stuck(s, {0, 1})
  {
    var rest := [CloseBegin(1), Await(0, 1)];
    var s1 := InLock(path).(closing := true, pcs := InLock(path).pcs[1 := Closing]);
    var s2 := s1.(pcs := s1.pcs[0 := InCallback(path, Some(1))]);
    LockScheduleRuns(path, rest);
    assert Step(InLock(path), rest[0]) == Some(s1);
    assert Step(s1, rest[1]) == Some(s2);
    hide Step, Run;
    RunStep(InLock(path), rest, s1);
    RunStep(s1, rest[1..], s2);
    assert rest[1..][1..] == [];
    RunNothing(s2);
    CloseIsStuck(s2, path);
  }

  lemma CloseIsStuck(s: State, path: Path)
    requires s.pcs == map[0 := InCallback(path, Some(1)), 1 := Closing]
    ensures Stuck(s, {0, 1})
  {
    assert LeaseAt(s, 0);
  }

  /** A callback that appends, through its view, to the file it has locked waits for its own file lock; every
      Close waits with it. */
  lemma AppendToLockedFile(path: Path)
    ensures var s := Run(Opened, LockSchedule(0, path) + [ViewCall(1, 0, FileLock(path, true)), Await(0, 1), CloseBegin(2)]);
            2 in s.pcs && s.pcs[2].Closing? && Stuck(s, {0, 1, 2})
  {
    var need := FileLock(path, true);
    var rest := [ViewCall(1, 0, need), Await(0, 1), CloseBegin(2)];
    var s1 := InLock(path).(pcs := InLock(path).pcs[1 := ViewWaiting(0, need)]);
    var s2 := s1.(pcs := s1.pcs[0 := InCallback(path, Some(1))]);
    var s3 := s2.(closing := true, pcs := s2.pcs[2 := Closing]);
    LockScheduleRuns(path, rest);
    CallThroughView(path, s1, s2);
    assert Step(s2, rest[2]) == Some(s3);
    hide Step, Run;
    RunStep(InLock(path), rest, s1);
    RunStep(s1, rest[1..], s2);
    RunStep(s2, rest[1..][1..], s3);
    assert rest[1..][1..][1..] == [];
    RunNothing(s3);
    AppendIsStuck(s3, path);
  }

  lemma CallThroughView(path: Path, s1: State, s2: State)
    requires s1 == InLock(path).(pcs := InLock(path).pcs[1 := ViewWaiting(0, FileLock(path, true))])
    requires s2 == s1.(pcs := s1.pcs[0 := InCallback(path, Some(1))])
    ensures Step(InLock(path), ViewCall(1, 0, FileLock(path, true))) == Some(s1) && Step(s1, Await(0, 1)) == Some(s2)
  {
  }

  lemma AppendIsStuck(s: State, path: Path)
    requires s.pcs == map[0 := InCallback(path, Some(1)), 1 := ViewWaiting(0, FileLock(path, true)), 2 := Closing]
    requires s.views == map[0 := View(true, None)]
    ensures Stuck(s, {0, 1, 2})
  {
    assert LeaseAt(s, 0);
    assert Conflict(HeldLock(s.pcs[0]), FileLock(path, true));
  }
}
