/** The lease lifecycle of RootedFiles (rooted_files.go). Every section guarded by a mutex is one
    atomic action; operations, lock callbacks, callback-scoped views and any number of Close calls run
    in arbitrary interleaving, take advisory file locks, and a callback may wait for any other call. */
module Leases {
  import opened Common

  /** A call of the API; nested calls of one goroutine are calls of their own. */
  type Thread = nat

  type Path = string

  /** The advisory file lock an operation takes while it uses the root. */
  datatype Need = NoLock | FileLock(path: Path, exclusive: bool)

  datatype Call = Ordinary(need: Need) | WithLock(path: Path)

  datatype Pc =
    | Refused
    | Leased(call: Call)      // beginOperation granted a lease; about to take mu for reading
    | Reading(call: Call)     // holds mu for reading and uses the root; the file lock is not taken yet
    | Locked(need: Need)      // holds mu for reading and the file lock
    | AwaitingFlock(path: Path)  // WithExclusiveLock: lock file opened, mu released, waiting for the file lock
    | InCallback(path: Path, awaits: Option<Thread>) // the callback runs, its view is active; it may wait for a call
    | Released                // about to call endOperation
    | ViewWaiting(owner: Thread, need: Need) // a view call that waits for the view's mutex
    | ViewHeld(owner: Thread, need: Need)    // holds the view's mutex and saw the view active
    | ViewReading(owner: Thread, need: Need) // also holds mu for reading and uses the root
    | ViewLocked(owner: Thread, need: Need)  // also holds its file lock
    | Closing                 // Close: closing is set, waiting for the leases to drain
    | Drained                 // Close: closed is set, waiting for mu (blocks new readers of mu)
    | Writing                 // Close: holds mu for writing
    | Done

  /** lockedFiles: the callback-scoped view handed out by one WithExclusiveLock call. */
  datatype View = View(active: bool, holder: Option<Thread>)

  /** outside: files locked through other descriptors, by other processes say, and whether exclusively. */
  datatype State = State(
    closing: bool,
    closed: bool,
    operations: int,
    rootOpen: bool,
    rootCloses: nat,
    readers: set<Thread>,
    writer: Option<Thread>,
    pcs: map<Thread, Pc>,
    views: map<Thread, View>,
    outside: map<Path, bool>)

  const Opened := State(false, false, 0, true, 0, {}, None, map[], map[], map[])

  datatype Action =
    | Begin(t: Thread, call: Call)
    | RLock(t: Thread)
    | TakeLock(t: Thread)
    | RUnlock(t: Thread)
    | Fail(t: Thread)                   // an operation fails, or its wait for the lock is cancelled, before it has the file lock
    | Await(t: Thread, callee: Thread)  // the callback starts to wait for a call
    | Resume(t: Thread)
    | EndCallback(t: Thread)
    | EndOperation(t: Thread)
    | ViewCall(t: Thread, owner: Thread, need: Need)
    | ViewEnter(t: Thread)
    | CloseBegin(t: Thread)
    | CloseDrain(t: Thread)
    | CloseLock(t: Thread)
    | CloseRoot(t: Thread)
    | OutsideLock(path: Path, exclusive: bool)
    | OutsideUnlock(path: Path)

  predicate IsOutside(a: Action) {
    a.OutsideLock? || a.OutsideUnlock?
  }

  predicate At(s: State, t: Thread, pc: Pc) {
    t in s.pcs && s.pcs[t] == pc
  }

  predicate InCallbackAt(s: State, t: Thread) {
    t in s.pcs && s.pcs[t].InCallback?
  }

  predicate Finished(pc: Pc) {
    pc == Refused || pc == Done
  }

  /** A pending or active writer of mu; sync.RWMutex then admits no further readers. */
  predicate WriterWaits(s: State) {
    s.writer.Some? || exists t <- s.pcs.Keys :: s.pcs[t] == Drained
  }

  // ----- File locks -----

  function HeldLock(pc: Pc): Need {
    match pc
    case Locked(need) => need
    case InCallback(path, _) => FileLock(path, true)
    case ViewLocked(_, need) => need
    case _ => NoLock
  }

  predicate Conflict(held: Need, need: Need) {
    held.FileLock? && need.FileLock? && held.path == need.path && (held.exclusive || need.exclusive)
  }

  predicate LockedOutside(s: State, need: Need) {
    need.FileLock? && need.path in s.outside && (s.outside[need.path] || need.exclusive)
  }

  /** flock(2) would grant the lock now; every descriptor counts, the caller's own included. */
  predicate Grantable(s: State, need: Need) {
    !LockedOutside(s, need) && forall u <- s.pcs.Keys :: !Conflict(HeldLock(s.pcs[u]), need)
  }

  /** beginOperation. */
  function StepBegin(s: State, t: Thread, call: Call): Option<State> {
    if t in s.pcs then None
    else if s.closed || s.closing then Some(s.(pcs := s.pcs[t := Refused]))
    else Some(s.(operations := s.operations + 1, pcs := s.pcs[t := Leased(call)]))
  }

  function StepRLock(s: State, t: Thread): Option<State> {
    if t !in s.pcs || WriterWaits(s) then None
    else if s.pcs[t].Leased? then
      Some(s.(readers := s.readers + {t}, pcs := s.pcs[t := Reading(s.pcs[t].call)]))
    else if s.pcs[t].ViewHeld? then
      Some(s.(readers := s.readers + {t}, pcs := s.pcs[t := ViewReading(s.pcs[t].owner, s.pcs[t].need)]))
    else None
  }

  /** The file lock that a thread asks for next, as it stands. */
  function AskedLock(pc: Pc): Need {
    match pc
    case Reading(call) => if call.Ordinary? then call.need else NoLock
    case AwaitingFlock(path) => FileLock(path, true)
    case ViewReading(_, need) => need
    case _ => NoLock
  }

  function WithFileLock(pc: Pc): Pc {
    match pc
    case Reading(call) => Locked(AskedLock(pc))
    case AwaitingFlock(path) => InCallback(path, None)
    case ViewReading(owner, need) => ViewLocked(owner, need)
    case _ => pc
  }

  function StepTakeLock(s: State, t: Thread): Option<State> {
    if t !in s.pcs || AskedLock(s.pcs[t]) == NoLock || !Grantable(s, AskedLock(s.pcs[t])) then None
    else if s.pcs[t].AwaitingFlock? then
      Some(s.(views := s.views[t := View(true, None)], pcs := s.pcs[t := WithFileLock(s.pcs[t])]))
    else Some(s.(pcs := s.pcs[t := WithFileLock(s.pcs[t])]))
  }

  /** The end of an operation's use of the root; None while a file lock is still to be taken. */
  function StepRUnlock(s: State, t: Thread): Option<State> {
    if t !in s.pcs then None
    else
      var pc := s.pcs[t];
      if pc.ViewLocked? || (pc.ViewReading? && pc.need == NoLock) then LeaveView(s, t, pc.owner)
      else if pc.Locked? || pc == Reading(Ordinary(NoLock)) then
        Some(s.(readers := s.readers - {t}, pcs := s.pcs[t := Released]))
      else if pc.Reading? && pc.call.WithLock? then
        Some(s.(readers := s.readers - {t}, pcs := s.pcs[t := AwaitingFlock(pc.call.path)]))
      else None
  }

  function StepFail(s: State, t: Thread): Option<State> {
    if t !in s.pcs then None
    else if s.pcs[t].ViewReading? then LeaveView(s, t, s.pcs[t].owner)
    else if s.pcs[t].Reading? then Some(s.(readers := s.readers - {t}, pcs := s.pcs[t := Released]))
    else if s.pcs[t].AwaitingFlock? then Some(s.(pcs := s.pcs[t := Released]))
    else None
  }

  function StepAwait(s: State, t: Thread, callee: Thread): Option<State> {
    if InCallbackAt(s, t) && s.pcs[t].awaits == None && callee in s.pcs
    then Some(s.(pcs := s.pcs[t := s.pcs[t].(awaits := Some(callee))])) else None
  }

  function StepResume(s: State, t: Thread): Option<State> {
    if InCallbackAt(s, t) && s.pcs[t].awaits.Some? && s.pcs[t].awaits.value in s.pcs && Finished(s.pcs[s.pcs[t].awaits.value])
    then Some(s.(pcs := s.pcs[t := s.pcs[t].(awaits := None)])) else None
  }

  /** The callback returns: the view is invalidated, under its mutex, and the file lock is given up. */
  function StepEndCallback(s: State, t: Thread): Option<State> {
    if InCallbackAt(s, t) && s.pcs[t].awaits == None && t in s.views && s.views[t].holder == None
    then Some(s.(views := s.views[t := View(false, None)], pcs := s.pcs[t := Released])) else None
  }

  function StepViewEnter(s: State, t: Thread): Option<State> {
    if t !in s.pcs || !s.pcs[t].ViewWaiting? || s.pcs[t].owner !in s.views || s.views[s.pcs[t].owner].holder.Some? then None
    else
      var owner := s.pcs[t].owner;
      if !s.views[owner].active then Some(s.(pcs := s.pcs[t := Refused]))
      else Some(s.(views := s.views[owner := s.views[owner].(holder := Some(t))],
                   pcs := s.pcs[t := ViewHeld(owner, s.pcs[t].need)]))
  }

  /** The steps of Close after it has begun. */
  function StepClose(s: State, a: Action): Option<State> {
    match a
    case CloseDrain(t) =>
      if At(s, t, Closing) && s.operations <= 0 then Some(s.(closed := true, pcs := s.pcs[t := Drained])) else None
    case CloseLock(t) =>
      if At(s, t, Drained) && s.readers == {} && s.writer == None
      then Some(s.(writer := Some(t), pcs := s.pcs[t := Writing])) else None
    case CloseRoot(t) =>
      if !At(s, t, Writing) then None
      else if !s.rootOpen then Some(s.(writer := None, pcs := s.pcs[t := Done]))
      else Some(s.(writer := None, rootOpen := false, rootCloses := s.rootCloses + 1, pcs := s.pcs[t := Done]))
    case _ => None
  }

  /** One atomic action; None when its guard does not hold (the thread blocks, or is elsewhere). */
  function Step(s: State, a: Action): Option<State> {
    match a
    case Begin(t, call) => StepBegin(s, t, call)
    case RLock(t) => StepRLock(s, t)
    case TakeLock(t) => StepTakeLock(s, t)
    case RUnlock(t) => StepRUnlock(s, t)
    case Fail(t) => StepFail(s, t)
    case Await(t, callee) => StepAwait(s, t, callee)
    case Resume(t) => StepResume(s, t)
    case EndCallback(t) => StepEndCallback(s, t)
    case EndOperation(t) =>
      if At(s, t, Released) then Some(s.(operations := s.operations - 1, pcs := s.pcs[t := Done])) else None
    case ViewCall(t, owner, need) =>
      if t in s.pcs || owner !in s.views then None else Some(s.(pcs := s.pcs[t := ViewWaiting(owner, need)]))
    case ViewEnter(t) => StepViewEnter(s, t)
    case CloseBegin(t) => if t in s.pcs then None else Some(s.(closing := true, pcs := s.pcs[t := Closing]))
    case CloseDrain(_) => StepClose(s, a)
    case CloseLock(_) => StepClose(s, a)
    case CloseRoot(_) => StepClose(s, a)
    case OutsideLock(path, exclusive) =>
      if Grantable(s, FileLock(path, exclusive)) then Some(s.(outside := s.outside[path := exclusive])) else None
    case OutsideUnlock(path) => Some(s.(outside := s.outside - {path}))
  }

  /** The deferred unlocks of a view call. */
  function LeaveView(s: State, t: Thread, owner: Thread): Option<State> {
    if owner !in s.views then None
    else Some(s.(readers := s.readers - {t},
                 views := s.views[owner := s.views[owner].(holder := None)],
                 pcs := s.pcs[t := Done]))
  }

  predicate HoldsLease(pc: Pc) {
    pc.Leased? || pc.Reading? || pc.Locked? || pc.AwaitingFlock? || pc.InCallback? || pc.Released?
  }

  predicate UsesRoot(pc: Pc) {
    pc.Reading? || pc.Locked? || pc.ViewReading? || pc.ViewLocked?
  }

  /** Inside a view: holding its mutex. */
  predicate UsesView(pc: Pc) {
    pc.ViewHeld? || pc.ViewReading? || pc.ViewLocked?
  }

  /** The threads whose lease beginOperation granted and endOperation has not returned. */
  function Holders(s: State): set<Thread> {
    set t | t in s.pcs && HoldsLease(s.pcs[t])
  }

  // ----- The invariant -----

  /** A view is active only inside its callback, and its mutex is held only by a call through it. */
  ghost predicate OwnerOk(s: State, o: Thread)
    requires o in s.views
  {
    var v := s.views[o];
    && (v.active ==> InCallbackAt(s, o))
    && (v.holder.Some? ==>
          v.active && v.holder.value in s.pcs && UsesView(s.pcs[v.holder.value]) && s.pcs[v.holder.value].owner == o)
  }

  ghost predicate UserOk(s: State, t: Thread)
    requires t in s.pcs
  {
    var pc := s.pcs[t];
    && (UsesView(pc) ==> pc.owner in s.views && s.views[pc.owner].holder == Some(t))
    && (pc.ViewWaiting? ==> pc.owner in s.views)
    && (pc.InCallback? ==> t in s.views && s.views[t].active && (pc.awaits.Some? ==> pc.awaits.value in s.pcs))
  }

  ghost predicate ViewsOk(s: State)
  {
    && (forall o :: o in s.views ==> OwnerOk(s, o))
    && (forall t :: t in s.pcs ==> UserOk(s, t))
  }

  ghost predicate LocksOk(s: State)
  {
    && (forall t :: t in s.readers <==> t in s.pcs && UsesRoot(s.pcs[t]))
    && (forall t :: s.writer == Some(t) <==> t in s.pcs && s.pcs[t].Writing?)
  }

  ghost predicate CloseOk(s: State)
  {
    && (s.closed ==> s.closing && s.operations == 0)
    && (!s.rootOpen ==> s.closed)
    && s.rootCloses == (if s.rootOpen then 0 else 1)
    && (forall t :: t in s.pcs && (s.pcs[t].Drained? || s.pcs[t].Writing?) ==> s.closed)
    && (forall t :: t in s.pcs && s.pcs[t].Closing? ==> s.closing)
  }

  ghost predicate Inv(s: State)
  {
    s.operations == |Holders(s)| && CloseOk(s) && LocksOk(s) && ViewsOk(s)
  }

  predicate LeaseAt(s: State, t: Thread) {
    t in s.pcs && HoldsLease(s.pcs[t])
  }

  /** Every action moves one thread; the operation count follows whether that thread holds a lease, and
      once closing is set no thread gains one. */
  ghost predicate MovesOne(s: State, t: Thread, s': State)
  {
    && t in s'.pcs && s'.pcs == s.pcs[t := s'.pcs[t]]
    && s'.operations == s.operations + (if LeaseAt(s', t) then 1 else 0) - (if LeaseAt(s, t) then 1 else 0)
    && (s.closing ==> s'.closing && (LeaseAt(s', t) ==> LeaseAt(s, t)))
    && s'.outside == s.outside
  }

  predicate TakesOrStarts(a: Action) {
    a.Begin? || a.RLock? || a.TakeLock?
  }

  predicate Gives(a: Action) {
    a.RUnlock? || a.Fail?
  }

  lemma StartingMovesOne(s: State, t: Thread, call: Call)
    ensures StepBegin(s, t, call).Some? ==> MovesOne(s, t, StepBegin(s, t, call).value)
    ensures StepRLock(s, t).Some? ==> MovesOne(s, t, StepRLock(s, t).value)
  {
    hide WriterWaits;
  }

  lemma LockingMovesOne(s: State, t: Thread)
    ensures StepTakeLock(s, t).Some? ==> MovesOne(s, t, StepTakeLock(s, t).value)
  {
    hide Grantable;
  }

  lemma TakingMovesOne(s: State, a: Action)
    requires Step(s, a).Some? && TakesOrStarts(a)
    ensures MovesOne(s, a.t, Step(s, a).value)
  {
    hide MovesOne, StepBegin, StepRLock, StepTakeLock;
    StartingMovesOne(s, a.t, if a.Begin? then a.call else Ordinary(NoLock));
    LockingMovesOne(s, a.t);
  }

  lemma LeavingMovesOne(s: State, t: Thread, owner: Thread)
    requires !LeaseAt(s, t) && LeaveView(s, t, owner).Some?
    ensures MovesOne(s, t, LeaveView(s, t, owner).value)
  {
  }

  lemma RUnlockMovesOne(s: State, t: Thread)
    requires StepRUnlock(s, t).Some?
    ensures MovesOne(s, t, StepRUnlock(s, t).value)
  {
    hide LeaveView;
    if UsesView(s.pcs[t]) {
      LeavingMovesOne(s, t, s.pcs[t].owner);
    }
  }

  lemma FailMovesOne(s: State, t: Thread)
    requires StepFail(s, t).Some?
    ensures MovesOne(s, t, StepFail(s, t).value)
  {
    hide LeaveView;
    if UsesView(s.pcs[t]) {
      LeavingMovesOne(s, t, s.pcs[t].owner);
    }
  }

  lemma GivingMovesOne(s: State, a: Action)
    requires Step(s, a).Some? && Gives(a)
    ensures MovesOne(s, a.t, Step(s, a).value)
  {
    hide MovesOne, StepRUnlock, StepFail;
    if a.RUnlock? {
      RUnlockMovesOne(s, a.t);
    } else {
      FailMovesOne(s, a.t);
    }
  }

  lemma CallbackMovesOne(s: State, t: Thread, callee: Thread)
    ensures StepAwait(s, t, callee).Some? ==> MovesOne(s, t, StepAwait(s, t, callee).value)
    ensures StepResume(s, t).Some? ==> MovesOne(s, t, StepResume(s, t).value)
  {
  }

  lemma ViewMovesOne(s: State, t: Thread)
    ensures StepEndCallback(s, t).Some? ==> MovesOne(s, t, StepEndCallback(s, t).value)
    ensures StepViewEnter(s, t).Some? ==> MovesOne(s, t, StepViewEnter(s, t).value)
  {
  }

  lemma StepMovesOne(s: State, a: Action)
    requires Step(s, a).Some? && !IsOutside(a)
    ensures MovesOne(s, a.t, Step(s, a).value)
  {
    hide StepBegin, StepRLock, StepTakeLock, StepRUnlock, StepFail, StepAwait, StepResume, StepEndCallback, StepViewEnter;
    if TakesOrStarts(a) {
      hide MovesOne;
      TakingMovesOne(s, a);
    } else if Gives(a) {
      hide MovesOne;
      GivingMovesOne(s, a);
    } else if a.Await? || a.Resume? || a.EndCallback? || a.ViewEnter? {
      hide MovesOne;
      CallbackMovesOne(s, a.t, if a.Await? then a.callee else a.t);
      ViewMovesOne(s, a.t);
    }
  }

  /** Locks taken outside change nothing else. */
  lemma OutsideStep(s: State, a: Action)
    requires Step(s, a).Some? && IsOutside(a)
    ensures Step(s, a).value == s.(outside := Step(s, a).value.outside)
  {
  }

  lemma StepKeepsCount(s: State, a: Action)
    requires s.operations == |Holders(s)| && Step(s, a).Some?
    ensures Step(s, a).value.operations == |Holders(Step(s, a).value)|
    ensures s.closing ==> Step(s, a).value.closing && Holders(Step(s, a).value) <= Holders(s)
  {
    hide Step;
    if IsOutside(a) {
      OutsideStep(s, a);
      assert Holders(Step(s, a).value) == Holders(s);
    } else {
      StepMovesOne(s, a);
      CountAfterMove(s, Step(s, a).value, a.t);
    }
  }

  lemma CountAfterMove(s: State, s': State, t: Thread)
    requires t in s'.pcs && s'.pcs == s.pcs[t := s'.pcs[t]]
    ensures Holders(s') == (if LeaseAt(s', t) then Holders(s) + {t} else Holders(s) - {t})
    ensures |Holders(s')| == |Holders(s)| + (if LeaseAt(s', t) then 1 else 0) - (if LeaseAt(s, t) then 1 else 0)
  {
    assert t in Holders(s) <==> LeaseAt(s, t);
    if LeaseAt(s, t) {
      assert Holders(s) == (Holders(s) - {t}) + {t};
    } else {
      assert Holders(s) - {t} == Holders(s);
    }
  }

  // ----- Views -----

  lemma TakeLockKeepsOwners(s: State, t: Thread)
    requires ViewsOk(s) && StepTakeLock(s, t).Some?
    ensures var s' := StepTakeLock(s, t).value;
            forall o :: o in s'.views ==> OwnerOk(s', o)
  {
    hide Grantable, UserOk;
    var s' := StepTakeLock(s, t).value;
    forall o | o in s'.views
      ensures OwnerOk(s', o)
    {
      assert o in s.views ==> OwnerOk(s, o);
    }
  }

  lemma TakeLockKeepsUsers(s: State, t: Thread)
    requires ViewsOk(s) && StepTakeLock(s, t).Some?
    ensures var s' := StepTakeLock(s, t).value;
            forall u :: u in s'.pcs ==> UserOk(s', u)
  {
    hide Grantable;
    var s' := StepTakeLock(s, t).value;
    forall u | u in s'.pcs
      ensures UserOk(s', u)
    {
      assert UserOk(s, u);
      if u != t && UsesView(s.pcs[u]) {
        assert OwnerOk(s, s.pcs[u].owner);
      }
    }
  }

  lemma TakeLockKeepsViews(s: State, t: Thread)
    requires ViewsOk(s) && Step(s, TakeLock(t)).Some?
    ensures ViewsOk(Step(s, TakeLock(t)).value)
  {
    hide OwnerOk, UserOk, StepTakeLock;
    TakeLockKeepsOwners(s, t);
    TakeLockKeepsUsers(s, t);
  }

  lemma CallbackKeepsViews(s: State, a: Action)
    requires ViewsOk(s) && Step(s, a).Some? && (a.Await? || a.Resume? || a.EndCallback?)
    ensures ViewsOk(Step(s, a).value)
  {
    assert UserOk(s, a.t);
    var s' := Step(s, a).value;
    forall o | o in s'.views
      ensures OwnerOk(s', o)
    {
      assert OwnerOk(s, o);
    }
  }

  lemma ViewEnterKeepsOwners(s: State, t: Thread)
    requires ViewsOk(s) && StepViewEnter(s, t).Some?
    ensures var s' := StepViewEnter(s, t).value;
            forall o :: o in s'.views ==> OwnerOk(s', o)
  {
    hide UserOk;
    var s' := StepViewEnter(s, t).value;
    forall o | o in s'.views
      ensures OwnerOk(s', o)
    {
      assert OwnerOk(s, o);
    }
  }

  lemma ViewEnterKeepsUsers(s: State, t: Thread)
    requires ViewsOk(s) && StepViewEnter(s, t).Some?
    ensures var s' := StepViewEnter(s, t).value;
            forall u :: u in s'.pcs ==> UserOk(s', u)
  {
    hide OwnerOk;
    var s' := StepViewEnter(s, t).value;
    forall u | u in s'.pcs
      ensures UserOk(s', u)
    {
      assert u != t ==> UserOk(s, u);
    }
  }

  lemma ViewEnterKeepsViews(s: State, t: Thread)
    requires ViewsOk(s) && Step(s, ViewEnter(t)).Some?
    ensures ViewsOk(Step(s, ViewEnter(t)).value)
  {
    hide OwnerOk, UserOk, StepViewEnter;
    ViewEnterKeepsOwners(s, t);
    ViewEnterKeepsUsers(s, t);
  }

  lemma LeaveKeepsViews(s: State, t: Thread, owner: Thread)
    requires ViewsOk(s) && t in s.pcs && UsesView(s.pcs[t]) && s.pcs[t].owner == owner && LeaveView(s, t, owner).Some?
    ensures ViewsOk(LeaveView(s, t, owner).value)
  {
    assert UserOk(s, t) && OwnerOk(s, owner);
    var s' := LeaveView(s, t, owner).value;
    forall o | o in s'.views
      ensures OwnerOk(s', o)
    {
      assert OwnerOk(s, o);
    }
    forall u | u in s'.pcs
      ensures UserOk(s', u)
    {
      if u != t {
        assert UserOk(s, u);
      }
    }
  }

  /** Actions of a thread that is in no callback and no view, before or after; or that goes on inside its view. */
  lemma OtherStepShape(s: State, a: Action)
    requires ViewsOk(s) && Step(s, a).Some? && !IsOutside(a)
    requires !a.TakeLock? && !a.Await? && !a.Resume? && !a.EndCallback? && !a.ViewEnter?
    requires !(Gives(a) && a.t in s.pcs && UsesView(s.pcs[a.t]))
    ensures var s' := Step(s, a).value;
            && s'.views == s.views
            && a.t in s'.pcs && s'.pcs == s.pcs[a.t := s'.pcs[a.t]]
            && QuietMove(s, a.t, s'.pcs[a.t])
  {
    hide ViewsOk, WriterWaits, StepTakeLock, StepAwait, StepResume, StepEndCallback, StepViewEnter, LeaveView;
    hide StepBegin, StepRLock, StepRUnlock, StepFail, StepClose;
    if a.Begin? || a.RLock? {
      StartShape(s, a);
    } else if Gives(a) {
      GiveShape(s, a);
    } else if a.CloseDrain? || a.CloseLock? || a.CloseRoot? {
      CloseShape(s, a);
    }
  }

  lemma StartShape(s: State, a: Action)
    requires Step(s, a).Some? && (a.Begin? || a.RLock?)
    ensures var s' := Step(s, a).value;
            s'.views == s.views && a.t in s'.pcs && s'.pcs == s.pcs[a.t := s'.pcs[a.t]] && QuietMove(s, a.t, s'.pcs[a.t])
  {
    hide WriterWaits, StepTakeLock, StepRUnlock, StepFail, StepAwait, StepResume, StepEndCallback, StepViewEnter, StepClose;
  }

  lemma GiveShape(s: State, a: Action)
    requires Step(s, a).Some? && Gives(a) && (a.t in s.pcs ==> !UsesView(s.pcs[a.t]))
    ensures var s' := Step(s, a).value;
            s'.views == s.views && a.t in s'.pcs && s'.pcs == s.pcs[a.t := s'.pcs[a.t]] && QuietMove(s, a.t, s'.pcs[a.t])
  {
    hide StepBegin, StepRLock, StepTakeLock, StepAwait, StepResume, StepEndCallback, StepViewEnter, StepClose, LeaveView;
  }

  lemma CloseShape(s: State, a: Action)
    requires Step(s, a).Some? && (a.CloseDrain? || a.CloseLock? || a.CloseRoot?)
    ensures var s' := Step(s, a).value;
            s'.views == s.views && a.t in s'.pcs && s'.pcs == s.pcs[a.t := s'.pcs[a.t]] && QuietMove(s, a.t, s'.pcs[a.t])
  {
    hide StepBegin, StepRLock, StepTakeLock, StepRUnlock, StepFail, StepAwait, StepResume, StepEndCallback, StepViewEnter;
  }

  predicate QuietMove(s: State, t: Thread, pc: Pc) {
    if t in s.pcs && s.pcs[t].ViewHeld? then pc.ViewReading? && pc.owner == s.pcs[t].owner
    else
      && !pc.InCallback? && !UsesView(pc) && (pc.ViewWaiting? ==> pc.owner in s.views)
      && (t in s.pcs ==> !s.pcs[t].InCallback? && !UsesView(s.pcs[t]))
  }

  lemma MoveKeepsViews(s: State, s': State, t: Thread)
    requires ViewsOk(s) && s'.views == s.views
    requires t in s'.pcs && s'.pcs == s.pcs[t := s'.pcs[t]] && QuietMove(s, t, s'.pcs[t])
    ensures ViewsOk(s')
  {
    if t in s.pcs {
      assert UserOk(s, t);
    }
    forall o | o in s'.views
      ensures OwnerOk(s', o)
    {
      assert OwnerOk(s, o);
    }
    forall u | u in s'.pcs
      ensures UserOk(s', u)
    {
      if u in s.pcs {
        assert UserOk(s, u);
      }
    }
  }

  lemma StepKeepsViews(s: State, a: Action)
    requires ViewsOk(s) && Step(s, a).Some? && !IsOutside(a)
    ensures ViewsOk(Step(s, a).value)
  {
    if a.TakeLock? {
      TakeLockKeepsViews(s, a.t);
    } else if a.Await? || a.Resume? || a.EndCallback? {
      CallbackKeepsViews(s, a);
    } else if a.ViewEnter? {
      ViewEnterKeepsViews(s, a.t);
    } else if Gives(a) && a.t in s.pcs && UsesView(s.pcs[a.t]) {
      LeaveKeepsViews(s, a.t, s.pcs[a.t].owner);
    } else {
      OtherStepShape(s, a);
      hide Step;
      MoveKeepsViews(s, Step(s, a).value, a.t);
    }
  }

  // ----- Locks and flags -----

  lemma StepKeepsLocks(s: State, a: Action)
    requires LocksOk(s) && Step(s, a).Some? && !IsOutside(a)
    ensures LocksOk(Step(s, a).value)
  {
    StepLocksShape(s, a);
    var s' := Step(s, a).value;
    hide Step;
    forall t
      ensures s'.writer == Some(t) <==> t in s'.pcs && s'.pcs[t].Writing?
    {
      assert s.writer == Some(t) <==> t in s.pcs && s.pcs[t].Writing?;
    }
  }

  /** mu follows what the moving thread does. */
  ghost predicate LocksFollow(s: State, t: Thread, s': State)
  {
    && t in s'.pcs && s'.pcs == s.pcs[t := s'.pcs[t]]
    && s'.readers == (if UsesRoot(s'.pcs[t]) then s.readers + {t} else s.readers - {t})
    && s'.writer == (if s'.pcs[t].Writing? then Some(t) else if t in s.pcs && s.pcs[t].Writing? then None else s.writer)
    && (s'.pcs[t].Writing? ==> s.writer == None)
  }

  lemma StartingLocks(s: State, t: Thread, call: Call)
    requires LocksOk(s)
    ensures StepBegin(s, t, call).Some? ==> LocksFollow(s, t, StepBegin(s, t, call).value)
    ensures StepRLock(s, t).Some? ==> LocksFollow(s, t, StepRLock(s, t).value)
  {
    hide WriterWaits;
    assert t in s.readers <==> t in s.pcs && UsesRoot(s.pcs[t]);
  }

  lemma TakeLockLocks(s: State, t: Thread)
    requires LocksOk(s)
    ensures StepTakeLock(s, t).Some? ==> LocksFollow(s, t, StepTakeLock(s, t).value)
  {
    hide Grantable;
    assert t in s.readers <==> t in s.pcs && UsesRoot(s.pcs[t]);
  }

  lemma TakingLocks(s: State, a: Action)
    requires LocksOk(s) && Step(s, a).Some? && TakesOrStarts(a)
    ensures LocksFollow(s, a.t, Step(s, a).value)
  {
    hide LocksFollow, LocksOk, StepBegin, StepRLock, StepTakeLock;
    StartingLocks(s, a.t, if a.Begin? then a.call else Ordinary(NoLock));
    TakeLockLocks(s, a.t);
  }

  lemma LeavingLocks(s: State, t: Thread, owner: Thread)
    requires LocksOk(s) && t in s.pcs && UsesView(s.pcs[t]) && LeaveView(s, t, owner).Some?
    ensures LocksFollow(s, t, LeaveView(s, t, owner).value)
  {
  }

  lemma RUnlockLocks(s: State, t: Thread)
    requires LocksOk(s) && StepRUnlock(s, t).Some?
    ensures LocksFollow(s, t, StepRUnlock(s, t).value)
  {
    hide LeaveView;
    if UsesView(s.pcs[t]) {
      LeavingLocks(s, t, s.pcs[t].owner);
    }
  }

  lemma FailLocks(s: State, t: Thread)
    requires LocksOk(s) && StepFail(s, t).Some?
    ensures LocksFollow(s, t, StepFail(s, t).value)
  {
    hide LeaveView;
    if UsesView(s.pcs[t]) {
      LeavingLocks(s, t, s.pcs[t].owner);
    } else if !UsesRoot(s.pcs[t]) {
      assert t !in s.readers;
      assert s.readers - {t} == s.readers;
    }
  }

  lemma GivingLocks(s: State, a: Action)
    requires LocksOk(s) && Step(s, a).Some? && Gives(a)
    ensures LocksFollow(s, a.t, Step(s, a).value)
  {
    hide StepBegin, StepRLock, StepTakeLock, StepAwait, StepResume, StepEndCallback, StepViewEnter, StepClose;
    hide StepRUnlock, StepFail, LocksFollow, LocksOk;
    if a.RUnlock? {
      RUnlockLocks(s, a.t);
    } else {
      FailLocks(s, a.t);
    }
  }

  lemma CloseLocks(s: State, a: Action)
    requires LocksOk(s) && StepClose(s, a).Some? && (a.CloseDrain? || a.CloseLock? || a.CloseRoot?)
    ensures LocksFollow(s, a.t, StepClose(s, a).value)
  {
    assert a.t in s.readers <==> a.t in s.pcs && UsesRoot(s.pcs[a.t]);
  }

  /** Neither the callback's own steps nor the entering of a view touch mu. */
  lemma CallbackLocks(s: State, t: Thread, callee: Thread)
    requires LocksOk(s)
    ensures StepAwait(s, t, callee).Some? ==> LocksFollow(s, t, StepAwait(s, t, callee).value)
    ensures StepResume(s, t).Some? ==> LocksFollow(s, t, StepResume(s, t).value)
    ensures StepEndCallback(s, t).Some? ==> LocksFollow(s, t, StepEndCallback(s, t).value)
  {
    assert t in s.readers <==> t in s.pcs && UsesRoot(s.pcs[t]);
  }

  lemma ViewEnterLocks(s: State, t: Thread)
    requires LocksOk(s)
    ensures StepViewEnter(s, t).Some? ==> LocksFollow(s, t, StepViewEnter(s, t).value)
  {
    assert t in s.readers <==> t in s.pcs && UsesRoot(s.pcs[t]);
  }

  lemma StepLocksShape(s: State, a: Action)
    requires LocksOk(s) && Step(s, a).Some? && !IsOutside(a)
    ensures LocksFollow(s, a.t, Step(s, a).value)
  {
    hide StepBegin, StepRLock, StepTakeLock, StepRUnlock, StepFail, StepAwait, StepResume, StepEndCallback, StepViewEnter;
    hide StepClose;
    if TakesOrStarts(a) {
      hide LocksFollow;
      TakingLocks(s, a);
    } else if Gives(a) {
      hide LocksFollow;
      GivingLocks(s, a);
    } else if a.CloseDrain? || a.CloseLock? || a.CloseRoot? {
      hide LocksFollow;
      CloseLocks(s, a);
    } else if a.Await? || a.Resume? || a.EndCallback? || a.ViewEnter? {
      hide LocksFollow;
      CallbackLocks(s, a.t, if a.Await? then a.callee else a.t);
      ViewEnterLocks(s, a.t);
    } else {
      assert a.t in s.readers <==> a.t in s.pcs && UsesRoot(s.pcs[a.t]);
    }
  }

  /** Only the steps of Close touch the flags and the root. */
  ghost predicate FlagsFollow(s: State, a: Action, s': State)
    requires !IsOutside(a) && a.t in s'.pcs
  {
    && (s'.closing == (s.closing || a.CloseBegin?)) && (s'.closed == (s.closed || a.CloseDrain?))
    && (a.CloseDrain? ==> s.operations <= 0 && At(s, a.t, Closing))
    && (!a.CloseRoot? ==> s'.rootOpen == s.rootOpen && s'.rootCloses == s.rootCloses)
    && (a.CloseRoot? ==> At(s, a.t, Writing) && !s'.rootOpen && s'.rootCloses == s.rootCloses + if s.rootOpen then 1 else 0)
    && (s'.pcs[a.t].Closing? ==> a.CloseBegin?)
    && (s'.pcs[a.t].Drained? ==> a.CloseDrain?)
    && (s'.pcs[a.t].Writing? ==> a.CloseLock? && At(s, a.t, Drained))
  }

  lemma StartingFlags(s: State, t: Thread, call: Call)
    ensures StepBegin(s, t, call).Some? ==>
              var s' := StepBegin(s, t, call).value; t in s'.pcs && FlagsFollow(s, Begin(t, call), s')
    ensures StepRLock(s, t).Some? ==> var s' := StepRLock(s, t).value; t in s'.pcs && FlagsFollow(s, RLock(t), s')
  {
    hide WriterWaits;
  }

  lemma TakeLockFlags(s: State, t: Thread)
    ensures StepTakeLock(s, t).Some? ==> var s' := StepTakeLock(s, t).value; t in s'.pcs && FlagsFollow(s, TakeLock(t), s')
  {
    hide Grantable;
  }

  lemma TakingFlags(s: State, a: Action)
    requires Step(s, a).Some? && TakesOrStarts(a)
    ensures a.t in Step(s, a).value.pcs && FlagsFollow(s, a, Step(s, a).value)
  {
    hide FlagsFollow, StepBegin, StepRLock, StepTakeLock;
    StartingFlags(s, a.t, if a.Begin? then a.call else Ordinary(NoLock));
    TakeLockFlags(s, a.t);
  }

  lemma RUnlockFlags(s: State, t: Thread)
    requires StepRUnlock(s, t).Some?
    ensures var s' := StepRUnlock(s, t).value; t in s'.pcs && FlagsFollow(s, RUnlock(t), s')
  {
  }

  lemma FailFlags(s: State, t: Thread)
    requires StepFail(s, t).Some?
    ensures var s' := StepFail(s, t).value; t in s'.pcs && FlagsFollow(s, Fail(t), s')
  {
  }

  lemma GivingFlags(s: State, a: Action)
    requires Step(s, a).Some? && Gives(a)
    ensures a.t in Step(s, a).value.pcs && FlagsFollow(s, a, Step(s, a).value)
  {
    hide FlagsFollow, StepRUnlock, StepFail;
    if a.RUnlock? {
      RUnlockFlags(s, a.t);
    } else {
      FailFlags(s, a.t);
    }
  }

  lemma StepFlags(s: State, a: Action)
    requires Step(s, a).Some? && !IsOutside(a)
    ensures a.t in Step(s, a).value.pcs && FlagsFollow(s, a, Step(s, a).value)
  {
    hide StepBegin, StepRLock, StepTakeLock, StepRUnlock, StepFail, Grantable, WriterWaits;
    if TakesOrStarts(a) {
      hide FlagsFollow;
      TakingFlags(s, a);
    } else if Gives(a) {
      hide FlagsFollow;
      GivingFlags(s, a);
    }
  }

  lemma StepKeepsClose(s: State, a: Action)
    requires Inv(s) && Step(s, a).Some? && !IsOutside(a)
    ensures CloseOk(Step(s, a).value)
  {
    hide Step, ViewsOk, LocksOk;
    StepFlags(s, a);
    StepMovesOne(s, a);
    StepKeepsCount(s, a);
    var s' := Step(s, a).value;
    assert s.closed ==> Holders(s) == {};
    assert Holders(s') == {} ==> |Holders(s')| == 0;
  }

  lemma StepKeepsInv(s: State, a: Action)
    requires Inv(s) && Step(s, a).Some?
    ensures Inv(Step(s, a).value)
  {
    hide Step, Holders;
    StepKeepsCount(s, a);
    if IsOutside(a) {
      OutsideStep(s, a);
      OutsideKeepsViews(s, Step(s, a).value);
    } else {
      StepKeepsLocks(s, a);
      StepKeepsClose(s, a);
      StepKeepsViews(s, a);
    }
  }

  lemma OutsideKeepsViews(s: State, s': State)
    requires ViewsOk(s) && s' == s.(outside := s'.outside)
    ensures ViewsOk(s')
  {
    forall o | o in s'.views
      ensures OwnerOk(s', o)
    {
      assert OwnerOk(s, o);
    }
    forall u | u in s'.pcs
      ensures UserOk(s', u)
    {
      assert UserOk(s, u);
    }
  }

  /** While anyone uses the root, directly or through a view, a lease is held. */
  lemma LeaseOfUser(s: State)
    requires Inv(s)
    ensures forall t :: t in s.pcs && (HoldsLease(s.pcs[t]) || UsesRoot(s.pcs[t]) || UsesView(s.pcs[t])) ==>
              s.operations > 0
  {
    forall t | t in s.pcs && (HoldsLease(s.pcs[t]) || UsesRoot(s.pcs[t]) || UsesView(s.pcs[t]))
      ensures s.operations > 0
    {
      if HoldsLease(s.pcs[t]) {
        assert t in Holders(s);
      } else {
        assert UserOk(s, t) && OwnerOk(s, s.pcs[t].owner);
        assert s.pcs[t].owner in Holders(s);
      }
    }
  }

  // ----- Whole runs -----

  /** Executes the enabled actions of a schedule; a blocked action leaves the state alone. */
  function Run(s: State, schedule: seq<Action>): State
    decreases |schedule|
  {
    if schedule == [] then s
    else
      var next := Step(s, schedule[0]);
      Run(if next.Some? then next.value else s, schedule[1..])
  }

  lemma {:induction false} RunKeepsInv(s: State, schedule: seq<Action>)
    requires Inv(s)
    ensures Inv(Run(s, schedule))
    ensures s.closing ==> Run(s, schedule).closing && Holders(Run(s, schedule)) <= Holders(s)
    decreases |schedule|
  {
    if schedule != [] {
      var next := Step(s, schedule[0]);
      if next.Some? {
        StepKeepsInv(s, schedule[0]);
        StepKeepsCount(s, schedule[0]);
        RunKeepsInv(next.value, schedule[1..]);
      } else {
        RunKeepsInv(s, schedule[1..]);
      }
    }
  }

  /** What every state of every interleaving satisfies: the root is closed at most once and only with
      no lease left, whoever uses it finds it open, and a view acts only inside its own callback,
      whose lease is still held. */
  ghost predicate Safe(s: State)
  {
    && s.rootCloses <= 1
    && (!s.rootOpen ==> Holders(s) == {})
    && (forall t :: t in s.pcs && UsesRoot(s.pcs[t]) ==> s.rootOpen)
    && (forall t :: t in s.pcs && UsesView(s.pcs[t]) ==>
          InCallbackAt(s, s.pcs[t].owner) && s.pcs[t].owner in Holders(s))
  }

  lemma EveryRunIsSafe(schedule: seq<Action>)
    ensures Safe(Run(Opened, schedule))
  {
    assert Holders(Opened) == {};
    RunKeepsInv(Opened, schedule);
    var s := Run(Opened, schedule);
    LeaseOfUser(s);
    assert !s.rootOpen ==> Holders(s) == {};
  }

  /** Once a Close has begun, no lease is granted in any continuation, and the step that closes the
      root happens with zero leases. */
  lemma NoLeaseAfterClosing(before: seq<Action>, after: seq<Action>, a: Action)
    ensures var s := Run(Opened, before);
            var s' := Run(s, after);
            && (s.closing ==> Holders(s') <= Holders(s))
            && (Step(s', a).Some? && s'.rootOpen && !Step(s', a).value.rootOpen ==>
                  Holders(s') == {} && s'.readers == {})
  {
    hide Run;
    assert Holders(Opened) == {};
    RunKeepsInv(Opened, before);
    RunKeepsInv(Run(Opened, before), after);
    var s' := Run(Run(Opened, before), after);
    if Step(s', a).Some? && s'.rootOpen && !Step(s', a).value.rootOpen {
      hide Step;
      ClosingStep(s', a);
    }
  }

  /** The step that closes the root finds no lease and no reader. */
  lemma ClosingStep(s: State, a: Action)
    requires Inv(s) && Step(s, a).Some? && s.rootOpen && !Step(s, a).value.rootOpen
    ensures Holders(s) == {} && s.readers == {}
  {
    hide Grantable, WriterWaits, ViewsOk;
    LeaseOfUser(s);
  }

  /** A lease holder is never held up by a waiting Close: whoever wants to read under a lease, or under
      a view, may do so at once, although RWMutex prefers writers. */
  lemma LeaseHoldersAreNotBlocked(schedule: seq<Action>, t: Thread)
    requires t in Run(Opened, schedule).pcs
    requires Run(Opened, schedule).pcs[t].Leased? || Run(Opened, schedule).pcs[t].ViewHeld?
    ensures Step(Run(Opened, schedule), RLock(t)).Some?
  {
    assert Holders(Opened) == {};
    RunKeepsInv(Opened, schedule);
    LeaseOfUser(Run(Opened, schedule));
  }
}
