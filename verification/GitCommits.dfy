/** Commits built from a private index and published by compare-and-swap on HEAD (git_commit.go,
    gitCommitPolicyCAS in access_generation.go). A commit is identified by its content, as Git's object
    ids are. */
module GitCommits {
  import opened Common

  type Path = string

  type Files = map<Path, string>

  datatype Commit = Commit(parent: Option<Commit>, tree: Files, message: string)

  function TreeOf(c: Option<Commit>): Files {
    if c.Some? then c.value.tree else map[]
  }

  // ----- One commit, undisturbed -----

  /** dedupeStrings: first occurrences, in order. */
  function Dedupe(paths: seq<Path>): seq<Path> {
    if paths == [] then []
    else
      var init := Dedupe(paths[..|paths| - 1]);
      if paths[|paths| - 1] in init then init else init + [paths[|paths| - 1]]
  }

  lemma {:induction false} DedupeKeepsFirsts(paths: seq<Path>)
    ensures forall p :: p in Dedupe(paths) <==> p in paths
    ensures forall i, j :: 0 <= i < j < |Dedupe(paths)| ==> Dedupe(paths)[i] != Dedupe(paths)[j]
    ensures forall n :: 0 <= n <= |paths| ==> Dedupe(paths[..n]) <= Dedupe(paths)
  {
    if paths != [] {
      var init, last := paths[..|paths| - 1], paths[|paths| - 1];
      DedupeKeepsFirsts(init);
      assert paths == init + [last];
      forall n | 0 <= n <= |paths|
        ensures Dedupe(paths[..n]) <= Dedupe(paths)
      {
        if n < |paths| {
          assert paths[..n] == init[..n];
        } else {
          assert paths[..n] == paths;
        }
      }
    }
  }

  /** git add of one path: takes the working file, or records a deletion; an unknown path is an error, and so is
      a new file that Git ignores. */
  function Stage(index: Files, work: Files, ignored: set<Path>, p: Path): Option<Files> {
    if p !in index && (p !in work || p in ignored) then None
    else if p in work then Some(index[p := work[p]])
    else Some(index - {p})
  }

  function StageAll(index: Files, work: Files, ignored: set<Path>, paths: seq<Path>): Option<Files> {
    if paths == [] then Some(index)
    else
      var init := StageAll(index, work, ignored, paths[..|paths| - 1]);
      if init.None? then None else Stage(init.value, work, ignored, paths[|paths| - 1])
  }

  predicate AgreeOutside(a: Files, b: Files, own: set<Path>) {
    && (forall p :: p in a && p !in own ==> p in b && a[p] == b[p])
    && (forall p :: p in b && p !in own ==> p in a)
  }

  function PathSet(paths: seq<Path>): set<Path> {
    set p | p in paths
  }

  /** Staging distinct paths succeeds exactly when each of them is a committed file or a working one that is
      not ignored; the index then holds the working state at these paths and the base tree everywhere else. */
  lemma {:induction false} StagedExactly(base: Files, work: Files, ignored: set<Path>, paths: seq<Path>)
    requires forall i, j :: 0 <= i < j < |paths| ==> paths[i] != paths[j]
    ensures StageAll(base, work, ignored, paths).Some? <==> forall p :: p in paths ==> p in base || (p in work && p !in ignored)
    ensures StageAll(base, work, ignored, paths).Some? ==>
              var t := StageAll(base, work, ignored, paths).value;
              && AgreeOutside(t, base, PathSet(paths))
              && forall p :: p in paths ==> (p in t <==> p in work) && (p in work ==> t[p] == work[p])
  {
    if paths != [] {
      var init, last := paths[..|paths| - 1], paths[|paths| - 1];
      StagedExactly(base, work, ignored, init);
      assert paths == init + [last];
      assert last !in init;
    }
  }

  /** A record created and removed in one transaction is a path that is neither a working file nor a
      committed one, so its commit is refused (and the transaction rolled back). */
  lemma CreatedAndDeletedIsRefused(base: Files, work: Files, ignored: set<Path>, paths: seq<Path>, p: Path)
    requires p in paths && p !in work && p !in base
    ensures StageAll(base, work, ignored, Dedupe(paths)).None?
  {
    DedupeKeepsFirsts(paths);
    StagedExactly(base, work, ignored, Dedupe(paths));
  }

  class Repository {
    var head: Option<Commit>
    var work: Files
    var userIndex: Files
    var ignored: set<Path>

    constructor (head: Option<Commit>, work: Files, userIndex: Files, ignored: set<Path>)
      ensures this.head == head && this.work == work && this.userIndex == userIndex && this.ignored == ignored
    {
      this.head, this.work, this.userIndex, this.ignored := head, work, userIndex, ignored;
    }

    method DedupeStrings(input: seq<Path>) returns (out: seq<Path>)
      ensures out == Dedupe(input)
    {
      var seen: set<Path> := {};
      out := [];
      for i := 0 to |input|
        invariant out == Dedupe(input[..i])
        invariant seen == PathSet(out)
      {
        assert input[..i + 1][..i] == input[..i];
        if input[i] in seen {
          continue;
        }
        seen := seen + {input[i]};
        out := out + [input[i]];
      }
      assert input[..|input|] == input;
    }

    /** gitCommitPaths. HEAD may have moved to headAtUpdate by the time of the update-ref; the user's own
        index and the working files are never touched. */
    method CommitPaths(paths: seq<Path>, message: string, headAtUpdate: Option<Commit>) returns (ok: bool)
      modifies this`head
      ensures paths == [] ==> ok && head == old(head)
      ensures paths != [] ==>
                var staged := StageAll(TreeOf(old(head)), work, ignored, Dedupe(paths));
                && ok == (staged.Some? && headAtUpdate == old(head))
                && (ok ==> head == Some(Commit(old(head), staged.value, message)))
                && (!ok ==> head == if staged.Some? then headAtUpdate else old(head))
    {
      var staged := DedupeStrings(paths);
      DedupeKeepsFirsts(paths);
      assert paths != [] ==> paths[0] in staged;
      if |staged| == 0 {
        return true;
      }
      var oldHead := head;
      var index := TreeOf(oldHead);
      for i := 0 to |staged|
        invariant StageAll(TreeOf(oldHead), work, ignored, staged[..i]) == Some(index)
      {
        assert staged[..i + 1][..i] == staged[..i];
        var next := Stage(index, work, ignored, staged[i]);
        if next.None? {
          StageFailsForGood(TreeOf(oldHead), work, ignored, staged, i + 1);
          return false;
        }
        index := next.value;
      }
      assert staged[..|staged|] == staged;
      var commit := Commit(oldHead, index, message);
      head := headAtUpdate;
      if head != oldHead {
        return false;
      }
      head := Some(commit);
      return true;
    }
  }

  lemma {:induction false} StageFailsForGood(base: Files, work: Files, ignored: set<Path>, paths: seq<Path>, n: nat)
    requires n <= |paths| && StageAll(base, work, ignored, paths[..n]).None?
    ensures StageAll(base, work, ignored, paths).None?
    decreases |paths|
  {
    if n == |paths| {
      assert paths[..n] == paths;
    } else {
      assert paths[..|paths| - 1][..n] == paths[..n];
      StageFailsForGood(base, work, ignored, paths[..|paths| - 1], n);
    }
  }

  // ----- Every interleaving -----

  /** What a commit publishes: record files, or a policy generation with its active manifest. */
  datatype Job =
    | Records(paths: seq<Path>, message: string)
    | Policies(paths: seq<Path>, message: string, pointerPath: Path, pointer: string)

  function Own(job: Job): set<Path> {
    match job
    case Records(paths, _) => PathSet(paths)
    case Policies(paths, _, pointerPath, _) => PathSet(paths) + {pointerPath}
  }

  datatype Pc =
    | Staging(job: Job, base: Option<Commit>, index: Files, todo: seq<Path>)
    | Committed(job: Job, base: Option<Commit>, commit: Commit)
    | Finished(ok: bool)

  datatype Update = Update(job: Job, replaced: Option<Commit>, made: Commit)

  datatype State = State(
    head: Option<Commit>, work: Files, ignored: set<Path>, agents: map<nat, Pc>, published: seq<Update>)

  datatype Action =
    | Start(t: nat, job: Job)
    | StageOne(t: nat)
    | CommitTree(t: nat)
    | UpdateRef(t: nat)
    | OutsideHead(head: Option<Commit>)
    | OutsideWork(work: Files, ignored: set<Path>)

  function Step(s: State, a: Action): Option<State> {
    match a
    case Start(t, job) =>
      if t in s.agents then None
      else Some(s.(agents := s.agents[t := Staging(job, s.head, TreeOf(s.head), Dedupe(job.paths))]))
    case StageOne(t) =>
      if t !in s.agents || !s.agents[t].Staging? || s.agents[t].todo == [] then None
      else
        var pc := s.agents[t];
        var next := Stage(pc.index, s.work, s.ignored, pc.todo[0]);
        Some(s.(agents := s.agents[t := if next.None? then Finished(false)
                                        else pc.(index := next.value, todo := pc.todo[1..])]))
    case CommitTree(t) =>
      if t !in s.agents || !s.agents[t].Staging? || s.agents[t].todo != [] then None
      else
        var pc := s.agents[t];
        var tree := if pc.job.Policies? then pc.index[pc.job.pointerPath := pc.job.pointer] else pc.index;
        Some(s.(agents := s.agents[t := Committed(pc.job, pc.base, Commit(pc.base, tree, pc.job.message))]))
    case UpdateRef(t) =>
      if t !in s.agents || !s.agents[t].Committed? then None
      else
        var pc := s.agents[t];
        if s.head != pc.base then Some(s.(agents := s.agents[t := Finished(false)]))
        else Some(s.(head := Some(pc.commit), agents := s.agents[t := Finished(true)],
                     published := s.published + [Update(pc.job, pc.base, pc.commit)]))
    case OutsideHead(head) => Some(s.(head := head))
    case OutsideWork(work, ignored) => Some(s.(work := work, ignored := ignored))
  }

  function Run(s: State, schedule: seq<Action>): State
    decreases |schedule|
  {
    if schedule == [] then s
    else
      var next := Step(s, schedule[0]);
      Run(if next.Some? then next.value else s, schedule[1..])
  }

  ghost predicate LocalPc(pc: Pc)
  {
    match pc
    case Staging(job, base, index, todo) =>
      AgreeOutside(index, TreeOf(base), Own(job)) && forall p :: p in todo ==> p in Own(job)
    case Committed(job, base, commit) =>
      commit.parent == base && commit.message == job.message && AgreeOutside(commit.tree, TreeOf(base), Own(job))
    case Finished(_) => true
  }

  /** The new commit's parent is the HEAD it replaced, and the trees differ at the job's own paths only. */
  ghost predicate LocalUpdate(u: Update)
  {
    u.made.parent == u.replaced && u.made.message == u.job.message && AgreeOutside(u.made.tree, TreeOf(u.replaced), Own(u.job))
  }

  ghost predicate Inv(s: State)
  {
    && (forall t :: t in s.agents ==> LocalPc(s.agents[t]))
    && (forall i :: 0 <= i < |s.published| ==> LocalUpdate(s.published[i]))
  }

  lemma StagingKeepsInv(s: State, a: Action)
    requires Inv(s) && Step(s, a).Some? && (a.Start? || a.StageOne?)
    ensures Inv(Step(s, a).value)
  {
    hide LocalUpdate;
    if a.Start? {
      DedupeKeepsFirsts(a.job.paths);
    } else {
      assert LocalPc(s.agents[a.t]);
    }
  }

  lemma CommittingKeepsInv(s: State, a: Action)
    requires Inv(s) && Step(s, a).Some? && !a.Start? && !a.StageOne?
    ensures Inv(Step(s, a).value)
  {
    hide Stage, Dedupe;
    if a.CommitTree? || a.UpdateRef? {
      assert LocalPc(s.agents[a.t]);
    }
  }

  lemma StepKeepsInv(s: State, a: Action)
    requires Inv(s) && Step(s, a).Some?
    ensures Inv(Step(s, a).value)
  {
    hide Step, Inv;
    if a.Start? || a.StageOne? {
      StagingKeepsInv(s, a);
    } else {
      CommittingKeepsInv(s, a);
    }
  }

  lemma {:induction false} RunKeepsInv(s: State, schedule: seq<Action>)
    requires Inv(s)
    ensures Inv(Run(s, schedule))
    decreases |schedule|
  {
    hide Inv, Step;
    if schedule != [] {
      var next := Step(s, schedule[0]);
      if next.Some? {
        StepKeepsInv(s, schedule[0]);
        RunKeepsInv(next.value, schedule[1..]);
      } else {
        RunKeepsInv(s, schedule[1..]);
      }
    }
  }

  const ACCESS_DIR: Path := ".ingitdb/access/"

  predicate InAccess(p: Path) {
    ACCESS_DIR <= p
  }

  predicate WellPlaced(job: Job) {
    if job.Records? then forall p :: p in Own(job) ==> !InAccess(p)
    else forall p :: p in Own(job) ==> InAccess(p)
  }

  function AccessPart(t: Files): Files {
    map p | p in t && InAccess(p) :: t[p]
  }

  function RecordPart(t: Files): Files {
    map p | p in t && !InAccess(p) :: t[p]
  }

  /** In every interleaving of record commits, policy commits, outside HEAD moves and edits: each
      published commit's parent is the HEAD it replaced, record commits leave the access subtree (and so
      the active generation) as it was, and policy commits leave every record as it was. */
  lemma PublishedCommitsAreLocal(head: Option<Commit>, work: Files, ignored: set<Path>, schedule: seq<Action>)
    ensures var s := Run(State(head, work, ignored, map[], []), schedule);
            forall i :: 0 <= i < |s.published| ==>
              var u := s.published[i];
              && LocalUpdate(u)
              && (u.job.Records? && WellPlaced(u.job) ==> AccessPart(u.made.tree) == AccessPart(TreeOf(u.replaced)))
              && (u.job.Policies? && WellPlaced(u.job) ==> RecordPart(u.made.tree) == RecordPart(TreeOf(u.replaced)))
  {
    var s0 := State(head, work, ignored, map[], []);
    RunKeepsInv(s0, schedule);
    var s := Run(s0, schedule);
    forall i | 0 <= i < |s.published|
      ensures var u := s.published[i];
              && LocalUpdate(u)
              && (u.job.Records? && WellPlaced(u.job) ==> AccessPart(u.made.tree) == AccessPart(TreeOf(u.replaced)))
              && (u.job.Policies? && WellPlaced(u.job) ==> RecordPart(u.made.tree) == RecordPart(TreeOf(u.replaced)))
    {
      if WellPlaced(s.published[i].job) {
        LocalParts(s.published[i]);
      }
    }
  }

  lemma LocalParts(u: Update)
    requires LocalUpdate(u) && WellPlaced(u.job)
    ensures u.job.Records? ==> AccessPart(u.made.tree) == AccessPart(TreeOf(u.replaced))
    ensures u.job.Policies? ==> RecordPart(u.made.tree) == RecordPart(TreeOf(u.replaced))
  {
  }

  /** At path p the tree is as the working files are, or, at the pointer's path, as the job says. */
  predicate HoldsWork(job: Job, tree: Files, work: Files, p: Path) {
    if job.Policies? && p == job.pointerPath then p in tree && tree[p] == job.pointer
    else (p in tree <==> p in work) && (p in tree ==> tree[p] == work[p])
  }

  ghost predicate StagedPc(pc: Pc, work: Files)
  {
    match pc
    case Staging(job, base, index, todo) =>
      && (forall i, j :: 0 <= i < j < |todo| ==> todo[i] != todo[j])
      && forall p :: p in job.paths && p !in todo ==> (p in index <==> p in work) && (p in index ==> index[p] == work[p])
    case Committed(job, base, commit) => forall p :: p in Own(job) ==> HoldsWork(job, commit.tree, work, p)
    case Finished(_) => true
  }

  ghost predicate StagedInv(s: State)
  {
    && (forall t :: t in s.agents ==> StagedPc(s.agents[t], s.work))
    && (forall i :: 0 <= i < |s.published| ==>
          forall p :: p in Own(s.published[i].job) ==> HoldsWork(s.published[i].job, s.published[i].made.tree, s.work, p))
  }

  lemma StagingKeepsStaged(s: State, a: Action)
    requires StagedInv(s) && Step(s, a).Some? && (a.Start? || a.StageOne?)
    ensures StagedInv(Step(s, a).value) && Step(s, a).value.work == s.work
  {
    hide HoldsWork;
    if a.Start? {
      DedupeKeepsFirsts(a.job.paths);
    } else {
      assert StagedPc(s.agents[a.t], s.work);
    }
  }

  lemma StepKeepsStaged(s: State, a: Action)
    requires StagedInv(s) && Step(s, a).Some? && !a.OutsideWork?
    ensures StagedInv(Step(s, a).value) && Step(s, a).value.work == s.work
  {
    if a.Start? || a.StageOne? {
      StagingKeepsStaged(s, a);
    } else {
      hide Stage, Dedupe;
      if a.CommitTree? || a.UpdateRef? {
        assert StagedPc(s.agents[a.t], s.work);
      }
    }
  }

  lemma {:induction false} RunKeepsStaged(s: State, schedule: seq<Action>)
    requires StagedInv(s) && forall i :: 0 <= i < |schedule| ==> !schedule[i].OutsideWork?
    ensures StagedInv(Run(s, schedule)) && Run(s, schedule).work == s.work
    decreases |schedule|
  {
    hide StagedInv, Step;
    if schedule != [] {
      var next := Step(s, schedule[0]);
      if next.Some? {
        StepKeepsStaged(s, schedule[0]);
        RunKeepsStaged(next.value, schedule[1..]);
      } else {
        RunKeepsStaged(s, schedule[1..]);
      }
    }
  }

  /** While the working files stay as they are, however commits interleave, every published commit has the working
      state at each of its own paths, and a policy commit its active manifest. */
  lemma PublishedCommitsHoldWork(head: Option<Commit>, work: Files, ignored: set<Path>, schedule: seq<Action>)
    requires forall i :: 0 <= i < |schedule| ==> !schedule[i].OutsideWork?
    ensures var s := Run(State(head, work, ignored, map[], []), schedule);
            forall i :: 0 <= i < |s.published| ==>
              var u := s.published[i];
              forall p :: p in Own(u.job) ==> HoldsWork(u.job, u.made.tree, work, p)
  {
    RunKeepsStaged(State(head, work, ignored, map[], []), schedule);
  }

  /** The published updates form one chain from the initial HEAD to the current one. */
  ghost predicate Chained(first: Option<Commit>, published: seq<Update>, head: Option<Commit>)
  {
    && head == (if published == [] then first else Some(published[|published| - 1].made))
    && (published != [] ==> published[0].replaced == first)
    && (forall i :: 0 < i < |published| ==> published[i].replaced == Some(published[i - 1].made))
  }

  /** Without outside HEAD moves no commit is lost, however the committing processes interleave. */
  lemma {:induction false} NoCommitIsLost(first: Option<Commit>, s: State, schedule: seq<Action>)
    requires Chained(first, s.published, s.head)
    requires forall i :: 0 <= i < |schedule| ==> !schedule[i].OutsideHead?
    ensures var s1 := Run(s, schedule);
            Chained(first, s1.published, s1.head) && s.published <= s1.published
    decreases |schedule|
  {
    if schedule != [] {
      var next := Step(s, schedule[0]);
      if next.Some? {
        StepKeepsChain(first, s, schedule[0]);
        hide Step, Chained;
        NoCommitIsLost(first, next.value, schedule[1..]);
      } else {
        NoCommitIsLost(first, s, schedule[1..]);
      }
    }
  }

  lemma StepKeepsChain(first: Option<Commit>, s: State, a: Action)
    requires Chained(first, s.published, s.head) && Step(s, a).Some? && !a.OutsideHead?
    ensures Chained(first, Step(s, a).value.published, Step(s, a).value.head)
    ensures s.published <= Step(s, a).value.published
  {
  }

  /** In every run HEAD is where it was at the start, where an outside move put it, or at a commit that one of the
      committing processes made and published over the HEAD it had started from. */
  lemma {:induction false} HeadIsExplained(s: State, schedule: seq<Action>)
    ensures var s1 := Run(s, schedule);
            || s1.head == s.head
            || (exists i :: 0 <= i < |schedule| && schedule[i] == OutsideHead(s1.head))
            || (exists i :: |s.published| <= i < |s1.published| && s1.head == Some(s1.published[i].made))
    ensures s.published <= Run(s, schedule).published
    decreases |schedule|
  {
    if schedule != [] {
      var next := Step(s, schedule[0]);
      var s' := if next.Some? then next.value else s;
      HeadIsExplained(s', schedule[1..]);
      var s1 := Run(s', schedule[1..]);
      HeadStep(s, schedule[0]);
      hide Step, Run;
      if i :| 0 <= i < |schedule[1..]| && schedule[1..][i] == OutsideHead(s1.head) {
        assert schedule[i + 1] == OutsideHead(s1.head);
      }
      if s1.head == s'.head && |s'.published| > |s.published| {
        assert s1.published[|s.published|] == s'.published[|s.published|];
      }
    }
  }

  lemma HeadStep(s: State, a: Action)
    ensures var s' := if Step(s, a).Some? then Step(s, a).value else s;
            && s.published <= s'.published
            && (s'.head == s.head || a == OutsideHead(s'.head)
                || (|s'.published| == |s.published| + 1 && s'.head == Some(s'.published[|s.published|].made)))
  {
  }
}
