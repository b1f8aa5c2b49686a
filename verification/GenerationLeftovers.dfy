/** What stopped calls leave behind in the access tree, and exactly when it keeps the next publication
    from going through (access_generation.go). */
module GenerationLeftovers {
  import opened Common
  import opened Generations
  import opened GenerationRecovery

  // ----- What stopped calls leave behind -----

  predicate OnlyPublications(calls: seq<Call>) {
    forall i :: 0 <= i < |calls| ==> calls[i].PublishCall?
  }

  /** Generation directories only ever appear, and appear verified. */
  ghost predicate Grown(gens: map<Sha, Dir>, gens': map<Sha, Dir>)
  {
    && (forall rev :: rev in gens ==> rev in gens' && gens'[rev] == gens[rev])
    && (forall rev :: rev in gens' && rev !in gens ==> Verified(gens'[rev], rev))
  }

  lemma UnfinishedPublication(d: Disk, c: Candidate, expected: Selected, stop: Stop)
    requires d.history != [] && Clean(Head(d), d.work) && !Advances(d, c, expected, stop)
    ensures var d1 := PublishStep(d, c, expected, stop).0;
            d1.history == d.history && Clean(Head(d), d1.work) && Grown(d.work.gens, d1.work.gens)
  {
    hide Clean, Verified, BuiltDir, BuiltManifest, BuiltRevision, CommittedTree, Buildable, Materialized;
    if Admission(d, c, expected) == None {
      MaterializedStaysClean(d, c, stop);
      MaterializedEffects(d, c, stop);
      BuiltVerifies(c);
    }
  }

  /** From d to d1 HEAD stood still, the tree stayed clean, and generations only appeared. */
  ghost predicate Quiet(d: Disk, d1: Disk)
  {
    && d1.history == d.history
    && (d.history != [] ==> Clean(Head(d), d1.work))
    && Grown(d.work.gens, d1.work.gens)
  }

  lemma UnfinishedCall(d: Disk, call: Call)
    requires d.history != [] && Clean(Head(d), d.work) && call.PublishCall?
    requires StepCall(d, call).history == d.history
    ensures Quiet(d, StepCall(d, call))
  {
    PublishHistory(d, call.c, call.expected, call.publishStop);
    UnfinishedPublication(d, call.c, call.expected, call.publishStop);
  }

  lemma QuietTransitive(d: Disk, d1: Disk, d2: Disk)
    requires Quiet(d, d1) && Quiet(d1, d2)
    ensures Quiet(d, d2)
  {
    GrownTransitive(d.work.gens, d1.work.gens, d2.work.gens);
  }

  lemma {:induction false} UnfinishedPublications(d: Disk, calls: seq<Call>)
    requires d.history != [] && Clean(Head(d), d.work) && OnlyPublications(calls)
    requires RunCalls(d, calls).history == d.history
    ensures Quiet(d, RunCalls(d, calls))
    decreases |calls|
  {
    hide Clean, Grown, Verified, StepCall;
    GrownReflexive(d.work.gens);
    if calls != [] {
      var d1 := StepCall(d, calls[0]);
      PublicationsOnlyExtend(d, calls[..1]);
      assert RunCalls(d, calls[..1]) == RunCalls(d1, []) == d1;
      PublicationsOnlyExtend(d1, calls[1..]);
      UnfinishedCall(d, calls[0]);
      UnfinishedPublications(d1, calls[1..]);
      QuietTransitive(d, d1, RunCalls(d1, calls[1..]));
    }
  }

  lemma PublicationExtends(d: Disk, call: Call)
    requires call.PublishCall?
    ensures d.history <= StepCall(d, call).history
  {
    hide PublishStep, Advances, BuiltActive, BuiltRevision, Buildable;
    PublishHistory(d, call.c, call.expected, call.publishStop);
  }

  lemma {:induction false} PublicationsOnlyExtend(d: Disk, calls: seq<Call>)
    requires OnlyPublications(calls)
    ensures d.history <= RunCalls(d, calls).history
    decreases |calls|
  {
    if calls != [] {
      hide StepCall;
      PublicationExtends(d, calls[0]);
      PublicationsOnlyExtend(StepCall(d, calls[0]), calls[1..]);
    }
  }

  lemma GrownReflexive(a: map<Sha, Dir>)
    ensures Grown(a, a)
  {
  }

  lemma GrownTransitive(a: map<Sha, Dir>, b: map<Sha, Dir>, c: map<Sha, Dir>)
    requires Grown(a, b) && Grown(b, c)
    ensures Grown(a, c)
  {
  }

  lemma PublishFromClean(d: Disk, c: Candidate)
    requires d.history != [] && Clean(Head(d), d.work) && Buildable(c)
    requires BuiltRevision(c) in d.work.gens ==> Verified(d.work.gens[BuiltRevision(c)], BuiltRevision(c))
    ensures var (d1, r) := PublishStep(d, c, Selection(Head(d).active), Never);
            r == Ok(BuiltRevision(c)) && (BuiltRevision(c) in d.work.gens ==> d1.work.gens == d.work.gens)
  {
    assert Admission(d, c, Selection(Head(d).active)) == None;
    var (d0, ok) := Materialized(d, c, Never);
    assert ok;
    CommitHistory(d0, c, Never);
  }

  /** However many publications stopped before moving HEAD, whatever they left behind never blocks the
      next Publish with the right expected revision; a directory already there is reused untouched. */
  lemma UnfinishedNeverBlock(d: Disk, calls: seq<Call>, c: Candidate)
    requires d.history != [] && Clean(Head(d), d.work) && OnlyPublications(calls)
    requires RunCalls(d, calls).history == d.history
    requires Buildable(c)
    requires BuiltRevision(c) in d.work.gens ==> Verified(d.work.gens[BuiltRevision(c)], BuiltRevision(c))
    ensures var d1 := RunCalls(d, calls);
            var (d2, r) := PublishStep(d1, c, Selection(Head(d).active), Never);
            && r == Ok(BuiltRevision(c))
            && (BuiltRevision(c) in d1.work.gens ==> d2.work.gens == d1.work.gens)
  {
    hide BuiltDir, BuiltRevision, Buildable, Verified, Clean, PublishStep, RunCalls, OnlyPublications;
    UnfinishedPublications(d, calls);
    PublishFromClean(RunCalls(d, calls), c);
  }

  /** A publication that stops right after the HEAD update leaves a stale pointer; one Reload makes the
      access tree clean again, so that publishing can go on. */
  lemma ReloadRestoresClean(d: Disk, c: Candidate, expected: Selected)
    requires Sound(d) && Advances(d, c, expected, AfterHead)
    ensures var d1 := PublishStep(d, c, expected, AfterHead).0;
            Clean(Head(d1), ReloadStep(d1, Never).0.work)
  {
    StoppedAfterHead(d, c, expected, AfterHead);
    MaterializedStaysClean(d, c, AfterHead);
    var d0 := Materialized(d, c, AfterHead).0;
    CommitHistory(d0, c, AfterHead);
    RecoverOutcome(PublishStep(d, c, expected, AfterHead).0);
    RecoveredFiles(PublishStep(d, c, expected, AfterHead).0);
    CommittedStaysClean(Head(d), d0.work, c);
  }

  lemma RecoveredFiles(d: Disk)
    requires d.history != [] && Selection(Head(d).active).Generation?
    requires Selection(Head(d).active).rev in d.work.gens && RecoverStep(d, Never).1
    ensures ReloadStep(d, Never).0.work == d.work.(active := Head(d).active)
  {
  }

  lemma CommittedStaysClean(head: Tree, work: Tree, c: Candidate)
    requires Clean(head, work) && Buildable(c) && BuiltRevision(c) in work.gens
    ensures var t := CommittedTree(head, work, c);
            Clean(t, work.(active := t.active))
  {
    hide Buildable, BuiltDir, BuiltManifest, BuiltActive, Verified;
  }

  // ----- Runs of any calls -----

  /** The generation directories of a clean access tree. */
  ghost predicate GensClean(head: Tree, work: Tree)
  {
    && (forall rev :: rev in head.gens ==>
          head.gens[rev] == map[] || (rev in work.gens && Matches(work.gens[rev], head.gens[rev])))
    && (forall rev :: rev in work.gens ==>
          Verified(work.gens[rev], rev) || forall e :: e in work.gens[rev] ==> EntryTracked(head, rev, e))
  }

  lemma CleanIff(head: Tree, work: Tree)
    ensures Clean(head, work) <==> work.active == head.active && work.others == head.others && GensClean(head, work)
  {
    hide Verified;
  }

  /** What every run from a sound, clean disk keeps: HEAD's other files stay what they were, and generation
      directories stay clean and only ever appear verified. Only the working pointer and stray files may differ. */
  ghost predicate Tidy(d0: Disk, d: Disk)
  {
    && d0.history != [] && d.history != [] && Sound(d) && GensClean(Head(d), d.work) && Grown(d0.work.gens, d.work.gens)
    && Head(d).others == Head(d0).others
    && (!Selection(Head(d).active).Generation? ==> d.work.active == Head(d).active)
  }

  lemma AdvancedIsTidy(d0: Disk, d: Disk, c: Candidate, expected: Selected, stop: Stop)
    requires Tidy(d0, d) && Advances(d, c, expected, stop)
    ensures Tidy(d0, PublishStep(d, c, expected, stop).0)
  {
    hide Clean, Verified, Buildable, BuiltDir, BuiltManifest, BuiltRevision, SoundTree, WorkMatches, PointerOk, Grown;
    hide Advances, Admission, Materialized, PublishStep, CommitStep, GensClean;
    PublishKeepsSound(d, c, expected, stop);
    PublishHistory(d, c, expected, stop);
    AdvancingPublication(d, c, expected, stop);
    var m := Materialized(d, c, stop).0;
    MaterializedStaysClean(d, c, stop);
    MaterializedGrows(d, c, stop);
    CommitHistory(m, c, stop);
    CommittedStaysClean(Head(m), m.work, c);
    var t := CommittedTree(Head(m), m.work, c);
    CleanIff(t, m.work.(active := t.active));
    SameGensClean(t, m.work.(active := t.active), CommitStep(m, c, stop).0.work);
    GrownTransitive(d0.work.gens, d.work.gens, m.work.gens);
  }

  lemma SameGensClean(head: Tree, work: Tree, work': Tree)
    requires GensClean(head, work) && work'.gens == work.gens
    ensures GensClean(head, work')
  {
    hide Verified;
  }

  lemma MaterializedGrows(d: Disk, c: Candidate, stop: Stop)
    requires Buildable(c)
    ensures Grown(d.work.gens, Materialized(d, c, stop).0.work.gens) && Materialized(d, c, stop).0.history == d.history
  {
    hide Verified, BuiltDir, Buildable, Materialized;
    MaterializedEffects(d, c, stop);
    BuiltVerifies(c);
  }

  lemma RefusedIsTidy(d0: Disk, d: Disk, c: Candidate, expected: Selected, stop: Stop)
    requires Tidy(d0, d) && !Advances(d, c, expected, stop)
    ensures Tidy(d0, PublishStep(d, c, expected, stop).0)
  {
    hide Verified, Buildable, BuiltDir, BuiltManifest, BuiltRevision, SoundTree, WorkMatches, PointerOk, Grown;
    hide Clean, GensClean;
    PublishKeepsSound(d, c, expected, stop);
    PublishHistory(d, c, expected, stop);
    if Admission(d, c, expected) == None {
      UnfinishedPublication(d, c, expected, stop);
      CleanIff(Head(d), PublishStep(d, c, expected, stop).0.work);
      GrownTransitive(d0.work.gens, d.work.gens, PublishStep(d, c, expected, stop).0.work.gens);
    }
  }

  /** With clean generation directories recovery only ever replaces the pointer. */
  lemma RecoveryKeepsGens(d: Disk, stop: Stop)
    requires d.history != [] && GensClean(Head(d), d.work)
    ensures RecoverStep(d, stop).0.work.gens == d.work.gens && RecoverStep(d, stop).0.history == d.history
    ensures !Selection(Head(d).active).Generation? ==> RecoverStep(d, stop).0 == d
  {
    hide Verified, PointerRecoverable;
    RecoverEffects(d, stop);
  }

  lemma ReloadedIsTidy(d0: Disk, d: Disk, stop: Stop)
    requires Tidy(d0, d)
    ensures Tidy(d0, ReloadStep(d, stop).0)
  {
    hide Verified, SoundTree, WorkMatches, PointerOk, Grown, GensClean, RecoverStep;
    RecoverKeepsSound(d, stop);
    RecoveryKeepsGens(d, stop);
    SameGensClean(Head(d), d.work, RecoverStep(d, stop).0.work);
  }

  lemma CallKeepsTidy(d0: Disk, d: Disk, call: Call)
    requires Tidy(d0, d)
    ensures Tidy(d0, StepCall(d, call))
  {
    hide Advances, PublishStep, ReloadStep, GensClean, Grown, PointerOk, SoundTree, WorkMatches;
    match call
    case PublishCall(c, expected, stop) =>
      if Advances(d, c, expected, stop) {
        AdvancedIsTidy(d0, d, c, expected, stop);
      } else {
        RefusedIsTidy(d0, d, c, expected, stop);
      }
    case ReloadCall(stop) => ReloadedIsTidy(d0, d, stop);
    case RecordCommit =>
  }

  lemma {:induction false} RunKeepsTidy(d0: Disk, d: Disk, calls: seq<Call>)
    requires Tidy(d0, d)
    ensures Tidy(d0, RunCalls(d, calls))
    decreases |calls|
  {
    hide Tidy, StepCall;
    if calls != [] {
      CallKeepsTidy(d0, d, calls[0]);
      RunKeepsTidy(d0, StepCall(d, calls[0]), calls[1..]);
    }
  }

  lemma StartIsTidy(d: Disk)
    requires Sound(d) && d.history != [] && Clean(Head(d), d.work)
    ensures Tidy(d, d)
  {
    hide Verified, SoundTree, WorkMatches, PointerOk, Clean, GensClean, Grown;
    CleanIff(Head(d), d.work);
    GrownReflexive(d.work.gens);
  }

  /** After one completed Reload only stray files can make a tidy tree dirty. */
  lemma TidyCleanIff(d0: Disk, d: Disk)
    requires Tidy(d0, d)
    ensures var d1 := ReloadStep(d, Never).0;
            && d1.history == d.history && d1.work.others == d.work.others && d1.work.gens == d.work.gens
            && (Clean(Head(d), d1.work) <==> d.work.others == Head(d).others)
  {
    hide Verified, SoundTree, WorkMatches, Grown, GensClean, Clean, HeadSnapshot;
    var d1 := ReloadStep(d, Never).0;
    RecoveryKeepsGens(d, Never);
    SameGensClean(Head(d), d.work, d1.work);
    CleanIff(Head(d), d1.work);
    if Selection(Head(d).active).Generation? {
      ReloadSucceedsIff(d);
    }
    ReloadKeepsOthers(d, Never);
  }

  /** After any run of publications, reloads and record commits, each stopped anywhere, and one completed
      Reload, publishing a candidate with the right expected revision goes through exactly when no stray
      file was left outside the generation directories (and the candidate's own directory, if it was there
      before the run, verifies). */
  lemma PublishAfterRunIff(d: Disk, calls: seq<Call>, c: Candidate)
    requires Sound(d) && d.history != [] && Clean(Head(d), d.work) && Buildable(c)
    requires BuiltRevision(c) in d.work.gens ==> Verified(d.work.gens[BuiltRevision(c)], BuiltRevision(c))
    ensures var d1 := RunCalls(d, calls);
            var d2 := ReloadStep(d1, Never).0;
            && d1.history != []
            && (PublishStep(d2, c, Selection(Head(d1).active), Never).1 == Ok(BuiltRevision(c)) <==>
                d1.work.others == Head(d1).others)
  {
    hide Verified, Buildable, BuiltRevision, Clean, Sound, PublishStep, ReloadStep, RunCalls, GensClean;
    StartIsTidy(d);
    RunKeepsTidy(d, d, calls);
    var d1 := RunCalls(d, calls);
    TidyCleanIff(d, d1);
    var d2 := ReloadStep(d1, Never).0;
    if d1.work.others == Head(d1).others {
      PublishFromClean(d2, c);
    } else {
      DirtyIsRefused(d2, c, Selection(Head(d1).active), Never);
    }
  }

  lemma DirtyIsRefused(d: Disk, c: Candidate, expected: Selected, stop: Stop)
    requires d.history == [] || !Clean(Head(d), d.work)
    ensures PublishStep(d, c, expected, stop).0 == d && PublishStep(d, c, expected, stop).1.Err?
  {
  }

  // ----- Which runs leave stray files -----

  /** A call that may crash inside the replacement of the working pointer. */
  predicate MayStray(call: Call) {
    (call.PublishCall? && call.publishStop.InPointerTemp?) || (call.ReloadCall? && call.reloadStop.InPointerTemp?)
  }

  lemma CallKeepsOthers(d: Disk, call: Call)
    requires !MayStray(call)
    ensures StepCall(d, call).work.others == d.work.others
  {
    hide PublishStep, ReloadStep;
    match call
    case PublishCall(c, expected, stop) => PublishKeepsOthers(d, c, expected, stop);
    case ReloadCall(stop) => ReloadKeepsOthers(d, stop);
    case RecordCommit =>
  }

  lemma PublishKeepsOthers(d: Disk, c: Candidate, expected: Selected, stop: Stop)
    requires !stop.InPointerTemp?
    ensures PublishStep(d, c, expected, stop).0.work.others == d.work.others
  {
    hide Verified, Clean, Buildable, BuiltDir, BuiltManifest, BuiltRevision, BuiltActive, Materialized, CommittedTree;
    if Admission(d, c, expected) == None {
      MaterializedEffects(d, c, stop);
    }
  }

  lemma ReloadKeepsOthers(d: Disk, stop: Stop)
    requires !stop.InPointerTemp?
    ensures ReloadStep(d, stop).0.work.others == d.work.others
  {
    hide Verified, PointerRecoverable, Complete, ActiveReadable, Blobs, Matches;
  }

  lemma {:induction false} RunKeepsOthers(d: Disk, calls: seq<Call>)
    requires forall i :: 0 <= i < |calls| ==> !MayStray(calls[i])
    ensures RunCalls(d, calls).work.others == d.work.others
    decreases |calls|
  {
    if calls != [] {
      CallKeepsOthers(d, calls[0]);
      RunKeepsOthers(StepCall(d, calls[0]), calls[1..]);
    }
  }

  /** Whatever any number of stopped publications and reloads leave behind never blocks publishing, unless one
      of them stopped inside the replacement of the working pointer. */
  lemma LeftoversNeverBlock(d: Disk, calls: seq<Call>, c: Candidate)
    requires Sound(d) && d.history != [] && Clean(Head(d), d.work) && Buildable(c)
    requires BuiltRevision(c) in d.work.gens ==> Verified(d.work.gens[BuiltRevision(c)], BuiltRevision(c))
    requires forall i :: 0 <= i < |calls| ==> !MayStray(calls[i])
    ensures var d1 := RunCalls(d, calls);
            var d2 := ReloadStep(d1, Never).0;
            d1.history != [] && PublishStep(d2, c, Selection(Head(d1).active), Never).1 == Ok(BuiltRevision(c))
  {
    hide Verified, Buildable, BuiltRevision, Sound, PublishStep, ReloadStep, RunCalls, GensClean;
    PublishAfterRunIff(d, calls, c);
    StartIsTidy(d);
    RunKeepsTidy(d, d, calls);
    RunKeepsOthers(d, calls);
  }

  /** A file of the working access tree that is not in HEAD's. */
  ghost predicate Stray(d: Disk, name: string)
  {
    name in d.work.others && (d.history != [] ==> name !in Head(d).others)
  }

  lemma StrayStays(d: Disk, name: string, call: Call)
    requires Stray(d, name)
    ensures Stray(StepCall(d, call), name)
  {
    hide Verified, Buildable, BuiltDir, PointerRecoverable, Complete, ActiveReadable;
    match call
    case PublishCall(c, expected, stop) => DirtyIsRefused(d, c, expected, stop);
    case ReloadCall(stop) => ReloadOnlyAdds(d, stop, name);
    case RecordCommit =>
  }

  lemma ReloadOnlyAdds(d: Disk, stop: Stop, name: string)
    requires name in d.work.others
    ensures name in ReloadStep(d, stop).0.work.others && ReloadStep(d, stop).0.history == d.history
  {
    hide RecoverStep, ActiveReadable, PathResolves, Docs;
    RecoveryOnlyAdds(d, stop, name);
  }

  lemma RecoveryOnlyAdds(d: Disk, stop: Stop, name: string)
    requires name in d.work.others
    ensures name in RecoverStep(d, stop).0.work.others && RecoverStep(d, stop).0.history == d.history
  {
    hide Verified, PointerRecoverable, Complete, Matches, Blobs;
  }

  /** A stray file blocks every publication, after every run of calls. */
  lemma {:induction false} StrayBlocks(d: Disk, name: string, calls: seq<Call>, c: Candidate, expected: Selected, stop: Stop)
    requires Stray(d, name)
    ensures PublishStep(RunCalls(d, calls), c, expected, stop).1.Err?
    decreases |calls|
  {
    hide PublishStep, StepCall;
    if calls == [] {
      DirtyIsRefused(d, c, expected, stop);
    } else {
      StrayStays(d, name, calls[0]);
      StrayBlocks(StepCall(d, calls[0]), name, calls[1..], c, expected, stop);
    }
  }

  /** A crash while the working pointer is being replaced leaves such a file: from then on every Publish is
      refused, whatever publications, reloads and record commits come in between. */
  lemma PointerTempBlocksPublish(d: Disk, c: Candidate, expected: Selected, name: string,
                                 calls: seq<Call>, c2: Candidate, expected2: Selected, stop: Stop)
    requires Advances(d, c, expected, InPointerTemp(name)) && name !in d.work.others
    ensures PublishStep(RunCalls(PublishStep(d, c, expected, InPointerTemp(name)).0, calls), c2, expected2, stop).1.Err?
  {
    hide Verified, BuiltDir, Buildable, BuiltActive, BuiltManifest, BuiltRevision, RunCalls;
    StrayBlocks(PublishStep(d, c, expected, InPointerTemp(name)).0, name, calls, c2, expected2, stop);
  }
}
