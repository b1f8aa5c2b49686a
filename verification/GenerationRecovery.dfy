/** What publication and recovery guarantee over whole runs with crashes. */
module GenerationRecovery {
  import opened Common
  import opened Ordering
  import opened Generations

  // ----- A built generation verifies -----

  lemma SortedRefs(c: Candidate, k: nat) returns (i: nat)
    requires Buildable(c) && k < |BuiltManifest(c).policies|
    ensures i < |c.policies| && BuiltManifest(c).policies[k] == RefOf(c.policies[i].doc)
  {
    var refs := Refs(c.policies);
    var sorted := SortBy(refs, IdOf);
    assert sorted[k] in multiset(sorted);
    assert sorted[k] in refs;
    i :| 0 <= i < |refs| && refs[i] == sorted[k];
  }

  lemma SortedRefsCount(c: Candidate)
    requires Buildable(c)
    ensures |BuiltManifest(c).policies| == |c.policies|
  {
    var refs := Refs(c.policies);
    assert |multiset(SortBy(refs, IdOf))| == |multiset(refs)|;
  }

  lemma BuiltVerifies(c: Candidate)
    requires Buildable(c)
    ensures Verified(BuiltDir(c), BuiltRevision(c))
    ensures BuiltManifest(c).policies != []
  {
    var dir, m := BuiltDir(c), BuiltManifest(c);
    SourcesHold(c.policies);
    forall k | 0 <= k < |m.policies|
      ensures RefOk(m.policies[k], dir)
    {
      var i := SortedRefs(c, k);
    }
    SortedRefsCount(c);
    assert PolicyEntry(c.policies[0].doc.name) in dir;
  }

  /** The revision depends on the policies of a candidate only as a set: any reordering of the
      documents, in any textual layout, publishes under the same revision. */
  lemma RevisionIgnoresOrder(c: Candidate, c': Candidate)
    requires Buildable(c) && Buildable(c')
    requires c.database == c'.database && c.realm == c'.realm
    requires multiset(Refs(c.policies)) == multiset(Refs(c'.policies))
    ensures BuiltRevision(c) == BuiltRevision(c')
  {
    var a, b := SortBy(Refs(c.policies), IdOf), SortBy(Refs(c'.policies), IdOf);
    SortBySorts(Refs(c.policies), IdOf);
    SortBySorts(Refs(c'.policies), IdOf);
    DistinctRefs(c);
    SortedUnique(a, b, IdOf);
  }

  lemma DistinctRefs(c: Candidate)
    requires Buildable(c)
    ensures DistinctKeys(SortBy(Refs(c.policies), IdOf), IdOf)
  {
    var refs := Refs(c.policies);
    assert DistinctKeys(refs, IdOf);
    PermutationKeepsDistinct(refs, SortBy(refs, IdOf), IdOf);
  }

  // ----- The invariant -----

  /** A committed tree that selects a generation contains it completely, and its active manifest is the
      one that generation calls for. */
  ghost predicate SoundTree(t: Tree)
  {
    match Selection(t.active)
    case Nothing => true
    case Malformed(_) => false
    case Generation(rev) =>
      && rev in t.gens && Complete(t.gens[rev], rev)
      && var m := t.gens[rev][ManifestEntry].m;
         m.api == API_VERSION && m.enabled && m.policies != [] && t.active.value.a == ActiveFor(m, rev)
  }

  /** Working files of the selected generation are those committed. */
  ghost predicate WorkMatches(head: Tree, work: Tree)
    requires SoundTree(head)
  {
    Selection(head.active).Generation? ==>
      var rev := Selection(head.active).rev;
      rev in work.gens ==> Matches(work.gens[rev], Blobs(head.gens[rev], head.gens[rev][ManifestEntry].m))
  }

  /** The premise on the working pointer: absent, or at a verified generation. */
  ghost predicate PointerOk(work: Tree)
  {
    work.active == None || NamesVerified(work)
  }

  ghost predicate Sound(d: Disk)
  {
    PointerOk(d.work) && (d.history != [] ==> SoundTree(Head(d)) && WorkMatches(Head(d), d.work))
  }

  /** The snapshot that HEAD alone determines. */
  function HeadSnapshot(t: Tree): Snapshot
    requires SoundTree(t) && Selection(t.active).Generation?
  {
    var rev := Selection(t.active).rev;
    var m := t.gens[rev][ManifestEntry].m;
    Snapshot(rev, t.active.value.a,
             seq(|m.policies|, i requires 0 <= i < |m.policies| => DocAt(t.gens[rev], m.policies[i])))
  }

  function DocAt(dir: Dir, p: PolicyRef): Doc
    requires RefOk(p, dir)
  {
    dir[p.file].doc
  }

  /** A directory with the committed files of a sound generation verifies. */
  lemma MatchingVerifies(t: Tree, dir: Dir)
    requires SoundTree(t) && Selection(t.active).Generation?
    requires var rev := Selection(t.active).rev;
             Matches(dir, Blobs(t.gens[rev], t.gens[rev][ManifestEntry].m))
    ensures var rev := Selection(t.active).rev;
            Verified(dir, rev) && dir[ManifestEntry] == t.gens[rev][ManifestEntry]
    ensures var rev := Selection(t.active).rev;
            var m := t.gens[rev][ManifestEntry].m;
            forall i :: 0 <= i < |m.policies| ==>
              RefOk(m.policies[i], dir) && dir[m.policies[i].file] == t.gens[rev][m.policies[i].file]
  {
    var rev := Selection(t.active).rev;
    var src := t.gens[rev];
    var m := src[ManifestEntry].m;
    var want := Blobs(src, m);
    assert ManifestEntry in want;
    forall i | 0 <= i < |m.policies|
      ensures RefOk(m.policies[i], dir) && dir[m.policies[i].file] == src[m.policies[i].file]
    {
      assert RefOk(m.policies[i], src);
      assert Listed(m, m.policies[i].file);
      assert m.policies[i].file in want;
    }
    assert m.policies[0].file in dir.Keys && m.policies[0].file.PolicyEntry?;
  }

  // ----- Recovery -----

  /** The effects recovery can have on the working files. */
  lemma RecoverEffects(d: Disk, stop: Stop)
    requires d.history != []
    ensures var work := RecoverStep(d, stop).0.work;
            && RecoverStep(d, stop).0.history == d.history
            && (work == d.work
                || (Selection(Head(d).active).Generation?
                    && var rev := Selection(Head(d).active).rev;
                       && rev in Head(d).gens && Complete(Head(d).gens[rev], rev)
                       && var want := Blobs(Head(d).gens[rev], Head(d).gens[rev][ManifestEntry].m);
                          && work.gens == (if rev in d.work.gens then d.work.gens else d.work.gens[rev := want])
                          && (rev in d.work.gens ==> Matches(d.work.gens[rev], want))
                          && (work.active == d.work.active || work.active == Head(d).active)))
  {
  }

  /** Recovery from a sound disk, wherever it stops, leaves a sound disk and the same HEAD. */
  lemma RecoverKeepsSound(d: Disk, stop: Stop)
    requires Sound(d)
    ensures Sound(RecoverStep(d, stop).0)
    ensures RecoverStep(d, stop).0.history == d.history
  {
    if d.history != [] {
      RecoverEffects(d, stop);
      var work := RecoverStep(d, stop).0.work;
      if work != d.work {
        var rev := Selection(Head(d).active).rev;
        MatchingVerifies(Head(d), work.gens[rev]);
      }
    }
  }

  /** Whether recovery may proceed depends on the working pointer alone. */
  lemma RecoverOutcome(d: Disk)
    requires d.history != [] && SoundTree(Head(d)) && WorkMatches(Head(d), d.work)
    requires Selection(Head(d).active).Generation?
    ensures RecoverStep(d, Never).1 <==> PointerRecoverable(d.work, Head(d).active.value)
    ensures RecoverStep(d, Never).1 ==>
              var d1 := RecoverStep(d, Never).0;
              var rev := Selection(Head(d).active).rev;
              && d1.history == d.history && d1.work.active == Head(d).active
              && rev in d1.work.gens
              && Matches(d1.work.gens[rev], Blobs(Head(d).gens[rev], Head(d).gens[rev][ManifestEntry].m))
    ensures !RecoverStep(d, Never).1 ==> RecoverStep(d, Never).0 == d
  {
  }

  /** Reload of a recovered working tree yields the snapshot of HEAD. */
  lemma RecoveredSnapshot(t: Tree, work: Tree)
    requires SoundTree(t) && Selection(t.active).Generation? && work.active == t.active
    requires t.active.value.size <= MAX_MANIFEST_SIZE
    requires var rev := Selection(t.active).rev;
             rev in work.gens && Matches(work.gens[rev], Blobs(t.gens[rev], t.gens[rev][ManifestEntry].m))
    ensures ActiveReadable(work) && work.active.value.a.enabled.value
    ensures var a := work.active.value.a;
            && (forall i :: 0 <= i < |a.policies| ==> PathResolves(work, a.policies[i]))
            && HeadSnapshot(t) == Snapshot(Selection(t.active).rev, a, Docs(work, a.policies))
  {
    var rev := Selection(t.active).rev;
    var m := t.gens[rev][ManifestEntry].m;
    MatchingVerifies(t, work.gens[rev]);
    var a := work.active.value.a;
    assert a == ActiveFor(m, rev);
    assert |a.policies| == |m.policies| > 0;
    forall i | 0 <= i < |a.policies|
      ensures PathResolves(work, a.policies[i])
      ensures ResolvedDoc(work, a.policies[i]) == DocAt(t.gens[rev], m.policies[i])
    {
      assert RefOk(m.policies[i], work.gens[rev]);
      assert RefOk(m.policies[i], t.gens[rev]);
    }
  }

  /** The active manifest is within the limit of its readers. */
  predicate Fits(t: Tree) {
    t.active.Some? && t.active.value.Active? && t.active.value.size <= MAX_MANIFEST_SIZE
  }

  /** With a sound HEAD, Reload succeeds exactly when the working pointer is absent, equal to HEAD's, or
      at a verified generation, and HEAD's active manifest is not too large to be read; it then returns
      HEAD's generation and nothing else. A pointer that cannot be recovered is left alone; an oversized one
      is still installed. */
  lemma ReloadSucceedsIff(d: Disk)
    requires d.history != [] && SoundTree(Head(d)) && WorkMatches(Head(d), d.work)
    requires Selection(Head(d).active).Generation?
    ensures var (d1, r) := ReloadStep(d, Never);
            && (r.Ok? <==> PointerRecoverable(d.work, Head(d).active.value) && Fits(Head(d)))
            && (r.Ok? ==> r.value == HeadSnapshot(Head(d)))
            && d1.history == d.history
            && (PointerRecoverable(d.work, Head(d).active.value) ==> d1.work.active == Head(d).active)
            && (!PointerRecoverable(d.work, Head(d).active.value) ==> d1 == d)
  {
    RecoverOutcome(d);
    if RecoverStep(d, Never).1 && Fits(Head(d)) {
      RecoveredSnapshot(Head(d), RecoverStep(d, Never).0.work);
    }
  }

  // ----- Publication -----

  /** Which calls of Publish advance HEAD: those that pass every check and do not stop before it. */
  predicate Advances(d: Disk, c: Candidate, expected: Selected, stop: Stop) {
    Admission(d, c, expected) == None && Materialized(d, c, stop).1 && stop != BeforeHead
  }

  lemma CommitHistory(d: Disk, c: Candidate, stop: Stop)
    requires d.history != [] && Buildable(c) && BuiltRevision(c) in d.work.gens && stop != BeforeHead
    ensures var (d1, r) := CommitStep(d, c, stop);
            && d1.history == d.history + [CommittedTree(Head(d), d.work, c)]
            && d1.work.gens == d.work.gens
            && Head(d1).active == Some(Active(BuiltActive(c), 0, c.activeSize))
            && Selection(Head(d1).active) == Generation(BuiltRevision(c))
            && (r.Ok? ==> r.value == BuiltRevision(c))
            && (d1.work.active == Head(d1).active
                || (d1.work.active == d.work.active && (stop == AfterHead || stop.InPointerTemp?)))
            && (r.Ok? ==> d1.work.active == Head(d1).active)
            && (stop == Never || stop == AfterHead ==> d1.work.others == d.work.others)
  {
  }

  /** HEAD gets at most one new commit, and then it selects the candidate's generation; a call that
      does not advance HEAD fails and leaves the working pointer alone. */
  lemma PublishHistory(d: Disk, c: Candidate, expected: Selected, stop: Stop)
    ensures var (d1, r) := PublishStep(d, c, expected, stop);
            if Advances(d, c, expected, stop) then
              && |d1.history| == |d.history| + 1 && d1.history[..|d.history|] == d.history
              && Head(d1).active == Some(Active(BuiltActive(c), 0, c.activeSize))
              && Selection(Head(d1).active) == Generation(BuiltRevision(c))
              && (r.Ok? ==> r.value == BuiltRevision(c) && d1.work.active == Head(d1).active)
            else d1.history == d.history && r.Err? && d1.work.active == d.work.active
  {
    hide Clean, Verified, Buildable, BuiltDir, BuiltRevision, BuiltActive;
    if Admission(d, c, expected) == None {
      MaterializedEffects(d, c, stop);
    }
    if Advances(d, c, expected, stop) {
      CommitHistory(Materialized(d, c, stop).0, c, stop);
    }
  }

  /** Materialization touches nothing but temporary files and, at most, one new generation directory. */
  lemma MaterializedEffects(d: Disk, c: Candidate, stop: Stop)
    requires Buildable(c)
    ensures var (d1, ok) := Materialized(d, c, stop);
            && d1.history == d.history && d1.work.active == d.work.active && d1.work.others == d.work.others
            && (d1.work.gens == d.work.gens
                || (BuiltRevision(c) !in d.work.gens
                    && d1.work.gens == d.work.gens[BuiltRevision(c) := BuiltDir(c)]))
  {
    hide Verified, BuiltDir, Buildable;
  }

  /** The directory Publish commits from verifies: the one it wrote, or a verified one that was there. */
  lemma PublishedDir(d: Disk, c: Candidate, stop: Stop)
    requires Buildable(c) && Materialized(d, c, stop).1
    ensures var gens := Materialized(d, c, stop).0.work.gens;
            && Verified(gens[BuiltRevision(c)], BuiltRevision(c))
            && gens[BuiltRevision(c)][ManifestEntry] == Manifest(BuiltManifest(c), 0)
  {
    BuiltVerifies(c);
  }

  /** Adding a built generation to a clean access tree keeps it clean. */
  lemma MaterializedStaysClean(d: Disk, c: Candidate, stop: Stop)
    requires d.history != [] && Clean(Head(d), d.work) && Buildable(c)
    ensures Clean(Head(d), Materialized(d, c, stop).0.work)
  {
    MaterializedEffects(d, c, stop);
    BuiltVerifies(c);
    hide BuiltDir, Buildable, Materialized, BuiltRevision, Verified;
  }

  /** The committed generation has every listed file, as the working directory does. */
  lemma CommittedIsComplete(head: Tree, work: Tree, c: Candidate)
    requires Buildable(c) && Clean(head, work)
    requires var rev := BuiltRevision(c);
             rev in work.gens && Verified(work.gens[rev], rev)
             && work.gens[rev][ManifestEntry] == Manifest(BuiltManifest(c), 0)
    ensures var rev, t := BuiltRevision(c), CommittedTree(head, work, c);
            rev in t.gens && Complete(t.gens[rev], rev) && t.gens[rev][ManifestEntry] == Manifest(BuiltManifest(c), 0)
  {
    hide Clean, Buildable, BuiltManifest, SafePolicyId;
    var rev, m := BuiltRevision(c), BuiltManifest(c);
    var t := CommittedTree(head, work, c);
    var dir, blobs := work.gens[rev], Blobs(work.gens[rev], m);
    assert ManifestEntry in blobs;
    forall i | 0 <= i < |m.policies|
      ensures RefOk(m.policies[i], t.gens[rev])
    {
      assert RefOk(m.policies[i], dir);
      assert Listed(m, m.policies[i].file);
      assert m.policies[i].file in blobs;
    }
  }

  lemma CommittedMatchesWork(head: Tree, work: Tree, c: Candidate)
    requires Buildable(c) && Clean(head, work) && BuiltRevision(c) in work.gens
    ensures var rev, m := BuiltRevision(c), BuiltManifest(c);
            Matches(work.gens[rev], Blobs(CommittedTree(head, work, c).gens[rev], m))
  {
    hide Buildable, BuiltManifest, BuiltRevision, BuiltActive, Verified;
    var rev, m := BuiltRevision(c), BuiltManifest(c);
    var dir, blobs := work.gens[rev], Blobs(work.gens[rev], m);
    var t := CommittedTree(head, work, c);
    forall e | e in Blobs(t.gens[rev], m)
      ensures e in dir && dir[e] == t.gens[rev][e]
    {
      assert e in blobs || EntryTracked(head, rev, e);
    }
  }

  lemma CommittedIsSound(head: Tree, work: Tree, c: Candidate)
    requires Buildable(c) && Clean(head, work)
    requires var rev := BuiltRevision(c);
             rev in work.gens && Verified(work.gens[rev], rev)
             && work.gens[rev][ManifestEntry] == Manifest(BuiltManifest(c), 0)
    ensures SoundTree(CommittedTree(head, work, c))
    ensures WorkMatches(CommittedTree(head, work, c), work)
  {
    hide Clean, Verified, Complete, Matches, Blobs;
    CommittedIsComplete(head, work, c);
    CommittedMatchesWork(head, work, c);
  }

  lemma PointerSurvives(work: Tree, work': Tree)
    requires PointerOk(work) && work'.active == work.active
    requires forall rev :: rev in work.gens ==> rev in work'.gens && work'.gens[rev] == work.gens[rev]
    ensures PointerOk(work')
  {
  }

  /** Publication from a sound disk, wherever it stops, leaves a sound disk. */
  lemma PublishKeepsSound(d: Disk, c: Candidate, expected: Selected, stop: Stop)
    requires Sound(d)
    ensures Sound(PublishStep(d, c, expected, stop).0)
  {
    hide BuiltDir, BuiltRevision, BuiltManifest, Clean, Verified, SoundTree, WorkMatches, Buildable, PointerStep;
    hide PointerOk, CommittedTree, CommitStep;
    if Admission(d, c, expected) == None {
      var (d1, ok) := Materialized(d, c, stop);
      MaterializedKeepsSound(d, c, stop);
      if ok {
        PublishedDir(d, c, stop);
        CommitKeepsSound(d1, c, stop);
      }
    }
  }

  lemma MaterializedKeepsSound(d: Disk, c: Candidate, stop: Stop)
    requires Sound(d) && d.history != [] && Clean(Head(d), d.work) && Buildable(c)
    ensures Sound(Materialized(d, c, stop).0) && Clean(Head(d), Materialized(d, c, stop).0.work)
  {
    hide Clean, BuiltDir, Buildable, SoundTree, WorkMatches, BuiltRevision;
    MaterializedStaysClean(d, c, stop);
    MaterializedEffects(d, c, stop);
    CleanMatches(Head(d), Materialized(d, c, stop).0.work);
    PointerSurvives(d.work, Materialized(d, c, stop).0.work);
  }

  lemma CleanMatches(head: Tree, work: Tree)
    requires SoundTree(head) && Clean(head, work)
    ensures WorkMatches(head, work)
  {
  }

  lemma CommitKeepsSound(d: Disk, c: Candidate, stop: Stop)
    requires Sound(d) && d.history != [] && Buildable(c) && Clean(Head(d), d.work)
    requires var rev := BuiltRevision(c);
             rev in d.work.gens && Verified(d.work.gens[rev], rev)
             && d.work.gens[rev][ManifestEntry] == Manifest(BuiltManifest(c), 0)
    ensures Sound(CommitStep(d, c, stop).0)
  {
    hide Clean, Buildable, BuiltDir;
    if stop != BeforeHead {
      CommittedIsSound(Head(d), d.work, c);
      CommitHistory(d, c, stop);
      var d1 := CommitStep(d, c, stop).0;
      var t := CommittedTree(Head(d), d.work, c);
      assert Head(d1) == t;
      assert WorkMatches(t, d1.work);
      if d1.work.active == d.work.active {
        PointerSurvives(d.work, d1.work);
      }
    }
  }

  // ----- Whole runs -----

  /** A call under the transaction lock; it may stop anywhere. A record commit moves HEAD but leaves the
      access tree as it is (module GitCommits). */
  datatype Call =
    | PublishCall(c: Candidate, expected: Selected, publishStop: Stop)
    | ReloadCall(reloadStop: Stop)
    | RecordCommit

  function StepCall(d: Disk, call: Call): Disk {
    match call
    case PublishCall(c, expected, stop) => PublishStep(d, c, expected, stop).0
    case ReloadCall(stop) => ReloadStep(d, stop).0
    case RecordCommit =>
      d.(history := d.history + [if d.history == [] then Tree(None, map[], map[]) else Head(d)])
  }

  function RunCalls(d: Disk, calls: seq<Call>): Disk
    decreases |calls|
  {
    if calls == [] then d else RunCalls(StepCall(d, calls[0]), calls[1..])
  }

  lemma StepCallKeepsSound(d: Disk, call: Call)
    requires Sound(d)
    ensures Sound(StepCall(d, call)) && d.history <= StepCall(d, call).history
  {
    hide PublishStep, RecoverStep, Advances, BuiltActive, BuiltRevision, Buildable;
    hide PointerOk, SoundTree, WorkMatches;
    match call
    case PublishCall(c, expected, stop) =>
      PublishHistory(d, c, expected, stop);
      PublishKeepsSound(d, c, expected, stop);
    case ReloadCall(stop) => RecoverKeepsSound(d, stop);
    case RecordCommit => UnbornIsSound(d.work);
  }

  lemma UnbornIsSound(work: Tree)
    ensures SoundTree(Tree(None, map[], map[])) && WorkMatches(Tree(None, map[], map[]), work)
  {
  }

  lemma {:induction false} RunKeepsSound(d: Disk, calls: seq<Call>)
    requires Sound(d)
    ensures Sound(RunCalls(d, calls)) && d.history <= RunCalls(d, calls).history
    decreases |calls|
  {
    if calls != [] {
      StepCallKeepsSound(d, calls[0]);
      RunKeepsSound(StepCall(d, calls[0]), calls[1..]);
    }
  }

  /** After any run of publications, reloads and record commits, each stopped anywhere, the next Reload
      returns exactly the generation HEAD names: its revision, its manifest, its committed policies. The only
      exception is an active manifest that was published although it is too large to be read. */
  lemma EveryRunRecovers(d: Disk, calls: seq<Call>)
    requires Sound(d)
    ensures var d1 := RunCalls(d, calls);
            && Sound(d1) && d.history <= d1.history
            && (d1.history != [] && Selection(Head(d1).active).Generation? ==>
                  ReloadStep(d1, Never).1 == if Fits(Head(d1)) then Ok(HeadSnapshot(Head(d1))) else Err(Unavailable))
  {
    RunKeepsSound(d, calls);
    var d1 := RunCalls(d, calls);
    if d1.history != [] && Selection(Head(d1).active).Generation? {
      ReloadSucceedsIff(d1);
    }
  }

  /** The policies of the generation a candidate publishes are exactly the candidate's. */
  lemma PublishedPolicies(t: Tree, c: Candidate)
    requires SoundTree(t) && Buildable(c) && Selection(t.active) == Generation(BuiltRevision(c))
    ensures HeadSnapshot(t).config == BuiltActive(c)
    ensures var config := HeadSnapshot(t).config;
            config.enabled == Some(true) && config.database == c.database && config.realm == c.realm
    ensures |HeadSnapshot(t).policies| == |c.policies|
    ensures forall k :: 0 <= k < |c.policies| ==>
              exists i :: 0 <= i < |c.policies| && HeadSnapshot(t).policies[k] == c.policies[i].doc
    ensures SortedBy(HeadSnapshot(t).policies, (d: Doc) => d.name)
  {
    var rev, m := BuiltRevision(c), BuiltManifest(c);
    assert t.gens[rev][ManifestEntry].m == m;
    SortedRefsCount(c);
    SortBySorts(Refs(c.policies), IdOf);
    forall k | 0 <= k < |c.policies|
      ensures exists i :: 0 <= i < |c.policies| && HeadSnapshot(t).policies[k] == c.policies[i].doc
      ensures HeadSnapshot(t).policies[k].name == IdOf(m.policies[k])
    {
      var i := SortedRefs(c, k);
      assert RefOk(m.policies[k], t.gens[rev]);
      assert HeadSnapshot(t).policies[k] == c.policies[i].doc;
    }
  }

  /** A publication stopped at or after the HEAD update: the next Reload returns the new generation,
      with the candidate's manifest. */
  lemma StoppedAfterHead(d: Disk, c: Candidate, expected: Selected, stop: Stop)
    requires Sound(d) && Advances(d, c, expected, stop)
    ensures var d1 := PublishStep(d, c, expected, stop).0;
            && Sound(d1) && d1.history != [] && Selection(Head(d1).active) == Generation(BuiltRevision(c))
            && ReloadStep(d1, Never).1 ==
               (if c.activeSize <= MAX_MANIFEST_SIZE then Ok(HeadSnapshot(Head(d1))) else Err(Unavailable))
            && HeadSnapshot(Head(d1)).revision == BuiltRevision(c)
            && HeadSnapshot(Head(d1)).config == BuiltActive(c)
  {
    hide Clean, Verified, BuiltDir, BuiltManifest, BuiltRevision, BuiltActive, PublishStep, ReloadStep, SoundTree, WorkMatches;
    PublishHistory(d, c, expected, stop);
    PublishKeepsSound(d, c, expected, stop);
    var d1 := PublishStep(d, c, expected, stop).0;
    PublishedPolicies(Head(d1), c);
    EveryRunRecovers(d1, []);
    assert RunCalls(d1, []) == d1;
  }

  /** A publication stopped, or refused, before the HEAD update: the next Reload returns the old one. */
  lemma StoppedBeforeHead(d: Disk, c: Candidate, expected: Selected, stop: Stop)
    requires Sound(d) && !Advances(d, c, expected, stop)
    requires d.history != [] && Selection(Head(d).active).Generation?
    ensures ReloadStep(PublishStep(d, c, expected, stop).0, Never).1 ==
            if Fits(Head(d)) then Ok(HeadSnapshot(Head(d))) else Err(Unavailable)
  {
    hide Advances, BuiltActive, BuiltRevision, Buildable, PublishStep, ReloadStep, SoundTree, WorkMatches, PointerOk;
    PublishHistory(d, c, expected, stop);
    PublishKeepsSound(d, c, expected, stop);
    var d1 := PublishStep(d, c, expected, stop).0;
    EveryRunRecovers(d1, []);
    assert RunCalls(d1, []) == d1;
  }

  lemma FlatHeadAdvances(d: Disk, c: Candidate)
    requires Advances(d, c, Nothing, AfterHead)
    ensures var d1 := PublishStep(d, c, Nothing, AfterHead).0;
            && d1.history != [] && SoundTree(Head(d1)) && WorkMatches(Head(d1), d1.work)
            && Selection(Head(d1).active).Generation? && d1.work.active == d.work.active
            && Selection(d1.work.active) == Nothing
  {
    hide Clean, Verified, Buildable, BuiltDir, BuiltManifest, BuiltRevision, SoundTree, WorkMatches;
    hide Advances, Admission, Materialized, PublishStep, CommitStep, CommittedTree;
    AdvancingPublication(d, c, Nothing, AfterHead);
    var d0 := Materialized(d, c, AfterHead).0;
    MaterializedStaysClean(d, c, AfterHead);
    MaterializedEffects(d, c, AfterHead);
    PublishedDir(d, c, AfterHead);
    CommittedIsSound(Head(d), d0.work, c);
    CommitHistory(d0, c, AfterHead);
    CommitsAfterHead(d0, c);
  }

  lemma AdvancingPublication(d: Disk, c: Candidate, expected: Selected, stop: Stop)
    requires Advances(d, c, expected, stop)
    ensures d.history != [] && Clean(Head(d), d.work) && Buildable(c) && Materialized(d, c, stop).1 && stop != BeforeHead
    ensures d.work.active == Head(d).active && Selection(Head(d).active) == expected
    ensures PublishStep(d, c, expected, stop) == CommitStep(Materialized(d, c, stop).0, c, stop)
  {
  }

  lemma CommitsAfterHead(d: Disk, c: Candidate)
    requires d.history != [] && Buildable(c) && BuiltRevision(c) in d.work.gens
    ensures CommitStep(d, c, AfterHead).0.work == d.work
  {
  }

  /** The premise on the pointer is needed: a repository on flat manifests that publishes its first
      generation and stops after the HEAD update is refused by Reload until its pointer is removed. */
  lemma FlatPointerIsRefused(d: Disk, c: Candidate)
    requires Advances(d, c, Nothing, AfterHead) && d.work.active.Some?
    ensures var d1 := PublishStep(d, c, Nothing, AfterHead).0;
            && ReloadStep(d1, Never).1.Err?
            && (ReloadStep(d1.(work := d1.work.(active := None)), Never).1.Ok? <==> c.activeSize <= MAX_MANIFEST_SIZE)
  {
    FlatHeadAdvances(d, c);
    var d1 := PublishStep(d, c, Nothing, AfterHead).0;
    ReloadSucceedsIff(d1);
    ReloadSucceedsIff(d1.(work := d1.work.(active := None)));
  }

  /** Such a repository exists. */
  lemma FlatPointerWitness() returns (d: Disk, c: Candidate)
    ensures Advances(d, c, Nothing, AfterHead)
    ensures d.work.active.Some?
    ensures ReloadStep(PublishStep(d, c, Nothing, AfterHead).0, Never).1.Err?
  {
    var flat := Active(ActiveManifest(Some(true), "world", "", Nothing, [FlatPath("readers.yaml")]), 0, 100);
    var t := Tree(Some(flat), map[], map["readers.yaml" := Policy(Doc("readers", "world", ""), 0)]);
    d := Disk([t], t, []);
    c := Candidate(true, "world", "", [Policy(Doc("readers", "world", ""), 0)], 300);
    assert SafePolicyId("readers");
    FlatPointerIsRefused(d, c);
  }
}
