/** What a publication publishes (access_generation.go): the snapshot that the next Reload returns, stated
    from the candidate alone; which candidates are published; and what a revision stands for. */
module Publications {
  import opened Common
  import opened Ordering
  import opened Generations
  import opened GenerationRecovery

  function Mapped<A, B>(f: A -> B, s: seq<A>): (r: seq<B>)
    ensures |r| == |s| && forall i :: 0 <= i < |s| ==> r[i] == f(s[i])
  {
    seq(|s|, i requires 0 <= i < |s| => f(s[i]))
  }

  function Without<A>(s: seq<A>, i: nat): seq<A>
    requires i < |s|
  {
    s[..i] + s[i + 1..]
  }

  lemma WithoutOne<A>(s: seq<A>, i: nat)
    requires i < |s|
    ensures multiset(s) == multiset{s[i]} + multiset(Without(s, i))
  {
    assert s == s[..i] + ([s[i]] + s[i + 1..]);
  }

  lemma MappedWithoutOne<A, B>(f: A -> B, s: seq<A>, i: nat)
    requires i < |s|
    ensures Mapped(f, Without(s, i)) == Without(Mapped(f, s), i)
  {
  }

  /** Rearranging what is mapped rearranges the result. */
  lemma {:induction false} MappedRearranged<A, B>(f: A -> B, a: seq<A>, b: seq<A>)
    requires multiset(a) == multiset(b)
    ensures multiset(Mapped(f, a)) == multiset(Mapped(f, b))
    decreases |a|
  {
    if a == [] {
      assert |multiset(b)| == 0;
    } else {
      assert a[0] in multiset(b);
      var i :| 0 <= i < |b| && b[i] == a[0];
      hide Without, Mapped;
      WithoutOne(a, 0);
      WithoutOne(b, i);
      SmallerWithout(a, 0);
      Cancelled(a[0], multiset(Without(a, 0)), multiset(Without(b, i)));
      MappedRearranged(f, Without(a, 0), Without(b, i));
      MappedWithoutOne(f, a, 0);
      MappedWithoutOne(f, b, i);
      WithoutOne(Mapped(f, a), 0);
      WithoutOne(Mapped(f, b), i);
    }
  }

  lemma Cancelled<A>(x: A, m: multiset<A>, n: multiset<A>)
    requires multiset{x} + m == multiset{x} + n
    ensures m == n
  {
    assert m == (multiset{x} + m) - multiset{x};
  }

  lemma SmallerWithout<A>(s: seq<A>, i: nat)
    requires i < |s|
    ensures |Without(s, i)| == |s| - 1
  {
  }

  // ----- The published snapshot -----

  /** The documents of a candidate's policies. */
  function DocsOf(items: seq<Blob>): (docs: seq<Doc>)
    requires forall i :: 0 <= i < |items| ==> items[i].Policy?
    ensures |docs| == |items|
    ensures forall i :: 0 <= i < |items| ==> docs[i] == items[i].doc
  {
    seq(|items|, i requires 0 <= i < |items| => items[i].doc)
  }

  /** The snapshot is of the candidate: enabled, with its database and realm, and with its policies in the order
      of their names, each read from its own file in the generation. */
  ghost predicate IsOf(snapshot: Snapshot, c: Candidate)
  {
    var config := snapshot.config;
    && config.enabled == Some(true) && config.database == c.database && config.realm == c.realm
    && config.selected == Generation(snapshot.revision)
    && (forall i :: 0 <= i < |c.policies| ==> c.policies[i].Policy?)
    && multiset(snapshot.policies) == multiset(DocsOf(c.policies))
    && (forall i, j :: 0 <= i < j < |snapshot.policies| ==> TextBefore(snapshot.policies[i].name, snapshot.policies[j].name))
    && |config.policies| == |snapshot.policies|
    && (forall k :: 0 <= k < |config.policies| ==>
          config.policies[k] == InGeneration(snapshot.revision, PolicyEntry(snapshot.policies[k].name)))
  }

  /** The document that a reference commits to. */
  function ReferredDoc(p: PolicyRef): Doc {
    if p.digest.of.Canonical? then p.digest.of.doc else Doc("", "", "")
  }

  lemma SortedDocs(c: Candidate)
    requires Buildable(c)
    ensures multiset(Mapped(ReferredDoc, BuiltManifest(c).policies)) == multiset(DocsOf(c.policies))
    ensures forall k :: 0 <= k < |BuiltManifest(c).policies| ==>
              BuiltManifest(c).policies[k].id == ReferredDoc(BuiltManifest(c).policies[k]).name
    ensures forall i, j :: 0 <= i < j < |BuiltManifest(c).policies| ==>
              TextBefore(BuiltManifest(c).policies[i].id, BuiltManifest(c).policies[j].id)
  {
    var refs := Refs(c.policies);
    var sorted := SortBy(refs, IdOf);
    assert Mapped(ReferredDoc, refs) == DocsOf(c.policies);
    MappedRearranged(ReferredDoc, sorted, refs);
    SortBySorts(refs, IdOf);
    DistinctRefs(c);
    PermutationKeepsDistinct(refs, sorted, IdOf);
    forall k | 0 <= k < |sorted|
      ensures sorted[k].id == ReferredDoc(sorted[k]).name
    {
      var i := SortedRefs(c, k);
    }
    forall i, j | 0 <= i < j < |sorted|
      ensures TextBefore(sorted[i].id, sorted[j].id)
    {
      assert IdOf(sorted[i]) != IdOf(sorted[j]);
      CompareIsTextOrder(sorted[i].id, sorted[j].id);
    }
  }

  /** A sound tree that selects the candidate's generation has the candidate's snapshot. */
  lemma SnapshotIsOf(t: Tree, c: Candidate)
    requires SoundTree(t) && Buildable(c) && Selection(t.active) == Generation(BuiltRevision(c))
    ensures IsOf(HeadSnapshot(t), c) && HeadSnapshot(t).revision == BuiltRevision(c)
  {
    var rev, m, snapshot := BuiltRevision(c), BuiltManifest(c), HeadSnapshot(t);
    assert t.gens[rev][ManifestEntry].m == m;
    SortedDocs(c);
    forall k | 0 <= k < |m.policies|
      ensures snapshot.policies[k] == ReferredDoc(m.policies[k]) && m.policies[k].file == PolicyEntry(snapshot.policies[k].name)
    {
      assert RefOk(m.policies[k], t.gens[rev]);
    }
    assert snapshot.policies == Mapped(ReferredDoc, m.policies);
  }

  /** When a publication moves HEAD, wherever it stops then, the next Reload returns the candidate's snapshot,
      unless the active manifest is too large to be read; a publication that succeeds moves HEAD. */
  lemma PublishedSnapshot(d: Disk, c: Candidate, expected: Selected, stop: Stop)
    requires Sound(d)
    ensures var (d1, r) := PublishStep(d, c, expected, stop);
            && (r.Ok? ==> d1.history != d.history)
            && (d1.history != d.history ==>
                  var snapshot := ReloadStep(d1, Never).1;
                  && (snapshot.Ok? <==> c.activeSize <= MAX_MANIFEST_SIZE)
                  && (snapshot.Ok? ==> IsOf(snapshot.value, c))
                  && (snapshot.Ok? && r.Ok? ==> snapshot.value.revision == r.value))
  {
    hide Clean, Verified, BuiltDir, BuiltManifest, BuiltRevision, BuiltActive, PublishStep, ReloadStep, SoundTree, WorkMatches;
    hide IsOf, Advances, Buildable, HeadSnapshot;
    PublishHistory(d, c, expected, stop);
    if Advances(d, c, expected, stop) {
      AdvancingPublication(d, c, expected, stop);
      StoppedAfterHead(d, c, expected, stop);
      SnapshotIsOf(Head(PublishStep(d, c, expected, stop).0), c);
    }
  }

  /** The candidate of the last publication of a run that moved HEAD. */
  function LastPublished(d: Disk, calls: seq<Call>): Option<Candidate>
    decreases |calls|
  {
    if calls == [] then None
    else
      var last, before := calls[|calls| - 1], RunCalls(d, calls[..|calls| - 1]);
      if last.PublishCall? && StepCall(before, last).history != before.history then Some(last.c)
      else LastPublished(d, calls[..|calls| - 1])
  }

  lemma {:induction false} RunEndsWith(d: Disk, calls: seq<Call>)
    requires calls != []
    ensures RunCalls(d, calls) == StepCall(RunCalls(d, calls[..|calls| - 1]), calls[|calls| - 1])
    decreases |calls|
  {
    hide StepCall;
    if |calls| > 1 {
      RunEndsWith(StepCall(d, calls[0]), calls[1..]);
      assert calls[..|calls| - 1][1..] == calls[1..][..|calls| - 2];
    }
  }

  /** HEAD's active manifest is the candidate's. */
  ghost predicate Selects(t: Tree, c: Candidate)
  {
    Buildable(c) && t.active.Some? && Selection(t.active) == Generation(BuiltRevision(c))
    && t.active.value.Active? && t.active.value.size == c.activeSize
  }

  lemma CallSelects(d: Disk, call: Call, last: Option<Candidate>)
    requires Sound(d) && (last.Some? ==> d.history != [] && Selects(Head(d), last.value))
    ensures var d1 := StepCall(d, call);
            var next := if call.PublishCall? && d1.history != d.history then Some(call.c) else last;
            next.Some? ==> d1.history != [] && Selects(Head(d1), next.value)
  {
    hide PublishStep, RecoverStep, BuiltRevision, BuiltActive, Buildable, Sound, Advances;
    match call
    case PublishCall(c, expected, stop) =>
      PublishHistory(d, c, expected, stop);
      if Advances(d, c, expected, stop) {
        AdvancingPublication(d, c, expected, stop);
      }
    case ReloadCall(stop) => RecoverKeepsSound(d, stop);
    case RecordCommit =>
  }

  lemma {:induction false} RunSelects(d: Disk, calls: seq<Call>)
    requires Sound(d)
    ensures var d1, last := RunCalls(d, calls), LastPublished(d, calls);
            last.Some? ==> d1.history != [] && Selects(Head(d1), last.value)
    decreases |calls|
  {
    hide StepCall, Selects, Sound;
    if calls != [] {
      var n := |calls| - 1;
      RunSelects(d, calls[..n]);
      RunKeepsSound(d, calls[..n]);
      RunEndsWith(d, calls);
      CallSelects(RunCalls(d, calls[..n]), calls[n], LastPublished(d, calls[..n]));
    }
  }

  /** After any run of publications, reloads and record commits, each stopped anywhere, the next Reload returns the
      snapshot of the last candidate whose publication moved HEAD, unless its active manifest is too large. */
  lemma LastPublishedIsReloaded(d: Disk, calls: seq<Call>)
    requires Sound(d) && LastPublished(d, calls).Some?
    ensures var c, snapshot := LastPublished(d, calls).value, ReloadStep(RunCalls(d, calls), Never).1;
            && (snapshot.Ok? <==> c.activeSize <= MAX_MANIFEST_SIZE)
            && (snapshot.Ok? ==> IsOf(snapshot.value, c))
  {
    hide SoundTree, IsOf, RunCalls, LastPublished, ReloadStep, HeadSnapshot, BuiltRevision, Buildable;
    var c, d1 := LastPublished(d, calls).value, RunCalls(d, calls);
    RunSelects(d, calls);
    EveryRunRecovers(d, calls);
    SnapshotIsOf(Head(d1), c);
  }

  // ----- Which candidates are published -----

  /** A candidate that can be published: enabled, for a database, with 1 to 100 policies for that database under
      different safe names, in a realm that is absent or at most 256 bytes between characters that are not white
      space. */
  predicate Publishable(c: Candidate) {
    && c.enabled && |c.database| > 0 && 1 <= |c.policies| <= 100
    && (|c.realm| > 0 ==> !IsSpace(c.realm[0]) && !IsSpace(c.realm[|c.realm| - 1]) && ByteLength(c.realm) <= 256)
    && forall i :: 0 <= i < |c.policies| ==>
         && c.policies[i].Policy? && c.policies[i].doc.database == c.database
         && 1 <= |c.policies[i].doc.name| <= 128
         && (forall k :: 0 <= k < |c.policies[i].doc.name| ==> SafeIdChar(c.policies[i].doc.name[k], k == 0))
         && forall j :: 0 <= j < i ==> c.policies[j].Policy? && c.policies[j].doc.name != c.policies[i].doc.name
  }

  lemma PublishableIff(c: Candidate)
    ensures Publishable(c) <==> Buildable(c)
  {
    if Publishable(c) {
      assert forall i :: 0 <= i < |c.policies| ==> c.policies[i].Policy? && PolicyAccepted(c.policies[i], c.database);
    }
    if Buildable(c) {
      assert forall i :: 0 <= i < |c.policies| ==> PolicyAccepted(c.policies[i], c.database);
    }
  }

  /** A publication that is not stopped succeeds exactly when HEAD selects what is expected, the access tree is
      clean, the candidate can be published, and a directory already there for its revision verifies; a candidate
      that cannot be published leaves the disk as it was. A conflict is reported exactly when HEAD selects something
      else, and a dirty tree exactly when that is what is wrong then. */
  lemma PublishSucceedsIff(d: Disk, c: Candidate, expected: Selected)
    ensures var (d1, r) := PublishStep(d, c, expected, Never);
            && (r.Ok? <==>
                && d.history != [] && Selection(Head(d).active) == expected && Clean(Head(d), d.work) && Publishable(c)
                && (BuiltRevision(c) in d.work.gens ==> Verified(d.work.gens[BuiltRevision(c)], BuiltRevision(c))))
            && (!Publishable(c) ==> d1 == d && r.Err?)
            && (r == Err(Conflict) <==> (if d.history == [] then Nothing else Selection(Head(d).active)) != expected)
            && (r == Err(Dirty) <==> d.history != [] && Selection(Head(d).active) == expected && !Clean(Head(d), d.work))
            && (r.Err? && r.error != Conflict ==> d1.history == d.history)
  {
    hide Clean, Verified, BuiltDir, BuiltManifest, BuiltRevision, BuiltActive, Publishable, Buildable, CommittedTree;
    PublishableIff(c);
  }

  /** A committed file that is modified or missing, or another file in a generation that does not verify, blocks
      every publication. */
  lemma DirtyBlocks(d: Disk, c: Candidate, expected: Selected, stop: Stop, rev: Sha, e: Entry)
    requires d.history != []
    requires || (EntryTracked(Head(d), rev, e)
                 && (rev !in d.work.gens || e !in d.work.gens[rev] || d.work.gens[rev][e] != Head(d).gens[rev][e]))
             || (rev in d.work.gens && e in d.work.gens[rev] && !EntryTracked(Head(d), rev, e) && !Verified(d.work.gens[rev], rev))
             || d.work.active != Head(d).active
    ensures PublishStep(d, c, expected, stop).0 == d && PublishStep(d, c, expected, stop).1.Err?
  {
    hide Verified, BuiltDir, BuiltManifest, Buildable, CommittedTree, Materialized, CommitStep;
  }

  // ----- What a revision stands for -----

  /** Two candidates have the same revision exactly when they agree on database, realm and policies, in whatever
      order and layout. */
  lemma SameRevisionIff(c: Candidate, c': Candidate)
    requires Publishable(c) && Publishable(c')
    ensures Buildable(c) && Buildable(c')
    ensures BuiltRevision(c) == BuiltRevision(c') <==>
            && c.database == c'.database && c.realm == c'.realm
            && multiset(DocsOf(c.policies)) == multiset(DocsOf(c'.policies))
  {
    PublishableIff(c);
    PublishableIff(c');
    assert forall i :: 0 <= i < |c.policies| ==> c.policies[i].Policy?;
    assert forall i :: 0 <= i < |c'.policies| ==> c'.policies[i].Policy?;
    hide Publishable, Buildable, BuiltManifest, BuiltRevision;
    if BuiltRevision(c) == BuiltRevision(c') {
      RevisionTells(c, c');
    }
    if c.database == c'.database && c.realm == c'.realm && multiset(DocsOf(c.policies)) == multiset(DocsOf(c'.policies)) {
      SameRefs(c, c');
      RevisionIgnoresOrder(c, c');
    }
  }

  lemma RevisionTells(c: Candidate, c': Candidate)
    requires Buildable(c) && Buildable(c') && BuiltRevision(c) == BuiltRevision(c')
    ensures c.database == c'.database && c.realm == c'.realm
    ensures multiset(DocsOf(c.policies)) == multiset(DocsOf(c'.policies))
  {
    hide Buildable;
    assert BuiltManifest(c) == BuiltManifest(c');
    SortedDocs(c);
    SortedDocs(c');
    hide SortBy;
  }

  lemma SameRefs(c: Candidate, c': Candidate)
    requires Buildable(c) && Buildable(c') && multiset(DocsOf(c.policies)) == multiset(DocsOf(c'.policies))
    ensures multiset(Refs(c.policies)) == multiset(Refs(c'.policies))
  {
    assert Refs(c.policies) == Mapped(RefOf, DocsOf(c.policies));
    assert Refs(c'.policies) == Mapped(RefOf, DocsOf(c'.policies));
    MappedRearranged(RefOf, DocsOf(c.policies), DocsOf(c'.policies));
  }

  // ----- What a publication leaves alone -----

  /** A publication that moves HEAD adds one tree. It keeps every other generation and every other file of the access
      directory, and of its own generation it replaces nothing but the files that the candidate lists. */
  lemma PublishKeepsOthers(d: Disk, c: Candidate, expected: Selected, stop: Stop)
    requires PublishStep(d, c, expected, stop).0.history != d.history
    ensures Publishable(c) && Buildable(c) && d.history != []
    ensures var d1 := PublishStep(d, c, expected, stop).0;
            && |d1.history| == |d.history| + 1 && d1.history[..|d.history|] == d.history
            && Head(d1).others == Head(d).others
            && (forall rev :: rev != BuiltRevision(c) ==>
                  (rev in Head(d1).gens <==> rev in Head(d).gens) && (rev in Head(d).gens ==> Head(d1).gens[rev] == Head(d).gens[rev]))
            && (forall e :: EntryTracked(Head(d), BuiltRevision(c), e) ==> EntryTracked(Head(d1), BuiltRevision(c), e))
  {
    hide BuiltDir, BuiltManifest, BuiltRevision, BuiltActive, Publishable, Buildable, Clean, Verified, CommitStep, CommittedTree;
    PublishHistory(d, c, expected, stop);
    PublishableIff(c);
    AdvancingPublication(d, c, expected, stop);
    MaterializedEffects(d, c, stop);
    CommitHistory(Materialized(d, c, stop).0, c, stop);
    CommitKeepsOthers(Head(d), Materialized(d, c, stop).0.work, c);
  }

  lemma CommitKeepsOthers(head: Tree, work: Tree, c: Candidate)
    requires Buildable(c) && BuiltRevision(c) in work.gens
    ensures var t := CommittedTree(head, work, c);
            && t.others == head.others
            && (forall rev :: rev != BuiltRevision(c) ==>
                  (rev in t.gens <==> rev in head.gens) && (rev in head.gens ==> t.gens[rev] == head.gens[rev]))
            && (forall e :: EntryTracked(head, BuiltRevision(c), e) ==> EntryTracked(t, BuiltRevision(c), e))
  {
    hide Buildable, BuiltManifest, BuiltActive, BuiltRevision;
  }

  /** A publication of a new revision commits the manifest and one file for each policy, both as the encoder writes them,
      and nothing else in that generation. */
  lemma NewGenerationFiles(d: Disk, c: Candidate, expected: Selected, stop: Stop)
    requires PublishStep(d, c, expected, stop).0.history != d.history
    requires Publishable(c) && Buildable(c) && d.history != []
    requires BuiltRevision(c) !in d.work.gens && BuiltRevision(c) !in Head(d).gens
    ensures var rev, t := BuiltRevision(c), Head(PublishStep(d, c, expected, stop).0);
            && rev in t.gens
            && (forall e :: e in t.gens[rev] <==>
                  e == ManifestEntry || exists i :: 0 <= i < |c.policies| && e == PolicyEntry(c.policies[i].doc.name))
            && (forall i :: 0 <= i < |c.policies| ==>
                  var file := PolicyEntry(c.policies[i].doc.name); file in t.gens[rev] && t.gens[rev][file] == Policy(c.policies[i].doc, 0))
            && t.gens[rev][ManifestEntry].Manifest? && t.gens[rev][ManifestEntry].layout == 0 && Sha(t.gens[rev][ManifestEntry]) == rev
  {
    hide BuiltDir, BuiltManifest, BuiltActive, Publishable, Buildable, Clean, Verified, CommitStep, Advances, MaterializeStep;
    PublishHistory(d, c, expected, stop);
    AdvancingPublication(d, c, expected, stop);
    MaterializedEffects(d, c, stop);
    CommitHistory(Materialized(d, c, stop).0, c, stop);
    NewFiles(Head(d), Materialized(d, c, stop).0.work, c);
  }

  lemma NewFiles(head: Tree, work: Tree, c: Candidate)
    requires Buildable(c) && BuiltRevision(c) !in head.gens && BuiltRevision(c) in work.gens && work.gens[BuiltRevision(c)] == BuiltDir(c)
    ensures var rev, t := BuiltRevision(c), CommittedTree(head, work, c);
            && rev in t.gens
            && (forall e :: e in t.gens[rev] <==>
                  e == ManifestEntry || exists i :: 0 <= i < |c.policies| && e == PolicyEntry(c.policies[i].doc.name))
            && (forall i :: 0 <= i < |c.policies| ==>
                  var file := PolicyEntry(c.policies[i].doc.name); file in t.gens[rev] && t.gens[rev][file] == Policy(c.policies[i].doc, 0))
            && t.gens[rev][ManifestEntry] == Manifest(BuiltManifest(c), 0)
  {
    hide BuiltDir, BuiltManifest, Buildable, Listed;
    var dir, m := BuiltDir(c), BuiltManifest(c);
    BuiltFiles(c);
    forall e | e in dir
      ensures Listed(m, e)
    {
      if e == ManifestEntry {
        ManifestIsListed(m);
      } else {
        var i :| 0 <= i < |c.policies| && e == PolicyEntry(c.policies[i].doc.name);
        ListedInManifest(c, i);
      }
    }
    assert Blobs(dir, m) == dir;
    assert map[] + dir == dir;
  }

  lemma ManifestIsListed(m: GenerationManifest)
    ensures Listed(m, ManifestEntry)
  {
  }

  /** What a built directory holds. */
  lemma BuiltFiles(c: Candidate)
    requires Buildable(c)
    ensures forall i :: 0 <= i < |c.policies| ==> c.policies[i].Policy?
    ensures forall e :: e in BuiltDir(c) <==>
              e == ManifestEntry || exists i :: 0 <= i < |c.policies| && e == PolicyEntry(c.policies[i].doc.name)
    ensures forall i :: 0 <= i < |c.policies| ==>
              var file := PolicyEntry(c.policies[i].doc.name); file in BuiltDir(c) && BuiltDir(c)[file] == Policy(c.policies[i].doc, 0)
    ensures ManifestEntry in BuiltDir(c) && BuiltDir(c)[ManifestEntry] == Manifest(BuiltManifest(c), 0)
  {
    SourcesHold(c.policies);
    hide Sources, SafePolicyId, CanonicalRealm, BuiltManifest;
    forall e | e in BuiltDir(c) && e != ManifestEntry
      ensures exists i :: 0 <= i < |c.policies| && e == PolicyEntry(c.policies[i].doc.name)
    {
      var i := SourceNamed(c.policies, e);
    }
  }

  lemma ListedInManifest(c: Candidate, i: nat)
    requires Buildable(c) && i < |c.policies|
    ensures Listed(BuiltManifest(c), PolicyEntry(c.policies[i].doc.name))
  {
    var refs := Refs(c.policies);
    var sorted := SortBy(refs, IdOf);
    assert refs[i] in multiset(refs);
    assert refs[i] in multiset(sorted);
    var k :| 0 <= k < |sorted| && sorted[k] == refs[i];
    assert BuiltManifest(c).policies[k].file == PolicyEntry(c.policies[i].doc.name);
  }

  // ----- What a Reload can return at all -----

  /** The snapshot is what some manifest with its digest commits to: the format is known, every policy has a safe id as
      its name, comes from the file of that id, and has the digest that the manifest records. */
  ghost predicate Authenticated(snapshot: Snapshot)
  {
    exists blob: Blob :: AuthenticatedBy(snapshot, blob)
  }

  ghost predicate AuthenticatedBy(snapshot: Snapshot, blob: Blob)
  {
    && blob.Manifest? && snapshot.revision == Sha(blob) && blob.m.api == "ingitdb.org/access-generation/v1"
    && snapshot.config == ActiveManifest(Some(true), blob.m.database, blob.m.realm, Generation(Sha(blob)), snapshot.config.policies)
    && |snapshot.config.policies| == |snapshot.policies| == |blob.m.policies| > 0
    && forall k :: 0 <= k < |snapshot.policies| ==>
         && SafePolicyId(snapshot.policies[k].name)
         && snapshot.config.policies[k] == InGeneration(Sha(blob), PolicyEntry(snapshot.policies[k].name))
         && blob.m.policies[k] == PolicyRef(
              snapshot.policies[k].name, PolicyEntry(snapshot.policies[k].name), Sha(Canonical(snapshot.policies[k])))
  }

  /** Whatever is on the disk, sound or not, and wherever earlier calls stopped: what Reload returns is the generation
      that HEAD selects, and it is authenticated by its digest. */
  lemma ReloadIsAuthentic(d: Disk, stop: Stop)
    requires ReloadStep(d, stop).1.Ok?
    ensures d.history != [] && Selection(Head(d).active) == Generation(ReloadStep(d, stop).1.value.revision)
    ensures Authenticated(ReloadStep(d, stop).1.value)
  {
    hide Complete, Matches, Blobs, SafePolicyId, MaterializeStep;
    RecoveredPointer(d, stop);
    var work, snapshot := RecoverStep(d, stop).0.work, ReloadStep(d, stop).1.value;
    hide RecoverStep;
    var rev := snapshot.revision;
    assert rev in work.gens && Verified(work.gens[rev], rev);
    ManifestAuthenticates(work, rev, snapshot);
  }

  lemma RecoveredPointer(d: Disk, stop: Stop)
    requires RecoverStep(d, stop).1
    ensures RecoverStep(d, stop).0.history == d.history
    ensures d.history != [] && Selection(Head(d).active).Generation? ==> RecoverStep(d, stop).0.work.active == Head(d).active
  {
    hide Complete, Matches, Blobs, PointerRecoverable;
  }

  lemma ManifestAuthenticates(work: Tree, rev: Sha, snapshot: Snapshot)
    requires rev in work.gens && Verified(work.gens[rev], rev) && snapshot.revision == rev
    requires snapshot.config == ActiveFor(work.gens[rev][ManifestEntry].m, rev)
    requires snapshot.config.enabled == Some(true) && snapshot.config.policies != []
    requires forall i :: 0 <= i < |snapshot.config.policies| ==> PathResolves(work, snapshot.config.policies[i])
    requires snapshot.policies == Docs(work, snapshot.config.policies)
    ensures Authenticated(snapshot)
  {
    hide SafePolicyId;
    var m := work.gens[rev][ManifestEntry].m;
    forall k | 0 <= k < |snapshot.policies|
      ensures SafePolicyId(snapshot.policies[k].name)
      ensures snapshot.config.policies[k] == InGeneration(rev, PolicyEntry(snapshot.policies[k].name))
      ensures m.policies[k] == PolicyRef(
                snapshot.policies[k].name, PolicyEntry(snapshot.policies[k].name), Sha(Canonical(snapshot.policies[k])))
    {
      assert RefOk(m.policies[k], work.gens[rev]);
    }
    assert AuthenticatedBy(snapshot, work.gens[rev][ManifestEntry]);
  }

  /** A HEAD whose active manifest names no digest, or whose generation is not complete, is refused by recovery, and so is
      a working generation that differs from the committed one; nothing is touched. Without a generation in HEAD there is
      nothing to recover. */
  lemma RecoveryRefuses(d: Disk, stop: Stop)
    requires d.history != []
    ensures Selection(Head(d).active) == Nothing ==> RecoverStep(d, stop) == (d, true)
    ensures Selection(Head(d).active).Malformed? ==> RecoverStep(d, stop) == (d, false) && ReloadStep(d, stop).1.Err?
    ensures Selection(Head(d).active).Generation? ==>
              var rev := Selection(Head(d).active).rev;
              || (rev in Head(d).gens && Complete(Head(d).gens[rev], rev)
                  && (rev in d.work.gens ==> Matches(d.work.gens[rev], Blobs(Head(d).gens[rev], Head(d).gens[rev][ManifestEntry].m))))
              || (RecoverStep(d, stop) == (d, false) && ReloadStep(d, stop).1.Err?)
  {
    hide Matches, Blobs, PointerRecoverable, MaterializeStep, PointerStep;
  }
}
