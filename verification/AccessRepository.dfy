/** The owner-policy controller as it runs: generation directories, HEAD and the working pointer are
    changed in place, one persistent effect after another, and any effect may be the last. */
module AccessRepository {
  import opened Common
  import opened Ordering
  import opened Generations

  predicate AllPolicies(items: seq<Blob>) {
    forall i :: 0 <= i < |items| ==> items[i].Policy?
  }

  lemma SourcesStep(items: seq<Blob>, i: nat)
    requires i < |items| && AllPolicies(items[..i + 1])
    ensures AllPolicies(items[..i])
    ensures Sources(items[..i + 1]) ==
            Sources(items[..i])[PolicyEntry(items[i].doc.name) := Policy(items[i].doc, 0)]
  {
    assert items[..i + 1][..i] == items[..i];
  }

  lemma RefsStep(items: seq<Blob>, i: nat)
    requires i < |items| && AllPolicies(items[..i + 1])
    ensures AllPolicies(items[..i])
    ensures Refs(items[..i + 1]) == Refs(items[..i]) + [RefOf(items[i].doc)]
  {
  }

  lemma DistinctSnoc(items: seq<Blob>, item: Blob)
    requires (forall i :: 0 <= i < |items| ==> items[i].Policy?) && Distinct(items) && item.Policy?
    ensures Distinct(items + [item]) <==> PolicyEntry(item.doc.name) !in Sources(items)
  {
    SourcesHold(items);
    hide Sources;
    var all := items + [item];
    assert all[|items|] == item;
    if PolicyEntry(item.doc.name) in Sources(items) {
      var i := SourceNamed(items, PolicyEntry(item.doc.name));
      assert all[i] == items[i];
    } else {
      forall i, j | 0 <= i < j < |all|
        ensures all[i].doc.name != all[j].doc.name
      {
        assert all[i] == items[i];
        if j < |items| {
          assert all[j] == items[j];
        }
      }
    }
  }

  lemma EmptyPolicies()
    ensures Sources([]) == map[] && Refs([]) == [] && Distinct([])
  {
  }

  lemma PrefixDistinct(items: seq<Blob>, i: nat)
    requires (forall k :: 0 <= k < |items| ==> items[k].Policy?) && Distinct(items) && i <= |items|
    ensures Distinct(items[..i])
  {
  }

  /** buildGeneration: fills the sources map and the manifest's policy list in one pass. */
  method BuildGeneration(c: Candidate)
    returns (ok: bool, manifest: GenerationManifest, sources: Dir)
    ensures ok <==> Buildable(c)
    ensures ok ==> manifest == BuiltManifest(c)
    ensures ok ==> manifest.enabled && manifest.database == c.database && manifest.realm == c.realm
    ensures ok ==> sources[ManifestEntry := Manifest(manifest, 0)] == BuiltDir(c)
  {
    hide Sources, Refs, SafePolicyId, CanonicalRealm, SortBy, Distinct;
    EmptyPolicies();
    assert c.policies[..0] == [];
    manifest, sources := GenerationManifest(API_VERSION, true, c.database, c.realm, []), map[];
    if c.database == "" || !c.enabled || |c.policies| == 0 || |c.policies| > 100 || !CanonicalRealm(c.realm) {
      return false, manifest, sources;
    }
    var refs: seq<PolicyRef> := [];
    for i := 0 to |c.policies|
      invariant forall k :: 0 <= k < i ==> PolicyAccepted(c.policies[k], c.database)
      invariant Distinct(c.policies[..i])
      invariant refs == Refs(c.policies[..i]) && sources == Sources(c.policies[..i])
    {
      var item := c.policies[i];
      if !item.Policy? || !SafePolicyId(item.doc.name) || item.doc.database != c.database {
        assert !PolicyAccepted(c.policies[i], c.database);
        return false, manifest, sources;
      }
      assert AllPolicies(c.policies[..i + 1]);
      SourcesStep(c.policies, i);
      RefsStep(c.policies, i);
      DistinctSnoc(c.policies[..i], item);
      assert c.policies[..i + 1] == c.policies[..i] + [item];
      var file := PolicyEntry(item.doc.name);
      if file in sources {
        if forall k :: 0 <= k < |c.policies| ==> PolicyAccepted(c.policies[k], c.database) {
          if Distinct(c.policies) {
            PrefixDistinct(c.policies, i + 1);
          }
        }
        return false, manifest, sources;
      }
      sources := sources[file := Policy(item.doc, 0)];
      refs := refs + [RefOf(item.doc)];
    }
    assert c.policies[..|c.policies|] == c.policies;
    manifest := manifest.(policies := SortBy(refs, IdOf));
    return true, manifest, sources;
  }

  /** readAndVerifyGeneration. */
  method VerifyGeneration(dir: Dir, rev: Sha) returns (ok: bool)
    ensures ok <==> Verified(dir, rev)
  {
    if ManifestEntry !in dir || Sha(dir[ManifestEntry]) != rev || !dir[ManifestEntry].Manifest? {
      return false;
    }
    var m := dir[ManifestEntry].m;
    if m.api != API_VERSION || !(exists e <- dir.Keys :: e.PolicyEntry?) {
      return false;
    }
    for i := 0 to |m.policies|
      invariant forall k :: 0 <= k < i ==> RefOk(m.policies[k], dir)
    {
      var p := m.policies[i];
      if !SafePolicyId(p.id) || p.file != PolicyEntry(p.id) || p.file !in dir || !dir[p.file].Policy? {
        assert !RefOk(p, dir);
        return false;
      }
      var doc := dir[p.file].doc;
      if doc.name != p.id || Sha(Canonical(doc)) != p.digest {
        assert !RefOk(p, dir);
        return false;
      }
    }
    return true;
  }

  class Controller {
    var history: seq<Tree>
    var work: Tree
    var temps: seq<Dir>

    constructor (d: Disk)
      ensures View() == d
    {
      history, work, temps := d.history, d.work, d.temps;
    }

    function View(): Disk
      reads this
    {
      Disk(history, work, temps)
    }

    /** The writing part of materializeGeneration and materializeCommittedGeneration: the files reach
        the temporary directory in any order (a map is ranged over); a stop inside leaves some of them. */
    method Materialize(rev: Sha, dir: Dir, stop: Stop) returns (ok: bool)
      modifies this
      ensures (View(), ok) == MaterializeStep(old(View()), rev, dir, stop)
    {
      var tmp: Dir := map[];
      var todo := dir.Keys;
      var limit := if stop.InTemp? then stop.files * dir.Keys else dir.Keys;
      while limit != {}
        invariant limit <= todo <= dir.Keys
        invariant tmp == map e | e in dir.Keys - todo :: dir[e]
        invariant todo - limit == if stop.InTemp? then dir.Keys - stop.files else {}
        decreases limit
      {
        var e :| e in limit;
        tmp := tmp[e := dir[e]];
        todo, limit := todo - {e}, limit - {e};
      }
      if stop.InTemp? {
        assert todo == dir.Keys - stop.files;
        assert dir.Keys - todo == dir.Keys * stop.files;
        assert tmp == map e | e in dir && e in stop.files :: dir[e];
        if stop.crash {
          temps := temps + [tmp];
        }
        return false;
      }
      assert tmp == dir;
      work := work.(gens := work.gens[rev := tmp]);
      return stop != AfterRename;
    }

    /** atomicWriteFile of the active manifest. */
    method ActivatePointer(blob: Blob, stop: Stop) returns (ok: bool)
      modifies this
      ensures (View(), ok) == PointerStep(old(View()), blob, stop)
    {
      if stop.InPointerTemp? {
        if stop.name !in work.others {
          work := work.(others := work.others[stop.name := Raw("")]);
        }
        return false;
      }
      work := work.(active := Some(blob));
      return stop != AfterPointer;
    }

    /** materializeGeneration: reuses a verified directory. */
    method MaterializeGeneration(c: Candidate, rev: Sha, dir: Dir, stop: Stop) returns (ok: bool)
      requires Buildable(c) && rev == BuiltRevision(c) && dir == BuiltDir(c)
      modifies this
      ensures (View(), ok) == Materialized(old(View()), c, stop)
    {
      hide Verified, Buildable, BuiltDir, BuiltRevision;
      if rev in work.gens {
        ok := VerifyGeneration(work.gens[rev], rev);
      } else {
        ok := Materialize(rev, dir, stop);
      }
    }

    /** The commit by compare-and-swap, then the working pointer. */
    method CommitGeneration(c: Candidate, manifest: GenerationManifest, stop: Stop) returns (r: Result<Sha, PolicyError>)
      requires Buildable(c) && manifest == BuiltManifest(c) && history != [] && BuiltRevision(c) in work.gens
      modifies this
      ensures (View(), r) == CommitStep(old(View()), c, stop)
    {
      hide Buildable, BuiltManifest, PointerStep, CommittedTree;
      var rev := Sha(Manifest(manifest, 0));
      if stop == BeforeHead {
        return Err(Interrupted);
      }
      history := history + [CommittedTree(history[|history| - 1], work, c)];
      if stop == AfterHead {
        return Err(Interrupted);
      }
      var active := ActivatePointer(Active(ActiveFor(manifest, rev), 0, c.activeSize), stop);
      return if active then Ok(rev) else Err(Interrupted);
    }

    method Publish(c: Candidate, expected: Selected, stop: Stop) returns (r: Result<Sha, PolicyError>)
      modifies this
      ensures (View(), r) == PublishStep(old(View()), c, expected, stop)
    {
      hide Clean, Verified, Buildable, BuiltDir, BuiltManifest, Materialized, CommitStep;
      var current := if |history| == 0 then Nothing else Selection(history[|history| - 1].active);
      if current != expected {
        return Err(Conflict);
      }
      if |history| == 0 {
        return Err(Unavailable);
      }
      if !Clean(history[|history| - 1], work) {
        return Err(Dirty);
      }
      var buildable, manifest, sources := BuildGeneration(c);
      if !buildable {
        return Err(Invalid);
      }
      var rev := Sha(Manifest(manifest, 0));
      var reused := rev in work.gens;
      var materialized := MaterializeGeneration(c, rev, sources[ManifestEntry := Manifest(manifest, 0)], stop);
      if !materialized {
        return Err(if reused then Invalid else Interrupted);
      }
      r := CommitGeneration(c, manifest, stop);
    }

    /** recoverCommittedGenerationLocked. */
    method Recover(stop: Stop) returns (ok: bool)
      modifies this
      ensures (View(), ok) == RecoverStep(old(View()), stop)
    {
      hide Matches, Blobs, NamesVerified, PointerStep;
      if |history| == 0 {
        return true;
      }
      var head := history[|history| - 1];
      var selected := Selection(head.active);
      if selected.Nothing? {
        return true;
      }
      if selected.Malformed? {
        return false;
      }
      var rev := selected.rev;
      if rev !in head.gens || !Complete(head.gens[rev], rev) {
        return false;
      }
      if work.active.Some? && work.active != head.active && !NamesVerified(work) {
        return false;
      }
      var want := Blobs(head.gens[rev], head.gens[rev][ManifestEntry].m);
      if rev in work.gens {
        if !Matches(work.gens[rev], want) {
          return false;
        }
      } else {
        var written := Materialize(rev, want, stop);
        if !written {
          return false;
        }
      }
      if work.active == head.active {
        return true;
      }
      ok := ActivatePointer(head.active.value, stop);
    }

    method Reload(stop: Stop) returns (r: Result<Snapshot, PolicyError>)
      modifies this
      ensures (View(), r) == ReloadStep(old(View()), stop)
    {
      hide RecoverStep, PathResolves;
      var recovered := Recover(stop);
      if !recovered {
        return Err(Interrupted);
      }
      if !ActiveReadable(work) || !work.active.value.a.enabled.value {
        return Err(Unavailable);
      }
      if |history| == 0 || !Selection(history[|history| - 1].active).Generation? {
        return Err(Unavailable);
      }
      var a := work.active.value.a;
      var docs: seq<Doc> := [];
      for i := 0 to |a.policies|
        invariant View() == RecoverStep(old(View()), stop).0
        invariant |docs| == i
        invariant forall k :: 0 <= k < i ==> PathResolves(work, a.policies[k]) && docs[k] == ResolvedDoc(work, a.policies[k])
      {
        if !PathResolves(work, a.policies[i]) {
          return Err(Unavailable);
        }
        docs := docs + [ResolvedDoc(work, a.policies[i])];
      }
      assert docs == Docs(work, a.policies);
      return Ok(Snapshot(Selection(history[|history| - 1].active).rev, a, docs));
    }
  }
}
