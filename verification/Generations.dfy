/** Owner-policy generations (access_generation.go, access_manifest.go): building, publishing with
    compare-and-swap on HEAD, and recovery of the working tree from HEAD. Any call may stop between two
    persistent effects; the exclusive transaction lock makes calls themselves sequential. */
module Generations {
  import opened Common
  import opened Ordering

  const API_VERSION := "ingitdb.org/access-generation/v1"

  /** A parsed owner policy; body stands for everything but its name and target database. */
  datatype Doc = Doc(name: string, database: string, body: string)

  /** SHA-256 of a blob, as an injective function. */
  datatype Sha = Sha(of: Blob)

  /** A file inside a generation directory. */
  datatype Entry = ManifestEntry | PolicyEntry(id: string) | ExtraEntry(name: string)

  datatype PolicyRef = PolicyRef(id: string, file: Entry, digest: Sha)

  datatype GenerationManifest = GenerationManifest(
    api: string, enabled: bool, database: string, realm: string, policies: seq<PolicyRef>)

  /** The generation field of an active manifest: absent (a flat manifest), not a digest, or a digest. */
  datatype Selected = Nothing | Malformed(text: string) | Generation(rev: Sha)

  datatype PolicyPath = InGeneration(rev: Sha, file: Entry) | FlatPath(name: string)

  datatype ActiveManifest = ActiveManifest(
    enabled: Option<bool>, database: string, realm: string, selected: Selected, policies: seq<PolicyPath>)

  /** File contents by what they decode to. Several texts decode to the same value; layout tells them
      apart, and 0 is the text the encoder itself produces. An active manifest also has the size of its text,
      which readers limit. */
  datatype Blob =
    | Manifest(m: GenerationManifest, layout: nat)
    | Policy(doc: Doc, layout: nat)
    | Canonical(doc: Doc)
    | Active(a: ActiveManifest, layout: nat, size: nat)
    | Raw(bytes: string)

  type Dir = map<Entry, Blob>

  /** The access directory, as a Git tree or as working files. */
  datatype Tree = Tree(active: Option<Blob>, gens: map<Sha, Dir>, others: map<string, Blob>)

  /** HEAD's history of access trees (newest last), the working files, and leftover temporary
      generation directories. */
  datatype Disk = Disk(history: seq<Tree>, work: Tree, temps: seq<Dir>)

  // ----- Building a generation -----

  predicate SafeIdChar(c: char, first: bool) {
    'A' <= c <= 'Z' || 'a' <= c <= 'z' || '0' <= c <= '9' || (!first && (c == '.' || c == '_' || c == '-'))
  }

  predicate SafePolicyId(id: string) {
    1 <= |id| <= 128 && forall i :: 0 <= i < |id| ==> SafeIdChar(id[i], i == 0)
  }

  /** unicode.IsSpace. */
  predicate IsSpace(c: char) {
    '\t' <= c <= '\r' || c == ' ' || c == '\U{85}' || c == '\U{a0}' || c == '\U{1680}' || '\U{2000}' <= c <= '\U{200a}'
    || c == '\U{2028}' || c == '\U{2029}' || c == '\U{202f}' || c == '\U{205f}' || c == '\U{3000}'
  }

  /** Length in UTF-8 bytes. */
  function ByteLength(s: string): nat {
    if s == "" then 0
    else
      var c := s[0];
      (if c < '\U{80}' then 1 else if c < '\U{800}' then 2 else if c < '\U{10000}' then 3 else 4) + ByteLength(s[1..])
  }

  predicate CanonicalRealm(realm: string) {
    realm == "" || (ByteLength(realm) <= 256 && !IsSpace(realm[0]) && !IsSpace(realm[|realm| - 1]))
  }

  /** activeSize is the size of the active manifest that the candidate is encoded to. */
  datatype Candidate = Candidate(
    enabled: bool, database: string, realm: string, policies: seq<Blob>, activeSize: nat)

  function RefOf(doc: Doc): PolicyRef {
    PolicyRef(doc.name, PolicyEntry(doc.name), Sha(Canonical(doc)))
  }

  predicate PolicyAccepted(item: Blob, database: string) {
    item.Policy? && SafePolicyId(item.doc.name) && item.doc.database == database
  }

  predicate Distinct(items: seq<Blob>)
    requires forall i :: 0 <= i < |items| ==> items[i].Policy?
  {
    forall i, j :: 0 <= i < j < |items| ==> items[i].doc.name != items[j].doc.name
  }

  /** Which candidates buildGeneration accepts. */
  predicate Buildable(c: Candidate) {
    && c.database != "" && c.enabled && 0 < |c.policies| <= 100 && CanonicalRealm(c.realm)
    && (forall i :: 0 <= i < |c.policies| ==> PolicyAccepted(c.policies[i], c.database))
    && Distinct(c.policies)
  }

  function Refs(items: seq<Blob>): (refs: seq<PolicyRef>)
    requires forall i :: 0 <= i < |items| ==> items[i].Policy?
    ensures |refs| == |items|
    ensures forall i :: 0 <= i < |items| ==> refs[i] == RefOf(items[i].doc)
  {
    seq(|items|, i requires 0 <= i < |items| => RefOf(items[i].doc))
  }

  /** The policy files of a generation, re-encoded. */
  function Sources(items: seq<Blob>): (d: Dir)
    requires forall i :: 0 <= i < |items| ==> items[i].Policy?
  {
    if items == [] then map[]
    else
      var last := items[|items| - 1].doc;
      Sources(items[..|items| - 1])[PolicyEntry(last.name) := Policy(last, 0)]
  }

  lemma {:induction false} SourceNamed(items: seq<Blob>, e: Entry) returns (i: nat)
    requires (forall i :: 0 <= i < |items| ==> items[i].Policy?) && e in Sources(items)
    ensures i < |items| && e == PolicyEntry(items[i].doc.name)
  {
    i := |items| - 1;
    if e != PolicyEntry(items[i].doc.name) {
      i := SourceNamed(items[..i], e);
    }
  }

  lemma {:induction false} SourcesHold(items: seq<Blob>)
    requires (forall i :: 0 <= i < |items| ==> items[i].Policy?) && Distinct(items)
    ensures forall i :: 0 <= i < |items| ==>
              PolicyEntry(items[i].doc.name) in Sources(items)
              && Sources(items)[PolicyEntry(items[i].doc.name)] == Policy(items[i].doc, 0)
  {
    if items != [] {
      var init, last := items[..|items| - 1], items[|items| - 1].doc;
      SourcesHold(init);
      assert Sources(items) == Sources(init)[PolicyEntry(last.name) := Policy(last, 0)];
      hide Sources;
      forall i | 0 <= i < |items|
        ensures PolicyEntry(items[i].doc.name) in Sources(items)
                && Sources(items)[PolicyEntry(items[i].doc.name)] == Policy(items[i].doc, 0)
      {
        if i < |init| {
          assert items[i] == init[i] && items[i].doc.name != last.name;
        }
      }
    }
  }

  function IdOf(p: PolicyRef): string { p.id }

  function BuiltManifest(c: Candidate): GenerationManifest
    requires Buildable(c)
  {
    GenerationManifest(API_VERSION, true, c.database, c.realm, SortBy(Refs(c.policies), IdOf))
  }

  function BuiltRevision(c: Candidate): Sha
    requires Buildable(c)
  {
    Sha(Manifest(BuiltManifest(c), 0))
  }

  function BuiltDir(c: Candidate): Dir
    requires Buildable(c)
  {
    Sources(c.policies)[ManifestEntry := Manifest(BuiltManifest(c), 0)]
  }

  function BuiltActive(c: Candidate): ActiveManifest
    requires Buildable(c)
  {
    ActiveFor(BuiltManifest(c), BuiltRevision(c))
  }

  /** The active manifest that selects generation rev with manifest m. */
  function ActiveFor(m: GenerationManifest, rev: Sha): ActiveManifest {
    ActiveManifest(Some(m.enabled), m.database, m.realm, Generation(rev),
                   seq(|m.policies|, i requires 0 <= i < |m.policies| => InGeneration(rev, m.policies[i].file)))
  }

  // ----- Verification of a generation directory -----

  predicate RefOk(p: PolicyRef, dir: Dir) {
    && SafePolicyId(p.id) && p.file == PolicyEntry(p.id)
    && p.file in dir && dir[p.file].Policy?
    && dir[p.file].doc.name == p.id && p.digest == Sha(Canonical(dir[p.file].doc))
  }

  /** The checks recovery makes on the blobs of the generation that HEAD selects. */
  predicate Complete(dir: Dir, rev: Sha) {
    && ManifestEntry in dir && dir[ManifestEntry].Manifest? && rev == Sha(dir[ManifestEntry])
    && forall i :: 0 <= i < |dir[ManifestEntry].m.policies| ==> RefOk(dir[ManifestEntry].m.policies[i], dir)
  }

  /** readAndVerifyGeneration. */
  predicate Verified(dir: Dir, rev: Sha) {
    && Complete(dir, rev)
    && dir[ManifestEntry].m.api == API_VERSION
    && exists e <- dir.Keys :: e.PolicyEntry?
  }

  predicate Listed(m: GenerationManifest, e: Entry) {
    e == ManifestEntry || exists i :: 0 <= i < |m.policies| && m.policies[i].file == e
  }

  /** The files of a generation directory that its manifest lists; these are what is committed. */
  function Blobs(dir: Dir, m: GenerationManifest): Dir {
    map e | e in dir && Listed(m, e) :: dir[e]
  }

  predicate Matches(dir: Dir, want: Dir) {
    forall e :: e in want ==> e in dir && dir[e] == want[e]
  }

  function Selection(pointer: Option<Blob>): Selected {
    if pointer.Some? && pointer.value.Active? then pointer.value.a.selected else Nothing
  }

  function Head(d: Disk): Tree
    requires d.history != []
  {
    d.history[|d.history| - 1]
  }

  // ----- Persistent effects -----

  /** Where a call stops; a crash keeps temporary files, an error return removes temporary directories. */
  datatype Stop =
    | Never
    | InTemp(files: set<Entry>, crash: bool)
    | AfterRename
    | BeforeHead
    | AfterHead
    | InPointerTemp(name: string)
    | AfterPointer

  /** Writing all files of dir to a temporary directory and renaming it into place. */
  function MaterializeStep(d: Disk, rev: Sha, dir: Dir, stop: Stop): (Disk, bool) {
    if stop.InTemp? then
      var partial := map e | e in dir && e in stop.files :: dir[e];
      (if stop.crash then d.(temps := d.temps + [partial]) else d, false)
    else
      (d.(work := d.work.(gens := d.work.gens[rev := dir])), stop != AfterRename)
  }

  /** atomicWriteFile of the working active manifest. */
  function PointerStep(d: Disk, blob: Blob, stop: Stop): (Disk, bool) {
    if stop.InPointerTemp? then
      (if stop.name in d.work.others then d
       else d.(work := d.work.(others := d.work.others[stop.name := Raw("")])), false)
    else
      (d.(work := d.work.(active := Some(blob))), stop != AfterPointer)
  }

  /** A stale working pointer may be replaced only if it names a verified generation. */
  predicate PointerRecoverable(work: Tree, committed: Blob) {
    work.active == None || work.active == Some(committed) || NamesVerified(work)
  }

  predicate NamesVerified(work: Tree) {
    && Selection(work.active).Generation?
    && var g := Selection(work.active).rev;
       g in work.gens && Verified(work.gens[g], g)
  }

  /** recoverCommittedGenerationLocked. */
  function RecoverStep(d: Disk, stop: Stop): (Disk, bool) {
    if d.history == [] then (d, true)
    else
      var head := Head(d);
      match Selection(head.active)
      case Nothing => (d, true)
      case Malformed(_) => (d, false)
      case Generation(rev) =>
        if rev !in head.gens || !Complete(head.gens[rev], rev) then (d, false)
        else if !PointerRecoverable(d.work, head.active.value) then (d, false)
        else
          var want := Blobs(head.gens[rev], head.gens[rev][ManifestEntry].m);
          if rev in d.work.gens && !Matches(d.work.gens[rev], want) then (d, false)
          else
            var (d1, ok) := if rev in d.work.gens then (d, true) else MaterializeStep(d, rev, want, stop);
            if !ok || d.work.active == head.active then (d1, ok)
            else PointerStep(d1, head.active.value, stop)
  }

  datatype Snapshot = Snapshot(revision: Sha, config: ActiveManifest, policies: seq<Doc>)

  datatype PolicyError = Conflict | Dirty | Invalid | Interrupted | Unavailable

  predicate PathResolves(work: Tree, p: PolicyPath) {
    match p
    case InGeneration(rev, file) => rev in work.gens && file in work.gens[rev] && work.gens[rev][file].Policy?
    case FlatPath(name) => name in work.others && work.others[name].Policy?
  }

  function ResolvedDoc(work: Tree, p: PolicyPath): Doc
    requires PathResolves(work, p)
  {
    match p
    case InGeneration(rev, file) => work.gens[rev][file].doc
    case FlatPath(name) => work.others[name].doc
  }

  /** accessLoadPolicyFiles: the documents at the given paths. */
  function Docs(work: Tree, paths: seq<PolicyPath>): (docs: seq<Doc>)
    requires forall i :: 0 <= i < |paths| ==> PathResolves(work, paths[i])
    ensures |docs| == |paths|
    ensures forall i :: 0 <= i < |paths| ==> docs[i] == ResolvedDoc(work, paths[i])
  {
    seq(|paths|, i requires 0 <= i < |paths| => ResolvedDoc(work, paths[i]))
  }

  const MAX_MANIFEST_SIZE: nat := 0x10000

  /** readAccessManifest: the pointer is present, not too large, says whether it is enabled, and agrees with the
      verified generation it names. */
  predicate ActiveReadable(work: Tree) {
    && work.active.Some? && work.active.value.Active? && work.active.value.size <= MAX_MANIFEST_SIZE
    && work.active.value.a.enabled.Some?
    && var a := work.active.value.a;
       && !a.selected.Malformed?
       && (a.selected.Generation? ==>
             && NamesVerified(work)
             && ActiveFor(work.gens[a.selected.rev][ManifestEntry].m, a.selected.rev) == a)
       && (a.enabled.value ==> a.policies != [])
  }

  /** OwnerPolicyController.Reload. */
  function ReloadStep(d: Disk, stop: Stop): (Disk, Result<Snapshot, PolicyError>) {
    var (d1, ok) := RecoverStep(d, stop);
    if !ok then (d1, Err(Interrupted))
    else if !ActiveReadable(d1.work) || !d1.work.active.value.a.enabled.value then (d1, Err(Unavailable))
    else if d1.history == [] || !Selection(Head(d1).active).Generation? then (d1, Err(Unavailable))
    else
      var a := d1.work.active.value.a;
      if forall i :: 0 <= i < |a.policies| ==> PathResolves(d1.work, a.policies[i]) then
        (d1, Ok(Snapshot(Selection(Head(d1).active).rev, a, Docs(d1.work, a.policies))))
      else (d1, Err(Unavailable))
  }

  predicate EntryTracked(head: Tree, rev: Sha, e: Entry) {
    rev in head.gens && e in head.gens[rev]
  }

  /** requireCleanAccessTree: every committed file is unmodified, and every other file sits in a
      temporary directory or in a verified generation. */
  predicate Clean(head: Tree, work: Tree) {
    && work.active == head.active
    && work.others == head.others
    && (forall rev :: rev in head.gens ==>
          head.gens[rev] == map[] || (rev in work.gens && Matches(work.gens[rev], head.gens[rev])))
    && (forall rev :: rev in work.gens ==>
          Verified(work.gens[rev], rev) || forall e :: e in work.gens[rev] ==> EntryTracked(head, rev, e))
  }

  /** The tree gitCommitPolicyCAS commits: HEAD's tree with the generation's listed files and the new
      active manifest. */
  function CommittedTree(head: Tree, work: Tree, c: Candidate): Tree
    requires Buildable(c) && BuiltRevision(c) in work.gens
  {
    var rev := BuiltRevision(c);
    var before := if rev in head.gens then head.gens[rev] else map[];
    head.(active := Some(Active(BuiltActive(c), 0, c.activeSize)),
          gens := head.gens[rev := before + Blobs(work.gens[rev], BuiltManifest(c))])
  }

  /** The checks of Publish, in order; None when they all pass. ls-tree fails on an unborn HEAD. */
  function Admission(d: Disk, c: Candidate, expected: Selected): Option<PolicyError> {
    if (if d.history == [] then Nothing else Selection(Head(d).active)) != expected then Some(Conflict)
    else if d.history == [] then Some(Unavailable)
    else if !Clean(Head(d), d.work) then Some(Dirty)
    else if !Buildable(c) then Some(Invalid)
    else None
  }

  /** materializeGeneration: reuses a verified directory, and never overwrites one. */
  function Materialized(d: Disk, c: Candidate, stop: Stop): (r: (Disk, bool))
    requires Buildable(c)
    ensures r.0.history == d.history
    ensures r.1 ==> BuiltRevision(c) in r.0.work.gens
  {
    var rev := BuiltRevision(c);
    if rev in d.work.gens then (d, Verified(d.work.gens[rev], rev))
    else MaterializeStep(d, rev, BuiltDir(c), stop)
  }

  /** gitCommitPolicyCAS and the activation of the working pointer. */
  function CommitStep(d: Disk, c: Candidate, stop: Stop): (Disk, Result<Sha, PolicyError>)
    requires d.history != [] && Buildable(c) && BuiltRevision(c) in d.work.gens
  {
    if stop == BeforeHead then (d, Err(Interrupted))
    else
      var d1 := d.(history := d.history + [CommittedTree(Head(d), d.work, c)]);
      if stop == AfterHead then (d1, Err(Interrupted))
      else
        var (d2, done) := PointerStep(d1, Active(BuiltActive(c), 0, c.activeSize), stop);
        (d2, if done then Ok(BuiltRevision(c)) else Err(Interrupted))
  }

  /** OwnerPolicyController.Publish. */
  function PublishStep(d: Disk, c: Candidate, expected: Selected, stop: Stop)
    : (Disk, Result<Sha, PolicyError>)
  {
    match Admission(d, c, expected)
    case Some(e) => (d, Err(e))
    case None =>
      var (d1, ok) := Materialized(d, c, stop);
      if ok then CommitStep(d1, c, stop)
      else (d1, Err(if BuiltRevision(c) in d.work.gens then Invalid else Interrupted))
  }
}
