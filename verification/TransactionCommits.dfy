/** A whole transaction with its commit (database.go, git_commit.go): the worker's changes, the commit of the
    paths it wrote, and restoration when either fails. */
module TransactionCommits {
  import opened Common
  import opened Transactions
  import G = GitCommits

  /** The working files as Git sees them. */
  function Contents(files: Files): G.Files {
    map p | p in files :: files[p].data
  }

  /** The commit of the paths written: the old tree with exactly these paths as they are in the working files. */
  ghost predicate CommitsExactly(before: Option<G.Commit>, commit: G.Commit, files: Files, written: seq<Path>, message: string)
  {
    && commit.parent == before && commit.message == message
    && G.AgreeOutside(commit.tree, G.TreeOf(before), G.PathSet(written))
    && forall p :: p in written ==> (p in commit.tree <==> p in files) && (p in files ==> commit.tree[p] == files[p].data)
  }

  /** Every path written can be staged: it was committed before, or it is a working file that Git does not ignore. */
  ghost predicate Stageable(before: Option<G.Commit>, files: Files, ignored: set<Path>, written: seq<Path>)
  {
    forall p :: p in written ==> p in G.TreeOf(before) || (p in files && p !in ignored)
  }

  lemma StagedIsExact(before: Option<G.Commit>, files: Files, ignored: set<Path>, written: seq<Path>, message: string)
    ensures var staged := G.StageAll(G.TreeOf(before), Contents(files), ignored, G.Dedupe(written));
            && (staged.Some? <==> Stageable(before, files, ignored, written))
            && (staged.Some? ==> CommitsExactly(before, G.Commit(before, staged.value, message), files, written, message))
  {
    G.DedupeKeepsFirsts(written);
    G.StagedExactly(G.TreeOf(before), Contents(files), ignored, G.Dedupe(written));
    assert G.PathSet(G.Dedupe(written)) == G.PathSet(written);
  }

  /** runReadwriteTransaction inside a Git work tree; headAtUpdate is where HEAD is when the commit is published.
      A success with a message leaves a commit of exactly the paths written; an error that was rolled back
      leaves every file as it was, and HEAD where it was or where someone else moved it. */
  method RunAndCommit(db: Database, repo: G.Repository, changes: seq<Change>, workerFails: bool, message: Option<string>,
                      headAtUpdate: Option<G.Commit>, umask: nat -> nat, fault: RestoreFault) returns (r: Outcome)
    requires repo.work == Contents(db.files)
    modifies db, repo
    ensures repo.work == Contents(db.files) && repo.userIndex == old(repo.userIndex) && repo.ignored == old(repo.ignored)
    ensures DifferOnlyAt(old(db.files), db.files, db.saved.Keys)
    ensures r.WorkerError? <==> workerFails
    ensures !workerFails && message.Some? && db.written != [] ==>
              (r == Success ==> headAtUpdate == old(repo.head) && repo.head.Some?
                                && CommitsExactly(old(repo.head), repo.head.value, db.files, db.written, message.value))
    ensures !(message.Some? && db.written != []) && !workerFails ==> r == Success && repo.head == old(repo.head)
    ensures r == Success ==> db.View() == ApplyAll(Tx(old(db.files), map[], []), changes)
                             && (message.Some? && db.written != [] ==>
                                   Stageable(old(repo.head), db.files, repo.ignored, db.written))
    ensures r != Success && r.restored ==> SameData(old(db.files), db.files)
    ensures r != Success ==> (r.restored <==> !(fault.RestoreStops? && fault.at in db.saved))
    ensures workerFails ==> repo.head == old(repo.head)
    ensures r.CommitError? ==>
              var tx := ApplyAll(Tx(old(db.files), map[], []), changes);
              repo.head == if Stageable(old(repo.head), tx.files, repo.ignored, tx.written) then headAtUpdate else old(repo.head)
    ensures r.CommitError? ==>
              var tx := ApplyAll(Tx(old(db.files), map[], []), changes);
              !Stageable(old(repo.head), tx.files, repo.ignored, tx.written) || headAtUpdate != old(repo.head)
  {
    hide CommitsExactly, Stageable, SameData, DifferOnlyAt, Contents, Covered, ApplyAll, G.StageAll, G.Dedupe, G.TreeOf;
    ghost var base := db.files;
    db.RunWorker(changes);
    repo.work := Contents(db.files);
    if workerFails {
      var ok := db.Undo(base, umask, fault);
      repo.work := Contents(db.files);
      return WorkerError(ok);
    }
    if message.Some? && |db.written| > 0 {
      ghost var before := repo.head;
      StagedIsExact(before, db.files, repo.ignored, db.written, message.value);
      var committed := repo.CommitPaths(db.written, message.value, headAtUpdate);
      if !committed {
        var ok := db.Undo(base, umask, fault);
        repo.work := Contents(db.files);
        return CommitError(ok);
      }
    }
    return Success;
  }
}
