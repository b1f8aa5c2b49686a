# A verified model of dalgo2ingitdb

dalgo2ingitdb is a database adapter whose storage is a Git working tree: records are files, owner policies
are immutable generations committed to the same repository, and several processes may work on one
repository at a time. This project models the parts of it where that is hard and proves what they are for:

- publication and crash recovery of owner policies, and the live snapshot that a mounted database serves
  (`Generations`, `GenerationRecovery`, `GenerationLeftovers`, `Publications`, `AccessRepository`, `LiveSnapshot`);
- the JSONL log with torn-tail recovery, its bounded reader, and the lease protocol behind Close
  (`JsonLines`, `BoundedRead`, `Leases`, `CloseProgress`, `FileLocks`);
- transactions: snapshots, rollback, the shared and exclusive lock, commits from a private index
  (`Transactions`, `TransactionIsolation`, `GitCommits`, `TransactionCommits`, `TransactionEffects`);
- record writes and the referential integrity that their local checks keep (`ForeignKeys`, `RecordEffects`,
  `ForeignKeyChecks`);
- field updates on documents, and the aliasing of record images on the heap (`Documents`, `Images`,
  `ImageStore`, `Aliasing`, `ImageBatch`);
- protected batches and the revisions predicted for them (`ProtectedBatch`, `ProtectedEffects`, `ProtectedStorage`);
- key-to-path mapping and nested collections (`RecordPaths`, `RecordListing`, `ScopedCollections`);
- the query engine (`QueryValues`, `StableOrder`, `QueryEngine`, `Grouping`, `GroupedAnswers`);
- schema alteration and description (`SchemaModel`, `SchemaSoundness`, `SchemaRuns`, `SchemaEffects`,
  `SchemaChanges`, `SchemaReader`).

`Common` and `Ordering` hold shared vocabulary. Code that changes state step by step is modelled by classes
and methods with loops, each proved against a function; the properties are lemmas about these functions.
Protocols in which several processes or threads interleave are state machines: `Step` is one atomic action,
`Run` any schedule of them.

Premises, stated in the contracts that need them:

- SHA-256 is injective (a digest is a datatype over its content), and so is the keyed hash where
  `InjectiveHash` is required.
- Codecs, JSON, formula evaluation and number rendering are functions; what is encoded is parsed back
  (`Lawful`), an encoded JSON object has no raw line feed (section 7 of RFC 8259), locale mapping is the
  identity on foreign-key fields.
- Crash recovery needs the working pointer to be absent or at a verified generation (`PointerOk`).
- Foreign keys are those of top-level collections. `OperationsKeepIntegrityIff` needs nothing else; the plain
  corollary is for definitions in which coercion leaves every computed key as the formula yields it
  (`KeysSurviveCoercion`).
- Protected batches touch distinct records (`DistinctRecords`); that a batch executes exactly when its operations are
  admissible is for codecs that encode every record (`Encodes`).
- `requires Orderable(...)`, or an implication from it, marks what holds only where the ordering columns can
  be ordered at all.

Where the code does not do what its documentation or name suggests, the code is modelled and the difference
is a lemma:

- A repository that still uses a flat access manifest and stops between the HEAD update and the pointer
  replacement of its first publication cannot reload (`FlatPointerIsRefused`, `FlatPointerWitness`); the
  exact condition is `ReloadSucceedsIff`. A candidate whose active manifest is over 64 KiB is published and
  then cannot be reloaded (`StoppedAfterHead`, `EveryRunRecovers`).
- A crash inside the replacement of the working pointer leaves a temporary file that blocks every later
  publication, whatever is called in between (`PointerTempBlocksPublish`). After any run of stopped calls and
  one Reload, publishing works if and only if no such file was left (`PublishAfterRunIff`); no other stop leaves
  one (`LeftoversNeverBlock`). Publishing on an unborn HEAD always fails (`Admission`).
- A callback of WithExclusiveLock that calls Close, or that appends through its view to the file it has locked,
  never returns, and no Close does (`CloseInsideCallback`, `AppendToLockedFile`). `CallReturnsIff` is the exact
  condition: a call can return if and only if it belongs to no set of calls that wait for one another through
  leases, file locks, views and callbacks.
- A transaction that creates and deletes the same new record cannot be committed
  (`CreatedAndDeletedIsRefused`). Rollback restores contents; a file the worker removed comes back with the
  mode that the umask leaves (`RestorationUndoes`).
- A computed foreign key of a numeric column can dangle after a permitted delete (`CoercedKeyDangles`);
  `DeleteKeepsIntegrityIff` is the exact condition for one delete, `OperationsKeepIntegrityIff` for whole runs.
- The revision predicted for a delete from a map file is always wrong (`PredictionHoldsIff`,
  `MapFileDeleteIsMispredicted`).
- An increment with a delta that is not a number fails after it has created maps on its path
  (`IncrementFailsDirtyIff`). Two candidates whose updates were given the same map object are not
  independent (`SharedValueLeaks`): an update changes another value if and only if the map it writes to is one
  of that value's cells and the write makes a difference (`UpdateSparesIff`), so the image taken of a candidate
  stays true to it if and only if no later update of the batch does that (`ImageHoldsIff`).
- A template with several placeholders need not give back the key (`AmbiguousTemplate`);
  `ListingRecoversKeyIff` is the exact condition. With ".." in a template keys can share a path
  (`KeysCollideIff`).
- `compareValues` can cycle (`MixedColumnsCycle`); `OrderedIff` is the exact condition on a column.
- Grouping by `$id` and selecting `$id` reads a stored field of that name, not the id
  (`GroupColumnReadsBack`).
- Adding, dropping or renaming a field of an exported collection makes it impossible to describe
  (`ExportedAlterIff`, `AddingToExportBreaksIt`). Dropping or renaming a key column leaves the primary key
  naming a column that is gone (`KeyColumnsExistIff`). Description loses a precision without digits, a field
  named `$key`, and an empty primary key (`CreatedRoundTripIff`).

## Model

| member | source | states |
|---|---|---|
| GenerationRecovery.EveryRunRecovers | access_generation.go:60-89 | After any run of publications, reloads and record commits, each stopped between any two persistent effects, from a pointer that is absent or at a verified generation: the next Reload returns exactly HEAD's generation, with its revision, manifest and committed policies, unless HEAD's active manifest is over the size limit of its readers |
| GenerationRecovery.ReloadSucceedsIff | access_generation.go:129-211 | With a sound HEAD, Reload succeeds if and only if the working pointer is absent, equal to HEAD's or at a verified generation and HEAD's active manifest is within the size limit; it returns HEAD's snapshot; a pointer that cannot be recovered is left alone |
| GenerationRecovery.StoppedAfterHead | access_generation.go:295-359 | A publication stopped anywhere at or after the HEAD update: the next Reload returns the new generation with the candidate's active manifest, or fails exactly when that manifest is over the size limit |
| GenerationRecovery.StoppedBeforeHead | access_generation.go:295-359 | A publication refused or stopped before the HEAD update: the next Reload returns what it would have returned before |
| GenerationRecovery.PublishHistory | access_generation.go:661-719 | A publication adds exactly one commit selecting the candidate's generation if it passes every check and is not stopped before the compare-and-swap, and otherwise fails with HEAD and the working pointer as they were |
| GenerationRecovery.PublishKeepsSound | access_generation.go:295-359 | Publication keeps the invariant (pointer absent or at a verified generation, HEAD's generation complete, its working files those committed) wherever it stops |
| GenerationRecovery.RecoverKeepsSound | access_generation.go:129-244 | So does recovery, and it never moves HEAD |
| GenerationRecovery.BuiltVerifies | access_generation.go:471-524 | Every generation that can be built passes verification under its own revision |
| GenerationRecovery.RevisionIgnoresOrder | access_generation.go:361-407 | The revision depends on a candidate's policies only as a multiset of digests: any reordering publishes under the same revision |
| GenerationRecovery.PublishedPolicies | access_generation.go:60-89 | The snapshot of a published candidate is enabled, has its database and realm, and its policies are the candidate's, sorted by name |
| Publications.PublishedSnapshot | access_generation.go:295-359 | A publication that moves HEAD, wherever it stops then, makes the next Reload return the candidate's snapshot: enabled, its database and realm, its policies in name order, each under its own file of the generation; unless the active manifest is too large |
| Publications.LastPublishedIsReloaded | access_generation.go:60-89 | After any run of stopped calls the next Reload returns the snapshot of the last candidate whose publication moved HEAD |
| Publications.PublishSucceedsIff | access_generation.go:295-407 | An unstopped publication succeeds exactly when HEAD selects what is expected, the tree is clean, the candidate keeps the rules for database, realm, and policies, and a directory already there verifies; conflict and dirty tree are reported exactly when they are the reason |
| Publications.SameRevisionIff | access_generation.go:361-407 | Two candidates have the same revision if and only if they agree on database, realm and policies, in any order and layout |
| Publications.PublishKeepsOthers | access_generation.go:661-719 | A publication keeps all earlier history, every other generation and every other file of the access tree |
| Publications.NewGenerationFiles | access_generation.go:409-464 | A publication of a new revision commits the manifest and one re-encoded file for each policy, and nothing else in that generation |
| Publications.DirtyBlocks | access_generation.go:545-610 | A modified or missing committed file, an untracked file in a generation that does not verify, or another pointer blocks every publication |
| Publications.ReloadIsAuthentic | access_generation.go:60-89 | Whatever is on the disk, sound or not, a Reload that succeeds returns the generation HEAD selects, authenticated by its digest policy by policy |
| Publications.RecoveryRefuses | access_generation.go:129-211 | A malformed selection, an incomplete committed generation, or a working generation that differs is refused and nothing is touched |
| GenerationRecovery.FlatPointerIsRefused | access_generation.go:178-182 | From a flat pointer, a stop right after the HEAD update makes Reload fail, and removing the pointer makes it succeed (if the new manifest is within the size limit) |
| GenerationRecovery.FlatPointerWitness | access_generation.go:178-182 | Such a repository exists |
| GenerationLeftovers.PublishAfterRunIff | access_generation.go:545-611 | After any run of publications, reloads and record commits, each stopped anywhere, and one completed Reload, publishing with the right expected revision goes through if and only if no stray file is left outside the generation directories |
| GenerationLeftovers.LeftoversNeverBlock | access_generation.go:361-464 | It goes through after every run in which nothing stopped inside the replacement of the working pointer |
| GenerationLeftovers.UnfinishedNeverBlock | access_generation.go:409-464 | After publications that stopped before moving HEAD it goes through without a Reload, and a verified directory already there is reused untouched |
| GenerationLeftovers.StrayBlocks | access_generation.go:545-611 | A stray file blocks every publication after every run of calls |
| GenerationLeftovers.ReloadRestoresClean | access_generation.go:129-211 | After a stop right after the HEAD update, one Reload makes the access tree clean again |
| GenerationLeftovers.PointerTempBlocksPublish | access_generation.go:617-644 | A crash inside the pointer replacement makes every later Publish fail, whatever publications, reloads and record commits come in between |
| AccessRepository.BuildGeneration | access_generation.go:361-407 | The building loop accepts exactly the buildable candidates and yields the manifest with the candidate's database and realm, the canonical references and sources |
| AccessRepository.VerifyGeneration | access_generation.go:471-524 | The verification loop accepts exactly the verified directories |
| AccessRepository.Controller.Materialize | access_generation.go:409-464 | Writing a generation goes through a temporary directory and a rename, with exactly the modelled effect at every stop |
| AccessRepository.Controller.MaterializeGeneration | access_generation.go:409-464 | A directory that is there is reused exactly when it verifies and never overwritten; a missing one is written |
| AccessRepository.Controller.Publish | access_generation.go:295-359 | The step-by-step publication has exactly the effects and result of the publication function |
| AccessRepository.Controller.Recover | access_generation.go:129-244 | The step-by-step recovery has exactly the effects and result of the recovery function |
| AccessRepository.Controller.Reload | access_generation.go:60-89 | The step-by-step reload has exactly the effects and result of the reload function |
| LiveSnapshot.SnapshotsNeverGoBack | database.go:192-241 | In every interleaving of mounted reloads, mounted publications and outside publications, installed snapshots are those of entries of HEAD's history, never going back, and none is live while the activation mutex is held |
| LiveSnapshot.LiveSnapshotIsCurrent | database.go:192-241 | Without an outside publisher a live snapshot is always HEAD's, whatever failed or stopped |
| LiveSnapshot.ReloadInstalls | database.go:192-209 | An undisturbed mounted reload installs exactly what Reload returns, or leaves no live snapshot, as it does when the hook before the installation fails |
| LiveSnapshot.PublishInstalls | database.go:211-243 | An undisturbed mounted publication publishes and installs what Reload then returns |
| JsonLines.RecoveredRecords | rooted_files.go:440-484 | For every run of appends and recoveries in which any step may stop after any byte: recovery of the final file succeeds and replay gives the initial records followed by a subsequence, in order, of the attempted ones that contains every acknowledged one |
| JsonLines.RecoveryIsConservative | rooted_files.go:965-999 | Recovery never removes a newline-terminated byte, fails exactly when a committed line is malformed and then changes nothing, and is idempotent |
| JsonLines.RecoveryWithLimit | rooted_files.go:965-999 | A file over the limit is refused and left alone; any other is recovered as without a limit |
| JsonLines.ReplayedAreObjects | rooted_files.go:1001-1024 | Lines are accepted exactly when every line that is not blank is a valid JSON object, and exactly these are replayed |
| JsonLines.ReplayFrames | rooted_files.go:1001-1024 | Replaying framed records gives back exactly these records after those that were there |
| JsonLines.AppendLeaves | rooted_files.go:440-484 | An append leaves the bytes up to the last line feed and then the new line, or as much of it as was written; it is acknowledged exactly when nothing went wrong |
| JsonLines.JsonlFile.Recover | rooted_files.go:965-999 | The validating loop and truncation have exactly the modelled effect at every fault |
| JsonLines.JsonlFile.Append | rooted_files.go:440-484 | Append recovers, writes one frame, and acknowledges only what it wrote and synced |
| JsonLines.JsonlFile.ReadRecords | rooted_files.go:1001-1024 | Reading refuses an interrupted tail and malformed lines and otherwise returns the records in order |
| JsonLines.JsonlFile.RecoverAndRead | rooted_files.go:540-573 | Recovery followed by reading returns the committed records, or fails when one is malformed |
| BoundedRead.ReadContent | rooted_files.go:1026-1058 | For every reader that delivers a stream in arbitrary progressing chunks: the whole stream if its length is at most the limit, the limit error otherwise; for every reader a result has all that was delivered, an error says what was wrong with a read, the loop ends, and the capacity is within the limit and at most twice what was read or the first allocation |
| BoundedRead.ReadUpTo | rooted_files.go:1026-1058 | The same for the loop itself, with any positive limit |
| BoundedRead.Grow | rooted_files.go:1069-1078 | The buffer doubles up to the maximum, keeps its content, and the sum that is formed never exceeds the maximum |
| BoundedRead.ProbeOverflow | rooted_files.go:1082-1098 | At a full buffer: the content if the stream is exhausted, the limit error otherwise |
| Leases.EveryRunIsSafe | rooted_files.go:319-340 | In every interleaving of operations, lock callbacks, views, file locks and any number of Close calls, from anywhere: the root is closed at most once and only with no lease, whoever uses it finds it open, and a view acts only inside its callback while the outer lease is held |
| Leases.NoLeaseAfterClosing | rooted_files.go:888-899 | Once a Close has begun no continuation grants a lease, and the step that closes the root happens with no lease and no reader |
| Leases.LeaseHoldersAreNotBlocked | rooted_files.go:917-922 | A lease or view holder that wants to read is never blocked by a waiting Close, although the lock prefers writers |
| FileLocks.LocksExclude | rooted_files.go:696-750 | In every interleaving, with locks taken outside at any time, an exclusive lock of a file excludes every other lock of it, those of the callback's own views included |
| FileLocks.TakesItsLock | rooted_files.go:440-484 | A waiting call takes the lock that it asked for if and only if nobody inside or outside holds a conflicting one |
| CloseProgress.CallReturnsIff | rooted_files.go:319-340 | In every reachable state a call (a Close, an operation, a lock callback, a view call) can still return by moves of the calls that have begun if and only if it belongs to no set of calls that all wait for one another or for a lock held outside |
| CloseProgress.HeldUpForever | rooted_files.go:319-340 | In such a set it never returns, whatever calls begin, until one in the set fails or is cancelled or an outside lock is released |
| CloseProgress.CloseInsideCallback | rooted_files.go:326-328 | A callback that waits for a Close it called and that Close form such a set |
| CloseProgress.AppendToLockedFile | rooted_files.go:466-483 | So do a callback, its append through the view to the file it has locked, and every Close |
| CloseProgress.QuietCallbacksReturn | rooted_files.go:744-748 | With callbacks that wait for nothing, view calls without file locks and no outside lock there is no such set |
| CloseProgress.FreeCanMove | rooted_files.go:888-922 | A call that waits for none of these can move at once: the read-write lock, which prefers writers, is never what holds it up |
| Leases.StepKeepsInv | rooted_files.go:696-749 | Every action keeps the invariant that ties the operation counter to the lease holders, the flags to the root, and views to their callbacks |
| Transactions.Database.RunReadwriteTransaction | database.go:402-426 | A failed worker or commit undoes every change unless the restoration itself is stopped; otherwise the worker's changes stand |
| Transactions.Database.Snapshot | tx_readwrite.go:59-81 | Only the first snapshot of a path counts, and it is the state of the file at that moment |
| Transactions.Database.RestoreSnapshots | git_commit.go:19-41 | Restores every saved path in sorted order; stopped at one path, those that come before it are restored and those after it untouched |
| Transactions.WorkerIsCovered | tx_readwrite.go:59-88 | After any changes, torn ones included, every path is as at the start or has its starting state saved, and all written paths are saved |
| Transactions.RestorationUndoes | git_commit.go:19-41 | Restoration after any worker gives back every content; modes too, except for files that had to be created again |
| TransactionCommits.RunAndCommit | database.go:402-426 | With the commit inside: a success with a message leaves a commit on the old HEAD whose tree is the old one with exactly the written paths as in the working files; an error that was rolled back leaves every file as it was and HEAD where it was or where someone else moved it; a commit fails only if a path cannot be staged or HEAD moved |
| TransactionEffects.WorkerLeaves | tx_readwrite.go:59-145 | After any worker every file is what its own changes make of it one after the other, with its mode, and the paths to be committed are those where a change took effect |
| TransactionEffects.ChangeSucceedsIff | tx_readwrite.go:59-145 | A change succeeds exactly when nothing went wrong or there was nothing to remove; a failed one is not committed |
| TransactionEffects.CommitHolds | git_commit.go:49-127 | The commit has the file that the changes leave at each path they took effect on, and everything else as before |
| TransactionEffects.CompletedVersion | database.go:402-427 | A transaction that finds the lock free and completes leaves for later readers every file as its changes make it |
| TransactionIsolation.ReadersSeeWholeTransactions | database.go:332-370 | In every interleaving, what a reader sees is a state left by a completed or fully rolled back transaction (then equal in content to the one before), the same for as long as it holds the lock, unless a restoration failed or a process died |
| GitCommits.DedupeKeepsFirsts | git_commit.go:151-162 | Deduplication keeps each path once, at its first occurrence |
| GitCommits.StagedExactly | git_commit.go:49-125 | Staging succeeds if and only if every path is a committed file or a working file that Git does not ignore, and the tree is then the base tree with exactly these paths taken from the working files |
| GitCommits.CreatedAndDeletedIsRefused | git_commit.go:49-125 | A path that is neither a working nor a committed file makes the commit fail |
| GitCommits.Repository.CommitPaths | git_commit.go:49-125 | HEAD moves exactly if staging succeeds and HEAD is still the parent; the user's index and the working files are untouched |
| GitCommits.Repository.DedupeStrings | git_commit.go:151-162 | The loop over the seen-map computes the deduplication |
| GitCommits.PublishedCommitsAreLocal | access_generation.go:661-719 | In every interleaving of record commits, policy commits, outside HEAD moves and edits: a published commit's parent is the HEAD it replaced, its tree differs only at its own paths, record commits leave the access tree and policy commits every record as they were |
| GitCommits.PublishedCommitsHoldWork | git_commit.go:49-127 | While the working files stay as they are, every published commit has the working state at each of its own paths, and a policy commit its active manifest, however commits interleave |
| GitCommits.HeadIsExplained | git_commit.go:49-125 | In every run HEAD is where it started, where an outside move put it, or at a published commit |
| GitCommits.NoCommitIsLost | git_commit.go:49-125 | Without outside HEAD moves the published commits form one chain from the first HEAD to the last |
| ForeignKeys.OperationsKeepIntegrityIff | tx_readwrite.go:97-289 | If every non-empty foreign key resolves at the start, it does throughout any sequence of Set, Insert, Update and Delete, list-valued and computed keys of every type included, if and only if no delete uncovers a reference that a coercion hid |
| ForeignKeys.OperationsKeepIntegrity | tx_readwrite.go:97-289 | So it always does where coercion leaves each computed key as its formula yields it |
| ForeignKeys.StepKeepsIntegrityIff | tx_readwrite.go:97-337 | One operation keeps integrity if and only if it is not a delete that takes effect over a hidden reference |
| ForeignKeys.StepKeepsIntegrity | tx_readwrite.go:97-337 | Where coercion changes no key every operation keeps it |
| ForeignKeys.PutKeepsIntegrity | foreign_keys.go:11-86 | The write-time checks of one record suffice for the whole store |
| ForeignKeys.DeleteKeepsIntegrityIff | foreign_keys.go:102-199 | A permitted delete keeps integrity if and only if no computed key refers to the parent under a text that its coerced value does not show |
| ForeignKeys.UncoercedTypesSurvive | formula.go:56-97 | Coercion changes no key of string, bool and untyped columns, of int columns with integer results and of float columns with float results |
| ForeignKeys.CoercedKeyDangles | foreign_keys.go:157-199 | A float column with an integer result: a permitted delete leaves a dangling key |
| RecordEffects.OperationDoes | tx_readwrite.go:97-337 | A failed operation changes nothing; Set and Insert leave their data, Insert where nothing was; Update leaves the changed image without computed fields; Delete leaves nothing; every other record stays |
| RecordEffects.OperationSucceedsIff | tx_readwrite.go:97-337 | The exact condition of success of each operation: accepted data, an absent key for Insert, a record that can be shown and changed for Update, nothing that refers to it for Delete |
| RecordEffects.WritableIff | foreign_keys.go:11-90 | The write checks accept exactly the records that store no computed field and whose foreign keys, stored or computed, are well formed, present where required, and name records |
| RecordEffects.DeletableIff | foreign_keys.go:102-199 | The delete scans pass exactly when every referring collection can be read and none of its records refers to the key as it is shown |
| RecordEffects.CoerceIff | formula.go:56-97 | A coerced result has the column's type and is the value itself or the same number; coercion fails exactly when there is none |
| ForeignKeyChecks.OrderedColumns | computed_columns.go:32-56 | The matching columns: those of columns_order first, then the rest sorted, none missing |
| ForeignKeyChecks.Transaction.ValidateWriteForeignKeys | foreign_keys.go:11-49 | The loop accepts exactly the records whose stored keys are well-formed, present when required, and resolve |
| ForeignKeyChecks.Transaction.ValidateComputedWriteForeignKeys | foreign_keys.go:58-86 | The loop accepts exactly the records whose computed keys evaluate and resolve |
| ForeignKeyChecks.Transaction.ValidateNoStoredComputedValues | computed_columns.go:14-21 | The loop accepts exactly the records without a computed field |
| ForeignKeyChecks.Transaction.ValidateDelete | foreign_keys.go:102-199 | The scan accepts exactly if every referring collection can be read and no record of it holds the key, stored or computed |
| ForeignKeyChecks.Transaction.FreeOfKey | foreign_keys.go:102-199 | The per-record part of the scan |
| ForeignKeyChecks.Transaction.SetRecord | tx_readwrite.go:97-145 | Set succeeds exactly when the record is accepted, leaves its data there, and changes nothing else or, on failure, nothing |
| ForeignKeyChecks.Transaction.InsertRecord | tx_readwrite.go:159-215 | Insert succeeds exactly when the key is absent and the record is accepted, leaves its data there, and changes nothing else or, on failure, nothing |
| ForeignKeyChecks.Transaction.UpdateRecord | tx_readwrite.go:304-337 | Update leaves the changed image of an existing record without its computed fields and changes nothing else or, on failure, nothing |
| ForeignKeyChecks.Transaction.DeleteRecord | tx_readwrite.go:229-289 | Delete leaves no record there and changes nothing else or, on failure, nothing |
| Documents.SetReadsBack | tx_readwrite.go:424-442 | After a set, the path and everything below it read as the value does |
| Documents.SetLeavesOthers | tx_readwrite.go:424-442 | A set changes no path that neither leads to it nor through it |
| Documents.SetMakesMaps | tx_readwrite.go:424-442 | Every intermediate of a set is a map afterwards |
| Documents.SetFailsIff | tx_readwrite.go:426-440 | A set fails if and only if some intermediate holds a value that is neither null nor a map |
| Documents.LastSetWins | tx_readwrite.go:424-442 | Two sets at one path are the second |
| Documents.ApartSetsCommute | tx_readwrite.go:383-403 | Sets at paths that are apart commute, failures included |
| Documents.DeleteRemoves | tx_readwrite.go:447-464 | After a delete nothing is at the path |
| Documents.DeleteIsIdempotent | tx_readwrite.go:447-464 | Deleting twice is deleting once |
| Documents.DeleteLeavesOthers | tx_readwrite.go:447-464 | A delete changes no path that is apart from it |
| Documents.DeleteCreatesNothing | tx_readwrite.go:447-464 | What can be read after a delete could be read before it |
| Documents.DeleteChangesIff | tx_readwrite.go:447-464 | A delete changes the document if and only if something was at the path |
| Documents.DeleteUndoesSet | tx_readwrite.go:408-464 | Deleting a field that was set where it was missing gives back the document |
| Documents.LastChangeDecides | protected.go:353-377 | After a sequence of updates a path reads as the last update there left it, and as before where all updates are apart from it |
| Images.FailedSetChangesNothing | tx_readwrite.go:424-442 | A set that fails leaves every heap cell as it was, whatever shares cells with what |
| Images.FailedUpdate | tx_readwrite.go:408-516 | When any update fails it has changed the heap if and only if it met a missing intermediate, and then it failed on the leaf |
| Images.IncrementFailsDirtyIff | tx_readwrite.go:469-516 | An increment fails having changed the document if and only if its delta is not a number and an intermediate was missing |
| Images.UpdateIsSet | tx_readwrite.go:469-516 | An update that succeeds is the set of what its leaf step makes of the current value |
| Images.CurrentReads | tx_readwrite.go:487-488 | The leaf value an update finds is what the document reads as at the path |
| Images.IncrementAdds | tx_readwrite.go:469-516 | After an increment that succeeds the path reads as the old number (missing or null counts as zero) plus the delta, and no path apart from it changes |
| Images.SetRefines | tx_readwrite.go:424-442 | In place, a set on a document that shares no cells is the set on the document it denotes, fails exactly when that does, and leaves a document that again shares no cells |
| Images.DeleteFits | tx_readwrite.go:447-464 | In place, a delete lays out the document that the delete defines |
| Images.DeleteErases | tx_readwrite.go:447-464 | That layout denotes the deleted document |
| Images.UpdatesSpareOthers | protected.go:353-384 | Any sequence of nested updates of a candidate leaves unchanged every value that shares no cell with what the candidate and the new values reach |
| Images.SharedValueLeaks | protected.go:362-377 | Two candidates given one map object: updating the second changes the first |
| Aliasing.UpdateSparesIff | protected.go:353-384 | An in-place set or delete leaves another value as it lies if and only if the map it writes to is not one of that value's cells or the write puts what is there already |
| Aliasing.UpdateTouchesTarget | tx_readwrite.go:424-442 | Of the cells that were there, an update writes to the last map on its path only |
| Aliasing.ImageHoldsIff | protected.go:353-384 | Through all later work of a batch a candidate lies as it did when its image was taken if and only if none of the later updates writes to one of its cells |
| Aliasing.SharedSetIff | tx_readwrite.go:424-442 | On a document that may share cells, a set in place leaves the document that the set defines if and only if the map it writes to is reached by no other way or the set makes no difference |
| ImageStore.Memory.ApplyFieldUpdate | tx_readwrite.go:424-442 | The descending loop has exactly the effect of the update function, and no effect when it fails |
| ImageStore.Memory.ApplyIncrement | tx_readwrite.go:469-516 | The same for increments, with the exact condition for a failure that changes the document |
| ImageStore.Memory.ApplyDelete | tx_readwrite.go:447-464 | The loop has exactly the effect of the delete function |
| ImageStore.Memory.ApplyUpdates | tx_readwrite.go:383-403 | Updates are applied in order up to the first error; those without a path are skipped |
| ImageStore.Memory.CloneImageValue | protected.go:509-524 | For every image of maps, arrays and byte buffers, shared cells included: the clone denotes the same document in new cells only, none of them shared, and no old cell changes |
| ImageStore.Memory.CloneMap | protected.go:495-504 | The same for the loop over a map |
| ImageStore.Memory.CloneList | protected.go:513-518 | The same for the loop over an array |
| ImageStore.Memory.PrepareImages | protected.go:353-384 | The pre-image is unchanged, the candidate denotes the updated document, the evidence holds equal copies of both, and evidence, candidate and pre-image share no cell |
| ImageBatch.PrepareBatch | protected.go:318-385 | For a whole batch: when the evidence loop is through, every candidate still denotes the image in its evidence, and both denote the updated document |
| ProtectedBatch.PredictionHolds | protected.go:392-439 | For a batch on distinct records, many in one map file and mixed with sibling deletes: if Execute succeeds, preparing again gives each record the revision predicted for it, deletes from a map file excepted |
| ProtectedBatch.PredictionHoldsIff | protected.go:426-427 | With a collision-free hash the exception is exact |
| ProtectedBatch.MapFileDeleteIsMispredicted | protected.go:426-427 | A one-record delete from any map file prepares and executes, and its prediction is wrong |
| ProtectedBatch.ExecutionKeepsFilesOk | protected.go:234-264 | After n operations each map file is the encoding of the fold so far and each single-record file is as its one operation left it |
| ProtectedEffects.BatchDoes | protected.go:333-377 | When a batch executes, Get yields afterwards for an update the changed record of before, for Set and Insert the data, for a delete nothing; Insert was of a missing record, Update and Delete of an existing one |
| ProtectedEffects.BatchSparesOthers | protected.go:215-279 | Every record that no operation names reads as before, those of rewritten map files included |
| ProtectedEffects.PreparesIff | protected.go:310-390 | Preparation succeeds exactly when every record can be read and every update has no transform and applies to the record that is there |
| ProtectedEffects.BatchExecutesIff | protected.go:215-279 | A prepared batch executes exactly when every insert is of a missing record and every update and delete of an existing one |
| ProtectedEffects.DuplicateInsertIsRefused | protected.go:215-279 | A batch that inserts one record twice never executes |
| ProtectedEffects.RevisionChangesIff | protected.go:481-494 | The data revision changes exactly when the file does, or the record comes into being or goes |
| ProtectedEffects.ReadersFind | tx_readonly.go:53-103 | A reader finds nothing in a missing file and otherwise what the file encodes |
| ProtectedStorage.Storage.Prepare | protected.go:310-390 | Preparation yields for every operation the pre-image, the candidate (for an update the changed pre-image) and both revisions, or fails exactly when preparation is impossible |
| ProtectedStorage.Storage.AssignBatchCandidateRevisions | protected.go:392-439 | Grouping by path and one fold per group give each operation its predicted revision, groups in any order |
| ProtectedStorage.Storage.GroupByPath | protected.go:393-396 | Each path's group holds the indexes of all its operations, ascending |
| ProtectedStorage.Storage.FoldGroup | protected.go:418-425 | The loop over one group computes the fold over the whole batch for its file |
| ProtectedStorage.Storage.ExecuteOnce | protected.go:189-195 | Execute works once, has the effect of the operations in sequence, and keeps every starting content saved |
| ProtectedStorage.Storage.Rollback | git_commit.go:19-41 | Rollback restores every saved file unless it stops at one of them, and touches no other |
| ProtectedStorage.Storage.WithinProtectedExecution | protected.go:215-273 | A batch is accepted exactly when it is prepared and the caller accepts; a refusal rolls back or changes only files of the batch; an accepted execution has done every operation, spared every other record and left the predicted revisions; it executes exactly when every operation is admissible |
| RecordPaths.RoundTripIff | record_io.go:20-33 | A key survives escaping and unescaping if and only if it holds no literal escape sequence |
| RecordPaths.EscapeIs | record_io.go:19-28 | Escaping goes character by character: separators become %2F and %5C, everything else stays |
| RecordPaths.ValidSegmentIff | record_io.go:44-63 | A key can name a file exactly when it is not empty, a dot or two dots, has no control characters and spells no separator in either case |
| RecordPaths.ValidSegmentsRoundTrip | record_io.go:44-63 | Every valid key survives |
| RecordPaths.EscapedKeysDiffer | record_io.go:26-28 | Different valid keys have different file names |
| RecordPaths.SplitExpand | record_io.go:115-119 | Expanding a template works segment by segment: a key never adds a directory level |
| RecordPaths.KeySegmentIsKept | record_io.go:44-63 | A segment made from a valid key is never empty, "." or ".." |
| RecordPaths.DistinctKeysDistinctPaths | record_io.go:88-119 | For every template with a placeholder and no "..": record paths are strictly inside the collection and different keys have different paths |
| RecordPaths.KeysCollideIff | record_io.go:110-119 | For every template, ".." included, two different valid keys share a path if and only if cleaning drops every segment that holds the key |
| RecordPaths.ValidKeyIff | record_io.go:88-99 | Without ".." the containment check never decides: a key is accepted if and only if it can name a file |
| RecordListing.ListingRecoversKeyIff | query.go:732-755 | For every template with a placeholder, the extractor gives back the key from the expanded name if and only if there is one placeholder or the text after the first does not come up before the key is over |
| RecordListing.ListingRecoversKey | query.go:732-755 | With one placeholder it always does |
| RecordListing.AmbiguousTemplate | query.go:739-743 | "{key}-{key}" does not give back the key "a-b" |
| RecordListing.ListedFileGivesKeyIff | query.go:732-755 | A record's file, listed relative to the records directory, gives back the key if and only if moreover the template is in clean form |
| ScopedCollections.ResolveScopedCollection | scoped_collection.go:39-105 | The loops over ancestors resolve to the definition and the directory that recursion on the key gives, and report an unknown collection exactly when one is missing and no id was refused first |
| ScopedCollections.NestedResolution | scoped_collection.go:64-104 | By recursion on the record key: a nested collection is the entry of its name in the definition of the collection its parent record is in, with only the directory replaced; each error exactly when it is the first reason |
| ScopedCollections.NestedDirectory | scoped_collection.go:74-97 | Its directory is the parent's id, escaped, and its name below the directory of the parent's collection |
| ScopedCollections.CollectAncestors | scoped_collection.go:55-62 | Prepending parent by parent gives the chain from the root |
| ScopedCollections.DistinctScopesDistinctDirs | scoped_collection.go:64-104 | Under one root, different parent chains or collections live in different directories strictly inside it |
| ScopedCollections.ResolvedDirsDiffer | scoped_collection.go:39-105 | In a schema whose nested collections have single-segment names, whatever resolves under one root resolves to a directory of its own strictly inside it |
| ScopedCollections.NeverEscapes | scoped_collection.go:98-100 | With plain collection names the containment check never fires |
| Ordering.CompareIsTextOrder | query.go:946-962 | Texts compare as in a dictionary: a proper prefix first, otherwise by the first character that differs |
| Ordering.SortByAscends | access_generation.go:402 | Sorting keeps every element, and no key comes after one that follows it |
| QueryValues.CompareValuesIs | query.go:946-962 | Two numbers compare by magnitude, anything else by the dictionary order of the texts |
| QueryValues.OrderedIff | query.go:946-962 | compareValues orders a column if and only if no text lies between two of its numbers against their order |
| QueryValues.UsualColumnsAreOrdered | query.go:946-962 | Columns of finite numbers and nulls are ordered with nulls last, and so are columns without numbers |
| QueryValues.MixedColumnsCycle | query.go:946-962 | 10, "5" and 9 form a cycle |
| QueryValues.RowsTransitive | query.go:804-834 | Several ORDER BY expressions, some descending, order the records when each column is ordered |
| QueryValues.RowsMirror | query.go:804-834 | Swapping two records negates their comparison |
| QueryValues.FirstDifferenceDecides | query.go:804-834 | The first ORDER BY expression that tells two records apart decides, ascending or descending as it says |
| QueryValues.FlippingReverses | query.go:804-834 | Turning every direction around turns the ordering around |
| StableOrder.OneStableArrangement | query.go:804-834 | There is only one stable ordering |
| StableOrder.SortedIsStable | query.go:804-834 | There is one whenever the comparison orders the records |
| QueryEngine.ApplyWhere | query.go:785-802 | Compaction in place leaves exactly the filtered records in front, or reports that a condition could not be evaluated |
| QueryEngine.FilterSelects | query.go:785-802 | Filtering keeps exactly the matching records, in their order |
| QueryEngine.ApplyOrderBy | query.go:804-834 | Sorting in place is a rearrangement, and the stable ordering if the columns can be ordered |
| QueryEngine.OrderAndCut | query.go:95-109 | Ordering, offset and limit give the page of that ordering |
| QueryEngine.ExecuteQuery | query.go:79-119 | A query without GROUP BY returns the page (limit 0 unbounded) of the stable ordering of the matching records |
| QueryEngine.OneAnswer | query.go:79-119 | That answer is unique when the columns can be ordered |
| QueryEngine.AnswerAscends | query.go:804-834 | Of two rows of an answer the later one does not come before the earlier one by the first expression; rows that nothing tells apart keep their order |
| QueryEngine.RecordsAscend | query.go:836-944 | Ordering by $id orders by ids, by any other field by what is stored there, nothing counting as null |
| QueryEngine.AnswerIsOfMatching | query.go:37-123 | Every row of an answer is a matching row, and without offset and limit all of them are there as often as they match |
| Grouping.SameKeyIff | query.go:241-251 | Two records have the same group key if and only if all their grouping values agree in type and text, for renderings without NUL bytes; for scalars, which type and text determine, if and only if the values are equal |
| Grouping.Partition | query.go:129-161 | Non-empty groups in first-seen order that cover every record once, records together exactly when their keys are equal, sizes adding up to the number of records |
| Grouping.TogetherIff | query.go:129-161 | Two records share a group if and only if their grouping values agree in type and text; for scalars, if and only if the values are equal |
| Grouping.GroupColumnReadsBack | query.go:256-270 | A grouping column reads back what every record of its group was grouped by, the same type and text and, for scalars, the same value; $id reads a stored field instead |
| Grouping.CountsAddUp | query.go:273-282 | COUNT(*) over all groups before HAVING adds up to the number of filtered records |
| Grouping.CountField | query.go:283-297 | The counting loop counts the non-null values |
| Grouping.FindExtreme | query.go:326-353 | The loop computes MIN and MAX |
| Grouping.ExtremeBounds | query.go:326-353 | On an ordered column MIN and MAX are among the non-null values and bound them all, and are null exactly when there is none |
| Grouping.ApplyGroupBy | query.go:125-238 | A grouped query returns the page of the stable ordering of the output rows of the groups that pass HAVING, and fails if and only if a group key, an output row or HAVING cannot be evaluated |
| GroupedAnswers.AnswerColumnsHold | query.go:163-361 | Every row of a grouped answer is that of a group that passes HAVING, and each column that is not overwritten holds what it stands for over the members: counts of members or non-null values, the constant, the first member's field, and for MIN and MAX a non-null value that bounds all others, or null |
| GroupedAnswers.EveryGroupAnswers | query.go:125-238 | Without offset and limit every group that passes HAVING is in the answer, once |
| GroupedAnswers.SumsAdd | query.go:298-325 | SUM adds up over a division of the records, and AVERAGE lies between the averages of the parts |
| GroupedAnswers.SumOfOne | query.go:298-325 | SUM and AVERAGE of one record are its number, or null |
| GroupedAnswers.GroupedById | query.go:241-251 | Grouped by $id, records are together exactly when they have the same id |
| Grouping.AddNumbers | query.go:298-325 | The adding loop sums the numbers of a column, skipping nulls and everything that is not a number |
| Grouping.OneGrouping | query.go:129-161 | There is only one partition in first-seen order |
| Grouping.OneGroupedAnswer | query.go:125-238 | So groups, output rows and, when the ordering columns can be ordered, the answer are unique |
| SchemaRuns.EveryRunDescribes | schema_modifier.go:137-194 | After any sequence of AlterCollection calls, some failing, on a collection created with distinct names: the definition on disk is the fold of exactly the applied operations, columns_order lists the columns once each, hints are empty or follow it by name and carrier type, and describing never fails |
| SchemaRuns.RunIsFold | schema_modifier.go:137-194 | The definition on disk is the fold of exactly the applied operations, for any starting definition |
| SchemaRuns.ExportedAlterIff | schema_reader.go:98-132 | An altered export can be described if and only if the operation does not change its visible columns |
| SchemaRuns.AddingToExportBreaksIt | schema_modifier.go:505-516 | Any new field added to any export makes it impossible to describe |
| SchemaRuns.KeyColumnsExistIff | schema_modifier.go:207-323 | No operation changes the primary key, so its columns go on existing if and only if none of them is dropped or renamed |
| SchemaSoundness.StepKeepsSound | schema_modifier.go:207-323 | Every operation keeps the invariant on columns, order and hints |
| SchemaSoundness.ModifyKeepsSound | schema_modifier.go:248-298 | Modifying a field refreshes its hint in place, under its new name |
| SchemaSoundness.BuiltIsSound | schema_modifier.go:412-500 | A created definition satisfies the invariant |
| SchemaSoundness.SoundDescribes | schema_reader.go:59-251 | A definition with the invariant can be described |
| SchemaSoundness.CreatedRoundTripIff | schema_reader.go:59-251 | Describing a created collection gives back its declaration if and only if it has a primary key, no field named $key and no precision without digits |
| SchemaSoundness.ExportedRoundTripIff | schema_modifier.go:505-516 | An export is described if and only if no field is named $key, and gives back its declaration, empty primary key included, exactly when every precision has digits |
| SchemaSoundness.FieldReadsBack | schema_reader.go:127-203 | A field is read back from its column and hint if and only if its precision, if any, is positive |
| SchemaEffects.DescribedAfterAdd | schema_modifier.go:207-231 | An added field is described after all others, with the type, nullability and defaults that its column keeps |
| SchemaEffects.DescribedAfterDrop | schema_modifier.go:233-246 | A dropped field leaves the description; the others stay in order, as their columns describe them |
| SchemaEffects.DescribedAfterRename | schema_modifier.go:300-323 | A renamed field keeps its place and what its column says of it |
| SchemaEffects.DescribedAfterModify | schema_modifier.go:248-298 | With hints intact, a modified field is described exactly as declared, in the place of the old one, and every other field as before |
| SchemaEffects.AlterSucceedsIff | schema_modifier.go:141-323 | The exact condition on columns, names, types and defaults under which each alteration succeeds |
| SchemaEffects.AlterKeepsColumns | schema_modifier.go:141-323 | An alteration keeps every column under its name or its new one, with the type of the new field where it is modified |
| SchemaEffects.AlterAddsOnly | schema_modifier.go:207-231 | Only an added field is new, with the column of its type and nullability |
| SchemaEffects.AlterKeepsRest | schema_modifier.go:141-206 | Name, key, format, key mode and retained parts stay |
| SchemaEffects.DefinitionDeclares | schema_modifier.go:415-516 | A created or exported definition has exactly the declared fields in their order, their columns and encodings, the declared key, and for an export how records get their keys |
| SchemaChanges.BuildDefinition | schema_modifier.go:412-500 | The building loop yields the definition, or fails exactly when a field cannot be represented |
| SchemaChanges.Applier.ApplyAddField | schema_modifier.go:207-231 | AddField has exactly the effect of its step |
| SchemaChanges.Applier.ApplyDropField | schema_modifier.go:233-246 | DropField has exactly the effect of its step |
| SchemaChanges.Applier.ApplyModifyField | schema_modifier.go:248-298 | ModifyField has exactly the effect of its step when it succeeds, and succeeds exactly when the step does |
| SchemaChanges.Applier.ApplyRenameField | schema_modifier.go:300-323 | RenameField has exactly the effect of its step |
| SchemaChanges.DefinitionFile.AlterCollection | schema_modifier.go:137-194 | The loop with its flush after each operation leaves the fold of the applied operations and says how many there were |
| SchemaReader.DescribeCollection | schema_reader.go:59-251 | Describing fails exactly when the definition cannot be described, and otherwise gives its description |
| SchemaReader.EveryRunIsDescribed | schema_reader.go:59-251 | After every run of AlterCollection calls on a created collection, describing succeeds in the order in which it goes through the columns |
| SchemaReader.FieldOrder | schema_reader.go:60-67 | The order of description is columns_order, or the sorted column names when it is empty |
| SchemaReader.ApplyHints | schema_reader.go:114-204 | Editing the fields in place completes each from its hint, or fails exactly when a hint is out of place or cannot be read |

## Left out

- The lease, live-snapshot, transaction-lock and Git protocols are state machines over values: interleaving is captured, mutation of shared memory inside one mutex-guarded section is one step.
- CloseProgress.CallReturnsIff: says that a call can return, not that it does under every scheduler, because the model has no fairness assumption; an error or a cancelled wait before the file lock is taken releases a call and is an action of its own.
- TransactionIsolation.ReadersSeeWholeTransactions: a process that dies inside its worker leaves a state of kind Broken, because snapshots are kept in memory only and nothing replays them.
- AccessRepository.Controller.Materialize: symbolic links, permission bits and an empty `policies` directory are not modelled, because they are device checks around the same effects.
- Texts of YAML and JSON files: a file is the value it decodes to plus a layout number.
- Transactions outside a Git work tree: the commit then does nothing, as without a message.
- Paths with white space in the output of git ls-tree, glob metacharacters and excluded files in listings.
- Nested collections in foreign-key checks: the delete scan of the code covers top-level collections only, and so does the model.
- Locale mapping, codecs, formula evaluation and condition evaluation (`evaluateCondition`, `condeval`): functions without further structure.
- Grouping.AddNumbers: sums of reals without the rounding of float64.
- QueryValues.OrderedIff: NaN and infinities are not values of the model; finite floats are reals.
- ForeignKeys.CoercedKeyDangles: uses a rendering that prints the float 1000000 as 1e+06, as Go's %v does.
- RecordListing.ListingRecoversKeyIff: excludes a line feed in the template; templates without a placeholder, names on Windows, and a template with a literal NUL character after its first placeholder, which `buildKeyExtractor` turns into a ".*" of its own (query.go:732-755), are not modelled.
- RecordListing.ListedFileGivesKeyIff: is for templates without "..", because a path that climbs need not lie under the records directory.
- RecordPaths.DistinctKeysDistinctPaths: excludes templates with a ".." segment; `KeysCollideIff` covers them.
- ScopedCollections.DistinctScopesDistinctDirs: is for collection names that are single plain segments, because nested collections are named by directories and created from the segments of a validated name (schema_modifier.go:339-363 and 386-389).
- Images.SetRefines: is for documents and values that share no cells; `SharedSetIff` is the exact result for those that do.
- Aliasing.SharedSetIff: excludes a value that holds the map it is put into, because the document would then be infinite.
- ImageStore.Memory.PrepareImages: is for new values that share no cells; with sharing `ImageHoldsIff` is the exact condition for its evidence to stay true.
- ImageStore.Memory.CloneImageValue: identifies nil maps and slices with empty ones, and other reference types, which the code does not copy, are not values of the model.
- ProtectedStorage.Storage.WithinProtectedExecution: a caller that ignores a failed execution and accepts keeps the operations before the failure, as in the code; the contract says nothing about the files then.
- ProtectedBatch.PredictionHolds: an Insert or Set with nil data is not modelled, nor the refusal of collections with computed columns or foreign keys, because it precedes everything else and leaves no effect.
- SchemaChanges.DefinitionFile.AlterCollection: a torn write of definition.yaml and record files rewritten before a later one fails are not modelled; both count as a failed operation.
- Indexes, foreign keys, source definition and rights of a source schema are one retained text, because they are copied both ways.
- Column projection without GROUP BY, HAVING's own comparisons, recordset readers and the lazy formula path: easy members or dependent on an unseen library.
- Batch parsers, the registry of root collections, collection-name validation, creation of sub-collections and CollectionForKey: easy members.
- DDL running beside transactions: DDL does not take the transaction lock, so nothing is claimed about it.
