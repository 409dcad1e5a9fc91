# LiteAPI core: a verified model

A Dafny model of the parts of LiteAPI's core where state, order and text formats are easiest to get
wrong, with proofs of what they keep and of where they fall short.

| file | what it models |
|---|---|
| `Persist.dfy`, `PersistFields.dfy` | the coalesced background write of the workspace state: mutators, one writer generation at a time, stoppers and the synchronous flush, as a transition system over the critical sections of two locks; and the same sections as methods on the App's fields |
| `OAuth2.dfy` | the credential store shared by windows: the three-way delta merge, the fingerprint that gates it, and any number of windows over one file |
| `ImportTransaction.dfy` | the import of collections as a transaction over a filesystem that may refuse any call |
| `CollectionRunner.dfy` | the two-level run loop with script-driven jumps, bail, stop and cancel |
| `SiblingOrder.dfy` | the order of a folder's children, and their renumbering |
| `Paths.dfy` | folder paths: normalising, cleaning and joining them |
| `FolderPaths.dfy`, `FolderNames.dfy`, `FolderRenameBack.dfy` | creating, renaming and deleting folders by rewriting path prefixes; what each changes and answers, and the names folders carry; renaming back, and folders that share a display path |
| `FolderChains.dfy` | restoring the folders a filtered import still needs |
| `CookieMatch.dfy`, `CookieStore.dfy`, `JarContents.dfy`, `CookieHeader.dfy` | the cookie jar: keys, matching, storing, the script merge; what it holds and sends, cookie by cookie; and the Cookie header |
| `Curl.dfy`, `CurlRequests.dfy` | the curl command: its generator, its splitter and its importer; requests there and back, and any other command line |
| `GrpcAuthority.dfy` | the authority grammar of gRPC targets |
| `FlowPath.dfy` | the JSON paths of flows: parser, printer and walk |
| `OpenTabs.dfy`, `TabEffects.dfy` | open, closed and active tabs; what each operation leaves of them |
| `Text.dfy`, `Ordering.dfy` | the string functions and the stable sort the others share |

Each operation that changes state is a method on a class with the source's fields, tied by its postcondition
to a specification function; the properties are lemmas about those functions, over every input, every
interleaving or every run of operations.

## Where the code falls short of its comments

- A synchronous write (`persistLocked`) that fails is neither retried nor marked dirty: its change can be on no
  disk and owed by nobody (`FailedSyncCanLoseAChange`). So can a change that no one marks, such as the pruning of
  tabs and expired cookies whenever the App is made ready (`UnmarkedChangeCanBeLost`); exactly when: `UncoveredExactly`.
- A flush can return without error before the write a background writer has already claimed
  (`FlushCanReturnBeforeTheClaimedWrite`, and exactly when: `CleanFlush`); after a stop it cannot, but it still misses
  a change given up as above (`CleanShutdownCanMissAChange`, and exactly when: `FlushAfterStop`).
- A flush whose write fails marks the state dirty again without starting a writer (`FailedFlushCanStrand`, and
  exactly when: `StrandedExactly`).
- The move of a replaced collection back into place ignores its own failure, so an import can report everything
  restored while the collection is only in its backup directory (`DroppedPutBack`, and exactly when: `NilMeansBack`).
- Folders are told apart by directory name but displayed, deleted and filled by display path, into which the
  folder's name goes unchecked. Two folders come to share a display path (`NamesakesArise`, and exactly when:
  `StepKeepsApart`); deleting one folder takes its namesakes from the collection and leaves their directories
  (`NamesakesGoToo`). A name of two dots displays a folder above the one that holds it, so that deleting it deletes
  that one (`DotDotBreaksTree`, `DotDotDeletesAround`), and a name of slashes leaves a root folder without a
  display path (`SlashBreaksTree`); exactly which names keep the tree: `StepKeepsTree`. Renaming a folder back does
  not always restore it (`SlashNameDoesNotComeBack`, and exactly when: `RenameBackExactly`). A folder is not always
  named as it is displayed (`BlankNameDiffers`, and exactly when a rename keeps it so: `RenameNames`).
- Deleting a folder changes the collection in memory before the directory is removed, so a refused removal
  returns an error over a changed tree (`RefusedRemovalForgets`); and every folder operation ends by returning what
  marking the state dirty reports, so that an error may stand for an operation that was done
  (`UnsavedCreationStays`); exactly when: `FailureLeavesTree`.
- A sequence number shared by two children pushes the first one on (`EqualNumbersShift`, and exactly when:
  `EqualNumbersPush`).
- A cookie's key joins its parts with bars that path and name may contain (`StorableCollide`, and exactly when:
  `KeyIdentifies`); a cookie path ending in two slashes is sent too widely (`DefaultPathWithSlashes`,
  `PathMatchIsRfc`), and an IP address can match a domain that is its tail (`AddressTailReached`,
  `DomainMatchIsRfc`). A cookie with a domain that was set by a host written with a dot at its end never goes back
  to that host (`DotAtTheEndLosesCookie`, and exactly when: `SetterGetsItBack`).
- A script that does not touch a cookie writes its old value back over a change made meanwhile (`IdleScriptReverts`).
- A generated curl command with a body and method GET comes back as POST, and a file part or file body comes back
  as text (`ImportedBack`).

## Model

| member | source | states |
|---|---|---|
| PersistProtocol.RunKeepsInv | internal/core/app_persist.go:273-459 | Every interleaving of mutators, writers, stoppers and flushes keeps: at most one live writer generation, the newest; each stop channel closed at most once and each done channel exactly on exit; a stopper waits for the right channel |
| PersistProtocol.NothingIsLost | internal/core/app_persist.go:334-399 | After every run, when the state lock is free: disk and memory differ with no dirty flag and no writer holding an unfinished claimed write exactly when the last change was given up, after a failed synchronous write or never marked, at a moment with neither, and nothing was marked or landed since |
| PersistProtocol.UncoveredExactly | internal/core/app_persist.go:548-561 | The same at every moment of every run, counting what a flush or a caller holding the lock still owes |
| PersistProtocol.FailedSyncCanLoseAChange | internal/core/app_persist.go:548-561 | One way there: a reachable state in which a single failed synchronous write has left a change on no disk, not dirty and owed by nobody |
| PersistProtocol.UnmarkedChangeCanBeLost | internal/core/app_bootstrap.go:47-51 | The other way, in a run without any failure: memory is changed under the lock and neither marked nor written |
| PersistProtocol.OwedUntilLanded | internal/core/app_persist.go:364-393 | No single step other than a landing write discharges an owed write |
| PersistProtocol.MarkIsOwedUntilAWriteLands | internal/core/app_persist.go:364-384 | Over any run from a marked state the write stays owed through claims, failures, retries and flushes until one lands; a failed write is always marked dirty again |
| PersistProtocol.DirtyIsScheduled | internal/core/app_persist.go:283-297 | After every run, dirty and not stopped implies a live writer, unless the last flush that set the flag back found none and no mark, flush or stop came since |
| PersistProtocol.StrandedExactly | internal/core/app_persist.go:532-536 | After every run a dirty state is without a writer exactly in that case |
| PersistProtocol.FailedFlushCanStrand | internal/core/app_persist.go:532-536 | Such a stranded state is reachable |
| PersistProtocol.CleanFlush | internal/core/app_persist.go:515-539 | Whatever runs meanwhile, a flush that returns clean leaves disk equal to memory exactly when it found the dirty flag set or the disk up to date |
| PersistProtocol.CleanFlushIsEnough | internal/core/app_persist.go:515-539 | After every run, a clean flush leaves disk equal to memory if it found the flag set, or no writer with a claimed write and no change given up |
| PersistProtocol.FlushCanReturnBeforeTheClaimedWrite | internal/core/app_persist.go:368-372 | The other case is reachable: a flush that finds the flag cleared by a writer which has claimed but not taken the state lock returns without error over a stale disk |
| PersistProtocol.StopIsFinal | internal/core/app_persist.go:401-435 | After a stop has returned, no step is a background write and no generation is added |
| PersistProtocol.NoBackgroundWriteAfterStop | internal/core/app_persist.go:401-435 | The same over every later run, with the writers' channels left as they were |
| PersistProtocol.FlushAfterStop | internal/core/app.go:433-444 | Stop then flush, the order of shutdown: over every run and whatever is interleaved, a flush that finishes without a failed write of its own leaves disk equal to memory exactly when no change was given up as above |
| PersistProtocol.CleanShutdownCanMissAChange | internal/core/app.go:433-444 | The exception is reachable without any failure: a clean shutdown leaves an unmarked change off the disk |
| PersistProtocol.StopTerminates | internal/core/app_persist.go:343-362 | Once stopped, every writer step uses up one of finitely many and no other step adds any |
| PersistProtocol.StopMakesProgress | internal/core/app_persist.go:418-435 | A waiting stop is never deadlocked: it may return, or the writer it waits for can step, or someone else holds the state lock |
| PersistProtocol.RevisionCountsMutations | internal/core/app_persist.go:22-25 | The revision counts each marked or synchronously persisted mutation exactly once; writer and flush never move it |
| PersistProtocol.ParkedExactly | internal/core/app_persist.go:283-303 | After every run the parked error is that of the last background write which failed, was settled, and was not taken by a mark or a flush since, and there is none if there is no such write |
| PersistProtocol.FailuresExactly | internal/core/app_persist.go:375-393 | After every run the failure count is the number of failed writes settled since the last successful one |
| PersistProtocol.DirtyExactly | internal/core/app_persist.go:364-384 | After every run the state is dirty exactly when a mark, a failed write or a failed flush set the flag and no claim has cleared it since |
| PersistProtocol.StoppedExactly | internal/core/app_persist.go:418-430 | After every run the App is stopped exactly when a stop was requested |
| PersistFields.PersistBackoff | internal/core/app_persist.go:437-446 | The retry delay is the debounce doubled once per failure after the first, never beyond the ceiling |
| PersistFields.RetryDelays | internal/core/app_persist.go:437-446 | The retry delays are 250, 500, 1000, 2000 and 4000 milliseconds, then 5000 |
| PersistFields.App.constructor | internal/core/app_persist.go:273-303 | A fresh App is the protocol's initial state |
| PersistFields.App.MarkDirty | internal/core/app_persist.go:273-303 | On the fields: the protocol's mark; the caller gets the secret store's failure, else the parked one, which is taken off either way |
| PersistFields.App.WriterClaim | internal/core/app_persist.go:353-369 | On the fields: the protocol's claim or exit; the write is claimed exactly when the state is dirty and not stopped |
| PersistFields.App.WriterSettle | internal/core/app_persist.go:375-393 | On the fields: a failed write is marked dirty again, parked and counted, and retried after the debounce doubled once per earlier failure, capped at the ceiling; a landed one clears the count |
| PersistFields.App.StopPersistWriter | internal/core/app_persist.go:418-430 | On the fields: the protocol's stop request and the done channel the caller will wait on |
| PersistFields.FlushRuns | internal/core/app_persist.go:520-539 | The protocol actions of a flush are enabled in turn and end in the state the flush is meant to end in |
| PersistFields.App.FlushPersist | internal/core/app_persist.go:509-539 | On the fields: the protocol's flush from lock to unlock, which failure the caller gets, and a clean flush leaves disk equal to memory |
| OAuth2Merge.MergeDelta | internal/core/app_oauth2_store.go:227-243 | The two loops compute the pointwise three-way merge: a key the window changed against its baseline takes the window's value or absence, every other key keeps the disk's |
| OAuth2Merge.NoDeltaNoChange | internal/core/app_oauth2_store.go:227-243 | A window that changed nothing leaves the disk as it is |
| OAuth2Merge.DisjointStoresCommute | internal/core/app_oauth2_store.go:227-243 | Stores whose changed keys are disjoint give the same disk in either order |
| OAuth2Fingerprint.StreamDecodes | internal/core/app_oauth2_store.go:191-217 | The digested byte stream decodes back to the pair of maps it was written from |
| OAuth2Fingerprint.StreamIsInjective | internal/core/app_oauth2_store.go:191-217 | No two pairs of maps share a stream, whatever bytes keys and values contain |
| OAuth2Fingerprint.CollectKeys | internal/core/app_oauth2_store.go:194-199 | Sorting the collected keys gives the one sorted listing of the map's domain |
| OAuth2Fingerprint.WriteHalf | internal/core/app_oauth2_store.go:191-217 | One map's half of the stream, written entry by entry |
| OAuth2Fingerprint.TokenMapFingerprint | internal/core/app_oauth2_store.go:191-217 | The digest is fed both halves, baseline first |
| OAuth2Windows.GateIsSound | internal/core/app_oauth2_store.go:100-105 | When the fingerprint gate fires the delta is empty, and skipping leaves the disk the full merge would have written |
| OAuth2Windows.GateFiresExactly | internal/core/app_oauth2_store.go:169-179 | After a store the gate fires exactly as long as neither of the window's maps has moved |
| OAuth2Windows.AgreeAfterStore | internal/core/app_oauth2_store.go:166-168 | After a store baseline and local agree, with the disk too unless gated, and the disk is what the full merge would have written |
| OAuth2Windows.GateLeavesIdleWindowStale | internal/core/app_oauth2_store.go:100-105 | A gated store leaves an idle window without what others wrote, concretely |
| OAuth2Windows.StepOnDisk | internal/core/app_oauth2_store.go:83-182 | What one action of one window does to one key on disk |
| OAuth2Windows.DiskIsLastCommit | internal/core/app_oauth2_store.go:122-168 | For any number of windows and any interleaving of edits, loads and stores, each key on disk is what the last store whose window had changed it committed, or never moved |
| OAuth2Windows.UneditedKeyIsUnchanged | internal/core/app_oauth2_store.go:227-243 | A window in step on a key that does not edit it never counts as having changed it, over every run |
| OAuth2Windows.UneditedKeyStays | internal/core/app_oauth2_store.go:227-243 | A key no window edits stays as it is on disk through every run |
| OAuth2Windows.LoadedIsDisk | internal/core/app_oauth2_store.go:48-81 | After a load every key reads the same in the window, in its baseline and on disk |
| OAuth2Windows.LoadSeesLastCommit | internal/core/app_oauth2_store.go:48-81 | After every run a window that loads holds, for each key, what the last store whose window had changed it committed |
| OAuth2Windows.EditShows | internal/core/app_oauth2_store.go:227-243 | An edit shows in its window under its key alone, and counts as a change exactly when the baseline says otherwise |
| OAuth2Windows.FailedStoreCanBeRetried | internal/core/app_oauth2_store.go:83-182 | A failed store leaves every window as it was, and storing again gives what the store would have given, also when the removal of an emptied file had landed |
| OAuth2Windows.CredentialWindow.LoadCredentials | internal/core/app_oauth2_store.go:48-81 | A load that reads the file replaces both maps and leaves a recorded digest; a missing or blank file and a failure leave the window as it was, and only the failure is an error |
| OAuth2Windows.CredentialWindow.StoreCredentials | internal/core/app_oauth2_store.go:83-182 | The store method takes the window and the file where the protocol's store action does; a failure leaves the window as it was |
| ImportTransaction.ReplacedIsBackOrKept | internal/core/collection_import_apply.go:296-318 | After a rollback what a target held before the batch is in place or in the backup of its first replacement, and in place if no failure is reported, however often the batch replaced it |
| ImportTransaction.CreatedIsGone | internal/core/collection_import_apply.go:296-351 | A rollback whose removals and renames succeed, a removal by its second attempt if not its first, removes every collection the batch created |
| ImportTransaction.BackupsAreGone | internal/core/collection_import_apply.go:296-351 | Such a rollback leaves no backup path |
| ImportTransaction.NoFaultNoError | internal/core/collection_import_apply.go:296-351 | A rollback reports no failure when every backup is there and nothing refuses to put a replaced collection back; a new collection that stays is not reported |
| ImportTransaction.MaterializeEffect | internal/core/collection_import_apply.go:607-641 | Staging, writing and renaming into place changes the target or nothing, outside its own staging directory |
| ImportTransaction.ReplaceEffect | internal/core/collection_import_apply.go:553-580 | What a replacement leaves at target and backup for every answer of the system, the dropped put-back included |
| ImportTransaction.ApplyOneEffect | internal/core/collection_import_apply.go:535-605 | The effect of applying one collection, in each of its outcomes |
| ImportTransaction.BatchTracks | internal/core/collection_import_apply.go:62-169 | A whole batch keeps track: where the content of every path is now, which targets are new, which backups exist |
| ImportTransaction.NothingIsLost | internal/core/collection_import_apply.go:153-183 | Whatever the system refuses, after an aborted import every earlier collection is in place or in a backup directory |
| ImportTransaction.NilMeansBack | internal/core/collection_import_apply.go:559-566 | An aborted import that reports no restore failure has every replaced collection back exactly when none was moved aside for a first replacement and then refused its move back |
| ImportTransaction.DroppedPutBack | internal/core/collection_import_apply.go:563-566 | Concretely: the refused move back is dropped, the import reports everything restored, and the collection is only in its backup |
| ImportTransaction.AbortRestoresExactly | internal/core/collection_import_apply.go:296-351 | When every removal of the rollback succeeds by its second attempt, no rename is refused and the failing collection was cleaned up, the filesystem is exactly as before the batch |
| ImportTransaction.CleanupEffect | internal/core/collection_import_apply.go:184-188 | What dropping the backups of a committed batch removes |
| ImportTransaction.CommitLeavesNothingBehind | internal/core/collection_import_apply.go:170-188 | A committed import keeps every collection, leaves untouched ones alone and no staging directory, and no backup if each removal succeeds by its second attempt |
| ImportTransaction.ApplyOneExactly | internal/core/collection_import_apply.go:535-605 | Applying one collection fails exactly when the answers of the system say so; otherwise it is skipped, or put at its own path, or at the first free name from 2 on |
| ImportTransaction.ImportExactly | internal/core/collection_import_apply.go:62-193 | An import is aborted exactly when the answers let some selection fail, or let the save fail after something was applied; a committed one leaves every target as the selections say, one after the other |
| ImportTransaction.SmoothImportCommits | internal/core/collection_import_apply.go:170-193 | An import commits when the system refuses nothing, meets no symbolic link and the state is saved |
| ImportTransaction.LastTreeStays | internal/core/collection_import_apply.go:62-169 | A committed target holds the tree of the last selection put there |
| ImportTransaction.Importer.RemovePath | internal/core/collection_import_apply.go:339-351 | Two attempts, a missing path counting as removed |
| ImportTransaction.Importer.RenamePath | internal/core/collection_import_apply.go:633-638 | Rename on the importer's filesystem |
| ImportTransaction.Importer.MaterializeCollection | internal/core/collection_import_apply.go:607-641 | The staged install, on the importer's filesystem |
| ImportTransaction.Importer.ApplyCollection | internal/core/collection_import_apply.go:535-605 | Skip, replace or a fresh name, on the importer's filesystem and mutation list |
| ImportTransaction.Importer.RollbackMutations | internal/core/collection_import_apply.go:296-318 | The reverse loop computes the rollback of the whole mutation list |
| ImportTransaction.Importer.ApplySelections | internal/core/collection_import_apply.go:62-169 | The batch, stopping at the first failure |
| ImportTransaction.Importer.CleanupBackups | internal/core/collection_import_apply.go:184-188 | The loop over backups |
| ImportTransaction.Importer.ApplyImport | internal/core/collection_import_apply.go:153-192 | Commit or abort: the whole import is the specification's |
| CollectionRunner.RunIsBounded | internal/core/app_runner.go:100-250 | Whatever the scripts answer, the run ends, each iteration makes at most 10001 passes and as many sends per request, and passes, sends and rows of the whole run are bounded |
| CollectionRunner.RunIsDecided | internal/core/app_runner.go:100-250 | The answers decide the whole run: each row's status from its own answer (failed exactly when sent, not interrupted and answered by an error, a code of 400 or more or a failed test), which requests are sent, which request each next row is about (the first of the name a script asked for, the next one, or the first of the next iteration), when the run stops, and that it has jumped too often exactly when one iteration was steered more than 10000 times |
| CollectionRunner.CleanRunPasses | internal/core/app_runner.go:160-196 | A run of supported requests that are all sent and answered cleanly passes every row |
| CollectionRunner.BailsAtFirstFailure | internal/core/app_runner.go:197-206 | With bail the run ends with the first request that fails |
| CollectionRunner.ClosedExactly | internal/core/app_runner.go:251-256 | The reported rows are those of the run and hold a cancelled one, the last, exactly when the run was cancelled, in a request or outside |
| CollectionRunner.SelectedExactly | internal/core/app_runner.go:286-304 | An item is kept exactly when its id, not empty, is among the trimmed ids selected |
| CollectionRunner.PassRows | internal/core/app_runner.go:108-250 | One pass adds the row of its request, and after a failure with bail the unrun rows, after which the run is over |
| CollectionRunner.BailShape | internal/core/app_runner.go:48-60 | With bail a run has no failed row, or exactly one, that of the last request sent, followed by exactly one unrun row for each later index of that iteration; without bail there are no unrun rows |
| CollectionRunner.CancelledIsLast | internal/core/app_runner.go:110-113 | A cancelled row can only be the last |
| CollectionRunner.EachRequestOncePerIteration | internal/core/app_runner.go:100-250 | An undisturbed run gives every request exactly one row per iteration, in order, and completes all iterations |
| CollectionRunner.CountsSumToTotal | internal/core/app_runner.go:257-282 | Passed, failed, skipped, cancelled and unrun rows sum to the snapshot's total |
| CollectionRunner.BailReportsOneFailure | internal/core/app_runner.go:257-282 | A bailed run's snapshot counts exactly one failure |
| CollectionRunner.NameIndex | internal/core/app_runner.go:81-83 | The name index maps each name to its first request |
| CollectionRunner.FilterItems | internal/core/app_runner.go:286-304 | The selected requests in collection order, all of them without a selection |
| CollectionRunner.AppendUnrun | internal/core/app_runner.go:48-60 | One unrun row for each later index, in order |
| CollectionRunner.OnePass | internal/core/app_runner.go:108-250 | One turn of the inner loop is one step of the flat machine |
| CollectionRunner.RunLoops | internal/core/app_runner.go:100-250 | The two nested loops, with their breaks and jumps, visit exactly the flat machine's states and end |
| CollectionRunner.RunCollection | internal/core/app_runner.go:62-284 | The run's snapshot counts what its rows are; too many jumps report an error and no snapshot |
| SiblingOrder.OrderedPermutes | internal/core/app_collection_watch.go:105-136 | The ordering is a permutation of its input |
| SiblingOrder.SequencedPosition | internal/core/app_collection_watch.go:119-134 | With distinct positive numbers the k-th smallest (from 0) ends at min(number - 1, unsequenced count + k); no later insertion moves it |
| SiblingOrder.EqualNumbersPush | internal/core/app_collection_watch.go:119-134 | With numbers that may be equal, the k-th smallest ends at that place exactly when the next one does not have the same number in a list that already reaches it |
| SiblingOrder.EqualNumbersShift | internal/core/app_collection_watch.go:119-134 | Two children numbered 1 change places |
| SiblingOrder.UnsequencedStayAlphabetical | internal/core/app_collection_watch.go:106-118 | The unsequenced children keep their alphabetical order, ties their old order |
| SiblingOrder.NumberedIsFixed | internal/core/app_collection_watch.go:105-136 | Children numbered 1..n are put at their numbers |
| SiblingOrder.Partition | internal/core/app_collection_watch.go:110-118 | The loop splits sequenced from unsequenced, keeping order |
| SiblingOrder.InsertAt | internal/core/app_collection_watch.go:132-133 | Widening the slice and overwriting one element inserts it |
| SiblingOrder.SortSiblings | internal/core/app_collection_watch.go:105-136 | Sort, partition, sort and insert compute the ordering |
| Resequencing.ResequencedIsNumbered | internal/core/app_collection_watch.go:76-97 | After a resequencing the children are numbered exactly 1..n, the re-sort of the folder list included |
| Resequencing.ResequencedByRank | internal/core/app_collection_watch.go:76-97 | Each child takes its rank in the ordering as its number, every other folder and request keeps its own, nothing else changes, and the folders are re-sorted |
| Resequencing.SiblingsExactly | internal/core/app_collection_watch.go:43-75 | The children are the folders right below by physical or by display path and the requests displayed there, each once |
| Resequencing.NumberedKeeps | internal/core/app_collection_watch.go:76-97 | A collection whose children are numbered keeps every number |
| Resequencing.ResequencingTwice | internal/core/app_collection_watch.go:76-97 | Resequencing twice is resequencing once |
| Resequencing.Collection.CollectSiblings | internal/core/app_collection_watch.go:43-72 | The children of a folder: folders by physical or display parent, requests by display path |
| Resequencing.Collection.AssignNumbers | internal/core/app_collection_watch.go:77-96 | The loop gives each child its rank, in place, and touches nothing else |
| Resequencing.Collection.Resequence | internal/core/app_collection_watch.go:43-103 | The whole resequencing, in place |
| FolderPaths.AncestryKept | internal/core/app_lookup.go:136-150 | Replacing a prefix by a sibling path nobody outside lies below keeps "is an ancestor of" in both directions |
| FolderPaths.ReplacedBack | internal/core/app_lookup.go:136-150 | Replacing a prefix and replacing it back restores a path exactly when it was below the old prefix or is not below the new one |
| FolderPaths.FreeName | internal/core/app_lookup.go:65-78 | With every parent folder present, the duplicate check on direct children leaves nothing below the new path |
| FolderPaths.StepKeepsTree | internal/core/app_tree_crud.go:95-357 | Creating, renaming or deleting a folder keeps physical paths distinct and ancestor-closed, display paths made of names and nested as the physical ones, and every request in a folder: a deletion always, a creation exactly when the new display path normalises to names below the parent's, a rename exactly when it normalises to names and no folder is left behind above one that moves away |
| FolderPaths.NameableIsSound | internal/types/folder_path.go:17-28 | A folder name that has names between its slashes, at least one and neither of the two dot names, is always such an operation |
| FolderPaths.RunKeepsTree | internal/core/app_tree_crud.go:95-357 | The tree is kept over every run of the three operations with such names, whatever the disk refuses |
| FolderPaths.CreateKeepsTree | internal/core/app_tree_crud.go:95-173 | Creating keeps the tree exactly when the new folder is displayed by names below its parent |
| FolderPaths.RenameKeepsTree | internal/core/app_tree_crud.go:215-266 | Renaming keeps the tree exactly when the folder is displayed by names afterwards and nothing is left behind above what moves |
| FolderPaths.DeleteKeepsTree | internal/core/app_tree_crud.go:313-340 | Deleting leaves no folder without its parent and no request without its folder |
| FolderNames.CreateEffect | internal/core/app_tree_crud.go:95-173 | An accepted creation adds one folder, at its directory below the parent's path, displayed under the pieces of its name below the parent, named as given and numbered behind its siblings, and changes nothing else |
| FolderNames.CountGrows | internal/core/app_lookup.go:80-93 | A folder has one more child for each folder right inside and each request displayed there |
| FolderNames.RenameEffect | internal/core/app_lookup.go:110-134 | An accepted rename carries every folder over and makes no other: both paths have their prefix replaced, the folder renamed is named by the last piece of its new display path as normalised by then, all others keep their names, and all their numbers; requests move the same way |
| FolderNames.GivenName | internal/core/app_lookup.go:119-121 | For a name made of names that is the last piece of where the folder is displayed |
| FolderNames.BlankNameDiffers | internal/core/app_lookup.go:110-121 | In general it is not: blank pieces at the end of a name are dropped from the display path, but one fewer from the name |
| FolderNames.RenameNames | internal/core/app_lookup.go:110-134 | A rename to a name of one piece keeps every folder named by the last piece of its display path exactly when it leaves no other folder of the old display path with another name than the new one |
| FolderNames.RunNames | internal/core/app_tree_crud.go:95-357 | Over every run of names of one piece in which no two folders come to share a display path, every folder is named by the last piece of its display path |
| FolderNames.DeleteEffect | internal/core/app_tree_crud.go:313-340 | An accepted deletion takes exactly the folders below by either path, and the requests in them or with a file below |
| FolderNames.CreateAnswer | internal/core/app_tree_crud.go:95-173 | Which error a creation reports, the first that applies of: no name, no parent, the environments' directory, a taken directory, the disk, the marking |
| FolderNames.RenameAnswer | internal/core/app_tree_crud.go:175-273 | Which error a rename reports, the first that applies of: no name or one longer than 255, no folder, a directory name with another meaning, a taken directory, the disk, the marking |
| FolderNames.DeleteAnswer | internal/core/app_tree_crud.go:275-357 | Which error a deletion reports, the first that applies of: no folder, the disk, the removal, the renumbering, the marking |
| FolderNames.ListedAfter | internal/core/app_tree_crud.go:95-357 | Every operation that passes its checks leaves the folders listed by number, then by name |
| FolderPaths.DotDotBreaksTree | internal/core/app_lookup.go:53-63 | A folder named with two dots is accepted two levels down, is displayed where the folder around its parent is, and so breaks the tree |
| FolderPaths.DotDotDeletesAround | internal/core/app_tree_crud.go:330-338 | Deleting that folder deletes the one it was made in |
| FolderPaths.SlashBreaksTree | internal/core/app_lookup.go:53-63 | A root folder named by a slash is accepted and has no display path |
| FolderPaths.ErrorsAre | internal/core/app_tree_crud.go:95-357 | Each operation reports an error exactly when its checks refuse it or something fails after its change (the removal, the renumbering, the marking), and in the second case the tree is the one a success leaves |
| FolderPaths.FailureLeavesTree | internal/core/app_tree_crud.go:95-357 | An operation that reports an error has changed the tree exactly when its checks passed and the removal, the renumbering or the marking failed, a rename that changes nothing anyway apart |
| FolderPaths.RefusedRemovalForgets | internal/core/app_tree_crud.go:314-344 | The smallest such deletion: the only folder is gone from memory and still on disk |
| FolderPaths.UnsavedCreationStays | internal/core/app_tree_crud.go:168-173 | The smallest such creation: an error is reported and the folder is there |
| FolderRenameBack.RenameBackExactly | internal/core/app_tree_crud.go:175-273 | Calling RenameFolder on the new path with the folder's old names restores every folder's paths, name and number, and the folders and files of all requests, if the search finds the renamed folder and the old names are allowed, exactly when the new display path stood beside the old one, nothing else lay below the new paths and the folder was named by the last piece of its display path; if the directory had changed, it never does otherwise |
| FolderRenameBack.SlashNameDoesNotComeBack | internal/core/app_tree_crud.go:175-273 | The failing side: a single folder renamed to a name of two pieces and back, both accepted, is displayed below the first of them |
| FolderRenameBack.BesideIsOnePiece | internal/core/app_lookup.go:53-63 | For a name made of names, standing beside means having one piece between slashes |
| FolderDisplays.StepKeepsApart | internal/core/app_tree_crud.go:95-357 | Folders with distinct display paths keep them distinct: always through a deletion, through a creation exactly when no folder is displayed at the new path, through a rename exactly when no moved folder arrives where another stays |
| FolderDisplays.NamesakesArise | internal/core/app_tree_crud.go:95-173 | The check on directory names lets such a namesake through |
| FolderPaths.NamesakesGoToo | internal/core/app_tree_crud.go:330-338 | A deleted folder takes exactly the folders physically or by display path below it, so a namesake goes too |
| FolderPaths.SurvivingRequests | internal/core/app_tree_crud.go:314-328 | A request of a surviving folder goes exactly when its display path lies below the deleted physical path or its file in the deleted directory |
| FolderPaths.Collection.FindFolderIndex | internal/core/app_lookup.go:25-37 | The first folder with the physical or display path |
| FolderPaths.Collection.HasChildFolder | internal/core/app_lookup.go:65-78 | The duplicate check |
| FolderPaths.Collection.CreateFolder | internal/core/app_tree_crud.go:95-173 | The new state and error of creating, for all answers of the disk and of the marking |
| FolderPaths.Collection.UpdateRenameState | internal/core/app_lookup.go:110-134 | The two loops move every folder and request, path before display path before name |
| FolderPaths.Collection.RenameFolder | internal/core/app_tree_crud.go:175-273 | The new state and error of renaming, for all answers of the disk and of the marking |
| FolderPaths.Collection.DeleteFolder | internal/core/app_tree_crud.go:275-357 | The new state and error of deleting, for all answers of the disk, the removal, the renumbering and the marking; memory is changed before the directory is removed |
| FolderChains.RequiredExactly | internal/core/collection_import_apply.go:486-504 | The worklist ends with exactly the missing ancestors of kept requests and folders, each once |
| FolderChains.ReconciledKeys | internal/core/collection_import_apply.go:469-515 | The folders afterwards are exactly the kept ones and the needed ones |
| FolderChains.ChainsAreWhole | internal/core/collection_import_apply.go:469-515 | Every ancestor of every kept request and of every folder of the result is there |
| FolderChains.ReconciledTwice | internal/core/collection_import_apply.go:469-515 | A second reconciliation adds nothing |
| FolderChains.ParentsFirst | internal/core/collection_import_apply.go:505-513 | An added folder stands behind the folder around it |
| FolderChains.AddedComeFrom | internal/core/collection_import_apply.go:476-513 | Kept folders stay in front; an added one is the first of its key in the unfiltered list, or made up of its key alone if there is none |
| FolderChains.AddChain | internal/core/collection_import_apply.go:487-494 | The ancestor walk ends and adds the missing part of one chain |
| FolderChains.IndexSources | internal/core/collection_import_apply.go:476-483 | The source map holds the first available folder of each key |
| FolderChains.CollectRequired | internal/core/collection_import_apply.go:495-500 | The two loops compute the worklist |
| FolderChains.ReconcileFolderChains | internal/core/collection_import_apply.go:469-515 | Kept folders stay in front; each required one follows from its source or made up, sorted, with one warning each |
| Cookies.KeyIdentifies | internal/cookiejar/cookiejar.go:468-470 | The key stands for domain, path and name exactly when neither path nor name contains a bar |
| Cookies.StorableCollide | internal/cookiejar/cookiejar.go:364-390 | On every domain cookies may be stored for, two different storable cookies share a key |
| CookieMatch.PathMatchIsRfc | internal/cookiejar/cookiejar.go:341-352 | A cookie path matches as section 5.1.4 of RFC 6265 says for every request exactly when it does not end in two slashes |
| CookieMatch.DefaultPathMatches | internal/cookiejar/cookiejar.go:450-462 | The default path of any request path matches that path, by the code's rule and by the RFC's |
| CookieMatch.DefaultPathExactly | internal/cookiejar/cookiejar.go:450-462 | The default path is the request's path up to its last slash, and the root when that is its first character or there is none (section 5.1.4 of RFC 6265) |
| CookieMatch.DefaultPathWithSlashes | internal/cookiejar/cookiejar.go:450-462 | A default path can end in two slashes, so the difference is reachable |
| CookieMatch.DomainMatchIsRfc | internal/cookiejar/cookiejar.go:332-339 | Domain matching is section 5.1.3 of RFC 6265 except exactly for an IP address with the domain as its tail |
| CookieMatch.AddressTailReached | internal/cookiejar/cookiejar.go:332-339 | A storable cookie reaches that case, for any dotted address and its last three numbers |
| CookieMatch.SetterGetsItBack | internal/cookiejar/cookiejar.go:87-137 | A response cookie without a domain goes back to exactly the host that set it; one with a domain goes back to that host exactly when the host is not written with a dot at its end; one without a path goes back with the request's path |
| CookieMatch.AcceptedExactly | internal/cookiejar/cookiejar.go:364-405 | A storable response cookie is accepted from its own host if it names no domain, and otherwise exactly when that domain is the host or above it |
| CookieMatch.DotAtTheEndLosesCookie | internal/cookiejar/cookiejar.go:364-409 | For every domain of two labels that is no address and no public suffix, a cookie with that domain, set by that host written with a dot, is accepted and not sent back to it |
| CookieMatch.SentCookies | internal/cookiejar/cookiejar.go:150-185 | Exactly the eligible cookies are sent, longer paths first, then older, ties in jar order (section 5.4 of RFC 6265) |
| JarContents.SentExactly | internal/cookiejar/cookiejar.go:150-185 | A cookie of the jar is sent exactly when it has not expired, may be stored, is not a secure one for an origin that is not trustworthy, and matches host and path |
| JarContents.SentIsRfc | internal/cookiejar/cookiejar.go:150-185 | For a host that is no address and a cookie path without two slashes at its end that is section 5.4 of RFC 6265 |
| CookieMatch.CookiesForURL | internal/cookiejar/cookiejar.go:150-185 | The filtering loop and sort compute them |
| CookieStore.StoredIsFold | internal/core/app_cookies.go:144-196 | Storing a response's cookies is folding set and delete by key over the jar as a map, keeping creation times, then dropping the expired |
| JarContents.PreparedExactly | internal/core/app_cookies.go:151-167 | A response cookie is let in exactly when its name is a token, its domain valid and no public suffix, an address only for itself, its path absolute, and its name's prefix kept; what it becomes |
| JarContents.LastSetIsHeld | internal/core/app_cookies.go:144-185 | Under each key a response sets the jar then holds the last cookie it set, and nothing if that has expired |
| JarContents.UnsetStays | internal/core/app_cookies.go:144-196 | A cookie the response says nothing of stays exactly if it has not expired |
| JarContents.CreationTimeStays | internal/core/app_cookies.go:168-182 | A cookie that displaces another keeps the time that one was created |
| JarContents.StoredInOrder | internal/core/app_cookies.go:168-196 | Cookies a response says nothing of keep their order |
| JarContents.LastSetStandsLast | internal/core/app_cookies.go:168-185 | The last cookie set stands last |
| CookieStore.SavedIsSet | internal/core/app_cookies.go:41-76 | Saving a cookie replaces the one it was and any other of its key, in the jar as a map |
| JarContents.SavedExactly | internal/core/app_cookies.go:41-76 | A save is refused exactly when the cookie may not be stored; else the jar holds what it held without the cookies replaced, and the cookie as given, created when the first replaced one was |
| JarContents.DeletedExactly | internal/core/app_cookies.go:18-142 | Deleting takes exactly the cookies of the id, clearing those of the normalised domain |
| CookieStore.FirstCreatedIs | internal/core/app_cookies.go:59-70 | A saved cookie takes over the creation time of the first replaced one that has one |
| CookieStore.MergeRule | internal/cookiejar/cookiejar.go:37-81 | The script merge is pointwise: the script's value if present, else removed if it was in the initial snapshot, else the current one |
| CookieStore.OthersSurvive | internal/cookiejar/cookiejar.go:67-76 | A cookie stored by someone else during the run under a new key survives |
| JarContents.LeftIsHeld | internal/cookiejar/cookiejar.go:37-81 | Under a key the script leaves a cookie for, the merged jar holds the last of them, completed |
| JarContents.UnleftExactly | internal/cookiejar/cookiejar.go:37-81 | Any other cookie is in the merged jar exactly if it is in the present one and the script did not start with one of its key |
| CookieStore.ChangesUnderOldKeys | internal/cookiejar/cookiejar.go:67-80 | Under a key of the initial snapshot the jar keeps what it has or has lost by then exactly when the script ends with the same |
| CookieStore.IdleScriptReverts | internal/cookiejar/cookiejar.go:37-81 | A script that leaves its cookies alone puts their old values back over any change made meanwhile |
| CookieStore.RunKeepsDistinct | internal/core/app_cookies.go:18-196 | Over every run of stores, saves, deletions, clearings and script merges the jar's keys stay distinct |
| CookieStore.CookieJar.PruneExpired | internal/core/app_cookies.go:187-196 | Exactly the unexpired cookies stay, in order |
| CookieStore.PreparedOnce | internal/core/app_cookies.go:151-167 | A completed response cookie may be stored, keeps name, domain, value and, unless its path was empty, key, and completing it again only moves the time of its update |
| CookieStore.RunKeepsStorable | internal/core/app_cookies.go:18-196 | Over every run the jar holds only cookies that may be stored |
| JarContents.RunHoldsTheWelcome | internal/cookiejar/cookiejar.go:364-406 | Over every run from an empty jar no cookie of a public suffix, no shared cookie of an address and none that breaks what its name's prefix promises is in the jar |
| CookieStore.CookieJar.PutCookie | internal/core/app_cookies.go:168-182 | The inner loop replaces by key and hands on the creation time; an expired cookie only deletes |
| CookieStore.CookieJar.StoreResponseCookies | internal/core/app_cookies.go:144-185 | The whole store |
| CookieStore.CookieJar.SaveCookie | internal/core/app_cookies.go:41-76 | The whole save, refusals included |
| CookieStore.CookieJar.DeleteCookie | internal/core/app_cookies.go:18-39 | Deletion by id |
| CookieStore.CookieJar.ClearDomainCookies | internal/core/app_cookies.go:106-131 | Clearing a domain, and how many went |
| CookieStore.MergeScriptJar | internal/cookiejar/cookiejar.go:37-81 | The loops compute the merge |
| CookieHeader.RoundTrip | internal/cookiejar/cookiejar.go:205-242 | A rendered header of well-formed pairs parses back to the pairs |
| CookieHeader.PartIsPair | internal/cookiejar/cookiejar.go:220-231 | A part of a header is a pair exactly when an equals sign stands behind a name; the first one cuts, and both sides are trimmed |
| CookieHeader.MergeReadsBack | internal/cookiejar/cookiejar.go:213-242 | The merged header parses back to exactly the merged pairs, in order |
| CookieHeader.MergeOrder | internal/cookiejar/cookiejar.go:213-242 | Names are unique ignoring case, in first-seen order, with the last pair of each name |
| CookieHeader.StoredWins | internal/cookiejar/cookiejar.go:235-236 | The last pair of a name in two headers is the second header's if it has one, so a stored pair wins over a manual one |
| CookieHeader.MergeTwice | internal/cookiejar/cookiejar.go:213-242 | Merging the same stored header again changes nothing |
| CookieHeader.AddHeader | internal/cookiejar/cookiejar.go:220-234 | The loop over the parts of one header |
| CookieHeader.MergeCookieHeaders | internal/cookiejar/cookiejar.go:213-242 | The whole merge |
| CurlWords.ScanQuoted | internal/scalar/scalar.go:215-217 | The splitter reads a single-quoted word as exactly its text |
| CurlWords.QuotedWordsComeBack | internal/core/collection_import.go:596-639 | Splitting a line of quoted arguments gives the arguments back, except empty ones |
| CurlWords.NoneLost | internal/core/collection_import.go:596-639 | Dropping empty arguments changes a list exactly when it has one, so splitting a quoted list is the identity exactly on lists without empty arguments |
| CurlWords.SplitCurlImportArgs | internal/core/collection_import.go:596-639 | The character loop computes the splitting, incomplete quoting included |
| CurlCommand.CommandWords | internal/codegen/codegen.go:171-207 | A generated command splits into its words, each line continuation leaving one newline word |
| CurlCommand.HeaderComesBack | internal/core/collection_import.go:549-554 | A header comes back as it was exactly when its name holds no colon and its value no outer space |
| CurlCommand.PartComesBack | internal/core/collection_import.go:562-570 | A text form part comes back exactly when its name holds no equals sign |
| CurlCommand.ImportedBack | internal/codegen/codegen.go:171-207 | What the import of a generated command is, in every body mode, for an http URL |
| CurlCommand.RoundTrip | internal/codegen/codegen.go:171-207 | In the raw body modes method, URL, headers (the added Content-Type included) and body all come back exactly when header names are colon-free, header values trimmed, and a body does not go with GET |
| CurlRequests.RawRequestComesBack | internal/codegen/codegen.go:171-207 | A tidy request with a raw body comes back with its verb (a GET with a body as POST), URL, headers, body, and the content type of its mode if it has none |
| CurlRequests.BodilessComesBack | internal/codegen/codegen.go:347-352 | Without a body mode it comes back without a body |
| CurlRequests.FormComesBack | internal/codegen/codegen.go:171-207 | An encoded form comes back as the text it was sent as, under its content type |
| CurlRequests.FileComesBack | internal/codegen/codegen.go:171-207 | A file body comes back as a reference to the file |
| CurlRequests.MultipartComesBack | internal/codegen/codegen.go:376-386 | A multipart form comes back with every enabled part in order, a file as a reference with its content type |
| CurlRequests.VerbSent | internal/codegen/codegen.go:171-180 | A verb is sent trimmed and in upper case, a blank one as GET |
| CurlRequests.DisabledDropped | internal/codegen/codegen.go:171-207 | Rows that are disabled or have no name do not count |
| CurlCommand.ImportsIffHttp | internal/core/collection_import.go:578-589 | A generated command imports exactly when its URL starts with http:// or https:// |
| CurlCommand.GenerateCurl | internal/codegen/codegen.go:171-207 | The lines are appended and joined as specified |
| CurlCommand.CollectionFromCurlImport | internal/core/collection_import.go:526-594 | The argument loop computes the import |
| CurlRequests.QuotedCommand | internal/core/collection_import.go:526-594 | Any quoted command line is imported from its words |
| CurlRequests.RequestAndHeader | internal/core/collection_import.go:543-554 | What the switches for the method and for a header mean to the import |
| CurlRequests.BodySwitches | internal/core/collection_import.go:555-570 | What the switches for a body and for a form part mean: either turns a GET into a POST, a body replaces a form |
| CurlRequests.UserAndUrl | internal/core/collection_import.go:571-582 | What the switches for a user and for a URL mean |
| CurlRequests.OtherWords | internal/core/collection_import.go:578-589 | Any other word: an http URL is taken, a dash warned about, the rest ignored, and so is a switch without its value |
| CurlRequests.DoubleQuoted | internal/core/collection_import.go:596-639 | A word in double quotes, its quotes and backslashes escaped, is read as exactly its text |
| CurlRequests.Unfinished | internal/core/collection_import.go:596-639 | A line that ends inside quotes or behind a backslash is refused |
| GrpcAuthority.ParseIsGrammar | internal/core/app_grpc.go:707-784 | The parser accepts exactly host, host:port, [ip] and [ip]:port, and reads each text one way |
| GrpcAuthority.HostnameIsLabels | internal/core/app_grpc.go:813-834 | A hostname is exactly at most 253 characters of dot-joined labels (section 2.1 of RFC 1123) |
| GrpcAuthority.LabelExactly | internal/core/app_grpc.go:813-834 | A label has 1 to 63 letters, digits and hyphens and no hyphen at either end; an IP literal has hexadecimal digits, colons and dots |
| GrpcAuthority.RefusedFor | internal/core/app_grpc.go:707-784 | The first offending character decides what a text is refused for, and without one the first thing wrong with brackets, colons, port and host |
| GrpcAuthority.ValidatedExactly | internal/core/app_grpc.go:646-697 | An accepted target is pinned as host and port, 443 if it has none, whatever scheme is in front; only grpcs:// asks for TLS |
| GrpcAuthority.NoTrailingDot | internal/core/app_grpc.go:813-834 | A trailing dot is refused |
| GrpcAuthority.PinIsFixed | internal/core/app_grpc.go:665-697 | Writing out an accepted host with its effective port parses back to the same host and port, and to the same pin |
| GrpcAuthority.OtherSchemesRefused | internal/core/app_grpc.go:646-662 | A slash after the scheme, or a lone colon not followed by a port, refuses the target |
| GrpcAuthority.ValidateHostname | internal/core/app_grpc.go:813-834 | The loops decide the hostname rule |
| GrpcAuthority.ValidatePort | internal/core/app_grpc.go:790-807 | The port checks in order, with their refusals |
| GrpcAuthority.ParseAuthority | internal/core/app_grpc.go:707-784 | The scan and the branches compute the parser, refusals included |
| FlowPath.RoundTrip | internal/core/flowpath.go:41-173 | Parsing a printed path gives it back exactly when there is a segment, every key is non-empty without dot or opening bracket and not a star, every index fits an int, and the last key does not end in whitespace |
| FlowPath.FirstErrorWins | internal/core/flowpath.go:41-100 | Behind any readable segments the first piece that is none decides the error: an empty key, a star, an open bracket, an empty or unreadable subscript, or anything else |
| FlowPath.QuotedKey | internal/core/flowpath.go:103-118 | A quoted subscript is a key, whatever it holds but a closing bracket, with blanks around it ignored |
| FlowPath.SubscriptFault | internal/core/flowpath.go:66-92 | A subscript that is neither blank nor quoted is the number it shows, and is refused exactly when it shows none from 0 to the largest int |
| FlowPath.PathErrors | internal/core/flowpath.go:41-56 | The dollar alone is the whole document, two dots behind it a descent, and both are refused |
| FlowPath.OneStep | internal/core/flowpath.go:136-158 | A key leads into the field of an object, an index to the element of a list, and nothing else leads anywhere; what a miss is called |
| FlowPath.AcceptedPath | internal/core/flowpath.go:41-100 | Every accepted path has a segment, and non-negative indexes that fit an int |
| FlowPath.ParsePath | internal/core/flowpath.go:41-100 | The parsing loop, with the first error winning |
| FlowPath.Prefix | internal/core/flowpath.go:163-173 | The printed prefix of a path |
| FlowPath.Resolve | internal/core/flowpath.go:136-158 | The walk agrees with recursive lookup; a miss reports the longest prefix that resolves and why the next segment does not |
| OpenTabs.RunKeepsTabs | internal/core/app_tabs_internal.go:195-491 | Over every run of tab operations, whatever requests come and go: open ids distinct, the active id empty exactly when no tab is open and else naming one, closed history distinct, not transient and at most 50 |
| OpenTabs.PruneExactly | internal/core/app_tabs_internal.go:195-222 | Pruning keeps exactly the tabs that resolve, in order, and the active one if it resolves, else the last one takes over |
| OpenTabs.MoveBack | internal/core/app_tabs.go:194-220 | A move is undone by the opposite of the distance it went |
| OpenTabs.CloseThenReopen | internal/core/app_tabs.go:104-174 | Reopening after closing brings the tab back at the end, active, the rest as it was, the history but for the tab's older entry and, if full, the oldest |
| TabEffects.OpenRequestEffect | internal/core/app_tabs_internal.go:347-367 | Opening a request activates its tab: an open one stays in place and keeps its panes, a new one comes in at the end with the first panes |
| TabEffects.OpenExampleEffect | internal/core/app_tabs_internal.go:373-401 | Opening an example likewise, its tab showing the examples |
| TabEffects.UpdatePanesEffect | internal/core/app_tabs.go:43-63 | Panes that are named replace the tab's, unless one of the names is none there is |
| TabEffects.CloseEffect | internal/core/app_tabs.go:104-130 | Closing takes the tab out of the open ones, hands an active place to the last one left, and puts it at the end of the history in place of an older entry, unless it is transient |
| TabEffects.CloseAllEffect | internal/core/app_tabs.go:132-141 | Closing all leaves the history with the closed tabs in order at its end, in place of older entries, cut to the last 50 |
| TabEffects.ReopenEffect | internal/core/app_tabs.go:143-174 | Reopening brings back the last closed tab of the collection that still leads to a request and forgets the collection's entries behind it; without one it forgets them all |
| TabEffects.LastClosedExactly | internal/core/app_tabs_internal.go:420-427 | The last closed tab of a collection, of any for an empty id |
| TabEffects.MoveEffect | internal/core/app_tabs.go:194-220 | A moved tab stands so many places on, or at the end it runs into; the others keep their order |
| TabEffects.SyncEffect | internal/core/app_tabs_internal.go:448-467 | A sync rewrites the example's tabs where they are and leaves all others alone |
| TabEffects.PruneEffect | internal/core/app_tabs_internal.go:195-222 | Pruning keeps exactly the tabs that lead somewhere or name nothing to lead to |
| TabEffects.RemoveCollectionEffect | internal/core/app_tabs_internal.go:224-247 | Of a removed collection no tab is left, open or closed, and all others are, in order |
| TabEffects.RemoveRequestsEffect | internal/core/app_tabs_internal.go:249-306 | Of removed requests no tab is left, open or closed, but their examples' where those are kept; all others are, in order |
| TabEffects.CloseExampleEffect | internal/core/app_tabs_internal.go:469-491 | Of a deleted example no open tab is left, and all others are, in order |
| OpenTabs.SyncDistinct | internal/core/app_tabs_internal.go:448-467 | Syncing an example's tab keeps ids distinct exactly when no two tabs match |
| OpenTabs.FilterTabs | internal/core/app_tabs_internal.go:195-273 | The in-place filter and whether the active tab went |
| OpenTabs.App.SetActiveTab | internal/core/app_tabs.go:21-29 | Found exactly when the tab is open |
| OpenTabs.App.UpdateOpenTabPanes | internal/core/app_tabs.go:43-63 | The panes change together exactly when the tab is open and both names are valid, or not at all |
| OpenTabs.App.OpenTab | internal/core/app_tabs_internal.go:347-367 | Reuse or append, and activate |
| OpenTabs.App.OpenResponseExampleTab | internal/core/app_tabs_internal.go:373-401 | The same for an example |
| OpenTabs.App.RememberClosedTab | internal/core/app_tabs_internal.go:403-418 | Moved to the end of the history, which is cut to the last 50 |
| OpenTabs.App.DropTabs | internal/core/app_tabs_internal.go:469-491 | Filter, then hand the active place to the last tab if it went |
| OpenTabs.App.CloseTab | internal/core/app_tabs.go:104-130 | Closing a tab, the last of several of one id being remembered |
| OpenTabs.App.CloseAllTabs | internal/core/app_tabs.go:132-141 | Closing all, remembering each in order |
| OpenTabs.App.LastClosedTabIndex | internal/core/app_tabs_internal.go:420-427 | The most recent closed tab of a collection |
| OpenTabs.App.ReopenLastClosedTab | internal/core/app_tabs.go:143-174 | The loop ends, dropping entries that lead nowhere |
| OpenTabs.App.MoveOpenTab | internal/core/app_tabs.go:194-220 | The two shifting branches equal taking the tab out and putting it in at the clamped index |
| OpenTabs.App.PruneOrphanedOpenTabs | internal/core/app_tabs_internal.go:195-222 | Pruning, and whether anything went |
| OpenTabs.App.RemoveOpenTabsForCollection | internal/core/app_tabs_internal.go:224-247 | A collection's tabs go, open and closed; the first tab left takes over |
| OpenTabs.App.RemoveOpenTabsForRequests | internal/core/app_tabs_internal.go:249-306 | The tabs of some requests go, with or without their examples |
| OpenTabs.App.SyncResponseExampleTab | internal/core/app_tabs_internal.go:448-467 | Matching tabs are rewritten in place |

## Left out

- The network, TLS, proxies, websocket and gRPC streaming, browser flows, terminals, dialogs and notifications: the runner's send is an oracle, and disk, clock and filesystem answers are parameters.
- JSON, YAML and encryption: a token stands for its JSON text, and SHA-256 is taken to be free of collisions, so a digest stands for its stream.
- Unicode case folding and normalisation: lower and upper case are ASCII; text is a sequence of characters, so a 255-rune or 253-byte limit counts characters.
- `net.ParseIP`, the public suffix list, `url.Parse` and `url.Values.Encode`: parameters, with IP literals restricted to hexadecimal digits, colons and dots.
- `newOrigin`: the pin keeps the host as written; its normalisation is not part of this model.
- `bru.SanitizeName` and `bru.ValidateName`: a directory name enters as one valid segment without outer whitespace; the source's check lets whitespace beyond ASCII through, which the path key then trims.
- Backslashes as separators on Windows: a path enters as the pieces between its slashes.
- `sanitizeFilename`: a collection's target path enters as a name with ordinals, and backup and staging names are fresh by construction.
- Panics inside a background write, and the notifications about failed writes.
- Local edits inside an OAuth2 store: a store is one atomic step, where the source drops its lock in the middle.
- Trimming of keys while loading credentials.
- Imports of environments and of already existing folders, hash and kind checks before a selection is applied, and the workspace's collection list: only the filesystem side of an import is modelled.
- Data files, delays and response bodies of the runner; too many jumps are an error without a snapshot, as in the source.
- The writing of folder and request files during a resequencing or a folder operation beyond one yes-or-no answer of the disk; the resequencing and the closing of tabs that follow a folder's deletion are modelled in `SiblingOrder.dfy` and `OpenTabs.dfy`, not composed with it.
- Reading, refreshing and watching collections on disk.
- The clock is read once per cookie operation, where the source reads it again for pruning; a cookie's id stands for the digest of its key.
- Parsing of Set-Cookie lines and of cookie expiry dates, and SameSite.
- Saving all tabs, which writes requests and does not move tabs.
- The rendering of the value a flow path finds, and the wording of errors: refusals are named, messages are not.
- The other code generation targets and importers.
- PersistFields.App.MarkDirty: states, as the source does, that a parked write failure is dropped when the secret store fails as well.
- OAuth2Windows.CredentialWindow.LoadCredentials: the file's tokens are taken as decrypted; why a load fails is one answer.
- FolderPaths.RunKeepsTree: is stated for names made of names; StepKeepsTree says exactly when one step fails.
- FolderPaths.FailureLeavesTree: that the App is ready and has the collection is taken for granted; the sequence numbers a deletion's renumbering gives the siblings are in `SiblingOrder.dfy`, a deletion here has only its yes-or-no answer.
- FolderRenameBack.RenameBackExactly: is stated for a first rename that keeps the tree; for one that keeps the directory and whose way back finds another folder or is refused it says nothing.
- FolderChains.AddChain: keys enter normalised and made of names, for which the parent of a key is the key without its last piece (`Paths.ParentOfPlain`); the source normalises and cleans at each step, so a key that leads upwards, such as `a/../..`, or one that is blank once normalised is not modelled in the folder chains.
- CookieMatch.SetterGetsItBack: a host is as a parsed URL gives it, in lower case, without whitespace and not starting with a dot.
- CookieStore.CookieJar.SaveCookie: the cookie enters as normalised from the form, without a creation time.
- CurlCommand.RoundTrip: covers the raw body modes; ImportedBack and CurlRequests say what the other modes come back as.
- FolderNames.CreateEffect: is stated for names made of names, whose display path needs no cleaning.
- FolderNames.RenameEffect: is stated for a rename that keeps the tree.
- CookieMatch.AcceptedExactly: a host is as a parsed URL gives it and does not end in a dot.
- TabEffects.CloseEffect: is stated for tabs with distinct ids, which every run keeps; closing the last of several of one id is in OpenTabs.App.CloseTab.
- FlowPath.FirstErrorWins: the segments in front are written as keys and indexes; QuotedKey covers quoted ones.
- OpenTabs.CloseThenReopen: is for a tab that can be restored; a transient one is not remembered.
