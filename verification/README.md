# Verified models of the context engine's stateful core

The engine keeps an index of source repositories: chunks and their vectors in a database per
repository, a vector shard per repository in memory, a copy of that shard in a file that other
processes map, and answers to code queries assembled under an output limit. This project models the
parts of it that change state under concurrency, crashes or size limits, and proves what they are
relied on for. `dafny verify dfyconfig.toml` checks everything.

| file | models |
|---|---|
| `ShardIndex.dfy` | the in-memory shard of one repository with its publication fence and mutation epoch |
| `WarmFence.dfy`, `WarmFenceSafety.dfy`, `WarmFenceRuns.dfy`, `WarmFenceRaces.dfy`, `WarmFenceLimits.dfy` | detached warms against index runs, rollback, the ignore handler, index removal, eviction, file writes and crashes |
| `EmbeddingIdentity.dfy` | the canonical key of an embedding space |
| `Recompute.dfy` | the debounced single-flight cache recompute |
| `IgnoreRules.dfy`, `ChangeFilter.dfy`, `TreeWalk.dfy`, `Watcher.dfy` | ignore files, the memoizing path filter, the pruning walks and the watcher's early drop |
| `SessionStore.dfy` | the bounded LRU session store with restore from disk |
| `PathOrder.dfy`, `IgnorePages.dfy` | the crash-ordered paged ignore loop |
| `OutputBlocks.dfy`, `Sorting.dfy`, `MergeSpec.dfy`, `BlockMerge.dfy` | merging overlapping result blocks |
| `ReadBack.dfy`, `GrepHint.dfy`, `BlockBudget.dfy` | the search hint and the assembly of an answer within 48,000 bytes |
| `FileReader.dfy` | paged reads of one file |
| `EmbeddingCache.dfy` | the file cache of embeddings |
| `KeyRotation.dfy` | streaming calls over rotating API keys |

Code that updates fields or loops over variables is modelled by classes and methods, and each method
is tied to a function or predicate about which the laws are proved. Concurrent code is a transition
system: every await point of a warm, every separately observable write of an index run and every block
under a lock is one action. An action that is not enabled changes nothing, so a run is any sequence of
actions, and a law over all sequences is a law over all interleavings. Failures are part of the runs:
a fault, a crash or a cancellation may come between any two steps.

## Where the code and its own comments differ

Each of these is proved: when exactly the code departs, and an input where it does.

- `src/indexing/mod.rs:431-432` says an overlapped snapshot is never persisted. The fence check and the
  file write are separate steps: the snapshot becomes CURRENT in any case, and has been overtaken by then
  exactly if an update took effect in between (`SnapshotOvertakenIff`). Such a file may even validate,
  exactly if neither an epoch bump nor an ignore page with a stored chunk came in between
  (`SnapshotValidatesIff`, `OverlappedSnapshotMayValidate`, `OverlappedSnapshotMayBecomeCurrent`). It is
  harmless all the same: whenever it validates it holds the stored rows (`ValidatedSnapshotIsDatabase`).
- `src/server.rs:861-873` says an ignore page that fails leaves the remainder untouched. The bulk delete is
  several statements, and after a fault between them the handler returns before the eviction, so a
  resident shard still answers with deleted chunks. It does exactly if a stored chunk was in the page and
  no eviction or install between the delete and the failure has left the shard without the page's chunks
  (`AbandonedPageKeepsShardIff`, `AbandonedPageShows`). It never misses a stored one
  (`SearchableShardCoversDatabase`). An ignore list that cannot be read is taken to be empty; older entries
  survive exactly if the list was readable or there was nothing to mark (`OldEntrySurvivesIff`), and a run
  in which nothing fails can lose one (`OldEntryCanBeLost`).
- `src/engine_ops.rs:78-79` says a removed index is gone from memory at once. The removal does not move the
  mutation epoch, and a warm in flight goes on with the generation it was started for. Over every
  continuation it passes its check and installs over the emptied database exactly if its
  capture was good at the removal and no update took effect since (`RemovedVectorsReturnIff`), and one that
  has yet to scan brings back exactly the removed rows (`RemovedScanReturnsIff`, `RemovedVectorsShow`). A
  warm that took the handle of a newer generation installs nothing (`LateOpenerInstallsNothing`).
- `src/store/ops.rs:654-663` says a shard file written before a later chunk change can never validate again,
  even when deleting its CURRENT pointer failed. The index epoch starts over with a new database
  generation, and a removal keeps the file. As long as the file stays CURRENT, it validates exactly when
  identity and count agree and the epoch has moved as often since the removal as it had at its stamp
  (`RemovedFileValidatesIff`). An index run deletes CURRENT right after publishing
  (`src/indexing/pipeline.rs:1233-1237`), so after one rebuild the old file validates only if that deletion
  failed, is still to come, or was lost in a crash, and then exactly if identity and count agree and its
  epoch is 1 (`RemovedFileMayValidate`, `RemovedFileShowsOldRows`). Without a removal the statement holds
  (`ValidatedFileIsDatabase`).
- `src/indexing/walker.rs:437-438` says a subtree walk returns exactly what the full walk returns there. It
  does not for a directory that is itself a per-repository ignored path (`SubtreeAgreesIff`,
  `IgnoredDirStillWalked`).
- `src/mcp_session_store.rs:413-419` removes the entry and the file in two steps. The session is back in
  memory afterwards exactly if the last operation in between that concerns it brought it back
  (`DeleteRaceIff`, `LoadUndoesDelete`). An id that is not safe as a file name does not survive a restart
  (`RestartKeepsAnswerIff`, `UnsafeIdForgotten`).
- `src/indexing/mod.rs:190-220` says the recompute runs once the repository is quiet. A pass starts with the
  window not yet over exactly if a completion came between the quiet check and the mark, less than a
  window before the mark (`CompletionInTheGap`, `PassWithoutQuiet`).
- `src/fs_tools.rs:43-45` calls the byte cap of a read a hard one. A first line longer than the cap is shown
  whole (`OversizedIff`, `LongLineShownWhole`).
- `src/mcp.rs:328-332` says all remaining blocks are shown in short form. They are exactly if the whole then
  fits (`NoneOmittedIff`, `OmittedBlock`); a block that does not fit is left out and only counted.
- `src/llm/mod.rs:486-490` ties a retry to no token having been streamed. The code also gives up when a body
  had begun without a token (`RetriedIff`, `NextCallIff`, `BrokenBodyNotRetried`).

## Model

| member | source | states |
|---|---|---|
| `ShardIndex.RepoIndex.ResidentIdentity` | src/vector/sharded.rs:560-566 | a query sees a shard exactly when one is resident and no run owns publication |
| `ShardIndex.RepoIndex.BeginFullUpdate` | src/vector/sharded.rs:225-233 | raises the fence, moves the epoch, hides the shard |
| `ShardIndex.RepoIndex.BeginIncrementalUpdate` | src/vector/sharded.rs:269-277 | raises the fence and keeps the shard as the hidden base of the delta |
| `ShardIndex.RepoIndex.InstallShard` | src/vector/sharded.rs:428-445 | installs a shard, an empty one being dropped |
| `ShardIndex.RepoIndex.InstallShardIfNotMutating` | src/vector/sharded.rs:283-297 | installs exactly when no fence is up and the epoch is the captured one, and otherwise changes nothing |
| `ShardIndex.RepoIndex.ApplyIncrementalUpdate` | src/vector/sharded.rs:491-517 | moves the epoch in every case and never makes a shard out of a delta |
| `ShardIndex.RepoIndex.PublishFullUpdate` | src/vector/sharded.rs:300-314 | replaces the shard and releases the fence |
| `ShardIndex.RepoIndex.PublishIncrementalUpdate` | src/vector/sharded.rs:318-341 | applies the delta to the hidden base, a cold repository staying cold |
| `ShardIndex.RepoIndex.AbortUpdateFailClosed` | src/vector/sharded.rs:347-355 | nothing stays searchable and the fence stays up |
| `ShardIndex.RepoIndex.EvictIfIdentity` | src/vector/sharded.rs:573-585 | evicts exactly the shard that still carries the given identity |
| `EmbeddingIdentity.KeyStringInjective` | src/embedding/identity.rs:61-72 | two embedding spaces share a key only if they are the same, whatever the model name contains |
| `EmbeddingIdentity.FieldsUnique` | src/embedding/identity.rs:58-72 | the parts around the outermost bars of a key are determined by the key |
| `WarmFenceSafety.DoKeepsInv` | src/indexing/mod.rs:336-471 | every step of a warm, an index run, the ignore handler, eviction and a crash keeps the invariant, and so do a clean removal and, for the covering form, an abandoned ignore page |
| `WarmFenceSafety.ExecKeepsInv` | src/indexing/mod.rs:336-471 | the invariant holds in every interleaving of such steps |
| `WarmFenceSafety.SearchableShardIsDatabase` | src/indexing/mod.rs:345-471 | in every run with clean removals whose abandoned ignore pages met no stored chunk, a shard a query may see holds exactly the stored vectors under the stored identity, or those from before the delete of an ignore page in progress |
| `WarmFenceSafety.SearchableShardCoversDatabase` | src/indexing/mod.rs:345-471 | in every run with clean removals, whatever pages were abandoned, such a shard misses no stored vector |
| `WarmFenceSafety.ValidatedFileIsDatabase` | src/indexing/mod.rs:388-417 | in every state reachable with clean removals, whatever pages were abandoned, a file whose stamp matches identity, chunk count and index epoch holds exactly the stored rows |
| `WarmFenceSafety.ValidFileAgrees` | src/indexing/mod.rs:391-413 | a file that matches what a still valid warm read is as good as that warm's own scan |
| `WarmFenceRaces.MayInstallIff` | src/indexing/mod.rs:345-361 | the fence is exact: a warm may install exactly if no update took effect since it started |
| `WarmFenceRaces.FenceOverRun` | src/vector/sharded.rs:214-220 | over any run without a crash the mutation epoch moves exactly if an update took effect |
| `WarmFenceRaces.OverlappedWarmInstallsNothing` | src/indexing/mod.rs:345-361 | a warm that any update overlapped installs nothing, even after the update has published |
| `WarmFenceRaces.UnoverlappedWarmInstalls` | src/vector/sharded.rs:279-297 | a warm that no update overlapped passes its check and its rows go in |
| `WarmFenceRaces.StepKeepsOvertaken` | src/vector/sharded.rs:279-297 | an update overtakes every warm in flight, and no step undoes that |
| `WarmFenceRaces.OvertakenForGood` | src/vector/sharded.rs:279-297 | an overtaken warm stays overtaken over every continuation without a restart |
| `WarmFenceSafety.LoadKeepsInv` | src/indexing/mod.rs:423-429 | the scan covers the database at the epoch its stamp names, although the stamp was read earlier |
| `WarmFenceSafety.PersistedKeepsInv` | src/indexing/mod.rs:438-450 | writing a scanned shard as CURRENT is safe even when the fence has moved since the check |
| `WarmFenceSafety.InstallLoadedKeepsInv` | src/indexing/mod.rs:452-471 | installing from memory and installing through whatever file CURRENT names by then are equally safe |
| `WarmFenceSafety.FencedStepKeepsInv` | src/indexing/pipeline.rs:1341-1367 | inside the fenced window no old stamp becomes valid again |
| `WarmFenceSafety.WriteRowsKeepsInv` | src/indexing/pipeline.rs:1542-1563 | the hidden base and the written rows account for the database while an incremental run writes |
| `WarmFenceSafety.PublishKeepsInv` | src/indexing/pipeline.rs:1217-1268 | what a run publishes is what the database holds |
| `WarmFenceSafety.DeleteCurrentKeepsInv` | src/indexing/pipeline.rs:1233-1237 | the last step of a run keeps the invariant whether or not it gets to delete the file |
| `WarmFenceSafety.AbandonKeepsInv` | src/indexing/pipeline.rs:730-769 | a run that fails or rolls back leaves nothing searchable |
| `WarmFenceSafety.EvictPageKeepsInv` | src/server.rs:989-1008 | evicting an ignore page makes shard and database agree again, even if its epoch bump failed |
| `WarmFenceSafety.FailPageKeepsInv` | src/server.rs:989-1008 | a page given up before its eviction keeps the covering invariant, and the exact one when it had met no stored chunk |
| `WarmFenceSafety.CrashKeepsInv` | src/store/ops.rs:654-663 | after a crash the epoch bump still separates every older file from the rows left behind |
| `WarmFenceRuns.PublishedRunShowsDatabase` | src/vector/sharded.rs:299-342 | whatever came between its steps, an index run that publishes leaves the slot unfenced with exactly the stored rows in it; with none if nothing is stored, or if an incremental run had begun without a shard |
| `WarmFenceRuns.PublishedRunStores` | src/indexing/pipeline.rs:1341-1420 | a published run has stored what it kept and what it wrote, under its identity and the next index epoch |
| `WarmFenceRuns.OtherFilesKept` | src/indexing/pipeline.rs:1542-1605 | an incremental run leaves the rows of all other files as they were |
| `WarmFenceRuns.RunHidesShard` | src/vector/sharded.rs:225-277 | from the beginning of a run to its publication a query sees nothing |
| `WarmFenceRuns.EvictedPageShowsDatabase` | src/server.rs:989-1008 | after an evicted ignore page a shard that was resident holds exactly the stored rows |
| `WarmFenceRuns.DeletedPageRows` | src/store/ops.rs:251-305 | an ignore page takes exactly the rows of its files |
| `WarmFenceRuns.ScanInstalls` | src/indexing/mod.rs:452-471 | what goes in after a scan: the file CURRENT names by then if its stamp fits and it can be mapped, else the rows scanned |
| `WarmFenceRuns.WarmShowsDatabase` | src/indexing/mod.rs:336-471 | an undisturbed warm shows exactly the stored rows, through a valid file or a scan, if there are any under the identity asked for and no run owns publication, and otherwise changes nothing; a file that is not valid is replaced by one that is |
| `WarmFenceRuns.AdoptedIndexShows` | src/indexing/pipeline.rs:810-828 | once an index without a marker has been given one, a warm under it shows the stored rows |
| `WarmFenceRuns.CrashRecovers` | src/indexing/mod.rs:336-471 | after a crash, whatever was going on, a warm shows the stored rows |
| `WarmFenceRuns.RefusedTakesBackOwn` | src/indexing/mod.rs:452-460 | a warm refused after writing its file takes that file back, and none written later |
| `WarmFenceRaces.SnapshotOvertakenIff` | src/indexing/mod.rs:430-450 | with any steps between check and write, the snapshot becomes CURRENT, and is overtaken exactly if an update was among them |
| `WarmFenceRaces.SnapshotValidatesIff` | src/indexing/mod.rs:388-450 | it validates exactly if its stamp was current at the check and no epoch bump and no ignore page with a stored chunk came in between |
| `WarmFenceRaces.ValidatedSnapshotIsDatabase` | src/indexing/mod.rs:430-450 | when it validates it holds the stored rows, overtaken or not |
| `WarmFenceLimits.OverlappedSnapshotMayValidate` | src/indexing/mod.rs:430-450 | in a run from the start: overtaken by an index run that has only begun, it validates |
| `WarmFenceLimits.OverlappedSnapshotMayBecomeCurrent` | src/indexing/mod.rs:430-450 | in a run from the start: overtaken by an index run that has bumped the epoch, it is CURRENT and validates for nobody |
| `WarmFenceLimits.AbandonedPageKeepsShardIff` | src/server.rs:989-996 | whatever came between delete and failure, the shard is right after a page given up before its eviction exactly if the last eviction or install in between left no chunk of the page in it, or without one, if no stored chunk was in the page |
| `WarmFenceLimits.AbandonedPageShows` | src/server.rs:989-996 | a run from the start after which it is not |
| `WarmFenceLimits.HandlesOverRun` | src/store/mod.rs:1475-1515 | in every run a warm holds a generation that exists, and a capture no later than the fence |
| `WarmFenceLimits.HandleTaken` | src/store/mod.rs:1475-1515 | a warm takes the handle in use or opens the generation it was started for |
| `WarmFenceLimits.RemovedMayInstallIff` | src/vector/sharded.rs:739-753 | across a removal and any continuation a capture stays good exactly if it was and no update took effect, and then the database is empty |
| `WarmFenceLimits.RemovedVectorsReturnIff` | src/indexing/mod.rs:363-471 | at whatever await a warm was at the removal, and over every continuation: its check passes and its install shows its rows over the empty database exactly if its capture is still good, and otherwise changes nothing; scanned rows are the removed ones |
| `WarmFenceLimits.RemovedScanReturnsIff` | src/indexing/mod.rs:423-471 | a warm that has yet to scan at the removal brings back exactly the removed rows, or nothing |
| `WarmFenceLimits.LateOpenerInstallsNothing` | src/store/mod.rs:1475-1515 | a warm that took the handle of a newer generation never installs anything |
| `WarmFenceLimits.RemovedVectorsShow` | src/vector/sharded.rs:739-753 | a run from the start in which a warm brings removed vectors back |
| `WarmFenceLimits.RemovedFileValidatesIff` | src/store/ops.rs:654-663 | over every continuation in which the file stays CURRENT, it validates exactly if identity and count agree and the epoch moved as often since the removal as it had at the stamp |
| `WarmFenceLimits.RemovedFileMayValidate` | src/indexing/pipeline.rs:1217-1239 | after a removal and a rebuild an old file validates exactly if the run has not deleted it and it has that identity, the new count and epoch 1 |
| `WarmFenceLimits.RemovedFileShowsOldRows` | src/indexing/pipeline.rs:588-593 | a run from the start in which it does, with other rows, for each way the deletion can be missing |
| `Recompute.RecomputeSlot.NoteIndexCompletion` | src/indexing/mod.rs:1367-1397 | stamps the completion, re-arms a running pass, and spawns exactly when no task owns the repository |
| `Recompute.RecomputeSlot.QuietWait` | src/indexing/mod.rs:1411-1430 | how long is left of the quiet window |
| `Recompute.RecomputeSlot.Mark` | src/indexing/mod.rs:1432-1443 | a pass begins with the re-arm flag cleared |
| `Recompute.RecomputeSlot.DecideRearm` | src/indexing/mod.rs:1461-1476 | one more pass exactly if re-armed, and otherwise the slot is free |
| `Recompute.DoKeepsInv` | src/indexing/mod.rs:1367-1479 | every atomic block keeps the scheduler's invariant |
| `Recompute.NoLostCompletion` | src/indexing/mod.rs:1384-1388 | a completion newer than the last pass has a task, re-armed if that task is in a pass; with no task the last pass covers everything |
| `Recompute.SingleFlight` | src/indexing/mod.rs:1401-1404 | one live task exactly when scheduled, and never more passes than completions |
| `Recompute.PassesAtMost` | src/indexing/mod.rs:1401-1404 | a run starts at most as many passes as it has completions |
| `Recompute.StepsLeftDecrease` | src/indexing/mod.rs:1405-1479 | without a new completion every task step brings retirement nearer |
| `Recompute.MovesAreBounded` | src/indexing/mod.rs:1405-1479 | at most six task steps follow the last completion |
| `Recompute.Retires` | src/indexing/mod.rs:1405-1479 | from every state the invariant allows, every schedule of six quiet rounds (a window passes, then the task is let run) ends idle with everything covered, whatever else it does in between |
| `Recompute.RoundMoves` | src/indexing/mod.rs:1405-1479 | every round moves a live task, sleeping or not |
| `Recompute.ComesToRest` | src/indexing/mod.rs:1405-1479 | every reachable state has a continuation of time and task steps, at most twelve, that ends idle with everything covered |
| `Recompute.AlwaysRetires` | src/indexing/mod.rs:1405-1479 | in every run, once completions stop, every schedule of six rounds ends idle with everything covered |
| `Recompute.TaskCanMove` | src/indexing/mod.rs:1405-1479 | a live task can always take a step once time passes |
| `Recompute.QuietCheckIff` | src/indexing/mod.rs:1411-1430 | in every run the check passes exactly if no completion came within the last window, whatever the task was doing then; otherwise the task sleeps until that window is over |
| `Recompute.CompletionInTheGap` | src/indexing/mod.rs:1430-1443 | whatever comes between check and mark, the pass starts inside the window exactly if a completion came there less than a window before the mark, and covers it |
| `Recompute.PassWithoutQuiet` | src/indexing/mod.rs:1430-1443 | a run from the start in which it does |
| `IgnoreRules.ExcludedIff` | src/indexing/walker.rs:309-341 | the closest `.augmentignore` match decides, else the closest `.ignore` match, else the closest `.gitignore` match that no nearer `.git` cuts off |
| `IgnoreRules.ClosestDecides` | src/indexing/walker.rs:319-334 | looking upwards finds exactly the closest match of each kind of ignore file |
| `ChangeFilter.Filter.IgnoresOf` | src/indexing/walker.rs:299-308 | the remembered ignore files are those of the directory |
| `ChangeFilter.Filter.IsIgnoredByFiles` | src/indexing/walker.rs:319-342 | the loop over the ancestors computes the verdict on one candidate |
| `ChangeFilter.Filter.IsGitignored` | src/indexing/walker.rs:344-378 | for any sequence of queries the memo never changes an answer: excluded itself or below an excluded directory |
| `ChangeFilter.Filter.Allows` | src/indexing/walker.rs:390-411 | every rule, for every path |
| `ChangeFilter.Filter.CouldContainIndexed` | src/indexing/walker.rs:413-434 | whether indexed files can live below a directory |
| `TreeWalk.WalkRepo` | src/indexing/walker.rs:476-560 | the walk returns what the walker comes to and the settings keep |
| `TreeWalk.VisitedIff` | src/indexing/walker.rs:489-518 | the pruning walk comes to exactly the files with no pruned directory above and no exclusion |
| `TreeWalk.WalkIsFilter` | src/indexing/walker.rs:180-201 | the walk returns exactly the files the filter allows |
| `TreeWalk.IndexedByExtension` | src/indexing/walker.rs:150-155 | a file with an extension that nothing keeps from the index is returned exactly if the extension, in lower case, is a built-in or a configured one |
| `TreeWalk.IndexedByName` | src/indexing/walker.rs:157-163 | one without an extension exactly if its name is one of three, in any case |
| `TreeWalk.MakefileIndexed` | src/indexing/walker.rs:157-163 | such a file |
| `TreeWalk.SourceIndexed` | src/indexing/walker.rs:150-155 | a file returned for its extension |
| `TreeWalk.NeverBelow` | src/indexing/walker.rs:100-143 | nothing is returned below a hidden directory or one of six names |
| `TreeWalk.NeverNamed` | src/indexing/walker.rs:180-201 | nor an excluded file, one below an excluded directory, or one the settings name |
| `TreeWalk.CouldContainIff` | src/indexing/walker.rs:413-434 | indexed files can live below a directory exactly if the walk enters it and it is no ignored path |
| `TreeWalk.ContainsSomething` | src/indexing/walker.rs:413-434 | a directory above a walked file is never ruled out, unless it is an ignored path |
| `TreeWalk.WalkSubtree` | src/indexing/walker.rs:448-468 | nothing below a ruled-out directory, else the inner walk checked against the rules of the whole |
| `TreeWalk.SubtreeIsFullWalk` | src/indexing/walker.rs:437-447 | a subtree walk returns exactly what the full walk returns below that directory |
| `TreeWalk.SubtreeAgreesIff` | src/indexing/walker.rs:437-468 | the two agree exactly if the directory is no ignored path or nothing is found below it |
| `TreeWalk.IgnoredDirStillWalked` | src/indexing/walker.rs:424-432 | the case where they differ occurs |
| `Watcher.MayAffectIndex` | src/indexing/watcher.rs:76-101 | the decision on one event, through the shared filter |
| `Watcher.RetainChanges` | src/indexing/watcher.rs:106-117 | a batch keeps the events at exactly the positions where one may affect the index, in order, although the filter's memo is shared by all of them |
| `Watcher.DroppingIsSound` | src/indexing/watcher.rs:62-75 | for every extension, name and path setting, no file at or below a dropped path is allowed |
| `Watcher.DroppedNotWalked` | src/indexing/watcher.rs:62-75 | a full walk returns nothing at or below a dropped path |
| `Watcher.WalkedEventKept` | src/indexing/watcher.rs:106-117 | no event of a batch on a walked file, or on a directory above one, is lost |
| `Watcher.KeptInOrder` | src/indexing/watcher.rs:106-117 | kept events stay in order |
| `Watcher.DroppedIff` | src/indexing/watcher.rs:76-101 | an event is dropped exactly if it lies at or below a hidden, skipped or excluded directory |
| `SessionStore.BoundedSessionStore.Tick` | src/mcp_session_store.rs:110-113 | the wrapping recency clock |
| `SessionStore.BoundedSessionStore.LeastRecentlyUsed` | src/mcp_session_store.rs:123-131 | the smallest stamp belongs to the tail of the recency list |
| `SessionStore.BoundedSessionStore.EvictToCap` | src/mcp_session_store.rs:120-136 | removes exactly the tail until one more fits |
| `SessionStore.BoundedSessionStore.LoadSession` | src/mcp_session_store.rs:354-385 | a hit moves the id to the front; a miss restores it from its file, evicting the tail when full; a clock that wraps only spoils the stamp |
| `SessionStore.BoundedSessionStore.StoreSession` | src/mcp_session_store.rs:387-411 | puts the id at the front, writes its file and drops the victims' files; a clock that wraps only spoils the stamp |
| `SessionStore.BoundedSessionStore.DeleteSession` | src/mcp_session_store.rs:413-419 | forgets the session and its file |
| `SessionStore.ToFrontOrdered` | src/mcp_session_store.rs:354-360 | a stamp above all others is the same as moving to the front |
| `SessionStore.TailIsLeast` | src/mcp_session_store.rs:123-128 | stamps are distinct, so the victim is unique |
| `SessionStore.ApplyKeepsInSync` | src/mcp_session_store.rs:354-419 | every operation keeps the cap and keeps memory equal to the files |
| `SessionStore.LoadAnswersAsDisk` | src/mcp_session_store.rs:354-419 | over all sequences of operations and restarts, on any starting directory, a load answers as the directory does |
| `SessionStore.RestartKeepsAnswerIff` | src/mcp_session_store.rs:161-170 | a restart changes an answer exactly for an id in memory that is no safe file name |
| `SessionStore.SafeIff` | src/mcp_session_store.rs:161-170 | an id is safe as a file name exactly if it consists of letters, digits, hyphens and underscores |
| `SessionStore.UnsafeFilesUntouched` | src/mcp_session_store.rs:161-170 | over all runs no file is written or removed under a name that is not safe |
| `SessionStore.UnsafeIdForgotten` | src/mcp_session_store.rs:161-170 | a session that does not survive a restart |
| `SessionStore.RestoreEvictsNobody` | src/mcp_session_store.rs:389-395 | storing a present session evicts nobody |
| `SessionStore.VictimIsLeastRecent` | src/mcp_session_store.rs:116-136 | over all runs from an empty memory, the session that has to leave a full memory is the one whose last store or successful load lies furthest back |
| `SessionStore.LastStoreIsFound` | src/mcp_session_store.rs:354-411 | over all runs a load finds exactly what was stored last, until the session is deleted, evicted or forgotten in a restart, and then nothing |
| `SessionStore.GoneStaysGone` | src/mcp_session_store.rs:354-419 | a session found nowhere stays so until it is stored |
| `SessionStore.ForgottenForGood` | src/mcp_session_store.rs:116-119 | a deleted or evicted session is never restored |
| `SessionStore.DeleteRaceIff` | src/mcp_session_store.rs:413-419 | with any operations between the two steps of a deletion the session is in memory exactly if the last that concerns it brought it back, and otherwise gone |
| `SessionStore.LoadUndoesDelete` | src/mcp_session_store.rs:413-419 | a load between the steps that keeps the session |
| `SessionStore.DeletedForGood` | src/mcp_session_store.rs:413-419 | with no store and no load of it in between, the deletion holds for good |
| `PathOrder.LessTotal` | src/store/ops.rs:937-947 | the order of the cursor is total |
| `PathOrder.LessIff` | src/store/ops.rs:937-947 | it is decided at the first difference |
| `PathOrder.TakePage` | src/store/ops.rs:952-980 | a page is the first paths after the cursor, in order |
| `IgnorePages.RepoDb.IgnoreMatching` | src/server.rs:926-1028 | at every stop each deleted path is in the durable list; a finished run handled every match once, in order; it finishes exactly if every write it came to worked, and otherwise the last one was the fault; it terminates |
| `IgnorePages.FinishedRunLeaves` | src/server.rs:926-1028 | a finished run leaves of every matching file the marker alone, of every other file everything, and in the list nothing new but such markers |
| `IgnorePages.GoneIsMarked` | src/server.rs:972-996 | wherever the handler stops, a path whose rows are gone is a matching file, and its relative form is in the durable list |
| `IgnorePages.RepoDb.HandlePage` | src/server.rs:956-1010 | one page, with a fault possible at each write |
| `IgnorePages.RepoDb.DeleteFilesDataBulk` | src/store/ops.rs:251-305 | a fault inside can leave file rows without chunks, never the reverse |
| `IgnorePages.AddMarkers` | src/server.rs:972-980 | every path of the page with a relative form is marked, each once |
| `IgnorePages.PageKeepsOrder` | src/server.rs:954-957 | a page leaves no match behind the cursor |
| `IgnorePages.PoolShrinks` | src/server.rs:954-957 | the cursor strictly increases, so the loop ends |
| `IgnorePages.LastPageIsComplete` | src/server.rs:1010-1014 | a short page is the last |
| `IgnorePages.MarkersFirst` | src/server.rs:972-987 | the marker write deletes nothing and keeps the list sound |
| `IgnorePages.HalfDeleted` | src/server.rs:989-996 | a fault inside the delete loses only rows already marked |
| `IgnorePages.OldEntrySurvivesIff` | src/server.rs:932-933 | after a finished run an older entry survives exactly if the list could be read or no matching path has a relative form |
| `IgnorePages.OldEntryCanBeLost` | src/server.rs:932-933 | a finished run without a fault that loses an older entry, the list being unreadable |
| `BlockMerge.GroupByFile` | src/mcp.rs:433-441 | one group per file, each holding exactly its blocks in order |
| `BlockMerge.MergeFile` | src/mcp.rs:446-522 | the blocks of one file become disjoint, non-adjacent merged blocks |
| `BlockMerge.MergeOverlappingBlocks` | src/mcp.rs:417-530 | every input block is in one merged block, placed by its earliest member; same-file ranges are apart; caller and callee data come whole from a member with the largest count |
| `BlockMerge.LinesKept` | src/mcp.rs:408-416 | the lines shown of each file are unchanged and none is shown twice |
| `BlockMerge.EveryBlockTakenIn` | src/mcp.rs:461-488 | each block is found in an output block with its lines, its symbols and counts no smaller than its own |
| `BlockMerge.OrderOfFirst` | src/mcp.rs:414-416 | output blocks stand in the order of their first members |
| `BlockMerge.OutputText` | src/mcp.rs:500-522 | the only block of a file comes out as it was; any other output block has a new header, and the text of the one block that lies in it, or for several that of the file or of the fallback |
| `BlockMerge.UntouchedBlock` | src/mcp.rs:413-416 | a block that touches no other comes out as itself but for the header |
| `MergeSpec.AbsorbMerges` | src/mcp.rs:461-488 | absorbing a touching block gives the merge of one member more |
| `MergeSpec.MergePassMerges` | src/mcp.rs:454-498 | after the pass each entry is the merge of its members |
| `MergeSpec.MergePassShape` | src/mcp.rs:454-498 | after the pass every index is in one entry and entries leave gaps |
| `MergeSpec.RenderAllKeeps` | src/mcp.rs:500-522 | rebuilding content and header changes nothing else |
| `Sorting.SortIndices` | src/mcp.rs:452-452 | the order in which keys ascend, nothing being said of equal keys |
| `GrepHint.ChooseNames` | src/mcp.rs:283-302 | the names are the longest prefix of the usable ones that fits |
| `GrepHint.BuildGrepHint` | src/mcp.rs:283-319 | no hint exactly if nothing can be searched for, and at most 400 bytes |
| `GrepHint.UsableIsDistinct` | src/mcp.rs:288-295 | the usable names are the greppable candidates, each once |
| `GrepHint.GreppableIff` | src/mcp.rs:82-92 | a name can be searched for exactly if it has 4 to 40 letters, digits and underscores and begins with no digit |
| `GrepHint.CandidateIff` | src/mcp.rs:286-288 | the candidates are what the blocks define and what they call |
| `GrepHint.NamesInOrder` | src/mcp.rs:274-288 | names are taken from all definitions, block by block, before any callee, block by block |
| `GrepHint.HintCallsTools` | src/mcp.rs:304-318 | the hint calls both tools with the quoted pattern |
| `GrepHint.PatternMeansNames` | src/mcp.rs:82-95 | the alternatives of the pattern are exactly the chosen names |
| `BlockBudget.TruncateBlock` | src/mcp.rs:359-392 | header, first line cut at a character boundary, elision marker |
| `BlockBudget.CutNearTheCap` | src/mcp.rs:361-366 | in UTF-8 the cut is at most three bytes before the cap |
| `BlockBudget.ShownToCharacter` | src/mcp.rs:359-369 | a line that is too long is shown to its last whole character within the cap |
| `BlockBudget.ElisionNames` | src/mcp.rs:371-379 | the marker names the lines after the first, to the last |
| `BlockBudget.ShortReadsBack` | src/mcp.rs:381-385 | the lines of a short form are header, what is shown of the first line, and the marker exactly for a block of several lines |
| `BlockBudget.LayOut` | src/mcp.rs:345-394 | which block is shown in which form, and how many are not shown in full |
| `BlockBudget.AssembleWithBudget` | src/mcp.rs:333-406 | the blocks in their forms, and a footer exactly when some are not shown in full, which counts them |
| `BlockBudget.AssemblyUnique` | src/mcp.rs:333-406 | a block list has one assembly |
| `BlockBudget.AssemblyConsistsOf` | src/mcp.rs:333-406 | an assembly is the texts shown with empty lines in between, and a footer exactly if some block is not shown in full |
| `BlockBudget.FooterNames` | src/mcp.rs:396-404 | the footer names how many blocks are not shown in full and how many there are |
| `BlockBudget.AnswerConsistsOf` | src/mcp.rs:320-326 | an answer is the assembly, and the hint exactly if some name can be searched for |
| `BlockBudget.LayoutUnique` | src/mcp.rs:345-400 | the rule admits one layout |
| `BlockBudget.FullsAreAsManyAsFit` | src/mcp.rs:349-357 | the full blocks are a prefix, as long as fits |
| `BlockBudget.NoneOmittedIff` | src/mcp.rs:328-332 | every block is shown exactly if the answer with the rest in short form fits |
| `BlockBudget.OmittedBlock` | src/mcp.rs:389-393 | two blocks of which the second is left out |
| `BlockBudget.OutputFits` | src/mcp.rs:338-398 | the blocks shown stay within the budget left by the reserve |
| `BlockBudget.Footer` | src/mcp.rs:396-404 | the footer fits its reserve for any 64-bit counts |
| `BlockBudget.AssembleWithHint` | src/mcp.rs:321-406 | the whole answer is at most 48,000 bytes for every block list |
| `OutputBlocks.LinesOfTerminated` | src/fs_tools.rs:420-421 | the lines of a text are what stands between its newlines, less a carriage return before one |
| `FileReader.EmitLines` | src/fs_tools.rs:441-453 | as many lines as line and byte cap allow, at least one |
| `FileReader.RunRead` | src/fs_tools.rs:393-470 | the errors, the clamped range, the page and the line to continue from |
| `FileReader.PageStops` | src/fs_tools.rs:434-464 | which kind of answer a request gets; a page never goes past the requested end or the file, and names a line to continue from exactly if it stops short of both |
| `FileReader.PageReadsBack` | src/fs_tools.rs:441-453 | the lines of a page are the requested lines of the file, each behind its number |
| `FileReader.AnswerUnique` | src/fs_tools.rs:393-470 | a request has one answer |
| `FileReader.OversizedIff` | src/fs_tools.rs:443-453 | a page exceeds the byte cap exactly if its first line alone does |
| `FileReader.LongLineShownWhole` | src/fs_tools.rs:443-453 | a text whose only page exceeds the cap |
| `FileReader.PagesTile` | src/fs_tools.rs:455-464 | following the answers' hints with the same requested end shows every line up to it, or to the end of the file, once and in order, in at most as many reads as lines |
| `FileReader.PagingEnds` | src/fs_tools.rs:455-464 | following the hints ends |
| `EmbeddingCache.EncodeEmbedding` | src/embedding/cache.rs:81-87 | the loop writes the little-endian encoding |
| `EmbeddingCache.DecodeInvertsEncode` | src/embedding/cache.rs:81-101 | a file decodes to a vector exactly if it is that vector's encoding |
| `EmbeddingCache.EntryPathInjective` | src/embedding/cache.rs:75-79 | different digests have different files |
| `EmbeddingCache.Cache.PutMany` | src/embedding/cache.rs:160-201 | on any disk, the cache as a map is updated in order, empty vectors and failed writes changing nothing |
| `EmbeddingCache.Cache.GetMany` | src/embedding/cache.rs:113-153 | each text is a hit with its vector or a miss, both in order; only corrupt files are deleted and no answer changes |
| `EmbeddingCache.MissIff` | src/embedding/cache.rs:113-153 | a text is a miss exactly if it is not a hit, and while every read works exactly if the cache does not hold it |
| `EmbeddingCache.LastWriteWins` | src/embedding/cache.rs:160-164 | the last write of a text wins |
| `EmbeddingCache.UnwrittenKept` | src/embedding/cache.rs:160-164 | a text that is not written keeps what it had |
| `EmbeddingCache.NeverEmpty` | src/embedding/cache.rs:89-101 | no empty vector is ever found, whatever the files hold |
| `KeyRotation.StreamingClient.CompleteWithToolsStreaming` | src/llm/mod.rs:492-577 | the run is a rotation, and the sink receives exactly the tokens of the last attempt |
| `KeyRotation.StreamingClient.FirstRound` | src/llm/mod.rs:509-541 | every key once from the cursor on, until a body begins |
| `KeyRotation.StreamingClient.SecondRound` | src/llm/mod.rs:545-576 | the keys without a rate limit once more, until a body begins |
| `KeyRotation.OnlyLastDelivers` | src/llm/mod.rs:486-490 | every attempt but the last delivered nothing |
| `KeyRotation.ResultIsLastAnswer` | src/llm/mod.rs:509-577 | the result is that of the last answer asked for; when every call was refused, the error of the last |
| `KeyRotation.TwiceAtMost` | src/llm/mod.rs:509-576 | no key is called twice in one pass |
| `KeyRotation.RateLimitedOnce` | src/llm/mod.rs:532-549 | a key rate-limited in the first pass is not called again |
| `KeyRotation.GivesUpLast` | src/llm/mod.rs:545-577 | a refusal is returned only after every key, and every key without a rate limit twice |
| `KeyRotation.RetriedIff` | src/llm/mod.rs:486-531 | when the first pass ends without a token there is a further call exactly if no body had begun and a key is worth it |
| `KeyRotation.NextCallIff` | src/llm/mod.rs:509-576 | within each pass a call is followed by another exactly if it was refused and a key is left |
| `KeyRotation.RotationUnique` | src/llm/mod.rs:492-577 | the answers determine the run |
| `KeyRotation.BrokenBodyNotRetried` | src/llm/mod.rs:526-531 | the one run there is when the first of two keys breaks off without a token: the second is not called |

## Left out

- Multi-repository shards: the memory cap over several repositories is an eviction that can happen at any time.
- Stale snapshots that queries may read during an index run (src/vector/sharded.rs:360-405), and the search itself.
- Chunk rows without an embedding: stored chunks and stored vectors are the same rows here.
- The hash of a content stamp: stamps are compared as (identity, count, epoch), so as free of collisions. The wrap-around of the 64-bit epochs is left out too.
- `WarmFenceSafety.SearchableShardIsDatabase`: a removal has to be clean (no persisted file, no warm in flight), since without that it fails, as `WarmFenceLimits` shows; so has `WarmFenceSafety.ValidatedFileIsDatabase`. Removal is one step; the rest of the generation protocol is not modelled. In particular a reopened old generation is not handed to later index runs, and reads of a generation whose files are being deleted go through or end the warm.
- The call graph, the background passes after publication, and everything else an index run stores.
- `IgnorePages.RepoDb.IgnoreMatching`: a matching path without a form relative to the root, if the database ever holds one, is deleted without a marker.
- `SessionStore.BoundedSessionStore.LoadSession`: says what one use of a clock at its 64-bit maximum does, but nothing of the uses after it, when the order of stamps is no longer that of use.
- `SessionStore.BoundedSessionStore.StoreSession`: the same limit.
- File errors of the session store other than missing and corrupt files, permissions and access lists.
- `ChangeFilter.Filter.IsGitignored`: glob matching is an abstract rule, and the repository does not change between queries of one filter.
- `TreeWalk.WalkIsFilter`: the walker library is taken to use the same ignore verdict as the filter; the global git ignore, `.git/info/exclude` and the case of no `.git` at all are outside.
- `TreeWalk.WalkSubtree`: the inner walk is taken to see the ignore files above the directory, as the library does by default.
- Paths outside the repository root, names that are not UTF-8, Windows separators and lower-casing beyond ASCII.
- The delivery of rescan requests and the conversion of raw file system events.
- `BlockMerge.MergeOverlappingBlocks`: reading lines again, the fallback text and the header format are functions passed in; the fallback gets one text per member in an order that is left open. The last line of a block has to be below the 32-bit maximum, since the code adds one to it.
- `GrepHint.BuildGrepHint`: symbols come with the blocks; choosing them from the database is not modelled.
- Notices and prefixes added around an assembled answer.
- `FileReader.RunRead`: resolving the path and telling text from binary are inputs; the header line and the wording of the hint are not part of the page.
- `EmbeddingCache.Cache.PutMany`: digests are a table of the texts in use, assumed to be without collisions; which file operations fail is an input.
- Modification times of cache files, purging, and temporary files of an interrupted write.
- `KeyRotation.StreamingClient.CompleteWithToolsStreaming`: providers are an oracle of answers, long enough for the longest run, and whether an error is a rate limit is part of the answer, not read from its text.
- HTTP handlers, settings, language parsing, embedding and reranking requests, and the user interface.
