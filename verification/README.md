# CentralBackup: verified model

CentralBackup backs up clients to one server. An agent scans its job's roots,
asks the server which content hashes it lacks, uploads those, checks once more
and commits a manifest; the server stores blobs by content hash, prunes
snapshots by retention policy and collects blobs nothing refers to. Jobs can be
edited on both sides, runs and transfers are dispatched over connections that
come and go, and a snapshot can be browsed and restored.

This Dafny project models that behaviour and proves what it promises. Check it
with `dafny verify dfyconfig.toml`.

## How it is organised

| Dafny files | part of the program |
|---|---|
| `Tables`, `StorageKeys`, `Vault`, `VaultTheorems`, `Retention` | the server's store, handlers, retention and collector, each call uninterrupted but with failing storage and database operations |
| `GcProtocol` | runs, puts, commits, deletions, collection, clock and backend switches as one interleaved system, and what holds under its hypotheses |
| `Refinement` | the interleaved statements, taken without interruption, do what the handlers of `Vault` do |
| `GcExact`, `GcWitnesses` | what holds without them: the exact guard of every step; and a history for each hypothesis that shows it is needed |
| `Dispatch` | hub, connection teardown, and the dispatch of runs and transfers |
| `JobSync`, `SyncProtocol`, `SyncDelivery` | the two ends of job synchronisation, whole histories of many agents and one server, and what becomes of their messages |
| `FileTree`, `Walk`, `Scan`, `Entries`, `Engine`, `Exclusion` | the directory walks, the scan callback, the hash pass; what the exclude patterns keep out |
| `Upload`, `Runs` | `uploadMissing` with its concurrent workers; chains of incremental runs |
| `Paths`, `Restore`, `RestoreTheorems`, `RoundTrip` | restoring, and the way from a tree through a manifest to a disk |
| `EndToEnd` | the chain from an upload to a commit, and from any history to a restored tree |
| `Browse` | the snapshot browser against the restore filter |
| `ChunkUpload`, `Encoders`, `Bundle` | chunked uploads, request encoders, self-enrolling binaries |
| `Basics`, `Sorting` | shared types; `sort.Slice` |

Code that updates fields, slices or buffers in place is a class or a method
with loops, proved against a specification function; what is promised is proved
about those functions. zstd, SHA-256, JSON, YAML, globbing and cron are
parameters: every theorem holds for all of them, under the assumptions it
names. Network answers, new ids and the completion order of workers are
parameters or free choices too, and so are storage and database failures where
a theorem depends on them; "Left out" says which statements are taken to
succeed.

## Where the code gives less than its comments or documentation say

For each of these a theorem says when it happens, with the exact condition wherever
"exactly" or "if and only if" is written, and most have a concrete history too.

- Snapshots can lose their data. For every history, `StoreSoundIff` gives
  exactly the steps that harm a snapshot or make an index untrue, each by a
  guard on the state before it; `SnapshotsWholeIff` and `IndexSoundIff` do so
  for snapshots and indexes alone, `WholeKeptIff` and `IndexKeptIff` for a
  single step. Seven hypotheses rule the harm out (`EverySnapshotRestorable`),
  and each is needed: a history breaks a snapshot when the others hold. The
  grace period protects by `created_at`, which neither `AddBlob` nor the early
  return of `handleBlobPut` refreshes (`DedupNeeded`); a run can outlive it
  (`InTimeNeeded`); a backend switch during a sweep or a put deletes objects of
  the other backend (`SweepSteadyNeeded`, `PutsSteadyNeeded`), and one before a
  commit records a backend that was never asked (`RunsSteadyNeeded`); of two
  overlapping puts of one hash the rejected one can delete the good object
  (`ExclusiveNeeded`); and `handleBlobPut` takes an error of `HasBlob` for "not
  indexed" (`LookupNeeded`, `PutKeepsSoundIff`, `AlwaysSoundIff`).
- A sweep that stops leaves a row without an object, which later runs are told
  is present, unless the store's deletion failed and left the object
  (`StoppedSweepSoundIff`).
- Ended runs are not final: one comes back as running if and only if a
  dispatcher still holds it in its queued list (`EndedIsFinalIff`,
  `EndedIsNotFinal`).
- The errors of the statements that end runs are ignored, so one can be left
  running; only such a failure does that (`NothingLeftRunning`).
- The counts sent with a commit do not reflect the entries the final check
  drops (`CommitCountsIff`).
- On Windows a directory that fails to list ends the walk of its whole root,
  unlike `WalkDir` (`WindowsScanStopsAtFailure`, `NothingLostIff`,
  `FailureHidesSibling`).
- A second edit sent before the server's reply reuses a version and is ignored
  (`SecondEditIgnored`, `SecondEditHappens`).
- A new job can be lost: once its create has gone down with a connection, the
  next push that rewrites agent.yaml takes the entry out, and no continuation
  brings it back (`EntryLostIff`, `LostForGood`, `LossHappens`).
- A file that changes again while it is uploaded can end up in the manifest
  under a hash that this upload stored nothing under (`ReturnedHashMeans`); the
  final check asks about that hash (`FinalCheck`).
- A create can be delivered twice, if and only if an entry already sent is
  still in the file when its name is no longer in flight (`CreatedOnceIff`), as
  after a failed rewrite of agent.yaml (`RewriteNeeded`).
- Restoring into a target directory skips every path with two dots in a row,
  `notes..txt` included, and the root directory's own entry (`ReproducedIff`,
  `TargetIsUnder`).
- `restoreMatch` does not quite mirror the server's filter: it trims white
  space (`SelectionsAgreeIff`, `TrailingSpaceIsMissed`).

## Model

| member | source | states |
|---|---|---|
| GcProtocol.EverySnapshotRestorable | internal/server/gc.go:79-132 | In every history, whatever the interleaving, each snapshot whose deletion has not begun keeps exactly the manifest it was committed with, and all its file hashes stay indexed and stored with the right content in its own backend: if runs commit within the grace period, older deduplicated hashes stay referenced, no switch falls inside a collection, inside a put, or between a final check and its commit, puts of one blob do not overlap, and no put is misled by a failing index lookup |
| GcExact.SnapshotsWholeIff | internal/server/gc.go:79-132 | With no hypothesis at all: every snapshot stays restorable throughout a history if and only if every step spares them: no rejected put and no sweep takes an object or index row that an undeleted snapshot of the backend acted on names, no put overwrites one with other content, and a row is created only for a stored manifest whose hashes all have an index row in the active backend and an object last written with verified content |
| GcExact.WholeKeptIff | internal/server/api_agent.go:327-339 | The same for a single step: which snapshots a rejected put, an overwriting put, a sweep deletion and a commit break, and that no other step breaks any |
| GcExact.StoreSoundIff | internal/server/api_agent.go:366-403 | With no hypothesis at all: throughout a history every snapshot stays restorable and every index stays true if and only if every step was taken when its guard held. Each guard reads the state before the step; for a commit it is that the manifest is stored and every file hash has an index row in the active backend |
| GcExact.IndexSoundIff | internal/server/api_agent.go:293-346 | The indexes alone: throughout a history every indexed blob has a good object, save the one a collection is just removing, if and only if no step broke its guard |
| GcExact.IndexKeptIff | internal/server/gc.go:113-126 | The same for a single step: writing other content over an indexed blob, accepting what is no longer good, rejecting what is indexed, deleting an object of a backend that was not marked, and stopping between object and row are what makes an index untrue, and nothing else does |
| GcExact.GoodBlobIff | internal/server/api_agent.go:319-339 | A blob has a good object exactly when the last storage operation on its key was a write of verified content, or it was good from the start and never touched |
| GcProtocol.StepKeepsInv | internal/server/api_agent.go:293-346 | Every single step (one statement, one storage operation, or a lock) keeps the invariant that ties index, objects, rows, runs in flight, puts in flight and a collection in progress |
| GcWitnesses.DedupNeeded | internal/server/store/store.go:857-861 | A history in which all other hypotheses hold and a snapshot is broken: a run deduplicates against an old unreferenced blob that is swept between its final check and its commit, because created_at is not refreshed |
| GcWitnesses.InTimeNeeded | internal/server/gc.go:75-77 | The same for a run that outlives the grace period |
| GcWitnesses.SweepSteadyNeeded | internal/server/gc.go:118 | The same for a backend switch inside a sweep: objects are deleted from the backend that is active now, not from the one that was marked |
| GcWitnesses.PutsSteadyNeeded | internal/server/api_agent.go:305-339 | The same for a backend switch inside a put: what is rejected is deleted from the backend that is active by then |
| GcWitnesses.RunsSteadyNeeded | internal/server/api_agent.go:380-402 | The same for a backend switch between a final check and its commit: the row names a backend that was never asked |
| GcWitnesses.ExclusiveNeeded | internal/server/api_agent.go:327-339 | The same for two overlapping puts of one hash, the rejected one deleting the other's object |
| GcWitnesses.LookupNeeded | internal/server/api_agent.go:299-303 | The same for a put whose index lookup fails, an error the handler ignores: it goes ahead for an indexed blob, is rejected and deletes the object |
| Refinement.PutIsItsSteps | internal/server/api_agent.go:293-346 | The statements of one put, taken without interruption in the interleaved system, leave what the handler leaves, for every combination of faults |
| Refinement.CommitIsItsSteps | internal/server/api_agent.go:380-403 | The same for a commit whose manifest could be stored: its row, or the clean-up when the insert fails |
| Refinement.DeletionIsItsSteps | internal/server/gc.go:61-73 | The same for the deletion of a snapshot, whatever fails |
| Refinement.CollectionIsItsSteps | internal/server/gc.go:79-132 | The same for a collection: lock, mark every row, plan, delete object and row of each blob, unlock |
| Refinement.StoppedCollectionIsItsSteps | internal/server/gc.go:113-126 | The same for a collection that stops at a blob |
| Vault.Absent | internal/server/store/store.go:843-855 | The missing hashes are exactly the asked ones without an index row in the active backend |
| VaultTheorems.AbsentNext | internal/server/store/store.go:843-855 | The missing hashes come in the order asked, as often as asked |
| Vault.Server.HandleBlobCheck | internal/server/api_agent.go:270-288 | Refuses exactly when some hash is ill-formed, fails exactly when the index cannot be read, otherwise answers with the hashes the index lacks |
| Vault.Server.HandleBlobPut | internal/server/api_agent.go:293-346 | The whole state and reply after a put under any combination of failing lookup, put, delete and insert |
| Vault.Server.HandleSnapshotCommit | internal/server/api_agent.go:366-403 | The whole state and reply after a commit: refused for another agent's job or run, with failing storage or insert, or accepted |
| Vault.Server.DeleteSnapshot | internal/server/gc.go:61-73 | For every combination of failing read, object deletion and row deletion: success removes manifest and row and nothing else; failure leaves the row and at most the manifest gone |
| Vault.Server.Mark | internal/server/gc.go:93-110 | Fails exactly when the snapshots cannot be listed or some manifest of the active backend cannot be fetched or decoded; otherwise collects what they reference |
| VaultTheorems.CanMarkIff | internal/server/gc.go:93-110 | The mark phase gets through exactly when the snapshots can be listed and every one of the active backend has a manifest that can be fetched and decoded |
| Vault.Server.GcBlobs | internal/server/gc.go:83-132 | Completing leaves exactly the swept state. A failure before the sweep, which happens exactly when listing, some manifest or the index cannot be read, changes nothing. A failure while sweeping leaves the doomed blobs done so far without row and object, and one more, whose deletion failed in the store or in the index, with its row, and with its object exactly when the store failed and left it |
| Vault.Server.PruneJob | internal/server/gc.go:36-54 | One job: completes exactly when the listing and the deletion of every expired row succeed, and then leaves the pruned listing; otherwise it stopped at the expired row whose deletion failed, those before it gone; no other job's rows change |
| VaultTheorems.CanPruneIff | internal/server/gc.go:36-54 | A job's pass completes exactly when it has no policy, or its snapshots can be listed and every one that pruning does not keep can be deleted |
| VaultTheorems.StoppedPassIsPart | internal/server/gc.go:51-53 | A stopped pass has deleted nothing that pruning keeps, the snapshot it stopped at is still listed, and the next complete pass ends where this one should have |
| Vault.Server.PruneRetention | internal/server/gc.go:25-57 | Nothing happens when the jobs cannot be listed. Otherwise the first jobs are pruned, each by its own policy and cutoff, the one where it stopped in part, later ones not at all; no object goes but manifests of rows of the active backend, and their rows are gone too, save the one where a deletion failed |
| VaultTheorems.SweepIsExact | internal/server/gc.go:83-132 | A blob loses row and object if and only if it is of the active backend, named by no snapshot of that backend, and created at or before the cutoff; nothing else changes |
| VaultTheorems.FailedSweepSparesReferenced | internal/server/gc.go:113-126 | A sweep that stops anywhere leaves every blob that is referenced, recent or of another backend indexed and good |
| VaultTheorems.StoppedSweepSoundIff | internal/server/gc.go:118-123 | A stopped sweep keeps "indexed means stored" exactly when the deletion it stopped at failed in the store and left the object; if the object went, or the row's deletion failed, later runs are told the blob is present |
| VaultTheorems.StoppedIsOp | internal/server/gc.go:113-126 | What GcBlobs leaves when it stops is what the stopped collection of the histories below leaves |
| VaultTheorems.MarkedIs | internal/server/gc.go:98-109 | The marked hashes are exactly those some listed manifest names in a file entry |
| VaultTheorems.PutKeepsSoundIff | internal/server/api_agent.go:299-343 | A put keeps "every indexed blob has an object that decompresses to content with its hash" except when the ignored HasBlob error hides an index row and the upload then leaves bad content |
| VaultTheorems.AcceptedPutIndexes | internal/server/api_agent.go:340-345 | An accepted put leaves the hash indexed with a good object |
| VaultTheorems.PutReplies | internal/server/api_agent.go:293-346 | Which reply a put gets, each by an if-and-only-if: a hash found indexed is accepted as it is, otherwise acceptance takes a completed upload of content with that hash and a working index; a body that was good is what the key holds |
| VaultTheorems.RejectedPutLeaves | internal/server/api_agent.go:312-335 | A rejected put leaves nothing at its key, unless the clean-up fails and leaves the stored body or part of it |
| VaultTheorems.CommitReplies | internal/server/api_agent.go:366-403 | Which reply a commit gets, each by an if-and-only-if: refused for another agent's job or run, accepted when upload and insert succeed, a server error otherwise |
| VaultTheorems.DeletionEffects | internal/server/gc.go:61-73 | A deletion succeeds exactly when there is no such row or nothing it needs fails; then manifest and row are gone, and no other row or object is touched |
| VaultTheorems.AlwaysSoundIff | internal/server/api_agent.go:293-346 | Under any sequence of good, mismatched, failing and repeated puts, with or without a working index lookup, of commits, deletions that may fail, collections that complete or stop anywhere, clock steps and backend switches, every backend's index stays sound throughout if and only if no put went ahead on a failed lookup for an indexed blob and left bad content, and no collection stopped at a blob that had lost its object |
| VaultTheorems.SurvivesIff | internal/server/gc.go:113-125 | Between final check and commit a blob stays exactly when every position at which a collection, completed or stopped, removes it is followed by one at which a put of it is accepted |
| VaultTheorems.CommitRestorableIff | internal/server/api_agent.go:366-403 | A commit that nothing fails is accepted and adds the row, and the snapshot is fully restorable exactly when all its hashes survived since the final check, whatever puts, deletions and collections, failing or not, ran in between |
| StorageKeys.KeyNameInjective | internal/server/storage/storage.go:29-42 | Two storage keys are equal strings only when they are the same key: the blob, manifest and transfer namespaces are disjoint and each key function is injective |
| StorageKeys.IsHashIff | internal/server/api_agent.go:21 | A hash is accepted exactly when it is 64 of the characters 0-9 and a-f |
| StorageKeys.BlobKeyIs | internal/server/storage/storage.go:29-33 | A blob's key is "blobs/", its first two digits, its hash and ".zst" |
| VaultTheorems.PutEffects | internal/server/api_agent.go:293-346 | A put indexes at most its own hash, only when accepted, with verified content and the current time; existing rows keep created_at; no other object changes; a rejected put whose clean-up works leaves no object |
| VaultTheorems.CommitEffects | internal/server/api_agent.go:380-403 | A commit adds one row of the active backend with the manifest it was sent, only when accepted; otherwise no row, and no manifest when the clean-up works |
| Retention.PruneIsPrefix | internal/server/gc.go:40-50 | What is kept is a newest-first prefix with the newest snapshot in it; inside it the rule holds throughout, beyond it nowhere |
| Retention.KeepLastAlone | internal/server/gc.go:36-50 | Keep-last alone keeps just that many of the newest; with neither rule everything stays |
| Retention.KeepDaysAlone | internal/server/gc.go:36-50 | Keep-days alone keeps what is not older than the cutoff, and the newest in any case |
| Retention.BothRulesKeepMore | internal/server/gc.go:36-50 | With both rules the longer of the two results stays |
| Retention.PruneAbsorbs | internal/server/gc.go:40-50 | A later pass over what an earlier pass left gives what it would have given on the whole list; hence pruning is idempotent |
| Retention.PruneOnceAtTheEnd | internal/server/gc.go:25-57 | With ever newer snapshots and cutoffs that never go back, pruning after each commit leaves the same set as pruning the whole history once at the end |
| Retention.RetryCompletes | internal/server/gc.go:51-53 | A pass that fails after any number of deletions, followed by a complete one, ends where one complete pass would |
| Retention.ListedIsSorted | internal/server/store/store.go:774-812 | The listing is a permutation of the rows, newest first |
| Retention.ListedIsReversed | internal/server/store/store.go:774-812 | With a clock that does not run backwards, the listing is insertion order reversed |
| Dispatch.Hub.Register | internal/server/hub.go:43-53 | The new connection becomes the agent's and a different old one is closed, not unregistered |
| Dispatch.Hub.Unregister | internal/server/hub.go:83-90 | The entry goes only if it is still this connection's; the connection is closed |
| Dispatch.Hub.Online | internal/server/hub.go:92-97 | True exactly when a lookup finds a connection |
| Dispatch.Hub.Send | internal/server/hub.go:110-130 | Succeeds exactly when a connection is found and its queue has room; then the message is last in that queue, and no other queue changes |
| Dispatch.RegisteredIsFound | internal/server/hub.go:43-53 | After registering, a lookup of the agent finds the new connection, and no other lookup changes |
| Dispatch.UnregisteredIsGone | internal/server/hub.go:83-90 | Unregistering takes the agent out exactly when the connection is still its current one; the late unregistering of a replaced connection changes no lookup |
| Dispatch.LookupIff | internal/server/hub.go:83-121 | In every reachable state a lookup finds exactly the connection registered last for the agent, unless that one has been unregistered |
| Dispatch.LookupIsLive | internal/server/hub.go:93-121 | In every reachable state, what Online and Send look up is a live connection of that very agent |
| Dispatch.GoneIsNeverFound | internal/server/hub.go:83-90 | A connection that has been unregistered is never found again, in any continuation |
| Dispatch.RunningIsAccounted | internal/server/api_agent.go:88-96 | Under every interleaving a run or transfer marked running has a dispatcher still working on it, or was sent on a connection of its agent whose fail-running statement is still to come, or a statement that should have ended it has failed |
| Dispatch.NothingLeftRunning | internal/server/api_agent.go:88-96 | Once an agent's connections are torn down and its dispatchers are done, none of its runs and transfers is left running, save one whose closing statement failed, an error the code ignores |
| Dispatch.AccountedKept | internal/server/jobs.go:216-230 | Each step of a dispatcher, a connection or an agent's report keeps that account: marking precedes the hub lookup, and leaving the hub precedes failing what runs |
| Dispatch.StatusAfter | internal/server/store/store.go:679-720 | For every step and item: it runs afterwards exactly when the step marks it or it ran and the step does not end it, it has ended exactly when the step ends it or it had and is not marked again; what is queued waits through a lost connection |
| Dispatch.DispatchSends | internal/server/jobs.go:216-230 | One dispatch without interruption: with the agent online the item runs and is on the agent's connection, with the agent offline it has ended and nothing was sent |
| Dispatch.UndeliveredEnds | internal/server/jobs.go:216-230 | When the message cannot be queued, or the job is gone, the item has ended and the dispatcher is done |
| Dispatch.TeardownEnds | internal/server/api_agent.go:88-96 | The whole teardown of a connection: it is no longer found, what ran on its agent has ended, and every other item, connection and lookup is as it was |
| Dispatch.StepKeepsInv | internal/server/transfers.go:74-89 | Every step, for runs and transfers alike, keeps the hub to live connections of the right agents, and what is found or sent to the item's own agent |
| Dispatch.EndedIsFinalIff | internal/server/store/store.go:679-695 | In every reachable state an item that has ended can become running again if and only if some dispatcher still has it in its queued list: MarkRunStarted is unguarded, and nothing else revives an item |
| Dispatch.EndedStaysEnded | internal/server/store/store.go:690-695 | With no dispatcher holding it listed, an ended item stays ended in every continuation |
| Dispatch.EndedIsNotFinal | internal/server/jobs.go:216-230 | Such a state is reached: a run cancelled while a reconnect goroutine holds it |
| JobSync.LocalConfig.SyncNow | internal/agent/config.go:178-229 | Sends nothing when agent.yaml cannot be read or parsed; otherwise exactly the diff of file against cached set, then each deletion whose request gets through; creates stay in flight only if the send succeeds |
| JobSync.DiffEditsIff | internal/agent/config.go:203-210 | The edits sent are exactly those of file entries that differ from the cached job, one version up; stale ids send nothing |
| JobSync.DiffCreatesNewNames | internal/agent/config.go:191-202 | The creates sent are those of new names not in flight, and every new name is in flight afterwards |
| JobSync.CreatesCarryEntries | internal/agent/config.go:185-202 | A create carries the name, paths and other fields of a complete new entry, with omitted booleans as true |
| JobSync.OmittedMeansTrue | internal/agent/config.go:54-66 | A boolean the file omits means true; every other field is sent as it stands |
| JobSync.SpecEqualIff | internal/agent/config.go:258-266 | Two jobs are equal for the diff exactly when their ids and everything a user can edit are |
| JobSync.LocalConfig.ApplyServerJobs | internal/agent/config.go:233-256 | Adopts the pushed set by id, sorts it by name, forgets creates in flight, and rewrites the cache file and agent.yaml if they can be written |
| JobSync.SortedSameMap | internal/agent/config.go:233-247 | Sorting does not change what is cached |
| JobSync.YamlRoundTrip | internal/agent/config.go:54-80 | Writing a job to the file and reading it back is equal in every field jobSpecEqual compares |
| JobSync.UneditedIsQuiet | internal/agent/config.go:178-256 | After a push is applied, an unedited file produces an empty diff and nothing in flight |
| JobSync.JobStore.HandleJobsSync | internal/server/jobs.go:32-69 | The table after a sync message: entry by entry to its end, then a push; or, exactly when a statement an entry needs fails, up to that entry and no push |
| JobSync.JobStore.HandleJobSave | internal/server/api_admin.go:335-369 | The table after an administrator's save, and whether it was refused: a bad spec, an unknown agent or job, or a failing statement |
| JobSync.AdminSaveStores | internal/server/api_admin.go:335-369 | Refused exactly for a bad spec, an unknown agent, a missing job or a failing statement; otherwise the submitted spec is stored, under the new id at version 1, or at the next version with the agent and origin the job had, and nothing else changes |
| JobSync.SyncEntryStores | internal/server/jobs.go:40-66 | One entry of a sync message: without an id it becomes a new job of that agent with the spec that was sent; a newer version of the agent's own job replaces its spec; anything else changes nothing |
| JobSync.StumblesIff | internal/server/jobs.go:40-63 | Which failing statements stop a message: reading the row of an entry that names a job, and saving an entry that changes the table |
| JobSync.DeleteRemoves | internal/server/jobs.go:72-88 | A deletion request takes exactly the agent's own job away |
| JobSync.EditAcceptedIff | internal/server/jobs.go:49-63 | An edit is accepted exactly when the version it was based on is still current; it then replaces the spec the agent edited and raises the version by one; otherwise nothing changes |
| JobSync.WriteKeepsSound | internal/server/store/store.go:552-563 | Every accepted write is logged under an (id, version) pair that was not there, so a pair never names two specs |
| JobSync.SyncWrites | internal/server/jobs.go:40-66 | An entry of a sync message is ignored or is such a write |
| JobSync.AdminWrites | internal/server/api_admin.go:340-362 | An administrator's save is refused or is such a write, of the same agent; AdminSaveStores says which |
| SyncProtocol.StepKeepsInv | internal/agent/config.go:203-210 | Every step keeps: messages on their way are based on logged versions, and every client is as well informed as its last push |
| SyncProtocol.DrainedAgrees | internal/server/jobs.go:18-29 | When all pushes on their way are applied, the agent's cached set is exactly the server's jobs for it |
| SyncProtocol.ClientEditIsCompareAndSwap | internal/server/jobs.go:49-63 | In every reachable state each edit in the next message is accepted if and only if the server is still at the version the agent edited, so it never overwrites an edit the agent has not seen |
| SyncProtocol.VersionsAreForever | internal/server/api_admin.go:349-362 | No step rewrites a logged version; a surviving job keeps its agent and never goes back or changes spec under the same version |
| SyncProtocol.CreatedAtMostOnce | internal/agent/config.go:195-202 | Within one agent process a file entry without id is delivered as a create at most once, if rewrites succeed |
| SyncProtocol.CreatedOnceIff | internal/agent/config.go:195-202 | In every history, whether rewrites succeed or not: entries have been delivered as creates at most once if and only if no delivered sync found an entry that was already sent, is still in the file, and is first to claim a name not in flight |
| SyncProtocol.DiffCreatesIff | internal/agent/config.go:191-202 | The creates a sync sends are exactly those of complete new entries whose name is not in flight and not claimed by an earlier entry |
| SyncProtocol.UndeliveredIsNothing | internal/agent/config.go:211-221 | A sync that cannot be sent leaves the agent as it was, apart from the deletions it requested |
| SyncProtocol.NothingToSendIsNothing | internal/agent/config.go:211-222 | A sync that finds nothing to send or delete does nothing at all |
| SyncProtocol.DeletionPushesIff | internal/server/jobs.go:72-88 | The server pushes after a deletion request exactly when it deleted something |
| SyncProtocol.RewriteNeeded | internal/agent/config.go:248-251 | A history with a failing rewrite that delivers the same create twice |
| SyncProtocol.SecondEditIgnored | internal/agent/config.go:207-209 | Two edits sent against one cached set reuse a version: once the first is accepted the second is ignored, whatever happened since |
| SyncDelivery.SecondEditHappens | internal/server/jobs.go:49-63 | A history in which a user edits a job twice before the server's reply and the second edit changes nothing |
| SyncDelivery.CreatesAreConserved | internal/agent/config.go:191-222 | In every history: the creates an agent has delivered are, in order, those that left its queue followed by those still queued, and each one that left was handled by the server or went down with a connection, exactly as often as it left |
| SyncDelivery.EntryLostIff | internal/agent/config.go:233-256 | When a push rewrites the file, every new entry vanishes from it; the server had not handled its create if and only if the create was never sent, is still on its way, or was dropped with a connection |
| SyncDelivery.LostForGood | internal/agent/config.go:248-256 | Once an entry has vanished with no create of it queued, no continuation handles one that was not handled before: the create is lost for good |
| SyncDelivery.LossHappens | internal/agent/config.go:191-256 | A history in which that happens: the create was delivered, every rewrite worked, and neither file nor server has the job |
| Walk.WindowsWalkMatchesWalkDir | internal/agent/backup_access_windows.go:154-193 | For every callback that skips only directories, and every tree that can be examined and listed throughout, the hand-written walk makes exactly WalkDir's calls |
| Walk.ErrorAnswer | internal/agent/backup_access_windows.go:181-186 | Where the walks part: SkipDir as the answer to a failing listing leaves out one directory in WalkDir and is passed up by the hand-written walk |
| Walk.DirectoryAnswer | internal/agent/backup_access_windows.go:166-173 | Any other answer about a directory than to go on: SkipDir leaves out what is in it, anything else is passed up |
| Walk.LeafIsOneCall | internal/agent/backup_access_windows.go:166-176 | What is no directory takes one call, whose answer goes back as it is |
| Scan.VisibleIff | internal/agent/engine.go:156-168 | A place is emitted exactly when child indices lead to it from the root and nothing on the way below the root, itself included, is excluded or a kernel filesystem |
| Exclusion.EmittedIff | internal/agent/engine.go:154-168 | For the route to a place, which is the only one: it is emitted exactly when everything on that route below the root is admitted |
| Exclusion.BackedUpIff | internal/agent/engine.go:142-200 | A place has an entry in the scan exactly when it is a file, a directory or a readable link and no pattern of the job excludes it or a directory above it below the root; the entry then has its path, kind, size, time and target, and a hash exactly when the previous manifest has one for the same size and time |
| Exclusion.ExcludedIff | internal/agent/engine.go:539-562 | Several patterns exclude what one of them excludes |
| Scan.IsExcluded | internal/agent/engine.go:539-562 | The loop over patterns answers whether some pattern matches |
| Scan.NamePatternIff | internal/agent/engine.go:551-554 | A pattern without separator excludes a path exactly when it is not blank and matches its last name, in whatever directory |
| Scan.PathPatternIff | internal/agent/engine.go:555-559 | A pattern with a separator excludes a path exactly when it matches the path relative to the root |
| Scan.ParentsComeFirst | internal/agent/engine.go:142-200 | Every place below the root comes after the directory it is a child of |
| Scan.UnixScanIsPreorder | internal/agent/backup_access_other.go:20-31 | With WalkDir a scan emits the whole visible pre-order and never stops early, whatever fails to list, and counts what cannot be examined any more |
| Scan.WindowsScanStopsAtFailure | internal/agent/backup_access_windows.go:181-186 | With the hand-written walk it emits the pre-order up to and including the first directory that fails to list |
| Scan.NothingLostIff | internal/agent/backup_access_windows.go:181-192 | Nothing is lost exactly when no failing directory comes before another visible place |
| Scan.FailureHidesSibling | internal/agent/engine.go:149-155 | A tree in which a failed read makes SkipDir end the whole root's walk |
| Engine.Scanner.OnEntry | internal/agent/engine.go:142-200 | State and verdict after one callback; a path that is excluded leaves no trace and a directory is then skipped |
| Engine.Scanner.WalkBackupEntry | internal/agent/backup_access_windows.go:166-193 | The recursive walk over mutable scanner state is the specified walk, reparse points with the directory attribute included |
| Engine.PlacesKeepSound | internal/agent/engine.go:183-197 | Whatever is visited, totals equal count and size sum of the file entries and toHash is exactly the entries without hash |
| Engine.NothingSkippedIff | internal/agent/engine.go:149-178 | The count of skipped items stays exactly when every visible link could be read, every directory listed and everything examined |
| Engine.Scanner.HashLoop | internal/agent/engine.go:206-231 | In-place hashing: each pending entry gets its hash or is dropped, no other entry changes, and the counters move by the failures |
| Engine.Scanner.HashPass | internal/agent/engine.go:202-238 | Afterwards the entries are the specified filter and FilesTotal and BytesTotal equal their count and size sum |
| Engine.HashedCounts | internal/agent/engine.go:214-222 | Subtracting failures one by one gives the count and size sum of what is left |
| Engine.IncrementalEqualsFull | internal/agent/engine.go:179-199 | With readable files and a faithful previous manifest an incremental scan yields the entries of a full scan |
| Engine.ManifestIsFaithful | internal/agent/engine.go:492-532 | The manifest of a run in which no file changed, with any entries dropped, is faithful for the next run, if rewriting a file changes its size or mtime |
| Engine.ByPathIs | internal/agent/engine.go:492-532 | Of several entries with one path the last is looked up; entries without a path are not |
| Runs.EveryManifestIsFull | internal/agent/engine.go:66-123 | However long the chain of incremental runs, each against the manifest before it, the last manifest is what a full scan of the last tree gives, less what the final check dropped, if files are readable and rewriting one changes its size or mtime |
| Entries.Compact | internal/agent/engine.go:232-237 | Compacting over the shared backing array computes exactly the filter |
| Entries.KeepIfMembers | internal/agent/engine.go:326-341 | The filter keeps exactly the members that satisfy its predicate |
| Entries.KeepIfCounts | internal/agent/engine.go:333-337 | What a filter keeps and what it drops add up to the whole, in count and in bytes |
| Upload.UploadFile | internal/agent/engine.go:370-437 | At most two attempts, the second only after a rejected changed file, and put under the hash read in the first |
| Upload.ReturnedHashMeans | internal/agent/engine.go:403-437 | If every accepted put was verified or of an indexed hash: a returned hash was read in the accepted attempt and is the one put under, unless the file had changed again and the hash put under was indexed already |
| Upload.AcceptanceIsTruthful | internal/server/api_agent.go:293-346 | The server gives that: an accepted body has the content of its hash, or the hash was indexed |
| Upload.UploadFailsIff | internal/agent/engine.go:370-437 | An upload fails exactly when the file cannot be opened, or its first put is rejected and it has not changed, cannot be opened again or is rejected again |
| Upload.CheckAllBlobs | internal/agent/engine.go:347-365 | Fails exactly when some batch fails; returns just what was reported missing; every other hash was reported present in its own batch |
| Upload.BatchesCover | internal/agent/engine.go:347-365 | The hashes are asked in order, a thousand at a time, each in just one request and none in an empty one |
| Upload.Representatives | internal/agent/engine.go:246-253 | Each hash is mapped to the first file entry that has it |
| Upload.RunWorkers | internal/agent/engine.go:267-309 | For every completion order: the entries are re-hashed as EntriesAfterUpload says entry by entry; fails exactly when an upload failed; bytes are the sum over uploads |
| Upload.DropMissing | internal/agent/engine.go:325-342 | The second compaction is the filter, and totals move with the drops |
| Upload.FinalCheck | internal/agent/engine.go:311-342 | Asks about every remaining hash and keeps the entries not reported missing |
| Upload.UploadMissing | internal/agent/engine.go:245-344 | On success: what was missing was uploaded, the result is the filter of the re-hashed entries, and totals equal its count and size sum |
| Upload.EntriesAfterUpload | internal/agent/engine.go:287-342 | For each single entry: the first file with a hash that was sent ends with the hash its upload came back with, every other entry with its own, all else as before; it is left exactly when it is no file or that hash was not missing at the final check |
| Upload.EveryHashReportedPresent | internal/agent/engine.go:311-343 | After a scan that hashed every file, every remaining file entry has a hash, and the server reported it present at the final check |
| Upload.OrderPreserved | internal/agent/engine.go:295-299 | The result is an order-preserving subsequence of the input, with hashes changed only at representatives of sent hashes |
| Upload.CommitCountsIff | internal/agent/engine.go:473-474 | The counts sent with the commit match the manifest exactly when the final check dropped nothing |
| Upload.UnchangedFilesKeepHashes | internal/agent/engine.go:295-299 | If no file changed during the upload, every remaining entry is a scanned one, unchanged |
| Upload.PresentMeansIndexed | internal/server/api_agent.go:270-288 | A hash reported present was indexed when its batch was answered |
| Restore.Collect | internal/agent/restore.go:74-95 | The matching entries in order, with their totals |
| Restore.Restorer.RestoreFile | internal/agent/restore.go:157-206 | Disk and result of one file: kept, failed with the directories made so far, or written after its hash was checked |
| Restore.Restorer.RestoreEntry | internal/agent/restore.go:108-149 | Disk and counters after one entry of each type |
| Restore.Restorer.DoRestore | internal/agent/restore.go:50-153 | Disk, counters and totals after a whole restore or up to where it was cancelled; a manifest that cannot be decoded and an empty selection are errors that touch nothing |
| Restore.EntryTouches | internal/agent/restore.go:108-149 | An entry touches its own target only, apart from directories made above it; not skipped means in place, and counts the file and the bytes written |
| Restore.ReplacedIff | internal/agent/restore.go:157-206 | Over a file or link that is there, a file entry is kept back exactly without the overwrite option, and with it replaces what is there exactly when its blob is good and the target can be written |
| Restore.FailingPathStays | internal/agent/restore.go:108-206 | A path that cannot be created never gets anything new, and an entry for it is counted as skipped unless it is a directory already there |
| RestoreTheorems.NothingOverwritten | internal/agent/restore.go:158-160 | Without the overwrite option nothing that exists is changed, whatever fails |
| RestoreTheorems.OnlyVerifiedContent | internal/agent/restore.go:190-193 | Every file on the disk was there before or has the hash of an entry for that place |
| RestoreTheorems.SuccessMeansRestored | internal/agent/restore.go:33-44 | Whatever was there before, a restore that skips nothing has put every selected entry in place and written each file once |
| RestoreTheorems.RestoreReproduces | internal/agent/restore.go:50-153 | Without faults an empty place ends up with exactly the acceptable entries and the directories above them; skipped counts the others |
| RestoreTheorems.RestoreReplaces | internal/agent/restore.go:97-153 | With the overwrite option and without faults, a restore over what is there puts every acceptable entry in place and leaves everything else alone |
| RestoreTheorems.DiskStaysTree | internal/agent/restore.go:108-206 | On a disk where everything stands in a directory a restore leaves nothing that does not, whatever fails, with or without overwriting |
| RestoreTheorems.FailedFileLeavesDirectories | internal/agent/restore.go:157-206 | A file that cannot be restored still gets the directories above it, if they can be made |
| RoundTrip.TargetIsUnder | internal/agent/restore.go:226-236 | The target is the path moved below the directory; turned down exactly for the root and for paths with two dots in a row |
| RoundTrip.DriveIsDirectory | internal/agent/restore.go:226-236 | A drive letter becomes a directory below the target, without its colon |
| RoundTrip.MatchIsAtOrBelow | internal/agent/restore.go:209-221 | On clean paths an entry matches a picked path exactly when it is that path or below it; the root, and an empty list, match everything |
| RoundTrip.MatchIff | internal/agent/restore.go:209-221 | Several picked paths match what one of them matches |
| RoundTrip.BackupThenRestore | internal/agent/restore.go:50-236 | Scanning a quiescent readable tree and restoring it into an empty place reproduces exactly the visible files, directories and links in kind, content and link target; with a selection, exactly the restoreMatch entries and the directories above them |
| RoundTrip.UnwantedStaysOut | internal/agent/restore.go:209-221 | A place of the tree that is neither selected nor above a selected one is not there after the restore |
| RoundTrip.WindowsManifestIsSame | internal/agent/backup_access_windows.go:154-193 | Where every directory lists, the Windows walk gives the same manifest, so the round trip holds for it too |
| RoundTrip.ReproducedIff | internal/agent/restore.go:230-234 | Below an empty target directory a chosen place is reproduced exactly when its path has no two dots in a row |
| RoundTrip.RestorableIsHealthy | internal/server/api_agent.go:348-362 | A snapshot the server holds in full gives a restore every blob it asks for, with the right hash |
| EndToEnd.UploadAllowsCommit | internal/agent/engine.go:311-344 | When uploadMissing returns without an error and its final check was answered in the history, the manifest has only hashes that run found, so the commit is one the protocol allows |
| EndToEnd.SnapshotRestoresItsTree | internal/agent/restore.go:50-153 | In every history the protocol's hypotheses allow, a snapshot whose deletion has not begun, committed by a chain of incremental runs, gives back exactly the tree of the last run when restored into an empty place |
| RoundTrip.PlacesAreDistinct | internal/agent/engine.go:169-173 | No two entries of one root have the same path |
| RoundTrip.AboveIsDirectory | internal/agent/engine.go:142-200 | Everything above an emitted path, down from the root, is an emitted directory |
| Browse.SnapshotTree | internal/server/manifest.go:65-98 | An error if the manifest cannot be read; otherwise the nodes the loop over entries builds, each once, no directory after anything else and names in Go's order within each group |
| Browse.TreeIsExplained | internal/server/manifest.go:75-94 | With unique paths a name is listed exactly when an entry is at or below it, and is that entry's own node if there is one, else an implied directory |
| Browse.EntryIsShown | internal/server/manifest.go:82-91 | An entry directly below the prefix is listed under its name with its own path, kind and size, and its time in whole seconds cut off towards zero |
| Browse.ImpliedIsShown | internal/server/manifest.go:92-94 | A name only deeper entries have is listed as a directory without size or time |
| Browse.TreeIgnoresOrder | internal/server/manifest.go:90-94 | With unique paths the nodes, types included, do not depend on the manifest's order |
| Browse.ChildrenPartition | internal/server/manifest.go:65-125 | Each entry strictly below the prefix is under exactly one listed child's path, and no other entry is under any |
| Browse.MatchIsUnderTrimmed | internal/agent/restore.go:209-221 | The agent's filter is the server's after trimming white space |
| Browse.SelectionsAgreeIff | internal/server/manifest.go:113-125 | For one prefix the two filters agree on all paths exactly when trimming white space makes no difference to it |
| Browse.TrailingSpaceIsMissed | internal/agent/restore.go:215 | A name ending in a space can be picked in the browser and is then not restored |
| ChunkUpload.RetriedIff | internal/server/storage/cloud.go:110-139 | Success exactly when one of four attempts is accepted and all before it were transient and not cancelled while waiting |
| ChunkUpload.FirstAnswer | internal/server/storage/gdrive.go:258-275 | Drive accepts 308 for every range but the last, anything else 200 to 299; only 429, 500, 502, 503 and 504 are tried again, unless the wait is cancelled |
| ChunkUpload.FourAttempts | internal/server/storage/cloud.go:110-139 | A receiver that stays unavailable is asked four times |
| ChunkUpload.RangesTile | internal/server/storage/gdrive.go:242-285 | The ranges are contiguous and disjoint, cover the file, fit a chunk, and all but the last are multiples of 256 KiB (Drive) or 320 KiB (OneDrive) |
| ChunkUpload.RangesAreFull | internal/server/storage/gdrive.go:242-285 | Every range but the last is 8 MiB (Drive) or 10 MiB (OneDrive), and the last ends the file |
| ChunkUpload.Session.SendRange | internal/server/storage/gdrive.go:261-280 | One range with its retries: acceptance and number of sends as retry says; the receiver gains part of the range, or all of it on success |
| ChunkUpload.Session.SendFile | internal/server/storage/onedrive.go:159-201 | The receiver never holds a wrong byte; success exactly when all ranges were accepted, and it then holds the whole file; at most four sends a range |
| Encoders.EscapeSegment | internal/server/storage/s3.go:307-320 | The loop is byte-wise escaping |
| Encoders.EscapeOne | internal/server/storage/s3.go:307-320 | Letters, digits and "-", "_", ".", "~" stay; any other byte becomes "%" and two upper-case digits |
| Encoders.DecodeUndoesEscape | internal/server/storage/s3.go:305-320 | Percent-decoding by section 2.1 of RFC 3986 undoes the escaping of every byte string |
| Encoders.CanonicalURI | internal/server/storage/s3.go:294-303 | Split, escape in place and join give the canonical path; the empty path gives "/" |
| Encoders.CanonicalIsOnePass | internal/server/storage/s3.go:298-302 | Splitting, escaping and joining is one pass that leaves separators alone |
| Encoders.EmptyPathIsRoot | internal/server/storage/s3.go:294-297 | The canonical form of the empty path is "/" |
| Encoders.CanonicalRoundTrip | internal/server/storage/s3.go:294-303 | Decoding the canonical form of a non-empty path gives the path back |
| Encoders.SeparatorsKept | internal/server/storage/s3.go:298-302 | The canonical form splits into the escaped segments and has only unreserved bytes, "%" and "/" |
| Encoders.TwoPassesAreOne | internal/server/storage/gdrive.go:365-369 | Escaping backslashes, then quotes, is escaping both in one pass |
| Encoders.QuotedValueIsRead | internal/server/storage/gdrive.go:363-369 | A reader gets back exactly the value and stops where the query goes on, whatever follows |
| Bundle.Append | internal/bundle/bundle.go:44-65 | The stream grows by executable, encoding, length and magic; a too large encoding is refused after the executable has been written |
| Bundle.FooterIs | internal/bundle/bundle.go:20-24 | The footer is 24 bytes, the length and then the magic text padded with zeros |
| Bundle.Read | internal/bundle/bundle.go:70-106 | The signed computation gives what the unsigned length field means; no read falls outside the file |
| Bundle.BundleRoundTrip | internal/bundle/bundle.go:44-106 | Reading a bundle gives its enrollment exactly when the encoding is not empty; the executable is an exact prefix |
| Bundle.RebundleReturnsNewest | internal/bundle/bundle.go:44-106 | Bundling again returns the newest enrollment |
| Bundle.ImplausibleIff | internal/bundle/bundle.go:92-95 | A length is refused exactly when it is not between 1 and both the limit and the bytes before the footer, also when it wraps negative |
| Bundle.PlainIff | internal/bundle/bundle.go:74-90 | A file counts as unbundled exactly when it is too short for a footer or does not end in the magic text |
| Bundle.BigEndianRoundTrip | internal/bundle/bundle.go:57-58 | Decoding a big-endian length gives the length |

## Left out

- Sockets, TLS, HTTP framing and status codes, OAuth, request signing, SQL text, and the libraries named above: not part of this model.
- Crash or restart of server or agent in the middle of a protocol: the claims about whole histories cover one process lifetime.
- Cancellation of a scan or an upload, hooks, progress reports and run logs: a cancelled run commits nothing, and the model has the runs that go on.
- Loading the previous manifest from the local cache or the server: the model takes the entries by path, the last one winning.
- Roots: the round trip and the pre-order are stated for one root; several roots are scanned one after the other into the same entries.
- Paths: on Windows `fromSlash` and drive letters are not modelled, so the round trip into a target directory assumes paths without ":"; `filepath.Join` and `filepath.Dir` are modelled on clean paths.
- File modes, owners and hard links: a restored entry is compared in kind, content, modification time of files, and link target.
- Symbolic links as ancestors of a restore target: the model treats a link in the way as an obstacle to making directories, while the operating system follows a link to a directory.
- Temporary files of a restore: a file appears at its target in one step, as the rename makes it.
- The buffer parsing behind directory listings on Windows. `sort.Slice` is an insertion sort here; only its result is used, up to the order of equal elements.
- Database failures: modelled in Vault, for the statements that mark and end runs and transfers in Dispatch, and for the administrator's save in JobSync; creating rows in Dispatch and saving and listing jobs in SyncProtocol are taken to succeed.
- The clock: it only goes forward in GcProtocol and VaultTheorems.
- Scan.UnixScanIsPreorder: a directory that cannot be examined is taken to fail to list as well.
- Vault.Server.GcBlobs: iterates over the index in an order the language leaves open; two handlers never interleave in it (GcProtocol has the interleavings).
- Refinement.CommitIsItsSteps: a manifest whose upload fails and leaves part of it behind is not a step of GcProtocol; no row names it (VaultTheorems.CommitEffects).
- GcProtocol.EverySnapshotRestorable: snapshot ids are taken to be never reused, and an agent to send a manifest that decodes, with every file hashed and only hashes its final check found present (as EndToEnd.UploadAllowsCommit shows it does).
- Dispatch.NothingLeftRunning: remote commands follow the transfer protocol and are not modelled; a send time-out is a step that returns false, and a message on a connection's queue counts as sent even if the writer never gets to it.
- JobSync.YamlRoundTrip: JSON's distinction between a missing and an empty list is not modelled.
- SyncProtocol.ClientEditIsCompareAndSwap: handlers are atomic; two writes of one job inside one another are not modelled.
- SyncProtocol.DrainedAgrees: a push the server drops because its send times out, and a statement that fails in the middle of a sync message, are not steps (JobStore.HandleJobsSync has the latter).
- Runs.EveryManifestIsFull: runs in which a file changes while they run are not part of the chain; they record the content that was uploaded, with the size and mtime seen by the walk.
- Upload.UploadFile: what the server answers is free; that an accepted put has content of the expected hash is the server's side (PutKeepsSoundIff).
- ChunkUpload.Session.SendFile: the file is the spooled copy whose length is the size sent, so a short read cannot occur; waiting times, the creation of the session and its cancellation after a failure are not modelled; a receiver keeps an accepted range in full.
- Restore totals and byte counters are unbounded integers, as are versions, clocks and sizes; only the 64-bit length field of a bundle wraps.
- Scheduling, catch-up runs, Docker inventory, file browsing on clients, the zip download and the web interface: not part of this model.
