# tgctl-go, verified

A Dafny model of the local safety protocols of tgctl-go, a Telegram command
line client: what its downloads, writes, cache, outbox, history sync and local
limits guarantee when other processes interfere, operations fail, a process
dies at any point, or events arrive out of order.

Every object the program changes in place (the download destination, the
directory, the ledger invoker, the update storage, the sync state, the SQLite
connection of a backfill, the lock registry, the limiters) is a class whose
methods take the same steps in the same order; each operating-system call, SQL
statement or Telegram call in them may fail nondeterministically. A constant of
the object (`faultless`, `healthy`, `reliable`, `calm`, `steady`, or no `faults`) says that nothing does,
and then the contracts say that the operation succeeds, not only that it is safe. Where many
processes share one table the protocol is a state machine over single SQL
statements, and the theorems are about all its runs.

| file | component |
|---|---|
| `Directory.dfy`, `Quarantine.dfy`, `Opening.dfy`, `Destination.dfy`, `MediaDownload.dfy` | the atomic download destination, against another process that rewrites public names between any two operations, and its client |
| `Idempotency.dfy`, `AtMostOnce.dfy` | the write pipeline over the idempotency table, for any number of processes with crashes anywhere |
| `WriteLedger.dfy`, `PipelineCall.dfy` | the write-ahead ledger around Telegram mutations, and the pipeline's call through it |
| `Lexical.dfy`, `MessageCache.dfy`, `KeptFields.dfy`, `MediaFields.dfy` | the message cache: merge rules, tombstones, convergence, and the fields outside it |
| `Outbox.dfy`, `UpdateStorage.dfy` | the durable event queue, and the persistence barrier for checkpoints |
| `HistoryPaging.dfy`, `SyncCheckpoint.dfy`, `FollowLoop.dfy` | the history page loop, the sync checkpoint, and the loop that follows the outbox |
| `CappedInsert.dfy`, `PathLock.dfy` | the capped atomic backfill insert and the per-path lock registry |
| `Keyset.dfy` | cursor pagination and search over the cache |
| `Unicode.dfy`, `Entities.dfy`, `FileName.dfy` | UTF-8 (RFC 3629), UTF-16 (RFC 2781), formatting entities, download names |
| `Version.dfy` | Semantic Versioning 2.0.0 and git-describe strings |
| `VisualHash.dfy`, `RateLimit.dfy` | the difference hash and the sliding-window limiters |

## Results that differ from what one would expect

- A definitive rejection is documented as proof that Telegram accepted no part
  of the operation (`internal/safety/errors.go:139-141`), but a reservation that
  failed, for a full window or any database error, returns it even after earlier
  mutations of the same action went through
  (`internal/client/write_ledger.go:61-63`). `WriteLedger.RunAction` gives the
  condition on the state before the action: the guarantee holds for one mutation,
  and for more when each has a free slot and a working reservation; where nothing
  but a reservation can go wrong, it fails exactly when some later reservation
  fails and the first does not. `WriteLedger.RejectionHidesMutation` does both
  with two mutations. The model follows the code. The only action of two
  mutations, the kick, is protected: a failure of its second half is wrapped as a
  committed write (`internal/client/gotd.go:2326-2327`), so no rejection the
  pipeline acts on hides an accepted call (`PipelineCall.CallThroughLedger`).
- An idempotency key protects a write if and only if every request that uses it
  carries a fingerprint, or only one request uses it
  (`AtMostOnce.ProtectedExactly`). A fingerprint of blanks only counts as none.
- The first sync of a chat, which has no checkpoint yet, stores a checkpoint that
  is covered exactly when every message beyond its limit was already in the cache
  or tombstoned (`SyncCheckpoint.FirstSyncCovers`); later syncs refuse instead.
- Following the outbox moves the checkpoint to the id of whatever event comes
  next, so a message that the update stream skipped is never fetched again
  (`FollowLoop.FollowingPassesAGap`). At every point of the loop, what is covered
  up to the stored checkpoint is exactly what the changes made by anybody account
  for (`FollowLoop.FollowCoversExactly`); a gapless stream suffices
  (`FollowLoop.FollowCovers`), and a gap nobody fills stays (`FollowLoop.GapStaysOpen`).
- The skipped-media count of a capped backfill is exact if and only if the row
  cap had skipped no media before a row overflowed the byte cap
  (`CappedInsert.SkippedMediaExactly`, `CappedInsert.SkippedMediaUndercounts`).
- A row that meets a tombstone still uses up the row cap, so a new message can be
  refused while the chat has fewer active rows than allowed
  (`CappedInsert.TombstonesUseUpTheCap`), exactly when absorbed rows make up the
  difference (`CappedInsert.RefusedWithRoomExactly`).
- The album id and the raw event that the cache keeps for a message depend on
  arrival order unless no change carries them, or the latest version carries them
  or is a backfill (`KeptFields.OrderFreeExactly`). Sender, date, text, direction,
  reply, the media flag and the edit date do not, as long as no version is
  ambiguous (`MessageCache.Converges`). The type, path and id of the media depend
  on it exactly when something earlier can sway the newest change
  (`MediaFields.MediaFreeExactly`): for the path of live and sync changes, when the
  newest has media and no path and an earlier one can hand it one, or it has a
  path and no media; for the type, when the newest is a plain
  backfill with media and no type, or a failed one for a media id whose type can
  differ.
- The marked id on the boundary, -10^12, counts as a basic group for `Kind` but is
  not reached by a common delete (`MessageCache.CommonDeleteReach`).

## Model

| member | source | states |
|---|---|---|
| AnchoredDirectory.Directory.RenameNoReplace | internal/media/download.go:385-396 | an atomic no-replace rename: an existing target survives on a platform that honours the flag, a missing source and an existing target are told apart, and a failure changes nothing |
| AnchoredDirectory.Directory.Exchange | internal/media/download.go:397-421 | an atomic exchange of two existing names, or what a platform that ignores the flag does instead |
| Quarantine.ValidateNamedRegular | internal/media/download.go:334-352 | success only if the name held a regular file of the expected identity |
| Quarantine.ConfirmCaptured | internal/media/download.go:550-561 | a captured entry that is not the expected one is put back, or the error says cleanup is incomplete |
| Quarantine.CaptureAs | internal/media/download.go:530-561 | one capture attempt moves exactly the named entry to a private name and deletes nothing |
| Quarantine.CaptureNamedRegular | internal/media/download.go:528-564 | up to 100 attempts; success holds exactly the expected file under a private name, failure without the cleanup sentinel leaves the directory as it was |
| Quarantine.RestorePrivateRegular | internal/media/download.go:566-580 | success means the private entry is back under the public name; every failure says cleanup is incomplete |
| Quarantine.DeletePrivateRegular | internal/media/download.go:582-591 | the only thing it can unlink is a file of the expected identity |
| Quarantine.QuarantineRemove | internal/media/download.go:513-526 | success removed exactly the expected file; no other file is unlinked on any path |
| DownloadOpening.CreateProbe | internal/media/download.go:470-511 | the probe is a new private file; on failure it is reported so that it can be cleaned up |
| DownloadOpening.CleanupProbe | internal/media/download.go:426-441 | one probe is removed or reported, and nothing else is unlinked |
| DownloadOpening.CleanupProbes | internal/media/download.go:424-448 | unlinks only probes this call made, each at most once, and without the cleanup sentinel all of them |
| DownloadOpening.ProbeAtomicCapabilities | internal/media/download.go:364-422 | success proves that the platform honours no-replace and, where needed, exchange, and leaves no probe behind |
| DownloadOpening.ValidateFinalTarget | internal/media/download.go:627-650 | accepts an absent name, or with overwrite a regular file whose identity it records; without overwrite a regular file is reported with its size and identity |
| DownloadOpening.Prepare | internal/media/download.go:253-259 | before anything public is created: passes exactly if the final name is acceptable and the platform capable, and otherwise reports what stands in the way |
| DownloadOpening.CreatePartFile | internal/media/download.go:593-609 | up to 100 exclusive attempts; the part is a new file of this process |
| DownloadOpening.SecurePart | internal/media/download.go:276-284 | the part name still holds the new file before and after its mode is set, or the part is cleaned up |
| DownloadOpening.CleanupOpenDestinationPart | internal/media/download.go:311-332 | keeps the primary error, removes only the part, and reports incomplete cleanup otherwise |
| DownloadOpening.OpenDestination | internal/media/download.go:212-302 | success establishes the part file, the recorded target and the platform's capabilities; only probes and the part were ever unlinked; failure without the cleanup sentinel leaves the directory as it was; with nothing failing it opens exactly when the final name is absent, or regular with overwrite on |
| DownloadDestination.Destination.ValidatePublishedEntry | internal/media/download.go:875-894 | success means the final name holds the very file behind the open probe, with its size |
| DownloadDestination.Destination.InspectDestinationCollision | internal/media/download.go:787-813 | a reported collision carries the size and identity of a regular file seen under the final name |
| DownloadDestination.Destination.TakePart | internal/media/download.go:736-749 | the part is held under a private name with an open probe, or nothing was lost |
| DownloadDestination.Destination.PublishHeld | internal/media/download.go:751-771 | done without an error means the part replaced nothing and was seen under the final name; not done without the cleanup sentinel means it is back under its part name |
| DownloadDestination.Destination.ExplainNotPublished | internal/media/download.go:751-764 | a publication that found the name taken reports what a regular occupant is, and the part goes back |
| DownloadDestination.Destination.PublishAbsent | internal/media/download.go:736-772 | publishes by a rename that replaces nothing; done exactly when the part is under the final name; a published part whose identity cannot be confirmed is reported as incomplete |
| DownloadDestination.Destination.FinishExchange | internal/media/download.go:849-873 | the displaced file is deleted only if it is the target accepted at open; otherwise the exchange is undone or the error says cleanup is incomplete |
| DownloadDestination.Destination.KeepReplacement | internal/media/download.go:853-860 | the displaced file goes only when it is the accepted target, and the publication is already confirmed |
| DownloadDestination.Destination.ReplaceTarget | internal/media/download.go:815-873 | undisturbed it succeeds exactly while the accepted target is still in place, and else leaves the directory as it was |
| DownloadDestination.Destination.RollBack | internal/media/download.go:861-872 | a rollback without the cleanup sentinel put the displaced file back under the final name and took nothing but the part file from there |
| DownloadDestination.Destination.Undo | internal/media/download.go:861-873 | anything but a confirmed replacement of the accepted target is rolled back, or reported with the cleanup sentinel |
| DownloadDestination.Destination.PublishOverwrite | internal/media/download.go:815-873 | without the cleanup sentinel every file an exchange displaced, the rollback included, is the accepted target and deleted, is back under the final name, or is the part file |
| DownloadDestination.Destination.FinishCommit | internal/media/download.go:929-949 | terminal and published; sync and close failures carry the committed sentinel |
| DownloadDestination.Destination.FinishPublishedError | internal/media/download.go:951-958 | an error after publishing carries the committed sentinel and becomes the stable terminal error |
| DownloadDestination.Destination.AbortOpen | internal/media/download.go:1009-1036 | closes everything, removes only the part, and succeeds only if the part is gone |
| DownloadDestination.Destination.FailBeforeCommit | internal/media/download.go:976-984 | nothing was published; the primary error is kept; without the cleanup sentinel the directory is back to its start without the part |
| DownloadDestination.Destination.Commit | internal/media/download.go:660-734 | terminal after one call; nil or the committed sentinel exactly when published; only the part and the accepted target can be unlinked; every displaced file is settled; a clean publication was seen under the final name whoever interferes; with nothing failing it publishes exactly an untampered destination whose target is still as accepted |
| DownloadDestination.Destination.Abort | internal/media/download.go:986-1007 | after the first call later calls touch nothing and return the same answer |
| DownloadDestination.RollingBackSettles | internal/media/download.go:849-873 | an exchange followed by its inverse, which took back the part file, accounts for every displaced file |
| MediaDownload.LimitWriter.Write | internal/media/download.go:1047-1090 | never more than the limit in total; writes what fits and reports the limit error exactly when something was cut |
| MediaDownload.PartGrows | internal/media/download.go:1076-1080 | writing to the part descriptor changes the part's size and no other file |
| MediaDownload.AbortDownload | internal/client/media_download.go:229-235 | keeps the transfer error and never hides that a commit happened |
| MediaDownload.Transfer | internal/client/media_download.go:182-193 | any chunks of any size: only the part grows, by exactly the bytes counted; success means all of them, and a steady transfer succeeds exactly if they fit the limit |
| MediaDownload.DownloadInto | internal/client/media_download.go:182-227 | from an open destination to the answer, with success when nothing fails |
| MediaDownload.Publish | internal/client/media_download.go:209-227 | after a complete transfer the answer tells a published file, a skipped one and a refusal apart, with the size and the state of the directory |
| MediaDownload.DownloadExtracted | internal/client/media_download.go:143-227 | with nothing failing, a steady transfer that fits the limit and the stated size ends in the file with exactly the bytes served, under an absent name or in place of a regular file with overwrite; without overwrite a regular file there is skipped with its size and identity; a plain success has the authoritative size and is within the limit; without interference any outcome without the cleanup sentinel leaves the directory as it was plus at most the published file |
| MediaDownload.CommitUnlinksOnlyOwn | internal/media/download.go:736-873 | over the whole operation log of a commit or abort, every unlinked identity is the part or the accepted target |
| MediaDownload.OpenUnlinksOnlyProbes | internal/media/download.go:364-511 | over the whole operation log of an open, every unlinked identity was created by this process |
| MediaDownload.NoOverwriteNeverTakesFinal | internal/media/download.go:736-772 | with overwrite off no entry under the final name is ever replaced, exchanged or removed |
| MediaDownload.CallAll | internal/media/download.go:660-734 | for every sequence of commits and aborts the first call decides, and every later one repeats a stable answer |
| MediaDownload.CallTerminal | internal/media/download.go:960-1007 | on a terminal destination any number of calls leaves directory and object entirely unchanged |
| Idempotency.Store.Reserve | internal/idempotency/idempotency.go:16-52 | inserts a pending marker only where no row exists, else answers from the row; faults may hide an effect |
| Idempotency.Store.Finalize | internal/idempotency/idempotency.go:62-86 | replaces only the caller's own row, and success means the envelope is stored |
| Idempotency.Store.Release | internal/idempotency/idempotency.go:90-108 | removes at most the caller's own row, and only while it is still the pending marker read before |
| AtMostOnce.StepTouchesOnlyOwnRow | internal/idempotency/idempotency.go:62-108 | no statement of any process changes a row owned by another request |
| AtMostOnce.RunKeepsInv | internal/writes/pipeline.go:121-173 | in every reachable state a live execution owns its key's row |
| AtMostOnce.AtMostOneLive | internal/writes/pipeline.go:231-246 | at any point of any interleaving with crashes anywhere, at most one execution per fingerprinted key has reached Telegram without a definitive rejection |
| AtMostOnce.RecordedForever | internal/writes/pipeline.go:253-287 | a recorded result is never changed or removed by anybody |
| AtMostOnce.LateRequestNeverSent | internal/writes/pipeline.go:152-173 | a request that starts after a result was recorded is never sent, and answers from that record |
| AtMostOnce.BlockedForever | internal/writes/pipeline.go:152-173 | in every run: once an execution holds its key's row for good, because it succeeded, ended or died without giving it up, a keyed request that has not begun is never sent, and is only refused or gets the recorded data |
| AtMostOnce.PendingForever | internal/writes/pipeline.go:231-288 | the same after any live execution whose call is over, be it crashed, unrecorded or of unknown outcome, which also stays live |
| AtMostOnce.LiveBlocks | internal/writes/pipeline.go:236-246 | every live execution whose call is over holds its key's row for good |
| AtMostOnce.SameRequestAnswered | internal/writes/pipeline.go:152-166 | answered without a fault, the same request then gets exactly the pending refusal or what the accepted call returned |
| AtMostOnce.CompletedForever | internal/writes/pipeline.go:253-287 | over runs: once an execution with a key has completed with some data, its key's row holds exactly these for ever, and they are what its call returned |
| AtMostOnce.ReplaysTheCompleted | internal/writes/pipeline.go:144-149 | whatever is replayed under the key of a completed execution is what that execution returned |
| AtMostOnce.ReplayedIsRecorded | internal/writes/pipeline.go:144-149 | over runs: whatever a request was replayed is what its key's row records |
| AtMostOnce.RecordStoresResult | internal/writes/pipeline.go:253-287 | recording without a fault stores what the call returned and ends with it |
| AtMostOnce.FreshRequestSucceeds | internal/writes/pipeline.go:152-287 | an undisturbed request whose key is free is executed once, ends with what the call returned, and leaves it recorded |
| AtMostOnce.TakenKeyAnswers | internal/writes/pipeline.go:152-166 | a keyed request whose key is taken is not sent and changes nothing; which answer it gets from which row |
| AtMostOnce.UnkeyedAnswers | internal/writes/pipeline.go:168-172 | which answer a request without a fingerprint gets from which row |
| AtMostOnce.GivingUpLeavesNothing | internal/writes/pipeline.go:121-128 | giving up before the call, or a definitive rejection, leaves no trace of the reservation |
| AtMostOnce.EnabledExactly | internal/writes/pipeline.go:121-288 | which statement can come next where |
| AtMostOnce.FaultsExactly | internal/idempotency/idempotency.go:16-108 | what a statement that failed, with or without having taken effect, leaves behind |
| AtMostOnce.SameRequestAnswer | internal/writes/pipeline.go:129-166 | how a row of the very same request is answered |
| AtMostOnce.DifferentRequestRefused | internal/writes/pipeline.go:130-135 | a different request under the same key is refused |
| AtMostOnce.DifferentTargetRefused | internal/writes/pipeline.go:136-138 | a recorded result of another confirmed target is refused |
| AtMostOnce.RejectionFreesKey | internal/writes/pipeline.go:236-241 | after a definitive rejection and its release the key is free for a new request |
| AtMostOnce.BlankFingerprintBreaksIt | internal/writes/pipeline.go:156-172 | two requests of which one has no fingerprint, or no key, can both be sent |
| AtMostOnce.ProtectedExactly | internal/writes/pipeline.go:152-173 | a key is protected in every run if and only if it is not empty and all its requests carry fingerprints, or it has only one request |
| WriteLedger.SoundAtEveryCrash | internal/client/write_ledger.go:76-119 | a crash leaves a prefix of the trace, and every prefix is sound |
| WriteLedger.SoundMeans | internal/client/write_ledger.go:76-111 | every sent mutation has an earlier row, every outcome an earlier answer that justifies it, nothing twice |
| WriteLedger.FinalRowTellsTheTruth | internal/client/write_ledger.go:93-117 | a row says accepted exactly for a success, rejected exactly for a refusal, and only if Telegram did just that |
| WriteLedger.LedgerTellsTheTruth | internal/client/write_ledger.go:76-119 | the same at every crash point, and no mutation was sent without a row |
| WriteLedger.DecisionIsFinal | internal/client/write_ledger.go:111-111 | a row leaves the prepared state at most once |
| WriteLedger.Invoker.Prepare | internal/client/write_ledger.go:75-82 | the row is durable before the request leaves |
| WriteLedger.Invoker.Dispatch | internal/client/write_ledger.go:76-127 | sends only behind a durable row, and its verdict follows from the answer and the local failures |
| WriteLedger.Invoker.Settle | internal/client/write_ledger.go:83-127 | which error class follows from which answer and which local failure: a refusal is any error code from 400 to 499 |
| WriteLedger.Invoker.Finalize | internal/client/write_ledger.go:110-117 | records the outcome once, possibly behind an error |
| WriteLedger.Invoker.Invoke | internal/client/write_ledger.go:42-128 | a definitive rejection means this request was not applied, success and committed write mean it was, an unknown write was sent; with nothing failing locally, success leaves an accepted row and success, a code from 400 to 499 a rejected row and a rejection, anything else an unknown row and an unknown write |
| WriteLedger.RunAction | internal/client/write_ledger.go:61-63 | for actions of any number of mutations: the condition on the state before them under which a definitive rejection hides an applied mutation, exact where only reservations can fail |
| WriteLedger.RejectionHidesMutation | internal/client/write_ledger.go:61-63 | two mutations, with one slot left or with a database error, of which the first is applied behind a definitive rejection |
| PipelineCall.RunKick | internal/client/gotd.go:2319-2330 | a definitive rejection of a kick means nothing of it was applied |
| PipelineCall.CallThroughLedger | internal/writes/pipeline.go:234-246 | for a single mutation and for a kick, whatever the ledger reports leads to a step the at-most-once protocol allows; a rejected execution was not accepted |
| WriteLedger.Invoker.Reserve | internal/client/write_ledger.go:61-63 | a reservation fails for a full window or any database error, and otherwise takes one slot |
| WriteLedger.Invoker.Submit | internal/client/write_ledger.go:64-83 | numbers and inserts the call, and sends it only then |
| MessageCache.MarkedIdsRoundTrip | internal/peerid/peerid.go:7-30 | marked ids keep users, basic groups and channels apart and decode back |
| MessageCache.CommonDeleteReach | internal/client/update_storage.go:229-236 | a common delete reaches exactly the non-channel ids below the boundary id |
| MessageCache.RowAfter | internal/store/messages.go:64-93 | what any live, backfill, delete or expiry change does to the row of any message |
| MessageCache.CacheExplained | internal/store/messages.go:64-93 | after any history the row is what the set of its changes says, in whatever order they came |
| MessageCache.Converges | internal/client/update_storage.go:207-254 | histories of the same changes, in any order and repetition, show the same message |
| MessageCache.PermutationsConverge | internal/commands/localdb.go:946-971 | in particular every permutation |
| MessageCache.VisibleExactly | internal/store/schema.go:49-50 | shown as deleted exactly if an applicable delete is among the changes, else in the greatest version |
| MessageCache.TombstonesStay | internal/store/messages.go:88-89 | no change revives a tombstone |
| MessageCache.ExpiredForever | internal/client/update_storage.go:212-227 | over runs: once a message has expired, no history brings back anything it said |
| MessageCache.DeletedIsKept | internal/client/update_storage.go:228-239 | over runs: a deleted message keeps what was cached of it, whatever else happens, until it expires |
| MessageCache.MediaPathFollowsMedia | internal/store/messages.go:84-85 | a newer version keeps the cached file only for the same media, and none without media |
| MessageCache.ReadMarkIsGreatest | internal/client/update_storage.go:207-211 | the read mark of a chat is the greatest ever reported, in whatever order |
| MessageCache.GroupedIdDependsOnOrder | internal/store/messages.go:86-87 | an input on which the album id depends on arrival order |
| KeptFields.OrderFreeExactly | internal/store/messages.go:86-87 | for every undeleted message and all its live, sync and backfill changes: album id and raw event are the same in every order if and only if no change carries them, or the latest version decides them in one way |
| KeptFields.AgreedIsOrderFree | internal/store/messages.go:86-87 | then they are also the same for any repetition of the changes |
| KeptFields.HeldIsSettled | internal/commands/localdb.go:946-971 | the value kept is that of a latest version that carries it or is a backfill, which replaces it outright |
| KeptFields.MediaIsLatest | internal/store/messages.go:83-85 | without backfills, type and id of the media are those of a latest version |
| KeptFields.MediaDependsOnOrder | internal/store/messages.go:84-84 | inputs on which the media type, with a backfill, and the media path, without one, depend on arrival order |
| MediaFields.MediaFreeExactly | internal/store/messages.go:83-85 | for every undeleted message whose newest version one change shows, and all its live, sync and backfill changes: media type, path or id is the same in every order if and only if nothing among the earlier changes can sway it, which is read off the changes themselves |
| MediaFields.SwayedIsSeen | internal/commands/localdb.go:954-968 | whatever order of whatever earlier changes makes the newest change leave another type, path or id is accounted for by that condition |
| MediaFields.SwaysHasChain | internal/commands/localdb.go:954-968 | and the condition always has an order of earlier changes that does it |
| MediaFields.HandedPathComesFrom | internal/store/messages.go:84-84 | a path under a media id comes from a change that has it for this id, or was inherited under this id, or belongs to a row that forgot its id |
| MediaFields.StrayPathComesFrom | internal/commands/localdb.go:959-963 | how a row can get another path under the same media id |
| MediaFields.StrayTypeComesFrom | internal/commands/localdb.go:954-958 | how a row can get another type under the same media id |
| MediaFields.LostIdComesFrom | internal/commands/localdb.go:964-968 | how a row can lose its media id |
| MediaFields.MergedMedia | internal/store/messages.go:83-85 | both merges on the media columns as one function of what is stored |
| MediaFields.NewestDecides | internal/store/messages.go:64-93 | only what arrived before the newest change matters |
| Outbox.StepKeepsInv | internal/client/update_storage.go:139-173 | every step of producer, consumers, receipts and crashes keeps the queue invariant |
| Outbox.NoEventLostSilently | internal/client/update_outbox.go:54-70 | every committed event is queued, or left by an acknowledgement after its delivery, by a receipt for its exact bytes, or by expiry of its message |
| Outbox.QueuedExactly | internal/client/update_storage.go:160-173 | a deletion, an expiry or an event about no message is always queued, anything else exactly if its message is not deleted by then; of the pending rows only those go that an expiry is about |
| Outbox.TransactionQueues | internal/client/update_storage.go:160-173 | over runs: every transaction adds its event to the queue, and to what was ever queued, exactly if it has to pass |
| Outbox.DeliveriesInOrder | internal/client/update_outbox.go:25-37 | delivered ids never decrease, over all consumers and crashes |
| Outbox.NoContentAfterExpiry | internal/client/update_storage.go:160-173 | once an expiry has committed, no content event of that message is ever queued |
| UpdateStorage.Storage.Exec | internal/client/update_storage.go:48-67 | a checkpoint statement takes effect as a whole or closes the barrier |
| UpdateStorage.AccountSetterReadsBack | internal/client/update_storage.go:69-95 | an account setter is read back, and other fields, accounts and channels are untouched; a missing account is refused |
| UpdateStorage.ChannelSetterReadsBack | internal/client/update_storage.go:96-137 | a channel setter creates or keeps the other half of its row and touches no other |
| UpdateStorage.Storage.HandleUpdate | internal/client/update_storage.go:139-206 | an update commits to cache and outbox together or closes the barrier |
| UpdateStorage.Storage.Serve | internal/client/update_storage.go:34-67 | after the first failure no request succeeds, and durable effects stay those of a prefix of the requests |
| UpdateStorage.CheckpointsCoverUpdates | internal/client/update_storage.go:139-206 | every stored checkpoint was written over a database holding all updates handled before it |
| UpdateStorage.Consumer.ListenOnce | internal/client/update_outbox.go:11-52 | delivers the oldest pending event; a malformed head blocks instead of being skipped |
| UpdateStorage.Consumer.AcknowledgeEvent | internal/client/update_outbox.go:54-70 | removes only what was delivered to this consumer |
| HistoryPaging.FirstsAreDistinct | internal/client/gotd.go:1657-1666 | whatever a server repeats, no message is kept twice |
| HistoryPaging.TakePage | internal/client/gotd.go:1651-1712 | for any page of any server: rows, warnings, album count and cursor are those of the first occurrences seen |
| HistoryPaging.NextPage | internal/client/gotd.go:1637-1732 | one turn of the loop, including when to stop |
| HistoryPaging.Paginate | internal/client/gotd.go:1616-1734 | terminates with the first limit wanted messages once each in order; not truncated means exhausted; albums are counted once; an error returns a prefix |
| SyncCheckpoint.RowsHold | internal/commands/sync.go:228-245 | every persisted message is cached at least in its fetched version, or tombstoned |
| SyncCheckpoint.AllRowsCover | internal/commands/sync.go:117-129 | storing everything above the checkpoint extends the covered range without a gap |
| SyncCheckpoint.FirstSyncCovers | internal/commands/sync.go:104-106 | whatever the cache held, a first sync covers the ids below its checkpoint if and only if every message beyond its limit was already held or tombstoned |
| SyncCheckpoint.FirstSyncFromEmpty | internal/commands/sync.go:104-106 | from an empty cache: if and only if the history fitted the limit |
| SyncCheckpoint.Syncer.PersistRows | internal/commands/sync.go:228-245 | rows in order, their number and the highest id |
| SyncCheckpoint.Syncer.CatchUp | internal/commands/sync.go:100-133 | the checkpoint advances only together with all rows up to it; a truncated or failed catch-up does not advance it; coverage is never lost on any failure |
| FollowLoop.DelayDoubles | internal/commands/sync.go:138-164 | the pauses of an outage double from 100 ms up to the configured maximum |
| FollowLoop.EventsLogged | internal/client/update_storage.go:155-173 | every committed event is settled in the cache and every queued one was committed, whatever else happens |
| FollowLoop.Follower.Hear | internal/commands/sync.go:145-153 | delivers the oldest event; the loop ends or reconnects on a failure |
| FollowLoop.Follower.SaveCheckpoint | internal/commands/sync.go:184-191 | the checkpoint never goes back and only moves to the id of an event of this chat |
| FollowLoop.Follower.Acknowledge | internal/commands/sync.go:176-192 | only events at or below the stored checkpoint leave the queue through this process |
| FollowLoop.Follower.Advance | internal/commands/sync.go:175-200 | checkpoint first, acknowledgement second, an interruption anywhere in between only redelivers; events of other chats do not move the checkpoint |
| FollowLoop.Follower.Reconnect | internal/commands/sync.go:154-172 | each outage starts over with the shortest pause and doubles it |
| FollowLoop.Follower.Lose | internal/commands/sync.go:146-173 | a broken connection is opened again, anything else ends the loop |
| FollowLoop.Follower.Turn | internal/commands/sync.go:144-200 | undisturbed, one pass takes exactly the oldest event off the queue, saves the greater checkpoint, and counts it if it is of this chat |
| FollowLoop.Follower.Follow | internal/commands/sync.go:144-201 | the invariant holds after any number of passes and any interference; once means at most one event; undisturbed, it empties the queue and acknowledges what it took |
| FollowLoop.FollowCovers | internal/commands/sync.go:184-191 | at every point of the loop the stored checkpoint is no higher than what the cache covers, provided the stream left nothing out |
| FollowLoop.FollowCoversExactly | internal/commands/sync.go:184-191 | at every point of the loop, coverage up to the stored checkpoint holds if and only if the changes anybody made account for every message above the catch-up's checkpoint |
| FollowLoop.GapStaysOpen | internal/commands/sync.go:184-191 | a message below the stored checkpoint that no change is about is not covered |
| FollowLoop.EventsWritten | internal/client/update_storage.go:155-173 | the cache is always what the history of changes made of it |
| FollowLoop.CoveredExactly | internal/commands/sync.go:184-191 | a stretch of history is covered if and only if the changes applied account for each of its messages |
| FollowLoop.FollowingPassesAGap | internal/commands/sync.go:184-186 | a stream with a hole takes the checkpoint over it |
| CappedInsert.CounterConserved | internal/commands/localdb.go:559-643 | the loop counter is the active rows plus the rows absorbed by tombstones or other chats |
| CappedInsert.ActiveRowsBounded | internal/commands/localdb.go:587-592 | active rows end at most at the larger of their initial number and the maximum |
| CappedInsert.BytesBounded | internal/commands/localdb.go:565-572 | starting below the byte cap the committed size is at most the cap; starting at it nothing is inserted |
| CappedInsert.NothingAfterOverflow | internal/commands/localdb.go:607-625 | from the first row that does not fit on, no row has any effect |
| CappedInsert.UncappedTakesAll | internal/commands/localdb.go:574-643 | without a byte cap and below the row cap every row is applied in order |
| CappedInsert.FittingRowsAllTaken | internal/commands/localdb.go:594-643 | with a byte cap too: if there is room for the rows and they never exceed the cap when applied in order, all are stored |
| CappedInsert.FullExactly | internal/commands/localdb.go:565-625 | the load is full if and only if the database started at the byte cap or a row that was tried would have exceeded it |
| CappedInsert.FateOfRow | internal/commands/localdb.go:574-643 | each row is stored exactly if the load is not full, there is room, and the database stays within the byte cap with it |
| CappedInsert.SkippedMediaExactly | internal/commands/localdb.go:611-611 | the reported skipped media is exact if and only if nothing was forgotten at an overflow |
| CappedInsert.SkippedMediaUndercounts | internal/commands/localdb.go:611-611 | an input on which it is not |
| CappedInsert.TombstonesUseUpTheCap | internal/commands/localdb.go:587-643 | an input on which the row cap refuses a row too early |
| CappedInsert.RefusedWithRoomExactly | internal/commands/localdb.go:587-592 | a row is refused although the chat has room if and only if absorbed rows make up the difference |
| CappedInsert.NothingAbsorbed | internal/commands/localdb.go:587-643 | rows of this chat that meet no tombstone are never absorbed, and then the cap counts exactly the active rows |
| CappedInsert.FullRest | internal/commands/localdb.go:574-578 | breaking out of the loop and counting the rest equals going on |
| CappedInsert.Connection.TryRow | internal/commands/localdb.go:579-643 | one row between savepoint and release: stored exactly if there is room and the database stays within the byte cap with it |
| CappedInsert.Connection.LoadRows | internal/commands/localdb.go:574-643 | the loop computes the specified load |
| CappedInsert.Connection.InsertRows | internal/commands/localdb.go:412-653 | rows are durable all together or not at all, an error is a committed write exactly when they are durable, success restores the connection, and rows that all fit are all stored |
| PathLock.RunKeepsInv | internal/commands/localdb.go:302-328 | the registry invariant in every interleaving |
| PathLock.MutualExclusion | internal/commands/localdb.go:302-328 | two threads never hold one path at once |
| PathLock.RegistryIsExact | internal/commands/localdb.go:307-326 | an entry exists exactly while somebody uses the path, its count is their number, and an idle registry is empty |
| PathLock.WaiterIsServed | internal/commands/localdb.go:314-318 | a waiter can proceed or waits for a thread that holds the very same entry |
| PathLock.Registry.Enter | internal/commands/localdb.go:307-314 | find or create, and count, under the registry mutex |
| PathLock.Registry.Leave | internal/commands/localdb.go:319-325 | the last user removes the entry and no other |
| Keyset.SearchIsContainment | internal/store/messages.go:199-204 | escaping makes a search find exactly the texts that contain the query, whatever wildcards it is written with |
| Keyset.SortedIsOrdered | internal/store/messages.go:145-152 | the order by date and id lists every selected row once |
| Keyset.CursorAcceptedExactly | internal/store/cursor.go:64-92 | a page's cursor is accepted back exactly if the last row's id is positive and the token is not too long |
| Keyset.ForeignCursorRefused | internal/store/cursor.go:83-86 | a cursor of another chat or order is refused |
| Keyset.NeverTwice | internal/store/cursor.go:87-91 | however the table changes between pages, no position is returned twice |
| Keyset.NothingMissed | internal/store/messages.go:128-254 | a row selected throughout is returned, and nothing is returned that was not selected |
| Keyset.StaticWalkEnds | internal/store/cursor.go:64-67 | following the cursors over an unchanged table ends |
| Keyset.PagesConcatenate | internal/store/messages.go:128-254 | for every page size of at least one the pages concatenate to the one sorted and filtered query |
| Keyset.PagesAreDated | internal/store/messages.go:145-152 | the pages list dates, and ids within a date, strictly falling, or strictly rising if asked |
| Keyset.PagesListExactly | internal/store/messages.go:128-254 | they list a message exactly if it is of the chat, not deleted unless wanted, within the bounds, both included, and contains the text searched for |
| Keyset.ContainsExactly | internal/store/messages.go:170-173 | the case-sensitive search finds exactly the texts that contain the query |
| Lexical.AtMostIsLexical | internal/store/messages.go:226-231 | text comparison is lexicographic |
| Unicode.DecodeInvertsEncode | internal/media/download.go:195-204 | decoding inverts encoding (section 3 of RFC 3629) |
| Unicode.ValidPrefixes | internal/media/download.go:195-204 | a prefix of well-formed text is well formed exactly at a character boundary |
| Entities.CollectBoundaries | internal/text/entities.go:51-59 | the boundary map holds exactly the UTF-16 offsets between characters |
| Entities.CheckEntity | internal/text/entities.go:66-101 | one entity is accepted exactly if it is well typed, on boundaries, and compatible with all before it |
| Entities.ValidateEntities | internal/text/entities.go:47-103 | accepts exactly the laminar lists, and otherwise names the first entity that spoils one |
| Entities.LaminarIsABagProperty | internal/text/entities.go:88-100 | the pairwise condition does not depend on positions |
| Entities.PermutationsAccepted | internal/text/entities.go:66-102 | a list is accepted together with all its permutations |
| Entities.ChainAtEveryUnit | internal/text/entities.go:88-100 | entities around one code unit are nested, and code or pre is alone |
| Entities.BoundaryTestsAgree | internal/reader/server.go:385-388 | the reader's surrogate-pair test is the same boundary set (section 2.1 of RFC 2781) |
| Entities.RangesAgree | internal/reader/server.go:389-392 | both checks accept the same ranges |
| Entities.TelegramRoundTrip | internal/text/entities.go:109-174 | validated entities survive the way to Telegram's classes and back |
| FileName.TruncateUtf8 | internal/media/download.go:195-204 | keeps the longest prefix of whole characters |
| FileName.TruncatedIsSafe | internal/media/download.go:166-179 | a shortened name fits, is not empty, and stays trimmed and clean |
| FileName.SanitizedIsSafe | internal/media/download.go:135-164 | for all bytes: not empty, at most 180 bytes, no forbidden or control character, no leading or trailing dot or space, no reserved device stem |
| FileName.SanitizedPlainly | internal/media/download.go:135-164 | the same in plain character codes and device names |
| FileName.ScrubOne | internal/media/download.go:136-136 | well-formed characters come through the scrubbing of invalid bytes unchanged |
| FileName.ScrubRun | internal/media/download.go:136-136 | a run of bytes at which no character begins becomes one underscore |
| FileName.BaseIsLastComponent | internal/media/download.go:137-140 | what is kept is the last component, behind either kind of separator |
| FileName.ReplacedAt | internal/media/download.go:142-150 | exactly the forbidden and control characters become underscores, in place |
| FileName.TrimmedOff | internal/media/download.go:151-151 | trimming takes off only dots and spaces, at the two ends |
| FileName.DevicesExactly | internal/media/download.go:181-193 | reserved is exactly what has the name of a device in front of its extension, in any case of letters |
| FileName.LongNameKeepsExtension | internal/media/download.go:166-179 | a name that is too long keeps an extension of at most 32 bytes |
| FileName.LongNameIsCut | internal/media/download.go:166-179 | and is otherwise just cut |
| FileName.SafeExactlyUnchanged | internal/media/download.go:135-164 | the names it leaves alone are exactly the safe ones |
| FileName.Idempotent | internal/media/download.go:135-164 | sanitising twice is sanitising once |
| FileName.SanitizeDownloadName | internal/media/download.go:136-164 | the loop computes that name |
| Version.AllDecimal | internal/commands/root.go:243-253 | nonempty digits only |
| Version.AllHex | internal/commands/root.go:255-265 | nonempty hexadecimal digits only |
| Version.ValidIdentifiers | internal/commands/root.go:223-241 | every dot-separated identifier satisfies section 9 or 10 of Semantic Versioning 2.0.0 |
| Version.AcceptedExactly | internal/commands/root.go:188-217 | accepted strings are exactly the printed well-formed versions, with one reading each |
| Version.IsSemanticVersion | internal/commands/root.go:188-217 | the imperative check accepts exactly the printed well-formed versions, with an optional leading v |
| Version.ClassesAreAscii | internal/commands/root.go:243-265 | the character classes by their ASCII codes |
| Version.ParseGitDescribe | internal/commands/root.go:157-182 | accepts exactly base-count-gcommit with optional -dirty, and returns its base and commit |
| Version.DescriptionsAreUnique | internal/commands/root.go:157-182 | a description determines its text and the text the description |
| VisualHash.EveryCellCounts | internal/media/visual_hash.go:69-91 | every one of the 72 cells of an accepted image receives a pixel |
| VisualHash.ImageCountsAddUp | internal/media/visual_hash.go:79-91 | the cell counts add up to width times height |
| VisualHash.SumsFit | internal/media/visual_hash.go:85-88 | no intermediate sum overflows 64 bits |
| VisualHash.Accumulate | internal/media/visual_hash.go:76-92 | the loops compute each cell's sum and count |
| VisualHash.PackBits | internal/media/visual_hash.go:93-101 | bit 63 - 8y - x is the comparison of cell (y, x) with its right neighbour |
| VisualHash.HashImage | internal/media/visual_hash.go:69-101 | accepts exactly images of at least 9 x 8 and at most 24 million pixels, and each output bit is its adjacent-cell comparison |
| RateLimit.RefusedOnlyWhenFull | internal/safety/ratelimit.go:47-50 | a refusal means exactly the maximum of grants lie in the window |
| RateLimit.WaitIsLeast | internal/safety/ratelimit.go:47-50 | the reported wait is the least delay after which the request succeeds |
| RateLimit.RunIsSpaced | internal/client/cooldown.go:66-88 | in any run the grant number i + max is at least a window after grant number i |
| RateLimit.SlotsLater | internal/client/cooldown.go:66-88 | time only frees slots |
| RateLimit.RateLimiter.Check | internal/safety/ratelimit.go:34-53 | the in-memory limiter decides as specified |
| RateLimit.WriteWindow.Reserve | internal/client/cooldown.go:66-88 | the table-based limiter decides as the same specification, and reserves exactly if its transaction does not fail and a slot is free |
| RateLimit.MinimumIsLeast | internal/client/cooldown.go:77-80 | the oldest row is the least, in whatever order the rows are |
| RateLimit.KeepExactly | internal/client/cooldown.go:73-75 | the DELETE keeps exactly the rows after the cutoff |

## Left out

- MediaFields.MediaFreeExactly: histories in which several changes share the newest version of the message; every merge of them applies, so the media columns can follow their order among themselves.
- Hard links: the directory gives every file one name at a time, and device and inode numbers are not reused; the reuse checks of the original are therefore identity checks here.
- The Windows emulation of the exchange (`internal/media/download_fs_windows.go`), which is not atomic.
- Creating, statting and securing the download directory, display paths, nil receivers, and closing probe handles exactly once.
- Replay of old envelopes without confirmation metadata, which falls back to the stored chat (`internal/writes/pipeline.go:309-327`).
- `isMutation` and the cooldown table: which requests are mutations, and how long Telegram asked to wait, are inputs of the ledger model.
- Recording an uploaded file or album, which sets `deleted=0` (`internal/store/messages.go:480`), and attaching a downloaded file (`internal/store/download_identity.go:31-33`, `internal/store/messages.go:539-577`), which sets the media flag and the media columns, are not among the cache changes of the model.
- Unlinking cached media files on expiry, and entity access hashes learned from updates.
- Outbox: an update with several events is a sequence of steps here; that only adds interleavings.
- FollowLoop: the checkpoint row has one writer; two syncs of one chat at the same time could set it back.
- Messages without a date, which the store stamps with the current time.
- SHA-256, base64 and JSON: encodings are injective and receipts match exact payloads; decoding faults are a malformed value.
- The URL parser used for text links is a parameter of the entity check; JSON parsing of entity lists is not modelled.
- Version: strings are sequences of characters where the original looks at bytes; every accepted string is ASCII, so the verdicts are the same.
- SQLite pages: database size is any function of the table's content, a failing COMMIT has no effect in the capped insert, and other writers act only before the transaction takes its lock.
- Image decoding and file checks of the visual hash; pixels are any values the image interface can return.
- Real-time guarantees of the limiters: times are integers, the table counts whole seconds, and the clock does not go back.
- Limiters with a maximum of zero, on which the original would index an empty list.
- AtMostOnce, Outbox and PathLock runs are on values, so aliasing between processes is not captured; the objects beside them carry the updates in place.
- Remote cursors, dispatch, output formatting, authentication, admin, export and folder commands.
