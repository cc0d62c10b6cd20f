# git-backup, verified

git-backup mirrors Git repositories from a forge or a URL list, uploads a timestamped
archive of each to S3-compatible storage together with its Git LFS objects and its issues,
merge requests and releases, and later removes what has expired or is no longer there.
This project models the parts of it that must not lose or delete anything, and proves what
they promise.

`dafny verify dfyconfig.toml` checks all of it.

## What is modelled

- **Git LFS** (`pointer_file`, `scan`, `collect`, `scan_loss`, `lfs_batch`, `lfs_fetch`, `lfs_fetcher`,
  `lfs_delivery`, `lfs_theorems`, `lfs_sweep`, `lfs_limits`). The endpoint, the transfers, SHA-256, the
  clock and the cancellation signal are functions of a tick that advances with every
  interaction, so they may answer anything at any time. The class `Fetcher` works step by
  step on its store and is proved equal to specification functions; the theorems are about
  those. The scan walks a repository whose objects may be missing or unreadable.
- **Multipart upload** (`multipart`, `multipart_invariants`, `multipart_theorems`). One
  producer, a bounded queue, any number of workers from two up, pooled buffers whose
  contents are overwritten when they are reused, cancellation and part failures, as
  interleaved actions. Theorems hold in every reachable state.
- **Deletion** (`retention`, `retention_plan`, `retention_overlap`, `retention_run`,
  `retention_delete`, `metadata_pool`, `reconcile`, `mirrors`, `deletes`), resting on the object-key grammar
  (`keys`, `names`, `text`, and `collections` for lists as sets).
- **The bounded parallel loop** (`parallel`), as one state machine for its two versions in
  the program.

## What turned out not to hold

Each of these has a lemma that shows it, most of them together with the exact condition.

- A fetch whose scan could not read everything is meant to fail. A commit that cannot be
  read, or a ref's tip that cannot, is passed over and put in no list, so the scan of a
  partly fetched repository can succeed with objects missing (`LostCommitGoesUnnoticed`).
  An empty skip list can be trusted exactly when every local ref's chain of tags and every
  reached commit is there (`NothingIsLostIff`); otherwise any pointer at all can be among the
  lost ones (`AnythingCanBeLost`).
- The LFS client checks only how many objects a batch reply has. A reply that names one
  object twice and leaves another out passes, and the fetch reports success
  (`RepeatedNamesLoseObjects`, `CountCheckSufficesIff`).
- The multipart producer takes an error that wraps io.EOF, and an unexpected EOF partway
  into a part, for the end of the stream. A body that itself fails so is stored truncated as
  if it were whole (`CanCompleteIff`). Its buffers are bounded by twice the parallelism; the
  comment's parallelism plus one is exceeded (`FourBuffersLive`, `BuffersAreBounded`).
- The parallel loop of `internal/backup/sync.go` starts a worker after a cancelled wait for
  a slot; that worker then waits for ever to give back a slot it never had, and the call
  never returns. The loop of `internal/forge/client.go` cannot (`DeadlockFreeIffRechecks`).
  A run of the former can still return exactly when no wait for a slot saw the cancellation
  (`ReturnsIff`).
- A successful bulk-delete reply may list keys it refused; the list is dropped unread, so
  success means deleted exactly when it is empty (`SuccessDeletesIff`), and a delete of any
  list can succeed with nothing gone (`RefusalsGoUnnoticed`).
- `DeleteObjects` trims white space and slashes from keys, so a folder marker `key/` asks
  for the object `key`. A list is taken literally exactly when its keys are trimmed and
  distinct (`TakenLiterallyIff`). Without a retention minimum such a marker can take a young
  archive of another repository with it (`MarkersTakeLiveArchives`); retention asks for the
  expired archives alone exactly when no orphan trims to another archive
  (`AsksForExpiredArchivesIff`), and always when the minimum is one or more
  (`MinimumAsksForArchivesOnly`). Reconciliation never hits a fetched item that way
  (`FetchedAreSpared`).
- Retention takes an emptied repository's objects by their keys alone. Where one repository's
  prefix lies in a collection of another's, emptying the one takes objects of the other even
  if that keeps archives: exactly then does a plan touch a live repository
  (`TakesFromTheLivingIff`, `NestedRepositoryIsStripped`).
- After a retention delete that failed partway, an emptied repository's other objects are
  found again exactly when one of its archives survived (`FoundAgainIff`); once the last
  one is gone the repository never counts as emptied again (`EmptiedOnlyOnce`).
- An archive timestamp too large for Go's time arithmetic wraps and counts as older than
  any cutoff (`OlderIsRightIff`).
- The comment on `reconcilableSlug` says it is false for the manifest. It answers `index`;
  the manifest is spared by the comparison before it (`BuiltKeysAreStaleIff`).

## Model

| member | source | states |
|---|---|---|
| LfsTheorems.BatchReplyDecides | internal/lfs/batch.go:269-303 | further batch requests follow exactly when a chunk of several pointers was answered with one of the five shape statuses; a reply that is neither that nor an answer for every pointer fails the chunk with nothing fetched and nothing else asked |
| LfsFetcher.Fetcher.DownloadObject | internal/lfs/batch.go:414-481 | an object enters the store exactly when its content streamed, its digest matched its name and the rename succeeded, and nothing else changes; on an error the store is unchanged |
| LfsFetcher.Fetcher.SizeTable | internal/lfs/batch.go:338-343 | the oid-to-size table of a request, a later pointer overriding an earlier one |
| LfsFetcher.Fetcher.DownloadObjects | internal/lfs/batch.go:325-410 | one pass over a reply fills the store and the expired, unavailable and failed lists as specified, stopping at a cancellation |
| LfsFetcher.Fetcher.RefreshExpired | internal/lfs/lfs.go:340-363 | the single refresh of lapsed URLs: the reasons it records and the second pass it makes |
| LfsFetcher.Fetcher.DownloadChunk | internal/lfs/lfs.go:331-377 | the chunk's downloads with their one refresh leave the specified state, outcome and error |
| LfsFetcher.Fetcher.FetchChunk | internal/lfs/lfs.go:239-298 | the recursive halving leaves the specified state, outcome and error, both halves always tried |
| LfsFetcher.Fetcher.FetchBatches | internal/lfs/lfs.go:170-209 | the sweep over chunks of a hundred leaves the specified state, totals and error |
| LfsBatch.PassGrows | internal/lfs/batch.go:366-409 | a pass loses nothing from the store, adds only requested oids whose content has that digest, and holds all it settled |
| LfsBatch.PassAdds | internal/lfs/batch.go:366-409 | whatever a pass newly holds is something the reply answered for and the pass settled |
| LfsBatch.PassCounts | internal/lfs/batch.go:318-324 | the settled, expired, unavailable and failed lists account for every object of the reply unless the pass was cancelled, which leaves an error |
| LfsBatch.PassIsDistinct | internal/lfs/batch.go:359-363 | a reply answering for each oid at most once, up to case, settles or sends back no oid twice |
| LfsDelivery.PassAttemptsAll | internal/lfs/batch.go:318-320 | without a cancellation at any tick of the pass the four lists account for every object of the reply, failed transfers included |
| LfsDelivery.PassStores | internal/lfs/batch.go:366-409 | a requested object that the reply serves under a link fresh at its tick, and whose own transfer succeeds, is held after the pass, whatever became of the others |
| LfsDelivery.PassSendsBack | internal/lfs/batch.go:395-404 | an object served under a link lapsed by then is sent back unless it is held |
| LfsDelivery.PassRefuses | internal/lfs/batch.go:348-374 | the unavailable objects are exactly those the reply does not serve, in its order: an error, no link, no SHA-256 name, or not asked for |
| LfsDelivery.LapsedHasCause | internal/lfs/batch.go:395-404 | an object is sent back only because its link had lapsed, at or after a stated instant or by a negative relative expiry, and with the pointer's own length if it states one |
| LfsDelivery.FailureHasCause | internal/lfs/batch.go:405-407 | a failed transfer was served under a fresh link and did not arrive whole under its name |
| LfsDelivery.HeldIsLeftAlone | internal/lfs/batch.go:378-394 | an object held in the recorded length, or with none recorded, is neither fetched, sent back nor failed |
| LfsDelivery.MisfitIsReplaced | internal/lfs/batch.go:378-407 | one held in another length is fetched anew and the store then has the new content |
| LfsTheorems.DownloadChunkReports | internal/lfs/lfs.go:365-376 | an answered chunk fails exactly over failed transfers, counting them and naming the first; it never reports a refusal, rejects nothing, is not silent, and names a first casualty exactly when it counts one |
| LfsTheorems.DownloadChunkAsks | internal/lfs/lfs.go:328-342 | an answered chunk sends at most one further request, a refresh for some of its own pointers |
| LfsTheorems.PassMisses | internal/lfs/batch.go:338-410 | pigeonhole: a pass over as many objects as were asked for, none answered for twice, misses no more oids than it reports unavailable or sends back |
| LfsTheorems.DownloadChunkMisses | internal/lfs/lfs.go:331-377 | with the refresh included, an answered chunk without failed transfers misses no more oids than it counts unavailable |
| LfsDelivery.RefreshDelivers | internal/lfs/lfs.go:342-363 | when the second request is answered for each lapsed object, under links fresh by then whose transfers succeed, every one is held and none is counted |
| LfsDelivery.LapsedTwice | internal/lfs/lfs.go:354-359 | an object is counted as lapsed only if the second answer gave it a lapsed link too |
| LfsDelivery.NoFreshUrlIff | internal/lfs/lfs.go:343-352 | a lapsed object has no fresh link on record if and only if the second request was not answered |
| LfsDelivery.ChunkStores | internal/lfs/lfs.go:331-377 | what arrived in the first pass is held after the chunk, whatever became of the others and of the refresh |
| LfsDelivery.ChunkDelivers | internal/lfs/lfs.go:331-377 | when every object is served and arrives, at once or after the refresh of its lapsed link, nothing is missing, nothing counted and there is no error |
| LfsTheorems.FetchChunkAsks | internal/lfs/lfs.go:256-280 | every request in a chunk's recursion is non-empty, no wider than the chunk, and for its own pointers; the log only grows |
| LfsTheorems.FetchChunkGrows | internal/lfs/lfs.go:239-298 | whatever a chunk changes in the store is one of its objects with its digest verified |
| LfsTheorems.CasualtiesAreCounted | internal/lfs/lfs.go:211-221 | unavailable and rejected objects together are no more than the chunk's pointers, and a casualty is named exactly when one is counted |
| LfsSweep.FirstReasonStays | internal/lfs/lfs.go:379-386 | the first object passed over stays the one that the error names, whatever the sweep passes over later |
| LfsSweep.MissingIsExplained | internal/lfs/lfs.go:211-213 | an error about missing objects says how many of how many, and always names one |
| LfsTheorems.SilenceMeansAnswered | internal/lfs/lfs.go:306-318 | a chunk without error was answered for some object; a refusing one was answered for none and has nothing unavailable |
| LfsTheorems.RefusalIsExact | internal/lfs/lfs.go:256-318 | a chunk reports a refusal if and only if every request of its recursion tree was rejected |
| LfsTheorems.RefusalCostsNothing | internal/lfs/lfs.go:162-168 | a refused chunk counts every pointer rejected, leaves the store as it was, and cost exactly 2n - 1 requests |
| LfsTheorems.RefusalNamesItsStatus | internal/lfs/lfs.go:250-318 | a refusal carries the status the whole chunk was rejected with, one of the five |
| LfsTheorems.NarrowingIsBounded | internal/lfs/lfs.go:139-145 | narrowing n pointers sends at most 2n - 1 batch requests, at most one refresh per answered one, and 3n - 1 in all |
| LfsTheorems.NothingIsLost | internal/lfs/lfs.go:234-238 | unless a chunk fails outright, the oids it leaves out of the store are no more than it counts unavailable or rejected |
| LfsSweep.SweepAsks | internal/lfs/lfs.go:178-184 | every request of a fetch asks for one to a hundred of the repository's own pointers |
| LfsSweep.SweepIsBounded | internal/lfs/lfs.go:139-145 | a whole fetch sends at most two batch requests a pointer, refreshes at most one per answered request |
| LfsSweep.FetchKeepsStoreSound | internal/lfs/batch.go:458-478 | if every stored file is what its name is the digest of, that is still so after any fetch, and nothing held is lost |
| LfsSweep.SweepAccounts | internal/lfs/lfs.go:170-209 | from any point of the sweep, what goes missing afterwards is at most what it counts afterwards, unless it reports a failure |
| LfsSweep.FetchIsComplete | internal/lfs/lfs.go:170-209 | a nil error means every requested oid is in the store, whatever mix of halving, refresh and caching; a missing-objects error misses no more than it says |
| LfsSweep.FetchIsVerified | internal/lfs/lfs.go:170-209 | after a nil error on a sound store, every requested oid is there with content of that digest |
| LfsSweep.CountCheckSufficesIff | internal/lfs/batch.go:282-284 | over any store, a clean pass leaves every requested object there if and only if the reply answers for each one that was missing; over a store with none of them, if and only if it answers for none twice |
| LfsSweep.RepeatedNamesLoseObjects | internal/lfs/batch.go:282-284 | a concrete endpoint and two pointers: no error is returned and the second object is missing |
| LfsLimits.NarrowingStoresTheRest | internal/lfs/lfs.go:239-318 | against an endpoint that, for batches of a repository's objects, rejects those over a limit or naming a refused one and serves the others: every other object is stored, rejected equals the number of refused ones, and there is an error iff all are refused |
| LfsLimits.LimitedEndpointsExist | internal/lfs/lfs.go:135-145 | for every limit, every set of refused objects and every set of canonical oids there is an endpoint that follows this rule |
| LfsLimits.SweepStoresReached | internal/lfs/lfs.go:170-209 | from any point, such a sweep stores every servable object up to its second all-refused chunk and asks for nothing after it |
| LfsLimits.SweepReports | internal/lfs/lfs.go:170-209 | from any point, such a sweep reports a refusal if and only if one is remembered or an all-refused chunk is still to come, and counts exactly the refused objects it reached |
| LfsLimits.FetchStoresTheRest | internal/lfs/lfs.go:155-209 | the whole fetch stores exactly the servable objects before its stopping point, and all of the repository's with at most one all-refused chunk; it returns nil if and only if nothing is refused, a refusal when a chunk is all refused, and otherwise the number of refused objects as missing |
| PointerFile.ParsePointer | internal/lfs/scan.go:235-277 | the line-by-line reader returns the pointer its content holds, if it is one |
| PointerFile.PointerIsExact | internal/lfs/scan.go:232-277 | content is a given pointer exactly when no line is malformed, a version line is there, and the last oid and size lines are that pointer's |
| PointerFile.LinesAreExact | internal/lfs/scan.go:240-272 | which trimmed line is the version, an oid, a size, blank, or an extension, by its text; every other line is malformed |
| PointerFile.LinesAreTheContent | internal/lfs/scan.go:235-241 | the lines hold no newline and make up the content again |
| PointerFile.ParsedIsCanonical | internal/lfs/scan.go:256-268 | a parsed oid is always 64 lower-case hex digits and the size a non-negative 64-bit number |
| PointerFile.RenderRoundTrip | internal/lfs/scan.go:232-277 | a pointer file as Git LFS writes it (the Git LFS specification, section "The Pointer") reads back as the same pointer |
| PointerFile.RenderIsShort | internal/lfs/scan.go:42-43 | a pointer file has at most 150 characters, whatever its object's size |
| Text.CanonicalIff | internal/lfs/scan.go:257-261 | a stored oid is sixty-four digits and letters from a to f, nothing else |
| Text.ParsesExactlyInt64 | internal/paths/keys.go:175 | decimal numbers that fit 64 bits, negative or with a plus sign, are read back exactly and no others are read |
| Scan.Scanner.VisitBlob | internal/lfs/scan.go:192-225 | a blob is looked at once: it adds its pointer, is skipped if unreadable, or adds nothing, and the account stays exact |
| Scan.Scanner.VisitDir | internal/lfs/scan.go:172-188 | a subtree is pending exactly when it is new and readable, and skipped exactly when it is new and not |
| Scan.Scanner.ScanEntries | internal/lfs/scan.go:167-226 | after a tree's entries everything it names is seen, and every seen tree is expanded, pending or skipped |
| Scan.Scanner.ScanTree | internal/lfs/scan.go:151-230 | the walk ends, cycles or not, with every seen tree expanded or skipped; it fails exactly when the root tree cannot be read |
| Scan.ClosedHoldsReached | internal/lfs/scan.go:75-112 | a set with the peeled tips that is closed under trees, parents, subtrees and files contains everything a ref reaches |
| Scan.ReachedGoesOn | internal/lfs/scan.go:75-112 | and no less is reached: peeled tips of the refs that are neither symbolic nor remote, all parents, whole trees |
| Scan.PeelFollowsTags | internal/lfs/scan.go:119-137 | a tip peels through any chain of annotated tags to the commit at its end, and to nothing when that is another kind of object or cannot be read |
| Scan.ParsedUpTo4096 | internal/lfs/scan.go:204-212 | a readable blob of up to 4096 bytes is parsed, a longer one never is, and only those up to 4096 bytes count as unreadable |
| Collect.QueueTips | internal/lfs/scan.go:69-83 | the queue starts with exactly the peeled tips of the refs that are neither symbolic nor remote |
| Collect.Enqueue | internal/lfs/scan.go:59-67 | every non-zero parent ends up seen or queued, and nothing else is added |
| Collect.FinishedIsClosed | internal/lfs/scan.go:85-112 | with the queue empty, what was seen is closed under every step from a readable object |
| Collect.CollectPointers | internal/lfs/scan.go:50-115 | a finished scan has exactly the pointers of the small, readable blobs that local refs reach through readable commits and trees, each oid once, and exactly the reached unreadable trees and blobs in its skip list; otherwise it was cancelled or a reached commit's tree is unreadable |
| Collect.ScannedPointersAreSound | internal/lfs/scan.go:220-225 | what the scan hands on has distinct, canonical oids and sizes that fit 64 bits |
| Collect.PointerFilesAreReported | internal/lfs/scan.go:192-225 | every pointer file as Git LFS writes it that a ref reaches and that can be read has its oid among a finished scan's pointers |
| Collect.BackupHoldsEveryPointerFile | internal/lfs/lfs.go:118-132 | and after a clean fetch its object is in the store with the content of its digest |
| Collect.BackupHoldsEveryReachedObject | internal/lfs/lfs.go:118-132 | scan and fetch together: every object named by a pointer file that a local ref reaches through readable commits and trees is in the store with the content of its digest |
| ScanLoss.AllReadIff | internal/lfs/scan.go:100-106 | after a finished scan everything reached was read if and only if nothing was skipped and every reached commit was read, which no list records |
| ScanLoss.NothingIsLost | internal/lfs/lfs.go:112-132 | if no local tip and no reached commit is missing, a scan that skipped nothing is exactly the scan of every more complete copy of the repository |
| ScanLoss.AnythingCanBeLost | internal/lfs/scan.go:100-137 | otherwise, whatever small file is given, a pointer or not, some more complete copy of the repository reaches it |
| ScanLoss.NothingIsLostIff | internal/lfs/lfs.go:112-116 | an empty skip list means the scan of every more complete copy if and only if every local ref's chain of tags and every reached commit is there |
| ScanLoss.LostCommitGoesUnnoticed | internal/lfs/scan.go:100-106 | a tag whose commit is missing: the scan succeeds with nothing found and nothing skipped, whatever file lies behind the commit |
| ScanLoss.BackupHoldsTheWholeRepository | internal/lfs/lfs.go:112-132 | with no tip and no reached commit missing and nothing skipped, a clean fetch holds every object a pointer file of the whole repository names |
| MultipartInvariants.StepKeepsInv | internal/store/upload.go:301-413 | every action keeps that parts are consecutive pieces of the stream, each buffer has one owner, and each queued part is in exactly one place until a failure |
| MultipartTheorems.CompletesOnlyTheWholeStream | internal/store/upload.go:340-366 | completion is asked for only with parts 1..k in order that concatenate to the whole stream, all but the last full, and only if the stream ended cleanly, with an error wrapping io.EOF, or with io.ErrUnexpectedEOF inside a part |
| MultipartTheorems.CanCompleteIff | internal/store/upload.go:379-411 | a stream can complete exactly when it ends cleanly, breaks with an error that wraps io.EOF, or breaks with io.ErrUnexpectedEOF and is not a whole number of parts |
| MultipartTheorems.OtherErrorsNeverComplete | internal/store/upload.go:381-410 | a body that breaks with any other error is never so much as being completed |
| MultipartTheorems.FailuresAbort | internal/store/upload.go:344-354 | in every run, from the first failed part or producer error on, no later state is completing or completed, and a finished one is aborted |
| MultipartTheorems.GivingUpHasACause | internal/store/upload.go:379-411 | the producer ends with an error only over a cancellation, a broken stream or a failed part |
| MultipartTheorems.CompletedIffAccepted | internal/store/upload.go:356-369 | in every run the upload counts as stored exactly when the server accepted its completion |
| MultipartTheorems.FailedWorkersStop | internal/store/upload.go:326-331 | in every run a worker takes and uploads nothing after a part of its own has failed |
| MultipartTheorems.CancelledCanStop | internal/store/upload.go:397-406 | a cancelled producer that waits for room can give up without it, and is then bound to abort |
| MultipartTheorems.DoneClosesOnce | internal/store/upload.go:269-276 | done is closed at most once, and exactly when a part failed |
| MultipartTheorems.BuffersAreBounded | internal/store/upload.go:297-300 | no buffer has two owners, and at most twice the parallelism are in use |
| MultipartTheorems.FourBuffersLive | internal/store/upload.go:297-300 | with two workers four buffers can be in use at once |
| MultipartTheorems.NeverStuck | internal/store/upload.go:301-413 | until the upload is over some action of its own is possible, whatever failed or was cancelled |
| MultipartTheorems.RunsEnd | internal/store/upload.go:301-413 | no interleaving has more own actions than the initial rank, so every run ends |
| MultipartTheorems.StepLowersRank | internal/store/upload.go:301-413 | every own action lowers the rank and the environment's leave it |
| ParallelLoop.StepKeepsInv | internal/forge/client.go:349-404 | every step keeps one worker per item, the outcome bookkeeping, and tokens covering the active workers |
| ParallelLoop.InFlightIsBounded | internal/forge/client.go:330-394 | at most the configured number of callbacks are in flight, and a finished worker can always give its slot back |
| ParallelLoop.EachItemStartsOnce | internal/forge/client.go:366-394 | items are started in order and none twice, in either version |
| ParallelLoop.NilMeansAllSucceeded | internal/forge/client.go:395-403 | a nil result means every item ran and succeeded |
| ParallelLoop.ErrorHasACause | internal/forge/client.go:353-358 | an error means a cancellation or a failed callback |
| ParallelLoop.CancelledRunFails | internal/backup/sync.go:499-500 | a run cancelled before the call returns never returns nil, even if every item succeeded |
| ParallelLoop.FailureStopsLaunching | internal/forge/client.go:371-384 | in every run of either version, from the moment a failure is set nothing more is launched, except a worker the launcher is already committed to |
| ParallelLoop.NeverStuck | internal/forge/client.go:366-395 | with the recheck some step is always possible until the call returns |
| ParallelLoop.RunsEnd | internal/forge/client.go:366-404 | every run has at most seven own steps an item and five more |
| ParallelLoop.WithoutRecheckCanStick | internal/backup/sync.go:534-547 | without the recheck a cancelled wait leads to a reachable state from which only a cancellation can happen |
| ParallelLoop.DeadlockFreeIffRechecks | internal/backup/sync.go:525-549 | on the parallel path the loop is free of deadlock if and only if it rechecks for failure before launching |
| ParallelLoop.ReturnsIff | internal/backup/sync.go:534-549 | a run can still return if and only if the loop rechecks or its launcher never saw the cancellation while waiting for a slot |
| ParallelLoop.ForEachSequential | internal/forge/client.go:337-347 | the sequential path starts a prefix of the items, stops at the first cancellation or failure, and is ok exactly when all ran and succeeded |
| Deletes.Execute | internal/store/storage.go:198-237 | at most five genuine attempts, each after the cancellation gate, repeated exactly after 429, 500, 502, 503, 504 or a broken connection while attempts are left; the result says how the last one ended, and a cancelled caller sends nothing |
| Deletes.DeleteObjectsIndividually | internal/store/ops.go:105-125 | on nil the acknowledged keys are the batch in order, otherwise a proper prefix of it, and the last reply failed or the caller was cancelled |
| Deletes.DeleteObjects | internal/store/ops.go:45-103 | on nil the acknowledged keys are exactly the normalized ones in order, otherwise a proper prefix, and the last reply failed or the caller was cancelled; bulk requests hold 1 to 1000 keys, and after a schema rejection only single deletes follow |
| Deletes.RejectedIsRedoneSingly | internal/store/ops.go:94-99 | after a successful call in which a bulk request was rejected for its shape, all that was not acknowledged before it was acknowledged after it by single deletes |
| Deletes.Normalize | internal/store/ops.go:46-58 | the dedupe loop computes the normalized keys |
| Deletes.NormalizedIsExact | internal/store/ops.go:46-58 | every distinct non-empty trimmed key is there once, and nothing else |
| Deletes.NormalizedKeepsOrder | internal/store/ops.go:46-58 | keys keep the order of their first occurrences |
| Deletes.TrimKeyIs | internal/store/ops.go:49 | a key loses surrounding white space and then the slashes at its ends, and nothing else |
| Deletes.TakenLiterallyIff | internal/store/ops.go:46-58 | what is asked for is the list as given if and only if its keys are distinct, not empty and already trimmed |
| Deletes.SuccessDeletesIff | internal/store/ops.go:80-89 | the acknowledged keys are really gone if and only if no successful reply refused one of its keys |
| Deletes.AckedIsGoneIff | internal/store/ops.go:80-89 | one acknowledged key is really gone if and only if no successful reply refused it, whatever happened to the others |
| Deletes.RefusalsGoUnnoticed | internal/store/ops.go:80-89 | for every list there is a provider whose replies make the delete return nil, acknowledge every key and remove none |
| Keys.SuffixIsInLeaf | internal/paths/keys.go:173-174 | the archive suffix of a key lies within its leaf, so cutting it off is in bounds |
| Keys.ArchiveRoundTrip | internal/paths/keys.go:66-69 | the timestamp and the repository prefix are read back from a built archive key |
| Keys.ArchiveIsExact | internal/paths/keys.go:168-180 | archives are exactly the keys whose last segment is a positive 64-bit number followed by the suffix |
| Keys.ArchiveKeysAreUnique | internal/paths/keys.go:66-69 | equal archive keys have equal timestamps and trimmed prefixes |
| Keys.JsonIsNotArchive | internal/paths/keys.go:168-171 | no key ending in .json decodes as an archive |
| Keys.BuiltJsonIsNotArchive | internal/paths/keys.go:149-159 | documents, manifests and repository metadata never decode as archives |
| Keys.AttachmentIsNotArchive | internal/paths/keys.go:161-163 | an attachment leaf of eight hex characters, a dash and any name never decodes as an archive |
| Names.StrictPassSucceeds | internal/forge/attachments.go:246-251 | the strict decoder never fails on the rewritten text and gives the one-pass decoding |
| Names.DecodeLenient | internal/forge/attachments.go:229-253 | the two passes equal one pass that resolves each valid escape and keeps every other percent sign (section 2.1 of RFC 3986) |
| Names.LenientExtendsStrict | internal/forge/attachments.go:219-228 | where the strict decoder succeeds the lenient one agrees with it |
| Names.DecodesTheEncoded | internal/forge/attachments.go:229-253 | percent-encoded bytes decode to themselves, in upper-case and lower-case hex digits |
| Names.NothingToDecode | internal/forge/attachments.go:229-253 | text without a valid escape is kept, stray percent signs and all |
| Names.NormalizedIsSegment | internal/paths/urls.go:19-36 | any value becomes a non-empty segment of safe characters without a dash or dot at either end |
| Names.NormalizedKeeps | internal/paths/urls.go:25-36 | the fallback stands in exactly for a value without a letter, digit or underscore; otherwise these are all kept, in order |
| Names.RunBecomesDash | internal/paths/urls.go:14-16 | each run of unsafe characters becomes one dash |
| Names.SegmentIsUnchanged | internal/paths/urls.go:25-36 | a value that is a safe segment already is left as it is |
| Names.NormalizeIsIdempotent | internal/paths/urls.go:25-36 | normalizing twice changes nothing |
| Names.SanitizedIsSegment | internal/forge/attachments.go:270-287 | a sanitized file name is such a segment |
| Names.SanitizeKeepsName | internal/forge/attachments.go:274-287 | a safe name is kept, and of a path its last component, whichever slash it is written with |
| Retention.OlderIsRightIff | internal/backup/retention.go:153-155 | the age comparison is right exactly up to the last timestamp that does not wrap |
| Retention.IsReclaimableOrphan | internal/backup/retention.go:207-223 | the ancestor walk answers exactly the quantified rule: a direct child of an emptied repository, or inside its issues, merge requests or releases |
| Retention.ReclaimableByCut | internal/backup/retention.go:171-180 | the quantified rule is the same as some cut of the key at a slash being a collection prefix |
| Retention.EmptyingTakes | internal/backup/retention.go:165-180 | emptying takes direct children and everything under issues, merge-requests and releases, by those names |
| Retention.BuiltObjectsAreReclaimed | internal/backup/retention.go:163-180 | so the metadata, documents, manifests and attachments that the builders stored for a repository all go with its last archive |
| Retention.SnippetsSurvive | internal/backup/retention.go:165-168 | keys under a repository's nested snippets do not notice that repository's own emptying |
| RetentionPlan.DeletedLeavesTheMinimum | internal/backup/retention.go:146-160 | every deleted archive is older than the cutoff and leaves at least the minimum of its repository behind, none of them older than it |
| RetentionPlan.KeptIsProtected | internal/backup/retention.go:151-160 | an expired archive is kept only when fewer than the minimum of its repository are strictly newer |
| RetentionPlan.DistinctStampsAreExact | internal/backup/retention.go:146-160 | without equal timestamps an archive is deleted if and only if it is older and at least the minimum are newer |
| RetentionPlan.MinimumSparesTheRest | internal/backup/retention.go:160-187 | with a minimum of one or more nothing but archives is deleted |
| RetentionPlan.SecondRunIsEmpty | internal/backup/retention.go:189-194 | once a plan's archives are gone, whatever else went with them, the same cutoff plans nothing more, however ties fall |
| RetentionPlan.EmptiedOnlyOnce | internal/backup/retention.go:160-187 | once a plan's archives are gone, whatever else went with them, no later cutoff and minimum see one of its emptied repositories emptied again |
| RetentionPlan.FoundAgainIff | internal/backup/retention.go:189-194 | after any delete an emptied repository is seen as emptied again exactly when one of its archives is left |
| RetentionOverlap.SharedIff | internal/backup/retention.go:171-180 | two repositories' rules share exactly the keys of the inner one when one prefix lies in a collection of the other, and none otherwise |
| RetentionOverlap.TakesFromTheLivingIff | internal/backup/retention.go:182-187 | a plan takes an object of a repository that keeps an archive if and only if an emptied and a kept repository nest so, with an object of the inner one listed |
| RetentionOverlap.NestedRepositoryIsStripped | internal/backup/retention.go:207-223 | a kept repository inside a collection of an emptied one keeps its young archives and loses every other object listed under it |
| RetentionOverlap.MetadataIsWithin | internal/backup/retention.go:163-180 | the repository metadata of a repository named after a collection of another is such an object |
| RetentionRun.Classify | internal/backup/retention.go:121-138 | every archive is filed once under its repository and every other key set aside once |
| RetentionRun.Prune | internal/backup/retention.go:144-163 | one repository loses exactly its unprotected archives older than the cutoff |
| RetentionRun.PruneAll | internal/backup/retention.go:141-163 | all repositories are pruned so, and a repository counts as emptied exactly when all its archives expired |
| RetentionRun.CollectOrphans | internal/backup/retention.go:182-187 | exactly the keys set aside that the quantified rule takes, each once |
| RetentionRun.Decide | internal/backup/retention.go:93-187 | nothing is decided unless both listings succeeded; the decision is a valid plan, each key once |
| RetentionDelete.Apply | internal/backup/retention.go:93-197 | list, decide, delete: counts are reported only when every planned key was acknowledged |
| RetentionDelete.RunsAreStable | internal/backup/retention.go:189-194 | after a successful delete that hid no refusal of a planned archive, a second run with the same cutoff deletes nothing, whatever the planned orphans were and became |
| RetentionDelete.AsksForExpiredArchivesIff | internal/store/ops.go:49-52 | the archives the provider is asked to delete are exactly the planned ones if and only if no planned orphan trims to another archive |
| RetentionDelete.MinimumAsksForArchivesOnly | internal/backup/retention.go:160-187 | with a minimum of one or more the provider is asked for the planned archives and nothing else |
| RetentionDelete.MarkersTakeLiveArchives | internal/store/ops.go:49-52 | without a minimum, emptying a repository asks for a younger archive of another repository when a folder marker named after that archive lies in its issues |
| RetentionDelete.ArchivesGoFirst | internal/backup/retention.go:189-194 | whatever the orphans are, nothing but planned archives is acknowledged before all planned archives are |
| RetentionDelete.ArchivesArePlain | internal/store/ops.go:49-52 | every listed archive key is deleted as it stands |
| RetentionDelete.MarkersHitTheirObject | internal/store/ops.go:49-52 | a folder marker trims to the object of the same name without the slash |
| MetadataPool.StepKeepsInv | internal/backup/metadata.go:209-250 | every step keeps each listed item in flight or recorded, unless an item failed or the run was cancelled |
| MetadataPool.DeletesOnlyAfterACompletePass | internal/backup/metadata.go:252-289 | reconciliation is reached only when the listing ended without error and every listed item was uploaded and its slug recorded |
| MetadataPool.SafeIffGated | internal/store/storage.go:200-203 | that guarantee holds if and only if the manifest upload looks at the cancellation first |
| MetadataPool.CleanPassReconciles | internal/backup/metadata.go:209-289 | a pass over any set of items that nothing disturbs does reach the reconciliation |
| MetadataPool.SucceedsIff | internal/backup/metadata.go:252-288 | in every run a pass succeeds exactly when its manifest was stored, only after a listing without error, failed items or not; it stops short of reconciling only over a failed item |
| MetadataPool.BacklogIsBounded | internal/backup/metadata.go:210-218 | at most one item more than the channel and the workers hold is between the listing and its record |
| MetadataPool.NeverStuck | internal/backup/metadata.go:215-250 | cancelled or not, some step is possible until the pool returns or reconciles |
| Reconcile.SlugIsExact | internal/backup/metadata.go:438-462 | a key belongs to a slug exactly when it is that item's document, attachment folder, or inside that folder |
| Reconcile.StaleKeys | internal/backup/metadata.go:416-428 | exactly the listed keys that are an unfetched item's document or attachments, and not the manifest, are chosen |
| Reconcile.Reconcile | internal/backup/metadata.go:404-436 | the stale keys of a successful listing, and nothing after a failed one, are handed to one batched delete, which acknowledges a prefix of them, and all of them if and only if it had no error |
| Reconcile.FetchedAreSpared | internal/store/ops.go:49-52 | whatever trimming does to stale keys, the delete asks for no fetched item's document or attachment and not for the manifest |
| Reconcile.BuiltKeysAreStaleIff | internal/paths/keys.go:149-163 | the document and attachment builders are inverted: their keys are stale exactly when the item was not fetched, and the manifest never is |
| Reconcile.CollectionListing | internal/paths/keys.go:193-202 | a collection's listing prefix is the collection and one slash |
| Reconcile.CollectionsAreRooted | internal/paths/keys.go:149-151 | every collection under a repository prefix begins with neither a slash nor white space |
| Reconcile.ReconcileMirrorsTheListing | internal/backup/metadata.go:401-436 | in any interleaving that reconciles, the delete asks for no listed item's document or attachment and not for the manifest, and asks for every other item's document and stored attachments that the listing shows |
| Reconcile.SuccessfulReconcileMirrors | internal/backup/metadata.go:401-436 | whatever the delete got done, no listed item's document or attachment and not the manifest is gone; if it had no error, every other item's listed document and stored attachments are gone exactly as far as no reply refused them |
| Reconcile.StoredAttachmentIsNotArchive | internal/forge/attachments.go:301-306 | a stored attachment never decodes as an archive, whatever its upload was called |
| Reconcile.ReleaseSlugIsASlug | internal/backup/metadata.go:464-473 | release slugs are non-empty, slash-free and not the manifest's base name |
| Names.ReleaseSlugIsUsable | internal/backup/metadata.go:467-473 | a release's slug is its sanitized tag, with the hash after it only when that would be the manifest's |
| Reconcile.NumberSlugIsUsable | internal/backup/metadata.go:110-135 | issue and merge request slugs are non-empty, slash-free and not the manifest's base name |
| Mirrors.LoopMeetsPromise | internal/backup/sync.go:517-554 | however its steps interleave, the parallel loop ends as the jobs rely on: at most its items started, in order, and all of them on nil |
| Mirrors.LoopSequentially | internal/backup/sync.go:505-514 | and so does the sequential path, which returns nil exactly when every item was started and succeeded |
| Mirrors.CollapseUrls | internal/backup/sync.go:344-356 | duplicate URLs up to case and space collapse to their first occurrence |
| Mirrors.UsableUrlsAreExact | internal/backup/sync.go:339-356 | every URL that is not blank is kept once up to case and space, and nothing else is |
| Mirrors.UsableAreFirst | internal/backup/sync.go:339-356 | and the URL kept is the one that occurs first |
| Mirrors.RunProviderMode | internal/backup/sync.go:158-254 | a provider job is complete exactly when it is configured, its token resolves, discovery succeeded, its loop returned no error and nothing was cancelled; then exactly the directories of its discovered prefixes with a clone URL were added |
| Mirrors.RunUrlMode | internal/backup/sync.go:326-410 | a URL job is complete exactly when it has a URL that is not blank and its credential, and its loop returned no error; then exactly the directories of its first-occurring URLs' prefixes were added |
| Mirrors.Run | internal/backup/sync.go:72-156 | cleanup runs exactly when every enabled job is complete; removed are then exactly the deletable directories on disk that belong to no prefix an enabled job lists |
| Mirrors.RemoveOrphans | internal/backup/mirror.go:45-68 | exactly the directories that are not expected and can be deleted are removed |
| Mirrors.RemovedIffUnlisted | internal/backup/sync.go:215-271 | after a cleanup the mirror of a prefix was removed exactly when it could be deleted and no enabled job has it, in its discovery with a clone URL or as the prefix of a configured URL at its first occurrence |

## Left out

- HTTP, the S3 SDK, go-git, gzip and tar, the file system: their answers are arbitrary values of the model's types.
- SHA-256 and SHA-1: uninterpreted; injective only where mirror directories are told apart by name.
- Wall-clock waits, backoff delays, jitter and Retry-After: a retry only knows whether the wait was cancelled.
- Unicode: strings are sequences of characters with ASCII case folding and white space.
- FetchAll, endpoint discovery, the probe request and `.lfsconfig`: they choose an endpoint before the fetch that is modelled.
- Starting a multipart upload: its failure returns before any state exists. The upload, the parallel loops and the metadata pool are state machines on values rather than running goroutines; memory races, such as the unlocked read of the first error in `internal/backup/sync.go`, are taken as single steps.
- Names and error texts in the scan's skip list, in failures and in logs; only which object and which kind of failure.
- Chains of annotated tags are taken to be finite, as content-addressed names make them.
- The 4096-byte line limit of the pointer scanner: content that short can only exceed it as one single line, which is no pointer either way.
- RetentionRun.Decide: assumes a listing names each key once and only keys under its prefix, as the storage API promises; the two listings are made one after the other.
- RetentionRun.Prune: sorts by insertion; its contract and everything built on it leaves the order of equal timestamps open.
- LfsSweep.FetchIsComplete: assumes that replies answer for each object at most once, as the Git LFS batch API asks; without that it is false, see above.
- Mirrors.Run: provider discovery, URL parsing and where a parallel loop stops are oracles; what the runs rely on of the loop is proved of it (`LoopMeetsPromise`).
- ParallelLoop.NeverStuck: a callback is taken to return eventually.
- Reconcile.CollectionListing: for a repository prefix with something besides slashes in it, as every prefix builder produces.
- Scheduler, configuration loading, live reload, health endpoint, forge JSON mapping, URL redaction and host checks: plumbing or single-branch checks.
- `TrimGitSuffix`, `ResolveContentType`, the prefix builders for providers and URLs, and download throttling: they would only add easy members.
