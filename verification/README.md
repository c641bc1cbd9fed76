# Verification model of the photo organizer

The photo organizer scans a folder of photos, derives facts about each file through a lease-based job
queue in PostgreSQL, and groups the library into exact duplicates, near-duplicates and events. This
project models its stateful and algorithmic core in Dafny 4.11 and proves what the code is for.
`dafny verify dfyconfig.toml` checks everything.

The modules follow the program:

- **The queue.** `Jobs` (keys, retry schedule), `JobQueue` (every SQL statement as one atomic step on a job
  table and a worker table), `JobStore` (the store's methods as an object that updates its tables),
  `QueueHistory` (whole runs of statements: ownership, attempts, draining), `QueueTiming` (runs with a
  clock), `Runtime` (one worker process as the queue's concurrent client), `QueueExamples` (short runs at
  the edges), `Paging` (the fan-out), `Gate` (aggregate stages waiting for their prerequisites), `Stages`
  (what the photo stages write and the rebuilds read), `StageExamples` (a rebuild that runs too early).
- **Near-duplicates.** `Hamming` and `DHash` (the hash and its distance), `Chains` (joined through
  intermediates), `UnionFind` (the forest over two arrays), `Sorting`, `Ranking` (the keeper comparator),
  `Similar` (the grouping), `Determinism` (it has one answer), `GroupWidth` (how wide a group can be),
  `Copies` (copies of one file, keepers, byte totals), `SimilarRebuild` (from the library to its groups),
  `Reclaim` (the two duplicate pipelines together), `ReclaimExamples` (libraries on which they clash).
- **Events.** `Clustering` (the pass and its declarative split), `Segmentation` (the whole of `Segment`).
- **Listings.** `Like` (escaping and LIKE patterns), `Filter` (filter to clauses), `Listing` (count, order,
  page).
- **Images and files.** `Pass` (the batch drainer), `Orient` (EXIF orientation and thumbnail sizing),
  `Quality` (smoothing, variance, scores), `Tiff` and `Exif` (the hand-written EXIF segment).

## Where the code and its description differ

Each of these is stated exactly, with the input that shows it or with the condition under which the code
meets the description.

- `attempt_count <= max_attempts` does not hold: a shutdown's release re-queues a job without looking at
  its attempts (`QueueExamples.AttemptsMayExceedLimit`). The bound that holds adds the number of releases
  (`QueueHistory.AttemptAccounting`), and a claim goes beyond the limit exactly when the job was sent back
  with nothing left (`QueueHistory.ClaimExceedsLimitIff`). For the same reason a waiting job may have no
  attempts left, so the draining measure charges a waiting job for at least one more execution.
- Ownership is checked by worker id and not by attempt, so a report may end a later claim of the same worker
  (`QueueExamples.StaleReportMayLand`); `QueueHistory.StaleReportLandsIff` says exactly when.
- The aggregate barrier lets through exactly the work enqueued between a prerequisite's count and the rebuild
  and not ended since (`Gate.LateWorkIff`). A fan-out landing in that window is missed and never looked at
  again (`Gate.FanOutDuringRebuildIsMissed`); one after which nobody is running the aggregate is not missed
  (`Gate.FanOutIsFinishedAtRebuild`).
- The similar-groups handler waits for hashes and quality scores, "so the result would depend on job timing"
  otherwise (internal/worker/handlers.go:245-250). Its rebuild also ranks by width and height, which
  EXTRACT_METADATA writes and the handler does not wait for (`Stages.PrerequisitesAreWhatMatters`). It sees
  final input exactly when no such job is outstanding either (`Stages.SimilarHasFinalInputIff`); otherwise
  it may recommend the smaller of two pictures (`StageExamples.SimilarRebuildMayRunEarly`,
  `StageExamples.EarlyRebuildKeepsSmaller`). The two other aggregates wait for all that matters to them
  (`Stages.RebuildHasFinalInput`).
- The comment at internal/duplicates/similar.go:199 calls the ranking a total order. It is one, for every
  group with given scores, exactly when "quality does not decide" carries over on those scores
  (`Ranking.RankingIsOrderIff`); otherwise three photos prefer one another in a circle
  (`Ranking.PreferenceCycle`).
- The two review screens recommend the same copy of a file exactly when the copy the exact pipeline keeps
  has a perceptual hash (`Copies.RepresentativeIsKeeperIff`). When it has none both may suggest dropping the
  same photo (`ReclaimExamples.OnePhotoDroppedTwice`, `Reclaim.DropsApartIff`).
- The two reclaimable totals may exceed the library when copies of a file disagree on size
  (`ReclaimExamples.TotalsMayExceedLibrary`). Two conditions a caller can check rule that out: copies agree on
  size (`Reclaim.AgreeingTotalsFitLibrary`), or at least no dropped stand-in is larger than the smallest copy
  of its file (`Reclaim.TotalsFitLibrary`). `Reclaim.TotalsBalance` is the account behind both.
- A worker holds a lease on work it is not running exactly after an outcome that did not reach the store, or
  a committed claim whose answer was lost (`Runtime.IdleLeaseAppearsIff`, `QueueExamples.LeaseMayIdle`).
- An undisturbed `runPass` stops only when every item has been marked, stops within three steps once every
  item has, and takes a bounded number of steps for each retry (`Pass.StopsWhenAllMarked`,
  `Pass.PassIsFinite`). One item that never gets its completion marker keeps it going for ever
  (`Pass.StuckItemNeverEnds`, `Pass.RefetchedForever`).
- The seconds field of `dms` can read 60.0000 instead of carrying into the minutes
  (`Exif.SecondsMayReadSixty`, `Exif.SecondsReadSixtyIff`).

## Reading the model

Times are whole nanoseconds since an arbitrary origin. A statement of the store is one atomic step; rows
locked by other transactions are a set the claim and the reaper skip. Reports are matched by worker id, as
the SQL does, and not by attempt. Floating point is modelled by the reals; `math.Sqrt` and `Haversine` are
functions passed in, the first with its defining equation, the second with no assumption at all. The
database's text ordering and the case folding of ILIKE are parameters. Go's `sort.Slice` is modelled by what it
promises, and a map iteration by an arbitrary choice.

## Model

| member | source | states |
|---|---|---|
| Jobs.DedupeKeyInjective | internal/jobs/jobs.go:190-192 | two requests have one dedupe key exactly when they name the same type and target |
| Jobs.Backoff | internal/jobs/jobs.go:121-149 | for every attempt number and every draw the wait lies between 1.5 seconds and 5 minutes |
| Jobs.BackoffGrows | internal/jobs/jobs.go:121-149 | for one draw a later attempt never waits less than an earlier one |
| Jobs.BackoffDoubles | internal/jobs/jobs.go:121-149 | before jitter the wait is two seconds, then twice the one before, up to five minutes |
| Jobs.JitterIsAQuarter | internal/jobs/jobs.go:137-148 | jitter moves the wait by at most a quarter, down for the lower half of the draws and up for the upper |
| JobQueue.StepKeepsConsistent | internal/store/jobs.go:38-345 | every statement, worker purges included, keeps: running exactly when owned and leased, owner row exists, finished exactly when dated, one live row per key |
| JobQueue.PurgeOrphansNothing | internal/store/workers.go:137-153 | the purge's guard means the foreign key never nulls the owner of a running job |
| JobQueue.ClaimChoiceUnique | internal/store/jobs.go:106-143 | limit, order and skipped locks leave exactly one set of rows a claim can take |
| JobQueue.RowChange | internal/store/jobs.go:38-345 | a statement changes an existing row only if its WHERE matches, and then to exactly what its SET says |
| JobQueue.NewRowFresh | internal/store/jobs.go:38-81 | a row that appears was asked for by the batch and starts pending, unowned, with no attempts |
| JobStore.Store.EnqueueJobs | internal/store/jobs.go:38-81 | old rows stay as they are, each new row has its request's fields and the column defaults, afterwards every request of the batch has a live job for its type and target, and the count returned is the number of rows added |
| JobStore.Store.SelectRunnable | internal/store/jobs.go:106-143 | only pending, due, unlocked rows are picked, at most the limit; while one is left behind the limit is reached, and every picked row has a smaller priority number, or the same and a smaller id |
| JobStore.Store.ClaimJobs | internal/store/jobs.go:106-143 | the claim takes rows in that order, sets their owner, expiry, attempt and start columns and no others, and returns them as rewritten; it fails exactly when it would lease to a worker with no row |
| JobStore.Store.CompleteJob | internal/store/jobs.go:182-197 | for the running job's owner and nobody else: succeeded, unleased, dated and without error, all other rows untouched |
| JobStore.Store.FailJob | internal/store/jobs.go:206-239 | for the owner and nobody else: dead when permanent or out of attempts, else pending after the backoff; the lease is cleared, the error kept, all other rows untouched |
| JobStore.Store.DeferJob | internal/store/jobs.go:474-490 | for the owner and nobody else: pending after the delay with one attempt less, never below zero, all other rows untouched |
| JobStore.Store.RenewLeases | internal/store/jobs.go:246-257 | exactly the worker's running jobs expire one lease from now, counted, and nothing else changes |
| JobStore.Store.ReleaseWorkerLeases | internal/store/jobs.go:267-281 | exactly the worker's running jobs become pending, unowned and due, counted, with attempts spent, and nothing else changes |
| JobStore.Store.ReapExpiredLeases | internal/store/jobs.go:293-345 | exactly the running, unlocked rows past their expiry are taken back: pending after the backoff while attempts remain, else dead, with the lapse as error; both outcomes are counted |
| JobStore.Store.CountOutstandingJobsOfType | internal/store/jobs.go:497-509 | counts the live jobs of a type; zero exactly when all of them are finished |
| JobStore.Store.RegisterWorker | internal/store/workers.go:29-47 | the worker is active, seen now and not stopped, whatever its row said before |
| JobStore.Store.RecordHeartbeat | internal/store/workers.go:53-66 | an active worker is seen now; one already declared dead or stopped is left alone and told so |
| JobStore.Store.UnregisterWorker | internal/store/workers.go:72-84 | the worker's row is stopped and dated, and no other row changes |
| JobStore.Store.ReapDeadWorkers | internal/store/workers.go:90-102 | exactly the active workers silent for longer than the threshold are dead and dated, and counted; every job is left alone |
| JobStore.Store.PurgeOldWorkers | internal/store/workers.go:137-153 | deletes exactly the workers stopped or dead for longer than asked that own no running job, and counts them |
| QueueHistory.RunConsistent | internal/store/jobs.go:38-345 | every state of every run of statements is consistent |
| QueueHistory.FinishedForever | internal/store/jobs.go:182-345 | once succeeded or dead, a row is never written again |
| QueueHistory.RowPersists | internal/store/jobs.go:38-345 | rows never disappear and never change their type, target, library, key, limit or priority |
| QueueHistory.OwnerIsOpenClaim | internal/store/jobs.go:106-345 | in every run the row names an owner exactly when a claim is still open on the job, and names that claim's worker |
| QueueHistory.ReportLandsIff | internal/store/jobs.go:182-239 | a complete, fail or defer takes effect exactly when its worker made the job's latest claim and nothing has ended that claim since |
| QueueHistory.StaleReportLandsIff | internal/store/jobs.go:182-239 | the report of an execution that lost its claim lands exactly when the same worker has claimed the job again since and still holds it |
| QueueExamples.StaleReportMayLand | internal/store/jobs.go:182-197 | a run, on the usual lease and schedule, in which a lease lapses, the same worker claims the job again, and the first execution's report ends the second claim |
| QueueHistory.OwnershipNeverOverlaps | internal/store/jobs.go:106-345 | between two claims of one job some statement ended the first: no job is owned twice at once |
| QueueHistory.AttemptAccounting | internal/store/jobs.go:106-490 | attempts are claims minus applied deferrals, at most the limit plus the releases, and at least one while running |
| QueueHistory.DeferralReturnsOneAttempt | internal/store/jobs.go:474-490 | the clamp at zero never fires: a deferral gives back exactly one attempt |
| QueueHistory.WaitingSpentIff | internal/store/jobs.go:267-281 | a waiting job has no attempts left exactly when its last ending was a release on the last attempt or a deferral beyond it |
| QueueHistory.ClaimExceedsLimitIff | internal/store/jobs.go:106-143 | a claim exceeds the limit exactly when the job was sent back with nothing left |
| QueueExamples.AttemptsMayExceedLimit | internal/store/jobs.go:267-281 | a run in which a job that may be tried once is claimed a second time, by another worker, after a shutdown released it |
| QueueHistory.OwedFalls | internal/store/jobs.go:106-345 | what the queue owes never rises under statements that neither add work nor return attempts, and falls at every claim, completion, failure and reap |
| QueueHistory.Drains | internal/store/jobs.go:106-345 | in any stretch of such statements the queue moves at most as often as it owed at the start |
| QueueHistory.OwesNothingIff | internal/jobs/jobs.go:60-67 | nothing is owed exactly when every job is succeeded or dead |
| QueueTiming.LeaseRunsFromLastExtension | internal/store/jobs.go:106-257 | with one lease length, a running row expires exactly one lease after its owner last claimed or renewed it |
| QueueTiming.ReapedOnlyAfterFullLease | internal/store/jobs.go:293-345 | a job is reaped only when more than a full lease has passed since that moment |
| QueueTiming.ReapIsExact | internal/store/jobs.go:293-345 | a reap leaves no expired unlocked lease behind and takes none still in force |
| QueueTiming.RestsForDelay | internal/store/jobs.go:106-345 | a job sent back with a delay is not claimed before the delay has passed |
| QueueTiming.RestsAfterFailureOrReap | internal/store/jobs.go:206-345 | after a failure or a reap no worker claims the job for at least a second and a half |
| Runtime.NeverOverCommitted | internal/worker/worker.go:206-264 | under every interleaving of claims and finishing jobs, claimed plus running never exceeds the concurrency |
| Runtime.ClaimFitsSlots | internal/worker/worker.go:218-245 | a claim is made only with slots free, takes at most as many jobs, and even when its answer is lost the slots are counted again before the next |
| Runtime.IdleLeaseAppearsIff | internal/worker/worker.go:267-377 | a step leaves the worker a lease on work it is not running exactly when an outcome does not reach the store or a committed claim is lost |
| QueueExamples.LeaseMayIdle | internal/worker/worker.go:328-332 | an execution of one worker that ends so: the goroutine is gone and the lease is not |
| Runtime.NoIdleLease | internal/worker/worker.go:206-377 | while every outcome reaches the store, whatever the worker leases is waiting for or inside one of its goroutines |
| Runtime.ReleasedWorkerIsIgnored | internal/worker/worker.go:141-202 | after the shutdown's release, no report the worker still sends touches any job |
| Paging.PageThrough | internal/ingest/scanner.go:253-292 | pages over a set that changes between reads repeat no id, return only ids that needed work, miss none that needed it throughout, and end |
| Paging.EnqueuePhotoJobs | internal/ingest/scanner.go:249-305 | only photos that needed work are requested, at most a thousand a statement; unless cancelled every photo that needed one of the five kinds of work throughout is, and the duplicate, similar and cluster jobs of the library come after all of them; the total is the rows added |
| Gate.CheckPrerequisites | internal/worker/handlers.go:244-314 | the duplicate handler rebuilds exactly when no COMPUTE_FILE_HASH job was live when counted, the cluster handler EXTRACT_METADATA, the similar handler COMPUTE_FILE_HASH, COMPUTE_PERCEPTUAL_HASH and ANALYZE_QUALITY; else it defers two seconds naming the first live type and its count |
| Gate.OutstandingOrNew | internal/store/jobs.go:497-509 | a job outstanding now was outstanding before or was enqueued since: counts cannot rise by themselves |
| Gate.LateWorkIff | internal/worker/handlers.go:92-314 | a prerequisite is outstanding at the rebuild exactly when it was enqueued after its own count and has not ended since |
| Gate.RebuildSeesFinishedWork | internal/worker/handlers.go:92-314 | with nothing of the kind enqueued since the counts, every prerequisite is succeeded or dead at the rebuild |
| Gate.SimilarRebuildSees | internal/worker/handlers.go:244-264 | so at a similar-groups rebuild no file hash, perceptual hash or quality job of the library is live |
| Gate.SingleCountRebuildsSee | internal/worker/handlers.go:92-314 | nor a file hash job at a duplicate rebuild, nor a metadata job at a cluster rebuild |
| Gate.AggregatesYield | internal/jobs/jobs.go:205-227 | in every run of standard requests a claim takes an aggregate only when it takes every photo job it could have taken |
| Gate.AggregateAwaits | internal/ingest/scanner.go:292-305 | after the fan-out's last batch each aggregate is outstanding, new or already there, and being run exactly when a claim on it is open |
| Gate.WaitingAggregateIsClaimedLater | internal/worker/handlers.go:92-314 | an aggregate nobody runs at that moment is run only under a later claim |
| Gate.FanOutIsFinishedAtRebuild | internal/ingest/scanner.go:249-305 | if nobody ran the aggregate right after the fan-out and the rebuild belongs to an execution that held its claim at some moment after that, every prerequisite of the library is finished and all the fan-out asked for is among them, whether the aggregate is new or was waiting from an earlier scan |
| Gate.FanOutDuringRebuildIsMissed | internal/worker/handlers.go:297-314 | a run of two fan-outs of which the second lands between count and rebuild, and no later aggregate remains to see it |
| Stages.RepeatsAndOrderDoNotMatter | internal/ingest/metadata.go:30-117 | over one state of the file, the row depends only on which photo stages ran, not on their order or how often each did |
| Stages.RebuildsReadTheFile | internal/store/similar.go:138-157 | once every photo stage has run, in any order, each rebuild reads what the file holds: hash; perceptual hash, pixels and score; date and place |
| Stages.PrerequisitesAreWhatMatters | internal/worker/handlers.go:79-314 | running a stage over a file that stays can change what a rebuild reads exactly when its handler waits for that stage - or the stage is EXTRACT_METADATA and the rebuild that of similar groups |
| Stages.InputIsFinal | internal/worker/handlers.go:86-92 | once no stage that can change it is left, nothing later changes what a rebuild read |
| Stages.GoneIsUnseen | internal/ingest/hashing.go:27-41 | a vanished file leaves every rebuild's input, whichever stage notices |
| Stages.RebuildHasFinalInput | internal/worker/handlers.go:79-314 | when the counts hold up to a duplicate or cluster rebuild, nothing left to do for the library can change its input |
| Stages.SimilarHasFinalInputIff | internal/worker/handlers.go:244-264 | for a similar-groups rebuild that is so exactly when no EXTRACT_METADATA job of the library is live |
| StageExamples.SimilarRebuildMayRunEarly | internal/worker/handlers.go:244-264 | a run in which all three counts are zero while a metadata job of the library is running |
| StageExamples.EarlyRebuildKeepsSmaller | internal/store/similar.go:138-157 | a library for which the rebuild before that job ends keeps the smaller picture, and the one after it the larger; each can return nothing else |
| Hamming.Metric | internal/hashing/dhash.go:116-118 | the bit distance on 64-bit words is zero only for equal words, symmetric, and obeys the triangle inequality |
| DHash.Hash | internal/hashing/dhash.go:73-92 | bit k of the hash is set exactly when comparison k, in reading order, falls from one column to the next |
| DHash.DistanceCountsDisagreements | internal/hashing/dhash.go:73-118 | the distance of two hashes is the number of comparisons on which the two images disagree |
| DHash.ToneCurveKeepsHash | internal/hashing/dhash.go:42-46 | any tone curve that keeps the order of grey values, uniform brightening included, leaves the hash unchanged |
| UnionFind.HalvingKeepsPartition | internal/duplicates/similar.go:275-281 | path halving changes no element's representative |
| UnionFind.LinkMergesPartition | internal/duplicates/similar.go:285-297 | hanging one root under another merges exactly those two sets |
| UnionFind.LinkKeepsRankPaid | internal/duplicates/similar.go:285-297 | union by rank keeps at least 2^r members under every root of rank r |
| UnionFind.RankIsLogarithmic | internal/duplicates/similar.go:260-297 | so no rank exceeds the logarithm of the number of photos |
| UnionFind.DisjointSets.Find | internal/duplicates/similar.go:275-281 | terminates, returns the representative and leaves the partition as it was |
| UnionFind.DisjointSets.Union | internal/duplicates/similar.go:285-297 | the new partition is the old one with exactly the two sets joined |
| Similar.JoinNear | internal/duplicates/similar.go:121-130 | after the all-pairs pass two photos share a representative exactly when a chain of pairs within the threshold connects them |
| Similar.GroupSimilar | internal/duplicates/similar.go:110-157 | the groups are exactly the components of two or more photos, each once and measured, in falling size; where ties carry over, each lists its members best first by score, pixels, bytes, path depth and path |
| Determinism.GroupingUnique | internal/duplicates/similar.go:137-157 | two results over the same candidates with distinct ids are the same list, whatever order the map was walked in, when ties carry over in each group |
| Similar.BuildGroup | internal/duplicates/similar.go:160-255 | a group lists its members with the exact largest distance and each one's distance from the keeper; where ties carry over, no member beats the keeper by more than 0.02 in quality, and of those level with it none has more pixels, then bytes, then fewer separators, then a shorter path |
| Ranking.ExactlyOnePreferred | internal/duplicates/similar.go:205-231 | of two photos with distinct ids the comparator prefers exactly one |
| Ranking.RankingIsOrderIff | internal/duplicates/similar.go:205-231 | the comparator is a strict order for every group with given scores exactly when ties carry over on those scores |
| Ranking.MissingScoreTiesIff | internal/duplicates/similar.go:205-231 | with a photo unscored, ties carry over exactly when no two scores differ by more than the tolerance |
| Ranking.PreferenceCycle | internal/duplicates/similar.go:205-231 | three photos each preferred to the next in a circle |
| Ranking.RankingSorts | internal/duplicates/similar.go:205-231 | on an ordered group of distinct photos the sort puts every preferred photo first |
| Ranking.RankingUnique | internal/duplicates/similar.go:205-231 | and the result, keeper included, does not depend on the input order |
| Ranking.RankedBestFirst | internal/duplicates/similar.go:205-231 | in a ranking every photo is, by those rules, the best of all from its place on |
| GroupWidth.WidthBound | internal/duplicates/similar.go:110-255 | a group of k photos is never wider than k - 1 thresholds, nor than 64 |
| GroupWidth.ChainedIff | internal/duplicates/similar.go:110-255 | the width exceeds the threshold exactly when two members are joined only through others |
| Copies.OneCandidatePerFile | internal/store/similar.go:116-173 | no two candidates are copies of one hashed file, and every file with a perceptual hash has one |
| Copies.RepresentativeIsKeeperIff | internal/store/duplicates.go:94-225 | the candidate of a file is its exact-duplicate keeper exactly when that keeper has a perceptual hash |
| Copies.RebuildDuplicateGroups | internal/store/duplicates.go:116-225 | one row for each file with several copies, with their number and bytes, the total of bytes less one smallest copy each, and as keeper the copy with fewest separators, then shortest path, then first in the collation |
| Copies.ExactTotalIs | internal/store/duplicates.go:144-188 | when copies agree on size that total is, whichever copies are kept, the size of all the others |
| Copies.SimilarTotalIs | internal/store/similar.go:223-232 | the near-duplicate total is the size of exactly the photos that are not keepers; the clamp never fires |
| SimilarRebuild.LoadSimilarityCandidates | internal/store/similar.go:116-173 | every candidate row is loaded once, in id order |
| SimilarRebuild.RebuildSimilarGroups | internal/store/similar.go:186-258 | what is stored is a grouping of the loaded candidates in which no group holds two copies of one file, and the total is that of its groups |
| Reclaim.DroppedTwiceIff | internal/store/similar.go:125-144 | a photo one screen drops is dropped by the other too exactly when it is a copy of a file whose keeper has no perceptual hash |
| Reclaim.DropsApartIff | internal/store/similar.go:125-144 | no photo is dropped twice exactly when every file whose stand-in is dropped has a keeper with a perceptual hash |
| ReclaimExamples.OnePhotoDroppedTwice | internal/store/similar.go:125-144 | a library for which, whatever the two rebuilds return, both screens drop one photo and recommend different copies of its file; what they return is given |
| Reclaim.TotalsBalance | internal/store/duplicates.go:144-188 | the two totals, one smallest copy of each file and the untouched photos add up to the library plus the dropped stand-ins, which are counted on both sides |
| Reclaim.TotalsFitLibrary | internal/store/similar.go:125-144 | they never exceed it when no dropped stand-in is larger than the smallest copy of its file |
| Reclaim.AgreeingTotalsFitLibrary | internal/store/similar.go:125-144 | and so whenever copies of a file agree on size |
| ReclaimExamples.TotalsMayExceedLibrary | internal/store/duplicates.go:144-188 | a library of 102 bytes whose copies disagree on size, for which the two rebuilds return totals of 100 and 100 |
| Clustering.RunsIsSplit | internal/clustering/clustering.go:223-234 | the greedy pass yields runs with no break inside and a break at every boundary, covering the photos in order |
| Clustering.SplitUnique | internal/clustering/clustering.go:223-265 | it is the only such split |
| Clustering.RunIsTight | internal/clustering/clustering.go:238-265 | adjacent members are within MaxGap and every located member within MaxRadius of the run's first fix |
| Clustering.ClusterDescribesRun | internal/clustering/clustering.go:269-318 | a cluster lists its run in order with its times, first fix and counts, a distance for exactly its located members, and their true maximum |
| Segmentation.Segment | internal/clustering/clustering.go:196-235 | dated photos in order of time and id, undated ones reported, and one cluster for each run; a new run begins exactly where the time step exceeds MaxGap (four hours by default) or the photo is located, the run has a first fix, and the two are further apart than MaxRadius (1500 m by default) |
| Segmentation.EventsBeginIff | internal/clustering/clustering.go:245-265 | the runs are the only split with a boundary exactly there |
| Segmentation.UnlocatedPhotoStays | internal/clustering/clustering.go:252-262 | a photo without GPS taken within MaxGap of the one before it is next to it in its cluster |
| Segmentation.EveryPhotoPlacedOnce | internal/clustering/clustering.go:196-235 | clusters and the undated list together hold every input photo exactly as often as the input does |
| Segmentation.ClustersIgnoreInputOrder | internal/clustering/clustering.go:212-221 | with distinct ids the clusters do not depend on the order of the input |
| Segmentation.RadiusIsBounded | internal/clustering/clustering.go:245-264 | no member is recorded, and no cluster reported, further than MaxRadius from its anchor |
| Segmentation.SameEventIffChained | internal/clustering/clustering.go:238-265 | without GPS two photos share a run exactly when gaps no longer than MaxGap chain them |
| Segmentation.EventsWithoutGps | internal/clustering/clustering.go:196-265 | and so it is for what Segment returns, with the thresholds it really uses |
| Segmentation.AddingPhotosOnlyMerges | internal/clustering/clustering.go:196-265 | adding photos without GPS can merge events but never separates two photos that were together |
| Like.PassesEscapeOnce | internal/store/photoview.go:242-247 | the three replacement passes escape each special character exactly once |
| Like.EscapedSearchIsSubstring | internal/store/photoview.go:189-195 | the pattern built from a search string is never rejected and matches exactly the texts containing it literally, up to case |
| Like.EscapeOrderMatters | internal/store/photoview.go:237-247 | escaping the backslash last would turn a literal percent sign back into a wildcard |
| Filter.Predicate | internal/store/photoview.go:166-222 | the clauses with their arguments keep exactly the rows the filter means, fail exactly on an unknown state, and bind $1, $2, ... once each in sequence |
| Filter.PresenceFilters | internal/store/photoview.go:197-220 | the presence filters add their positive or negative test without taking a placeholder |
| Listing.OrderingIsTotal | internal/store/photoview.go:328-349 | every ordering ends in the id, so rows with distinct ids have exactly one order |
| Listing.ListPhotoViews | internal/store/photoview.go:320-379 | the page starts at the offset and is as long as the limit (a hundred unless between 1 and 500) of a listing of exactly the wanted rows, whose length is the total; rows are in the direction asked for by the column the key names, unmeasured ones last, level ones by id |
| Listing.ListingIsUnique | internal/store/photoview.go:344-362 | two calls over the same rows see the same listing |
| Listing.PagesTile | internal/store/photoview.go:344-362 | consecutive pages repeat nothing and skip nothing |
| Listing.UnmeasuredLast | internal/store/photoview.go:120-133 | a row without a measurement never precedes one with it, ascending or descending |
| Pass.NeverOverLimit | internal/ingest/pass.go:48-119 | under every interleaving no more goroutines are live than the limit, batches are awaited, and the counts add up |
| Pass.OutcomesAreReported | internal/ingest/pass.go:87-110 | Done and Failed count the good endings and the bad ones before a cancellation, an error is kept exactly when there was one, and only a cancellation interrupts |
| Pass.InterruptedIff | internal/ingest/pass.go:54-116 | a pass that has stopped was interrupted exactly when a cancellation came before it stopped |
| Pass.CancelledStartsNothing | internal/ingest/pass.go:76-84 | a cancellation can come at any time, and after it nothing is fetched or started |
| Pass.FetchIsFull | internal/store/duplicates.go:20-34 | each fetch takes all that needs work, or the batch size (500 unless between 1 and 5000), and goroutines never exceed the concurrency, or one |
| Pass.NeedsAreUnmarked | internal/ingest/pass.go:58-119 | left alone, the set holds exactly the items not marked yet |
| Pass.EachItemOncePlusRetries | internal/ingest/pass.go:38-123 | an undisturbed pass that ends has marked every item and handled it once more than it was retried, and Done plus Failed counts all of it |
| Pass.EachItemOnce | internal/ingest/pass.go:38-123 | without retries that is each item exactly once |
| Pass.PassIsFinite | internal/ingest/pass.go:38-123 | an undisturbed pass takes at most six steps an item, six for each ending without a marker, and one more |
| Pass.StopsWhenAllMarked | internal/ingest/pass.go:54-119 | the loop stops only when every item has been marked, and once every item has, at most three steps remain and it cannot get stuck before it stops |
| Pass.NeverStuck | internal/ingest/pass.go:54-119 | some step is possible exactly until it stops |
| Pass.StuckItemNeverEnds | internal/ingest/pass.go:54-119 | one item that needs work and gets no marker means the loop neither stops nor gets stuck |
| Pass.RefetchedForever | internal/ingest/pass.go:54-119 | a run for every n in which such an item has been handled and counted n times |
| Orient.SourceIsBijection | internal/thumbnail/thumbnail.go:168-185 | every orientation maps the destination's pixels one to one onto the source's, for every size |
| Orient.OrientationsCompose | internal/thumbnail/thumbnail.go:153-192 | applying two orientations in turn is applying the one in the composition table |
| Orient.OrientationUndone | internal/thumbnail/thumbnail.go:153-192 | 6 and 8 undo each other and every other orientation undoes itself |
| Orient.Orient | internal/thumbnail/thumbnail.go:153-192 | every pixel lands where its orientation shows it (6 a quarter turn clockwise, 2 mirrored, all eight given), the result has room for no others, and the source is never written to |
| Orient.OrientationsAreTurns | internal/thumbnail/thumbnail.go:140-150 | 3, 6 and 8 are two, one and three quarter turns clockwise; 2, 7, 4 and 5 the same after a mirroring |
| Orient.ThumbFits | internal/thumbnail/thumbnail.go:67-78 | both edges of a thumbnail lie in 1..maxEdge exactly when maxEdge is positive, for every image size |
| Orient.ThumbNeverEnlarges | internal/thumbnail/thumbnail.go:67-78 | no edge grows, small images keep their size, and otherwise the long edge is maxEdge |
| Orient.ThumbKeepsShape | internal/thumbnail/thumbnail.go:67-78 | the short edge keeps the image's proportions, rounded down, unless nothing would be left of it |
| Orient.SizingCommutesWithTurning | internal/thumbnail/thumbnail.go:96-101 | sizing before orienting gives the size of sizing after orienting |
| Quality.Smooth | internal/quality/quality.go:330-356 | two one-dimensional passes give the clamped-edge 3x3 binomial convolution at every pixel |
| Quality.ClampIsNearest | internal/quality/quality.go:330-356 | beyond an edge the nearest pixel is used |
| Quality.SmoothingKeepsRange | internal/quality/quality.go:330-356 | smoothed values stay within the input's range |
| Quality.LaplacianVariance | internal/quality/quality.go:376-415 | the loops compute the variance of the Laplacian over the interior pixels, with the noise floor applied |
| Quality.SharpnessIgnoresBrightness | internal/quality/quality.go:330-415 | the variance measured after smoothing is unchanged by adding a constant to every pixel |
| Quality.RampIsNotSharp | internal/quality/quality.go:376-433 | an even gradient in any direction, a flat area included, has no sharpness at all |
| Quality.VarianceBounded | internal/quality/quality.go:476-514 | the luminance variance never exceeds 127.5 squared and the mean stays in 0..255 |
| Quality.VarianceBoundReached | internal/quality/quality.go:551-554 | half black and half white reaches the bound |
| Quality.LuminanceStats | internal/quality/quality.go:476-514 | mean, deviation and clipped shares are those of the pixel values |
| Quality.StatsArePlausible | internal/quality/quality.go:476-514 | so the deviation is at most 127.5 and the clipped shares together at most one |
| Quality.ExposureIsFullIff | internal/quality/quality.go:526-549 | the exposure score is full exactly when the mean is in the band and nothing is clipped; its upper clamp never fires and no division by zero is reached |
| Quality.ExposureFallsEvenly | internal/quality/quality.go:526-549 | outside the band the score falls in proportion to zero at black and at white, and clipped shares cost half of themselves |
| Quality.ScoresFill | internal/quality/quality.go:449-576 | contrast, resolution and sharpness grow in proportion to the deviation, the pixels and the root of the variance, and are full at 64, two megapixels and 310 |
| Quality.ScoresCount | internal/quality/quality.go:594-613 | sharpness counts for 45 in a hundred, exposure for 30, contrast for 15, resolution for 10 |
| Quality.WeightedIsMean | internal/quality/quality.go:594-613 | the overall score lies between the lowest and the highest of the four scores |
| Quality.Analyze | internal/quality/quality.go:210-236 | every measurement is that of the pixels, every score is in 0..1, the overall score equals its weighted mean before the clamp, and an image without pixels has no metrics |
| Tiff.WriteIfd | internal/fixtures/fixtures.go:868-908 | entries come out tag-sorted, long values in the pool word-aligned, disjoint and at the offsets written |
| Tiff.EntryRoundTrip | internal/fixtures/fixtures.go:896-906 | one entry read by the layout rules is the entry written |
| Tiff.DirectoryRoundTrip | internal/fixtures/fixtures.go:868-908 | a directory read from its start gives back all its entries in order, wherever it stands in a file |
| Exif.BuildExif | internal/fixtures/fixtures.go:789-935 | for all four combinations of date and location, reading the segment by the rules and following its pointers yields every tag written |
| Exif.ReadersFollow | internal/fixtures/fixtures.go:836-935 | such a reader starts at the byte order mark and finds the two further directories under the tags 0x8769 and 0x8825 |
| Exif.FirstDirectoryReadsBack | internal/fixtures/fixtures.go:836-921 | the first directory names make and model, and each further directory exactly when it exists |
| Exif.FieldsAreStandard | internal/fixtures/fixtures.go:810-832 | texts are type 2, one byte a character and a zero at the end; coordinates are three rationals of type 5; a reference letter is padded with zeros |
| Exif.MetadataReadsBack | internal/fixtures/fixtures.go:810-832 | both date tags come back as written and the coordinates with their signs and within half of 1/10000 arcsecond |
| Exif.DmsIsClose | internal/fixtures/fixtures.go:938-953 | degrees, minutes and seconds differ from the input by at most half of 1/10000 arcsecond |
| Exif.SecondsReadSixtyIff | internal/fixtures/fixtures.go:938-953 | the seconds read 60 exactly when the exact seconds are 59.99995 or more |
| Exif.SecondsMayReadSixty | internal/fixtures/fixtures.go:938-953 | 0.9999999999 degrees is written as 0 degrees, 59 minutes and 60 seconds |

## Left out

- PostgreSQL: SQL text, transactions, isolation and connection failures; a statement is one atomic step, and an error from the store is a step whose effect or answer is lost.
- Machine integers: attempt counts, priorities, sizes and nanosecond times are unbounded, so int32 and int64 overflow is not modelled; widths matter only in the EXIF bytes and the 64-bit hash, where they are explicit.
- Floating-point rounding and trigonometry: scores, distances and degrees are reals; `Haversine` is an arbitrary function.
- Library deletion, which cascades to jobs, and the audit table of executions.
- Worker hostnames and process ids, and the listing of workers.
- The per-photo handlers' file access, and the classification of media errors; what a file holds is an input, and `last_error` and the completion times of the stages are not among the columns of `Stages`.
- Cancellation contexts beyond their effect: a cancelled run is a step that stops claiming, paging or draining.
- Goroutines, channels and locks of the worker and of the batch drainer: `Runtime` and `Pass` are state machines over atomic steps, not statements of a method; the memory they share is not modelled.
- Rows of photos and groups are values in `Copies`, `SimilarRebuild`, `Filter` and `Listing`: the deletes and inserts around a rebuild are not modelled.
- Scanning: directory walking, symlinks, and the batching of ScanSync.
- The Confidence label of a cluster, quality flags and sort-key validation: single-branch functions.
- Persistence: the member rows written for clusters and groups, and their ranks, are not modelled; the groups, keepers, counts and byte totals are.
- Image decoding, resampling and JPEG encoding: the scaled image is an input of the measurements and of the hash.
- Orient.ThumbNeverEnlarges: asks for an image with pixels, because one without any gets a one-pixel thumbnail.
- Paging.EnqueuePhotoJobs: an error from a listing or from the store ends the fan-out as a cancellation does, and is not told apart from one.
- Filter.Predicate: the library id is taken as a well-formed uuid, because the database's rejection of any other text does not depend on the filter.
- Exif.BuildExif: asks for a formatted date of 19 to 40 characters and degrees below 2^32, because the date layout always prints at least 19 and converting a larger number to 32 bits is not defined by the language.
- Atomic file writes, thumbnail paths, HTTP handlers, configuration, logging, the migration runner, and the web interface.
