# VLog: verified model

VLog is a self-hosted video platform. An admin API uploads and edits videos, a worker API hands transcoding
jobs to remote workers, a public API serves the library. This project models the parts of its API server
where state and order matter and proves what they keep. `dafny verify dfyconfig.toml` checks everything.

## What is modelled

**Job dispatch over Redis streams** (`JobDispatches`, `RedisStreams`, `QueueRuns`, `QueueSafety`, `DeadLetters`,
`DeadLetterRuns`, `JobClaims`, `JobQueues`, `QueueDrain`, `QueuePriorities`). Three priority streams with a consumer group and a dead-letter stream,
all trimmed approximately. Each Redis command is one atomic function on explicit stream state (log, last delivered id,
pending list with owner and delivery time). `QueueRuns` cuts every consumer's coroutine at each await, so a run is any
interleaving of publishing, reading, listing, recovering, acknowledging, rejecting and crashing. `JobClaims` says
which message a claim finds, `JobQueues` is the class itself; `QueueDrain` shows that what its methods promise is a run
of that machine, and that claims drain the streams as a stable priority sort, which `QueuePriorities` carries back to
the texts of the priorities published.

**The job state machine** (`JobState`, `JobRuns`, `JobReports`). One state is derived from nullable columns and described three
times: as Python predicates, as an ordered classifier, and as SQL conditions, which are kept as syntax and
evaluated in three-valued logic. `JobRuns` interleaves the writers of the worker and the admin API on one row; a
handler that reads, checks and only later writes is two steps, with other handlers in between, and each outstanding
write remembers the worker and the step of its check. `JobReports` says what each report leaves on the row.

**Keyset pagination** (`Decimals`, `DateTimes`, `Base64Url`, `Cursors`, `VideoListing`, `ListingTimes`). The cursor codec down to
characters and bytes (base64url as in section 5 of RFC 4648), the lexicographic filter, the one-row-more trick and
the traversal of a table that changes between requests; `ListingTimes` says the order in instants and ids.

**Stores that stand for something simpler.** `AnalyticsCaches`: a TTL cache with eviction, beside an unbounded map;
`CacheCleanups` compares its runs with and without cleanups. `Positions`, `Playlists`, `Chapters`: integer position
columns updated by SQL statements, beside a list of ids; `ChapterRuns` runs any requests on one video. `VideoArchive`:
soft delete and restore with rollback, beside the identity on files. `RelatedVideos`: four queries with early
termination, beside one stable sort, which `RelatedOrder` says on the columns of a video. `Sorting` holds what they share about stable sorting and filtering.

**The shared Redis client** (`RedisClients`, `RedisClientRuns`). Health flag, failure count and circuit breaker; calls
and health checks are cut at their await of Redis, and any number of them are in flight at once.

**Arithmetic cores.** `ChapterDetection` and `ChapterTitles` (greedy length filter, transcript segmentation with
rounding to hundredths, titles without filler words and cut at a word), `UploadSlugs` (numbered slugs),
`DatabaseRetries` (backoff and deadlock limit; `Backoffs` holds what it shares with the Redis client), `Partitions`
(monthly partitions).

## What the proofs found

Where the code does not do what its comments, documentation or names say, the model follows the code, and a lemma
says exactly when the promise holds.

- *Chapters on PostgreSQL come from detection only.* Creating a chapter reads `MAX(position)` with FOR UPDATE, and
  PostgreSQL refuses a locking clause on an aggregate, so a creation always fails there; so does adding to a playlist
  without a position. `chapters` also carries a unique constraint on (video_id, position) that is not deferrable, and
  PostgreSQL checks it at each row an UPDATE rewrites: the batch reorder is refused for every request but the current
  order, in whatever order the rows are visited (`Chapters.ReorderIsRefused`). Hence no sequence of creations,
  deletions and reorderings adds or moves a chapter (`ChapterRuns.PostgreSQLOnlyLeavesOut`). Deleting compacts the
  positions only if the rows behind are visited in list order (`Chapters.CompactionNeedsListOrder`); it is safe
  whatever the order iff at most one chapter lies behind (`Chapters.DeletionIsSafeExactly`).
- *The limit of 50 chapters is counted outside the transaction*, so a creation exceeds it exactly when it goes
  through on a full video with an outdated count (`ChapterRuns.LimitIsExceededExactly`).
- *The claim query takes failed jobs.* It looks at neither last_error nor the counters, so besides what
  `can_claim` allows it takes exactly the unclaimed jobs the state machine calls FAILED
  (`JobRuns.ClaimTakesFailedJobsToo`; a run that gets there is `JobRuns.RetriedToFailedAndClaimed`).
- *A report at the very instant of the expiry is accepted*, although `can_complete` is already false
  (`JobRuns.AcceptanceVersusCanComplete`).
- *The writes of the worker API name the job only.* What a handler checked may be gone when it writes: a report hits
  another claimant than its own worker iff another worker's claim was the last to succeed in between
  (`JobRuns.LateWriteHitsAnotherClaimExactly`), which takes a release, retried failure, reset or overdue sweep in
  between (`JobRuns.ClaimInBetweenNeedsFreeing`). A late retry can lower the attempt number
  (`JobRuns.AttemptDropsExactly`).
- *The SQL conditions and the Python predicates part* on rows with missing or non-positive counters;
  `JobState.SqlAgreesExactly` gives the exact set.
- *The circuit breaker gives nothing back and is redundant.* An open circuit is always unhealthy, so
  `is_available` answers the health flag alone (`RedisClients.RedisClient.IsAvailable`). Time closes a circuit but
  lets no call through: an unhealthy client becomes healthy exactly when a health check in flight is answered, or a
  call that was begun while it was healthy (`RedisClientRuns.HealsExactly`). Without health checks the circuit opens
  iff three calls fail that were all in flight before the first failure, with no answer in between
  (`RedisClientRuns.CallsOpenExactly`).
- *A cleanup of the analytics cache can show when two sets share a timestamp* (`CacheCleanups.TieShowsCleanup`): an
  eviction goes by place in the dictionary exactly when there is a tie at its edge
  (`CacheCleanups.EvictionIgnoresPlacesExactly`), and a cleanup changes places. With increasing timestamps it never
  shows (`CacheCleanups.CleanupsChangeNoAnswer`).
- *A page that ends in a row without created_at offers no cursor*, so the admin listing stops early exactly when
  such rows fill the first page of a longer list (`VideoListing.FixedTableIsEnumerated`).
- *The deadlock limit counts all deadlocks of a call*, not consecutive ones as its comment and log line say
  (`DatabaseRetries.AbortsAtTheThirdDeadlock`).
- *A cleanup drops the month exactly `retention_months` back* except at the very start of a month
  (`Partitions.DropsExactly`).
- *The chapter filter may drop the last transcript chapter*, when its rounded start lies within the minimum of the
  end (`ChapterDetection.FilterDropsAtMostTheLast`).
- *The dots that mark a shortened chapter title never show*: the clean-up strips them again
  (`ChapterTitles.EllipsisIsStripped`).
- *A message can get two dead letters*, exactly when a rejection copies it although it is already dead
  (`DeadLetters.SecondLetterExactly`, `DeadLetters.TwoLettersExactly`). A crash between copy and acknowledgment leads
  there, and so does a slow holder whose message was recovered by another (`DeadLetterRuns`). Rejections by the
  message's owner that are not cut short write at most one (`DeadLetters.AtMostOneLetter`).
- *A dead letter does not last*: the dead-letter stream keeps about 1000, so the last letter of a settled message can
  go exactly when 1000 letters or more would follow it (`DeadLetters.CopyingLosesLettersExactly`). Trimming a priority
  stream may lose an undelivered job exactly when the stream is full (`QueueSafety.TrimmingLosesExactlyWhenFull`).

## Conventions

Times are integers or reals where only order and distance matter, and calendar date-times where text or months
matter. Randomness, clocks, what Redis answers and the order in which the database visits rows are parameters.
`None` stands for Python's `None` and SQL's NULL; a `Result`, an `Option` or an outcome datatype stands for an
exception or an HTTP error. Ghost fields (`order`, `openedAt`) exist for the proofs only. `Positions.Dialect` says what
the database makes of two statements: PostgreSQL refuses a locking clause on an aggregate and checks a unique
constraint row by row, an idealised database locks the rows and checks the constraint at the statement's end.
Playlists and chapters are modelled on both.

## Model

| member | source | states |
|---|---|---|
| `JobDispatches.DispatchRoundTrip` | api/job_queue.py:61-99 | Reading back the string fields a dispatch was written as always succeeds and gives the same dispatch, with missing, "" and 0 identified and a missing creation time replaced by the publishing time. |
| `JobDispatches.RewritingChangesNothing` | api/job_queue.py:61-74 | Writing a received dispatch again, at any later time, gives the very fields that were published. |
| `JobDispatches.MissingFields` | api/job_queue.py:76-99 | Job, video and slug are required; the other fields default to nothing and the priority to normal. |
| `RedisStreams.XPendingRangeIsTheLowest` | api/job_queue.py:237-247 | The recovery listing holds every pending message, or else ten that are all older than the missing one. |
| `QueueRuns.NextIsWellFormed` | api/job_queue.py:191-350 | Each single Redis command of any consumer keeps the streams sound (nothing pending or settled before it is delivered) and what every other consumer remembers true, and streams only move forward. |
| `QueueSafety.NoJobIsLost` | api/job_queue.py:161-350 | In every interleaving with crashes from empty streams, while its stream has not passed the trim length and at most 1000 letters were written, each published message is undelivered, pending with one owner, acknowledged, or has a dead letter; every letter present matches its message, however many were written. |
| `QueueSafety.LetterCarriesWhatWasPublished` | api/job_queue.py:325-344 | A dead letter carries the same fields its message was published with. |
| `QueueSafety.LetterKeepsTheError` | api/job_queue.py:325-344 | Its error is the reported one, cut after 500 characters. |
| `QueueSafety.TrimmingLosesExactlyWhenFull` | api/job_queue.py:176-184 | A publish can drop an undelivered job if and only if the oldest kept entry is undelivered and the stream is at its maximum length. |
| `DeadLetters.CopyingLosesLettersExactly` | api/job_queue.py:325-339 | Copying another message can push out the last letter of a settled one, for some outcome of the approximate trim, iff at least 1000 letters are kept from that letter on. |
| `DeadLetters.SecondLetterExactly` | api/job_queue.py:316-350 | A rejection adds a second or further letter for its message iff the message is already dead. |
| `DeadLetters.TwoLettersExactly` | api/job_queue.py:316-350 | In any run a message has two letters iff some rejection copied it when it was already dead. |
| `DeadLetters.DeadIsSettled` | api/job_queue.py:316-350 | If every copy is followed at once by its acknowledgment, a dead message is pending only right after its copy. |
| `DeadLetters.AtMostOneLetter` | api/job_queue.py:316-350 | If besides only the current owner of a pending message rejects it, no message gets two letters. |
| `DeadLetterRuns.CrashCanDuplicate` | api/job_queue.py:316-350 | One way to two letters: a crash between copy and acknowledgment, then a recovery and rejection by another consumer. |
| `DeadLetterRuns.SlowHolderDuplicates` | api/job_queue.py:233-267 | Another, without a crash: a slow holder rejects in full what another consumer has recovered and rejected in full. |
| `QueueSafety.DeliveryTakesOwnership` | api/job_queue.py:233-289 | A delivery makes its consumer the owner from now on; a recovered message was pending and at least the pending timeout idle, a read one was never delivered before. |
| `QueueSafety.RedeliveryWaitsForTheTimeout` | api/job_queue.py:233-267 | If one message is delivered twice in a run, to whatever consumers, the second delivery is a recovery and at least the pending timeout lies between the two. |
| `JobQueues.JobQueue.Initialize` | api/job_queue.py:116-155 | The queue becomes available only when Redis is wanted, reachable and its groups exist; nothing is forgotten when it was available before. |
| `JobQueues.JobQueue.PublishJob` | api/job_queue.py:161-189 | Priority "high" goes to the end of the high stream, "low" of the low one, any other text of the normal one, and nothing else changes; success is reported exactly then. |
| `JobQueues.JobQueue.ReadFromStream` | api/job_queue.py:269-289 | One read delivers the oldest undelivered entry to this consumer, or changes nothing. |
| `JobQueues.JobQueue.RecoverAbandoned` | api/job_queue.py:233-267 | The loop over streams and listings equals the specification: the first over-idle message, high to low and oldest first, that can be claimed and parsed. |
| `JobQueues.JobQueue.ClaimJob` | api/job_queue.py:191-231 | With the last check 30 s ago and a message to recover, it returns the lowest such message of the highest level that has one; otherwise the oldest never delivered message of the highest level that can give one, or nothing. The consumer owns it from now on; a disabled or unconnected queue changes nothing. |
| `JobClaims.RecoveryFinds` | api/job_queue.py:233-267 | A recovery finds the lowest recoverable message (over-idle, kept, well-formed, among the ten lowest pending, no malformed stuck one in front) of the highest level that has one, or there is none. |
| `JobClaims.ListedExactly` | api/job_queue.py:237-247 | The listing holds exactly the pending ids with fewer than ten pending ids below. |
| `JobClaims.ClaimFinds` | api/job_queue.py:191-289 | The same for a whole claim, recovery due or not, with any streams failing. |
| `JobQueues.JobQueue.ReadInOrder` | api/job_queue.py:215-226 | The streams are read in priority order up to the first that yields a job, failing streams being skipped. |
| `JobQueues.JobQueue.AcknowledgeJob` | api/job_queue.py:291-314 | Success means the message left the pending list and is on record as acknowledged; otherwise nothing changed. |
| `JobQueues.JobQueue.RejectJob` | api/job_queue.py:316-350 | The dead-letter copy, which may trim letters beyond 1000, precedes the acknowledgment: a cut before leaves all as it was, a cut in between leaves copy and pending message, no cut leaves only the copy. |
| `QueueDrain.ClaimIsARun` | api/job_queue.py:191-289 | Whatever a claim does is a run of single commands by this consumer alone, ending with the claimed message in its hands, so the safety results apply to it. |
| `QueueDrain.SettlingIsARun` | api/job_queue.py:291-350 | The same for an acknowledgment, a rejection, and a rejection cut short. |
| `QueueDrain.ClaimTakesHead` | api/job_queue.py:191-231 | With nothing over-idle, one claim takes the head of the backlog (high, then normal, then low, each in publish order), gives back the published dispatch, and leaves the tail. |
| `QueueDrain.DrainIsAStablePrioritySort` | api/job_queue.py:191-231 | Claims by any mix of consumers return every undelivered job exactly once, in stable priority order, and then nothing. |
| `QueuePriorities.PublishedThenDrained` | api/job_queue.py:161-231 | From empty streams: whatever list of dispatches is published within the trim length, claims by any consumers return all "high" ones, then all that are neither, then all "low" ones, each group in publish order, each once and normalised, and then nothing. |
| `QueueDrain.WaitingIsExact` | api/job_queue.py:269-289 | The waiting list of a level holds the undelivered ids in publish order, each once. |
| `JobState.GetStateRaisesExactly` | api/job_state.py:352-403 | get_state raises if and only if the row is uncompleted, claimed without an expiry, and not error-exhausted. |
| `JobState.PredicatesOverlapOnlyOnExhaustedClaims` | api/job_state.py:243-403 | Two different state predicates hold together only when one is FAILED and the other CLAIMED or EXPIRED; the classifier then says FAILED. |
| `JobState.GuardsMatchStates` | api/job_state.py:558-616 | can_claim holds iff the state is UNCLAIMED or RETRYING; can_complete, can_fail and can_reclaim hold iff CLAIMED or EXPIRED, or FAILED with such a claim still in place. |
| `JobState.GuardsExclude` | api/job_state.py:558-598 | At most one of can_claim, can_reclaim and can_complete holds on any row at any time. |
| `JobState.TimeOnlyExpires` | api/job_state.py:257-307 | On an unchanged row time can only turn CLAIMED into EXPIRED, and does so exactly when the expiry is reached. |
| `JobState.SqlAgreesExactly` | api/job_state.py:409-552 | In three-valued logic every sql_ condition selects the rows of its Python predicate, and sql_claimable those of can_claim, if and only if the row is completed, has no error, or keeps the order of its counters under from_mapping's defaults. |
| `JobState.SqlAgreesOnPositiveCounters` | api/job_state.py:130-159 | They agree on every row whose counters are present and at least 1. |
| `JobRuns.NextKeepsInv` | api/worker_api.py:1463-1600 | Every check and every write of every handler keeps: a claim has an expiry and no completion, a recorded worker is the last claimant, counters are present and positive. |
| `JobRuns.ReachableRowsAreSound` | api/job_state.py:352-403 | In every reachable state the classifier is total, SQL and Python agree, and a worker recorded on an uncompleted job is the last one that claimed it. |
| `JobRuns.ClaimsAreSeparated` | api/worker_api.py:1463-1600 | Between two successful claims of one job, in every interleaving, there is a completion, failure, release, reset or overdue sweep. |
| `JobRuns.LeaseIsGiven` | api/worker_api.py:1585-1600 | A claim, and a progress report written on a claimed row, gives a lease counted from the time of its check. |
| `JobRuns.LeaseIsRespected` | api/worker_api.py:1482-1490 | Unless a handler ends the claim on purpose, the next successful claim needs a sweep later than the lease. |
| `JobRuns.OnlyTheClaimantPasses` | api/worker_api.py:1749-1776 | A worker's report on an uncompleted job passes its check only for the last claimant, and only while the claim is not overdue. |
| `JobRuns.ResetUnclaims` | api/admin.py:752-767 | A reset leads from any row to UNCLAIMED, forgets the worker, and strictly raises the attempt number if there is one. |
| `JobRuns.CompletionIsFinal` | api/worker_api.py:1965-1977 | A completed job stays completed and is never claimed again, in any interleaving without a reset. |
| `JobRuns.LateWriteHitsAnotherClaimExactly` | api/worker_api.py:1916-1977 | An accepted report is written under another claimant than its own worker iff the last claim that succeeded between its check and its write was another worker's. |
| `JobRuns.ClaimInBetweenNeedsFreeing` | api/worker_api.py:1749-1790 | A claim between the check and the write of a report needs a release, retried failure, reset or overdue sweep in between. |
| `JobRuns.LateCompletionHitsAnotherClaim` | api/worker_api.py:1916-1977 | One such run: a completion checked in time but written late completes the job under the worker that has claimed it since. |
| `JobRuns.AttemptDropsExactly` | api/worker_api.py:2101-2121 | A step lowers the attempt number if and only if it writes a retry that was decided on an older attempt. |
| `JobRuns.AttemptCanDrop` | api/worker_api.py:2101-2121 | A run that lowers it: two resets between the check and the write of a failure. |
| `JobRuns.ClaimTakesFailedJobsToo` | api/worker_api.py:1546-1575 | In every reachable state a claim succeeds iff can_claim holds of the swept row, or it is FAILED and unclaimed. |
| `JobRuns.RetriedToFailedAndClaimed` | api/worker_api.py:2101-2145 | A run of two retried failures that ends in a row called FAILED which the next claim takes. |
| `JobReports.FailureReport` | api/worker_api.py:2101-2145 | A failure report on an uncompleted job: with retry asked for and attempt below the maximum, the job is unclaimed, uncompleted and at the next attempt; otherwise it is completed at the time of the check with its attempt as it was. |
| `JobReports.ChecksExactly` | api/worker_api.py:1749-1776 | A report or release leaves a write to be made exactly under its own condition, and changes nothing yet. |
| `JobReports.ReleasesExactly` | api/admin.py:4815-4841 | A written release ends the claim and forgets the worker; a deleted worker is forgotten on its own jobs only. |
| `JobReports.ClaimsExactly` | api/worker_api.py:1482-1600 | A claim takes an unclaimed, uncompleted job or one with an overdue claim, gives it the lease, and takes no other. |
| `JobReports.FailureIsWrittenAsDecided` | api/worker_api.py:2101-2145 | The same however many steps lie between check and write, on the counters the check read. |
| `JobReports.CompletionReport` | api/worker_api.py:1965-1977 | A completion report sets completed_at and ends the claim, and changes nothing else. |
| `JobReports.ProgressReport` | api/worker_api.py:1749-1790 | A progress report sets the expiry to the lease from its check, and changes nothing else. |
| `JobReports.AttemptsStayBounded` | api/worker_api.py:2101-2121 | In every interleaving the attempt number is at most 3 plus the number of resets; without a reset no job is tried a fourth time. |
| `JobRuns.AcceptanceVersusCanComplete` | api/worker_api.py:1916-1925 | A report is accepted iff its worker is recorded and can_complete holds, or this is the very instant of the expiry. |
| `DateTimes.IsoRoundTrip` | api/pagination.py:23-83 | fromisoformat gives back every datetime isoformat wrote, with microseconds and any UTC offset down to microseconds. |
| `DateTimes.EarlierIsEarlier` | api/partition_manager.py:262-278 | Of two times with the same offset, the one whose fields come earlier names the earlier instant. |
| `Decimals.ParseStr` | api/pagination.py:23-83 | int gives back every integer str wrote, and the text has digits and minus signs only. |
| `Base64Url.DecodeEncode` | api/pagination.py:23-83 | Decoding the URL-safe base64 of any bytes gives back those bytes, padding included. |
| `Cursors.CursorRoundTrip` | api/pagination.py:23-99 | Decoding an encoded cursor always succeeds, with the same id and the same instant, a naive one read as UTC. |
| `Cursors.ShortRecordsAreRejected` | api/pagination.py:61-64 | Any record with fewer than three fields decodes to nothing. |
| `Cursors.OtherVersionsAreRejected` | api/pagination.py:66-70 | Any record with another version decodes to nothing. |
| `VideoListing.ListIsStrictlySorted` | api/admin.py:1533-1583 | One request returns matching rows behind its cursor in strict (stamp, id) order, and its next cursor cuts exactly behind its last row. |
| `VideoListing.TraversalIsStrictlySorted` | api/admin.py:1505-1583 | Following next_cursor over tables that change in any way, the pages together stay strictly sorted. |
| `ListingTimes.PageRunsInTime` | api/admin.py:1533-1546 | On a page, descending means the later instant first and then the greater id, with missing stamps in front; ascending means the reverse. |
| `ListingTimes.TraversalRunsInTime` | api/admin.py:1505-1583 | The same for the rows of all pages together, over tables that change. |
| `ListingTimes.BeyondMeans` | api/admin.py:1533-1541 | A row lies behind a cursor iff its (instant, id) is below the cursor's in descending, above it in ascending order. |
| `ListingTimes.PageIsTheNearest` | api/admin.py:1543-1556 | A matching row behind the cursor is on the page, or the page is full and all its rows come before it. |
| `VideoListing.NoIdTwice` | api/admin.py:1505-1583 | No id is returned twice if no id changes its stamp, whatever else is inserted, deleted or edited in between. |
| `VideoListing.RowsComeFromTables` | api/admin.py:1505-1583 | Every returned row matches the filter and was in a table some request saw. |
| `VideoListing.UnchangedRowsAreReturnedOnce` | api/admin.py:1505-1583 | A matching row that is present and unchanged throughout is returned exactly once by a finished traversal, given non-null stamps. |
| `VideoListing.FixedTableIsEnumerated` | api/admin.py:1505-1583 | On a fixed table the pages are the whole sorted list, in max(1, ceil(n / limit)) requests, if and only if the list fits one page or fewer than limit rows have no created_at. |
| `VideoListing.FixedTableWithoutNullsIsEnumerated` | api/public.py:1019-1070 | With date sort in either order the pages concatenate to the sorted filtered list in max(1, ceil(n / limit)) requests. |
| `VideoListing.RequestsIsCeiling` | api/public.py:1048-1070 | The number of requests is 1 for an empty list and the ceiling of n / limit otherwise. |
| `AnalyticsCaches.AnalyticsCache.Get` | api/analytics_cache.py:47-70 | A get answers the fresh value of the key, and drops a stale one. |
| `AnalyticsCaches.AnalyticsCache.Set` | api/analytics_cache.py:72-104 | The deletion loops leave exactly the specified entries: chance cleanup, expired entries when full, then the oldest tenth, then the new entry. |
| `AnalyticsCaches.AnalyticsCache.CleanupExpired` | api/analytics_cache.py:120-136 | The loop removes exactly the stale entries and counts them. |
| `AnalyticsCaches.AnalyticsCache.Clear` | api/analytics_cache.py:106-108 | Nothing is left. |
| `AnalyticsCaches.AnalyticsCache.Invalidate` | api/analytics_cache.py:110-118 | Exactly the entry of that key is gone. |
| `AnalyticsCaches.StepRefines` | api/analytics_cache.py:47-136 | Each operation keeps every entry equal to what the unbounded map holds for its key, and the size within max_size. |
| `AnalyticsCaches.RunRefines` | api/analytics_cache.py:47-136 | The same over every run. |
| `AnalyticsCaches.AnswersAreLastSet` | api/analytics_cache.py:47-104 | In every run a get answers nothing, or the value last set for the key and no older than the TTL. |
| `AnalyticsCaches.SetIsSeen` | api/analytics_cache.py:72-104 | A value just set is answered exactly until it is older than the TTL. |
| `AnalyticsCaches.RoomyCacheIsExact` | api/analytics_cache.py:47-136 | With a clock that never goes back and room for every key that is set, the cache answers exactly as the unbounded TTL map, after every run. |
| `AnalyticsCaches.EvictionKeepsTheNewest` | api/analytics_cache.py:96-100 | Sorted by age, what an eviction leaves is the list without its max(1, n // 10) oldest. |
| `AnalyticsCaches.EvictionDropsTheOldestTenth` | api/analytics_cache.py:96-100 | An eviction drops one entry of fewer than 20, else a tenth rounded down, and nothing newer than what it keeps. |
| `AnalyticsCaches.EvictionSparesRecentKeys` | api/analytics_cache.py:72-104 | With strictly increasing timestamps, a set drops an unexpired key of someone else only if at least max_size - max(1, max_size // 10) other keys were written after it. |
| `CacheCleanups.EvictionIgnoresPlacesExactly` | api/analytics_cache.py:96-100 | Which entries an eviction drops is independent of their places in the dictionary iff the newest it drops is strictly older than the oldest it keeps. |
| `CacheCleanups.CleanupsChangeNoAnswer` | api/analytics_cache.py:72-136 | With a clock that never goes back and increasing timestamps, every run answers each later get as the run without its cleanups, asked for or by chance. |
| `CacheCleanups.CleanupIsInvisible` | api/analytics_cache.py:120-136 | Under the same conditions, one cleanup inserted anywhere in a run changes no answer after it. |
| `CacheCleanups.TieShowsCleanup` | api/analytics_cache.py:72-104 | Under equal timestamps it can: a run whose answer a cleanup turns from nothing into the value just set. |
| `Positions.ListIsUnique` | api/admin.py:7872-7911 | A column of distinct positions stands for one list only. |
| `Positions.ListExists` | api/admin.py:7872-7911 | A column of distinct positions stands for some list. |
| `Positions.AddAppends` | api/admin.py:7875-7886 | Where the locked maximum is given, inserting at it plus one appends, and keeps positions 0 .. n - 1. |
| `Positions.AddInserts` | api/admin.py:7887-7907 | Shifting and inserting at p inserts before the first id at or behind p, which is index p in a dense column; the column stays dense iff p <= n. |
| `Positions.RemoveDeletes` | api/admin.py:7950-7964 | Deleting and shifting back deletes from the list and keeps a dense column dense. |
| `Positions.ReorderPermutes` | api/admin.py:8014-8033 | The batch update makes exactly the requested list, densely numbered, iff no id is repeated; positions stay distinct even then. |
| `Playlists.SelectMax` | api/admin.py:7877-7886 | The aggregate alone: the greatest position, or -1 for no rows. |
| `Playlists.LockedMax` | api/admin.py:7877-7886 | With FOR UPDATE, PostgreSQL refuses it; an idealised database gives the maximum. |
| `Playlists.Playlist.Add` | api/admin.py:7847-7911 | 404 and 400 exactly as in the source; without a position PostgreSQL refuses and an idealised database appends the id, with one the id is inserted there, and dense positions stay dense iff the position is at most n. |
| `Playlists.Playlist.RemoveVideo` | api/admin.py:7929-7964 | The id is deleted from the list, or 404 and nothing changes; dense positions stay dense. |
| `Playlists.Playlist.Reorder` | api/admin.py:7987-8033 | 400 iff the id sets differ; without repeats the list becomes the request, with repeats positions stay distinct but not dense. |
| `Chapters.RearrangingIsRefused` | api/database.py:734 | Under a unique constraint checked row by row, an update that rearranges the occupied positions fails in every visiting order unless it changes nothing. |
| `Chapters.ClosingTheGap` | api/admin.py:8282-8289 | Moving the rows behind a gap one down succeeds iff they are visited in list order, and then gives dense positions. |
| `Chapters.CompactionNeedsListOrder` | api/admin.py:8276-8289 | The same for deleting a chapter of a densely numbered video. |
| `Chapters.DeletionIsSafeExactly` | api/admin.py:8276-8289 | The deletion goes through for every visiting order iff the constraint is checked at the end or at most one chapter lies behind the deleted one. |
| `Chapters.ReorderIsRefused` | api/admin.py:8356-8375 | The batch reorder of densely numbered chapters succeeds iff the request is the current order. |
| `Chapters.StoredIsEmptyOnlyIfNoneDetected` | api/admin.py:8491-8507 | Filtering and cutting leave no chapter only if none was detected. |
| `Chapters.StoredAreTheFirst` | api/admin.py:8491-8507 | What is stored are the first of the filtered chapters, all or fifty. |
| `Chapters.VideoChapters.Create` | api/admin.py:8097-8149 | 404 and 400 as in the source, then refused on PostgreSQL; on an idealised database the chapter is appended and has_chapters is true. Refused means unchanged. |
| `Chapters.VideoChapters.Delete` | api/admin.py:8266-8298 | Succeeds iff the chapter exists and, on PostgreSQL, the rows behind it are visited in list order; then it is gone from the list, positions are dense, and has_chapters equals n > 0. |
| `Chapters.VideoChapters.Reorder` | api/admin.py:8316-8375 | 400 for repeats or other ids; then on PostgreSQL only the current order is accepted, on an idealised database the list and its chapters become the request. |
| `Chapters.VideoChapters.AutoDetect` | api/admin.py:8393-8583 | 404, 400 and 409 exactly as in the source; otherwise the chapters are, in position order, the filtered detected ones cut at 50, has_chapters is true and 0 < n <= 50. |
| `ChapterRuns.RunIsSound` | api/admin.py:8097-8583 | Over every sequence of requests, on either database and with any counts read, has_chapters is true iff there are chapters. |
| `ChapterRuns.LimitIsExceededExactly` | api/admin.py:8112-8149 | A request takes a video past 50 chapters iff it is a creation that goes through on a full video, with an outdated count. |
| `ChapterRuns.RunStaysWithinTheLimit` | api/admin.py:8097-8583 | Over every sequence of requests whose counts are current, a video stays within 50 chapters. |
| `ChapterRuns.OutdatedCountExceedsTheLimit` | api/admin.py:8112-8149 | Two creations that both counted 49 make 51 chapters. |
| `ChapterRuns.PostgreSQLOnlyLeavesOut` | api/admin.py:8097-8375 | On PostgreSQL, any sequence of creations, deletions and reorderings leaves the old list with some ids left out, in the old order. |
| `VideoArchive.Library.MoveAll` | api/admin.py:2588-2604 | All existing sources are moved, or, iff the failing move comes to its turn, every earlier move is undone and the file map is as before. |
| `VideoArchive.Library.Undo` | api/admin.py:2605-2611 | Moving back last first restores the file map from before the first move. |
| `VideoArchive.Library.SoftDelete` | api/admin.py:2579-2625 | Done: deleted_at is set and the files are archived. Failed: row and files are as before. In both cases a video's files are all live or all archived, as deleted_at says. |
| `VideoArchive.Library.Restore` | api/admin.py:3109-3161 | The same for restoring, with 404 and 400 exactly as in the source and the old deleted_at put back on failure. |
| `VideoArchive.MoveThereAndBack` | api/admin.py:2588-2604 | Moving what exists to free targets and back is the identity on the file map. |
| `VideoArchive.ArchivingKeepsConsistency` | api/admin.py:2579-2604 | Archiving finds its targets free and keeps every video's files on the side its deleted_at says. |
| `VideoArchive.RestoringKeepsConsistency` | api/admin.py:3122-3141 | The same for restoring. |
| `VideoArchive.DeleteThenRestoreIsIdentity` | api/admin.py:2579-2604 | Soft delete and restore give back the exact file map. |
| `VideoArchive.RunKeepsEveryFile` | api/admin.py:2579-3161 | Over every sequence of deletions and restorations, failing ones included, all files of a video are live or all archived as deleted_at says, and every directory and upload keeps its content. |
| `RelatedVideos.QueryFindsTier` | api/public.py:1443-1495 | With the ids found so far excluded, the query of a tier finds exactly the videos of that tier, newest first. |
| `RelatedVideos.SortIsTheTiers` | api/public.py:1559-1621 | The stable sort of the newest-first list by tier is tier 1, then 2, then 3, then 4. |
| `RelatedVideos.AddAll` | api/public.py:1573-1576 | The adding loop appends what was found up to the limit and remembers exactly the ids added. |
| `RelatedVideos.CollectTier` | api/public.py:1579-1590 | One tier's block extends the first `limit` videos of the tiers before to those of the tiers up to it. |
| `RelatedVideos.CollectRelated` | api/public.py:1559-1621 | The four early-terminating queries return the first `limit` videos of the single sort, ties fixed. |
| `RelatedVideos.GetRelated` | api/public.py:1500-1621 | 404 iff the slug names no listed video; otherwise the same with the first ten tags. |
| `RelatedVideos.AnswerIsTheBest` | api/public.py:1500-1621 | The answer holds other listed videos, no id twice, min(limit, others) of them, ordered by tier and then newest first; anything left out comes no earlier than anything shown. |
| `RelatedOrder.AnswerShows` | api/public.py:1443-1621 | Only other ready, published, undeleted videos, each no later than the next: category and tag in common, category, tag, neither, and then the later publication first; nothing left out belongs before anything shown. |
| `ChapterDetection.FilterChaptersByLength` | api/chapter_detection.py:405-448 | The loop returns the greedy choice from the chapters sorted by start. |
| `ChapterDetection.FilterIsGreedy` | api/chapter_detection.py:424-448 | The result takes the first chapter by start, and then each time the first one that starts the minimum behind the one taken before and the minimum before the end. |
| `ChapterDetection.FilterIsOptimal` | api/chapter_detection.py:424-448 | The starts kept lie the minimum apart and, but for the first, the minimum before the end, and no choice from the sorted chapters with these distances is longer. |
| `ChapterDetection.FilterIsIdempotent` | api/chapter_detection.py:424-448 | Filtering a second time changes nothing. |
| `ChapterDetection.AnalyzeTranscript` | api/chapter_detection.py:278-342 | The loop returns the segments at the multiples of duration / n, titled by their first sentence. |
| `ChapterDetection.RoundCommutesWithSeconds` | api/chapter_detection.py:333-340 | Rounding to hundredths commutes with shifts by whole seconds. |
| `ChapterDetection.TiesGoToEven` | api/chapter_detection.py:333-340 | Halfway between two hundredths, rounding goes to the even one. |
| `ChapterDetection.SegmentsTile` | api/chapter_detection.py:297-342 | There are chapters iff two fit, then as many as fit up to 10, from 0 to the rounded duration, each ending where the next begins, none shorter than the minimum even after rounding. |
| `ChapterDetection.SegmentsAreEven` | api/chapter_detection.py:312-340 | They start at equal distances, up to rounding. |
| `ChapterDetection.SegmentTitles` | api/chapter_detection.py:309-327 | They are titled by every e-th sentence from the first on, e being the sentences per chapter but at least one; chapters without a sentence are numbered. |
| `ChapterDetection.StartsAreApart` | api/chapter_detection.py:312-340 | Any two rounded starts are at least the minimum apart. |
| `ChapterDetection.FilterDropsAtMostTheLast` | api/chapter_detection.py:424-448 | Filtering the segments keeps all of them, or all but the last exactly when its rounded start is within the minimum of the end. |
| `ChapterTitles.CutsAtTheLastWord` | api/chapter_detection.py:345-370 | An over-long text keeps the prefix up to its last space if that lies past the middle, else up to the limit, with three dots. |
| `ChapterTitles.EllipsisIsStripped` | api/chapter_detection.py:373-402 | The punctuation clean-up of a title takes the dots away again, for every over-long sentence. |
| `ChapterTitles.UnledExactly` | api/chapter_detection.py:30-34 | Whichever filler word leads the sentence is removed with the white space behind it, only one of each list can, and otherwise nothing is removed. |
| `ChapterTitles.FallbackExactly` | api/chapter_detection.py:394-402 | The numbered fallback is taken exactly when fewer than three characters are left. |
| `ChapterTitles.TitleBounds` | api/chapter_detection.py:373-402 | A title is a stripped piece of 3 to 60 characters of what follows the filler words removed, or the numbered fallback. |
| `UploadSlugs.InsertWithSlug` | api/admin.py:1745-1785 | The slug inserted is the first candidate that was free when it was tried; none is found only after 100 tries. |
| `UploadSlugs.SomeAttemptIsFree` | api/admin.py:1745-1785 | If fewer than 100 of the candidates are ever taken, one of the tries finds its slug free. |
| `DatabaseRetries.DeadlocksAreRetryable` | api/db_retry.py:49-129 | Along every cause chain, a deadlock error is also a retryable one. |
| `DatabaseRetries.RetryableExactly` | api/db_retry.py:49-129 | Worth a retry is exactly what carries one of twelve texts or SQLSTATE 40P01 or 40001, itself or along its causes; a deadlock is its text or 40P01. |
| `DatabaseRetries.ExecuteWithRetry` | api/db_retry.py:168-212 | The loop stops at the first success, non-retryable error or third deadlock, with that outcome, and otherwise after max_retries + 1 calls; each delay between calls is the capped exponential with its jitter. |
| `DatabaseRetries.AbortsAtTheThirdDeadlock` | api/db_retry.py:173-195 | DeadlockError is raised iff the call is a deadlock and the third one of the loop, consecutive or not. |
| `DatabaseRetries.DelayBounds` | api/db_retry.py:197-205 | A delay is at least 10 ms and at most a quarter over both the exponential and the cap. |
| `DatabaseRetries.DelaysDouble` | api/db_retry.py:197-205 | Without jitter the delay starts at the base and doubles until it reaches the cap. |
| `DatabaseRetries.JitterIsProportional` | api/db_retry.py:201-205 | The jitter moves a delay in proportion to the roll, by up to a quarter either way. |
| `DatabaseRetries.SleepIsBounded` | api/db_retry.py:197-209 | The sleeps before n retries add up to at most 1.25 * base * (2^n - 1) and 1.25 * n * max_delay. |
| `DatabaseRetries.TotalSleep` | api/db_retry.py:168-212 | The total sleep is at most 1.25 * min(base * (2^max_retries - 1), max_retries * max_delay). |
| `RedisClients.RedisClient.IsAvailable` | api/redis_client.py:119-133 | Closes a circuit whose time is up; in every sound state the answer is configured, connected and healthy, whatever the circuit. |
| `RedisClients.RedisClient.BeginExecute` | api/redis_client.py:141-159 | A call asks Redis iff the client is configured, connected, healthy and its circuit closed; in sound states health alone decides. |
| `RedisClients.RedisClient.EndExecute` | api/redis_client.py:160-170 | The result is Redis's answer, or the fallback on an error; success and failure are recorded on the state found then. |
| `RedisClients.RedisClient.RecordFailure` | api/redis_client.py:172-192 | The whole new state: failures capped at 10, unhealthy, circuit open with its backoff from the third failure on. |
| `RedisClients.RedisClient.BeginHealthCheck` | api/redis_client.py:203-214 | False without a connection, the health flag when checked recently, otherwise a ping. |
| `RedisClients.RedisClient.EndHealthCheck` | api/redis_client.py:215-227 | The ping's outcome is recorded, and only an answered one counts as a check. |
| `RedisClients.BackoffBounds` | api/redis_client.py:182-188 | A backoff is at least 30 s and less than 360 s, and within a fifth of its nominal value. |
| `RedisClients.LaterFailuresWaitLonger` | api/redis_client.py:182-188 | One more failure lengthens the backoff whatever the jitter, if and only if there were at most five. |
| `RedisClients.OpensAtTheThirdFailure` | api/redis_client.py:172-192 | From a healthy client on, n failures in a row count min(n, 10), and the circuit is open iff n >= 3, until the last failure plus its backoff. |
| `RedisClientRuns.StepKeepsSound` | api/redis_client.py:119-227 | Every step of every coroutine keeps: healthy means no failures and a closed circuit, open means 3 to 10 failures and a backoff of 30 to 360 s. |
| `RedisClientRuns.ReachableIsSound` | api/redis_client.py:88-227 | This holds in every interleaving of calls and checks from initialisation. |
| `RedisClientRuns.FlightsExactly` | api/redis_client.py:141-227 | A call goes out iff the client is healthy, a check iff the last answered one is the interval ago; an end sets the health to its outcome, counts failures up to 10, and only an answered check is a last check. |
| `RedisClientRuns.HealsExactly` | api/redis_client.py:141-227 | A step makes an unhealthy client healthy iff it ends something in flight with an answer: a health check, or a call begun while the client was healthy. |
| `RedisClientRuns.FailuresAreCounted` | api/redis_client.py:172-201 | In every interleaving the failure count is the number of failed ends since the last answer, capped at 10. |
| `RedisClientRuns.OpensExactly` | api/redis_client.py:172-192 | A step opens the circuit iff it is at least the third failure since the last answer. |
| `RedisClientRuns.CircuitOpensExactly` | api/redis_client.py:141-227 | The circuit is open at some point of a run iff three ends fail with no answer in between. |
| `RedisClientRuns.NothingBeginsWhileUnhealthy` | api/redis_client.py:119-170 | Without checks, everything in flight between a failure and the next answer was begun before that failure. |
| `RedisClientRuns.CallsOpenExactly` | api/redis_client.py:141-192 | Without checks the circuit opens iff three calls fail that were all begun before the first failure, with no answer in between. |
| `Partitions.PartitionManager.CreatePartition` | api/partition_manager.py:114-161 | ValueError iff year or month is out of range; otherwise the month is in the catalogue, and true says it was not before. |
| `Partitions.PartitionManager.EnsurePartitionsExist` | api/partition_manager.py:164-186 | The months from now on are created up to the first year out of range, which raises and undoes nothing; the answer lists exactly the ones that were missing. |
| `Partitions.PartitionManager.DropPartition` | api/partition_manager.py:189-216 | ValueError iff out of range; otherwise the month is gone, and true says it was there. |
| `Partitions.PartitionManager.CleanupOldPartitions` | api/partition_manager.py:252-282 | Exactly the listed partitions that are to be dropped are dropped and reported; names that cannot be read or dropped are skipped. |
| `Partitions.CoversItsMonth` | api/partition_manager.py:137-150 | A partition's range holds exactly the instants of its month. |
| `Partitions.CoversInTime` | api/partition_manager.py:137-150 | The same in instants: from the first of the month on and before the first of the next. |
| `Partitions.CutoffExactly` | api/partition_manager.py:262-264 | The cutoff lies the retention months back, at the same time on the same day or the last of its month; there is none outside years 1 to 9999. |
| `Partitions.ExactlyOnePartitionHolds` | api/partition_manager.py:176-186 | Every instant from now to the end of the last month created is held by exactly one partition. |
| `Partitions.DropsExactly` | api/partition_manager.py:262-278 | A partition is to be dropped iff its year is valid and its month lies more than retention months back, or exactly that many unless now is the very start of a month. |
| `Partitions.RecentMonthsStay` | api/partition_manager.py:252-282 | The current month and the retention - 1 months before it are never dropped. |

## Left out

- QueueSafety.NoJobIsLost: promises nothing for a message whose stream passed its maximum length, nor for a settled one once more than 1000 letters were written; the exact losses are separate lemmas.
- CacheCleanups.CleanupsChangeNoAnswer: over whole runs, does not say under which equal timestamps a cleanup still stays invisible; for one eviction the condition is exact.
- RedisClientRuns: `close` and the reconnection after it; a run is one connected client.
- XCLAIM's clean-up of pending entries whose message was trimmed away is not modelled; such a claim just fails.
- Dispatch and cursor parsing: `int`, `float` and `fromisoformat` are modelled on the texts the code itself writes; Python reads more; a float is identified with its text. A cursor whose bytes are not ASCII decodes to nothing.
- Total counts, offsets other than 0, and the relevance sort in ascending order, whose query sorts against its own cursor filter.
- JobRuns: the writers of the local worker in worker/transcoder.py, the conditions on the video's status that a claim also checks, and the status, progress and quality columns.
- JobRuns: the per-segment upload route, which extends a claim like a progress report.
- Job reprocessing from the dead-letter stream (api/admin.py:9081-9106), which names a column the schema does not have.
- Archiving: a failing move during the rollback itself, parent directories, permanent deletion, and a video whose slug is "uploads", the name of the archive's own sub-directory.
- The sentence splitter: sentences are given, and titles are a parameter of the segmentation. White space and letter case in titles are those of ASCII. Metadata extraction with ffprobe.
- Uploads beyond the choice of a slug: file saving, probing, and the clean-up when they fail.
- Chapters: titles, descriptions and end-time constraints of the table; the detection timeout and its error.
- Playlists and chapters: requests are atomic except for the chapter counts, which may be outdated; two creations that read the same MAX(position) are not modelled, as the lock is taken or the statement refused.
- The related-videos cache and slug validation; rows published at the same instant stay in the order of the table.
- Redis analytics cache, pub/sub, server-sent events, sessions, rate limits, metrics, audit logs: input and output plumbing.
- Floating-point rounding: times and delays are integers or exact reals.
