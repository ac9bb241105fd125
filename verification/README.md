# Verified model of the CDN storage service

The service keeps objects in two tiers: MinIO is the local tier that requests are
served from, S3 is the archive. Uploads, the on-demand archive endpoint, the
retention sweep, the `backfill` and `restore` commands and the read fall-through
all move or delete copies, concurrently, over a network that fails. One rule is
meant to keep the data safe: a local copy goes only after the archive, asked by
name, answers with the same size.

This project models that protocol as a state machine whose every step is one
storage call of one actor, and proves what the rule buys: what is safe under any
interleaving, what is safe under short writes, and which assumptions cannot be
dropped. Around it stand the three concurrent machines (retention sweep, worker
pool, circuit breaker), the batch processor, and the string and byte code the
rest relies on.

`dafny verify dfyconfig.toml` checks everything.

## How the files fit together

- `KeyMapping.dfy`: the mapping from (bucket, key) to an archive location, and
  the listing that inverts it.
- `Tiers.dfy`: the two tiers as maps, the storage calls with their fault
  outcomes, every actor as a program counter (`Proc`, `Step`), one actor alone
  (`Solo`), any number of them interleaved (`System`, `Next`, `Run`). The outside
  world chooses for each call what it really did (`Whole`, `Nothing`, `Part(n)`),
  what it reports, and whether an archive reply carries a content length.
- `Tiering.dfy`: the sequential methods as classes and imperative code, each
  proved equal to its actor run alone. `SoloIsARun` makes every such call, uploads
  included, a run of the system, so the theorems about runs are theorems about the
  code.
- `Answers.dfy`: what every answer of these methods means, whatever the calls do;
  and what ARCHIVE_ONLY_BUCKETS, parsed in `Scope.dfy`, selects.
- `NoLoss.dfy`, `ShortWrites.dfy`: the two safety theorems, with the runs that
  break them when an assumption is dropped.
- `Schedules.dfy`: complete schedules of a pool of workers, and that they exist.
- `Commands.dfy`, `BatchArchive.dfy`, `Restore.dfy`, `Resume.dfy`: `backfill`,
  `restore` and the batch archive endpoint, over every schedule of their workers;
  interrupted runs resume.
- `RoundTrip.dfy`: archive-then-restore is the identity.
- `Options.dfy`, `Sequences.dfy`, `Strings.dfy`: the optional value, concatenation,
  and the string functions of Go's library that the code uses.
- `Retention.dfy`, `Sweep.dfy`, `Sums.dfy`: the retention pass, its counters, its
  bounded queue and its workers.
- `CircuitBreaker.dfy`, `WorkerPool.dfy`, `BatchProcessor.dfy`: the concurrent
  packages.
- `Sanitizer.dfy`, `Utf8.dfy`, `Credentials.dfy`: object names, UTF-8, and the
  path from the bucket token file to an authorised bucket.

## Where the code falls short of its documentation

Each of these is a lemma with a concrete family of inputs, with the exact condition
under which the code does what it promises in the same lemma or in the one named
beside it.

- `NoLoss.UnreportedLengthLosesAnObject`: `RestoreObject` takes the length of its
  local write from the archive's reply, and `Archive.Open` reports 0 when the
  reply has no content length. The restore then stores an empty object, and
  archiving that one replaces the good archived copy. `Stat` treats a missing
  length as unproven; `Open` does not. `NoLoss.RestoreIsExactIff` is the exact
  condition, and `NothingIsLost` needs the length only at that one call.
- `NoLoss.FallThroughNeedsTheLength`: on the read path the same 0 becomes the
  declared length of the response, so the object is served only if the reply
  carries its length.
- `ShortWrites.TwoWritersLoseAnObject`: with archive writes that may fall short,
  two archive requests for one object can lose it. `ShortWrites.RequestsAreSafeIff`:
  any number of requests for an object are safe exactly when there is at most one,
  or none evicts, or the archive verifies the object beforehand, or it is empty.
- `ShortWrites.RestoreLosesAnObject`: restoring over a truncated archived copy
  replaces the intact local one; `ShortWrites.RestoreIsSafeIff` is the condition.
- `RestoreCommand.FailedStatOverwrites`: a failed stat counts as a missing copy, so
  a restore can replace an equal-sized local copy that it would have kept;
  `RestoreCommand.RestoreResumesIff` says when rerunning a failed restore gives what
  an uninterrupted one gives. A merely killed one always does
  (`RestoreCommand.KilledRestoreResumes`).
- `Resume.BackfillNeverCountsSkipped`: docs/archive.md shows a backfill reporting
  `skipped=498`; in apply mode that counter never moves.
- `WorkerPool.ResponseMeaning`: a negative `MaxRetries` answers nil, success, for
  a task that was never called.
- `Credentials.ZeroInstantNeverExpires`: an `expires_at` at Go's zero instant is
  read back as no expiry.
- `Utf8.AcceptsBeyondRfc`: the scanner also accepts overlong forms, surrogates and
  values above U+10FFFF; `Utf8.AcceptedIsWellFormedIff`: and nothing else beyond
  RFC 3629.

`NoLoss.ReusedKeyLosesAnUpload` is not such a shortfall: it shows why uploads must
have fresh keys. The three upload handlers name every object by a new random UUID
(handler/image.go:612, 826 and 1119), which is the freshness `NoLoss.Sound` asks for.

## Model

| member | source | states |
|---|---|---|
| KeyMapping.SlashSplits | service/archive.go:271-276 | a name without `/` is recovered from `<bucket>/<key>`, whatever the key holds |
| KeyMapping.Layouts | service/archive.go:271-276 | without ARCHIVE_BUCKET the same bucket and key; with it, that bucket and the key under `<bucket>/` |
| KeyMapping.ResolveInjective | service/archive.go:271-276 | in both layouts two objects never share an archive location when bucket names have no `/` |
| KeyMapping.CollisionCondition | service/archive.go:271-276 | for any two bucket names: some keys collide if and only if the names are equal (one S3 bucket each) or one `<bucket>/` prefix extends the other (single S3 bucket) |
| KeyMapping.Walk | service/archive.go:368-383 | nothing and an error when the archive is disabled; otherwise the callback sees the listing with the prefix removed and directory markers dropped, in order, up to the first item it refuses, and the result says whether it refused, the listing broke, or all was seen |
| KeyMapping.WalkedItems | service/archive.go:368-383 | an item is yielded if and only if its key is non-empty and prefix plus key is listed at that size; no key twice |
| KeyMapping.WalkInvertsResolve | service/archive.go:368-383 | `Walk(b)` yields (k, n), once, if and only if the archive stores n bytes where (b, k) resolves: the exact inverse of `resolve` |
| KeyMapping.WalkStaysInBucket | service/archive.go:368-383 | nothing listed for a bucket belongs to another, even when one name is a prefix of the other |
| Scoping.ParseBucketScope | service/archive.go:29-40 | the buckets of the list are exactly the non-blank, trimmed parts between commas; with none of these there is no limit |
| Scoping.ConfiguredScope | service/archive.go:248-257 | a bucket is in scope if and only if the archive is enabled and the list names it or names none |
| Strings.SplitJoins | service/archive.go:29-40 | the parts, joined by the separator, are the list |
| Tiers.ArchiveUndisturbed | service/tiering.go:184-249 | a fault-free `ArchiveKnownObject` leaves the archive with a verified copy, writing only when there was none, and removes the local copy exactly when evicting |
| Tiers.RestoreUndisturbed | service/tiering.go:265-318 | a fault-free restore leaves an equal-sized local copy alone and otherwise makes it the archived bytes |
| Tiers.SoloIsARun | service/tiering.go:159-318 | every sequential call, uploads included, made by any actor of any system, is a run of that system with the same result, tiers and upload history |
| Tiers.ActorsCanStart | service/tiering.go:159-318 | every operation can be started on every bucket with a valid name, the sweep exactly on the buckets in scope |
| Schedules.OneByOne | cmd/backfill/main.go:218-252 | for any work list there is a complete fault-free schedule that starts exactly those actors in order: the theorems about complete schedules are never empty |
| Tiering.Archive.Stat | service/archive.go:385-406 | the size; absent; or unreachable, which also covers a reply without a content length and a disabled archive |
| Tiering.Archive.Open | service/archive.go:293-312 | the stored bytes with their reported length, 0 when the reply carries none; not found and other failures apart |
| Tiering.Archive.Put | service/archive.go:278-291 | refuses when the archive is disabled or ARCHIVE_ONLY_BUCKETS excludes the bucket, otherwise stores at the resolved location; its report and its effect may differ |
| Tiering.Service.VerifyArchived | service/tiering.go:133-146 | true exactly when the archive, reached, reports the local size; not archived exactly when it is reached and has nothing; an error exactly when it is not reached or reports no size |
| Tiering.Service.CopyToArchive | service/tiering.go:339-350 | stores the local bytes under the object's location, and nothing when the local copy cannot be read |
| Tiering.Service.ArchiveKnownObject | service/tiering.go:184-249 | for every sequence of call outcomes: result and both tiers are those of its actor run alone (verify, copy, verify again, evict) |
| Tiering.Service.ArchiveObject | service/tiering.go:159-175 | likewise, including the stat and the archive's word for an object no longer local |
| Tiering.Service.RestoreObject | service/tiering.go:265-318 | likewise for stat, open and the local write |
| Tiering.Service.Upload | handler/image.go:130-162 | likewise for the local write followed by the rewound archive write, whose failure does not fail the upload |
| Tiering.Service.Read | handler/image.go:470-490 | likewise for the read that falls through to the archive when the local copy is missing or empty, its response cut to the length the reply carries; changes nothing |
| Answers.VerifyAnswers | service/tiering.go:133-146 | each of the four reasons, exactly |
| Answers.UploadAnswers | handler/image.go:130-162 | whatever the calls do: failed exactly when the local write was not acknowledged; uploaded exactly when every write it owes was, the archive write being owed exactly by a selected bucket; which tiers then hold the content |
| Answers.UploadArchives | handler/image.go:152-162 | a fault-free upload ends in local storage and, in a selected bucket, at its archive location, written exactly once; in any other bucket the archive is unchanged |
| Answers.ArchiveKnownAnswers | service/tiering.go:184-249 | whatever the calls do and report: archived, kept and not-in-scope are each answered exactly when they should be; a confirmed object is in the archive at its size; the local copy goes exactly when confirmed, evicting, and removed; the archive changes only by one copy of the local bytes |
| Answers.SuccessIsTrue | service/tiering.go:213-248 | a success answer is true of the archive at the end; an object that is not in the archive at its size is answered failed and stays local |
| Answers.ArchiveObjectAnswers | service/tiering.go:159-175 | a local object is archived as one of known size; otherwise nothing changes and already-archived is answered exactly when the archive reports the object |
| Answers.RestoreAnswers | service/tiering.go:265-318 | whatever the calls do: each answer, exactly; the archive never changes, and local storage only by the archived bytes of this object |
| Answers.SweepAnswers | service/retention.go:215-241 | whatever the calls do: removed only when live and verified, and answered so exactly when the removal reported success |
| Answers.ReadAnswers | handler/image.go:470-490 | whatever the calls do: the local copy when its stat finds one that is not empty, else the archived one, interrupted or unavailable exactly when neither can be had |
| Answers.UnselectedIsUntouched | service/archive.go:248-257 | over every run of every system, whatever fails: while the archive is disabled or ARCHIVE_ONLY_BUCKETS does not name the bucket, nothing of it is written to the archive and no local copy of it is removed |
| Answers.SelectedIsArchived | service/tiering.go:159-249 | with the archive enabled and the bucket named, or none named: a fault-free request for a local object ends with it archived, and evicted when asked |
| NoLoss.ArchivePutIsSafe | service/archive.go:278-291 | an all-or-nothing archive write of an object's own bytes keeps every object safe, in both layouts |
| NoLoss.LocalRemoveIsSafe | service/tiering.go:237-245 | removing a local copy is safe whenever the archive holds the object, whatever the call reports |
| NoLoss.QuietStepIsSafe | service/tiering.go:159-318 | a reading step changes no tier and moves its actor only to a program point whose condition already holds: past verification means archived |
| NoLoss.WritingStepIsSafe | service/tiering.go:184-318 | a writing step of any actor keeps every uploaded object held, and the archive only grows |
| NoLoss.StaysSafe | service/tiering.go:184-249 | no other actor's step invalidates what an actor relies on between its own steps |
| NoLoss.NextKeepsInvariant | service/retention.go:215-241 | every step of every interleaving, crashes and new actors included, keeps the invariant |
| NoLoss.EmptyStart | service/tiering.go:103-109 | a deployment that starts empty starts in the invariant |
| NoLoss.UploadIsARun | handler/image.go:130-162 | the assumptions of the safety theorem can be met: a fault-free upload is such a run |
| NoLoss.NothingIsLost | service/tiering.go:159-318 | over every run of uploads, archives, sweeps, backfills, restores and reads with arbitrary failures and crashes: each uploaded object keeps its exact bytes in at least one tier, no tier holds other bytes for it, and what the archive holds stays |
| NoLoss.AnswersAreTrue | service/tiering.go:159-318 | on every run, whatever fails: an actor that answers archived, kept, already archived or swept does so of an object the archive then holds and goes on holding; no read serves bytes other than the upload's |
| NoLoss.ReadPicksATier | handler/image.go:470-490 | the first call of a read of a non-empty object chooses a tier that holds it, also without an archive when the object is local |
| NoLoss.EitherTierServes | handler/image.go:470-490 | the second call serves the uploaded bytes from either tier; a local copy evicted in between is then in the archive |
| NoLoss.FallThroughNeedsTheLength | handler/image.go:452-490 | a successful fall-through read of a non-empty object returns the upload if and only if the archive's reply carries its length |
| NoLoss.ReadReturnsUpload | handler/image.go:470-490 | a fault-free read of a non-empty object, with any run between its two calls, returns the uploaded bytes, or is interrupted because the copy was evicted meanwhile and the archive holds it |
| NoLoss.QuietReadReturnsUpload | handler/image.go:470-490 | a read nobody interferes with returns the uploaded bytes |
| NoLoss.UnreportedLengthLosesAnObject | service/tiering.go:280-313 | for every non-empty content, a restore whose archive reply has no length, then an archive call, leaves no copy of the bytes |
| NoLoss.RestoreIsExactIff | service/tiering.go:274-313 | a restore whose calls all succeed leaves the archived bytes local if and only if an equal-sized local copy was right already or, without one, the reply carried its length or there was nothing to copy |
| NoLoss.ReusedKeyLosesAnUpload | service/retention.go:215-241 | why keys must be fresh: for any two different contents of one size, a second upload under one key whose archive write failed would be swept away; the handlers' random names (handler/image.go) rule this out |
| ShortWrites.SizeCheckIsContentCheck | service/tiering.go:133-146 | while archived copies are prefixes, a matching size means equal bytes, and the two negative answers mean not fully archived |
| ShortWrites.ArchivePutIsSafe | service/tiering.go:201-209 | a short or failed archive write of an object not yet fully archived keeps every object safe and touches no other object's copy |
| ShortWrites.QuietStepIsSafe | service/tiering.go:201-234 | a reading step establishes what its next program point needs: an evicting actor's object is archived byte for byte |
| ShortWrites.WritingStepIsSafe | service/tiering.go:201-245 | a writing step never overwrites a full archived copy |
| ShortWrites.NextKeepsInvariant | service/retention.go:215-241 | every admitted step of every interleaving keeps the invariant |
| ShortWrites.EvictedMeansFullyArchived | service/tiering.go:201-245 | with archive writes that may store any prefix and report anything: every object without a local copy is archived byte for byte, and a full archived copy is never overwritten afterwards |
| ShortWrites.AnswersAreTrue | service/tiering.go:184-249 | under short writes: an actor that answers archived, kept or swept does so of an object the archive then holds in full and goes on holding |
| ShortWrites.SequentialRunsAreAdmitted | service/tiering.go:159-249 | every sequential run without restore meets that theorem's one-writer assumption |
| ShortWrites.TwoWritersLoseAnObject | service/tiering.go:159-249 | from two archive requests for one local object, started together, a schedule of calls that all report success, one of them a short write, leaves only a truncated copy |
| ShortWrites.RequestsAreSafeIff | service/tiering.go:159-249 | any number of archive requests for one local object, started together, under all schedules, call outcomes and kills: the object stays safe on every run if and only if there is at most one request, or none evicts, or the archive already verifies it, or it is empty |
| ShortWrites.RequestStages | service/tiering.go:184-249 | in each of those settings, at every point of every run, each request relies only on what stays true, and a verified copy is never truncated |
| ShortWrites.RestoreLosesAnObject | service/tiering.go:274-313 | restoring over a truncated archive copy replaces the intact local one |
| ShortWrites.RestoreIsSafeIff | service/tiering.go:265-318 | under short writes a fault-free restore keeps its object if and only if a copy still local has the archived size, which `RestoreObject` tests; that is the case exactly when the archive holds it in full |
| Commands.Counters.HandleBackfill | cmd/backfill/main.go:254-284 | tiers and counters after one object, for every call outcome |
| Commands.Counters.HandleRestore | cmd/restore/main.go:191-216 | tiers and counters after one object, for every call outcome |
| Commands.Counters.FeedBackfill | cmd/backfill/main.go:233-247 | the listing loop queues the objects of a prefix of the listing, in order, counts its errors as failed, and leaves off early only when interrupted or at an object once the limit is reached |
| Commands.Counters.FeedRestore | cmd/restore/main.go:144-189 | nothing is queued unless the local bucket is ready; then a prefix of what `Walk` yields, cut only by an interruption or the limit; the run is an error exactly when the bucket cannot be made or, uninterrupted, the archive is disabled or the walk breaks |
| Commands.ObjectsAreListed | cmd/backfill/main.go:233-247 | each object is queued as often as it is listed |
| Commands.BackfillOneAnswers | cmd/backfill/main.go:254-284 | whatever the calls do: local storage is untouched, exactly one of uploaded and failed goes up, and uploaded only when the archive has the object at its size |
| Commands.RestoreOneAnswers | cmd/restore/main.go:191-216 | whatever the calls do: the archive is untouched and exactly one counter goes up, each exactly when it should |
| Commands.BackfillTally | cmd/backfill/main.go:273-283 | over any results: uploaded counts the archived-kept answers, with their bytes, skipped the already-archived ones, and every other is failed |
| Commands.RestoreTally | cmd/restore/main.go:205-215 | over any results: restored counts the restored answers, with their bytes, skipped the already-local ones, and every other is failed |
| BatchArchive.PresentStep | service/tiering.go:159-249 | each fault-free call of an archive request takes its object to the next stage of verify, copy, verify, evict and touches no other object |
| BatchArchive.OthersKeepTheirPoint | service/archive.go:271-276 | no request invalidates what another relies on, for another object in either layout or for the same one |
| BatchArchive.BatchStages | handler/archive.go:136-175 | at every point of every schedule each object is as it was or archived, gone only if archived by a request that has answered so, and only started objects have changed |
| BatchArchive.BatchArchives | handler/archive.go:136-175 | for every complete schedule and any keys, repeated and absent ones included, evicting or not: each local object ends archived (its local bytes, or the copy already verified) and leaves local storage exactly when evicting; nothing else changes; each answer stands at its own index and says the work was done unless another request for the same key evicted first, and for an object that was not local whether the archive has it |
| RestoreCommand.RestoreStages | cmd/restore/main.go:144-216 | at every point of every schedule of restore workers, killed or not, the archive and all other objects are untouched, and each walked key is as it was or as a restore leaves it |
| RestoreCommand.WholeRestore | cmd/restore/main.go:144-216 | every complete schedule, whatever is local already: an equal-sized copy is kept and reported as already local, every other walked key has exactly its archived bytes, nothing else changes |
| RestoreCommand.RestoreCounts | cmd/restore/main.go:191-216 | the counters of a complete run with each key walked once: none failed, restored are exactly the keys without an equal-sized copy at the start, the others skipped, and the bytes are those of the restored |
| RestoreCommand.KilledRestoreResumes | cmd/restore/main.go:144-216 | a restore killed anywhere on any schedule and then run as a whole leaves both tiers as one uninterrupted restore does |
| RestoreCommand.RestoreResumesIff | service/tiering.go:274-313 | after a first run with any failures, missing lengths and kills, a whole run always leaves the local tier of one uninterrupted run if and only if equal-sized local copies of the walked keys equal the archived ones |
| RestoreCommand.FailedStatOverwrites | service/tiering.go:274-313 | a restore whose stat fails replaces even an equal-sized local copy |
| RoundTrip.ItemsAreKeys | service/archive.go:368-383 | after the eviction `Walk` finds exactly the evicted keys |
| RoundTrip.ArchiveThenRestoreIsIdentity | service/tiering.go:159-318 | in both layouts and for all schedules of both pools, from an archive holding nothing for an in-scope bucket: evicting the whole bucket and restoring what `Walk` finds gives back exactly the local tier, other buckets included, and loses nothing from the archive |
| Resume.BackfillStages | cmd/backfill/main.go:218-284 | at every point of every schedule of backfill workers, with any faults, short writes and kills, the local tier is untouched and an archived copy is as before or a prefix of a local object that was not archived |
| Resume.SettledStep | service/tiering.go:184-249 | a fault-free backfill worker past its write has a verified object, and ends saying so |
| Resume.WholeStages | cmd/backfill/main.go:218-284 | in every fault-free schedule, at every point, a finished object is verified and stays so whatever the other workers do |
| Resume.BackfillArchives | cmd/backfill/main.go:218-284 | every complete schedule, with any number of workers, archives exactly what was not archived, leaves local storage as it is, and every worker ends with archived and the size of its object |
| Resume.BackfillCounts | cmd/backfill/main.go:254-284 | the counters of a complete run: uploaded equals scanned, none skipped or failed, and the bytes are those of the listed objects |
| Resume.InterruptedBackfillResumes | cmd/backfill/main.go:218-284 | however the first run was scheduled, failed, wrote short or was killed, the second, on any schedule, leaves the archive of a single uninterrupted run on any schedule, and the local tier of the start |
| Resume.UploadStages | service/tiering.go:196-209 | in every fault-free schedule, at every point, exactly the objects that have become verified were uploaded, once each |
| Resume.NothingUploadedTwice | cmd/backfill/main.go:218-284 | for every schedule of both runs and every kill in the first: across both an object is uploaded exactly once if it was not archived and never if it was |
| Resume.BackfillNeverCountsSkipped | cmd/backfill/main.go:273-283 | on every schedule, whatever fails and whatever the archive held, no object's result is one that apply mode counts as skipped |
| Retention.Counters.VerifyArchived | service/retention.go:271-300 | true exactly when verified; otherwise the one counter of the reason goes up |
| Retention.Counters.Process | service/retention.go:215-241 | tiers and counters are those of the sweep actor run alone, live and dry, for every call outcome |
| Sweep.TargetBuckets | service/retention.go:304-327 | exactly the candidates that the enabled archive's ARCHIVE_ONLY_BUCKETS names, or all when it names none |
| Sweep.TargetsStayDistinct | service/retention.go:304-327 | distinct candidates stay distinct targets |
| Sweep.NextKeepsShape | service/retention.go:169-209 | there are as many workers as RETENTION_MAX_CONCURRENT says and at least one, the queue never holds more than four objects for each, and it is closed only when nothing is left to send |
| Sweep.ProducerWaitsForRoom | service/retention.go:179-205 | the producer waits exactly while four objects per worker are queued |
| Sweep.ProducerKeepsBalance | service/retention.go:174-209 | the producer's steps keep eligible = counted + in flight |
| Sweep.WorkerKeepsBalance | service/retention.go:215-241 | the workers' steps keep it too |
| Sweep.CountersAreConserved | service/retention.go:174-265 | in every reachable state, for every schedule, answer, failure and cancellation: eligible = deleted + not archived + size mismatch + errors outside listing + being sent + queued + held by workers; bytes freed is the sum of the sizes counted deleted; the removals are those counted, none in a dry run |
| Sweep.ReturnedCountersBalance | service/retention.go:174-265 | at return, cancelled or not, nothing is in flight and the snapshot balances |
| Sweep.CountersCountEvents | service/retention.go:215-300 | over every run, whatever fails: each counter says how often its event happened: kept objects under their reason, failed removals as errors, successful ones (in a dry run verified objects) as deleted |
| Sweep.CancellationStops | service/retention.go:174-177 | a pass cancelled before a bucket returns at once with what it has; a pass that is not returns only when no bucket is left |
| Sweep.ProducerStepsDecrease | service/retention.go:169-209 | every producer step lowers the measure |
| Sweep.WorkerStepsDecrease | service/retention.go:169-241 | every worker step lowers it |
| Sweep.EveryRunIsBounded | service/retention.go:169-209 | no schedule is longer than a bound fixed by the listing and the worker count |
| Sweep.NeverStuck | service/retention.go:169-209 | with at least one worker and a queue of four per worker, every state before return has an enabled step: no deadlock |
| Sweep.PassCompletes | service/retention.go:146-212 | from every well-formed state the pass can be run to its return |
| Sweep.NextPreservesTotal | service/retention.go:174-241 | each step moves one object's contribution from pending to observed and changes no total |
| Sweep.PassIsAFilter | service/retention.go:146-212 | for every worker count and schedule, each counter and each object's removal count of a completed pass are those of a sequential filter over the listings |
| Sweep.BucketRemoves | service/retention.go:192-206 | within a bucket of distinct keys the filter removes an object once if old enough and archived at its size, otherwise never |
| Sweep.LivePassRemovesExactly | service/retention.go:146-241 | a live pass removes exactly the in-scope objects older than the window with a matching archived size, each once, on every schedule |
| Sweep.WorkersAreActors | service/retention.go:215-241 | each step of a sweep worker is the step of its actor on the tiers, and the result it ends with is what gets counted |
| Sweep.TierTellsHistory | service/retention.go:215-241 | over any run an object is gone from local storage exactly when a removal of it succeeded, and what stays is unchanged |
| Sweep.LivePassLeavesTheRest | service/retention.go:146-241 | local storage after a live pass whose listings are local storage itself, on every schedule: exactly the objects in scope, older than the window and archived at their local size are gone, each removed once; all others are unchanged |
| Sweep.DryRunForecastsLiveRun | service/retention.go:215-241 | a dry run reports all the numbers a live pass would, whatever the two schedules, and removes nothing |
| CircuitBreaking.CircuitBreaker.Before | pkg/circuitbreaker/circuit_breaker.go:63-89 | the admission decision and the whole new state |
| CircuitBreaking.CircuitBreaker.Handle | pkg/circuitbreaker/circuit_breaker.go:97-111 | the whole state after a result, in each state |
| CircuitBreaking.CircuitBreaker.OnSuccess | pkg/circuitbreaker/circuit_breaker.go:113-124 | the whole state after a success |
| CircuitBreaking.CircuitBreaker.OnFailure | pkg/circuitbreaker/circuit_breaker.go:126-137 | the whole state after a failure |
| CircuitBreaking.CircuitBreaker.SetStateAt | pkg/circuitbreaker/circuit_breaker.go:139-151 | a state change resets both counters and the clock |
| CircuitBreaking.CircuitBreaker.AfterExecute | pkg/circuitbreaker/circuit_breaker.go:91-95 | one request fewer is active and nothing else changes |
| CircuitBreaking.TrailingFailuresMeaning | pkg/circuitbreaker/circuit_breaker.go:126-133 | the failure count is at least n exactly when the last n recorded results are failures |
| CircuitBreaking.NextKeepsInvariant | pkg/circuitbreaker/circuit_breaker.go:50-151 | every call, result and finish keeps counters, history and active requests in step |
| CircuitBreaking.CountersTellHistory | pkg/circuitbreaker/circuit_breaker.go:63-143 | in every interleaving the counters are the current run of failures (closed) or successes (half-open) since the last change, below their thresholds, zero when open; activeRequests counts admitted, unfinished calls within 0 and the limit |
| CircuitBreaking.ResultsMoveTheState | pkg/circuitbreaker/circuit_breaker.go:113-137 | closed opens exactly on the failureThreshold-th consecutive failure; half-open opens on any failure and closes exactly after successThreshold results, all successes; open ignores late results |
| CircuitBreaking.StateChangesAreStamped | pkg/circuitbreaker/circuit_breaker.go:139-143 | a state change, and nothing else, restarts the clock |
| CircuitBreaking.AdmissionExactly | pkg/circuitbreaker/circuit_breaker.go:63-89 | in every reachable state, for any settings: a call runs if and only if the breaker is not open within its timeout and fewer than the limit of admitted calls are unfinished; each refusal for exactly its reason; the only state change is open to half-open past the timeout |
| CircuitBreaking.OpenAdmitsNothing | pkg/circuitbreaker/circuit_breaker.go:63-89 | from a trip to the end of the timeout, on every interleaving, each new call is refused as open and late results change neither state nor counters |
| CircuitBreaking.RefusedStaysRefused | pkg/circuitbreaker/circuit_breaker.go:50-53 | a refused call never runs |
| CircuitBreaking.SuccessesCloseTheBreaker | pkg/circuitbreaker/circuit_breaker.go:63-124 | an idle tripped breaker whose timeout is over recovers: half-open and counting for fewer than successThreshold successful calls, closed with clean counters after exactly that many |
| CircuitBreaking.OneFailureReopensTheBreaker | pkg/circuitbreaker/circuit_breaker.go:63-137 | a failure after any smaller number of successes opens it again and restarts the timeout |
| WorkerPool.RunJob | pkg/worker/pool.go:141-179 | attempts stop at the first success or after MaxRetries + 1; the response is nil as the last attempt says |
| WorkerPool.ResponseMeaning | pkg/worker/pool.go:141-179 | with MaxRetries at least 0: nil if and only if some attempt succeeded, an error if and only if all MaxRetries + 1 failed; with a negative MaxRetries: nil without an attempt |
| WorkerPool.NextKeepsPlaces | pkg/worker/pool.go:101-134 | no step duplicates or loses an accepted job |
| WorkerPool.NextKeepsCount | pkg/worker/pool.go:101-179 | every step keeps accepted = queued + running + answered + dropped |
| WorkerPool.NextKeepsRetries | pkg/worker/pool.go:141-179 | no step exceeds the retry limit or the queue size, or drops a job before shutdown |
| WorkerPool.JobsAreConserved | pkg/worker/pool.go:101-179 | in every schedule: each accepted job in exactly one place, accepted = queued + running + answered before shutdown, queue within its size, every answered job tried as the retry policy says |
| WorkerPool.JobsAreTakenInOrder | pkg/worker/pool.go:101-134 | whatever the schedule, jobs are received in the order they were accepted |
| WorkerPool.ResponsesAreTheAttempts | pkg/worker/pool.go:141-179 | over every schedule a response carries exactly what its job's attempts returned, in order |
| WorkerPool.EveryJobIsAnswered | pkg/worker/pool.go:120-179 | from every reachable state of a pool with a worker that is not stopping, whatever the tasks return, the workers can go on until every accepted job has its response, in a bounded number of steps |
| WorkerPool.WorkDecreases | pkg/worker/pool.go:120-179 | every step of a worker lowers that bound, so no schedule of them is longer |
| WorkerPool.HeldJobIsPending | pkg/worker/pool.go:174-178 | a job still with a worker has not been answered or dropped |
| WorkerPool.StartIsSound | pkg/worker/pool.go:53-72 | a new pool satisfies the invariant |
| WorkerPool.SubmissionsAreAccepted | pkg/worker/pool.go:101-117 | a submission is accepted exactly when the queue has room, or is empty with a worker waiting, and goes last |
| WorkerPool.OneResponsePerJob | pkg/worker/pool.go:174-178 | a response, once given, is never given again or changed |
| BatchProcessor.ProcessBatches | pkg/batch/processor.go:89-127 | for every event sequence: the batches handed on, the partial batch and whether the loop returned are those of the event machine |
| BatchProcessor.BatchesPartitionItems | pkg/batch/processor.go:89-127 | for every schedule of arrivals, ticks and shutdown: batches followed by the partial batch are the dequeued items in order, each in one batch |
| BatchProcessor.BatchSizes | pkg/batch/processor.go:89-127 | every batch has 1 to BatchSize items, and nothing dequeued is unflushed at exit |
| BatchProcessor.ReturnsOnShutdown | pkg/batch/processor.go:95-125 | the loop returns on a closed channel or a cancelled context and on nothing else |
| BatchProcessor.DequeuesUntilShutdown | pkg/batch/processor.go:95-109 | until then every arrival is dequeued, in order, and nothing afterwards |
| BatchProcessor.TickAndShutdownFlush | pkg/batch/processor.go:96-101 | a tick or a shutdown hands on everything that waits as one batch, and never an empty one |
| BatchProcessor.ArrivalWaitsOrFills | pkg/batch/processor.go:104-109 | an arrival joins what waits, and the batch goes at once when that fills it and only then |
| BatchProcessor.BurstFillsBatches | pkg/batch/processor.go:104-109 | without tick or shutdown only size flushes: all batches are full and fewer than BatchSize items wait |
| BatchProcessor.FailedItems | pkg/batch/processor.go:168-174 | exactly the failed items, in order |
| BatchProcessor.NoFailuresLeft | pkg/batch/processor.go:139-158 | the loop's count of failures is zero exactly when every item succeeded |
| BatchProcessor.FailuresAreNextRound | pkg/batch/processor.go:167-175 | the failures of round k are exactly the items that failed every round up to k |
| BatchProcessor.ProcessBatchWithRetry | pkg/batch/processor.go:129-180 | for any verdict by round, position and item: round k receives exactly the items that failed all earlier rounds, at most MaxRetries + 1 rounds run, and the loop stops early only when everything left has succeeded |
| BatchProcessor.RoundMembership | pkg/batch/processor.go:129-180 | an item is in round k if and only if it was in the batch and failed rounds 0 to k-1: a success is never resubmitted |
| Sanitizer.SanitizeObjectName | service/util.go:278-349 | the loop over `__` terminates, and the result equals one-pass collapsing of underscore runs between filter and trim |
| Sanitizer.ReplacingShortens | service/util.go:335-338 | each pass over a string with `__` makes it strictly shorter |
| Sanitizer.ReplacingKeepsCollapse | service/util.go:335-338 | a pass of non-overlapping replacements keeps the collapsed form, so the fixpoint is that form |
| Sanitizer.SanitizedIsNormal | service/util.go:278-349 | for every input the result is non-empty printable ASCII without space or removed character, has no `__`, and neither starts nor ends with `_` or `.` |
| Sanitizer.NormalNamesAreFixed | service/util.go:278-349 | a name is left alone if and only if it has that form |
| Sanitizer.SanitizingIsIdempotent | service/util.go:278-349 | sanitizing twice is sanitizing once |
| Sanitizer.AccentsAreFolded | service/util.go:279-315 | each accented letter becomes its plain one |
| Sanitizer.EachCharacter | service/util.go:279-330 | which characters are kept, which become an underscore and which are dropped, exactly |
| Sanitizer.SanitizingKeepsTheRest | service/util.go:278-349 | apart from underscores and dots every rewritten character is kept, in order; when there is none the name is `file` |
| Utf8.IsValidUTF8 | pkg/validator/file.go:315-347 | the in-place scan decides the recursive scan |
| Utf8.IsValidUTF8Text | pkg/validator/file.go:293-312 | text is scanned content without a zero byte |
| Utf8.AcceptsExactlySplits | pkg/validator/file.go:315-347 | accepted if and only if the bytes split into a lead byte and the continuations it announces, again and again |
| Utf8.SplitIsUnique | pkg/validator/file.go:315-347 | there is at most one such split |
| Utf8.ScanOfConcatenation | pkg/validator/file.go:315-347 | after an accepted prefix the whole is accepted exactly when the rest is |
| Utf8.GroupsVersusRfc | pkg/validator/file.go:321-343 | a UTF8-char of section 4 of RFC 3629 is exactly a group that is not overlong, a surrogate or above U+10FFFF |
| Utf8.AcceptsAllOfRfc | pkg/validator/file.go:315-347 | every UTF8-octets string of section 4 of RFC 3629 is accepted |
| Utf8.AcceptedIsWellFormedIff | pkg/validator/file.go:315-347 | an accepted string is well-formed by RFC 3629 if and only if none of its groups is of those three kinds |
| Utf8.AcceptsBeyondRfc | pkg/validator/file.go:315-347 | one accepted, ill-formed string of each kind: an overlong NUL, a surrogate, and U+110000 |
| Credentials.ValidNamesHaveNoSeparator | pkg/bucket/name.go:22-30 | a valid bucket name has neither `/` nor `:`, on which the key mapping and the credential rest |
| Credentials.NameBoundaries | pkg/bucket/name.go:22-30 | names of 3 and 63 characters are valid and of 2 and 64 not; neither is a leading or trailing `-`, a capital, `_`, `.`, `/` or `:` |
| Credentials.SecretBoundaries | pkg/config/tokens.go:21-21 | an ASCII secret of 32 characters is long enough and one of 31 is not |
| Strings.TrimSpaceMeaning | pkg/config/tokens.go:140-141 | trimming takes away space at both ends and nothing else |
| Strings.ByteLengthOfOne | pkg/config/tokens.go:146-148 | a character counts one to four bytes by the ranges of section 3 of RFC 3629 |
| Strings.ByteLengthBounds | pkg/config/tokens.go:146-148 | a token has as many bytes as characters exactly when it is ASCII |
| Credentials.CheckEntry | pkg/config/tokens.go:139-168 | an entry passes if and only if name, length and expiry are sound and its bucket is new; otherwise the error is that of its first failing check |
| Credentials.LoadingMeaning | pkg/config/tokens.go:138-171 | adding entries one at a time refuses exactly the files with an unsound or repeated entry and otherwise builds the table in which every entry, and nothing else, has its credential |
| Credentials.LoadEntries | pkg/config/tokens.go:138-171 | all entries are loaded, one credential a bucket, or the file is refused: exactly when one is unsound or a bucket is named twice, and then for the first entry and check that fail |
| Credentials.TokenStore.LoadBucketTokens | pkg/config/tokens.go:114-174 | all or nothing, whatever was loaded before; missing and blank files load as no credentials, unreadable and unparseable ones fail as such, and a refused file names its first fault |
| Credentials.LoadabilityIgnoresOrder | pkg/config/tokens.go:138-171 | a reordered file loads too |
| Credentials.TableIgnoresOrder | pkg/config/tokens.go:138-171 | and gives the same table |
| Credentials.PairSplits | service/principal.go:58-73 | the sent credential is cut at the bucket's colon even when the secret contains colons |
| Credentials.PairIsTrimmed | service/principal.go:58-73 | trimming leaves a loaded credential as it is |
| Credentials.BearerOf | service/principal.go:34-45 | `Bearer x` yields x if and only if x has no space |
| Credentials.LoadedCredentialOpensItsBucket | service/principal.go:34-73 | the header `Bearer name:secret` of a loaded entry resolves to exactly its bucket if and only if the secret has no space, the pair is not the general TOKEN, and the entry has not expired |
| Credentials.GeneralTokenIsNeverReinterpreted | service/principal.go:58-73 | a presented credential without a space is granted as general if and only if it equals TOKEN up to surrounding space and TOKEN is not blank, even when it reads like a bucket pair |
| Credentials.ScopedCallersAreConfined | service/principal.go:58-73 | for every header: a bucket is granted only for a presented secret with the digest of a loaded, unexpired entry of that bucket |
| Credentials.RequestsStayInScope | handler/bucket_context.go:28-44 | whatever a scoped caller sends as header and bucket name, the bucket it acts on is non-empty and is that of a loaded, unexpired entry with the digest of the secret it presented |
| Credentials.ScopedCallersReachTheirBucket | handler/bucket_context.go:28-44 | a loaded, unexpired credential gives access to its own bucket, asked for by name or not at all, and to no other |
| Credentials.GeneralCallersReachAnyBucket | handler/bucket_context.go:28-34 | the general TOKEN gives access to whatever bucket is asked for, up to surrounding space, or to none |
| Credentials.ZeroInstantNeverExpires | pkg/config/tokens.go:193-199 | from the header on: a loaded entry with an expiry opens its bucket at time t if and only if t is before the expiry or the expiry is Go's zero instant |

## Left out

- HTTP handling, JSON and multipart parsing, websocket, metrics, logging, tracing
  and environment reading: plumbing. Configuration values are parameters.
- The AWS SDK, minio-go, Redis and ImageMagick: a tier is stat, put, open, remove
  and list with the outcomes above. Local writes are stored whole or not at all.
- Glacier vaults, the asynchronous download job map and the resize arithmetic.
- Deliberate deletes: no upload is deleted by a caller in the modelled runs.
- The bounded queue between the listing loops of the commands and their workers:
  the theorems hold for any interleaving of any number of workers, which includes
  those a queue allows; the queue itself is proved in `Sweep`, whose shape it has.
- BatchArchives: the batch's files are already keys (`normalizeObjectKey` and
  `keyFromURL` depend on URL decoding) of a bucket in scope.
- The commands' dry runs. The comment on `restore`'s says it transfers nothing, but
  its code calls `RestoreObject`, which does.
- Read: the resizing branch of `GetImage`, which reads the whole stream.
- NothingIsLost: local keys are never reused and archive writes are all or nothing;
  what happens without these assumptions is in the lemmas listed above.
- EvictedMeansFullyArchived: excludes restore and two archive writers of one object
  at a time, for the same reason.
- Archive buckets with a `/` in their name: the name grammar (pkg/bucket/name.go)
  excludes them; `KeyMapping.CollisionCondition` says what they would cost.
- JobsAreConserved: after shutdown a job may stay queued for ever or its response
  may be dropped, as in the code; the retry delays and the 30-second limit of
  `Stop` are not modelled.
- BatchesPartitionItems: items still in the channel at shutdown are never dequeued,
  as in the code. Concurrency of the processor's own callback is not modelled, and
  ProcessBatchWithRetry takes a processor that returns the items it was given.
- CountersTellHistory: thresholds are at least 1, and the clock does not go back.
- SHA-256 and the RFC 3339 parser are parameters; confinement is stated on digests.
  Strings are sequences of code points, and bytes that are not valid UTF-8 enter
  the sanitizer as U+FFFD.
- The destination checks, the placeholder checks on TOKEN and the expiry warnings:
  they only report.
