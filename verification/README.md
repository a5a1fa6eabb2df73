# Verified models of the Snapdragon runtime

Dafny models of the parts of Snapdragon where the logic is hard, with proofs of what they promise.
Every operation that updates state in place is a class or a method proved against a function on
values; the theorems are lemmas about those functions, so they hold of the methods as well.

- `JobTypes`, `JobTables`, `JobStore`, `JobInvariant`, `JobHistory`, `JobAnswers`: the gateway's durable store. Three
  tables (jobs, leases, workers) as maps, nine operations as atomic steps. The tables agree throughout a
  run exactly if the id of a running job is never enqueued again, attempts are accounted for, a cancelled job
  stays cancelled exactly if its id is never enqueued again, and a waiting job is overtaken only by better jobs,
  or once by each equal one that was ahead already.
- `ChatAdapter`, `ChatRoundTrip`, `ChatAnswers`: the `[[ ## field ## ]]` wire format. Parsing what was rendered gives
  the object back exactly when its texts are trimmed, hold no opener, and are not read as null.
- `SnapshotStream`: server-sent frames and the incremental decoder, under every way of cutting the bytes
  into chunks (section 9.2 of the WHATWG HTML standard).
- `UrlMatch`: the backtracking glob that remembers one star. `RobotsPattern`, `RobotsParse`, `RobotsLooks`,
  `RobotsVerdict`: patterns, groups and the choice of the rule of robots.txt (sections 2.2.1 to 2.2.3 of
  RFC 9309).
- `Entities`, `Schedules`, `Runner`, `RunSafety`, `RetryRisk`, `RunAnswers`: the interpreter of nested loops and retries,
  with systems and host as arbitrary oracles.
- `Bits`, `Accumulator`, `Base32`, `Base64`: bit accumulators that are never masked, against sections 4, 5
  and 6 of RFC 4648.
- `StableSorting`, `MixedPlan`, `MixedSampler`, `MixedRefill`, `GepaMemory`, `ParetoFront`: largest-remainder allocation, the
  refilling sampler, the bounded best/worst memory and the Pareto front. Scores and weights are real numbers.
- `TextCache`: the least-recently-used cache with a count and a byte budget, and text measurement over it.
- `RestartWindow`: the two sliding-window limiters of restarts.
- The modules and lemmas called `…Answers` tell what the operations answer and write by the fields of their
  inputs alone, without the functions that the operations are proved against.
- `Prelude`, `Text`: options, results and string operations of the host languages.

## Where the code and its promises differ

The models follow the code. Each of these is a lemma, with the exact condition where there is one.

- The glob of `url_match.rs` takes a `*` of the text as a literal first, so it may miss a match. Its answers are
  right under all non-empty patterns exactly if the text has no `*`, and on all texts exactly if the pattern has
  none or is a `*` alone (`TextIsJudgedRightly`, `PatternJudgesRightly`).
- The robots matcher accepts too much exactly for patterns that end in `$$`, and otherwise differs from
  RFC 9309 exactly for literal text followed by `*$` (`MatcherIsSoundIff`, `MatcherIsExactIff`).
- The store looks a worker up under its trimmed id but leases under the id as given. The tables stay
  consistent in all runs of a worker exactly if validation leaves its id unchanged
  (`TablesAgreeIffWorkerIdIsCanonical`).
- A client may enqueue under an id of its own (crates/gateway-daemon/src/ipc_durable.rs:145). Under the id of a
  running job this leaves a lease without its job; the tables agree throughout a run exactly if it never happens
  (`EnqueueKeepsAgreement`, `AgreesThroughoutIff`). Under the id of a cancelled job it revives the job, which stays
  cancelled exactly if that never happens (`StepRevivesIff`, `StaysCancelledIff`).
- Acquiring a waiting job fails exactly if the worker's id is invalid or the queue's name blank, and then the job
  is running all the same, under a lease that no worker's row names (`AcquireFailsIff`). A queue may be named by
  blanks only, because just the empty name is replaced (crates/gateway-daemon/src/ipc_durable.rs:218-226).
- Repeating `ParseResponse` calls the systems registered as `CallLlm` and `Hook` first, and starts the next try
  even if one of them has written the output or an error. The runtime's own write neither
  (crates/core/src/systems.rs:307-315, 481, 506), and then no try starts late, in any schedule
  (`NothingStartsTerminal`). For arbitrary systems this is so exactly if no `ParseResponse` may be repeated, in a
  schedule whose uncapped loops do not come before the first such invocation (`NothingStartsTerminalIff`).
- The chat format is lossy for texts that are untrimmed or hold an opener, for lists that their trimmed text does
  not give back, and for optional texts that are blank or read `null` in any letter case (`RoundTripIff`).
- Section 2.2 of RFC 9309 lets empty lines stand anywhere in a group. The parser closes the group at one, and at a
  comment on a line of its own, so what is written is read back exactly if none stands inside a group
  (`RoundTripIff` of `RobotsParse`).
- The stream client ignores the event name, so an error frame comes out as a snapshot, and a frame whose data is
  empty is dropped. A stream comes out as it was written exactly if all its data are one-line payloads
  (`StreamRoundTripIff`).
- The sampler may exceed the request. It never does exactly if no weight is negative; only the total is checked
  (`NeverTooManyIff`).
- `targets()` is documented to list targets with an observation; it also lists those that were only
  summarised (`ListedAreObservedIff`).
- The daemon cuts the window's length to 32 bits before comparing. It decides like the supervisor under all
  limits exactly while fewer than 2 to the 32nd attempts count (`DecisionsAgreeIff`).
- The supervisor's deque equals the daemon's list at every next attempt exactly if the clock has not gone back
  (`StayEqualIff`).
- If the clock is set back, the supervisor may grant more restarts in a span than allowed. Exits at given times
  never get too many exactly if the clock never slips back behind two attempts that it had made expire
  (`IntensityIsBoundedIff`).
- The front is documented as where the seed always is once scored (packages/learn/src/gepa-selection.ts:56-58), but
  dominance over tasks that only overlap can be circular, and then the front may be empty. It never is exactly if
  no sequence of the task sets, of any length, lets each two neighbours share a task that another lacks
  (`FrontNeverEmptyIff`, `CircleIff`).

## Model

The main theorems come first; the operations and the lemmas they rest on follow, module by module.

| member | source | states |
|---|---|---|
| JobHistory.AgreesThroughoutIff | crates/gateway-daemon/src/store_jobs.rs:14-162 | over canonical worker ids and whichever job ids are enqueued: the tables agree after each operation of a run iff no job is enqueued under the id of a running one |
| JobHistory.RunKeepsAgreement | crates/gateway-daemon/src/store_jobs.rs:59-162 | the tables agree after every sequence of operations that never reuses the id of a running job |
| JobHistory.AgreementIsConsistency | crates/gateway-daemon/src/store_workers.rs:80-116 | agreement says what each table shows of the others: state, lease, expiry and worker fields |
| JobHistory.TablesAgreeIffWorkerIdIsCanonical | crates/gateway-core/src/workers.rs:93-110 | all runs of a worker, reusing no running job's id, are consistent iff its id is one that validation leaves unchanged |
| JobInvariant.AcquireFailsIff | crates/gateway-daemon/src/store_jobs.rs:113-140 | acquiring fails iff a job waits and the worker id is invalid or the queue name blank, and then the job is left running under a lease |
| JobInvariant.ExpireKeepsAgreement | crates/gateway-daemon/src/store_jobs.rs:142-162 | expiry keeps agreement and returns the number of jobs it took out of running |
| JobHistory.AttemptsAreAccounted | crates/gateway-daemon/src/store_job_types.rs:23-40 | in every run: attempts count the acquisitions (up to the 32-bit maximum), stay within the maximum plus the effective retries, strictly so while pending, and reach the maximum when failed |
| JobAnswers.FailAnswers | crates/gateway-daemon/src/store_job_types.rs:31-40 | where the tables agree, a job that fails has failed if its attempts are used up and waits again otherwise, with this error and no result; its lease is deleted, its worker freed, and every other row stays |
| JobAnswers.CompleteAnswers | crates/gateway-daemon/src/store_jobs.rs:95-102 | a job that completes is completed with this result and no error, however often it was tried; the other rows as above |
| JobAnswers.AcquireAnswers | crates/gateway-daemon/src/store_jobs.rs:113-140 | a canonical worker gets exactly the waiting job of the queue that is first by priority, time and id, or nothing if none waits; the rows of job, lease and worker, field by field |
| JobAnswers.ExpireAnswers | crates/gateway-daemon/src/store_jobs.rs:142-162 | exactly the overdue jobs leave their leases, failed or waiting again by their attempts; exactly their lease rows go and their workers are freed; the answer is their number |
| JobHistory.StaysCancelledIff | crates/gateway-daemon/src/store_jobs.rs:14-30 | a cancelled job stays cancelled throughout a run iff the run never enqueues its id again |
| JobHistory.OnlyAheadOvertakes | crates/gateway-daemon/src/store_jobs.rs:226-240 | with later and later times, a job acquired past a waiting one has a higher priority, or an equal one and was ahead from the start |
| JobHistory.OvertakesAtMostOnce | crates/gateway-daemon/src/store_jobs.rs:226-240 | a job of equal priority overtakes a waiting job at most once |
| ChatAdapter.RoundTrip | crates/core/src/adapter.rs:24-25 | parsing undoes rendering for every object whose texts survive, lists through an assumed JSON codec |
| ChatRoundTrip.RoundTripIff | crates/core/src/adapter.rs:24-25 | for every signature and object, if each list prints without an opener or as short as can be: the object comes back unchanged iff no text holds an opener and each is read back |
| ChatAnswers.ParseAnswers | crates/core/src/adapter.rs:97-141 | for every text and every fields: no delimiter, no terminator, the object of the last sections of all fields, or the first field without a section of its own or with one that stands for no value of its type |
| ChatAdapter.DelimitersInOrder | crates/core/src/adapter.rs:351-372 | for every input: delimiters are in bounds, disjoint and increasing |
| ChatAdapter.OpenersAreCovered | crates/core/src/adapter.rs:351-372 | for every input: no opener with a closer after it is missed |
| SnapshotStream.ReadSnapshotStream | packages/gateway/src/rest-client-sse.ts:4-26 | for arbitrary chunks, what is yielded depends on their concatenation only; of the frames of a server, however cut, exactly the data are yielded, in order |
| SnapshotStream.StreamRoundTripIff | packages/gateway/src/rest-stream.ts:24-37 | the data of any mix of snapshot and error frames come out once and in order iff each is not empty and does not start with white space |
| UrlMatch.TextIsJudgedRightly | crates/webtools/src/url_match.rs:1-66 | the answers on a text are right under all non-empty patterns iff it has no star |
| UrlMatch.PatternJudgesRightly | crates/webtools/src/url_match.rs:1-66 | the answers of a non-empty pattern are right on all texts iff it has no star or is a star alone |
| UrlMatch.LastStarSuffices | crates/webtools/src/url_match.rs:37-41 | forgetting the earlier star at a new one loses no match |
| RobotsPattern.MatcherIsSoundIff | crates/webtools/src/robots_pattern.rs:1-42 | a pattern is sound on all paths iff it does not end in two dollars |
| RobotsPattern.MatcherIsExactIff | crates/webtools/src/robots_pattern.rs:1-42 | a pattern is exact on all paths iff, besides, it has no literal text before a star that stands before the final dollar |
| RobotsParse.ParsedIsSound | crates/webtools/src/robots_parse.rs:14-101 | for every body: groups have agents, agents are lower case, patterns are not empty, and order numbers increase through all groups |
| RobotsParse.RoundTripIff | crates/webtools/src/robots_parse.rs:14-101 | groups and sitemaps written with blank lines and comments anywhere are parsed back, rule by rule, iff none stands between the first line of a group and its last |
| RobotsLooks.RoundTripInAnyLook | crates/webtools/src/robots_parse.rs:23-45 | the same for directives in any letter case, with any white space around field and value and any comment behind |
| RobotsVerdict.MatchingIffChosen | crates/webtools/src/robots_match.rs:19-58 | a group is chosen iff one of its agents names the user agent and no agent of any group does so at greater length |
| RobotsVerdict.AllowedIff | crates/webtools/src/robots_match.rs:6-74 | a path is allowed iff no rule applies or some allowing rule is at least as specific as every forbidding one |
| RobotsVerdict.VerdictIgnoresOrder | crates/webtools/src/robots_match.rs:6-74 | texts that tell the same agents the same give the same verdict, however ordered, grouped, numbered or repeated |
| RobotsVerdict.WinnerIsUnique | crates/webtools/src/robots_match.rs:60-74 | in a parsed text every other applicable rule ranks strictly below the deciding one |
| RunSafety.CappedRunEnds | crates/core/src/runner.rs:54-108 | a capped schedule ends with at most cost(schedule) attempts, whatever systems and host do |
| RunSafety.RunIsSafe | crates/core/src/runner.rs:54-108 | for every run, also one cut off: creation data stay, the trajectory grows, only a repeated parse may start terminal and only if its nudge may finish the run, host-side systems never change profile or schedule |
| RunAnswers.LoopAnswers | crates/core/src/runner.rs:75-104 | a loop, told by its rounds: each but the last is completed, below the cap and not at its condition, and the last is the first that is not |
| RunAnswers.PresenceAnswers | crates/core/src/runner.rs:125-157 | a condition tests a component by its name in any letter case and punctuation, and anything else as an extension's key |
| RunAnswers.InvocationAnswers | crates/core/src/runner.rs:159-179 | an invocation, told by its tries: all but the last fail and are prepared for, and the last succeeds, is the last allowed, or could not be prepared for |
| RetryRisk.NothingStartsTerminal | crates/core/src/runner.rs:54-272 | in every schedule no attempt starts terminal if no parse may be repeated, or if what a nudge calls writes neither output nor error |
| RetryRisk.NothingStartsTerminalIff | crates/core/src/runner.rs:54-272 | if only capped loops precede the first repeatable `ParseResponse`: no attempt ever starts terminal iff no `ParseResponse` may be repeated |
| Base32.Base32LowerNoPad | crates/core/src/bundle.rs:141-158 | the unmasked 64-bit encoder is section 6 of RFC 4648, lower case, unpadded, at every length |
| Base32.EncodeIsInjective | crates/core/src/bundle.rs:131-158 | different inputs have different encodings |
| Base64.DecodeB64 | crates/core/src/capability.rs:97-120 | the unmasked 32-bit decoder yields the whole bytes of the sextets, or the invalid byte |
| Base64.DecodeInvertsEncode | crates/core/src/capability.rs:97-120 | decoding undoes the encoders of sections 4 and 5 of RFC 4648, however padded or broken into lines |
| MixedPlan.AllocationIsFair | packages/learn/src/task-source-mixed-plan.ts:12-40 | the counts add up to the request, each is its exact share rounded down or up, and the largest fractions are rounded up |
| MixedSampler.RequestIsMet | packages/learn/src/task-source-mixed-sample.ts:11-91 | for weights that are not negative: never more than the request, exactly the request with one reliable source, and the allocated mix if all are |
| MixedRefill.SampleFallsShort | packages/learn/src/task-source-mixed-sample.ts:36-70 | without an abort a sample is short only if every source has delivered its size or yielded nothing when asked for what is missing, or if the refills brought two tasks for each source |
| MixedRefill.EnoughMeetsRequest | packages/learn/src/task-source-mixed-sample.ts:11-70 | one source that yields its size meets the request, if it is allotted less than it has and all that is not allotted to it would fit in it |
| MixedRefill.SpentIsNeverAsked | packages/learn/src/task-source-mixed-sample.ts:57-58 | a source that has delivered its size is not asked in any refill: all is the same whatever it would yield |
| MixedSampler.NeverTooManyIff | packages/learn/src/task-source-mixed.ts:22-25 | no behaviour of the sources exceeds any request iff no weight is negative |
| MixedSampler.AbortEndsSample | packages/learn/src/task-source-mixed-sample.ts:79-80 | once the signal is set nothing more is emitted, whatever the sources still yield |
| GepaMemory.MemoryRefinesHistory | packages/learn/src/gepa-memory.ts:65-102 | after any history, best and worst are the first K of a stable sort of everything recorded for the target, the means the last L, and observations counts all |
| GepaMemory.BestAndWorstAnswer | packages/learn/src/gepa-memory.ts:65-102 | after any history, best and worst are as many as may be kept, in order of score, and nothing left out scores higher than one of the best or lower than one of the worst |
| GepaMemory.ListedAreObservedIff | packages/learn/src/gepa-memory.ts:40-41 | observed targets are all listed; all listed are observed iff none was summarised that never got a datum |
| ParetoFront.FrontOfSameTasks | packages/learn/src/gepa-selection.ts:25-28 | for candidates of the same tasks the front is not empty and dominates all the rest |
| ParetoFront.FrontNeverEmptyIff | packages/learn/src/gepa-selection.ts:25-28 | with task sets of a family, candidates of which one is scored always have a front iff no sequence of these sets admits a circle |
| ParetoFront.CircleIff | packages/learn/src/gepa-selection.ts:36-47 | candidates of these tasks, however many, may dominate each other in a circle iff each two neighbours share a task that another lacks |
| TextCache.CacheIsFaithful | packages/ink/src/text-cache.js:24-51 | in every history: a hit is the value last set, entries stand in the order of their last use, and both budgets hold |
| TextCache.SetKeepsItsEntry | packages/ink/src/text-cache.js:32-44 | a value that fits the budget is never evicted by its own set |
| TextCache.TextMeasurer.MeasureText | packages/ink/src/measure-text.js:5-12 | whatever was measured before, the answer is the one computed directly |
| RestartWindow.IntensityIsBoundedIff | crates/gateway-core/src/supervisor.rs:64-118 | exits at given times, whichever children they concern, never have more than `max_restarts` of them granted in a span of `within_ms`, for any limit, iff the clock never slips back behind two attempts that it had made expire |
| RestartWindow.IntensityIsBounded | crates/gateway-core/src/supervisor.rs:64-118 | so it is with fixed children, a clock that does not go back and any run of exits |
| RestartWindow.WindowsAreRecentHistory | crates/gateway-core/src/supervisor.rs:108-118 | with a clock that does not go back, deque and list both equal the recent part of the full history |
| RestartWindow.DecisionsAgreeIff | crates/gateway-daemon/src/service_supervision.rs:31-33 | after attempts in order, both limiters decide alike under every limit iff fewer than 2 to the 32nd attempts of the history count |
| RestartWindow.StayEqualIff | crates/gateway-core/src/supervisor.rs:108-118 | deque and list stay equal at every next attempt, whenever it comes and however wide the window, iff the clock has not gone back |
| JobTypes.LeaseIdNamesJob | crates/gateway-daemon/src/store_jobs.rs:124 | lease ids of different jobs differ, whatever the times |
| JobTables.AheadIsTotal | crates/gateway-daemon/src/store_jobs.rs:226-240 | of two jobs exactly one is ahead by priority, update time and id |
| JobTables.AheadIsTransitive | crates/gateway-daemon/src/store_jobs.rs:226-240 | the queue order is transitive |
| JobTables.NextIsUnique | crates/gateway-daemon/src/store_jobs.rs:226-240 | a queue has at most one best pending job |
| JobStore.GatewayStore.NextPendingJob | crates/gateway-daemon/src/store_jobs.rs:226-240 | finds the job that no pending job of the queue is ahead of; none only if none is pending |
| JobStore.GatewayStore.JobLeases | crates/gateway-daemon/src/store_leases.rs:26-40 | exactly the lease rows of the job, ordered by id |
| JobStore.GatewayStore.MarkWorkerLeased | crates/gateway-daemon/src/store_workers.rs:80-97 | the worker's row names the lease, its job and expiry; nothing is written on an invalid id or blank queue |
| JobStore.GatewayStore.ClearWorkerLease | crates/gateway-daemon/src/store_workers.rs:99-116 | the worker is made idle only if it names this very lease |
| JobStore.GatewayStore.EnqueueJob | crates/gateway-daemon/src/store_jobs.rs:14-30 | the new tables as a function of the old ones |
| JobStore.GatewayStore.AcquireJob | crates/gateway-daemon/src/store_jobs.rs:113-140 | the new tables and the answer, on success, on an empty queue and on each error |
| JobStore.GatewayStore.Release | crates/gateway-daemon/src/store_jobs.rs:191-224 | the common end of finish, cancel and retry: row, workers and leases |
| JobStore.GatewayStore.FinishJob | crates/gateway-daemon/src/store_jobs.rs:191-224 | the new tables and the answer, with the cancelled and the unknown job |
| JobStore.GatewayStore.CancelJob | crates/gateway-daemon/src/store_jobs.rs:59-73 | the new tables and the answer |
| JobStore.GatewayStore.RetryJob | crates/gateway-daemon/src/store_jobs.rs:75-93 | only a failed job goes back to pending |
| JobStore.GatewayStore.ExpireJob | crates/gateway-daemon/src/store_jobs.rs:143-153 | one round of the expiry loop |
| JobStore.GatewayStore.ExpireLeases | crates/gateway-daemon/src/store_jobs.rs:142-162 | every expired job is handled once, in some order, then the expired rows are deleted and counted |
| JobStore.GatewayStore.RegisterWorker | crates/gateway-daemon/src/store_workers.rs:10-26 | a registration keeps the lease fields of a known worker |
| JobStore.GatewayStore.HeartbeatWorker | crates/gateway-daemon/src/store_workers.rs:28-48 | a heartbeat changes a known worker only, and none of its lease fields |
| JobInvariant.RunningIffOneLease | crates/gateway-daemon/src/store_jobs.rs:113-162 | where the tables agree, a job is running iff exactly one lease row names it, the one its row names |
| JobInvariant.LeasesOfJob | crates/gateway-daemon/src/store_leases.rs:26-40 | the rows of a job are its own lease, or none |
| JobInvariant.EnqueueKeepsAgreement | crates/gateway-daemon/src/store_jobs.rs:14-30 | enqueueing keeps the tables in agreement exactly if the id is not that of a running job |
| JobInvariant.LeaseIdIsFresh | crates/gateway-daemon/src/store_jobs.rs:123-129 | the new lease's id is not in the table, so the upsert never hits its conflict clause |
| JobInvariant.AcquireKeepsAgreement | crates/gateway-daemon/src/store_jobs.rs:113-140 | acquiring keeps agreement, also when it fails half-way |
| JobInvariant.ReleaseKeepsAgreement | crates/gateway-daemon/src/store_jobs.rs:191-224 | releasing a job never fails where the tables agree, and keeps agreement |
| JobInvariant.FinishKeepsAgreement | crates/gateway-daemon/src/store_jobs.rs:95-111 | completing and failing keep agreement |
| JobInvariant.CancelKeepsAgreement | crates/gateway-daemon/src/store_jobs.rs:59-73 | cancelling keeps agreement |
| JobInvariant.RetryKeepsAgreement | crates/gateway-daemon/src/store_jobs.rs:75-93 | retrying keeps agreement |
| JobInvariant.LoopIsOrderIndependent | crates/gateway-daemon/src/store_jobs.rs:143-153 | the expiry loop does not depend on the order in which the query lists the jobs, and cannot fail |
| JobInvariant.CountLeases | crates/gateway-daemon/src/store_jobs.rs:154-161 | there are as many expired rows as expired running jobs |
| JobInvariant.RegisterKeepsAgreement | crates/gateway-daemon/src/store_workers.rs:10-26 | registering keeps agreement |
| JobInvariant.HeartbeatKeepsAgreement | crates/gateway-daemon/src/store_workers.rs:28-48 | a heartbeat keeps agreement |
| JobHistory.StepKeepsAgreement | crates/gateway-daemon/src/store_jobs.rs:59-162 | every operation keeps the three tables in agreement |
| JobHistory.TrialSpoils | crates/gateway-daemon/src/store_workers.rs:65-97 | an id that validation would change leaves an inconsistent table after three operations |
| JobHistory.StepOnJobs | crates/gateway-daemon/src/store_jobs.rs:59-162 | what each operation does to the jobs table, independent of the other tables |
| JobHistory.StepRevivesIff | crates/gateway-daemon/src/store_jobs.rs:14-30 | of all operations, only enqueueing under its id makes a cancelled job pending again, and that always does |
| JobHistory.CancelledIsFinal | crates/gateway-daemon/src/store_jobs.rs:191-224 | unless it is enqueued again under its id, a cancelled job is cancelled after every run |
| JobAnswers.EnqueueAnswers | crates/gateway-daemon/src/store_job_types.rs:4-21 | the new row, field by field; nothing else is written |
| JobAnswers.CancelAnswers | crates/gateway-daemon/src/store_jobs.rs:59-73 | any known job is cancelled, and keeps its error and its result |
| JobAnswers.RetryAnswers | crates/gateway-daemon/src/store_jobs.rs:75-93 | only a failed job waits again, without its result and with its error |
| JobAnswers.RegisterAnswers | crates/gateway-daemon/src/store_workers.rs:10-26 | which registrations are refused, and the row of any other, field by field |
| JobAnswers.HeartbeatAnswers | crates/gateway-daemon/src/store_workers.rs:28-48 | which heartbeats are refused or of nobody known, and what any other writes |
| JobAnswers.TextOrder | crates/gateway-daemon/src/store_jobs.rs:232 | text columns are ordered as dictionaries are |
| JobAnswers.CanonicalIff | crates/gateway-core/src/workers.rs:93-110 | validation leaves exactly the ids of 1 to 128 letters, digits and four signs as they are |
| JobAnswers.LeaseIdReads | crates/gateway-daemon/src/store_jobs.rs:124 | a lease id names its time in decimal digits and its job |
| ChatAdapter.RenderAssistantTurn | crates/core/src/adapter.rs:309-319 | the rendered turn is the printer of the wire format |
| ChatAdapter.FindDelimiters | crates/core/src/adapter.rs:351-372 | the scan finds the delimiters that the format defines |
| ChatAdapter.CollectTexts | crates/core/src/adapter.rs:97-141 | each field's text is what stands between its delimiter and the next, the last one winning |
| ChatAdapter.CoerceFields | crates/core/src/adapter.rs:97-141 | all fields coerced, or the first error |
| ChatAdapter.Parse | crates/core/src/adapter.rs:97-141 | the object, or the error for a missing terminator, a missing field or a bad value |
| ChatAdapter.FoundAreDelimiters | crates/core/src/adapter.rs:351-372 | for every input: each found delimiter is an opener, its trimmed name and the first closer |
| ChatAdapter.ScanRendered | crates/core/src/adapter.rs:351-372 | scanning a rendered turn finds exactly its headers |
| ChatAdapter.CoerceInverts | crates/core/src/adapter.rs:381-423 | a value's own text is coerced back to it, for every type |
| ChatRoundTrip.ContentHasNoOpener | crates/core/src/adapter.rs:97-141 | no text read from a completed turn holds an opener |
| ChatRoundTrip.OpenerStands | crates/core/src/adapter.rs:97-141 | every opener of a rendered turn starts a section or stands in the text of one |
| ChatRoundTrip.ContentIsShort | crates/core/src/adapter.rs:351-372 | behind any delimiter that names a field whose text holds an opener, the content is shorter than some text that holds one |
| ChatRoundTrip.LongestIsLost | crates/core/src/adapter.rs:97-141 | a list whose text is the longest with an opener does not come back, unless a shorter text is read as it |
| ChatRoundTrip.WhatComesBackHasNoOpener | crates/core/src/adapter.rs:97-141 | what comes back unchanged, and is not a list, was printed without an opener |
| ChatRoundTrip.CoercesBackIff | crates/core/src/adapter.rs:381-423 | a value is read from its trimmed text iff strings are trimmed, lists are read back, and present optional texts are neither blank nor null |
| ChatAnswers.CoerceAnswers | crates/core/src/adapter.rs:381-423 | each type reads exactly the texts that stand for one of its values, and refuses any other as of a bad type |
| ChatAnswers.ReadIsTyped | crates/core/src/adapter.rs:381-423 | what is read has the field's type, but for lists |
| ChatAnswers.CollectedIsLast | crates/core/src/adapter.rs:112-129 | the text of a name is what stands behind its last delimiter, up to the next |
| ChatAnswers.SectionLooks | crates/core/src/adapter.rs:309-319 | how a section and the terminator are written |
| ChatAnswers.ValueLooks | crates/core/src/adapter.rs:333-347 | how each value is written |
| SnapshotStream.MessageData | packages/gateway/src/rest-client-sse.ts:58-64 | the data lines of a frame joined, or nothing when there is none |
| SnapshotStream.GatewaySseDecoder.Drain | packages/gateway/src/rest-client-sse.ts:44-55 | yields the complete frames of the buffer and keeps the rest |
| SnapshotStream.GatewaySseDecoder.Push | packages/gateway/src/rest-client-sse.ts:31-34 | the messages completed by a chunk |
| SnapshotStream.GatewaySseDecoder.Finish | packages/gateway/src/rest-client-sse.ts:36-42 | the messages of all that is left, the incomplete last one included |
| SnapshotStream.DecodingInTwoSteps | packages/gateway/src/rest-client-sse.ts:28-56 | decoding a text and then more is decoding both at once |
| SnapshotStream.StreamAnswers | packages/gateway/src/rest-client-sse.ts:28-63 | text up to its first blank line is a frame, and its message comes first unless it is missing or empty |
| SnapshotStream.FrameAnswers | packages/gateway/src/rest-client-sse.ts:58-64 | the message of a frame is that of its first line joined by a newline to that of the others; a line may end with CR and LF |
| UrlMatch.Cursor.Backtrack | crates/webtools/src/url_match.rs:43-51 | resumes one byte further behind the remembered star, if there is one |
| UrlMatch.Cursor.ConsumeTrailingStars | crates/webtools/src/url_match.rs:53-57 | moves to the first byte that is not a star |
| UrlMatch.WildcardMatch | crates/webtools/src/url_match.rs:8-21 | terminates, and decides the recursive meaning in which a star of the text is tried as a literal first |
| UrlMatch.PatternMatch | crates/webtools/src/url_match.rs:1-6 | a true answer is a match; for a text without stars the answer is exactly the match |
| UrlMatch.LaterPlacementArrivesLater | crates/webtools/src/url_match.rs:43-51 | placing the segment behind a star later never reaches the next star earlier |
| UrlMatch.LiteralFirstIsSound | crates/webtools/src/url_match.rs:8-66 | what the matcher accepts is a declarative match, for all texts |
| UrlMatch.TextWithStarIsMisjudged | crates/webtools/src/url_match.rs:60-66 | every text with a star has a pattern that matches it and is refused |
| UrlMatch.PatternWithStarMisjudges | crates/webtools/src/url_match.rs:60-66 | every pattern with a star, and not that alone, refuses some text that it matches |
| RobotsPattern.WildcardMatch | crates/webtools/src/robots_pattern.rs:17-31 | decides the leftmost placement of the segments, with the end check |
| RobotsPattern.RobotsMatch | crates/webtools/src/robots_pattern.rs:1-11 | the whole matcher on every path and pattern |
| RobotsPattern.LeftmostIsBest | crates/webtools/src/robots_pattern.rs:33-38 | if any placement of a segment leads to a match, the leftmost does |
| RobotsPattern.PlacementIsComplete | crates/webtools/src/robots_pattern.rs:17-38 | leftmost placement succeeds iff any placement does |
| RobotsPattern.AnchoredPlacementIsComplete | crates/webtools/src/robots_pattern.rs:27-31 | the end check is right for patterns that end in literal text: it never counts an earlier segment twice |
| RobotsPattern.MatcherMeetsRfc | crates/webtools/src/robots_pattern.rs:1-42 | the matcher against section 2.2.3 of RFC 9309, case by case of the pattern's end |
| RobotsPattern.TwoDollarsAreUnsound | crates/webtools/src/robots_pattern.rs:5-6 | every pattern ending in two dollars accepts a path it should not |
| RobotsPattern.StarBeforeDollarIsIncomplete | crates/webtools/src/robots_pattern.rs:27-31 | every such pattern rejects a path it should accept |
| RobotsParse.Builder.AcceptLine | crates/webtools/src/robots_parse.rs:23-34 | the builder after a line, with comments, blank lines and lines without a colon |
| RobotsParse.Builder.AcceptDirective | crates/webtools/src/robots_parse.rs:36-44 | directives are told apart in any letter case, others ignored |
| RobotsParse.Builder.AcceptAgent | crates/webtools/src/robots_parse.rs:46-54 | an agent after rules opens a new group |
| RobotsParse.Builder.AcceptRule | crates/webtools/src/robots_parse.rs:56-67 | a rule gets the next order number, an empty one none |
| RobotsParse.Builder.AcceptDelay | crates/webtools/src/robots_parse.rs:69-74 | a readable delay is kept, at least zero |
| RobotsParse.Builder.Flush | crates/webtools/src/robots_parse.rs:82-93 | a group is closed only if it has an agent, and its rules are dropped otherwise |
| RobotsParse.ParseRobots | crates/webtools/src/robots_parse.rs:14-20 | the parse of a whole body |
| RobotsParse.LineIsSound | crates/webtools/src/robots_parse.rs:22-93 | every line keeps the builder's invariant |
| RobotsParse.LineIsRead | crates/webtools/src/robots_parse.rs:23-44 | a field and a clean value written as a line are read as that directive |
| RobotsParse.RoundTrip | crates/webtools/src/robots_parse.rs:14-101 | what is written without gaps inside groups is parsed back |
| RobotsParse.GroupIsTorn | crates/webtools/src/robots_parse.rs:26-33 | a blank or comment line inside a group closes it early, and it comes out different |
| RobotsLooks.LookIsRead | crates/webtools/src/robots_parse.rs:23-44 | however a directive is spelled and spaced, and whatever comment stands behind it, it is read as itself |
| RobotsLooks.DirectiveAnswers | crates/webtools/src/robots_parse.rs:36-80 | what each of the five directives does to the builder, field by field, and that any other does nothing |
| RobotsLooks.OtherLinesAnswer | crates/webtools/src/robots_parse.rs:23-33 | a blank line or a comment closes the group, and a line without a colon does nothing |
| RobotsVerdict.AcceptGroupMatch | crates/webtools/src/robots_match.rs:29-48 | one group further, the groups kept are those that reach the longest match so far |
| RobotsVerdict.FindMatchingGroups | crates/webtools/src/robots_match.rs:19-27 | the groups that reach the longest match, once for each of their agents that does |
| RobotsVerdict.CheckRobots | crates/webtools/src/robots_match.rs:6-17 | verdict, deciding pattern, first delay and sitemaps |
| RobotsVerdict.FirstDelay | crates/webtools/src/robots_match.rs:9 | the delay of the first chosen group that has one, or none |
| RobotsVerdict.BestIsGreatest | crates/webtools/src/robots_match.rs:60-74 | no matching rule ranks above the one that decides |
| RobotsVerdict.ApplicableIffApplies | crates/webtools/src/robots_match.rs:60-66 | the rules considered are exactly the matching rules of chosen groups |
| RobotsVerdict.AgentLengthAnswers | crates/webtools/src/robots_match.rs:50-58 | a star counts as one, and any other agent as many bytes as it has, if it occurs in the user agent |
| RobotsVerdict.Utf8LengthAnswers | crates/webtools/src/robots_match.rs:54 | bytes add up, one to four for each character |
| RobotsVerdict.SpecificityAnswers | crates/webtools/src/robots_match.rs:89-95 | a rule is as specific as it has characters other than stars, less the dollars at its end |
| RobotsVerdict.CheckAnswers | crates/webtools/src/robots_match.rs:6-17 | the rule reported is one that applies and that none ranks above, and decides the verdict; all sitemaps are reported |
| RobotsVerdict.RearrangedSaysTheSame | crates/webtools/src/robots_match.rs:60-74 | groups and rules in another order, renumbered, tell the same agents the same |
| Runner.Runner.Apply | crates/core/src/runner.rs:397-450 | a system's delta writes what it names and appends to the trajectory |
| Runner.Runner.ApplyHostResponse | crates/core/src/runner.rs:320-395 | a host response writes no profile or schedule, and its signal finishes or aborts |
| Runner.Runner.CallSystem | crates/core/src/runner.rs:181-197 | one call of a registered system |
| Runner.Runner.CallHostSystem | crates/core/src/runner.rs:284-318 | one call of the host |
| Runner.Runner.InvokeOnce | crates/core/src/runner.rs:181-197 | one attempt, by a registered system or the host |
| Runner.Runner.PrepareForRetry | crates/core/src/runner.rs:199-272 | the nudge, what it clears, and the LLM and hook calls it makes |
| Runner.Runner.InvokeWithRetry | crates/core/src/runner.rs:159-179 | attempts up to the maximum, then the final error |
| Runner.Runner.TakeStep | crates/core/src/runner.rs:72-108 | a step, with its loop |
| Runner.Runner.TakeSteps | crates/core/src/runner.rs:86-93 | a body, up to a terminal entity or an error |
| Runner.Runner.RunToCompletion | crates/core/src/runner.rs:54-70 | the whole run and its result |
| RunSafety.OnceProgresses | crates/core/src/runner.rs:181-197 | an attempt keeps what was set at creation, and leaves the entity alone when it fails |
| RunSafety.AttemptsProgress | crates/core/src/runner.rs:159-179 | retries keep it as well, end, and are at most the allowed number |
| RunSafety.StepProgresses | crates/core/src/runner.rs:72-108 | every step keeps creation data, grows the trajectory, and starts no first attempt on a terminal entity |
| RunSafety.StepIsBounded | crates/core/src/runner.rs:72-108 | a capped step ends within its cost, loops multiplying and bodies adding |
| RunAnswers.BodyAnswers | crates/core/src/runner.rs:87-92 | a body, told by its steps: the first that fails, or leaves an output or an error, ends it |
| RunAnswers.TryAnswers | crates/core/src/runner.rs:181-197 | a try calls the registered system, or the host under a name made from the system's; an error leaves the entity alone |
| RunAnswers.ParseRetryAnswers | crates/core/src/runner.rs:219-272 | what repeating a parse asks for, clears and calls, and how it can fail |
| RunAnswers.NudgeReads | crates/core/src/runner.rs:462-479 | the message that goes with a repeated parse |
| RunAnswers.SystemWrites | crates/core/src/runner.rs:397-450 | a system's writes, component by component |
| RunAnswers.HostWritesApplied | crates/core/src/runner.rs:320-395 | a host-side system's writes and signal, component by component |
| RunAnswers.ResultAnswers | crates/core/src/runner.rs:61-69 | a completed run returns its error if it has one, else its output, else an error of its own |
| RetryRisk.QuietStep | crates/core/src/runner.rs:72-108 | a step in which nothing is written makes exactly the calls counted from the schedule |
| RetryRisk.AmbushedInvocation | crates/core/src/runner.rs:219-272 | a repeated parse whose nudge finishes the run starts terminal |
| RetryRisk.AllCappedReachRisk | crates/core/src/schedule.rs:29-35 | the condition on loops holds of all schedules whose loops are capped |
| Accumulator.Push | crates/core/src/bundle.rs:145-148 | the low bits of an overflowing accumulator are the pending bits, after bits are shifted in |
| Accumulator.Pop | crates/core/src/bundle.rs:149-153 | the leading pending group is read although higher bits are never cleared |
| Base32.ReferenceBase32LowerNoPad | crates/core/src/bundle.rs:192-216 | the masked reference encoder computes the same |
| Base32.EncodedLength | crates/core/src/bundle.rs:141-158 | the length is eight fifths, rounded up; 52 for a 32-byte hash |
| Base32.AlphabetAnswers | crates/core/src/bundle.rs:142 | the alphabet, symbol by symbol |
| Base64.OnlyStrippedMatters | crates/core/src/capability.rs:109 | padding, line ends and spaces anywhere change nothing |
| Base64.FailsOnFirstInvalid | crates/core/src/capability.rs:97-120 | decoding fails iff some byte is invalid, and reports the first |
| Base64.AlphabetAnswers | crates/core/src/capability.rs:97-120 | both alphabets, range by range |
| Base64.ClassifyAnswers | crates/core/src/capability.rs:97-120 | only padding, line ends and spaces are skipped, and only symbols taken |
| StableSorting.SortedIsStableSort | packages/learn/src/task-source-mixed-plan.ts:36-40 | the sort yields a rearrangement in descending order in which equal keys keep their order |
| MixedPlan.DistributeRemainder | packages/learn/src/task-source-mixed-plan.ts:23-34 | the counts after one more for each remainder in turn, until the request is reached |
| MixedPlan.AllocateMixedCounts | packages/learn/src/task-source-mixed-plan.ts:12-21 | the allocation as a function of weights and request |
| MixedSampler.MixedSampleState.SampleSlot | packages/learn/src/task-source-mixed-sample.ts:72-86 | passes on what a source yields, up to the count or the abort |
| MixedSampler.Taken | packages/learn/src/task-source-mixed-sample.ts:78-85 | what is passed on is a prefix of what the source yields, no longer than asked for |
| MixedSampler.MixedSampleState.SampleAllocated | packages/learn/src/task-source-mixed-sample.ts:22-34 | every source is asked for its count |
| MixedSampler.MixedSampleState.RefillRound | packages/learn/src/task-source-mixed-sample.ts:49-70 | sources not exhausted are asked in turn for what is missing |
| MixedSampler.MixedSampleState.RefillDeficit | packages/learn/src/task-source-mixed-sample.ts:36-47 | rounds until nothing is missing, a round brings nothing or the guard ends them |
| MixedSampler.SampleMixedTasks | packages/learn/src/task-source-mixed-sample.ts:11-20 | the whole sample, from weights to tasks |
| MixedSampler.SampledIsBounded | packages/learn/src/task-source-mixed-sample.ts:11-91 | each emitted task is tallied for exactly one source, and the emission is bounded by what is wanted |
| MixedSampler.SampledMeetsRequest | packages/learn/src/task-source-mixed-sample.ts:36-70 | one unsized source that delivers fills the request exactly |
| MixedSampler.SampledIsTheMix | packages/learn/src/task-source-mixed-sample.ts:22-34 | if all sources deliver, each contributes its allotted count and no refill takes place |
| MixedSampler.CountsNeverExceedIff | packages/learn/src/task-source-mixed-sample.ts:11-20 | for given counts: no behaviour of the sources exceeds their sum iff none is negative |
| MixedRefill.DrawnPassesOn | packages/learn/src/task-source-mixed-sample.ts:72-91 | without an abort a request passes on as many tasks as it asked for, or all, and only its source's tally grows |
| MixedRefill.RefillFallsShort | packages/learn/src/task-source-mixed-sample.ts:36-47 | a refill leaves something missing only if no source has anything, or after two rounds for each source |
| GepaMemory.GepaFeedbackMemory.constructor | packages/learn/src/gepa-memory.ts:51-54 | limits of at least one, with their defaults |
| GepaMemory.GepaFeedbackMemory.State | packages/learn/src/gepa-memory.ts:56-63 | the entry of a target, created when there is none |
| GepaMemory.GepaFeedbackMemory.Record | packages/learn/src/gepa-memory.ts:66-76 | a batch changes one target, an empty batch nothing |
| GepaMemory.GepaFeedbackMemory.SummarizeTarget | packages/learn/src/gepa-memory.ts:77-86 | the entry, which is created by asking |
| GepaMemory.InsertBatch | packages/learn/src/gepa-memory.ts:72-75 | the datums enter both buckets one after the other |
| GepaMemory.Mean | packages/learn/src/gepa-memory.ts:104-107 | the mean score of a batch |
| GepaMemory.MeanOf | packages/learn/src/gepa-memory.ts:104-107 | the mean times the size of the batch is the sum of its scores |
| GepaMemory.TakeOfInsert | packages/learn/src/gepa-memory.ts:93-102 | the first k after an insertion depend only on the first k before it |
| GepaMemory.ListedIffTouched | packages/learn/src/gepa-memory.ts:87-89 | a target is listed iff it was recorded with data or summarised |
| GepaMemory.ListedOnce | packages/learn/src/gepa-memory.ts:87-89 | no target is listed twice |
| GepaMemory.ListedInOrder | packages/learn/src/gepa-memory.ts:54-63 | the list of targets only grows at its end, so it is in the order of first touch |
| ParetoFront.DominatesByTask | packages/learn/src/gepa-selection.ts:36-47 | the loop decides dominance over the shared tasks |
| ParetoFront.DominanceIsAsymmetric | packages/learn/src/gepa-selection.ts:36-47 | nothing dominates itself and no two dominate each other, whatever their tasks |
| ParetoFront.DominanceIsTransitive | packages/learn/src/gepa-selection.ts:36-47 | dominance is transitive among candidates of the same tasks |
| ParetoFront.FrontCovers | packages/learn/src/gepa-selection.ts:25-28 | the front holds exactly the scored candidates that no other scored one dominates |
| ParetoFront.FrontIsMutuallyNonDominated | packages/learn/src/gepa-selection.ts:25-28 | members of the front never dominate each other |
| ParetoFront.FrontDominatesTheRest | packages/learn/src/gepa-selection.ts:25-28 | where dominance is transitive, a scored candidate is on the front or dominated by a member |
| ParetoFront.EmptyFrontHoldsCircle | packages/learn/src/gepa-selection.ts:25-28 | where one is scored and the front is empty, scored candidates stand in a circle |
| ParetoFront.CircleEmptiesFront | packages/learn/src/gepa-selection.ts:25-28 | the front of candidates in a circle, however many, is empty |
| TextCache.NewTextCache | packages/ink/src/text-cache.js:11-22 | a cache exactly if both budgets are positive safe integers |
| TextCache.TextCache.Get | packages/ink/src/text-cache.js:24-30 | a hit returns its value and moves the entry to the end; a miss changes nothing |
| TextCache.TextCache.Set | packages/ink/src/text-cache.js:32-44 | the new entries, with the counter equal to their sum and both budgets kept |
| TextCache.TextCache.Evict | packages/ink/src/text-cache.js:41-43 | the loop ends with both budgets kept |
| TextCache.TextCache.Delete | packages/ink/src/text-cache.js:46-51 | the entry and its bytes are gone |
| TextCache.EvictsShortestPrefix | packages/ink/src/text-cache.js:41-43 | what goes is the shortest prefix whose removal makes the rest fit |
| TextCache.CounterIsExact | packages/ink/src/text-cache.js:34-43 | the byte counter is exact in a double, also before the eviction, at every budget |
| TextCache.BudgetsHold | packages/ink/src/text-cache.js:34-43 | in every history there are no more entries, and no more bytes by their keys and strings, than the budgets allow |
| TextCache.HeightAnswers | packages/ink/src/measure-text.js:6-9 | an empty text has no height, any other a line more than it has line ends |
| TextCache.Split | packages/ink/src/measure-text.js:9 | the pieces hold no newline and, joined by newlines, give the text back |
| RestartWindow.Supervisor.RecordRestartAllowed | crates/gateway-core/src/supervisor.rs:108-118 | expired attempts leave at the front, the new one is logged even if refused |
| RestartWindow.Supervisor.HandleExit | crates/gateway-core/src/supervisor.rs:64-84 | the answer to an exit: nothing, a stop, a shutdown or restarts |
| RestartWindow.RestartActions | crates/gateway-core/src/supervisor.rs:90-106 | which children are restarted under each strategy, in their order and with their delays |
| RestartWindow.GatewayDaemon.RestartAllowed | crates/gateway-daemon/src/service_supervision.rs:24-34 | the filtered window of one service, compared at 32 bits |
| RestartWindow.GrantedIsAnswered | crates/gateway-core/src/supervisor.rs:64-84 | an exit is answered with restarts iff it asks for one and the log is within the limit |
| RestartWindow.LastAnswer | crates/gateway-core/src/supervisor.rs:64-84 | an exit is answered with nothing exactly for an unknown actor, and with a shutdown exactly if it asks for a restart beyond the limit |
| RestartWindow.ExitAnswers | crates/gateway-core/src/supervisor.rs:64-135 | the answer to an exit of a known actor: which kinds of child and exits want a restart, whom it restarts under each strategy, and the log |
| RestartWindow.LogIsDeque | crates/gateway-core/src/supervisor.rs:64-84 | the log holds only exits that ask for a restart |
| RestartWindow.DequeIsSuffix | crates/gateway-core/src/supervisor.rs:108-118 | in any order of times, the deque holds the last attempts, and one of those was too late for all that are gone |
| RestartWindow.FourGrants | crates/gateway-core/src/supervisor.rs:108-118 | four attempts of which the third makes the first two expire and the last is near them again: three are granted in a span where two are allowed |

## Left out

- Concurrency below one store operation: the code locks per statement (crates/gateway-daemon/src/store.rs:42-51); that a whole operation is atomic is an assumption.
- SQL, and the store's log, event and sandbox tables: only the map operations on jobs, leases and workers are kept. Database failures are not modelled.
- `max_attempts >= 1` is assumed of enqueueing in runs (crates/gateway-daemon/src/ipc_durable.rs:218-226). Runs that reuse the id of a running job are covered by `AgreesThroughoutIff` only.
- Times and counters: saturating 32- and 64-bit additions are modelled; that SQLite stores 64-bit signed numbers is not.
- Error texts of the store and of JSON parsing are reduced to their kinds.
- JSON of list fields is an assumed codec (`RoundTrip`); numbers of `crawl-delay` lines are read by an arbitrary function, and NaN and infinity are left out.
- RoundTripIff: of a list whose JSON text holds an opener it assumes that the codec reads no shorter text as that list.
- RobotsParse.RoundTripIff: each written group ends with a blank line, and sitemaps stand behind all groups; other orders of the same lines are not written.
- Letter case: `to_lowercase` of a bool field and lower-casing in robots.txt are modelled for ASCII letters.
- ChatAdapter works on characters where the code scans bytes; the delimiters are ASCII, so positions correspond.
- UTF-8 decoding of stream chunks, `JSON.parse`, reader locks and the HTTP response check.
- Uncapped loops of a schedule: a round limit stands for a run that does not end (`Unfinished`), so its end is not claimed.
- Events emitted by the runner, and the JSON inside components, which is opaque.
- Taking path and query from a URL: the verdict is on a given path.
- Seeds of the sampler and random parent choice: sources may answer anything, so no seed is needed.
- Non-integer limits of the feedback memory, and NaN scores or weights.
- Identity of candidates and of cached objects: no result depends on it, because nothing dominates itself and cached measurements are not changed.
- The width of a line of text comes from a library and is an arbitrary function.
- Back-off delays, service status records, schedules' `id` fields in logs, and the TypeScript harness with its own small queue.
- BM25 scoring, HTML extraction, URL canonicalisation, provider retry loops, CLI and REST dispatch: not modelled.
