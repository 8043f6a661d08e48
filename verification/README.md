# Activable: a Dafny model of the job scheduler and the IAM risk engine

Activable ingests cloud accounts, works out what each principal may do, and scores how far a
principal could escalate. This project models the parts of it that are hard to get right and
proves what they keep.

**The job scheduler** (`Jobs.dfy`, `Histories.dfy`, `Statements.dfy`, `Protocol.dfy`, `Races.dfy`, `Recovery.dfy`,
`Workers.dfy`, `Backoff.dfy`).
Jobs live in one Postgres table. Workers, heartbeat tasks and reapers, any number of each, send it
single SQL statements in any order, and a worker may vanish at any point. `Jobs` gives each statement
its meaning as a function on the table; the class `Store.JobStore` is the store, proved against that
meaning. `Statements` says what each of them does in a history, column by column.
`Histories` proves facts about every sequence of statements: the table invariant, how often
a job is claimed and each lease ended, how far apart its claims are, and how long activity can last.
`Protocol` adds the actors (leases held by workers, lists scanned by reapers, a clock) and shows that
every interleaving writes such a history. `Races` says exactly when a late reap or a late finish meets
the lease it was meant for, with runs in which it does not; `Recovery` proves what a whole tick of a
reaper does inside any run. `Workers` holds the worker, the reaper, the handler registry
and the scheduler that wires them.

**The IAM engine** (`Glob.dfy`, `Matchers.dfy`, `Policy.dfy`, `EffectivePermissions.dfy`,
`PermissionTheorems.dfy`, `Fields.dfy`, `LimitTheorems.dfy`). The engine keeps wildcard permissions symbolic: it
matches one pattern against another pattern read as text. `Glob` defines the language of a pattern
independently of the matcher and proves the matcher decides it. The theorems then say what the
symbolic answer means for the concrete requests a pair stands for, and for exactly which statements
it is right. The engine is not right for all of them, in four ways: an SCP may let a pair through that
stands for requests it blocks (`QuestionMarkLeaksThroughScp`, `NotActionLeaksThroughScp`), a Deny may
hide permitted requests (`NotActionDenyOverblocks`) or leave denied ones reported
(`NarrowDenyLeavesPair`), and an Allow with NotAction or NotResource reports requests it excludes.
`LimitTheorems` says for each when it is absent, by an if-and-only-if on the patterns of the
statements, for concrete requests. The key is what a statement reaches: which requests some pair it
covers stands for. `Fields.Reaches` computes that from the lists (each `?` widened to `*`; all names,
if an exclusion misses some number of stars), and `LimitTheorems.ReachesRequestIff` proves it. A leak
through an SCP, a boundary or a session policy of any statements is absent exactly when it allows
every request it reaches, and a Deny list of any statements hides nothing exactly when it denies
every request it reaches. Denied requests left reported are absent for one Deny of any form exactly
by a condition on each of its fields, and for several Deny statements of Action and Resource lists
exactly when they deny the pairs of stars. `AllowIsExactIff` settles the fourth.

**Risk and audit** (`RuleEngine.dfy`, `Scorer.dfy`, `Fuzzing.dfy`, `Cascade.dfy`, `Arn.dfy`,
`Catalog.dfy`, `CloudTrail.dfy`). Escalation-rule trees with a two-phase cascade, the score built on
them, the combination fuzzer, harmonic-mean aggregation, the ARN parser, the catalog difference and
two CloudTrail detectors. `Sums.dfy`, `Seqs.dfy` and `Wrappers.dfy` hold shared helpers.

Where the code and its documentation differ, the model follows the code:

- the scheduler README (`crates/activable-scheduler/README.md:110`) caps the retry delay at 600
  seconds and counts four indexes; the statement in `store.rs:267` caps it at 3600 and `schema.rs`
  creates three;
- the CloudTrail detector speaks of five minutes, but `cloudtrail.rs:495-515` reads all digits of a
  timestamp as one number and allows a difference of 300, which is three minutes within one clock hour
  and nothing across an hour or a day boundary; its window of one hour is likewise thirty-six minutes
  (`RapidWindowIsThreeMinutes`, `SuccessWindowIsThirtySixMinutes`, `WindowsMissMidnight`);
- signal weights are documented to sum to at most 0.70, the validator `config.rs:93-99` accepts 0.701;
  `ClampNeverFiresIff` shows 0.70 is the exact bound;
- `fail` does not look at the claimant or the heartbeat, so a scan that is followed by a `fail` can end
  a lease newer than the one it saw, or one that has been beaten since (`StaleScanEndsFreshLease`,
  `BeatenLeaseIsReaped`);
- `complete` has no status guard, so a worker that lost its lease completes the job under another's
  (`LateFinishCompletesFreshLease`).

## Model

| member | source | states |
|---|---|---|
| `Store.JobStore.EnqueueJob` | crates/activable-scheduler/src/store.rs:145-174 | Returns no id exactly when an open job of the same type has the same dedup key; otherwise inserts one pending row and changes nothing else. |
| `Store.JobStore.ClaimJob` | crates/activable-scheduler/src/store.rs:180-215 | Takes a row that is first by priority, then creation time, among the due pending rows of the types that no other statement holds, or reports that there is none; attempts grow by one. |
| `Store.JobStore.CompleteJob` | crates/activable-scheduler/src/store.rs:218-239 | Completes the row whatever its status; an unknown id changes nothing. |
| `Store.JobStore.FailJob` | crates/activable-scheduler/src/store.rs:245-290 | Not found exactly when the row is absent or not running; otherwise pending with a capped delay when a retry is left, else failed; an out-of-range delay is a database error that changes nothing. |
| `Store.JobStore.UpdateHeartbeat` | crates/activable-scheduler/src/store.rs:342-354 | Refreshes the heartbeat of a running row only. |
| `Store.JobStore.FindStaleRunning` | crates/activable-scheduler/src/store.rs:359-381 | Lists, once each, exactly the running rows of the types with a heartbeat older than the threshold. |
| `Histories.WriteKeepsTableOk` | crates/activable-scheduler/src/store.rs:158-280 | Each single statement keeps the table invariant. |
| `Histories.ReachableTableOk` | crates/activable-scheduler/src/schema.rs:5-34 | In every reachable table: one open job per type and dedup key, finish times exactly on terminal rows, a pending job has a try left, a running one has a heartbeat, attempts at most max(1, max_attempts). |
| `Histories.AttemptsFitColumn` | crates/activable-scheduler/src/schema.rs:12 | The increment of the attempts column never overflows its 32-bit type. |
| `Histories.RowsEvolve` | crates/activable-scheduler/src/store.rs:225-276 | Over any stretch of statements a row keeps its identity, never counts down, never leaves completed, and leaves failed only for completed. |
| `Histories.AttemptsCountClaims` | crates/activable-scheduler/src/store.rs:191-207 | The attempts column equals the number of claims of the job, which never exceeds max(1, max_attempts). |
| `Histories.LeasesAreUnique` | crates/activable-scheduler/src/store.rs:191-276 | No two claims return the same (id, attempts) lease, and no lease is ended by two successful fails. |
| `Histories.SameLeaseIff` | crates/activable-scheduler/src/store.rs:191-207 | A job has the lease it had earlier if and only if nobody claimed it in between. |
| `Histories.HeartbeatKeptOrFresh` | crates/activable-scheduler/src/store.rs:191-349 | Over any stretch a heartbeat no claim or beat touched is kept, and one of a running row that was touched is as late as the stretch. |
| `Histories.ReachableSpacingOk` | crates/activable-scheduler/src/store.rs:257-280 | A row waiting for a retry is not due before its last claim plus the gap for its attempts. |
| `Histories.ClaimsAreSpaced` | crates/activable-scheduler/src/store.rs:257-280 | The last claim time of a row is later than any earlier claim by at least the gaps between them. |
| `Histories.RetrySpacing` | crates/activable-scheduler/src/store.rs:257-280 | Over a whole run, two claims of a job are apart by at least the sum of min(B * 2^k, 3600) over the attempts between them. |
| `Histories.NextClaimWaits` | crates/activable-scheduler/src/store.rs:257-280 | In particular the next claim after k attempts waits at least 3600 seconds or B * 2^k. |
| `Histories.RetryDueWithinHour` | crates/activable-scheduler/src/store.rs:265-269 | In every reachable table no retry is due later than 3600 seconds from now, whatever the base. |
| `Histories.RankStep` | crates/activable-scheduler/src/store.rs:180-290 | A rank of status and remaining attempts drops exactly when a statement changes the status, and never rises. |
| `Histories.JobProgress` | crates/activable-scheduler/src/store.rs:180-290 | From any point on, a job changes status at most as often as its rank. |
| `Histories.BoundedActivity` | crates/activable-scheduler/src/store.rs:180-290 | With no further enqueue, the whole table changes status at most as often as its total rank. |
| `Statements.EnqueueWrites` | crates/activable-scheduler/src/store.rs:158-164 | In any legal history an enqueue adds one row with these values in every column. |
| `Statements.ClaimWrites` | crates/activable-scheduler/src/store.rs:191-207 | A claim takes a due row that no other statement holds and that none of the others due precedes by priority, then creation time, and sets exactly these columns. |
| `Statements.CompleteWrites` | crates/activable-scheduler/src/store.rs:225-232 | A completion sets exactly these columns of the row, whatever its status. |
| `Statements.HeartbeatWrites` | crates/activable-scheduler/src/store.rs:345-349 | A heartbeat sets the one column of a running row. |
| `Statements.FailWrites` | crates/activable-scheduler/src/store.rs:257-280 | A failed running job goes back to pending, due after the smaller of its backoff and an hour, if and only if the failure was sent as retryable and an attempt is left; otherwise it is failed with its finish time. |
| `Statements.PowersOfTwo` | crates/activable-scheduler/src/store.rs:267 | The backoff's powers are those of two. |
| `Statements.RowsKeepTheirEnqueue` | crates/activable-scheduler/src/store.rs:158-164 | At every later point the row of an enqueue has its type, payload, key, priority, attempt limit and time. |
| `Statements.EveryRowWasEnqueued` | crates/activable-scheduler/src/store.rs:158-164 | There is no other row. |
| `Statements.EnqueueAcceptedIff` | crates/activable-scheduler/src/store.rs:155-163 | An enqueue is accepted if and only if its id is new and it has no key, or no earlier enqueue of the same type and key has a job still open. |
| `Statements.DuplicatesWaitForTheEnd` | crates/activable-scheduler/src/schema.rs:28-34 | When two enqueues have one type and key, the job of the first has ended before the second. |
| `Statements.EarlierJobFirst` | crates/activable-scheduler/src/store.rs:196-203 | A claim passes over a due, free job only for one of smaller priority number, or of the same and enqueued no later. |
| `Protocol.RunsAreLegal` | crates/activable-scheduler/src/worker.rs:39-280 | Every interleaving of submitters, workers, heartbeats and reapers, with crashes, writes a legal history whose replay is the table. |
| `Protocol.ReachableJobsOk` | crates/activable-scheduler/src/worker.rs:39-280 | The table invariant holds at every point of every run. |
| `Protocol.HeldLeasesDistinct` | crates/activable-scheduler/src/worker.rs:54-62 | At no point do two workers hold the same lease, and no held lease is newer than its row. |
| `Races.SameLeaseInRunIff` | crates/activable-scheduler/src/store.rs:191-207 | Between two points of any run a job keeps its lease if and only if nobody claims it. |
| `Races.ScannedLeaseLater` | crates/activable-scheduler/src/reaper.rs:51-59 | A scanned job has its lease if and only if nobody claimed it since; while running it has its heartbeat if and only if nobody claimed or beat it, and then it is still stale. |
| `Races.ReapEndsScannedLeaseIff` | crates/activable-scheduler/src/reaper.rs:59-79 | A reap ends the lease it meets if and only if the job is running and any retry left has a delay in range; that lease is the scanned one if and only if nobody claimed the job since, with the scanned heartbeat if and only if nobody beat it either. |
| `Races.FinishMeetsTakenLeaseIff` | crates/activable-scheduler/src/worker.rs:54-223 | A worker's finish meets the lease it took if and only if nobody claimed the job in between; a success completes the job regardless, a failure ends whatever lease it meets. |
| `Races.HoldsLeaseIff` | crates/activable-scheduler/src/worker.rs:54-223 | At any point a worker holds a lease if and only if it has claimed a job and neither finished nor crashed since. |
| `Races.FinishWrites` | crates/activable-scheduler/src/worker.rs:102-223 | In any run a finish writes the row of its worker's lease by the way the handler ended (result, message and retry included), and no other row. |
| `Races.HardFailureIsFinal` | crates/activable-scheduler/src/worker.rs:189-197 | A panic or a non-retryable error fails a running job for good. |
| `Races.ScanListsIff` | crates/activable-scheduler/src/store.rs:366-371 | A scan lists exactly the running rows of its types whose heartbeat is older than the threshold. |
| `Races.StaleScanEndsFreshLease` | crates/activable-scheduler/src/reaper.rs:51-82 | A run in which a second reaper ends a lease claimed at that very moment. |
| `Races.BeatenLeaseIsReaped` | crates/activable-scheduler/src/reaper.rs:51-82 | A run in which a reap ends a lease whose heartbeat was refreshed after the scan. |
| `Races.LateFinishCompletesFreshLease` | crates/activable-scheduler/src/store.rs:225-228 | A run in which a worker that lost its lease completes the job while a second worker holds a fresh one. |
| `Protocol.RunningTypesServed` | crates/activable-scheduler/src/scheduler.rs:176-190 | Every job ever claimed has a type the scheduler serves. |
| `Recovery.StaleJobIsRecovered` | crates/activable-scheduler/src/reaper.rs:51-82 | In any run, after an uninterrupted tick every row that was stale for the reaper is failed if it has no attempt left, else pending, or unchanged if its delay is out of range; every other row is as before. |
| `Recovery.SilentJobIsRecovered` | crates/activable-scheduler/src/reaper.rs:51-82 | When all claims are for types the reaper scans, the stale rows are all those running with a heartbeat older than the threshold. |
| `Recovery.ListedOrReaped` | crates/activable-scheduler/src/reaper.rs:59-79 | Whatever interleaves with a tick, its reaper's list is a tail of the scanned one, and the reaper has reaped the rest. |
| `Recovery.ScannedJobIsRecovered` | crates/activable-scheduler/src/reaper.rs:51-82 | Whatever interleaves with a tick, when its list is worked off each scanned job has ended the lease, or been claimed again, unless a reap of the list found its delay out of range. |
| `Recovery.ReaperHasListIff` | crates/activable-scheduler/src/reaper.rs:52-59 | A reaper takes up a list by a scan, drops it by abandoning it, and in no other way. |
| `Workers.Worker.Poll` | crates/activable-scheduler/src/worker.rs:47-65 | A claim for the handlers' types; the lease remembers the row's attempts and its job has a handler. |
| `Workers.Worker.Finish` | crates/activable-scheduler/src/worker.rs:102-223 | Exactly one write for the handler's end (complete, fail, non-retryable fail for a panic, none for a cancellation), whatever has become of the row. |
| `Reapers.Reaper.Tick` | crates/activable-scheduler/src/reaper.rs:51-82 | An uninterrupted tick fails exactly the stale rows, leaves every other row untouched, and counts the rows it moved. |
| `Schedulers.HandlerRegistry.Register` | crates/activable-scheduler/src/registry.rs:31-42 | The last registration for a type wins and no other type is affected. |
| `Schedulers.Build` | crates/activable-scheduler/src/scheduler.rs:169-200 | Refused exactly when no handler is registered; otherwise pool and reaper serve the same types. |
| `Backoff.NeverOverflowsIff` | crates/activable-scheduler/src/schema.rs:54-68 | No draw overflows 32 bits if and only if attempts is not negative; the worst sum is exactly 2^31 - 1. |
| `Backoff.DelayBounds` | crates/activable-scheduler/src/schema.rs:54-68 | For a positive cap the delay lies between min(2^attempts, cap) and the cap. |
| `Backoff.DelayIff` | crates/activable-scheduler/src/schema.rs:54-68 | For a positive cap the possible delays are exactly those from min(2^attempts, cap) on, below twice that, and not above the cap. |
| `Backoff.MonotoneIff` | crates/activable-scheduler/src/schema.rs:54-68 | For all caps and draws a later attempt waits no less, if and only if the earlier attempt is below 30. |
| `Glob.MatchFromDecides` | crates/activable-iam-engine/src/action_matcher.rs:44-88 | From any pair of indices the recursion decides whether the rest of the text is in the language of the rest of the pattern. |
| `Glob.MatchDecidesLanguage` | crates/activable-iam-engine/src/action_matcher.rs:36-41 | The matcher terminates and accepts exactly the declarative glob language. |
| `Glob.LiteralLanguage` | crates/activable-iam-engine/src/action_matcher.rs:26-29 | Without wildcards the language is the pattern alone, so the fast path agrees. |
| `Glob.MatchingTextIncludes` | crates/activable-iam-engine/src/effective_permissions.rs:82-96 | If a pattern matches the text of another, and has no `?` or the other has no `*`, it matches every string the other matches. |
| `Glob.SoundOuterIff` | crates/activable-iam-engine/src/effective_permissions.rs:82-96 | For a fixed limiting pattern this holds for every matched pattern if and only if it has no `?`. |
| `Glob.SoundInnerIff` | crates/activable-iam-engine/src/effective_permissions.rs:82-96 | For a fixed matched pattern this holds for every limiting pattern if and only if it has no `*`. |
| `ActionMatcher.ActionMatchesDecides` | crates/activable-iam-engine/src/action_matcher.rs:22-33 | Fast path and matcher together decide the glob language on lower-cased text. |
| `ActionMatcher.FoldingOnlyAdds` | crates/activable-iam-engine/src/action_matcher.rs:22-33 | Ignoring case never loses a match. |
| `ActionMatcher.ActionMatchesIff` | crates/activable-iam-engine/src/action_matcher.rs:22-33 | An action matches if and only if the pattern's glob language holds some recasing of it, letter by letter. |
| `ActionMatcher.LiteralMatchesIff` | crates/activable-iam-engine/src/action_matcher.rs:26-29 | A pattern without wildcards matches its recasings and nothing else. |
| `ActionMatcher.CaseIsIgnored` | crates/activable-iam-engine/src/action_matcher.rs:23-24 | Recasing the pattern or the action never changes the verdict. |
| `ActionMatcher.SoundActionPatternIff` | crates/activable-iam-engine/src/action_matcher.rs:22-33 | The inclusion law for case-insensitive action patterns holds if and only if the limiting pattern has no `?`. |
| `ResourceMatcher.ResourceMatchesDecides` | crates/activable-iam-engine/src/resource_matcher.rs:21-34 | Both shortcuts and the matcher together decide the glob language, case kept. |
| `PrefixMatchers.PrefixCoversGlobIff` | crates/activable-iam-engine/src/resource_policy_evaluator.rs:270-291 | The prefix matcher accepts at least the glob language if and only if no `?` stands before the first `*`. |
| `PrefixMatchers.PrefixEqualsGlobIff` | crates/activable-iam-engine/src/resource_policy_evaluator.rs:270-291 | It is the glob matcher if and only if the pattern is a literal followed by stars only. |
| `PrefixMatchers.MatchersAgree` | crates/activable-iam-engine/src/dangerous_actions.rs:155-166 | The registry's matcher and the resource-policy matcher accept the same values. |
| `PrefixMatchers.RegistryWithinEngine` | crates/activable-iam-engine/src/dangerous_actions.rs:155-166 | On literal-then-stars patterns the registry accepts no action the engine's matcher rejects. |
| `Policy.CoverLifts` | crates/activable-iam-engine/src/deny_engine.rs:63-103 | A statement that covers a symbolic pair, and has no NotAction, NotResource or badly placed `?`, covers all the pair stands for. |
| `Policy.SliceLifts` | crates/activable-iam-engine/src/scp_evaluator.rs:43-96 | The same for a list of Allow statements, as an SCP level, a boundary or a session policy reads it. |
| `Policy.LiteralTransparent` | crates/activable-iam-engine/src/deny_engine.rs:63-103 | No statement of any form tells a literal pair from a request it stands for. |
| `EffectivePermissions.IncreasingUnique` | crates/activable-iam-engine/src/effective_permissions.rs:109-117 | A strictly increasing vector is determined by its elements. |
| `EffectivePermissions.Dedup` | crates/activable-iam-engine/src/effective_permissions.rs:115 | On a sorted vector, removing neighbours leaves each element exactly once, in strict order. |
| `EffectivePermissions.ComputeEffectivePermissions` | crates/activable-iam-engine/src/effective_permissions.rs:32-118 | The vector is strictly increasing by (action, resource) and holds exactly the candidate pairs that pass the Deny, SCP and boundary checks. |
| `EffectivePermissions.OrderedByActionThenResource` | crates/activable-iam-engine/src/effective_permissions.rs:110-114 | A vector is strictly increasing if and only if it is ordered by action, and within one action by resource, in each by the first place of difference. |
| `PermissionTheorems.WithSession` | crates/activable-iam-engine/src/session_policy.rs:150-169 | Keeps exactly the pairs the session policy does not constrain, in order; everything without a session policy. |
| `PermissionTheorems.LimitsAreSound` | crates/activable-iam-engine/src/effective_permissions.rs:88-104 | Every concrete request an effective pair stands for is allowed by every SCP level, the boundary and the session policy, when those lift the pair. |
| `PermissionTheorems.CompleteWithoutLimits` | crates/activable-iam-engine/src/effective_permissions.rs:51-86 | With no SCP or boundary, every concrete request that is allowed and not denied is matched by an output pair, when the Deny statements lift the candidates. |
| `PermissionTheorems.ExactOnLiteralIdentity` | crates/activable-iam-engine/src/effective_permissions.rs:32-118 | With literal identity policies a request is reported if and only if it is permitted, for every Deny, SCP and boundary policy. |
| `PermissionTheorems.OutputIgnoresOrder` | crates/activable-iam-engine/src/effective_permissions.rs:32-118 | Permuting, regrouping or repeating policies, statements or levels leaves the output unchanged. |
| `PermissionTheorems.OutputMonotoneInStatements` | crates/activable-iam-engine/src/effective_permissions.rs:40-86 | An added Allow only adds pairs, an added Deny only removes pairs. |
| `PermissionTheorems.OutputShrinksUnderLimits` | crates/activable-iam-engine/src/effective_permissions.rs:88-98 | An added SCP level, boundary or session policy only removes pairs. |
| `PermissionTheorems.FailingDeniesDropOut` | crates/activable-iam-engine/src/deny_engine.rs:105-132 | Removing every Deny with a failing condition leaves the output unchanged. |
| `PermissionTheorems.HoldingConditionsClear` | crates/activable-iam-engine/src/deny_engine.rs:105-132 | So does clearing the conditions of every Deny whose conditions all hold, and of every Allow. |
| `PermissionTheorems.UnlimitedIsWithinLimits` | crates/activable-iam-engine/src/boundary_evaluator.rs:37-40 | No SCP level and an absent or empty boundary leave every request. |
| `PermissionTheorems.QuestionMarkLeaksThroughScp` | crates/activable-iam-engine/src/scp_evaluator.rs:57-61 | An SCP on `?` passes the pair `*`, which stands for actions the SCP blocks. |
| `PermissionTheorems.NotActionLeaksThroughScp` | crates/activable-iam-engine/src/scp_evaluator.rs:51-56 | An SCP with a NotAction prefix passes the pair `*`, which stands for every excluded action. |
| `PermissionTheorems.NotActionDenyOverblocks` | crates/activable-iam-engine/src/deny_engine.rs:64-69 | A Deny with NotAction removes the pair `*` and with it requests that are permitted. |
| `PermissionTheorems.NarrowDenyLeavesPair` | crates/activable-iam-engine/src/effective_permissions.rs:82-86 | A Deny narrower than a pair leaves the pair, which still stands for denied requests. |
| `Fields.ReachedIff` | crates/activable-iam-engine/src/effective_permissions.rs:82-96 | The texts a pattern matches, read as patterns, together stand for exactly what the pattern with each `?` widened to `*` matches. |
| `Fields.StarsCoveredMatchAll` | crates/activable-iam-engine/src/deny_engine.rs:64-74 | A list of patterns that matches each number of stars up to one more than its longest pattern matches every text but, perhaps, the empty one. |
| `Fields.ReachesIff` | crates/activable-iam-engine/src/deny_engine.rs:64-98 | A field of any lists reaches a name, as computed from its patterns, if and only if some text it admits stands for the name. |
| `Fields.FieldDescendsIff` | crates/activable-iam-engine/src/deny_engine.rs:64-98 | A field admits every concrete name it reaches if and only if its exclusions match all numbers of stars, or its listed patterns match what their starred forms do. |
| `Fields.RefusalDescendsIff` | crates/activable-iam-engine/src/deny_engine.rs:64-98 | No text a field refuses stands for a concrete name it admits if and only if the opposite field descends. |
| `LimitTheorems.ReachesRequestIff` | crates/activable-iam-engine/src/deny_engine.rs:63-103 | A statement of any form reaches a request if and only if it covers some pair that stands for the request. |
| `LimitTheorems.LevelIsSoundIff` | crates/activable-iam-engine/src/scp_evaluator.rs:25-96 | An SCP level of any statements lets no effective pair stand for a request it blocks, whatever the other policies, if and only if it allows every request its Allow statements reach. |
| `LimitTheorems.BoundaryIsSoundIff` | crates/activable-iam-engine/src/boundary_evaluator.rs:32-94 | The same for a boundary, which is always sound when it has no statements. |
| `LimitTheorems.SessionIsSoundIff` | crates/activable-iam-engine/src/session_policy.rs:53-116 | The same for a session policy. |
| `LimitTheorems.OneReachIsCoveredIff` | crates/activable-iam-engine/src/scp_evaluator.rs:43-96 | One statement of any form covers every request it reaches if and only if both its fields descend, or one of them admits nothing. |
| `LimitTheorems.DenyIsLosslessIff` | crates/activable-iam-engine/src/deny_engine.rs:51-136 | Any Deny statements together hide no permitted request, whatever the Allow statements, if and only if those of them whose conditions hold deny every request they reach. |
| `LimitTheorems.OneDenyIsTightIff` | crates/activable-iam-engine/src/deny_engine.rs:51-136 | A Deny of any form leaves no denied request reported if and only if the refusals of both its fields descend, or it denies nothing, for instance because a condition fails. |
| `LimitTheorems.ListedDenyIsTightIff` | crates/activable-iam-engine/src/deny_engine.rs:70-98 | Any Deny statements leave no denied request reported, when those whose conditions hold have Action and Resource lists, if and only if these deny each pair of stars that stands for a request they deny. |
| `LimitTheorems.ListingLevelIsSoundIff` | crates/activable-iam-engine/src/scp_evaluator.rs:57-86 | An SCP that allows one action pattern on one resource pattern is sound behind all identity policies if and only if neither has a `?`. |
| `LimitTheorems.AllButLevelIsSoundIff` | crates/activable-iam-engine/src/scp_evaluator.rs:51-77 | An SCP that allows all but one action pattern, or all but one resource pattern, is sound if and only if that pattern is wildcards only, with a `*` and at most one `?`. |
| `LimitTheorems.ListingDenyIff` | crates/activable-iam-engine/src/deny_engine.rs:70-96 | A Deny on one action and one resource pattern hides no permitted request, whatever the Allow statements, if and only if neither has a `?`; it leaves no denied request reported if and only if both match (nearly) everything. |
| `LimitTheorems.NotActionDenyIff` | crates/activable-iam-engine/src/deny_engine.rs:64-69 | A Deny with one NotAction pattern hides nothing permitted if and only if the pattern matches (nearly) everything, and leaves nothing denied reported if and only if it has no `?`. |
| `LimitTheorems.NotResourceDenyIff` | crates/activable-iam-engine/src/deny_engine.rs:85-90 | The same for a Deny with one NotResource pattern. |
| `LimitTheorems.AllowIsExactIff` | crates/activable-iam-engine/src/effective_permissions.rs:53-71 | An Allow statement on its own reports exactly the requests it covers if and only if it has no NotAction and no NotResource. |
| `LimitTheorems.PairIsExactIff` | crates/activable-iam-engine/src/effective_permissions.rs:74-105 | A pair gets from every statement the verdict of each request it stands for if and only if its action and resource have no wildcard. |
| `RuleEngine.EvaluateRequirement` | crates/activable-risk/src/rule_engine.rs:23-63 | Short-circuit evaluation of the tree decides the and/or formula and reports the evidence of the branches taken. |
| `RuleEngine.EvidenceIsSound` | crates/activable-risk/src/rule_engine.rs:23-63 | Every reported permission is granted, and the reported ones alone satisfy a requirement that matched. |
| `RuleEngine.EvidenceOfAllInOrder` | crates/activable-risk/src/rule_engine.rs:38-52 | The evidence of a conjunction is that of its parts in order, up to the first that is not met. |
| `RuleEngine.EvidenceOfAnyIsFirst` | crates/activable-risk/src/rule_engine.rs:53-61 | The evidence of a disjunction is that of its first part that is met. |
| `RuleEngine.MatchAllRules` | crates/activable-risk/src/rule_engine.rs:105-140 | Primary matches first, then the cascade rules whose trigger the primary matches alone reach. |
| `RuleEngine.PrimaryReports` | crates/activable-risk/src/rule_engine.rs:72-113 | The first phase reports a match if and only if it is some rule's own. |
| `RuleEngine.CascadeReports` | crates/activable-risk/src/rule_engine.rs:117-137 | The second phase reports a match if and only if it is a rule's whose trigger the first phase reaches. |
| `RuleEngine.CountsQualifying` | crates/activable-risk/src/rule_engine.rs:121-124 | The count a trigger is compared with is the number of primary matches severe enough. |
| `RuleEngine.MatchesIff` | crates/activable-risk/src/rule_engine.rs:72-140 | The result is first the matches of the rules without a trigger whose requirement is met, then those of the rules with a trigger that asks for no more severe primary matches than there are, and nothing else. |
| `RuleEngine.TriggerThreshold` | crates/activable-risk/src/rule_engine.rs:121-126 | A trigger asking for exactly as many severe matches as there are fires, one asking for one more does not. |
| `RuleEngine.MatchesInOrder` | crates/activable-risk/src/rule_engine.rs:109-137 | Within each phase the matches come in the order of the rules. |
| `RuleEngine.GrantedIff` | crates/activable-risk/src/rule_engine.rs:28-37 | A required permission is granted if and only if some permission's pattern holds a recasing of it. |
| `RuleEngine.RepeatSize` | crates/activable-risk/src/rule_engine.rs:29-36 | It is reported once for each permission that grants it. |
| `RuleEngine.SupersetGrantsAtLeast` | crates/activable-risk/src/rule_engine.rs:28-37 | Adding permissions, or widening one to a pattern without `?` that matches its text, loses no grant. |
| `RuleEngine.SatisfiedMonotone` | crates/activable-risk/src/rule_engine.rs:23-63 | A larger permission set keeps every satisfied requirement. |
| `RuleEngine.PrimaryMonotone` | crates/activable-risk/src/rule_engine.rs:109-113 | It loses no primary match, no qualifying count and no boost. |
| `RuleEngine.CascadeMonotone` | crates/activable-risk/src/rule_engine.rs:117-137 | It loses no cascade match. |
| `RuleEngine.MatchingIsMonotone` | crates/activable-risk/src/rule_engine.rs:105-140 | Through both phases a larger permission set reports every rule the smaller one does, with no lower total boost. |
| `Scorer.ScorePrincipal` | crates/activable-risk/src/scorer.rs:13-58 | The score is the clamped sum of the weighted signals and the capped boost, the severity is the first threshold it reaches, and there is one contribution record per signal. |
| `Scorer.TotalsAddUp` | crates/activable-risk/src/scorer.rs:22-36 | Each signal adds its normalized value times its weight, 0 if none is configured, to the total. |
| `Scorer.BoostsAddUp` | crates/activable-risk/src/scorer.rs:39 | Each match adds its boost. |
| `Scorer.SeverityIff` | crates/activable-risk/src/finding.rs:18-30 | With thresholds in order, each severity is exactly the scores from its threshold to the next. |
| `Scorer.ScoreIsMonotone` | crates/activable-risk/src/scorer.rs:38-46 | With non-negative boosts a larger permission set never lowers the score, nor the severity under any thresholds. |
| `Scorer.TotalWithinWeights` | crates/activable-risk/src/scorer.rs:24-36 | Signals in [0, 1], one per name, add up to at most the sum of the weights. |
| `Scorer.ClampNeverFiresIff` | crates/activable-risk/src/scorer.rs:42-43 | The clamp changes no score, for all such signals and non-negative boosts, if and only if the weights sum to at most 0.70. |
| `Scorer.DefaultWeightsSum` | crates/activable-risk/src/config.rs:65-74 | The default weights sum to exactly 0.70. |
| `Fuzzing.GeneratePairs` | crates/activable-risk/src/fuzzing.rs:96-104 | The nested loops produce the two-element selections in recursive order. |
| `Fuzzing.GenerateTriples` | crates/activable-risk/src/fuzzing.rs:107-117 | The same for three elements. |
| `Fuzzing.CombosComplete` | crates/activable-risk/src/fuzzing.rs:96-117 | The index lists are strictly increasing in lexicographic order and are exactly the increasing index lists, so none is missed or repeated. |
| `Fuzzing.RowsAreCombos` | crates/activable-risk/src/fuzzing.rs:96-117 | Each generated selection is the actions at the indices of the combination in the same place. |
| `Fuzzing.GeneratedCounts` | crates/activable-risk/src/fuzzing.rs:96-117 | There are n(n-1)/2 pairs and n(n-1)(n-2)/6 triples. |
| `Fuzzing.RunFuzzer` | crates/activable-risk/src/fuzzing.rs:139-194 | Reports, family by family, each pair and (when enabled) each triple that triggers a rule. |
| `Fuzzing.DiscoversAll` | crates/activable-risk/src/fuzzing.rs:145-163 | A combination is reported if and only if it triggers a rule. |
| `Fuzzing.ReportsIff` | crates/activable-risk/src/fuzzing.rs:139-194 | The fuzzer reports exactly the pairs of each family, and with triples enabled the triples, that trigger a rule, each with its rule ids, novelty and severity. |
| `Fuzzing.ClassifyIff` | crates/activable-risk/src/fuzzing.rs:120-136 | Critical, high and medium by the actions involved. |
| `Fuzzing.PairsPrecedeTriples` | crates/activable-risk/src/fuzzing.rs:143-190 | Within a family the pairs come first. |
| `Fuzzing.DiscoveriesInOrder` | crates/activable-risk/src/fuzzing.rs:145-163 | Discoveries come in the order of the combinations. |
| `Fuzzing.FamiliesInOrder` | crates/activable-risk/src/fuzzing.rs:142 | And of the families. |
| `Fuzzing.LargerCombosReportMore` | crates/activable-risk/src/fuzzing.rs:145-163 | Adding actions to a combination keeps every rule it triggers. |
| `Fuzzing.TriplesExtendPairs` | crates/activable-risk/src/fuzzing.rs:142-190 | With triples enabled, all rules of a discovered pair are reported by every triple of the family that extends it. |
| `Cascade.HarmonicMeanBounds` | crates/activable-risk/src/cascade.rs:17-31 | Zero if and only if no score counts; otherwise minimum, harmonic mean, arithmetic mean and maximum of the counting scores are in this order. |
| `Cascade.PositivesIff` | crates/activable-risk/src/cascade.rs:18-22 | The scores that count are the finite ones above zero. |
| `Cascade.HarmonicMeanBalances` | crates/activable-risk/src/cascade.rs:28-30 | Times the sum of the reciprocals of the counting scores it is their number. |
| `Cascade.HarmonicMeanOfTwo` | crates/activable-risk/src/cascade.rs:28-30 | For two scores it is twice their product over their sum. |
| `Cascade.WeakestLinkCaps` | crates/activable-risk/src/cascade.rs:7-16 | It is at most the number of counting scores times any one of them. |
| `Cascade.HarmonicMeanIgnoresOrder` | crates/activable-risk/src/cascade.rs:17-31 | Independent of the order of the scores. |
| `Cascade.HarmonicMeanIgnoresZeros` | crates/activable-risk/src/cascade.rs:18-22 | A score that is not positive, or not finite, changes nothing wherever it is inserted. |
| `Arns.JoinOfSplit` | crates/activable-schema/src/arn.rs:43 | Joining the parts of an n-way split gives the text back, colons in the last part included. |
| `Arns.SplitOfJoin` | crates/activable-schema/src/arn.rs:43 | Splitting joined parts gives them back when only the last has colons. |
| `Arns.ParsesIff` | crates/activable-schema/src/arn.rs:38-102 | A text parses to an ARN if and only if the ARN is well formed and the text spells it up to case in three fields. |
| `Arns.ParseOfCanonical` | crates/activable-schema/src/arn.rs:106-111 | The canonical form of a well-formed ARN parses to it. |
| `Arns.RoundTrip` | crates/activable-schema/src/arn.rs:38-133 | For every text that parses, its canonical form parses to the same ARN, is a fixed point, and is a node id exactly when the text is. |
| `Arns.CanonicalInjective` | crates/activable-schema/src/arn.rs:106-111 | Distinct well-formed ARNs have distinct canonical forms. |
| `Arns.CanonicalText` | crates/activable-schema/src/arn.rs:106-111 | The six parts in order, separated by colons. |
| `Arns.TooFewPartsIff` | crates/activable-schema/src/arn.rs:39-50 | Refused for the number of parts if and only if the text is not empty and has fewer than five colons. |
| `Arns.PartErrorsIff` | crates/activable-schema/src/arn.rs:52-93 | With six parts the error names the first part at fault. |
| `Arns.NodeIdIff` | crates/activable-schema/src/arn.rs:128-133 | A node id spells a well-formed ARN whose resource has no wildcard, and nothing else is one. |
| `Catalog.CreateSnapshot` | crates/activable-risk/src/service_catalog.rs:42-52 | The total is the number of listed actions over all services. |
| `Catalog.DiffCatalogs` | crates/activable-risk/src/service_catalog.rs:55-113 | Both timestamps, new and removed services and, per common service, exactly the non-empty differences, with both totals. |
| `Catalog.CommonBalance` | crates/activable-risk/src/service_catalog.rs:67-88 | Over the common services, what is added and removed accounts for the change in length but for repeated entries. |
| `Catalog.TotalsConservedIff` | crates/activable-risk/src/service_catalog.rs:90-101 | Total after plus removed equals total before plus new, if and only if the common services repeat as many entries before as after. |
| `Catalog.TotalsConserved` | crates/activable-risk/src/service_catalog.rs:90-101 | So it always does for duplicate-free action lists. |
| `CloudTrail.GroupByPrincipal` | crates/activable-iam-engine/src/cloudtrail.rs:298-304 | Each principal with an event gets all its events, in order. |
| `CloudTrail.FindDeniedThenSuccess` | crates/activable-iam-engine/src/cloudtrail.rs:309-335 | Pairs each denied event with the first later success. |
| `CloudTrail.DeniedPairsIff` | crates/activable-iam-engine/src/cloudtrail.rs:309-335 | A pair is reported if and only if the first is denied and the second is its first later success; each denied event at most once, in order. |
| `CloudTrail.DeniedThenSuccessIff` | crates/activable-iam-engine/src/cloudtrail.rs:309-335 | In terms of the events: the first was refused access, the second is its first later success of the same name within 3600 of the timestamp number. |
| `CloudTrail.WritesGrow` | crates/activable-iam-engine/src/cloudtrail.rs:338-342 | Kept for the second pattern are, in order, the calls to the IAM service that are among its write actions. |
| `CloudTrail.FindRapidChanges` | crates/activable-iam-engine/src/cloudtrail.rs:344-371 | At most one report: the first stretch of more than three writes. |
| `CloudTrail.DetectRapidChanges` | crates/activable-iam-engine/src/cloudtrail.rs:307-371 | The same for each principal. |
| `CloudTrail.RapidChangeIff` | crates/activable-iam-engine/src/cloudtrail.rs:344-371 | In timestamp order, reported if and only if some four consecutive writes fit the window; it starts at the earliest such write, holds exactly the later writes in its window, and ends in range. |
| `CloudTrail.NumberOfFormat` | crates/activable-iam-engine/src/cloudtrail.rs:496-508 | The timestamp number of a formatted time strings its fields together. |
| `CloudTrail.UnreadableIsZero` | crates/activable-iam-engine/src/cloudtrail.rs:502-507 | A timestamp without digits, or with twenty or more, counts as zero. |
| `CloudTrail.WindowReadsMinutesIff` | crates/activable-iam-engine/src/cloudtrail.rs:495-515 | For any two times of any days, a window asks for the same date and hour and for minute-second numbers that far apart, if and only if the window is at most 4040. |
| `CloudTrail.WindowInMinutes` | crates/activable-iam-engine/src/cloudtrail.rs:495-515 | A window of 100 per minute accepts two times if and only if they are in the same hour of the same day and at most that many minutes apart. |
| `CloudTrail.RapidWindowIsThreeMinutes` | crates/activable-iam-engine/src/cloudtrail.rs:350 | So the window of rapid changes is three minutes within one hour. |
| `CloudTrail.SuccessWindowIsThirtySixMinutes` | crates/activable-iam-engine/src/cloudtrail.rs:316-320 | And the window of denied-then-success is thirty-six minutes within one hour. |
| `CloudTrail.WindowsMissMidnight` | crates/activable-iam-engine/src/cloudtrail.rs:495-515 | Two times two seconds apart across midnight that both windows reject. |

## Left out

- Postgres itself: connections, the pool, schema creation and row parsing. Each SQL statement is one atomic step at the current clock, which is a real number of seconds that never goes back; ties in the claim order are broken in any way, and the rows SKIP LOCKED passes over are a parameter.
- Generated ids and random jitter are parameters; the jitter is any real in [0, 1).
- `Jobs.BackoffDefined`: the range error of double-precision arithmetic is modelled on exact reals, so rounding right at the limit, an infinite or NaN base and the interval range of a hugely negative base are not.
- `Histories.RetrySpacing`: stated for a base of at least 0, since a negative base asks for a retry in the past.
- The column `run_at` and the 32-bit range of `priority` and `max_attempts`; no statement computes with them.
- Tokio tasks, sleeps and shutdown flags: the protocol says only which step may come next. A crash, a cancelled task and a failed connection are a lease dropped without a write.
- The worker's arm for a job without a handler: the claim filter is the handlers' types, so `Workers.Worker.Poll` shows it is never reached.
- The debug-build assertion on registering a type twice; the release behaviour is modelled.
- A negative attempt count in the delay utility is only shown to overflow; the value it then wraps to is not modelled.
- Condition operators, IP ranges and the evaluation context: whether a condition holds is a parameter. The effective-permission computation ignores the context it is given and uses the default one; SCPs, boundaries and session policies ignore conditions and Deny statements, as in the code.
- `PermissionTheorems.LimitsAreSound`: one direction, for all limits together; the exact conditions in `LimitTheorems` are for each limit by itself.
- `LimitTheorems.ListedDenyIsTightIff`: several Deny statements of which some have NotAction or NotResource are settled one by one only (`LimitTheorems.OneDenyIsTightIff`), since one may deny what another excludes.
- Unicode case folding: lower-casing maps ASCII letters only. Digits in timestamps are ASCII digits.
- Policy JSON, rule YAML and CloudTrail record parsing: the model starts from the parsed values. That a statement has exactly one of Action and NotAction (`policy_parser.rs:86-110`) is a hypothesis of the completeness theorem.
- `EffectivePermissions.Sort`: the library sort is replaced by an insertion sort with the same contract.
- `Catalog.DiffCatalogs`: service and action lists of the difference are sets, because their order comes from hash iteration.
- `CloudTrail.DetectRapidChanges`: the order of the reports across principals comes from hash iteration and is not modelled; each report is its start and length among the principal's writes.
- The other two CloudTrail patterns and the attempt score: filters and capped sums with nothing deeper to prove.
- The dangerous-action registry beyond its matcher, resource-policy evaluation beyond its matcher, `abac`, `federation`, and drift and staleness checks: lookups and thresholds.
- `RuleEngine.MatchRule`: rule text, services, prerequisites and resource constraints are advisory in the code and have no field here.
- Floating-point rounding in scores, boosts and the harmonic mean: these are real numbers.
- The GraphQL, graph and ingest crates: resolvers, SDK calls and query text that runs elsewhere.
