/** Actors that act late: a reap after its scan, a finish after its claim. */
module Races {
  import opened Wrappers
  import opened Jobs
  import opened Histories
  import opened Protocol
  import Statements

  ghost predicate TakenIn(r: Run, m: nat, n: nat, id: JobId)
    requires n <= |r.events|
  {
    exists k :: m <= k < n && r.events[k].Take? && r.events[k].id == id
  }

  /** Claimed or beaten. */
  ghost predicate TouchedIn(r: Run, m: nat, n: nat, id: JobId)
    requires n <= |r.events|
  {
    exists k :: m <= k < n && (r.events[k].Take? || r.events[k].Beat?) && r.events[k].id == id
  }

  lemma TouchesAreWrites(base: real, r: Run, m: nat, n: nat, id: JobId)
    requires IsRun(base, r) && n <= |r.events|
    ensures ClaimedIn(HistoryOf(r, n), m, n, id) <==> TakenIn(r, m, n, id)
    ensures RefreshedIn(HistoryOf(r, n), m, n, id) <==> TouchedIn(r, m, n, id)
  {
    forall k | m <= k < n
      ensures ClaimsAt(HistoryOf(r, n), k, id) <==> r.events[k].Take? && r.events[k].id == id
      ensures BeatsAt(HistoryOf(r, n), k, id) <==> r.events[k].Beat? && r.events[k].id == id
    {
      TakesAreClaims(base, r, n, k, id);
      BeatsAreHeartbeats(base, r, n, k, id);
    }
  }

  /** Between two points of a run a job keeps its lease exactly when nobody claims it. */
  lemma SameLeaseInRunIff(base: real, r: Run, m: nat, n: nat, id: JobId)
    requires IsRun(base, r) && m <= n <= |r.events| && id in r.states[m].jobs
    ensures id in r.states[n].jobs && Evolves(r.states[m].jobs[id], r.states[n].jobs[id])
    ensures r.states[m].jobs[id].attempts == r.states[n].jobs[id].attempts <==> !TakenIn(r, m, n, id)
  {
    var h := HistoryOf(r, n);
    RunsAreLegal(base, r, m);
    RunsAreLegal(base, r, n);
    HistoriesNest(r, m, n);
    HistoriesNest(r, n, n);
    RowsEvolve(base, h, m, n, id);
    SameLeaseIff(base, h, m, n, id);
    TouchesAreWrites(base, r, m, n, id);
  }

  lemma {:induction false} RunClock(base: real, r: Run, m: nat, n: nat)
    requires IsRun(base, r) && m <= n <= |r.events|
    ensures r.states[m].now <= r.states[n].now
  {
    if m < n {
      RunClock(base, r, m, n - 1);
      NextWrites(base, r.states[n - 1], r.events[n - 1], r.states[n]);
    }
  }

  // ----- a reap after its scan -----

  /** The running job's lease is over. */
  ghost predicate Ended(j: Job, j': Job) { j.status.Running? && !j'.status.Running? }

  lemma ScanFindsStale(base: real, r: Run, i: nat, id: JobId)
    requires IsRun(base, r) && i < |r.events| && r.events[i].Scan? && id in r.events[i].stale
    ensures id in r.states[i].jobs
    ensures IsStale(r.states[i].jobs[id], r.events[i].types, r.events[i].thresholdSeconds, r.states[i + 1].now)
  {
    assert Next(base, r.states[i], r.events[i], r.states[i + 1]);
  }

  /** A scan lists the running rows of its types whose heartbeat is older than the threshold. */
  lemma ScanListsIff(base: real, r: Run, i: nat, id: JobId)
    requires IsRun(base, r) && i < |r.events| && r.events[i].Scan?
    ensures id in r.events[i].stale <==>
      && id in r.states[i].jobs
      && var j := r.states[i].jobs[id];
      && j.status == Running && j.jobType in r.events[i].types
      && j.heartbeatAt != None
      && j.heartbeatAt.value + r.events[i].thresholdSeconds as real < r.states[i + 1].now
  {
    assert Next(base, r.states[i], r.events[i], r.states[i + 1]);
  }

  /** What is left of a scanned lease later on: the lease is the same exactly when nobody claimed
      the job, and if the job is running its heartbeat is the same exactly when nobody claimed or
      beat it, in which case it is still stale. */
  lemma ScannedLeaseLater(base: real, r: Run, i: nat, j: nat, id: JobId)
    requires IsRun(base, r) && i < j <= |r.events| && r.events[i].Scan? && id in r.events[i].stale
    ensures id in r.states[i].jobs && id in r.states[j].jobs
    ensures var was, later := r.states[i].jobs[id], r.states[j].jobs[id];
      && (was.attempts == later.attempts <==> !TakenIn(r, i, j, id))
      && (r.events[i].thresholdSeconds >= 0 && later.status.Running? ==>
            (was.heartbeatAt == later.heartbeatAt <==> !TouchedIn(r, i, j, id)))
      && (later.status.Running? && !TouchedIn(r, i, j, id) ==>
            IsStale(later, r.events[i].types, r.events[i].thresholdSeconds, r.states[j].now))
  {
    var h := HistoryOf(r, j);
    ScanFindsStale(base, r, i, id);
    SameLeaseInRunIff(base, r, i, j, id);
    RunsAreLegal(base, r, i);
    RunsAreLegal(base, r, j);
    HistoriesNest(r, i, j);
    HistoriesNest(r, j, j);
    HeartbeatKeptOrFresh(base, h, i, j, id, r.states[i + 1].now);
    TouchesAreWrites(base, r, i, j, id);
    RunClock(base, r, i + 1, j);
  }

  lemma StepOutcome(base: real, r: Run, j: nat, id: JobId)
    requires IsRun(base, r) && j < |r.events| && id in r.states[j].jobs
    requires WriteOf(r.states[j], r.events[j]).Fail? && WriteOf(r.states[j], r.events[j]).id == id
    ensures var w, was := WriteOf(r.states[j], r.events[j]), r.states[j].jobs[id];
      && id in r.states[j + 1].jobs
      && (Ended(was, r.states[j + 1].jobs[id]) <==> FailApplies(was, w.retryable, base, w.jitter))
  {
    NextWrites(base, r.states[j], r.events[j], r.states[j + 1]);
  }

  /** A reap ends whatever lease it meets exactly when the job is running and a retry, if one is
      left, has a delay in range. What it meets is the scanned lease exactly when nobody claimed the
      job since the scan, with the scanned heartbeat exactly when nobody beat it either. */
  lemma ReapEndsScannedLeaseIff(base: real, r: Run, i: nat, j: nat)
    requires IsRun(base, r) && i < j < |r.events| && r.events[i].Scan? && r.events[j].Reap?
    requires WriteOf(r.states[j], r.events[j]).Fail? && WriteOf(r.states[j], r.events[j]).id in r.events[i].stale
    ensures var id := WriteOf(r.states[j], r.events[j]).id;
      && id in r.states[i].jobs && id in r.states[j].jobs && id in r.states[j + 1].jobs
      && var scanned, met, left := r.states[i].jobs[id], r.states[j].jobs[id], r.states[j + 1].jobs[id];
      && (Ended(met, left) <==>
            (met.status.Running?
             && (met.attempts < met.maxAttempts ==> BackoffDefined(base, met.attempts, r.events[j].jitter))))
      && (met.attempts == scanned.attempts <==> !TakenIn(r, i, j, id))
      && (r.events[i].thresholdSeconds >= 0 && Ended(met, left) ==>
            (met.heartbeatAt == scanned.heartbeatAt <==> !TouchedIn(r, i, j, id)))
  {
    var id := WriteOf(r.states[j], r.events[j]).id;
    ScannedLeaseLater(base, r, i, j, id);
    StepOutcome(base, r, j, id);
  }

  // ----- a finish after its claim -----

  /** The event in which the worker lets go of its lease. */
  predicate LetsGo(e: Event, worker: ActorId) {
    (e.Finish? || e.Crash?) && e.worker == worker
  }

  lemma {:induction false} LeaseHeld(base: real, r: Run, i: nat, n: nat)
    requires IsRun(base, r) && i < n <= |r.events| && r.events[i].Take?
    requires forall k :: i < k < n ==> !LetsGo(r.events[k], r.events[i].worker)
    ensures var e := r.events[i];
      && e.id in r.states[i + 1].jobs && e.worker in r.states[n].leases
      && r.states[n].leases[e.worker] == Lease(e.id, r.states[i + 1].jobs[e.id].attempts)
    decreases n
  {
    if i + 1 < n {
      LeaseHeld(base, r, i, n - 1);
    }
    var s, e, s' := r.states[n - 1], r.events[n - 1], r.states[n];
    assert Next(base, s, e, s') && Ready(s, e, s'.now);
    assert i + 1 < n ==> !LetsGo(e, r.events[i].worker);
  }

  lemma LeaseEventStep(base: real, s: System, e: Event, s': System, worker: ActorId)
    requires Next(base, s, e, s')
    ensures worker in s'.leases <==> (e.Take? && e.worker == worker) || (worker in s.leases && !LetsGo(e, worker))
  {
    assert Ready(s, e, s'.now);
  }

  /** A worker holds a lease exactly from a claim of its own to the finish or crash after it. */
  lemma {:induction false} HoldsLeaseIff(base: real, r: Run, n: nat, worker: ActorId)
    requires IsRun(base, r) && n <= |r.events|
    ensures worker in r.states[n].leases <==> exists i :: TookAndKept(r, i, n, worker)
  {
    if n > 0 {
      HoldsLeaseIff(base, r, n - 1, worker);
      RunLeaseEvent(base, r, n - 1, worker);
      if worker in r.states[n].leases {
        if r.events[n - 1].Take? && r.events[n - 1].worker == worker {
          assert TookAndKept(r, n - 1, n, worker);
        } else {
          var i :| TookAndKept(r, i, n - 1, worker);
          assert TookAndKept(r, i, n, worker);
        }
      }
      if i :| TookAndKept(r, i, n, worker) {
        assert i < n - 1 ==> TookAndKept(r, i, n - 1, worker);
      }
    }
  }

  lemma RunLeaseEvent(base: real, r: Run, n: nat, worker: ActorId)
    requires IsRun(base, r) && n < |r.events|
    ensures worker in r.states[n + 1].leases <==>
            (r.events[n].Take? && r.events[n].worker == worker)
            || (worker in r.states[n].leases && !LetsGo(r.events[n], worker))
  {
    LeaseEventStep(base, r.states[n], r.events[n], r.states[n + 1], worker);
  }

  ghost predicate TookAndKept(r: Run, i: int, n: nat, worker: ActorId)
    requires n <= |r.events|
  {
    && 0 <= i < n && r.events[i].Take? && r.events[i].worker == worker
    && forall k :: i < k < n ==> !LetsGo(r.events[k], worker)
  }

  /** A worker's finish meets the lease it took exactly when nobody claimed the job in between. A
      success completes the job all the same; a failure ends whatever lease it meets. */
  lemma FinishMeetsTakenLeaseIff(base: real, r: Run, i: nat, j: nat)
    requires IsRun(base, r) && i < j < |r.events| && r.events[i].Take?
    requires r.events[j].Finish? && r.events[j].worker == r.events[i].worker
    requires forall k :: i < k < j ==> !LetsGo(r.events[k], r.events[i].worker)
    ensures var id, w := r.events[i].id, WriteOf(r.states[j], r.events[j]);
      && id in r.states[i + 1].jobs && id in r.states[j].jobs && id in r.states[j + 1].jobs
      && var taken, met, left := r.states[i + 1].jobs[id], r.states[j].jobs[id], r.states[j + 1].jobs[id];
      && (met.attempts == taken.attempts <==> !TakenIn(r, i + 1, j, id))
      && (r.events[j].outcome.Success? ==> left.status.Completed?)
      && (w.Fail? ==> w.id == id && (Ended(met, left) <==> FailApplies(met, w.retryable, base, w.jitter)))
      && (r.events[j].outcome.Cancelled? ==> left == met)
  {
    var id := r.events[i].id;
    LeaseHeld(base, r, i, j);
    SameLeaseInRunIff(base, r, i + 1, j, id);
    NextWrites(base, r.states[j], r.events[j], r.states[j + 1]);
    if WriteOf(r.states[j], r.events[j]).Fail? {
      StepOutcome(base, r, j, id);
    }
  }

  /** The row after its worker's handler has ended in this way. */
  ghost predicate Finished(j: Job, j': Job, outcome: Outcome, base: real, jitter: real, now: real) {
    match outcome
    case Success(output) => j' == j.(status := Completed, result := Some(output), finishedAt := Some(now))
    case HandlerError(message, retryable) => Statements.Failing(j, j', message, retryable, base, jitter, now)
    case Panicked => Statements.Failing(j, j', "handler panicked", false, base, jitter, now)
    case Cancelled => j' == j
  }

  lemma FinishStep(base: real, s: System, e: Event, s': System)
    requires Next(base, s, e, s') && e.Finish? && e.worker in s.leases && s.leases[e.worker].id in s.jobs
    ensures var id := s.leases[e.worker].id;
      && Statements.OnlyRow(s.jobs, s'.jobs, id) && e.worker !in s'.leases
      && Finished(s.jobs[id], s'.jobs[id], e.outcome, base, e.jitter, s'.now)
  {
    var j := s.jobs[s.leases[e.worker].id];
    match e.outcome
    case HandlerError(message, retryable) => Statements.FailingOutcome(j, message, retryable, base, e.jitter, s'.now);
    case Panicked => Statements.FailingOutcome(j, "handler panicked", false, base, e.jitter, s'.now);
    case _ =>
  }

  /** In any run a finish writes the row of its worker's lease by the way the handler ended, and
      no other row. */
  lemma FinishWrites(base: real, r: Run, n: nat)
    requires IsRun(base, r) && n < |r.events| && r.events[n].Finish?
    ensures var e, s, s' := r.events[n], r.states[n], r.states[n + 1];
      && e.worker in s.leases && e.worker !in s'.leases
      && var id := s.leases[e.worker].id;
      && id in s.jobs && Statements.OnlyRow(s.jobs, s'.jobs, id)
      && Finished(s.jobs[id], s'.jobs[id], e.outcome, base, e.jitter, s'.now)
  {
    HeldLeasesDistinct(base, r, n);
    RunFinishStep(base, r, n);
  }

  lemma RunFinishStep(base: real, r: Run, n: nat)
    requires IsRun(base, r) && n < |r.events| && r.events[n].Finish?
    requires LeasesOk(r.states[n].jobs, r.states[n].leases)
    ensures var e, s, s' := r.events[n], r.states[n], r.states[n + 1];
      && e.worker in s.leases && e.worker !in s'.leases
      && var id := s.leases[e.worker].id;
      && id in s.jobs && Statements.OnlyRow(s.jobs, s'.jobs, id)
      && Finished(s.jobs[id], s'.jobs[id], e.outcome, base, e.jitter, s'.now)
  {
    assert Ready(r.states[n], r.events[n], r.states[n + 1].now);
    FinishStep(base, r.states[n], r.events[n], r.states[n + 1]);
  }

  /** A running job is failed for good by a panic or by an error that is not retryable. */
  lemma HardFailureIsFinal(base: real, r: Run, n: nat)
    requires IsRun(base, r) && n < |r.events| && r.events[n].Finish?
    requires r.events[n].outcome.Panicked? || (r.events[n].outcome.HandlerError? && !r.events[n].outcome.retryable)
    ensures r.events[n].worker in r.states[n].leases
    ensures var id := r.states[n].leases[r.events[n].worker].id;
      && id in r.states[n].jobs && id in r.states[n + 1].jobs
      && (r.states[n].jobs[id].status == Running ==>
            r.states[n + 1].jobs[id].status == Failed
            && r.states[n + 1].jobs[id].finishedAt == Some(r.states[n + 1].now))
  {
    FinishWrites(base, r, n);
  }

  // ----- runs in which each of them is too late -----

  function After(base: real, s: System, e: Event, now: real): System {
    System(Apply(s.jobs, WriteOf(s, e), base, now), now, LeasesAfter(s, e), ScansAfter(s, e))
  }

  function Final(r: Run): System
    requires r.states != []
  {
    r.states[|r.states| - 1]
  }

  function Extend(base: real, r: Run, e: Event, now: real): Run
    requires r.states != []
  {
    Run(r.states + [After(base, Final(r), e, now)], r.events + [e])
  }

  lemma ExtendIsRun(base: real, r: Run, e: Event, now: real)
    requires IsRun(base, r) && Next(base, Final(r), e, After(base, Final(r), e, now))
    ensures IsRun(base, Extend(base, r, e, now)) && Final(Extend(base, r, e, now)) == After(base, Final(r), e, now)
  {}

  const FIRST_JOB := NewJob("t", "", None, 0, 3, 0.0)
  const SILENT_JOB := ClaimedJob(FIRST_JOB, "w", 0.0)
  const RESET_JOB := SILENT_JOB.(status := Pending, lastError := Some(STALE_ERROR), nextAttemptAt := Some(100.0))
  const RECLAIMED_JOB := ClaimedJob(RESET_JOB, "v", 100.0)

  /** One job, a scan by `reaper` still to be worked off, and the first worker's lease. */
  ghost predicate Stage(s: System, job: Job, reaper: ActorId) {
    && s.jobs == map[0 := job] && s.now == 100.0 && reaper in s.scans && s.scans[reaper] == [0]
    && 1 in s.leases && s.leases[1] == Lease(0, 1)
  }

  lemma ZeroBackoff(attempts: nat)
    requires attempts < 1024
    ensures BackoffDefined(0.0, attempts, 0.0) && BackoffSeconds(0.0, attempts, 0.0) == 0.0
  {
    assert 0.0 * Pow2(attempts) == 0.0;
    assert Pow2(1024) >= 1.0;
  }

  lemma FirstStep(s: System)
    requires s == System(map[], 0.0, map[], map[])
    ensures var e := Submit(Enqueue(0, "t", "", None, 0, 3));
            var s' := After(0.0, s, e, 0.0);
            Next(0.0, s, e, s') && s' == System(map[0 := FIRST_JOB], 0.0, map[], map[])
  {}

  lemma ClaimStep(s: System)
    requires s == System(map[0 := FIRST_JOB], 0.0, map[], map[])
    ensures var e := Take(1, "w", {"t"}, {}, 0);
            var s' := After(0.0, s, e, 0.0);
            Next(0.0, s, e, s') && s' == System(map[0 := SILENT_JOB], 0.0, map[1 := Lease(0, 1)], map[])
  {}

  lemma ScanStep(s: System, reaper: ActorId)
    requires s.jobs == map[0 := SILENT_JOB] && s.now <= 100.0 && reaper !in s.scans
    requires 1 in s.leases && s.leases[1] == Lease(0, 1)
    ensures var e := Scan(reaper, {"t"}, 60, [0]);
            var s' := After(0.0, s, e, 100.0);
            Next(0.0, s, e, s') && Stage(s', SILENT_JOB, reaper) && s'.leases == s.leases
            && s'.scans == s.scans[reaper := [0]]
  {}

  /** A job claimed at 0 and silent since, scanned at 100. */
  lemma ScannedRun() returns (r: Run)
    ensures IsRun(0.0, r) && |r.events| == 3 && r.events[2] == Scan(1, {"t"}, 60, [0])
    ensures Stage(Final(r), SILENT_JOB, 1)
    ensures Final(r).leases == map[1 := Lease(0, 1)] && Final(r).scans == map[1 := [0]]
  {
    r := Run([System(map[], 0.0, map[], map[])], []);
    FirstStep(Final(r));
    ExtendIsRun(0.0, r, Submit(Enqueue(0, "t", "", None, 0, 3)), 0.0);
    r := Extend(0.0, r, Submit(Enqueue(0, "t", "", None, 0, 3)), 0.0);
    ClaimStep(Final(r));
    ExtendIsRun(0.0, r, Take(1, "w", {"t"}, {}, 0), 0.0);
    r := Extend(0.0, r, Take(1, "w", {"t"}, {}, 0), 0.0);
    ScanStep(Final(r), 1);
    ExtendIsRun(0.0, r, Scan(1, {"t"}, 60, [0]), 100.0);
    r := Extend(0.0, r, Scan(1, {"t"}, 60, [0]), 100.0);
  }

  /** What the reap of a one-element list does. */
  lemma ReapOnly(base: real, s: System, reaper: ActorId, id: JobId, jitter: real)
    requires reaper in s.scans && s.scans[reaper] == [id] && id in s.jobs && 0.0 <= jitter < 1.0
    ensures var s' := After(base, s, Reap(reaper, jitter), s.now);
      && Next(base, s, Reap(reaper, jitter), s')
      && s'.jobs == s.jobs[id := FailOutcome(s.jobs[id], STALE_ERROR, true, base, jitter, s.now)]
      && s'.now == s.now && s'.leases == s.leases && s'.scans == s.scans[reaper := []]
  {}

  lemma ResetOutcome()
    ensures FailOutcome(SILENT_JOB, STALE_ERROR, true, 0.0, 0.0, 100.0) == RESET_JOB
  {
    ZeroBackoff(1);
  }

  lemma ReapStep(s: System)
    requires Stage(s, SILENT_JOB, 1) && 2 in s.scans && s.scans[2] == [0]
    ensures var s' := After(0.0, s, Reap(1, 0.0), 100.0);
            Next(0.0, s, Reap(1, 0.0), s') && Stage(s', RESET_JOB, 2) && s'.leases == s.leases
  {
    ResetOutcome();
    ReapOnly(0.0, s, 1, 0, 0.0);
  }

  lemma ReclaimStep(s: System)
    requires Stage(s, RESET_JOB, 2) && 2 !in s.leases
    ensures var e := Take(2, "v", {"t"}, {}, 0);
            var s' := After(0.0, s, e, 100.0);
            Next(0.0, s, e, s') && Stage(s', RECLAIMED_JOB, 2) && 2 in s'.leases && s'.leases[2] == Lease(0, 2)
  {}

  /** A second reaper scans too, the first ends the lease, and a second worker claims the job. */
  lemma ReclaimedRun() returns (r: Run)
    ensures IsRun(0.0, r) && |r.events| == 6 && Stage(Final(r), RECLAIMED_JOB, 2)
    ensures 2 in Final(r).leases && Final(r).leases[2] == Lease(0, 2)
  {
    r := ScannedRun();
    ScanStep(Final(r), 2);
    ExtendIsRun(0.0, r, Scan(2, {"t"}, 60, [0]), 100.0);
    r := Extend(0.0, r, Scan(2, {"t"}, 60, [0]), 100.0);
    ReapStep(Final(r));
    ExtendIsRun(0.0, r, Reap(1, 0.0), 100.0);
    r := Extend(0.0, r, Reap(1, 0.0), 100.0);
    ReclaimStep(Final(r));
    ExtendIsRun(0.0, r, Take(2, "v", {"t"}, {}, 0), 100.0);
    r := Extend(0.0, r, Take(2, "v", {"t"}, {}, 0), 100.0);
  }

  lemma SecondReapStep(s: System)
    requires Stage(s, RECLAIMED_JOB, 2)
    ensures var s' := After(0.0, s, Reap(2, 0.0), 100.0);
            Next(0.0, s, Reap(2, 0.0), s') && 0 in s'.jobs && s'.jobs[0].status.Pending?
  {
    ZeroBackoff(2);
    ReapOnly(0.0, s, 2, 0, 0.0);
  }

  /** Two reapers scan the same stale lease; the first ends it, another worker claims the job
      again, and the second ends that fresh lease. */
  lemma StaleScanEndsFreshLease() returns (r: Run, id: JobId, n: nat)
    ensures IsRun(0.0, r) && n < |r.events| && r.events[n].Reap?
    ensures id in r.states[n].jobs && id in r.states[n + 1].jobs
    ensures r.states[n].jobs[id].status.Running? && r.states[n].jobs[id].heartbeatAt == Some(r.states[n].now)
    ensures r.states[n].jobs[id].attempts == 2 && Ended(r.states[n].jobs[id], r.states[n + 1].jobs[id])
  {
    r := ReclaimedRun();
    id, n := 0, 6;
    SecondReapStep(Final(r));
    ExtendIsRun(0.0, r, Reap(2, 0.0), 100.0);
    r := Extend(0.0, r, Reap(2, 0.0), 100.0);
  }

  lemma LateFinishStep(s: System, output: string)
    requires Stage(s, RECLAIMED_JOB, 2)
    ensures var s' := After(0.0, s, Finish(1, Success(output), 0.0), 100.0);
            Next(0.0, s, Finish(1, Success(output), 0.0), s') && 0 in s'.jobs && s'.jobs[0].status.Completed?
  {}

  /** The worker that lost its lease finishes, and completes the job under the second worker's
      fresh lease. */
  lemma LateFinishCompletesFreshLease(output: string) returns (r: Run, id: JobId, n: nat)
    ensures IsRun(0.0, r) && n < |r.events| && r.events[n] == Finish(1, Success(output), 0.0)
    ensures id in r.states[n].jobs && id in r.states[n + 1].jobs
    ensures 1 in r.states[n].leases && r.states[n].leases[1] == Lease(id, 1)
    ensures 2 in r.states[n].leases && r.states[n].leases[2] == Lease(id, 2)
    ensures r.states[n].jobs[id].attempts == 2 && Ended(r.states[n].jobs[id], r.states[n + 1].jobs[id])
    ensures r.states[n + 1].jobs[id].status.Completed?
  {
    r := ReclaimedRun();
    id, n := 0, 6;
    LateFinishStep(Final(r), output);
    ExtendIsRun(0.0, r, Finish(1, Success(output), 0.0), 100.0);
    r := Extend(0.0, r, Finish(1, Success(output), 0.0), 100.0);
  }

  const BEATEN_JOB := SILENT_JOB.(heartbeatAt := Some(100.0))

  lemma BeatStep(s: System)
    requires Stage(s, SILENT_JOB, 1)
    ensures var s' := After(0.0, s, Beat(0), 100.0);
            Next(0.0, s, Beat(0), s') && Stage(s', BEATEN_JOB, 1)
  {}

  lemma ReapBeatenStep(s: System)
    requires Stage(s, BEATEN_JOB, 1)
    ensures var s' := After(0.0, s, Reap(1, 0.0), 100.0);
            Next(0.0, s, Reap(1, 0.0), s') && 0 in s'.jobs && s'.jobs[0].status.Pending?
  {
    ZeroBackoff(1);
    ReapOnly(0.0, s, 1, 0, 0.0);
  }

  /** A heartbeat that arrives between the scan and the reap does not save its lease. */
  lemma BeatenLeaseIsReaped() returns (r: Run, id: JobId, n: nat)
    ensures IsRun(0.0, r) && n < |r.events| && r.events[n].Reap?
    ensures id in r.states[n].jobs && id in r.states[n + 1].jobs
    ensures r.states[n].jobs[id].heartbeatAt == Some(r.states[n].now) && r.states[n].jobs[id].attempts == 1
    ensures Ended(r.states[n].jobs[id], r.states[n + 1].jobs[id])
  {
    r := ScannedRun();
    id, n := 0, 4;
    BeatStep(Final(r));
    ExtendIsRun(0.0, r, Beat(0), 100.0);
    r := Extend(0.0, r, Beat(0), 100.0);
    ReapBeatenStep(Final(r));
    ExtendIsRun(0.0, r, Reap(1, 0.0), 100.0);
    r := Extend(0.0, r, Reap(1, 0.0), 100.0);
  }
}
