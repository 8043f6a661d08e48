/** Workers, heartbeat tasks and reapers interleaving their statements on one jobs table. */
module Protocol {
  import opened Jobs
  import opened Histories

  type ActorId = nat

  /** What a worker remembers of the row its claim returned. */
  datatype Lease = Lease(id: JobId, attempts: nat)

  /** How a handler ends. */
  datatype Outcome = Success(output: string) | HandlerError(message: string, retryable: bool) | Panicked | Cancelled

  /** The write a worker sends when its handler has ended. */
  function WriteFor(outcome: Outcome, id: JobId, jitter: real): Write {
    match outcome
    case Success(output) => Complete(id, output)
    case HandlerError(message, retryable) => Fail(id, message, retryable, jitter)
    case Panicked => Fail(id, "handler panicked", false, jitter)
    case Cancelled => NoWrite
  }

  const STALE_ERROR := "stale heartbeat"

  /** The table, the clock, the lease of each busy worker, and what is left of the list each
      active reaper scanned. */
  datatype System = System(jobs: Table, now: real, leases: map<ActorId, Lease>, scans: map<ActorId, seq<JobId>>)

  /** A heartbeat may be for any job at any time: its task is aborted without waiting for a
      statement in flight. A crash, a cancelled task and a lost connection all drop a lease
      without a write. */
  datatype Event =
    | Submit(request: Write)
    | Take(worker: ActorId, name: string, types: set<string>, locked: set<JobId>, id: JobId)
    | Finish(worker: ActorId, outcome: Outcome, jitter: real)
    | Crash(worker: ActorId)
    | Beat(id: JobId)
    | Scan(reaper: ActorId, types: set<string>, thresholdSeconds: int, stale: seq<JobId>)
    | Reap(reaper: ActorId, jitter: real)
    | Abandon(reaper: ActorId)
    | Idle

  ghost predicate Ready(s: System, e: Event, now: real) {
    match e
    case Submit(request) => request.Enqueue?
    case Take(worker, _, _, _, _) => worker !in s.leases
    case Finish(worker, _, _) => worker in s.leases
    case Crash(worker) => worker in s.leases
    case Scan(reaper, types, threshold, stale) =>
      && reaper !in s.scans
      && (forall x, y :: 0 <= x < y < |stale| ==> stale[x] != stale[y])
      && forall id :: id in stale <==> id in s.jobs && IsStale(s.jobs[id], types, threshold, now)
    case Reap(reaper, _) => reaper in s.scans && s.scans[reaper] != []
    case Abandon(reaper) => reaper in s.scans
    case _ => true
  }

  function WriteOf(s: System, e: Event): Write {
    match e
    case Submit(request) => request
    case Take(_, name, types, locked, id) => Claim(id, name, types, locked)
    case Finish(worker, outcome, jitter) =>
      if worker in s.leases then WriteFor(outcome, s.leases[worker].id, jitter) else NoWrite
    case Beat(id) => Heartbeat(id)
    case Reap(reaper, jitter) =>
      if reaper in s.scans && s.scans[reaper] != [] then Fail(s.scans[reaper][0], STALE_ERROR, true, jitter)
      else NoWrite
    case _ => NoWrite
  }

  function LeasesAfter(s: System, e: Event): map<ActorId, Lease> {
    match e
    case Take(worker, _, _, _, id) =>
      if id in s.jobs then s.leases[worker := Lease(id, s.jobs[id].attempts + 1)] else s.leases
    case Finish(worker, _, _) => s.leases - {worker}
    case Crash(worker) => s.leases - {worker}
    case _ => s.leases
  }

  function ScansAfter(s: System, e: Event): map<ActorId, seq<JobId>> {
    match e
    case Scan(reaper, _, _, stale) => s.scans[reaper := stale]
    case Reap(reaper, _) =>
      if reaper in s.scans && s.scans[reaper] != [] then s.scans[reaper := s.scans[reaper][1..]] else s.scans
    case Abandon(reaper) => s.scans - {reaper}
    case _ => s.scans
  }

  ghost predicate Next(base: real, s: System, e: Event, s': System) {
    && s.now <= s'.now
    && Ready(s, e, s'.now)
    && Enabled(s.jobs, WriteOf(s, e), s'.now)
    && s' == System(Apply(s.jobs, WriteOf(s, e), base, s'.now), s'.now, LeasesAfter(s, e), ScansAfter(s, e))
  }

  datatype Run = Run(states: seq<System>, events: seq<Event>)

  ghost predicate IsRun(base: real, r: Run) {
    && |r.states| == |r.events| + 1
    && r.states[0].jobs == map[] && r.states[0].leases == map[] && r.states[0].scans == map[]
    && forall i :: 0 <= i < |r.events| ==> Next(base, r.states[i], r.events[i], r.states[i + 1])
  }

  function HistoryOf(r: Run, n: nat): History
    requires |r.states| == |r.events| + 1 && n <= |r.events|
  {
    if n == 0 then []
    else HistoryOf(r, n - 1) + [Step(WriteOf(r.states[n - 1], r.events[n - 1]), r.states[n].now)]
  }

  lemma NextWrites(base: real, s: System, e: Event, s': System)
    requires Next(base, s, e, s')
    ensures s.now <= s'.now && Enabled(s.jobs, WriteOf(s, e), s'.now)
    ensures s'.jobs == Apply(s.jobs, WriteOf(s, e), base, s'.now)
  {}

  /** Every interleaving writes a legal history, so all that holds of histories holds of it. */
  lemma {:induction false} RunsAreLegal(base: real, r: Run, n: nat)
    requires IsRun(base, r) && n <= |r.events|
    ensures Legal(base, HistoryOf(r, n)) && Replay(base, HistoryOf(r, n)) == r.states[n].jobs
    ensures |HistoryOf(r, n)| == n && (n > 0 ==> Last(HistoryOf(r, n)).now == r.states[n].now)
  {
    if n > 0 {
      RunsAreLegal(base, r, n - 1);
      NextWrites(base, r.states[n - 1], r.events[n - 1], r.states[n]);
      LegalExtends(base, HistoryOf(r, n - 1), WriteOf(r.states[n - 1], r.events[n - 1]), r.states[n].now);
    }
  }

  lemma {:induction false} HistoriesNest(r: Run, m: nat, n: nat)
    requires |r.states| == |r.events| + 1 && m <= n <= |r.events|
    ensures |HistoryOf(r, n)| == n && HistoryOf(r, n)[..m] == HistoryOf(r, m)
    ensures m < n ==> HistoryOf(r, n)[m] == Step(WriteOf(r.states[m], r.events[m]), r.states[m + 1].now)
    decreases n
  {
    if m < n {
      HistoriesNest(r, m, n - 1);
      HistoriesNest(r, n - 1, n - 1);
    } else if n > 0 {
      HistoriesNest(r, n - 1, n - 1);
    }
  }

  lemma ReachableJobsOk(base: real, r: Run, n: nat)
    requires IsRun(base, r) && n <= |r.events|
    ensures TableOk(r.states[n].jobs)
  {
    RunsAreLegal(base, r, n);
    ReachableTableOk(base, HistoryOf(r, n));
  }

  // ----- leases -----

  ghost predicate LeasesOk(jobs: Table, leases: map<ActorId, Lease>) {
    && (forall w :: w in leases ==> leases[w].id in jobs && 0 < leases[w].attempts <= jobs[leases[w].id].attempts)
    && (forall w, v :: w in leases && v in leases && w != v ==> leases[w] != leases[v])
  }

  lemma LeasesCarryOver(jobs: Table, jobs': Table, leases: map<ActorId, Lease>, leases': map<ActorId, Lease>)
    requires LeasesOk(jobs, leases)
    requires forall id :: id in jobs ==> id in jobs' && jobs[id].attempts <= jobs'[id].attempts
    requires forall w :: w in leases' ==> w in leases && leases'[w] == leases[w]
    ensures LeasesOk(jobs', leases')
  {
    forall w | w in leases' ensures leases'[w].id in jobs' && 0 < leases'[w].attempts <= jobs'[leases'[w].id].attempts {
      assert leases[w].id in jobs;
    }
  }

  /** One step only takes leases away, or grants one for the job's next attempt. */
  ghost predicate LeaseStep(jobs: Table, jobs': Table, leases: map<ActorId, Lease>, leases': map<ActorId, Lease>) {
    && (forall id :: id in jobs ==> id in jobs' && jobs[id].attempts <= jobs'[id].attempts)
    && (|| (forall w :: w in leases' ==> w in leases && leases'[w] == leases[w])
        || (exists worker, id :: Grants(jobs, jobs', leases, leases', worker, id)))
  }

  ghost predicate Grants(jobs: Table, jobs': Table, leases: map<ActorId, Lease>, leases': map<ActorId, Lease>,
                         worker: ActorId, id: JobId) {
    && id in jobs && id in jobs' && jobs'[id].attempts == jobs[id].attempts + 1
    && leases' == leases[worker := Lease(id, jobs'[id].attempts)]
  }

  lemma LeaseStepKeepsOk(jobs: Table, jobs': Table, leases: map<ActorId, Lease>, leases': map<ActorId, Lease>)
    requires LeasesOk(jobs, leases) && LeaseStep(jobs, jobs', leases, leases')
    ensures LeasesOk(jobs', leases')
  {
    if worker, id :| Grants(jobs, jobs', leases, leases', worker, id) {
      LeasesCarryOver(jobs, jobs', leases, leases);
      assert forall w :: w in leases && leases[w].id == id ==> leases[w].attempts < jobs'[id].attempts;
    } else {
      LeasesCarryOver(jobs, jobs', leases, leases');
    }
  }

  lemma NextIsLeaseStep(base: real, s: System, e: Event, s': System)
    requires Next(base, s, e, s')
    ensures LeaseStep(s.jobs, s'.jobs, s.leases, s'.leases)
  {
    if e.Take? {
      assert Grants(s.jobs, s'.jobs, s.leases, s'.leases, e.worker, e.id);
    }
  }

  /** No two workers ever hold the same lease, and no lease is newer than its row. */
  lemma {:induction false} HeldLeasesDistinct(base: real, r: Run, n: nat)
    requires IsRun(base, r) && n <= |r.events|
    ensures LeasesOk(r.states[n].jobs, r.states[n].leases)
  {
    if n > 0 {
      HeldLeasesDistinct(base, r, n - 1);
      RunIsLeaseStep(base, r, n - 1);
      LeaseStepKeepsOk(r.states[n - 1].jobs, r.states[n].jobs, r.states[n - 1].leases, r.states[n].leases);
    }
  }

  lemma RunIsLeaseStep(base: real, r: Run, n: nat)
    requires IsRun(base, r) && n < |r.events|
    ensures LeaseStep(r.states[n].jobs, r.states[n + 1].jobs, r.states[n].leases, r.states[n + 1].leases)
  {
    NextIsLeaseStep(base, r.states[n], r.events[n], r.states[n + 1]);
  }

  lemma TakesAreClaims(base: real, r: Run, n: nat, k: nat, id: JobId)
    requires IsRun(base, r) && k < n <= |r.events|
    ensures ClaimsAt(HistoryOf(r, n), k, id) <==> r.events[k].Take? && r.events[k].id == id
  {
    HistoriesNest(r, k, n);
    var s, e := r.states[k], r.events[k];
    assert Ready(s, e, r.states[k + 1].now);
    assert WriteOf(s, e).Claim? <==> e.Take?;
  }

  lemma BeatsAreHeartbeats(base: real, r: Run, n: nat, k: nat, id: JobId)
    requires IsRun(base, r) && k < n <= |r.events|
    ensures BeatsAt(HistoryOf(r, n), k, id) <==> r.events[k].Beat? && r.events[k].id == id
  {
    HistoriesNest(r, k, n);
    var s, e := r.states[k], r.events[k];
    assert Ready(s, e, r.states[k + 1].now);
    assert WriteOf(s, e).Heartbeat? <==> e.Beat?;
  }

  // ----- crash recovery -----

  /** Every claim of the run is for types the scheduler serves. */
  ghost predicate Serves(r: Run, types: set<string>) {
    forall i :: 0 <= i < |r.events| && r.events[i].Take? ==> r.events[i].types <= types
  }

  lemma StepKeepsTypes(base: real, s: System, e: Event, s': System, types: set<string>)
    requires Next(base, s, e, s') && (e.Take? ==> e.types <= types)
    requires forall id :: id in s.jobs && s.jobs[id].attempts > 0 ==> s.jobs[id].jobType in types
    ensures forall id :: id in s'.jobs && s'.jobs[id].attempts > 0 ==> s'.jobs[id].jobType in types
  {}

  lemma {:induction false} RunningTypesServed(base: real, r: Run, n: nat, types: set<string>)
    requires IsRun(base, r) && Serves(r, types) && n <= |r.events|
    ensures forall id :: id in r.states[n].jobs && r.states[n].jobs[id].attempts > 0 ==>
              r.states[n].jobs[id].jobType in types
  {
    if n > 0 {
      RunningTypesServed(base, r, n - 1, types);
      StepKeepsTypes(base, r.states[n - 1], r.events[n - 1], r.states[n], types);
    }
  }
}
