/** The jobs table: its rows, and the meaning of each SQL statement on them. */
module Jobs {
  import opened Wrappers

  type JobId = nat

  datatype Status = Pending | Running | Completed | Failed

  datatype Job = Job(
    jobType: string,
    payload: string,
    dedupKey: Option<string>,
    status: Status,
    attempts: nat,
    maxAttempts: int,
    priority: int,
    createdAt: real,
    claimedBy: Option<string>,
    claimedAt: Option<real>,
    startedAt: Option<real>,
    finishedAt: Option<real>,
    heartbeatAt: Option<real>,
    nextAttemptAt: Option<real>,
    lastError: Option<string>,
    result: Option<string>)
  {
    predicate Open() { status.Pending? || status.Running? }
  }

  type Table = map<JobId, Job>

  const MAX_BACKOFF_SECONDS := 3600.0

  function Pow2(n: nat): (p: real)
    ensures p >= 1.0
  {
    if n == 0 then 1.0 else 2.0 * Pow2(n - 1)
  }

  // ----- enqueue -----

  predicate Conflicts(t: Table, jobType: string, dedupKey: Option<string>) {
    dedupKey.Some? && exists id | id in t :: t[id].Open() && t[id].jobType == jobType && t[id].dedupKey == dedupKey
  }

  function NewJob(jobType: string, payload: string, dedupKey: Option<string>, priority: int, maxAttempts: int,
                  now: real): Job
  {
    Job(jobType, payload, dedupKey, Pending, 0, maxAttempts, priority, now,
        None, None, None, None, None, None, None, None)
  }

  // ----- claim -----

  predicate Claimable(j: Job, types: set<string>, now: real) {
    && j.status.Pending?
    && j.jobType in types
    && (j.nextAttemptAt.Some? ==> j.nextAttemptAt.value <= now)
  }

  predicate NotAfter(a: Job, b: Job) {
    a.priority < b.priority || (a.priority == b.priority && a.createdAt <= b.createdAt)
  }

  /** `id` may be the row the claim query picks while the rows in `locked` are held by other
      statements. */
  predicate IsNext(t: Table, id: JobId, types: set<string>, locked: set<JobId>, now: real) {
    && id in t && id !in locked && Claimable(t[id], types, now)
    && forall other | other in t :: other !in locked && Claimable(t[other], types, now) ==> NotAfter(t[id], t[other])
  }

  function ClaimedJob(j: Job, worker: string, now: real): Job {
    j.(status := Running, claimedBy := Some(worker), claimedAt := Some(now), startedAt := Some(now),
       attempts := j.attempts + 1, heartbeatAt := Some(now))
  }

  // ----- complete, fail, heartbeat, stale scan -----

  function CompletedJob(j: Job, result: string, now: real): Job {
    j.(status := Completed, result := Some(result), finishedAt := Some(now))
  }

  /** The delay before the next attempt. */
  function BackoffSeconds(base: real, attempts: nat, jitter: real): real {
    var delay := base * Pow2(attempts) + jitter * base;
    if delay < MAX_BACKOFF_SECONDS then delay else MAX_BACKOFF_SECONDS
  }

  predicate InDoubleRange(x: real) {
    -Pow2(1024) < x < Pow2(1024)
  }

  /** The double-precision expression raises no out-of-range error. */
  predicate BackoffDefined(base: real, attempts: nat, jitter: real) {
    && attempts < 1024
    && InDoubleRange(base * Pow2(attempts))
    && InDoubleRange(base * Pow2(attempts) + jitter * base)
  }

  /** The retry branch of the CASE expressions. */
  predicate Retries(j: Job, retryable: bool) {
    retryable && j.attempts < j.maxAttempts
  }

  /** The statement updates the row: it is running, and the backoff, where it is evaluated,
      is in range. */
  predicate FailApplies(j: Job, retryable: bool, base: real, jitter: real) {
    j.status.Running? && (Retries(j, retryable) ==> BackoffDefined(base, j.attempts, jitter))
  }

  function FailedJob(j: Job, error: string, retryable: bool, base: real, jitter: real, now: real): Job {
    if Retries(j, retryable) then
      j.(status := Pending, lastError := Some(error),
         nextAttemptAt := Some(now + BackoffSeconds(base, j.attempts, jitter)))
    else
      j.(status := Failed, lastError := Some(error), finishedAt := Some(now))
  }

  function FailOutcome(j: Job, error: string, retryable: bool, base: real, jitter: real, now: real): Job {
    if FailApplies(j, retryable, base, jitter) then FailedJob(j, error, retryable, base, jitter, now) else j
  }

  function BeatOutcome(j: Job, now: real): Job {
    if j.status.Running? then j.(heartbeatAt := Some(now)) else j
  }

  predicate IsStale(j: Job, types: set<string>, thresholdSeconds: int, now: real) {
    && j.status.Running?
    && j.jobType in types
    && j.heartbeatAt.Some? && j.heartbeatAt.value < now - thresholdSeconds as real
  }

  // ----- one write to the table -----

  datatype Write =
    | NoWrite
    | Enqueue(id: JobId, jobType: string, payload: string, dedupKey: Option<string>, priority: int, maxAttempts: int)
    | Claim(id: JobId, worker: string, types: set<string>, locked: set<JobId>)
    | Complete(id: JobId, result: string)
    | Fail(id: JobId, error: string, retryable: bool, jitter: real)
    | Heartbeat(id: JobId)

  /** The statement can run and have this effect. Everything but an insert and a claim can be
      sent at any time, for any id. */
  predicate Enabled(t: Table, w: Write, now: real) {
    match w
    case Enqueue(id, jobType, _, dedupKey, _, _) => id !in t && !Conflicts(t, jobType, dedupKey)
    case Claim(id, _, types, locked) => IsNext(t, id, types, locked, now)
    case Fail(_, _, _, jitter) => 0.0 <= jitter < 1.0
    case _ => true
  }

  function Apply(t: Table, w: Write, base: real, now: real): Table {
    match w
    case NoWrite => t
    case Enqueue(id, jobType, payload, dedupKey, priority, maxAttempts) =>
      t[id := NewJob(jobType, payload, dedupKey, priority, maxAttempts, now)]
    case Claim(id, worker, _, _) => if id in t then t[id := ClaimedJob(t[id], worker, now)] else t
    case Complete(id, result) => if id in t then t[id := CompletedJob(t[id], result, now)] else t
    case Fail(id, error, retryable, jitter) =>
      if id in t then t[id := FailOutcome(t[id], error, retryable, base, jitter, now)] else t
    case Heartbeat(id) => if id in t then t[id := BeatOutcome(t[id], now)] else t
  }
}

/** The job store, proved against the table semantics. */
module Store {
  import opened Wrappers
  import opened Jobs

  datatype Error = NotFound(id: JobId) | Database

  datatype Result<+T> = Ok(value: T) | Err(error: Error)

  class JobStore {
    var jobs: Table
    const backoffBase: real

    constructor (backoffBase: real)
      ensures jobs == map[] && this.backoffBase == backoffBase
    {
      this.backoffBase := backoffBase;
      jobs := map[];
    }

    /** `id` is the generated key. Returns no id when an open job has the same dedup key. */
    method EnqueueJob(id: JobId, jobType: string, payload: string, dedupKey: Option<string>, priority: int,
                      maxAttempts: int, now: real)
      returns (r: Result<Option<JobId>>)
      modifies this
      ensures r == Ok(None) <==> Conflicts(old(jobs), jobType, dedupKey)
      ensures r == Ok(Some(id)) <==>
                Enabled(old(jobs), Enqueue(id, jobType, payload, dedupKey, priority, maxAttempts), now)
      ensures r.Err? ==> r.error == Database && id in old(jobs)
      ensures jobs == if r != Ok(Some(id)) then old(jobs) else
                Apply(old(jobs), Enqueue(id, jobType, payload, dedupKey, priority, maxAttempts), backoffBase, now)
    {
      if Conflicts(jobs, jobType, dedupKey) {
        return Ok(None);
      }
      if id in jobs {
        return Err(Database);
      }
      jobs := jobs[id := NewJob(jobType, payload, dedupKey, priority, maxAttempts, now)];
      return Ok(Some(id));
    }

    method ClaimJob(types: set<string>, worker: string, locked: set<JobId>, now: real)
      returns (r: Option<(JobId, Job)>)
      modifies this
      ensures r.None? ==>
                jobs == old(jobs) && forall id :: id in jobs && id !in locked ==> !Claimable(jobs[id], types, now)
      ensures r.Some? ==>
        var (id, job) := r.value;
        && Enabled(old(jobs), Claim(id, worker, types, locked), now)
        && jobs == Apply(old(jobs), Claim(id, worker, types, locked), backoffBase, now)
        && job == jobs[id]
    {
      var best: Option<JobId> := None;
      var rest := jobs.Keys;
      while rest != {}
        invariant rest <= jobs.Keys
        invariant best.None? ==>
                    forall id :: id in jobs && id !in rest && id !in locked ==> !Claimable(jobs[id], types, now)
        invariant best.Some? ==>
          && best.value in jobs && best.value !in locked && Claimable(jobs[best.value], types, now)
          && forall id :: id in jobs && id !in rest && id !in locked && Claimable(jobs[id], types, now)
               ==> NotAfter(jobs[best.value], jobs[id])
        decreases rest
      {
        var id :| id in rest;
        rest := rest - {id};
        if id !in locked && Claimable(jobs[id], types, now) && (best.None? || !NotAfter(jobs[best.value], jobs[id])) {
          best := Some(id);
        }
      }
      if best.None? {
        return None;
      }
      var id := best.value;
      jobs := jobs[id := ClaimedJob(jobs[id], worker, now)];
      return Some((id, jobs[id]));
    }

    /** No status guard: whoever calls last wins. */
    method CompleteJob(id: JobId, result: string, now: real) returns (r: Result<Job>)
      modifies this
      ensures jobs == Apply(old(jobs), Complete(id, result), backoffBase, now)
      ensures r == if id in old(jobs) then Ok(jobs[id]) else Err(NotFound(id))
    {
      if id !in jobs {
        return Err(NotFound(id));
      }
      jobs := jobs[id := CompletedJob(jobs[id], result, now)];
      return Ok(jobs[id]);
    }

    method FailJob(id: JobId, error: string, retryable: bool, jitter: real, now: real) returns (r: Result<Job>)
      requires 0.0 <= jitter < 1.0
      modifies this
      ensures jobs == Apply(old(jobs), Fail(id, error, retryable, jitter), backoffBase, now)
      ensures r.Ok? <==> id in old(jobs) && FailApplies(old(jobs)[id], retryable, backoffBase, jitter)
      ensures r.Ok? ==> r.value == jobs[id]
      ensures r == Err(NotFound(id)) <==> id !in old(jobs) || !old(jobs)[id].status.Running?
    {
      if id !in jobs || !jobs[id].status.Running? {
        return Err(NotFound(id));
      }
      var j := jobs[id];
      if Retries(j, retryable) {
        if !BackoffDefined(backoffBase, j.attempts, jitter) {
          return Err(Database);
        }
        j := j.(status := Pending, nextAttemptAt := Some(now + BackoffSeconds(backoffBase, j.attempts, jitter)));
      } else {
        j := j.(status := Failed, finishedAt := Some(now));
      }
      jobs := jobs[id := j.(lastError := Some(error))];
      return Ok(jobs[id]);
    }

    method UpdateHeartbeat(id: JobId, now: real)
      modifies this
      ensures jobs == Apply(old(jobs), Heartbeat(id), backoffBase, now)
    {
      if id in jobs && jobs[id].status.Running? {
        jobs := jobs[id := jobs[id].(heartbeatAt := Some(now))];
      }
    }

    method FindStaleRunning(types: set<string>, thresholdSeconds: int, now: real) returns (ids: seq<JobId>)
      ensures forall id :: id in ids <==> id in jobs && IsStale(jobs[id], types, thresholdSeconds, now)
      ensures forall i, j :: 0 <= i < j < |ids| ==> ids[i] != ids[j]
    {
      ids := [];
      var rest := jobs.Keys;
      while rest != {}
        invariant rest <= jobs.Keys
        invariant forall id :: id in ids <==>
                    id in jobs && id !in rest && IsStale(jobs[id], types, thresholdSeconds, now)
        invariant forall i, j :: 0 <= i < j < |ids| ==> ids[i] != ids[j]
        decreases rest
      {
        var id :| id in rest;
        if IsStale(jobs[id], types, thresholdSeconds, now) {
          assert id !in ids;
          ids := ids + [id];
        }
        rest := rest - {id};
      }
    }
  }
}
