/** One worker: claim, dispatch to a handler, then complete or fail. */
module Workers {
  import opened Wrappers
  import opened Jobs
  import opened Store
  import Protocol

  class Worker {
    const store: JobStore
    const name: string
    const handled: set<string>
    var lease: Option<Protocol.Lease>

    constructor (store: JobStore, name: string, handled: set<string>)
      ensures this.store == store && this.name == name && this.handled == handled && lease == None
    {
      this.store, this.name, this.handled, lease := store, name, handled, None;
    }

    /** Claims the next job. The claim filter is the handlers' types, so a claimed job always
        has a handler. */
    method Poll(locked: set<JobId>, now: real)
      requires lease.None?
      modifies this`lease, store
      ensures lease.None? ==> store.jobs == old(store.jobs)
      ensures lease.Some? ==>
        var w := Claim(lease.value.id, name, handled, locked);
        && Enabled(old(store.jobs), w, now)
        && store.jobs == Apply(old(store.jobs), w, store.backoffBase, now)
        && store.jobs[lease.value.id].attempts == lease.value.attempts
        && store.jobs[lease.value.id].jobType in handled
    {
      var claimed := store.ClaimJob(handled, name, locked, now);
      if claimed.Some? {
        var (id, job) := claimed.value;
        lease := Some(Protocol.Lease(id, job.attempts));
      }
    }

    /** Records how the handler ended, whatever has happened to the row meanwhile. */
    method Finish(outcome: Protocol.Outcome, jitter: real, now: real)
      requires lease.Some? && 0.0 <= jitter < 1.0
      modifies this`lease, store
      ensures lease.None?
      ensures store.jobs ==
        Apply(old(store.jobs), Protocol.WriteFor(outcome, old(lease).value.id, jitter), store.backoffBase, now)
    {
      var id := lease.value.id;
      match outcome {
        case Success(output) => var _ := store.CompleteJob(id, output, now);
        case HandlerError(message, retryable) => var _ := store.FailJob(id, message, retryable, jitter, now);
        case Panicked => var _ := store.FailJob(id, "handler panicked", false, jitter, now);
        case Cancelled =>
      }
      lease := None;
    }
  }
}

/** The reaper: scan for stale leases, then fail them one by one. */
module Reapers {
  import opened Jobs
  import opened Store
  import Protocol

  /** Statement `i` of the tick runs at `clock(i)` and draws `jitter(i)`; the scan is number 0. */
  ghost predicate ReapedAt(j: Job, j': Job, i: nat, base: real, clock: nat -> real, jitter: nat -> real) {
    i > 0 && j' == FailOutcome(j, Protocol.STALE_ERROR, true, base, jitter(i), clock(i))
  }

  ghost predicate Reaped(j: Job, j': Job, base: real, clock: nat -> real, jitter: nat -> real) {
    exists i: nat :: ReapedAt(j, j', i, base, clock, jitter)
  }

  ghost function Moved(before: Table, jobs: Table): set<JobId> {
    set id | id in jobs && id in before && jobs[id] != before[id]
  }

  /** The rows of the first `n` ids have been failed, the others are untouched. */
  ghost predicate TickSoFar(before: Table, jobs: Table, ids: seq<JobId>, n: nat, base: real, clock: nat -> real,
                            jitter: nat -> real)
    requires n <= |ids|
  {
    && jobs.Keys == before.Keys
    && (forall id :: id in before && id !in ids[..n] ==> jobs[id] == before[id])
    && (forall id :: id in ids[..n] ==> id in before && Reaped(before[id], jobs[id], base, clock, jitter))
  }

  lemma TickStep(before: Table, jobs: Table, j': Job, ids: seq<JobId>, n: nat, base: real, clock: nat -> real,
                 jitter: nat -> real)
    requires n < |ids| && TickSoFar(before, jobs, ids, n, base, clock, jitter)
    requires ids[n] in before && ids[n] !in ids[..n] && Reaped(before[ids[n]], j', base, clock, jitter)
    ensures TickSoFar(before, jobs[ids[n] := j'], ids, n + 1, base, clock, jitter)
  {
    assert ids[..n + 1] == ids[..n] + [ids[n]];
  }

  lemma MovedStep(before: Table, jobs: Table, id: JobId, j': Job)
    requires id in before && id in jobs && jobs[id] == before[id]
    ensures |Moved(before, jobs[id := j'])| == |Moved(before, jobs)| + if j' != jobs[id] then 1 else 0
  {
    assert Moved(before, jobs[id := j']) == if j' != jobs[id] then Moved(before, jobs) + {id} else Moved(before, jobs);
  }

  class Reaper {
    const store: JobStore
    const types: set<string>
    const thresholdSeconds: int

    constructor (store: JobStore, types: set<string>, thresholdSeconds: int)
      ensures this.store == store && this.types == types && this.thresholdSeconds == thresholdSeconds
    {
      this.store, this.types, this.thresholdSeconds := store, types, thresholdSeconds;
    }

    /** Fails one scanned row, tolerating a row that has been taken over. */
    method ReapOne(id: JobId, jitter: real, now: real) returns (reaped: bool)
      requires id in store.jobs && 0.0 <= jitter < 1.0
      modifies store
      ensures store.jobs == old(store.jobs)[id :=
        FailOutcome(old(store.jobs)[id], Protocol.STALE_ERROR, true, store.backoffBase, jitter, now)]
      ensures reaped <==> store.jobs[id] != old(store.jobs)[id]
    {
      var r := store.FailJob(id, Protocol.STALE_ERROR, true, jitter, now);
      reaped := r.Ok?;
    }

    /** An uninterrupted tick fails exactly the stale rows, touches no other, and counts the
        rows it moved. */
    method Tick(clock: nat -> real, jitter: nat -> real) returns (reapedCount: nat)
      requires forall i :: 0.0 <= jitter(i) < 1.0
      modifies store
      ensures store.jobs.Keys == old(store.jobs).Keys
      ensures forall id :: id in store.jobs ==>
        if IsStale(old(store.jobs)[id], types, thresholdSeconds, clock(0))
        then Reaped(old(store.jobs)[id], store.jobs[id], store.backoffBase, clock, jitter)
        else store.jobs[id] == old(store.jobs)[id]
      ensures reapedCount == |Moved(old(store.jobs), store.jobs)|
    {
      ghost var before := store.jobs;
      var staleIds := store.FindStaleRunning(types, thresholdSeconds, clock(0));
      reapedCount := 0;
      assert Moved(before, before) == {};
      for n := 0 to |staleIds|
        invariant TickSoFar(before, store.jobs, staleIds, n, store.backoffBase, clock, jitter)
        invariant reapedCount == |Moved(before, store.jobs)|
      {
        ghost var jobs := store.jobs;
        var reaped := ReapOne(staleIds[n], jitter(n + 1), clock(n + 1));
        assert ReapedAt(jobs[staleIds[n]], store.jobs[staleIds[n]], n + 1, store.backoffBase, clock, jitter);
        TickStep(before, jobs, store.jobs[staleIds[n]], staleIds, n, store.backoffBase, clock, jitter);
        MovedStep(before, jobs, staleIds[n], store.jobs[staleIds[n]]);
        if reaped {
          reapedCount := reapedCount + 1;
        }
      }
      assert staleIds[..|staleIds|] == staleIds;
    }
  }
}

/** Handlers by job type, and the scheduler wired from them. */
module Schedulers {
  import opened Store

  datatype Handler = Handler(jobType: string, maxAttempts: int)

  class HandlerRegistry {
    var handlers: map<string, Handler>

    ghost predicate Valid()
      reads this
    {
      forall t :: t in handlers ==> handlers[t].jobType == t
    }

    constructor ()
      ensures Valid() && handlers == map[]
    {
      handlers := map[];
    }

    /** The last registration for a type wins. */
    method Register(handler: Handler)
      requires Valid()
      modifies this
      ensures Valid() && handlers == old(handlers)[handler.jobType := handler]
    {
      handlers := handlers[handler.jobType := handler];
    }

    function RegisteredTypes(): set<string>
      reads this
    {
      handlers.Keys
    }

    function Handlers(): set<Handler>
      reads this
    {
      handlers.Values
    }
  }

  /** The types the pool's workers claim, and those the reaper scans. */
  datatype Scheduler = Scheduler(poolTypes: set<string>, reaperTypes: set<string>)

  /** The worker pool reads the types off the handlers, the reaper off the registry; they are
      the same types, so every job the pool can claim is one its reaper scans. */
  method Build(registry: HandlerRegistry) returns (r: Result<Scheduler>)
    requires registry.Valid()
    ensures r == if registry.handlers == map[] then Err(Database)
                 else Ok(Scheduler(registry.handlers.Keys, registry.handlers.Keys))
  {
    if registry.handlers == map[] {
      return Err(Database);
    }
    var poolTypes := set h | h in registry.Handlers() :: h.jobType;
    assert forall t :: t in registry.handlers ==> registry.handlers[t] in registry.Handlers();
    assert poolTypes == registry.handlers.Keys;
    return Ok(Scheduler(poolTypes, registry.RegisteredTypes()));
  }
}
