/** Crash recovery: a whole tick of a reaper inside a run, alone or among other events. */
module Recovery {
  import opened Wrappers
  import opened Jobs
  import opened Histories
  import opened Protocol
  import Races

  /** From event i on, one reaper scans and then reaps its whole list, with nothing in between. */
  ghost predicate IsTick(r: Run, i: nat) {
    && i < |r.events| && r.events[i].Scan? && i + |r.events[i].stale| < |r.events|
    && forall k :: i < k <= i + |r.events[i].stale| ==> r.events[k].Reap? && r.events[k].reaper == r.events[i].reaper
  }

  ghost predicate Distinct(ids: seq<JobId>) {
    forall x, y :: 0 <= x < y < |ids| ==> ids[x] != ids[y]
  }

  function ReapedRow(j: Job, base: real, jitter: real, now: real): Job {
    FailOutcome(j, STALE_ERROR, true, base, jitter, now)
  }

  // ----- one update after the other -----

  datatype Draw = Draw(jitter: real, now: real)

  ghost predicate Reaps(base: real, t: Table, t': Table, id: JobId, d: Draw) {
    id in t ==> t' == t[id := ReapedRow(t[id], base, d.jitter, d.now)]
  }

  /** From each table to the next, one id's row is failed. */
  ghost predicate ReapsInTurn(base: real, tables: seq<Table>, ids: seq<JobId>, draws: seq<Draw>) {
    && |tables| == |ids| + 1 && |draws| == |ids|
    && forall k :: 0 <= k < |ids| ==> Reaps(base, tables[k], tables[k + 1], ids[k], draws[k])
  }

  lemma {:induction false} OthersUntouched(base: real, tables: seq<Table>, ids: seq<JobId>, draws: seq<Draw>,
                                           m: nat, n: nat, id: JobId)
    requires ReapsInTurn(base, tables, ids, draws) && m <= n <= |ids|
    requires forall k :: 0 <= k < |ids| ==> ids[k] in tables[m]
    requires id in tables[m] && id !in ids[m..n]
    ensures id in tables[n] && tables[n][id] == tables[m][id]
    ensures forall k :: 0 <= k < |ids| ==> ids[k] in tables[n]
  {
    if m < n {
      assert ids[m..n] == ids[m..n - 1] + [ids[n - 1]];
      OthersUntouched(base, tables, ids, draws, m, n - 1, id);
      assert Reaps(base, tables[n - 1], tables[n], ids[n - 1], draws[n - 1]);
    }
  }

  /** Distinct ids are failed once each. */
  lemma EachOnce(base: real, tables: seq<Table>, ids: seq<JobId>, draws: seq<Draw>, k: nat)
    requires ReapsInTurn(base, tables, ids, draws) && Distinct(ids) && k < |ids|
    requires forall k :: 0 <= k < |ids| ==> ids[k] in tables[0]
    ensures ids[k] in tables[0] && ids[k] in tables[|ids|]
    ensures tables[|ids|][ids[k]] == ReapedRow(tables[0][ids[k]], base, draws[k].jitter, draws[k].now)
  {
    OthersUntouched(base, tables, ids, draws, 0, k, ids[k]);
    assert Reaps(base, tables[k], tables[k + 1], ids[k], draws[k]);
    OthersUntouched(base, tables, ids, draws, k + 1, |ids|, ids[k]);
  }

  // ----- the tick of a run -----

  /** What the reaper has still to work off. */
  ghost predicate ScanLeft(s: System, reaper: ActorId, ids: seq<JobId>) {
    reaper in s.scans && s.scans[reaper] == ids
  }

  lemma ScanStep(base: real, s: System, e: Event, s': System)
    requires Next(base, s, e, s') && e.Scan?
    ensures s'.jobs == s.jobs && ScanLeft(s', e.reaper, e.stale) && Distinct(e.stale)
    ensures forall id :: id in e.stale <==> id in s.jobs && IsStale(s.jobs[id], e.types, e.thresholdSeconds, s'.now)
  {}

  lemma ReapStep(base: real, s: System, e: Event, s': System, ids: seq<JobId>)
    requires Next(base, s, e, s') && e.Reap? && ScanLeft(s, e.reaper, ids) && ids != []
    ensures Reaps(base, s.jobs, s'.jobs, ids[0], Draw(e.jitter, s'.now))
    ensures ScanLeft(s', e.reaper, ids[1..])
  {}

  lemma NextOfTick(r: Run, i: nat, n: nat)
    requires IsTick(r, i) && n < |r.events[i].stale|
    ensures r.events[i + 1 + n].Reap? && r.events[i + 1 + n].reaper == r.events[i].reaper
    ensures r.events[i].stale[n..] != [] && r.events[i].stale[n..][0] == r.events[i].stale[n]
    ensures r.events[i].stale[n..][1..] == r.events[i].stale[n + 1..] && r.events[i].stale[n] in r.events[i].stale
  {
    var k := i + 1 + n;
    assert r.events[k].Reap? && r.events[k].reaper == r.events[i].reaper;
  }

  lemma {:induction false} ScanLeftAfter(base: real, r: Run, i: nat, n: nat)
    requires IsRun(base, r) && IsTick(r, i) && n <= |r.events[i].stale|
    ensures ScanLeft(r.states[i + 1 + n], r.events[i].reaper, r.events[i].stale[n..])
  {
    if n == 0 {
      ScanStep(base, r.states[i], r.events[i], r.states[i + 1]);
    } else {
      ScanLeftAfter(base, r, i, n - 1);
      NextOfTick(r, i, n - 1);
      ReapStep(base, r.states[i + n], r.events[i + n], r.states[i + n + 1], r.events[i].stale[n - 1..]);
    }
  }

  function DrawOf(e: Event, now: real): Draw {
    Draw(if e.Reap? then e.jitter else 0.0, now)
  }

  lemma TickReaps(base: real, r: Run, i: nat, n: nat)
    requires IsRun(base, r) && IsTick(r, i) && n < |r.events[i].stale|
    ensures Reaps(base, r.states[i + 1 + n].jobs, r.states[i + 2 + n].jobs, r.events[i].stale[n],
                  DrawOf(r.events[i + 1 + n], r.states[i + 2 + n].now))
  {
    var k := i + 1 + n;
    ScanLeftAfter(base, r, i, n);
    NextOfTick(r, i, n);
    ReapStep(base, r.states[k], r.events[k], r.states[k + 1], r.events[i].stale[n..]);
  }

  ghost function TablesOf(r: Run, i: nat, n: nat): (tables: seq<Table>)
    requires i + n < |r.states|
    ensures |tables| == n + 1 && forall k :: 0 <= k <= n ==> tables[k] == r.states[i + k].jobs
  {
    seq(n + 1, k requires 0 <= k <= n => r.states[i + k].jobs)
  }

  ghost function DrawsOf(r: Run, i: nat, n: nat): (draws: seq<Draw>)
    requires i + n <= |r.events| < |r.states|
    ensures |draws| == n && forall k :: 0 <= k < n ==> draws[k] == DrawOf(r.events[i + k], r.states[i + k + 1].now)
  {
    seq(n, k requires 0 <= k < n => DrawOf(r.events[i + k], r.states[i + k + 1].now))
  }

  lemma TickReapsInTurn(base: real, r: Run, i: nat)
    requires IsRun(base, r) && IsTick(r, i)
    ensures var n := |r.events[i].stale|;
            ReapsInTurn(base, TablesOf(r, i + 1, n), r.events[i].stale, DrawsOf(r, i + 1, n))
  {
    var n := |r.events[i].stale|;
    var tables, draws := TablesOf(r, i + 1, n), DrawsOf(r, i + 1, n);
    forall k | 0 <= k < n ensures Reaps(base, tables[k], tables[k + 1], r.events[i].stale[k], draws[k]) {
      TickReaps(base, r, i, k);
    }
  }

  /** The job is given up, or to be retried; or it is as it was, its delay being out of range. */
  ghost predicate Recovered(j: Job, j': Job, base: real, jitter: real) {
    && j'.attempts == j.attempts
    && (j'.status.Failed? <==> j.attempts >= j.maxAttempts)
    && (j'.status.Pending? <==> j.attempts < j.maxAttempts && BackoffDefined(base, j.attempts, jitter))
    && (j'.status.Running? <==> j.attempts < j.maxAttempts && !BackoffDefined(base, j.attempts, jitter))
    && (if j'.status.Running? then j' == j else j'.lastError == Some("stale heartbeat"))
  }

  lemma ReapedIsRecovered(j: Job, base: real, jitter: real, now: real)
    requires j.status.Running?
    ensures Recovered(j, ReapedRow(j, base, jitter, now), base, jitter)
  {}

  /** What a tick has made of a row when it is over: a row that was due is recovered by one reap
      of the tick, any other is as it was. */
  ghost predicate AfterTick(base: real, r: Run, i: nat, due: bool, j: Job, id: JobId)
    requires IsTick(r, i) && |r.states| == |r.events| + 1
  {
    var last := i + 1 + |r.events[i].stale|;
    && id in r.states[last].jobs
    && if due
       then exists k :: i < k < last && r.events[k].Reap?
                        && Recovered(j, r.states[last].jobs[id], base, r.events[k].jitter)
       else r.states[last].jobs[id] == j
  }

  lemma TickOutcome(base: real, r: Run, i: nat, id: JobId)
    requires IsTick(r, i) && |r.states| == |r.events| + 1 && id in r.states[i + 1].jobs
    requires var n := |r.events[i].stale|;
             ReapsInTurn(base, TablesOf(r, i + 1, n), r.events[i].stale, DrawsOf(r, i + 1, n))
    requires Distinct(r.events[i].stale) && forall x :: x in r.events[i].stale ==> x in r.states[i + 1].jobs
    requires id in r.events[i].stale ==> r.states[i + 1].jobs[id].status.Running?
    ensures AfterTick(base, r, i, id in r.events[i].stale, r.states[i + 1].jobs[id], id)
  {
    var stale := r.events[i].stale;
    var n := |stale|;
    var tables, draws := TablesOf(r, i + 1, n), DrawsOf(r, i + 1, n);
    assert tables[0] == r.states[i + 1].jobs;
    forall k | 0 <= k < n ensures stale[k] in tables[0] {
      assert stale[k] in stale;
    }
    if id in stale {
      var k :| 0 <= k < n && stale[k] == id;
      EachOnce(base, tables, stale, draws, k);
      NextOfTick(r, i, k);
      ReapedIsRecovered(tables[0][id], base, draws[k].jitter, draws[k].now);
      assert r.events[i + 1 + k].Reap? && r.events[i + 1 + k].jitter == draws[k].jitter;
    } else {
      assert stale[0..n] == stale;
      OthersUntouched(base, tables, stale, draws, 0, n, id);
    }
  }

  /** The row is one the scan at event i looks for. */
  ghost predicate StaleAt(r: Run, i: nat, id: JobId)
    requires i < |r.events| < |r.states| && r.events[i].Scan? && id in r.states[i].jobs
  {
    IsStale(r.states[i].jobs[id], r.events[i].types, r.events[i].thresholdSeconds, r.states[i + 1].now)
  }

  /** Whatever has happened before, whichever workers have crashed and whatever types they claim,
      an uninterrupted tick recovers each stale job of the reaper's types and leaves every other
      row as it was. */
  lemma StaleJobIsRecovered(base: real, r: Run, i: nat, id: JobId)
    requires IsRun(base, r) && IsTick(r, i) && id in r.states[i].jobs
    ensures AfterTick(base, r, i, StaleAt(r, i, id), r.states[i].jobs[id], id)
  {
    ScanStep(base, r.states[i], r.events[i], r.states[i + 1]);
    TickReapsInTurn(base, r, i);
    TickOutcome(base, r, i, id);
  }

  lemma ServedHasHeartbeat(base: real, r: Run, n: nat, types: set<string>, id: JobId)
    requires IsRun(base, r) && Serves(r, types) && n <= |r.events|
    requires id in r.states[n].jobs && r.states[n].jobs[id].status.Running?
    ensures r.states[n].jobs[id].heartbeatAt.Some? && r.states[n].jobs[id].jobType in types
  {
    RunningTypesServed(base, r, n, types);
    ReachableJobsOk(base, r, n);
    assert JobOk(r.states[n].jobs[id]);
  }

  /** Running, and not heard of since. */
  ghost predicate Silent(j: Job, since: real) {
    j.status.Running? && j.heartbeatAt.Some? && j.heartbeatAt.value < since
  }

  /** When every claim is for types the reaper scans, as in a single scheduler, each job running
      with a heartbeat older than the threshold is stale for it, so recovered. */
  lemma SilentJobIsRecovered(base: real, r: Run, i: nat, id: JobId)
    requires IsRun(base, r) && IsTick(r, i) && Serves(r, r.events[i].types) && id in r.states[i].jobs
    ensures r.states[i].jobs[id].status.Running? ==> r.states[i].jobs[id].heartbeatAt.Some?
    ensures var j, since := r.states[i].jobs[id], r.states[i + 1].now - r.events[i].thresholdSeconds as real;
            AfterTick(base, r, i, Silent(j, since), j, id)
  {
    StaleJobIsRecovered(base, r, i, id);
    if r.states[i].jobs[id].status.Running? {
      ServedHasHeartbeat(base, r, i, r.events[i].types, id);
    }
  }

  // ----- a tick among other events -----

  /** The reaper does not drop its list. */
  ghost predicate Keeps(r: Run, m: nat, n: nat, reaper: ActorId)
    requires n <= |r.events|
  {
    forall k :: m <= k < n ==> !(r.events[k].Abandon? && r.events[k].reaper == reaper)
  }

  predicate ReapsOf(e: Event, reaper: ActorId) { e.Reap? && e.reaper == reaper }

  lemma ListStep(base: real, s: System, e: Event, s': System, reaper: ActorId, ids: seq<JobId>)
    requires Next(base, s, e, s') && ScanLeft(s, reaper, ids) && !(e.Abandon? && e.reaper == reaper)
    ensures ReapsOf(e, reaper) ==>
      && ids != [] && ScanLeft(s', reaper, ids[1..])
      && WriteOf(s, e) == Fail(ids[0], STALE_ERROR, true, e.jitter)
    ensures !ReapsOf(e, reaper) ==> ScanLeft(s', reaper, ids)
  {
    assert Ready(s, e, s'.now);
  }

  lemma ListEventStep(base: real, s: System, e: Event, s': System, reaper: ActorId)
    requires Next(base, s, e, s')
    ensures reaper in s'.scans <==>
            (e.Scan? && e.reaper == reaper) || (reaper in s.scans && !(e.Abandon? && e.reaper == reaper))
  {
    assert Ready(s, e, s'.now);
  }

  /** A reaper takes up a list by a scan and drops it by abandoning it, and in no other way. */
  lemma ReaperHasListIff(base: real, r: Run, n: nat, reaper: ActorId)
    requires IsRun(base, r) && n < |r.events|
    ensures reaper in r.states[n + 1].scans <==>
            (r.events[n].Scan? && r.events[n].reaper == reaper)
            || (reaper in r.states[n].scans && !(r.events[n].Abandon? && r.events[n].reaper == reaper))
  {
    ListEventStep(base, r.states[n], r.events[n], r.states[n + 1], reaper);
  }

  /** Event k is the reaper's reap of the job. */
  ghost predicate ReapedAt(r: Run, k: nat, reaper: ActorId, id: JobId)
    requires k < |r.events| < |r.states|
  {
    ReapsOf(r.events[k], reaper) && WriteOf(r.states[k], r.events[k]) == Fail(id, STALE_ERROR, true, r.events[k].jitter)
  }

  ghost predicate ReapedIn(r: Run, m: nat, n: nat, reaper: ActorId, id: JobId)
    requires n <= |r.events| < |r.states|
  {
    exists k :: m <= k < n && ReapedAt(r, k, reaper, id)
  }

  /** At any later point the list is a tail of the scanned one, and the rest has been reaped. */
  lemma {:induction false} ListedOrReaped(base: real, r: Run, i: nat, n: nat) returns (c: nat)
    requires IsRun(base, r) && i < n <= |r.events| && r.events[i].Scan? && Keeps(r, i, n, r.events[i].reaper)
    ensures c <= |r.events[i].stale| && ScanLeft(r.states[n], r.events[i].reaper, r.events[i].stale[c..])
    ensures forall x :: 0 <= x < c ==> ReapedIn(r, i + 1, n, r.events[i].reaper, r.events[i].stale[x])
    decreases n
  {
    var stale, reaper := r.events[i].stale, r.events[i].reaper;
    if n == i + 1 {
      ScanStep(base, r.states[i], r.events[i], r.states[n]);
      c := 0;
      assert stale[0..] == stale;
    } else {
      c := ListedOrReaped(base, r, i, n - 1);
      ghost var before := c;
      RunListStep(base, r, n - 1, reaper, stale[c..]);
      if ReapsOf(r.events[n - 1], reaper) {
        assert stale[c..][1..] == stale[c + 1..] && ReapedAt(r, n - 1, reaper, stale[c]);
        c := c + 1;
      }
      forall x | 0 <= x < before ensures ReapedIn(r, i + 1, n, reaper, stale[x]) {
        var k :| i + 1 <= k < n - 1 && ReapedAt(r, k, reaper, stale[x]);
      }
    }
  }

  lemma RunListStep(base: real, r: Run, k: nat, reaper: ActorId, ids: seq<JobId>)
    requires IsRun(base, r) && k < |r.events| && ScanLeft(r.states[k], reaper, ids) && Keeps(r, k, k + 1, reaper)
    ensures ReapsOf(r.events[k], reaper) ==>
              ids != [] && ScanLeft(r.states[k + 1], reaper, ids[1..]) && ReapedAt(r, k, reaper, ids[0])
    ensures !ReapsOf(r.events[k], reaper) ==> ScanLeft(r.states[k + 1], reaper, ids)
  {
    ListStep(base, r.states[k], r.events[k], r.states[k + 1], reaper, ids);
  }

  lemma {:induction false} AgeInRun(base: real, r: Run, m: nat, n: nat, id: JobId)
    requires IsRun(base, r) && m <= n <= |r.events| && id in r.states[m].jobs
    ensures id in r.states[n].jobs && Age(r.states[m].jobs[id]) <= Age(r.states[n].jobs[id])
  {
    if m < n {
      AgeInRun(base, r, m, n - 1, id);
      AgeStep(base, r.states[n - 1], r.events[n - 1], r.states[n], id);
    }
  }

  lemma AgeStep(base: real, s: System, e: Event, s': System, id: JobId)
    requires Next(base, s, e, s') && id in s.jobs
    ensures id in s'.jobs && Age(s.jobs[id]) <= Age(s'.jobs[id])
  {}

  /** A job that is running under the lease it had at some earlier point was not ended since. */
  lemma MetReap(base: real, r: Run, i: nat, k: nat, n: nat, reaper: ActorId, id: JobId)
    requires IsRun(base, r) && i <= k < n <= |r.events| && id in r.states[i].jobs && ReapedAt(r, k, reaper, id)
    requires id in r.states[n].jobs && r.states[n].jobs[id].status.Running?
    requires r.states[n].jobs[id].attempts == r.states[i].jobs[id].attempts
    ensures id in r.states[k].jobs && r.states[k].jobs[id].attempts == r.states[i].jobs[id].attempts
    ensures r.states[k].jobs[id].attempts < r.states[k].jobs[id].maxAttempts
    ensures !BackoffDefined(base, r.states[k].jobs[id].attempts, r.events[k].jitter)
  {
    Races.SameLeaseInRunIff(base, r, i, k, id);
    Races.SameLeaseInRunIff(base, r, k, n, id);
    Races.StepOutcome(base, r, k, id);
    AgeInRun(base, r, k, n, id);
    Races.SameLeaseInRunIff(base, r, k, k + 1, id);
    AgeInRun(base, r, k + 1, n, id);
  }

  /** Whatever else happens between a scan and the end of its list: each scanned job has then
      ended its lease, or has been claimed again, unless a reap of the list found its delay out
      of range. */
  lemma ScannedJobIsRecovered(base: real, r: Run, i: nat, n: nat, id: JobId)
    requires IsRun(base, r) && i < n <= |r.events| && r.events[i].Scan? && id in r.events[i].stale
    requires Keeps(r, i, n, r.events[i].reaper) && ScanLeft(r.states[n], r.events[i].reaper, [])
    ensures id in r.states[i].jobs && id in r.states[n].jobs
    ensures var was, now := r.states[i].jobs[id], r.states[n].jobs[id];
      || now.attempts > was.attempts
      || !now.status.Running?
      || (was.attempts < was.maxAttempts
          && exists k :: i < k < n && ReapedAt(r, k, r.events[i].reaper, id)
                         && !BackoffDefined(base, was.attempts, r.events[k].jitter))
  {
    var stale, reaper := r.events[i].stale, r.events[i].reaper;
    Races.ScanFindsStale(base, r, i, id);
    Races.SameLeaseInRunIff(base, r, i, n, id);
    var c := ListedOrReaped(base, r, i, n);
    var x :| 0 <= x < |stale| && stale[x] == id;
    assert |stale[c..]| == 0;
    var k :| i + 1 <= k < n && ReapedAt(r, k, reaper, stale[x]);
    if r.states[n].jobs[id].status.Running? && r.states[n].jobs[id].attempts == r.states[i].jobs[id].attempts {
      MetReap(base, r, i, k, n, reaper, id);
      Races.SameLeaseInRunIff(base, r, i, k, id);
    }
  }
}
