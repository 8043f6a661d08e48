/** Every interleaving of writes to the jobs table: the invariant they keep, how often a job
    is claimed and ended, how far apart its claims are, and how long it can go on. */
module Histories {
  import opened Jobs
  import opened Sums

  datatype Step = Step(write: Write, now: real)

  type History = seq<Step>

  function Front(h: History): History
    requires h != []
  {
    h[..|h| - 1]
  }

  function Last(h: History): Step
    requires h != []
  {
    h[|h| - 1]
  }

  /** The table after a history, from the empty table. */
  function Replay(base: real, h: History): Table {
    if h == [] then map[] else Apply(Replay(base, Front(h)), Last(h).write, base, Last(h).now)
  }

  /** Each write is possible where it happens, and the clock never goes back. */
  ghost predicate Legal(base: real, h: History) {
    h == [] ||
    (&& Legal(base, Front(h))
     && Enabled(Replay(base, Front(h)), Last(h).write, Last(h).now)
     && (|h| > 1 ==> Last(Front(h)).now <= Last(h).now))
  }

  lemma LegalExtends(base: real, h: History, w: Write, now: real)
    requires Legal(base, h) && Enabled(Replay(base, h), w, now) && (h != [] ==> Last(h).now <= now)
    ensures Legal(base, h + [Step(w, now)])
    ensures Replay(base, h + [Step(w, now)]) == Apply(Replay(base, h), w, base, now)
  {
    assert Front(h + [Step(w, now)]) == h;
  }

  lemma {:induction false} LegalPrefix(base: real, h: History, n: nat)
    requires Legal(base, h) && n <= |h|
    ensures Legal(base, h[..n])
    ensures n < |h| ==> Enabled(Replay(base, h[..n]), h[n].write, h[n].now)
    ensures n < |h| ==> Replay(base, h[..n + 1]) == Apply(Replay(base, h[..n]), h[n].write, base, h[n].now)
  {
    if n < |h| {
      LegalPrefix(base, h[..|h| - 1], n);
      assert h[..|h| - 1][..n] == h[..n];
      assert h[..n + 1][..n] == h[..n];
      if n + 1 < |h| {
        assert h[..|h| - 1][..n + 1] == h[..n + 1];
      } else {
        assert h[..n + 1] == h;
      }
    } else {
      assert h[..n] == h;
    }
  }

  lemma {:induction false} ClockMonotone(base: real, h: History, i: nat, j: nat)
    requires Legal(base, h) && i <= j < |h|
    ensures h[i].now <= h[j].now
  {
    if i < j {
      ClockMonotone(base, h, i, j - 1);
      LegalPrefix(base, h, j + 1);
      assert Front(h[..j + 1]) == h[..j];
    }
  }

  // ----- the table invariant -----

  ghost predicate JobOk(j: Job) {
    && (j.finishedAt.Some? <==> !j.Open())
    && (j.status.Pending? ==> j.attempts == 0 || j.attempts < j.maxAttempts)
    && (j.status.Pending? && j.attempts > 0 ==> j.nextAttemptAt.Some?)
    && (j.status.Running? ==> j.heartbeatAt.Some? && j.attempts > 0)
    && (j.attempts > 0 ==> j.claimedAt.Some? && j.claimedBy.Some?)
    && (j.status.Failed? ==> j.attempts > 0)
    && j.attempts <= AttemptLimit(j)
  }

  function AttemptLimit(j: Job): nat {
    if j.maxAttempts > 1 then j.maxAttempts else 1
  }

  ghost predicate DedupOk(t: Table) {
    forall id, other | id in t && other in t && id != other && t[id].Open() && t[other].Open() ::
      t[id].dedupKey.Some? && t[id].dedupKey == t[other].dedupKey ==> t[id].jobType != t[other].jobType
  }

  ghost predicate TableOk(t: Table) {
    (forall id :: id in t ==> JobOk(t[id])) && DedupOk(t)
  }

  lemma WriteKeepsTableOk(t: Table, w: Write, base: real, now: real)
    requires TableOk(t) && Enabled(t, w, now)
    ensures TableOk(Apply(t, w, base, now))
  {
    WriteKeepsJobsOk(t, w, base, now);
    WriteKeepsDedupOk(t, w, base, now);
  }

  lemma WriteKeepsJobsOk(t: Table, w: Write, base: real, now: real)
    requires (forall id :: id in t ==> JobOk(t[id])) && Enabled(t, w, now)
    ensures forall id :: id in Apply(t, w, base, now) ==> JobOk(Apply(t, w, base, now)[id])
  {
    var t' := Apply(t, w, base, now);
    forall id | id in t' ensures JobOk(t'[id]) {
      if id in t { assert JobOk(t[id]); }
    }
  }

  /** A write that opens no row keeps the dedup index; an insert that would break it is refused. */
  lemma WriteKeepsDedupOk(t: Table, w: Write, base: real, now: real)
    requires DedupOk(t) && Enabled(t, w, now)
    ensures DedupOk(Apply(t, w, base, now))
  {
    var t' := Apply(t, w, base, now);
    forall id, other | id in t' && other in t' && id != other && t'[id].Open() && t'[other].Open()
                       && t'[id].dedupKey.Some? && t'[id].dedupKey == t'[other].dedupKey
      ensures t'[id].jobType != t'[other].jobType
    {
      if id in t && other in t {
        assert t[id].Open() && t[other].Open();
      }
    }
  }

  /** In every reachable table at most one open job has a given type and dedup key, finish
      times mark exactly the terminal jobs, a pending job may still be tried, a running job
      has a heartbeat, and no job is attempted more than max(1, max_attempts) times. */
  lemma {:induction false} ReachableTableOk(base: real, h: History)
    requires Legal(base, h)
    ensures TableOk(Replay(base, h))
  {
    if h != [] {
      ReachableTableOk(base, Front(h));
      WriteKeepsTableOk(Replay(base, Front(h)), Last(h).write, base, Last(h).now);
    }
  }

  const INT_MAX := 0x7FFF_FFFF

  /** The attempts column never leaves the range of its 32-bit type. */
  lemma AttemptsFitColumn(base: real, h: History, id: JobId)
    requires Legal(base, h) && id in Replay(base, h) && Replay(base, h)[id].maxAttempts <= INT_MAX
    ensures Replay(base, h)[id].attempts <= INT_MAX
    ensures Replay(base, h)[id].status.Pending? ==> Replay(base, h)[id].attempts + 1 <= INT_MAX
  {
    ReachableTableOk(base, h);
    assert JobOk(Replay(base, h)[id]);
  }

  /** What any stretch of history does to a row: it stays, keeps its identity and never
      counts down; completed is never left; failed is left only for completed. */
  ghost predicate Evolves(j: Job, j': Job) {
    && j'.jobType == j.jobType && j'.payload == j.payload && j'.dedupKey == j.dedupKey
    && j'.maxAttempts == j.maxAttempts && j'.priority == j.priority && j'.createdAt == j.createdAt
    && j.attempts <= j'.attempts
    && (j.status.Completed? ==> j'.status.Completed? && j'.attempts == j.attempts)
    && (j.status.Failed? ==> (j'.status.Failed? || j'.status.Completed?) && j'.attempts == j.attempts)
  }

  lemma {:induction false} RowsEvolve(base: real, h: History, m: nat, n: nat, id: JobId)
    requires Legal(base, h) && m <= n <= |h| && id in Replay(base, h[..m])
    ensures id in Replay(base, h[..n]) && Evolves(Replay(base, h[..m])[id], Replay(base, h[..n])[id])
  {
    if m < n {
      RowsEvolve(base, h, m, n - 1, id);
      LegalPrefix(base, h, n - 1);
    }
  }

  // ----- leases: how often a job is claimed and ended -----

  ghost predicate ClaimsAt(h: History, i: nat, id: JobId) {
    i < |h| && h[i].write.Claim? && h[i].write.id == id
  }

  /** A fail statement that found the job running and changed it. */
  ghost predicate EndsAt(base: real, h: History, i: nat, id: JobId) {
    && i < |h| && h[i].write.Fail? && h[i].write.id == id
    && id in Replay(base, h[..i])
    && FailApplies(Replay(base, h[..i])[id], h[i].write.retryable, base, h[i].write.jitter)
  }

  /** The attempts column of a job after `n` steps; with the id it names a lease. */
  ghost function AttemptsAfter(base: real, h: History, n: nat, id: JobId): nat
    requires n <= |h|
  {
    if id in Replay(base, h[..n]) then Replay(base, h[..n])[id].attempts else 0
  }

  ghost function ClaimCount(h: History, id: JobId): nat {
    if h == [] then 0
    else ClaimCount(Front(h), id) + if ClaimsAt(h, |h| - 1, id) then 1 else 0
  }

  /** The attempts column counts the claims, and stays within max(1, max_attempts). */
  lemma {:induction false} AttemptsCountClaims(base: real, h: History, id: JobId)
    requires Legal(base, h)
    ensures ClaimCount(h, id) == AttemptsAfter(base, h, |h|, id)
    ensures id in Replay(base, h) ==> ClaimCount(h, id) <= 1 || ClaimCount(h, id) <= Replay(base, h)[id].maxAttempts
  {
    assert h[..|h|] == h;
    ReachableTableOk(base, h);
    if h != [] {
      AttemptsCountClaims(base, Front(h), id);
      assert Front(h)[..|h| - 1] == Front(h);
    }
  }

  /** Grows on every claim and every end of a lease, and never falls. */
  ghost function Age(j: Job): nat {
    2 * j.attempts + if j.status.Running? then 0 else 1
  }

  ghost function AgeAfter(base: real, h: History, n: nat, id: JobId): nat
    requires n <= |h|
  {
    if id in Replay(base, h[..n]) then Age(Replay(base, h[..n])[id]) else 0
  }

  lemma {:induction false} AgeMonotone(base: real, h: History, m: nat, n: nat, id: JobId)
    requires Legal(base, h) && m <= n <= |h|
    ensures AgeAfter(base, h, m, id) <= AgeAfter(base, h, n, id)
  {
    if m < n {
      AgeMonotone(base, h, m, n - 1, id);
      LegalPrefix(base, h, n - 1);
    }
  }

  lemma AgeAround(base: real, h: History, i: nat, id: JobId)
    requires Legal(base, h) && i < |h|
    ensures ClaimsAt(h, i, id) ==>
      && AgeAfter(base, h, i + 1, id) == 2 * AttemptsAfter(base, h, i + 1, id)
      && AgeAfter(base, h, i, id) + 1 == AgeAfter(base, h, i + 1, id)
    ensures EndsAt(base, h, i, id) ==>
      && AgeAfter(base, h, i, id) == 2 * AttemptsAfter(base, h, i, id)
      && AgeAfter(base, h, i, id) < AgeAfter(base, h, i + 1, id)
  {
    LegalPrefix(base, h, i);
  }

  /** No two claims return the same lease, and each lease is ended by at most one fail,
      whichever workers and reapers send them. */
  lemma LeasesAreUnique(base: real, h: History, i: nat, j: nat, id: JobId)
    requires Legal(base, h) && i < j < |h|
    ensures ClaimsAt(h, i, id) && ClaimsAt(h, j, id) ==>
            AttemptsAfter(base, h, i + 1, id) < AttemptsAfter(base, h, j + 1, id)
    ensures EndsAt(base, h, i, id) && EndsAt(base, h, j, id) ==>
            AttemptsAfter(base, h, i, id) < AttemptsAfter(base, h, j, id)
  {
    AgeAround(base, h, i, id);
    AgeAround(base, h, j, id);
    AgeMonotone(base, h, i + 1, j, id);
  }

  /** A job still has the lease it had earlier exactly when nobody claimed it in between. */
  lemma {:induction false} SameLeaseIff(base: real, h: History, m: nat, n: nat, id: JobId)
    requires Legal(base, h) && m <= n <= |h| && id in Replay(base, h[..m])
    ensures AttemptsAfter(base, h, m, id) <= AttemptsAfter(base, h, n, id)
    ensures AttemptsAfter(base, h, m, id) == AttemptsAfter(base, h, n, id) <==>
            forall i :: m <= i < n ==> !ClaimsAt(h, i, id)
  {
    if m < n {
      SameLeaseIff(base, h, m, n - 1, id);
      RowsEvolve(base, h, m, n - 1, id);
      AttemptsStep(base, h, n - 1, id);
      assert (forall i :: m <= i < n ==> !ClaimsAt(h, i, id)) <==>
             (forall i :: m <= i < n - 1 ==> !ClaimsAt(h, i, id)) && !ClaimsAt(h, n - 1, id);
    }
  }

  /** Only a claim of the job changes its lease, to the next. */
  lemma AttemptsStep(base: real, h: History, i: nat, id: JobId)
    requires Legal(base, h) && i < |h| && id in Replay(base, h[..i])
    ensures AttemptsAfter(base, h, i + 1, id) == AttemptsAfter(base, h, i, id) + if ClaimsAt(h, i, id) then 1 else 0
  {
    LegalPrefix(base, h, i);
  }

  // ----- heartbeats -----

  ghost predicate BeatsAt(h: History, i: nat, id: JobId) {
    i < |h| && h[i].write.Heartbeat? && h[i].write.id == id
  }

  ghost predicate ClaimedIn(h: History, m: nat, n: nat, id: JobId) {
    exists i :: m <= i < n && ClaimsAt(h, i, id)
  }

  /** Claims and heartbeats are the only writes that refresh a job's heartbeat. */
  ghost predicate RefreshedIn(h: History, m: nat, n: nat, id: JobId) {
    exists i :: m <= i < n && (ClaimsAt(h, i, id) || BeatsAt(h, i, id))
  }

  /** The heartbeat is the one of `j`, or was taken at `since` or later. */
  ghost predicate KeptOrFresh(j: Job, j': Job, since: real, claimed: bool, refreshed: bool) {
    && (!refreshed ==> j'.heartbeatAt == j.heartbeatAt)
    && (claimed || (refreshed && j'.status.Running?) ==> j'.heartbeatAt.Some? && j'.heartbeatAt.value >= since)
  }

  /** A row that is running at both ends of a stretch has the same heartbeat exactly when it was
      neither claimed nor beaten in between, if its heartbeat is older than the stretch. */
  lemma {:induction false} HeartbeatKeptOrFresh(base: real, h: History, m: nat, n: nat, id: JobId, since: real)
    requires Legal(base, h) && m <= n <= |h| && id in Replay(base, h[..m]) && Replay(base, h[..m])[id].status.Running?
    requires m < |h| ==> since <= h[m].now
    ensures id in Replay(base, h[..n])
    ensures KeptOrFresh(Replay(base, h[..m])[id], Replay(base, h[..n])[id], since,
                        ClaimedIn(h, m, n, id), RefreshedIn(h, m, n, id))
  {
    if m < n {
      HeartbeatKeptOrFresh(base, h, m, n - 1, id, since);
      LegalPrefix(base, h, n - 1);
      ClockMonotone(base, h, m, n - 1);
      HeartbeatStep(Replay(base, h[..m])[id], Replay(base, h[..n - 1]), h[n - 1].write, base, h[n - 1].now, id, since,
                    ClaimedIn(h, m, n - 1, id), RefreshedIn(h, m, n - 1, id));
      assert ClaimedIn(h, m, n, id) <==> ClaimedIn(h, m, n - 1, id) || ClaimsAt(h, n - 1, id);
      assert RefreshedIn(h, m, n, id) <==>
        RefreshedIn(h, m, n - 1, id) || ClaimsAt(h, n - 1, id) || BeatsAt(h, n - 1, id);
    }
  }

  lemma HeartbeatStep(j: Job, t: Table, w: Write, base: real, now: real, id: JobId, since: real,
                      claimed: bool, refreshed: bool)
    requires id in t && Enabled(t, w, now) && since <= now && (claimed ==> refreshed)
    requires KeptOrFresh(j, t[id], since, claimed, refreshed)
    ensures var claims := w.Claim? && w.id == id;
            var beats := w.Heartbeat? && w.id == id;
            id in Apply(t, w, base, now)
            && KeptOrFresh(j, Apply(t, w, base, now)[id], since, claimed || claims, refreshed || claims || beats)
  {}

  // ----- retry spacing -----

  /** The least time between claim k and claim k + 1. */
  function Gap(base: real, k: nat): real {
    if base * Pow2(k) < MAX_BACKOFF_SECONDS then base * Pow2(k) else MAX_BACKOFF_SECONDS
  }

  ghost function GapSum(base: real, from: nat, to: nat): real {
    if to <= from then 0.0 else GapSum(base, from, to - 1) + Gap(base, to - 1)
  }

  /** A pending retry waits out its gap, counted from the last claim. */
  ghost predicate SpacingOk(base: real, j: Job, now: real) {
    j.attempts > 0 && j.Open() ==>
      && j.claimedAt.Some? && j.claimedAt.value <= now
      && (j.status.Pending? ==>
            j.nextAttemptAt.Some? && j.nextAttemptAt.value >= j.claimedAt.value + Gap(base, j.attempts))
  }

  lemma {:induction false} ReachableSpacingOk(base: real, h: History, id: JobId)
    requires base >= 0.0 && Legal(base, h) && h != [] && id in Replay(base, h)
    ensures SpacingOk(base, Replay(base, h)[id], Last(h).now)
  {
    var t := Replay(base, Front(h));
    if id in t && |h| > 1 {
      ReachableSpacingOk(base, Front(h), id);
      if Last(h).write.Fail? && Last(h).write.id == id {
        BackoffCoversGap(base, t[id].attempts, Last(h).write.jitter);
      }
    }
  }

  /** No retry is ever due later than an hour from now, whatever the base and the jitter. */
  lemma {:induction false} RetryDueWithinHour(base: real, h: History, id: JobId)
    requires Legal(base, h) && h != [] && id in Replay(base, h) && Replay(base, h)[id].nextAttemptAt.Some?
    ensures Replay(base, h)[id].nextAttemptAt.value <= Last(h).now + MAX_BACKOFF_SECONDS
  {
    var t := Replay(base, Front(h));
    if id in t && t[id].nextAttemptAt.Some? {
      assert |h| > 1;
      RetryDueWithinHour(base, Front(h), id);
    }
  }

  lemma BackoffCoversGap(base: real, attempts: nat, jitter: real)
    requires base >= 0.0 && jitter >= 0.0
    ensures BackoffSeconds(base, attempts, jitter) >= Gap(base, attempts)
  {
    assert jitter * base >= 0.0;
  }

  /** An earlier claim lies at least the gaps in between before the time of the last claim. */
  lemma {:induction false} ClaimsAreSpaced(base: real, h: History, i: nat, id: JobId)
    requires base >= 0.0 && Legal(base, h) && ClaimsAt(h, i, id)
    ensures id in Replay(base, h) && Replay(base, h)[id].claimedAt.Some?
    ensures Replay(base, h)[id].claimedAt.value >=
            h[i].now + GapSum(base, AttemptsAfter(base, h, i + 1, id), Replay(base, h)[id].attempts)
  {
    LegalPrefix(base, h, i);
    if i == |h| - 1 {
      assert h[..i + 1] == h;
    } else {
      var f := Front(h);
      ClaimsAreSpaced(base, f, i, id);
      assert f[..i + 1] == h[..i + 1];
      if ClaimsAt(h, |h| - 1, id) {
        ReachableSpacingOk(base, f, id);
        assert f[..|f|] == f;
        RowsEvolve(base, f, i + 1, |f|, id);
      }
    }
  }

  /** Claim j of a job comes after claim i by at least min(B * 2^k, 3600) for every attempt k
      from i's to j's. */
  lemma RetrySpacing(base: real, h: History, i: nat, j: nat, id: JobId)
    requires base >= 0.0 && Legal(base, h) && i < j && ClaimsAt(h, i, id) && ClaimsAt(h, j, id)
    ensures h[j].now >= h[i].now +
            GapSum(base, AttemptsAfter(base, h, i + 1, id), AttemptsAfter(base, h, j + 1, id))
  {
    LegalPrefix(base, h, j + 1);
    ClaimsAreSpaced(base, h[..j + 1], i, id);
    assert h[..j + 1][..i + 1] == h[..i + 1];
    LegalPrefix(base, h, j);
  }

  /** The claim that follows on another of the same job waits at least min(B * 2^k, 3600), with
      k the attempts counted so far. */
  lemma NextClaimWaits(base: real, h: History, i: nat, j: nat, id: JobId)
    requires base >= 0.0 && Legal(base, h) && i < j && ClaimsAt(h, i, id) && ClaimsAt(h, j, id)
    requires AttemptsAfter(base, h, j + 1, id) == AttemptsAfter(base, h, i + 1, id) + 1
    ensures var wait := h[j].now - h[i].now;
            wait >= 3600.0 || wait >= base * Pow2(AttemptsAfter(base, h, i + 1, id))
  {
    var k := AttemptsAfter(base, h, i + 1, id);
    RetrySpacing(base, h, i, j, id);
    assert GapSum(base, k, k + 1) == GapSum(base, k, k) + Gap(base, k);
  }

  // ----- progress -----

  /** How many more times the status of a job can change. */
  ghost function Rank(j: Job): nat
    requires JobOk(j)
  {
    match j.status
    case Completed => 0
    case Failed => 1
    case Running => 3 + 2 * (AttemptLimit(j) - j.attempts)
    case Pending => 2 + 2 * (AttemptLimit(j) - j.attempts)
  }

  ghost predicate ChangesStatus(base: real, h: History, i: nat, id: JobId) {
    && i < |h| && id in Replay(base, h[..i]) && id in Replay(base, h[..i + 1])
    && Replay(base, h[..i])[id].status != Replay(base, h[..i + 1])[id].status
  }

  lemma RankAfter(t: Table, w: Write, base: real, now: real, id: JobId)
    requires TableOk(t) && TableOk(Apply(t, w, base, now)) && Enabled(t, w, now) && id in t
    ensures id in Apply(t, w, base, now) && JobOk(t[id]) && JobOk(Apply(t, w, base, now)[id])
    ensures var j, j' := t[id], Apply(t, w, base, now)[id];
            Rank(j') <= Rank(j) && (Rank(j') < Rank(j) <==> j'.status != j.status)
  {
    assert JobOk(t[id]) && JobOk(Apply(t, w, base, now)[id]);
  }

  lemma RankStep(base: real, h: History, i: nat, id: JobId)
    requires Legal(base, h) && i < |h| && id in Replay(base, h[..i])
    ensures TableOk(Replay(base, h[..i])) && TableOk(Replay(base, h[..i + 1])) && id in Replay(base, h[..i + 1])
    ensures Rank(Replay(base, h[..i + 1])[id]) <= Rank(Replay(base, h[..i])[id])
    ensures Rank(Replay(base, h[..i + 1])[id]) < Rank(Replay(base, h[..i])[id]) <==> ChangesStatus(base, h, i, id)
  {
    LegalPrefix(base, h, i);
    LegalPrefix(base, h, i + 1);
    ReachableTableOk(base, h[..i]);
    ReachableTableOk(base, h[..i + 1]);
    RankAfter(Replay(base, h[..i]), h[i].write, base, h[i].now, id);
  }

  ghost function StatusChanges(base: real, h: History, m: nat, n: nat, id: JobId): nat
    requires m <= n <= |h|
  {
    if m == n then 0 else StatusChanges(base, h, m, n - 1, id) + if ChangesStatus(base, h, n - 1, id) then 1 else 0
  }

  /** From any point on, the status of a job changes at most as often as its rank says. */
  lemma {:induction false} JobProgress(base: real, h: History, m: nat, n: nat, id: JobId)
    requires Legal(base, h) && m <= n <= |h| && id in Replay(base, h[..m])
    ensures id in Replay(base, h[..n]) && JobOk(Replay(base, h[..m])[id]) && JobOk(Replay(base, h[..n])[id])
    ensures StatusChanges(base, h, m, n, id) + Rank(Replay(base, h[..n])[id]) <= Rank(Replay(base, h[..m])[id])
    ensures StatusChanges(base, h, m, n, id) <= 2 * AttemptLimit(Replay(base, h[..m])[id]) + 2
  {
    if m == n {
      LegalPrefix(base, h, m);
      ReachableTableOk(base, h[..m]);
    } else {
      JobProgress(base, h, m, n - 1, id);
      RankStep(base, h, n - 1, id);
    }
  }

  ghost function RankOf(t: Table): JobId -> int {
    (id: JobId) => if id in t && JobOk(t[id]) then Rank(t[id]) else 0
  }

  ghost function TotalRank(t: Table): int {
    Sum(t.Keys, RankOf(t))
  }

  lemma {:induction false} TotalRankNonNegative(t: Table, ids: set<JobId>)
    ensures Sum(ids, RankOf(t)) >= 0
  {
    if ids != {} {
      var id :| id in ids;
      SumRemove(ids, id, RankOf(t));
      TotalRankNonNegative(t, ids - {id});
    }
  }

  ghost predicate ChangesSomeStatus(base: real, h: History, i: nat) {
    exists id :: ChangesStatus(base, h, i, id)
  }

  lemma TotalRankStep(base: real, h: History, i: nat)
    requires Legal(base, h) && i < |h| && !h[i].write.Enqueue?
    ensures TotalRank(Replay(base, h[..i + 1])) + (if ChangesSomeStatus(base, h, i) then 1 else 0)
            <= TotalRank(Replay(base, h[..i]))
  {
    LegalPrefix(base, h, i);
    var t, t' := Replay(base, h[..i]), Replay(base, h[..i + 1]);
    OneRowAtMost(t, h[i].write, base, h[i].now);
    if t' != t {
      var id := h[i].write.id;
      RankStep(base, h, i, id);
      TotalOfOneRow(t, t', id);
      assert forall other :: ChangesStatus(base, h, i, other) ==> other == id;
    }
  }

  /** Only an insert adds a row, and no write touches two. */
  lemma OneRowAtMost(t: Table, w: Write, base: real, now: real)
    requires !w.Enqueue?
    ensures var t' := Apply(t, w, base, now);
            t' == t || (!w.NoWrite? && w.id in t && t' == t[w.id := t'[w.id]])
  {}

  lemma TotalOfOneRow(t: Table, t': Table, id: JobId)
    requires id in t && id in t' && t' == t[id := t'[id]]
    ensures TotalRank(t') - TotalRank(t) == RankOf(t')(id) - RankOf(t)(id)
  {
    assert t'.Keys == t.Keys;
    SumRemove(t.Keys, id, RankOf(t));
    SumRemove(t.Keys, id, RankOf(t'));
    SumSame(t.Keys - {id}, RankOf(t), RankOf(t'));
  }

  ghost function ChangeCount(base: real, h: History, m: nat, n: nat): nat
    requires m <= n <= |h|
  {
    if m == n then 0 else ChangeCount(base, h, m, n - 1) + if ChangesSomeStatus(base, h, n - 1) then 1 else 0
  }

  /** Once nothing more is enqueued, all claims, fails and completions together make a
      bounded number of status changes. */
  lemma {:induction false} BoundedActivity(base: real, h: History, m: nat, n: nat)
    requires Legal(base, h) && m <= n <= |h|
    requires forall i :: m <= i < n ==> !h[i].write.Enqueue?
    ensures ChangeCount(base, h, m, n) + TotalRank(Replay(base, h[..n])) <= TotalRank(Replay(base, h[..m]))
    ensures ChangeCount(base, h, m, n) <= TotalRank(Replay(base, h[..m]))
  {
    TotalRankNonNegative(Replay(base, h[..n]), Replay(base, h[..n]).Keys);
    if m < n {
      BoundedActivity(base, h, m, n - 1);
      TotalRankStep(base, h, n - 1);
    }
  }
}
