/** What each statement of a legal history does, column by column, and what follows for rows from
    the statements that wrote them. */
module Statements {
  import opened Wrappers
  import opened Jobs
  import opened Histories

  ghost function Before(base: real, h: History, i: nat): Table
    requires i <= |h|
  {
    Replay(base, h[..i])
  }

  /** Only this row differs. */
  ghost predicate OnlyRow(t: Table, t': Table, id: JobId) {
    id in t' && t'.Keys == t.Keys + {id} && forall other :: other in t && other != id ==> t'[other] == t[other]
  }

  lemma EnqueueWrites(base: real, h: History, i: nat)
    requires Legal(base, h) && i < |h| && h[i].write.Enqueue?
    ensures var w, t, t' := h[i].write, Before(base, h, i), Before(base, h, i + 1);
      && w.id !in t && OnlyRow(t, t', w.id)
      && var j := t'[w.id];
      && j.jobType == w.jobType && j.payload == w.payload && j.dedupKey == w.dedupKey
      && j.priority == w.priority && j.maxAttempts == w.maxAttempts && j.createdAt == h[i].now
      && j.status == Pending && j.attempts == 0
      && j.claimedBy == None && j.claimedAt == None && j.startedAt == None && j.finishedAt == None
      && j.heartbeatAt == None && j.nextAttemptAt == None && j.lastError == None && j.result == None
  {
    LegalPrefix(base, h, i);
  }

  /** A pending row of the types whose time has come. */
  ghost predicate Due(j: Job, types: set<string>, now: real) {
    j.status == Pending && j.jobType in types && (j.nextAttemptAt == None || j.nextAttemptAt.value <= now)
  }

  /** A claim takes a due row that no other statement holds; no other such row has a smaller
      priority, or the same priority and an earlier creation time. */
  lemma ClaimWrites(base: real, h: History, i: nat)
    requires Legal(base, h) && i < |h| && h[i].write.Claim?
    ensures var w, t, t', now := h[i].write, Before(base, h, i), Before(base, h, i + 1), h[i].now;
      && w.id in t && w.id !in w.locked && Due(t[w.id], w.types, now) && OnlyRow(t, t', w.id)
      && (forall other :: other in t && other !in w.locked && Due(t[other], w.types, now) ==>
            !(t[other].priority < t[w.id].priority)
            && !(t[other].priority == t[w.id].priority && t[other].createdAt < t[w.id].createdAt))
      && t'[w.id] == t[w.id].(status := Running, claimedBy := Some(w.worker), claimedAt := Some(now),
                              startedAt := Some(now), attempts := t[w.id].attempts + 1, heartbeatAt := Some(now))
  {
    LegalPrefix(base, h, i);
  }

  lemma CompleteWrites(base: real, h: History, i: nat)
    requires Legal(base, h) && i < |h| && h[i].write.Complete?
    ensures var w, t, t' := h[i].write, Before(base, h, i), Before(base, h, i + 1);
      && (w.id !in t ==> t' == t)
      && (w.id in t ==>
            OnlyRow(t, t', w.id)
            && t'[w.id] == t[w.id].(status := Completed, result := Some(w.result), finishedAt := Some(h[i].now)))
  {
    LegalPrefix(base, h, i);
  }

  lemma HeartbeatWrites(base: real, h: History, i: nat)
    requires Legal(base, h) && i < |h| && h[i].write.Heartbeat?
    ensures var w, t, t' := h[i].write, Before(base, h, i), Before(base, h, i + 1);
      && (!(w.id in t && t[w.id].status == Running) ==> t' == t)
      && (w.id in t && t[w.id].status == Running ==>
            OnlyRow(t, t', w.id) && t'[w.id] == t[w.id].(heartbeatAt := Some(h[i].now)))
  {
    LegalPrefix(base, h, i);
  }

  /** The smaller of the backoff and an hour. */
  ghost predicate IsDelay(delay: real, base: real, attempts: nat, jitter: real) {
    var full := base * Pow2(attempts) + jitter * base;
    delay <= 3600.0 && delay <= full && (delay == 3600.0 || delay == full)
  }

  /** The row after a fail that was sent as retryable or not. */
  ghost predicate Failing(j: Job, j': Job, error: string, retryable: bool, base: real, jitter: real, now: real) {
    if j.status != Running then j' == j
    else if !retryable || j.attempts >= j.maxAttempts then
      j' == j.(status := Failed, lastError := Some(error), finishedAt := Some(now))
    else if !BackoffDefined(base, j.attempts, jitter) then j' == j
    else
      exists delay :: IsDelay(delay, base, j.attempts, jitter)
        && j' == j.(status := Pending, lastError := Some(error), nextAttemptAt := Some(now + delay))
  }

  lemma FailingOutcome(j: Job, error: string, retryable: bool, base: real, jitter: real, now: real)
    ensures Failing(j, FailOutcome(j, error, retryable, base, jitter, now), error, retryable, base, jitter, now)
  {
    assert IsDelay(BackoffSeconds(base, j.attempts, jitter), base, j.attempts, jitter);
  }

  /** A running job that fails goes back to pending exactly when the failure was sent as
      retryable and an attempt is left; otherwise it is failed for good. */
  lemma FailWrites(base: real, h: History, i: nat)
    requires Legal(base, h) && i < |h| && h[i].write.Fail?
    ensures var w, t, t' := h[i].write, Before(base, h, i), Before(base, h, i + 1);
      && (w.id !in t ==> t' == t)
      && (w.id in t ==>
            OnlyRow(t, t', w.id) && Failing(t[w.id], t'[w.id], w.error, w.retryable, base, w.jitter, h[i].now))
  {
    LegalPrefix(base, h, i);
    var w, t := h[i].write, Before(base, h, i);
    if w.id in t {
      FailingOutcome(t[w.id], w.error, w.retryable, base, w.jitter, h[i].now);
    }
  }

  /** Powers of two, told by their product law and one value. */
  lemma {:induction false} PowersOfTwo(m: nat, n: nat)
    ensures Pow2(m + n) == Pow2(m) * Pow2(n)
    ensures Pow2(1) == 2.0
  {
    if m > 0 {
      PowersOfTwo(m - 1, n);
    }
  }

  // ----- rows and the enqueues that made them -----

  /** A row is always that of the one enqueue of its id. */
  lemma RowsKeepTheirEnqueue(base: real, h: History, i: nat, n: nat)
    requires Legal(base, h) && i < n <= |h| && h[i].write.Enqueue?
    ensures var w, t := h[i].write, Before(base, h, n);
      && w.id in t
      && t[w.id].jobType == w.jobType && t[w.id].payload == w.payload && t[w.id].dedupKey == w.dedupKey
      && t[w.id].priority == w.priority && t[w.id].maxAttempts == w.maxAttempts && t[w.id].createdAt == h[i].now
  {
    EnqueueWrites(base, h, i);
    RowsEvolve(base, h, i + 1, n, h[i].write.id);
  }

  lemma {:induction false} EveryRowWasEnqueued(base: real, h: History, n: nat, id: JobId) returns (i: nat)
    requires Legal(base, h) && n <= |h| && id in Before(base, h, n)
    ensures i < n && h[i].write.Enqueue? && h[i].write.id == id
    decreases n
  {
    LegalPrefix(base, h, n - 1);
    if id in Before(base, h, n - 1) {
      i := EveryRowWasEnqueued(base, h, n - 1, id);
    } else {
      i := n - 1;
    }
  }

  /** An earlier enqueue of the same type with the same key, whose job has not ended. */
  ghost predicate OpenTwin(base: real, h: History, i: nat, n: nat, jobType: string, key: Option<string>)
    requires i < n <= |h|
  {
    && h[i].write.Enqueue? && h[i].write.jobType == jobType && h[i].write.dedupKey == key
    && h[i].write.id in Before(base, h, n)
    && (Before(base, h, n)[h[i].write.id].status == Pending || Before(base, h, n)[h[i].write.id].status == Running)
  }

  /** An enqueue is accepted exactly when its id is new and it has no key, or no earlier enqueue
      of the same type and key is still open. */
  lemma EnqueueAcceptedIff(base: real, h: History, n: nat, w: Write, now: real)
    requires Legal(base, h) && n <= |h| && w.Enqueue?
    ensures Enabled(Before(base, h, n), w, now) <==>
      && w.id !in Before(base, h, n)
      && (w.dedupKey == None || forall i :: 0 <= i < n ==> !OpenTwin(base, h, i, n, w.jobType, w.dedupKey))
  {
    var t := Before(base, h, n);
    if w.dedupKey != None {
      forall i | 0 <= i < n && OpenTwin(base, h, i, n, w.jobType, w.dedupKey)
        ensures Conflicts(t, w.jobType, w.dedupKey)
      {
        RowsKeepTheirEnqueue(base, h, i, n);
        assert t[h[i].write.id].Open();
      }
      if Conflicts(t, w.jobType, w.dedupKey) {
        var id :| id in t && t[id].Open() && t[id].jobType == w.jobType && t[id].dedupKey == w.dedupKey;
        var i := EveryRowWasEnqueued(base, h, n, id);
        RowsKeepTheirEnqueue(base, h, i, n);
        assert OpenTwin(base, h, i, n, w.jobType, w.dedupKey);
      }
    }
  }

  /** When a second enqueue of one type and key is accepted, the job of the first has ended. */
  lemma DuplicatesWaitForTheEnd(base: real, h: History, i: nat, j: nat)
    requires Legal(base, h) && i < j < |h| && h[i].write.Enqueue? && h[j].write.Enqueue?
    requires h[i].write.jobType == h[j].write.jobType
    requires h[i].write.dedupKey == h[j].write.dedupKey && h[i].write.dedupKey != None
    ensures h[i].write.id in Before(base, h, j)
    ensures var s := Before(base, h, j)[h[i].write.id].status; s == Completed || s == Failed
  {
    LegalPrefix(base, h, j);
    EnqueueAcceptedIff(base, h, j, h[j].write, h[j].now);
    RowsKeepTheirEnqueue(base, h, i, j);
    assert !OpenTwin(base, h, i, j, h[j].write.jobType, h[j].write.dedupKey);
  }

  /** First come, first served: a claim passes over a due job that no statement holds only for
      one of smaller priority number, or one enqueued no later. */
  lemma EarlierJobFirst(base: real, h: History, i: nat, j: nat, n: nat)
    requires Legal(base, h) && i < n < |h| && j < n && h[i].write.Enqueue? && h[j].write.Enqueue?
    requires h[n].write.Claim? && h[n].write.id == h[j].write.id && h[i].write.id !in h[n].write.locked
    requires h[i].write.id in Before(base, h, n) && Due(Before(base, h, n)[h[i].write.id], h[n].write.types, h[n].now)
    ensures h[j].write.priority <= h[i].write.priority
    ensures h[j].write.priority == h[i].write.priority ==> h[j].now <= h[i].now
  {
    RowsKeepTheirEnqueue(base, h, i, n);
    RowsKeepTheirEnqueue(base, h, j, n);
    ClaimWrites(base, h, n);
  }
}
