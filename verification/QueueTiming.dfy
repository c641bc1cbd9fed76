/** The clock in a run: how long a lease protects its owner, and how long a job sent back rests. */
module QueueTiming {
  import opened Options
  import opened Jobs
  import opened JobQueue
  import opened QueueHistory

  /** A delay the retry schedule can produce. */
  ghost predicate IsBackoff(wait: Time) {
    exists attempt: int, u: real :: 0.0 <= u < 1.0 && wait == Backoff(attempt, u)
  }

  /** The clock never runs backwards. */
  ghost predicate ClockRuns(es: Run) {
    forall i, k :: 0 <= i <= k < |es| ==> es[i].now <= es[k].now
  }

  /** Every claim and renewal asks for the same lease. */
  predicate FixedLease(es: Run, lease: Time) {
    forall k :: 0 <= k < |es| && (es[k].Claimed? || es[k].Renewed?) ==> es[k].lease == lease
  }

  /** Failures and reaps wait as the schedule says. */
  ghost predicate ScheduledBackoff(es: Run) {
    forall k :: 0 <= k < |es| && (es[k].Failed? || es[k].Reaped?) ==> IsBackoff(es[k].backoff)
  }

  /** The owner claimed the job, or renewed its lease, with the k-th statement. */
  ghost predicate Extends(es: Run, k: nat, id: JobId)
    requires k < |es|
  {
    (es[k].Claimed? || es[k].Renewed?) && Hits(es, k, id)
  }

  /** The last time before statement k that the job's lease was granted or extended. */
  ghost predicate LastExtended(es: Run, m: nat, k: nat, id: JobId)
    requires k <= |es|
  {
    m < k && Extends(es, m, id) && forall i :: m < i < k ==> !Extends(es, i, id)
  }

  /** The row is owned by whoever ran statement m, until one lease after it. */
  ghost predicate LeasedFrom(row: Option<Job>, e: Event, lease: Time) {
    (e.Claimed? || e.Renewed?) && row.Some?
    && row.value.leaseExpiresAt == Some(e.now + lease) && row.value.leasedBy == Some(e.worker)
  }

  /** A row that runs expires exactly one lease after its owner last claimed or renewed it. */
  lemma {:induction false} LeaseRunsFromLastExtension(es: Run, k: nat, id: JobId, lease: Time)
    requires IsRun(es) && k <= |es| && FixedLease(es, lease)
    requires Row(es, k, id).Some? && Row(es, k, id).value.status == Running
    ensures exists m: nat :: LastExtended(es, m, k, id) && LeasedFrom(Row(es, k, id), es[m], lease)
  {
    hide At, Next, Touched, Valid;
    RowsStartEmpty(es, id);
    Evolve(es, k - 1, id);
    if Extends(es, k - 1, id) {
      if es[k - 1].Renewed? { RenewalIsOwners(es, k - 1, id); }
      assert LastExtended(es, k - 1, k, id) && LeasedFrom(Row(es, k, id), es[k - 1], lease);
    } else {
      if Hits(es, k - 1, id) { EndingFrees(es[k - 1], Row(es, k - 1, id).value); }
      LeaseRunsFromLastExtension(es, k - 1, id, lease);
      var m: nat :| LastExtended(es, m, k - 1, id) && LeasedFrom(Row(es, k - 1, id), es[m], lease);
      assert LastExtended(es, m, k, id);
    }
  }

  lemma RenewalIsOwners(es: Run, k: nat, id: JobId)
    requires k < |es| && es[k].Renewed? && Hits(es, k, id)
    ensures Row(es, k, id).Some? && Row(es, k, id).value.leasedBy == Some(es[k].worker)
  {
    hide At, Next;
  }

  lemma ReapedWasExpired(es: Run, k: nat, id: JobId)
    requires k < |es| && es[k].Reaped? && Hits(es, k, id)
    ensures Row(es, k, id).Some? && Expired(Row(es, k, id).value, es[k].now)
  {
    hide At, Next;
  }

  /** A job is reaped only when more than a full lease has passed since its owner last claimed it or
      renewed it. */
  lemma ReapedOnlyAfterFullLease(es: Run, k: nat, id: JobId, lease: Time)
    requires IsRun(es) && k < |es| && FixedLease(es, lease)
    requires es[k].Reaped? && Hits(es, k, id)
    ensures exists m: nat :: LastExtended(es, m, k, id) && es[k].now > es[m].now + lease
  {
    hide At, Next, Touched, Valid;
    ReapedWasExpired(es, k, id);
    LeaseRunsFromLastExtension(es, k, id, lease);
    var m: nat :| LastExtended(es, m, k, id) && LeasedFrom(Row(es, k, id), es[m], lease);
  }

  /** A reap leaves no expired, unlocked lease behind, and takes no lease still in force. */
  lemma ReapIsExact(s: State, locked: set<JobId>, backoff: Time, now: Time, id: JobId)
    requires Consistent(s) && id in s.jobs
    ensures var t := Next(s, Reaped(locked, backoff, now));
      id in t.jobs
      && (id !in locked ==> !Expired(t.jobs[id], now))
      && (t.jobs[id] != s.jobs[id] ==> Expired(s.jobs[id], now) && id !in locked)
  {
    var e := Reaped(locked, backoff, now);
    RowChange(s, e, id);
    if id in Touched(s, e) { EndingFrees(e, s.jobs[id]); }
  }

  // ----- resting -----

  /** The delay after which the k-th statement put the job back in the queue. */
  ghost predicate SentBackFor(es: Run, k: nat, id: JobId, wait: Time)
    requires k < |es|
  {
    EndsAt(es, k, id) && Row(es, k + 1, id).Some? && Row(es, k + 1, id).value.status == Pending
    && match es[k]
       case Failed(_, _, _, backoff, _, _) => wait == backoff
       case Reaped(_, backoff, _) => wait == backoff
       case Deferred(_, _, after, _, _) => wait == after
       case _ => false
  }

  lemma SentBackIsDueLater(es: Run, k: nat, id: JobId, wait: Time)
    requires IsRun(es) && k < |es| && SentBackFor(es, k, id, wait)
    ensures Row(es, k + 1, id).Some? && Row(es, k + 1, id).value.nextAttemptAt == es[k].now + wait
  {
    hide At, Next, Touched, Valid;
    Evolve(es, k, id);
  }

  lemma ClaimIsDue(es: Run, k: nat, id: JobId)
    requires IsRun(es) && k < |es| && ClaimsAt(es, k, id)
    ensures Row(es, k, id).Some? && Row(es, k, id).value.nextAttemptAt <= es[k].now
  {
    hide At, Next, Touched;
    assert Valid(At(es, k), es[k]);
  }

  /** A waiting row is not rewritten until it is claimed. */
  lemma {:induction false} WaitsUntouched(es: Run, k: nat, d: nat, id: JobId)
    requires IsRun(es) && k <= d <= |es|
    requires Row(es, k, id).Some? && Row(es, k, id).value.status == Pending
    requires forall m :: k <= m < d ==> !ClaimsAt(es, m, id)
    ensures Row(es, d, id) == Row(es, k, id)
  {
    hide At, Next, Touched, Valid;
    if k < d {
      WaitsUntouched(es, k, d - 1, id);
      Evolve(es, d - 1, id);
    }
  }

  /** A job sent back with a delay is never claimed again before the delay has passed. */
  lemma {:induction false} RestsForDelay(es: Run, k: nat, d: nat, id: JobId, wait: Time)
    requires IsRun(es) && ClockRuns(es) && k < d < |es|
    requires SentBackFor(es, k, id, wait) && ClaimsAt(es, d, id)
    ensures es[d].now >= es[k].now + wait
    decreases d
  {
    hide At, Next, Touched, Valid;
    if f :| k < f < d && ClaimsAt(es, f, id) {
      RestsForDelay(es, k, f, id, wait);
    } else {
      SentBackIsDueLater(es, k, id, wait);
      WaitsUntouched(es, k + 1, d, id);
      ClaimIsDue(es, d, id);
    }
  }

  /** After a failure or a reap, no worker claims the job again for at least a second and a half. */
  lemma RestsAfterFailureOrReap(es: Run, k: nat, d: nat, id: JobId)
    requires IsRun(es) && ClockRuns(es) && ScheduledBackoff(es) && k < d < |es|
    requires (es[k].Failed? || es[k].Reaped?) && Hits(es, k, id)
    requires ClaimsAt(es, d, id)
    ensures es[d].now >= es[k].now + 1_500_000_000
  {
    hide At, Next, Touched, Valid;
    Evolve(es, k, id);
    if Finished(Row(es, k + 1, id).value) {
      FinishedForever(es, k + 1, d, id);
      Evolve(es, d, id);
      assert false;
    }
    EndingFrees(es[k], Row(es, k, id).value);
    assert SentBackFor(es, k, id, es[k].backoff);
    RestsForDelay(es, k, d, id, es[k].backoff);
    var attempt: int, u: real :| 0.0 <= u < 1.0 && es[k].backoff == Backoff(attempt, u);
  }
}
