/** Short runs at the edges of what the queue promises: a job claimed beyond its limit, a report that
    lands on a later claim, and a lease on work nobody is doing. */
module QueueExamples {
  import opened Options
  import opened Jobs
  import opened JobQueue
  import opened QueueHistory
  import opened Runtime
  import QueueTiming

  const LEASE: Time := 60 * SECOND

  /** A job that may be tried so many times. */
  function Tried(attempts: int): Enqueue { NewLibraryJob(BuildClusters, "L").(maxAttempts := attempts) }

  // ----- one row -----

  /** The table holds the one job, and the workers are registered. */
  ghost predicate Holds(s: State, j: Job, workers: set<WorkerId>) {
    s.jobs == map[0 := j] && s.nextId == 1 && workers <= s.workers.Keys
  }

  lemma Enqueueing(s: State, e: Enqueue, workers: set<WorkerId>)
    requires s.jobs == map[] && s.nextId == 0 && workers <= s.workers.Keys
    ensures Holds(Next(s, Enqueued([e], 0)), NewJob(e, 0), workers)
  {
    assert [e][..0] == [] && EnqueueAll(s, [], 0) == s;
    assert EnqueueAll(s, [e], 0) == EnqueueOne(s, e, 0);
  }

  lemma Claiming(s: State, j: Job, workers: set<WorkerId>, w: WorkerId, now: Time)
    requires Holds(s, j, workers) && w in workers && j.status == Pending && j.nextAttemptAt <= now
    ensures Valid(s, Claimed(w, 1, LEASE, {}, {0}, now))
    ensures Holds(Next(s, Claimed(w, 1, LEASE, {}, {0}, now)), Leased(j, w, LEASE, now), workers)
  {
    assert Claimable(s, {}, now) == {0};
    assert IsClaimChoice(s, 1, {}, now, {0});
  }

  lemma Releasing(s: State, j: Job, workers: set<WorkerId>, w: WorkerId)
    requires Holds(s, j, workers) && j.status == Running && j.leasedBy == Some(w)
    ensures Holds(Next(s, Released(w, 0)), GivenUp(j, 0), workers) && 0 in Touched(s, Released(w, 0))
  {}

  lemma Reaping(s: State, j: Job, workers: set<WorkerId>, backoff: Time, now: Time)
    requires Holds(s, j, workers) && Expired(j, now)
    ensures Holds(Next(s, Reaped({}, backoff, now)), Rewritten(Reaped({}, backoff, now), j), workers)
    ensures 0 in Touched(s, Reaped({}, backoff, now))
  {}

  // ----- a job claimed beyond its limit -----

  /** A worker claims a job that may be tried once and shuts down; another one claims it again. */
  const RELEASED: Run := [
    Registered("V", 0),
    Registered("W", 0),
    Enqueued([Tried(1)], 0),
    Claimed("W", 1, LEASE, {}, {0}, 0),
    Released("W", 0),
    Claimed("V", 1, LEASE, {}, {0}, 0)]

  function Once(): Job { NewJob(Tried(1), 0) }

  lemma ReleasedStates()
    ensures Holds(At(RELEASED, 3), Once(), {"V", "W"})
    ensures Holds(At(RELEASED, 4), Leased(Once(), "W", LEASE, 0), {"V", "W"})
    ensures Holds(At(RELEASED, 5), GivenUp(Leased(Once(), "W", LEASE, 0), 0), {"V", "W"})
    ensures Holds(At(RELEASED, 6), Leased(GivenUp(Leased(Once(), "W", LEASE, 0), 0), "V", LEASE, 0), {"V", "W"})
    ensures Valid(At(RELEASED, 3), RELEASED[3]) && Valid(At(RELEASED, 5), RELEASED[5])
    ensures 0 in Touched(At(RELEASED, 4), RELEASED[4])
  {
    var all := {"V", "W"};
    TwoRegistered(RELEASED);
    Enqueueing(At(RELEASED, 2), Tried(1), all);
    hide Holds, Next, Valid, Touched;
    assert At(RELEASED, 3) == Next(At(RELEASED, 2), RELEASED[2]);
    Claiming(At(RELEASED, 3), Once(), all, "W", 0);
    assert At(RELEASED, 4) == Next(At(RELEASED, 3), RELEASED[3]);
    Releasing(At(RELEASED, 4), Leased(Once(), "W", LEASE, 0), all, "W");
    assert At(RELEASED, 5) == Next(At(RELEASED, 4), RELEASED[4]);
    Claiming(At(RELEASED, 5), GivenUp(Leased(Once(), "W", LEASE, 0), 0), all, "V", 0);
    assert At(RELEASED, 6) == Next(At(RELEASED, 5), RELEASED[5]);
  }

  lemma TwoRegistered(es: Run)
    requires |es| >= 2 && es[0] == Registered("V", 0) && es[1] == Registered("W", 0)
    ensures At(es, 2).jobs == map[] && At(es, 2).nextId == 0 && {"V", "W"} <= At(es, 2).workers.Keys
  {
    assert At(es, 1) == Next(EMPTY, es[0]);
    assert At(es, 2) == Next(At(es, 1), es[1]);
  }

  lemma ReleasedIsRun()
    ensures IsRun(RELEASED)
  {
    ReleasedStates();
    hide At, Next;
    forall k | 0 <= k < |RELEASED| ensures Valid(At(RELEASED, k), RELEASED[k]) {
      if k == 3 || k == 5 {} else { assert !RELEASED[k].Claimed?; }
    }
  }

  /** attempt_count goes past max_attempts: a release does not look at the attempts. */
  lemma AttemptsMayExceedLimit()
    ensures IsRun(RELEASED) && ClaimsAt(RELEASED, 5, 0) && SentBackSpent(RELEASED, 5, 0)
    ensures Row(RELEASED, 6, 0).Some? && Row(RELEASED, 6, 0).value.attemptCount == 2
    ensures Row(RELEASED, 6, 0).value.maxAttempts == 1
  {
    ReleasedStates();
    ReleasedIsRun();
    hide At, Next, Touched, Valid;
    ClaimExceedsLimitIff(RELEASED, 5, 0);
  }

  // ----- a report that lands on a later claim -----

  /** The lease lapses while the job runs; the same worker claims the job again before the first
      execution reports. */
  const REAPED: Run := [
    Registered("V", 0),
    Registered("W", 0),
    Enqueued([Tried(2)], 0),
    Claimed("W", 1, LEASE, {}, {0}, 0),
    Reaped({}, 2 * SECOND, 61 * SECOND),
    Claimed("W", 1, LEASE, {}, {0}, 63 * SECOND),
    Completed(0, "W", 64 * SECOND)]

  function Twice(): Job { NewJob(Tried(2), 0) }

  function SentBackOnce(): Job { Rewritten(REAPED[4], Leased(Twice(), "W", LEASE, 0)) }

  lemma ReapedRows()
    ensures Twice().status == Pending && Twice().nextAttemptAt <= 0
    ensures Expired(Leased(Twice(), "W", LEASE, 0), 61 * SECOND)
    ensures SentBackOnce().status == Pending && SentBackOnce().nextAttemptAt <= 63 * SECOND
    ensures var j := Leased(SentBackOnce(), "W", LEASE, 63 * SECOND); j.status == Running && j.leasedBy == Some("W")
  {}

  lemma ReapedStates()
    ensures Holds(At(REAPED, 3), Twice(), {"V", "W"})
    ensures Holds(At(REAPED, 4), Leased(Twice(), "W", LEASE, 0), {"V", "W"})
    ensures Holds(At(REAPED, 5), SentBackOnce(), {"V", "W"})
    ensures Holds(At(REAPED, 6), Leased(SentBackOnce(), "W", LEASE, 63 * SECOND), {"V", "W"})
    ensures Valid(At(REAPED, 3), REAPED[3]) && Valid(At(REAPED, 5), REAPED[5])
    ensures 0 in Touched(At(REAPED, 4), REAPED[4])
  {
    var all := {"V", "W"};
    TwoRegistered(REAPED);
    Enqueueing(At(REAPED, 2), Tried(2), all);
    ReapedRows();
    hide Holds, Next, Valid, Touched, Leased, NewJob, Rewritten, Expired;
    assert At(REAPED, 3) == Next(At(REAPED, 2), REAPED[2]);
    Claiming(At(REAPED, 3), Twice(), all, "W", 0);
    assert At(REAPED, 4) == Next(At(REAPED, 3), REAPED[3]);
    Reaping(At(REAPED, 4), Leased(Twice(), "W", LEASE, 0), all, 2 * SECOND, 61 * SECOND);
    assert At(REAPED, 5) == Next(At(REAPED, 4), REAPED[4]);
    Claiming(At(REAPED, 5), SentBackOnce(), all, "W", 63 * SECOND);
    assert At(REAPED, 6) == Next(At(REAPED, 5), REAPED[5]);
  }

  lemma ReapedIsRun()
    ensures IsRun(REAPED)
  {
    ReapedStates();
    hide At, Next;
    forall k | 0 <= k < |REAPED| ensures Valid(At(REAPED, k), REAPED[k]) {
      if k == 3 || k == 5 {} else { assert !REAPED[k].Claimed?; }
    }
  }

  /** The clock never runs backwards, the lease is the usual one and the wait one the schedule gives. */
  lemma ReapedOnSchedule()
    ensures QueueTiming.ClockRuns(REAPED) && QueueTiming.FixedLease(REAPED, LEASE) && QueueTiming.ScheduledBackoff(REAPED)
  {
    hide QueueTiming.IsBackoff;
    TwoSecondsScheduled();
  }

  lemma CompletedHits(s: State, j: Job, workers: set<WorkerId>, w: WorkerId, now: Time)
    requires Holds(s, j, workers) && j.status == Running && j.leasedBy == Some(w)
    ensures 0 in Touched(s, Completed(0, w, now))
  {}

  /** The report of the first execution, whose claim the reap ended, lands on the second claim. */
  lemma StaleReportMayLand()
    ensures IsRun(REAPED) && IsReport(REAPED[6], 0, "W")
    ensures QueueTiming.ClockRuns(REAPED) && QueueTiming.FixedLease(REAPED, LEASE) && QueueTiming.ScheduledBackoff(REAPED)
    ensures ClaimsAt(REAPED, 3, 0) && !IsOpenSince(REAPED, 3, 6, 0) && Hits(REAPED, 6, 0)
  {
    ReapedStates();
    ReapedIsRun();
    ReapedOnSchedule();
    ReapedRows();
    CompletedHits(At(REAPED, 6), Leased(SentBackOnce(), "W", LEASE, 63 * SECOND), {"V", "W"}, "W", 64 * SECOND);
    hide At, Next, Touched, Holds, Valid, Leased, Rewritten, IsRun, QueueTiming.ClockRuns, QueueTiming.FixedLease, QueueTiming.ScheduledBackoff;
    assert ClaimsAt(REAPED, 5, 0);
  }

  lemma TwoSecondsScheduled()
    ensures QueueTiming.IsBackoff(2 * SECOND)
  {
    assert Pow2(0) == 1;
    assert Backoff(1, 0.5) == 2 * SECOND;
  }

  // ----- an idle lease -----

  const IDLES: seq<Step> := [
    ReadSlots,
    Claim(Claimed("W", 1, LEASE, {}, {0}, 0)),
    Dispatch(0),
    EndUnreported(0)]

  ghost function Ready(): Process { Process(At(RELEASED, 3), 0, multiset{}, multiset{}) }

  lemma Extends(p: Process, steps: seq<Step>, st: Step)
    requires Execution(p, "W", 1, steps) && Enabled(Reached(p, 1, steps), "W", st)
    ensures Execution(p, "W", 1, steps + [st])
    ensures Reached(p, 1, steps + [st]) == After(Reached(p, 1, steps), 1, st)
  {
    hide Enabled, After;
    var longer := steps + [st];
    assert longer[..|steps|] == steps;
    forall k | 0 <= k < |longer| ensures Enabled(Reached(p, 1, longer[..k]), "W", longer[k]) {
      if k < |steps| { assert longer[..k] == steps[..k]; }
    }
  }

  lemma ReadyIsStarted()
    ensures Started(Ready(), "W") && Holds(Ready().queue, Once(), {"V", "W"})
    ensures Valid(Ready().queue, IDLES[1].e)
    ensures Holds(Next(Ready().queue, IDLES[1].e), Leased(Once(), "W", LEASE, 0), {"V", "W"})
  {
    ReleasedStates();
    ReleasedIsRun();
    RunConsistent(RELEASED, 3);
    Claiming(At(RELEASED, 3), Once(), {"V", "W"}, "W", 0);
    hide At, Next, Valid, Consistent;
  }

  /** The store fails when the outcome is reported: the goroutine is gone and the lease is not. */
  lemma LeaseMayIdle()
    ensures Started(Ready(), "W") && Execution(Ready(), "W", 1, IDLES)
    ensures IdleLease(Reached(Ready(), 1, IDLES), "W", 0)
  {
    ReadyIsStarted();
    hide At, Next, Valid, Started, Execution, Reached;
    var p := Ready();
    NothingDone(p);
    Extends(p, [], IDLES[0]);
    Extends(p, [] + [IDLES[0]], IDLES[1]);
    Extends(p, [] + [IDLES[0]] + [IDLES[1]], IDLES[2]);
    Extends(p, [] + [IDLES[0]] + [IDLES[1]] + [IDLES[2]], IDLES[3]);
    assert IDLES == [] + [IDLES[0]] + [IDLES[1]] + [IDLES[2]] + [IDLES[3]];
  }

  lemma NothingDone(p: Process)
    ensures Execution(p, "W", 1, []) && Reached(p, 1, []) == p
  {}
}
