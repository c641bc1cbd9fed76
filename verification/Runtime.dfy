/** One worker process as a client of the queue (internal/worker/worker.go): the claim loop with its
    bounded slots, the goroutines it dispatches, and everything the rest of the system does between
    its steps. Every interleaving of finishing jobs, other workers, reapers and shutdown is a list of
    `Step`s. */
module Runtime {
  import opened Options
  import opened Jobs
  import opened JobQueue
  import opened QueueHistory

  /** `free` is what the claim loop read from freeSlots and has not yet spent; `waiting` are claimed
      rows not yet handed to a goroutine; `executing` are the goroutines, one entry each. */
  datatype Process = Process(queue: State, free: nat, waiting: multiset<JobId>, executing: multiset<JobId>)

  datatype Step =
    | ReadSlots
    | Claim(e: Event)                        // ClaimJobs returned its rows
    | ClaimLost(e: Event)                    // ClaimJobs committed but returned an error
    | Dispatch(id: JobId)                    // addInFlight(1), go execute
    | EndReported(id: JobId, report: Event)  // complete, fail or defer reached the store
    | EndUnreported(id: JobId)               // the store failed, or shutdown interrupted the handler
    | Elsewhere(e: Event)                    // renewals, releases, reaps and other workers

  function FreeSlots(p: Process, concurrency: nat): nat {
    if concurrency < |p.executing| then 0 else concurrency - |p.executing|
  }

  ghost predicate Enabled(p: Process, w: WorkerId, st: Step) {
    match st
    case ReadSlots => p.waiting == multiset{} && p.free == 0
    case Claim(e) => e.Claimed? && e.worker == w && e.limit == p.free && p.free > 0 && p.waiting == multiset{} && Valid(p.queue, e)
    case ClaimLost(e) => e.Claimed? && e.worker == w && e.limit == p.free && p.free > 0 && p.waiting == multiset{} && Valid(p.queue, e)
    case Dispatch(id) => id in p.waiting
    case EndReported(id, report) => id in p.executing && IsReport(report, id, w)
    case EndUnreported(id) => id in p.executing
    case Elsewhere(e) => Valid(p.queue, e) && !(e.Claimed? && e.worker == w)
  }

  function After(p: Process, concurrency: nat, st: Step): Process {
    match st
    case ReadSlots => p.(free := FreeSlots(p, concurrency))
    case Claim(e) =>
      p.(queue := Next(p.queue, e), free := 0,
         waiting := if e.Claimed? then multiset(e.picked) else multiset{})
    case ClaimLost(e) => p.(queue := Next(p.queue, e), free := 0)
    case Dispatch(id) => p.(waiting := p.waiting - multiset{id}, executing := p.executing + multiset{id})
    case EndReported(id, report) => p.(queue := Next(p.queue, report), executing := p.executing - multiset{id})
    case EndUnreported(id) => p.(executing := p.executing - multiset{id})
    case Elsewhere(e) => p.(queue := Next(p.queue, e))
  }

  ghost function Reached(p: Process, concurrency: nat, steps: seq<Step>): Process {
    if steps == [] then p
    else After(Reached(p, concurrency, steps[..|steps| - 1]), concurrency, steps[|steps| - 1])
  }

  ghost predicate Execution(p: Process, w: WorkerId, concurrency: nat, steps: seq<Step>) {
    forall k :: 0 <= k < |steps| ==> Enabled(Reached(p, concurrency, steps[..k]), w, steps[k])
  }

  /** A worker that has just started. */
  ghost predicate Started(p: Process, w: WorkerId) {
    Consistent(p.queue) && p.free == 0 && p.waiting == multiset{} && p.executing == multiset{}
    && forall id :: !HeldBy(p.queue, id, w)
  }

  // ----- bounded concurrency -----

  ghost predicate Bounded(p: Process, concurrency: nat) {
    p.free + |p.waiting| + |p.executing| <= concurrency
  }

  lemma StepStaysBounded(p: Process, w: WorkerId, concurrency: nat, st: Step)
    requires Bounded(p, concurrency) && Enabled(p, w, st)
    ensures Bounded(After(p, concurrency, st), concurrency)
  {
    match st {
      case Claim(e) =>
        assert |e.picked| <= p.free;
        assert |multiset(e.picked)| == |e.picked|;
      case Dispatch(id) => assert p.waiting == p.waiting - multiset{id} + multiset{id};
      case EndReported(id, _) => assert p.executing == p.executing - multiset{id} + multiset{id};
      case EndUnreported(id) => assert p.executing == p.executing - multiset{id} + multiset{id};
      case _ =>
    }
  }

  /** Under every interleaving, claimed plus running never exceeds the configured concurrency. */
  lemma {:induction false} NeverOverCommitted(p: Process, w: WorkerId, concurrency: nat, steps: seq<Step>)
    requires Started(p, w) && Execution(p, w, concurrency, steps)
    ensures Bounded(Reached(p, concurrency, steps), concurrency)
  {
    hide Enabled, After;
    if steps != [] {
      var init := steps[..|steps| - 1];
      PrefixExecutes(p, w, concurrency, steps, |init|);
      NeverOverCommitted(p, w, concurrency, init);
      assert Enabled(Reached(p, concurrency, init), w, steps[|init|]);
      StepStaysBounded(Reached(p, concurrency, init), w, concurrency, steps[|init|]);
    }
  }

  /** A claim is made only with slots free, for at most as many jobs, and once it is answered, or lost, the
      slots are counted again before the next. */
  lemma ClaimFitsSlots(p: Process, w: WorkerId, concurrency: nat, st: Step, next: Step)
    requires Enabled(p, w, st) && (st.Claim? || st.ClaimLost?) && Bounded(p, concurrency)
    ensures 0 < p.free <= concurrency - |p.executing| && |st.e.picked| <= p.free
    ensures st.e.limit == p.free && st.e.worker == w
    ensures Enabled(After(p, concurrency, st), w, next) ==> !next.Claim? && !next.ClaimLost?
    ensures After(p, concurrency, st).queue == Next(p.queue, st.e)
    ensures Enabled(p, w, Claim(st.e)) && Enabled(p, w, ClaimLost(st.e))
  {
    assert |p.waiting| == 0;
  }

  /** Once everything claimed has been handed over, counting finds exactly the slots not running a job. */
  lemma SlotsAreTheRest(p: Process, w: WorkerId, concurrency: nat)
    requires Enabled(p, w, ReadSlots) && Bounded(p, concurrency)
    ensures var q := After(p, concurrency, ReadSlots); q.free + |q.executing| == concurrency && q.queue == p.queue
  {}

  lemma PrefixExecutes(p: Process, w: WorkerId, concurrency: nat, steps: seq<Step>, n: nat)
    requires Execution(p, w, concurrency, steps) && n <= |steps|
    ensures Execution(p, w, concurrency, steps[..n])
  {
    hide Enabled, After, Reached;
    forall k | 0 <= k < n ensures Enabled(Reached(p, concurrency, steps[..n][..k]), w, steps[..n][k]) {
      assert steps[..n][..k] == steps[..k];
    }
  }

  // ----- no lease on work it is not running -----

  /** A lease the worker holds on a job none of its goroutines is running or about to run. */
  ghost predicate IdleLease(p: Process, w: WorkerId, id: JobId) {
    HeldBy(p.queue, id, w) && id !in p.waiting && id !in p.executing
  }

  /** The step is one of the two that can strand a lease. */
  ghost predicate Strands(p: Process, w: WorkerId, st: Step, id: JobId) {
    || (st.EndUnreported? && st.id == id && HeldBy(p.queue, id, w) && p.executing[id] == 1 && id !in p.waiting)
    || (st.ClaimLost? && st.e.Claimed? && id in st.e.picked && id !in p.executing)
  }

  lemma HeldAfter(s: State, e: Event, w: WorkerId, id: JobId)
    requires Consistent(s) && Valid(s, e)
    ensures HeldBy(Next(s, e), id, w) ==>
      HeldBy(s, id, w) || (e.Claimed? && e.worker == w && id in e.picked)
    ensures IsReport(e, id, w) ==> !HeldBy(Next(s, e), id, w)
    ensures e.Claimed? && e.worker == w && id in e.picked ==> HeldBy(Next(s, e), id, w)
  {
    if id in s.jobs {
      assert RowOk(id, s.jobs[id], s);
      RowChange(s, e, id);
      if id in Touched(s, e) {
        TouchedIsLive(s, e, id);
        if CanEnd(e) { EndingFrees(e, s.jobs[id]); }
      }
    } else if id in Next(s, e).jobs {
      OnlyEnqueueAdds(s, e, id);
      NewRowFresh(s, e.batch, e.now, id);
    }
  }

  /** From a state with no idle lease on a job, a step leaves one exactly when a goroutine ends
      without its outcome reaching the store, or a committed claim is lost on the way back. */
  lemma IdleLeaseAppearsIff(p: Process, w: WorkerId, concurrency: nat, st: Step, id: JobId)
    requires Consistent(p.queue) && Enabled(p, w, st) && !IdleLease(p, w, id)
    ensures IdleLease(After(p, concurrency, st), w, id) <==> Strands(p, w, st, id)
  {
    hide Next, Touched, Valid, Rewritten;
    match st {
      case Claim(e) => HeldAfter(p.queue, e, w, id);
      case ClaimLost(e) => HeldAfter(p.queue, e, w, id);
      case EndReported(_, report) =>
        ReportIsValid(p.queue, report);
        HeldAfter(p.queue, report, w, id);
      case Elsewhere(e) => HeldAfter(p.queue, e, w, id);
      case _ =>
    }
  }

  lemma ReportIsValid(s: State, e: Event)
    requires e.Completed? || e.Failed? || e.Deferred?
    ensures Valid(s, e)
  {}

  lemma StepKeepsQueue(p: Process, w: WorkerId, concurrency: nat, st: Step)
    requires Consistent(p.queue) && Enabled(p, w, st)
    ensures Consistent(After(p, concurrency, st).queue)
  {
    hide Next, Touched, Consistent, Valid;
    match st {
      case Claim(e) => StepKeepsConsistent(p.queue, e);
      case ClaimLost(e) => StepKeepsConsistent(p.queue, e);
      case EndReported(_, report) =>
        ReportIsValid(p.queue, report);
        StepKeepsConsistent(p.queue, report);
      case Elsewhere(e) => StepKeepsConsistent(p.queue, e);
      case _ =>
    }
  }

  /** As long as every outcome reaches the store, the worker holds no lease on work it is not running:
      whatever it leases is waiting for, or inside, one of its goroutines. */
  lemma {:induction false} NoIdleLease(p: Process, w: WorkerId, concurrency: nat, steps: seq<Step>)
    requires Started(p, w) && Execution(p, w, concurrency, steps)
    requires forall k :: 0 <= k < |steps| ==> !steps[k].EndUnreported? && !steps[k].ClaimLost?
    ensures Consistent(Reached(p, concurrency, steps).queue)
    ensures forall id :: !IdleLease(Reached(p, concurrency, steps), w, id)
  {
    hide Enabled, After, Consistent, HeldBy;
    if steps == [] {
      StartedIdlesNothing(p, w);
    } else {
      var init := steps[..|steps| - 1];
      PrefixExecutes(p, w, concurrency, steps, |init|);
      NoIdleLease(p, w, concurrency, init);
      var q := Reached(p, concurrency, init);
      assert Enabled(q, w, steps[|init|]);
      StepKeepsQueue(q, w, concurrency, steps[|init|]);
      forall id ensures !IdleLease(Reached(p, concurrency, steps), w, id) {
        IdleLeaseAppearsIff(q, w, concurrency, steps[|init|], id);
      }
    }
  }

  lemma StartedIdlesNothing(p: Process, w: WorkerId)
    requires Started(p, w)
    ensures Consistent(p.queue) && forall id :: !IdleLease(p, w, id)
  {}

  // ----- shutdown -----

  lemma ReleaseEndsClaim(es: Run, c: nat, r: nat, w: WorkerId, id: JobId)
    requires IsRun(es) && r < |es| && es[r].Released? && es[r].worker == w
    requires IsOpenSince(es, c, r, id) && es[c].worker == w
    ensures EndsAt(es, r, id)
  {
    hide At, Next, Valid, Rewritten;
    OpenClaimMeaning(es, r, id);
    OwnerIsOpenClaim(es, r, id);
  }

  /** Once a worker has released its leases and claims nothing more, no report it still sends - from a
      handler that outlived the grace period - can touch any job. */
  lemma ReleasedWorkerIsIgnored(es: Run, r: nat, k: nat, w: WorkerId, id: JobId)
    requires IsRun(es) && r < k < |es|
    requires es[r].Released? && es[r].worker == w
    requires forall m :: r < m < k && es[m].Claimed? ==> es[m].worker != w
    requires IsReport(es[k], id, w)
    ensures !Hits(es, k, id)
  {
    hide At, Next, Valid, Rewritten;
    ReportLandsIff(es, k, id, w);
    if c: nat :| IsOpenSince(es, c, k, id) && es[c].worker == w {
      ReleaseEndsClaim(es, c, r, w, id);
      assert false;
    }
  }
}
