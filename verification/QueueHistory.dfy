/** Whole runs of the job table: who owns what, for how long, at what cost, and that it drains.

    A run is the list of statements executed, in commit order. Ownership is read off the run alone -
    claims and the statements that end them - and then proved to be what the rows say. */
module QueueHistory {
  import opened Options
  import opened Jobs
  import opened JobQueue

  type Run = seq<Event>

  ghost function At(es: Run, k: nat): State
    requires k <= |es|
  {
    if k == 0 then EMPTY else Next(At(es, k - 1), es[k - 1])
  }

  ghost predicate IsRun(es: Run) {
    forall k :: 0 <= k < |es| ==> Valid(At(es, k), es[k])
  }

  ghost function Row(es: Run, k: nat, id: JobId): Option<Job>
    requires k <= |es|
  {
    if id in At(es, k).jobs then Some(At(es, k).jobs[id]) else None
  }

  /** The k-th statement's WHERE clause matched the row: RowsAffected counted it. */
  ghost predicate Hits(es: Run, k: nat, id: JobId)
    requires k < |es|
  {
    id in Touched(At(es, k), es[k])
  }

  ghost predicate ClaimsAt(es: Run, k: nat, id: JobId)
    requires k < |es|
  {
    es[k].Claimed? && id in es[k].picked
  }

  predicate CanEnd(e: Event) {
    e.Completed? || e.Failed? || e.Deferred? || e.Released? || e.Reaped?
  }

  ghost predicate EndsAt(es: Run, k: nat, id: JobId)
    requires k < |es|
  {
    CanEnd(es[k]) && Hits(es, k, id)
  }

  // ----- single steps of a run -----

  ghost predicate Fresh(j: Job) {
    j.status == Pending && j.attemptCount == 0 && j.leasedBy == None && j.maxAttempts > 0
  }

  /** Every state of every run is consistent. */
  lemma {:induction false} RunConsistent(es: Run, k: nat)
    requires IsRun(es) && k <= |es|
    ensures Consistent(At(es, k))
  {
    if k > 0 {
      RunConsistent(es, k - 1);
      StepKeepsConsistent(At(es, k - 1), es[k - 1]);
    }
  }

  lemma Evolve(es: Run, k: nat, id: JobId)
    requires IsRun(es) && k < |es|
    ensures Row(es, k, id).Some? ==> ShapeOk(Row(es, k, id).value)
    ensures Row(es, k, id).Some? ==>
      Row(es, k + 1, id) ==
      Some(if Hits(es, k, id) then Rewritten(es[k], Row(es, k, id).value) else Row(es, k, id).value)
    ensures Row(es, k, id).None? && Row(es, k + 1, id).Some? ==> Fresh(Row(es, k + 1, id).value)
    ensures Hits(es, k, id) ==>
      Row(es, k, id).Some? && Row(es, k, id).value.status == (if es[k].Claimed? then Pending else Running)
    ensures Hits(es, k, id) && es[k].Claimed? ==> ClaimsAt(es, k, id)
    ensures ClaimsAt(es, k, id) ==> Hits(es, k, id)
    ensures Hits(es, k, id) ==> es[k].Claimed? || es[k].Renewed? || CanEnd(es[k])
  {
    var s, e := At(es, k), es[k];
    RunConsistent(es, k);
    assert Valid(s, e);
    if id in s.jobs {
      assert RowOk(id, s.jobs[id], s);
      RowChange(s, e, id);
    } else if id in Next(s, e).jobs {
      OnlyEnqueueAdds(s, e, id);
      NewRowFresh(s, e.batch, e.now, id);
    }
    if id in Touched(s, e) { TouchedIsLive(s, e, id); }
  }

  lemma RowsStartEmpty(es: Run, id: JobId)
    ensures Row(es, 0, id).None?
  {}

  lemma EndingFrees(e: Event, j: Job)
    requires CanEnd(e)
    ensures Rewritten(e, j).leasedBy.None? && Rewritten(e, j).status != Running
  {}

  /** A finished row is never written again. */
  lemma {:induction false} FinishedForever(es: Run, i: nat, k: nat, id: JobId)
    requires IsRun(es) && i <= k <= |es|
    requires Row(es, i, id).Some? && Finished(Row(es, i, id).value)
    ensures Row(es, k, id) == Row(es, i, id)
  {
    hide At, Next, Touched, Valid;
    if i < k {
      FinishedForever(es, i, k - 1, id);
      Evolve(es, k - 1, id);
    }
  }

  /** Rows are never deleted and never change what they stand for. */
  lemma {:induction false} RowPersists(es: Run, i: nat, k: nat, id: JobId)
    requires IsRun(es) && i <= k <= |es|
    requires Row(es, i, id).Some?
    ensures Row(es, k, id).Some?
    ensures var a, b := Row(es, i, id).value, Row(es, k, id).value;
      a.jobType == b.jobType && a.targetId == b.targetId && a.libraryId == b.libraryId
      && a.dedupeKey == b.dedupeKey && a.maxAttempts == b.maxAttempts && a.priority == b.priority
  {
    hide At, Next, Touched, Valid;
    if i < k {
      RowPersists(es, i, k - 1, id);
      Evolve(es, k - 1, id);
    }
  }

  // ----- ownership -----

  /** The claim the run leaves open on a job after k statements, if any. */
  ghost function OpenClaim(es: Run, k: nat, id: JobId): Option<nat>
    requires k <= |es|
  {
    if k == 0 then None
    else if ClaimsAt(es, k - 1, id) then Some(k - 1)
    else if EndsAt(es, k - 1, id) then None
    else OpenClaim(es, k - 1, id)
  }

  /** `c` claimed the job and nothing since has claimed it again or ended that claim. */
  ghost predicate IsOpenSince(es: Run, c: nat, k: nat, id: JobId)
    requires k <= |es|
  {
    c < k && ClaimsAt(es, c, id) && forall m :: c < m < k ==> !ClaimsAt(es, m, id) && !EndsAt(es, m, id)
  }

  lemma {:induction false} OpenClaimMeaning(es: Run, k: nat, id: JobId)
    requires k <= |es|
    ensures forall c: nat :: OpenClaim(es, k, id) == Some(c) <==> IsOpenSince(es, c, k, id)
  {
    hide At, Next, Touched, Valid;
    if k > 0 {
      OpenClaimMeaning(es, k - 1, id);
      if ClaimsAt(es, k - 1, id) || EndsAt(es, k - 1, id) {
        forall c: nat ensures OpenClaim(es, k, id) == Some(c) <==> IsOpenSince(es, c, k, id) {}
      } else {
        forall c: nat ensures IsOpenSince(es, c, k, id) <==> IsOpenSince(es, c, k - 1, id) {
        }
      }
    }
  }

  /** The row names an owner exactly when the run has a claim open on the job, and it names that
      claim's worker. */
  lemma {:induction false} OwnerIsOpenClaim(es: Run, k: nat, id: JobId)
    requires IsRun(es) && k <= |es|
    ensures OpenClaim(es, k, id).None? ==> Row(es, k, id).Some? ==>
      Row(es, k, id).value.leasedBy.None? && Row(es, k, id).value.status != Running
    ensures OpenClaim(es, k, id).Some? ==>
      var c := OpenClaim(es, k, id).value;
      c < k && ClaimsAt(es, c, id) && Row(es, k, id).Some?
      && Row(es, k, id).value.leasedBy == Some(es[c].worker) && Row(es, k, id).value.status == Running
  {
    hide At, Next, Touched, Valid;
    RowsStartEmpty(es, id);
    if k > 0 {
      OwnerIsOpenClaim(es, k - 1, id);
      Evolve(es, k - 1, id);
      if EndsAt(es, k - 1, id) { EndingFrees(es[k - 1], Row(es, k - 1, id).value); }
    }
  }

  /** A report: a worker telling the queue how an execution went. */
  predicate IsReport(e: Event, id: JobId, w: WorkerId) {
    (e.Completed? || e.Failed? || e.Deferred?) && e.id == id && e.worker == w
  }

  /** A complete, fail or defer takes effect exactly when its worker made the job's latest claim and
      nothing has ended that claim since. */
  lemma ReportLandsIff(es: Run, k: nat, id: JobId, w: WorkerId)
    requires IsRun(es) && k < |es| && IsReport(es[k], id, w)
    ensures Hits(es, k, id) <==> exists c: nat :: IsOpenSince(es, c, k, id) && es[c].worker == w
  {
    hide At, Next, Valid;
    OwnerIsOpenClaim(es, k, id);
    OpenClaimMeaning(es, k, id);
    if OpenClaim(es, k, id).Some? {
      var c := OpenClaim(es, k, id).value;
      assert IsOpenSince(es, c, k, id);
      assert forall d: nat :: IsOpenSince(es, d, k, id) ==> d == c;
    }
  }

  /** Ownership is per worker, not per execution: the report of an execution that has lost its claim lands
      exactly when the same worker has claimed the job again since and that claim is still open. */
  lemma StaleReportLandsIff(es: Run, c: nat, k: nat, id: JobId, w: WorkerId)
    requires IsRun(es) && c < k < |es| && IsReport(es[k], id, w)
    requires ClaimsAt(es, c, id) && es[c].worker == w && !IsOpenSince(es, c, k, id)
    ensures Hits(es, k, id) <==> exists d: nat :: c < d && IsOpenSince(es, d, k, id) && es[d].worker == w
  {
    hide At, Next, Touched, Valid, Hits;
    ReportLandsIff(es, k, id, w);
    if Hits(es, k, id) {
      var d: nat :| IsOpenSince(es, d, k, id) && es[d].worker == w;
      OpenClaimIsLatest(es, c, d, k, id);
    }
  }

  lemma OpenClaimIsLatest(es: Run, c: nat, d: nat, k: nat, id: JobId)
    requires c < k <= |es| && ClaimsAt(es, c, id) && IsOpenSince(es, d, k, id)
    ensures c <= d
  {}

  /** Two claims of one job are always separated by a statement that ended the first. */
  lemma OwnershipNeverOverlaps(es: Run, c: nat, d: nat, id: JobId)
    requires IsRun(es) && c < d < |es|
    requires ClaimsAt(es, c, id) && ClaimsAt(es, d, id)
    ensures exists m :: c < m < d && EndsAt(es, m, id)
  {
    hide At, Next, Touched, Valid;
    if !(exists m :: c < m < d && EndsAt(es, m, id)) {
      StillOpen(es, c, d, id);
      OwnerIsOpenClaim(es, d, id);
      Evolve(es, d, id);
      assert false;
    }
  }

  lemma {:induction false} StillOpen(es: Run, c: nat, k: nat, id: JobId)
    requires c < k <= |es| && ClaimsAt(es, c, id)
    requires forall m :: c < m < k ==> !EndsAt(es, m, id)
    ensures OpenClaim(es, k, id).Some?
  {
    hide At, Next, Touched, Valid;
    if c + 1 < k { StillOpen(es, c, k - 1, id); }
  }

  // ----- the price of attempts -----

  ghost function Claims(es: Run, k: nat, id: JobId): nat
    requires k <= |es|
  {
    if k == 0 then 0 else Claims(es, k - 1, id) + if ClaimsAt(es, k - 1, id) then 1 else 0
  }

  ghost function Deferrals(es: Run, k: nat, id: JobId): nat
    requires k <= |es|
  {
    if k == 0 then 0
    else Deferrals(es, k - 1, id) + if es[k - 1].Deferred? && Hits(es, k - 1, id) then 1 else 0
  }

  ghost function Releases(es: Run, k: nat, id: JobId): nat
    requires k <= |es|
  {
    if k == 0 then 0
    else Releases(es, k - 1, id) + if es[k - 1].Released? && Hits(es, k - 1, id) then 1 else 0
  }

  lemma NoRowNoHistory(es: Run, k: nat, id: JobId)
    requires IsRun(es) && k <= |es| && Row(es, k, id).None?
    ensures Claims(es, k, id) == 0 && Deferrals(es, k, id) == 0 && Releases(es, k, id) == 0
  {
    hide At, Next, Touched, Valid;
    if k > 0 {
      Evolve(es, k - 1, id);
      NoRowNoHistory(es, k - 1, id);
    }
  }

  /** attempt_count is the number of claims minus the number of deferrals that applied. It exceeds
      max_attempts by at most the number of times a shutdown released the job. */
  lemma {:induction false} AttemptAccounting(es: Run, k: nat, id: JobId)
    requires IsRun(es) && k <= |es| && Row(es, k, id).Some?
    ensures var j := Row(es, k, id).value;
      && j.attemptCount == Claims(es, k, id) - Deferrals(es, k, id)
      && j.attemptCount <= j.maxAttempts + Releases(es, k, id)
      && (j.status == Pending ==> j.attemptCount < j.maxAttempts + Releases(es, k, id))
      && (j.status == Running ==> j.attemptCount >= 1)
  {
    hide At, Next, Touched, Valid, Hits, IsRun, Row;
    RowsStartEmpty(es, id);
    Evolve(es, k - 1, id);
    if Row(es, k - 1, id).Some? {
      AttemptAccounting(es, k - 1, id);
    } else {
      NoRowNoHistory(es, k - 1, id);
    }
  }

  /** GREATEST(0, attempt_count - 1) never clamps: a deferral always gives back exactly one attempt. */
  lemma DeferralReturnsOneAttempt(es: Run, k: nat, id: JobId)
    requires IsRun(es) && k < |es| && es[k].Deferred? && Hits(es, k, id)
    ensures Row(es, k, id).Some? && Row(es, k + 1, id).Some?
    ensures Row(es, k + 1, id).value.attemptCount == Row(es, k, id).value.attemptCount - 1
  {
    hide At, Next, Touched, Valid;
    Evolve(es, k, id);
    AttemptAccounting(es, k, id);
    assert Row(es, k + 1, id).value == PutOff(Row(es, k, id).value, es[k].after, es[k].reason, es[k].now);
  }

  /** The last statement to end the job's ownership sent it back with every attempt spent. Only a
      release does not look at the attempts; a deferral lowers them by one but does not look either. */
  ghost predicate SentBackSpent(es: Run, k: nat, id: JobId)
    requires k <= |es|
  {
    k > 0 &&
    if EndsAt(es, k - 1, id) then
      Row(es, k - 1, id).Some? &&
      var j := Row(es, k - 1, id).value;
      (es[k - 1].Released? && j.attemptCount >= j.maxAttempts)
      || (es[k - 1].Deferred? && j.attemptCount > j.maxAttempts)
    else SentBackSpent(es, k - 1, id)
  }

  /** A waiting job has no attempts left exactly when it was released on its last attempt, or
      deferred while already beyond it. The next claim then exceeds max_attempts. */
  lemma {:induction false} WaitingSpentIff(es: Run, k: nat, id: JobId)
    requires IsRun(es) && k <= |es| && Row(es, k, id).Some? && Row(es, k, id).value.status == Pending
    ensures Exhausted(Row(es, k, id).value) <==> SentBackSpent(es, k, id)
  {
    hide At, Next, Touched, Valid, Hits, IsRun, Row;
    RowsStartEmpty(es, id);
    Evolve(es, k - 1, id);
    if Row(es, k - 1, id).Some? {
      if !Hits(es, k - 1, id) { WaitingSpentIff(es, k - 1, id); }
    } else {
      NeverSentBack(es, k - 1, id);
    }
  }

  lemma {:induction false} NeverSentBack(es: Run, k: nat, id: JobId)
    requires IsRun(es) && k <= |es| && Row(es, k, id).None?
    ensures !SentBackSpent(es, k, id)
  {
    hide At, Next, Touched, Valid;
    if k > 0 {
      Evolve(es, k - 1, id);
      NeverSentBack(es, k - 1, id);
    }
  }

  /** A claim takes a job beyond its limit exactly when it was sent back with nothing left. */
  lemma ClaimExceedsLimitIff(es: Run, k: nat, id: JobId)
    requires IsRun(es) && k < |es| && ClaimsAt(es, k, id)
    ensures Row(es, k + 1, id).Some?
    ensures Row(es, k + 1, id).value.attemptCount > Row(es, k + 1, id).value.maxAttempts <==>
      SentBackSpent(es, k, id)
  {
    hide At, Next, Touched, Valid;
    Evolve(es, k, id);
    WaitingSpentIff(es, k, id);
  }

  // ----- draining -----

  /** What is left to pay on a job: two per remaining attempt, plus one while it runs. A job already
      past its limit still costs its last execution. */
  function Weight(j: Job): nat {
    var left := if j.maxAttempts > j.attemptCount then j.maxAttempts - j.attemptCount else 0;
    match j.status
    case Pending => if left == 0 then 2 else 2 * left
    case Running => 2 * left + 1
    case _ => 0
  }

  function SumBelow(jobs: map<JobId, Job>, n: nat): nat {
    if n == 0 then 0
    else SumBelow(jobs, n - 1) + if n - 1 in jobs then Weight(jobs[n - 1]) else 0
  }

  function Owed(s: State): nat { SumBelow(s.jobs, s.nextId) }

  /** Statements that neither create work nor hand an attempt back unspent. */
  predicate Consumes(e: Event) { !e.Enqueued? && !e.Deferred? && !e.Released? }

  /** A statement that moved some job forward. */
  ghost predicate Moves(s: State, e: Event) { !e.Renewed? && Touched(s, e) != {} }

  lemma RewritingCostsWeight(e: Event, j: Job)
    requires Consumes(e) && !e.Purged?
    requires j.status == if e.Claimed? then Pending else Running
    ensures e.Renewed? ==> Weight(Rewritten(e, j)) == Weight(j)
    ensures e.Claimed? || e.Completed? || e.Failed? || e.Reaped? ==> Weight(Rewritten(e, j)) < Weight(j)
  {}

  lemma WeightFalls(s: State, e: Event, id: JobId)
    requires Consistent(s) && Valid(s, e) && Consumes(e)
    requires id in s.jobs
    ensures id in Next(s, e).jobs
    ensures Weight(Next(s, e).jobs[id]) <= Weight(s.jobs[id])
    ensures id in Touched(s, e) && !e.Renewed? ==> Weight(Next(s, e).jobs[id]) < Weight(s.jobs[id])
  {
    RowChange(s, e, id);
    if id in Touched(s, e) {
      TouchedIsLive(s, e, id);
      RewritingCostsWeight(e, s.jobs[id]);
    }
  }

  lemma {:induction false} SumFalls(a: map<JobId, Job>, b: map<JobId, Job>, n: nat, id: JobId)
    requires a.Keys == b.Keys
    requires forall i :: i in a ==> Weight(b[i]) <= Weight(a[i])
    ensures SumBelow(b, n) <= SumBelow(a, n)
    ensures id < n && id in a && Weight(b[id]) < Weight(a[id]) ==> SumBelow(b, n) < SumBelow(a, n)
  {
    if n > 0 { SumFalls(a, b, n - 1, id); }
  }

  /** Every claim, completion, failure and reap that affects a row strictly lowers what is owed. */
  lemma OwedFalls(s: State, e: Event)
    requires Consistent(s) && Valid(s, e) && Consumes(e)
    ensures Owed(Next(s, e)) <= Owed(s)
    ensures Moves(s, e) ==> Owed(Next(s, e)) < Owed(s)
  {
    var t := Next(s, e);
    if e.Purged? { PurgeOrphansNothing(s, e.olderThan, e.now); }
    assert t.jobs.Keys == s.jobs.Keys && t.nextId == s.nextId;
    forall id | id in s.jobs
      ensures Weight(t.jobs[id]) <= Weight(s.jobs[id])
    {
      WeightFalls(s, e, id);
    }
    if Moves(s, e) {
      var id :| id in Touched(s, e);
      TouchedIsLive(s, e, id);
      WeightFalls(s, e, id);
      assert RowOk(id, s.jobs[id], s);
      SumFalls(s.jobs, t.jobs, s.nextId, id);
    } else {
      SumFalls(s.jobs, t.jobs, s.nextId, 0);
    }
  }

  /** How many statements in [i, k) moved a job forward. */
  ghost function Movements(es: Run, i: nat, k: nat): nat
    requires i <= k <= |es|
  {
    if i == k then 0 else Movements(es, i, k - 1) + if Moves(At(es, k - 1), es[k - 1]) then 1 else 0
  }

  /** With no new work, deferrals or releases, the queue can move only as often as it owes: retries,
      crashes and reaps included, it drains. */
  lemma {:induction false} Drains(es: Run, i: nat, k: nat)
    requires IsRun(es) && i <= k <= |es|
    requires forall m :: i <= m < k ==> Consumes(es[m])
    ensures Movements(es, i, k) + Owed(At(es, k)) <= Owed(At(es, i))
  {
    hide Next, Touched, Valid;
    if i < k {
      Drains(es, i, k - 1);
      RunConsistent(es, k - 1);
      OwedFalls(At(es, k - 1), es[k - 1]);
    }
  }

  /** Nothing is owed exactly when every job is finished. */
  lemma OwesNothingIff(s: State)
    requires Consistent(s)
    ensures Owed(s) == 0 <==> forall id :: id in s.jobs ==> Finished(s.jobs[id])
  {
    forall id | id in s.jobs ensures id < s.nextId { assert RowOk(id, s.jobs[id], s); }
    ZeroSumIff(s.jobs, s.nextId);
  }

  lemma {:induction false} ZeroSumIff(jobs: map<JobId, Job>, n: nat)
    ensures SumBelow(jobs, n) == 0 <==> forall id :: id in jobs && id < n ==> Finished(jobs[id])
  {
    if n > 0 { ZeroSumIff(jobs, n - 1); }
  }
}
