/** The aggregate stages and their prerequisites (internal/worker/handlers.go). A handler counts one
    prerequisite after another while the queue moves on, and rebuilds only if every count was zero. */
module Gate {
  import opened Options
  import opened Jobs
  import opened JobQueue
  import opened QueueHistory
  import opened Paging

  const DEFER_DELAY := 2 * SECOND

  /** What each aggregate must wait for, in the order its handler checks. */
  function Prerequisites(aggregate: JobType): seq<JobType> {
    match aggregate
    case BuildSimilarGroups => [ComputeFileHash, ComputePerceptualHash, AnalyzeQuality]
    case BuildDuplicateGroups => [ComputeFileHash]
    case BuildClusters => [ExtractMetadata]
    case _ => []
  }

  /** The rows CountOutstandingJobsOfType counts. */
  function Outstanding(s: State, libraryId: string, t: JobType): set<JobId> {
    set id | id in s.jobs && s.jobs[id].libraryId == libraryId && s.jobs[id].jobType == t && s.jobs[id].status.IsLive()
  }

  /** No job of the type is pending or running for the library. */
  ghost predicate NoneLive(s: State, libraryId: string, t: JobType) {
    forall id :: id in s.jobs && s.jobs[id].libraryId == libraryId && s.jobs[id].jobType == t ==>
      s.jobs[id].status == Succeeded || s.jobs[id].status == Dead
  }

  lemma OutstandingIff(s: State, libraryId: string, t: JobType)
    ensures Outstanding(s, libraryId, t) == {} <==> NoneLive(s, libraryId, t)
  {
    forall id | id in s.jobs && s.jobs[id].libraryId == libraryId && s.jobs[id].jobType == t
      ensures id in Outstanding(s, libraryId, t) <==> s.jobs[id].status == Pending || s.jobs[id].status == Running
    {}
  }

  ghost predicate ForSimilar(seen: seq<State>, libraryId: string)
    requires |seen| == 3
  {
    && NoneLive(seen[0], libraryId, ComputeFileHash) && NoneLive(seen[1], libraryId, ComputePerceptualHash)
    && NoneLive(seen[2], libraryId, AnalyzeQuality)
  }

  datatype Verdict = Rebuild | Defer(after: Time, prerequisite: JobType, outstanding: nat)

  /** The handler's loop. `seen[i]` is the table as the i-th count finds it. */
  method CheckPrerequisites(aggregate: JobType, libraryId: string, seen: seq<State>) returns (v: Verdict)
    requires |seen| == |Prerequisites(aggregate)|
    ensures v.Rebuild? <==>
      forall i :: 0 <= i < |seen| ==> Outstanding(seen[i], libraryId, Prerequisites(aggregate)[i]) == {}
    ensures v.Defer? ==>
      exists i :: 0 <= i < |seen|
        && v == Defer(DEFER_DELAY, Prerequisites(aggregate)[i], |Outstanding(seen[i], libraryId, Prerequisites(aggregate)[i])|)
        && v.outstanding > 0
        && forall k :: 0 <= k < i ==> Outstanding(seen[k], libraryId, Prerequisites(aggregate)[k]) == {}
    ensures aggregate == BuildDuplicateGroups ==> |seen| == 1 && (v.Rebuild? <==> NoneLive(seen[0], libraryId, ComputeFileHash))
    ensures aggregate == BuildClusters ==> |seen| == 1 && (v.Rebuild? <==> NoneLive(seen[0], libraryId, ExtractMetadata))
    ensures aggregate == BuildSimilarGroups ==> |seen| == 3 && (v.Rebuild? <==> ForSimilar(seen, libraryId))
  {
    hide NoneLive;
    forall i | 0 <= i < |seen| { OutstandingIff(seen[i], libraryId, Prerequisites(aggregate)[i]); }
    var prereqs := Prerequisites(aggregate);
    for i := 0 to |prereqs|
      invariant forall k :: 0 <= k < i ==> Outstanding(seen[k], libraryId, prereqs[k]) == {}
    {
      var outstanding := |Outstanding(seen[i], libraryId, prereqs[i])|;
      if outstanding > 0 {
        assert Outstanding(seen[i], libraryId, prereqs[i]) != {};
        return Defer(DEFER_DELAY, prereqs[i], outstanding);
      }
    }
    return Rebuild;
  }

  // ----- outstanding work only grows by enqueueing -----

  predicate Brings(e: Event, libraryId: string, t: JobType) {
    e.Enqueued? && exists x :: x in e.batch && x.libraryId == libraryId && x.jobType == t
  }

  predicate IsWork(row: Option<Job>, libraryId: string, t: JobType) {
    row.Some? && row.value.libraryId == libraryId && row.value.jobType == t
  }

  /** The m-th statement enqueued the job as work of this kind. */
  ghost predicate Created(es: Run, m: nat, libraryId: string, t: JobType, id: JobId)
    requires m < |es|
  {
    Brings(es[m], libraryId, t) && Row(es, m, id).None? && IsWork(Row(es, m + 1, id), libraryId, t)
  }

  /** A job outstanding at k was outstanding before, or was enqueued since. */
  lemma {:induction false} OutstandingOrNew(es: Run, i: nat, k: nat, libraryId: string, t: JobType, id: JobId)
    requires IsRun(es) && i <= k <= |es|
    requires id in Outstanding(At(es, k), libraryId, t)
    ensures id in Outstanding(At(es, i), libraryId, t)
      || exists m :: i <= m < k && Created(es, m, libraryId, t, id)
  {
    hide At, Next, Touched, Valid, Created, Outstanding;
    if i < k {
      OutstandingStep(es, k - 1, libraryId, t, id);
      if id in Outstanding(At(es, k - 1), libraryId, t) {
        OutstandingOrNew(es, i, k - 1, libraryId, t, id);
      }
    }
  }

  lemma OutstandingStep(es: Run, k: nat, libraryId: string, t: JobType, id: JobId)
    requires IsRun(es) && k < |es|
    requires id in Outstanding(At(es, k + 1), libraryId, t)
    ensures id in Outstanding(At(es, k), libraryId, t)
      || Created(es, k, libraryId, t, id)
  {
    Evolve(es, k, id);
    if Row(es, k, id).None? {
      OnlyEnqueueAdds(At(es, k), es[k], id);
      NewRowFresh(At(es, k), es[k].batch, es[k].now, id);
    } else if Hits(es, k, id) {
      LiveWhenHit(es, k, id);
    }
  }

  lemma LiveWhenHit(es: Run, k: nat, id: JobId)
    requires IsRun(es) && k < |es| && Hits(es, k, id)
    ensures Row(es, k, id).Some? && Row(es, k, id).value.status.IsLive()
    ensures var j := Row(es, k, id).value;
      Rewritten(es[k], j).jobType == j.jobType && Rewritten(es[k], j).libraryId == j.libraryId
  {
    hide At, Next, Touched, Valid;
    Evolve(es, k, id);
  }

  /** Each count is taken at its own moment: `counts` are those moments, `rebuild` the rebuild's. */
  ghost predicate CountedZero(es: Run, counts: seq<nat>, rebuild: nat, libraryId: string, aggregate: JobType) {
    |counts| == |Prerequisites(aggregate)| && rebuild <= |es|
    && forall i :: 0 <= i < |counts| ==>
      counts[i] <= rebuild && Outstanding(At(es, counts[i]), libraryId, Prerequisites(aggregate)[i]) == {}
  }

  ghost predicate IsLiveAt(es: Run, k: nat, id: JobId)
    requires k <= |es|
  {
    Row(es, k, id).Some? && Row(es, k, id).value.status.IsLive()
  }

  /** Whatever interleaves with the counts, a prerequisite is outstanding at the rebuild exactly when it
      was enqueued after its own count and has not been carried to an end since. */
  lemma LateWorkIff(es: Run, counts: seq<nat>, rebuild: nat, libraryId: string, aggregate: JobType, i: nat, id: JobId)
    requires IsRun(es) && CountedZero(es, counts, rebuild, libraryId, aggregate) && i < |counts|
    ensures id in Outstanding(At(es, rebuild), libraryId, Prerequisites(aggregate)[i]) <==>
      IsLiveAt(es, rebuild, id)
      && exists m :: counts[i] <= m < rebuild && Created(es, m, libraryId, Prerequisites(aggregate)[i], id)
  {
    hide At, Next, Touched, Valid, Created;
    var t := Prerequisites(aggregate)[i];
    if id in Outstanding(At(es, rebuild), libraryId, t) {
      OutstandingOrNew(es, counts[i], rebuild, libraryId, t, id);
    }
    if m :| counts[i] <= m < rebuild && Created(es, m, libraryId, t, id) {
      CreatedAsAsked(es, m, rebuild, libraryId, t, id);
    }
  }

  lemma CreatedAsAsked(es: Run, m: nat, k: nat, libraryId: string, t: JobType, id: JobId)
    requires IsRun(es) && m < k <= |es| && Created(es, m, libraryId, t, id)
    ensures Row(es, k, id).Some? && Row(es, k, id).value.jobType == t && Row(es, k, id).value.libraryId == libraryId
  {
    hide At, Next, Touched, Valid;
    RowPersists(es, m + 1, k, id);
  }

  /** With nothing of the kind enqueued between a count and the rebuild, every prerequisite job is
      finished when the rebuild runs. */
  lemma RebuildSeesFinishedWork(es: Run, counts: seq<nat>, rebuild: nat, libraryId: string, aggregate: JobType)
    requires IsRun(es) && CountedZero(es, counts, rebuild, libraryId, aggregate)
    requires forall i, m :: 0 <= i < |counts| && counts[i] <= m < rebuild ==>
      !Brings(es[m], libraryId, Prerequisites(aggregate)[i])
    ensures forall id, t :: t in Prerequisites(aggregate) && IsWork(Row(es, rebuild, id), libraryId, t) ==>
      Finished(Row(es, rebuild, id).value)
  {
    hide At, Next, Touched, Valid;
    forall id, t | t in Prerequisites(aggregate) && IsWork(Row(es, rebuild, id), libraryId, t)
      ensures Finished(Row(es, rebuild, id).value)
    {
      var i :| 0 <= i < |counts| && Prerequisites(aggregate)[i] == t;
      if id in Outstanding(At(es, rebuild), libraryId, t) {
        LateWorkIff(es, counts, rebuild, libraryId, aggregate, i, id);
        assert false;
      }
    }
  }

  /** A count of zero stays zero until work of the kind is enqueued. */
  lemma NoneLiveStays(es: Run, i: nat, k: nat, libraryId: string, t: JobType)
    requires IsRun(es) && i <= k <= |es| && NoneLive(At(es, i), libraryId, t)
    requires forall m :: i <= m < k ==> !Brings(es[m], libraryId, t)
    ensures NoneLive(At(es, k), libraryId, t)
  {
    hide At, Next, Touched, Valid, Brings, NoneLive;
    OutstandingIff(At(es, i), libraryId, t);
    OutstandingIff(At(es, k), libraryId, t);
    if id :| id in Outstanding(At(es, k), libraryId, t) { OutstandingOrNew(es, i, k, libraryId, t, id); }
  }

  /** Near-duplicate groups are rebuilt over finished hashes of both kinds and finished quality scores;
      each count may have been taken at its own moment before. */
  lemma SimilarRebuildSees(es: Run, hashes: nat, phashes: nat, scores: nat, rebuild: nat, libraryId: string)
    requires IsRun(es) && hashes <= rebuild && phashes <= rebuild && scores <= rebuild <= |es|
    requires CountedZero(es, [hashes, phashes, scores], rebuild, libraryId, BuildSimilarGroups)
    requires forall m :: hashes <= m < rebuild ==> !Brings(es[m], libraryId, ComputeFileHash)
    requires forall m :: phashes <= m < rebuild ==> !Brings(es[m], libraryId, ComputePerceptualHash)
    requires forall m :: scores <= m < rebuild ==> !Brings(es[m], libraryId, AnalyzeQuality)
    ensures NoneLive(At(es, rebuild), libraryId, ComputeFileHash)
    ensures NoneLive(At(es, rebuild), libraryId, ComputePerceptualHash)
    ensures NoneLive(At(es, rebuild), libraryId, AnalyzeQuality)
  {
    hide At, Brings, NoneLive, IsRun;
    var counts := [hashes, phashes, scores];
    forall i | 0 <= i < |counts| ensures NoneLive(At(es, counts[i]), libraryId, Prerequisites(BuildSimilarGroups)[i]) {
      OutstandingIff(At(es, counts[i]), libraryId, Prerequisites(BuildSimilarGroups)[i]);
    }
    assert counts[0] == hashes && counts[1] == phashes && counts[2] == scores;
    NoneLiveStays(es, hashes, rebuild, libraryId, ComputeFileHash);
    NoneLiveStays(es, phashes, rebuild, libraryId, ComputePerceptualHash);
    NoneLiveStays(es, scores, rebuild, libraryId, AnalyzeQuality);
  }

  /** Exact duplicates are regrouped over finished file hashes, and events over finished metadata. */
  lemma SingleCountRebuildsSee(es: Run, count: nat, rebuild: nat, libraryId: string, aggregate: JobType)
    requires IsRun(es) && count <= rebuild <= |es| && aggregate in {BuildDuplicateGroups, BuildClusters}
    requires CountedZero(es, [count], rebuild, libraryId, aggregate)
    requires var t := if aggregate == BuildClusters then ExtractMetadata else ComputeFileHash;
      forall m :: count <= m < rebuild ==> !Brings(es[m], libraryId, t)
    ensures aggregate == BuildDuplicateGroups ==> NoneLive(At(es, rebuild), libraryId, ComputeFileHash)
    ensures aggregate == BuildClusters ==> NoneLive(At(es, rebuild), libraryId, ExtractMetadata)
  {
    hide At, Brings, NoneLive, IsRun;
    var t := if aggregate == BuildClusters then ExtractMetadata else ComputeFileHash;
    assert [count][0] == count;
    OutstandingIff(At(es, count), libraryId, t);
    NoneLiveStays(es, count, rebuild, libraryId, t);
  }

  // ----- priorities -----

  /** Every request is one NewPhotoJob or NewLibraryJob makes. */
  ghost predicate StandardRequests(es: Run) {
    forall k, x :: 0 <= k < |es| && Asks(es[k], x) ==>
      x == NewPhotoJob(x.jobType, x.targetId, x.libraryId) || x == NewLibraryJob(x.jobType, x.libraryId)
  }

  ghost predicate IsStandard(j: Job) {
    (j.targetType == TargetPhoto && j.priority == 100) || (j.targetType == TargetLibrary && j.priority == 200)
  }

  lemma {:induction false} RowsAreStandard(es: Run, k: nat, id: JobId)
    requires IsRun(es) && StandardRequests(es) && k <= |es| && Row(es, k, id).Some?
    ensures IsStandard(Row(es, k, id).value)
  {
    hide At, Next, Touched, Valid, StandardRequests;
    RowsStartEmpty(es, id);
    if Row(es, k - 1, id).Some? {
      RowsAreStandard(es, k - 1, id);
      Evolve(es, k - 1, id);
    } else {
      NewRowStandard(es, k - 1, id);
    }
  }

  lemma NewRowStandard(es: Run, k: nat, id: JobId)
    requires IsRun(es) && StandardRequests(es) && k < |es| && Row(es, k, id).None? && Row(es, k + 1, id).Some?
    ensures IsStandard(Row(es, k + 1, id).value)
  {
    OnlyEnqueueAdds(At(es, k), es[k], id);
    NewRowFresh(At(es, k), es[k].batch, es[k].now, id);
    var x :| x in es[k].batch && Row(es, k + 1, id).value == NewJob(x, es[k].now);
    assert Asks(es[k], x);
  }

  lemma LeftBehind(s: State, limit: int, locked: set<JobId>, now: Time, picked: set<JobId>, a: JobId, b: JobId)
    requires IsClaimChoice(s, limit, locked, now, picked) && a in picked && b in Claimable(s, locked, now)
    ensures a in s.jobs && b in s.jobs && (b !in picked ==> s.jobs[a].priority <= s.jobs[b].priority)
  {
    if b !in picked { assert b in Claimable(s, locked, now) - picked; }
  }

  /** Photos before libraries: a claim takes an aggregate only when it takes every photo job it could. */
  lemma AggregatesYield(es: Run, k: nat, a: JobId, b: JobId)
    requires IsRun(es) && StandardRequests(es) && k < |es| && ClaimsAt(es, k, a)
    requires Row(es, k, a).Some? && Row(es, k, a).value.targetType == TargetLibrary
    requires Row(es, k, b).Some? && Row(es, k, b).value.targetType == TargetPhoto
    requires Row(es, k, b).value.status == Pending && Row(es, k, b).value.nextAttemptAt <= es[k].now && b !in es[k].locked
    ensures ClaimsAt(es, k, b)
  {
    RowsAreStandard(es, k, a);
    RowsAreStandard(es, k, b);
    hide At, Next, StandardRequests;
    LeftBehind(At(es, k), es[k].limit, es[k].locked, es[k].now, es[k].picked, a, b);
  }

  // ----- after a fan-out -----

  /** The fan-out's batches were enqueued at these positions of the run. */
  ghost predicate Placed(es: Run, batches: seq<seq<Enqueue>>, at: seq<nat>) {
    |at| == |batches|
    && (forall b :: 0 <= b < |at| ==> at[b] < |es| && es[at[b]].Enqueued? && es[at[b]].batch == batches[b])
    && forall b, c :: 0 <= b < c < |at| ==> at[b] < at[c]
  }

  predicate Asks(e: Event, x: Enqueue) { e.Enqueued? && x in e.batch }

  /** A photo belongs to one library. */
  ghost predicate OneLibraryPerTarget(es: Run) {
    forall i, k, x, y :: 0 <= i < |es| && 0 <= k < |es| && Asks(es[i], x) && Asks(es[k], y) && x.targetId == y.targetId ==>
      x.libraryId == y.libraryId
  }

  lemma {:induction false} EnqueueLeavesLive(s: State, batch: seq<Enqueue>, now: Time, x: Enqueue)
    requires Consistent(s) && x in batch
    ensures HasLive(EnqueueAll(s, batch, now).jobs, DedupeKey(x.jobType, x.targetId))
  {
    var init, last := batch[..|batch| - 1], batch[|batch| - 1];
    var mid := EnqueueAll(s, init, now);
    EnqueueKeeps(s, init, now);
    if x in init {
      EnqueueLeavesLive(s, init, now, x);
      var id :| id in mid.jobs && mid.jobs[id].status.IsLive() && mid.jobs[id].dedupeKey == DedupeKey(x.jobType, x.targetId);
      assert RowOk(id, mid.jobs[id], mid);
      assert id in EnqueueAll(s, batch, now).jobs && EnqueueAll(s, batch, now).jobs[id] == mid.jobs[id];
    } else {
      assert x == last;
      var t := EnqueueOne(mid, last, now);
      if !HasLive(mid.jobs, DedupeKey(x.jobType, x.targetId)) {
        assert t.jobs[mid.nextId] == NewJob(x, now);
      }
    }
  }

  ghost predicate SameWork(row: Option<Job>, x: Enqueue) {
    row.Some? && row.value.jobType == x.jobType && row.value.targetId == x.targetId
  }

  ghost predicate AskedFor(row: Option<Job>, x: Enqueue) {
    SameWork(row, x) && row.value.libraryId == x.libraryId
  }

  lemma NewRowAsked(es: Run, k: nat, id: JobId)
    requires IsRun(es) && k < |es| && Row(es, k, id).None? && Row(es, k + 1, id).Some?
    ensures exists x :: Asks(es[k], x) && AskedFor(Row(es, k + 1, id), x)
  {
    OnlyEnqueueAdds(At(es, k), es[k], id);
    NewRowFresh(At(es, k), es[k].batch, es[k].now, id);
    var x :| x in es[k].batch && Row(es, k + 1, id).value == NewJob(x, es[k].now);
    assert Asks(es[k], x) && AskedFor(Row(es, k + 1, id), x);
  }

  /** Every row was asked for by some enqueue of the run. */
  lemma {:induction false} Provenance(es: Run, k: nat, id: JobId)
    requires IsRun(es) && k <= |es| && Row(es, k, id).Some?
    ensures exists m, x :: 0 <= m < k && Asks(es[m], x) && AskedFor(Row(es, k, id), x)
  {
    hide At, Next, Touched, Valid, Asks;
    RowsStartEmpty(es, id);
    if Row(es, k - 1, id).Some? {
      Provenance(es, k - 1, id);
      RowPersists(es, k - 1, k, id);
      var m, x :| 0 <= m < k - 1 && Asks(es[m], x) && AskedFor(Row(es, k - 1, id), x);
      assert AskedFor(Row(es, k, id), x);
    } else {
      NewRowAsked(es, k - 1, id);
    }
  }

  /** Right after an enqueue, a row for the requested work is outstanding: a new one, or the one that
      absorbed the request. */
  lemma RequestIsLive(es: Run, m: nat, k: nat, x: Enqueue)
    requires IsRun(es) && m < |es| && Asks(es[m], x) && k == m + 1
    ensures exists id :: SameWork(Row(es, k, id), x) && IsLiveAt(es, k, id)
  {
    RunConsistent(es, m);
    RunConsistent(es, m + 1);
    EnqueueLeavesLive(At(es, m), es[m].batch, es[m].now, x);
    var s := At(es, m + 1);
    var id :| id in s.jobs && s.jobs[id].status.IsLive() && s.jobs[id].dedupeKey == DedupeKey(x.jobType, x.targetId);
    assert RowOk(id, s.jobs[id], s);
    DedupeKeyInjective(s.jobs[id].jobType, s.jobs[id].targetId, x.jobType, x.targetId);
    assert SameWork(Row(es, k, id), x) && IsLiveAt(es, k, id);
  }

  /** Whatever was asked for has a row for exactly that work from then on. */
  lemma RequestHasRow(es: Run, m: nat, k: nat, x: Enqueue)
    requires IsRun(es) && OneLibraryPerTarget(es) && m < k <= |es| && Asks(es[m], x)
    ensures exists id :: AskedFor(Row(es, k, id), x)
  {
    hide At, Next, Touched, Valid, Asks;
    RequestIsLive(es, m, m + 1, x);
    var id :| SameWork(Row(es, m + 1, id), x);
    Provenance(es, m + 1, id);
    RowPersists(es, m + 1, k, id);
    assert AskedFor(Row(es, k, id), x);
  }

  /** The moment the fan-out's last batch was in. */
  ghost predicate FannedOut(es: Run, batches: seq<seq<Enqueue>>, at: seq<nat>, last: nat) {
    IsRun(es) && OneLibraryPerTarget(es) && Placed(es, batches, at) && |at| > 0 && at[|at| - 1] == last
  }

  /** The row is outstanding work for the request, and running exactly when a claim on it is open. */
  ghost predicate StandsFor(es: Run, k: nat, id: JobId, x: Enqueue)
    requires k <= |es|
  {
    SameWork(Row(es, k, id), x) && IsLiveAt(es, k, id)
    && (Row(es, k, id).value.status == Running <==> OpenClaim(es, k, id).Some?)
  }

  /** After the fan-out's last batch every aggregate asked for is outstanding, whether new or already
      there; it is being run at that moment exactly when some worker has an open claim on it. */
  lemma AggregateAwaits(es: Run, batches: seq<seq<Enqueue>>, at: seq<nat>, last: nat, after: nat, x: Enqueue)
    requires FannedOut(es, batches, at, last) && after == last + 1 && x in batches[|batches| - 1]
    ensures exists id :: StandsFor(es, after, id, x)
  {
    hide At, Next, Touched, Valid;
    assert Asks(es[last], x);
    RequestIsLive(es, last, after, x);
    var id :| SameWork(Row(es, after, id), x) && IsLiveAt(es, after, id);
    OwnerIsOpenClaim(es, after, id);
    assert StandsFor(es, after, id, x);
  }

  /** An aggregate that nobody is running right after the fan-out runs only under a later claim. */
  lemma WaitingAggregateIsClaimedLater(es: Run, last: nat, k: nat, claim: nat, id: JobId)
    requires last < k <= |es| && IsOpenSince(es, claim, k, id)
    requires OpenClaim(es, last + 1, id).None?
    ensures last < claim
  {
    hide At, Next, Touched, Valid;
    if claim <= last { OpenInBetween(es, claim, last + 1, k, id); }
  }

  lemma OpenInBetween(es: Run, claim: nat, m: nat, k: nat, id: JobId)
    requires claim < m <= k <= |es| && IsOpenSince(es, claim, k, id)
    ensures OpenClaim(es, m, id) == Some(claim)
  {
    hide At, Next, Touched, Valid;
    OpenClaimMeaning(es, m, id);
    assert IsOpenSince(es, claim, m, id);
  }

  /** The fan-out theorem. Right after the fan-out's last batch nobody was running the aggregate; it is
      executed under a claim that was still open at some moment after that, up to the rebuild, and its
      handler counts after claiming. Nothing of the kind is enqueued for the library after the fan-out.
      Then at the rebuild every prerequisite of the library is succeeded or dead, and whatever the fan-out
      asked for has such a job. It does not matter whether the aggregate is new or was waiting from an
      earlier fan-out, nor whether its lease lapses before the rebuild. */
  lemma FanOutIsFinishedAtRebuild(es: Run, batches: seq<seq<Enqueue>>, at: seq<nat>, last: nat, aggregateJob: JobId,
                                  claim: nat, held: nat, counts: seq<nat>, rebuild: nat, libraryId: string,
                                  aggregate: JobType, b: nat, x: Enqueue)
    requires FannedOut(es, batches, at, last)
    requires CountedZero(es, counts, rebuild, libraryId, aggregate)
    requires OpenClaim(es, last + 1, aggregateJob).None?
    requires last < held <= rebuild && IsOpenSince(es, claim, held, aggregateJob)
    requires forall i :: 0 <= i < |counts| ==> claim < counts[i]
    requires forall m, t :: last < m < rebuild && t in Prerequisites(aggregate) ==> !Brings(es[m], libraryId, t)
    requires b < |batches| && x in batches[b] && x.jobType in Prerequisites(aggregate) && x.libraryId == libraryId
    ensures forall id, t :: t in Prerequisites(aggregate) && IsWork(Row(es, rebuild, id), libraryId, t) ==>
      Finished(Row(es, rebuild, id).value)
    ensures exists id :: AskedFor(Row(es, rebuild, id), x) && Finished(Row(es, rebuild, id).value)
  {
    hide At, Next, Touched, Valid, OpenClaim, IsOpenSince;
    WaitingAggregateIsClaimedLater(es, last, held, claim, aggregateJob);
    assert at[b] <= last;
    forall i, m | 0 <= i < |counts| && counts[i] <= m < rebuild
      ensures !Brings(es[m], libraryId, Prerequisites(aggregate)[i])
    {
      assert last < m && Prerequisites(aggregate)[i] in Prerequisites(aggregate);
    }
    RebuildSeesFinishedWork(es, counts, rebuild, libraryId, aggregate);
    RequestHasRow(es, at[b], rebuild, x);
    var id :| AskedFor(Row(es, rebuild, id), x);
    assert IsWork(Row(es, rebuild, id), libraryId, x.jobType);
  }

  // ----- what the premise is for -----

  const DUPLICATES := NewLibraryJob(BuildDuplicateGroups, "L")
  const SIMILAR := NewLibraryJob(BuildSimilarGroups, "L")
  const CLUSTERS := NewLibraryJob(BuildClusters, "L")
  const HASH := NewPhotoJob(ComputeFileHash, "P", "L")

  /** A fan-out over a library without new photos, and a second one, with one, that lands between a count
      and the rebuild. */
  const OVERLAP: Run := [
    Registered("W", 0),
    Enqueued(AggregateBatch("L"), 0),
    Claimed("W", 1, 60 * SECOND, {}, {0}, 0),
    Enqueued([HASH], 0),
    Enqueued(AggregateBatch("L"), 0)]

  lemma OneEnqueued(s: State, a: Enqueue)
    ensures EnqueueAll(s, [a], 0) == EnqueueOne(s, a, 0)
  {
    assert [a][..0] == [] && EnqueueAll(s, [], 0) == s;
  }

  lemma ThreeEnqueued(s: State, a: Enqueue, b: Enqueue, c: Enqueue)
    ensures EnqueueAll(s, [a, b, c], 0) == EnqueueOne(EnqueueOne(EnqueueOne(s, a, 0), b, 0), c, 0)
  {
    OneEnqueued(s, a);
    assert [a, b][..1] == [a] && [a, b, c][..2] == [a, b];
  }

  lemma KeysDiffer()
    ensures forall e, f :: e in [DUPLICATES, SIMILAR, CLUSTERS, HASH] && f in [DUPLICATES, SIMILAR, CLUSTERS, HASH] && e != f ==>
      DedupeKey(e.jobType, e.targetId) != DedupeKey(f.jobType, f.targetId)
  {
    forall e, f | e in [DUPLICATES, SIMILAR, CLUSTERS, HASH] && f in [DUPLICATES, SIMILAR, CLUSTERS, HASH] && e != f
      ensures DedupeKey(e.jobType, e.targetId) != DedupeKey(f.jobType, f.targetId)
    {
      DedupeKeyInjective(e.jobType, e.targetId, f.jobType, f.targetId);
    }
  }

  /** The three aggregates, the first in the given state. */
  function Aggregates(first: Job): map<JobId, Job> {
    map[0 := first, 1 := NewJob(SIMILAR, 0), 2 := NewJob(CLUSTERS, 0)]
  }

  function Rebuilding(): Job { Leased(NewJob(DUPLICATES, 0), "W", 60 * SECOND, 0) }

  lemma AggregatesEnqueued(s: State)
    requires s.jobs == map[] && s.nextId == 0
    ensures var t := Next(s, OVERLAP[1]); t.jobs == Aggregates(NewJob(DUPLICATES, 0)) && t.nextId == 3 && t.workers == s.workers
  {
    KeysDiffer();
    ThreeEnqueued(s, DUPLICATES, SIMILAR, CLUSTERS);
    assert AggregateBatch("L") == [DUPLICATES, SIMILAR, CLUSTERS];
    hide EnqueueAll, DedupeKey;
    var t1 := EnqueueOne(s, DUPLICATES, 0);
    assert t1.jobs == map[0 := NewJob(DUPLICATES, 0)];
    var t2 := EnqueueOne(t1, SIMILAR, 0);
    assert t2.jobs == map[0 := NewJob(DUPLICATES, 0), 1 := NewJob(SIMILAR, 0)];
  }

  lemma DuplicatesClaimed(s: State)
    requires s.jobs == Aggregates(NewJob(DUPLICATES, 0)) && s.nextId == 3 && "W" in s.workers
    ensures Valid(s, OVERLAP[2])
    ensures var t := Next(s, OVERLAP[2]); t.jobs == Aggregates(Rebuilding()) && t.nextId == 3
  {
    assert Claimable(s, {}, 0) == {0, 1, 2};
    assert IsClaimChoice(s, 1, {}, 0, {0});
    hide Valid;
    assert Update(s, OVERLAP[2]) == Aggregates(Rebuilding());
  }

  lemma HashEnqueued(s: State)
    requires s.jobs == Aggregates(Rebuilding()) && s.nextId == 3
    ensures var t := Next(s, OVERLAP[3]); t.jobs == Aggregates(Rebuilding())[3 := NewJob(HASH, 0)] && t.nextId == 4
  {
    KeysDiffer();
    OneEnqueued(s, HASH);
    hide EnqueueAll, DedupeKey;
    assert forall id :: id in s.jobs ==> s.jobs[id].dedupeKey != DedupeKey(HASH.jobType, HASH.targetId);
  }

  /** All three requests are absorbed, the first by the aggregate that is being run. */
  lemma AggregatesAbsorbed(s: State)
    requires s.jobs == Aggregates(Rebuilding())[3 := NewJob(HASH, 0)]
    ensures Next(s, OVERLAP[4]).jobs == s.jobs
  {
    ThreeEnqueued(s, DUPLICATES, SIMILAR, CLUSTERS);
    assert AggregateBatch("L") == [DUPLICATES, SIMILAR, CLUSTERS];
    hide EnqueueAll, DedupeKey;
    assert 0 in s.jobs && 1 in s.jobs && 2 in s.jobs;
    var t1 := EnqueueOne(s, DUPLICATES, 0);
    assert t1.jobs == s.jobs;
    var t2 := EnqueueOne(t1, SIMILAR, 0);
    assert t2.jobs == s.jobs;
  }

  lemma OverlapStates()
    ensures At(OVERLAP, 3).jobs == Aggregates(Rebuilding())
    ensures At(OVERLAP, 5).jobs == Aggregates(Rebuilding())[3 := NewJob(HASH, 0)]
    ensures Valid(At(OVERLAP, 2), OVERLAP[2])
  {
    assert At(OVERLAP, 1) == Next(EMPTY, OVERLAP[0]);
    assert At(OVERLAP, 1).jobs == map[] && At(OVERLAP, 1).nextId == 0 && "W" in At(OVERLAP, 1).workers;
    hide Next, Valid, Aggregates, Rebuilding;
    assert At(OVERLAP, 2) == Next(At(OVERLAP, 1), OVERLAP[1]);
    AggregatesEnqueued(At(OVERLAP, 1));
    assert At(OVERLAP, 3) == Next(At(OVERLAP, 2), OVERLAP[2]);
    DuplicatesClaimed(At(OVERLAP, 2));
    assert At(OVERLAP, 4) == Next(At(OVERLAP, 3), OVERLAP[3]);
    HashEnqueued(At(OVERLAP, 3));
    assert At(OVERLAP, 5) == Next(At(OVERLAP, 4), OVERLAP[4]);
    AggregatesAbsorbed(At(OVERLAP, 4));
  }

  lemma OverlapIsRun()
    ensures IsRun(OVERLAP)
  {
    OverlapStates();
    hide At, Next;
    forall k | 0 <= k < |OVERLAP| ensures Valid(At(OVERLAP, k), OVERLAP[k]) {
      if k != 2 { assert !OVERLAP[k].Claimed?; }
    }
  }

  /** Without the premise the barrier fails: the rebuild runs over a library with a hash outstanding,
      and because the running aggregate absorbs the second request, no later one will look again. */
  lemma FanOutDuringRebuildIsMissed()
    ensures IsRun(OVERLAP)
    ensures CountedZero(OVERLAP, [3], 5, "L", BuildDuplicateGroups)
    ensures Outstanding(At(OVERLAP, 5), "L", ComputeFileHash) != {}
    ensures forall id :: id in At(OVERLAP, 5).jobs && At(OVERLAP, 5).jobs[id].jobType == BuildDuplicateGroups ==>
      At(OVERLAP, 5).jobs[id].status == Running
  {
    OverlapStates();
    OverlapIsRun();
    hide At, Next, IsRun, Valid;
    assert 3 in Outstanding(At(OVERLAP, 5), "L", ComputeFileHash);
  }
}
