/** The store's queue methods (internal/store/jobs.go, internal/store/workers.go) as statements that
    rewrite the table in place. Each one is proved to be the corresponding step of `JobQueue`. */
module JobStore {
  import opened Options
  import opened Jobs
  import opened JobQueue

  datatype ClaimResult = ClaimedRows(rows: map<JobId, Job>) | ForeignKeyViolation

  /** The row ORDER BY priority, id puts first. */
  predicate IsFirst(jobs: map<JobId, Job>, ids: set<JobId>, id: JobId)
    requires ids <= jobs.Keys
  {
    id in ids && forall other :: other in ids && other != id ==> Before(jobs, id, other)
  }

  lemma FirstIsBefore(jobs: map<JobId, Job>, ids: set<JobId>, id: JobId)
    requires ids <= jobs.Keys && IsFirst(jobs, ids, id)
    ensures id in ids && forall other :: other in ids && other != id ==> Before(jobs, id, other)
  {}

  /** Some first row exists in every non-empty set, so a LIMIT can be filled one row at a time. */
  lemma {:induction false} FirstExists(jobs: map<JobId, Job>, ids: set<JobId>)
    requires ids != {} && ids <= jobs.Keys
    ensures exists id :: id in ids && IsFirst(jobs, ids, id)
  {
    var x :| x in ids;
    var rest := ids - {x};
    if rest == {} {
      assert ids == {x};
      assert IsFirst(jobs, ids, x);
    } else {
      FirstExists(jobs, rest);
      var y :| y in rest && IsFirst(jobs, rest, y);
      var first := if Before(jobs, x, y) then x else y;
      forall other | other in ids && other != first ensures Before(jobs, first, other) {
        if other != x && other != y { assert Before(jobs, y, other); }
      }
      assert IsFirst(jobs, ids, first);
    }
  }

  /** What it takes for a rewritten table to be the result of a statement. */
  lemma UpdateIs(s: State, e: Event, hit: set<JobId>, after: map<JobId, Job>)
    requires after.Keys == s.jobs.Keys && hit == Touched(s, e)
    requires forall id :: id in after ==> after[id] == if id in hit then Rewritten(e, s.jobs[id]) else s.jobs[id]
    ensures after == Update(s, e)
  {}

  /** ORDER BY priority, id LIMIT limit: the first rows of `all`, one at a time. */
  method TakeFirst(jobs: map<JobId, Job>, all: set<JobId>, limit: int) returns (picked: set<JobId>)
    requires all <= jobs.Keys
    ensures picked <= all
    ensures |picked| == if limit <= 0 then 0 else if limit < |all| then limit else |all|
    ensures forall a, b :: a in picked && b in all - picked ==> Before(jobs, a, b)
  {
    hide Before, IsFirst;
    var rest := all;
    picked := {};
    while rest != {} && |picked| < limit
      invariant rest <= all && picked == all - rest
      invariant |picked| <= (if limit <= 0 then 0 else limit) && |rest| + |picked| == |all|
      invariant forall a, b :: a in picked && b in rest ==> Before(jobs, a, b)
      decreases |rest|
    {
      FirstExists(jobs, rest);
      var id :| id in rest && IsFirst(jobs, rest, id);
      FirstIsBefore(jobs, rest, id);
      rest, picked := rest - {id}, picked + {id};
    }
  }

  // ----- what the statements select and write, column by column -----

  /** Pending, due, and not locked by another transaction. */
  predicate Runnable(j: Job, isLocked: bool, now: Time) { j.status == Pending && j.nextAttemptAt <= now && !isLocked }

  /** Only runnable rows are picked, at most `limit` of them; where one is left behind, the limit is
      reached and every picked row has a smaller priority number, or the same and a smaller id. */
  ghost predicate TakesFirst(jobs: map<JobId, Job>, limit: int, locked: set<JobId>, now: Time, picked: set<JobId>) {
    && (forall a :: a in picked ==> a in jobs && Runnable(jobs[a], a in locked, now))
    && (|picked| == 0 || |picked| <= limit)
    && (forall b :: b in jobs && b !in picked && Runnable(jobs[b], b in locked, now) ==>
          |picked| >= limit
          && forall a :: a in picked && a in jobs ==>
            jobs[a].priority <= jobs[b].priority && (jobs[a].priority == jobs[b].priority ==> a < b))
  }

  lemma ChoiceTakesFirst(s: State, limit: int, locked: set<JobId>, now: Time, picked: set<JobId>)
    requires IsClaimChoice(s, limit, locked, now, picked)
    ensures TakesFirst(s.jobs, limit, locked, now, picked)
  {
    var all := Claimable(s, locked, now);
    forall b | b in s.jobs && b !in picked && Runnable(s.jobs[b], b in locked, now)
      ensures |picked| >= limit
      ensures forall a :: a in picked && a in s.jobs ==>
        s.jobs[a].priority <= s.jobs[b].priority && (s.jobs[a].priority == s.jobs[b].priority ==> a < b)
    {
      assert b in all - picked;
      SmallerThan(picked, all);
    }
  }

  lemma ChoiceIsEmpty(s: State, limit: int, locked: set<JobId>, now: Time, picked: set<JobId>)
    requires IsClaimChoice(s, limit, locked, now, picked)
    ensures picked <= s.jobs.Keys && (picked != {} <==> limit > 0 && Claimable(s, locked, now) != {})
  {}

  lemma SmallerThan<T>(a: set<T>, b: set<T>)
    requires a <= b && b - a != {}
    ensures |a| < |b|
  {
    assert b == a + (b - a);
  }

  lemma LeasedColumns(before: map<JobId, Job>, after: map<JobId, Job>, picked: set<JobId>, worker: WorkerId, lease: Time, now: Time)
    requires after.Keys == before.Keys
    requires forall id :: id in after ==> after[id] == if id in picked then Leased(before[id], worker, lease, now) else before[id]
    ensures after == map id | id in before :: if id !in picked then before[id] else before[id].(
      status := Running, leasedBy := Some(worker), leaseExpiresAt := Some(now + lease),
      attemptCount := before[id].attemptCount + 1,
      startedAt := if before[id].startedAt.Some? then before[id].startedAt else Some(now))
  {}

  /** A row as the table has it right after INSERT. */
  ghost predicate IsNew(j: Job, e: Enqueue, now: Time) {
    && j.jobType == e.jobType && j.targetType == e.targetType && j.targetId == e.targetId && j.libraryId == e.libraryId
    && j.dedupeKey == e.jobType.Name() + ":" + e.targetId && j.priority == e.priority
    && j.status == Pending && j.attemptCount == 0 && j.maxAttempts == (if e.maxAttempts > 0 then e.maxAttempts else 5)
    && j.leasedBy == None && j.leaseExpiresAt == None && j.nextAttemptAt == now
    && j.lastError == None && j.startedAt == None && j.completedAt == None
  }

  ghost predicate IsLiveFor(j: Job, e: Enqueue) {
    (j.status == Pending || j.status == Running) && j.jobType == e.jobType && j.targetId == e.targetId
  }

  /** Old rows stay as they are, every new one is a request just inserted, and afterwards every request
      of the batch has a live job. */
  ghost predicate Adds(before: map<JobId, Job>, after: map<JobId, Job>, batch: seq<Enqueue>, now: Time) {
    && (forall id :: id in before ==> id in after && after[id] == before[id])
    && (forall id :: id in after && id !in before ==> exists e :: e in batch && IsNew(after[id], e, now))
    && (forall e :: e in batch ==> exists id :: id in after && IsLiveFor(after[id], e))
  }

  lemma {:induction false} BatchAdds(s: State, batch: seq<Enqueue>, now: Time)
    requires Consistent(s)
    ensures Consistent(EnqueueAll(s, batch, now)) && Adds(s.jobs, EnqueueAll(s, batch, now).jobs, batch, now)
  {
    hide Consistent, Adds, EnqueueOne;
    EnqueueKeeps(s, batch, now);
    if batch == [] { NothingAdds(s.jobs, now); }
    if batch != [] {
      var init, e := batch[..|batch| - 1], batch[|batch| - 1];
      BatchAdds(s, init, now);
      OneAdds(EnqueueAll(s, init, now), e, now);
      assert batch == init + [e];
      AddsChain(s.jobs, EnqueueAll(s, init, now).jobs, EnqueueAll(s, batch, now).jobs, init, e, now);
    }
  }

  lemma NothingAdds(jobs: map<JobId, Job>, now: Time)
    ensures Adds(jobs, jobs, [], now)
  {}

  lemma OneAdds(s: State, e: Enqueue, now: Time)
    requires Consistent(s)
    ensures Adds(s.jobs, EnqueueOne(s, e, now).jobs, [e], now)
  {
    FreshId(s);
    var after, key := EnqueueOne(s, e, now).jobs, DedupeKey(e.jobType, e.targetId);
    if id :| id in s.jobs && s.jobs[id].status.IsLive() && s.jobs[id].dedupeKey == key {
      assert RowOk(id, s.jobs[id], s);
      DedupeKeyInjective(s.jobs[id].jobType, s.jobs[id].targetId, e.jobType, e.targetId);
      assert IsLiveFor(after[id], e);
    } else {
      assert IsNew(after[s.nextId], e, now) && IsLiveFor(after[s.nextId], e);
    }
  }

  lemma AddsChain(a: map<JobId, Job>, b: map<JobId, Job>, c: map<JobId, Job>, init: seq<Enqueue>, e: Enqueue, now: Time)
    requires Adds(a, b, init, now) && Adds(b, c, [e], now)
    ensures Adds(a, c, init + [e], now)
  {
    hide IsNew, IsLiveFor;
    forall id | id in c && id !in a ensures exists x :: x in init + [e] && IsNew(c[id], x, now) {
      if id in b {
        var x :| x in init && IsNew(b[id], x, now);
      } else {
        var x :| x in [e] && IsNew(c[id], x, now);
      }
    }
    forall x | x in init + [e] ensures exists id :: id in c && IsLiveFor(c[id], x) {
      if x in init {
        var id :| id in b && IsLiveFor(b[id], x);
        assert c[id] == b[id];
      } else {
        assert x in [e];
      }
    }
  }

  /** A running, unlocked row whose lease has lapsed goes to the queue after a delay, or is dead when its
      attempts are spent; every other row stays as it is. */
  function AfterReap(j: Job, isLocked: bool, backoff: Time, now: Time): Job {
    if j.status != Running || j.leaseExpiresAt.None? || now <= j.leaseExpiresAt.value || isLocked then j
    else
      var taken := j.(leasedBy := None, leaseExpiresAt := None, lastError := Some(LeaseExpired(j.attemptCount, j.maxAttempts)));
      if j.attemptCount < j.maxAttempts then taken.(status := Pending, nextAttemptAt := now + backoff, completedAt := None)
      else taken.(status := Dead, completedAt := Some(now))
  }

  lemma ReapedRow(s: State, locked: set<JobId>, backoff: Time, now: Time, id: JobId)
    requires id in s.jobs
    ensures var e := Reaped(locked, backoff, now);
      (if id in Touched(s, e) then Rewritten(e, s.jobs[id]) else s.jobs[id]) == AfterReap(s.jobs[id], id in locked, backoff, now)
  {}

  predicate LongGone(w: Worker, olderThan: Time, now: Time) {
    (w.status == Stopped || w.status == DeadWorker) && w.stoppedAt.Some? && now - w.stoppedAt.value > olderThan
  }

  predicate Idle(jobs: map<JobId, Job>, w: WorkerId) {
    forall id :: id in jobs && jobs[id].status == Running ==> jobs[id].leasedBy != Some(w)
  }

  class Store {
    var jobs: map<JobId, Job>
    var workers: map<WorkerId, Worker>
    var nextId: JobId

    ghost function View(): State
      reads this
    {
      State(jobs, workers, nextId)
    }

    constructor ()
      ensures View() == EMPTY
    {
      jobs, workers, nextId := map[], map[], 0;
    }

    /** Inserts the batch row by row, skipping rows whose key is outstanding; returns how many were new. */
    method EnqueueJobs(batch: seq<Enqueue>, now: Time) returns (inserted: nat)
      modifies this
      ensures View() == Next(old(View()), Enqueued(batch, now))
      ensures Consistent(old(View())) ==> inserted == |jobs| - |old(jobs)|
      ensures workers == old(workers)
      ensures Consistent(old(View())) ==> Adds(old(jobs), jobs, batch, now)
    {
      if Consistent(View()) { BatchAdds(View(), batch, now); }
      hide Adds, Consistent, NewJob, DedupeKey;
      inserted := 0;
      assert batch[..0] == [];
      for i := 0 to |batch|
        invariant workers == old(workers)
        invariant View() == EnqueueAll(old(View()), batch[..i], now)
        invariant Consistent(old(View())) ==> inserted == |jobs| - |old(jobs)|
      {
        ghost var before := View();
        if Consistent(old(View())) { EnqueueKeeps(old(View()), batch[..i], now); }
        var e := batch[i];
        var key := DedupeKey(e.jobType, e.targetId);
        if !(exists id :: id in jobs && jobs[id].status.IsLive() && jobs[id].dedupeKey == key) {
          if Consistent(old(View())) { assert nextId !in jobs by { FreshId(before); } }
          jobs := jobs[nextId := NewJob(e, now)];
          inserted := inserted + 1;
        }
        nextId := nextId + 1;
        assert batch[..i + 1][..i] == batch[..i];
      }
      assert batch[..|batch|] == batch;
    }

    /** SELECT id ... WHERE pending and due ORDER BY priority, id LIMIT limit FOR UPDATE SKIP LOCKED. */
    method SelectRunnable(limit: int, locked: set<JobId>, now: Time) returns (picked: set<JobId>)
      ensures IsClaimChoice(View(), limit, locked, now, picked)
      ensures TakesFirst(jobs, limit, locked, now, picked)
    {
      var all := set id | id in jobs && jobs[id].status == Pending && jobs[id].nextAttemptAt <= now && id !in locked;
      picked := TakeFirst(jobs, all, limit);
      ChoiceTakesFirst(View(), limit, locked, now, picked);
    }

    /** Leases up to `limit` runnable jobs. Rows in `locked` belong to other transactions. */
    method ClaimJobs(worker: WorkerId, limit: int, lease: Time, locked: set<JobId>, now: Time)
        returns (r: ClaimResult)
      modifies this
      ensures r.ClaimedRows? ==>
        var e := Claimed(worker, limit, lease, locked, r.rows.Keys, now);
        Valid(old(View()), e) && View() == Next(old(View()), e)
        && forall id :: id in r.rows ==> id in jobs && r.rows[id] == jobs[id]
      ensures r.ForeignKeyViolation? <==>
        limit > 0 && worker !in old(workers) && Claimable(old(View()), locked, now) != {}
      ensures r.ForeignKeyViolation? ==> View() == old(View())
      ensures r.ClaimedRows? ==>
        TakesFirst(old(jobs), limit, locked, now, r.rows.Keys) && workers == old(workers)
        && jobs == map id | id in old(jobs) :: if id !in r.rows then old(jobs)[id] else old(jobs)[id].(
          status := Running, leasedBy := Some(worker), leaseExpiresAt := Some(now + lease),
          attemptCount := old(jobs)[id].attemptCount + 1,
          startedAt := if old(jobs)[id].startedAt.Some? then old(jobs)[id].startedAt else Some(now))
    {
      var picked := SelectRunnable(limit, locked, now);
      ChoiceIsEmpty(View(), limit, locked, now, picked);
      hide TakesFirst, IsClaimChoice, Claimable, Next;
      if picked != {} && worker !in workers {
        return ForeignKeyViolation;
      }
      var rows := LeaseRows(worker, limit, lease, locked, picked, now);
      assert rows.Keys == picked;
      r := ClaimedRows(rows);
    }

    /** UPDATE ... RETURNING, over the rows selected. */
    method LeaseRows(worker: WorkerId, limit: int, lease: Time, locked: set<JobId>, picked: set<JobId>, now: Time)
        returns (rows: map<JobId, Job>)
      requires picked <= jobs.Keys
      modifies this
      ensures rows.Keys == picked && forall id :: id in rows ==> id in jobs && rows[id] == jobs[id]
      ensures View() == Next(old(View()), Claimed(worker, limit, lease, locked, picked, now))
      ensures workers == old(workers)
      ensures jobs == map id | id in old(jobs) :: if id !in picked then old(jobs)[id] else old(jobs)[id].(
        status := Running, leasedBy := Some(worker), leaseExpiresAt := Some(now + lease),
        attemptCount := old(jobs)[id].attemptCount + 1,
        startedAt := if old(jobs)[id].startedAt.Some? then old(jobs)[id].startedAt else Some(now))
    {
      hide Leased, Update;
      jobs := map id | id in jobs ::
        if id in picked then Leased(jobs[id], worker, lease, now) else jobs[id];
      UpdateIs(old(View()), Claimed(worker, limit, lease, locked, picked, now), picked, jobs);
      LeasedColumns(old(jobs), jobs, picked, worker, lease, now);
      rows := map id | id in picked :: jobs[id];
    }

    /** Marks a job succeeded, unless the lease is no longer this worker's. */
    method CompleteJob(id: JobId, worker: WorkerId, now: Time) returns (applied: bool)
      modifies this
      ensures View() == Next(old(View()), Completed(id, worker, now))
      ensures applied <==> HeldBy(old(View()), id, worker)
      ensures !applied ==> View() == old(View())
      ensures applied <==> id in old(jobs) && old(jobs)[id].status == Running && old(jobs)[id].leasedBy == Some(worker)
      ensures applied ==> workers == old(workers) && jobs == old(jobs)[id := old(jobs)[id].(
        status := Succeeded, leasedBy := None, leaseExpiresAt := None, completedAt := Some(now), lastError := None)]
    {
      applied := id in jobs && jobs[id].leasedBy == Some(worker) && jobs[id].status == Running;
      if applied {
        jobs := jobs[id := Done(jobs[id], now)];
      }
      assert jobs == Update(old(View()), Completed(id, worker, now));
    }

    /** Schedules a retry or kills the job; one statement decides which. */
    method FailJob(id: JobId, worker: WorkerId, message: string, backoff: Time, permanent: bool, now: Time)
        returns (dead: bool, applied: bool)
      modifies this
      ensures View() == Next(old(View()), Failed(id, worker, message, backoff, permanent, now))
      ensures applied <==> HeldBy(old(View()), id, worker)
      ensures dead <==> applied && (permanent || old(jobs)[id].attemptCount >= old(jobs)[id].maxAttempts)
      ensures dead <==> applied && id in jobs && jobs[id].status == Dead
      ensures applied <==> id in old(jobs) && old(jobs)[id].status == Running && old(jobs)[id].leasedBy == Some(worker)
      ensures workers == old(workers) && (!applied ==> jobs == old(jobs))
      ensures applied && dead ==> jobs == old(jobs)[id := old(jobs)[id].(
        status := Dead, leasedBy := None, leaseExpiresAt := None, completedAt := Some(now),
        lastError := Some(Reported(message)))]
      ensures applied && !dead ==> jobs == old(jobs)[id := old(jobs)[id].(
        status := Pending, leasedBy := None, leaseExpiresAt := None, nextAttemptAt := now + backoff,
        completedAt := None, lastError := Some(Reported(message)))]
    {
      applied := id in jobs && jobs[id].leasedBy == Some(worker) && jobs[id].status == Running;
      dead := false;
      if applied {
        dead := permanent || jobs[id].attemptCount >= jobs[id].maxAttempts;
        jobs := jobs[id := SentBack(jobs[id], dead, backoff, Reported(message), now)];
      }
      assert jobs == Update(old(View()), Failed(id, worker, message, backoff, permanent, now));
    }

    /** Reschedules a job and gives back the attempt its claim consumed. */
    method DeferJob(id: JobId, worker: WorkerId, after: Time, reason: string, now: Time) returns (applied: bool)
      modifies this
      ensures View() == Next(old(View()), Deferred(id, worker, after, reason, now))
      ensures applied <==> HeldBy(old(View()), id, worker)
      ensures applied && Consistent(old(View())) ==> jobs[id].attemptCount == old(jobs)[id].attemptCount - 1
      ensures applied <==> id in old(jobs) && old(jobs)[id].status == Running && old(jobs)[id].leasedBy == Some(worker)
      ensures workers == old(workers) && (!applied ==> jobs == old(jobs))
      ensures applied ==> jobs == old(jobs)[id := old(jobs)[id].(
        status := Pending, leasedBy := None, leaseExpiresAt := None, nextAttemptAt := now + after,
        attemptCount := if old(jobs)[id].attemptCount > 0 then old(jobs)[id].attemptCount - 1 else 0,
        lastError := Some(Reported(reason)))]
    {
      applied := id in jobs && jobs[id].leasedBy == Some(worker) && jobs[id].status == Running;
      if applied {
        if Consistent(View()) { assert RowOk(id, jobs[id], View()); }
        jobs := jobs[id := PutOff(jobs[id], after, reason, now)];
      }
      assert jobs == Update(old(View()), Deferred(id, worker, after, reason, now));
    }

    /** Extends every lease the worker holds. */
    method RenewLeases(worker: WorkerId, lease: Time, now: Time) returns (extended: nat)
      modifies this
      ensures View() == Next(old(View()), Renewed(worker, lease, now))
      ensures extended == |set id | id in old(jobs) && HeldBy(old(View()), id, worker)|
      ensures workers == old(workers) && jobs == map id | id in old(jobs) ::
        if old(jobs)[id].status == Running && old(jobs)[id].leasedBy == Some(worker)
        then old(jobs)[id].(leaseExpiresAt := Some(now + lease)) else old(jobs)[id]
    {
      var hit := set id | id in jobs && jobs[id].leasedBy == Some(worker) && jobs[id].status == Running;
      jobs := map id | id in jobs ::
        if id in hit then jobs[id].(leaseExpiresAt := Some(now + lease)) else jobs[id];
      assert hit == set id | id in old(jobs) && HeldBy(old(View()), id, worker);
      extended := |hit|;
      UpdateIs(old(View()), Renewed(worker, lease, now), hit, jobs);
    }

    /** Returns the worker's jobs to the queue, due at once. Attempts stay spent. */
    method ReleaseWorkerLeases(worker: WorkerId, now: Time) returns (released: nat)
      modifies this
      ensures View() == Next(old(View()), Released(worker, now))
      ensures released == |set id | id in old(jobs) && HeldBy(old(View()), id, worker)|
      ensures forall id :: id in jobs ==> !HeldBy(View(), id, worker)
      ensures workers == old(workers) && jobs == map id | id in old(jobs) ::
        if old(jobs)[id].status == Running && old(jobs)[id].leasedBy == Some(worker)
        then old(jobs)[id].(status := Pending, leasedBy := None, leaseExpiresAt := None, nextAttemptAt := now)
        else old(jobs)[id]
    {
      var hit := set id | id in jobs && jobs[id].leasedBy == Some(worker) && jobs[id].status == Running;
      jobs := map id | id in jobs ::
        if id in hit then GivenUp(jobs[id], now) else jobs[id];
      assert hit == set id | id in old(jobs) && HeldBy(old(View()), id, worker);
      released := |hit|;
      UpdateIs(old(View()), Released(worker, now), hit, jobs);
    }

    /** The `expired` subquery, and which of its rows have no attempts left. */
    method SelectExpired(backoff: Time, locked: set<JobId>, now: Time) returns (expired: set<JobId>, spent: set<JobId>)
      ensures expired == Touched(View(), Reaped(locked, backoff, now))
      ensures spent == set id | id in expired && Exhausted(jobs[id])
    {
      expired := set id | id in jobs && jobs[id].status == Running && jobs[id].leaseExpiresAt.Some?
        && jobs[id].leaseExpiresAt.value < now && id !in locked;
      spent := set id | id in expired && jobs[id].attemptCount >= jobs[id].maxAttempts;
    }

    /** Takes back every lapsed, unlocked lease: to the queue, or to dead when attempts are spent. */
    method ReapExpiredLeases(backoff: Time, locked: set<JobId>, now: Time) returns (requeued: nat, died: nat)
      modifies this
      ensures View() == Next(old(View()), Reaped(locked, backoff, now))
      ensures requeued + died == |Touched(old(View()), Reaped(locked, backoff, now))|
      ensures died ==
        |set id | id in Touched(old(View()), Reaped(locked, backoff, now)) && Exhausted(old(jobs)[id])|
      ensures workers == old(workers) && jobs.Keys == old(jobs).Keys
      ensures forall id :: id in jobs ==> jobs[id] == AfterReap(old(jobs)[id], id in locked, backoff, now)
    {
      hide SentBack, Touched, Exhausted;
      var expired, spent := SelectExpired(backoff, locked, now);
      assert expired == (expired - spent) + spent;
      requeued, died := |expired - spent|, |spent|;
      jobs := map id | id in jobs ::
        if id in expired then
          SentBack(jobs[id], id in spent, backoff, LeaseExpired(jobs[id].attemptCount, jobs[id].maxAttempts), now)
        else jobs[id];
      UpdateIs(old(View()), Reaped(locked, backoff, now), expired, jobs);
      hide AfterReap;
      forall id | id in jobs ensures jobs[id] == AfterReap(old(jobs)[id], id in locked, backoff, now) {
        ReapedRow(old(View()), locked, backoff, now, id);
      }
    }

    /** How many jobs of a type are pending or running for a library. */
    method CountOutstandingJobsOfType(libraryId: string, t: JobType) returns (n: nat)
      ensures n == 0 <==> forall id :: id in jobs && jobs[id].libraryId == libraryId && jobs[id].jobType == t ==>
        Finished(jobs[id])
      ensures n == |set id | id in jobs && jobs[id].libraryId == libraryId && jobs[id].jobType == t && jobs[id].status.IsLive()|
    {
      var live := set id | id in jobs && jobs[id].libraryId == libraryId && jobs[id].jobType == t && jobs[id].status.IsLive();
      n := |live|;
      forall id | id in jobs && jobs[id].libraryId == libraryId && jobs[id].jobType == t && n == 0
        ensures Finished(jobs[id])
      {
        assert id !in live;
      }
    }

    /** Idempotent registration: a retried insert re-activates the same row. */
    method RegisterWorker(worker: WorkerId, now: Time)
      modifies this
      ensures View() == Next(old(View()), Registered(worker, now))
      ensures jobs == old(jobs) && workers == old(workers)[worker := Worker(Active, now, None)]
    {
      workers := workers[worker := Worker(Active, now, None)];
      assert jobs == Update(old(View()), Registered(worker, now));
    }

    /** Returns whether the row still says active. */
    method RecordHeartbeat(worker: WorkerId, now: Time) returns (stillActive: bool)
      modifies this
      ensures View() == Next(old(View()), Heartbeat(worker, now))
      ensures stillActive <==> worker in workers && workers[worker].status == Active
      ensures jobs == old(jobs) && workers ==
        if stillActive then old(workers)[worker := old(workers)[worker].(lastHeartbeatAt := now)] else old(workers)
    {
      stillActive := worker in workers && workers[worker].status == Active;
      if stillActive {
        workers := workers[worker := workers[worker].(lastHeartbeatAt := now)];
      }
      assert jobs == Update(old(View()), Heartbeat(worker, now));
    }

    method UnregisterWorker(worker: WorkerId, now: Time)
      modifies this
      ensures View() == Next(old(View()), Unregistered(worker, now))
      ensures jobs == old(jobs) && workers == if worker !in old(workers) then old(workers)
        else old(workers)[worker := old(workers)[worker].(status := Stopped, stoppedAt := Some(now))]
    {
      if worker in workers {
        workers := workers[worker := workers[worker].(status := Stopped, stoppedAt := Some(now))];
      }
      assert jobs == Update(old(View()), Unregistered(worker, now));
    }

    /** Marks silent workers dead. Their jobs are untouched: lease expiry handles those. */
    method ReapDeadWorkers(threshold: Time, now: Time) returns (marked: nat)
      modifies this
      ensures View() == Next(old(View()), DeadMarked(threshold, now))
      ensures jobs == old(jobs) && workers.Keys == old(workers).Keys
      ensures marked == |set w | w in workers && old(workers)[w].status == Active && workers[w].status == DeadWorker|
      ensures workers == map w | w in old(workers) ::
        if old(workers)[w].status == Active && now - old(workers)[w].lastHeartbeatAt > threshold
        then old(workers)[w].(status := DeadWorker, stoppedAt := Some(now)) else old(workers)[w]
    {
      var silent := set w | w in workers && workers[w].status == Active && workers[w].lastHeartbeatAt < now - threshold;
      workers := map w | w in workers ::
        if w in silent then workers[w].(status := DeadWorker, stoppedAt := Some(now)) else workers[w];
      assert silent == set w | w in workers && old(workers)[w].status == Active && workers[w].status == DeadWorker;
      marked := |silent|;
      assert jobs == Update(old(View()), DeadMarked(threshold, now));
    }

    /** The rows a purge deletes: stopped or dead for long, and holding no running job. */
    method SelectPurgeable(olderThan: Time, now: Time) returns (gone: set<WorkerId>)
      ensures gone == Purgeable(View(), olderThan, now)
      ensures forall w :: w in gone <==> w in workers && LongGone(workers[w], olderThan, now) && Idle(jobs, w)
    {
      gone := set w | w in workers
        && (workers[w].status == Stopped || workers[w].status == DeadWorker)
        && workers[w].stoppedAt.Some? && workers[w].stoppedAt.value < now - olderThan
        && !(exists id :: id in jobs && jobs[id].status == Running && jobs[id].leasedBy == Some(w));
    }

    /** Deletes long-gone worker rows that own no running job, and returns how many. */
    method PurgeOldWorkers(olderThan: Time, now: Time) returns (purged: nat)
      modifies this
      ensures View() == Next(old(View()), Purged(olderThan, now))
      ensures Consistent(old(View())) ==> jobs == old(jobs)
      ensures purged == |old(workers).Keys - workers.Keys|
      ensures forall w :: w in workers ==> w in old(workers) && workers[w] == old(workers)[w]
      ensures forall w :: w in old(workers) ==>
        (w !in workers <==> LongGone(old(workers)[w], olderThan, now) && Idle(old(jobs), w))
    {
      var gone := SelectPurgeable(olderThan, now);
      PurgeableExist(View(), olderThan, now);
      if Consistent(View()) { PurgeOrphansNothing(View(), olderThan, now); }
      hide Purgeable, Consistent, LongGone, Idle;
      jobs := map id | id in jobs ::
        if jobs[id].leasedBy.Some? && jobs[id].leasedBy.value in gone then jobs[id].(leasedBy := None) else jobs[id];
      workers := workers - gone;
      assert old(workers).Keys - workers.Keys == gone;
      purged := |gone|;
    }
  }

  lemma PurgeableExist(s: State, olderThan: Time, now: Time)
    ensures Purgeable(s, olderThan, now) <= s.workers.Keys
  {}

  lemma FreshId(s: State)
    requires Consistent(s)
    ensures s.nextId !in s.jobs
  {
    assert s.nextId in s.jobs ==> RowOk(s.nextId, s.jobs[s.nextId], s);
  }
}
