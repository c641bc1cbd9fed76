/** The job table as a state machine (internal/store/jobs.go, internal/store/workers.go).

    Every statement the store issues is one atomic step. An `Event` names the statement and the
    choices the environment makes for it: the clock reading, which rows other transactions hold
    locked (SKIP LOCKED), and which rows a claim returns. `Touched` is the statement's WHERE clause,
    `Rewritten` its SET clause. */
module JobQueue {
  import opened Options
  import opened Jobs

  type JobId = nat
  type WorkerId = string
  type Time = int

  datatype LastError = Reported(text: string) | LeaseExpired(attempt: int, maxAttempts: int)

  datatype Job = Job(
    jobType: JobType, targetType: TargetType, targetId: string, libraryId: string, dedupeKey: string,
    status: Status, priority: int, attemptCount: int, maxAttempts: int,
    leasedBy: Option<WorkerId>, leaseExpiresAt: Option<Time>, nextAttemptAt: Time,
    lastError: Option<LastError>, startedAt: Option<Time>, completedAt: Option<Time>)

  datatype WorkerStatus = Active | Stopped | DeadWorker

  datatype Worker = Worker(status: WorkerStatus, lastHeartbeatAt: Time, stoppedAt: Option<Time>)

  datatype State = State(jobs: map<JobId, Job>, workers: map<WorkerId, Worker>, nextId: JobId)

  const EMPTY := State(map[], map[], 0)

  datatype Event =
    | Enqueued(batch: seq<Enqueue>, now: Time)
    | Claimed(worker: WorkerId, limit: int, lease: Time, locked: set<JobId>, picked: set<JobId>, now: Time)
    | Completed(id: JobId, worker: WorkerId, now: Time)
    | Failed(id: JobId, worker: WorkerId, message: string, backoff: Time, permanent: bool, now: Time)
    | Deferred(id: JobId, worker: WorkerId, after: Time, reason: string, now: Time)
    | Renewed(worker: WorkerId, lease: Time, now: Time)
    | Released(worker: WorkerId, now: Time)
    | Reaped(locked: set<JobId>, backoff: Time, now: Time)
    | Registered(worker: WorkerId, now: Time)
    | Heartbeat(worker: WorkerId, now: Time)
    | Unregistered(worker: WorkerId, now: Time)
    | DeadMarked(threshold: Time, now: Time)
    | Purged(olderThan: Time, now: Time)

  // ----- enqueueing -----

  function NewJob(e: Enqueue, now: Time): Job {
    Job(e.jobType, e.targetType, e.targetId, e.libraryId, DedupeKey(e.jobType, e.targetId),
        Pending, e.priority, 0, if e.maxAttempts <= 0 then DEFAULT_MAX_ATTEMPTS else e.maxAttempts,
        None, None, now, None, None, None)
  }

  /** The partial unique index: some pending or running job already carries the key. */
  predicate HasLive(jobs: map<JobId, Job>, key: string) {
    exists id :: id in jobs && jobs[id].status.IsLive() && jobs[id].dedupeKey == key
  }

  /** One row of the batch. The sequence behind `id` advances even when the row is a duplicate. */
  function EnqueueOne(s: State, e: Enqueue, now: Time): State {
    if HasLive(s.jobs, DedupeKey(e.jobType, e.targetId)) then s.(nextId := s.nextId + 1)
    else s.(jobs := s.jobs[s.nextId := NewJob(e, now)], nextId := s.nextId + 1)
  }

  function EnqueueAll(s: State, batch: seq<Enqueue>, now: Time): State {
    if batch == [] then s
    else EnqueueOne(EnqueueAll(s, batch[..|batch| - 1], now), batch[|batch| - 1], now)
  }

  // ----- claiming -----

  /** The rows a claim may see: pending, due, and not locked by another transaction. */
  function Claimable(s: State, locked: set<JobId>, now: Time): set<JobId> {
    set id | id in s.jobs && s.jobs[id].status == Pending && s.jobs[id].nextAttemptAt <= now && id !in locked
  }

  /** ORDER BY priority, id. */
  predicate Before(jobs: map<JobId, Job>, a: JobId, b: JobId)
    requires a in jobs && b in jobs
  {
    jobs[a].priority < jobs[b].priority || (jobs[a].priority == jobs[b].priority && a < b)
  }

  /** `picked` is what SELECT ... ORDER BY priority, id LIMIT limit FOR UPDATE SKIP LOCKED returns. */
  ghost predicate IsClaimChoice(s: State, limit: int, locked: set<JobId>, now: Time, picked: set<JobId>) {
    var all := Claimable(s, locked, now);
    && picked <= all
    && |picked| == (if limit <= 0 then 0 else if limit < |all| then limit else |all|)
    && forall a, b :: a in picked && b in all - picked ==> Before(s.jobs, a, b)
  }

  // ----- the UPDATE statements -----

  predicate HeldBy(s: State, id: JobId, w: WorkerId) {
    id in s.jobs && s.jobs[id].status == Running && s.jobs[id].leasedBy == Some(w)
  }

  predicate Expired(j: Job, now: Time) {
    j.status == Running && j.leaseExpiresAt.Some? && j.leaseExpiresAt.value < now
  }

  function Touched(s: State, e: Event): set<JobId> {
    match e
    case Claimed(_, _, _, _, picked, _) => set id | id in picked && id in s.jobs
    case Completed(id, w, _) => if HeldBy(s, id, w) then {id} else {}
    case Failed(id, w, _, _, _, _) => if HeldBy(s, id, w) then {id} else {}
    case Deferred(id, w, _, _, _) => if HeldBy(s, id, w) then {id} else {}
    case Renewed(w, _, _) => set id | id in s.jobs && HeldBy(s, id, w)
    case Released(w, _) => set id | id in s.jobs && HeldBy(s, id, w)
    case Reaped(locked, _, now) => set id | id in s.jobs && Expired(s.jobs[id], now) && id !in locked
    case _ => {}
  }

  predicate Exhausted(j: Job) { j.attemptCount >= j.maxAttempts }

  /** The claim's SET clause; the attempt is paid for here, not on failure. */
  function Leased(j: Job, w: WorkerId, lease: Time, now: Time): Job {
    j.(status := Running, leasedBy := Some(w), leaseExpiresAt := Some(now + lease),
       attemptCount := j.attemptCount + 1,
       startedAt := if j.startedAt.Some? then j.startedAt else Some(now))
  }

  function Done(j: Job, now: Time): Job {
    j.(status := Succeeded, leasedBy := None, leaseExpiresAt := None, completedAt := Some(now), lastError := None)
  }

  /** Back to the queue after a delay, or dead: what a failure and a reap do. */
  function SentBack(j: Job, dead: bool, backoff: Time, error: LastError, now: Time): Job {
    j.(status := if dead then Dead else Pending, leasedBy := None, leaseExpiresAt := None,
       nextAttemptAt := if dead then j.nextAttemptAt else now + backoff,
       completedAt := if dead then Some(now) else None,
       lastError := Some(error))
  }

  function PutOff(j: Job, after: Time, reason: string, now: Time): Job {
    j.(status := Pending, leasedBy := None, leaseExpiresAt := None, nextAttemptAt := now + after,
       attemptCount := if 0 > j.attemptCount - 1 then 0 else j.attemptCount - 1,
       lastError := Some(Reported(reason)))
  }

  function GivenUp(j: Job, now: Time): Job {
    j.(status := Pending, leasedBy := None, leaseExpiresAt := None, nextAttemptAt := now)
  }

  function Rewritten(e: Event, j: Job): Job {
    match e
    case Claimed(w, _, lease, _, _, now) => Leased(j, w, lease, now)
    case Completed(_, _, now) => Done(j, now)
    case Failed(_, _, message, backoff, permanent, now) =>
      SentBack(j, permanent || Exhausted(j), backoff, Reported(message), now)
    case Deferred(_, _, after, reason, now) => PutOff(j, after, reason, now)
    case Renewed(_, lease, now) => j.(leaseExpiresAt := Some(now + lease))
    case Released(_, now) => GivenUp(j, now)
    case Reaped(_, backoff, now) =>
      SentBack(j, Exhausted(j), backoff, LeaseExpired(j.attemptCount, j.maxAttempts), now)
    case _ => j
  }

  /** UPDATE jobs SET Rewritten WHERE id IN Touched. */
  function Update(s: State, e: Event): map<JobId, Job> {
    var hit := Touched(s, e);
    map id | id in s.jobs :: if id in hit then Rewritten(e, s.jobs[id]) else s.jobs[id]
  }

  // ----- worker rows -----

  function Purgeable(s: State, olderThan: Time, now: Time): set<WorkerId> {
    set w | w in s.workers
      && (s.workers[w].status == Stopped || s.workers[w].status == DeadWorker)
      && s.workers[w].stoppedAt.Some? && s.workers[w].stoppedAt.value < now - olderThan
      && !(exists id :: id in s.jobs && HeldBy(s, id, w))
  }

  function WorkersAfter(s: State, e: Event): map<WorkerId, Worker> {
    match e
    case Registered(w, now) => s.workers[w := Worker(Active, now, None)]
    case Heartbeat(w, now) =>
      if w in s.workers && s.workers[w].status == Active
      then s.workers[w := s.workers[w].(lastHeartbeatAt := now)] else s.workers
    case Unregistered(w, now) =>
      if w in s.workers then s.workers[w := s.workers[w].(status := Stopped, stoppedAt := Some(now))]
      else s.workers
    case DeadMarked(threshold, now) =>
      map w | w in s.workers ::
        if s.workers[w].status == Active && s.workers[w].lastHeartbeatAt < now - threshold
        then s.workers[w].(status := DeadWorker, stoppedAt := Some(now)) else s.workers[w]
    case Purged(olderThan, now) => s.workers - Purgeable(s, olderThan, now)
    case _ => s.workers
  }

  /** The foreign key's ON DELETE SET NULL, fired by a purge. */
  function OrphanLeases(jobs: map<JobId, Job>, gone: set<WorkerId>): map<JobId, Job> {
    map id | id in jobs ::
      if jobs[id].leasedBy.Some? && jobs[id].leasedBy.value in gone then jobs[id].(leasedBy := None)
      else jobs[id]
  }

  // ----- steps -----

  /** The environment's choices for `e` are ones the database could make. A claim that would lease a
      row to an unregistered worker violates the foreign key and is rejected instead. */
  ghost predicate Valid(s: State, e: Event) {
    match e
    case Claimed(w, limit, _, locked, picked, now) =>
      IsClaimChoice(s, limit, locked, now, picked) && (picked != {} ==> w in s.workers)
    case _ => true
  }

  function Next(s: State, e: Event): State {
    match e
    case Enqueued(batch, now) => EnqueueAll(s, batch, now)
    case Purged(olderThan, now) =>
      s.(jobs := OrphanLeases(s.jobs, Purgeable(s, olderThan, now)), workers := WorkersAfter(s, e))
    case _ => s.(jobs := Update(s, e), workers := WorkersAfter(s, e))
  }

  // ----- what every step keeps -----

  predicate Finished(j: Job) { !j.status.IsLive() }

  ghost predicate ShapeOk(j: Job) {
    && (j.status == Running <==> j.leasedBy.Some?)
    && (j.leasedBy.Some? <==> j.leaseExpiresAt.Some?)
    && (j.completedAt.Some? <==> Finished(j))
    && j.dedupeKey == DedupeKey(j.jobType, j.targetId)
    && j.maxAttempts > 0
    && j.attemptCount >= (if j.status == Running then 1 else 0)
  }

  ghost predicate RowOk(id: JobId, j: Job, s: State) {
    id < s.nextId && ShapeOk(j) && (j.leasedBy.Some? ==> j.leasedBy.value in s.workers)
  }

  /** No two live jobs share a key. */
  ghost predicate OneLivePerKey(jobs: map<JobId, Job>) {
    forall a, b :: a in jobs && b in jobs && a != b && jobs[a].status.IsLive() && jobs[b].status.IsLive() ==>
      jobs[a].dedupeKey != jobs[b].dedupeKey
  }

  ghost predicate Consistent(s: State) {
    (forall id :: id in s.jobs ==> RowOk(id, s.jobs[id], s)) && OneLivePerKey(s.jobs)
  }

  lemma EnqueueOneKeeps(s: State, e: Enqueue, now: Time)
    requires Consistent(s)
    ensures Consistent(EnqueueOne(s, e, now))
  {
    var t := EnqueueOne(s, e, now);
    forall id | id in t.jobs ensures RowOk(id, t.jobs[id], t) {
      if id in s.jobs { assert RowOk(id, s.jobs[id], s); }
    }
  }

  lemma {:induction false} EnqueueKeeps(s: State, batch: seq<Enqueue>, now: Time)
    requires Consistent(s)
    ensures Consistent(EnqueueAll(s, batch, now))
  {
    if batch != [] {
      EnqueueKeeps(s, batch[..|batch| - 1], now);
      EnqueueOneKeeps(EnqueueAll(s, batch[..|batch| - 1], now), batch[|batch| - 1], now);
    }
  }

  /** The guard in the purge keeps ON DELETE SET NULL from ever orphaning a lease. */
  lemma PurgeOrphansNothing(s: State, olderThan: Time, now: Time)
    requires Consistent(s)
    ensures Next(s, Purged(olderThan, now)).jobs == s.jobs
  {
    var gone := Purgeable(s, olderThan, now);
    forall id | id in s.jobs
      ensures !(s.jobs[id].leasedBy.Some? && s.jobs[id].leasedBy.value in gone)
    {
      assert RowOk(id, s.jobs[id], s);
      if s.jobs[id].leasedBy.Some? { assert HeldBy(s, id, s.jobs[id].leasedBy.value); }
    }
    assert OrphanLeases(s.jobs, gone) == s.jobs;
  }

  lemma RewrittenShape(e: Event, j: Job)
    requires ShapeOk(j)
    requires e.Claimed? ==> j.status == Pending
    requires !e.Claimed? ==> j.status == Running
    ensures ShapeOk(Rewritten(e, j))
    ensures Rewritten(e, j).leasedBy.Some? ==>
      Rewritten(e, j).leasedBy == (if e.Claimed? then Some(e.worker) else j.leasedBy)
    ensures Rewritten(e, j).dedupeKey == j.dedupeKey
  {}

  lemma TouchedIsLive(s: State, e: Event, id: JobId)
    requires Valid(s, e) && id in Touched(s, e)
    ensures id in s.jobs
    ensures s.jobs[id].status == (if e.Claimed? then Pending else Running)
    ensures e.Claimed? ==> e.worker in s.workers
  {}

  lemma RowKept(s: State, e: Event, id: JobId)
    requires Consistent(s) && Valid(s, e) && !e.Enqueued? && !e.Purged?
    requires id in s.jobs
    ensures RowOk(id, Next(s, e).jobs[id], Next(s, e))
    ensures Next(s, e).jobs[id].dedupeKey == s.jobs[id].dedupeKey
    ensures Next(s, e).jobs[id].status.IsLive() ==> s.jobs[id].status.IsLive()
  {
    assert RowOk(id, s.jobs[id], s);
    WorkersStay(s, e);
    if id in Touched(s, e) {
      TouchedIsLive(s, e, id);
      RewrittenShape(e, s.jobs[id]);
    }
  }

  lemma WorkersStay(s: State, e: Event)
    requires !e.Purged?
    ensures forall w :: w in s.workers ==> w in WorkersAfter(s, e)
  {}

  lemma PurgeKeeps(s: State, olderThan: Time, now: Time)
    requires Consistent(s)
    ensures Consistent(Next(s, Purged(olderThan, now)))
  {
    PurgeOrphansNothing(s, olderThan, now);
    var t := Next(s, Purged(olderThan, now));
    forall id | id in t.jobs ensures RowOk(id, t.jobs[id], t) {
      assert RowOk(id, s.jobs[id], s);
      var j := s.jobs[id];
      if j.leasedBy.Some? { assert HeldBy(s, id, j.leasedBy.value); }
    }
  }

  /** Every statement keeps the table consistent: running exactly when owned and leased, ends dated
      exactly when finished, one live job per key, owners registered. */
  lemma StepKeepsConsistent(s: State, e: Event)
    requires Consistent(s) && Valid(s, e)
    ensures Consistent(Next(s, e))
  {
    if e.Enqueued? {
      EnqueueKeeps(s, e.batch, e.now);
    } else if e.Purged? {
      PurgeKeeps(s, e.olderThan, e.now);
    } else {
      forall id | id in s.jobs
        ensures RowOk(id, Next(s, e).jobs[id], Next(s, e))
        ensures Next(s, e).jobs[id].dedupeKey == s.jobs[id].dedupeKey
        ensures Next(s, e).jobs[id].status.IsLive() ==> s.jobs[id].status.IsLive()
      {
        RowKept(s, e, id);
      }
    }
  }

  /** The claim query leaves the database no freedom: limit, order and SKIP LOCKED fix the rows. */
  lemma ClaimChoiceUnique(s: State, limit: int, locked: set<JobId>, now: Time, p: set<JobId>, q: set<JobId>)
    requires IsClaimChoice(s, limit, locked, now, p) && IsClaimChoice(s, limit, locked, now, q)
    ensures p == q
  {
    if p != q {
      SameSizeDiffer(p, q);
      var a :| a in p - q;
      var b :| b in q - p;
      BeforeAsymmetric(s.jobs, a, b);
    }
  }

  lemma BeforeAsymmetric(jobs: map<JobId, Job>, a: JobId, b: JobId)
    requires a in jobs && b in jobs
    ensures Before(jobs, a, b) ==> !Before(jobs, b, a)
  {}

  lemma SameSizeDiffer<T>(p: set<T>, q: set<T>)
    requires |p| == |q| && p != q
    ensures p - q != {} && q - p != {}
  {
    assert p == p * q + (p - q) && q == p * q + (q - p);
    assert |p - q| == |q - p|;
  }

  // ----- what one step does to one row -----

  /** A row that exists keeps its identity, and changes only when the statement's WHERE matches it. */
  lemma RowChange(s: State, e: Event, id: JobId)
    requires Consistent(s) && id in s.jobs
    ensures id in Next(s, e).jobs
    ensures Next(s, e).jobs[id] == if id in Touched(s, e) then Rewritten(e, s.jobs[id]) else s.jobs[id]
  {
    hide Rewritten, WorkersAfter, Consistent;
    match e {
      case Enqueued(batch, now) => EnqueueFrame(s, batch, now, id);
      case Purged(olderThan, now) => PurgeOrphansNothing(s, olderThan, now);
      case _ =>
    }
  }

  lemma {:induction false} EnqueueFrame(s: State, batch: seq<Enqueue>, now: Time, id: JobId)
    requires Consistent(s) && id in s.jobs
    ensures id in EnqueueAll(s, batch, now).jobs
    ensures EnqueueAll(s, batch, now).jobs[id] == s.jobs[id]
    ensures Consistent(EnqueueAll(s, batch, now))
  {
    EnqueueKeeps(s, batch, now);
    if batch != [] {
      var mid := EnqueueAll(s, batch[..|batch| - 1], now);
      EnqueueFrame(s, batch[..|batch| - 1], now, id);
      assert RowOk(id, mid.jobs[id], mid);
    }
  }

  /** A row that appears was enqueued, and starts pending with no attempts and no owner. */
  lemma {:induction false} NewRowFresh(s: State, batch: seq<Enqueue>, now: Time, id: JobId)
    requires id !in s.jobs && id in EnqueueAll(s, batch, now).jobs
    ensures exists e :: e in batch && EnqueueAll(s, batch, now).jobs[id] == NewJob(e, now)
    ensures s.nextId <= id
    ensures s.nextId <= EnqueueAll(s, batch, now).nextId
  {
    var init, last := batch[..|batch| - 1], batch[|batch| - 1];
    var mid := EnqueueAll(s, init, now);
    EnqueueNextId(s, init, now);
    if id in mid.jobs {
      NewRowFresh(s, init, now, id);
      var e :| e in init && mid.jobs[id] == NewJob(e, now);
      if id != mid.nextId || mid.jobs == EnqueueAll(s, batch, now).jobs {
        assert e in batch;
      } else {
        assert last in batch;
      }
    } else {
      assert last in batch;
    }
  }

  lemma {:induction false} EnqueueNextId(s: State, batch: seq<Enqueue>, now: Time)
    ensures EnqueueAll(s, batch, now).nextId == s.nextId + |batch|
  {
    if batch != [] { EnqueueNextId(s, batch[..|batch| - 1], now); }
  }

  /** Only enqueueing adds rows. */
  lemma OnlyEnqueueAdds(s: State, e: Event, id: JobId)
    requires id !in s.jobs && id in Next(s, e).jobs
    ensures e.Enqueued?
  {}
}
