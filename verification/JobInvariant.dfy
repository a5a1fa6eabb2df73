/** The three tables agree, and every operation keeps them so. */
module JobInvariant {
  import opened Prelude
  import opened Text
  import opened JobTypes
  import opened JobTables

  // ---------------------------------------------------------------------------
  // Agreement of the tables
  // ---------------------------------------------------------------------------

  /** A running job names a lease row that names it back; any other job names none. */
  ghost predicate JobAgrees(t: Tables, id: string)
    requires id in t.jobs
  {
    var job := t.jobs[id];
    if job.state == Running then
      && job.leaseId.Some? && job.leaseExpiresAtMs.Some? && job.leaseId.value in t.leases
      && t.leases[job.leaseId.value].jobId == id
      && t.leases[job.leaseId.value].expiresAtMs == job.leaseExpiresAtMs.value
    else job.leaseId.None? && job.leaseExpiresAtMs.None?
  }

  /** A lease row is the one that its job, which is running, names. */
  ghost predicate LeaseAgrees(t: Tables, id: string)
    requires id in t.leases
  {
    var lease := t.leases[id];
    && lease.jobId in t.jobs && t.jobs[lease.jobId].state == Running
    && t.jobs[lease.jobId].leaseId == Some(id)
    && id == LeaseId(lease.acquiredAtMs, lease.jobId)
    && IsCanonicalWorkerId(lease.worker)
  }

  /** A worker names nothing, or a lease row that it holds, with the row's job and expiry. */
  ghost predicate WorkerAgrees(t: Tables, id: string)
    requires id in t.workers
  {
    var worker := t.workers[id];
    if worker.currentLeaseId.None? then worker.currentJobId.None? && worker.leaseExpiresAtMs.None?
    else
      && worker.currentLeaseId.value in t.leases
      && var lease := t.leases[worker.currentLeaseId.value];
      && lease.worker == id
      && worker.currentJobId == Some(lease.jobId)
      && worker.leaseExpiresAtMs == Some(lease.expiresAtMs)
  }

  ghost predicate Agree(t: Tables) {
    && Keyed(t)
    && (forall id :: id in t.jobs ==> JobAgrees(t, id))
    && (forall id :: id in t.leases ==> LeaseAgrees(t, id))
    && (forall id :: id in t.workers ==> WorkerAgrees(t, id))
  }

  /** A job is running iff exactly one lease row names it. */
  lemma RunningIffOneLease(t: Tables, id: string)
    requires Agree(t) && id in t.jobs
    ensures t.jobs[id].state == Running <==> |JobLeaseIds(t.leases, id)| == 1
    ensures JobLeaseIds(t.leases, id) == if t.jobs[id].state == Running then {t.jobs[id].leaseId.value} else {}
  {
    assert JobAgrees(t, id);
    forall lease | lease in JobLeaseIds(t.leases, id)
      ensures t.jobs[id].state == Running && lease == t.jobs[id].leaseId.value
    {
      assert LeaseAgrees(t, lease);
    }
    if t.jobs[id].state == Running {
      assert JobLeaseIds(t.leases, id) == {t.jobs[id].leaseId.value};
    } else {
      assert JobLeaseIds(t.leases, id) == {};
    }
  }

  lemma LeasesOfJob(t: Tables, id: string)
    requires Agree(t) && id in t.jobs
    ensures JobLeases(t.leases, id) ==
      if t.jobs[id].state == Running then [t.leases[t.jobs[id].leaseId.value]] else []
  {
    RunningIffOneLease(t, id);
    if t.jobs[id].state == Running {
      OneRow(t.leases, t.jobs[id].leaseId.value);
    }
  }

  // ---------------------------------------------------------------------------
  // Clearing workers
  // ---------------------------------------------------------------------------

  /** Clearing one lease touches at most the worker that holds it and names it. */
  lemma ClearOne(workers: map<string, Worker>, lease: Lease, nowMs: nat)
    requires IsCanonicalWorkerId(lease.worker)
    requires forall id :: id in workers ==> workers[id].id == id
    ensures ClearWorkerLeases(workers, [lease], nowMs) ==
      (if lease.worker in workers && workers[lease.worker].currentLeaseId == Some(lease.id)
       then workers[lease.worker := IdleWorker(workers[lease.worker], nowMs)] else workers, Ok(()))
  {
    var cleared := ClearWorkerLease(workers, lease, nowMs);
    assert cleared.Ok?;
    assert [lease][1..] == [];
    assert ClearWorkerLeases(cleared.value, [], nowMs) == (cleared.value, Ok(()));
  }

  // ---------------------------------------------------------------------------
  // The operations
  // ---------------------------------------------------------------------------

  /** Enqueueing keeps agreement exactly when it does not overwrite a running job. */
  lemma EnqueueKeepsAgreement(t: Tables, id: string, spec: JobSpec, nowMs: nat)
    requires Agree(t)
    ensures Agree(Enqueue(t, id, spec, nowMs)) <==> !(id in t.jobs && t.jobs[id].state == Running)
  {
    hide LeaseId, IsCanonicalWorkerId;
    var after := Enqueue(t, id, spec, nowMs);
    if id in t.jobs && t.jobs[id].state == Running {
      assert JobAgrees(t, id);
      assert !LeaseAgrees(after, t.jobs[id].leaseId.value);
    } else {
      forall other | other in after.jobs
        ensures JobAgrees(after, other)
      {
        assert other != id ==> JobAgrees(t, other);
      }
      forall lease | lease in after.leases
        ensures LeaseAgrees(after, lease)
      {
        assert LeaseAgrees(t, lease);
      }
      forall worker | worker in after.workers
        ensures WorkerAgrees(after, worker)
      {
        assert WorkerAgrees(t, worker);
      }
    }
  }

  /** The new lease id is no row's id yet: such a row would name this job, which is pending. */
  lemma LeaseIdIsFresh(t: Tables, id: string, nowMs: nat)
    requires Agree(t) && id in t.jobs && t.jobs[id].state != Running
    ensures LeaseId(nowMs, id) !in t.leases
  {
    var leaseId := LeaseId(nowMs, id);
    if leaseId in t.leases {
      assert LeaseAgrees(t, leaseId);
      LeaseIdNamesJob(nowMs, id, t.leases[leaseId].acquiredAtMs, t.leases[leaseId].jobId);
    }
  }

  /** Nor does any worker's row name it. */
  lemma FreshIsUnnamed(t: Tables, leaseId: string)
    requires Agree(t) && leaseId !in t.leases
    ensures forall w :: w in t.workers ==> t.workers[w].currentLeaseId != Some(leaseId)
  {
    forall w | w in t.workers
      ensures t.workers[w].currentLeaseId != Some(leaseId)
    {
      assert WorkerAgrees(t, w);
    }
  }

  lemma LookupCanonical(workers: map<string, Worker>, id: string)
    requires IsCanonicalWorkerId(id)
    ensures LookupWorker(workers, id) == Ok(if id in workers then Some(workers[id]) else None)
  {
  }

  /** The rows of an acquired job and of its lease, before the worker is marked. */
  lemma LeaseKeepsAgreement(t: Tables, id: string, leased: Job, lease: Lease)
    requires Agree(t) && id in t.jobs && t.jobs[id].state != Running
    requires lease.id == LeaseId(lease.acquiredAtMs, id) && lease.jobId == id && IsCanonicalWorkerId(lease.worker)
    requires leased.id == id && leased.state == Running
    requires leased.leaseId == Some(lease.id) && leased.leaseExpiresAtMs == Some(lease.expiresAtMs)
    ensures lease.id !in t.leases
    ensures Agree(Tables(t.jobs[id := leased], UpsertLease(t.leases, lease), t.workers))
  {
    LeaseIdIsFresh(t, id, lease.acquiredAtMs);
    hide LeaseId, IsCanonicalWorkerId;
    var after := Tables(t.jobs[id := leased], UpsertLease(t.leases, lease), t.workers);
    assert after.leases == t.leases[lease.id := lease];
    forall other | other in after.jobs
      ensures JobAgrees(after, other)
    {
      assert JobAgrees(t, other);
    }
    forall row | row in after.leases
      ensures LeaseAgrees(after, row)
    {
      assert row != lease.id ==> LeaseAgrees(t, row);
    }
    forall worker | worker in after.workers
      ensures WorkerAgrees(after, worker)
    {
      assert WorkerAgrees(t, worker);
    }
  }

  lemma MarkKeepsAgreement(t: Tables, worker: string, queue: string, lease: Lease, nowMs: nat)
    requires Agree(t) && IsCanonicalWorkerId(worker)
    requires lease.id in t.leases && t.leases[lease.id] == lease && lease.worker == worker
    ensures
      var marked := MarkWorkerLeased(t.workers, worker, queue, lease, nowMs);
      marked.Ok? ==> Agree(t.(workers := marked.value))
  {
    LookupCanonical(t.workers, worker);
    hide LookupWorker, IsCanonicalWorkerId, WorkerField;
    var marked := MarkWorkerLeased(t.workers, worker, queue, lease, nowMs);
    if marked.Ok? {
      var after := t.(workers := marked.value);
      forall id | id in after.jobs
        ensures JobAgrees(after, id)
      {
        assert JobAgrees(t, id);
      }
      forall id | id in after.leases
        ensures LeaseAgrees(after, id)
      {
        assert LeaseAgrees(t, id);
      }
      forall id | id in after.workers
        ensures WorkerAgrees(after, id)
      {
        assert id != worker ==> WorkerAgrees(t, id);
      }
    }
  }

  lemma AcquireKeepsAgreement(t: Tables, queue: string, worker: string, leaseMs: nat, nowMs: nat)
    requires Agree(t) && IsCanonicalWorkerId(worker)
    ensures Agree(Acquire(t, queue, worker, leaseMs, nowMs).tables)
  {
    hide Agree, NextPending, LeaseId, UpsertLease, MarkWorkerLeased, IsCanonicalWorkerId;
    var next := NextPending(t.jobs, queue);
    if next.Some? {
      var job := NextRow(t, queue);
      var lease :=
        Lease(LeaseId(nowMs, job.id), job.id, worker, nowMs, SaturatingAdd(nowMs, leaseMs, U64_MAX));
      var leased := LeasedJob(job, lease, nowMs);
      LeaseKeepsAgreement(t, job.id, leased, lease);
      UpsertNew(t.leases, lease);
      MarkKeepsAgreement(
        Tables(t.jobs[job.id := leased], UpsertLease(t.leases, lease), t.workers), worker, queue, lease, nowMs);
    }
  }

  lemma UpsertNew(leases: map<string, Lease>, lease: Lease)
    requires lease.id !in leases
    ensures UpsertLease(leases, lease) == leases[lease.id := lease]
  {
  }

  /** What is left behind when the job and its lease were written but the worker was not. */
  ghost predicate LeasedWithoutWorker(before: Tables, after: Tables, id: string) {
    && id in before.jobs && before.jobs[id].state == Pending
    && id in after.jobs && after.jobs[id].state == Running
    && after.jobs[id].leaseId.Some? && after.jobs[id].leaseId.value in after.leases
    && after.workers == before.workers
    && forall w :: w in after.workers ==> after.workers[w].currentLeaseId != after.jobs[id].leaseId
  }

  /**
   * Acquiring fails if and only if a job is waiting and the worker's id is invalid or the queue's name
   * blank, and then the job is running all the same.
   */
  lemma AcquireFailsIff(t: Tables, queue: string, worker: string, leaseMs: nat, nowMs: nat)
    requires Agree(t)
    ensures Acquire(t, queue, worker, leaseMs, nowMs).result.Err? <==>
      NextPending(t.jobs, queue).Some? && (ValidateWorkerId(worker).Err? || Trim(queue) == "")
    ensures Acquire(t, queue, worker, leaseMs, nowMs).result.Err? ==>
      LeasedWithoutWorker(t, Acquire(t, queue, worker, leaseMs, nowMs).tables, NextPending(t.jobs, queue).value)
  {
    if NextPending(t.jobs, queue).Some? {
      var job := NextRow(t, queue);
      LeaseIdIsFresh(t, job.id, nowMs);
      FreshIsUnnamed(t, LeaseId(nowMs, job.id));
    }
    hide Agree, NextPending, LeaseId, ValidateWorkerId, Trim;
  }

  lemma NextRow(t: Tables, queue: string) returns (job: Job)
    requires Agree(t) && NextPending(t.jobs, queue).Some?
    ensures
      var id := NextPending(t.jobs, queue).value;
      id in t.jobs && job == t.jobs[id] && job.id == id && job.state == Pending
  {
    var id := NextPending(t.jobs, queue).value;
    assert IsNext(t.jobs, queue, id);
    job := t.jobs[id];
  }

  /** A job's new row that names no lease, with its old leases and their workers released. */
  lemma ReleaseKeepsAgreement(t: Tables, id: string, job: Job, nowMs: nat)
    requires Agree(t) && id in t.jobs
    requires job.id == id && job.state != Running && job.leaseId.None? && job.leaseExpiresAtMs.None?
    ensures Release(t, id, job, nowMs).result == Ok(Some(job))
    ensures Release(t, id, job, nowMs).tables.jobs == t.jobs[id := job]
    ensures Agree(Release(t, id, job, nowMs).tables)
  {
    hide LeaseId, IsCanonicalWorkerId;
    LeasesOfJob(t, id);
    var after := Release(t, id, job, nowMs).tables;
    assert JobAgrees(t, id);
    if t.jobs[id].state == Running {
      var lease := t.leases[t.jobs[id].leaseId.value];
      assert LeaseAgrees(t, lease.id);
      ClearOne(t.workers, lease, nowMs);
    }
    forall other | other in after.jobs
      ensures JobAgrees(after, other)
    {
      assert JobAgrees(t, other);
    }
    forall lease | lease in after.leases
      ensures LeaseAgrees(after, lease)
    {
      assert LeaseAgrees(t, lease);
    }
    forall worker | worker in after.workers
      ensures WorkerAgrees(after, worker)
    {
      assert WorkerAgrees(t, worker);
      var leaseId := t.workers[worker].currentLeaseId;
      if leaseId.Some? {
        assert LeaseAgrees(t, leaseId.value);
      }
    }
  }

  lemma FinishKeepsAgreement(
      t: Tables, id: string, requested: JobState, result: Option<string>, error: Option<string>, nowMs: nat)
    requires Agree(t) && requested != Running
    ensures Agree(Finish(t, id, requested, result, error, nowMs).tables)
  {
    if id in t.jobs && t.jobs[id].state != Cancelled {
      ReleaseKeepsAgreement(t, id, FinishedJob(t.jobs[id], requested, result, error, nowMs), nowMs);
    }
  }

  lemma CancelKeepsAgreement(t: Tables, id: string, nowMs: nat)
    requires Agree(t)
    ensures Agree(Cancel(t, id, nowMs).tables)
  {
    if id in t.jobs {
      ReleaseKeepsAgreement(t, id, CancelledJob(t.jobs[id], nowMs), nowMs);
    }
  }

  lemma RetryKeepsAgreement(t: Tables, id: string, nowMs: nat)
    requires Agree(t)
    ensures Agree(Retry(t, id, nowMs).tables)
  {
    if id in t.jobs && t.jobs[id].state == Failed {
      ReleaseKeepsAgreement(t, id, RetriedJob(t.jobs[id], nowMs), nowMs);
    }
  }

  // ---------------------------------------------------------------------------
  // Expiry
  // ---------------------------------------------------------------------------

  /** The worker names a lease of one of these jobs. */
  predicate ServesOneOf(t: Tables, ids: set<string>, worker: Worker) {
    && worker.currentLeaseId.Some? && worker.currentLeaseId.value in t.leases
    && t.leases[worker.currentLeaseId.value].jobId in ids
  }

  /** The tables after these jobs went through the expiry loop, in whatever order. */
  function AfterLoop(t: Tables, ids: set<string>, nowMs: nat): Tables {
    Tables(map id | id in t.jobs :: if id in ids then ExpiredJob(t.jobs[id], nowMs) else t.jobs[id],
           t.leases,
           map id | id in t.workers ::
             if ServesOneOf(t, ids, t.workers[id]) then IdleWorker(t.workers[id], nowMs) else t.workers[id])
  }

  lemma LoopStep(t: Tables, ids: set<string>, id: string, nowMs: nat)
    requires Agree(t) && id in t.jobs && t.jobs[id].state == Running && id !in ids
    ensures ExpireOne(AfterLoop(t, ids, nowMs), t.jobs[id], nowMs) == Outcome(AfterLoop(t, ids + {id}, nowMs), Ok(()))
  {
    hide LeaseId, IsCanonicalWorkerId, JobLeases, ClearWorkerLeases;
    assert JobAgrees(t, id);
    LeasesOfJob(t, id);
    var lease := t.leases[t.jobs[id].leaseId.value];
    assert LeaseAgrees(t, lease.id);
    var before, after := AfterLoop(t, ids, nowMs), AfterLoop(t, ids + {id}, nowMs);
    ClearOne(before.workers, lease, nowMs);
    var step := ExpireOne(before, t.jobs[id], nowMs).tables;
    assert step.jobs == after.jobs;
    forall worker | worker in t.workers
      ensures worker in step.workers && step.workers[worker] == after.workers[worker]
    {
      assert WorkerAgrees(t, worker);
      if ServesOneOf(t, {id}, t.workers[worker]) {
        assert LeaseAgrees(t, t.workers[worker].currentLeaseId.value);
      }
    }
    assert step.workers == after.workers;
  }

  function Elements(order: seq<string>): set<string> {
    set id | id in order
  }

  /** The listing order of the expired jobs does not matter. */
  lemma {:induction false} LoopIsOrderIndependent(t: Tables, order: seq<string>, nowMs: nat)
    requires Agree(t)
    requires forall id :: id in order ==> id in t.jobs && t.jobs[id].state == Running
    requires forall i, j :: 0 <= i < j < |order| ==> order[i] != order[j]
    ensures ExpireEach(t, order, nowMs) == Outcome(AfterLoop(t, Elements(order), nowMs), Ok(()))
  {
    hide AfterLoop, ExpireEach, ExpireOne, Agree;
    if order == [] {
      NothingExpired(t, nowMs);
      ExpireNone(t, nowMs);
    } else {
      var front, last := order[..|order| - 1], order[|order| - 1];
      LoopIsOrderIndependent(t, front, nowMs);
      assert last !in front;
      LoopStep(t, Elements(front), last, nowMs);
      assert order == front + [last] && Elements(order) == Elements(front) + {last};
      ExpireNext(t, front, last, nowMs);
    }
  }

  lemma NothingExpired(t: Tables, nowMs: nat)
    ensures AfterLoop(t, Elements([]), nowMs) == t
  {
  }

  lemma {:induction false} InjectiveImageSize(ids: set<string>, image: map<string, string>)
    requires ids <= image.Keys
    requires forall a, b :: a in ids && b in ids && a != b ==> image[a] != image[b]
    ensures |set id | id in ids :: image[id]| == |ids|
  {
    if ids != {} {
      var some :| some in ids;
      var rest := ids - {some};
      InjectiveImageSize(rest, image);
      assert (set id | id in ids :: image[id]) == (set id | id in rest :: image[id]) + {image[some]};
    }
  }

  /** Distinct running jobs name distinct leases: the rows to delete are as many as the expired jobs. */
  lemma CountLeases(t: Tables, nowMs: nat)
    requires Agree(t)
    ensures |set id | id in t.leases && t.leases[id].expiresAtMs <= nowMs| == |ExpiredIds(t, nowMs)|
  {
    hide LeaseId, IsCanonicalWorkerId;
    var ids := ExpiredIds(t, nowMs);
    forall id | id in ids
      ensures t.jobs[id].leaseId.Some? && t.jobs[id].leaseId.value in t.leases
      ensures t.leases[t.jobs[id].leaseId.value].jobId == id
      ensures t.leases[t.jobs[id].leaseId.value].expiresAtMs <= nowMs
    {
      assert JobAgrees(t, id);
    }
    var image := map id | id in ids :: t.jobs[id].leaseId.value;
    InjectiveImageSize(ids, image);
    var dead := set id | id in t.leases && t.leases[id].expiresAtMs <= nowMs;
    forall lease | lease in dead
      ensures t.leases[lease].jobId in ids && image[t.leases[lease].jobId] == lease
    {
      assert LeaseAgrees(t, lease);
      assert JobAgrees(t, t.leases[lease].jobId);
    }
    assert dead == set id | id in ids :: image[id];
  }

  /** Expiry succeeds, leaves the tables in agreement, and counts the jobs it took out of Running. */
  lemma ExpireKeepsAgreement(t: Tables, order: seq<string>, nowMs: nat)
    requires Agree(t) && ListsExpired(t, order, nowMs)
    ensures forall id :: id in order ==> id in t.jobs
    ensures Expire(t, order, nowMs).result == Ok(|ExpiredIds(t, nowMs)|)
    ensures Expire(t, order, nowMs).tables ==
      AfterLoop(t, ExpiredIds(t, nowMs), nowMs).(leases := LiveLeases(t.leases, nowMs))
    ensures Agree(Expire(t, order, nowMs).tables)
  {
    var ids := ExpiredIds(t, nowMs);
    assert Elements(order) == ids;
    LoopIsOrderIndependent(t, order, nowMs);
    CountLeases(t, nowMs);
    ExpiredTablesAgree(t, nowMs);
  }

  lemma ExpiredTablesAgree(t: Tables, nowMs: nat)
    requires Agree(t)
    ensures Agree(AfterLoop(t, ExpiredIds(t, nowMs), nowMs).(leases := LiveLeases(t.leases, nowMs)))
  {
    hide LeaseId, IsCanonicalWorkerId;
    var ids := ExpiredIds(t, nowMs);
    var after := AfterLoop(t, ids, nowMs).(leases := LiveLeases(t.leases, nowMs));
    forall id | id in t.jobs
      ensures JobAgrees(after, id)
    {
      assert JobAgrees(t, id);
    }
    forall lease | lease in after.leases
      ensures LeaseAgrees(after, lease)
    {
      assert LeaseAgrees(t, lease);
      assert JobAgrees(t, t.leases[lease].jobId);
    }
    ExpiredWorkersAgree(t, nowMs);
  }

  lemma ExpiredWorkersAgree(t: Tables, nowMs: nat)
    requires Agree(t)
    ensures
      var after := AfterLoop(t, ExpiredIds(t, nowMs), nowMs).(leases := LiveLeases(t.leases, nowMs));
      forall id :: id in t.workers ==> WorkerAgrees(after, id)
  {
    hide LeaseId, IsCanonicalWorkerId;
    var ids := ExpiredIds(t, nowMs);
    var after := AfterLoop(t, ids, nowMs).(leases := LiveLeases(t.leases, nowMs));
    forall worker | worker in t.workers
      ensures WorkerAgrees(after, worker)
    {
      assert WorkerAgrees(t, worker);
      var leaseId := t.workers[worker].currentLeaseId;
      if leaseId.Some? {
        assert LeaseAgrees(t, leaseId.value);
        assert JobAgrees(t, t.leases[leaseId.value].jobId);
      }
    }
  }

  // ---------------------------------------------------------------------------
  // Workers
  // ---------------------------------------------------------------------------

  /** A worker row rewritten with the same lease fields, or a new one without any. */
  lemma RewrittenWorkerAgrees(t: Tables, record: Worker)
    requires Agree(t)
    requires record.id in t.workers ==>
      var old' := t.workers[record.id];
      && record.currentJobId == old'.currentJobId && record.currentLeaseId == old'.currentLeaseId
      && record.leaseExpiresAtMs == old'.leaseExpiresAtMs
    requires record.id !in t.workers ==>
      record.currentJobId.None? && record.currentLeaseId.None? && record.leaseExpiresAtMs.None?
    ensures Agree(t.(workers := t.workers[record.id := record]))
  {
    hide LeaseId, IsCanonicalWorkerId;
    var after := t.(workers := t.workers[record.id := record]);
    forall id | id in t.jobs
      ensures JobAgrees(after, id)
    {
      assert JobAgrees(t, id);
    }
    forall id | id in t.leases
      ensures LeaseAgrees(after, id)
    {
      assert LeaseAgrees(t, id);
    }
    forall id | id in after.workers
      ensures WorkerAgrees(after, id)
    {
      assert id in t.workers ==> WorkerAgrees(t, id);
    }
  }

  /** Registering a worker, new or known, never touches the lease it holds. */
  lemma RegisterKeepsAgreement(t: Tables, registration: Registration, nowMs: nat)
    requires Agree(t)
    ensures Agree(Register(t, registration, nowMs).tables)
  {
    var made := IntoRecord(registration, nowMs);
    if made.Ok? {
      LookupCanonical(t.workers, made.value.id);
      var written := Register(t, registration, nowMs);
      RewrittenWorkerAgrees(t, written.result.value);
    }
  }

  lemma HeartbeatKeepsAgreement(t: Tables, heartbeat: Heartbeat, nowMs: nat)
    requires Agree(t)
    ensures Agree(Beat(t, heartbeat, nowMs).tables)
  {
    var written := Beat(t, heartbeat, nowMs);
    if written.result.Ok? && written.result.value.Some? {
      RewrittenWorkerAgrees(t, written.result.value.value);
    }
  }
}
