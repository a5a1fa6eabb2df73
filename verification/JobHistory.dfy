/** Whole runs of the durable store: agreement, attempts, cancellation and queue order. */
module JobHistory {
  import opened Prelude
  import opened Text
  import opened JobTypes
  import opened JobTables
  import opened JobInvariant

  // ---------------------------------------------------------------------------
  // Runs
  // ---------------------------------------------------------------------------

  datatype Op =
    | DoEnqueue(id: string, spec: JobSpec, nowMs: nat)
    | DoAcquire(queue: string, worker: string, leaseMs: nat, nowMs: nat)
    | DoComplete(id: string, result: Option<string>, nowMs: nat)
    | DoFail(id: string, error: string, nowMs: nat)
    | DoCancel(id: string, nowMs: nat)
    | DoRetry(id: string, nowMs: nat)
    | DoExpire(order: seq<string>, nowMs: nat)
    | DoRegister(registration: Registration, nowMs: nat)
    | DoHeartbeat(heartbeat: Heartbeat, nowMs: nat)

  predicate IsRunning(t: Tables, id: string) {
    id in t.jobs && t.jobs[id].state == Running
  }

  /** What callers see to: `max_attempts` is raised to one, and the expiry's query lists what is there. */
  ghost predicate Callable(t: Tables, op: Op) {
    match op
    case DoEnqueue(_, spec, _) => spec.maxAttempts >= 1
    case DoExpire(order, nowMs) => ListsExpired(t, order, nowMs)
    case _ => true
  }

  /** A client may choose the id of the job it enqueues, even that of a running job. */
  predicate ReusesRunning(t: Tables, op: Op) {
    op.DoEnqueue? && IsRunning(t, op.id)
  }

  ghost predicate Admissible(t: Tables, op: Op) {
    Callable(t, op) && !ReusesRunning(t, op)
  }

  predicate WorkerIsCanonical(op: Op) {
    op.DoAcquire? ==> IsCanonicalWorkerId(op.worker)
  }

  ghost function Step(t: Tables, op: Op): Tables
    requires Callable(t, op)
  {
    match op
    case DoEnqueue(id, spec, nowMs) => Enqueue(t, id, spec, nowMs)
    case DoAcquire(queue, worker, leaseMs, nowMs) => Acquire(t, queue, worker, leaseMs, nowMs).tables
    case DoComplete(id, result, nowMs) => Complete(t, id, result, nowMs).tables
    case DoFail(id, error, nowMs) => Fail(t, id, error, nowMs).tables
    case DoCancel(id, nowMs) => Cancel(t, id, nowMs).tables
    case DoRetry(id, nowMs) => Retry(t, id, nowMs).tables
    case DoExpire(order, nowMs) => Expire(t, order, nowMs).tables
    case DoRegister(registration, nowMs) => Register(t, registration, nowMs).tables
    case DoHeartbeat(heartbeat, nowMs) => Beat(t, heartbeat, nowMs).tables
  }

  /** The contents after `ops`, or `None` if one of them was not admissible where it came. */
  ghost function Run(t: Tables, ops: seq<Op>): Option<Tables> {
    if ops == [] then Some(t)
    else
      var before := Run(t, ops[..|ops| - 1]);
      var op := ops[|ops| - 1];
      if before.None? || !Admissible(before.value, op) then None else Some(Step(before.value, op))
  }

  lemma StepKeepsAgreement(t: Tables, op: Op)
    requires Agree(t) && Admissible(t, op) && WorkerIsCanonical(op)
    ensures Agree(Step(t, op))
  {
    match op
    case DoEnqueue(id, spec, nowMs) => EnqueueKeepsAgreement(t, id, spec, nowMs);
    case DoAcquire(queue, worker, leaseMs, nowMs) => AcquireKeepsAgreement(t, queue, worker, leaseMs, nowMs);
    case DoComplete(id, result, nowMs) => FinishKeepsAgreement(t, id, Completed, result, None, nowMs);
    case DoFail(id, error, nowMs) => FinishKeepsAgreement(t, id, Failed, None, Some(error), nowMs);
    case DoCancel(id, nowMs) => CancelKeepsAgreement(t, id, nowMs);
    case DoRetry(id, nowMs) => RetryKeepsAgreement(t, id, nowMs);
    case DoExpire(order, nowMs) => ExpireKeepsAgreement(t, order, nowMs);
    case DoRegister(registration, nowMs) => RegisterKeepsAgreement(t, registration, nowMs);
    case DoHeartbeat(heartbeat, nowMs) => HeartbeatKeepsAgreement(t, heartbeat, nowMs);
  }

  /** From agreeing tables, every run over canonical worker ids leads to agreeing tables. */
  lemma {:induction false} RunKeepsAgreement(t: Tables, ops: seq<Op>)
    requires Agree(t) && Run(t, ops).Some?
    requires forall i :: 0 <= i < |ops| ==> WorkerIsCanonical(ops[i])
    ensures Agree(Run(t, ops).value)
  {
    hide Agree, Step, Admissible;
    if ops != [] {
      RunKeepsAgreement(t, ops[..|ops| - 1]);
      StepKeepsAgreement(Run(t, ops[..|ops| - 1]).value, ops[|ops| - 1]);
    }
  }

  /** The contents after `ops`, whichever ids are enqueued. */
  ghost function FreeRun(t: Tables, ops: seq<Op>): Option<Tables> {
    if ops == [] then Some(t)
    else
      var before := FreeRun(t, ops[..|ops| - 1]);
      var op := ops[|ops| - 1];
      if before.None? || !Callable(before.value, op) then None else Some(Step(before.value, op))
  }

  ghost predicate AgreesAfter(t: Tables, ops: seq<Op>, k: nat) {
    k <= |ops| && FreeRun(t, ops[..k]).Some? && Agree(FreeRun(t, ops[..k]).value)
  }

  ghost predicate ReusesAt(t: Tables, ops: seq<Op>, i: nat) {
    i < |ops| && FreeRun(t, ops[..i]).Some? && ReusesRunning(FreeRun(t, ops[..i]).value, ops[i])
  }

  lemma StepAgreesIff(t: Tables, op: Op)
    requires Agree(t) && Callable(t, op) && WorkerIsCanonical(op)
    ensures Agree(Step(t, op)) <==> !ReusesRunning(t, op)
  {
    if op.DoEnqueue? {
      EnqueueKeepsAgreement(t, op.id, op.spec, op.nowMs);
    } else {
      StepKeepsAgreement(t, op);
    }
  }

  lemma {:induction false} NextAgreesIff(t: Tables, ops: seq<Op>, i: nat)
    requires i < |ops| && FreeRun(t, ops[..i + 1]).Some? && AgreesAfter(t, ops, i) && WorkerIsCanonical(ops[i])
    ensures AgreesAfter(t, ops, i + 1) <==> !ReusesAt(t, ops, i)
  {
    hide Agree, Step, Callable, ReusesRunning, WorkerIsCanonical;
    assert ops[..i + 1][..i] == ops[..i];
    StepAgreesIff(FreeRun(t, ops[..i]).value, ops[i]);
  }

  lemma {:induction false} FreeRunIsPrefixClosed(t: Tables, ops: seq<Op>, i: nat, k: nat)
    requires i <= k <= |ops| && FreeRun(t, ops[..k]).Some?
    ensures FreeRun(t, ops[..i]).Some?
    decreases k
  {
    if i < k {
      assert ops[..k][..k - 1] == ops[..k - 1];
      FreeRunIsPrefixClosed(t, ops, i, k - 1);
    }
  }

  lemma {:induction false} WithoutReuseAgree(t: Tables, ops: seq<Op>, k: nat)
    requires Agree(t) && FreeRun(t, ops).Some? && k <= |ops|
    requires forall i :: 0 <= i < |ops| ==> WorkerIsCanonical(ops[i]) && !ReusesAt(t, ops, i)
    ensures AgreesAfter(t, ops, k)
    decreases k
  {
    hide Agree, Step, Callable, ReusesAt, WorkerIsCanonical;
    if k > 0 {
      WithoutReuseAgree(t, ops, k - 1);
      assert ops[..|ops|] == ops;
      FreeRunIsPrefixClosed(t, ops, k, |ops|);
      NextAgreesIff(t, ops, k - 1);
    }
  }

  /** A run over canonical worker ids agrees throughout iff no job is enqueued under the id of a running one. */
  lemma {:induction false} AgreesThroughoutIff(t: Tables, ops: seq<Op>)
    requires Agree(t) && FreeRun(t, ops).Some?
    requires forall i :: 0 <= i < |ops| ==> WorkerIsCanonical(ops[i])
    ensures (forall k :: 0 <= k <= |ops| ==> AgreesAfter(t, ops, k))
      <==> forall i :: 0 <= i < |ops| ==> !ReusesAt(t, ops, i)
  {
    hide AgreesAfter, ReusesAt, WorkerIsCanonical, FreeRun, Agree;
    if i :| 0 <= i < |ops| && ReusesAt(t, ops, i) {
      if AgreesAfter(t, ops, i) {
        assert ops[..|ops|] == ops;
        FreeRunIsPrefixClosed(t, ops, i + 1, |ops|);
        NextAgreesIff(t, ops, i);
        assert !AgreesAfter(t, ops, i + 1);
      }
    } else {
      forall k | 0 <= k <= |ops|
        ensures AgreesAfter(t, ops, k)
      {
        WithoutReuseAgree(t, ops, k);
      }
    }
  }

  // ---------------------------------------------------------------------------
  // Agreement in every reachable state, and the worker ids that spoil it
  // ---------------------------------------------------------------------------

  /** Agreement without the facts about ids that only its proof needs. */
  ghost predicate Consistent(t: Tables) {
    && Keyed(t)
    && (forall id :: id in t.jobs ==> JobAgrees(t, id))
    && (forall id :: id in t.leases ==>
          var jobId := t.leases[id].jobId;
          jobId in t.jobs && t.jobs[jobId].state == Running && t.jobs[jobId].leaseId == Some(id))
    && (forall id :: id in t.workers ==> WorkerAgrees(t, id))
  }

  lemma AgreementIsConsistency(t: Tables)
    requires Agree(t)
    ensures Consistent(t)
  {
    forall id | id in t.leases
      ensures var jobId := t.leases[id].jobId;
        jobId in t.jobs && t.jobs[jobId].state == Running && t.jobs[jobId].leaseId == Some(id)
    {
      assert LeaseAgrees(t, id);
    }
  }

  lemma EmptyAgrees()
    ensures Agree(EMPTY)
  {
  }

  ghost predicate OnlyWorker(ops: seq<Op>, worker: string) {
    forall i :: 0 <= i < |ops| && ops[i].DoAcquire? ==> ops[i].worker == worker
  }

  /** A job that is enqueued, acquired and cancelled. */
  function Trial(worker: string): seq<Op> {
    var spec := JobSpec("agent.run", "q", "", 0, 1, None);
    [DoEnqueue("j", spec, 0), DoAcquire("q", worker, 5, 1), DoCancel("j", 2)]
  }

  lemma OneLeaseIsListed(leases: map<string, Lease>, id: string)
    requires leases.Keys == {id}
    ensures JobLeases(leases, leases[id].jobId) == [leases[id]]
  {
    assert JobLeaseIds(leases, leases[id].jobId) == {id};
    OneRow(leases, id);
  }

  /** The trial's tables before the cancellation. */
  lemma TrialUpToCancel(worker: string) returns (t: Tables, job: Job, lease: Lease)
    ensures Run(EMPTY, Trial(worker)[..2]) == Some(t)
    ensures t.jobs == map["j" := job] && job.id == "j" && job.state == Running
    ensures t.leases == map[lease.id := lease] && lease.jobId == "j" && lease.worker == worker
    ensures ValidateWorkerId(worker).Err? ==> t.workers == map[]
    ensures ValidateWorkerId(worker).Ok? ==>
      t.workers.Keys == {worker} && t.workers[worker].currentLeaseId == Some(lease.id)
  {
    var ops := Trial(worker);
    var t1 := Enqueue(EMPTY, "j", ops[0].spec, 0);
    assert ops[..1][..0] == [] && ops[..2][..1] == ops[..1];
    assert Run(EMPTY, ops[..1]) == Some(t1);
    assert IsNext(t1.jobs, "q", "j");
    NextIsUnique(t1.jobs, "q", "j", NextPending(t1.jobs, "q").value);
    lease := Lease(LeaseId(1, "j"), "j", worker, 1, 6);
    job := LeasedJob(t1.jobs["j"], lease, 1);
    t := Acquire(t1, "q", worker, 5, 1).tables;
    assert Trim("q") == "q";
  }

  /** Any other worker id spoils the tables: its lease or its worker row outlives the cancelled job. */
  lemma TrialSpoils(worker: string)
    requires !IsCanonicalWorkerId(worker)
    ensures Run(EMPTY, Trial(worker)).Some? && !Consistent(Run(EMPTY, Trial(worker)).value)
  {
    var ops := Trial(worker);
    var t, job, lease := TrialUpToCancel(worker);
    assert ops[..3] == ops;
    OneLeaseIsListed(t.leases, lease.id);
    var after := Cancel(t, "j", 2).tables;
    assert Run(EMPTY, ops) == Some(after);
    assert [lease][1..] == [];
    if ValidateWorkerId(worker).Err? {
      assert ClearWorkerLeases(t.workers, [lease], 2).1.Err?;
      assert lease.id in after.leases && after.jobs["j"].state == Cancelled;
    } else {
      assert ValidateWorkerId(worker).value !in t.workers;
      assert ClearWorkerLeases(t.workers, [], 2) == (t.workers, Ok(()));
      assert after.workers == t.workers && after.leases == map[];
      assert !WorkerAgrees(after, worker);
    }
  }

  /**
   * The tables agree in every state that runs with this worker reach iff its id is one that
   * validation leaves as it is: non-empty, at most 128 characters, of the allowed ones only.
   */
  lemma TablesAgreeIffWorkerIdIsCanonical(worker: string)
    ensures (forall ops: seq<Op> :: OnlyWorker(ops, worker) && Run(EMPTY, ops).Some? ==>
               Consistent(Run(EMPTY, ops).value))
        <==> IsCanonicalWorkerId(worker)
  {
    if IsCanonicalWorkerId(worker) {
      forall ops: seq<Op> | OnlyWorker(ops, worker) && Run(EMPTY, ops).Some?
        ensures Consistent(Run(EMPTY, ops).value)
      {
        EmptyAgrees();
        RunKeepsAgreement(EMPTY, ops);
        AgreementIsConsistency(Run(EMPTY, ops).value);
      }
    } else {
      TrialSpoils(worker);
      assert OnlyWorker(Trial(worker), worker);
    }
  }

  // ---------------------------------------------------------------------------
  // What a step does to the jobs
  // ---------------------------------------------------------------------------

  /** The jobs table after a step: the other tables and the listing order do not show in it. */
  ghost function JobsAfter(t: Tables, op: Op): map<string, Job> {
    match op
    case DoEnqueue(id, spec, nowMs) => t.jobs[id := PendingJobStatus(id, spec, nowMs)]
    case DoAcquire(queue, worker, leaseMs, nowMs) =>
      var next := NextPending(t.jobs, queue);
      if next.None? || next.value !in t.jobs then t.jobs
      else
        var lease := Lease(LeaseId(nowMs, next.value), next.value, worker, nowMs,
                           SaturatingAdd(nowMs, leaseMs, U64_MAX));
        t.jobs[next.value := LeasedJob(t.jobs[next.value], lease, nowMs)]
    case DoComplete(id, result, nowMs) =>
      if id in t.jobs && t.jobs[id].state != Cancelled
      then t.jobs[id := FinishedJob(t.jobs[id], Completed, result, None, nowMs)] else t.jobs
    case DoFail(id, error, nowMs) =>
      if id in t.jobs && t.jobs[id].state != Cancelled
      then t.jobs[id := FinishedJob(t.jobs[id], Failed, None, Some(error), nowMs)] else t.jobs
    case DoCancel(id, nowMs) => if id in t.jobs then t.jobs[id := CancelledJob(t.jobs[id], nowMs)] else t.jobs
    case DoRetry(id, nowMs) =>
      if id in t.jobs && t.jobs[id].state == Failed then t.jobs[id := RetriedJob(t.jobs[id], nowMs)] else t.jobs
    case DoExpire(_, nowMs) =>
      map id | id in t.jobs :: if IsExpired(t, id, nowMs) then ExpiredJob(t.jobs[id], nowMs) else t.jobs[id]
    case DoRegister(_, _) => t.jobs
    case DoHeartbeat(_, _) => t.jobs
  }

  lemma {:induction false} AcquireOnJobs(t: Tables, op: Op)
    requires op.DoAcquire? && Agree(t)
    ensures Step(t, op).jobs == JobsAfter(t, op)
  {
    hide JobAgrees, LeaseAgrees, WorkerAgrees, LeaseId, UpsertLease, MarkWorkerLeased, SaturatingAdd, NextPending;
    if NextPending(t.jobs, op.queue).Some? {
      var job := NextRow(t, op.queue);
    }
  }

  lemma {:induction false} ReleaseOnJobs(t: Tables, op: Op)
    requires (op.DoComplete? || op.DoFail? || op.DoCancel? || op.DoRetry?) && Agree(t)
    ensures Step(t, op).jobs == JobsAfter(t, op)
  {
    hide Release, JobAgrees, LeaseAgrees, WorkerAgrees;
    if op.id in t.jobs {
      var job := t.jobs[op.id];
      match op
      case DoComplete(id, result, nowMs) =>
        ReleaseKeepsAgreement(t, id, FinishedJob(job, Completed, result, None, nowMs), nowMs);
      case DoFail(id, error, nowMs) =>
        ReleaseKeepsAgreement(t, id, FinishedJob(job, Failed, None, Some(error), nowMs), nowMs);
      case DoCancel(id, nowMs) => ReleaseKeepsAgreement(t, id, CancelledJob(job, nowMs), nowMs);
      case DoRetry(id, nowMs) => ReleaseKeepsAgreement(t, id, RetriedJob(job, nowMs), nowMs);
    }
  }

  lemma {:induction false} ExpireOnJobs(t: Tables, op: Op)
    requires op.DoExpire? && Agree(t) && Admissible(t, op)
    ensures Step(t, op).jobs == JobsAfter(t, op)
  {
    hide Expire, ExpireEach, JobAgrees, LeaseAgrees, WorkerAgrees;
    ExpireKeepsAgreement(t, op.order, op.nowMs);
  }

  lemma {:induction false} StepOnJobs(t: Tables, op: Op)
    requires Agree(t) && Admissible(t, op)
    ensures Step(t, op).jobs == JobsAfter(t, op)
  {
    if op.DoEnqueue? || op.DoRegister? || op.DoHeartbeat? {
      hide Agree, Acquire, Finish, Cancel, Retry, Expire;
    } else {
      hide Step, JobsAfter, Agree;
      match op
      case DoAcquire(_, _, _, _) => AcquireOnJobs(t, op);
      case DoExpire(_, _) => ExpireOnJobs(t, op);
      case _ => ReleaseOnJobs(t, op);
    }
  }

  // ---------------------------------------------------------------------------
  // Attempts
  // ---------------------------------------------------------------------------

  /** The tables with a count, per job, of its acquisitions and of the retries that took effect. */
  datatype Ledger = Ledger(tables: Tables, acquired: map<string, nat>, retried: map<string, nat>)

  function Counted(counts: map<string, nat>, id: string): nat {
    if id in counts then counts[id] else 0
  }

  ghost function Record(l: Ledger, op: Op): Ledger
    requires Admissible(l.tables, op)
  {
    var jobs := l.tables.jobs;
    Ledger(
      Step(l.tables, op),
      match op
      case DoEnqueue(id, _, _) => l.acquired[id := 0]
      case DoAcquire(queue, _, _, _) =>
        var next := NextPending(jobs, queue);
        if next.None? then l.acquired else l.acquired[next.value := Counted(l.acquired, next.value) + 1]
      case _ => l.acquired,
      match op
      case DoEnqueue(id, _, _) => l.retried[id := 0]
      case DoRetry(id, _) =>
        if id in jobs && jobs[id].state == Failed then l.retried[id := Counted(l.retried, id) + 1] else l.retried
      case _ => l.retried)
  }

  ghost function Recorded(ops: seq<Op>): Option<Ledger> {
    if ops == [] then Some(Ledger(EMPTY, map[], map[]))
    else
      var before := Recorded(ops[..|ops| - 1]);
      var op := ops[|ops| - 1];
      if before.None? || !Admissible(before.value.tables, op) then None else Some(Record(before.value, op))
  }

  /** A job's attempts are its acquisitions, and its state bounds them. */
  ghost predicate Accounted(l: Ledger, id: string)
    requires id in l.tables.jobs
  {
    var job, acquired, retried := l.tables.jobs[id], Counted(l.acquired, id), Counted(l.retried, id);
    && job.attempts == SaturatingAdd(acquired, 0, U32_MAX)
    && job.attempts <= job.spec.maxAttempts + retried
    && (job.state == Failed ==> job.attempts >= job.spec.maxAttempts)
    && (job.state == Pending ==> job.attempts < job.spec.maxAttempts + retried)
  }

  lemma AcquireAccounts(l: Ledger, op: Op, id: string)
    requires op.DoAcquire?
    requires Agree(l.tables) && Admissible(l.tables, op) && id in Step(l.tables, op).jobs
    requires id in l.tables.jobs ==> Accounted(l, id)
    ensures Accounted(Record(l, op), id)
  {
    hide Agree, Step, NextPending, LeaseId, Admissible;
    StepOnJobs(l.tables, op);
    if NextPending(l.tables.jobs, op.queue).Some? {
      var job := NextRow(l.tables, op.queue);
    }
  }

  lemma ReleaseAccounts(l: Ledger, op: Op, id: string)
    requires op.DoComplete? || op.DoFail? || op.DoCancel? || op.DoRetry?
    requires Agree(l.tables) && Admissible(l.tables, op) && id in Step(l.tables, op).jobs
    requires id in l.tables.jobs ==> Accounted(l, id)
    ensures Accounted(Record(l, op), id)
  {
    hide Agree, Step, NextPending, Admissible;
    StepOnJobs(l.tables, op);
  }

  lemma ExpiryAccounts(l: Ledger, op: Op, id: string)
    requires op.DoExpire?
    requires Agree(l.tables) && Admissible(l.tables, op) && id in Step(l.tables, op).jobs
    requires id in l.tables.jobs ==> Accounted(l, id)
    ensures Accounted(Record(l, op), id)
  {
    hide Agree, Step, NextPending, Admissible;
    StepOnJobs(l.tables, op);
  }

  lemma RowAccounts(l: Ledger, op: Op, id: string)
    requires Agree(l.tables) && Admissible(l.tables, op) && id in Step(l.tables, op).jobs
    requires id in l.tables.jobs ==> Accounted(l, id)
    ensures Accounted(Record(l, op), id)
  {
    hide Agree, Step, NextPending;
    StepOnJobs(l.tables, op);
    match op
    case DoAcquire(_, _, _, _) => AcquireAccounts(l, op, id);
    case DoExpire(_, _) => ExpiryAccounts(l, op, id);
    case DoEnqueue(_, _, _) =>
    case DoRegister(_, _) =>
    case DoHeartbeat(_, _) =>
    case _ => ReleaseAccounts(l, op, id);
  }

  lemma RecordAccounts(l: Ledger, op: Op)
    requires Agree(l.tables) && Admissible(l.tables, op)
    requires forall id :: id in l.tables.jobs ==> Accounted(l, id)
    ensures forall id :: id in Record(l, op).tables.jobs ==> Accounted(Record(l, op), id)
  {
    hide Agree, Admissible, Accounted, Step;
    forall id | id in Record(l, op).tables.jobs
      ensures Accounted(Record(l, op), id)
    {
      RowAccounts(l, op, id);
    }
  }

  /**
   * After every run: attempts equal acquisitions (up to the u32 ceiling) and exceed
   * `max_attempts` by at most the retries that took effect; a failed job has used up
   * `max_attempts`, a pending one has an attempt left.
   */
  lemma {:induction false} AttemptsAreAccounted(ops: seq<Op>)
    requires Recorded(ops).Some?
    requires forall i :: 0 <= i < |ops| ==> WorkerIsCanonical(ops[i])
    ensures Run(EMPTY, ops) == Some(Recorded(ops).value.tables)
    ensures Agree(Recorded(ops).value.tables)
    ensures forall id :: id in Recorded(ops).value.tables.jobs ==> Accounted(Recorded(ops).value, id)
  {
    if ops == [] {
      EmptyAgrees();
    } else {
      var front, op := ops[..|ops| - 1], ops[|ops| - 1];
      AttemptsAreAccounted(front);
      RecordAccounts(Recorded(front).value, op);
      StepKeepsAgreement(Recorded(front).value.tables, op);
    }
  }

  ghost predicate IsCancelled(t: Tables, id: string) {
    id in t.jobs && t.jobs[id].state == Cancelled
  }

  predicate Enqueues(op: Op, id: string) {
    op.DoEnqueue? && op.id == id
  }

  /** Of all operations, only enqueueing under its id revives a cancelled job, and that always does. */
  lemma {:induction false} StepRevivesIff(t: Tables, op: Op, id: string)
    requires Agree(t) && Admissible(t, op) && IsCancelled(t, id)
    ensures IsCancelled(Step(t, op), id) <==> !Enqueues(op, id)
    ensures Enqueues(op, id) ==> IsPendingIn(Step(t, op).jobs, op.spec.queue, id)
  {
    StepOnJobs(t, op);
    if op.DoAcquire? && NextPending(t.jobs, op.queue).Some? {
      var job := NextRow(t, op.queue);
    }
    hide Agree, Step, NextPending, Admissible, LeaseId;
  }

  /** Unless it is enqueued again under its id, a cancelled job stays cancelled, whatever is called. */
  lemma {:induction false} CancelledIsFinal(t: Tables, ops: seq<Op>, id: string)
    requires Agree(t) && IsCancelled(t, id) && Run(t, ops).Some?
    requires forall i :: 0 <= i < |ops| ==> WorkerIsCanonical(ops[i]) && !Enqueues(ops[i], id)
    ensures IsCancelled(Run(t, ops).value, id)
  {
    hide Agree, Step, Admissible, IsCancelled, Enqueues;
    if ops != [] {
      var front, op := ops[..|ops| - 1], ops[|ops| - 1];
      CancelledIsFinal(t, front, id);
      RunKeepsAgreement(t, front);
      StepRevivesIff(Run(t, front).value, op, id);
    }
  }

  ghost predicate CancelledAfter(t: Tables, ops: seq<Op>, k: nat, id: string) {
    k <= |ops| && Run(t, ops[..k]).Some? && IsCancelled(Run(t, ops[..k]).value, id)
  }

  /** A cancelled job stays cancelled throughout a run if and only if the run never enqueues its id. */
  lemma {:induction false} StaysCancelledIff(t: Tables, ops: seq<Op>, id: string)
    requires Agree(t) && IsCancelled(t, id) && Run(t, ops).Some?
    requires forall i :: 0 <= i < |ops| ==> WorkerIsCanonical(ops[i])
    ensures (forall k :: 0 <= k <= |ops| ==> CancelledAfter(t, ops, k, id))
      <==> forall i :: 0 <= i < |ops| ==> !Enqueues(ops[i], id)
  {
    hide Agree, Step, Admissible, IsCancelled, Enqueues;
    if forall i :: 0 <= i < |ops| ==> !Enqueues(ops[i], id) {
      forall k | 0 <= k <= |ops|
        ensures CancelledAfter(t, ops, k, id)
      {
        assert ops[..|ops|] == ops;
        RunIsPrefixClosed(t, ops, k, |ops|);
        CancelledIsFinal(t, ops[..k], id);
      }
    } else {
      var i :| 0 <= i < |ops| && Enqueues(ops[i], id);
      assert ops[..|ops|] == ops && ops[..i + 1][..i] == ops[..i];
      RunIsPrefixClosed(t, ops, i + 1, |ops|);
      RunKeepsAgreement(t, ops[..i]);
      if CancelledAfter(t, ops, i, id) {
        StepRevivesIff(Run(t, ops[..i]).value, ops[i], id);
        assert !CancelledAfter(t, ops, i + 1, id);
      }
    }
  }

  // ---------------------------------------------------------------------------
  // Queue order
  // ---------------------------------------------------------------------------

  /** Every later operation is stamped after `mark`, every row of `t` at or before it. */
  ghost predicate StampedAfter(t: Tables, ops: seq<Op>, mark: nat) {
    && (forall id :: id in t.jobs ==> t.jobs[id].updatedAtMs <= mark)
    && (forall i :: 0 <= i < |ops| ==> ops[i].nowMs > mark)
  }

  /** Still the row it was at the start, or rewritten since. */
  ghost predicate OldOrNew(start: Tables, t: Tables, id: string, mark: nat)
    requires id in t.jobs
  {
    (id in start.jobs && t.jobs[id] == start.jobs[id]) || t.jobs[id].updatedAtMs > mark
  }

  lemma StepRestamps(t: Tables, op: Op, id: string)
    requires Agree(t) && Admissible(t, op) && id in Step(t, op).jobs
    ensures (id in t.jobs && Step(t, op).jobs[id] == t.jobs[id]) || Step(t, op).jobs[id].updatedAtMs == op.nowMs
  {
    StepOnJobs(t, op);
  }

  lemma StepKeepsRows(t: Tables, op: Op)
    requires Agree(t) && Admissible(t, op)
    ensures t.jobs.Keys <= Step(t, op).jobs.Keys
  {
    StepOnJobs(t, op);
  }

  lemma {:induction false} RowsAreOldOrNew(start: Tables, ops: seq<Op>, mark: nat, id: string)
    requires Agree(start) && Run(start, ops).Some? && StampedAfter(start, ops, mark)
    requires forall i :: 0 <= i < |ops| ==> WorkerIsCanonical(ops[i])
    requires id in Run(start, ops).value.jobs
    ensures OldOrNew(start, Run(start, ops).value, id, mark)
  {
    if ops != [] {
      var front, op := ops[..|ops| - 1], ops[|ops| - 1];
      RunKeepsAgreement(start, front);
      var before := Run(start, front).value;
      StepRestamps(before, op, id);
      if id in before.jobs {
        RowsAreOldOrNew(start, front, mark, id);
      }
    }
  }

  /** The acquisition `ops[i]` takes `taken` from the queue of `waiting`, which is still as it was. */
  ghost predicate Overtakes(start: Tables, ops: seq<Op>, i: nat, taken: string, waiting: string)
    requires i < |ops| && waiting in start.jobs
  {
    && ops[i].DoAcquire? && ops[i].queue == start.jobs[waiting].spec.queue && taken != waiting
    && Run(start, ops[..i]).Some?
    && var t := Run(start, ops[..i]).value;
    && waiting in t.jobs && t.jobs[waiting] == start.jobs[waiting] && t.jobs[waiting].state == Pending
    && NextPending(t.jobs, ops[i].queue) == Some(taken)
    && taken in t.jobs
  }

  /**
   * While a job waits untouched, no job of lower priority is taken from its queue, and one of
   * equal priority only if it was already pending ahead of it when the wait began.
   */
  lemma OnlyAheadOvertakes(start: Tables, ops: seq<Op>, mark: nat, i: nat, taken: string, waiting: string)
    requires Agree(start) && StampedAfter(start, ops, mark) && i < |ops| && waiting in start.jobs
    requires forall i :: 0 <= i < |ops| ==> WorkerIsCanonical(ops[i])
    requires Overtakes(start, ops, i, taken, waiting)
    ensures
      var row := Run(start, ops[..i]).value.jobs[taken];
      || row.spec.priority > start.jobs[waiting].spec.priority
      || (row.spec.priority == start.jobs[waiting].spec.priority
          && taken in start.jobs && row == start.jobs[taken] && row.state == Pending
          && Ahead(start.jobs[taken], start.jobs[waiting]))
  {
    var t := Run(start, ops[..i]).value;
    assert IsNext(t.jobs, ops[i].queue, taken);
    assert IsPendingIn(t.jobs, ops[i].queue, waiting);
    RowsAreOldOrNew(start, ops[..i], mark, taken);
  }

  lemma {:induction false} NewStaysNew(start: Tables, ops: seq<Op>, mark: nat, id: string, i: nat, k: nat)
    requires Agree(start) && StampedAfter(start, ops, mark) && i <= k <= |ops|
    requires forall i :: 0 <= i < |ops| ==> WorkerIsCanonical(ops[i])
    requires Run(start, ops[..i]).Some? && Run(start, ops[..k]).Some?
    requires id in Run(start, ops[..i]).value.jobs && Run(start, ops[..i]).value.jobs[id].updatedAtMs > mark
    ensures id in Run(start, ops[..k]).value.jobs && Run(start, ops[..k]).value.jobs[id].updatedAtMs > mark
    decreases k
  {
    hide Agree, Step, Admissible;
    if i < k {
      var front, op := ops[..k - 1], ops[k - 1];
      assert ops[..k][..k - 1] == front;
      NewStaysNew(start, ops, mark, id, i, k - 1);
      RunKeepsAgreement(start, front);
      StepKeepsRows(Run(start, front).value, op);
      StepRestamps(Run(start, front).value, op, id);
    }
  }

  /** A job of the same priority overtakes a waiting one at most once. */
  lemma OvertakesAtMostOnce(
      start: Tables, ops: seq<Op>, mark: nat, i: nat, k: nat, taken: string, waiting: string)
    requires Agree(start) && StampedAfter(start, ops, mark) && i < k < |ops| && waiting in start.jobs
    requires forall i :: 0 <= i < |ops| ==> WorkerIsCanonical(ops[i])
    requires Overtakes(start, ops, i, taken, waiting) && Overtakes(start, ops, k, taken, waiting)
    ensures Run(start, ops[..k]).value.jobs[taken].spec.priority > start.jobs[waiting].spec.priority
  {
    hide Agree, Step, NextPending, Admissible, Ahead, WorkerIsCanonical, LeaseId;
    OnlyAheadOvertakes(start, ops, mark, k, taken, waiting);
    var front, op := ops[..i], ops[i];
    assert ops[..i + 1][..i] == front;
    RunKeepsAgreement(start, front);
    RunIsPrefixClosed(start, ops, i + 1, k);
    StepOnJobs(Run(start, front).value, op);
    NewStaysNew(start, ops, mark, taken, i + 1, k);
  }

  lemma {:induction false} RunIsPrefixClosed(t: Tables, ops: seq<Op>, i: nat, k: nat)
    requires i <= k <= |ops| && Run(t, ops[..k]).Some?
    ensures Run(t, ops[..i]).Some?
    decreases k
  {
    if i < k {
      assert ops[..k][..k - 1] == ops[..k - 1];
      RunIsPrefixClosed(t, ops, i, k - 1);
    }
  }
}
