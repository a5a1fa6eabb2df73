/**
 * What each store operation answers and writes, row by row and field by field, where the tables agree.
 */
module JobAnswers {
  import opened Prelude
  import opened Text
  import opened JobTypes
  import opened JobTables
  import opened JobInvariant

  // ---------------------------------------------------------------------------
  // What stays
  // ---------------------------------------------------------------------------

  /** Of the jobs only this one was written. */
  ghost predicate OtherJobsStay(before: Tables, after: Tables, id: string) {
    && after.jobs.Keys == before.jobs.Keys + {id}
    && forall other :: other in before.jobs && other != id ==> after.jobs[other] == before.jobs[other]
  }

  /** Of the workers only this one was written. */
  ghost predicate OtherWorkersStay(before: Tables, after: Tables, id: string) {
    && after.workers.Keys == before.workers.Keys + {id}
    && forall other :: other in before.workers && other != id ==> after.workers[other] == before.workers[other]
  }

  /** The worker serves nobody any more; who it is and what it reported stays. */
  predicate WasFreed(was: Worker, row: Worker, nowMs: nat) {
    row == Worker(
      was.id, was.queue, was.runtimeId, was.service, was.capabilities, Idle, was.registeredAtMs, nowMs,
      None, None, None, was.status, was.lastError, was.metadata)
  }

  /** Exactly the lease rows of these jobs are gone, and exactly the workers that served them are free. */
  ghost predicate Freed(before: Tables, after: Tables, ids: set<string>, nowMs: nat) {
    && (forall lease :: lease in after.leases <==> lease in before.leases && before.leases[lease].jobId !in ids)
    && (forall lease :: lease in after.leases ==> after.leases[lease] == before.leases[lease])
    && after.workers.Keys == before.workers.Keys
    && forall w :: w in before.workers ==>
         if before.workers[w].currentJobId.Some? && before.workers[w].currentJobId.value in ids
         then WasFreed(before.workers[w], after.workers[w], nowMs)
         else after.workers[w] == before.workers[w]
  }

  /** The job's row after it left its lease: what it was enqueued with and its attempts stay. */
  predicate IsRow(
    was: Job, row: Job, state: JobState, lastError: Option<string>, result: Option<string>, nowMs: nat)
  {
    row == Job(was.id, was.spec, state, was.attempts, was.createdAtMs, nowMs, None, None, lastError, result)
  }

  /** The job's row was rewritten, its lease deleted and its worker freed, and the new row returned. */
  ghost predicate Rewrote(
    before: Tables, after: Outcome<Option<Job>>, id: string, state: JobState, lastError: Option<string>,
    result: Option<string>, nowMs: nat)
    requires id in before.jobs
  {
    && id in after.tables.jobs && after.result == Ok(Some(after.tables.jobs[id]))
    && IsRow(before.jobs[id], after.tables.jobs[id], state, lastError, result, nowMs)
    && OtherJobsStay(before, after.tables, id)
    && Freed(before, after.tables, {id}, nowMs)
  }

  /** The worker of a job's lease is the one that names the job. */
  lemma WorkerOfJob(t: Tables, w: string, id: string)
    requires Agree(t) && w in t.workers && id in t.jobs && t.workers[w].currentJobId == Some(id)
    ensures t.jobs[id].state == Running && t.jobs[id].leaseId == t.workers[w].currentLeaseId
    ensures t.leases[t.jobs[id].leaseId.value].worker == w
  {
    assert WorkerAgrees(t, w);
    assert LeaseAgrees(t, t.workers[w].currentLeaseId.value);
  }

  lemma ReleaseFrees(t: Tables, id: string, job: Job, nowMs: nat)
    requires Agree(t) && id in t.jobs && job.id == id
    ensures Freed(t, Release(t, id, job, nowMs).tables, {id}, nowMs)
    ensures Release(t, id, job, nowMs).result == Ok(Some(job))
    ensures Release(t, id, job, nowMs).tables.jobs == t.jobs[id := job]
  {
    hide LeaseId, IsCanonicalWorkerId;
    LeasesOfJob(t, id);
    assert JobAgrees(t, id);
    var after := Release(t, id, job, nowMs).tables;
    if t.jobs[id].state == Running {
      var lease := t.leases[t.jobs[id].leaseId.value];
      assert LeaseAgrees(t, lease.id);
      ClearOne(t.workers, lease, nowMs);
    }
    forall w | w in t.workers
      ensures w in after.workers
      ensures if t.workers[w].currentJobId == Some(id) then WasFreed(t.workers[w], after.workers[w], nowMs)
              else after.workers[w] == t.workers[w]
    {
      assert WorkerAgrees(t, w);
      if t.workers[w].currentJobId == Some(id) {
        WorkerOfJob(t, w, id);
      }
    }
  }

  // ---------------------------------------------------------------------------
  // Jobs
  // ---------------------------------------------------------------------------

  /** The job stands in the table as new, whatever stood there; nothing else is written. */
  lemma EnqueueAnswers(t: Tables, id: string, spec: JobSpec, nowMs: nat)
    ensures var after := Enqueue(t, id, spec, nowMs);
      && OtherJobsStay(t, after, id) && after.leases == t.leases && after.workers == t.workers
      && after.jobs[id] == Job(id, spec, Pending, 0, nowMs, nowMs, None, None, None, None)
  {
  }

  /**
   * A job that fails waits again while it has attempts left, and has failed otherwise, with this error and
   * without a result. An unknown or cancelled job is left alone.
   */
  lemma FailAnswers(t: Tables, id: string, error: string, nowMs: nat)
    requires Agree(t)
    ensures id !in t.jobs ==> Fail(t, id, error, nowMs) == Outcome(t, Ok(None))
    ensures id in t.jobs && t.jobs[id].state == Cancelled ==>
      Fail(t, id, error, nowMs) == Outcome(t, Ok(Some(t.jobs[id])))
    ensures id in t.jobs && t.jobs[id].state != Cancelled ==>
      var state := if t.jobs[id].attempts >= t.jobs[id].spec.maxAttempts then Failed else Pending;
      Rewrote(t, Fail(t, id, error, nowMs), id, state, Some(error), None, nowMs)
  {
    hide Agree, Freed, Release;
    if id in t.jobs && t.jobs[id].state != Cancelled {
      assert t.jobs[id].id == id by { KeyedJob(t, id); }
      ReleaseFrees(t, id, FinishedJob(t.jobs[id], Failed, None, Some(error), nowMs), nowMs);
    }
  }

  lemma KeyedJob(t: Tables, id: string)
    requires Agree(t) && id in t.jobs
    ensures t.jobs[id].id == id
  {
  }

  /** A job that completes is completed, with this result and without an error, however often it was tried. */
  lemma CompleteAnswers(t: Tables, id: string, result: Option<string>, nowMs: nat)
    requires Agree(t)
    ensures id !in t.jobs ==> Complete(t, id, result, nowMs) == Outcome(t, Ok(None))
    ensures id in t.jobs && t.jobs[id].state == Cancelled ==>
      Complete(t, id, result, nowMs) == Outcome(t, Ok(Some(t.jobs[id])))
    ensures id in t.jobs && t.jobs[id].state != Cancelled ==>
      Rewrote(t, Complete(t, id, result, nowMs), id, Completed, None, result, nowMs)
  {
    hide Agree, Freed, Release;
    if id in t.jobs && t.jobs[id].state != Cancelled {
      KeyedJob(t, id);
      ReleaseFrees(t, id, FinishedJob(t.jobs[id], Completed, result, None, nowMs), nowMs);
    }
  }

  /** Any known job is cancelled; its error and its result stay. */
  lemma CancelAnswers(t: Tables, id: string, nowMs: nat)
    requires Agree(t)
    ensures id !in t.jobs ==> Cancel(t, id, nowMs) == Outcome(t, Ok(None))
    ensures id in t.jobs ==>
      Rewrote(t, Cancel(t, id, nowMs), id, Cancelled, t.jobs[id].lastError, t.jobs[id].result, nowMs)
  {
    hide Agree, Freed, Release;
    if id in t.jobs {
      KeyedJob(t, id);
      ReleaseFrees(t, id, CancelledJob(t.jobs[id], nowMs), nowMs);
    }
  }

  /** A failed job waits again, without its result but with its error; any other is left alone. */
  lemma RetryAnswers(t: Tables, id: string, nowMs: nat)
    requires Agree(t)
    ensures id !in t.jobs ==> Retry(t, id, nowMs) == Outcome(t, Ok(None))
    ensures id in t.jobs && t.jobs[id].state != Failed ==> Retry(t, id, nowMs) == Outcome(t, Ok(Some(t.jobs[id])))
    ensures id in t.jobs && t.jobs[id].state == Failed ==>
      Rewrote(t, Retry(t, id, nowMs), id, Pending, t.jobs[id].lastError, None, nowMs)
  {
    hide Agree, Freed, Release;
    if id in t.jobs && t.jobs[id].state == Failed {
      KeyedJob(t, id);
      ReleaseFrees(t, id, RetriedJob(t.jobs[id], nowMs), nowMs);
    }
  }

  // ---------------------------------------------------------------------------
  // Expiry
  // ---------------------------------------------------------------------------

  /** The job is running under a lease whose time is over. */
  predicate IsOverdue(job: Job, nowMs: nat) {
    job.state == Running && job.leaseExpiresAtMs.Some? && job.leaseExpiresAtMs.value <= nowMs
  }

  function Overdue(t: Tables, nowMs: nat): set<string> {
    set id | id in t.jobs && IsOverdue(t.jobs[id], nowMs)
  }

  /**
   * Exactly the overdue jobs leave their leases: each has failed if its attempts are used up, and waits again
   * otherwise. The answer is how many they are.
   */
  lemma ExpireAnswers(t: Tables, order: seq<string>, nowMs: nat)
    requires Agree(t) && ListsExpired(t, order, nowMs)
    ensures forall id :: id in order ==> id in t.jobs
    ensures
      var after := Expire(t, order, nowMs);
      && after.result == Ok(|Overdue(t, nowMs)|)
      && after.tables.jobs.Keys == t.jobs.Keys
      && (forall id :: id in t.jobs ==>
            if IsOverdue(t.jobs[id], nowMs) then
              var state := if t.jobs[id].attempts >= t.jobs[id].spec.maxAttempts then Failed else Pending;
              IsRow(t.jobs[id], after.tables.jobs[id], state, Some("lease expired"), t.jobs[id].result, nowMs)
            else after.tables.jobs[id] == t.jobs[id])
      && Freed(t, after.tables, Overdue(t, nowMs), nowMs)
  {
    ExpireKeepsAgreement(t, order, nowMs);
    assert ExpiredIds(t, nowMs) == Overdue(t, nowMs);
    hide ExpireEach, Expire;
    LeasesOverdue(t, nowMs);
    ExpiryFrees(t, nowMs);
    hide Agree, Freed;
  }

  /** A lease row is as long over as the lease of its job. */
  lemma LeasesOverdue(t: Tables, nowMs: nat)
    requires Agree(t)
    ensures forall lease :: lease in t.leases ==>
      (t.leases[lease].expiresAtMs <= nowMs <==> t.leases[lease].jobId in Overdue(t, nowMs))
  {
    hide LeaseId, IsCanonicalWorkerId;
    forall lease | lease in t.leases
      ensures t.leases[lease].expiresAtMs <= nowMs <==> t.leases[lease].jobId in Overdue(t, nowMs)
    {
      assert LeaseAgrees(t, lease);
      assert JobAgrees(t, t.leases[lease].jobId);
    }
  }

  lemma ExpiryFrees(t: Tables, nowMs: nat)
    requires Agree(t) && ExpiredIds(t, nowMs) == Overdue(t, nowMs)
    ensures Freed(t, AfterLoop(t, ExpiredIds(t, nowMs), nowMs).(leases := LiveLeases(t.leases, nowMs)),
                  Overdue(t, nowMs), nowMs)
  {
    hide LeaseId, IsCanonicalWorkerId;
    LeasesOverdue(t, nowMs);
    forall w | w in t.workers
      ensures ServesOneOf(t, Overdue(t, nowMs), t.workers[w])
        <==> t.workers[w].currentJobId.Some? && t.workers[w].currentJobId.value in Overdue(t, nowMs)
    {
      assert WorkerAgrees(t, w);
    }
    hide Agree;
  }

  // ---------------------------------------------------------------------------
  // Acquiring
  // ---------------------------------------------------------------------------

  /** The texts are equal up to place `n`, where the first ends or has the lesser character. */
  predicate FallsBehindAt(a: string, b: string, n: nat) {
    n <= |a| && n < |b| && a[..n] == b[..n] && (n == |a| || a[n] < b[n])
  }

  /** Text columns are ordered as dictionaries are. */
  ghost predicate ComesBefore(a: string, b: string) {
    exists n: nat :: FallsBehindAt(a, b, n)
  }

  lemma FirstAgrees(a: string, b: string, n: nat)
    requires FallsBehindAt(a, b, n)
    ensures n > 0 ==> a != "" && a[0] == b[0]
  {
    assert n > 0 ==> a[..n][0] == b[..n][0];
  }

  lemma {:induction false} TextOrder(a: string, b: string)
    ensures TextLess(a, b) <==> ComesBefore(a, b)
  {
    if a != "" && b != "" && a[0] == b[0] {
      TextOrder(a[1..], b[1..]);
      if n: nat :| FallsBehindAt(a[1..], b[1..], n) {
        assert a[..n + 1] == [a[0]] + a[1..][..n] && b[..n + 1] == [b[0]] + b[1..][..n];
        assert FallsBehindAt(a, b, n + 1);
      }
      if n: nat :| FallsBehindAt(a, b, n) {
        assert a[1..][..n - 1] == a[..n][1..] && b[1..][..n - 1] == b[..n][1..];
        assert FallsBehindAt(a[1..], b[1..], n - 1);
      }
    } else {
      if n: nat :| FallsBehindAt(a, b, n) {
        FirstAgrees(a, b, n);
      }
      if TextLess(a, b) {
        assert FallsBehindAt(a, b, 0);
      }
    }
  }

  /** Of higher priority; if equal, written earlier; if equal, of the lesser id. */
  ghost predicate IsServedBefore(a: Job, b: Job) {
    a.spec.priority > b.spec.priority ||
    (a.spec.priority == b.spec.priority
     && (a.updatedAtMs < b.updatedAtMs || (a.updatedAtMs == b.updatedAtMs && ComesBefore(a.id, b.id))))
  }

  predicate Waits(job: Job, queue: string) {
    job.state == Pending && job.spec.queue == queue
  }

  /** The job waits in the queue, and is served before all others that do. */
  ghost predicate IsServedNext(t: Tables, queue: string, id: string) {
    && id in t.jobs && Waits(t.jobs[id], queue)
    && forall other :: other in t.jobs && other != id && Waits(t.jobs[other], queue) ==>
         IsServedBefore(t.jobs[id], t.jobs[other])
  }

  lemma {:induction false} NextIsServed(t: Tables, queue: string, id: string)
    requires Agree(t)
    ensures NextPending(t.jobs, queue) == Some(id) <==> IsServedNext(t, queue, id)
  {
    hide TextLess, ComesBefore, NextPending;
    forall other | other in t.jobs && id in t.jobs
      ensures Ahead(t.jobs[id], t.jobs[other]) <==> IsServedBefore(t.jobs[id], t.jobs[other])
    {
      TextOrder(t.jobs[id].id, t.jobs[other].id);
    }
    hide Ahead, IsServedBefore;
    assert forall other :: IsPendingIn(t.jobs, queue, other) <==> other in t.jobs && Waits(t.jobs[other], queue);
    assert IsNext(t.jobs, queue, id) <==> IsServedNext(t, queue, id);
    NextIsFirst(t.jobs, queue, id);
  }

  lemma {:induction false} NextIsFirst(jobs: map<string, Job>, queue: string, id: string)
    ensures NextPending(jobs, queue) == Some(id) <==> IsNext(jobs, queue, id)
  {
    hide Ahead;
    if IsNext(jobs, queue, id) {
      NextIsUnique(jobs, queue, id, NextPending(jobs, queue).value);
    }
  }

  /** Some row of a queue is served first, unless none waits there. */
  lemma {:induction false} FirstExists(jobs: map<string, Job>, queue: string, ids: set<string>)
    returns (first: string)
    requires ids != {} && forall id :: id in ids ==> id in jobs && jobs[id].id == id
    ensures first in ids && forall id :: id in ids && id != first ==> Ahead(jobs[first], jobs[id])
    decreases |ids|
  {
    hide Ahead;
    var some :| some in ids;
    var rest := ids - {some};
    first := some;
    if rest != {} {
      var other := FirstExists(jobs, queue, rest);
      AheadIsTotal(jobs[some], jobs[other]);
      if Ahead(jobs[other], jobs[some]) {
        first := other;
      } else {
        forall id | id in rest && id != other
          ensures Ahead(jobs[some], jobs[id])
        {
          AheadIsTransitive(jobs[some], jobs[other], jobs[id]);
        }
      }
    }
  }

  lemma {:induction false} NoneNextIffNoneWaits(t: Tables, queue: string)
    requires Agree(t)
    ensures NextPending(t.jobs, queue).None? <==> forall id :: id in t.jobs ==> !Waits(t.jobs[id], queue)
  {
    hide Ahead;
    var ids := set id | id in t.jobs && Waits(t.jobs[id], queue);
    if ids != {} {
      var first := FirstExists(t.jobs, queue, ids);
      forall other | IsPendingIn(t.jobs, queue, other) && other != first
        ensures Ahead(t.jobs[first], t.jobs[other])
      {
        assert other in ids;
      }
      assert IsNext(t.jobs, queue, first) && first in t.jobs && Waits(t.jobs[first], queue);
    }
    assert forall id :: id in t.jobs && Waits(t.jobs[id], queue) ==> id in ids;
    if NextPending(t.jobs, queue).Some? {
      var id := NextPending(t.jobs, queue).value;
      assert IsNext(t.jobs, queue, id) && id in ids;
    }
  }

  /** The job runs under a new lease, and has been tried once more. */
  predicate IsLeased(was: Job, row: Job, lease: Lease, nowMs: nat) {
    row == Job(
      was.id, was.spec, Running, if was.attempts < 0xFFFF_FFFF then was.attempts + 1 else 0xFFFF_FFFF,
      was.createdAtMs, nowMs, Some(lease.id), Some(lease.expiresAtMs), was.lastError, was.result)
  }

  /** The worker serves this lease in this queue; a worker never heard of is entered as new. */
  predicate Serves(was: Option<Worker>, row: Worker, queue: string, lease: Lease, nowMs: nat) {
    row ==
      match was
      case None =>
        Worker(lease.worker, Trim(queue), None, None, [], Busy, nowMs, nowMs,
               Some(lease.jobId), Some(lease.id), Some(lease.expiresAtMs), None, None, None)
      case Some(w) =>
        Worker(w.id, Trim(queue), w.runtimeId, w.service, w.capabilities, Busy, w.registeredAtMs, nowMs,
               Some(lease.jobId), Some(lease.id), Some(lease.expiresAtMs), w.status, w.lastError, w.metadata)
  }

  function Found<T>(rows: map<string, T>, id: string): (row: Option<T>)
    ensures row.Some? <==> id in rows
    ensures id in rows ==> row == Some(rows[id])
  {
    if id in rows then Some(rows[id]) else None
  }

  /** The last time that 64 bits can hold. */
  const LATEST: nat := 18446744073709551615

  /** The job at the head of the queue is leased: its row, the lease's and the worker's are written. */
  ghost predicate Leased(
    before: Tables, after: Tables, id: string, lease: Lease, queue: string, worker: string, leaseMs: nat, nowMs: nat)
  {
    && id in before.jobs && id in after.jobs && worker in after.workers
    && lease.jobId == id && lease.worker == worker && lease.acquiredAtMs == nowMs
    && lease.expiresAtMs == (if nowMs + leaseMs < LATEST then nowMs + leaseMs else LATEST)
    && IsLeased(before.jobs[id], after.jobs[id], lease, nowMs) && OtherJobsStay(before, after, id)
    && lease.id !in before.leases && after.leases == before.leases[lease.id := lease]
    && Serves(Found(before.workers, worker), after.workers[worker], queue, lease, nowMs)
    && OtherWorkersStay(before, after, worker)
  }

  /**
   * A worker gets the job that is served next in the queue, and nothing if none waits there. That its id is
   * canonical and the queue's name not blank is what the other cases fail on (`AcquireFailsIff`).
   */
  lemma {:induction false} AcquireAnswers(t: Tables, queue: string, worker: string, leaseMs: nat, nowMs: nat)
    requires Agree(t) && IsCanonicalWorkerId(worker) && Trim(queue) != ""
    ensures (forall id :: id in t.jobs ==> !Waits(t.jobs[id], queue)) ==>
      Acquire(t, queue, worker, leaseMs, nowMs) == Outcome(t, Ok(None))
    ensures forall id :: IsServedNext(t, queue, id) ==>
      var after := Acquire(t, queue, worker, leaseMs, nowMs);
      && after.result.Ok? && after.result.value.Some?
      && var (row, lease) := after.result.value.value;
      && Leased(t, after.tables, id, lease, queue, worker, leaseMs, nowMs) && row == after.tables.jobs[id]
    ensures (exists id :: id in t.jobs && Waits(t.jobs[id], queue)) ==> exists id :: IsServedNext(t, queue, id)
  {
    NoneNextIffNoneWaits(t, queue);
    var next := NextPending(t.jobs, queue);
    hide Trim, NextPending, IsServedNext, IsCanonicalWorkerId;
    if next.Some? {
      NextIsServed(t, queue, next.value);
      NextIsLeased(t, queue, worker, leaseMs, nowMs);
    }
    forall id | IsServedNext(t, queue, id)
      ensures next == Some(id)
    {
      NextIsServed(t, queue, id);
    }
    hide Agree;
  }

  lemma {:induction false} NextIsLeased(t: Tables, queue: string, worker: string, leaseMs: nat, nowMs: nat)
    requires Agree(t) && IsCanonicalWorkerId(worker) && Trim(queue) != "" && NextPending(t.jobs, queue).Some?
    ensures
      var after := Acquire(t, queue, worker, leaseMs, nowMs);
      && after.result.Ok? && after.result.value.Some? && NextPending(t.jobs, queue).value in after.tables.jobs
      && var (row, lease) := after.result.value.value;
      && Leased(t, after.tables, NextPending(t.jobs, queue).value, lease, queue, worker, leaseMs, nowMs)
      && row == after.tables.jobs[NextPending(t.jobs, queue).value]
  {
    var job := NextRow(t, queue);
    LeaseIdIsFresh(t, job.id, nowMs);
    LookupCanonical(t.workers, worker);
    assert worker in t.workers ==> t.workers[worker].id == worker;
    hide Agree, NextPending, LeaseId, Trim, IsCanonicalWorkerId, ValidateWorkerId;
  }

  // ---------------------------------------------------------------------------
  // Workers
  // ---------------------------------------------------------------------------

  /** Letters, digits, dots, underscores, dashes and colons. */
  predicate IsIdChar(c: char) {
    || 'a' <= c <= 'z' || 'A' <= c <= 'Z' || '0' <= c <= '9'
    || c == '.' || c == '_' || c == '-' || c == ':'
  }

  /** Validation leaves an id alone if it has 1 to 128 characters, all of the allowed ones. */
  lemma CanonicalIff(id: string)
    ensures IsCanonicalWorkerId(id) <==> 1 <= |id| <= 128 && forall i :: 0 <= i < |id| ==> IsIdChar(id[i])
  {
    if 1 <= |id| <= 128 && forall i :: 0 <= i < |id| ==> IsIdChar(id[i]) {
      IdCharsAreNotWhite(id[0]);
      IdCharsAreNotWhite(id[|id| - 1]);
      hide IsWhite;
      assert Trim(id) == id;
      forall c | c in id
        ensures IsWorkerIdChar(c)
      {
        var i :| 0 <= i < |id| && id[i] == c;
        assert IsIdChar(id[i]);
      }
    }
    hide Trim, IsWhite;
    if IsCanonicalWorkerId(id) {
      forall i | 0 <= i < |id|
        ensures IsIdChar(id[i])
      {
        assert id[i] in id;
      }
    }
  }

  lemma IdCharsAreNotWhite(c: char)
    requires IsIdChar(c)
    ensures !IsWhite(c)
  {
  }

  /** Any other id is either trimmed to such a one or refused. */
  lemma ValidatedIsCanonical(id: string)
    ensures ValidateWorkerId(id) ==
      if IsCanonicalWorkerId(Trim(id)) then Ok(Trim(id)) else Err(InvalidWorkerId)
  {
    hide Trim, IsWorkerIdChar;
  }

  /** A field that is given is not blank. */
  predicate NotBlank(field: Option<string>) {
    field.Some? ==> Trim(field.value) != ""
  }

  function Trimmed(field: Option<string>): Option<string> {
    if field.None? then None else Some(Trim(field.value))
  }

  predicate AreTrimmed(fields: seq<string>, trimmed: seq<string>) {
    |trimmed| == |fields| && forall i :: 0 <= i < |fields| ==> trimmed[i] == Trim(fields[i])
  }

  lemma {:induction false} FieldsAnswer(values: seq<string>)
    ensures WorkerFields(values).Ok? <==> forall i :: 0 <= i < |values| ==> Trim(values[i]) != ""
    ensures WorkerFields(values).Ok? ==> AreTrimmed(values, WorkerFields(values).value)
    ensures WorkerFields(values).Err? ==> WorkerFields(values).error == BlankField
  {
    hide Trim;
    if values != [] {
      FieldsAnswer(values[1..]);
      assert forall i :: 0 <= i < |values| - 1 ==> values[1..][i] == values[i + 1];
      if Trim(values[0]) != "" && forall i :: 0 <= i < |values[1..]| ==> Trim(values[1..][i]) != "" {
        forall i | 0 <= i < |values|
          ensures Trim(values[i]) != ""
        {
          assert i > 0 ==> values[i] == values[1..][i - 1];
        }
      }
    }
  }

  predicate IsComplete(r: Registration) {
    && NotBlank(r.queue) && NotBlank(r.runtimeId) && NotBlank(r.service) && NotBlank(r.status)
    && forall i :: 0 <= i < |r.capabilities| ==> Trim(r.capabilities[i]) != ""
  }

  /** The row of a registered worker: as registered, but with the lease and the error it had. */
  predicate IsRegistered(r: Registration, was: Option<Worker>, row: Worker, nowMs: nat) {
    && row.id == Trim(r.id) && row.queue == (if r.queue.None? then "default" else Trim(r.queue.value))
    && row.runtimeId == Trimmed(r.runtimeId) && row.service == Trimmed(r.service)
    && AreTrimmed(r.capabilities, row.capabilities) && row.status == Trimmed(r.status)
    && row.metadata == r.metadata && row.state == Idle && row.heartbeatAtMs == nowMs
    && row.registeredAtMs == (if was.None? then nowMs else was.value.registeredAtMs)
    && row.currentJobId == (if was.None? then None else was.value.currentJobId)
    && row.currentLeaseId == (if was.None? then None else was.value.currentLeaseId)
    && row.leaseExpiresAtMs == (if was.None? then None else was.value.leaseExpiresAtMs)
    && row.lastError == (if was.None? then None else was.value.lastError)
  }

  /** A registration is refused for a bad id or a blank field, and then nothing is written. */
  lemma RegisterAnswers(t: Tables, r: Registration, nowMs: nat)
    ensures
      var after := Register(t, r, nowMs);
      if !IsCanonicalWorkerId(Trim(r.id)) then after == Outcome(t, Err(InvalidWorkerId))
      else if !IsComplete(r) then after == Outcome(t, Err(BlankField))
      else
        && Trim(r.id) in after.tables.workers && after.result == Ok(after.tables.workers[Trim(r.id)])
        && IsRegistered(r, Found(t.workers, Trim(r.id)), after.tables.workers[Trim(r.id)], nowMs)
        && OtherWorkersStay(t, after.tables, Trim(r.id))
        && after.tables.jobs == t.jobs && after.tables.leases == t.leases
  {
    ValidatedIsCanonical(r.id);
    FieldsAnswer(r.capabilities);
    PlainDefault();
    hide Trim, IsCanonicalWorkerId, ValidateWorkerId, WorkerFields;
    if IsCanonicalWorkerId(Trim(r.id)) {
      LookupCanonical(t.workers, Trim(r.id));
    }
  }

  lemma PlainDefault()
    ensures Trim("default") == "default"
  {
  }

  /** A given value replaces the one there was. */
  predicate IsGivenOr<T(==)>(given: Option<T>, was: Option<T>, row: Option<T>) {
    row == if given.Some? then given else was
  }

  predicate IsBeaten(h: Heartbeat, was: Worker, row: Worker, nowMs: nat) {
    && row.state == (if h.state.Some? then h.state.value else was.state)
    && row.queue == (if h.queue.Some? then Trim(h.queue.value) else was.queue)
    && IsGivenOr(h.status, was.status, row.status) && IsGivenOr(h.lastError, was.lastError, row.lastError)
    && IsGivenOr(h.metadata, was.metadata, row.metadata)
    && row == Worker(
         was.id, row.queue, was.runtimeId, was.service, was.capabilities, row.state, was.registeredAtMs, nowMs,
         was.currentJobId, was.currentLeaseId, was.leaseExpiresAtMs, row.status, row.lastError, row.metadata)
  }

  /** A heartbeat writes what it names, and nothing of an unknown worker. */
  lemma HeartbeatAnswers(t: Tables, h: Heartbeat, nowMs: nat)
    requires Agree(t)
    ensures
      var after := Beat(t, h, nowMs);
      if !IsCanonicalWorkerId(Trim(h.id)) then after == Outcome(t, Err(InvalidWorkerId))
      else if Trim(h.id) !in t.workers then after == Outcome(t, Ok(None))
      else if !NotBlank(h.queue) then after == Outcome(t, Err(BlankField))
      else
        && Trim(h.id) in after.tables.workers && after.result == Ok(Some(after.tables.workers[Trim(h.id)]))
        && IsBeaten(h, t.workers[Trim(h.id)], after.tables.workers[Trim(h.id)], nowMs)
        && OtherWorkersStay(t, after.tables, Trim(h.id))
        && after.tables.jobs == t.jobs && after.tables.leases == t.leases
  {
    ValidatedIsCanonical(h.id);
    assert Trim(h.id) in t.workers ==> t.workers[Trim(h.id)].id == Trim(h.id);
    hide Agree, Trim, IsCanonicalWorkerId, ValidateWorkerId;
  }

  // ---------------------------------------------------------------------------
  // Lease ids
  // ---------------------------------------------------------------------------

  /** What a row of decimal digits stands for. */
  function ValueOf(digits: string): nat
    requires forall i :: 0 <= i < |digits| ==> '0' <= digits[i] <= '9'
  {
    if digits == "" then 0 else ValueOf(digits[..|digits| - 1]) * 10 + (digits[|digits| - 1] - '0') as nat
  }

  /** A lease id names its time in decimal digits without leading zeros, and its job. */
  lemma LeaseIdReads(nowMs: nat, jobId: string)
    ensures LeaseId(nowMs, jobId) == "lease_" + (Decimal(nowMs) + ("_" + jobId))
    ensures ValueOf(Decimal(nowMs)) == nowMs && (|Decimal(nowMs)| > 1 ==> Decimal(nowMs)[0] != '0')
  {
    DecimalIsRead(nowMs);
    assert LeaseId(nowMs, jobId) == "lease_" + (Decimal(nowMs) + ("_" + jobId));
  }

  lemma {:induction false} DecimalIsRead(n: nat)
    ensures ValueOf(Decimal(n)) == n && (n > 0 ==> Decimal(n)[0] != '0')
    ensures |Decimal(n)| > 1 ==> n > 0
  {
    hide ValueOf;
    var c := '0' + (n % 10) as char;
    if n < 10 {
      assert [] + [c] == [c];
      ValueOfMore("", c);
      NoDigits();
    } else {
      DecimalIsRead(n / 10);
      ValueOfMore(Decimal(n / 10), c);
    }
  }

  lemma NoDigits()
    ensures ValueOf("") == 0
  {
  }

  lemma {:induction false} ValueOfMore(digits: string, c: char)
    requires (forall i :: 0 <= i < |digits| ==> '0' <= digits[i] <= '9') && '0' <= c <= '9'
    ensures ValueOf(digits + [c]) == ValueOf(digits) * 10 + (c - '0') as nat
  {
    assert (digits + [c])[..|digits|] == digits;
  }
}
