/** What each store operation does to the three tables, as functions of their contents. */
module JobTables {
  import opened Prelude
  import opened JobTypes

  /** The contents of the tables, each keyed by its id column. */
  datatype Tables = Tables(jobs: map<string, Job>, leases: map<string, Lease>, workers: map<string, Worker>)

  /** A failed operation may have written some of the tables before it failed. */
  datatype Outcome<+T> = Outcome(tables: Tables, result: Result<T, StoreError>)

  /** Every row stands under its own id. */
  ghost predicate Keyed(t: Tables) {
    && (forall id :: id in t.jobs ==> t.jobs[id].id == id)
    && (forall id :: id in t.leases ==> t.leases[id].id == id)
    && (forall id :: id in t.workers ==> t.workers[id].id == id)
  }

  const EMPTY: Tables := Tables(map[], map[], map[])

  // ---------------------------------------------------------------------------
  // Row order
  // ---------------------------------------------------------------------------

  /** The order of text columns. */
  predicate TextLess(a: string, b: string) {
    b != "" && (a == "" || a[0] < b[0] || (a[0] == b[0] && TextLess(a[1..], b[1..])))
  }

  lemma {:induction false} TextLessIsTotal(a: string, b: string)
    ensures a == b || TextLess(a, b) || TextLess(b, a)
    ensures !(TextLess(a, b) && TextLess(b, a)) && !TextLess(a, a)
  {
    if a != "" {
      TextLessIsTotal(a[1..], a[1..]);
      if b != "" {
        TextLessIsTotal(a[1..], b[1..]);
        assert a == [a[0]] + a[1..] && b == [b[0]] + b[1..];
      }
    }
  }

  lemma {:induction false} TextLessIsTransitive(a: string, b: string, c: string)
    requires TextLess(a, b) && TextLess(b, c)
    ensures TextLess(a, c)
  {
    if a != "" && a[0] == b[0] == c[0] {
      TextLessIsTransitive(a[1..], b[1..], c[1..]);
    }
  }

  /** `order by priority desc, updated_at_ms asc, id asc`. */
  predicate Ahead(a: Job, b: Job) {
    || a.spec.priority > b.spec.priority
    || (a.spec.priority == b.spec.priority
        && (a.updatedAtMs < b.updatedAtMs || (a.updatedAtMs == b.updatedAtMs && TextLess(a.id, b.id))))
  }

  lemma AheadIsTotal(a: Job, b: Job)
    ensures a.id != b.id ==> Ahead(a, b) || Ahead(b, a)
    ensures !(Ahead(a, b) && Ahead(b, a))
  {
    TextLessIsTotal(a.id, b.id);
  }

  lemma AheadIsTransitive(a: Job, b: Job, c: Job)
    requires Ahead(a, b) && Ahead(b, c)
    ensures Ahead(a, c)
  {
    if TextLess(a.id, b.id) && TextLess(b.id, c.id) {
      TextLessIsTransitive(a.id, b.id, c.id);
    }
  }

  predicate IsPendingIn(jobs: map<string, Job>, queue: string, id: string) {
    id in jobs && jobs[id].spec.queue == queue && jobs[id].state == Pending
  }

  /** `id` is the first pending row of `queue`. */
  ghost predicate IsNext(jobs: map<string, Job>, queue: string, id: string) {
    && IsPendingIn(jobs, queue, id)
    && forall other :: IsPendingIn(jobs, queue, other) && other != id ==> Ahead(jobs[id], jobs[other])
  }

  ghost function NextPending(jobs: map<string, Job>, queue: string): Option<string> {
    if exists id :: IsNext(jobs, queue, id) then
      var id :| IsNext(jobs, queue, id);
      Some(id)
    else None
  }

  lemma NextIsUnique(jobs: map<string, Job>, queue: string, a: string, b: string)
    requires IsNext(jobs, queue, a) && IsNext(jobs, queue, b)
    ensures a == b
  {
    AheadIsTotal(jobs[a], jobs[b]);
  }

  ghost predicate IsLeastId(ids: set<string>, least: string) {
    least in ids && forall id :: id in ids && id != least ==> TextLess(least, id)
  }

  lemma {:induction false} LeastIdExists(ids: set<string>) returns (least: string)
    requires ids != {}
    ensures IsLeastId(ids, least)
    decreases |ids|
  {
    var some :| some in ids;
    var rest := ids - {some};
    least := some;
    if rest != {} {
      var other := LeastIdExists(rest);
      TextLessIsTotal(some, other);
      if TextLess(other, some) {
        least := other;
      } else {
        forall id | id in rest
          ensures TextLess(some, id)
        {
          if id != other {
            TextLessIsTransitive(some, other, id);
          }
        }
      }
    }
  }

  /** The least of a non-empty set of ids. */
  ghost function LeastId(ids: set<string>): (least: string)
    requires ids != {}
    ensures IsLeastId(ids, least)
  {
    assert exists least :: IsLeastId(ids, least) by {
      var least := LeastIdExists(ids);
    }
    var least :| IsLeastId(ids, least);
    least
  }

  lemma LeastIsUnique(ids: set<string>, a: string, b: string)
    requires IsLeastId(ids, a) && IsLeastId(ids, b)
    ensures a == b
  {
    TextLessIsTotal(a, b);
  }

  // ---------------------------------------------------------------------------
  // Workers and leases
  // ---------------------------------------------------------------------------

  function LookupWorker(workers: map<string, Worker>, id: string): Result<Option<Worker>, StoreError> {
    match ValidateWorkerId(id)
    case Err(error) => Err(error)
    case Ok(valid) => Ok(if valid in workers then Some(workers[valid]) else None)
  }

  function MarkWorkerLeased(workers: map<string, Worker>, worker: string, queue: string, lease: Lease, nowMs: nat)
    : Result<map<string, Worker>, StoreError>
  {
    match LookupWorker(workers, worker)
    case Err(error) => Err(error)
    case Ok(found) =>
      match WorkerField(queue)
      case Err(error) => Err(error)
      case Ok(field) =>
        var record := if found.Some? then found.value else WorkerFromLease(worker, queue, nowMs);
        Ok(workers[record.id := record.(
          queue := field, state := Busy, currentJobId := Some(lease.jobId), currentLeaseId := Some(lease.id),
          leaseExpiresAtMs := Some(lease.expiresAtMs), heartbeatAtMs := nowMs)])
  }

  function IdleWorker(record: Worker, nowMs: nat): Worker {
    record.(state := Idle, currentJobId := None, currentLeaseId := None, leaseExpiresAtMs := None,
            heartbeatAtMs := nowMs)
  }

  function ClearWorkerLease(workers: map<string, Worker>, lease: Lease, nowMs: nat)
    : Result<map<string, Worker>, StoreError>
  {
    match LookupWorker(workers, lease.worker)
    case Err(error) => Err(error)
    case Ok(None) => Ok(workers)
    case Ok(Some(record)) =>
      if record.currentLeaseId != Some(lease.id) then Ok(workers)
      else Ok(workers[record.id := IdleWorker(record, nowMs)])
  }

  /** Clears lease by lease and stops at the first worker id that does not validate. */
  function ClearWorkerLeases(workers: map<string, Worker>, leases: seq<Lease>, nowMs: nat)
    : (map<string, Worker>, Result<(), StoreError>)
    decreases |leases|
  {
    if leases == [] then (workers, Ok(()))
    else
      match ClearWorkerLease(workers, leases[0], nowMs)
      case Err(error) => (workers, Err(error))
      case Ok(cleared) => ClearWorkerLeases(cleared, leases[1..], nowMs)
  }

  function UpsertLease(leases: map<string, Lease>, lease: Lease): map<string, Lease> {
    leases[lease.id := if lease.id in leases then leases[lease.id].(expiresAtMs := lease.expiresAtMs) else lease]
  }

  function JobLeaseIds(leases: map<string, Lease>, jobId: string): set<string> {
    set id | id in leases && leases[id].jobId == jobId
  }

  /** The rows of some leases, in the order of their ids. */
  ghost function RowsInOrder(leases: map<string, Lease>, ids: set<string>): (rows: seq<Lease>)
    requires ids <= leases.Keys
  {
    if ids == {} then []
    else
      var least := LeastId(ids);
      [leases[least]] + RowsInOrder(leases, ids - {least})
  }

  ghost function JobLeases(leases: map<string, Lease>, jobId: string): seq<Lease> {
    RowsInOrder(leases, JobLeaseIds(leases, jobId))
  }

  lemma LeastComesFirst(leases: map<string, Lease>, ids: set<string>, least: string)
    requires ids <= leases.Keys && IsLeastId(ids, least)
    ensures RowsInOrder(leases, ids) == [leases[least]] + RowsInOrder(leases, ids - {least})
  {
    LeastIsUnique(ids, least, LeastId(ids));
  }

  lemma NoRow(leases: map<string, Lease>)
    ensures RowsInOrder(leases, {}) == []
  {
  }

  lemma OneRow(leases: map<string, Lease>, id: string)
    requires id in leases
    ensures RowsInOrder(leases, {id}) == [leases[id]]
  {
    assert {id} - {LeastId({id})} == {};
  }

  function DeleteJobLeases(leases: map<string, Lease>, jobId: string): map<string, Lease> {
    map id | id in leases && leases[id].jobId != jobId :: leases[id]
  }

  // ---------------------------------------------------------------------------
  // The operations
  // ---------------------------------------------------------------------------

  function Enqueue(t: Tables, id: string, spec: JobSpec, nowMs: nat): Tables {
    t.(jobs := t.jobs[id := PendingJobStatus(id, spec, nowMs)])
  }

  ghost function Acquire(t: Tables, queue: string, worker: string, leaseMs: nat, nowMs: nat)
    : Outcome<Option<(Job, Lease)>>
  {
    match NextPending(t.jobs, queue)
    case None => Outcome(t, Ok(None))
    case Some(id) =>
      assert IsNext(t.jobs, queue, id);
      var job := t.jobs[id];
      var lease :=
        Lease(LeaseId(nowMs, job.id), job.id, worker, nowMs, SaturatingAdd(nowMs, leaseMs, U64_MAX));
      var leased := LeasedJob(job, lease, nowMs);
      var written := Tables(t.jobs[leased.id := leased], UpsertLease(t.leases, lease), t.workers);
      match MarkWorkerLeased(t.workers, worker, queue, lease, nowMs)
      case Err(error) => Outcome(written, Err(error))
      case Ok(workers) => Outcome(written.(workers := workers), Ok(Some((leased, lease))))
  }

  /** Writes a job's new row, clears the workers of its leases, then deletes the leases. */
  ghost function Release(t: Tables, id: string, job: Job, nowMs: nat): Outcome<Option<Job>> {
    var (workers, cleared) := ClearWorkerLeases(t.workers, JobLeases(t.leases, id), nowMs);
    var written := Tables(t.jobs[job.id := job], t.leases, workers);
    match cleared
    case Err(error) => Outcome(written, Err(error))
    case Ok(_) => Outcome(written.(leases := DeleteJobLeases(t.leases, id)), Ok(Some(job)))
  }

  ghost function Finish(
      t: Tables, id: string, requested: JobState, result: Option<string>, error: Option<string>, nowMs: nat)
    : Outcome<Option<Job>>
  {
    if id !in t.jobs then Outcome(t, Ok(None))
    else if t.jobs[id].state == Cancelled then Outcome(t, Ok(Some(t.jobs[id])))
    else Release(t, id, FinishedJob(t.jobs[id], requested, result, error, nowMs), nowMs)
  }

  ghost function Complete(t: Tables, id: string, result: Option<string>, nowMs: nat): Outcome<Option<Job>> {
    Finish(t, id, Completed, result, None, nowMs)
  }

  ghost function Fail(t: Tables, id: string, error: string, nowMs: nat): Outcome<Option<Job>> {
    Finish(t, id, Failed, None, Some(error), nowMs)
  }

  ghost function Cancel(t: Tables, id: string, nowMs: nat): Outcome<Option<Job>> {
    if id !in t.jobs then Outcome(t, Ok(None))
    else Release(t, id, CancelledJob(t.jobs[id], nowMs), nowMs)
  }

  ghost function Retry(t: Tables, id: string, nowMs: nat): Outcome<Option<Job>> {
    if id !in t.jobs then Outcome(t, Ok(None))
    else if t.jobs[id].state != Failed then Outcome(t, Ok(Some(t.jobs[id])))
    else Release(t, id, RetriedJob(t.jobs[id], nowMs), nowMs)
  }

  predicate IsExpired(t: Tables, id: string, nowMs: nat) {
    && id in t.jobs && t.jobs[id].state == Running
    && t.jobs[id].leaseExpiresAtMs.Some? && t.jobs[id].leaseExpiresAtMs.value <= nowMs
  }

  function ExpiredIds(t: Tables, nowMs: nat): set<string> {
    set id | id in t.jobs && IsExpired(t, id, nowMs)
  }

  /** The order in which the query happens to list the expired running jobs. */
  ghost predicate ListsExpired(t: Tables, order: seq<string>, nowMs: nat) {
    && (forall id :: id in order <==> id in ExpiredIds(t, nowMs))
    && forall i, j :: 0 <= i < j < |order| ==> order[i] != order[j]
  }

  /** One round of the expiry loop, on a row read before the loop began. */
  ghost function ExpireOne(t: Tables, job: Job, nowMs: nat): Outcome<()> {
    var (workers, cleared) := ClearWorkerLeases(t.workers, JobLeases(t.leases, job.id), nowMs);
    Outcome(Tables(t.jobs[job.id := ExpiredJob(job, nowMs)], t.leases, workers), cleared)
  }

  /** The rounds of the expiry loop up to its first failure. */
  ghost function ExpireEach(t: Tables, order: seq<string>, nowMs: nat): Outcome<()>
    requires forall id :: id in order ==> id in t.jobs
  {
    if order == [] then Outcome(t, Ok(()))
    else
      var before := ExpireEach(t, order[..|order| - 1], nowMs);
      if before.result.Err? then before
      else ExpireOne(before.tables, t.jobs[order[|order| - 1]], nowMs)
  }

  lemma ExpireNone(t: Tables, nowMs: nat)
    ensures ExpireEach(t, [], nowMs) == Outcome(t, Ok(()))
  {
  }

  lemma ExpireNext(t: Tables, order: seq<string>, id: string, nowMs: nat)
    requires id in t.jobs && forall other :: other in order ==> other in t.jobs
    ensures ExpireEach(t, order + [id], nowMs) ==
      (var before := ExpireEach(t, order, nowMs);
       if before.result.Err? then before else ExpireOne(before.tables, t.jobs[id], nowMs))
  {
    assert (order + [id])[..|order|] == order;
  }

  function LiveLeases(leases: map<string, Lease>, nowMs: nat): map<string, Lease> {
    map id | id in leases && leases[id].expiresAtMs > nowMs :: leases[id]
  }

  /** Returns how many lease rows were deleted. */
  ghost function Expire(t: Tables, order: seq<string>, nowMs: nat): Outcome<nat>
    requires forall id :: id in order ==> id in t.jobs
  {
    var each := ExpireEach(t, order, nowMs);
    match each.result
    case Err(error) => Outcome(each.tables, Err(error))
    case Ok(_) =>
      var expired := set id | id in each.tables.leases && each.tables.leases[id].expiresAtMs <= nowMs;
      Outcome(each.tables.(leases := LiveLeases(each.tables.leases, nowMs)), Ok(|expired|))
  }

  function Register(t: Tables, registration: Registration, nowMs: nat): Outcome<Worker> {
    match IntoRecord(registration, nowMs)
    case Err(error) => Outcome(t, Err(error))
    case Ok(record) =>
      match LookupWorker(t.workers, record.id)
      case Err(error) => Outcome(t, Err(error))
      case Ok(None) => Outcome(t.(workers := t.workers[record.id := record]), Ok(record))
      case Ok(Some(existing)) =>
        var merged := record.(
          registeredAtMs := existing.registeredAtMs, currentJobId := existing.currentJobId,
          currentLeaseId := existing.currentLeaseId, leaseExpiresAtMs := existing.leaseExpiresAtMs,
          lastError := existing.lastError);
        Outcome(t.(workers := t.workers[merged.id := merged]), Ok(merged))
  }

  function Beat(t: Tables, heartbeat: Heartbeat, nowMs: nat): Outcome<Option<Worker>> {
    match LookupWorker(t.workers, heartbeat.id)
    case Err(error) => Outcome(t, Err(error))
    case Ok(None) => Outcome(t, Ok(None))
    case Ok(Some(record)) =>
      var queue := if heartbeat.queue.Some? then WorkerField(heartbeat.queue.value) else Ok(record.queue);
      if queue.Err? then Outcome(t, Err(queue.error))
      else
        var beaten := record.(
          state := if heartbeat.state.Some? then heartbeat.state.value else record.state,
          queue := queue.value, status := OrElse(heartbeat.status, record.status),
          lastError := OrElse(heartbeat.lastError, record.lastError),
          metadata := OrElse(heartbeat.metadata, record.metadata), heartbeatAtMs := nowMs);
        Outcome(t.(workers := t.workers[beaten.id := beaten]), Ok(Some(beaten)))
  }
}
