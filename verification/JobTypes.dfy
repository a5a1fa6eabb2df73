/** Rows of the durable store and the state changes that a job's own row decides. */
module JobTypes {
  import opened Prelude
  import opened Text

  const U32_MAX: nat := 0xFFFF_FFFF
  const U64_MAX: nat := 0xFFFF_FFFF_FFFF_FFFF

  function SaturatingAdd(a: nat, b: nat, max: nat): nat {
    if a + b <= max then a + b else max
  }

  datatype JobState = Pending | Running | Completed | Failed | Cancelled

  datatype JobSpec = JobSpec(
    kind: string, queue: string, payload: string, priority: int, maxAttempts: nat, timeoutMs: Option<nat>)

  datatype Job = Job(
    id: string, spec: JobSpec, state: JobState, attempts: nat, createdAtMs: nat, updatedAtMs: nat,
    leaseId: Option<string>, leaseExpiresAtMs: Option<nat>, lastError: Option<string>, result: Option<string>)

  datatype Lease = Lease(id: string, jobId: string, worker: string, acquiredAtMs: nat, expiresAtMs: nat)

  /** `Busy` is written `running` in the table. */
  datatype WorkerState = Idle | Busy | Offline

  datatype Worker = Worker(
    id: string, queue: string, runtimeId: Option<string>, service: Option<string>, capabilities: seq<string>,
    state: WorkerState, registeredAtMs: nat, heartbeatAtMs: nat,
    currentJobId: Option<string>, currentLeaseId: Option<string>, leaseExpiresAtMs: Option<nat>,
    status: Option<string>, lastError: Option<string>, metadata: Option<string>)

  datatype Registration = Registration(
    id: string, queue: Option<string>, runtimeId: Option<string>, service: Option<string>,
    capabilities: seq<string>, status: Option<string>, metadata: Option<string>)

  datatype Heartbeat = Heartbeat(
    id: string, state: Option<WorkerState>, queue: Option<string>, status: Option<string>,
    lastError: Option<string>, metadata: Option<string>)

  datatype StoreError = InvalidWorkerId | BlankField

  // ---------------------------------------------------------------------------
  // Job states
  // ---------------------------------------------------------------------------

  function PendingJobStatus(id: string, spec: JobSpec, nowMs: nat): Job {
    Job(id, spec, Pending, 0, nowMs, nowMs, None, None, None, None)
  }

  function ExpiredState(job: Job): JobState {
    if job.attempts >= job.spec.maxAttempts then Failed else Pending
  }

  function FinalJobState(job: Job, requested: JobState): JobState {
    if requested == Failed && job.attempts < job.spec.maxAttempts then Pending else requested
  }

  function LeasedJob(job: Job, lease: Lease, nowMs: nat): Job {
    job.(state := Running, attempts := SaturatingAdd(job.attempts, 1, U32_MAX), updatedAtMs := nowMs,
         leaseId := Some(lease.id), leaseExpiresAtMs := Some(lease.expiresAtMs))
  }

  function FinishedJob(job: Job, requested: JobState, result: Option<string>, error: Option<string>, nowMs: nat): Job {
    job.(state := FinalJobState(job, requested), updatedAtMs := nowMs, result := result, lastError := error,
         leaseId := None, leaseExpiresAtMs := None)
  }

  function CancelledJob(job: Job, nowMs: nat): Job {
    job.(state := Cancelled, updatedAtMs := nowMs, leaseId := None, leaseExpiresAtMs := None)
  }

  function RetriedJob(job: Job, nowMs: nat): Job {
    job.(state := Pending, updatedAtMs := nowMs, result := None, leaseId := None, leaseExpiresAtMs := None)
  }

  function ExpiredJob(job: Job, nowMs: nat): Job {
    job.(state := ExpiredState(job), updatedAtMs := nowMs, lastError := Some("lease expired"),
         leaseId := None, leaseExpiresAtMs := None)
  }

  // ---------------------------------------------------------------------------
  // Workers
  // ---------------------------------------------------------------------------

  predicate IsWorkerIdChar(c: char) {
    'a' <= c <= 'z' || 'A' <= c <= 'Z' || '0' <= c <= '9' || c in {'.', '_', '-', ':'}
  }

  function ValidateWorkerId(value: string): Result<string, StoreError> {
    var trimmed := Trim(value);
    if 0 < |trimmed| <= 128 && (forall c :: c in trimmed ==> IsWorkerIdChar(c)) then Ok(trimmed)
    else Err(InvalidWorkerId)
  }

  /** A worker id that validation leaves as it is. */
  predicate IsCanonicalWorkerId(value: string) {
    ValidateWorkerId(value) == Ok(value)
  }

  function WorkerField(value: string): Result<string, StoreError> {
    var trimmed := Trim(value);
    if trimmed == "" then Err(BlankField) else Ok(trimmed)
  }

  function OptionalField(value: Option<string>): Result<Option<string>, StoreError> {
    if value.None? then Ok(None)
    else
      var field := WorkerField(value.value);
      if field.Err? then Err(field.error) else Ok(Some(field.value))
  }

  function WorkerFields(values: seq<string>): Result<seq<string>, StoreError> {
    if values == [] then Ok([])
    else
      var first := WorkerField(values[0]);
      var rest := WorkerFields(values[1..]);
      if first.Err? then Err(first.error) else if rest.Err? then rest else Ok([first.value] + rest.value)
  }

  function IntoRecord(registration: Registration, nowMs: nat): Result<Worker, StoreError> {
    var id := ValidateWorkerId(registration.id);
    var queue := WorkerField(if registration.queue.Some? then registration.queue.value else "default");
    var runtimeId := OptionalField(registration.runtimeId);
    var service := OptionalField(registration.service);
    var capabilities := WorkerFields(registration.capabilities);
    var status := OptionalField(registration.status);
    if id.Err? then Err(id.error)
    else if queue.Err? || runtimeId.Err? || service.Err? || capabilities.Err? || status.Err? then Err(BlankField)
    else
      Ok(Worker(id.value, queue.value, runtimeId.value, service.value, capabilities.value, Idle, nowMs, nowMs,
                None, None, None, status.value, None, registration.metadata))
  }

  function WorkerFromLease(worker: string, queue: string, nowMs: nat): Worker {
    Worker(worker, queue, None, None, [], Idle, nowMs, nowMs, None, None, None, None, None, None)
  }

  function OrElse<T>(value: Option<T>, other: Option<T>): Option<T> {
    if value.Some? then value else other
  }

  // ---------------------------------------------------------------------------
  // Lease ids
  // ---------------------------------------------------------------------------

  function Decimal(n: nat): (digits: string)
    ensures digits != "" && forall i :: 0 <= i < |digits| ==> '0' <= digits[i] <= '9'
  {
    var digit := ['0' + (n % 10) as char];
    if n < 10 then digit else Decimal(n / 10) + digit
  }

  function LeaseId(nowMs: nat, jobId: string): string {
    "lease_" + Decimal(nowMs) + "_" + jobId
  }

  /** The job of a lease can be read off its id: the first `_` after the time ends the time. */
  lemma LeaseIdNamesJob(nowA: nat, jobA: string, nowB: nat, jobB: string)
    requires LeaseId(nowA, jobA) == LeaseId(nowB, jobB)
    ensures jobA == jobB
  {
    var id := LeaseId(nowA, jobA);
    var a, b := Decimal(nowA), Decimal(nowB);
    assert |a| == |b| by {
      assert forall i :: 0 <= i < |a| ==> id[6 + i] == a[i];
      assert forall i :: 0 <= i < |b| ==> id[6 + i] == b[i];
      assert id[6 + |a|] == '_' && id[6 + |b|] == '_';
    }
    assert id[7 + |a|..] == jobA && id[7 + |b|..] == jobB;
  }
}
