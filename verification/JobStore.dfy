/**
 * The durable store: three tables that every operation updates in place. Each method is one
 * atomic step; its contract is the matching function of `JobTables`.
 */
module JobStore {
  import opened Prelude
  import opened JobTypes
  import T = JobTables

  class GatewayStore {
    var jobs: map<string, Job>
    var leases: map<string, Lease>
    var workers: map<string, Worker>

    ghost function Contents(): T.Tables
      reads this
    {
      T.Tables(jobs, leases, workers)
    }

    ghost predicate Valid()
      reads this
    {
      T.Keyed(Contents())
    }

    constructor ()
      ensures Valid() && Contents() == T.EMPTY
    {
      jobs, leases, workers := map[], map[], map[];
    }

    // -------------------------------------------------------------------------
    // Queries
    // -------------------------------------------------------------------------

    method NextPendingJob(queue: string) returns (next: Option<string>)
      requires Valid()
      ensures next == T.NextPending(jobs, queue)
      ensures next.None? ==> forall id :: !T.IsPendingIn(jobs, queue, id)
    {
      next := None;
      var rest := jobs.Keys;
      while rest != {}
        invariant rest <= jobs.Keys
        invariant next.None? ==> forall id :: id in jobs && id !in rest ==> !T.IsPendingIn(jobs, queue, id)
        invariant next.Some? ==> T.IsPendingIn(jobs, queue, next.value) && next.value !in rest
        invariant next.Some? ==> forall id ::
            T.IsPendingIn(jobs, queue, id) && id !in rest && id != next.value ==> T.Ahead(jobs[next.value], jobs[id])
        decreases |rest|
      {
        var id :| id in rest;
        rest := rest - {id};
        if T.IsPendingIn(jobs, queue, id) {
          if next.None? {
            next := Some(id);
          } else if T.Ahead(jobs[id], jobs[next.value]) {
            forall other | T.IsPendingIn(jobs, queue, other) && other !in rest && other != id
              ensures T.Ahead(jobs[id], jobs[other])
            {
              if other != next.value {
                T.AheadIsTransitive(jobs[id], jobs[next.value], jobs[other]);
              }
            }
            next := Some(id);
          } else {
            T.AheadIsTotal(jobs[id], jobs[next.value]);
          }
        }
      }
      if next.Some? {
        assert T.IsNext(jobs, queue, next.value);
        ghost var chosen := T.NextPending(jobs, queue);
        T.NextIsUnique(jobs, queue, chosen.value, next.value);
      }
    }

    /** `select ... from gateway_leases where job_id = ? order by id`. */
    method JobLeases(jobId: string) returns (rows: seq<Lease>)
      ensures rows == T.JobLeases(leases, jobId)
    {
      hide T.RowsInOrder, T.IsLeastId;
      T.NoRow(leases);
      rows := [];
      var rest := T.JobLeaseIds(leases, jobId);
      ghost var all := T.RowsInOrder(leases, rest);
      while rest != {}
        invariant rest <= T.JobLeaseIds(leases, jobId)
        invariant rows + T.RowsInOrder(leases, rest) == all
        decreases |rest|
      {
        var least := LeastRow(rest);
        T.LeastComesFirst(leases, rest, least);
        rows := rows + [leases[least]];
        rest := rest - {least};
      }
    }

    static method LeastRow(ids: set<string>) returns (least: string)
      requires ids != {}
      ensures T.IsLeastId(ids, least)
    {
      least :| least in ids;
      var rest := ids - {least};
      while rest != {}
        invariant rest <= ids && T.IsLeastId(ids - rest, least)
        decreases |rest|
      {
        var id :| id in rest;
        ghost var seen := ids - rest;
        rest := rest - {id};
        assert ids - rest == seen + {id};
        T.TextLessIsTotal(id, least);
        if T.TextLess(id, least) {
          forall other | other in seen
            ensures T.TextLess(id, other)
          {
            if other != least {
              T.TextLessIsTransitive(id, least, other);
            }
          }
          least := id;
        }
      }
      assert ids - rest == ids;
    }

    // -------------------------------------------------------------------------
    // Leases of workers
    // -------------------------------------------------------------------------

    method MarkWorkerLeased(worker: string, queue: string, lease: Lease, nowMs: nat) returns (r: Result<(), StoreError>)
      requires Valid()
      modifies this`workers
      ensures Valid()
      ensures match T.MarkWorkerLeased(old(workers), worker, queue, lease, nowMs)
              case Err(error) => r == Err(error) && workers == old(workers)
              case Ok(marked) => r == Ok(()) && workers == marked
    {
      var found := T.LookupWorker(workers, worker);
      if found.Err? {
        return Err(found.error);
      }
      var record := if found.value.Some? then found.value.value else WorkerFromLease(worker, queue, nowMs);
      var field := WorkerField(queue);
      if field.Err? {
        return Err(field.error);
      }
      record := record.(queue := field.value);
      record := record.(state := Busy);
      record := record.(currentJobId := Some(lease.jobId), currentLeaseId := Some(lease.id));
      record := record.(leaseExpiresAtMs := Some(lease.expiresAtMs), heartbeatAtMs := nowMs);
      workers := workers[record.id := record];
      r := Ok(());
    }

    method ClearWorkerLease(lease: Lease, nowMs: nat) returns (r: Result<(), StoreError>)
      requires Valid()
      modifies this`workers
      ensures Valid()
      ensures match T.ClearWorkerLease(old(workers), lease, nowMs)
              case Err(error) => r == Err(error) && workers == old(workers)
              case Ok(cleared) => r == Ok(()) && workers == cleared
    {
      var found := T.LookupWorker(workers, lease.worker);
      if found.Err? {
        return Err(found.error);
      }
      if found.value.None? || found.value.value.currentLeaseId != Some(lease.id) {
        return Ok(());
      }
      var record := T.IdleWorker(found.value.value, nowMs);
      workers := workers[record.id := record];
      r := Ok(());
    }

    method ClearWorkerLeases(rows: seq<Lease>, nowMs: nat) returns (r: Result<(), StoreError>)
      requires Valid()
      modifies this`workers
      ensures Valid()
      ensures (workers, r) == T.ClearWorkerLeases(old(workers), rows, nowMs)
    {
      for i := 0 to |rows|
        invariant Valid()
        invariant T.ClearWorkerLeases(old(workers), rows, nowMs) == T.ClearWorkerLeases(workers, rows[i..], nowMs)
      {
        assert rows[i..][0] == rows[i] && rows[i..][1..] == rows[i + 1..];
        r := ClearWorkerLease(rows[i], nowMs);
        if r.Err? {
          return;
        }
      }
      r := Ok(());
    }

    // -------------------------------------------------------------------------
    // Jobs
    // -------------------------------------------------------------------------

    method EnqueueJob(id: string, spec: JobSpec, nowMs: nat) returns (status: Job)
      requires Valid()
      modifies this`jobs
      ensures Valid()
      ensures Contents() == T.Enqueue(old(Contents()), id, spec, nowMs)
      ensures status == Contents().jobs[id]
    {
      status := PendingJobStatus(id, spec, nowMs);
      jobs := jobs[status.id := status];
    }

    method AcquireJob(queue: string, worker: string, leaseMs: nat, nowMs: nat)
      returns (r: Result<Option<(Job, Lease)>, StoreError>)
      requires Valid()
      modifies this
      ensures Valid()
      ensures T.Outcome(Contents(), r) == T.Acquire(old(Contents()), queue, worker, leaseMs, nowMs)
    {
      var next := NextPendingJob(queue);
      if next.None? {
        return Ok(None);
      }
      var status := jobs[next.value];
      var lease :=
        Lease(LeaseId(nowMs, status.id), status.id, worker, nowMs, SaturatingAdd(nowMs, leaseMs, U64_MAX));
      status := status.(state := Running);
      status := status.(attempts := SaturatingAdd(status.attempts, 1, U32_MAX));
      status := status.(updatedAtMs := nowMs, leaseId := Some(lease.id), leaseExpiresAtMs := Some(lease.expiresAtMs));
      jobs := jobs[status.id := status];
      leases := T.UpsertLease(leases, lease);
      var marked := MarkWorkerLeased(worker, queue, lease, nowMs);
      if marked.Err? {
        return Err(marked.error);
      }
      r := Ok(Some((status, lease)));
    }

    /** The part that cancel, retry and finish share once the new row is made. */
    method Release(id: string, status: Job, nowMs: nat) returns (r: Result<Option<Job>, StoreError>)
      requires Valid()
      modifies this
      ensures Valid()
      ensures T.Outcome(Contents(), r) == T.Release(old(Contents()), id, status, nowMs)
    {
      var rows := JobLeases(id);
      jobs := jobs[status.id := status];
      var cleared := ClearWorkerLeases(rows, nowMs);
      if cleared.Err? {
        return Err(cleared.error);
      }
      leases := T.DeleteJobLeases(leases, id);
      r := Ok(Some(status));
    }

    method FinishJob(id: string, requested: JobState, result: Option<string>, error: Option<string>, nowMs: nat)
      returns (r: Result<Option<Job>, StoreError>)
      requires Valid()
      modifies this
      ensures Valid()
      ensures T.Outcome(Contents(), r) == T.Finish(old(Contents()), id, requested, result, error, nowMs)
    {
      if id !in jobs {
        return Ok(None);
      }
      var status := jobs[id];
      if status.state == Cancelled {
        return Ok(Some(status));
      }
      var finalState := FinalJobState(status, requested);
      status := status.(state := finalState);
      status := status.(updatedAtMs := nowMs, result := result, lastError := error);
      status := status.(leaseId := None, leaseExpiresAtMs := None);
      r := Release(id, status, nowMs);
    }

    method CompleteJob(id: string, result: Option<string>, nowMs: nat) returns (r: Result<Option<Job>, StoreError>)
      requires Valid()
      modifies this
      ensures Valid()
      ensures T.Outcome(Contents(), r) == T.Complete(old(Contents()), id, result, nowMs)
    {
      r := FinishJob(id, Completed, result, None, nowMs);
    }

    method FailJob(id: string, error: string, nowMs: nat) returns (r: Result<Option<Job>, StoreError>)
      requires Valid()
      modifies this
      ensures Valid()
      ensures T.Outcome(Contents(), r) == T.Fail(old(Contents()), id, error, nowMs)
    {
      r := FinishJob(id, Failed, None, Some(error), nowMs);
    }

    method CancelJob(id: string, nowMs: nat) returns (r: Result<Option<Job>, StoreError>)
      requires Valid()
      modifies this
      ensures Valid()
      ensures T.Outcome(Contents(), r) == T.Cancel(old(Contents()), id, nowMs)
    {
      if id !in jobs {
        return Ok(None);
      }
      var status := jobs[id];
      status := status.(state := Cancelled, updatedAtMs := nowMs);
      status := status.(leaseId := None, leaseExpiresAtMs := None);
      r := Release(id, status, nowMs);
    }

    method RetryJob(id: string, nowMs: nat) returns (r: Result<Option<Job>, StoreError>)
      requires Valid()
      modifies this
      ensures Valid()
      ensures T.Outcome(Contents(), r) == T.Retry(old(Contents()), id, nowMs)
    {
      if id !in jobs {
        return Ok(None);
      }
      var status := jobs[id];
      if status.state != Failed {
        return Ok(Some(status));
      }
      status := status.(state := Pending, updatedAtMs := nowMs, result := None);
      status := status.(leaseId := None, leaseExpiresAtMs := None);
      r := Release(id, status, nowMs);
    }

    /** The body of the expiry loop, on a row read before the loop began. */
    method ExpireJob(row: Job, nowMs: nat) returns (r: Result<(), StoreError>)
      requires Valid()
      modifies this
      ensures Valid()
      ensures T.Outcome(Contents(), r) == T.ExpireOne(old(Contents()), row, nowMs)
    {
      var held := JobLeases(row.id);
      var status := row.(state := ExpiredState(row));
      status := status.(updatedAtMs := nowMs, lastError := Some("lease expired"));
      status := status.(leaseId := None, leaseExpiresAtMs := None);
      jobs := jobs[status.id := status];
      r := ClearWorkerLeases(held, nowMs);
    }

    /** `order` is the order in which the query listed the expired running jobs. */
    method ExpireLeases(nowMs: nat) returns (r: Result<nat, StoreError>, ghost order: seq<string>)
      requires Valid()
      modifies this
      ensures Valid()
      ensures T.ListsExpired(old(Contents()), order, nowMs)
           || (r.Err? && forall id :: id in order ==> id in T.ExpiredIds(old(Contents()), nowMs))
      ensures forall id :: id in order ==> id in old(jobs)
      ensures T.Outcome(Contents(), r) == T.Expire(old(Contents()), order, nowMs)
    {
      hide T.ExpireEach, T.ExpireOne;
      var rows := jobs;
      var rest := set id | id in jobs && jobs[id].state == Running
        && jobs[id].leaseExpiresAtMs.Some? && jobs[id].leaseExpiresAtMs.value <= nowMs;
      ghost var all := rest;
      assert all == T.ExpiredIds(old(Contents()), nowMs);
      order := [];
      T.ExpireNone(Contents(), nowMs);
      while rest != {}
        invariant Valid() && rest <= all && rows == old(jobs)
        invariant forall id :: id in order <==> id in all - rest
        invariant forall i, j :: 0 <= i < j < |order| ==> order[i] != order[j]
        invariant T.Outcome(Contents(), Ok(())) == T.ExpireEach(old(Contents()), order, nowMs)
        decreases |rest|
      {
        var id :| id in rest;
        rest := rest - {id};
        T.ExpireNext(old(Contents()), order, id, nowMs);
        assert id !in order;
        order := order + [id];
        ghost var before := Contents();
        assert T.ExpireEach(old(Contents()), order, nowMs) == T.ExpireOne(before, rows[id], nowMs);
        var cleared := ExpireJob(rows[id], nowMs);
        assert T.Outcome(Contents(), cleared) == T.ExpireOne(before, rows[id], nowMs);
        if cleared.Err? {
          return Err(cleared.error), order;
        }
        assert cleared.value == ();
      }
      var dead := set id | id in leases && leases[id].expiresAtMs <= nowMs;
      r := Ok(|dead|);
      leases := T.LiveLeases(leases, nowMs);
    }

    // -------------------------------------------------------------------------
    // Workers
    // -------------------------------------------------------------------------

    method RegisterWorker(registration: Registration, nowMs: nat) returns (r: Result<Worker, StoreError>)
      requires Valid()
      modifies this`workers
      ensures Valid()
      ensures T.Outcome(Contents(), r) == T.Register(old(Contents()), registration, nowMs)
    {
      var made := IntoRecord(registration, nowMs);
      if made.Err? {
        return Err(made.error);
      }
      var record := made.value;
      var found := T.LookupWorker(workers, record.id);
      if found.Err? {
        return Err(found.error);
      }
      if found.value.Some? {
        var existing := found.value.value;
        record := record.(registeredAtMs := existing.registeredAtMs);
        record := record.(currentJobId := existing.currentJobId, currentLeaseId := existing.currentLeaseId);
        record := record.(leaseExpiresAtMs := existing.leaseExpiresAtMs, lastError := existing.lastError);
      }
      workers := workers[record.id := record];
      r := Ok(record);
    }

    method HeartbeatWorker(heartbeat: Heartbeat, nowMs: nat) returns (r: Result<Option<Worker>, StoreError>)
      requires Valid()
      modifies this`workers
      ensures Valid()
      ensures T.Outcome(Contents(), r) == T.Beat(old(Contents()), heartbeat, nowMs)
    {
      var found := T.LookupWorker(workers, heartbeat.id);
      if found.Err? {
        return Err(found.error);
      }
      if found.value.None? {
        return Ok(None);
      }
      var record := found.value.value;
      if heartbeat.state.Some? {
        record := record.(state := heartbeat.state.value);
      }
      if heartbeat.queue.Some? {
        var queue := WorkerField(heartbeat.queue.value);
        if queue.Err? {
          return Err(queue.error);
        }
        record := record.(queue := queue.value);
      }
      record := record.(status := OrElse(heartbeat.status, record.status));
      record := record.(lastError := OrElse(heartbeat.lastError, record.lastError));
      record := record.(metadata := OrElse(heartbeat.metadata, record.metadata));
      record := record.(heartbeatAtMs := nowMs);
      workers := workers[record.id := record];
      r := Ok(Some(record));
    }
  }
}
