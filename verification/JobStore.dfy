/** The queue's tables as an object whose methods are the transactions of
    runner-v2/pkg/db/mysql/workflow_jobs.go. Each method's contract ties the new
    tables to the `Write` functions of module Jobs, about which module JobProtocol
    proves the guarantees over whole runs. */
module JobStores {
  import opened Basics
  import opened FixedWindow
  import opened Jobs

  datatype Admission =
    | Created
    | Existing(id: Id)
    | DifferentPayload
    | OverRate(scope: Scope, limit: int, retryAfter: int)
    | QueueFull(queue: QueueScope, limit: int)
    | IdTaken
    | RecordsRejected

  datatype Beat = Extended | CancellationSeen | Lost

  /** The i-th check found its window, as earlier checks left it, full and still open; the
      wait ends exactly when the window does. */
  ghost predicate RefusedBy(rates: Rates, sub: Submission, policy: Policy, i: nat, r: Admission)
    requires i < 2 && r.OverRate?
  {
    var check := RateChecks(sub, policy)[i];
    var windows := Charged(rates, RateChecks(sub, policy), i, sub.createdAt);
    && 0 < check.limit == r.limit && r.scope == check.scope
    && windows.Some? && (check.scope, check.subject) in windows.value
    && var w := windows.value[(check.scope, check.subject)];
       && w.count >= check.limit
       && sub.createdAt + r.retryAfter == w.started + MINUTE
       && r.retryAfter > 0
  }

  class JobStore {
    var jobs: Table
    var rates: Rates

    constructor ()
      ensures jobs == map[] && rates == map[]
    {
      jobs, rates := map[], map[];
    }

    /** `SELECT ... WHERE workflow_run_id = ?`. */
    method FindByRun(runId: Id) returns (found: Option<Id>)
      ensures found.None? <==> !RunIsKnown(jobs, runId)
      ensures found.Some? ==> found.value in jobs && jobs[found.value].runId == runId
    {
      var rest := jobs.Keys;
      while rest != {}
        invariant rest <= jobs.Keys
        invariant forall id :: id in jobs && id !in rest ==> jobs[id].runId != runId
        decreases |rest|
      {
        var id :| id in rest;
        if jobs[id].runId == runId {
          return Some(id);
        }
        rest := rest - {id};
      }
      return None;
    }

    /** enforceWorkflowRateLimits: works on the transaction's own copy of the windows. */
    method EnforceRateLimits(sub: Submission, policy: Policy) returns (windows: Rates, refused: Option<Admission>)
      ensures refused.None? <==> Charged(rates, RateChecks(sub, policy), 2, sub.createdAt).Some?
      ensures refused.None? ==> Charged(rates, RateChecks(sub, policy), 2, sub.createdAt) == Some(windows)
      ensures refused.Some? ==>
                refused.value.OverRate? && exists i :: 0 <= i < 2 && RefusedBy(rates, sub, policy, i, refused.value)
    {
      var checks := RateChecks(sub, policy);
      var now := sub.createdAt;
      windows := rates;
      var i := 0;
      while i < |checks|
        invariant 0 <= i <= |checks|
        invariant Charged(rates, checks, i, now) == Some(windows)
      {
        var check := checks[i];
        var key := (check.scope, check.subject);
        if check.limit > 0 {
          if key !in windows || windows[key].started + MINUTE <= now {
            windows := windows[key := Window(now, 1)];
          } else if windows[key].count >= check.limit {
            ChargedStaysRefused(rates, checks, i + 1, |checks|, now);
            refused := Some(OverRate(check.scope, check.limit, windows[key].started + MINUTE - now));
            assert RefusedBy(rates, sub, policy, i, refused.value);
            return;
          } else {
            windows := windows[key := windows[key].(count := windows[key].count + 1)];
          }
        }
        i := i + 1;
      }
      refused := None;
    }

    /** enforceWorkflowAdmission: the three queue limits, each ignored unless positive. */
    method EnforceQueueLimits(sub: Submission, policy: Policy) returns (refused: Option<Admission>)
      ensures refused.None? <==> QueueHasRoom(jobs, sub, policy)
      ensures refused.Some? ==>
                && refused.value.QueueFull?
                && refused.value.queue in {Server, OfUser(sub.userId), OfProject(sub.projectId)}
                && 0 < refused.value.limit == QueueLimit(policy, refused.value.queue)
                && refused.value.limit <= |Members(jobs, WaitingIn(refused.value.queue))|
    {
      if policy.maxQueuedGlobal > 0 {
        var queued := |Members(jobs, PendingJobs())|;
        if queued >= policy.maxQueuedGlobal {
          return Some(QueueFull(Server, policy.maxQueuedGlobal));
        }
      }
      if policy.maxQueuedPerUser > 0 {
        var queued := |Members(jobs, PendingOfUser(sub.userId))|;
        if queued >= policy.maxQueuedPerUser {
          return Some(QueueFull(OfUser(sub.userId), policy.maxQueuedPerUser));
        }
      }
      if policy.maxQueuedPerProject > 0 {
        var queued := |Members(jobs, PendingOfProject(sub.projectId))|;
        if queued >= policy.maxQueuedPerProject {
          return Some(QueueFull(OfProject(sub.projectId), policy.maxQueuedPerProject));
        }
      }
      return None;
    }

    /** AdmitWorkflowJob. Only a new row is committed; every other outcome rolls the
        windows back or never touched them. */
    method Admit(sub: Submission, policy: Policy, recordsOk: bool) returns (r: Admission)
      modifies this
      ensures jobs == Put(old(jobs), old(AdmitWrite(jobs, rates, sub, policy, recordsOk)))
      ensures rates == old(AdmitRates(jobs, rates, sub, policy, recordsOk))
      ensures r.Created? <==> old(Admissible(jobs, rates, sub, policy, recordsOk))
      ensures !r.Created? ==> jobs == old(jobs) && rates == old(rates)
      ensures old(RunIsKnown(jobs, sub.runId)) ==>
                exists id :: id in jobs && jobs[id].runId == sub.runId
                             && r == if jobs[id].requestHash != sub.requestHash then DifferentPayload
                                     else if recordsOk then Existing(id) else RecordsRejected
      ensures r.OverRate? <==>
                && !old(RunIsKnown(jobs, sub.runId))
                && old(Charged(rates, RateChecks(sub, policy), 2, sub.createdAt)).None?
      ensures r.QueueFull? <==>
                && !old(RunIsKnown(jobs, sub.runId))
                && old(Charged(rates, RateChecks(sub, policy), 2, sub.createdAt)).Some?
                && !old(QueueHasRoom(jobs, sub, policy))
    {
      var existing := FindByRun(sub.runId);
      if existing.Some? {
        if jobs[existing.value].requestHash != sub.requestHash {
          return DifferentPayload;
        }
        if !recordsOk {
          return RecordsRejected;
        }
        return Existing(existing.value);
      }
      var windows, overRate := EnforceRateLimits(sub, policy);
      if overRate.Some? {
        return overRate.value;
      }
      var full := EnforceQueueLimits(sub, policy);
      if full.Some? {
        return full.value;
      }
      if sub.id in jobs {
        // INSERT IGNORE inserts nothing, and the row is then not found under its run id.
        return IdTaken;
      }
      if !recordsOk {
        return RecordsRejected;
      }
      jobs := jobs[sub.id := NewJob(sub)];
      rates := windows;
      return Created;
    }

    /** The SELECT of the fair claim. */
    method SelectClaimable(now: Time, policy: Policy, locked: set<Id>) returns (pick: Option<Id>)
      ensures Selects(jobs, policy, now, locked, pick)
    {
      pick := None;
      var rest := jobs.Keys - locked;
      while rest != {}
        invariant rest <= jobs.Keys - locked
        invariant pick.Some? ==>
                    pick.value in jobs && pick.value !in locked && Claimable(jobs, policy, now, pick.value)
        invariant forall id :: id in jobs && id !in locked && id !in rest && Claimable(jobs, policy, now, id) ==>
                                 pick.Some? && !Before(jobs[id], jobs[pick.value])
        decreases |rest|
      {
        var id :| id in rest;
        rest := rest - {id};
        if Claimable(jobs, policy, now, id) && (pick.None? || Before(jobs[id], jobs[pick.value])) {
          pick := Some(id);
        }
      }
    }

    /** ClaimWorkflowJobFair: takes over the best claimable row, or fails it when its
        recoveries are used up. `locked` are the rows other transactions hold. */
    method Claim(owner: Id, now: Time, lease: int, maxRecoveries: int, policy: Policy, locked: set<Id>)
      returns (claimed: Option<(Id, Job)>)
      modifies this`jobs
      ensures Selects(old(jobs), policy, now, locked, if claimed.Some? then Some(claimed.value.0) else None)
      ensures claimed.None? ==> jobs == old(jobs)
      ensures claimed.Some? ==>
                && claimed == ClaimWrite(old(jobs), claimed.value.0, owner, now, lease, maxRecoveries)
                && jobs == Put(old(jobs), claimed)
    {
      var pick := SelectClaimable(now, policy, locked);
      if pick.None? {
        return None;
      }
      var id := pick.value;
      var wasRunning := Active(jobs[id]);
      if wasRunning && jobs[id].cancelRequestedAt.None? && jobs[id].recoveryCount >= maxRecoveries {
        jobs := jobs[id := jobs[id].(status := Failed, leaseOwner := None, leaseExpiresAt := None,
                                     completedAt := Some(now), payload := None)];
        return Some((id, jobs[id]));
      }
      var started := if jobs[id].startedAt.Some? then jobs[id].startedAt else Some(now);
      jobs := jobs[id := jobs[id].(status := Running, leaseOwner := Some(owner), leaseExpiresAt := Some(now + lease),
                                   recoveryCount := jobs[id].recoveryCount + (if wasRunning then 1 else 0),
                                   startedAt := started)];
      return Some((id, jobs[id]));
    }

    method Heartbeat(id: Id, owner: Id, now: Time, lease: int) returns (beat: Beat)
      modifies this`jobs
      ensures jobs == Put(old(jobs), old(HeartbeatWrite(jobs, id, owner, now, lease)))
      ensures beat.Extended? <==> old(HeartbeatWrite(jobs, id, owner, now, lease)).Some?
      ensures beat.CancellationSeen? <==> old(SeesCancellation(jobs, id, owner))
    {
      if id in jobs && jobs[id].leaseOwner == Some(owner) && jobs[id].status == Running && jobs[id].cancelRequestedAt.None? {
        jobs := jobs[id := jobs[id].(leaseExpiresAt := Some(now + lease))];
        return Extended;
      }
      if id in jobs && jobs[id].leaseOwner == Some(owner)
         && (jobs[id].status == Cancelling || jobs[id].cancelRequestedAt.Some?) {
        return CancellationSeen;
      }
      return Lost;
    }

    /** RequestWorkflowJobCancellation: `accepted` is its second result. */
    method RequestCancellation(runId: Id, projectId: Id, now: Time) returns (found: Option<Id>, accepted: bool)
      modifies this`jobs
      ensures found.Some? ==> found.value in old(jobs) && old(jobs)[found.value].runId == runId
                              && old(jobs)[found.value].projectId == projectId
      ensures found.None? ==> forall id :: id in old(jobs) && old(jobs)[id].runId == runId && UniqueRuns(old(jobs)) ==>
                                             old(jobs)[id].projectId != projectId
      ensures accepted ==> found.Some?
      ensures found.Some? ==>
                && jobs == Put(old(jobs), old(RequestCancelWrite(jobs, found.value, projectId, now)))
                && (accepted <==> old(RequestCancelWrite(jobs, found.value, projectId, now)).Some?)
      ensures !accepted ==> jobs == old(jobs)
    {
      found := FindByRun(runId);
      if found.None? || jobs[found.value].projectId != projectId {
        return None, false;
      }
      var job := jobs[found.value];
      if job.status == Completed || job.status == Failed || job.status == Cancelled || job.status == Cancelling {
        return found, false;
      }
      var status := if job.status == Pending then Cancelled else Cancelling;
      var completedAt := if job.status == Pending then Some(now) else None;
      jobs := jobs[found.value :=
        job.(status := status, cancelRequestedAt := Some(now), cancelledAt := completedAt,
             completedAt := if job.completedAt.Some? then job.completedAt else completedAt,
             payload := if status == Cancelled then None else job.payload)];
      accepted := true;
    }

    method Cancel(id: Id, owner: Id, now: Time) returns (ok: bool)
      modifies this`jobs
      ensures jobs == Put(old(jobs), old(CancelWrite(jobs, id, owner, now)))
      ensures ok <==> old(CancelWrite(jobs, id, owner, now)).Some?
    {
      if !(id in jobs && jobs[id].leaseOwner == Some(owner)
           && (jobs[id].status == Running || jobs[id].status == Cancelling)) {
        return false;
      }
      jobs := jobs[id := jobs[id].(status := Cancelled, leaseOwner := None, leaseExpiresAt := None,
                                   cancelledAt := Some(now), completedAt := Some(now), payload := None)];
      return true;
    }

    method Release(id: Id, owner: Id, now: Time) returns (ok: bool)
      modifies this`jobs
      ensures jobs == Put(old(jobs), old(ReleaseWrite(jobs, id, owner, now)))
      ensures ok <==> old(ReleaseWrite(jobs, id, owner, now)).Some?
    {
      ok := id in jobs && jobs[id].leaseOwner == Some(owner) && jobs[id].status == Running;
      if ok {
        jobs := jobs[id := jobs[id].(status := Pending, leaseOwner := None, leaseExpiresAt := None)];
      }
    }

    method Complete(id: Id, owner: Id, now: Time) returns (ok: bool)
      modifies this`jobs
      ensures jobs == Put(old(jobs), old(CompleteWrite(jobs, id, owner, now)))
      ensures ok <==> old(CompleteWrite(jobs, id, owner, now)).Some?
    {
      ok := id in jobs && jobs[id].leaseOwner == Some(owner) && jobs[id].status == Running;
      if ok {
        jobs := jobs[id := jobs[id].(status := Completed, leaseOwner := None, leaseExpiresAt := None,
                                     completedAt := Some(now), payload := None)];
      }
    }

    method Fail(id: Id, owner: Id, now: Time) returns (ok: bool)
      modifies this`jobs
      ensures jobs == Put(old(jobs), old(FailWrite(jobs, id, owner, now)))
      ensures ok <==> old(FailWrite(jobs, id, owner, now)).Some?
    {
      ok := id in jobs && jobs[id].leaseOwner == Some(owner) && jobs[id].status == Running;
      if ok {
        jobs := jobs[id := jobs[id].(status := Failed, leaseOwner := None, leaseExpiresAt := None,
                                     completedAt := Some(now), payload := None)];
      }
    }
  }

  /** A refused check stays refused however many checks follow it. */
  lemma {:induction false} ChargedStaysRefused(rates: Rates, checks: seq<Check>, i: nat, n: nat, now: Time)
    requires i <= n <= |checks|
    requires Charged(rates, checks, i, now).None?
    ensures Charged(rates, checks, n, now).None?
    decreases n
  {
    if i < n {
      ChargedStaysRefused(rates, checks, i, n - 1, now);
    }
  }
}
