/** What happens to one job, exactly: which event brings about each status, when it was
    started and until when it is leased, who may end it, and when a poll finds nothing
    (runner-v2/pkg/db/mysql/workflow_jobs.go, runner-v2/pkg/api/workflow_service.go). */
module JobOutcomes {
  import opened Basics
  import opened FixedWindow
  import opened Jobs
  import opened JobProtocol
  import opened JobAccounting

  // ---- The end of a lease -------------------------------------------------------------

  /** Whoever claims or renews a job at time t holds it until exactly t plus the lease. */
  lemma SecuredUntil(c: Config, s: System, e: Event, id: Id, owner: Id, t: Time)
    requires Secures(c, s, e, id, owner, t)
    ensures id in Apply(c, s, e).jobs
    ensures Apply(c, s, e).jobs[id].leaseOwner == Some(owner)
    ensures Apply(c, s, e).jobs[id].leaseExpiresAt == Some(t + c.lease)
  {
  }

  /** Event `e` takes or renews job `id`. */
  ghost predicate Touches(c: Config, s: System, e: Event, id: Id) {
    Takes(c, s, e, id) || Renews(c, s, e, id)
  }

  lemma ActiveTouchSecures(c: Config, s: System, e: Event, id: Id)
    requires Touches(c, s, e, id) && id in Apply(c, s, e).jobs && Active(Apply(c, s, e).jobs[id])
    requires id in s.jobs
    ensures Secures(c, s, e, id, e.owner, e.now)
  {
  }

  /** A step that neither takes nor renews a job leaves its lease alone, or ends it. */
  lemma UntouchedLease(c: Config, s: System, e: Event, id: Id)
    requires Inv(c, s) && Enabled(c, s, e) && !Touches(c, s, e, id)
    requires id in Apply(c, s, e).jobs && Active(Apply(c, s, e).jobs[id])
    ensures id in s.jobs && Active(s.jobs[id])
    ensures Apply(c, s, e).jobs[id].leaseOwner == s.jobs[id].leaseOwner
    ensures Apply(c, s, e).jobs[id].leaseExpiresAt == s.jobs[id].leaseExpiresAt
  {
  }

  lemma NewJobIsNotTouched(c: Config, s: System, e: Event, id: Id)
    requires id !in s.jobs && Enabled(c, s, e)
    ensures !Touches(c, s, e, id)
  {
  }

  /** Who holds the job, and until when. */
  function LeaseIn(s: System, id: Id): Option<(Id, Time)> {
    if id in s.jobs && Active(s.jobs[id]) && s.jobs[id].leaseOwner.Some? && s.jobs[id].leaseExpiresAt.Some?
    then Some((s.jobs[id].leaseOwner.value, s.jobs[id].leaseExpiresAt.value)) else None
  }

  /** The lease that an event hands out for the job, if it takes or renews it. */
  ghost function Handed(c: Config, s: System, e: Event, id: Id): Option<(Id, Time)> {
    if Touches(c, s, e, id) then Some((e.owner, e.now + c.lease)) else None
  }

  lemma LeaseInStep(c: Config, s: System, e: Event, id: Id)
    requires Inv(c, s) && Enabled(c, s, e) && LeaseIn(Apply(c, s, e), id).Some?
    ensures LeaseIn(Apply(c, s, e), id) == if Handed(c, s, e, id).Some? then Handed(c, s, e, id) else LeaseIn(s, id)
  {
    if Touches(c, s, e, id) {
      if id !in s.jobs {
        NewJobIsNotTouched(c, s, e, id);
      }
      ActiveTouchSecures(c, s, e, id);
      SecuredUntil(c, s, e, id, e.owner, e.now);
    } else {
      UntouchedLease(c, s, e, id);
      assert RowOk(c, s.jobs[id]);
    }
  }

  /** The same after n steps of a run, and for its n-th step. */
  ghost function LeaseAt(c: Config, es: seq<Event>, n: nat, id: Id): Option<(Id, Time)>
    requires n <= |es|
  {
    LeaseIn(After(c, es[..n]), id)
  }

  ghost function HandedOut(c: Config, es: seq<Event>, n: nat, id: Id): Option<(Id, Time)>
    requires n < |es|
  {
    Handed(c, After(c, es[..n]), es[n], id)
  }

  lemma LeaseEndAt(c: Config, es: seq<Event>, n: nat, id: Id)
    requires IsRun(c, es) && n < |es| && LeaseAt(c, es, n + 1, id).Some?
    ensures LeaseAt(c, es, n + 1, id) ==
            if HandedOut(c, es, n, id).Some? then HandedOut(c, es, n, id) else LeaseAt(c, es, n, id)
  {
    InvAt(c, es, n);
    AfterStep(c, es, n);
    LeaseInStep(c, After(c, es[..n]), es[n], id);
  }

  lemma NoLeaseAtStart(c: Config, es: seq<Event>, id: Id)
    ensures LeaseAt(c, es, 0, id).None?
  {
    assert es[..0] == [];
  }

  /** A value that each step sets or keeps is what the last step that set it made it. */
  lemma {:induction false} LastSet<T>(value: seq<Option<T>>, set': seq<Option<T>>, n: nat) returns (m: nat)
    requires n <= |set'| && |value| == |set'| + 1 && value[0].None? && value[n].Some?
    requires forall i, j :: 0 <= i < |set'| && j == i + 1 && value[j].Some? ==>
                              value[j] == if set'[i].Some? then set'[i] else value[i]
    ensures m < n && set'[m] == value[n] && forall k :: m < k < n ==> set'[k].None?
    decreases n
  {
    if set'[n - 1].Some? {
      m := n - 1;
    } else {
      m := LastSet(value, set', n - 1);
    }
  }

  /** In every reachable state the lease of an active job belongs to the worker that last
      claimed or renewed it, and ends exactly one lease after the stamp of that call. */
  lemma LeaseEndsExactly(c: Config, es: seq<Event>, n: nat, id: Id) returns (m: nat)
    requires IsRun(c, es) && n <= |es| && LeaseAt(c, es, n, id).Some?
    ensures m < n && Touches(c, After(c, es[..m]), es[m], id)
    ensures LeaseAt(c, es, n, id) == Some((es[m].owner, es[m].now + c.lease))
    ensures forall k :: m < k < n ==> HandedOut(c, es, k, id).None?
  {
    m := LastHandedOut(c, es, n, id);
  }

  lemma LastHandedOut(c: Config, es: seq<Event>, n: nat, id: Id) returns (m: nat)
    requires IsRun(c, es) && n <= |es| && LeaseAt(c, es, n, id).Some?
    ensures m < n && HandedOut(c, es, m, id) == LeaseAt(c, es, n, id)
    ensures forall k :: m < k < n ==> HandedOut(c, es, k, id).None?
  {
    var value := seq(|es| + 1, i requires 0 <= i < |es| + 1 => LeaseAt(c, es, i, id));
    var set' := seq(|es|, i requires 0 <= i < |es| => HandedOut(c, es, i, id));
    forall i, j | 0 <= i < |set'| && j == i + 1 && value[j].Some?
      ensures value[j] == if set'[i].Some? then set'[i] else value[i]
    {
      LeaseEndAt(c, es, i, id);
    }
    NoLeaseAtStart(c, es, id);
    m := LastSet(value, set', n);
    assert forall k :: m < k < n ==> set'[k] == HandedOut(c, es, k, id);
  }

  /** ... and every active job has one. */
  lemma ActiveIsLeased(c: Config, es: seq<Event>, n: nat, id: Id)
    requires IsRun(c, es) && n <= |es| && id in After(c, es[..n]).jobs
    ensures LeaseAt(c, es, n, id).Some? <==> After(c, es[..n]).jobs[id].status in {Running, Cancelling}
  {
    InvAt(c, es, n);
    assert RowOk(c, After(c, es[..n]).jobs[id]);
  }

  /** So a job whose holder falls silent can be claimed again at every time past t plus the
      lease: no renewal, release or takeover since it was secured leaves it claimable. */
  lemma SilentHolderLosesJob(c: Config, es: seq<Event>, m: nat, n: nat, id: Id, owner: Id, t: Time, now: Time)
    requires IsRun(c, es) && m < n <= |es| && now > t + c.lease
    requires Secures(c, After(c, es[..m]), es[m], id, owner, t)
    requires forall k {:trigger es[k]} :: m < k < n ==> !Touches(c, After(c, es[..k]), es[k], id)
    requires KeepsJob(c, es, m, n, id, owner)
    ensures id in After(c, es[..n]).jobs && Claimable(After(c, es[..n]).jobs, c.policy, now, id)
  {
    SecuredTill(c, es, m, id, owner, t);
    SilentLease(c, es, m, n, id, owner, t + c.lease);
  }

  ghost predicate LeasedTill(s: System, id: Id, owner: Id, t: Time) {
    && id in s.jobs && Active(s.jobs[id])
    && s.jobs[id].leaseOwner == Some(owner) && s.jobs[id].leaseExpiresAt == Some(t)
  }

  lemma SilentStep(c: Config, s: System, e: Event, id: Id, owner: Id, t: Time)
    requires Inv(c, s) && Enabled(c, s, e) && LeasedTill(s, id, owner, t)
    requires !Touches(c, s, e, id) && !GivesUp(c, s, e, id, owner)
    ensures LeasedTill(Apply(c, s, e), id, owner, t)
  {
  }

  lemma SilentStepAt(c: Config, es: seq<Event>, n: nat, id: Id, owner: Id, t: Time)
    requires IsRun(c, es) && n < |es| && LeasedTill(After(c, es[..n]), id, owner, t)
    requires !Touches(c, After(c, es[..n]), es[n], id) && !GivesUp(c, After(c, es[..n]), es[n], id, owner)
    ensures LeasedTill(After(c, es[..n + 1]), id, owner, t)
  {
    InvAt(c, es, n);
    AfterStep(c, es, n);
    SilentStep(c, After(c, es[..n]), es[n], id, owner, t);
  }

  lemma {:induction false} SilentLease(c: Config, es: seq<Event>, m: nat, n: nat, id: Id, owner: Id, t: Time)
    requires IsRun(c, es) && m < n <= |es|
    requires LeasedTill(After(c, es[..m + 1]), id, owner, t)
    requires forall k {:trigger es[k]} :: m < k < n ==> !Touches(c, After(c, es[..k]), es[k], id)
    requires KeepsJob(c, es, m, n, id, owner)
    ensures LeasedTill(After(c, es[..n]), id, owner, t)
    decreases n - m
  {
    if m + 1 < n {
      SilentStepAt(c, es, m + 1, id, owner, t);
      SilentLease(c, es, m + 1, n, id, owner, t);
    }
  }

  lemma SecuredTill(c: Config, es: seq<Event>, m: nat, id: Id, owner: Id, t: Time)
    requires m < |es| && Secures(c, After(c, es[..m]), es[m], id, owner, t)
    ensures LeasedTill(After(c, es[..m + 1]), id, owner, t + c.lease)
  {
    AfterStep(c, es, m);
    SecuredUntil(c, After(c, es[..m]), es[m], id, owner, t);
  }

  // ---- Which event brings about which status ---------------------------------------------

  /** Worker `o` is executing job `id` and still holds it. */
  ghost predicate Runs(s: System, o: Id, id: Id) {
    && ViewOf(s, o).Executing? && ViewOf(s, o).job == id
    && id in s.jobs && s.jobs[id].leaseOwner == Some(o) && s.jobs[id].status == Running
  }

  /** Worker `o` may finalize the cancellation of job `id`, which it holds. */
  ghost predicate MayFinalize(s: System, o: Id, id: Id) {
    && ViewOf(s, o) != Idle && ViewOf(s, o).job == id
    && (ViewOf(s, o).Finalizing? || ViewOf(s, o).told)
    && id in s.jobs && s.jobs[id].leaseOwner == Some(o) && s.jobs[id].status in {Running, Cancelling}
  }

  /** A claim of job `id` at which its recoveries are used up. */
  ghost predicate GivenUpOn(c: Config, s: System, e: Event, id: Id) {
    && e.Claim? && e.pick == Some(id)
    && id in s.jobs && s.jobs[id].status in {Running, Cancelling}
    && s.jobs[id].cancelRequestedAt.None? && s.jobs[id].recoveryCount >= c.maxRecoveries
  }

  /** A request to cancel that concerns job `id`. */
  predicate AsksToCancel(s: System, e: Event, id: Id) {
    e.RequestCancellation? && e.id == id && id in s.jobs && e.projectId == s.jobs[id].projectId
  }

  function StatusOf(s: System, id: Id): Option<Status> {
    if id in s.jobs then Some(s.jobs[id].status) else None
  }

  /** Event `e` gives job `id` the status `status`, which it did not have. */
  ghost predicate Becomes(c: Config, s: System, e: Event, id: Id, status: Status) {
    StatusOf(s, id) != Some(status) && StatusOf(Apply(c, s, e), id) == Some(status)
  }

  /** A job becomes completed exactly when the worker that runs it completes it. */
  lemma CompletedExactly(c: Config, s: System, e: Event, id: Id)
    requires Enabled(c, s, e)
    ensures Becomes(c, s, e, id, Completed) <==> e.Complete? && Runs(s, e.owner, id)
  {
  }

  /** ... failed exactly when the worker that runs it fails it, or a claim gives up on it. */
  lemma FailedExactly(c: Config, s: System, e: Event, id: Id)
    requires Enabled(c, s, e)
    ensures Becomes(c, s, e, id, Failed) <==> (e.Fail? && Runs(s, e.owner, id)) || GivenUpOn(c, s, e, id)
  {
  }

  /** ... cancelled exactly when its holder finalizes a cancellation it knows of, or a user
      cancels it before it runs. */
  lemma CancelledExactly(c: Config, s: System, e: Event, id: Id)
    requires Enabled(c, s, e)
    ensures Becomes(c, s, e, id, Cancelled) <==>
              || (e.Cancel? && MayFinalize(s, e.owner, id))
              || (AsksToCancel(s, e, id) && s.jobs[id].status == Pending)
  {
  }

  /** ... cancelling exactly when a user cancels it while it runs. */
  lemma CancellingExactly(c: Config, s: System, e: Event, id: Id)
    requires Enabled(c, s, e)
    ensures Becomes(c, s, e, id, Cancelling) <==> AsksToCancel(s, e, id) && s.jobs[id].status == Running
  {
  }

  /** ... pending exactly when it is admitted, or the worker that runs it releases it. */
  lemma PendingExactly(c: Config, s: System, e: Event, id: Id)
    requires Enabled(c, s, e)
    ensures Becomes(c, s, e, id, Pending) <==>
              || (e.Release? && Runs(s, e.owner, id))
              || (e.Admit? && e.sub.id == id && Admissible(s.jobs, s.rates, e.sub, c.policy, e.recordsOk))
  {
  }

  /** ... running exactly when a claim picks it and does not give up on it. */
  lemma RunningExactly(c: Config, s: System, e: Event, id: Id)
    requires Enabled(c, s, e)
    ensures Becomes(c, s, e, id, Running) <==>
              e.Claim? && e.pick == Some(id) && !GivenUpOn(c, s, e, id) && s.jobs[id].status != Running
  {
  }

  /** A request is on record with the time of the latest one accepted: for a job that waits,
      or that runs, even one that was already to be cancelled when it was taken over. */
  lemma RequestIsStamped(c: Config, s: System, e: Event, id: Id)
    requires Enabled(c, s, e) && id in s.jobs
    ensures id in Apply(c, s, e).jobs
    ensures Apply(c, s, e).jobs[id].cancelRequestedAt ==
            if AsksToCancel(s, e, id) && s.jobs[id].status in {Pending, Running} then Some(e.now)
            else s.jobs[id].cancelRequestedAt
  {
  }

  /** The time parameter of an event. */
  function TimeOf(e: Event): Option<Time> {
    match e
    case Admit(sub, _) => Some(sub.createdAt)
    case LearnCancellation(_) => None
    case Crash(_) => None
    case _ => Some(e.now)
  }

  /** The event that ended a job stamped its completion time. */
  lemma EndIsStamped(c: Config, s: System, e: Event, id: Id)
    requires Inv(c, s) && Enabled(c, s, e)
    requires id in Apply(c, s, e).jobs && Terminal(Apply(c, s, e).jobs[id])
    requires id in s.jobs ==> !Terminal(s.jobs[id])
    ensures Apply(c, s, e).jobs[id].completedAt == TimeOf(e)
    ensures Apply(c, s, e).jobs[id].status == Cancelled ==> Apply(c, s, e).jobs[id].cancelledAt == TimeOf(e)
  {
    WriteKeepsRows(c, s, e);
  }

  lemma EndedAt(c: Config, es: seq<Event>, n: nat, id: Id)
    requires IsRun(c, es) && n < |es|
    requires id in After(c, es[..n + 1]).jobs && Terminal(After(c, es[..n + 1]).jobs[id])
    ensures
      var s, after := After(c, es[..n]), After(c, es[..n + 1]).jobs[id];
      if id in s.jobs && Terminal(s.jobs[id]) then after == s.jobs[id]
      else Becomes(c, s, es[n], id, after.status) && after.completedAt == TimeOf(es[n])
  {
    var s := After(c, es[..n]);
    InvAt(c, es, n);
    AfterStep(c, es, n);
    if id in s.jobs && Terminal(s.jobs[id]) {
      RowStep(c, s, es[n], id);
    } else {
      EndIsStamped(c, s, es[n], id);
    }
  }

  /** Every ended job was ended by one event of the run, which accounts for its status and
      its completion time. */
  lemma {:induction false} HowItEnded(c: Config, es: seq<Event>, n: nat, id: Id) returns (k: nat)
    requires IsRun(c, es) && n <= |es|
    requires id in After(c, es[..n]).jobs && Terminal(After(c, es[..n]).jobs[id])
    ensures k < n && Becomes(c, After(c, es[..k]), es[k], id, After(c, es[..n]).jobs[id].status)
    ensures After(c, es[..n]).jobs[id].completedAt == TimeOf(es[k])
    decreases n
  {
    assert n > 0 by {
      NothingAtStart(c, es, id);
    }
    EndedAt(c, es, n - 1, id);
    var jobs := After(c, es[..n - 1]).jobs;
    if id in jobs && Terminal(jobs[id]) {
      k := HowItEnded(c, es, n - 1, id);
    } else {
      k := n - 1;
    }
  }

  lemma NothingAtStart(c: Config, es: seq<Event>, id: Id)
    ensures id !in After(c, es[..0]).jobs
  {
    assert es[..0] == [];
  }

  // ---- What never changes -------------------------------------------------------------------

  /** What a job keeps of its submission. */
  ghost predicate AsSubmitted(j: Job, sub: Submission) {
    && j.runId == sub.runId && j.projectId == sub.projectId && j.userId == sub.userId
    && j.requestHash == sub.requestHash && j.priority == sub.priority && j.createdAt == sub.createdAt
    && (j.payload.Some? ==> j.payload.value == sub.payload)
  }

  lemma SubmissionStays(c: Config, s: System, e: Event, id: Id, sub: Submission)
    requires id in s.jobs && AsSubmitted(s.jobs[id], sub)
    ensures id in Apply(c, s, e).jobs && AsSubmitted(Apply(c, s, e).jobs[id], sub)
  {
  }

  lemma AdmittedAsSubmitted(c: Config, s: System, e: Event, id: Id)
    requires Enabled(c, s, e) && id !in s.jobs && id in Apply(c, s, e).jobs
    ensures e.Admit? && e.sub.id == id && AsSubmitted(Apply(c, s, e).jobs[id], e.sub)
    ensures Apply(c, s, e).jobs[id].payload == Some(e.sub.payload)
  {
  }

  /** Every job is, for good, what one admitted submission of the run asked for. */
  lemma {:induction false} EveryJobWasSubmitted(c: Config, es: seq<Event>, n: nat, id: Id) returns (k: nat)
    requires IsRun(c, es) && n <= |es| && id in After(c, es[..n]).jobs
    ensures k < n && es[k].Admit? && es[k].sub.id == id && AsSubmitted(After(c, es[..n]).jobs[id], es[k].sub)
    decreases n
  {
    assert n > 0 by {
      NothingAtStart(c, es, id);
    }
    AfterStep(c, es, n - 1);
    var s := After(c, es[..n - 1]);
    if id in s.jobs {
      k := EveryJobWasSubmitted(c, es, n - 1, id);
      SubmissionStays(c, s, es[n - 1], id, es[k].sub);
    } else {
      k := n - 1;
      assert Enabled(c, s, es[k]);
      AdmittedAsSubmitted(c, s, es[k], id);
    }
  }

  function StartIn(s: System, id: Id): Option<Time> {
    if id in s.jobs then s.jobs[id].startedAt else None
  }

  /** The stamp of an event that grants the job. */
  ghost function GrantOf(c: Config, s: System, e: Event, id: Id): Option<Time> {
    if IsGrant(c, s, e, id) then Some(e.now) else None
  }

  lemma StartStep(c: Config, s: System, e: Event, id: Id)
    requires Enabled(c, s, e)
    ensures StartIn(Apply(c, s, e), id) == if StartIn(s, id).Some? then StartIn(s, id) else GrantOf(c, s, e, id)
  {
  }

  ghost function GrantAt(c: Config, es: seq<Event>, n: nat, id: Id): Option<Time>
    requires n < |es|
  {
    GrantOf(c, After(c, es[..n]), es[n], id)
  }

  lemma StartStepAt(c: Config, es: seq<Event>, n: nat, id: Id)
    requires IsRun(c, es) && n < |es|
    ensures
      var before := StartIn(After(c, es[..n]), id);
      StartIn(After(c, es[..n + 1]), id) == if before.Some? then before else GrantAt(c, es, n, id)
  {
    AfterStep(c, es, n);
    assert Enabled(c, After(c, es[..n]), es[n]);
    StartStep(c, After(c, es[..n]), es[n], id);
  }

  /** A value that is set only while it is missing is what the first step that could set it
      made it. */
  lemma {:induction false} FirstSet<T>(value: seq<Option<T>>, set': seq<Option<T>>, n: nat)
    requires n <= |set'| && |value| == |set'| + 1 && value[0].None?
    requires forall i, j :: 0 <= i < |set'| && j == i + 1 ==> value[j] == if value[i].Some? then value[i] else set'[i]
    ensures value[n].None? ==> forall k :: 0 <= k < n ==> set'[k].None?
    ensures value[n].Some? ==>
              exists m :: 0 <= m < n && set'[m] == value[n] && forall k :: 0 <= k < m ==> set'[k].None?
  {
    if n > 0 {
      FirstSet(value, set', n - 1);
      assert value[n] == if value[n - 1].Some? then value[n - 1] else set'[n - 1];
    }
  }

  lemma NotStartedAtFirst(c: Config, es: seq<Event>, id: Id)
    ensures StartIn(After(c, es[..0]), id).None?
  {
    assert es[..0] == [];
  }

  /** A job's start time is the stamp of its first grant, however often it is released or
      taken over later; a job without one was never granted. */
  lemma StartIsFirstGrant(c: Config, es: seq<Event>, n: nat, id: Id)
    requires IsRun(c, es) && n <= |es|
    ensures StartIn(After(c, es[..n]), id).None? ==> forall k :: 0 <= k < n ==> GrantAt(c, es, k, id).None?
    ensures StartIn(After(c, es[..n]), id).Some? ==>
              exists m :: 0 <= m < n && GrantAt(c, es, m, id) == StartIn(After(c, es[..n]), id)
                          && forall k :: 0 <= k < m ==> GrantAt(c, es, k, id).None?
  {
    var value := seq(|es| + 1, i requires 0 <= i < |es| + 1 => StartIn(After(c, es[..i]), id));
    var set' := seq(|es|, i requires 0 <= i < |es| => GrantAt(c, es, i, id));
    forall i, j | 0 <= i < |set'| && j == i + 1
      ensures value[j] == if value[i].Some? then value[i] else set'[i]
    {
      StartStepAt(c, es, i, id);
    }
    NotStartedAtFirst(c, es, id);
    FirstSet(value, set', n);
    assert forall k :: 0 <= k < n ==> set'[k] == GrantAt(c, es, k, id);
    if value[n].Some? {
      var m :| 0 <= m < n && set'[m] == value[n] && forall k :: 0 <= k < m ==> set'[k].None?;
      assert GrantAt(c, es, m, id) == StartIn(After(c, es[..n]), id);
    }
  }

  // ---- Polling ---------------------------------------------------------------------------------

  /** The active jobs of a user and of a project, counted as they are. */
  function BusyOfUser(jobs: Table, user: Id): set<Id> {
    set k | k in jobs && jobs[k].status in {Running, Cancelling} && jobs[k].userId == user
  }

  function BusyOfProject(jobs: Table, project: Id): set<Id> {
    set k | k in jobs && jobs[k].status in {Running, Cancelling} && jobs[k].projectId == project
  }

  /** There is work in row `id`: its lease has run out, or it waits and there is room for it
      with its user and its project. */
  ghost predicate HasWork(c: Config, jobs: Table, now: Time, id: Id)
    requires id in jobs
  {
    || (jobs[id].status in {Running, Cancelling} && jobs[id].leaseExpiresAt.Some? && jobs[id].leaseExpiresAt.value < now)
    || (&& jobs[id].status == Pending
        && |BusyOfUser(jobs, jobs[id].userId)| < Max(c.policy.maxRunningPerUser, 1)
        && |BusyOfProject(jobs, jobs[id].projectId)| < Max(c.policy.maxRunningPerProject, 1))
  }

  lemma WorkIsClaimable(c: Config, jobs: Table, now: Time, id: Id)
    requires id in jobs
    ensures HasWork(c, jobs, now, id) <==> Claimable(jobs, c.policy, now, id)
  {
    assert BusyOfUser(jobs, jobs[id].userId) == Members(jobs, ActiveOfUser(jobs[id].userId));
    assert BusyOfProject(jobs, jobs[id].projectId) == Members(jobs, ActiveOfProject(jobs[id].projectId));
  }

  /** A poll comes back empty-handed exactly when no row that nobody else holds locked has
      work in it. */
  lemma EmptyPollExactly(c: Config, s: System, o: Id, pick: Option<Id>, locked: set<Id>, now: Time)
    requires Enabled(c, s, Claim(o, pick, locked, now))
    ensures WriteOf(c, s, Claim(o, pick, locked, now)).None? <==>
              forall id :: id in s.jobs && id !in locked ==> !HasWork(c, s.jobs, now, id)
  {
    forall id | id in s.jobs
      ensures HasWork(c, s.jobs, now, id) <==> Claimable(s.jobs, c.policy, now, id)
    {
      WorkIsClaimable(c, s.jobs, now, id);
    }
  }

  /** An idle worker can always poll: some answer is possible. */
  lemma IdleWorkerCanPoll(c: Config, s: System, o: Id, locked: set<Id>, now: Time) returns (pick: Option<Id>)
    requires ViewOf(s, o) == Idle
    ensures Enabled(c, s, Claim(o, pick, locked, now))
  {
    pick := BestOf(c, s.jobs, now, locked, s.jobs.Keys - locked);
  }

  lemma {:induction false} BestOf(c: Config, jobs: Table, now: Time, locked: set<Id>, ids: set<Id>) returns (pick: Option<Id>)
    requires ids <= jobs.Keys - locked
    ensures pick.Some? ==> pick.value in ids && Claimable(jobs, c.policy, now, pick.value)
    ensures forall id :: id in ids && Claimable(jobs, c.policy, now, id) ==> pick.Some? && !Before(jobs[id], jobs[pick.value])
    decreases |ids|
  {
    if ids == {} {
      pick := None;
    } else {
      var id :| id in ids;
      pick := BestOf(c, jobs, now, locked, ids - {id});
      if Claimable(jobs, c.policy, now, id) && (pick.None? || Before(jobs[id], jobs[pick.value])) {
        pick := Some(id);
      }
    }
  }

  // ---- What a worker can do with its job -----------------------------------------------------

  /** A worker that is granted a job sets about it: to finalize it if it is to be cancelled,
      to execute it otherwise. */
  lemma GrantedWorkerActs(c: Config, s: System, e: Event, id: Id)
    requires Enabled(c, s, e) && IsGrant(c, s, e, id)
    ensures ViewOf(Apply(c, s, e), e.owner) ==
            if s.jobs[id].cancelRequestedAt.Some? then Finalizing(id) else Executing(id, false)
  {
  }

  /** The worker that runs a job can complete, fail or release it at any time. */
  lemma RunnerCanEnd(c: Config, s: System, o: Id, id: Id, now: Time)
    requires Inv(c, s) && Runs(s, o, id)
    ensures Enabled(c, s, Complete(o, now)) && Becomes(c, s, Complete(o, now), id, Completed)
    ensures Enabled(c, s, Fail(o, now)) && Becomes(c, s, Fail(o, now), id, Failed)
    ensures Enabled(c, s, Release(o, now)) && Becomes(c, s, Release(o, now), id, Pending)
  {
  }

  /** A worker whose job is to be cancelled hears of it with its next heartbeat, and can then
      finalize the cancellation. */
  lemma CancellationIsHeard(c: Config, s: System, o: Id, id: Id, now: Time)
    requires Inv(c, s) && ViewOf(s, o).Executing? && ViewOf(s, o).job == id
    requires id in s.jobs && s.jobs[id].leaseOwner == Some(o) && s.jobs[id].status == Cancelling
    ensures HeartbeatWrite(s.jobs, id, o, now, c.lease).None? && SeesCancellation(s.jobs, id, o)
    ensures Enabled(c, s, LearnCancellation(o))
    ensures
      var t := Apply(c, s, LearnCancellation(o));
      Enabled(c, t, Cancel(o, now)) && Becomes(c, t, Cancel(o, now), id, Cancelled)
  {
  }

  /** The holder's heartbeat renews the lease exactly while nobody has asked to cancel. */
  lemma HeartbeatExactly(c: Config, s: System, o: Id, id: Id, now: Time)
    requires Inv(c, s) && id in s.jobs && s.jobs[id].leaseOwner == Some(o)
    ensures HeartbeatWrite(s.jobs, id, o, now, c.lease).Some? <==> s.jobs[id].cancelRequestedAt.None?
    ensures SeesCancellation(s.jobs, id, o) <==> s.jobs[id].cancelRequestedAt.Some?
  {
    assert RowOk(c, s.jobs[id]);
  }

  // ---- Admission --------------------------------------------------------------------------------

  /** Both limits let a submission pass exactly when each, if positive, has an unused window
      or one with room. */
  lemma RateAllowsExactly(rates: Rates, sub: Submission, policy: Policy)
    ensures Charged(rates, RateChecks(sub, policy), 2, sub.createdAt).Some? <==>
              forall scope: Scope :: RateLimit(policy, scope) > 0 ==>
                Hit(Lookup(rates, (scope, SubjectOf(sub, scope))), sub.createdAt, MINUTE, RateLimit(policy, scope)).1
  {
    var checks, now := RateChecks(sub, policy), sub.createdAt;
    assert Charged(rates, checks, 0, now) == Some(rates);
    var one := Charged(rates, checks, 1, now);
    assert one.Some? ==> Lookup(one.value, (ProjectRate, sub.projectId)) == Lookup(rates, (ProjectRate, sub.projectId));
    assert RateLimit(policy, UserRate) == checks[0].limit && RateLimit(policy, ProjectRate) == checks[1].limit;
    assert SubjectOf(sub, UserRate) == checks[0].subject && SubjectOf(sub, ProjectRate) == checks[1].subject;
  }

  /** A submission becomes a job exactly when its run is unknown, its id is free, no rate limit
      refuses it, no positive queue limit is reached, and its records are accepted. */
  lemma AdmittedExactly(jobs: Table, rates: Rates, sub: Submission, policy: Policy, recordsOk: bool)
    ensures AdmitWrite(jobs, rates, sub, policy, recordsOk).Some? <==>
              && (forall id :: id in jobs ==> jobs[id].runId != sub.runId) && sub.id !in jobs && recordsOk
              && (forall scope: Scope :: RateLimit(policy, scope) > 0 ==>
                    Hit(Lookup(rates, (scope, SubjectOf(sub, scope))), sub.createdAt, MINUTE, RateLimit(policy, scope)).1)
              && (forall q :: q in [Server, OfUser(sub.userId), OfProject(sub.projectId)] && QueueLimit(policy, q) > 0 ==>
                    |Members(jobs, WaitingIn(q))| < QueueLimit(policy, q))
  {
    RateAllowsExactly(rates, sub, policy);
    var qs := [Server, OfUser(sub.userId), OfProject(sub.projectId)];
    assert qs[0] in qs && qs[1] in qs && qs[2] in qs;
  }

  lemma AdmissionsPrecede(c: Config, es: seq<Event>, last: Event, scope: Scope, subject: Id)
    requires last.Admit? && CreatedInOrder(es + [last])
    ensures CreatedInOrder(es)
    ensures
      var times := AdmissionTimes(c, es, scope, subject);
      times != [] ==> times[|times| - 1] <= last.sub.createdAt
  {
    var all, times := es + [last], AdmissionTimes(c, es, scope, subject);
    assert forall i :: 0 <= i < |es| ==> all[i] == es[i];
    if times != [] {
      LastAdmission(c, es, scope, subject);
      var i :| 0 <= i < |es| && es[i].Admit? && es[i].sub.createdAt == times[|times| - 1];
      assert all[i] == es[i] && all[|es|] == last;
    }
  }

  lemma RefusedScope(c: Config, es: seq<Event>, last: Event, scope: Scope, subject: Id)
    requires last.Admit? && CreatedInOrder(es + [last]) && RateLimit(c.policy, scope) > 0
    requires !Hit(Lookup(After(c, es).rates, (scope, subject)), last.sub.createdAt, MINUTE, RateLimit(c.policy, scope)).1
    ensures CountIn(AdmissionTimes(c, es, scope, subject), last.sub.createdAt - MINUTE + 1, last.sub.createdAt)
            >= RateLimit(c.policy, scope)
  {
    AdmissionsPrecede(c, es, last, scope, subject);
    AdmissionsTrack(c, es, scope, subject);
    RefusalIsEarned(Lookup(After(c, es).rates, (scope, subject)), AdmissionTimes(c, es, scope, subject),
                    last.sub.createdAt, MINUTE, RateLimit(c.policy, scope));
  }

  /** A rate limit refuses a submission only when that user or project had at least that many
      new jobs admitted within the last minute. */
  lemma RefusalIsDeserved(c: Config, es: seq<Event>, sub: Submission, recordsOk: bool) returns (scope: Scope)
    requires CreatedInOrder(es + [Admit(sub, recordsOk)])
    requires Charged(After(c, es).rates, RateChecks(sub, c.policy), 2, sub.createdAt).None?
    ensures RateLimit(c.policy, scope) > 0
    ensures CountIn(AdmissionTimes(c, es, scope, SubjectOf(sub, scope)), sub.createdAt - MINUTE + 1, sub.createdAt)
            >= RateLimit(c.policy, scope)
  {
    RateAllowsExactly(After(c, es).rates, sub, c.policy);
    scope :| RateLimit(c.policy, scope) > 0 &&
      !Hit(Lookup(After(c, es).rates, (scope, SubjectOf(sub, scope))), sub.createdAt, MINUTE, RateLimit(c.policy, scope)).1;
    RefusedScope(c, es, Admit(sub, recordsOk), scope, SubjectOf(sub, scope));
  }
}
