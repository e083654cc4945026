/** The queue and its workers as one state machine: any number of workers claim,
    heartbeat and finish jobs while users submit and cancel them. The worker side is
    runner-v2/pkg/api/workflow_service.go: each worker runs one job at a time, and
    which final call it may make depends on what it has been told. */
module JobProtocol {
  import opened Basics
  import opened Jobs

  /** What one worker is doing. `told` says that its heartbeat has reported a
      cancellation; Finalizing is a worker that claimed an already cancelled job. */
  datatype View = Idle | Executing(job: Id, told: bool) | Finalizing(job: Id)

  datatype Config = Config(policy: Policy, lease: int, maxRecoveries: int)

  datatype System = System(jobs: Table, rates: Rates, views: map<Id, View>)

  datatype Event =
    | Admit(sub: Submission, recordsOk: bool)
    | Claim(owner: Id, pick: Option<Id>, locked: set<Id>, now: Time)
    | Heartbeat(owner: Id, id: Id, now: Time)
    | LearnCancellation(owner: Id)
    | RequestCancellation(id: Id, projectId: Id, now: Time)
    | Cancel(owner: Id, now: Time)
    | Release(owner: Id, now: Time)
    | Complete(owner: Id, now: Time)
    | Fail(owner: Id, now: Time)
    | Crash(owner: Id)

  function ViewOf(s: System, owner: Id): View {
    if owner in s.views then s.views[owner] else Idle
  }

  /** Who may do what. A heartbeat comes from a separate goroutine and may be late,
      so it is never ruled out; a lost reply or a dead worker is a Crash. */
  ghost predicate Enabled(c: Config, s: System, e: Event) {
    match e
    case Claim(o, pick, locked, now) => ViewOf(s, o) == Idle && Selects(s.jobs, c.policy, now, locked, pick)
    case LearnCancellation(o) => ViewOf(s, o).Executing? && SeesCancellation(s.jobs, ViewOf(s, o).job, o)
    case Cancel(o, _) => ViewOf(s, o).Finalizing? || (ViewOf(s, o).Executing? && ViewOf(s, o).told)
    case Release(o, _) => ViewOf(s, o).Executing?
    case Complete(o, _) => ViewOf(s, o).Executing?
    case Fail(o, _) => ViewOf(s, o).Executing?
    case _ => true
  }

  /** The one row the event writes. */
  function WriteOf(c: Config, s: System, e: Event): Write {
    match e
    case Admit(sub, ok) => AdmitWrite(s.jobs, s.rates, sub, c.policy, ok)
    case Claim(o, pick, _, now) =>
      if pick.Some? then ClaimWrite(s.jobs, pick.value, o, now, c.lease, c.maxRecoveries) else None
    case Heartbeat(o, id, now) => HeartbeatWrite(s.jobs, id, o, now, c.lease)
    case LearnCancellation(_) => None
    case RequestCancellation(id, project, now) => RequestCancelWrite(s.jobs, id, project, now)
    case Cancel(o, now) => if ViewOf(s, o) == Idle then None else CancelWrite(s.jobs, ViewOf(s, o).job, o, now)
    case Release(o, now) => if ViewOf(s, o) == Idle then None else ReleaseWrite(s.jobs, ViewOf(s, o).job, o, now)
    case Complete(o, now) => if ViewOf(s, o) == Idle then None else CompleteWrite(s.jobs, ViewOf(s, o).job, o, now)
    case Fail(o, now) => if ViewOf(s, o) == Idle then None else FailWrite(s.jobs, ViewOf(s, o).job, o, now)
    case Crash(_) => None
  }

  /** What a worker does with the row its claim returned. */
  function ViewAfterClaim(w: Write): View {
    if w.None? || w.value.1.status == Failed then Idle
    else if w.value.1.cancelRequestedAt.Some? then Finalizing(w.value.0)
    else Executing(w.value.0, false)
  }

  function ViewsAfter(c: Config, s: System, e: Event): map<Id, View> {
    match e
    case Claim(o, _, _, _) => s.views[o := ViewAfterClaim(WriteOf(c, s, e))]
    case LearnCancellation(o) =>
      if ViewOf(s, o).Executing? then s.views[o := Executing(ViewOf(s, o).job, true)] else s.views
    case Cancel(o, _) => s.views[o := Idle]
    case Release(o, _) => s.views[o := Idle]
    case Complete(o, _) => s.views[o := Idle]
    case Fail(o, _) => s.views[o := Idle]
    case Crash(o) => s.views[o := Idle]
    case _ => s.views
  }

  function Apply(c: Config, s: System, e: Event): System {
    System(Put(s.jobs, WriteOf(c, s, e)),
           if e.Admit? then AdmitRates(s.jobs, s.rates, e.sub, c.policy, e.recordsOk) else s.rates,
           ViewsAfter(c, s, e))
  }

  const Start: System := System(map[], map[], map[])

  function After(c: Config, es: seq<Event>): System {
    if es == [] then Start else Apply(c, After(c, es[..|es| - 1]), es[|es| - 1])
  }

  /** `es` is a run: each event was possible where it happened. */
  ghost predicate IsRun(c: Config, es: seq<Event>) {
    forall i :: 0 <= i < |es| ==> Enabled(c, After(c, es[..i]), es[i])
  }

  lemma AfterStep(c: Config, es: seq<Event>, n: nat)
    requires n < |es|
    ensures After(c, es[..n + 1]) == Apply(c, After(c, es[..n]), es[n])
  {
    assert es[..n + 1][..n] == es[..n];
  }

  lemma PrefixIsRun(c: Config, es: seq<Event>, n: nat)
    requires IsRun(c, es) && n <= |es|
    ensures IsRun(c, es[..n])
  {
    forall i | 0 <= i < n
      ensures Enabled(c, After(c, es[..n][..i]), es[..n][i])
    {
      assert es[..n][..i] == es[..i];
    }
  }

  ghost predicate Reachable(c: Config, s: System) {
    exists es :: IsRun(c, es) && After(c, es) == s
  }

  lemma ReachStart(c: Config)
    ensures Reachable(c, Start)
  {
    assert IsRun(c, []) && After(c, []) == Start;
  }

  lemma ReachStep(c: Config, s: System, e: Event)
    requires Reachable(c, s) && Enabled(c, s, e)
    ensures Reachable(c, Apply(c, s, e))
  {
    var es :| IsRun(c, es) && After(c, es) == s;
    var all := es + [e];
    assert all[..|es|] == es;
    forall i | 0 <= i < |all|
      ensures Enabled(c, After(c, all[..i]), all[i])
    {
      if i < |es| {
        assert all[..i] == es[..i] && all[i] == es[i];
      }
    }
    assert IsRun(c, all) && After(c, all) == Apply(c, s, e);
  }

  // ---- What every reachable state keeps --------------------------------------

  ghost predicate RowOk(c: Config, j: Job) {
    && (Active(j) <==> j.leaseOwner.Some?)
    && (Active(j) <==> j.leaseExpiresAt.Some?)
    && (j.payload.Some? <==> !Terminal(j))
    && (j.completedAt.Some? <==> Terminal(j))
    && (j.cancelledAt.Some? <==> j.status == Cancelled)
    && (j.status == Cancelling || j.status == Cancelled ==> j.cancelRequestedAt.Some?)
    && (j.status == Pending || j.status == Completed || j.status == Failed ==> j.cancelRequestedAt.None?)
    && (j.cancelRequestedAt.None? ==> j.recoveryCount <= Max(c.maxRecoveries, 0))
    && (j.startedAt.None? ==> !Active(j) && j.recoveryCount == 0)
  }

  /** What a busy worker may rely on: it only holds an uncancelled running job while
      executing it, and it only finalizes a cancellation somebody asked for. */
  ghost predicate ViewHolds(jobs: Table, o: Id, v: View) {
    match v
    case Idle => true
    case Finalizing(j) => j in jobs && jobs[j].cancelRequestedAt.Some?
    case Executing(j, told) =>
      && j in jobs
      && (told ==> jobs[j].cancelRequestedAt.Some?)
      && (jobs[j].leaseOwner == Some(o) && jobs[j].status == Running ==> jobs[j].cancelRequestedAt.None?)
  }

  ghost predicate ViewOk(s: System, o: Id) {
    ViewHolds(s.jobs, o, ViewOf(s, o))
  }

  ghost predicate Inv(c: Config, s: System) {
    && (forall id :: id in s.jobs ==> RowOk(c, s.jobs[id]))
    && UniqueRuns(s.jobs)
    && (forall o :: ViewOk(s, o))
  }

  /** How one write may move a row. */
  ghost predicate RowMoves(c: Config, before: Job, after: Job) {
    && !Terminal(before)
    && after.runId == before.runId
    && after.userId == before.userId
    && after.projectId == before.projectId
    && (before.cancelRequestedAt.Some? ==> after.cancelRequestedAt.Some?)
  }

  /** A write that keeps its row in order; only an admission adds a row. */
  ghost predicate WriteOk(c: Config, jobs: Table, w: Write, admits: bool) {
    w.Some? ==>
      && RowOk(c, w.value.1)
      && (w.value.0 in jobs ==> RowMoves(c, jobs[w.value.0], w.value.1))
      && (w.value.0 !in jobs ==> admits && !RunIsKnown(jobs, w.value.1.runId))
  }

  lemma ClaimKeepsRow(c: Config, jobs: Table, id: Id, owner: Id, now: Time)
    requires id in jobs ==> RowOk(c, jobs[id])
    ensures WriteOk(c, jobs, ClaimWrite(jobs, id, owner, now, c.lease, c.maxRecoveries), false)
  {
  }

  lemma HeartbeatKeepsRow(c: Config, jobs: Table, id: Id, owner: Id, now: Time)
    requires id in jobs ==> RowOk(c, jobs[id])
    ensures WriteOk(c, jobs, HeartbeatWrite(jobs, id, owner, now, c.lease), false)
  {
  }

  lemma RequestKeepsRow(c: Config, jobs: Table, id: Id, project: Id, now: Time)
    requires id in jobs ==> RowOk(c, jobs[id])
    ensures WriteOk(c, jobs, RequestCancelWrite(jobs, id, project, now), false)
  {
  }

  /** The final calls keep the row in order given what their worker may rely on. */
  lemma FinalCallKeepsRow(c: Config, s: System, owner: Id, now: Time)
    requires ViewOk(s, owner) && ViewOf(s, owner) != Idle
    requires ViewOf(s, owner).job in s.jobs ==> RowOk(c, s.jobs[ViewOf(s, owner).job])
    ensures
      var v := ViewOf(s, owner);
      && (v.Finalizing? || v.told ==> WriteOk(c, s.jobs, CancelWrite(s.jobs, v.job, owner, now), false))
      && (v.Executing? ==>
            && WriteOk(c, s.jobs, ReleaseWrite(s.jobs, v.job, owner, now), false)
            && WriteOk(c, s.jobs, CompleteWrite(s.jobs, v.job, owner, now), false)
            && WriteOk(c, s.jobs, FailWrite(s.jobs, v.job, owner, now), false))
  {
  }

  lemma WriteKeepsRows(c: Config, s: System, e: Event)
    requires Inv(c, s) && Enabled(c, s, e)
    ensures WriteOk(c, s.jobs, WriteOf(c, s, e), e.Admit?)
  {
    match e
    case Claim(o, pick, _, now) =>
      if pick.Some? {
        ClaimKeepsRow(c, s.jobs, pick.value, o, now);
      }
    case Heartbeat(o, id, now) => HeartbeatKeepsRow(c, s.jobs, id, o, now);
    case RequestCancellation(id, project, now) => RequestKeepsRow(c, s.jobs, id, project, now);
    case Cancel(o, now) => FinalCallKeepsRow(c, s, o, now);
    case Release(o, now) => FinalCallKeepsRow(c, s, o, now);
    case Complete(o, now) => FinalCallKeepsRow(c, s, o, now);
    case Fail(o, now) => FinalCallKeepsRow(c, s, o, now);
    case _ =>
  }

  /** What a worker relies on survives any write that keeps the row in order, unless the
      write hands it the row. */
  lemma ViewSurvives(c: Config, jobs: Table, w: Write, admits: bool, o: Id, v: View)
    requires WriteOk(c, jobs, w, admits) && ViewHolds(jobs, o, v)
    requires w.Some? && w.value.1.leaseOwner == Some(o) && w.value.0 in jobs ==>
               jobs[w.value.0].leaseOwner == Some(o)
               && (jobs[w.value.0].status != Running ==> w.value.1.status != Running)
               && (w.value.1.status == Running && jobs[w.value.0].cancelRequestedAt.None? ==> w.value.1.cancelRequestedAt.None?)
    ensures ViewHolds(Put(jobs, w), o, v)
  {
  }

  /** No step of anybody else hands a worker a row. */
  lemma OthersHandOver(c: Config, s: System, e: Event, o: Id)
    requires Enabled(c, s, e) && WriteOf(c, s, e).Some? && WriteOf(c, s, e).value.0 in s.jobs
    requires e.Admit? || e.Heartbeat? || e.RequestCancellation? || e.owner != o
    requires WriteOf(c, s, e).value.1.leaseOwner == Some(o)
    ensures
      var (id, row) := WriteOf(c, s, e).value;
      && s.jobs[id].leaseOwner == Some(o)
      && (s.jobs[id].status != Running ==> row.status != Running)
      && (row.status == Running && s.jobs[id].cancelRequestedAt.None? ==> row.cancelRequestedAt.None?)
  {
  }

  /** A worker that does nothing keeps what it relies on, whatever others write. */
  lemma OtherViewKept(c: Config, s: System, e: Event, o: Id)
    requires Inv(c, s) && Enabled(c, s, e)
    requires e.Admit? || e.Heartbeat? || e.RequestCancellation? || e.owner != o
    ensures ViewOk(Apply(c, s, e), o)
  {
    WriteKeepsRows(c, s, e);
    var w := WriteOf(c, s, e);
    if w.Some? && w.value.0 in s.jobs && w.value.1.leaseOwner == Some(o) {
      OthersHandOver(c, s, e, o);
    }
    assert ViewOk(s, o);
    ViewSurvives(c, s.jobs, w, e.Admit?, o, ViewOf(s, o));
    assert ViewOf(Apply(c, s, e), o) == ViewOf(s, o);
  }

  lemma OwnViewKept(c: Config, s: System, e: Event, o: Id)
    requires Inv(c, s) && Enabled(c, s, e)
    requires !e.Admit? && !e.Heartbeat? && !e.RequestCancellation? && e.owner == o
    ensures ViewOk(Apply(c, s, e), o)
  {
    assert ViewOk(s, o);
  }

  lemma StepKeepsViews(c: Config, s: System, e: Event, o: Id)
    requires Inv(c, s) && Enabled(c, s, e)
    ensures ViewOk(Apply(c, s, e), o)
  {
    if e.Admit? || e.Heartbeat? || e.RequestCancellation? || e.owner != o {
      OtherViewKept(c, s, e, o);
    } else {
      OwnViewKept(c, s, e, o);
    }
  }

  lemma StepKeepsInv(c: Config, s: System, e: Event)
    requires Inv(c, s) && Enabled(c, s, e)
    ensures Inv(c, Apply(c, s, e))
  {
    WriteKeepsRows(c, s, e);
    forall o
      ensures ViewOk(Apply(c, s, e), o)
    {
      StepKeepsViews(c, s, e, o);
    }
  }

  lemma {:induction false} RunKeepsInv(c: Config, es: seq<Event>)
    requires IsRun(c, es)
    ensures Inv(c, After(c, es))
  {
    if es != [] {
      var n := |es| - 1;
      PrefixIsRun(c, es, n);
      RunKeepsInv(c, es[..n]);
      StepKeepsInv(c, After(c, es[..n]), es[n]);
    }
  }

  // ---- Lifecycle over whole runs -----------------------------------------------

  lemma RowStep(c: Config, s: System, e: Event, id: Id)
    requires Inv(c, s) && Enabled(c, s, e) && id in s.jobs
    ensures
      var before, after := s.jobs[id], Apply(c, s, e).jobs;
      && id in after
      && (before.cancelRequestedAt.Some? ==> after[id].cancelRequestedAt.Some?)
      && (Terminal(before) ==> after[id] == before)
  {
    WriteKeepsRows(c, s, e);
  }

  lemma InvAt(c: Config, es: seq<Event>, n: nat)
    requires IsRun(c, es) && n <= |es|
    ensures Inv(c, After(c, es[..n]))
  {
    PrefixIsRun(c, es, n);
    RunKeepsInv(c, es[..n]);
  }

  lemma RowOkAt(c: Config, es: seq<Event>, id: Id)
    requires IsRun(c, es) && id in After(c, es).jobs
    ensures RowOk(c, After(c, es).jobs[id])
  {
    RunKeepsInv(c, es);
  }

  lemma RowStepAt(c: Config, es: seq<Event>, n: nat, id: Id)
    requires IsRun(c, es) && n < |es| && id in After(c, es[..n]).jobs
    ensures
      var before, after := After(c, es[..n]).jobs[id], After(c, es[..n + 1]).jobs;
      && id in after
      && (before.cancelRequestedAt.Some? ==> after[id].cancelRequestedAt.Some?)
      && (Terminal(before) ==> after[id] == before)
  {
    InvAt(c, es, n);
    AfterStep(c, es, n);
    RowStep(c, After(c, es[..n]), es[n], id);
  }

  /** From one point of a run to a later one: rows stay, accepted cancellations stay,
      and terminal rows never change again. */
  lemma {:induction false} RowHistory(c: Config, es: seq<Event>, m: nat, n: nat, id: Id)
    requires IsRun(c, es) && m <= n <= |es|
    requires id in After(c, es[..m]).jobs
    ensures id in After(c, es[..n]).jobs
    ensures After(c, es[..m]).jobs[id].cancelRequestedAt.Some? ==> After(c, es[..n]).jobs[id].cancelRequestedAt.Some?
    ensures Terminal(After(c, es[..m]).jobs[id]) ==> After(c, es[..n]).jobs[id] == After(c, es[..m]).jobs[id]
    decreases n
  {
    if m < n {
      RowHistory(c, es, m, n - 1, id);
      RowStepAt(c, es, n - 1, id);
    }
  }

  /** In every reachable state a lease is present exactly while the job is running or
      cancelling, the payload exactly until it ends, the completion time exactly from
      then on; and only jobs somebody asked to cancel are cancelled. */
  lemma LifecycleShape(c: Config, es: seq<Event>, id: Id)
    requires IsRun(c, es) && id in After(c, es).jobs
    ensures
      var j := After(c, es).jobs[id];
      && (j.leaseOwner.Some? <==> j.status in {Running, Cancelling})
      && (j.leaseExpiresAt.Some? <==> j.status in {Running, Cancelling})
      && (j.payload.Some? <==> j.status !in {Completed, Failed, Cancelled})
      && (j.completedAt.Some? <==> j.status in {Completed, Failed, Cancelled})
      && (j.cancelledAt.Some? <==> j.status == Cancelled)
      && (j.status == Cancelled ==> j.cancelRequestedAt.Some?)
  {
    RowOkAt(c, es, id);
  }

  /** A run id names at most one job, however often it is submitted. */
  lemma RunIdsStayUnique(c: Config, es: seq<Event>)
    requires IsRun(c, es)
    ensures UniqueRuns(After(c, es).jobs)
  {
    RunKeepsInv(c, es);
  }

  lemma TerminalIsFinal(c: Config, es: seq<Event>, m: nat, id: Id)
    requires IsRun(c, es) && m <= |es|
    requires id in After(c, es[..m]).jobs && Terminal(After(c, es[..m]).jobs[id])
    ensures id in After(c, es).jobs && After(c, es).jobs[id] == After(c, es[..m]).jobs[id]
  {
    assert es[..|es|] == es;
    RowHistory(c, es, m, |es|, id);
  }

  /** Cancellation wins: after an accepted request, whatever workers, expiries and
      recoveries follow, the job is never pending, completed or failed again, so that
      the only end left to it is Cancelled. */
  lemma CancellationWins(c: Config, es: seq<Event>, m: nat)
    requires IsRun(c, es) && m < |es|
    requires es[m].RequestCancellation? && WriteOf(c, After(c, es[..m]), es[m]).Some?
    ensures
      var id := es[m].id;
      && id in After(c, es).jobs
      && After(c, es).jobs[id].status in {Cancelling, Running, Cancelled}
      && (Terminal(After(c, es).jobs[id]) <==> After(c, es).jobs[id].status == Cancelled)
  {
    AcceptedRequestIsStored(c, es, m);
    assert es[..|es|] == es;
    RowHistory(c, es, m + 1, |es|, es[m].id);
    RowOkAt(c, es, es[m].id);
  }

  lemma AcceptedRequestIsStored(c: Config, es: seq<Event>, m: nat)
    requires m < |es| && es[m].RequestCancellation? && WriteOf(c, After(c, es[..m]), es[m]).Some?
    ensures es[m].id in After(c, es[..m + 1]).jobs
    ensures After(c, es[..m + 1]).jobs[es[m].id].cancelRequestedAt.Some?
  {
    AfterStep(c, es, m);
  }

  // ---- Lease exclusion -----------------------------------------------------------

  /** The time parameter of the statements that read or set a lease. */
  function Stamp(e: Event): Option<Time> {
    match e
    case Claim(_, _, _, now) => Some(now)
    case Heartbeat(_, _, now) => Some(now)
    case _ => None
  }

  /** Event `e` gives job `id` to `owner` or renews it for `owner` at time `t`. */
  ghost predicate Secures(c: Config, s: System, e: Event, id: Id, owner: Id, t: Time) {
    && Stamp(e) == Some(t)
    && e.owner == owner
    && WriteOf(c, s, e).Some?
    && WriteOf(c, s, e).value.0 == id
    && WriteOf(c, s, e).value.1.leaseOwner == Some(owner)
  }

  /** Event `e` is `owner` giving up job `id` itself. */
  ghost predicate GivesUp(c: Config, s: System, e: Event, id: Id, owner: Id) {
    && (e.Release? || e.Complete? || e.Fail? || e.Cancel?)
    && e.owner == owner
    && WriteOf(c, s, e).Some?
    && WriteOf(c, s, e).value.0 == id
  }

  /** Job `id` is leased to `owner` at least until `t`. */
  ghost predicate LeasedUntil(s: System, id: Id, owner: Id, t: Time) {
    && id in s.jobs
    && s.jobs[id].leaseOwner == Some(owner)
    && s.jobs[id].leaseExpiresAt.Some?
    && t <= s.jobs[id].leaseExpiresAt.value
  }

  /** Event `e` is a claim that writes job `id`: it grants it or fails it. */
  ghost predicate Takes(c: Config, s: System, e: Event, id: Id) {
    e.Claim? && WriteOf(c, s, e).Some? && WriteOf(c, s, e).value.0 == id
  }

  /** Event `e` is a heartbeat that renews job `id`. */
  ghost predicate Renews(c: Config, s: System, e: Event, id: Id) {
    e.Heartbeat? && WriteOf(c, s, e).Some? && WriteOf(c, s, e).value.0 == id
  }

  /** While a lease runs, only its holder can end it: any other step leaves it in
      place, unless its time parameter lies past the end of the lease. */
  lemma LeaseStep(c: Config, s: System, e: Event, id: Id, owner: Id, t: Time)
    requires Inv(c, s) && Enabled(c, s, e)
    requires LeasedUntil(s, id, owner, t + c.lease)
    requires Renews(c, s, e, id) ==> t <= e.now
    ensures
      || LeasedUntil(Apply(c, s, e), id, owner, t + c.lease)
      || GivesUp(c, s, e, id, owner)
      || (Takes(c, s, e, id) && e.now > t + c.lease)
  {
    WriteKeepsRows(c, s, e);
  }

  lemma LeaseStart(c: Config, es: seq<Event>, m: nat, id: Id, owner: Id, t: Time)
    requires m < |es| && Secures(c, After(c, es[..m]), es[m], id, owner, t)
    ensures LeasedUntil(After(c, es[..m + 1]), id, owner, t + c.lease)
  {
    AfterStep(c, es, m);
  }

  lemma LeaseStepAt(c: Config, es: seq<Event>, k: nat, id: Id, owner: Id, t: Time)
    requires IsRun(c, es) && k < |es|
    requires LeasedUntil(After(c, es[..k]), id, owner, t + c.lease)
    requires Renews(c, After(c, es[..k]), es[k], id) ==> t <= es[k].now
    requires !GivesUp(c, After(c, es[..k]), es[k], id, owner)
    ensures
      || LeasedUntil(After(c, es[..k + 1]), id, owner, t + c.lease)
      || (Takes(c, After(c, es[..k]), es[k], id) && es[k].now > t + c.lease)
  {
    InvAt(c, es, k);
    AfterStep(c, es, k);
    LeaseStep(c, After(c, es[..k]), es[k], id, owner, t);
  }

  /** Between steps m and n the holder does not give the job up itself. */
  ghost predicate KeepsJob(c: Config, es: seq<Event>, m: nat, n: nat, id: Id, owner: Id)
    requires n <= |es|
  {
    forall k {:trigger es[k]} :: m < k < n ==> !GivesUp(c, After(c, es[..k]), es[k], id, owner)
  }

  /** Between steps m and n heartbeats that renew the job are stamped at or after `t`. */
  ghost predicate RenewsForward(c: Config, es: seq<Event>, m: nat, n: nat, id: Id, t: Time)
    requires n <= |es|
  {
    forall k {:trigger es[k]} :: m < k < n && Renews(c, After(c, es[..k]), es[k], id) ==> t <= es[k].now
  }

  /** No claim of the job between steps m and n is stamped after `u`. */
  ghost predicate TakenBy(c: Config, es: seq<Event>, m: nat, n: nat, id: Id, u: Time)
    requires n <= |es|
  {
    forall k {:trigger es[k]} :: m < k < n && Takes(c, After(c, es[..k]), es[k], id) ==> es[k].now <= u
  }

  /** A lease secured before step m + 1 either still protects the job at step n, or a claim
      stamped past its end has ended it. */
  lemma {:induction false} LeaseHistory(c: Config, es: seq<Event>, m: nat, n: nat, id: Id, owner: Id, t: Time)
    requires IsRun(c, es)
    requires m < n <= |es|
    requires LeasedUntil(After(c, es[..m + 1]), id, owner, t + c.lease)
    requires KeepsJob(c, es, m, n, id, owner) && RenewsForward(c, es, m, n, id, t)
    ensures
      || LeasedUntil(After(c, es[..n]), id, owner, t + c.lease)
      || (exists k {:trigger es[k]} :: m < k < n && Takes(c, After(c, es[..k]), es[k], id) && es[k].now > t + c.lease)
    decreases n - m
  {
    if m + 1 < n {
      LeaseStepAt(c, es, m + 1, id, owner, t);
      if LeasedUntil(After(c, es[..m + 2]), id, owner, t + c.lease) {
        LeaseHistory(c, es, m + 1, n, id, owner, t);
      }
    }
  }

  lemma TakeoverIsLate(c: Config, es: seq<Event>, n: nat, id: Id, owner: Id, t: Time)
    requires IsRun(c, es) && n < |es|
    requires LeasedUntil(After(c, es[..n]), id, owner, t + c.lease)
    requires Takes(c, After(c, es[..n]), es[n], id)
    ensures es[n].now > t + c.lease
  {
    PrefixIsRun(c, es, n);
    RowOkAt(c, es[..n], id);
  }

  /** Lease exclusion: after `owner` claims or renews job `id` at time t, every later claim
      that takes the job, whoever makes it, is stamped later than t plus the lease, unless the
      holder gave the job up itself in between. Nothing is asked of the stamps of other jobs;
      of this one, renewals go forward from t and claims do not overtake this claim. */
  lemma LeaseExclusion(c: Config, es: seq<Event>, m: nat, n: nat, id: Id, owner: Id, t: Time)
    requires IsRun(c, es)
    requires m < n < |es|
    requires Secures(c, After(c, es[..m]), es[m], id, owner, t)
    requires Takes(c, After(c, es[..n]), es[n], id)
    requires KeepsJob(c, es, m, n, id, owner)
    requires RenewsForward(c, es, m, n, id, t) && TakenBy(c, es, m, n, id, es[n].now)
    ensures es[n].now > t + c.lease
  {
    LeaseStart(c, es, m, id, owner, t);
    LeaseHistory(c, es, m, n, id, owner, t);
    if LeasedUntil(After(c, es[..n]), id, owner, t + c.lease) {
      TakeoverIsLate(c, es, n, id, owner, t);
    }
  }

  /** For the next claim that takes the job, only the holder's own heartbeats matter: it is
      late if those of them that renewed the job were stamped at or after t. */
  lemma NextTakeoverIsLate(c: Config, es: seq<Event>, m: nat, n: nat, id: Id, owner: Id, t: Time)
    requires IsRun(c, es)
    requires m < n < |es|
    requires Secures(c, After(c, es[..m]), es[m], id, owner, t)
    requires Takes(c, After(c, es[..n]), es[n], id)
    requires forall k {:trigger es[k]} :: m < k < n ==> !Takes(c, After(c, es[..k]), es[k], id)
    requires KeepsJob(c, es, m, n, id, owner)
    requires forall k {:trigger es[k]} :: m < k < n && es[k].Heartbeat? && es[k].owner == owner && es[k].id == id ==> t <= es[k].now
    ensures es[n].now > t + c.lease
  {
    LeaseStart(c, es, m, id, owner, t);
    NextHistory(c, es, m, n, id, owner, t);
    TakeoverIsLate(c, es, n, id, owner, t);
  }

  lemma {:induction false} NextHistory(c: Config, es: seq<Event>, m: nat, n: nat, id: Id, owner: Id, t: Time)
    requires IsRun(c, es)
    requires m < n <= |es|
    requires LeasedUntil(After(c, es[..m + 1]), id, owner, t + c.lease)
    requires forall k {:trigger es[k]} :: m < k < n ==> !Takes(c, After(c, es[..k]), es[k], id)
    requires KeepsJob(c, es, m, n, id, owner)
    requires forall k {:trigger es[k]} :: m < k < n && es[k].Heartbeat? && es[k].owner == owner && es[k].id == id ==> t <= es[k].now
    ensures LeasedUntil(After(c, es[..n]), id, owner, t + c.lease)
    decreases n - m
  {
    if m + 1 < n {
      HolderRenews(c, After(c, es[..m + 1]), es[m + 1], id, owner);
      LeaseStepAt(c, es, m + 1, id, owner, t);
      NextHistory(c, es, m + 1, n, id, owner, t);
    }
  }

  /** Only the holder's heartbeat renews a job. */
  lemma HolderRenews(c: Config, s: System, e: Event, id: Id, owner: Id)
    requires id in s.jobs && s.jobs[id].leaseOwner == Some(owner)
    ensures Renews(c, s, e, id) ==> e.owner == owner && e.id == id
  {
  }

  /** A step that worker `owner` makes. */
  predicate ActsFor(e: Event, owner: Id) {
    !e.Admit? && !e.RequestCancellation? && e.owner == owner
  }

  lemma StaleStep(c: Config, s: System, e: Event, id: Id, owner: Id)
    requires id in s.jobs && s.jobs[id].leaseOwner != Some(owner)
    requires !(Takes(c, s, e, id) && e.owner == owner)
    ensures id in Apply(c, s, e).jobs && Apply(c, s, e).jobs[id].leaseOwner != Some(owner)
    ensures ActsFor(e, owner) ==> Apply(c, s, e).jobs[id] == s.jobs[id]
  {
  }

  lemma StaleStepAt(c: Config, es: seq<Event>, n: nat, id: Id, owner: Id)
    requires n < |es|
    requires id in After(c, es[..n]).jobs && After(c, es[..n]).jobs[id].leaseOwner != Some(owner)
    requires !(Takes(c, After(c, es[..n]), es[n], id) && es[n].owner == owner)
    ensures id in After(c, es[..n + 1]).jobs && After(c, es[..n + 1]).jobs[id].leaseOwner != Some(owner)
    ensures ActsFor(es[n], owner) ==> After(c, es[..n + 1]).jobs[id] == After(c, es[..n]).jobs[id]
  {
    AfterStep(c, es, n);
    StaleStep(c, After(c, es[..n]), es[n], id, owner);
  }

  /** After a takeover nothing the old holder does changes the job, until one of its claims
      takes that very job again: not a late heartbeat, completion, failure, release or
      cancellation, nor polling and working on other jobs. */
  lemma {:induction false} StaleHolderIsPowerless(c: Config, es: seq<Event>, m: nat, n: nat, id: Id, owner: Id)
    requires m <= n < |es|
    requires id in After(c, es[..m]).jobs && After(c, es[..m]).jobs[id].leaseOwner != Some(owner)
    requires forall k {:trigger es[k]} :: m <= k <= n ==> !(Takes(c, After(c, es[..k]), es[k], id) && es[k].owner == owner)
    ensures id in After(c, es[..n + 1]).jobs && After(c, es[..n + 1]).jobs[id].leaseOwner != Some(owner)
    ensures ActsFor(es[n], owner) ==> Lookup(After(c, es[..n + 1]).jobs, id) == Lookup(After(c, es[..n]).jobs, id)
    decreases n
  {
    if m < n {
      StaleHolderIsPowerless(c, es, m, n - 1, id, owner);
    }
    StaleStepAt(c, es, n, id, owner);
  }
}
