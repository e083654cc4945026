/** Rows of the durable job queue and what each SQL statement or transaction of
    runner-v2/pkg/db/mysql/workflow_jobs.go writes. Every one of them writes at
    most one row, under a guard; a `Write` is that row, or None when the guard
    fails and nothing changes. */
module Jobs {
  import opened Basics
  import opened FixedWindow

  type Id = string
  type Time = int

  datatype Status = Pending | Running | Cancelling | Cancelled | Completed | Failed

  datatype Job = Job(
    runId: Id,
    projectId: Id,
    userId: Id,
    requestHash: string,
    payload: Option<string>,
    status: Status,
    priority: int,
    createdAt: Time,
    leaseOwner: Option<Id>,
    leaseExpiresAt: Option<Time>,
    cancelRequestedAt: Option<Time>,
    cancelledAt: Option<Time>,
    recoveryCount: nat,
    startedAt: Option<Time>,
    completedAt: Option<Time>)

  datatype Policy = Policy(
    maxQueuedGlobal: int,
    maxQueuedPerUser: int,
    maxQueuedPerProject: int,
    submissionsPerMinuteUser: int,
    submissionsPerMinuteProject: int,
    maxRunningPerUser: int,
    maxRunningPerProject: int)

  type Table = map<Id, Job>
  type Write = Option<(Id, Job)>

  function Put(jobs: Table, w: Write): Table {
    if w.Some? then jobs[w.value.0 := w.value.1] else jobs
  }

  predicate Active(j: Job) {
    j.status == Running || j.status == Cancelling
  }

  predicate Terminal(j: Job) {
    j.status == Completed || j.status == Failed || j.status == Cancelled
  }

  predicate Expired(j: Job, now: Time) {
    Active(j) && j.leaseExpiresAt.Some? && j.leaseExpiresAt.value < now
  }

  /** `SELECT COUNT(*) ... WHERE p`. */
  function Members(jobs: Table, p: Job -> bool): set<Id> {
    set id | id in jobs && p(jobs[id])
  }

  function PendingJobs(): Job -> bool {
    (j: Job) => j.status == Pending
  }

  function PendingOfUser(user: Id): Job -> bool {
    (j: Job) => j.status == Pending && j.userId == user
  }

  function PendingOfProject(project: Id): Job -> bool {
    (j: Job) => j.status == Pending && j.projectId == project
  }

  /** What a queue limit counts: all waiting jobs, or those of one user or project. */
  datatype QueueScope = Server | OfUser(user: Id) | OfProject(project: Id)

  function WaitingIn(scope: QueueScope): Job -> bool {
    match scope
    case Server => PendingJobs()
    case OfUser(user) => PendingOfUser(user)
    case OfProject(project) => PendingOfProject(project)
  }

  function QueueLimit(policy: Policy, scope: QueueScope): int {
    match scope
    case Server => policy.maxQueuedGlobal
    case OfUser(_) => policy.maxQueuedPerUser
    case OfProject(_) => policy.maxQueuedPerProject
  }

  function ActiveOfUser(user: Id): Job -> bool {
    (j: Job) => Active(j) && j.userId == user
  }

  function ActiveOfProject(project: Id): Job -> bool {
    (j: Job) => Active(j) && j.projectId == project
  }

  // ---- Admission -----------------------------------------------------------

  datatype Submission = Submission(
    id: Id, runId: Id, projectId: Id, userId: Id, requestHash: string,
    payload: string, priority: int, createdAt: Time)

  datatype Scope = UserRate | ProjectRate

  type Rates = map<(Scope, Id), Window>

  datatype Check = Check(scope: Scope, subject: Id, limit: int)

  const MINUTE: int := 60_000

  function RateChecks(sub: Submission, policy: Policy): seq<Check> {
    [Check(UserRate, sub.userId, policy.submissionsPerMinuteUser),
     Check(ProjectRate, sub.projectId, policy.submissionsPerMinuteProject)]
  }

  /** The windows after charging the first `n` checks, or None once one of them is
      over its limit. */
  function Charged(rates: Rates, checks: seq<Check>, n: nat, now: Time): Option<Rates>
    requires n <= |checks|
  {
    if n == 0 then Some(rates)
    else
      var before := Charged(rates, checks, n - 1, now);
      var check := checks[n - 1];
      if before.None? || check.limit <= 0 then before
      else
        var (w, ok) := Hit(Lookup(before.value, (check.scope, check.subject)), now, MINUTE, check.limit);
        if ok then Some(before.value[(check.scope, check.subject) := w]) else None
  }

  predicate QueueHasRoom(jobs: Table, sub: Submission, policy: Policy) {
    && (policy.maxQueuedGlobal > 0 ==> |Members(jobs, PendingJobs())| < policy.maxQueuedGlobal)
    && (policy.maxQueuedPerUser > 0 ==>
          |Members(jobs, PendingOfUser(sub.userId))| < policy.maxQueuedPerUser)
    && (policy.maxQueuedPerProject > 0 ==>
          |Members(jobs, PendingOfProject(sub.projectId))| < policy.maxQueuedPerProject)
  }

  predicate RunIsKnown(jobs: Table, runId: Id) {
    exists id :: id in jobs && jobs[id].runId == runId
  }

  /** The unique key on workflow_run_id. */
  ghost predicate UniqueRuns(jobs: Table) {
    forall a, b :: a in jobs && b in jobs && jobs[a].runId == jobs[b].runId ==> a == b
  }

  /** Whether the submission becomes a new row. `recordsOk` says that the run and
      session rows written in the same transaction were accepted. */
  predicate Admissible(jobs: Table, rates: Rates, sub: Submission, policy: Policy, recordsOk: bool) {
    && !RunIsKnown(jobs, sub.runId)
    && Charged(rates, RateChecks(sub, policy), 2, sub.createdAt).Some?
    && QueueHasRoom(jobs, sub, policy)
    && sub.id !in jobs
    && recordsOk
  }

  function NewJob(sub: Submission): Job {
    Job(sub.runId, sub.projectId, sub.userId, sub.requestHash, Some(sub.payload), Pending,
        sub.priority, sub.createdAt, None, None, None, None, 0, None, None)
  }

  function AdmitWrite(jobs: Table, rates: Rates, sub: Submission, policy: Policy, recordsOk: bool): Write {
    if Admissible(jobs, rates, sub, policy, recordsOk) then Some((sub.id, NewJob(sub))) else None
  }

  function AdmitRates(jobs: Table, rates: Rates, sub: Submission, policy: Policy, recordsOk: bool): Rates {
    if Admissible(jobs, rates, sub, policy, recordsOk)
    then Charged(rates, RateChecks(sub, policy), 2, sub.createdAt).value
    else rates
  }

  // ---- Claiming ------------------------------------------------------------

  function Cap(limit: int): int {
    if limit > 0 then limit else 1
  }

  predicate Claimable(jobs: Table, policy: Policy, now: Time, id: Id)
    requires id in jobs
  {
    || Expired(jobs[id], now)
    || (&& jobs[id].status == Pending
        && |Members(jobs, ActiveOfUser(jobs[id].userId))| < Cap(policy.maxRunningPerUser)
        && |Members(jobs, ActiveOfProject(jobs[id].projectId))| < Cap(policy.maxRunningPerProject))
  }

  /** Strictly earlier in `ORDER BY active DESC, priority DESC, created_at ASC`. */
  predicate Before(a: Job, b: Job) {
    if Active(a) != Active(b) then Active(a)
    else if a.priority != b.priority then a.priority > b.priority
    else a.createdAt < b.createdAt
  }

  /** `LIMIT 1 FOR UPDATE SKIP LOCKED`: the best claimable row outside `locked`, or
      none when there is no such row. */
  ghost predicate Selects(jobs: Table, policy: Policy, now: Time, locked: set<Id>, pick: Option<Id>) {
    && (pick.Some? ==>
          && pick.value in jobs && pick.value !in locked
          && Claimable(jobs, policy, now, pick.value))
    && forall id :: id in jobs && id !in locked && Claimable(jobs, policy, now, id) ==>
                      pick.Some? && !Before(jobs[id], jobs[pick.value])
  }

  /** What the order means: an interrupted job goes before any waiting one; among equals the
      higher priority goes first, and at equal priority the older job. */
  lemma SelectsBest(jobs: Table, policy: Policy, now: Time, locked: set<Id>, pick: Id, id: Id)
    requires Selects(jobs, policy, now, locked, Some(pick))
    requires id in jobs && id !in locked && Claimable(jobs, policy, now, id)
    ensures Expired(jobs[id], now) ==> Expired(jobs[pick], now)
    ensures Active(jobs[id]) == Active(jobs[pick]) ==>
              || jobs[pick].priority > jobs[id].priority
              || (jobs[pick].priority == jobs[id].priority && jobs[pick].createdAt <= jobs[id].createdAt)
  {
    assert !Before(jobs[id], jobs[pick]);
  }

  /** An interrupted job that nobody asked to cancel and that has used up its recoveries. */
  predicate Exhausted(j: Job, maxRecoveries: int) {
    Active(j) && j.cancelRequestedAt.None? && j.recoveryCount >= maxRecoveries
  }

  function Abandoned(j: Job, now: Time): Job {
    j.(status := Failed, leaseOwner := None, leaseExpiresAt := None,
       completedAt := Some(now), payload := None)
  }

  function Granted(j: Job, owner: Id, now: Time, lease: int): Job {
    j.(status := Running, leaseOwner := Some(owner), leaseExpiresAt := Some(now + lease),
       recoveryCount := j.recoveryCount + (if Active(j) then 1 else 0),
       startedAt := if j.startedAt.Some? then j.startedAt else Some(now))
  }

  /** What claiming row `id` writes; the guard of the final UPDATE is repeated. */
  function ClaimWrite(jobs: Table, id: Id, owner: Id, now: Time, lease: int, maxRecoveries: int): Write {
    if id !in jobs || !(jobs[id].status == Pending || Expired(jobs[id], now)) then None
    else if Exhausted(jobs[id], maxRecoveries) then Some((id, Abandoned(jobs[id], now)))
    else Some((id, Granted(jobs[id], owner, now, lease)))
  }

  // ---- Steps of the lease holder ---------------------------------------------

  predicate HeldBy(jobs: Table, id: Id, owner: Id) {
    id in jobs && jobs[id].leaseOwner == Some(owner)
  }

  function HeartbeatWrite(jobs: Table, id: Id, owner: Id, now: Time, lease: int): Write {
    if HeldBy(jobs, id, owner) && jobs[id].status == Running && jobs[id].cancelRequestedAt.None?
    then Some((id, jobs[id].(leaseExpiresAt := Some(now + lease))))
    else None
  }

  /** What a refused heartbeat reads back: its own row, marked for cancellation. */
  predicate SeesCancellation(jobs: Table, id: Id, owner: Id) {
    HeldBy(jobs, id, owner) && (jobs[id].status == Cancelling || jobs[id].cancelRequestedAt.Some?)
  }

  function CancelWrite(jobs: Table, id: Id, owner: Id, now: Time): Write {
    if HeldBy(jobs, id, owner) && Active(jobs[id])
    then Some((id, jobs[id].(status := Cancelled, leaseOwner := None, leaseExpiresAt := None,
                             cancelledAt := Some(now), completedAt := Some(now), payload := None)))
    else None
  }

  function ReleaseWrite(jobs: Table, id: Id, owner: Id, now: Time): Write {
    if HeldBy(jobs, id, owner) && jobs[id].status == Running
    then Some((id, jobs[id].(status := Pending, leaseOwner := None, leaseExpiresAt := None)))
    else None
  }

  function CompleteWrite(jobs: Table, id: Id, owner: Id, now: Time): Write {
    if HeldBy(jobs, id, owner) && jobs[id].status == Running
    then Some((id, jobs[id].(status := Completed, leaseOwner := None, leaseExpiresAt := None,
                             completedAt := Some(now), payload := None)))
    else None
  }

  function FailWrite(jobs: Table, id: Id, owner: Id, now: Time): Write {
    if HeldBy(jobs, id, owner) && jobs[id].status == Running
    then Some((id, jobs[id].(status := Failed, leaseOwner := None, leaseExpiresAt := None,
                             completedAt := Some(now), payload := None)))
    else None
  }

  // ---- A user's request to cancel --------------------------------------------

  function RequestCancelWrite(jobs: Table, id: Id, projectId: Id, now: Time): Write {
    if id !in jobs || jobs[id].projectId != projectId then None
    else if Terminal(jobs[id]) || jobs[id].status == Cancelling then None
    else if jobs[id].status == Pending then
      Some((id, jobs[id].(status := Cancelled, cancelRequestedAt := Some(now), cancelledAt := Some(now),
                          completedAt := if jobs[id].completedAt.Some? then jobs[id].completedAt else Some(now),
                          payload := None)))
    else
      Some((id, jobs[id].(status := Cancelling, cancelRequestedAt := Some(now), cancelledAt := None)))
  }
}
