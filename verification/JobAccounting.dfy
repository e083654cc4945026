/** Quantities over whole runs of the job queue: how often a job is granted, how many
    jobs run or wait at once, and how fast new jobs are admitted. */
module JobAccounting {
  import opened Basics
  import opened FixedWindow
  import opened Jobs
  import opened JobProtocol

  // ---- Recovery accounting -----------------------------------------------------

  ghost predicate IsGrant(c: Config, s: System, e: Event, id: Id) {
    e.Claim? && WriteOf(c, s, e).Some? && WriteOf(c, s, e).value.0 == id && WriteOf(c, s, e).value.1.status == Running
  }

  ghost predicate IsStart(c: Config, s: System, e: Event, id: Id) {
    IsGrant(c, s, e, id) && id in s.jobs && s.jobs[id].status == Pending
  }

  ghost predicate IsRelease(c: Config, s: System, e: Event, id: Id) {
    e.Release? && WriteOf(c, s, e).Some? && WriteOf(c, s, e).value.0 == id
  }

  /** How many steps of the run satisfy `p`, each judged in the state it met. */
  ghost function Tally(c: Config, es: seq<Event>, p: (System, Event) -> bool): nat {
    if es == [] then 0
    else
      var n := |es| - 1;
      Tally(c, es[..n], p) + if p(After(c, es[..n]), es[n]) then 1 else 0
  }

  ghost function Grants(c: Config, es: seq<Event>, id: Id): nat {
    Tally(c, es, (s, e) => IsGrant(c, s, e, id))
  }

  ghost function Starts(c: Config, es: seq<Event>, id: Id): nat {
    Tally(c, es, (s, e) => IsStart(c, s, e, id))
  }

  ghost function Releases(c: Config, es: seq<Event>, id: Id): nat {
    Tally(c, es, (s, e) => IsRelease(c, s, e, id))
  }

  ghost predicate Balanced(jobs: Table, id: Id, grants: nat, starts: nat, releases: nat) {
    if id !in jobs then grants == starts == releases == 0
    else
      && grants == starts + jobs[id].recoveryCount
      && releases <= starts <= releases + 1
      && (jobs[id].status == Pending ==> starts == releases)
      && (Active(jobs[id]) ==> starts == releases + 1)
  }

  function Bit(b: bool): nat {
    if b then 1 else 0
  }

  lemma ClaimBalances(c: Config, s: System, e: Event, id: Id, g: nat, st: nat, r: nat)
    requires e.Claim? && WriteOf(c, s, e).Some? && WriteOf(c, s, e).value.0 == id
    requires Balanced(s.jobs, id, g, st, r)
    ensures Balanced(Put(s.jobs, WriteOf(c, s, e)), id,
                     g + Bit(IsGrant(c, s, e, id)), st + Bit(IsStart(c, s, e, id)), r + Bit(IsRelease(c, s, e, id)))
  {
  }

  lemma OtherWriteBalances(c: Config, s: System, e: Event, id: Id, g: nat, st: nat, r: nat)
    requires Inv(c, s) && Enabled(c, s, e)
    requires !e.Claim? && WriteOf(c, s, e).Some? && WriteOf(c, s, e).value.0 == id
    requires Balanced(s.jobs, id, g, st, r)
    ensures Balanced(Put(s.jobs, WriteOf(c, s, e)), id, g, st, r + Bit(IsRelease(c, s, e, id)))
  {
    WriteKeepsRows(c, s, e);
  }

  lemma BalanceStep(c: Config, s: System, e: Event, id: Id, g: nat, st: nat, r: nat)
    requires Inv(c, s) && Enabled(c, s, e)
    requires Balanced(s.jobs, id, g, st, r)
    ensures Balanced(Apply(c, s, e).jobs, id,
                     g + Bit(IsGrant(c, s, e, id)), st + Bit(IsStart(c, s, e, id)), r + Bit(IsRelease(c, s, e, id)))
  {
    var w := WriteOf(c, s, e);
    if w.Some? && w.value.0 == id {
      if e.Claim? {
        ClaimBalances(c, s, e, id, g, st, r);
      } else {
        OtherWriteBalances(c, s, e, id, g, st, r);
      }
    }
  }

  lemma {:induction false} RunBalances(c: Config, es: seq<Event>, id: Id)
    requires IsRun(c, es)
    ensures Balanced(After(c, es).jobs, id, Grants(c, es, id), Starts(c, es, id), Releases(c, es, id))
  {
    if es != [] {
      var n := |es| - 1;
      PrefixIsRun(c, es, n);
      RunBalances(c, es[..n], id);
      RunKeepsInv(c, es[..n]);
      BalanceStep(c, After(c, es[..n]), es[n], id,
                  Grants(c, es[..n], id), Starts(c, es[..n], id), Releases(c, es[..n], id));
    }
  }

  /** Leases granted to a job are its starts from pending plus its recoveries; starts
      exceed releases by at most one; and until somebody asks to cancel it, a job is
      granted at most once per release, plus once, plus the allowed recoveries. */
  lemma RecoveryAccounting(c: Config, es: seq<Event>, id: Id)
    requires IsRun(c, es) && id in After(c, es).jobs
    ensures
      var j := After(c, es).jobs[id];
      && Grants(c, es, id) == Starts(c, es, id) + j.recoveryCount
      && Releases(c, es, id) <= Starts(c, es, id) <= Releases(c, es, id) + 1
      && (j.cancelRequestedAt.None? ==>
            && j.recoveryCount <= Max(c.maxRecoveries, 0)
            && Grants(c, es, id) <= Releases(c, es, id) + 1 + Max(c.maxRecoveries, 0))
  {
    RunBalances(c, es, id);
    RunKeepsInv(c, es);
    assert RowOk(c, After(c, es).jobs[id]);
  }

  // ---- Running caps and queue limits -----------------------------------------------

  lemma MembersPut(jobs: Table, id: Id, row: Job, p: Job -> bool)
    ensures |Members(jobs[id := row], p)| + Bit(id in jobs && p(jobs[id])) == |Members(jobs, p)| + Bit(p(row))
  {
    var rest := Members(jobs, p) - {id};
    assert Members(jobs[id := row], p) == if p(row) then rest + {id} else rest;
    assert Members(jobs, p) == if id in jobs && p(jobs[id]) then rest + {id} else rest;
  }

  function Fresh(): Job -> bool {
    (j: Job) => j.status == Pending && j.startedAt.None?
  }

  function FreshOfUser(user: Id): Job -> bool {
    (j: Job) => j.status == Pending && j.startedAt.None? && j.userId == user
  }

  function FreshOfProject(project: Id): Job -> bool {
    (j: Job) => j.status == Pending && j.startedAt.None? && j.projectId == project
  }

  /** The running caps and, for jobs that never started, the positive queue limits. */
  ghost predicate WithinLimits(p: Policy, jobs: Table) {
    && (forall u :: |Members(jobs, ActiveOfUser(u))| <= Cap(p.maxRunningPerUser))
    && (forall r :: |Members(jobs, ActiveOfProject(r))| <= Cap(p.maxRunningPerProject))
    && (p.maxQueuedGlobal > 0 ==> |Members(jobs, Fresh())| <= p.maxQueuedGlobal)
    && (p.maxQueuedPerUser > 0 ==> forall u :: |Members(jobs, FreshOfUser(u))| <= p.maxQueuedPerUser)
    && (p.maxQueuedPerProject > 0 ==> forall r :: |Members(jobs, FreshOfProject(r))| <= p.maxQueuedPerProject)
  }

  lemma SubsetCount(jobs: Table, p: Job -> bool, q: Job -> bool)
    requires forall j :: p(j) ==> q(j)
    ensures |Members(jobs, p)| <= |Members(jobs, q)|
  {
    CardinalityMonotone(Members(jobs, p), Members(jobs, q));
  }

  lemma CardinalityMonotone(a: set<Id>, b: set<Id>)
    requires a <= b
    ensures |a| <= |b|
  {
    assert b == a + (b - a);
  }

  lemma OnlyClaimsActivate(c: Config, s: System, e: Event)
    requires WriteOf(c, s, e).Some?
    requires var (id, row) := WriteOf(c, s, e).value; Active(row) && !(id in s.jobs && Active(s.jobs[id]))
    ensures e.Claim?
  {
  }

  /** A row can only become active by a claim that found room under both caps. */
  lemma ActivationIsCapped(c: Config, s: System, e: Event)
    requires Inv(c, s) && Enabled(c, s, e) && WriteOf(c, s, e).Some?
    requires var (id, row) := WriteOf(c, s, e).value; Active(row) && !(id in s.jobs && Active(s.jobs[id]))
    ensures
      var (id, row) := WriteOf(c, s, e).value;
      && |Members(s.jobs, ActiveOfUser(row.userId))| < Cap(c.policy.maxRunningPerUser)
      && |Members(s.jobs, ActiveOfProject(row.projectId))| < Cap(c.policy.maxRunningPerProject)
  {
    OnlyClaimsActivate(c, s, e);
    assert Claimable(s.jobs, c.policy, e.now, e.pick.value);
  }

  /** A row that never started can only become pending by an admission that found room. */
  lemma FreshnessIsAdmitted(c: Config, s: System, e: Event)
    requires Inv(c, s) && Enabled(c, s, e) && WriteOf(c, s, e).Some?
    requires var row := WriteOf(c, s, e).value.1; row.status == Pending && row.startedAt.None?
    ensures e.Admit? && QueueHasRoom(s.jobs, e.sub, c.policy) && WriteOf(c, s, e).value.1 == NewJob(e.sub)
  {
  }

  lemma LimitsStep(c: Config, s: System, e: Event)
    requires Inv(c, s) && Enabled(c, s, e)
    requires WithinLimits(c.policy, s.jobs)
    ensures WithinLimits(c.policy, Apply(c, s, e).jobs)
  {
    var w := WriteOf(c, s, e);
    if w.Some? {
      var (id, row) := w.value;
      WriteKeepsRows(c, s, e);
      if Active(row) && !(id in s.jobs && Active(s.jobs[id])) {
        ActivationIsCapped(c, s, e);
      }
      if row.status == Pending && row.startedAt.None? {
        FreshnessIsAdmitted(c, s, e);
        SubsetCount(s.jobs, Fresh(), PendingJobs());
        SubsetCount(s.jobs, FreshOfUser(row.userId), PendingOfUser(row.userId));
        SubsetCount(s.jobs, FreshOfProject(row.projectId), PendingOfProject(row.projectId));
      }
      forall u
        ensures |Members(Put(s.jobs, w), ActiveOfUser(u))| <= Cap(c.policy.maxRunningPerUser)
        ensures c.policy.maxQueuedPerUser > 0 ==>
                  |Members(Put(s.jobs, w), FreshOfUser(u))| <= c.policy.maxQueuedPerUser
      {
        MembersPut(s.jobs, id, row, ActiveOfUser(u));
        MembersPut(s.jobs, id, row, FreshOfUser(u));
      }
      forall r
        ensures |Members(Put(s.jobs, w), ActiveOfProject(r))| <= Cap(c.policy.maxRunningPerProject)
        ensures c.policy.maxQueuedPerProject > 0 ==>
                  |Members(Put(s.jobs, w), FreshOfProject(r))| <= c.policy.maxQueuedPerProject
      {
        MembersPut(s.jobs, id, row, ActiveOfProject(r));
        MembersPut(s.jobs, id, row, FreshOfProject(r));
      }
      MembersPut(s.jobs, id, row, Fresh());
    }
  }

  /** In every reachable state the running and cancelling jobs of each user and of each
      project stay within their caps, and the jobs that never started stay within every
      positive queue limit. */
  lemma {:induction false} LimitsHold(c: Config, es: seq<Event>)
    requires IsRun(c, es)
    ensures WithinLimits(c.policy, After(c, es).jobs)
  {
    if es != [] {
      var n := |es| - 1;
      PrefixIsRun(c, es, n);
      LimitsHold(c, es[..n]);
      RunKeepsInv(c, es[..n]);
      LimitsStep(c, After(c, es[..n]), es[n]);
    }
  }

  /** The whole pending queue has no such bound: with room for one queued job, a job that
      is started, and released after a second one was admitted, leaves two pending. */
  lemma ReleaseOverfillsQueue()
    ensures exists c: Config, s: System ::
              Reachable(c, s) && 0 < c.policy.maxQueuedGlobal < |Members(s.jobs, PendingJobs())|
  {
    var c := Config(Policy(1, 0, 0, 0, 0, 1, 1), 10, 3);
    var a := Submission("a", "run-a", "p", "u", "h", "x", 0, 0);
    var b := Submission("b", "run-b", "p", "u", "h", "x", 0, 0);
    var s := OverfilledQueue(c, a, b);
  }

  /** A release that puts a job back into the scope. */
  ghost predicate IsReleaseInto(c: Config, s: System, e: Event, scope: QueueScope) {
    e.Release? && WriteOf(c, s, e).Some? && WaitingIn(scope)(WriteOf(c, s, e).value.1)
  }

  /** A row starts to wait only by an admission that found room, or by a release. */
  lemma WaitingBegins(c: Config, s: System, e: Event, scope: QueueScope)
    requires Inv(c, s) && Enabled(c, s, e) && WriteOf(c, s, e).Some?
    requires WaitingIn(scope)(WriteOf(c, s, e).value.1)
    requires QueueLimit(c.policy, scope) > 0
    ensures
      || (e.Release? && WriteOf(c, s, e).value.0 in s.jobs && Active(s.jobs[WriteOf(c, s, e).value.0]))
      || (!e.Release? && |Members(s.jobs, WaitingIn(scope))| < QueueLimit(c.policy, scope))
  {
  }

  lemma QueueStep(c: Config, s: System, e: Event, scope: QueueScope)
    requires Inv(c, s) && Enabled(c, s, e) && QueueLimit(c.policy, scope) > 0
    ensures
      var before, after := |Members(s.jobs, WaitingIn(scope))|, |Members(Apply(c, s, e).jobs, WaitingIn(scope))|;
      if IsReleaseInto(c, s, e, scope) then after == before + 1
      else after <= before || after <= QueueLimit(c.policy, scope)
  {
    var w := WriteOf(c, s, e);
    if w.Some? {
      WriteKeepsRows(c, s, e);
      MembersPut(s.jobs, w.value.0, w.value.1, WaitingIn(scope));
      if WaitingIn(scope)(w.value.1) {
        WaitingBegins(c, s, e, scope);
      }
    }
  }

  /** Exactly when a step takes the queue of the server, of a user or of a project over its
      positive limit: it is a release into a full queue. */
  lemma OverfillsExactly(c: Config, s: System, e: Event, scope: QueueScope)
    requires Inv(c, s) && Enabled(c, s, e)
    requires 0 < QueueLimit(c.policy, scope) && |Members(s.jobs, WaitingIn(scope))| <= QueueLimit(c.policy, scope)
    ensures |Members(Apply(c, s, e).jobs, WaitingIn(scope))| > QueueLimit(c.policy, scope) <==>
              IsReleaseInto(c, s, e, scope) && |Members(s.jobs, WaitingIn(scope))| == QueueLimit(c.policy, scope)
  {
    QueueStep(c, s, e, scope);
  }

  ghost function ReleasesInto(c: Config, es: seq<Event>, scope: QueueScope): nat {
    Tally(c, es, (s, e) => IsReleaseInto(c, s, e, scope))
  }

  /** Over every run a queue exceeds its positive limit by no more than the number of
      releases into it; so a run without any stays within all positive limits. */
  lemma {:induction false} QueueExceedsByReleases(c: Config, es: seq<Event>, scope: QueueScope)
    requires IsRun(c, es) && QueueLimit(c.policy, scope) > 0
    ensures |Members(After(c, es).jobs, WaitingIn(scope))| <= QueueLimit(c.policy, scope) + ReleasesInto(c, es, scope)
  {
    if es == [] {
      assert Members(After(c, es).jobs, WaitingIn(scope)) == {};
    } else {
      var n := |es| - 1;
      PrefixIsRun(c, es, n);
      QueueExceedsByReleases(c, es[..n], scope);
      RunKeepsInv(c, es[..n]);
      QueueStep(c, After(c, es[..n]), es[n], scope);
    }
  }

  lemma OverfilledQueue(c: Config, a: Submission, b: Submission) returns (s: System)
    requires c.policy == Policy(1, 0, 0, 0, 0, 1, 1)
    requires a.id != b.id && a.runId != b.runId
    ensures Reachable(c, s) && |Members(s.jobs, PendingJobs())| == 2
  {
    ReachStart(c);
    AdmitIntoRoom(c, Start, a);
    ReachStep(c, Start, Admit(a, true));
    s := Apply(c, Start, Admit(a, true));
    ClaimTheOnly(c, s, a);
    ReachStep(c, s, Claim("w", Some(a.id), {}, 0));
    s := Apply(c, s, Claim("w", Some(a.id), {}, 0));
    AdmitIntoRoom(c, s, b);
    ReachStep(c, s, Admit(b, true));
    s := Apply(c, s, Admit(b, true));
    ReleaseTheOther(c, s, a, b);
    ReachStep(c, s, Release("w", 1));
    s := Apply(c, s, Release("w", 1));
  }

  lemma ReleaseTheOther(c: Config, s: System, a: Submission, b: Submission)
    requires a.id != b.id
    requires s.jobs == map[a.id := Granted(NewJob(a), "w", 0, c.lease), b.id := NewJob(b)]
    requires s.views == map["w" := Executing(a.id, false)]
    ensures Enabled(c, s, Release("w", 1))
    ensures |Members(Apply(c, s, Release("w", 1)).jobs, PendingJobs())| == 2
  {
    assert Members(Apply(c, s, Release("w", 1)).jobs, PendingJobs()) == {a.id, b.id};
  }

  lemma AdmitIntoRoom(c: Config, s: System, sub: Submission)
    requires c.policy == Policy(1, 0, 0, 0, 0, 1, 1)
    requires Members(s.jobs, PendingJobs()) == {}
    requires sub.id !in s.jobs && !RunIsKnown(s.jobs, sub.runId)
    ensures Apply(c, s, Admit(sub, true)) == System(s.jobs[sub.id := NewJob(sub)], s.rates, s.views)
  {
    assert Charged(s.rates, RateChecks(sub, c.policy), 1, sub.createdAt) == Some(s.rates);
  }

  lemma ClaimTheOnly(c: Config, s: System, sub: Submission)
    requires c.policy == Policy(1, 0, 0, 0, 0, 1, 1)
    requires s.jobs == map[sub.id := NewJob(sub)] && s.views == map[]
    ensures
      var e := Claim("w", Some(sub.id), {}, 0);
      && Enabled(c, s, e)
      && Apply(c, s, e) == System(map[sub.id := Granted(NewJob(sub), "w", 0, c.lease)], s.rates,
                                  map["w" := Executing(sub.id, false)])
  {
    assert Members(s.jobs, ActiveOfUser(sub.userId)) == {};
    assert Members(s.jobs, ActiveOfProject(sub.projectId)) == {};
  }

  // ---- Admission rate ------------------------------------------------------------------

  function SubjectOf(sub: Submission, scope: Scope): Id {
    if scope == UserRate then sub.userId else sub.projectId
  }

  function RateLimit(p: Policy, scope: Scope): int {
    if scope == UserRate then p.submissionsPerMinuteUser else p.submissionsPerMinuteProject
  }

  /** The creation times of the new jobs admitted for one user or one project. */
  ghost function AdmissionTimes(c: Config, es: seq<Event>, scope: Scope, subject: Id): seq<Time> {
    if es == [] then []
    else
      var n := |es| - 1;
      AdmissionTimes(c, es[..n], scope, subject)
      + if Counted(c, After(c, es[..n]), es[n], scope, subject) then [es[n].sub.createdAt] else []
  }

  ghost predicate CreatedInOrder(es: seq<Event>) {
    forall i, j :: 0 <= i < j < |es| && es[i].Admit? && es[j].Admit? ==> es[i].sub.createdAt <= es[j].sub.createdAt
  }

  /** Both windows a new job is charged to, and no other, record one more hit. */
  lemma ChargedWindows(rates: Rates, sub: Submission, policy: Policy, scope: Scope, subject: Id)
    requires Charged(rates, RateChecks(sub, policy), 2, sub.createdAt).Some?
    requires RateLimit(policy, scope) > 0
    ensures
      var after := Charged(rates, RateChecks(sub, policy), 2, sub.createdAt).value;
      var key := (scope, subject);
      if SubjectOf(sub, scope) == subject then
        var (w, ok) := Hit(Lookup(rates, key), sub.createdAt, MINUTE, RateLimit(policy, scope));
        ok && Lookup(after, key) == Some(w)
      else
        Lookup(after, key) == Lookup(rates, key)
  {
    var checks := RateChecks(sub, policy);
    assert Charged(rates, checks, 0, sub.createdAt) == Some(rates);
    assert Charged(rates, checks, 1, sub.createdAt).Some?;
  }

  ghost predicate Counted(c: Config, s: System, e: Event, scope: Scope, subject: Id) {
    e.Admit? && WriteOf(c, s, e).Some? && SubjectOf(e.sub, scope) == subject
  }

  /** The window of one subject moves only when a new job of that subject is admitted. */
  lemma WindowAfter(c: Config, s: System, e: Event, scope: Scope, subject: Id)
    requires RateLimit(c.policy, scope) > 0
    ensures
      var w, after := Lookup(s.rates, (scope, subject)), Lookup(Apply(c, s, e).rates, (scope, subject));
      if Counted(c, s, e, scope, subject) then
        var (hit, ok) := Hit(w, e.sub.createdAt, MINUTE, RateLimit(c.policy, scope));
        ok && after == Some(hit)
      else after == w
  {
    if e.Admit? && WriteOf(c, s, e).Some? {
      ChargedWindows(s.rates, e.sub, c.policy, scope, subject);
    }
  }

  lemma AdmissionStep(c: Config, s: System, e: Event, scope: Scope, subject: Id, times: seq<Time>)
    requires RateLimit(c.policy, scope) > 0
    requires Tracks(Lookup(s.rates, (scope, subject)), times, MINUTE, RateLimit(c.policy, scope))
    requires times != [] && e.Admit? ==> times[|times| - 1] <= e.sub.createdAt
    ensures Tracks(Lookup(Apply(c, s, e).rates, (scope, subject)),
                   if Counted(c, s, e, scope, subject) then times + [e.sub.createdAt] else times,
                   MINUTE, RateLimit(c.policy, scope))
  {
    WindowAfter(c, s, e, scope, subject);
    if Counted(c, s, e, scope, subject) {
      TracksHit(Lookup(s.rates, (scope, subject)), times, e.sub.createdAt, MINUTE, RateLimit(c.policy, scope));
    }
  }

  lemma {:induction false} LastAdmission(c: Config, es: seq<Event>, scope: Scope, subject: Id)
    requires AdmissionTimes(c, es, scope, subject) != []
    ensures
      var times := AdmissionTimes(c, es, scope, subject);
      exists i :: 0 <= i < |es| && es[i].Admit? && es[i].sub.createdAt == times[|times| - 1]
  {
    var n := |es| - 1;
    if Counted(c, After(c, es[..n]), es[n], scope, subject) {
    } else {
      assert AdmissionTimes(c, es, scope, subject) == AdmissionTimes(c, es[..n], scope, subject);
      LastAdmission(c, es[..n], scope, subject);
    }
  }

  lemma {:induction false} AdmissionsTrack(c: Config, es: seq<Event>, scope: Scope, subject: Id)
    requires RateLimit(c.policy, scope) > 0
    requires CreatedInOrder(es)
    ensures Tracks(Lookup(After(c, es).rates, (scope, subject)), AdmissionTimes(c, es, scope, subject),
                   MINUTE, RateLimit(c.policy, scope))
  {
    if es != [] {
      var n := |es| - 1;
      AdmissionsTrack(c, es[..n], scope, subject);
      var times := AdmissionTimes(c, es[..n], scope, subject);
      if times != [] {
        LastAdmission(c, es[..n], scope, subject);
      }
      AdmissionStep(c, After(c, es[..n]), es[n], scope, subject, times);
      assert times + [] == times;
    }
  }

  /** With creation times in order, no minute-long interval holds more than twice the
      per-minute limit of new jobs for a user or for a project. Refused and repeated
      submissions do not appear in AdmissionTimes and charge no window. */
  lemma AdmissionRate(c: Config, es: seq<Event>, scope: Scope, subject: Id, lo: Time, hi: Time)
    requires RateLimit(c.policy, scope) > 0
    requires CreatedInOrder(es)
    requires hi - lo <= MINUTE
    ensures CountIn(AdmissionTimes(c, es, scope, subject), lo, hi) <= 2 * RateLimit(c.policy, scope)
  {
    AdmissionsTrack(c, es, scope, subject);
  }
}
