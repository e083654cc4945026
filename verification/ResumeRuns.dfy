/** All the ways a scenario run can be cut off and taken up again, as a state machine over
    the stored rows and the attempt in progress (runner-v2/pkg/api/workflow_bundle.go,
    runner-v2/pkg/api/session_failover.go). Attempts follow one another; saving a result or
    a checkpoint may fail silently, as their errors are dropped. */
module ResumeRuns {
  import opened Basics
  import opened Resume

  datatype Phase = Created | Working | CleaningUp | CleanupFailed | Ended

  /** Testing: results loaded, tests being run. Closing: the summary is made and the
      environment is being cleaned up. */
  datatype Attempt =
    | Idle
    | Testing(loaded: Stored, remaining: seq<string>, latest: seq<Result>, cancelled: bool, startIndex: nat)
    | Closing

  datatype State = State(rows: Stored, index: nat, phase: Phase, attempt: Attempt)

  datatype Event =
    | Begin
    | Execute(result: Result, saved: bool, marked: bool)
    | Interrupt
    | Summarize(marked: bool)
    | CleanUp(ok: bool, marked: bool)
    | Restore
    | Crash
    | Abort(phase: Phase, rewound: bool)

  const Start: State := State(map[], 0, Created, Idle)

  /** A recovered session that had only its cleanup left. */
  predicate OnlyCleanupLeft(plan: seq<string>, s: State) {
    (s.phase == CleaningUp || s.phase == CleanupFailed) && s.index >= |plan|
  }

  predicate Enabled(plan: seq<string>, s: State, e: Event) {
    match e
    case Begin => s.attempt.Idle? && !OnlyCleanupLeft(plan, s)
    case Execute(r, _, _) =>
      s.attempt.Testing? && |s.attempt.latest| < |s.attempt.remaining|
      && r.name == s.attempt.remaining[|s.attempt.latest|]
    case Interrupt => s.attempt.Testing?
    case Summarize(_) =>
      s.attempt.Testing? && |s.attempt.latest| == |s.attempt.remaining| && !s.attempt.cancelled
    case CleanUp(_, _) => s.attempt.Closing?
    case Restore => s.attempt.Idle? && OnlyCleanupLeft(plan, s)
    case Crash => true
    case Abort(phase, _) => phase != CleaningUp
  }

  function PositionIn(plan: seq<string>, t: string): (i: nat)
    ensures i <= |plan|
    ensures t in plan ==> i < |plan| && plan[i] == t
  {
    if plan == [] then 0
    else if plan[|plan| - 1] == t then |plan| - 1
    else
      var i := PositionIn(plan[..|plan| - 1], t);
      if i == |plan| - 1 then |plan| else i
  }

  function Apply(plan: seq<string>, s: State, e: Event): State {
    match e
    case Begin =>
      s.(phase := Working, attempt := Testing(s.rows, Missing(plan, s.rows), [], false, s.index))
    case Execute(r, saved, marked) =>
      if !s.attempt.Testing? then s
      else
        var next := s.(attempt := s.attempt.(latest := s.attempt.latest + [r]));
        if s.attempt.cancelled then next
        else next.(rows := if saved then s.rows[r.name := r] else s.rows,
                   index := if marked then PositionIn(plan, r.name) + 1 else s.index)
    case Interrupt =>
      if s.attempt.Testing? then s.(attempt := s.attempt.(cancelled := true)) else s
    case Summarize(marked) =>
      s.(attempt := Closing, index := if marked then |plan| else s.index, phase := if marked then CleaningUp else s.phase)
    case CleanUp(ok, marked) =>
      if !marked then s.(attempt := Idle)
      else s.(attempt := Idle, index := |plan|, phase := if ok then Ended else CleanupFailed)
    case Restore => s.(index := |plan|, phase := Ended)
    case Crash => s.(attempt := Idle)
    case Abort(phase, rewound) =>
      s.(attempt := Idle, phase := phase,
         index := if rewound && s.attempt.Testing? then s.attempt.startIndex else s.index)
  }

  function After(plan: seq<string>, es: seq<Event>): State {
    if es == [] then Start else Apply(plan, After(plan, es[..|es| - 1]), es[|es| - 1])
  }

  ghost predicate IsRun(plan: seq<string>, es: seq<Event>) {
    forall i :: 0 <= i < |es| ==> Enabled(plan, After(plan, es[..i]), es[i])
  }

  lemma AfterStep(plan: seq<string>, es: seq<Event>, n: nat)
    requires n < |es|
    ensures After(plan, es[..n + 1]) == Apply(plan, After(plan, es[..n]), es[n])
  {
    assert es[..n + 1][..n] == es[..n];
  }

  lemma PrefixIsRun(plan: seq<string>, es: seq<Event>, n: nat)
    requires IsRun(plan, es) && n <= |es|
    ensures IsRun(plan, es[..n])
  {
    forall i | 0 <= i < n
      ensures Enabled(plan, After(plan, es[..n][..i]), es[..n][i])
    {
      assert es[..n][..i] == es[..i];
    }
  }

  // ---- Invariants --------------------------------------------------------------------------

  /** An attempt has run a prefix of the tests that had no row when it began; the rest of
      them still have none. */
  ghost predicate AttemptOk(plan: seq<string>, rows: Stored, a: Attempt) {
    a.Testing? ==>
      && a.remaining == Missing(plan, a.loaded)
      && |a.latest| <= |a.remaining|
      && (forall i :: 0 <= i < |a.latest| ==> a.latest[i].name == a.remaining[i])
      && (forall i :: |a.latest| <= i < |a.remaining| ==> a.remaining[i] !in rows)
      && (forall t :: t in a.loaded ==> t in rows && rows[t] == a.loaded[t])
  }

  ghost predicate Inv(plan: seq<string>, s: State) {
    && Labelled(s.rows)
    && AttemptOk(plan, s.rows, s.attempt)
  }

  lemma StepKeepsInv(plan: seq<string>, s: State, e: Event)
    requires Unique(plan)
    requires Inv(plan, s) && Enabled(plan, s, e)
    ensures Inv(plan, Apply(plan, s, e))
    ensures forall t :: t in s.rows ==> t in Apply(plan, s, e).rows && Apply(plan, s, e).rows[t] == s.rows[t]
  {
    if e.Begin? {
      MissingIsMissing(plan, s.rows);
    } else if e.Execute? {
      MissingIsMissing(plan, s.attempt.loaded);
      assert e.result.name !in s.rows;
    }
  }

  lemma {:induction false} RunKeepsInv(plan: seq<string>, es: seq<Event>)
    requires Unique(plan) && IsRun(plan, es)
    ensures Inv(plan, After(plan, es))
  {
    if es != [] {
      var n := |es| - 1;
      PrefixIsRun(plan, es, n);
      RunKeepsInv(plan, es[..n]);
      StepKeepsInv(plan, After(plan, es[..n]), es[n]);
    }
  }

  lemma {:induction false} RowsStay(plan: seq<string>, es: seq<Event>, m: nat, n: nat, t: string)
    requires Unique(plan) && IsRun(plan, es) && m <= n <= |es|
    requires t in After(plan, es[..m]).rows
    ensures t in After(plan, es[..n]).rows && After(plan, es[..n]).rows[t] == After(plan, es[..m]).rows[t]
    decreases n
  {
    if m < n {
      RowsStay(plan, es, m, n - 1, t);
      PrefixIsRun(plan, es, n - 1);
      RunKeepsInv(plan, es[..n - 1]);
      AfterStep(plan, es, n - 1);
      StepKeepsInv(plan, After(plan, es[..n - 1]), es[n - 1]);
    }
  }

  /** Across any number of interruptions, a test with a stored result is never executed
      again, and the stored result never changes. */
  lemma StoredIsNeverRerun(plan: seq<string>, es: seq<Event>, m: nat, n: nat, t: string)
    requires Unique(plan) && IsRun(plan, es) && m <= n < |es|
    requires t in After(plan, es[..m]).rows
    ensures es[n].Execute? ==> es[n].result.name != t
    ensures t in After(plan, es).rows && After(plan, es).rows[t] == After(plan, es[..m]).rows[t]
  {
    RowsStay(plan, es, m, n, t);
    PrefixIsRun(plan, es, n);
    RunKeepsInv(plan, es[..n]);
    assert es[..|es|] == es;
    RowsStay(plan, es, m, |es|, t);
  }

  // ---- Reports -------------------------------------------------------------------------------

  /** What an attempt that reaches the summary reports. */
  function Report(plan: seq<string>, a: Attempt): seq<Result>
    requires a.Testing?
  {
    Ordered(plan, ByName(Ordered(plan, a.loaded) + a.latest))
  }

  lemma OrderedNamesDiffer(plan: seq<string>, byName: Stored)
    requires Unique(plan) && Labelled(byName)
    ensures DistinctNames(Ordered(plan, byName))
  {
    if plan != [] {
      var n := |plan| - 1;
      assert plan == plan[..n] + [plan[n]];
      OrderedNamesDiffer(plan[..n], byName);
      OrderedIsStored(plan[..n], byName);
      var front := Ordered(plan[..n], byName);
      forall i | 0 <= i < |front|
        ensures front[i].name != plan[n]
      {
        assert front[i] in front;
      }
    }
  }

  lemma MergedNamesDiffer(plan: seq<string>, s: State)
    requires Unique(plan) && Inv(plan, s) && s.attempt.Testing?
    ensures DistinctNames(Ordered(plan, s.attempt.loaded) + s.attempt.latest)
  {
    var a := s.attempt;
    var earlier := Ordered(plan, a.loaded);
    OrderedNamesDiffer(plan, a.loaded);
    OrderedIsStored(plan, a.loaded);
    MissingIsMissing(plan, a.loaded);
    forall i, j | 0 <= i < |earlier| && 0 <= j < |a.latest|
      ensures earlier[i].name != a.latest[j].name
    {
      assert earlier[i] in earlier;
      assert a.remaining[j] in a.remaining;
    }
  }

  /** A run that reaches the summary reports exactly one result per planned test, in plan
      order: the stored one where there was one, otherwise the one just observed; and
      passed plus failed is the total. */
  lemma SummaryIsComplete(plan: seq<string>, es: seq<Event>)
    requires Unique(plan) && IsRun(plan, es)
    requires After(plan, es).attempt.Testing? && Enabled(plan, After(plan, es), Summarize(true))
    ensures
      var a := After(plan, es).attempt;
      var report := Report(plan, a);
      var summary := Summarized(report, |plan|);
      && Covers(plan, report)
      && summary.passed + summary.failed == summary.total == |plan|
      && summary.passed == |Where(report, Passing())| && summary.failed == |Where(report, Failing())|
      && summary.retried == |Where(report, Retried())|
      && (forall i :: 0 <= i < |plan| && plan[i] in a.loaded ==> report[i] == a.loaded[plan[i]])
      && (forall i :: 0 <= i < |plan| && plan[i] !in a.loaded ==> report[i] in a.latest)
  {
    RunKeepsInv(plan, es);
    var s := After(plan, es);
    var byName := ByName(Ordered(plan, s.attempt.loaded) + s.attempt.latest);
    forall t | t in plan
      ensures MergedAs(s.attempt, byName, t)
    {
      MergedLookup(plan, s, t);
    }
    MergedIsLabelled(plan, s);
    OrderedCovers(plan, byName);
    SummaryAddsUp(Report(plan, s.attempt), |plan|);
    SummaryCounts(Report(plan, s.attempt), |plan|);
    forall i | 0 <= i < |plan|
      ensures MergedAs(s.attempt, byName, plan[i])
    {
      assert plan[i] in plan;
    }
  }

  /** The merged result of `t` is the stored one, or else the one just observed. */
  ghost predicate MergedAs(a: Attempt, byName: Stored, t: string)
    requires a.Testing?
  {
    && t in byName
    && (t in a.loaded ==> byName[t] == a.loaded[t])
    && (t !in a.loaded ==> byName[t] in a.latest)
  }

  lemma MergedIsLabelled(plan: seq<string>, s: State)
    requires Unique(plan) && Inv(plan, s) && s.attempt.Testing?
    ensures Labelled(ByName(Ordered(plan, s.attempt.loaded) + s.attempt.latest))
  {
    MergedNamesDiffer(plan, s);
    ByNameHolds(Ordered(plan, s.attempt.loaded) + s.attempt.latest, Result("", false, 0));
  }

  lemma MergedLookup(plan: seq<string>, s: State, t: string)
    requires Unique(plan) && Inv(plan, s) && s.attempt.Testing?
    requires |s.attempt.latest| == |s.attempt.remaining| && t in plan
    ensures MergedAs(s.attempt, ByName(Ordered(plan, s.attempt.loaded) + s.attempt.latest), t)
  {
    var a := s.attempt;
    var all := Ordered(plan, a.loaded) + a.latest;
    MergedNamesDiffer(plan, s);
    if t in a.loaded {
      OrderedIsStored(plan, a.loaded);
      ByNameHolds(all, a.loaded[t]);
    } else {
      MissingIsMissing(plan, a.loaded);
      var i :| 0 <= i < |a.remaining| && a.remaining[i] == t;
      assert a.latest[i] in all;
      ByNameHolds(all, a.latest[i]);
    }
  }

  /** The report of a recovery that finds only the cleanup left is read from the rows. It is
      complete exactly when every planned test has a row. */
  lemma RestoredReportExactly(plan: seq<string>, es: seq<Event>)
    requires Unique(plan) && IsRun(plan, es + [Restore])
    ensures
      var rows := After(plan, es).rows;
      var report := Ordered(plan, rows);
      var summary := Summarized(report, |plan|);
      && (Covers(plan, report) <==> forall t :: t in plan ==> t in rows)
      && (summary.passed + summary.failed == summary.total <==> forall t :: t in plan ==> t in rows)
  {
    assert (es + [Restore])[..|es|] == es;
    PrefixIsRun(plan, es + [Restore], |es|);
    RunKeepsInv(plan, es);
    OrderedCovers(plan, After(plan, es).rows);
    SummaryAddsUp(Ordered(plan, After(plan, es).rows), |plan|);
  }

  /** Step n executes a test in an attempt that has not been interrupted, so that its result
      is to be saved. */
  ghost predicate Executes(plan: seq<string>, es: seq<Event>, n: nat)
    requires n < |es|
  {
    && es[n].Execute?
    && After(plan, es[..n]).attempt.Testing? && !After(plan, es[..n]).attempt.cancelled
  }

  /** ... and no later step does so with the same test. */
  ghost predicate ExecutesLast(plan: seq<string>, es: seq<Event>, n: nat)
    requires n < |es|
  {
    && Executes(plan, es, n)
    && forall k {:trigger es[k]} :: n < k < |es| && Executes(plan, es, k) ==> es[k].result.name != es[n].result.name
  }

  /** What one step does to the rows. */
  lemma RowsAfter(plan: seq<string>, es: seq<Event>, n: nat)
    requires n < |es|
    ensures After(plan, es[..n + 1]).rows ==
            if Executes(plan, es, n) && es[n].saved
            then After(plan, es[..n]).rows[es[n].result.name := es[n].result] else After(plan, es[..n]).rows
  {
    AfterStep(plan, es, n);
  }

  lemma InvAt(plan: seq<string>, es: seq<Event>, n: nat)
    requires Unique(plan) && IsRun(plan, es) && n <= |es|
    ensures Inv(plan, After(plan, es[..n]))
  {
    PrefixIsRun(plan, es, n);
    RunKeepsInv(plan, es[..n]);
  }

  /** A test that is executed is planned and has no row yet. */
  lemma ExecutedHasNoRow(plan: seq<string>, es: seq<Event>, n: nat)
    requires Unique(plan) && IsRun(plan, es) && n < |es| && es[n].Execute?
    ensures es[n].result.name in plan && es[n].result.name !in After(plan, es[..n]).rows
  {
    InvAt(plan, es, n);
    var s := After(plan, es[..n]);
    assert Enabled(plan, s, es[n]);
    MissingIsMissing(plan, s.attempt.loaded);
    assert s.attempt.remaining[|s.attempt.latest|] in s.attempt.remaining;
  }

  lemma {:induction false} NameStaysOut(plan: seq<string>, es: seq<Event>, m: nat, n: nat, t: string)
    requires m <= n <= |es| && t !in After(plan, es[..m]).rows
    requires forall k {:trigger es[k]} :: m <= k < n && Executes(plan, es, k) && es[k].saved ==> es[k].result.name != t
    ensures t !in After(plan, es[..n]).rows
    decreases n
  {
    if m < n {
      NameStaysOut(plan, es, m, n - 1, t);
      RowsAfter(plan, es, n - 1);
    }
  }

  /** Every stored result was saved by the last execution of its test. */
  lemma {:induction false} StoredCameFrom(plan: seq<string>, es: seq<Event>, n: nat, t: string) returns (k: nat)
    requires n <= |es| && t in After(plan, es[..n]).rows
    ensures k < n && Executes(plan, es, k) && es[k].saved
    ensures es[k].result.name == t && es[k].result == After(plan, es[..n]).rows[t]
    decreases n
  {
    RowsAfter(plan, es, n - 1);
    if Executes(plan, es, n - 1) && es[n - 1].saved && es[n - 1].result.name == t {
      k := n - 1;
    } else {
      k := StoredCameFrom(plan, es, n - 1, t);
    }
  }

  /** A report read from the rows shows the result of a test's last execution exactly when
      that result was saved. */
  lemma RestoredShowsExactlySaved(plan: seq<string>, es: seq<Event>, n: nat)
    requires Unique(plan) && IsRun(plan, es) && n < |es|
    requires ExecutesLast(plan, es, n)
    ensures es[n].result in Ordered(plan, After(plan, es).rows) <==> es[n].saved
  {
    RunKeepsInv(plan, es);
    if es[n].saved {
      SavedStays(plan, es, n);
    } else {
      LostStaysOut(plan, es, n);
    }
    ShownExactly(plan, After(plan, es).rows, es[n].result);
  }

  lemma ShownExactly(plan: seq<string>, rows: Stored, r: Result)
    requires Labelled(rows)
    ensures r in Ordered(plan, rows) <==> r.name in plan && r.name in rows && rows[r.name] == r
  {
    OrderedIsStored(plan, rows);
  }

  lemma LostStaysOut(plan: seq<string>, es: seq<Event>, n: nat)
    requires Unique(plan) && IsRun(plan, es) && n < |es|
    requires ExecutesLast(plan, es, n) && !es[n].saved
    ensures es[n].result.name !in After(plan, es).rows
  {
    assert es[..|es|] == es;
    ExecutedHasNoRow(plan, es, n);
    RowsAfter(plan, es, n);
    NameStaysOut(plan, es, n + 1, |es|, es[n].result.name);
  }

  lemma SavedIsLast(plan: seq<string>, es: seq<Event>, n: nat)
    requires Unique(plan) && IsRun(plan, es) && n < |es|
    requires Executes(plan, es, n) && es[n].saved
    ensures ExecutesLast(plan, es, n)
  {
    RowsAfter(plan, es, n);
    forall k {:trigger es[k]} | n < k < |es| && Executes(plan, es, k)
      ensures es[k].result.name != es[n].result.name
    {
      StoredIsNeverRerun(plan, es, n + 1, k, es[n].result.name);
    }
  }

  ghost predicate Interrupted(s: State) {
    s.attempt.Testing? && s.attempt.cancelled
  }

  /** Once an attempt is interrupted, nothing it does stores a row or reaches the summary; it
      can only stop. */
  lemma InterruptedIsInert(plan: seq<string>, es: seq<Event>, m: nat, n: nat)
    requires IsRun(plan, es) && m < n <= |es| && es[m].Interrupt?
    requires forall k :: m < k < n ==> !es[k].Crash? && !es[k].Abort?
    ensures After(plan, es[..n]).rows == After(plan, es[..m]).rows && Interrupted(After(plan, es[..n]))
  {
    AfterStep(plan, es, m);
    assert Enabled(plan, After(plan, es[..m]), es[m]);
    InertFrom(plan, es, m + 1, n);
  }

  lemma {:induction false} InertFrom(plan: seq<string>, es: seq<Event>, m: nat, n: nat)
    requires IsRun(plan, es) && m <= n <= |es| && Interrupted(After(plan, es[..m]))
    requires forall k :: m <= k < n ==> !es[k].Crash? && !es[k].Abort?
    ensures After(plan, es[..n]).rows == After(plan, es[..m]).rows && Interrupted(After(plan, es[..n]))
    decreases n - m
  {
    if m < n {
      InertStepAt(plan, es, m);
      InertFrom(plan, es, m + 1, n);
    }
  }

  lemma InertStepAt(plan: seq<string>, es: seq<Event>, m: nat)
    requires IsRun(plan, es) && m < |es| && Interrupted(After(plan, es[..m])) && !es[m].Crash? && !es[m].Abort?
    ensures After(plan, es[..m + 1]).rows == After(plan, es[..m]).rows && Interrupted(After(plan, es[..m + 1]))
  {
    AfterStep(plan, es, m);
    assert Enabled(plan, After(plan, es[..m]), es[m]);
    InertStep(plan, After(plan, es[..m]), es[m]);
  }

  lemma InertStep(plan: seq<string>, s: State, e: Event)
    requires Enabled(plan, s, e) && !e.Crash? && !e.Abort? && Interrupted(s)
    ensures Apply(plan, s, e).rows == s.rows && Interrupted(Apply(plan, s, e))
  {
  }

  /** A recorded summary is not lost: if the process stops before the cleanup is recorded, no
      attempt runs any test again, and the next one restores the report. */
  lemma SummaryIsTakenUp(plan: seq<string>, s: State, e: Event)
    requires Enabled(plan, s, Summarize(true)) && e in [Crash, CleanUp(false, true)]
    ensures
      var t := Apply(plan, Apply(plan, s, Summarize(true)), e);
      && Enabled(plan, Apply(plan, s, Summarize(true)), e)
      && !Enabled(plan, t, Begin) && Enabled(plan, t, Restore)
      && t.rows == s.rows
  {
  }

  /** Where the checkpoint stands: right after the executed test, if its mark was saved in an
      attempt that was not interrupted, and where it was otherwise; and a cleanup whose mark is
      saved ends the run, unless it failed, which leaves it to be taken up. */
  lemma CheckpointExactly(plan: seq<string>, es: seq<Event>, n: nat)
    requires Unique(plan) && IsRun(plan, es) && n < |es|
    ensures Executes(plan, es, n) && es[n].marked ==>
              exists i :: 0 <= i < |plan| && plan[i] == es[n].result.name && After(plan, es[..n + 1]).index == i + 1
    ensures es[n].Execute? && !(Executes(plan, es, n) && es[n].marked) ==>
              After(plan, es[..n + 1]).index == After(plan, es[..n]).index
    ensures es[n].CleanUp? && es[n].marked ==>
              && After(plan, es[..n + 1]).phase == (if es[n].ok then Ended else CleanupFailed)
              && (OnlyCleanupLeft(plan, After(plan, es[..n + 1])) <==> !es[n].ok)
  {
    AfterStep(plan, es, n);
    if es[n].Execute? {
      ExecutedHasNoRow(plan, es, n);
    }
  }

  /** A restored report ends the run: there is nothing left to restore, and should a further
      attempt begin, it runs only tests without a row. */
  lemma RestoreEndsIt(plan: seq<string>, s: State)
    requires Unique(plan) && Enabled(plan, s, Restore)
    ensures
      var t := Apply(plan, s, Restore);
      && t.phase == Ended && t.rows == s.rows && !Enabled(plan, t, Restore)
      && forall x :: x in Apply(plan, t, Begin).attempt.remaining <==> x in plan && x !in s.rows
  {
    MissingIsMissing(plan, s.rows);
  }

  /** An attempt that begins has exactly the tests without a row before it, in plan order, and
      can run each of them in turn. */
  lemma AttemptCanGoOn(plan: seq<string>, es: seq<Event>, passed: bool, attempts: nat)
    requires IsRun(plan, es) && After(plan, es).attempt.Testing?
    ensures
      var a := After(plan, es).attempt;
      if |a.latest| < |a.remaining| then
        Enabled(plan, After(plan, es), Execute(Result(a.remaining[|a.latest|], passed, attempts), true, true))
      else |a.latest| == |a.remaining| && !a.cancelled ==> Enabled(plan, After(plan, es), Summarize(true))
  {
  }

  /** A report read from the rows has no failures exactly when every stored result of a
      planned test passed. */
  lemma RestoredSuccessExactly(plan: seq<string>, rows: Stored)
    ensures Summarized(Ordered(plan, rows), |plan|).failed == 0 <==> forall t :: t in plan && t in rows ==> rows[t].passed
  {
    var report := Ordered(plan, rows);
    OrderedIsStored(plan, rows);
    NoFailuresExactly(report, |plan|);
    forall t | t in plan && t in rows
      ensures exists i :: 0 <= i < |report| && report[i] == rows[t]
    {
      assert rows[t] in report;
    }
    forall i | 0 <= i < |report|
      ensures exists t :: t in plan && t in rows && rows[t] == report[i]
    {
      assert report[i] in report;
    }
  }

  /** Exactly when a recovery that finds only the cleanup left reports success: when no test
      whose last execution failed had that result saved. */
  lemma RestoredHidesFailuresExactly(plan: seq<string>, es: seq<Event>)
    requires Unique(plan) && IsRun(plan, es + [Restore])
    ensures Summarized(Ordered(plan, After(plan, es).rows), |plan|).failed == 0 <==>
              forall n {:trigger es[n]} :: 0 <= n < |es| && ExecutesLast(plan, es, n) && !es[n].result.passed ==> !es[n].saved
  {
    assert (es + [Restore])[..|es|] == es;
    PrefixIsRun(plan, es + [Restore], |es|);
    var rows := After(plan, es).rows;
    RestoredSuccessExactly(plan, rows);
    forall n {:trigger es[n]} | 0 <= n < |es| && ExecutesLast(plan, es, n) && es[n].saved
      ensures es[n].result.name in plan && es[n].result.name in rows && rows[es[n].result.name] == es[n].result
    {
      SavedStays(plan, es, n);
    }
    forall t | t in plan && t in rows
      ensures exists n {:trigger es[n]} :: 0 <= n < |es| && ExecutesLast(plan, es, n) && es[n].saved && es[n].result == rows[t]
    {
      assert es[..|es|] == es;
      var k := StoredCameFrom(plan, es, |es|, t);
      SavedIsLast(plan, es, k);
    }
  }

  lemma SavedStays(plan: seq<string>, es: seq<Event>, n: nat)
    requires Unique(plan) && IsRun(plan, es) && n < |es| && Executes(plan, es, n) && es[n].saved
    ensures es[n].result.name in plan
    ensures es[n].result.name in After(plan, es).rows && After(plan, es).rows[es[n].result.name] == es[n].result
  {
    assert es[..|es|] == es;
    ExecutedHasNoRow(plan, es, n);
    RowsAfter(plan, es, n);
    RowsStay(plan, es, n + 1, |es|, es[n].result.name);
  }

  // ---- When nothing is lost -------------------------------------------------------------------

  /** Every result that an attempt tried to save was saved. */
  ghost predicate NothingLost(es: seq<Event>) {
    forall i :: 0 <= i < |es| && es[i].Execute? ==> es[i].saved
  }

  /** Every test before the checkpoint has a row, and so does every test an uninterrupted
      attempt has run. */
  ghost predicate Checkpointed(plan: seq<string>, s: State) {
    && s.index <= |plan|
    && (forall i :: 0 <= i < s.index ==> plan[i] in s.rows)
    && (s.attempt.Testing? ==>
          && s.attempt.startIndex <= |plan|
          && (forall i :: 0 <= i < s.attempt.startIndex ==> plan[i] in s.rows)
          && (!s.attempt.cancelled ==> forall i :: 0 <= i < |s.attempt.latest| ==> s.attempt.latest[i].name in s.rows))
    && (s.attempt.Closing? ==> forall t :: t in plan ==> t in s.rows)
  }

  /** The tests left to run come in plan order: what precedes the j-th of them in the plan
      was already stored or comes before it in the list. */
  lemma {:induction false} MissingKeepsOrder(plan: seq<string>, byName: Stored, j: nat, q: nat)
    requires Unique(plan) && j < |Missing(plan, byName)|
    requires q < |plan| && plan[q] !in byName && q < PositionIn(plan, Missing(plan, byName)[j])
    ensures exists i :: 0 <= i < j && Missing(plan, byName)[i] == plan[q]
  {
    var n := |plan| - 1;
    var front := Missing(plan[..n], byName);
    assert plan == plan[..n] + [plan[n]];
    MissingIsMissing(plan[..n], byName);
    if j < |front| {
      assert front[j] in plan[..n];
      MissingKeepsOrder(plan[..n], byName, j, q);
      var i :| 0 <= i < j && front[i] == plan[..n][q];
      assert Missing(plan, byName)[i] == plan[q];
    } else {
      assert plan[q] in plan[..n];
      assert plan[q] in front;
      var i :| 0 <= i < |front| && front[i] == plan[q];
      assert Missing(plan, byName)[i] == plan[q];
    }
  }

  lemma ExecuteKeepsCheckpoint(plan: seq<string>, s: State, e: Event)
    requires Unique(plan) && Inv(plan, s) && Checkpointed(plan, s)
    requires Enabled(plan, s, e) && e.Execute? && e.saved && !s.attempt.cancelled
    ensures Checkpointed(plan, Apply(plan, s, e))
  {
    var a, t := s.attempt, e.result.name;
    var j := |a.latest|;
    MissingIsMissing(plan, a.loaded);
    assert a.remaining[j] in a.remaining;
    var p := PositionIn(plan, t);
    forall q | 0 <= q < p
      ensures plan[q] in s.rows
    {
      if plan[q] !in a.loaded {
        MissingKeepsOrder(plan, a.loaded, j, q);
        var i :| 0 <= i < j && a.remaining[i] == plan[q];
        assert a.latest[i].name in s.rows;
      }
    }
  }

  lemma StepKeepsCheckpoint(plan: seq<string>, s: State, e: Event)
    requires Unique(plan) && Inv(plan, s) && Checkpointed(plan, s)
    requires Enabled(plan, s, e) && (e.Execute? ==> e.saved)
    ensures Checkpointed(plan, Apply(plan, s, e))
  {
    if e.Execute? && !s.attempt.cancelled {
      ExecuteKeepsCheckpoint(plan, s, e);
    } else if e.Summarize? {
      MissingIsMissing(plan, s.attempt.loaded);
      forall t | t in plan
        ensures t in s.rows
      {
        if t !in s.attempt.loaded {
          var i :| 0 <= i < |s.attempt.remaining| && s.attempt.remaining[i] == t;
          assert s.attempt.latest[i].name in s.rows;
        }
      }
    }
  }

  lemma {:induction false} RunKeepsCheckpoint(plan: seq<string>, es: seq<Event>)
    requires Unique(plan) && IsRun(plan, es) && NothingLost(es)
    ensures Checkpointed(plan, After(plan, es))
  {
    if es != [] {
      var n := |es| - 1;
      PrefixIsRun(plan, es, n);
      RunKeepsInv(plan, es[..n]);
      RunKeepsCheckpoint(plan, es[..n]);
      StepKeepsCheckpoint(plan, After(plan, es[..n]), es[n]);
    }
  }

  /** As long as no save fails, a recovered report is complete too. */
  lemma RestoredIsComplete(plan: seq<string>, es: seq<Event>)
    requires Unique(plan) && IsRun(plan, es + [Restore]) && NothingLost(es)
    ensures
      var report := Ordered(plan, After(plan, es).rows);
      var summary := Summarized(report, |plan|);
      Covers(plan, report) && summary.passed + summary.failed == summary.total == |plan|
  {
    var all := es + [Restore];
    assert all[..|es|] == es;
    PrefixIsRun(plan, all, |es|);
    assert Enabled(plan, After(plan, all[..|es|]), all[|es|]);
    RunKeepsCheckpoint(plan, es);
    RestoredReportExactly(plan, es);
    SummaryAddsUp(Ordered(plan, After(plan, es).rows), |plan|);
    forall t | t in plan
      ensures t in After(plan, es).rows
    {
      var i :| 0 <= i < |plan| && plan[i] == t;
    }
  }

  /** Without that, a recovery can report success for a test that failed: the result was not
      saved, the checkpoint was, and the process stopped before the cleanup. */
  lemma LostResultHidesFailure()
    ensures exists plan: seq<string>, es: seq<Event> ::
              && Unique(plan) && IsRun(plan, es + [Restore])
              && (exists i :: 0 <= i < |es| && es[i].Execute? && !es[i].result.passed)
              && Summarized(Ordered(plan, After(plan, es).rows), |plan|).failed == 0
  {
    var plan := ["a"];
    var failing := Execute(Result("a", false, 1), false, true);
    var es := [Begin, failing, Summarize(true), Crash];
    LosingRun(plan, failing, es);
    assert es[1] == failing;
    assert Ordered(plan, map[]) == [] by { assert plan[..0] == []; }
  }

  lemma LosingRun(plan: seq<string>, failing: Event, es: seq<Event>)
    requires plan == ["a"] && failing == Execute(Result("a", false, 1), false, true)
    requires es == [Begin, failing, Summarize(true), Crash]
    ensures IsRun(plan, es + [Restore]) && After(plan, es).rows == map[]
  {
    LosingSteps(plan, failing);
    RunOfFive(plan, es + [Restore]);
    assert (es + [Restore])[..4] == es;
  }

  lemma LosingSteps(plan: seq<string>, failing: Event)
    requires plan == ["a"] && failing == Execute(Result("a", false, 1), false, true)
    ensures Apply(plan, Start, Begin) == State(map[], 0, Working, Testing(map[], ["a"], [], false, 0))
    ensures Apply(plan, Apply(plan, Start, Begin), failing)
            == State(map[], 1, Working, Testing(map[], ["a"], [failing.result], false, 0))
  {
    assert plan[..0] == [] && Missing(plan, map[]) == ["a"];
    assert [] + [failing.result] == [failing.result];
    assert PositionIn(plan, "a") == 0;
  }

  lemma RunOfFive(plan: seq<string>, es: seq<Event>)
    requires |es| == 5
    requires Enabled(plan, Start, es[0])
    requires Enabled(plan, Apply(plan, Start, es[0]), es[1])
    requires Enabled(plan, Apply(plan, Apply(plan, Start, es[0]), es[1]), es[2])
    requires Enabled(plan, Apply(plan, Apply(plan, Apply(plan, Start, es[0]), es[1]), es[2]), es[3])
    requires Enabled(plan, Apply(plan, Apply(plan, Apply(plan, Apply(plan, Start, es[0]), es[1]), es[2]), es[3]), es[4])
    ensures IsRun(plan, es)
    ensures After(plan, es[..4]) == Apply(plan, Apply(plan, Apply(plan, Apply(plan, Start, es[0]), es[1]), es[2]), es[3])
  {
    assert es[..0] == [];
    AfterStep(plan, es, 0);
    AfterStep(plan, es, 1);
    AfterStep(plan, es, 2);
    AfterStep(plan, es, 3);
  }
}
