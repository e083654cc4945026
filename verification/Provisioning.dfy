/** Provisioning a sorted set of services level by level
    (runner-v2/pkg/orchestrator/orchestrator.go). Within a level every service runs in
    its own goroutine; their steps interleave freely. */
module Provisioning {
  import opened Graphs
  import opened GraphSearch
  import opened DependencyGraphs

  /** Waiting: the goroutine has not passed its dependency waits. Provisioned services
      are registered before their ready channel closes. */
  datatype Phase = Waiting | Starting | Ready | Failed

  datatype State = State(level: nat, phases: map<string, Phase>)

  datatype Event =
    | Begin(service: string)
    | Finish(service: string, ok: bool)
    | NextLevel

  ghost predicate InLevel(levels: seq<seq<string>>, i: nat, n: string) {
    i < |levels| && n in levels[i]
  }

  function PhaseOf(s: State, n: string): Phase {
    if n in s.phases then s.phases[n] else Waiting
  }

  /** What the runtime registry holds. */
  ghost predicate Registered(s: State, n: string) {
    PhaseOf(s, n) == Ready
  }

  /** A goroutine waits only for dependencies that have a channel, that is, for those in
      its own level; the level ends when every goroutine has returned without an error. */
  ghost predicate Enabled(g: Graph, levels: seq<seq<string>>, s: State, e: Event) {
    match e
    case Begin(n) =>
      && InLevel(levels, s.level, n) && PhaseOf(s, n) == Waiting
      && forall d :: d in Deps(g, n) && InLevel(levels, s.level, d) ==> PhaseOf(s, d) == Ready
    case Finish(n, ok) => InLevel(levels, s.level, n) && PhaseOf(s, n) == Starting
    case NextLevel => s.level < |levels| && forall n :: InLevel(levels, s.level, n) ==> PhaseOf(s, n) == Ready
  }

  function Apply(s: State, e: Event): State {
    match e
    case Begin(n) => s.(phases := s.phases[n := Starting])
    case Finish(n, ok) => s.(phases := s.phases[n := if ok then Ready else Failed])
    case NextLevel => s.(level := s.level + 1)
  }

  function After(es: seq<Event>): State {
    if es == [] then State(0, map[]) else Apply(After(es[..|es| - 1]), es[|es| - 1])
  }

  ghost predicate IsRun(g: Graph, levels: seq<seq<string>>, es: seq<Event>) {
    forall i :: 0 <= i < |es| ==> Enabled(g, levels, After(es[..i]), es[i])
  }

  /** Levels that are done are ready, levels to come have not begun. */
  ghost predicate Inv(g: Graph, levels: seq<seq<string>>, s: State) {
    && s.level <= |levels|
    && (forall i, n :: 0 <= i < s.level && InLevel(levels, i, n) ==> PhaseOf(s, n) == Ready)
    && (forall n :: PhaseOf(s, n) != Waiting ==> exists i :: 0 <= i <= s.level && InLevel(levels, i, n))
  }

  /** What provisioning uses of the sort: each service has one level, above those of all
      its dependencies. */
  ghost predicate Layered(g: Graph, levels: seq<seq<string>>) {
    && (forall n :: n in g ==> exists i :: InLevel(levels, i, n))
    && (forall i, n :: InLevel(levels, i, n) ==> n in g)
    && (forall i, j, n :: InLevel(levels, i, n) && InLevel(levels, j, n) ==> i == j)
    && (forall i, j, n, d :: InLevel(levels, i, n) && Edge(g, n, d) && InLevel(levels, j, d) ==> j < i)
  }

  lemma InLevelIsLongest(g: Graph, levels: seq<seq<string>>, i: nat, n: string)
    requires LevelsOf(g, levels) && InLevel(levels, i, n)
    ensures n in g && LongestChain(g, n, i)
  {
    var a :| 0 <= a < |levels[i]| && levels[i][a] == n;
    assert n in Elements(levels);
  }

  lemma LongestChainIsUnique(g: Graph, n: string, i: nat, j: nat)
    requires LongestChain(g, n, i) && LongestChain(g, n, j)
    ensures i == j
  {
    var p :| WalkFrom(g, n, p) && |p| == i + 1;
    var q :| WalkFrom(g, n, q) && |q| == j + 1;
  }

  lemma SortIsLayered(g: Graph, levels: seq<seq<string>>)
    requires LevelsOf(g, levels)
    ensures Layered(g, levels)
  {
    forall n | n in g
      ensures exists i :: InLevel(levels, i, n)
    {
      assert n in Elements(levels);
      var i, j :| 0 <= i < |levels| && 0 <= j < |levels[i]| && levels[i][j] == n;
      assert InLevel(levels, i, n);
    }
    forall i, n | InLevel(levels, i, n)
      ensures n in g && LongestChain(g, n, i)
    {
      InLevelIsLongest(g, levels, i, n);
    }
    forall i, j, n | InLevel(levels, i, n) && InLevel(levels, j, n)
      ensures i == j
    {
      LongestChainIsUnique(g, n, i, j);
    }
    forall i, j, n, d | InLevel(levels, i, n) && Edge(g, n, d) && InLevel(levels, j, d)
      ensures j < i
    {
      DependencyIsEarlier(g, n, d, i, j);
    }
  }

  lemma PrefixIsRun(g: Graph, levels: seq<seq<string>>, es: seq<Event>, e: Event)
    requires IsRun(g, levels, es + [e])
    ensures IsRun(g, levels, es) && Enabled(g, levels, After(es), e)
  {
    var all := es + [e];
    assert all[..|es|] == es && all[|es|] == e;
    forall i | 0 <= i < |es|
      ensures Enabled(g, levels, After(es[..i]), es[i])
    {
      assert all[..i] == es[..i] && all[i] == es[i];
    }
  }

  lemma StepKeepsInv(g: Graph, levels: seq<seq<string>>, s: State, e: Event)
    requires Layered(g, levels)
    requires Inv(g, levels, s) && Enabled(g, levels, s, e)
    ensures Inv(g, levels, Apply(s, e))
  {
    var t := Apply(s, e);
    forall i, n | 0 <= i < t.level && InLevel(levels, i, n)
      ensures PhaseOf(t, n) == Ready
    {
      assert e.NextLevel? || e.service != n;
    }
    forall n | PhaseOf(t, n) != Waiting
      ensures exists i :: 0 <= i <= t.level && InLevel(levels, i, n)
    {
      if PhaseOf(s, n) == Waiting {
        assert InLevel(levels, s.level, n);
      }
    }
  }

  lemma {:induction false} RunKeepsInv(g: Graph, levels: seq<seq<string>>, es: seq<Event>)
    requires Layered(g, levels)
    requires IsRun(g, levels, es)
    ensures Inv(g, levels, After(es))
  {
    if es != [] {
      var k := |es| - 1;
      assert es == es[..k] + [es[k]];
      PrefixIsRun(g, levels, es[..k], es[k]);
      RunKeepsInv(g, levels, es[..k]);
      StepKeepsInv(g, levels, After(es[..k]), es[k]);
    }
  }

  ghost function Below(g: Graph, levels: seq<seq<string>>, i: nat): set<string> {
    set n | n in g && exists h :: 0 <= h < i && InLevel(levels, h, n)
  }

  /** The services below a level are closed under dependencies, and hold the
      dependencies of the level itself. */
  lemma BelowIsClosed(g: Graph, levels: seq<seq<string>>, i: nat, n: string)
    requires Declared(g) && Layered(g, levels) && InLevel(levels, i, n)
    ensures Closed(g, Below(g, levels, i))
    ensures forall d :: Edge(g, n, d) ==> d in Below(g, levels, i)
  {
    forall m, d | (m == n || m in Below(g, levels, i)) && d in Deps(g, m)
      ensures d in Below(g, levels, i)
    {
      assert m in g && d in g;
      var h: nat :| InLevel(levels, h, m) && h <= i;
      var k: nat :| InLevel(levels, k, d);
      assert Edge(g, m, d);
    }
  }

  /** Over every run: a service passes its waits only after all its transitive
      prerequisites were provisioned and registered, and it is not itself registered yet. */
  lemma StartsAfterPrerequisites(g: Graph, levels: seq<seq<string>>, es: seq<Event>, n: string)
    requires Declared(g) && LevelsOf(g, levels)
    requires IsRun(g, levels, es + [Begin(n)])
    ensures forall x :: Requires(g, n, x) ==> Registered(After(es), x)
    ensures !Registered(After(es), n)
  {
    SortIsLayered(g, levels);
    PrefixIsRun(g, levels, es, Begin(n));
    RunKeepsInv(g, levels, es);
    var i := After(es).level;
    BelowIsClosed(g, levels, i, n);
    forall x | Requires(g, n, x)
      ensures Registered(After(es), x)
    {
      var d :| Edge(g, n, d) && Reaches(g, d, x);
      ClosedUnderReach(g, Below(g, levels, i), d, x);
    }
  }

  /** The same-level waits never block: whatever has happened so far, and whatever has
      failed, every goroutine of the current level that still waits can go on. */
  lemma WaitsNeverBlock(g: Graph, levels: seq<seq<string>>, s: State, n: string)
    requires Declared(g) && LevelsOf(g, levels)
    requires InLevel(levels, s.level, n) && PhaseOf(s, n) == Waiting
    ensures Enabled(g, levels, s, Begin(n))
  {
    SortIsLayered(g, levels);
    assert forall d :: d in Deps(g, n) ==> Edge(g, n, d);
  }

  /** Nothing gets stuck: below the last level, as long as no service of the level has
      failed, some step is possible. */
  lemma RunsCanGoOn(g: Graph, levels: seq<seq<string>>, s: State) returns (e: Event)
    requires Declared(g) && LevelsOf(g, levels)
    requires s.level < |levels| && forall n :: InLevel(levels, s.level, n) ==> PhaseOf(s, n) != Failed
    ensures Enabled(g, levels, s, e)
  {
    if n :| InLevel(levels, s.level, n) && PhaseOf(s, n) == Waiting {
      WaitsNeverBlock(g, levels, s, n);
      e := Begin(n);
    } else if n :| InLevel(levels, s.level, n) && PhaseOf(s, n) == Starting {
      e := Finish(n, true);
    } else {
      e := NextLevel;
    }
  }

  /** A run that has passed the last level has provisioned every service. */
  lemma AllProvisioned(g: Graph, levels: seq<seq<string>>, es: seq<Event>)
    requires LevelsOf(g, levels) && IsRun(g, levels, es)
    requires After(es).level == |levels|
    ensures forall n :: n in g ==> Registered(After(es), n)
  {
    SortIsLayered(g, levels);
    RunKeepsInv(g, levels, es);
  }

  // ---- Getting to the end --------------------------------------------------------------------------

  ghost function InPhase(levels: seq<seq<string>>, s: State, phase: Phase): set<string> {
    set n | s.level < |levels| && n in levels[s.level] && PhaseOf(s, n) == phase
  }

  ghost predicate NoneFailed(levels: seq<seq<string>>, s: State) {
    forall n :: InLevel(levels, s.level, n) ==> PhaseOf(s, n) != Failed
  }

  lemma BeginMovesOn(levels: seq<seq<string>>, s: State, n: string)
    requires NoneFailed(levels, s) && InLevel(levels, s.level, n) && PhaseOf(s, n) == Waiting
    ensures NoneFailed(levels, Apply(s, Begin(n)))
    ensures |InPhase(levels, Apply(s, Begin(n)), Waiting)| < |InPhase(levels, s, Waiting)|
  {
    assert InPhase(levels, Apply(s, Begin(n)), Waiting) == InPhase(levels, s, Waiting) - {n};
    assert n in InPhase(levels, s, Waiting);
  }

  lemma FinishMovesOn(levels: seq<seq<string>>, s: State, n: string)
    requires NoneFailed(levels, s) && InLevel(levels, s.level, n) && PhaseOf(s, n) == Starting
    ensures NoneFailed(levels, Apply(s, Finish(n, true)))
    ensures |InPhase(levels, Apply(s, Finish(n, true)), Waiting)| == |InPhase(levels, s, Waiting)|
    ensures |InPhase(levels, Apply(s, Finish(n, true)), Starting)| < |InPhase(levels, s, Starting)|
  {
    assert InPhase(levels, Apply(s, Finish(n, true)), Waiting) == InPhase(levels, s, Waiting);
    assert InPhase(levels, Apply(s, Finish(n, true)), Starting) == InPhase(levels, s, Starting) - {n};
    assert n in InPhase(levels, s, Starting);
  }

  lemma LevelMovesOn(g: Graph, levels: seq<seq<string>>, s: State)
    requires Layered(g, levels) && Inv(g, levels, s) && s.level < |levels|
    ensures NoneFailed(levels, Apply(s, NextLevel))
  {
    var t := Apply(s, NextLevel);
    forall n | InLevel(levels, t.level, n)
      ensures PhaseOf(t, n) != Failed
    {
      assert PhaseOf(t, n) == PhaseOf(s, n);
    }
  }

  /** A step that brings the level nearer to its end, or ends it. */
  lemma NextMove(g: Graph, levels: seq<seq<string>>, s: State) returns (e: Event)
    requires Declared(g) && LevelsOf(g, levels) && Inv(g, levels, s) && NoneFailed(levels, s) && s.level < |levels|
    ensures Enabled(g, levels, s, e) && NoneFailed(levels, Apply(s, e))
    ensures
      var t := Apply(s, e);
      || t.level == s.level + 1
      || (t.level == s.level && |InPhase(levels, t, Waiting)| < |InPhase(levels, s, Waiting)|)
      || (t.level == s.level && |InPhase(levels, t, Waiting)| == |InPhase(levels, s, Waiting)|
          && |InPhase(levels, t, Starting)| < |InPhase(levels, s, Starting)|)
  {
    if n :| InLevel(levels, s.level, n) && PhaseOf(s, n) == Waiting {
      WaitsNeverBlock(g, levels, s, n);
      BeginMovesOn(levels, s, n);
      e := Begin(n);
    } else if n :| InLevel(levels, s.level, n) && PhaseOf(s, n) == Starting {
      FinishMovesOn(levels, s, n);
      e := Finish(n, true);
    } else {
      SortIsLayered(g, levels);
      LevelMovesOn(g, levels, s);
      e := NextLevel;
    }
  }

  lemma RunSnoc(g: Graph, levels: seq<seq<string>>, es: seq<Event>, e: Event)
    requires IsRun(g, levels, es) && Enabled(g, levels, After(es), e)
    ensures IsRun(g, levels, es + [e]) && After(es + [e]) == Apply(After(es), e)
  {
    var all := es + [e];
    assert all[..|es|] == es;
    forall i | 0 <= i < |all|
      ensures Enabled(g, levels, After(all[..i]), all[i])
    {
      if i < |es| {
        assert all[..i] == es[..i] && all[i] == es[i];
      }
    }
  }

  /** As long as nothing of the current level has failed, every run can be carried on to the
      end of provisioning, with every service registered: nothing but a failing service stands
      in its way. */
  lemma {:induction false} RunCanBeCompleted(g: Graph, levels: seq<seq<string>>, es: seq<Event>) returns (all: seq<Event>)
    requires Declared(g) && LevelsOf(g, levels) && IsRun(g, levels, es) && NoneFailed(levels, After(es))
    ensures es <= all && IsRun(g, levels, all) && After(all).level == |levels|
    ensures forall n :: n in g ==> Registered(After(all), n)
    decreases |levels| - After(es).level, |InPhase(levels, After(es), Waiting)|, |InPhase(levels, After(es), Starting)|
  {
    SortIsLayered(g, levels);
    RunKeepsInv(g, levels, es);
    if After(es).level == |levels| {
      AllProvisioned(g, levels, es);
      all := es;
    } else {
      var e := NextMove(g, levels, After(es));
      RunSnoc(g, levels, es, e);
      all := RunCanBeCompleted(g, levels, es + [e]);
    }
  }

  /** Each end of a start is recorded: a service that comes up is registered, one that does not
      is failed for good, and a level with a failure is never left. */
  lemma FinishExactly(g: Graph, levels: seq<seq<string>>, s: State, n: string, ok: bool)
    requires Enabled(g, levels, s, Finish(n, ok))
    ensures Registered(Apply(s, Finish(n, ok)), n) <==> ok
    ensures !ok ==> !Enabled(g, levels, Apply(s, Finish(n, ok)), NextLevel)
    ensures forall m :: m != n ==> PhaseOf(Apply(s, Finish(n, ok)), m) == PhaseOf(s, m)
  {
  }
}
