/** From an accepted bundle to running services: translation of a scenario
    (runner-v2/pkg/workflowbundle/bundle.go), the start order and the provisioning run
    (runner-v2/pkg/orchestrator), put together. What validation checks is enough for
    every later stage. */
module Pipeline {
  import opened Basics
  import opened Text
  import opened References
  import opened Graphs
  import opened GraphSearch
  import opened ServiceOrder
  import opened DependencyGraphs
  import opened Bundles
  import opened BundleChecks
  import opened Interpolation
  import Provisioning

  // ---- The services of a scenario -------------------------------------------------------

  ghost function Closure(g: Graph, targets: seq<string>): set<string> {
    set x | x in Graphs.Names(g) + Elems(targets) && exists t :: t in targets && Reaches(g, t, x)
  }

  lemma ReachedIsNamed(g: Graph, t: string, x: string)
    requires Reaches(g, t, x)
    ensures x == t || x in Graphs.Names(g)
  {
    var p :| WalkFrom(g, t, p) && p[|p| - 1] == x;
    if |p| > 1 {
      assert Edge(g, p[|p| - 2], p[|p| - 1]);
    }
  }

  lemma ClosureIsExact(g: Graph, targets: seq<string>)
    ensures forall x :: x in Closure(g, targets) <==> exists t :: t in targets && Reaches(g, t, x)
    ensures Closed(g, Closure(g, targets))
  {
    forall x, t | t in targets && Reaches(g, t, x)
      ensures x in Closure(g, targets)
    {
      ReachedIsNamed(g, t, x);
    }
    forall n, d | n in Closure(g, targets) && d in Deps(g, n)
      ensures d in Closure(g, targets)
    {
      var t :| t in targets && Reaches(g, t, n);
      var p :| WalkFrom(g, t, p) && p[|p| - 1] == n;
      WalkSnoc(g, p, d);
      assert (p + [d])[|p|] == d;
      assert Reaches(g, t, d);
    }
  }

  ghost function ScenarioServices(b: Bundle, sc: Scenario): seq<Service> {
    var g := ServiceDeps(b.nodes, b.edges);
    ServicesIn(b.nodes, g, Closure(g, AllTargets(sc.tests)))
  }

  lemma {:induction false} TargetsAreServices(names: set<string>, tests: seq<TestDefinition>, all: seq<TestDefinition>, n: nat)
    requires n <= |tests| && All(tests, n, Fits(names, all))
    ensures forall t :: t in AllTargets(tests[..n]) ==> t in names
  {
    if n > 0 {
      TargetsAreServices(names, tests, all, n - 1);
      assert tests[..n][..n - 1] == tests[..n - 1];
      assert TestOk(names, all, tests[n - 1]);
    }
  }

  /** For every accepted bundle and each of its scenarios, the translated services are
      exactly the dependency closure of the targets, and their graph declares every
      dependency and has no cycle. */
  lemma ScenarioGraphIsSound(b: Bundle, sc: Scenario)
    requires BundleOk(b) && ScenarioOk(ServiceNames(b.nodes), sc)
    ensures
      var g := ServiceDeps(b.nodes, b.edges);
      var h := GraphOf(ScenarioServices(b, sc));
      && PartOf(g, Closure(g, AllTargets(sc.tests)), h)
      && Declared(h) && Acyclic(h)
  {
    var g := ServiceDeps(b.nodes, b.edges);
    var targets := AllTargets(sc.tests);
    var required := Closure(g, targets);
    ServiceDepsExact(b.nodes, b.edges);
    ClosureIsExact(g, targets);
    assert sc.tests[..|sc.tests|] == sc.tests;
    TargetsAreServices(ServiceNames(b.nodes), sc.tests, sc.tests, |sc.tests|);
    forall x | x in required
      ensures x in ServiceNames(b.nodes)
    {
      var t :| t in targets && Reaches(g, t, x);
      ClosedUnderReach(g, g.Keys, t, x);
    }
    SubsetGraph(b.nodes, g, required);
    PartIsSound(g, required, GraphOf(ScenarioServices(b, sc)));
  }

  method TargetsOf(tests: seq<TestDefinition>) returns (targets: seq<string>)
    ensures targets == AllTargets(tests)
  {
    targets := [];
    for i := 0 to |tests|
      invariant targets == AllTargets(tests[..i])
    {
      assert tests[..i + 1][..i] == tests[..i];
      targets := targets + tests[i].targets;
    }
    assert tests[..|tests|] == tests;
  }

  /** The loop that keeps the required services. */
  method ChooseServices(all: seq<Service>, required: set<string>) returns (services: seq<Service>)
    ensures services == Chosen(all, required, NameOf(), |all|)
  {
    services := [];
    for i := 0 to |all|
      invariant services == Chosen(all, required, NameOf(), i)
    {
      if all[i].name in required {
        services := services + [all[i]];
      }
    }
  }

  /** TranslateScenario: the services a scenario needs, or None for an invalid scenario. */
  method TranslateScenario(b: Bundle, sc: Scenario) returns (r: Option<seq<Service>>)
    ensures r.Some? <==> ScenarioOk(ServiceNames(b.nodes), sc)
    ensures r.Some? ==> r.value == ScenarioServices(b, sc)
  {
    var graph := BuildServiceDependencies(b.nodes, b.edges);
    var names := NamesOfServices(b.nodes);
    var ok := ValidateScenario(names, sc);
    if !ok {
      return None;
    }
    var targets := TargetsOf(sc.tests);
    var required := ExpandScenarioServiceSubset(graph, targets);
    ClosureIsExact(graph, targets);
    assert required == Closure(graph, targets);
    var services := ChooseServices(AllServices(b.nodes, graph), required);
    return Some(services);
  }

  /** The first half of ProvisionServices: the dependency graph of the services, sorted. */
  method SortServices(services: seq<Service>) returns (r: Sorting)
    ensures r.Levels? <==> Declared(GraphOf(services)) && Acyclic(GraphOf(services))
    ensures r.Levels? ==> LevelsOf(GraphOf(services), r.levels)
  {
    var graph := new DependencyGraph();
    for i := 0 to |services|
      invariant graph.nodes == GraphOf(services[..i])
      invariant fresh(graph)
    {
      assert services[..i + 1][..i] == services[..i];
      graph.AddNode(services[i].name, services[i].dependsOn);
    }
    assert services[..|services|] == services;
    r := graph.TopologicalSort();
  }

  /** For every accepted bundle and every scenario in it, translation and sorting succeed. */
  method PlanScenario(b: Bundle, sc: Scenario) returns (services: seq<Service>, levels: seq<seq<string>>)
    requires BundleOk(b) && sc in b.scenarios
    ensures services == ScenarioServices(b, sc)
    ensures LevelsOf(GraphOf(services), levels)
  {
    var i: nat :| i < |b.scenarios| && b.scenarios[i] == sc;
    AllAt(b.scenarios, |b.scenarios|, ScenarioFits(ServiceNames(b.nodes)), i);
    var translated := TranslateScenario(b, sc);
    services := translated.value;
    ScenarioGraphIsSound(b, sc);
    var sorted := SortServices(services);
    levels := sorted.levels;
  }

  // ---- Provisioning a scenario ------------------------------------------------------------

  /** In every provisioning run of a scenario of an accepted bundle, a service starts only
      after every service it transitively requires in the bundle has been provisioned. */
  lemma ScenarioStartsInOrder(b: Bundle, sc: Scenario, levels: seq<seq<string>>, es: seq<Provisioning.Event>, name: string)
    requires BundleOk(b) && ScenarioOk(ServiceNames(b.nodes), sc)
    requires LevelsOf(GraphOf(ScenarioServices(b, sc)), levels)
    requires Provisioning.IsRun(GraphOf(ScenarioServices(b, sc)), levels, es + [Provisioning.Begin(name)])
    ensures forall x :: Requires(ServiceDeps(b.nodes, b.edges), name, x) ==>
                          Provisioning.Registered(Provisioning.After(es), x)
    ensures !Provisioning.Registered(Provisioning.After(es), name)
  {
    var g, h := ServiceDeps(b.nodes, b.edges), GraphOf(ScenarioServices(b, sc));
    var required := Closure(g, AllTargets(sc.tests));
    ScenarioGraphIsSound(b, sc);
    ClosureIsExact(g, AllTargets(sc.tests));
    Provisioning.StartsAfterPrerequisites(h, levels, es, name);
    Provisioning.PrefixIsRun(h, levels, es, Provisioning.Begin(name));
    Provisioning.SortIsLayered(h, levels);
    forall x | Requires(g, name, x)
      ensures Provisioning.Registered(Provisioning.After(es), x)
    {
      PartRequires(g, required, h, name, x);
    }
  }

  lemma {:induction false} UniqueNode(nodes: seq<FlowNode>, i: nat)
    requires Unique(IdsOf(nodes)) && i < |nodes|
    ensures NodeOf(nodes, nodes[i].id) == Some(nodes[i])
  {
    var n := |nodes| - 1;
    if i < n {
      assert IdsOf(nodes)[i] != IdsOf(nodes)[n];
      assert IdsOf(nodes[..n]) == IdsOf(nodes)[..n];
      UniqueNode(nodes[..n], i);
    }
  }

  /** An edge of an accepted bundle that says its source requires its target makes every
      provisioning run start the source's service only after the target's is registered;
      one that says its target requires its source, the other way round. */
  lemma ReadinessIsHonoured(b: Bundle, sc: Scenario, levels: seq<seq<string>>, es: seq<Provisioning.Event>,
                            edge: FlowEdge, source: nat, target: nat, readiness: string)
    requires BundleOk(b) && ScenarioOk(ServiceNames(b.nodes), sc)
    requires LevelsOf(GraphOf(ScenarioServices(b, sc)), levels)
    requires edge in b.edges && edge.data.Some? && edge.data.value.readiness == readiness
    requires source < |b.nodes| && b.nodes[source].id == edge.source
    requires target < |b.nodes| && b.nodes[target].id == edge.target
    ensures
      var sourceName, targetName := ServiceName(b.nodes[source].title), ServiceName(b.nodes[target].title);
      var h := GraphOf(ScenarioServices(b, sc));
      && (readiness == "source_requires_target" && Provisioning.IsRun(h, levels, es + [Provisioning.Begin(sourceName)]) ==>
            Provisioning.Registered(Provisioning.After(es), targetName))
      && (readiness == "target_requires_source" && Provisioning.IsRun(h, levels, es + [Provisioning.Begin(targetName)]) ==>
            Provisioning.Registered(Provisioning.After(es), sourceName))
  {
    var sourceName, targetName := ServiceName(b.nodes[source].title), ServiceName(b.nodes[target].title);
    var h := GraphOf(ScenarioServices(b, sc));
    EdgeRequirement(b.nodes, edge, source, target);
    if readiness == "source_requires_target" && Provisioning.IsRun(h, levels, es + [Provisioning.Begin(sourceName)]) {
      RequirementIsHonoured(b, sc, levels, es, edge, sourceName, targetName);
    }
    if readiness == "target_requires_source" && Provisioning.IsRun(h, levels, es + [Provisioning.Begin(targetName)]) {
      RequirementIsHonoured(b, sc, levels, es, edge, targetName, sourceName);
    }
  }

  lemma EdgeRequirement(nodes: seq<FlowNode>, edge: FlowEdge, source: nat, target: nat)
    requires Unique(IdsOf(nodes)) && edge.data.Some?
    requires source < |nodes| && nodes[source].id == edge.source
    requires target < |nodes| && nodes[target].id == edge.target
    ensures
      var sourceName, targetName := ServiceName(nodes[source].title), ServiceName(nodes[target].title);
      && (edge.data.value.readiness == "source_requires_target" ==> Requirement(nodes, edge) == Some((sourceName, targetName)))
      && (edge.data.value.readiness == "target_requires_source" ==> Requirement(nodes, edge) == Some((targetName, sourceName)))
  {
    UniqueNode(nodes, source);
    UniqueNode(nodes, target);
  }

  /** The i-th and j-th node stand at the ends of the edge, and it says that the service `n`
      requires the service `d`. */
  ghost predicate SaysRequires(nodes: seq<FlowNode>, edge: FlowEdge, i: nat, j: nat, n: string, d: string) {
    && i < |nodes| && nodes[i].id == edge.source && j < |nodes| && nodes[j].id == edge.target && edge.data.Some?
    && var sourceName, targetName := ServiceName(nodes[i].title), ServiceName(nodes[j].title);
       || (edge.data.value.readiness == "source_requires_target" && (n, d) == (sourceName, targetName))
       || (edge.data.value.readiness == "target_requires_source" && (n, d) == (targetName, sourceName))
  }

  lemma RequirementExactly(nodes: seq<FlowNode>, edge: FlowEdge, n: string, d: string)
    requires Unique(IdsOf(nodes))
    ensures Requirement(nodes, edge) == Some((n, d)) <==> exists i, j :: SaysRequires(nodes, edge, i, j, n, d)
  {
    NodeOfIsNode(nodes, edge.source);
    NodeOfIsNode(nodes, edge.target);
    if Requirement(nodes, edge) == Some((n, d)) {
      var i: nat :| i < |nodes| && nodes[i] == NodeOf(nodes, edge.source).value;
      var j: nat :| j < |nodes| && nodes[j] == NodeOf(nodes, edge.target).value;
      assert SaysRequires(nodes, edge, i, j, n, d);
    }
    if i, j :| SaysRequires(nodes, edge, i, j, n, d) {
      EdgeRequirement(nodes, edge, i, j);
    }
  }

  /** In an accepted bundle one service depends on another exactly when some edge says so: an
      edge of readiness "none" makes no dependency, and nothing else does. */
  lemma DependenciesExactly(b: Bundle, n: string, d: string)
    requires BundleOk(b)
    ensures Edge(ServiceDeps(b.nodes, b.edges), n, d) <==>
              exists edge, i, j :: edge in b.edges && SaysRequires(b.nodes, edge, i, j, n, d)
  {
    ServiceDepsExact(b.nodes, b.edges);
    assert Edge(ServiceDeps(b.nodes, b.edges), n, d) <==> Stated(b.nodes, b.edges, n, d);
    forall edge | edge in b.edges
      ensures Requirement(b.nodes, edge) == Some((n, d)) <==> exists i, j :: SaysRequires(b.nodes, edge, i, j, n, d)
    {
      RequirementExactly(b.nodes, edge, n, d);
    }
  }

  /** Each of the services is said by some edge to require the next, and the last is the first
      again. */
  ghost predicate ServiceCircle(nodes: seq<FlowNode>, edges: seq<FlowEdge>, circle: seq<string>) {
    && |circle| >= 2 && circle[0] == circle[|circle| - 1]
    && forall i, j :: 0 <= i && j == i + 1 < |circle| ==> SomeEdgeSays(nodes, edges, circle[i], circle[j])
  }

  ghost predicate SomeEdgeSays(nodes: seq<FlowNode>, edges: seq<FlowEdge>, n: string, d: string) {
    exists edge, i, j :: edge in edges && SaysRequires(nodes, edge, i, j, n, d)
  }

  /** A bundle whose edges make services require each other in a circle is refused. */
  lemma CircularServicesAreRefused(b: Bundle, circle: seq<string>)
    requires ServiceCircle(b.nodes, b.edges, circle)
    ensures !BundleOk(b)
  {
    if BundleOk(b) {
      var g := ServiceDeps(b.nodes, b.edges);
      forall i, j | 0 <= i && j == i + 1 < |circle|
        ensures Edge(g, circle[i], circle[j])
      {
        assert SomeEdgeSays(b.nodes, b.edges, circle[i], circle[j]);
        DependenciesExactly(b, circle[i], circle[j]);
      }
      assert Cycle(g, circle);
    }
  }

  /** End to end, from the bundle as it was handed in: for every bundle that Validate accepts
      and every edge in it, an edge that states no readiness, or that its source requires its
      target, makes every provisioning run register the target before the source starts; one
      that states the opposite, the other way round. */
  lemma RawReadinessIsHonoured(raw: Bundle, b: Bundle, sc: Scenario, levels: seq<seq<string>>, es: seq<Provisioning.Event>,
                               k: nat, source: nat, target: nat)
    requires NormalizesTo(raw, b) && BundleOk(b) && ScenarioOk(ServiceNames(b.nodes), sc)
    requires LevelsOf(GraphOf(ScenarioServices(b, sc)), levels)
    requires k < |raw.edges|
    requires source < |raw.nodes| && raw.nodes[source].id == raw.edges[k].source
    requires target < |raw.nodes| && raw.nodes[target].id == raw.edges[k].target
    ensures
      var data := raw.edges[k].data;
      var sourceName, targetName := ServiceName(raw.nodes[source].title), ServiceName(raw.nodes[target].title);
      var h := GraphOf(ScenarioServices(b, sc));
      && (data.None? || data.value.readiness == "" || data.value.readiness == "source_requires_target" ==>
            Provisioning.IsRun(h, levels, es + [Provisioning.Begin(sourceName)]) ==>
              Provisioning.Registered(Provisioning.After(es), targetName))
      && (data.Some? && data.value.readiness == "target_requires_source" ==>
            Provisioning.IsRun(h, levels, es + [Provisioning.Begin(targetName)]) ==>
              Provisioning.Registered(Provisioning.After(es), sourceName))
  {
    NormalEdgeExactly(raw.edges[k], raw.schemaVersion == LEGACY_SCHEMA_VERSION);
    var edge := b.edges[k];
    ReadinessIsHonoured(b, sc, levels, es, edge, source, target, edge.data.value.readiness);
  }

  lemma RequirementIsHonoured(b: Bundle, sc: Scenario, levels: seq<seq<string>>, es: seq<Provisioning.Event>,
                              edge: FlowEdge, n: string, d: string)
    requires BundleOk(b) && ScenarioOk(ServiceNames(b.nodes), sc)
    requires LevelsOf(GraphOf(ScenarioServices(b, sc)), levels)
    requires edge in b.edges && Requirement(b.nodes, edge) == Some((n, d))
    requires Provisioning.IsRun(GraphOf(ScenarioServices(b, sc)), levels, es + [Provisioning.Begin(n)])
    ensures Provisioning.Registered(Provisioning.After(es), d)
  {
    StatedIsRequired(b, edge, n, d);
    ScenarioStartsInOrder(b, sc, levels, es, n);
  }

  lemma StatedIsRequired(b: Bundle, edge: FlowEdge, n: string, d: string)
    requires edge in b.edges && Requirement(b.nodes, edge) == Some((n, d))
    ensures Requires(ServiceDeps(b.nodes, b.edges), n, d)
  {
    ServiceDepsExact(b.nodes, b.edges);
    assert Stated(b.nodes, b.edges, n, d);
    ReachesSelf(ServiceDeps(b.nodes, b.edges), d);
    assert Edge(ServiceDeps(b.nodes, b.edges), n, d);
  }

  lemma {:induction false} EnvMapValue(aliases: Aliases, env: seq<(string, string)>, key: string) returns (k: nat)
    requires key in EnvMap(aliases, env)
    ensures k < |env| && EnvMap(aliases, env)[key] == Normalized(aliases, env[k].1)
  {
    var n := |env| - 1;
    if !Blank(env[n].0) && TrimSpace(env[n].0) == key {
      k := n;
    } else {
      k := EnvMapValue(aliases, env[..n], key);
    }
  }

  /** What service `name` may find registered when its environment is filled in, at or after
      state `s`: at least what was registered then, and not itself. */
  ghost predicate RegistryOf(s: Provisioning.State, name: string, registry: map<string, Runtime>) {
    (forall n :: Provisioning.Registered(s, n) ==> n in registry) && name !in registry
  }

  /** The reference at position m of an original value, as the running system meets it:
      its lookup fails with "service not found" exactly when the service refers to itself. */
  ghost predicate LookupWorks(aliases: Aliases, value: string, m: nat, name: string, s: Provisioning.State)
    requires m < |Scan(value)| && Scan(value)[m].Ref?
  {
    var inner := Scan(value)[m].inner;
    HasField(inner) && TrimSpace(Token(inner)) == Token(inner) && ValidatedTarget(aliases, Token(inner)) != "" ==>
      forall registry :: RegistryOf(s, name, registry) ==>
        (Resolve(registry, RewriteInner(aliases, inner)).ServiceNotFound? <==> ValidatedTarget(aliases, Token(inner)) == name)
  }

  lemma ReferenceResolves(b: Bundle, node: FlowNode, value: string, m: nat, s: Provisioning.State)
    requires NodesOk(b.nodes)
    requires m < |Scan(value)| && Scan(value)[m].Ref?
    requires ValueReady(ServiceDeps(b.nodes, b.edges), AliasMap(b.nodes), ServiceName(node.title), value)
    requires forall x :: Requires(ServiceDeps(b.nodes, b.edges), ServiceName(node.title), x) ==> Provisioning.Registered(s, x)
    requires !Provisioning.Registered(s, ServiceName(node.title))
    ensures LookupWorks(AliasMap(b.nodes), value, m, ServiceName(node.title), s)
  {
    var aliases, inner, name := AliasMap(b.nodes), Scan(value)[m].inner, ServiceName(node.title);
    if HasField(inner) && TrimSpace(Token(inner)) == Token(inner) && ValidatedTarget(aliases, Token(inner)) != "" {
      var target := ValidatedTarget(aliases, Token(inner));
      assert target == name || Provisioning.Registered(s, target) by {
        AllAt(Scan(value), |Scan(value)|, SegmentReady(ServiceDeps(b.nodes, b.edges), aliases, name), m);
      }
      var written := RewriteInner(aliases, inner);
      assert HasField(written) && Token(written) == target by {
        AliasesAreServices(b.nodes);
        MatchedText(value, m);
        RewrittenInner(aliases, inner);
        TargetsAgree(aliases, Token(inner));
      }
      forall registry | RegistryOf(s, name, registry)
        ensures Resolve(registry, written).ServiceNotFound? <==> target == name
      {
        NotFoundExactly(registry, written);
      }
    }
  }

  /** In every provisioning run of a scenario of an accepted bundle: each environment value
      of a service that starts is the rewriting of one of the values its node was given;
      reading it finds the rewritten references one for one; and each of them that names a
      known service without surrounding blanks is looked up successfully, unless it names
      the service itself. */
  lemma EnvReferencesResolve(b: Bundle, sc: Scenario, levels: seq<seq<string>>, es: seq<Provisioning.Event>,
                             i: nat, key: string)
    returns (value: string)
    requires BundleOk(b) && ScenarioOk(ServiceNames(b.nodes), sc)
    requires i < |b.nodes|
    requires key in TranslateNode(b.nodes, ServiceDeps(b.nodes, b.edges), b.nodes[i]).env
    requires LevelsOf(GraphOf(ScenarioServices(b, sc)), levels)
    requires Provisioning.IsRun(GraphOf(ScenarioServices(b, sc)), levels,
                                es + [Provisioning.Begin(ServiceName(b.nodes[i].title))])
    ensures value in EnvValues(b.nodes[i].env)
    ensures Scan(TranslateNode(b.nodes, ServiceDeps(b.nodes, b.edges), b.nodes[i]).env[key])
            == RewriteAll(AliasMap(b.nodes), Scan(value))
    ensures forall m: nat :: m < |Scan(value)| && Scan(value)[m].Ref? ==>
                               LookupWorks(AliasMap(b.nodes), value, m, ServiceName(b.nodes[i].title), Provisioning.After(es))
  {
    var node, aliases, g := b.nodes[i], AliasMap(b.nodes), ServiceDeps(b.nodes, b.edges);
    var k := EnvMapValue(aliases, node.env, key);
    value := node.env[k].1;
    assert EnvValues(node.env)[k] == value;
    AliasesAreServices(b.nodes);
    RewritingIsStable(aliases, value);
    ScenarioStartsInOrder(b, sc, levels, es, ServiceName(node.title));
    AllAt(b.nodes, |b.nodes|, Ready(g, aliases), i);
    EnvValueIsReady(g, aliases, node, k);
    forall m: nat | m < |Scan(value)| && Scan(value)[m].Ref?
      ensures LookupWorks(aliases, value, m, ServiceName(node.title), Provisioning.After(es))
    {
      ReferenceResolves(b, node, value, m, Provisioning.After(es));
    }
  }

  /** Why an original reference may fail to find its service: it names the service itself, no
      known service, or it has blanks around its token. */
  ghost predicate MayBeMissing(aliases: Aliases, name: string, inner: string) {
    HasField(inner) &&
    var token := Token(inner);
    || ValidatedTarget(aliases, token) == name
    || ValidatedTarget(aliases, token) == ""
    || TrimSpace(token) != token
  }

  /** `inner` is what the m-th part of `value` was rewritten to, and that part is a reference
      that may be missing. */
  ghost predicate WasWrittenFor(aliases: Aliases, name: string, inner: string, value: string, m: nat) {
    && m < |Scan(value)| && Scan(value)[m].Ref?
    && inner == RewriteInner(aliases, Scan(value)[m].inner)
    && MayBeMissing(aliases, name, Scan(value)[m].inner)
  }

  lemma MissingWasAllowed(aliases: Aliases, name: string, value: string, inner: string, registry: Registry, s: Provisioning.State)
    returns (m: nat)
    requires RegistryOf(s, name, registry) && Resolve(registry, inner).ServiceNotFound?
    requires Ref(inner) in RewriteAll(aliases, Scan(value))
    requires SlugAliases(aliases)
    requires forall k: nat :: k < |Scan(value)| && Scan(value)[k].Ref? ==> LookupWorks(aliases, value, k, name, s)
    ensures WasWrittenFor(aliases, name, inner, value, m)
  {
    var all := RewriteAll(aliases, Scan(value));
    m :| m < |all| && all[m] == Ref(inner);
    assert all[m] == RewriteSegment(aliases, Scan(value)[m]);
    MatchedText(value, m);
    RewrittenInner(aliases, Scan(value)[m].inner);
    assert LookupWorks(aliases, value, m, name, s);
  }

  /** The reference at which the environment of a starting service failed to find a service
      was written for one that names the service itself, nothing known, or has blanks. */
  lemma MissingReference(b: Bundle, sc: Scenario, levels: seq<seq<string>>, es: seq<Provisioning.Event>, i: nat,
                         key: string, inner: string, registry: Registry)
    returns (value: string, m: nat)
    requires BundleOk(b) && ScenarioOk(ServiceNames(b.nodes), sc) && i < |b.nodes|
    requires LevelsOf(GraphOf(ScenarioServices(b, sc)), levels)
    requires Provisioning.IsRun(GraphOf(ScenarioServices(b, sc)), levels,
                                es + [Provisioning.Begin(ServiceName(b.nodes[i].title))])
    requires key in TranslateNode(b.nodes, ServiceDeps(b.nodes, b.edges), b.nodes[i]).env
    requires Ref(inner) in Scan(TranslateNode(b.nodes, ServiceDeps(b.nodes, b.edges), b.nodes[i]).env[key])
    requires RegistryOf(Provisioning.After(es), ServiceName(b.nodes[i].title), registry)
    requires Resolve(registry, inner).ServiceNotFound?
    ensures value in EnvValues(b.nodes[i].env)
    ensures WasWrittenFor(AliasMap(b.nodes), ServiceName(b.nodes[i].title), inner, value, m)
  {
    value := EnvReferencesResolve(b, sc, levels, es, i, key);
    AliasesAreServices(b.nodes);
    m := MissingWasAllowed(AliasMap(b.nodes), ServiceName(b.nodes[i].title), value, inner, registry, Provisioning.After(es));
  }

  /** The environment of node i, as translated. */
  function EnvOf(b: Bundle, i: nat): map<string, string>
    requires i < |b.nodes|
  {
    TranslateNode(b.nodes, ServiceDeps(b.nodes, b.edges), b.nodes[i]).env
  }

  /** Interpolating the environment of a starting service, in any scenario of an accepted
      bundle and at any point of any run, succeeds exactly when every reference resolves; and
      if it stops because a service was not found, the reference it stopped at was written
      for one that names the service itself, nothing known, or has blanks around its token. */
  method InterpolateForStart(b: Bundle, ghost sc: Scenario, ghost levels: seq<seq<string>>,
                             ghost es: seq<Provisioning.Event>, i: nat, registry: Registry)
    returns (r: Interpolated)
    requires BundleOk(b) && ScenarioOk(ServiceNames(b.nodes), sc) && i < |b.nodes|
    requires LevelsOf(GraphOf(ScenarioServices(b, sc)), levels)
    requires Provisioning.IsRun(GraphOf(ScenarioServices(b, sc)), levels,
                                es + [Provisioning.Begin(ServiceName(b.nodes[i].title))])
    requires RegistryOf(Provisioning.After(es), ServiceName(b.nodes[i].title), registry)
    ensures r.Env? <==> forall key :: key in EnvOf(b, i) ==> AllResolve(registry, EnvOf(b, i)[key])
    ensures r.Unresolved? && r.why.ServiceNotFound? ==>
              exists value, m {:trigger WasWrittenFor(AliasMap(b.nodes), ServiceName(b.nodes[i].title), r.inner, value, m)} ::
                && value in EnvValues(b.nodes[i].env)
                && WasWrittenFor(AliasMap(b.nodes), ServiceName(b.nodes[i].title), r.inner, value, m)
  {
    r := InterpolateEnvVars(registry, EnvOf(b, i));
    if r.Unresolved? && r.why.ServiceNotFound? {
      ghost var value, m := MissingReference(b, sc, levels, es, i, r.key, r.inner, registry);
    }
  }

  lemma EnvValueIsReady(g: Graph, aliases: Aliases, node: FlowNode, k: nat)
    requires NodeReady(g, aliases, node) && k < |node.env|
    ensures ValueReady(g, aliases, ServiceName(node.title), node.env[k].1)
  {
    assert ValuesOf(node)[|node.command| + k] == node.env[k].1;
    AllAt(ValuesOf(node), |ValuesOf(node)|, TextReady(g, aliases, ServiceName(node.title)), |node.command| + k);
  }

  // ---- A bundle that is accepted ------------------------------------------------------------

  /** One service and one scenario with one test: what is promised of accepted bundles is not
      promised of nothing. */
  lemma SmallBundleIsAccepted(name: string)
    requires IsSlug(name) && name != ""
    ensures
      var node := FlowNode(name, name, "redis", "", [], [], [], true);
      var sc := Scenario(name, [TestDefinition(name, name, "delay", [name], [], true)], [name]);
      BundleOk(Bundle(SCHEMA_VERSION, BUNDLE_KIND, name, [node], [], [sc]))
  {
    var node := FlowNode(name, name, "redis", "", [], [], [], true);
    var test := TestDefinition(name, name, "delay", [name], [], true);
    var sc := Scenario(name, [test], [name]);
    ServiceNameFixpoints(name);
    SlugIsNotBlank(name);
    SmallGraphIsOk(node);
    SmallScenarioIsOk({name}, sc, test);
    AllOfOne(sc, ScenarioFits({name}));
  }

  lemma SlugIsNotBlank(name: string)
    requires IsSlug(name) && name != ""
    ensures TrimSpace(name) == name && !Blank(name)
  {
    assert !IsSpace(name[0]) && !IsSpace(name[|name| - 1]);
  }

  lemma AllOfOne<T>(x: T, p: T -> bool)
    requires p(x)
    ensures All([x], 1, p)
  {
    assert All([x], 0, p);
  }


  lemma SmallGraphIsOk(node: FlowNode)
    requires NodeOk(node) && node.command == [] && node.env == [] && node.scripts == []
    ensures GraphOk([node], []) && ServiceNames([node]) == {ServiceName(node.title)}
  {
    AllOfOne(node, NodeOk);
    PlainGraphIsOk([node]);
  }

  lemma SmallScenarioIsOk(names: set<string>, sc: Scenario, test: TestDefinition)
    requires !Blank(sc.name) && sc.tests == [test] && sc.testOrder == [test.id]
    requires !Blank(test.id) && !Blank(test.name) && test.dependsOn == [] && SupportedTest(test.kind) && test.configOk
    requires |test.targets| == 1 && test.targets[0] in names && !Blank(test.targets[0])
    ensures ScenarioOk(names, sc)
  {
    AllOfOne(test, Fits(names, sc.tests));
    assert TestGraph([test]) == map[test.id := []] by { assert [test][..0] == []; }
    NoDependenciesNoCycle(TestGraph([test]));
    assert TestIds([test])[0] == test.id;
  }
}
