/** The loops of runner-v2/pkg/workflowbundle/bundle.go that validate and translate a
    bundle, each proved against the predicates and functions of module Bundles. */
module BundleChecks {
  import opened Basics
  import opened Text
  import opened References
  import opened Graphs
  import opened GraphSearch
  import opened Bundles

  datatype BundleError =
    | UnsupportedSchema(version: int)
    | InvalidEdge(id: string)
    | WrongKind
    | BlankWorkflowName
    | NoNodes
    | BlankNodeId
    | DuplicateNodeId(id: string)
    | BlankTitle
    | EmptyServiceName(title: string)
    | DuplicateServiceName(name: string)
    | BadServiceType(title: string)
    | MissingImage(title: string)
    | BadRuntime(title: string)
    | DuplicateEdgeId(id: string)
    | UnknownNode(edge: string, node: string)
    | SelfEdge(id: string)
    | CircularDependencies(cycles: seq<seq<string>>)
    | NotReady(service: string, referenced: string)
    | NoScenarios
    | DuplicateScenario(name: string)
    | BadScenario(name: string)

  /** normalize: fills in the edges in place. */
  method NormalizeEdges(edges: array<FlowEdge>, legacyBundle: bool) returns (bad: Option<BundleError>)
    modifies edges
    ensures bad.None? <==> forall i :: 0 <= i < edges.Length ==> NormalEdge(old(edges[i]), legacyBundle).Some?
    ensures bad.None? ==> forall i :: 0 <= i < edges.Length ==> NormalEdge(old(edges[i]), legacyBundle) == Some(edges[i])
  {
    var i := 0;
    while i < edges.Length
      invariant 0 <= i <= edges.Length
      invariant forall k :: 0 <= k < i ==> NormalEdge(old(edges[k]), legacyBundle) == Some(edges[k])
      invariant forall k :: i <= k < edges.Length ==> edges[k] == old(edges[k])
    {
      var edge := edges[i];
      var legacyEdge := edge.data.None?;
      var data := if edge.data.None? then EdgeData("", "", false) else edge.data.value;
      if data.relation != "" && !ValidRelation(data.relation) {
        return Some(InvalidEdge(edge.id));
      }
      if data.relation == "" {
        data := data.(relation := CALLS);
        legacyEdge := true;
      }
      if data.readiness != "" && !ValidReadiness(data.readiness) {
        return Some(InvalidEdge(edge.id));
      }
      if data.readiness == "" {
        data := data.(readiness := TARGET_FIRST);
        legacyEdge := true;
      }
      if legacyBundle || legacyEdge {
        data := data.(needsReview := true);
      }
      edges[i] := edge.(data := Some(data));
      i := i + 1;
    }
    return None;
  }

  method IndexNodes(nodes: seq<FlowNode>) returns (graph: Graph, nodeMap: map<string, FlowNode>)
    ensures graph == EmptyGraph(nodes)
    ensures forall id :: Lookup(nodeMap, id) == NodeOf(nodes, id)
  {
    graph, nodeMap := map[], map[];
    for i := 0 to |nodes|
      invariant graph == EmptyGraph(nodes[..i])
      invariant forall id :: Lookup(nodeMap, id) == NodeOf(nodes[..i], id)
    {
      var serviceName := SanitizeName(nodes[i].title);
      graph := graph[serviceName := []];
      nodeMap := nodeMap[nodes[i].id := nodes[i]];
      assert nodes[..i + 1][..i] == nodes[..i];
      EmptyGraphSnoc(nodes, i);
    }
    assert nodes[..|nodes|] == nodes;
  }

  method BuildServiceDependencies(nodes: seq<FlowNode>, edges: seq<FlowEdge>) returns (graph: Graph)
    ensures graph == ServiceDeps(nodes, edges)
  {
    var nodeMap;
    graph, nodeMap := IndexNodes(nodes);
    for i := 0 to |edges|
      invariant graph == ServiceDeps(nodes, edges[..i])
    {
      assert edges[..i + 1][..i] == edges[..i];
      var edge := edges[i];
      assert Lookup(nodeMap, edge.source) == NodeOf(nodes, edge.source);
      assert Lookup(nodeMap, edge.target) == NodeOf(nodes, edge.target);
      if edge.source in nodeMap && edge.target in nodeMap && edge.data.Some? {
        var sourceName := SanitizeName(nodeMap[edge.source].title);
        var targetName := SanitizeName(nodeMap[edge.target].title);
        if edge.data.value.readiness == TARGET_FIRST {
          graph := graph[sourceName := AppendUnique(Deps(graph, sourceName), targetName)];
        } else if edge.data.value.readiness == SOURCE_FIRST {
          graph := graph[targetName := AppendUnique(Deps(graph, targetName), sourceName)];
        }
      }
    }
    assert edges[..|edges|] == edges;
  }

  lemma EmptyGraphSnoc(nodes: seq<FlowNode>, i: nat)
    requires i < |nodes|
    ensures EmptyGraph(nodes[..i + 1]) == EmptyGraph(nodes[..i])[ServiceName(nodes[i].title) := []]
  {
    NamesSnoc(nodes, i);
  }

  lemma NamesSnoc(nodes: seq<FlowNode>, i: nat)
    requires i < |nodes|
    ensures ServiceNames(nodes[..i + 1]) == ServiceNames(nodes[..i]) + {ServiceName(nodes[i].title)}
  {
    assert nodes[..i + 1][i] == nodes[i];
    assert forall k :: 0 <= k < i ==> nodes[..i + 1][k] == nodes[..i][k];
  }

  method AddCandidates(before: Aliases, candidates: seq<string>, sanitized: string) returns (aliases: Aliases)
    ensures aliases == WithCandidates(before, candidates, sanitized)
  {
    aliases := before;
    for k := 0 to |candidates|
      invariant aliases == WithCandidates(before, candidates[..k], sanitized)
    {
      assert candidates[..k + 1][..k] == candidates[..k];
      if candidates[k] != "" {
        aliases := aliases[candidates[k] := sanitized];
        aliases := aliases[ToLower(candidates[k]) := sanitized];
      }
    }
    assert candidates[..|candidates|] == candidates;
  }

  method BuildServiceAliasMap(nodes: seq<FlowNode>) returns (aliases: Aliases)
    ensures aliases == AliasMap(nodes)
  {
    aliases := map[];
    for i := 0 to |nodes|
      invariant aliases == AliasMap(nodes[..i])
    {
      assert nodes[..i + 1][..i] == nodes[..i];
      var node := nodes[i];
      var sanitized := SanitizeName(if !Blank(node.title) then node.title else if !Blank(node.id) then node.id else "");
      var candidates := [node.title, node.id, sanitized, TrimSpace(node.title), TrimSpace(node.id)];
      aliases := AddCandidates(aliases, candidates, sanitized);
    }
    assert nodes[..|nodes|] == nodes;
  }

  /** One reference, checked against what the service may rely on. */
  method CheckReference(inner: string, name: string, aliases: Aliases, reachable: set<string>, ghost g: Graph)
    returns (bad: Option<string>)
    requires forall x :: x in reachable <==> Requires(g, name, x)
    ensures bad.None? <==> RefReady(g, aliases, name, inner)
  {
    if !HasField(inner) {
      return None;
    }
    var token := TrimSpace(Token(inner));
    var referenced := Alias(aliases, token);
    if referenced == "" {
      referenced := Alias(aliases, ToLower(token));
    }
    return if referenced == "" || referenced == name || referenced in reachable then None else Some(referenced);
  }

  /** The references in one string. */
  method CheckValue(value: string, name: string, aliases: Aliases, reachable: set<string>, ghost g: Graph)
    returns (bad: Option<string>)
    requires forall x :: x in reachable <==> Requires(g, name, x)
    ensures bad.None? <==> TextReady(g, aliases, name)(value)
  {
    var segments := Scan(value);
    ghost var ready := SegmentReady(g, aliases, name);
    for k := 0 to |segments|
      invariant All(segments, k, ready)
    {
      AllStep(segments, ready, k);
      if segments[k].Ref? {
        bad := CheckReference(segments[k].inner, name, aliases, reachable, g);
        if bad.Some? {
          return;
        }
      }
    }
    return None;
  }

  method CheckNodeReferences(node: FlowNode, aliases: Aliases, graph: Graph) returns (bad: Option<BundleError>)
    ensures bad.None? <==> NodeReady(graph, aliases, node)
  {
    var serviceName := SanitizeName(node.title);
    var reachable := TransitiveDependencies(graph, serviceName);
    var values := ValuesOf(node);
    ghost var ready := TextReady(graph, aliases, serviceName);
    for k := 0 to |values|
      invariant All(values, k, ready)
    {
      AllStep(values, ready, k);
      var referenced := CheckValue(values[k], serviceName, aliases, reachable, graph);
      if referenced.Some? {
        return Some(NotReady(serviceName, referenced.value));
      }
    }
    return None;
  }

  method CheckReferences(nodes: seq<FlowNode>, aliases: Aliases, graph: Graph, ghost ready: FlowNode -> bool)
    returns (bad: Option<BundleError>)
    requires forall node {:trigger NodeReady(graph, aliases, node)} :: ready(node) <==> NodeReady(graph, aliases, node)
    ensures bad.None? <==> All(nodes, |nodes|, ready)
  {
    for i := 0 to |nodes|
      invariant All(nodes, i, ready)
    {
      AllStep(nodes, ready, i);
      bad := CheckNodeReferences(nodes[i], aliases, graph);
      if bad.Some? {
        return;
      }
    }
    return None;
  }

  method ValidateRuntimeReferenceReadiness(nodes: seq<FlowNode>, graph: Graph) returns (bad: Option<BundleError>)
    ensures bad.None? <==> All(nodes, |nodes|, Ready(graph, AliasMap(nodes)))
  {
    var aliases := BuildServiceAliasMap(nodes);
    bad := CheckReferences(nodes, aliases, graph, Ready(graph, aliases));
  }

  /** The checks on one node, given what earlier nodes have used up. */
  method CheckNode(node: FlowNode, ids: set<string>, names: set<string>) returns (bad: Option<BundleError>)
    ensures bad.None? <==> NodeOk(node) && node.id !in ids && ServiceName(node.title) !in names
  {
    if Blank(node.id) {
      return Some(BlankNodeId);
    }
    if node.id in ids {
      return Some(DuplicateNodeId(node.id));
    }
    if Blank(node.title) {
      return Some(BlankTitle);
    }
    var serviceName := SanitizeName(node.title);
    if serviceName == "" {
      return Some(EmptyServiceName(node.title));
    }
    if serviceName in names {
      return Some(DuplicateServiceName(serviceName));
    }
    if Blank(node.kind) || !SupportedKind(node.kind) {
      return Some(BadServiceType(node.title));
    }
    if node.kind == "generic" && Blank(node.image) {
      return Some(MissingImage(node.title));
    }
    if !node.runtimeOk {
      return Some(BadRuntime(node.title));
    }
    return None;
  }

  method CheckNodes(nodes: seq<FlowNode>) returns (bad: Option<BundleError>, ids: set<string>)
    ensures bad.None? <==> NodesOk(nodes)
    ensures bad.None? ==> forall id :: id in ids <==> HasNode(nodes, id)
  {
    ids := {};
    var names: set<string> := {};
    for i := 0 to |nodes|
      invariant All(nodes, i, NodeOk)
      invariant Unique(IdsOf(nodes)[..i]) && ids == Elems(IdsOf(nodes)[..i])
      invariant Unique(NamesOf(nodes)[..i]) && names == Elems(NamesOf(nodes)[..i])
    {
      DistinctStep(nodes, IdsOf(nodes), NodeOk, i);
      UniqueStep(NamesOf(nodes), i);
      bad := CheckNode(nodes[i], ids, names);
      if bad.Some? {
        return;
      }
      ids := ids + {nodes[i].id};
      var serviceName := SanitizeName(nodes[i].title);
      names := names + {serviceName};
    }
    bad := None;
    assert IdsOf(nodes)[..|nodes|] == IdsOf(nodes) && NamesOf(nodes)[..|nodes|] == NamesOf(nodes);
    forall id
      ensures id in ids <==> HasNode(nodes, id)
    {
      if HasNode(nodes, id) {
        var i :| 0 <= i < |nodes| && nodes[i].id == id;
        assert IdsOf(nodes)[i] == id;
      }
    }
  }

  method CheckEdges(nodes: seq<FlowNode>, ids: set<string>, edges: seq<FlowEdge>) returns (bad: Option<BundleError>)
    requires forall id :: id in ids <==> HasNode(nodes, id)
    ensures bad.None? <==> EdgesOk(nodes, edges)
  {
    var edgeIds: set<string> := {};
    for i := 0 to |edges|
      invariant forall k :: 0 <= k < i ==> edges[k].source in ids && edges[k].target in ids && edges[k].source != edges[k].target
      invariant forall k :: 0 <= k < i && edges[k].id != "" ==> edges[k].id in edgeIds
      invariant forall id :: id in edgeIds ==> id != "" && exists k :: 0 <= k < i && edges[k].id == id
      invariant forall j, k :: 0 <= j < k < i && edges[j].id != "" ==> edges[j].id != edges[k].id
    {
      var edge := edges[i];
      if edge.id != "" {
        if edge.id in edgeIds {
          return Some(DuplicateEdgeId(edge.id));
        }
        edgeIds := edgeIds + {edge.id};
      }
      if edge.source !in ids {
        return Some(UnknownNode(edge.id, edge.source));
      }
      if edge.target !in ids {
        return Some(UnknownNode(edge.id, edge.target));
      }
      if edge.source == edge.target {
        return Some(SelfEdge(edge.id));
      }
    }
    return None;
  }

  /** validateWorkflowGraph accepts exactly the graphs that are GraphOk. */
  method ValidateWorkflowGraph(nodes: seq<FlowNode>, edges: seq<FlowEdge>) returns (bad: Option<BundleError>)
    ensures bad.None? <==> GraphOk(nodes, edges)
  {
    if |nodes| == 0 {
      return Some(NoNodes);
    }
    var badNode, ids := CheckNodes(nodes);
    if badNode.Some? {
      return badNode;
    }
    var badEdge := CheckEdges(nodes, ids, edges);
    if badEdge.Some? {
      return badEdge;
    }
    var graph := BuildServiceDependencies(nodes, edges);
    var cycles := DetectCycles(graph);
    if |cycles| > 0 {
      return Some(CircularDependencies(cycles));
    }
    bad := ValidateRuntimeReferenceReadiness(nodes, graph);
  }

  // ---- Scenarios -------------------------------------------------------------------

  method CheckTargets(targets: seq<string>, names: set<string>) returns (ok: bool)
    ensures ok <==> (forall i :: 0 <= i < |targets| ==> !Blank(targets[i]) && targets[i] in names) && Unique(targets)
  {
    var seen: set<string> := {};
    for i := 0 to |targets|
      invariant forall k :: 0 <= k < i ==> !Blank(targets[k]) && targets[k] in names
      invariant Unique(targets[..i]) && seen == Elems(targets[..i])
    {
      UniqueStep(targets, i);
      if Blank(targets[i]) || targets[i] in seen || targets[i] !in names {
        return false;
      }
      seen := seen + {targets[i]};
    }
    assert targets[..|targets|] == targets;
    return true;
  }

  method CheckTest(t: TestDefinition, names: set<string>, tests: seq<TestDefinition>) returns (ok: bool)
    ensures ok <==> Fits(names, tests)(t)
  {
    if Blank(t.id) || Blank(t.name) || !SupportedTest(t.kind) || t.targets == [] {
      return false;
    }
    var targetsOk := CheckTargets(t.targets, names);
    if !targetsOk {
      return false;
    }
    for i := 0 to |t.dependsOn|
      invariant forall k :: 0 <= k < i ==> t.dependsOn[k] != t.id && HasTest(tests, t.dependsOn[k])
    {
      if t.dependsOn[i] == t.id || !HasTest(tests, t.dependsOn[i]) {
        return false;
      }
    }
    return t.configOk;
  }

  method BuildTestGraph(tests: seq<TestDefinition>) returns (graph: Graph)
    ensures graph == TestGraph(tests)
  {
    graph := map[];
    for i := 0 to |tests|
      invariant graph == TestGraph(tests[..i])
    {
      assert tests[..i + 1][..i] == tests[..i];
      graph := graph[tests[i].id := tests[i].dependsOn];
    }
    assert tests[..|tests|] == tests;
  }

  /** The loop over testOrder: given a right length, every test exactly once. */
  method CheckOrder(order: seq<string>, ids: set<string>) returns (ok: bool)
    ensures ok <==> Unique(order) && forall i :: 0 <= i < |order| ==> order[i] in ids
  {
    var seen: set<string> := {};
    for i := 0 to |order|
      invariant Unique(order[..i]) && seen == Elems(order[..i])
      invariant forall k :: 0 <= k < i ==> order[k] in ids
    {
      UniqueStep(order, i);
      if order[i] in seen || order[i] !in ids {
        return false;
      }
      seen := seen + {order[i]};
    }
    assert order[..|order|] == order;
    return true;
  }

  method CheckTests(tests: seq<TestDefinition>, names: set<string>) returns (ok: bool, ids: set<string>)
    ensures ok <==>
              && All(tests, |tests|, Fits(names, tests))
              && Unique(TestIds(tests)) && Unique(TestNames(tests))
    ensures ok ==> ids == Elems(TestIds(tests))
  {
    ids := {};
    var testNames: set<string> := {};
    ghost var fits, idsOf, namesOf := Fits(names, tests), TestIds(tests), TestNames(tests);
    for i := 0 to |tests|
      invariant All(tests, i, fits)
      invariant Unique(idsOf[..i]) && ids == Elems(idsOf[..i])
      invariant Unique(namesOf[..i]) && testNames == Elems(namesOf[..i])
    {
      DistinctStep(tests, idsOf, fits, i);
      UniqueStep(namesOf, i);
      if tests[i].id in ids || tests[i].name in testNames {
        return false, ids;
      }
      var testOk := CheckTest(tests[i], names, tests);
      if !testOk {
        return false, ids;
      }
      ids := ids + {tests[i].id};
      testNames := testNames + {tests[i].name};
    }
    assert idsOf[..|tests|] == idsOf && namesOf[..|tests|] == namesOf;
    ok := true;
  }

  /** validateScenario accepts exactly the scenarios that are ScenarioOk. */
  method ValidateScenario(names: set<string>, sc: Scenario) returns (ok: bool)
    ensures ok <==> ScenarioOk(names, sc)
  {
    if Blank(sc.name) || sc.tests == [] {
      return false;
    }
    var testsOk, ids := CheckTests(sc.tests, names);
    if !testsOk {
      return false;
    }
    var graph := BuildTestGraph(sc.tests);
    var cycles := DetectCycles(graph);
    if |cycles| > 0 || |sc.testOrder| != |sc.tests| {
      return false;
    }
    ok := CheckOrder(sc.testOrder, ids);
  }

  // ---- Validate and TranslateScenario -----------------------------------------------------

  datatype Validation = Accepted(bundle: Bundle) | Rejected(error: BundleError)

  /** `key` is the scenario's trimmed name. */
  method CheckScenario(sc: Scenario, seen: set<string>, names: set<string>, ghost key: string)
    returns (bad: Option<BundleError>, name: string)
    requires key == TrimSpace(sc.name)
    ensures bad.None? <==> key !in seen && ScenarioOk(names, sc)
    ensures name == key
  {
    name := TrimSpace(sc.name);
    if name in seen {
      return Some(DuplicateScenario(name)), name;
    }
    var scenarioOk := ValidateScenario(names, sc);
    if !scenarioOk {
      return Some(BadScenario(name)), name;
    }
    bad := None;
  }

  ghost function Itself(): bool -> bool {
    (b: bool) => b
  }

  /** `keys` are the scenarios' trimmed names, `verdicts` what validateScenario says of each. */
  method CheckScenarios(scenarios: seq<Scenario>, names: set<string>, ghost keys: seq<string>, ghost verdicts: seq<bool>)
    returns (bad: Option<BundleError>)
    requires |keys| == |scenarios| == |verdicts|
    requires forall i :: 0 <= i < |keys| ==> keys[i] == TrimSpace(scenarios[i].name)
    requires forall i {:trigger ScenarioOk(names, scenarios[i])} ::
               0 <= i < |scenarios| ==> (verdicts[i] <==> ScenarioOk(names, scenarios[i]))
    ensures bad.None? <==> All(verdicts, |verdicts|, Itself()) && Unique(keys)
  {
    var seen: set<string> := {};
    for i := 0 to |scenarios|
      invariant All(verdicts, i, Itself()) && Unique(keys[..i])
      invariant seen == Elems(keys[..i])
    {
      DistinctStep(verdicts, keys, Itself(), i);
      var name;
      bad, name := CheckScenario(scenarios[i], seen, names, keys[i]);
      if bad.Some? {
        return;
      }
      seen := seen + {name};
    }
    assert keys[..|scenarios|] == keys;
    return None;
  }

  ghost function Verdicts(names: set<string>, scenarios: seq<Scenario>): seq<bool> {
    seq(|scenarios|, i requires 0 <= i < |scenarios| => ScenarioOk(names, scenarios[i]))
  }

  lemma VerdictsDecide(names: set<string>, scenarios: seq<Scenario>)
    ensures All(Verdicts(names, scenarios), |scenarios|, Itself()) <==> All(scenarios, |scenarios|, ScenarioFits(names))
  {
    AllExactly(Verdicts(names, scenarios), |scenarios|, Itself());
    AllExactly(scenarios, |scenarios|, ScenarioFits(names));
    forall i | 0 <= i < |scenarios|
      ensures Itself()(Verdicts(names, scenarios)[i]) <==> ScenarioFits(names)(scenarios[i])
    {
    }
  }

  /** What Validate checks once the bundle is normalized. */
  method CheckNormalized(n: Bundle) returns (bad: Option<BundleError>)
    requires n.schemaVersion == SCHEMA_VERSION
    ensures bad.None? <==> BundleOk(n)
  {
    if n.kind != BUNDLE_KIND {
      return Some(WrongKind);
    }
    if Blank(n.name) {
      return Some(BlankWorkflowName);
    }
    bad := ValidateWorkflowGraph(n.nodes, n.edges);
    if bad.Some? {
      return;
    }
    var names := NamesOfServices(n.nodes);
    if n.scenarios == [] {
      return Some(NoScenarios);
    }
    VerdictsDecide(names, n.scenarios);
    bad := CheckScenarios(n.scenarios, names, ScenarioNames(n.scenarios), Verdicts(names, n.scenarios));
  }

  method Normalize(b: Bundle) returns (r: Validation)
    ensures r.Accepted? ==> NormalizesTo(b, r.bundle)
    ensures r.Rejected? ==> forall n :: !NormalizesTo(b, n)
  {
    if b.schemaVersion != LEGACY_SCHEMA_VERSION && b.schemaVersion != SCHEMA_VERSION {
      return Rejected(UnsupportedSchema(b.schemaVersion));
    }
    var edges := new FlowEdge[|b.edges|](i requires 0 <= i < |b.edges| => b.edges[i]);
    var bad := NormalizeEdges(edges, b.schemaVersion == LEGACY_SCHEMA_VERSION);
    if bad.Some? {
      return Rejected(bad.value);
    }
    return Accepted(b.(schemaVersion := SCHEMA_VERSION, edges := edges[..]));
  }

  /** Validate normalizes the bundle, then accepts it exactly when it is BundleOk. */
  method Validate(b: Bundle) returns (r: Validation)
    ensures r.Accepted? <==> exists n :: NormalizesTo(b, n) && BundleOk(n)
    ensures r.Accepted? ==> NormalizesTo(b, r.bundle) && BundleOk(r.bundle)
  {
    r := Normalize(b);
    if r.Accepted? {
      NormalFormIsUnique(b, r.bundle);
      var bad := CheckNormalized(r.bundle);
      if bad.Some? {
        r := Rejected(bad.value);
      }
    }
  }

  lemma NormalFormIsUnique(b: Bundle, n: Bundle)
    requires NormalizesTo(b, n)
    ensures forall m :: NormalizesTo(b, m) ==> m == n
  {
    forall m | NormalizesTo(b, m)
      ensures m == n
    {
      assert m.edges == n.edges by {
        assert forall i :: 0 <= i < |b.edges| ==> Some(m.edges[i]) == Some(n.edges[i]);
      }
    }
  }

  method NamesOfServices(nodes: seq<FlowNode>) returns (names: set<string>)
    ensures names == ServiceNames(nodes)
  {
    names := {};
    for i := 0 to |nodes|
      invariant names == ServiceNames(nodes[..i])
    {
      NamesSnoc(nodes, i);
      var name := SanitizeName(nodes[i].title);
      names := names + {name};
    }
    assert nodes[..|nodes|] == nodes;
  }
}
