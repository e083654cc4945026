/** Workflow bundles (runner-v2/pkg/workflowbundle/bundle.go): what they hold, what a
    valid one promises, and what its graph and scenarios are translated to. Every loop
    that computes one of these lives in module BundleChecks. */
module Bundles {
  import opened Basics
  import opened Text
  import opened References
  import opened Graphs
  import opened GraphSearch
  import opened ServiceOrder

  /** `runtimeOk` is what validateServiceRuntime says of the node's ports, headers and wait
      strategy. */
  datatype FlowNode = FlowNode(
    id: string, title: string, kind: string, image: string,
    command: seq<string>, env: seq<(string, string)>, scripts: seq<string>, runtimeOk: bool)

  datatype EdgeData = EdgeData(relation: string, readiness: string, needsReview: bool)

  datatype FlowEdge = FlowEdge(id: string, source: string, target: string, data: Option<EdgeData>)

  /** `configOk` is what validateScenarioTestConfig says of the test's configuration. */
  datatype TestDefinition = TestDefinition(
    id: string, name: string, kind: string, targets: seq<string>, dependsOn: seq<string>, configOk: bool)

  datatype Scenario = Scenario(name: string, tests: seq<TestDefinition>, testOrder: seq<string>)

  datatype Bundle = Bundle(
    schemaVersion: int, kind: string, name: string,
    nodes: seq<FlowNode>, edges: seq<FlowEdge>, scenarios: seq<Scenario>)

  const SCHEMA_VERSION: int := 2
  const LEGACY_SCHEMA_VERSION: int := 1
  const BUNDLE_KIND: string := "cots.workflow-bundle"
  const CALLS: string := "calls"
  const SOURCE_FIRST: string := "target_requires_source"
  const TARGET_FIRST: string := "source_requires_target"

  predicate ValidRelation(value: string) {
    value in ["calls", "reads", "writes", "publishes", "consumes"]
  }

  predicate ValidReadiness(value: string) {
    value in ["none", TARGET_FIRST, SOURCE_FIRST]
  }

  predicate SupportedKind(value: string) {
    value in ["generic", "postgres", "mysql", "mariadb", "redis", "memcached", "mongodb",
              "rabbitmq", "kafka", "nginx", "mockserver"]
  }

  predicate SupportedTest(value: string) {
    value in ["http", "database", "document", "cache", "queue", "shell", "delay"]
  }

  // ---- normalize ---------------------------------------------------------------------

  /** The edge with its defaults filled in, or None when it names an unknown relation or
      readiness. */
  function NormalEdge(edge: FlowEdge, legacyBundle: bool): Option<FlowEdge> {
    var data := if edge.data.Some? then edge.data.value else EdgeData("", "", false);
    if data.relation != "" && !ValidRelation(data.relation) then None
    else if data.readiness != "" && !ValidReadiness(data.readiness) then None
    else
      var incomplete := edge.data.None? || data.relation == "" || data.readiness == "";
      Some(edge.(data := Some(EdgeData(
        if data.relation == "" then CALLS else data.relation,
        if data.readiness == "" then TARGET_FIRST else data.readiness,
        data.needsReview || legacyBundle || incomplete))))
  }

  /** A normalized edge states its readiness, and normalizing it again changes nothing. */
  lemma NormalEdgeIsStable(edge: FlowEdge, legacyBundle: bool)
    requires NormalEdge(edge, legacyBundle).Some?
    ensures
      var e := NormalEdge(edge, legacyBundle).value;
      && e.data.Some? && ValidRelation(e.data.value.relation) && ValidReadiness(e.data.value.readiness)
      && NormalEdge(e, false) == Some(e)
  {
  }

  /** What normalizing does to an edge, in the words of the bundle format: it fails exactly on
      an unknown relation or readiness; a missing relation becomes "calls" and a missing
      readiness "source_requires_target"; what was given is kept; and the edge is marked for
      review exactly when it was marked, the bundle is legacy, or something was missing. */
  lemma NormalEdgeExactly(edge: FlowEdge, legacyBundle: bool)
    ensures
      var relation := if edge.data.Some? then edge.data.value.relation else "";
      var readiness := if edge.data.Some? then edge.data.value.readiness else "";
      var r := NormalEdge(edge, legacyBundle);
      && (r.Some? <==>
            && relation in ["", "calls", "reads", "writes", "publishes", "consumes"]
            && readiness in ["", "none", "source_requires_target", "target_requires_source"])
      && (r.Some? ==>
            var e := r.value;
            && (e.id, e.source, e.target) == (edge.id, edge.source, edge.target) && e.data.Some?
            && e.data.value.relation == (if relation == "" then "calls" else relation)
            && e.data.value.readiness == (if readiness == "" then "source_requires_target" else readiness)
            && (e.data.value.needsReview <==>
                  || (edge.data.Some? && edge.data.value.needsReview)
                  || legacyBundle || relation == "" || readiness == ""))
  {
  }

  // ---- The dependency graph ------------------------------------------------------------

  /** The node an edge end names; a later node replaces an earlier one of the same id. */
  function NodeOf(nodes: seq<FlowNode>, id: string): Option<FlowNode> {
    if nodes == [] then None
    else if nodes[|nodes| - 1].id == id then Some(nodes[|nodes| - 1])
    else NodeOf(nodes[..|nodes| - 1], id)
  }

  function AppendUnique(values: seq<string>, next: string): seq<string> {
    if next in values then values else values + [next]
  }

  /** One edge read as "dependent requires prerequisite", if it states readiness. */
  function Requirement(nodes: seq<FlowNode>, edge: FlowEdge): Option<(string, string)> {
    var source, target := NodeOf(nodes, edge.source), NodeOf(nodes, edge.target);
    if source.None? || target.None? || edge.data.None? then None
    else
      var sourceName, targetName := ServiceName(source.value.title), ServiceName(target.value.title);
      if edge.data.value.readiness == TARGET_FIRST then Some((sourceName, targetName))
      else if edge.data.value.readiness == SOURCE_FIRST then Some((targetName, sourceName))
      else None
  }

  function EmptyGraph(nodes: seq<FlowNode>): Graph {
    map n | n in ServiceNames(nodes) :: []
  }

  function ServiceNames(nodes: seq<FlowNode>): set<string> {
    set i | 0 <= i < |nodes| :: ServiceName(nodes[i].title)
  }

  function WithRequirement(g: Graph, r: Option<(string, string)>): Graph {
    if r.None? then g else g[r.value.0 := AppendUnique(Deps(g, r.value.0), r.value.1)]
  }

  /** buildServiceDependencies. */
  function ServiceDeps(nodes: seq<FlowNode>, edges: seq<FlowEdge>): Graph {
    if edges == [] then EmptyGraph(nodes)
    else WithRequirement(ServiceDeps(nodes, edges[..|edges| - 1]), Requirement(nodes, edges[|edges| - 1]))
  }

  lemma {:induction false} NodeOfIsNode(nodes: seq<FlowNode>, id: string)
    ensures NodeOf(nodes, id).Some? ==> NodeOf(nodes, id).value in nodes && NodeOf(nodes, id).value.id == id
    ensures NodeOf(nodes, id).None? ==> forall i :: 0 <= i < |nodes| ==> nodes[i].id != id
  {
    if nodes != [] {
      NodeOfIsNode(nodes[..|nodes| - 1], id);
    }
  }

  lemma RequirementIsNamed(nodes: seq<FlowNode>, edge: FlowEdge)
    requires Requirement(nodes, edge).Some?
    ensures Requirement(nodes, edge).value.0 in ServiceNames(nodes) && Requirement(nodes, edge).value.1 in ServiceNames(nodes)
  {
    NodeOfIsNode(nodes, edge.source);
    NodeOfIsNode(nodes, edge.target);
  }

  /** Some edge states that `n` requires `d`. */
  ghost predicate Stated(nodes: seq<FlowNode>, edges: seq<FlowEdge>, n: string, d: string) {
    exists e :: e in edges && Requirement(nodes, e) == Some((n, d))
  }

  lemma StatedSnoc(nodes: seq<FlowNode>, edges: seq<FlowEdge>, last: FlowEdge, n: string, d: string)
    ensures Stated(nodes, edges + [last], n, d) <==> Stated(nodes, edges, n, d) || Requirement(nodes, last) == Some((n, d))
  {
    var all := edges + [last];
    if Stated(nodes, edges, n, d) {
      var e :| e in edges && Requirement(nodes, e) == Some((n, d));
      assert e in all;
    }
    assert last in all;
  }

  ghost predicate NoRepeats(g: Graph) {
    forall n, i, j :: n in g && 0 <= i < j < |g[n]| ==> g[n][i] != g[n][j]
  }

  lemma AddRequirement(g: Graph, a: string, b: string)
    requires a in g && b in g && NoRepeats(g)
    ensures
      var g' := g[a := AppendUnique(Deps(g, a), b)];
      && NoRepeats(g') && g'.Keys == g.Keys
      && forall n, d :: Edge(g', n, d) <==> Edge(g, n, d) || (n == a && d == b)
  {
  }

  /** The graph has a node per service and exactly the dependencies its edges state, each
      listed once. */
  ghost predicate States(g: Graph, nodes: seq<FlowNode>, edges: seq<FlowEdge>) {
    && g.Keys == ServiceNames(nodes)
    && NoRepeats(g)
    && forall n, d :: Edge(g, n, d) <==> Stated(nodes, edges, n, d)
  }

  lemma StatesStep(g: Graph, nodes: seq<FlowNode>, edges: seq<FlowEdge>, last: FlowEdge, r: Option<(string, string)>)
    requires States(g, nodes, edges) && r == Requirement(nodes, last)
    ensures States(WithRequirement(g, r), nodes, edges + [last])
  {
    if r.Some? {
      RequirementIsNamed(nodes, last);
      AddRequirement(g, r.value.0, r.value.1);
    }
    forall n, d
      ensures Stated(nodes, edges + [last], n, d) <==> Stated(nodes, edges, n, d) || r == Some((n, d))
    {
      StatedSnoc(nodes, edges, last, n, d);
    }
  }

  lemma {:induction false} ServiceDepsStates(nodes: seq<FlowNode>, edges: seq<FlowEdge>)
    ensures States(ServiceDeps(nodes, edges), nodes, edges)
  {
    if edges != [] {
      var front, last := edges[..|edges| - 1], edges[|edges| - 1];
      ServiceDepsStates(nodes, front);
      assert edges == front + [last];
      StatesStep(ServiceDeps(nodes, front), nodes, front, last, Requirement(nodes, last));
    }
  }

  /** The same, and every dependency is itself a service. */
  lemma ServiceDepsExact(nodes: seq<FlowNode>, edges: seq<FlowEdge>)
    ensures States(ServiceDeps(nodes, edges), nodes, edges)
    ensures Declared(ServiceDeps(nodes, edges))
  {
    ServiceDepsStates(nodes, edges);
    var g := ServiceDeps(nodes, edges);
    forall n, d | n in g && d in g[n]
      ensures d in g
    {
      assert Edge(g, n, d) && Stated(nodes, edges, n, d);
      var e :| e in edges && Requirement(nodes, e) == Some((n, d));
      RequirementIsNamed(nodes, e);
    }
  }

  // ---- Aliases and references ------------------------------------------------------------

  /** The name a node's aliases stand for. */
  function AliasTarget(node: FlowNode): string {
    ServiceName(if !Blank(node.title) then node.title else if !Blank(node.id) then node.id else "")
  }

  function WithCandidates(aliases: Aliases, candidates: seq<string>, target: string): Aliases {
    if candidates == [] then aliases
    else
      var before := WithCandidates(aliases, candidates[..|candidates| - 1], target);
      var c := candidates[|candidates| - 1];
      if c == "" then before else before[c := target][ToLower(c) := target]
  }

  function Candidates(node: FlowNode): seq<string> {
    [node.title, node.id, AliasTarget(node), TrimSpace(node.title), TrimSpace(node.id)]
  }

  /** buildServiceAliasMap: later nodes win. */
  function AliasMap(nodes: seq<FlowNode>): Aliases {
    if nodes == [] then map[]
    else WithCandidates(AliasMap(nodes[..|nodes| - 1]), Candidates(nodes[|nodes| - 1]), AliasTarget(nodes[|nodes| - 1]))
  }

  lemma {:induction false} CandidatesTarget(aliases: Aliases, candidates: seq<string>, target: string)
    ensures forall t :: t in WithCandidates(aliases, candidates, target) ==>
                          || WithCandidates(aliases, candidates, target)[t] == target
                          || (t in aliases && WithCandidates(aliases, candidates, target)[t] == aliases[t])
  {
    if candidates != [] {
      CandidatesTarget(aliases, candidates[..|candidates| - 1], target);
    }
  }

  /** The tokens a node lays claim to: its title, its id and its service name, plain, trimmed
      and in lower case. */
  function Tokens(node: FlowNode): set<string> {
    {node.title, node.id, AliasTarget(node), TrimSpace(node.title), TrimSpace(node.id),
     ToLower(node.title), ToLower(node.id), ToLower(AliasTarget(node)), ToLower(TrimSpace(node.title)),
     ToLower(TrimSpace(node.id))} - {""}
  }

  function TokensOf(candidates: seq<string>): set<string> {
    if candidates == [] then {}
    else
      var c := candidates[|candidates| - 1];
      TokensOf(candidates[..|candidates| - 1]) + {c, ToLower(c)} - {""}
  }

  lemma {:induction false} CandidatesSet(aliases: Aliases, candidates: seq<string>, target: string, t: string)
    ensures Lookup(WithCandidates(aliases, candidates, target), t) ==
            if t in TokensOf(candidates) then Some(target) else Lookup(aliases, t)
  {
    if candidates != [] {
      CandidatesSet(aliases, candidates[..|candidates| - 1], target, t);
      assert candidates[|candidates| - 1] != "" ==> ToLower(candidates[|candidates| - 1]) != "";
    }
  }

  lemma TokensOfFive(a: string, b: string, c: string, d: string, e: string)
    ensures TokensOf([a, b, c, d, e]) ==
            {a, b, c, d, e, ToLower(a), ToLower(b), ToLower(c), ToLower(d), ToLower(e)} - {""}
  {
    TokensSnoc([], a);
    TokensSnoc([a], b);
    TokensSnoc([a, b], c);
    TokensSnoc([a, b, c], d);
    TokensSnoc([a, b, c, d], e);
    assert [] + [a] == [a] && [a] + [b] == [a, b] && [a, b] + [c] == [a, b, c] && [a, b, c] + [d] == [a, b, c, d];
    assert [a, b, c, d] + [e] == [a, b, c, d, e];
  }

  lemma TokensSnoc(candidates: seq<string>, c: string)
    ensures TokensOf(candidates + [c]) == TokensOf(candidates) + {c, ToLower(c)} - {""}
  {
    assert (candidates + [c])[..|candidates|] == candidates;
  }

  lemma AliasStep(nodes: seq<FlowNode>, t: string)
    requires nodes != []
    ensures
      var node := nodes[|nodes| - 1];
      Lookup(AliasMap(nodes), t) ==
        if t in Tokens(node) then Some(AliasTarget(node)) else Lookup(AliasMap(nodes[..|nodes| - 1]), t)
  {
    var node := nodes[|nodes| - 1];
    CandidatesSet(AliasMap(nodes[..|nodes| - 1]), Candidates(node), AliasTarget(node), t);
    TokensOfFive(node.title, node.id, AliasTarget(node), TrimSpace(node.title), TrimSpace(node.id));
  }

  function Claiming(t: string): FlowNode -> bool {
    (node: FlowNode) => t in Tokens(node)
  }

  /** The alias map knows exactly the tokens that some node claims, and reads each as the
      service of the last node that claims it. */
  lemma {:induction false} AliasExactly(nodes: seq<FlowNode>, t: string)
    ensures
      var last := LastWith(nodes, Claiming(t));
      Lookup(AliasMap(nodes), t) == if last.Some? then Some(AliasTarget(last.value)) else None
  {
    if nodes != [] {
      AliasExactly(nodes[..|nodes| - 1], t);
      AliasStep(nodes, t);
    }
  }

  /** So the own name of a service refers to it, unless a later node claims it. */
  lemma OwnNameIsKnown(nodes: seq<FlowNode>, i: nat)
    requires i < |nodes| && NodeOk(nodes[i])
    requires forall k :: i < k < |nodes| ==> !Claiming(ServiceName(nodes[i].title))(nodes[k])
    ensures Lookup(AliasMap(nodes), ServiceName(nodes[i].title)) == Some(ServiceName(nodes[i].title))
  {
    OwnNameIsClaimed(nodes[i]);
    AliasExactly(nodes, ServiceName(nodes[i].title));
    LastIs(nodes, Claiming(ServiceName(nodes[i].title)), i);
  }

  lemma OwnNameIsClaimed(node: FlowNode)
    requires NodeOk(node)
    ensures AliasTarget(node) == ServiceName(node.title) && Claiming(ServiceName(node.title))(node)
  {
  }

  /** Every alias stands for one of the nodes. */
  lemma {:induction false} AliasesNameNodes(nodes: seq<FlowNode>)
    ensures forall t :: t in AliasMap(nodes) ==> exists i :: 0 <= i < |nodes| && AliasMap(nodes)[t] == AliasTarget(nodes[i])
  {
    if nodes != [] {
      var front, last := nodes[..|nodes| - 1], nodes[|nodes| - 1];
      AliasesNameNodes(front);
      CandidatesTarget(AliasMap(front), Candidates(last), AliasTarget(last));
      forall t | t in AliasMap(nodes)
        ensures exists i :: 0 <= i < |nodes| && AliasMap(nodes)[t] == AliasTarget(nodes[i])
      {
        if AliasMap(nodes)[t] != AliasTarget(last) {
          var i :| 0 <= i < |front| && AliasMap(front)[t] == AliasTarget(front[i]);
          assert nodes[i] == front[i];
        }
      }
    }
  }

  /** The strings of a node in which references count. */
  function ValuesOf(node: FlowNode): seq<string> {
    node.command + EnvValues(node.env) + node.scripts
  }

  function EnvValues(env: seq<(string, string)>): (r: seq<string>)
    ensures |r| == |env| && forall i :: 0 <= i < |env| ==> r[i] == env[i].1
  {
    seq(|env|, i requires 0 <= i < |env| => env[i].1)
  }

  /** A reference to another known service is to one of the transitive prerequisites. */
  ghost predicate RefReady(g: Graph, aliases: Aliases, name: string, inner: string) {
    HasField(inner) ==>
      var target := ValidatedTarget(aliases, Token(inner));
      target == "" || target == name || Requires(g, name, target)
  }

  ghost function SegmentReady(g: Graph, aliases: Aliases, name: string): Segment -> bool {
    (segment: Segment) => segment.Ref? ==> RefReady(g, aliases, name, segment.inner)
  }

  ghost predicate ValueReady(g: Graph, aliases: Aliases, name: string, value: string) {
    All(Scan(value), |Scan(value)|, SegmentReady(g, aliases, name))
  }

  ghost function TextReady(g: Graph, aliases: Aliases, name: string): string -> bool {
    (value: string) => ValueReady(g, aliases, name, value)
  }

  ghost predicate NodeReady(g: Graph, aliases: Aliases, node: FlowNode) {
    All(ValuesOf(node), |ValuesOf(node)|, TextReady(g, aliases, ServiceName(node.title)))
  }

  /** `value` is one of the strings of the node in which references count. */
  predicate Mentions(node: FlowNode, value: string) {
    value in node.command || value in EnvValues(node.env) || value in node.scripts
  }

  lemma {:induction false} AllExactly<T>(s: seq<T>, n: nat, p: T -> bool)
    requires n <= |s|
    ensures All(s, n, p) <==> forall i :: 0 <= i < n ==> p(s[i])
  {
    if n > 0 {
      AllExactly(s, n - 1, p);
    }
  }

  /** Every reference in the value is ready. */
  ghost predicate RefsReady(g: Graph, aliases: Aliases, name: string, value: string) {
    forall k :: 0 <= k < |Scan(value)| && Scan(value)[k].Ref? ==> RefReady(g, aliases, name, Scan(value)[k].inner)
  }

  lemma ValueReadyExactly(g: Graph, aliases: Aliases, name: string, value: string)
    ensures ValueReady(g, aliases, name, value) <==> RefsReady(g, aliases, name, value)
  {
    var segments, ready := Scan(value), SegmentReady(g, aliases, name);
    AllExactly(segments, |segments|, ready);
    assert forall k :: 0 <= k < |segments| ==>
                         (ready(segments[k]) <==> (segments[k].Ref? ==> RefReady(g, aliases, name, segments[k].inner)));
  }

  /** A node is ready exactly when every reference in its command, its environment and its
      scripts is. */
  lemma NodeReadyExactly(g: Graph, aliases: Aliases, node: FlowNode)
    ensures NodeReady(g, aliases, node) <==>
              forall value :: Mentions(node, value) ==> RefsReady(g, aliases, ServiceName(node.title), value)
  {
    var name, values := ServiceName(node.title), ValuesOf(node);
    var ready := TextReady(g, aliases, name);
    AllExactly(values, |values|, ready);
    forall value
      ensures ready(value) <==> RefsReady(g, aliases, name, value)
      ensures Mentions(node, value) <==> value in values
    {
      ValueReadyExactly(g, aliases, name, value);
    }
    if NodeReady(g, aliases, node) {
      forall value | Mentions(node, value)
        ensures RefsReady(g, aliases, name, value)
      {
        var i :| 0 <= i < |values| && values[i] == value;
        assert ready(values[i]);
      }
    }
    if forall value :: Mentions(node, value) ==> RefsReady(g, aliases, name, value) {
      forall i | 0 <= i < |values|
        ensures ready(values[i])
      {
        assert Mentions(node, values[i]);
      }
    }
  }

  // ---- What validation promises ------------------------------------------------------------

  predicate NodeOk(node: FlowNode) {
    && !Blank(node.id)
    && !Blank(node.title)
    && ServiceName(node.title) != ""
    && !Blank(node.kind)
    && SupportedKind(node.kind)
    && (node.kind == "generic" ==> !Blank(node.image))
    && node.runtimeOk
  }

  ghost predicate NodesOk(nodes: seq<FlowNode>) {
    && All(nodes, |nodes|, NodeOk)
    && Unique(IdsOf(nodes))
    && Unique(NamesOf(nodes))
  }

  function IdsOf(nodes: seq<FlowNode>): (r: seq<string>)
    ensures |r| == |nodes| && forall i :: 0 <= i < |nodes| ==> r[i] == nodes[i].id
  {
    seq(|nodes|, i requires 0 <= i < |nodes| => nodes[i].id)
  }

  function NamesOf(nodes: seq<FlowNode>): (r: seq<string>)
    ensures |r| == |nodes| && forall i :: 0 <= i < |nodes| ==> r[i] == ServiceName(nodes[i].title)
  {
    seq(|nodes|, i requires 0 <= i < |nodes| => ServiceName(nodes[i].title))
  }

  ghost predicate HasNode(nodes: seq<FlowNode>, id: string) {
    exists i :: 0 <= i < |nodes| && nodes[i].id == id
  }

  ghost predicate EdgesOk(nodes: seq<FlowNode>, edges: seq<FlowEdge>) {
    && (forall i :: 0 <= i < |edges| ==>
          HasNode(nodes, edges[i].source) && HasNode(nodes, edges[i].target) && edges[i].source != edges[i].target)
    && (forall i, j :: 0 <= i < j < |edges| && edges[i].id != "" ==> edges[i].id != edges[j].id)
  }

  /** validateWorkflowGraph accepts. */
  ghost predicate GraphOk(nodes: seq<FlowNode>, edges: seq<FlowEdge>) {
    && nodes != []
    && NodesOk(nodes)
    && EdgesOk(nodes, edges)
    && Acyclic(ServiceDeps(nodes, edges))
    && All(nodes, |nodes|, Ready(ServiceDeps(nodes, edges), AliasMap(nodes)))
  }

  ghost function Ready(g: Graph, aliases: Aliases): FlowNode -> bool {
    (node: FlowNode) => NodeReady(g, aliases, node)
  }

  lemma NoDependenciesNoCycle(g: Graph)
    requires forall n :: Deps(g, n) == []
    ensures Acyclic(g)
  {
    forall p
      ensures !Cycle(g, p)
    {
      assert |p| >= 2 && Walk(g, p) ==> Edge(g, p[0], p[1]);
    }
  }

  lemma {:induction false} NoValuesAreReady(g: Graph, aliases: Aliases, nodes: seq<FlowNode>, n: nat)
    requires n <= |nodes| && forall i :: 0 <= i < |nodes| ==> ValuesOf(nodes[i]) == []
    ensures All(nodes, n, Ready(g, aliases))
  {
    if n > 0 {
      NoValuesAreReady(g, aliases, nodes, n - 1);
      assert NodeReady(g, aliases, nodes[n - 1]);
    }
  }

  /** Nodes without edges, commands, environment and scripts need no more than to be sound. */
  lemma PlainGraphIsOk(nodes: seq<FlowNode>)
    requires nodes != [] && NodesOk(nodes)
    requires forall i :: 0 <= i < |nodes| ==> ValuesOf(nodes[i]) == []
    ensures GraphOk(nodes, [])
  {
    NoDependenciesNoCycle(ServiceDeps(nodes, []));
    NoValuesAreReady(ServiceDeps(nodes, []), AliasMap(nodes), nodes, |nodes|);
  }

  lemma AliasesAreServices(nodes: seq<FlowNode>)
    requires NodesOk(nodes)
    ensures SlugAliases(AliasMap(nodes))
    ensures forall t :: t in AliasMap(nodes) ==> AliasMap(nodes)[t] in ServiceNames(nodes) && AliasMap(nodes)[t] != ""
  {
    AliasesNameNodes(nodes);
    forall t | t in AliasMap(nodes)
      ensures IsSlug(AliasMap(nodes)[t]) && AliasMap(nodes)[t] in ServiceNames(nodes) && AliasMap(nodes)[t] != ""
    {
      var i :| 0 <= i < |nodes| && AliasMap(nodes)[t] == AliasTarget(nodes[i]);
      AllAt(nodes, |nodes|, NodeOk, i);
      ServiceNameIsSlug(nodes[i].title);
    }
  }

  // ---- Scenarios ------------------------------------------------------------------------------

  function AllTargets(tests: seq<TestDefinition>): seq<string> {
    if tests == [] then [] else AllTargets(tests[..|tests| - 1]) + tests[|tests| - 1].targets
  }

  ghost predicate TestOk(names: set<string>, tests: seq<TestDefinition>, t: TestDefinition) {
    && !Blank(t.id) && !Blank(t.name) && SupportedTest(t.kind) && t.configOk
    && t.targets != []
    && (forall i :: 0 <= i < |t.targets| ==> !Blank(t.targets[i]) && t.targets[i] in names)
    && Unique(t.targets)
    && (forall i :: 0 <= i < |t.dependsOn| ==> t.dependsOn[i] != t.id && HasTest(tests, t.dependsOn[i]))
  }

  ghost function Fits(names: set<string>, tests: seq<TestDefinition>): TestDefinition -> bool {
    (t: TestDefinition) => TestOk(names, tests, t)
  }

  function TestIds(tests: seq<TestDefinition>): (r: seq<string>)
    ensures |r| == |tests| && forall i :: 0 <= i < |tests| ==> r[i] == tests[i].id
  {
    seq(|tests|, i requires 0 <= i < |tests| => tests[i].id)
  }

  function TestNames(tests: seq<TestDefinition>): (r: seq<string>)
    ensures |r| == |tests| && forall i :: 0 <= i < |tests| ==> r[i] == tests[i].name
  {
    seq(|tests|, i requires 0 <= i < |tests| => tests[i].name)
  }

  predicate HasTest(tests: seq<TestDefinition>, id: string) {
    exists i :: 0 <= i < |tests| && tests[i].id == id
  }

  function TestGraph(tests: seq<TestDefinition>): Graph {
    if tests == [] then map[]
    else TestGraph(tests[..|tests| - 1])[tests[|tests| - 1].id := tests[|tests| - 1].dependsOn]
  }

  /** The targets of a scenario are exactly those of its tests. */
  lemma {:induction false} TargetsExactly(tests: seq<TestDefinition>, x: string)
    ensures x in AllTargets(tests) <==> exists i :: 0 <= i < |tests| && x in tests[i].targets
  {
    if tests != [] {
      var n := |tests| - 1;
      TargetsExactly(tests[..n], x);
      assert forall i :: 0 <= i < n ==> tests[..n][i] == tests[i];
    }
  }

  /** With unique ids the test graph maps each test to what it depends on, and holds no other. */
  lemma {:induction false} TestGraphExactly(tests: seq<TestDefinition>)
    requires Unique(TestIds(tests))
    ensures forall i :: 0 <= i < |tests| ==> tests[i].id in TestGraph(tests) && TestGraph(tests)[tests[i].id] == tests[i].dependsOn
    ensures forall id :: id in TestGraph(tests) <==> HasTest(tests, id)
  {
    if tests != [] {
      var n := |tests| - 1;
      var front := tests[..n];
      assert TestIds(front) == TestIds(tests)[..n];
      TestGraphExactly(front);
      assert forall i :: 0 <= i < n ==> front[i] == tests[i];
      forall i | 0 <= i < n
        ensures tests[i].id != tests[n].id
      {
        assert TestIds(tests)[i] != TestIds(tests)[n];
      }
      forall id
        ensures id in TestGraph(tests) <==> HasTest(tests, id)
      {
        if HasTest(front, id) {
          var i :| 0 <= i < n && front[i].id == id;
          assert tests[i].id == id;
        }
      }
    }
  }

  /** validateScenario accepts. */
  ghost predicate ScenarioOk(names: set<string>, sc: Scenario) {
    && !Blank(sc.name)
    && sc.tests != []
    && All(sc.tests, |sc.tests|, Fits(names, sc.tests))
    && Unique(TestIds(sc.tests))
    && Unique(TestNames(sc.tests))
    && Acyclic(TestGraph(sc.tests))
    && |sc.testOrder| == |sc.tests|
    && Unique(sc.testOrder)
    && (forall i :: 0 <= i < |sc.testOrder| ==> sc.testOrder[i] in TestIds(sc.tests))
  }

  /** Each of the tests depends on the next, and the last is the first again. */
  ghost predicate TestCircle(tests: seq<TestDefinition>, circle: seq<TestDefinition>) {
    && |circle| >= 2 && circle[0] == circle[|circle| - 1]
    && (forall i :: 0 <= i < |circle| ==> circle[i] in tests)
    && forall i, j :: 0 <= i && j == i + 1 < |circle| ==> circle[j].id in circle[i].dependsOn
  }

  /** A scenario whose tests depend on each other in a circle is refused. */
  lemma CircularTestsAreRefused(names: set<string>, sc: Scenario, circle: seq<TestDefinition>)
    requires TestCircle(sc.tests, circle)
    ensures !ScenarioOk(names, sc)
  {
    if ScenarioOk(names, sc) {
      CircleIsCycle(sc.tests, circle);
    }
  }

  lemma CircleIsCycle(tests: seq<TestDefinition>, circle: seq<TestDefinition>)
    requires Unique(TestIds(tests)) && TestCircle(tests, circle)
    ensures Cycle(TestGraph(tests), TestIds(circle))
  {
    var g, p := TestGraph(tests), TestIds(circle);
    TestGraphExactly(tests);
    forall i, j | 0 <= i && j == i + 1 < |p|
      ensures Edge(g, p[i], p[j])
    {
      var k :| 0 <= k < |tests| && tests[k] == circle[i];
      assert g[tests[k].id] == circle[i].dependsOn;
    }
  }

  ghost function ScenarioFits(names: set<string>): Scenario -> bool {
    (sc: Scenario) => ScenarioOk(names, sc)
  }

  function ScenarioNames(scenarios: seq<Scenario>): (r: seq<string>)
    ensures |r| == |scenarios| && forall i :: 0 <= i < |scenarios| ==> r[i] == TrimSpace(scenarios[i].name)
  {
    seq(|scenarios|, i requires 0 <= i < |scenarios| => TrimSpace(scenarios[i].name))
  }

  /** Validate accepts a normalized bundle. */
  ghost predicate BundleOk(b: Bundle) {
    && b.schemaVersion == SCHEMA_VERSION
    && b.kind == BUNDLE_KIND
    && !Blank(b.name)
    && GraphOk(b.nodes, b.edges)
    && b.scenarios != []
    && All(b.scenarios, |b.scenarios|, ScenarioFits(ServiceNames(b.nodes)))
    && Unique(ScenarioNames(b.scenarios))
  }

  /** normalize succeeds and turns `b` into `n`. */
  ghost predicate NormalizesTo(b: Bundle, n: Bundle) {
    && (b.schemaVersion == LEGACY_SCHEMA_VERSION || b.schemaVersion == SCHEMA_VERSION)
    && n == b.(schemaVersion := SCHEMA_VERSION, edges := n.edges)
    && |n.edges| == |b.edges|
    && forall i :: 0 <= i < |b.edges| ==>
                     NormalEdge(b.edges[i], b.schemaVersion == LEGACY_SCHEMA_VERSION) == Some(n.edges[i])
  }

  // ---- Translation ------------------------------------------------------------------------------

  datatype Service = Service(
    id: string, name: string, dependsOn: seq<string>,
    command: seq<string>, env: map<string, string>, scripts: seq<string>)

  function NormalizedAll(aliases: Aliases, values: seq<string>): seq<string> {
    seq(|values|, i requires 0 <= i < |values| => Normalized(aliases, values[i]))
  }

  function EnvMap(aliases: Aliases, env: seq<(string, string)>): map<string, string> {
    if env == [] then map[]
    else
      var before := EnvMap(aliases, env[..|env| - 1]);
      var (key, value) := env[|env| - 1];
      if Blank(key) then before else before[TrimSpace(key) := Normalized(aliases, value)]
  }

  function TranslateNode(nodes: seq<FlowNode>, g: Graph, node: FlowNode): Service {
    var name, aliases := ServiceName(node.title), AliasMap(nodes);
    Service(node.id, name, Deps(g, name), NormalizedAll(aliases, node.command),
            EnvMap(aliases, node.env), NormalizedAll(aliases, node.scripts))
  }

  /** An entry that sets variable `key`. */
  function Setting(key: string): ((string, string)) -> bool {
    (entry: (string, string)) => !Blank(entry.0) && TrimSpace(entry.0) == key
  }

  /** A variable is set exactly if some entry sets it, to the rewritten value of the last one
      that does. */
  lemma {:induction false} EnvExactly(aliases: Aliases, env: seq<(string, string)>, key: string)
    ensures
      var last := LastWith(env, Setting(key));
      Lookup(EnvMap(aliases, env), key) == if last.Some? then Some(Normalized(aliases, last.value.1)) else None
  {
    if env != [] {
      EnvExactly(aliases, env[..|env| - 1], key);
    }
  }

  /** What a translated string says: the same text, each reference rewritten, none made up. */
  ghost predicate Says(aliases: Aliases, text: string, value: string) {
    Scan(text) == RewriteAll(aliases, Scan(value))
  }

  /** A service is what its node says: same id, the node's service name and that name's
      dependencies, and every string of its command and scripts in the same place, with its
      references rewritten. */
  lemma TranslationExactly(nodes: seq<FlowNode>, g: Graph, node: FlowNode)
    requires NodesOk(nodes)
    ensures
      var service, aliases := TranslateNode(nodes, g, node), AliasMap(nodes);
      && service.id == node.id && service.name == ServiceName(node.title) && service.dependsOn == Deps(g, service.name)
      && |service.command| == |node.command| && |service.scripts| == |node.scripts|
      && (forall k :: 0 <= k < |node.command| ==> Says(aliases, service.command[k], node.command[k]))
      && (forall k :: 0 <= k < |node.scripts| ==> Says(aliases, service.scripts[k], node.scripts[k]))
  {
    AliasesAreServices(nodes);
    var aliases := AliasMap(nodes);
    forall value
      ensures Says(aliases, Normalized(aliases, value), value)
    {
      RewritingIsStable(aliases, value);
    }
  }

  function Translated(nodes: seq<FlowNode>, g: Graph): (r: seq<Service>)
    ensures |r| == |nodes| && forall i :: 0 <= i < |nodes| ==> r[i] == TranslateNode(nodes, g, nodes[i])
  {
    seq(|nodes|, i requires 0 <= i < |nodes| => TranslateNode(nodes, g, nodes[i]))
  }

  function NameOf(): Service -> string {
    (s: Service) => s.name
  }

  /** translateServices: the services of all nodes, in the order of their names. */
  function AllServices(nodes: seq<FlowNode>, g: Graph): (r: seq<Service>)
    ensures |r| == |nodes|
  {
    SortedMembers(Translated(nodes, g), NameOf());
    Sorted(Translated(nodes, g), NameOf())
  }

  /** Those of them whose name is in `required`. */
  function ServicesIn(nodes: seq<FlowNode>, g: Graph, required: set<string>): seq<Service> {
    Chosen(AllServices(nodes, g), required, NameOf(), |nodes|)
  }

  /** A service is chosen exactly if it is that of a node with a required name. */
  lemma ServicesExactly(nodes: seq<FlowNode>, g: Graph, required: set<string>, s: Service)
    ensures s in ServicesIn(nodes, g, required) <==> s in Translated(nodes, g) && s.name in required
  {
    var all := AllServices(nodes, g);
    assert all[..|nodes|] == all;
    ChosenExactly(all, required, NameOf(), |nodes|, s);
    SortedMembers(Translated(nodes, g), NameOf());
  }

  /** The chosen services come in the order of their names, and no two of an accepted bundle
      share one: so they are determined by which they are. */
  lemma ServicesAreSorted(nodes: seq<FlowNode>, g: Graph, required: set<string>)
    ensures
      var services := ServicesIn(nodes, g, required);
      && (forall i, j :: 0 <= i < j < |services| ==> NotAfter(services[i].name, services[j].name))
      && multiset(services) <= multiset(Translated(nodes, g))
  {
    var all := AllServices(nodes, g);
    SortedInOrder(Translated(nodes, g), NameOf());
    ChosenInOrder(all, required, NameOf());
    SortedHolds(Translated(nodes, g), NameOf());
    assert all[..|nodes|] == all;
    ChosenIsPart(all, required, |nodes|);
    var services := ServicesIn(nodes, g, required);
    forall i, j | 0 <= i < j < |services|
      ensures NotAfter(services[i].name, services[j].name)
    {
      assert NotAfter(NameOf()(services[i]), NameOf()(services[j]));
    }
  }

  lemma {:induction false} ChosenIsPart(all: seq<Service>, required: set<string>, n: nat)
    requires n <= |all|
    ensures multiset(Chosen(all, required, NameOf(), n)) <= multiset(all[..n])
  {
    if n > 0 {
      ChosenIsPart(all, required, n - 1);
      assert all[..n] == all[..n - 1] + [all[n - 1]];
    }
  }

  /** What the orchestrator's AddNode loop builds from a list of services. */
  function GraphOf(services: seq<Service>): Graph {
    if services == [] then map[]
    else GraphOf(services[..|services| - 1])[services[|services| - 1].name := services[|services| - 1].dependsOn]
  }

  /** A service set closed under dependencies keeps its part of the graph. */
  ghost predicate PartOf(g: Graph, required: set<string>, h: Graph) {
    h.Keys == required && forall n :: n in required ==> h[n] == Deps(g, n)
  }

  lemma {:induction false} GraphOfUniform(g: Graph, services: seq<Service>)
    requires forall i :: 0 <= i < |services| ==> services[i].dependsOn == Deps(g, services[i].name)
    ensures forall n :: n in GraphOf(services) ==> GraphOf(services)[n] == Deps(g, n)
    ensures forall n :: n in GraphOf(services) <==> exists i :: 0 <= i < |services| && services[i].name == n
  {
    if services != [] {
      var front, last := services[..|services| - 1], services[|services| - 1];
      GraphOfUniform(g, front);
      forall n
        ensures n in GraphOf(services) <==> exists i :: 0 <= i < |services| && services[i].name == n
      {
        if n in GraphOf(front) {
          var i :| 0 <= i < |front| && front[i].name == n;
          assert services[i].name == n;
        }
        if i :| 0 <= i < |services| && services[i].name == n {
          assert i < |front| ==> front[i].name == n;
        }
      }
    }
  }

  lemma SubsetGraph(nodes: seq<FlowNode>, g: Graph, required: set<string>)
    requires required <= ServiceNames(nodes)
    ensures PartOf(g, required, GraphOf(ServicesIn(nodes, g, required)))
  {
    var services := ServicesIn(nodes, g, required);
    forall k | 0 <= k < |services|
      ensures services[k].dependsOn == Deps(g, services[k].name) && services[k].name in required
    {
      ServicesExactly(nodes, g, required, services[k]);
    }
    GraphOfUniform(g, services);
    forall n | n in required
      ensures n in GraphOf(services)
    {
      var i :| 0 <= i < |nodes| && ServiceName(nodes[i].title) == n;
      var s := Translated(nodes, g)[i];
      ServicesExactly(nodes, g, required, s);
      assert s in services;
    }
  }

  lemma PartIsSound(g: Graph, required: set<string>, h: Graph)
    requires Declared(g) && Acyclic(g) && Closed(g, required) && required <= g.Keys
    requires PartOf(g, required, h)
    ensures Declared(h) && Acyclic(h)
  {
    SubgraphIsAcyclic(g, h);
  }

  /** Inside a closed part, prerequisites are the same as in the whole graph. */
  lemma PartRequires(g: Graph, required: set<string>, h: Graph, n: string, x: string)
    requires Closed(g, required) && PartOf(g, required, h) && n in required
    requires Requires(g, n, x)
    ensures Requires(h, n, x)
  {
    var d :| Edge(g, n, d) && Reaches(g, d, x);
    var p :| WalkFrom(g, d, p) && p[|p| - 1] == x;
    PartWalk(g, required, h, p);
    assert Edge(h, n, d) && Reaches(h, d, x);
  }

  lemma {:induction false} PartWalk(g: Graph, required: set<string>, h: Graph, p: seq<string>)
    requires Closed(g, required) && PartOf(g, required, h)
    requires Walk(g, p) && p[0] in required
    ensures Walk(h, p)
    decreases |p|
  {
    if |p| > 1 {
      assert Edge(g, p[0], p[1]);
      WalkSlice(g, p, 1, |p|);
      PartWalk(g, required, h, p[1..]);
      WalkCons(h, p[0], p[1..]);
      assert p == [p[0]] + p[1..];
    }
  }
}
