/** Accepted workflow graphs whose references go astray: one with a blank before its service
    token is rewritten to another name than the one validation checked, and one that names its
    own service is accepted (runner-v2/pkg/workflowbundle/bundle.go). */
module Diversions {
  import opened Basics
  import opened Text
  import opened References
  import opened Graphs
  import opened Bundles

  /** A service without anything to start or to fill in. */
  function Plainly(id: string, title: string): FlowNode {
    FlowNode(id, title, "redis", "", [], [], [], true)
  }

  predicate Name(s: string) {
    IsSlug(s) && s != ""
  }

  // ---- Names with a blank before them ---------------------------------------------------

  lemma BlankIsTrimmed(s: string)
    requires s != "" && !IsSpace(s[0]) && !IsSpace(s[|s| - 1])
    ensures TrimSpace(" " + s) == s && TrimSpace(s) == s
  {
    var t := " " + s;
    assert t[1..] == s;
    assert TrimLeft(t, IsSpace) == TrimLeft(s, IsSpace) == s;
  }

  lemma LowerAfterBlank(s: string)
    ensures ToLower(" " + s) == " " + ToLower(s)
  {
    assert (" " + s)[1..] == s;
  }

  lemma NameIsStable(x: string)
    requires Name(x)
    ensures TrimSpace(x) == x && ToLower(x) == x && ServiceName(x) == x
    ensures TrimSpace(" " + x) == x && ToLower(" " + x) == " " + x && ServiceName(" " + x) == x
    ensures x[0] != ' '
  {
    BlankIsTrimmed(x);
    LowerAfterBlank(x);
    SlugIsStable(x);
    ServiceNameFixpoints(x);
    SameServiceName(" " + x, x);
  }

  lemma NoneIsBlank(x: string)
    requires Name(x)
    ensures !Blank(x) && !Blank(" " + x)
  {
    NameIsStable(x);
  }

  // ---- Alias maps -----------------------------------------------------------------------

  lemma SetAliases(before: Aliases, candidates: seq<string>, target: string, n: nat)
    requires n < |candidates| && candidates[n] != "" && ToLower(candidates[n]) == candidates[n]
    ensures WithCandidates(before, candidates[..n + 1], target)
            == WithCandidates(before, candidates[..n], target)[candidates[n] := target]
  {
    assert candidates[..n + 1][..n] == candidates[..n];
  }

  lemma FiveAliases(before: Aliases, a: string, b: string, target: string, c: string, d: string)
    requires a != "" && b != "" && target != "" && c != "" && d != ""
    requires ToLower(a) == a && ToLower(b) == b && ToLower(target) == target && ToLower(c) == c && ToLower(d) == d
    ensures WithCandidates(before, [a, b, target, c, d], target)
            == before[a := target][b := target][target := target][c := target][d := target]
  {
    var all := [a, b, target, c, d];
    SetAliases(before, all, target, 0);
    SetAliases(before, all, target, 1);
    SetAliases(before, all, target, 2);
    SetAliases(before, all, target, 3);
    SetAliases(before, all, target, 4);
    assert all[..0] == [] && all[..5] == all;
  }

  lemma AliasesOfOne(node: FlowNode)
    ensures AliasMap([node]) == WithCandidates(map[], Candidates(node), AliasTarget(node))
  {
    assert [node][..0] == [];
  }

  lemma AliasesOfTwo(a: FlowNode, b: FlowNode)
    ensures AliasMap([a, b]) == WithCandidates(AliasMap([a]), Candidates(b), AliasTarget(b))
  {
    assert [a, b][..1] == [a];
  }

  lemma CandidatesOfName(id: string, title: string)
    requires Name(id) && Name(title)
    ensures AliasTarget(Plainly(id, title)) == title
    ensures Candidates(Plainly(id, title)) == [title, id, title, title, id]
  {
    NameIsStable(id);
    NameIsStable(title);
  }

  lemma CandidatesAfterBlank(id: string, x: string)
    requires Name(id) && Name(x)
    ensures AliasTarget(Plainly(id, " " + x)) == x
    ensures Candidates(Plainly(id, " " + x)) == [" " + x, id, x, x, id]
  {
    NameIsStable(id);
    NameIsStable(x);
  }

  lemma AliasesOfNamed(x: string, y: string)
    requires Name(x) && Name(y)
    ensures AliasMap([Plainly(x, y)]) == map[x := y, y := y]
  {
    AliasesOfOne(Plainly(x, y));
    CandidatesOfName(x, y);
    NameIsStable(x);
    NameIsStable(y);
    FiveAliases(map[], y, x, y, y, x);
  }

  lemma AliasesOfPair(a: string, x: string, y: string)
    requires Name(a) && Name(x) && Name(y)
    ensures AliasMap([Plainly(a, " " + x), Plainly(x, y)]) == map[" " + x := x, a := x][x := y][y := y]
  {
    var first, second := Plainly(a, " " + x), Plainly(x, y);
    AliasesAfterBlank(a, x);
    AliasesOfTwo(first, second);
    CandidatesOfName(x, y);
    NameIsStable(x);
    NameIsStable(y);
    FiveAliases(map[" " + x := x, a := x, x := x], y, x, y, y, x);
  }

  lemma AliasesAfterBlank(a: string, x: string)
    requires Name(a) && Name(x)
    ensures AliasMap([Plainly(a, " " + x)]) == map[" " + x := x, a := x, x := x]
  {
    AliasesOfOne(Plainly(a, " " + x));
    CandidatesAfterBlank(a, x);
    NameIsStable(a);
    NameIsStable(x);
    FiveAliases(map[], " " + x, a, x, x, a);
  }

  // ---- Accepted graphs --------------------------------------------------------------------

  lemma RedisIsKnown()
    ensures !Blank("redis") && SupportedKind("redis")
  {
    BlankIsTrimmed("redis");
  }

  lemma PlainNodeIsOk(id: string, title: string)
    requires Name(id) && !Blank(title) && Name(ServiceName(title))
    ensures NodeOk(Plainly(id, title))
  {
    NoneIsBlank(id);
    RedisIsKnown();
  }

  lemma OnePlainNode(a: FlowNode)
    requires NodeOk(a) && ValuesOf(a) == []
    ensures GraphOk([a], [])
  {
    assert All([a], 0, NodeOk) && All([a], 1, NodeOk);
    PlainGraphIsOk([a]);
  }

  lemma TwoPlainNodes(a: FlowNode, b: FlowNode)
    requires NodeOk(a) && NodeOk(b) && a.id != b.id && ServiceName(a.title) != ServiceName(b.title)
    requires ValuesOf(a) == [] && ValuesOf(b) == []
    ensures GraphOk([a, b], [])
  {
    AllOfTwo(a, b, NodeOk);
    TwoAreUnique(IdsOf([a, b]));
    TwoAreUnique(NamesOf([a, b]));
    PlainGraphIsOk([a, b]);
  }

  lemma TwoAreUnique(s: seq<string>)
    requires |s| == 2 && s[0] != s[1]
    ensures Unique(s)
  {
  }

  lemma AllOfTwo<T>(a: T, b: T, p: T -> bool)
    requires p(a) && p(b)
    ensures All([a, b], 2, p)
  {
    assert All([a, b], 0, p) && All([a, b], 1, p);
  }

  lemma OneIsAccepted(x: string, y: string)
    requires Name(x) && Name(y) && x != y
    ensures GraphOk([Plainly(x, y)], []) && x !in ServiceNames([Plainly(x, y)])
  {
    NameIsStable(y);
    NoneIsBlank(y);
    PlainNodeIsOk(x, y);
    OnePlainNode(Plainly(x, y));
  }

  lemma PairIsAccepted(a: string, x: string, y: string)
    requires Name(a) && Name(x) && Name(y) && a != x && x != y
    ensures GraphOk([Plainly(a, " " + x), Plainly(x, y)], [])
  {
    NameIsStable(x);
    NameIsStable(y);
    NoneIsBlank(x);
    NoneIsBlank(y);
    PlainNodeIsOk(a, " " + x);
    PlainNodeIsOk(x, y);
    TwoPlainNodes(Plainly(a, " " + x), Plainly(x, y));
  }

  // ---- The two ways to divert a reference ----------------------------------------------------

  lemma ReadRaw(aliases: Aliases, token: string, x: string, y: string)
    requires TrimSpace(token) == x && x != "" && y != ""
    requires Lookup(aliases, token) == Some(x) && Lookup(aliases, x) == Some(y)
    ensures ValidatedTarget(aliases, token) == y && WrittenTarget(aliases, token) == x
  {
  }

  lemma RawTokenTargets(a: string, x: string, y: string)
    requires Name(a) && Name(x) && Name(y)
    ensures
      var aliases := AliasMap([Plainly(a, " " + x), Plainly(x, y)]);
      ValidatedTarget(aliases, " " + x) == y && WrittenTarget(aliases, " " + x) == x
  {
    NameIsStable(x);
    AliasesOfPair(a, x, y);
    ReadRaw(AliasMap([Plainly(a, " " + x), Plainly(x, y)]), " " + x, x, y);
  }

  /** One service is labelled " x", and another, labelled y, has the id x. In an accepted
      graph the token " x" is validated as y and written as x. */
  lemma RawTokenDiverts(a: string, x: string, y: string)
    requires Name(a) && Name(x) && Name(y) && a != x && x != y
    ensures
      var nodes := [Plainly(a, " " + x), Plainly(x, y)];
      && GraphOk(nodes, [])
      && ValidatedTarget(AliasMap(nodes), " " + x) == y
      && WrittenTarget(AliasMap(nodes), " " + x) == x
  {
    PairIsAccepted(a, x, y);
    RawTokenTargets(a, x, y);
  }

  lemma ReadLower(aliases: Aliases, token: string, u: string, x: string, y: string)
    requires TrimSpace(token) == u && ToLower(u) == x && x != "" && y != "" && ServiceName(token) == x
    requires token !in aliases && u !in aliases && ToLower(token) !in aliases
    requires Lookup(aliases, x) == Some(y)
    ensures ValidatedTarget(aliases, token) == y && WrittenTarget(aliases, token) == x
  {
  }

  lemma CapitalsAreNoSlug(x: string, u: string)
    requires ToLower(u) == x && u != x
    ensures !IsSlug(u)
  {
    if IsSlug(u) {
      SlugIsStable(u);
    }
  }

  lemma CapitalsTrimmed(x: string, u: string)
    requires Name(x) && ToLower(u) == x
    ensures TrimSpace(" " + u) == u
  {
    assert LowerChar(u[0]) == x[0] && LowerChar(u[|u| - 1]) == x[|x| - 1];
    BlankIsTrimmed(u);
  }

  lemma CapitalsOfAName(x: string, u: string)
    requires Name(x) && ToLower(u) == x
    ensures ServiceName(" " + u) == x && ToLower(" " + u) == " " + x
  {
    CapitalsTrimmed(x, u);
    LowerAfterBlank(u);
    NameIsStable(x);
    SameServiceName(" " + u, x);
  }

  lemma LowerCaseTargets(x: string, y: string, u: string)
    requires Name(x) && Name(y) && ToLower(u) == x && u != x
    ensures
      var aliases := AliasMap([Plainly(x, y)]);
      ValidatedTarget(aliases, " " + u) == y && WrittenTarget(aliases, " " + u) == x
  {
    AliasesOfNamed(x, y);
    CapitalsTrimmed(x, u);
    CapitalsOfAName(x, u);
    UnknownTokens(x, y, u);
    ReadLower(AliasMap([Plainly(x, y)]), " " + u, u, x, y);
  }

  lemma UnknownTokens(x: string, y: string, u: string)
    requires Name(x) && Name(y) && ToLower(u) == x && u != x
    ensures
      var aliases := map[x := y, y := y];
      u !in aliases && " " + u !in aliases && " " + x !in aliases
  {
    CapitalsAreNoSlug(x, u);
    BlankIsNoName(x, y, u);
  }

  lemma BlankIsNoName(x: string, y: string, s: string)
    requires Name(x) && Name(y)
    ensures " " + s != x && " " + s != y && " " + x != x && " " + x != y
  {
    assert (" " + s)[0] == ' ' && (" " + x)[0] == ' ';
    assert x[0] != ' ' && y[0] != ' ';
  }

  /** A service has the id x and the label y. In an accepted graph the token " X", where X is
      x with some letters capital, is validated as y, but written as x, which names no
      service at all. */
  lemma LowerCaseOnlyDiverts(x: string, y: string, u: string)
    requires Name(x) && Name(y) && x != y && ToLower(u) == x && u != x
    ensures
      var nodes := [Plainly(x, y)];
      && GraphOk(nodes, [])
      && ValidatedTarget(AliasMap(nodes), " " + u) == y
      && WrittenTarget(AliasMap(nodes), " " + u) == x && x !in ServiceNames(nodes)
  {
    OneIsAccepted(x, y);
    LowerCaseTargets(x, y, u);
  }

  // ---- References to oneself ------------------------------------------------------------------

  function SelfReference(x: string): string {
    x + "." + "host"
  }

  function SelfReferring(x: string): FlowNode {
    FlowNode(x, x, "redis", "", [], [("SELF", RenderOne(Ref(SelfReference(x))))], [], true)
  }

  lemma SelfReferenceParts(x: string)
    requires Name(x)
    ensures HasField(SelfReference(x)) && Token(SelfReference(x)) == x && Rest(SelfReference(x)) == "host"
    ensures Scan(RenderOne(Ref(SelfReference(x)))) == [Ref(SelfReference(x))]
  {
    SlugHasNo(x, '.');
    SlugHasNo(x, '}');
    SplitAtDot(x, "host");
    ScanRef(SelfReference(x), "");
    assert "${" + SelfReference(x) + "}" + "" == RenderOne(Ref(SelfReference(x)));
  }

  /** A service may refer to itself as far as validation is concerned, in whatever graph; its
      lookup then fails for as long as it is not registered itself, which is always the case
      when its environment is filled in. */
  lemma SelfReferenceIsAccepted(x: string, registry: map<string, Runtime>)
    requires Name(x) && x !in registry
    ensures GraphOk([SelfReferring(x)], [])
    ensures Resolve(registry, RewriteInner(AliasMap([SelfReferring(x)]), SelfReference(x))) == ServiceNotFound(x)
  {
    SelfGraphIsOk(x);
    SelfLookupFails(x, registry);
  }

  lemma SelfLookupFails(x: string, registry: map<string, Runtime>)
    requires Name(x) && x !in registry
    ensures Resolve(registry, RewriteInner(AliasMap([SelfReferring(x)]), SelfReference(x))) == ServiceNotFound(x)
  {
    SelfAliases(x);
    SelfReferenceParts(x);
    SelfIsWritten(x, map[x := x]);
  }

  lemma SelfIsWritten(x: string, aliases: Aliases)
    requires Name(x) && aliases == map[x := x]
    ensures RewriteInner(aliases, SelfReference(x)) == SelfReference(x)
  {
    SelfReferenceParts(x);
    KnownIsWritten(aliases, x);
  }

  lemma KnownIsWritten(aliases: Aliases, x: string)
    requires x != "" && Lookup(aliases, x) == Some(x)
    ensures WrittenTarget(aliases, x) == x
  {
  }

  lemma SelfAliases(x: string)
    requires Name(x)
    ensures AliasMap([SelfReferring(x)]) == map[x := x]
  {
    AliasesOfOne(SelfReferring(x));
    NameIsStable(x);
    FiveAliases(map[], x, x, x, x, x);
  }

  lemma SelfIsReady(x: string, g: Graph, aliases: Aliases)
    requires Name(x) && aliases == map[x := x]
    ensures NodeReady(g, aliases, SelfReferring(x))
  {
    var node, inner := SelfReferring(x), SelfReference(x);
    NameIsStable(x);
    SelfReferenceParts(x);
    assert ValidatedTarget(aliases, x) == x;
    NodeReadyExactly(g, aliases, node);
    forall value | Mentions(node, value)
      ensures RefsReady(g, aliases, ServiceName(node.title), value)
    {
      assert value == RenderOne(Ref(inner));
    }
  }

  lemma SelfGraphIsOk(x: string)
    requires Name(x)
    ensures GraphOk([SelfReferring(x)], [])
  {
    var node := SelfReferring(x);
    SelfAliases(x);
    SelfIsReady(x, ServiceDeps([node], []), AliasMap([node]));
    NameIsStable(x);
    NoneIsBlank(x);
    RedisIsKnown();
    var g, aliases := ServiceDeps([node], []), AliasMap([node]);
    assert All([node], 0, NodeOk) && All([node], 1, NodeOk);
    assert All([node], 0, Ready(g, aliases)) && All([node], 1, Ready(g, aliases));
    NoDependenciesNoCycle(g);
  }

  /** Both ways are open: the names "a", "db" and "primary" and the token " DB" will do. */
  lemma DivertingNamesExist()
    ensures exists a, x, y :: Name(a) && Name(x) && Name(y) && a != x && x != y
    ensures exists x, y, u :: Name(x) && Name(y) && x != y && ToLower(u) == x && u != x
  {
    assert Name("a") && Name("db") && Name("primary");
    assert ToLower("DB") == "db";
  }
}
