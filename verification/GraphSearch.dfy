/** The recursive searches of runner-v2/pkg/workflowbundle/bundle.go. Each search is an
    object whose fields are the maps its closure updates. */
module GraphSearch {
  import opened Basics
  import opened Graphs

  // ---- detectCycles ------------------------------------------------------------

  class CycleFinder {
    const graph: Graph
    var visited: set<string>
    var visiting: set<string>
    var cycles: seq<seq<string>>

    constructor (graph: Graph)
      ensures this.graph == graph
      ensures visited == {} && visiting == {} && cycles == []
    {
      this.graph := graph;
      visited, visiting, cycles := {}, {}, [];
    }

    ghost predicate Valid()
      reads this
    {
      && visited !! visiting
      && (forall k :: 0 <= k < |cycles| ==> Cycle(graph, cycles[k]))
      && (cycles == [] ==> Finished(graph, visited))
    }

    /** `path` is the chain of calls that led to `node`. */
    method Dfs(node: string, path: seq<string>)
      requires Valid()
      requires node in Names(graph)
      requires Walk(graph, path + [node])
      requires visiting == Elems(path)
      modifies this
      ensures Valid()
      ensures visiting == old(visiting) && old(visited) <= visited && old(cycles) <= cycles
      ensures cycles == [] ==> node in visited
      decreases Names(graph) - visiting
    {
      if node in visiting {
        var start := PositionOf(path, node);
        WalkSlice(graph, path + [node], start, |path| + 1);
        assert (path + [node])[start..] == path[start..] + [node];
        cycles := cycles + [path[start..] + [node]];
        return;
      }
      if node in visited {
        return;
      }
      visiting := visiting + {node};
      var neighbors := Deps(graph, node);
      var i := 0;
      while i < |neighbors|
        invariant 0 <= i <= |neighbors|
        invariant Valid()
        invariant visiting == old(visiting) + {node}
        invariant old(visited) <= visited && old(cycles) <= cycles
        invariant cycles == [] ==> forall k :: 0 <= k < i ==> neighbors[k] in visited
      {
        WalkSnoc(graph, path + [node], neighbors[i]);
        Dfs(neighbors[i], path + [node]);
        i := i + 1;
      }
      visiting := visiting - {node};
      if cycles == [] {
        Finish(graph, visited, node);
      }
      visited := visited + {node};
    }
  }

  method PositionOf(path: seq<string>, node: string) returns (i: nat)
    requires node in path
    ensures i < |path| && path[i] == node
    ensures forall k :: 0 <= k < i ==> path[k] != node
  {
    i := 0;
    while path[i] != node
      invariant i < |path|
      invariant forall k :: 0 <= k < i ==> path[k] != node
      decreases |path| - i
    {
      i := i + 1;
    }
  }

  /** detectCycles ends on every graph, reports a cycle exactly when there is one, and
      reports nothing that is not a cycle. */
  method DetectCycles(graph: Graph) returns (cycles: seq<seq<string>>)
    ensures cycles == [] <==> Acyclic(graph)
    ensures forall k :: 0 <= k < |cycles| ==> Cycle(graph, cycles[k])
  {
    var finder := new CycleFinder(graph);
    var rest := graph.Keys;
    while rest != {}
      invariant fresh(finder) && finder.Valid() && finder.visiting == {}
      invariant finder.graph == graph
      invariant rest <= graph.Keys
      invariant finder.cycles == [] ==> graph.Keys - rest <= finder.visited
      decreases |rest|
    {
      var node :| node in rest;
      rest := rest - {node};
      finder.Dfs(node, []);
    }
    cycles := finder.cycles;
    if cycles == [] {
      AllFinished(graph, finder.visited);
    } else {
      assert Cycle(graph, cycles[0]);
    }
  }

  // ---- expandScenarioServiceSubset ------------------------------------------------

  /** Everything added since `before` was reached from `n` and has its dependencies in `after`. */
  ghost predicate Explored(g: Graph, before: set<string>, after: set<string>, n: string) {
    && before <= after
    && (forall x :: x in after && x !in before ==> Reaches(g, n, x))
    && (forall x, d :: x in after && x !in before && d in Deps(g, x) ==> d in after)
  }

  class Expansion {
    const deps: Graph
    ghost const universe: set<string>
    var required: set<string>

    constructor (deps: Graph, ghost universe: set<string>)
      ensures this.deps == deps && this.universe == universe && required == {}
    {
      this.deps, this.universe, required := deps, universe, {};
    }

    method Visit(service: string)
      requires Names(deps) <= universe && service in universe
      modifies this
      ensures Explored(deps, old(required), required, service)
      ensures service in required
      decreases universe - required
    {
      if service in required {
        return;
      }
      required := required + {service};
      ReachesSelf(deps, service);
      var next := Deps(deps, service);
      var i := 0;
      while i < |next|
        invariant 0 <= i <= |next|
        invariant old(required) + {service} <= required
        invariant forall x :: x in required && x !in old(required) ==> Reaches(deps, service, x)
        invariant forall x, d :: x in required && x !in old(required) && x != service && d in Deps(deps, x) ==> d in required
        invariant forall k :: 0 <= k < i ==> next[k] in required
      {
        ghost var before := required;
        assert service in deps && next[i] in deps[service];
        Visit(next[i]);
        forall x | x in required && x !in before
          ensures Reaches(deps, service, x)
        {
          ReachesCons(deps, service, next[i], x);
        }
        i := i + 1;
      }
    }
  }

  /** expandScenarioServiceSubset returns exactly the dependency closure of the targets. */
  method ExpandScenarioServiceSubset(deps: Graph, targets: seq<string>) returns (required: set<string>)
    ensures forall x :: x in required <==> exists t :: t in targets && Reaches(deps, t, x)
  {
    var expansion := new Expansion(deps, Names(deps) + Elems(targets));
    var i := 0;
    while i < |targets|
      invariant 0 <= i <= |targets|
      invariant fresh(expansion) && expansion.deps == deps
      invariant expansion.universe == Names(deps) + Elems(targets)
      invariant Closed(deps, expansion.required)
      invariant forall k :: 0 <= k < i ==> targets[k] in expansion.required
      invariant forall x :: x in expansion.required ==> exists t :: t in targets && Reaches(deps, t, x)
    {
      expansion.Visit(targets[i]);
      i := i + 1;
    }
    required := expansion.required;
    forall x, t | t in targets && Reaches(deps, t, x)
      ensures x in required
    {
      ClosedUnderReach(deps, required, t, x);
    }
  }

  // ---- the search of validateRuntimeReferenceReadiness ---------------------------------

  /** `b` is a transitive dependency of `a`. */
  ghost predicate Requires(g: Graph, a: string, b: string) {
    exists d :: Edge(g, a, d) && Reaches(g, d, b)
  }

  class Prerequisites {
    const graph: Graph
    var reachable: set<string>

    constructor (graph: Graph)
      ensures this.graph == graph && reachable == {}
    {
      this.graph, reachable := graph, {};
    }

    /** Unlike the expansion, this search marks a node before it visits it, so that the
        node it starts from is only marked when a cycle leads back to it. */
    method Visit(name: string)
      modifies this
      ensures old(reachable) <= reachable
      ensures forall x :: x in reachable && x !in old(reachable) ==> Requires(graph, name, x)
      ensures forall x, d :: x in reachable && x !in old(reachable) && d in Deps(graph, x) ==> d in reachable
      ensures forall d :: d in Deps(graph, name) ==> d in reachable
      decreases Names(graph) - reachable
    {
      var next := Deps(graph, name);
      var i := 0;
      while i < |next|
        invariant 0 <= i <= |next|
        invariant old(reachable) <= reachable
        invariant forall x :: x in reachable && x !in old(reachable) ==> Requires(graph, name, x)
        invariant forall x, d :: x in reachable && x !in old(reachable) && d in Deps(graph, x) ==> d in reachable
        invariant forall k :: 0 <= k < i ==> next[k] in reachable
      {
        var dependency := next[i];
        if dependency !in reachable {
          ghost var before := reachable;
          reachable := reachable + {dependency};
          ReachesSelf(graph, dependency);
          assert Edge(graph, name, dependency);
          Visit(dependency);
          forall x | x in reachable && x !in before && x != dependency
            ensures Requires(graph, name, x)
          {
            var d :| Edge(graph, dependency, d) && Reaches(graph, d, x);
            ReachesCons(graph, dependency, d, x);
          }
        }
        i := i + 1;
      }
    }
  }

  method TransitiveDependencies(graph: Graph, name: string) returns (reachable: set<string>)
    ensures forall x :: x in reachable <==> Requires(graph, name, x)
  {
    var search := new Prerequisites(graph);
    search.Visit(name);
    reachable := search.reachable;
    forall x | Requires(graph, name, x)
      ensures x in reachable
    {
      var d :| Edge(graph, name, d) && Reaches(graph, d, x);
      ClosedUnderReach(graph, reachable, d, x);
    }
  }
}
