/** The service start order of runner-v2/pkg/orchestrator/graph.go. */
module DependencyGraphs {
  import opened Basics
  import opened Graphs

  datatype SortError =
    | NotFound(name: string)
    | MissingDependency(service: string, dependency: string)
    | Circular(path: seq<string>)
    | Unresolvable

  datatype Sorting = Levels(levels: seq<seq<string>>) | Refused(error: SortError)

  /** The error is about something that is really wrong with the graph. */
  ghost predicate Justified(g: Graph, error: SortError) {
    match error
    case MissingDependency(s, d) => s in g && d in g[s] && d !in g
    case Circular(path) => |path| > 0 && exists i :: 0 <= i < |path| - 1 && Cycle(g, path[i..])
    case NotFound(_) => false
    case Unresolvable => false
  }

  /** The two maps that dfsCheckCycle shares with its recursive calls. */
  class CycleCheck {
    const nodes: Graph
    var visited: set<string>
    var recStack: set<string>

    constructor (nodes: Graph)
      ensures this.nodes == nodes && visited == {} && recStack == {}
    {
      this.nodes, visited, recStack := nodes, {}, {};
    }

    /** Nodes that were visited and have left the stack are finished and well declared. */
    ghost predicate Valid()
      reads this
    {
      && recStack <= visited
      && Finished(nodes, visited - recStack)
      && forall n, d :: n in visited - recStack && d in Deps(nodes, n) ==> d in nodes
    }

    /** `path` leads from the root of the search to `name`, inclusive. */
    method Dfs(name: string, path: seq<string>) returns (error: Option<SortError>)
      requires Valid() && name !in visited
      requires Walk(nodes, path) && path[|path| - 1] == name
      requires recStack == Elems(path[..|path| - 1])
      modifies this
      ensures error.None? ==>
                Valid() && recStack == old(recStack) && old(visited) <= visited && name in visited && name !in recStack
      ensures error.Some? && name in nodes ==> Justified(nodes, error.value)
      decreases nodes.Keys - visited
    {
      visited := visited + {name};
      recStack := recStack + {name};
      if name !in nodes {
        return Some(NotFound(name));
      }
      assert visited - recStack == old(visited) - old(recStack);
      assert recStack == Elems(path);
      var deps := nodes[name];
      var i := 0;
      while i < |deps|
        invariant 0 <= i <= |deps|
        invariant Valid()
        invariant recStack == old(recStack) + {name}
        invariant old(visited) + {name} <= visited
        invariant forall k :: 0 <= k < i ==> deps[k] in nodes && deps[k] in visited - recStack
      {
        var dep := deps[i];
        if dep !in nodes {
          return Some(MissingDependency(name, dep));
        }
        WalkSnoc(nodes, path, dep);
        if dep !in visited {
          assert (path + [dep])[..|path|] == path;
          error := Dfs(dep, path + [dep]);
          if error.Some? {
            return;
          }
        } else if dep in recStack {
          var cycle := path + [dep];
          ghost var k :| 0 <= k < |path| && path[k] == dep;
          WalkSlice(nodes, cycle, k, |cycle|);
          assert Cycle(nodes, cycle[k..]);
          return Some(Circular(cycle));
        }
        i := i + 1;
      }
      Finish(nodes, visited - recStack, name);
      recStack := recStack - {name};
      assert visited - recStack == visited - old(recStack);
      assert visited - recStack == (visited - (recStack + {name})) + {name};
      return None;
    }
  }

  /** `n` starts a walk of k dependencies and none that is longer. */
  ghost predicate LongestChain(g: Graph, n: string, k: nat) {
    && HasChain(g, n, k)
    && (forall p :: WalkFrom(g, n, p) ==> |p| <= k + 1)
  }

  ghost predicate HasChain(g: Graph, n: string, k: nat) {
    exists p :: WalkFrom(g, n, p) && |p| == k + 1
  }

  /** Every node of the graph appears exactly once, at the level of its longest chain. */
  ghost predicate LevelsOf(g: Graph, levels: seq<seq<string>>) {
    && Distinct(levels)
    && Elements(levels) == g.Keys
    && forall i, j :: 0 <= i < |levels| && 0 <= j < |levels[i]| ==> LongestChain(g, levels[i][j], i)
  }

  ghost predicate Distinct(levels: seq<seq<string>>) {
    && (forall i, j, k :: 0 <= i < |levels| && 0 <= j < k < |levels[i]| ==> levels[i][j] != levels[i][k])
    && (forall h, i, j, k :: 0 <= h < i < |levels| && 0 <= j < |levels[h]| && 0 <= k < |levels[i]| ==>
                               levels[h][j] != levels[i][k])
  }

  ghost function Elements(levels: seq<seq<string>>): set<string> {
    set i, j | 0 <= i < |levels| && 0 <= j < |levels[i]| :: levels[i][j]
  }

  lemma EmptyChain(g: Graph, n: string)
    ensures HasChain(g, n, 0)
  {
    assert WalkFrom(g, n, [n]) && |[n]| == 1;
  }

  lemma LongerChain(g: Graph, n: string, d: string, k: nat)
    requires Edge(g, n, d) && HasChain(g, d, k)
    ensures HasChain(g, n, k + 1)
  {
    var p :| WalkFrom(g, d, p) && |p| == k + 1;
    WalkCons(g, n, p);
    assert |[n] + p| == k + 2;
  }

  /** If every dependency has its longest chain below k, no chain of the node exceeds k. */
  lemma ChainBound(g: Graph, n: string, k: nat)
    requires forall d, p :: Edge(g, n, d) && WalkFrom(g, d, p) ==> |p| <= k
    ensures forall p :: WalkFrom(g, n, p) ==> |p| <= k + 1
  {
    forall p | WalkFrom(g, n, p)
      ensures |p| <= k + 1
    {
      if |p| > 1 {
        WalkSlice(g, p, 1, |p|);
        assert WalkFrom(g, p[1], p[1..]);
      }
    }
  }

  class DependencyGraph {
    var nodes: Graph

    constructor ()
      ensures nodes == map[]
    {
      nodes := map[];
    }

    method AddNode(name: string, dependencies: seq<string>)
      modifies this
      ensures nodes == old(nodes)[name := dependencies]
    {
      nodes := nodes[name := dependencies];
    }

    /** detectCycles fails exactly on an undeclared dependency or a cycle. */
    method DetectCycles() returns (error: Option<SortError>)
      ensures error.None? <==> Declared(nodes) && Acyclic(nodes)
      ensures error.Some? ==> Justified(nodes, error.value)
    {
      var check := new CycleCheck(nodes);
      var rest := nodes.Keys;
      while rest != {}
        invariant fresh(check) && check.nodes == nodes && check.Valid() && check.recStack == {}
        invariant rest <= nodes.Keys && nodes.Keys - rest <= check.visited
        decreases |rest|
      {
        var name :| name in rest;
        rest := rest - {name};
        if name !in check.visited {
          error := check.Dfs(name, [name]);
          if error.Some? {
            return;
          }
        }
      }
      assert check.visited - check.recStack == check.visited;
      AllFinished(nodes, check.visited);
      return None;
    }

    /** The nodes outside `visited` whose dependencies all lie inside it. */
    method NextLevel(visited: set<string>) returns (level: seq<string>)
      ensures forall n :: n in level <==> n in nodes && n !in visited && forall d :: d in nodes[n] ==> d in visited
      ensures forall i, j :: 0 <= i < j < |level| ==> level[i] != level[j]
    {
      level := [];
      var rest := nodes.Keys;
      while rest != {}
        invariant rest <= nodes.Keys
        invariant forall i, j :: 0 <= i < j < |level| ==> level[i] != level[j]
        invariant forall n :: n in level <==>
                                n in nodes && n !in rest && n !in visited && forall d :: d in nodes[n] ==> d in visited
        decreases |rest|
      {
        var name :| name in rest;
        rest := rest - {name};
        if name !in visited {
          var allDepsVisited := true;
          var i := 0;
          while i < |nodes[name]| && allDepsVisited
            invariant 0 <= i <= |nodes[name]|
            invariant allDepsVisited ==> forall k :: 0 <= k < i ==> nodes[name][k] in visited
            invariant !allDepsVisited ==> exists d :: d in nodes[name] && d !in visited
            decreases |nodes[name]| - i, allDepsVisited
          {
            if nodes[name][i] !in visited {
              allDepsVisited := false;
            } else {
              i := i + 1;
            }
          }
          if allDepsVisited {
            level := level + [name];
          }
        }
      }
    }

    /** TopologicalSort succeeds exactly when every dependency is declared and the graph
        has no cycle. It then puts every node once, at the level of its longest chain of
        dependencies; and it never takes its "unable to resolve" exit. */
    method TopologicalSort() returns (r: Sorting)
      ensures r.Levels? <==> Declared(nodes) && Acyclic(nodes)
      ensures r.Levels? ==> LevelsOf(nodes, r.levels)
      ensures r.Refused? ==> Justified(nodes, r.error)
    {
      var error := DetectCycles();
      if error.Some? {
        return Refused(error.value);
      }
      var visited: set<string> := {};
      var levels: seq<seq<string>> := [];
      NothingPlaced(nodes);
      while |visited| < |nodes|
        invariant Placed(nodes, levels, visited)
        decreases nodes.Keys - visited
      {
        var level := NextLevel(visited);
        if |level| == 0 {
          LevelIsNonempty(nodes, visited, level);
          return Refused(Unresolvable);
        }
        PlaceLevel(nodes, levels, visited, level);
        assert level[0] in Elems(level);
        visited := visited + Elems(level);
        levels := levels + [level];
      }
      SameSize(visited, nodes.Keys);
      return Levels(levels);
    }
  }

  /** The first levels hold exactly `visited`, each node at its own level; every other
      node has a chain at least as long as the number of levels so far. */
  ghost predicate Placed(g: Graph, levels: seq<seq<string>>, visited: set<string>) {
    && visited <= g.Keys
    && Elements(levels) == visited
    && Distinct(levels)
    && (forall i, j :: 0 <= i < |levels| && 0 <= j < |levels[i]| ==> LongestChain(g, levels[i][j], i))
    && (forall n :: n in g && n !in visited ==> HasChain(g, n, |levels|))
  }

  lemma NothingPlaced(g: Graph)
    ensures Placed(g, [], {})
  {
    forall n | n in g
      ensures HasChain(g, n, 0)
    {
      EmptyChain(g, n);
    }
  }

  /** The nodes that NextLevel returns. */
  ghost predicate IsNext(g: Graph, visited: set<string>, level: seq<string>) {
    forall n :: n in level <==> n in g && n !in visited && forall d :: d in g[n] ==> d in visited
  }

  lemma LevelIsNonempty(g: Graph, visited: set<string>, level: seq<string>)
    requires Declared(g) && Acyclic(g)
    requires visited <= g.Keys && |visited| < |g|
    requires IsNext(g, visited, level)
    ensures level != []
  {
    assert g.Keys == visited + (g.Keys - visited);
    SomeNodeIsFree(g, g.Keys - visited);
    var n :| n in g.Keys - visited && Free(g, g.Keys - visited, n);
    assert n in level;
  }

  lemma NextLevelIsLongest(g: Graph, levels: seq<seq<string>>, visited: set<string>, level: seq<string>, n: string)
    requires Placed(g, levels, visited) && IsNext(g, visited, level)
    requires n in level
    ensures LongestChain(g, n, |levels|)
  {
    forall d, p | Edge(g, n, d) && WalkFrom(g, d, p)
      ensures |p| <= |levels|
    {
      assert d in Elements(levels);
      var i, j :| 0 <= i < |levels| && 0 <= j < |levels[i]| && levels[i][j] == d;
      assert LongestChain(g, levels[i][j], i);
    }
    ChainBound(g, n, |levels|);
  }

  lemma LeftOverIsLonger(g: Graph, levels: seq<seq<string>>, visited: set<string>, level: seq<string>, n: string)
    requires Declared(g) && Placed(g, levels, visited) && IsNext(g, visited, level)
    requires n in g && n !in visited && n !in level
    ensures HasChain(g, n, |levels| + 1)
  {
    var d :| d in g[n] && d !in visited;
    LongerChain(g, n, d, |levels|);
  }

  lemma PlaceLevel(g: Graph, levels: seq<seq<string>>, visited: set<string>, level: seq<string>)
    requires Declared(g) && Placed(g, levels, visited) && IsNext(g, visited, level)
    requires forall i, j :: 0 <= i < j < |level| ==> level[i] != level[j]
    ensures Placed(g, levels + [level], visited + Elems(level))
  {
    ElementsSnoc(levels, level);
    DistinctSnoc(levels, level);
    var all := levels + [level];
    forall i, j | 0 <= i < |all| && 0 <= j < |all[i]|
      ensures LongestChain(g, all[i][j], i)
    {
      if i == |levels| {
        NextLevelIsLongest(g, levels, visited, level, level[j]);
      } else {
        assert LongestChain(g, levels[i][j], i);
      }
    }
    forall n | n in g && n !in visited + Elems(level)
      ensures HasChain(g, n, |all|)
    {
      LeftOverIsLonger(g, levels, visited, level, n);
    }
  }

  lemma DistinctSnoc(levels: seq<seq<string>>, level: seq<string>)
    requires Distinct(levels)
    requires forall i, j :: 0 <= i < j < |level| ==> level[i] != level[j]
    requires forall n :: n in level ==> n !in Elements(levels)
    ensures Distinct(levels + [level])
  {
    forall h, j, k | 0 <= h < |levels| && 0 <= j < |levels[h]| && 0 <= k < |level|
      ensures levels[h][j] != level[k]
    {
      assert levels[h][j] in Elements(levels);
      assert level[k] in level;
    }
  }

  lemma ElementsSnoc(levels: seq<seq<string>>, level: seq<string>)
    ensures Elements(levels + [level]) == Elements(levels) + Elems(level)
  {
    var all := levels + [level];
    forall x | x in Elements(levels) + Elems(level)
      ensures x in Elements(all)
    {
      if x in Elements(levels) {
        var i, j :| 0 <= i < |levels| && 0 <= j < |levels[i]| && levels[i][j] == x;
        assert all[i][j] == x;
      } else {
        var j :| 0 <= j < |level| && level[j] == x;
        assert all[|levels|][j] == x;
      }
    }
  }

  lemma SameSize(a: set<string>, b: set<string>)
    requires a <= b && |a| >= |b|
    ensures a == b
  {
    assert b == a + (b - a);
  }

  /** A dependency always sits at a strictly lower level. */
  lemma DependencyIsEarlier(g: Graph, n: string, d: string, i: nat, j: nat)
    requires Edge(g, n, d) && LongestChain(g, n, i) && LongestChain(g, d, j)
    ensures j < i
  {
    LongerChain(g, n, d, j);
  }
}
