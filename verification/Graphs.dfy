/** Dependency graphs: a node is mapped to the names it depends on. */
module Graphs {
  type Graph = map<string, seq<string>>

  /** Go's lookup: a missing node has no dependencies. */
  function Deps(g: Graph, n: string): seq<string> {
    if n in g then g[n] else []
  }

  predicate Edge(g: Graph, a: string, b: string) {
    b in Deps(g, a)
  }

  /** A nonempty path along dependencies. */
  ghost predicate Walk(g: Graph, p: seq<string>) {
    && |p| > 0
    && forall i, j :: 0 <= i && j == i + 1 < |p| ==> Edge(g, p[i], p[j])
  }

  ghost predicate WalkFrom(g: Graph, n: string, p: seq<string>) {
    Walk(g, p) && p[0] == n
  }

  ghost predicate Cycle(g: Graph, p: seq<string>) {
    |p| >= 2 && Walk(g, p) && p[0] == p[|p| - 1]
  }

  ghost predicate Acyclic(g: Graph) {
    forall p :: !Cycle(g, p)
  }

  ghost predicate Declared(g: Graph) {
    forall n, d :: n in g && d in g[n] ==> d in g
  }

  ghost predicate Reaches(g: Graph, a: string, b: string) {
    exists p :: WalkFrom(g, a, p) && p[|p| - 1] == b
  }

  ghost predicate Closed(g: Graph, s: set<string>) {
    forall n, d :: n in s && d in Deps(g, n) ==> d in s
  }

  /** `s` is closed and no cycle starts in it: what a depth-first search has finished. */
  ghost predicate Finished(g: Graph, s: set<string>) {
    && Closed(g, s)
    && forall p :: Cycle(g, p) ==> p[0] !in s
  }

  /** Every name that occurs in the graph. */
  ghost function Names(g: Graph): set<string> {
    g.Keys + set n, d | n in g && d in g[n] :: d
  }

  lemma WalkCons(g: Graph, n: string, p: seq<string>)
    requires Walk(g, p) && Edge(g, n, p[0])
    ensures WalkFrom(g, n, [n] + p)
  {
  }

  lemma WalkSnoc(g: Graph, p: seq<string>, n: string)
    requires Walk(g, p) && Edge(g, p[|p| - 1], n)
    ensures Walk(g, p + [n]) && (p + [n])[0] == p[0]
  {
  }

  lemma WalkSlice(g: Graph, p: seq<string>, i: nat, j: nat)
    requires Walk(g, p) && i < j <= |p|
    ensures Walk(g, p[i..j])
  {
  }

  lemma Rotate(g: Graph, p: seq<string>)
    requires Cycle(g, p)
    ensures Cycle(g, p[1..] + [p[1]])
  {
    WalkSlice(g, p, 1, |p|);
    WalkSnoc(g, p[1..], p[1]);
  }

  /** A node whose dependencies are finished is finished. */
  lemma Finish(g: Graph, s: set<string>, n: string)
    requires Finished(g, s) && n !in s
    requires forall d :: d in Deps(g, n) ==> d in s
    ensures Finished(g, s + {n})
  {
    forall p | Cycle(g, p)
      ensures p[0] !in s + {n}
    {
      Rotate(g, p);
      var r := p[1..] + [p[1]];
      assert r[0] !in s;
      assert Edge(g, p[0], p[1]);
    }
  }

  /** Once every node is finished there is no cycle, since a cycle starts at a node. */
  lemma AllFinished(g: Graph, s: set<string>)
    requires Finished(g, s) && g.Keys <= s
    ensures Acyclic(g)
  {
    forall p
      ensures !Cycle(g, p)
    {
      assert |p| >= 2 && Walk(g, p) ==> Edge(g, p[0], p[1]);
    }
  }

  lemma {:induction false} ClosedContainsWalk(g: Graph, s: set<string>, p: seq<string>)
    requires Closed(g, s) && Walk(g, p) && p[0] in s
    ensures p[|p| - 1] in s
    decreases |p|
  {
    if |p| > 1 {
      assert Edge(g, p[0], p[1]);
      WalkSlice(g, p, 1, |p|);
      ClosedContainsWalk(g, s, p[1..]);
    }
  }

  ghost predicate Free(g: Graph, s: set<string>, n: string) {
    forall d :: d in Deps(g, n) ==> d !in s
  }

  /** A nonempty set whose every node depends on another node of the set holds a cycle:
      follow dependencies inside the set until a node repeats. */
  lemma {:induction false} TrappedWalk(g: Graph, s: set<string>, p: seq<string>, rest: set<string>)
    requires Walk(g, p)
    requires forall i :: 0 <= i < |p| ==> p[i] in s
    requires forall i, j :: 0 <= i < j < |p| ==> p[i] != p[j]
    requires forall n {:trigger Free(g, s, n)} :: n in s ==> !Free(g, s, n)
    requires forall x :: x in s ==> x in p || x in rest
    ensures !Acyclic(g)
    decreases rest
  {
    var last := p[|p| - 1];
    assert !Free(g, s, last);
    var d :| d in Deps(g, last) && d in s;
    WalkSnoc(g, p, d);
    var q := p + [d];
    if d in p {
      var i :| 0 <= i < |p| && p[i] == d;
      WalkSlice(g, q, i, |q|);
      assert Cycle(g, q[i..]);
    } else {
      TrappedWalk(g, s, q, rest - {d});
    }
  }

  lemma SomeNodeIsFree(g: Graph, s: set<string>)
    requires Acyclic(g) && s != {}
    ensures exists n :: n in s && Free(g, s, n)
  {
    if forall n {:trigger Free(g, s, n)} :: n in s ==> !Free(g, s, n) {
      var n :| n in s;
      TrappedWalk(g, s, [n], s);
    }
  }

  /** Leaving out nodes and dependencies cannot create a cycle. */
  lemma SubgraphIsAcyclic(g: Graph, h: Graph)
    requires Acyclic(g)
    requires forall a, b :: Edge(h, a, b) ==> Edge(g, a, b)
    ensures Acyclic(h)
  {
    forall p | Cycle(h, p)
      ensures false
    {
      assert Cycle(g, p);
    }
  }

  lemma ReachesCons(g: Graph, a: string, b: string, c: string)
    requires Edge(g, a, b) && Reaches(g, b, c)
    ensures Reaches(g, a, c)
  {
    var p :| WalkFrom(g, b, p) && p[|p| - 1] == c;
    WalkCons(g, a, p);
    assert ([a] + p)[|p|] == c;
  }

  lemma ReachesSelf(g: Graph, a: string)
    ensures Reaches(g, a, a)
  {
    assert WalkFrom(g, a, [a]);
  }

  /** A closed set holds everything its members reach. */
  lemma ClosedUnderReach(g: Graph, s: set<string>, a: string, b: string)
    requires Closed(g, s) && a in s && Reaches(g, a, b)
    ensures b in s
  {
    var p :| WalkFrom(g, a, p) && p[|p| - 1] == b;
    ClosedContainsWalk(g, s, p);
  }
}
