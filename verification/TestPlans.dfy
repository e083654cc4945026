/** The order in which a scenario's tests run: translateScenarioTests in
    runner-v2/pkg/workflowbundle/bundle.go. */
module TestPlans {
  import opened Basics
  import opened Bundles

  /** findScenarioTest: the first test with the id. */
  function FindTest(tests: seq<TestDefinition>, id: string): (r: Option<TestDefinition>)
    ensures r.Some? <==> id in TestIds(tests)
    ensures r.Some? ==> r.value in tests && r.value.id == id
  {
    if tests == [] then None
    else if tests[0].id == id then assert TestIds(tests)[0] == id; Some(tests[0])
    else
      var rest := FindTest(tests[1..], id);
      assert TestIds(tests) == [tests[0].id] + TestIds(tests[1..]);
      rest
  }

  /** What the testOrder of an accepted scenario says: the plan is a rearrangement of the
      tests in that order, and no two planned tests share a name. */
  ghost predicate FollowsOrder(sc: Scenario, plan: seq<TestDefinition>) {
    && |plan| == |sc.tests| == |sc.testOrder|
    && (forall i :: 0 <= i < |plan| ==> plan[i].id == sc.testOrder[i] && plan[i] in sc.tests)
    && (forall t :: t in sc.tests ==> t in plan)
    && Unique(TestNames(plan))
  }

  lemma {:induction false} UniqueSize(s: seq<string>)
    requires Unique(s)
    ensures |Elems(s)| == |s|
  {
    if s != [] {
      var n := |s| - 1;
      UniqueSize(s[..n]);
      assert s == s[..n] + [s[n]];
      assert s[n] !in s[..n];
      assert Elems(s) == Elems(s[..n]) + {s[n]};
    }
  }

  /** Distinct ids, as many as there are tests, leave no test out. */
  lemma OrderIsComplete(order: seq<string>, ids: seq<string>)
    requires Unique(order) && Unique(ids) && |order| == |ids|
    requires forall i :: 0 <= i < |order| ==> order[i] in ids
    ensures forall x :: x in ids ==> x in order
  {
    UniqueSize(order);
    UniqueSize(ids);
    assert Elems(order) <= Elems(ids);
    assert Elems(ids) == Elems(order) + (Elems(ids) - Elems(order));
    forall x | x in ids
      ensures x in order
    {
      assert x in Elems(ids);
    }
  }

  lemma SameId(tests: seq<TestDefinition>, a: TestDefinition, b: TestDefinition)
    requires Unique(TestIds(tests)) && a in tests && b in tests && a.id == b.id
    ensures a == b
  {
    var i :| 0 <= i < |tests| && tests[i] == a;
    var j :| 0 <= j < |tests| && tests[j] == b;
    assert TestIds(tests)[i] == TestIds(tests)[j];
  }

  lemma SameName(tests: seq<TestDefinition>, a: TestDefinition, b: TestDefinition)
    requires Unique(TestNames(tests)) && a in tests && b in tests && a.name == b.name
    ensures a == b
  {
    var i :| 0 <= i < |tests| && tests[i] == a;
    var j :| 0 <= j < |tests| && tests[j] == b;
    assert TestNames(tests)[i] == TestNames(tests)[j];
  }

  lemma PlanFollowsOrder(names: set<string>, sc: Scenario, plan: seq<TestDefinition>)
    requires ScenarioOk(names, sc)
    requires |plan| == |sc.testOrder|
    requires forall i :: 0 <= i < |plan| ==> plan[i].id == sc.testOrder[i] && plan[i] in sc.tests
    ensures FollowsOrder(sc, plan)
  {
    OrderIsComplete(sc.testOrder, TestIds(sc.tests));
    forall t | t in sc.tests
      ensures t in plan
    {
      var k :| 0 <= k < |sc.tests| && sc.tests[k] == t;
      assert TestIds(sc.tests)[k] == t.id;
      assert t.id in sc.testOrder;
      var i :| 0 <= i < |sc.testOrder| && sc.testOrder[i] == t.id;
      SameId(sc.tests, t, plan[i]);
    }
    forall i, j | 0 <= i < j < |plan|
      ensures TestNames(plan)[i] != TestNames(plan)[j]
    {
      if plan[i].name == plan[j].name {
        SameName(sc.tests, plan[i], plan[j]);
      }
    }
  }

  /** translateScenarioTests: the listed tests in order, then any that were not listed. */
  method TranslateScenarioTests(sc: Scenario, ghost names: set<string>) returns (plan: seq<TestDefinition>)
    ensures ScenarioOk(names, sc) ==> FollowsOrder(sc, plan)
  {
    var ordered: seq<string> := [];
    for i := 0 to |sc.testOrder|
      invariant ScenarioOk(names, sc) ==> ordered == sc.testOrder[..i]
    {
      if FindTest(sc.tests, sc.testOrder[i]).Some? {
        ordered := ordered + [sc.testOrder[i]];
      }
    }
    plan := [];
    for i := 0 to |ordered|
      invariant ScenarioOk(names, sc) ==> |plan| == i && ordered == sc.testOrder
      invariant ScenarioOk(names, sc) ==> forall k :: 0 <= k < i ==> plan[k].id == ordered[k] && plan[k] in sc.tests
    {
      var found := FindTest(sc.tests, ordered[i]);
      if found.Some? {
        plan := plan + [found.value];
      }
    }
    for i := 0 to |sc.tests|
      invariant ScenarioOk(names, sc) ==> |plan| == |ordered| && ordered == sc.testOrder
      invariant ScenarioOk(names, sc) ==> forall k :: 0 <= k < |plan| ==> plan[k].id == ordered[k] && plan[k] in sc.tests
    {
      if ScenarioOk(names, sc) {
        OrderIsComplete(sc.testOrder, TestIds(sc.tests));
        assert TestIds(sc.tests)[i] in ordered;
      }
      if sc.tests[i].id !in ordered {
        plan := plan + [sc.tests[i]];
      }
    }
    if ScenarioOk(names, sc) {
      PlanFollowsOrder(names, sc, plan);
    }
  }
}
