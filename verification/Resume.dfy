/** Crash and resume of one scenario run: runWorkflowBundleScenarioForRun in
    runner-v2/pkg/api/workflow_bundle.go with the stored results of
    runner-v2/pkg/api/session_failover.go. A run is a series of attempts, each of which
    may be cut off anywhere; an attempt skips the tests that have a stored result. */
module Resume {
  import opened Basics

  datatype Result = Result(name: string, passed: bool, attempts: nat)

  datatype Summary = Summary(total: nat, passed: nat, failed: nat, retried: nat)

  type Stored = map<string, Result>

  // ---- What the loops over results compute --------------------------------------------

  /** The results of the planned tests that have one, in plan order. */
  function Ordered(plan: seq<string>, byName: Stored): seq<Result> {
    if plan == [] then []
    else
      var t := plan[|plan| - 1];
      Ordered(plan[..|plan| - 1], byName) + if t in byName then [byName[t]] else []
  }

  /** The planned tests that have no result, in plan order. */
  function Missing(plan: seq<string>, byName: Stored): seq<string> {
    if plan == [] then []
    else
      var t := plan[|plan| - 1];
      Missing(plan[..|plan| - 1], byName) + if t in byName then [] else [t]
  }

  /** Results by name, a later one replacing an earlier one. */
  function ByName(results: seq<Result>): Stored {
    if results == [] then map[]
    else ByName(results[..|results| - 1])[results[|results| - 1].name := results[|results| - 1]]
  }

  function Summarized(results: seq<Result>, total: nat): Summary {
    if results == [] then Summary(total, 0, 0, 0)
    else
      var s := Summarized(results[..|results| - 1], total);
      var r := results[|results| - 1];
      Summary(total, s.passed + (if r.passed then 1 else 0), s.failed + (if r.passed then 0 else 1),
              s.retried + (if r.attempts > 1 then 1 else 0))
  }

  /** A row of the test result table. */
  datatype Row = Row(testName: string, deleted: bool, result: Result)

  function Live(rows: seq<Row>): Stored {
    if rows == [] then map[]
    else
      var before := Live(rows[..|rows| - 1]);
      var row := rows[|rows| - 1];
      if row.deleted then before else before[row.testName := row.result]
  }

  /** loadPersistedResults. */
  method LoadPersistedResults(rows: seq<Row>, plan: seq<string>) returns (results: seq<Result>, byName: Stored)
    ensures byName == Live(rows)
    ensures results == Ordered(plan, byName)
  {
    byName := map[];
    for i := 0 to |rows|
      invariant byName == Live(rows[..i])
    {
      assert rows[..i + 1][..i] == rows[..i];
      if !rows[i].deleted {
        byName := byName[rows[i].testName := rows[i].result];
      }
    }
    assert rows[..|rows|] == rows;
    results := [];
    for i := 0 to |plan|
      invariant results == Ordered(plan[..i], byName)
    {
      assert plan[..i + 1][..i] == plan[..i];
      if plan[i] in byName {
        results := results + [byName[plan[i]]];
      }
    }
    assert plan[..|plan|] == plan;
  }

  /** The loop that picks the remaining tests. */
  method RemainingTests(plan: seq<string>, byName: Stored) returns (remaining: seq<string>)
    ensures remaining == Missing(plan, byName)
  {
    remaining := [];
    for i := 0 to |plan|
      invariant remaining == Missing(plan[..i], byName)
    {
      assert plan[..i + 1][..i] == plan[..i];
      if plan[i] !in byName {
        remaining := remaining + [plan[i]];
      }
    }
    assert plan[..|plan|] == plan;
  }

  /** Merging old and new results into the report and its summary. */
  method MergeResults(plan: seq<string>, earlier: seq<Result>, latest: seq<Result>)
    returns (results: seq<Result>, summary: Summary)
    ensures results == Ordered(plan, ByName(earlier + latest))
    ensures summary == Summarized(results, |plan|)
  {
    var all := earlier + latest;
    var byName: Stored := map[];
    for i := 0 to |all|
      invariant byName == ByName(all[..i])
    {
      assert all[..i + 1][..i] == all[..i];
      byName := byName[all[i].name := all[i]];
    }
    assert all[..|all|] == all;
    results := [];
    summary := Summary(|plan|, 0, 0, 0);
    for i := 0 to |plan|
      invariant results == Ordered(plan[..i], byName)
      invariant summary == Summarized(results, |plan|)
    {
      assert plan[..i + 1][..i] == plan[..i];
      if plan[i] in byName {
        var result := byName[plan[i]];
        assert (results + [result])[..|results|] == results;
        results := results + [result];
        if result.passed {
          summary := summary.(passed := summary.passed + 1);
        } else {
          summary := summary.(failed := summary.failed + 1);
        }
        if result.attempts > 1 {
          summary := summary.(retried := summary.retried + 1);
        }
      }
    }
    assert plan[..|plan|] == plan;
  }

  // ---- Their meaning --------------------------------------------------------------------

  lemma {:induction false} SummaryAddsUp(results: seq<Result>, total: nat)
    ensures Summarized(results, total).passed + Summarized(results, total).failed == |results|
    ensures Summarized(results, total).total == total
  {
    if results != [] {
      SummaryAddsUp(results[..|results| - 1], total);
    }
  }

  function Passing(): Result -> bool {
    (r: Result) => r.passed
  }

  function Failing(): Result -> bool {
    (r: Result) => !r.passed
  }

  function Retried(): Result -> bool {
    (r: Result) => r.attempts > 1
  }

  /** Each number of the summary counts the results it is about, one by one. */
  lemma {:induction false} SummaryCounts(results: seq<Result>, total: nat)
    ensures Summarized(results, total) ==
            Summary(total, |Where(results, Passing())|, |Where(results, Failing())|, |Where(results, Retried())|)
  {
    if results != [] {
      SummaryCounts(results[..|results| - 1], total);
      WhereSnoc(results, Passing());
      WhereSnoc(results, Failing());
      WhereSnoc(results, Retried());
    }
  }

  /** No failures are counted exactly when every listed result passed. */
  lemma {:induction false} NoFailuresExactly(results: seq<Result>, total: nat)
    ensures Summarized(results, total).failed == 0 <==> forall i :: 0 <= i < |results| ==> results[i].passed
  {
    if results != [] {
      var n := |results| - 1;
      NoFailuresExactly(results[..n], total);
      assert forall i :: 0 <= i < n ==> results[..n][i] == results[i];
    }
  }

  /** Exactly one result per planned test, in plan order. */
  ghost predicate Covers(plan: seq<string>, results: seq<Result>) {
    |results| == |plan| && forall i :: 0 <= i < |plan| ==> results[i].name == plan[i]
  }

  ghost predicate Labelled(byName: Stored) {
    forall t :: t in byName ==> byName[t].name == t
  }

  /** The ordered results cover the plan exactly when every planned test has a result. */
  lemma {:induction false} OrderedCovers(plan: seq<string>, byName: Stored)
    requires Labelled(byName)
    ensures |Ordered(plan, byName)| <= |plan|
    ensures |Ordered(plan, byName)| == |plan| <==> forall t :: t in plan ==> t in byName
    ensures (forall t :: t in plan ==> t in byName) ==> Covers(plan, Ordered(plan, byName))
    ensures (forall t :: t in plan ==> t in byName) ==>
              forall i :: 0 <= i < |plan| ==> Ordered(plan, byName)[i] == byName[plan[i]]
  {
    if plan != [] {
      var n := |plan| - 1;
      OrderedCovers(plan[..n], byName);
      assert plan == plan[..n] + [plan[n]];
    }
  }

  lemma {:induction false} OrderedIsStored(plan: seq<string>, byName: Stored)
    ensures forall r :: r in Ordered(plan, byName) <==> exists t :: t in plan && t in byName && byName[t] == r
  {
    if plan != [] {
      var n := |plan| - 1;
      OrderedIsStored(plan[..n], byName);
      assert plan == plan[..n] + [plan[n]];
    }
  }

  lemma {:induction false} MissingIsMissing(plan: seq<string>, byName: Stored)
    requires Unique(plan)
    ensures forall t :: t in Missing(plan, byName) <==> t in plan && t !in byName
    ensures Unique(Missing(plan, byName))
  {
    if plan != [] {
      var n := |plan| - 1;
      MissingIsMissing(plan[..n], byName);
      assert plan == plan[..n] + [plan[n]];
    }
  }

  function LiveRowOf(t: string): Row -> bool {
    (row: Row) => !row.deleted && row.testName == t
  }

  /** The stored result of a test is that of its last live row, if there is one. */
  lemma {:induction false} LiveExactly(rows: seq<Row>, t: string)
    ensures
      var last := LastWith(rows, LiveRowOf(t));
      Lookup(Live(rows), t) == if last.Some? then Some(last.value.result) else None
  {
    if rows != [] {
      LiveExactly(rows[..|rows| - 1], t);
    }
  }

  ghost predicate DistinctNames(results: seq<Result>) {
    forall i, j :: 0 <= i < j < |results| ==> results[i].name != results[j].name
  }

  lemma {:induction false} ByNameHolds(results: seq<Result>, r: Result)
    requires DistinctNames(results)
    ensures r in results <==> r.name in ByName(results) && ByName(results)[r.name] == r
    ensures Labelled(ByName(results))
  {
    if results != [] {
      var n := |results| - 1;
      ByNameHolds(results[..n], r);
      assert results == results[..n] + [results[n]];
      if r in results[..n] {
        var i :| 0 <= i < n && results[..n][i] == r;
        assert results[i].name != results[n].name;
      }
    }
  }
}
