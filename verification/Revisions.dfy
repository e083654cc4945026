/** Revision numbers handed out by racing writers: CreateWorkflowRevision in
    runner-v2/pkg/db/mysql/revisions.go, with the unique key on (workflow, number) from
    runner-v2/pkg/db/migrations/mysql/007_workflow_revisions.sql. Each writer reads the
    maximum, inserts the next number and commits, in separate steps; others run between. */
module Revisions {
  type Id = string

  const MAX_ATTEMPTS: nat := 10

  datatype Writer =
    | Ready(workflow: Id, attempt: nat)
    | Read(workflow: Id, attempt: nat, next: nat)
    | Inserted(workflow: Id, attempt: nat, next: nat)
    | Created(workflow: Id, number: nat)
    | GaveUp

  /** `committed` are the visible rows; a row a writer has inserted but not committed only
      holds its key. */
  datatype State = State(committed: set<(Id, nat)>, writers: map<Id, Writer>)

  datatype Event =
    | Call(writer: Id, workflow: Id)
    | ReadMax(writer: Id, highest: nat)
    | Insert(writer: Id)
    | Commit(writer: Id)
    | Retry(writer: Id)
    | Fail(writer: Id)

  /** `COALESCE(MAX(revision_number), 0)`. */
  ghost predicate IsHighest(committed: set<(Id, nat)>, wf: Id, highest: nat) {
    && (forall k: nat :: (wf, k) in committed ==> k <= highest)
    && (highest == 0 || (wf, highest) in committed)
  }

  predicate Has(s: State, w: Id) {
    w in s.writers
  }

  /** Nobody else holds the key, committed or not. */
  ghost predicate KeyIsFree(s: State, w: Id, wf: Id, number: nat) {
    && (wf, number) !in s.committed
    && forall v :: v in s.writers && v != w && s.writers[v].Inserted? ==>
                     !(s.writers[v].workflow == wf && s.writers[v].next == number)
  }

  ghost predicate Enabled(s: State, e: Event) {
    match e
    case Call(w, _) => !Has(s, w)
    case ReadMax(w, highest) => Has(s, w) && s.writers[w].Ready? && IsHighest(s.committed, s.writers[w].workflow, highest)
    case Insert(w) => Has(s, w) && s.writers[w].Read? && KeyIsFree(s, w, s.writers[w].workflow, s.writers[w].next)
    case Commit(w) => Has(s, w) && s.writers[w].Inserted?
    case Retry(w) => Has(s, w) && (s.writers[w].Read? || s.writers[w].Inserted?)
    case Fail(w) => Has(s, w) && !s.writers[w].Created?
  }

  function Apply(s: State, e: Event): State {
    if !e.Call? && !Has(s, e.writer) then s
    else
      match e
      case Call(w, wf) => s.(writers := s.writers[w := Ready(wf, 0)])
      case ReadMax(w, highest) =>
        if s.writers[w].Ready? then
          s.(writers := s.writers[w := Read(s.writers[w].workflow, s.writers[w].attempt, highest + 1)])
        else s
      case Insert(w) =>
        if s.writers[w].Read? then
          s.(writers := s.writers[w := Inserted(s.writers[w].workflow, s.writers[w].attempt, s.writers[w].next)])
        else s
      case Commit(w) =>
        if s.writers[w].Inserted? then
          State(s.committed + {(s.writers[w].workflow, s.writers[w].next)},
                s.writers[w := Created(s.writers[w].workflow, s.writers[w].next)])
        else s
      case Retry(w) =>
        if s.writers[w].Read? || s.writers[w].Inserted? then
          s.(writers := s.writers[w := if s.writers[w].attempt + 1 < MAX_ATTEMPTS
                                       then Ready(s.writers[w].workflow, s.writers[w].attempt + 1) else GaveUp])
        else s
      case Fail(w) => s.(writers := s.writers[w := GaveUp])
  }

  function After(es: seq<Event>): State {
    if es == [] then State({}, map[]) else Apply(After(es[..|es| - 1]), es[|es| - 1])
  }

  ghost predicate IsRun(es: seq<Event>) {
    forall i :: 0 <= i < |es| ==> Enabled(After(es[..i]), es[i])
  }

  // ---- Invariant ------------------------------------------------------------------------------

  /** Number k directly follows a committed number, or is the first. */
  ghost predicate Follows(committed: set<(Id, nat)>, wf: Id, k: nat) {
    k >= 1 && (k == 1 || (wf, k - 1) in committed)
  }

  ghost predicate WriterOk(s: State, w: Id) {
    w in s.writers ==>
      match s.writers[w]
      case Read(wf, _, next) => Follows(s.committed, wf, next)
      case Inserted(wf, _, next) => Follows(s.committed, wf, next) && KeyIsFree(s, w, wf, next)
      case Created(wf, number) => (wf, number) in s.committed
      case _ => true
  }

  /** Two writers never get the same number. */
  ghost predicate OwnNumber(s: State, v: Id, w: Id) {
    v in s.writers && w in s.writers && v != w && s.writers[v].Created? && s.writers[w].Created? ==>
      !(s.writers[v].workflow == s.writers[w].workflow && s.writers[v].number == s.writers[w].number)
  }

  ghost predicate Grounded(committed: set<(Id, nat)>, wf: Id, k: nat) {
    (wf, k) in committed ==> Follows(committed, wf, k)
  }

  ghost predicate Inv(s: State) {
    && (forall wf, k :: Grounded(s.committed, wf, k))
    && (forall w :: WriterOk(s, w))
    && (forall v, w :: OwnNumber(s, v, w))
  }

  lemma StepKeepsWriters(s: State, e: Event, v: Id)
    requires Inv(s) && Enabled(s, e)
    ensures WriterOk(Apply(s, e), v)
  {
    assert WriterOk(s, v);
    if e.Call? {
    } else {
      assert WriterOk(s, e.writer);
    }
  }

  lemma StepKeepsInv(s: State, e: Event)
    requires Inv(s) && Enabled(s, e)
    ensures Inv(Apply(s, e))
  {
    var t := Apply(s, e);
    forall wf, k
      ensures Grounded(t.committed, wf, k)
    {
      assert Grounded(s.committed, wf, k);
      assert e.Commit? ==> WriterOk(s, e.writer);
    }
    forall v
      ensures WriterOk(t, v)
    {
      StepKeepsWriters(s, e, v);
    }
    forall v, w
      ensures OwnNumber(t, v, w)
    {
      assert OwnNumber(s, v, w) && WriterOk(s, v) && WriterOk(s, w);
    }
  }

  lemma {:induction false} RunKeepsInv(es: seq<Event>)
    requires IsRun(es)
    ensures Inv(After(es))
  {
    if es != [] {
      var n := |es| - 1;
      forall i | 0 <= i < n
        ensures Enabled(After(es[..n][..i]), es[..n][i])
      {
        assert es[..n][..i] == es[..i];
      }
      RunKeepsInv(es[..n]);
      StepKeepsInv(After(es[..n]), es[n]);
    }
  }

  // ---- Gapless numbers -------------------------------------------------------------------------

  function Numbers(committed: set<(Id, nat)>, wf: Id): set<nat> {
    set p | p in committed && p.0 == wf :: p.1
  }

  /** The numbers from 1 to n. */
  function UpTo(n: nat): (r: set<nat>)
    ensures |r| == n
    ensures forall k :: k in r <==> 1 <= k <= n
  {
    if n == 0 then {} else UpTo(n - 1) + {n}
  }

  lemma {:induction false} BelowIsCommitted(committed: set<(Id, nat)>, wf: Id, k: nat)
    requires forall v, m :: Grounded(committed, v, m)
    requires (wf, k) in committed
    ensures UpTo(k) <= Numbers(committed, wf)
  {
    assert Grounded(committed, wf, k);
    var p := (wf, k);
    assert p.0 == wf && p.1 in Numbers(committed, wf);
    if k > 1 {
      BelowIsCommitted(committed, wf, k - 1);
    }
  }

  lemma SubsetSize(a: set<nat>, b: set<nat>)
    requires a <= b
    ensures |a| <= |b| && (|a| == |b| ==> a == b)
  {
    assert b == a + (b - a);
  }

  lemma NumberIsBounded(committed: set<(Id, nat)>, wf: Id, k: nat)
    requires forall v, m :: Grounded(committed, v, m)
    requires k in Numbers(committed, wf)
    ensures 1 <= k <= |Numbers(committed, wf)|
  {
    var p :| p in committed && p.0 == wf && p.1 == k;
    assert p == (wf, k) && Grounded(committed, wf, k);
    BelowIsCommitted(committed, wf, k);
    SubsetSize(UpTo(k), Numbers(committed, wf));
  }

  /** In every reachable state, with any number of writers between their steps, the
      committed numbers of each workflow are exactly 1 to n, without gap or repeat. */
  lemma NumbersAreGapless(es: seq<Event>, wf: Id)
    requires IsRun(es)
    ensures
      var numbers := Numbers(After(es).committed, wf);
      numbers == UpTo(|numbers|)
  {
    RunKeepsInv(es);
    var numbers := Numbers(After(es).committed, wf);
    forall k | k in numbers
      ensures k in UpTo(|numbers|)
    {
      NumberIsBounded(After(es).committed, wf, k);
    }
    SubsetSize(numbers, UpTo(|numbers|));
  }

  /** Every writer that succeeded has a committed number of its own. */
  lemma CreatedNumbersAreOwn(es: seq<Event>, v: Id, w: Id)
    requires IsRun(es)
    requires v in After(es).writers && w in After(es).writers && v != w
    requires After(es).writers[v].Created? && After(es).writers[w].Created?
    requires After(es).writers[v].workflow == After(es).writers[w].workflow
    ensures After(es).writers[v].number != After(es).writers[w].number
    ensures (After(es).writers[v].workflow, After(es).writers[v].number) in After(es).committed
  {
    RunKeepsInv(es);
    assert OwnNumber(After(es), v, w) && WriterOk(After(es), v);
  }

  // ---- What a writer gets -------------------------------------------------------------------------

  /** The number a writer is about to commit is the next one, whatever others have committed
      since it read the maximum. */
  lemma NextIsNext(s: State, w: Id)
    requires Inv(s) && w in s.writers && s.writers[w].Inserted?
    ensures s.writers[w].next == |Numbers(s.committed, s.writers[w].workflow)| + 1
  {
    var wf, next := s.writers[w].workflow, s.writers[w].next;
    var numbers := Numbers(s.committed, wf);
    assert WriterOk(s, w);
    forall k | k in numbers
      ensures k < next
    {
      if next <= k {
        NumberIsThere(s.committed, wf, k, next);
      }
    }
    forall k: nat | 1 <= k < next
      ensures k in numbers
    {
      BelowIsCommitted(s.committed, wf, next - 1);
    }
    forall k | k in numbers
      ensures 1 <= k
    {
      NumberIsBounded(s.committed, wf, k);
    }
    assert numbers == UpTo(next - 1);
  }

  lemma NumberIsThere(committed: set<(Id, nat)>, wf: Id, k: nat, j: nat)
    requires forall v, m :: Grounded(committed, v, m)
    requires k in Numbers(committed, wf) && 1 <= j <= k
    ensures (wf, j) in committed
  {
    var p :| p in committed && p.0 == wf && p.1 == k;
    assert p == (wf, k);
    BelowIsCommitted(committed, wf, k);
    assert j in UpTo(k);
    var q :| q in committed && q.0 == wf && q.1 == j;
    assert q == (wf, j);
  }

  /** Every commit adds exactly one number to its workflow, the one after those there were, and
      tells its writer so. No other step changes the committed numbers. */
  lemma CommitAddsNext(es: seq<Event>, e: Event)
    requires IsRun(es + [e])
    ensures Enabled(After(es), e)
    ensures !e.Commit? ==> Apply(After(es), e).committed == After(es).committed
    ensures e.Commit? ==>
              var wf := After(es).writers[e.writer].workflow;
              var n := |Numbers(After(es).committed, wf)|;
              && Apply(After(es), e).committed == After(es).committed + {(wf, n + 1)}
              && Apply(After(es), e).writers[e.writer] == Created(wf, n + 1)
  {
    LastStep(es, e);
    RunKeepsInv(es);
    if e.Commit? {
      NextIsNext(After(es), e.writer);
    }
  }

  lemma LastStep(es: seq<Event>, e: Event)
    requires IsRun(es + [e])
    ensures IsRun(es) && Enabled(After(es), e) && After(es + [e]) == Apply(After(es), e)
  {
    var all := es + [e];
    assert all[..|es|] == es && all[|es|] == e;
    forall i | 0 <= i < |es|
      ensures Enabled(After(es[..i]), es[i])
    {
      assert all[..i] == es[..i] && all[i] == es[i];
    }
  }

  /** A writer that loses a race starts over with its next attempt, and gives up exactly when
      that was its tenth. */
  lemma RetryExactly(s: State, w: Id)
    requires Enabled(s, Retry(w))
    ensures
      var after := Apply(s, Retry(w)).writers[w];
      && (after == GaveUp <==> s.writers[w].attempt + 1 >= 10)
      && (after != GaveUp ==> after == Ready(s.writers[w].workflow, s.writers[w].attempt + 1))
  {
  }

  /** A writer with no rival in the act of inserting succeeds: whatever the others have done so
      far, it can read, insert and commit, and gets the next number. */
  lemma LoneWriterSucceeds(s: State, w: Id, wf: Id)
    requires Inv(s) && w !in s.writers
    requires forall v :: v in s.writers && s.writers[v].Inserted? ==> s.writers[v].workflow != wf
    ensures
      var n := |Numbers(s.committed, wf)|;
      var s1 := Apply(s, Call(w, wf));
      var s2 := Apply(s1, ReadMax(w, n));
      var s3 := Apply(s2, Insert(w));
      && Enabled(s, Call(w, wf)) && Enabled(s1, ReadMax(w, n)) && Enabled(s2, Insert(w)) && Enabled(s3, Commit(w))
      && Apply(s3, Commit(w)).writers[w] == Created(wf, n + 1)
  {
    var numbers := Numbers(s.committed, wf);
    var n := |numbers|;
    HighestIsCount(s, wf);
    assert (wf, n + 1) !in s.committed;
  }

  lemma HighestIsCount(s: State, wf: Id)
    requires Inv(s)
    ensures IsHighest(s.committed, wf, |Numbers(s.committed, wf)|)
  {
    var numbers := Numbers(s.committed, wf);
    forall k: nat | (wf, k) in s.committed
      ensures k <= |numbers|
    {
      var p := (wf, k);
      assert p.1 in numbers;
      NumberIsBounded(s.committed, wf, k);
    }
    if |numbers| > 0 {
      forall k | k in numbers
        ensures k in UpTo(|numbers|)
      {
        NumberIsBounded(s.committed, wf, k);
      }
      SubsetSize(numbers, UpTo(|numbers|));
      NumberIsThere(s.committed, wf, |numbers|, |numbers|);
    }
  }
}
