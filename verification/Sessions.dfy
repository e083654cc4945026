/** Deleting sessions while others register and delete them: Register and DeleteWithContext
    in runner-v2/pkg/session/manager.go. Every step between two lock operations is one
    event; `mu` makes each read or write of the table atomic, and each session object has
    its own cleanup lock. */
module Sessions {
  type Id = string

  /** One session object: pointers differ by serial number. */
  datatype Session = Session(id: Id, serial: nat)

  datatype Outcome = Deleted | NotFound | CleanupFailed

  /** How far one call of DeleteWithContext has come. */
  datatype Deleter =
    | Found(session: Session)
    | Locked(session: Session)
    | Cleaning(session: Session)
    | Cleaned(session: Session)
    | Returned(outcome: Outcome)

  /** `cleaned` remembers the sessions whose cleanup has succeeded. */
  datatype State = State(
    sessions: map<Id, Session>, serial: nat, locks: map<Session, Id>, deleters: map<Id, Deleter>, cleaned: set<Session>)

  datatype Event =
    | Register(id: Id)
    | LookUp(call: Id, id: Id)
    | Lock(call: Id)
    | Recheck(call: Id)
    | FinishCleanup(call: Id, ok: bool)
    | Remove(call: Id)

  const Start: State := State(map[], 0, map[], map[], {})

  predicate Enabled(s: State, e: Event) {
    match e
    case Register(_) => true
    case LookUp(c, _) => c !in s.deleters
    case Lock(c) => c in s.deleters && s.deleters[c].Found? && s.deleters[c].session !in s.locks
    case Recheck(c) => c in s.deleters && s.deleters[c].Locked?
    case FinishCleanup(c, _) => c in s.deleters && s.deleters[c].Cleaning?
    case Remove(c) => c in s.deleters && s.deleters[c].Cleaned?
  }

  /** `m.sessions[id] == session`. */
  predicate IsCurrent(s: State, x: Session) {
    x.id in s.sessions && s.sessions[x.id] == x
  }

  function Return(s: State, call: Id, x: Session, outcome: Outcome): State {
    s.(locks := s.locks - {x}, deleters := s.deleters[call := Returned(outcome)])
  }

  function Apply(s: State, e: Event): State
    requires Enabled(s, e)
  {
    match e
    case Register(id) =>
      s.(sessions := s.sessions[id := Session(id, s.serial)], serial := s.serial + 1)
    case LookUp(c, id) =>
      s.(deleters := s.deleters[c := if id in s.sessions then Found(s.sessions[id]) else Returned(NotFound)])
    case Lock(c) =>
      var x := s.deleters[c].session;
      s.(locks := s.locks[x := c], deleters := s.deleters[c := Locked(x)])
    case Recheck(c) =>
      var x := s.deleters[c].session;
      if IsCurrent(s, x) then s.(deleters := s.deleters[c := Cleaning(x)])
      else Return(s, c, x, NotFound)
    case FinishCleanup(c, ok) =>
      var x := s.deleters[c].session;
      if ok then s.(deleters := s.deleters[c := Cleaned(x)], cleaned := s.cleaned + {x})
      else Return(s, c, x, CleanupFailed)
    case Remove(c) =>
      var x := s.deleters[c].session;
      Return(if IsCurrent(s, x) then s.(sessions := s.sessions - {x.id}) else s, c, x, Deleted)
  }

  /** The states of a run: each follows from the one before by its event. */
  ghost predicate IsRun(es: seq<Event>, states: seq<State>) {
    && |states| == |es| + 1
    && states[0] == Start
    && forall i :: 0 <= i < |es| ==> Enabled(states[i], es[i]) && states[i + 1] == Apply(states[i], es[i])
  }

  // ---- Invariant -----------------------------------------------------------------------------

  predicate Holds(d: Deleter, x: Session) {
    (d.Locked? || d.Cleaning? || d.Cleaned?) && d.session == x
  }

  /** A call holds a session's lock exactly from Lock to its return. */
  ghost predicate CallOk(s: State, c: Id) {
    c in s.deleters ==>
      && (!s.deleters[c].Returned? ==> s.deleters[c].session.serial < s.serial)
      && (!s.deleters[c].Returned? && !s.deleters[c].Found? ==>
            s.deleters[c].session in s.locks && s.locks[s.deleters[c].session] == c)
      && (s.deleters[c].Cleaned? ==> s.deleters[c].session in s.cleaned)
      && (s.deleters[c].Cleaning? ==> s.deleters[c].session !in s.cleaned)
  }

  /** A cleaned session that is still in the table is about to be removed by the call that
      cleaned it, which still holds the lock. */
  ghost predicate SessionOk(s: State, x: Session) {
    && (IsCurrent(s, x) ==> x.serial < s.serial)
    && (x in s.locks ==> s.locks[x] in s.deleters && Holds(s.deleters[s.locks[x]], x))
    && (x in s.cleaned ==> x.serial < s.serial)
    && (x in s.cleaned && IsCurrent(s, x) ==> x in s.locks && s.deleters[s.locks[x]].Cleaned?)
  }

  ghost predicate Inv(s: State) {
    && (forall id :: id in s.sessions ==> s.sessions[id].id == id)
    && (forall c :: CallOk(s, c))
    && (forall x :: SessionOk(s, x))
  }

  lemma StepKeepsCalls(s: State, e: Event, c: Id)
    requires Inv(s) && Enabled(s, e)
    ensures CallOk(Apply(s, e), c)
  {
    assert CallOk(s, c);
    if !e.Register? {
      assert CallOk(s, e.call);
      if e.call in s.deleters && !s.deleters[e.call].Returned? {
        assert SessionOk(s, s.deleters[e.call].session);
      }
    }
    if e.LookUp? && e.id in s.sessions {
      assert SessionOk(s, s.sessions[e.id]);
    }
  }

  lemma StepKeepsSessions(s: State, e: Event, x: Session)
    requires Inv(s) && Enabled(s, e)
    ensures SessionOk(Apply(s, e), x)
  {
    assert SessionOk(s, x);
    if !e.Register? {
      assert CallOk(s, e.call);
    }
    if x in s.locks {
      assert CallOk(s, s.locks[x]);
    }
  }

  lemma StepKeepsInv(s: State, e: Event)
    requires Inv(s) && Enabled(s, e)
    ensures Inv(Apply(s, e))
  {
    forall c
      ensures CallOk(Apply(s, e), c)
    {
      StepKeepsCalls(s, e, c);
    }
    forall x
      ensures SessionOk(Apply(s, e), x)
    {
      StepKeepsSessions(s, e, x);
    }
  }

  lemma {:induction false} RunKeepsInv(es: seq<Event>, states: seq<State>, n: nat)
    requires IsRun(es, states) && n < |states|
    ensures Inv(states[n])
  {
    if n > 0 {
      RunKeepsInv(es, states, n - 1);
      assert states[n - 1 + 1] == Apply(states[n - 1], es[n - 1]);
      StepKeepsInv(states[n - 1], es[n - 1]);
    }
  }

  // ---- The guarantees ------------------------------------------------------------------------

  /** Cleanups of one session never overlap. */
  lemma CleanupsDoNotOverlap(es: seq<Event>, states: seq<State>, n: nat, c: Id, d: Id)
    requires IsRun(es, states) && n < |states|
    requires c in states[n].deleters && states[n].deleters[c].Cleaning?
    requires d in states[n].deleters && states[n].deleters[d].Cleaning?
    requires states[n].deleters[c].session == states[n].deleters[d].session
    ensures c == d
  {
    RunKeepsInv(es, states, n);
    assert CallOk(states[n], c) && CallOk(states[n], d);
  }

  lemma {:induction false} CleanedStays(es: seq<Event>, states: seq<State>, m: nat, n: nat, x: Session)
    requires IsRun(es, states) && m <= n < |states|
    requires x in states[m].cleaned
    ensures x in states[n].cleaned
    decreases n
  {
    if m < n {
      CleanedStays(es, states, m, n - 1, x);
      assert states[n - 1 + 1] == Apply(states[n - 1], es[n - 1]);
    }
  }

  /** Once a cleanup of a session has succeeded, no cleanup of it runs at any later point. */
  lemma NoCleanupAfterSuccess(es: seq<Event>, states: seq<State>, m: nat, n: nat, c: Id, d: Id)
    requires IsRun(es, states) && m < n < |states|
    requires es[m] == FinishCleanup(c, true)
    requires d in states[n].deleters && states[n].deleters[d].Cleaning?
    ensures states[n].deleters[d].session != states[m].deleters[c].session
  {
    assert states[m + 1] == Apply(states[m], es[m]);
    CleanedStays(es, states, m + 1, n, states[m].deleters[c].session);
    RunKeepsInv(es, states, n);
    assert CallOk(states[n], d);
  }

  /** A session leaves the table only when a newer one with its id replaces it, or when the
      very call that cleaned it up successfully removes it. So a failed cleanup does not
      remove its session, and a late call never removes a newer session. */
  lemma RemovedOnlyAfterItsCleanup(es: seq<Event>, states: seq<State>, n: nat, x: Session)
    requires IsRun(es, states) && n < |es|
    requires IsCurrent(states[n], x) && !IsCurrent(states[n + 1], x)
    ensures
      || (es[n] == Register(x.id) && states[n + 1].sessions[x.id].serial > x.serial)
      || (es[n].Remove? && states[n].deleters[es[n].call] == Cleaned(x) && x in states[n].cleaned)
  {
    RunKeepsInv(es, states, n);
    assert states[n + 1] == Apply(states[n], es[n]);
    assert SessionOk(states[n], x);
    if es[n].Remove? {
      assert CallOk(states[n], es[n].call);
    }
  }

  /** A deletion whose cleanup fails leaves the table as it was and frees the session for
      another try. */
  lemma FailedCleanupCanBeRetried(es: seq<Event>, states: seq<State>, n: nat, c: Id)
    requires IsRun(es, states) && n < |es|
    requires es[n] == FinishCleanup(c, false)
    ensures states[n + 1].sessions == states[n].sessions
    ensures states[n].deleters[c].session !in states[n + 1].locks
    ensures states[n + 1].deleters[c] == Returned(CleanupFailed)
  {
    assert states[n + 1] == Apply(states[n], es[n]);
  }

  // ---- What a deletion answers ------------------------------------------------------------------

  /** Step n makes call `c` return `outcome`. */
  ghost predicate Answers(es: seq<Event>, states: seq<State>, n: nat, c: Id, outcome: Outcome)
    requires IsRun(es, states) && n < |es|
  {
    && (c in states[n].deleters ==> states[n].deleters[c] != Returned(outcome))
    && c in states[n + 1].deleters && states[n + 1].deleters[c] == Returned(outcome)
  }

  /** A call answers NotFound exactly when its id is not in the table at its LookUp, or its
      session is no longer current at its Recheck; CleanupFailed exactly when its cleanup
      fails; and Deleted exactly when it has come to its removal. */
  lemma AnswersExactly(es: seq<Event>, states: seq<State>, n: nat, c: Id)
    requires IsRun(es, states) && n < |es|
    ensures Answers(es, states, n, c, NotFound) <==>
              || (es[n].LookUp? && es[n].call == c && es[n].id !in states[n].sessions)
              || (es[n] == Recheck(c) && !IsCurrent(states[n], states[n].deleters[c].session))
    ensures Answers(es, states, n, c, CleanupFailed) <==> es[n] == FinishCleanup(c, false)
    ensures Answers(es, states, n, c, Deleted) <==> es[n] == Remove(c)
  {
    assert Enabled(states[n], es[n]) && states[n + 1] == Apply(states[n], es[n]);
  }

  /** Answers are final, and every answer was given by some step. */
  lemma {:induction false} AnswerWasGiven(es: seq<Event>, states: seq<State>, n: nat, c: Id) returns (k: nat)
    requires IsRun(es, states) && n < |states|
    requires c in states[n].deleters && states[n].deleters[c].Returned?
    ensures k < n && Answers(es, states, k, c, states[n].deleters[c].outcome)
    decreases n
  {
    assert Enabled(states[n - 1], es[n - 1]) && states[n - 1 + 1] == Apply(states[n - 1], es[n - 1]);
    if c in states[n - 1].deleters && states[n - 1].deleters[c].Returned? {
      k := AnswerWasGiven(es, states, n - 1, c);
    } else {
      k := n - 1;
    }
  }

  /** A call deals, until it returns, with the session its id named at its LookUp. */
  lemma {:induction false} DealsWithItsSession(es: seq<Event>, states: seq<State>, m: nat, n: nat)
    requires IsRun(es, states) && m < n < |states|
    requires es[m].LookUp? && es[m].id in states[m].sessions
    ensures
      var c := es[m].call;
      c in states[n].deleters
      && (states[n].deleters[c].Returned? || states[n].deleters[c].session == states[m].sessions[es[m].id])
    decreases n
  {
    assert Enabled(states[n - 1], es[n - 1]) && states[n - 1 + 1] == Apply(states[n - 1], es[n - 1]);
    if m + 1 < n {
      DealsWithItsSession(es, states, m, n - 1);
    }
  }

  /** A registered session is current, under a serial number never used before, and no other
      entry changes. */
  lemma RegisteredIsCurrent(es: seq<Event>, states: seq<State>, n: nat)
    requires IsRun(es, states) && n < |es| && es[n].Register?
    ensures
      var x := Session(es[n].id, states[n].serial);
      IsCurrent(states[n + 1], x) && states[n + 1].sessions == states[n].sessions[es[n].id := x]
      && forall y :: IsCurrent(states[n], y) ==> y != x
  {
    assert Enabled(states[n], es[n]) && states[n + 1] == Apply(states[n], es[n]);
    RunKeepsInv(es, states, n);
    forall y | IsCurrent(states[n], y)
      ensures y.serial < states[n].serial
    {
      assert SessionOk(states[n], y);
    }
  }

  lemma {:induction false} GoneForGood(es: seq<Event>, states: seq<State>, m: nat, n: nat, x: Session)
    requires IsRun(es, states) && m <= n < |states|
    requires x.serial < states[m].serial && !IsCurrent(states[m], x)
    ensures x.serial < states[n].serial && !IsCurrent(states[n], x)
    decreases n
  {
    if m < n {
      GoneForGood(es, states, m, n - 1, x);
      assert Enabled(states[n - 1], es[n - 1]) && states[n - 1 + 1] == Apply(states[n - 1], es[n - 1]);
    }
  }

  /** From its Recheck on, a call with a current session goes through cleaning and removal. */
  lemma {:induction false} CleaningLasts(es: seq<Event>, states: seq<State>, m: nat, n: nat, c: Id)
    requires IsRun(es, states) && m < n < |states|
    requires es[m] == Recheck(c) && IsCurrent(states[m], states[m].deleters[c].session)
    requires forall k :: m < k < n ==> es[k] != FinishCleanup(c, true) && es[k] != FinishCleanup(c, false)
    ensures c in states[n].deleters && states[n].deleters[c] == Cleaning(states[m].deleters[c].session)
    decreases n
  {
    assert Enabled(states[n - 1], es[n - 1]) && states[n - 1 + 1] == Apply(states[n - 1], es[n - 1]);
    if m + 1 < n {
      CleaningLasts(es, states, m, n - 1, c);
      assert es[n - 1] != FinishCleanup(c, true) && es[n - 1] != FinishCleanup(c, false);
    }
  }

  /** A call whose session is current at its Recheck and whose cleanup succeeds goes on to its
      removal, answers Deleted, and from then on that session is not current at any point. */
  lemma DeletionSucceeds(es: seq<Event>, states: seq<State>, i: nat, j: nat, k: nat, n: nat, c: Id)
    requires IsRun(es, states) && i < j < k < n < |states|
    requires es[i] == Recheck(c) && IsCurrent(states[i], states[i].deleters[c].session)
    requires forall h :: i < h < j ==> es[h] != FinishCleanup(c, true) && es[h] != FinishCleanup(c, false)
    requires es[j] == FinishCleanup(c, true) && es[k] == Remove(c)
    ensures Enabled(states[j + 1], Remove(c))
    ensures Answers(es, states, k, c, Deleted)
    ensures !IsCurrent(states[n], states[i].deleters[c].session)
  {
    var x := states[i].deleters[c].session;
    CleaningLasts(es, states, i, j, c);
    assert Enabled(states[j], es[j]) && states[j + 1] == Apply(states[j], es[j]);
    CleanedLasts(es, states, j + 1, k, c, x);
    assert Enabled(states[k], es[k]) && states[k + 1] == Apply(states[k], es[k]);
    AnswersExactly(es, states, k, c);
    RunKeepsInv(es, states, k);
    assert CallOk(states[k], c);
    GoneForGood(es, states, k + 1, n, x);
  }

  lemma {:induction false} CleanedLasts(es: seq<Event>, states: seq<State>, m: nat, n: nat, c: Id, x: Session)
    requires IsRun(es, states) && m <= n < |es| && es[n] == Remove(c)
    requires c in states[m].deleters && states[m].deleters[c] == Cleaned(x)
    ensures c in states[n].deleters && states[n].deleters[c] == Cleaned(x)
    decreases n - m
  {
    assert Enabled(states[n], es[n]);
    if m < n {
      assert Enabled(states[m], es[m]) && states[m + 1] == Apply(states[m], es[m]);
      if es[m] == Remove(c) {
        ReturnedLasts(es, states, m + 1, n, c);
      } else {
        CleanedLasts(es, states, m + 1, n, c, x);
      }
    }
  }

  lemma {:induction false} ReturnedLasts(es: seq<Event>, states: seq<State>, m: nat, n: nat, c: Id)
    requires IsRun(es, states) && m <= n < |states|
    requires c in states[m].deleters && states[m].deleters[c].Returned?
    ensures c in states[n].deleters && states[n].deleters[c] == states[m].deleters[c]
    decreases n
  {
    if m < n {
      ReturnedLasts(es, states, m, n - 1, c);
      assert Enabled(states[n - 1], es[n - 1]) && states[n - 1 + 1] == Apply(states[n - 1], es[n - 1]);
    }
  }

  /** No deletion gets stuck: a call that has not returned can take its next step, unless it
      waits for a lock, and then the call that holds it can. */
  lemma CallsCanGoOn(es: seq<Event>, states: seq<State>, n: nat, c: Id) returns (e: Event)
    requires IsRun(es, states) && n < |states|
    requires c in states[n].deleters && !states[n].deleters[c].Returned?
    ensures Enabled(states[n], e) && !e.Register? && !e.LookUp?
    ensures e.call == c || (states[n].deleters[c].Found? && states[n].deleters[c].session in states[n].locks
                            && e.call == states[n].locks[states[n].deleters[c].session])
  {
    var s := states[n];
    RunKeepsInv(es, states, n);
    assert SessionOk(s, s.deleters[c].session);
    var d := if s.deleters[c].Found? && s.deleters[c].session in s.locks then s.locks[s.deleters[c].session] else c;
    match s.deleters[d]
    case Found(_) => e := Lock(d);
    case Locked(_) => e := Recheck(d);
    case Cleaning(_) => e := FinishCleanup(d, true);
    case Cleaned(_) => e := Remove(d);
  }
}
