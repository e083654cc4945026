/** Payment settlement in the fixture application (test-api/src/payment-service.ts,
    test-api/src/domain.ts): submissions, a queue that delivers at least once, and handlers
    that may fail or die after any step. */
module Payments {
  type Id = string

  datatype Status = Pending | Settled

  datatype Payment = Payment(amount: int, status: Status, key: string)

  datatype Entry = Authorization | Settlement

  datatype Message = Message(paymentId: Id, amount: int, retries: int)

  /** A handler between its awaits. Transitioned: its transaction settled the payment. */
  datatype Handler =
    | Received(message: Message)
    | Transitioned(message: Message)
    | EventSent(message: Message)
    | Finished

  /** `accepted` are the submissions whose create transaction committed;
      `posted` are all messages ever put on the queue, any of which may be delivered again;
      `sent` counts the settled events per payment; `settler` remembers which handler's
      transaction settled a payment. */
  datatype State = State(
    payments: map<Id, Payment>, ledger: map<(Id, Entry), int>, published: map<Id, bool>,
    accepted: set<(Id, int)>, posted: set<Message>, handlers: map<Id, Handler>, sent: multiset<Id>, settler: map<Id, Id>)

  datatype Event =
    | Submit(paymentId: Id, amount: int, key: string)
    | Post(message: Message)
    | Deliver(handler: Id, message: Message)
    | Settle(handler: Id)
    | Send(handler: Id)
    | MarkPublished(handler: Id)
    | Fail(handler: Id)
    | Die(handler: Id)

  const Start: State := State(map[], map[], map[], {}, {}, map[], multiset{}, map[])

  // ---- domain.ts -----------------------------------------------------------------------------

  const MAX_RETRIES: int := 3

  /** The retry header as Number() reads it. */
  datatype Header = Absent | Finite(value: real) | NotFinite

  /** nextRetryCount: the next whole number above the count it was given, or one. */
  function NextRetryCount(header: Header): (next: int)
    ensures next >= 1
    ensures header.Finite? && header.value >= 0.0 ==> header.value < next as real <= header.value + 1.0
    ensures !header.Finite? || header.value < 0.0 ==> next == 1
  {
    var current := if header.Finite? then header.value else 0.0;
    if !header.NotFinite? && current >= 0.0 then current.Floor + 1 else 1
  }

  predicate IsRetryAllowed(next: int) {
    next <= MAX_RETRIES
  }

  // ---- Steps -----------------------------------------------------------------------------------

  /** The unique idempotency key: a new row may not reuse the key of another payment. */
  predicate KeyTaken(s: State, paymentId: Id, key: string) {
    paymentId !in s.payments && exists p :: p in s.payments && s.payments[p].key == key
  }

  ghost predicate Enabled(s: State, e: Event) {
    match e
    case Submit(_, _, _) => true
    case Post(m) => (m.paymentId, m.amount) in s.accepted && m.retries == 0
    case Deliver(h, m) => h !in s.handlers && m in s.posted
    case Settle(h) => h in s.handlers && s.handlers[h].Received?
    case Send(h) => h in s.handlers && s.handlers[h].Transitioned?
    case MarkPublished(h) => h in s.handlers && s.handlers[h].EventSent?
    case Fail(h) => h in s.handlers && !s.handlers[h].Finished?
    case Die(h) => h in s.handlers
  }

  function InsertIfAbsent<K, V>(m: map<K, V>, k: K, v: V): map<K, V> {
    if k in m then m else m[k := v]
  }

  function Apply(s: State, e: Event): State
    requires Enabled(s, e)
  {
    match e
    case Submit(p, amount, key) =>
      if KeyTaken(s, p, key) then s
      else s.(payments := InsertIfAbsent(s.payments, p, Payment(amount, Pending, key)),
              ledger := InsertIfAbsent(s.ledger, (p, Authorization), amount),
              accepted := s.accepted + {(p, amount)})
    case Post(m) => s.(posted := s.posted + {m})
    case Deliver(h, m) => s.(handlers := s.handlers[h := Received(m)])
    case Settle(h) =>
      var m := s.handlers[h].message;
      if m.paymentId in s.payments && s.payments[m.paymentId].status == Pending then
        s.(payments := s.payments[m.paymentId := s.payments[m.paymentId].(status := Settled)],
           ledger := InsertIfAbsent(s.ledger, (m.paymentId, Settlement), -m.amount),
           published := InsertIfAbsent(s.published, m.paymentId, false),
           handlers := s.handlers[h := Transitioned(m)],
           settler := s.settler[m.paymentId := h])
      else s.(handlers := s.handlers[h := Finished])
    case Send(h) =>
      var m := s.handlers[h].message;
      s.(handlers := s.handlers[h := EventSent(m)], sent := s.sent + multiset{m.paymentId})
    case MarkPublished(h) =>
      s.(handlers := s.handlers[h := Finished], published := s.published[s.handlers[h].message.paymentId := true])
    case Fail(h) =>
      var m := s.handlers[h].message;
      var next := NextRetryCount(Finite(m.retries as real));
      s.(handlers := s.handlers[h := Finished],
         posted := if IsRetryAllowed(next) then s.posted + {m.(retries := next)} else s.posted)
    case Die(h) => s.(handlers := s.handlers[h := Finished])
  }

  ghost predicate Step(s: State, e: Event, t: State) {
    Enabled(s, e) && t == Apply(s, e)
  }

  ghost predicate IsRun(es: seq<Event>, states: seq<State>) {
    && |states| == |es| + 1
    && states[0] == Start
    && forall i, j :: 0 <= i < |es| && j == i + 1 ==> Step(states[i], es[i], states[j])
  }

  /** The sum of a payment's ledger entries. */
  function Balance(s: State, p: Id): int {
    (if (p, Authorization) in s.ledger then s.ledger[(p, Authorization)] else 0)
    + (if (p, Settlement) in s.ledger then s.ledger[(p, Settlement)] else 0)
  }

  // ---- Invariant ---------------------------------------------------------------------------------

  /** One payment's rows hang together, and the event is sent at most once: only while its
      settling handler has not yet sent it can it still be sent. */
  ghost predicate PaymentOk(s: State, p: Id) {
    && (p in s.payments <==> (p, Authorization) in s.ledger)
    && (p in s.payments ==> s.ledger[(p, Authorization)] == s.payments[p].amount && (p, s.payments[p].amount) in s.accepted)
    && ((p, Settlement) in s.ledger ==> (p, -s.ledger[(p, Settlement)]) in s.accepted)
    && ((p, Settlement) in s.ledger <==> p in s.settler)
    && (p in s.settler <==> p in s.payments && s.payments[p].status == Settled)
    && (p in s.settler ==>
          && s.settler[p] in s.handlers
          && !s.handlers[s.settler[p]].Received?
          && (!s.handlers[s.settler[p]].Finished? ==> s.handlers[s.settler[p]].message.paymentId == p))
    && (p !in s.settler ==> s.sent[p] == 0)
    && (p in s.settler && s.handlers[s.settler[p]].Transitioned? ==> s.sent[p] == 0)
    && s.sent[p] <= 1
    && (p in s.published && s.published[p] ==> s.sent[p] == 1)
  }

  ghost predicate HandlerOk(s: State, h: Id) {
    h in s.handlers && !s.handlers[h].Finished? ==>
      && s.handlers[h].message in s.posted
      && (s.handlers[h].Transitioned? || s.handlers[h].EventSent? ==>
            s.handlers[h].message.paymentId in s.settler && s.settler[s.handlers[h].message.paymentId] == h)
      && (s.handlers[h].EventSent? ==> s.sent[s.handlers[h].message.paymentId] == 1)
  }

  ghost predicate Inv(s: State) {
    && (forall p :: PaymentOk(s, p))
    && (forall h :: HandlerOk(s, h))
    && (forall m :: m in s.posted ==> 0 <= m.retries <= MAX_RETRIES && (m.paymentId, m.amount) in s.accepted)
  }

  lemma SubmitKeepsPayment(s: State, e: Event, p: Id)
    requires PaymentOk(s, p) && e.Submit?
    ensures PaymentOk(Apply(s, e), p)
  {
  }

  lemma SettleKeepsPayment(s: State, e: Event, p: Id)
    requires PaymentOk(s, p) && e.Settle? && Enabled(s, e) && HandlerOk(s, e.handler)
    requires (s.handlers[e.handler].message.paymentId, s.handlers[e.handler].message.amount) in s.accepted
    ensures PaymentOk(Apply(s, e), p)
  {
  }

  lemma HandlingKeepsPayment(s: State, e: Event, p: Id)
    requires e.Send? || e.MarkPublished? || e.Fail? || e.Die?
    requires PaymentOk(s, p) && Enabled(s, e) && HandlerOk(s, e.handler)
    ensures PaymentOk(Apply(s, e), p)
  {
  }

  lemma StepKeepsPayment(s: State, e: Event, p: Id)
    requires Inv(s) && Enabled(s, e)
    ensures PaymentOk(Apply(s, e), p)
  {
    assert PaymentOk(s, p);
    match e
    case Submit(_, _, _) => SubmitKeepsPayment(s, e, p);
    case Post(_) =>
    case Deliver(_, _) =>
    case Settle(h) =>
      assert HandlerOk(s, h);
      SettleKeepsPayment(s, e, p);
    case _ =>
      assert HandlerOk(s, e.handler);
      HandlingKeepsPayment(s, e, p);
  }

  lemma StepKeepsHandler(s: State, e: Event, h: Id)
    requires Inv(s) && Enabled(s, e)
    ensures HandlerOk(Apply(s, e), h)
  {
    assert HandlerOk(s, h);
    if e.Settle? || e.Send? {
      assert HandlerOk(s, e.handler);
      assert PaymentOk(s, s.handlers[e.handler].message.paymentId);
    }
  }

  lemma {:induction false} RunKeepsInv(es: seq<Event>, states: seq<State>, n: nat)
    requires IsRun(es, states) && n < |states|
    ensures Inv(states[n])
  {
    if n > 0 {
      RunKeepsInv(es, states, n - 1);
      var s, e := states[n - 1], es[n - 1];
      assert Step(states[n - 1], es[n - 1], states[n]) && states[n] == Apply(s, e);
      forall p
        ensures PaymentOk(states[n], p)
      {
        StepKeepsPayment(s, e, p);
      }
      forall h
        ensures HandlerOk(states[n], h)
      {
        StepKeepsHandler(s, e, h);
      }
      if e.Fail? {
        assert HandlerOk(s, e.handler);
      }
    }
  }

  // ---- The guarantees --------------------------------------------------------------------------

  lemma {:induction false} AcceptedWasSubmitted(es: seq<Event>, states: seq<State>, n: nat, p: Id, amount: int)
    requires IsRun(es, states) && n < |states|
    requires (p, amount) in states[n].accepted
    ensures exists i :: 0 <= i < n && es[i].Submit? && es[i].paymentId == p && es[i].amount == amount
  {
    if n > 0 {
      assert Step(states[n - 1], es[n - 1], states[n]) && states[n] == Apply(states[n - 1], es[n - 1]);
      if (p, amount) in states[n - 1].accepted {
        AcceptedWasSubmitted(es, states, n - 1, p, amount);
      }
    }
  }

  /** If all submissions of a payment carry the same amount, then under any redelivery,
      retry, failure or crash its ledger sums to that amount while it is pending and to zero
      once it is settled. */
  lemma LedgerBalances(es: seq<Event>, states: seq<State>, n: nat, p: Id, amount: int)
    requires IsRun(es, states) && n < |states|
    requires forall i :: 0 <= i < n && es[i].Submit? && es[i].paymentId == p ==> es[i].amount == amount
    requires p in states[n].payments
    ensures Balance(states[n], p) == if states[n].payments[p].status == Pending then amount else 0
  {
    RunKeepsInv(es, states, n);
    var s := states[n];
    assert PaymentOk(s, p);
    AcceptedWasSubmitted(es, states, n, p, s.payments[p].amount);
    if (p, Settlement) in s.ledger {
      AcceptedWasSubmitted(es, states, n, p, -s.ledger[(p, Settlement)]);
    }
  }

  /** In general a settled payment balances exactly when the message that settled it carried
      the amount of its first submission. */
  lemma SettledBalanceExactly(es: seq<Event>, states: seq<State>, n: nat, h: Id)
    requires IsRun(es, states) && n < |es|
    requires es[n] == Settle(h) && states[n + 1].handlers[h].Transitioned?
    ensures
      var m := states[n].handlers[h].message;
      && states[n + 1].payments[m.paymentId].status == Settled
      && (Balance(states[n + 1], m.paymentId) == 0 <==> m.amount == states[n].payments[m.paymentId].amount)
  {
    RunKeepsInv(es, states, n);
    assert Step(states[n], es[n], states[n + 1]);
    assert PaymentOk(states[n], states[n].handlers[h].message.paymentId);
  }

  lemma {:induction false} SettledStays(es: seq<Event>, states: seq<State>, m: nat, n: nat, p: Id)
    requires IsRun(es, states) && m <= n < |states|
    requires p in states[m].settler
    ensures p in states[n].settler && states[n].settler[p] == states[m].settler[p]
    decreases n
  {
    if m < n {
      SettledStays(es, states, m, n - 1, p);
      RunKeepsInv(es, states, n - 1);
      assert Step(states[n - 1], es[n - 1], states[n]) && states[n] == Apply(states[n - 1], es[n - 1]);
      assert PaymentOk(states[n - 1], p);
    }
  }

  /** Step n settles payment p. */
  ghost predicate Settles(es: seq<Event>, states: seq<State>, n: nat, p: Id)
    requires IsRun(es, states) && n < |es|
  {
    && es[n].Settle?
    && p in states[n].payments && states[n].payments[p].status == Pending
    && p in states[n + 1].payments && states[n + 1].payments[p].status == Settled
  }

  /** A payment settles once. */
  lemma SettlesOnce(es: seq<Event>, states: seq<State>, m: nat, n: nat, p: Id)
    requires IsRun(es, states) && m < n < |es|
    requires Settles(es, states, m, p)
    ensures !Settles(es, states, n, p)
  {
    RunKeepsInv(es, states, m + 1);
    assert PaymentOk(states[m + 1], p);
    SettledStays(es, states, m + 1, n, p);
    RunKeepsInv(es, states, n);
    assert PaymentOk(states[n], p);
  }

  /** The settled event of a payment is sent at most once, never before it is settled, and
      its row says published only if it was sent. */
  lemma EventSentAtMostOnce(es: seq<Event>, states: seq<State>, n: nat, p: Id)
    requires IsRun(es, states) && n < |states|
    ensures states[n].sent[p] <= 1
    ensures states[n].sent[p] == 1 ==> p in states[n].payments && states[n].payments[p].status == Settled
    ensures p in states[n].published && states[n].published[p] ==> states[n].sent[p] == 1
  {
    RunKeepsInv(es, states, n);
    assert PaymentOk(states[n], p);
  }

  /** No message is ever retried more than three times. */
  lemma RetriesAreBounded(es: seq<Event>, states: seq<State>, n: nat, m: Message)
    requires IsRun(es, states) && n < |states| && m in states[n].posted
    ensures 0 <= m.retries <= 3
  {
    RunKeepsInv(es, states, n);
  }

  // ---- What each step brings about ------------------------------------------------------------

  /** A submission whose idempotency key is free, or that repeats its payment, is accepted: a
      new payment is pending for its amount and authorized in the ledger, an existing one
      stays as it is. A key of another payment refuses it. */
  lemma SubmissionExactly(s: State, p: Id, amount: int, key: string)
    requires Inv(s)
    ensures
      var t := Apply(s, Submit(p, amount, key));
      var refused := p !in s.payments && exists q :: q in s.payments && s.payments[q].key == key;
      && (refused ==> t == s)
      && (!refused ==> (p, amount) in t.accepted && p in t.payments)
      && (!refused && p !in s.payments ==> t.payments[p] == Payment(amount, Pending, key) && Balance(t, p) == amount)
      && (p in s.payments ==> t.payments == s.payments && Balance(t, p) == Balance(s, p))
      && (forall q :: q != p && q in s.payments ==> q in t.payments && t.payments[q] == s.payments[q] && Balance(t, q) == Balance(s, q))
  {
    assert PaymentOk(s, p);
  }

  /** A delivered message settles its payment exactly when that is pending, and otherwise
      changes no payment and no ledger entry. */
  lemma SettlementExactly(s: State, h: Id)
    requires Inv(s) && Enabled(s, Settle(h))
    ensures
      var m, t := s.handlers[h].message, Apply(s, Settle(h));
      && (t.handlers[h].Transitioned? <==> m.paymentId in s.payments && s.payments[m.paymentId].status == Pending)
      && (t.handlers[h].Transitioned? ==>
            && t.payments == s.payments[m.paymentId := s.payments[m.paymentId].(status := Settled)]
            && Balance(t, m.paymentId) == s.payments[m.paymentId].amount - m.amount)
      && (!t.handlers[h].Transitioned? ==> t.payments == s.payments && t.ledger == s.ledger && t.handlers[h].Finished?)
  {
    assert PaymentOk(s, s.handlers[h].message.paymentId);
  }

  /** A handler that fails puts its message back with one more retry exactly while it had fewer
      than three; after that the message is not put back. */
  lemma FailureExactly(s: State, h: Id)
    requires Inv(s) && Enabled(s, Fail(h))
    ensures
      var m, t := s.handlers[h].message, Apply(s, Fail(h));
      && t.posted == (if m.retries < 3 then s.posted + {m.(retries := m.retries + 1)} else s.posted)
      && t.payments == s.payments && t.ledger == s.ledger && t.sent == s.sent
  {
    assert HandlerOk(s, h);
  }

  /** The settling handler sends the event and then marks the row, one after the other. */
  lemma PublicationExactly(s: State, h: Id)
    requires Inv(s) && h in s.handlers && s.handlers[h].Transitioned?
    ensures
      var p := s.handlers[h].message.paymentId;
      var s1 := Apply(s, Send(h));
      && Enabled(s, Send(h)) && s1.sent == s.sent + multiset{p} && s1.sent[p] == 1
      && Enabled(s1, MarkPublished(h))
      && Apply(s1, MarkPublished(h)).published == s.published[p := true]
  {
    assert HandlerOk(s, h);
    assert PaymentOk(s, s.handlers[h].message.paymentId);
  }

  /** Every accepted submission can be put on the queue, and nothing but accepted submissions
      and their retries ever is. */
  lemma AcceptedCanBePosted(s: State, p: Id, amount: int)
    requires Inv(s)
    ensures (p, amount) in s.accepted <==> Enabled(s, Post(Message(p, amount, 0)))
    ensures forall m :: m in s.posted ==> (m.paymentId, m.amount) in s.accepted
  {
  }

  /** Any message still on the queue for a pending payment can be delivered and settles it. */
  lemma PendingPaymentCanSettle(s: State, m: Message, h: Id)
    requires Inv(s) && m in s.posted && h !in s.handlers
    requires m.paymentId in s.payments && s.payments[m.paymentId].status == Pending
    ensures
      var s1 := Apply(s, Deliver(h, m));
      && Enabled(s, Deliver(h, m)) && Enabled(s1, Settle(h))
      && Apply(s1, Settle(h)).payments[m.paymentId].status == Settled
  {
  }

  ghost predicate Reached(s: State) {
    exists es: seq<Event>, states: seq<State> :: IsRun(es, states) && states[|es|] == s
  }

  lemma ReachStart()
    ensures Reached(Start)
  {
    assert IsRun([], [Start]);
  }

  lemma ReachStep(s: State, e: Event, t: State)
    requires Reached(s) && Step(s, e, t)
    ensures Reached(t)
  {
    var es: seq<Event>, states: seq<State> :| IsRun(es, states) && states[|es|] == s;
    assert IsRun(es + [e], states + [t]);
    assert (states + [t])[|es + [e]|] == t;
  }

  /** Unequal submissions can leave a settled payment unbalanced, whatever its id: the second
      submission is ignored by the tables, but its message settles the payment for its own
      amount. */
  lemma UnequalAmountsCanUnbalance(p: Id, amount: int, other: int)
    requires amount != other
    ensures exists s: State ::
              && Reached(s)
              && p in s.payments && s.payments[p] == Payment(amount, Settled, s.payments[p].key)
              && Balance(s, p) == amount - other
  {
    var m := Message(p, other, 0);
    var s1 := Start.(payments := map[p := Payment(amount, Pending, "a")], ledger := map[(p, Authorization) := amount],
                     accepted := {(p, amount)});
    var s2 := s1.(accepted := {(p, amount), (p, other)});
    var s3 := s2.(posted := {m});
    var s4 := s3.(handlers := map["h" := Received(m)]);
    ReachStart();
    ReachStep(Start, Submit(p, amount, "a"), s1);
    ReachStep(s1, Submit(p, other, "b"), s2);
    ReachStep(s2, Post(m), s3);
    ReachStep(s3, Deliver("h", m), s4);
    SettlesUnbalanced(s4, m, amount);
    ReachStep(s4, Settle("h"), Apply(s4, Settle("h")));
  }

  lemma SettlesUnbalanced(s: State, m: Message, amount: int)
    requires m.paymentId in s.payments && s.payments[m.paymentId].status == Pending
    requires s.ledger == map[(m.paymentId, Authorization) := amount]
    requires "h" in s.handlers && s.handlers["h"] == Received(m)
    ensures Step(s, Settle("h"), Apply(s, Settle("h")))
    ensures
      var t := Apply(s, Settle("h"));
      && t.payments == s.payments[m.paymentId := s.payments[m.paymentId].(status := Settled)]
      && Balance(t, m.paymentId) == amount - m.amount
  {
  }
}
