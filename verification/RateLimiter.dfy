/** The MCP server's per-client request limiter (runner-v2/pkg/mcpserver/server.go):
    a fixed-window counter per client key, whose table is swept now and then. */
module RateLimiting {
  import opened Basics
  import opened FixedWindow

  datatype Call = Call(key: string, at: int)

  datatype Limiter = Limiter(clients: map<string, Window>, lastSweep: int)

  function Swept(clients: map<string, Window>, now: int, window: int): map<string, Window> {
    map k | k in clients && now - clients[k].started < window :: clients[k]
  }

  /** What one call does to the limiter, and its answer. */
  function AllowStep(l: Limiter, call: Call, window: int, limit: int): (Limiter, bool) {
    var due := call.at - l.lastSweep >= window;
    var clients := if due then Swept(l.clients, call.at, window) else l.clients;
    var (w, ok) := Hit(Lookup(clients, call.key), call.at, window, limit);
    (Limiter(clients[call.key := w], if due then call.at else l.lastSweep), ok)
  }

  class RateLimiter {
    const limit: int
    const window: int
    var clients: map<string, Window>
    var lastSweep: int

    constructor (limit: int, window: int, now: int)
      ensures this.limit == limit && this.window == window
      ensures State() == Limiter(map[], now)
    {
      this.limit, this.window := limit, window;
      clients, lastSweep := map[], now;
    }

    ghost function State(): Limiter
      reads this
    {
      Limiter(clients, lastSweep)
    }

    method Allow(key: string, now: int) returns (ok: bool)
      modifies this
      ensures (State(), ok) == AllowStep(old(State()), Call(key, now), window, limit)
    {
      if now - lastSweep >= window {
        var todo := clients.Keys;
        while todo != {}
          invariant todo <= clients.Keys <= old(clients).Keys
          invariant forall k :: k in clients ==> clients[k] == old(clients)[k]
          invariant forall k :: k in old(clients) && k !in todo ==>
                                  (k in clients <==> now - old(clients)[k].started < window)
          invariant lastSweep == old(lastSweep)
          decreases |todo|
        {
          var client :| client in todo;
          todo := todo - {client};
          if now - clients[client].started >= window {
            clients := clients - {client};
          }
        }
        assert clients == Swept(old(clients), now, window);
        lastSweep := now;
      }
      if key !in clients || now - clients[key].started >= window {
        clients := clients[key := Window(now, 1)];
        return true;
      }
      var value := clients[key];
      if value.count >= limit {
        assert clients == clients[key := value];
        return false;
      }
      clients := clients[key := value.(count := value.count + 1)];
      return true;
    }
  }

  /** A whole history of calls: the final table and every answer. */
  function Run(born: int, calls: seq<Call>, window: int, limit: int): (r: (Limiter, seq<bool>))
    ensures |r.1| == |calls|
  {
    if calls == [] then (Limiter(map[], born), [])
    else
      var (l, answers) := Run(born, calls[..|calls| - 1], window, limit);
      var (l', ok) := AllowStep(l, calls[|calls| - 1], window, limit);
      (l', answers + [ok])
  }

  /** The same history against a table that is never swept. */
  function RunUnswept(calls: seq<Call>, window: int, limit: int): (r: (map<string, Window>, seq<bool>))
    ensures |r.1| == |calls|
  {
    if calls == [] then (map[], [])
    else
      var (clients, answers) := RunUnswept(calls[..|calls| - 1], window, limit);
      var call := calls[|calls| - 1];
      var (w, ok) := Hit(Lookup(clients, call.key), call.at, window, limit);
      (clients[call.key := w], answers + [ok])
  }

  ghost predicate MonotoneClock(calls: seq<Call>) {
    forall i, j :: 0 <= i < j < |calls| ==> calls[i].at <= calls[j].at
  }

  /** The swept table agrees with the full one, except that it may have dropped
      windows that have elapsed by `now`. */
  ghost predicate Agrees(swept: map<string, Window>, full: map<string, Window>, now: int, window: int) {
    && (forall k :: k in swept ==> k in full && swept[k] == full[k])
    && (forall k :: k in full && k !in swept ==> now - full[k].started >= window)
  }

  lemma {:induction false} SweptAgrees(born: int, calls: seq<Call>, window: int, limit: int)
    requires MonotoneClock(calls)
    ensures Run(born, calls, window, limit).1 == RunUnswept(calls, window, limit).1
    ensures calls != [] ==>
              Agrees(Run(born, calls, window, limit).0.clients, RunUnswept(calls, window, limit).0,
                     calls[|calls| - 1].at, window)
  {
    if calls != [] {
      SweptAgrees(born, calls[..|calls| - 1], window, limit);
    }
  }

  /** Sweeping never changes an answer: over every history with a monotone clock
      the limiter answers exactly as one that keeps every entry for ever. */
  lemma SweepingIsInvisible(born: int, calls: seq<Call>, window: int, limit: int)
    requires MonotoneClock(calls)
    ensures Run(born, calls, window, limit).1 == RunUnswept(calls, window, limit).1
  {
    SweptAgrees(born, calls, window, limit);
  }

  /** The times at which the calls of `key` were admitted. */
  function AdmittedTimes(calls: seq<Call>, answers: seq<bool>, key: string): seq<int>
    requires |calls| == |answers|
  {
    if calls == [] then []
    else
      var n := |calls| - 1;
      AdmittedTimes(calls[..n], answers[..n], key)
      + if calls[n].key == key && answers[n] then [calls[n].at] else []
  }

  lemma AdmittedSnoc(calls: seq<Call>, answers: seq<bool>, call: Call, ok: bool, key: string)
    requires |calls| == |answers|
    ensures AdmittedTimes(calls + [call], answers + [ok], key) ==
            AdmittedTimes(calls, answers, key) + if call.key == key && ok then [call.at] else []
  {
    assert (calls + [call])[..|calls|] == calls && (answers + [ok])[..|calls|] == answers;
  }

  /** One more call keeps the link between a key's window and its admitted times. */
  lemma TracksStep(clients: map<string, Window>, times: seq<int>, call: Call, window: int, limit: int, key: string)
    requires window > 0
    requires Tracks(Lookup(clients, key), times, window, limit)
    requires times != [] ==> times[|times| - 1] <= call.at
    ensures
      var (w, ok) := Hit(Lookup(clients, call.key), call.at, window, limit);
      Tracks(Lookup(clients[call.key := w], key), times + if call.key == key && ok then [call.at] else [], window, limit)
  {
    var (w, ok) := Hit(Lookup(clients, call.key), call.at, window, limit);
    if call.key == key && ok {
      TracksHit(Lookup(clients, key), times, call.at, window, limit);
    } else {
      assert Lookup(clients[call.key := w], key) == Lookup(clients, key);
      assert times + [] == times;
    }
  }

  lemma {:induction false} UnsweptTracks(calls: seq<Call>, window: int, limit: int, key: string)
    requires window > 0
    requires MonotoneClock(calls)
    ensures
      var (clients, answers) := RunUnswept(calls, window, limit);
      var times := AdmittedTimes(calls, answers, key);
      && Tracks(Lookup(clients, key), times, window, limit)
      && (times != [] ==> calls != [] && times[|times| - 1] <= calls[|calls| - 1].at)
  {
    if calls != [] {
      var front, call := calls[..|calls| - 1], calls[|calls| - 1];
      UnsweptTracks(front, window, limit, key);
      var (clients, answers) := RunUnswept(front, window, limit);
      var (w, ok) := Hit(Lookup(clients, call.key), call.at, window, limit);
      assert calls == front + [call];
      AdmittedSnoc(front, answers, call, ok, key);
      TracksStep(clients, AdmittedTimes(front, answers, key), call, window, limit, key);
    }
  }

  /** No interval of at most one window length ever holds more than twice the
      limit of admitted calls for one key. A limit below one acts as one, because
      a fresh window admits its first call unchecked. */
  lemma AtMostTwiceTheLimit(born: int, calls: seq<Call>, window: int, limit: int, key: string, lo: int, hi: int)
    requires window > 0
    requires MonotoneClock(calls)
    requires hi - lo <= window
    ensures CountIn(AdmittedTimes(calls, Run(born, calls, window, limit).1, key), lo, hi) <= 2 * Max(limit, 1)
  {
    SweepingIsInvisible(born, calls, window, limit);
    UnsweptTracks(calls, window, limit, key);
  }

  /** A call is refused only when at least `limit` calls of its key were admitted within the
      last window length. */
  lemma RefusedOnlyWhenFull(born: int, calls: seq<Call>, call: Call, window: int, limit: int)
    requires window > 0 && MonotoneClock(calls + [call])
    requires !Run(born, calls + [call], window, limit).1[|calls|]
    ensures CountIn(AdmittedTimes(calls, Run(born, calls, window, limit).1, call.key), call.at - window + 1, call.at) >= limit
  {
    var all := calls + [call];
    assert forall i :: 0 <= i < |calls| ==> all[i] == calls[i];
    assert MonotoneClock(calls);
    SweepingIsInvisible(born, all, window, limit);
    SweepingIsInvisible(born, calls, window, limit);
    UnsweptTracks(calls, window, limit, call.key);
    LastAnswer(calls, call, window, limit);
    RefusalIsEarned(Lookup(RunUnswept(calls, window, limit).0, call.key),
                    AdmittedTimes(calls, RunUnswept(calls, window, limit).1, call.key), call.at, window, limit);
  }

  lemma LastAnswer(calls: seq<Call>, call: Call, window: int, limit: int)
    ensures RunUnswept(calls + [call], window, limit).1[|calls|] ==
            Hit(Lookup(RunUnswept(calls, window, limit).0, call.key), call.at, window, limit).1
  {
    assert (calls + [call])[..|calls|] == calls;
  }

  /** Every entry of the table is younger than the window was at the last sweep. */
  ghost predicate Young(l: Limiter, window: int) {
    forall k :: k in l.clients ==> l.lastSweep - l.clients[k].started < window
  }

  lemma StepKeepsYoung(l: Limiter, call: Call, window: int, limit: int)
    requires window > 0 && Young(l, window) && l.lastSweep <= call.at
    ensures
      var (l', _) := AllowStep(l, call, window, limit);
      Young(l', window) && l'.lastSweep <= call.at && call.at - l'.lastSweep < window
  {
  }

  /** Sweeping does its work: whatever happened before, no entry of the table is two windows
      old when a call has been answered. */
  lemma {:induction false} TableStaysYoung(born: int, calls: seq<Call>, window: int, limit: int)
    requires window > 0 && MonotoneClock(calls) && (calls != [] ==> born <= calls[0].at)
    ensures
      var l := Run(born, calls, window, limit).0;
      && Young(l, window)
      && (calls == [] ==> l.lastSweep == born)
      && (calls != [] ==>
            var now := calls[|calls| - 1].at;
            && l.lastSweep <= now < l.lastSweep + window
            && forall k :: k in l.clients ==> now - l.clients[k].started < 2 * window)
  {
    if calls != [] {
      var front := calls[..|calls| - 1];
      TableStaysYoung(born, front, window, limit);
      StepKeepsYoung(Run(born, front, window, limit).0, calls[|calls| - 1], window, limit);
    }
  }
}
