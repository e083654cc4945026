/** The fixed-window request counter that two parts of the runner use: the
    submission limits of the job queue (runner-v2/pkg/db/mysql/workflow_jobs.go)
    and the request limiter of the MCP server (runner-v2/pkg/mcpserver/server.go). */
module FixedWindow {
  import opened Basics

  datatype Window = Window(started: int, count: int)

  /** One request at time `now`: a missing or elapsed window is replaced by a
      fresh one, which admits the request without looking at the limit. */
  function Hit(w: Option<Window>, now: int, length: int, limit: int): (Window, bool) {
    if w.None? || now - w.value.started >= length then
      (Window(now, 1), true)
    else if w.value.count >= limit then
      (w.value, false)
    else
      (Window(w.value.started, w.value.count + 1), true)
  }

  /** How many of `times` lie in the closed interval [lo, hi]. */
  function CountIn(times: seq<int>, lo: int, hi: int): nat {
    if times == [] then 0
    else
      var last := times[|times| - 1];
      CountIn(times[..|times| - 1], lo, hi) + if lo <= last <= hi then 1 else 0
  }

  ghost predicate Nondecreasing(times: seq<int>) {
    forall i, j :: 0 <= i < j < |times| ==> times[i] <= times[j]
  }

  lemma CountAppend(times: seq<int>, t: int, lo: int, hi: int)
    ensures CountIn(times + [t], lo, hi) == CountIn(times, lo, hi) + if lo <= t <= hi then 1 else 0
  {
    assert (times + [t])[..|times|] == times;
  }

  lemma {:induction false} CountSplit(times: seq<int>, lo: int, mid: int, hi: int)
    requires lo <= mid <= hi + 1
    ensures CountIn(times, lo, hi) == CountIn(times, lo, mid - 1) + CountIn(times, mid, hi)
  {
    if times != [] {
      CountSplit(times[..|times| - 1], lo, mid, hi);
    }
  }

  lemma {:induction false} CountMonotone(times: seq<int>, lo: int, hi: int, lo': int, hi': int)
    requires lo' <= lo && hi <= hi'
    ensures CountIn(times, lo, hi) <= CountIn(times, lo', hi')
  {
    if times != [] {
      CountMonotone(times[..|times| - 1], lo, hi, lo', hi');
    }
  }

  lemma {:induction false} CountBounded(times: seq<int>, lo: int, hi: int, top: int)
    requires forall i :: 0 <= i < |times| ==> times[i] <= top
    requires hi >= top
    ensures CountIn(times, lo, hi) == CountIn(times, lo, top)
  {
    if times != [] {
      CountBounded(times[..|times| - 1], lo, hi, top);
    }
  }

  lemma {:induction false} CountAbove(times: seq<int>, lo: int, hi: int)
    requires forall i :: 0 <= i < |times| ==> times[i] < lo
    ensures CountIn(times, lo, hi) == 0
  {
    if times != [] {
      CountAbove(times[..|times| - 1], lo, hi);
    }
  }

  /** The link between a stored window and the history `admitted` of the times it
      admitted: the counter is exact for the current window, and the stretch of
      one window length before it holds no more than one window's worth. */
  ghost predicate Tracks(w: Option<Window>, admitted: seq<int>, length: int, limit: int) {
    && Nondecreasing(admitted)
    && (w.None? ==> admitted == [])
    && (w.Some? ==>
          var s := w.value.started;
          && admitted != []
          && s <= admitted[|admitted| - 1] < s + length
          && w.value.count == CountIn(admitted, s, admitted[|admitted| - 1])
          && w.value.count <= Max(limit, 1)
          && CountIn(admitted, s - length, s - 1) <= Max(limit, 1))
    && forall lo, hi :: hi - lo <= length ==> CountIn(admitted, lo, hi) <= 2 * Max(limit, 1)
  }

  /** An admitted request keeps the link, provided time does not run backwards. */
  lemma TracksHit(w: Option<Window>, admitted: seq<int>, now: int, length: int, limit: int)
    requires length > 0
    requires Tracks(w, admitted, length, limit)
    requires admitted != [] ==> admitted[|admitted| - 1] <= now
    requires Hit(w, now, length, limit).1
    ensures Tracks(Some(Hit(w, now, length, limit).0), admitted + [now], length, limit)
  {
    var next := Hit(w, now, length, limit).0;
    var times := admitted + [now];
    var s := next.started;
    if admitted != [] {
      var last := admitted[|admitted| - 1];
      var s0 := w.value.started;
      CountBounded(admitted, s0, now, last);
      if now - s0 >= length {
        CountMonotone(admitted, now - length, now - 1, s0, now);
        CountAbove(admitted, now, now);
      }
    }
    CountAppend(admitted, now, s, now);
    CountAppend(admitted, now, s - length, s - 1);
    forall lo, hi | hi - lo <= length
      ensures CountIn(times, lo, hi) <= 2 * Max(limit, 1)
    {
      CountAppend(admitted, now, lo, hi);
      if lo <= now <= hi {
        // Everything counted lies in the current window or one length before it.
        CountBounded(times, lo, hi, now);
        CountMonotone(times, lo, now, s - length, now);
        CountSplit(times, s - length, s, now);
      }
    }
  }

  /** A request is refused only when at least `limit` were admitted within the last window
      length. */
  lemma RefusalIsEarned(w: Option<Window>, admitted: seq<int>, now: int, length: int, limit: int)
    requires Tracks(w, admitted, length, limit)
    requires admitted != [] ==> admitted[|admitted| - 1] <= now
    requires !Hit(w, now, length, limit).1
    ensures CountIn(admitted, now - length + 1, now) >= limit
  {
    CountMonotone(admitted, w.value.started, admitted[|admitted| - 1], now - length + 1, now);
  }
}
