/** Notions that every part of the model uses. */
module Basics {
  /** A value that may be missing: SQL NULL, a Go nil pointer, an absent map entry. */
  datatype Option<+T> = None | Some(value: T)

  function Lookup<K, V>(m: map<K, V>, k: K): Option<V> {
    if k in m then Some(m[k]) else None
  }

  function Max(a: int, b: int): int {
    if a > b then a else b
  }

  /** The first `n` elements of `s` all satisfy `p`, as a loop over `s` establishes it. */
  ghost predicate All<T>(s: seq<T>, n: nat, p: T -> bool)
    requires n <= |s|
  {
    n == 0 || (All(s, n - 1, p) && p(s[n - 1]))
  }

  lemma {:induction false} AllAt<T>(s: seq<T>, n: nat, p: T -> bool, i: nat)
    requires i < n <= |s| && All(s, n, p)
    ensures p(s[i])
  {
    if i < n - 1 {
      AllAt(s, n - 1, p, i);
    }
  }

  /** How a loop decides that all elements satisfy `p`. */
  lemma AllStep<T>(s: seq<T>, p: T -> bool, i: nat)
    requires i < |s| && All(s, i, p)
    ensures p(s[i]) ==> All(s, i + 1, p)
    ensures !p(s[i]) ==> !All(s, |s|, p)
  {
    if All(s, |s|, p) {
      AllAt(s, |s|, p, i);
    }
  }

  function Elems(s: seq<string>): set<string> {
    set x | x in s
  }

  ghost predicate Unique(s: seq<string>) {
    forall i, j :: 0 <= i < j < |s| ==> s[i] != s[j]
  }

  /** How a loop that remembers what it has seen decides uniqueness. */
  lemma UniqueStep(s: seq<string>, i: nat)
    requires i < |s|
    ensures Unique(s[..i + 1]) <==> Unique(s[..i]) && s[i] !in Elems(s[..i])
    ensures Elems(s[..i + 1]) == Elems(s[..i]) + {s[i]}
    ensures Unique(s) ==> Unique(s[..i + 1])
  {
    assert s[..i + 1] == s[..i] + [s[i]];
    if s[i] in Elems(s[..i]) {
      var k :| 0 <= k < i && s[..i][k] == s[i];
      assert s[..i + 1][k] == s[..i + 1][i];
    }
  }

  /** How a loop decides that all elements satisfy `p` and have different keys. */
  lemma DistinctStep<T>(s: seq<T>, keys: seq<string>, p: T -> bool, i: nat)
    requires i < |s| == |keys| && All(s, i, p) && Unique(keys[..i])
    ensures p(s[i]) && keys[i] !in Elems(keys[..i]) ==> All(s, i + 1, p) && Unique(keys[..i + 1])
    ensures !p(s[i]) || keys[i] in Elems(keys[..i]) ==> !(All(s, |s|, p) && Unique(keys))
    ensures Elems(keys[..i + 1]) == Elems(keys[..i]) + {keys[i]}
  {
    UniqueStep(keys, i);
    if All(s, |s|, p) {
      AllAt(s, |s|, p, i);
    }
  }

  /** The positions at which `p` holds. */
  function Where<T>(s: seq<T>, p: T -> bool): set<nat> {
    set i: nat | i < |s| && p(s[i])
  }

  lemma WhereSnoc<T>(s: seq<T>, p: T -> bool)
    requires s != []
    ensures |Where(s, p)| == |Where(s[..|s| - 1], p)| + if p(s[|s| - 1]) then 1 else 0
  {
    var n := |s| - 1;
    assert Where(s, p) == Where(s[..n], p) + if p(s[n]) then {n} else {};
  }

  lemma WhereNone<T>(s: seq<T>, p: T -> bool)
    ensures |Where(s, p)| == 0 <==> forall i :: 0 <= i < |s| ==> !p(s[i])
  {
    if |Where(s, p)| == 0 {
      forall i: nat | i < |s|
        ensures !p(s[i])
      {
        assert i !in Where(s, p);
      }
    }
  }

  /** The last element that satisfies `p`, if any. */
  function LastWith<T>(s: seq<T>, p: T -> bool): Option<T> {
    if s == [] then None
    else if p(s[|s| - 1]) then Some(s[|s| - 1])
    else LastWith(s[..|s| - 1], p)
  }

  lemma {:induction false} LastIs<T>(s: seq<T>, p: T -> bool, i: nat)
    requires i < |s| && p(s[i]) && forall k :: i < k < |s| ==> !p(s[k])
    ensures LastWith(s, p) == Some(s[i])
  {
    if i < |s| - 1 {
      LastIs(s[..|s| - 1], p, i);
    }
  }

  lemma {:induction false} NoneIsLast<T>(s: seq<T>, p: T -> bool)
    ensures LastWith(s, p).None? <==> forall i :: 0 <= i < |s| ==> !p(s[i])
  {
    if s != [] {
      var front := s[..|s| - 1];
      NoneIsLast(front, p);
      assert forall i :: 0 <= i < |front| ==> front[i] == s[i];
    }
  }
}
