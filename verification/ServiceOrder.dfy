/** Services in the order of their names, as translateServices in
    runner-v2/pkg/workflowbundle/bundle.go leaves them. */
module ServiceOrder {
  /** strings.Compare is not positive. */
  predicate NotAfter(a: string, b: string) {
    if a == "" then true
    else if b == "" then false
    else if a[0] != b[0] then a[0] < b[0]
    else NotAfter(a[1..], b[1..])
  }

  lemma {:induction false} Total(a: string, b: string)
    ensures NotAfter(a, b) || NotAfter(b, a)
    decreases |a|
  {
    if a != "" && b != "" {
      Total(a[1..], b[1..]);
    }
  }

  lemma {:induction false} Transitive(a: string, b: string, c: string)
    requires NotAfter(a, b) && NotAfter(b, c)
    ensures NotAfter(a, c)
    decreases |a|
  {
    if a != "" && b != "" && c != "" && a[0] == b[0] == c[0] {
      Transitive(a[1..], b[1..], c[1..]);
    }
  }

  lemma {:induction false} Antisymmetric(a: string, b: string)
    requires NotAfter(a, b) && NotAfter(b, a)
    ensures a == b
    decreases |a|
  {
    if a != "" && b != "" {
      Antisymmetric(a[1..], b[1..]);
      assert a == [a[0]] + a[1..] && b == [b[0]] + b[1..];
    }
  }

  // ---- Sorting by a key -------------------------------------------------------------------

  function Inserted<T>(sorted: seq<T>, x: T, key: T -> string): seq<T> {
    if sorted == [] then [x]
    else if NotAfter(key(x), key(sorted[0])) then [x] + sorted
    else [sorted[0]] + Inserted(sorted[1..], x, key)
  }

  function Sorted<T>(s: seq<T>, key: T -> string): seq<T> {
    if s == [] then [] else Inserted(Sorted(s[..|s| - 1], key), s[|s| - 1], key)
  }

  ghost predicate InOrder<T>(s: seq<T>, key: T -> string) {
    forall i, j :: 0 <= i < j < |s| ==> NotAfter(key(s[i]), key(s[j]))
  }

  lemma {:induction false} InsertedHolds<T>(sorted: seq<T>, x: T, key: T -> string)
    ensures multiset(Inserted(sorted, x, key)) == multiset(sorted) + multiset{x}
  {
    if sorted != [] {
      assert sorted == [sorted[0]] + sorted[1..];
      InsertedHolds(sorted[1..], x, key);
    }
  }

  lemma {:induction false} SortedHolds<T>(s: seq<T>, key: T -> string)
    ensures multiset(Sorted(s, key)) == multiset(s)
  {
    if s != [] {
      SortedHolds(s[..|s| - 1], key);
      InsertedHolds(Sorted(s[..|s| - 1], key), s[|s| - 1], key);
      assert s == s[..|s| - 1] + [s[|s| - 1]];
    }
  }

  lemma InOrderCons<T>(x: T, rest: seq<T>, key: T -> string)
    requires InOrder(rest, key) && forall i :: 0 <= i < |rest| ==> NotAfter(key(x), key(rest[i]))
    ensures InOrder([x] + rest, key)
  {
  }

  /** `x` goes before everything in the sequence. */
  ghost predicate Leads<T>(x: T, s: seq<T>, key: T -> string) {
    forall i :: 0 <= i < |s| ==> NotAfter(key(x), key(s[i]))
  }

  lemma LeadsMembers<T>(x: T, s: seq<T>, t: seq<T>, key: T -> string)
    requires Leads(x, s, key) && forall y :: y in t ==> y in s
    ensures Leads(x, t, key)
  {
    forall i | 0 <= i < |t|
      ensures NotAfter(key(x), key(t[i]))
    {
      assert t[i] in t;
      var j :| 0 <= j < |s| && s[j] == t[i];
    }
  }

  lemma {:induction false} InsertedInOrder<T>(sorted: seq<T>, x: T, key: T -> string)
    requires InOrder(sorted, key)
    ensures InOrder(Inserted(sorted, x, key), key)
  {
    if sorted != [] {
      var first, rest := sorted[0], sorted[1..];
      if NotAfter(key(x), key(first)) {
        forall i | 0 <= i < |sorted|
          ensures NotAfter(key(x), key(sorted[i]))
        {
          if i > 0 {
            Transitive(key(x), key(first), key(sorted[i]));
          }
        }
        InOrderCons(x, sorted, key);
      } else {
        Total(key(x), key(first));
        InsertedInOrder(rest, x, key);
        InsertedHolds(rest, x, key);
        assert Leads(first, rest + [x], key);
        forall y | y in Inserted(rest, x, key)
          ensures y in rest + [x]
        {
          assert y in multiset(Inserted(rest, x, key));
        }
        LeadsMembers(first, rest + [x], Inserted(rest, x, key), key);
        InOrderCons(first, Inserted(rest, x, key), key);
      }
    }
  }

  /** Sorting puts the same things in order. */
  lemma {:induction false} SortedInOrder<T>(s: seq<T>, key: T -> string)
    ensures InOrder(Sorted(s, key), key)
  {
    if s != [] {
      SortedInOrder(s[..|s| - 1], key);
      InsertedInOrder(Sorted(s[..|s| - 1], key), s[|s| - 1], key);
    }
  }

  lemma SortedMembers<T>(s: seq<T>, key: T -> string)
    ensures |Sorted(s, key)| == |s| && forall x :: x in Sorted(s, key) <==> x in s
  {
    SortedHolds(s, key);
    assert |multiset(Sorted(s, key))| == |multiset(s)|;
    forall x
      ensures x in Sorted(s, key) <==> x in s
    {
      assert x in Sorted(s, key) <==> x in multiset(Sorted(s, key));
      assert x in s <==> x in multiset(s);
    }
  }

  // ---- Filtering ------------------------------------------------------------------------------

  /** Those of the first `n` elements whose key is in `required`, in order. */
  function Chosen<T>(all: seq<T>, required: set<string>, key: T -> string, n: nat): seq<T>
    requires n <= |all|
  {
    if n == 0 then []
    else Chosen(all, required, key, n - 1) + if key(all[n - 1]) in required then [all[n - 1]] else []
  }

  /** Exactly the elements with a required key are chosen. */
  lemma {:induction false} ChosenExactly<T>(all: seq<T>, required: set<string>, key: T -> string, n: nat, x: T)
    requires n <= |all|
    ensures x in Chosen(all, required, key, n) <==> x in all[..n] && key(x) in required
  {
    if n > 0 {
      ChosenExactly(all, required, key, n - 1, x);
      assert all[..n] == all[..n - 1] + [all[n - 1]];
    }
  }

  /** The chosen elements keep their order and are not repeated: `at` are their positions. */
  lemma {:induction false} ChosenInPlace<T>(all: seq<T>, required: set<string>, key: T -> string, n: nat) returns (at: seq<nat>)
    requires n <= |all|
    ensures |at| == |Chosen(all, required, key, n)|
    ensures forall k :: 0 <= k < |at| ==> at[k] < n && Chosen(all, required, key, n)[k] == all[at[k]]
    ensures forall j, k :: 0 <= j < k < |at| ==> at[j] < at[k]
  {
    if n == 0 {
      at := [];
    } else {
      at := ChosenInPlace(all, required, key, n - 1);
      if key(all[n - 1]) in required {
        at := at + [n - 1];
      }
    }
  }

  lemma ChosenInOrder<T>(all: seq<T>, required: set<string>, key: T -> string)
    requires InOrder(all, key)
    ensures InOrder(Chosen(all, required, key, |all|), key)
  {
    var at := ChosenInPlace(all, required, key, |all|);
  }
}
