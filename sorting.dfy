/**
 * A stable insertion sort by a numeric key. It stands for the engine's
 * `Array.prototype.sort` calls, which are stable and order by a key
 * difference (`(a, b) => a.timestamp - b.timestamp`,
 * `(a, b) => b.averageScore - a.averageScore`).
 */
module Sorting {

  ghost predicate SortedBy<T>(s: seq<T>, key: T -> real) {
    forall i, j :: 0 <= i < j < |s| ==> key(s[i]) <= key(s[j])
  }

  /** Inserts `x` after every element of `t` whose key is at most `x`'s. */
  function InsertBy<T>(x: T, t: seq<T>, key: T -> real): seq<T> {
    if t == [] then [x]
    else if key(x) < key(t[0]) then [x] + t
    else [t[0]] + InsertBy(x, t[1..], key)
  }

  /** Sorts by `key`, ascending; elements with equal keys keep their order. */
  function SortBy<T>(s: seq<T>, key: T -> real): seq<T> {
    if s == [] then [] else InsertBy(s[|s| - 1], SortBy(s[..|s| - 1], key), key)
  }

  /** The elements of `s` whose key is `v`, in order. */
  function WithKey<T>(s: seq<T>, key: T -> real, v: real): seq<T> {
    if s == [] then [] else (if key(s[0]) == v then [s[0]] else []) + WithKey(s[1..], key, v)
  }

  lemma InsertByFacts<T>(x: T, t: seq<T>, key: T -> real)
    requires SortedBy(t, key)
    ensures multiset(InsertBy(x, t, key)) == multiset(t) + multiset{x}
    ensures SortedBy(InsertBy(x, t, key), key)
    ensures |InsertBy(x, t, key)| == |t| + 1
    ensures InsertBy(x, t, key) != [] && (key(InsertBy(x, t, key)[0]) == key(x) || (t != [] && InsertBy(x, t, key)[0] == t[0]))
  {
    InsertByCount(x, t, key);
    InsertByHead(x, t, key);
    InsertBySorted(x, t, key);
  }

  /** Insertion adds `x` and loses nothing. */
  lemma {:induction false} InsertByCount<T>(x: T, t: seq<T>, key: T -> real)
    ensures multiset(InsertBy(x, t, key)) == multiset(t) + multiset{x}
    ensures |InsertBy(x, t, key)| == |t| + 1
  {
    if t != [] && key(x) >= key(t[0]) {
      InsertByCount(x, t[1..], key);
      assert t == [t[0]] + t[1..];
    }
  }

  /** The first element after insertion is `x` or the old first element. */
  lemma InsertByHead<T>(x: T, t: seq<T>, key: T -> real)
    ensures InsertBy(x, t, key) != [] && (key(InsertBy(x, t, key)[0]) == key(x) || (t != [] && InsertBy(x, t, key)[0] == t[0]))
  {
  }

  lemma {:induction false} InsertBySorted<T>(x: T, t: seq<T>, key: T -> real)
    requires SortedBy(t, key)
    ensures SortedBy(InsertBy(x, t, key), key)
  {
    if t != [] && key(x) >= key(t[0]) {
      var rest := t[1..];
      InsertBySorted(x, rest, key);
      InsertByHead(x, rest, key);
      var r := InsertBy(x, rest, key);
      assert InsertBy(x, t, key) == [t[0]] + r;
      assert key(t[0]) <= key(r[0]);
    }
  }

  lemma {:induction false} SortByFacts<T>(s: seq<T>, key: T -> real)
    ensures multiset(SortBy(s, key)) == multiset(s)
    ensures SortedBy(SortBy(s, key), key)
    ensures |SortBy(s, key)| == |s|
  {
    if s != [] {
      var init := s[..|s| - 1];
      SortByFacts(init, key);
      InsertByFacts(s[|s| - 1], SortBy(init, key), key);
      assert s == init + [s[|s| - 1]];
    }
  }

  lemma {:induction false} WithKeyAppend<T>(a: seq<T>, b: seq<T>, key: T -> real, v: real)
    ensures WithKey(a + b, key, v) == WithKey(a, key, v) + WithKey(b, key, v)
  {
    if a != [] {
      assert (a + b)[0] == a[0];
      assert (a + b)[1..] == a[1..] + b;
      WithKeyAppend(a[1..], b, key, v);
    } else {
      assert a + b == b;
    }
  }

  lemma {:induction false} WithKeyAbove<T>(t: seq<T>, key: T -> real, v: real)
    requires SortedBy(t, key)
    requires t != [] ==> key(t[0]) > v
    ensures WithKey(t, key, v) == []
  {
    if t != [] {
      WithKeyAbove(t[1..], key, v);
    }
  }

  lemma {:induction false} WithKeyInsert<T>(x: T, t: seq<T>, key: T -> real, v: real)
    requires SortedBy(t, key)
    ensures WithKey(InsertBy(x, t, key), key, v)
         == WithKey(t, key, v) + (if key(x) == v then [x] else [])
  {
    if t == [] {
      assert WithKey([x], key, v) == (if key(x) == v then [x] else []) + WithKey([], key, v);
    } else if key(x) < key(t[0]) {
      var r := [x] + t;
      assert r[0] == x && r[1..] == t;
      assert WithKey(r, key, v) == (if key(x) == v then [x] else []) + WithKey(t, key, v);
      if key(x) == v { WithKeyAbove(t, key, v); }
    } else {
      var rest := InsertBy(x, t[1..], key);
      var r := [t[0]] + rest;
      assert r[0] == t[0] && r[1..] == rest;
      InsertTail(t, key);
      WithKeyInsert(x, t[1..], key, v);
      assert WithKey(r, key, v) == (if key(t[0]) == v then [t[0]] else []) + WithKey(rest, key, v);
      assert WithKey(t, key, v) == (if key(t[0]) == v then [t[0]] else []) + WithKey(t[1..], key, v);
    }
  }

  lemma InsertTail<T>(t: seq<T>, key: T -> real)
    requires t != [] && SortedBy(t, key)
    ensures SortedBy(t[1..], key)
  {
  }

  /** Stability: among elements with the same key, the sorted order is the input order. */
  lemma {:induction false} SortByStable<T>(s: seq<T>, key: T -> real, v: real)
    ensures WithKey(SortBy(s, key), key, v) == WithKey(s, key, v)
  {
    if s != [] {
      var init := s[..|s| - 1];
      SortByStable(init, key, v);
      SortByFacts(init, key);
      WithKeyInsert(s[|s| - 1], SortBy(init, key), key, v);
      assert s == init + [s[|s| - 1]];
      WithKeyAppend(init, [s[|s| - 1]], key, v);
    }
  }

  /** No two elements of `s` agree on `f`. */
  ghost predicate DistinctBy<T, K>(s: seq<T>, f: T -> K) {
    forall i, j :: 0 <= i < j < |s| ==> f(s[i]) != f(s[j])
  }

  lemma {:induction false} InsertByDistinct<T, K>(x: T, t: seq<T>, key: T -> real, f: T -> K)
    requires SortedBy(t, key)
    requires DistinctBy(t, f)
    requires forall y :: y in t ==> f(y) != f(x)
    ensures DistinctBy(InsertBy(x, t, key), f)
  {
    if t != [] && key(x) >= key(t[0]) {
      var rest := t[1..];
      assert forall y :: y in rest ==> y in t;
      InsertTail(t, key);
      InsertByDistinct(x, rest, key, f);
      InsertByFacts(x, rest, key);
      var r := InsertBy(x, rest, key);
      forall k | 0 <= k < |r| ensures f(t[0]) != f(r[k]) {
        assert r[k] in multiset(rest) + multiset{x};
        if r[k] != x {
          assert r[k] in rest;
          var j :| 0 <= j < |rest| && rest[j] == r[k];
          assert t[j + 1] == r[k];
        }
      }
      assert InsertBy(x, t, key) == [t[0]] + r;
    }
  }

  /** Sorting keeps `f` distinct, so a sort of records with distinct keys still has distinct keys. */
  lemma {:induction false} SortByDistinct<T, K>(s: seq<T>, key: T -> real, f: T -> K)
    requires DistinctBy(s, f)
    ensures DistinctBy(SortBy(s, key), f)
  {
    if s != [] {
      var init := s[..|s| - 1];
      var x := s[|s| - 1];
      SortByDistinct(init, key, f);
      SortByFacts(init, key);
      forall y | y in SortBy(init, key) ensures f(y) != f(x) {
        assert y in multiset(init);
        var j :| 0 <= j < |init| && init[j] == y;
        assert s[j] == y;
      }
      InsertByDistinct(x, SortBy(init, key), key, f);
    }
  }
}
