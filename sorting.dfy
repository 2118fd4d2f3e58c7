/** The engine's `Array.prototype.sort` with a numeric comparator
    (`(a, b) => key(a) - key(b)`): a stable sort by a real-valued key. It is
    written here as an insertion sort and characterised by three lemmas:
    the result is ordered, is a permutation, and keeps elements with equal
    keys in their original order. */
module Sorting {

  predicate SortedBy<T>(s: seq<T>, key: T -> real) {
    forall i, j :: 0 <= i < j < |s| ==> key(s[i]) <= key(s[j])
  }

  /** Inserts `e` after every element of `r` whose key is not larger. */
  function InsertBy<T>(r: seq<T>, e: T, key: T -> real): (q: seq<T>)
    ensures |q| == |r| + 1
    decreases |r|
  {
    if |r| == 0 || key(r[|r| - 1]) <= key(e) then r + [e]
    else InsertBy(r[..|r| - 1], e, key) + [r[|r| - 1]]
  }

  function SortBy<T>(s: seq<T>, key: T -> real): (r: seq<T>)
    ensures |r| == |s|
  {
    if |s| == 0 then [] else InsertBy(SortBy(s[..|s| - 1], key), s[|s| - 1], key)
  }

  /** The elements of `s` whose key is `v`, in their order in `s`. */
  function WithKey<T>(s: seq<T>, key: T -> real, v: real): seq<T> {
    if |s| == 0 then []
    else WithKey(s[..|s| - 1], key, v) + (if key(s[|s| - 1]) == v then [s[|s| - 1]] else [])
  }

  /** Inserting adds exactly `e` to the elements. */
  lemma {:induction false} InsertByPermutes<T>(r: seq<T>, e: T, key: T -> real)
    ensures multiset(InsertBy(r, e, key)) == multiset(r) + multiset{e}
    decreases |r|
  {
    if |r| > 0 && key(r[|r| - 1]) > key(e) {
      var init, last := r[..|r| - 1], r[|r| - 1];
      assert r == init + [last];
      InsertByPermutes(init, e, key);
    }
  }

  /** Inserting into an ordered list keeps it ordered. */
  lemma {:induction false} InsertBySorted<T>(r: seq<T>, e: T, key: T -> real)
    requires SortedBy(r, key)
    ensures SortedBy(InsertBy(r, e, key), key)
    decreases |r|
  {
    if |r| > 0 && key(r[|r| - 1]) > key(e) {
      var init, last := r[..|r| - 1], r[|r| - 1];
      InsertBySorted(init, e, key);
      InsertByPermutes(init, e, key);
      var q := InsertBy(init, e, key);
      forall i | 0 <= i < |q| ensures key(q[i]) <= key(last) {
        assert q[i] in multiset(init) + multiset{e};
        if q[i] != e {
          var k :| 0 <= k < |init| && init[k] == q[i];
          assert r[k] == init[k];
        }
      }
    }
  }

  /** The sort orders its input by key and is a permutation of it. */
  lemma {:induction false} SortByOrders<T>(s: seq<T>, key: T -> real)
    ensures SortedBy(SortBy(s, key), key)
    ensures multiset(SortBy(s, key)) == multiset(s)
  {
    if |s| > 0 {
      var init, last := s[..|s| - 1], s[|s| - 1];
      assert s == init + [last];
      SortByOrders(init, key);
      InsertBySorted(SortBy(init, key), last, key);
      InsertByPermutes(SortBy(init, key), last, key);
    }
  }

  lemma {:induction false} InsertByWithKey<T>(r: seq<T>, e: T, key: T -> real, v: real)
    requires SortedBy(r, key)
    ensures WithKey(InsertBy(r, e, key), key, v) == WithKey(r, key, v) + (if key(e) == v then [e] else [])
    decreases |r|
  {
    if |r| == 0 || key(r[|r| - 1]) <= key(e) {
      assert (r + [e])[..|r|] == r;
    } else {
      var init, last := r[..|r| - 1], r[|r| - 1];
      InsertByWithKey(init, e, key, v);
      var q := InsertBy(init, e, key);
      assert (q + [last])[..|q|] == q;
      assert r[..|r| - 1] == init;
    }
  }

  /** The sort is stable: for every key value, the elements carrying it
      appear in the result in the same order as in the input. */
  lemma {:induction false} SortByStable<T>(s: seq<T>, key: T -> real, v: real)
    ensures WithKey(SortBy(s, key), key, v) == WithKey(s, key, v)
  {
    if |s| > 0 {
      var init := s[..|s| - 1];
      SortByStable(init, key, v);
      SortByOrders(init, key);
      InsertByWithKey(SortBy(init, key), s[|s| - 1], key, v);
    }
  }

  /** Sorting a list already in key order leaves it as it is. */
  lemma {:induction false} SortBySorted<T>(s: seq<T>, key: T -> real)
    requires SortedBy(s, key)
    ensures SortBy(s, key) == s
  {
    if |s| > 0 {
      var init := s[..|s| - 1];
      assert SortedBy(init, key);
      SortBySorted(init, key);
      assert s == init + [s[|s| - 1]];
    }
  }

  /** No two elements of `s` share the same `f`. */
  ghost predicate InjectiveOn<T, K>(s: seq<T>, f: T -> K) {
    forall i, j :: 0 <= i < j < |s| ==> f(s[i]) != f(s[j])
  }

  lemma {:induction false} InjectiveCount<T, K>(s: seq<T>, f: T -> K, x: T)
    requires InjectiveOn(s, f)
    ensures multiset(s)[x] <= 1
  {
    if |s| > 0 {
      var init, e := s[..|s| - 1], s[|s| - 1];
      assert s == init + [e];
      InjectiveCount(init, f, x);
      assert forall k :: 0 <= k < |init| ==> f(s[k]) != f(s[|s| - 1]);
      assert e !in init;
    }
  }

  /** In a list where `t[i]` occurs once, no later element equals it. */
  lemma SingleOccurrence<T>(t: seq<T>, i: nat, j: nat)
    requires i < j < |t| && multiset(t)[t[i]] <= 1
    ensures t[i] != t[j]
  {
    assert t == t[..j] + t[j..];
    assert t[i] in multiset(t[..j]);
    assert multiset(t[j..])[t[i]] == 0;
    assert t[j] in t[j..];
  }

  /** Reordering never makes two elements share `f`: a sorted copy of a list
      of distinct handles still has distinct handles. */
  lemma PermutationKeepsInjective<T, K>(s: seq<T>, t: seq<T>, f: T -> K)
    requires multiset(s) == multiset(t) && InjectiveOn(s, f)
    ensures InjectiveOn(t, f)
  {
    forall i, j | 0 <= i < j < |t| ensures f(t[i]) != f(t[j]) {
      InjectiveCount(s, f, t[i]);
      SingleOccurrence(t, i, j);
      assert t[i] in multiset(s) && t[j] in multiset(s);
      var a :| 0 <= a < |s| && s[a] == t[i];
      var b :| 0 <= b < |s| && s[b] == t[j];
      if a < b {
        assert f(s[a]) != f(s[b]);
      } else {
        assert f(s[b]) != f(s[a]);
      }
    }
  }
}
