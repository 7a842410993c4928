/**
 * Ordering by an integer key: the "insert before the first strictly later element" step that
 * the chat client uses to place a message, and the stable sort built from it that stands for
 * JavaScript's `Array.prototype.sort` with a numeric comparator and for SQL's ORDER BY.
 */
module Sorting {

  ghost predicate SortedBy<T>(s: seq<T>, key: T -> int) {
    forall i, j :: 0 <= i < j < |s| ==> key(s[i]) <= key(s[j])
  }

  /** The first position whose element has a key strictly greater than `k`, or `|s|` if none has. */
  function InsertionPoint<T>(s: seq<T>, k: int, key: T -> int): (p: nat)
    ensures p <= |s|
    ensures forall i :: 0 <= i < p ==> key(s[i]) <= k
    ensures p < |s| ==> k < key(s[p])
    decreases |s|
  {
    if s == [] then 0
    else if k < key(s[0]) then 0
    else 1 + InsertionPoint(s[1..], k, key)
  }

  /** The two conditions pin the insertion point down: no other position satisfies both. */
  lemma InsertionPointUnique<T>(s: seq<T>, k: int, key: T -> int, p: nat)
    requires p <= |s|
    requires forall i :: 0 <= i < p ==> key(s[i]) <= k
    requires p < |s| ==> k < key(s[p])
    ensures p == InsertionPoint(s, k, key)
  {
  }

  /** `x` placed before the first element with a strictly greater key: after every element whose key equals its own. */
  function InsertAfterEqual<T>(s: seq<T>, x: T, key: T -> int): seq<T> {
    var p := InsertionPoint(s, key(x), key);
    s[..p] + [x] + s[p..]
  }

  /** Exactly one element is added, at the insertion point, and the old elements keep their order around it. */
  lemma InsertShape<T>(s: seq<T>, x: T, key: T -> int)
    ensures var p := InsertionPoint(s, key(x), key);
      var r := InsertAfterEqual(s, x, key);
      && |r| == |s| + 1
      && r[p] == x
      && r[..p] + r[p + 1..] == s
      && multiset(r) == multiset(s) + multiset{x}
  {
    var p := InsertionPoint(s, key(x), key);
    var r := InsertAfterEqual(s, x, key);
    assert r[..p] == s[..p];
    assert r[p + 1..] == s[p..];
    assert s == s[..p] + s[p..];
  }

  /** Inserting into a sorted sequence keeps it sorted. */
  lemma InsertKeepsSorted<T>(s: seq<T>, x: T, key: T -> int)
    requires SortedBy(s, key)
    ensures SortedBy(InsertAfterEqual(s, x, key), key)
  {
    var p := InsertionPoint(s, key(x), key);
    var r := InsertAfterEqual(s, x, key);
    forall i, j | 0 <= i < j < |r| ensures key(r[i]) <= key(r[j]) {
      if j < p {
        assert r[i] == s[i] && r[j] == s[j];
      } else if j == p {
        assert r[i] == s[i];
      } else if i < p {
        assert r[i] == s[i] && r[j] == s[j - 1];
      } else if i == p {
        assert r[j] == s[j - 1];
        assert key(s[p]) <= key(s[j - 1]);
      } else {
        assert r[i] == s[i - 1] && r[j] == s[j - 1];
      }
    }
  }

  /** A stable insertion sort: each element goes after every earlier element with an equal key. */
  function StableSort<T>(s: seq<T>, key: T -> int): (r: seq<T>)
    ensures |r| == |s|
    decreases |s|
  {
    if s == [] then []
    else
      InsertAfterEqual(StableSort(s[..|s| - 1], key), s[|s| - 1], key)
  }

  /** The sorted sequence is ordered by the key. */
  lemma {:induction false} StableSortSorted<T>(s: seq<T>, key: T -> int)
    ensures SortedBy(StableSort(s, key), key)
    decreases |s|
  {
    if s != [] {
      var init := s[..|s| - 1];
      StableSortSorted(init, key);
      InsertKeepsSorted(StableSort(init, key), s[|s| - 1], key);
    }
  }

  /** Inserting adds exactly the one element. */
  lemma InsertPermutes<T>(s: seq<T>, x: T, key: T -> int)
    ensures multiset(InsertAfterEqual(s, x, key)) == multiset(s) + multiset{x}
  {
    var p := InsertionPoint(s, key(x), key);
    assert s == s[..p] + s[p..];
    assert multiset(s) == multiset(s[..p]) + multiset(s[p..]);
  }

  /** The sorted sequence is a permutation of the input. */
  lemma {:induction false} StableSortPermutes<T>(s: seq<T>, key: T -> int)
    ensures multiset(StableSort(s, key)) == multiset(s)
    decreases |s|
  {
    if s != [] {
      var init, x := s[..|s| - 1], s[|s| - 1];
      var sortedInit := StableSort(init, key);
      calc {
        multiset(StableSort(s, key));
        multiset(InsertAfterEqual(sortedInit, x, key));
        { InsertPermutes(sortedInit, x, key); }
        multiset(sortedInit) + multiset{x};
        { StableSortPermutes(init, key); }
        multiset(init) + multiset{x};
        multiset(init + [x]);
        { assert init + [x] == s; }
        multiset(s);
      }
    }
  }

  /** The sorted sequence is ordered by the key and is a permutation of the input. */
  lemma StableSortCorrect<T>(s: seq<T>, key: T -> int)
    ensures SortedBy(StableSort(s, key), key)
    ensures multiset(StableSort(s, key)) == multiset(s)
  {
    StableSortSorted(s, key);
    StableSortPermutes(s, key);
  }

  /** The elements whose key equals `k`, in their order. */
  function WithKey<T>(s: seq<T>, k: int, key: T -> int): seq<T>
    decreases |s|
  {
    if s == [] then [] else (if key(s[0]) == k then [s[0]] else []) + WithKey(s[1..], k, key)
  }

  lemma {:induction false} WithKeyAppend<T>(a: seq<T>, b: seq<T>, k: int, key: T -> int)
    ensures WithKey(a + b, k, key) == WithKey(a, k, key) + WithKey(b, k, key)
    decreases |a|
  {
    if a != [] {
      assert (a + b)[1..] == a[1..] + b;
      WithKeyAppend(a[1..], b, k, key);
    } else {
      assert a + b == b;
    }
  }

  lemma {:induction false} WithKeyNone<T>(s: seq<T>, k: int, key: T -> int)
    requires forall i :: 0 <= i < |s| ==> key(s[i]) != k
    ensures WithKey(s, k, key) == []
    decreases |s|
  {
    if s != [] {
      WithKeyNone(s[1..], k, key);
    }
  }

  /** Inserting into a sorted sequence adds `x` at the end of the elements that share its key. */
  lemma WithKeyInsert<T>(t: seq<T>, x: T, k: int, key: T -> int)
    requires SortedBy(t, key)
    ensures WithKey(InsertAfterEqual(t, x, key), k, key) == WithKey(t, k, key) + (if key(x) == k then [x] else [])
  {
    var p := InsertionPoint(t, key(x), key);
    var a, b := t[..p], t[p..];
    assert t == a + b;
    WithKeyAppend(a, b, k, key);
    WithKeyAppend(a + [x], b, k, key);
    WithKeyAppend(a, [x], k, key);
    if key(x) == k {
      forall i | 0 <= i < |b| ensures key(b[i]) != k {
        assert b[i] == t[p + i];
        assert key(t[p]) <= key(t[p + i]);
      }
      WithKeyNone(b, k, key);
    }
  }

  /** Stability: among elements with the same key the sort keeps the input order. */
  lemma {:induction false} StableSortIsStable<T>(s: seq<T>, k: int, key: T -> int)
    ensures WithKey(StableSort(s, key), k, key) == WithKey(s, k, key)
    decreases |s|
  {
    if s != [] {
      var init := s[..|s| - 1];
      var x := s[|s| - 1];
      StableSortIsStable(init, k, key);
      StableSortCorrect(init, key);
      WithKeyInsert(StableSort(init, key), x, k, key);
      assert s == init + [x];
      WithKeyAppend(init, [x], k, key);
    }
  }
}
