/**
 * SearchGraph.order: `OPEN.sort(key=lambda x: x, reverse=True)`.  Nodes
 * compare with `__lt__`, that is by `f` alone, and Python's sort is stable
 * even with `reverse=True`: the list ends up non-increasing in `f` and nodes
 * of equal `f` keep their previous relative order.  The sort is modelled as
 * stable insertion by a key.
 */
module Sorting {

  /** Keys never increase from left to right. */
  predicate SortedDesc<T>(s: seq<T>, key: T -> int) {
    forall i, j | 0 <= i < j < |s| :: key(s[j]) <= key(s[i])
  }

  /** Puts `x` after every element whose key is at least its own. */
  function Insert<T>(s: seq<T>, x: T, key: T -> int): seq<T> {
    if s == [] then [x]
    else if key(x) <= key(s[0]) then [s[0]] + Insert(s[1..], x, key)
    else [x] + s
  }

  /** Inserts the elements one by one, left to right. */
  function SortDesc<T>(s: seq<T>, key: T -> int): seq<T>
    decreases |s|
  {
    if s == [] then [] else Insert(SortDesc(s[..|s| - 1], key), s[|s| - 1], key)
  }

  /** The elements whose key is `v`, in their order in `s`. */
  function WithKey<T>(s: seq<T>, key: T -> int, v: int): seq<T>
    decreases |s|
  {
    if s == [] then [] else WithKey(s[..|s| - 1], key, v) + (if key(s[|s| - 1]) == v then [s[|s| - 1]] else [])
  }

  lemma {:induction false} WithKeyConcat<T>(a: seq<T>, b: seq<T>, key: T -> int, v: int)
    ensures WithKey(a + b, key, v) == WithKey(a, key, v) + WithKey(b, key, v)
    decreases |b|
  {
    if b == [] {
      assert a + b == a;
    } else {
      assert (a + b)[..|a + b| - 1] == a + b[..|b| - 1];
      WithKeyConcat(a, b[..|b| - 1], key, v);
    }
  }

  /** In a non-increasing sequence whose first key is below `v`, no key is `v`. */
  lemma {:induction false} NoneWithKey<T>(s: seq<T>, key: T -> int, v: int)
    requires SortedDesc(s, key) && (s == [] || key(s[0]) < v)
    ensures WithKey(s, key, v) == []
    decreases |s|
  {
    if s != [] {
      NoneWithKey(s[..|s| - 1], key, v);
    }
  }

  lemma {:induction false} InsertPermutes<T>(s: seq<T>, x: T, key: T -> int)
    ensures multiset(Insert(s, x, key)) == multiset(s) + multiset{x}
    decreases |s|
  {
    if s != [] && key(x) <= key(s[0]) {
      InsertPermutes(s[1..], x, key);
      assert s == [s[0]] + s[1..];
    }
  }

  lemma {:induction false} InsertBounded<T>(s: seq<T>, x: T, key: T -> int, b: int)
    requires forall t | 0 <= t < |s| :: key(s[t]) <= b
    requires key(x) <= b
    ensures forall t | 0 <= t < |Insert(s, x, key)| :: key(Insert(s, x, key)[t]) <= b
    decreases |s|
  {
    if s != [] && key(x) <= key(s[0]) {
      InsertBounded(s[1..], x, key, b);
    }
  }

  lemma {:induction false} InsertSorted<T>(s: seq<T>, x: T, key: T -> int)
    requires SortedDesc(s, key)
    ensures SortedDesc(Insert(s, x, key), key)
    decreases |s|
  {
    if s != [] && key(x) <= key(s[0]) {
      var rest := Insert(s[1..], x, key);
      var r := [s[0]] + rest;
      InsertSorted(s[1..], x, key);
      InsertBounded(s[1..], x, key, key(s[0]));
      assert forall t | 1 <= t < |r| :: r[t] == rest[t - 1];
    }
  }

  lemma {:induction false} InsertStable<T>(s: seq<T>, x: T, key: T -> int, v: int)
    requires SortedDesc(s, key)
    ensures WithKey(Insert(s, x, key), key, v) == WithKey(s, key, v) + WithKey([x], key, v)
    decreases |s|
  {
    if s != [] && key(x) <= key(s[0]) {
      assert SortedDesc(s[1..], key);
      InsertStable(s[1..], x, key, v);
      InsertBehind(s, x, key, v);
    } else {
      InsertInFront(s, x, key, v);
    }
  }

  /** Inserting behind the first element keeps it first, in front of the rest with `x` inserted. */
  lemma InsertBehind<T>(s: seq<T>, x: T, key: T -> int, v: int)
    requires s != [] && key(x) <= key(s[0])
    requires WithKey(Insert(s[1..], x, key), key, v) == WithKey(s[1..], key, v) + WithKey([x], key, v)
    ensures WithKey(Insert(s, x, key), key, v) == WithKey(s, key, v) + WithKey([x], key, v)
  {
    var rest := Insert(s[1..], x, key);
    assert Insert(s, x, key) == [s[0]] + rest;
    assert s == [s[0]] + s[1..];
    WithKeyConcat([s[0]], rest, key, v);
    WithKeyConcat([s[0]], s[1..], key, v);
  }

  /** An element whose key exceeds every key of a sorted sequence goes in front without disturbing any key's order. */
  lemma InsertInFront<T>(s: seq<T>, x: T, key: T -> int, v: int)
    requires SortedDesc(s, key) && (s == [] || key(s[0]) < key(x))
    ensures WithKey(Insert(s, x, key), key, v) == WithKey(s, key, v) + WithKey([x], key, v)
  {
    assert Insert(s, x, key) == [x] + s;
    WithKeyConcat([x], s, key, v);
    if v == key(x) {
      NoneWithKey(s, key, v);
    } else {
      assert WithKey([x], key, v) == [];
    }
  }

  /**
   * order's result: non-increasing in the key, a permutation of the input,
   * and for every key value the elements carrying it keep their order.
   */
  lemma {:induction false} SortDescCorrect<T>(s: seq<T>, key: T -> int)
    ensures SortedDesc(SortDesc(s, key), key)
    ensures multiset(SortDesc(s, key)) == multiset(s)
    ensures |SortDesc(s, key)| == |s|
    ensures forall v :: WithKey(SortDesc(s, key), key, v) == WithKey(s, key, v)
    decreases |s|
  {
    if s != [] {
      var init := s[..|s| - 1];
      var last := s[|s| - 1];
      SortDescCorrect(init, key);
      InsertSorted(SortDesc(init, key), last, key);
      InsertPermutes(SortDesc(init, key), last, key);
      assert s == init + [last];
      forall v
        ensures WithKey(SortDesc(s, key), key, v) == WithKey(s, key, v)
      {
        InsertStable(SortDesc(init, key), last, key, v);
        WithKeyConcat(init, [last], key, v);
      }
      assert |SortDesc(s, key)| == |multiset(SortDesc(s, key))| == |multiset(s)| == |s|;
    }
  }

  /** After the sort, `pop()` takes an element of least key. */
  lemma PopIsMinimum<T>(s: seq<T>, key: T -> int)
    requires s != []
    ensures var r := SortDesc(s, key);
      |r| == |s| && forall t | 0 <= t < |s| :: key(r[|r| - 1]) <= key(s[t])
  {
    var r := SortDesc(s, key);
    SortDescCorrect(s, key);
    forall t | 0 <= t < |s|
      ensures key(r[|r| - 1]) <= key(s[t])
    {
      assert s[t] in multiset(r);
      var u :| 0 <= u < |r| && r[u] == s[t];
    }
  }
}
