/** Ordering of query results by an integer key (`SentAt`), ascending for the
    conversation and descending for the paged feed. The store does not fix
    an order among equal keys, so results are specified by sortedness plus
    being a permutation of the input. */
module Ordering {
  import opened Seqs

  /** `x` may precede `y` in the given direction. */
  predicate InOrder(descending: bool, x: int, y: int) {
    if descending then x >= y else x <= y
  }

  predicate SortedBy<T>(key: T -> int, descending: bool, s: seq<T>) {
    forall i, j :: 0 <= i < j < |s| ==> InOrder(descending, key(s[i]), key(s[j]))
  }

  /** `x` inserted into sorted `s` before the first element it may precede. */
  function Insert<T>(key: T -> int, descending: bool, x: T, s: seq<T>): (r: seq<T>)
    requires SortedBy(key, descending, s)
    ensures SortedBy(key, descending, r)
    ensures multiset(r) == multiset(s) + multiset{x}
    ensures |r| == |s| + 1
    decreases |s|
  {
    if |s| == 0 then [x]
    else if InOrder(descending, key(x), key(s[0])) then [x] + s
    else
      var rest := Insert(key, descending, x, s[1..]);
      assert s == [s[0]] + s[1..];
      forall y | y in rest ensures InOrder(descending, key(s[0]), key(y)) {
        assert y in multiset(rest);
        if y != x {
          assert y in multiset(s[1..]);
          var k :| 0 <= k < |s[1..]| && s[1..][k] == y;
          assert s[k + 1] == y;
        }
      }
      ConsSorted(key, descending, s[0], rest);
      [s[0]] + rest
  }

  /** A sorted sequence stays sorted under a head that may precede all of it. */
  lemma ConsSorted<T>(key: T -> int, descending: bool, h: T, s: seq<T>)
    requires SortedBy(key, descending, s)
    requires forall y :: y in s ==> InOrder(descending, key(h), key(y))
    ensures SortedBy(key, descending, [h] + s)
  {
    var r := [h] + s;
    forall i, j | 0 <= i < j < |r| ensures InOrder(descending, key(r[i]), key(r[j])) {
      assert r[j] == s[j - 1];
      if i > 0 {
        assert r[i] == s[i - 1];
      } else {
        assert s[j - 1] in s;
      }
    }
  }

  /** Insertion sort: a sorted permutation of `s`. */
  function Sort<T>(key: T -> int, descending: bool, s: seq<T>): (r: seq<T>)
    ensures SortedBy(key, descending, r)
    ensures multiset(r) == multiset(s)
    ensures |r| == |s|
    decreases |s|
  {
    if |s| == 0 then []
    else
      assert s == [s[0]] + s[1..];
      Insert(key, descending, s[0], Sort(key, descending, s[1..]))
  }

  /** Mapping with a function that preserves the key commutes with insertion. */
  lemma {:induction false} InsertMap<T, U>(key: T -> int, key': U -> int, f: T -> U, descending: bool, x: T, s: seq<T>)
    requires forall y :: key'(f(y)) == key(y)
    requires SortedBy(key, descending, s)
    requires SortedBy(key', descending, Map(f, s))
    ensures Map(f, Insert(key, descending, x, s)) == Insert(key', descending, f(x), Map(f, s))
    decreases |s|
  {
    if |s| > 0 && !InOrder(descending, key(x), key(s[0])) {
      var ms := Map(f, s);
      assert ms[0] == f(s[0]);
      assert Map(f, s[1..]) == ms[1..];
      InsertMap(key, key', f, descending, x, s[1..]);
    }
  }

  /** Mapping with a function that preserves the key commutes with sorting. */
  lemma {:induction false} SortMap<T, U>(key: T -> int, key': U -> int, f: T -> U, descending: bool, s: seq<T>)
    requires forall y :: key'(f(y)) == key(y)
    ensures Map(f, Sort(key, descending, s)) == Sort(key', descending, Map(f, s))
    decreases |s|
  {
    if |s| > 0 {
      var ms := Map(f, s);
      assert ms[0] == f(s[0]);
      assert Map(f, s[1..]) == ms[1..];
      SortMap(key, key', f, descending, s[1..]);
      MapSorted(key, key', f, descending, Sort(key, descending, s[1..]));
      InsertMap(key, key', f, descending, s[0], Sort(key, descending, s[1..]));
    }
  }

  /** Mapping with a key-preserving function keeps a sequence sorted. */
  lemma MapSorted<T, U>(key: T -> int, key': U -> int, f: T -> U, descending: bool, s: seq<T>)
    requires forall y :: key'(f(y)) == key(y)
    requires SortedBy(key, descending, s)
    ensures SortedBy(key', descending, Map(f, s))
  {
    var ms := Map(f, s);
    forall i, j | 0 <= i < j < |ms| ensures InOrder(descending, key'(ms[i]), key'(ms[j])) {
      assert ms[i] == f(s[i]) && ms[j] == f(s[j]);
    }
  }
}
