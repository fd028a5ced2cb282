/** Order-preserving filtering and mapping of sequences: the `Where` and
    `Select` of the query pipelines, as recursive functions so that their
    properties can be proved by induction. */
module Seqs {

  /** The elements of `s` that satisfy `p`, in their original order. */
  function Filter<T(!new)>(p: T -> bool, s: seq<T>): (r: seq<T>)
    ensures |r| <= |s|
    ensures forall x :: x in r <==> x in s && p(x)
    ensures forall x :: multiset(r)[x] == if p(x) then multiset(s)[x] else 0
    decreases |s|
  {
    if |s| == 0 then []
    else
      var rest := Filter(p, s[1..]);
      assert s == [s[0]] + s[1..];
      if p(s[0]) then [s[0]] + rest else rest
  }

  /** `f` applied to each element of `s`, in order. */
  function Map<T, U>(f: T -> U, s: seq<T>): (r: seq<U>)
    ensures |r| == |s|
    ensures forall i :: 0 <= i < |s| ==> r[i] == f(s[i])
    decreases |s|
  {
    if |s| == 0 then [] else [f(s[0])] + Map(f, s[1..])
  }

  /** Mapping respects permutation: permuted inputs give permuted outputs. */
  lemma {:induction false} MapMultiset<T, U>(f: T -> U, s: seq<T>, t: seq<T>)
    requires multiset(s) == multiset(t)
    ensures multiset(Map(f, s)) == multiset(Map(f, t))
    decreases |s|
  {
    if |s| == 0 {
      assert |t| == |multiset(t)| == 0;
    } else {
      assert s[0] in multiset(t) by {
        assert s[0] in multiset(s);
      }
      var j :| 0 <= j < |t| && t[j] == s[0];
      TailPermutation(s, t, j);
      MapMultiset(f, s[1..], t[..j] + t[j+1..]);
      MapCons(f, s);
      MapRemoveAt(f, t, j);
    }
  }

  /** Taking the first element off `s` and its match off `t` keeps the two
      permutations of each other. */
  lemma TailPermutation<T>(s: seq<T>, t: seq<T>, j: nat)
    requires |s| > 0 && j < |t| && t[j] == s[0] && multiset(s) == multiset(t)
    ensures multiset(s[1..]) == multiset(t[..j] + t[j+1..])
  {
    RemoveAt(t, j);
    assert s == [s[0]] + s[1..];
    assert multiset(s) == multiset(s[1..]) + multiset{s[0]};
    Cancel(multiset(s[1..]), multiset(t[..j] + t[j+1..]), multiset{s[0]});
  }

  lemma MapCons<T, U>(f: T -> U, s: seq<T>)
    requires |s| > 0
    ensures multiset(Map(f, s)) == multiset(Map(f, s[1..])) + multiset{f(s[0])}
  {
    assert Map(f, s) == [f(s[0])] + Map(f, s[1..]);
  }

  /** Removing the element at `j` removes one occurrence of it. */
  lemma RemoveAt<T>(t: seq<T>, j: nat)
    requires j < |t|
    ensures multiset(t) == multiset(t[..j] + t[j+1..]) + multiset{t[j]}
  {
    assert t == t[..j] + [t[j]] + t[j+1..];
  }

  /** Mapping then removing the element at `j` is removing then mapping. */
  lemma MapRemoveAt<T, U>(f: T -> U, t: seq<T>, j: nat)
    requires j < |t|
    ensures multiset(Map(f, t)) == multiset(Map(f, t[..j] + t[j+1..])) + multiset{f(t[j])}
  {
    var mt := Map(f, t);
    var rest := t[..j] + t[j+1..];
    RemoveAt(mt, j);
    var removed := mt[..j] + mt[j+1..];
    var mapped := Map(f, rest);
    assert |removed| == |mapped| == |t| - 1;
    forall i | 0 <= i < |mapped| ensures removed[i] == mapped[i] {
      if i < j {
        assert removed[i] == mt[i] && rest[i] == t[i];
      } else {
        assert removed[i] == mt[i + 1] && rest[i] == t[i + 1];
      }
    }
    assert removed == mapped;
  }

  /** Multiset addition cancels. */
  lemma Cancel<T>(a: multiset<T>, b: multiset<T>, c: multiset<T>)
    requires a + c == b + c
    ensures a == b
  {
    assert a == (a + c) - c;
    assert b == (b + c) - c;
  }

  /** Filtering with two predicates that agree on every element of `s`
      gives the same result. */
  lemma {:induction false} FilterCongruent<T(!new)>(p: T -> bool, q: T -> bool, s: seq<T>)
    requires forall x :: x in s ==> p(x) == q(x)
    ensures Filter(p, s) == Filter(q, s)
    decreases |s|
  {
    if |s| > 0 {
      assert forall x :: x in s[1..] ==> x in s;
      FilterCongruent(p, q, s[1..]);
    }
  }

  /** Filtering after mapping is mapping after filtering, when the filter
      cannot tell an element from its image. */
  lemma {:induction false} FilterMap<T(!new)>(p: T -> bool, f: T -> T, s: seq<T>)
    requires forall x :: p(f(x)) == p(x)
    ensures Filter(p, Map(f, s)) == Map(f, Filter(p, s))
    decreases |s|
  {
    if |s| > 0 {
      var ms := Map(f, s);
      assert ms[0] == f(s[0]);
      assert ms[1..] == Map(f, s[1..]);
      FilterMap(p, f, s[1..]);
    }
  }

  /** The image of a sequence under `f` holds exactly the images of its elements. */
  lemma MapMember<T, U>(f: T -> U, s: seq<T>, y: U)
    ensures y in Map(f, s) <==> exists x :: x in s && f(x) == y
  {
    var ms := Map(f, s);
    if y in ms {
      var i :| 0 <= i < |ms| && ms[i] == y;
      assert s[i] in s && f(s[i]) == y;
    }
    if exists x :: x in s && f(x) == y {
      var x :| x in s && f(x) == y;
      var i :| 0 <= i < |s| && s[i] == x;
      assert ms[i] == y;
    }
  }
}
