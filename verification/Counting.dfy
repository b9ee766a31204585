/** Sizes of sets and of sequences without repetition. */
module Counting {

  ghost predicate Distinct<T>(s: seq<T>) {
    forall i, j :: 0 <= i < j < |s| ==> s[i] != s[j]
  }

  ghost function Elements<T>(s: seq<T>): set<T> {
    set x | x in s
  }

  lemma {:induction false} DistinctSize<T>(s: seq<T>)
    requires Distinct(s)
    ensures |Elements(s)| == |s|
  {
    if s != [] {
      var front, last := s[..|s| - 1], s[|s| - 1];
      DistinctSize(front);
      assert Elements(s) == Elements(front) + {last};
      assert last !in front;
    }
  }

  lemma SubsetSize<T>(a: set<T>, b: set<T>)
    requires a <= b
    ensures |a| <= |b| && (|a| == |b| <==> a == b)
  {
    assert |b| == |a| + |b - a| by { assert b == a + (b - a); }
    if |a| == |b| {
      assert b - a == {};
    }
  }

  /** Without repetition, as many elements as the whole means all of them. */
  lemma AllIffAsMany<T>(s: seq<T>, t: seq<T>)
    requires Distinct(s) && Distinct(t) && forall x :: x in s ==> x in t
    ensures |s| <= |t|
    ensures |s| == |t| <==> forall x :: x in t ==> x in s
  {
    DistinctSize(s);
    DistinctSize(t);
    SubsetSize(Elements(s), Elements(t));
    if Elements(s) == Elements(t) {
      forall x | x in t ensures x in s {
        assert x in Elements(t);
      }
    }
  }

  /** More places than values: some value comes twice. */
  lemma Pigeonhole<T>(c: seq<T>, s: set<T>)
    requires forall k :: 0 <= k < |c| ==> c[k] in s
    requires |c| > |s|
    ensures exists i, j :: 0 <= i < j < |c| && c[i] == c[j]
  {
    SubsetSize(Elements(c), s);
    if Distinct(c) {
      DistinctSize(c);
    }
  }

  /** A permutation has the same elements, each as often. */
  lemma Permuted<T>(a: seq<T>, b: seq<T>)
    requires multiset(a) == multiset(b) && Distinct(b)
    ensures Elements(a) == Elements(b) && Distinct(a)
  {
    forall x ensures x in a <==> x in b {
      assert x in a <==> x in multiset(a);
      assert x in b <==> x in multiset(b);
    }
    forall i, j | 0 <= i < j < |a| ensures a[i] != a[j] {
      if a[i] == a[j] {
        TwiceCounts(a, i, j);
        DistinctCounts(b, a[i]);
      }
    }
  }

  lemma TwiceCounts<T>(a: seq<T>, i: int, j: int)
    requires 0 <= i < j < |a| && a[i] == a[j]
    ensures multiset(a)[a[i]] >= 2
  {
    assert a == a[..j] + [a[j]] + a[j + 1..];
    assert a[i] in a[..j];
  }

  lemma {:induction false} DistinctCounts<T>(b: seq<T>, x: T)
    requires Distinct(b)
    ensures multiset(b)[x] <= 1
  {
    if b != [] {
      var front := b[..|b| - 1];
      assert b == front + [b[|b| - 1]];
      DistinctCounts(front, x);
      assert x == b[|b| - 1] ==> x !in front;
    }
  }
}
