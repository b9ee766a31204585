/** A stable sort by a total preorder, as Python's list.sort and sorted give. */
module Sorting {

  ghost predicate TotalPreorder<T(!new)>(leq: (T, T) -> bool) {
    && (forall a, b :: leq(a, b) || leq(b, a))
    && (forall a, b, c :: leq(a, b) && leq(b, c) ==> leq(a, c))
  }

  ghost predicate Sorted<T>(leq: (T, T) -> bool, s: seq<T>) {
    forall i, j :: 0 <= i < j < |s| ==> leq(s[i], s[j])
  }

  /** Insert x behind everything that may stand before it. */
  function Insert<T>(leq: (T, T) -> bool, s: seq<T>, x: T): (r: seq<T>)
    ensures |r| == |s| + 1
  {
    if s == [] || leq(s[|s| - 1], x) then s + [x]
    else Insert(leq, s[..|s| - 1], x) + [s[|s| - 1]]
  }

  function Sort<T>(leq: (T, T) -> bool, s: seq<T>): (r: seq<T>)
    ensures |r| == |s|
  {
    if s == [] then [] else Insert(leq, Sort(leq, s[..|s| - 1]), s[|s| - 1])
  }

  lemma {:induction false} InsertPermutes<T>(leq: (T, T) -> bool, s: seq<T>, x: T)
    ensures multiset(Insert(leq, s, x)) == multiset(s) + multiset{x}
  {
    if s != [] && !leq(s[|s| - 1], x) {
      InsertPermutes(leq, s[..|s| - 1], x);
      assert s == s[..|s| - 1] + [s[|s| - 1]];
    }
  }

  lemma {:induction false} SortPermutes<T>(leq: (T, T) -> bool, s: seq<T>)
    ensures multiset(Sort(leq, s)) == multiset(s)
  {
    if s != [] {
      SortPermutes(leq, s[..|s| - 1]);
      InsertPermutes(leq, Sort(leq, s[..|s| - 1]), s[|s| - 1]);
      assert s == s[..|s| - 1] + [s[|s| - 1]];
    }
  }

  lemma {:induction false} InsertSorted<T(!new)>(leq: (T, T) -> bool, s: seq<T>, x: T)
    requires TotalPreorder(leq) && Sorted(leq, s)
    ensures Sorted(leq, Insert(leq, s, x))
  {
    if s == [] || leq(s[|s| - 1], x) {
      assert forall i :: 0 <= i < |s| - 1 ==> leq(s[i], s[|s| - 1]);
    } else {
      var front, last := s[..|s| - 1], s[|s| - 1];
      InsertSorted(leq, front, x);
      InsertPermutes(leq, front, x);
      var r := Insert(leq, front, x);
      forall i | 0 <= i < |r|
        ensures leq(r[i], last)
      {
        assert r[i] in multiset(front) + multiset{x} by { assert r[i] in multiset(r); }
        assert r[i] in front || r[i] == x;
      }
    }
  }

  lemma {:induction false} SortSorted<T(!new)>(leq: (T, T) -> bool, s: seq<T>)
    requires TotalPreorder(leq)
    ensures Sorted(leq, Sort(leq, s))
  {
    if s != [] {
      SortSorted(leq, s[..|s| - 1]);
      InsertSorted(leq, Sort(leq, s[..|s| - 1]), s[|s| - 1]);
    }
  }

  lemma {:induction false} SortOfSorted<T>(leq: (T, T) -> bool, s: seq<T>)
    requires Sorted(leq, s)
    ensures Sort(leq, s) == s
  {
    hide Insert;
    if s != [] {
      var front, last := s[..|s| - 1], s[|s| - 1];
      assert forall i :: 0 <= i < |front| ==> front[i] == s[i];
      SortOfSorted(leq, front);
      InsertLast(leq, front, last);
      assert s == front + [last];
    }
  }

  lemma InsertLast<T>(leq: (T, T) -> bool, s: seq<T>, x: T)
    requires s == [] || leq(s[|s| - 1], x)
    ensures Insert(leq, s, x) == s + [x]
  {
  }

  /** Something that belongs behind all of `a` is inserted into what follows `a`. */
  lemma {:induction false} InsertBehind<T>(leq: (T, T) -> bool, a: seq<T>, b: seq<T>, x: T)
    requires a != [] ==> leq(a[|a| - 1], x)
    ensures Insert(leq, a + b, x) == a + Insert(leq, b, x)
  {
    if b == [] {
      assert a + b == a;
    } else {
      var front, last := b[..|b| - 1], b[|b| - 1];
      assert (a + b)[|a + b| - 1] == last;
      if leq(last, x) {
        assert a + b + [x] == a + (b + [x]);
      } else {
        assert (a + b)[..|a + b| - 1] == a + front;
        InsertBehind(leq, a, front, x);
        assert a + Insert(leq, front, x) + [last] == a + (Insert(leq, front, x) + [last]);
      }
    }
  }

  lemma SortSnoc<T>(leq: (T, T) -> bool, s: seq<T>, x: T)
    ensures Sort(leq, s + [x]) == Insert(leq, Sort(leq, s), x)
  {
    assert (s + [x])[..|s + [x]| - 1] == s;
  }
}
