/** The all-pairs shortest path computation of the network topology. */
module ShortestPath {

  type Matrix = seq<seq<int>>

  ghost predicate Square(m: Matrix, n: nat) {
    |m| == n && forall i :: 0 <= i < n ==> |m[i]| == n
  }

  /** Weights as the topology fills them in: none is negative and staying put is free. */
  ghost predicate Weights(w: Matrix, n: nat) {
    && Square(w, n)
    && (forall i, j :: 0 <= i < n && 0 <= j < n ==> 0 <= w[i][j])
    && (forall i :: 0 <= i < n ==> w[i][i] == 0)
  }

  // ----- Walks

  ghost predicate Walk(n: nat, p: seq<nat>, i: nat, j: nat) {
    && |p| > 0 && p[0] == i && p[|p| - 1] == j
    && forall k :: 0 <= k < |p| ==> p[k] < n
  }

  ghost function PathWeight(w: Matrix, n: nat, p: seq<nat>): int
    requires Square(w, n) && forall k :: 0 <= k < |p| ==> p[k] < n
  {
    if |p| <= 1 then 0 else w[p[0]][p[1]] + PathWeight(w, n, p[1..])
  }

  /** Some walk from i to j has weight d. */
  ghost predicate Attained(w: Matrix, n: nat, i: nat, j: nat, d: int)
    requires Square(w, n)
  {
    exists p :: Walk(n, p, i, j) && PathWeight(w, n, p) == d
  }

  /** d is the least weight of a walk from i to j. */
  ghost predicate IsDistance(w: Matrix, n: nat, i: nat, j: nat, d: int)
    requires Square(w, n)
  {
    Attained(w, n, i, j, d) && forall p :: Walk(n, p, i, j) ==> d <= PathWeight(w, n, p)
  }

  ghost predicate Distances(w: Matrix, n: nat, d: Matrix)
    requires Square(w, n) && Square(d, n)
  {
    forall i, j :: 0 <= i < n && 0 <= j < n ==> IsDistance(w, n, i, j, d[i][j])
  }

  lemma StepAttained(w: Matrix, n: nat, i: nat, j: nat)
    requires Square(w, n) && i < n && j < n
    ensures Attained(w, n, i, j, w[i][j])
  {
    var p := [i, j];
    assert p[1..] == [j];
    assert Walk(n, p, i, j) && PathWeight(w, n, p) == w[i][j];
  }

  lemma {:induction false} JoinWeight(w: Matrix, n: nat, p: seq<nat>, q: seq<nat>)
    requires Square(w, n) && |p| > 0 && |q| > 0 && p[|p| - 1] == q[0]
    requires forall k :: 0 <= k < |p| ==> p[k] < n
    requires forall k :: 0 <= k < |q| ==> q[k] < n
    ensures PathWeight(w, n, p + q[1..]) == PathWeight(w, n, p) + PathWeight(w, n, q)
  {
    if |p| == 1 {
      assert p + q[1..] == q;
    } else {
      JoinWeight(w, n, p[1..], q);
      assert (p + q[1..])[1..] == p[1..] + q[1..];
    }
  }

  lemma JoinAttained(w: Matrix, n: nat, i: nat, k: nat, j: nat, a: int, b: int)
    requires Square(w, n) && Attained(w, n, i, k, a) && Attained(w, n, k, j, b)
    ensures Attained(w, n, i, j, a + b)
  {
    var p :| Walk(n, p, i, k) && PathWeight(w, n, p) == a;
    var q :| Walk(n, q, k, j) && PathWeight(w, n, q) == b;
    JoinWeight(w, n, p, q);
    assert Walk(n, p + q[1..], i, j);
  }

  /** A step followed by a shortest walk is no shorter than the distance. */
  lemma DistanceStep(w: Matrix, n: nat, d: Matrix, i: nat, k: nat, j: nat)
    requires Square(w, n) && Square(d, n) && Distances(w, n, d) && i < n && k < n && j < n
    ensures d[i][j] <= w[i][k] + d[k][j]
    ensures d[i][j] <= w[i][j]
  {
    StepAttained(w, n, i, k);
    assert IsDistance(w, n, k, j, d[k][j]);
    JoinAttained(w, n, i, k, j, w[i][k], d[k][j]);
    StepAttained(w, n, i, j);
    assert IsDistance(w, n, i, j, d[i][j]);
  }

  // ----- The matrices the computation goes through

  /** No switch on the way makes the entry for i and j any smaller. */
  ghost predicate Relaxed(d: Matrix, n: nat, i: nat, j: nat)
    requires Square(d, n) && i < n && j < n
  {
    forall k :: 0 <= k < n ==> d[i][j] <= d[i][k] + d[k][j]
  }

  ghost predicate Triangle(d: Matrix, n: nat)
    requires Square(d, n)
  {
    forall i, j :: 0 <= i < n && 0 <= j < n ==> Relaxed(d, n, i, j)
  }

  /** Between the weights and the distances: every entry is the weight of some walk and none
      exceeds the direct weight. */
  ghost predicate Between(w: Matrix, n: nat, d: Matrix)
    requires Square(w, n)
  {
    && Square(d, n)
    && (forall i, j :: 0 <= i < n && 0 <= j < n ==> 0 <= d[i][j] <= w[i][j])
    && (forall i, j :: 0 <= i < n && 0 <= j < n ==> Attained(w, n, i, j, d[i][j]))
  }

  lemma {:induction false} TriangleBounds(w: Matrix, n: nat, d: Matrix, p: seq<nat>)
    requires Square(w, n) && Between(w, n, d) && Triangle(d, n) && |p| > 0
    requires forall i :: 0 <= i < n ==> w[i][i] == 0
    requires forall k :: 0 <= k < |p| ==> p[k] < n
    ensures d[p[0]][p[|p| - 1]] <= PathWeight(w, n, p)
  {
    if |p| == 1 {
      assert d[p[0]][p[0]] <= w[p[0]][p[0]];
    } else {
      TriangleBounds(w, n, d, p[1..]);
      assert Relaxed(d, n, p[0], p[|p| - 1]);
      assert d[p[0]][p[|p| - 1]] <= d[p[0]][p[1]] + d[p[1]][p[|p| - 1]];
    }
  }

  lemma FixpointIsDistances(w: Matrix, n: nat, d: Matrix)
    requires Weights(w, n) && Between(w, n, d) && Triangle(d, n)
    ensures Distances(w, n, d)
  {
    forall i, j, p | 0 <= i < n && 0 <= j < n && Walk(n, p, i, j)
      ensures d[i][j] <= PathWeight(w, n, p)
    {
      TriangleBounds(w, n, d, p);
    }
  }

  function Update(d: Matrix, i: nat, j: nat, x: int): Matrix
    requires i < |d| && j < |d[i]|
  {
    d[i := d[i][j := x]]
  }

  // ----- Progress: the sum of all entries

  ghost function Sum(s: seq<int>): int {
    if s == [] then 0 else s[0] + Sum(s[1..])
  }

  ghost function Total(m: Matrix): int {
    if m == [] then 0 else Sum(m[0]) + Total(m[1..])
  }

  lemma {:induction false} SumUpdate(s: seq<int>, j: nat, x: int)
    requires j < |s|
    ensures Sum(s[j := x]) == Sum(s) - s[j] + x
  {
    if j == 0 {
      assert s[j := x][1..] == s[1..];
    } else {
      assert s[j := x][1..] == s[1..][j - 1 := x];
      SumUpdate(s[1..], j - 1, x);
    }
  }

  lemma {:induction false} TotalUpdate(m: Matrix, i: nat, j: nat, x: int)
    requires i < |m| && j < |m[i]|
    ensures Total(Update(m, i, j, x)) == Total(m) - m[i][j] + x
  {
    if i == 0 {
      SumUpdate(m[0], j, x);
      assert Update(m, i, j, x)[1..] == m[1..];
    } else {
      assert Update(m, i, j, x)[1..] == Update(m[1..], i - 1, j, x);
      TotalUpdate(m[1..], i - 1, j, x);
    }
  }

  lemma {:induction false} SumNonNegative(s: seq<int>)
    requires forall i :: 0 <= i < |s| ==> 0 <= s[i]
    ensures 0 <= Sum(s)
  {
    if s != [] {
      SumNonNegative(s[1..]);
    }
  }

  lemma {:induction false} TotalNonNegative(m: Matrix)
    requires forall i, j :: 0 <= i < |m| && 0 <= j < |m[i]| ==> 0 <= m[i][j]
    ensures 0 <= Total(m)
  {
    if m != [] {
      SumNonNegative(m[0]);
      assert forall i :: 0 <= i < |m[1..]| ==> m[1..][i] == m[i + 1];
      TotalNonNegative(m[1..]);
    }
  }

  // ----- The computation

  /** The innermost loop: the best way from i to j through any one switch. */
  method BestThrough(d: Matrix, n: nat, i: nat, j: nat) returns (minimum: int)
    requires Square(d, n) && i < n && j < n
    ensures minimum <= d[i][j]
    ensures forall k :: 0 <= k < n ==> minimum <= d[i][k] + d[k][j]
    ensures minimum == d[i][j] || exists k :: 0 <= k < n && minimum == d[i][k] + d[k][j]
  {
    minimum := d[i][j];
    for k := 0 to n
      invariant minimum <= d[i][j]
      invariant forall m :: 0 <= m < k ==> minimum <= d[i][m] + d[m][j]
      invariant minimum == d[i][j] || exists m :: 0 <= m < k && minimum == d[i][m] + d[m][j]
    {
      if d[i][k] + d[k][j] < minimum {
        minimum := d[i][k] + d[k][j];
      }
    }
  }

  lemma UpdateBetween(w: Matrix, n: nat, d: Matrix, i: nat, j: nat, x: int)
    requires Weights(w, n) && Between(w, n, d) && i < n && j < n && x <= d[i][j]
    requires x == d[i][j] || exists k :: 0 <= k < n && x == d[i][k] + d[k][j]
    ensures Between(w, n, Update(d, i, j, x))
  {
    if k :| 0 <= k < n && x == d[i][k] + d[k][j] {
      JoinAttained(w, n, i, k, j, d[i][k], d[k][j]);
    }
    var u := Update(d, i, j, x);
    forall a, b | 0 <= a < n && 0 <= b < n
      ensures 0 <= u[a][b] <= w[a][b] && Attained(w, n, a, b, u[a][b])
    {
      assert Attained(w, n, a, b, d[a][b]);
    }
  }

  /** The two inner loops for one row, updating it in place. */
  method PassRow(ghost w: Matrix, n: nat, start: Matrix, i: nat) returns (d: Matrix, change: bool)
    requires Weights(w, n) && Between(w, n, start) && i < n
    ensures Between(w, n, d)
    ensures change ==> Total(d) < Total(start)
    ensures !change ==> d == start && forall b :: 0 <= b < n ==> Relaxed(d, n, i, b)
  {
    hide Total, Attained;
    d, change := start, false;
    for j := 0 to n
      invariant Between(w, n, d)
      invariant change ==> Total(d) < Total(start)
      invariant !change ==> d == start && forall b :: 0 <= b < j ==> Relaxed(d, n, i, b)
    {
      var minimum := BestThrough(d, n, i, j);
      if d[i][j] != minimum {
        UpdateBetween(w, n, d, i, j, minimum);
        TotalUpdate(d, i, j, minimum);
        change := true;
        d := Update(d, i, j, minimum);
      }
    }
  }

  /** One pass over all pairs; without a change the matrix was a fixpoint. */
  method Pass(ghost w: Matrix, n: nat, start: Matrix) returns (d: Matrix, change: bool)
    requires Weights(w, n) && Between(w, n, start)
    ensures Between(w, n, d)
    ensures change ==> Total(d) < Total(start)
    ensures !change ==> d == start && Triangle(d, n)
  {
    hide Total, Attained, Relaxed;
    d, change := start, false;
    for i := 0 to n
      invariant Between(w, n, d)
      invariant change ==> Total(d) < Total(start)
      invariant !change ==> d == start
      invariant !change ==> forall a, b :: 0 <= a < i && 0 <= b < n ==> Relaxed(d, n, a, b)
    {
      var changed;
      d, changed := PassRow(w, n, d, i);
      change := change || changed;
    }
  }

  /** Passes until nothing changes: for every weight matrix the computation stops, and every entry
      is then the least weight of a walk. */
  method AllPairs(w: Matrix, n: nat) returns (d: Matrix)
    requires Weights(w, n)
    ensures Square(d, n) && Distances(w, n, d)
  {
    d := w;
    forall i, j | 0 <= i < n && 0 <= j < n
      ensures Attained(w, n, i, j, d[i][j])
    {
      StepAttained(w, n, i, j);
    }
    var change := true;
    while change
      invariant Between(w, n, d)
      invariant !change ==> Triangle(d, n)
      decreases Total(d), change
    {
      d, change := Pass(w, n, d);
      TotalNonNegative(d);
    }
    FixpointIsDistances(w, n, d);
  }
}
