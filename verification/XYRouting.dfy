/** From the links of a mesh to the routes messages take: the weight matrix the topology fills in,
    the shortest paths it computes, the routing tables it derives, and the lookup in them. */
module XYRouting {
  import opened ShortestPath
  import opened MeshTopology
  import opened Arithmetic

  /** INFINITE_LATENCY, the weight of a link that is not there. */
  const INFINITE: int := 10000

  /** A mesh of routers numbered row by row, with the controllers in `at` attached to them. */
  datatype Mesh = Mesh(rows: nat, cols: nat, nodes: nat, at: map<nat, nat>) {
    predicate Valid() {
      rows > 0 && cols > 0 && forall c :: c in at ==> c < nodes && at[c] < Routers()
    }

    function Routers(): nat {
      cols * rows
    }

    /** Switches are numbered: controllers as sources, controllers as destinations, routers. */
    function Switches(): nat {
      2 * nodes + Routers()
    }

    function Node(c: nat): nat {
      nodes + c
    }

    function Switch(r: nat): nat {
      2 * nodes + r
    }
  }

  // ----- Coordinates

  function X(cols: nat, r: nat): nat
    requires cols > 0
  {
    r % cols
  }

  function Y(cols: nat, r: nat): nat
    requires cols > 0
  {
    r / cols
  }

  lemma RouterCoordinates(cols: nat, row: nat, col: nat)
    requires col < cols
    ensures X(cols, Router(cols, row, col)) == col && Y(cols, Router(cols, row, col)) == row
  {
    assert row * cols == cols * row;
    Arithmetic.DivUnique(Router(cols, row, col), cols, row, col);
  }

  lemma CoordinatesRouter(m: Mesh, r: nat)
    requires m.Valid()
    ensures Router(m.cols, Y(m.cols, r), X(m.cols, r)) == r && X(m.cols, r) < m.cols
    ensures r < m.Routers() <==> Y(m.cols, r) < m.rows
  {
    var x, y := X(m.cols, r), Y(m.cols, r);
    assert r == m.cols * y + x;
    assert y * m.cols == m.cols * y;
    assert m.cols * (y + 1) == m.cols * y + m.cols;
    if y < m.rows {
      Arithmetic.MulMonotone(m.cols, y + 1, m.rows);
    } else {
      Arithmetic.MulMonotone(m.cols, m.rows, y);
    }
  }

  lemma SameCoordinates(m: Mesh, r: nat, s: nat)
    requires m.Valid() && X(m.cols, r) == X(m.cols, s) && Y(m.cols, r) == Y(m.cols, s)
    ensures r == s
  {
    CoordinatesRouter(m, r);
    CoordinatesRouter(m, s);
  }

  function Abs(a: int): nat {
    if a < 0 then -a else a
  }

  /** The weighted distance between routers: 1 for each column and 2 for each row. */
  function Distance(m: Mesh, r: nat, s: nat): nat
    requires m.Valid()
  {
    Abs(X(m.cols, r) - X(m.cols, s)) + 2 * Abs(Y(m.cols, r) - Y(m.cols, s))
  }

  // ----- Weights

  function RouterWeight(m: Mesh, r: nat, s: nat): int
    requires m.Valid()
  {
    var dx, dy := Abs(X(m.cols, r) - X(m.cols, s)), Abs(Y(m.cols, r) - Y(m.cols, s));
    if dx == 1 && dy == 0 then 1
    else if dx == 0 && dy == 1 then 2
    else INFINITE
  }

  /** The weight between two switches of the mesh. */
  function Weight(m: Mesh, u: nat, v: nat): int
    requires m.Valid()
  {
    if u == v then 0
    else if u in m.at && v == m.Switch(m.at[u]) then 1
    else if m.nodes <= v && v - m.nodes in m.at && u == m.Switch(m.at[v - m.nodes]) then 1
    else if 2 * m.nodes <= u && 2 * m.nodes <= v
    then RouterWeight(m, u - 2 * m.nodes, v - 2 * m.nodes)
    else INFINITE
  }

  ghost predicate WeightsOf(m: Mesh, w: Matrix) {
    && m.Valid() && Square(w, m.Switches())
    && forall u, v :: 0 <= u < m.Switches() && 0 <= v < m.Switches() ==> w[u][v] == Weight(m, u, v)
  }

  lemma WeightBounds(m: Mesh, u: nat, v: nat)
    requires m.Valid()
    ensures 0 <= Weight(m, u, v) <= INFINITE && (Weight(m, u, v) == 0 <==> u == v)
  {
  }

  lemma MeshWeights(m: Mesh, w: Matrix)
    requires WeightsOf(m, w)
    ensures Weights(w, m.Switches())
  {
    hide Weight;
    forall u, v | 0 <= u < m.Switches() && 0 <= v < m.Switches()
      ensures 0 <= w[u][v] && (u == v ==> w[u][v] == 0)
    {
      WeightBounds(m, u, v);
    }
  }

  // ----- Distances in the switch graph

  /** A lower bound on the weight of any walk from u to destination c. */
  function Potential(m: Mesh, c: nat, u: nat): int
    requires m.Valid() && c in m.at
  {
    if u == m.Node(c) then 0
    else if u in m.at then Min(INFINITE, Distance(m, m.at[u], m.at[c]) + 2)
    else if 2 * m.nodes <= u then Min(INFINITE, Distance(m, u - 2 * m.nodes, m.at[c]) + 1)
    else INFINITE
  }

  lemma RouterFeasible(m: Mesh, r: nat, s: nat, q: nat)
    requires m.Valid()
    ensures RouterWeight(m, r, s) == INFINITE ||
            Distance(m, r, q) <= RouterWeight(m, r, s) + Distance(m, s, q)
  {
    hide X, Y;
  }

  lemma Feasible(m: Mesh, c: nat, u: nat, v: nat)
    requires m.Valid() && c in m.at
    ensures Potential(m, c, u) <= Weight(m, u, v) + Potential(m, c, v)
  {
    hide X, Y;
    if 2 * m.nodes <= u && 2 * m.nodes <= v {
      RouterFeasible(m, u - 2 * m.nodes, v - 2 * m.nodes, m.at[c]);
    }
  }

  lemma {:induction false} PotentialBounds(m: Mesh, w: Matrix, c: nat, p: seq<nat>)
    requires WeightsOf(m, w) && c in m.at && |p| > 0 && p[|p| - 1] == m.Node(c)
    requires forall k :: 0 <= k < |p| ==> p[k] < m.Switches()
    ensures Potential(m, c, p[0]) <= PathWeight(w, m.Switches(), p)
  {
    hide Weight, Potential;
    if |p| == 1 {
      assert Potential(m, c, m.Node(c)) == 0 by { EjectWeight(m, c); }
    } else {
      PotentialBounds(m, w, c, p[1..]);
      Feasible(m, c, p[0], p[1]);
    }
  }

  // ----- XY routes

  /** The next router on the XY route from r to q: along the row first, then along the column. */
  function NextRouter(m: Mesh, r: nat, q: nat): nat
    requires m.Valid()
  {
    var x, y, qx, qy := X(m.cols, r), Y(m.cols, r), X(m.cols, q), Y(m.cols, q);
    if x < qx then Router(m.cols, y, x + 1)
    else if x > qx then Router(m.cols, y, x - 1)
    else if y < qy then Router(m.cols, y + 1, x)
    else if y > qy then Router(m.cols, y - 1, x)
    else q
  }

  /** One XY hop is a link, and brings the message nearer by exactly the weight of that link. */
  lemma NextRouterNearer(m: Mesh, r: nat, q: nat)
    requires m.Valid() && r < m.Routers() && q < m.Routers() && r != q
    ensures var s := NextRouter(m, r, q);
            && s < m.Routers() && s != r && RouterWeight(m, r, s) < INFINITE
            && Distance(m, r, q) == RouterWeight(m, r, s) + Distance(m, s, q)
            && (X(m.cols, r) != X(m.cols, q) <==> RouterWeight(m, r, s) == 1)
  {
    hide X, Y, Router, Abs;
    CoordinatesRouter(m, r);
    CoordinatesRouter(m, q);
    var x, y, qx, qy := X(m.cols, r), Y(m.cols, r), X(m.cols, q), Y(m.cols, q);
    if x == qx && y == qy {
      SameCoordinates(m, r, q);
    }
    var s := NextRouter(m, r, q);
    var sx := if x < qx then x + 1 else if x > qx then x - 1 else x;
    var sy := if x != qx then y else if y < qy then y + 1 else y - 1;
    RouterCoordinates(m.cols, sy, sx);
    CoordinatesRouter(m, s);
    HopArithmetic(x, y, sx, sy, qx, qy);
  }

  lemma HopArithmetic(x: int, y: int, sx: int, sy: int, qx: int, qy: int)
    requires x != qx || y != qy
    requires sx == if x < qx then x + 1 else if x > qx then x - 1 else x
    requires sy == if x != qx then y else if y < qy then y + 1 else y - 1
    ensures Abs(x - sx) + Abs(y - sy) == 1 && (Abs(x - sx) == 1 <==> x != qx)
    ensures Abs(x - qx) + 2 * Abs(y - qy) ==
            Abs(x - sx) + 2 * Abs(y - sy) + Abs(sx - qx) + 2 * Abs(sy - qy)
  {
  }

  // ----- What the shortest path computation finds

  ghost predicate Solved(m: Mesh, w: Matrix, d: Matrix) {
    WeightsOf(m, w) && Square(d, m.Switches()) && Distances(w, m.Switches(), d)
  }

  lemma EjectWeight(m: Mesh, c: nat)
    requires m.Valid() && c in m.at
    ensures Weight(m, m.Switch(m.at[c]), m.Node(c)) == 1
    ensures m.Node(c) < m.Switches() && m.Switch(m.at[c]) < m.Switches()
    ensures Potential(m, c, m.Node(c)) == 0
  {
  }

  lemma RoutersWeight(m: Mesh, r: nat, s: nat)
    requires m.Valid() && r != s
    ensures Weight(m, m.Switch(r), m.Switch(s)) == RouterWeight(m, r, s)
  {
  }

  lemma {:induction false} DistanceUpper(m: Mesh, w: Matrix, d: Matrix, c: nat, r: nat)
    requires Solved(m, w, d) && c in m.at && r < m.Routers()
    ensures d[m.Switch(r)][m.Node(c)] <= Distance(m, r, m.at[c]) + 1
    decreases Distance(m, r, m.at[c])
  {
    hide Weight, RouterWeight, Distances, NextRouter;
    var q, n := m.at[c], m.Switches();
    EjectWeight(m, c);
    if r == q {
      DistanceStep(w, n, d, m.Switch(q), m.Node(c), m.Node(c));
    } else {
      var s := NextRouter(m, r, q);
      NextRouterNearer(m, r, q);
      RoutersWeight(m, r, s);
      assert RouterWeight(m, r, s) > 0 by { WeightBounds(m, m.Switch(r), m.Switch(s)); }
      DistanceUpper(m, w, d, c, s);
      DistanceStep(w, n, d, m.Switch(r), m.Switch(s), m.Node(c));
    }
  }

  lemma DistanceLower(m: Mesh, w: Matrix, d: Matrix, c: nat, u: nat)
    requires Solved(m, w, d) && c in m.at && u < m.Switches() && m.Node(c) < m.Switches()
    ensures Potential(m, c, u) <= d[u][m.Node(c)] <= INFINITE
  {
    hide Weight, Potential;
    var n, f := m.Switches(), m.Node(c);
    assert IsDistance(w, n, u, f, d[u][f]);
    var p :| Walk(n, p, u, f) && PathWeight(w, n, p) == d[u][f];
    PotentialBounds(m, w, c, p);
    DistanceStep(w, n, d, u, f, f);
    WeightBounds(m, u, f);
  }

  /** From a router to a controller the computed distance is the weighted distance to its router
      plus one, cut off at INFINITE. */
  lemma SwitchDistance(m: Mesh, w: Matrix, d: Matrix, c: nat, r: nat)
    requires Solved(m, w, d) && c in m.at && r < m.Routers()
    ensures m.Node(c) < m.Switches() && m.Switch(r) < m.Switches()
    ensures d[m.Switch(r)][m.Node(c)] == Min(INFINITE, Distance(m, r, m.at[c]) + 1)
  {
    hide Weight, Distances, Distance;
    EjectWeight(m, c);
    DistanceUpper(m, w, d, c, r);
    DistanceLower(m, w, d, c, m.Switch(r));
  }

  /** There is no way out of a destination but to itself. */
  lemma NodeDistance(m: Mesh, w: Matrix, d: Matrix, c: nat, b: nat)
    requires Solved(m, w, d) && c in m.at && b < m.nodes
    ensures m.Node(c) < m.Switches() && m.Node(b) < m.Switches()
    ensures d[m.Node(b)][m.Node(c)] == if b == c then 0 else INFINITE
  {
    hide Weight, Distances, Distance;
    EjectWeight(m, c);
    DistanceLower(m, w, d, c, m.Node(b));
    if b == c {
      DistanceStep(w, m.Switches(), d, m.Node(c), m.Node(c), m.Node(c));
      WeightBounds(m, m.Node(c), m.Node(c));
    }
  }

  // ----- Which links the routing tables admit

  /** The routing table entry of the link from u to v lists destination c. */
  ghost predicate Admits(m: Mesh, w: Matrix, d: Matrix, c: nat, u: nat, v: nat)
    requires Solved(m, w, d)
  {
    && u < m.Switches() && v < m.Switches() && m.Node(c) < m.Switches()
    && 0 < w[u][v] < INFINITE && w[u][v] + d[v][m.Node(c)] == d[u][m.Node(c)]
  }

  /** The links between routers that are admitted for c are those that bring it nearer, unless c
      is so far away that no distance to it was found. */
  lemma AdmitsRouter(m: Mesh, w: Matrix, d: Matrix, c: nat, r: nat, s: nat)
    requires Solved(m, w, d) && c in m.at && r < m.Routers() && s < m.Routers()
    ensures Admits(m, w, d, c, m.Switch(r), m.Switch(s)) <==>
            && r != s && Distance(m, r, m.at[c]) + 1 <= INFINITE
            && RouterWeight(m, r, s) < INFINITE
            && Distance(m, r, m.at[c]) == RouterWeight(m, r, s) + Distance(m, s, m.at[c])
  {
    hide Weight, Distances, X, Y;
    SwitchDistance(m, w, d, c, r);
    SwitchDistance(m, w, d, c, s);
    RouterFeasible(m, r, s, m.at[c]);
    WeightBounds(m, m.Switch(r), m.Switch(s));
    if r != s {
      RoutersWeight(m, r, s);
    }
  }

  lemma OtherWeights(m: Mesh, r: nat, v: nat)
    requires m.Valid() && v < 2 * m.nodes
    ensures Weight(m, m.Switch(r), v) ==
            if m.nodes <= v && v - m.nodes in m.at && r == m.at[v - m.nodes] then 1 else INFINITE
  {
  }

  /** The only link out of the routers that is admitted for c leads to c. */
  lemma AdmitsNode(m: Mesh, w: Matrix, d: Matrix, c: nat, r: nat, v: nat)
    requires Solved(m, w, d) && c in m.at && r < m.Routers() && v < 2 * m.nodes
    ensures Admits(m, w, d, c, m.Switch(r), v) <==> v == m.Node(c) && r == m.at[c]
  {
    hide Weight, Distances, X, Y;
    SwitchDistance(m, w, d, c, r);
    OtherWeights(m, r, v);
    if m.nodes <= v {
      NodeDistance(m, w, d, c, v - m.nodes);
    }
  }

  // ----- The lookup picks the XY hop

  /** Among the links admitted for c at switch u, v is one of the lightest. */
  ghost predicate Lightest(m: Mesh, w: Matrix, d: Matrix, c: nat, u: nat, v: nat)
    requires Solved(m, w, d)
  {
    Admits(m, w, d, c, u, v)
    && forall x: nat :: Admits(m, w, d, c, u, x) ==> w[u][v] <= w[u][x]
  }

  function XYNext(m: Mesh, r: nat, c: nat): nat
    requires m.Valid() && c in m.at
  {
    if r == m.at[c] then m.Node(c) else m.Switch(NextRouter(m, r, m.at[c]))
  }

  /** A link that brings the message nearer is the XY hop if it is along the row, and also if it
      is along the column and the message is in the right column. */
  lemma NearerIsNext(m: Mesh, r: nat, s: nat, q: nat)
    requires m.Valid() && r < m.Routers() && s < m.Routers() && q < m.Routers() && r != q
    ensures RouterWeight(m, r, s) < INFINITE
            && Distance(m, r, q) == RouterWeight(m, r, s) + Distance(m, s, q)
            && (RouterWeight(m, r, s) == 1 || X(m.cols, r) == X(m.cols, q))
            ==> s == NextRouter(m, r, q)
  {
    hide Router, X, Y;
    CoordinatesRouter(m, r);
    CoordinatesRouter(m, s);
    CoordinatesRouter(m, q);
    if X(m.cols, r) == X(m.cols, q) && Y(m.cols, r) == Y(m.cols, q) {
      SameCoordinates(m, r, q);
    }
  }

  /** Whatever is admitted at a router is a router or the destination itself. */
  lemma AdmittedSwitch(m: Mesh, w: Matrix, d: Matrix, c: nat, r: nat, v: nat)
    requires Solved(m, w, d) && c in m.at && r < m.Routers()
    requires Admits(m, w, d, c, m.Switch(r), v)
    ensures (v == m.Node(c) && r == m.at[c]) || 2 * m.nodes <= v < m.Switches()
    ensures r == m.at[c] ==> v == m.Node(c)
    ensures r != m.at[c] ==> 2 * m.nodes <= v
  {
    hide Weight, Distances, X, Y;
    if v < 2 * m.nodes {
      AdmitsNode(m, w, d, c, r, v);
    } else {
      var s := v - 2 * m.nodes;
      AdmitsRouter(m, w, d, c, r, s);
      if r == m.at[c] {
        assert Distance(m, r, r) == 0;
        RoutersWeight(m, r, s);
        WeightBounds(m, m.Switch(r), v);
      }
    }
  }

  /** At the router of the destination: only the link to it is admitted. */
  lemma LightestAtDestination(m: Mesh, w: Matrix, d: Matrix, c: nat, v: nat)
    requires Solved(m, w, d) && c in m.at
    ensures Lightest(m, w, d, c, m.Switch(m.at[c]), v) <==> v == m.Node(c)
  {
    hide Weight, Distances, Admits;
    var u, r := m.Switch(m.at[c]), m.at[c];
    EjectWeight(m, c);
    AdmitsNode(m, w, d, c, r, m.Node(c));
    forall x: nat | Admits(m, w, d, c, u, x)
      ensures x == m.Node(c)
    {
      AdmittedSwitch(m, w, d, c, r, x);
    }
  }

  lemma LightestElsewhere(m: Mesh, w: Matrix, d: Matrix, c: nat, r: nat, v: nat)
    requires Solved(m, w, d) && c in m.at && r < m.Routers() && r != m.at[c]
    ensures Distance(m, r, m.at[c]) + 1 <= INFINITE ==>
              (Lightest(m, w, d, c, m.Switch(r), v) <==> v == m.Switch(NextRouter(m, r, m.at[c])))
  {
    hide Weight, Distances, Admits, Distance, RouterWeight, NextRouter, X, Y;
    var u, q := m.Switch(r), m.at[c];
    var s := NextRouter(m, r, q);
    NextRouterNearer(m, r, q);
    AdmitsRouter(m, w, d, c, r, s);
    RoutersWeight(m, r, s);
    forall x: nat | Admits(m, w, d, c, u, x)
      ensures x < m.Switches() && (x == m.Switch(s) || w[u][m.Switch(s)] < w[u][x])
    {
      AdmittedSwitch(m, w, d, c, r, x);
      var y := x - 2 * m.nodes;
      AdmitsRouter(m, w, d, c, r, y);
      RoutersWeight(m, r, y);
      OneOrTwo(m, r, y);
      OneOrTwo(m, r, s);
      if RouterWeight(m, r, y) == 1 || X(m.cols, r) == X(m.cols, q) {
        NearerIsNext(m, r, y, q);
      }
    }
  }

  lemma OneOrTwo(m: Mesh, r: nat, s: nat)
    requires m.Valid()
    ensures RouterWeight(m, r, s) in {1, 2, INFINITE} && Distance(m, r, r) == 0
  {
  }

  /** For every mesh, every router and every destination: if the weighted distance to the
      destination is below INFINITE, the lightest admitted link is the XY hop and only that; at
      INFINITE or beyond no link is admitted at all. */
  lemma LookupIsXY(m: Mesh, w: Matrix, d: Matrix, c: nat, r: nat, v: nat)
    requires Solved(m, w, d) && c in m.at && r < m.Routers()
    ensures Lightest(m, w, d, c, m.Switch(r), v) <==>
            v == XYNext(m, r, c) && Distance(m, r, m.at[c]) < INFINITE
  {
    hide Weight, Distances, Admits, Distance, RouterWeight, NextRouter;
    if r == m.at[c] {
      LightestAtDestination(m, w, d, c, v);
      assert Distance(m, r, r) == 0 by { OneOrTwo(m, r, r); }
    } else if Distance(m, r, m.at[c]) + 1 <= INFINITE {
      LightestElsewhere(m, w, d, c, r, v);
    } else if Admits(m, w, d, c, m.Switch(r), v) {
      AdmittedSwitch(m, w, d, c, r, v);
      AdmitsRouter(m, w, d, c, r, v - 2 * m.nodes);
    }
  }

  /** No distance is larger than that between opposite corners. */
  lemma CornersFarthest(m: Mesh, r: nat, q: nat)
    requires m.Valid() && r < m.Routers() && q < m.Routers()
    ensures Distance(m, r, q) <= m.cols - 1 + 2 * (m.rows - 1)
    ensures Distance(m, 0, m.Routers() - 1) == m.cols - 1 + 2 * (m.rows - 1)
  {
    hide X, Y;
    var far := Router(m.cols, m.rows - 1, m.cols - 1);
    RouterCoordinates(m.cols, m.rows - 1, m.cols - 1);
    RouterCoordinates(m.cols, 0, 0);
    assert (m.rows - 1) * m.cols == m.cols * m.rows - m.cols;
    assert far == m.Routers() - 1 && Router(m.cols, 0, 0) == 0;
    CoordinatesRouter(m, r);
    CoordinatesRouter(m, q);
  }

  /** At INFINITE or beyond not a single link is listed. */
  lemma NothingAdmitted(m: Mesh, w: Matrix, d: Matrix, c: nat, r: nat, v: nat)
    requires Solved(m, w, d) && c in m.at && r < m.Routers()
    ensures Distance(m, r, m.at[c]) >= INFINITE ==> !Admits(m, w, d, c, m.Switch(r), v)
  {
    hide Weight, Distances, Admits, RouterWeight;
    OneOrTwo(m, r, r);
    if Distance(m, r, m.at[c]) >= INFINITE && Admits(m, w, d, c, m.Switch(r), v) {
      AdmittedSwitch(m, w, d, c, r, v);
      AdmitsRouter(m, w, d, c, r, v - 2 * m.nodes);
    }
  }
}
