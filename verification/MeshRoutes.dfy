/** Whole routes through the tables of a mesh, and which meshes have routes to everywhere. */
module MeshRoutes {
  import opened Counting
  import opened ShortestPath
  import opened MeshTopology
  import opened XYRouting
  import opened RoutingTables

  // ----- Following the tables

  /** The switches a message for c that enters at router r may pass: every step is along one of the
      lightest links that the table lists for c. */
  ghost predicate TablePath(m: Mesh, w: Matrix, d: Matrix, c: nat, r: nat, path: seq<nat>)
    requires Solved(m, w, d)
  {
    && |path| > 0 && path[0] == m.Switch(r)
    && forall k :: 0 < k < |path| ==> Lightest(m, w, d, c, path[k - 1], path[k])
  }

  /** The table of switch u has a link for c. */
  ghost predicate HasRoute(m: Mesh, w: Matrix, d: Matrix, c: nat, u: nat)
    requires Solved(m, w, d)
  {
    exists v: nat :: Lightest(m, w, d, c, u, v)
  }

  /** The switch after k steps of the XY route. */
  function StepXY(m: Mesh, c: nat, r: nat, k: nat): nat
    requires m.Valid() && c in m.at
  {
    if k <= Hops(m, r, m.at[c]) then m.Switch(Follow(m, r, m.at[c], k)) else m.Node(c)
  }

  lemma {:induction false} StaysWithinReach(m: Mesh, r: nat, q: nat, k: nat)
    requires m.Valid() && r < m.Routers() && q < m.Routers()
    ensures k <= Hops(m, r, q) ==>
              && Follow(m, r, q, k) < m.Routers()
              && Distance(m, Follow(m, r, q, k), q) <= Distance(m, r, q)
  {
    hide Distance, Hops, NextRouter, RouterWeight;
    if 0 < k <= Hops(m, r, q) {
      StaysWithinReach(m, r, q, k - 1);
      RouteArrives(m, r, q, k - 1);
      NextRouterNearer(m, Follow(m, r, q, k - 1), q);
      OneOrTwo(m, Follow(m, r, q, k - 1), Follow(m, r, q, k));
    }
  }

  /** From the k-th switch of the XY route the tables lead to the next and nowhere else. */
  lemma TablesLeadOn(m: Mesh, w: Matrix, d: Matrix, c: nat, r: nat, k: nat, v: nat)
    requires Solved(m, w, d) && c in m.at && r < m.Routers()
    ensures k <= Hops(m, r, m.at[c]) && Distance(m, r, m.at[c]) < INFINITE ==>
              (Lightest(m, w, d, c, StepXY(m, c, r, k), v) <==> v == StepXY(m, c, r, k + 1))
  {
    hide Lightest, Distance, Distances, Hops, NextRouter;
    var q := m.at[c];
    if k <= Hops(m, r, q) {
      StaysWithinReach(m, r, q, k);
      RouteArrives(m, r, q, k);
      LookupIsXY(m, w, d, c, Follow(m, r, q, k), v);
    }
  }

  /** There is no way on from a destination. */
  lemma NoWayOn(m: Mesh, w: Matrix, d: Matrix, c: nat, v: nat)
    requires Solved(m, w, d) && c in m.at
    ensures !Lightest(m, w, d, c, m.Node(c), v)
  {
    hide Distances, RouterWeight;
    assert c < m.nodes;
    assert v < m.Switches() ==> w[m.Node(c)][v] == Weight(m, m.Node(c), v);
  }

  /** Every path through the tables is the XY route: it can be extended until it reaches the
      controller, and it gets there after exactly the hops between the routers and the ejection. */
  lemma {:induction false} TablesArrive(m: Mesh, w: Matrix, d: Matrix, c: nat, r: nat,
                                        path: seq<nat>)
    requires Solved(m, w, d) && c in m.at && r < m.Routers()
    requires Distance(m, r, m.at[c]) < INFINITE && TablePath(m, w, d, c, r, path)
    ensures |path| <= Hops(m, r, m.at[c]) + 2
    ensures forall k :: 0 <= k < |path| ==> path[k] == StepXY(m, c, r, k)
    ensures path[|path| - 1] == m.Node(c) <==> |path| == Hops(m, r, m.at[c]) + 2
    ensures HasRoute(m, w, d, c, path[|path| - 1]) <==> |path| < Hops(m, r, m.at[c]) + 2
  {
    hide Lightest, Distance, Distances, Hops, Follow;
    var n := |path| - 1;
    if n == 0 {
      RouteArrives(m, r, m.at[c], 0);
    } else {
      var front := path[..n];
      assert TablePath(m, w, d, c, r, front);
      TablesArrive(m, w, d, c, r, front);
      assert Lightest(m, w, d, c, path[n - 1], path[n]);
      assert path[n - 1] == StepXY(m, c, r, n - 1) && n - 1 <= Hops(m, r, m.at[c]);
      TablesLeadOn(m, w, d, c, r, n - 1, path[n]);
      assert forall k :: 0 <= k < n ==> path[k] == front[k];
    }
    if n <= Hops(m, r, m.at[c]) {
      var next := StepXY(m, c, r, n + 1);
      TablesLeadOn(m, w, d, c, r, n, next);
      assert path[n] != m.Node(c);
    } else {
      forall v: nat ensures !Lightest(m, w, d, c, path[n], v) {
        NoWayOn(m, w, d, c, v);
      }
    }
  }

  datatype Delivery = Lost | Arrived(path: seq<nat>)

  /** One router after the other looks the destination up, until the message is ejected. Whatever
      candidates are picked, it arrives if and only if it starts within reach. */
  method Deliver(m: Mesh, w: Matrix, d: Matrix, c: nat, r: nat, ordered: bool)
    returns (res: Delivery)
    requires Solved(m, w, d) && c in m.at && r < m.Routers()
    ensures res.Lost? <==> Distance(m, r, m.at[c]) >= INFINITE
    ensures res.Arrived? ==>
              && TablePath(m, w, d, c, r, res.path) && |res.path| == Hops(m, r, m.at[c]) + 2
              && res.path[|res.path| - 1] == m.Node(c)
  {
    hide Distance, Distances, Lightest, Hops, StepXY, NextRouter, RouterWeight;
    var here: nat, path: seq<nat> := r, [m.Switch(r)];
    while true
      invariant here < m.Routers() && |path| > 0 && path[|path| - 1] == m.Switch(here)
      invariant TablePath(m, w, d, c, r, path)
      invariant Distance(m, here, m.at[c]) < INFINITE <==> Distance(m, r, m.at[c]) < INFINITE
      invariant |path| > 1 ==> |path| < Hops(m, r, m.at[c]) + 2
      decreases Hops(m, r, m.at[c]) + 2 - |path|
    {
      var found, next := RouteOnce(m, w, d, c, here, ordered);
      if found.NoRoute? {
        return Lost;
      }
      LookupIsXY(m, w, d, c, here, next);
      path := path + [next];
      TablesArrive(m, w, d, c, r, path);
      if next == m.Node(c) {
        return Arrived(path);
      }
      NextRouterNearer(m, here, m.at[c]);
      OneOrTwo(m, here, NextRouter(m, here, m.at[c]));
      here := next - 2 * m.nodes;
    }
  }

  // ----- Which meshes have routes to everywhere

  /** The far corner of a mesh has a controller, as the last directory is. */
  lemma FarController(net: Network, m: Mesh, hops: seq<Hop>, base: nat) returns (c: nat)
    requires IsMesh(net, m, hops, base)
    ensures c in m.at && m.at[c] == m.Routers() - 1
  {
    var k :| 0 <= k < m.nodes && net.extLinks[k].router == net.routers - 1;
    c := net.extLinks[k].node;
  }

  ghost predicate RoutesEverywhere(m: Mesh, w: Matrix, d: Matrix)
    requires Solved(m, w, d)
  {
    forall r: nat, c: nat :: r < m.Routers() && c in m.at ==> HasRoute(m, w, d, c, m.Switch(r))
  }

  lemma HasRouteIff(m: Mesh, w: Matrix, d: Matrix, c: nat, r: nat)
    requires Solved(m, w, d) && c in m.at && r < m.Routers()
    ensures HasRoute(m, w, d, c, m.Switch(r)) <==> Distance(m, r, m.at[c]) < INFINITE
  {
    hide Lightest, Distance, Distances;
    LookupIsXY(m, w, d, c, r, XYNext(m, r, c));
    if HasRoute(m, w, d, c, m.Switch(r)) {
      var v: nat :| Lightest(m, w, d, c, m.Switch(r), v);
      LookupIsXY(m, w, d, c, r, v);
    }
  }

  /** In a mesh that was built, every router finds a route to every controller if and only if the
      opposite corners are less than INFINITE apart. */
  lemma RoutesEverywhereIff(cs: seq<Controller>, rows: nat, net: Network, hops: seq<Hop>, w: Matrix,
                            d: Matrix)
    requires MeshOf(cs, rows, net, hops) && NodesNumbered(net)
    requires Solved(MeshFor(net, rows), w, d)
    ensures RoutesEverywhere(MeshFor(net, rows), w, d) <==>
              net.columns - 1 + 2 * (rows - 1) < INFINITE
  {
    hide MeshOf, Distances, HasRoute, Distance;
    var m := MeshFor(net, rows);
    BuiltIsMesh(cs, rows, net, hops);
    var far := FarController(net, m, hops, |Caches(cs)| + 4);
    CornersFarthest(m, 0, m.Routers() - 1);
    HasRouteIff(m, w, d, far, 0);
    forall r: nat, c: nat | r < m.Routers() && c in m.at
      ensures net.columns - 1 + 2 * (rows - 1) < INFINITE ==> HasRoute(m, w, d, c, m.Switch(r))
    {
      CornersFarthest(m, r, m.at[c]);
      HasRouteIff(m, w, d, c, r);
    }
  }

  const FOUR_DIRECTORIES: seq<Controller> :=
    [Controller(Directory, 0), Controller(Directory, 1), Controller(Directory, 2),
     Controller(Directory, 3)]

  lemma OnlyDirectories(routers: nat)
    requires routers > 0
    ensures Caches(FOUR_DIRECTORIES) == [] && Dmas(FOUR_DIRECTORIES) == []
    ensures Directories(FOUR_DIRECTORIES) == FOUR_DIRECTORIES
    ensures Accepted(FOUR_DIRECTORIES, routers, 1)
  {
    hide OfKinds;
    AllOrNone(FOUR_DIRECTORIES, {Directory});
    AllOrNone(FOUR_DIRECTORIES, {Dma});
    AllOrNone(FOUR_DIRECTORIES, {L1Cache, L2Cache});
  }

  /** A row of 10001 routers is built and its tables are filled, but from router 0 there is no route
      to the directory at the other end. */
  method RowTooLong() returns (res: Delivery)
    ensures res == Lost
  {
    hide MeshOf, IsMesh, MeshFor, Solved, TablePath, Distance, Accepted, NodesNumbered;
    var routers := 10001;
    assert Accepted(FOUR_DIRECTORIES, routers, 1) by { OnlyDirectories(routers); }
    var built, hops := MakeTopology(FOUR_DIRECTORIES, routers, 1);
    var net := built.net;
    LongRow(net, hops, routers);
    var m := MeshFor(net, 1);
    var w, d := Solve(net, m, hops, 4);
    res := Deliver(m, w, d, 3, 0, true);
  }

  lemma LongRow(net: Network, hops: seq<Hop>, n: nat)
    requires MeshOf(FOUR_DIRECTORIES, 1, net, hops) && net.routers == n > 0
    ensures NodesNumbered(net)
    ensures var m := MeshFor(net, 1);
            && IsMesh(net, m, hops, 4) && m.Valid() && m.Routers() == n
            && 3 in m.at && m.at[3] == n - 1 && Distance(m, 0, n - 1) == n - 1
  {
    hide OfKinds, Numbered, ValidHop, Distance, IsMesh;
    OnlyDirectories(n);
    assert forall k :: 0 <= k < |net.extLinks| ==> net.extLinks[k].node == k;
    BuiltIsMesh(FOUR_DIRECTORIES, 1, net, hops);
    var m := MeshFor(net, 1);
    assert net.extLinks[3].router == n - 1 && net.extLinks[3].node == 3;
    MeshValid(net, m, hops, 4);
    CornersFarthest(m, 0, n - 1);
  }

}
