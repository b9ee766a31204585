/** The routing tables of a mesh, how a router looks a destination up in them, and what that means
    for the routes: XY order, shortest, and free of cyclic waiting. */
module RoutingTables {
  import opened ShortestPath
  import opened MeshTopology
  import opened XYRouting

  // ----- Filling in the weights

  /** A one-way connection between switches. */
  datatype Entry = Entry(src: nat, dst: nat, weight: int)

  /** External links become one entry into the network and one out of it, of weight 1; internal
      links one entry of their weight. */
  function Entries(net: Network): seq<Entry> {
    var n := |net.extLinks|;
    seq(n, k requires 0 <= k < n => Entry(net.extLinks[k].node, 2 * n + net.extLinks[k].router, 1))
    + seq(n, k requires 0 <= k < n => Entry(2 * n + net.extLinks[k].router, n + net.extLinks[k].node, 1))
    + seq(|net.intLinks|, k requires 0 <= k < |net.intLinks| =>
            Entry(2 * n + net.intLinks[k].src, 2 * n + net.intLinks[k].dst, net.intLinks[k].weight))
  }

  /** The controllers of the network are numbered without gaps or repetition. */
  predicate NodesNumbered(net: Network) {
    var links := net.extLinks;
    && (forall k :: 0 <= k < |links| ==> links[k].node < |links|)
    && (forall i, j :: 0 <= i < j < |links| ==> links[i].node != links[j].node)
  }

  /** Controllers of the known kinds, numbered without gaps or repetition, are so in the network. */
  lemma ControllersNumbered(cs: seq<Controller>, rows: nat, net: Network, hops: seq<Hop>)
    requires MeshOf(cs, rows, net, hops) && NodesDistinct(cs)
    requires forall k :: 0 <= k < |cs| ==> cs[k].kind != Other && cs[k].node < |cs|
    ensures |net.extLinks| == |cs| && NodesNumbered(net)
  {
    hide OfKinds, Numbered, LinkOf, NodesDistinct;
    var links, c := net.extLinks, |Caches(cs)|;
    KindsPartition(cs);
    forall k | 0 <= k < |links| ensures links[k].node < |links| {
      var x := ControllerOf(cs, rows, net, hops, k);
    }
    forall i, j | 0 <= i < j < |links| ensures links[i].node != links[j].node {
      LinksDiffer(cs, rows, net, hops, i, j);
    }
  }

  /** The controller at the end of an external link. */
  lemma ControllerOf(cs: seq<Controller>, rows: nat, net: Network, hops: seq<Hop>, k: nat)
    returns (x: Controller)
    requires MeshOf(cs, rows, net, hops) && k < |net.extLinks|
    ensures x in cs && net.extLinks[k].node == x.node
  {
    hide OfKinds, Numbered, LinkOf;
    var c := |Caches(cs)|;
    if k < c {
      OfKindsWithin(cs, {L1Cache, L2Cache}, k);
      x := Caches(cs)[k];
    } else if k < c + 4 {
      OfKindsWithin(cs, {Directory}, k - c);
      x := Directories(cs)[k - c];
    } else {
      OfKindsWithin(cs, {Dma}, k - c - 4);
      x := Dmas(cs)[k - c - 4];
    }
  }

  lemma LinksDiffer(cs: seq<Controller>, rows: nat, net: Network, hops: seq<Hop>, i: nat, j: nat)
    requires MeshOf(cs, rows, net, hops) && NodesDistinct(cs) && i < j < |net.extLinks|
    ensures net.extLinks[i].node != net.extLinks[j].node
  {
    hide OfKinds, Numbered, LinkOf;
    var c := |Caches(cs)|;
    if i < c {
      if j < c {
        OfKindsDistinct(cs, {L1Cache, L2Cache});
      } else if j < c + 4 {
        KindsApart(cs, {L1Cache, L2Cache}, {Directory}, i, j - c);
      } else {
        KindsApart(cs, {L1Cache, L2Cache}, {Dma}, i, j - c - 4);
      }
    } else if i < c + 4 {
      if j < c + 4 {
        OfKindsDistinct(cs, {Directory});
      } else {
        KindsApart(cs, {Directory}, {Dma}, i - c, j - c - 4);
      }
    } else {
      OfKindsDistinct(cs, {Dma});
    }
  }

  /** The mesh that a network is. */
  ghost predicate IsMesh(net: Network, m: Mesh, hops: seq<Hop>, base: nat) {
    && m.Valid() && m.cols == net.columns && m.Routers() == net.routers
    && m.nodes == |net.extLinks| && NodesNumbered(net)
    && (forall k :: 0 <= k < m.nodes ==>
          net.extLinks[k].node in m.at && m.at[net.extLinks[k].node] == net.extLinks[k].router)
    && (forall c :: c in m.at ==> exists k :: 0 <= k < m.nodes && net.extLinks[k].node == c)
    && (exists k :: 0 <= k < m.nodes && net.extLinks[k].router == net.routers - 1)
    && Numbered(m.cols, base, net.intLinks, hops)
    && (forall h :: h in hops <==> ValidHop(m.rows, m.cols, h))
  }

  /** The mesh of a network that makeTopology built. */
  function MeshFor(net: Network, rows: nat): Mesh
    requires NodesNumbered(net)
  {
    var links := net.extLinks;
    Mesh(rows, net.columns, |links|,
         map k | 0 <= k < |links| :: links[k].node := links[k].router)
  }

  lemma BuiltIsMesh(cs: seq<Controller>, rows: nat, net: Network, hops: seq<Hop>)
    requires MeshOf(cs, rows, net, hops) && NodesNumbered(net)
    ensures IsMesh(net, MeshFor(net, rows), hops, |Caches(cs)| + 4)
  {
    hide OfKinds, LinkOf;
    var m, links := MeshFor(net, rows), net.extLinks;
    forall k | 0 <= k < |links|
      ensures links[k].router < net.routers
      ensures links[k].node in m.at && m.at[links[k].node] == links[k].router
    {
      assert k % net.routers < net.routers;
    }
    assert links[|Caches(cs)| + 3].router == net.routers - 1;
  }

  lemma HopWeight(m: Mesh, h: Hop, id: nat)
    requires m.Valid() && ValidHop(m.rows, m.cols, h)
    ensures var l := LinkOf(m.cols, h, id);
            l.src < m.Routers() && l.dst < m.Routers() && l.src != l.dst
            && RouterWeight(m, l.src, l.dst) == l.weight < INFINITE
  {
    hide X, Y, Router;
    var l := LinkOf(m.cols, h, id);
    RouterCoordinates(m.cols, h.row, h.col);
    if h.dir.East? || h.dir.West? {
      RouterCoordinates(m.cols, h.row, h.col + 1);
    } else {
      RouterCoordinates(m.cols, h.row + 1, h.col);
    }
    CoordinatesRouter(m, l.src);
    CoordinatesRouter(m, l.dst);
  }

  /** The hop between two neighbouring routers. */
  function HopBetween(m: Mesh, r: nat, s: nat): Hop
    requires m.Valid()
  {
    var x, y, sx, sy := X(m.cols, r), Y(m.cols, r), X(m.cols, s), Y(m.cols, s);
    if x < sx then Hop(East, y, x) else if x > sx then Hop(West, y, sx)
    else if y < sy then Hop(North, y, x) else Hop(South, sy, x)
  }

  lemma HopExists(m: Mesh, r: nat, s: nat, id: nat)
    requires m.Valid() && r < m.Routers() && s < m.Routers() && RouterWeight(m, r, s) < INFINITE
    ensures ValidHop(m.rows, m.cols, HopBetween(m, r, s))
    ensures var l := LinkOf(m.cols, HopBetween(m, r, s), id);
            l.src == r && l.dst == s
  {
    hide X, Y, Router;
    CoordinatesRouter(m, r);
    CoordinatesRouter(m, s);
  }

  /** Every entry has the weight of the mesh ... */
  lemma EntrySound(net: Network, m: Mesh, hops: seq<Hop>, base: nat, k: nat)
    requires IsMesh(net, m, hops, base) && k < |Entries(net)|
    ensures var e := Entries(net)[k];
            && e.src < m.Switches() && e.dst < m.Switches() && e.src != e.dst
            && e.weight == Weight(m, e.src, e.dst)
  {
    hide LinkOf, RouterWeight, ValidHop;
    var n := m.nodes;
    if k >= 2 * n {
      var i := k - 2 * n;
      assert hops[i] in hops;
      HopWeight(m, hops[i], base + i);
      RoutersWeight(m, net.intLinks[i].src, net.intLinks[i].dst);
    } else if k >= n {
      EjectWeight(m, net.extLinks[k - n].node);
    } else {
      assert net.extLinks[k].node in m.at;
    }
  }

  ghost predicate HasEntry(es: seq<Entry>, u: nat, v: nat) {
    exists k :: 0 <= k < |es| && es[k].src == u && es[k].dst == v
  }

  lemma RouterEntry(net: Network, m: Mesh, hops: seq<Hop>, base: nat, r: nat, s: nat)
    requires IsMesh(net, m, hops, base) && r < m.Routers() && s < m.Routers()
    requires RouterWeight(m, r, s) < INFINITE
    ensures HasEntry(Entries(net), m.Switch(r), m.Switch(s))
  {
    hide LinkOf, RouterWeight, ValidHop, HopBetween;
    HopExists(m, r, s, 0);
    var i :| 0 <= i < |hops| && hops[i] == HopBetween(m, r, s);
    HopExists(m, r, s, base + i);
    var e := Entries(net)[2 * m.nodes + i];
    assert e.src == m.Switch(r) && e.dst == m.Switch(s);
  }

  lemma NodeEntry(net: Network, m: Mesh, hops: seq<Hop>, base: nat, c: nat)
    requires IsMesh(net, m, hops, base)
    ensures c in m.at ==>
              && HasEntry(Entries(net), c, m.Switch(m.at[c]))
              && HasEntry(Entries(net), m.Switch(m.at[c]), m.Node(c))
  {
    hide LinkOf, ValidHop;
    if c in m.at {
      var k :| 0 <= k < m.nodes && net.extLinks[k].node == c;
      var e, f := Entries(net)[k], Entries(net)[m.nodes + k];
      assert e.src == c && e.dst == m.Switch(m.at[c]);
      assert f.src == m.Switch(m.at[c]) && f.dst == m.Node(c);
    }
  }

  /** ... and every connection of the mesh has an entry. */
  lemma EntryComplete(net: Network, m: Mesh, hops: seq<Hop>, base: nat, u: nat, v: nat)
    requires IsMesh(net, m, hops, base) && u < m.Switches() && v < m.Switches() && u != v
    ensures m.Valid() && (Weight(m, u, v) < INFINITE ==> HasEntry(Entries(net), u, v))
  {
    hide LinkOf, RouterWeight, ValidHop, HasEntry, Entries, IsMesh;
    MeshValid(net, m, hops, base);
    if Weight(m, u, v) >= INFINITE {
    } else if u in m.at && v == m.Switch(m.at[u]) {
      NodeEntry(net, m, hops, base, u);
    } else if m.nodes <= v && v - m.nodes in m.at && u == m.Switch(m.at[v - m.nodes]) {
      NodeEntry(net, m, hops, base, v - m.nodes);
    } else {
      RouterEntry(net, m, hops, base, u - 2 * m.nodes, v - 2 * m.nodes);
    }
  }

  /** What filling in the entries in order leaves between u and v. */
  function Filled(es: seq<Entry>, u: nat, v: nat): int {
    if es == [] then (if u == v then 0 else INFINITE)
    else
      var last := es[|es| - 1];
      if last.src == u && last.dst == v then last.weight else Filled(es[..|es| - 1], u, v)
  }

  lemma {:induction false} FilledIs(es: seq<Entry>, u: nat, v: nat, x: int)
    requires forall k :: 0 <= k < |es| && es[k].src == u && es[k].dst == v ==> es[k].weight == x
    ensures Filled(es, u, v) ==
            if exists k :: 0 <= k < |es| && es[k].src == u && es[k].dst == v then x
            else if u == v then 0 else INFINITE
  {
    if es != [] {
      var front := es[..|es| - 1];
      FilledIs(front, u, v, x);
      if k :| 0 <= k < |es| && es[k].src == u && es[k].dst == v {
        if es[|es| - 1].src != u || es[|es| - 1].dst != v {
          assert front[k] == es[k];
        }
      }
    }
  }

  lemma FilledIsWeight(net: Network, m: Mesh, hops: seq<Hop>, base: nat, u: nat, v: nat)
    requires IsMesh(net, m, hops, base) && u < m.Switches() && v < m.Switches()
    ensures Filled(Entries(net), u, v) == Weight(m, u, v)
  {
    hide Weight, Entries, IsMesh, Filled;
    var es := Entries(net);
    MeshValid(net, m, hops, base);
    forall k | 0 <= k < |es|
      ensures es[k].src != es[k].dst
      ensures es[k].src == u && es[k].dst == v ==> es[k].weight == Weight(m, u, v)
    {
      EntrySound(net, m, hops, base, k);
    }
    FilledIs(es, u, v, Weight(m, u, v));
    WeightBounds(m, u, v);
    if u != v && Weight(m, u, v) < INFINITE {
      EntryComplete(net, m, hops, base, u, v);
    }
  }

  lemma MeshValid(net: Network, m: Mesh, hops: seq<Hop>, base: nat)
    requires IsMesh(net, m, hops, base)
    ensures m.Valid() && m.nodes == |net.extLinks|
    ensures m.Routers() == net.routers && m.cols == net.columns
  {
  }

  method FillWeights(n: nat, es: seq<Entry>) returns (w: Matrix)
    requires forall k :: 0 <= k < |es| ==> es[k].src < n && es[k].dst < n
    ensures Square(w, n)
    ensures forall u, v :: 0 <= u < n && 0 <= v < n ==> w[u][v] == Filled(es, u, v)
  {
    w := seq(n, i => seq(n, j => if i == j then 0 else INFINITE));
    for k := 0 to |es|
      invariant Square(w, n)
      invariant forall u, v :: 0 <= u < n && 0 <= v < n ==> w[u][v] == Filled(es[..k], u, v)
    {
      assert es[..k + 1][..k] == es[..k];
      w := Update(w, es[k].src, es[k].dst, es[k].weight);
    }
    assert es[..|es|] == es;
  }

  /** The number of switches: one more than the largest number at the end of a link. */
  method CountSwitches(es: seq<Entry>) returns (n: nat)
    ensures forall k :: 0 <= k < |es| ==> es[k].src < n && es[k].dst < n
    ensures n > 1 ==> exists k :: 0 <= k < |es| && (es[k].src == n - 1 || es[k].dst == n - 1)
  {
    var max := 0;
    for k := 0 to |es|
      invariant forall i :: 0 <= i < k ==> es[i].src <= max && es[i].dst <= max
      invariant max > 0 ==> exists i :: 0 <= i < k && (es[i].src == max || es[i].dst == max)
    {
      if es[k].src > max {
        max := es[k].src;
      }
      if es[k].dst > max {
        max := es[k].dst;
      }
    }
    n := max + 1;
  }

  /** Fill in the weights of a mesh network and compute all distances. */
  method Solve(net: Network, ghost m: Mesh, ghost hops: seq<Hop>, ghost base: nat)
    returns (w: Matrix, d: Matrix)
    requires IsMesh(net, m, hops, base)
    ensures Solved(m, w, d)
  {
    hide Weight, Filled;
    var es := Entries(net);
    forall k | 0 <= k < |es|
      ensures es[k].src < m.Switches() && es[k].dst < m.Switches()
    {
      EntrySound(net, m, hops, base, k);
    }
    var n := CountSwitches(es);
    assert n == m.Switches() by {
      var k :| 0 <= k < m.nodes && net.extLinks[k].router == net.routers - 1;
      assert es[k].dst == m.Switches() - 1;
    }
    w := FillWeights(n, es);
    forall u, v | 0 <= u < n && 0 <= v < n
      ensures w[u][v] == Weight(m, u, v)
    {
      FilledIsWeight(net, m, hops, base, u, v);
    }
    MeshWeights(m, w);
    d := AllPairs(w, n);
  }

  // ----- Tables and lookup

  /** An output link of a router: the switch it leads to, its weight, and the destinations for
      which it is on a shortest path. */
  datatype Route = Route(next: nat, weight: int, dests: set<nat>)

  /** A real link out of u, with exactly the destinations it admits. */
  ghost predicate RouteOf(m: Mesh, w: Matrix, d: Matrix, u: nat, r: Route)
    requires Solved(m, w, d) && u < m.Switches()
  {
    && r.next < m.Switches() && r.weight == w[u][r.next] && 0 < r.weight < INFINITE
    && forall c: nat :: c in r.dests <==> c < m.nodes && Admits(m, w, d, c, u, r.next)
  }

  ghost predicate LeadsTo(table: seq<Route>, v: nat) {
    exists k :: 0 <= k < |table| && table[k].next == v
  }

  /** The table lists exactly the real links out of u to switches below n. */
  ghost predicate TableUpTo(m: Mesh, w: Matrix, d: Matrix, u: nat, table: seq<Route>, n: nat)
    requires Solved(m, w, d) && u < m.Switches() && n <= m.Switches()
  {
    && (forall k :: 0 <= k < |table| ==> table[k].next < n && RouteOf(m, w, d, u, table[k]))
    && (forall v: nat :: v < n && 0 < w[u][v] < INFINITE ==> LeadsTo(table, v))
    && (forall i, j :: 0 <= i < j < |table| ==> table[i].next < table[j].next)
  }

  /** The table lists exactly the real links out of u, each with the destinations it admits. */
  ghost predicate TableOf(m: Mesh, w: Matrix, d: Matrix, u: nat, table: seq<Route>)
    requires Solved(m, w, d) && u < m.Switches()
  {
    TableUpTo(m, w, d, u, table, m.Switches())
  }

  lemma LeadsOn(table: seq<Route>, r: Route, v: nat)
    ensures LeadsTo(table, v) || r.next == v ==> LeadsTo(table + [r], v)
  {
    var more := table + [r];
    assert more[|table|] == r;
    if LeadsTo(table, v) {
      var k :| 0 <= k < |table| && table[k].next == v;
      assert more[k].next == v;
    }
  }

  lemma TableNext(m: Mesh, w: Matrix, d: Matrix, u: nat, table: seq<Route>, r: Route)
    requires Solved(m, w, d) && u < m.Switches() && r.next < m.Switches()
    requires TableUpTo(m, w, d, u, table, r.next) && RouteOf(m, w, d, u, r)
    ensures TableUpTo(m, w, d, u, table + [r], r.next + 1)
  {
    hide Distances, Weight, RouteOf, LeadsTo;
    forall v: nat | v < r.next + 1 && 0 < w[u][v] < INFINITE ensures LeadsTo(table + [r], v) {
      LeadsOn(table, r, v);
    }
  }

  lemma TableSkip(m: Mesh, w: Matrix, d: Matrix, u: nat, table: seq<Route>, n: nat)
    requires Solved(m, w, d) && u < m.Switches() && n < m.Switches()
    requires TableUpTo(m, w, d, u, table, n) && !(0 < w[u][n] < INFINITE)
    ensures TableUpTo(m, w, d, u, table, n + 1)
  {
    hide Distances, Weight, RouteOf, LeadsTo;
  }

  method ShortestPathToNode(m: Mesh, w: Matrix, d: Matrix, u: nat, v: nat)
    returns (dests: set<nat>)
    requires Solved(m, w, d) && u < m.Switches() && v < m.Switches() && 0 < w[u][v] < INFINITE
    ensures forall c: nat :: c in dests <==> c < m.nodes && Admits(m, w, d, c, u, v)
  {
    hide Distances, Weight;
    dests := {};
    for c := 0 to m.nodes
      invariant forall b: nat :: b in dests <==> b < c && Admits(m, w, d, b, u, v)
    {
      if w[u][v] + d[v][m.nodes + c] == d[u][m.nodes + c] {
        dests := dests + {c};
      }
    }
  }

  method CreateLinks(m: Mesh, w: Matrix, d: Matrix, u: nat) returns (table: seq<Route>)
    requires Solved(m, w, d) && u < m.Switches()
    ensures TableOf(m, w, d, u, table)
  {
    hide Distances, Weight, Admits, TableUpTo;
    table := [];
    assert TableUpTo(m, w, d, u, table, 0) by { TableNone(m, w, d, u); }
    for v := 0 to m.Switches()
      invariant TableUpTo(m, w, d, u, table, v)
    {
      WeightBounds(m, u, v);
      if w[u][v] > 0 && w[u][v] != INFINITE {
        var dests := ShortestPathToNode(m, w, d, u, v);
        TableNext(m, w, d, u, table, Route(v, w[u][v], dests));
        table := table + [Route(v, w[u][v], dests)];
      } else {
        TableSkip(m, w, d, u, table, v);
      }
    }
  }

  lemma TableNone(m: Mesh, w: Matrix, d: Matrix, u: nat)
    requires Solved(m, w, d) && u < m.Switches()
    ensures TableUpTo(m, w, d, u, [], 0)
  {
  }

  datatype Lookup = NoRoute | Through(link: nat)

  /** Pick an output link for destination c: the first candidate of least weight for an ordered
      virtual network, any candidate of least weight otherwise. */
  method LookupRoutingTable(table: seq<Route>, c: nat, ordered: bool) returns (r: Lookup)
    requires forall k :: 0 <= k < |table| ==> table[k].weight < INFINITE
    ensures r.NoRoute? <==> forall k :: 0 <= k < |table| ==> c !in table[k].dests
    ensures r.Through? ==>
      && r.link < |table| && c in table[r.link].dests
      && forall k :: 0 <= k < |table| && c in table[k].dests ==>
                     table[r.link].weight <= table[k].weight
  {
    var minWeight := INFINITE;
    for link := 0 to |table|
      invariant forall k :: 0 <= k < link && c in table[k].dests ==> minWeight <= table[k].weight
      invariant minWeight == INFINITE || exists k :: 0 <= k < link && c in table[k].dests && table[k].weight == minWeight
    {
      if c in table[link].dests {
        if table[link].weight <= minWeight {
          minWeight := table[link].weight;
        }
      }
    }
    var candidates: seq<nat> := [];
    for link := 0 to |table|
      invariant forall x :: x in candidates ==>
        x < |table| && c in table[x].dests && table[x].weight == minWeight
      invariant forall k :: 0 <= k < link && c in table[k].dests && table[k].weight == minWeight ==>
        k in candidates
    {
      if c in table[link].dests {
        if table[link].weight == minWeight {
          candidates := candidates + [link];
        }
      }
    }
    if |candidates| == 0 {
      return NoRoute;
    }
    var candidate := 0;
    if !ordered {
      candidate :| 0 <= candidate < |candidates|;
    }
    assert candidates[candidate] in candidates;
    r := Through(candidates[candidate]);
  }

  /** The tables route XY: looking up destination c at router r gives the XY hop, whichever
      candidate is picked, and finds no route at all exactly when c is INFINITE or more away. */
  method RouteOnce(m: Mesh, w: Matrix, d: Matrix, c: nat, r: nat, ordered: bool)
    returns (res: Lookup, next: nat)
    requires Solved(m, w, d) && c in m.at && r < m.Routers()
    ensures res.NoRoute? <==> Distance(m, r, m.at[c]) >= INFINITE
    ensures res.Through? ==> next == XYNext(m, r, c)
  {
    hide Distances, Weight, Admits, XYNext, Distance;
    var u := m.Switch(r);
    SwitchBound(m, r);
    var table := CreateLinks(m, w, d, u);
    res := LookupRoutingTable(table, c, ordered);
    if res.Through? {
      next := table[res.link].next;
      forall x: nat | Admits(m, w, d, c, u, x)
        ensures x < m.Switches() && w[u][next] <= w[u][x]
      {
        TableHas(m, w, d, c, u, table, x);
        var k :| 0 <= k < |table| && table[k].next == x;
      }
      assert Lightest(m, w, d, c, u, next);
      LookupIsXY(m, w, d, c, r, next);
    } else {
      next := 0;
      var x := XYNext(m, r, c);
      LookupIsXY(m, w, d, c, r, x);
      if Lightest(m, w, d, c, u, x) {
        TableHas(m, w, d, c, u, table, x);
      }
    }
  }

  lemma SwitchBound(m: Mesh, r: nat)
    requires m.Valid() && r < m.Routers()
    ensures m.Switch(r) < m.Switches()
  {
  }

  lemma TableHas(m: Mesh, w: Matrix, d: Matrix, c: nat, u: nat, table: seq<Route>, x: nat)
    requires Solved(m, w, d) && u < m.Switches() && TableOf(m, w, d, u, table) && c in m.at
    ensures Admits(m, w, d, c, u, x) ==>
              && x < m.Switches()
              && exists k :: 0 <= k < |table| && table[k].next == x && c in table[k].dests
  {
    hide Distances;
    if Admits(m, w, d, c, u, x) {
      assert LeadsTo(table, x) && c < m.nodes;
      var k :| 0 <= k < |table| && table[k].next == x;
      assert RouteOf(m, w, d, u, table[k]);
    }
  }

  // ----- The route as a whole

  function Hops(m: Mesh, r: nat, q: nat): nat
    requires m.Valid()
  {
    Abs(X(m.cols, r) - X(m.cols, q)) + Abs(Y(m.cols, r) - Y(m.cols, q))
  }

  /** The router a message is at after k hops. */
  function Follow(m: Mesh, r: nat, q: nat, k: nat): nat
    requires m.Valid()
  {
    if k == 0 then r else NextRouter(m, Follow(m, r, q, k - 1), q)
  }

  /** The coordinates of the next router on the way. */
  lemma NextCoordinates(m: Mesh, r: nat, q: nat)
    requires m.Valid() && r < m.Routers() && q < m.Routers() && r != q
    ensures var s, x, y := NextRouter(m, r, q), X(m.cols, r), Y(m.cols, r);
            var qx, qy := X(m.cols, q), Y(m.cols, q);
            && s < m.Routers() && (x != qx || y != qy)
            && X(m.cols, s) == (if x < qx then x + 1 else if x > qx then x - 1 else x)
            && Y(m.cols, s) == (if x != qx then y else if y < qy then y + 1 else y - 1)
  {
    hide X, Y, Router;
    var x, y, qx, qy := X(m.cols, r), Y(m.cols, r), X(m.cols, q), Y(m.cols, q);
    CoordinatesRouter(m, r);
    CoordinatesRouter(m, q);
    if x == qx && y == qy {
      SameCoordinates(m, r, q);
    }
    var sx := if x < qx then x + 1 else if x > qx then x - 1 else x;
    var sy := if x != qx then y else if y < qy then y + 1 else y - 1;
    RouterCoordinates(m.cols, sy, sx);
    CoordinatesRouter(m, NextRouter(m, r, q));
  }

  /** Every route ends at its destination, after as many hops as there are columns and rows
      between them and no fewer. */
  lemma {:induction false} RouteArrives(m: Mesh, r: nat, q: nat, k: nat)
    requires m.Valid() && r < m.Routers() && q < m.Routers()
    ensures k == 0 ==> Follow(m, r, q, k) == r
    ensures k <= Hops(m, r, q) ==>
              && Follow(m, r, q, k) < m.Routers()
              && Hops(m, Follow(m, r, q, k), q) == Hops(m, r, q) - k
              && (Follow(m, r, q, k) == q <==> k == Hops(m, r, q))
  {
    hide X, Y, NextRouter;
    if 0 < k <= Hops(m, r, q) {
      RouteArrives(m, r, q, k - 1);
      var s := Follow(m, r, q, k - 1);
      NextCoordinates(m, s, q);
    }
    var t := Follow(m, r, q, k);
    if Hops(m, t, q) == 0 {
      SameCoordinates(m, t, q);
    }
  }

  /** outportComputeXY: the direction XY routing leaves router r in. */
  function OutportXY(m: Mesh, r: nat, q: nat): Direction
    requires m.Valid()
  {
    if X(m.cols, q) != X(m.cols, r) then (if X(m.cols, q) >= X(m.cols, r) then East else West)
    else if Y(m.cols, q) >= Y(m.cols, r) then North else South
  }

  /** The link the tables choose is the one that XY routing by port directions chooses. */
  lemma DirectionAgrees(net: Network, m: Mesh, hops: seq<Hop>, base: nat, r: nat, q: nat, k: nat)
    requires IsMesh(net, m, hops, base) && k < |net.intLinks|
    ensures m.Valid()
    ensures r < m.Routers() && q < m.Routers() && r != q &&
            net.intLinks[k].src == r && net.intLinks[k].dst == NextRouter(m, r, q) ==>
              net.intLinks[k].out == OutportXY(m, r, q)
  {
    hide X, Y, Router, NextRouter;
    var h := hops[k];
    assert h in hops;
    if r < m.Routers() && q < m.Routers() && r != q {
      NextCoordinates(m, r, q);
      RouterCoordinates(m.cols, h.row, h.col);
      if h.dir.East? || h.dir.West? {
        RouterCoordinates(m.cols, h.row, h.col + 1);
      } else {
        RouterCoordinates(m.cols, h.row + 1, h.col);
      }
    }
  }

  // ----- No cyclic waiting

  /** A link from one router to another. */
  datatype Channel = Channel(from: nat, to: nat)

  /** A message may hold channel a while it waits for channel b: for some destination the tables
      lead through a and then on through b. */
  ghost predicate Waits(m: Mesh, w: Matrix, d: Matrix, a: Channel, b: Channel)
    requires Solved(m, w, d)
  {
    && a.to == b.from && a.from < m.Routers() && a.to < m.Routers() && b.to < m.Routers()
    && exists c: nat :: c in m.at && Lightest(m, w, d, c, m.Switch(a.from), m.Switch(a.to))
                        && Lightest(m, w, d, c, m.Switch(b.from), m.Switch(b.to))
  }

  /** Channels along the rows rank below channels along the columns, and each rises the way it
      points. */
  function Rank(m: Mesh, a: Channel): int
    requires m.Valid()
  {
    var x, y, tx, ty := X(m.cols, a.from), Y(m.cols, a.from), X(m.cols, a.to), Y(m.cols, a.to);
    if tx > x then x else if tx < x then m.cols - x
    else m.cols + (if ty > y then y else m.rows - y)
  }

  lemma WaitsRise(m: Mesh, w: Matrix, d: Matrix, a: Channel, b: Channel)
    requires Solved(m, w, d)
    ensures Waits(m, w, d, a, b) ==> Rank(m, a) < Rank(m, b)
  {
    hide X, Y, NextRouter, Lightest, Distances;
    if Waits(m, w, d, a, b) {
      var c: nat :| c in m.at && Lightest(m, w, d, c, m.Switch(a.from), m.Switch(a.to))
                    && Lightest(m, w, d, c, m.Switch(b.from), m.Switch(b.to));
      var q := m.at[c];
      LookupIsXY(m, w, d, c, a.from, m.Switch(a.to));
      LookupIsXY(m, w, d, c, b.from, m.Switch(b.to));
      NextCoordinates(m, a.from, q);
      NextCoordinates(m, b.from, q);
      CoordinatesRouter(m, a.from);
      CoordinatesRouter(m, b.from);
      CoordinatesRouter(m, q);
    }
  }

  /** Every channel waits for the next one, and the last for the first. */
  ghost predicate CyclicWait(m: Mesh, w: Matrix, d: Matrix, chs: seq<Channel>)
    requires Solved(m, w, d)
  {
    && |chs| > 0 && Waits(m, w, d, chs[|chs| - 1], chs[0])
    && forall i :: 0 < i < |chs| ==> Waits(m, w, d, chs[i - 1], chs[i])
  }

  lemma {:induction false} RanksRise(m: Mesh, w: Matrix, d: Matrix, chs: seq<Channel>, k: nat)
    requires CyclicPrefix(m, w, d, chs) && k < |chs|
    ensures Rank(m, chs[0]) <= Rank(m, chs[k])
  {
    hide Waits, Rank;
    if k > 0 {
      RanksRise(m, w, d, chs, k - 1);
      WaitsRise(m, w, d, chs[k - 1], chs[k]);
    }
  }

  ghost predicate CyclicPrefix(m: Mesh, w: Matrix, d: Matrix, chs: seq<Channel>) {
    Solved(m, w, d) && forall i :: 0 < i < |chs| ==> Waits(m, w, d, chs[i - 1], chs[i])
  }

  /** Deadlock freedom: in a mesh of any size, no set of channels waits in a circle. */
  lemma NoCyclicWait(m: Mesh, w: Matrix, d: Matrix, chs: seq<Channel>)
    requires Solved(m, w, d)
    ensures !CyclicWait(m, w, d, chs)
  {
    hide Waits, Rank;
    if CyclicWait(m, w, d, chs) {
      RanksRise(m, w, d, chs, |chs| - 1);
      WaitsRise(m, w, d, chs[|chs| - 1], chs[0]);
    }
  }
}
