/** Topologies made of clusters: each cluster gets a router, joined to its nodes and sub-clusters. */
module ClusterTopology {
  import opened Counting

  /** A link parameter, either the default of the link type or a value given by a cluster. */
  datatype Setting = Default | Given(value: int)

  datatype Node = Controller(id: nat) | Sub(cluster: Cluster)

  datatype Cluster = Cluster(intBW: int, extBW: int, intLatency: int, extLatency: int,
                             nodes: seq<Node>)

  datatype IntLink = IntLink(id: nat, src: nat, dst: nat, bandwidth: Setting, latency: Setting)

  datatype ExtLink = ExtLink(id: nat, node: nat, router: nat, bandwidth: Setting, latency: Setting)

  /** What a cluster adds to the network: its routers and links, in the order they are added. */
  datatype Fabric = Fabric(routers: seq<nat>, ints: seq<IntLink>, exts: seq<ExtLink>)

  /** Zero leaves a parameter at its default. */
  function Or(x: int, s: Setting): Setting {
    if x != 0 then Given(x) else s
  }

  /** The link between a controller and the router of its cluster. */
  function Attach(c: Cluster, id: nat, r: nat, n: nat): ExtLink {
    ExtLink(n, id, r, Or(c.intBW, Default), Or(c.intLatency, Default))
  }

  /** The two links between the router of a cluster and that of a sub-cluster. */
  function Pair(c: Cluster, s: Cluster, r: nat, top: nat, n: nat): (pair: seq<IntLink>)
    ensures |pair| == 2
  {
    var bandwidth := Or(s.extBW, Or(c.intBW, Default));
    var latency := Or(s.extLatency, Or(c.intLatency, Default));
    [IntLink(n, r, top, bandwidth, latency), IntLink(n + 1, top, r, bandwidth, latency)]
  }

  function Join(f: Fabric, g: Fabric): (h: Fabric)
    ensures |h.routers| == |f.routers| + |g.routers|
    ensures |h.ints| == |f.ints| + |g.ints|
    ensures |h.exts| == |f.exts| + |g.exts|
  {
    Fabric(f.routers + g.routers, f.ints + g.ints, f.exts + g.exts)
  }

  lemma JoinAssociative(f: Fabric, g: Fabric, h: Fabric)
    ensures Join(Join(f, g), h) == Join(f, Join(g, h))
  {
    assert f.routers + g.routers + h.routers == f.routers + (g.routers + h.routers);
    assert f.ints + g.ints + h.ints == f.ints + (g.ints + h.ints);
    assert f.exts + g.exts + h.exts == f.exts + (g.exts + h.exts);
  }

  /** The fabric of the cluster with only its first k nodes, when its router is r and the next
      internal and external links are i and e. */
  function Build(c: Cluster, k: nat, r: nat, i: nat, e: nat): Fabric
    requires k <= |c.nodes|
    decreases c, k, 0
  {
    if k == 0 then Fabric([r], [], []) else
    var f := Build(c, k - 1, r, i, e);
    Join(f, Step(c, k - 1, r, r + |f.routers|, i + |f.ints|, e + |f.exts|))
  }

  /** What node k adds below router r, when the next router and links are top, i and e. */
  function Step(c: Cluster, k: nat, r: nat, top: nat, i: nat, e: nat): Fabric
    requires k < |c.nodes|
    decreases c, k, 1
  {
    match c.nodes[k]
    case Controller(id) => Fabric([], [], [Attach(c, id, r, e)])
    case Sub(s) =>
      var g := Build(s, |s.nodes|, top, i, e);
      Join(g, Fabric([], Pair(c, s, r, top, i + |g.ints|), []))
  }

  // ----- Building in place

  class Network {
    var routers: seq<nat>
    var intLinks: seq<IntLink>
    var extLinks: seq<ExtLink>

  }

  /** The class-wide counters the next numbers are drawn from. */
  class Counters {
    var intLinks: nat
    var extLinks: nat
    var routers: nat

    method NumIntLinks() returns (n: nat)
      modifies `intLinks
      ensures n == old(intLinks) && intLinks == n + 1
    {
      intLinks := intLinks + 1;
      n := intLinks - 1;
    }

    method NumExtLinks() returns (n: nat)
      modifies `extLinks
      ensures n == old(extLinks) && extLinks == n + 1
    {
      extLinks := extLinks + 1;
      n := extLinks - 1;
    }

    method NumRouters() returns (n: nat)
      modifies `routers
      ensures n == old(routers) && routers == n + 1
    {
      routers := routers + 1;
      n := routers - 1;
    }
  }

  ghost function Contents(net: Network): Fabric
    reads net
  {
    Fabric(net.routers, net.intLinks, net.extLinks)
  }

  method AddRouter(net: Network, ctr: Counters) returns (router: nat)
    modifies net`routers, ctr`routers
    ensures router == old(ctr.routers) && ctr.routers == router + 1
    ensures Contents(net) == Join(old(Contents(net)), Fabric([router], [], []))
  {
    router := ctr.NumRouters();
    net.routers := net.routers + [router];
  }

  method ConnectCluster(c: Cluster, s: Cluster, router: nat, top: nat, net: Network, ctr: Counters)
    modifies net`intLinks, ctr`intLinks
    ensures var pair := Pair(c, s, router, top, old(ctr.intLinks));
            Contents(net) == Join(old(Contents(net)), Fabric([], pair, []))
    ensures ctr.intLinks == old(ctr.intLinks) + 2
  {
    var outId := ctr.NumIntLinks();
    var linkOut := IntLink(outId, router, top, Default, Default);
    var inId := ctr.NumIntLinks();
    var linkIn := IntLink(inId, top, router, Default, Default);
    if s.extBW != 0 {
      linkOut := linkOut.(bandwidth := Given(s.extBW));
      linkIn := linkIn.(bandwidth := Given(s.extBW));
    } else if c.intBW != 0 {
      linkOut := linkOut.(bandwidth := Given(c.intBW));
      linkIn := linkIn.(bandwidth := Given(c.intBW));
    }
    if s.extLatency != 0 {
      linkOut := linkOut.(latency := Given(s.extLatency));
      linkIn := linkIn.(latency := Given(s.extLatency));
    } else if c.intLatency != 0 {
      linkOut := linkOut.(latency := Given(c.intLatency));
      linkIn := linkIn.(latency := Given(c.intLatency));
    }
    net.intLinks := net.intLinks + [linkOut];
    net.intLinks := net.intLinks + [linkIn];
  }

  method ConnectController(c: Cluster, id: nat, router: nat, net: Network, ctr: Counters)
    modifies net`extLinks, ctr`extLinks
    ensures var link := Attach(c, id, router, old(ctr.extLinks));
            Contents(net) == Join(old(Contents(net)), Fabric([], [], [link]))
    ensures ctr.extLinks == old(ctr.extLinks) + 1
  {
    var extId := ctr.NumExtLinks();
    var link := ExtLink(extId, id, router, Default, Default);
    if c.intBW != 0 {
      link := link.(bandwidth := Given(c.intBW));
    }
    if c.intLatency != 0 {
      link := link.(latency := Given(c.intLatency));
    }
    net.extLinks := net.extLinks + [link];
  }

  /** What one turn of the loop over the nodes does. */
  method ConnectNode(c: Cluster, k: nat, router: nat, net: Network, ctr: Counters)
    requires k < |c.nodes|
    modifies net, ctr
    ensures var g := Step(c, k, router, old(ctr.routers), old(ctr.intLinks), old(ctr.extLinks));
            && Contents(net) == Join(old(Contents(net)), g)
            && ctr.routers == old(ctr.routers) + |g.routers|
            && ctr.intLinks == old(ctr.intLinks) + |g.ints|
            && ctr.extLinks == old(ctr.extLinks) + |g.exts|
    decreases c, 0
  {
    hide Build, Join, Pair, Attach;
    match c.nodes[k]
    case Sub(s) =>
      ghost var before, i, e := Contents(net), ctr.intLinks, ctr.extLinks;
      var top := MakeTopology(s, net, ctr);
      ghost var g := Build(s, |s.nodes|, top, i, e);
      JoinAssociative(before, g, Fabric([], Pair(c, s, router, top, i + |g.ints|), []));
      ConnectCluster(c, s, router, top, net, ctr);
    case Controller(id) =>
      ConnectController(c, id, router, net, ctr);
  }

  /** The router is the one of the cluster itself. */
  method MakeTopology(c: Cluster, net: Network, ctr: Counters) returns (router: nat)
    modifies net, ctr
    ensures router == old(ctr.routers)
    ensures var f := Build(c, |c.nodes|, router, old(ctr.intLinks), old(ctr.extLinks));
            && Contents(net) == Join(old(Contents(net)), f)
            && ctr.routers == router + |f.routers|
            && ctr.intLinks == old(ctr.intLinks) + |f.ints|
            && ctr.extLinks == old(ctr.extLinks) + |f.exts|
    decreases c, 1
  {
    hide Step, Join;
    ghost var before, i, e := Contents(net), ctr.intLinks, ctr.extLinks;
    router := AddRouter(net, ctr);
    var k := 0;
    while k < |c.nodes|
      invariant k <= |c.nodes|
      invariant Contents(net) == Join(before, Build(c, k, router, i, e))
      invariant ctr.routers == router + |Build(c, k, router, i, e).routers|
      invariant ctr.intLinks == i + |Build(c, k, router, i, e).ints|
      invariant ctr.extLinks == e + |Build(c, k, router, i, e).exts|
    {
      ghost var f := Build(c, k, router, i, e);
      JoinAssociative(before, f, Step(c, k, router, ctr.routers, ctr.intLinks, ctr.extLinks));
      ConnectNode(c, k, router, net, ctr);
      k := k + 1;
    }
  }

  // ----- The clusters of a tree, and its controllers

  /** The cluster and all clusters below its first k nodes, each before those below it. */
  function Preorder(c: Cluster, k: nat): (p: seq<Cluster>)
    requires k <= |c.nodes|
    ensures |p| > 0 && p[0] == c
    decreases c, k
  {
    if k == 0 then [c] else
    match c.nodes[k - 1]
    case Controller(_) => Preorder(c, k - 1)
    case Sub(s) => Preorder(c, k - 1) + Preorder(s, |s.nodes|)
  }

  function Clusters(c: Cluster): seq<Cluster> {
    Preorder(c, |c.nodes|)
  }

  /** The controllers below the first k nodes, from left to right. */
  function Leaves(c: Cluster, k: nat): seq<nat>
    requires k <= |c.nodes|
    decreases c, k
  {
    if k == 0 then [] else
    match c.nodes[k - 1]
    case Controller(id) => Leaves(c, k - 1) + [id]
    case Sub(s) => Leaves(c, k - 1) + Leaves(s, |s.nodes|)
  }

  /** How many of the first k nodes are controllers. */
  function Direct(c: Cluster, k: nat): nat
    requires k <= |c.nodes|
  {
    if k == 0 then 0 else Direct(c, k - 1) + if c.nodes[k - 1].Controller? then 1 else 0
  }

  /** The length of a cluster: its own controllers, and the lengths of its sub-clusters. */
  function Len(c: Cluster): nat
    decreases c, |c.nodes| + 1
  {
    Direct(c, |c.nodes|) + SubLens(c, |c.nodes|)
  }

  function SubLens(c: Cluster, k: nat): nat
    requires k <= |c.nodes|
    decreases c, k
  {
    if k == 0 then 0 else
    SubLens(c, k - 1) + if c.nodes[k - 1].Sub? then Len(c.nodes[k - 1].cluster) else 0
  }

  lemma {:induction false} LeavesCount(c: Cluster, k: nat)
    requires k <= |c.nodes|
    ensures |Leaves(c, k)| == Direct(c, k) + SubLens(c, k)
    decreases c, k
  {
    if k > 0 {
      LeavesCount(c, k - 1);
      if c.nodes[k - 1].Sub? {
        var s := c.nodes[k - 1].cluster;
        LeavesCount(s, |s.nodes|);
      }
    }
  }

  // ----- What is built

  /** The first of the two numbers that is not zero is the value; without one, the default. */
  predicate FirstGiven(setting: Setting, x: int, y: int) {
    && (x != 0 ==> setting == Given(x))
    && (x == 0 && y != 0 ==> setting == Given(y))
    && (x == 0 && y == 0 ==> setting == Default)
  }

  /** The links there and back between the routers of a cluster and one of its sub-clusters. The
      external setting of the sub-cluster overrides the internal one of the cluster. */
  predicate Joined(down: IntLink, up: IntLink, clusters: seq<Cluster>, r: nat) {
    && r <= down.src < down.dst < r + |clusters|
    && up.src == down.dst && up.dst == down.src
    && up.bandwidth == down.bandwidth && up.latency == down.latency
    && var c, s := clusters[down.src - r], clusters[down.dst - r];
    && Sub(s) in c.nodes
    && FirstGiven(down.bandwidth, s.extBW, c.intBW)
    && FirstGiven(down.latency, s.extLatency, c.intLatency)
  }

  /** The link between a controller and the router of the cluster it is in. */
  predicate Attached(link: ExtLink, clusters: seq<Cluster>, r: nat) {
    && r <= link.router < r + |clusters|
    && var c := clusters[link.router - r];
    && Controller(link.node) in c.nodes
    && FirstGiven(link.bandwidth, c.intBW, 0) && FirstGiven(link.latency, c.intLatency, 0)
  }

  function Pairs(f: Fabric): nat {
    |f.ints| / 2
  }

  function Down(f: Fabric, j: nat): IntLink
    requires j < Pairs(f)
  {
    f.ints[2 * j]
  }

  function Up(f: Fabric, j: nat): IntLink
    requires j < Pairs(f)
  {
    f.ints[2 * j + 1]
  }

  /** Consecutive numbers for each kind. */
  ghost predicate Numbered(f: Fabric, r: nat, i: nat, e: nat) {
    && (forall j :: 0 <= j < |f.routers| ==> f.routers[j] == r + j)
    && (forall j :: 0 <= j < |f.ints| ==> f.ints[j].id == i + j)
    && (forall j :: 0 <= j < |f.exts| ==> f.exts[j].id == e + j)
  }

  /** Every link is one the clusters ask for. */
  ghost predicate Wired(f: Fabric, clusters: seq<Cluster>, r: nat) {
    && |f.ints| % 2 == 0
    && (forall j: nat :: j < Pairs(f) ==> Joined(Down(f, j), Up(f, j), clusters, r))
    && (forall j :: 0 <= j < |f.exts| ==> Attached(f.exts[j], clusters, r))
  }

  lemma BuildNone(c: Cluster, r: nat, i: nat, e: nat)
    ensures Build(c, 0, r, i, e) == Fabric([r], [], []) && Preorder(c, 0) == [c]
    ensures Leaves(c, 0) == []
  {
  }

  /** One more node, a controller. */
  lemma BuildController(c: Cluster, k: nat, id: nat, r: nat, i: nat, e: nat)
    requires k < |c.nodes| && c.nodes[k] == Controller(id)
    ensures var f := Build(c, k, r, i, e);
            Build(c, k + 1, r, i, e) == Join(f, Fabric([], [], [Attach(c, id, r, e + |f.exts|)]))
    ensures Preorder(c, k + 1) == Preorder(c, k)
    ensures Leaves(c, k + 1) == Leaves(c, k) + [id]
  {
    hide Join, Attach;
  }

  /** One more node, a sub-cluster. */
  lemma BuildSub(c: Cluster, k: nat, s: Cluster, r: nat, i: nat, e: nat)
    requires k < |c.nodes| && c.nodes[k] == Sub(s)
    ensures var f := Build(c, k, r, i, e);
            var top := r + |f.routers|;
            var g := Build(s, |s.nodes|, top, i + |f.ints|, e + |f.exts|);
            var pair := Pair(c, s, r, top, i + |f.ints| + |g.ints|);
            Build(c, k + 1, r, i, e) == Join(Join(f, g), Fabric([], pair, []))
    ensures Preorder(c, k + 1) == Preorder(c, k) + Clusters(s)
    ensures Leaves(c, k + 1) == Leaves(c, k) + Leaves(s, |s.nodes|)
  {
    hide Join, Pair, Attach;
    var f := Build(c, k, r, i, e);
    var top := r + |f.routers|;
    var g := Build(s, |s.nodes|, top, i + |f.ints|, e + |f.exts|);
    JoinAssociative(f, g, Fabric([], Pair(c, s, r, top, i + |f.ints| + |g.ints|), []));
  }

  lemma {:induction false} Sizes(c: Cluster, k: nat, r: nat, i: nat, e: nat)
    requires k <= |c.nodes|
    ensures var f := Build(c, k, r, i, e);
            && |f.routers| == |Preorder(c, k)|
            && |f.ints| == 2 * (|Preorder(c, k)| - 1)
            && |f.exts| == |Leaves(c, k)|
    decreases c, k
  {
    hide Build, Preorder, Leaves, Join, Pair, Attach;
    if k == 0 {
      BuildNone(c, r, i, e);
    } else {
      var f := Build(c, k - 1, r, i, e);
      Sizes(c, k - 1, r, i, e);
      match c.nodes[k - 1]
      case Controller(id) =>
        BuildController(c, k - 1, id, r, i, e);
      case Sub(s) =>
        BuildSub(c, k - 1, s, r, i, e);
        Sizes(s, |s.nodes|, r + |f.routers|, i + |f.ints|, e + |f.exts|);
    }
  }

  /** One router for each cluster, two links for each but the topmost, and one for each controller
      that the length of the cluster counts. */
  lemma Counts(c: Cluster, r: nat, i: nat, e: nat)
    ensures var f := Build(c, |c.nodes|, r, i, e);
            && |f.routers| == |Clusters(c)|
            && |f.ints| == 2 * (|Clusters(c)| - 1)
            && |f.exts| == Len(c)
  {
    hide Build, Leaves;
    Sizes(c, |c.nodes|, r, i, e);
    LeavesCount(c, |c.nodes|);
  }

  lemma NumberedJoin(f: Fabric, g: Fabric, r: nat, i: nat, e: nat)
    requires Numbered(f, r, i, e)
    requires Numbered(g, r + |f.routers|, i + |f.ints|, e + |f.exts|)
    ensures Numbered(Join(f, g), r, i, e)
  {
  }

  lemma {:induction false} ConsecutiveNumbers(c: Cluster, k: nat, r: nat, i: nat, e: nat)
    requires k <= |c.nodes|
    ensures Numbered(Build(c, k, r, i, e), r, i, e)
    decreases c, k
  {
    hide Build, Preorder, Leaves, Join, Pair, Attach, Numbered;
    if k == 0 {
      BuildNone(c, r, i, e);
      JustRouter(c, r, i, e);
    } else {
      var f := Build(c, k - 1, r, i, e);
      ConsecutiveNumbers(c, k - 1, r, i, e);
      var top, i', e' := r + |f.routers|, i + |f.ints|, e + |f.exts|;
      match c.nodes[k - 1]
      case Controller(id) =>
        BuildController(c, k - 1, id, r, i, e);
        NumberedAdded(c, c, id, r, top, top, i', e');
        NumberedJoin(f, Fabric([], [], [Attach(c, id, r, e')]), r, i, e);
      case Sub(s) =>
        var g := Build(s, |s.nodes|, top, i', e');
        BuildSub(c, k - 1, s, r, i, e);
        ConsecutiveNumbers(s, |s.nodes|, top, i', e');
        NumberedJoin(f, g, r, i, e);
        NumberedAdded(c, s, 0, r, top, top + |g.routers|, i' + |g.ints|, e' + |g.exts|);
        NumberedJoin(Join(f, g), Fabric([], Pair(c, s, r, top, i' + |g.ints|), []), r, i, e);
    }
  }

  /** What one node adds to the links of its cluster. */
  lemma NumberedAdded(c: Cluster, s: Cluster, id: nat, r: nat, child: nat, top: nat, i: nat, e: nat)
    ensures Numbered(Fabric([], Pair(c, s, r, child, i), []), top, i, e)
    ensures Numbered(Fabric([], [], [Attach(c, id, r, e)]), top, i, e)
  {
  }

  lemma JustRouter(c: Cluster, r: nat, i: nat, e: nat)
    ensures var f := Fabric([r], [], []); Numbered(f, r, i, e) && Wired(f, [c], r) && Tree(f, r, 1)
  {
  }

  lemma DownJoin(f: Fabric, g: Fabric, j: nat)
    requires |f.ints| % 2 == 0 && |g.ints| % 2 == 0 && j < Pairs(f) + Pairs(g)
    ensures Pairs(Join(f, g)) == Pairs(f) + Pairs(g)
    ensures j < Pairs(f) ==> Down(Join(f, g), j) == Down(f, j) && Up(Join(f, g), j) == Up(f, j)
    ensures j >= Pairs(f) ==>
              && Down(Join(f, g), j) == Down(g, j - Pairs(f))
              && Up(Join(f, g), j) == Up(g, j - Pairs(f))
  {
  }

  lemma WiredJoin(f: Fabric, g: Fabric, cs: seq<Cluster>, ds: seq<Cluster>, r: nat)
    requires Wired(f, cs, r) && Wired(g, ds, r + |cs|)
    ensures Wired(Join(f, g), cs + ds, r)
  {
    var h := Join(f, g);
    forall j: nat | j < Pairs(h) ensures Joined(Down(h, j), Up(h, j), cs + ds, r) {
      hide Join;
      DownJoin(f, g, j);
    }
    forall j | 0 <= j < |h.exts| ensures Attached(h.exts[j], cs + ds, r) {
      if j < |f.exts| {
        assert Attached(f.exts[j], cs, r);
      } else {
        assert Attached(g.exts[j - |f.exts|], ds, r + |cs|);
      }
    }
  }

  lemma WiredPair(f: Fabric, cs: seq<Cluster>, r: nat, top: nat, n: nat)
    requires Wired(f, cs, r) && r < top < r + |cs| && Sub(cs[top - r]) in cs[0].nodes
    ensures Wired(Join(f, Fabric([], Pair(cs[0], cs[top - r], r, top, n), [])), cs, r)
  {
    var g := Fabric([], Pair(cs[0], cs[top - r], r, top, n), []);
    forall j: nat | j < Pairs(Join(f, g))
      ensures Joined(Down(Join(f, g), j), Up(Join(f, g), j), cs, r)
    {
      DownJoin(f, g, j);
    }
  }

  lemma WiredLink(f: Fabric, cs: seq<Cluster>, r: nat, id: nat, n: nat)
    requires Wired(f, cs, r) && |cs| > 0 && Controller(id) in cs[0].nodes
    ensures Wired(Join(f, Fabric([], [], [Attach(cs[0], id, r, n)])), cs, r)
  {
    var g := Fabric([], [], [Attach(cs[0], id, r, n)]);
    forall j: nat | j < Pairs(Join(f, g))
      ensures Joined(Down(Join(f, g), j), Up(Join(f, g), j), cs, r)
    {
      DownJoin(f, g, j);
    }
  }

  lemma {:induction false} EveryLinkAskedFor(c: Cluster, k: nat, r: nat, i: nat, e: nat)
    requires k <= |c.nodes|
    ensures Wired(Build(c, k, r, i, e), Preorder(c, k), r)
    decreases c, k
  {
    hide Build, Preorder, Leaves, Join, Pair, Attach, Wired;
    if k == 0 {
      BuildNone(c, r, i, e);
      JustRouter(c, r, i, e);
    } else {
      var f, cs := Build(c, k - 1, r, i, e), Preorder(c, k - 1);
      EveryLinkAskedFor(c, k - 1, r, i, e);
      Sizes(c, k - 1, r, i, e);
      var top, i', e' := r + |f.routers|, i + |f.ints|, e + |f.exts|;
      assert c.nodes[k - 1] in c.nodes;
      match c.nodes[k - 1]
      case Controller(id) =>
        BuildController(c, k - 1, id, r, i, e);
        WiredLink(f, cs, r, id, e');
      case Sub(s) =>
        var g, ds := Build(s, |s.nodes|, top, i', e'), Clusters(s);
        BuildSub(c, k - 1, s, r, i, e);
        EveryLinkAskedFor(s, |s.nodes|, top, i', e');
        WiredJoin(f, g, cs, ds, r);
        assert (cs + ds)[0] == c && (cs + ds)[top - r] == s;
        WiredPair(Join(f, g), cs + ds, r, top, i' + |g.ints|);
    }
  }

  // ----- The routers form a tree

  predicate Above(f: Fabric, j: nat, v: nat) {
    j < Pairs(f) && Down(f, j).dst == v
  }

  ghost predicate HasParent(f: Fabric, v: nat) {
    exists j: nat :: Above(f, j, v)
  }

  /** Every router but the topmost one has exactly one pair of links to a router above it. */
  ghost predicate Tree(f: Fabric, r: nat, n: nat) {
    && (forall a: nat, b: nat, v: nat :: Above(f, a, v) && Above(f, b, v) ==> a == b)
    && (forall v: nat :: r < v < r + n ==> HasParent(f, v))
    && (forall j: nat, v: nat :: Above(f, j, v) ==> r < v < r + n)
  }

  lemma AboveJoin(f: Fabric, g: Fabric, j: nat, v: nat)
    requires |f.ints| % 2 == 0 && |g.ints| % 2 == 0
    ensures Above(Join(f, g), j, v) <==>
              if j < Pairs(f) then Above(f, j, v) else Above(g, j - Pairs(f), v)
  {
    hide Join, Down;
    if j < Pairs(f) + Pairs(g) {
      DownJoin(f, g, j);
    } else {
      assert Pairs(Join(f, g)) == Pairs(f) + Pairs(g);
    }
  }

  /** A tree below another one: the topmost router of the lower tree gets its parent. */
  lemma TreeJoin(f: Fabric, g: Fabric, p: Fabric, r: nat, n: nat, m: nat)
    requires |f.ints| % 2 == 0 && |g.ints| % 2 == 0 && |p.ints| == 2 && n > 0 && m > 0
    requires Tree(f, r, n) && Tree(g, r + n, m) && Down(p, 0).dst == r + n
    ensures Tree(Join(Join(f, g), p), r, n + m)
  {
    hide Join, Down;
    var h := Join(Join(f, g), p);
    forall j: nat, v: nat
      ensures Above(h, j, v) <==>
                if j < Pairs(f) then Above(f, j, v)
                else if j < Pairs(f) + Pairs(g) then Above(g, j - Pairs(f), v)
                else j == Pairs(f) + Pairs(g) && v == r + n
    {
      AboveJoin(Join(f, g), p, j, v);
      AboveJoin(f, g, j, v);
    }
    forall v: nat | r < v < r + n + m ensures HasParent(h, v) {
      if v < r + n {
        assert HasParent(f, v);
        var j: nat :| Above(f, j, v);
        assert Above(h, j, v);
      } else if v == r + n {
        assert Above(h, Pairs(f) + Pairs(g), v);
      } else {
        assert HasParent(g, v);
        var j: nat :| Above(g, j, v);
        assert Above(h, Pairs(f) + j, v);
      }
    }
  }

  lemma TreeLink(f: Fabric, g: Fabric, r: nat, n: nat)
    requires |f.ints| % 2 == 0 && g.ints == [] && Tree(f, r, n)
    ensures Tree(Join(f, g), r, n)
  {
    assert Join(f, g).ints == f.ints;
    assert forall j: nat, v: nat :: Above(Join(f, g), j, v) <==> Above(f, j, v);
    forall v: nat | r < v < r + n ensures HasParent(Join(f, g), v) {
      assert HasParent(f, v);
      var j: nat :| Above(f, j, v);
      assert Above(Join(f, g), j, v);
    }
  }

  lemma {:induction false} RoutersFormTree(c: Cluster, k: nat, r: nat, i: nat, e: nat)
    requires k <= |c.nodes|
    ensures Tree(Build(c, k, r, i, e), r, |Preorder(c, k)|)
    decreases c, k
  {
    hide Build, Preorder, Leaves, Join, Pair, Attach, Down, Tree;
    if k == 0 {
      BuildNone(c, r, i, e);
      JustRouter(c, r, i, e);
    } else {
      var f, cs := Build(c, k - 1, r, i, e), Preorder(c, k - 1);
      RoutersFormTree(c, k - 1, r, i, e);
      Sizes(c, k - 1, r, i, e);
      var top, i', e' := r + |f.routers|, i + |f.ints|, e + |f.exts|;
      match c.nodes[k - 1]
      case Controller(id) =>
        BuildController(c, k - 1, id, r, i, e);
        TreeLink(f, Fabric([], [], [Attach(c, id, r, e')]), r, |cs|);
      case Sub(s) =>
        var g := Build(s, |s.nodes|, top, i', e');
        BuildSub(c, k - 1, s, r, i, e);
        RoutersFormTree(s, |s.nodes|, top, i', e');
        Sizes(s, |s.nodes|, top, i', e');
        PairDown(c, s, r, top, i' + |g.ints|);
        TreeJoin(f, g, Fabric([], Pair(c, s, r, top, i' + |g.ints|), []),
                 r, |cs|, |Clusters(s)|);
    }
  }

  lemma PairDown(c: Cluster, s: Cluster, r: nat, top: nat, n: nat)
    ensures Down(Fabric([], Pair(c, s, r, top, n), []), 0).dst == top
  {
  }

  /** There is a link from router a to router b. */
  ghost predicate Linked(f: Fabric, a: nat, b: nat) {
    exists j :: 0 <= j < |f.ints| && f.ints[j].src == a && f.ints[j].dst == b
  }

  /** Links come in both directions, and the one to a higher number comes from the parent. */
  lemma LinkedToParent(f: Fabric, cs: seq<Cluster>, r: nat, a: nat, b: nat)
    requires Wired(f, cs, r) && Linked(f, a, b)
    ensures Linked(f, b, a) && a != b
    ensures a < b ==> exists j: nat :: Above(f, j, b) && Down(f, j).src == a
  {
    var j :| 0 <= j < |f.ints| && f.ints[j].src == a && f.ints[j].dst == b;
    var m := j / 2;
    assert Joined(Down(f, m), Up(f, m), cs, r);
    if j == 2 * m {
      assert f.ints[2 * m + 1].src == b;
      assert Above(f, m, b);
    } else {
      assert f.ints[2 * m].src == b;
    }
  }

  /** Routers are joined to the topmost one, by links in both directions. */
  lemma {:induction false} Connected(f: Fabric, cs: seq<Cluster>, r: nat, v: nat)
    returns (path: seq<nat>)
    requires Wired(f, cs, r) && Tree(f, r, |cs|) && r <= v < r + |cs|
    ensures |path| > 0 && path[0] == r && path[|path| - 1] == v
    ensures forall k :: 0 < k < |path| ==>
                          Linked(f, path[k - 1], path[k]) && Linked(f, path[k], path[k - 1])
    decreases v
  {
    if v == r {
      path := [r];
    } else {
      assert HasParent(f, v);
      var j: nat :| Above(f, j, v);
      assert Joined(Down(f, j), Up(f, j), cs, r);
      var p := Down(f, j).src;
      assert Linked(f, p, v) by { assert f.ints[2 * j].src == p; }
      assert Linked(f, v, p) by { assert f.ints[2 * j + 1].src == v; }
      path := Connected(f, cs, r, p);
      path := path + [v];
    }
  }

  function Next(k: nat, n: nat): nat {
    if k + 1 < n then k + 1 else 0
  }

  /** At least three different routers, each linked to the next and the last to the first. */
  ghost predicate Cycle(f: Fabric, routers: seq<nat>) {
    && |routers| >= 3 && Distinct(routers)
    && forall k: nat :: k < |routers| ==> Linked(f, routers[k], routers[Next(k, |routers|)])
  }

  lemma {:induction false} Highest(s: seq<nat>) returns (m: nat)
    requires |s| > 0
    ensures m < |s| && forall k :: 0 <= k < |s| ==> s[k] <= s[m]
  {
    m := 0;
    if |s| > 1 {
      var rest := Highest(s[1..]);
      assert forall k :: 0 < k < |s| ==> s[k] == s[1..][k - 1];
      m := if s[0] > s[rest + 1] then 0 else rest + 1;
    }
  }

  /** The highest router of a cycle would have two parents. */
  lemma Acyclic(f: Fabric, cs: seq<Cluster>, r: nat, routers: seq<nat>)
    requires Wired(f, cs, r) && Tree(f, r, |cs|)
    ensures !Cycle(f, routers)
  {
    hide Wired, Linked;
    if Cycle(f, routers) {
      var n := |routers|;
      var m := Highest(routers);
      var before: nat := if m == 0 then n - 1 else m - 1;
      var after := Next(m, n);
      var top := routers[m];
      assert Next(before, n) == m && before != after && before != m && after != m;
      assert Linked(f, routers[before], top) && Linked(f, top, routers[after]);
      assert routers[before] != routers[after];
      LinkedToParent(f, cs, r, routers[before], top);
      LinkedToParent(f, cs, r, top, routers[after]);
      LinkedToParent(f, cs, r, routers[after], top);
    }
  }

  /** Every controller of the tree is attached, from left to right. */
  lemma {:induction false} ControllersAttached(c: Cluster, k: nat, r: nat, i: nat, e: nat, j: nat)
    requires k <= |c.nodes| && j < |Leaves(c, k)|
    ensures j < |Build(c, k, r, i, e).exts|
    ensures Build(c, k, r, i, e).exts[j].node == Leaves(c, k)[j]
    decreases c, k
  {
    hide Build, Preorder, Leaves, Pair;
    Sizes(c, k, r, i, e);
    BuildNone(c, r, i, e);
    var f, before := Build(c, k - 1, r, i, e), |Leaves(c, k - 1)|;
    Sizes(c, k - 1, r, i, e);
    match c.nodes[k - 1]
    case Controller(id) =>
      BuildController(c, k - 1, id, r, i, e);
      if j < before {
        ControllersAttached(c, k - 1, r, i, e, j);
      }
    case Sub(s) =>
      BuildSub(c, k - 1, s, r, i, e);
      if j < before {
        ControllersAttached(c, k - 1, r, i, e, j);
      } else {
        ControllersAttached(s, |s.nodes|, r + |f.routers|, i + |f.ints|, e + |f.exts|, j - before);
      }
  }

  /** Whatever the tree of clusters, the routers that are built for it are joined to the topmost one
      and nowhere linked in a cycle. */
  lemma BuiltIsTree(c: Cluster, r: nat, i: nat, e: nat, v: nat, routers: seq<nat>)
    returns (path: seq<nat>)
    requires r <= v < r + |Clusters(c)|
    ensures var f := Build(c, |c.nodes|, r, i, e);
            && |path| > 0 && path[0] == r && path[|path| - 1] == v
            && (forall k :: 0 < k < |path| ==>
                              Linked(f, path[k - 1], path[k]) && Linked(f, path[k], path[k - 1]))
            && !Cycle(f, routers)
  {
    hide Build, Preorder, Wired, Tree, Linked, Cycle;
    var f := Build(c, |c.nodes|, r, i, e);
    EveryLinkAskedFor(c, |c.nodes|, r, i, e);
    RoutersFormTree(c, |c.nodes|, r, i, e);
    path := Connected(f, Clusters(c), r, v);
    Acyclic(f, Clusters(c), r, routers);
  }
}
