/** The mesh with a directory at each corner, and the links it is made of. */
module MeshTopology {
  import Arithmetic
  import opened Counting

  datatype Kind = L1Cache | L2Cache | Directory | Dma | Other

  /** A controller and its number among all controllers. */
  datatype Controller = Controller(kind: Kind, node: nat)

  datatype Direction = East | West | North | South

  /** A bidirectional link between a controller and a router. */
  datatype ExtLink = ExtLink(id: nat, node: nat, router: nat)

  /** A link from one router to the next; it leaves the one in direction `out`. */
  datatype IntLink = IntLink(id: nat, src: nat, dst: nat, out: Direction, weight: nat)

  datatype Network = Network(routers: nat, columns: nat, extLinks: seq<ExtLink>,
                             intLinks: seq<IntLink>)

  datatype Result = AssertionError | Built(net: Network)

  // ----- Mesh links

  /** A link of the mesh named by its direction and its western or southern end. */
  datatype Hop = Hop(dir: Direction, row: nat, col: nat)

  predicate ValidHop(rows: nat, cols: nat, h: Hop) {
    if h.dir.East? || h.dir.West? then h.row < rows && h.col + 1 < cols
    else h.row + 1 < rows && h.col < cols
  }

  function Router(cols: nat, row: nat, col: nat): nat {
    col + row * cols
  }

  function LinkOf(cols: nat, h: Hop, id: nat): IntLink {
    var here := Router(cols, h.row, h.col);
    match h.dir
    case East => IntLink(id, here, Router(cols, h.row, h.col + 1), East, 1)
    case West => IntLink(id, Router(cols, h.row, h.col + 1), here, West, 1)
    case North => IntLink(id, here, Router(cols, h.row + 1, h.col), North, 2)
    case South => IntLink(id, Router(cols, h.row + 1, h.col), here, South, 2)
  }

  /** The links are those of the hops, numbered consecutively from base. */
  ghost predicate Numbered(cols: nat, base: nat, links: seq<IntLink>, hops: seq<Hop>) {
    && |links| == |hops| && Distinct(hops)
    && forall k :: 0 <= k < |links| ==> links[k] == LinkOf(cols, hops[k], base + k)
  }

  /** The two nested loops for one direction. East and west links are added row by row, north and
      south links column by column. */
  method AddDirection(dir: Direction, rows: nat, cols: nat, base: nat, before: seq<IntLink>,
                      ghost hopsBefore: seq<Hop>)
    returns (links: seq<IntLink>, ghost hops: seq<Hop>)
    requires Numbered(cols, base, before, hopsBefore)
    requires forall h :: h in hopsBefore ==> h.dir != dir
    ensures Numbered(cols, base, links, hops)
    ensures forall h :: h in hops <==> h in hopsBefore || (h.dir == dir && ValidHop(rows, cols, h))
  {
    links, hops := before, hopsBefore;
    var linkCount := base + |before|;
    if dir.East? || dir.West? {
      for row := 0 to rows
        invariant linkCount == base + |links| && Numbered(cols, base, links, hops)
        invariant forall h :: h in hops <==>
          h in hopsBefore || (h.dir == dir && ValidHop(rows, cols, h) && h.row < row)
      {
        for col := 0 to cols
          invariant linkCount == base + |links| && Numbered(cols, base, links, hops)
          invariant forall h :: h in hops <==>
            || h in hopsBefore
            || (h.dir == dir && ValidHop(rows, cols, h)
                && (h.row < row || (h.row == row && h.col < col)))
        {
          if col + 1 < cols {
            links := links + [LinkOf(cols, Hop(dir, row, col), linkCount)];
            hops := hops + [Hop(dir, row, col)];
            linkCount := linkCount + 1;
          }
        }
      }
    } else {
      for col := 0 to cols
        invariant linkCount == base + |links| && Numbered(cols, base, links, hops)
        invariant forall h :: h in hops <==>
          h in hopsBefore || (h.dir == dir && ValidHop(rows, cols, h) && h.col < col)
      {
        for row := 0 to rows
          invariant linkCount == base + |links| && Numbered(cols, base, links, hops)
          invariant forall h :: h in hops <==>
            || h in hopsBefore
            || (h.dir == dir && ValidHop(rows, cols, h)
                && (h.col < col || (h.col == col && h.row < row)))
        {
          if row + 1 < rows {
            links := links + [LinkOf(cols, Hop(dir, row, col), linkCount)];
            hops := hops + [Hop(dir, row, col)];
            linkCount := linkCount + 1;
          }
        }
      }
    }
  }

  // ----- The whole topology

  function OfKinds(cs: seq<Controller>, kinds: set<Kind>): seq<Controller> {
    if cs == [] then []
    else
      var last := cs[|cs| - 1];
      OfKinds(cs[..|cs| - 1], kinds) + if last.kind in kinds then [last] else []
  }

  lemma {:induction false} AllOrNone(cs: seq<Controller>, kinds: set<Kind>)
    ensures (forall k :: 0 <= k < |cs| ==> cs[k].kind in kinds) ==> OfKinds(cs, kinds) == cs
    ensures (forall k :: 0 <= k < |cs| ==> cs[k].kind !in kinds) ==> OfKinds(cs, kinds) == []
  {
    if cs != [] {
      AllOrNone(cs[..|cs| - 1], kinds);
      assert cs == cs[..|cs| - 1] + [cs[|cs| - 1]];
    }
  }

  /** What is taken is of one of the kinds, and was there. */
  lemma {:induction false} OfKindsWithin(cs: seq<Controller>, kinds: set<Kind>, k: nat)
    requires k < |OfKinds(cs, kinds)|
    ensures OfKinds(cs, kinds)[k].kind in kinds && OfKinds(cs, kinds)[k] in cs
  {
    var front := cs[..|cs| - 1];
    assert forall x :: x in front ==> x in cs;
    if k < |OfKinds(front, kinds)| {
      OfKindsWithin(front, kinds, k);
    }
  }

  /** No two controllers have the same number. */
  ghost predicate NodesDistinct(cs: seq<Controller>) {
    forall i, j :: 0 <= i < j < |cs| ==> cs[i].node != cs[j].node
  }

  lemma {:induction false} OfKindsDistinct(cs: seq<Controller>, kinds: set<Kind>)
    requires NodesDistinct(cs)
    ensures NodesDistinct(OfKinds(cs, kinds))
  {
    if cs != [] {
      var front, last := cs[..|cs| - 1], cs[|cs| - 1];
      OfKindsDistinct(front, kinds);
      var taken := OfKinds(front, kinds);
      forall k | 0 <= k < |taken| ensures taken[k].node != last.node {
        OfKindsWithin(front, kinds, k);
        var i :| 0 <= i < |front| && front[i] == taken[k];
        assert cs[i] == taken[k];
      }
    }
  }

  function Caches(cs: seq<Controller>): seq<Controller> {
    OfKinds(cs, {L1Cache, L2Cache})
  }

  function Directories(cs: seq<Controller>): seq<Controller> {
    OfKinds(cs, {Directory})
  }

  function Dmas(cs: seq<Controller>): seq<Controller> {
    OfKinds(cs, {Dma})
  }

  lemma {:induction false} KindsPartition(cs: seq<Controller>)
    requires forall k :: 0 <= k < |cs| ==> cs[k].kind != Other
    ensures |Caches(cs)| + |Directories(cs)| + |Dmas(cs)| == |cs|
  {
    if cs != [] {
      KindsPartition(cs[..|cs| - 1]);
    }
  }

  /** Controllers of different kinds have different numbers. */
  lemma KindsApart(cs: seq<Controller>, a: set<Kind>, b: set<Kind>, i: nat, j: nat)
    requires NodesDistinct(cs) && a !! b && i < |OfKinds(cs, a)| && j < |OfKinds(cs, b)|
    ensures OfKinds(cs, a)[i].node != OfKinds(cs, b)[j].node
  {
    hide OfKinds;
    OfKindsWithin(cs, a, i);
    OfKindsWithin(cs, b, j);
    var x, y := OfKinds(cs, a)[i], OfKinds(cs, b)[j];
    var k, l :| 0 <= k < |cs| && 0 <= l < |cs| && cs[k] == x && cs[l] == y;
  }

  /** The assertions of makeTopology on its parameters. */
  ghost predicate Accepted(cs: seq<Controller>, routers: nat, rows: int) {
    && 0 < rows <= routers && routers / rows * rows == routers
    && |Caches(cs)| % routers == 0 && |Directories(cs)| == 4
  }

  function CornerOf(k: nat, routers: nat, cols: nat): nat
    requires 0 < cols <= routers
  {
    if k == 0 then 0 else if k == 1 then cols - 1
    else if k == 2 then routers - cols else routers - 1
  }

  /** The k-th external link: caches are attached round-robin over the routers, directories at
      the corners, DMA controllers at router 0. */
  function ExtLinkAt(caches: seq<Controller>, dirs: seq<Controller>, dmas: seq<Controller>,
                     routers: nat, cols: nat, k: nat): ExtLink
    requires 0 < cols <= routers && |dirs| == 4 && k < |caches| + 4 + |dmas|
  {
    var c := |caches|;
    if k < c then ExtLink(k, caches[k].node, k % routers)
    else if k < c + 4 then ExtLink(k, dirs[k - c].node, CornerOf(k - c, routers, cols))
    else ExtLink(c + 4, dmas[k - c - 4].node, 0)
  }

  ghost predicate ExtLinksOf(caches: seq<Controller>, dirs: seq<Controller>,
                             dmas: seq<Controller>, routers: nat, cols: nat,
                             links: seq<ExtLink>)
    requires 0 < cols <= routers && |dirs| == 4
  {
    && |links| == |caches| + 4 + |dmas|
    && forall k :: 0 <= k < |links| ==>
                     links[k] == ExtLinkAt(caches, dirs, dmas, routers, cols, k)
  }

  ghost predicate MeshOf(cs: seq<Controller>, rows: nat, net: Network, hops: seq<Hop>) {
    && net.routers == net.columns * rows && 0 < net.columns <= net.routers && rows > 0
    && |Directories(cs)| == 4
    && ExtLinksOf(Caches(cs), Directories(cs), Dmas(cs), net.routers, net.columns, net.extLinks)
    && Numbered(net.columns, |Caches(cs)| + 4, net.intLinks, hops)
    && forall h :: h in hops <==> ValidHop(rows, net.columns, h)
  }

  lemma Quotient(n: nat, rows: nat)
    requires 0 < rows <= n
    ensures 1 <= n / rows <= n
  {
    var q := n / rows;
    assert n == rows * q + n % rows;
    if q < 1 {
      Arithmetic.MulMonotone(rows, q, 0);
    }
    Arithmetic.MulMonotone(q, 1, rows);
  }

  method Classify(cs: seq<Controller>)
    returns (caches: seq<Controller>, dirs: seq<Controller>, dmas: seq<Controller>)
    ensures caches == Caches(cs) && dirs == Directories(cs) && dmas == Dmas(cs)
  {
    caches, dirs, dmas := [], [], [];
    for k := 0 to |cs|
      invariant caches == Caches(cs[..k]) && dirs == Directories(cs[..k]) && dmas == Dmas(cs[..k])
    {
      var node := cs[k];
      assert cs[..k + 1][..k] == cs[..k];
      if node.kind == L1Cache || node.kind == L2Cache {
        caches := caches + [node];
      } else if node.kind == Directory {
        dirs := dirs + [node];
      } else if node.kind == Dma {
        dmas := dmas + [node];
      }
    }
    assert cs[..|cs|] == cs;
  }

  /** Build the mesh, or fail an assertion exactly when the parameters do not fit together. */
  method MakeTopology(cs: seq<Controller>, routers: nat, rows: int)
    returns (r: Result, ghost hops: seq<Hop>)
    ensures r.Built? <==> Accepted(cs, routers, rows)
    ensures r.Built? <==>
              && 0 < rows <= routers && routers % rows == 0
              && |Caches(cs)| % routers == 0 && |Directories(cs)| == 4
    ensures r.Built? ==> r.net.routers == routers && MeshOf(cs, rows, r.net, hops)
  {
    hops := [];
    var caches, dirs, dmas := Classify(cs);
    if !(rows > 0 && rows <= routers) {
      return AssertionError, hops;
    }
    var columns := routers / rows;
    Quotient(routers, rows);
    if columns * rows != routers || |caches| % routers != 0 || |dirs| != 4 {
      return AssertionError, hops;
    }
    var ext := ConnectControllers(caches, dirs, dmas, routers, columns);
    var base, links := |caches| + 4, [];
    links, hops := AddDirection(East, rows, columns, base, links, hops);
    links, hops := AddDirection(West, rows, columns, base, links, hops);
    links, hops := AddDirection(North, rows, columns, base, links, hops);
    links, hops := AddDirection(South, rows, columns, base, links, hops);
    r := Built(Network(routers, columns, ext, links));
  }

  method ConnectControllers(caches: seq<Controller>, dirs: seq<Controller>,
                            dmas: seq<Controller>, routers: nat, cols: nat)
    returns (ext: seq<ExtLink>)
    requires 0 < cols <= routers && |dirs| == 4
    ensures ExtLinksOf(caches, dirs, dmas, routers, cols, ext)
  {
    ext := [];
    var linkCount := 0;
    for i := 0 to |caches|
      invariant linkCount == |ext| == i
      invariant forall k :: 0 <= k < i ==>
                              ext[k] == ExtLinkAt(caches, dirs, dmas, routers, cols, k)
    {
      ext := ext + [ExtLink(linkCount, caches[i].node, i % routers)];
      linkCount := linkCount + 1;
    }
    ext := ext + [ExtLink(linkCount, dirs[0].node, 0)];
    linkCount := linkCount + 1;
    ext := ext + [ExtLink(linkCount, dirs[1].node, cols - 1)];
    linkCount := linkCount + 1;
    ext := ext + [ExtLink(linkCount, dirs[2].node, routers - cols)];
    linkCount := linkCount + 1;
    ext := ext + [ExtLink(linkCount, dirs[3].node, routers - 1)];
    linkCount := linkCount + 1;
    for i := 0 to |dmas|
      invariant linkCount == |caches| + 4 && |ext| == linkCount + i
      invariant forall k :: 0 <= k < |ext| ==>
                              ext[k] == ExtLinkAt(caches, dirs, dmas, routers, cols, k)
    {
      ext := ext + [ExtLink(linkCount, dmas[i].node, 0)];
    }
  }

  // ----- Who is where

  /** How many of the links lead to a router. */
  ghost function LinksAt(links: seq<ExtLink>, router: nat): nat {
    if links == [] then 0
    else LinksAt(links[..|links| - 1], router) + if links[|links| - 1].router == router then 1 else 0
  }

  /** How many of the first n numbers leave the remainder r. */
  ghost function Share(n: nat, routers: nat, r: nat): nat
    requires routers > 0
  {
    n / routers + if n % routers > r then 1 else 0
  }

  lemma ShareNext(n: nat, routers: nat, r: nat)
    requires r < routers
    ensures Share(n + 1, routers, r) == Share(n, routers, r) + if n % routers == r then 1 else 0
  {
    var q, m := n / routers, n % routers;
    Arithmetic.DivMod(n, routers);
    Arithmetic.MulNext(routers, q);
    if m == routers - 1 {
      Arithmetic.DivUnique(n + 1, routers, q + 1, 0);
    } else {
      Arithmetic.DivUnique(n + 1, routers, q, m + 1);
    }
  }

  lemma {:induction false} RoundRobin(links: seq<ExtLink>, routers: nat, r: nat)
    requires r < routers && forall k :: 0 <= k < |links| ==> links[k].router == k % routers
    ensures LinksAt(links, r) == Share(|links|, routers, r)
  {
    if links == [] {
      Arithmetic.DivUnique(0, routers, 0, 0);
    } else {
      hide Share;
      RoundRobin(links[..|links| - 1], routers, r);
      ShareNext(|links| - 1, routers, r);
    }
  }

  /** Every router gets its equal share of the caches. */
  lemma CachesShared(cs: seq<Controller>, rows: nat, net: Network, hops: seq<Hop>, router: nat)
    requires MeshOf(cs, rows, net, hops) && |Caches(cs)| % net.routers == 0 && router < net.routers
    ensures LinksAt(net.extLinks[..|Caches(cs)|], router) == |Caches(cs)| / net.routers
  {
    hide OfKinds;
    RoundRobin(net.extLinks[..|Caches(cs)|], net.routers, router);
  }

  /** The directories are at the corners, those with odd numbers in the last column and the last
      two in the last row, and the DMA controllers are all at the corner of the first. */
  lemma DirectoriesAtCorners(cs: seq<Controller>, rows: nat, net: Network, hops: seq<Hop>, k: nat)
    requires MeshOf(cs, rows, net, hops) && k < 4
    ensures var at, cols := net.extLinks[|Caches(cs)| + k].router, net.columns;
            && net.extLinks[|Caches(cs)| + k].node == Directories(cs)[k].node
            && at % cols == (if k % 2 == 1 then cols - 1 else 0)
            && at / cols == if k >= 2 then rows - 1 else 0
    ensures forall j :: |Caches(cs)| + 4 <= j < |net.extLinks| ==> net.extLinks[j].router == 0
  {
    hide OfKinds;
    var at, cols := net.extLinks[|Caches(cs)| + k].router, net.columns;
    assert cols * (rows - 1) == net.routers - cols;
    Arithmetic.DivUnique(at, cols, if k >= 2 then rows - 1 else 0, if k % 2 == 1 then cols - 1 else 0);
  }

  // ----- Link ids

  /** The ids of all links, external ones first. */
  ghost function Ids(net: Network): seq<int> {
    seq(|net.extLinks| + |net.intLinks|,
        k requires 0 <= k < |net.extLinks| + |net.intLinks| =>
          if k < |net.extLinks| then net.extLinks[k].id
          else net.intLinks[k - |net.extLinks|].id)
  }

  /** The counter is there "to set unique link ids". It does so exactly when there is no DMA
      controller, or just one on a mesh of a single router: the loop over the DMA controllers does
      not count on, so they share an id with each other and with the first mesh link. */
  lemma UniqueIdsIff(cs: seq<Controller>, rows: nat, net: Network, hops: seq<Hop>)
    requires MeshOf(cs, rows, net, hops)
    ensures Distinct(Ids(net)) <==>
            Dmas(cs) == [] || (|Dmas(cs)| == 1 && net.routers == 1)
  {
    hide OfKinds, LinkOf;
    var c, n, m := |Caches(cs)|, |net.extLinks|, |net.intLinks|;
    var ids := Ids(net);
    forall k | 0 <= k < n + m
      ensures ids[k] == if k < c + 4 then k else if k < n then c + 4 else c + 4 + (k - n)
    {
      if k >= n {
        LinkId(net.columns, hops[k - n], c + 4 + (k - n));
      }
    }
    NoLinksIffSingle(cs, rows, net, hops);
    if |Dmas(cs)| >= 2 {
      assert ids[c + 4] == ids[c + 5];
    } else if |Dmas(cs)| == 1 && m > 0 {
      assert ids[c + 4] == ids[n];
    }
  }

  lemma LinkId(cols: nat, h: Hop, id: nat)
    ensures LinkOf(cols, h, id).id == id
  {
  }

  lemma NoLinksIffSingle(cs: seq<Controller>, rows: nat, net: Network, hops: seq<Hop>)
    requires MeshOf(cs, rows, net, hops)
    ensures net.intLinks == [] <==> net.routers == 1
  {
    var cols := net.columns;
    assert Hop(East, 0, 0) in hops <==> cols > 1;
    assert Hop(North, 0, 0) in hops <==> rows > 1;
    if hops != [] {
      assert hops[0] in hops;
    }
    assert cols * rows >= rows && cols * rows >= cols;
    assert rows == 1 && cols == 1 ==> cols * rows == 1;
  }
}
