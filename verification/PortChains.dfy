/** When the greedy pass of the port binder fails: chains of connections, each of which has to be
    made before the next, that run past the places where the next is listed. */
module PortChains {
  import opened Counting
  import opened Sorting
  import opened PortBinder

  // ----- Chains

  /** The same connection, in one direction or the other. */
  predicate Same(a: Connection, b: Connection) {
    a == b || a == Reverse(b)
  }

  predicate LowerEnd(a: End, b: End) {
    a.port == b.port && a.index < b.index
  }

  /** y holds a lower index of a port of x, so that y has to be made first. */
  predicate Needs(x: Connection, y: Connection) {
    || LowerEnd(y.from, x.from) || LowerEnd(y.from, x.to)
    || LowerEnd(y.to, x.from) || LowerEnd(y.to, x.to)
  }

  predicate Follows(chain: seq<Connection>, k: nat)
    requires 0 < k < |chain|
  {
    Needs(chain[k], chain[k - 1])
  }

  /** Listed connections, each of which the next needs. */
  ghost predicate Chain(s: seq<Connection>, chain: seq<Connection>) {
    && |chain| > 0 && (forall k :: 0 <= k < |chain| ==> chain[k] in s)
    && forall k: nat :: 0 < k < |chain| ==> Follows(chain, k)
  }

  /** The first place from p on where the connection is listed, in either direction. */
  function Listed(s: seq<Connection>, x: Connection, p: nat): (q: nat)
    ensures q <= |s| && (p <= |s| ==> p <= q)
    ensures q < |s| ==> Same(s[q], x)
    ensures forall k :: p <= k < q ==> !Same(s[k], x)
    decreases |s| - p
  {
    if p >= |s| then |s| else if Same(s[p], x) then p else Listed(s, x, p + 1)
  }

  /** The place before which the last connection of a chain cannot be made: each is listed behind
      the one it needs. The length of the list means that it is not listed any more. */
  function Forced(s: seq<Connection>, chain: seq<Connection>): (q: nat)
    requires |chain| > 0
    ensures q <= |s|
  {
    var last := chain[|chain| - 1];
    if |chain| == 1 then Listed(s, last, 0)
    else Listed(s, last, Forced(s, chain[..|chain| - 1]) + 1)
  }

  /** Every lower index of a port is recorded, too. */
  ghost predicate Contiguous(s: seq<Connection>) {
    forall c, i: nat :: c in s && i < c.from.index ==> Starts(s, End(c.from.port, i))
  }

  ghost predicate Starts(s: seq<Connection>, e: End) {
    exists k :: 0 <= k < |s| && s[k].from == e
  }

  /** No end is recorded for two connections. */
  ghost predicate Unique(s: seq<Connection>) {
    forall j, k :: 0 <= j < |s| && 0 <= k < |s| && s[j].from == s[k].from ==> s[j] == s[k]
  }

  // ----- The pass up to some place

  function Made(s: seq<Connection>, p: nat): seq<Connection>
    requires p <= |s|
  {
    Greedy(s[..p])
  }

  lemma MadeOk(s: seq<Connection>, p: nat)
    requires Listing(s) && p <= |s|
    ensures Replayable(Made(s, p)) && NoLoops(Made(s, p))
    ensures forall c :: c in Made(s, p) ==> c in s
  {
    hide Greedy, Replayable;
    assert NoLoops(s[..p]) by { assert forall k :: 0 <= k < p ==> s[..p][k] == s[k]; }
    GreedyReplayable(s[..p]);
    GreedyNoLoops(s[..p]);
    assert forall c :: c in s[..p] ==> c in s;
  }

  lemma MadeNext(s: seq<Connection>, p: nat)
    requires p < |s|
    ensures Made(s, p + 1) ==
              if Bindable(Made(s, p), s[p]) then Made(s, p) + [s[p]] else Made(s, p)
  {
    GreedyStep(s, p);
  }

  lemma {:induction false} MadeGrows(s: seq<Connection>, p: nat, q: nat, c: Connection)
    requires p <= q <= |s| && Covered(Made(s, p), c)
    ensures Covered(Made(s, q), c)
    decreases q - p
  {
    hide Made;
    if p < q {
      MadeNext(s, p);
      MadeGrows(s, p + 1, q, c);
    }
  }

  /** A connection that is made was made at some place. */
  lemma {:induction false} MadeAt(s: seq<Connection>, p: nat, c: Connection) returns (m: nat)
    requires p <= |s| && Covered(Made(s, p), c)
    ensures m < p && Same(s[m], c) && Bindable(Made(s, m), s[m])
  {
    hide Bindable;
    assert Made(s, 0) == [] by { NothingYet(); }
    m := 0;
    if p > 0 {
      MadeNext(s, p - 1);
      if Covered(Made(s, p - 1), c) {
        m := MadeAt(s, p - 1, c);
      } else {
        m := p - 1;
      }
    }
  }

  /** Of unique ends, one that is taken is taken by its own connection. */
  lemma TakenByOwn(s: seq<Connection>, g: seq<Connection>, y: Connection, e: End)
    requires Listing(s) && Unique(s) && y in s && UsesEnd(y, e)
    requires (forall c :: c in g ==> c in s) && Taken(g, e)
    ensures Covered(g, y)
  {
    var j :| 0 <= j < |g| && UsesEnd(g[j], e);
    assert g[j] in g;
    var a := if g[j].from == e then g[j] else Reverse(g[j]);
    var b := if y.from == e then y else Reverse(y);
    assert a in s && b in s;
    var k, l :| 0 <= k < |s| && 0 <= l < |s| && s[k] == a && s[l] == b;
    assert a == b;
    assert Reverse(Reverse(g[j])) == g[j] && Reverse(Reverse(y)) == y;
  }

  // ----- Late chains

  /** A connection that is not next free where it is listed needs one that is not made yet. */
  lemma Blocked(s: seq<Connection>, q: nat) returns (z: Connection)
    requires Listing(s) && Contiguous(s) && Unique(s) && q < |s|
    requires !Covered(Made(s, q), s[q]) && !Bindable(Made(s, q), s[q])
    ensures z in s && Needs(s[q], z) && !Covered(Made(s, q), z)
  {
    hide Made, Used, Contiguous, Unique;
    var g, x := Made(s, q), s[q];
    MadeOk(s, q);
    var e := if Used(g, x.from.port) != x.from.index then x.from else x.to;
    assert UsesEnd(x, e) && x in s;
    TakenIffBelow(g, e);
    if e.index < Used(g, e.port) {
      TakenByOwn(s, g, x, e);
    }
    z := Holder(s, x, e, Used(g, e.port));
    var free := End(e.port, Used(g, e.port));
    TakenIffBelow(g, free);
    CoveredTakes(g, z, free);
  }

  lemma CoveredTakes(g: seq<Connection>, c: Connection, e: End)
    requires UsesEnd(c, e)
    ensures Covered(g, c) ==> Taken(g, e)
  {
    if Covered(g, c) {
      var k := CoveredAtPlace(g, c);
      assert UsesEnd(g[k], e);
    }
  }

  /** The connection that a lower index of a port is recorded for. */
  lemma Holder(s: seq<Connection>, x: Connection, e: End, i: nat) returns (z: Connection)
    requires Listing(s) && Contiguous(s) && x in s && UsesEnd(x, e) && i < e.index
    ensures z in s && z.from == End(e.port, i) && Needs(x, z)
  {
    var c := if x.from == e then x else Reverse(x);
    assert c in s && c.from == e;
    assert Starts(s, End(c.from.port, i));
    var k :| 0 <= k < |s| && s[k].from == End(c.from.port, i);
    z := s[k];
  }

  /** The last place below p where the connection is listed, or p if there is none. */
  lemma {:induction false} LastListed(s: seq<Connection>, x: Connection, p: nat) returns (q: nat)
    requires p <= |s|
    ensures q <= p && (q < p ==> Same(s[q], x))
    ensures forall k :: 0 <= k < p && (q == p || q < k) ==> !Same(s[k], x)
  {
    q := p;
    if p > 0 {
      if Same(s[p - 1], x) {
        q := p - 1;
      } else {
        q := LastListed(s, x, p - 1);
        q := if q == p - 1 then p else q;
      }
    }
  }

  /** What is not made before some place is the end of a chain that is not through before it. */
  lemma {:induction false} LateChain(s: seq<Connection>, y: Connection, p: nat)
    returns (chain: seq<Connection>)
    requires Listing(s) && Contiguous(s) && Unique(s) && p <= |s|
    requires y in s && !Covered(Made(s, p), y)
    ensures Chain(s, chain) && chain[|chain| - 1] == y && Forced(s, chain) >= p
    decreases p
  {
    hide Made, Bindable, Contiguous, Unique, Needs, Same;
    var q := LastListed(s, y, p);
    if q == p {
      chain := [y];
    } else {
      assert !Covered(Made(s, q), y) by {
        if Covered(Made(s, q), y) {
          MadeGrows(s, q, p, y);
        }
      }
      assert !Covered(Made(s, q), s[q]) && !Bindable(Made(s, q), s[q]) by {
        NotMadeThere(s, q, p, y);
      }
      var z := Blocked(s, q);
      SameNeeds(s[q], y, z);
      var before := LateChain(s, z, q);
      ChainNext(s, before, y);
      ForcedNext(s, before, y);
      chain := before + [y];
    }
  }

  /** A chain goes on with what needs its last connection. */
  lemma ChainNext(s: seq<Connection>, chain: seq<Connection>, y: Connection)
    requires Chain(s, chain) && y in s && Needs(y, chain[|chain| - 1])
    ensures Chain(s, chain + [y])
  {
    hide Needs;
    var more := chain + [y];
    forall k | 0 <= k < |more| ensures more[k] in s {
      assert k < |chain| ==> chain[k] in s;
    }
    forall k: nat | 0 < k < |more| ensures Follows(more, k) {
      assert k < |chain| ==> Follows(chain, k);
    }
  }

  lemma ForcedNext(s: seq<Connection>, chain: seq<Connection>, y: Connection)
    requires |chain| > 0
    ensures Forced(s, chain + [y]) == Listed(s, y, Forced(s, chain) + 1)
  {
    hide Listed;
    assert (chain + [y])[..|chain + [y]| - 1] == chain;
  }

  lemma NotMadeThere(s: seq<Connection>, q: nat, p: nat, y: Connection)
    requires q < p <= |s| && Same(s[q], y) && !Covered(Made(s, p), y)
    ensures !Covered(Made(s, q), s[q]) && !Bindable(Made(s, q), s[q])
  {
    hide Made, Bindable;
    assert Reverse(Reverse(y)) == y;
    MadeNext(s, q);
    if Covered(Made(s, q), y) {
      MadeGrows(s, q, p, y);
    } else if Bindable(Made(s, q), s[q]) {
      assert s[q] in Made(s, q + 1);
      MadeGrows(s, q + 1, p, y);
    }
  }

  // ----- Chains in time

  /** Whatever a connection needs is made before it. */
  lemma NeedsFirst(s: seq<Connection>, m: nat, y: Connection)
    requires Listing(s) && Unique(s) && m < |s| && y in s && Needs(s[m], y)
    requires Bindable(Made(s, m), s[m])
    ensures Covered(Made(s, m), y)
  {
    hide Made, Used, Unique;
    var g, x := Made(s, m), s[m];
    MadeOk(s, m);
    var e := if LowerEnd(y.from, x.from) || LowerEnd(y.from, x.to) then y.from else y.to;
    TakenIffBelow(g, e);
    TakenByOwn(s, g, y, e);
  }

  /** A chain whose last connection is made before some place is through before it. */
  lemma {:induction false} ChainInTime(s: seq<Connection>, chain: seq<Connection>, p: nat)
    requires Listing(s) && Unique(s) && p <= |s| && Chain(s, chain)
    requires Covered(Made(s, p), chain[|chain| - 1])
    ensures Forced(s, chain) < p
  {
    hide Made, Bindable, Unique, Needs, Same, Covered;
    var n := |chain| - 1;
    var m := MadeAt(s, p, chain[n]);
    if n > 0 {
      var front := chain[..n];
      assert Chain(s, front) by {
        assert forall k: nat :: 0 < k < n ==> Follows(chain, k) && Follows(front, k) == Follows(chain, k);
      }
      assert Follows(chain, n);
      SameNeeds(chain[n], s[m], chain[n - 1]);
      NeedsFirst(s, m, chain[n - 1]);
      ChainInTime(s, front, m);
    }
  }

  lemma SameNeeds(x: Connection, y: Connection, z: Connection)
    requires (Same(x, y) || Same(y, x)) && Needs(x, z)
    ensures Needs(y, z)
  {
  }

  // ----- What success takes

  lemma CoveredAtPlace(g: seq<Connection>, c: Connection) returns (k: nat)
    requires Covered(g, c)
    ensures k < |g| && Same(g[k], c)
  {
    var x := if c in g then c else Reverse(c);
    k :| 0 <= k < |g| && g[k] == x;
  }

  lemma AllMadeIsUnique(s: seq<Connection>)
    requires Listing(s) && forall c :: c in s ==> Covered(Made(s, |s|), c)
    ensures Unique(s)
  {
    hide Made, Replayable;
    var g := Made(s, |s|);
    MadeOk(s, |s|);
    forall j, k | 0 <= j < |s| && 0 <= k < |s| && s[j].from == s[k].from ensures s[j] == s[k] {
      var e := s[j].from;
      assert s[j] in s && s[k] in s;
      var a := CoveredAtPlace(g, s[j]);
      var b := CoveredAtPlace(g, s[k]);
      if a < b {
        EndsBoundOnce(g, a, b, e);
      } else if b < a {
        EndsBoundOnce(g, b, a, e);
      }
      assert s[j].from != s[j].to && s[k].from != s[k].to;
    }
  }

  lemma AllMadeIsContiguous(s: seq<Connection>)
    requires Listing(s) && forall c :: c in s ==> Covered(Made(s, |s|), c)
    ensures Contiguous(s)
  {
    hide Made, Replayable, Used;
    var g := Made(s, |s|);
    MadeOk(s, |s|);
    forall c, i: nat | c in s && i < c.from.index ensures Starts(s, End(c.from.port, i)) {
      var k := CoveredAtPlace(g, c);
      var e := End(c.from.port, i);
      ReplayedAt(g, k, c.from);
      ReplayPrefix(g, k);
      TakenIffBelow(g[..k], e);
      var j :| 0 <= j < k && UsesEnd(g[..k][j], e);
      assert g[j] in g && g[..k][j] == g[j];
      var x := if g[j].from == e then g[j] else Reverse(g[j]);
      assert x in s;
      var l :| 0 <= l < |s| && s[l] == x;
    }
  }

  ghost predicate AllInTime(s: seq<Connection>) {
    forall chain :: Chain(s, chain) ==> Forced(s, chain) < |s|
  }

  /** A pass over any list makes every connection if and only if the recorded indices are unique
      and contiguous and no chain is forced past the places where its last connection is listed. */
  lemma PassMakesAllIff(s: seq<Connection>)
    requires Listing(s)
    ensures (forall c :: c in s ==> Covered(Greedy(s), c)) <==>
              Contiguous(s) && Unique(s) && AllInTime(s)
  {
    hide Greedy, Contiguous, Unique, Needs, Forced;
    assert s[..|s|] == s;
    if forall c :: c in s ==> Covered(Greedy(s), c) {
      AllMadeIsUnique(s);
      AllMadeIsContiguous(s);
      forall chain | Chain(s, chain) ensures Forced(s, chain) < |s| {
        ChainInTime(s, chain, |s|);
      }
    } else if Contiguous(s) && Unique(s) {
      var y :| y in s && !Covered(Greedy(s), y);
      var chain := LateChain(s, y, |s|);
    }
  }

  /** So that is exactly when the ports of a listing can be bound. */
  lemma BindsIffChainsInTime(conns: seq<Connection>)
    requires Listing(conns)
    ensures var s := Sort(InOrder, conns);
            2 * |Greedy(s)| == |conns| <==> Contiguous(s) && Unique(s) && AllInTime(s)
  {
    hide Sort, Greedy, Contiguous, Unique, AllInTime, Replayable;
    var s := Sort(InOrder, conns);
    SortedListing(conns);
    PassMakesAllIff(s);
    GreedyOfListing(conns);
    HalfIffCovered(conns, Greedy(s));
  }

  lemma SortedListing(conns: seq<Connection>)
    requires Listing(conns)
    ensures Listing(Sort(InOrder, conns))
    ensures forall c :: c in Sort(InOrder, conns) <==> c in conns
  {
    hide Sort;
    var s := Sort(InOrder, conns);
    SortPermutes(InOrder, conns);
    SortKeepsElements(conns);
    Permuted(s, conns);
    forall k | 0 <= k < |s| ensures s[k].from != s[k].to {
      assert s[k] in conns;
    }
  }
}
