/** Binding the ports of a configuration file: a single greedy pass over the sorted connections,
    which lists every connection in both directions. */
module PortBinder {
  import opened Counting
  import opened Sorting
  import Text

  datatype Port = Port(owner: string, name: string)

  datatype End = End(port: Port, index: nat)

  datatype Connection = Connection(from: End, to: End)

  function Reverse(c: Connection): Connection {
    Connection(c.to, c.from)
  }

  // ----- The order of connections

  function CompareEnds(a: End, b: End): int {
    var o, n := Text.CompareStrings(a.port.owner, b.port.owner), Text.CompareStrings(a.port.name, b.port.name);
    if o != 0 then o else if n != 0 then n else a.index - b.index
  }

  predicate InOrder(a: Connection, b: Connection) {
    var f := CompareEnds(a.from, b.from);
    f < 0 || (f == 0 && CompareEnds(a.to, b.to) <= 0)
  }

  lemma CompareEndsOrder(a: End, b: End, c: End)
    ensures CompareEnds(a, b) < 0 <==> CompareEnds(b, a) > 0
    ensures CompareEnds(a, b) == 0 <==> a == b
    ensures CompareEnds(a, b) <= 0 && CompareEnds(b, c) <= 0 ==> CompareEnds(a, c) <= 0
  {
    hide Text.CompareStrings;
    Text.CompareStringsOrder(a.port.owner, b.port.owner, c.port.owner);
    Text.CompareStringsOrder(b.port.owner, c.port.owner, a.port.owner);
    Text.CompareStringsOrder(c.port.owner, a.port.owner, b.port.owner);
    Text.CompareStringsOrder(a.port.name, b.port.name, c.port.name);
    Text.CompareStringsOrder(b.port.name, c.port.name, a.port.name);
    Text.CompareStringsOrder(c.port.name, a.port.name, b.port.name);
  }

  /** Ends are ordered by the object's name, then the port's name, then the index. */
  ghost predicate EndBefore(a: End, b: End) {
    if a.port.owner != b.port.owner then Text.Before(a.port.owner, b.port.owner)
    else if a.port.name != b.port.name then Text.Before(a.port.name, b.port.name)
    else a.index < b.index
  }

  /** Connections are ordered by the end they start from, then by the other. */
  lemma InOrderIff(a: Connection, b: Connection)
    ensures InOrder(a, b) <==>
            if a.from != b.from then EndBefore(a.from, b.from)
            else a.to == b.to || EndBefore(a.to, b.to)
  {
    hide Text.CompareStrings, Text.Before;
    CompareEndsIff(a.from, b.from);
    CompareEndsIff(a.to, b.to);
  }

  lemma CompareEndsIff(a: End, b: End)
    ensures CompareEnds(a, b) < 0 <==> EndBefore(a, b)
    ensures CompareEnds(a, b) == 0 <==> a == b
  {
    hide Text.CompareStrings, Text.Before;
    CompareEndsOrder(a, b, b);
    Text.CompareStringsOrder(a.port.owner, b.port.owner, b.port.owner);
    Text.CompareStringsOrder(a.port.name, b.port.name, b.port.name);
    Text.CompareStringsIff(a.port.owner, b.port.owner);
    Text.CompareStringsIff(a.port.name, b.port.name);
  }

  lemma InOrderIsOrder()
    ensures TotalPreorder(InOrder)
  {
    hide CompareEnds;
    forall a, b
      ensures InOrder(a, b) || InOrder(b, a)
    {
      CompareEndsOrder(a.from, b.from, b.from);
      CompareEndsOrder(b.from, a.from, b.from);
      CompareEndsOrder(a.to, b.to, b.to);
    }
    forall a, b, c | InOrder(a, b) && InOrder(b, c)
      ensures InOrder(a, c)
    {
      CompareEndsOrder(a.from, b.from, c.from);
      CompareEndsOrder(b.from, c.from, a.from);
      CompareEndsOrder(c.from, a.from, b.from);
      CompareEndsOrder(a.to, b.to, c.to);
    }
  }

  // ----- The pass

  /** How many ends of a port the connections of g use. */
  function Used(g: seq<Connection>, p: Port): nat {
    if g == [] then 0
    else
      var last := g[|g| - 1];
      Used(g[..|g| - 1], p) + (if last.from.port == p then 1 else 0) + if last.to.port == p then 1 else 0
  }

  /** Both ends of c are the next free ones of their ports. */
  predicate Bindable(g: seq<Connection>, c: Connection) {
    Used(g, c.from.port) == c.from.index && Used(g, c.to.port) == c.to.index
  }

  /** The connections that a pass over s makes. */
  function Greedy(s: seq<Connection>): seq<Connection> {
    if s == [] then []
    else
      var g := Greedy(s[..|s| - 1]);
      if Bindable(g, s[|s| - 1]) then g + [s[|s| - 1]] else g
  }

  /** Making the connections in this order, taking the next free index at both ends, gives each
      end the index that was recorded for it. */
  ghost predicate Replayable(g: seq<Connection>) {
    forall k :: 0 <= k < |g| ==> Bindable(g[..k], g[k])
  }

  ghost predicate NoLoops(g: seq<Connection>) {
    forall k :: 0 <= k < |g| ==> g[k].from != g[k].to
  }

  ghost predicate UsesEnd(c: Connection, e: End) {
    c.from == e || c.to == e
  }

  lemma ReplayPrefix(g: seq<Connection>, n: nat)
    requires Replayable(g) && n <= |g|
    ensures Replayable(g[..n])
  {
    forall k | 0 <= k < n
      ensures Bindable(g[..n][..k], g[..n][k])
    {
      assert g[..n][..k] == g[..k];
    }
  }

  ghost predicate Taken(g: seq<Connection>, e: End) {
    exists k :: 0 <= k < |g| && UsesEnd(g[k], e)
  }

  lemma TakenSnoc(g: seq<Connection>, c: Connection, e: End)
    ensures Taken(g + [c], e) <==> Taken(g, e) || UsesEnd(c, e)
  {
    if k :| 0 <= k < |g| && UsesEnd(g[k], e) {
      assert UsesEnd((g + [c])[k], e);
    }
    if UsesEnd(c, e) {
      assert UsesEnd((g + [c])[|g|], e);
    }
  }

  /** The indices of a port that are taken are exactly those below the count. */
  lemma {:induction false} TakenIffBelow(g: seq<Connection>, e: End)
    requires Replayable(g) && NoLoops(g)
    ensures Taken(g, e) <==> e.index < Used(g, e.port)
  {
    hide Taken;
    if g == [] {
      assert !Taken(g, e) by { NothingYet(); }
    } else {
      var front, last := g[..|g| - 1], g[|g| - 1];
      ReplayPrefix(g, |front|);
      TakenIffBelow(front, e);
      assert g == front + [last] && Bindable(front, last);
      TakenSnoc(front, last, e);
    }
  }

  /** No end is bound twice. */
  lemma EndsBoundOnce(g: seq<Connection>, j: nat, k: nat, e: End)
    requires Replayable(g) && NoLoops(g) && j < k < |g|
    ensures !(UsesEnd(g[j], e) && UsesEnd(g[k], e))
  {
    ReplayPrefix(g, k);
    TakenIffBelow(g[..k], e);
    assert Bindable(g[..k], g[k]);
    if UsesEnd(g[j], e) {
      assert UsesEnd(g[..k][j], e);
    }
  }

  /** Whatever the list, what a pass makes is replayable and is taken from the list. */
  lemma {:induction false} GreedyReplayable(s: seq<Connection>)
    ensures Replayable(Greedy(s))
    ensures forall c :: c in Greedy(s) ==> c in s
  {
    if s != [] {
      GreedyReplayable(s[..|s| - 1]);
      var g, last := Greedy(s[..|s| - 1]), s[|s| - 1];
      if Bindable(g, last) {
        assert (g + [last])[..|g|] == g;
        forall k | 0 <= k < |g|
          ensures Bindable((g + [last])[..k], (g + [last])[k])
        {
          assert (g + [last])[..k] == g[..k];
        }
      }
    }
  }

  // ----- Each connection once

  /** A connection list as bind_ports asks for: every connection in both directions, none listed
      twice, none from an end to itself. */
  ghost predicate Listing(conns: seq<Connection>) {
    && Distinct(conns) && NoLoops(conns)
    && forall c :: c in conns ==> Reverse(c) in conns
  }

  /** The connection is in g in one direction or the other. */
  ghost predicate Covered(g: seq<Connection>, c: Connection) {
    c in g || Reverse(c) in g
  }

  lemma NotBothWays(g: seq<Connection>, c: Connection)
    requires Replayable(g) && NoLoops(g)
    ensures !(c in g && Reverse(c) in g)
    ensures Distinct(g)
  {
    hide Replayable;
    forall i, j | 0 <= i < j < |g|
      ensures g[i] != g[j] && g[i] != Reverse(g[j])
    {
      EndsBoundOnce(g, i, j, g[i].from);
    }
  }

  function Reversed(g: seq<Connection>): seq<Connection> {
    seq(|g|, k requires 0 <= k < |g| => Reverse(g[k]))
  }

  lemma BothWaysDistinct(g: seq<Connection>)
    requires Replayable(g) && NoLoops(g)
    ensures Distinct(g + Reversed(g)) && |Reversed(g)| == |g|
  {
    hide Replayable;
    var both := g + Reversed(g);
    if g != [] {
      NotBothWays(g, g[0]);
    }
    forall i, j | 0 <= i < j < |both| ensures both[i] != both[j] {
      if i < |g| <= j {
        assert both[j] == Reverse(g[j - |g|]) && g[j - |g|] in g && g[i] in g;
        NotBothWays(g, g[i]);
      } else if i >= |g| {
        assert both[i] == Reverse(g[i - |g|]) && both[j] == Reverse(g[j - |g|]);
      }
    }
  }

  lemma InBothWays(g: seq<Connection>, c: Connection)
    ensures c in g + Reversed(g) <==> Covered(g, c)
  {
    var both := g + Reversed(g);
    if c in g {
      var k :| 0 <= k < |g| && g[k] == c;
      assert both[k] == c;
    } else if Reverse(c) in g {
      var k :| 0 <= k < |g| && g[k] == Reverse(c);
      assert both[|g| + k] == c;
    }
    if c in both {
      var k :| 0 <= k < |both| && both[k] == c;
      assert k >= |g| ==> g[k - |g|] in g && Reverse(c) == g[k - |g|];
    }
  }

  /** Half as many connections as are listed have been made exactly when each was made in one
      direction or the other. */
  lemma HalfIffCovered(conns: seq<Connection>, g: seq<Connection>)
    requires Listing(conns) && Replayable(g) && NoLoops(g) && forall c :: c in g ==> c in conns
    ensures 2 * |g| == |conns| <==> forall c :: c in conns ==> Covered(g, c)
  {
    hide Replayable, Reversed, Distinct;
    var both := g + Reversed(g);
    BothWaysDistinct(g);
    forall c ensures c in both <==> Covered(g, c) {
      InBothWays(g, c);
    }
    forall c | c in both ensures c in conns {
      assert c == Reverse(Reverse(c));
    }
    AllIffAsMany(both, conns);
  }

  /** If the pass makes half the connections, it makes each in exactly one direction. */
  lemma EachOnce(conns: seq<Connection>, c: Connection)
    requires Listing(conns) && c in conns && 2 * |Greedy(Sort(InOrder, conns))| == |conns|
    ensures c in Greedy(Sort(InOrder, conns)) <==> Reverse(c) !in Greedy(Sort(InOrder, conns))
  {
    hide Sort, Greedy, Replayable;
    GreedyOfListing(conns);
    HalfIffCovered(conns, Greedy(Sort(InOrder, conns)));
    NotBothWays(Greedy(Sort(InOrder, conns)), c);
  }

  lemma GreedyOfListing(conns: seq<Connection>)
    requires Listing(conns)
    ensures var g := Greedy(Sort(InOrder, conns));
            Replayable(g) && NoLoops(g) && forall c :: c in g ==> c in conns
  {
    hide Sort, Greedy, Replayable;
    var s := Sort(InOrder, conns);
    GreedyReplayable(s);
    SortPermutes(InOrder, conns);
    forall c | c in Greedy(s)
      ensures c in conns
    {
      assert c in multiset(s);
    }
    forall k | 0 <= k < |Greedy(s)|
      ensures Greedy(s)[k].from != Greedy(s)[k].to
    {
      var c := Greedy(s)[k];
      assert c in conns;
      var j :| 0 <= j < |conns| && conns[j] == c;
    }
  }

  // ----- The greedy pass misses nothing that its order allows

  /** t results from s by leaving elements out. */
  ghost predicate Subsequence(t: seq<Connection>, s: seq<Connection>) {
    if s == [] then t == []
    else
      var front := s[..|s| - 1];
      || Subsequence(t, front)
      || (t != [] && t[|t| - 1] == s[|s| - 1] && Subsequence(t[..|t| - 1], front))
  }

  lemma {:induction false} GreedySubsequence(s: seq<Connection>)
    ensures Subsequence(Greedy(s), s)
  {
    if s != [] {
      GreedySubsequence(s[..|s| - 1]);
      var g, last := Greedy(s[..|s| - 1]), s[|s| - 1];
      assert (g + [last])[..|g + [last]| - 1] == g;
    }
  }

  /** If g has made everything that a replayable order `full` makes before c, and nothing foreign
      to it, but not c itself, then the ends of c are the next free ones. */
  lemma NextFree(g: seq<Connection>, full: seq<Connection>, n: nat, e: End)
    requires Replayable(g) && NoLoops(g) && Replayable(full) && NoLoops(full) && n < |full|
    requires forall k :: 0 <= k < n ==> Covered(g, full[k])
    requires forall x :: x in g ==> Covered(full, x)
    requires !Covered(g, full[n]) && UsesEnd(full[n], e)
    ensures Used(g, e.port) == e.index
  {
    hide Used, Replayable;
    var t := full[..n];
    ReplayPrefix(full, n);
    assert Used(t, e.port) == e.index by { ReplayedAt(full, n, e); }
    TakenIffBelow(g, e);
    if e.index < Used(g, e.port) {
      var j :| 0 <= j < |g| && UsesEnd(g[j], e);
      assert Covered(full, g[j]);
      var x := if g[j] in full then g[j] else Reverse(g[j]);
      var k :| 0 <= k < |full| && full[k] == x;
      assert UsesEnd(full[k], e);
      if k < n {
        EndsBoundOnce(full, k, n, e);
      } else if n < k {
        EndsBoundOnce(full, n, k, e);
      }
    } else if Used(g, e.port) < e.index {
      var free := End(e.port, Used(g, e.port));
      TakenIffBelow(t, free);
      TakenIffBelow(g, free);
    }
  }

  lemma ReplayedAt(g: seq<Connection>, k: nat, e: End)
    requires Replayable(g) && k < |g| && UsesEnd(g[k], e)
    ensures Used(g[..k], e.port) == e.index
  {
    assert Bindable(g[..k], g[k]);
  }

  /** The pass over s makes, in one direction or the other, everything in the part t of s that a
      replayable order of all the connections starts with. */
  lemma {:induction false} GreedyCovers(s: seq<Connection>, t: seq<Connection>,
                                        full: seq<Connection>)
    requires Subsequence(t, s) && t <= full && Replayable(full) && NoLoops(full) && NoLoops(s)
    requires forall c :: c in s ==> Covered(full, c)
    ensures forall c :: c in t ==> Covered(Greedy(s), c)
    decreases |s|
  {
    hide Used, Replayable;
    if s != [] {
      var front, last := s[..|s| - 1], s[|s| - 1];
      var g := Greedy(front);
      if Subsequence(t, front) {
        GreedyCovers(front, t, full);
      } else {
        var n := |t| - 1;
        GreedyCovers(front, t[..n], full);
        GreedyReplayable(front);
        assert NoLoops(g) by { GreedyNoLoops(front); }
        assert full[n] == last && t == t[..n] + [last];
        assert forall k :: 0 <= k < n ==> full[k] in t[..n] by {
          assert forall k :: 0 <= k < n ==> t[..n][k] == full[k];
        }
        if !Covered(g, last) {
          NextFree(g, full, n, last.from);
          NextFree(g, full, n, last.to);
        }
      }
    }
  }

  lemma GreedyNoLoops(s: seq<Connection>)
    requires NoLoops(s)
    ensures NoLoops(Greedy(s))
  {
    hide Greedy, Replayable;
    GreedyReplayable(s);
    forall k | 0 <= k < |Greedy(s)|
      ensures Greedy(s)[k].from != Greedy(s)[k].to
    {
      assert Greedy(s)[k] in s;
    }
  }

  /** Connections picked from the sorted list, in its order, that cover it and replay. */
  ghost predicate Selection(conns: seq<Connection>, t: seq<Connection>) {
    && Subsequence(t, Sort(InOrder, conns)) && Replayable(t)
    && forall c :: c in conns ==> Covered(t, c)
  }

  /** The greedy pass binds every connection exactly when some choice of one direction for each,
      kept in sorted order, replays: nothing cleverer over the same order succeeds more often. */
  lemma BindsIffSelection(conns: seq<Connection>)
    requires Listing(conns)
    ensures 2 * |Greedy(Sort(InOrder, conns))| == |conns| <==> exists t :: Selection(conns, t)
  {
    hide Sort, Greedy, Replayable, Subsequence;
    var s := Sort(InOrder, conns);
    GreedyOfListing(conns);
    HalfIffCovered(conns, Greedy(s));
    if 2 * |Greedy(s)| == |conns| {
      GreedySubsequence(s);
      assert Selection(conns, Greedy(s));
    }
    if t :| Selection(conns, t) {
      SelectionCovered(conns, t);
    }
  }

  lemma {:induction false} SubsequenceWithin(t: seq<Connection>, s: seq<Connection>)
    requires Subsequence(t, s)
    ensures forall c :: c in t ==> c in s
  {
    if s != [] {
      var front := s[..|s| - 1];
      if Subsequence(t, front) {
        SubsequenceWithin(t, front);
      } else {
        SubsequenceWithin(t[..|t| - 1], front);
        assert t == t[..|t| - 1] + [t[|t| - 1]];
      }
    }
  }

  lemma SelectionCovered(conns: seq<Connection>, t: seq<Connection>)
    requires Listing(conns) && Selection(conns, t)
    ensures forall c :: c in conns ==> Covered(Greedy(Sort(InOrder, conns)), c)
  {
    hide Sort, Greedy, Replayable, Subsequence;
    var s := Sort(InOrder, conns);
    SortPermutes(InOrder, conns);
    assert forall c :: c in s <==> c in multiset(conns) by {
      assert forall c :: c in s <==> c in multiset(s);
    }
    SubsequenceWithin(t, s);
    NoLoopsWithin(t, conns);
    NoLoopsWithin(s, conns);
    GreedyCovers(s, t, t);
  }

  lemma NoLoopsWithin(t: seq<Connection>, conns: seq<Connection>)
    requires NoLoops(conns) && forall c :: c in t ==> c in conns
    ensures NoLoops(t)
  {
    forall k | 0 <= k < |t|
      ensures t[k].from != t[k].to
    {
      assert t[k] in conns;
    }
  }

  // ----- When a connection list cannot be bound

  lemma {:induction false} UsedGrows(g: seq<Connection>, a: nat, b: nat, p: Port)
    requires a <= b <= |g|
    ensures Used(g[..a], p) <= Used(g[..b], p)
  {
    if a < b {
      UsedGrows(g, a, b - 1, p);
      assert g[..b][..b - 1] == g[..b - 1];
    }
  }

  /** Of two ends of a port, the one with the lower index is bound first. */
  lemma LowerIndexFirst(g: seq<Connection>, j: nat, k: nat, d: End, e: End)
    requires Replayable(g) && j < |g| && k < |g| && UsesEnd(g[j], d) && UsesEnd(g[k], e)
    requires d.port == e.port && d.index < e.index
    ensures j < k
  {
    hide Used, Replayable;
    ReplayedAt(g, j, d);
    ReplayedAt(g, k, e);
    if k <= j {
      UsedGrows(g, k, j, d.port);
    }
  }

  lemma CoveredAt(g: seq<Connection>, c: Connection) returns (k: nat)
    requires Covered(g, c)
    ensures k < |g| && UsesEnd(g[k], c.from) && UsesEnd(g[k], c.to)
  {
    if c in g {
      k :| 0 <= k < |g| && g[k] == c;
    } else {
      k :| 0 <= k < |g| && g[k] == Reverse(c);
    }
  }

  /** The comment in the source says that one direction of every pair is bindable "because the
      connections are sorted". It is not: two connections between the same ports whose indices
      cross are never both made, in whatever list they are. */
  lemma CrossedNeverBinds(conns: seq<Connection>, c: Connection, d: Connection)
    requires Listing(conns) && c in conns && d in conns
    requires c.from.port == d.from.port && c.to.port == d.to.port
    requires c.from.index < d.from.index && d.to.index < c.to.index
    ensures 2 * |Greedy(Sort(InOrder, conns))| != |conns|
  {
    hide Sort, Greedy, Replayable, Used;
    var g := Greedy(Sort(InOrder, conns));
    GreedyOfListing(conns);
    HalfIffCovered(conns, g);
    if 2 * |g| == |conns| {
      var j := CoveredAt(g, c);
      var k := CoveredAt(g, d);
      LowerIndexFirst(g, j, k, c.from, d.from);
      LowerIndexFirst(g, k, j, d.to, c.to);
    }
  }

  /** And even where some order of all the connections replays, the pass may not find one. */
  lemma DelayedNotBound(a: Port, b: Port, r: Port, s: Port)
    requires a == Port("a", "p") && b == Port("b", "p") && r == Port("r", "p") && s == Port("s", "p")
    ensures var conns := [Connection(End(a, 0), End(r, 1)), Connection(End(a, 1), End(b, 0)),
                          Connection(End(b, 0), End(a, 1)), Connection(End(r, 0), End(s, 0)),
                          Connection(End(r, 1), End(a, 0)), Connection(End(s, 0), End(r, 0))];
            && Listing(conns) && 2 * |Greedy(Sort(InOrder, conns))| != |conns|
            && exists t :: Replayable(t) && forall c :: c in conns ==> Covered(t, c)
  {
    var a0r1, a1b0 := Connection(End(a, 0), End(r, 1)), Connection(End(a, 1), End(b, 0));
    var b0a1, r0s0 := Connection(End(b, 0), End(a, 1)), Connection(End(r, 0), End(s, 0));
    var r1a0, s0r0 := Connection(End(r, 1), End(a, 0)), Connection(End(s, 0), End(r, 0));
    var conns := [a0r1, a1b0, b0a1, r0s0, r1a0, s0r0];
    assert a != b && a != r && a != s && b != r && b != s && r != s by {
      assert "a"[0] != "b"[0] && "r"[0] != "s"[0] && "a"[0] != "r"[0] && "b"[0] != "s"[0];
      assert "a"[0] != "s"[0] && "b"[0] != "r"[0];
    }
    hide Sort, Greedy, Replayable, Sorted, Listing, Covered;
    DelayedListing(a, b, r, s, conns);
    assert Sorted(InOrder, conns) by { DelayedSorted(a, b, r, s, conns); }
    SortOfSorted(InOrder, conns);
    DelayedPass(a, b, r, s, conns);
    DelayedReplays(a, b, r, s);
    assert [conns[3], conns[4], conns[1]] == [r0s0, r1a0, a1b0];
  }

  lemma DelayedListing(a: Port, b: Port, r: Port, s: Port, conns: seq<Connection>)
    requires a != b && a != r && a != s && b != r && b != s && r != s
    requires conns == [Connection(End(a, 0), End(r, 1)), Connection(End(a, 1), End(b, 0)),
                       Connection(End(b, 0), End(a, 1)), Connection(End(r, 0), End(s, 0)),
                       Connection(End(r, 1), End(a, 0)), Connection(End(s, 0), End(r, 0))]
    ensures Listing(conns)
    ensures forall c :: c in conns ==> Covered([conns[3], conns[4], conns[1]], c)
  {
    var t := [conns[3], conns[4], conns[1]];
    assert t[0] == conns[3] && t[1] == conns[4] && t[2] == conns[1];
    assert Reverse(conns[0]) == conns[4] && Reverse(conns[1]) == conns[2];
    assert Reverse(conns[3]) == conns[5];
  }

  lemma DelayedSorted(a: Port, b: Port, r: Port, s: Port, conns: seq<Connection>)
    requires a == Port("a", "p") && b == Port("b", "p") && r == Port("r", "p") && s == Port("s", "p")
    requires conns == [Connection(End(a, 0), End(r, 1)), Connection(End(a, 1), End(b, 0)),
                       Connection(End(b, 0), End(a, 1)), Connection(End(r, 0), End(s, 0)),
                       Connection(End(r, 1), End(a, 0)), Connection(End(s, 0), End(r, 0))]
    ensures Sorted(InOrder, conns)
  {
    assert Text.CompareStrings("p", "p") == 0 by { Text.CompareStringsOrder("p", "p", "p"); }
    assert Text.CompareStrings("a", "a") == 0 by { Text.CompareStringsOrder("a", "a", "a"); }
    assert Text.CompareStrings("r", "r") == 0 by { Text.CompareStringsOrder("r", "r", "r"); }
    assert Text.CompareStrings("a", "b") < 0 && Text.CompareStrings("a", "r") < 0 && Text.CompareStrings("a", "s") < 0;
    assert Text.CompareStrings("b", "r") < 0 && Text.CompareStrings("b", "s") < 0 && Text.CompareStrings("r", "s") < 0;
    hide Text.CompareStrings;
    forall i, j | 0 <= i < j < |conns|
      ensures InOrder(conns[i], conns[j])
    {
    }
  }

  /** The first three are not next free: nothing is made of the ports with a lower index. */
  lemma DelayedFirst(a: Port, b: Port, r: Port, c0: Connection, c1: Connection, c2: Connection)
    requires a != b && a != r && b != r
    requires c0 == Connection(End(a, 0), End(r, 1))
    requires c1 == Connection(End(a, 1), End(b, 0)) && c2 == Reverse(c1)
    ensures Greedy([] + [c0] + [c1] + [c2]) == []
  {
    hide Greedy, Used;
    NothingYet();
    GreedySnoc([], c0);
    GreedySnoc([] + [c0], c1);
    GreedySnoc([] + [c0] + [c1], c2);
  }

  /** Two of the others are made, and the last is the reverse of one of them. */
  lemma DelayedRest(a: Port, r: Port, s: Port, first: seq<Connection>, c3: Connection,
                    c4: Connection, c5: Connection)
    requires a != r && a != s && r != s && Greedy(first) == []
    requires c3 == Connection(End(r, 0), End(s, 0)) && c5 == Reverse(c3)
    requires c4 == Connection(End(r, 1), End(a, 0))
    ensures Greedy(first + [c3] + [c4] + [c5]) == [] + [c3] + [c4]
  {
    hide Greedy, Used;
    NothingYet();
    GreedySnoc(first, c3);
    UsedSnoc([], c3, r);
    UsedSnoc([], c3, s);
    UsedSnoc([], c3, a);
    GreedySnoc(first + [c3], c4);
    UsedSnoc([] + [c3], c4, r);
    UsedSnoc([] + [c3], c4, s);
    GreedySnoc(first + [c3] + [c4], c5);
  }

  lemma DelayedPass(a: Port, b: Port, r: Port, s: Port, conns: seq<Connection>)
    requires a != b && a != r && a != s && b != r && b != s && r != s
    requires conns == [Connection(End(a, 0), End(r, 1)), Connection(End(a, 1), End(b, 0)),
                       Connection(End(b, 0), End(a, 1)), Connection(End(r, 0), End(s, 0)),
                       Connection(End(r, 1), End(a, 0)), Connection(End(s, 0), End(r, 0))]
    ensures |Greedy(conns)| == 2
  {
    hide Greedy;
    var first := [] + [conns[0]] + [conns[1]] + [conns[2]];
    DelayedFirst(a, b, r, conns[0], conns[1], conns[2]);
    DelayedRest(a, r, s, first, conns[3], conns[4], conns[5]);
    assert conns == first + [conns[3]] + [conns[4]] + [conns[5]];
  }

  lemma GreedyStep(s: seq<Connection>, k: nat)
    requires k < |s|
    ensures Greedy(s[..k + 1]) ==
            if Bindable(Greedy(s[..k]), s[k]) then Greedy(s[..k]) + [s[k]] else Greedy(s[..k])
    ensures k == 0 ==> Greedy(s[..0]) == []
  {
    assert s[..k + 1][..k] == s[..k];
  }

  lemma GreedySnoc(s: seq<Connection>, c: Connection)
    ensures Greedy(s + [c]) == if Bindable(Greedy(s), c) then Greedy(s) + [c] else Greedy(s)
  {
    assert (s + [c])[..|s + [c]| - 1] == s;
  }

  lemma UsedSnoc(g: seq<Connection>, c: Connection, p: Port)
    ensures Used(g + [c], p) ==
            Used(g, p) + (if c.from.port == p then 1 else 0) + if c.to.port == p then 1 else 0
  {
    assert (g + [c])[..|g + [c]| - 1] == g;
  }

  lemma DelayedReplays(a: Port, b: Port, r: Port, s: Port)
    requires a != b && a != r && a != s && b != r && b != s && r != s
    ensures Replayable([Connection(End(r, 0), End(s, 0)), Connection(End(r, 1), End(a, 0)),
                        Connection(End(a, 1), End(b, 0))])
  {
    var x, y, z := Connection(End(r, 0), End(s, 0)), Connection(End(r, 1), End(a, 0)),
                   Connection(End(a, 1), End(b, 0));
    var t := [x, y, z];
    assert t[..0] == [] && t[..1] == [] + [x] && t[..2] == [] + [x] + [y];
    UsedSnoc([], x, r);
    UsedSnoc([], x, a);
    UsedSnoc([], x, b);
    UsedSnoc([] + [x], y, a);
    UsedSnoc([] + [x], y, b);
  }

  // ----- The program

  datatype Result = KeyError | CannotOrder | Bound(made: seq<Connection>)

  ghost predicate Known(conns: seq<Connection>, p: Port) {
    exists k :: 0 <= k < |conns| && conns[k].from.port == p
  }

  method ResetIndices(conns: seq<Connection>) returns (next: map<Port, nat>)
    ensures forall p :: p in next <==> Known(conns, p)
    ensures forall p :: p in next ==> next[p] == 0
  {
    next := map[];
    for k := 0 to |conns|
      invariant forall p :: p in next <==> exists i :: 0 <= i < k && conns[i].from.port == p
      invariant forall p :: p in next ==> next[p] == 0
    {
      next := next[conns[k].from.port := 0];
    }
  }

  /** Bind all ports of a connection list. It succeeds exactly when half the listed connections
      could be made, and then the connections made replay to the recorded indices; the KeyError
      can only come from a port that is on one side of the list. */
  method BindPorts(conns: seq<Connection>) returns (r: Result)
    ensures r.KeyError? ==> exists c :: c in conns && !Known(conns, c.to.port)
    ensures Listing(conns) ==> !r.KeyError?
    ensures !r.KeyError? ==> (r.Bound? <==> 2 * |Greedy(Sort(InOrder, conns))| == |conns|)
    ensures r.Bound? ==> r.made == Greedy(Sort(InOrder, conns)) && Replayable(r.made)
    ensures r.Bound? && Listing(conns) ==>
              forall c :: c in conns ==> (c in r.made <==> Reverse(c) !in r.made)
  {
    hide Sort, Greedy, Used, Replayable, Known, InOrder;
    var next := ResetIndices(conns);
    var s := Sort(InOrder, conns);
    var made := [];
    SortKeepsElements(conns);
    NothingYet();
    assert s[..0] == [];
    for k := 0 to |s|
      invariant made == Greedy(s[..k])
      invariant forall p :: p in next <==> Known(conns, p)
      invariant forall p :: p in next ==> next[p] == Used(made, p)
    {
      var c := s[k];
      GreedyStep(s, k);
      assert c in conns && Known(conns, c.from.port) by { FromKnown(conns, c); }
      if next[c.from.port] == c.from.index {
        if c.to.port !in next {
          if Listing(conns) {
            FromKnown(conns, Reverse(c));
          }
          return KeyError;
        }
        if next[c.to.port] == c.to.index {
          forall p ensures Used(made + [c], p) == Used(made, p)
            + (if c.from.port == p then 1 else 0) + (if c.to.port == p then 1 else 0)
          {
            UsedSnoc(made, c, p);
          }
          made := made + [c];
          next := next[c.from.port := next[c.from.port] + 1];
          next := next[c.to.port := next[c.to.port] + 1];
        }
      } else {
        assert !Bindable(made, c);
      }
    }
    assert s[..|s|] == s;
    if |made| * 2 != |conns| {
      return CannotOrder;
    }
    GreedyReplayable(s);
    if Listing(conns) {
      forall c | c in conns
        ensures c in made <==> Reverse(c) !in made
      {
        EachOnce(conns, c);
      }
    }
    r := Bound(made);
  }

  lemma NothingYet()
    ensures Greedy([]) == [] && (forall p :: Used([], p) == 0) && forall e :: !Taken([], e)
  {
  }

  lemma FromKnown(conns: seq<Connection>, c: Connection)
    requires c in conns
    ensures Known(conns, c.from.port)
  {
  }

  lemma SortKeepsElements(conns: seq<Connection>)
    ensures forall c :: c in Sort(InOrder, conns) <==> c in conns
  {
    hide Sort;
    SortPermutes(InOrder, conns);
    var s := Sort(InOrder, conns);
    forall c ensures c in s <==> c in conns {
      assert c in s <==> c in multiset(s);
      assert c in conns <==> c in multiset(conns);
    }
  }
}
