/** The memory tester: a tree of caches with testers at every level. */
module MemTestTree {
  import opened Arithmetic
  import Text

  // ----- Counting testers

  /** The product of the first k elements. */
  function Product(cs: seq<int>, k: nat): int
    requires k <= |cs|
  {
    if k == 0 then 1 else Product(cs, k - 1) * cs[k - 1]
  }

  /** The testers of the first k levels, counted from the memory: so many for each subsystem. */
  function Testers(cs: seq<int>, ts: seq<int>, k: nat): int
    requires k <= |ts| && k <= |cs| + 1
  {
    if k == 0 then 0 else Testers(cs, ts, k - 1) + ts[k - 1] * Product(cs, k - 1)
  }

  method NumTesters(cs: seq<int>, ts: seq<int>) returns (total: int)
    ensures total == Testers(cs, ts, Min(|ts|, |cs| + 1))
  {
    var multiplier := [1];
    for k := 0 to |cs|
      invariant |multiplier| == k + 1
      invariant forall j :: 0 <= j <= k ==> multiplier[j] == Product(cs, j)
    {
      multiplier := multiplier + [multiplier[|multiplier| - 1] * cs[k]];
    }
    total := 0;
    for k := 0 to Min(|ts|, |multiplier|)
      invariant total == Testers(cs, ts, k)
    {
      total := total + ts[k] * multiplier[k];
    }
  }

  /** The testers of a tree whose fan-outs and testers are given from its root on. */
  function TreeTesters(cs: seq<int>, ts: seq<int>): int
    requires |ts| == |cs| + 1
  {
    ts[0] + if cs == [] then 0 else cs[0] * TreeTesters(cs[1..], ts[1..])
  }

  lemma {:induction false} ProductFirst(cs: seq<int>, k: nat)
    requires 0 < k <= |cs|
    ensures Product(cs, k) == cs[0] * Product(cs[1..], k - 1)
  {
    if k > 1 {
      ProductFirst(cs, k - 1);
      var p := Product(cs[1..], k - 2);
      assert cs[0] * p * cs[k - 1] == cs[0] * (p * cs[k - 1]);
    }
  }

  lemma {:induction false} TestersFirst(cs: seq<int>, ts: seq<int>, k: nat)
    requires 0 < k <= |ts| && k <= |cs| + 1 && |cs| > 0
    ensures Testers(cs, ts, k) == ts[0] + cs[0] * Testers(cs[1..], ts[1..], k - 1)
  {
    if k == 1 {
      assert Testers(cs, ts, 0) == 0 && Product(cs, 0) == 1;
    } else {
      TestersFirst(cs, ts, k - 1);
      ProductFirst(cs, k - 1);
      var t, q, c := Testers(cs[1..], ts[1..], k - 2), Product(cs[1..], k - 2), cs[0];
      assert c * t + ts[k - 1] * (c * q) == c * (t + ts[k - 1] * q);
    }
  }

  /** Counting level by level is counting along the tree. */
  lemma {:induction false} LevelsAreTree(cs: seq<int>, ts: seq<int>)
    requires |ts| == |cs| + 1
    ensures Testers(cs, ts, |ts|) == TreeTesters(cs, ts)
  {
    if cs == [] {
      assert Testers(cs, ts, 0) == 0 && Product(cs, 0) == 1;
    } else {
      LevelsAreTree(cs[1..], ts[1..]);
      TestersFirst(cs, ts, |ts|);
    }
  }

  // ----- Cache prototypes

  datatype Cache = Cache(size: int, latency: int, assoc: int, mshrs: int,
                         inclusive: bool, writebackClean: bool)

  function Scaled(c: Cache, scale: int): Cache {
    Cache(c.size * scale, c.latency * 10, c.assoc * scale, c.mshrs * scale,
          !c.inclusive, !c.writebackClean)
  }

  function Power10(k: nat): nat {
    if k == 0 then 1 else 10 * Power10(k - 1)
  }

  /** The prototype k levels below the first-level cache: capacities scale with the fan-outs,
      latencies with ten, and inclusion alternates. */
  predicate IsLevel(l1: Cache, cs: seq<int>, k: nat, c: Cache)
    requires k <= |cs|
  {
    && c.size == l1.size * Product(cs, k) && c.assoc == l1.assoc * Product(cs, k)
    && c.mshrs == l1.mshrs * Product(cs, k) && c.latency == l1.latency * Power10(k)
    && c.inclusive == (l1.inclusive == (k % 2 == 0))
    && c.writebackClean == (l1.writebackClean == (k % 2 == 0))
  }

  lemma ScaledIsLevel(l1: Cache, cs: seq<int>, k: nat, c: Cache)
    requires k < |cs| && IsLevel(l1, cs, k, c)
    ensures IsLevel(l1, cs, k + 1, Scaled(c, cs[k]))
  {
    var p, t := Product(cs, k), Power10(k);
    assert forall x: int :: (x * p) * cs[k] == x * (p * cs[k]);
    assert l1.latency * t * 10 == l1.latency * (10 * t);
  }

  /** One prototype for each level of caches, the one nearest to memory first. */
  method Prototypes(l1: Cache, cs: seq<int>) returns (protos: seq<Cache>)
    requires cs != []
    ensures |protos| == |cs|
    ensures forall k :: 0 <= k < |cs| ==> IsLevel(l1, cs, |cs| - 1 - k, protos[k])
    ensures protos[|cs| - 1] == l1
    ensures forall k :: 0 < k < |cs| ==>
              var outer, inner, scale := protos[k - 1], protos[k], cs[|cs| - 1 - k];
              && outer.size == inner.size * scale && outer.assoc == inner.assoc * scale
              && outer.mshrs == inner.mshrs * scale && outer.latency == inner.latency * 10
              && outer.inclusive != inner.inclusive && outer.writebackClean != inner.writebackClean
  {
    protos := [l1];
    for j := 0 to |cs| - 1
      invariant |protos| == j + 1
      invariant forall k :: 0 <= k <= j ==> IsLevel(l1, cs, j - k, protos[k])
      invariant protos[j] == l1
      invariant forall k :: 0 < k <= j ==> protos[k - 1] == Scaled(protos[k], cs[j - k])
    {
      ScaledIsLevel(l1, cs, j, protos[0]);
      protos := [Scaled(protos[0], cs[j])] + protos;
    }
  }

  // ----- Building the tree

  /** How many subsystems there are on a level below one that is level levels up. */
  function Fan(cs: seq<int>, level: nat, l: nat): int
    requires l <= level == |cs|
  {
    Product(cs, level - l)
  }

  datatype Subsystem = Subsystem(level: nat, index: nat, testers: nat, testerCaches: nat,
                                 treeCaches: seq<Cache>, xbar: bool)

  function Name(level: nat, index: nat): string {
    "l" + Text.Decimal(level) + "subsys" + Text.Decimal(index)
  }

  /** How many of the subsystems are on the level. */
  function OnLevel(subs: seq<Subsystem>, level: nat): nat {
    if subs == [] then 0
    else OnLevel(subs[..|subs| - 1], level) + if subs[|subs| - 1].level == level then 1 else 0
  }

  function Total(subs: seq<Subsystem>): nat {
    if subs == [] then 0 else Total(subs[..|subs| - 1]) + subs[|subs| - 1].testers
  }

  /** What the options have been checked for. */
  predicate Accepted(cs: seq<int>, ts: seq<int>) {
    && |cs| >= 1 && |ts| == |cs| + 1 && ts[|cs|] != 0
    && (forall k :: 0 <= k < |ts| ==> ts[k] >= 0)
    && (forall k :: 0 <= k < |cs| ==> cs[k] >= 1)
  }

  /** A subsystem as the options ask for on its level. */
  predicate Proper(cs: seq<int>, ts: seq<int>, protos: seq<Cache>, s: Subsystem)
    requires |ts| == |cs| + 1 && |protos| == |cs|
  {
    && s.level <= |cs| && s.testers == ts[|cs| - s.level]
    && (s.level == 0 ==> s.treeCaches == [] && s.testerCaches == 0 && (s.xbar <==> s.testers > 1))
    && (s.level > 0 ==>
          && s.testerCaches == s.testers && s.xbar
          && |s.treeCaches| == cs[|cs| - s.level]
          && forall k :: 0 <= k < |s.treeCaches| ==> s.treeCaches[k] == protos[|cs| - s.level])
  }

  lemma ProperAnyIndex(cs: seq<int>, ts: seq<int>, protos: seq<Cache>, s: Subsystem, index: nat)
    requires |ts| == |cs| + 1 && |protos| == |cs| && Proper(cs, ts, protos, s)
    ensures Proper(cs, ts, protos, s.(index := index))
  {
  }

  lemma AppendCounts(subs: seq<Subsystem>, s: Subsystem)
    ensures Total(subs + [s]) == Total(subs) + s.testers
    ensures forall l: nat ::
              OnLevel(subs + [s], l) == OnLevel(subs, l) + if s.level == l then 1 else 0
  {
    assert (subs + [s])[..|subs|] == subs;
  }

  class System {
    const cachespec: seq<int>
    const testerspec: seq<int>
    const protos: seq<Cache>
    var next: seq<nat>
    var subsystems: seq<Subsystem>

    ghost predicate Fixed() {
      Accepted(cachespec, testerspec) && |protos| == |cachespec|
    }

    /** Numbers are given out in order on each level, so that no name comes twice. */
    ghost predicate Valid()
      reads this
    {
      && Fixed() && |next| == |cachespec| + 1
      && (forall k :: 0 <= k < |subsystems| ==>
                        && Proper(cachespec, testerspec, protos, subsystems[k])
                        && subsystems[k].level < |next|
                        && subsystems[k].index < next[subsystems[k].level])
      && (forall j, k :: 0 <= j < k < |subsystems| ==>
                           || subsystems[j].level != subsystems[k].level
                           || subsystems[j].index != subsystems[k].index)
      && (forall l :: 0 <= l < |next| ==> next[l] == OnLevel(subsystems, l))
    }

    constructor (cachespec: seq<int>, testerspec: seq<int>, protos: seq<Cache>)
      requires Accepted(cachespec, testerspec) && |protos| == |cachespec|
      ensures Valid() && next == seq(|cachespec| + 1, k => 0)
      ensures subsystems == [] && Total(subsystems) == 0
      ensures this.cachespec == cachespec && this.testerspec == testerspec && this.protos == protos
    {
      this.cachespec, this.testerspec, this.protos := cachespec, testerspec, protos;
      next := seq(|cachespec| + 1, k => 0);
      subsystems := [];
    }

    /** A subsystem gets the next number of its level. */
    method Add(level: nat, testers: nat, testerCaches: nat, treeCaches: seq<Cache>, xbar: bool)
      requires Valid() && level <= |cachespec|
      requires Proper(cachespec, testerspec, protos,
                      Subsystem(level, 0, testers, testerCaches, treeCaches, xbar))
      modifies this
      ensures Valid() && next == old(next)[level := old(next)[level] + 1]
      ensures Total(subsystems) == old(Total(subsystems)) + testers
    {
      hide Proper, OnLevel, Total;
      ghost var sample := Subsystem(level, 0, testers, testerCaches, treeCaches, xbar);
      ProperAnyIndex(cachespec, testerspec, protos, sample, next[level]);
      var index := next[level];
      next := next[level := next[level] + 1];
      var sub := Subsystem(level, index, testers, testerCaches, treeCaches, xbar);
      AppendCounts(subsystems, sub);
      subsystems := subsystems + [sub];
    }

    /** A cache for each element that fans out, and a sub-tree behind each of them. */
    method FanOut(count: nat, rest: seq<int>, inner: seq<Cache>, level: nat)
      requires Valid() && level < |cachespec|
      requires rest == cachespec[|cachespec| - level..]
      requires inner == protos[|cachespec| - level..]
      modifies this
      ensures Valid() && Grew(old(next), next, rest, count)
      ensures Total(subsystems) == old(Total(subsystems)) +
                                   count * TreeTesters(rest, testerspec[|cachespec| - level..])
      decreases level, 1
    {
      hide Grew, TreeTesters, Total, Valid;
      Levels();
      ghost var start, before, ts := next, Total(subsystems), testerspec[|cachespec| - level..];
      GrewBase(start, rest);
      for k := 0 to count
        invariant Valid() && Grew(start, next, rest, k)
        invariant Total(subsystems) == before + k * TreeTesters(rest, ts)
      {
        ghost var mid := next;
        MakeCacheLevel(rest, inner, level, false);
        GrewAgain(start, mid, next, rest, k);
        MulNext(TreeTesters(rest, ts), k);
      }
    }

    method MakeCacheLevel(ncaches: seq<int>, prototypes: seq<Cache>, level: nat, top: bool)
      requires Valid() && level <= |cachespec| && (top <==> level == |cachespec|)
      requires ncaches == cachespec[|cachespec| - level..]
      requires prototypes == protos[|cachespec| - level..]
      modifies this
      ensures Valid() && Grew(old(next), next, ncaches, 1)
      ensures Total(subsystems) == old(Total(subsystems)) +
                                   TreeTesters(ncaches, testerspec[|cachespec| - level..])
      decreases level, 0
    {
      hide Total, OnLevel, Grew;
      var n := |cachespec|;
      var ntesters := testerspec[n - level];
      ghost var start := next;
      if level != 0 {
        var treeCaches := seq(ncaches[0], _ => prototypes[0]);
        Add(level, ntesters, ntesters, treeCaches, true);
        ghost var mid := next;
        FanOut(ncaches[0], ncaches[1..], prototypes[1..], level - 1);
        GrewBelow(start, mid, next, ncaches);
      } else {
        assert !top;
        Add(level, ntesters, 0, [], ntesters > 1);
        GrewBase(start, []);
      }
    }

    lemma Levels()
      requires Valid()
      ensures |next| == |testerspec| == |cachespec| + 1
    {
    }
  }

  /** The numbers given out for k trees with these fan-outs: on each level k times the product of
      the fan-outs below it, and nothing beneath the trees. */
  ghost predicate Grew(before: seq<nat>, after: seq<nat>, cs: seq<int>, k: nat) {
    && |before| == |after| > |cs|
    && (forall l :: |cs| < l < |before| ==> after[l] == before[l])
    && (forall l :: 0 <= l <= |cs| ==> after[l] == before[l] + k * Fan(cs, |cs|, l))
  }

  lemma GrewBase(before: seq<nat>, cs: seq<int>)
    requires |before| > |cs|
    ensures Grew(before, before, cs, 0)
    ensures Grew(before, before[0 := before[0] + 1], [], 1)
  {
  }

  lemma GrewAgain(before: seq<nat>, mid: seq<nat>, after: seq<nat>, cs: seq<int>, k: nat)
    requires Grew(before, mid, cs, k) && Grew(mid, after, cs, 1)
    ensures Grew(before, after, cs, k + 1)
  {
    hide Fan;
    forall l | 0 <= l <= |cs| ensures after[l] == before[l] + (k + 1) * Fan(cs, |cs|, l) {
      MulNext(Fan(cs, |cs|, l), k);
    }
  }

  lemma GrewBelow(before: seq<nat>, mid: seq<nat>, after: seq<nat>, cs: seq<int>)
    requires |cs| > 0 && cs[0] >= 0 && |before| > |cs|
    requires mid == before[|cs| := before[|cs|] + 1] && Grew(mid, after, cs[1..], cs[0])
    ensures Grew(before, after, cs, 1)
  {
    var n := |cs|;
    forall l | 0 <= l < n ensures after[l] == before[l] + Fan(cs, n, l) {
      assert after[l] == mid[l] + cs[0] * Fan(cs[1..], n - 1, l);
      ProductFirst(cs, n - l);
    }
  }

  // ----- The whole run

  datatype Complaint = NoLevels | WrongLengths | NoTopTesters | NegativeTesters | NoCaches
                     | TooManyTesters

  const BLOCK_SIZE := 64

  method Check(cs: seq<int>, ts: seq<int>) returns (bad: Text.Option<Complaint>)
    ensures bad.None? <==> Accepted(cs, ts) && Testers(cs, ts, |ts|) <= BLOCK_SIZE
    ensures bad == Text.Some(NoLevels) <==> |cs| < 1
    ensures bad == Text.Some(WrongLengths) <==> |cs| >= 1 && |ts| != |cs| + 1
    ensures bad == Text.Some(NoTopTesters) <==> |cs| >= 1 && |ts| == |cs| + 1 && ts[|cs|] == 0
    ensures bad == Text.Some(NegativeTesters) <==>
              && |cs| >= 1 && |ts| == |cs| + 1 && ts[|cs|] != 0
              && exists k :: 0 <= k < |ts| && ts[k] < 0
    ensures bad == Text.Some(NoCaches) <==>
              && |cs| >= 1 && |ts| == |cs| + 1 && ts[|cs|] != 0
              && (forall k :: 0 <= k < |ts| ==> ts[k] >= 0)
              && exists k :: 0 <= k < |cs| && cs[k] < 1
    ensures bad == Text.Some(TooManyTesters) <==>
              && |cs| >= 1 && |ts| == |cs| + 1 && ts[|cs|] != 0
              && (forall k :: 0 <= k < |ts| ==> ts[k] >= 0)
              && (forall k :: 0 <= k < |cs| ==> cs[k] >= 1)
              && Testers(cs, ts, |ts|) > BLOCK_SIZE
  {
    if |cs| < 1 {
      return Text.Some(NoLevels);
    }
    if |cs| != |ts| - 1 {
      return Text.Some(WrongLengths);
    }
    if ts[|ts| - 1] == 0 {
      return Text.Some(NoTopTesters);
    }
    for k := 0 to |ts|
      invariant forall j :: 0 <= j < k ==> ts[j] >= 0
    {
      if ts[k] < 0 {
        return Text.Some(NegativeTesters);
      }
    }
    for k := 0 to |cs|
      invariant forall j :: 0 <= j < k ==> cs[j] >= 1
    {
      if cs[k] < 1 {
        return Text.Some(NoCaches);
      }
    }
    var total := NumTesters(cs, ts);
    if total > BLOCK_SIZE {
      return Text.Some(TooManyTesters);
    }
    return Text.None;
  }

  /** The tree has exactly the testers that were counted in advance, at most one for each byte of
      a block, and on each level as many subsystems as the fan-outs below it multiply to. */
  method BuildTree(cs: seq<int>, ts: seq<int>, l1: Cache)
    returns (bad: Text.Option<Complaint>, subs: seq<Subsystem>)
    ensures bad.None? <==> Accepted(cs, ts) && Testers(cs, ts, |ts|) <= BLOCK_SIZE
    ensures bad.None? ==>
              && Total(subs) == Testers(cs, ts, |ts|)
              && (forall l :: 0 <= l <= |cs| ==> OnLevel(subs, l) == Fan(cs, |cs|, l))
              && (forall k :: 0 <= k < |subs| ==>
                    && subs[k].level <= |cs| && subs[k].testers == ts[|cs| - subs[k].level]
                    && subs[k].index < OnLevel(subs, subs[k].level)
                    && (subs[k].xbar <==> subs[k].level > 0 || subs[k].testers > 1)
                    && subs[k].testerCaches == (if subs[k].level > 0 then subs[k].testers else 0)
                    && (subs[k].level > 0 ==>
                          && |subs[k].treeCaches| == cs[|cs| - subs[k].level]
                          && forall c :: 0 <= c < |subs[k].treeCaches| ==>
                               IsLevel(l1, cs, subs[k].level - 1, subs[k].treeCaches[c])))
              && (forall j, k :: 0 <= j < k < |subs| ==>
                    Name(subs[j].level, subs[j].index) != Name(subs[k].level, subs[k].index))
  {
    hide Total, OnLevel, Testers, TreeTesters, Fan, IsLevel, Name;
    subs := [];
    bad := Check(cs, ts);
    if bad.Some? {
      return;
    }
    var protos := Prototypes(l1, cs);
    var system := new System(cs, ts, protos);
    assert cs[0..] == cs && ts[0..] == ts && protos[0..] == protos;
    system.MakeCacheLevel(cs, protos, |cs|, true);
    assert forall l :: 0 <= l <= |cs| ==> system.next[l] == 1 * Fan(cs, |cs|, l);
    LevelsAreTree(cs, ts);
    subs := system.subsystems;
    forall j, k | 0 <= j < k < |subs|
      ensures Name(subs[j].level, subs[j].index) != Name(subs[k].level, subs[k].index)
    {
      NamesDiffer(subs[j].level, subs[j].index, subs[k].level, subs[k].index);
    }
  }

  /** The name tells the level and the number. */
  lemma NamesDiffer(a: nat, i: nat, b: nat, j: nat)
    requires a != b || i != j
    ensures Name(a, i) != Name(b, j)
  {
    hide Text.Decimal, Text.Split, Text.ParseNat;
    if Name(a, i) == Name(b, j) {
      var x, y := Text.Decimal(a), Text.Decimal(b);
      NameSplit(a, i);
      NameSplit(b, j);
      assert ("l" + x)[1..] == x && ("l" + y)[1..] == y;
      assert Text.Split(Name(a, i), 's')[0][1..] == x && Text.Split(Name(b, j), 's')[0][1..] == y;
      assert Text.Split(Name(a, i), 's')[3] == Text.Decimal(i);
      assert Text.Split(Name(b, j), 's')[3] == Text.Decimal(j);
      Text.ParseDecimal(a);
      Text.ParseDecimal(b);
      Text.ParseDecimal(i);
      Text.ParseDecimal(j);
    }
  }

  lemma NameSplit(level: nat, index: nat)
    ensures Text.Split(Name(level, index), 's') ==
              ["l" + Text.Decimal(level), "ub", "y", Text.Decimal(index)]
  {
    hide Text.Decimal, Text.Split;
    var a, d := "l" + Text.Decimal(level), Text.Decimal(index);
    assert 's' !in a && 's' !in d;
    Text.SplitFirst(a, "ubsys" + d, 's');
    Text.SplitFirst("ub", "ys" + d, 's');
    Text.SplitFirst("y", d, 's');
    Text.SplitNone(d, 's');
    assert Name(level, index) == a + "s" + ("ubsys" + d);
    assert "ubsys" + d == "ub" + "s" + ("ys" + d);
    assert "ys" + d == "y" + "s" + d;
  }
}
