/** The print queue of the O3 pipeline viewer: instructions arrive out of order, and a queue of
    bounded length is sorted and partly printed whenever it overflows. */
module PipeSorter {
  import opened Sorting
  import Arithmetic

  /** One traced instruction: its sequence number and the tick of each pipeline stage, where 0
      means that the stage was not reached. */
  datatype Inst = Inst(sn: int, fetch: nat, decode: nat, rename: nat, dispatch: nat, issue: nat,
                       complete: nat, retire: nat, store: nat)

  datatype Options = Options(maxThreshold: nat, minThreshold: nat, snStart: int, snStop: int,
                             tickStart: int, tickStop: int, onlyCommitted: bool)

  predicate BySn(a: Inst, b: Inst) {
    a.sn <= b.sn
  }

  /** The instruction is within the requested boundaries. */
  predicate Wanted(o: Options, i: Inst) {
    && !(o.snStart > 0 && i.sn < o.snStart)
    && !(o.snStop > 0 && i.sn > o.snStop)
    && !(o.tickStart > 0 && i.fetch < o.tickStart)
    && !(o.tickStop > 0 && i.fetch > o.tickStop)
    && !(o.onlyCommitted && i.retire == 0)
  }

  function Filter(o: Options, s: seq<Inst>): seq<Inst> {
    if s == [] then []
    else Filter(o, s[..|s| - 1]) + if Wanted(o, s[|s| - 1]) then [s[|s| - 1]] else []
  }

  lemma FilterSnoc(o: Options, s: seq<Inst>, i: Inst)
    ensures Filter(o, s + [i]) == Filter(o, s) + if Wanted(o, i) then [i] else []
  {
    assert (s + [i])[..|s + [i]| - 1] == s;
  }

  /** From each start that is set on, up to each stop that is set, and retired if that is asked. */
  ghost predicate Within(o: Options, i: Inst) {
    && (o.snStart > 0 ==> o.snStart <= i.sn) && (o.snStop > 0 ==> i.sn <= o.snStop)
    && (o.tickStart > 0 ==> o.tickStart <= i.fetch) && (o.tickStop > 0 ==> i.fetch <= o.tickStop)
    && (o.onlyCommitted ==> i.retire != 0)
  }

  lemma {:induction false} FilterWithin(o: Options, s: seq<Inst>, i: Inst)
    ensures multiset(Filter(o, s))[i] == if Within(o, i) then multiset(s)[i] else 0
  {
    if s != [] {
      var front, last := s[..|s| - 1], s[|s| - 1];
      FilterWithin(o, front, i);
      assert s == front + [last];
    }
  }

  /** What has left the queue, in order, and what is still in it. */
  datatype State = State(popped: seq<Inst>, queue: seq<Inst>)

  /** Pop from the front of a sorted queue until only `lower` are left. */
  function Split(popped: seq<Inst>, q: seq<Inst>, lower: nat): (t: State)
    ensures |t.queue| == if |q| > lower then lower else |q|
    ensures t.popped + t.queue == popped + q
    ensures popped <= t.popped
  {
    var n := if |q| > lower then |q| - lower else 0;
    assert popped + q[..n] + q[n..] == popped + q by { assert q[..n] + q[n..] == q; }
    State(popped + q[..n], q[n..])
  }

  function Flush(s: State, lower: nat): State {
    Split(s.popped, Sort(BySn, s.queue), lower)
  }

  function Arrive(o: Options, s: State, i: Inst): State {
    var t := s.(queue := s.queue + [i]);
    if |t.queue| > o.maxThreshold then Flush(t, o.minThreshold) else t
  }

  function Run(o: Options, trace: seq<Inst>): State {
    if trace == [] then State([], [])
    else Arrive(o, Run(o, trace[..|trace| - 1]), trace[|trace| - 1])
  }

  /** Everything that is popped, in order, once the end of the trace flushes the queue. */
  function Output(o: Options, trace: seq<Inst>): seq<Inst> {
    Flush(Run(o, trace), 0).popped
  }

  // ----- Whatever the order: nothing is lost or repeated, and the queue stays short

  lemma FlushConserves(s: State, lower: nat)
    ensures var t := Flush(s, lower);
            multiset(t.popped + t.queue) == multiset(s.popped + s.queue)
  {
    SortPermutes(BySn, s.queue);
  }

  lemma ArriveConserves(o: Options, s: State, x: Inst)
    ensures var t := Arrive(o, s, x);
            multiset(t.popped + t.queue) == multiset(s.popped + s.queue) + multiset{x}
  {
    assert s.popped + (s.queue + [x]) == s.popped + s.queue + [x];
    FlushConserves(s.(queue := s.queue + [x]), o.minThreshold);
  }

  lemma {:induction false} RunConserves(o: Options, trace: seq<Inst>)
    ensures var s := Run(o, trace);
            multiset(s.popped + s.queue) == multiset(trace)
  {
    hide Arrive;
    if trace != [] {
      var front, last := trace[..|trace| - 1], trace[|trace| - 1];
      RunConserves(o, front);
      assert trace == front + [last];
      ArriveConserves(o, Run(o, front), last);
    }
  }

  /** For every trace, each instruction is popped exactly once. */
  lemma OutputConserves(o: Options, trace: seq<Inst>)
    ensures multiset(Output(o, trace)) == multiset(trace)
  {
    RunConserves(o, trace);
    FlushConserves(Run(o, trace), 0);
    var t := Flush(Run(o, trace), 0);
    assert t.queue == [] && t.popped + t.queue == t.popped;
  }

  // ----- Bounded disorder: the output is the whole trace, sorted

  /** How many instructions of s have a larger sequence number. */
  function Larger(s: seq<Inst>, sn: int): nat {
    if s == [] then 0
    else Larger(s[..|s| - 1], sn) + if s[|s| - 1].sn > sn then 1 else 0
  }

  /** No instruction arrives after more than n instructions with a larger sequence number. */
  ghost predicate DisorderAtMost(n: nat, trace: seq<Inst>) {
    forall i :: 0 <= i < |trace| ==> Larger(trace[..i], trace[i].sn) <= n
  }

  lemma {:induction false} LargerConcat(a: seq<Inst>, b: seq<Inst>, sn: int)
    ensures Larger(a + b, sn) == Larger(a, sn) + Larger(b, sn)
  {
    if b == [] {
      assert a + b == a;
    } else {
      assert (a + b)[..|a + b| - 1] == a + b[..|b| - 1];
      LargerConcat(a, b[..|b| - 1], sn);
    }
  }

  /** Counting does not depend on the order. */
  lemma {:induction false} LargerOfPermutation(a: seq<Inst>, b: seq<Inst>, sn: int)
    requires multiset(a) == multiset(b)
    ensures Larger(a, sn) == Larger(b, sn)
    decreases |a|
  {
    if a == [] {
      assert |multiset(b)| == 0;
    } else {
      var x := a[|a| - 1];
      assert a == a[..|a| - 1] + [x];
      assert x in multiset(b);
      var k :| 0 <= k < |b| && b[k] == x;
      var rest := b[..k] + b[k + 1..];
      assert b == b[..k] + ([x] + b[k + 1..]);
      assert multiset(rest) == multiset(b) - multiset{x};
      LargerOfPermutation(a[..|a| - 1], rest, sn);
      LargerConcat(b[..k], b[k + 1..], sn);
      LargerConcat(b[..k], [x] + b[k + 1..], sn);
      LargerConcat([x], b[k + 1..], sn);
      assert [x][..0] == [];
    }
  }

  lemma {:induction false} AllLarger(s: seq<Inst>, sn: int)
    requires forall i :: 0 <= i < |s| ==> s[i].sn > sn
    ensures Larger(s, sn) == |s|
  {
    if s != [] {
      AllLarger(s[..|s| - 1], sn);
    }
  }

  lemma BySnOrder()
    ensures TotalPreorder(BySn)
  {
  }

  // ----- When the queue is flushed

  /** The queue length above which a flush really pops something. */
  function Capacity(o: Options): nat {
    if o.maxThreshold < o.minThreshold then o.minThreshold else o.maxThreshold
  }

  /** The m-th arrival overflows the queue: the first time when the capacity is exceeded, then
      again whenever the room between the thresholds has filled up. */
  predicate FlushPoint(o: Options, m: nat) {
    m > Capacity(o) && (m - Capacity(o) - 1) % (Capacity(o) + 1 - o.minThreshold) == 0
  }

  function QueueLength(o: Options, n: nat): nat {
    if n <= Capacity(o) then n
    else o.minThreshold + (n - Capacity(o) - 1) % (Capacity(o) + 1 - o.minThreshold)
  }

  lemma QueueLengthNext(o: Options, n: nat)
    ensures QueueLength(o, n + 1) ==
            if QueueLength(o, n) + 1 > Capacity(o) then o.minThreshold else QueueLength(o, n) + 1
    ensures FlushPoint(o, n + 1) <==> QueueLength(o, n) + 1 > Capacity(o)
  {
    if n > Capacity(o) {
      Arithmetic.ModNext(n - Capacity(o) - 1, Capacity(o) + 1 - o.minThreshold);
    }
  }

  lemma {:induction false} RunQueueLength(o: Options, trace: seq<Inst>)
    ensures |Run(o, trace).queue| == QueueLength(o, |trace|)
  {
    if trace != [] {
      RunQueueLength(o, trace[..|trace| - 1]);
      QueueLengthNext(o, |trace| - 1);
    }
  }

  // ----- Flush-safe traces come out sorted

  /** At every flush, and for every instruction still to come, at most minThreshold of those that
      arrived so far are larger. */
  ghost predicate FlushSafe(o: Options, trace: seq<Inst>) {
    forall m: nat, i :: FlushPoint(o, m) && m <= i < |trace| ==>
                     Larger(trace[..m], trace[i].sn) <= o.minThreshold
  }

  /** The source's own assumption is enough. */
  lemma DisorderBoundIsSafe(o: Options, trace: seq<Inst>)
    requires DisorderAtMost(o.minThreshold, trace)
    ensures FlushSafe(o, trace)
  {
    forall m: nat, i | FlushPoint(o, m) && m <= i < |trace|
      ensures Larger(trace[..m], trace[i].sn) <= o.minThreshold
    {
      assert trace[..i] == trace[..m] + trace[m..i];
      LargerConcat(trace[..m], trace[m..i], trace[i].sn);
    }
  }

  function Backwards(n: nat): seq<Inst> {
    seq(n, k => Inst(-k, 1, 0, 0, 0, 0, 0, 0, 0))
  }

  /** The assumption is not necessary: without it the instructions need not appear out of order.
      A trace that fits the queue is safe even when it comes backwards. */
  lemma DisorderBoundNotNeeded(o: Options)
    requires o.minThreshold + 2 <= o.maxThreshold
    ensures var trace := Backwards(o.minThreshold + 2);
            !DisorderAtMost(o.minThreshold, trace) && FlushSafe(o, trace)
  {
    var n := o.minThreshold + 1;
    var trace := Backwards(n + 1);
    AllLarger(trace[..n], trace[n].sn);
  }

  /** In order after n arrivals: what was popped followed by the sorted queue is the sorted trace
      so far, and what was popped are the smallest of the trace up to the last flush. */
  ghost predicate InOrder(o: Options, trace: seq<Inst>, s: State) {
    && s.popped + Sort(BySn, s.queue) == Sort(BySn, trace)
    && (s.popped != [] ==> exists m: nat :: FlushPoint(o, m) && m <= |trace| &&
                             s.popped == Sort(BySn, trace[..m])[..m - o.minThreshold])
  }

  lemma LaterAreLarger(all: seq<Inst>, n: nat, sn: int)
    requires Sorted(BySn, all) && n < |all| && all[n].sn > sn
    ensures Larger(all, sn) >= |all| - n
  {
    hide Larger;
    var late := all[n..];
    forall i | 0 <= i < |late|
      ensures late[i].sn > sn
    {
      assert i > 0 ==> BySn(all[n], all[n + i]);
    }
    AllLarger(late, sn);
    LargerConcat(all[..n], late, sn);
    assert all == all[..n] + late;
  }

  lemma NotBehind(all: seq<Inst>, keep: nat, x: Inst)
    requires Sorted(BySn, all) && keep < |all| && Larger(all, x.sn) <= keep
    ensures BySn(all[|all| - keep - 1], x)
  {
    if all[|all| - keep - 1].sn > x.sn {
      LaterAreLarger(all, |all| - keep - 1, x.sn);
    }
  }

  lemma LargerSorted(s: seq<Inst>, sn: int)
    ensures Larger(Sort(BySn, s), sn) == Larger(s, sn) && Sorted(BySn, Sort(BySn, s))
  {
    BySnOrder();
    SortSorted(BySn, s);
    SortPermutes(BySn, s);
    LargerOfPermutation(Sort(BySn, s), s, sn);
  }

  /** An instruction preceded at the last flush by at most minThreshold larger ones is not too
      late: nothing larger was popped. */
  lemma NotTooLate(o: Options, trace: seq<Inst>, s: State, x: Inst)
    requires InOrder(o, trace, s)
    requires forall m: nat :: FlushPoint(o, m) && m <= |trace| ==>
                           Larger(trace[..m], x.sn) <= o.minThreshold
    ensures s.popped != [] ==> BySn(s.popped[|s.popped| - 1], x)
  {
    hide Sort, Larger;
    if s.popped != [] {
      var m: nat :| FlushPoint(o, m) && m <= |trace| &&
               s.popped == Sort(BySn, trace[..m])[..m - o.minThreshold];
      LargerSorted(trace[..m], x.sn);
      NotBehind(Sort(BySn, trace[..m]), o.minThreshold, x);
    }
  }

  lemma QueueInOrder(o: Options, trace: seq<Inst>, s: State, x: Inst)
    requires InOrder(o, trace, s)
    requires forall m: nat :: FlushPoint(o, m) && m <= |trace| ==>
                           Larger(trace[..m], x.sn) <= o.minThreshold
    ensures InOrder(o, trace + [x], s.(queue := s.queue + [x]))
  {
    NotTooLate(o, trace, s, x);
    SortSnoc(BySn, trace, x);
    SortSnoc(BySn, s.queue, x);
    InsertBehind(BySn, s.popped, Sort(BySn, s.queue), x);
    assert forall m :: 0 <= m <= |trace| ==> (trace + [x])[..m] == trace[..m];
  }

  lemma SplitKeepsWhole(popped: seq<Inst>, q: seq<Inst>, lower: nat)
    requires Sorted(BySn, q)
    ensures var t := Split(popped, q, lower);
            t.popped + Sort(BySn, t.queue) == popped + q
  {
    SortOfSorted(BySn, Split(popped, q, lower).queue);
  }

  /** Flushing moves the front of the sorted queue, so the sorted whole stays what it is. */
  lemma FlushKeepsWhole(s: State, lower: nat)
    ensures var t := Flush(s, lower);
            t.popped + Sort(BySn, t.queue) == s.popped + Sort(BySn, s.queue)
  {
    BySnOrder();
    SortSorted(BySn, s.queue);
    SplitKeepsWhole(s.popped, Sort(BySn, s.queue), lower);
  }

  lemma FlushInOrder(o: Options, trace: seq<Inst>, s: State)
    requires InOrder(o, trace, s)
    requires FlushPoint(o, |trace|) || |s.queue| <= o.minThreshold
    ensures InOrder(o, trace, Flush(s, o.minThreshold))
  {
    FlushKeepsWhole(s, o.minThreshold);
    var t := Flush(s, o.minThreshold);
    if |s.queue| <= o.minThreshold {
      assert t.popped == s.popped;
    } else {
      var all := Sort(BySn, trace);
      assert t.popped == all[..|all| - o.minThreshold];
      assert trace[..|trace|] == trace;
    }
  }

  lemma ArriveInOrder(o: Options, trace: seq<Inst>, s: State, x: Inst)
    requires InOrder(o, trace, s) && |s.queue| == QueueLength(o, |trace|)
    requires forall m: nat :: FlushPoint(o, m) && m <= |trace| ==>
                           Larger(trace[..m], x.sn) <= o.minThreshold
    ensures InOrder(o, trace + [x], Arrive(o, s, x))
  {
    hide InOrder, Flush, FlushPoint, QueueLength, Larger;
    QueueInOrder(o, trace, s, x);
    QueueLengthNext(o, |trace|);
    var t := s.(queue := s.queue + [x]);
    if |t.queue| > o.maxThreshold {
      FlushInOrder(o, trace + [x], t);
    }
  }

  lemma {:induction false} RunInOrder(o: Options, trace: seq<Inst>)
    requires FlushSafe(o, trace)
    ensures InOrder(o, trace, Run(o, trace))
  {
    if trace != [] {
      var front, x := trace[..|trace| - 1], trace[|trace| - 1];
      assert forall m :: 0 <= m <= |front| ==> front[..m] == trace[..m];
      assert trace == front + [x];
      RunInOrder(o, front);
      RunQueueLength(o, front);
      ArriveInOrder(o, front, Run(o, front), x);
    }
  }

  // ----- ... and only they do

  lemma {:induction false} PoppedGrows(o: Options, trace: seq<Inst>, m: nat)
    requires m <= |trace|
    ensures Run(o, trace[..m]).popped <= Run(o, trace).popped
  {
    if m < |trace| {
      PoppedGrows(o, trace[..|trace| - 1], m);
      assert trace[..|trace| - 1][..m] == trace[..m];
    } else {
      assert trace[..m] == trace;
    }
  }

  lemma {:induction false} LargerAtMostLength(s: seq<Inst>, sn: int)
    ensures Larger(s, sn) <= |s|
  {
    if s != [] {
      LargerAtMostLength(s[..|s| - 1], sn);
    }
  }

  lemma {:induction false} SomeLarger(s: seq<Inst>, sn: int)
    requires Larger(s, sn) > 0
    ensures exists k :: 0 <= k < |s| && s[k].sn > sn
  {
    if s[|s| - 1].sn <= sn {
      SomeLarger(s[..|s| - 1], sn);
      var k :| 0 <= k < |s| - 1 && s[..|s| - 1][k].sn > sn;
      assert s[k].sn > sn;
    }
  }

  /** More larger ones than a flush leaves in the queue: one of them was popped. */
  lemma LargerWasPopped(o: Options, trace: seq<Inst>, sn: int)
    requires FlushPoint(o, |trace|) && Larger(trace, sn) > o.minThreshold
    ensures var p := Run(o, trace).popped; exists k :: 0 <= k < |p| && p[k].sn > sn
  {
    var s := Run(o, trace);
    RunConserves(o, trace);
    LargerOfPermutation(s.popped + s.queue, trace, sn);
    LargerConcat(s.popped, s.queue, sn);
    LargerAtMostLength(s.queue, sn);
    RunQueueLength(o, trace);
    SomeLarger(s.popped, sn);
  }

  lemma OutputExtends(o: Options, trace: seq<Inst>)
    ensures Run(o, trace).popped <= Output(o, trace)
  {
    hide Sort;
  }

  lemma Remainder(p: seq<Inst>, q: seq<Inst>, all: seq<Inst>, a: seq<Inst>, b: seq<Inst>,
                  x: Inst)
    requires p <= all && multiset(p + q) == multiset(a) && multiset(all) == multiset(a + b)
    requires x in b
    ensures exists j :: |p| <= j < |all| && all[j] == x
  {
    assert all == p + all[|p|..];
    assert multiset(all[|p|..]) == multiset(a) + multiset(b) - multiset(p);
    assert multiset(all[|p|..]) == multiset(q) + multiset(b);
    assert x in multiset(all[|p|..]);
    var j :| 0 <= j < |all[|p|..]| && all[|p|..][j] == x;
    assert all[|p| + j] == x;
  }

  /** Whatever was not yet popped comes out behind everything that was. */
  lemma RemainderComesLater(o: Options, trace: seq<Inst>, m: nat, i: nat)
    requires m <= i < |trace|
    ensures var p, all := Run(o, trace[..m]).popped, Output(o, trace);
            p <= all && exists j :: |p| <= j < |all| && all[j] == trace[i]
  {
    hide Run, Output;
    var s, a, b := Run(o, trace[..m]), trace[..m], trace[m..];
    PoppedGrows(o, trace, m);
    RunConserves(o, a);
    OutputConserves(o, trace);
    assert Run(o, trace).popped <= Output(o, trace) by { OutputExtends(o, trace); }
    assert trace == a + b && trace[i] == b[i - m];
    Remainder(s.popped, s.queue, Output(o, trace), a, b, trace[i]);
  }

  /** The bounded queue sorts a trace exactly when the trace is flush-safe; and then it gives what
      sorting the whole trace at once would, instructions with equal numbers included. */
  lemma SortsIffFlushSafe(o: Options, trace: seq<Inst>)
    ensures Sorted(BySn, Output(o, trace)) <==> FlushSafe(o, trace)
    ensures FlushSafe(o, trace) ==> Output(o, trace) == Sort(BySn, trace)
  {
    if FlushSafe(o, trace) {
      RunInOrder(o, trace);
      FlushKeepsWhole(Run(o, trace), 0);
      var t := Flush(Run(o, trace), 0);
      assert t.queue == [] && Sort(BySn, t.queue) == [] && t.popped + [] == t.popped;
      BySnOrder();
      SortSorted(BySn, trace);
    } else {
      var m: nat, i :| FlushPoint(o, m) && m <= i < |trace| &&
                       Larger(trace[..m], trace[i].sn) > o.minThreshold;
      LargerWasPopped(o, trace[..m], trace[i].sn);
      RemainderComesLater(o, trace, m, i);
      var p, all := Run(o, trace[..m]).popped, Output(o, trace);
      var k :| 0 <= k < |p| && p[k].sn > trace[i].sn;
      var j :| |p| <= j < |all| && all[j] == trace[i];
      assert all[k] == p[k] && !BySn(all[k], all[j]);
    }
  }

  // ----- The queue of the program

  class PrintQueue {
    const options: Options
    var queue: seq<Inst>
    var printed: seq<Inst>
    ghost var popped: seq<Inst>

    ghost predicate Valid()
      reads this
    {
      printed == Filter(options, popped)
    }

    constructor (options: Options)
      ensures this.options == options && Valid() && queue == [] && popped == []
    {
      this.options := options;
      queue, printed, popped := [], [], [];
    }

    method PrintInsts(lower: nat)
      requires Valid()
      modifies this
      ensures Valid() && State(popped, queue) == Flush(State(old(popped), old(queue)), lower)
    {
      hide Sort, Filter;
      queue := Sort(BySn, queue);
      ghost var q, n := queue, 0;
      while |queue| > lower
        invariant Valid() && 0 <= n <= |q| && queue == q[n..]
        invariant popped == old(popped) + q[..n]
        invariant n > 0 ==> |queue| >= lower
        decreases |queue|
      {
        var item := queue[0];
        queue := queue[1..];
        FilterSnoc(options, popped, item);
        popped := popped + [item];
        n := n + 1;
        if Wanted(options, item) {
          printed := printed + [item];
        }
      }
    }

    method QueueInst(inst: Inst)
      requires Valid()
      modifies this
      ensures Valid()
      ensures State(popped, queue) == Arrive(options, State(old(popped), old(queue)), inst)
    {
      queue := queue + [inst];
      if |queue| > options.maxThreshold {
        PrintInsts(options.minThreshold);
      }
    }

    /** The region of interest: queue each instruction as it retires, print the rest at the end
        of the trace. What is printed are the wanted instructions, each once, in the order of the
        bounded queue; for a flush-safe trace that is the order of a full sort. */
    method ProcessTrace(trace: seq<Inst>)
      requires Valid() && queue == [] && popped == []
      modifies this
      ensures Valid() && queue == []
      ensures printed == Filter(options, Output(options, trace))
      ensures multiset(popped) == multiset(trace)
      ensures FlushSafe(options, trace) ==> printed == Filter(options, Sort(BySn, trace))
      ensures forall i :: multiset(printed)[i] == if Within(options, i) then multiset(trace)[i] else 0
    {
      for i := 0 to |trace|
        invariant Valid() && State(popped, queue) == Run(options, trace[..i])
      {
        assert trace[..i + 1][..i] == trace[..i];
        QueueInst(trace[i]);
      }
      assert trace[..|trace|] == trace;
      PrintInsts(0);
      OutputConserves(options, trace);
      forall i
        ensures multiset(printed)[i] == if Within(options, i) then multiset(trace)[i] else 0
      {
        FilterWithin(options, popped, i);
      }
      SortsIffFlushSafe(options, trace);
    }
  }
}
