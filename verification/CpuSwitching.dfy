/** Switching between two groups of CPUs back and forth while the simulator goes on. */
module CpuSwitching {
  import opened Arithmetic
  import opened CheckpointScript

  // ----- One switch

  datatype Cpu = Cpu(id: nat, memoryMode: int, takesOver: bool)

  /** An old CPU and the new one to take over from it. */
  datatype Handover = Handover(from: Cpu, to: Cpu)

  function Olds(pairs: seq<Handover>): set<Cpu> {
    set k | 0 <= k < |pairs| :: pairs[k].from
  }

  function News(pairs: seq<Handover>): set<Cpu> {
    set k | 0 <= k < |pairs| :: pairs[k].to
  }

  predicate AllTakeOver(pairs: seq<Handover>) {
    forall k :: 0 <= k < |pairs| ==> pairs[k].from.takesOver && pairs[k].to.takesOver
  }

  /** The new CPUs need the same memory mode. */
  predicate NewsAgree(pairs: seq<Handover>) {
    forall k :: 0 <= k < |pairs| ==> pairs[k].to.memoryMode == pairs[0].to.memoryMode
  }

  predicate OldsAgree(pairs: seq<Handover>) {
    forall k :: 0 <= k < |pairs| ==> pairs[k].from.memoryMode == pairs[0].from.memoryMode
  }

  /** All old CPUs are active and all new ones idle, and they fit together. */
  ghost predicate Switchable(active: set<Cpu>, pairs: seq<Handover>) {
    && pairs != [] && Olds(pairs) <= active && News(pairs) !! active
    && AllTakeOver(pairs) && NewsAgree(pairs)
  }

  function Switched(active: set<Cpu>, pairs: seq<Handover>): set<Cpu> {
    active - Olds(pairs) + News(pairs)
  }

  /** The system with its CPUs, each of which is active or switched out. */
  class Cpus {
    var active: set<Cpu>

    method Check(pairs: seq<Handover>) returns (ok: bool)
      ensures ok == Switchable(active, pairs)
      ensures ok <==>
                && pairs != []
                && forall k :: 0 <= k < |pairs| ==>
                     && pairs[k].from in active && pairs[k].to !in active
                     && pairs[k].from.takesOver && pairs[k].to.takesOver
                     && pairs[k].to.memoryMode == pairs[0].to.memoryMode
    {
      if pairs == [] {
        return false;
      }
      var olds := Olds(pairs);
      for k := 0 to |pairs|
        invariant forall j :: 0 <= j < k ==>
                    && pairs[j].to !in active && pairs[j].from in active
                    && pairs[j].from.takesOver && pairs[j].to.takesOver
                    && pairs[j].to.memoryMode == pairs[0].to.memoryMode
      {
        assert pairs[k].from in olds && pairs[k].to in News(pairs);
        if pairs[k].to in olds || pairs[k].to in active || !pairs[k].to.takesOver ||
           pairs[k].to.memoryMode != pairs[0].to.memoryMode ||
           pairs[k].from !in active || !pairs[k].from.takesOver
        {
          return false;
        }
      }
      ok := true;
    }

    /** Nothing is switched when a pair does not fit. */
    method Switch(pairs: seq<Handover>) returns (ok: bool)
      modifies this
      ensures ok == Switchable(old(active), pairs)
      ensures active == if ok then Switched(old(active), pairs) else old(active)
    {
      ok := Check(pairs);
      if !ok {
        return;
      }
      for k := 0 to |pairs|
        invariant active == old(active) - set j | 0 <= j < k :: pairs[j].from
      {
        active := active - {pairs[k].from};
      }
      ghost var left := active;
      for k := 0 to |pairs|
        invariant active == left + set j | 0 <= j < k :: pairs[j].to
      {
        active := active + {pairs[k].to};
      }
    }
  }

  // ----- Back and forth

  function Swapped(pairs: seq<Handover>): (r: seq<Handover>)
    ensures |r| == |pairs|
  {
    seq(|pairs|, k requires 0 <= k < |pairs| => Handover(pairs[k].to, pairs[k].from))
  }

  lemma SwapTwice(pairs: seq<Handover>)
    ensures Olds(Swapped(pairs)) == News(pairs) && News(Swapped(pairs)) == Olds(pairs)
    ensures Swapped(Swapped(pairs)) == pairs
  {
    var r := Swapped(pairs);
    forall k | 0 <= k < |pairs|
      ensures pairs[k].from in News(r) && pairs[k].to in Olds(r)
      ensures r[k].from in News(pairs) && r[k].to in Olds(pairs)
    {
      assert r[k] == Handover(pairs[k].to, pairs[k].from);
    }
  }

  /** After a switch, the next one goes back to where the first started, if and only if the CPUs
      to go back to need the same memory mode. */
  lemma SwitchBackIff(active: set<Cpu>, pairs: seq<Handover>)
    requires Switchable(active, pairs)
    ensures Switchable(Switched(active, pairs), Swapped(pairs)) <==> OldsAgree(pairs)
    ensures Switched(Switched(active, pairs), Swapped(pairs)) == active
    ensures Swapped(Swapped(pairs)) == pairs
  {
    hide Olds, News;
    SwapTwice(pairs);
    var r := Swapped(pairs);
    assert forall k :: 0 <= k < |pairs| ==> r[k] == Handover(pairs[k].to, pairs[k].from);
    assert NewsAgree(r) <==> OldsAgree(pairs) by {
      if NewsAgree(r) {
        assert forall k :: 0 <= k < |pairs| ==> r[k].to.memoryMode == r[0].to.memoryMode;
      }
    }
    assert AllTakeOver(r);
  }

  method Swap(pairs: seq<Handover>) returns (swapped: seq<Handover>)
    ensures swapped == Swapped(pairs)
  {
    swapped := [];
    for k := 0 to |pairs|
      invariant swapped == Swapped(pairs)[..k]
    {
      swapped := swapped + [Handover(pairs[k].to, pairs[k].from)];
    }
  }

  /** Where the last call, which is to end at maxtick, leaves the simulator. */
  function LastTick(u: int, maxtick: int, rs: seq<Reply>): int {
    if maxtick < u || rs == [] then u
    else u + if rs[0].exit == Limit then maxtick - u else Min(rs[0].ran, maxtick - u)
  }

  /** Where switching every freq ticks leaves the simulator. */
  function EndTick(t: int, freq: int, maxtick: int, rs: seq<Reply>): int
    decreases |rs|
  {
    if freq < 0 || rs == [] then t
    else if rs[0].exit != Limit then t + Min(rs[0].ran, freq)
    else
      var u := t + freq + rs[0].drain;
      if maxtick - u <= freq then LastTick(u, maxtick, rs[1..])
      else EndTick(u, freq, maxtick, rs[1..])
  }

  /** How often CPUs are switched: once for each of so many first replies. */
  function SwitchCount(t: int, freq: int, maxtick: int, rs: seq<Reply>): (n: nat)
    ensures n <= |rs|
    decreases |rs|
  {
    if freq < 0 || rs == [] || rs[0].exit != Limit then 0
    else
      var u := t + freq + rs[0].drain;
      if maxtick - u <= freq then 1 else 1 + SwitchCount(u, freq, maxtick, rs[1..])
  }

  /** One turn of the loop. */
  lemma SwitchStep(t: int, freq: int, maxtick: int, rs: seq<Reply>)
    ensures freq < 0 || rs == [] ==>
              EndTick(t, freq, maxtick, rs) == t && SwitchCount(t, freq, maxtick, rs) == 0
    ensures freq >= 0 && rs != [] && rs[0].exit != Limit ==>
              && EndTick(t, freq, maxtick, rs) == t + Min(rs[0].ran, freq)
              && SwitchCount(t, freq, maxtick, rs) == 0
    ensures freq >= 0 && rs != [] && rs[0].exit == Limit ==>
              var u := t + freq + rs[0].drain;
              if maxtick - u <= freq then
                && EndTick(t, freq, maxtick, rs) == LastTick(u, maxtick, rs[1..])
                && SwitchCount(t, freq, maxtick, rs) == 1
              else
                && EndTick(t, freq, maxtick, rs) == EndTick(u, freq, maxtick, rs[1..])
                && SwitchCount(t, freq, maxtick, rs) == 1 + SwitchCount(u, freq, maxtick, rs[1..])
  {
  }

  /** The ticks it takes to drain for the last switch. */
  function LastDrain(t: int, freq: int, maxtick: int, rs: seq<Reply>): nat {
    var n := SwitchCount(t, freq, maxtick, rs);
    if n == 0 then 0 else rs[n - 1].drain
  }

  /** After n switches of the list, the CPUs are where they were or all of them on the other side,
      and the pairs are turned accordingly. */
  ghost predicate Alternates(start: set<Cpu>, list: seq<Handover>, n: nat, active: set<Cpu>,
                             pairs: seq<Handover>)
  {
    && (n > 0 ==> Switchable(start, list)) && (n > 1 ==> OldsAgree(list))
    && if n % 2 == 0 then pairs == list && active == start
       else pairs == Swapped(list) && active == Switched(start, list)
  }

  /** One switch, and the pairs turned for the next. */
  method Turn(cpus: Cpus, pairs: seq<Handover>, ghost start: set<Cpu>, ghost list: seq<Handover>,
              ghost n: nat)
    returns (ok: bool, next: seq<Handover>)
    requires Alternates(start, list, n, cpus.active, pairs)
    modifies cpus
    ensures ok ==> Alternates(start, list, n + 1, cpus.active, next)
    ensures !ok ==> Alternates(start, list, n, cpus.active, pairs)
    ensures !ok ==> if Switchable(start, list) then n == 1 && !OldsAgree(list) else n == 0
  {
    hide Switchable, Switched, Swapped, OldsAgree;
    if Switchable(start, list) {
      SwitchBackIff(start, list);
    }
    next := pairs;
    ok := cpus.Switch(pairs);
    if ok {
      next := Swap(pairs);
    }
  }

  /** Where the simulator is after the first n switches. */
  function TickAfter(t: int, freq: int, switches: seq<Taken>, n: nat): int
    requires n <= |switches|
  {
    t + n * freq + Late(switches, n)
  }

  /** The switches are one for each reply that the limit was reached, and after each of them but
      the last more than freq ticks are left. */
  ghost predicate Repeated(t: int, freq: int, maxtick: int, rs: seq<Reply>, switches: seq<Taken>) {
    && |switches| <= |rs|
    && (forall k :: 0 <= k < |switches| ==> rs[k].exit == Limit && switches[k].drain == rs[k].drain)
    && (forall k :: 0 < k < |switches| ==> maxtick - TickAfter(t, freq, switches, k) > freq)
  }

  /** With at most freq ticks left after a switch, the last call is for these; otherwise the end is
      a call for freq ticks that stops early, or one before a switch that raises. */
  ghost predicate Finished(t: int, freq: int, maxtick: int, rs: seq<Reply>, switches: seq<Taken>,
                           raised: bool, exit: Exit, tick: int)
    requires |switches| <= |rs|
  {
    var n := |switches|;
    var u := TickAfter(t, freq, switches, n);
    if n > 0 && maxtick - u <= freq then !raised && Replied(rs[n..], maxtick - u, exit, tick - u)
    else Replied(rs[n..], freq, exit, tick - u) && (raised <==> exit == Limit)
  }

  /** Where a run of switches ends, and why, case by case. */
  lemma WhereItEnds(t: int, freq: int, maxtick: int, rs: seq<Reply>, switches: seq<Taken>,
                    raised: bool, exit: Exit, tick: int)
    requires Repeated(t, freq, maxtick, rs, switches)
    requires Finished(t, freq, maxtick, rs, switches, raised, exit, tick)
    ensures forall k :: 0 <= k < |switches| ==> rs[k].exit == Limit && switches[k].drain == rs[k].drain
    ensures forall k: nat :: 0 < k < |switches| ==> t + k * freq + Late(switches, k) + freq < maxtick
    ensures var n := |switches|;
            var now := t + n * freq + Late(switches, n);
            var last := n > 0 && now + freq >= maxtick;
            if (if last then maxtick < now else freq < 0) then exit == Rejected && tick == now && !raised
            else if n == |rs| then exit == Waiting && tick == now && !raised
            else
              && exit == rs[n].exit && (raised <==> exit == Limit && !last)
              && (exit == Limit ==> tick == if last then maxtick else now + freq)
              && (exit != Limit ==> tick == Min(now + rs[n].ran, if last then maxtick else now + freq))
  {
    hide Late;
    forall k: nat | 0 < k < |switches| ensures t + k * freq + Late(switches, k) + freq < maxtick {
      assert maxtick - TickAfter(t, freq, switches, k) > freq;
    }
  }

  /** The call after the switches decides how the run ends. */
  lemma FinishedSo(t: int, freq: int, maxtick: int, rs: seq<Reply>, switches: seq<Taken>,
                   raised: bool, exit: Exit, now: int, tick: int)
    requires |switches| <= |rs| && now == TickAfter(t, freq, switches, |switches|)
    requires var last := switches != [] && maxtick - now <= freq;
             && Replied(rs[|switches|..], if last then maxtick - now else freq, exit, tick - now)
             && (raised <==> exit == Limit && !last)
    ensures Finished(t, freq, maxtick, rs, switches, raised, exit, tick)
  {
    hide TickAfter, Replied;
  }

  lemma RepeatedNone(t: int, freq: int, maxtick: int, rs: seq<Reply>)
    ensures Repeated(t, freq, maxtick, rs, []) && TickAfter(t, freq, [], 0) == t
  {
  }

  lemma RepeatedNext(t: int, freq: int, maxtick: int, rs: seq<Reply>, switches: seq<Taken>, c: Taken)
    requires Repeated(t, freq, maxtick, rs, switches) && |switches| < |rs|
    requires rs[|switches|].exit == Limit && c.drain == rs[|switches|].drain
    requires |switches| > 0 ==> maxtick - TickAfter(t, freq, switches, |switches|) > freq
    ensures Repeated(t, freq, maxtick, rs, switches + [c])
    ensures TickAfter(t, freq, switches + [c], |switches| + 1) ==
            TickAfter(t, freq, switches, |switches|) + freq + c.drain
  {
    hide Late;
    LateSnoc(switches, c);
    assert (|switches| + 1) * freq == |switches| * freq + freq;
    forall k | 0 < k < |switches + [c]|
      ensures maxtick - TickAfter(t, freq, switches + [c], k) > freq
    {
      assert TickAfter(t, freq, switches + [c], k) == TickAfter(t, freq, switches, k);
    }
  }

  /** Every freq ticks there is a switch between the same two groups of CPUs. */
  method RepeatSwitch(sim: Simulator, cpus: Cpus, list: seq<Handover>, maxtick: int, freq: int)
    returns (exit: Exit, switches: seq<Taken>, raised: bool)
    modifies sim, cpus
    ensures raised ==> if Switchable(old(cpus.active), list) then |switches| == 1 && !OldsAgree(list)
                       else switches == []
    ensures !raised ==>
              && sim.tick == EndTick(old(sim.tick), freq, maxtick, old(sim.script))
              && |switches| == SwitchCount(old(sim.tick), freq, maxtick, old(sim.script))
    ensures OnTime(Plan(old(sim.tick) + freq, freq, 0, maxtick), switches)
    ensures cpus.active == if |switches| % 2 == 0 then old(cpus.active)
                           else Switched(old(cpus.active), list)
    ensures (switches != [] ==> Switchable(old(cpus.active), list)) && (|switches| > 1 ==> OldsAgree(list))
    ensures Repeated(old(sim.tick), freq, maxtick, old(sim.script), switches)
    ensures Finished(old(sim.tick), freq, maxtick, old(sim.script), switches, raised, exit, sim.tick)
  {
    hide Due, Late, OnTime, Switchable, Switched, Swapped, OldsAgree, EndTick, SwitchCount, TickAfter,
         Repeated, Finished;
    ghost var p := Plan(sim.tick + freq, freq, 0, maxtick);
    ghost var t, rs, start := sim.tick, sim.script, cpus.active;
    switches, raised := [], false;
    NothingTaken(p);
    RepeatedNone(t, freq, maxtick, rs);
    var pairs := list;
    while true
      invariant !raised && OnTime(p, switches)
      invariant Repeated(t, freq, maxtick, rs, switches) && |switches| <= |rs|
      invariant sim.tick == TickAfter(t, freq, switches, |switches|)
      invariant switches != [] ==> maxtick - sim.tick > freq
      invariant sim.script == rs[|switches|..]
      invariant sim.tick == Due(p, |switches|) - freq + Late(switches, |switches|)
      invariant EndTick(sim.tick, freq, maxtick, sim.script) == EndTick(t, freq, maxtick, rs)
      invariant |switches| + SwitchCount(sim.tick, freq, maxtick, sim.script) ==
                  SwitchCount(t, freq, maxtick, rs)
      invariant Alternates(start, list, |switches|, cpus.active, pairs)
      decreases |sim.script|
    {
      SwitchStep(sim.tick, freq, maxtick, sim.script);
      ghost var now := sim.tick;
      exit := sim.Simulate(freq);
      if exit != Limit {
        FinishedSo(t, freq, maxtick, rs, switches, false, exit, now, sim.tick);
        return;
      }
      var ok;
      ok, pairs := Turn(cpus, pairs, start, list, |switches|);
      if !ok {
        FinishedSo(t, freq, maxtick, rs, switches, true, exit, now, sim.tick);
        raised := true;
        return;
      }
      var c := sim.Drain();
      OnTimeNext(p, switches, c);
      RepeatedNext(t, freq, maxtick, rs, switches, c);
      DueNext(p, |switches|);
      switches := switches + [c];
      if maxtick - sim.tick <= freq {
        now := sim.tick;
        exit := sim.Simulate(maxtick - sim.tick);
        FinishedSo(t, freq, maxtick, rs, switches, false, exit, now, sim.tick);
        return;
      }
    }
  }

  // ----- The last tick

  /** With freq ticks left to begin with, whatever the simulator does, only draining for the last
      switch can take the run past maxtick. */
  lemma {:induction false} EndsByMaxtick(t: int, freq: nat, maxtick: int, rs: seq<Reply>)
    requires t + freq <= maxtick
    ensures EndTick(t, freq, maxtick, rs) <= maxtick + LastDrain(t, freq, maxtick, rs)
    decreases |rs|
  {
    if rs != [] && rs[0].exit == Limit {
      var u := t + freq + rs[0].drain;
      if maxtick - u > freq {
        EndsByMaxtick(u, freq, maxtick, rs[1..]);
      }
    }
  }

  /** And that holds for all simulators only with freq ticks left to begin with. */
  lemma NeverPastIff(t: int, freq: nat, maxtick: int)
    ensures (forall rs :: EndTick(t, freq, maxtick, rs) <= maxtick + LastDrain(t, freq, maxtick, rs))
            <==> t + freq <= maxtick
  {
    if t + freq <= maxtick {
      forall rs
        ensures EndTick(t, freq, maxtick, rs) <= maxtick + LastDrain(t, freq, maxtick, rs)
      {
        EndsByMaxtick(t, freq, maxtick, rs);
      }
    } else {
      var rs := [Reply(Limit, 0, 0)];
      assert EndTick(t, freq, maxtick, rs) == t + freq && LastDrain(t, freq, maxtick, rs) == 0;
    }
  }

  /** That maxtick is above freq, which is what the caller looks at, is not enough. */
  lemma GuardTooWeak()
    ensures var t, freq, maxtick := 10000, 10000, 15000;
            && maxtick > freq
            && EndTick(t, freq, maxtick, [Reply(Limit, 0, 0)]) > maxtick
  {
  }
}
