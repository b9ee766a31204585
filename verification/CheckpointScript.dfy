/** The loop that takes scripted checkpoints, and the simulator it drives.

    The simulator is any at all that stops no later than asked. What it does is a script of
    replies, one for each call, and a run that uses up the script is still waiting for it. */
module CheckpointScript {
  import opened Arithmetic

  /** Why a call to the simulator came back. A negative number of ticks is rejected. */
  datatype Exit = Limit | GuestCheckpoint | Other | Waiting | Rejected

  /** A reply: the cause, the ticks until an early stop, and the ticks it then takes to drain. */
  datatype Reply = Reply(exit: Exit, ran: nat, drain: nat)

  /** When a checkpoint or a switch was asked for, and the ticks it took to drain. */
  datatype Taken = Taken(tick: int, drain: nat)

  /** How a call for n ticks comes back and how far it gets, given the replies to come. */
  ghost predicate Replied(rs: seq<Reply>, n: int, exit: Exit, ran: int) {
    if n < 0 then exit == Rejected && ran == 0
    else if rs == [] then exit == Waiting && ran == 0
    else exit == rs[0].exit && ran == if exit == Limit then n else Min(rs[0].ran, n)
  }

  class Simulator {
    var tick: int
    var script: seq<Reply>
    var settle: nat

    method Simulate(n: int) returns (exit: Exit)
      modifies this
      ensures Replied(old(script), n, exit, tick - old(tick))
      ensures n < 0 || old(script) == [] ==> script == old(script)
      ensures n >= 0 && old(script) != [] ==>
                script == old(script)[1..] && settle == old(script)[0].drain
    {
      if n < 0 {
        return Rejected;
      }
      if script == [] {
        return Waiting;
      }
      exit := script[0].exit;
      settle := script[0].drain;
      tick := tick + if exit == Limit then n else Min(script[0].ran, n);
      script := script[1..];
    }

    /** Before a checkpoint is written or CPUs are switched, the system drains. */
    method Drain() returns (c: Taken)
      modifies `tick
      ensures c == Taken(old(tick), settle) && tick == old(tick) + settle
    {
      c := Taken(tick, settle);
      tick := tick + settle;
    }
  }

  // ----- Scripted checkpoints

  datatype Plan = Plan(when: int, period: int, most: int, maxtick: int)

  /** When checkpoint k is due. */
  function Due(p: Plan, k: nat): int {
    p.when + k * p.period
  }

  lemma DueNext(p: Plan, k: nat)
    ensures Due(p, k + 1) == Due(p, k) + p.period
  {
    assert (k + 1) * p.period == k * p.period + p.period;
  }

  /** What is left of the script when guest checkpoints are skipped. */
  function Skip(rs: seq<Reply>): (rest: seq<Reply>)
    ensures |rest| <= |rs| && (rest != [] ==> rest[0].exit != GuestCheckpoint)
  {
    if rs != [] && rs[0].exit == GuestCheckpoint then Skip(rs[1..]) else rs
  }

  /** The simulator gets to the limit once guest checkpoints are skipped. */
  predicate Reaches(rs: seq<Reply>) {
    Skip(rs) != [] && Skip(rs)[0].exit == Limit
  }

  /** Why the simulator stops once guest checkpoints are skipped. */
  function Cause(rs: seq<Reply>): Exit {
    if Skip(rs) == [] then Waiting else Skip(rs)[0].exit
  }

  /** The ticks it runs for, if it is not stopped at the limit. */
  function Gone(rs: seq<Reply>): nat {
    if rs == [] then 0 else rs[0].ran + if rs[0].exit == GuestCheckpoint then Gone(rs[1..]) else 0
  }

  predicate Interrupted(rs: seq<Reply>) {
    rs != [] && rs[0].exit == GuestCheckpoint
  }

  function Late(taken: seq<Taken>, k: nat): nat
    requires k <= |taken|
  {
    if k == 0 then 0 else Late(taken, k - 1) + taken[k - 1].drain
  }

  lemma {:induction false} LatePrefix(taken: seq<Taken>, c: Taken, k: nat)
    requires k <= |taken|
    ensures Late(taken + [c], k) == Late(taken, k)
  {
    if k > 0 {
      LatePrefix(taken, c, k - 1);
    }
  }

  lemma {:induction false} LateSnoc(taken: seq<Taken>, c: Taken)
    ensures forall k: nat :: k <= |taken| ==> Late(taken + [c], k) == Late(taken, k)
    ensures Late(taken + [c], |taken| + 1) == Late(taken, |taken|) + c.drain
  {
    forall k: nat | k <= |taken| ensures Late(taken + [c], k) == Late(taken, k) {
      LatePrefix(taken, c, k);
    }
  }

  /** Checkpoint k, after the first one, is within bounds. */
  predicate Allowed(p: Plan, k: nat) {
    k < p.most && p.period >= 0 && Due(p, k) <= p.maxtick
  }

  /** The simulator is past the time the next checkpoint is due when the guest interrupts it. */
  predicate Missed(p: Plan, late: nat, reply: Reply) {
    late + Min(reply.ran, p.period) > p.period
  }

  /** How many checkpoints are written from number k > 0 on, when the run is late by so many ticks. */
  function Count(p: Plan, k: nat, late: nat, rs: seq<Reply>): nat
    decreases |rs|
  {
    if !Allowed(p, k) || rs == [] then 0 else
    match rs[0].exit
    case Limit => 1 + Count(p, k + 1, late + rs[0].drain, rs[1..])
    case GuestCheckpoint => if !Missed(p, late, rs[0]) && Reaches(rs[1..]) then 1 else 0
    case _ => 0
  }

  lemma CountNext(p: Plan, k: nat, late: nat, rs: seq<Reply>)
    ensures !Allowed(p, k) || rs == [] ==> Count(p, k, late, rs) == 0
    ensures Allowed(p, k) && rs != [] && rs[0].exit == Limit ==>
              Count(p, k, late, rs) == 1 + Count(p, k + 1, late + rs[0].drain, rs[1..])
    ensures Allowed(p, k) && rs != [] && rs[0].exit == GuestCheckpoint ==>
              Count(p, k, late, rs) == if !Missed(p, late, rs[0]) && Reaches(rs[1..]) then 1 else 0
    ensures rs != [] && rs[0].exit != Limit && rs[0].exit != GuestCheckpoint ==>
              Count(p, k, late, rs) == 0
  {
  }

  function CountAll(p: Plan, tick: int, rs: seq<Reply>): nat {
    if tick > p.when || !Reaches(rs) then 0
    else 1 + Count(p, 1, Skip(rs)[0].drain, Skip(rs)[1..])
  }

  /** On time but for the ticks that earlier checkpoints took to drain. A last checkpoint may have
      caught up with those. */
  ghost predicate OnSchedule(p: Plan, taken: seq<Taken>) {
    forall k :: 0 <= k < |taken| ==>
                  || taken[k].tick == Due(p, k) + Late(taken, k)
                  || (0 < k == |taken| - 1 && taken[k].tick == Due(p, k))
  }

  ghost predicate OnTime(p: Plan, taken: seq<Taken>) {
    forall k :: 0 <= k < |taken| ==> taken[k].tick == Due(p, k) + Late(taken, k)
  }

  lemma {:induction false} OnTimeNext(p: Plan, taken: seq<Taken>, c: Taken)
    requires OnTime(p, taken)
    ensures c.tick == Due(p, |taken|) + Late(taken, |taken|) ==>
              OnTime(p, taken + [c]) && OnSchedule(p, taken + [c])
    ensures |taken| > 0 && c.tick == Due(p, |taken|) ==> OnSchedule(p, taken + [c])
    ensures Late(taken + [c], |taken| + 1) == Late(taken, |taken|) + c.drain
  {
    hide Due, Late;
    LateSnoc(taken, c);
  }

  /** Go on to the target for as long as the guest asks for checkpoints. */
  method Resume(sim: Simulator, target: int, last: Exit) returns (exit: Exit)
    modifies sim
    ensures last != GuestCheckpoint ==>
              && exit == last && sim.tick == old(sim.tick) && sim.script == old(sim.script)
              && sim.settle == old(sim.settle)
    ensures last == GuestCheckpoint && old(sim.tick) > target ==>
              exit == Rejected && sim.tick == old(sim.tick)
    ensures last == GuestCheckpoint && old(sim.tick) <= target ==>
              && exit == Cause(old(sim.script))
              && (exit == Limit <==> Reaches(old(sim.script)))
              && (exit != Limit ==> sim.tick == Min(target, old(sim.tick) + Gone(old(sim.script))))
              && (exit == Limit ==>
                    && sim.tick == target
                    && sim.settle == Skip(old(sim.script))[0].drain
                    && sim.script == Skip(old(sim.script))[1..])
    ensures exit != GuestCheckpoint && |sim.script| <= |old(sim.script)|
  {
    exit := last;
    ghost var gone := 0;
    while exit == GuestCheckpoint
      invariant exit == GuestCheckpoint ==> last == GuestCheckpoint
      invariant |sim.script| <= |old(sim.script)|
      invariant last != GuestCheckpoint ==>
                  && exit == last && sim.tick == old(sim.tick) && sim.script == old(sim.script)
                  && sim.settle == old(sim.settle)
      invariant old(sim.tick) > target ==> sim.tick == old(sim.tick)
      invariant last == GuestCheckpoint && old(sim.tick) > target ==>
                  exit == GuestCheckpoint || exit == Rejected
      invariant last == GuestCheckpoint && old(sim.tick) <= target ==>
                  && (exit == GuestCheckpoint ==>
                        && Skip(sim.script) == Skip(old(sim.script))
                        && Gone(old(sim.script)) == gone + Gone(sim.script)
                        && sim.tick == Min(target, old(sim.tick) + gone))
                  && (exit != GuestCheckpoint ==> exit == Cause(old(sim.script)))
                  && (exit != GuestCheckpoint && exit != Limit ==>
                        sim.tick == Min(target, old(sim.tick) + Gone(old(sim.script))))
                  && (exit == Limit ==>
                        && Reaches(old(sim.script)) && sim.tick == target
                        && sim.settle == Skip(old(sim.script))[0].drain
                        && sim.script == Skip(old(sim.script))[1..])
                  && (exit != Limit && exit != GuestCheckpoint ==> !Reaches(old(sim.script)))
      decreases |sim.script|, exit == GuestCheckpoint
    {
      if sim.script != [] {
        gone := gone + sim.script[0].ran;
      }
      exit := sim.Simulate(target - sim.tick);
    }
  }

  /** Simulate up to the first checkpoint. */
  method RunToFirst(p: Plan, sim: Simulator) returns (exit: Exit)
    modifies sim
    ensures exit == Limit <==> old(sim.tick) <= p.when && Reaches(old(sim.script))
    ensures exit == Limit ==>
              && sim.tick == p.when
              && sim.settle == Skip(old(sim.script))[0].drain
              && sim.script == Skip(old(sim.script))[1..]
    ensures old(sim.tick) > p.when ==> exit == Rejected && sim.tick == old(sim.tick)
    ensures old(sim.tick) <= p.when ==> exit == Cause(old(sim.script))
    ensures old(sim.tick) <= p.when && exit != Limit ==>
              sim.tick == Min(p.when, old(sim.tick) + Gone(old(sim.script)))
  {
    exit := sim.Simulate(p.when - sim.tick);
    exit := Resume(sim, p.when, exit);
  }

  /** How a period ends that starts late by so many ticks: as the first reply says, or if that is
      a guest's checkpoint, wherever the simulator gets on its way to the end of the period. */
  ghost predicate Stopped(p: Plan, simTicks: int, late: nat, rs: seq<Reply>, exit: Exit, tick: int) {
    var now, target := simTicks + late, simTicks + p.period;
    if p.period < 0 || !Interrupted(rs) then Replied(rs, p.period, exit, tick - now)
    else if Missed(p, late, rs[0]) then exit == Rejected && tick == now + Min(rs[0].ran, p.period)
    else exit == Cause(rs) && tick == if exit == Limit then target else Min(target, now + Gone(rs))
  }

  /** How a run ends that has written some checkpoints, q being the replies from the first of them
      on. If the guest interrupted the last one, right there. Otherwise there are enough of them,
      or the last tick comes before the next one, or that one is not reached. */
  ghost predicate Ended(p: Plan, q: seq<Reply>, taken: seq<Taken>, exit: Exit, tick: int)
    requires taken != []
  {
    var n, late := |taken|, Late(taken, |taken|);
    var due := Due(p, n - 1);
    && n <= |q|
    && if q[n - 1].exit == GuestCheckpoint then exit == Limit && tick == due + taken[n - 1].drain
       else if n >= p.most then exit == Limit && tick == due + late
       else if due + p.period > p.maxtick then
         Replied(q[n..], p.maxtick - due, exit, tick - (due + late))
       else exit != Limit && Stopped(p, due, late, q[n..], exit, tick)
  }

  /** Simulate for one period, and if the guest asks for checkpoints go on to its end. The cause is
      that of the first stop only. */
  method RunPeriod(p: Plan, sim: Simulator, simTicks: int, ghost late: nat)
    returns (cause: Exit, exit: Exit)
    requires sim.tick == simTicks + late
    modifies sim
    ensures cause == Limit <==>
              p.period >= 0 && old(sim.script) != [] && old(sim.script)[0].exit == Limit
    ensures cause == Limit ==>
              && exit == Limit && sim.tick == simTicks + p.period + late
              && sim.script == old(sim.script)[1..] && sim.settle == old(sim.script)[0].drain
    ensures cause != Limit ==>
              (exit == Limit <==>
                 && p.period >= 0 && Interrupted(old(sim.script))
                 && !Missed(p, late, old(sim.script)[0]) && Reaches(old(sim.script)[1..]))
    ensures cause != Limit && exit == Limit ==> sim.tick == simTicks + p.period
    ensures Stopped(p, simTicks, late, old(sim.script), exit, sim.tick)
    ensures sim.tick <= simTicks + late + if p.period >= 0 then p.period else 0
    ensures p.period < 0 ==> exit == Rejected
    ensures |sim.script| <= |old(sim.script)|
  {
    exit := sim.Simulate(p.period);
    cause := exit;
    exit := Resume(sim, simTicks + p.period, exit);
  }

  /** The first checkpoint, and then one every period for as long as there is reason to go on. */
  method ScriptCheckpoints(p: Plan, sim: Simulator) returns (exit: Exit, taken: seq<Taken>)
    modifies sim
    ensures |taken| == CountAll(p, old(sim.tick), old(sim.script))
    ensures OnSchedule(p, taken)
    ensures forall k :: 0 < k < |taken| ==> Due(p, k) <= p.maxtick
    ensures |taken| <= 1 || |taken| <= p.most
    ensures p.when <= p.maxtick && old(sim.tick) <= p.when ==>
              sim.tick <= p.maxtick + Late(taken, |taken|)
    ensures p.when > p.maxtick && p.most > 1 && taken != [] ==> |taken| == 1 && exit == Rejected
    ensures taken == [] <==> old(sim.tick) > p.when || Cause(old(sim.script)) != Limit
    ensures taken == [] ==>
              if old(sim.tick) > p.when then exit == Rejected && sim.tick == old(sim.tick)
              else
                && exit == Cause(old(sim.script))
                && sim.tick == Min(p.when, old(sim.tick) + Gone(old(sim.script)))
    ensures taken != [] ==> Ended(p, Skip(old(sim.script)), taken, exit, sim.tick)
  {
    hide Due, Late, OnTime, OnSchedule, Reaches, Skip, Count, CountAll, Ended, Replied, Cause, Gone, Going;
    ghost var total := CountAll(p, sim.tick, sim.script);
    ghost var q := Skip(sim.script);
    taken := [];
    exit := RunToFirst(p, sim);
    var cause := exit;
    NothingTaken(p);
    CountFirst(p, old(sim.tick), old(sim.script));
    if cause == Limit {
      var c := sim.Drain();
      OnTimeNext(p, taken, c);
      taken := taken + [c];
      GoingNow(p, q, taken, p.when, sim.tick, sim.script, total);
    }
    var simTicks := p.when;
    while |taken| < p.most && cause == Limit
      invariant cause == Limit ==>
                  taken != [] && exit == Limit && Going(p, q, taken, simTicks, sim.tick, sim.script, total)
      invariant cause != Limit ==> |taken| == total
      invariant OnSchedule(p, taken)
      invariant forall k :: 0 < k < |taken| ==> Due(p, k) <= p.maxtick
      invariant |taken| <= 1 || |taken| <= p.most
      invariant taken != [] && cause != Limit ==> Ended(p, q, taken, exit, sim.tick)
      invariant taken == [] ==>
                  && cause != Limit
                  && if old(sim.tick) > p.when then exit == Rejected && sim.tick == old(sim.tick)
                     else
                       && exit == Cause(old(sim.script)) != Limit
                       && sim.tick == Min(p.when, old(sim.tick) + Gone(old(sim.script)))
      decreases |sim.script|, cause == Limit
    {
      GoingMeans(p, q, taken, simTicks, sim.tick, sim.script, total);
      if simTicks + p.period > p.maxtick {
        ghost var now := sim.tick;
        exit := sim.Simulate(p.maxtick - simTicks);
        cause := exit;
        EndedLast(p, q, taken, exit, now, sim.tick);
        break;
      } else {
        cause, exit, taken := NextCheckpoint(p, sim, simTicks, taken, q, total);
        simTicks := simTicks + p.period;
      }
    }
    if taken != [] {
      if cause == Limit && |taken| >= p.most {
        GoingMeans(p, q, taken, simTicks, sim.tick, sim.script, total);
        EndedThere(p, q, taken, exit, sim.tick);
      }
      EndedBy(p, q, taken, exit, sim.tick);
      SecondInTime(p, old(sim.tick), old(sim.script));
    }
  }

  /** All has gone as scheduled, and how many checkpoints are still to come. */
  ghost predicate Going(p: Plan, q: seq<Reply>, taken: seq<Taken>, simTicks: int, tick: int,
                        script: seq<Reply>, total: nat)
  {
    && 0 < |taken| <= |q| && OnTime(p, taken)
    && q[|taken| - 1].exit == Limit && script == q[|taken|..]
    && simTicks == Due(p, |taken| - 1) && tick == simTicks + Late(taken, |taken|)
    && |taken| + Count(p, |taken|, Late(taken, |taken|), script) == total
  }

  lemma GoingNow(p: Plan, q: seq<Reply>, taken: seq<Taken>, simTicks: int, tick: int,
                 script: seq<Reply>, total: nat)
    requires 0 < |taken| <= |q| && OnTime(p, taken)
    requires q[|taken| - 1].exit == Limit && script == q[|taken|..]
    requires simTicks == Due(p, |taken| - 1) && tick == simTicks + Late(taken, |taken|)
    requires |taken| + Count(p, |taken|, Late(taken, |taken|), script) == total
    ensures Going(p, q, taken, simTicks, tick, script, total)
  {
  }

  lemma GoingMeans(p: Plan, q: seq<Reply>, taken: seq<Taken>, simTicks: int, tick: int,
                   script: seq<Reply>, total: nat)
    requires Going(p, q, taken, simTicks, tick, script, total)
    ensures 0 < |taken| <= |q| && q[|taken| - 1].exit == Limit && script == q[|taken|..]
    ensures simTicks == Due(p, |taken| - 1) && tick == simTicks + Late(taken, |taken|)
    ensures Due(p, |taken|) == simTicks + p.period
    ensures |taken| >= p.most || simTicks + p.period > p.maxtick ==> |taken| == total
  {
    hide Late, OnTime;
    DueNext(p, |taken| - 1);
  }

  /** The body of the loop for a checkpoint that is within bounds. */
  method NextCheckpoint(p: Plan, sim: Simulator, simTicks: int, before: seq<Taken>,
                        ghost q: seq<Reply>, ghost total: nat)
    returns (cause: Exit, exit: Exit, taken: seq<Taken>)
    requires Going(p, q, before, simTicks, sim.tick, sim.script, total)
    requires |before| < p.most && simTicks + p.period <= p.maxtick && OnSchedule(p, before)
    modifies sim
    ensures cause == Limit ==>
              && exit == Limit && |taken| == |before| + 1
              && Going(p, q, taken, simTicks + p.period, sim.tick, sim.script, total)
    ensures cause != Limit ==> |taken| == total && taken != [] && Ended(p, q, taken, exit, sim.tick)
    ensures before <= taken && |taken| <= |before| + 1 && OnSchedule(p, taken)
    ensures cause == Limit ==> |sim.script| < |old(sim.script)|
    ensures |sim.script| <= |old(sim.script)|
  {
    hide Due, Late, OnTime, OnSchedule, Reaches, Skip, Count, Missed, Stopped, Ended;
    taken := before;
    DueNext(p, |before| - 1);
    CountNext(p, |before|, Late(before, |before|), sim.script);
    cause, exit := RunPeriod(p, sim, simTicks, Late(before, |before|));
    if exit == Limit {
      var c := sim.Drain();
      OnTimeNext(p, before, c);
      taken := before + [c];
      EndedThere(p, q, taken, exit, sim.tick);
    } else {
      EndedShort(p, q, taken, exit, sim.tick);
    }
  }

  /** With the last checkpoint due by maxtick, only draining takes the run past that; and from a
      first one that is due later, the run does not go on. */
  lemma EndedBy(p: Plan, q: seq<Reply>, taken: seq<Taken>, exit: Exit, tick: int)
    requires taken != [] && Ended(p, q, taken, exit, tick)
    ensures Due(p, |taken| - 1) <= p.maxtick ==> tick <= p.maxtick + Late(taken, |taken|)
    ensures |taken| == 1 < p.most && p.when > p.maxtick && q[0].exit != GuestCheckpoint ==> exit == Rejected
  {
    hide Gone, Cause, Missed;
    assert Late(taken, |taken|) == Late(taken, |taken| - 1) + taken[|taken| - 1].drain;
    assert Due(p, 0) == p.when;
  }

  lemma CountFirst(p: Plan, tick: int, rs: seq<Reply>)
    ensures Reaches(rs) <==> Cause(rs) == Limit
    ensures tick > p.when || !Reaches(rs) ==> CountAll(p, tick, rs) == 0
    ensures tick <= p.when && Reaches(rs) ==>
              && |Skip(rs)| > 0 && Skip(rs)[0].exit == Limit
              && CountAll(p, tick, rs) == 1 + Count(p, 1, Skip(rs)[0].drain, Skip(rs)[1..])
  {
    hide Count;
  }

  lemma SecondInTime(p: Plan, tick: int, rs: seq<Reply>)
    ensures CountAll(p, tick, rs) > 1 ==> p.period >= 0 && p.when + p.period <= p.maxtick
  {
    assert Due(p, 1) == p.when + p.period;
  }

  lemma EndedLast(p: Plan, q: seq<Reply>, taken: seq<Taken>, exit: Exit, now: int, tick: int)
    requires 0 < |taken| <= |q| && q[|taken| - 1].exit == Limit && |taken| < p.most
    requires var due := Due(p, |taken| - 1);
             && due + p.period > p.maxtick && now == due + Late(taken, |taken|)
             && Replied(q[|taken|..], p.maxtick - due, exit, tick - now)
    ensures Ended(p, q, taken, exit, tick)
  {
    hide Due, Late, Replied;
  }

  lemma EndedShort(p: Plan, q: seq<Reply>, taken: seq<Taken>, exit: Exit, tick: int)
    requires 0 < |taken| <= |q| && q[|taken| - 1].exit == Limit && |taken| < p.most && exit != Limit
    requires var due := Due(p, |taken| - 1);
             && due + p.period <= p.maxtick
             && Stopped(p, due, Late(taken, |taken|), q[|taken|..], exit, tick)
    ensures Ended(p, q, taken, exit, tick)
  {
    hide Due, Late, Stopped;
  }

  /** The run ends where a checkpoint was written if it was the last one allowed, or interrupted. */
  lemma EndedThere(p: Plan, q: seq<Reply>, taken: seq<Taken>, exit: Exit, tick: int)
    requires taken != []
    ensures var n := |taken|;
            && n <= |q| && exit == Limit
            && (if q[n - 1].exit == GuestCheckpoint then tick == Due(p, n - 1) + taken[n - 1].drain
                else n >= p.most && tick == Due(p, n - 1) + Late(taken, n))
            ==> Ended(p, q, taken, exit, tick)
  {
    hide Due, Late;
  }

  lemma NothingTaken(p: Plan)
    ensures Late([], 0) == 0 && OnTime(p, []) && OnSchedule(p, []) && Due(p, 0) == p.when
  {
  }

  /** Where a run ends, and why, case by case: enough are written; the next one would come after
      the last tick, and the simulator goes on to that; or the next one is not reached, which the
      guest may have a part in. */
  lemma WhereItEnds(p: Plan, q: seq<Reply>, taken: seq<Taken>, exit: Exit, tick: int)
    requires taken != [] && Ended(p, q, taken, exit, tick)
    ensures |taken| <= |q|
    ensures var n := |taken|;
            var due := p.when + (n - 1) * p.period;
            var now := due + Late(taken, n);
            var next := due + p.period;
            if q[n - 1].exit == GuestCheckpoint then exit == Limit && tick == due + taken[n - 1].drain
            else if n >= p.most then exit == Limit && tick == now
            else if (next > p.maxtick && p.maxtick < due) || (next <= p.maxtick && next < due) then
              exit == Rejected && tick == now
            else if n == |q| then exit == Waiting && tick == now
            else if next > p.maxtick then
              && exit == q[n].exit
              && (exit == Limit ==> tick == p.maxtick + Late(taken, n))
              && (exit != Limit ==> tick == Min(now + q[n].ran, p.maxtick + Late(taken, n)))
            else if q[n].exit != GuestCheckpoint then
              exit == q[n].exit != Limit && tick == Min(now + q[n].ran, now + p.period)
            else if now + q[n].ran > next && now + p.period > next then
              exit == Rejected && tick == Min(now + q[n].ran, now + p.period)
            else exit == Cause(q[n..]) != Limit && tick == Min(next, now + Gone(q[n..]))
  {
    hide Late, Gone, Cause, Skip;
  }

  /** The guest's stops add up, and the one after them counts as well. */
  lemma {:induction false} GoneAddsUp(guests: seq<Reply>, last: Reply, rest: seq<Reply>)
    requires forall k :: 0 <= k < |guests| ==> guests[k].exit == GuestCheckpoint
    requires last.exit != GuestCheckpoint
    ensures Gone(guests + [last] + rest) == Gone(guests) + last.ran
    ensures Skip(guests + [last] + rest) == [last] + rest && Skip(guests) == []
    ensures Cause(guests + [last] + rest) == last.exit && Cause(guests) == Waiting
  {
    var rs := guests + [last] + rest;
    if guests == [] {
      assert rs == [last] + rest;
    } else {
      assert rs[1..] == guests[1..] + [last] + rest;
      GoneAddsUp(guests[1..], last, rest);
    }
  }

  /** Stops after the same number of ticks each. */
  lemma {:induction false} GoneEachTime(guests: seq<Reply>, ran: nat)
    requires forall k :: 0 <= k < |guests| ==> guests[k].exit == GuestCheckpoint && guests[k].ran == ran
    ensures Gone(guests) == |guests| * ran
  {
    if guests != [] {
      GoneEachTime(guests[1..], ran);
      assert |guests| * ran == ran + (|guests| - 1) * ran;
    }
  }

  /** Without draining, checkpoint k is written exactly when it is due. */
  lemma {:induction false} ExactSchedule(p: Plan, taken: seq<Taken>, k: nat)
    requires OnSchedule(p, taken) && k < |taken|
    requires forall j :: 0 <= j < k ==> taken[j].drain == 0
    ensures taken[k].tick == Due(p, k)
  {
    NoDrainNoDelay(taken, k);
  }

  lemma {:induction false} NoDrainNoDelay(taken: seq<Taken>, k: nat)
    requires k <= |taken| && forall j :: 0 <= j < k ==> taken[j].drain == 0
    ensures Late(taken, k) == 0
  {
    if k > 0 {
      NoDrainNoDelay(taken, k - 1);
    }
  }

  // ----- Checkpoints the guest asks for

  /** How many checkpoints from number k on would be written if those the guest asks for were
      always skipped. */
  function Promised(p: Plan, k: nat, rs: seq<Reply>): nat
    decreases |rs|
  {
    if !Allowed(p, k) || !Reaches(rs) then 0 else 1 + Promised(p, k + 1, Skip(rs)[1..])
  }

  /** The script left after d more checkpoints. */
  function Rest(rs: seq<Reply>, d: nat): (rest: seq<Reply>)
    decreases d
  {
    if d == 0 || !Reaches(rs) then rs else Rest(Skip(rs)[1..], d - 1)
  }

  /** How late the run is after d more checkpoints. */
  function LateAfter(late: nat, rs: seq<Reply>, d: nat): nat
    decreases d
  {
    if d == 0 || !Reaches(rs) then late else LateAfter(late + Skip(rs)[0].drain, Skip(rs)[1..], d - 1)
  }

  /** As long as the guest asks for nothing, all promised checkpoints are written. */
  lemma {:induction false} UninterruptedIsPromised(p: Plan, k: nat, late: nat, rs: seq<Reply>)
    requires forall c: nat :: c < Promised(p, k, rs) ==> !Interrupted(Rest(rs, c))
    ensures Count(p, k, late, rs) == Promised(p, k, rs)
    decreases |rs|
  {
    if Allowed(p, k) && Reaches(rs) {
      assert !Interrupted(Rest(rs, 0));
      var next := rs[1..];
      forall c: nat | c < Promised(p, k + 1, next) ensures !Interrupted(Rest(next, c)) {
        assert Rest(rs, c + 1) == Rest(next, c);
      }
      UninterruptedIsPromised(p, k + 1, late + rs[0].drain, next);
    }
  }

  /** The first checkpoint after an interruption by the guest is the last one written. */
  lemma {:induction false} InterruptionEndsSchedule(p: Plan, k: nat, late: nat, rs: seq<Reply>, d: nat)
    requires d < Promised(p, k, rs) && Interrupted(Rest(rs, d))
    requires forall c: nat :: c < d ==> !Interrupted(Rest(rs, c))
    ensures Count(p, k, late, rs) ==
              d + if Missed(p, LateAfter(late, rs, d), Rest(rs, d)[0]) then 0 else 1
    decreases |rs|
  {
    if d > 0 {
      assert !Interrupted(Rest(rs, 0));
      var next := rs[1..];
      forall c: nat | c < d - 1 ensures !Interrupted(Rest(next, c)) {
        assert Rest(rs, c + 1) == Rest(next, c);
      }
      InterruptionEndsSchedule(p, k + 1, late + rs[0].drain, next, d - 1);
    }
  }

  lemma {:induction false} FirstInterruption(rs: seq<Reply>, c: nat) returns (d: nat)
    requires Interrupted(Rest(rs, c))
    ensures d <= c && Interrupted(Rest(rs, d))
    ensures forall b: nat :: b < d ==> !Interrupted(Rest(rs, b))
  {
    d := 0;
    while !Interrupted(Rest(rs, d))
      invariant d <= c && forall b: nat :: b < d ==> !Interrupted(Rest(rs, b))
      decreases c - d
    {
      d := d + 1;
    }
  }

  /** Checkpoint number k + c is the last promised one, and not missed. */
  predicate Harmless(p: Plan, k: nat, late: nat, rs: seq<Reply>, c: nat) {
    Interrupted(Rest(rs, c)) ==>
      c == Promised(p, k, rs) - 1 && !Missed(p, LateAfter(late, rs, c), Rest(rs, c)[0])
  }

  ghost predicate AllHarmless(p: Plan, k: nat, late: nat, rs: seq<Reply>) {
    forall c: nat :: c < Promised(p, k, rs) ==> Harmless(p, k, late, rs, c)
  }

  /** All promised checkpoints are written if and only if the guest asks for none before the last
      of them, and for that one early enough. */
  lemma AllWrittenIff(p: Plan, k: nat, late: nat, rs: seq<Reply>)
    ensures Count(p, k, late, rs) <= Promised(p, k, rs)
    ensures Count(p, k, late, rs) == Promised(p, k, rs) <==> AllHarmless(p, k, late, rs)
  {
    hide Count, Promised, Rest, LateAfter, Missed;
    if c: nat :| c < Promised(p, k, rs) && Interrupted(Rest(rs, c)) {
      var d := FirstInterruption(rs, c);
      InterruptionEndsSchedule(p, k, late, rs, d);
      assert Harmless(p, k, late, rs, d) <==> Count(p, k, late, rs) == Promised(p, k, rs);
    } else {
      UninterruptedIsPromised(p, k, late, rs);
    }
  }

  function PromisedAll(p: Plan, tick: int, rs: seq<Reply>): nat {
    if tick > p.when || !Reaches(rs) then 0 else 1 + Promised(p, 1, Skip(rs)[1..])
  }

  /** So the whole schedule is kept if and only if no checkpoint of the guest does harm after the
      first scripted one; and none is written or promised without the first. */
  lemma ScheduleKeptIff(p: Plan, tick: int, rs: seq<Reply>)
    ensures tick > p.when || !Reaches(rs) ==> CountAll(p, tick, rs) == PromisedAll(p, tick, rs) == 0
    ensures tick <= p.when && Reaches(rs) ==>
              var late, rest := Skip(rs)[0].drain, Skip(rs)[1..];
              CountAll(p, tick, rs) == PromisedAll(p, tick, rs) <==> AllHarmless(p, 1, late, rest)
  {
    hide Count, Promised, AllHarmless, Skip;
    if tick <= p.when && Reaches(rs) {
      AllWrittenIff(p, 1, Skip(rs)[0].drain, Skip(rs)[1..]);
    }
  }

  /** Three checkpoints fit, and the simulator gets to all three, but the guest asks for one
      before the second. */
  lemma GuestEndsSchedule()
    ensures var p := Plan(10, 5, 3, 100);
            var go, guest := Reply(Limit, 0, 0), Reply(GuestCheckpoint, 2, 0);
            var rs := [go, guest, go, go];
            CountAll(p, 0, rs) == 2 && PromisedAll(p, 0, rs) == 3
  {
    var p := Plan(10, 5, 3, 100);
    var go, guest := Reply(Limit, 0, 0), Reply(GuestCheckpoint, 2, 0);
    var rs := [go, guest, go, go];
    var rest := rs[1..];
    assert rest == [guest, go, go] && rest[1..] == [go, go] && [go, go][1..] == [go];
    assert Skip(rs) == rs && Skip(rest) == [go, go] && Skip([go]) == [go];
    assert Count(p, 1, 0, rest) == 1;
    assert Promised(p, 2, [go]) == 1;
    assert Promised(p, 1, rest) == 2;
  }
}
