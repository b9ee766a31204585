/** The checkpoint migration scheduler on values: which tags are still to be applied, one round
    of "everything ready", and whole runs of rounds until nothing is left or nothing is ready. */
module MigrationSchedule {
  import opened Counting

  datatype Tag = Tag(name: string)

  /** What the scheduler sees of the loaded upgraders: the tags to add, the tags to remove, and
      the resolved dependencies of every tag. */
  datatype Registry = Registry(ups: set<Tag>, downs: set<Tag>, deps: map<Tag, set<Tag>>) {
    ghost predicate WellFormed() {
      deps.Keys == ups + downs && ups !! downs
    }

    /** Passed the audit of load_all: nobody depends on a nonexistent tag. */
    ghost predicate Audited() {
      forall t, d :: t in deps && d in deps[t] ==> d in deps
    }

    ghost predicate UpgradeOnly() {
      downs == {}
    }
  }

  predicate Ready(r: Registry, t: Tag, tags: set<Tag>)
    requires t in r.deps
  {
    r.deps[t] <= tags
  }

  function Todo(r: Registry, tags: set<Tag>): set<Tag> {
    (r.ups - tags) + (r.downs * tags)
  }

  function ReadySet(r: Registry, tags: set<Tag>): set<Tag>
    requires r.WellFormed()
  {
    set t | t in Todo(r, tags) && Ready(r, t, tags)
  }

  /** Tags after applying a batch: upgraders add their tag, downgraders remove it. */
  function Apply(r: Registry, batch: set<Tag>, tags: set<Tag>): set<Tag> {
    (tags + batch * r.ups) - batch * r.downs
  }

  function Step(r: Registry, tags: set<Tag>): set<Tag>
    requires r.WellFormed()
  {
    Apply(r, ReadySet(r, tags), tags)
  }

  datatype Outcome = Done(tags: set<Tag>) | Stuck(tags: set<Tag>)

  /** Whatever the outcome, a run stops where nothing is ready any more, and it is done only when
      nothing is left. */
  function Run(r: Registry, tags: set<Tag>): (o: Outcome)
    requires r.WellFormed()
    ensures ReadySet(r, o.tags) == {}
    ensures o.Done? <==> Todo(r, o.tags) == {}
    decreases Todo(r, tags)
  {
    if Todo(r, tags) == {} then Done(tags)
    else if ReadySet(r, tags) == {} then Stuck(tags)
    else
      StepShrinksTodo(r, tags);
      Run(r, Step(r, tags))
  }

  /** The tags present after k rounds. */
  function After(r: Registry, tags: set<Tag>, k: nat): set<Tag>
    requires r.WellFormed()
  {
    if k == 0 then tags else Step(r, After(r, tags, k - 1))
  }

  // ----- What a batch does to the work that is left

  lemma ApplyShrinksTodo(r: Registry, batch: set<Tag>, tags: set<Tag>)
    requires r.WellFormed() && batch <= Todo(r, tags)
    ensures Todo(r, Apply(r, batch, tags)) == Todo(r, tags) - batch
  {
    assert forall t :: t in Todo(r, Apply(r, batch, tags)) <==> t in Todo(r, tags) - batch;
  }

  lemma StepShrinksTodo(r: Registry, tags: set<Tag>)
    requires r.WellFormed()
    ensures Todo(r, Step(r, tags)) == Todo(r, tags) - ReadySet(r, tags)
  {
    ApplyShrinksTodo(r, ReadySet(r, tags), tags);
  }

  /** The tags a run ends with are those after some number of rounds. */
  lemma {:induction false} RunIsAfter(r: Registry, tags: set<Tag>) returns (k: nat)
    requires r.WellFormed()
    ensures Run(r, tags).tags == After(r, tags, k)
    decreases Todo(r, tags)
  {
    if ReadySet(r, tags) == {} {
      k := 0;
    } else {
      StepShrinksTodo(r, tags);
      var next := Step(r, tags);
      var j := RunIsAfter(r, next);
      AfterShift(r, tags, j);
      assert Run(r, tags) == Run(r, next);
      k := j + 1;
    }
  }

  lemma {:induction false} AfterShift(r: Registry, tags: set<Tag>, k: nat)
    requires r.WellFormed()
    ensures After(r, Step(r, tags), k) == After(r, tags, k + 1)
  {
    if k > 0 {
      AfterShift(r, tags, k - 1);
    }
  }

  lemma {:induction false} FixpointStays(r: Registry, tags: set<Tag>, k: nat)
    requires r.WellFormed() && ReadySet(r, tags) == {}
    ensures After(r, tags, k) == tags
  {
    if k > 0 {
      FixpointStays(r, tags, k - 1);
      assert Step(r, tags) == tags;
    }
  }

  lemma {:induction false} AfterSum(r: Registry, tags: set<Tag>, j: nat, k: nat)
    requires r.WellFormed()
    ensures After(r, After(r, tags, j), k) == After(r, tags, j + k)
  {
    if k > 0 {
      AfterSum(r, tags, j, k - 1);
    }
  }

  // ----- Mixed registries: the final tags, and running again

  lemma {:induction false} UnrelatedTagsKept(r: Registry, tags: set<Tag>, k: nat)
    requires r.WellFormed()
    ensures After(r, tags, k) - r.ups - r.downs == tags - r.ups - r.downs
    ensures tags * r.ups <= After(r, tags, k)
    ensures After(r, tags, k) * r.downs <= tags
  {
    if k > 0 {
      UnrelatedTagsKept(r, tags, k - 1);
    }
  }

  /** A run that succeeds ends with exactly the old and the upgraded tags, less the downgraded. */
  lemma FinalTags(r: Registry, tags: set<Tag>)
    requires r.WellFormed()
    ensures Run(r, tags).Done? ==> Run(r, tags).tags == (tags + r.ups) - r.downs
  {
    var k := RunIsAfter(r, tags);
    UnrelatedTagsKept(r, tags, k);
    if Run(r, tags).Done? {
      var f := Run(r, tags).tags;
      assert r.ups - f == {} && r.downs * f == {} by {
        assert Todo(r, f) == {};
      }
      forall t ensures t in f <==> t in (tags + r.ups) - r.downs {
        assert t in f - r.ups - r.downs <==> t in tags - r.ups - r.downs;
        assert t in r.ups ==> t !in r.ups - f;
        assert t in r.downs ==> t !in r.downs * f;
      }
    }
  }

  /** "A tag can only be used once": a tag with both an upgrader and a downgrader is work on
      every checkpoint, so some checkpoint is up to date exactly when there is no such tag. */
  lemma UpToDateIffDisjoint(r: Registry)
    ensures (exists tags :: Todo(r, tags) == {}) <==> r.ups !! r.downs
  {
    if r.ups !! r.downs {
      assert Todo(r, r.ups) == {};
    } else {
      var t :| t in r.ups && t in r.downs;
      forall tags ensures Todo(r, tags) != {} {
        assert t in Todo(r, tags);
      }
    }
  }

  // ----- Dependencies on a tag that has a downgrader

  /** The documented rule: when a tag is applied, every downgraded tag it depends on is gone. */
  ghost predicate DowngradesPrecede(r: Registry, tags: set<Tag>)
    requires r.WellFormed()
  {
    forall k: nat, t, d :: t in ReadySet(r, After(r, tags, k)) && d in r.deps[t] && d in r.downs
                           ==> d !in After(r, tags, k)
  }

  /** The code meets the documented rule in a run that succeeds exactly when no tag that has work
      to do depends on a downgraded tag: `ready` asks for such a tag to be there, not gone. */
  lemma DowngradesPrecedeIff(r: Registry, tags: set<Tag>)
    requires r.WellFormed() && Run(r, tags).Done?
    ensures DowngradesPrecede(r, tags) <==>
            forall t, d :: t in Todo(r, tags) && d in r.deps[t] ==> d !in r.downs
  {
    var n := RunIsAfter(r, tags);
    forall t | t in Todo(r, tags)
      ensures exists k: nat :: t in ReadySet(r, After(r, tags, k))
    {
      var k, at := RoundOf(r, tags, t, n);
    }
    forall k: nat, t | t in ReadySet(r, After(r, tags, k))
      ensures t in Todo(r, tags)
    {
      TodoShrinks(r, tags, k);
    }
  }

  lemma {:induction false} TodoShrinks(r: Registry, tags: set<Tag>, k: nat)
    requires r.WellFormed()
    ensures Todo(r, After(r, tags, k)) <= Todo(r, tags)
  {
    if k > 0 {
      TodoShrinks(r, tags, k - 1);
      StepShrinksTodo(r, After(r, tags, k - 1));
    }
  }

  /** The round (from 0) in which a tag that is done after n rounds was applied, and the tags
      that round starts with. */
  lemma {:induction false} RoundOf(r: Registry, tags: set<Tag>, t: Tag, n: nat)
    returns (k: nat, at: set<Tag>)
    requires r.WellFormed() && t in Todo(r, tags) && t !in Todo(r, After(r, tags, n))
    ensures k < n && at == After(r, tags, k) && t in ReadySet(r, at)
  {
    var before := After(r, tags, n - 1);
    StepShrinksTodo(r, before);
    if t in Todo(r, before) {
      k, at := n - 1, before;
    } else {
      k, at := RoundOf(r, tags, t, n - 1);
    }
  }

  /** Worse than the wrong order: a tag that depends on a downgraded tag which is already gone is
      never applied, so the run aborts. */
  lemma RemovedDependencyAborts(r: Registry, tags: set<Tag>, t: Tag, d: Tag)
    requires r.WellFormed() && t in Todo(r, tags) && d in r.deps[t] && d in r.downs && d !in tags
    ensures Run(r, tags).Stuck?
  {
    var n := RunIsAfter(r, tags);
    if Run(r, tags).Done? {
      var k, at := RoundOf(r, tags, t, n);
      UnrelatedTagsKept(r, tags, k);
    }
  }

  /** The documented rule does fail: a depends on the downgraded b, is applied while b is still
      there, and the run succeeds. */
  lemma DowngradesPrecedeFails(a: Tag, b: Tag)
    requires a != b
    ensures var r := Registry({a}, {b}, map[a := {b}, b := {}]);
            r.WellFormed() && r.Audited() && Run(r, {b}).Done? && !DowngradesPrecede(r, {b})
  {
    var r := Registry({a}, {b}, map[a := {b}, b := {}]);
    assert Todo(r, {b}) == {a, b};
    assert ReadySet(r, {b}) == {a, b};
    assert Step(r, {b}) == {a};
    assert Todo(r, {a}) == {};
    assert Run(r, {a}).Done?;
    assert After(r, {b}, 0) == {b};
    assert a in ReadySet(r, After(r, {b}, 0)) && b in r.deps[a];
  }

  // ----- Upgrade-only registries: rounds are chain lengths

  function Missing(r: Registry, tags: set<Tag>): set<Tag> {
    r.ups - tags
  }

  /** Each tag of the chain depends on the next, and all of them are missing. */
  ghost predicate Chain(r: Registry, tags: set<Tag>, c: seq<Tag>) {
    && r.WellFormed()
    && (forall i :: 0 <= i < |c| ==> c[i] in Missing(r, tags))
    && (forall i :: 0 < i < |c| ==> c[i] in r.deps[c[i - 1]])
  }

  ghost predicate ChainFrom(r: Registry, tags: set<Tag>, t: Tag, n: nat) {
    exists c :: Chain(r, tags, c) && |c| == n && n > 0 && c[0] == t
  }

  /** A dependency cycle among the missing tags. */
  ghost predicate Cycle(r: Registry, tags: set<Tag>, c: seq<Tag>) {
    Chain(r, tags, c) && |c| > 0 && c[0] in r.deps[c[|c| - 1]]
  }

  lemma ChainCons(r: Registry, tags: set<Tag>, t: Tag, n: nat)
    requires r.WellFormed() && n > 0
    ensures ChainFrom(r, tags, t, n + 1) <==>
            t in Missing(r, tags) && exists d :: d in r.deps[t] && ChainFrom(r, tags, d, n)
  {
    if c :| Chain(r, tags, c) && |c| == n + 1 && c[0] == t {
      assert Chain(r, tags, c[1..]) && c[1..][0] == c[1];
      assert c[1] in r.deps[t] && ChainFrom(r, tags, c[1], n);
    }
    if t in Missing(r, tags) {
      if d :| d in r.deps[t] && ChainFrom(r, tags, d, n) {
        var c :| Chain(r, tags, c) && |c| == n && c[0] == d;
        assert Chain(r, tags, [t] + c) && ([t] + c)[0] == t;
      }
    }
  }

  lemma ChainPrefix(r: Registry, tags: set<Tag>, t: Tag, n: nat)
    requires n > 0 && ChainFrom(r, tags, t, n + 1)
    ensures ChainFrom(r, tags, t, n)
  {
    var c :| Chain(r, tags, c) && |c| == n + 1 && c[0] == t;
    assert Chain(r, tags, c[..n]) && c[..n][0] == t;
  }

  /** With no downgraders, a tag waits on after a round exactly when a dependency was waiting. */
  lemma WaitsForDependency(r: Registry, tags: set<Tag>, t: Tag)
    requires r.WellFormed() && r.Audited() && r.UpgradeOnly()
    ensures t in Todo(r, Step(r, tags)) <==>
            t in Todo(r, tags) && exists d :: d in r.deps[t] && d in Todo(r, tags)
  {
    StepShrinksTodo(r, tags);
    if t in Todo(r, Step(r, tags)) {
      var d :| d in r.deps[t] && d !in tags;
      assert d in Todo(r, tags);
    }
  }

  lemma WaitingIsMissing(r: Registry, tags: set<Tag>, k: nat, t: Tag)
    requires r.WellFormed() && r.UpgradeOnly()
    ensures t in Todo(r, After(r, tags, k)) ==> t in Missing(r, tags)
    ensures t in Todo(r, tags) <==> ChainFrom(r, tags, t, 1)
  {
    TodoShrinks(r, tags, k);
    if t in Todo(r, tags) {
      assert Chain(r, tags, [t]);
    }
  }

  /** After k rounds, a tag is still waiting exactly when it starts a dependency chain of more
      than k missing tags. */
  lemma {:induction false} WaitingIffLongChain(r: Registry, tags: set<Tag>, k: nat, t: Tag)
    requires r.WellFormed() && r.Audited() && r.UpgradeOnly()
    ensures t in Todo(r, After(r, tags, k)) <==> ChainFrom(r, tags, t, k + 1)
  {
    hide ChainFrom, Todo, Missing, Step;
    WaitingIsMissing(r, tags, k, t);
    if k > 0 {
      var before := After(r, tags, k - 1);
      WaitsForDependency(r, before, t);
      ChainCons(r, tags, t, k);
      WaitingIffLongChain(r, tags, k - 1, t);
      forall d ensures d in Todo(r, before) <==> ChainFrom(r, tags, d, k) {
        WaitingIffLongChain(r, tags, k - 1, d);
      }
      if ChainFrom(r, tags, t, k + 1) {
        ChainPrefix(r, tags, t, k);
      }
    }
  }

  /** A tag is applied in round k (from 1) exactly when its longest chain of missing tags has
      k members. */
  lemma RoundIsLongestChain(r: Registry, tags: set<Tag>, k: nat, t: Tag)
    requires r.WellFormed() && r.Audited() && r.UpgradeOnly() && k > 0
    ensures t in ReadySet(r, After(r, tags, k - 1)) <==>
            ChainFrom(r, tags, t, k) && !ChainFrom(r, tags, t, k + 1)
  {
    WaitingIffLongChain(r, tags, k - 1, t);
    WaitingIffLongChain(r, tags, k, t);
    StepShrinksTodo(r, After(r, tags, k - 1));
  }

  // ----- Abort means a cycle

  lemma {:induction false} CycleUnrolls(r: Registry, tags: set<Tag>, c: seq<Tag>, n: nat)
    requires Cycle(r, tags, c) && n > 0
    ensures ChainFrom(r, tags, c[0], n)
  {
    if n <= |c| {
      assert Chain(r, tags, c[..n]) && c[..n][0] == c[0];
    } else {
      CycleUnrolls(r, tags, c, n - |c|);
      var u :| Chain(r, tags, u) && |u| == n - |c| && u[0] == c[0];
      assert Chain(r, tags, c + u) && (c + u)[0] == c[0];
    }
  }

  /** More missing tags in a row than there are: some tag comes round again. */
  lemma LongChainCycles(r: Registry, tags: set<Tag>, t: Tag, n: nat)
    requires ChainFrom(r, tags, t, n) && n > |Missing(r, tags)|
    ensures exists loop :: Cycle(r, tags, loop)
  {
    var c :| Chain(r, tags, c) && |c| == n && c[0] == t;
    Pigeonhole(c, Missing(r, tags));
    var i, j :| 0 <= i < j < |c| && c[i] == c[j];
    assert Cycle(r, tags, c[i..j]);
  }

  /** A tag that waits where a run stops starts chains of every length. */
  lemma StuckForever(r: Registry, tags: set<Tag>, n: nat, t: Tag, m: nat)
    requires r.WellFormed() && r.Audited() && r.UpgradeOnly()
    requires ReadySet(r, After(r, tags, n)) == {} && t in Todo(r, After(r, tags, n))
    ensures ChainFrom(r, tags, t, n + m + 1)
  {
    FixpointStays(r, After(r, tags, n), m);
    AfterSum(r, tags, n, m);
    WaitingIffLongChain(r, tags, n + m, t);
  }

  lemma StuckCycles(r: Registry, tags: set<Tag>, n: nat, t: Tag)
    requires r.WellFormed() && r.Audited() && r.UpgradeOnly()
    requires ReadySet(r, After(r, tags, n)) == {} && t in Todo(r, After(r, tags, n))
    ensures exists c :: Cycle(r, tags, c)
  {
    var m := |Missing(r, tags)|;
    StuckForever(r, tags, n, t, m);
    LongChainCycles(r, tags, t, n + m + 1);
  }

  /** For every audited upgrade-only registry and every checkpoint, the migration aborts exactly
      when the dependencies among the missing tags contain a cycle. */
  lemma AbortIffCycle(r: Registry, tags: set<Tag>)
    requires r.WellFormed() && r.Audited() && r.UpgradeOnly()
    ensures Run(r, tags).Stuck? <==> exists c :: Cycle(r, tags, c)
  {
    var n := RunIsAfter(r, tags);
    if Run(r, tags).Stuck? {
      var t :| t in Todo(r, After(r, tags, n));
      StuckCycles(r, tags, n, t);
    }
    if c :| Cycle(r, tags, c) {
      CycleUnrolls(r, tags, c, n + 1);
      WaitingIffLongChain(r, tags, n, c[0]);
    }
  }

  // ----- Any order will do

  /** A schedule applies missing tags one at a time, each once and each with all its dependencies
      present, in whatever order. */
  ghost predicate Schedule(r: Registry, tags: set<Tag>, s: seq<Tag>)
    requires r.WellFormed()
  {
    && (forall i :: 0 <= i < |s| ==> s[i] in Missing(r, tags))
    && Distinct(s)
    && (forall i :: 0 <= i < |s| ==> Ready(r, s[i], tags + Elements(s[..i])))
  }

  ghost predicate Maximal(r: Registry, tags: set<Tag>, s: seq<Tag>)
    requires r.WellFormed()
  {
    forall t :: t in Missing(r, tags) && t !in s ==> !Ready(r, t, tags + Elements(s))
  }

  lemma {:induction false} ScheduleWithin(r: Registry, tags: set<Tag>, s: seq<Tag>, f: set<Tag>)
    requires r.WellFormed() && r.UpgradeOnly() && Schedule(r, tags, s)
    requires tags <= f && ReadySet(r, f) == {}
    ensures Elements(s) <= f
  {
    if s != [] {
      var front, last := s[..|s| - 1], s[|s| - 1];
      assert forall i :: 0 <= i < |front| ==> front[..i] == s[..i];
      ScheduleWithin(r, tags, front, f);
      assert Ready(r, last, tags + Elements(front));
      assert last in ReadySet(r, f) || last in f;
    }
  }

  lemma {:induction false} RoundsWithin(r: Registry, tags: set<Tag>, s: seq<Tag>, k: nat)
    requires r.WellFormed() && r.UpgradeOnly() && Maximal(r, tags, s)
    ensures After(r, tags, k) <= tags + Elements(s)
  {
    if k > 0 {
      RoundsWithin(r, tags, s, k - 1);
      var before := After(r, tags, k - 1);
      TodoShrinks(r, tags, k - 1);
      forall t | t in ReadySet(r, before)
        ensures t in s
      {
        assert Ready(r, t, tags + Elements(s));
      }
    }
  }

  /** Confluence: every schedule that cannot go on ends with the tags the rounds end with, and it
      covers all missing tags exactly when the rounds succeed. */
  lemma AnyOrderSameResult(r: Registry, tags: set<Tag>, s: seq<Tag>)
    requires r.WellFormed() && r.UpgradeOnly() && Schedule(r, tags, s) && Maximal(r, tags, s)
    ensures tags + Elements(s) == Run(r, tags).tags
    ensures Elements(s) == Missing(r, tags) <==> Run(r, tags).Done?
  {
    var n := RunIsAfter(r, tags);
    RoundsWithin(r, tags, s, n);
    AfterGrows(r, tags, n);
    ScheduleWithin(r, tags, s, After(r, tags, n));
    assert Elements(s) <= Missing(r, tags);
    if Run(r, tags).Done? {
      FinalTags(r, tags);
    }
  }

  lemma {:induction false} AfterGrows(r: Registry, tags: set<Tag>, k: nat)
    requires r.WellFormed() && r.UpgradeOnly()
    ensures tags <= After(r, tags, k)
  {
    if k > 0 {
      AfterGrows(r, tags, k - 1);
    }
  }
}
