/** The timeline of one instruction: which line and which column each pipeline stage is drawn at,
    in the compact form that wraps round on one line and in the form with several lines. */
module PipeTimeline {
  import opened Sorting
  import opened PipeSorter
  import Arithmetic
  import Text

  /** Stages are numbered in pipeline order: fetch 0, decode 1, rename 2, dispatch 3, issue 4,
      complete 5, retire 6, store completion 7. */
  function Tick(i: Inst, stage: nat): nat
    requires stage < 8
  {
    [i.fetch, i.decode, i.rename, i.dispatch, i.issue, i.complete, i.retire, i.store][stage]
  }

  function Letter(stage: nat): char
    requires stage < 8
  {
    "fdnpicrs"[stage]
  }

  function StageName(stage: nat): string
    requires stage < 8
  {
    ["fetch", "decode", "rename", "dispatch", "issue", "complete", "retire", "store"][stage]
  }

  /** The stages one by one: the tick, the letter and the name. */
  lemma StagesAre(i: Inst)
    ensures Tick(i, 0) == i.fetch && Letter(0) == 'f' && StageName(0) == "fetch"
    ensures Tick(i, 1) == i.decode && Letter(1) == 'd' && StageName(1) == "decode"
    ensures Tick(i, 2) == i.rename && Letter(2) == 'n' && StageName(2) == "rename"
    ensures Tick(i, 3) == i.dispatch && Letter(3) == 'p' && StageName(3) == "dispatch"
    ensures Tick(i, 4) == i.issue && Letter(4) == 'i' && StageName(4) == "issue"
    ensures Tick(i, 5) == i.complete && Letter(5) == 'c' && StageName(5) == "complete"
    ensures Tick(i, 6) == i.retire && Letter(6) == 'r' && StageName(6) == "retire"
    ensures Tick(i, 7) == i.store && Letter(7) == 's' && StageName(7) == "store"
  {
  }

  datatype Event = Event(offset: nat, stage: nat)

  type Drawable = e: Event | e.stage < 8 witness Event(0, 0)

  /** Equal offsets are sorted by the names of the stages. */
  predicate ByOffset(a: Drawable, b: Drawable) {
    || a.offset < b.offset
    || (a.offset == b.offset && Text.CompareStrings(StageName(a.stage), StageName(b.stage)) <= 0)
  }

  lemma ByOffsetIsOrder()
    ensures TotalPreorder(ByOffset)
  {
    hide Text.CompareStrings, StageName;
    forall a: Drawable, b: Drawable ensures ByOffset(a, b) || ByOffset(b, a) {
      Text.CompareStringsOrder(StageName(a.stage), StageName(b.stage), []);
    }
    forall a: Drawable, b: Drawable, c: Drawable | ByOffset(a, b) && ByOffset(b, c)
      ensures ByOffset(a, c)
    {
      Text.CompareStringsOrder(StageName(a.stage), StageName(b.stage), StageName(c.stage));
    }
  }

  datatype Line = Line(start: nat, body: string)

  /** The parameters of one print. */
  datatype Print = Print(inst: Inst, cycleTime: nat, width: nat, stores: bool) {
    predicate Valid() {
      cycleTime > 0 && width > 0
    }

    function Stages(): nat {
      if stores then 8 else 7
    }

    function TimeWidth(): (w: nat)
      requires Valid()
      ensures w > 0
    {
      width * cycleTime
    }

    function Base(): (b: nat)
      requires Valid()
      ensures b <= inst.fetch < b + TimeWidth() && b % TimeWidth() == 0
    {
      var w := TimeWidth();
      assert inst.fetch == w * (inst.fetch / w) + inst.fetch % w;
      Arithmetic.DivUnique(inst.fetch / w * w, w, inst.fetch / w, 0);
      inst.fetch / w * w
    }

    /** The latest tick of a stage. */
    function Last(): (t: nat)
      ensures forall s :: 0 <= s < Stages() ==> Tick(inst, s) <= t
      ensures exists s :: 0 <= s < Stages() && Tick(inst, s) == t
      ensures inst.fetch <= t
    {
      MaxTick(inst, Stages())
    }

    function NumLines(): nat
      requires Valid()
    {
      if Last() - inst.fetch < TimeWidth() then 1 else (Last() - Base()) / TimeWidth() + 1
    }

    function Start(i: nat): nat
      requires Valid()
    {
      Base() + i * TimeWidth()
    }

    function End(i: nat): nat
      requires Valid()
    {
      Start(i) + TimeWidth() + if NumLines() == 1 then inst.fetch - Base() else 0
    }

    predicate OnLine(stage: nat, i: nat)
      requires Valid() && stage < 8
    {
      Tick(inst, stage) != 0 && Start(i) <= Tick(inst, stage) < End(i)
    }

    function Dot(): char {
      if inst.retire == 0 then '=' else '.'
    }

    /** A dispatch in the same tick as the issue is not drawn. */
    predicate Hidden(e: Event) {
      e.stage == 3 && inst.dispatch == inst.issue
    }
  }

  function MaxTick(i: Inst, n: nat): (t: nat)
    requires 0 < n <= 8
    ensures forall s :: 0 <= s < n ==> Tick(i, s) <= t
    ensures exists s :: 0 <= s < n && Tick(i, s) == t
    ensures i.fetch <= t
  {
    if n == 1 then Tick(i, 0)
    else
      var t := MaxTick(i, n - 1);
      if Tick(i, n - 1) > t then Tick(i, n - 1) else t
  }

  // ----- Where an event goes

  /** Dropping whole timelines and then counting cycles is counting cycles round the timeline. */
  lemma ColumnIsCycleModWidth(t: nat, width: nat, cycle: nat)
    requires width > 0 && cycle > 0
    ensures width * cycle > 0
    ensures t % (width * cycle) / cycle == t / cycle % width
    ensures t % (width * cycle) / cycle < width
  {
    var c, m := t / cycle, t % cycle;
    var q, k := c / width, c % width;
    Arithmetic.DivMod(t, cycle);
    Arithmetic.DivMod(c, width);
    Arithmetic.MulSplit(cycle, width, q, k);
    Arithmetic.MulMonotone(cycle, k + 1, width);
    Arithmetic.MulNext(cycle, k);
    Arithmetic.DivUnique(t, width * cycle, q, cycle * k + m);
    Arithmetic.DivUnique(cycle * k + m, cycle, k, m);
  }

  /** The line of a tick that is not before the base tick. */
  function LineOf(p: Print, t: nat): nat
    requires p.Valid() && p.Base() <= t
  {
    if p.NumLines() == 1 then 0 else Quotient(t - p.Base(), p.TimeWidth())
  }

  function Quotient(t: nat, w: nat): nat
    requires w > 0
  {
    t / w
  }

  /** Lines of width w from base on: t is on line i exactly when i is its quotient. */
  lemma OnLineIsQuotient(base: nat, w: nat, t: nat, i: nat)
    requires w > 0 && base <= t
    ensures base + i * w <= t < base + i * w + w <==> i == (t - base) / w
  {
    var d := t - base;
    assert d == w * (d / w) + d % w;
    assert i * w == w * i;
    if base + i * w <= t < base + i * w + w {
      Arithmetic.DivUnique(d, w, i, d - w * i);
    }
  }

  lemma QuotientMonotone(a: nat, b: nat, w: nat)
    requires w > 0 && a <= b
    ensures a / w <= b / w
  {
    assert a == w * (a / w) + a % w && b == w * (b / w) + b % w;
    assert w * (b / w + 1) == w * (b / w) + w;
    if a / w > b / w {
      Arithmetic.MulMonotone(w, b / w + 1, a / w);
    }
  }

  /** Every stage that was reached at or after the base tick is an event of exactly one line, and
      a stage before the base tick is an event of none. */
  lemma OnExactlyOneLine(p: Print, stage: nat, i: nat)
    requires p.Valid() && stage < p.Stages() && Tick(p.inst, stage) != 0
    ensures p.Base() <= Tick(p.inst, stage) ==> LineOf(p, Tick(p.inst, stage)) < p.NumLines()
    ensures i < p.NumLines() ==>
            (p.OnLine(stage, i) <==>
             p.Base() <= Tick(p.inst, stage) && i == LineOf(p, Tick(p.inst, stage)))
  {
    hide Tick;
    var t, w := Tick(p.inst, stage), p.TimeWidth();
    assert t <= p.Last();
    assert i * w >= 0;
    if p.Base() <= t {
      if p.NumLines() == 1 {
        assert i == 0 ==> p.Start(i) == p.Base();
      } else {
        OnLineIsQuotient(p.Base(), w, t, i);
        QuotientMonotone(t - p.Base(), p.Last() - p.Base(), w);
      }
    }
  }

  // ----- A line of cells: the reference

  function Column(e: Drawable, cycle: nat): nat
    requires cycle > 0
  {
    e.offset / cycle
  }

  /** The letters of the events in column c, in order. */
  function Marks(es: seq<Drawable>, cycle: nat, c: nat): string
    requires cycle > 0
  {
    if es == [] then []
    else
      var last := es[|es| - 1];
      Marks(es[..|es| - 1], cycle, c) + if Column(last, cycle) == c then [Letter(last.stage)] else []
  }

  function Cell(es: seq<Drawable>, cycle: nat, dot: char, c: nat): string
    requires cycle > 0
  {
    if Marks(es, cycle, c) == [] then [dot] else Marks(es, cycle, c)
  }

  /** The first n columns, each filled with its letters, or with a dot if it has none. */
  function Cells(es: seq<Drawable>, cycle: nat, dot: char, n: nat): string
    requires cycle > 0
  {
    if n == 0 then [] else Cells(es, cycle, dot, n - 1) + Cell(es, cycle, dot, n - 1)
  }

  function Dots(dot: char, n: int): string {
    if n <= 0 then [] else Dots(dot, n - 1) + [dot]
  }

  lemma MarksSnoc(es: seq<Drawable>, e: Drawable, cycle: nat, c: nat)
    requires cycle > 0
    ensures Marks(es + [e], cycle, c) ==
            Marks(es, cycle, c) + if Column(e, cycle) == c then [Letter(e.stage)] else []
  {
    assert (es + [e])[..|es + [e]| - 1] == es;
  }

  lemma {:induction false} NoMarks(es: seq<Drawable>, cycle: nat, c: nat)
    requires cycle > 0
    ensures Marks(es, cycle, c) == [] <==>
            forall i :: 0 <= i < |es| ==> Column(es[i], cycle) != c
  {
    hide Letter;
    if es != [] {
      NoMarks(es[..|es| - 1], cycle, c);
      assert forall i :: 0 <= i < |es| - 1 ==> es[..|es| - 1][i] == es[i];
    }
  }

  /** Columns before that of a new event are not touched by it. */
  lemma {:induction false} CellsBefore(es: seq<Drawable>, e: Drawable, cycle: nat, dot: char,
                                       n: nat)
    requires cycle > 0 && n <= Column(e, cycle)
    ensures Cells(es + [e], cycle, dot, n) == Cells(es, cycle, dot, n)
  {
    hide Marks;
    if n > 0 {
      CellsBefore(es, e, cycle, dot, n - 1);
      MarksSnoc(es, e, cycle, n - 1);
    }
  }

  /** Behind the last event there are only dots. */
  lemma {:induction false} CellsBehind(es: seq<Drawable>, cycle: nat, dot: char, pos: nat, n: nat)
    requires cycle > 0 && pos <= n
    requires forall i :: 0 <= i < |es| ==> Column(es[i], cycle) < pos
    ensures Cells(es, cycle, dot, n) == Cells(es, cycle, dot, pos) + Dots(dot, n - pos)
  {
    hide Marks;
    if n > pos {
      CellsBehind(es, cycle, dot, pos, n - 1);
      NoMarks(es, cycle, n - 1);
      var a, b := Cells(es, cycle, dot, pos), Dots(dot, n - 1 - pos);
      assert Cells(es, cycle, dot, n) == Cells(es, cycle, dot, n - 1) + [dot];
      assert Dots(dot, n - pos) == b + [dot];
      assert a + b + [dot] == a + (b + [dot]);
    }
  }

  /** One round of the drawing loop: dots up to the event's column, if there is room, and its
      letter. */
  lemma DrawNext(es: seq<Drawable>, e: Drawable, cycle: nat, dot: char, pos: nat)
    requires cycle > 0
    requires forall i :: 0 <= i < |es| ==> Column(es[i], cycle) < pos
    requires if es == [] then pos == 0
             else pos == Column(es[|es| - 1], cycle) + 1 && pos - 1 <= Column(e, cycle)
    ensures Cells(es + [e], cycle, dot, Column(e, cycle) + 1) ==
            Cells(es, cycle, dot, pos) + Dots(dot, Column(e, cycle) - pos) + [Letter(e.stage)]
  {
    hide Letter, Marks, Cells;
    var c := Column(e, cycle);
    CellsNext(es + [e], cycle, dot, c);
    CellsBefore(es, e, cycle, dot, c);
    MarksSnoc(es, e, cycle, c);
    NoMarks(es, cycle, c);
    if c >= pos {
      CellsBehind(es, cycle, dot, pos, c);
    } else {
      assert Column(es[|es| - 1], cycle) == c;
      CellsNext(es, cycle, dot, c);
      assert Cells(es, cycle, dot, pos) == Cells(es, cycle, dot, c) + Marks(es, cycle, c);
    }
  }

  ghost predicate ColumnsAscend(es: seq<Drawable>, cycle: nat)
    requires cycle > 0
  {
    forall i, j :: 0 <= i < j < |es| ==> Column(es[i], cycle) <= Column(es[j], cycle)
  }

  // ----- Exactly `width` glyphs

  ghost predicate DistinctColumns(es: seq<Drawable>, cycle: nat)
    requires cycle > 0
  {
    forall i, j :: 0 <= i < j < |es| ==> Column(es[i], cycle) != Column(es[j], cycle)
  }

  lemma {:induction false} OneMark(es: seq<Drawable>, cycle: nat, k: nat)
    requires cycle > 0 && DistinctColumns(es, cycle) && k < |es|
    ensures Marks(es, cycle, Column(es[k], cycle)) == [Letter(es[k].stage)]
  {
    hide Letter;
    var c, front := Column(es[k], cycle), es[..|es| - 1];
    assert forall i :: 0 <= i < |front| ==> front[i] == es[i];
    if k == |es| - 1 {
      NoMarks(front, cycle, c);
    } else {
      OneMark(front, cycle, k);
    }
  }

  lemma {:induction false} TwoMarks(es: seq<Drawable>, cycle: nat, i: nat, j: nat)
    requires cycle > 0 && i < j < |es| && Column(es[i], cycle) == Column(es[j], cycle)
    ensures |Marks(es, cycle, Column(es[i], cycle))| >= 2
  {
    hide Letter;
    var c, front := Column(es[i], cycle), es[..|es| - 1];
    if j < |es| - 1 {
      assert front[i] == es[i] && front[j] == es[j];
      TwoMarks(front, cycle, i, j);
    } else {
      assert front[i] == es[i];
      NoMarks(front, cycle, c);
    }
  }

  lemma CellsNext(es: seq<Drawable>, cycle: nat, dot: char, n: nat)
    requires cycle > 0
    ensures Cells(es, cycle, dot, n + 1) == Cells(es, cycle, dot, n) + Cell(es, cycle, dot, n)
    ensures Cells(es, cycle, dot, 0) == []
  {
    hide Cell;
  }

  lemma OneGlyph(es: seq<Drawable>, cycle: nat, dot: char, c: nat)
    requires cycle > 0 && DistinctColumns(es, cycle)
    ensures |Cell(es, cycle, dot, c)| == 1
  {
    hide Marks, Letter;
    NoMarks(es, cycle, c);
    if k :| 0 <= k < |es| && Column(es[k], cycle) == c {
      OneMark(es, cycle, k);
    }
  }

  /** With at most one event to a column, the n columns are n glyphs and column c shows its own. */
  lemma {:induction false} CellsDistinct(es: seq<Drawable>, cycle: nat, dot: char, n: nat)
    requires cycle > 0 && DistinctColumns(es, cycle)
    ensures |Cells(es, cycle, dot, n)| == n
    ensures forall c :: 0 <= c < n ==>
              Cells(es, cycle, dot, n)[c] == Cell(es, cycle, dot, c)[0]
  {
    hide Cell, Cells;
    CellsNext(es, cycle, dot, n);
    if n > 0 {
      CellsDistinct(es, cycle, dot, n - 1);
      CellsNext(es, cycle, dot, n - 1);
      OneGlyph(es, cycle, dot, n - 1);
    }
  }

  lemma {:induction false} CellsLength(es: seq<Drawable>, cycle: nat, dot: char, n: nat, c: nat)
    requires cycle > 0
    ensures |Cells(es, cycle, dot, n)| >= n
    ensures c < n && |Marks(es, cycle, c)| >= 2 ==> |Cells(es, cycle, dot, n)| > n
  {
    hide Marks;
    if n > 0 {
      CellsLength(es, cycle, dot, n - 1, c);
    }
  }

  /** A line has exactly `width` glyphs if and only if no two of its events share a column. */
  lemma WidthIffDistinct(es: seq<Drawable>, cycle: nat, dot: char, width: nat)
    requires cycle > 0
    requires forall i :: 0 <= i < |es| ==> Column(es[i], cycle) < width
    ensures |Cells(es, cycle, dot, width)| == width <==> DistinctColumns(es, cycle)
  {
    hide Cells;
    if DistinctColumns(es, cycle) {
      CellsDistinct(es, cycle, dot, width);
    } else {
      var i, j :| 0 <= i < j < |es| && Column(es[i], cycle) == Column(es[j], cycle);
      TwoMarks(es, cycle, i, j);
      CellsLength(es, cycle, dot, width, Column(es[i], cycle));
    }
  }

  // ----- The events of a line

  function EventOf(p: Print, stage: nat): Drawable
    requires p.Valid() && stage < 8
  {
    Event(Tick(p.inst, stage) % p.TimeWidth(), stage)
  }

  function Events(p: Print, i: nat, n: nat): seq<Drawable>
    requires p.Valid() && n <= 8
  {
    if n == 0 then []
    else Events(p, i, n - 1) + if p.OnLine(n - 1, i) then [EventOf(p, n - 1)] else []
  }

  function Visible(p: Print, es: seq<Drawable>): seq<Drawable> {
    if es == [] then []
    else Visible(p, es[..|es| - 1]) + if p.Hidden(es[|es| - 1]) then [] else [es[|es| - 1]]
  }

  /** What is drawn on line i, in drawing order. */
  function Drawn(p: Print, i: nat): seq<Drawable>
    requires p.Valid()
  {
    Visible(p, Sort(ByOffset, Events(p, i, p.Stages())))
  }

  function Rendered(p: Print, i: nat): Line
    requires p.Valid()
  {
    Line(p.Start(i), Cells(Drawn(p, i), p.cycleTime, p.Dot(), p.width))
  }

  lemma {:induction false} InEvents(p: Print, i: nat, n: nat, e: Drawable)
    requires p.Valid() && n <= 8
    ensures e in Events(p, i, n) <==> e.stage < n && p.OnLine(e.stage, i) && e == EventOf(p, e.stage)
  {
    hide Tick;
    if n > 0 {
      InEvents(p, i, n - 1, e);
    }
  }

  lemma {:induction false} InVisible(p: Print, es: seq<Drawable>, e: Drawable)
    ensures e in Visible(p, es) <==> e in es && !p.Hidden(e)
  {
    if es != [] {
      InVisible(p, es[..|es| - 1], e);
      assert es == es[..|es| - 1] + [es[|es| - 1]];
    }
  }

  lemma {:induction false} VisibleSorted(p: Print, es: seq<Drawable>)
    requires Sorted(ByOffset, es)
    ensures Sorted(ByOffset, Visible(p, es))
  {
    hide ByOffset;
    if es != [] {
      var front, last := es[..|es| - 1], es[|es| - 1];
      VisibleSorted(p, front);
      var v := Visible(p, front);
      forall k | 0 <= k < |v|
        ensures ByOffset(v[k], last)
      {
        InVisible(p, front, v[k]);
        var j :| 0 <= j < |front| && front[j] == v[k];
        assert es[j] == v[k];
      }
    }
  }

  /** Drawn events are in the order of their offsets, and with equal offsets of their names. */
  lemma DrawnInOrder(p: Print, i: nat, j: nat, k: nat)
    requires p.Valid() && j < k < |Drawn(p, i)|
    ensures var a, b := Drawn(p, i)[j], Drawn(p, i)[k];
            && a.offset <= b.offset
            && (a.offset == b.offset ==> !Text.Before(StageName(b.stage), StageName(a.stage)))
  {
    hide Text.CompareStrings, Text.Before, StageName, Sort, Events, Visible;
    DrawnSorted(p, i);
    var a, b := Drawn(p, i)[j], Drawn(p, i)[k];
    assert ByOffset(a, b);
    Text.CompareStringsIff(StageName(b.stage), StageName(a.stage));
    Text.CompareStringsOrder(StageName(a.stage), StageName(b.stage), []);
  }

  lemma DrawnSorted(p: Print, i: nat)
    requires p.Valid()
    ensures Sorted(ByOffset, Drawn(p, i))
  {
    hide ByOffset, Sort, Events, Visible;
    ByOffsetIsOrder();
    SortSorted(ByOffset, Events(p, i, p.Stages()));
    VisibleSorted(p, Sort(ByOffset, Events(p, i, p.Stages())));
  }

  lemma SortedAscends(es: seq<Drawable>, cycle: nat)
    requires cycle > 0 && Sorted(ByOffset, es)
    ensures ColumnsAscend(es, cycle)
  {
    forall i, j | 0 <= i < j < |es|
      ensures Column(es[i], cycle) <= Column(es[j], cycle)
    {
      assert ByOffset(es[i], es[j]);
      QuotientMonotone(es[i].offset, es[j].offset, cycle);
    }
  }

  /** The drawn events of a line are exactly the stages on it, less a hidden dispatch; each is in
      the column of its cycle, and they come in the order of their columns. */
  lemma DrawnEvents(p: Print, i: nat, e: Drawable)
    requires p.Valid()
    ensures e in Drawn(p, i) <==>
            && e.stage < p.Stages() && p.OnLine(e.stage, i) && !p.Hidden(e)
            && e == EventOf(p, e.stage)
    ensures ColumnsAscend(Drawn(p, i), p.cycleTime)
    ensures e in Drawn(p, i) ==>
            Column(e, p.cycleTime) == Tick(p.inst, e.stage) / p.cycleTime % p.width < p.width
  {
    hide Tick, Sort;
    var es := Events(p, i, p.Stages());
    InEvents(p, i, p.Stages(), e);
    SortPermutes(ByOffset, es);
    assert e in Sort(ByOffset, es) <==> e in multiset(es);
    InVisible(p, Sort(ByOffset, es), e);
    DrawnSorted(p, i);
    SortedAscends(Drawn(p, i), p.cycleTime);
    ColumnIsCycleModWidth(Tick(p.inst, e.stage), p.width, p.cycleTime);
  }

  lemma DrawnFits(p: Print, i: nat)
    requires p.Valid()
    ensures ColumnsAscend(Drawn(p, i), p.cycleTime)
    ensures forall k :: 0 <= k < |Drawn(p, i)| ==> Column(Drawn(p, i)[k], p.cycleTime) < p.width
  {
    hide Drawn, Tick;
    DrawnEvents(p, i, Event(0, 0));
    forall k | 0 <= k < |Drawn(p, i)|
      ensures Column(Drawn(p, i)[k], p.cycleTime) < p.width
    {
      DrawnEvents(p, i, Drawn(p, i)[k]);
    }
  }

  /** On a line whose events have distinct columns, the line is exactly `width` glyphs and a drawn
      stage's letter stands in the column of its cycle. */
  lemma StageInItsColumn(p: Print, stage: nat, i: nat)
    requires p.Valid() && stage < p.Stages() && p.OnLine(stage, i)
    requires !p.Hidden(EventOf(p, stage)) && DistinctColumns(Drawn(p, i), p.cycleTime)
    ensures |Rendered(p, i).body| == p.width
    ensures Rendered(p, i).body[Tick(p.inst, stage) / p.cycleTime % p.width] == Letter(stage)
  {
    hide Drawn, Tick, Cells, Letter, Marks;
    var es, e := Drawn(p, i), EventOf(p, stage);
    DrawnEvents(p, i, e);
    var k :| 0 <= k < |es| && es[k] == e;
    OneMark(es, p.cycleTime, k);
    CellsDistinct(es, p.cycleTime, p.Dot(), p.width);
  }

  /** What such a line shows in column c: the letter of the stage that belongs there, or if there is
      none, a dot for an instruction that retired and an equals sign for one that did not. The store
      completion is only drawn on request, and a dispatch not in the tick of the issue. */
  lemma ColumnShows(p: Print, i: nat, c: nat, stage: nat)
    requires p.Valid() && c < p.width && DistinctColumns(Drawn(p, i), p.cycleTime) && stage < 8
    ensures var body := Rendered(p, i).body;
            && |body| == p.width
            && ((forall s :: 0 <= s < 8 ==> !StageAt(p, i, c, s)) ==>
                  body[c] == if p.inst.retire == 0 then '=' else '.')
            && (StageAt(p, i, c, stage) ==> body[c] == "fdnpicrs"[stage])
  {
    hide Drawn, Tick, Cells, Marks;
    var es := Drawn(p, i);
    CellsDistinct(es, p.cycleTime, p.Dot(), p.width);
    NoMarks(es, p.cycleTime, c);
    if StageAt(p, i, c, stage) {
      StageInItsColumn(p, stage, i);
    }
    if forall s :: 0 <= s < 8 ==> !StageAt(p, i, c, s) {
      forall k | 0 <= k < |es| ensures Column(es[k], p.cycleTime) != c {
        DrawnEvents(p, i, es[k]);
        assert !StageAt(p, i, c, es[k].stage);
      }
    }
  }

  ghost predicate StageAt(p: Print, i: nat, c: nat, s: int)
    requires p.Valid() && 0 <= s < 8
  {
    && p.OnLine(s, i) && Tick(p.inst, s) / p.cycleTime % p.width == c
    && (s == 7 ==> p.stores) && !(s == 3 && p.inst.dispatch == p.inst.issue)
  }

  // ----- Printing an instruction

  datatype Printed = IndexError | Lines(lines: seq<Line>)

  ghost predicate NoStage(p: Print) {
    forall s :: 0 <= s < p.Stages() ==> Tick(p.inst, s) == 0
  }

  /** In the compact form, looking at the first event fails only if no stage was reached. */
  lemma CompactHasEvents(p: Print)
    requires p.Valid() && p.NumLines() == 1
    ensures Events(p, 0, p.Stages()) == [] <==> NoStage(p)
  {
    hide Tick;
    var es := Events(p, 0, p.Stages());
    assert Tick(p.inst, 0) == p.inst.fetch by { NothingDrawn(p, []); }
    if es == [] {
      InEvents(p, 0, p.Stages(), EventOf(p, 0));
      if p.inst.fetch != 0 {
        OnExactlyOneLine(p, 0, 0);
      }
      forall s | 0 <= s < p.Stages()
        ensures Tick(p.inst, s) == 0
      {
        InEvents(p, 0, p.Stages(), EventOf(p, s));
        if Tick(p.inst, s) != 0 {
          OnExactlyOneLine(p, s, 0);
        }
      }
    } else {
      InEvents(p, 0, p.Stages(), es[0]);
    }
  }

  method CollectEvents(p: Print, i: nat) returns (es: seq<Drawable>)
    requires p.Valid()
    ensures es == Events(p, i, p.Stages())
  {
    hide Tick;
    es := [];
    for s := 0 to p.Stages()
      invariant es == Events(p, i, s)
    {
      var tick := Tick(p.inst, s);
      if tick != 0 {
        if tick >= p.Start(i) && tick < p.End(i) {
          es := es + [Event(tick % p.TimeWidth(), s)];
        }
      }
    }
  }

  lemma {:induction false} VisiblePrefix(p: Print, es: seq<Drawable>, k: nat)
    requires k <= |es|
    ensures Visible(p, es[..k]) <= Visible(p, es)
  {
    if k == |es| {
      assert es[..k] == es;
    } else {
      VisiblePrefix(p, es[..|es| - 1], k);
      assert es[..|es| - 1][..k] == es[..k];
    }
  }

  lemma VisibleNext(p: Print, es: seq<Drawable>, k: nat)
    requires k < |es|
    ensures Visible(p, es[..k + 1]) ==
            Visible(p, es[..k]) + if p.Hidden(es[k]) then [] else [es[k]]
    ensures Visible(p, es[..k + 1]) <= Visible(p, es)
  {
    assert es[..k + 1][..k] == es[..k];
    VisiblePrefix(p, es, k + 1);
  }

  lemma NothingDrawn(p: Print, es: seq<Drawable>)
    requires p.Valid()
    ensures Visible(p, es[..0]) == [] && Cells([], p.cycleTime, p.Dot(), 0) == []
    ensures Tick(p.inst, 0) == p.inst.fetch
  {
  }

  /** The drawing loop draws the cells of the reference. */
  method Draw(p: Print, es: seq<Drawable>) returns (body: string)
    requires p.Valid() && ColumnsAscend(Visible(p, es), p.cycleTime)
    requires forall i :: 0 <= i < |Visible(p, es)| ==>
                         Column(Visible(p, es)[i], p.cycleTime) < p.width
    ensures body == Cells(Visible(p, es), p.cycleTime, p.Dot(), p.width)
  {
    hide Cells, Dots, Visible, Letter;
    NothingDrawn(p, es);
    var cycle, dot := p.cycleTime, p.Dot();
    var pos := 0;
    body := [];
    ghost var v: seq<Drawable> := [];
    for k := 0 to |es|
      invariant v == Visible(p, es[..k]) && v <= Visible(p, es) && pos <= p.width
      invariant if v == [] then pos == 0 else pos == Column(v[|v| - 1], cycle) + 1
      invariant forall i :: 0 <= i < |v| ==> Column(v[i], cycle) < pos
      invariant body == Cells(v, cycle, dot, pos)
    {
      var e := es[k];
      VisibleNext(p, es, k);
      if e.stage == 3 && p.inst.dispatch == p.inst.issue {
        continue;
      }
      assert (v + [e])[|v|] == e == Visible(p, es)[|v|];
      assert v != [] ==> v[|v| - 1] == Visible(p, es)[|v| - 1];
      DrawNext(v, e, cycle, dot, pos);
      body := body + Dots(dot, e.offset / cycle - pos) + [Letter(e.stage)];
      pos := e.offset / cycle + 1;
      v := v + [e];
    }
    assert es[..|es|] == es;
    CellsBehind(v, cycle, dot, pos, p.width);
    body := body + Dots(dot, p.width - pos);
  }

  /** One line if and only if every stage is less than one timeline behind the fetch; otherwise
      the latest stage is on the last line. */
  lemma LinesNeeded(p: Print)
    requires p.Valid()
    ensures p.NumLines() >= 1
    ensures p.NumLines() == 1 <==>
            forall s :: 0 <= s < p.Stages() ==> Tick(p.inst, s) < p.inst.fetch + p.TimeWidth()
    ensures var start := p.Base() + (p.NumLines() - 1) * p.TimeWidth();
            p.NumLines() > 1 ==> start <= p.Last() < start + p.TimeWidth()
  {
    hide Tick, MaxTick;
    var w := p.TimeWidth();
    if p.Last() >= p.inst.fetch + w {
      OnLineIsQuotient(p.Base(), w, p.Last(), (p.Last() - p.Base()) / w);
      QuotientMonotone(w, p.Last() - p.Base(), w);
    }
  }

  /** Line i is the reference rendering of the events of line i. */
  method RenderLines(p: Print) returns (r: Printed)
    requires p.Valid()
    ensures r.IndexError? <==> NoStage(p)
    ensures r.Lines? ==> |r.lines| == p.NumLines()
                         && forall i :: 0 <= i < |r.lines| ==> r.lines[i] == Rendered(p, i)
  {
    hide Events, Cells, Sort, Visible, Tick;
    var lines := [];
    var numLines := p.NumLines();
    if numLines == 1 {
      CompactHasEvents(p);
    }
    for i := 0 to numLines
      invariant |lines| == i && forall k :: 0 <= k < i ==> lines[k] == Rendered(p, k)
      invariant numLines == 1 && i == 1 ==> !NoStage(p)
    {
      var es := CollectEvents(p, i);
      es := Sort(ByOffset, es);
      if numLines == 1 && es == [] {
        return IndexError;
      }
      DrawnFits(p, i);
      var body := Draw(p, es);
      lines := lines + [Line(p.Base() + i * p.TimeWidth(), body)];
    }
    if numLines != 1 {
      SeveralLinesHaveStage(p);
    }
    r := Lines(lines);
  }

  /** Lines start one timeline apart, the first with the timeline of the fetch. */
  lemma LinesApart(p: Print, lines: seq<Line>)
    requires p.Valid() && |lines| > 0
    requires forall i :: 0 <= i < |lines| ==> lines[i] == Rendered(p, i)
    ensures forall i :: 0 <= i < |lines| ==> lines[i].start == lines[0].start + i * p.TimeWidth()
    ensures lines[0].start == p.Base()
  {
    hide Drawn, Cells;
    assert 0 * p.TimeWidth() == 0;
    assert lines[0].start == p.Start(0);
    forall i | 0 <= i < |lines| ensures lines[i].start == p.Base() + i * p.TimeWidth() {
      assert lines[i] == Rendered(p, i);
    }
  }

  /** Print one instruction: it fails only if no stage was reached at all, and otherwise line i
      is the reference rendering of the events of line i. */
  method PrintInst(p: Print) returns (r: Printed)
    requires p.Valid()
    ensures r.IndexError? <==> NoStage(p)
    ensures r.Lines? ==> |r.lines| == p.NumLines()
                         && forall i :: 0 <= i < |r.lines| ==> r.lines[i] == Rendered(p, i)
    ensures r.Lines? ==>
              && |r.lines| >= 1
              && (|r.lines| == 1 <==>
                  forall s :: 0 <= s < p.Stages() ==> Tick(p.inst, s) < p.inst.fetch + p.TimeWidth())
    ensures r.Lines? && |r.lines| > 1 ==>
              var start := r.lines[|r.lines| - 1].start;
              exists s :: && 0 <= s < p.Stages()
                          && (forall k :: 0 <= k < p.Stages() ==> Tick(p.inst, k) <= Tick(p.inst, s))
                          && start <= Tick(p.inst, s) < start + p.TimeWidth()
    ensures r.Lines? ==>
              && r.lines[0].start <= p.inst.fetch < r.lines[0].start + p.TimeWidth()
              && r.lines[0].start % p.TimeWidth() == 0
              && forall i :: 0 <= i < |r.lines| ==>
                               r.lines[i].start == r.lines[0].start + i * p.TimeWidth()
  {
    hide Rendered, Tick, MaxTick;
    r := RenderLines(p);
    LinesNeeded(p);
    if r.Lines? {
      LinesApart(p, r.lines);
      ghost var s :| 0 <= s < p.Stages() && Tick(p.inst, s) == p.Last();
    }
  }

  lemma SeveralLinesHaveStage(p: Print)
    requires p.Valid() && p.NumLines() != 1
    ensures !NoStage(p)
  {
    hide Tick;
    if NoStage(p) {
      NoStageLast(p.inst, p.Stages());
    }
  }

  lemma {:induction false} NoStageLast(i: Inst, n: nat)
    requires 0 < n <= 8 && forall s :: 0 <= s < n ==> Tick(i, s) == 0
    ensures MaxTick(i, n) == 0
  {
    if n > 1 {
      NoStageLast(i, n - 1);
    }
  }
}
