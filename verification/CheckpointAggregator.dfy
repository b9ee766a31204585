/** Merging checkpoints into one: the sections of the CPUs are renamed, physical addresses are
    relocated, and the memory images are laid out one behind the other. */
module CheckpointAggregator {
  import opened Arithmetic
  import opened Counting
  import opened Text

  const PAGE: nat := 4096

  datatype Item = Paddr(addr: nat) | Plain(key: string, value: string)

  datatype Section = Section(name: string, items: seq<Item>)

  /** A checkpoint directory: its configuration, the pages it uses, and its memory image. */
  datatype Checkpoint = Checkpoint(sections: seq<Section>, curTick: int, pages: nat, mem: seq<Byte>)

  datatype Merged = Merged(sections: seq<Section>, image: seq<Byte>, rangeSize: nat)

  const STORE: string := "system.physmem.store0"

  // ----- Section names

  predicate StartsCpu(s: string) {
    |s| >= 3 && s[0] == 'c' && s[1] == 'p' && s[2] == 'u'
  }

  predicate HasCpu(s: string) {
    s != [] && (StartsCpu(s) || HasCpu(s[1..]))
  }

  lemma {:induction false} HasCpuIff(s: string)
    ensures HasCpu(s) <==> exists a, b :: s == a + "cpu" + b
  {
    if s != [] {
      HasCpuIff(s[1..]);
      if StartsCpu(s) {
        assert s == [] + "cpu" + s[3..];
      } else if HasCpu(s[1..]) {
        var a, b :| s[1..] == a + "cpu" + b;
        assert s == [s[0]] + a + "cpu" + b;
      }
      if a, b :| s == a + "cpu" + b {
        assert a != [] ==> s[1..] == a[1..] + "cpu" + b;
      }
    }
  }

  /** Every "cpu" becomes "cpu" followed by d. */
  function Rename(s: string, d: string): string {
    if s == [] then []
    else if StartsCpu(s) then "cpu" + d + Rename(s[3..], d)
    else [s[0]] + Rename(s[1..], d)
  }

  /** The inverse: drop w characters behind every "cpu". */
  function Restore(t: string, w: nat): string {
    if t == [] then []
    else if StartsCpu(t) then "cpu" + if |t| >= 3 + w then Restore(t[3 + w..], w) else []
    else [t[0]] + Restore(t[1..], w)
  }

  /** The w characters behind the first "cpu". */
  function Number(t: string, w: nat): string {
    if t == [] then []
    else if StartsCpu(t) then (if |t| >= 3 + w then t[3..3 + w] else t[3..])
    else Number(t[1..], w)
  }

  lemma {:induction false} RenameHead(s: string, d: string)
    ensures |Rename(s, d)| >= |s|
    ensures |s| >= 1 ==> Rename(s, d)[0] == s[0]
    ensures |s| >= 2 ==> Rename(s, d)[1] == s[1]
    ensures |s| < 3 ==> Rename(s, d) == s
    decreases |s|
  {
    if s != [] {
      if StartsCpu(s) {
        RenameHead(s[3..], d);
      } else {
        RenameHead(s[1..], d);
      }
    }
  }

  /** Renaming makes no new "cpu" at the head and hides none. */
  lemma RenameStarts(s: string, d: string)
    ensures StartsCpu(Rename(s, d)) <==> StartsCpu(s)
  {
    RenameHead(s, d);
    if s != [] && !StartsCpu(s) {
      RenameHead(s[1..], d);
    }
  }

  /** With a number of known width, the original name and the number can be read off again. */
  lemma {:induction false} RenameInverse(s: string, d: string)
    ensures Restore(Rename(s, d), |d|) == s
    ensures HasCpu(s) ==> Number(Rename(s, d), |d|) == d
    ensures HasCpu(Rename(s, d)) <==> HasCpu(s)
    decreases |s|
  {
    if s != [] {
      var t := Rename(s, d);
      RenameStarts(s, d);
      if StartsCpu(s) {
        RenameInverse(s[3..], d);
        assert t[3 + |d|..] == Rename(s[3..], d) && t[3..3 + |d|] == d;
        assert s == "cpu" + s[3..];
      } else {
        RenameInverse(s[1..], d);
        assert t[1..] == Rename(s[1..], d);
        assert s == [s[0]] + s[1..];
      }
    }
  }

  // ----- Checkpoint numbers of equal width

  function ZFill(s: string, w: nat): string
    decreases w - |s|
  {
    if |s| >= w then s else ZFill("0" + s, w)
  }

  lemma {:induction false} ParseLeadingZero(s: string)
    requires s != []
    ensures ParseNat("0" + s) == ParseNat(s)
  {
    var t := "0" + s;
    if |s| == 1 {
      assert t[..|t| - 1] == "0";
      assert ParseNat("0") == Some(0);
    } else {
      assert t[..|t| - 1] == "0" + s[..|s| - 1];
      ParseLeadingZero(s[..|s| - 1]);
    }
  }

  lemma {:induction false} ZFillNumber(s: string, w: nat)
    requires s != []
    ensures ParseNat(ZFill(s, w)) == ParseNat(s)
    ensures |s| <= w ==> |ZFill(s, w)| == w
    decreases w - |s|
  {
    if |s| < w {
      ParseLeadingZero(s);
      ZFillNumber("0" + s, w);
    }
  }

  lemma {:induction false} DecimalLonger(a: nat, b: nat)
    requires a <= b
    ensures |Decimal(a)| <= |Decimal(b)|
  {
    if a >= 10 {
      assert a / 10 <= b / 10;
      DecimalLonger(a / 10, b / 10);
    }
  }

  /** The number of checkpoint i out of n, padded to the width of the largest. */
  function NumberOf(i: nat, n: nat): string
    requires i < n
  {
    ZFill(Decimal(i), |Decimal(n - 1)|)
  }

  lemma NumberWidth(i: nat, n: nat)
    requires i < n
    ensures |NumberOf(i, n)| == |Decimal(n - 1)| && ParseNat(NumberOf(i, n)) == Some(i)
  {
    hide Decimal, ZFill, ParseNat;
    DecimalLonger(i, n - 1);
    ParseDecimal(i);
    ZFillNumber(Decimal(i), |Decimal(n - 1)|);
  }

  function NewName(i: nat, n: nat, name: string): string
    requires i < n
  {
    Rename(name, NumberOf(i, n))
  }

  /** No two CPU sections of the merged file get the same name, nor does one get the name of a
      section of another kind. */
  lemma NewNamesDiffer(i: nat, j: nat, n: nat, a: string, b: string)
    requires i < n && j < n && HasCpu(a)
    ensures HasCpu(NewName(i, n, a))
    ensures HasCpu(b) && NewName(i, n, a) == NewName(j, n, b) ==> i == j && a == b
  {
    hide Rename, NumberOf, ParseNat, Restore, Number;
    NumberWidth(i, n);
    NumberWidth(j, n);
    RenameInverse(a, NumberOf(i, n));
    RenameInverse(b, NumberOf(j, n));
  }

  // ----- Merged sections

  function PagesBefore(cpts: seq<Checkpoint>, i: nat): nat
    requires i <= |cpts|
  {
    if i == 0 then 0 else PagesBefore(cpts, i - 1) + cpts[i - 1].pages
  }

  /** Where the image of checkpoint i is meant to start. */
  function Base(cpts: seq<Checkpoint>, i: nat): nat
    requires i <= |cpts|
  {
    PagesBefore(cpts, i) * PAGE
  }

  function Moved(items: seq<Item>, base: nat): seq<Item> {
    seq(|items|, k requires 0 <= k < |items| =>
      match items[k]
      case Paddr(a) => Paddr(a + base)
      case Plain(_, _) => items[k])
  }

  predicate HasKey(item: Item, key: string) {
    item.Plain? && item.key == key
  }

  /** All items are kept, in their places, but for one under the key, which may be new. */
  ghost predicate KeptBut(was: seq<Item>, now: seq<Item>, key: string) {
    && |was| <= |now| <= |was| + 1
    && (forall k :: 0 <= k < |was| ==> now[k] == was[k] || (HasKey(was[k], key) && HasKey(now[k], key)))
    && (|now| > |was| ==> HasKey(now[|was|], key) && forall k :: 0 <= k < |was| ==> !HasKey(was[k], key))
  }

  /** The key has a value that stands for the number. */
  ghost predicate Records(items: seq<Item>, key: string, n: int) {
    exists k :: 0 <= k < |items| && HasKey(items[k], key) && ParseInt(items[k].value) == Some(n)
  }

  /** The value of a key replaced, or added behind the others. */
  function SetItem(items: seq<Item>, key: string, value: string): (r: seq<Item>)
    ensures KeptBut(items, r, key) && Plain(key, value) in r
  {
    if items == [] then [Plain(key, value)]
    else if items[0].Plain? && items[0].key == key then [Plain(key, value)] + items[1..]
    else [items[0]] + SetItem(items[1..], key, value)
  }

  lemma SetRecords(items: seq<Item>, key: string, n: nat)
    ensures Records(SetItem(items, key, Decimal(n)), key, n)
  {
    hide SetItem, Decimal;
    var r := SetItem(items, key, Decimal(n));
    var k :| 0 <= k < |r| && r[k] == Plain(key, Decimal(n));
    ParseIntDecimal(n);
  }

  /** The section of a process's file descriptors. */
  predicate IsFdMap(name: string) {
    && |name| >= 17 && name[|name| - 17..|name| - 9] == "workload" && name[|name| - 9] != '\n'
    && name[|name| - 8..] == "FdMap256"
  }

  /** The items of a CPU section of checkpoint i: addresses are relocated, and the descriptors of a
      process get the number of the checkpoint as its id. */
  function CpuItems(cpts: seq<Checkpoint>, i: nat, sec: Section): seq<Item>
    requires i < |cpts|
  {
    var moved := Moved(sec.items, Base(cpts, i));
    if IsFdMap(sec.name) then SetItem(moved, "M5_pid", Decimal(i)) else moved
  }

  lemma FdMapIff(name: string)
    ensures IsFdMap(name) <==>
            exists c, path :: c != '\n' && name == path + "workload" + [c] + "FdMap256"
  {
    if IsFdMap(name) {
      var n := |name|;
      assert name == name[..n - 17] + "workload" + [name[n - 9]] + "FdMap256";
    }
    if c, path :| c != '\n' && name == path + "workload" + [c] + "FdMap256" {
      var n := |path|;
      assert name[n..n + 8] == "workload" && name[n + 8] == c && name[n + 9..] == "FdMap256";
    }
  }

  /** A CPU section keeps its items in their places: only addresses move, and only the process id
      of a descriptor section is set, to the number of the checkpoint. */
  lemma CpuItemsKept(cpts: seq<Checkpoint>, i: nat, sec: Section, k: nat)
    requires i < |cpts|
    ensures var out := CpuItems(cpts, i, sec);
            && |sec.items| <= |out| <= |sec.items| + 1
            && (!IsFdMap(sec.name) ==> |out| == |sec.items|)
            && (IsFdMap(sec.name) ==> Records(out, "M5_pid", i))
            && (k == |sec.items| < |out| ==> HasKey(out[k], "M5_pid"))
            && (k < |sec.items| ==>
                match sec.items[k]
                case Paddr(a) => out[k] == Paddr(a + Base(cpts, i))
                case Plain(key, _) =>
                  if IsFdMap(sec.name) && key == "M5_pid" then HasKey(out[k], key)
                  else out[k] == sec.items[k])
  {
    hide SetItem, IsFdMap, PagesBefore, Records;
    SetRecords(Moved(sec.items, Base(cpts, i)), "M5_pid", i);
  }

  /** What becomes of one section of checkpoint i: CPU sections are renamed and relocated, the
      two that are merged are dropped, and the rest is taken from the last checkpoint only. */
  function Taken(cpts: seq<Checkpoint>, i: nat, sec: Section): seq<Section>
    requires i < |cpts|
  {
    if HasCpu(sec.name)
    then [Section(NewName(i, |cpts|, sec.name), CpuItems(cpts, i, sec))]
    else if sec.name == "system" || sec.name == "Globals" then []
    else if i == |cpts| - 1 then [sec] else []
  }

  function TakenFrom(cpts: seq<Checkpoint>, i: nat, secs: seq<Section>): seq<Section>
    requires i < |cpts|
  {
    if secs == [] then []
    else TakenFrom(cpts, i, secs[..|secs| - 1]) + Taken(cpts, i, secs[|secs| - 1])
  }

  function AllTaken(cpts: seq<Checkpoint>, k: nat): seq<Section>
    requires k <= |cpts|
  {
    if k == 0 then [] else AllTaken(cpts, k - 1) + TakenFrom(cpts, k - 1, cpts[k - 1].sections)
  }

  ghost predicate NamesDistinct(ss: seq<Section>) {
    forall i, j :: 0 <= i < j < |ss| ==> ss[i].name != ss[j].name
  }

  /** What a section of checkpoint i becomes: a CPU section is renamed and relocated, the two that
      are merged are dropped, and the rest is taken from the last checkpoint only. */
  ghost predicate Origin(cpts: seq<Checkpoint>, i: nat, sec: Section, out: Section)
    requires i < |cpts|
  {
    if HasCpu(sec.name) then out == Section(NewName(i, |cpts|, sec.name), CpuItems(cpts, i, sec))
    else i == |cpts| - 1 && out == sec && sec.name != "system" && sec.name != "Globals"
  }

  lemma OriginUnique(cpts: seq<Checkpoint>, i: nat, a: Section, x: Section,
                     j: nat, b: Section, y: Section)
    requires i < |cpts| && j < |cpts| && Origin(cpts, i, a, x) && Origin(cpts, j, b, y)
    ensures x.name == y.name ==> i == j && a.name == b.name
    ensures HasCpu(x.name) <==> HasCpu(a.name)
  {
    hide HasCpu, NewName, CpuItems;
    if HasCpu(a.name) {
      NewNamesDiffer(i, j, |cpts|, a.name, b.name);
    }
    if HasCpu(b.name) {
      NewNamesDiffer(j, i, |cpts|, b.name, a.name);
    }
  }

  lemma TakenIff(cpts: seq<Checkpoint>, i: nat, sec: Section, out: Section)
    requires i < |cpts|
    ensures out in Taken(cpts, i, sec) <==> Origin(cpts, i, sec, out)
    ensures |Taken(cpts, i, sec)| <= 1
  {
    hide HasCpu, NewName, CpuItems;
  }

  ghost predicate FromOne(cpts: seq<Checkpoint>, i: nat, secs: seq<Section>, out: Section)
    requires i < |cpts|
  {
    exists j :: 0 <= j < |secs| && Origin(cpts, i, secs[j], out)
  }

  lemma {:induction false} TakenFromIff(cpts: seq<Checkpoint>, i: nat, secs: seq<Section>, out: Section)
    requires i < |cpts|
    ensures out in TakenFrom(cpts, i, secs) <==> FromOne(cpts, i, secs, out)
  {
    hide Taken, Origin;
    if secs != [] {
      var front, last := secs[..|secs| - 1], secs[|secs| - 1];
      TakenFromIff(cpts, i, front, out);
      TakenIff(cpts, i, last, out);
      if FromOne(cpts, i, front, out) {
        var j :| 0 <= j < |front| && Origin(cpts, i, front[j], out);
        assert secs[j] == front[j];
      }
      if FromOne(cpts, i, secs, out) {
        var j :| 0 <= j < |secs| && Origin(cpts, i, secs[j], out);
        assert j < |front| ==> front[j] == secs[j];
      }
    }
  }

  /** A section is taken if and only if one of the checkpoints has the section it comes from. */
  lemma {:induction false} AllTakenIff(cpts: seq<Checkpoint>, n: nat, out: Section)
    requires n <= |cpts|
    ensures out in AllTaken(cpts, n) <==>
            exists i :: 0 <= i < n && FromOne(cpts, i, cpts[i].sections, out)
  {
    hide FromOne, TakenFrom;
    if n > 0 {
      AllTakenIff(cpts, n - 1, out);
      TakenFromIff(cpts, n - 1, cpts[n - 1].sections, out);
    }
  }

  lemma {:induction false} TakenDistinct(cpts: seq<Checkpoint>, i: nat, secs: seq<Section>)
    requires i < |cpts| && NamesDistinct(secs)
    ensures NamesDistinct(TakenFrom(cpts, i, secs))
  {
    hide Taken, Origin;
    if secs != [] {
      var front, last := secs[..|secs| - 1], secs[|secs| - 1];
      TakenDistinct(cpts, i, front);
      var done, more := TakenFrom(cpts, i, front), Taken(cpts, i, last);
      TakenIff(cpts, i, last, last);
      forall k, m | 0 <= k < |done| && 0 <= m < |more|
        ensures done[k].name != more[m].name
      {
        TakenFromIff(cpts, i, front, done[k]);
        var j :| 0 <= j < |front| && Origin(cpts, i, front[j], done[k]);
        TakenIff(cpts, i, last, more[m]);
        assert front[j] == secs[j];
        OriginUnique(cpts, i, front[j], done[k], i, last, more[m]);
      }
    }
  }

  /** The sections of the merged file all have different names. */
  lemma {:induction false} MergedNamesDistinct(cpts: seq<Checkpoint>, n: nat)
    requires n <= |cpts| && forall i :: 0 <= i < |cpts| ==> NamesDistinct(cpts[i].sections)
    ensures NamesDistinct(AllTaken(cpts, n))
  {
    hide Origin, TakenFrom;
    if n > 0 {
      MergedNamesDistinct(cpts, n - 1);
      var done, secs := AllTaken(cpts, n - 1), cpts[n - 1].sections;
      TakenDistinct(cpts, n - 1, secs);
      var more := TakenFrom(cpts, n - 1, secs);
      forall k, m | 0 <= k < |done| && 0 <= m < |more|
        ensures done[k].name != more[m].name
      {
        AllTakenIff(cpts, n - 1, done[k]);
        var i :| 0 <= i < n - 1 && FromOne(cpts, i, cpts[i].sections, done[k]);
        var h :| 0 <= h < |cpts[i].sections| && Origin(cpts, i, cpts[i].sections[h], done[k]);
        TakenFromIff(cpts, n - 1, secs, more[m]);
        var j :| 0 <= j < |secs| && Origin(cpts, n - 1, secs[j], more[m]);
        OriginUnique(cpts, i, cpts[i].sections[h], done[k], n - 1, secs[j], more[m]);
      }
    }
  }

  /** A section that is not a CPU's is taken from the last checkpoint as it is. */
  lemma PlainTaken(cpts: seq<Checkpoint>, out: Section)
    requires out in AllTaken(cpts, |cpts|) && !HasCpu(out.name)
    ensures cpts != [] && out in cpts[|cpts| - 1].sections
    ensures out.name != "system" && out.name != "Globals"
  {
    hide AllTaken, NewName, HasCpu, CpuItems;
    AllTakenIff(cpts, |cpts|, out);
    var i :| 0 <= i < |cpts| && FromOne(cpts, i, cpts[i].sections, out);
    var j :| 0 <= j < |cpts[i].sections| && Origin(cpts, i, cpts[i].sections[j], out);
    OriginUnique(cpts, i, cpts[i].sections[j], out, i, cpts[i].sections[j], out);
  }

  lemma {:induction false} NoCpuWithoutC(s: string)
    requires 'c' !in s
    ensures !HasCpu(s)
  {
    if s != [] {
      NoCpuWithoutC(s[1..]);
    }
  }

  function WithRange(ss: seq<Section>, size: nat): (out: seq<Section>)
    ensures |out| == |ss|
  {
    seq(|ss|, k requires 0 <= k < |ss| =>
      if ss[k].name == STORE then Section(STORE, SetItem(ss[k].items, "range_size", Decimal(size)))
      else ss[k])
  }

  function MaxTick(cpts: seq<Checkpoint>, k: nat): (t: int)
    requires k <= |cpts|
    ensures t >= 0 && forall i :: 0 <= i < k ==> cpts[i].curTick <= t
    ensures t == 0 || exists i :: 0 <= i < k && cpts[i].curTick == t
  {
    if k == 0 then 0
    else if cpts[k - 1].curTick > MaxTick(cpts, k - 1) then cpts[k - 1].curTick
    else MaxTick(cpts, k - 1)
  }

  /** The two sections that are added at the end. */
  function Added(cpts: seq<Checkpoint>): (two: seq<Section>)
    ensures |two| == 2 && two[0].name == "system" && two[1].name == "Globals"
  {
    [Section("system", [Plain("pagePtr", Decimal(PagesBefore(cpts, |cpts|))),
                        Plain("nextPID", Decimal(|cpts|))]),
     Section("Globals", [Plain("curTick", Signed(MaxTick(cpts, |cpts|)))])]
  }

  /** The pages and the number of checkpoints are recorded, and of the ticks the latest. */
  lemma AddedRecord(cpts: seq<Checkpoint>)
    ensures Records(Added(cpts)[0].items, "pagePtr", PagesBefore(cpts, |cpts|))
    ensures Records(Added(cpts)[0].items, "nextPID", |cpts|)
    ensures Records(Added(cpts)[1].items, "curTick", MaxTick(cpts, |cpts|))
  {
    hide Decimal, Signed, MaxTick, PagesBefore, ParseInt;
    ParseIntDecimal(PagesBefore(cpts, |cpts|));
    ParseIntDecimal(|cpts|);
    ParseSigned(MaxTick(cpts, |cpts|));
    var system, globals := Added(cpts)[0].items, Added(cpts)[1].items;
    assert HasKey(system[0], "pagePtr") && HasKey(system[1], "nextPID") && HasKey(globals[0], "curTick");
  }

  /** The merged configuration, for the size of the merged image. */
  function MergedSections(cpts: seq<Checkpoint>, size: nat): seq<Section> {
    WithRange(AllTaken(cpts, |cpts|), size) + Added(cpts)
  }

  /** No section that is taken has the name of one that is added. */
  lemma NotAdded(cpts: seq<Checkpoint>, k: nat)
    requires k < |AllTaken(cpts, |cpts|)|
    ensures AllTaken(cpts, |cpts|)[k].name != "system"
    ensures AllTaken(cpts, |cpts|)[k].name != "Globals"
  {
    hide AllTaken, HasCpu;
    NoCpuWithoutC("system");
    NoCpuWithoutC("Globals");
    var out := AllTaken(cpts, |cpts|)[k];
    if !HasCpu(out.name) {
      PlainTaken(cpts, out);
    }
  }

  /** In the whole merged configuration no name comes twice. */
  lemma {:induction false} AllNamesDistinct(cpts: seq<Checkpoint>, size: nat)
    requires forall i :: 0 <= i < |cpts| ==> NamesDistinct(cpts[i].sections)
    ensures NamesDistinct(MergedSections(cpts, size))
  {
    hide AllTaken, SetItem, Added;
    var taken := AllTaken(cpts, |cpts|);
    MergedNamesDistinct(cpts, |cpts|);
    assert "system"[0] != "Globals"[0];
    forall k | 0 <= k < |taken| ensures taken[k].name != "system" && taken[k].name != "Globals" {
      NotAdded(cpts, k);
    }
    assert forall k :: 0 <= k < |taken| ==> WithRange(taken, size)[k].name == taken[k].name;
  }

  // ----- The merged image

  /** The part of a memory image that is copied: its pages, or what there is of them. */
  function Copied(c: Checkpoint): seq<Byte> {
    c.mem[..Min(c.pages * PAGE, |c.mem|)]
  }

  /** The image holds all the pages the checkpoint uses. */
  predicate Full(c: Checkpoint) {
    |c.mem| >= c.pages * PAGE
  }

  function Image(cpts: seq<Checkpoint>, k: nat): seq<Byte>
    requires k <= |cpts|
  {
    if k == 0 then [] else Image(cpts, k - 1) + Copied(cpts[k - 1])
  }

  /** Images start where they are meant to exactly when all the ones before are full. */
  lemma {:induction false} AlignedIffFull(cpts: seq<Checkpoint>, k: nat)
    requires k <= |cpts|
    ensures |Image(cpts, k)| <= Base(cpts, k)
    ensures |Image(cpts, k)| == Base(cpts, k) <==> forall j :: 0 <= j < k ==> Full(cpts[j])
  {
    if k > 0 {
      AlignedIffFull(cpts, k - 1);
    }
  }

  lemma {:induction false} ImageGrows(cpts: seq<Checkpoint>, i: nat, k: nat)
    requires i <= k <= |cpts|
    ensures Image(cpts, i) <= Image(cpts, k)
  {
    if i < k {
      ImageGrows(cpts, i, k - 1);
    }
  }

  /** Behind full images, every byte of a checkpoint's pages is found at its relocated address. */
  lemma RelocatedByte(cpts: seq<Checkpoint>, i: nat, a: nat)
    requires i < |cpts| && a < cpts[i].pages * PAGE && a < |cpts[i].mem|
    requires forall j :: 0 <= j < i ==> Full(cpts[j])
    ensures var image := Image(cpts, |cpts|);
            Base(cpts, i) + a < |image| && image[Base(cpts, i) + a] == cpts[i].mem[a]
  {
    AlignedIffFull(cpts, i);
    ImageGrows(cpts, i + 1, |cpts|);
    var upto := Image(cpts, i + 1);
    assert upto[Base(cpts, i) + a] == Copied(cpts[i])[a];
    assert Image(cpts, |cpts|)[..|upto|] == upto;
  }

  /** The address intervals of different checkpoints do not overlap. */
  lemma {:induction false} IntervalsDisjoint(cpts: seq<Checkpoint>, i: nat, j: nat)
    requires i < j <= |cpts|
    ensures Base(cpts, i) + cpts[i].pages * PAGE <= Base(cpts, j)
  {
    if i + 1 < j {
      IntervalsDisjoint(cpts, i, j - 1);
    }
  }

  /** End to end: a physical address in a CPU section of a checkpoint is in the merged section of
      the new name, relocated so that the merged image has the same byte there. */
  lemma AddressesKeepMeaning(cpts: seq<Checkpoint>, i: nat, j: nat, k: nat, size: nat)
    requires i < |cpts| && j < |cpts[i].sections| && HasCpu(cpts[i].sections[j].name)
    requires k < |cpts[i].sections[j].items| && cpts[i].sections[j].items[k].Paddr?
    requires cpts[i].sections[j].items[k].addr < cpts[i].pages * PAGE
    requires Full(cpts[i]) && forall m :: 0 <= m < i ==> Full(cpts[m])
    ensures var sec := cpts[i].sections[j];
            var items := CpuItems(cpts, i, sec);
            && Section(NewName(i, |cpts|, sec.name), items) in MergedSections(cpts, size)
            && k < |items| && items[k].Paddr? && items[k].addr < |Image(cpts, |cpts|)|
            && Image(cpts, |cpts|)[items[k].addr] == cpts[i].mem[sec.items[k].addr]
  {
    hide HasCpu, NewName, Image, TakenFrom, AllTaken, PagesBefore, SetItem, MergedSections;
    var sec := cpts[i].sections[j];
    var merged := Section(NewName(i, |cpts|, sec.name), CpuItems(cpts, i, sec));
    assert FromOne(cpts, i, cpts[i].sections, merged);
    assert HasCpu(merged.name) by { NewNamesDiffer(i, i, |cpts|, sec.name, sec.name); }
    NoCpuWithoutC(STORE);
    NoCpuWithoutC("system");
    NoCpuWithoutC("Globals");
    MergedIff(cpts, size, merged);
    assert Moved(sec.items, Base(cpts, i))[k] == Paddr(sec.items[k].addr + Base(cpts, i));
    RelocatedByte(cpts, i, sec.items[k].addr);
  }

  lemma RangeKept(ss: seq<Section>, size: nat, sec: Section)
    requires sec.name != STORE
    ensures sec in WithRange(ss, size) <==> sec in ss
  {
    hide SetItem;
    var now := WithRange(ss, size);
    if sec in ss {
      var k :| 0 <= k < |ss| && ss[k] == sec;
      assert now[k] == sec;
    }
    if sec in now {
      var k :| 0 <= k < |ss| && now[k] == sec;
      assert ss[k] == sec;
    }
  }

  /** But for the store's and the two that are added, the sections of the merged file are exactly
      those that come from a section of one of the checkpoints. */
  lemma MergedIff(cpts: seq<Checkpoint>, size: nat, sec: Section)
    requires sec.name != STORE && sec.name != "system" && sec.name != "Globals"
    ensures sec in MergedSections(cpts, size) <==>
            exists i :: 0 <= i < |cpts| && FromOne(cpts, i, cpts[i].sections, sec)
  {
    hide AllTaken, WithRange, Added, FromOne;
    AllTakenIff(cpts, |cpts|, sec);
    RangeKept(AllTaken(cpts, |cpts|), size, sec);
    assert sec !in Added(cpts);
  }

  /** The store's section is that of the last checkpoint with the size recorded. */
  lemma StoreRecorded(cpts: seq<Checkpoint>, size: nat, k: nat)
    requires k < |MergedSections(cpts, size)| && MergedSections(cpts, size)[k].name == STORE
    ensures Records(MergedSections(cpts, size)[k].items, "range_size", size)
    ensures cpts != []
    ensures exists sec :: && sec in cpts[|cpts| - 1].sections && sec.name == STORE
                          && KeptBut(sec.items, MergedSections(cpts, size)[k].items, "range_size")
  {
    hide AllTaken, HasCpu, SetItem, Added, Records;
    NoCpuWithoutC(STORE);
    assert STORE[6] == '.' && |"system"| == 6 && STORE[0] != "Globals"[0];
    var sec := AllTaken(cpts, |cpts|)[k];
    assert MergedSections(cpts, size)[k] ==
           Section(STORE, SetItem(sec.items, "range_size", Decimal(size)));
    PlainTaken(cpts, sec);
    SetRecords(sec.items, "range_size", size);
  }

  // ----- Padding and the program

  /** One page of "0" characters, which is what the padding is made of. */
  function ZeroPage(): (z: seq<Byte>)
    ensures |z| == PAGE
  {
    seq(PAGE, _ => '0' as int)
  }

  datatype Result = NoSectionError | Aggregated(merged: Merged)

  method CopyPages(c: Checkpoint) returns (out: seq<Byte>)
    ensures out == Copied(c)
  {
    out := [];
    var rest := c.mem;
    var x := 0;
    while x < c.pages
      invariant x <= c.pages
      invariant out == c.mem[..Min(x * PAGE, |c.mem|)] && rest == c.mem[Min(x * PAGE, |c.mem|)..]
    {
      var n := Min(PAGE, |rest|);
      ghost var a, b := Min(x * PAGE, |c.mem|), Min((x + 1) * PAGE, |c.mem|);
      assert b == a + n;
      assert c.mem[..b] == c.mem[..a] + c.mem[a..b] && rest[..n] == c.mem[a..b];
      assert rest[n..] == c.mem[b..];
      out := out + rest[..n];
      rest := rest[n..];
      x := x + 1;
    }
  }

  method TakeSections(cpts: seq<Checkpoint>, i: nat, pagePtr: nat) returns (out: seq<Section>)
    requires i < |cpts| && pagePtr == PagesBefore(cpts, i)
    ensures out == TakenFrom(cpts, i, cpts[i].sections)
  {
    hide HasCpu, NewName, Moved, PagesBefore, SetItem, IsFdMap;
    var secs := cpts[i].sections;
    out := [];
    for j := 0 to |secs|
      invariant out == TakenFrom(cpts, i, secs[..j])
    {
      assert secs[..j + 1][..j] == secs[..j];
      var sec := secs[j];
      if HasCpu(sec.name) {
        var items := Moved(sec.items, pagePtr * PAGE);
        if IsFdMap(sec.name) {
          items := SetItem(items, "M5_pid", Decimal(i));
        }
        out := out + [Section(NewName(i, |cpts|, sec.name), items)];
      } else if sec.name == "system" || sec.name == "Globals" {
      } else if i == |cpts| - 1 {
        out := out + [sec];
      }
    }
    assert secs[..|secs|] == secs;
  }

  /** Whole pages are added until the memory size is reached. */
  method Pad(image: seq<Byte>, used: nat, memorySize: int) returns (out: seq<Byte>, pagePtr: nat)
    ensures image <= out && |out| - |image| == pagePtr * PAGE - used * PAGE
    ensures forall k :: |image| <= k < |out| ==> out[k] == '0' as int
    ensures pagePtr * PAGE >= memorySize
    ensures pagePtr == used || pagePtr * PAGE < memorySize + PAGE
  {
    out, pagePtr := image, used;
    var fileSize := used * PAGE;
    while fileSize < memorySize
      invariant fileSize == pagePtr * PAGE && used <= pagePtr && image <= out
      invariant |out| - |image| == fileSize - used * PAGE
      invariant forall k :: |image| <= k < |out| ==> out[k] == '0' as int
      invariant pagePtr == used || fileSize < memorySize + PAGE
    {
      out := out + ZeroPage();
      fileSize := fileSize + PAGE;
      pagePtr := pagePtr + 1;
    }
  }

  /** The loop over the checkpoints. */
  method MergeAll(cpts: seq<Checkpoint>)
    returns (sections: seq<Section>, image: seq<Byte>, pagePtr: nat, maxTick: int)
    ensures sections == AllTaken(cpts, |cpts|) && image == Image(cpts, |cpts|)
    ensures pagePtr == PagesBefore(cpts, |cpts|) && maxTick == MaxTick(cpts, |cpts|)
  {
    hide Copied, TakenFrom;
    sections, image, pagePtr, maxTick := [], [], 0, 0;
    for i := 0 to |cpts|
      invariant sections == AllTaken(cpts, i) && image == Image(cpts, i)
      invariant pagePtr == PagesBefore(cpts, i) && maxTick == MaxTick(cpts, i)
    {
      var more := TakeSections(cpts, i, pagePtr);
      sections := sections + more;
      if cpts[i].curTick > maxTick {
        maxTick := cpts[i].curTick;
      }
      pagePtr := pagePtr + cpts[i].pages;
      var bytes := CopyPages(cpts[i]);
      image := image + bytes;
    }
  }

  /** The section of the store of the last checkpoint, in which only the range size is new. */
  ghost predicate IsStore(cpts: seq<Checkpoint>, sec: Section, size: nat)
    requires cpts != []
  {
    && Records(sec.items, "range_size", size)
    && exists was :: && was in cpts[|cpts| - 1].sections && was.name == sec.name == STORE
                     && KeptBut(was.items, sec.items, "range_size")
  }

  ghost predicate IsSystem(cpts: seq<Checkpoint>, sec: Section) {
    && sec.name == "system" && |sec.items| == 2
    && Records(sec.items, "pagePtr", PagesBefore(cpts, |cpts|)) && Records(sec.items, "nextPID", |cpts|)
  }

  /** The latest tick of all, which is not before 0. */
  ghost predicate IsGlobals(cpts: seq<Checkpoint>, sec: Section) {
    && sec.name == "Globals" && |sec.items| == 1
    && exists t :: && Records(sec.items, "curTick", t)
                   && t >= 0 && (forall i :: 0 <= i < |cpts| ==> cpts[i].curTick <= t)
                   && (t == 0 || exists i :: 0 <= i < |cpts| && cpts[i].curTick == t)
  }

  lemma RecordedSections(cpts: seq<Checkpoint>, size: nat)
    requires exists k :: 0 <= k < |AllTaken(cpts, |cpts|)| && AllTaken(cpts, |cpts|)[k].name == STORE
    ensures var ss := MergedSections(cpts, size);
            && cpts != []
            && (exists k :: 0 <= k < |ss| && ss[k].name == STORE)
            && (forall k :: 0 <= k < |ss| && ss[k].name == STORE ==> IsStore(cpts, ss[k], size))
            && |ss| >= 2 && IsSystem(cpts, ss[|ss| - 2]) && IsGlobals(cpts, ss[|ss| - 1])
  {
    hide AllTaken, PagesBefore, SetItem, Records, MaxTick;
    var ss := MergedSections(cpts, size);
    var k :| 0 <= k < |AllTaken(cpts, |cpts|)| && AllTaken(cpts, |cpts|)[k].name == STORE;
    assert ss[k].name == STORE;
    forall k | 0 <= k < |ss| && ss[k].name == STORE ensures cpts != [] && IsStore(cpts, ss[k], size) {
      StoreRecorded(cpts, size, k);
    }
    AddedRecord(cpts);
    assert ss[|ss| - 2] == Added(cpts)[0] && ss[|ss| - 1] == Added(cpts)[1];
  }

  /** Merge the checkpoints. The range size that is recorded is what is left in the file exactly
      when every image was full; the file is padded by whole pages until it has the memory size. */
  method Aggregate(cpts: seq<Checkpoint>, memorySize: int) returns (r: Result)
    requires cpts != []
    ensures r.NoSectionError? <==>
            forall k :: 0 <= k < |AllTaken(cpts, |cpts|)| ==>
                        AllTaken(cpts, |cpts|)[k].name != STORE
    ensures r.Aggregated? ==>
      var m := r.merged;
      && m.sections == MergedSections(cpts, m.rangeSize)
      && Image(cpts, |cpts|) <= m.image
      && m.rangeSize >= memorySize && m.rangeSize % PAGE == 0
      && (m.rangeSize == Base(cpts, |cpts|) || m.rangeSize < memorySize + PAGE)
      && (|m.image| == m.rangeSize <==> forall j :: 0 <= j < |cpts| ==> Full(cpts[j]))
      && (forall k :: |Image(cpts, |cpts|)| <= k < |m.image| ==> m.image[k] == '0' as int)
    ensures r.Aggregated? ==>
      var ss := r.merged.sections;
      && (exists k :: 0 <= k < |ss| && ss[k].name == STORE)
      && (forall k :: 0 <= k < |ss| && ss[k].name == STORE ==>
                        IsStore(cpts, ss[k], r.merged.rangeSize))
      && |ss| >= 2 && IsSystem(cpts, ss[|ss| - 2]) && IsGlobals(cpts, ss[|ss| - 1])
  {
    hide AllTaken, Image, PagesBefore, MaxTick, Full, SetItem, Decimal, Signed, WithRange, IsStore,
         IsSystem, IsGlobals;
    var sections, image, pagePtr, maxTick := MergeAll(cpts);
    AlignedIffFull(cpts, |cpts|);
    var used := pagePtr;
    image, pagePtr := Pad(image, pagePtr, memorySize);
    if forall k :: 0 <= k < |sections| ==> sections[k].name != STORE {
      return NoSectionError;
    }
    var system := Section("system", [Plain("pagePtr", Decimal(used)), Plain("nextPID", Decimal(|cpts|))]);
    var globals := Section("Globals", [Plain("curTick", Signed(maxTick))]);
    RecordedSections(cpts, pagePtr * PAGE);
    r := Aggregated(Merged(WithRange(sections, pagePtr * PAGE) + [system, globals], image,
                           pagePtr * PAGE));
  }
}
