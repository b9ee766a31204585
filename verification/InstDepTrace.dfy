/** The ASCII form of an instruction dependency trace: one script prints records as lines, the
    other parses lines back into records. */
module InstDepTrace {
  import opened Text

  datatype Kind = INVALID | LOAD | STORE | COMP

  /** A trace record with its optional and repeated fields. */
  datatype Record = Record(seqNum: nat, kind: Kind, pAddr: Option<nat>, size: Option<nat>,
                           flags: Option<nat>, robDep: seq<nat>, compDelay: nat,
                           regDep: seq<nat>, weight: Option<nat>, pc: Option<nat>,
                           vAddr: Option<nat>, asid: Option<nat>)

  const UINT32: int := 0x1_0000_0000
  const UINT64: int := 0x1_0000_0000_0000_0000

  predicate Fits(o: Option<nat>, limit: int) {
    o.Some? ==> o.value < limit
  }

  ghost predicate AllFit(ds: seq<nat>) {
    forall i :: 0 <= i < |ds| ==> ds[i] < UINT64
  }

  /** The values a record can hold. */
  ghost predicate InRange(r: Record) {
    && r.seqNum < UINT64 && r.compDelay < UINT64 && AllFit(r.robDep) && AllFit(r.regDep)
    && Fits(r.pc, UINT64) && Fits(r.weight, UINT32) && Fits(r.pAddr, UINT64)
    && Fits(r.size, UINT32) && Fits(r.flags, UINT32)
  }

  // ----- Printing

  function KindName(k: Kind): string {
    match k
    case INVALID => "INVALID"
    case LOAD => "LOAD"
    case STORE => "STORE"
    case COMP => "COMP"
  }

  function GetOr(o: Option<nat>, d: nat): nat {
    if o.Some? then o.value else d
  }

  function OptionalField(o: Option<nat>): seq<string> {
    if o.Some? then [Decimal(o.value)] else []
  }

  /** The comma-separated fields of the first part of a line. */
  function Fields(r: Record): seq<string> {
    [Decimal(r.seqNum), Decimal(GetOr(r.pc, 0)), Decimal(GetOr(r.weight, 1)), KindName(r.kind)]
    + OptionalField(r.pAddr) + OptionalField(r.size) + OptionalField(r.flags)
    + [Decimal(r.compDelay)]
  }

  /** Every dependency is preceded by a comma. */
  function DepText(ds: seq<nat>): string {
    if ds == [] then [] else DepText(ds[..|ds| - 1]) + "," + Decimal(ds[|ds| - 1])
  }

  function LineOf(r: Record): string {
    Join(Fields(r), ',') + ":" + DepText(r.robDep) + ":" + DepText(r.regDep)
  }

  // ----- Parsing

  datatype Parsed = Rejected | Parsed(rec: Record)

  /** The kind of that name, if it is a valid one. */
  function KindOf(name: string): Option<Kind> {
    if name == "LOAD" then Some(LOAD)
    else if name == "STORE" then Some(STORE)
    else if name == "COMP" then Some(COMP)
    else None
  }

  /** A field that must be a number within the limits of its type. */
  function Within(n: Option<int>, limit: int): Option<nat> {
    if n.Some? && 0 <= n.value < limit then Some(n.value) else None
  }

  function Long(s: string, limit: int): Option<nat> {
    Within(ParseLong(s), limit)
  }

  function Int(s: string, limit: int): Option<nat> {
    Within(ParseInt(s), limit)
  }

  /** The non-empty items of a dependency list, all of which must be numbers. */
  function Numbers(items: seq<string>): Option<seq<nat>> {
    if items == [] then Some([])
    else
      var front, last := Numbers(items[..|items| - 1]), items[|items| - 1];
      if front.None? || last == [] then front
      else
        var n := Long(last, UINT64);
        if n.None? then None else Some(front.value + [n.value])
  }

  function ParseFields(fs: seq<string>, rob: seq<nat>, reg: seq<nat>): Parsed {
    if |fs| < 5 then Rejected
    else
      var seqNum, pc, weight := Long(fs[0], UINT64), Long(fs[1], UINT64), Long(fs[2], UINT32);
      var kind := KindOf(fs[3]);
      if seqNum.None? || pc.None? || weight.None? || kind.None? then Rejected
      else if kind.value.COMP? then
        var comp := Long(fs[4], UINT64);
        if comp.None? then Rejected
        else Parsed(Record(seqNum.value, COMP, None, None, None, rob, comp.value, reg, weight, pc,
                           None, None))
      else if |fs| < 8 then Rejected
      else
        var addr, size, flags, comp := Long(fs[4], UINT64), Int(fs[5], UINT32),
                                       Int(fs[6], UINT32), Long(fs[7], UINT64);
        if addr.None? || size.None? || flags.None? || comp.None? then Rejected
        else Parsed(Record(seqNum.value, kind.value, addr, size, flags, rob, comp.value, reg,
                           weight, pc, None, None))
  }

  function ParseLine(line: string): Parsed {
    var parts := Split(Strip(line), ':');
    if |parts| != 3 then Rejected
    else
      var rob, reg := Numbers(Split(Strip(parts[1]), ',')), Numbers(Split(parts[2], ','));
      if rob.None? || reg.None? then Rejected
      else ParseFields(Split(parts[0], ','), rob.value, reg.value)
  }

  // ----- Round trip of one line

  /** What a record becomes on the way: the pc and the weight get their defaults. */
  function WithDefaults(r: Record): Record {
    r.(pc := Some(GetOr(r.pc, 0)), weight := Some(GetOr(r.weight, 1)))
  }

  /** Loads and stores carry address, size and flags, compute records carry none of them, and the
      fields that have no place in the text are not set. */
  predicate Faithful(r: Record) {
    && r.vAddr.None? && r.asid.None?
    && match r.kind
       case INVALID => false
       case COMP => r.pAddr.None? && r.size.None? && r.flags.None?
       case _ => r.pAddr.Some? && r.size.Some? && r.flags.Some?
  }

  lemma NumberDecimal(n: nat, limit: int)
    ensures Long(Decimal(n), limit) == Int(Decimal(n), limit) == if n < limit then Some(n) else None
  {
    hide Decimal, ParseLong, ParseInt;
    ParseIntDecimal(n);
  }

  function Decimals(ds: seq<nat>): seq<string> {
    seq(|ds|, i requires 0 <= i < |ds| => Decimal(ds[i]))
  }

  lemma {:induction false} DepTextIsJoin(ds: seq<nat>)
    ensures DepText(ds) == Join([[]] + Decimals(ds), ',')
  {
    if ds != [] {
      var front, last := ds[..|ds| - 1], ds[|ds| - 1];
      DepTextIsJoin(front);
      JoinSnoc([[]] + Decimals(front), Decimal(last), ',');
      assert [[]] + Decimals(ds) == [[]] + Decimals(front) + [Decimal(last)];
    }
  }

  lemma {:induction false} NumbersDecimals(ds: seq<nat>)
    requires AllFit(ds)
    ensures Numbers([[]] + Decimals(ds)) == Some(ds)
  {
    if ds == [] {
      var items: seq<string> := [[]] + Decimals(ds);
      assert items == [[]] && items[..0] == [];
    } else {
      var front, last := ds[..|ds| - 1], ds[|ds| - 1];
      var items := [[]] + Decimals(ds);
      assert items[..|items| - 1] == [[]] + Decimals(front);
      NumbersDecimals(front);
      NumberDecimal(last, UINT64);
      assert ds == front + [last];
    }
  }

  lemma DigitsExclude(s: string, c: char)
    requires Digits(s) && !IsDigit(c)
    ensures c !in s
  {
  }

  lemma DepTextChars(ds: seq<nat>, c: char)
    requires c != ',' && !IsDigit(c)
    ensures c !in DepText(ds)
  {
    DepTextIsJoin(ds);
    forall i | 0 <= i < |Decimals(ds)|
      ensures c !in Decimals(ds)[i]
    {
      DigitsExclude(Decimal(ds[i]), c);
    }
    JoinChars([[]] + Decimals(ds), ',', c);
  }

  lemma DepItems(ds: seq<nat>)
    ensures Split(DepText(ds), ',') == [[]] + Decimals(ds)
  {
    DepTextIsJoin(ds);
    forall i | 0 <= i < |Decimals(ds)|
      ensures ',' !in Decimals(ds)[i]
    {
      DigitsExclude(Decimal(ds[i]), ',');
    }
    SplitJoin([[]] + Decimals(ds), ',');
  }

  lemma DepsRoundTrip(ds: seq<nat>)
    requires AllFit(ds)
    ensures Numbers(Split(DepText(ds), ',')) == Some(ds)
  {
    DepItems(ds);
    NumbersDecimals(ds);
  }

  /** No field has a character that the format gives a meaning to. */
  lemma FieldChars(r: Record, i: nat, c: char)
    requires i < |Fields(r)| && (c == ',' || c == ':' || IsSpace(c))
    ensures c !in Fields(r)[i]
  {
    if Fields(r)[i] != KindName(r.kind) {
      assert Digits(Fields(r)[i]);
      DigitsExclude(Fields(r)[i], c);
    }
  }

  lemma DepTextEnds(ds: seq<nat>)
    ensures ds != [] ==> DepText(ds) != [] && DepText(ds)[0] == ',' && IsDigit(DepText(ds)[|DepText(ds)| - 1])
    ensures Strip(DepText(ds)) == DepText(ds) && (ds == [] ==> DepText(ds) == [])
  {
    if ds != [] {
      DepTextEnds(ds[..|ds| - 1]);
      var last := Decimal(ds[|ds| - 1]);
      assert DepText(ds)[|DepText(ds)| - 1] == last[|last| - 1];
    }
    StripNothing(DepText(ds));
  }

  lemma FirstField(r: Record)
    ensures Join(Fields(r), ',') != [] && IsDigit(Join(Fields(r), ',')[0])
  {
    var fs := Fields(r);
    assert Join(fs, ',') == fs[0] + [','] + Join(fs[1..], ',');
    assert Join(fs, ',')[0] == Decimal(r.seqNum)[0];
  }

  /** Stripping the newline and splitting at the colons gives the three parts of the line. */
  lemma LineParts(r: Record)
    ensures Split(Strip(LineOf(r) + "\n"), ':') ==
            [Join(Fields(r), ','), DepText(r.robDep), DepText(r.regDep)]
  {
    hide Fields, DepText, Join, Split, Strip;
    var info, rob, reg := Join(Fields(r), ','), DepText(r.robDep), DepText(r.regDep);
    FirstField(r);
    DepTextEnds(r.regDep);
    var line := LineOf(r);
    assert line[0] == info[0];
    assert line[|line| - 1] == if reg == [] then ':' else reg[|reg| - 1];
    StripNewline(line);
    forall i | 0 <= i < |Fields(r)| ensures ':' !in Fields(r)[i] {
      FieldChars(r, i, ':');
    }
    JoinChars(Fields(r), ',', ':');
    DepTextChars(r.robDep, ':');
    DepTextChars(r.regDep, ':');
    assert line == info + [':'] + (rob + [':'] + reg);
    SplitFirst(info, rob + [':'] + reg, ':');
    SplitFirst(rob, reg, ':');
    SplitNone(reg, ':');
  }

  lemma FieldsRoundTrip(r: Record)
    ensures Split(Join(Fields(r), ','), ',') == Fields(r)
  {
    hide Join, Split;
    forall i | 0 <= i < |Fields(r)| ensures ',' !in Fields(r)[i] {
      FieldChars(r, i, ',');
    }
    SplitJoin(Fields(r), ',');
  }

  lemma KindRoundTrip(k: Kind)
    ensures KindOf(KindName(k)) == if k.INVALID? then None else Some(k)
  {
    assert "STORE"[0] != "LOAD"[0] && "COMP"[0] != "LOAD"[0] && "COMP"[0] != "STORE"[0];
    assert "INVALID"[0] != "LOAD"[0] && "INVALID"[0] != "STORE"[0] && "INVALID"[0] != "COMP"[0];
  }

  /** The fields of a record parse back to it exactly when it is faithful. */
  lemma ParseFieldsIff(r: Record)
    requires InRange(r)
    ensures ParseFields(Fields(r), r.robDep, r.regDep) == Parsed(WithDefaults(r)) <==> Faithful(r)
  {
    hide Decimal, Long, Int, KindOf, KindName;
    KindRoundTrip(r.kind);
    NumberDecimal(r.seqNum, UINT64);
    NumberDecimal(GetOr(r.pc, 0), UINT64);
    NumberDecimal(GetOr(r.weight, 1), UINT32);
    NumberDecimal(r.compDelay, UINT64);
    if r.pAddr.Some? {
      NumberDecimal(r.pAddr.value, UINT64);
    }
    if r.size.Some? {
      NumberDecimal(r.size.value, UINT32);
    }
    if r.flags.Some? {
      NumberDecimal(r.flags.value, UINT32);
    }
  }

  /** For every record: printing it and parsing the line gives the record, with the defaults of pc
      and weight filled in, exactly when the record is faithful. */
  lemma LineRoundTripIff(r: Record)
    requires InRange(r)
    ensures ParseLine(LineOf(r) + "\n") == Parsed(WithDefaults(r)) <==> Faithful(r)
  {
    hide Fields, DepText, Join, Split, Strip, LineOf, Numbers, ParseFields;
    LineParts(r);
    DepTextEnds(r.robDep);
    DepsRoundTrip(r.robDep);
    DepsRoundTrip(r.regDep);
    FieldsRoundTrip(r);
    ParseFieldsIff(r);
  }

  /** Where everything stands on a printed line: the sequence number, the pc or 0, the weight or 1,
      the kind, what there is of address, size and flags, and the delay; between the colons the
      order dependencies, and behind them the register dependencies. */
  lemma FieldPlaces(r: Record)
    ensures var parts := Split(Strip(LineOf(r) + "\n"), ':');
            && |parts| == 3
            && var fs := Split(parts[0], ',');
            && |fs| >= 5
            && ParseLong(fs[0]) == Some(r.seqNum)
            && ParseLong(fs[1]) == Some(if r.pc.Some? then r.pc.value else 0)
            && ParseLong(fs[2]) == Some(if r.weight.Some? then r.weight.value else 1)
            && fs[3] == KindName(r.kind)
            && ParseLong(fs[|fs| - 1]) == Some(r.compDelay)
            && (r.pAddr.Some? ==> ParseLong(fs[4]) == Some(r.pAddr.value))
            && (r.flags.Some? ==> |fs| >= 6 && ParseInt(fs[|fs| - 2]) == Some(r.flags.value))
            && (r.pAddr.Some? && r.size.Some? ==> |fs| >= 7 && ParseInt(fs[5]) == Some(r.size.value))
            && Split(parts[1], ',') == [""] + Decimals(r.robDep)
            && Split(parts[2], ',') == [""] + Decimals(r.regDep)
  {
    hide Decimal, ParseLong, ParseInt, Join, Split, Strip, LineOf, DepText, KindName;
    LineParts(r);
    FieldsRoundTrip(r);
    DepItems(r.robDep);
    DepItems(r.regDep);
    forall n: nat
      ensures ParseInt(Decimal(n)) == Some(n) && ParseLong(Decimal(n)) == Some(n)
    {
      ParseIntDecimal(n);
    }
  }

  // ----- Whole traces

  function TextOf(rs: seq<Record>): string {
    if rs == [] then [] else TextOf(rs[..|rs| - 1]) + LineOf(rs[|rs| - 1]) + "\n"
  }

  /** The lines of a file, each with its newline. */
  function Lines(s: string): (ls: seq<string>)
    ensures s != [] ==> ls != []
  {
    if s == [] then []
    else if s[0] == '\n' then ["\n"] + Lines(s[1..])
    else if |s| == 1 then [s]
    else
      var ls := Lines(s[1..]);
      [[s[0]] + ls[0]] + ls[1..]
  }

  datatype Trace = Failed | Converted(recs: seq<Record>)

  /** Converting lines stops with the first one that is rejected. */
  function ParseLines(ls: seq<string>): Trace {
    if ls == [] then Converted([])
    else
      match ParseLines(ls[..|ls| - 1])
      case Failed => Failed
      case Converted(recs) =>
        match ParseLine(ls[|ls| - 1])
        case Rejected => Failed
        case Parsed(r) => Converted(recs + [r])
  }

  lemma {:induction false} FirstLine(a: string, b: string)
    requires '\n' !in a
    ensures Lines(a + "\n" + b) == [a + "\n"] + Lines(b)
  {
    if a == [] {
      assert (a + "\n" + b)[1..] == b;
      assert a + "\n" == "\n";
    } else {
      assert (a + "\n" + b)[1..] == a[1..] + "\n" + b;
      FirstLine(a[1..], b);
      assert [a[0]] + (a[1..] + "\n") == a + "\n";
    }
  }

  lemma LineHasNoNewline(r: Record)
    ensures '\n' !in LineOf(r)
  {
    hide Fields, DepText, Join;
    forall i | 0 <= i < |Fields(r)| ensures '\n' !in Fields(r)[i] {
      FieldChars(r, i, '\n');
    }
    JoinChars(Fields(r), ',', '\n');
    DepTextChars(r.robDep, '\n');
    DepTextChars(r.regDep, '\n');
  }

  function LinesOf(rs: seq<Record>): seq<string> {
    seq(|rs|, i requires 0 <= i < |rs| => LineOf(rs[i]) + "\n")
  }

  lemma {:induction false} LinesOfText(rs: seq<Record>, more: string)
    ensures Lines(TextOf(rs) + more) == LinesOf(rs) + Lines(more)
    decreases |rs|
  {
    hide LineOf, Lines;
    if rs == [] {
      assert TextOf(rs) + more == more;
    } else {
      var front, last := rs[..|rs| - 1], rs[|rs| - 1];
      var line := LineOf(last);
      assert TextOf(rs) + more == TextOf(front) + (line + "\n" + more);
      LinesOfText(front, line + "\n" + more);
      LineHasNoNewline(last);
      FirstLine(line, more);
      assert LinesOf(rs) == LinesOf(front) + [line + "\n"];
    }
  }

  function AllWithDefaults(rs: seq<Record>): seq<Record> {
    seq(|rs|, i requires 0 <= i < |rs| => WithDefaults(rs[i]))
  }

  lemma {:induction false} ParseLinesIff(rs: seq<Record>)
    requires forall i :: 0 <= i < |rs| ==> InRange(rs[i])
    ensures ParseLines(LinesOf(rs)) == Converted(AllWithDefaults(rs)) <==>
            forall i :: 0 <= i < |rs| ==> Faithful(rs[i])
  {
    hide LineOf, ParseLine, InRange, Faithful, WithDefaults;
    if rs != [] {
      var front, last := rs[..|rs| - 1], rs[|rs| - 1];
      ParseLinesIff(front);
      LineRoundTripIff(last);
      var ls := LinesOf(rs);
      assert ls[..|ls| - 1] == LinesOf(front) && ls[|ls| - 1] == LineOf(last) + "\n";
      var all := AllWithDefaults(rs);
      assert all == AllWithDefaults(front) + [WithDefaults(last)];
      assert forall i :: 0 <= i < |front| ==> rs[i] == front[i];
      match ParseLines(LinesOf(front))
      case Failed =>
      case Converted(recs) =>
        match ParseLine(LineOf(last) + "\n")
        case Rejected =>
        case Parsed(r) =>
          SnocEqual(recs, r, AllWithDefaults(front), WithDefaults(last));
    }
  }

  lemma SnocEqual(a: seq<Record>, x: Record, b: seq<Record>, y: Record)
    ensures a + [x] == b + [y] <==> a == b && x == y
  {
    if a + [x] == b + [y] {
      assert a == (a + [x])[..|a|] && b == (b + [y])[..|b|];
      assert x == (a + [x])[|a|] && y == (b + [y])[|b|];
    }
  }

  /** For every list of records: printing the trace and converting the text gives the same records,
      with the defaults filled in, exactly when every record is faithful. */
  lemma TraceRoundTripIff(rs: seq<Record>)
    requires forall i :: 0 <= i < |rs| ==> InRange(rs[i])
    ensures ParseLines(Lines(TextOf(rs))) == Converted(AllWithDefaults(rs)) <==>
            forall i :: 0 <= i < |rs| ==> Faithful(rs[i])
  {
    hide InRange, Faithful, LineOf, ParseLines;
    LinesOfText(rs, "");
    assert TextOf(rs) + "" == TextOf(rs) && LinesOf(rs) + [] == LinesOf(rs);
    ParseLinesIff(rs);
  }

  // ----- The scripts

  method PrintDeps(ds: seq<nat>) returns (text: string)
    ensures text == DepText(ds)
  {
    text := "";
    for k := 0 to |ds|
      invariant text == DepText(ds[..k])
    {
      assert ds[..k + 1][..k] == ds[..k];
      text := text + "," + Decimal(ds[k]);
    }
    assert ds[..|ds|] == ds;
  }

  /** Write one optional field, preceded by a comma. */
  method PrintOptional(text: string, o: Option<nat>, ghost fs: seq<string>) returns (out: string)
    requires fs != [] && text == Join(fs, ',')
    ensures out == Join(fs + OptionalField(o), ',')
  {
    hide Join, Decimal;
    out := text;
    if o.Some? {
      JoinSnoc(fs, Decimal(o.value), ',');
      out := out + "," + Decimal(o.value);
    } else {
      assert fs + OptionalField(o) == fs;
    }
  }

  /** Write one record piece by piece. */
  method PrintRecord(r: Record) returns (line: string)
    ensures line == LineOf(r)
  {
    hide Join, Decimal, DepText, KindName;
    var seqNum := Decimal(r.seqNum);
    ghost var fs := [seqNum];
    assert seqNum == Join(fs, ',') by { JoinOne(seqNum); }
    var text := PrintOptional(seqNum, Some(GetOr(r.pc, 0)), fs);
    fs := fs + [Decimal(GetOr(r.pc, 0))];
    text := PrintOptional(text, Some(GetOr(r.weight, 1)), fs);
    fs := fs + [Decimal(GetOr(r.weight, 1))];
    JoinSnoc(fs, KindName(r.kind), ',');
    text := text + "," + KindName(r.kind);
    fs := fs + [KindName(r.kind)];
    text := PrintOptional(text, r.pAddr, fs);
    text := PrintOptional(text, r.size, fs + OptionalField(r.pAddr));
    text := PrintOptional(text, r.flags, fs + OptionalField(r.pAddr) + OptionalField(r.size));
    fs := fs + OptionalField(r.pAddr) + OptionalField(r.size) + OptionalField(r.flags);
    text := PrintOptional(text, Some(r.compDelay), fs);
    assert fs + [Decimal(r.compDelay)] == Fields(r);
    var rob := PrintDeps(r.robDep);
    var reg := PrintDeps(r.regDep);
    line := text + ":" + rob + ":" + reg;
  }

  lemma JoinOne(f: string)
    ensures Join([f], ',') == f
  {
  }

  /** The records below n that have order dependencies, and those that have register ones. */
  ghost function WithRob(rs: seq<Record>, n: nat): set<int>
    requires n <= |rs|
  {
    set k | 0 <= k < n && rs[k].robDep != []
  }

  ghost function WithReg(rs: seq<Record>, n: nat): set<int>
    requires n <= |rs|
  {
    set k | 0 <= k < n && rs[k].regDep != []
  }

  lemma WithNone(rs: seq<Record>)
    ensures WithRob(rs, 0) == {} && WithReg(rs, 0) == {}
  {
  }

  lemma WithRobNext(rs: seq<Record>, n: nat)
    requires n < |rs|
    ensures |WithRob(rs, n + 1)| == |WithRob(rs, n)| + if rs[n].robDep != [] then 1 else 0
  {
    var now, next := WithRob(rs, n), WithRob(rs, n + 1);
    if rs[n].robDep != [] {
      assert next == now + {n};
    } else {
      assert next == now;
    }
  }

  lemma WithRegNext(rs: seq<Record>, n: nat)
    requires n < |rs|
    ensures |WithReg(rs, n + 1)| == |WithReg(rs, n)| + if rs[n].regDep != [] then 1 else 0
  {
    var now, next := WithReg(rs, n), WithReg(rs, n + 1);
    if rs[n].regDep != [] {
      assert next == now + {n};
    } else {
      assert next == now;
    }
  }

  /** The decode script: the text of the trace, and the statistics it reports. */
  method PrintTrace(rs: seq<Record>)
    returns (text: string, packets: nat, regDeps: nat, robDeps: nat)
    ensures text == TextOf(rs) && packets == |rs|
    ensures robDeps == |set k | 0 <= k < |rs| && rs[k].robDep != []|
    ensures regDeps == |set k | 0 <= k < |rs| && rs[k].regDep != []|
  {
    hide LineOf;
    text, packets, regDeps, robDeps := "", 0, 0, 0;
    WithNone(rs);
    for k := 0 to |rs|
      invariant packets == k && text == TextOf(rs[..k])
      invariant robDeps == |WithRob(rs, k)| && regDeps == |WithReg(rs, k)|
    {
      assert rs[..k + 1][..k] == rs[..k];
      WithRobNext(rs, k);
      WithRegNext(rs, k);
      packets := packets + 1;
      var line := PrintRecord(rs[k]);
      if rs[k].robDep != [] {
        robDeps := robDeps + 1;
      }
      if rs[k].regDep != [] {
        regDeps := regDeps + 1;
      }
      text := text + line + "\n";
    }
    assert rs[..|rs|] == rs;
  }

  /** The loops over the items of a dependency list. */
  method ParseDeps(items: seq<string>) returns (ds: Option<seq<nat>>)
    ensures ds == Numbers(items)
  {
    var found: seq<nat> := [];
    for k := 0 to |items|
      invariant Numbers(items[..k]) == Some(found)
    {
      assert items[..k + 1][..k] == items[..k];
      if items[k] != "" {
        var n := Long(items[k], UINT64);
        if n.None? {
          NumbersStayNone(items, k + 1);
          return None;
        }
        found := found + [n.value];
      }
    }
    assert items[..|items|] == items;
    ds := Some(found);
  }

  lemma {:induction false} NumbersStayNone(items: seq<string>, k: nat)
    requires k <= |items| && Numbers(items[..k]) == None
    ensures Numbers(items) == None
  {
    if k == |items| {
      assert items[..k] == items;
    } else {
      var front := items[..|items| - 1];
      assert front[..k] == items[..k];
      NumbersStayNone(front, k);
    }
  }

  method ConvertLine(line: string) returns (p: Parsed)
    ensures p == ParseLine(line)
  {
    hide Split, Strip, Numbers, ParseFields;
    var parts := Split(Strip(line), ':');
    if |parts| != 3 {
      return Rejected;
    }
    var rob := ParseDeps(Split(Strip(parts[1]), ','));
    var reg := ParseDeps(Split(parts[2], ','));
    if rob.None? || reg.None? {
      return Rejected;
    }
    p := ParseFields(Split(parts[0], ','), rob.value, reg.value);
  }

  /** The encode script: convert a text line by line. */
  method ConvertTrace(text: string) returns (t: Trace)
    ensures t == ParseLines(Lines(text))
  {
    hide ParseLine, Lines;
    var ls := Lines(text);
    var recs := [];
    for k := 0 to |ls|
      invariant ParseLines(ls[..k]) == Converted(recs)
    {
      assert ls[..k + 1][..k] == ls[..k];
      var p := ConvertLine(ls[k]);
      if p.Rejected? {
        FailureStays(ls, k + 1);
        return Failed;
      }
      recs := recs + [p.rec];
    }
    assert ls[..|ls|] == ls;
    t := Converted(recs);
  }

  lemma {:induction false} FailureStays(ls: seq<string>, k: nat)
    requires k <= |ls| && ParseLines(ls[..k]) == Failed
    ensures ParseLines(ls) == Failed
  {
    if k == |ls| {
      assert ls[..k] == ls;
    } else {
      var front := ls[..|ls| - 1];
      assert front[..k] == ls[..k];
      FailureStays(front, k);
    }
  }
}
