/** Years in copyright notices: printed as ranges, and read back. */
module CopyrightYears {
  import opened Counting
  import opened Sorting
  import opened Text

  // ----- Printing

  datatype Run = Run(first: int, last: int)

  ghost predicate Covered(runs: seq<Run>, y: int) {
    exists k :: 0 <= k < |runs| && runs[k].first <= y <= runs[k].last
  }

  /** Ascending ranges that cover exactly the years, with a year missing between any two. */
  ghost predicate Maximal(runs: seq<Run>, years: set<int>) {
    && (forall k :: 0 <= k < |runs| ==> runs[k].first <= runs[k].last)
    && (forall j, k :: 0 <= j < k < |runs| ==> runs[j].last + 1 < runs[k].first)
    && (forall y :: y in years <==> Covered(runs, y))
  }

  function Printed(r: Run): string {
    if r.first == r.last then Signed(r.first) else Signed(r.first) + "-" + Signed(r.last)
  }

  function AllPrinted(runs: seq<Run>): (fields: seq<string>)
    ensures |fields| == |runs|
  {
    seq(|runs|, k requires 0 <= k < |runs| => Printed(runs[k]))
  }

  lemma CoveredSnoc(runs: seq<Run>, r: Run, y: int)
    ensures Covered(runs + [r], y) <==> Covered(runs, y) || r.first <= y <= r.last
  {
    var more := runs + [r];
    if Covered(runs, y) {
      var k :| 0 <= k < |runs| && runs[k].first <= y <= runs[k].last;
      assert more[k].first <= y <= more[k].last;
    }
    if r.first <= y <= r.last {
      assert more[|runs|].first <= y <= more[|runs|].last;
    }
  }

  lemma GrowRun(runs: seq<Run>, first: int, last: int, years: set<int>)
    requires Maximal(runs + [Run(first, last)], years)
    ensures Maximal(runs + [Run(first, last + 1)], years + {last + 1})
  {
    hide Covered;
    var a, b := runs + [Run(first, last)], runs + [Run(first, last + 1)];
    assert a[|runs|].first <= a[|runs|].last;
    assert forall k :: 0 <= k < |runs| ==> b[k] == a[k];
    forall y ensures y in years + {last + 1} <==> Covered(b, y) {
      CoveredSnoc(runs, Run(first, last), y);
      CoveredSnoc(runs, Run(first, last + 1), y);
    }
  }

  lemma NewRun(runs: seq<Run>, years: set<int>, next: int)
    requires Maximal(runs, years) && forall k :: 0 <= k < |runs| ==> runs[k].last + 1 < next
    ensures Maximal(runs + [Run(next, next)], years + {next})
  {
    hide Covered;
    forall y ensures y in years + {next} <==> Covered(runs + [Run(next, next)], y) {
      CoveredSnoc(runs, Run(next, next), y);
    }
  }

  lemma ElementsSnoc(s: seq<int>, y: int)
    ensures Elements(s + [y]) == Elements(s) + {y}
  {
  }

  method Listed(years: seq<int>) returns (dates: seq<int>)
    requires Distinct(years)
    ensures Elements(dates) == Elements(years) && |dates| == |years|
    ensures Ascending(dates)
  {
    var leq := (a: int, b: int) => a <= b;
    dates := Sort(leq, years);
    SortSorted(leq, years);
    SortPermutes(leq, years);
    Permuted(dates, years);
  }

  datatype Outcome = IndexError | Dates(text: string)

  ghost predicate Ascending(dates: seq<int>) {
    forall j, k :: 0 <= j < k < |dates| ==> dates[j] < dates[k]
  }

  /** The first k dates make up the runs, the last of which goes on. */
  ghost predicate Divided(dates: seq<int>, k: nat, done: seq<Run>, first: int, last: int)
    requires k <= |dates|
  {
    && k > 0 && last == dates[k - 1]
    && Maximal(done + [Run(first, last)], Elements(dates[..k]))
  }

  lemma DividedFirst(dates: seq<int>)
    requires |dates| > 0
    ensures Divided(dates, 1, [], dates[0], dates[0])
  {
    NewRun([], {}, dates[0]);
    assert [] + [Run(dates[0], dates[0])] == [Run(dates[0], dates[0])];
    assert Elements(dates[..1]) == {} + {dates[0]};
  }

  lemma DividedNext(dates: seq<int>, k: nat, done: seq<Run>, first: int, last: int)
    requires Ascending(dates) && k < |dates| && Divided(dates, k, done, first, last)
    ensures dates[k] == last + 1 ==> Divided(dates, k + 1, done, first, dates[k])
    ensures dates[k] != last + 1 ==>
              Divided(dates, k + 1, done + [Run(first, last)], dates[k], dates[k])
  {
    hide Maximal;
    ElementsSnoc(dates[..k], dates[k]);
    assert dates[..k + 1] == dates[..k] + [dates[k]];
    if dates[k] == last + 1 {
      GrowRun(done, first, last, Elements(dates[..k]));
    } else {
      AllBefore(done, first, last, Elements(dates[..k]), dates[k]);
      NewRun(done + [Run(first, last)], Elements(dates[..k]), dates[k]);
    }
  }

  lemma AllBefore(done: seq<Run>, first: int, last: int, years: set<int>, next: int)
    requires Maximal(done + [Run(first, last)], years) && last + 1 < next
    ensures forall k :: 0 <= k <= |done| ==> (done + [Run(first, last)])[k].last + 1 < next
  {
    var runs := done + [Run(first, last)];
    assert runs[|done|] == Run(first, last);
    assert forall k :: 0 <= k < |done| ==> runs[k].last + 1 < runs[|done|].first;
  }

  lemma DividedMeans(dates: seq<int>, k: nat, done: seq<Run>, first: int, last: int)
    requires k <= |dates| && Divided(dates, k, done, first, last)
    ensures Maximal(done + [Run(first, last)], Elements(dates[..k]))
  {
  }

  lemma PrintedSnoc(runs: seq<Run>, r: Run)
    ensures AllPrinted(runs + [r]) == AllPrinted(runs) + [Printed(r)]
  {
  }

  /** The set is given by its elements in any order. */
  method DateStr(years: seq<int>) returns (r: Outcome, ghost runs: seq<Run>)
    requires Distinct(years)
    ensures r.IndexError? <==> years == []
    ensures r.Dates? ==>
              && |runs| > 0 && Maximal(runs, Elements(years))
              && r.text == Join(AllPrinted(runs), ',')
  {
    hide Divided, Maximal, Distinct, Elements, AllPrinted, Printed;
    runs := [];
    var dates := Listed(years);
    if dates == [] {
      return IndexError, [];
    }
    var output: seq<string> := [];
    var first := dates[0];
    var last := first;
    DividedFirst(dates);
    var k := 1;
    while k < |dates|
      invariant 1 <= k <= |dates|
      invariant Divided(dates, k, runs, first, last)
      invariant output == AllPrinted(runs)
    {
      var next := dates[k];
      DividedNext(dates, k, runs, first, last);
      if next == last + 1 {
        last := next;
      } else {
        PrintedSnoc(runs, Run(first, last));
        output := output + [Printed(Run(first, last))];
        runs := runs + [Run(first, last)];
        first, last := next, next;
      }
      k := k + 1;
    }
    assert Maximal(runs + [Run(first, last)], Elements(years)) by {
      assert dates[..k] == dates;
      DividedMeans(dates, k, runs, first, last);
    }
    PrintedSnoc(runs, Run(first, last));
    output := output + [Printed(Run(first, last))];
    runs := runs + [Run(first, last)];
    r := Dates(Join(output, ','));
  }

  // ----- Reading

  function FourDigits(s: string): Option<nat> {
    if |s| < 4 then None else ParseNat(s[..4])
  }

  /** Four digits, a hyphen and four digits at the start, with space around the hyphen or not. */
  function MatchRange(s: string): Option<Run> {
    match FourDigits(s)
    case None => None
    case Some(f) =>
      var t := StripLeft(s[4..]);
      if t == [] || t[0] != '-' then None
      else
        match FourDigits(StripLeft(t[1..]))
        case None => None
        case Some(l) => Some(Run(f, l))
  }

  function Between(f: int, l: int): (years: set<int>)
    ensures forall y :: y in years <==> f <= y <= l
    decreases l - f
  {
    if f > l then {} else Between(f, l - 1) + {l}
  }

  /** The years of one entry, none when it cannot be read. */
  function Entry(s: string): set<int> {
    match MatchRange(s)
    case Some(r) => Between(r.first, r.last)
    case None =>
      match ParseInt(s)
      case Some(n) => {n}
      case None => {}
  }

  function Entries(fields: seq<string>, k: nat): set<int>
    requires k <= |fields|
  {
    if k == 0 then {} else Entries(fields, k - 1) + Entry(Strip(fields[k - 1]))
  }

  function Years(text: string): set<int> {
    var fields := Text.Split(text, ',');
    Entries(fields, |fields|)
  }

  method AddRange(before: set<int>, f: int, l: int) returns (output: set<int>)
    ensures output == before + Between(f, l)
  {
    output := before;
    var i := f;
    assert Between(f, f - 1) == {};
    while i < l + 1
      invariant f <= i && (i <= l + 1 || i == f)
      invariant output == before + Between(f, i - 1)
    {
      assert Between(f, i) == Between(f, i - 1) + {i};
      output := output + {i};
      i := i + 1;
    }
  }

  method AddEntry(before: set<int>, date: string) returns (output: set<int>)
    ensures output == before + Entry(date)
  {
    hide MatchRange, ParseInt, Between;
    output := before;
    var m := MatchRange(date);
    if m.Some? {
      output := AddRange(output, m.value.first, m.value.last);
    } else {
      var n := ParseInt(date);
      if n.Some? {
        output := output + {n.value};
      }
    }
  }

  method ProcessDates(text: string) returns (output: set<int>)
    ensures output == Years(text)
  {
    hide Entry, Strip, Text.Split;
    var dates := Text.Split(text, ',');
    output := {};
    for k := 0 to |dates|
      invariant output == Entries(dates, k)
    {
      output := AddEntry(output, Strip(dates[k]));
    }
  }

  // ----- Printed and read back

  lemma Width(n: nat)
    ensures n < 1000 ==> |Decimal(n)| < 4
    ensures 1000 <= n < 10000 ==> |Decimal(n)| == 4
    ensures n >= 10000 ==> |Decimal(n)| > 4
  {
    if n >= 10 {
      assert |Decimal(n)| == |Decimal(n / 10)| + 1;
      if n >= 100 {
        assert |Decimal(n / 10)| == |Decimal(n / 10 / 10)| + 1;
        if n >= 1000 {
          assert |Decimal(n / 10 / 10)| == |Decimal(n / 10 / 10 / 10)| + 1;
          if n >= 10000 {
            assert n / 10 / 10 / 10 >= 10;
            assert |Decimal(n / 10 / 10 / 10)| == |Decimal(n / 10 / 10 / 10 / 10)| + 1;
          }
        }
      }
    }
  }

  lemma OneMoreDigit(s: string, k: nat, most: nat)
    requires k < |s| && (ParseNat(s[..k]).Some? ==> ParseNat(s[..k]).value <= most)
    ensures ParseNat(s[..k + 1]).Some? ==> ParseNat(s[..k + 1]).value <= 10 * most + 9
  {
    assert s[..k + 1][..k] == s[..k];
  }

  lemma FourDigitsSmall(s: string)
    ensures FourDigits(s).Some? ==> FourDigits(s).value <= 9999
  {
    if |s| >= 4 {
      OneMoreDigit(s, 0, 0);
      OneMoreDigit(s, 1, 9);
      OneMoreDigit(s, 2, 99);
      OneMoreDigit(s, 3, 999);
    }
  }

  lemma NoFourDigits(s: string, k: nat)
    requires k < 4 && (k < |s| ==> !IsDigit(s[k]))
    ensures FourDigits(s) == None && MatchRange(s) == None
  {
    hide ParseNat, StripLeft;
    if |s| >= 4 {
      ParseNatDigits(s[..4]);
      assert s[..4][k] == s[k];
    }
  }

  /** A digit where the hyphen should be. */
  lemma NoHyphen(s: string)
    requires |s| > 4 ==> IsDigit(s[4])
    ensures MatchRange(s) == None
  {
    hide ParseNat;
    if |s| > 4 {
      assert s[4..][0] == s[4];
    }
  }

  lemma EntryNumber(n: int)
    ensures Entry(Signed(n)) == {n}
  {
    hide Decimal, ParseNat, ParseInt, MatchRange;
    var s := Signed(n);
    assert MatchRange(s) == None by {
      if n < 0 {
        NoFourDigits(s, 0);
      } else {
        NoHyphen(s);
      }
    }
    ParseSigned(n);
  }

  /** A range is read back only if both ends have four digits. */
  lemma EntryRange(f: int, l: int)
    requires f < l
    ensures 1000 <= f && l <= 9999 ==> Entry(Printed(Run(f, l))) == Between(f, l)
    ensures !(1000 <= f && l <= 9999) ==>
              Entry(Printed(Run(f, l))) <= Between(f, l) && l !in Entry(Printed(Run(f, l)))
  {
    hide Decimal, ParseNat, ParseInt, MatchRange;
    var s := Printed(Run(f, l));
    if f < 0 {
      var a := Decimal(-f);
      assert s[|a| + 1] == '-' && s[0] == '-';
      NoFourDigits(s, 0);
      NotANumber(s, |a| + 1);
    } else {
      var a := Decimal(f);
      assert s[|a|] == '-' && s[0] == a[0];
      NotANumber(s, |a|);
      Width(f);
      if f < 1000 {
        NoFourDigits(s, |a|);
      } else if f > 9999 {
        assert s[4] == a[4];
        NoHyphen(s);
      } else {
        RangeMatched(f, l);
      }
    }
  }

  lemma RangeMatched(f: nat, l: nat)
    requires 1000 <= f <= 9999 && f < l
    ensures MatchRange(Printed(Run(f, l))).Some?
    ensures var r := MatchRange(Printed(Run(f, l))).value;
            r.first == f && (if l <= 9999 then r.last == l else r.last <= 9999)
  {
    hide Decimal, ParseNat, FourDigits;
    var a, b := Decimal(f), Decimal(l);
    var s := a + "-" + b;
    Width(f);
    Width(l);
    assert s[..4] == a && s[4..] == "-" + b && s[4..][1..] == b;
    assert FourDigits(s) == Some(f) by { FourOf(s, f); }
    assert StripLeft("-" + b) == "-" + b && StripLeft(b) == b;
    assert FourDigits(b).Some? && (l <= 9999 ==> FourDigits(b) == Some(l)) by { FourOrMore(l); }
    FourDigitsSmall(b);
  }

  lemma FourOf(s: string, f: nat)
    requires |s| >= 4 && s[..4] == Decimal(f)
    ensures FourDigits(s) == Some(f)
  {
    ParseDecimal(f);
  }

  lemma FourOrMore(l: nat)
    requires l >= 1000
    ensures FourDigits(Decimal(l)).Some? && (l <= 9999 ==> FourDigits(Decimal(l)) == Some(l))
  {
    hide Decimal, ParseNat;
    var b := Decimal(l);
    Width(l);
    ParseNatDigits(b[..4]);
    if l <= 9999 {
      assert b[..4] == b;
      ParseDecimal(l);
    }
  }

  lemma PrintedChars(r: Run)
    ensures ',' !in Printed(r) && Strip(Printed(r)) == Printed(r)
  {
    hide Decimal, Strip;
    var s := Printed(r);
    assert s != [] && !IsSpace(s[0]) && !IsSpace(s[|s| - 1]);
    StripNothing(s);
  }

  lemma {:induction false} InEntries(fields: seq<string>, k: nat, y: int)
    requires k <= |fields|
    ensures y in Entries(fields, k) <==> exists j :: 0 <= j < k && y in Entry(Strip(fields[j]))
  {
    hide Entry, Strip;
    if k > 0 {
      InEntries(fields, k - 1, y);
    }
  }

  /** What one printed range reads as. */
  function Part(r: Run): set<int> {
    Entry(Printed(r))
  }

  lemma YearsOfPrinted(runs: seq<Run>, y: int)
    requires |runs| > 0
    ensures y in Years(Join(AllPrinted(runs), ',')) <==>
              exists k :: 0 <= k < |runs| && y in Part(runs[k])
  {
    hide Entry, Strip, Entries, Printed, Join, Text.Split;
    var fields := AllPrinted(runs);
    forall k | 0 <= k < |runs|
      ensures ',' !in fields[k] && Entry(Strip(fields[k])) == Part(runs[k])
    {
      PrintedChars(runs[k]);
    }
    SplitJoin(fields, ',');
    InEntries(fields, |fields|, y);
  }

  /** A run of one year, or of four-digit years. */
  predicate Readable(r: Run) {
    r.first == r.last || (1000 <= r.first && r.last <= 9999)
  }

  lemma PartOf(r: Run)
    requires r.first <= r.last
    ensures Part(r) <= Between(r.first, r.last)
    ensures Readable(r) ==> Part(r) == Between(r.first, r.last)
    ensures !Readable(r) ==> r.last !in Part(r)
  {
    hide Entry;
    if r.first == r.last {
      EntryNumber(r.first);
    } else {
      EntryRange(r.first, r.last);
    }
  }

  lemma RunsRoundTripIff(runs: seq<Run>, years: set<int>)
    requires Maximal(runs, years) && |runs| > 0
    ensures Years(Join(AllPrinted(runs), ',')) == years <==>
              forall k :: 0 <= k < |runs| ==> Readable(runs[k])
  {
    hide Years, Join, AllPrinted, Part, Between;
    var read := Years(Join(AllPrinted(runs), ','));
    forall y ensures y in read <==> exists k :: 0 <= k < |runs| && y in Part(runs[k]) {
      YearsOfPrinted(runs, y);
    }
    forall k | 0 <= k < |runs|
      ensures Part(runs[k]) <= Between(runs[k].first, runs[k].last)
      ensures Readable(runs[k]) ==> Part(runs[k]) == Between(runs[k].first, runs[k].last)
      ensures !Readable(runs[k]) ==> runs[k].last !in Part(runs[k])
    {
      PartOf(runs[k]);
    }
    if k :| 0 <= k < |runs| && !Readable(runs[k]) {
      assert runs[k].first <= runs[k].last;
      assert Covered(runs, runs[k].last);
      assert runs[k].last in years && runs[k].last !in read;
    } else {
      assert read == years;
    }
  }

  /** Neighbouring years are in the same run. */
  lemma ReadableIff(runs: seq<Run>, years: set<int>)
    requires Maximal(runs, years)
    ensures (forall k :: 0 <= k < |runs| ==> Readable(runs[k])) <==>
              forall y :: y in years && y + 1 in years ==> 1000 <= y < 9999
  {
    if forall k :: 0 <= k < |runs| ==> Readable(runs[k]) {
      forall y | y in years && y + 1 in years ensures 1000 <= y < 9999 {
        assert Covered(runs, y) && Covered(runs, y + 1);
        var j :| 0 <= j < |runs| && runs[j].first <= y <= runs[j].last;
        var k :| 0 <= k < |runs| && runs[k].first <= y + 1 <= runs[k].last;
        assert j == k;
        assert Readable(runs[j]);
      }
    } else {
      var k :| 0 <= k < |runs| && !Readable(runs[k]);
      var f, l := runs[k].first, runs[k].last;
      assert Covered(runs, f) && Covered(runs, f + 1) && Covered(runs, l) && Covered(runs, l - 1);
      assert (l - 1) + 1 == l;
    }
  }

  /** What is printed reads back as the same years, if and only if neighbouring years have four
      digits. */
  lemma RoundTripIff(runs: seq<Run>, years: set<int>)
    requires Maximal(runs, years) && |runs| > 0
    ensures Years(Join(AllPrinted(runs), ',')) == years <==>
              forall y :: y in years && y + 1 in years ==> 1000 <= y < 9999
  {
    hide *;
    RunsRoundTripIff(runs, years);
    ReadableIff(runs, years);
  }

  /** A run of years is printed as one range: the years around it are missing. */
  lemma RunsEndAtGaps(runs: seq<Run>, years: set<int>, k: nat)
    requires Maximal(runs, years) && k < |runs|
    ensures runs[k].first - 1 !in years && runs[k].last + 1 !in years
    ensures Between(runs[k].first, runs[k].last) <= years
  {
    hide Between;
    forall y | runs[k].first <= y <= runs[k].last ensures y in years {
      assert Covered(runs, y);
    }
    var r := runs[k];
    assert r.first <= r.last;
    assert Covered(runs, r.first - 1) <==> r.first - 1 in years;
    assert Covered(runs, r.last + 1) <==> r.last + 1 in years;
  }

  /** Print the years and read them back. */
  method PrintAndRead(years: seq<int>) returns (r: Outcome, read: set<int>)
    requires Distinct(years)
    ensures r.IndexError? <==> years == []
    ensures r.Dates? ==>
              (read == Elements(years) <==>
                 forall y :: y in Elements(years) && y + 1 in Elements(years) ==> 1000 <= y < 9999)
  {
    hide *;
    ghost var runs;
    r, runs := DateStr(years);
    read := {};
    if r.Dates? {
      read := ProcessDates(r.text);
      RoundTripIff(runs, Elements(years));
    }
  }
}
