/** The string operations of Python that the tools use: decimal numbers, split, join, strip. */
module Text {
  import Arithmetic

  datatype Option<+T> = None | Some(value: T)

  // ----- Decimal numbers

  predicate IsDigit(c: char) {
    '0' <= c <= '9'
  }

  ghost predicate Digits(s: string) {
    forall i :: 0 <= i < |s| ==> IsDigit(s[i])
  }

  function Digit(d: nat): (c: char)
    requires d < 10
    ensures IsDigit(c)
  {
    (48 + d) as char
  }

  function Decimal(n: nat): (s: string)
    ensures s != [] && Digits(s)
  {
    if n < 10 then [Digit(n)] else Decimal(n / 10) + [Digit(n % 10)]
  }

  /** The number that a string of digits stands for; anything else is a ValueError. */
  function ParseNat(s: string): Option<nat> {
    if s == [] || !IsDigit(s[|s| - 1]) then None
    else
      var d := s[|s| - 1] as int - 48;
      if |s| == 1 then Some(d)
      else
        match ParseNat(s[..|s| - 1])
        case None => None
        case Some(n) => Some(10 * n + d)
  }

  lemma {:induction false} ParseDecimal(n: nat)
    ensures ParseNat(Decimal(n)) == Some(n)
  {
    if n >= 10 {
      ParseDecimal(n / 10);
      var s := Decimal(n);
      assert s[..|s| - 1] == Decimal(n / 10);
      assert n == 10 * (n / 10) + n % 10;
    }
  }

  // ----- Split and join

  function Split(s: string, c: char): (r: seq<string>)
    ensures |r| > 0
  {
    if s == [] then [[]]
    else
      var r := Split(s[1..], c);
      if s[0] == c then [[]] + r else [[s[0]] + r[0]] + r[1..]
  }

  function Join(fs: seq<string>, c: char): string {
    if fs == [] then [] else if |fs| == 1 then fs[0] else fs[0] + [c] + Join(fs[1..], c)
  }

  lemma {:induction false} SplitFirst(a: string, b: string, c: char)
    requires c !in a
    ensures Split(a + [c] + b, c) == [a] + Split(b, c)
  {
    if a == [] {
      assert (a + [c] + b)[1..] == b;
    } else {
      assert (a + [c] + b)[1..] == a[1..] + [c] + b;
      SplitFirst(a[1..], b, c);
      assert [a[0]] + a[1..] == a;
    }
  }

  lemma {:induction false} SplitNone(a: string, c: char)
    requires c !in a
    ensures Split(a, c) == [a]
  {
    if a != [] {
      SplitNone(a[1..], c);
      assert [a[0]] + a[1..] == a;
    }
  }

  lemma {:induction false} SplitJoin(fs: seq<string>, c: char)
    requires |fs| > 0 && forall i :: 0 <= i < |fs| ==> c !in fs[i]
    ensures Split(Join(fs, c), c) == fs
  {
    if |fs| == 1 {
      SplitNone(fs[0], c);
    } else {
      SplitJoin(fs[1..], c);
      SplitFirst(fs[0], Join(fs[1..], c), c);
      assert [fs[0]] + fs[1..] == fs;
    }
  }

  /** Appending a field appends the separator and the field. */
  lemma {:induction false} JoinSnoc(fs: seq<string>, f: string, c: char)
    requires |fs| > 0
    ensures Join(fs + [f], c) == Join(fs, c) + [c] + f
  {
    if |fs| == 1 {
      assert (fs + [f])[1..] == [f];
    } else {
      assert (fs + [f])[1..] == fs[1..] + [f];
      JoinSnoc(fs[1..], f, c);
      assert fs[0] + [c] + (Join(fs[1..], c) + [c] + f) == fs[0] + [c] + Join(fs[1..], c) + [c] + f;
    }
  }

  /** A join has only characters of the fields and the separator. */
  lemma {:induction false} JoinChars(fs: seq<string>, c: char, x: char)
    requires x != c && forall i :: 0 <= i < |fs| ==> x !in fs[i]
    ensures x !in Join(fs, c)
  {
    if |fs| > 1 {
      JoinChars(fs[1..], c, x);
    }
  }

  // ----- Strip

  /** Space, tab, newline, vertical tab, form feed and carriage return. */
  predicate IsSpace(c: char)
    ensures IsSpace(c) <==> c as int in {32, 9, 10, 11, 12, 13}
  {
    c == ' ' || '\t' <= c <= '\r'
  }

  function StripLeft(s: string): string {
    if s != [] && IsSpace(s[0]) then StripLeft(s[1..]) else s
  }

  function StripRight(s: string): string {
    if s != [] && IsSpace(s[|s| - 1]) then StripRight(s[..|s| - 1]) else s
  }

  function Strip(s: string): string {
    StripRight(StripLeft(s))
  }

  lemma StripNothing(s: string)
    requires s == [] || (!IsSpace(s[0]) && !IsSpace(s[|s| - 1]))
    ensures Strip(s) == s
  {
  }

  lemma StripNewline(s: string)
    requires s != [] && !IsSpace(s[0]) && !IsSpace(s[|s| - 1])
    ensures Strip(s + "\n") == s
  {
    var line := s + "\n";
    assert StripLeft(line) == line;
    assert line[..|line| - 1] == s && IsSpace(line[|line| - 1]);
    assert StripRight(line) == StripRight(s);
  }

  // ----- Numbers with a sign and space around them

  /** What int makes of a string: digits, perhaps with a sign before and white space around. */
  function ParseInt(s: string): Option<int> {
    var t := Strip(s);
    if t != [] && (t[0] == '-' || t[0] == '+') then
      match ParseNat(StripLeft(t[1..]))
      case None => None
      case Some(n) => var i: int := n; Some(if t[0] == '-' then -i else i)
    else
      match ParseNat(t)
      case None => None
      case Some(n) => Some(n)
  }

  /** What long makes of it: the digits may be followed by an L. */
  function ParseLong(s: string): Option<int> {
    var t := Strip(s);
    if |t| > 1 && (t[|t| - 1] == 'L' || t[|t| - 1] == 'l') && IsDigit(t[|t| - 2])
    then ParseInt(t[..|t| - 1])
    else ParseInt(t)
  }

  lemma ParseIntDecimal(n: nat)
    ensures ParseInt(Decimal(n)) == Some(n) && ParseLong(Decimal(n)) == Some(n)
  {
    hide Decimal, ParseNat, Strip;
    var s := Decimal(n);
    StripNothing(s);
    ParseDecimal(n);
  }

  /** An L behind the digits is read by long and refused by int. */
  lemma LongSuffix(n: nat, suffix: char)
    requires suffix == 'L' || suffix == 'l'
    ensures ParseLong(Decimal(n) + [suffix]) == Some(n) && ParseInt(Decimal(n) + [suffix]) == None
  {
    hide Decimal, ParseNat, Strip;
    var d := Decimal(n);
    var s := d + [suffix];
    StripNothing(s);
    ParseIntDecimal(n);
    ParseNatDigits(s);
    assert s[..|s| - 1] == d && s[|s| - 2] == d[|d| - 1] && !IsDigit(s[|s| - 1]);
  }

  /** A sign and digits. */
  function Signed(n: int): string {
    if n < 0 then "-" + Decimal(-n) else Decimal(n)
  }

  lemma ParseSigned(n: int)
    ensures ParseInt(Signed(n)) == Some(n)
  {
    hide Decimal, ParseNat, Strip;
    if n < 0 {
      var s, d := Signed(n), Decimal(-n);
      StripNothing(s);
      ParseDecimal(-n);
      assert s[1..] == d && StripLeft(d) == d;
    } else {
      ParseIntDecimal(n);
    }
  }

  /** Without white space, anything but digits behind the first character is no number. */
  lemma NotANumber(s: string, k: nat)
    requires IsWord(s) && 0 < k < |s| && !IsDigit(s[k])
    ensures ParseInt(s) == None
  {
    hide ParseNat, Strip;
    StripNothing(s);
    assert StripLeft(s[1..]) == s[1..] && s[1..][k - 1] == s[k];
    ParseNatDigits(s);
    ParseNatDigits(s[1..]);
  }

  lemma {:induction false} ParseNatDigits(s: string)
    ensures ParseNat(s).Some? <==> s != [] && Digits(s)
  {
    if s != [] {
      ParseNatDigits(s[..|s| - 1]);
    }
  }

  // ----- Words

  /** Non-empty and without white space. */
  predicate IsWord(s: string) {
    s != [] && forall i :: 0 <= i < |s| ==> !IsSpace(s[i])
  }

  /** How far the word at the head of s goes. */
  function WordEnd(s: string): (n: nat)
    ensures n <= |s| && forall i :: 0 <= i < n ==> !IsSpace(s[i])
    ensures n < |s| ==> IsSpace(s[n])
  {
    if s == [] || IsSpace(s[0]) then 0 else 1 + WordEnd(s[1..])
  }

  /** What split without an argument gives: the maximal runs without white space. */
  function Words(s: string): (ws: seq<string>)
    ensures forall i :: 0 <= i < |ws| ==> IsWord(ws[i])
    decreases |s|
  {
    if s == [] then []
    else if IsSpace(s[0]) then Words(s[1..])
    else [s[..WordEnd(s)]] + Words(s[WordEnd(s)..])
  }

  lemma WordEndIs(s: string, n: nat)
    requires n <= |s| && forall i :: 0 <= i < n ==> !IsSpace(s[i])
    requires n < |s| ==> IsSpace(s[n])
    ensures WordEnd(s) == n
  {
  }

  lemma WordsOfWord(w: string)
    requires IsWord(w)
    ensures Words(w) == [w]
  {
    WordEndIs(w, |w|);
    assert w[..|w|] == w && w[|w|..] == [];
  }

  /** A space keeps the words on either side apart. */
  lemma {:induction false} WordsApart(a: string, b: string)
    ensures Words(a + " " + b) == Words(a) + Words(b)
    decreases |a|
  {
    hide Words, WordEnd, IsWord;
    var s := a + " " + b;
    WordsOf(a);
    WordsOf(s);
    if a == [] {
      assert s[1..] == b;
    } else if IsSpace(a[0]) {
      assert s[1..] == a[1..] + " " + b;
      WordsApart(a[1..], b);
    } else {
      var n := WordEnd(a);
      assert forall i :: 0 <= i < n ==> s[i] == a[i];
      WordEndIs(s, n);
      assert s[..n] == a[..n] && s[n..] == a[n..] + " " + b;
      WordsApart(a[n..], b);
      assert [a[..n]] + (Words(a[n..]) + Words(b)) == [a[..n]] + Words(a[n..]) + Words(b);
    }
  }

  lemma WordsOf(s: string)
    ensures s == [] ==> Words(s) == []
    ensures s != [] && IsSpace(s[0]) ==> Words(s) == Words(s[1..])
    ensures s != [] && !IsSpace(s[0]) ==>
              WordEnd(s) > 0 && Words(s) == [s[..WordEnd(s)]] + Words(s[WordEnd(s)..])
  {
  }

  /** Words joined by spaces are told apart again. */
  lemma {:induction false} WordsJoin(ws: seq<string>)
    requires forall i :: 0 <= i < |ws| ==> IsWord(ws[i])
    ensures Words(Join(ws, ' ')) == ws
  {
    hide IsWord, Words;
    if |ws| == 1 {
      WordsOfWord(ws[0]);
    } else if |ws| > 1 {
      WordsJoin(ws[1..]);
      WordsOfWord(ws[0]);
      WordsApart(ws[0], Join(ws[1..], ' '));
      assert [ws[0]] + ws[1..] == ws;
    } else {
      WordsOf([]);
    }
  }

  // ----- Order

  /** Comparison of strings: negative, zero or positive. */
  function CompareStrings(a: string, b: string): int {
    if a == [] then (if b == [] then 0 else -1)
    else if b == [] then 1
    else if a[0] != b[0] then (if a[0] < b[0] then -1 else 1)
    else CompareStrings(a[1..], b[1..])
  }

  lemma {:induction false} CompareStringsOrder(a: string, b: string, c: string)
    ensures CompareStrings(a, b) == -CompareStrings(b, a)
    ensures CompareStrings(a, b) == 0 <==> a == b
    ensures CompareStrings(a, b) <= 0 && CompareStrings(b, c) <= 0 ==> CompareStrings(a, c) <= 0
  {
    if a != [] && b != [] {
      CompareStringsOrder(a[1..], b[1..], if c == [] then [] else c[1..]);
      assert a == [a[0]] + a[1..] && b == [b[0]] + b[1..];
    }
  }

  /** After n common characters a ends, or has the smaller one. */
  ghost predicate Differ(a: string, b: string, n: int) {
    0 <= n <= |a| && n < |b| && a[..n] == b[..n] && (n < |a| ==> a[n] < b[n])
  }

  /** The first difference decides: a is before b if it ends or has the smaller character after some
      common ones. */
  ghost predicate Before(a: string, b: string) {
    exists n :: Differ(a, b, n)
  }

  /** A first character that is smaller decides, and one that is larger as well. */
  lemma BeforeFirst(a: string, b: string)
    requires a != [] && b != []
    ensures a[0] < b[0] ==> Before(a, b)
    ensures Before(a, b) ==> a[0] <= b[0]
  {
    if a[0] < b[0] {
      assert a[..0] == b[..0];
      assert Differ(a, b, 0);
    }
    if Before(a, b) {
      var n :| Differ(a, b, n);
      assert n > 0 ==> a[0] == a[..n][0] && b[0] == b[..n][0];
    }
  }

  lemma DifferRest(a: string, b: string, n: int)
    requires a != [] && b != [] && a[0] == b[0] && n > 0
    ensures Differ(a, b, n) <==> Differ(a[1..], b[1..], n - 1)
  {
    if n <= |a| && n < |b| {
      assert a[..n] == [a[0]] + a[1..][..n - 1] && b[..n] == [b[0]] + b[1..][..n - 1];
      assert a[1..][..n - 1] == a[..n][1..] && b[1..][..n - 1] == b[..n][1..];
    }
  }

  lemma BeforeRest(a: string, b: string)
    requires a != [] && b != [] && a[0] == b[0]
    ensures Before(a, b) <==> Before(a[1..], b[1..])
  {
    hide Differ;
    if Before(a, b) {
      var n :| Differ(a, b, n);
      assert n > 0 by { NotAtOnce(a, b); }
      DifferRest(a, b, n);
    }
    if Before(a[1..], b[1..]) {
      var n :| Differ(a[1..], b[1..], n);
      assert n >= 0 by { NotAtOnce(a[1..], b[1..]); }
      DifferRest(a, b, n + 1);
    }
  }

  lemma NotAtOnce(a: string, b: string)
    ensures forall n :: Differ(a, b, n) ==> n >= 0 && (n == 0 && a != [] ==> a[0] < b[0])
  {
  }

  lemma {:induction false} CompareStringsIff(a: string, b: string)
    ensures CompareStrings(a, b) < 0 <==> Before(a, b)
  {
    if a == [] && b != [] {
      assert a[..0] == b[..0];
      assert Differ(a, b, 0);
    } else if b != [] {
      hide Before;
      BeforeFirst(a, b);
      if a[0] == b[0] {
        BeforeRest(a, b);
        CompareStringsIff(a[1..], b[1..]);
      }
    }
  }
}
