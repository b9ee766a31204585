/** Length-prefixed messages: the base 128 varints of the Protocol Buffers encoding, and streams
    of messages that each follow a varint of their length. */
module Protolib {
  import opened Arithmetic

  const TWO32: int := 0x1_0000_0000
  const TWO63: int := 0x8000_0000_0000_0000
  const TWO64: int := 0x1_0000_0000_0000_0000
  const TWO70: int := 0x40_0000_0000_0000_0000

  // ----- Base 128

  /** The number that a group of bytes stands for: seven bits to a byte, low bits first. */
  function Raw(s: seq<Byte>): nat {
    if s == [] then 0 else s[0] % 128 + 128 * Raw(s[1..])
  }

  function Power(k: nat): (p: nat)
    ensures p > 0
  {
    if k == 0 then 1 else 128 * Power(k - 1)
  }

  /** A group is complete at its first byte without the continuation bit. */
  ghost predicate Group(s: seq<Byte>) {
    |s| > 0 && s[|s| - 1] < 128 && forall i :: 0 <= i < |s| - 1 ==> s[i] >= 128
  }

  function Varint(v: nat): seq<Byte> {
    if v < 128 then [v] else [128 + v % 128] + Varint(v / 128)
  }

  lemma {:induction false} VarintIsGroup(v: nat)
    ensures Group(Varint(v)) && Raw(Varint(v)) == v
  {
    if v < 128 {
      assert [v][1..] == [];
    } else {
      VarintIsGroup(v / 128);
      assert Varint(v)[1..] == Varint(v / 128);
      assert v == 128 * (v / 128) + v % 128;
      assert (128 + v % 128) % 128 == v % 128;
    }
  }

  lemma {:induction false} RawSnoc(s: seq<Byte>, b: Byte)
    ensures Raw(s + [b]) == Raw(s) + b % 128 * Power(|s|) && Raw([]) == 0
  {
    if s == [] {
      assert ([b])[1..] == [] && s + [b] == [b];
    } else {
      assert (s + [b])[1..] == s[1..] + [b];
      RawSnoc(s[1..], b);
      assert 128 * (b % 128 * Power(|s| - 1)) == b % 128 * (128 * Power(|s| - 1));
    }
  }

  lemma {:induction false} RawBelow(s: seq<Byte>)
    ensures Raw(s) < Power(|s|)
  {
    if s != [] {
      RawBelow(s[1..]);
    }
  }

  lemma {:induction false} RawAtLeast(s: seq<Byte>)
    requires Group(s) && |s| > 1 && s[|s| - 1] > 0
    ensures Raw(s) >= Power(|s| - 1)
  {
    if |s| == 2 {
      assert Raw(s[1..]) == s[1] by { assert s[1..][1..] == []; }
      assert Power(1) == 128 * Power(0);
    } else {
      assert s[1..][|s[1..]| - 1] == s[|s| - 1];
      RawAtLeast(s[1..]);
    }
  }

  // ----- Decoding

  datatype Decoded = Eof | TooManyBytes | Value(value: int, used: nat)

  /** The value of a complete group cut to 32 bits: as an unsigned number, or, if the group was
      negative as a 64-bit number, with all higher bits set. Or-ing with the complement of the
      mask keeps the low 32 bits and makes the rest -2^32. */
  function Cut32(raw: int): int {
    if raw > TWO63 - 1 then (raw - TWO64) % TWO32 - TWO32 else raw % TWO32
  }

  /** Congruence, and the range on either side of 2^63. */
  lemma Cut32Range(raw: nat)
    ensures (Cut32(raw) - raw) % TWO32 == 0
    ensures if raw < TWO63 then 0 <= Cut32(raw) < TWO32 else -TWO32 <= Cut32(raw) < 0
    ensures Cut32(raw) == raw <==> raw < TWO32
    ensures raw < TWO63 ==> Cut32(raw) == raw % TWO32
  {
    if raw >= TWO63 {
      assert TWO64 == TWO32 * TWO32;
      var x := raw - TWO64;
      assert x == TWO32 * (x / TWO32) + x % TWO32;
      Arithmetic.DivUnique(Cut32(raw) - raw, TWO32, -(x / TWO32) - 1 - TWO32, 0);
    } else {
      assert raw == TWO32 * (raw / TWO32) + raw % TWO32;
      Arithmetic.DivUnique(Cut32(raw) - raw, TWO32, -(raw / TWO32), 0);
    }
  }

  /** Where the first group of s ends. */
  function GroupLength(s: seq<Byte>): (n: nat)
    ensures n <= |s|
    ensures n > 0 ==> Group(s[..n])
    ensures n == 0 ==> forall i :: 0 <= i < |s| ==> s[i] >= 128
  {
    if s == [] then 0
    else if s[0] < 128 then 1
    else
      var m := GroupLength(s[1..]);
      if m == 0 then
        assert forall i :: 0 < i < |s| ==> s[i] == s[1..][i - 1];
        0
      else
        assert s[..m + 1] == [s[0]] + s[1..][..m];
        m + 1
  }

  /** The varint at the head of a stream. */
  function Decode(s: seq<Byte>): Decoded {
    var n := GroupLength(s);
    if 0 < n <= 10 then Value(Cut32(Raw(s[..n])), n)
    else if |s| >= 10 then TooManyBytes
    else Eof
  }

  /** For every stream: a value is decoded from the first group if that has at most ten bytes; it is
      the end of the file if all bytes, fewer than ten, have the continuation bit, and an error if
      the first ten have it. */
  lemma DecodeIff(s: seq<Byte>)
    ensures Decode(s).Eof? <==> |s| < 10 && forall i :: 0 <= i < |s| ==> s[i] >= 128
    ensures Decode(s).TooManyBytes? <==> |s| >= 10 && forall i :: 0 <= i < 10 ==> s[i] >= 128
    ensures Decode(s).Value? ==>
              && 0 < Decode(s).used <= 10 && Decode(s).used <= |s| && Group(s[..Decode(s).used])
              && Decode(s).value == Cut32(Raw(s[..Decode(s).used]))
  {
    hide Raw, Cut32;
    var n := GroupLength(s);
    if n > 0 {
      assert s[..n][n - 1] == s[n - 1];
      assert forall i :: 0 <= i < n - 1 ==> s[i] == s[..n][i];
    }
  }

  /** How many bytes are read for it. */
  function Consumed(s: seq<Byte>): (n: nat)
    ensures n <= |s| && (Decode(s).Value? ==> n == Decode(s).used > 0)
  {
    match Decode(s)
    case Value(_, used) => used
    case TooManyBytes => 10
    case Eof => |s|
  }

  lemma {:induction false} GroupLengthOf(g: seq<Byte>, rest: seq<Byte>)
    requires Group(g)
    ensures GroupLength(g + rest) == |g|
  {
    if |g| > 1 {
      assert (g + rest)[1..] == g[1..] + rest;
      GroupLengthOf(g[1..], rest);
    }
  }

  /** Every complete group of at most ten bytes decodes to its value cut to 32 bits and leaves what
      follows it. */
  lemma DecodeGroup(g: seq<Byte>, rest: seq<Byte>)
    requires Group(g) && |g| <= 10
    ensures Decode(g + rest) == Value(Cut32(Raw(g)), |g|)
    ensures (g + rest)[|g|..] == rest
  {
    GroupLengthOf(g, rest);
    assert (g + rest)[..|g|] == g;
  }

  lemma {:induction false} VarintTop(v: nat)
    requires v >= 128
    ensures |Varint(v)| > 1 && Varint(v)[|Varint(v)| - 1] > 0
  {
    if v / 128 >= 128 {
      VarintTop(v / 128);
    }
  }

  lemma Powers()
    ensures Power(10) == TWO70
  {
    assert Power(2) == 128 * Power(1) && Power(1) == 128 * Power(0);
    assert Power(4) == 128 * Power(3) && Power(3) == 128 * Power(2);
    assert Power(6) == 128 * Power(5) && Power(5) == 128 * Power(4);
    assert Power(8) == 128 * Power(7) && Power(7) == 128 * Power(6);
    assert Power(10) == 128 * Power(9) && Power(9) == 128 * Power(8);
  }

  lemma {:induction false} PowerGrows(a: nat, b: nat)
    requires a <= b
    ensures Power(a) <= Power(b)
  {
    if a < b {
      PowerGrows(a, b - 1);
    }
  }

  /** Ten bytes are enough exactly for numbers below 2^70. */
  lemma VarintLength(v: nat)
    ensures |Varint(v)| <= 10 <==> v < TWO70
  {
    hide Varint;
    VarintIsGroup(v);
    RawBelow(Varint(v));
    Powers();
    if v >= 128 {
      VarintTop(v);
      RawAtLeast(Varint(v));
      if |Varint(v)| > 10 {
        PowerGrows(10, |Varint(v)| - 1);
      } else {
        PowerGrows(|Varint(v)|, 10);
      }
    } else {
      assert |Varint(v)| == 1 by { VarintStep(v); }
    }
  }

  /** A number survives encoding and decoding exactly when it fits 32 bits. */
  lemma VarintRoundTripIff(v: nat, rest: seq<Byte>)
    ensures Decode(Varint(v) + rest) == Value(v, |Varint(v)|) <==> v < TWO32
    ensures v < TWO70 ==> Decode(Varint(v) + rest) == Value(Cut32(v), |Varint(v)|)
  {
    hide Varint, Raw, Cut32;
    var g := Varint(v);
    VarintIsGroup(v);
    VarintLength(v);
    Cut32Range(v);
    if |g| <= 10 {
      DecodeGroup(g, rest);
    } else {
      GroupLengthOf(g, rest);
    }
  }

  // ----- Streams of messages

  function Frame(m: seq<Byte>): seq<Byte> {
    Varint(|m|) + m
  }

  function Frames(ms: seq<seq<Byte>>): seq<Byte> {
    if ms == [] then [] else Frame(ms[0]) + Frames(ms[1..])
  }

  /** What an attempt to read a message gives, and what it leaves of the stream. */
  datatype Message = NoMessage(rest: seq<Byte>) | Message(buf: seq<Byte>, rest: seq<Byte>)

  /** What reading n bytes gives: as many as there are, and all of them for a negative n. */
  function ReadCount(s: seq<Byte>, n: int): (k: nat)
    ensures n >= 0 ==> k == Min(n, |s|)
    ensures n < 0 ==> k == |s|
  {
    if n < 0 || n > |s| then |s| else n
  }

  /** One message off the head of a stream. */
  function Unframe(s: seq<Byte>): (r: Message)
    ensures r.Message? ==> |r.rest| < |s|
  {
    var tail := s[Consumed(s)..];
    match Decode(s)
    case Eof => NoMessage(tail)
    case TooManyBytes => NoMessage(tail)
    case Value(size, used) =>
      if size == 0 then NoMessage(tail)
      else
        var n := ReadCount(tail, size);
        Message(tail[..n], tail[n..])
  }

  /** Messages until there is none. */
  function Unframes(s: seq<Byte>): seq<seq<Byte>>
    decreases |s|
  {
    match Unframe(s)
    case NoMessage(_) => []
    case Message(buf, rest) => [buf] + Unframes(rest)
  }

  /** What is left of the stream then. */
  function Remainder(s: seq<Byte>): seq<Byte>
    decreases |s|
  {
    match Unframe(s)
    case NoMessage(rest) => rest
    case Message(_, rest) => Remainder(rest)
  }

  /** One frame: a message of 1 to 2^32 - 1 bytes comes back whole and leaves what follows. An empty
      one gives no message, and of a longer one its length modulo 2^32 is read. From 2^63 on the
      length comes back negative, and everything is read; from 2^70 on it does not come back. */
  lemma UnframeFrame(m: seq<Byte>, rest: seq<Byte>)
    ensures var r := Unframe(Frame(m) + rest);
            if 0 < |m| < TWO32 then r == Message(m, rest)
            else if |m| == 0 then r == NoMessage(rest)
            else if |m| < TWO63 then
              if |m| % TWO32 == 0 then r.NoMessage? else r.Message? && |r.buf| == |m| % TWO32
            else if |m| < TWO70 then r == Message(m + rest, [])
            else r.NoMessage?
  {
    hide Varint, Decode, Raw, Cut32;
    var v := Varint(|m|);
    var s := v + (m + rest);
    VarintLength(|m|);
    VarintRoundTripIff(|m|, m + rest);
    Cut32Range(|m|);
    assert Frame(m) + rest == s;
    if |m| < TWO70 {
      var tail := s[Consumed(s)..];
      assert tail == m + rest;
      if 0 < |m| < TWO32 {
        assert tail[..|m|] == m && tail[|m|..] == rest;
      }
    } else {
      LongVarint(|m|, m + rest);
    }
  }

  lemma LongVarint(v: nat, rest: seq<Byte>)
    requires v >= TWO70
    ensures Decode(Varint(v) + rest) == TooManyBytes
  {
    hide Varint, Raw, Cut32;
    VarintIsGroup(v);
    VarintLength(v);
    GroupLengthOf(Varint(v), rest);
  }

  /** A message that comes back: one of 1 to 2^32 - 1 bytes, or a last one of 2^63 to 2^70 - 1. */
  predicate Survives(m: seq<Byte>, last: bool) {
    0 < |m| < TWO32 || (last && TWO63 <= |m| < TWO70)
  }

  lemma FramesNotEmpty(ms: seq<seq<Byte>>)
    ensures (Frames(ms) == [] <==> ms == []) && Unframe([]) == NoMessage([])
  {
    if ms != [] {
      VarintIsGroup(|ms[0]|);
    }
  }

  /** Reading one frame of a list gives its message if and only if that survives, and then leaves
      the frames of the others. */
  lemma FirstSurvivesIff(m: seq<Byte>, more: seq<seq<Byte>>)
    ensures var r := Unframe(Frame(m) + Frames(more));
            r.Message? && r.buf == m <==> Survives(m, more == [])
    ensures Survives(m, more == []) ==> Unframe(Frame(m) + Frames(more)).rest == Frames(more)
  {
    hide Frame, Frames, Unframe;
    UnframeFrame(m, Frames(more));
    FramesNotEmpty(more);
    assert more == [] ==> m + Frames(more) == m;
    assert TWO32 <= |m| < TWO63 ==> |m| % TWO32 != |m|;
  }

  /** For every list of messages: writing them all and reading until there is none gives the same
      list, and reads the whole stream, exactly when each message survives. */
  lemma {:induction false} FramesRoundTripIff(ms: seq<seq<Byte>>)
    ensures Unframes(Frames(ms)) == ms <==>
              forall i :: 0 <= i < |ms| ==> Survives(ms[i], i == |ms| - 1)
    ensures Unframes(Frames(ms)) == ms ==> Remainder(Frames(ms)) == []
  {
    hide Frame, Unframe, Survives;
    if ms == [] {
      FramesNotEmpty(ms);
    } else {
      var m, more := ms[0], ms[1..];
      FramesRoundTripIff(more);
      FirstSurvivesIff(m, more);
      assert ms == [m] + more;
      assert forall i :: 0 <= i < |more| ==> more[i] == ms[i + 1];
      assert (forall i :: 0 <= i < |ms| ==> Survives(ms[i], i == |ms| - 1)) <==>
             && Survives(m, more == [])
             && forall i :: 0 <= i < |more| ==> Survives(more[i], i == |more| - 1);
      var r := Unframe(Frames(ms));
      if r.Message? {
        assert Unframes(Frames(ms)) == [r.buf] + Unframes(r.rest);
        assert Unframes(Frames(ms))[1..] == Unframes(r.rest);
        assert ms[1..] == more;
      }
    }
  }

  /** An empty message ends decoding at that point, whatever follows, and that is left. */
  lemma {:induction false} EmptyMessageStops(before: seq<seq<Byte>>, after: seq<seq<Byte>>)
    requires forall i :: 0 <= i < |before| ==> 0 < |before[i]| < TWO32
    ensures Unframes(Frames(before + [[]] + after)) == before
    ensures Remainder(Frames(before + [[]] + after)) == Frames(after)
  {
    hide Frame, Unframe;
    var all := before + [[]] + after;
    if before == [] {
      assert all[0] == [] && all[1..] == after;
      UnframeFrame([], Frames(after));
    } else {
      assert all[0] == before[0] && all[1..] == before[1..] + [[]] + after;
      UnframeFrame(before[0], Frames(all[1..]));
      EmptyMessageStops(before[1..], after);
    }
  }

  // ----- Files

  class OutFile {
    var data: seq<Byte>

    method Write(bytes: seq<Byte>)
      modifies this
      ensures data == old(data) + bytes
    {
      data := data + bytes;
    }
  }

  class InFile {
    var rest: seq<Byte>

    method Read(n: int) returns (bytes: seq<Byte>)
      modifies this
      ensures bytes == old(rest)[..ReadCount(old(rest), n)]
      ensures rest == old(rest)[ReadCount(old(rest), n)..]
    {
      var k := ReadCount(rest, n);
      bytes, rest := rest[..k], rest[k..];
    }
  }

  /** A varint is its low seven bits, and the varint of the rest if there is any. */
  lemma VarintStep(v: nat)
    ensures Varint(v) == if v / 128 == 0 then [v % 128] else [128 + v % 128] + Varint(v / 128)
  {
  }

  method EncodeVarint(out: OutFile, v: nat)
    modifies out
    ensures out.data == old(out.data) + Varint(v)
  {
    hide Varint;
    var bits, value := v % 128, v / 128;
    ghost var todo := Varint(v);
    VarintStep(v);
    while value != 0
      invariant 0 <= bits < 128 && value >= 0
      invariant old(out.data) + Varint(v) == out.data + todo
      invariant todo == if value == 0 then [bits] else [128 + bits] + Varint(value)
      decreases value
    {
      out.Write([128 + bits]);
      todo := Varint(value);
      VarintStep(value);
      bits := value % 128;
      value := value / 128;
    }
    out.Write([bits]);
  }

  lemma GroupSplit(seen: seq<Byte>, more: seq<Byte>, b: Byte)
    requires forall i :: 0 <= i < |seen| ==> seen[i] >= 128
    ensures b < 128 ==> GroupLength(seen + [b] + more) == |seen| + 1
  {
    if b < 128 {
      GroupLengthOf(seen + [b], more);
    }
  }

  lemma NoGroup(s: seq<Byte>, n: nat)
    requires n <= |s| && forall i :: 0 <= i < n ==> s[i] >= 128
    ensures GroupLength(s) == 0 || GroupLength(s) > n
  {
  }

  /** Read one varint: a pair of zeros at the end of the file, IOError after ten bytes without an
      end. Only the bytes of the varint are consumed. */
  method DecodeVarint(file: InFile) returns (d: Decoded)
    modifies file
    ensures d == Decode(old(file.rest))
    ensures file.rest == old(file.rest)[Consumed(old(file.rest))..]
  {
    hide Raw, Power, Cut32, GroupLength;
    ghost var s := file.rest;
    var result, pos := 0, 0;
    assert Raw(s[..0]) == 0 by { RawSnoc([], 0); }
    while true
      invariant pos < 10 && pos <= |s| && file.rest == s[pos..]
      invariant result == Raw(s[..pos]) && forall i :: 0 <= i < pos ==> s[i] >= 128
      decreases 10 - pos
    {
      var c := file.Read(1);
      if |c| == 0 {
        NoGroup(s, |s|);
        return Eof;
      }
      var b := c[0];
      assert s[..pos + 1] == s[..pos] + [b];
      RawSnoc(s[..pos], b);
      // result | ((b & 0x7f) << shift): the new bits are all above the old ones
      result := result + b % 128 * Power(pos);
      assert s == s[..pos] + [b] + s[pos + 1..];
      GroupSplit(s[..pos], s[pos + 1..], b);
      pos := pos + 1;
      if b < 128 {
        return Value(Cut32(result), pos);
      }
      if 7 * pos >= 64 {
        NoGroup(s, pos);
        return TooManyBytes;
      }
    }
  }

  method EncodeMessage(out: OutFile, message: seq<Byte>)
    modifies out
    ensures out.data == old(out.data) + Frame(message)
  {
    EncodeVarint(out, |message|);
    out.Write(message);
  }

  /** Attempt to read a message; false if there is none, or an empty one, or a malformed length. */
  method DecodeMessage(file: InFile) returns (ok: bool, buf: seq<Byte>)
    modifies file
    ensures Unframe(old(file.rest)) == if ok then Message(buf, file.rest) else NoMessage(file.rest)
  {
    hide Decode;
    var d := DecodeVarint(file);
    if !d.Value? || d.value == 0 {
      return false, [];
    }
    buf := file.Read(d.value);
    ok := true;
  }

  /** The loop of the decode scripts. */
  method DecodeAll(file: InFile) returns (ms: seq<seq<Byte>>)
    modifies file
    ensures ms == Unframes(old(file.rest)) && file.rest == Remainder(old(file.rest))
  {
    hide Unframe;
    ms := [];
    var ok, buf := true, [];
    while ok
      invariant ok ==> Unframes(old(file.rest)) == ms + Unframes(file.rest)
      invariant ok ==> Remainder(old(file.rest)) == Remainder(file.rest)
      invariant !ok ==> ms == Unframes(old(file.rest)) && file.rest == Remainder(old(file.rest))
      decreases ok, |file.rest|
    {
      ghost var before := file.rest;
      ok, buf := DecodeMessage(file);
      if ok {
        assert Unframes(before) == [buf] + Unframes(file.rest);
        ms := ms + [buf];
      }
    }
  }
}
