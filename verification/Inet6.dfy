/**
 IPv6 addresses as text: the format of inet_ntop6, the parser of inet_pton6, and
 the proof that the parser undoes the format on every address.
 */
module Inet6 {
  import opened Common
  import opened Inet4

  const COLON: Byte := 58

  type Word = w: int | 0 <= w < 0x10000

  // ----- hexadecimal words

  function HexByte(d: nat): Byte
    requires d < 16
  {
    if d < 10 then 48 + d else 87 + d
  }

  /** "%x": lower case, no leading zeros. */
  function Hex(w: Word): (r: seq<Byte>)
    ensures 1 <= |r| <= 4
  {
    if w < 0x10 then [HexByte(w)]
    else if w < 0x100 then [HexByte(w / 16), HexByte(w % 16)]
    else if w < 0x1000 then [HexByte(w / 256), HexByte(w / 16 % 16), HexByte(w % 16)]
    else [HexByte(w / 4096), HexByte(w / 256 % 16), HexByte(w / 16 % 16), HexByte(w % 16)]
  }

  /** xdigits_l, then xdigits_u. */
  function HexValue(c: Byte): (r: Option<nat>)
    ensures r.Some? ==> r.value < 16
  {
    if 48 <= c <= 57 then Some(c - 48)
    else if 97 <= c <= 102 then Some(c - 87)
    else if 65 <= c <= 70 then Some(c - 55)
    else None
  }

  // ----- the format

  function WordOf(hi: Byte, lo: Byte): Word {
    var h: int, l: int := hi, lo;
    h * 256 + l
  }

  function WordsOf(a: seq<Byte>): (ws: seq<Word>)
    requires |a| % 2 == 0
    ensures |ws| == |a| / 2
  {
    if a == [] then [] else [WordOf(a[0], a[1])] + WordsOf(a[2..])
  }

  function BytesOf(ws: seq<Word>): (a: seq<Byte>)
    ensures |a| == 2 * |ws|
  {
    if ws == [] then [] else [ws[0] / 256, ws[0] % 256] + BytesOf(ws[1..])
  }

  lemma {:induction false} BytesOfWords(a: seq<Byte>)
    requires |a| % 2 == 0
    ensures BytesOf(WordsOf(a)) == a
    decreases |a|
  {
    if a != [] {
      BytesOfWords(a[2..]);
      assert WordsOf(a)[1..] == WordsOf(a[2..]);
      assert a == [a[0], a[1]] + a[2..];
    }
  }

  lemma {:induction false} BytesConcat(a: seq<Word>, b: seq<Word>)
    ensures BytesOf(a + b) == BytesOf(a) + BytesOf(b)
  {
    if a == [] {
      assert a + b == b;
    } else {
      assert (a + b)[1..] == a[1..] + b;
      BytesConcat(a[1..], b);
    }
  }

  lemma {:induction false} ZeroBytes(ws: seq<Word>)
    requires forall i :: 0 <= i < |ws| ==> ws[i] == 0
    ensures BytesOf(ws) == seq(2 * |ws|, _ => 0)
  {
    if ws != [] {
      ZeroBytes(ws[1..]);
    }
  }

  /** The run of zero words that is written as "::"; base -1 for none. */
  datatype Run = Run(base: int, len: nat)

  predicate ZeroRun(ws: seq<Word>, base: nat, len: nat) {
    base + len <= |ws| && forall i :: base <= i < base + len ==> ws[i] == 0
  }

  /** Sections 4.2.2 and 4.2.3 of RFC 5952: the first longest run, if it has two words. */
  ghost predicate BestRun(ws: seq<Word>, r: Run) {
    if r.base == -1 then
      forall b: nat, n: nat :: ZeroRun(ws, b, n) ==> n < 2
    else
      && 0 <= r.base && 2 <= r.len && ZeroRun(ws, r.base, r.len)
      && (forall b: nat, n: nat :: ZeroRun(ws, b, n) ==> n <= r.len)
      && (forall b: nat, n: nat :: ZeroRun(ws, b, n) && b < r.base ==> n < r.len)
  }

  predicate InRun(r: Run, i: int) {
    r.base != -1 && r.base <= i < r.base + r.len
  }

  /** The test for an embedded IPv4 address at word 6. */
  predicate Embeds(ws: seq<Word>, r: Run)
    requires |ws| == 8
  {
    r.base == 0 && (r.len == 6 || (r.len == 7 && ws[7] != 1) || (r.len == 5 && ws[5] == 0xffff))
  }

  /** The format loop from word i on. */
  function Format(ws: seq<Word>, r: Run, i: nat): seq<Byte>
    requires |ws| == 8 && i <= 8
    decreases 8 - i
  {
    if i == 8 then
      if r.base != -1 && r.base + r.len == 8 then [COLON] else []
    else if InRun(r, i) then
      (if i == r.base then [COLON] else []) + Format(ws, r, i + 1)
    else
      var colon := if i != 0 then [COLON] else [];
      if i == 6 && Embeds(ws, r) then colon + Text4(BytesOf(ws[6..]))
      else colon + Hex(ws[i]) + Format(ws, r, i + 1)
  }

  // ----- the parser

  /** The variables of inet_pton6: the bytes written so far, colonp, seen_xdigits, val,
      and the input from curtok on. */
  datatype Scan6 = Scan6(out: seq<Byte>, colon: Option<nat>, seen: nat, val: nat, tok: seq<Byte>)

  /** tmp has room for one more word. */
  function PushWord(st: Scan6): Option<Scan6> {
    if |st.out| + 2 > 16 then None
    else Some(st.(out := st.out + [st.val / 256 % 256, st.val % 256], seen := 0, val := 0))
  }

  /** Everything after the loop. */
  function Finish(st: Scan6): Option<seq<Byte>> {
    var r := if st.seen > 0 then PushWord(st) else Some(st);
    if r.None? then None
    else
      var out := r.value.out;
      if st.colon.Some? && st.colon.value <= |out| then
        if |out| >= 16 then None
        else Some(out[..st.colon.value] + seq(16 - |out|, _ => 0) + out[st.colon.value..])
      else if |out| != 16 then None else Some(out)
  }

  /** One turn of the loop goes on with new variables or settles the result. */
  datatype Next = Go(st: Scan6) | Halt(result: Option<seq<Byte>>)

  /** One turn, at the first character of s. */
  function Turn(s: seq<Byte>, st: Scan6): Next
    requires s != []
  {
    var c := s[0];
    var h := HexValue(c);
    if h.Some? then
      if st.seen + 1 > 4 then Halt(None)
      else Go(st.(val := st.val * 16 + h.value, seen := st.seen + 1))
    else if c == COLON then
      if st.seen == 0 then
        if st.colon.Some? then Halt(None) else Go(st.(colon := Some(|st.out|), tok := s[1..]))
      else if |s| == 1 then Halt(None)
      else
        var r := PushWord(st);
        if r.None? then Halt(None) else Go(r.value.(tok := s[1..]))
    else if c == DOT && |st.out| + 4 <= 16 then
      var v := Parse4(st.tok);
      Halt(if v.None? then None else Finish(st.(out := st.out + v.value, seen := 0)))
    else Halt(None)
  }

  function Loop6(s: seq<Byte>, st: Scan6): Option<seq<Byte>>
    decreases |s|
  {
    if s == [] then Finish(st)
    else
      match Turn(s, st)
      case Go(st1) => Loop6(s[1..], st1)
      case Halt(result) => result
  }

  /** The whole of inet_pton6. */
  function Parse6(s: seq<Byte>): Option<seq<Byte>> {
    if |s| > 0 && s[0] == COLON then
      if |s| > 1 && s[1] == COLON then Loop6(s[1..], Scan6([], None, 0, 0, s[1..])) else None
    else Loop6(s, Scan6([], None, 0, 0, s))
  }

  // ----- the parser on single pieces of text

  lemma HexStep(d: nat, s: seq<Byte>, st: Scan6)
    requires d < 16 && st.seen < 4
    ensures Loop6([HexByte(d)] + s, st) == Loop6(s, st.(val := st.val * 16 + d, seen := st.seen + 1))
  {
    hide Turn;
    var t := [HexByte(d)] + s;
    assert t[1..] == s;
    HexTurn(d, t, st);
  }

  lemma HexTurn(d: nat, t: seq<Byte>, st: Scan6)
    requires d < 16 && st.seen < 4 && t != [] && t[0] == HexByte(d)
    ensures Turn(t, st) == Go(st.(val := st.val * 16 + d, seen := st.seen + 1))
  {
    assert HexValue(t[0]) == Some(d);
  }

  lemma WordDigits(w: Word)
    ensures w == w / 16 * 16 + w % 16 && w / 16 == w / 256 * 16 + w / 16 % 16
    ensures w / 256 == w / 4096 * 16 + w / 256 % 16 && w / 4096 < 16
    ensures (w < 0x1000 ==> w / 256 < 16) && (w < 0x100 ==> w / 16 < 16)
  {
  }

  /** A word's hexadecimal text is read back as the word. */
  lemma ScanHex(w: Word, rest: seq<Byte>, st: Scan6)
    requires st.seen == 0 && st.val == 0
    ensures Loop6(Hex(w) + rest, st) == Loop6(rest, st.(val := w, seen := |Hex(w)|))
  {
    hide Loop6, HexByte;
    WordDigits(w);
    var d3, d2, d1, d0 := w / 4096, w / 256 % 16, w / 16 % 16, w % 16;
    if w < 0x10 {
      HexStep(w, rest, st);
    } else if w < 0x100 {
      assert Hex(w) + rest == [HexByte(w / 16)] + ([HexByte(d0)] + rest);
      HexStep(w / 16, [HexByte(d0)] + rest, st);
      HexStep(d0, rest, st.(val := w / 16, seen := 1));
    } else if w < 0x1000 {
      assert Hex(w) + rest == [HexByte(w / 256)] + ([HexByte(d1)] + ([HexByte(d0)] + rest));
      HexStep(w / 256, [HexByte(d1)] + ([HexByte(d0)] + rest), st);
      HexStep(d1, [HexByte(d0)] + rest, st.(val := w / 256, seen := 1));
      HexStep(d0, rest, st.(val := w / 16, seen := 2));
    } else {
      assert Hex(w) + rest == [HexByte(d3)] + ([HexByte(d2)] + ([HexByte(d1)] + ([HexByte(d0)] + rest)));
      HexStep(d3, [HexByte(d2)] + ([HexByte(d1)] + ([HexByte(d0)] + rest)), st);
      HexStep(d2, [HexByte(d1)] + ([HexByte(d0)] + rest), st.(val := d3, seen := 1));
      HexStep(d1, [HexByte(d0)] + rest, st.(val := w / 256, seen := 2));
      HexStep(d0, rest, st.(val := w / 16, seen := 3));
    }
  }

  /** A word waiting to be written, as it is after its digits. */
  function Pending(out: seq<Byte>, colon: Option<nat>, w: Word, tok: seq<Byte>): Scan6 {
    Scan6(out, colon, |Hex(w)|, w, tok)
  }

  function Ready(out: seq<Byte>, colon: Option<nat>, tok: seq<Byte>): Scan6 {
    Scan6(out, colon, 0, 0, tok)
  }

  lemma ColonPushes(out: seq<Byte>, colon: Option<nat>, w: Word, tok: seq<Byte>, rest: seq<Byte>)
    requires rest != [] && |out| + 2 <= 16
    ensures Loop6([COLON] + rest, Pending(out, colon, w, tok))
         == Loop6(rest, Ready(out + [w / 256, w % 256], colon, rest))
  {
    assert ([COLON] + rest)[1..] == rest;
  }

  lemma ColonMarks(out: seq<Byte>, tok: seq<Byte>, rest: seq<Byte>)
    ensures Loop6([COLON] + rest, Ready(out, None, tok)) == Loop6(rest, Ready(out, Some(|out|), rest))
  {
    assert ([COLON] + rest)[1..] == rest;
  }

  lemma EndPushes(out: seq<Byte>, colon: Option<nat>, w: Word, tok: seq<Byte>)
    requires |out| + 2 <= 16
    ensures Loop6([], Pending(out, colon, w, tok)) == Finish(Ready(out + [w / 256, w % 256], colon, tok))
  {
  }

  /** Decimal digits are hexadecimal digits, so the first octet is taken for a word
      until the dot shows that it is not. */
  lemma ScanText4(a: seq<Byte>, out: seq<Byte>, colon: Option<nat>)
    requires |a| == 4 && |out| + 4 <= 16
    ensures Loop6(Text4(a), Ready(out, colon, Text4(a))) == Finish(Ready(out + a, colon, []))
  {
    hide Loop6, Finish, Dec, Parse4;
    var tok := Text4(a);
    var rest := Dec(a[1]) + [DOT] + Dec(a[2]) + [DOT] + Dec(a[3]);
    assert tok == Dec(a[0]) + ([DOT] + rest);
    ParseText(a);
    ScanDec(a[0], [DOT] + rest, Ready(out, colon, tok));
    FinishTok(out + a, colon, tok);
  }

  lemma DotStep(rest: seq<Byte>, st: Scan6)
    requires rest != [] && rest[0] == DOT && |st.out| + 4 <= 16
    ensures Loop6(rest, st) == var a := Parse4(st.tok);
      if a.None? then None else Finish(st.(out := st.out + a.value, seen := 0))
  {
    hide Parse4, Finish;
  }

  /** The digits of the first octet are forgotten. */
  lemma FinishUnseen(st: Scan6, w: nat)
    ensures forall out: seq<Byte> :: Finish(st.(out := out, seen := 0, val := w)) == Finish(st.(out := out, seen := 0))
  {
  }

  lemma ScanDec(v: Byte, rest: seq<Byte>, st: Scan6)
    requires st.seen == 0 && rest != [] && rest[0] == DOT && |st.out| + 4 <= 16
    ensures Loop6(Dec(v) + rest, st) == var a := Parse4(st.tok);
      if a.None? then None else Finish(st.(out := st.out + a.value, seen := 0))
  {
    hide Parse4, Loop6, Finish;
    var w := if v < 10 then st.val * 16 + v
      else if v < 100 then (st.val * 16 + v / 10) * 16 + v % 10
      else ((st.val * 16 + v / 100) * 16 + v / 10 % 10) * 16 + v % 10;
    DotStep(rest, st.(val := w, seen := |Dec(v)|));
    FinishUnseen(st, w);
    if v < 10 {
      HexStep(v, rest, st);
    } else if v < 100 {
      assert Dec(v) + rest == [HexByte(v / 10)] + ([HexByte(v % 10)] + rest);
      HexStep(v / 10, [HexByte(v % 10)] + rest, st);
      HexStep(v % 10, rest, st.(val := st.val * 16 + v / 10, seen := 1));
    } else {
      var x, y, z := v / 100, v / 10 % 10, v % 10;
      assert Dec(v) + rest == [HexByte(x)] + ([HexByte(y)] + ([HexByte(z)] + rest));
      HexStep(x, [HexByte(y)] + ([HexByte(z)] + rest), st);
      HexStep(y, [HexByte(z)] + rest, st.(val := st.val * 16 + x, seen := 1));
      HexStep(z, rest, st.(val := (st.val * 16 + x) * 16 + y, seen := 2));
    }
  }

  // ----- the parser on the formatted text

  ghost predicate RunOk(ws: seq<Word>, r: Run) {
    |ws| == 8 && (r.base == -1 || (0 <= r.base && 2 <= r.len && r.base + r.len <= 8 && ZeroRun(ws, r.base, r.len)))
  }

  /** Word i - 1 waits, and no compressed run is ahead. */
  predicate Ahead(r: Run, i: nat) {
    1 <= i <= 8 && (r.base == -1 || (r.base + r.len <= i && r.base + r.len < 8))
  }

  lemma BytesAfter(ws: seq<Word>, i: nat)
    requires 1 <= i <= |ws|
    ensures BytesOf(ws[i - 1..]) == [ws[i - 1] / 256, ws[i - 1] % 256] + BytesOf(ws[i..])
  {
    assert ws[i - 1..][1..] == ws[i..];
  }

  /** Without a run ahead, the rest of the words is read to the end. */
  lemma {:induction false} AfterRun(ws: seq<Word>, r: Run, i: nat, out: seq<Byte>, colon: Option<nat>, tok: seq<Byte>)
    requires RunOk(ws, r) && Ahead(r, i) && |out| + 2 * (9 - i) <= 16
    ensures Loop6(Format(ws, r, i), Pending(out, colon, ws[i - 1], tok))
         == Finish(Ready(out + BytesOf(ws[i - 1..]), colon, []))
    decreases 8 - i
  {
    hide Loop6, Finish, Hex, Embeds, ZeroRun, BytesOf, Text4;
    var w := ws[i - 1];
    var out1 := out + [w / 256, w % 256];
    BytesAfter(ws, i);
    FinishTok(out1, colon, tok);
    if i == 8 {
      EndPushes(out, colon, w, tok);
      NoBytes();
      assert out + BytesOf(ws[7..]) == out1;
    } else if i == 6 && Embeds(ws, r) {
      var a := BytesOf(ws[6..]);
      Text4Nonempty(a);
      ColonPushes(out, colon, w, tok, Text4(a));
      ScanText4(a, out1, colon);
      assert out + BytesOf(ws[5..]) == out1 + a;
    } else {
      var rest := Hex(ws[i]) + Format(ws, r, i + 1);
      assert Format(ws, r, i) == [COLON] + rest;
      ColonPushes(out, colon, w, tok, rest);
      ScanHex(ws[i], Format(ws, r, i + 1), Ready(out1, colon, rest));
      AfterRun(ws, r, i + 1, out1, colon, rest);
      assert out + BytesOf(ws[i - 1..]) == out1 + BytesOf(ws[i..]);
    }
  }

  lemma Text4Nonempty(a: seq<Byte>)
    requires |a| == 4
    ensures Text4(a) != []
  {
  }

  lemma NoBytes()
    ensures BytesOf([]) == []
  {
  }

  lemma FinishTok(out: seq<Byte>, colon: Option<nat>, tok: seq<Byte>)
    ensures Finish(Ready(out, colon, tok)) == Finish(Ready(out, colon, []))
  {
  }

  /** Words in the run print nothing but the first one's colon. */
  lemma {:induction false} SkipRun(ws: seq<Word>, r: Run, i: nat)
    requires RunOk(ws, r) && r.base >= 0 && r.base < i <= r.base + r.len
    ensures Format(ws, r, i) == Format(ws, r, r.base + r.len)
    decreases r.base + r.len - i
  {
    if i < r.base + r.len {
      SkipRun(ws, r, i + 1);
    }
  }

  /** What follows the run: the second colon, which marks the gap, and the words after it. */
  lemma GapThenRest(ws: seq<Word>, r: Run, out: seq<Byte>, tok: seq<Byte>)
    requires RunOk(ws, r) && r.base >= 0 && |out| == 2 * r.base
    ensures var j := r.base + r.len;
      Loop6(Format(ws, r, j), Ready(out, None, tok)) == Finish(Ready(out + BytesOf(ws[j..]), Some(|out|), []))
  {
    hide Loop6, Finish, Hex;
    var j := r.base + r.len;
    if j == 8 {
      assert Format(ws, r, 8) == [COLON] + [];
      ColonMarks(out, tok, []);
      LoopEnd(Ready(out, Some(|out|), []));
      assert out + BytesOf(ws[8..]) == out;
    } else if j == 6 && Embeds(ws, r) {
      var a := BytesOf(ws[6..]);
      ColonMarks(out, tok, Text4(a));
      ScanText4(a, out, Some(|out|));
    } else {
      var rest := Hex(ws[j]) + Format(ws, r, j + 1);
      assert Format(ws, r, j) == [COLON] + rest;
      ColonMarks(out, tok, rest);
      ScanHex(ws[j], Format(ws, r, j + 1), Ready(out, Some(|out|), rest));
      AfterRun(ws, r, j + 1, out, Some(|out|), rest);
    }
  }

  lemma LoopEnd(st: Scan6)
    ensures Loop6([], st) == Finish(st)
  {
  }

  lemma FormatNonempty(ws: seq<Word>, r: Run)
    requires RunOk(ws, r) && r.base >= 0
    ensures Format(ws, r, r.base + r.len) != [] && Format(ws, r, r.base + r.len)[0] == COLON
  {
  }

  lemma BytesUpTo(ws: seq<Word>, i: nat)
    requires 1 <= i <= |ws|
    ensures BytesOf(ws[..i]) == BytesOf(ws[..i - 1]) + [ws[i - 1] / 256, ws[i - 1] % 256]
  {
    assert ws[..i] == ws[..i - 1] + [ws[i - 1]];
    BytesConcat(ws[..i - 1], [ws[i - 1]]);
    assert BytesOf([ws[i - 1]]) == [ws[i - 1] / 256, ws[i - 1] % 256];
  }

  /** Before the run: words one by one, then the gap. */
  lemma {:induction false} BeforeRun(ws: seq<Word>, r: Run, i: nat, tok: seq<Byte>)
    requires RunOk(ws, r) && 1 <= i <= r.base
    ensures Loop6(Format(ws, r, i), Pending(BytesOf(ws[..i - 1]), None, ws[i - 1], tok))
         == Finish(Ready(BytesOf(ws[..r.base]) + BytesOf(ws[r.base + r.len..]), Some(2 * r.base), []))
    decreases r.base - i
  {
    hide Loop6, Finish, Hex, ZeroRun;
    var w := ws[i - 1];
    BytesUpTo(ws, i);
    if i < r.base {
      var rest := Hex(ws[i]) + Format(ws, r, i + 1);
      assert Format(ws, r, i) == [COLON] + rest;
      ColonPushes(BytesOf(ws[..i - 1]), None, w, tok, rest);
      ScanHex(ws[i], Format(ws, r, i + 1), Ready(BytesOf(ws[..i]), None, rest));
      BeforeRun(ws, r, i + 1, rest);
    } else {
      var rest := Format(ws, r, r.base + r.len);
      SkipRun(ws, r, i + 1);
      assert Format(ws, r, i) == [COLON] + rest;
      FormatNonempty(ws, r);
      ColonPushes(BytesOf(ws[..i - 1]), None, w, tok, rest);
      GapThenRest(ws, r, BytesOf(ws[..i]), rest);
    }
  }

  /** Closing the gap gives back all words. */
  lemma FillGap(ws: seq<Word>, r: Run)
    requires RunOk(ws, r) && r.base >= 0
    ensures Finish(Ready(BytesOf(ws[..r.base]) + BytesOf(ws[r.base + r.len..]), Some(2 * r.base), [])) == Some(BytesOf(ws))
  {
    hide Finish, BytesOf;
    var b, j := r.base, r.base + r.len;
    var x, z, y := BytesOf(ws[..b]), BytesOf(ws[b..j]), BytesOf(ws[j..]);
    ZeroBytes(ws[b..j]);
    assert ws == ws[..b] + (ws[b..j] + ws[j..]);
    BytesConcat(ws[..b], ws[b..j] + ws[j..]);
    BytesConcat(ws[b..j], ws[j..]);
    FinishGap(x, y);
    assert x + z + y == x + (z + y);
  }

  lemma FinishGap(x: seq<Byte>, y: seq<Byte>)
    requires |x| + |y| < 16
    ensures Finish(Ready(x + y, Some(|x|), [])) == Some(x + seq(16 - |x| - |y|, _ => 0) + y)
  {
    assert (x + y)[..|x|] == x && (x + y)[|x|..] == y;
  }

  lemma FinishWhole(ws: seq<Word>)
    requires |ws| == 8
    ensures Finish(Ready(BytesOf(ws), None, [])) == Some(BytesOf(ws))
  {
  }

  lemma HexNotColon(w: Word)
    ensures Hex(w)[0] != COLON
  {
  }

  /** The format at the first word, and at the end. */
  lemma FormatFirst(ws: seq<Word>, r: Run)
    requires RunOk(ws, r)
    ensures r.base == 0 ==> Format(ws, r, 0) == [COLON] + Format(ws, r, 1)
    ensures r.base != 0 ==> Format(ws, r, 0) == Hex(ws[0]) + Format(ws, r, 1)
  {
    hide Hex, ZeroRun, BytesOf, Embeds;
    assert [] + Hex(ws[0]) == Hex(ws[0]);
  }

  /** The parser undoes the format, whichever zero run is compressed. */
  lemma ParseFormat(ws: seq<Word>, r: Run)
    requires RunOk(ws, r)
    ensures Parse6(Format(ws, r, 0)) == Some(BytesOf(ws))
  {
    hide Loop6, Finish, Hex, ZeroRun, BytesOf, Embeds, Format;
    NoBytes();
    FormatFirst(ws, r);
    var text := Format(ws, r, 0);
    if r.base == 0 {
      var rest := Format(ws, r, r.len);
      SkipRun(ws, r, 1);
      assert text == [COLON] + rest;
      FormatNonempty(ws, r);
      assert text[1..] == rest;
      GapThenRest(ws, r, [], rest);
      assert ws[..0] == [] && [] + BytesOf(ws[r.len..]) == BytesOf(ws[..0]) + BytesOf(ws[r.len..]);
      FillGap(ws, r);
    } else {
      assert text == Hex(ws[0]) + Format(ws, r, 1);
      HexNotColon(ws[0]);
      ScanHex(ws[0], Format(ws, r, 1), Ready([], None, text));
      assert ws[..0] == [] && ws[0..] == ws;
      if r.base == -1 {
        AfterRun(ws, r, 1, [], None, text);
        assert [] + BytesOf(ws) == BytesOf(ws);
        FinishWhole(ws);
      } else {
        BeforeRun(ws, r, 1, text);
        FillGap(ws, r);
      }
    }
  }

  // ----- the printed form

  /** Sections 4.1 and 4.3 of RFC 5952: no leading zeros, lower case only. */
  lemma HexCanonical(w: Word)
    ensures |Hex(w)| > 1 ==> Hex(w)[0] != 48
    ensures forall j :: 0 <= j < |Hex(w)| ==> 48 <= Hex(w)[j] <= 57 || 97 <= Hex(w)[j] <= 102
  {
  }

  /** Two colons in a row. */
  ghost predicate HasGap(t: seq<Byte>) {
    exists k :: 0 <= k < |t| - 1 && t[k] == COLON && t[k + 1] == COLON
  }

  lemma GapLater(a: seq<Byte>, b: seq<Byte>)
    requires HasGap(b)
    ensures HasGap(a + b)
  {
    var k :| 0 <= k < |b| - 1 && b[k] == COLON && b[k + 1] == COLON;
    assert (a + b)[|a| + k] == COLON && (a + b)[|a| + k + 1] == COLON;
  }

  lemma NoGapJoin(h: seq<Byte>, f: seq<Byte>)
    requires h != [] && COLON !in h && !HasGap(f)
    ensures !HasGap(h + f) && !HasGap([COLON] + h + f)
  {
    forall k | 0 <= k < |h + f| - 1 ensures (h + f)[k] != COLON || (h + f)[k + 1] != COLON {
      if k >= |h| {
        assert (h + f)[k] == f[k - |h|] && (h + f)[k + 1] == f[k - |h| + 1];
      } else {
        assert (h + f)[k] in h;
      }
    }
    var t := [COLON] + h + f;
    forall k | 0 <= k < |t| - 1 ensures t[k] != COLON || t[k + 1] != COLON {
      if k == 0 {
        assert t[1] == h[0] && h[0] in h;
      } else {
        assert t[k] == (h + f)[k - 1] && t[k + 1] == (h + f)[k];
      }
    }
  }

  lemma NoColon(w: Word, a: seq<Byte>)
    requires |a| == 4
    ensures COLON !in Hex(w) && COLON !in Text4(a) && Text4(a) != []
  {
    Text4Nonempty(a);
  }

  lemma {:induction false} NoGapAhead(ws: seq<Word>, r: Run, i: nat)
    requires RunOk(ws, r) && Ahead(r, i)
    ensures !HasGap(Format(ws, r, i))
    decreases 8 - i
  {
    hide Hex, Text4, BytesOf, HasGap, ZeroRun;
    NoGapInNothing();
    if i < 8 {
      NoColon(ws[i], BytesOf(ws[6..]));
      if i == 6 && Embeds(ws, r) {
        NoGapJoin(Text4(BytesOf(ws[6..])), []);
        assert [COLON] + Text4(BytesOf(ws[6..])) + [] == Format(ws, r, i);
      } else {
        NoGapAhead(ws, r, i + 1);
        NoGapJoin(Hex(ws[i]), Format(ws, r, i + 1));
        assert [COLON] + Hex(ws[i]) + Format(ws, r, i + 1) == Format(ws, r, i);
      }
    }
  }

  lemma NoGapInNothing()
    ensures !HasGap([])
  {
  }

  lemma {:induction false} GapAhead(ws: seq<Word>, r: Run, i: nat)
    requires RunOk(ws, r) && 0 <= i <= r.base
    ensures HasGap(Format(ws, r, i))
    decreases r.base - i
  {
    hide Hex, Text4, BytesOf, HasGap, ZeroRun;
    if i == r.base {
      SkipRun(ws, r, i + 1);
      FormatNonempty(ws, r);
      TwoColons(Format(ws, r, r.base + r.len));
    } else {
      GapAhead(ws, r, i + 1);
      var colon := if i != 0 then [COLON] else [];
      GapLater(colon + Hex(ws[i]), Format(ws, r, i + 1));
    }
  }

  lemma TwoColons(t: seq<Byte>)
    requires t != [] && t[0] == COLON
    ensures HasGap([COLON] + t)
  {
    assert ([COLON] + t)[0] == COLON && ([COLON] + t)[0 + 1] == COLON;
  }

  /** "::" is printed exactly when there is a run to compress. */
  lemma GapIffRun(ws: seq<Word>, r: Run)
    requires RunOk(ws, r)
    ensures HasGap(Format(ws, r, 0)) <==> r.base != -1
  {
    hide Hex, Text4, BytesOf, HasGap, ZeroRun;
    if r.base == -1 {
      NoGapAhead(ws, r, 1);
      NoColon(ws[0], BytesOf(ws[6..]));
      NoGapJoin(Hex(ws[0]), Format(ws, r, 1));
      assert [] + Hex(ws[0]) == Hex(ws[0]);
    } else {
      GapAhead(ws, r, 0);
    }
  }

  lemma OnlyText4HasDots(w: Word, a: seq<Byte>)
    requires |a| == 4
    ensures DOT !in Hex(w) && DOT in Text4(a)
  {
    var t, k := Text4(a), |Dec(a[0])|;
    assert t[k] == DOT;
  }

  lemma {:induction false} DotsAhead(ws: seq<Word>, r: Run, i: nat)
    requires RunOk(ws, r) && i <= 8
    ensures DOT in Format(ws, r, i) <==> i <= 6 && Embeds(ws, r) && !InRun(r, 6)
    decreases 8 - i
  {
    hide Hex, Text4, BytesOf, ZeroRun, Embeds;
    if i < 8 {
      OnlyText4HasDots(ws[i], BytesOf(ws[6..]));
      DotsAhead(ws, r, i + 1);
    }
  }

  /** An IPv4 address is embedded exactly after six zero words, or after five and 0xffff,
      whatever the source's third test means to add. */
  lemma DotIffEmbedded(ws: seq<Word>, r: Run)
    requires RunOk(ws, r)
    ensures DOT in Format(ws, r, 0) <==> r.base == 0 && (r.len == 6 || (r.len == 5 && ws[5] == 0xffff))
  {
    hide Format, ZeroRun;
    DotsAhead(ws, r, 0);
  }

  /** Whatever the parser accepts is a whole address. */
  lemma {:induction false} LoopLength(s: seq<Byte>, st: Scan6)
    ensures Loop6(s, st).Some? ==> |Loop6(s, st).value| == 16
    decreases |s|
  {
    hide HexValue, Parse4;
    if s != [] {
      match Turn(s, st)
      case Go(st1) => LoopLength(s[1..], st1);
      case Halt(result) =>
    }
  }
}
