/**
 The loops of inet.c. Strings are byte sequences up to their NUL; the temporary
 buffers of the parsers are arrays that are filled, and shifted, in place.
 */
module InetCode {
  import opened Common
  import opened Inet4
  import opened Inet6
  import Inet6Grammar

  const INET6_ADDRSTRLEN: nat := 46

  // ----- IPv4

  /** inet_ntop4: the text, if it and its NUL fit. */
  method Ntop4(src: seq<Byte>, size: nat) returns (rc: int, text: seq<Byte>)
    requires |src| == 4
    ensures rc == 0 <==> |Text4(src)| < size
    ensures rc != 0 ==> rc == UV_ENOSPC
    ensures text == Text4(src) && 7 <= |text| <= 15
  {
    text := Dec(src[0]) + [DOT] + Dec(src[1]) + [DOT] + Dec(src[2]) + [DOT] + Dec(src[3]);
    rc := if |text| >= size then UV_ENOSPC else 0;
  }

  /** inet_pton4 */
  method Pton4(src: seq<Byte>) returns (ok: bool, dst: seq<Byte>)
    ensures Parse4(src) == if ok then Some(dst) else None
  {
    hide Parse4, Steps, Step;
    var tmp := new Byte[4];
    var saw, octets, tp, i := false, 0, 0, 0;
    tmp[0] := 0;
    ghost var st := START;
    StepsFrom(src, 0, START);
    dst := [];
    while i < |src|
      invariant 0 <= i <= |src| && 0 <= tp < 4 && ScanOk(st)
      invariant Steps(START, src) == Steps(st, src[i..])
      invariant st == Scan(tmp[..tp], tmp[tp], saw) && octets == Octets(st)
    {
      var ch := src[i];
      NextStep(src, i, st);
      StepCases(st, ch);
      if 48 <= ch <= 57 {
        var nw: int := tmp[tp];
        nw := nw * 10 + (ch - 48);
        if saw && tmp[tp] == 0 {
          return false, [];
        }
        if nw > 255 {
          return false, [];
        }
        tmp[tp] := nw;
        if !saw {
          octets := octets + 1;
          if octets > 4 {
            return false, [];
          }
          saw := true;
        }
        st := Scan(st.done, nw, true);
        assert tmp[..tp] == st.done;
      } else if ch == 46 && saw {
        if octets == 4 {
          return false, [];
        }
        st := Scan(st.done + [st.cur], 0, false);
        tp := tp + 1;
        tmp[tp] := 0;
        saw := false;
        assert tmp[..tp] == st.done;
      } else {
        return false, [];
      }
      i := i + 1;
    }
    Finished(src, st);
    if octets < 4 {
      return false, [];
    }
    assert tmp[..] == tmp[..tp] + [tmp[tp]];
    return true, tmp[..];
  }

  lemma StepsFrom(src: seq<Byte>, i: nat, st: Scan)
    requires i == 0
    ensures Steps(st, src) == Steps(st, src[i..])
  {
    assert src[0..] == src;
  }

  lemma NextStep(src: seq<Byte>, i: nat, st: Scan)
    requires i < |src|
    ensures Step(st, src[i]).None? ==> Steps(st, src[i..]).None?
    ensures Step(st, src[i]).Some? ==> Steps(st, src[i..]) == Steps(Step(st, src[i]).value, src[i + 1..])
    ensures Steps(START, src).None? ==> Parse4(src).None?
    ensures ScanOk(st) && Step(st, src[i]).Some? ==> ScanOk(Step(st, src[i]).value)
  {
    assert src[i..][1..] == src[i + 1..];
    if ScanOk(st) && Step(st, src[i]).Some? {
      StepReads(st, src[i]);
    }
  }

  lemma StepCases(st: Scan, c: Byte)
    requires ScanOk(st)
    ensures Step(st, c) ==
      if 48 <= c <= 57 then
        if (st.saw && st.cur == 0) || st.cur * 10 + (c - 48) > 255 || (!st.saw && Octets(st) + 1 > 4) then None
        else Some(Scan(st.done, st.cur * 10 + (c - 48), true))
      else if c == 46 && st.saw && Octets(st) != 4 then Some(Scan(st.done + [st.cur], 0, false))
      else None
  {
  }

  lemma Finished(src: seq<Byte>, st: Scan)
    requires Steps(START, src) == Steps(st, src[|src|..])
    ensures Parse4(src) == if Octets(st) < 4 then None else Some(st.done + [st.cur])
  {
    assert src[|src|..] == [];
  }

  // ----- IPv6: the run of zeros

  /** Among the runs that end by e, best is the first longest. */
  ghost predicate BestUpTo(ws: seq<Word>, e: nat, best: Run) {
    && (best.base == -1 ||
         (0 <= best.base && 1 <= best.len && best.base + best.len <= e && ZeroRun(ws, best.base, best.len)))
    && (forall b: nat, n: nat :: 1 <= n && b + n <= e && ZeroRun(ws, b, n) ==>
          best.base != -1 && n <= best.len && (b < best.base ==> n < best.len))
  }

  /** cur is the maximal run that ends at i. */
  ghost predicate Current(ws: seq<Word>, i: nat, cur: Run) {
    && i <= |ws|
    && (cur.base == -1 ==> i == 0 || ws[i - 1] != 0)
    && (cur.base != -1 ==>
          0 <= cur.base && 1 <= cur.len && cur.base + cur.len == i && ZeroRun(ws, cur.base, cur.len)
          && (cur.base == 0 || ws[cur.base - 1] != 0))
  }

  function EndOf(cur: Run, i: nat): int { if cur.base == -1 then i else cur.base }

  lemma NotInRun(ws: seq<Word>, b: nat, n: nat, k: nat)
    requires ZeroRun(ws, b, n) && k < |ws| && ws[k] != 0
    ensures !(b <= k < b + n)
  {
  }

  /** A run that ends at or before i lies before cur or inside it. */
  lemma NoStraddle(ws: seq<Word>, i: nat, cur: Run, b: nat, n: nat)
    requires Current(ws, i, cur) && cur.base != -1 && 1 <= n && b + n <= i && ZeroRun(ws, b, n)
    ensures b + n <= cur.base || (cur.base <= b && n <= cur.len)
  {
    if cur.base > 0 {
      NotInRun(ws, b, n, cur.base - 1);
    }
  }

  /** A run is over: it replaces the best one if it is longer. */
  method Settle(ws: seq<Word>, i: nat, best: Run, cur: Run) returns (r: Run)
    requires Current(ws, i, cur) && cur.base != -1 && BestUpTo(ws, cur.base, best)
    ensures BestUpTo(ws, i, r)
  {
    r := if best.base == -1 || cur.len > best.len then cur else best;
    forall b: nat, n: nat | 1 <= n && b + n <= i && ZeroRun(ws, b, n)
      ensures r.base != -1 && n <= r.len && (b < r.base ==> n < r.len)
    {
      NoStraddle(ws, i, cur, b, n);
    }
  }

  /** The preprocessing loop of inet_ntop6. */
  method FindRun(ws: seq<Word>) returns (best: Run)
    requires |ws| == 8
    ensures BestRun(ws, best) && RunOk(ws, best)
  {
    best := Run(-1, 0);
    var cur := Run(-1, 0);
    var i: nat := 0;
    while i < 8
      invariant i <= 8 && Current(ws, i, cur) && EndOf(cur, i) >= 0 && BestUpTo(ws, EndOf(cur, i), best)
    {
      if ws[i] == 0 {
        if cur.base == -1 {
          cur := Run(i, 1);
        } else {
          cur := Run(cur.base, cur.len + 1);
        }
      } else if cur.base != -1 {
        best := Settle(ws, i, best, cur);
        cur := Run(-1, cur.len);
        OneMore(ws, i, best);
      } else {
        OneMore(ws, i, best);
      }
      i := i + 1;
    }
    if cur.base != -1 {
      best := Settle(ws, 8, best, cur);
    }
    if best.base != -1 && best.len < 2 {
      best := Run(-1, best.len);
    }
    forall b: nat, n: nat | ZeroRun(ws, b, n) && best.base == -1 ensures n < 2 {
    }
  }

  /** A nonzero word ends no run. */
  lemma OneMore(ws: seq<Word>, i: nat, best: Run)
    requires i < |ws| && ws[i] != 0 && BestUpTo(ws, i, best)
    ensures BestUpTo(ws, i + 1, best)
  {
    forall b: nat, n: nat | 1 <= n && b + n <= i + 1 && ZeroRun(ws, b, n) ensures b + n <= i {
      NotInRun(ws, b, n, i);
    }
  }

  // ----- IPv6: printing

  /** How long the text can be when it reaches word i. */
  predicate Short(r: Run, i: nat, len: nat) {
    len <= 5 * i && (r.base == 0 ==> if i < r.len then len <= 1 else len <= 1 + 5 * (i - r.len))
  }

  method MakeWords(src: seq<Byte>) returns (ws: seq<Word>)
    requires |src| == 16
    ensures ws == WordsOf(src)
  {
    var i := 0;
    ws := [];
    assert src[0..] == src;
    while i < 16
      invariant 0 <= i <= 16 && i % 2 == 0
      invariant ws + WordsOf(src[i..]) == WordsOf(src)
    {
      assert src[i..][2..] == src[i + 2..];
      assert ws + WordsOf(src[i..]) == ws + [WordOf(src[i], src[i + 1])] + WordsOf(src[i + 2..]);
      ws := ws + [WordOf(src[i], src[i + 1])];
      i := i + 2;
    }
    assert WordsOf(src[16..]) == [];
  }

  /** inet_ntop6. The text compresses the first longest zero run of at least two words,
      never outgrows the local buffer, and is parsed back to the address. */
  method Ntop6(src: seq<Byte>, size: nat) returns (rc: int, text: seq<Byte>)
    requires |src| == 16
    ensures exists r ::
      && BestRun(WordsOf(src), r) && RunOk(WordsOf(src), r) && text == Format(WordsOf(src), r, 0)
      && (DOT in text <==> r.base == 0 && (r.len == 6 || (r.len == 5 && WordsOf(src)[5] == 0xffff)))
    ensures HasGap(text) <==> exists b: nat, n: nat :: 2 <= n && ZeroRun(WordsOf(src), b, n)
    ensures |text| < INET6_ADDRSTRLEN
    ensures rc == 0 <==> |text| + 1 <= size
    ensures rc != 0 ==> rc == UV_ENOSPC
    ensures Parse6(text) == Some(src)
  {
    var ws := MakeWords(src);
    var best := FindRun(ws);
    text := Print(ws, best);
    ParseFormat(ws, best);
    GapIffRun(ws, best);
    DotIffEmbedded(ws, best);
    BytesOfWords(src);
    rc := if |text| + 1 > size then UV_ENOSPC else 0;
  }

  /** What the loop prints for word i, when it is not an embedded IPv4 address. */
  function Piece(ws: seq<Word>, r: Run, i: nat): seq<Byte>
    requires i < |ws|
  {
    if InRun(r, i) then (if i == r.base then [COLON] else [])
    else (if i != 0 then [COLON] else []) + Hex(ws[i])
  }

  lemma FormatPiece(ws: seq<Word>, r: Run, i: nat, t: seq<Byte>)
    requires RunOk(ws, r) && i < 8 && (i != 6 || InRun(r, i) || !Embeds(ws, r))
    ensures t + Format(ws, r, i) == t + Piece(ws, r, i) + Format(ws, r, i + 1)
    ensures Short(r, i, |t|) ==> Short(r, i + 1, |t + Piece(ws, r, i)|)
  {
    hide Hex, ZeroRun, BytesOf, Text4, Short, Piece, Format, Embeds, InRun;
    PieceThenRest(ws, r, i);
    assert t + (Piece(ws, r, i) + Format(ws, r, i + 1)) == t + Piece(ws, r, i) + Format(ws, r, i + 1);
    if Short(r, i, |t|) {
      PieceIsShort(ws, r, i, |t|);
    }
  }

  lemma PieceThenRest(ws: seq<Word>, r: Run, i: nat)
    requires RunOk(ws, r) && i < 8 && (i != 6 || InRun(r, i) || !Embeds(ws, r))
    ensures Format(ws, r, i) == Piece(ws, r, i) + Format(ws, r, i + 1)
  {
    hide Hex, ZeroRun, BytesOf, Text4;
  }

  lemma PieceIsShort(ws: seq<Word>, r: Run, i: nat, len: nat)
    requires RunOk(ws, r) && i < 8 && Short(r, i, len)
    ensures Short(r, i + 1, len + |Piece(ws, r, i)|)
  {
    hide Hex, ZeroRun;
  }

  lemma FormatLast(ws: seq<Word>, r: Run, t: seq<Byte>)
    requires RunOk(ws, r)
    ensures !InRun(r, 6) && Embeds(ws, r) ==>
      t + Format(ws, r, 6) == t + [COLON] + Text4(BytesOf(ws[6..])) && (Short(r, 6, |t|) ==> |t| <= 6)
    ensures t + Format(ws, r, 8) == t + if r.base != -1 && r.base + r.len == 8 then [COLON] else []
  {
    hide Hex, ZeroRun, BytesOf, Text4;
    assert t + ([COLON] + Text4(BytesOf(ws[6..]))) == t + [COLON] + Text4(BytesOf(ws[6..]));
  }

  /** The format loop of inet_ntop6. */
  method Print(ws: seq<Word>, best: Run) returns (t: seq<Byte>)
    requires RunOk(ws, best)
    ensures t == Format(ws, best, 0) && |t| < INET6_ADDRSTRLEN
  {
    hide Text4, Hex, BytesOf, ZeroRun, Format;
    t := [];
    assert t + Format(ws, best, 0) == Format(ws, best, 0);
    var i: nat := 0;
    while i < 8
      invariant i <= 8 && t + Format(ws, best, i) == Format(ws, best, 0) && Short(best, i, |t|)
    {
      FormatLast(ws, best, t);
      if best.base != -1 && best.base <= i < best.base + best.len {
        FormatPiece(ws, best, i, t);
        if i == best.base {
          t := t + [COLON];
        }
        i := i + 1;
        continue;
      }
      ghost var t0 := t;
      if i != 0 {
        t := t + [COLON];
      }
      if i == 6 && Embeds(ws, best) {
        var rc, v4 := Ntop4(BytesOf(ws[6..]), INET6_ADDRSTRLEN - |t|);
        assert rc == 0;
        t := t + v4;
        return;
      }
      FormatPiece(ws, best, i, t0);
      assert t + Hex(ws[i]) == t0 + Piece(ws, best, i);
      t := t + Hex(ws[i]);
      i := i + 1;
    }
    FormatLast(ws, best, t);
    if best.base != -1 && best.base + best.len == 8 {
      t := t + [COLON];
    }
  }

  /** The source also means to embed when seven words are zero, but then word 6 is part
      of the run and the test is never reached: the last word is printed in hexadecimal. */
  lemma SevenZerosNeverEmbed(ws: seq<Word>)
    requires RunOk(ws, Run(0, 7))
    ensures Format(ws, Run(0, 7), 0) == [COLON, COLON] + Hex(ws[7])
  {
    hide Hex, ZeroRun, BytesOf, Text4, Embeds, Format, Piece;
    var r := Run(0, 7);
    FormatFirst(ws, r);
    SkipRun(ws, r, 1);
    LastPiece(ws);
    PieceThenRest(ws, r, 7);
    assert [COLON] + ([COLON] + Hex(ws[7]) + []) == [COLON, COLON] + Hex(ws[7]);
  }

  lemma LastPiece(ws: seq<Word>)
    requires RunOk(ws, Run(0, 7))
    ensures Piece(ws, Run(0, 7), 7) == [COLON] + Hex(ws[7]) && Format(ws, Run(0, 7), 8) == []
  {
    hide Hex, ZeroRun, BytesOf, Text4;
  }

  // ----- IPv6: parsing

  /** The last n of the first tp bytes move to the end, zeros take their place. */
  method ShiftRight(tmp: array<Byte>, colon: nat, tp: nat)
    requires tmp.Length == 16 && colon <= tp < 16 && forall k :: tp <= k < 16 ==> tmp[k] == 0
    modifies tmp
    ensures tmp[..] == old(tmp[..colon]) + seq(16 - tp, _ => 0) + old(tmp[colon..tp])
  {
    var n := tp - colon;
    var i := 1;
    while i <= n
      invariant 1 <= i <= n + 1
      invariant forall k :: 0 <= k < tp - i + 1 ==> tmp[k] == old(tmp[k])
      invariant forall k :: tp - i + 1 <= k < 16 - i + 1 ==> tmp[k] == 0
      invariant forall k :: 16 - i + 1 <= k < 16 ==> tmp[k] == old(tmp[k - (16 - tp)])
    {
      tmp[16 - i] := tmp[colon + n - i];
      tmp[colon + n - i] := 0;
      i := i + 1;
    }
    ghost var zeros: seq<Byte> := seq(16 - tp, _ => 0);
    ghost var want := old(tmp[..colon]) + zeros + old(tmp[colon..tp]);
    forall k | 0 <= k < 16 ensures tmp[k] == want[k] {
    }
  }

  /** The parser's variables as they stand in memory. */
  ghost function StateOf(tmp: array<Byte>, tp: nat, colon: int, seen: nat, val: nat, tok: seq<Byte>): Scan6
    requires tmp.Length == 16 && tp <= 16
    reads tmp
  {
    Scan6(tmp[..tp], if colon < 0 then None else Some(colon), seen, val, tok)
  }

  ghost predicate Sound(tmp: array<Byte>, tp: nat, colon: int)
    reads tmp
  {
    && tmp.Length == 16 && tp <= 16 && colon <= tp && (colon >= 0 || colon == -1)
    && forall k :: tp <= k < 16 ==> tmp[k] == 0
  }

  /** Writes bs at tp. */
  method Store(tmp: array<Byte>, tp: nat, bs: seq<Byte>) returns (next: nat)
    requires tmp.Length == 16 && tp + |bs| <= 16
    modifies tmp
    ensures next == tp + |bs| && tmp[..next] == old(tmp[..tp]) + bs
    ensures forall k :: next <= k < 16 ==> tmp[k] == old(tmp[k])
  {
    forall k | 0 <= k < |bs| {
      tmp[tp + k] := bs[k];
    }
    next := tp + |bs|;
  }

  /** Everything after the loop of inet_pton6. */
  method FinishParse(tmp: array<Byte>, tp0: nat, colon: int, seen: nat, val: nat, ghost tok: seq<Byte>)
    returns (ok: bool, dst: seq<Byte>)
    requires Sound(tmp, tp0, colon)
    modifies tmp
    ensures old(Finish(StateOf(tmp, tp0, colon, seen, val, tok))) == if ok then Some(dst) else None
  {
    var tp := tp0;
    if seen > 0 {
      if tp + 2 > 16 {
        return false, [];
      }
      tp := Store(tmp, tp, [val / 256 % 256, val % 256]);
    }
    ghost var out := tmp[..tp];
    assert out == old(tmp[..tp0]) + if seen > 0 then [val / 256 % 256, val % 256] else [];
    if colon >= 0 {
      if tp == 16 {
        return false, [];
      }
      assert out[..colon] == tmp[..colon] && out[colon..] == tmp[colon..tp];
      ShiftRight(tmp, colon, tp);
      return true, tmp[..];
    }
    if tp != 16 {
      return false, [];
    }
    assert tmp[..] == out;
    return true, tmp[..];
  }

  /** inet_pton6: accepts exactly the spellings of addresses. */
  method Pton6(src: seq<Byte>) returns (ok: bool, dst: seq<Byte>)
    ensures Parse6(src) == if ok then Some(dst) else None
    ensures ok ==> |dst| == 16 && exists sp ::
      Inet6Grammar.SpellingOk(sp) && Inet6Grammar.TextOf(sp) == src && Inet6Grammar.AddressOf(sp) == dst
    ensures !ok ==> forall sp :: Inet6Grammar.SpellingOk(sp) ==> Inet6Grammar.TextOf(sp) != src
  {
    hide Loop6, Finish, Inet6Grammar.SpellingOk, Inet6Grammar.TextOf, Inet6Grammar.AddressOf;
    Inet6Grammar.Exactly(src);
    var p: nat := 0;
    if |src| > 0 && src[0] == COLON {
      if |src| == 1 || src[1] != COLON {
        return false, [];
      }
      p := 1;
    }
    assert Parse6(src) == Loop6(src[p..], Scan6([], None, 0, 0, src[p..])) by {
      assert p == 0 ==> src[p..] == src;
    }
    LoopLength(src[p..], Scan6([], None, 0, 0, src[p..]));
    ok, dst := ParseLoop(src, p);
  }

  method ParseLoop(src: seq<Byte>, p: nat) returns (ok: bool, dst: seq<Byte>)
    requires p <= |src|
    ensures Loop6(src[p..], Scan6([], None, 0, 0, src[p..])) == if ok then Some(dst) else None
  {
    hide Loop6, Finish, Parse4;
    var tmp := new Byte[16](_ => 0);
    var tp: nat, colon: int, seen: nat, val: nat, i: nat, curtok: nat := 0, -1, 0, 0, p, p;
    ghost var goal := Loop6(src[p..], Scan6([], None, 0, 0, src[p..]));
    assert tmp[..0] == [];
    while i < |src|
      invariant p <= i <= |src| && curtok <= |src| && Sound(tmp, tp, colon)
      invariant goal == Loop6(src[i..], StateOf(tmp, tp, colon, seen, val, src[curtok..]))
    {
      var ch := src[i];
      ghost var st := StateOf(tmp, tp, colon, seen, val, src[curtok..]);
      OneTurn(src, i, st);
      i := i + 1;
      var h := HexValue(ch);
      if h.Some? {
        val := val * 16 + h.value;
        seen := seen + 1;
        if seen > 4 {
          return false, [];
        }
        continue;
      }
      if ch == COLON {
        curtok := i;
        if seen == 0 {
          if colon >= 0 {
            return false, [];
          }
          colon := tp;
          continue;
        } else if i == |src| {
          return false, [];
        }
        if tp + 2 > 16 {
          return false, [];
        }
        tp := Store(tmp, tp, [val / 256 % 256, val % 256]);
        seen, val := 0, 0;
        continue;
      }
      if ch == DOT && tp + 4 <= 16 {
        var good, v4 := Pton4(src[curtok..]);
        if good {
          ParseExactly(src[curtok..]);
          tp := Store(tmp, tp, v4);
          FinishZero(tmp[..tp], st, val);
          ok, dst := FinishParse(tmp, tp, colon, 0, 0, src[curtok..]);
          return;
        }
      }
      return false, [];
    }
    LoopDone(src, StateOf(tmp, tp, colon, seen, val, src[curtok..]));
    ok, dst := FinishParse(tmp, tp, colon, seen, val, src[curtok..]);
  }

  lemma OneTurn(src: seq<Byte>, i: nat, st: Scan6)
    requires i < |src|
    ensures Loop6(src[i..], st) ==
      match Turn(src[i..], st)
      case Go(st1) => Loop6(src[i + 1..], st1)
      case Halt(result) => result
    ensures src[i..][0] == src[i] && src[i..][1..] == src[i + 1..] && |src[i..]| == |src| - i
  {
    assert src[i..][1..] == src[i + 1..];
  }

  lemma LoopDone(src: seq<Byte>, st: Scan6)
    ensures Loop6(src[|src|..], st) == Finish(st)
  {
    assert src[|src|..] == [];
  }

  lemma FinishZero(out: seq<Byte>, st: Scan6, val: nat)
    ensures Finish(st.(out := out, seen := 0)) == Finish(Scan6(out, st.colon, 0, 0, st.tok))
  {
  }
}
