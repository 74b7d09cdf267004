/**
 Exactly which texts inet_pton6 accepts, and as which address: groups of one to four
 hexadecimal digits of either case, at most one "::", and possibly a dotted IPv4 address
 at the end (section 2.2 of RFC 4291).
 */
module Inet6Grammar {
  import opened Common
  import opened Inet4
  import opened Inet6

  // ----- texts and their addresses

  predicate IsHexDigit(c: Byte) {
    48 <= c <= 57 || 97 <= c <= 102 || 65 <= c <= 70
  }

  /** 0 to 9, then a to f and A to F alike. */
  function DigitOf(c: Byte): (d: nat)
    requires IsHexDigit(c)
    ensures d < 16
  {
    if c <= 57 then c - 48 else if c <= 70 then 10 + (c - 65) else 10 + (c - 97)
  }

  predicate AllHex(g: seq<Byte>) {
    forall i :: 0 <= i < |g| ==> IsHexDigit(g[i])
  }

  predicate IsGroup(g: seq<Byte>) {
    1 <= |g| <= 4 && AllHex(g)
  }

  predicate AreGroups(gs: seq<seq<Byte>>) {
    forall i :: 0 <= i < |gs| ==> IsGroup(gs[i])
  }

  /** The number that the digits stand for. */
  function Number(g: seq<Byte>): nat
    requires AllHex(g)
  {
    if g == [] then 0 else Number(g[..|g| - 1]) * 16 + DigitOf(g[|g| - 1])
  }

  lemma {:induction false} NumberBound(g: seq<Byte>)
    requires |g| <= 4 && AllHex(g)
    ensures Number(g) < 0x10000
    ensures (|g| <= 3 ==> Number(g) < 0x1000) && (|g| <= 2 ==> Number(g) < 0x100) && (|g| <= 1 ==> Number(g) < 16)
    ensures |g| == 0 ==> Number(g) == 0
  {
    if g != [] {
      NumberBound(g[..|g| - 1]);
    }
  }

  /** Two bytes for each group. */
  function Values(gs: seq<seq<Byte>>): (r: seq<Byte>)
    requires AreGroups(gs)
    ensures |r| == 2 * |gs|
  {
    if gs == [] then []
    else
      var g := gs[|gs| - 1];
      NumberBound(g);
      Values(gs[..|gs| - 1]) + [Number(g) / 256, Number(g) % 256]
  }

  function Join(ps: seq<seq<Byte>>): seq<Byte> {
    if ps == [] then [] else if |ps| == 1 then ps[0] else ps[0] + [COLON] + Join(ps[1..])
  }

  /** The pieces of an address: groups, "::" and more groups if there is a gap, and an IPv4
      address at the end. */
  datatype Spelling = Spelling(front: seq<seq<Byte>>, gap: bool, back: seq<seq<Byte>>, tail: Option<seq<Byte>>)

  function Size(sp: Spelling): nat {
    2 * |sp.front| + 2 * |sp.back| + if sp.tail.Some? then 4 else 0
  }

  /** Without a gap all sixteen bytes are there, with one at least one group is missing. */
  predicate SpellingOk(sp: Spelling) {
    && AreGroups(sp.front) && AreGroups(sp.back) && (sp.tail.Some? ==> |sp.tail.value| == 4)
    && if sp.gap then Size(sp) <= 14 else sp.back == [] && Size(sp) == 16
  }

  function TailText(sp: Spelling): seq<seq<Byte>>
    requires SpellingOk(sp)
  {
    if sp.tail.Some? then [Text4(sp.tail.value)] else []
  }

  function TextOf(sp: Spelling): seq<Byte>
    requires SpellingOk(sp)
  {
    if sp.gap then Join(sp.front) + [COLON, COLON] + Join(sp.back + TailText(sp))
    else Join(sp.front + TailText(sp))
  }

  function AddressOf(sp: Spelling): seq<Byte>
    requires SpellingOk(sp)
  {
    Values(sp.front) + seq(16 - Size(sp), _ => 0) + Values(sp.back) + if sp.tail.Some? then sp.tail.value else []
  }

  // ----- groups, each ended by a colon

  function Colons(gs: seq<seq<Byte>>): seq<Byte> {
    if gs == [] then [] else gs[0] + [COLON] + Colons(gs[1..])
  }

  lemma {:induction false} JoinLast(gs: seq<seq<Byte>>, x: seq<Byte>)
    ensures Join(gs + [x]) == Colons(gs) + x
  {
    if gs == [] {
      assert gs + [x] == [x];
    } else {
      assert (gs + [x])[1..] == gs[1..] + [x];
      JoinLast(gs[1..], x);
      assert gs[0] + [COLON] + (Colons(gs[1..]) + x) == gs[0] + [COLON] + Colons(gs[1..]) + x;
    }
  }

  lemma JoinColon(gs: seq<seq<Byte>>)
    requires gs != []
    ensures Colons(gs) == Join(gs) + [COLON]
  {
    var n := |gs| - 1;
    assert gs == gs[..n] + [gs[n]];
    JoinLast(gs[..n], gs[n]);
    ColonsLast(gs[..n], gs[n]);
  }

  lemma {:induction false} ColonsLast(gs: seq<seq<Byte>>, x: seq<Byte>)
    ensures Colons(gs + [x]) == Colons(gs) + x + [COLON]
  {
    if gs == [] {
      assert gs + [x] == [x] && [x][1..] == [];
    } else {
      assert (gs + [x])[1..] == gs[1..] + [x];
      ColonsLast(gs[1..], x);
      assert gs[0] + [COLON] + (Colons(gs[1..]) + x + [COLON]) == gs[0] + [COLON] + Colons(gs[1..]) + x + [COLON];
    }
  }

  lemma ValuesLast(gs: seq<seq<Byte>>, g: seq<Byte>)
    requires AreGroups(gs) && IsGroup(g)
    ensures Number(g) < 0x10000 && AreGroups(gs + [g])
    ensures Values(gs + [g]) == Values(gs) + [Number(g) / 256, Number(g) % 256]
  {
    NumberBound(g);
    assert (gs + [g])[..|gs|] == gs;
  }

  // ----- the parser's state, read off the text

  /** What has been read: groups before and after the gap, each ended by a colon, and the
      digits of the current one. */
  datatype Progress = Progress(front: seq<seq<Byte>>, gap: bool, back: seq<seq<Byte>>, cur: seq<Byte>)

  predicate ProgressOk(pr: Progress) {
    && AreGroups(pr.front) && AreGroups(pr.back) && (!pr.gap ==> pr.back == [])
    && |pr.front| + |pr.back| <= 8 && |pr.cur| <= 4 && AllHex(pr.cur)
  }

  function ReadText(pr: Progress): seq<Byte> {
    (if !pr.gap then Colons(pr.front) else (if pr.front == [] then [COLON] else Colons(pr.front)) + [COLON] + Colons(pr.back))
    + pr.cur
  }

  function StateAt(pr: Progress, s: seq<Byte>): Scan6
    requires ProgressOk(pr)
  {
    Scan6(Values(pr.front) + Values(pr.back), if pr.gap then Some(2 * |pr.front|) else None,
          |pr.cur|, Number(pr.cur), pr.cur + s)
  }

  function Pushed(pr: Progress): Progress {
    if pr.gap then pr.(back := pr.back + [pr.cur], cur := []) else pr.(front := pr.front + [pr.cur], cur := [])
  }

  lemma HexIs(c: Byte)
    ensures HexValue(c) == if IsHexDigit(c) then Some(DigitOf(c)) else None
    ensures IsHexDigit(c) ==> c != COLON && c != DOT
  {
  }

  lemma OneMoreDigit(g: seq<Byte>, c: Byte)
    requires AllHex(g) && IsHexDigit(c)
    ensures AllHex(g + [c]) && Number(g + [c]) == Number(g) * 16 + DigitOf(c)
  {
    assert (g + [c])[..|g|] == g;
  }

  lemma StepDigit(c: Byte, rest: seq<Byte>, pr: Progress)
    requires ProgressOk(pr) && IsHexDigit(c) && |pr.cur| < 4
    ensures ProgressOk(pr.(cur := pr.cur + [c]))
    ensures Loop6([c] + rest, StateAt(pr, [c] + rest)) == Loop6(rest, StateAt(pr.(cur := pr.cur + [c]), rest))
  {
    hide Values, Number, DigitOf, HexValue, Parse4, Finish, AreGroups, IsHexDigit;
    HexIs(c);
    OneMoreDigit(pr.cur, c);
    assert ([c] + rest)[1..] == rest && pr.cur + ([c] + rest) == pr.cur + [c] + rest;
  }

  lemma StepGap(rest: seq<Byte>, pr: Progress)
    requires ProgressOk(pr) && pr.cur == [] && !pr.gap
    ensures ProgressOk(pr.(gap := true))
    ensures Loop6([COLON] + rest, StateAt(pr, [COLON] + rest)) == Loop6(rest, StateAt(pr.(gap := true), rest))
  {
    hide Parse4, Finish, AreGroups, IsHexDigit;
    assert ([COLON] + rest)[1..] == rest && [] + rest == rest;
  }

  lemma PushedOk(pr: Progress)
    requires ProgressOk(pr) && pr.cur != [] && |pr.front| + |pr.back| < 8
    ensures ProgressOk(Pushed(pr)) && Number(pr.cur) < 0x10000
    ensures Values(Pushed(pr).front) + Values(Pushed(pr).back)
      == Values(pr.front) + Values(pr.back) + [Number(pr.cur) / 256, Number(pr.cur) % 256]
  {
    hide Values, Number, IsHexDigit;
    ValuesLast(pr.front, pr.cur);
    ValuesLast(pr.back, pr.cur);
    NoValues();
    if pr.gap {
      assert Values(pr.front) + (Values(pr.back) + [Number(pr.cur) / 256, Number(pr.cur) % 256])
        == Values(pr.front) + Values(pr.back) + [Number(pr.cur) / 256, Number(pr.cur) % 256];
    }
  }

  lemma NoValues()
    ensures Values([]) == []
  {
  }

  lemma StepColon(rest: seq<Byte>, pr: Progress)
    requires ProgressOk(pr) && pr.cur != [] && |pr.front| + |pr.back| < 8 && rest != []
    ensures ProgressOk(Pushed(pr))
    ensures Loop6([COLON] + rest, StateAt(pr, [COLON] + rest)) == Loop6(rest, StateAt(Pushed(pr), rest))
  {
    hide Parse4, Finish, AreGroups, IsHexDigit, Values, AllHex;
    PushedOk(pr);
    assert ([COLON] + rest)[1..] == rest && [] + rest == rest && Number([]) == 0;
  }

  // ----- every spelling is read

  lemma {:induction false} StepGroup(g: seq<Byte>, k: nat, rest: seq<Byte>, pr: Progress)
    requires ProgressOk(pr) && IsGroup(g) && k <= |g| && pr.cur == g[..k]
    ensures ProgressOk(pr.(cur := g))
    ensures Loop6(g[k..] + rest, StateAt(pr, g[k..] + rest)) == Loop6(rest, StateAt(pr.(cur := g), rest))
    decreases |g| - k
  {
    hide Loop6, StateAt, IsHexDigit;
    if k == |g| {
      assert g[k..] + rest == rest && g[..k] == g;
    } else {
      assert g[k..] + rest == [g[k]] + (g[k + 1..] + rest) && g[..k] + [g[k]] == g[..k + 1];
      StepDigit(g[k], g[k + 1..] + rest, pr);
      StepGroup(g, k + 1, rest, pr.(cur := g[..k + 1]));
    }
  }

  /** Groups that follow, each with its colon. */
  function With(pr: Progress, gs: seq<seq<Byte>>): Progress {
    if pr.gap then pr.(back := pr.back + gs) else pr.(front := pr.front + gs)
  }

  lemma {:induction false} StepColons(gs: seq<seq<Byte>>, rest: seq<Byte>, pr: Progress)
    requires ProgressOk(pr) && pr.cur == [] && AreGroups(gs) && |pr.front| + |pr.back| + |gs| <= 8 && rest != []
    ensures ProgressOk(With(pr, gs))
    ensures Loop6(Colons(gs) + rest, StateAt(pr, Colons(gs) + rest)) == Loop6(rest, StateAt(With(pr, gs), rest))
    decreases |gs|
  {
    hide Loop6, StateAt, AreGroups, AllHex;
    if gs == [] {
      assert Colons(gs) + rest == rest && With(pr, gs) == pr;
    } else {
      var g, more := gs[0], Colons(gs[1..]) + rest;
      FirstGroup(gs);
      assert Colons(gs) + rest == g + ([COLON] + more);
      StepFirst(g, more, pr);
      var pr1 := Pushed(pr.(cur := g));
      StepColons(gs[1..], rest, pr1);
      WithFirst(pr, gs);
    }
  }

  lemma FirstGroup(gs: seq<seq<Byte>>)
    requires AreGroups(gs) && gs != []
    ensures IsGroup(gs[0]) && AreGroups(gs[1..])
  {
  }

  lemma WithFirst(pr: Progress, gs: seq<seq<Byte>>)
    requires gs != [] && pr.cur == []
    ensures With(Pushed(pr.(cur := gs[0])), gs[1..]) == With(pr, gs)
  {
    assert gs == [gs[0]] + gs[1..];
    assert pr.back + [gs[0]] + gs[1..] == pr.back + gs && pr.front + [gs[0]] + gs[1..] == pr.front + gs;
  }

  /** One group and its colon. */
  lemma StepFirst(g: seq<Byte>, more: seq<Byte>, pr: Progress)
    requires ProgressOk(pr) && pr.cur == [] && IsGroup(g) && |pr.front| + |pr.back| < 8 && more != []
    ensures ProgressOk(Pushed(pr.(cur := g)))
    ensures Loop6(g + ([COLON] + more), StateAt(pr, g + ([COLON] + more)))
      == Loop6(more, StateAt(Pushed(pr.(cur := g)), more))
  {
    hide Loop6, StateAt, AreGroups, AllHex;
    assert g[0..] == g && g[..0] == [];
    StepGroup(g, 0, [COLON] + more, pr);
    StepColon(more, pr.(cur := g));
  }

  lemma GroupParts(g: seq<Byte>)
    requires IsGroup(g)
    ensures 1 <= |g| <= 4 && AllHex(g) && g[0] != COLON && g[0] != DOT
  {
    HexIs(g[0]);
  }

  /** The bytes are in place; only the zeros for the gap are missing. */
  lemma FinishIs(front: seq<Byte>, back: seq<Byte>, gap: bool, tok: seq<Byte>)
    requires if gap then |front| + |back| <= 14 else |front| + |back| == 16
    ensures Finish(Scan6(front + back, if gap then Some(|front|) else None, 0, 0, tok))
      == Some(front + seq(16 - |front| - |back|, _ => 0) + back)
  {
    var out := front + back;
    assert out[..|front|] == front && out[|front|..] == back;
    if !gap {
      assert front + seq(16 - |front| - |back|, _ => 0) + back == out;
    }
  }

  function TailBytes(sp: Spelling): seq<Byte> {
    if sp.tail.Some? then sp.tail.value else []
  }

  lemma Ends(sp: Spelling, tok: seq<Byte>)
    requires SpellingOk(sp)
    ensures Finish(Scan6(Values(sp.front) + Values(sp.back) + TailBytes(sp),
                         if sp.gap then Some(2 * |sp.front|) else None, 0, 0, tok)) == Some(AddressOf(sp))
  {
    hide Finish, Values, AreGroups;
    var a, b, c := Values(sp.front), Values(sp.back), TailBytes(sp);
    assert a + (b + c) == a + b + c;
    assert a + seq(16 - Size(sp), _ => 0) + (b + c) == a + seq(16 - Size(sp), _ => 0) + b + c;
    FinishIs(a, b + c, sp.gap, tok);
  }

  lemma EndPushes(pr: Progress)
    requires ProgressOk(pr) && pr.cur != [] && |pr.front| + |pr.back| < 8
    ensures ProgressOk(Pushed(pr)) && Loop6([], StateAt(pr, [])) == Finish(StateAt(Pushed(pr), []))
  {
    hide AreGroups, IsHexDigit, Values, AllHex;
    PushedOk(pr);
  }

  lemma JoinNone()
    ensures Join([]) == []
  {
  }

  lemma NoneLeft(st: Scan6)
    ensures Loop6([], st) == Finish(st)
  {
  }

  /** The groups behind the last colon, an IPv4 address, or nothing right after the gap. */
  lemma ReadsEnd(sp: Spelling, pr: Progress)
    requires SpellingOk(sp) && ProgressOk(pr) && pr.cur == [] && pr.gap == sp.gap
    requires if sp.gap then pr.front == sp.front && pr.back == [] else pr.front == []
    ensures var rest := Join((if sp.gap then sp.back else sp.front) + TailText(sp));
      Loop6(rest, StateAt(pr, rest)) == Some(AddressOf(sp))
  {
    hide Loop6, Finish, Values, Text4, AreGroups, Parse4, Join, Colons, IsGroup, AllHex;
    var gs := if sp.gap then sp.back else sp.front;
    if sp.tail.Some? {
      ReadsTail(sp, pr, gs);
    } else if gs == [] {
      assert gs + TailText(sp) == [];
      JoinNone();
      NoneLeft(StateAt(pr, []));
      NoValues();
      assert Values(sp.front) + [] + [] == Values(sp.front) + [];
      Ends(sp, []);
    } else {
      ReadsGroups(sp, pr, gs);
    }
  }

  lemma ReadsTail(sp: Spelling, pr: Progress, gs: seq<seq<Byte>>)
    requires SpellingOk(sp) && ProgressOk(pr) && pr.cur == [] && pr.gap == sp.gap && sp.tail.Some?
    requires if sp.gap then pr.front == sp.front && pr.back == [] && gs == sp.back else pr.front == [] && gs == sp.front
    ensures var rest := Join(gs + TailText(sp)); Loop6(rest, StateAt(pr, rest)) == Some(AddressOf(sp))
  {
    hide Loop6, Finish, Values, Text4, AreGroups, Parse4, Join, Colons, IsGroup, AllHex;
    var v := sp.tail.value;
    JoinLast(gs, Text4(v));
    Text4Nonempty(v);
    StepColons(gs, Text4(v), pr);
    assert [] + gs == gs && [] + Text4(v) == Text4(v);
    var out := Values(sp.front) + Values(sp.back);
    assert Number([]) == 0;
    assert StateAt(With(pr, gs), Text4(v)) == Ready(out, if sp.gap then Some(2 * |sp.front|) else None, Text4(v));
    ScanText4(v, out, if sp.gap then Some(2 * |sp.front|) else None);
    Ends(sp, []);
  }

  lemma ReadsGroups(sp: Spelling, pr: Progress, gs: seq<seq<Byte>>)
    requires SpellingOk(sp) && ProgressOk(pr) && pr.cur == [] && pr.gap == sp.gap && sp.tail.None? && gs != []
    requires if sp.gap then pr.front == sp.front && pr.back == [] && gs == sp.back else pr.front == [] && gs == sp.front
    ensures var rest := Join(gs + TailText(sp)); Loop6(rest, StateAt(pr, rest)) == Some(AddressOf(sp))
  {
    hide Loop6, Finish, Values, AreGroups, Join, Colons, AllHex;
    var n, g := |gs| - 1, gs[|gs| - 1];
    GroupsParts(gs, n);
    assert gs + TailText(sp) == gs[..n] + [g];
    JoinLast(gs[..n], g);
    StepColons(gs[..n], g, pr);
    var pr1 := With(pr, gs[..n]);
    assert g[0..] == g && g[..0] == [] && g + [] == g;
    StepGroup(g, 0, [], pr1);
    EndPushes(pr1.(cur := g));
    assert [] + gs[..n] == gs[..n] && gs[..n] + [g] == gs;
    var pr2 := Pushed(pr1.(cur := g));
    assert pr2.front == sp.front && pr2.back == sp.back && Number([]) == 0;
    var out := Values(sp.front) + Values(sp.back);
    assert out + TailBytes(sp) == out && [] + [] == pr2.cur;
    Ends(sp, []);
    assert StateAt(pr2, []) == Scan6(out, if sp.gap then Some(2 * |sp.front|) else None, 0, 0, []);
    assert Loop6([], StateAt(pr1.(cur := g), [])) == Some(AddressOf(sp));
    assert Loop6(g + [], StateAt(pr1, g + [])) == Some(AddressOf(sp));
  }

  lemma GroupsParts(gs: seq<seq<Byte>>, n: nat)
    requires AreGroups(gs) && n < |gs|
    ensures AreGroups(gs[..n]) && IsGroup(gs[n]) && gs[n] != [] && gs[n][0] != COLON
  {
    GroupParts(gs[n]);
  }

  /** Every spelling is accepted, as the address it stands for. */
  lemma SpellingParses(sp: Spelling)
    requires SpellingOk(sp)
    ensures Parse6(TextOf(sp)) == Some(AddressOf(sp))
  {
    hide Loop6, Values, AreGroups, Join, Colons, IsGroup, AllHex, Text4;
    var s, none := TextOf(sp), Progress([], false, [], []);
    AllHexNone();
    NoValues();
    assert Number([]) == 0 && Values([]) + Values([]) == [] && [] + s == s;
    if sp.front == [] {
      JoinNone();
      var rest := Join(sp.back + TailText(sp));
      assert s == [COLON] + ([COLON] + rest) && s[1..] == [COLON] + rest;
      assert [] + ([COLON] + rest) == [COLON] + rest;
      StepGap(rest, none);
      ReadsEnd(sp, none.(gap := true));
    } else {
      StartsWithDigit(sp);
      if sp.gap {
        JoinColon(sp.front);
        var rest := Join(sp.back + TailText(sp));
        assert s == Colons(sp.front) + ([COLON] + rest);
        StepColons(sp.front, [COLON] + rest, none);
        assert [] + sp.front == sp.front;
        StepGap(rest, none.(front := sp.front));
        ReadsEnd(sp, none.(front := sp.front, gap := true));
      } else {
        ReadsEnd(sp, none);
      }
    }
  }

  lemma AllHexNone()
    ensures AllHex([]) && AreGroups([])
  {
  }

  lemma StartsWithDigit(sp: Spelling)
    requires SpellingOk(sp) && sp.front != []
    ensures TextOf(sp) != [] && TextOf(sp)[0] != COLON
  {
    hide IsGroup, Text4;
    GroupParts(sp.front[0]);
    var ps := if sp.gap then sp.front else sp.front + TailText(sp);
    assert ps[0] == sp.front[0] && Join(ps)[0] == ps[0][0];
  }

  // ----- nothing else is

  lemma ReadJoin(front: seq<seq<Byte>>, gap: bool, back: seq<seq<Byte>>, x: seq<Byte>)
    ensures ReadText(Progress(front, gap, back, x)) ==
      if gap then Join(front) + [COLON, COLON] + Join(back + [x]) else Join(front + [x])
  {
    hide Join, Colons;
    JoinLast(back, x);
    JoinLast(front, x);
    JoinNone();
    if gap {
      if front != [] {
        JoinColon(front);
      }
      assert Join(front) + [COLON, COLON] == (if front == [] then [COLON] else Colons(front)) + [COLON];
      assert Join(front) + [COLON, COLON] + (Colons(back) + x) == Join(front) + [COLON, COLON] + Colons(back) + x;
    }
  }

  lemma ReadGap(front: seq<seq<Byte>>)
    ensures ReadText(Progress(front, true, [], [])) == Join(front) + [COLON, COLON] + Join([])
  {
    hide Join, Colons;
    JoinNone();
    assert Colons([]) == [] by { ColonsNone(); }
    if front != [] {
      JoinColon(front);
    }
  }

  lemma ColonsNone()
    ensures Colons([]) == []
  {
  }

  lemma FinishFits(st: Scan6)
    requires st.seen == 0 && Finish(st).Some?
    ensures if st.colon.Some? && st.colon.value <= |st.out| then |st.out| < 16 else |st.out| == 16
  {
  }

  lemma AcceptsEnd(pr: Progress) returns (sp: Spelling)
    requires ProgressOk(pr) && Loop6([], StateAt(pr, [])).Some?
    requires pr.cur != [] || (pr.gap && pr.back == []) || (!pr.gap && pr.front == [])
    ensures SpellingOk(sp) && TextOf(sp) == ReadText(pr) && Some(AddressOf(sp)) == Loop6([], StateAt(pr, []))
  {
    hide Loop6, Finish, Values, AreGroups, Join, Colons, AllHex, ReadText;
    NoneLeft(StateAt(pr, []));
    NoValues();
    if pr.cur == [] {
      FinishFits(StateAt(pr, []));
      sp := Spelling(pr.front, true, [], None);
      ReadGap(pr.front);
      assert [] + TailText(sp) == [];
      assert Values(sp.front) + Values(sp.back) + TailBytes(sp) == Values(pr.front) + Values(pr.back);
      Ends(sp, []);
      assert pr.cur + [] == [] && Number([]) == 0;
    } else {
      RoomLeft(pr);
      EndPushes(pr);
      var pr1 := Pushed(pr);
      FinishFits(StateAt(pr1, []));
      sp := Spelling(pr1.front, pr1.gap, pr1.back, None);
      ReadJoin(pr.front, pr.gap, pr.back, pr.cur);
      assert pr1.front + TailText(sp) == pr1.front && pr1.back + TailText(sp) == pr1.back;
      assert Values(sp.front) + Values(sp.back) + TailBytes(sp) == Values(pr1.front) + Values(pr1.back);
      Ends(sp, []);
      assert pr1.cur + [] == [] && Number([]) == 0;
    }
  }

  lemma RoomLeft(pr: Progress)
    requires ProgressOk(pr) && pr.cur != [] && Loop6([], StateAt(pr, [])).Some?
    ensures |pr.front| + |pr.back| < 8
  {
  }

  lemma AcceptsDot(s: seq<Byte>, pr: Progress) returns (sp: Spelling)
    requires ProgressOk(pr) && s != [] && s[0] == DOT && Loop6(s, StateAt(pr, s)).Some?
    ensures SpellingOk(sp) && TextOf(sp) == ReadText(pr) + s && Some(AddressOf(sp)) == Loop6(s, StateAt(pr, s))
  {
    hide Loop6, Finish, Values, AreGroups, Join, Colons, AllHex, Parse4, Text4;
    var tok := pr.cur + s;
    var out := Values(pr.front) + Values(pr.back);
    DotOnly(s, StateAt(pr, s));
    DotStep(s, StateAt(pr, s));
    ParseExactly(tok);
    var v := Parse4(tok).value;
    FinishUnseen(StateAt(pr, s), 0);
    FinishFits(StateAt(pr, s).(out := out + v, seen := 0, val := 0));
    sp := Spelling(pr.front, pr.gap, pr.back, Some(v));
    Ends(sp, tok);
    ReadJoin(pr.front, pr.gap, pr.back, tok);
    assert ReadText(pr) + s == ReadText(pr.(cur := tok));
  }

  lemma DotOnly(s: seq<Byte>, st: Scan6)
    requires s != [] && s[0] == DOT && Loop6(s, st).Some?
    ensures |st.out| + 4 <= 16 && Parse4(st.tok).Some?
  {
    hide Finish, Parse4;
  }

  /** The parser can stop here: not right behind the colon of a group. */
  predicate CanStop(pr: Progress, s: seq<Byte>) {
    && (s == [] ==> pr.cur != [] || (pr.gap && pr.back == []) || (!pr.gap && pr.front == []))
    && (s != [] && s[0] == COLON && pr.cur == [] && !pr.gap ==> pr.front != [])
  }

  lemma {:induction false} Accepts(s: seq<Byte>, pr: Progress) returns (sp: Spelling)
    requires ProgressOk(pr) && CanStop(pr, s) && Loop6(s, StateAt(pr, s)).Some?
    ensures SpellingOk(sp) && TextOf(sp) == ReadText(pr) + s && Some(AddressOf(sp)) == Loop6(s, StateAt(pr, s))
    decreases |s|
  {
    hide Loop6, Finish, Values, AreGroups, Join, Colons, AllHex, Parse4, TextOf, AddressOf, SpellingOk, IsHexDigit;
    if s == [] {
      sp := AcceptsEnd(pr);
      assert ReadText(pr) + s == ReadText(pr);
    } else {
      var c, rest := s[0], s[1..];
      assert s == [c] + rest;
      OnlyThese(s, pr);
      var pr1 := pr;
      if IsHexDigit(c) {
        StepDigit(c, rest, pr);
        pr1 := pr.(cur := pr.cur + [c]);
      } else if c == DOT {
        sp := AcceptsDot(s, pr);
        return;
      } else if pr.cur == [] {
        StepGap(rest, pr);
        pr1 := pr.(gap := true);
      } else {
        StepColon(rest, pr);
        pr1 := Pushed(pr);
      }
      ReadMore(pr, c);
      sp := Accepts(rest, pr1);
      assert ReadText(pr) + s == ReadText(pr) + [c] + rest;
    }
  }

  /** What the loop goes on with. */
  lemma OnlyThese(s: seq<Byte>, pr: Progress)
    requires ProgressOk(pr) && s != [] && Loop6(s, StateAt(pr, s)).Some?
    ensures IsHexDigit(s[0]) || s[0] == DOT || s[0] == COLON
    ensures IsHexDigit(s[0]) ==> |pr.cur| < 4 && s[0] != DOT && s[0] != COLON
    ensures s[0] == COLON ==> if pr.cur == [] then !pr.gap else |s| > 1 && |pr.front| + |pr.back| < 8
  {
    hide Finish, Values, AreGroups, Parse4;
    HexIs(s[0]);
  }

  lemma ReadMore(pr: Progress, c: Byte)
    ensures ReadText(pr.(cur := pr.cur + [c])) == ReadText(pr) + [c]
    ensures pr.cur == [] && !pr.gap && pr.back == [] && pr.front != [] ==> ReadText(pr.(gap := true)) == ReadText(pr) + [COLON]
    ensures pr.cur != [] ==> ReadText(Pushed(pr)) == ReadText(pr) + [COLON]
  {
    hide Colons;
    ColonsNone();
    ColonsLast(pr.front, pr.cur);
    ColonsLast(pr.back, pr.cur);
  }

  /** inet_pton6 accepts exactly the spellings, each as the address it stands for. */
  lemma Parse6Exactly(s: seq<Byte>, a: seq<Byte>)
    ensures Parse6(s) == Some(a) <==> exists sp :: SpellingOk(sp) && TextOf(sp) == s && AddressOf(sp) == a
  {
    hide Parse6, SpellingOk, TextOf, AddressOf;
    if sp :| SpellingOk(sp) && TextOf(sp) == s && AddressOf(sp) == a {
      SpellingParses(sp);
    }
    if Parse6(s) == Some(a) {
      var sp := Spelled(s);
    }
  }

  lemma Exactly(s: seq<Byte>)
    ensures Parse6(s).Some? ==> exists sp :: SpellingOk(sp) && TextOf(sp) == s && Some(AddressOf(sp)) == Parse6(s)
    ensures Parse6(s).None? ==> forall sp :: SpellingOk(sp) ==> TextOf(sp) != s
  {
    hide Parse6, SpellingOk, TextOf, AddressOf;
    if Parse6(s).Some? {
      var sp := Spelled(s);
    } else {
      forall sp | SpellingOk(sp) ensures TextOf(sp) != s {
        SpellingParses(sp);
      }
    }
  }

  lemma Spelled(s: seq<Byte>) returns (sp: Spelling)
    requires Parse6(s).Some?
    ensures SpellingOk(sp) && TextOf(sp) == s && Some(AddressOf(sp)) == Parse6(s)
  {
    hide Loop6, Values, AreGroups, Join, Colons, AllHex, TextOf, AddressOf, SpellingOk;
    var none := Progress([], false, [], []);
    AllHexNone();
    NoValues();
    ColonsNone();
    assert Number([]) == 0 && Values([]) + Values([]) == [];
    if s != [] && s[0] == COLON {
      var rest := s[2..];
      assert s == [COLON, COLON] + rest && s[1..] == [COLON] + rest && [] + s[1..] == s[1..];
      StepGap(rest, none);
      sp := Accepts(rest, none.(gap := true));
    } else {
      assert [] + s == s;
      sp := Accepts(s, none);
    }
  }

  // ----- either case, and a sample

  function LowerByte(c: Byte): Byte { if 65 <= c <= 90 then c + 32 else c }

  function Lower(s: seq<Byte>): (r: seq<Byte>)
    ensures |r| == |s| && forall i :: 0 <= i < |s| ==> r[i] == LowerByte(s[i])
  {
    seq(|s|, i requires 0 <= i < |s| => LowerByte(s[i]))
  }

  lemma {:induction false} LowerSteps(st: Scan, s: seq<Byte>)
    ensures Steps(st, Lower(s)) == Steps(st, s)
    decreases |s|
  {
    if s != [] {
      assert Step(st, LowerByte(s[0])) == Step(st, s[0]);
      assert Lower(s)[1..] == Lower(s[1..]);
      if Step(st, s[0]).Some? {
        LowerSteps(Step(st, s[0]).value, s[1..]);
      }
    }
  }

  lemma {:induction false} LowerLoop(s: seq<Byte>, st: Scan6)
    ensures Loop6(Lower(s), st.(tok := Lower(st.tok))) == Loop6(s, st)
    decreases |s|
  {
    hide Steps, Lower;
    LowerSteps(START, st.tok);
    FinishAnyTok(st, Lower(st.tok));
    if s != [] {
      LowerRest(s);
      assert HexValue(LowerByte(s[0])) == HexValue(s[0]);
      match Turn(s, st)
      case Go(st1) => LowerLoop(s[1..], st1);
      case Halt(result) =>
    }
  }

  lemma LowerRest(s: seq<Byte>)
    requires s != []
    ensures Lower(s) != [] && Lower(s)[0] == LowerByte(s[0]) && Lower(s)[1..] == Lower(s[1..])
  {
  }

  lemma FinishAnyTok(st: Scan6, tok: seq<Byte>)
    ensures Finish(st.(tok := tok)) == Finish(st)
    ensures forall v: seq<Byte> :: Finish(st.(tok := tok, out := v, seen := 0)) == Finish(st.(out := v, seen := 0))
  {
  }

  /** Upper and lower case are the same. */
  lemma CaseInsensitive(s: seq<Byte>)
    ensures Parse6(s) == Parse6(Lower(s))
  {
    hide Loop6, Lower;
    if s != [] {
      LowerRest(s);
      if s[0] == COLON && |s| > 1 {
        LowerRest(s[1..]);
      }
      LowerLoop(s, Scan6([], None, 0, 0, s));
      LowerLoop(s[1..], Scan6([], None, 0, 0, s[1..]));
    } else {
      assert Lower(s) == s;
    }
  }

  lemma Numbers()
    ensures Number([50, 48, 48, 49]) == 0x2001 && Number([68, 66, 56]) == 0x0DB8 && Number([49]) == 1
  {
    hide Number;
    NumberBound([]);
    OneMoreDigit([], 50);
    OneMoreDigit([50], 48);
    OneMoreDigit([50, 48], 48);
    OneMoreDigit([50, 48, 48], 49);
    OneMoreDigit([], 68);
    OneMoreDigit([68], 66);
    OneMoreDigit([68, 66], 56);
    OneMoreDigit([], 49);
    assert [50, 48, 48] + [49] == [50, 48, 48, 49] && [68, 66] + [56] == [68, 66, 56];
    assert [50] + [48] == [50, 48] && [50, 48] + [48] == [50, 48, 48] && [68] + [66] == [68, 66];
    assert [] + [50] == [50] && [] + [68] == [68] && [] + [49] == [49];
  }

  lemma TwoValues(a: seq<Byte>, b: seq<Byte>)
    requires IsGroup(a) && IsGroup(b)
    ensures Number(a) < 0x10000 && Number(b) < 0x10000 && AreGroups([a]) && AreGroups([a, b])
    ensures Values([a]) == [Number(a) / 256, Number(a) % 256]
    ensures Values([a, b]) == [Number(a) / 256, Number(a) % 256, Number(b) / 256, Number(b) % 256]
  {
    hide Number, Values;
    NoValues();
    ValuesLast([], a);
    ValuesLast([a], b);
    assert [] + [a] == [a] && [a] + [b] == [a, b];
  }

  /** Two groups, a gap and one group. */
  lemma TwoAndOne(a: seq<Byte>, b: seq<Byte>, c: seq<Byte>)
    requires IsGroup(a) && IsGroup(b) && IsGroup(c)
    ensures Number(a) < 0x10000 && Number(b) < 0x10000 && Number(c) < 0x10000
    ensures Parse6(a + [58] + b + [58, 58] + c) ==
      Some([Number(a) / 256, Number(a) % 256, Number(b) / 256, Number(b) % 256] + seq(10, _ => 0)
           + [Number(c) / 256, Number(c) % 256])
  {
    hide Parse6, Number, AllHex, Values, Join, AreGroups;
    var sp := Spelling([a, b], true, [c], None);
    TwoValues(a, b);
    TwoValues(c, c);
    JoinLast([a], b);
    JoinLast([], c);
    Single(a);
    assert [a] + [b] == [a, b] && [] + [c] == [c] && [c] + TailText(sp) == [c];
    assert TextOf(sp) == a + [58] + b + [58, 58] + c;
    assert Size(sp) == 6;
    var all := Values([a, b]) + seq(10, _ => 0) + Values([c]);
    assert AddressOf(sp) == all + [] == all;
    SpellingParses(sp);
  }

  lemma Single(a: seq<Byte>)
    ensures Colons([a]) == a + [COLON] && Colons([]) == []
  {
    assert [a][1..] == [];
  }

  /** 2001:DB8::1 */
  lemma Documentation(s: seq<Byte>)
    requires s == [50, 48, 48, 49, 58, 68, 66, 56, 58, 58, 49]
    ensures Parse6(s) == Some([0x20, 0x01, 0x0D, 0xB8, 0, 0, 0, 0, 0, 0, 0, 0, 0, 0, 0, 1])
  {
    hide Parse6, Number;
    Numbers();
    TwoAndOne([50, 48, 48, 49], [68, 66, 56], [49]);
    assert [50, 48, 48, 49] + [58] + [68, 66, 56] + [58, 58] + [49] == s;
    assert [0x20, 0x01, 0x0D, 0xB8] + seq(10, _ => 0) + [0, 1]
      == [0x20, 0x01, 0x0D, 0xB8, 0, 0, 0, 0, 0, 0, 0, 0, 0, 0, 0, 1];
  }
}
