/**
 What each kind of input is taken for, in terms of its bytes: mouse and focus reports,
 keys, unknown control sequences, NUL, text, a lone escape character, anything else.
 */
module TokenizerLaws {
  import opened Common
  import opened Utf8
  import opened Tokenizer

  // ----- ranges of bytes

  predicate InRange(b: seq<Byte>, i: nat, e: nat, lo: Byte, hi: Byte) {
    i <= e <= |b| && forall k :: i <= k < e ==> lo <= b[k] <= hi
  }

  lemma {:induction false} SkipIs(b: seq<Byte>, i: nat, lo: Byte, hi: Byte)
    requires i <= |b|
    ensures var e := SkipRange(b, i, lo, hi); InRange(b, i, e, lo, hi) && (e < |b| ==> !(lo <= b[e] <= hi))
    decreases |b| - i
  {
    if i < |b| && lo <= b[i] <= hi {
      SkipIs(b, i + 1, lo, hi);
    }
  }

  /** The end of a range is where the next byte is outside of it. */
  lemma SkipTo(b: seq<Byte>, i: nat, e: nat, lo: Byte, hi: Byte)
    requires InRange(b, i, e, lo, hi) && (e < |b| ==> !(lo <= b[e] <= hi))
    ensures SkipRange(b, i, lo, hi) == e
  {
    SkipIs(b, i, lo, hi);
  }

  // ----- mouse reports

  /** Digits from i to p, ';', digits to q, ';', digits, and M or m before n. */
  predicate Report(b: seq<Byte>, i: nat, p: nat, q: nat, n: nat) {
    && i < p && p + 1 < q && q + 2 < n <= |b|
    && InRange(b, i, p, 48, 57) && InRange(b, p + 1, q, 48, 57) && InRange(b, q + 1, n - 1, 48, 57)
    && b[p] == 59 && b[q] == 59 && (b[n - 1] == 77 || b[n - 1] == 109)
  }

  ghost predicate ReportAt(b: seq<Byte>, i: nat, n: nat) {
    exists p: nat, q: nat :: Report(b, i, p, q, n)
  }

  lemma NumberIs(b: seq<Byte>, i: nat, n: nat, stop: set<Byte>)
    requires i <= |b| && forall c :: c in stop ==> c > 57
    ensures Number(b, i, stop) == Some(n) <==> i + 1 < n <= |b| && InRange(b, i, n - 1, 48, 57) && b[n - 1] in stop
  {
    SkipIs(b, i, 48, 57);
    if i + 1 < n <= |b| && InRange(b, i, n - 1, 48, 57) && b[n - 1] in stop {
      SkipTo(b, i, n - 1, 48, 57);
    }
  }

  lemma SgrAtIs(b: seq<Byte>, i: nat, n: nat)
    requires i <= |b|
    ensures SgrAt(b, i) == Some(n) <==> ReportAt(b, i, n)
  {
    hide Number, InRange;
    if p: nat, q: nat :| Report(b, i, p, q, n) {
      NumberIs(b, i, p + 1, {59});
      NumberIs(b, p + 1, q + 1, {59});
      NumberIs(b, q + 1, n, {77, 109});
    }
    if SgrAt(b, i) == Some(n) {
      var n1 := Number(b, i, {59}).value;
      var n2 := Number(b, n1, {59}).value;
      NumberIs(b, i, n1, {59});
      NumberIs(b, n1, n2, {59});
      NumberIs(b, n2, n, {77, 109});
      assert Report(b, i, n1 - 1, n2 - 1, n);
    }
  }

  /** The first report from `from` on: where it begins, and where it ends. */
  ghost predicate FirstReport(b: seq<Byte>, from: nat, i: nat, n: nat) {
    from <= i && ReportAt(b, i, n) && forall j: nat, m: nat :: from <= j < i ==> !ReportAt(b, j, m)
  }

  lemma {:induction false} SgrEndIs(b: seq<Byte>, from: nat)
    requires from <= |b|
    ensures SgrEnd(b, from).Some? ==> exists i: nat :: FirstReport(b, from, i, SgrEnd(b, from).value)
    ensures SgrEnd(b, from).None? ==> forall i: nat, n: nat :: from <= i ==> !ReportAt(b, i, n)
    decreases |b| - from
  {
    hide SgrAt, ReportAt;
    var here := SgrAt(b, from);
    forall n: nat ensures here == Some(n) <==> ReportAt(b, from, n) {
      SgrAtIs(b, from, n);
    }
    if here.Some? {
      assert FirstReport(b, from, from, here.value);
    } else if from == |b| {
      forall i: nat, n: nat | from <= i ensures !ReportAt(b, i, n) {
        NoReport(b, i, n);
      }
    } else {
      SgrEndIs(b, from + 1);
      if SgrEnd(b, from + 1).Some? {
        var n := SgrEnd(b, from + 1).value;
        var i: nat :| FirstReport(b, from + 1, i, n);
        assert FirstReport(b, from, i, n);
      }
    }
  }

  lemma NoReport(b: seq<Byte>, i: nat, n: nat)
    requires |b| <= i
    ensures !ReportAt(b, i, n)
  {
  }

  predicate StartsWith(b: seq<Byte>, x: Byte, y: Byte, z: Byte) {
    |b| >= 6 && b[0] == x && b[1] == y && b[2] == z
  }

  /** ESC [ M and three more bytes are an X10 mouse report, and nothing else is. */
  lemma X10Reports(t: Table, b: seq<Byte>, more: bool)
    requires b != []
    ensures StartsWith(b, 27, 91, 77) ==> Detect(t, b, more) == Found(6, MouseX10([b[3], b[4], b[5]]))
    ensures Detect(t, b, more).Found? && Detect(t, b, more).msg.MouseX10? ==> StartsWith(b, 27, 91, 77)
  {
    hide IndexOf, PasteRunes, RuneRun, EncodeAll, SgrEnd, CsiEnd, Longest;
    if StartsWith(b, 27, 91, 77) {
      assert b[3..6] == [b[3], b[4], b[5]];
    }
  }

  /** ESC [ < and a report anywhere behind it, the first one deciding, is an SGR mouse
      report; nothing else is. */
  lemma SgrReports(t: Table, b: seq<Byte>, more: bool)
    requires b != []
    ensures forall i: nat, n: nat :: StartsWith(b, 27, 91, 60) && FirstReport(b[3..], 0, i, n) ==>
      Detect(t, b, more) == Found(3 + n, MouseSgr(b[3..3 + n]))
    ensures Detect(t, b, more).Found? && Detect(t, b, more).msg.MouseSgr? ==>
      StartsWith(b, 27, 91, 60) && exists i: nat, n: nat :: FirstReport(b[3..], 0, i, n)
  {
    hide IndexOf, PasteRunes, RuneRun, EncodeAll, SgrEnd, CsiEnd, Longest, FirstReport;
    if StartsWith(b, 27, 91, 60) {
      var c := b[3..];
      SgrEndIs(c, 0);
      forall i: nat, n: nat | FirstReport(c, 0, i, n) ensures SgrEnd(c, 0) == Some(n) {
        OneFirst(c, i, n);
      }
    }
  }

  lemma OneFirst(c: seq<Byte>, i: nat, n: nat)
    requires FirstReport(c, 0, i, n)
    ensures SgrEnd(c, 0) == Some(n)
  {
    hide SgrEnd, SgrAt, ReportAt;
    SgrEndIs(c, 0);
    var j: nat :| FirstReport(c, 0, j, SgrEnd(c, 0).value);
    assert i == j;
    Inside(c, i, n);
    SgrAtIs(c, i, n);
    SgrAtIs(c, i, SgrEnd(c, 0).value);
  }

  lemma Inside(b: seq<Byte>, i: nat, n: nat)
    requires ReportAt(b, i, n)
    ensures i < n <= |b|
  {
  }

  // ----- focus

  /** ESC [ I alone is the focus gained, ESC [ O alone the focus lost. */
  lemma FocusReports(t: Table, b: seq<Byte>, more: bool)
    requires b != []
    ensures Detect(t, b, more) == Found(3, Focus) <==> b == [27, 91, 73]
    ensures Detect(t, b, more) == Found(3, Blur) <==> b == [27, 91, 79]
    ensures Detect(t, b, more).Found? && (Detect(t, b, more).msg.Focus? || Detect(t, b, more).msg.Blur?)
      ==> Detect(t, b, more).width == 3
  {
    hide IndexOf, PasteRunes, RuneRun, EncodeAll, SgrEnd, CsiEnd, Longest;
  }

  // ----- what takes precedence over keys and text

  ghost predicate HasReport(b: seq<Byte>) {
    StartsWith(b, 27, 91, 60) && exists i: nat, n: nat :: ReportAt(b[3..], i, n)
  }

  /** Mouse and focus reports, and the opening sequence of a paste. */
  ghost predicate Reserved(b: seq<Byte>) {
    || StartsWith(b, 27, 91, 77) || HasReport(b) || b == [27, 91, 73] || b == [27, 91, 79]
    || [27, 91, 50, 48, 48, 126] <= b
  }

  ghost predicate NoKey(t: Table, b: seq<Byte>) {
    forall j :: 0 <= j <= |b| ==> b[..j] !in t
  }

  lemma NotReserved(t: Table, b: seq<Byte>, more: bool)
    requires b != [] && !Reserved(b)
    ensures var s := DetectSequence(t, b); Detect(t, b, more) == if s.Some? then s.value else DetectPlain(b, more)
  {
    hide IndexOf, PasteRunes, RuneRun, EncodeAll, SgrEnd, CsiEnd, Longest, DetectPlain, ReportAt;
    if StartsWith(b, 27, 91, 60) {
      SgrEndIs(b[3..], 0);
    }
  }

  lemma ReservedFirst(t: Table, b: seq<Byte>, more: bool)
    requires b != [] && Reserved(b)
    ensures Detect(t, b, more).NeedMore? || Detect(t, b, more).msg.MouseX10? || Detect(t, b, more).msg.MouseSgr?
      || Detect(t, b, more).msg.Focus? || Detect(t, b, more).msg.Blur? || Detect(t, b, more).msg.Paste?
  {
    hide IndexOf, PasteRunes, RuneRun, EncodeAll, SgrEnd, CsiEnd, Longest, DetectPlain, ReportAt;
    if HasReport(b) {
      SgrEndIs(b[3..], 0);
    }
  }

  // ----- keys and unknown control sequences

  /** A key is the longest sequence of the table that begins the input, and nothing else. */
  lemma Keys(t: Table, b: seq<Byte>, more: bool)
    requires b != []
    ensures forall n :: !Reserved(b) && 0 <= n <= |b| && b[..n] in t && (forall j :: n < j <= |b| ==> b[..j] !in t) ==>
      Detect(t, b, more) == Found(n, KeyPress(t[b[..n]]))
    ensures Detect(t, b, more).Found? && Detect(t, b, more).msg.KeyPress? ==> !Reserved(b) && !NoKey(t, b)
  {
    hide DetectPlain, CsiEnd, Reserved, Detect;
    if Reserved(b) {
      ReservedFirst(t, b, more);
    } else {
      NotReserved(t, b, more);
      PlainMsg(b, more);
    }
  }

  lemma PlainMsg(b: seq<Byte>, more: bool)
    requires b != []
    ensures DetectPlain(b, more).Found? ==>
      var m := DetectPlain(b, more).msg; m.Nul? || m.Runes? || m.Escape? || m.UnknownByte?
  {
    hide RuneRun, EncodeAll;
  }

  /** ESC [, parameter bytes to p, intermediate bytes to q, and a final byte. */
  predicate Csi(b: seq<Byte>, p: nat, q: nat) {
    && 2 <= p <= q < |b| && b[0] == 27 && b[1] == 91
    && InRange(b, 2, p, 0x30, 0x3F) && InRange(b, p, q, 0x20, 0x2F) && 0x40 <= b[q] <= 0x7E
  }

  lemma CsiEndIs(b: seq<Byte>, q: nat)
    ensures CsiEnd(b) == Some(q + 1) <==> exists p: nat :: Csi(b, p, q)
  {
    if p: nat :| Csi(b, p, q) {
      SkipTo(b, 2, p, 0x30, 0x3F);
      SkipTo(b, p, q, 0x20, 0x2F);
    }
    if CsiEnd(b) == Some(q + 1) {
      SkipIs(b, 2, 0x30, 0x3F);
      var p := SkipRange(b, 2, 0x30, 0x3F);
      SkipIs(b, p, 0x20, 0x2F);
      assert Csi(b, p, q);
    }
  }

  /** A control sequence that is no key is reported whole, and nothing else is. */
  lemma UnknownSequences(t: Table, b: seq<Byte>, more: bool)
    requires b != []
    ensures forall p: nat, q: nat :: !Reserved(b) && NoKey(t, b) && Csi(b, p, q) ==>
      Detect(t, b, more) == Found(q + 1, UnknownCsi(b[..q + 1]))
    ensures Detect(t, b, more).Found? && Detect(t, b, more).msg.UnknownCsi? ==>
      !Reserved(b) && NoKey(t, b) && exists p: nat, q: nat :: Csi(b, p, q)
  {
    hide DetectPlain, CsiEnd, Reserved, Csi, Detect;
    if Reserved(b) {
      ReservedFirst(t, b, more);
    } else {
      NotReserved(t, b, more);
      PlainMsg(b, more);
      forall p: nat, q: nat | Csi(b, p, q) ensures CsiEnd(b) == Some(q + 1) {
        CsiEndIs(b, q);
      }
      if CsiEnd(b).Some? {
        CsiEndIs(b, CsiEnd(b).value - 1);
      }
    }
  }

  // ----- everything else

  /** Neither a report, nor a paste, nor a key, nor a control sequence. */
  ghost predicate Plain(t: Table, b: seq<Byte>) {
    b != [] && !Reserved(b) && NoKey(t, b) && forall p: nat, q: nat :: !Csi(b, p, q)
  }

  lemma PlainOnly(t: Table, b: seq<Byte>, more: bool)
    requires Plain(t, b)
    ensures Detect(t, b, more) == DetectPlain(b, more)
  {
    hide DetectPlain, CsiEnd, Reserved, Csi, Detect;
    NotReserved(t, b, more);
    if CsiEnd(b).Some? {
      CsiEndIs(b, CsiEnd(b).value - 1);
    }
  }

  /** NUL, with or without an escape character before it. */
  lemma Nuls(t: Table, b: seq<Byte>, more: bool)
    requires Plain(t, b)
    ensures b[0] == 0 ==> Detect(t, b, more) == Found(1, Nul(false))
    ensures |b| > 1 && b[0] == 27 && b[1] == 0 ==> Detect(t, b, more) == Found(2, Nul(true))
  {
    hide Plain, Detect;
    PlainParts(t, b);
    PlainOnly(t, b, more);
  }

  lemma PlainParts(t: Table, b: seq<Byte>)
    requires Plain(t, b)
    ensures b != []
  {
  }

  /** An escape character alone: the Escape key, or the beginning of something longer. */
  lemma LoneEscape(t: Table, more: bool)
    requires NoKey(t, [27])
    ensures Detect(t, [27], more) == if more then NeedMore else Found(1, Escape)
  {
    hide CsiEnd, SgrEnd;
    assert CsiEnd([27]).None? by { ShortCsi(); }
  }

  lemma ShortCsi()
    ensures CsiEnd([27]).None?
  {
  }

  /** Text: no control character, space, DEL or replacement character. */
  ghost predicate PlainText(us: seq<nat>) {
    forall j :: 0 <= j < |us| ==> IsScalar(us[j]) && us[j] > 32 && us[j] != 127 && us[j] != 0xFFFD
  }

  lemma TextIsText(us: seq<nat>)
    ensures PlainText(us) <==> IsText(us)
    ensures PlainText(us) ==> AllScalar(us)
  {
  }

  /** Text goes on to the end of the input, or to a control character, a space or DEL. */
  predicate Ended(rest: seq<Byte>) {
    rest == [] || rest[0] <= 32 || rest[0] == 127
  }

  lemma {:induction false} RunThenStop(b: seq<Byte>, i: nat, us: seq<nat>, rest: seq<Byte>)
    requires i <= |b| && IsText(us) && AllScalar(us) && b[i..] == EncodeAll(us) + rest && Ended(rest)
    ensures RuneRun(b, i, false) == us
    decreases |us|
  {
    hide DecodeRune, Encode1, RuneRun, EncodeAll;
    RuneRunFirst(b, i);
    EncodeAllFirst(us);
    if us == [] {
      assert b[i..] == rest;
      if rest != [] {
        Stopped(rest);
      }
    } else {
      var e, more := Encode1(us[0]), EncodeAll(us[1..]);
      assert e + more + rest == e + (more + rest);
      TextPrefix(b, i, e, more + rest);
      DecodeRuneCorrect(b[i..], us[0]);
      RunThenStop(b, i + |e|, us[1..], rest);
      assert us == [us[0]] + us[1..];
    }
  }

  lemma Stopped(rest: seq<Byte>)
    requires rest != [] && (rest[0] <= 32 || rest[0] == 127)
    ensures Stops(DecodeRune(rest).r)
  {
  }

  /** A run of text is one message, as long as it is; at the end of a full buffer it waits. */
  lemma Texts(t: Table, us: seq<nat>, rest: seq<Byte>, more: bool)
    requires TableOk(t) && us != [] && PlainText(us) && AllScalar(us) && Ended(rest)
    ensures EncodeAll(us) != []
    ensures Detect(t, EncodeAll(us) + rest, more) ==
      if rest == [] && more then NeedMore else Found(|EncodeAll(us)|, Runes(us, false))
  {
    hide Encode1, RuneRun, Detect, EncodeAll;
    var b := EncodeAll(us) + rest;
    TextIsText(us);
    EncodeAllFirst(us);
    TextAt(us, 0);
    FirstByte(us[0]);
    assert b[0] == Encode1(us[0])[0] && b[0..] == b;
    RunThenStop(b, 0, us, rest);
    TextIsPlain(t, b, more);
  }

  /** One character after an escape character is that character with Alt. */
  lemma AltText(t: Table, u: nat, rest: seq<Byte>, more: bool)
    requires IsScalar(u) && u > 32 && u != 127 && u != 0xFFFD && Plain(t, [27] + Encode1(u) + rest)
    ensures Detect(t, [27] + Encode1(u) + rest, more) ==
      if rest == [] && more then NeedMore else Found(1 + |Encode1(u)|, Runes([u], true))
  {
    hide Plain, Detect, DecodeRune, Encode1, EncodeAll;
    var b := [27] + Encode1(u) + rest;
    PlainOnly(t, b, more);
    FirstByte(u);
    assert b[1..] == Encode1(u) + rest && b[1] == Encode1(u)[0];
    DecodeRuneCorrect(b[1..], u);
    EncodeAllFirst([u]);
    EncodeAllFirst([u][1..]);
    assert RuneRun(b, 1, true) == [u] + [] == [u];
    assert Encode1(u) + [] == Encode1(u);
  }

  /** A byte that begins no character is reported by itself; so is each byte of U+FFFD. */
  lemma BadBytes(t: Table, b: seq<Byte>, more: bool)
    requires TableOk(t) && b != [] && b[0] >= 128
    requires forall u :: IsScalar(u) && u != 0xFFFD ==> !(Encode1(u) <= b)
    ensures Detect(t, b, more) == Found(1, UnknownByte(b[0]))
  {
    hide Detect, DecodeRune, Encode1;
    TextIsPlain(t, b, more);
    RuneOrError(b);
    assert b[0..] == b;
  }

  lemma RuneOrError(b: seq<Byte>)
    requires b != []
    ensures DecodeRune(b).r == 0xFFFD || Encode1(DecodeRune(b).r) <= b
  {
    hide DecodeRune, Encode1;
    if DecodeRune(b).r != 0xFFFD {
      DecodeRuneExact(b);
    }
  }

  // ----- pastes

  /** The bytes of a paste, between its two control sequences. */
  lemma PasteIs(us: seq<nat>)
    requires AllScalar(us)
    ensures PasteOf(us) == [27, 91, 50, 48, 48, 126] + EncodeAll(us) + [27, 91, 50, 48, 49, 126]
    ensures 0xFFFD !in us ==> Keep(us) == us
  {
    hide EncodeAll;
    KeepAll(us);
  }

  lemma {:induction false} KeepAll(us: seq<nat>)
    ensures 0xFFFD !in us ==> Keep(us) == us
  {
    if us != [] {
      KeepAll(us[1..]);
    }
  }

  /** utf8.DecodeRune: the character that begins b, or the error rune and one byte. */
  lemma RunesExactly(b: seq<Byte>)
    requires b != []
    ensures forall u :: IsScalar(u) && Encode1(u) <= b ==> DecodeRune(b) == Rune(u, |Encode1(u)|)
    ensures (forall u :: IsScalar(u) ==> !(Encode1(u) <= b)) ==> DecodeRune(b) == Rune(0xFFFD, 1)
  {
    hide DecodeRune, Encode1;
    forall u | IsScalar(u) && Encode1(u) <= b ensures DecodeRune(b) == Rune(u, |Encode1(u)|) {
      DecodeRuneCorrect(b, u);
    }
    RuneOrError(b);
    ErrorRune(b);
  }

  lemma ErrorRune(b: seq<Byte>)
    requires b != []
    ensures DecodeRune(b).r == 0xFFFD ==> DecodeRune(b).width == 1 || Encode1(0xFFFD) <= b
  {
    assert Encode1(0xFFFD) == [0xEF, 0xBF, 0xBD];
  }

  /** The text of a paste, character by character: bytes that begin no character are left
      out one by one, and so is U+FFFD. */
  lemma PastedRunes(u: nat, b: seq<Byte>, rest: seq<Byte>)
    requires IsScalar(u) && b != [] && forall v :: IsScalar(v) ==> !(Encode1(v) <= b)
    ensures PasteRunes(Encode1(u) + rest) == (if u == 0xFFFD then [] else [u]) + PasteRunes(rest)
    ensures PasteRunes(b) == PasteRunes(b[1..]) && PasteRunes([]) == []
  {
    hide DecodeRune, Encode1;
    RunesExactly(b);
    var c := Encode1(u) + rest;
    DecodeRuneCorrect(c, u);
    assert c[|Encode1(u)|..] == rest;
    assert [] + PasteRunes(b[1..]) == PasteRunes(b[1..]);
  }

  /** Whatever lies between the markers, up to the first end marker, is the paste. */
  lemma Pastes(t: Table, x: seq<Byte>, rest: seq<Byte>, more: bool)
    requires forall k: nat :: k < |x| ==> !At(x + [27, 91, 50, 48, 49, 126] + rest, [27, 91, 50, 48, 49, 126], k)
    ensures Detect(t, [27, 91, 50, 48, 48, 126] + x + [27, 91, 50, 48, 49, 126] + rest, more)
      == Found(12 + |x|, Paste(PasteRunes(x)))
  {
    hide Detect, PasteRunes, At;
    var y := x + [27, 91, 50, 48, 49, 126] + rest;
    var b := [27, 91, 50, 48, 48, 126] + x + [27, 91, 50, 48, 49, 126] + rest;
    assert b == [27, 91, 50, 48, 48, 126] + y;
    MarkerBehind(x, rest);
    FirstMarker(y, |x|);
    PasteAt(t, b, y, |x|, more);
    assert y[..|x|] == x;
  }

  lemma MarkerBehind(x: seq<Byte>, rest: seq<Byte>)
    ensures At(x + [27, 91, 50, 48, 49, 126] + rest, PASTE_END, |x|)
  {
    var y := x + [27, 91, 50, 48, 49, 126] + rest;
    assert y[|x|..|x| + 6] == [27, 91, 50, 48, 49, 126];
  }

  lemma PasteAt(t: Table, b: seq<Byte>, y: seq<Byte>, n: nat, more: bool)
    requires b == [27, 91, 50, 48, 48, 126] + y && n <= |y| && IndexOf(y, PASTE_END, 0) == Some(n)
    ensures Detect(t, b, more) == Found(12 + n, Paste(PasteRunes(y[..n])))
  {
    hide PasteRunes, Longest, CsiEnd, DetectPlain, SgrEnd, IndexOf;
    MouseIsNoPaste(b);
    assert b[6..] == y && PASTE_START <= b;
  }

  lemma FirstMarker(y: seq<Byte>, n: nat)
    requires At(y, PASTE_END, n) && forall k: nat :: k < n ==> !At(y, PASTE_END, k)
    ensures IndexOf(y, PASTE_END, 0) == Some(n)
  {
    hide At;
    var r := IndexOf(y, PASTE_END, 0);
    assert r.Some?;
  }
}
