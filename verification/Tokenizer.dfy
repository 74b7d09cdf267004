/**
 The terminal input reader: how bytes are cut into messages, read after read.
 */
module Tokenizer {
  import opened Common
  import opened Utf8

  const ESC: Byte := 27
  const BUFFER: nat := 256
  const RUNE_ERROR: nat := 0xFFFD

  datatype Key = Key(code: int, alt: bool)

  /** The sequences the reader knows, all of them non-empty and opened by a control
      character, a space or DEL. */
  type Table = map<seq<Byte>, Key>

  ghost predicate TableOk(t: Table) {
    forall k :: k in t ==> k != [] && (k[0] <= 32 || k[0] == 127)
  }

  datatype Msg =
    | MouseX10(body: seq<Byte>)
    | MouseSgr(body: seq<Byte>)
    | Focus
    | Blur
    | Paste(pasted: seq<nat>)
    | KeyPress(key: Key)
    | UnknownCsi(bytes: seq<Byte>)
    | Nul(alt: bool)
    | Runes(runes: seq<nat>, alt: bool)
    | Escape
    | UnknownByte(b: Byte)

  // ----- runes

  datatype Rune = Rune(r: nat, width: nat)

  /** utf8.DecodeRune: a well-formed character, or the error rune and one byte. */
  function DecodeRune(b: seq<Byte>): (d: Rune)
    requires b != []
    ensures 1 <= d.width <= |b| && IsScalar(d.r)
  {
    var b0: int := b[0];
    if b0 < 0x80 then Rune(b0, 1)
    else if 0xC2 <= b0 < 0xE0 && |b| >= 2 && Continues(b[1]) then
      Rune((b0 - 0xC0) * 64 + (b[1] as int - 0x80), 2)
    else if 0xE0 <= b0 < 0xF0 && |b| >= 3 && Continues(b[1]) && Continues(b[2]) then
      Checked((b0 - 0xE0) * 0x1000 + (b[1] as int - 0x80) * 64 + (b[2] as int - 0x80), 0x800, 3)
    else if 0xF0 <= b0 < 0xF5 && |b| >= 4 && Continues(b[1]) && Continues(b[2]) && Continues(b[3]) then
      Checked((b0 - 0xF0) * 0x40000 + (b[1] as int - 0x80) * 0x1000 + (b[2] as int - 0x80) * 64
              + (b[3] as int - 0x80), 0x10000, 4)
    else Rune(RUNE_ERROR, 1)
  }

  function Checked(u: nat, min: nat, width: nat): Rune {
    if u >= min && IsScalar(u) then Rune(u, width) else Rune(RUNE_ERROR, 1)
  }

  lemma DecodeRuneExact(b: seq<Byte>)
    requires b != [] && DecodeRune(b).r != RUNE_ERROR
    ensures Encode1(DecodeRune(b).r) == b[..DecodeRune(b).width]
  {
    var n := DecodeRune(b).width;
    if n == 2 {
      ExactTwo(b);
    } else if n == 3 {
      ExactThree(b);
    } else if n == 4 {
      ExactFour(b);
    }
  }

  lemma ExactTwo(b: seq<Byte>)
    requires b != [] && DecodeRune(b).r != RUNE_ERROR && DecodeRune(b).width == 2
    ensures Encode1(DecodeRune(b).r) == b[..2]
  {
    Sum(0, 0, b[0] as int - 0xC0, b[1] as int - 0x80);
  }

  lemma ExactThree(b: seq<Byte>)
    requires b != [] && DecodeRune(b).r != RUNE_ERROR && DecodeRune(b).width == 3
    ensures Encode1(DecodeRune(b).r) == b[..3]
  {
    Sum(0, b[0] as int - 0xE0, b[1] as int - 0x80, b[2] as int - 0x80);
  }

  lemma ExactFour(b: seq<Byte>)
    requires b != [] && DecodeRune(b).r != RUNE_ERROR && DecodeRune(b).width == 4
    ensures Encode1(DecodeRune(b).r) == b[..4]
  {
    Sum(b[0] as int - 0xF0, b[1] as int - 0x80, b[2] as int - 0x80, b[3] as int - 0x80);
  }

  lemma DecodeRuneCorrect(b: seq<Byte>, u: nat)
    requires IsScalar(u) && Encode1(u) <= b
    ensures b != [] && DecodeRune(b) == Rune(u, |Encode1(u)|)
  {
    Sextets(u);
    var e := Encode1(u);
    assert forall j :: 0 <= j < |e| ==> b[j] == e[j];
  }

  /** A character cut short is no character. */
  lemma DecodeRunePartial(b: seq<Byte>, u: nat)
    requires IsScalar(u) && b != [] && b < Encode1(u)
    ensures DecodeRune(b).r == RUNE_ERROR
  {
    Sextets(u);
    var e := Encode1(u);
    assert forall j :: 0 <= j < |b| ==> b[j] == e[j];
  }

  /** Runes that end a run of text: errors, control characters, DEL and the space. */
  predicate Stops(r: nat) {
    r == RUNE_ERROR || r <= 31 || r == 127 || r == 32
  }

  ghost predicate IsText(us: seq<nat>) {
    forall j :: 0 <= j < |us| ==> IsScalar(us[j]) && !Stops(us[j])
  }

  /** The runes from position i on; only one after an escape character. */
  function RuneRun(b: seq<Byte>, i: nat, one: bool): (us: seq<nat>)
    requires i <= |b|
    ensures IsText(us)
    ensures i + |EncodeAll(us)| <= |b| && b[i..i + |EncodeAll(us)|] == EncodeAll(us)
    decreases |b| - i
  {
    if i == |b| then []
    else
      var d := DecodeRune(b[i..]);
      if Stops(d.r) then []
      else
        var more := if one then [] else RuneRun(b, i + d.width, one);
        RuneRunStep(b, i, d, more);
        [d.r] + more
  }

  lemma RuneRunStep(b: seq<Byte>, i: nat, d: Rune, more: seq<nat>)
    requires i < |b| && d == DecodeRune(b[i..]) && !Stops(d.r) && IsText(more)
    requires i + d.width + |EncodeAll(more)| <= |b|
    requires b[i + d.width..i + d.width + |EncodeAll(more)|] == EncodeAll(more)
    ensures EncodeAll([d.r] + more) == Encode1(d.r) + EncodeAll(more)
    ensures i + |EncodeAll([d.r] + more)| <= |b|
    ensures b[i..i + |EncodeAll([d.r] + more)|] == EncodeAll([d.r] + more)
  {
    hide DecodeRune, Encode1;
    assert ([d.r] + more)[1..] == more;
    DecodeRuneExact(b[i..]);
    assert b[i..][..d.width] == b[i..i + d.width];
    var n := d.width + |EncodeAll(more)|;
    assert b[i..i + n] == b[i..i + d.width] + b[i + d.width..i + n];
  }

  // ----- patterns

  const FOCUS_IN: seq<Byte> := [27, 91, 73]
  const FOCUS_OUT: seq<Byte> := [27, 91, 79]
  const PASTE_START: seq<Byte> := [27, 91, 50, 48, 48, 126]
  const PASTE_END: seq<Byte> := [27, 91, 50, 48, 49, 126]

  /** The end of the bytes between lo and hi that start at i. */
  function SkipRange(b: seq<Byte>, i: nat, lo: Byte, hi: Byte): (e: nat)
    requires i <= |b|
    ensures i <= e <= |b|
    decreases |b| - i
  {
    if i < |b| && lo <= b[i] <= hi then SkipRange(b, i + 1, lo, hi) else i
  }

  /** unknownCSIRe: ESC [, parameters, intermediates, one final byte. The three classes
      are disjoint, so there is at most one match. */
  function CsiEnd(b: seq<Byte>): (r: Option<nat>)
    ensures r.Some? ==> 3 <= r.value <= |b|
  {
    if !([27, 91] <= b) then None
    else
      var q := SkipRange(b, SkipRange(b, 2, 0x30, 0x3F), 0x20, 0x2F);
      if q < |b| && 0x40 <= b[q] <= 0x7E then Some(q + 1) else None
  }

  /** Digits from i on, then the byte `stop`. */
  function Number(b: seq<Byte>, i: nat, stop: set<Byte>): (r: Option<nat>)
    requires i <= |b|
    ensures r.Some? ==> i < r.value <= |b|
  {
    var d := SkipRange(b, i, 48, 57);
    if d > i && d < |b| && b[d] in stop then Some(d + 1) else None
  }

  /** mouseSGRRegex, at position i: three numbers, the last one closed by M or m. */
  function SgrAt(b: seq<Byte>, i: nat): (r: Option<nat>)
    requires i <= |b|
    ensures r.Some? ==> i < r.value <= |b|
  {
    var n1 := Number(b, i, {59});
    if n1.None? then None
    else
      var n2 := Number(b, n1.value, {59});
      if n2.None? then None else Number(b, n2.value, {77, 109})
  }

  /** mouseSGRRegex, searched for: where the first match ends. */
  function SgrEnd(b: seq<Byte>, i: nat): (r: Option<nat>)
    requires i <= |b|
    ensures r.Some? ==> 0 < r.value <= |b|
    decreases |b| - i
  {
    if SgrAt(b, i).Some? then SgrAt(b, i)
    else if i == |b| then None
    else SgrEnd(b, i + 1)
  }

  predicate At(b: seq<Byte>, pat: seq<Byte>, k: nat) {
    k + |pat| <= |b| && b[k..k + |pat|] == pat
  }

  /** bytes.Index, from position k on. */
  function IndexOf(b: seq<Byte>, pat: seq<Byte>, k: nat): (r: Option<nat>)
    requires k <= |b|
    ensures r.Some? ==> k <= r.value && At(b, pat, r.value) && forall j: nat :: k <= j < r.value ==> !At(b, pat, j)
    ensures r.None? ==> forall j: nat :: k <= j ==> !At(b, pat, j)
    decreases |b| - k
  {
    if At(b, pat, k) then Some(k) else if k == |b| then None else IndexOf(b, pat, k + 1)
  }

  /** All runes of a paste; errors are left out. */
  function PasteRunes(b: seq<Byte>): seq<nat> {
    if b == [] then []
    else
      var d := DecodeRune(b);
      (if d.r != RUNE_ERROR then [d.r] else []) + PasteRunes(b[d.width..])
  }

  /** The longest beginning of b, of at most n bytes, that the table knows. */
  function Longest(t: Table, b: seq<Byte>, n: nat): (r: Option<nat>)
    requires n <= |b|
    ensures r.Some? ==> r.value <= n && b[..r.value] in t
    ensures r.Some? ==> forall j :: r.value < j <= n ==> b[..j] !in t
    ensures r.None? ==> forall j :: 0 <= j <= n ==> b[..j] !in t
  {
    if b[..n] in t then Some(n) else if n == 0 then None else Longest(t, b, n - 1)
  }

  // ----- one message

  /** How many bytes a message takes; nothing if more input is needed. */
  datatype Found = Found(width: nat, msg: Msg) | NeedMore

  predicate OpenPaste(b: seq<Byte>) {
    PASTE_START <= b && IndexOf(b[6..], PASTE_END, 0).None?
  }

  function DetectMouse(b: seq<Byte>): Option<Found> {
    if |b| < 6 || b[0] != ESC || b[1] != 91 then None
    else if b[2] == 77 then Some(Found(6, MouseX10(b[3..6])))
    else if b[2] == 60 && SgrEnd(b[3..], 0).Some? then
      var e := SgrEnd(b[3..], 0).value;
      Some(Found(3 + e, MouseSgr(b[3..3 + e])))
    else None
  }

  function DetectFocus(b: seq<Byte>): Option<Found> {
    if b == FOCUS_IN then Some(Found(3, Focus))
    else if b == FOCUS_OUT then Some(Found(3, Blur))
    else None
  }

  function DetectPaste(b: seq<Byte>): Option<Found> {
    if !(PASTE_START <= b) then None
    else
      var idx := IndexOf(b[6..], PASTE_END, 0);
      if idx.None? then Some(NeedMore)
      else Some(Found(6 + idx.value + 6, Paste(PasteRunes(b[6..][..idx.value]))))
  }

  function DetectSequence(t: Table, b: seq<Byte>): Option<Found> {
    var n := Longest(t, b, |b|);
    if n.Some? then Some(Found(n.value, KeyPress(t[b[..n.value]])))
    else
      var e := CsiEnd(b);
      if e.Some? then Some(Found(e.value, UnknownCsi(b[..e.value]))) else None
  }

  /** NUL, a run of text, a lone escape character, or a byte nobody knows. */
  function DetectPlain(b: seq<Byte>, more: bool): Found
    requires b != []
  {
    var alt := b[0] == ESC;
    var i := if alt then 1 else 0;
    if i < |b| && b[i] == 0 then Found(i + 1, Nul(alt))
    else
      var us := RuneRun(b, i, alt);
      var e := i + |EncodeAll(us)|;
      if e == |b| && more then NeedMore
      else if us != [] then Found(e, Runes(us, alt))
      else if alt && |b| == 1 then Found(1, Escape)
      else Found(1, UnknownByte(b[0]))
  }

  /** detectOneMsg */
  function Detect(t: Table, b: seq<Byte>, more: bool): Found
    requires b != []
  {
    var m := DetectMouse(b);
    var f := DetectFocus(b);
    var p := DetectPaste(b);
    var s := DetectSequence(t, b);
    if m.Some? then m.value
    else if f.Some? then f.value
    else if p.Some? then p.value
    else if s.Some? then s.value
    else DetectPlain(b, more)
  }

  /** A message takes at least one byte and no more than there are. Waiting happens on an
      open paste, or when more data may follow. */
  lemma WidthOk(t: Table, b: seq<Byte>, more: bool)
    requires TableOk(t) && b != []
    ensures Detect(t, b, more).Found? ==> 1 <= Detect(t, b, more).width <= |b|
    ensures OpenPaste(b) ==> Detect(t, b, more).NeedMore?
    ensures Detect(t, b, more).NeedMore? && !OpenPaste(b) ==> more && Detect(t, b, false).Found?
  {
    hide IndexOf, PasteRunes, RuneRun, EncodeAll, SgrEnd, CsiEnd;
    MouseIsNoPaste(b);
    PlainWidth(b, more);
    if OpenPaste(b) {
      assert DetectPaste(b) == Some(NeedMore);
    }
  }

  lemma MouseIsNoPaste(b: seq<Byte>)
    ensures PASTE_START <= b ==> DetectMouse(b).None? && DetectFocus(b).None?
  {
  }

  lemma PlainWidth(b: seq<Byte>, more: bool)
    requires b != []
    ensures DetectPlain(b, more).Found? ==> 1 <= DetectPlain(b, more).width <= |b|
    ensures DetectPlain(b, more).NeedMore? ==> more
  {
    hide Encode1;
    var i := if b[0] == ESC then 1 else 0;
    var us := RuneRun(b, i, b[0] == ESC);
    if us != [] {
      assert |EncodeAll(us)| >= |Encode1(us[0])| >= 1 by { EncodeNonEmpty(us[0]); }
    }
  }

  lemma EncodeNonEmpty(u: nat)
    requires IsScalar(u)
    ensures 1 <= |Encode1(u)| <= 4
  {
  }

  /** The other case of waiting: all of b, after an escape character, is text. */
  lemma WaitsOnText(t: Table, b: seq<Byte>, more: bool)
    requires b != [] && Detect(t, b, more).NeedMore? && !OpenPaste(b)
    ensures exists us :: IsText(us) && b == (if b[0] == ESC then [ESC] else []) + EncodeAll(us)
  {
    hide IndexOf, PasteRunes, EncodeAll, SgrEnd, CsiEnd, Longest, IsText;
    var i := if b[0] == ESC then 1 else 0;
    var us := RuneRun(b, i, b[0] == ESC);
    assert IsText(us) && b == b[..i] + b[i..];
  }

  /** A run of text is what its bytes encode: nothing dropped, nothing made up. */
  lemma RunesAreTheBytes(t: Table, b: seq<Byte>, more: bool)
    requires b != [] && Detect(t, b, more).Found? && Detect(t, b, more).msg.Runes?
    ensures var f := Detect(t, b, more);
      && f.width <= |b| && IsText(f.msg.runes) && f.msg.runes != []
      && b[..f.width] == (if f.msg.alt then [ESC] else []) + EncodeAll(f.msg.runes)
  {
    hide IndexOf, PasteRunes, EncodeAll, SgrEnd, CsiEnd, Longest;
    var i := if b[0] == ESC then 1 else 0;
    var us := RuneRun(b, i, b[0] == ESC);
    var e := i + |EncodeAll(us)|;
    assert b[..e] == b[..i] + b[i..e];
  }

  // ----- one read

  /** A message and the bytes it took. */
  datatype Token = Token(bytes: seq<Byte>, msg: Msg)

  datatype Cut = Cut(tokens: seq<Token>, left: seq<Byte>)

  /** What the inner loop makes of the bytes at hand. */
  function CutAll(t: Table, b: seq<Byte>, more: bool): Cut
    requires TableOk(t)
    decreases |b|
  {
    if b == [] then Cut([], [])
    else
      WidthOk(t, b, more);
      match Detect(t, b, more)
      case NeedMore => Cut([], b)
      case Found(w, msg) =>
        var r := CutAll(t, b[w..], more);
        Cut([Token(b[..w], msg)] + r.tokens, r.left)
  }

  /** One turn of the outer loop. */
  function OneRead(t: Table, left: seq<Byte>, chunk: seq<Byte>): Cut
    requires TableOk(t)
  {
    CutAll(t, left + chunk, |chunk| == BUFFER)
  }

  function Bytes(ts: seq<Token>): seq<Byte> {
    if ts == [] then [] else ts[0].bytes + Bytes(ts[1..])
  }

  lemma {:induction false} BytesConcat(a: seq<Token>, b: seq<Token>)
    ensures Bytes(a + b) == Bytes(a) + Bytes(b)
  {
    if a == [] {
      assert a + b == b;
    } else {
      assert (a + b)[1..] == a[1..] + b;
      BytesConcat(a[1..], b);
    }
  }

  /** One turn of the inner loop. */
  lemma CutStep(t: Table, b: seq<Byte>, more: bool)
    requires TableOk(t) && b != []
    ensures Detect(t, b, more).NeedMore? ==> CutAll(t, b, more) == Cut([], b)
    ensures Detect(t, b, more).Found? ==>
      var w, msg := Detect(t, b, more).width, Detect(t, b, more).msg;
      && 1 <= w <= |b| && CutAll(t, b, more).left == CutAll(t, b[w..], more).left
      && CutAll(t, b, more).tokens == [Token(b[..w], msg)] + CutAll(t, b[w..], more).tokens
  {
    hide Detect, TableOk;
    WidthOk(t, b, more);
  }

  ghost predicate NoneEmpty(ts: seq<Token>) {
    forall k :: 0 <= k < |ts| ==> ts[k].bytes != []
  }

  lemma AddToken(tok: Token, ts: seq<Token>, left: seq<Byte>)
    ensures Bytes([tok] + ts) + left == tok.bytes + (Bytes(ts) + left)
    ensures tok.bytes != [] && NoneEmpty(ts) ==> NoneEmpty([tok] + ts)
  {
    assert ([tok] + ts)[1..] == ts;
  }

  /** The tokens tile the input, and only the bytes carried over are left. */
  lemma {:induction false} CutTiles(t: Table, b: seq<Byte>, more: bool)
    requires TableOk(t)
    ensures var r := CutAll(t, b, more);
      && Bytes(r.tokens) + r.left == b && NoneEmpty(r.tokens)
      && (r.left != [] ==> Detect(t, r.left, more).NeedMore?)
    decreases |b|
  {
    hide *;
    NoBytes();
    if b == [] {
      CutNothing(t, more);
    } else {
      CutStep(t, b, more);
      var d := Detect(t, b, more);
      if d.Found? {
        var x, y := b[..d.width], b[d.width..];
        CutTiles(t, y, more);
        var r := CutAll(t, y, more);
        AddToken(Token(x, d.msg), r.tokens, r.left);
        assert x + y == b;
      }
    }
  }

  lemma CutNothing(t: Table, more: bool)
    requires TableOk(t)
    ensures CutAll(t, [], more) == Cut([], [])
  {
  }

  lemma NoBytes()
    ensures Bytes([]) == [] && NoneEmpty([])
  {
  }

  // ----- every sequence of reads

  function Joined(chunks: seq<seq<Byte>>): seq<Byte> {
    if chunks == [] then [] else chunks[0] + Joined(chunks[1..])
  }

  /** All reads, one after the other, from the bytes carried over. */
  function AllReads(t: Table, left: seq<Byte>, chunks: seq<seq<Byte>>): Cut
    requires TableOk(t)
    decreases |chunks|
  {
    if chunks == [] then Cut([], left)
    else
      var r := OneRead(t, left, chunks[0]);
      var more := AllReads(t, r.left, chunks[1..]);
      Cut(r.tokens + more.tokens, more.left)
  }

  lemma ReadTiles(t: Table, left: seq<Byte>, chunk: seq<Byte>)
    requires TableOk(t)
    ensures Bytes(OneRead(t, left, chunk).tokens) + OneRead(t, left, chunk).left == left + chunk
    ensures NoneEmpty(OneRead(t, left, chunk).tokens)
  {
    CutTiles(t, left + chunk, |chunk| == BUFFER);
  }

  /** For every sequence of reads the messages tile the whole input in order, none empty. */
  lemma {:induction false} ReadsTile(t: Table, left: seq<Byte>, chunks: seq<seq<Byte>>)
    requires TableOk(t)
    ensures var r := AllReads(t, left, chunks);
      Bytes(r.tokens) + r.left == left + Joined(chunks) && NoneEmpty(r.tokens)
    decreases |chunks|
  {
    hide OneRead, Bytes, TableOk;
    if chunks != [] {
      var c := OneRead(t, left, chunks[0]);
      ReadTiles(t, left, chunks[0]);
      ReadsTile(t, c.left, chunks[1..]);
      var m := AllReads(t, c.left, chunks[1..]);
      BytesConcat(c.tokens, m.tokens);
      assert Bytes(c.tokens) + Bytes(m.tokens) + m.left == Bytes(c.tokens) + (Bytes(m.tokens) + m.left);
      assert Bytes(c.tokens) + (c.left + Joined(chunks[1..])) == Bytes(c.tokens) + c.left + Joined(chunks[1..]);
      assert left + Joined(chunks) == left + chunks[0] + Joined(chunks[1..]);
    } else {
      NoBytes();
    }
  }

  /** After a read that did not fill the buffer nothing waits but an open paste. */
  lemma ShortReadSettles(t: Table, left: seq<Byte>, chunk: seq<Byte>)
    requires TableOk(t) && |chunk| != BUFFER
    ensures OneRead(t, left, chunk).left == [] || OpenPaste(OneRead(t, left, chunk).left)
  {
    hide Detect, OpenPaste;
    var r := OneRead(t, left, chunk);
    CutTiles(t, left + chunk, false);
    if r.left != [] {
      WidthOk(t, r.left, false);
    }
  }

  // ----- pastes

  /** The text of a paste as the reader keeps it. */
  function Keep(us: seq<nat>): seq<nat> {
    if us == [] then [] else (if us[0] != RUNE_ERROR then [us[0]] else []) + Keep(us[1..])
  }

  ghost predicate AllScalar(us: seq<nat>) {
    forall j :: 0 <= j < |us| ==> IsScalar(us[j])
  }

  lemma {:induction false} PasteText(us: seq<nat>)
    requires AllScalar(us)
    ensures PasteRunes(EncodeAll(us)) == Keep(us)
  {
    hide DecodeRune, Encode1;
    if us != [] {
      var e, more := Encode1(us[0]), EncodeAll(us[1..]);
      EncodeNonEmpty(us[0]);
      DecodeRuneCorrect(e + more, us[0]);
      assert (e + more)[|e|..] == more;
      PasteText(us[1..]);
    }
  }

  /** Text in which the end marker does not occur. */
  ghost predicate Pastable(us: seq<nat>) {
    AllScalar(us) && IndexOf(EncodeAll(us), PASTE_END, 0).None?
  }

  /** The end marker cannot straddle the end of the text: it starts with its only ESC. */
  lemma MarkerAt(x: seq<Byte>, y: seq<Byte>, k: nat)
    requires At(x + PASTE_END + y, PASTE_END, k) && k < |x|
    ensures At(x, PASTE_END, k)
  {
    var b := x + PASTE_END + y;
    forall j | 0 <= j < 6 ensures b[k + j] == PASTE_END[j] {
      assert b[k..k + 6][j] == b[k + j];
    }
    assert b[k + (|x| - k)] == ESC;
    assert |x| - k >= 6;
    assert b[k..k + 6] == x[k..k + 6];
  }

  lemma MarkerFirst(x: seq<Byte>, y: seq<Byte>)
    requires IndexOf(x, PASTE_END, 0).None?
    ensures IndexOf(x + PASTE_END + y, PASTE_END, 0) == Some(|x|)
  {
    hide At, IndexOf;
    var b := x + PASTE_END + y;
    assert At(b, PASTE_END, |x|) by { Marked(x, y); }
    var r := IndexOf(b, PASTE_END, 0);
    if r.value < |x| {
      MarkerAt(x, y, r.value);
    }
  }

  lemma Marked(x: seq<Byte>, y: seq<Byte>)
    ensures At(x + PASTE_END + y, PASTE_END, |x|)
  {
  }

  /** No marker yet in a part of a paste. */
  lemma MarkerLater(x: seq<Byte>, b: seq<Byte>)
    requires IndexOf(x, PASTE_END, 0).None? && b < x + PASTE_END
    ensures IndexOf(b, PASTE_END, 0).None?
  {
    hide At, IndexOf;
    var r := IndexOf(b, PASTE_END, 0);
    if r.Some? {
      AtPrefix(b, x + PASTE_END + [], r.value);
      MarkerFirst(x, []);
      AtFits(b, r.value);
    }
  }

  lemma AtPrefix(a: seq<Byte>, b: seq<Byte>, k: nat)
    requires At(a, PASTE_END, k) && a <= b
    ensures At(b, PASTE_END, k)
  {
    assert a[k..k + 6] == b[k..k + 6];
  }

  lemma AtFits(a: seq<Byte>, k: nat)
    requires At(a, PASTE_END, k)
    ensures k + 6 <= |a|
  {
  }

  function PasteOf(us: seq<nat>): seq<Byte>
    requires AllScalar(us)
  {
    PASTE_START + EncodeAll(us) + PASTE_END
  }

  /** A paste arrives as one message that holds its text, whatever follows it. */
  lemma PasteArrives(t: Table, us: seq<nat>, rest: seq<Byte>, more: bool)
    requires Pastable(us)
    ensures Detect(t, PasteOf(us) + rest, more) == Found(|PasteOf(us)|, Paste(Keep(us)))
  {
    hide IndexOf, EncodeAll, PasteRunes, DetectSequence, DetectPlain;
    var b, x := PasteOf(us) + rest, EncodeAll(us);
    assert b[6..] == x + PASTE_END + rest;
    assert PASTE_START <= b;
    MouseIsNoPaste(b);
    MarkerFirst(x, rest);
    assert b[6..][..|x|] == x;
    PasteText(us);
  }

  /** A paste that has begun is waited for. */
  lemma PasteWaits(us: seq<nat>, b: seq<Byte>)
    requires Pastable(us) && b < PasteOf(us) && |b| >= 6
    ensures OpenPaste(b)
  {
    hide IndexOf, EncodeAll;
    assert PASTE_START <= b by {
      assert b[..6] == PasteOf(us)[..6];
    }
    assert PasteOf(us)[6..] == EncodeAll(us) + PASTE_END;
    assert b[6..] < EncodeAll(us) + PASTE_END;
    MarkerLater(EncodeAll(us), b[6..]);
  }

  /** How the reader takes the beginning p of a paste, if that is all there is: it waits
      once the opening sequence is there, and before that only at the end of a full buffer,
      on an escape character or on ESC [ that are no keys of their own. */
  lemma PasteBegins(t: Table, us: seq<nat>, p: seq<Byte>, more: bool)
    requires TableOk(t) && Pastable(us) && p != [] && p < PasteOf(us)
    ensures Detect(t, p, more).NeedMore? <==> |p| >= 6 || (more && Undecided(t, p))
  {
    hide Detect, IndexOf, AllScalar, EncodeAll, OpenPaste, TableOk;
    if |p| >= 6 {
      PasteWaits(us, p);
      WidthOk(t, p, more);
    } else {
      assert p == PASTE_START[..|p|] by {
        assert PasteOf(us)[..|p|] == PASTE_START[..|p|];
      }
      ShortBegins(t, |p|, more);
    }
  }

  /** ESC or ESC [, and no key. */
  predicate Undecided(t: Table, p: seq<Byte>) {
    |p| <= 2 && [ESC] !in t && (|p| == 2 ==> [ESC, 91] !in t)
  }

  lemma ShortBegins(t: Table, n: nat, more: bool)
    requires TableOk(t) && 0 < n < 6
    ensures var p := PASTE_START[..n];
      Detect(t, p, more).NeedMore? <==> more && Undecided(t, p)
  {
    hide RuneRun, EncodeAll, IndexOf, PasteRunes, DetectSequence;
    var p := PASTE_START[..n];
    assert p[0] == ESC;
    ShortSequence(t, n);
    ShortRun(n);
  }

  /** No sequence but a key begins like a paste. */
  lemma ShortSequence(t: Table, n: nat)
    requires TableOk(t) && 0 < n < 6
    ensures var p := PASTE_START[..n];
      && (DetectSequence(t, p).Some? ==> DetectSequence(t, p).value.Found?)
      && (n <= 2 ==> (DetectSequence(t, p).None? <==> Undecided(t, p)))
  {
    hide SkipRange;
    var p := PASTE_START[..n];
    if n >= 2 {
      DigitsToEnd(n);
    }
    assert p[..1] == [ESC];
    if n == 2 {
      assert p[..2] == [ESC, 91];
    }
    if n <= 2 && Longest(t, p, n).Some? {
      var k := Longest(t, p, n).value;
      assert p[..k] in t && k > 0;
      assert k == 1 || k == 2;
    }
  }

  lemma DigitsToEnd(n: nat)
    requires 2 <= n < 6
    ensures SkipRange(PASTE_START[..n], 2, 0x30, 0x3F) == n && SkipRange(PASTE_START[..n], n, 0x20, 0x2F) == n
  {
    var p := PASTE_START[..n];
    assert n > 4 ==> SkipRange(p, 5, 0x30, 0x3F) == 5;
    assert n > 3 ==> SkipRange(p, 4, 0x30, 0x3F) == n;
    assert n > 2 ==> SkipRange(p, 3, 0x30, 0x3F) == n;
  }

  lemma ShortRun(n: nat)
    requires 0 < n < 6
    ensures var us := RuneRun(PASTE_START[..n], 1, true);
      us == (if n == 1 then [] else [91]) && |EncodeAll(us)| == |us|
  {
    var p := PASTE_START[..n];
    if n > 1 {
      assert p[1..][0] == 91;
      assert DecodeRune(p[1..]) == Rune(91, 1);
      assert EncodeAll([91]) == [91] + EncodeAll([]);
    }
  }

  // ----- pastes cut into reads

  /** What the reader makes of the bytes r that are left in a read, and of the reads after it. */
  function Onwards(t: Table, r: seq<Byte>, more: bool, chunks: seq<seq<Byte>>): Cut
    requires TableOk(t)
  {
    var c := CutAll(t, r, more);
    var d := AllReads(t, c.left, chunks);
    Cut(c.tokens + d.tokens, d.left)
  }

  function PasteToken(us: seq<nat>): Token
    requires AllScalar(us)
  {
    Token(PasteOf(us), Paste(Keep(us)))
  }

  ghost predicate Begins(c: Cut, tok: Token) {
    c.tokens != [] && c.tokens[0] == tok
  }

  /** Waiting means going on with the next read. */
  lemma WaitThenRead(t: Table, r: seq<Byte>, more: bool, chunks: seq<seq<Byte>>)
    requires TableOk(t) && r != [] && Detect(t, r, more).NeedMore? && chunks != []
    ensures Onwards(t, r, more, chunks) == Onwards(t, r + chunks[0], |chunks[0]| == BUFFER, chunks[1..])
  {
    hide Detect, TableOk;
    CutStep(t, r, more);
    var d := AllReads(t, r, chunks);
    assert [] + d.tokens == d.tokens;
  }

  lemma FoundFirst(t: Table, r: seq<Byte>, more: bool, chunks: seq<seq<Byte>>)
    requires TableOk(t) && r != [] && Detect(t, r, more).Found?
    ensures var w, msg := Detect(t, r, more).width, Detect(t, r, more).msg;
      0 < w <= |r| && Begins(Onwards(t, r, more, chunks), Token(r[..w], msg))
  {
    hide Detect, TableOk;
    CutStep(t, r, more);
  }

  /** With its opening sequence at hand, a paste arrives whole, in any number of reads. */
  lemma {:induction false} PasteContinues(t: Table, us: seq<nat>, after: seq<Byte>, r: seq<Byte>, more: bool,
                                          chunks: seq<seq<Byte>>)
    requires TableOk(t) && Pastable(us) && |r| >= 6 && r + Joined(chunks) == PasteOf(us) + after
    ensures Begins(Onwards(t, r, more, chunks), PasteToken(us))
    decreases |chunks|
  {
    hide Detect, IndexOf, AllScalar, PasteOf, OpenPaste, TableOk, Onwards;
    var n := |PasteOf(us)|;
    if |r| >= n {
      assert r == PasteOf(us) + r[n..] by {
        assert r[..n] == (PasteOf(us) + after)[..n] == PasteOf(us);
      }
      PasteArrives(t, us, r[n..], more);
      FoundFirst(t, r, more, chunks);
      assert r[..n] == PasteOf(us);
    } else {
      assert r == (PasteOf(us) + after)[..|r|] == PasteOf(us)[..|r|];
      PasteWaits(us, r);
      WidthOk(t, r, more);
      assert chunks != [];
      WaitThenRead(t, r, more, chunks);
      assert r + Joined(chunks) == r + chunks[0] + Joined(chunks[1..]);
      PasteContinues(t, us, after, r + chunks[0], |chunks[0]| == BUFFER, chunks[1..]);
    }
  }

  /** The opening sequence is at hand, or an undecided beginning of it ends a full buffer
      and the next read brings the rest of it. */
  ghost predicate Kept(t: Table, r: seq<Byte>, more: bool, chunks: seq<seq<Byte>>) {
    |r| >= 6 || (more && Undecided(t, r) && chunks != [] && |r| + |chunks[0]| >= 6)
  }

  /** A beginning too short to be waited for is taken for something else. */
  lemma PasteBreaks(t: Table, us: seq<nat>, after: seq<Byte>, r: seq<Byte>, more: bool, chunks: seq<seq<Byte>>)
    requires TableOk(t) && Pastable(us) && 0 < |r| < 6 && r + Joined(chunks) == PasteOf(us) + after
    requires !(more && Undecided(t, r))
    ensures !Begins(Onwards(t, r, more, chunks), PasteToken(us))
  {
    hide Detect, IndexOf, AllScalar, EncodeAll, TableOk, Onwards, Undecided;
    assert r == (PasteOf(us) + after)[..|r|] == PasteOf(us)[..|r|];
    PasteBegins(t, us, r, more);
    FoundFirst(t, r, more, chunks);
    var w := Detect(t, r, more).width;
    assert |r[..w]| < |PasteOf(us)|;
  }

  /** A paste whose first byte the cut has reached, with r of it and of what follows left in
      this read, is the next message if and only if Kept holds. */
  lemma PasteNext(t: Table, us: seq<nat>, after: seq<Byte>, r: seq<Byte>, more: bool, chunks: seq<seq<Byte>>)
    requires TableOk(t) && Pastable(us) && r != [] && r + Joined(chunks) == PasteOf(us) + after
    ensures Begins(Onwards(t, r, more, chunks), PasteToken(us)) <==> Kept(t, r, more, chunks)
  {
    hide Detect, IndexOf, AllScalar, EncodeAll, TableOk, Onwards, Undecided;
    if |r| >= 6 {
      PasteContinues(t, us, after, r, more, chunks);
    } else if !(more && Undecided(t, r)) {
      PasteBreaks(t, us, after, r, more, chunks);
    } else {
      assert chunks != [];
      assert r == (PasteOf(us) + after)[..|r|] == PasteOf(us)[..|r|];
      PasteBegins(t, us, r, more);
      WaitThenRead(t, r, more, chunks);
      var r1 := r + chunks[0];
      assert r + Joined(chunks) == r1 + Joined(chunks[1..]);
      if |r1| >= 6 {
        PasteContinues(t, us, after, r1, |chunks[0]| == BUFFER, chunks[1..]);
      } else {
        PasteBreaks(t, us, after, r1, |chunks[0]| == BUFFER, chunks[1..]);
      }
    }
  }

  /** The inner loop, on b, ends a message exactly after n bytes. */
  ghost predicate Reaches(t: Table, b: seq<Byte>, more: bool, n: nat)
    requires TableOk(t)
    decreases n
  {
    n == 0 || (b != [] && Detect(t, b, more).Found? && 0 < Detect(t, b, more).width <= n
               && Detect(t, b, more).width <= |b|
               && Reaches(t, b[Detect(t, b, more).width..], more, n - Detect(t, b, more).width))
  }

  /** The cut of b, from the place after n bytes on. */
  lemma {:induction false} CutFrom(t: Table, b: seq<Byte>, more: bool, n: nat) returns (ts: seq<Token>)
    requires TableOk(t) && n <= |b| && Reaches(t, b, more, n)
    ensures Bytes(ts) == b[..n]
    ensures CutAll(t, b, more).tokens == ts + CutAll(t, b[n..], more).tokens
    ensures CutAll(t, b, more).left == CutAll(t, b[n..], more).left
    decreases n
  {
    hide Detect, TableOk, CutAll;
    NoBytes();
    if n == 0 {
      ts := [];
      assert b[0..] == b;
    } else {
      CutStep(t, b, more);
      var w, msg := Detect(t, b, more).width, Detect(t, b, more).msg;
      var rest := CutFrom(t, b[w..], more, n - w);
      ts := [Token(b[..w], msg)] + rest;
      AddToken(Token(b[..w], msg), rest, []);
      assert b[w..][n - w..] == b[n..] && b[..n] == b[..w] + b[w..][..n - w];
      assert Bytes(ts) == Bytes(ts) + [] && Bytes(rest) + [] == Bytes(rest);
      assert ts + CutAll(t, b[n..], more).tokens == [Token(b[..w], msg)] + (rest + CutAll(t, b[n..], more).tokens);
    }
  }

  /** A paste in a stream: x comes before it, `after` follows. If the cut arrives at its
      first byte, in the read of `chunk`, then it comes out as one message, after those
      for x, if and only if Kept holds: whatever the other reads are. */
  lemma PasteSurvivesReads(t: Table, us: seq<nat>, x: seq<Byte>, after: seq<Byte>, r: seq<Byte>,
                           left: seq<Byte>, chunk: seq<Byte>, chunks: seq<seq<Byte>>) returns (ts: seq<Token>)
    requires TableOk(t) && Pastable(us) && r != []
    requires left + chunk == x + r && r + Joined(chunks) == PasteOf(us) + after
    requires Reaches(t, x + r, |chunk| == BUFFER, |x|)
    ensures Bytes(ts) == x && ts <= AllReads(t, left, [chunk] + chunks).tokens
    ensures ts + [PasteToken(us)] <= AllReads(t, left, [chunk] + chunks).tokens
      <==> Kept(t, r, |chunk| == BUFFER, chunks)
  {
    hide Detect, TableOk, CutAll, Reaches, Kept, PasteOf, AllScalar, IndexOf;
    var more, b := |chunk| == BUFFER, x + r;
    ts := CutFrom(t, b, more, |x|);
    assert b[|x|..] == r && b[..|x|] == x;
    PasteNext(t, us, after, r, more, chunks);
    assert ([chunk] + chunks)[1..] == chunks;
    var on := Onwards(t, r, more, chunks).tokens;
    var all := AllReads(t, left, [chunk] + chunks).tokens;
    assert all == ts + on;
    Follows(ts, on, PasteToken(us));
  }

  lemma Follows(ts: seq<Token>, on: seq<Token>, tok: Token)
    ensures ts + [tok] <= ts + on <==> on != [] && on[0] == tok
  {
    if on != [] && on[0] == tok {
      assert (ts + on)[..|ts| + 1] == ts + [tok];
    }
    if ts + [tok] <= ts + on {
      assert (ts + on)[|ts|] == (ts + [tok])[|ts|];
    }
  }

  /** Text and then an escape character: the text is one message. */
  lemma {:induction false} RunThenEscape(b: seq<Byte>, i: nat, us: seq<nat>)
    requires i <= |b| && IsText(us) && AllScalar(us) && b[i..] == EncodeAll(us) + [ESC]
    ensures RuneRun(b, i, false) == us
    decreases |us|
  {
    hide DecodeRune, Encode1, RuneRun, EncodeAll;
    RuneRunFirst(b, i);
    EncodeAllFirst(us);
    if us == [] {
      assert b[i..] == [ESC];
      EscapeStops();
    } else {
      var e, more := Encode1(us[0]), EncodeAll(us[1..]);
      assert e + more + [ESC] == e + (more + [ESC]);
      TextPrefix(b, i, e, more + [ESC]);
      DecodeRuneCorrect(b[i..], us[0]);
      RunThenEscape(b, i + |e|, us[1..]);
      assert us == [us[0]] + us[1..];
    }
  }

  lemma TextPrefix(b: seq<Byte>, i: nat, e: seq<Byte>, rest: seq<Byte>)
    requires i <= |b| && b[i..] == e + rest
    ensures i + |e| <= |b| && e <= b[i..] && b[i + |e|..] == rest
  {
    assert b[i..][|e|..] == b[i + |e|..];
  }

  lemma EscapeStops()
    ensures Stops(DecodeRune([ESC]).r)
  {
  }

  /** A paste whose opening sequence is cut and that arrives all the same: a buffer filled
      by text and the escape character, and the rest of the paste in the next read. */
  lemma CutOpeningKept(t: Table, text: seq<nat>, us: seq<nat>)
    requires TableOk(t) && [ESC] !in t && Pastable(us)
    requires IsText(text) && AllScalar(text) && |EncodeAll(text)| == BUFFER - 1
    ensures var chunks := [EncodeAll(text) + [ESC], PasteOf(us)[1..]];
      [Token(EncodeAll(text), Runes(text, false)), PasteToken(us)] <= AllReads(t, [], chunks).tokens
  {
    hide Detect, TableOk, PasteOf, IndexOf, EncodeAll, IsText, AllReads, NoneEmpty;
    PasteSize(us);
    var x, r, rest := EncodeAll(text), [ESC], PasteOf(us)[1..];
    TextFirst(t, text);
    assert x + r == [] + (x + r) && (x + r)[|x|..] == r;
    assert Joined([rest]) == rest && r + rest == PasteOf(us) + [] by { OneChunk(rest); }
    var ts := PasteSurvivesReads(t, us, x, [], r, [], x + r, [rest]);
    var all := AllReads(t, [], [x + r] + [rest]).tokens;
    assert [x + r] + [rest] == [x + r, rest];
    TextToken(t, text, [rest]);
    ReadsTile(t, [], [x + r] + [rest]);
    OnlyToken(ts, all, Token(x, Runes(text, false)));
  }

  lemma PasteSize(us: seq<nat>)
    requires AllScalar(us)
    ensures |PasteOf(us)| >= 12 && PasteOf(us)[0] == ESC && PasteOf(us) == [ESC] + PasteOf(us)[1..]
  {
    hide EncodeAll;
  }

  lemma OneChunk(c: seq<Byte>)
    ensures Joined([c]) == c
  {
    assert [c][1..] == [];
  }

  lemma TextFirst(t: Table, text: seq<nat>)
    requires TableOk(t) && IsText(text) && AllScalar(text) && EncodeAll(text) != []
    ensures var b := EncodeAll(text) + [ESC];
      && Detect(t, b, true) == Found(|EncodeAll(text)|, Runes(text, false))
      && Reaches(t, b, true, |EncodeAll(text)|)
  {
    hide Encode1, RuneRun, IsText, Detect, EncodeAll;
    var b := EncodeAll(text) + [ESC];
    EncodeAllFirst(text);
    assert text != [];
    TextAt(text, 0);
    FirstByte(text[0]);
    assert b[0] == Encode1(text[0])[0];
    assert b[0..] == b;
    RunThenEscape(b, 0, text);
    TextIsPlain(t, b, true);
  }

  /** The first message of that read is the text. */
  lemma TextToken(t: Table, text: seq<nat>, chunks: seq<seq<Byte>>)
    requires TableOk(t) && IsText(text) && AllScalar(text) && |EncodeAll(text)| == BUFFER - 1
    ensures var all := AllReads(t, [], [EncodeAll(text) + [ESC]] + chunks).tokens;
      all != [] && all[0] == Token(EncodeAll(text), Runes(text, false))
  {
    hide Detect, TableOk, EncodeAll, IsText;
    var b := EncodeAll(text) + [ESC];
    TextFirst(t, text);
    CutStep(t, b, true);
    assert [] + b == b && b[..|EncodeAll(text)|] == EncodeAll(text);
    assert ([b] + chunks)[0] == b;
  }

  /** Tokens that take exactly the bytes of the first one are that one. */
  lemma OnlyToken(ts: seq<Token>, all: seq<Token>, tok: Token)
    requires ts <= all && all != [] && all[0] == tok && Bytes(ts) == tok.bytes != [] && NoneEmpty(all)
    ensures ts == [tok]
  {
    NoBytes();
    assert ts != [] && ts[0] == tok;
    var rest := ts[1..];
    assert ts == [tok] + rest;
    AddToken(tok, rest, []);
    assert Bytes(rest) == [];
    if rest != [] {
      FirstBytes(rest, all);
    }
  }

  lemma FirstBytes(rest: seq<Token>, all: seq<Token>)
    requires rest != [] && all != [] && rest <= all[1..] && NoneEmpty(all)
    ensures Bytes(rest) != []
  {
    assert rest[0] == all[1];
  }

  /** A paste that arrives in one read and is lost: after an escape character, if ESC ESC is
      a key, that key takes its first byte. */
  lemma EscapeSpoilsPaste(t: Table, us: seq<nat>, rest: seq<Byte>, more: bool)
    requires TableOk(t) && Pastable(us) && [ESC, ESC] in t
    requires var b := [ESC] + PasteOf(us) + rest; forall j :: 2 < j <= |b| ==> b[..j] !in t
    ensures var b := [ESC] + PasteOf(us) + rest;
      && Detect(t, b, more) == Found(2, KeyPress(t[[ESC, ESC]]))
      && !Reaches(t, b, more, 1)
  {
    hide EncodeAll, IndexOf, PasteRunes, CsiEnd, DetectPlain, SgrEnd;
    var b := [ESC] + PasteOf(us) + rest;
    PasteSize(us);
    assert b[0] == ESC && b[1] == ESC && b[..2] == [ESC, ESC];
  }

  // ----- text cut by the end of the buffer

  /** How many of the runes fit whole into n bytes. */
  function Whole(us: seq<nat>, n: nat): (k: nat)
    requires AllScalar(us)
    ensures k <= |us| && |EncodeAll(us[..k])| <= n
  {
    if us == [] || |Encode1(us[0])| > n then 0
    else
      var k := 1 + Whole(us[1..], n - |Encode1(us[0])|);
      assert us[..k][1..] == us[1..][..k - 1];
      k
  }

  /** The n-th byte starts a new character. */
  ghost predicate Boundary(us: seq<nat>, n: nat)
    requires AllScalar(us)
  {
    exists k :: 0 <= k <= |us| && |EncodeAll(us[..k])| == n
  }

  lemma RuneRunFirst(b: seq<Byte>, i: nat)
    requires i <= |b|
    ensures i == |b| ==> RuneRun(b, i, false) == []
    ensures i < |b| ==>
      var d := DecodeRune(b[i..]);
      RuneRun(b, i, false) == if Stops(d.r) then [] else [d.r] + RuneRun(b, i + d.width, false)
  {
    hide DecodeRune, EncodeAll, IsText;
  }

  lemma WholeFirst(us: seq<nat>, n: nat)
    requires AllScalar(us) && us != []
    ensures var e := |Encode1(us[0])|;
      us[..Whole(us, n)] == if e > n then [] else [us[0]] + us[1..][..Whole(us[1..], n - e)]
  {
    hide Encode1, EncodeAll;
    var e := |Encode1(us[0])|;
    if e <= n {
      var k := Whole(us[1..], n - e);
      assert us[..1 + k] == [us[0]] + us[1..][..k];
    }
  }

  lemma EncodeAllFirst(us: seq<nat>)
    requires AllScalar(us)
    ensures us == [] ==> EncodeAll(us) == []
    ensures us != [] ==> EncodeAll(us) == Encode1(us[0]) + EncodeAll(us[1..])
  {
    hide Encode1;
  }

  /** The runes found in a beginning of a text: those that are whole. */
  lemma {:induction false} RunOfText(b: seq<Byte>, i: nat, us: seq<nat>)
    requires i <= |b| && IsText(us) && AllScalar(us) && b[i..] <= EncodeAll(us)
    ensures RuneRun(b, i, false) == us[..Whole(us, |b| - i)]
    decreases |us|
  {
    hide DecodeRune, Encode1, RuneRun, Whole, EncodeAll;
    var n := |b| - i;
    RuneRunFirst(b, i);
    EncodeAllFirst(us);
    if us != [] {
      WholeFirst(us, n);
      var e, more := Encode1(us[0]), EncodeAll(us[1..]);
      if |e| <= n {
        assert b[i..][..|e|] == (e + more)[..|e|] == e;
        DecodeRuneCorrect(b[i..], us[0]);
        assert b[i + |e|..] == b[i..][|e|..] <= more;
        RunOfText(b, i + |e|, us[1..]);
      } else if n > 0 {
        assert b[i..] == (e + more)[..n] == e[..n];
        DecodeRunePartial(b[i..], us[0]);
      }
    }
  }

  lemma {:induction false} WholeIsMost(us: seq<nat>, n: nat, k: nat)
    requires AllScalar(us) && k <= |us| && |EncodeAll(us[..k])| == n
    ensures Whole(us, n) == k
    decreases |us|
  {
    hide Encode1;
    if us != [] {
      EncodeNonEmpty(us[0]);
      if k > 0 {
        assert us[..k][1..] == us[1..][..k - 1];
        WholeIsMost(us[1..], n - |Encode1(us[0])|, k - 1);
      }
    }
  }

  lemma {:induction false} WholeOnly(us: seq<nat>, n: nat)
    requires AllScalar(us)
    ensures Boundary(us, n) <==> |EncodeAll(us[..Whole(us, n)])| == n
  {
    if k :| 0 <= k <= |us| && |EncodeAll(us[..k])| == n {
      WholeIsMost(us, n, k);
    }
  }

  /** No pattern but plain text starts like a character of a text does. */
  lemma TextIsPlain(t: Table, b: seq<Byte>, more: bool)
    requires TableOk(t) && b != [] && b[0] > 32 && b[0] != 127
    ensures Detect(t, b, more) == DetectPlain(b, more)
  {
    hide DetectPlain, PasteRunes, IndexOf;
  }

  lemma FirstByte(u: nat)
    requires IsScalar(u) && !Stops(u)
    ensures |Encode1(u)| > 0 && Encode1(u)[0] > 32 && Encode1(u)[0] != 127
  {
  }

  /** What the reader finds first in the beginning of a text. */
  lemma CutText(t: Table, us: seq<nat>, n: nat)
    requires TableOk(t) && IsText(us) && AllScalar(us) && 0 < n <= |EncodeAll(us)|
    ensures var b, whole := EncodeAll(us)[..n], us[..Whole(us, n)];
      Detect(t, b, true) ==
        if |EncodeAll(whole)| == n then NeedMore
        else if whole != [] then Found(|EncodeAll(whole)|, Runes(whole, false))
        else Found(1, UnknownByte(b[0]))
  {
    hide Encode1, RuneRun, IsText;
    var b := EncodeAll(us)[..n];
    assert us != [];
    assert IsScalar(us[0]) && !Stops(us[0]) by { TextAt(us, 0); }
    FirstByte(us[0]);
    assert b[0] == EncodeAll(us)[0] == Encode1(us[0])[0];
    assert b[0..] == b;
    RunOfText(b, 0, us);
    TextIsPlain(t, b, true);
  }

  lemma TextAt(us: seq<nat>, j: nat)
    requires IsText(us) && j < |us|
    ensures IsScalar(us[j]) && !Stops(us[j])
  {
  }

  ghost predicate LosesBytes(c: Cut) {
    exists k :: 0 <= k < |c.tokens| && c.tokens[k].msg.UnknownByte?
  }

  /** A full buffer of text is kept for the next read if and only if it ends between two
      characters; a character that the end of the buffer cuts is reported byte by byte. */
  lemma FullBuffer(t: Table, us: seq<nat>, n: nat)
    requires TableOk(t) && IsText(us) && AllScalar(us) && 0 < n <= |EncodeAll(us)|
    ensures Boundary(us, n) ==> CutAll(t, EncodeAll(us)[..n], true) == Cut([], EncodeAll(us)[..n])
    ensures !Boundary(us, n) ==> LosesBytes(CutAll(t, EncodeAll(us)[..n], true))
  {
    hide Detect, IsText, Encode1, Boundary, Whole;
    WholeOnly(us, n);
    CutText(t, us, n);
    var b, k := EncodeAll(us)[..n], Whole(us, n);
    var whole := us[..k];
    var w := |EncodeAll(whole)|;
    if w < n {
      if whole == [] {
        assert CutAll(t, b, true).tokens[0].msg.UnknownByte?;
      } else {
        TextSplit(us, k);
        var us1 := us[k..];
        var b1 := b[w..];
        assert b1 == EncodeAll(us1)[..n - w];
        WholeRest(us, n);
        assert us1[..0] == [] && EncodeAll([]) == [];
        CutText(t, us1, n - w);
        var c := CutAll(t, b1, true);
        assert c.tokens[0].msg.UnknownByte?;
        assert CutAll(t, b, true).tokens[1] == c.tokens[0];
      }
    }
  }

  lemma {:induction false} TextSplit(us: seq<nat>, k: nat)
    requires AllScalar(us) && IsText(us) && k <= |us|
    ensures EncodeAll(us) == EncodeAll(us[..k]) + EncodeAll(us[k..]) && IsText(us[k..])
  {
    hide Encode1;
    if k > 0 {
      assert us[..k][1..] == us[1..][..k - 1] && us[k..] == us[1..][k - 1..];
      TextSplit(us[1..], k - 1);
    } else {
      assert us[k..] == us;
    }
  }

  /** After the whole runes the next one does not fit. */
  lemma {:induction false} WholeRest(us: seq<nat>, n: nat)
    requires AllScalar(us)
    ensures Whole(us[Whole(us, n)..], n - |EncodeAll(us[..Whole(us, n)])|) == 0
  {
    hide Encode1;
    if us != [] && |Encode1(us[0])| <= n {
      var k := Whole(us, n);
      WholeRest(us[1..], n - |Encode1(us[0])|);
      assert us[..k][1..] == us[1..][..k - 1] && us[k..] == us[1..][k - 1..];
    } else {
      assert us[0..] == us;
    }
  }

  lemma {:induction false} TwoByteRunes(us: seq<nat>, k: nat)
    requires k <= |us| && forall j :: 0 <= j < |us| ==> us[j] == 0xE9
    ensures |EncodeAll(us[..k])| == 2 * k
  {
    if k > 0 {
      assert us[..k][1..] == us[1..][..k - 1];
      TwoByteRunes(us[1..], k - 1);
    }
  }

  /** An input that shows it: the letter a and 128 times U+00E9, cut after 256 bytes. */
  lemma FullBufferExample(t: Table)
    requires TableOk(t)
    ensures var us := [97] + seq(128, _ => 0xE9);
      AllScalar(us) && |EncodeAll(us)| > BUFFER && LosesBytes(OneRead(t, [], EncodeAll(us)[..BUFFER]))
  {
    hide CutAll, LosesBytes, EncodeAll, TableOk;
    var es: seq<nat> := seq(128, _ => 0xE9);
    var us := [97] + es;
    forall k | 0 <= k <= |us| ensures |EncodeAll(us[..k])| == if k == 0 then 0 else 2 * k - 1 {
      OddSize(es, k);
    }
    assert us[..129] == us;
    FullBuffer(t, us, BUFFER);
    assert [] + EncodeAll(us)[..BUFFER] == EncodeAll(us)[..BUFFER];
  }

  lemma OddSize(es: seq<nat>, k: nat)
    requires k <= |es| + 1 && forall j :: 0 <= j < |es| ==> es[j] == 0xE9
    ensures AllScalar([97] + es) && |EncodeAll(([97] + es)[..k])| == if k == 0 then 0 else 2 * k - 1
  {
    hide EncodeAll;
    var us := ([97] + es)[..k];
    EncodeAllFirst(us);
    if k > 0 {
      assert us[0] == 97 && us[1..] == es[..k - 1];
      TwoByteRunes(es, k - 1);
    }
  }
}
