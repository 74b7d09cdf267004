/**
 uv__idna_toascii and its label encoder as the loops of idna.c, writing into a
 bounded buffer. The C code decodes a label's bytes again in every pass; here the
 first pass, which checks them, keeps the code points.
 */
module IdnaHost {
  import opened Common
  import opened Arithmetic
  import opened Punycode
  import opened IdnaLabel
  import opened IdnaRefusal
  import opened Utf8

  // ----- the bounded output buffer

  function Min(a: nat, b: nat): nat { if a < b then a else b }

  /** From d0 on the buffer holds `full`, cut off at its end; d is the write position. */
  ghost predicate Holds(buf: array<Byte>, d0: nat, d: nat, full: seq<Byte>)
    reads buf
  {
    && d0 <= buf.Length && d == Min(d0 + |full|, buf.Length)
    && buf[d0..d] == full[..d - d0]
  }

  /** A guarded write: `if (d < de) *d++ = b`. */
  method Put(buf: array<Byte>, d: nat, b: Byte, ghost d0: nat, ghost full: seq<Byte>) returns (d': nat)
    requires Holds(buf, d0, d, full)
    modifies buf
    ensures Holds(buf, d0, d', full + [b]) && buf[..d0] == old(buf[..d0])
  {
    d' := d;
    if d < buf.Length {
      buf[d] := b;
      d' := d + 1;
    }
  }

  const PREFIX: seq<Byte> := [120, 110, 45, 45]

  method PutPrefix(buf: array<Byte>, d: nat, ghost d0: nat, ghost full: seq<Byte>) returns (d': nat)
    requires Holds(buf, d0, d, full)
    modifies buf
    ensures Holds(buf, d0, d', full + PREFIX) && buf[..d0] == old(buf[..d0])
  {
    d' := Put(buf, d, 120, d0, full);
    d' := Put(buf, d', 110, d0, full + [120]);
    d' := Put(buf, d', 45, d0, full + [120] + [110]);
    d' := Put(buf, d', 45, d0, full + [120] + [110] + [45]);
    assert full + [120] + [110] + [45] + [45] == full + PREFIX;
  }

  /** The digit loop: exactly the variable-length integer, and no wider than 32 bits. */
  method PutDelta(buf: array<Byte>, d: nat, delta: nat, bias: nat, ghost d0: nat, ghost full: seq<Byte>)
    returns (d': nat)
    requires Holds(buf, d0, d, full)
    modifies buf
    ensures Holds(buf, d0, d', full + IntText(delta, 36, bias)) && buf[..d0] == old(buf[..d0])
  {
    hide Quot, Rem, T;
    var k: nat, q: nat := 36, delta;
    var t := T(k, bias);
    ghost var f := full;
    d' := d;
    while q >= t
      invariant t == T(k, bias) && Holds(buf, d0, d', f) && buf[..d0] == old(buf[..d0])
      invariant f + IntText(q, k, bias) == full + IntText(delta, 36, bias)
      decreases q
    {
      var x, y := q - t, 36 - t;
      var b := DigitByte(t + Rem(x, y));
      assert f + IntText(q, k, bias) == f + [b] + IntText(Quot(x, y), k + 36, bias);
      d' := Put(buf, d', b, d0, f);
      f := f + [b];
      q, k := Quot(x, y), k + 36;
      t := T(k, bias);
    }
    d' := Put(buf, d', DigitByte(q), d0, f);
  }

  /** The bias computation as the C code does it, in terms of the new h. */
  method AdaptBias(delta0: nat, h: nat, first: bool) returns (bias: nat)
    requires h > 0
    ensures bias == Adapt(delta0, h, first)
  {
    var delta: nat := delta0 / 2;
    if first {
      delta := delta / 350;
    }
    assert delta == if first then delta0 / 700 else delta0 / 2;
    delta := delta + Quot(delta, h);
    bias := 0;
    while delta > 455
      invariant Scale(delta, bias) == Adapt(delta0, h, first)
      decreases delta
    {
      delta, bias := delta / 35, bias + 36;
    }
    bias := bias + 36 * delta / (delta + 38);
  }

  /** x > ~delta / y holds exactly when delta + x * y does not fit 32 bits. */
  lemma OverflowTest(delta: nat, x: nat, y: nat)
    requires delta <= UINT_MAX && y > 0
    ensures x > Quot(UINT_MAX - delta, y) <==> delta + Times(x, y) > 0xFFFF_FFFF
  {
    hide Times, Quot, Rem;
    var r := UINT_MAX - delta;
    QuotRem(r, y);
    var q := Quot(r, y);
    if x > q {
      NextRow(x, q, Rem(r, y), y);
    } else {
      TimesMono(x, q, y);
    }
  }

  lemma {:induction false} LeftZero(cs: seq<nat>, n: nat, a: nat)
    requires a <= |cs|
    ensures Left(cs, n, 0, a) == 0 <==> forall j :: a <= j < |cs| ==> cs[j] < n
    decreases |cs| - a
  {
    if a < |cs| {
      LeftZero(cs, n, a + 1);
    }
  }

  lemma LeftStep(cs: seq<nat>, n: nat, p: nat)
    requires p < |cs|
    ensures Left(cs, n, p + 1, 0) == Left(cs, n, p, 0) - if cs[p] == n then 1 else 0
  {
    LeftIsRest(cs, n, p, 0);
    LeftIsRest(cs, n, p + 1, 0);
    if cs[p] == n {
      KeptInsert(cs, n, p);
    } else {
      KeptSkip(cs, n, p);
    }
  }

  lemma LeftNext(cs: seq<nat>, n: nat)
    ensures Left(cs, n + 1, 0, 0) == Left(cs, n, |cs|, 0)
  {
    LeftIsRest(cs, n, |cs|, 0);
    LeftIsRest(cs, n + 1, 0, 0);
    KeptSame(cs, n, |cs|, n + 1, 0, 0, |cs|);
  }

  /** The first inner loop. */
  method FindLeast(cs: seq<nat>, n: nat) returns (m: nat)
    requires forall j :: 0 <= j < |cs| ==> cs[j] < UINT_MAX
    ensures Least(cs, n, 0) == if m == UINT_MAX then None else Some(m)
  {
    m := UINT_MAX;
    for p := 0 to |cs|
      invariant m == UINT_MAX || (n <= m && m in cs[..p])
      invariant forall j :: 0 <= j < p && cs[j] >= n ==> m <= cs[j]
    {
      if cs[p] >= n && cs[p] < m {
        m := cs[p];
      }
      assert cs[..p + 1] == cs[..p] + [cs[p]];
    }
    assert cs[..|cs|] == cs[0..] == cs;
  }

  // ----- the label encoder

  /** The scalar variables of the encoding loops. */
  datatype Vars = Vars(delta: nat, bias: nat, h: nat, first: bool, todo: nat)

  function EncOf(v: Vars, text: seq<Byte>): Enc {
    Enc(v.delta, v.bias, v.h, v.first, text)
  }

  /** An entry equal to n: write delta, adapt the bias, count it off. */
  method EmitDelta(v: Vars, buf: array<Byte>, d: nat, ghost text: seq<Byte>, ghost d0: nat, ghost full: seq<Byte>)
    returns (v': Vars, d': nat)
    requires Holds(buf, d0, d, full + text) && v.todo > 0
    modifies buf
    ensures EncOf(v', Emit(EncOf(v, text)).text) == Emit(EncOf(v, text)) && v'.todo == v.todo - 1
    ensures Holds(buf, d0, d', full + Emit(EncOf(v, text)).text) && buf[..d0] == old(buf[..d0])
  {
    hide Adapt, IntText;
    ghost var word := IntText(v.delta, 36, v.bias);
    assert full + text + word == full + (text + word);
    d' := PutDelta(buf, d, v.delta, v.bias, d0, full + text);
    var bias := AdaptBias(v.delta, v.h + 1, v.first);
    v' := Vars(0, bias, v.h + 1, false, v.todo - 1);
  }

  /** The second inner loop: writes the deltas of all entries equal to n. `todo`
      stays the number of entries left, and a failure is the overflow of delta. */
  method ScanPass(cs: seq<nat>, n: nat, v0: Vars, buf: array<Byte>, d: nat,
                  ghost text0: seq<Byte>, ghost d0: nat, ghost full: seq<Byte>)
    returns (ok: bool, v: Vars, d': nat, ghost text: seq<Byte>)
    requires Holds(buf, d0, d, full + text0) && v0.todo == Left(cs, n, 0, 0)
    modifies buf
    ensures Scan(cs, n, 0, EncOf(v0, text0)) == if ok then Some(EncOf(v, text)) else None
    ensures buf[..d0] == old(buf[..d0])
    ensures ok ==> Holds(buf, d0, d', full + text) && v.todo == Left(cs, n, |cs|, 0)
  {
    hide Left, Emit;
    v, d', text := v0, d, text0;
    var p := 0;
    while p < |cs|
      invariant p <= |cs| && Scan(cs, n, p, EncOf(v, text)) == Scan(cs, n, 0, EncOf(v0, text0))
      invariant v.todo == Left(cs, n, p, 0)
      invariant Holds(buf, d0, d', full + text) && buf[..d0] == old(buf[..d0])
    {
      LeftStep(cs, n, p);
      if cs[p] < n {
        if v.delta >= UINT_MAX {
          return false, v, d', text;
        }
        v := v.(delta := v.delta + 1);
      }
      if cs[p] == n {
        ghost var e := Emit(EncOf(v, text));
        v, d' := EmitDelta(v, buf, d', text, d0, full);
        text := e.text;
      }
      p := p + 1;
    }
    ok := true;
  }

  /** One round of the outer loop: on to the least value left, and its pass. */
  method OnePass(cs: seq<nat>, n: nat, v0: Vars, buf: array<Byte>, d: nat,
                 ghost text0: seq<Byte>, ghost d0: nat, ghost full: seq<Byte>)
    returns (ok: bool, n': nat, v: Vars, d': nat, ghost text: seq<Byte>)
    requires Holds(buf, d0, d, full + text0) && CodePoints(cs) && |cs| < UINT_MAX
    requires 0 < v0.todo == Left(cs, n, 0, 0) && v0.delta <= UINT_MAX
    modifies buf
    ensures buf[..d0] == old(buf[..d0])
    ensures !ok ==> Passes(cs, n, EncOf(v0, text0)) == None
    ensures ok ==>
      && v.todo == Left(cs, n', 0, 0) < v0.todo && v.delta <= UINT_MAX
      && Passes(cs, n, EncOf(v0, text0)) == Passes(cs, n', EncOf(v, text))
      && Holds(buf, d0, d', full + text)
  {
    hide Left, Scan, Least, Times, Quot;
    LeftZero(cs, n, 0);
    var m := FindLeast(cs, n);
    LeastExists(cs, n);
    var x, y := m - n, v0.h + 1;
    OverflowTest(v0.delta, x, y);
    if x > Quot(UINT_MAX - v0.delta, y) {
      return false, n, v0, d, text0;
    }
    PassShrinks(cs, n, m);
    LeftBetween(cs, n, m);
    v := v0.(delta := v0.delta + Times(x, y));
    ghost var before := EncOf(v, text0);
    ok, v, d', text := ScanPass(cs, m, v, buf, d, text0, d0, full);
    n' := m;
    if ok {
      LeftNext(cs, m);
      ScanDelta(cs, m, 0, before);
      v, n' := v.(delta := v.delta + 1), m + 1;
    }
  }

  lemma LeastExists(cs: seq<nat>, n: nat)
    requires !(forall j :: 0 <= j < |cs| ==> cs[j] < n)
    ensures Least(cs, n, 0).Some? && exists j :: 0 <= j < |cs| && cs[j] == Least(cs, n, 0).value
  {
  }

  /** The outer loop: every value that occurs, in increasing order. It ends because
      each pass lowers `todo`, the number of code points not yet encoded. */
  method EncodeDeltas(cs: seq<nat>, h: nat, buf: array<Byte>, d: nat, ghost d0: nat, ghost full: seq<Byte>)
    returns (ok: bool, d': nat, ghost text: seq<Byte>)
    requires Holds(buf, d0, d, full) && h == |Ascii(cs)| && CodePoints(cs) && |cs| < UINT_MAX
    modifies buf
    ensures Passes(cs, 128, Enc(0, 72, h, true, [])) == if ok then Some(text) else None
    ensures buf[..d0] == old(buf[..d0])
    ensures ok ==> Holds(buf, d0, d', full + text)
  {
    hide Left, Ascii;
    LeftIsAscii(cs);
    var n := 128;
    var v := Vars(0, 72, h, true, |cs| - h);
    text, d' := [], d;
    assert full + text == full;
    while v.todo > 0
      invariant v.todo == Left(cs, n, 0, 0) && v.delta <= UINT_MAX
      invariant Passes(cs, n, EncOf(v, text)) == Passes(cs, 128, Enc(0, 72, h, true, []))
      invariant Holds(buf, d0, d', full + text) && buf[..d0] == old(buf[..d0])
      decreases v.todo
    {
      ok, n, v, d', text := OnePass(cs, n, v, buf, d', text, d0, full);
      if !ok {
        return;
      }
    }
    LeftZero(cs, n, 0);
    ok := true;
  }

  lemma LeftIsAscii(cs: seq<nat>)
    ensures |Ascii(cs)| <= |cs| && Left(cs, 128, 0, 0) == |cs| - |Ascii(cs)|
  {
    LeftIsRest(cs, 128, 0, 0);
  }

  lemma LeftBetween(cs: seq<nat>, n: nat, m: nat)
    requires Least(cs, n, 0) == Some(m)
    ensures Left(cs, n, 0, 0) == Left(cs, m, 0, 0)
  {
    LeftIsRest(cs, n, 0, 0);
    LeftIsRest(cs, m, 0, 0);
    KeptSame(cs, n, 0, m, 0, 0, |cs|);
  }

  /** A pass ends with a small delta when it encodes anything: the unchecked
      increment after it cannot overflow. */
  lemma {:induction false} ScanDelta(cs: seq<nat>, n: nat, p: nat, e: Enc)
    requires p <= |cs| && Scan(cs, n, p, e).Some?
    requires e.delta <= p || exists j :: p <= j < |cs| && cs[j] == n
    ensures Scan(cs, n, p, e).value.delta <= |cs|
    decreases |cs| - p
  {
    if p < |cs| {
      ScanDelta(cs, n, p + 1,
                if cs[p] < n then e.(delta := e.delta + 1) else if cs[p] == n then Emit(e) else e);
    }
  }

  /** What becomes of a label or of a whole name: its text, or the error code. */
  datatype Outcome = Text(text: seq<Byte>) | Fails(rc: int)

  /** An unsigned int returned as an int. */
  function ToInt(n: nat): int {
    var m := n % 0x1_0000_0000;
    if m > INT_MAX then m - 0x1_0000_0000 else m
  }

  /** An ASCII label stays as it is; any other becomes "xn--" and its Punycode. The code
      returns the length of an ASCII label as an int, so from 2^31 characters on it is
      taken for an error. */
  function LabelResult(cs: seq<nat>): Outcome {
    if IsAscii(cs) then (if ToInt(|cs|) < 0 then Fails(ToInt(|cs|)) else Text(cs))
    else if Tail(cs).None? then Fails(UV_E2BIG)
    else Text(PREFIX + Tail(cs).value)
  }

  /** The labels that are refused: those in which some delta does not fit 32 bits, and
      ASCII labels too long for an int. */
  lemma RefusedLabels(cs: seq<nat>)
    requires |cs| < UINT_MAX
    ensures LabelResult(cs).Fails? <==> if IsAscii(cs) then |cs| > INT_MAX else !AllFit(cs)
    ensures LabelResult(cs).Fails? ==>
      LabelResult(cs).rc == if IsAscii(cs) then |cs| - 0x1_0000_0000 else UV_E2BIG
  {
    hide Tail, AllFit;
    RefusedExactly(cs);
  }

  lemma ShortLabelsConvert(cs: seq<nat>)
    requires |cs| <= SAFE_LENGTH && CodePoints(cs)
    ensures LabelResult(cs).Text?
  {
    hide Tail;
    ShortLabelsAccepted(cs);
  }

  /** The checking loop: decodes the label and counts its two kinds of code points. */
  method CheckLabel(s: seq<Byte>, a: nat, b: nat) returns (ok: bool, cs: seq<nat>, h: nat, todo: nat)
    requires a <= b <= |s|
    ensures DecodeAll(s, a, b) == if ok then Some(cs) else None
    ensures ok ==> CodePoints(cs) && h == |Ascii(cs)| && todo == |cs| - h && |cs| <= b - a
    ensures ok ==> (todo == 0 <==> IsAscii(cs))
  {
    hide Decode1, DecodeAll, Left, Ascii, IsScalar;
    var p := a;
    cs, h, todo := [], 0, 0;
    NoneLeft();
    assert DecodeAll(s, a, b).Some? ==> cs + DecodeAll(s, a, b).value == DecodeAll(s, a, b).value;
    while p < b
      invariant a <= p <= b
      invariant DecodeAll(s, a, b) ==
        if DecodeAll(s, p, b).None? then None else Some(cs + DecodeAll(s, p, b).value)
      invariant h + todo == |cs| && todo == Left(cs, 128, 0, 0) && CodePoints(cs) && |cs| <= p - a
      decreases b - p
    {
      DecodeAllStep(s, p, b);
      var r := Decode1(s, p, b);
      if r.c.None? {
        return false, cs, h, todo;
      }
      LeftAppend(cs, r.c.value, 0);
      ghost var more := DecodeAll(s, r.next, b);
      assert more.Some? ==> cs + ([r.c.value] + more.value) == cs + [r.c.value] + more.value;
      if r.c.value < 128 {
        h := h + 1;
      } else {
        todo := todo + 1;
      }
      cs, p := cs + [r.c.value], r.next;
    }
    DecodeAllStep(s, b, b);
    assert cs + [] == cs;
    LeftIsAscii(cs);
    LeftZero(cs, 128, 0);
    ok := true;
  }

  lemma NoneLeft()
    ensures Left([], 128, 0, 0) == 0
  {
  }

  lemma DecodeAllStep(s: seq<Byte>, p: nat, pe: nat)
    requires p <= pe <= |s|
    ensures p == pe ==> DecodeAll(s, p, pe) == Some([])
    ensures p < pe ==>
      var r := Decode1(s, p, pe);
      && (r.c.Some? ==> r.c.value <= 0x10FFFF)
      && DecodeAll(s, p, pe) ==
        if r.c.None? || DecodeAll(s, r.next, pe).None? then None
        else Some([r.c.value] + DecodeAll(s, r.next, pe).value)
  {
    hide Decode1;
  }

  lemma {:induction false} LeftAppend(cs: seq<nat>, c: nat, a: nat)
    requires a <= |cs|
    ensures Left(cs + [c], 128, 0, a) == Left(cs, 128, 0, a) + if c < 128 then 0 else 1
    decreases |cs| - a
  {
    if a < |cs| {
      LeftAppend(cs, c, a + 1);
    }
  }

  lemma KeptStep(cs: seq<nat>, p: nat)
    requires p < |cs|
    ensures Kept(cs, 128, 0, 0, p + 1) == Kept(cs, 128, 0, 0, p) + if cs[p] < 128 then [cs[p]] else []
    ensures |Kept(cs, 128, 0, 0, p + 1)| == |Ascii(cs)| ==> Kept(cs, 128, 0, 0, p + 1) == Ascii(cs)
  {
    KeptSplit(cs, 128, 0, 0, p, p + 1);
    KeptSplit(cs, 128, 0, 0, p + 1, |cs|);
  }

  /** Writes the ASCII code points, and stops at the last of them. */
  method PutAscii(cs: seq<nat>, h: nat, buf: array<Byte>, d: nat, ghost d0: nat, ghost full: seq<Byte>)
    returns (d': nat)
    requires Holds(buf, d0, d, full) && h == |Ascii(cs)|
    modifies buf
    ensures Holds(buf, d0, d', full + Ascii(cs)) && buf[..d0] == old(buf[..d0])
  {
    hide Ascii, Kept;
    AsciiIsKept(cs);
    var x, p := 0, 0;
    d' := d;
    ghost var done: seq<Byte> := [];
    assert full + done == full;
    while p < |cs|
      invariant 0 <= p <= |cs| && done == Kept(cs, 128, 0, 0, p) && x == |done|
      invariant Holds(buf, d0, d', full + done) && buf[..d0] == old(buf[..d0])
    {
      KeptStep(cs, p);
      if cs[p] > 127 {
        p := p + 1;
        continue;
      }
      assert full + done + [cs[p]] == full + (done + [cs[p]]);
      d' := Put(buf, d', cs[p], d0, full + done);
      done := done + [cs[p]];
      x := x + 1;
      if x == h {
        return;
      }
      p := p + 1;
    }
  }

  lemma AsciiIsKept(cs: seq<nat>)
    ensures Ascii(cs) == Kept(cs, 128, 0, 0, |cs|) && Kept(cs, 128, 0, 0, 0) == []
  {
  }

  /** uv__idna_toascii_label on the bytes s[a..b]. */
  method Label(s: seq<Byte>, a: nat, b: nat, buf: array<Byte>, d: nat, ghost d0: nat, ghost full: seq<Byte>)
    returns (rc: int, d': nat)
    requires a <= b <= |s| < UINT_MAX && Holds(buf, d0, d, full)
    modifies buf
    ensures DecodeAll(s, a, b).None? ==> rc == UV_EINVAL
    ensures DecodeAll(s, a, b).Some? ==>
      var r := LabelResult(DecodeAll(s, a, b).value);
      && (rc < 0 <==> r.Fails?)
      && (r.Fails? ==> rc == r.rc)
      && (r.Text? ==> Holds(buf, d0, d', full + r.text))
    ensures buf[..d0] == old(buf[..d0])
  {
    hide Ascii, Passes, Holds;
    d' := d;
    var ok, cs, h, todo := CheckLabel(s, a, b);
    if !ok {
      return UV_EINVAL, d;
    }
    ghost var f := full;
    if todo > 0 {
      d' := PutPrefix(buf, d, d0, full);
      f := full + PREFIX;
    }
    d' := PutAscii(cs, h, buf, d', d0, f);
    f := f + Ascii(cs);
    if todo == 0 {
      WholeAscii(cs);
      return ToInt(h), d';
    }
    if h > 0 {
      d' := Put(buf, d', HYPHEN, d0, f);
      f := f + [HYPHEN];
    }
    ghost var text;
    ok, d', text := EncodeDeltas(cs, h, buf, d', d0, f);
    if !ok {
      return UV_E2BIG, d';
    }
    assert f + text == full + (PREFIX + (Ascii(cs) + (if Ascii(cs) == [] then [] else [HYPHEN]) + text));
    return 0, d';
  }

  lemma WholeAscii(cs: seq<nat>)
    requires IsAscii(cs)
    ensures Ascii(cs) == cs
  {
    KeptWhole(cs, 128, 0, 0);
  }

  // ----- the host name

  /** '.', and the ideographic, fullwidth and halfwidth full stops. */
  predicate IsDot(c: nat) {
    c == 0x2E || c == 0x3002 || c == 0xFF0E || c == 0xFF61
  }

  function Prepend(text: seq<Byte>, r: Outcome): Outcome {
    if r.Fails? then r else Text(text + r.text)
  }

  /** What becomes of the code points us[start..], of which us[start..i] begin a label:
      labels in order, each separator written as '.', no empty label at the end. The
      first label to fail decides, and after all of them an undecodable rest. */
  function HostResult(us: seq<nat>, whole: bool, start: nat, i: nat): Outcome
    requires start <= i <= |us|
    decreases |us| - i
  {
    if i == |us| then
      if !whole then Fails(UV_EINVAL) else if start < i then LabelResult(us[start..]) else Text([])
    else if !IsDot(us[i]) then HostResult(us, whole, start, i + 1)
    else
      var part := LabelResult(us[start..i]);
      if part.Fails? then part else Prepend(part.text + [DOT], HostResult(us, whole, i + 1, i + 1))
  }

  /** us[a..b] is a label: no separator inside, and one on either side or the end. */
  ghost predicate IsLabel(us: seq<nat>, a: int, b: int) {
    && 0 <= a <= b <= |us| && (a == 0 || IsDot(us[a - 1])) && (b == |us| || IsDot(us[b]))
    && forall k :: a <= k < b ==> !IsDot(us[k])
  }

  /** A name is converted exactly when it decodes to the end and no label is refused. */
  lemma HostConverts(us: seq<nat>, whole: bool)
    ensures HostResult(us, whole, 0, 0).Text? <==>
      whole && forall a, b :: IsLabel(us, a, b) ==> LabelResult(us[a..b]).Text?
  {
    hide HostResult, LabelResult;
    HostFrom(us, whole, 0, 0);
    assert forall a, b :: LabelFrom(us, 0, a, b) <==> IsLabel(us, a, b);
  }

  /** A label that begins at start or later. */
  ghost predicate LabelFrom(us: seq<nat>, start: nat, a: int, b: int) {
    start <= a && IsLabel(us, a, b)
  }

  lemma {:induction false} HostFrom(us: seq<nat>, whole: bool, start: nat, i: nat)
    requires start <= i <= |us| && (start == 0 || IsDot(us[start - 1]))
    requires forall k :: start <= k < i ==> !IsDot(us[k])
    ensures HostResult(us, whole, start, i).Text? <==>
      whole && forall a, b :: LabelFrom(us, start, a, b) ==> LabelResult(us[a..b]).Text?
    decreases |us| - i
  {
    hide LabelResult;
    if i == |us| {
      EmptyLabel();
      assert IsLabel(us, start, i) && us[start..i] == us[start..];
      forall a, b | LabelFrom(us, start, a, b) && whole ensures us[a..b] == us[start..] || us[a..b] == [] {
        OneLabel(us, start, i, a, b);
      }
      assert LabelFrom(us, start, start, i);
    } else if !IsDot(us[i]) {
      HostFrom(us, whole, start, i + 1);
    } else {
      HostFrom(us, whole, i + 1, i + 1);
      assert LabelFrom(us, start, start, i);
      forall a, b | LabelFrom(us, start, a, b) ensures (a == start && b == i) || LabelFrom(us, i + 1, a, b) {
        OneLabel(us, start, i, a, b);
      }
      assert forall a, b :: LabelFrom(us, i + 1, a, b) ==> LabelFrom(us, start, a, b);
    }
  }

  lemma OneLabel(us: seq<nat>, start: nat, i: nat, a: int, b: int)
    requires IsLabel(us, start, i) && LabelFrom(us, start, a, b)
    ensures (a == start && b == i) || a > i
  {
  }

  lemma EmptyLabel()
    ensures LabelResult([]) == Text([])
  {
  }

  /** The code points up to the first one that cannot be decoded, if there is one. */
  datatype Reading = Reading(us: seq<nat>, whole: bool)

  function Read(s: seq<Byte>, p: nat): (r: Reading)
    requires p <= |s|
    ensures DecodeAll(s, p, |s|) == if r.whole then Some(r.us) else None
    decreases |s| - p
  {
    if p == |s| then Reading([], true)
    else
      var r := Decode1(s, p, |s|);
      if r.c.None? then Reading([], false)
      else
        var more := Read(s, r.next);
        Reading([r.c.value] + more.us, more.whole)
  }

  /** From q the decoder steps through s to e exactly, reading us on the way. */
  ghost predicate Steps(s: seq<Byte>, q: nat, e: nat, us: seq<nat>)
    requires q <= e <= |s|
    decreases |us|
  {
    if us == [] then q == e
    else
      && q < e
      && var r := Decode1(s, q, |s|);
      && r.c == Some(us[0]) && r.next <= e && Steps(s, r.next, e, us[1..])
  }

  lemma {:induction false} StepsMore(s: seq<Byte>, q: nat, e: nat, us: seq<nat>, c: nat)
    requires q <= e < |s| && Steps(s, q, e, us) && Decode1(s, e, |s|).c == Some(c)
    ensures Steps(s, q, Decode1(s, e, |s|).next, us + [c])
    decreases |us|
  {
    hide Decode1;
    if us == [] {
      assert (us + [c])[1..] == [];
    } else {
      assert (us + [c])[1..] == us[1..] + [c];
      StepsMore(s, Decode1(s, q, |s|).next, e, us[1..], c);
    }
  }

  /** Stepping with the whole input in view is decoding the part on its own. */
  lemma {:induction false} StepsDecode(s: seq<Byte>, q: nat, e: nat, us: seq<nat>)
    requires q <= e <= |s| && Steps(s, q, e, us)
    ensures DecodeAll(s, q, e) == Some(us)
    decreases |us|
  {
    hide Decode1;
    if us != [] {
      Decode1Local(s, q, |s|, e);
      StepsDecode(s, Decode1(s, q, |s|).next, e, us[1..]);
      assert us == [us[0]] + us[1..];
    }
  }

  lemma {:induction false} StepsRead(s: seq<Byte>, q: nat, e: nat, us: seq<nat>)
    requires q <= e <= |s| && Steps(s, q, e, us)
    ensures Read(s, q) == Reading(us + Read(s, e).us, Read(s, e).whole)
    decreases |us|
  {
    hide Decode1, DecodeAll;
    if us == [] {
      assert us + Read(s, e).us == Read(s, e).us;
    } else {
      StepsRead(s, Decode1(s, q, |s|).next, e, us[1..]);
      assert us + Read(s, e).us == [us[0]] + (us[1..] + Read(s, e).us);
    }
  }

  /** Whatever follows us, the output begins with `text`, and a label begins at `start`. */
  ghost predicate SoFar(us: seq<nat>, start: nat, text: seq<Byte>) {
    start <= |us| &&
    forall more, whole ::
      HostResult(us + more, whole, 0, 0) == Prepend(text, HostResult(us + more, whole, start, |us|))
  }

  lemma SoFarSkip(us: seq<nat>, start: nat, text: seq<Byte>, c: nat)
    requires SoFar(us, start, text) && !IsDot(c)
    ensures SoFar(us + [c], start, text)
  {
    hide LabelResult;
    forall more, whole
      ensures HostResult(us + [c] + more, whole, 0, 0)
           == Prepend(text, HostResult(us + [c] + more, whole, start, |us| + 1))
    {
      assert us + [c] + more == us + ([c] + more);
    }
  }

  lemma SoFarDot(us: seq<nat>, start: nat, text: seq<Byte>, c: nat)
    requires SoFar(us, start, text) && IsDot(c) && LabelResult(us[start..]).Text?
    ensures SoFar(us + [c], |us| + 1, text + LabelResult(us[start..]).text + [DOT])
  {
    hide LabelResult;
    var part := LabelResult(us[start..]).text;
    forall more, whole
      ensures HostResult(us + [c] + more, whole, 0, 0)
           == Prepend(text + part + [DOT], HostResult(us + [c] + more, whole, |us| + 1, |us| + 1))
    {
      var all := us + [c] + more;
      assert all == us + ([c] + more);
      assert all[start..|us|] == us[start..];
      var r := HostResult(all, whole, |us| + 1, |us| + 1);
      assert r.Text? ==> text + (part + [DOT] + r.text) == text + part + [DOT] + r.text;
    }
  }

  /** The first label that fails decides, whatever comes after it. */
  lemma BadLabel(us: seq<nat>, start: nat, text: seq<Byte>, more: seq<nat>, whole: bool)
    requires SoFar(us, start, text) && LabelResult(us[start..]).Fails?
    requires more != [] && IsDot(more[0])
    ensures HostResult(us + more, whole, 0, 0) == LabelResult(us[start..])
  {
    hide LabelResult, SoFar;
    var all := us + more;
    SoFarAt(us, start, text, more, whole);
    assert all[start..|us|] == us[start..];
  }

  lemma SoFarAt(us: seq<nat>, start: nat, text: seq<Byte>, more: seq<nat>, whole: bool)
    requires SoFar(us, start, text)
    ensures start <= |us|
    ensures HostResult(us + more, whole, 0, 0) == Prepend(text, HostResult(us + more, whole, start, |us|))
  {
  }

  /** The end of the name, or of what can be decoded of it. */
  lemma LastLabel(us: seq<nat>, start: nat, text: seq<Byte>)
    requires SoFar(us, start, text)
    ensures start <= |us| && HostResult(us, false, 0, 0) == Fails(UV_EINVAL)
    ensures HostResult(us, true, 0, 0) ==
      if start < |us| then Prepend(text, LabelResult(us[start..])) else Text(text)
  {
    hide SoFar, LabelResult;
    SoFarAt(us, start, text, [], false);
    SoFarAt(us, start, text, [], true);
    assert us + [] == us && text + [] == text;
  }

  /** What uv__idna_toascii returns for a buffer of `room` bytes. */
  ghost function ReturnCode(s: seq<Byte>, room: nat): int {
    if s == [] then UV_EINVAL
    else
      var r := HostResult(Read(s, 0).us, Read(s, 0).whole, 0, 0);
      if r.Fails? then r.rc else if |r.text| + 1 > room then UV_EINVAL else |r.text| + 1
  }

  /** What a successful call leaves: the whole name, NUL-terminated, nothing cut off. */
  ghost predicate Converted(s: seq<Byte>, buf: seq<Byte>, rc: int) {
    && s != [] && DecodeAll(s, 0, |s|).Some?
    && var r := HostResult(DecodeAll(s, 0, |s|).value, true, 0, 0);
    && r.Text? && rc == |r.text| + 1 <= |buf| && buf[..rc] == r.text + [0]
  }

  /** A call can succeed: the name decodes, no label is refused, and it fits. */
  ghost predicate Convertible(s: seq<Byte>, room: nat) {
    && s != [] && DecodeAll(s, 0, |s|).Some?
    && var us := DecodeAll(s, 0, |s|).value;
    && (forall a, b :: IsLabel(us, a, b) ==> LabelResult(us[a..b]).Text?)
    && var r := HostResult(us, true, 0, 0);
    && r.Text? && |r.text| + 1 <= room
  }

  /** uv__idna_toascii. It succeeds exactly when no label is refused and the whole output
      fits, and then the buffer holds it; the first failure decides the error code. Array
      bounds checking shows that it never writes past the end. */
  method ToAscii(s: seq<Byte>, buf: array<Byte>) returns (rc: int)
    requires |s| < UINT_MAX
    modifies buf
    ensures rc == ReturnCode(s, buf.Length)
    ensures rc >= 0 <==> Convertible(s, buf.Length)
    ensures rc >= 0 ==> Converted(s, buf[..], rc)
  {
    hide Decode1, DecodeAll, LabelResult, HostResult, SoFar, Convertible, Read;
    CodeTells(s, buf.Length);
    if |s| == 0 {
      return UV_EINVAL;
    }
    var d: nat, si: nat, lab: nat := 0, 0, 0;
    ghost var us: seq<nat>, start: nat, text: seq<Byte> := [], 0, [];
    SoFarStart();
    while si < |s|
      invariant lab <= si <= |s| && start <= |us| && (start < |us| <==> lab < si)
      invariant Steps(s, 0, si, us) && Steps(s, lab, si, us[start..])
      invariant SoFar(us, start, text) && Holds(buf, 0, d, text)
      decreases |s| - si
    {
      var st := si;
      var r := Decode1(s, si, |s|);
      StepsRead(s, 0, si, us);
      ReadFirst(s, si);
      if r.c.None? {
        LastLabel(us, start, text);
        assert us + [] == us;
        return UV_EINVAL;
      }
      si := r.next;
      StepsMore(s, 0, st, us, r.c.value);
      if !IsDot(r.c.value) {
        StepsMore(s, lab, st, us[start..], r.c.value);
        assert (us + [r.c.value])[start..] == us[start..] + [r.c.value];
        SoFarSkip(us, start, text, r.c.value);
        us := us + [r.c.value];
        continue;
      }
      StepsDecode(s, lab, st, us[start..]);
      var lrc;
      lrc, d := Label(s, lab, st, buf, d, 0, text);
      if lrc < 0 {
        BadLabel(us, start, text, Read(s, st).us, Read(s, st).whole);
        return lrc;
      }
      ghost var part := LabelResult(us[start..]).text;
      d := Put(buf, d, DOT, 0, text + part);
      SoFarDot(us, start, text, r.c.value);
      us, text := us + [r.c.value], text + part + [DOT];
      start, lab := |us|, si;
      assert us[start..] == [];
    }
    StepsRead(s, 0, si, us);
    ReadNothing(s);
    assert us + [] == us;
    LastLabel(us, start, text);
    if lab < |s| {
      StepsDecode(s, lab, |s|, us[start..]);
      rc, d := Label(s, lab, |s|, buf, d, 0, text);
      if rc < 0 {
        return;
      }
      text := text + LabelResult(us[start..]).text;
    }
    if d >= buf.Length {
      return UV_EINVAL;
    }
    buf[d] := 0;
    assert buf[..d + 1] == text + [0];
    return d + 1;
  }

  lemma ReadFirst(s: seq<Byte>, p: nat)
    requires p < |s|
    ensures var r := Decode1(s, p, |s|);
      Read(s, p) == if r.c.None? then Reading([], false)
                    else Reading([r.c.value] + Read(s, r.next).us, Read(s, r.next).whole)
  {
    hide Decode1, DecodeAll;
  }

  lemma ReadNothing(s: seq<Byte>)
    ensures Read(s, |s|) == Reading([], true)
  {
  }

  /** The sign of the return code tells success. */
  lemma CodeTells(s: seq<Byte>, room: nat)
    requires |s| < UINT_MAX
    ensures ReturnCode(s, room) >= 0 <==> Convertible(s, room)
    ensures s != [] ==> DecodeAll(s, 0, |s|) == if Read(s, 0).whole then Some(Read(s, 0).us) else None
  {
    hide LabelResult, HostResult, IsLabel, DecodeAll, Read;
    if s != [] {
      var r := Read(s, 0);
      HostConverts(r.us, r.whole);
      FailsBelowZero(r.us, r.whole, 0, 0);
    }
  }

  lemma {:induction false} FailsBelowZero(us: seq<nat>, whole: bool, start: nat, i: nat)
    requires start <= i <= |us|
    ensures HostResult(us, whole, start, i).Fails? ==> HostResult(us, whole, start, i).rc < 0
    decreases |us| - i
  {
    hide Tail, IsAscii;
    if i < |us| {
      FailsBelowZero(us, whole, if IsDot(us[i]) then i + 1 else start, i + 1);
    }
  }

  lemma SoFarStart()
    ensures SoFar([], 0, [])
  {
    hide HostResult;
    forall more: seq<nat>, whole
      ensures HostResult([] + more, whole, 0, 0) == Prepend([], HostResult([] + more, whole, 0, 0))
    {
      var r := HostResult([] + more, whole, 0, 0);
      assert r.Text? ==> [] + r.text == r.text;
    }
  }

  // ----- a name that is refused for its length

  lemma {:induction false} AllAscii(s: seq<Byte>, p: nat)
    requires p <= |s| && forall k :: 0 <= k < |s| ==> s[k] == 97
    ensures Read(s, p) == Reading(s[p..], true)
    decreases |s| - p
  {
    hide DecodeAll;
    if p < |s| {
      assert Decode1(s, p, |s|) == Decoded(Some(97), p + 1);
      AllAscii(s, p + 1);
    }
  }

  lemma {:induction false} NoDots(us: seq<nat>, i: nat)
    requires i <= |us| && us != [] && forall k :: 0 <= k < |us| ==> !IsDot(us[k])
    ensures HostResult(us, true, 0, i) == LabelResult(us)
    decreases |us| - i
  {
    hide LabelResult;
    assert us[0..] == us;
    if i < |us| {
      NoDots(us, i + 1);
    }
  }

  /** 2^31 times the letter a: nothing but its length is wrong, and the code returned is
      none of libuv's, whatever room there is. */
  lemma LongNameRefused(s: seq<Byte>, room: nat)
    requires |s| == 0x8000_0000 && forall k :: 0 <= k < |s| ==> s[k] == 97
    ensures ReturnCode(s, room) == -0x8000_0000
  {
    hide HostResult, Read, Tail;
    AllAscii(s, 0);
    assert s[0..] == s;
    NoDots(s, 0);
  }
}
