/**
 The label encoder of idna.c on code points: its exact text, its overflow
 conditions, and the proof that the decoder of RFC 3492 undoes it.
 */
module IdnaLabel {
  import opened Common
  import opened Arithmetic
  import opened Punycode

  // ----- which code points have been encoded

  /** In the pass for value n, at scan position p, entry j has been encoded. */
  predicate Encoded(cs: seq<nat>, n: nat, p: nat, j: nat)
    requires j < |cs|
  {
    cs[j] < n || (cs[j] == n && j < p)
  }

  /** The encoded entries among cs[a..b], in order. */
  function Kept(cs: seq<nat>, n: nat, p: nat, a: nat, b: nat): seq<nat>
    requires a <= b <= |cs|
    decreases b - a
  {
    if a == b then []
    else (if Encoded(cs, n, p, a) then [cs[a]] else []) + Kept(cs, n, p, a + 1, b)
  }

  /** How many entries are still to be encoded. */
  function Left(cs: seq<nat>, n: nat, p: nat, a: nat): nat
    requires a <= |cs|
    decreases |cs| - a
  {
    if a == |cs| then 0
    else (if Encoded(cs, n, p, a) then 0 else 1) + Left(cs, n, p, a + 1)
  }

  function All(cs: seq<nat>, n: nat, p: nat): seq<nat> {
    Kept(cs, n, p, 0, |cs|)
  }

  lemma {:induction false} LeftIsRest(cs: seq<nat>, n: nat, p: nat, a: nat)
    requires a <= |cs|
    ensures Left(cs, n, p, a) + |Kept(cs, n, p, a, |cs|)| == |cs| - a
    decreases |cs| - a
  {
    if a < |cs| {
      LeftIsRest(cs, n, p, a + 1);
    }
  }

  lemma {:induction false} KeptSplit(cs: seq<nat>, n: nat, p: nat, a: nat, m: nat, b: nat)
    requires a <= m <= b <= |cs|
    ensures Kept(cs, n, p, a, b) == Kept(cs, n, p, a, m) + Kept(cs, n, p, m, b)
    decreases m - a
  {
    if a < m {
      KeptSplit(cs, n, p, a + 1, m, b);
    }
  }

  lemma {:induction false} KeptSame(cs: seq<nat>, n: nat, p: nat, n': nat, p': nat, a: nat, b: nat)
    requires a <= b <= |cs|
    requires forall j :: a <= j < b ==> Encoded(cs, n, p, j) == Encoded(cs, n', p', j)
    ensures Kept(cs, n, p, a, b) == Kept(cs, n', p', a, b)
    decreases b - a
  {
    if a < b {
      KeptSame(cs, n, p, n', p', a + 1, b);
    }
  }

  lemma {:induction false} KeptLength(cs: seq<nat>, n: nat, p: nat, a: nat, b: nat)
    requires a <= b <= |cs|
    ensures |Kept(cs, n, p, a, b)| <= b - a
    decreases b - a
  {
    if a < b {
      KeptLength(cs, n, p, a + 1, b);
    }
  }

  lemma {:induction false} KeptWhole(cs: seq<nat>, n: nat, p: nat, a: nat)
    requires a <= |cs| && forall j :: a <= j < |cs| ==> Encoded(cs, n, p, j)
    ensures Kept(cs, n, p, a, |cs|) == cs[a..]
    decreases |cs| - a
  {
    if a < |cs| {
      KeptWhole(cs, n, p, a + 1);
    }
  }

  /** Encoding entry p puts its value at the position its predecessors leave it. */
  lemma KeptInsert(cs: seq<nat>, n: nat, p: nat)
    requires p < |cs| && cs[p] == n
    ensures var at := |Kept(cs, n, p, 0, p)|;
      && at <= |All(cs, n, p)|
      && All(cs, n, p + 1) == All(cs, n, p)[..at] + [n] + All(cs, n, p)[at..]
      && |Kept(cs, n, p + 1, 0, p + 1)| == at + 1
  {
    var k := |cs|;
    KeptSplit(cs, n, p, 0, p, k);
    KeptSplit(cs, n, p, p, p + 1, k);
    KeptSplit(cs, n, p + 1, 0, p, k);
    KeptSplit(cs, n, p + 1, p, p + 1, k);
    KeptSplit(cs, n, p + 1, 0, p, p + 1);
    KeptSame(cs, n, p, n, p + 1, 0, p);
    KeptSame(cs, n, p, n, p + 1, p + 1, k);
  }

  /** An entry that is not n neither enters nor leaves. */
  lemma KeptSkip(cs: seq<nat>, n: nat, p: nat)
    requires p < |cs| && cs[p] != n
    ensures All(cs, n, p + 1) == All(cs, n, p)
    ensures |Kept(cs, n, p + 1, 0, p + 1)| == |Kept(cs, n, p, 0, p)| + if cs[p] < n then 1 else 0
  {
    KeptSame(cs, n, p, n, p + 1, 0, |cs|);
    KeptSplit(cs, n, p + 1, 0, p, p + 1);
    KeptSame(cs, n, p, n, p + 1, 0, p);
  }

  // ----- the encoder

  /** The variables of the encoding loops: delta, bias, h, first, and the digits so far. */
  datatype Enc = Enc(delta: nat, bias: nat, h: nat, first: bool, text: seq<Byte>)

  /** A code point equal to n: write delta, adapt the bias. */
  function Emit(e: Enc): Enc {
    Enc(0, Adapt(e.delta, e.h + 1, e.first), e.h + 1, false, e.text + IntText(e.delta, 36, e.bias))
  }

  /** The second inner loop: the pass for value n from position p on. None is UV_E2BIG. */
  function Scan(cs: seq<nat>, n: nat, p: nat, e: Enc): (r: Option<Enc>)
    requires p <= |cs|
    decreases |cs| - p
  {
    if p == |cs| then Some(e)
    else if cs[p] < n then
      if e.delta >= UINT_MAX then None else Scan(cs, n, p + 1, e.(delta := e.delta + 1))
    else if cs[p] == n then Scan(cs, n, p + 1, Emit(e))
    else Scan(cs, n, p + 1, e)
  }

  /** The first inner loop: the least code point that is at least n. */
  function Least(cs: seq<nat>, n: nat, p: nat): (m: Option<nat>)
    requires p <= |cs|
    ensures m.Some? ==> m.value >= n && m.value in cs[p..]
    ensures forall j :: p <= j < |cs| && cs[j] >= n ==> m.Some? && m.value <= cs[j]
    decreases |cs| - p
  {
    if p == |cs| then None
    else
      var m := Least(cs, n, p + 1);
      if cs[p] >= n && (m.None? || cs[p] <= m.value) then
        assert cs[p] in cs[p..];
        Some(cs[p])
      else
        assert cs[p + 1..] == cs[p..][1..];
        m
  }

  /** The outer loop: one pass for each value that occurs. */
  function Passes(cs: seq<nat>, n: nat, e: Enc): Option<seq<Byte>>
    decreases Left(cs, n, 0, 0)
  {
    var m := Least(cs, n, 0);
    if m.None? then Some(e.text)
    else if e.delta + Times(m.value - n, e.h + 1) > UINT_MAX then None
    else
      var r := Scan(cs, m.value, 0, e.(delta := e.delta + Times(m.value - n, e.h + 1)));
      PassShrinks(cs, n, m.value);
      if r.None? then None
      else Passes(cs, m.value + 1, r.value.(delta := r.value.delta + 1))
  }

  lemma PassShrinks(cs: seq<nat>, n: nat, m: nat)
    requires Least(cs, n, 0) == Some(m)
    ensures Left(cs, m + 1, 0, 0) < Left(cs, n, 0, 0)
  {
    var j :| 0 <= j < |cs| && cs[j] == m;
    LeftShrinks(cs, n, m, 0, j);
  }

  lemma {:induction false} LeftShrinks(cs: seq<nat>, n: nat, m: nat, a: nat, j: nat)
    requires a <= |cs| && n <= m && j < |cs| && cs[j] == m
    ensures Left(cs, m + 1, 0, a) <= Left(cs, n, 0, a) - if a <= j then 1 else 0
    decreases |cs| - a
  {
    if a < |cs| {
      LeftShrinks(cs, n, m, a + 1, j);
    }
  }

  /** The basic code points of a label, as bytes. */
  function Ascii(cs: seq<nat>): (r: seq<Byte>)
    ensures forall j :: 0 <= j < |r| ==> r[j] < 128
  {
    AsciiBytes(cs, 0);
    All(cs, 128, 0)
  }

  lemma {:induction false} AsciiBytes(cs: seq<nat>, a: nat)
    requires a <= |cs|
    ensures forall j :: 0 <= j < |Kept(cs, 128, 0, a, |cs|)| ==> Kept(cs, 128, 0, a, |cs|)[j] < 128
    decreases |cs| - a
  {
    if a < |cs| {
      AsciiBytes(cs, a + 1);
    }
  }

  predicate IsAscii(cs: seq<nat>) {
    forall j :: 0 <= j < |cs| ==> cs[j] < 128
  }

  /** The text after "xn--" that the encoder writes when nothing is cut off;
      None where it returns UV_E2BIG. */
  function Tail(cs: seq<nat>): Option<seq<Byte>> {
    var basic := Ascii(cs);
    var deltas := Passes(cs, 128, Enc(0, 72, |basic|, true, []));
    if deltas.None? then None
    else Some(basic + (if basic == [] then [] else [HYPHEN]) + deltas.value)
  }

  // ----- the round trip

  /** However the input goes on, a decoder that has read `text` from s is in state r. */
  ghost predicate Decodes(text: seq<Byte>, s: Decoder, r: Decoder) {
    forall rest :: DecodeDeltas(text + rest, s) == DecodeDeltas(rest, r)
  }

  lemma IntTextNonempty(q: nat, k: nat, bias: nat)
    ensures IntText(q, k, bias) != []
  {
  }

  lemma DecodesMore(text: seq<Byte>, s: Decoder, r: Decoder, delta: nat)
    requires Decodes(text, s, r)
    ensures Decodes(text + IntText(delta, 36, r.bias), s, Insert(r, delta))
  {
    hide ReadInt, IntText, Insert;
    var word := IntText(delta, 36, r.bias);
    forall rest ensures DecodeDeltas(text + word + rest, s) == DecodeDeltas(rest, Insert(r, delta)) {
      assert text + word + rest == text + (word + rest);
      ReadIntText(delta, 36, r.bias, 0, 1, rest);
      IntTextNonempty(delta, 36, r.bias);
    }
  }

  /** The encoder at position p of the pass for n, and a decoder that has read its
      output: the decoder holds exactly the encoded entries, and delta is the
      distance from its state to the next insertion point. */
  ghost predicate InStep(cs: seq<nat>, n: nat, p: nat, e: Enc, s: Decoder, d: Decoder)
    requires p <= |cs|
  {
    && Decodes(e.text, s, d)
    && d.out == All(cs, n, p) && e.h == |d.out| && d.bias == e.bias && d.n <= n
    && (e.first <==> d.i == 0)
    && e.delta + d.i == Times(n - d.n, e.h + 1) + |Kept(cs, n, p, 0, p)|
  }

  lemma EmitInStep(cs: seq<nat>, n: nat, p: nat, e: Enc, s: Decoder, d: Decoder)
    requires p < |cs| && cs[p] == n && InStep(cs, n, p, e, s, d)
    ensures InStep(cs, n, p + 1, Emit(e), s, Insert(d, e.delta))
  {
    hide Decodes, Adapt, IntText, Kept, Times, Quot, Rem;
    var at := |Kept(cs, n, p, 0, p)|;
    KeptInsert(cs, n, p);
    DivModOf(n - d.n, e.h + 1, at);
    TimesUnit(e.h + 2);
    DecodesMore(e.text, s, d, e.delta);
  }

  lemma SkipInStep(cs: seq<nat>, n: nat, p: nat, e: Enc, s: Decoder, d: Decoder)
    requires p < |cs| && cs[p] != n && InStep(cs, n, p, e, s, d)
    ensures InStep(cs, n, p + 1, if cs[p] < n then e.(delta := e.delta + 1) else e, s, d)
  {
    hide Decodes, Times;
    KeptSkip(cs, n, p);
  }

  lemma {:induction false} ScanInStep(cs: seq<nat>, n: nat, p: nat, e: Enc, s: Decoder, d: Decoder) returns (d': Decoder)
    requires p <= |cs| && InStep(cs, n, p, e, s, d) && Scan(cs, n, p, e).Some?
    ensures InStep(cs, n, |cs|, Scan(cs, n, p, e).value, s, d')
    decreases |cs| - p
  {
    hide Decodes;
    if p == |cs| {
      d' := d;
    } else if cs[p] == n {
      EmitInStep(cs, n, p, e, s, d);
      d' := ScanInStep(cs, n, p + 1, Emit(e), s, Insert(d, e.delta));
    } else {
      SkipInStep(cs, n, p, e, s, d);
      d' := ScanInStep(cs, n, p + 1, if cs[p] < n then e.(delta := e.delta + 1) else e, s, d);
    }
  }

  /** Moving on to a larger value with nothing in between. */
  lemma AdvanceInStep(cs: seq<nat>, n: nat, m: nat, e: Enc, s: Decoder, d: Decoder)
    requires InStep(cs, n, 0, e, s, d) && n <= m
    requires forall j :: 0 <= j < |cs| && cs[j] >= n ==> cs[j] >= m
    ensures InStep(cs, m, 0, e.(delta := e.delta + Times(m - n, e.h + 1)), s, d)
  {
    hide Decodes, Times;
    KeptSame(cs, n, 0, m, 0, 0, |cs|);
    TimesAdd(m - n, n - d.n, e.h + 1);
  }

  lemma NextInStep(cs: seq<nat>, n: nat, e: Enc, s: Decoder, d: Decoder)
    requires InStep(cs, n, |cs|, e, s, d)
    ensures InStep(cs, n + 1, 0, e.(delta := e.delta + 1), s, d)
  {
    hide Decodes, Times;
    KeptSame(cs, n, |cs|, n + 1, 0, 0, |cs|);
    TimesAdd(n - d.n, 1, e.h + 1);
    TimesUnit(e.h + 1);
  }

  lemma LastInStep(cs: seq<nat>, n: nat, e: Enc, s: Decoder, d: Decoder)
    requires InStep(cs, n, 0, e, s, d) && forall j :: 0 <= j < |cs| ==> cs[j] < n
    ensures DecodeDeltas(e.text, s) == Some(cs)
  {
    KeptWhole(cs, n, 0, 0);
    assert e.text + [] == e.text;
    assert DecodeDeltas(e.text + [], s) == DecodeDeltas([], d);
  }

  lemma {:induction false} PassesRoundTrip(cs: seq<nat>, n: nat, e: Enc, s: Decoder, d: Decoder)
    requires InStep(cs, n, 0, e, s, d) && Passes(cs, n, e).Some?
    ensures DecodeDeltas(Passes(cs, n, e).value, s) == Some(cs)
    decreases Left(cs, n, 0, 0)
  {
    hide Decodes, DecodeDeltas, InStep, Times, Left, Scan, All, Least;
    var m := Least(cs, n, 0);
    if m.None? {
      LastInStep(cs, n, e, s, d);
    } else {
      AdvanceInStep(cs, n, m.value, e, s, d);
      var e1 := e.(delta := e.delta + Times(m.value - n, e.h + 1));
      assert Scan(cs, m.value, 0, e1).Some?;
      var d1 := ScanInStep(cs, m.value, 0, e1, s, d);
      var e2 := Scan(cs, m.value, 0, e1).value;
      NextInStep(cs, m.value, e2, s, d1);
      PassShrinks(cs, n, m.value);
      PassesRoundTrip(cs, m.value + 1, e2.(delta := e2.delta + 1), s, d1);
    }
  }

  predicate NoHyphen(text: seq<Byte>) {
    forall j :: 0 <= j < |text| ==> text[j] != HYPHEN
  }

  lemma {:induction false} IntTextNoHyphen(q: nat, k: nat, bias: nat)
    ensures NoHyphen(IntText(q, k, bias))
    decreases q
  {
    var t := T(k, bias);
    if q >= t {
      IntTextNoHyphen(Quot(q - t, 36 - t), k + 36, bias);
    }
  }

  lemma {:induction false} ScanNoHyphen(cs: seq<nat>, n: nat, p: nat, e: Enc)
    requires p <= |cs| && NoHyphen(e.text) && Scan(cs, n, p, e).Some?
    ensures NoHyphen(Scan(cs, n, p, e).value.text)
    decreases |cs| - p
  {
    if p < |cs| {
      if cs[p] < n {
        ScanNoHyphen(cs, n, p + 1, e.(delta := e.delta + 1));
      } else if cs[p] == n {
        IntTextNoHyphen(e.delta, 36, e.bias);
        ScanNoHyphen(cs, n, p + 1, Emit(e));
      } else {
        ScanNoHyphen(cs, n, p + 1, e);
      }
    }
  }

  lemma {:induction false} PassesNoHyphen(cs: seq<nat>, n: nat, e: Enc)
    requires NoHyphen(e.text) && Passes(cs, n, e).Some?
    ensures NoHyphen(Passes(cs, n, e).value)
    decreases Left(cs, n, 0, 0)
  {
    hide NoHyphen, Scan, Left;
    var m := Least(cs, n, 0);
    if m.Some? {
      PassShrinks(cs, n, m.value);
      var e1 := e.(delta := e.delta + Times(m.value - n, e.h + 1));
      ScanNoHyphen(cs, m.value, 0, e1);
      var e2 := Scan(cs, m.value, 0, e1).value;
      PassesNoHyphen(cs, m.value + 1, e2.(delta := e2.delta + 1));
    }
  }

  /** The decoder finds the encoder's delimiter: the last one, if there is any basic code point. */
  lemma SplitText(basic: seq<Byte>, deltas: seq<Byte>)
    requires NoHyphen(deltas) && forall j :: 0 <= j < |basic| ==> basic[j] < 128
    ensures Decode(basic + (if basic == [] then [] else [HYPHEN]) + deltas)
         == DecodeDeltas(deltas, Decoder(128, 0, 72, basic))
  {
    hide DecodeDeltas;
    var text := basic + (if basic == [] then [] else [HYPHEN]) + deltas;
    if basic == [] {
      assert text == deltas;
    } else {
      assert text[|basic|] == HYPHEN;
      forall j | |basic| < j < |text| ensures text[j] != HYPHEN {
        assert text[j] == deltas[j - |basic| - 1];
      }
      assert LastHyphen(text) == |basic|;
      assert text[..|basic|] == basic && text[|basic| + 1..] == deltas;
    }
  }

  lemma StartInStep(cs: seq<nat>)
    ensures var s := Decoder(128, 0, 72, Ascii(cs));
      InStep(cs, 128, 0, Enc(0, 72, |Ascii(cs)|, true, []), s, s)
  {
    forall rest: seq<Byte> ensures [] + rest == rest {
    }
  }

  /** Decoding the text after "xn--" gives back the label, for every label the
      encoder does not refuse. */
  lemma RoundTrip(cs: seq<nat>)
    requires Tail(cs).Some?
    ensures Decode(Tail(cs).value) == Some(cs)
  {
    hide Decode, DecodeDeltas, InStep, NoHyphen, Passes;
    var basic := Ascii(cs);
    var e := Enc(0, 72, |basic|, true, []);
    EmptyNoHyphen();
    PassesNoHyphen(cs, 128, e);
    StartInStep(cs);
    PassesRoundTrip(cs, 128, e, Decoder(128, 0, 72, basic), Decoder(128, 0, 72, basic));
    SplitText(basic, Passes(cs, 128, e).value);
  }

  lemma EmptyNoHyphen()
    ensures NoHyphen([])
  {
  }

  predicate CodePoints(cs: seq<nat>) {
    forall j :: 0 <= j < |cs| ==> cs[j] <= 0x10FFFF
  }
}
