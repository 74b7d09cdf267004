/**
 Bootstring with the Punycode parameters: the decoder of section 6.2 of RFC 3492,
 and the number representation both directions share.
 */
module Punycode {
  import opened Arithmetic
  import opened Common

  // ----- parameters

  /** Section 6.1 and the threshold rule of section 6.2: t for position k. */
  function T(k: nat, bias: nat): (t: nat)
    ensures 1 <= t <= 26
  {
    if k <= bias then 1 else if k >= bias + 26 then 26 else k - bias
  }

  function Scale(delta: nat, k: nat): nat
    decreases delta
  {
    if delta > 455 then Scale(delta / 35, k + 36) else k + 36 * delta / (delta + 38)
  }

  /** adapt() of section 6.1. */
  function Adapt(delta: nat, points: nat, first: bool): nat
    requires points > 0
  {
    var d := if first then delta / 700 else delta / 2;
    Scale(d + Quot(d, points), 0)
  }

  function DigitByte(d: nat): Byte
    requires d < 36
  {
    if d < 26 then 97 + d else 22 + d
  }

  /** Section 5: a..z and A..Z are 0..25, 0..9 are 26..35. */
  function DigitValue(b: Byte): (r: Option<nat>)
    ensures r.Some? ==> r.value < 36
  {
    if 97 <= b <= 122 then Some(b - 97)
    else if 65 <= b <= 90 then Some(b - 65)
    else if 48 <= b <= 57 then Some(b - 22)
    else None
  }

  // ----- generalized variable-length integers

  /** The digits uv__idna_toascii_label writes for a delta. */
  function IntText(q: nat, k: nat, bias: nat): seq<Byte>
    decreases q
  {
    var t := T(k, bias);
    if q < t then [DigitByte(q)]
    else
      var x, y := q - t, 36 - t;
      [DigitByte(t + Rem(x, y))] + IntText(Quot(x, y), k + 36, bias)
  }

  datatype IntRead = IntRead(value: nat, rest: seq<Byte>)

  /** The inner loop of section 6.2: i and w as there. */
  function ReadInt(input: seq<Byte>, k: nat, bias: nat, i: nat, w: nat): (r: Option<IntRead>)
    ensures r.Some? ==> |r.value.rest| < |input|
    decreases |input|
  {
    if input == [] then None
    else
      var d := DigitValue(input[0]);
      if d.None? then None
      else
        var t := T(k, bias);
        var i' := i + Times(d.value, w);
        if d.value < t then Some(IntRead(i', input[1..]))
        else ReadInt(input[1..], k + 36, bias, i', Times(w, 36 - t))
  }

  /** Reading back what was written, wherever it stands in the input. */
  lemma {:induction false} ReadIntText(q: nat, k: nat, bias: nat, i: nat, w: nat, rest: seq<Byte>)
    ensures ReadInt(IntText(q, k, bias) + rest, k, bias, i, w) == Some(IntRead(i + Times(q, w), rest))
    decreases q
  {
    hide Times, Quot, Rem, T;
    var t := T(k, bias);
    var text := IntText(q, k, bias);
    if q < t {
      assert (text + rest)[1..] == rest;
    } else {
      var x, y := q - t, 36 - t;
      var d := t + Rem(x, y);
      var more := IntText(Quot(x, y), k + 36, bias);
      assert text == [DigitByte(d)] + more;
      assert (text + rest)[1..] == more + rest;
      assert DigitValue((text + rest)[0]) == Some(d);
      ReadIntText(Quot(x, y), k + 36, bias, i + Times(d, w), Times(w, y), rest);
      DigitSum(x, y, t, w);
    }
  }

  lemma DigitSum(x: nat, y: nat, t: nat, w: nat)
    requires y > 0
    ensures Times(t + Rem(x, y), w) + Times(Quot(x, y), Times(w, y)) == Times(t + x, w)
  {
    hide Times, Quot, Rem;
    QuotRem(x, y);
    TimesAssoc(Quot(x, y), w, y);
    TimesAdd(t + Rem(x, y), Times(Quot(x, y), y), w);
  }

  // ----- the decoder of section 6.2

  datatype Decoder = Decoder(n: nat, i: nat, bias: nat, out: seq<nat>)

  /** One round of the outer loop, after the delta has been read. */
  function Insert(s: Decoder, delta: nat): Decoder {
    var len := |s.out| + 1;
    var i := s.i + delta;
    var at := Rem(i, len);
    var n := s.n + Quot(i, len);
    Decoder(n, at + 1, Adapt(delta, len, s.i == 0), s.out[..at] + [n] + s.out[at..])
  }

  function DecodeDeltas(input: seq<Byte>, s: Decoder): Option<seq<nat>>
    decreases |input|
  {
    if input == [] then Some(s.out)
    else
      var r := ReadInt(input, 36, s.bias, 0, 1);
      if r.None? then None else DecodeDeltas(r.value.rest, Insert(s, r.value.value))
  }

  const HYPHEN: Byte := 45

  /** The position of the last delimiter, or -1. */
  function LastHyphen(text: seq<Byte>): (r: int)
    ensures -1 <= r < |text|
    ensures r >= 0 ==> text[r] == HYPHEN
    ensures forall j :: r < j < |text| ==> text[j] != HYPHEN
  {
    if text == [] then -1
    else if text[|text| - 1] == HYPHEN then |text| - 1
    else LastHyphen(text[..|text| - 1])
  }

  /** Section 6.2 on the text after the "xn--" prefix, with an unbounded maxint. */
  function Decode(text: seq<Byte>): Option<seq<nat>> {
    var b := LastHyphen(text);
    var basic := if b > 0 then text[..b] else [];
    var deltas := if b > 0 then text[b + 1..] else text;
    if exists j :: 0 <= j < |basic| && basic[j] >= 128 then None
    else DecodeDeltas(deltas, Decoder(128, 0, 72, basic))
  }
}
