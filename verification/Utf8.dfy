/** The UTF-8 decoder of idna.c, and the encoding of section 3 of RFC 3629. */
module Utf8 {
  import opened Common

  predicate IsScalar(c: nat) {
    c <= 0x10FFFF && !(0xD800 <= c <= 0xDFFF)
  }

  /** A continuation byte. */
  predicate Continues(b: Byte) { 0x80 <= b < 0xC0 }

  /** 0x80 == (0xC0 & (b ^ c ^ d)): bit 7 occurs an odd number of times in the three
      bytes and bit 6 an even number of times. */
  predicate ContinuationTest(b: nat, c: nat, d: nat) {
    (b / 128 + c / 128 + d / 128) % 2 == 1 && (b / 64 % 2 + c / 64 % 2 + d / 64 % 2) % 2 == 0
  }

  /** A decoded code point and the position after it; None is UINT_MAX. */
  datatype Decoded = Decoded(c: Option<nat>, next: nat)

  /** The checks after the bytes have been gathered. */
  function Assemble(a: nat, b: nat, c: nat, d: nat, min: nat): (r: Option<nat>)
    ensures r.Some? ==> IsScalar(r.value) && r.value >= min
  {
    if !ContinuationTest(b, c, d) then None
    else
      var u := a * 0x40000 + b % 64 * 0x1000 + c % 64 * 64 + d % 64;
      if u < min || u > 0x10FFFF || 0xD800 <= u <= 0xDFFF then None else Some(u)
  }

  /** uv__utf8_decode1 at position p of s, with s ending at pe. The case analysis is
      the fall-through switch of the source: a lead byte that announces more bytes
      than are left is read as one that announces fewer. */
  function Decode1(s: seq<Byte>, p: nat, pe: nat): (r: Decoded)
    requires p < pe <= |s|
    ensures r.c.Some? ==> IsScalar(r.c.value)
    ensures p < r.next <= pe
  {
    var a := s[p];
    var room := pe - (p + 1);
    if a < 128 then Decoded(Some(a), p + 1)
    else if a > 0xF7 then Decoded(None, p + 1)
    else if room >= 3 && a > 0xEF then
      Decoded(Assemble(a % 8, s[p + 1], s[p + 2], s[p + 3], 0x10000), p + 4)
    else if room >= 2 && a > 0xDF then
      Decoded(Assemble(0, 0x80 + a % 16, s[p + 1], s[p + 2], 0x800), p + 3)
    else if room >= 1 && a > 0xBF then
      Decoded(Assemble(0, 0x80, 0x80 + a % 32, s[p + 1], 0x80), p + 2)
    else Decoded(None, p + 1)
  }

  /** Section 3 of RFC 3629; on surrogates, the same form as WTF-8 uses it. */
  function Encode1(u: nat): (r: seq<Byte>)
    requires u <= 0x10FFFF
    ensures 1 <= |r| <= 4
    ensures if u == 0 then r == [0] else 0 !in r
  {
    if u < 0x80 then [u]
    else if u < 0x800 then [0xC0 + u / 64, 0x80 + u % 64]
    else if u < 0x10000 then [0xE0 + u / 0x1000, 0x80 + u / 64 % 64, 0x80 + u % 64]
    else [0xF0 + u / 0x40000, 0x80 + u / 0x1000 % 64, 0x80 + u / 64 % 64, 0x80 + u % 64]
  }

  function Slice(s: seq<Byte>, p: nat, k: nat): seq<Byte>
    requires p + k <= |s|
  {
    s[p..p + k]
  }

  lemma Sextets(u: nat)
    requires u <= 0x10FFFF
    ensures u == u / 0x40000 * 0x40000 + u / 0x1000 % 64 * 0x1000 + u / 64 % 64 * 64 + u % 64
    ensures u / 0x40000 <= 4 && (u < 0x10000 ==> u / 0x40000 == 0 && u / 0x1000 % 64 == u / 0x1000 < 16)
    ensures u < 0x800 ==> u / 0x1000 % 64 == 0 && u / 64 % 64 == u / 64 < 32
  {
    var v := u / 64;
    var w := v / 64;
    assert w == u / 0x1000 && w / 64 == u / 0x40000;
  }

  /** The sextets of a sum are its parts. */
  lemma Sum(a: nat, x: nat, y: nat, z: nat)
    requires x < 64 && y < 64 && z < 64
    ensures var u := a * 0x40000 + x * 0x1000 + y * 64 + z;
      u % 64 == z && u / 64 % 64 == y && u / 0x1000 % 64 == x && u / 0x40000 == a
      && u / 0x1000 == a * 64 + x && u / 64 == (a * 64 + x) * 64 + y
  {
    var v := a * 64 + x;
    var w := v * 64 + y;
    var u := w * 64 + z;
    assert u / 64 == w && u % 64 == z && w / 64 == v && w % 64 == y && v / 64 == a && v % 64 == x;
    assert u / 0x1000 == w / 64 && u / 0x40000 == v / 64;
  }

  /** Three continuation bytes carry the three low sextets. */
  lemma AssembleOk(a: nat, b: nat, c: nat, d: nat, min: nat)
    requires b < 64 && c < 64 && d < 64
    requires var u := a * 0x40000 + b * 0x1000 + c * 64 + d; u >= min && IsScalar(u)
    ensures Assemble(a, 0x80 + b, 0x80 + c, 0x80 + d, min) == Some(a * 0x40000 + b * 0x1000 + c * 64 + d)
  {
    assert (0x80 + b) % 64 == b && (0x80 + c) % 64 == c && (0x80 + d) % 64 == d;
    assert (0x80 + b) / 64 == 2 && (0x80 + c) / 64 == 2 && (0x80 + d) / 64 == 2;
    assert (0x80 + b) / 128 == 1 && (0x80 + c) / 128 == 1 && (0x80 + d) / 128 == 1;
  }

  lemma ByteAt(s: seq<Byte>, p: nat, e: seq<Byte>, j: nat)
    requires p + |e| <= |s| && Slice(s, p, |e|) == e && j < |e|
    ensures s[p + j] == e[j]
  {
    assert Slice(s, p, |e|)[j] == s[p + j];
  }

  lemma DecodesTwo(s: seq<Byte>, p: nat, pe: nat, u: nat)
    requires p + 2 <= pe <= |s| && 0x80 <= u < 0x800
    requires s[p] == 0xC0 + u / 64 && s[p + 1] == 0x80 + u % 64
    ensures Decode1(s, p, pe) == Decoded(Some(u), p + 2)
  {
    hide Assemble;
    Sextets(u);
    AssembleOk(0, 0, u / 64, u % 64, 0x80);
    assert s[p] % 32 == u / 64;
  }

  lemma DecodesThree(s: seq<Byte>, p: nat, pe: nat, u: nat)
    requires p + 3 <= pe <= |s| && 0x800 <= u < 0x10000 && IsScalar(u)
    requires s[p] == 0xE0 + u / 0x1000 && s[p + 1] == 0x80 + u / 64 % 64 && s[p + 2] == 0x80 + u % 64
    ensures Decode1(s, p, pe) == Decoded(Some(u), p + 3)
  {
    hide Assemble;
    Sextets(u);
    AssembleOk(0, u / 0x1000, u / 64 % 64, u % 64, 0x800);
    assert s[p] % 16 == u / 0x1000;
  }

  lemma DecodesFour(s: seq<Byte>, p: nat, pe: nat, u: nat)
    requires p + 4 <= pe <= |s| && 0x10000 <= u <= 0x10FFFF
    requires s[p] == 0xF0 + u / 0x40000 && s[p + 1] == 0x80 + u / 0x1000 % 64
    requires s[p + 2] == 0x80 + u / 64 % 64 && s[p + 3] == 0x80 + u % 64
    ensures Decode1(s, p, pe) == Decoded(Some(u), p + 4)
  {
    hide Assemble;
    Sextets(u);
    AssembleOk(u / 0x40000, u / 0x1000 % 64, u / 64 % 64, u % 64, 0x10000);
    assert s[p] % 8 == u / 0x40000;
  }

  /** Well-formed UTF-8 is decoded to the scalar value it stands for. */
  lemma Decode1Correct(s: seq<Byte>, p: nat, pe: nat, u: nat)
    requires p <= pe <= |s| && IsScalar(u) && p + |Encode1(u)| <= pe
    requires Slice(s, p, |Encode1(u)|) == Encode1(u)
    ensures Decode1(s, p, pe) == Decoded(Some(u), p + |Encode1(u)|)
  {
    hide Decode1, Slice;
    var e := Encode1(u);
    ByteAt(s, p, e, 0);
    if 0x80 <= u { ByteAt(s, p, e, 1); }
    if 0x800 <= u { ByteAt(s, p, e, 2); }
    if 0x10000 <= u {
      ByteAt(s, p, e, 3);
      DecodesFour(s, p, pe, u);
    } else if 0x800 <= u {
      DecodesThree(s, p, pe, u);
    } else if 0x80 <= u {
      DecodesTwo(s, p, pe, u);
    } else {
      DecodesOne(s, p, pe);
    }
  }

  lemma DecodesOne(s: seq<Byte>, p: nat, pe: nat)
    requires p < pe <= |s| && s[p] < 0x80
    ensures Decode1(s, p, pe) == Decoded(Some(s[p]), p + 1)
  {
  }

  /** All code points of s[p..pe]; None if some is not decodable. */
  function DecodeAll(s: seq<Byte>, p: nat, pe: nat): (r: Option<seq<nat>>)
    requires p <= pe <= |s|
    ensures r.Some? ==> forall j :: 0 <= j < |r.value| ==> IsScalar(r.value[j])
    ensures r.Some? ==> |r.value| <= pe - p
    decreases pe - p
  {
    if p == pe then Some([])
    else
      var r := Decode1(s, p, pe);
      if r.c.None? then None
      else
        var more := DecodeAll(s, r.next, pe);
        if more.None? then None else Some([r.c.value] + more.value)
  }

  function EncodeAll(us: seq<nat>): seq<Byte>
    requires forall j :: 0 <= j < |us| ==> IsScalar(us[j])
  {
    if us == [] then []
    else
      assert IsScalar(us[0]);
      Encode1(us[0]) + EncodeAll(us[1..])
  }

  /** Decoding undoes encoding, on every sequence of scalar values. */
  lemma {:induction false} DecodeEncode(s: seq<Byte>, p: nat, us: seq<nat>)
    requires p <= |s| && forall j :: 0 <= j < |us| ==> IsScalar(us[j])
    requires s[p..] == EncodeAll(us)
    ensures DecodeAll(s, p, |s|) == Some(us)
    decreases |us|
  {
    hide Encode1, Decode1;
    if us == [] {
      assert |s[p..]| == 0;
    } else {
      var e := Encode1(us[0]);
      assert s[p..] == e + EncodeAll(us[1..]);
      assert Slice(s, p, |e|) == s[p..][..|e|];
      assert s[p + |e|..] == s[p..][|e|..];
      Decode1Correct(s, p, |s|, us[0]);
      assert p < |s|;
      DecodeEncode(s, p + |e|, us[1..]);
      assert us == [us[0]] + us[1..];
    }
  }

  /** Cutting the input after a decoded code point does not change it. */
  lemma Decode1Local(s: seq<Byte>, p: nat, pe: nat, e: nat)
    requires p < pe <= |s| && Decode1(s, p, pe).next <= e <= pe && Decode1(s, p, pe).c.Some?
    ensures Decode1(s, p, e) == Decode1(s, p, pe)
  {
  }
}
