/** WTF-8 and UTF-16: the two converters of idna.c, their length functions, the round trip. */
module Wtf8 {
  import opened Common
  import opened Utf8

  /** A uint16_t. */
  type Unit = u: int | 0 <= u < 0x10000

  // ----- code points and units

  /** The units of one code point. */
  function UnitsOf(c: nat): (r: seq<Unit>)
    requires c <= 0x10FFFF
    ensures |r| == Width(c)
  {
    if c > 0xFFFF then [(c - 0x10000) / 0x400 + 0xD800, (c - 0x10000) % 0x400 + 0xDC00] else [c]
  }

  function Width(c: nat): nat { if c > 0xFFFF then 2 else 1 }

  predicate High(u: Unit) { 0xD800 <= u <= 0xDBFF }

  predicate Low(u: Unit) { 0xDC00 <= u <= 0xDFFF }

  /** The first code point of u; a surrogate without its partner stands for itself. */
  function Head(u: seq<Unit>): (c: nat)
    requires u != []
    ensures c <= 0x10FFFF && Width(c) <= |u| && UnitsOf(c) == u[..Width(c)]
    ensures c == 0 <==> u[0] == 0
    ensures Width(c) == 2 ==> Low(u[1])
    ensures c == 0x10FFFF <==> |u| > 1 && u[0] == 0xDBFF && u[1] == 0xDFFF
  {
    var h: int, l: int := u[0], if |u| > 1 then u[1] else 0;
    if High(h) && Low(l) then 0x10000 + (h - 0xD800) * 0x400 + (l - 0xDC00)
    else h
  }

  /** The WTF-8 form of a sequence of units. */
  function Encoded(u: seq<Unit>): seq<Byte> {
    if u == [] then [] else Encode1(Head(u)) + Encoded(u[Width(Head(u))..])
  }

  // ----- decoding

  /** A C string: memory that ends in NUL, with possibly more NULs before. */
  predicate Terminated(s: seq<Byte>) { |s| > 0 && s[|s| - 1] == 0 }

  /** A code point, None for an error, and the last byte that was read. */
  datatype Decoded8 = Decoded8(c: Option<nat>, last: nat)

  /** uv__wtf8_decode1. It never reads past a NUL. */
  function Decode8(s: seq<Byte>, p: nat): (r: Decoded8)
    requires Terminated(s) && p < |s|
    ensures p <= r.last < |s| && forall k :: p <= k < r.last ==> s[k] != 0
    ensures r.c.Some? ==> r.c.value <= 0x10FFFF && (s[r.last] == 0 ==> r.c.value == 0 && r.last == p)
  {
    var b1 := s[p];
    if b1 <= 0x7F then Decoded8(Some(b1), p)
    else if b1 < 0xC2 then Decoded8(None, p)
    else if !Continues(s[p + 1]) then Decoded8(None, p + 1)
    else
      var c2 := Shift(b1, s[p + 1]);
      if b1 <= 0xDF then Decoded8(Some(c2 % 0x800), p + 1)
      else if !Continues(s[p + 2]) then Decoded8(None, p + 2)
      else
        var c3 := Shift(c2, s[p + 2]);
        if b1 <= 0xEF then Decoded8(Some(c3 % 0x10000), p + 2)
        else if !Continues(s[p + 3]) then Decoded8(None, p + 3)
        else
          var c4 := Shift(c3, s[p + 3]) % 0x200000;
          Decoded8(if b1 <= 0xF4 && c4 <= 0x10FFFF then Some(c4) else None, p + 3)
  }

  /** code_point << 6 | b & 0x3F */
  function Shift(c: nat, b: Byte): nat { c * 64 + b % 64 }

  /** The code points of the string at p, terminator included; None if it is not WTF-8. */
  function Points(s: seq<Byte>, p: nat): (r: Option<seq<nat>>)
    requires Terminated(s) && p < |s|
    ensures r.Some? ==> |r.value| > 0 && forall k :: 0 <= k < |r.value| ==> r.value[k] <= 0x10FFFF
    decreases |s| - p
  {
    var r := Decode8(s, p);
    if r.c.None? then None
    else if s[r.last] == 0 then Some([0])
    else
      var more := Points(s, r.last + 1);
      if more.None? then None else Some([r.c.value] + more.value)
  }

  function Units(cs: seq<nat>): seq<Unit>
    requires forall k :: 0 <= k < |cs| ==> cs[k] <= 0x10FFFF
  {
    if cs == [] then [] else UnitsOf(cs[0]) + Units(cs[1..])
  }

  // ----- the round trip

  lemma Decode8Correct(s: seq<Byte>, p: nat, c: nat)
    requires Terminated(s) && c <= 0x10FFFF && p + |Encode1(c)| <= |s|
    requires Slice(s, p, |Encode1(c)|) == Encode1(c)
    ensures Decode8(s, p) == Decoded8(Some(c), p + |Encode1(c)| - 1)
  {
    hide Shift;
    var e := Encode1(c);
    forall j | 0 <= j < |e| ensures s[p + j] == e[j] {
      assert Slice(s, p, |e|)[j] == s[p + j];
    }
    assert s[p] == s[p + 0] == e[0];
    if 0x10000 <= c {
      FourBytes(c);
    } else if 0x800 <= c {
      ThreeBytes(c);
    } else if 0x80 <= c {
      TwoBytes(c);
    }
  }

  lemma ShiftOf(c: nat, d: nat)
    requires d < 64
    ensures Shift(c, 0x80 + d) == c * 64 + d && Continues(0x80 + d)
  {
  }

  lemma TwoBytes(c: nat)
    requires 0x80 <= c < 0x800
    ensures var e := Encode1(c);
      0xC2 <= e[0] <= 0xDF && Continues(e[1]) && Shift(e[0], e[1]) % 0x800 == c
  {
    hide Shift;
    ShiftOf(0xC0 + c / 64, c % 64);
    assert (0xC0 + c / 64) * 64 + c % 64 == 6 * 0x800 + c;
  }

  lemma ThreeBytes(c: nat)
    requires 0x800 <= c < 0x10000
    ensures var e := Encode1(c);
      && 0xE0 <= e[0] <= 0xEF && Continues(e[1]) && Continues(e[2])
      && Shift(Shift(e[0], e[1]), e[2]) % 0x10000 == c
  {
    hide Shift;
    var a := 0xE0 + c / 0x1000;
    ShiftOf(a, c / 64 % 64);
    ShiftOf(a * 64 + c / 64 % 64, c % 64);
    Sextets(c);
    assert (a * 64 + c / 64 % 64) * 64 + c % 64 == 14 * 0x10000 + c;
  }

  lemma FourBytes(c: nat)
    requires 0x10000 <= c <= 0x10FFFF
    ensures var e := Encode1(c);
      && 0xF0 <= e[0] <= 0xF4 && Continues(e[1]) && Continues(e[2]) && Continues(e[3])
      && Shift(Shift(Shift(e[0], e[1]), e[2]), e[3]) % 0x200000 == c
  {
    hide Shift;
    var a, x, y, z := 0xF0 + c / 0x40000, c / 0x1000 % 64, c / 64 % 64, c % 64;
    ShiftOf(a, x);
    ShiftOf(a * 64 + x, y);
    ShiftOf((a * 64 + x) * 64 + y, z);
    Sextets(c);
    assert ((a * 64 + x) * 64 + y) * 64 + z == 30 * 0x200000 + c;
  }

  /** The code points that the encoder turns u into, up to the first NUL. */
  function PointsOf(u: seq<Unit>): (r: seq<nat>)
    ensures |r| > 0 && forall k :: 0 <= k < |r| ==> r[k] <= 0x10FFFF
  {
    if u == [] || u[0] == 0 then [0] else [Head(u)] + PointsOf(u[Width(Head(u))..])
  }

  function UntilNul(u: seq<Unit>): (r: seq<Unit>)
    ensures r <= u && 0 !in r
    ensures |r| == |u| || u[|r|] == 0
  {
    if u == [] || u[0] == 0 then [] else [u[0]] + UntilNul(u[1..])
  }

  lemma FirstDecodes(s: seq<Byte>, p: nat, c: nat, rest: seq<Byte>)
    requires Terminated(s) && p < |s| && c <= 0x10FFFF && s[p..] == Encode1(c) + rest
    ensures p + |Encode1(c)| <= |s| && s[p + |Encode1(c)|..] == rest
    ensures Decode8(s, p) == Decoded8(Some(c), p + |Encode1(c)| - 1)
    ensures s[p + |Encode1(c)| - 1] == 0 <==> c == 0
  {
    hide Encode1, Decode8;
    var e := Encode1(c);
    assert |s[p..]| == |e| + |rest|;
    assert Slice(s, p, |e|) == s[p..][..|e|] == e;
    assert s[p + |e|..] == s[p..][|e|..];
    Decode8Correct(s, p, c);
    assert s[p + |e| - 1] == Slice(s, p, |e|)[|e| - 1] == e[|e| - 1];
  }

  lemma PointsStep(s: seq<Byte>, p: nat)
    requires Terminated(s) && p < |s| && Decode8(s, p).c.Some?
    ensures var r := Decode8(s, p);
      Points(s, p) ==
        if s[r.last] == 0 then Some([0])
        else if Points(s, r.last + 1).None? then None
        else Some([r.c.value] + Points(s, r.last + 1).value)
  {
    hide Decode8;
  }

  lemma EncodedStep(u: seq<Unit>)
    ensures Encoded([]) == []
    ensures u != [] ==> Encoded(u) == Encode1(Head(u)) + Encoded(u[Width(Head(u))..])
  {
    hide Encode1, Head, Width, UnitsOf;
  }

  lemma PointsOfStep(u: seq<Unit>)
    ensures PointsOf([]) == [0]
    ensures u != [] ==> PointsOf(u) == if Head(u) == 0 then [0] else [Head(u)] + PointsOf(u[Width(Head(u))..])
  {
    hide Head, Width, UnitsOf;
  }

  /** Decoding what the encoder wrote finds the encoder's code points. */
  lemma {:induction false} PointsBack(s: seq<Byte>, p: nat, u: seq<Unit>)
    requires Terminated(s) && p < |s| && s[p..] == Encoded(u) + [0]
    ensures Points(s, p) == Some(PointsOf(u))
    decreases |u|
  {
    hide Encode1, Decode8, UnitsOf, Head, Width, Points, PointsOf, Encoded;
    EncodedStep(u);
    PointsOfStep(u);
    if u == [] {
      assert s[p..][0] == 0;
      AsciiDecodes(s, p);
      PointsStep(s, p);
    } else {
      var c := Head(u);
      var rest := u[Width(c)..];
      Assoc(Encode1(c), Encoded(rest), [0]);
      FirstDecodes(s, p, c, Encoded(rest) + [0]);
      PointsStep(s, p);
      if c != 0 {
        WidthPositive(c);
        PointsBack(s, p + |Encode1(c)|, rest);
      }
    }
  }

  lemma Assoc(a: seq<Byte>, b: seq<Byte>, c: seq<Byte>)
    ensures a + b + c == a + (b + c)
  {
  }

  lemma WidthPositive(c: nat)
    ensures Width(c) > 0
  {
  }

  lemma AsciiDecodes(s: seq<Byte>, p: nat)
    requires Terminated(s) && p < |s| && s[p] < 0x80
    ensures Decode8(s, p) == Decoded8(Some(s[p]), p)
  {
  }

  lemma UntilNulSplit(u: seq<Unit>)
    requires u != [] && u[0] != 0
    ensures UntilNul(u) == u[..Width(Head(u))] + UntilNul(u[Width(Head(u))..])
  {
    hide UnitsOf;
    if |u| > 1 {
      assert u[1..][0] == u[1] && u[1..][1..] == u[2..];
    }
  }

  lemma UntilNulEnd(u: seq<Unit>)
    requires u == [] || u[0] == 0
    ensures UntilNul(u) == []
  {
  }

  lemma {:induction false} UnitsBack(u: seq<Unit>)
    ensures Units(PointsOf(u)) == UntilNul(u) + [0]
  {
    hide Head, UntilNul;
    if u == [] || u[0] == 0 {
      UntilNulEnd(u);
      assert Units([0]) == UnitsOf(0) + Units([]) == [0];
    } else {
      var c := Head(u);
      var w := Width(c);
      UnitsBack(u[w..]);
      assert PointsOf(u)[1..] == PointsOf(u[w..]);
      UntilNulSplit(u);
      assert Units(PointsOf(u)) == UnitsOf(c) + Units(PointsOf(u[w..]));
    }
  }

  /** uv_wtf8_to_utf16 after uv_utf16_to_wtf8: every sequence of units comes back up to
      its first NUL, lone surrogates included. */
  lemma RoundTrip(u: seq<Unit>)
    ensures Terminated(Encoded(u) + [0]) && Points(Encoded(u) + [0], 0) == Some(PointsOf(u))
    ensures Units(PointsOf(u)) == UntilNul(u) + [0]
    ensures Units(PointsOf(u)) == u + [0] <==> 0 !in u
  {
    var s := Encoded(u) + [0];
    assert s[0..] == s;
    PointsBack(s, 0, u);
    UnitsBack(u);
    if UntilNul(u) + [0] == u + [0] {
      assert (UntilNul(u) + [0])[..|u|] == UntilNul(u) && (u + [0])[..|u|] == u;
    }
    if 0 !in u {
      assert UntilNul(u) == u;
    }
  }

  /** A surrogate pair at the very top of the code space. */
  predicate HasTop(u: seq<Unit>) {
    exists k :: 0 <= k < |u| - 1 && u[k] == 0xDBFF && u[k + 1] == 0xDFFF
  }

  /** The converter's assertion on code points holds for all units but one pair. */
  lemma {:induction false} TopPoint(u: seq<Unit>)
    ensures 0x10FFFF in PointsOf(u) <==> HasTop(UntilNul(u))
  {
    hide UnitsOf, UntilNul, Head;
    if u == [] || u[0] == 0 {
      UntilNulEnd(u);
    } else {
      var c := Head(u);
      var w := Width(c);
      TopPoint(u[w..]);
      var v, v1 := UntilNul(u), UntilNul(u[w..]);
      UntilNulSplit(u);
      if k :| 0 <= k < |v1| - 1 && v1[k] == 0xDBFF && v1[k + 1] == 0xDFFF {
        assert v[w + k] == 0xDBFF && v[w + k + 1] == 0xDFFF;
      }
      if c == 0x10FFFF {
        assert v[0] == 0xDBFF && v[0 + 1] == 0xDFFF;
      }
      if k :| 0 <= k < |v| - 1 && v[k] == 0xDBFF && v[k + 1] == 0xDFFF {
        if k >= w {
          assert v1[k - w] == 0xDBFF && v1[k - w + 1] == 0xDFFF;
        }
      }
    }
  }

  // ----- exactly what is accepted

  /** The byte sequences that uv__wtf8_decode1 takes for one character. Overlong forms of
      three and four bytes are among them, and surrogates; values above U+10FFFF are not. */
  predicate IsForm(e: seq<Byte>) {
    match |e|
    case 1 => e[0] <= 0x7F
    case 2 => 0xC2 <= e[0] <= 0xDF && Continues(e[1])
    case 3 => 0xE0 <= e[0] <= 0xEF && Continues(e[1]) && Continues(e[2])
    case 4 => 0xF0 <= e[0] <= 0xF4 && Continues(e[1]) && Continues(e[2]) && Continues(e[3])
              && (e[0] == 0xF4 ==> e[1] < 0x90)
    case _ => false
  }

  predicate IsOverlong(e: seq<Byte>) {
    (|e| == 3 && e[0] == 0xE0 && e[1] < 0xA0) || (|e| == 4 && e[0] == 0xF0 && e[1] < 0x90)
  }

  /** b & 0x3F */
  function Payload(b: Byte): (r: int)
    ensures 0 <= r < 64
  {
    b % 64
  }

  /** The value of a form: the payload bits of its bytes. */
  function FormValue(e: seq<Byte>): nat
    requires IsForm(e)
  {
    var b: int := e[0];
    if |e| == 1 then b
    else if |e| == 2 then (b - 0xC0) * 64 + Payload(e[1])
    else if |e| == 3 then (b - 0xE0) * 0x1000 + Payload(e[1]) * 64 + Payload(e[2])
    else (b - 0xF0) * 0x40000 + Payload(e[1]) * 0x1000 + Payload(e[2]) * 64 + Payload(e[3])
  }

  /** A character is decoded exactly when a form begins there, and to the form's value. */
  lemma Decode8Forms(s: seq<Byte>, p: nat, n: nat)
    requires Terminated(s) && p < |s|
    ensures Decode8(s, p).c.Some? ==> IsForm(s[p..Decode8(s, p).last + 1])
    ensures p + n <= |s| && IsForm(s[p..p + n]) ==> Decode8(s, p) == Decoded8(Some(FormValue(s[p..p + n])), p + n - 1)
  {
    hide Shift;
    if p + n <= |s| && IsForm(s[p..p + n]) {
      FormDecodes(s, p, n);
    }
    if Decode8(s, p).c.Some? {
      DecodedForm(s, p);
    }
  }

  lemma DecodedForm(s: seq<Byte>, p: nat)
    requires Terminated(s) && p < |s| && Decode8(s, p).c.Some?
    ensures IsForm(s[p..Decode8(s, p).last + 1])
  {
    hide Shift;
    if Decode8(s, p).last == p + 3 {
      FourValue(s[p], s[p + 1], s[p + 2], s[p + 3]);
    }
  }

  lemma TwoValue(a: Byte, b: Byte)
    requires 0xC0 <= a <= 0xDF
    ensures Shift(a, b) % 0x800 == (a - 0xC0) * 64 + Payload(b)
  {
    var x: int := a;
    assert x * 64 + Payload(b) == 6 * 0x800 + ((x - 0xC0) * 64 + Payload(b));
  }

  lemma ThreeValue(a: Byte, b: Byte, c: Byte)
    requires 0xE0 <= a <= 0xEF
    ensures Shift(Shift(a, b), c) % 0x10000 == (a as int - 0xE0) * 0x1000 + Payload(b) * 64 + Payload(c)
  {
    var x: int := a;
    assert (x * 64 + Payload(b)) * 64 + Payload(c)
        == 14 * 0x10000 + ((x - 0xE0) * 0x1000 + Payload(b) * 64 + Payload(c));
  }

  lemma FourValue(a: Byte, b: Byte, c: Byte, d: Byte)
    requires 0xF0 <= a <= 0xF7
    ensures Shift(Shift(Shift(a, b), c), d) % 0x200000
         == (a as int - 0xF0) * 0x40000 + Payload(b) * 0x1000 + Payload(c) * 64 + Payload(d)
  {
    var x: int := a;
    assert ((x * 64 + Payload(b)) * 64 + Payload(c)) * 64 + Payload(d)
        == 30 * 0x200000 + ((x - 0xF0) * 0x40000 + Payload(b) * 0x1000 + Payload(c) * 64 + Payload(d));
  }

  lemma FormDecodes(s: seq<Byte>, p: nat, n: nat)
    requires Terminated(s) && p + n <= |s| && IsForm(s[p..p + n])
    ensures Decode8(s, p) == Decoded8(Some(FormValue(s[p..p + n])), p + n - 1)
  {
    hide Shift;
    var e := s[p..p + n];
    assert forall j :: 0 <= j < n ==> e[j] == s[p + j];
    if n == 2 {
      TwoValue(s[p], s[p + 1]);
    } else if n == 3 {
      ThreeValue(s[p], s[p + 1], s[p + 2]);
    } else if n == 4 {
      FourValue(s[p], s[p + 1], s[p + 2], s[p + 3]);
    }
  }

  /** Forms are the encodings, and the overlong ones besides. */
  lemma FormsAreEncodings(e: seq<Byte>)
    requires IsForm(e)
    ensures FormValue(e) <= 0x10FFFF
    ensures Encode1(FormValue(e)) == e <==> !IsOverlong(e)
  {
    if |e| == 2 {
      Form2(e);
    } else if |e| == 3 {
      Form3(e);
    } else if |e| == 4 {
      Form4(e);
    }
  }

  lemma PayloadOf(b: Byte)
    requires Continues(b)
    ensures 0x80 + Payload(b) == b
  {
  }

  lemma Form2(e: seq<Byte>)
    requires IsForm(e) && |e| == 2
    ensures FormValue(e) <= 0x10FFFF && Encode1(FormValue(e)) == e
  {
    hide Payload;
    PayloadOf(e[1]);
    Sum(0, 0, e[0] - 0xC0, Payload(e[1]));
  }

  lemma Form3(e: seq<Byte>)
    requires IsForm(e) && |e| == 3
    ensures FormValue(e) <= 0x10FFFF && (Encode1(FormValue(e)) == e <==> !IsOverlong(e))
  {
    hide Payload;
    PayloadOf(e[1]);
    PayloadOf(e[2]);
    Sum(0, e[0] - 0xE0, Payload(e[1]), Payload(e[2]));
  }

  lemma Form4(e: seq<Byte>)
    requires IsForm(e) && |e| == 4
    ensures FormValue(e) <= 0x10FFFF && (Encode1(FormValue(e)) == e <==> !IsOverlong(e))
  {
    hide Payload;
    PayloadOf(e[1]);
    PayloadOf(e[2]);
    PayloadOf(e[3]);
    Sum(e[0] - 0xF0, Payload(e[1]), Payload(e[2]), Payload(e[3]));
  }

  /** Two overlong forms stand for NUL besides NUL itself: what follows them is still part
      of the string, and the units hold a NUL before the end. */
  lemma ZeroForms(e: seq<Byte>)
    requires IsForm(e)
    ensures FormValue(e) == 0 <==> e == [0] || e == [0xE0, 0x80, 0x80] || e == [0xF0, 0x80, 0x80, 0x80]
  {
    forall j | 1 <= j < |e| ensures 0x80 + Payload(e[j]) == e[j] {
      PayloadOf(e[j]);
    }
  }

  // ----- whole strings

  /** The bytes before the NUL. */
  function Until0(s: seq<Byte>): (r: seq<Byte>)
    ensures r <= s && 0 !in r && (|r| == |s| || s[|r|] == 0)
  {
    if s == [] || s[0] == 0 then [] else [s[0]] + Until0(s[1..])
  }

  /** A concatenation of forms. */
  ghost predicate AllForms(t: seq<Byte>)
    decreases |t|
  {
    t == [] || exists n :: 0 < n <= |t| && IsForm(t[..n]) && AllForms(t[n..])
  }

  lemma FormStep(s: seq<Byte>, p: nat)
    requires Terminated(s) && p < |s| && s[p] != 0
    ensures var r := Decode8(s, p);
      AllForms(Until0(s[p..])) <==> r.c.Some? && r.last + 1 < |s| && AllForms(Until0(s[r.last + 1..]))
  {
    hide Decode8, IsForm, FormValue, Until0;
    var t, r := Until0(s[p..]), Decode8(s, p);
    NonEmpty(s[p..]);
    if r.c.Some? {
      var n := r.last + 1 - p;
      Decode8Forms(s, p, n);
      UntilRest(s, p, n);
      assert t[..n] == s[p..p + n];
    }
    if AllForms(t) {
      var n :| 0 < n <= |t| && IsForm(t[..n]) && AllForms(t[n..]);
      assert t[..n] == s[p..p + n];
      Decode8Forms(s, p, n);
    }
  }

  lemma NonEmpty(s: seq<Byte>)
    requires s != []
    ensures Until0(s) == [] <==> s[0] == 0
  {
  }

  /** uv_wtf8_length_as_utf16 accepts exactly the strings made of forms. */
  lemma {:induction false} AcceptsExactly(s: seq<Byte>, p: nat)
    requires Terminated(s) && p < |s|
    ensures Points(s, p).Some? <==> AllForms(Until0(s[p..]))
    decreases |s| - p
  {
    hide Decode8, AllForms, Until0;
    NonEmpty(s[p..]);
    if s[p] == 0 {
      AsciiDecodes(s, p);
      NoForms();
    } else {
      FormStep(s, p);
      var r := Decode8(s, p);
      if r.c.Some? {
        AcceptsExactly(s, r.last + 1);
      }
    }
  }

  lemma NoForms()
    ensures AllForms([])
  {
  }

  /** Dropping n bytes that are not NUL. */
  lemma {:induction false} UntilRest(s: seq<Byte>, p: nat, n: nat)
    requires p + n <= |s| && forall k :: p <= k < p + n ==> s[k] != 0
    ensures n <= |Until0(s[p..])| && Until0(s[p + n..]) == Until0(s[p..])[n..]
    decreases n
  {
    if n > 0 {
      assert s[p..][1..] == s[p + 1..];
      UntilRest(s, p + 1, n - 1);
      assert p + 1 + (n - 1) == p + n;
    }
  }

  // ----- a NUL before the end

  /** An overlong form of NUL. */
  predicate IsNulForm(e: seq<Byte>) {
    e == [0xE0, 0x80, 0x80] || e == [0xF0, 0x80, 0x80, 0x80]
  }

  /** One of the forms that t consists of is an overlong form of NUL. */
  ghost predicate HasNulForm(t: seq<Byte>)
    decreases |t|
  {
    exists n :: 0 < n <= |t| && IsForm(t[..n]) && (IsNulForm(t[..n]) || HasNulForm(t[n..]))
  }

  lemma NulStep(s: seq<Byte>, p: nat)
    requires Terminated(s) && p < |s| && s[p] != 0 && Decode8(s, p).c.Some?
    ensures var r := Decode8(s, p);
      && r.last + 1 < |s|
      && (HasNulForm(Until0(s[p..])) <==> r.c.value == 0 || HasNulForm(Until0(s[r.last + 1..])))
  {
    hide Decode8, IsForm, FormValue, Until0, IsNulForm;
    var t, r := Until0(s[p..]), Decode8(s, p);
    var n := r.last + 1 - p;
    NonEmpty(s[p..]);
    Decode8Forms(s, p, n);
    UntilRest(s, p, n);
    assert t[..n] == s[p..p + n];
    NulValue(t[..n]);
    if HasNulForm(t) {
      var k :| 0 < k <= |t| && IsForm(t[..k]) && (IsNulForm(t[..k]) || HasNulForm(t[k..]));
      assert t[..k] == s[p..p + k];
      Decode8Forms(s, p, k);
      assert k == n;
    }
  }

  lemma NulValue(e: seq<Byte>)
    requires IsForm(e) && 0 !in e
    ensures FormValue(e) == 0 <==> IsNulForm(e)
  {
    hide IsForm, FormValue;
    ZeroForms(e);
    assert [0][0] in [0];
  }

  /** The code points end with the terminator, and hold a NUL before it exactly when the
      string has an overlong form of NUL. */
  lemma {:induction false} NulInside(s: seq<Byte>, p: nat)
    requires Terminated(s) && p < |s| && Points(s, p).Some?
    ensures var cs := Points(s, p).value;
      && cs[|cs| - 1] == 0
      && (0 in cs[..|cs| - 1] <==> HasNulForm(Until0(s[p..])))
    decreases |s| - p
  {
    hide Decode8, HasNulForm, Until0, Points;
    NonEmpty(s[p..]);
    PointsSome(s, p);
    PointsStep(s, p);
    var r := Decode8(s, p);
    if s[p] == 0 {
      AsciiDecodes(s, p);
      NoNulForm();
    } else {
      NulStep(s, p);
      NulInside(s, r.last + 1);
      var cs, more := Points(s, p).value, Points(s, r.last + 1).value;
      assert cs[..|cs| - 1] == [r.c.value] + more[..|more| - 1];
    }
  }

  lemma PointsSome(s: seq<Byte>, p: nat)
    requires Terminated(s) && p < |s| && Points(s, p).Some?
    ensures Decode8(s, p).c.Some?
    ensures s[p] != 0 ==> s[Decode8(s, p).last] != 0 && Points(s, Decode8(s, p).last + 1).Some?
  {
    hide Decode8;
  }

  lemma NoNulForm()
    ensures !HasNulForm([])
  {
  }

  /** The same for the units. */
  lemma {:induction false} NulInUnits(cs: seq<nat>)
    requires cs != [] && cs[|cs| - 1] == 0 && forall k :: 0 <= k < |cs| ==> cs[k] <= 0x10FFFF
    ensures var us := Units(cs);
      us != [] && us[|us| - 1] == 0 && (0 in us[..|us| - 1] <==> 0 in cs[..|cs| - 1])
  {
    hide UnitsOf, Units;
    NulUnit(cs[0]);
    UnitsFirst(cs);
    if |cs| == 1 {
      assert Units(cs) == UnitsOf(0) + [] == [0];
      assert cs[..0] == [] && [0][..0] == [];
    } else {
      NulInUnits(cs[1..]);
      InitOf(UnitsOf(cs[0]), Units(cs[1..]));
      InitOf([cs[0]], cs[1..]);
      assert cs == [cs[0]] + cs[1..];
    }
  }

  lemma UnitsFirst(cs: seq<nat>)
    requires cs != [] && forall k :: 0 <= k < |cs| ==> cs[k] <= 0x10FFFF
    ensures Units(cs) == UnitsOf(cs[0]) + Units(cs[1..]) && (|cs| == 1 ==> Units(cs[1..]) == [])
  {
    hide UnitsOf;
  }

  /** All but the last of a concatenation, and whether 0 is there. */
  lemma InitOf(u: seq<int>, v: seq<int>)
    requires v != []
    ensures var w := u + v;
      w[|w| - 1] == v[|v| - 1] && (0 in w[..|w| - 1] <==> 0 in u || 0 in v[..|v| - 1])
  {
    var w := u + v;
    assert w[..|w| - 1] == u + v[..|v| - 1];
  }

  lemma NulUnit(c: nat)
    requires c <= 0x10FFFF
    ensures UnitsOf(0) == [0] && (0 in UnitsOf(c) <==> c == 0)
  {
  }

  /** uv_wtf8_to_utf16 writes a NUL before the end exactly for strings with an overlong form
      of NUL; so the units, read up to their first NUL, are then not all of them. */
  lemma NulBeforeEnd(s: seq<Byte>)
    requires Terminated(s) && Points(s, 0).Some?
    ensures var us := Units(Points(s, 0).value);
      && us != []
      && (0 in us[..|us| - 1] <==> HasNulForm(Until0(s)))
      && (|UntilNul(us)| < |us| - 1 <==> HasNulForm(Until0(s)))
  {
    hide Points, HasNulForm, Until0, Units;
    assert s[0..] == s;
    NulInside(s, 0);
    NulInUnits(Points(s, 0).value);
    var us := Units(Points(s, 0).value);
    var k := |UntilNul(us)|;
    if k < |us| - 1 {
      assert us[..|us| - 1][k] == us[k] == 0;
    } else {
      assert us[..|us| - 1] == UntilNul(us)[..|us| - 1];
    }
  }

  /** An input that shows it. */
  lemma NulBeforeEndExample()
    ensures var s := [0xE0, 0x80, 0x80, 0];
      Terminated(s) && Points(s, 0) == Some([0, 0]) && Units([0, 0]) == [0, 0] && HasNulForm(Until0(s))
  {
    var s: seq<Byte> := [0xE0, 0x80, 0x80, 0];
    assert Decode8(s, 0) == Decoded8(Some(0), 2);
    AsciiDecodes(s, 3);
    PointsStep(s, 0);
    PointsStep(s, 3);
    assert [0] + [0] == [0, 0];
    assert [0, 0][1..] == [0] && [0][1..] == [];
    assert Units([0]) == [0];
    var t := Until0(s);
    assert s[1..] == [0x80, 0x80, 0] && s[1..][1..] == [0x80, 0] && s[1..][1..][1..] == [0];
    assert t == [0xE0, 0x80, 0x80];
    assert t[..3] == t && IsForm(t[..3]) && IsNulForm(t[..3]);
  }
}
