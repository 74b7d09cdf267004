/**
 The texts that uv__idna_toascii writes, without the functions that describe the code:
 the parameters of Punycode, sample strings, and names as labels joined by full stops.
 */
module IdnaLaws {
  import opened Common
  import opened Arithmetic
  import opened Utf8
  import opened Utf8Laws
  import opened Punycode
  import opened IdnaLabel
  import opened IdnaRefusal
  import opened IdnaHost

  // ----- the parameters

  /** The threshold grows with the position, from tmin to tmax, and is the distance from
      the bias where that lies between them. */
  lemma Thresholds(k: nat, bias: nat)
    ensures k <= bias + 1 ==> T(k, bias) == 1
    ensures bias + 1 <= k <= bias + 26 ==> T(k, bias) == k - bias
    ensures bias + 26 <= k ==> T(k, bias) == 26
    ensures T(k, bias) <= T(k + 1, bias)
  {
  }

  const ALPHABET := "abcdefghijklmnopqrstuvwxyz0123456789"

  lemma Digits(d: nat)
    requires d < 36
    ensures DigitByte(d) == ALPHABET[d] as int && DigitValue(DigitByte(d)) == Some(d)
    ensures d < 26 ==> DigitValue(65 + d) == Some(d)
  {
  }

  function BytesOf(s: string): (r: seq<nat>)
    ensures |r| == |s| && forall i :: 0 <= i < |s| ==> r[i] == s[i] as int
  {
    seq(|s|, i requires 0 <= i < |s| => s[i] as int)
  }

  // ----- a pass for a value that occurs once

  /** A stretch without the value n only counts what is smaller. */
  lemma {:induction false} ScanCounts(cs: seq<nat>, n: nat, a: nat, b: nat, e: Enc)
    requires a <= b <= |cs| && (forall k :: a <= k < b ==> cs[k] != n)
    requires e.delta + |Kept(cs, n, 0, a, b)| <= UINT_MAX
    ensures Scan(cs, n, a, e) == Scan(cs, n, b, e.(delta := e.delta + |Kept(cs, n, 0, a, b)|))
    decreases b - a
  {
    hide Emit;
    if a < b {
      ScanCounts(cs, n, a + 1, b, if cs[a] < n then e.(delta := e.delta + 1) else e);
    }
  }

  /** One pass, in numbers: the entry j of value m is the only one; `before` and `after`
      say how many smaller entries stand on either side. */
  lemma PassOnce(cs: seq<nat>, n: nat, e: Enc, m: nat, j: nat, before: nat, after: nat)
    requires j < |cs| && cs[j] == m && n <= m
    requires forall k :: 0 <= k < |cs| ==> cs[k] < n || cs[k] > m || k == j
    requires |Kept(cs, m, 0, 0, j)| == before && |Kept(cs, m, 0, j + 1, |cs|)| == after
    requires e.delta + (m - n) * (e.h + 1) + before <= UINT_MAX && after <= UINT_MAX
    ensures var delta := e.delta + (m - n) * (e.h + 1) + before;
      Passes(cs, n, e) == Passes(cs, m + 1,
        Enc(after + 1, Adapt(delta, e.h + 1, e.first), e.h + 1, false, e.text + IntText(delta, 36, e.bias)))
  {
    hide Adapt, IntText, Kept, Scan;
    assert Least(cs, n, 0) == Some(m) by { LeastIs(cs, n, m, j); }
    assert Times(m - n, e.h + 1) == (m - n) * (e.h + 1);
    ScanOnce(cs, m, j, e.(delta := e.delta + (m - n) * (e.h + 1)));
  }

  lemma LeastIs(cs: seq<nat>, n: nat, m: nat, j: nat)
    requires j < |cs| && cs[j] == m && n <= m
    requires forall k :: 0 <= k < |cs| ==> cs[k] < n || cs[k] >= m
    ensures Least(cs, n, 0) == Some(m)
  {
  }

  lemma ScanOnce(cs: seq<nat>, m: nat, j: nat, e: Enc)
    requires j < |cs| && cs[j] == m && forall k :: 0 <= k < |cs| && k != j ==> cs[k] != m
    requires e.delta + |Kept(cs, m, 0, 0, j)| <= UINT_MAX && |Kept(cs, m, 0, j + 1, |cs|)| <= UINT_MAX
    ensures var e1 := Emit(e.(delta := e.delta + |Kept(cs, m, 0, 0, j)|));
      Scan(cs, m, 0, e) == Some(e1.(delta := |Kept(cs, m, 0, j + 1, |cs|)|))
  {
    hide Adapt, IntText, Kept;
    ScanCounts(cs, m, 0, j, e);
    ScanCounts(cs, m, j + 1, |cs|, Emit(e.(delta := e.delta + |Kept(cs, m, 0, 0, j)|)));
  }

  // ----- sample strings

  const BUECHER: seq<nat> := [98, 252, 99, 104, 101, 114]

  lemma BuecherCounts()
    ensures |Kept(BUECHER, 252, 0, 0, 1)| == 1 && |Kept(BUECHER, 252, 0, 2, 6)| == 4
    ensures Ascii(BUECHER) == BytesOf("bcher")
  {
  }

  /** The label "bücher". */
  lemma Buecher(cs: seq<nat>)
    requires cs == BUECHER
    ensures LabelResult(cs) == Text(BytesOf("xn--bcher-kva"))
  {
    hide Kept, Passes, Ascii, Adapt, IntText, LabelResult;
    BuecherCounts();
    PassOnce(BUECHER, 128, Enc(0, 72, 5, true, []), 252, 1, 1, 4);
    assert IntText(745, 36, 72) == BytesOf("kva") by { KvaText(); }
    Exhausted(BUECHER, 253, Enc(5, Adapt(745, 6, true), 6, false, [] + IntText(745, 36, 72)));
    assert cs[1] == 252;
    TextOf(cs, BytesOf("bcher"), [] + BytesOf("kva"));
    assert [120, 110, 45, 45] + BytesOf("bcher") + [45] + ([] + BytesOf("kva")) == BytesOf("xn--bcher-kva");
  }

  lemma KvaText()
    ensures IntText(745, 36, 72) == BytesOf("kva")
  {
  }

  lemma TextOf(cs: seq<nat>, basic: seq<Byte>, deltas: seq<Byte>)
    requires Ascii(cs) == basic && basic != [] && !IsAscii(cs)
    requires Passes(cs, 128, Enc(0, 72, |basic|, true, [])) == Some(deltas)
    ensures LabelResult(cs) == Text([120, 110, 45, 45] + basic + [45] + deltas)
  {
    hide Ascii, Passes, IsAscii;
    assert PREFIX + (basic + [HYPHEN] + deltas) == [120, 110, 45, 45] + basic + [45] + deltas;
  }

  lemma Exhausted(cs: seq<nat>, n: nat, e: Enc)
    requires forall k :: 0 <= k < |cs| ==> cs[k] < n
    ensures Passes(cs, n, e) == Some(e.text)
  {
  }

  /** Sample (L) of section 7.1 of RFC 3492: 3, U+5E74, B, and five more. */
  const SENSEI: seq<nat> := [0x33, 0x5E74, 0x42, 0x7D44, 0x91D1, 0x516B, 0x5148, 0x751F]

  lemma SenseiCounts()
    ensures |Kept(SENSEI, 0x5148, 0, 0, 6)| == 2 && |Kept(SENSEI, 0x5148, 0, 7, 8)| == 0
    ensures |Kept(SENSEI, 0x516B, 0, 0, 5)| == 2 && |Kept(SENSEI, 0x516B, 0, 6, 8)| == 1
    ensures |Kept(SENSEI, 0x5E74, 0, 0, 1)| == 1 && |Kept(SENSEI, 0x5E74, 0, 2, 8)| == 3
    ensures |Kept(SENSEI, 0x751F, 0, 0, 7)| == 5 && |Kept(SENSEI, 0x751F, 0, 8, 8)| == 0
    ensures |Kept(SENSEI, 0x7D44, 0, 0, 3)| == 3 && |Kept(SENSEI, 0x7D44, 0, 4, 8)| == 3
    ensures |Kept(SENSEI, 0x91D1, 0, 0, 4)| == 4 && |Kept(SENSEI, 0x91D1, 0, 5, 8)| == 3
    ensures Ascii(SENSEI) == BytesOf("3B")
  {
  }

  /** One digit of a delta, and what is left of it. */
  lemma Digit(q: nat, k: nat, bias: nat, d: nat, next: nat)
    requires T(k, bias) <= d < 36 && q == d + next * (36 - T(k, bias))
    ensures IntText(q, k, bias) == [DigitByte(d)] + IntText(next, k + 36, bias)
  {
    var t := T(k, bias);
    DivModOf(next, 36 - t, d - t);
    assert q - t == Times(next, 36 - t) + (d - t);
  }

  lemma LastDigit(q: nat, k: nat, bias: nat)
    requires q < T(k, bias)
    ensures IntText(q, k, bias) == [DigitByte(q)]
  {
  }

  lemma Text62042()
    ensures IntText(62042, 36, 72) == BytesOf("ww4c")
  {
    hide IntText;
    Digit(62042, 36, 72, 22, 1772);
    Digit(1772, 72, 72, 22, 50);
    Digit(50, 108, 72, 30, 2);
    LastDigit(2, 144, 72);
  }

  lemma Text139()
    ensures IntText(139, 36, 27) == BytesOf("5e")
  {
    hide IntText;
    Digit(139, 36, 27, 31, 4);
    LastDigit(4, 72, 27);
  }

  lemma Text16683()
    ensures IntText(16683, 36, 24) == BytesOf("180e")
  {
    hide IntText;
    Digit(16683, 36, 24, 27, 694);
    Digit(694, 72, 24, 34, 66);
    Digit(66, 108, 24, 26, 4);
    LastDigit(4, 144, 24);
  }

  lemma Text34821()
    ensures IntText(34821, 36, 67) == BytesOf("575a")
  {
    hide IntText;
    Digit(34821, 36, 67, 31, 994);
    Digit(994, 72, 67, 33, 31);
    Digit(31, 108, 67, 31, 0);
    LastDigit(0, 144, 67);
  }

  lemma Text14592()
    ensures IntText(14592, 36, 82) == BytesOf("65l")
  {
    hide IntText;
    Digit(14592, 36, 82, 32, 416);
    Digit(416, 72, 82, 31, 11);
    LastDigit(11, 108, 82);
  }

  lemma Text42088()
    ensures IntText(42088, 36, 67) == BytesOf("sy2b")
  {
    hide IntText;
    Digit(42088, 36, 67, 18, 1202);
    Digit(1202, 72, 67, 24, 38);
    Digit(38, 108, 67, 28, 1);
    LastDigit(1, 144, 67);
  }

  lemma AdaptIs(delta: nat, points: nat, first: bool, d: nat, more: nat)
    requires points > 0 && d == delta / (if first then 700 else 2) && more * points <= d < more * points + points
    ensures Adapt(delta, points, first) == Scale(d + more, 0)
  {
    hide Scale, Quot;
    DivModOf(more, points, d - more * points);
    assert Times(more, points) == more * points;
  }

  lemma SenseiBiases()
    ensures Adapt(62042, 3, true) == 27 && Adapt(139, 4, false) == 24 && Adapt(16683, 5, false) == 67
    ensures Adapt(34821, 6, false) == 82 && Adapt(14592, 7, false) == 67
  {
    hide Adapt;
    AdaptIs(62042, 3, true, 88, 29);
    AdaptIs(139, 4, false, 69, 17);
    AdaptIs(16683, 5, false, 8341, 1668);
    AdaptIs(34821, 6, false, 17410, 2901);
    AdaptIs(14592, 7, false, 7296, 1042);
    assert Scale(10009, 0) == Scale(285, 36) && Scale(8338, 0) == Scale(238, 36);
    assert Scale(20311, 0) == Scale(580, 36) == Scale(16, 72);
  }

  lemma SenseiPasses()
    ensures Passes(SENSEI, 128, Enc(0, 72, 2, true, [])) == Some(BytesOf("ww4c5e180e575a65lsy2b"))
  {
    hide Kept, Passes, Adapt, IntText, BytesOf;
    SenseiCounts();
    SenseiBiases();
    var s, t := SENSEI, [] + IntText(62042, 36, 72);
    PassOnce(s, 128, Enc(0, 72, 2, true, []), 0x5148, 6, 2, 0);
    PassOnce(s, 0x5149, Enc(1, 27, 3, false, t), 0x516B, 5, 2, 1);
    t := t + IntText(139, 36, 27);
    PassOnce(s, 0x516C, Enc(2, 24, 4, false, t), 0x5E74, 1, 1, 3);
    t := t + IntText(16683, 36, 24);
    PassOnce(s, 0x5E75, Enc(4, 67, 5, false, t), 0x751F, 7, 5, 0);
    t := t + IntText(34821, 36, 67);
    PassOnce(s, 0x7520, Enc(1, 82, 6, false, t), 0x7D44, 3, 3, 3);
    t := t + IntText(14592, 36, 82);
    PassOnce(s, 0x7D45, Enc(4, 67, 7, false, t), 0x91D1, 4, 4, 3);
    t := t + IntText(42088, 36, 67);
    Exhausted(s, 0x91D2, Enc(4, Adapt(42088, 8, false), 8, false, t));
    SenseiText();
  }

  lemma SenseiText()
    ensures [] + IntText(62042, 36, 72) + IntText(139, 36, 27) + IntText(16683, 36, 24)
      + IntText(34821, 36, 67) + IntText(14592, 36, 82) + IntText(42088, 36, 67)
      == BytesOf("ww4c5e180e575a65lsy2b")
  {
    hide IntText;
    Text62042();
    Text139();
    Text16683();
    Text34821();
    Text14592();
    Text42088();
  }

  lemma SenseiStart()
    ensures [120, 110, 45, 45] + BytesOf("3B") + [45] == BytesOf("xn--3B-")
  {
  }

  lemma Sensei(cs: seq<nat>)
    requires cs == SENSEI
    ensures LabelResult(cs) == Text(BytesOf("xn--3B-") + BytesOf("ww4c5e180e575a65lsy2b"))
  {
    hide Passes, Ascii, Kept, LabelResult, BytesOf;
    SenseiCounts();
    SenseiPasses();
    assert cs[1] == 0x5E74;
    TextOf(cs, BytesOf("3B"), BytesOf("ww4c5e180e575a65lsy2b"));
    assert [120, 110, 45, 45] + BytesOf("3B") + [45] == BytesOf("xn--3B-") by { SenseiStart(); }
  }

  // ----- names

  predicate IsStop(c: nat) {
    c == 0x2E || c == 0x3002 || c == 0xFF0E || c == 0xFF61
  }

  predicate NoStop(x: seq<nat>) {
    forall k :: 0 <= k < |x| ==> x[k] != 0x2E && x[k] != 0x3002 && x[k] != 0xFF0E && x[k] != 0xFF61
  }

  /** Only the code points from the current label on matter. */
  lemma {:induction false} HostShifts(x: seq<nat>, us: seq<nat>, whole: bool, start: nat, i: nat)
    requires start <= i <= |us|
    ensures HostResult(x + us, whole, |x| + start, |x| + i) == HostResult(us, whole, start, i)
    decreases |us| - i
  {
    hide LabelResult;
    assert (x + us)[|x| + start..|x| + i] == us[start..i];
    if i < |us| {
      HostShifts(x, us, whole, if IsDot(us[i]) then i + 1 else start, i + 1);
    } else {
      assert (x + us)[|x| + start..] == us[start..];
    }
  }

  lemma {:induction false} HostScans(x: seq<nat>, rest: seq<nat>, whole: bool, i: nat)
    requires NoStop(x) && i <= |x|
    ensures HostResult(x + rest, whole, 0, i) == HostResult(x + rest, whole, 0, |x|)
    decreases |x| - i
  {
    hide LabelResult;
    if i < |x| {
      assert (x + rest)[i] == x[i];
      HostScans(x, rest, whole, i + 1);
    }
  }

  /** The first label, and one full stop for whichever separator follows it. */
  lemma FirstLabel(x: seq<nat>, d: nat, rest: seq<nat>, whole: bool)
    requires NoStop(x) && (d == 0x2E || d == 0x3002 || d == 0xFF0E || d == 0xFF61)
    ensures var first, more := LabelResult(x), HostResult(rest, whole, 0, 0);
      HostResult(x + [d] + rest, whole, 0, 0) ==
        if first.Fails? then first else if more.Fails? then more else Text(first.text + [46] + more.text)
  {
    hide LabelResult, HostResult;
    var us := x + [d] + rest;
    assert us == x + ([d] + rest);
    HostScans(x, [d] + rest, whole, 0);
    HostShifts(x + [d], rest, whole, 0, 0);
    HostAtDot(us, whole, |x|);
    assert us[0..|x|] == x;
  }

  lemma HostAtDot(us: seq<nat>, whole: bool, i: nat)
    requires i < |us| && IsStop(us[i])
    ensures var first, more := LabelResult(us[0..i]), HostResult(us, whole, i + 1, i + 1);
      HostResult(us, whole, 0, i) ==
        if first.Fails? then first else if more.Fails? then more else Text(first.text + [46] + more.text)
  {
    hide LabelResult;
  }

  /** The last label; none is written for nothing, and an undecodable rest fails. */
  lemma LastPart(x: seq<nat>)
    requires NoStop(x)
    ensures HostResult(x, true, 0, 0) == LabelResult(x)
    ensures HostResult(x, false, 0, 0) == Fails(UV_EINVAL)
  {
    hide LabelResult;
    assert x + [] == x && x[0..] == x;
    HostScans(x, [], true, 0);
    HostScans(x, [], false, 0);
    EmptyLabel();
  }

  /** Labels with separators between them. */
  function Name(parts: seq<seq<nat>>, stops: seq<nat>): seq<nat>
    requires |parts| == |stops| + 1
  {
    if stops == [] then parts[0] else parts[0] + [stops[0]] + Name(parts[1..], stops[1..])
  }

  /** The texts of the labels, joined by '.'. */
  function Joined(parts: seq<seq<nat>>): seq<Byte>
    requires parts != [] && forall k :: 0 <= k < |parts| ==> LabelResult(parts[k]).Text?
  {
    if |parts| == 1 then LabelResult(parts[0]).text else LabelResult(parts[0]).text + [46] + Joined(parts[1..])
  }

  /** Any of the four full stops in, '.' out: a name becomes its labels' texts joined by
      '.', if none of them fails. */
  lemma {:induction false} NameIsJoined(parts: seq<seq<nat>>, stops: seq<nat>)
    requires |parts| == |stops| + 1 && (forall k :: 0 <= k < |stops| ==> IsStop(stops[k]))
    requires forall k :: 0 <= k < |parts| ==> NoStop(parts[k]) && LabelResult(parts[k]).Text?
    ensures HostResult(Name(parts, stops), true, 0, 0) == Text(Joined(parts))
    decreases |stops|
  {
    hide LabelResult, HostResult, NoStop, IsStop;
    if stops == [] {
      LastPart(parts[0]);
    } else {
      NameIsJoined(parts[1..], stops[1..]);
      StopIs(stops[0]);
      FirstLabel(parts[0], stops[0], Name(parts[1..], stops[1..]), true);
    }
  }

  lemma StopIs(d: nat)
    requires IsStop(d)
    ensures d == 0x2E || d == 0x3002 || d == 0xFF0E || d == 0xFF61
  {
  }

  /** a and b, with any of the four full stops between them. */
  lemma TwoLetters(d: nat)
    requires d == 0x2E || d == 0x3002 || d == 0xFF0E || d == 0xFF61
    ensures HostResult([97, d, 98], true, 0, 0) == Text([97, 46, 98])
  {
    hide HostResult;
    assert [97] + [d] + [98] == [97, d, 98];
    FirstLabel([97], d, [98], true);
    LastPart([98]);
  }

  // ----- whole calls

  /** The return value: the code of the first label that fails, UV_EINVAL for an
      undecodable rest, for nothing and for too little room, otherwise the length. */
  lemma CodeIs(s: seq<Byte>, room: nat)
    ensures s == [] ==> ReturnCode(s, room) == UV_EINVAL
    ensures s != [] ==>
      var r := HostResult(Read(s, 0).us, Read(s, 0).whole, 0, 0);
      && (r.Fails? ==> ReturnCode(s, room) == r.rc)
      && (r.Text? && |r.text| >= room ==> ReturnCode(s, room) == UV_EINVAL)
      && (r.Text? && |r.text| < room ==> ReturnCode(s, room) == |r.text| + 1)
  {
    hide HostResult, Read;
  }

  lemma OneByte(s: seq<Byte>, p: nat)
    requires p < |s| && s[p] < 128
    ensures Read(s, p) == Reading([s[p]] + Read(s, p + 1).us, Read(s, p + 1).whole)
  {
    hide DecodeAll;
    ReadFirst(s, p);
  }

  lemma De(cs: seq<nat>)
    requires cs == [100, 101]
    ensures HostResult(cs, true, 0, 0) == Text(BytesOf("de")) && |BytesOf("de")| == 2
  {
    hide HostResult, Tail;
    LastPart(cs);
  }

  /** A name in UTF-8, with U+00FC and an ideographic full stop. */
  const NAME: seq<Byte> := [0x62, 0xC3, 0xBC, 0x63, 0x68, 0x65, 0x72, 0xE3, 0x80, 0x82, 0x64, 0x65]

  lemma DecodesName(s: seq<Byte>)
    requires s == NAME
    ensures Decode1(s, 1, 12) == Decoded(Some(252), 3) && Decode1(s, 7, 12) == Decoded(Some(0x3002), 10)
  {
    hide Decode1;
    TwoExactly(s, 1, 12);
    ThreeExactly(s, 7, 12);
  }

  lemma ReadsEnd(s: seq<Byte>)
    requires s == NAME
    ensures Read(s, 7) == Reading([0x3002, 100, 101], true)
  {
    hide Read, DecodeAll, Decode1;
    DecodesName(s);
    ReadFirst(s, 7);
    OneByte(s, 10);
    OneByte(s, 11);
    ReadNothing(s);
  }

  lemma ReadsMiddle(s: seq<Byte>)
    requires s == NAME
    ensures Read(s, 3) == Reading([99, 104, 101, 114, 0x3002, 100, 101], true)
  {
    hide Read, DecodeAll, Decode1;
    ReadsEnd(s);
    OneByte(s, 3);
    OneByte(s, 4);
    OneByte(s, 5);
    OneByte(s, 6);
  }

  lemma ReadsName(s: seq<Byte>)
    requires s == NAME
    ensures Read(s, 0) == Reading(BUECHER + [0x3002] + [100, 101], true)
  {
    hide Read, DecodeAll, Decode1;
    DecodesName(s);
    ReadsMiddle(s);
    OneByte(s, 0);
    ReadFirst(s, 1);
  }

  lemma WholeName(s: seq<Byte>, room: nat)
    requires s == NAME
    ensures HostResult(Read(s, 0).us, Read(s, 0).whole, 0, 0)
      == Text(BytesOf("xn--bcher-kva") + [46] + BytesOf("de"))
    ensures ReturnCode(s, room) == if room >= 17 then 17 else UV_EINVAL
  {
    hide HostResult, Read, DecodeAll, LabelResult, BytesOf;
    ReadsName(s);
    CodeIs(s, room);
    Buecher(BUECHER);
    FirstLabel(BUECHER, 0x3002, [100, 101], true);
    De([100, 101]);
  }
}
