/** IPv4 addresses as text: inet_ntop4 and inet_pton4. */
module Inet4 {
  import opened Common

  predicate IsDigit(c: Byte) { 48 <= c <= 57 }

  /** "%u" on an octet. */
  function Dec(v: Byte): seq<Byte> {
    if v < 10 then [48 + v]
    else if v < 100 then [48 + v / 10, 48 + v % 10]
    else [48 + v / 100, 48 + v / 10 % 10, 48 + v % 10]
  }

  /** The text inet_ntop4 prints: "%u.%u.%u.%u". */
  function Text4(a: seq<Byte>): seq<Byte>
    requires |a| == 4
  {
    Dec(a[0]) + [DOT] + Dec(a[1]) + [DOT] + Dec(a[2]) + [DOT] + Dec(a[3])
  }

  // ----- the parser

  /** The variables of inet_pton4: the octets before the current one, the current one
      (*tp) and saw_digit. The C variable `octets` is the number of octets begun. */
  datatype Scan = Scan(done: seq<Byte>, cur: Byte, saw: bool)

  function Octets(st: Scan): nat { |st.done| + if st.saw then 1 else 0 }

  const START: Scan := Scan([], 0, false)

  /** One character; None is UV_EINVAL. */
  function Step(st: Scan, c: Byte): Option<Scan> {
    if IsDigit(c) then
      var nw := st.cur * 10 + (c - 48);
      if st.saw && st.cur == 0 then None
      else if nw > 255 then None
      else if !st.saw && Octets(st) + 1 > 4 then None
      else Some(Scan(st.done, nw, true))
    else if c == DOT && st.saw then
      if Octets(st) == 4 then None else Some(Scan(st.done + [st.cur], 0, false))
    else None
  }

  function Steps(st: Scan, s: seq<Byte>): Option<Scan>
    decreases |s|
  {
    if s == [] then Some(st)
    else
      var r := Step(st, s[0]);
      if r.None? then None else Steps(r.value, s[1..])
  }

  /** The whole of inet_pton4. */
  function Parse4(s: seq<Byte>): Option<seq<Byte>> {
    var r := Steps(START, s);
    if r.None? || Octets(r.value) < 4 then None else Some(r.value.done + [r.value.cur])
  }

  lemma {:induction false} StepsConcat(st: Scan, a: seq<Byte>, b: seq<Byte>)
    ensures Steps(st, a + b) == if Steps(st, a).None? then None else Steps(Steps(st, a).value, b)
    decreases |a|
  {
    if a == [] {
      assert a + b == b;
    } else {
      assert (a + b)[1..] == a[1..] + b;
      var r := Step(st, a[0]);
      if r.Some? {
        StepsConcat(r.value, a[1..], b);
      }
    }
  }

  lemma Steps1(st: Scan, c: Byte)
    ensures Steps(st, [c]) == Step(st, c)
  {
    assert [c][1..] == [];
  }

  lemma StepDigit(st: Scan, d: nat)
    requires d < 10 && !(st.saw && st.cur == 0) && st.cur * 10 + d < 256 && (!st.saw ==> |st.done| < 4)
    ensures Steps(st, [48 + d]) == Some(Scan(st.done, st.cur * 10 + d, true))
  {
    Steps1(st, 48 + d);
  }

  lemma StepTwo(st: Scan, d: nat, e: nat)
    requires d < 10 && e < 10 && !(st.saw && st.cur == 0) && (!st.saw ==> |st.done| < 4)
    requires 0 < st.cur * 10 + d && (st.cur * 10 + d) * 10 + e < 256
    ensures Steps(st, [48 + d] + [48 + e]) == Some(Scan(st.done, (st.cur * 10 + d) * 10 + e, true))
  {
    hide Steps, Step;
    StepsConcat(st, [48 + d], [48 + e]);
    StepDigit(st, d);
    StepDigit(Scan(st.done, st.cur * 10 + d, true), e);
  }

  /** An octet's decimal text is read back as the octet. */
  lemma StepsDec(done: seq<Byte>, v: Byte)
    requires |done| < 4
    ensures Steps(Scan(done, 0, false), Dec(v)) == Some(Scan(done, v, true))
  {
    hide Steps, Step;
    var st := Scan(done, 0, false);
    if v >= 100 {
      var x, y, z := v / 100, v / 10 % 10, v % 10;
      assert 100 * x + 10 * y + z == v;
      assert Dec(v) == [48 + x] + ([48 + y] + [48 + z]);
      StepsConcat(st, [48 + x], [48 + y] + [48 + z]);
      StepDigit(st, x);
      StepTwo(Scan(done, x, true), y, z);
    } else if v >= 10 {
      assert Dec(v) == [48 + v / 10] + [48 + v % 10];
      StepTwo(st, v / 10, v % 10);
    } else {
      StepDigit(st, v);
    }
  }

  /** A finished octet and its dot. */
  lemma StepsDot(done: seq<Byte>, v: Byte, rest: seq<Byte>)
    requires |done| < 3
    ensures Steps(Scan(done, 0, false), Dec(v) + [DOT] + rest) == Steps(Scan(done + [v], 0, false), rest)
  {
    hide Steps, Dec;
    assert Dec(v) + [DOT] + rest == Dec(v) + ([DOT] + rest);
    StepsConcat(Scan(done, 0, false), Dec(v), [DOT] + rest);
    StepsDec(done, v);
    StepsConcat(Scan(done, v, true), [DOT], rest);
    Steps1(Scan(done, v, true), DOT);
  }

  /** Parsing undoes printing, for every address. */
  lemma ParseText(a: seq<Byte>)
    requires |a| == 4
    ensures Parse4(Text4(a)) == Some(a)
  {
    hide Steps, Step, Dec;
    var t3 := Dec(a[3]);
    var t2 := Dec(a[2]) + [DOT] + t3;
    var t1 := Dec(a[1]) + [DOT] + t2;
    assert Text4(a) == Dec(a[0]) + [DOT] + t1;
    StepsDot([], a[0], t1);
    StepsDot([a[0]], a[1], t2);
    StepsDot([a[0], a[1]], a[2], t3);
    assert [] + [a[0]] == [a[0]] && [a[0]] + [a[1]] == [a[0], a[1]];
    assert [a[0], a[1]] + [a[2]] == [a[0], a[1], a[2]];
    StepsDec([a[0], a[1], a[2]], a[3]);
    assert [a[0], a[1], a[2]] + [a[3]] == a;
  }

  // ----- nothing else is accepted

  function Dotted(done: seq<Byte>): seq<Byte> {
    if done == [] then [] else Dotted(done[..|done| - 1]) + Dec(done[|done| - 1]) + [DOT]
  }

  /** What has been read when the parser is in state st. */
  function ReadSoFar(st: Scan): seq<Byte> {
    Dotted(st.done) + if st.saw then Dec(st.cur) else []
  }

  predicate ScanOk(st: Scan) {
    Octets(st) <= 4 && (st.saw || (st.cur == 0 && |st.done| < 4))
  }

  lemma DecAppend(v: Byte, d: nat)
    requires 0 < v && d < 10 && v * 10 + d < 256
    ensures Dec(v * 10 + d) == Dec(v) + [48 + d]
  {
  }

  lemma StepReads(st: Scan, c: Byte)
    requires ScanOk(st) && Step(st, c).Some?
    ensures ScanOk(Step(st, c).value) && ReadSoFar(Step(st, c).value) == ReadSoFar(st) + [c]
  {
    var r := Step(st, c).value;
    if IsDigit(c) {
      if st.saw {
        DecAppend(st.cur, c - 48);
        assert ReadSoFar(r) == Dotted(st.done) + (Dec(st.cur) + [c]);
      }
    } else {
      assert r.done[..|r.done| - 1] == st.done;
    }
  }

  lemma {:induction false} StepsRead(st: Scan, s: seq<Byte>)
    requires ScanOk(st) && Steps(st, s).Some?
    ensures ScanOk(Steps(st, s).value) && ReadSoFar(Steps(st, s).value) == ReadSoFar(st) + s
    decreases |s|
  {
    if s != [] {
      StepReads(st, s[0]);
      StepsRead(Step(st, s[0]).value, s[1..]);
      assert ReadSoFar(st) + s == ReadSoFar(st) + [s[0]] + s[1..];
    }
  }

  lemma DottedThree(d: seq<Byte>)
    requires |d| == 3
    ensures Dotted(d) == Dec(d[0]) + [DOT] + Dec(d[1]) + [DOT] + Dec(d[2]) + [DOT]
  {
    hide Dec;
    assert d[..2][..1] == d[..1] && d[..1][..0] == [];
    assert Dotted(d[..1]) == Dec(d[0]) + [DOT];
    assert Dotted(d[..2]) == Dotted(d[..1]) + Dec(d[1]) + [DOT];
  }

  lemma NothingRead()
    ensures ReadSoFar(START) == [] && ScanOk(START)
  {
  }

  /** inet_pton4 accepts exactly the texts inet_ntop4 prints, and gives back the address. */
  lemma ParseExactly(s: seq<Byte>)
    ensures Parse4(s).Some? ==> |Parse4(s).value| == 4 && Text4(Parse4(s).value) == s
    ensures Parse4(s).None? ==> forall a: seq<Byte> | |a| == 4 :: Text4(a) != s
  {
    hide Steps, Step, Dec, Dotted;
    if Parse4(s).Some? {
      StepsRead(START, s);
      var st := Steps(START, s).value;
      assert |st.done| == 3 && st.saw;
      DottedThree(st.done);
      NothingRead();
      assert [] + s == s;
    } else {
      forall a: seq<Byte> | |a| == 4 ensures Text4(a) != s {
        ParseText(a);
      }
    }
  }

  /** 192.168.0.20 */
  lemma Sample4()
    ensures Text4([192, 168, 0, 20]) == [49, 57, 50, 46, 49, 54, 56, 46, 48, 46, 50, 48]
    ensures Parse4([49, 57, 50, 46, 49, 54, 56, 46, 48, 46, 50, 48]) == Some([192, 168, 0, 20])
  {
    hide Parse4;
    ParseText([192, 168, 0, 20]);
  }
}
