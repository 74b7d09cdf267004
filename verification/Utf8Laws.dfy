/**
 Exactly which bytes uv__utf8_decode1 accepts. Its test combines the continuation bytes by
 exclusive or, so that some ill-formed sequences pass.
 */
module Utf8Laws {
  import opened Common
  import opened Utf8

  /** Encodings of one to four bytes: A, U+00FC, U+20AC and U+1F600. */
  lemma Encodings()
    ensures Encode1(0x41) == [0x41] && Encode1(0xFC) == [0xC3, 0xBC] && Encode1(0x20AC) == [0xE2, 0x82, 0xAC]
    ensures Encode1(0x1F600) == [0xF0, 0x9F, 0x98, 0x80]
  {
  }

  /** One byte, or none that can begin a character. */
  lemma OneExactly(s: seq<Byte>, p: nat, pe: nat)
    requires p < pe <= |s| && (s[p] < 0xC0 || s[p] > 0xF7 || pe == p + 1)
    ensures Decode1(s, p, pe) == Decoded(if s[p] < 0x80 then Some(s[p]) else None, p + 1)
  {
  }

  /** Two bytes, for a lead byte that announces two or has no more behind it: the second
      continues, and the form is not overlong. */
  lemma TwoExactly(s: seq<Byte>, p: nat, pe: nat)
    requires p + 2 <= pe <= |s| && 0xC0 <= s[p] <= 0xF7 && (s[p] <= 0xDF || pe == p + 2)
    ensures var a: nat, b: nat := s[p], s[p + 1];
      Decode1(s, p, pe) == Decoded(if 0x80 <= b <= 0xBF && a % 32 >= 2 then Some(a % 32 * 64 + b - 0x80) else None, p + 2)
  {
    Quarter(0x80);
    Quarter(0x80 + s[p] % 32);
    Quarter(s[p + 1]);
  }

  lemma Quarter(b: nat)
    requires b < 256
    ensures b / 128 == b / 64 / 2 && b == b / 64 * 64 + b % 64 && b / 64 < 4
  {
  }

  /** Three bytes: the second and the third agree in their two leading bits, whatever
      those are. */
  lemma ThreeExactly(s: seq<Byte>, p: nat, pe: nat)
    requires p + 3 <= pe <= |s| && 0xE0 <= s[p] <= 0xF7 && (s[p] <= 0xEF || pe == p + 3)
    ensures var a: nat, b: nat, c: nat := s[p], s[p + 1], s[p + 2];
      var v := a % 16 * 0x1000 + b % 64 * 64 + c % 64;
      var ok := b / 64 == c / 64 && v >= 0x800 && !(0xD800 <= v <= 0xDFFF);
      Decode1(s, p, pe) == Decoded(if ok then Some(v) else None, p + 3)
  {
    hide ContinuationTest;
    SameTest(0x80 + s[p] % 16, s[p + 1], s[p + 2]);
  }

  lemma SameTest(b: nat, c: nat, d: nat)
    requires 0x80 <= b <= 0xBF && c < 256 && d < 256
    ensures ContinuationTest(b, c, d) <==> c / 64 == d / 64
  {
    TestIs(b, c, d);
    Quarter(c);
    Quarter(d);
  }

  /** Four bytes: of the last three, an odd number has the first bit set and an even number
      the second. */
  lemma FourExactly(s: seq<Byte>, p: nat, pe: nat)
    requires p + 4 <= pe <= |s| && 0xF0 <= s[p] <= 0xF7
    ensures var a: nat, b: nat, c: nat, d: nat := s[p], s[p + 1], s[p + 2], s[p + 3];
      var v := a % 8 * 0x40000 + b % 64 * 0x1000 + c % 64 * 64 + d % 64;
      var x, y, z := b / 64, c / 64, d / 64;
      var ok := (x / 2 + y / 2 + z / 2) % 2 == 1 && (x % 2 + y % 2 + z % 2) % 2 == 0 && 0x10000 <= v <= 0x10FFFF;
      Decode1(s, p, pe) == Decoded(if ok then Some(v) else None, p + 4)
  {
    hide ContinuationTest;
    TestIs(s[p + 1], s[p + 2], s[p + 3]);
  }

  lemma TestIs(b: nat, c: nat, d: nat)
    requires b < 256 && c < 256 && d < 256
    ensures var x, y, z := b / 64, c / 64, d / 64;
      ContinuationTest(b, c, d) <==> (x / 2 + y / 2 + z / 2) % 2 == 1 && (x % 2 + y % 2 + z % 2) % 2 == 0
  {
    Quarter(b);
    Quarter(c);
    Quarter(d);
  }

  /** How many more bytes a lead byte announces. */
  function Announced(a: Byte): nat
  {
    if a < 0xC0 then 0 else if a < 0xE0 then 1 else if a < 0xF0 then 2 else 3
  }

  /** What is accepted is well-formed UTF-8 exactly when as many bytes follow as the first
      announces, and all of them continue. */
  lemma WellFormedExactly(s: seq<Byte>, p: nat, pe: nat)
    requires p < pe <= |s| && Decode1(s, p, pe).c.Some?
    ensures var r := Decode1(s, p, pe);
      s[p..r.next] == Encode1(r.c.value)
      <==> r.next == p + 1 + Announced(s[p]) && forall k :: p < k < r.next ==> Continues(s[k])
  {
    hide Decode1, Encode1;
    var r := Decode1(s, p, pe);
    if s[p] < 0xC0 || s[p] > 0xF7 || pe == p + 1 {
      OneExactly(s, p, pe);
      RebuiltOne(s[p]);
      assert s[p..p + 1] == [s[p]];
    } else if s[p] <= 0xDF || pe == p + 2 {
      TwoExactly(s, p, pe);
      RebuiltTwo(s[p], s[p + 1]);
      assert s[p..p + 2] == [s[p], s[p + 1]];
    } else if s[p] <= 0xEF || pe == p + 3 {
      ThreeExactly(s, p, pe);
      RebuiltThree(s[p], s[p + 1], s[p + 2]);
      assert s[p..p + 3] == [s[p], s[p + 1], s[p + 2]];
    } else {
      FourExactly(s, p, pe);
      RebuiltFour(s[p], s[p + 1], s[p + 2], s[p + 3]);
      assert s[p..p + 4] == [s[p], s[p + 1], s[p + 2], s[p + 3]];
    }
    if s[p..r.next] == Encode1(r.c.value) {
      Continued(r.c.value);
      assert s[p] == s[p..r.next][0];
      forall k | p < k < r.next ensures Continues(s[k]) {
        assert s[k] == s[p..r.next][k - p];
      }
    }
  }

  lemma Continued(u: nat)
    requires u <= 0x10FFFF
    ensures |Encode1(u)| == 1 + Announced(Encode1(u)[0])
    ensures forall k :: 0 < k < |Encode1(u)| ==> Continues(Encode1(u)[k])
  {
    Sextets(u);
  }

  lemma RebuiltOne(a: nat)
    requires a < 256
    ensures a < 0x80 ==> Encode1(a) == [a]
  {
  }

  lemma RebuiltTwo(a: nat, b: nat)
    requires 0xC0 <= a < 256 && b < 256
    ensures var u := a % 32 * 64 + b - 0x80;
      a < 0xE0 && 0x80 <= b <= 0xBF && 0x80 <= u ==> Encode1(u) == [a, b]
  {
    if a < 0xE0 && 0x80 <= b <= 0xBF {
      Sum(0, 0, a - 0xC0, b - 0x80);
    }
  }

  lemma Sextet(b: nat)
    requires 0x80 <= b <= 0xBF
    ensures b % 64 == b - 0x80
  {
  }

  lemma ThreeBytes(x: nat, y: nat, z: nat)
    requires x < 16 && y < 64 && z < 64 && x * 0x1000 + y * 64 + z >= 0x800
    ensures Encode1(x * 0x1000 + y * 64 + z) == [0xE0 + x, 0x80 + y, 0x80 + z]
  {
    Sum(0, x, y, z);
  }

  lemma FourBytes(a: nat, x: nat, y: nat, z: nat)
    requires a < 8 && x < 64 && y < 64 && z < 64 && 0x10000 <= a * 0x40000 + x * 0x1000 + y * 64 + z <= 0x10FFFF
    ensures Encode1(a * 0x40000 + x * 0x1000 + y * 64 + z) == [0xF0 + a, 0x80 + x, 0x80 + y, 0x80 + z]
  {
    Sum(a, x, y, z);
  }

  lemma RebuiltThree(a: nat, b: nat, c: nat)
    requires 0xE0 <= a < 256 && b < 256 && c < 256
    ensures var u := a % 16 * 0x1000 + b % 64 * 64 + c % 64;
      a < 0xF0 && 0x80 <= b <= 0xBF && 0x80 <= c <= 0xBF && 0x800 <= u ==> Encode1(u) == [a, b, c]
  {
    hide Encode1;
    if a < 0xF0 && 0x80 <= b <= 0xBF && 0x80 <= c <= 0xBF {
      Sextet(b);
      Sextet(c);
      if a % 16 * 0x1000 + b % 64 * 64 + c % 64 >= 0x800 {
        ThreeBytes(a % 16, b % 64, c % 64);
      }
    }
  }

  lemma RebuiltFour(a: nat, b: nat, c: nat, d: nat)
    requires 0xF0 <= a <= 0xF7 && b < 256 && c < 256 && d < 256
    ensures var u := a % 8 * 0x40000 + b % 64 * 0x1000 + c % 64 * 64 + d % 64;
      0x80 <= b <= 0xBF && 0x80 <= c <= 0xBF && 0x80 <= d <= 0xBF && 0x10000 <= u <= 0x10FFFF ==> Encode1(u) == [a, b, c, d]
  {
    hide Encode1;
    if 0x80 <= b <= 0xBF && 0x80 <= c <= 0xBF && 0x80 <= d <= 0xBF {
      Sextet(b);
      Sextet(c);
      Sextet(d);
      if 0x10000 <= a % 8 * 0x40000 + b % 64 * 0x1000 + c % 64 * 64 + d % 64 <= 0x10FFFF {
        FourBytes(a % 8, b % 64, c % 64, d % 64);
      }
    }
  }

  /** Ill-formed bytes that pass: E4 '8' '-' is taken for U+4E2D. */
  lemma IllFormedAccepted(s: seq<Byte>)
    requires s == [0xE4, 0x38, 0x2D]
    ensures Decode1(s, 0, 3) == Decoded(Some(0x4E2D), 3) && Encode1(0x4E2D) == [0xE4, 0xB8, 0xAD]
  {
    hide Decode1;
    ThreeExactly(s, 0, 3);
  }
}
