/** Surrogate pairs and their code points, bit by bit, and one pair converted both ways. */
module Wtf8Laws {
  import opened Common
  import opened Utf8
  import opened Wtf8

  /** A pair gives the ten high bits from the first unit, the ten low bits from the second. */
  lemma PairPoint(h: Unit, l: Unit, rest: seq<Unit>)
    requires 0xD800 <= h <= 0xDBFF && 0xDC00 <= l <= 0xDFFF
    ensures var c := Head([h, l] + rest);
      && c / 0x400 == 0x40 + (h as int - 0xD800) && c % 0x400 == l as int - 0xDC00
      && 0x10000 <= c <= 0x10FFFF && UnitsOf(c) == [h, l]
  {
    var c := Head([h, l] + rest);
    assert c == (0x40 + (h as int - 0xD800)) * 0x400 + (l as int - 0xDC00);
    assert ([h, l] + rest)[..2] == [h, l];
  }

  /** Any other unit stands for itself. */
  lemma LoneUnit(u: seq<Unit>)
    requires u != [] && !(|u| > 1 && 0xD800 <= u[0] <= 0xDBFF && 0xDC00 <= u[1] <= 0xDFFF)
    ensures Head(u) == u[0] && UnitsOf(u[0]) == [u[0]]
  {
  }

  /** And back: the pair of a code point beyond U+FFFF. */
  lemma PointPair(c: nat)
    requires 0x10000 <= c <= 0x10FFFF
    ensures var r := UnitsOf(c);
      && |r| == 2 && 0xD800 <= r[0] <= 0xDBFF && 0xDC00 <= r[1] <= 0xDFFF
      && c == 0x10000 + (r[0] as int - 0xD800) * 0x400 + (r[1] as int - 0xDC00)
  {
  }

  /** U+1F600, from UTF-16 to WTF-8 and from WTF-8 to UTF-16. */
  lemma Smiley()
    ensures Encoded([0xD83D, 0xDE00]) == [0xF0, 0x9F, 0x98, 0x80]
    ensures var s := [0xF0, 0x9F, 0x98, 0x80, 0];
      Terminated(s) && Points(s, 0) == Some([0x1F600, 0]) && Units([0x1F600, 0]) == [0xD83D, 0xDE00, 0]
  {
    hide Points;
    var u: seq<Unit> := [0xD83D, 0xDE00];
    PairPoint(0xD83D, 0xDE00, []);
    assert u + [] == u && u[2..] == [];
    assert Head(u) == 0x1F600;
    assert Encoded(u) == Encode1(0x1F600) + Encoded([]);
    var s: seq<Byte> := [0xF0, 0x9F, 0x98, 0x80, 0];
    assert s[0..4] == Encode1(0x1F600);
    Decode8Correct(s, 0, 0x1F600);
    AsciiDecodes(s, 4);
    PointsStep(s, 0);
    PointsStep(s, 4);
    assert [0x1F600] + [0] == [0x1F600, 0];
    assert [0x1F600, 0][1..] == [0] && [0][1..] == [];
    assert Units([0]) == [0];
  }
}
