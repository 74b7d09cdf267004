/**
 Products, quotients and remainders of unknowns. Lemmas hide the bodies of Times, Quot
 and Rem and use only the laws below.
 */
module Arithmetic {
  lemma {:induction false} MulGrows(a: nat, b: nat)
    requires b > 0
    ensures a <= a * b
  {
    if a > 0 {
      MulGrows(a - 1, b);
      assert a * b == (a - 1) * b + b;
    }
  }

  function Times(a: nat, b: nat): nat { a * b }

  function Quot(x: nat, y: nat): (q: nat)
    requires y > 0
    ensures q <= x
  {
    DivShrinks(x, y);
    x / y
  }

  function Rem(x: nat, y: nat): (r: nat)
    requires y > 0
    ensures r < y
  {
    x % y
  }

  lemma DivShrinks(x: nat, y: nat)
    requires y > 0
    ensures 0 <= x / y <= x && x == (x / y) * y + x % y
  {
    var p, r := x / y, x % y;
    assert x == p * y + r;
    MulGrows(p, y);
  }

  lemma QuotRem(x: nat, y: nat)
    requires y > 0
    ensures x == Times(Quot(x, y), y) + Rem(x, y)
  {
    DivShrinks(x, y);
  }

  lemma TimesUnit(c: nat)
    ensures Times(0, c) == 0 && Times(1, c) == c
  {
  }

  lemma TimesAdd(a: nat, b: nat, c: nat)
    ensures Times(a + b, c) == Times(a, c) + Times(b, c)
  {
  }

  lemma TimesMono(a: nat, b: nat, c: nat)
    requires a <= b
    ensures Times(a, c) <= Times(b, c)
  {
    assert Times(b, c) == a * c + (b - a) * c;
    assert (b - a) * c >= 0;
  }

  lemma TimesAssoc(a: nat, b: nat, c: nat)
    ensures Times(a, Times(b, c)) == Times(Times(a, c), b)
  {
    assert a * (b * c) == (a * c) * b;
  }

  lemma NextRow(p: nat, q: nat, at: nat, len: nat)
    requires p > q && at < len
    ensures Times(p, len) > Times(q, len) + at
  {
    MulGrows(len, p - q);
    assert p * len == q * len + len * (p - q);
  }

  /** Quotient and remainder are unique. */
  lemma DivModOf(q: nat, len: nat, at: nat)
    requires at < len
    ensures Quot(Times(q, len) + at, len) == q && Rem(Times(q, len) + at, len) == at
  {
    hide Times, Quot, Rem;
    var x := Times(q, len) + at;
    QuotRem(x, len);
    var p := Quot(x, len);
    if p > q {
      NextRow(p, q, at, len);
    } else if p < q {
      NextRow(q, p, Rem(x, len), len);
    }
  }
}
