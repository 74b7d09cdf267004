/** Sequences without repetition, as queues use them. */
module Sequences {

  /** No element occurs twice. */
  predicate NoDup<T(==)>(q: seq<T>) {
    q == [] || (q[0] !in q[1..] && NoDup(q[1..]))
  }

  /** The same, by position. */
  ghost predicate Distinct<T>(c: seq<T>) {
    forall i, j :: 0 <= i < |c| && 0 <= j < |c| && c[i] == c[j] ==> i == j
  }

  /** The sequence without its k-th element. */
  function Without<T>(s: seq<T>, k: nat): seq<T>
    requires k < |s|
  {
    s[..k] + s[k + 1..]
  }

  /** The queue after x has been unlinked from it. */
  function Unlink<T(==)>(q: seq<T>, x: T): (r: seq<T>)
    ensures |r| <= |q|
  {
    if q == [] then [] else if q[0] == x then q[1..] else [q[0]] + Unlink(q[1..], x)
  }

  lemma {:induction false} UnlinkEffect<T>(q: seq<T>, x: T)
    requires NoDup(q)
    ensures NoDup(Unlink(q, x))
    ensures forall y :: y in Unlink(q, x) <==> y in q && y != x
    ensures x !in q ==> Unlink(q, x) == q
    ensures q != [] && q[0] != x ==> Unlink(q, x) != [] && Unlink(q, x)[0] == q[0]
    ensures |Unlink(q, x)| == |q| - (if x in q then 1 else 0)
  {
    if q != [] {
      assert q == [q[0]] + q[1..];
      if q[0] != x {
        UnlinkEffect(q[1..], x);
        assert Unlink(q, x)[1..] == Unlink(q[1..], x);
      }
    }
  }

  lemma {:induction false} NoDupAppend<T>(q: seq<T>, x: T)
    requires NoDup(q) && x !in q
    ensures NoDup(q + [x])
    ensures forall y :: y in q + [x] <==> y in q || y == x
  {
    if q != [] {
      assert (q + [x])[1..] == q[1..] + [x];
      NoDupAppend(q[1..], x);
    }
  }

  lemma NoDupRest<T>(q: seq<T>)
    requires NoDup(q) && q != []
    ensures NoDup(q[1..]) && q[0] !in q[1..]
    ensures forall y :: y in q[1..] <==> y in q && y != q[0]
  {
    assert q == [q[0]] + q[1..];
  }

  lemma {:induction false} NoDupPrefix<T>(q: seq<T>)
    requires NoDup(q) && q != []
    ensures NoDup(q[..|q| - 1]) && q[|q| - 1] !in q[..|q| - 1]
  {
    if |q| > 1 {
      NoDupPrefix(q[1..]);
      assert q[..|q| - 1] == [q[0]] + q[1..][..|q| - 2];
      assert q[|q| - 1] == q[1..][|q| - 2];
    }
  }

  lemma {:induction false} NoDupDistinct<T>(q: seq<T>)
    requires NoDup(q)
    ensures Distinct(q)
  {
    if q != [] {
      NoDupDistinct(q[1..]);
      forall i, j | 0 <= i < |q| && 0 <= j < |q| && q[i] == q[j] ensures i == j {
        assert i > 0 ==> q[1..][i - 1] == q[i];
        assert j > 0 ==> q[1..][j - 1] == q[j];
      }
    }
  }

  lemma {:induction false} UnlinkIsWithout<T>(q: seq<T>, k: nat)
    requires NoDup(q) && k < |q|
    ensures Unlink(q, q[k]) == Without(q, k)
  {
    if k > 0 {
      UnlinkIsWithout(q[1..], k - 1);
      assert q[k] == q[1..][k - 1] && q[k] in q[1..];
      assert Without(q, k) == [q[0]] + Without(q[1..], k - 1);
    }
  }
}
