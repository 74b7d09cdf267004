/** The loops of the WTF-8 converters, over buffers. */
module Wtf8Code {
  import opened Common
  import opened Utf8
  import opened Wtf8

  // ----- WTF-8 to UTF-16

  /** uv_wtf8_length_as_utf16 */
  method LengthAsUtf16(s: seq<Byte>) returns (n: int)
    requires Terminated(s)
    ensures n == -1 <==> !AllForms(Until0(s))
    ensures Points(s, 0).None? ==> n == -1
    ensures Points(s, 0).Some? ==> n == |Units(Points(s, 0).value)|
  {
    hide Decode8, UnitsOf, AllForms, Until0;
    assert s[0..] == s;
    AcceptsExactly(s, 0);
    n := 0;
    var p := 0;
    while true
      invariant p < |s| && n >= 0 && (Points(s, 0).Some? <==> Points(s, p).Some?)
      invariant Points(s, p).Some? ==> n + |Units(Points(s, p).value)| == |Units(Points(s, 0).value)|
      decreases |s| - p
    {
      PointsUnits(s, p);
      var r := Decode8(s, p);
      if r.c.None? {
        return -1;
      }
      if r.c.value > 0xFFFF {
        n := n + 1;
      }
      n := n + 1;
      if s[r.last] == 0 {
        return;
      }
      p := r.last + 1;
    }
  }

  /** One code point gives its units, then come those of the rest. */
  lemma PointsUnits(s: seq<Byte>, p: nat)
    requires Terminated(s) && p < |s|
    ensures var r := Decode8(s, p);
      Points(s, p).Some? <==> r.c.Some? && (s[r.last] == 0 || Points(s, r.last + 1).Some?)
    ensures Points(s, p).Some? ==>
      var r := Decode8(s, p);
      Units(Points(s, p).value) == UnitsOf(r.c.value) + Rest(s, r.last)
  {
    hide Decode8, UnitsOf;
    var r := Decode8(s, p);
    if Points(s, p).Some? {
      var cs := Points(s, p).value;
      assert cs[0] == r.c.value && Units(cs) == UnitsOf(cs[0]) + Units(cs[1..]);
      if s[r.last] == 0 {
        assert cs[1..] == [];
      } else {
        assert cs[1..] == Points(s, r.last + 1).value;
      }
    }
  }

  /** What follows the character that ends at `last`. */
  function Rest(s: seq<Byte>, last: nat): seq<Unit>
    requires Terminated(s) && last < |s|
  {
    if s[last] == 0 || Points(s, last + 1).None? then [] else Units(Points(s, last + 1).value)
  }

  /** The store of one code point. */
  method PutUnits(w: array<Unit>, at: nat, c: nat) returns (next: nat)
    requires c <= 0x10FFFF && at + Width(c) <= w.Length
    modifies w
    ensures next == at + Width(c)
    ensures w[..next] == old(w[..at]) + UnitsOf(c) && w[next..] == old(w[next..])
  {
    next := at;
    if c > 0xFFFF {
      w[next] := (c - 0x10000) / 0x400 + 0xD800;
      w[next + 1] := (c - 0x10000) % 0x400 + 0xDC00;
      next := next + 2;
    } else {
      w[next] := c;
      next := next + 1;
    }
  }

  /** The code points before the first character that is rejected; all, if none is. */
  function Decodable(s: seq<Byte>, p: nat): (r: seq<nat>)
    requires Terminated(s) && p < |s|
    ensures forall k :: 0 <= k < |r| ==> r[k] <= 0x10FFFF
    ensures Points(s, p).Some? ==> r == Points(s, p).value
    decreases |s| - p
  {
    var d := Decode8(s, p);
    if d.c.None? then []
    else if s[d.last] == 0 then [0]
    else [d.c.value] + Decodable(s, d.last + 1)
  }

  lemma DecodableStep(s: seq<Byte>, p: nat)
    requires Terminated(s) && p < |s| && Decode8(s, p).c.Some?
    ensures var d := Decode8(s, p);
      && (Points(s, p).Some? <==> s[d.last] == 0 || Points(s, d.last + 1).Some?)
      && Decodable(s, p) == [d.c.value] + (if s[d.last] == 0 then [] else Decodable(s, d.last + 1))
      && Units(Decodable(s, p)) == UnitsOf(d.c.value)
           + (if s[d.last] == 0 then [] else Units(Decodable(s, d.last + 1)))
  {
    hide Decode8, UnitsOf;
    var cs := Decodable(s, p);
    assert Units(cs) == UnitsOf(cs[0]) + Units(cs[1..]);
    if s[Decode8(s, p).last] == 0 {
      assert cs[1..] == [];
    } else {
      assert cs[1..] == Decodable(s, Decode8(s, p).last + 1);
    }
  }

  /** uv_wtf8_to_utf16. It stops at an assertion exactly when a character is rejected, when
      U+10FFFF occurs, or when the length it was given is not the one that
      uv_wtf8_length_as_utf16 computes. */
  method ToUtf16(s: seq<Byte>, w: array<Unit>, len: nat) returns (aborted: bool)
    requires Terminated(s) && w.Length >= |Units(Decodable(s, 0))|
    modifies w
    ensures aborted <==>
      Points(s, 0).None? || 0x10FFFF in Points(s, 0).value || len != |Units(Points(s, 0).value)|
    ensures !aborted ==> w[..] == Units(Points(s, 0).value) + old(w[|Units(Points(s, 0).value)|..])
  {
    hide Decode8, UnitsOf, Points, Units, Decodable;
    ghost var cs := Decodable(s, 0);
    ghost var all := Units(cs);
    ghost var tail := w[|all|..];
    var p: nat, at: nat, left: int := 0, 0, len;
    while true
      invariant p < |s| && at <= |all| && left == len - at
      invariant Points(s, 0).Some? <==> Points(s, p).Some?
      invariant w[..at] + Units(Decodable(s, p)) == all && w[|all|..] == tail
      invariant 0x10FFFF in cs <==> 0x10FFFF in Decodable(s, p)
      decreases |s| - p
    {
      var r := Decode8(s, p);
      if r.c.None? {
        NotPoints(s, p);
        return true;
      }
      DecodableStep(s, p);
      if r.c.value == 0x10FFFF {
        return true;
      }
      ghost var was, rest := w[..], (if s[r.last] == 0 then [] else Units(Decodable(s, r.last + 1)));
      at := PutUnits(w, at, r.c.value);
      left := left - Width(r.c.value);
      assert w[|all|..] == w[at..][|all| - at..] == was[at..][|all| - at..];
      assert w[..at] + rest == all;
      if s[r.last] == 0 {
        break;
      }
      p := r.last + 1;
    }
    aborted := left != 0;
    assert w[..] == w[..at] + w[at..];
  }

  lemma NotPoints(s: seq<Byte>, p: nat)
    requires Terminated(s) && p < |s| && Decode8(s, p).c.None?
    ensures Points(s, p).None?
  {
  }

  // ----- UTF-16 to WTF-8

  /** The source at index i: len units if len >= 0, else up to a NUL that is there. */
  predicate Readable(w: seq<Unit>, i: nat, len: int) {
    if len >= 0 then i + len <= |w| else i < |w| && w[|w| - 1] == 0
  }

  /** The units that are meant. */
  function Pending(w: seq<Unit>, i: nat, len: int): seq<Unit>
    requires Readable(w, i, len)
  {
    if len >= 0 then w[i..i + len] else UntilNul(w[i..])
  }

  /** uv__get_surrogate_value */
  function SurrogateValue(w: seq<Unit>, i: nat, len: int): (c: nat)
    requires Readable(w, i, len) && len != 0
    ensures Pending(w, i, len) != [] ==> c == Head(Pending(w, i, len))
    ensures Pending(w, i, len) == [] ==> c == 0
  {
    var u: int := w[i];
    if High(u) && len != 1 then
      var next: int := w[i + 1];
      if Low(next) then 0x10000 + (u - 0xD800) * 0x400 + (next - 0xDC00) else u
    else u
  }

  lemma Advance(w: seq<Unit>, i: nat, len: int)
    requires Readable(w, i, len) && Pending(w, i, len) != []
    ensures var k := Width(Head(Pending(w, i, len)));
      var len1 := if len > 0 then len - k else len;
      && Readable(w, i + k, len1)
      && Pending(w, i + k, len1) == Pending(w, i, len)[k..]
  {
    hide UnitsOf, Head, UntilNul;
    if len < 0 {
      var u := w[i..];
      UntilNulStarts(u);
      UntilNulSplit(u);
      var k := Width(Head(u));
      assert u[k..] == w[i + k..];
    }
  }

  lemma UntilNulStarts(u: seq<Unit>)
    requires u != [] && u[|u| - 1] == 0
    ensures UntilNul(u) == [] <==> u[0] == 0
    ensures u[0] != 0 ==> Head(UntilNul(u)) == Head(u) && Width(Head(u)) < |u|
  {
    hide UnitsOf;
    if |u| > 1 {
      assert u[1..][0] == u[1];
    }
  }

  /** w_source_len after k units. */
  function LengthAfter(len: int, k: nat): int { if len > 0 then len - k else len }

  /** What the converters do with one code point. */
  lemma NextPoint(w: seq<Unit>, i: nat, len: int)
    requires Readable(w, i, len) && len != 0
    ensures var c, u := SurrogateValue(w, i, len), Pending(w, i, len);
      && i < |w| && c <= 0x10FFFF
      && (u == [] <==> len < 0 && c == 0)
      && (u == [] ==> Encoded(u) == [] && w[i] == 0)
      && (u != [] ==>
          && c == Head(u) && (if len < 0 then w[i] != 0 else Width(c) <= len)
          && i + Width(c) <= |w| && Readable(w, i + Width(c), LengthAfter(len, Width(c)))
          && Encoded(u) == Encode1(c) + Encoded(Pending(w, i + Width(c), LengthAfter(len, Width(c)))))
  {
    hide UnitsOf, Head, UntilNul, Encode1, Encoded, SurrogateValue;
    var u := Pending(w, i, len);
    EncodedStep(u);
    if len < 0 {
      UntilNulStarts(w[i..]);
    }
    if u != [] {
      Advance(w, i, len);
    }
  }

  lemma InBounds(w: seq<Unit>, i: nat, len: int)
    requires Readable(w, i, len)
    ensures i <= |w|
  {
  }

  lemma NothingPending(w: seq<Unit>, i: nat)
    requires i <= |w|
    ensures Readable(w, i, 0) && Pending(w, i, 0) == [] && Encoded(Pending(w, i, 0)) == []
  {
  }

  /** uv_utf16_length_as_wtf8 */
  method LengthAsWtf8(w: seq<Unit>, start: nat, len: int) returns (n: nat)
    requires Readable(w, start, len)
    ensures n == |Encoded(Pending(w, start, len))|
  {
    hide UnitsOf, Head, UntilNul, Encoded, Readable, Pending, SurrogateValue, Encode1;
    InBounds(w, start, len);
    n := 0;
    var i: nat, l := start, len;
    while l != 0
      invariant i <= |w| && Readable(w, i, l) && n + |Encoded(Pending(w, i, l))| == |Encoded(Pending(w, start, len))|
      decreases |w| - i
    {
      NextPoint(w, i, l);
      var c := SurrogateValue(w, i, l);
      if l < 0 && c == 0 {
        return;
      }
      SizeOf(c);
      if c < 0x80 {
        n := n + 1;
      } else if c < 0x800 {
        n := n + 2;
      } else if c < 0x10000 {
        n := n + 3;
      } else {
        n := n + 4;
        i := i + 1;
        if l > 0 {
          l := l - 1;
        }
      }
      i := i + 1;
      if l > 0 {
        l := l - 1;
      }
    }
    NothingPending(w, i);
  }

  lemma SizeOf(c: nat)
    requires c <= 0x10FFFF
    ensures |Encode1(c)| == if c < 0x80 then 1 else if c < 0x800 then 2 else if c < 0x10000 then 3 else 4
  {
  }

  /** The stores of one code point, each but the first after a test for the end. */
  method PutBytes(buf: array<Byte>, at: nat, end: nat, c: nat) returns (next: nat, whole: bool)
    requires at < end < buf.Length && c <= 0x10FFFF
    modifies buf
    ensures whole <==> at + |Encode1(c)| <= end
    ensures next == if whole then at + |Encode1(c)| else end
    ensures buf[..next] == old(buf[..at]) + Encode1(c)[..next - at]
    ensures buf[end..] == old(buf[end..])
  {
    ghost var was, e := buf[..at], Encode1(c);
    next, whole := at, false;
    if c < 0x80 {
      next := Put(buf, next, end, c, was, e);
    } else if c < 0x800 {
      next := Put(buf, next, end, 0xC0 + c / 64, was, e);
      if next == end {
        return;
      }
      next := Put(buf, next, end, 0x80 + c % 64, was, e);
    } else if c < 0x10000 {
      next := Put(buf, next, end, 0xE0 + c / 0x1000, was, e);
      if next == end {
        return;
      }
      next := Put(buf, next, end, 0x80 + c / 64 % 64, was, e);
      if next == end {
        return;
      }
      next := Put(buf, next, end, 0x80 + c % 64, was, e);
    } else {
      next := Put(buf, next, end, 0xF0 + c / 0x40000, was, e);
      if next == end {
        return;
      }
      next := Put(buf, next, end, 0x80 + c / 0x1000 % 64, was, e);
      if next == end {
        return;
      }
      next := Put(buf, next, end, 0x80 + c / 64 % 64, was, e);
      if next == end {
        return;
      }
      next := Put(buf, next, end, 0x80 + c % 64, was, e);
    }
    whole := true;
  }

  /** *target++ = b, the next byte of e. */
  method Put(buf: array<Byte>, at: nat, end: nat, b: Byte, ghost was: seq<Byte>, ghost e: seq<Byte>)
    returns (next: nat)
    requires at < end < buf.Length && 0 <= at - |was| < |e| && b == e[at - |was|]
    requires buf[..at] == was + e[..at - |was|]
    modifies buf
    ensures next == at + 1 && buf[..next] == was + e[..next - |was|] && buf[end..] == old(buf[end..])
  {
    buf[at] := b;
    next := at + 1;
  }

  /** Something is left to convert, and its first code point does not fit into n bytes. */
  predicate FirstTooLong(u: seq<Unit>, n: nat) {
    u != [] && n < |Encode1(Head(u))|
  }

  /** One code point of the source: its stores and, if they are complete, the way past it. */
  method FillOne(w: seq<Unit>, i0: nat, l0: int, buf: array<Byte>, t: nat, n: nat, c: nat)
    returns (i: nat, l: int, t1: nat, whole: bool)
    requires i0 <= |w| && l0 != 0 && Readable(w, i0, l0) && Pending(w, i0, l0) != []
    requires c == SurrogateValue(w, i0, l0) && c <= 0x10FFFF && t < n < buf.Length
    modifies buf
    ensures whole <==> t + |Encode1(c)| <= n
    ensures whole ==>
      && i0 < i <= |w| && Readable(w, i, l) && t1 == t + |Encode1(c)|
      && buf[..t1] == old(buf[..t]) + Encode1(c)
      && Encoded(Pending(w, i0, l0)) == Encode1(c) + Encoded(Pending(w, i, l))
    ensures !whole ==> i == i0 && l == l0 && t1 == n && buf[..n] == old(buf[..t]) + Encode1(c)[..n - t]
    ensures buf[n + 1..] == old(buf[n + 1..])
  {
    hide UnitsOf, Head, UntilNul, Encode1, Encoded, Readable, Pending, SurrogateValue;
    NextPoint(w, i0, l0);
    i, l := i0, l0;
    t1, whole := PutBytes(buf, t, n, c);
    assert buf[n + 1..] == buf[n..][1..];
    if !whole {
      return;
    }
    assert Encode1(c)[..|Encode1(c)|] == Encode1(c);
    if c >= 0x10000 {
      i := i + 1;
      if l > 0 {
        l := l - 1;
      }
    }
    i := i + 1;
    if l > 0 {
      l := l - 1;
    }
  }

  /** uv_utf16_to_wtf8 into a buffer of n bytes and a NUL. If the bytes do not fit, the
      buffer holds as many as fit, and the length reported is enough for another call; it
      is the exact length unless a non-empty buffer was too short for the first code point. */
  method Fill(w: seq<Unit>, len: int, buf: array<Byte>, n: nat) returns (rc: int, reported: nat)
    requires Readable(w, 0, len) && n < buf.Length
    modifies buf
    ensures var full := Encoded(Pending(w, 0, len));
      && rc == (if |full| <= n then 0 else UV_ENOBUFS)
      && (rc == 0 ==> buf[..|full|] == full && buf[|full|] == 0 && reported == |full|)
      && (rc != 0 ==> buf[..n] == full[..n] && buf[n] == 0)
      && (rc != 0 ==> reported == |full| + if FirstTooLong(Pending(w, 0, len), n) then n else 0)
    ensures buf[n + 1..] == old(buf[n + 1..])
  {
    hide UnitsOf, Head, UntilNul, Encode1, Encoded, Readable, Pending, SurrogateValue, FirstTooLong;
    ghost var u0 := Pending(w, 0, len);
    ghost var full := Encoded(u0);
    ghost var tail := buf[n + 1..];
    var i: nat, l, t: nat, wholeLen: nat := 0, len, 0, n;
    ghost var done: nat := 0;
    while t != n && l != 0
      invariant i <= |w| && Readable(w, i, l) && t <= n && t == done && buf[n + 1..] == tail
      invariant buf[..t] + Encoded(Pending(w, i, l)) == full
      invariant wholeLen == if done == 0 then n else done
      invariant if done == 0 then Pending(w, i, l) == u0 else !FirstTooLong(u0, n)
      decreases |w| - i
    {
      NextPoint(w, i, l);
      var c := SurrogateValue(w, i, l);
      if l < 0 && c == 0 {
        NothingPending(w, i);
        l := 0;
        break;
      }
      TooLong(Pending(w, i, l), n);
      ghost var before := buf[..t];
      var whole;
      i, l, t, whole := FillOne(w, i, l, buf, t, n, c);
      if !whole {
        break;
      }
      assert before + (Encode1(c) + Encoded(Pending(w, i, l))) == before + Encode1(c) + Encoded(Pending(w, i, l));
      wholeLen := t;
      done := t;
    }
    assert buf[..t] <= full;
    NothingPending(w, i);
    assert done == 0 && |full| > n > 0 ==> FirstTooLong(u0, n);
    rc, reported := Seal(w, i, l, buf, t, n, wholeLen, full, done);
    assert buf[n + 1..] == tail;
  }

  /** The end of uv_utf16_to_wtf8; `done` bytes of `full` belong to whole code points. */
  method Seal(w: seq<Unit>, i: nat, l0: int, buf: array<Byte>, t: nat, n: nat, wholeLen: nat,
              ghost full: seq<Byte>, ghost done: nat) returns (rc: int, reported: nat)
    requires i <= |w| && Readable(w, i, l0) && t <= n < buf.Length && buf[..t] <= full
    requires done <= t && done + |Encoded(Pending(w, i, l0))| == |full|
    requires t == n || (done == t && l0 == 0)
    requires done < t ==> |full| > n
    modifies buf
    ensures rc == (if |full| <= n then 0 else UV_ENOBUFS)
    ensures rc == 0 ==> buf[..|full|] == full && buf[|full|] == 0 && reported == |full|
    ensures rc != 0 ==> buf[..n] == full[..n] && buf[n] == 0 && reported == wholeLen + |full| - done
    ensures buf[n + 1..] == old(buf[n + 1..])
  {
    hide UnitsOf, Head, UntilNul, Encode1, Encoded, Readable, Pending, SurrogateValue;
    var l := l0;
    reported := n;
    if t != n {
      reported := t;
    }
    if l == 0 {
      NothingPending(w, i);
    } else {
      NextPoint(w, i, l);
    }
    if l < 0 && t == n && w[i] == 0 {
      l := 0;
    }
    ghost var written := buf[..t];
    buf[t] := 0;
    assert buf[..t] == written;
    if l != 0 {
      var more := LengthAsWtf8(w, i, l);
      return UV_ENOBUFS, wholeLen + more;
    }
    rc := 0;
  }

  lemma TooLong(u: seq<Unit>, n: nat)
    requires u != []
    ensures FirstTooLong(u, n) <==> n < |Encode1(Head(u))|
  {
  }

  /** What uv_utf16_to_wtf8 is called with: no target pointer, a target pointer to NULL, or
      a buffer of n bytes and a NUL. */
  datatype Target = Nowhere | Fresh | Buffer(buf: array<Byte>, n: nat)

  ghost function Written(target: Target): set<array<Byte>> {
    if target.Buffer? then {target.buf} else {}
  }

  /** uv_utf16_to_wtf8; `memory` says whether there is memory to be had. Without a target it
      only computes the length; a buffer of its own is exactly filled. */
  method ToWtf8(w: seq<Unit>, len: int, target: Target, memory: bool)
    returns (rc: int, out: array?<Byte>, reported: nat)
    requires Readable(w, 0, len) && (target.Buffer? ==> target.n < target.buf.Length)
    modifies Written(target)
    ensures target.Nowhere? ==> rc == 0 && out == null
    ensures target.Fresh? ==> rc == (if memory then 0 else UV_ENOMEM)
    ensures target.Fresh? && !memory ==> out == null
    ensures target.Fresh? && memory ==>
      out != null && fresh(out) && out[..] == Encoded(Pending(w, 0, len)) + [0]
    ensures !target.Buffer? ==> reported == |Encoded(Pending(w, 0, len))|
    ensures target.Buffer? ==>
      var full := Encoded(Pending(w, 0, len));
      && out == target.buf && rc == (if |full| <= target.n then 0 else UV_ENOBUFS)
      && |full| <= reported
      && (rc == 0 ==> out[..|full|] == full && out[|full|] == 0 && reported == |full|)
      && (rc != 0 ==> out[..target.n] == full[..target.n] && out[target.n] == 0)
  {
    hide Encoded, Pending, Readable;
    match target
    case Nowhere =>
      reported := LengthAsWtf8(w, 0, len);
      return 0, null, reported;
    case Fresh =>
      reported := LengthAsWtf8(w, 0, len);
      if !memory {
        return UV_ENOMEM, null, reported;
      }
      var buf := new Byte[reported + 1](_ => 0);
      var n := reported;
      rc, reported := Fill(w, len, buf, n);
      assert buf[..] == buf[..n] + [buf[n]];
      out := buf;
    case Buffer(buf, n) =>
      rc, reported := Fill(w, len, buf, n);
      out := buf;
  }

  /** Both converters, one after the other. */
  method ThereAndBack(u: seq<Unit>) returns (aborted: bool, back: array<Unit>)
    ensures aborted <==> HasTop(UntilNul(u))
    ensures !aborted ==> back[..] == UntilNul(u) + [0]
  {
    hide Encoded, Points, PointsOf, Units, HasTop, UntilNul;
    var rc, buf, length := ToWtf8(u, |u|, Fresh, true);
    assert Pending(u, 0, |u|) == u by {
      assert u[0..0 + |u|] == u;
    }
    RoundTrip(u);
    TopPoint(u);
    var n := LengthAsUtf16(buf[..]);
    back := new Unit[n](_ => 0);
    aborted := ToUtf16(buf[..], back, n);
    assert back[..] == back[..n];
  }
}
