/** The loops of the terminal input reader. */
module TokenizerCode {
  import opened Common
  import opened Utf8
  import opened Tokenizer

  ghost predicate Decreasing(s: seq<nat>) {
    forall i, j :: 0 <= i < j < |s| ==> s[i] > s[j]
  }

  /** The lengths of the known sequences, each once, the largest first. */
  ghost predicate LengthsOf(t: Table, sizes: seq<nat>) {
    Decreasing(sizes) && forall k :: k in t ==> |k| in sizes
  }

  /** seqLengths: the set of lengths, then sorted. */
  method SeqLengths(t: Table) returns (sizes: seq<nat>)
    ensures LengthsOf(t, sizes) && forall n :: n in sizes ==> exists k :: k in t && |k| == n
  {
    var lengths: set<nat>, rest := {}, t.Keys;
    while rest != {}
      invariant rest <= t.Keys
      invariant forall k :: k in t && k !in rest ==> |k| in lengths
      invariant forall n :: n in lengths ==> exists k :: k in t && |k| == n
    {
      var k :| k in rest;
      lengths := lengths + {|k|};
      rest := rest - {k};
    }
    sizes := Descending(lengths);
  }

  method Descending(lengths: set<nat>) returns (sizes: seq<nat>)
    ensures Decreasing(sizes) && forall n :: n in sizes <==> n in lengths
  {
    sizes := [];
    var rest := lengths;
    while rest != {}
      invariant Decreasing(sizes) && rest <= lengths
      invariant forall n :: n in sizes <==> n in lengths && n !in rest
      invariant forall i, n :: 0 <= i < |sizes| && n in rest ==> n < sizes[i]
    {
      var n := Largest(rest);
      sizes := sizes + [n];
      rest := rest - {n};
    }
  }

  method Largest(s: set<nat>) returns (n: nat)
    requires s != {}
    ensures n in s && forall m :: m in s ==> m <= n
  {
    n :| n in s;
    var rest := s - {n};
    while rest != {}
      invariant rest <= s && n in s && forall m :: m in s && m !in rest ==> m <= n
    {
      var m :| m in rest;
      if m > n {
        n := m;
      }
      rest := rest - {m};
    }
  }

  lemma KnownLength(t: Table, sizes: seq<nat>, b: seq<Byte>, m: nat)
    requires LengthsOf(t, sizes) && m <= |b|
    ensures b[..m] in t ==> m in sizes
  {
    assert |b[..m]| == m;
  }

  /** detectSequence: the first size in the list that fits is the longest match. */
  method FindSequence(t: Table, sizes: seq<nat>, b: seq<Byte>) returns (r: Option<Found>)
    requires LengthsOf(t, sizes)
    ensures r == DetectSequence(t, b)
  {
    hide CsiEnd;
    var i := 0;
    while i < |sizes|
      invariant i <= |sizes|
      invariant forall j :: 0 <= j < i && sizes[j] <= |b| ==> b[..sizes[j]] !in t
    {
      var n := sizes[i];
      if n <= |b| && b[..n] in t {
        forall m | n < m <= |b| ensures b[..m] !in t {
          KnownLength(t, sizes, b, m);
        }
        return Some(Found(n, KeyPress(t[b[..n]])));
      }
      i := i + 1;
    }
    forall m | 0 <= m <= |b| ensures b[..m] !in t {
      KnownLength(t, sizes, b, m);
    }
    assert Longest(t, b, |b|).None?;
    var e := CsiEnd(b);
    r := if e.Some? then Some(Found(e.value, UnknownCsi(b[..e.value]))) else None;
  }

  /** detectBracketedPaste */
  method FindPaste(b: seq<Byte>) returns (r: Option<Found>)
    ensures r == DetectPaste(b)
  {
    hide IndexOf, DecodeRune;
    if !(PASTE_START <= b) {
      return None;
    }
    var input := b[6..];
    var idx := IndexOf(input, PASTE_END, 0);
    if idx.None? {
      return Some(NeedMore);
    }
    var paste, runes := input[..idx.value], [];
    ghost var all := PasteRunes(paste);
    while |paste| > 0
      invariant runes + PasteRunes(paste) == all
      decreases |paste|
    {
      var d := DecodeRune(paste);
      if d.r != RUNE_ERROR {
        runes := runes + [d.r];
      }
      paste := paste[d.width..];
    }
    assert runes == all;
    r := Some(Found(6 + idx.value + 6, Paste(runes)));
  }

  /** The run of text from position i0 on, and where it ends. */
  method FindRunes(b: seq<Byte>, i0: nat, alt: bool) returns (runes: seq<nat>, i: nat)
    requires i0 <= |b|
    ensures runes == RuneRun(b, i0, alt) && i == i0 + |EncodeAll(runes)|
  {
    hide DecodeRune, EncodeAll, Encode1;
    runes, i := [], i0;
    ghost var all := RuneRun(b, i0, alt);
    assert EncodeAll([]) == [] by { NoText(); }
    while i < |b|
      invariant i <= |b| && runes + RuneRun(b, i, alt) == all
      invariant i + |EncodeAll(RuneRun(b, i, alt))| == i0 + |EncodeAll(all)|
      decreases |b| - i
    {
      var d := DecodeRune(b[i..]);
      if Stops(d.r) {
        return;
      }
      RunStep(b, i, alt);
      runes := runes + [d.r];
      i := i + d.width;
      if alt {
        return;
      }
    }
  }

  lemma NoText()
    ensures EncodeAll([]) == []
  {
  }

  lemma RunStep(b: seq<Byte>, i: nat, one: bool)
    requires i < |b| && !Stops(DecodeRune(b[i..]).r)
    ensures var d := DecodeRune(b[i..]);
      |EncodeAll(RuneRun(b, i, one))| ==
        d.width + if one then 0 else |EncodeAll(RuneRun(b, i + d.width, one))|
  {
    hide DecodeRune, Encode1;
    var d := DecodeRune(b[i..]);
    DecodeRuneExact(b[i..]);
    var more := if one then [] else RuneRun(b, i + d.width, one);
    assert RuneRun(b, i, one) == [d.r] + more;
    assert ([d.r] + more)[1..] == more;
  }

  /** detectOneMsg */
  method DetectOneMsg(t: Table, sizes: seq<nat>, b: seq<Byte>, more: bool) returns (r: Found)
    requires LengthsOf(t, sizes) && b != []
    ensures r == Detect(t, b, more)
  {
    hide DetectSequence, DetectPaste, EncodeAll, RuneRun, LengthsOf, SgrEnd;
    if |b| >= 6 && b[0] == ESC && b[1] == 91 {
      if b[2] == 77 {
        return Found(6, MouseX10(b[3..6]));
      } else if b[2] == 60 {
        var e := SgrEnd(b[3..], 0);
        if e.Some? {
          return Found(3 + e.value, MouseSgr(b[3..3 + e.value]));
        }
      }
    }
    assert DetectMouse(b).None?;
    if DetectFocus(b).Some? {
      return DetectFocus(b).value;
    }
    var paste := FindPaste(b);
    if paste.Some? {
      return paste.value;
    }
    var found := FindSequence(t, sizes, b);
    if found.Some? {
      return found.value;
    }
    r := FindPlain(b, more);
  }

  /** The rest of detectOneMsg. */
  method FindPlain(b: seq<Byte>, more: bool) returns (r: Found)
    requires b != []
    ensures r == DetectPlain(b, more)
  {
    hide EncodeAll, RuneRun;
    var alt, i := false, 0;
    if b[0] == ESC {
      alt := true;
      i := i + 1;
    }
    if i < |b| && b[i] == 0 {
      return Found(i + 1, Nul(alt));
    }
    var runes;
    runes, i := FindRunes(b, i, alt);
    if i >= |b| && more {
      return NeedMore;
    }
    if |runes| > 0 {
      return Found(i, Runes(runes, alt));
    }
    if alt && |b| == 1 {
      return Found(1, Escape);
    }
    return Found(1, UnknownByte(b[0]));
  }

  /** readAnsiInputs: the bytes carried over and the messages sent so far. */
  class Reader {
    const table: Table
    const sizes: seq<nat>
    var left: seq<Byte>
    var sent: seq<Token>
    ghost var input: seq<seq<Byte>>

    /** What was sent and kept is what all the reads together give. */
    ghost predicate Valid() reads this {
      TableOk(table) && LengthsOf(table, sizes) && Cut(sent, left) == AllReads(table, [], input)
    }

    constructor (t: Table)
      requires TableOk(t)
      ensures Valid() && table == t && input == []
    {
      table := t;
      var s := SeqLengths(t);
      sizes := s;
      left, sent, input := [], [], [];
    }

    /** One turn of the outer loop. */
    method Read(chunk: seq<Byte>)
      requires Valid() && |chunk| <= BUFFER
      modifies this
      ensures Valid() && input == old(input) + [chunk]
      ensures Bytes(sent) + left == Joined(input)
    {
      hide TableOk, LengthsOf, CutAll, Detect;
      ghost var sent0, left0, input0 := sent, left, input;
      var b, more := left + chunk, |chunk| == BUFFER;
      ghost var goal := CutAll(table, b, more);
      var i: nat := 0;
      left := [];
      while i < |b|
        invariant i <= |b| && left == [] && input == input0
        invariant sent0 <= sent && CutAll(table, b[i..], more).left == goal.left
        invariant sent + CutAll(table, b[i..], more).tokens == sent0 + goal.tokens
        decreases |b| - i
      {
        var found := DetectOneMsg(table, sizes, b[i..], more);
        CutStep(table, b[i..], more);
        assert found.Found? ==> b[i..][found.width..] == b[i + found.width..];
        if found.NeedMore? {
          left := b[i..];
          break;
        }
        sent := sent + [Token(b[i..][..found.width], found.msg)];
        i := i + found.width;
      }
      assert b[|b|..] == [];
      CutNothing(table, more);
      input := input + [chunk];
      ReadsAppend(table, [], input0, chunk);
      ReadsTile(table, [], input);
    }
  }

  lemma {:induction false} ReadsAppend(t: Table, left: seq<Byte>, chunks: seq<seq<Byte>>, chunk: seq<Byte>)
    requires TableOk(t)
    ensures var r := AllReads(t, left, chunks);
      var last := OneRead(t, r.left, chunk);
      AllReads(t, left, chunks + [chunk]) == Cut(r.tokens + last.tokens, last.left)
    decreases |chunks|
  {
    hide OneRead, TableOk;
    if chunks == [] {
      var last := OneRead(t, left, chunk);
      assert ([chunk])[1..] == [] && chunks + [chunk] == [chunk];
      assert AllReads(t, last.left, []) == Cut([], last.left);
    } else {
      var first := OneRead(t, left, chunks[0]);
      assert (chunks + [chunk])[1..] == chunks[1..] + [chunk];
      ReadsAppend(t, first.left, chunks[1..], chunk);
    }
  }
}
