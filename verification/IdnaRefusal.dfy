/**
 Which labels the encoder refuses with UV_E2BIG: a condition on the label alone, by the
 order of its code points, without running the encoder.
 */
module IdnaRefusal {
  import opened Common
  import opened Arithmetic
  import opened Punycode
  import opened IdnaLabel

  // ----- the condition

  /** How many entries come before entry p, by value and then by place. */
  function Rank(cs: seq<nat>, p: nat): nat
    requires p < |cs|
  {
    |All(cs, cs[p], p)|
  }

  /** How many of those also stand before it. */
  function Ahead(cs: seq<nat>, p: nat): nat
    requires p < |cs|
  {
    |Kept(cs, cs[p], p, 0, p)|
  }

  predicate Before(cs: seq<nat>, j: nat, p: nat) {
    j < |cs| && p < |cs| && cs[j] >= 128 && (cs[j] < cs[p] || (cs[j] == cs[p] && j < p))
  }

  /** No code point outside ASCII comes before entry p. */
  ghost predicate IsFirst(cs: seq<nat>, p: nat) {
    forall k: nat :: !Before(cs, k, p)
  }

  /** Entry j is the last outside ASCII that comes before entry p. */
  ghost predicate IsPrev(cs: seq<nat>, j: nat, p: nat) {
    Before(cs, j, p) && forall k: nat :: Before(cs, k, p) ==> k == j || Before(cs, k, j)
  }

  /** The delta of entry p fits 32 bits. Deltas count insertion points: for every value
      passed over since the entry before, one more than there are entries by then. */
  ghost predicate DeltaFits(cs: seq<nat>, p: nat)
    requires p < |cs| && cs[p] >= 128
  {
    && (IsFirst(cs, p) ==> Times(cs[p] - 128, Rank(cs, p) + 1) + Ahead(cs, p) <= UINT_MAX)
    && (forall j: nat :: IsPrev(cs, j, p) ==>
          Times(cs[p] - cs[j], Rank(cs, p) + 1) + Ahead(cs, p) <= UINT_MAX + Ahead(cs, j) + 1)
  }

  ghost predicate AllFit(cs: seq<nat>) {
    forall p :: 0 <= p < |cs| && cs[p] >= 128 ==> DeltaFits(cs, p)
  }

  // ----- the decoder's state, read off the label

  /** d is where the last entry outside ASCII encoded so far has left the decoder. */
  ghost predicate LastAt(cs: seq<nat>, n: nat, p: nat, d: Decoder) {
    || (d.n == 128 && d.i == 0 && forall k :: 0 <= k < |cs| && Encoded(cs, n, p, k) ==> cs[k] < 128)
    || exists j: nat :: LastIs(cs, n, p, d, j)
  }

  ghost predicate LastIs(cs: seq<nat>, n: nat, p: nat, d: Decoder, j: nat) {
    && j < |cs| && cs[j] >= 128 && Encoded(cs, n, p, j)
    && d.n == cs[j] && d.i == Ahead(cs, j) + 1
    && forall k: nat :: k < |cs| && cs[k] >= 128 && Encoded(cs, n, p, k) ==> k == j || Before(cs, k, j)
  }

  /** The state of the encoder, with the decoder in step and read off the label. */
  ghost predicate Tracks(cs: seq<nat>, n: nat, p: nat, e: Enc, s: Decoder, d: Decoder)
    requires p <= |cs|
  {
    InStep(cs, n, p, e, s, d) && LastAt(cs, n, p, d) && n >= 128
  }

  /** In the pass for its value, an entry's delta fits exactly when it is at most UINT_MAX. */
  lemma DeltaIs(cs: seq<nat>, n: nat, q: nat, e: Enc, s: Decoder, d: Decoder)
    requires q < |cs| && cs[q] == n && Tracks(cs, n, q, e, s, d)
    ensures e.delta <= UINT_MAX <==> DeltaFits(cs, q)
  {
    hide Decodes, Times, Kept;
    assert forall k: nat :: k < |cs| && cs[k] >= 128 ==> (Before(cs, k, q) <==> Encoded(cs, n, q, k));
    if j: nat :| LastIs(cs, n, q, d, j) {
      assert IsPrev(cs, j, q);
      assert !IsFirst(cs, q);
      assert forall i: nat :: IsPrev(cs, i, q) ==> i == j;
    } else {
      assert IsFirst(cs, q);
    }
  }

  lemma EmitTracks(cs: seq<nat>, n: nat, p: nat, e: Enc, s: Decoder, d: Decoder)
    requires p < |cs| && cs[p] == n && Tracks(cs, n, p, e, s, d)
    ensures Tracks(cs, n, p + 1, Emit(e), s, Insert(d, e.delta))
  {
    hide InStep, Kept;
    EmitInStep(cs, n, p, e, s, d);
    InsertIs(cs, n, p, e, s, d);
    assert LastIs(cs, n, p + 1, Insert(d, e.delta), p);
  }

  lemma InsertIs(cs: seq<nat>, n: nat, p: nat, e: Enc, s: Decoder, d: Decoder)
    requires p < |cs| && cs[p] == n && InStep(cs, n, p, e, s, d)
    ensures Insert(d, e.delta).n == n && Insert(d, e.delta).i == Ahead(cs, p) + 1
  {
    hide Decodes, Adapt, Kept, Times, Quot, Rem;
    KeptInsert(cs, n, p);
    DivModOf(n - d.n, e.h + 1, |Kept(cs, n, p, 0, p)|);
  }

  /** Nothing is encoded between (n, p) and (m, q). */
  lemma LastStays(cs: seq<nat>, n: nat, p: nat, m: nat, q: nat, d: Decoder)
    requires LastAt(cs, n, p, d)
    requires forall k :: 0 <= k < |cs| ==> (Encoded(cs, n, p, k) <==> Encoded(cs, m, q, k))
    ensures LastAt(cs, m, q, d)
  {
    if j: nat :| LastIs(cs, n, p, d, j) {
      assert LastIs(cs, m, q, d, j);
    }
  }

  lemma SkipTracks(cs: seq<nat>, n: nat, p: nat, e: Enc, s: Decoder, d: Decoder)
    requires p < |cs| && cs[p] != n && Tracks(cs, n, p, e, s, d)
    ensures Tracks(cs, n, p + 1, if cs[p] < n then e.(delta := e.delta + 1) else e, s, d)
  {
    hide InStep, LastAt;
    SkipInStep(cs, n, p, e, s, d);
    LastStays(cs, n, p, n, p + 1, d);
  }

  lemma AdvanceTracks(cs: seq<nat>, n: nat, m: nat, e: Enc, s: Decoder, d: Decoder)
    requires Tracks(cs, n, 0, e, s, d) && n <= m
    requires forall j :: 0 <= j < |cs| && cs[j] >= n ==> cs[j] >= m
    ensures Tracks(cs, m, 0, e.(delta := e.delta + Times(m - n, e.h + 1)), s, d)
  {
    hide InStep, LastAt;
    AdvanceInStep(cs, n, m, e, s, d);
    LastStays(cs, n, 0, m, 0, d);
  }

  lemma NextTracks(cs: seq<nat>, n: nat, e: Enc, s: Decoder, d: Decoder)
    requires Tracks(cs, n, |cs|, e, s, d)
    ensures Tracks(cs, n + 1, 0, e.(delta := e.delta + 1), s, d)
  {
    hide InStep, LastAt;
    NextInStep(cs, n, e, s, d);
    LastStays(cs, n, |cs|, n + 1, 0, d);
  }

  // ----- a label that is not refused

  /** The next entry of this pass, at q: until then delta only grows. */
  lemma GrowsTo(cs: seq<nat>, n: nat, p: nat, q: nat, e: Enc, s: Decoder, d: Decoder) returns (f: Enc)
    requires p <= q < |cs| && cs[q] == n && Tracks(cs, n, p, e, s, d)
    requires forall k :: p <= k < q ==> cs[k] != n
    ensures Tracks(cs, n, q, f, s, d)
    ensures e.delta <= f.delta && (p < q && cs[p] < n ==> e.delta < f.delta)
    decreases q - p
  {
    hide Tracks;
    if p == q {
      f := e;
    } else {
      SkipTracks(cs, n, p, e, s, d);
      f := GrowsTo(cs, n, p + 1, q, if cs[p] < n then e.(delta := e.delta + 1) else e, s, d);
    }
  }

  /** The first entry with value n from position p on. */
  lemma {:induction false} FirstFrom(cs: seq<nat>, n: nat, p: nat, j: nat) returns (q: nat)
    requires p <= j < |cs| && cs[j] == n
    ensures p <= q <= j && cs[q] == n && forall k :: p <= k < q ==> cs[k] != n
    decreases j - p
  {
    if cs[p] == n {
      q := p;
    } else {
      q := FirstFrom(cs, n, p + 1, j);
    }
  }

  /** Some entry from position p on has value n. */
  ghost predicate Occurs(cs: seq<nat>, n: nat, p: nat) {
    exists j :: p <= j < |cs| && cs[j] == n
  }

  lemma DeltaSmall(cs: seq<nat>, n: nat, p: nat, e: Enc, s: Decoder, d: Decoder)
    requires p <= |cs| && Tracks(cs, n, p, e, s, d) && AllFit(cs) && Occurs(cs, n, p)
    ensures e.delta <= UINT_MAX && (p < |cs| && cs[p] < n ==> e.delta < UINT_MAX)
  {
    hide Tracks, DeltaFits;
    var j :| p <= j < |cs| && cs[j] == n;
    var q := FirstFrom(cs, n, p, j);
    var f := GrowsTo(cs, n, p, q, e, s, d);
    TracksBound(cs, n, q, f, s, d);
    DeltaIs(cs, n, q, f, s, d);
  }

  lemma TracksBound(cs: seq<nat>, n: nat, p: nat, e: Enc, s: Decoder, d: Decoder)
    requires p <= |cs| && Tracks(cs, n, p, e, s, d)
    ensures n >= 128
  {
  }

  /** A pass goes through: before its last entry the deltas fit, after it they are small. */
  lemma {:induction false} ScanFits(cs: seq<nat>, n: nat, p: nat, e: Enc, s: Decoder, d: Decoder) returns (d': Decoder)
    requires p <= |cs| < UINT_MAX && Tracks(cs, n, p, e, s, d) && AllFit(cs)
    requires e.delta <= p || Occurs(cs, n, p)
    ensures Scan(cs, n, p, e).Some? && Tracks(cs, n, |cs|, Scan(cs, n, p, e).value, s, d')
    decreases |cs| - p
  {
    hide Tracks, AllFit, Emit, Insert;
    d' := d;
    if p < |cs| {
      if cs[p] == n {
        EmitTracks(cs, n, p, e, s, d);
        Emitted(e);
        d' := ScanFits(cs, n, p + 1, Emit(e), s, Insert(d, e.delta));
      } else {
        if Occurs(cs, n, p) {
          DeltaSmall(cs, n, p, e, s, d);
          var j :| p <= j < |cs| && cs[j] == n;
          assert p + 1 <= j;
        }
        SkipTracks(cs, n, p, e, s, d);
        d' := ScanFits(cs, n, p + 1, if cs[p] < n then e.(delta := e.delta + 1) else e, s, d);
      }
    }
  }

  lemma Emitted(e: Enc)
    ensures Emit(e).delta == 0
  {
  }

  lemma {:induction false} PassesFit(cs: seq<nat>, n: nat, e: Enc, s: Decoder, d: Decoder)
    requires |cs| < UINT_MAX && Tracks(cs, n, 0, e, s, d) && AllFit(cs)
    ensures Passes(cs, n, e).Some?
    decreases Left(cs, n, 0, 0)
  {
    hide Tracks, AllFit, Left, Times, Scan, Least;
    var m := Least(cs, n, 0);
    if m.Some? {
      AdvanceTracks(cs, n, m.value, e, s, d);
      var e1 := e.(delta := e.delta + Times(m.value - n, e.h + 1));
      assert Occurs(cs, m.value, 0);
      DeltaSmall(cs, m.value, 0, e1, s, d);
      var d1 := ScanFits(cs, m.value, 0, e1, s, d);
      var e2 := Scan(cs, m.value, 0, e1).value;
      NextTracks(cs, m.value, e2, s, d1);
      PassShrinks(cs, n, m.value);
      PassesFit(cs, m.value + 1, e2.(delta := e2.delta + 1), s, d1);
    }
  }

  // ----- a label that is encoded

  /** What a pass has written has fitted. */
  lemma {:induction false} ScanFitted(cs: seq<nat>, n: nat, p: nat, e: Enc, s: Decoder, d: Decoder) returns (d': Decoder)
    requires p <= |cs| && Tracks(cs, n, p, e, s, d) && e.delta <= UINT_MAX && Scan(cs, n, p, e).Some?
    ensures forall q :: p <= q < |cs| && cs[q] == n ==> cs[q] >= 128 && DeltaFits(cs, q)
    ensures Tracks(cs, n, |cs|, Scan(cs, n, p, e).value, s, d') && Scan(cs, n, p, e).value.delta <= UINT_MAX
    decreases |cs| - p
  {
    hide Tracks, DeltaFits, Emit, Insert;
    d' := d;
    TracksBound(cs, n, p, e, s, d);
    if p < |cs| {
      if cs[p] == n {
        DeltaIs(cs, n, p, e, s, d);
        EmitTracks(cs, n, p, e, s, d);
        Emitted(e);
        d' := ScanFitted(cs, n, p + 1, Emit(e), s, Insert(d, e.delta));
      } else {
        SkipTracks(cs, n, p, e, s, d);
        d' := ScanFitted(cs, n, p + 1, if cs[p] < n then e.(delta := e.delta + 1) else e, s, d);
      }
    }
  }

  lemma {:induction false} PassesFitted(cs: seq<nat>, n: nat, e: Enc, s: Decoder, d: Decoder)
    requires Tracks(cs, n, 0, e, s, d) && Passes(cs, n, e).Some?
    ensures forall q :: 0 <= q < |cs| && cs[q] >= n ==> cs[q] >= 128 && DeltaFits(cs, q)
    decreases Left(cs, n, 0, 0)
  {
    hide Tracks, Left, Times, Scan, Least, DeltaFits;
    var m := Least(cs, n, 0);
    if m.Some? {
      AdvanceTracks(cs, n, m.value, e, s, d);
      var e1 := e.(delta := e.delta + Times(m.value - n, e.h + 1));
      var d1 := ScanFitted(cs, m.value, 0, e1, s, d);
      var e2 := Scan(cs, m.value, 0, e1).value;
      NextTracks(cs, m.value, e2, s, d1);
      PassShrinks(cs, n, m.value);
      PassesFitted(cs, m.value + 1, e2.(delta := e2.delta + 1), s, d1);
    }
  }

  lemma StartTracks(cs: seq<nat>)
    ensures var s := Decoder(128, 0, 72, Ascii(cs));
      Tracks(cs, 128, 0, Enc(0, 72, |Ascii(cs)|, true, []), s, s)
  {
    hide InStep;
    StartInStep(cs);
  }

  /** UV_E2BIG is returned exactly for the labels in which some delta does not fit 32 bits. */
  lemma RefusedExactly(cs: seq<nat>)
    requires |cs| < UINT_MAX
    ensures Tail(cs).Some? <==> AllFit(cs)
  {
    hide Tracks, Passes, AllFit;
    StartTracks(cs);
    var s := Decoder(128, 0, 72, Ascii(cs));
    var e := Enc(0, 72, |Ascii(cs)|, true, []);
    if AllFit(cs) {
      PassesFit(cs, 128, e, s, s);
    }
    if Passes(cs, 128, e).Some? {
      PassesFitted(cs, 128, e, s, s);
      Collect(cs);
    }
  }

  lemma Collect(cs: seq<nat>)
    requires forall q :: 0 <= q < |cs| && cs[q] >= 128 ==> DeltaFits(cs, q)
    ensures AllFit(cs)
  {
  }

  // ----- by length

  /** The longest labels that are never refused, whatever they hold. */
  const SAFE_LENGTH: nat := 3855

  lemma ShortLabelsAccepted(cs: seq<nat>)
    requires |cs| <= SAFE_LENGTH && CodePoints(cs)
    ensures Tail(cs).Some?
  {
    hide Tail, DeltaFits;
    forall p | 0 <= p < |cs| && cs[p] >= 128 ensures DeltaFits(cs, p) {
      ShortFits(cs, p);
    }
    RefusedExactly(cs);
  }

  lemma ShortFits(cs: seq<nat>, p: nat)
    requires p < |cs| <= SAFE_LENGTH && CodePoints(cs) && cs[p] >= 128
    ensures DeltaFits(cs, p)
  {
    hide Times, Kept, IsFirst;
    LeftOne(cs, p);
    KeptLength(cs, cs[p], p, 0, p);
    var k := Rank(cs, p) + 1;
    AtMost(k);
    TimesMono(cs[p] - 128, 0x10FFFF - 128, k);
    forall j: nat | IsPrev(cs, j, p) ensures Times(cs[p] - cs[j], k) <= Times(cs[p] - 128, k) {
      TimesMono(cs[p] - cs[j], cs[p] - 128, k);
    }
  }

  /** An entry does not come before itself. */
  lemma LeftOne(cs: seq<nat>, p: nat)
    requires p < |cs|
    ensures Rank(cs, p) < |cs|
  {
    KeptSplit(cs, cs[p], p, 0, p, |cs|);
    KeptLength(cs, cs[p], p, 0, p);
    KeptLength(cs, cs[p], p, p + 1, |cs|);
  }

  lemma AtMost(k: nat)
    requires k <= SAFE_LENGTH
    ensures Times(0x10FFFF - 128, k) <= (0x10FFFF - 128) * SAFE_LENGTH
  {
  }

  /** One more code point is too many: 3855 letters and U+10FFFF are refused. */
  lemma LongerLabelRefused(cs: seq<nat>)
    requires |cs| == SAFE_LENGTH + 1 && cs[SAFE_LENGTH] == 0x10FFFF
    requires forall j :: 0 <= j < SAFE_LENGTH ==> cs[j] == 97
    ensures Tail(cs).None? && CodePoints(cs)
  {
    hide Tail, Kept;
    var p := SAFE_LENGTH;
    KeptLetters(cs, 0, p);
    KeptSplit(cs, cs[p], p, 0, p, |cs|);
    LastLetter(cs);
    assert IsFirst(cs, p);
    assert !DeltaFits(cs, p);
    RefusedExactly(cs);
  }

  lemma LastLetter(cs: seq<nat>)
    requires |cs| == SAFE_LENGTH + 1
    ensures Kept(cs, cs[SAFE_LENGTH], SAFE_LENGTH, SAFE_LENGTH, |cs|) == []
  {
  }

  lemma {:induction false} KeptLetters(cs: seq<nat>, a: nat, p: nat)
    requires a <= p < |cs| && forall j :: a <= j < p ==> cs[j] < cs[p]
    ensures |Kept(cs, cs[p], p, a, p)| == p - a
    decreases p - a
  {
    if a < p {
      KeptLetters(cs, a + 1, p);
    }
  }
}
