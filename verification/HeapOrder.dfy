/** Heap order on level-order sequences of keys, and what one sift step does to it. */
module HeapOrder {
  import opened HeapLinks

  /** What timer_less_than compares. */
  datatype Key = Key(timeout: nat, startId: nat)

  predicate Less(a: Key, b: Key) {
    if a.timeout < b.timeout then true
    else if b.timeout < a.timeout then false
    else a.startId < b.startId
  }

  ghost predicate Ordered(ks: seq<Key>) {
    forall k :: 0 < k < |ks| ==> !Less(ks[k], ks[Up(k)])
  }

  ghost predicate Grandchildren(ks: seq<Key>, c: nat) {
    forall k :: 0 < k < |ks| && Up(k) == c && 0 < c < |ks| ==> !Less(ks[k], ks[Up(c)])
  }

  /** Ordered, except that position c may be smaller than its parent. */
  ghost predicate OrderedBelow(ks: seq<Key>, c: nat) {
    (forall k :: 0 < k < |ks| && k != c ==> !Less(ks[k], ks[Up(k)])) && Grandchildren(ks, c)
  }

  /** Ordered, except that position c may be out of order with its parent and its children. */
  ghost predicate OrderedAround(ks: seq<Key>, c: nat) {
    (forall k :: 0 < k < |ks| && k != c && Up(k) != c ==> !Less(ks[k], ks[Up(k)])) && Grandchildren(ks, c)
  }

  function SwapAt(ks: seq<Key>, j: nat): seq<Key>
    requires 0 < j < |ks|
  {
    ks[Up(j) := ks[j]][j := ks[Up(j)]]
  }

  lemma SiftUpStep(ks: seq<Key>, c: nat)
    requires 0 < c < |ks| && OrderedBelow(ks, c) && Less(ks[c], ks[Up(c)])
    ensures OrderedBelow(SwapAt(ks, c), Up(c))
  {
    var ks' := SwapAt(ks, c);
    forall k | 0 < k < |ks'| && k != Up(c) ensures !Less(ks'[k], ks'[Up(k)]) {
      assert k != c ==> !Less(ks[k], ks[Up(k)]);
      assert Up(k) < k && Up(c) < c;
    }
    forall k | 0 < k < |ks'| && Up(k) == Up(c) && 0 < Up(c) ensures !Less(ks'[k], ks'[Up(Up(c))]) {
      assert !Less(ks[Up(c)], ks[Up(Up(c))]);
      assert Up(Up(c)) < Up(c);
    }
  }

  lemma SiftUpStop(ks: seq<Key>, c: nat)
    requires c < |ks| && OrderedBelow(ks, c) && (c == 0 || !Less(ks[c], ks[Up(c)]))
    ensures Ordered(ks)
  {
  }

  lemma SiftDownStep(ks: seq<Key>, c: nat, s: nat)
    requires 0 < s < |ks| && Up(s) == c && OrderedAround(ks, c) && Less(ks[s], ks[c])
    requires forall k :: 0 < k < |ks| && Up(k) == c ==> !Less(ks[k], ks[s])
    ensures OrderedAround(SwapAt(ks, s), s)
  {
    var ks' := SwapAt(ks, s);
    forall k | 0 < k < |ks'| && k != s && Up(k) != s ensures !Less(ks'[k], ks'[Up(k)]) {
      assert Up(k) < k;
      if k == c {
        assert !Less(ks[s], ks[Up(c)]);
      } else if Up(k) != c {
        assert !Less(ks[k], ks[Up(k)]);
      }
    }
    forall k | 0 < k < |ks'| && Up(k) == s ensures !Less(ks'[k], ks'[Up(s)]) {
      assert Up(k) < k && c < s;
      assert !Less(ks[k], ks[Up(k)]);
    }
  }

  lemma SiftDownStop(ks: seq<Key>, c: nat)
    requires c < |ks| && OrderedAround(ks, c)
    requires forall k :: 0 < k < |ks| && Up(k) == c ==> !Less(ks[k], ks[c])
    ensures OrderedBelow(ks, c)
  {
  }

  lemma AppendBelow(ks: seq<Key>, x: Key)
    requires Ordered(ks)
    ensures OrderedBelow(ks + [x], |ks|)
  {
  }

  lemma ReplaceAround(ks: seq<Key>, i: nat, x: Key)
    requires Ordered(ks) && i < |ks| - 1
    ensures OrderedAround(ks[..|ks| - 1][i := x], i)
  {
    var t := ks[..|ks| - 1][i := x];
    forall k | 0 < k < |t| && Up(k) == i && 0 < i ensures !Less(t[k], t[Up(i)]) {
      assert !Less(ks[k], ks[Up(k)]) && !Less(ks[i], ks[Up(i)]);
      assert Up(i) < i < k;
    }
  }

  lemma {:induction false} RootIsLeast(ks: seq<Key>, k: nat)
    requires Ordered(ks) && k < |ks|
    ensures !Less(ks[k], ks[0])
    ensures ks[0].timeout < ks[k].timeout || (ks[0].timeout == ks[k].timeout && ks[0].startId <= ks[k].startId)
  {
    if k > 0 {
      RootIsLeast(ks, Up(k));
    }
  }
}
