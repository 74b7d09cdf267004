/**
 The circular doubly linked queues of queue.h. A ring is given by the sequence of
 its nodes from the head on; every operation is proved to perform the
 corresponding sequence operation, by changing links in place.
 */
module Ring {
  import opened Nodes
  import opened Sequences

  ghost predicate Joined(a: Node, b: Node)
    reads a`left, b`right
  {
    a.left == b && b.right == a
  }

  /** The nodes of c are linked in a circle in this order; `left` is next, `right` is prev. */
  ghost predicate IsRing(c: seq<Node>)
    reads (set x | x in c)`left, (set x | x in c)`right
  {
    && |c| > 0 && Distinct(c)
    && (forall i :: 0 <= i < |c| - 1 ==> Joined(c[i], c[i + 1]))
    && Joined(c[|c| - 1], c[0])
  }

  method Init(q: Node)
    modifies q`left, q`right
    ensures IsRing([q])
  {
    q.left := q;
    q.right := q;
  }

  /** uv__queue_empty */
  predicate IsEmpty(q: Node)
    reads q`left
  {
    q == q.left
  }

  lemma EmptyRing(c: seq<Node>)
    requires IsRing(c)
    ensures IsEmpty(c[0]) <==> c == [c[0]]
  {
    if |c| > 1 { assert Joined(c[0], c[1]); }
  }

  method InsertTail(h: Node, q: Node, ghost c: seq<Node>)
    requires IsRing(c) && c[0] == h && q !in c
    modifies Elems(c)`left, Elems(c)`right, q`left, q`right
    ensures IsRing(c + [q])
  {
    assert Joined(c[|c| - 1], h);
    q.left := h;
    q.right := h.right;
    q.right.left := q;
    h.right := q;
  }

  method InsertHead(h: Node, q: Node, ghost c: seq<Node>)
    requires IsRing(c) && c[0] == h && q !in c
    modifies Elems(c)`left, Elems(c)`right, q`left, q`right
    ensures IsRing([h, q] + c[1..])
  {
    if |c| > 1 { assert Joined(c[0], c[1]); }
    q.left := h.left;
    q.right := h;
    q.left.right := q;
    h.left := q;
  }

  /** Unlinks the node at k from its ring. Its own links keep their values. */
  method Remove(q: Node, ghost c: seq<Node>, ghost k: nat)
    requires IsRing(c) && k < |c| && c[k] == q
    modifies Elems(c)`left, Elems(c)`right
    ensures |c| > 1 ==> IsRing(Without(c, k)) && q.left == old(q.left) && q.right == old(q.right)
    ensures |c| == 1 ==> IsRing(c)
  {
    ghost var before := c[if k == 0 then |c| - 1 else k - 1];
    ghost var after := c[if k == |c| - 1 then 0 else k + 1];
    assert Joined(before, q) && Joined(q, after);
    q.right.left := q.left;
    q.left.right := q.right;
    if |c| > 1 {
      ghost var t := Without(c, k);
      assert Joined(before, after);
      forall i | 0 <= i < |t| - 1 ensures Joined(t[i], t[i + 1]) {
        if i + 1 < k {
          assert old(Joined(c[i], c[i + 1]));
        } else if i + 1 > k {
          assert old(Joined(c[i + 1], c[i + 2]));
        }
      }
      assert Joined(t[|t| - 1], t[0]);
    }
  }

  /** Cuts the ring before q: h keeps what precedes q, n heads the rest. */
  method Split(h: Node, q: Node, n: Node, ghost c: seq<Node>, ghost k: nat)
    requires IsRing(c) && c[0] == h && 0 < k < |c| && c[k] == q && n !in c
    modifies Elems(c)`left, Elems(c)`right, n`left, n`right
    ensures IsRing(c[..k]) && IsRing([n] + c[k..])
  {
    assert Joined(c[|c| - 1], h) && Joined(c[k - 1], q);
    n.right := h.right;
    n.right.left := n;
    n.left := q;
    h.right := q.right;
    h.right.left := h;
    q.right := n;
    ghost var a, b := c[..k], [n] + c[k..];
    forall i | 0 <= i < |a| - 1 ensures Joined(a[i], a[i + 1]) {
      assert old(Joined(c[i], c[i + 1]));
    }
    forall i | 0 <= i < |b| - 1 ensures Joined(b[i], b[i + 1]) {
      assert i > 0 ==> old(Joined(c[k + i - 1], c[k + i]));
    }
  }

  /** Moves everything behind h to behind n. */
  method Move(h: Node, n: Node, ghost c: seq<Node>)
    requires IsRing(c) && c[0] == h && n !in c
    modifies Elems(c)`left, Elems(c)`right, n`left, n`right
    ensures IsRing([h]) && IsRing([n] + c[1..])
  {
    EmptyRing(c);
    if IsEmpty(h) {
      Init(n);
      assert [n] + c[1..] == [n] && [h] == c;
    } else {
      assert Joined(h, c[1]);
      Split(h, h.left, n, c, 1);
      assert c[..1] == [h];
    }
  }

  /** Appends everything behind n to the ring of h. */
  method Add(h: Node, n: Node, ghost c: seq<Node>, ghost d: seq<Node>)
    requires IsRing(c) && c[0] == h && IsRing(d) && d[0] == n && Elems(c) !! Elems(d)
    modifies Elems(c)`left, Elems(c)`right, Elems(d)`left, Elems(d)`right
    ensures IsRing(c + d[1..])
  {
    assert Joined(c[|c| - 1], h) && Joined(d[|d| - 1], n);
    if |d| > 1 { assert Joined(n, d[1]); }
    h.right.left := n.left;
    n.left.right := h.right;
    h.right := n.right;
    h.right.left := h;
    ghost var t := c + d[1..];
    assert forall i :: 0 <= i < |c| ==> c[i] in Elems(c);
    assert forall i :: 0 <= i < |d| ==> d[i] in Elems(d);
    forall i | 0 <= i < |t| - 1 ensures Joined(t[i], t[i + 1]) {
      if i < |c| - 1 {
        assert old(Joined(c[i], c[i + 1]));
      } else if i >= |c| {
        assert old(Joined(d[i - |c| + 1], d[i - |c| + 2]));
      }
    }
  }
}
