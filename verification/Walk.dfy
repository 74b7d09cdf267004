/** uv_walk: visiting every handle of a loop while callbacks register new ones. */
module Walk {
  import opened Nodes
  import opened Sequences
  import opened Ring

  /** The handles a walk calls back for, in order. */
  ghost function Public(items: seq<Node>): seq<Node>
  {
    if items == [] then []
    else Public(items[..|items| - 1]) + if items[|items| - 1].internal then [] else [items[|items| - 1]]
  }

  /** Each handle of items followed by what its callback added. */
  ghost function Woven(items: seq<Node>, added: seq<seq<Node>>): seq<Node>
    requires |added| == |items|
  {
    if items == [] then []
    else Woven(items[..|items| - 1], added[..|items| - 1]) + [items[|items| - 1]] + added[|items| - 1]
  }

  /** a comes before b in q. */
  ghost predicate Precedes(q: seq<Node>, a: Node, b: Node) {
    exists i, j :: 0 <= i < j < |q| && q[i] == a && q[j] == b
  }

  /** Exactly the handles that are not internal, once each and in the order of the queue. */
  lemma {:induction false} PublicIs(items: seq<Node>)
    requires Distinct(items)
    ensures forall i :: 0 <= i < |Public(items)| ==> Public(items)[i] in items && !Public(items)[i].internal
    ensures forall k :: 0 <= k < |items| && !items[k].internal ==> items[k] in Public(items)
    ensures Distinct(Public(items))
    ensures forall i, j :: 0 <= i < j < |Public(items)| ==> Precedes(items, Public(items)[i], Public(items)[j])
  {
    if items != [] {
      var n := |items| - 1;
      PublicIs(items[..n]);
      var v := Public(items[..n]);
      assert items == items[..n] + [items[n]] && items[n] !in items[..n];
      assert Public(items) == v + if items[n].internal then [] else [items[n]];
      forall k | 0 <= k < n && !items[k].internal ensures items[k] in v {
        assert items[..n][k] == items[k];
      }
      forall i, j | 0 <= i < j < |v| ensures Precedes(items, v[i], v[j]) {
        PrecedesMore(items[..n], items[n], v[i], v[j]);
      }
      forall i | 0 <= i < |v| ensures Precedes(items, v[i], items[n]) {
        var p :| 0 <= p < n && items[..n][p] == v[i];
        assert items[p] == v[i];
      }
    }
  }

  lemma PrecedesMore(q: seq<Node>, x: Node, a: Node, b: Node)
    requires Precedes(q, a, b)
    ensures Precedes(q + [x], a, b)
  {
    var i, j :| 0 <= i < j < |q| && q[i] == a && q[j] == b;
    assert (q + [x])[i] == a && (q + [x])[j] == b;
  }

  /** Around any handle: what comes before it, itself, what its callback added, the rest. */
  lemma {:induction false} WovenAround(items: seq<Node>, added: seq<seq<Node>>, k: nat)
    requires |added| == |items| && k < |items|
    ensures Woven(items, added)
      == Woven(items[..k], added[..k]) + [items[k]] + added[k] + Woven(items[k + 1..], added[k + 1..])
  {
    hide Woven;
    var n := |items| - 1;
    WovenLast(items, added);
    var a, b := items[k + 1..], added[k + 1..];
    if k == n {
      NothingYet();
      assert a == [] && b == [];
    } else {
      WovenAround(items[..n], added[..n], k);
      WovenLast(a, b);
      assert items[..n][..k] == items[..k] && added[..n][..k] == added[..k];
      assert items[..n][k + 1..] == a[..|a| - 1] && added[..n][k + 1..] == b[..|a| - 1];
    }
  }

  lemma WovenLast(items: seq<Node>, added: seq<seq<Node>>)
    requires |added| == |items| && items != []
    ensures var n := |items| - 1; Woven(items, added) == Woven(items[..n], added[..n]) + [items[n]] + added[n]
  {
  }

  /** What a walk visits, for the handles of a ring. */
  lemma Visited(h: Node, items: seq<Node>)
    requires IsRing([h] + items)
    ensures var v := Public(items);
      && Distinct(v)
      && (forall i :: 0 <= i < |v| ==> v[i] in items && !v[i].internal)
      && (forall k :: 0 <= k < |items| && !items[k].internal ==> items[k] in v)
      && (forall i, j :: 0 <= i < j < |v| ==> Precedes(items, v[i], v[j]))
  {
    RestApart(h, items);
    PublicIs(items);
  }

  lemma OneMore(seen: seq<Node>, added: seq<seq<Node>>, q: Node, more: seq<Node>)
    requires |added| == |seen|
    ensures Woven(seen + [q], added + [more]) == Woven(seen, added) + [q] + more
    ensures Public(seen + [q]) == Public(seen) + if q.internal then [] else [q]
  {
    assert (seen + [q])[..|seen|] == seen;
    assert (added + [more])[..|seen|] == added;
  }

  lemma NothingYet()
    ensures Woven([], []) == [] && Public([]) == []
  {
  }

  lemma RestApart(h: Node, items: seq<Node>)
    requires IsRing([h] + items)
    ensures items != [] ==> items[0] !in items[1..] && h.left == items[0]
    ensures Distinct(items)
  {
    var c := [h] + items;
    if items != [] {
      assert Joined(c[0], c[1]);
    }
    forall i, j | 0 <= i < |items| && 0 <= j < |items| && items[i] == items[j] ensures i == j {
      assert c[i + 1] == items[i] && c[j + 1] == items[j];
    }
  }

  lemma Tail(rest: seq<Node>)
    requires rest != [] && Distinct(rest)
    ensures rest == [rest[0]] + rest[1..] && rest[0] in rest && rest[0] !in rest[1..] && Distinct(rest[1..])
    ensures forall x :: x in rest[1..] ==> x in rest
  {
  }

  lemma Shift(seen: seq<Node>, rest: seq<Node>)
    requires rest != []
    ensures seen + rest == seen + [rest[0]] + rest[1..]
  {
  }

  lemma EmptyQueue(h: Node, rest: seq<Node>)
    requires IsRing([h] + rest)
    ensures IsEmpty(h) <==> rest == []
  {
    EmptyRing([h] + rest);
    assert [h] + rest == [h] <==> rest == [];
  }

  lemma HeadApart(h: Node, items: seq<Node>)
    requires IsRing([h] + items)
    ensures h !in items
  {
    forall k | 0 <= k < |items| ensures items[k] != h {
      assert ([h] + items)[k + 1] == items[k];
    }
  }

  class Loop {
    const head: Node
    ghost var handles: seq<Node>

    ghost predicate Valid()
      reads this, head, handles
    {
      IsRing([head] + handles)
    }

    constructor ()
      ensures Valid() && handles == [] && fresh(head)
    {
      var h := new Node();
      head := h;
      handles := [];
      new;
      Ring.Init(h);
      assert [h] + [] == [h];
    }

    /** uv__handle_init's insertion into the handle queue. */
    method Register(q: Node)
      requires Valid() && q != head && q !in handles
      modifies this, head, q, Elems(handles)
      ensures Valid() && handles == old(handles) + [q]
    {
      assert Elems([head] + handles) == {head} + Elems(handles);
      assert forall x :: x in [head] + handles ==> x == head || x in handles;
      InsertTail(head, q, [head] + handles);
      assert [head] + handles + [q] == [head] + (handles + [q]);
      handles := handles + [q];
    }

    /** What a callback may do to the handle queue: register n new handles. */
    method RegisterNew(n: nat) returns (ghost added: seq<Node>)
      requires Valid()
      modifies this, head, Elems(handles)
      ensures Valid() && handles == old(handles) + added && |added| == n && fresh(Elems(added))
    {
      added := [];
      for k := 0 to n
        invariant Valid() && handles == old(handles) + added && |added| == k
        invariant forall x :: x in added ==> fresh(x)
      {
        var isInternal: bool := *;
        var q := new Node(isInternal);
        forall x | x in Elems(handles) ensures x in old(Elems(handles)) || fresh(x) {
          assert x in old(handles) || x in added;
        }
        Register(q);
        added := added + [q];
        assert handles == old(handles) + added;
      }
    }

    /** The body of the walk's loop up to the callback: the first handle of the
        local queue goes back to the end of the loop's queue. */
    method TakeNext(queue: Node, ghost rest: seq<Node>) returns (q: Node)
      requires Valid() && IsRing([queue] + rest) && rest != []
      requires queue != head && queue !in handles && head !in rest && Elems(rest) !! Elems(handles)
      modifies this, head, queue, Elems(handles), Elems(rest)
      ensures q == rest[0] && Valid() && handles == old(handles) + [q]
      ensures IsRing([queue] + rest[1..])
    {
      hide Distinct, IsRing;
      ghost var c := [queue] + rest;
      HeadApart(queue, rest);
      RestApart(queue, rest);
      assert forall x :: x in c ==> x == queue || x in Elems(rest);
      assert forall x :: x in [head] + handles ==> x == head || x in Elems(handles);
      assert c[1] == rest[0] && rest[0] in Elems(rest);
      q := queue.left;
      Ring.Remove(q, c, 1);
      assert Without(c, 1) == [queue] + rest[1..];
      forall x | x in [queue] + rest[1..] ensures x != head && x !in Elems(handles) && x != q {
        assert x == queue || x in rest[1..];
        assert x in rest[1..] ==> x in Elems(rest);
      }
      Register(q);
    }

    /** One turn of the walk's loop; the callback registers n handles. */
    method VisitNext(queue: Node, ghost rest: seq<Node>, n: nat) returns (q: Node, called: bool, ghost more: seq<Node>)
      requires Valid() && IsRing([queue] + rest) && rest != []
      requires queue != head && queue !in handles && head !in rest && Elems(rest) !! Elems(handles)
      modifies this, head, queue, Elems(handles), Elems(rest)
      ensures q == rest[0] && called == !q.internal && IsRing([queue] + rest[1..])
      ensures Valid() && handles == old(handles) + [q] + more && queue !in handles
      ensures fresh(Elems(more)) && (!called ==> more == [])
      ensures forall x :: x in handles ==> x in old(handles) || x == q || fresh(x)
      ensures forall x :: x in rest[1..] ==> x !in handles
    {
      hide Distinct, IsRing;
      HeadApart(queue, rest);
      RestApart(queue, rest);
      q := TakeNext(queue, rest);
      assert rest[0] in Elems(rest);
      assert forall x :: x in rest[1..] ==> x in Elems(rest);
      more := [];
      called := !q.internal;
      if called {
        forall x | x in [queue] + rest[1..] ensures x != head && x !in Elems(handles) {
          assert x == queue || x in rest[1..];
          assert x in rest[1..] ==> x in Elems(rest);
        }
        more := RegisterNew(n);
        assert forall x :: x in more ==> x in Elems(more);
      }
    }

    /** uv_walk. Callback number k registers script(k) handles while the walk is on.
        Exactly the handles present at the start that are not internal are visited,
        once and in order; the new ones are not; the queue keeps the original order. */
    method Walk(script: nat -> nat) returns (visited: seq<Node>, ghost added: seq<seq<Node>>)
      requires Valid()
      modifies this, head, Elems(handles)
      ensures Valid()
      ensures visited == Public(old(handles)) && Distinct(visited)
      ensures forall i :: 0 <= i < |visited| ==> visited[i] in old(handles) && !visited[i].internal
      ensures forall k :: 0 <= k < |old(handles)| && !old(handles)[k].internal ==> old(handles)[k] in visited
      ensures forall i, j :: 0 <= i < j < |visited| ==> Precedes(old(handles), visited[i], visited[j])
      ensures |added| == |old(handles)| && handles == Woven(old(handles), added)
      ensures forall x :: x in handles ==> x in old(handles) || fresh(x)
    {
      hide Woven, Distinct, IsRing, Public, IsEmpty, Precedes;
      ghost var items := handles;
      Visited(head, items);
      HeadApart(head, items);
      var queue := new Node();
      SetAside(queue);
      visited, added := [], [];
      ghost var seen: seq<Node>, rest: seq<Node> := [], items;
      NothingYet();
      EmptyQueue(queue, rest);
      while !IsEmpty(queue)
        invariant items == seen + rest && |added| == |seen| && (IsEmpty(queue) <==> rest == [])
        invariant Valid() && IsRing([queue] + rest) && queue != head && queue !in handles
        invariant head !in rest
        invariant forall x :: x in rest ==> x !in handles
        invariant forall x :: x in handles ==> x in items || fresh(x)
        invariant handles == Woven(seen, added) && visited == Public(seen)
        decreases |rest|
      {
        ghost var more;
        var q, called;
        RestApart(queue, rest);
        Tail(rest);
        q, called, more := VisitNext(queue, rest, script(|visited|));
        if called {
          visited := visited + [q];
        }
        OneMore(seen, added, q, more);
        Shift(seen, rest);
        seen, added, rest := seen + [q], added + [more], rest[1..];
        EmptyQueue(queue, rest);
      }
      assert seen == items;
    }

    method SetAside(queue: Node)
      requires Valid() && queue != head && queue !in handles
      modifies this, head, queue, Elems(handles)
      ensures Valid() && handles == [] && IsRing([queue] + old(handles))
    {
      ghost var c := [head] + handles;
      assert c[1..] == handles;
      assert forall x :: x in c ==> x == head || x in Elems(handles);
      Ring.Move(head, queue, c);
      handles := [];
      assert [head] + [] == [head];
    }
  }
}
