/**
 Several rings at once, and nodes outside of them: a node that has been initialised
 is alone and links to itself; one that has only been removed is stale, with the links
 it had. The self-link test tells the first kind from all others.
 */
module Queues {
  import opened Nodes
  import opened Sequences
  import opened Ring

  /** The queues of the worker pool: wq, slow_io_pending_wq, and for each loop its wq and
      the queue that uv__work_done is emptying. */
  datatype Id = WorkQ | SlowQ | ResultQ(l: nat) | LocalQ(l: nat)

  datatype Spot = In(q: Id) | Alone | Stale

  /** The rings from their heads on, and where each node is. */
  datatype Layout = Layout(cycles: map<Id, seq<Node>>, spot: map<Node, Spot>) {

    ghost predicate Has(q: Id, x: Node) { q in cycles && x in cycles[q] }

    ghost predicate At(x: Node, s: Spot) { x in spot && spot[x] == s }

    ghost predicate Apart() {
      && (forall q :: q in cycles ==> cycles[q] != [])
      && (forall q, x :: q in cycles && x in cycles[q] ==> At(x, In(q)))
      && (forall x :: x in spot && spot[x].In? ==> Has(spot[x].q, x))
    }

    lemma Where(q: Id, x: Node)
      requires Apart()
      ensures Has(q, x) <==> At(x, In(q))
    {
    }

    lemma Heads()
      requires Apart()
      ensures forall q :: q in cycles ==> cycles[q] != []
    {
    }

    lemma IsApart()
      requires forall q :: q in cycles ==> cycles[q] != []
      requires forall q, x :: Has(q, x) <==> At(x, In(q))
      ensures Apart()
    {
      forall x | x in spot && spot[x].In? ensures Has(spot[x].q, x) {
        assert At(x, In(spot[x].q));
      }
      forall q, x | q in cycles && x in cycles[q] ensures At(x, In(q)) {
        assert Has(q, x);
      }
    }

    /** The nodes behind the head. */
    ghost function Items(q: Id): seq<Node>
      requires Apart() && q in cycles
    {
      cycles[q][1..]
    }

    /** A node is in one place. */
    lemma Elsewhere(q: Id, r: Id)
      requires Apart() && q in cycles && r in cycles && q != r
      ensures forall x :: x in cycles[r] ==> x in spot && x !in cycles[q]
    {
      forall x | x in cycles[r] ensures x in spot && x !in cycles[q] {
        Where(r, x);
        Where(q, x);
      }
    }

    lemma Inside(q: Id)
      requires Apart() && q in cycles
      ensures forall x :: x in cycles[q] ==> x in spot && spot[x] == In(q)
      ensures cycles[q] != []
    {
      forall x | x in cycles[q] ensures At(x, In(q)) {
        Where(q, x);
      }
    }

    lemma OpenApart(q: Id, h: Node)
      requires Apart() && h !in spot && q !in cycles
      ensures Opened(q, h).Apart()
    {
      hide Apart;
      Heads();
      var m := Opened(q, h);
      forall p, x ensures m.Has(p, x) <==> m.At(x, In(p)) {
        Where(p, x);
      }
      m.IsApart();
    }

    lemma AppendApart(q: Id, x: Node)
      requires Apart() && q in cycles && (x in spot ==> !spot[x].In?)
      ensures Appended(q, x).Apart()
    {
      hide Apart;
      Heads();
      var m := Appended(q, x);
      forall p, y ensures m.Has(p, y) <==> m.At(y, In(p)) {
        Where(p, y);
      }
      m.IsApart();
    }

    lemma RemoveApart(q: Id, k: nat)
      requires Apart() && q in cycles && 0 < k < |cycles[q]| && Distinct(cycles[q])
      ensures Removed(q, k).Apart()
    {
      hide Apart;
      Heads();
      var c, m := cycles[q], Removed(q, k);
      forall p, y ensures m.Has(p, y) <==> m.At(y, In(p)) {
        Where(p, y);
        WithoutMembers(c, k, y);
        Where(q, c[k]);
      }
      m.IsApart();
    }

    lemma InitApart(x: Node)
      requires Apart() && (x in spot ==> !spot[x].In?)
      ensures Initialised(x).Apart() && Differ(this, Initialised(x), {}, {x})
    {
      hide Apart;
      Heads();
      var m := Initialised(x);
      forall p, y ensures m.Has(p, y) <==> m.At(y, In(p)) {
        Where(p, y);
      }
      m.IsApart();
    }

    lemma ForgetApart(x: Node)
      requires Apart() && (x in spot ==> !spot[x].In?)
      ensures Forgotten(x).Apart()
    {
      hide Apart;
      Heads();
      var m := Forgotten(x);
      forall p, y ensures m.Has(p, y) <==> m.At(y, In(p)) {
        Where(p, y);
      }
      m.IsApart();
    }

    lemma MovedRings(q: Id, r: Id)
      requires q in cycles && r in cycles && q != r && cycles[q] != [] && cycles[r] != []
      ensures var m := Moved(q, r);
        && m.cycles.Keys == cycles.Keys
        && m.cycles[q] == [cycles[q][0]] && m.cycles[r] == [cycles[r][0]] + cycles[q][1..]
        && forall p :: p in cycles && p != q && p != r ==> m.cycles[p] == cycles[p]
    {
    }

    lemma MoveApart(q: Id, r: Id)
      requires Apart() && q in cycles && r in cycles && q != r && |cycles[r]| == 1 && Distinct(cycles[q])
      ensures Moved(q, r).Apart()
    {
      hide Apart;
      Heads();
      var c, h, m := cycles[q], cycles[r][0], Moved(q, r);
      assert c == [c[0]] + c[1..] && cycles[r] == [h];
      assert c[0] !in c[1..];
      forall p, y ensures m.Has(p, y) <==> m.At(y, In(p)) {
        Where(p, y);
        Where(q, y);
        Where(r, y);
      }
      m.IsApart();
    }

    lemma OpenDiffers(q: Id, h: Node)
      requires h !in spot && q !in cycles
      ensures Differ(this, Opened(q, h), {q}, {h})
    {
    }

    lemma AppendDiffers(q: Id, x: Node)
      requires q in cycles
      ensures Differ(this, Appended(q, x), {q}, {x})
    {
    }

    lemma RemoveDiffers(q: Id, k: nat)
      requires q in cycles && k < |cycles[q]| && cycles[q][k] in spot
      ensures Differ(this, Removed(q, k), {q}, {cycles[q][k]})
    {
    }

    lemma MoveDiffers(q: Id, r: Id)
      requires q in cycles && r in cycles && cycles[q] != [] && cycles[r] != []
      ensures Differ(this, Moved(q, r), {q, r}, {})
    {
    }

    ghost function Opened(q: Id, h: Node): Layout {
      Layout(cycles[q := [h]], spot[h := In(q)])
    }

    ghost function Appended(q: Id, x: Node): Layout
      requires q in cycles
    {
      Layout(cycles[q := cycles[q] + [x]], spot[x := In(q)])
    }

    ghost function Removed(q: Id, k: nat): Layout
      requires q in cycles && k < |cycles[q]|
    {
      Layout(cycles[q := Without(cycles[q], k)], spot[cycles[q][k] := Stale])
    }

    ghost function Initialised(x: Node): Layout {
      Layout(cycles, spot[x := Alone])
    }

    ghost function Forgotten(x: Node): Layout {
      Layout(cycles, spot - {x})
    }

    ghost function Moved(q: Id, r: Id): Layout
      requires q in cycles && r in cycles && cycles[q] != [] && cycles[r] != []
    {
      Layout(cycles[q := [cycles[q][0]]][r := [cycles[r][0]] + cycles[q][1..]],
             map x | x in spot :: if x in cycles[q][1..] then In(r) else spot[x])
    }
  }

  lemma WithoutMembers(c: seq<Node>, k: nat, y: Node)
    requires k < |c| && Distinct(c)
    ensures y in Without(c, k) <==> y in c && y != c[k]
  {
    var d := Without(c, k);
    if y in d {
      var i :| 0 <= i < |d| && d[i] == y;
      assert y == c[if i < k then i else i + 1];
    }
    if y in c && y != c[k] {
      var i :| 0 <= i < |c| && c[i] == y;
      assert d[if i < k then i else i - 1] == y;
    }
  }

  /** Each ring is linked as it should be. */
  ghost predicate RingsOk(L: Layout)
    reads L.spot.Keys`left, L.spot.Keys`right
  {
    L.Apart() && forall q :: q in L.cycles ==> RingOk(L, q)
  }

  ghost predicate RingOk(L: Layout, q: Id)
    reads L.spot.Keys`left, L.spot.Keys`right
  {
    q in L.cycles && (forall x :: x in L.cycles[q] ==> x in L.spot) && IsRing(L.cycles[q])
  }

  /** The self-link test tells the nodes that are alone from those that were removed. */
  ghost predicate LooseOk(L: Layout)
    reads L.spot.Keys`left
  {
    && (forall x :: x in L.spot && L.spot[x] == Alone ==> x.left == x)
    && (forall x :: x in L.spot && L.spot[x] == Stale ==> x.left != x)
  }

  ghost predicate Avoids(c: seq<Node>, S: set<Node>) {
    forall x :: x in c ==> x !in S
  }

  /** The rings of L outside Q, and the loose nodes outside S. */
  ghost predicate Rest(L: Layout, Q: set<Id>, S: set<Node>)
    reads L.spot.Keys`left, L.spot.Keys`right
  {
    && (forall r :: r in L.cycles && r !in Q ==> RingOk(L, r))
    && (forall x :: x in L.spot && x !in S && L.spot[x] == Alone ==> x.left == x)
    && (forall x :: x in L.spot && x !in S && L.spot[x] == Stale ==> x.left != x)
  }

  lemma RestOfAll(L: Layout, Q: set<Id>, S: set<Node>)
    requires RingsOk(L) && LooseOk(L)
    ensures Rest(L, Q, S)
  {
  }

  /** A layout M that differs from L in the rings Q and the nodes S. */
  ghost predicate Differ(L: Layout, M: Layout, Q: set<Id>, S: set<Node>) {
    && L.spot.Keys <= M.spot.Keys
    && (forall q :: q in M.cycles && q !in Q ==> q in L.cycles && M.cycles[q] == L.cycles[q])
    && (forall x :: x in M.spot && x !in S ==> x in L.spot && (M.spot[x] == L.spot[x] || M.spot[x].In?))
  }

  ghost predicate HeadsOk(head: map<Id, Node>, L: Layout) {
    head.Keys == L.cycles.Keys && forall q :: q in head ==> L.cycles[q] != [] && head[q] == L.cycles[q][0]
  }

  lemma HeadsKept(head: map<Id, Node>, L: Layout, M: Layout, Q: set<Id>)
    requires HeadsOk(head, L) && M.cycles.Keys == L.cycles.Keys
    requires forall q :: q in L.cycles && q !in Q ==> M.cycles[q] == L.cycles[q]
    requires forall q :: q in Q && q in L.cycles && L.cycles[q] != [] ==>
      M.cycles[q] != [] && M.cycles[q][0] == L.cycles[q][0]
    ensures HeadsOk(head, M)
  {
  }

  lemma HeadsOpen(head: map<Id, Node>, L: Layout, q: Id, h: Node)
    requires HeadsOk(head, L) && q !in head
    ensures q !in L.cycles && HeadsOk(head[q := h], L.Opened(q, h))
  {
  }

  lemma RingIs(L: Layout, q: Id)
    requires L.Apart() && q in L.cycles && IsRing(L.cycles[q])
    ensures RingOk(L, q)
  {
    hide IsRing;
    L.Inside(q);
  }

  lemma Assemble(L: Layout, M: Layout, Q: set<Id>, S: set<Node>)
    requires Rest(L, Q, S) && M.Apart() && Differ(L, M, Q, S)
    requires forall q :: q in Q ==> q in M.cycles && IsRing(M.cycles[q])
    requires forall x :: x in S && x in M.spot ==>
      (M.spot[x] == Alone ==> x.left == x) && (M.spot[x] == Stale ==> x.left != x)
    ensures RingsOk(M) && LooseOk(M)
  {
    hide IsRing, Layout.Apart;
    forall q | q in M.cycles ensures RingOk(M, q) {
      if q in Q {
        RingIs(M, q);
      } else {
        assert RingOk(L, q);
      }
    }
  }

  class Rings {
    var head: map<Id, Node>
    ghost var at: Layout

    ghost predicate Valid()
      reads this, at.spot.Keys`left, at.spot.Keys`right
    {
      HeadsOk(head, at) && RingsOk(at) && LooseOk(at)
    }

    constructor ()
      ensures Valid() && at == Layout(map[], map[])
    {
      head, at := map[], Layout(map[], map[]);
    }

    /** The self-link test, on a node that is not the head of a ring. */
    lemma SelfLink(x: Node)
      requires Valid() && x in at.spot && (at.spot[x].In? ==> x in at.Items(at.spot[x].q))
      ensures IsEmpty(x) <==> at.spot[x].Alone?
    {
      if at.spot[x].In? {
        var q := at.spot[x].q;
        assert RingOk(at, q);
        var c := at.cycles[q];
        var i :| 0 < i < |c| && c[i] == x;
        assert Joined(c[i], if i < |c| - 1 then c[i + 1] else c[0]);
      }
    }

    /** The same test on a head, and what the head links to. */
    lemma HeadLink(q: Id)
      requires Valid() && q in head
      ensures IsEmpty(head[q]) <==> at.Items(q) == []
      ensures at.Items(q) != [] ==> head[q].left == at.Items(q)[0]
    {
      assert RingOk(at, q);
      var c := at.cycles[q];
      EmptyRing(c);
      if |c| > 1 {
        assert Joined(c[0], c[1]);
      }
    }

    lemma RingAt(q: Id)
      requires Valid() && q in head
      ensures q in at.cycles && IsRing(at.cycles[q]) && Distinct(at.cycles[q]) && |at.cycles[q]| > 0 && head[q] == at.cycles[q][0]
      ensures forall x :: x in at.cycles[q] ==> x in at.spot && at.spot[x] == In(q)
      ensures forall r :: r in at.cycles && r != q ==> Avoids(at.cycles[r], Elems(at.cycles[q]))
    {
      assert RingOk(at, q);
      at.Inside(q);
      forall r | r in at.cycles && r != q ensures Avoids(at.cycles[r], Elems(at.cycles[q])) {
        at.Elsewhere(q, r);
      }
    }

    /** A new, empty ring. */
    method Open(q: Id)
      requires Valid() && q !in head
      modifies this
      ensures Valid() && q in head && fresh(head[q]) && at == old(at).Opened(q, head[q])
    {
      hide IsRing, Layout.Apart, RingsOk, LooseOk, Rest, Differ, HeadsOk;
      ghost var L := at;
      ApartOf(L);
      var h := new Node();
      HeadsOpen(head, L, q, h);
      RestOfAll(L, {q}, {h});
      Ring.Init(h);
      L.OpenApart(q, h);
      L.OpenDiffers(q, h);
      head := head[q := h];
      at := L.Opened(q, h);
      Assemble(L, at, {q}, {h});
    }

    method LinkTail(q: Id, x: Node)
      requires Valid() && q in head && (x in at.spot ==> !at.spot[x].In?)
      modifies at.spot.Keys`left, at.spot.Keys`right, x`left, x`right
      ensures IsRing(at.cycles[q] + [x]) && Rest(at, {q}, {x})
    {
      hide IsRing, Layout.Apart, Distinct, RingsOk, LooseOk, HeadsOk;
      RingAt(q);
      ghost var c := at.cycles[q];
      ApartOf(at);
      LooseApart(at, x);
      RestOfAll(at, {q}, {x});
      InsertTail(head[q], x, c);
    }

    /** uv__queue_insert_tail of a node that is in no ring. */
    method Append(q: Id, x: Node)
      requires Valid() && q in head && (x in at.spot ==> !at.spot[x].In?)
      modifies this`at, at.spot.Keys`left, at.spot.Keys`right, x`left, x`right
      ensures Valid() && at == old(at).Appended(q, x)
    {
      hide IsRing, Layout.Apart, Distinct, RingsOk, LooseOk, Rest, Differ, HeadsOk;
      ghost var L := at;
      ApartOf(L);
      RingAt(q);
      L.AppendApart(q, x);
      L.AppendDiffers(q, x);
      HeadsKept(head, L, L.Appended(q, x), {q});
      LinkTail(q, x);
      at := L.Appended(q, x);
      Assemble(L, at, {q}, {x});
    }

    method UnlinkAt(ghost q: Id, x: Node, ghost k: nat)
      requires Valid() && q in head && 0 < k < |at.cycles[q]| && at.cycles[q][k] == x
      modifies at.spot.Keys`left, at.spot.Keys`right
      ensures IsRing(Without(at.cycles[q], k)) && Rest(at, {q}, {x}) && x.left != x
    {
      hide IsRing, Layout.Apart, Distinct, RingsOk, LooseOk, HeadsOk;
      RingAt(q);
      ghost var c := at.cycles[q];
      NotSelf(c, k);
      RestOfAll(at, {q}, {x});
      Ring.Remove(x, c, k);
    }

    /** uv__queue_remove of the node at place k; it keeps its own links. */
    method Remove(ghost q: Id, x: Node, ghost k: nat)
      requires Valid() && q in head && 0 < k < |at.cycles[q]| && at.cycles[q][k] == x
      modifies this`at, at.spot.Keys`left, at.spot.Keys`right
      ensures Valid() && at == old(at).Removed(q, k)
    {
      hide IsRing, Layout.Apart, Distinct, RingsOk, LooseOk, Rest, Differ, HeadsOk;
      ghost var L := at;
      ApartOf(L);
      RingAt(q);
      L.RemoveApart(q, k);
      L.RemoveDiffers(q, k);
      RestOf(L.cycles[q], k);
      HeadsKept(head, L, L.Removed(q, k), {q});
      UnlinkAt(q, x, k);
      at := L.Removed(q, k);
      Assemble(L, at, {q}, {x});
    }

    /** uv__queue_init of a node that is in no ring. */
    method Initialise(x: Node)
      requires Valid() && (x in at.spot ==> !at.spot[x].In?)
      modifies this`at, x`left, x`right
      ensures Valid() && at == old(at).Initialised(x)
    {
      hide IsRing, Layout.Apart, RingsOk, LooseOk, Differ, HeadsOk;
      ghost var L := at;
      ApartOf(L);
      L.InitApart(x);
      LooseApart(L, x);
      RestOfAll(L, {}, {x});
      HeadsKept(head, L, L.Initialised(x), {});
      Ring.Init(x);
      SelfLinked(x);
      at := L.Initialised(x);
      Assemble(L, at, {}, {x});
    }

    /** A node in no ring that is no longer looked at; whoever owns it may use it anew. */
    ghost method Forget(x: Node)
      requires Valid() && (x in at.spot ==> !at.spot[x].In?)
      modifies this`at
      ensures Valid() && at == old(at).Forgotten(x)
    {
      hide IsRing, Layout.Apart;
      ghost var L := at;
      ApartOf(L);
      L.ForgetApart(x);
      LooseApart(L, x);
      at := L.Forgotten(x);
      forall q | q in at.cycles ensures RingOk(at, q) {
        assert RingOk(L, q);
      }
    }

    method LinkMove(q: Id, r: Id)
      requires Valid() && q in head && r in head && q != r && |at.cycles[r]| == 1
      modifies at.spot.Keys`left, at.spot.Keys`right
      ensures IsRing([head[q]]) && IsRing([head[r]] + at.cycles[q][1..]) && Rest(at, {q, r}, {})
    {
      hide IsRing, Layout.Apart, Distinct, RingsOk, LooseOk, HeadsOk;
      RingAt(q);
      RingAt(r);
      ghost var c, d := at.cycles[q], at.cycles[r];
      RestOfAll(at, {q, r}, {});
      assert d == [head[r]];
      Ring.Move(head[q], head[r], c);
    }

    /** uv__queue_move to an empty ring. */
    method MoveAll(q: Id, r: Id)
      requires Valid() && q in head && r in head && q != r && |at.cycles[r]| == 1
      modifies this`at, at.spot.Keys`left, at.spot.Keys`right
      ensures Valid() && old(at.cycles[q]) != [] && at == old(at).Moved(q, r)
    {
      hide IsRing, Layout.Apart, Layout.Moved, Distinct, RingsOk, LooseOk, Rest, Differ, HeadsOk;
      ghost var L := at;
      ApartOf(L);
      RingAt(q);
      RingAt(r);
      L.MoveApart(q, r);
      L.MoveDiffers(q, r);
      L.MovedRings(q, r);
      HeadsKept(head, L, L.Moved(q, r), {q, r});
      LinkMove(q, r);
      at := L.Moved(q, r);
      assert IsRing(at.cycles[q]) && IsRing(at.cycles[r]);
      Assemble(L, at, {q, r}, {});
    }
  }

  lemma ApartOf(L: Layout)
    requires RingsOk(L)
    ensures L.Apart()
  {
  }

  /** A node that is in no ring. */
  lemma LooseApart(L: Layout, x: Node)
    requires L.Apart() && (x in L.spot ==> !L.spot[x].In?)
    ensures forall q :: q in L.cycles ==> x !in L.cycles[q]
  {
    forall q | q in L.cycles ensures x !in L.cycles[q] {
      L.Where(q, x);
    }
  }

  lemma NotSelf(c: seq<Node>, k: nat)
    requires IsRing(c) && k < |c| && |c| > 1
    ensures c[k].left != c[k]
  {
    assert Joined(c[k], if k < |c| - 1 then c[k + 1] else c[0]);
  }

  lemma RestOf(c: seq<Node>, k: nat)
    requires 0 < k < |c| && Distinct(c)
    ensures c[k] !in Without(c, k) && Without(c, k) != [] && Without(c, k)[0] == c[0]
    ensures forall x :: x in Without(c, k) ==> x in c
  {
    WithoutMembers(c, k, c[k]);
  }

  lemma SelfLinked(x: Node)
    requires IsRing([x])
    ensures x.left == x
  {
  }
}
