/**
 The worker pool's queues as rings of nodes. Messages and requests have addresses; the
 rings hold, from the head on, the addresses of what the queues hold, and a node links
 to itself exactly when what it belongs to is not linked.
 */
module PoolLinks {
  import opened Sequences
  import opened Nodes
  import opened Queues
  import opened ThreadPool

  type Addresses = map<QNode, Node>

  ghost function NodesOf(addr: Addresses, qs: seq<QNode>): (r: seq<Node>)
    requires forall a :: a in qs ==> a in addr
    ensures |r| == |qs| && forall i :: 0 <= i < |qs| ==> r[i] == addr[qs[i]]
  {
    seq(|qs|, i requires 0 <= i < |qs| => addr[qs[i]])
  }

  function Reqs(ws: seq<Wid>): (r: seq<QNode>)
    ensures |r| == |ws| && forall i :: 0 <= i < |ws| ==> r[i] == Req(ws[i])
  {
    seq(|ws|, i requires 0 <= i < |ws| => Req(ws[i]))
  }

  /** What each queue holds. */
  type Contents = map<Id, seq<QNode>>

  ghost predicate Injective(addr: Addresses) {
    forall a, b :: a in addr && b in addr && addr[a] == addr[b] ==> a == b
  }

  /** Contents and rings agree, queue by queue. */
  ghost predicate Holds(L: Layout, addr: Addresses, content: Contents) {
    && L.cycles.Keys == content.Keys
    && forall q :: q in content ==> HoldsAt(L, addr, content, q)
  }

  ghost predicate HoldsAt(L: Layout, addr: Addresses, content: Contents, q: Id) {
    && q in content && q in L.cycles && L.cycles[q] != []
    && (forall a :: a in content[q] ==> a in addr)
    && L.cycles[q][1..] == NodesOf(addr, content[q])
  }

  /** The self-link test agrees with `linked`; a message never posted has no place yet. */
  ghost predicate Tested(L: Layout, addr: Addresses, linked: set<QNode>) {
    forall a :: a in addr ==> (addr[a] in L.spot ==> (L.spot[addr[a]] == Alone <==> a !in linked))
  }

  /** No message or request lies where a head does. */
  ghost predicate NoHeads(L: Layout, addr: Addresses) {
    forall a, q :: a in addr && q in L.cycles && L.cycles[q] != [] ==> addr[a] != L.cycles[q][0]
  }

  ghost predicate Mirrors(L: Layout, addr: Addresses, content: Contents, linked: set<QNode>) {
    && L.Apart() && Injective(addr) && Holds(L, addr, content)
    && Tested(L, addr, linked) && NoHeads(L, addr)
  }

  /** A node that is in no ring holds nothing that a queue contains. */
  lemma NotQueued(L: Layout, addr: Addresses, content: Contents, a: QNode)
    requires L.Apart() && Holds(L, addr, content) && Injective(addr) && a in addr && NoHeads(L, addr)
    ensures (forall q :: q in content ==> a !in content[q]) <==> (addr[a] in L.spot ==> !L.spot[addr[a]].In?)
  {
    if q :| q in content && a in content[q] {
      assert HoldsAt(L, addr, content, q);
      var i :| 0 <= i < |content[q]| && content[q][i] == a;
      assert L.cycles[q][1..][i] == addr[a];
      L.Where(q, addr[a]);
    }
    if addr[a] in L.spot && L.spot[addr[a]].In? {
      var q := L.spot[addr[a]].q;
      L.Where(q, addr[a]);
      assert HoldsAt(L, addr, content, q);
      var c := L.cycles[q];
      var i :| 0 <= i < |c| && c[i] == addr[a];
      assert i > 0 && c[1..][i - 1] == addr[a] == addr[content[q][i - 1]];
    }
  }

  /** What a queue contains is linked. */
  lemma QueuedIsLinked(L: Layout, addr: Addresses, content: Contents, linked: set<QNode>, q: Id, a: QNode)
    requires Mirrors(L, addr, content, linked) && q in content && a in content[q]
    ensures a in addr && a in linked && addr[a] in L.spot
  {
    assert HoldsAt(L, addr, content, q);
    var i :| 0 <= i < |content[q]| && content[q][i] == a;
    assert L.cycles[q][1..][i] == addr[a];
    L.Where(q, addr[a]);
  }

  /** What a queue contains lies behind the queue's head. */
  lemma NotAHead(L: Layout, addr: Addresses, content: Contents, a: QNode)
    requires L.Apart() && Holds(L, addr, content) && NoHeads(L, addr) && a in addr
    requires addr[a] in L.spot && L.spot[addr[a]].In?
    ensures L.spot[addr[a]].q in L.cycles && addr[a] in L.Items(L.spot[addr[a]].q)
  {
    var q := L.spot[addr[a]].q;
    L.Where(q, addr[a]);
    var c := L.cycles[q];
    var i :| 0 <= i < |c| && c[i] == addr[a];
    assert i > 0 && c[1..][i - 1] == addr[a];
  }

  lemma AppendMirrors(L: Layout, addr: Addresses, content: Contents, linked: set<QNode>, q: Id, a: QNode)
    requires Mirrors(L, addr, content, linked) && q in content && a in addr
    requires addr[a] in L.spot ==> !L.spot[addr[a]].In?
    ensures q in L.cycles && Mirrors(L.Appended(q, addr[a]), addr, content[q := content[q] + [a]], linked + {a})
  {
    hide Layout.Apart;
    assert HoldsAt(L, addr, content, q);
    L.AppendApart(q, addr[a]);
    var M, c := L.Appended(q, addr[a]), content[q := content[q] + [a]];
    assert Holds(M, addr, c) by {
      forall p | p in c ensures HoldsAt(M, addr, c, p) {
        assert HoldsAt(L, addr, content, p);
        AppendHolds(L, addr, content, q, a, p);
      }
    }
  }

  lemma AppendHolds(L: Layout, addr: Addresses, content: Contents, q: Id, a: QNode, p: Id)
    requires HoldsAt(L, addr, content, p) && HoldsAt(L, addr, content, q) && a in addr
    ensures HoldsAt(L.Appended(q, addr[a]), addr, content[q := content[q] + [a]], p)
  {
    if p == q {
      assert L.Appended(q, addr[a]).cycles[q][1..] == L.cycles[q][1..] + [addr[a]];
      assert NodesOf(addr, content[q] + [a]) == NodesOf(addr, content[q]) + [addr[a]];
    }
  }

  /** uv__queue_remove leaves the node stale, which the self-link test calls linked. */
  lemma RemoveMirrors(L: Layout, addr: Addresses, content: Contents, linked: set<QNode>, q: Id, k: nat)
    requires Mirrors(L, addr, content, linked) && q in content && k < |content[q]|
    requires q in L.cycles && Distinct(L.cycles[q])
    ensures k + 1 < |L.cycles[q]| && L.cycles[q][k + 1] == addr[content[q][k]]
    ensures content[q][k] in linked ==>
      Mirrors(L.Removed(q, k + 1), addr, content[q := Without(content[q], k)], linked)
  {
    hide Layout.Apart;
    assert HoldsAt(L, addr, content, q);
    var a := content[q][k];
    assert L.cycles[q][1..][k] == addr[a];
    if a in linked {
      var M, c := L.Removed(q, k + 1), content[q := Without(content[q], k)];
      L.RemoveApart(q, k + 1);
      forall p | p in c ensures HoldsAt(M, addr, c, p) {
        assert HoldsAt(L, addr, content, p);
        if p == q {
          DropHolds(L, addr, content, q, k);
        }
      }
      assert M.cycles[q][0] == L.cycles[q][0];
    }
  }

  lemma DropHolds(L: Layout, addr: Addresses, content: Contents, q: Id, k: nat)
    requires HoldsAt(L, addr, content, q) && k < |content[q]|
    ensures k + 1 < |L.cycles[q]|
    ensures HoldsAt(L.Removed(q, k + 1), addr, content[q := Without(content[q], k)], q)
  {
    var c, d := L.cycles[q], Without(content[q], k);
    assert |c| == |content[q]| + 1;
    assert Without(c, k + 1)[1..] == Without(c[1..], k);
    assert NodesOf(addr, d) == Without(NodesOf(addr, content[q]), k);
  }

  lemma InitMirrors(L: Layout, addr: Addresses, content: Contents, linked: set<QNode>, a: QNode)
    requires Mirrors(L, addr, content, linked) && a in addr && (addr[a] in L.spot ==> !L.spot[addr[a]].In?)
    ensures Mirrors(L.Initialised(addr[a]), addr, content, linked - {a})
  {
    hide Layout.Apart;
    L.InitApart(addr[a]);
    var M := L.Initialised(addr[a]);
    forall p | p in content ensures HoldsAt(M, addr, content, p) {
      assert HoldsAt(L, addr, content, p);
    }
  }

  lemma MoveMirrors(L: Layout, addr: Addresses, content: Contents, linked: set<QNode>, q: Id, r: Id)
    requires Mirrors(L, addr, content, linked) && q in content && r in content && q != r
    requires content[r] == [] && q in L.cycles && Distinct(L.cycles[q])
    ensures r in L.cycles && L.cycles[q] != [] && |L.cycles[r]| == 1
    ensures Mirrors(L.Moved(q, r), addr, content[r := content[q]][q := []], linked)
  {
    hide Layout.Apart, Layout.Moved, Tested, NoHeads;
    assert HoldsAt(L, addr, content, q) && HoldsAt(L, addr, content, r);
    assert |L.cycles[r][1..]| == 0;
    L.MoveApart(q, r);
    AllMovedHold(L, addr, content, q, r);
    AllMovedTested(L, addr, content, linked, q, r);
    MovedHeads(L, addr, q, r);
  }

  lemma AllMovedHold(L: Layout, addr: Addresses, content: Contents, q: Id, r: Id)
    requires Holds(L, addr, content) && q in content && r in content && q != r
    requires q in L.cycles && r in L.cycles && L.cycles[q] != [] && L.cycles[r] != []
    ensures Holds(L.Moved(q, r), addr, content[r := content[q]][q := []])
  {
    hide HoldsAt, Layout.Moved;
    L.MovedRings(q, r);
    var M, c := L.Moved(q, r), content[r := content[q]][q := []];
    forall p | p in c ensures HoldsAt(M, addr, c, p) {
      MovedHolds(L, addr, content, q, r, p);
    }
  }

  lemma AllMovedTested(L: Layout, addr: Addresses, content: Contents, linked: set<QNode>, q: Id, r: Id)
    requires Mirrors(L, addr, content, linked) && HoldsAt(L, addr, content, q) && HoldsAt(L, addr, content, r)
    ensures Tested(L.Moved(q, r), addr, linked)
  {
    hide Layout.Moved, Mirrors;
    var M := L.Moved(q, r);
    forall a | a in addr && addr[a] in M.spot ensures M.spot[addr[a]] == Alone <==> a !in linked {
      MovedTested(L, addr, content, linked, q, r, a);
    }
  }

  lemma MovedHeads(L: Layout, addr: Addresses, q: Id, r: Id)
    requires NoHeads(L, addr) && q in L.cycles && r in L.cycles && q != r && L.cycles[q] != [] && L.cycles[r] != []
    ensures NoHeads(L.Moved(q, r), addr)
  {
    hide Layout.Moved;
    L.MovedRings(q, r);
  }

  lemma MovedHolds(L: Layout, addr: Addresses, content: Contents, q: Id, r: Id, p: Id)
    requires HoldsAt(L, addr, content, p) && HoldsAt(L, addr, content, q) && HoldsAt(L, addr, content, r) && q != r
    ensures HoldsAt(L.Moved(q, r), addr, content[r := content[q]][q := []], p)
  {
    L.MovedRings(q, r);
    assert ([L.cycles[r][0]] + L.cycles[q][1..])[1..] == L.cycles[q][1..];
  }

  lemma MovedTested(L: Layout, addr: Addresses, content: Contents, linked: set<QNode>, q: Id, r: Id, a: QNode)
    requires Mirrors(L, addr, content, linked) && HoldsAt(L, addr, content, q) && HoldsAt(L, addr, content, r)
    requires a in addr && addr[a] in L.Moved(q, r).spot
    ensures L.Moved(q, r).spot[addr[a]] == Alone <==> a !in linked
  {
    if addr[a] in L.cycles[q][1..] {
      MovedIsLinked(L, addr, content, q, a);
      QueuedIsLinked(L, addr, content, linked, q, a);
    }
  }

  lemma MovedIsLinked(L: Layout, addr: Addresses, content: Contents, q: Id, a: QNode)
    requires HoldsAt(L, addr, content, q) && Injective(addr) && a in addr && addr[a] in L.cycles[q][1..]
    ensures a in content[q]
  {
    var i :| 0 <= i < |content[q]| && NodesOf(addr, content[q])[i] == addr[a];
    assert addr[content[q][i]] == addr[a];
  }

  lemma OpenMirrors(L: Layout, addr: Addresses, content: Contents, linked: set<QNode>, q: Id, h: Node)
    requires Mirrors(L, addr, content, linked) && q !in content && h !in L.spot
    requires forall a :: a in addr ==> addr[a] != h
    ensures Mirrors(L.Opened(q, h), addr, content[q := []], linked)
  {
    hide Layout.Apart;
    L.OpenApart(q, h);
    var M, c := L.Opened(q, h), content[q := []];
    forall p | p in c ensures HoldsAt(M, addr, c, p) {
      if p != q {
        assert HoldsAt(L, addr, content, p);
      }
    }
  }

  /** A request that is submitted has an address of its own. */
  lemma AddressMirrors(L: Layout, addr: Addresses, content: Contents, linked: set<QNode>, a: QNode, x: Node)
    requires Mirrors(L, addr, content, linked) && a !in addr && x !in L.spot
    requires forall b :: b in addr ==> addr[b] != x
    ensures Mirrors(L, addr[a := x], content, linked + {a})
  {
    forall p | p in content ensures HoldsAt(L, addr[a := x], content, p) {
      assert HoldsAt(L, addr, content, p);
      assert NodesOf(addr[a := x], content[p]) == NodesOf(addr, content[p]);
    }
    forall q | q in L.cycles && L.cycles[q] != [] ensures L.cycles[q][0] != x {
      L.Where(q, L.cycles[q][0]);
    }
  }

  /** What is in no queue may be forgotten, and its node serve again. */
  lemma ForgetMirrors(L: Layout, addr: Addresses, content: Contents, linked: set<QNode>, a: QNode)
    requires Mirrors(L, addr, content, linked) && a in addr && (addr[a] in L.spot ==> !L.spot[addr[a]].In?)
    ensures Mirrors(L.Forgotten(addr[a]), addr - {a}, content, linked)
    ensures forall b :: b in addr && b != a ==> addr[b] != addr[a]
  {
    hide Layout.Apart;
    var M, rest := L.Forgotten(addr[a]), addr - {a};
    L.ForgetApart(addr[a]);
    NotQueued(L, addr, content, a);
    forall p | p in content ensures HoldsAt(M, rest, content, p) {
      assert HoldsAt(L, addr, content, p);
      assert NodesOf(rest, content[p]) == NodesOf(addr, content[p]);
    }
  }

  // ----- the contents of the pool's queues

  ghost function Ids(loops: map<LoopId, Loop>): set<Id> {
    {WorkQ, SlowQ} + (set l | l in loops :: ResultQ(l)) + (set l | l in loops :: LocalQ(l))
  }

  ghost function ContentAt(wq: seq<QNode>, slowq: seq<Wid>, loops: map<LoopId, Loop>, q: Id): seq<QNode> {
    match q
    case WorkQ => wq
    case SlowQ => Reqs(slowq)
    case ResultQ(l) => if l in loops then Reqs(loops[l].wq) else []
    case LocalQ(l) => if l in loops then Reqs(loops[l].local) else []
  }

  ghost function ContentOf(wq: seq<QNode>, slowq: seq<Wid>, loops: map<LoopId, Loop>): Contents {
    map q | q in Ids(loops) :: ContentAt(wq, slowq, loops, q)
  }

  /** What the flags of the pool call linked. */
  ghost function LinkedOf(tokenLinked: bool, exitPosted: bool, reqs: map<Wid, Request>): set<QNode> {
    (set w | w in reqs && reqs[w].linked :: Req(w))
    + (if tokenLinked then {Token} else {}) + (if exitPosted then {Exit} else {})
  }

  lemma ContentIs(wq: seq<QNode>, slowq: seq<Wid>, loops: map<LoopId, Loop>)
    ensures ContentOf(wq, slowq, loops).Keys == Ids(loops)
    ensures forall q :: q in Ids(loops) ==> ContentOf(wq, slowq, loops)[q] == ContentAt(wq, slowq, loops, q)
  {
  }

  lemma IdsOf(loops: map<LoopId, Loop>, l: LoopId, lp: Loop)
    ensures Ids(loops[l := lp]) == Ids(loops) + {ResultQ(l), LocalQ(l)}
    ensures WorkQ in Ids(loops) && SlowQ in Ids(loops)
    ensures (ResultQ(l) in Ids(loops) <==> l in loops) && (LocalQ(l) in Ids(loops) <==> l in loops)
  {
  }

  lemma SharedContent(wq: seq<QNode>, slowq: seq<Wid>, loops: map<LoopId, Loop>, wq1: seq<QNode>)
    ensures WorkQ in ContentOf(wq, slowq, loops) && ContentOf(wq, slowq, loops)[WorkQ] == wq
    ensures ContentOf(wq1, slowq, loops) == ContentOf(wq, slowq, loops)[WorkQ := wq1]
  {
    hide ContentOf, Reqs;
    ContentIs(wq, slowq, loops);
    ContentIs(wq1, slowq, loops);
  }

  lemma SlowContent(wq: seq<QNode>, slowq: seq<Wid>, loops: map<LoopId, Loop>, slowq1: seq<Wid>)
    ensures SlowQ in ContentOf(wq, slowq, loops) && ContentOf(wq, slowq, loops)[SlowQ] == Reqs(slowq)
    ensures ContentOf(wq, slowq1, loops) == ContentOf(wq, slowq, loops)[SlowQ := Reqs(slowq1)]
  {
    hide ContentOf, Reqs;
    ContentIs(wq, slowq, loops);
    ContentIs(wq, slowq1, loops);
  }

  /** The contents once loop l, new or not, has become lp. */
  lemma LoopBecomes(wq: seq<QNode>, slowq: seq<Wid>, loops: map<LoopId, Loop>, l: LoopId, lp: Loop)
    ensures ContentOf(wq, slowq, loops[l := lp])
         == ContentOf(wq, slowq, loops)[ResultQ(l) := Reqs(lp.wq)][LocalQ(l) := Reqs(lp.local)]
  {
    hide ContentOf, Reqs, Ids;
    ContentIs(wq, slowq, loops);
    ContentIs(wq, slowq, loops[l := lp]);
    IdsOf(loops, l, lp);
    var c, d := ContentOf(wq, slowq, loops), ContentOf(wq, slowq, loops[l := lp]);
    var e := c[ResultQ(l) := Reqs(lp.wq)][LocalQ(l) := Reqs(lp.local)];
    assert d.Keys == e.Keys;
    forall q | q in d ensures d[q] == e[q] {
    }
  }

  lemma LoopContent(wq: seq<QNode>, slowq: seq<Wid>, loops: map<LoopId, Loop>, l: LoopId, lp: Loop)
    requires l in loops
    ensures var c := ContentOf(wq, slowq, loops);
      && ResultQ(l) in c && c[ResultQ(l)] == Reqs(loops[l].wq)
      && LocalQ(l) in c && c[LocalQ(l)] == Reqs(loops[l].local)
      && ContentOf(wq, slowq, loops[l := lp]) == c[ResultQ(l) := Reqs(lp.wq)][LocalQ(l) := Reqs(lp.local)]
  {
    hide ContentOf, Reqs, Ids;
    IdsOf(loops, l, lp);
    ContentIs(wq, slowq, loops);
    LoopBecomes(wq, slowq, loops, l, lp);
  }

  lemma NewLoopContent(wq: seq<QNode>, slowq: seq<Wid>, loops: map<LoopId, Loop>, l: LoopId, lp: Loop)
    requires l !in loops && lp.wq == [] && lp.local == []
    ensures ContentOf(wq, slowq, loops[l := lp]) == ContentOf(wq, slowq, loops)[ResultQ(l) := []][LocalQ(l) := []]
    ensures ResultQ(l) !in ContentOf(wq, slowq, loops) && LocalQ(l) !in ContentOf(wq, slowq, loops)
  {
    hide ContentOf, Ids;
    IdsOf(loops, l, lp);
    ContentIs(wq, slowq, loops);
    LoopBecomes(wq, slowq, loops, l, lp);
    assert Reqs([]) == [];
  }

  lemma ReqsAppend(ws: seq<Wid>, w: Wid)
    ensures Reqs(ws + [w]) == Reqs(ws) + [Req(w)]
  {
  }

  lemma {:induction false} ReqsNoDup(ws: seq<Wid>)
    requires NoDup(ws)
    ensures NoDup(Reqs(ws)) && forall w :: Req(w) in Reqs(ws) <==> w in ws
  {
    if ws != [] {
      ReqsNoDup(ws[1..]);
      assert Reqs(ws)[1..] == Reqs(ws[1..]);
      assert ws == [ws[0]] + ws[1..] && Reqs(ws) == [Req(ws[0])] + Reqs(ws[1..]);
    }
  }

  lemma LinkedToken(t: bool, e: bool, reqs: map<Wid, Request>)
    ensures LinkedOf(true, e, reqs) == LinkedOf(t, e, reqs) + {Token}
    ensures LinkedOf(false, e, reqs) == LinkedOf(t, e, reqs) - {Token}
    ensures Token in LinkedOf(t, e, reqs) <==> t
  {
  }

  lemma LinkedRequest(t: bool, e: bool, reqs: map<Wid, Request>, w: Wid, r: Request)
    ensures LinkedOf(t, e, reqs[w := r]) ==
      if r.linked then LinkedOf(t, e, reqs) + {Req(w)} else LinkedOf(t, e, reqs) - {Req(w)}
    ensures Req(w) in LinkedOf(t, e, reqs) <==> w in reqs && reqs[w].linked
  {
  }

  /** Before anything is linked. */
  lemma NothingLinked(addr: Addresses)
    requires Injective(addr)
    ensures Mirrors(Layout(map[], map[]), addr, map[], {})
  {
  }

  lemma NoContent()
    ensures ContentOf([], [], map[]) == map[WorkQ := [], SlowQ := []] && LinkedOf(false, false, map[]) == {}
  {
    assert Reqs([]) == [];
  }

  lemma NewValue(addr: Addresses, a: QNode, x: Node)
    requires a !in addr
    ensures addr[a := x].Values == addr.Values + {x}
  {
    var next := addr[a := x];
    forall y | y in addr.Values ensures y in next.Values {
      var b :| b in addr && addr[b] == y;
      assert next[b] == y;
    }
    assert next[a] == x;
  }

  lemma LostValue(addr: Addresses, a: QNode)
    requires Injective(addr) && a in addr
    ensures (addr - {a}).Values == addr.Values - {addr[a]}
  {
    var rest := addr - {a};
    forall y | y in addr.Values && y != addr[a] ensures y in rest.Values {
      var b :| b in addr && addr[b] == y;
      assert rest[b] == y;
    }
  }
}
