/**
 The pool's critical sections as imperative code over the variables of threadpool.c
 and over its rings. Each method is proved to perform exactly the action of the
 transition system that the safety theorems are about; where the source tests links,
 the code does, and the tests are proved to agree with the queues.
 */
module ThreadPoolCode {
  import opened Common
  import opened Sequences
  import opened Nodes
  import opened Ring
  import opened Queues
  import opened ThreadPool
  import opened ThreadPoolProofs
  import opened PoolLinks

  class Pool {
    const rings: Rings
    var addr: Addresses              // where the messages and the requests lie
    var wq: seq<QNode>               // what the rings hold, for the specification
    var slowq: seq<Wid>
    var tokenLinked: bool
    var idle: int
    var running: int
    var workers: seq<Worker>
    var reqs: map<Wid, Request>
    var loops: map<LoopId, Loop>
    var exitPosted: bool
    var aborted: bool
    var ran: seq<Wid>
    var done: seq<Verdict>
    var cancelled: set<Wid>
    var busy: set<Wid>

    constructor (nthreads: nat, ids: set<LoopId>)
      ensures View() == ThreadPool.Init(nthreads, ids) && Synced({Exit})
    {
      rings := new Rings();
      new;
      Setup(nthreads, ids);
    }

    method Setup(nthreads: nat, ids: set<LoopId>)
      requires rings.Valid() && rings.at == Layout(map[], map[])
      modifies this, rings
      ensures View() == ThreadPool.Init(nthreads, ids) && Synced({Exit})
    {
      hide Synced, Rings.Valid;
      Clear(nthreads);
      OpenShared(nthreads);
      OpenLoops(ids);
    }

    method Clear(nthreads: nat)
      modifies this
      ensures View() == ThreadPool.Init(nthreads, {})
    {
      workers := seq(nthreads, _ => Locking(false));
      idle, running, aborted := 0, 0, false;
      ClearQueues();
      ClearLogs();
    }

    method ClearQueues()
      modifies this`wq, this`slowq, this`tokenLinked, this`reqs, this`loops, this`exitPosted
      ensures wq == [] && slowq == [] && !tokenLinked && reqs == map[] && loops == map[] && !exitPosted
    {
      wq, slowq, tokenLinked := [], [], false;
      reqs, loops, exitPosted := map[], map[], false;
    }

    method ClearLogs()
      modifies this`ran, this`done, this`cancelled, this`busy
      ensures ran == [] && done == [] && cancelled == {} && busy == {}
    {
      ran, done, cancelled, busy := [], [], {}, {};
    }

    /** The queues of every loop. */
    method OpenLoops(ids: set<LoopId>)
      requires Synced({Exit}) && loops == map[]
      modifies this`loops, rings
      ensures Synced({Exit}) && loops == map l | l in ids :: Loop([], [], None, false)
    {
      hide Synced, Rings.Valid;
      var rest := ids;
      while rest != {}
        invariant rest <= ids && Synced({Exit})
        invariant loops == map l | l in ids - rest :: Loop([], [], None, false)
      {
        var l :| l in rest;
        OpenLoop(l);
        rest := rest - {l};
      }
      assert ids - rest == ids;
    }

    /** init_threads on the queues. */
    method OpenShared(nthreads: nat)
      requires rings.Valid() && rings.at == Layout(map[], map[]) && View() == ThreadPool.Init(nthreads, {})
      modifies this`addr, rings
      ensures Synced({Exit})
    {
      hide Rings.Valid, Layout.Apart, Mirrors, LinkedOf, ContentOf;
      var token := new Node();
      var exit := new Node();
      addr := map[Token := token, Exit := exit];
      OpenQueues();
      InitMirrors(rings.at, addr, map[WorkQ := [], SlowQ := []], {}, Token);
      rings.Initialise(token);
      NoContent();
      assert {} - {Token} == LinkedSet();
    }

    method OpenQueues()
      requires rings.Valid() && rings.at == Layout(map[], map[]) && Injective(addr)
      modifies rings
      ensures rings.Valid() && Mirrors(rings.at, addr, map[WorkQ := [], SlowQ := []], {})
      ensures forall a :: a in addr ==> addr[a] !in rings.at.spot
    {
      hide Rings.Valid, Layout.Apart, Mirrors;
      ghost var none: Contents := map[];
      NothingLinked(addr);
      NoRing(WorkQ, none, {});
      rings.Open(WorkQ);
      OpenMirrors(Layout(map[], map[]), addr, none, {}, WorkQ, rings.head[WorkQ]);
      ghost var L, c := rings.at, none[WorkQ := []];
      NoRing(SlowQ, c, {});
      rings.Open(SlowQ);
      OpenMirrors(L, addr, c, {}, SlowQ, rings.head[SlowQ]);
      assert c[SlowQ := []] == map[WorkQ := [], SlowQ := []];
    }

    lemma NoRing(q: Id, c: Contents, linked: set<QNode>)
      requires rings.Valid() && Mirrors(rings.at, addr, c, linked) && q !in c
      ensures q !in rings.head
    {
    }

    method OpenLoop(l: LoopId)
      requires Synced({Exit}) && l !in loops
      modifies this`loops, rings
      ensures Synced({Exit}) && loops == old(loops)[l := Loop([], [], None, false)]
    {
      hide Rings.Valid, Layout.Apart, LinkedOf, ContentOf, Mirrors;
      ghost var L, c, linked := rings.at, Content(), LinkedSet();
      NewLoopContent(wq, slowq, loops, l, Loop([], [], None, false));
      NoRing(ResultQ(l), c, linked);
      rings.Open(ResultQ(l));
      OpenMirrors(L, addr, c, linked, ResultQ(l), rings.head[ResultQ(l)]);
      ghost var M := rings.at;
      loops := loops[l := Loop([], [], None, false)];
      NoRing(LocalQ(l), c[ResultQ(l) := []], linked);
      rings.Open(LocalQ(l));
      OpenMirrors(M, addr, c[ResultQ(l) := []], linked, LocalQ(l), rings.head[LocalQ(l)]);
    }

    function View(): State
      reads this
    {
      State(wq, slowq, tokenLinked, idle, running, workers, reqs, loops, exitPosted, aborted,
            ran, done, cancelled, busy)
    }

    /** The step from the old state is the action a. */
    twostate predicate Did(a: Action)
      reads this
    {
      old(Enabled(View(), a)) && View() == Apply(old(View()), a)
    }

    /** The token's flag is exact and it is queued at most once. */
    ghost predicate TokenOk()
      reads this
    {
      NoDup(wq) && (tokenLinked <==> Token in wq)
    }

    ghost function Content(): Contents
      reads this`wq, this`slowq, this`loops
    {
      ContentOf(wq, slowq, loops)
    }

    ghost function LinkedSet(): set<QNode>
      reads this`tokenLinked, this`exitPosted, this`reqs
    {
      LinkedOf(tokenLinked, exitPosted, reqs)
    }

    /** Addresses: of the two messages and of the requests that are not done; the node of a
        done request may serve again. exit_message is not initialised. */
    ghost predicate AddrOk()
      reads this`addr, this`reqs, this`exitPosted, this`done, rings
    {
      && (forall a :: a in addr <==> a == Token || a == Exit || (a.Req? && Pending(a.w)))
      && (!exitPosted ==> addr[Exit] !in rings.at.spot)
      && (forall w :: w in Subjects(done) ==> w in reqs)
    }

    /** Submitted, and its callback has not been called. */
    ghost predicate Pending(w: Wid)
      reads this`reqs, this`done
    {
      w in reqs && w !in Subjects(done)
    }

    /** The rings hold what the sequences hold, and the self-link tests agree with the
        flags. Only the nodes of `except` may not have been linked or initialised yet. */
    ghost predicate Synced(except: set<QNode>)
      reads this`addr, this`wq, this`slowq, this`loops, this`tokenLinked, this`exitPosted, this`reqs, this`done
      reads rings, rings.at.spot.Keys`left, rings.at.spot.Keys`right
    {
      && rings.Valid() && AddrOk()
      && Mirrors(rings.at, addr, Content(), LinkedSet())
      && Placed(except)
    }

    ghost predicate Placed(except: set<QNode>)
      reads this`addr, rings
    {
      forall a :: a in addr && a !in except ==> addr[a] in rings.at.spot
    }

    /** All nodes there are. */
    ghost function Memory(): set<Node>
      reads this`addr, rings
    {
      rings.at.spot.Keys + addr.Values
    }

    ghost predicate NotIn(a: QNode)
      requires a in addr
      reads this`addr, rings
    {
      addr[a] in rings.at.spot ==> !rings.at.spot[addr[a]].In?
    }

    // ----- links and queues

    /** uv__queue_empty on the node of a message or request: false exactly while it is linked. */
    lemma LinkTest(a: QNode, except: set<QNode>)
      requires Synced(except) && a in addr && a !in except
      ensures IsEmpty(addr[a]) <==> a !in LinkedSet()
      ensures a !in LinkedSet() ==> NotIn(a)
    {
      hide Rings.Valid, Layout.Apart, LinkedOf, ContentOf;
      var L, x := rings.at, addr[a];
      assert x in L.spot;
      if L.spot[x].In? {
        NotAHead(L, addr, Content(), a);
      }
      rings.SelfLink(x);
    }

    /** The first node of a queue is the address of its first element. */
    lemma FirstLink(q: Id, except: set<QNode>)
      requires Synced(except) && q in Content()
      ensures q in rings.head && (IsEmpty(rings.head[q]) <==> Content()[q] == [])
      ensures Content()[q] != [] ==> Content()[q][0] in addr && rings.head[q].left == addr[Content()[q][0]]
    {
      hide Rings.Valid, Layout.Apart, LinkedOf, ContentOf;
      assert HoldsAt(rings.at, addr, Content(), q);
      HeadOf(q);
      rings.HeadLink(q);
    }

    lemma HeadOf(q: Id)
      requires rings.Valid() && q in rings.at.cycles
      ensures q in rings.head && rings.at.Apart()
    {
    }

    /** uv__queue_data: what lies at a node. */
    method Owner(x: Node, ghost b: QNode) returns (a: QNode)
      requires Injective(addr) && b in addr && addr[b] == x
      ensures a == b
    {
      a :| a in addr && addr[a] == x;
    }

    /** uv__queue_insert_tail; the caller updates what mirrors the queue and the links. */
    method LinkTail(q: Id, a: QNode, ghost except: set<QNode>)
      requires Synced(except) && q in Content() && a in addr && NotIn(a) && (a == Exit ==> exitPosted)
      modifies rings, Memory()
      ensures rings.Valid() && AddrOk() && Memory() == old(Memory())
      ensures Mirrors(rings.at, addr, Content()[q := Content()[q] + [a]], LinkedSet() + {a})
      ensures Placed(except - {a})
    {
      hide Rings.Valid, Layout.Apart, LinkedOf, ContentOf, Mirrors;
      ghost var L := rings.at;
      InRings(q);
      AppendMirrors(L, addr, Content(), LinkedSet(), q, a);
      if a != Exit {
        ExitApart(a);
      }
      rings.Append(q, addr[a]);
    }

    lemma InRings(q: Id)
      requires rings.Valid() && Mirrors(rings.at, addr, Content(), LinkedSet()) && q in Content()
      ensures q in rings.head && q in rings.at.cycles
    {
      hide Layout.Apart, ContentOf, LinkedOf;
      assert HoldsAt(rings.at, addr, Content(), q);
    }

    lemma OneOwner(L: Layout, content: Contents, linked: set<QNode>)
      requires Mirrors(L, addr, content, linked)
      ensures Injective(addr)
    {
    }

    lemma ExitApart(a: QNode)
      requires AddrOk() && Mirrors(rings.at, addr, Content(), LinkedSet()) && a in addr && a != Exit
      ensures addr[a] != addr[Exit]
    {
      hide Layout.Apart, Holds, Tested, NoHeads, ContentOf;
    }

    /** uv__queue_remove and uv__queue_init of the first node of a queue. */
    method UnlinkFirst(q: Id, ghost except: set<QNode>) returns (x: Node)
      requires Synced(except) && q in Content() && Content()[q] != []
      modifies rings, Memory()
      ensures old(Content()[q][0]) in addr && x == addr[old(Content()[q][0])]
      ensures rings.Valid() && AddrOk() && Memory() == old(Memory())
      ensures Mirrors(rings.at, addr, Content()[q := Content()[q][1..]], LinkedSet() - {Content()[q][0]})
      ensures Placed(except)
    {
      hide Rings.Valid, Layout.Apart, LinkedOf, ContentOf, Mirrors, Distinct;
      x := CutFirst(q, except);
      ghost var a := Content()[q][0];
      InitMirrors(rings.at, addr, Content()[q := Content()[q][1..]], LinkedSet(), a);
      rings.Initialise(x);
    }

    /** uv__queue_remove of the first node of a queue. */
    method CutFirst(q: Id, ghost except: set<QNode>) returns (x: Node)
      requires Synced(except) && q in Content() && Content()[q] != []
      modifies rings, Memory()
      ensures old(Content()[q][0]) in addr && x == addr[old(Content()[q][0])]
      ensures x in rings.at.spot && rings.at.spot[x] == Stale
      ensures rings.Valid() && AddrOk() && Memory() == old(Memory())
      ensures Mirrors(rings.at, addr, Content()[q := Content()[q][1..]], LinkedSet())
      ensures Placed(except)
    {
      hide Rings.Valid, Layout.Apart, LinkedOf, ContentOf, Mirrors;
      FirstLink(q, except);
      x := rings.head[q].left;
      assert Without(Content()[q], 0) == Content()[q][1..];
      CutAt(q, 0, x, except);
    }

    /** uv__queue_remove of the node at place k of a queue, by its own links. */
    method CutAt(ghost q: Id, ghost k: nat, x: Node, ghost except: set<QNode>)
      requires q in Content() && k < |Content()[q]| && Content()[q][k] in addr && x == addr[Content()[q][k]]
      requires Synced(except)
      modifies rings, Memory()
      ensures x in rings.at.spot && rings.at.spot[x] == Stale
      ensures rings.Valid() && AddrOk() && Memory() == old(Memory())
      ensures Mirrors(rings.at, addr, Content()[q := Without(Content()[q], k)], LinkedSet())
      ensures Placed(except)
    {
      hide Rings.Valid, Layout.Apart, LinkedOf, ContentOf, Mirrors, Distinct;
      ghost var L, c := rings.at, Content();
      InRings(q);
      rings.RingAt(q);
      QueuedIsLinked(L, addr, c, LinkedSet(), q, c[q][k]);
      RemoveMirrors(L, addr, c, LinkedSet(), q, k);
      rings.Remove(q, x, k + 1);
    }

    // ----- the critical sections

    method Post(q: QNode, slow: bool, wake: set<Tid>)
      requires Synced({Exit, q}) && q in addr && q in LinkedSet() && NotIn(q) && q != Token
      requires (slow ==> q.Req?) && (q == Exit ==> exitPosted)
      modifies this`wq, this`slowq, this`tokenLinked, this`workers, rings, Memory()
      ensures Synced({Exit}) && Memory() == old(Memory())
      ensures View() ==
        if slow then PostRequest(old(View()), q.w, SlowIo, wake) else Enqueue(old(View()), q, wake)
    {
      hide Synced, LinkedOf, Signal, PostRequest, Enqueue, NotIn, Memory;
      PostIs(View(), q, slow, wake);
      if slow {
        var scheduled := PostSlow(q);
        if scheduled {
          return;
        }
      } else {
        LinkWork(q);
      }
      if idle > 0 {
        SignalWorkers(wake);
      }
    }

    /** The slow part of post(): true if running slow work is already scheduled. */
    method PostSlow(q: QNode) returns (scheduled: bool)
      requires Synced({Exit, q}) && q in addr && q in LinkedSet() && NotIn(q) && q.Req?
      modifies this`wq, this`slowq, this`tokenLinked, rings, Memory()
      ensures Synced({Exit}) && Memory() == old(Memory()) && slowq == old(slowq) + [q.w]
      ensures scheduled == old(tokenLinked) && tokenLinked && wq == if scheduled then old(wq) else old(wq) + [Token]
    {
      hide Synced, LinkedOf, NotIn, Memory;
      LinkSlow(q);
      scheduled := TestToken();
      if !scheduled {
        LinkToken();
      }
    }

    method SignalWorkers(wake: set<Tid>)
      requires Synced({Exit})
      modifies this`workers
      ensures Synced({Exit}) && workers == Signal(old(workers), wake)
    {
      hide Synced, Signal;
      workers := Signal(workers, wake);
    }

    /** !uv__queue_empty(&run_slow_work_message) */
    method TestToken() returns (linked: bool)
      requires Synced({Exit})
      ensures linked == tokenLinked && Token in addr && (!linked ==> NotIn(Token))
      ensures Synced({Exit}) && Memory() == old(Memory())
    {
      hide Rings.Valid, Layout.Apart, LinkedOf, ContentOf, Mirrors;
      LinkTest(Token, {Exit});
      LinkedToken(tokenLinked, exitPosted, reqs);
      linked := !IsEmpty(addr[Token]);
    }

    method LinkSlow(q: QNode)
      requires Synced({Exit, q}) && q in addr && q in LinkedSet() && NotIn(q) && q.Req?
      modifies this`slowq, rings, Memory()
      ensures Synced({Exit}) && Memory() == old(Memory()) && slowq == old(slowq) + [q.w]
    {
      hide Rings.Valid, Layout.Apart, LinkedOf, ContentOf, Mirrors;
      SlowContent(wq, slowq, loops, slowq + [q.w]);
      ReqsAppend(slowq, q.w);
      LinkTail(SlowQ, q, {Exit, q});
      assert LinkedSet() + {q} == LinkedSet();
      slowq := slowq + [q.w];
    }

    method LinkWork(q: QNode)
      requires Synced({Exit, q}) && q in addr && q in LinkedSet() && NotIn(q) && (q == Exit ==> exitPosted)
      modifies this`wq, rings, Memory()
      ensures Synced({Exit}) && Memory() == old(Memory()) && wq == old(wq) + [q]
    {
      hide Rings.Valid, Layout.Apart, LinkedOf, ContentOf, Mirrors;
      SharedContent(wq, slowq, loops, wq + [q]);
      LinkTail(WorkQ, q, {Exit, q});
      assert LinkedSet() + {q} == LinkedSet();
      wq := wq + [q];
    }

    method LinkToken()
      requires Synced({Exit}) && Token in addr && NotIn(Token)
      modifies this`wq, this`tokenLinked, rings, Memory()
      ensures Synced({Exit}) && Memory() == old(Memory()) && wq == old(wq) + [Token] && tokenLinked
    {
      hide Rings.Valid, Layout.Apart, LinkedOf, ContentOf, Mirrors;
      SharedContent(wq, slowq, loops, wq + [Token]);
      LinkedToken(tokenLinked, exitPosted, reqs);
      LinkTail(WorkQ, Token, {Exit});
      wq, tokenLinked := wq + [Token], true;
    }

    /** uv__work_submit of a request whose node lies at x; x may be the node of a request
        that is done. */
    method WorkSubmit(l: LoopId, w: Wid, kind: Kind, wake: set<Tid>, x: Node)
      requires Enabled(View(), Submit(l, w, kind, wake)) && Synced({Exit}) && x !in Memory()
      modifies this, rings, Memory(), x
      ensures Did(Submit(l, w, kind, wake))
      ensures Synced({Exit}) && Memory() == old(Memory()) + {x}
    {
      hide Synced, LinkedOf;
      Address(w, Request(l, kind, Func, true), x);
      Post(Req(w), kind.SlowIo?, wake);
    }

    method Address(w: Wid, r: Request, x: Node)
      requires Synced({Exit}) && w !in reqs && r.linked && x !in Memory()
      modifies this`reqs, this`addr
      ensures Synced({Exit, Req(w)}) && reqs == old(reqs)[w := r] && addr == old(addr)[Req(w) := x]
      ensures Req(w) in LinkedSet() && NotIn(Req(w)) && Memory() == old(Memory()) + {x}
    {
      hide Rings.Valid, Layout.Apart, LinkedOf, ContentOf, Mirrors;
      AddressMirrors(rings.at, addr, Content(), LinkedSet(), Req(w), x);
      LinkedRequest(tokenLinked, exitPosted, reqs, w, r);
      NewValue(addr, Req(w), x);
      reqs := reqs[w := r];
      addr := addr[Req(w) := x];
      LinkedRequest(tokenLinked, exitPosted, reqs, w, r);
    }

    /** uv__threadpool_cleanup, up to the joins. */
    method PostExit(wake: set<Tid>)
      requires Enabled(View(), Shutdown(wake)) && Synced({Exit})
      modifies this, rings, Memory()
      ensures Did(Shutdown(wake))
      ensures Synced({Exit}) && Memory() == old(Memory())
    {
      hide Synced, LinkedOf;
      MarkExit();
      Post(Exit, false, wake);
    }

    method MarkExit()
      requires Synced({Exit}) && !exitPosted
      modifies this`exitPosted
      ensures Synced({Exit, Exit}) && exitPosted && Exit in addr && Exit in LinkedSet() && NotIn(Exit)
    {
      hide Rings.Valid, Layout.Apart, ContentOf, Holds;
      exitPosted := true;
      assert LinkedSet() == old(LinkedSet()) + {Exit};
      assert {Exit, Exit} == {Exit};
    }

    ghost function SharedView(): Shared
      reads this
    {
      Shared(wq, slowq, tokenLinked, running)
    }

    /** The wait predicate of the worker, on the links. */
    method NothingToDo(threshold: nat) returns (r: bool)
      requires Synced({Exit})
      ensures r == (wq == [] || (wq[0] == Token && |wq| == 1 && running >= threshold))
      ensures Synced({Exit}) && Memory() == old(Memory())
    {
      hide Rings.Valid, Layout.Apart, LinkedOf, ContentOf, Mirrors;
      SharedContent(wq, slowq, loops, wq);
      FirstLink(WorkQ, {Exit});
      var head := rings.head[WorkQ];
      if IsEmpty(head) {
        return true;
      }
      AddressOf(wq[0], Token);
      if head.left != addr[Token] {
        return false;
      }
      LastLink();
      r := addr[Token].left == head && running >= threshold;
    }

    lemma AddressOf(a: QNode, b: QNode)
      requires Mirrors(rings.at, addr, Content(), LinkedSet()) && a in addr && b in addr
      ensures addr[a] == addr[b] <==> a == b
    {
      hide Layout.Apart, Holds, Tested, NoHeads, ContentOf, LinkedOf;
    }

    /** The node after the first one is the head exactly for a queue of one. */
    lemma LastLink()
      requires Synced({Exit}) && wq != [] && WorkQ in rings.head
      ensures wq[0] in addr && (addr[wq[0]].left == rings.head[WorkQ] <==> |wq| == 1)
    {
      hide Layout.Apart, LinkedOf;
      var c := rings.at.cycles;
      SharedContent(wq, slowq, loops, wq);
      assert HoldsAt(rings.at, addr, Content(), WorkQ);
      rings.RingAt(WorkQ);
      SecondLink(c[WorkQ]);
      assert c[WorkQ][1] == c[WorkQ][1..][0];
    }

    /** q == &exit_message */
    method AtExit() returns (r: bool)
      requires Synced({Exit}) && wq != []
      ensures r == (wq[0] == Exit) && Synced({Exit}) && Memory() == old(Memory())
    {
      hide Rings.Valid, Layout.Apart, LinkedOf, ContentOf, Mirrors;
      SharedContent(wq, slowq, loops, wq);
      FirstLink(WorkQ, {Exit});
      AddressOf(wq[0], Exit);
      r := rings.head[WorkQ].left == addr[Exit];
    }

    /** Removes and initialises the first node of the shared queue. */
    method TakeWork() returns (a: QNode)
      requires Synced({Exit}) && wq != [] && wq[0] != Exit
      modifies this`wq, this`tokenLinked, this`reqs, rings, Memory()
      ensures Synced({Exit}) && Memory() == old(Memory())
      ensures a == old(wq)[0] && wq == old(wq)[1..] && tokenLinked == (old(tokenLinked) && a != Token)
      ensures a.Req? ==> a.w in old(reqs) && reqs == old(reqs)[a.w := old(reqs)[a.w].(linked := false)]
      ensures a == Token ==> reqs == old(reqs)
    {
      hide Synced, Mirrors, Rings.Valid, LinkedOf, ContentOf, Unflagged;
      a := UnlinkWork();
      if a == Token {
        ClearToken();
      } else {
        ClearRequest(a.w);
      }
    }

    method UnlinkWork() returns (a: QNode)
      requires Synced({Exit}) && wq != [] && wq[0] != Exit
      modifies this`wq, rings, Memory()
      ensures a == old(wq)[0] && wq == old(wq)[1..] && a != Exit && (a.Req? ==> a.w in reqs)
      ensures Unflagged(a) && Memory() == old(Memory())
    {
      hide Rings.Valid, Layout.Apart, LinkedOf, ContentOf, Mirrors;
      SharedContent(wq, slowq, loops, wq[1..]);
      var x := UnlinkFirst(WorkQ, {Exit});
      OneOwner(rings.at, Content()[WorkQ := wq[1..]], LinkedSet() - {wq[0]});
      a := Owner(x, wq[0]);
      wq := wq[1..];
    }

    /** The node of a has been initialised; its flag is still to be cleared. */
    ghost predicate Unflagged(a: QNode)
      reads this`addr, this`wq, this`slowq, this`loops, this`tokenLinked, this`exitPosted, this`reqs, this`done
      reads rings, rings.at.spot.Keys`left, rings.at.spot.Keys`right
    {
      && rings.Valid() && AddrOk() && Placed({Exit})
      && Mirrors(rings.at, addr, Content(), LinkedSet() - {a})
    }

    method ClearToken()
      requires Unflagged(Token)
      modifies this`tokenLinked
      ensures Synced({Exit}) && !tokenLinked && Memory() == old(Memory())
    {
      hide Rings.Valid, LinkedOf, ContentOf, Mirrors;
      LinkedToken(tokenLinked, exitPosted, reqs);
      tokenLinked := false;
    }

    method ClearRequest(w: Wid)
      requires w in reqs && Unflagged(Req(w))
      modifies this`reqs
      ensures Synced({Exit}) && reqs == old(reqs)[w := old(reqs)[w].(linked := false)] && Memory() == old(Memory())
    {
      hide Rings.Valid, LinkedOf, ContentOf, Mirrors;
      LinkedRequest(tokenLinked, exitPosted, reqs, w, reqs[w].(linked := false));
      reqs := reqs[w := reqs[w].(linked := false)];
    }

    /** uv__queue_empty(&slow_io_pending_wq) */
    method NoSlowWork() returns (r: bool)
      requires Synced({Exit})
      ensures r == (slowq == []) && Synced({Exit}) && Memory() == old(Memory())
    {
      hide Rings.Valid, Layout.Apart, LinkedOf, ContentOf, Mirrors;
      SlowContent(wq, slowq, loops, slowq);
      FirstLink(SlowQ, {Exit});
      r := IsEmpty(rings.head[SlowQ]);
    }

    /** Removes and initialises the first node of the slow queue. */
    method TakeSlow() returns (w: Wid)
      requires Synced({Exit}) && slowq != []
      modifies this`slowq, this`reqs, rings, Memory()
      ensures Synced({Exit}) && Memory() == old(Memory())
      ensures w == old(slowq)[0] && slowq == old(slowq)[1..]
      ensures w in old(reqs) && reqs == old(reqs)[w := old(reqs)[w].(linked := false)]
    {
      hide Synced, Mirrors, Rings.Valid, LinkedOf, ContentOf, Unflagged;
      w := UnlinkSlow();
      ClearRequest(w);
    }

    method UnlinkSlow() returns (w: Wid)
      requires Synced({Exit}) && slowq != []
      modifies this`slowq, rings, Memory()
      ensures w == old(slowq)[0] && slowq == old(slowq)[1..] && w in reqs
      ensures Unflagged(Req(w)) && Memory() == old(Memory())
    {
      hide Rings.Valid, Layout.Apart, LinkedOf, ContentOf, Mirrors;
      SlowContent(wq, slowq, loops, slowq[1..]);
      assert Reqs(slowq)[1..] == Reqs(slowq[1..]);
      var x := UnlinkFirst(SlowQ, {Exit});
      OneOwner(rings.at, Content()[SlowQ := Reqs(slowq[1..])], LinkedSet() - {Req(slowq[0])});
      var a := Owner(x, Req(slowq[0]));
      w := a.w;
      slowq := slowq[1..];
    }

    /** The worker's for(;;) loop under the mutex, up to the next wait, exit or
        request. The token can send the loop round again at most once, because it
        is queued at most once. */
    method NextRequest(threshold: nat) returns (p: Pick, signal: bool)
      requires TokenOk() && Synced({Exit})
      modifies this`wq, this`slowq, this`tokenLinked, this`running, this`reqs, rings, Memory()
      ensures Picked(p, SharedView(), signal) == Choose(old(SharedView()), threshold)
      ensures reqs == ReqsAfter(old(reqs), p) && Synced({Exit}) && Memory() == old(Memory())
    {
      hide Synced, Choose, NoDup, ReqsAfter;
      ghost var goal := Choose(SharedView(), threshold);
      while true
        invariant TokenOk() && Synced({Exit}) && Memory() == old(Memory()) && reqs == old(reqs)
        invariant Choose(SharedView(), threshold) == goal
        decreases |wq|, wq != [] && wq[0] == Token
      {
        var again;
        again, p, signal := Turn(threshold);
        if !again {
          return;
        }
      }
    }

    /** One turn of the loop. */
    method Turn(threshold: nat) returns (again: bool, p: Pick, signal: bool)
      requires TokenOk() && Synced({Exit})
      modifies this`wq, this`slowq, this`tokenLinked, this`running, this`reqs, rings, Memory()
      ensures Synced({Exit}) && Memory() == old(Memory())
      ensures again ==>
        && TokenOk() && reqs == old(reqs) && Choose(SharedView(), threshold) == Choose(old(SharedView()), threshold)
        && (|wq| < |old(wq)| || (|wq| == |old(wq)| > 0 && old(wq[0]) == Token && wq[0] != Token))
      ensures !again ==>
        && Picked(p, SharedView(), signal) == Choose(old(SharedView()), threshold)
        && reqs == ReqsAfter(old(reqs), p)
    {
      hide Synced, Choose;
      ghost var before := SharedView();
      ChooseFirst(before, threshold);
      var stop := NothingToDo(threshold);
      if stop {
        return false, Sleep, false;
      }
      var exit := AtExit();
      if exit {
        return false, Leave, true;
      }
      NoDupRest(wq);
      var q := TakeWork();
      if q != Token {
        return false, Take(q.w, false), false;
      }
      again, p, signal := TokenTurn(threshold, before);
    }

    /** The rest of the turn after the token has been taken out of the queue. */
    method TokenTurn(threshold: nat, ghost before: Shared) returns (again: bool, p: Pick, signal: bool)
      requires Synced({Exit}) && NoDup(before.wq) && before.wq != [] && before.wq[0] == Token
      requires SharedView() == before.(wq := before.wq[1..], tokenLinked := false)
      requires before.tokenLinked && !(|before.wq| == 1 && running >= threshold)
      modifies this`wq, this`slowq, this`tokenLinked, this`running, this`reqs, rings, Memory()
      ensures Synced({Exit}) && Memory() == old(Memory())
      ensures again ==>
        && TokenOk() && reqs == old(reqs) && Choose(SharedView(), threshold) == Choose(before, threshold)
        && (|wq| < |before.wq| || (|wq| == |before.wq| && wq[0] != Token))
      ensures !again ==>
        && Picked(p, SharedView(), signal) == Choose(before, threshold)
        && reqs == ReqsAfter(old(reqs), p)
    {
      hide Synced, Choose;
      ChooseToken(before, threshold);
      NoDupRest(before.wq);
      if running >= threshold {
        NoDupAppend(wq, Token);
        assert wq[0] in wq;
        RelinkToken();
        return true, Sleep, false;
      }
      var none := NoSlowWork();
      if none {
        return true, Sleep, false;
      }
      CountSlowStart();
      var w := TakeSlow();
      none := NoSlowWork();
      if !none {
        RelinkToken();
        return false, Take(w, true), true;
      }
      return false, Take(w, true), false;
    }

    method RelinkToken()
      requires Synced({Exit}) && !tokenLinked
      modifies this`wq, this`tokenLinked, rings, Memory()
      ensures Synced({Exit}) && Memory() == old(Memory()) && wq == old(wq) + [Token] && tokenLinked
    {
      hide Synced;
      var linked := TestToken();
      LinkToken();
    }

    /** slow_io_work_running++ */
    method CountSlowStart()
      requires Synced({Exit})
      modifies this`running
      ensures Synced({Exit}) && running == old(running) + 1
    {
      hide Synced;
      running := running + 1;
    }

    /** The counter updates on locking the mutex again. */
    method Relock(t: Tid)
      requires t < |workers| && CanLock(workers[t]) && Synced({Exit})
      modifies this`idle, this`running
      ensures idle == IdleOnLock(old(View()), t) && running == RunningOnLock(old(View()), t)
      ensures Synced({Exit})
    {
      hide Synced;
      if workers[t].Woken? {
        idle := idle - 1;
      } else if workers[t].slow {
        running := running - 1;
      }
    }

    /** What the worker does with the outcome of the loop before it releases the mutex. */
    method Commit(t: Tid, p: Pick, signal: bool, wake: set<Tid>)
      requires t < |workers| && Synced({Exit})
      modifies this`idle, this`workers
      ensures Synced({Exit}) && idle == old(idle) + (if p.Sleep? then 1 else 0)
      ensures workers ==
        (if signal && (p.Leave? || old(idle) > 0) then Signal(old(workers), wake) else old(workers))[t := Became(p)]
    {
      hide Synced, Signal;
      if signal && (p.Leave? || idle > 0) {
        workers := Signal(workers, wake);
      }
      match p
      case Sleep =>
        idle := idle + 1;
        workers := workers[t := Asleep];
      case Leave =>
        workers := workers[t := Exited];
      case Take(w, slow) =>
        workers := workers[t := Holding(w, slow)];
    }

    /** Worker t from locking the mutex to releasing it. */
    method WorkerSection(t: Tid, wake: set<Tid>)
      requires t < |workers| && CanLock(workers[t]) && TokenOk() && Synced({Exit})
      modifies this, rings, Memory()
      ensures View() == RunSection(old(View()), t, wake)
      ensures Synced({Exit}) && Memory() == old(Memory())
    {
      hide Choose, PickHead, NoDup, Signal, Became, ReqsAfter, Synced, RunSection, Outcome, Memory;
      SectionResult(View(), t, wake);
      Relock(t);
      var p, signal := NextRequest(Threshold(|workers|));
      Commit(t, p, signal, wake);
    }

    /** The worker's call of the work function. */
    method CallFunction(t: Tid)
      requires Enabled(View(), CallWork(t)) && Synced({Exit})
      modifies this`workers, this`ran, this`aborted
      ensures Did(CallWork(t)) && Synced({Exit})
    {
      hide Synced;
      var w := workers[t].w;
      if !(w in reqs && reqs[w].work == Func) {
        aborted := true;
      }
      workers := workers[t := Ran(w, workers[t].slow)];
      ran := ran + [w];
    }

    method WakeUp(t: Tid)
      requires Enabled(View(), Spurious(t)) && Synced({Exit})
      modifies this`workers
      ensures Did(Spurious(t)) && Synced({Exit})
    {
      hide Synced;
      workers := workers[t := Woken];
    }

    /** Queues a result at its loop, under the loop's mutex, and announces it. */
    method LinkResult(l: LoopId, w: Wid, work: WorkField, gap: Option<Wid>)
      requires Synced({Exit}) && l in loops && w in reqs && Req(w) in addr && NotIn(Req(w))
      modifies this`reqs, this`loops, rings, Memory()
      ensures Synced({Exit}) && Memory() == old(Memory())
      ensures reqs == old(reqs)[w := old(reqs)[w].(work := work, linked := true)]
      ensures loops == old(loops)[l := Loop(old(loops)[l].wq + [w], old(loops)[l].local, gap, true)]
    {
      hide Rings.Valid, Layout.Apart, LinkedOf, ContentOf, Mirrors;
      var lp := Loop(loops[l].wq + [w], loops[l].local, gap, true);
      var r := reqs[w].(work := work, linked := true);
      LoopContent(wq, slowq, loops, l, lp);
      ReqsAppend(loops[l].wq, w);
      LinkedRequest(tokenLinked, exitPosted, reqs, w, r);
      ghost var c := Content();
      LinkTail(ResultQ(l), Req(w), {Exit});
      assert c[ResultQ(l) := Reqs(lp.wq)][LocalQ(l) := Reqs(lp.local)] == c[ResultQ(l) := c[ResultQ(l)] + [Req(w)]];
      reqs := reqs[w := r];
      loops := loops[l := lp];
    }

    /** The worker's second critical section, under the loop's mutex. */
    method QueueOutcome(t: Tid)
      requires Enabled(View(), Finish(t)) && Pending(workers[t].w) && !reqs[workers[t].w].linked && Synced({Exit})
      modifies this, rings, Memory()
      ensures Did(Finish(t))
      ensures Synced({Exit}) && Memory() == old(Memory())
    {
      hide Synced, LinkedOf, Enabled, Apply, NotIn, Memory;
      FinishIs(View(), t, map[]);
      var w, slow := workers[t].w, workers[t].slow;
      Unlinked(w);
      LinkResult(reqs[w].loop, w, Null, loops[reqs[w].loop].gap);
      Return(t, slow);
    }

    method Return(t: Tid, slow: bool)
      requires t < |workers| && Synced({Exit})
      modifies this`workers
      ensures workers == old(workers)[t := Locking(slow)] && Synced({Exit})
    {
      hide Synced;
      workers := workers[t := Locking(slow)];
    }

    lemma Unlinked(w: Wid)
      requires Synced({Exit}) && Pending(w) && !reqs[w].linked
      ensures Req(w) in addr && NotIn(Req(w))
    {
      hide Rings.Valid, Layout.Apart, LinkedOf, ContentOf, Mirrors;
      LinkTest(Req(w), {Exit});
      LinkedRequest(tokenLinked, exitPosted, reqs, w, reqs[w]);
    }

    /** The test of uv__work_cancel, on the links of the request's node. */
    method TestRequest(w: Wid) returns (ok: bool)
      requires Synced({Exit}) && Pending(w)
      ensures ok == Cancellable(reqs[w]) && Req(w) in addr
      ensures Synced({Exit}) && Memory() == old(Memory())
    {
      hide Rings.Valid, Layout.Apart, LinkedOf, ContentOf, Mirrors;
      LinkTest(Req(w), {Exit});
      LinkedRequest(tokenLinked, exitPosted, reqs, w, reqs[w]);
      ok := !IsEmpty(addr[Req(w)]) && reqs[w].work != Null;
    }

    /** uv__work_cancel up to its first unlock. The node is removed from whichever ring it
        is in; q and k say which that is. */
    method CancelFirstHalf(l: LoopId, w: Wid, ghost q: Id, ghost k: nat) returns (ok: bool)
      requires Enabled(View(), CancelBegin(l, w))
      requires Cancellable(reqs[w]) ==> QueuedAt(View(), l, w, q, k)
      requires Synced({Exit})
      modifies this, rings, Memory()
      ensures ok == old(Cancellable(reqs[w]))
      ensures Did(CancelBegin(l, w))
      ensures Synced({Exit}) && Memory() == old(Memory())
    {
      hide Synced, Enabled, Apply, BeginCancel, QueuedAt, Memory;
      BeginIs(View(), l, w);
      ok := TestRequest(w);
      if !ok {
        Refuse(w);
        return;
      }
      Withdraw(l, w, q, k);
    }

    method Refuse(w: Wid)
      requires Synced({Exit})
      modifies this`busy
      ensures busy == old(busy) + {w} && Synced({Exit})
    {
      hide Synced;
      busy := busy + {w};
    }

    method Withdraw(l: LoopId, w: Wid, ghost q: Id, ghost k: nat)
      requires l in loops && w in reqs && Req(w) in addr && QueuedAt(View(), l, w, q, k)
      requires Synced({Exit})
      modifies this`wq, this`slowq, this`loops, this`cancelled, rings, Memory()
      ensures Synced({Exit}) && Memory() == old(Memory())
      ensures wq == Unlink(old(wq), Req(w)) && slowq == Unlink(old(slowq), w) && cancelled == old(cancelled) + {w}
      ensures loops == old(loops)[l := Withdrawn(old(loops)[l], w)]
    {
      hide Rings.Valid, Layout.Apart, LinkedOf, ContentOf, Mirrors, Withdrawn, Unlink, QueuedAt, AddrOk, Placed;
      QueuedParts(View(), l, w, q, k);
      CutAt(q, k, addr[Req(w)], {Exit});
      Strike(l, w);
    }

    /** The sequences after the node is gone from its ring. */
    method Strike(l: LoopId, w: Wid)
      requires l in loops && rings.Valid() && AddrOk() && Placed({Exit})
      requires Mirrors(rings.at, addr,
        ContentOf(Unlink(wq, Req(w)), Unlink(slowq, w), loops[l := Withdrawn(loops[l], w)]), LinkedSet())
      modifies this`wq, this`slowq, this`loops, this`cancelled
      ensures Synced({Exit}) && Memory() == old(Memory())
      ensures wq == Unlink(old(wq), Req(w)) && slowq == Unlink(old(slowq), w) && cancelled == old(cancelled) + {w}
      ensures loops == old(loops)[l := Withdrawn(old(loops)[l], w)]
    {
      hide Rings.Valid, LinkedOf, ContentOf, Mirrors, Withdrawn, Unlink;
      wq, slowq := Unlink(wq, Req(w)), Unlink(slowq, w);
      loops := loops[l := Withdrawn(loops[l], w)];
      cancelled := cancelled + {w};
    }

    /** The rest of uv__work_cancel. */
    method CancelSecondHalf(l: LoopId)
      requires Enabled(View(), CancelEnd(l))
      requires Req(loops[l].gap.value) in addr && NotIn(Req(loops[l].gap.value))
      requires Synced({Exit})
      modifies this, rings, Memory()
      ensures Did(CancelEnd(l))
      ensures Synced({Exit}) && Memory() == old(Memory())
    {
      hide Synced, LinkedOf, Enabled, Apply, QueueResult, NotIn, Memory;
      EndIs(View(), l);
      LinkResult(l, loops[l].gap.value, Cancelled, None);
    }

    /** The first critical section of uv__work_done: uv__queue_move. */
    method TakeResults(l: LoopId)
      requires Enabled(View(), Drain(l)) && Synced({Exit})
      modifies this, rings, Memory()
      ensures Did(Drain(l))
      ensures Synced({Exit}) && Memory() == old(Memory())
    {
      hide Synced;
      MoveResults(l);
    }

    method MoveResults(l: LoopId)
      requires Synced({Exit}) && l in loops && loops[l].local == []
      modifies this`loops, rings, Memory()
      ensures Synced({Exit}) && Memory() == old(Memory())
      ensures loops == old(loops)[l := Loop([], old(loops)[l].wq, old(loops)[l].gap, false)]
    {
      hide Rings.Valid, Layout.Apart, LinkedOf, ContentOf, Mirrors, Distinct;
      var lp := Loop([], loops[l].wq, loops[l].gap, false);
      ghost var L, c := rings.at, Content();
      LoopContent(wq, slowq, loops, l, lp);
      assert Reqs([]) == [];
      InRings(ResultQ(l));
      InRings(LocalQ(l));
      rings.RingAt(ResultQ(l));
      MoveMirrors(L, addr, c, LinkedSet(), ResultQ(l), LocalQ(l));
      rings.MoveAll(ResultQ(l), LocalQ(l));
      ghost var none: seq<QNode> := [];
      assert c[ResultQ(l) := none][LocalQ(l) := c[ResultQ(l)]] == c[LocalQ(l) := c[ResultQ(l)]][ResultQ(l) := none];
      loops := loops[l := lp];
    }

    /** One turn of uv__work_done's loop, up to the call of the callback. From then on the
        request's node may serve again. */
    method DoneOne(l: LoopId)
      requires Enabled(View(), Done(l)) && Synced({Exit})
      modifies this, rings, Memory()
      ensures Did(Done(l))
      ensures old(Req(loops[l].local[0])) in old(addr)
      ensures Synced({Exit}) && Memory() == old(Memory()) - {old(addr[Req(loops[l].local[0])])}
    {
      hide Synced, Enabled, Apply, Memory, NotIn;
      DoneIs(View(), l);
      var w := CutLocal(l);
      Report(Verdict(w, reqs[w].work == Cancelled));
    }

    method CutLocal(l: LoopId) returns (w: Wid)
      requires Synced({Exit}) && l in loops && loops[l].local != []
      modifies this`loops, rings, Memory()
      ensures w == old(loops[l].local[0]) && Req(w) in addr && NotIn(Req(w))
      ensures Synced({Exit}) && Memory() == old(Memory())
      ensures loops == old(loops)[l := old(loops)[l].(local := old(loops)[l].local[1..])]
    {
      hide Rings.Valid, Layout.Apart, LinkedOf, ContentOf, Mirrors;
      var lp := loops[l].(local := loops[l].local[1..]);
      ghost var c := Content();
      LoopContent(wq, slowq, loops, l, lp);
      assert Reqs(loops[l].local)[1..] == Reqs(lp.local);
      var x := CutFirst(LocalQ(l), {Exit});
      OneOwner(rings.at, c[LocalQ(l) := c[LocalQ(l)][1..]], LinkedSet());
      var a := Owner(x, Req(loops[l].local[0]));
      w := a.w;
      assert c[ResultQ(l) := Reqs(lp.wq)][LocalQ(l) := Reqs(lp.local)] == c[LocalQ(l) := c[LocalQ(l)][1..]];
      loops := loops[l := lp];
    }

    /** The verdict is given; the request's address is given up. */
    method Report(v: Verdict)
      requires Synced({Exit}) && Req(v.w) in addr && NotIn(Req(v.w))
      modifies this`done, this`addr, rings
      ensures done == old(done) + [v] && Synced({Exit})
      ensures Memory() == old(Memory()) - {old(addr[Req(v.w)])}
    {
      hide Rings.Valid, LinkedOf, ContentOf, Mirrors, Subjects;
      GiveUp(v.w);
      SubjectsOf(done, v);
      done := done + [v];
    }

    method GiveUp(w: Wid)
      requires Synced({Exit}) && Req(w) in addr && NotIn(Req(w))
      modifies this`addr, rings
      ensures addr == old(addr) - {Req(w)} && rings.at.spot == old(rings.at.spot) - {old(addr[Req(w)])}
      ensures rings.Valid() && Mirrors(rings.at, addr, Content(), LinkedSet()) && Placed({Exit})
      ensures Memory() == old(Memory()) - {old(addr[Req(w)])}
    {
      hide Rings.Valid, Layout.Apart, LinkedOf, ContentOf, Mirrors, Injective, AddrOk;
      OneOwner(rings.at, Content(), LinkedSet());
      ForgetMirrors(rings.at, addr, Content(), LinkedSet(), Req(w));
      LostValue(addr, Req(w));
      rings.Forget(addr[Req(w)]);
      addr := addr - {Req(w)};
    }

    /** uv__queue_empty(&wq) in uv__work_done */
    method NoResults(l: LoopId) returns (r: bool)
      requires l in loops && Synced({Exit})
      ensures r == (loops[l].local == []) && Synced({Exit}) && Memory() == old(Memory())
    {
      hide Rings.Valid, Layout.Apart, LinkedOf, ContentOf, Mirrors;
      LoopContent(wq, slowq, loops, l, loops[l]);
      FirstLink(LocalQ(l), {Exit});
      r := IsEmpty(rings.head[LocalQ(l)]);
    }

    /** Any action, by whoever performs it. */
    method Perform(a: Action, ghost pl: Placing)
      requires Inv(View(), pl) && Enabled(View(), a) && Synced({Exit})
      modifies this, rings, Memory()
      ensures View() == Apply(old(View()), a) && Inv(View(), Moved(old(View()), a, pl))
      ensures Synced({Exit}) && forall x :: x in Memory() ==> x in old(Memory()) || fresh(x)
    {
      hide Inv, Moved, Apply, Synced;
      StepKeeps(View(), a, pl);
      match a
      case Submit(l, w, kind, wake) =>
        var x := new Node();
        WorkSubmit(l, w, kind, wake, x);
      case Section(t, wake) =>
        TokenFacts(View(), pl);
        SectionIs(View(), t, wake);
        WorkerSection(t, wake);
      case CallWork(t) => CallFunction(t);
      case Finish(t) =>
        HeldIsUnlinked(View(), t, pl);
        QueueOutcome(t);
      case Spurious(t) => WakeUp(t);
      case CancelBegin(l, w) => CancelBy(l, w, pl);
      case CancelEnd(l) =>
        GapIsLoose(l, pl);
        CancelSecondHalf(l);
      case Drain(l) => TakeResults(l);
      case Done(l) => DoneOne(l);
      case Shutdown(wake) => PostExit(wake);
    }

    method CancelBy(l: LoopId, w: Wid, ghost pl: Placing)
      requires Inv(View(), pl) && Enabled(View(), CancelBegin(l, w)) && Synced({Exit})
      modifies this, rings, Memory()
      ensures Did(CancelBegin(l, w))
      ensures Synced({Exit}) && Memory() == old(Memory())
    {
      hide Inv, Apply, Synced, QueuedAt;
      ghost var q, k := WorkQ, 0;
      if Cancellable(reqs[w]) {
        q, k := WhereQueued(View(), l, w, pl);
      }
      var _ := CancelFirstHalf(l, w, q, k);
    }

    lemma GapIsLoose(l: LoopId, pl: Placing)
      requires Inv(View(), pl) && Enabled(View(), CancelEnd(l)) && Synced({Exit})
      ensures Req(loops[l].gap.value) in addr && NotIn(Req(loops[l].gap.value))
    {
      hide Rings.Valid, Layout.Apart, LinkedOf, ContentOf, Inv;
      var w := loops[l].gap.value;
      GapNotQueued(View(), l, pl);
      GapNotStarted(View(), l, pl);
      NotQueued(rings.at, addr, Content(), Req(w));
    }

    /** What happens while a callback of uv__work_done runs: actions of its own and of other
        threads, in any order, as far as they are possible. Only the loop's thread delivers
        its results, and it finishes a cancellation that it began. */
    method Meanwhile(l: LoopId, acts: seq<Action>, ghost pl0: Placing) returns (ghost run: seq<Action>, ghost pl: Placing)
      requires Inv(View(), pl0) && LoopFree(View(), l) && Synced({Exit})
      modifies this, rings, Memory()
      ensures IsRun(old(View()), run) && View() == After(old(View()), run) && Inv(View(), pl)
      ensures LoopFree(View(), l) && |loops[l].local| <= |old(loops[l].local)|
      ensures forall w :: w in old(loops[l].local) ==> w in loops[l].local || TakenBack(old(View()), run, l, w)
      ensures forall w :: Waits(old(View()), l, w) ==> Waits(View(), l, w)
      ensures Drain(l) !in run && Done(l) !in run
      ensures Synced({Exit}) && forall x :: x in Memory() ==> x in old(Memory()) || fresh(x)
    {
      hide Inv, Enabled, Apply, Moved, Synced, TakenBack, Waits, Withdraws;
      run, pl := [], pl0;
      var i := 0;
      while i < |acts|
        invariant 0 <= i <= |acts| && l in loops && Inv(View(), pl)
        invariant IsRun(old(View()), run) && View() == After(old(View()), run)
        invariant |loops[l].local| <= |old(loops[l].local)|
        invariant forall w :: w in old(loops[l].local) ==> w in loops[l].local || TakenBack(old(View()), run, l, w)
        invariant forall w :: Waits(old(View()), l, w) ==> Waits(View(), l, w)
        invariant Drain(l) !in run && Done(l) !in run
        invariant Synced({Exit}) && forall x :: x in Memory() ==> x in old(Memory()) || fresh(x)
      {
        if acts[i] != Drain(l) && acts[i] != Done(l) && Enabled(View(), acts[i]) {
          LocalStep(View(), acts[i], l, pl);
          BackSnoc(old(View()), run, acts[i], l);
          ghost var pl1 := Moved(View(), acts[i], pl);
          Perform(acts[i], pl);
          run, pl := run + [acts[i]], pl1;
        }
        i := i + 1;
      }
      if loops[l].gap.Some? {
        GapKnown(View(), l, pl);
        LocalStep(View(), CancelEnd(l), l, pl);
        EndFrees(View(), l);
        BackSnoc(old(View()), run, CancelEnd(l), l);
        ghost var pl1 := Moved(View(), CancelEnd(l), pl);
        Perform(CancelEnd(l), pl);
        run, pl := run + [CancelEnd(l)], pl1;
      }
    }

    /** uv__work_done, while callbacks and other threads do anything: the whole call is a run
        of the pool in which every result queued at its start is delivered, except exactly
        those that a uv_cancel takes back first; they wait at the loop for the next call. */
    method WorkDone(l: LoopId, script: nat -> seq<Action>, ghost pl0: Placing)
      returns (nevents: nat, ghost run: seq<Action>, ghost pl: Placing)
      requires Inv(View(), pl0) && Enabled(View(), Drain(l)) && Synced({Exit})
      modifies this, rings, Memory()
      ensures IsRun(old(View()), run) && View() == After(old(View()), run) && Inv(View(), pl)
      ensures [Drain(l)] <= run && nevents == Deliveries(run, l) <= |old(loops[l].wq)|
      ensures LoopFree(View(), l) && loops[l].local == [] && Synced({Exit})
      ensures forall w :: w in old(loops[l].wq) ==> (Started(View(), w) <==> !TakenBack(old(View()), run, l, w))
    {
      hide Inv, Enabled, Apply, Moved, Started, Synced, TakenBack, Waits;
      ghost var s0, first := View(), [Drain(l)];
      StartDelivery(s0, l);
      ghost var due := s0.loops[l].wq;
      pl := Moved(s0, Drain(l), pl0);
      Perform(Drain(l), pl0);
      run, nevents := first, 0;
      var none := NoResults(l);
      while !none
        invariant LoopFree(View(), l) && none == (loops[l].local == []) && Inv(View(), pl) && Synced({Exit})
        invariant forall x :: x in Memory() ==> x in old(Memory()) || fresh(x)
        invariant IsRun(s0, run) && View() == After(s0, run) && first <= run
        invariant nevents == Deliveries(run, l) && nevents + |loops[l].local| <= |due|
        invariant forall w :: w in due ==>
          Started(View(), w) || w in loops[l].local || TakenBack(s0, run, l, w)
        decreases |loops[l].local|
      {
        ghost var more;
        BackWaits(s0, run, l);
        more, pl := Deliver(l, script(nevents + 1), pl);
        RunConcat(s0, run, more);
        BackConcat(s0, run, more, l);
        DeliveredMore(run, more, l);
        run := run + more;
        nevents := nevents + 1;
        none := NoResults(l);
      }
      BackWaits(s0, run, l);
      WaitsNotStarted(View(), l, pl);
    }

    /** One delivery, and what happens while its callback runs. */
    method Deliver(l: LoopId, acts: seq<Action>, ghost pl0: Placing) returns (ghost run: seq<Action>, ghost pl: Placing)
      requires Inv(View(), pl0) && LoopFree(View(), l) && loops[l].local != [] && Synced({Exit})
      modifies this, rings, Memory()
      ensures IsRun(old(View()), run) && View() == After(old(View()), run) && Inv(View(), pl)
      ensures LoopFree(View(), l) && |loops[l].local| < |old(loops[l].local)| && Deliveries(run, l) == 1
      ensures forall w :: w in old(loops[l].local) ==>
        Started(View(), w) || w in loops[l].local || TakenBack(old(View()), run, l, w)
      ensures forall w :: Started(old(View()), w) ==> Started(View(), w)
      ensures forall w :: Waits(old(View()), l, w) ==> Waits(View(), l, w)
      ensures Synced({Exit}) && forall x :: x in Memory() ==> x in old(Memory()) || fresh(x)
    {
      hide Inv, Enabled, Apply, Moved, Started, Synced, TakenBack, Waits;
      ghost var s1, one := View(), [Done(l)];
      DeliverOne(s1, l, pl0);
      ghost var pl1 := Moved(s1, Done(l), pl0);
      Perform(Done(l), pl0);
      ghost var s2, more := View(), [];
      more, pl := Meanwhile(l, acts, pl1);
      LogsGrow(s2, more);
      StartedStays(s2, After(s2, more));
      RunConcat(s1, one, more);
      BackConcat(s1, one, more, l);
      DeliveredSame(one, more, l);
      run := one + more;
    }
  }

  lemma TokenFacts(s: State, pl: Placing)
    requires Inv(s, pl)
    ensures NoDup(s.wq) && (s.tokenLinked <==> Token in s.wq)
  {
  }

  lemma SectionIs(s: State, t: Tid, wake: set<Tid>)
    requires Enabled(s, Section(t, wake))
    ensures t < |s.workers| && CanLock(s.workers[t]) && NoDup(s.wq)
    ensures Apply(s, Section(t, wake)) == RunSection(s, t, wake)
  {
  }

  /** Deliveries at loop l. */
  ghost function Deliveries(run: seq<Action>, l: LoopId): nat {
    if run == [] then 0 else Deliveries(run[..|run| - 1], l) + if run[|run| - 1] == Done(l) then 1 else 0
  }

  lemma {:induction false} DeliveredMore(run: seq<Action>, more: seq<Action>, l: LoopId)
    ensures Deliveries(run + more, l) == Deliveries(run, l) + Deliveries(more, l)
    decreases |more|
  {
    if more == [] {
      assert run + more == run;
    } else {
      var n := |more| - 1;
      assert (run + more)[..|run| + n] == run + more[..n];
      DeliveredMore(run, more[..n], l);
    }
  }

  lemma {:induction false} DeliveredSame(run: seq<Action>, more: seq<Action>, l: LoopId)
    requires Done(l) !in more
    ensures Deliveries(run + more, l) == Deliveries(run, l)
    decreases |more|
  {
    if more == [] {
      assert run + more == run;
    } else {
      var n := |more| - 1;
      assert (run + more)[..|run| + n] == run + more[..n];
      DeliveredSame(run, more[..n], l);
    }
  }

  lemma StartDelivery(s: State, l: LoopId)
    requires Enabled(s, Drain(l))
    ensures l in s.loops
    ensures var r := Apply(s, Drain(l));
      && LoopFree(r, l) && r.loops[l].local == s.loops[l].wq
      && IsRun(s, [Drain(l)]) && After(s, [Drain(l)]) == r && Deliveries([Drain(l)], l) == 0
  {
    assert [Drain(l)][1..] == [];
  }

  /** Queued at loop l, or about to be by the second half of uv__work_cancel. */
  predicate Waits(s: State, l: LoopId, w: Wid) {
    l in s.loops && (w in s.loops[l].wq || s.loops[l].gap == Some(w))
  }

  /** A uv_cancel withdrew w during the run, and at its end w waits at the loop again. */
  ghost predicate TakenBack(s: State, run: seq<Action>, l: LoopId, w: Wid) {
    IsRun(s, run) && Withdrew(s, run, l, w) && Waits(After(s, run), l, w)
  }

  lemma {:induction false} WithdrewConcat(s: State, run: seq<Action>, more: seq<Action>, l: LoopId, w: Wid)
    requires IsRun(s, run) && IsRun(After(s, run), more)
    ensures IsRun(s, run + more)
    ensures Withdrew(s, run + more, l, w) <==> Withdrew(s, run, l, w) || Withdrew(After(s, run), more, l, w)
    decreases |run|
  {
    hide Apply, Enabled, Withdraws;
    RunConcat(s, run, more);
    if run == [] {
      assert run + more == more;
    } else {
      assert (run + more)[1..] == run[1..] + more;
      WithdrewConcat(Apply(s, run[0]), run[1..], more, l, w);
    }
  }

  lemma BackConcat(s: State, run: seq<Action>, more: seq<Action>, l: LoopId)
    requires IsRun(s, run) && IsRun(After(s, run), more)
    ensures forall w :: TakenBack(After(s, run), more, l, w) ==> TakenBack(s, run + more, l, w)
    ensures forall w :: TakenBack(s, run, l, w) && Waits(After(After(s, run), more), l, w) ==>
      TakenBack(s, run + more, l, w)
  {
    hide Apply, Enabled, Waits, IsRun, After, Withdrew;
    RunConcat(s, run, more);
    forall w ensures Withdrew(s, run + more, l, w) <==> Withdrew(s, run, l, w) || Withdrew(After(s, run), more, l, w) {
      WithdrewConcat(s, run, more, l, w);
    }
  }

  lemma BackSnoc(s: State, run: seq<Action>, a: Action, l: LoopId)
    requires IsRun(s, run) && Enabled(After(s, run), a)
    ensures IsRun(s, run + [a]) && After(s, run + [a]) == Apply(After(s, run), a)
    ensures forall w :: TakenBack(s, run, l, w) ==> Waits(After(s, run), l, w)
    ensures forall w :: TakenBack(s, run, l, w) || Withdraws(After(s, run), a, l, w) ==>
      Waits(Apply(After(s, run), a), l, w) ==> TakenBack(s, run + [a], l, w)
  {
    hide Apply, Enabled, Waits, Withdraws;
    assert [a][1..] == [];
    RunConcat(s, run, [a]);
    BackConcat(s, run, [a], l);
  }

  lemma BackWaits(s: State, run: seq<Action>, l: LoopId)
    requires IsRun(s, run)
    ensures forall w :: TakenBack(s, run, l, w) ==> Waits(After(s, run), l, w)
  {
  }

  lemma WaitsNotStarted(s: State, l: LoopId, pl: Placing)
    requires Inv(s, pl) && l in s.loops
    ensures forall w :: Waits(s, l, w) ==> !Started(s, w)
  {
    hide TokenInv, CountInv, WakeInv, QueueInv, HeldInv, HomeInv, ProgressInv, CarryInv;
    assert LoopOk(s.loops[l], l, pl);
  }

  /** What an action other than a delivery does to the results waiting at loop l. */
  lemma LocalStep(s: State, a: Action, l: LoopId, pl: Placing)
    requires Inv(s, pl) && Enabled(s, a) && l in s.loops && a != Drain(l) && a != Done(l)
    ensures var r := Apply(s, a);
      && l in r.loops && |r.loops[l].local| <= |s.loops[l].local|
      && (forall w :: w in s.loops[l].local ==> w in r.loops[l].local || (Withdraws(s, a, l, w) && Waits(r, l, w)))
      && (forall w :: Waits(s, l, w) ==> Waits(r, l, w))
  {
    hide TokenInv, CountInv, WakeInv, QueueInv, HeldInv, LoopInv, HomeInv, ProgressInv, CarryInv, DoneInv;
    hide Apply, Cancellable;
    LoopAfter(s, a, l);
    LoopDistinct(s.loops, l, pl);
    if a.CancelBegin? && a.l == l {
      UnlinkEffect(s.loops[l].local, a.w);
      UnlinkEffect(s.loops[l].wq, a.w);
    }
  }

  lemma LoopDistinct(loops: map<LoopId, Loop>, l: LoopId, pl: Placing)
    requires LoopInv(loops, pl) && l in loops
    ensures NoDup(loops[l].local) && NoDup(loops[l].wq)
  {
    assert LoopOk(loops[l], l, pl);
  }

  lemma GapKnown(s: State, l: LoopId, pl: Placing)
    requires Inv(s, pl) && l in s.loops && s.loops[l].gap.Some?
    ensures Enabled(s, CancelEnd(l))
  {
    assert LoopOk(s.loops[l], l, pl);
    assert Placed(pl, s.loops[l].gap.value, InGap(l));
  }

  lemma EndFrees(s: State, l: LoopId)
    requires Enabled(s, CancelEnd(l))
    ensures LoopFree(Apply(s, CancelEnd(l)), l)
  {
  }

  /** A delivery takes the first waiting result and starts its callback. */
  lemma DeliverOne(s: State, l: LoopId, pl: Placing)
    requires LoopFree(s, l) && s.loops[l].local != [] && Inv(s, pl)
    ensures Enabled(s, Done(l)) && IsRun(s, [Done(l)]) && After(s, [Done(l)]) == Apply(s, Done(l))
    ensures Deliveries([Done(l)], l) == 1
    ensures var r := Apply(s, Done(l));
      && LoopFree(r, l) && r.loops[l].local == s.loops[l].local[1..]
      && Started(r, s.loops[l].local[0])
      && (forall w :: Started(s, w) ==> Started(r, w)) && (forall w :: Waits(s, l, w) ==> Waits(r, l, w))
  {
    hide TokenInv, CountInv, WakeInv, QueueInv, HeldInv, LoopInv, HomeInv, ProgressInv, CarryInv, DoneInv;
    hide Apply, Subjects;
    var w := s.loops[l].local[0];
    PlacedAtLoop(s.loops, l, w, pl);
    KeysAlike(s, pl, w);
    DoneIs(s, l);
    SubjectsOf(s.done, Verdict(w, s.reqs[w].work.Cancelled?));
    assert [Done(l)][1..] == [] && [Done(l)][..0] == [];
  }

  lemma HeldIsUnlinked(s: State, t: Tid, pl: Placing)
    requires Inv(s, pl) && Enabled(s, Finish(t))
    ensures !s.reqs[s.workers[t].w].linked && !Started(s, s.workers[t].w)
  {
    hide TokenInv, CountInv, WakeInv, QueueInv, LoopInv, HomeInv, CarryInv;
    var w := s.workers[t].w;
    PlacedHeld(s.workers, t, pl);
    assert Progress(s.reqs[w], pl[w], w in s.ran, w in s.cancelled, w in s.busy);
  }

  lemma PostIs(s: State, q: QNode, slow: bool, wake: set<Tid>)
    requires slow ==> q.Req?
    ensures slow && s.tokenLinked ==> PostRequest(s, q.w, SlowIo, wake) == s.(slowq := s.slowq + [q.w])
    ensures var ws := if s.idle > 0 then Signal(s.workers, wake) else s.workers;
      && (slow && !s.tokenLinked ==>
            PostRequest(s, q.w, SlowIo, wake)
            == s.(slowq := s.slowq + [q.w], tokenLinked := true, wq := s.wq + [Token], workers := ws))
      && (!slow ==> Enqueue(s, q, wake) == s.(wq := s.wq + [q], workers := ws))
  {
    hide Signal;
  }

  lemma SectionResult(s: State, t: Tid, wake: set<Tid>)
    requires t < |s.workers| && NoDup(s.wq)
    ensures var p := Choose(Shared(s.wq, s.slowq, s.tokenLinked, RunningOnLock(s, t)), Threshold(|s.workers|));
      var signals := p.signal && (p.pick.Leave? || IdleOnLock(s, t) > 0);
      RunSection(s, t, wake) == s.(
        wq := p.shared.wq, slowq := p.shared.slowq, tokenLinked := p.shared.tokenLinked,
        running := p.shared.running, idle := IdleOnLock(s, t) + (if p.pick.Sleep? then 1 else 0),
        workers := (if signals then Signal(s.workers, wake) else s.workers)[t := Became(p.pick)],
        reqs := ReqsAfter(s.reqs, p.pick))
  {
    hide Choose, Signal, Became, ReqsAfter, NoDup;
  }

  lemma BeginIs(s: State, l: LoopId, w: Wid)
    requires Enabled(s, CancelBegin(l, w))
    ensures l in s.loops && w in s.reqs && !Started(s, w)
    ensures Apply(s, CancelBegin(l, w)) ==
      if !Cancellable(s.reqs[w]) then s.(busy := s.busy + {w})
      else s.(wq := Unlink(s.wq, Req(w)), slowq := Unlink(s.slowq, w), cancelled := s.cancelled + {w},
              loops := s.loops[l := Withdrawn(s.loops[l], w)])
  {
  }

  lemma DoneIs(s: State, l: LoopId)
    requires Enabled(s, Done(l))
    ensures l in s.loops && s.loops[l].local != [] && s.loops[l].local[0] in s.reqs
    ensures var w := s.loops[l].local[0];
      Apply(s, Done(l)) == s.(
        loops := s.loops[l := s.loops[l].(local := s.loops[l].local[1..])],
        done := s.done + [Verdict(w, s.reqs[w].work.Cancelled?)])
  {
  }

  lemma EndIs(s: State, l: LoopId)
    requires Enabled(s, CancelEnd(l))
    ensures l in s.loops && s.loops[l].gap.Some? && s.loops[l].gap.value in s.reqs
    ensures var w := s.loops[l].gap.value;
      Apply(s, CancelEnd(l)) == s.(
        reqs := s.reqs[w := s.reqs[w].(work := Cancelled, linked := true)],
        loops := s.loops[l := Loop(s.loops[l].wq + [w], s.loops[l].local, None, true)])
  {
  }

  /** Request w is at place k of queue q, and in no other queue. */
  ghost predicate QueuedAt(s: State, l: LoopId, w: Wid, q: Id, k: nat) {
    var c := ContentOf(s.wq, s.slowq, s.loops);
    && l in s.loops && q in c && k < |c[q]| && c[q][k] == Req(w)
    && ContentOf(Unlink(s.wq, Req(w)), Unlink(s.slowq, w), s.loops[l := Withdrawn(s.loops[l], w)])
       == c[q := Without(c[q], k)]
  }

  lemma QueuedParts(s: State, l: LoopId, w: Wid, q: Id, k: nat)
    requires QueuedAt(s, l, w, q, k)
    ensures l in s.loops
    ensures var c := ContentOf(s.wq, s.slowq, s.loops);
      && q in c && k < |c[q]| && c[q][k] == Req(w)
      && ContentOf(Unlink(s.wq, Req(w)), Unlink(s.slowq, w), s.loops[l := Withdrawn(s.loops[l], w)])
         == c[q := Without(c[q], k)]
  {
  }

  /** Which place of the invariant a queue stands for. */
  function PlaceOf(q: Id): Place {
    match q
    case WorkQ => InQueue
    case SlowQ => InSlow
    case ResultQ(l) => InLoop(l)
    case LocalQ(l) => InLocal(l)
  }

  lemma ReqsHold(ws: seq<Wid>, w: Wid)
    ensures Req(w) in Reqs(ws) <==> w in ws
  {
    if w in ws {
      var i :| 0 <= i < |ws| && ws[i] == w;
      assert Reqs(ws)[i] == Req(w);
    }
    if Req(w) in Reqs(ws) {
      var i :| 0 <= i < |Reqs(ws)| && Reqs(ws)[i] == Req(w);
      assert ws[i] == w;
    }
  }

  /** A queue contains the requests that the invariant places there, each once. */
  lemma ContentPlaces(s: State, pl: Placing, q: Id, w: Wid)
    requires TokenInv(s.wq, s.slowq, s.tokenLinked, s.exitPosted)
    requires QueueInv(s.wq, s.slowq, pl) && LoopInv(s.loops, pl)
    requires q in ContentOf(s.wq, s.slowq, s.loops)
    ensures Req(w) in ContentOf(s.wq, s.slowq, s.loops)[q] <==> Placed(pl, w, PlaceOf(q))
    ensures NoDup(ContentOf(s.wq, s.slowq, s.loops)[q])
  {
    match q
    case WorkQ =>
    case SlowQ =>
      ReqsHold(s.slowq, w);
      ReqsNoDup(s.slowq);
    case ResultQ(l) =>
      assert LoopOk(s.loops[l], l, pl);
      ReqsHold(s.loops[l].wq, w);
      ReqsNoDup(s.loops[l].wq);
    case LocalQ(l) =>
      assert LoopOk(s.loops[l], l, pl);
      ReqsHold(s.loops[l].local, w);
      ReqsNoDup(s.loops[l].local);
  }

  lemma GapNotStarted(s: State, l: LoopId, pl: Placing)
    requires Inv(s, pl) && l in s.loops && s.loops[l].gap.Some?
    ensures s.loops[l].gap.value in s.reqs && !Started(s, s.loops[l].gap.value)
  {
    hide TokenInv, CountInv, WakeInv, QueueInv, HeldInv, LoopInv, ProgressInv, CarryInv;
    PlacedAtLoop(s.loops, l, s.loops[l].gap.value, pl);
  }

  lemma GapNotQueued(s: State, l: LoopId, pl: Placing)
    requires Inv(s, pl) && l in s.loops && s.loops[l].gap.Some?
    ensures forall q :: q in ContentOf(s.wq, s.slowq, s.loops) ==>
      Req(s.loops[l].gap.value) !in ContentOf(s.wq, s.slowq, s.loops)[q]
  {
    hide CountInv, WakeInv, HeldInv, HomeInv, ProgressInv, CarryInv, DoneInv, ContentOf, TokenInv, QueueInv, LoopInv;
    var w := s.loops[l].gap.value;
    PlacedAtLoop(s.loops, l, w, pl);
    forall q | q in ContentOf(s.wq, s.slowq, s.loops)
      ensures Req(w) !in ContentOf(s.wq, s.slowq, s.loops)[q]
    {
      ContentPlaces(s, pl, q, w);
    }
  }

  lemma {:induction false} UnlinkReqs(ws: seq<Wid>, w: Wid)
    requires NoDup(ws)
    ensures Reqs(Unlink(ws, w)) == Unlink(Reqs(ws), Req(w)) && NoDup(Reqs(ws))
  {
    ReqsNoDup(ws);
    if ws != [] {
      NoDupRest(ws);
      UnlinkReqs(ws[1..], w);
      assert Reqs(ws)[1..] == Reqs(ws[1..]);
      assert ws[0] != w ==> Reqs([ws[0]] + Unlink(ws[1..], w)) == [Req(ws[0])] + Reqs(Unlink(ws[1..], w));
    }
  }

  /** Withdrawing a request unlinks it from every queue that could hold it. */
  lemma WithdrawnContent(s: State, l: LoopId, w: Wid, pl: Placing, p: Id)
    requires TokenInv(s.wq, s.slowq, s.tokenLinked, s.exitPosted) && LoopInv(s.loops, pl)
    requires l in s.loops && p in Ids(s.loops) && (p.ResultQ? || p.LocalQ? ==> p.l == l)
    ensures ContentAt(Unlink(s.wq, Req(w)), Unlink(s.slowq, w), s.loops[l := Withdrawn(s.loops[l], w)], p)
         == Unlink(ContentAt(s.wq, s.slowq, s.loops, p), Req(w))
  {
    assert LoopOk(s.loops[l], l, pl);
    UnlinkReqs(s.slowq, w);
    UnlinkReqs(s.loops[l].wq, w);
    UnlinkReqs(s.loops[l].local, w);
  }

  /** What that makes of each queue, for a request at place k of queue q. */
  lemma WithdrawnAt(s: State, l: LoopId, w: Wid, pl: Placing, q: Id, k: nat, p: Id)
    requires TokenInv(s.wq, s.slowq, s.tokenLinked, s.exitPosted)
    requires QueueInv(s.wq, s.slowq, pl) && LoopInv(s.loops, pl)
    requires l in s.loops && p in Ids(s.loops) && q in Ids(s.loops) && Placed(pl, w, PlaceOf(q))
    requires q.ResultQ? || q.LocalQ? ==> q.l == l
    requires var c := ContentAt(s.wq, s.slowq, s.loops, q); k < |c| && c[k] == Req(w)
    ensures ContentAt(Unlink(s.wq, Req(w)), Unlink(s.slowq, w), s.loops[l := Withdrawn(s.loops[l], w)], p)
      == if p == q then Without(ContentAt(s.wq, s.slowq, s.loops, p), k) else ContentAt(s.wq, s.slowq, s.loops, p)
  {
    hide TokenInv, QueueInv, LoopInv, Withdrawn, NoDup;
    var c := ContentAt(s.wq, s.slowq, s.loops, p);
    ContentPlaces(s, pl, p, w);
    if !((p.ResultQ? || p.LocalQ?) && p.l != l) {
      WithdrawnContent(s, l, w, pl, p);
      UnlinkEffect(c, Req(w));
      if p == q {
        UnlinkIsWithout(c, k);
      }
    }
  }

  /** A request that can be cancelled is in one queue. */
  lemma WhereQueued(s: State, l: LoopId, w: Wid, pl: Placing) returns (q: Id, k: nat)
    requires Enabled(s, CancelBegin(l, w)) && Cancellable(s.reqs[w]) && Inv(s, pl)
    ensures QueuedAt(s, l, w, q, k)
  {
    hide CountInv, WakeInv, HeldInv, CarryInv, DoneInv, TokenInv, QueueInv, LoopInv, HomeInv, ProgressInv;
    hide Withdrawn, ContentAt, ContentOf, Ids, Unlink, Cancellable;
    q := QueueOf(s, l, w, pl);
    k := PlaceAt(s, l, w, pl, q);
  }

  lemma PlaceAt(s: State, l: LoopId, w: Wid, pl: Placing, q: Id) returns (k: nat)
    requires TokenInv(s.wq, s.slowq, s.tokenLinked, s.exitPosted)
    requires QueueInv(s.wq, s.slowq, pl) && LoopInv(s.loops, pl) && l in s.loops
    requires q in Ids(s.loops) && Placed(pl, w, PlaceOf(q)) && (q.ResultQ? || q.LocalQ? ==> q.l == l)
    ensures QueuedAt(s, l, w, q, k)
  {
    hide TokenInv, QueueInv, LoopInv, Withdrawn, ContentAt, ContentOf, Ids, Unlink;
    var c := ContentOf(s.wq, s.slowq, s.loops);
    ContentIs(s.wq, s.slowq, s.loops);
    ContentPlaces(s, pl, q, w);
    k :| 0 <= k < |c[q]| && c[q][k] == Req(w);
    var loops1 := s.loops[l := Withdrawn(s.loops[l], w)];
    var c1 := ContentOf(Unlink(s.wq, Req(w)), Unlink(s.slowq, w), loops1);
    IdsOf(s.loops, l, Withdrawn(s.loops[l], w));
    ContentIs(Unlink(s.wq, Req(w)), Unlink(s.slowq, w), loops1);
    forall p | p in c ensures c1[p] == if p == q then Without(c[p], k) else c[p] {
      WithdrawnAt(s, l, w, pl, q, k, p);
    }
    assert c1.Keys == c.Keys;
    assert c1 == c[q := Without(c[q], k)];
  }

  lemma QueueOf(s: State, l: LoopId, w: Wid, pl: Placing) returns (q: Id)
    requires Enabled(s, CancelBegin(l, w)) && Cancellable(s.reqs[w]) && Inv(s, pl)
    ensures q in Ids(s.loops) && Placed(pl, w, PlaceOf(q)) && (q.ResultQ? || q.LocalQ? ==> q.l == l)
  {
    hide TokenInv, CountInv, WakeInv, QueueInv, HeldInv, LoopInv, HomeInv, ProgressInv, CarryInv, DoneInv;
    KeysAlike(s, pl, w);
    NotStarted(s, w, pl);
    CancelProgress(s, l, w, pl);
    HomeOf(s.reqs, s.loops, pl, w);
    GapPlaced(s.loops, l, w, pl);
    match pl[w]
    case InQueue => q := WorkQ;
    case InSlow => q := SlowQ;
    case InLoop(m) => q := ResultQ(m);
    case InLocal(m) => q := LocalQ(m);
    case _ => q := WorkQ;
  }

  lemma HomeOf(reqs: map<Wid, Request>, loops: map<LoopId, Loop>, pl: Placing, w: Wid)
    requires HomeInv(reqs, loops, pl) && w in reqs
    ensures w in pl && (AtLoop(pl[w]) ==> pl[w].l == reqs[w].loop)
  {
  }

  lemma GapPlaced(loops: map<LoopId, Loop>, l: LoopId, w: Wid, pl: Placing)
    requires LoopInv(loops, pl) && l in loops
    ensures Placed(pl, w, InGap(l)) <==> loops[l].gap == Some(w)
  {
    assert LoopOk(loops[l], l, pl);
  }

  /** The closed form when the queue is empty or begins with something else than the token. */
  lemma ChooseFirst(q: Shared, threshold: nat)
    requires NoDup(q.wq)
    ensures q.wq == [] || (q.wq[0] == Token && |q.wq| == 1 && q.running >= threshold) ==>
      Choose(q, threshold) == Picked(Sleep, q, false)
    ensures q.wq != [] && q.wq[0] == Exit ==> Choose(q, threshold) == Picked(Leave, q, true)
    ensures q.wq != [] && q.wq[0].Req? ==>
      Choose(q, threshold) == Picked(Take(q.wq[0].w, false), q.(wq := q.wq[1..]), false)
  {
  }

  /** The closed form when it begins with the token. */
  lemma ChooseToken(q: Shared, threshold: nat)
    requires NoDup(q.wq) && q.wq != [] && q.wq[0] == Token && q.tokenLinked
    ensures q.running >= threshold && |q.wq| > 1 ==>
      var r := q.(wq := q.wq[1..] + [Token]);
      NoDup(r.wq) && r.wq[0] != Token && Choose(q, threshold) == Choose(r, threshold)
    ensures q.running < threshold && q.slowq == [] ==>
      var r := q.(wq := q.wq[1..], tokenLinked := false);
      NoDup(r.wq) && Choose(q, threshold) == Choose(r, threshold)
    ensures q.running < threshold && q.slowq != [] ==>
      var more := |q.slowq| > 1;
      Choose(q, threshold) == Picked(Take(q.slowq[0], true),
        Shared(if more then q.wq[1..] + [Token] else q.wq[1..], q.slowq[1..], more, q.running + 1), more)
  {
    NoDupRest(q.wq);
    NoDupAppend(q.wq[1..], Token);
    if |q.wq| > 1 {
      assert q.wq[1] in q.wq[1..] && (q.wq[1..] + [Token])[0] == q.wq[1];
    }
  }

  lemma SecondLink(c: seq<Node>)
    requires IsRing(c) && |c| > 1
    ensures c[1].left == c[0] <==> |c| == 2
  {
    assert Joined(c[1], if |c| == 2 then c[0] else c[2]);
  }
}
