/**
 First come, first served: requests are taken in the order of the queue they wait in, and
 results are delivered in the order in which they were queued at their loop.
 */
module ThreadPoolOrder {
  import opened Sequences
  import opened ThreadPool
  import opened ThreadPoolProofs

  // ----- places in a queue

  ghost predicate Before<T>(q: seq<T>, a: T, b: T) {
    exists i, j :: 0 <= i < j < |q| && q[i] == a && q[j] == b
  }

  lemma BeforeMore<T>(q: seq<T>, x: T, a: T, b: T)
    requires Before(q, a, b)
    ensures Before(q + [x], a, b)
  {
    var i, j :| 0 <= i < j < |q| && q[i] == a && q[j] == b;
    assert (q + [x])[i] == a && (q + [x])[j] == b;
  }

  lemma BeforeRest<T>(q: seq<T>, a: T, b: T)
    requires NoDup(q) && Before(q, a, b)
    ensures q != [] && q[0] != b && (q[0] == a || Before(q[1..], a, b))
  {
    var i, j :| 0 <= i < j < |q| && q[i] == a && q[j] == b;
    assert q[1..][j - 1] == b;
    if i > 0 {
      assert q[1..][i - 1] == a;
    }
  }

  lemma BeforeAll<T>(x: T, q: seq<T>, a: T, b: T)
    requires Before(q, a, b)
    ensures Before([x] + q, a, b)
  {
    var i, j :| 0 <= i < j < |q| && q[i] == a && q[j] == b;
    assert ([x] + q)[i + 1] == a && ([x] + q)[j + 1] == b;
  }

  lemma FirstBefore<T>(q: seq<T>, b: T)
    requires q != [] && b in q[1..]
    ensures Before(q, q[0], b)
  {
    var j :| 0 <= j < |q[1..]| && q[1..][j] == b;
    assert q[0] == q[0] && q[j + 1] == b;
  }

  lemma {:induction false} BeforeUnlink<T>(q: seq<T>, x: T, a: T, b: T)
    requires NoDup(q) && Before(q, a, b) && x != a && x != b
    ensures Before(Unlink(q, x), a, b)
  {
    BeforeRest(q, a, b);
    if q[0] == a {
      var i, j :| 0 <= i < j < |q| && q[i] == a && q[j] == b;
      assert q[1..][j - 1] == b;
      UnlinkEffect(q[1..], x);
      assert Unlink(q, x)[1..] == Unlink(q[1..], x);
      FirstBefore(Unlink(q, x), b);
    } else if q[0] != x {
      BeforeUnlink(q[1..], x, a, b);
      BeforeAll(q[0], Unlink(q[1..], x), a, b);
    }
  }

  // ----- the worker's section

  /** The order of a and b in the shared queue after the section. */
  lemma ChooseKeepsOrder(q: Shared, threshold: nat, exitPosted: bool, a: Wid, b: Wid)
    requires TokenInv(q.wq, q.slowq, q.tokenLinked, exitPosted)
    ensures var p := Choose(q, threshold);
      && (Before(q.wq, Req(a), Req(b)) && Req(a) in p.shared.wq ==> Before(p.shared.wq, Req(a), Req(b)))
      && (Before(q.slowq, a, b) && a in p.shared.slowq ==> Before(p.shared.slowq, a, b))
  {
    hide Before;
    if Before(q.wq, Req(a), Req(b)) {
      BeforeRest(q.wq, Req(a), Req(b));
      NoDupRest(q.wq);
      if q.wq[0] == Token {
        TokenOrder(q.wq[1..], Req(a), Req(b));
      }
    }
    if Before(q.slowq, a, b) {
      BeforeRest(q.slowq, a, b);
      NoDupRest(q.slowq);
    }
  }

  /** The order behind the token, once it has been taken out, or queued again, and once the
      first of the rest has been taken too. */
  lemma TokenOrder(rest: seq<QNode>, a: QNode, b: QNode)
    requires NoDup(rest) && Token !in rest && Before(rest, a, b)
    ensures rest != [] && (a !in rest[1..] || Before(rest[1..], a, b))
    ensures Before(rest + [Token], a, b) && (rest + [Token])[0] == rest[0]
    ensures a in (rest + [Token])[1..] ==> Before((rest + [Token])[1..], a, b)
  {
    hide Before;
    var r := rest + [Token];
    BeforeRest(rest, a, b);
    NoDupRest(rest);
    BeforeMore(rest, Token, a, b);
    NoDupAppend(rest, Token);
    BeforeRest(r, a, b);
    NoDupRest(r);
  }

  /** A section takes the first request of the queue it takes from. It signals exactly when
      it leaves or when slow work is left, and then the token is queued again. */
  lemma TakesFirst(q: Shared, threshold: nat, exitPosted: bool)
    requires TokenInv(q.wq, q.slowq, q.tokenLinked, exitPosted)
    ensures var p := Choose(q, threshold);
      && (p.pick.Take? && !p.pick.slow ==> forall b :: Req(b) in p.shared.wq ==> Before(q.wq, Req(p.pick.w), Req(b)))
      && (p.pick.Take? && p.pick.slow ==> forall b :: b in p.shared.slowq ==> Before(q.slowq, p.pick.w, b))
      && (p.pick.Take? && p.pick.slow ==> (p.shared.tokenLinked <==> p.shared.slowq != []))
      && (p.signal <==> p.pick.Leave? || (p.pick.Take? && p.pick.slow && p.shared.slowq != []))
  {
    hide Choose, Before;
    SectionSignals(q, threshold);
    var p := Choose(q, threshold);
    if p.pick.Take? && p.pick.slow {
      SlowHead(q, threshold);
      forall b | b in p.shared.slowq ensures Before(q.slowq, p.pick.w, b) {
        FirstBefore(q.slowq, b);
      }
    }
    if p.pick.Take? && !p.pick.slow {
      QueueHead(q, threshold);
      var k := if q.wq[0] == Token then 1 else 0;
      forall b | Req(b) in p.shared.wq ensures Before(q.wq, Req(p.pick.w), Req(b)) {
        var j :| k < j < |q.wq| && q.wq[j] == Req(b);
        BeforeAt(q.wq, k, j);
      }
    }
  }

  lemma BeforeAt<T>(q: seq<T>, i: nat, j: nat)
    requires i < j < |q|
    ensures Before(q, q[i], q[j])
  {
  }

  lemma SectionSignals(q: Shared, threshold: nat)
    requires NoDup(q.wq)
    ensures var p := Choose(q, threshold);
      && (p.pick.Take? && p.pick.slow ==> (p.shared.tokenLinked <==> p.shared.slowq != []))
      && (p.signal <==> p.pick.Leave? || (p.pick.Take? && p.pick.slow && p.shared.slowq != []))
  {
    if |q.wq| > 1 {
      assert q.wq[1] in q.wq[1..];
    }
  }

  lemma SlowHead(q: Shared, threshold: nat)
    requires NoDup(q.wq) && Choose(q, threshold).pick.Take? && Choose(q, threshold).pick.slow
    ensures q.slowq != [] && q.slowq[0] == Choose(q, threshold).pick.w
    ensures Choose(q, threshold).shared.slowq == q.slowq[1..]
  {
    if |q.wq| > 1 {
      assert q.wq[1] in q.wq[1..];
    }
  }

  /** The request taken is at the head, or behind the token; the others are behind it. */
  lemma QueueHead(q: Shared, threshold: nat)
    requires NoDup(q.wq) && Choose(q, threshold).pick.Take? && !Choose(q, threshold).pick.slow
    ensures q.wq != []
    ensures var p, k := Choose(q, threshold), if q.wq[0] == Token then 1 else 0;
      && |q.wq| > k && q.wq[k] == Req(p.pick.w)
      && forall b :: Req(b) in p.shared.wq ==> exists j :: k < j < |q.wq| && q.wq[j] == Req(b)
  {
    var p := Choose(q, threshold);
    if |q.wq| > 1 {
      assert q.wq[1] in q.wq[1..];
    }
    var k := if q.wq[0] == Token then 1 else 0;
    assert p.shared.wq == q.wq[k + 1..] || p.shared.wq == q.wq[k + 1..] + [Token];
    forall b | Req(b) in p.shared.wq ensures exists j :: k < j < |q.wq| && q.wq[j] == Req(b) {
      assert Req(b) in q.wq[k + 1..];
      var i :| 0 <= i < |q.wq[k + 1..]| && q.wq[k + 1..][i] == Req(b);
      assert q.wq[k + 1 + i] == Req(b);
    }
  }

  /** Whom a section wakes: sleepers that the signal reaches, if the worker leaves, or if slow
      work is left and some worker is idle. Nothing else happens to the other workers. */
  lemma SectionWakes(s: State, t: Tid, wake: set<Tid>, u: Tid)
    requires TokenInv(s.wq, s.slowq, s.tokenLinked, s.exitPosted)
    requires t < |s.workers| && u < |s.workers| && u != t && CanLock(s.workers[t])
    ensures var r := RunSection(s, t, wake);
      var idle := if s.workers[t].Woken? then s.idle - 1 else s.idle;
      var more := r.workers[t].Holding? && r.workers[t].slow && r.slowq != [];
      r.workers[u] ==
        if s.workers[u].Asleep? && u in wake && (r.workers[t].Exited? || (more && idle > 0)) then Woken
        else s.workers[u]
  {
    hide Choose;
    SectionSignals(SharedOnLock(s, t), Threshold(|s.workers|));
  }

  /** Whom post() wakes: sleepers that the signal reaches, if some worker is idle; nobody for
      slow work whose token is queued already. */
  lemma SubmitWakes(s: State, l: LoopId, w: Wid, kind: Kind, wake: set<Tid>, u: Tid)
    requires Enabled(s, Submit(l, w, kind, wake)) && u < |s.workers|
    ensures Apply(s, Submit(l, w, kind, wake)).workers[u] ==
      if s.workers[u].Asleep? && u in wake && s.idle > 0 && !(kind.SlowIo? && s.tokenLinked) then Woken
      else s.workers[u]
  {
  }

  // ----- waiting for a worker

  /** As long as a waits, b is behind it in the same queue; unless it has been cancelled. */
  ghost predicate BehindInQueue(s: State, a: Wid, b: Wid) {
    Req(a) in s.wq ==> Before(s.wq, Req(a), Req(b)) || b in s.cancelled
  }

  ghost predicate BehindInSlow(s: State, a: Wid, b: Wid) {
    a in s.slowq ==> Before(s.slowq, a, b) || b in s.cancelled
  }

  lemma QueueStep(s: State, act: Action, pl: Placing, a: Wid, b: Wid)
    requires Inv(s, pl) && Enabled(s, act) && a in s.reqs
    ensures a in Apply(s, act).reqs
    ensures BehindInQueue(s, a, b) ==> BehindInQueue(Apply(s, act), a, b)
    ensures BehindInSlow(s, a, b) ==> BehindInSlow(Apply(s, act), a, b)
  {
    hide CountInv, WakeInv, QueueInv, HeldInv, LoopInv, HomeInv, ProgressInv, CarryInv, DoneInv, Before, RunSection;
    match act
    case Submit(l, w, kind, wake) => SubmitOrder(s, act, a, b);
    case Section(t, wake) => SectionOrder(s, t, wake, a, b);
    case CancelBegin(l, w) => CancelOrder(s, l, w, a, b);
    case Shutdown(wake) => ShutdownOrder(s, wake, a, b);
    case _ =>
  }

  lemma SubmitOrder(s: State, act: Action, a: Wid, b: Wid)
    requires act.Submit? && Enabled(s, act) && a in s.reqs
    ensures a in Apply(s, act).reqs
    ensures BehindInQueue(s, a, b) ==> BehindInQueue(Apply(s, act), a, b)
    ensures BehindInSlow(s, a, b) ==> BehindInSlow(Apply(s, act), a, b)
  {
    hide Before, Signal;
    if Before(s.wq, Req(a), Req(b)) {
      BeforeMore(s.wq, Token, Req(a), Req(b));
      BeforeMore(s.wq, Req(act.w), Req(a), Req(b));
    }
    if Before(s.slowq, a, b) {
      BeforeMore(s.slowq, act.w, a, b);
    }
  }

  lemma SectionOrder(s: State, t: Tid, wake: set<Tid>, a: Wid, b: Wid)
    requires TokenInv(s.wq, s.slowq, s.tokenLinked, s.exitPosted) && Enabled(s, Section(t, wake)) && a in s.reqs
    ensures a in Apply(s, Section(t, wake)).reqs
    ensures BehindInQueue(s, a, b) ==> BehindInQueue(Apply(s, Section(t, wake)), a, b)
    ensures BehindInSlow(s, a, b) ==> BehindInSlow(Apply(s, Section(t, wake)), a, b)
  {
    hide Before, Choose, Signal, TokenInv;
    ChooseKeepsOrder(SharedOnLock(s, t), Threshold(|s.workers|), s.exitPosted, a, b);
    ChooseEffect(SharedOnLock(s, t), Threshold(|s.workers|), s.exitPosted);
  }

  lemma CancelOrder(s: State, l: LoopId, w: Wid, a: Wid, b: Wid)
    requires TokenInv(s.wq, s.slowq, s.tokenLinked, s.exitPosted) && Enabled(s, CancelBegin(l, w)) && a in s.reqs
    ensures a in Apply(s, CancelBegin(l, w)).reqs
    ensures BehindInQueue(s, a, b) ==> BehindInQueue(Apply(s, CancelBegin(l, w)), a, b)
    ensures BehindInSlow(s, a, b) ==> BehindInSlow(Apply(s, CancelBegin(l, w)), a, b)
  {
    hide Before, Unlink, NoDup;
    UnlinkEffect(s.wq, Req(w));
    UnlinkEffect(s.slowq, w);
    if w != a && w != b && Before(s.wq, Req(a), Req(b)) {
      BeforeUnlink(s.wq, Req(w), Req(a), Req(b));
    }
    if w != a && w != b && Before(s.slowq, a, b) {
      BeforeUnlink(s.slowq, w, a, b);
    }
  }

  lemma ShutdownOrder(s: State, wake: set<Tid>, a: Wid, b: Wid)
    requires Enabled(s, Shutdown(wake))
    ensures BehindInQueue(s, a, b) ==> BehindInQueue(Apply(s, Shutdown(wake)), a, b)
    ensures BehindInSlow(s, a, b) ==> BehindInSlow(Apply(s, Shutdown(wake)), a, b)
  {
    hide Before, Signal;
    if Before(s.wq, Req(a), Req(b)) {
      BeforeMore(s.wq, Exit, Req(a), Req(b));
    }
  }

  lemma {:induction false} QueueRun(s: State, run: seq<Action>, pl: Placing, a: Wid, b: Wid)
    requires Inv(s, pl) && IsRun(s, run) && a in s.reqs
    ensures BehindInQueue(s, a, b) ==> BehindInQueue(After(s, run), a, b)
    ensures BehindInSlow(s, a, b) ==> BehindInSlow(After(s, run), a, b)
    decreases |run|
  {
    hide Inv, Apply, Moved, Enabled, BehindInQueue, BehindInSlow;
    if run != [] {
      QueueStep(s, run[0], pl, a, b);
      StepKeeps(s, run[0], pl);
      QueueRun(Apply(s, run[0]), run[1..], Moved(s, run[0], pl), a, b);
    }
  }

  /** No request overtakes another: b, behind a in a queue, is not taken while a still waits
      there. It may only have been cancelled. */
  lemma FirstComeFirstServed(s: State, run: seq<Action>, pl: Placing, a: Wid, b: Wid)
    requires Inv(s, pl) && IsRun(s, run)
    ensures var r := After(s, run);
      && (Before(s.wq, Req(a), Req(b)) && Req(a) in r.wq ==> b in r.cancelled || Before(r.wq, Req(a), Req(b)))
      && (Before(s.slowq, a, b) && a in r.slowq ==> b in r.cancelled || Before(r.slowq, a, b))
  {
    hide CountInv, WakeInv, HeldInv, LoopInv, ProgressInv, CarryInv, DoneInv, After, IsRun;
    if Before(s.wq, Req(a), Req(b)) {
      BeforeMembers(s.wq, Req(a), Req(b));
      KeysAlike(s, pl, a);
      QueueRun(s, run, pl, a, b);
    }
    if Before(s.slowq, a, b) {
      BeforeMembers(s.slowq, a, b);
      KeysAlike(s, pl, a);
      QueueRun(s, run, pl, a, b);
    }
  }

  lemma BeforeMembers<T>(q: seq<T>, a: T, b: T)
    requires Before(q, a, b)
    ensures a in q && b in q
  {
  }

  /** A request is queued behind all that wait. */
  lemma SubmittedLast(s: State, l: LoopId, w: Wid, kind: Kind, wake: set<Tid>, a: Wid)
    requires Enabled(s, Submit(l, w, kind, wake))
    ensures var r := Apply(s, Submit(l, w, kind, wake));
      && (kind.SlowIo? && a in s.slowq ==> Before(r.slowq, a, w))
      && (!kind.SlowIo? && Req(a) in s.wq ==> Before(r.wq, Req(a), Req(w)))
  {
    hide Signal;
    if kind.SlowIo? && a in s.slowq {
      LastBefore(s.slowq, a, w);
    }
    if !kind.SlowIo? && Req(a) in s.wq {
      LastBefore(s.wq, Req(a), Req(w));
    }
  }

  lemma LastBefore<T>(q: seq<T>, a: T, x: T)
    requires a in q
    ensures Before(q + [x], a, x)
  {
    var i :| 0 <= i < |q| && q[i] == a;
    assert (q + [x])[i] == a && (q + [x])[|q|] == x;
  }

  // ----- waiting for delivery

  /** The results at a loop, in the order in which they will be delivered. */
  function Line(lp: Loop): seq<Wid> { lp.local + lp.wq }

  /** At loop l, a has been delivered, or stands before b. */
  ghost predicate Ahead(s: State, l: LoopId, a: Wid, b: Wid) {
    l in s.loops && (Started(s, a) || Before(Line(s.loops[l]), a, b))
  }

  /** Nobody stands twice in a line. */
  lemma LineDistinct(loops: map<LoopId, Loop>, l: LoopId, pl: Placing)
    requires LoopInv(loops, pl) && l in loops
    ensures NoDup(Line(loops[l])) && NoDup(loops[l].local) && NoDup(loops[l].wq)
  {
    assert LoopOk(loops[l], l, pl);
    Concat(loops[l].local, loops[l].wq);
  }

  lemma {:induction false} Concat<T>(p: seq<T>, q: seq<T>)
    requires NoDup(p) && NoDup(q) && forall x :: x in p ==> x !in q
    ensures NoDup(p + q)
  {
    if p == [] {
      assert p + q == q;
    } else {
      assert p == [p[0]] + p[1..] && (p + q)[1..] == p[1..] + q;
      assert forall x :: x in p[1..] ==> x in p;
      Concat(p[1..], q);
    }
  }

  lemma BeforePrefix<T>(q: seq<T>, r: seq<T>, a: T, b: T)
    requires Before(q, a, b) && q <= r
    ensures Before(r, a, b)
  {
    var i, j :| 0 <= i < j < |q| && q[i] == a && q[j] == b;
    assert r[i] == a && r[j] == b;
  }

  lemma {:induction false} UnlinkBoth<T>(p: seq<T>, q: seq<T>, x: T)
    ensures Unlink(p + q, x) == if x in p then Unlink(p, x) + q else p + Unlink(q, x)
  {
    hide Unlink;
    if p == [] {
      assert p + q == q && p + Unlink(q, x) == Unlink(q, x);
    } else {
      var more := p[1..];
      assert p == [p[0]] + more && (p + q)[1..] == more + q && (p + q)[0] == p[0];
      UnlinkFirst(p, x);
      UnlinkFirst(p + q, x);
      UnlinkBoth(more, q, x);
      if p[0] != x {
        Rebracket(p[0], more, Unlink(more, x), q, Unlink(q, x));
      }
    }
  }

  lemma UnlinkFirst<T>(q: seq<T>, x: T)
    requires q != []
    ensures Unlink(q, x) == if q[0] == x then q[1..] else [q[0]] + Unlink(q[1..], x)
    ensures x in q <==> x == q[0] || x in q[1..]
  {
  }

  lemma Rebracket<T>(h: T, a: seq<T>, b: seq<T>, q: seq<T>, r: seq<T>)
    ensures [h] + (b + q) == [h] + b + q && [h] + (a + r) == [h] + a + r
  {
  }

  /** What withdrawing w does to the line. */
  lemma WithdrawnLine(lp: Loop, w: Wid)
    requires NoDup(Line(lp)) && NoDup(lp.local) && NoDup(lp.wq)
    ensures Line(Withdrawn(lp, w)) == Unlink(Line(lp), w)
  {
    UnlinkBoth(lp.local, lp.wq, w);
    UnlinkEffect(lp.local, w);
    UnlinkEffect(lp.wq, w);
    if w in lp.local {
      InOnlyOne(lp.local, lp.wq, w);
    }
  }

  lemma {:induction false} InOnlyOne<T>(p: seq<T>, q: seq<T>, x: T)
    requires NoDup(p + q) && x in p
    ensures x !in q
  {
    assert (p + q)[1..] == p[1..] + q;
    if p[0] == x {
      assert x !in p[1..] + q;
    } else {
      assert p == [p[0]] + p[1..];
      InOnlyOne(p[1..], q, x);
    }
  }

  lemma AheadStep(s: State, act: Action, l: LoopId, pl: Placing, a: Wid, b: Wid)
    requires Inv(s, pl) && Enabled(s, act) && Ahead(s, l, a, b)
    requires !Withdraws(s, act, l, a) && !Withdraws(s, act, l, b)
    ensures Ahead(Apply(s, act), l, a, b)
  {
    hide TokenInv, CountInv, WakeInv, QueueInv, HeldInv, LoopInv, HomeInv, ProgressInv, CarryInv, DoneInv;
    hide Apply, Enabled, Before, Withdraws, Started;
    LogsGrowByStep(s, act);
    StartedStays(s, Apply(s, act));
    LineDistinct(s.loops, l, pl);
    if act == Drain(l) {
      DrainLine(s, l);
    } else if act == Done(l) {
      DoneLine(s, l, a, b);
    } else {
      OtherLine(s, act, l, a, b);
    }
  }

  lemma DrainLine(s: State, l: LoopId)
    requires Enabled(s, Drain(l))
    ensures l in s.loops && l in Apply(s, Drain(l)).loops && Line(Apply(s, Drain(l)).loops[l]) == Line(s.loops[l])
  {
  }

  lemma DoneLine(s: State, l: LoopId, a: Wid, b: Wid)
    requires Enabled(s, Done(l)) && NoDup(Line(s.loops[l]))
    ensures l in Apply(s, Done(l)).loops
    ensures Before(Line(s.loops[l]), a, b) ==>
      Started(Apply(s, Done(l)), a) || Before(Line(Apply(s, Done(l)).loops[l]), a, b)
  {
    hide Before;
    var lp := s.loops[l];
    assert Line(lp)[0] == lp.local[0] && Line(lp)[1..] == lp.local[1..] + lp.wq;
    SubjectsOf(s.done, Verdict(lp.local[0], s.reqs[lp.local[0]].work.Cancelled?));
    if Before(Line(lp), a, b) {
      BeforeRest(Line(lp), a, b);
    }
  }

  lemma OtherLine(s: State, act: Action, l: LoopId, a: Wid, b: Wid)
    requires Enabled(s, act) && l in s.loops && act != Drain(l) && act != Done(l)
    requires NoDup(Line(s.loops[l])) && NoDup(s.loops[l].local) && NoDup(s.loops[l].wq)
    requires !Withdraws(s, act, l, a) && !Withdraws(s, act, l, b)
    ensures l in Apply(s, act).loops
    ensures Before(Line(s.loops[l]), a, b) ==> Before(Line(Apply(s, act).loops[l]), a, b)
  {
    hide Apply, Before, Enabled, NoDup;
    LoopAfter(s, act, l);
    var lp, lp1 := s.loops[l], Apply(s, act).loops[l];
    if Before(Line(lp), a, b) {
      if lp1.local == lp.local && lp.wq <= lp1.wq {
        BeforePrefix(Line(lp), Line(lp1), a, b);
      } else {
        WithdrawnLine(lp, act.w);
        BeforeUnlink(Line(lp), act.w, a, b);
      }
    }
  }

  lemma {:induction false} AheadRun(s: State, run: seq<Action>, l: LoopId, pl: Placing, a: Wid, b: Wid)
    requires Inv(s, pl) && IsRun(s, run) && Ahead(s, l, a, b) && !Withdrew(s, run, l, a) && !Withdrew(s, run, l, b)
    ensures Ahead(After(s, run), l, a, b)
    decreases |run|
  {
    hide Inv, Apply, Moved, Enabled, Ahead, Withdraws;
    if run != [] {
      AheadStep(s, run[0], l, pl, a, b);
      StepKeeps(s, run[0], pl);
      AheadRun(Apply(s, run[0]), run[1..], l, Moved(s, run[0], pl), a, b);
    }
  }

  /** Results are delivered in the order in which they were queued, unless one of the two is
      taken back: once b has been delivered, so has a, which stood before it. */
  lemma DeliveredInOrder(s: State, run: seq<Action>, l: LoopId, pl: Placing, a: Wid, b: Wid)
    requires Inv(s, pl) && IsRun(s, run) && l in s.loops && Before(s.loops[l].local + s.loops[l].wq, a, b)
    requires !Withdrew(s, run, l, a) && !Withdrew(s, run, l, b)
    ensures Started(After(s, run), b) ==> Started(After(s, run), a)
  {
    hide Inv, After, IsRun, Withdrew, Before, Started, Apply;
    AheadRun(s, run, l, pl, a, b);
    var pl1 := RunKeeps(s, run, pl);
    var r := After(s, run);
    if Before(Line(r.loops[l]), a, b) {
      BeforeMembers(Line(r.loops[l]), a, b);
      InLineNotStarted(r, l, pl1, b);
    }
  }

  lemma InLineNotStarted(s: State, l: LoopId, pl: Placing, b: Wid)
    requires Inv(s, pl) && l in s.loops && b in Line(s.loops[l])
    ensures !Started(s, b)
  {
    hide TokenInv, CountInv, WakeInv, QueueInv, HeldInv, HomeInv, ProgressInv, CarryInv;
    assert LoopOk(s.loops[l], l, pl);
  }
}
