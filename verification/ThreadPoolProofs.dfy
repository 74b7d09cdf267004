/**
 Safety of the worker pool over every interleaving.

 The inductive invariant speaks about a map from requests to places. The map is
 not part of the pool's state: `Placement` computes it from the run, and the
 theorems at the end of the file mention only the pool's own queues and logs.
 */
module ThreadPoolProofs {
  import opened Common
  import opened Sequences
  import opened ThreadPool

  datatype Place =
    | InQueue
    | InSlow
    | Held(t: Tid)
    | InGap(l: LoopId)
    | InLoop(l: LoopId)
    | InLocal(l: LoopId)
    | Gone

  predicate Carries(wk: Worker, w: Wid) {
    (wk.Holding? || wk.Ran?) && wk.w == w
  }

  /** The containers of the pool that can hold a request. */
  ghost predicate IsAt(s: State, w: Wid, p: Place) {
    match p
    case InQueue => Req(w) in s.wq
    case InSlow => w in s.slowq
    case Held(t) => t < |s.workers| && Carries(s.workers[t], w)
    case InGap(l) => l in s.loops && s.loops[l].gap == Some(w)
    case InLoop(l) => l in s.loops && w in s.loops[l].wq
    case InLocal(l) => l in s.loops && w in s.loops[l].local
    case Gone => Started(s, w)
  }

  // ----- counting workers

  predicate IsIdle(wk: Worker) { wk.Asleep? || wk.Woken? }

  predicate IsSlow(wk: Worker) { (wk.Locking? || wk.Holding? || wk.Ran?) && wk.slow }

  function Count(ws: seq<Worker>, f: Worker -> bool): nat {
    if ws == [] then 0 else (if f(ws[0]) then 1 else 0) + Count(ws[1..], f)
  }

  function CountIdle(ws: seq<Worker>): nat { Count(ws, IsIdle) }

  function CountSlow(ws: seq<Worker>): nat { Count(ws, IsSlow) }

  lemma {:induction false} CountUpdate(ws: seq<Worker>, t: Tid, wk: Worker, f: Worker -> bool)
    requires t < |ws|
    ensures Count(ws[t := wk], f) + (if f(ws[t]) then 1 else 0) == Count(ws, f) + (if f(wk) then 1 else 0)
  {
    if t == 0 {
      assert ws[t := wk][1..] == ws[1..];
    } else {
      assert ws[t := wk][1..] == ws[1..][t - 1 := wk];
      CountUpdate(ws[1..], t - 1, wk, f);
    }
  }

  lemma {:induction false} CountMore(ws: seq<Worker>, vs: seq<Worker>, f: Worker -> bool)
    requires |ws| == |vs| && forall t :: 0 <= t < |ws| ==> f(ws[t]) ==> f(vs[t])
    ensures Count(ws, f) <= Count(vs, f)
    ensures forall t :: 0 <= t < |ws| && f(vs[t]) && !f(ws[t]) ==> Count(ws, f) < Count(vs, f)
  {
    if ws != [] {
      assert forall t :: 0 <= t < |ws| - 1 ==> ws[1..][t] == ws[t + 1] && vs[1..][t] == vs[t + 1];
      CountMore(ws[1..], vs[1..], f);
      forall t | 0 <= t < |ws| && f(vs[t]) && !f(ws[t]) ensures Count(ws, f) < Count(vs, f) {
        if t > 0 {
          assert f(vs[1..][t - 1]) && !f(ws[1..][t - 1]);
        }
      }
    }
  }

  lemma CountSame(ws: seq<Worker>, vs: seq<Worker>, f: Worker -> bool)
    requires |ws| == |vs| && forall t :: 0 <= t < |ws| ==> f(ws[t]) == f(vs[t])
    ensures Count(ws, f) == Count(vs, f)
  {
    CountMore(ws, vs, f);
    CountMore(vs, ws, f);
  }

  lemma SignalKeepsCounts(ws: seq<Worker>, wake: set<Tid>)
    ensures CountIdle(Signal(ws, wake)) == CountIdle(ws)
    ensures CountSlow(Signal(ws, wake)) == CountSlow(ws)
  {
    CountSame(ws, Signal(ws, wake), IsIdle);
    CountSame(ws, Signal(ws, wake), IsSlow);
  }

  lemma {:induction false} CountIdlePositive(ws: seq<Worker>, t: Tid)
    requires t < |ws| && IsIdle(ws[t])
    ensures CountIdle(ws) > 0
  {
    if t > 0 {
      CountIdlePositive(ws[1..], t - 1);
    }
  }

  lemma {:induction false} CountSlowWitness(ws: seq<Worker>) returns (t: Tid)
    requires CountSlow(ws) > 0
    ensures t < |ws| && IsSlow(ws[t])
  {
    if IsSlow(ws[0]) {
      t := 0;
    } else {
      t := CountSlowWitness(ws[1..]);
      t := t + 1;
    }
  }

  // ----- the invariant, one concern at a time

  type Placing = map<Wid, Place>

  predicate Placed(pl: Placing, w: Wid, p: Place) {
    w in pl && pl[w] == p
  }

  /** The slow token: in the queue at most once, self-link test exact, and
      present whenever slow work is pending. */
  ghost predicate TokenInv(wq: seq<QNode>, slowq: seq<Wid>, linked: bool, exitPosted: bool) {
    && NoDup(wq) && NoDup(slowq)
    && (linked <==> Token in wq)
    && (slowq != [] ==> Token in wq)
    && (exitPosted <==> Exit in wq)
  }

  ghost predicate CountInv(ws: seq<Worker>, idle: int, running: int) {
    && idle == CountIdle(ws)
    && running == CountSlow(ws)
    && running <= Threshold(|ws|)
    && |ws| > 0
  }

  /** The negation of the predicate a worker waits on. */
  predicate HasWork(wq: seq<QNode>, running: int, nthreads: nat) {
    !(wq == [] || (wq[0] == Token && |wq| == 1 && running >= Threshold(nthreads)))
  }

  predicate IsAwake(wk: Worker) { !wk.Asleep? && !wk.Exited? }

  ghost predicate SomeAwake(ws: seq<Worker>) {
    exists t :: 0 <= t < |ws| && IsAwake(ws[t])
  }

  ghost predicate AllExited(ws: seq<Worker>) {
    forall t :: 0 <= t < |ws| ==> ws[t].Exited?
  }

  /** Workers leave only while the exit message is at the head of the queue. */
  ghost predicate ExitInv(ws: seq<Worker>, wq: seq<QNode>) {
    forall t :: 0 <= t < |ws| && ws[t].Exited? ==> wq != [] && wq[0] == Exit
  }

  ghost predicate WakeInv(ws: seq<Worker>, wq: seq<QNode>, running: int) {
    && (HasWork(wq, running, |ws|) ==> SomeAwake(ws) || AllExited(ws))
    && ExitInv(ws, wq)
  }

  ghost predicate QueueInv(wq: seq<QNode>, slowq: seq<Wid>, pl: Placing) {
    && (forall w :: Req(w) in wq <==> Placed(pl, w, InQueue))
    && (forall w :: w in slowq <==> Placed(pl, w, InSlow))
  }

  ghost predicate HeldInv(ws: seq<Worker>, pl: Placing) {
    && (forall t, w :: 0 <= t < |ws| ==> (Carries(ws[t], w) <==> Placed(pl, w, Held(t))))
    && (forall w :: w in pl && pl[w].Held? ==> pl[w].t < |ws|)
  }

  /** One loop's queues and gap, against the placing. */
  ghost predicate LoopOk(lp: Loop, l: LoopId, pl: Placing) {
    && NoDup(lp.wq) && NoDup(lp.local)
    && (forall w: Wid :: lp.gap == Some(w) <==> Placed(pl, w, InGap(l)))
    && (forall w :: w in lp.wq <==> Placed(pl, w, InLoop(l)))
    && (forall w :: w in lp.local <==> Placed(pl, w, InLocal(l)))
    && (lp.wq != [] ==> lp.async)
  }

  ghost predicate LoopInv(loops: map<LoopId, Loop>, pl: Placing) {
    forall l :: l in loops ==> LoopOk(loops[l], l, pl)
  }

  /** A request is only ever queued at its own loop. */
  ghost predicate HomeInv(reqs: map<Wid, Request>, loops: map<LoopId, Loop>, pl: Placing) {
    && pl.Keys == reqs.Keys
    && (forall w :: w in reqs ==> reqs[w].loop in loops)
    && (forall w :: w in pl && (pl[w].InGap? || pl[w].InLoop? || pl[w].InLocal?) ==> pl[w].l == reqs[w].loop)
  }

  predicate Finished(r: Request, ran: bool, cancelled: bool) {
    r.linked && ((r.work.Null? && ran && !cancelled) || (r.work.Cancelled? && !ran && cancelled))
  }

  /** How far a request has come, read off its place. */
  ghost predicate Progress(r: Request, p: Place, ran: bool, cancelled: bool, busy: bool) {
    && (busy ==> p.Held? || r.work.Null?)
    && match p
       case InQueue => r.work.Func? && r.linked && !ran && !cancelled && !r.kind.SlowIo?
       case InSlow => r.work.Func? && r.linked && !ran && !cancelled && r.kind.SlowIo?
       case Held(t) => r.work.Func? && !r.linked && !cancelled
       case InGap(l) => !r.work.Null? && r.linked && !ran && cancelled
       case InLoop(l) => Finished(r, ran, cancelled)
       case InLocal(l) => Finished(r, ran, cancelled)
       case Gone => Finished(r, ran, cancelled)
  }

  ghost predicate ProgressInv(reqs: map<Wid, Request>, ran: seq<Wid>, cancelled: set<Wid>, busy: set<Wid>, pl: Placing) {
    && pl.Keys == reqs.Keys
    && (forall w :: w in pl ==> Progress(reqs[w], pl[w], w in ran, w in cancelled, w in busy))
    && (forall w :: w in ran || w in cancelled || w in busy ==> w in pl)
    && NoDup(ran)
  }

  /** A worker that carries a request knows whether it has run it and whether it is slow. */
  ghost predicate CarryInv(ws: seq<Worker>, reqs: map<Wid, Request>, ran: seq<Wid>) {
    forall t :: 0 <= t < |ws| && (ws[t].Holding? || ws[t].Ran?) ==>
      && ws[t].w in reqs
      && (ws[t].w in ran <==> ws[t].Ran?)
      && (ws[t].slow <==> reqs[ws[t].w].kind.SlowIo?)
  }

  ghost predicate DoneInv(done: seq<Verdict>, reqs: map<Wid, Request>, pl: Placing) {
    && NoDup(Subjects(done))
    && (forall w :: w in Subjects(done) <==> Placed(pl, w, Gone))
    && (forall v :: v in done ==> v.w in reqs && v.canceled == reqs[v.w].work.Cancelled?)
  }

  ghost predicate Inv(s: State, pl: Placing) {
    && TokenInv(s.wq, s.slowq, s.tokenLinked, s.exitPosted)
    && CountInv(s.workers, s.idle, s.running)
    && WakeInv(s.workers, s.wq, s.running)
    && QueueInv(s.wq, s.slowq, pl)
    && HeldInv(s.workers, pl)
    && LoopInv(s.loops, pl)
    && HomeInv(s.reqs, s.loops, pl)
    && ProgressInv(s.reqs, s.ran, s.cancelled, s.busy, pl)
    && CarryInv(s.workers, s.reqs, s.ran)
    && DoneInv(s.done, s.reqs, pl)
    && !s.aborted
  }

  /** Where each request is after action a. */
  ghost function Moved(s: State, a: Action, pl: Placing): Placing
    requires Enabled(s, a)
  {
    match a
    case Submit(l, w, kind, wake) => pl[w := if kind.SlowIo? then InSlow else InQueue]
    case Section(t, wake) =>
      var p := Outcome(s, t).pick;
      if p.Take? then pl[p.w := Held(t)] else pl
    case CallWork(t) => pl
    case Finish(t) => pl[s.workers[t].w := InLoop(s.reqs[s.workers[t].w].loop)]
    case Spurious(t) => pl
    case CancelBegin(l, w) => if Cancellable(s.reqs[w]) then pl[w := InGap(l)] else pl
    case CancelEnd(l) => pl[s.loops[l].gap.value := InLoop(l)]
    case Drain(l) => Drained(l, pl)
    case Done(l) => pl[s.loops[l].local[0] := Gone]
    case Shutdown(wake) => pl
  }

  // ----- the worker's critical section

  ghost predicate SameRequests(q: seq<QNode>, r: seq<QNode>) {
    forall w :: Req(w) in q <==> Req(w) in r
  }

  lemma PickHeadEffect(q: Shared)
    requires NoDup(q.wq)
    requires q.wq != [] ==> q.wq[0] != Token
    ensures var p := PickHead(q);
      && NoDup(p.shared.wq)
      && (Token in p.shared.wq <==> Token in q.wq)
      && (Exit in p.shared.wq <==> Exit in q.wq)
      && p.shared.slowq == q.slowq && p.shared.tokenLinked == q.tokenLinked
      && p.shared.running == q.running
      && (p.pick.Sleep? ==> q.wq == [] && p.shared == q)
      && (p.pick.Leave? ==> q.wq != [] && q.wq[0] == Exit && p.shared == q)
      && (p.pick.Take? ==>
            !p.pick.slow && Req(p.pick.w) in q.wq
            && forall v :: Req(v) in p.shared.wq <==> Req(v) in q.wq && v != p.pick.w)
  {
    if q.wq != [] {
      NoDupRest(q.wq);
    }
  }

  lemma RotateEffect(q: seq<QNode>)
    requires NoDup(q) && q != [] && q[0] == Token
    ensures NoDup(q[1..] + [Token])
    ensures forall x :: x in q[1..] + [Token] <==> x in q
  {
    NoDupRest(q);
    NoDupAppend(q[1..], Token);
  }

  /** Which request a section takes: everything else stays where it was. */
  ghost predicate Moves(q: Shared, p: Picked) {
    if p.pick.Take? && p.pick.slow then
      && p.pick.w in q.slowq && SameRequests(q.wq, p.shared.wq)
      && forall v :: v in p.shared.slowq <==> v in q.slowq && v != p.pick.w
    else
      && p.shared.slowq == q.slowq
      && (if p.pick.Take? then
            Req(p.pick.w) in q.wq && forall v :: Req(v) in p.shared.wq <==> Req(v) in q.wq && v != p.pick.w
          else SameRequests(q.wq, p.shared.wq))
  }

  /** A section sleeps exactly when there is nothing to do, leaves exactly when
      the exit message is at the head, and starts slow work only below the threshold. */
  ghost predicate Stops(q: Shared, threshold: nat, p: Picked) {
    && (p.pick.Sleep? ==> p.shared.wq == [] || (p.shared.wq == [Token] && p.shared.running >= threshold))
    && (p.pick.Leave? ==> p.shared.wq != [] && p.shared.wq[0] == Exit && p.signal)
    && (q.wq != [] && q.wq[0] == Exit ==> p.pick.Leave? && p.shared == q)
    && (if p.pick.Take? && p.pick.slow then p.shared.running == q.running + 1 <= threshold
        else p.shared.running == q.running)
  }

  lemma ChooseEffect(q: Shared, threshold: nat, exitPosted: bool)
    requires TokenInv(q.wq, q.slowq, q.tokenLinked, exitPosted)
    ensures var p := Choose(q, threshold);
      && TokenInv(p.shared.wq, p.shared.slowq, p.shared.tokenLinked, exitPosted)
      && Moves(q, p) && Stops(q, threshold, p)
  {
    if q.wq == [] || q.wq[0] != Token {
      PickHeadEffect(q);
    } else {
      NoDupRest(q.wq);
      RotateEffect(q.wq);
      if q.running >= threshold {
        if |q.wq| > 1 {
          PickHeadEffect(q.(wq := q.wq[1..] + [Token]));
        }
      } else if q.slowq == [] {
        PickHeadEffect(q.(wq := q.wq[1..], tokenLinked := false));
      } else {
        NoDupRest(q.slowq);
      }
    }
  }

  // ----- moving one request

  lemma MovedPlaces(pl: Placing, w: Wid, q: Place)
    ensures forall v, p :: Placed(pl[w := q], v, p) <==> if v == w then p == q else Placed(pl, v, p)
  {
    forall v, p ensures Placed(pl[w := q], v, p) <==> if v == w then p == q else Placed(pl, v, p) {
    }
  }

  /** Moving w from place p to place q leaves every container alone that is neither. */
  lemma MoveKeepsQueues(wq: seq<QNode>, slowq: seq<Wid>, pl: Placing, w: Wid, q: Place)
    requires QueueInv(wq, slowq, pl) && !q.InQueue? && !q.InSlow?
    requires w in pl ==> !pl[w].InQueue? && !pl[w].InSlow?
    ensures QueueInv(wq, slowq, pl[w := q])
  {
  }

  lemma MoveKeepsHeld(ws: seq<Worker>, pl: Placing, w: Wid, q: Place)
    requires HeldInv(ws, pl) && !q.Held?
    requires w in pl ==> !pl[w].Held?
    ensures HeldInv(ws, pl[w := q])
  {
  }

  predicate AtLoop(p: Place) {
    p.InGap? || p.InLoop? || p.InLocal?
  }

  lemma MoveKeepsLoops(loops: map<LoopId, Loop>, pl: Placing, w: Wid, q: Place)
    requires LoopInv(loops, pl) && !AtLoop(q)
    requires w in pl ==> !AtLoop(pl[w])
    ensures LoopInv(loops, pl[w := q])
  {
    forall l | l in loops ensures LoopOk(loops[l], l, pl[w := q]) {
      OtherLoop(loops[l], l, pl, w, q);
    }
  }

  lemma OtherLoop(lp: Loop, k: LoopId, pl: Placing, w: Wid, q: Place)
    requires LoopOk(lp, k, pl)
    requires AtLoop(q) ==> q.l != k
    requires w in pl && AtLoop(pl[w]) ==> pl[w].l != k
    ensures LoopOk(lp, k, pl[w := q])
  {
  }

  /** A change at loop l only concerns loop l. */
  lemma MoveAtLoop(loops: map<LoopId, Loop>, pl: Placing, w: Wid, q: Place, l: LoopId, lp: Loop)
    requires LoopInv(loops, pl) && l in loops
    requires AtLoop(q) ==> q.l == l
    requires w in pl && AtLoop(pl[w]) ==> pl[w].l == l
    requires LoopOk(lp, l, pl[w := q])
    ensures LoopInv(loops[l := lp], pl[w := q])
  {
    forall k | k in loops && k != l ensures LoopOk(loops[k], k, pl[w := q]) {
      OtherLoop(loops[k], k, pl, w, q);
    }
  }

  lemma MoveKeepsHome(reqs: map<Wid, Request>, loops: map<LoopId, Loop>, loops1: map<LoopId, Loop>,
                      pl: Placing, w: Wid, q: Place, r: Request)
    requires HomeInv(reqs, loops, pl) && loops1.Keys == loops.Keys
    requires r.loop in loops || (w in reqs && r.loop == reqs[w].loop)
    requires AtLoop(q) ==> q.l == r.loop
    ensures HomeInv(reqs[w := r], loops1, pl[w := q])
  {
  }

  lemma MoveKeepsProgress(s: State, pl: Placing, w: Wid, q: Place, r: Request)
    requires ProgressInv(s.reqs, s.ran, s.cancelled, s.busy, pl)
    requires Progress(r, q, w in s.ran, w in s.cancelled, w in s.busy)
    ensures ProgressInv(s.reqs[w := r], s.ran, s.cancelled, s.busy, pl[w := q])
  {
  }

  lemma MoveKeepsCarry(ws: seq<Worker>, reqs: map<Wid, Request>, ran: seq<Wid>, w: Wid, r: Request)
    requires CarryInv(ws, reqs, ran)
    requires w in reqs ==> r.kind == reqs[w].kind
    ensures CarryInv(ws, reqs[w := r], ran)
  {
  }

  lemma MoveKeepsDone(done: seq<Verdict>, reqs: map<Wid, Request>, pl: Placing, w: Wid, q: Place, r: Request)
    requires DoneInv(done, reqs, pl) && q != Gone
    requires w in pl ==> pl[w] != Gone
    ensures DoneInv(done, reqs[w := r], pl[w := q])
  {
    MovedPlaces(pl, w, q);
    assert !Placed(pl, w, Gone);
    forall v | v in done ensures v.w in Subjects(done) {
      var i :| 0 <= i < |done| && done[i] == v;
      assert Subjects(done)[i] == v.w;
    }
  }

  // ----- every action keeps the invariant

  lemma EnqueueKeepsWake(s: State, q: QNode, wake: set<Tid>)
    requires CountInv(s.workers, s.idle, s.running) && SignalOk(s.workers, wake)
    requires ExitInv(s.workers, s.wq)
    ensures var r := Enqueue(s, q, wake);
      CountInv(r.workers, r.idle, r.running) && WakeInv(r.workers, r.wq, r.running)
  {
    var ws := Enqueue(s, q, wake).workers;
    SignalKeepsCounts(s.workers, wake);
    if t :| 0 <= t < |ws| && ws[t].Asleep? {
      assert IsAsleep(s.workers, t);
      CountIdlePositive(s.workers, t);
      var k :| k in wake;
      assert IsAsleep(s.workers, k);
      assert IsAwake(ws[k]);
    } else if t :| 0 <= t < |ws| && !ws[t].Exited? {
      assert IsAwake(ws[t]);
    }
  }

  lemma SignalKeepsCarried(ws: seq<Worker>, wake: set<Tid>, pl: Placing, reqs: map<Wid, Request>, ran: seq<Wid>)
    requires HeldInv(ws, pl) && CarryInv(ws, reqs, ran)
    ensures HeldInv(Signal(ws, wake), pl) && CarryInv(Signal(ws, wake), reqs, ran)
  {
    var vs := Signal(ws, wake);
    forall t, w | 0 <= t < |vs| ensures Carries(vs[t], w) <==> Carries(ws[t], w) {
    }
  }

  /** A new request: fresh everywhere. */
  lemma SubmitProgress(s: State, pl: Placing, w: Wid, r: Request, p: Place)
    requires Inv(s, pl) && w !in s.reqs && r.loop in s.loops
    requires r.work.Func? && r.linked && p == (if r.kind.SlowIo? then InSlow else InQueue)
    ensures HeldInv(s.workers, pl[w := p]) && LoopInv(s.loops, pl[w := p])
    ensures HomeInv(s.reqs[w := r], s.loops, pl[w := p])
    ensures ProgressInv(s.reqs[w := r], s.ran, s.cancelled, s.busy, pl[w := p])
    ensures CarryInv(s.workers, s.reqs[w := r], s.ran)
    ensures DoneInv(s.done, s.reqs[w := r], pl[w := p])
  {
    MoveKeepsHeld(s.workers, pl, w, p);
    MoveKeepsLoops(s.loops, pl, w, p);
    MoveKeepsHome(s.reqs, s.loops, s.loops, pl, w, p, r);
    MoveKeepsProgress(s, pl, w, p, r);
    MoveKeepsCarry(s.workers, s.reqs, s.ran, w, r);
    MoveKeepsDone(s.done, s.reqs, pl, w, p, r);
  }

  lemma SubmitSlow(s: State, a: Action, pl: Placing)
    requires TokenInv(s.wq, s.slowq, s.tokenLinked, s.exitPosted) && QueueInv(s.wq, s.slowq, pl)
    requires CountInv(s.workers, s.idle, s.running) && WakeInv(s.workers, s.wq, s.running)
    requires Enabled(s, a) && a.Submit? && a.kind.SlowIo? && a.w !in pl
    ensures var r := Apply(s, a);
      && TokenInv(r.wq, r.slowq, r.tokenLinked, r.exitPosted)
      && QueueInv(r.wq, r.slowq, pl[a.w := InSlow])
      && CountInv(r.workers, r.idle, r.running) && WakeInv(r.workers, r.wq, r.running)
  {
    NoDupAppend(s.slowq, a.w);
    MovedPlaces(pl, a.w, InSlow);
    if !s.tokenLinked {
      NoDupAppend(s.wq, Token);
      EnqueueKeepsWake(s, Token, a.wake);
    }
  }

  lemma SubmitFast(s: State, a: Action, pl: Placing)
    requires TokenInv(s.wq, s.slowq, s.tokenLinked, s.exitPosted) && QueueInv(s.wq, s.slowq, pl)
    requires CountInv(s.workers, s.idle, s.running) && WakeInv(s.workers, s.wq, s.running)
    requires Enabled(s, a) && a.Submit? && !a.kind.SlowIo? && a.w !in pl
    ensures var r := Apply(s, a);
      && TokenInv(r.wq, r.slowq, r.tokenLinked, r.exitPosted)
      && QueueInv(r.wq, r.slowq, pl[a.w := InQueue])
      && CountInv(r.workers, r.idle, r.running) && WakeInv(r.workers, r.wq, r.running)
  {
    MovedPlaces(pl, a.w, InQueue);
    assert !Placed(pl, a.w, InQueue);
    NoDupAppend(s.wq, Req(a.w));
    EnqueueKeepsWake(s, Req(a.w), a.wake);
  }

  lemma SubmitIs(s: State, a: Action, pl: Placing)
    requires Enabled(s, a) && a.Submit?
    ensures a.l in s.loops && a.w !in s.reqs
    ensures Moved(s, a, pl) == pl[a.w := if a.kind.SlowIo? then InSlow else InQueue]
    ensures var r := Apply(s, a);
      && r == s.(wq := r.wq, slowq := r.slowq, tokenLinked := r.tokenLinked, workers := r.workers,
                 reqs := s.reqs[a.w := Request(a.l, a.kind, Func, true)])
      && (r.workers == s.workers || r.workers == Signal(s.workers, a.wake))
  {
  }

  lemma SubmitKeeps(s: State, a: Action, pl: Placing)
    requires Inv(s, pl) && Enabled(s, a) && a.Submit?
    ensures Inv(Apply(s, a), Moved(s, a, pl))
  {
    hide TokenInv, CountInv, WakeInv, QueueInv, HeldInv, LoopInv, DoneInv, HomeInv, ProgressInv, CarryInv;
    hide Apply, Moved, Enabled, Signal;
    SubmitIs(s, a, pl);
    assert a.w !in pl by { KeysAlike(s, pl, a.w); }
    var r := Request(a.l, a.kind, Func, true);
    var p := if a.kind.SlowIo? then InSlow else InQueue;
    SubmitProgress(s, pl, a.w, r, p);
    SignalKeepsCarried(s.workers, a.wake, pl[a.w := p], s.reqs[a.w := r], s.ran);
    if a.kind.SlowIo? {
      SubmitSlow(s, a, pl);
    } else {
      SubmitFast(s, a, pl);
    }
  }

  lemma KeysAlike(s: State, pl: Placing, w: Wid)
    requires HomeInv(s.reqs, s.loops, pl)
    ensures w in pl <==> w in s.reqs
  {
  }

  lemma ShutdownKeeps(s: State, a: Action, pl: Placing)
    requires Inv(s, pl) && Enabled(s, a) && a.Shutdown?
    ensures Inv(Apply(s, a), Moved(s, a, pl))
  {
    NoDupAppend(s.wq, Exit);
    SignalKeepsCarried(s.workers, a.wake, pl, s.reqs, s.ran);
    EnqueueKeepsWake(s.(exitPosted := true), Exit, a.wake);
  }

  // ----- steps of a worker outside the global mutex

  lemma WorkerCounts(s: State, t: Tid, wk: Worker)
    requires CountInv(s.workers, s.idle, s.running) && WakeInv(s.workers, s.wq, s.running)
    requires t < |s.workers| && IsAwake(wk) && !s.workers[t].Exited?
    requires IsIdle(wk) == IsIdle(s.workers[t]) && IsSlow(wk) == IsSlow(s.workers[t])
    ensures CountInv(s.workers[t := wk], s.idle, s.running)
    ensures WakeInv(s.workers[t := wk], s.wq, s.running)
  {
    CountUpdate(s.workers, t, wk, IsIdle);
    CountUpdate(s.workers, t, wk, IsSlow);
    assert IsAwake(s.workers[t := wk][t]);
  }

  lemma CallWorkHeld(ws: seq<Worker>, t: Tid, pl: Placing, reqs: map<Wid, Request>, ran: seq<Wid>)
    requires HeldInv(ws, pl) && CarryInv(ws, reqs, ran) && t < |ws| && ws[t].Holding?
    ensures HeldInv(ws[t := Ran(ws[t].w, ws[t].slow)], pl)
    ensures CarryInv(ws[t := Ran(ws[t].w, ws[t].slow)], reqs, ran + [ws[t].w])
  {
    PlacedHeld(ws, t, pl);
    forall u | 0 <= u < |ws| && u != t && (ws[u].Holding? || ws[u].Ran?)
      ensures ws[u].w != ws[t].w
    {
      PlacedHeld(ws, u, pl);
    }
  }

  lemma CallWorkProgress(s: State, w: Wid, t: Tid, pl: Placing)
    requires ProgressInv(s.reqs, s.ran, s.cancelled, s.busy, pl)
    requires Placed(pl, w, Held(t)) && w !in s.ran
    ensures ProgressInv(s.reqs, s.ran + [w], s.cancelled, s.busy, pl)
  {
    NoDupAppend(s.ran, w);
  }

  lemma CallWorkKeeps(s: State, a: Action, pl: Placing)
    requires Inv(s, pl) && Enabled(s, a) && a.CallWork?
    ensures Inv(Apply(s, a), Moved(s, a, pl))
  {
    hide TokenInv, CountInv, WakeInv, QueueInv, HeldInv, LoopInv, DoneInv;
    var wk := s.workers[a.t];
    PlacedHeld(s.workers, a.t, pl);
    assert Progress(s.reqs[wk.w], pl[wk.w], wk.w in s.ran, wk.w in s.cancelled, wk.w in s.busy);
    WorkerCounts(s, a.t, Ran(wk.w, wk.slow));
    CallWorkHeld(s.workers, a.t, pl, s.reqs, s.ran);
    CallWorkProgress(s, wk.w, a.t, pl);
  }

  lemma SpuriousKeeps(s: State, a: Action, pl: Placing)
    requires Inv(s, pl) && Enabled(s, a) && a.Spurious?
    ensures Inv(Apply(s, a), Moved(s, a, pl))
  {
    hide TokenInv, CountInv, WakeInv, QueueInv, HeldInv, LoopInv, HomeInv, ProgressInv, CarryInv, DoneInv;
    WorkerCounts(s, a.t, Woken);
    WokenHolds(s.workers, a.t, pl, s.reqs, s.ran);
  }

  lemma WokenHolds(ws: seq<Worker>, t: Tid, pl: Placing, reqs: map<Wid, Request>, ran: seq<Wid>)
    requires HeldInv(ws, pl) && CarryInv(ws, reqs, ran) && IsAsleep(ws, t)
    ensures HeldInv(ws[t := Woken], pl) && CarryInv(ws[t := Woken], reqs, ran)
  {
    var vs := ws[t := Woken];
    forall u, w | 0 <= u < |vs| ensures Carries(vs[u], w) <==> Placed(pl, w, Held(u)) {
      assert Carries(ws[u], w) <==> Placed(pl, w, Held(u));
    }
  }

  lemma FinishIs(s: State, t: Tid, pl: Placing)
    requires Enabled(s, Finish(t))
    ensures t < |s.workers| && s.workers[t].Ran? && s.workers[t].w in s.reqs
    ensures var w := s.workers[t].w;
      var l := s.reqs[w].loop;
      && l in s.loops
      && Apply(s, Finish(t)) == s.(
           reqs := s.reqs[w := s.reqs[w].(work := Null, linked := true)],
           loops := s.loops[l := s.loops[l].(wq := s.loops[l].wq + [w], async := true)],
           workers := s.workers[t := Locking(s.workers[t].slow)])
      && Moved(s, Finish(t), pl) == pl[w := InLoop(l)]
  {
  }

  lemma FinishKeeps(s: State, a: Action, pl: Placing)
    requires Inv(s, pl) && Enabled(s, a) && a.Finish?
    ensures Inv(Apply(s, a), Moved(s, a, pl))
  {
    hide TokenInv, CountInv, WakeInv, QueueInv, HeldInv, LoopInv, DoneInv, HomeInv, Apply, Moved, Enabled;
    FinishIs(s, a.t, pl);
    var wk := s.workers[a.t];
    var vk := Locking(wk.slow);
    var l := s.reqs[wk.w].loop;
    PlacedHeld(s.workers, a.t, pl);
    assert Progress(s.reqs[wk.w], pl[wk.w], wk.w in s.ran, wk.w in s.cancelled, wk.w in s.busy);
    WorkerCounts(s, a.t, vk);
    var r := s.reqs[wk.w].(work := Null, linked := true);
    var lp := s.loops[l].(wq := s.loops[l].wq + [wk.w], async := true);
    MoveKeepsQueues(s.wq, s.slowq, pl, wk.w, InLoop(l));
    QueueAtLoop(s.loops, pl, wk.w, l, lp);
    DropHeld(s.workers, a.t, vk, pl, InLoop(l));
    MoveKeepsHome(s.reqs, s.loops, s.loops[l := lp], pl, wk.w, InLoop(l), r);
    MoveKeepsProgress(s, pl, wk.w, InLoop(l), r);
    MoveKeepsCarry(s.workers, s.reqs, s.ran, wk.w, r);
    MoveKeepsDone(s.done, s.reqs, pl, wk.w, InLoop(l), r);
  }

  lemma DropHeld(ws: seq<Worker>, t: Tid, wk: Worker, pl: Placing, q: Place)
    requires HeldInv(ws, pl) && t < |ws| && (ws[t].Holding? || ws[t].Ran?)
    requires !q.Held? && !wk.Holding? && !wk.Ran?
    ensures HeldInv(ws[t := wk], pl[ws[t].w := q])
  {
    var w := ws[t].w;
    MovedPlaces(pl, w, q);
    assert Carries(ws[t], w);
    var vs := ws[t := wk];
    forall u, v | 0 <= u < |vs|
      ensures Carries(vs[u], v) <==> Placed(pl[w := q], v, Held(u))
    {
      assert Carries(ws[u], v) <==> Placed(pl, v, Held(u));
      assert Carries(ws[t], v) <==> Placed(pl, v, Held(t));
    }
  }

  lemma QueueAtLoop(loops: map<LoopId, Loop>, pl: Placing, w: Wid, l: LoopId, lp: Loop)
    requires LoopInv(loops, pl) && l in loops
    requires w in pl && (!AtLoop(pl[w]) || pl[w] == InGap(l))
    requires lp == Loop(loops[l].wq + [w], loops[l].local, if pl[w] == InGap(l) then None else loops[l].gap, true)
    ensures LoopInv(loops[l := lp], pl[w := InLoop(l)])
  {
    assert LoopOk(loops[l], l, pl);
    assert Placed(pl, w, pl[w]);
    MovedPlaces(pl, w, InLoop(l));
    NoDupAppend(loops[l].wq, w);
    MoveAtLoop(loops, pl, w, InLoop(l), l, lp);
  }

  // ----- steps of a loop thread

  lemma PlacedAtLoop(loops: map<LoopId, Loop>, l: LoopId, w: Wid, pl: Placing)
    requires LoopInv(loops, pl) && l in loops
    ensures loops[l].gap == Some(w) ==> Placed(pl, w, InGap(l))
    ensures w in loops[l].local ==> Placed(pl, w, InLocal(l))
  {
    assert LoopOk(loops[l], l, pl);
  }

  lemma NotStarted(s: State, w: Wid, pl: Placing)
    requires DoneInv(s.done, s.reqs, pl) && !Started(s, w)
    ensures !Placed(pl, w, Gone)
  {
  }

  lemma PlacedHeld(ws: seq<Worker>, t: Tid, pl: Placing)
    requires HeldInv(ws, pl) && t < |ws| && (ws[t].Holding? || ws[t].Ran?)
    ensures Placed(pl, ws[t].w, Held(t))
  {
    assert Carries(ws[t], ws[t].w);
  }

  lemma CancelEndKeeps(s: State, a: Action, pl: Placing)
    requires Inv(s, pl) && Enabled(s, a) && a.CancelEnd?
    ensures Inv(Apply(s, a), Moved(s, a, pl))
  {
    hide TokenInv, CountInv, WakeInv, QueueInv, HeldInv, LoopInv, DoneInv;
    var w := s.loops[a.l].gap.value;
    PlacedAtLoop(s.loops, a.l, w, pl);
    var r := s.reqs[w].(work := Cancelled, linked := true);
    var lp := Loop(s.loops[a.l].wq + [w], s.loops[a.l].local, None, true);
    assert Apply(s, a) == s.(reqs := s.reqs[w := r], loops := s.loops[a.l := lp]);
    MoveKeepsQueues(s.wq, s.slowq, pl, w, InLoop(a.l));
    MoveKeepsHeld(s.workers, pl, w, InLoop(a.l));
    QueueAtLoop(s.loops, pl, w, a.l, lp);
    MoveKeepsHome(s.reqs, s.loops, s.loops[a.l := lp], pl, w, InLoop(a.l), r);
    MoveKeepsProgress(s, pl, w, InLoop(a.l), r);
    MoveKeepsCarry(s.workers, s.reqs, s.ran, w, r);
    MoveKeepsDone(s.done, s.reqs, pl, w, InLoop(a.l), r);
  }

  lemma DoneLog(s: State, l: LoopId, w: Wid, pl: Placing)
    requires DoneInv(s.done, s.reqs, pl) && w in s.reqs && w in pl && pl[w] != Gone
    ensures DoneInv(s.done + [Verdict(w, s.reqs[w].work.Cancelled?)], s.reqs, pl[w := Gone])
  {
    var v := Verdict(w, s.reqs[w].work.Cancelled?);
    MovedPlaces(pl, w, Gone);
    assert !Placed(pl, w, Gone);
    assert Subjects(s.done + [v]) == Subjects(s.done) + [w];
    NoDupAppend(Subjects(s.done), w);
  }

  lemma DoneKeeps(s: State, a: Action, pl: Placing)
    requires Inv(s, pl) && Enabled(s, a) && a.Done?
    ensures Inv(Apply(s, a), Moved(s, a, pl))
  {
    hide TokenInv, CountInv, WakeInv, QueueInv, HeldInv, LoopInv, DoneInv;
    var lp := s.loops[a.l];
    var w := lp.local[0];
    PlacedAtLoop(s.loops, a.l, w, pl);
    DoneAtLoop(s.loops, a.l, pl);
    MoveKeepsQueues(s.wq, s.slowq, pl, w, Gone);
    MoveKeepsHeld(s.workers, pl, w, Gone);
    DoneLog(s, a.l, w, pl);
  }

  lemma DoneAtLoop(loops: map<LoopId, Loop>, l: LoopId, pl: Placing)
    requires LoopInv(loops, pl) && l in loops && loops[l].local != []
    ensures LoopInv(loops[l := loops[l].(local := loops[l].local[1..])], pl[loops[l].local[0] := Gone])
  {
    var lp := loops[l];
    var w := lp.local[0];
    assert LoopOk(lp, l, pl);
    assert Placed(pl, w, InLocal(l));
    NoDupRest(lp.local);
    MovedPlaces(pl, w, Gone);
    MoveAtLoop(loops, pl, w, Gone, l, lp.(local := lp.local[1..]));
  }

  ghost function Drained(l: LoopId, pl: Placing): Placing {
    map w | w in pl :: if pl[w] == InLoop(l) then InLocal(l) else pl[w]
  }

  lemma DrainedPlaces(l: LoopId, pl: Placing)
    ensures forall v, p :: Placed(Drained(l, pl), v, p) <==>
        if p == InLocal(l) then Placed(pl, v, InLoop(l)) || Placed(pl, v, InLocal(l))
        else Placed(pl, v, p) && p != InLoop(l)
  {
    forall v, p ensures Placed(Drained(l, pl), v, p) <==>
        if p == InLocal(l) then Placed(pl, v, InLoop(l)) || Placed(pl, v, InLocal(l))
        else Placed(pl, v, p) && p != InLoop(l)
    {
    }
  }

  lemma DrainLoop(loops: map<LoopId, Loop>, l: LoopId, pl: Placing)
    requires LoopInv(loops, pl) && l in loops && loops[l].local == []
    ensures LoopInv(loops[l := Loop([], loops[l].wq, loops[l].gap, false)], Drained(l, pl))
  {
    assert LoopOk(loops[l], l, pl);
    DrainedPlaces(l, pl);
    assert LoopOk(Loop([], loops[l].wq, loops[l].gap, false), l, Drained(l, pl));
    forall k | k in loops && k != l ensures LoopOk(loops[k], k, Drained(l, pl)) {
      assert LoopOk(loops[k], k, pl);
    }
  }

  lemma DrainElsewhere(s: State, l: LoopId, pl: Placing)
    requires QueueInv(s.wq, s.slowq, pl) && HeldInv(s.workers, pl)
    requires DoneInv(s.done, s.reqs, pl)
    ensures QueueInv(s.wq, s.slowq, Drained(l, pl)) && HeldInv(s.workers, Drained(l, pl))
    ensures DoneInv(s.done, s.reqs, Drained(l, pl))
  {
    DrainedPlaces(l, pl);
  }

  lemma DrainRequests(s: State, l: LoopId, pl: Placing)
    requires HomeInv(s.reqs, s.loops, pl) && ProgressInv(s.reqs, s.ran, s.cancelled, s.busy, pl)
    ensures HomeInv(s.reqs, s.loops, Drained(l, pl))
    ensures ProgressInv(s.reqs, s.ran, s.cancelled, s.busy, Drained(l, pl))
  {
  }

  lemma DrainKeeps(s: State, a: Action, pl: Placing)
    requires Inv(s, pl) && Enabled(s, a) && a.Drain?
    ensures Inv(Apply(s, a), Moved(s, a, pl))
  {
    hide TokenInv, CountInv, WakeInv, QueueInv, HeldInv, LoopInv, DoneInv;
    DrainLoop(s.loops, a.l, pl);
    DrainElsewhere(s, a.l, pl);
    DrainRequests(s, a.l, pl);
  }

  // ----- the first half of uv__work_cancel

  lemma CancelLoop(s: State, l: LoopId, w: Wid, pl: Placing)
    requires LoopInv(s.loops, pl) && LoopFree(s, l)
    requires w in pl && (AtLoop(pl[w]) ==> pl[w].l == l)
    ensures var lp := s.loops[l];
      LoopInv(s.loops[l := Loop(Unlink(lp.wq, w), Unlink(lp.local, w), Some(w), lp.async)], pl[w := InGap(l)])
  {
    var lp := s.loops[l];
    assert LoopOk(lp, l, pl);
    UnlinkEffect(lp.wq, w);
    UnlinkEffect(lp.local, w);
    MovedPlaces(pl, w, InGap(l));
    MoveAtLoop(s.loops, pl, w, InGap(l), l, Loop(Unlink(lp.wq, w), Unlink(lp.local, w), Some(w), lp.async));
  }

  lemma CancelQueues(s: State, w: Wid, l: LoopId, pl: Placing)
    requires TokenInv(s.wq, s.slowq, s.tokenLinked, s.exitPosted) && QueueInv(s.wq, s.slowq, pl)
    requires WakeInv(s.workers, s.wq, s.running)
    ensures TokenInv(Unlink(s.wq, Req(w)), Unlink(s.slowq, w), s.tokenLinked, s.exitPosted)
    ensures QueueInv(Unlink(s.wq, Req(w)), Unlink(s.slowq, w), pl[w := InGap(l)])
    ensures WakeInv(s.workers, Unlink(s.wq, Req(w)), s.running)
  {
    UnlinkEffect(s.wq, Req(w));
    UnlinkEffect(s.slowq, w);
    MovedPlaces(pl, w, InGap(l));
    if s.wq != [] && s.wq[0] == Token && |s.wq| == 1 {
      assert s.wq == [Token];
      assert Req(w) !in s.wq;
    }
  }

  lemma CancelProgress(s: State, l: LoopId, w: Wid, pl: Placing)
    requires ProgressInv(s.reqs, s.ran, s.cancelled, s.busy, pl)
    requires w in pl && Cancellable(s.reqs[w]) && pl[w] != Gone
    ensures !pl[w].Held?
    ensures ProgressInv(s.reqs, s.ran, s.cancelled + {w}, s.busy, pl[w := InGap(l)])
  {
    assert Progress(s.reqs[w], pl[w], w in s.ran, w in s.cancelled, w in s.busy);
    var pl1 := pl[w := InGap(l)];
    forall v | v in pl1
      ensures Progress(s.reqs[v], pl1[v], v in s.ran, v in s.cancelled + {w}, v in s.busy)
    {
      assert Progress(s.reqs[v], pl[v], v in s.ran, v in s.cancelled, v in s.busy);
    }
  }

  lemma CancelBeginKeeps(s: State, a: Action, pl: Placing)
    requires Inv(s, pl) && Enabled(s, a) && a.CancelBegin?
    ensures Inv(Apply(s, a), Moved(s, a, pl))
  {
    hide TokenInv, CountInv, WakeInv, QueueInv, HeldInv, LoopInv, DoneInv;
    assert Progress(s.reqs[a.w], pl[a.w], a.w in s.ran, a.w in s.cancelled, a.w in s.busy);
    if Cancellable(s.reqs[a.w]) {
      NotStarted(s, a.w, pl);
      CancelLoop(s, a.l, a.w, pl);
      CancelQueues(s, a.w, a.l, pl);
      CancelProgress(s, a.l, a.w, pl);
      MoveKeepsHome(s.reqs, s.loops, Apply(s, a).loops, pl, a.w, InGap(a.l), s.reqs[a.w]);
      MoveKeepsDone(s.done, s.reqs, pl, a.w, InGap(a.l), s.reqs[a.w]);
      MoveKeepsHeld(s.workers, pl, a.w, InGap(a.l));
      assert s.reqs[a.w := s.reqs[a.w]] == s.reqs;
    } else {
      assert ProgressInv(s.reqs, s.ran, s.cancelled, s.busy + {a.w}, pl);
    }
  }

  // ----- the worker's critical section keeps the invariant

  lemma SectionCounts(s: State, t: Tid, p: Picked, wake: set<Tid>)
    requires CountInv(s.workers, s.idle, s.running) && t < |s.workers| && CanLock(s.workers[t])
    ensures var vs := WorkersAfter(s, t, p, wake);
      && CountIdle(vs) == IdleOnLock(s, t) + (if p.pick.Sleep? then 1 else 0)
      && CountSlow(vs) == RunningOnLock(s, t) + (if p.pick.Take? && p.pick.slow then 1 else 0)
  {
    SignalKeepsCounts(s.workers, wake);
    CountUpdate(s.workers, t, Became(p.pick), IsIdle);
    CountUpdate(s.workers, t, Became(p.pick), IsSlow);
    CountUpdate(Signal(s.workers, wake), t, Became(p.pick), IsIdle);
    CountUpdate(Signal(s.workers, wake), t, Became(p.pick), IsSlow);
  }

  lemma SectionCount(s: State, t: Tid, wake: set<Tid>)
    requires TokenInv(s.wq, s.slowq, s.tokenLinked, s.exitPosted)
    requires CountInv(s.workers, s.idle, s.running) && Enabled(s, Section(t, wake))
    ensures var r := RunSection(s, t, wake);
      && TokenInv(r.wq, r.slowq, r.tokenLinked, r.exitPosted)
      && CountInv(r.workers, r.idle, r.running)
  {
    hide Choose, PickHead, TokenInv, Moves;
    ChooseEffect(SharedOnLock(s, t), Threshold(|s.workers|), s.exitPosted);
    SectionCounts(s, t, Outcome(s, t), wake);
  }

  /** A worker that leaves hands its wakeup on: nobody, or somebody awake, is left. */
  lemma LeaveWake(ws: seq<Worker>, t: Tid, wake: set<Tid>)
    requires SignalOk(ws, wake) && t < |ws| && CanLock(ws[t])
    ensures var vs := Signal(ws, wake)[t := Exited]; SomeAwake(vs) || AllExited(vs)
  {
    var vs := Signal(ws, wake)[t := Exited];
    if u :| 0 <= u < |vs| && vs[u].Asleep? {
      assert IsAsleep(ws, u);
      var k :| k in wake;
      assert IsAsleep(ws, k);
      assert IsAwake(vs[k]);
    } else if u :| 0 <= u < |vs| && !vs[u].Exited? {
      assert IsAwake(vs[u]);
    }
  }

  /** Sleeping is only entered when there is nothing to do. */
  lemma SectionWake(s: State, t: Tid, wake: set<Tid>)
    requires TokenInv(s.wq, s.slowq, s.tokenLinked, s.exitPosted)
    requires WakeInv(s.workers, s.wq, s.running) && Enabled(s, Section(t, wake))
    ensures var r := RunSection(s, t, wake); WakeInv(r.workers, r.wq, r.running)
  {
    hide Choose, PickHead, TokenInv, Moves;
    var r := RunSection(s, t, wake);
    assert |r.workers| == |s.workers|;
    ChooseEffect(SharedOnLock(s, t), Threshold(|s.workers|), s.exitPosted);
    match Outcome(s, t).pick
    case Sleep =>
      assert !HasWork(r.wq, r.running, |r.workers|);
    case Leave =>
      LeaveWake(s.workers, t, wake);
    case Take(w, slow) =>
      assert IsAwake(r.workers[t]);
  }

  lemma TakeHeld(ws: seq<Worker>, vs: seq<Worker>, t: Tid, w: Wid, slow: bool, pl: Placing)
    requires HeldInv(ws, pl) && |vs| == |ws| && t < |ws| && CanLock(ws[t])
    requires w in pl ==> !pl[w].Held?
    requires vs[t] == Holding(w, slow)
    requires forall u :: 0 <= u < |ws| && u != t ==> vs[u] == ws[u] || (ws[u].Asleep? && vs[u].Woken?)
    ensures HeldInv(vs, pl[w := Held(t)])
  {
    MovedPlaces(pl, w, Held(t));
    forall u, v | 0 <= u < |vs|
      ensures Carries(vs[u], v) <==> Placed(pl[w := Held(t)], v, Held(u))
    {
      assert Carries(ws[u], v) <==> Placed(pl, v, Held(u));
      assert Carries(ws[t], v) <==> Placed(pl, v, Held(t));
    }
  }

  lemma TakeCarry(ws: seq<Worker>, vs: seq<Worker>, t: Tid, w: Wid, slow: bool,
                  reqs: map<Wid, Request>, ran: seq<Wid>)
    requires CarryInv(ws, reqs, ran) && |vs| == |ws| && t < |ws|
    requires w in reqs && w !in ran && (slow <==> reqs[w].kind.SlowIo?)
    requires vs[t] == Holding(w, slow)
    requires forall u :: 0 <= u < |ws| && u != t ==> vs[u] == ws[u] || (ws[u].Asleep? && vs[u].Woken?)
    ensures CarryInv(vs, reqs[w := reqs[w].(linked := false)], ran)
  {
  }

  /** Where the section takes its request from, and what it leaves. */
  lemma TakeQueues(s: State, t: Tid, wake: set<Tid>, pl: Placing)
    requires TokenInv(s.wq, s.slowq, s.tokenLinked, s.exitPosted) && QueueInv(s.wq, s.slowq, pl)
    requires Enabled(s, Section(t, wake)) && Outcome(s, t).pick.Take?
    ensures var p := Outcome(s, t);
      && Placed(pl, p.pick.w, if p.pick.slow then InSlow else InQueue)
      && QueueInv(p.shared.wq, p.shared.slowq, pl[p.pick.w := Held(t)])
  {
    hide Choose, PickHead, TokenInv, Stops;
    var p := Outcome(s, t);
    ChooseEffect(SharedOnLock(s, t), Threshold(|s.workers|), s.exitPosted);
    MovedPlaces(pl, p.pick.w, Held(t));
    if p.pick.slow {
      assert Placed(pl, p.pick.w, InSlow);
    } else {
      assert Placed(pl, p.pick.w, InQueue);
    }
  }

  lemma StayQueues(s: State, t: Tid, wake: set<Tid>, pl: Placing)
    requires TokenInv(s.wq, s.slowq, s.tokenLinked, s.exitPosted) && QueueInv(s.wq, s.slowq, pl)
    requires Enabled(s, Section(t, wake)) && !Outcome(s, t).pick.Take?
    ensures var p := Outcome(s, t); QueueInv(p.shared.wq, p.shared.slowq, pl)
  {
    hide Choose, PickHead, TokenInv, Stops;
    ChooseEffect(SharedOnLock(s, t), Threshold(|s.workers|), s.exitPosted);
  }

  lemma StayHeld(s: State, t: Tid, wake: set<Tid>, pl: Placing)
    requires HeldInv(s.workers, pl) && CarryInv(s.workers, s.reqs, s.ran)
    requires Enabled(s, Section(t, wake)) && !Outcome(s, t).pick.Take?
    ensures var vs := RunSection(s, t, wake).workers; HeldInv(vs, pl) && CarryInv(vs, s.reqs, s.ran)
  {
    hide Choose, PickHead, NoDup;
    var vs := RunSection(s, t, wake).workers;
    forall u, v | 0 <= u < |vs| ensures Carries(vs[u], v) <==> Placed(pl, v, Held(u)) {
      assert Carries(s.workers[u], v) <==> Placed(pl, v, Held(u));
    }
  }

  lemma SectionKeeps(s: State, a: Action, pl: Placing)
    requires Inv(s, pl) && Enabled(s, a) && a.Section?
    ensures Inv(Apply(s, a), Moved(s, a, pl))
  {
    hide TokenInv, CountInv, WakeInv, QueueInv, HeldInv, LoopInv, DoneInv, CarryInv, HomeInv, Choose, PickHead;
    var p := Outcome(s, a.t);
    SectionCount(s, a.t, a.wake);
    SectionWake(s, a.t, a.wake);
    if p.pick.Take? {
      var w := p.pick.w;
      var vs := Apply(s, a).workers;
      TakeQueues(s, a.t, a.wake, pl);
      assert Progress(s.reqs[w], pl[w], w in s.ran, w in s.cancelled, w in s.busy);
      var r := s.reqs[w].(linked := false);
      TakeHeld(s.workers, vs, a.t, w, p.pick.slow, pl);
      TakeCarry(s.workers, vs, a.t, w, p.pick.slow, s.reqs, s.ran);
      MoveKeepsLoops(s.loops, pl, w, Held(a.t));
      MoveKeepsHome(s.reqs, s.loops, s.loops, pl, w, Held(a.t), r);
      MoveKeepsProgress(s, pl, w, Held(a.t), r);
      MoveKeepsDone(s.done, s.reqs, pl, w, Held(a.t), r);
    } else {
      StayQueues(s, a.t, a.wake, pl);
      StayHeld(s, a.t, a.wake, pl);
    }
  }

  // ----- whole runs

  lemma StepKeeps(s: State, a: Action, pl: Placing)
    requires Inv(s, pl) && Enabled(s, a)
    ensures Inv(Apply(s, a), Moved(s, a, pl))
  {
    hide Inv, Apply, Moved;
    match a
    case Submit(_, _, _, _) => SubmitKeeps(s, a, pl);
    case Section(_, _) => SectionKeeps(s, a, pl);
    case CallWork(_) => CallWorkKeeps(s, a, pl);
    case Finish(_) => FinishKeeps(s, a, pl);
    case Spurious(_) => SpuriousKeeps(s, a, pl);
    case CancelBegin(_, _) => CancelBeginKeeps(s, a, pl);
    case CancelEnd(_) => CancelEndKeeps(s, a, pl);
    case Drain(_) => DrainKeeps(s, a, pl);
    case Done(_) => DoneKeeps(s, a, pl);
    case Shutdown(_) => ShutdownKeeps(s, a, pl);
  }

  lemma {:induction false} RunKeeps(s: State, run: seq<Action>, pl: Placing) returns (pl1: Placing)
    requires Inv(s, pl) && IsRun(s, run)
    ensures Inv(After(s, run), pl1)
    decreases |run|
  {
    hide Inv, Apply, Moved, Enabled;
    if run == [] {
      pl1 := pl;
    } else {
      StepKeeps(s, run[0], pl);
      pl1 := RunKeeps(Apply(s, run[0]), run[1..], Moved(s, run[0], pl));
    }
  }

  lemma {:induction false} InitCounts(n: nat)
    ensures var ws := seq(n, _ => Locking(false)); CountIdle(ws) == 0 && CountSlow(ws) == 0
  {
    if n > 0 {
      var ws: seq<Worker> := seq(n, _ => Locking(false));
      assert ws[1..] == seq(n - 1, _ => Locking(false));
      InitCounts(n - 1);
    }
  }

  lemma InitInv(n: nat, loops: set<LoopId>)
    requires n > 0
    ensures Inv(Init(n, loops), map[])
  {
    InitCounts(n);
    var s := Init(n, loops);
    assert IsAwake(s.workers[0]);
    assert Subjects(s.done) == [];
  }

  /** States reachable by some interleaving. */
  ghost predicate Reachable(n: nat, loops: set<LoopId>, s: State) {
    exists run :: IsRun(Init(n, loops), run) && s == After(Init(n, loops), run)
  }

  lemma ReachableInv(n: nat, loops: set<LoopId>, s: State) returns (pl: Placing)
    requires n > 0 && Reachable(n, loops, s)
    ensures Inv(s, pl)
  {
    var run :| IsRun(Init(n, loops), run) && s == After(Init(n, loops), run);
    InitInv(n, loops);
    pl := RunKeeps(Init(n, loops), run, map[]);
  }

  /** In every reachable state each submitted request is in exactly one place,
      and occurs only once there; nothing else is anywhere. */
  lemma ExactlyOnePlace(n: nat, loops: set<LoopId>, s: State, w: Wid)
    requires n > 0 && Reachable(n, loops, s)
    ensures w in s.reqs ==> exists p :: IsAt(s, w, p) && forall q :: IsAt(s, w, q) ==> q == p
    ensures w !in s.reqs ==> forall q :: !IsAt(s, w, q)
    ensures NoDup(s.wq) && NoDup(s.slowq) && NoDup(Subjects(s.done))
    ensures forall l :: l in s.loops ==> NoDup(s.loops[l].wq) && NoDup(s.loops[l].local)
  {
    hide CountInv, WakeInv, ProgressInv, CarryInv, NoDup;
    var pl := ReachableInv(n, loops, s);
    forall q ensures IsAt(s, w, q) <==> Placed(pl, w, q) && (AtLoop(q) ==> q.l in s.loops) {
      if AtLoop(q) && q.l in s.loops {
        assert LoopOk(s.loops[q.l], q.l, pl);
      }
    }
    if w in s.reqs {
      assert IsAt(s, w, pl[w]);
    }
    forall l | l in s.loops ensures NoDup(s.loops[l].wq) && NoDup(s.loops[l].local) {
      assert LoopOk(s.loops[l], l, pl);
    }
  }

  ghost predicate Grows(s: State, r: State) {
    && s.ran <= r.ran && s.done <= r.done && s.cancelled <= r.cancelled && s.busy <= r.busy
    && |r.workers| == |s.workers|
  }

  lemma LogsGrowByStep(s: State, a: Action)
    requires Enabled(s, a)
    ensures Grows(s, Apply(s, a))
  {
  }

  /** Logs only grow, and the workers stay the same. */
  lemma {:induction false} LogsGrow(s: State, run: seq<Action>)
    requires IsRun(s, run)
    ensures Grows(s, After(s, run))
    decreases |run|
  {
    hide Apply, Enabled;
    if run != [] {
      LogsGrowByStep(s, run[0]);
      LogsGrow(Apply(s, run[0]), run[1..]);
    }
  }

  lemma {:induction false} RunConcat(s: State, run: seq<Action>, more: seq<Action>)
    requires IsRun(s, run) && IsRun(After(s, run), more)
    ensures IsRun(s, run + more) && After(s, run + more) == After(After(s, run), more)
    decreases |run|
  {
    hide Apply, Enabled;
    if run == [] {
      assert run + more == more;
    } else {
      assert (run + more)[1..] == run[1..] + more;
      RunConcat(Apply(s, run[0]), run[1..], more);
    }
  }

  lemma ReachableLater(n: nat, loops: set<LoopId>, s: State, more: seq<Action>)
    requires Reachable(n, loops, s) && IsRun(s, more)
    ensures Reachable(n, loops, After(s, more))
  {
    var run :| IsRun(Init(n, loops), run) && s == After(Init(n, loops), run);
    RunConcat(Init(n, loops), run, more);
  }

  lemma VerdictsAgree(s: State, pl: Placing, v: Verdict)
    requires DoneInv(s.done, s.reqs, pl) && ProgressInv(s.reqs, s.ran, s.cancelled, s.busy, pl)
    requires v in s.done
    ensures v.canceled <==> v.w !in s.ran
    ensures v.canceled <==> v.w in s.cancelled
    ensures v.canceled ==> v.w !in s.busy
  {
    var i :| 0 <= i < |s.done| && s.done[i] == v;
    assert Subjects(s.done)[i] == v.w;
    assert Placed(pl, v.w, Gone);
    assert Progress(s.reqs[v.w], pl[v.w], v.w in s.ran, v.w in s.cancelled, v.w in s.busy);
  }

  /** A done callback is called at most once per request, a work function at most
      once, and the callback reports UV_ECANCELED exactly when the work function
      has not run. The report is final: whatever happens after state s, a request
      reported as cancelled is never run and never reported again. */
  lemma DoneIsFinal(n: nat, loops: set<LoopId>, s: State, more: seq<Action>, v: Verdict)
    requires n > 0 && Reachable(n, loops, s) && IsRun(s, more) && v in s.done
    ensures var r := After(s, more);
      && NoDup(Subjects(r.done)) && NoDup(r.ran) && v in r.done
      && (v.canceled <==> v.w !in r.ran)
      && (v.canceled <==> v.w in r.cancelled)
  {
    ReachableLater(n, loops, s, more);
    LogsGrow(s, more);
    var pl := ReachableInv(n, loops, After(s, more));
    VerdictsAgree(After(s, more), pl, v);
  }

  /** What uv_cancel answers is what happens: after 0 the work function never runs
      and done, when called, reports UV_ECANCELED; after UV_EBUSY the request is
      never cancelled, and done, when called, reports 0. No worker ever calls a
      cancelled request's function (which would abort). */
  lemma CancelAnswerIsFinal(n: nat, loops: set<LoopId>, s: State, more: seq<Action>, w: Wid)
    requires n > 0 && Reachable(n, loops, s) && IsRun(s, more)
    ensures var r := After(s, more);
      && (w in s.cancelled ==>
            w !in r.ran && w !in r.busy && forall v :: v in r.done && v.w == w ==> v.canceled)
      && (w in s.busy ==>
            w !in r.cancelled && forall v :: v in r.done && v.w == w ==> !v.canceled)
      && !r.aborted
  {
    ReachableLater(n, loops, s, more);
    LogsGrow(s, more);
    var r := After(s, more);
    var pl := ReachableInv(n, loops, r);
    forall v | v in r.done && v.w == w
      ensures (w in r.cancelled ==> v.canceled) && (w in r.busy ==> !v.canceled)
    {
      VerdictsAgree(r, pl, v);
    }
    if w in pl {
      assert Progress(r.reqs[w], pl[w], w in r.ran, w in r.cancelled, w in r.busy);
    }
  }

  /** Slow work is bounded, counted exactly, and always has its token queued. */
  lemma SlowWorkBounded(n: nat, loops: set<LoopId>, s: State)
    requires n > 0 && Reachable(n, loops, s)
    ensures s.running == CountSlow(s.workers) <= (n + 1) / 2
    ensures s.idle == CountIdle(s.workers)
    ensures NoDup(s.wq) && (s.tokenLinked <==> Token in s.wq)
    ensures s.slowq != [] ==> Token in s.wq
  {
    var run :| IsRun(Init(n, loops), run) && s == After(Init(n, loops), run);
    LogsGrow(Init(n, loops), run);
    var pl := ReachableInv(n, loops, s);
  }

  /** No lost wakeup: while there is something to do and a worker is left, some
      worker is awake, so a signal is never missed; this includes the exit message. */
  lemma NoLostWakeup(n: nat, loops: set<LoopId>, s: State, live: Tid)
    requires n > 0 && Reachable(n, loops, s)
    requires live < |s.workers| && !s.workers[live].Exited?
    requires HasWork(s.wq, s.running, |s.workers|)
    ensures exists t :: 0 <= t < |s.workers| && IsAwake(s.workers[t])
  {
    var pl := ReachableInv(n, loops, s);
  }

  predicate WorkerAction(a: Action, t: Tid) {
    (a.Section? || a.CallWork? || a.Finish?) && a.t == t
  }

  /** A worker that is awake can always take its next step. */
  lemma AwakeCanStep(s: State, pl: Placing, t: Tid) returns (a: Action)
    requires Inv(s, pl) && t < |s.workers| && IsAwake(s.workers[t])
    ensures WorkerAction(a, t) && Enabled(s, a)
  {
    if s.workers[t].Holding? {
      a := CallWork(t);
    } else if s.workers[t].Ran? {
      a := Finish(t);
    } else {
      var wake := set u: Tid | 0 <= u < |s.workers| && IsAsleep(s.workers, u);
      if u: Tid :| IsAsleep(s.workers, u) {
        assert u in wake;
      }
      a := Section(t, wake);
    }
  }

  /** The pool never gets stuck: as long as a request is queued and no worker has
      left, or the exit message heads the queue and some worker has not, a worker
      can step. Pending slow work is covered even at the threshold. */
  lemma NeverStuck(n: nat, loops: set<LoopId>, s: State)
    requires n > 0 && Reachable(n, loops, s)
    requires exists t :: 0 <= t < |s.workers| && !s.workers[t].Exited?
    requires (exists w :: Req(w) in s.wq) || s.slowq != [] || Exit in s.wq
    ensures exists t: Tid, a :: t < |s.workers| && WorkerAction(a, t) && Enabled(s, a)
  {
    var pl := ReachableInv(n, loops, s);
    var t: Tid;
    if HasWork(s.wq, s.running, |s.workers|) {
      assert SomeAwake(s.workers);
      t :| 0 <= t < |s.workers| && IsAwake(s.workers[t]);
    } else {
      assert s.running >= 1;
      t := CountSlowWitness(s.workers);
    }
    var a := AwakeCanStep(s, pl, t);
  }

  lemma QueueDistinct(n: nat, loops: set<LoopId>, s: State)
    requires n > 0 && Reachable(n, loops, s)
    ensures NoDup(s.wq)
  {
    var pl := ReachableInv(n, loops, s);
  }

  /** The shutdown chain: once the exit message heads the queue it stays there, a
      worker's next section makes that worker leave and changes no queue, and the
      signal it sends wakes a sleeper if there is one. */
  lemma ShutdownChain(n: nat, loops: set<LoopId>, s: State, a: Action)
    requires n > 0 && Reachable(n, loops, s) && Enabled(s, a)
    requires s.wq != [] && s.wq[0] == Exit
    ensures Apply(s, a).wq != [] && Apply(s, a).wq[0] == Exit
    ensures a.Section? ==>
      var r := Apply(s, a);
      && r.workers[a.t].Exited? && r.wq == s.wq && r.slowq == s.slowq
      && ((exists t :: IsAsleep(s.workers, t)) ==> exists t: Tid :: IsAsleep(s.workers, t) && r.workers[t].Woken?)
  {
    hide Inv;
    if a.CancelBegin? {
      QueueDistinct(n, loops, s);
      UnlinkEffect(s.wq, Req(a.w));
    }
    if a.Section? && exists t :: IsAsleep(s.workers, t) {
      var k :| k in a.wake;
      assert IsAsleep(s.workers, k);
      assert Apply(s, a).workers[k].Woken?;
    }
  }

  /** A result that is queued at a loop always has a wakeup of that loop pending. */
  lemma ResultsAreAnnounced(n: nat, loops: set<LoopId>, s: State, l: LoopId)
    requires n > 0 && Reachable(n, loops, s) && l in s.loops && s.loops[l].wq != []
    ensures s.loops[l].async
    ensures s.loops[l].gap.None? && s.loops[l].local == [] ==> Enabled(s, Drain(l))
  {
    var pl := ReachableInv(n, loops, s);
    assert LoopOk(s.loops[l], l, pl);
  }

  // ----- one loop's results

  function Withdrawn(lp: Loop, w: Wid): Loop {
    Loop(Unlink(lp.wq, w), Unlink(lp.local, w), Some(w), lp.async)
  }

  /** A uv_cancel that returns 0. */
  predicate Withdraws(s: State, a: Action, l: LoopId, w: Wid) {
    a == CancelBegin(l, w) && w in s.reqs && Cancellable(s.reqs[w])
  }

  ghost predicate Withdrew(s: State, run: seq<Action>, l: LoopId, w: Wid)
    requires IsRun(s, run)
    decreases |run|
  {
    run != [] && (Withdraws(s, run[0], l, w) || Withdrew(Apply(s, run[0]), run[1..], l, w))
  }

  lemma LoopAfter(s: State, a: Action, l: LoopId)
    requires Enabled(s, a) && l in s.loops && a != Drain(l) && a != Done(l)
    ensures l in Apply(s, a).loops
    ensures var lp, lp1 := s.loops[l], Apply(s, a).loops[l];
      || (lp1.local == lp.local && lp.wq <= lp1.wq && lp1.gap == lp.gap)
      || (a.CancelBegin? && a.l == l && Withdraws(s, a, l, a.w) && lp1 == Withdrawn(lp, a.w) && lp.gap.None?)
      || (lp.gap.Some? && lp1.local == lp.local && lp1.wq == lp.wq + [lp.gap.value])
  {
    hide RunSection, PostRequest, Enqueue, Unlink;
    if a.Submit? || a.Section? || a.Shutdown? {
      LoopsAlike(s, a);
    }
  }

  lemma LoopsAlike(s: State, a: Action)
    requires Enabled(s, a) && (a.Submit? || a.Section? || a.Shutdown?)
    ensures Apply(s, a).loops == s.loops
  {
    hide Choose, PickHead, Signal;
  }

  lemma SubjectsOf(done: seq<Verdict>, v: Verdict)
    ensures Subjects(done + [v]) == Subjects(done) + [v.w]
  {
  }

  lemma StartedStays(s: State, r: State)
    requires s.done <= r.done
    ensures forall w :: Started(s, w) ==> Started(r, w)
  {
    assert Subjects(s.done) <= Subjects(r.done);
  }

  /** A worker aborts exactly if it calls anything but the caller's function. */
  lemma CallAborts(s: State, t: Tid)
    requires Enabled(s, CallWork(t)) && s.workers[t].w in s.reqs
    ensures var r, w := Apply(s, CallWork(t)), s.workers[t].w;
      && (r.aborted <==> s.aborted || s.reqs[w].work == Null || s.reqs[w].work == Cancelled)
      && r.ran == s.ran + [w] && r.reqs == s.reqs
  {
  }
}
