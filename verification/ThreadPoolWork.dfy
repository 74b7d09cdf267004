/**
 Work conservation: as long as some worker sleeps, every request in the shared queue
 has an awake and free worker of its own, and so has pending slow work below the
 threshold.
 */
module ThreadPoolWork {
  import opened Sequences
  import opened ThreadPool
  import opened ThreadPoolProofs

  // ----- counting

  /** On its way to the shared queue: signalled, or done with its last request. */
  predicate IsFree(wk: Worker) { wk.Locking? || wk.Woken? }

  /** Has taken slow work and not yet queued its result. */
  predicate IsOnSlow(wk: Worker) { (wk.Holding? || wk.Ran?) && wk.slow }

  function Free(ws: seq<Worker>): nat { Count(ws, IsFree) }

  function OnSlow(ws: seq<Worker>): nat { Count(ws, IsOnSlow) }

  /** Whoever counts as running slow work is on it or free again. */
  lemma {:induction false} SlowSplit(ws: seq<Worker>)
    ensures OnSlow(ws) <= CountSlow(ws) <= OnSlow(ws) + Free(ws)
  {
    if ws != [] {
      SlowSplit(ws[1..]);
    }
  }

  lemma SignalFrees(ws: seq<Worker>, wake: set<Tid>)
    ensures OnSlow(Signal(ws, wake)) == OnSlow(ws)
    ensures Free(ws) <= Free(Signal(ws, wake))
    ensures SignalOk(ws, wake) && (exists t :: IsAsleep(ws, t)) ==> Free(ws) < Free(Signal(ws, wake))
  {
    var vs := Signal(ws, wake);
    CountSame(ws, vs, IsOnSlow);
    CountMore(ws, vs, IsFree);
    if SignalOk(ws, wake) && exists t :: IsAsleep(ws, t) {
      var k :| k in wake;
      assert IsAsleep(ws, k);
      assert IsFree(vs[k]) && !IsFree(ws[k]);
    }
  }

  /** The requests in the shared queue. */
  function Queued(q: seq<QNode>): nat {
    if q == [] then 0 else (if q[0].Req? then 1 else 0) + Queued(q[1..])
  }

  lemma {:induction false} QueuedAppend(q: seq<QNode>, x: QNode)
    ensures Queued(q + [x]) == Queued(q) + if x.Req? then 1 else 0
  {
    if q != [] {
      assert (q + [x])[1..] == q[1..] + [x];
      QueuedAppend(q[1..], x);
    }
  }

  lemma {:induction false} QueuedUnlink(q: seq<QNode>, x: QNode)
    ensures Queued(Unlink(q, x)) <= Queued(q)
    ensures Token in Unlink(q, x) ==> Token in q
  {
    if q != [] && q[0] != x {
      QueuedUnlink(q[1..], x);
      assert Unlink(q, x)[1..] == Unlink(q[1..], x);
      assert q == [q[0]] + q[1..];
    }
  }

  // ----- the invariant

  /** What free workers are wanted for: each request, and the token below the threshold. */
  function Demand(wq: seq<QNode>, onSlow: nat, nthreads: nat): nat {
    Queued(wq) + if Token in wq && onSlow < Threshold(nthreads) then 1 else 0
  }

  ghost predicate SomeAsleep(ws: seq<Worker>) {
    exists t :: IsAsleep(ws, t)
  }

  ghost predicate Conserves(s: State) {
    !s.exitPosted && SomeAsleep(s.workers) ==>
      Demand(s.wq, OnSlow(s.workers), |s.workers|) <= Free(s.workers)
  }

  // ----- the steps

  lemma EnqueueConserves(s: State, q: QNode, wake: set<Tid>)
    requires Conserves(s) && CountInv(s.workers, s.idle, s.running) && SignalOk(s.workers, wake)
    requires !s.exitPosted && (q == Token ==> Token !in s.wq)
    ensures Conserves(Enqueue(s, q, wake))
  {
    hide Count;
    var r := Enqueue(s, q, wake);
    QueuedAppend(s.wq, q);
    SignalFrees(s.workers, wake);
    if t :| IsAsleep(r.workers, t) {
      assert IsAsleep(s.workers, t);
      CountIdlePositive(s.workers, t);
    }
  }

  lemma SubmitConserves(s: State, a: Action)
    requires Conserves(s) && CountInv(s.workers, s.idle, s.running) && Enabled(s, a) && a.Submit?
    requires s.tokenLinked <==> Token in s.wq
    ensures Conserves(Apply(s, a))
  {
    hide Count, Demand, Queued;
    if !s.exitPosted {
      if !a.kind.SlowIo? {
        EnqueueConserves(s, Req(a.w), a.wake);
      } else if !s.tokenLinked {
        EnqueueConserves(s, Token, a.wake);
      }
    }
  }

  /** One worker changes, not to sleep, and becomes or stays as free as it was. */
  lemma WorkerConserves(s: State, t: Tid, wk: Worker)
    requires Conserves(s) && t < |s.workers| && !wk.Asleep?
    requires IsFree(s.workers[t]) ==> IsFree(wk)
    requires (if IsOnSlow(wk) then 0 else 1) <= (if IsOnSlow(s.workers[t]) then 0 else 1)
          || (IsFree(wk) && !IsFree(s.workers[t]))
    ensures Conserves(s.(workers := s.workers[t := wk]))
  {
    hide Count;
    CountUpdate(s.workers, t, wk, IsFree);
    CountUpdate(s.workers, t, wk, IsOnSlow);
    var vs := s.workers[t := wk];
    if u: Tid :| IsAsleep(vs, u) {
      assert IsAsleep(s.workers, u);
    }
  }

  /** What a worker's section does to the demand. */
  lemma ChooseDemand(q: Shared, threshold: nat)
    requires NoDup(q.wq)
    ensures var p := Choose(q, threshold);
      && Queued(p.shared.wq) + (if p.pick.Take? && !p.pick.slow then 1 else 0) == Queued(q.wq)
      && (Token in p.shared.wq ==> Token in q.wq)
      && (p.pick.Take? && p.pick.slow ==>
            Token in q.wq && q.running < threshold && (Token in p.shared.wq <==> p.signal))
      && (p.pick.Sleep? ==>
            Queued(p.shared.wq) == 0 && (Token in p.shared.wq ==> q.running >= threshold))
  {
    if q.wq != [] {
      NoDupRest(q.wq);
      QueuedAppend(q.wq[1..], Token);
      if q.wq[0] == Token {
        var rest := q.wq[1..];
        assert rest != [] ==> (rest + [Token])[0] == rest[0] && (rest + [Token])[1..] == rest[1..] + [Token];
        if rest != [] {
          QueuedAppend(rest[1..], Token);
          assert rest == [rest[0]] + rest[1..];
        }
      }
    }
  }

  /** The free workers after a section: one fewer, and one more for a signal. */
  lemma SectionFree(s: State, t: Tid, wake: set<Tid>)
    requires Enabled(s, Section(t, wake))
    ensures var vs := RunSection(s, t, wake).workers;
      var p := Outcome(s, t);
      && |vs| == |s.workers|
      && OnSlow(vs) == OnSlow(s.workers) + (if p.pick.Take? && p.pick.slow then 1 else 0)
      && Free(vs) >= Free(s.workers) - 1
      && (Signals(p, IdleOnLock(s, t)) && SomeAsleep(s.workers) ==> Free(vs) >= Free(s.workers))
      && (SomeAsleep(vs) && !p.pick.Sleep? ==> SomeAsleep(s.workers))
  {
    hide Choose, PickHead, Count, NoDup;
    var ws, p := s.workers, Outcome(s, t);
    SignalFrees(ws, wake);
    CountUpdate(ws, t, Became(p.pick), IsFree);
    CountUpdate(ws, t, Became(p.pick), IsOnSlow);
    CountUpdate(Signal(ws, wake), t, Became(p.pick), IsFree);
    CountUpdate(Signal(ws, wake), t, Became(p.pick), IsOnSlow);
    var vs := RunSection(s, t, wake).workers;
    assert Signal(ws, wake)[t] == ws[t];
    if u :| IsAsleep(vs, u) && !p.pick.Sleep? {
      assert IsAsleep(ws, u);
    }
  }

  lemma SectionConserves(s: State, t: Tid, wake: set<Tid>, pl: Placing)
    requires Inv(s, pl) && Conserves(s) && Enabled(s, Section(t, wake))
    ensures Conserves(RunSection(s, t, wake))
  {
    hide Choose, PickHead, Count, NoDup, Queued;
    hide QueueInv, HeldInv, LoopInv, HomeInv, ProgressInv, CarryInv, DoneInv, WakeInv;
    var p, ws := Outcome(s, t), s.workers;
    ChooseDemand(SharedOnLock(s, t), Threshold(|ws|));
    SectionFree(s, t, wake);
    SlowOnLock(s, t);
    var r := RunSection(s, t, wake);
    if !r.exitPosted && SomeAsleep(r.workers) {
      if p.pick.Sleep? {
        SectionCounts(s, t, p, wake);
        SlowSplit(r.workers);
      } else if p.pick.Take? && p.pick.slow && p.signal {
        AsleepIsIdle(s, t);
      } else {
        NotLeaving(s, t);
      }
    }
  }

  /** slow_io_work_running, as the section sees it, covers the workers on slow work. */
  lemma SlowOnLock(s: State, t: Tid)
    requires CountInv(s.workers, s.idle, s.running) && t < |s.workers| && CanLock(s.workers[t])
    ensures OnSlow(s.workers) <= RunningOnLock(s, t)
  {
    hide Count;
    var vs := s.workers[t := Woken];
    CountUpdate(s.workers, t, Woken, IsSlow);
    CountUpdate(s.workers, t, Woken, IsOnSlow);
    SlowSplit(vs);
  }

  lemma AsleepIsIdle(s: State, t: Tid)
    requires CountInv(s.workers, s.idle, s.running) && t < |s.workers| && SomeAsleep(s.workers)
    requires !s.workers[t].Asleep?
    ensures IdleOnLock(s, t) > 0
  {
    var u: Tid :| IsAsleep(s.workers, u);
    CountUpdate(s.workers, t, Locking(false), IsIdle);
    assert IsIdle(s.workers[t := Locking(false)][u]);
    CountIdlePositive(s.workers[t := Locking(false)], u);
  }

  lemma NotLeaving(s: State, t: Tid)
    requires TokenInv(s.wq, s.slowq, s.tokenLinked, s.exitPosted) && t < |s.workers| && !s.exitPosted
    ensures !Outcome(s, t).pick.Leave?
  {
    hide Choose, PickHead, TokenInv, Moves;
    ChooseEffect(SharedOnLock(s, t), Threshold(|s.workers|), s.exitPosted);
    NoExit(s, t);
  }

  lemma NoExit(s: State, t: Tid)
    requires TokenInv(s.wq, s.slowq, s.tokenLinked, s.exitPosted) && t < |s.workers| && !s.exitPosted
    ensures Exit !in Outcome(s, t).shared.wq
  {
    hide Choose, PickHead, Moves, Stops;
    ChooseEffect(SharedOnLock(s, t), Threshold(|s.workers|), s.exitPosted);
  }

  lemma CancelConserves(s: State, a: Action)
    requires Conserves(s) && Enabled(s, a) && a.CancelBegin?
    ensures Conserves(Apply(s, a))
  {
    hide Count, Queued;
    QueuedUnlink(s.wq, Req(a.w));
  }

  lemma StepConserves(s: State, a: Action, pl: Placing)
    requires Inv(s, pl) && Conserves(s) && Enabled(s, a)
    ensures Conserves(Apply(s, a))
  {
    hide Count, Queued, Demand, QueueInv, HeldInv, LoopInv, HomeInv, ProgressInv, CarryInv, DoneInv, WakeInv;
    match a
    case Submit(_, _, _, _) => SubmitConserves(s, a);
    case Section(t, wake) => SectionConserves(s, t, wake, pl);
    case CallWork(t) => WorkerConserves(s, t, Ran(s.workers[t].w, s.workers[t].slow));
    case Finish(t) => WorkerConserves(s, t, Locking(s.workers[t].slow));
    case Spurious(t) => WorkerConserves(s, t, Woken);
    case CancelBegin(_, _) => CancelConserves(s, a);
    case CancelEnd(_) =>
    case Drain(_) =>
    case Done(_) =>
    case Shutdown(_) =>
  }

  lemma {:induction false} RunConserves(s: State, run: seq<Action>, pl: Placing)
    requires Inv(s, pl) && Conserves(s) && IsRun(s, run)
    ensures Conserves(After(s, run))
    decreases |run|
  {
    hide Inv, Apply, Moved, Enabled, Conserves;
    if run != [] {
      StepKeeps(s, run[0], pl);
      StepConserves(s, run[0], pl);
      RunConserves(Apply(s, run[0]), run[1..], Moved(s, run[0], pl));
    }
  }

  // ----- the theorem

  /** Until shutdown, and as long as some worker sleeps: there are at least as many workers
      signalled or on their way back to the queue as there are requests in it, and one more
      if slow work is pending and fewer than the threshold are on it. */
  lemma WorkConserving(n: nat, loops: set<LoopId>, s: State)
    requires n > 0 && Reachable(n, loops, s) && !s.exitPosted && SomeAsleep(s.workers)
    ensures Queued(s.wq) + (if s.slowq != [] && OnSlow(s.workers) < (n + 1) / 2 then 1 else 0) <= Free(s.workers)
  {
    hide Inv, Apply, Enabled, Count, Queued;
    var run :| IsRun(Init(n, loops), run) && s == After(Init(n, loops), run);
    InitInv(n, loops);
    RunConserves(Init(n, loops), run, map[]);
    LogsGrow(Init(n, loops), run);
    SlowWorkBounded(n, loops, s);
  }
}
