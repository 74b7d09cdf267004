/**
 The worker pool of threadpool.c as a transition system: one action per critical
 section, plus the calls of a request's work function and spurious wakeups.

 Every critical section is atomic, so in every state of the model the global
 mutex and all loop mutexes are free. A step that may signal the condition
 variable carries the set of sleepers the signal wakes.
 */
module ThreadPool {
  import opened Common
  import opened Sequences

  type Tid = nat
  type Wid = nat
  type LoopId = nat

  datatype Kind = Cpu | FastIo | SlowIo

  /** A node of the shared queue: `run_slow_work_message`, `exit_message` or a request. */
  datatype QNode = Token | Exit | Req(w: Wid)

  /** The `work` pointer of a request: the caller's function, NULL, or `uv__cancelled`. */
  datatype WorkField = Func | Null | Cancelled

  /** `linked` is the negation of the self-link test that `uv__queue_empty(&w->wq)` makes. */
  datatype Request = Request(loop: LoopId, kind: Kind, work: WorkField, linked: bool)

  datatype Worker =
    | Locking(slow: bool)            // about to lock the global mutex
    | Asleep                         // in uv_cond_wait, not signalled
    | Woken                          // signalled (or woken spuriously), about to relock
    | Holding(w: Wid, slow: bool)    // took a request, has not called its function
    | Ran(w: Wid, slow: bool)        // called the function, has not queued the result
    | Exited

  /** `wq` is loop->wq, `local` the queue uv__work_done is emptying, `gap` the
      request a uv__work_cancel call holds between its two critical sections,
      `async` a pending uv_async_send. */
  datatype Loop = Loop(wq: seq<Wid>, local: seq<Wid>, gap: Option<Wid>, async: bool)

  /** One call of a `done` callback. */
  datatype Verdict = Verdict(w: Wid, canceled: bool)

  datatype State = State(
    wq: seq<QNode>,
    slowq: seq<Wid>,
    tokenLinked: bool,               // !uv__queue_empty(&run_slow_work_message)
    idle: int,                       // idle_threads
    running: int,                    // slow_io_work_running
    workers: seq<Worker>,
    reqs: map<Wid, Request>,
    loops: map<LoopId, Loop>,
    exitPosted: bool,
    aborted: bool,                   // a worker called NULL or uv__cancelled
    ran: seq<Wid>,                   // calls of work functions, in order
    done: seq<Verdict>,              // calls of done callbacks, in order
    cancelled: set<Wid>,             // requests for which some uv_cancel returned 0
    busy: set<Wid>                   // requests for which some uv_cancel returned UV_EBUSY
  )

  datatype Action =
    | Submit(l: LoopId, w: Wid, kind: Kind, wake: set<Tid>)
    | Section(t: Tid, wake: set<Tid>)
    | CallWork(t: Tid)
    | Finish(t: Tid)
    | Spurious(t: Tid)
    | CancelBegin(l: LoopId, w: Wid)
    | CancelEnd(l: LoopId)
    | Drain(l: LoopId)
    | Done(l: LoopId)
    | Shutdown(wake: set<Tid>)

  function Threshold(nthreads: nat): nat {
    (nthreads + 1) / 2
  }

  // ----- the condition variable

  predicate IsAsleep(ws: seq<Worker>, t: Tid) {
    t < |ws| && ws[t].Asleep?
  }

  /** uv_cond_signal wakes at least one sleeper when there is one. */
  predicate SignalOk(ws: seq<Worker>, wake: set<Tid>) {
    && (forall t | t in wake :: IsAsleep(ws, t))
    && ((exists t: Tid | t < |ws| :: IsAsleep(ws, t)) ==> wake != {})
  }

  function Signal(ws: seq<Worker>, wake: set<Tid>): (r: seq<Worker>)
    ensures |r| == |ws|
  {
    seq(|ws|, t requires 0 <= t < |ws| => if t in wake && ws[t].Asleep? then Woken else ws[t])
  }

  // ----- posting

  /** The tail of post(): append to the shared queue and signal if a thread is idle. */
  function Enqueue(s: State, q: QNode, wake: set<Tid>): State {
    s.(wq := s.wq + [q],
       workers := if s.idle > 0 then Signal(s.workers, wake) else s.workers)
  }

  function PostRequest(s: State, w: Wid, kind: Kind, wake: set<Tid>): State {
    if kind.SlowIo? then
      var s1 := s.(slowq := s.slowq + [w]);
      if s.tokenLinked then s1 else Enqueue(s1.(tokenLinked := true), Token, wake)
    else
      Enqueue(s, Req(w), wake)
  }

  // ----- the worker's critical section

  datatype Pick = Sleep | Leave | Take(w: Wid, slow: bool)

  /** The shared variables one pass of the worker loop reads and writes. */
  datatype Shared = Shared(wq: seq<QNode>, slowq: seq<Wid>, tokenLinked: bool, running: int)

  datatype Picked = Picked(pick: Pick, shared: Shared, signal: bool)

  /** What a worker does when the queue is empty or its head is not the token. */
  function PickHead(q: Shared): Picked
    requires q.wq != [] ==> q.wq[0] != Token
  {
    if q.wq == [] then Picked(Sleep, q, false)
    else match q.wq[0]
      case Exit => Picked(Leave, q, true)
      case Req(w) => Picked(Take(w, false), q.(wq := q.wq[1..]), false)
  }

  /** From locking the mutex to releasing it: the closed form of the worker's
      for(;;) loop up to the next wait, exit or unlock. */
  function Choose(q: Shared, threshold: nat): Picked
    requires NoDup(q.wq)
  {
    if q.wq == [] || q.wq[0] != Token then
      PickHead(q)
    else if q.running >= threshold then
      if |q.wq| == 1 then Picked(Sleep, q, false)
      else
        assert q.wq[1] in q.wq[1..];
        PickHead(q.(wq := q.wq[1..] + [Token]))
    else if q.slowq == [] then
      assert |q.wq| > 1 ==> q.wq[1] in q.wq[1..];
      PickHead(q.(wq := q.wq[1..], tokenLinked := false))
    else
      var more := |q.slowq| > 1;
      Picked(Take(q.slowq[0], true),
             Shared(if more then q.wq[1..] + [Token] else q.wq[1..], q.slowq[1..], more, q.running + 1),
             more)
  }

  predicate CanLock(wk: Worker) {
    wk.Locking? || wk.Woken?
  }

  /** idle_threads once worker t holds the mutex again. */
  function IdleOnLock(s: State, t: Tid): int
    requires t < |s.workers|
  {
    if s.workers[t].Woken? then s.idle - 1 else s.idle
  }

  /** slow_io_work_running once worker t holds the mutex again. */
  function RunningOnLock(s: State, t: Tid): int
    requires t < |s.workers|
  {
    if s.workers[t].Locking? && s.workers[t].slow then s.running - 1 else s.running
  }

  function SharedOnLock(s: State, t: Tid): Shared
    requires t < |s.workers|
  {
    Shared(s.wq, s.slowq, s.tokenLinked, RunningOnLock(s, t))
  }

  /** The outcome of worker t's next critical section. */
  function Outcome(s: State, t: Tid): Picked
    requires t < |s.workers| && NoDup(s.wq)
  {
    Choose(SharedOnLock(s, t), Threshold(|s.workers|))
  }

  function Became(p: Pick): Worker {
    match p
    case Sleep => Asleep
    case Leave => Exited
    case Take(w, slow) => Holding(w, slow)
  }

  predicate Signals(p: Picked, idle: int) {
    p.signal && (p.pick.Leave? || idle > 0)
  }

  function WorkersAfter(s: State, t: Tid, p: Picked, wake: set<Tid>): seq<Worker>
    requires t < |s.workers|
  {
    (if Signals(p, IdleOnLock(s, t)) then Signal(s.workers, wake) else s.workers)[t := Became(p.pick)]
  }

  function ReqsAfter(reqs: map<Wid, Request>, p: Pick): map<Wid, Request> {
    if p.Take? && p.w in reqs then reqs[p.w := reqs[p.w].(linked := false)] else reqs
  }

  function RunSection(s: State, t: Tid, wake: set<Tid>): State
    requires t < |s.workers| && NoDup(s.wq)
  {
    var p := Outcome(s, t);
    s.(wq := p.shared.wq, slowq := p.shared.slowq,
       tokenLinked := p.shared.tokenLinked, running := p.shared.running,
       idle := IdleOnLock(s, t) + (if p.pick.Sleep? then 1 else 0),
       workers := WorkersAfter(s, t, p, wake),
       reqs := ReqsAfter(s.reqs, p.pick))
  }

  // ----- cancelling

  predicate Cancellable(r: Request) {
    r.linked && r.work != Null
  }

  function Subjects(done: seq<Verdict>): seq<Wid> {
    seq(|done|, i requires 0 <= i < |done| => done[i].w)
  }

  /** A done callback for w has been called. */
  predicate Started(s: State, w: Wid) {
    w in Subjects(s.done)
  }

  function BeginCancel(s: State, l: LoopId, w: Wid): State
    requires l in s.loops && w in s.reqs
  {
    if !Cancellable(s.reqs[w]) then s.(busy := s.busy + {w})
    else
      var lp := s.loops[l];
      s.(wq := Unlink(s.wq, Req(w)),
         slowq := Unlink(s.slowq, w),
         loops := s.loops[l := Loop(Unlink(lp.wq, w), Unlink(lp.local, w), Some(w), lp.async)],
         cancelled := s.cancelled + {w})
  }

  // ----- actions

  predicate LoopFree(s: State, l: LoopId) {
    l in s.loops && s.loops[l].gap.None?
  }

  predicate Enabled(s: State, a: Action) {
    match a
    case Submit(l, w, kind, wake) => l in s.loops && w !in s.reqs && SignalOk(s.workers, wake)
    case Section(t, wake) =>
      t < |s.workers| && CanLock(s.workers[t]) && NoDup(s.wq) && SignalOk(s.workers, wake)
    case CallWork(t) => t < |s.workers| && s.workers[t].Holding?
    case Finish(t) =>
      t < |s.workers| && s.workers[t].Ran? && s.workers[t].w in s.reqs
      && s.reqs[s.workers[t].w].loop in s.loops
    case Spurious(t) => IsAsleep(s.workers, t)
    case CancelBegin(l, w) =>
      LoopFree(s, l) && w in s.reqs && s.reqs[w].loop == l && !Started(s, w)
    case CancelEnd(l) => l in s.loops && s.loops[l].gap.Some? && s.loops[l].gap.value in s.reqs
    case Drain(l) => LoopFree(s, l) && s.loops[l].local == [] && s.loops[l].async
    case Done(l) => LoopFree(s, l) && s.loops[l].local != [] && s.loops[l].local[0] in s.reqs
    case Shutdown(wake) => !s.exitPosted && SignalOk(s.workers, wake)
  }

  function QueueResult(s: State, l: LoopId, w: Wid, work: WorkField): State
    requires l in s.loops && w in s.reqs
  {
    s.(reqs := s.reqs[w := s.reqs[w].(work := work, linked := true)],
       loops := s.loops[l := s.loops[l].(wq := s.loops[l].wq + [w], async := true)])
  }

  ghost function Apply(s: State, a: Action): State
    requires Enabled(s, a)
  {
    match a
    case Submit(l, w, kind, wake) =>
      PostRequest(s.(reqs := s.reqs[w := Request(l, kind, Func, true)]), w, kind, wake)
    case Section(t, wake) => RunSection(s, t, wake)
    case CallWork(t) =>
      var w := s.workers[t].w;
      var ok := w in s.reqs && s.reqs[w].work.Func?;
      s.(workers := s.workers[t := Ran(w, s.workers[t].slow)], ran := s.ran + [w],
         aborted := s.aborted || !ok)
    case Finish(t) =>
      var w := s.workers[t].w;
      QueueResult(s, s.reqs[w].loop, w, Null)
        .(workers := s.workers[t := Locking(s.workers[t].slow)])
    case Spurious(t) => s.(workers := s.workers[t := Woken])
    case CancelBegin(l, w) => BeginCancel(s, l, w)
    case CancelEnd(l) =>
      var w := s.loops[l].gap.value;
      var s1 := QueueResult(s, l, w, Cancelled);
      s1.(loops := s1.loops[l := s1.loops[l].(gap := None)])
    case Drain(l) =>
      s.(loops := s.loops[l := s.loops[l].(local := s.loops[l].wq, wq := [], async := false)])
    case Done(l) =>
      var w := s.loops[l].local[0];
      s.(loops := s.loops[l := s.loops[l].(local := s.loops[l].local[1..])],
         done := s.done + [Verdict(w, s.reqs[w].work.Cancelled?)])
    case Shutdown(wake) => Enqueue(s.(exitPosted := true), Exit, wake)
  }

  /** init_threads with nthreads workers, for a set of loops. */
  function Init(nthreads: nat, loops: set<LoopId>): State {
    State([], [], false, 0, 0, seq(nthreads, _ => Locking(false)), map[],
          map l | l in loops :: Loop([], [], None, false),
          false, false, [], [], {}, {})
  }

  /** Every prefix of the interleaving is enabled in turn. */
  ghost predicate IsRun(s: State, run: seq<Action>)
    decreases |run|
  {
    run == [] || (Enabled(s, run[0]) && IsRun(Apply(s, run[0]), run[1..]))
  }

  ghost function After(s: State, run: seq<Action>): State
    requires IsRun(s, run)
    decreases |run|
  {
    if run == [] then s else After(Apply(s, run[0]), run[1..])
  }
}
