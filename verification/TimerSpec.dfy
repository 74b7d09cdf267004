/**
 Timers as values: what each operation of timer.c does to a loop's clock, handles
 and ready queue, and what one uv__run_timers pass does whatever its callbacks do.
 */
module TimerSpec {
  import opened Nodes
  import opened Sequences
  import opened HeapOrder

  const U64: nat := 0x1_0000_0000_0000_0000

  datatype Timer = Timer(timeout: nat, startId: nat, repeat: nat, callback: nat,
                         active: bool, ref: bool, closing: bool)

  /** `ready` is the queue of timers that are due but not yet called; `handles` is
      loop->active_handles, as far as timers are concerned. */
  datatype World = World(time: nat, counter: nat, timers: map<Node, Timer>, ready: seq<Node>, handles: int)

  // ----- the operations

  function Set(w: World, t: Node, r: Timer): World {
    w.(timers := w.timers[t := r])
  }

  /** uv_timer_stop */
  function Stop(w: World, t: Node): World
    requires t in w.timers
  {
    var r := w.timers[t];
    if r.active then
      Set(w, t, r.(active := false)).(handles := if r.ref then w.handles - 1 else w.handles)
    else w.(ready := Unlink(w.ready, t))
  }

  /** The 64-bit sum as the code clamps it. */
  function Deadline(time: nat, timeout: nat): nat {
    var sum := (time + timeout) % U64;
    if sum < timeout then U64 - 1 else sum
  }

  lemma DeadlineSaturates(time: nat, timeout: nat)
    requires time < U64 && timeout < U64
    ensures Deadline(time, timeout) ==
      if time + timeout < 0x1_0000_0000_0000_0000 then time + timeout else 0xFFFF_FFFF_FFFF_FFFF
  {
  }

  predicate Refuses(r: Timer, callback: nat) {
    r.closing || callback == 0
  }

  /** An inactive timer becomes active, with a new start id. */
  function Arm(w: World, t: Node, callback: nat, deadline: nat, repeat: nat): World
    requires t in w.timers
  {
    var r := w.timers[t];
    Set(w, t, Timer(deadline, w.counter, repeat, callback, true, r.ref, r.closing))
      .(counter := w.counter + 1, handles := if r.ref then w.handles + 1 else w.handles)
  }

  /** uv_timer_start; refused calls return UV_EINVAL. */
  function Start(w: World, t: Node, callback: nat, timeout: nat, repeat: nat): World
    requires t in w.timers
  {
    if Refuses(w.timers[t], callback) then w
    else Arm(Stop(w, t), t, callback, Deadline(w.time, timeout), repeat)
  }

  /** uv_timer_again */
  function Again(w: World, t: Node): World
    requires t in w.timers
  {
    var r := w.timers[t];
    if r.callback == 0 || r.repeat == 0 then w
    else Start(Stop(w, t), t, r.callback, r.repeat, r.repeat)
  }

  /** uv_close on a timer, up to uv__timer_close. */
  function Close(w: World, t: Node): World
    requires t in w.timers
  {
    Stop(Set(w, t, w.timers[t].(closing := true)), t)
  }

  /** uv__finish_close on a timer: the loop knows it no longer, and it can be initialised
      again. */
  function Forget(w: World, t: Node): World {
    w.(timers := w.timers - {t})
  }

  /** uv__handle_ref and uv__handle_unref */
  function SetRef(w: World, t: Node, ref: bool): World
    requires t in w.timers
  {
    var r := w.timers[t];
    if r.ref == ref then w
    else
      var s := Set(w, t, r.(ref := ref));
      if r.closing || !r.active then s else s.(handles := if ref then w.handles + 1 else w.handles - 1)
  }

  /** uv_timer_init adds an inactive, referenced timer without a callback. The start id
      is not set: it is whatever the memory holds. */
  function InitOf(w: World, t: Node, startId: nat): World {
    Set(w, t, Timer(0, startId, 0, 0, false, true, false))
  }

  /** What a callback can do to the timers of its loop and to the loop's clock. */
  datatype Op =
    | OpInit(t: Node, startId: nat)
    | OpStart(t: Node, callback: nat, timeout: nat, repeat: nat)
    | OpStop(t: Node)
    | OpAgain(t: Node)
    | OpSetRepeat(t: Node, repeat: nat)
    | OpSetRef(t: Node, ref: bool)
    | OpClose(t: Node)
    | OpSetTime(now: nat)

  /** Operations are on timers that have been initialised, and only once. */
  predicate OpOk(keys: set<Node>, op: Op) {
    match op
    case OpInit(t, _) => t !in keys
    case OpStart(t, _, timeout, repeat) => t in keys && timeout < U64 && repeat < U64
    case OpSetRepeat(t, repeat) => t in keys && repeat < U64
    case OpSetTime(now) => now < U64
    case _ => op.t in keys
  }

  /** The timers known after an operation. */
  function Known(keys: set<Node>, op: Op): set<Node> {
    if op.OpInit? then keys + {op.t} else keys
  }

  function Exec(w: World, op: Op): World
    requires OpOk(w.timers.Keys, op)
  {
    match op
    case OpInit(t, startId) => InitOf(w, t, startId)
    case OpStart(t, callback, timeout, repeat) => Start(w, t, callback, timeout, repeat)
    case OpStop(t) => Stop(w, t)
    case OpAgain(t) => Again(w, t)
    case OpSetRepeat(t, repeat) => Set(w, t, w.timers[t].(repeat := repeat))
    case OpSetRef(t, ref) => SetRef(w, t, ref)
    case OpClose(t) => Close(w, t)
    case OpSetTime(now) => w.(time := now)
  }

  // ----- the invariant

  function Counted(r: Timer): nat { if r.active && r.ref then 1 else 0 }

  ghost function Referenced(timers: map<Node, Timer>): set<Node> {
    set t | t in timers && timers[t].active && timers[t].ref
  }

  ghost predicate TimerOk(r: Timer, counter: nat) {
    && r.repeat < U64 && r.timeout < U64
    && (r.active ==> r.startId < counter && r.callback != 0 && !r.closing)
  }

  /** No two active timers share a start id, so the heap order is total on them. */
  ghost predicate UniqueIds(timers: map<Node, Timer>) {
    forall t, u :: t in timers && u in timers && t != u && timers[t].active && timers[u].active
      ==> timers[t].startId != timers[u].startId
  }

  /** Timers in the ready queue have left the heap and still have their callback. */
  ghost predicate ReadyOk(ready: seq<Node>, timers: map<Node, Timer>) {
    && NoDup(ready)
    && forall t :: t in ready ==> t in timers && !timers[t].active && !timers[t].closing && timers[t].callback != 0
  }

  ghost predicate TimersOk(timers: map<Node, Timer>, counter: nat) {
    forall t :: t in timers ==> TimerOk(timers[t], counter)
  }

  /** In every state: closing timers are inactive, and active_handles counts exactly
      the timers that are active and referenced. */
  ghost predicate Inv(w: World) {
    && w.time < U64
    && TimersOk(w.timers, w.counter)
    && UniqueIds(w.timers)
    && ReadyOk(w.ready, w.timers)
    && w.handles == |Referenced(w.timers)|
  }

  lemma ReferencedAfter(timers: map<Node, Timer>, t: Node, r: Timer)
    requires t in timers
    ensures |Referenced(timers[t := r])| == |Referenced(timers)| - Counted(timers[t]) + Counted(r)
  {
    var a, b := Referenced(timers), Referenced(timers[t := r]);
    assert a - {t} == b - {t};
    if t in a { assert a == (a - {t}) + {t}; }
    if t in b { assert b == (b - {t}) + {t}; }
  }

  lemma StopKeeps(w: World, t: Node)
    requires Inv(w) && t in w.timers
    ensures Inv(Stop(w, t)) && t !in Stop(w, t).ready && Stop(w, t).timers.Keys == w.timers.Keys
    ensures Stop(w, t).timers[t] == w.timers[t].(active := false)
  {
    var r := w.timers[t];
    if r.active {
      ReferencedAfter(w.timers, t, r.(active := false));
    } else {
      UnlinkedReady(w.ready, w.timers, t);
      assert w.timers[t := r] == w.timers;
    }
  }

  lemma UnlinkedReady(ready: seq<Node>, timers: map<Node, Timer>, t: Node)
    requires ReadyOk(ready, timers)
    ensures ReadyOk(Unlink(ready, t), timers) && t !in Unlink(ready, t)
  {
    UnlinkEffect(ready, t);
    forall u | u in Unlink(ready, t)
      ensures u in timers && !timers[u].active && !timers[u].closing && timers[u].callback != 0
    {
      assert u in ready;
    }
  }

  lemma StartKeeps(w: World, t: Node, callback: nat, timeout: nat, repeat: nat)
    requires Inv(w) && t in w.timers && timeout < U64 && repeat < U64
    ensures Inv(Start(w, t, callback, timeout, repeat))
    ensures Start(w, t, callback, timeout, repeat).timers.Keys == w.timers.Keys
  {
    if !Refuses(w.timers[t], callback) {
      var s := Stop(w, t);
      StopKeeps(w, t);
      DeadlineSaturates(s.time, timeout);
      ReferencedAfter(s.timers, t, Start(w, t, callback, timeout, repeat).timers[t]);
    }
  }

  lemma AgainKeeps(w: World, t: Node)
    requires Inv(w) && t in w.timers
    ensures Inv(Again(w, t)) && Again(w, t).timers.Keys == w.timers.Keys
  {
    hide Inv, Stop, Start;
    RepeatBound(w, t);
    StopKeeps(w, t);
    StartKeeps(Stop(w, t), t, w.timers[t].callback, w.timers[t].repeat, w.timers[t].repeat);
  }

  lemma RepeatBound(w: World, t: Node)
    requires Inv(w) && t in w.timers
    ensures w.timers[t].repeat < U64
  {
  }

  lemma CloseKeeps(w: World, t: Node)
    requires Inv(w) && t in w.timers
    ensures Inv(Close(w, t)) && Close(w, t).timers.Keys == w.timers.Keys
  {
    var r := w.timers[t].(closing := true);
    if r.active {
      assert Close(w, t).timers == w.timers[t := r.(active := false)];
      ReferencedAfter(w.timers, t, r.(active := false));
    } else {
      ReferencedAfter(w.timers, t, r);
      UnlinkedReady(w.ready, w.timers, t);
    }
  }

  /** A closing timer is in no queue and not counted, whatever was done to it since. */
  lemma FinishCloseKeeps(w: World, t: Node)
    requires Inv(w) && t in w.timers && w.timers[t].closing
    ensures Inv(Forget(w, t)) && Forget(w, t).timers.Keys == w.timers.Keys - {t}
    ensures !w.timers[t].active && t !in w.ready
    ensures Forget(SetRef(w, t, false), t) == Forget(w, t)
  {
    assert Referenced(Forget(w, t).timers) == Referenced(w.timers);
    var r := w.timers[t].(ref := false);
    assert w.timers[t := r] - {t} == w.timers - {t};
  }

  lemma SetRefKeeps(w: World, t: Node, ref: bool)
    requires Inv(w) && t in w.timers
    ensures Inv(SetRef(w, t, ref)) && SetRef(w, t, ref).timers.Keys == w.timers.Keys
  {
    ReferencedAfter(w.timers, t, w.timers[t].(ref := ref));
  }

  lemma SetRepeatKeeps(w: World, t: Node, repeat: nat)
    requires Inv(w) && t in w.timers && repeat < U64
    ensures Inv(Set(w, t, w.timers[t].(repeat := repeat)))
  {
    ReferencedAfter(w.timers, t, w.timers[t].(repeat := repeat));
  }

  lemma InitKeeps(w: World, t: Node, startId: nat)
    requires Inv(w) && t !in w.timers
    ensures Inv(InitOf(w, t, startId)) && InitOf(w, t, startId).timers.Keys == w.timers.Keys + {t}
  {
    assert Referenced(InitOf(w, t, startId).timers) == Referenced(w.timers);
  }

  lemma ExecKeeps(w: World, op: Op)
    requires Inv(w) && OpOk(w.timers.Keys, op)
    ensures Inv(Exec(w, op)) && Exec(w, op).timers.Keys == Known(w.timers.Keys, op)
  {
    hide Inv, Start, Stop, Again, Close, SetRef, InitOf;
    match op
    case OpInit(t, startId) => InitKeeps(w, t, startId);
    case OpStart(t, callback, timeout, repeat) => StartKeeps(w, t, callback, timeout, repeat);
    case OpStop(t) => StopKeeps(w, t);
    case OpAgain(t) => AgainKeeps(w, t);
    case OpSetRepeat(t, repeat) => SetRepeatKeeps(w, t, repeat);
    case OpSetRef(t, ref) => SetRefKeeps(w, t, ref);
    case OpClose(t) => CloseKeeps(w, t);
    case OpSetTime(now) => SetTimeKeeps(w, now);
  }

  lemma SetTimeKeeps(w: World, now: nat)
    requires Inv(w) && now < U64
    ensures Inv(w.(time := now))
  {
  }

  // ----- the ready queue under a callback

  /** q without the members of gone. */
  function Minus(q: seq<Node>, gone: set<Node>): seq<Node> {
    if q == [] then []
    else (if q[0] in gone then [] else [q[0]]) + Minus(q[1..], gone)
  }

  lemma {:induction false} MinusMembers(q: seq<Node>, gone: set<Node>)
    ensures forall t :: t in Minus(q, gone) <==> t in q && t !in gone
    ensures |Minus(q, gone)| <= |q|
    ensures NoDup(q) ==> NoDup(Minus(q, gone))
  {
    if q != [] {
      assert q == [q[0]] + q[1..];
      MinusMembers(q[1..], gone);
      if q[0] !in gone {
        assert Minus(q, gone)[1..] == Minus(q[1..], gone);
      } else {
        assert Minus(q, gone) == Minus(q[1..], gone);
      }
    }
  }

  lemma {:induction false} MinusAgain(q: seq<Node>, a: set<Node>, b: set<Node>, c: set<Node>)
    requires forall t :: t in q ==> (t in c <==> t in a || t in b)
    ensures Minus(Minus(q, a), b) == Minus(q, c)
  {
    if q != [] {
      assert q[0] in q;
      assert forall t :: t in q[1..] ==> t in q;
      MinusAgain(q[1..], a, b, c);
      if q[0] !in a {
        assert Minus(q, a) == [q[0]] + Minus(q[1..], a);
        assert Minus(q, a)[1..] == Minus(q[1..], a);
      } else {
        assert Minus(q, a) == Minus(q[1..], a);
      }
    }
  }

  lemma {:induction false} UnlinkIsMinus(q: seq<Node>, t: Node)
    requires NoDup(q)
    ensures Unlink(q, t) == Minus(q, {t})
  {
    if q != [] {
      if q[0] == t {
        MinusNone(q[1..], {t});
      } else {
        UnlinkIsMinus(q[1..], t);
      }
    }
  }

  lemma {:induction false} MinusNone(q: seq<Node>, gone: set<Node>)
    requires forall t :: t in q ==> t !in gone
    ensures Minus(q, gone) == q
  {
    if q != [] {
      assert q[0] in q;
      assert forall t :: t in q[1..] ==> t in q;
      MinusNone(q[1..], gone);
    }
  }

  /** The timer that the operation stops or restarts. */
  function StoppedBy(w: World, op: Op): set<Node>
    requires OpOk(w.timers.Keys, op)
  {
    match op
    case OpStart(t, callback, _, _) => if Refuses(w.timers[t], callback) then {} else {t}
    case OpStop(t) => {t}
    case OpAgain(t) => if w.timers[t].callback == 0 || w.timers[t].repeat == 0 then {} else {t}
    case OpClose(t) => {t}
    case _ => {}
  }

  /** An operation takes a waiting timer out of the ready queue exactly when it stops
      or restarts it, and never puts one in or reorders. */
  lemma ExecReady(w: World, op: Op)
    requires Inv(w) && OpOk(w.timers.Keys, op)
    ensures Exec(w, op).ready == Minus(w.ready, StoppedBy(w, op))
  {
    hide Minus;
    MinusNone(w.ready, {});
    if StoppedBy(w, op) != {} {
      ReadyDistinct(w);
      UnlinkIsMinus(w.ready, op.t);
      UnlinkEffect(w.ready, op.t);
      UnlinkEffect(Unlink(w.ready, op.t), op.t);
    }
  }

  // ----- one callback, any number of operations

  /** Every operation is on timers known by then. */
  ghost predicate OpsOk(keys: set<Node>, ops: seq<Op>)
    decreases |ops|
  {
    ops == [] || (OpOk(keys, ops[0]) && OpsOk(Known(keys, ops[0]), ops[1..]))
  }

  ghost function KnownAll(keys: set<Node>, ops: seq<Op>): (r: set<Node>)
    ensures keys <= r
    decreases |ops|
  {
    if ops == [] then keys else KnownAll(Known(keys, ops[0]), ops[1..])
  }

  ghost function ExecAll(w: World, ops: seq<Op>): World
    requires Inv(w) && OpsOk(w.timers.Keys, ops)
    decreases |ops|
  {
    if ops == [] then w
    else
      ExecKeeps(w, ops[0]);
      ExecAll(Exec(w, ops[0]), ops[1..])
  }

  /** Some operation of the callback stops or restarts t. */
  ghost predicate StopsAny(w: World, ops: seq<Op>, t: Node)
    requires Inv(w) && OpsOk(w.timers.Keys, ops)
    decreases |ops|
  {
    if ops == [] then false
    else
      ExecKeeps(w, ops[0]);
      t in StoppedBy(w, ops[0]) || StopsAny(Exec(w, ops[0]), ops[1..], t)
  }

  ghost function Lost(w: World, ops: seq<Op>): set<Node>
    requires Inv(w) && OpsOk(w.timers.Keys, ops)
  {
    set t | t in w.ready && StopsAny(w, ops, t)
  }

  /** After a callback the ready queue is what it was, minus the timers it stopped or
      restarted: nothing is added, nothing reordered. */
  lemma {:induction false} ExecAllReady(w: World, ops: seq<Op>)
    requires Inv(w) && OpsOk(w.timers.Keys, ops)
    ensures var r := ExecAll(w, ops);
      && Inv(r) && r.timers.Keys == KnownAll(w.timers.Keys, ops)
      && r.ready == Minus(w.ready, Lost(w, ops))
    decreases |ops|
  {
    hide Inv, Exec, StoppedBy, OpOk, Known, Minus;
    if ops == [] {
      MinusNone(w.ready, Lost(w, ops));
    } else {
      var s := Exec(w, ops[0]);
      var gone := StoppedBy(w, ops[0]);
      ExecKeeps(w, ops[0]);
      ExecReady(w, ops[0]);
      ExecAllReady(s, ops[1..]);
      MinusMembers(w.ready, gone);
      MinusAgain(w.ready, gone, Lost(s, ops[1..]), Lost(w, ops));
    }
  }

  // ----- the second loop of uv__run_timers

  /** What each callback of a pass does, by its number. */
  type Script = nat -> seq<Op>

  /** The timers known when callback n begins, if `keys` are when callback k does. */
  ghost function KeysAt(keys: set<Node>, script: Script, k: nat, n: nat): set<Node>
    requires k <= n
    decreases n - k
  {
    if k == n then keys else KeysAt(KnownAll(keys, script(k)), script, k + 1, n)
  }

  /** From callback k on, every operation is on timers known by then. */
  ghost predicate ScriptOk(script: Script, keys: set<Node>, k: nat) {
    forall n :: k <= n ==> OpsOk(KeysAt(keys, script, k, n), script(n))
  }

  lemma ScriptStep(script: Script, keys: set<Node>, k: nat)
    requires ScriptOk(script, keys, k)
    ensures OpsOk(keys, script(k)) && ScriptOk(script, KnownAll(keys, script(k)), k + 1)
  {
    hide OpsOk, KnownAll;
    assert KeysAt(keys, script, k, k) == keys;
    forall n | k + 1 <= n ensures OpsOk(KeysAt(KnownAll(keys, script(k)), script, k + 1, n), script(n)) {
      assert KeysAt(keys, script, k, n) == KeysAt(KnownAll(keys, script(k)), script, k + 1, n);
    }
  }

  /** The timers called, in order, and the waiting timers that were stopped first. */
  datatype Pass = Pass(world: World, calls: seq<Node>, skipped: set<Node>)

  /** Takes the first waiting timer out of the queue and rearms it. */
  ghost function Pop(w: World): World
    requires Inv(w) && w.ready != []
  {
    Again(w.(ready := w.ready[1..]), w.ready[0])
  }

  lemma PopKeeps(w: World)
    requires Inv(w) && w.ready != []
    ensures w.ready[0] in w.timers
    ensures Inv(Pop(w)) && Pop(w).timers.Keys == w.timers.Keys && Pop(w).ready == w.ready[1..]
  {
    var t, s := w.ready[0], w.(ready := w.ready[1..]);
    assert forall u :: u in s.ready ==> u in w.ready;
    assert t in w.ready;
    AgainKeeps(s, t);
    assert Again(s, t) == Exec(s, OpAgain(t));
    ExecReady(s, OpAgain(t));
    MinusNone(s.ready, StoppedBy(s, OpAgain(t)));
  }

  ghost function RunReady(w: World, script: Script, k: nat): Pass
    requires Inv(w) && ScriptOk(script, w.timers.Keys, k)
    decreases |w.ready|
  {
    if w.ready == [] then Pass(w, [], {})
    else
      PopKeeps(w);
      ScriptStep(script, w.timers.Keys, k);
      var s := Pop(w);
      ExecAllReady(s, script(k));
      MinusMembers(s.ready, Lost(s, script(k)));
      var rest := RunReady(ExecAll(s, script(k)), script, k + 1);
      Pass(rest.world, [w.ready[0]] + rest.calls, Lost(s, script(k)) + rest.skipped)
  }

  /** Exactly the timers that were waiting are called, each once and in order, except
      those that an earlier callback of the same pass stopped or restarted. Whatever
      the callbacks do, there are no more calls than timers waiting at the start. */
  lemma {:induction false} CallsAreDue(w: World, script: Script, k: nat)
    requires Inv(w) && ScriptOk(script, w.timers.Keys, k)
    ensures var r := RunReady(w, script, k);
      && r.calls == Minus(w.ready, r.skipped)
      && (forall t :: t in r.skipped ==> t in w.ready)
      && NoDup(r.calls) && |r.calls| <= |w.ready|
      && Inv(r.world) && r.world.ready == [] && w.timers.Keys <= r.world.timers.Keys
    decreases |w.ready|
  {
    hide Inv, Pop, ExecAll, Lost, ScriptOk, OpsOk;
    var r := RunReady(w, script, k);
    if w.ready != [] {
      PopKeeps(w);
      ScriptStep(script, w.timers.Keys, k);
      var s := Pop(w);
      var lost := Lost(s, script(k));
      ExecAllReady(s, script(k));
      MinusMembers(s.ready, lost);
      var s1 := ExecAll(s, script(k));
      CallsAreDue(s1, script, k + 1);
      var rest := RunReady(s1, script, k + 1);
      LostWaits(s, script(k));
      MinusAgain(s.ready, lost, rest.skipped, lost + rest.skipped);
      ReadyDistinct(w);
      assert w.ready[0] !in lost + rest.skipped;
    }
    MinusMembers(w.ready, r.skipped);
    ReadyDistinct(w);
  }

  lemma LostWaits(w: World, ops: seq<Op>)
    requires Inv(w) && OpsOk(w.timers.Keys, ops)
    ensures forall t :: t in Lost(w, ops) ==> t in w.ready
  {
  }

  lemma ReadyDistinct(w: World)
    requires Inv(w)
    ensures NoDup(w.ready)
  {
  }

  // ----- the first loop of uv__run_timers

  predicate IsDue(w: World, t: Node) {
    t in w.timers && w.timers[t].active && w.timers[t].timeout <= w.time
  }

  function KeyIn(timers: map<Node, Timer>, t: Node): Key
    requires t in timers
  {
    Key(timers[t].timeout, timers[t].startId)
  }

  /** By timeout, and by start id where timeouts are equal. */
  ghost predicate Sooner(timers: map<Node, Timer>, t: Node, u: Node) {
    && t in timers && u in timers
    && (|| timers[t].timeout < timers[u].timeout
        || (timers[t].timeout == timers[u].timeout && timers[t].startId < timers[u].startId))
  }

  ghost predicate InOrder(timers: map<Node, Timer>, q: seq<Node>) {
    && (forall t :: t in q ==> t in timers)
    && forall i, j :: 0 <= i < j < |q| ==> Sooner(timers, q[i], q[j])
  }

  lemma {:induction false} MinusOrdered(timers: map<Node, Timer>, q: seq<Node>, gone: set<Node>)
    requires InOrder(timers, q)
    ensures InOrder(timers, Minus(q, gone))
  {
    hide Sooner, NoDup;
    if q != [] {
      assert q == [q[0]] + q[1..];
      MinusOrdered(timers, q[1..], gone);
      var rest := Minus(q[1..], gone);
      MinusMembers(q[1..], gone);
      forall j | 0 <= j < |rest| ensures Sooner(timers, q[0], rest[j]) {
        assert rest[j] in rest;
      }
      assert Minus(q, gone) == (if q[0] in gone then [] else [q[0]]) + rest;
    }
  }

  /** due is a beginning of the list of due timers: what it leaves out comes later. */
  ghost predicate FirstDue(w: World, due: seq<Node>) {
    && NoDup(due) && InOrder(w.timers, due)
    && (forall t :: t in due ==> IsDue(w, t))
    && (forall t, u :: t in due && u in w.timers && w.timers[u].active && u !in due ==>
          Less(KeyIn(w.timers, t), KeyIn(w.timers, u)))
  }

  /** due lists exactly the due timers, in order. */
  ghost predicate AllDue(w: World, due: seq<Node>) {
    NoDup(due) && InOrder(w.timers, due) && forall t :: t in w.timers ==> (t in due <==> IsDue(w, t))
  }

  /** The due timers leave the heap one by one and queue up. */
  ghost function Collected(w: World, due: seq<Node>): (r: World)
    requires forall t :: t in due ==> t in w.timers
    ensures r.timers.Keys == w.timers.Keys
  {
    if due == [] then w
    else
      var t := due[|due| - 1];
      var s := Collected(w, due[..|due| - 1]);
      Stop(s, t).(ready := s.ready + [t])
  }

  lemma {:induction false} CollectedEffect(w: World, due: seq<Node>)
    requires NoDup(due) && forall t :: t in due ==> t in w.timers && w.timers[t].active
    ensures var r := Collected(w, due);
      && r.time == w.time && r.counter == w.counter && r.ready == w.ready + due
      && forall t :: t in w.timers ==>
           r.timers[t] == if t in due then w.timers[t].(active := false) else w.timers[t]
    decreases |due|
  {
    hide NoDup, Unlink;
    if due != [] {
      var n := |due| - 1;
      NoDupPrefix(due);
      CollectedEffect(w, due[..n]);
      assert due == due[..n] + [due[n]] && due[n] in due;
      assert w.ready + due[..n] + [due[n]] == w.ready + due;
    }
  }

  /** The least remaining timer is the next of the list, if it is due. */
  lemma NextDue(w: World, due: seq<Node>, t: Node)
    requires Inv(w) && FirstDue(w, due) && IsDue(w, t) && t !in due
    requires forall u :: u in w.timers && w.timers[u].active && u !in due ==> !Less(KeyIn(w.timers, u), KeyIn(w.timers, t))
    ensures FirstDue(w, due + [t])
  {
    NoDupAppend(due, t);
    var q := due + [t];
    forall i, j | 0 <= i < j < |q| ensures Less(KeyIn(w.timers, q[i]), KeyIn(w.timers, q[j])) {
      assert q[i] in due;
    }
  }

  /** When the least remaining timer is not due, or none remains, the list is complete. */
  lemma NoMoreDue(w: World, due: seq<Node>)
    requires FirstDue(w, due)
    requires forall u :: u in w.timers && w.timers[u].active && u !in due ==> w.timers[u].timeout > w.time
    ensures AllDue(w, due)
  {
  }

  /** Stopping a due timer that is still active and queueing it keeps the invariant. */
  lemma CollectKeeps(w: World, t: Node)
    requires Inv(w) && t in w.timers && w.timers[t].active
    ensures Inv(Stop(w, t).(ready := w.ready + [t]))
  {
    StopKeeps(w, t);
    NoDupAppend(w.ready, t);
    assert forall u :: u in w.ready + [t] ==> u in w.ready || u == t;
  }

  lemma {:induction false} CollectedKeeps(w: World, due: seq<Node>)
    requires Inv(w) && NoDup(due) && forall t :: t in due ==> t in w.timers && w.timers[t].active
    ensures Inv(Collected(w, due)) && Collected(w, due).ready == w.ready + due
    decreases |due|
  {
    hide Inv, Stop;
    CollectedEffect(w, due);
    if due != [] {
      var n := |due| - 1;
      NoDupPrefix(due);
      assert forall t :: t in due[..n] ==> t in due;
      CollectedKeeps(w, due[..n]);
      CollectedEffect(w, due[..n]);
      assert due[n] in due;
      CollectKeeps(Collected(w, due[..n]), due[n]);
    }
  }

  lemma DueInOrder(w: World, due: seq<Node>)
    requires AllDue(w, due)
    ensures forall t :: t in due <==> t in w.timers && w.timers[t].active && w.timers[t].timeout <= w.time
    ensures forall i, j :: 0 <= i < j < |due| ==>
      || w.timers[due[i]].timeout < w.timers[due[j]].timeout
      || (w.timers[due[i]].timeout == w.timers[due[j]].timeout
          && w.timers[due[i]].startId < w.timers[due[j]].startId)
  {
    forall i, j | 0 <= i < j < |due| ensures Sooner(w.timers, due[i], due[j]) {
    }
  }

  lemma DueActive(w: World, due: seq<Node>)
    requires AllDue(w, due)
    ensures NoDup(due) && forall t :: t in due ==> IsDue(w, t)
    ensures forall t :: t in w.timers && IsDue(w, t) ==> t in due
  {
  }

  /** One whole pass, for every behaviour of the callbacks: exactly the timers due at
      the start are candidates, in (timeout, start id) order; each is called at most
      once, and is left out exactly when an earlier callback stopped or restarted it. */
  lemma PassCallsDue(w: World, due: seq<Node>, script: Script) returns (r: Pass)
    requires Inv(w) && w.ready == [] && AllDue(w, due) && ScriptOk(script, w.timers.Keys, 0)
    ensures Inv(Collected(w, due)) && r == RunReady(Collected(w, due), script, 0)
    ensures r.calls == Minus(due, r.skipped) && NoDup(r.calls) && |r.calls| <= |due|
    ensures forall t :: t in w.timers ==> (IsDue(w, t) <==> t in r.calls || t in r.skipped)
    ensures forall t :: t in r.calls ==> t !in r.skipped
    ensures forall t :: t in r.calls ==> t in w.timers && w.timers[t].active && w.timers[t].timeout <= w.time
    ensures forall i, j :: 0 <= i < j < |r.calls| ==>
      || w.timers[r.calls[i]].timeout < w.timers[r.calls[j]].timeout
      || (w.timers[r.calls[i]].timeout == w.timers[r.calls[j]].timeout
          && w.timers[r.calls[i]].startId < w.timers[r.calls[j]].startId)
    ensures Inv(r.world) && r.world.ready == []
  {
    hide Inv, RunReady, Collected, AllDue, NoDup;
    DueActive(w, due);
    CollectedKeeps(w, due);
    assert [] + due == due;
    CallsAreDue(Collected(w, due), script, 0);
    r := RunReady(Collected(w, due), script, 0);
    MinusMembers(due, r.skipped);
    CallsInOrder(w, due, r.skipped);
  }

  lemma CallsInOrder(w: World, due: seq<Node>, skipped: set<Node>)
    requires AllDue(w, due)
    ensures var calls := Minus(due, skipped);
      && (forall t :: t in calls ==> t in w.timers && w.timers[t].active && w.timers[t].timeout <= w.time)
      && (forall i, j :: 0 <= i < j < |calls| ==>
            || w.timers[calls[i]].timeout < w.timers[calls[j]].timeout
            || (w.timers[calls[i]].timeout == w.timers[calls[j]].timeout
                && w.timers[calls[i]].startId < w.timers[calls[j]].startId))
  {
    hide Minus;
    MinusOrdered(w.timers, due, skipped);
    MinusMembers(due, skipped);
    var calls := Minus(due, skipped);
    forall i, j | 0 <= i < j < |calls| ensures Sooner(w.timers, calls[i], calls[j]) {
    }
  }
}
