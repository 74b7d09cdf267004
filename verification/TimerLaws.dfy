/**
 What the operations of timer.c promise their callers, in terms of a timer's fields, and
 what becomes of a timer in a pass of uv__run_timers.
 */
module TimerLaws {
  import opened Nodes
  import opened Sequences
  import opened TimerSpec

  // ----- one operation

  /** uv_timer_start is refused without effect for a closing handle or a missing callback.
      Otherwise the timer is active, due after the timeout, and behind every timer
      started before. */
  lemma StartEffect(w: World, t: Node, callback: nat, timeout: nat, repeat: nat)
    requires Inv(w) && t in w.timers && timeout < U64 && repeat < U64
    ensures var s, r := Start(w, t, callback, timeout, repeat), w.timers[t];
      if r.closing || callback == 0 then s == w
      else
        && s.timers == w.timers[t := Timer(if w.time + timeout < U64 then w.time + timeout else U64 - 1,
                                           w.counter, repeat, callback, true, r.ref, false)]
        && s.counter == w.counter + 1 && s.time == w.time && s.ready == Unlink(w.ready, t)
        && forall u :: u in w.timers && w.timers[u].active ==> w.timers[u].startId < s.timers[t].startId
  {
    DeadlineSaturates(w.time, timeout);
    ReadyDistinct(w);
    UnlinkEffect(w.ready, t);
  }

  /** uv_timer_again does nothing without a callback or a repeat value, and to a closing
      handle; otherwise the timer is due again after its repeat value. */
  lemma AgainEffect(w: World, t: Node)
    requires Inv(w) && t in w.timers
    ensures var s, r := Again(w, t), w.timers[t];
      if r.closing || r.callback == 0 || r.repeat == 0 then s == w
      else
        && s.timers == w.timers[t := Timer(if w.time + r.repeat < U64 then w.time + r.repeat else U64 - 1,
                                           w.counter, r.repeat, r.callback, true, r.ref, false)]
        && s.counter == w.counter + 1 && s.time == w.time && s.ready == Unlink(w.ready, t)
  {
    hide Inv, Start, Stop;
    var r := w.timers[t];
    RepeatBound(w, t);
    StopKeeps(w, t);
    StopEffect(w, t);
    if r.callback != 0 && r.repeat != 0 {
      StartEffect(Stop(w, t), t, r.callback, r.repeat, r.repeat);
      Idle(w, t);
      UnlinkEffect(Unlink(w.ready, t), t);
    }
  }

  /** uv_timer_stop */
  lemma StopEffect(w: World, t: Node)
    requires Inv(w) && t in w.timers
    ensures var s := Stop(w, t);
      && s.timers == w.timers[t := w.timers[t].(active := false)]
      && s.counter == w.counter && s.time == w.time && s.ready == Unlink(w.ready, t)
      && NoDup(s.ready) && t !in s.ready
  {
    ReadyDistinct(w);
    UnlinkEffect(w.ready, t);
    assert w.timers[t := w.timers[t]] == w.timers;
  }

  /** A closing timer is neither active nor waiting. */
  lemma Idle(w: World, t: Node)
    requires Inv(w) && t in w.timers
    ensures NoDup(w.ready)
    ensures w.timers[t].closing ==> !w.timers[t].active && t !in w.ready && Stop(w, t) == w
  {
    UnlinkEffect(w.ready, t);
  }

  /** A timer that has been initialised is inactive and referenced; uv_timer_again has
      nothing to call. */
  lemma InitEffect(w: World, t: Node, startId: nat)
    requires Inv(w) && t !in w.timers
    ensures var s := InitOf(w, t, startId);
      && t in s.timers && !s.timers[t].active && s.timers[t].ref && !s.timers[t].closing
      && s.timers[t].timeout == 0 && s.timers[t].repeat == 0 && s.timers[t].callback == 0
      && Again(s, t) == s && s.ready == w.ready && s.handles == w.handles
      && forall u :: u in w.timers ==> u in s.timers && s.timers[u] == w.timers[u]
  {
  }

  /** uv_ref and uv_unref set the flag and nothing else of the timer. */
  lemma SetRefEffect(w: World, t: Node, ref: bool)
    requires Inv(w) && t in w.timers
    ensures var s := SetRef(w, t, ref);
      && s.timers == w.timers[t := w.timers[t].(ref := ref)]
      && s.ready == w.ready && s.time == w.time && s.counter == w.counter
      && s.handles == w.handles + (if w.timers[t].active && ref && !w.timers[t].ref then 1 else 0)
                                - (if w.timers[t].active && !ref && w.timers[t].ref then 1 else 0)
  {
    assert w.timers[t := w.timers[t]] == w.timers;
  }

  /** uv_close leaves the timer inactive; nothing starts it again. */
  lemma CloseEffect(w: World, t: Node, callback: nat, timeout: nat, repeat: nat)
    requires Inv(w) && t in w.timers
    ensures var s := Close(w, t);
      && s.timers == w.timers[t := w.timers[t].(active := false, closing := true)]
      && s.ready == Unlink(w.ready, t) && t !in s.ready
      && Start(s, t, callback, timeout, repeat) == s && Again(s, t) == s
  {
    hide Inv, Stop;
    ReadyDistinct(w);
    CloseKeeps(w, t);
    UnlinkEffect(w.ready, t);
    Idle(Close(w, t), t);
    CloseRecord(w, t);
  }

  lemma CloseRecord(w: World, t: Node)
    requires Inv(w) && t in w.timers
    ensures var s := Close(w, t);
      && s.timers == w.timers[t := w.timers[t].(active := false, closing := true)]
      && s.ready == Unlink(w.ready, t)
  {
    ReadyDistinct(w);
    UnlinkEffect(w.ready, t);
  }

  // ----- the order of starting

  /** An operation that does not stop or restart an active timer leaves its place. */
  lemma KeepsPlace(w: World, op: Op, t: Node)
    requires Inv(w) && OpOk(w.timers.Keys, op) && t in w.timers && w.timers[t].active && t !in StoppedBy(w, op)
    ensures var r := Exec(w, op);
      && t in r.timers && r.timers[t].active
      && r.timers[t].timeout == w.timers[t].timeout && r.timers[t].startId == w.timers[t].startId
  {
  }

  lemma {:induction false} KeepsPlaces(w: World, ops: seq<Op>, t: Node)
    requires Inv(w) && OpsOk(w.timers.Keys, ops) && t in w.timers && w.timers[t].active && !StopsAny(w, ops, t)
    ensures var r := ExecAll(w, ops);
      && t in r.timers && r.timers[t].active
      && r.timers[t].timeout == w.timers[t].timeout && r.timers[t].startId == w.timers[t].startId
    decreases |ops|
  {
    hide Inv, Exec, StoppedBy, OpOk, Known;
    if ops != [] {
      ExecKeeps(w, ops[0]);
      KeepsPlace(w, ops[0], t);
      KeepsPlaces(Exec(w, ops[0]), ops[1..], t);
    }
  }

  /** A timer started after another, and not due before it, is called after it: whatever
      happens to other timers and to the clock until both are due. */
  lemma StartsInOrder(w: World, a: Node, b: Node, callback: nat, timeout: nat, repeat: nat, ops: seq<Op>, due: seq<Node>)
    requires Inv(w) && a in w.timers && b in w.timers && a != b && w.timers[a].active
    requires timeout < U64 && repeat < U64 && !w.timers[b].closing && callback != 0
    requires w.timers[a].timeout <= if w.time + timeout < U64 then w.time + timeout else U64 - 1
    requires var s := Start(w, b, callback, timeout, repeat);
      && Inv(s) && OpsOk(s.timers.Keys, ops) && !StopsAny(s, ops, a) && !StopsAny(s, ops, b)
      && AllDue(ExecAll(s, ops), due) && b in due
    ensures a in due && forall i, j :: 0 <= i < |due| && 0 <= j < |due| && due[i] == a && due[j] == b ==> i < j
  {
    hide Inv, ExecAll, OpsOk, StopsAny, Start;
    var s := Start(w, b, callback, timeout, repeat);
    StartEffect(w, b, callback, timeout, repeat);
    KeepsPlaces(s, ops, a);
    KeepsPlaces(s, ops, b);
    var r := ExecAll(s, ops);
    forall i, j | 0 <= i < |due| && 0 <= j < |due| && due[i] == a && due[j] == b ensures i < j {
      SoonerFirst(r.timers, due, i, j);
    }
  }

  lemma SoonerFirst(timers: map<Node, Timer>, q: seq<Node>, i: nat, j: nat)
    requires InOrder(timers, q) && i < |q| && j < |q| && q[i] != q[j] && Sooner(timers, q[i], q[j])
    ensures i < j
  {
  }

  // ----- a timer in a pass

  predicate Spares(op: Op, t: Node) { op.OpSetTime? || op.t != t }

  predicate KeepsTime(op: Op) { !op.OpSetTime? }

  lemma SparedBy(w: World, op: Op, t: Node)
    requires Inv(w) && OpOk(w.timers.Keys, op) && t in w.timers && Spares(op, t)
    ensures t in Exec(w, op).timers && Exec(w, op).timers[t] == w.timers[t] && t !in StoppedBy(w, op)
    ensures KeepsTime(op) ==> Exec(w, op).time == w.time
  {
  }

  lemma {:induction false} SparedByAll(w: World, ops: seq<Op>, t: Node)
    requires Inv(w) && OpsOk(w.timers.Keys, ops) && t in w.timers
    requires forall i :: 0 <= i < |ops| ==> Spares(ops[i], t)
    ensures t in ExecAll(w, ops).timers && ExecAll(w, ops).timers[t] == w.timers[t] && !StopsAny(w, ops, t)
    ensures (forall i :: 0 <= i < |ops| ==> KeepsTime(ops[i])) ==> ExecAll(w, ops).time == w.time
    decreases |ops|
  {
    hide Inv, Exec, StoppedBy, OpOk, Known, Spares, KeepsTime;
    if ops != [] {
      ExecKeeps(w, ops[0]);
      SparedBy(w, ops[0], t);
      SparedByAll(Exec(w, ops[0]), ops[1..], t);
    }
  }

  lemma NotLost(w: World, ops: seq<Op>, t: Node)
    requires Inv(w) && OpsOk(w.timers.Keys, ops) && !StopsAny(w, ops, t)
    ensures t !in Lost(w, ops)
  {
  }

  /** No callback of the pass does anything to t. */
  ghost predicate LeftAlone(script: Script, k: nat, t: Node) {
    forall n, i :: k <= n && 0 <= i < |script(n)| ==> Spares(script(n)[i], t)
  }

  ghost predicate LeavesTime(script: Script, k: nat) {
    forall n, i :: k <= n && 0 <= i < |script(n)| ==> KeepsTime(script(n)[i])
  }

  /** What the second loop does to the timer it takes: nothing else changes. */
  lemma PopEffect(w: World)
    requires Inv(w) && w.ready != []
    ensures w.ready[0] in w.timers
    ensures var t, s := w.ready[0], Pop(w);
      && s.time == w.time && s.ready == w.ready[1..] && s.timers.Keys == w.timers.Keys
      && (forall u :: u in w.timers && u != t ==> s.timers[u] == w.timers[u])
      && Rearmed(w.timers[t], s.timers[t], w.time)
  {
    hide Inv, Again;
    PopKeeps(w);
    var t, s := w.ready[0], w.(ready := w.ready[1..]);
    WaitingTimer(w, t);
    RestOfQueue(w);
    AgainEffect(s, t);
  }

  lemma WaitingTimer(w: World, t: Node)
    requires Inv(w) && t in w.ready
    ensures t in w.timers && !w.timers[t].active && !w.timers[t].closing && w.timers[t].callback != 0
  {
  }

  lemma RestOfQueue(w: World)
    requires Inv(w) && w.ready != []
    ensures Inv(w.(ready := w.ready[1..]))
  {
    assert forall u :: u in w.ready[1..] ==> u in w.ready;
  }

  /** Before and after: active exactly if it repeats, and then due again one repeat value
      after now. */
  ghost predicate Rearmed(r: Timer, s: Timer, now: nat) {
    && s.active == (r.repeat != 0) && s.repeat == r.repeat && s.callback == r.callback && s.ref == r.ref
    && !s.closing
    && s.timeout == if r.repeat == 0 then r.timeout else if now + r.repeat < U64 then now + r.repeat else U64 - 1
  }

  lemma {:induction false} WaitingIsRearmed(w: World, script: Script, k: nat, t: Node)
    requires Inv(w) && ScriptOk(script, w.timers.Keys, k) && t in w.timers && LeftAlone(script, k, t)
    ensures var r := RunReady(w, script, k);
      && (t in r.calls <==> t in w.ready) && t in r.world.timers
      && (t !in w.ready ==> r.world.timers[t] == w.timers[t])
      && (t in w.ready ==> exists now :: Rearmed(w.timers[t], r.world.timers[t], now))
      && (t in w.ready && LeavesTime(script, k) ==> Rearmed(w.timers[t], r.world.timers[t], w.time))
    decreases |w.ready|
  {
    hide Inv, Pop, ExecAll, Lost, ScriptOk, OpsOk, Rearmed, Spares, KeepsTime;
    if w.ready != [] {
      PopKeeps(w);
      PopEffect(w);
      ScriptStep(script, w.timers.Keys, k);
      var s := Pop(w);
      ExecAllReady(s, script(k));
      SparedByAll(s, script(k), t);
      MinusMembers(s.ready, Lost(s, script(k)));
      NotLost(s, script(k), t);
      WaitingIsRearmed(ExecAll(s, script(k)), script, k + 1, t);
      ReadyDistinct(w);
      assert w.ready == [w.ready[0]] + w.ready[1..];
    }
  }

  /** A timer that no callback touches is called in the pass exactly if it was due, and
      is afterwards active exactly if it repeats; not due, it is as it was. */
  lemma PassRearms(w: World, due: seq<Node>, script: Script, t: Node)
    requires Inv(w) && w.ready == [] && AllDue(w, due) && ScriptOk(script, w.timers.Keys, 0)
    requires t in w.timers && LeftAlone(script, 0, t)
    ensures Inv(Collected(w, due))
    ensures var r := RunReady(Collected(w, due), script, 0);
      t in r.world.timers &&
      var was, now := w.timers[t], r.world.timers[t];
      && (t in r.calls <==> was.active && was.timeout <= w.time)
      && (t !in r.calls ==> now == was)
      && (t in r.calls ==>
            && now.active == (was.repeat != 0) && now.repeat == was.repeat && now.callback == was.callback
            && (LeavesTime(script, 0) && was.repeat != 0 ==>
                  now.timeout == if w.time + was.repeat < U64 then w.time + was.repeat else U64 - 1))
  {
    hide Inv, RunReady, Collected, AllDue, NoDup, ScriptOk, LeftAlone, LeavesTime;
    DueActive(w, due);
    CollectedKeeps(w, due);
    CollectedEffect(w, due);
    assert [] + due == due;
    WaitingIsRearmed(Collected(w, due), script, 0, t);
  }

  /** A timer that has been closed is not called in any pass, whatever the callbacks do. */
  lemma ClosedNeverCalled(w: World, due: seq<Node>, script: Script, t: Node)
    requires Inv(w) && w.ready == [] && AllDue(w, due) && ScriptOk(script, w.timers.Keys, 0)
    requires t in w.timers && w.timers[t].closing
    ensures Inv(Collected(w, due)) && t !in RunReady(Collected(w, due), script, 0).calls
  {
    hide RunReady, Collected, AllDue, NoDup, ScriptOk;
    Idle(w, t);
    var _ := PassCallsDue(w, due, script);
  }
}
