/**
 timer.c over the pointer heap and the pointer queue. A timer's union is heap
 links while it is active and queue links otherwise; each operation is proved to
 perform the operation of TimerSpec of the same name.
 */
module Timers {
  import opened Common
  import opened Nodes
  import opened Sequences
  import opened TimerSpec
  import opened TimerLaws
  import opened TimerHeap
  import R = Ring
  import opened HeapOrder
  import opened HeapLinks

  ghost function Record(t: Node): Timer
    reads t`timeout, t`startId, t`repeat, t`callback, t`active, t`ref, t`closing
  {
    Timer(t.timeout, t.startId, t.repeat, t.callback, t.active, t.ref, t.closing)
  }

  ghost function Records(timers: set<Node>): (m: map<Node, Timer>)
    reads timers`timeout, timers`startId, timers`repeat, timers`callback
    reads timers`active, timers`ref, timers`closing
    ensures m.Keys == timers
  {
    map t | t in timers :: Record(t)
  }

  /** A handle that an operation initialises lies in the memory set aside for it. */
  ghost predicate InMemory(op: Op, memory: set<Node>) {
    op.OpInit? ==> op.t in memory
  }

  ghost predicate AllInMemory(ops: seq<Op>, memory: set<Node>) {
    forall i :: 0 <= i < |ops| ==> InMemory(ops[i], memory)
  }

  ghost function Active(timers: set<Node>): set<Node>
    reads timers`active
  {
    set t | t in timers && t.active
  }

  class Loop {
    var time: nat
    var counter: nat
    var handles: int
    const heap: Heap
    const head: Node             // the head of uv__run_timers's ready queue
    ghost var timers: set<Node>
    ghost var ready: seq<Node>

    ghost function View(): World
      reads this, timers
    {
      World(time, counter, Records(timers), ready, handles)
    }

    /** The heap holds exactly the active timers. */
    ghost predicate HeapOk()
      reads this, heap, Elems(heap.nodes)`left, Elems(heap.nodes)`right, Elems(heap.nodes)`parent
      reads Elems(heap.nodes)`timeout, Elems(heap.nodes)`startId, timers`active
    {
      heap.Valid() && Elems(heap.nodes) == Active(timers)
    }

    ghost function Cycle(): seq<Node>
      reads this
    {
      [head] + ready
    }

    ghost predicate ReadyQueue()
      reads this, (set x | x in Cycle())`left, (set x | x in Cycle())`right, timers`active
    {
      && head !in timers && R.IsRing(Cycle())
      && forall t :: t in ready ==> t in timers && !t.active
    }

    /** Every timer that is neither active nor waiting is a ring of its own. */
    ghost predicate Singles()
      reads this, timers`active, timers`left, timers`right
    {
      forall t :: t in timers && !t.active && t !in ready ==> R.IsRing([t])
    }

    ghost predicate Links()
      reads this, heap, Elems(heap.nodes)`left, Elems(heap.nodes)`right, Elems(heap.nodes)`parent
      reads Elems(heap.nodes)`timeout, Elems(heap.nodes)`startId
      reads timers`active, timers`left, timers`right
      reads (set x | x in Cycle())`left, (set x | x in Cycle())`right
    {
      HeapOk() && ReadyQueue() && Singles()
    }

    ghost predicate Valid()
      reads this, heap, heap.nodes, timers, Cycle()
    {
      Links() && Inv(View())
    }

    constructor ()
      ensures Valid() && timers == {} && fresh(heap) && fresh(head)
    {
      hide R.IsRing, Ordered, Linked;
      time, counter, handles := 0, 0, 0;
      heap := new Heap();
      head := new Node();
      timers, ready := {}, [];
      new;
      R.Init(head);
      assert [head] + [] == [head];
      assert Referenced(map[]) == {};
      assert Records({}) == map[];
      assert Elems(heap.nodes) == {} && Active({}) == {};
      assert HeapOk();
    }

    /** uv_timer_init, of a handle that is new or whose closing is finished. */
    method InitTimer(t: Node)
      requires Valid() && t !in timers && t != head
      modifies this`timers, t
      ensures Valid() && timers == old(timers) + {t} && View() == InitOf(old(View()), t, old(t.startId))
    {
      hide Inv, HeapOk, ReadyQueue, Singles, Records;
      InitKeeps(View(), t, t.startId);
      OutsideAll(t);
      ClearTimer(t);
      AddTimer(t);
    }

    lemma OutsideAll(t: Node)
      requires Links() && t !in timers && t != head
      ensures t !in heap.nodes && t !in Cycle()
    {
      hide R.IsRing, Heap.Valid;
      assert t !in Elems(heap.nodes);
    }

    method ClearTimer(t: Node)
      requires Links() && t !in timers && t !in heap.nodes && t !in Cycle()
      modifies t
      ensures Links() && Records(timers) == old(Records(timers)) && R.IsRing([t])
      ensures Record(t) == Timer(0, old(t.startId), 0, 0, false, true, false)
    {
      hide R.IsRing, Heap.Valid, Active, Records;
      assert t !in Elems(heap.nodes);
      t.active, t.ref, t.closing := false, true, false;
      t.callback, t.timeout, t.repeat := 0, 0, 0;
      R.Init(t);
    }

    ghost method AddTimer(t: Node)
      requires Links() && t !in timers && t != head && !t.active && R.IsRing([t])
      modifies this`timers
      ensures Links() && timers == old(timers) + {t}
      ensures Records(timers) == old(Records(timers)[t := Record(t)])
    {
      hide R.IsRing, Heap.Valid;
      timers := timers + {t};
    }

    method LeaveHeap(t: Node)
      requires Links() && t in timers && t.active
      modifies heap, timers`left, timers`right, timers`parent
      ensures heap.Valid() && Elems(heap.nodes) == Active(timers) - {t}
      ensures ReadyQueue() && Singles()
    {
      hide R.IsRing, Heap.Valid, Records;
      assert t in Elems(heap.nodes);
      ghost var S := Elems(heap.nodes);
      heap.Remove(t);
      assert forall u :: u in timers && u !in S ==> u.left == old(u.left) && u.right == old(u.right);
    }

    /** uv__handle_stop: nothing happens to a handle that is not active. */
    method HandleStop(t: Node)
      requires t in timers
      modifies this`handles, t`active
      ensures !t.active && handles == (if old(t.active) && t.ref then old(handles) - 1 else old(handles))
      ensures Records(timers) == old(Records(timers)[t := Record(t).(active := false)])
      ensures Active(timers) == old(Active(timers)) - {t}
    {
      if t.active {
        t.active := false;
        if t.ref {
          handles := handles - 1;
        }
      }
    }

    /** uv__handle_stop, then uv__queue_init on the union. */
    method Retire(t: Node)
      requires t in timers && t.active && ReadyQueue() && Singles()
      requires heap.Valid() && Elems(heap.nodes) == Active(timers) - {t}
      modifies this`handles, t`active, t`left, t`right
      ensures HeapOk() && ReadyQueue() && Singles()
      ensures !t.active && handles == (if t.ref then old(handles) - 1 else old(handles))
      ensures Records(timers) == old(Records(timers)[t := Record(t).(active := false)])
    {
      hide R.IsRing, Heap.Valid, Records, Active;
      assert t !in Elems(heap.nodes) && t !in heap.nodes;
      HandleStop(t);
      R.Init(t);
    }

    /** The ring t is in: the ready queue, or t alone. */
    ghost function RingOf(t: Node): (c: seq<Node>)
      requires Links() && t in timers && !t.active
      reads this, heap, heap.nodes, timers, Cycle()
      ensures R.IsRing(c) && t in c
    {
      if t in ready then Cycle() else [t]
    }

    /** The nodes of the heap and those of the rings are different nodes. */
    lemma Apart(t: Node)
      requires HeapOk() && ReadyQueue() && t in timers && !t.active
      ensures t !in heap.nodes && head !in heap.nodes
      ensures forall x :: x in Cycle() ==> x !in heap.nodes
      ensures forall x :: x in Cycle() ==> x == head || x in ready
    {
      hide R.IsRing, Heap.Valid;
      forall x | x in heap.nodes ensures x in timers && x.active {
        assert x in Elems(heap.nodes);
      }
    }

    /** uv_timer_stop when the timer is in no heap: it leaves the ready queue, or,
        being alone, stays as it is. */
    method LeaveQueue(t: Node)
      requires Links() && t in timers && !t.active && NoDup(ready)
      modifies this`ready, head`left, head`right, timers`left, timers`right
      ensures HeapOk() && ReadyQueue() && Singles()
      ensures Records(timers) == old(Records(timers)) && ready == Unlink(old(ready), t)
    {
      hide R.IsRing, Heap.Valid, Records, Active;
      ghost var q, c := ready, RingOf(t);
      ghost var k :| 0 <= k < |c| && c[k] == t;
      Apart(t);
      UnlinkEffect(q, t);
      UnlinkRing(head, q, c, t, k);
      ready := Unlink(q, t);
      CutOut(t, c, k);
      assert R.IsRing(Cycle());
    }

    /** uv__queue_remove, then uv__queue_init. */
    static method CutOut(t: Node, ghost c: seq<Node>, ghost k: nat)
      requires R.IsRing(c) && k < |c| && c[k] == t
      modifies Elems(c)`left, Elems(c)`right
      ensures R.IsRing([t]) && (|c| > 1 ==> R.IsRing(Without(c, k)))
    {
      hide R.IsRing, Distinct;
      RingDistinct(c);
      R.Remove(t, c, k);
      NotIn(c, k);
      R.Init(t);
    }

    lemma RecordOf(t: Node)
      requires t in timers
      ensures Records(timers)[t] == Record(t)
    {
    }

    /** The links, flags and counters of uv_timer_stop. */
    method Halt(t: Node)
      requires Links() && t in timers && NoDup(ready)
      modifies this`handles, this`ready, heap, timers, head
      ensures Links() && View() == Stop(old(View()), t)
    {
      hide R.IsRing, Heap.Valid, HeapOk, ReadyQueue, Singles, Records;
      RecordOf(t);
      if t.active {
        LeaveHeap(t);
        Retire(t);
      } else {
        LeaveQueue(t);
      }
    }

    /** uv_timer_stop */
    method StopTimer(t: Node)
      requires Valid() && t in timers
      modifies this`handles, this`ready, heap, timers, head
      ensures Valid() && View() == Stop(old(View()), t)
    {
      hide Inv, Links, Stop, Records;
      StopKeeps(View(), t);
      InvParts(View());
      Halt(t);
    }

    /** uv__handle_start: nothing happens to a handle that is active. */
    method HandleStart(t: Node)
      requires t in timers
      modifies this`handles, t`active
      ensures t.active && handles == (if !old(t.active) && t.ref then old(handles) + 1 else old(handles))
      ensures Records(timers) == old(Records(timers)[t := Record(t).(active := true)])
      ensures Active(timers) == old(Active(timers)) + {t}
    {
      if !t.active {
        t.active := true;
        if t.ref {
          handles := handles + 1;
        }
      }
    }

    method EnterHeap(t: Node)
      requires HeapOk() && ReadyQueue() && Singles() && t in timers && !t.active && t !in ready
      modifies this`handles, heap, timers`left, timers`right, timers`parent, t`active
      ensures HeapOk() && ReadyQueue() && Singles()
      ensures handles == (if t.ref then old(handles) + 1 else old(handles))
      ensures Records(timers) == old(Records(timers)[t := Record(t).(active := true)])
    {
      hide R.IsRing, Heap.Valid, Records, Active;
      Apart(t);
      InactiveApart();
      heap.Insert(t);
      assert forall u :: u in timers && !u.active && u !in ready && u != t ==> R.IsRing([u]);
      HandleStart(t);
    }

    lemma InactiveApart()
      requires HeapOk()
      ensures forall u :: u in timers && !u.active ==> u !in Elems(heap.nodes)
      ensures Elems(heap.nodes) <= timers
    {
      hide Heap.Valid;
    }

    /** The field assignments of uv_timer_start. */
    method SetFields(t: Node, callback: nat, deadline: nat, repeat: nat)
      requires t in timers && !t.active
      modifies this`counter, t`callback, t`timeout, t`repeat, t`startId
      ensures counter == old(counter) + 1
      ensures Records(timers) ==
        old(Records(timers)[t := Timer(deadline, counter, repeat, callback, false, t.ref, t.closing)])
    {
      t.callback := callback;
      t.timeout := deadline;
      t.repeat := repeat;
      t.startId := counter;
      counter := counter + 1;
    }

    method Configure(t: Node, callback: nat, deadline: nat, repeat: nat)
      requires HeapOk() && ReadyQueue() && Singles() && t in timers && !t.active
      modifies this`counter, t`callback, t`timeout, t`repeat, t`startId
      ensures HeapOk() && ReadyQueue() && Singles()
      ensures counter == old(counter) + 1
      ensures Records(timers) ==
        old(Records(timers)[t := Timer(deadline, counter, repeat, callback, false, t.ref, t.closing)])
    {
      hide R.IsRing, Heap.Valid, Records, Active;
      Apart(t);
      assert t !in Elems(heap.nodes);
      SetFields(t, callback, deadline, repeat);
    }

    /** uv_timer_start from the point where the timer is stopped. */
    method ArmTimer(t: Node, callback: nat, deadline: nat, repeat: nat)
      requires Links() && t in timers && !t.active && t !in ready
      modifies this`handles, this`counter, heap, timers
      ensures Links() && View() == Arm(old(View()), t, callback, deadline, repeat)
    {
      hide R.IsRing, Heap.Valid, HeapOk, ReadyQueue, Singles, Records;
      RecordOf(t);
      Configure(t, callback, deadline, repeat);
      RecordOf(t);
      EnterHeap(t);
    }

    lemma Stopped(w: World, t: Node)
      requires Valid() && Inv(w) && t in w.timers && View() == Stop(w, t)
      ensures t in timers && !t.active && t !in ready
    {
      hide Links, Stop, Inv;
      StopKeeps(w, t);
      RecordOf(t);
    }

    /** uv_timer_start */
    method StartTimer(t: Node, callback: nat, timeout: nat, repeat: nat) returns (ok: bool)
      requires Valid() && t in timers && timeout < U64 && repeat < U64
      modifies this`handles, this`ready, this`counter, heap, timers, head
      ensures Valid() && View() == Start(old(View()), t, callback, timeout, repeat)
      ensures ok <==> !old(t.closing) && callback != 0
      ensures ok ==>
        && t.active && t.callback == callback && t.repeat == repeat && t.startId == old(counter)
        && t.timeout == if time + timeout < U64 then time + timeout else U64 - 1
    {
      hide Inv, Links, Records, Stop, Arm;
      RecordOf(t);
      StartKeeps(View(), t, callback, timeout, repeat);
      if t.closing || callback == 0 {
        return false;
      }
      StopTimer(t);
      Stopped(old(View()), t);
      var deadline := (time + timeout) % U64;
      if deadline < timeout {
        deadline := U64 - 1;
      }
      ArmTimer(t, callback, deadline, repeat);
      StartEffect(old(View()), t, callback, timeout, repeat);
      RecordOf(t);
      ok := true;
    }

    /** uv_timer_again */
    method AgainTimer(t: Node) returns (ok: bool)
      requires Valid() && t in timers
      modifies this`handles, this`ready, this`counter, heap, timers, head
      ensures Valid() && View() == Again(old(View()), t)
      ensures ok == old(t.callback != 0)
    {
      hide Inv, Links, Records, Start, Stop;
      RecordOf(t);
      RepeatBound(View(), t);
      if t.callback == 0 {
        return false;
      }
      var callback, repeat := t.callback, t.repeat;
      if repeat != 0 {
        StopTimer(t);
        var _ := StartTimer(t, callback, repeat, repeat);
      }
      ok := true;
    }

    /** uv_close on a timer: marked as closing, then stopped. */
    method CloseTimer(t: Node)
      requires Valid() && t in timers
      modifies this`handles, this`ready, heap, timers, head
      ensures Valid() && View() == Close(old(View()), t)
    {
      hide Inv, Links, Stop, Records;
      CloseKeeps(View(), t);
      InvParts(View());
      RecordOf(t);
      MarkClosing(t);
      Halt(t);
    }

    method MarkClosing(t: Node)
      requires t in timers && Links()
      modifies t`closing
      ensures Links()
      ensures Records(timers) == old(Records(timers)[t := Record(t).(closing := true)])
    {
      hide R.IsRing, Heap.Valid, Active;
      t.closing := true;
      assert Records(timers) == old(Records(timers)[t := Record(t).(closing := true)]);
    }

    /** uv_timer_set_repeat */
    method SetRepeat(t: Node, repeat: nat)
      requires Valid() && t in timers && repeat < U64
      modifies t`repeat
      ensures Valid() && View() == Exec(old(View()), OpSetRepeat(t, repeat))
    {
      hide R.IsRing, Heap.Valid, HeapOk, ReadyQueue, Singles, Inv;
      SetRepeatKeeps(View(), t, repeat);
      t.repeat := repeat;
      assert View().timers == old(Records(timers)[t := Record(t).(repeat := repeat)]);
    }

    /** uv__finish_close on a timer, up to its callback. */
    method FinishClose(t: Node)
      requires Valid() && t in timers && t.closing
      modifies this`timers, this`handles, t`ref
      ensures Valid() && timers == old(timers) - {t} && View() == Forget(old(View()), t)
    {
      hide Inv, Links, Records;
      RecordOf(t);
      FinishCloseKeeps(View(), t);
      SetReference(t, false);
      DropTimer(t);
    }

    ghost method DropTimer(t: Node)
      requires Links() && t in timers && !t.active && t !in ready
      modifies this`timers
      ensures Links() && timers == old(timers) - {t} && Records(timers) == old(Records(timers)) - {t}
    {
      hide R.IsRing, Heap.Valid;
      timers := timers - {t};
    }

    /** uv_ref and uv_unref on a timer. */
    method SetReference(t: Node, ref: bool)
      requires Valid() && t in timers
      modifies this`handles, t`ref
      ensures Valid() && View() == SetRef(old(View()), t, ref)
    {
      hide Inv, Links, Records;
      SetRefKeeps(View(), t, ref);
      RecordOf(t);
      if t.ref == ref {
        return;
      }
      MarkReference(t, ref);
      if t.closing {
        return;
      }
      if t.active {
        CountHandle(if ref then 1 else -1);
      }
    }

    method MarkReference(t: Node, ref: bool)
      requires t in timers && Links()
      modifies t`ref
      ensures Links()
      ensures Records(timers) == old(Records(timers)[t := Record(t).(ref := ref)])
    {
      hide R.IsRing, Heap.Valid, Active;
      t.ref := ref;
      assert Records(timers) == old(Records(timers)[t := Record(t).(ref := ref)]);
    }

    /** uv__active_handle_add and uv__active_handle_rm */
    method CountHandle(delta: int)
      requires Links()
      modifies this`handles
      ensures Links() && handles == old(handles) + delta
    {
      hide R.IsRing, Heap.Valid, Active;
      handles := handles + delta;
    }

    /** uv_update_time */
    method UpdateTime(now: nat)
      requires Valid() && now < U64
      modifies this`time
      ensures Valid() && View() == old(View()).(time := now)
    {
      hide R.IsRing, Heap.Valid, HeapOk, ReadyQueue, Singles, Inv, Records;
      SetTimeKeeps(View(), now);
      KeepLinks(now);
    }

    method KeepLinks(now: nat)
      requires Links()
      modifies this`time
      ensures Links() && time == now
    {
      hide R.IsRing, Heap.Valid;
      time := now;
    }

    /** The memory of a handle not yet initialised holds anything. */
    method Scribble(t: Node, startId: nat)
      requires Valid() && t !in timers && t != head
      modifies t`startId
      ensures Valid() && View() == old(View()) && t.startId == startId
    {
      hide R.IsRing, Heap.Valid, Inv;
      OutsideAll(t);
      assert t !in Elems(heap.nodes);
      t.startId := startId;
    }

    /** One operation of a callback; handles it initialises lie in `memory`. */
    method Perform(op: Op, ghost memory: set<Node>)
      requires Valid() && OpOk(timers, op) && InMemory(op, memory) && head !in memory
      modifies this, heap, timers, head, memory
      ensures Valid() && View() == Exec(old(View()), op) && timers == Known(old(timers), op)
    {
      hide Inv, Links, Start, Stop, Again, Close, SetRef, InitOf, Records;
      match op
      case OpInit(t, startId) =>
        Scribble(t, startId);
        InitTimer(t);
      case OpStart(t, callback, timeout, repeat) =>
        var _ := StartTimer(t, callback, timeout, repeat);
      case OpStop(t) => StopTimer(t);
      case OpAgain(t) => var _ := AgainTimer(t);
      case OpSetRepeat(t, repeat) => SetRepeat(t, repeat);
      case OpSetRef(t, ref) => SetReference(t, ref);
      case OpClose(t) => CloseTimer(t);
      case OpSetTime(now) => UpdateTime(now);
    }

    // ----- uv__run_timers

    /** uv__queue_insert_tail on the ready queue. */
    method Enqueue(t: Node)
      requires Links() && t in timers && !t.active && t !in ready
      modifies this`ready, head`left, head`right, timers`left, timers`right
      ensures HeapOk() && ReadyQueue() && Singles()
      ensures Records(timers) == old(Records(timers)) && ready == old(ready) + [t]
    {
      hide R.IsRing, Heap.Valid, Records, Active;
      Apart(t);
      ghost var c := Cycle();
      assert t !in c && forall x :: x in Elems(c) ==> x == head || x in ready;
      ready := ready + [t];
      R.InsertTail(head, t, c);
      assert Cycle() == c + [t];
    }

    /** Takes the first timer of the ready queue out of it. */
    method TakeFirst() returns (t: Node)
      requires Links() && ready != [] && NoDup(ready)
      modifies this`ready, head`left, head`right, timers`left, timers`right
      ensures HeapOk() && ReadyQueue() && Singles()
      ensures Records(timers) == old(Records(timers)) && t == old(ready)[0] && ready == old(ready)[1..]
    {
      hide R.IsRing, Heap.Valid, Records, Active;
      ghost var c, q := Cycle(), ready;
      FirstOf(c);
      t := head.left;
      assert c[1] == q[0] && q[0] in q;
      Apart(t);
      UnlinkEffect(q, t);
      UnlinkRing(head, q, c, t, 1);
      ready := ready[1..];
      CutOut(t, c, 1);
      assert Cycle() == Without(c, 1);
    }

    /** A callback: any list of timer operations. */
    method Callback(ops: seq<Op>, ghost memory: set<Node>)
      requires Valid() && OpsOk(timers, ops) && AllInMemory(ops, memory) && head !in memory
      modifies this, heap, timers, head, memory
      ensures Valid() && View() == ExecAll(old(View()), ops)
      ensures old(timers) <= timers <= old(timers) + memory
    {
      hide Inv, Links, Exec, OpOk;
      ghost var goal := ExecAll(View(), ops);
      var i := 0;
      assert ops[0..] == ops;
      while i < |ops|
        invariant 0 <= i <= |ops| && Valid() && OpsOk(timers, ops[i..])
        invariant ExecAll(View(), ops[i..]) == goal
        invariant old(timers) <= timers <= old(timers) + memory
      {
        assert ops[i..][0] == ops[i] && ops[i..][1..] == ops[i + 1..];
        ExecKeeps(View(), ops[i]);
        Perform(ops[i], memory);
        i := i + 1;
      }
    }

    /** The least timer of the heap, when it is due. */
    method NextDueTimer() returns (t: Node?)
      requires Valid()
      ensures Valid()
      ensures t == null ==> forall u :: u in timers && u.active ==> u.timeout > time
      ensures t != null ==> t in timers && t.active && t.timeout <= time
      ensures t != null ==> forall u :: u in timers && u.active ==> !LessThan(u, t)
    {
      hide R.IsRing, Heap.Valid, Inv;
      heap.MinIsLeast();
      assert forall u :: u in timers && u.active ==> u in Elems(heap.nodes);
      t := heap.min;
      if t == null || t.timeout > time {
        return null;
      }
    }

    /** The view of a node's record inside the world that has been collected so far. */
    lemma StillActive(w: World, due: seq<Node>, t: Node)
      requires FirstDue(w, due) && View() == Collected(w, due)
      requires t in timers && t.active && t.timeout <= time
      requires forall u :: u in timers && u.active ==> !LessThan(u, t)
      ensures IsDue(w, t) && t !in due
      ensures forall u :: u in w.timers && w.timers[u].active && u !in due ==> !Less(KeyIn(w.timers, u), KeyIn(w.timers, t))
    {
      CollectedEffect(w, due);
      forall u | u in timers ensures Records(timers)[u] == Record(u) {
      }
    }

    lemma NothingLeft(w: World, due: seq<Node>)
      requires FirstDue(w, due) && View() == Collected(w, due)
      requires forall u :: u in timers && u.active ==> u.timeout > time
      ensures AllDue(w, due)
    {
      CollectedEffect(w, due);
      forall u | u in w.timers && w.timers[u].active && u !in due ensures w.timers[u].timeout > w.time {
        RecordOf(u);
      }
      NoMoreDue(w, due);
    }

    /** The first loop of uv__run_timers: everything that is due moves, least first,
        from the heap to the ready queue. */
    method CollectDue() returns (ghost due: seq<Node>)
      requires Valid() && ready == []
      modifies this`handles, this`ready, heap, timers, head
      ensures Valid() && AllDue(old(View()), due) && View() == Collected(old(View()), due)
      ensures var r := old(View()).timers;
        && (forall t :: t in due <==> t in r && r[t].active && r[t].timeout <= time)
        && forall i, j :: 0 <= i < j < |due| ==>
             || r[due[i]].timeout < r[due[j]].timeout
             || (r[due[i]].timeout == r[due[j]].timeout && r[due[i]].startId < r[due[j]].startId)
    {
      hide Inv, Links, Records, FirstDue, AllDue, LessThan, Collected;
      ghost var w := View();
      due := [];
      NoneCollected(w);
      var t := NextDueTimer();
      while t != null
        invariant Valid() && FirstDue(w, due) && (forall u :: u in due ==> u in w.timers)
        invariant View() == Collected(w, due) && |due| <= |timers|
        invariant t == null ==> forall u :: u in timers && u.active ==> u.timeout > time
        invariant t != null ==> t in timers && t.active && t.timeout <= time
        invariant t != null ==> forall u :: u in timers && u.active ==> !LessThan(u, t)
        decreases |timers| - |due|, t != null
      {
        StillActive(w, due, t);
        NextDue(w, due, t);
        OneMoreCollected(w, due, t);
        due := due + [t];
        MoveToReady(t);
        t := NextDueTimer();
      }
      NothingLeft(w, due);
      DueInOrder(w, due);
    }

    method MoveToReady(t: Node)
      requires Valid() && t in timers && t.active
      modifies this`handles, this`ready, heap, timers, head
      ensures Valid() && View() == Stop(old(View()), t).(ready := old(ready) + [t])
    {
      hide Inv, Links, Records, HeapOk, ReadyQueue, Singles;
      RecordOf(t);
      CollectKeeps(View(), t);
      StopTimer(t);
      Stopped(old(View()), t);
      assert ready == old(ready);
      LinksParts();
      Enqueue(t);
      LinksWhole();
    }

    lemma LinksParts()
      requires Links()
      ensures HeapOk() && ReadyQueue() && Singles()
    {
    }

    lemma LinksWhole()
      requires HeapOk() && ReadyQueue() && Singles()
      ensures Links()
    {
    }

    /** uv__run_timers. The callbacks may do anything to any timer and to the clock, and
        initialise handles in `memory`; the pass is the one of TimerSpec, started from the
        list of timers that are due now. */
    method RunTimers(script: Script, ghost memory: set<Node>) returns (calls: seq<Node>, ghost due: seq<Node>)
      requires Valid() && ready == [] && ScriptOk(script, timers, 0)
      requires head !in memory && forall k :: AllInMemory(script(k), memory)
      modifies this, heap, timers, head, memory
      ensures Valid() && AllDue(old(View()), due) && Inv(Collected(old(View()), due))
      ensures var r := RunReady(Collected(old(View()), due), script, 0);
        View() == r.world && calls == r.calls
      ensures var r := old(View()).timers;
        && (forall t :: t in calls ==> t in r && r[t].active && r[t].timeout <= old(time))
        && forall i, j :: 0 <= i < j < |calls| ==>
             || r[calls[i]].timeout < r[calls[j]].timeout
             || (r[calls[i]].timeout == r[calls[j]].timeout && r[calls[i]].startId < r[calls[j]].startId)
    {
      hide Inv, Links, Records, AllDue, ScriptOk, Collected, RunReady, AllInMemory;
      due := CollectDue();
      ghost var pass := PassCallsDue(old(View()), due, script);
      calls := RunWaiting(script, memory);
    }

    /** The second loop of uv__run_timers. */
    method RunWaiting(script: Script, ghost memory: set<Node>) returns (calls: seq<Node>)
      requires Valid() && ScriptOk(script, timers, 0)
      requires head !in memory && forall k :: AllInMemory(script(k), memory)
      modifies this, heap, timers, head, memory
      ensures Valid()
      ensures var r := RunReady(old(View()), script, 0); View() == r.world && calls == r.calls
    {
      hide Inv, Links, Records, ScriptOk, RunReady, AllInMemory;
      ghost var goal := RunReady(View(), script, 0);
      calls := [];
      var k := 0;
      var more := HasReady();
      assert [] + goal.calls == goal.calls;
      while more
        invariant Valid() && ScriptOk(script, timers, k) && (more <==> ready != [])
        invariant old(timers) <= timers <= old(timers) + memory
        invariant var r := RunReady(View(), script, k);
          goal.world == r.world && goal.calls == calls + r.calls
        decreases |ready|
      {
        ghost var rest := RunReady(View(), script, k).calls;
        OneCall(View(), script, k);
        var t := CallNext(script, k, memory);
        ghost var more1 := RunReady(View(), script, k + 1).calls;
        assert rest == [t] + more1 && calls + ([t] + more1) == calls + [t] + more1;
        calls := calls + [t];
        k := k + 1;
        more := HasReady();
      }
      NoneWaiting(View(), script, k);
      assert calls + [] == calls;
    }

    method HasReady() returns (r: bool)
      requires Valid()
      ensures Valid() && (r <==> ready != [])
    {
      hide Inv, Heap.Valid;
      R.EmptyRing(Cycle());
      assert [head] + ready == [head] <==> ready == [];
      r := !R.IsEmpty(head);
    }

    /** One turn of the second loop: dequeue, rearm, call. */
    method CallNext(script: Script, k: nat, ghost memory: set<Node>) returns (t: Node)
      requires Valid() && ready != [] && ScriptOk(script, timers, k)
      requires head !in memory && AllInMemory(script(k), memory)
      modifies this, heap, timers, head, memory
      ensures Valid() && t == old(ready)[0]
      ensures Inv(Pop(old(View()))) && OpsOk(Pop(old(View())).timers.Keys, script(k))
      ensures View() == ExecAll(Pop(old(View())), script(k))
      ensures old(timers) <= timers <= old(timers) + memory
    {
      hide Inv, Links, Records, HeapOk, ReadyQueue, Singles, ExecAll, ScriptOk, OpsOk;
      ScriptStep(script, timers, k);
      PopKeeps(View());
      InvParts(View());
      PopInv(View());
      LinksParts();
      t := TakeFirst();
      LinksWhole();
      var _ := AgainTimer(t);
      Callback(script(k), memory);
    }

    /** uv__next_timeout: -1 exactly when no timer is active, otherwise the time to the
        least timeout, clamped to the range of a C int. */
    method NextTimeout() returns (r: int)
      requires Valid()
      ensures r == -1 <==> Active(timers) == {}
      ensures r != -1 ==>
        exists t ::
          && t in timers && t.active && (forall u :: u in timers && u.active ==> t.timeout <= u.timeout)
          && r == if t.timeout <= time then 0 else if t.timeout - time > 0x7FFF_FFFF then 0x7FFF_FFFF else t.timeout - time
    {
      hide R.IsRing, Heap.Valid, Inv;
      heap.MinIsLeast();
      var t := heap.min;
      if t == null {
        return -1;
      }
      assert forall u :: u in timers && u.active ==> u in Elems(heap.nodes);
      assert t in timers && t.active;
      assert forall u :: u in timers && u.active ==> t.timeout <= u.timeout;
      if t.timeout <= time {
        return 0;
      }
      var diff := t.timeout - time;
      if diff > INT_MAX {
        diff := INT_MAX;
      }
      return diff;
    }
  }

  lemma NotIn(c: seq<Node>, k: nat)
    requires Distinct(c) && k < |c|
    ensures c[k] !in Without(c, k)
  {
  }

  lemma NoneCollected(w: World)
    ensures FirstDue(w, []) && Collected(w, []) == w
  {
  }

  lemma OneMoreCollected(w: World, due: seq<Node>, t: Node)
    requires FirstDue(w, due) && FirstDue(w, due + [t])
    ensures forall u :: u in due + [t] ==> u in w.timers
    ensures Collected(w, due + [t]) == Stop(Collected(w, due), t).(ready := Collected(w, due).ready + [t])
    ensures |due| + 1 <= |w.timers.Keys|
  {
    assert (due + [t])[..|due|] == due;
    FitsIn(due + [t], w.timers.Keys);
  }

  lemma {:induction false} FitsIn(q: seq<Node>, S: set<Node>)
    requires NoDup(q) && forall t :: t in q ==> t in S
    ensures |q| <= |S|
  {
    if q != [] {
      assert q[0] in q;
      forall t | t in q[1..] ensures t in S - {q[0]} {
        assert t in q;
      }
      FitsIn(q[1..], S - {q[0]});
    }
  }

  lemma PopInv(w: World)
    requires Inv(w) && w.ready != []
    ensures Inv(w.(ready := w.ready[1..])) && w.ready[0] in w.timers
  {
    assert forall u :: u in w.ready[1..] ==> u in w.ready;
    assert w.ready[0] in w.ready;
  }

  lemma NoneWaiting(w: World, script: Script, k: nat)
    requires Inv(w) && ScriptOk(script, w.timers.Keys, k) && w.ready == []
    ensures RunReady(w, script, k) == Pass(w, [], {})
  {
  }

  lemma OneCall(w: World, script: Script, k: nat)
    requires Inv(w) && w.ready != [] && ScriptOk(script, w.timers.Keys, k)
    ensures Inv(Pop(w)) && OpsOk(Pop(w).timers.Keys, script(k))
    ensures var s := ExecAll(Pop(w), script(k));
      && Inv(s) && ScriptOk(script, s.timers.Keys, k + 1) && |s.ready| < |w.ready|
      && RunReady(w, script, k).world == RunReady(s, script, k + 1).world
      && RunReady(w, script, k).calls == [w.ready[0]] + RunReady(s, script, k + 1).calls
  {
    hide Inv, Pop, ExecAll, Lost, ScriptOk, OpsOk;
    PopKeeps(w);
    ScriptStep(script, w.timers.Keys, k);
    ExecAllReady(Pop(w), script(k));
    MinusMembers(Pop(w).ready, Lost(Pop(w), script(k)));
  }

  lemma FirstOf(c: seq<Node>)
    requires R.IsRing(c) && |c| > 1
    ensures c[0].left == c[1]
  {
    assert R.Joined(c[0], c[1]);
  }

  lemma RingDistinct(c: seq<Node>)
    requires R.IsRing(c)
    ensures Distinct(c)
  {
  }

  lemma InvParts(w: World)
    requires Inv(w)
    ensures NoDup(w.ready)
  {
  }

  lemma UnlinkRing(head: Node, q: seq<Node>, c: seq<Node>, t: Node, k: nat)
    requires NoDup(q) && t != head && k < |c| && c[k] == t
    requires c == if t in q then [head] + q else [t]
    ensures t in q ==> |c| > 1 && Without(c, k) == [head] + Unlink(q, t)
    ensures t !in q ==> |c| == 1 && Unlink(q, t) == q
  {
    hide NoDup, Unlink;
    UnlinkEffect(q, t);
    if t in q {
      assert q[k - 1] == t;
      UnlinkIsWithout(q, k - 1);
      BehindHead(head, q, k);
    }
  }

  lemma BehindHead(head: Node, q: seq<Node>, k: nat)
    requires 0 < k <= |q|
    ensures Without([head] + q, k) == [head] + Without(q, k - 1)
  {
    assert ([head] + q)[..k] == [head] + q[..k - 1] && ([head] + q)[k + 1..] == q[k..];
  }
}
