/**
 The fallback barrier: two counters under one mutex, a condition variable, and any
 number of threads that may use the barrier over and over. Each step is what one
 thread does from getting the mutex until it gives it up.
 */
module Barrier {
  import opened Arithmetic
  import opened Common

  const UINT: nat := 0x1_0000_0000

  type Thread = nat

  // ----- the two stretches of code between waits

  /** b->in, b->out and b->threshold, all unsigned int. */
  datatype Counters = Counters(entered: nat, leaving: nat, threshold: nat)

  /** How a stretch ends: asleep in one of the two waits, or returning `last`. */
  datatype Outcome = SleepOutside | SleepInside | Return(last: bool)

  /** --b->out, and what the caller returns. */
  function Depart(c: Counters): (Counters, Outcome) {
    var left := (c.leaving + UINT - 1) % UINT;
    (c.(leaving := left), Return(left == 0))
  }

  /** From the first test, `while (b->out != 0)`, to the next wait or the return. */
  function FromEntry(c: Counters): (Counters, Outcome) {
    if c.leaving != 0 then (c, SleepOutside)
    else
      var n := (c.entered + 1) % UINT;
      if n == c.threshold then Depart(c.(entered := 0, leaving := c.threshold))
      else (c.(entered := n), SleepInside)
  }

  /** From the second test, `while (b->in != 0)`, to the next wait or the return. */
  function FromRest(c: Counters): (Counters, Outcome) {
    if c.entered != 0 then (c, SleepInside) else Depart(c)
  }

  class Gate {
    var entered: nat
    var leaving: nat
    var threshold: nat
    var broadcasts: nat

    ghost function Value(): Counters reads this { Counters(entered, leaving, threshold) }

    /** uv_barrier_init past its test of count. */
    constructor (count: nat)
      requires 0 < count < UINT
      ensures Value() == Counters(0, 0, count) && broadcasts == 0
    {
      entered, leaving, threshold, broadcasts := 0, 0, count, 0;
    }

    /** uv_barrier_wait from the first test on.
        It broadcasts once if it completes the group, and once more if it is the last out. */
    method Enter() returns (outcome: Outcome)
      modifies this
      ensures (Value(), outcome) == FromEntry(old(Value()))
      ensures broadcasts == old(broadcasts) +
        if outcome.Return? then (if outcome.last then 2 else 1) else 0
    {
      if leaving != 0 {
        return SleepOutside;
      }
      entered := (entered + 1) % UINT;
      if entered == threshold {
        entered := 0;
        leaving := threshold;
        broadcasts := broadcasts + 1;
      } else {
        return SleepInside;
      }
      outcome := Leave();
    }

    /** uv_barrier_wait after a wake-up inside. */
    method Rest() returns (outcome: Outcome)
      modifies this
      ensures (Value(), outcome) == FromRest(old(Value()))
      ensures broadcasts == old(broadcasts) + if outcome == Return(true) then 1 else 0
    {
      if entered != 0 {
        return SleepInside;
      }
      outcome := Leave();
    }

    method Leave() returns (outcome: Outcome)
      modifies this
      ensures (Value(), outcome) == Depart(old(Value())) && outcome.Return?
      ensures broadcasts == old(broadcasts) + if outcome.last then 1 else 0
    {
      leaving := (leaving + UINT - 1) % UINT;
      var last := leaving == 0;
      if last {
        broadcasts := broadcasts + 1;
      }
      return Return(last);
    }
  }

  /** uv_barrier_init. The parameters say whether there is a barrier to initialise and
      memory for it, and what creating the mutex and the condition variable returns. */
  method Create(present: bool, count: nat, memory: bool, mutexRc: int, condRc: int) returns (rc: int, b: Gate?)
    requires count < UINT
    ensures rc ==
      if !present || count == 0 then UV_EINVAL else if !memory then UV_ENOMEM
      else if mutexRc != 0 then mutexRc else condRc
    ensures b == null <==> rc != 0
    ensures b != null ==> fresh(b) && b.Value() == Init(count).c
  {
    b := null;
    if !present || count == 0 {
      return UV_EINVAL, null;
    }
    if !memory {
      return UV_ENOMEM, null;
    }
    var gate := new Gate(count);
    if mutexRc != 0 {
      return mutexRc, null;
    }
    if condRc != 0 {
      return condRc, null;
    }
    return 0, gate;
  }

  // ----- the protocol

  /** Where a thread stands in uv_barrier_wait; a thread outside the call has no place.
      Waiting covers the call up to the first test and the wait it guards. */
  datatype Place = Waiting | Inside

  /** What a thread did, for the history. */
  datatype Event = Enter(t: Thread) | Leave(t: Thread, last: bool)

  /** asleep: the threads in uv_cond_wait that no wake-up has reached yet. */
  datatype State = State(c: Counters, at: map<Thread, Place>, asleep: set<Thread>, log: seq<Event>)

  datatype Action = Call(t: Thread) | Wake(t: Thread) | Try(t: Thread) | Check(t: Thread)

  predicate Enabled(s: State, a: Action) {
    match a
    case Call(t) => t !in s.at
    case Wake(t) => t in s.asleep
    case Try(t) => t in s.at && s.at[t] == Waiting && t !in s.asleep
    case Check(t) => t in s.at && s.at[t] == Inside && t !in s.asleep
  }

  /** A call begins; a wake-up comes from nowhere, as the platforms allow; a thread
      runs from one of its two tests. */
  function Act(s: State, a: Action): State
    requires Enabled(s, a)
  {
    match a
    case Call(t) => s.(at := s.at[t := Waiting])
    case Wake(t) => s.(asleep := s.asleep - {t})
    case Try(t) => After(s, t, FromEntry(s.c), [Enter(t)], {})
    case Check(t) => After(s, t, FromRest(s.c), [], if FromRest(s.c).1 == Return(true) then {} else s.asleep)
  }

  /** The state after thread t ran a stretch of code; on its return only `sleepers` sleep on. */
  function After(s: State, t: Thread, r: (Counters, Outcome), events: seq<Event>, sleepers: set<Thread>): State {
    match r.1
    case SleepOutside => s.(c := r.0, asleep := s.asleep + {t})
    case SleepInside => s.(c := r.0, at := s.at[t := Inside], asleep := s.asleep + {t}, log := s.log + events)
    case Return(last) => s.(c := r.0, at := s.at - {t}, asleep := sleepers, log := s.log + events + [Leave(t, last)])
  }

  function Init(threshold: nat): State {
    State(Counters(0, 0, threshold), map[], {}, [])
  }

  ghost predicate Run(ss: seq<State>, threshold: nat) {
    && |ss| > 0 && 0 < threshold < UINT && ss[0] == Init(threshold)
    && forall i :: 0 < i < |ss| ==> Follows(ss[i - 1], ss[i])
  }

  ghost predicate Follows(s: State, r: State) {
    exists a :: Enabled(s, a) && r == Act(s, a)
  }

  // ----- reading a history

  function Enters(h: seq<Event>): nat {
    if h == [] then 0 else Enters(h[..|h| - 1]) + if h[|h| - 1].Enter? then 1 else 0
  }

  function Leaves(h: seq<Event>): nat {
    if h == [] then 0 else Leaves(h[..|h| - 1]) + if h[|h| - 1].Leave? then 1 else 0
  }

  /** The last thing t did was to enter. */
  predicate InCall(h: seq<Event>, t: Thread) {
    h != [] && if h[|h| - 1].t == t then h[|h| - 1].Enter? else InCall(h[..|h| - 1], t)
  }

  /** The generation in which t last entered: each group of `size` entries is one; -1 for never. */
  function EntryGen(h: seq<Event>, t: Thread, size: nat): int
    requires size > 0
  {
    if h == [] then -1
    else if h[|h| - 1] == Enter(t) then Quot(Enters(h[..|h| - 1]), size)
    else EntryGen(h[..|h| - 1], t, size)
  }

  /** The promise for an event e after the history p. To enter a generation, all of the
      earlier ones must have left. To leave one, it must be the one the thread entered,
      and complete; the last of the group to leave, and only that one, returns 1. */
  predicate EventOk(p: seq<Event>, e: Event, size: nat)
    requires size > 0
  {
    match e
    case Enter(t) => !InCall(p, t) && Leaves(p) >= Times(Quot(Enters(p), size), size)
    case Leave(t, last) =>
      && InCall(p, t)
      && EntryGen(p, t, size) == Quot(Leaves(p), size)
      && Enters(p) >= Times(Quot(Leaves(p), size) + 1, size)
      && (last <==> Rem(Leaves(p), size) == size - 1)
  }

  ghost predicate HistoryOk(h: seq<Event>, size: nat)
    requires size > 0
  {
    forall i :: 0 <= i < |h| ==> EventOk(h[..i], h[i], size)
  }

  // ----- what every step keeps

  function InsideOf(at: map<Thread, Place>): set<Thread> {
    set t | t in at && at[t] == Inside
  }

  /** The counters against the history: either a group is filling (g groups are through,
      and `entered` threads wait) or group g is complete and still leaving. */
  ghost predicate CountersOk(c: Counters, h: seq<Event>, g: nat) {
    && 0 < c.threshold < UINT
    && (c.entered == 0 || c.leaving == 0)
    && c.entered < c.threshold && c.leaving < c.threshold
    && (c.leaving == 0 ==> Leaves(h) == Times(g, c.threshold) && Enters(h) == Times(g, c.threshold) + c.entered)
    && (c.leaving > 0 ==>
        Enters(h) == Times(g, c.threshold) + c.threshold && Leaves(h) == Times(g, c.threshold) + c.threshold - c.leaving)
  }

  /** Threads against the history: those inside all belong to generation g. */
  ghost predicate ThreadsOk(s: State, g: nat)
    requires s.c.threshold > 0
  {
    && |InsideOf(s.at)| == s.c.entered + s.c.leaving
    && (forall t :: InCall(s.log, t) <==> t in s.at && s.at[t] == Inside)
    && (forall t :: t in s.at && s.at[t] == Inside ==> EntryGen(s.log, t, s.c.threshold) == g)
  }

  /** Nobody sleeps through its own condition. */
  ghost predicate SleepersOk(s: State) {
    forall t :: t in s.asleep ==> t in s.at && (if s.at[t] == Waiting then s.c.leaving != 0 else s.c.entered != 0)
  }

  ghost predicate InvAt(s: State, g: nat) {
    CountersOk(s.c, s.log, g) && ThreadsOk(s, g) && SleepersOk(s) && HistoryOk(s.log, s.c.threshold)
  }

  ghost predicate Inv(s: State) {
    exists g: nat :: InvAt(s, g)
  }

  // ----- arithmetic and histories

  lemma Append(h: seq<Event>, e: Event)
    ensures Enters(h + [e]) == Enters(h) + if e.Enter? then 1 else 0
    ensures Leaves(h + [e]) == Leaves(h) + if e.Leave? then 1 else 0
    ensures forall t :: InCall(h + [e], t) <==> if e.t == t then e.Enter? else InCall(h, t)
    ensures forall t, size {:trigger EntryGen(h + [e], t, size)} :: size > 0 ==>
      EntryGen(h + [e], t, size) == if e == Enter(t) then Quot(Enters(h), size) else EntryGen(h, t, size)
  {
    assert (h + [e])[..|h|] == h;
  }

  lemma HistoryGrows(h: seq<Event>, e: Event, size: nat)
    requires size > 0 && HistoryOk(h, size) && EventOk(h, e, size)
    ensures HistoryOk(h + [e], size)
  {
    hide EventOk;
    forall i | 0 <= i < |h + [e]| ensures EventOk((h + [e])[..i], (h + [e])[i], size) {
      if i == |h| {
        assert (h + [e])[..i] == h;
      } else {
        assert (h + [e])[..i] == h[..i];
      }
    }
  }

  lemma InsideAdd(at: map<Thread, Place>, t: Thread)
    requires t in at && at[t] == Waiting
    ensures |InsideOf(at[t := Inside])| == |InsideOf(at)| + 1
  {
    assert InsideOf(at[t := Inside]) == InsideOf(at) + {t};
  }

  lemma InsideDrop(at: map<Thread, Place>, t: Thread)
    ensures |InsideOf(at - {t})| == |InsideOf(at)| - if t in at && at[t] == Inside then 1 else 0
  {
    assert InsideOf(at - {t}) == InsideOf(at) - {t};
  }

  lemma InsideSome(at: map<Thread, Place>, t: Thread)
    requires t in at && at[t] == Inside
    ensures |InsideOf(at)| > 0
  {
    assert t in InsideOf(at);
  }

  // ----- the steps

  /** A thread goes in and is not the last of its group. */
  lemma GoesIn(s: State, t: Thread, g: nat)
    requires InvAt(s, g) && Enabled(s, Try(t)) && s.c.leaving == 0 && s.c.entered + 1 < s.c.threshold
    ensures InvAt(Act(s, Try(t)), g)
  {
    hide Quot, Rem, Times, Enters, Leaves, InCall, EntryGen;
    var n, s1 := s.c.threshold, Act(s, Try(t));
    assert s1.c.entered == s.c.entered + 1 && s1.c.leaving == 0 && s1.log == s.log + [Enter(t)];
    DivModOf(g, n, s.c.entered);
    Append(s.log, Enter(t));
    HistoryGrows(s.log, Enter(t), n);
    InsideAdd(s.at, t);
  }

  /** The last of a group goes in, and out again without waiting. */
  lemma CompletesGroup(s: State, t: Thread, g: nat)
    requires InvAt(s, g) && Enabled(s, Try(t)) && s.c.leaving == 0 && s.c.entered + 1 == s.c.threshold
    ensures InvAt(Act(s, Try(t)), if s.c.threshold == 1 then g + 1 else g)
  {
    hide Quot, Rem, Times, Enters, Leaves, InCall, EntryGen;
    var n, s1, last := s.c.threshold, Act(s, Try(t)), s.c.threshold == 1;
    assert s1.c == Counters(0, n - 1, n);
    assert s1.at == s.at - {t} && s1.asleep == {};
    assert s1.log == s.log + [Enter(t)] + [Leave(t, last)];
    DivModOf(g, n, s.c.entered);
    DivModOf(g, n, 0);
    TimesAdd(g, 1, n);
    TimesUnit(n);
    Append(s.log, Enter(t));
    HistoryGrows(s.log, Enter(t), n);
    Append(s.log + [Enter(t)], Leave(t, last));
    HistoryGrows(s.log + [Enter(t)], Leave(t, last), n);
    InsideDrop(s.at, t);
  }

  /** A thread of a complete group goes out. */
  lemma GoesOut(s: State, t: Thread, g: nat)
    requires InvAt(s, g) && Enabled(s, Check(t)) && s.c.entered == 0
    ensures s.c.leaving > 0
    ensures InvAt(Act(s, Check(t)), if s.c.leaving == 1 then g + 1 else g)
  {
    hide Quot, Rem, Times, Enters, Leaves, InCall, EntryGen;
    var n, s1, last := s.c.threshold, Act(s, Check(t)), s.c.leaving == 1;
    InsideSome(s.at, t);
    assert s1.c == s.c.(leaving := s.c.leaving - 1);
    assert s1.log == s.log + [] + [Leave(t, last)] == s.log + [Leave(t, last)];
    DivModOf(g, n, n - s.c.leaving);
    TimesAdd(g, 1, n);
    TimesUnit(n);
    Append(s.log, Leave(t, last));
    HistoryGrows(s.log, Leave(t, last), n);
    InsideDrop(s.at, t);
  }

  lemma StepKeeps(s: State, a: Action)
    requires Inv(s) && Enabled(s, a)
    ensures Inv(Act(s, a)) && Act(s, a).c.threshold == s.c.threshold
  {
    hide Quot, Rem, Times, Enters, Leaves, InCall, EntryGen;
    var g: nat :| InvAt(s, g);
    match a
    case Call(t) =>
      assert InsideOf(Act(s, a).at) == InsideOf(s.at);
      assert InvAt(Act(s, a), g);
    case Wake(t) =>
      assert InvAt(Act(s, a), g);
    case Try(t) =>
      if s.c.leaving != 0 {
        assert InvAt(Act(s, a), g);
      } else if s.c.entered + 1 < s.c.threshold {
        GoesIn(s, t, g);
      } else {
        CompletesGroup(s, t, g);
      }
    case Check(t) =>
      if s.c.entered != 0 {
        assert Act(s, a).at == s.at && Act(s, a).log == s.log;
        assert InvAt(Act(s, a), g);
      } else {
        GoesOut(s, t, g);
      }
  }

  lemma FollowKeeps(s: State, r: State)
    requires Inv(s) && Follows(s, r)
    ensures Inv(r) && r.c.threshold == s.c.threshold
  {
    hide Inv, Enabled, Act;
    var a :| Enabled(s, a) && r == Act(s, a);
    StepKeeps(s, a);
  }

  lemma {:induction false} RunKeeps(ss: seq<State>, threshold: nat, i: nat)
    requires Run(ss, threshold) && i < |ss|
    ensures Inv(ss[i]) && ss[i].c.threshold == threshold > 0
  {
    hide Inv, Follows;
    if i == 0 {
      StartOk(threshold);
    } else {
      RunKeeps(ss, threshold, i - 1);
      FollowKeeps(ss[i - 1], ss[i]);
    }
  }

  lemma StartOk(threshold: nat)
    requires 0 < threshold < UINT
    ensures Inv(Init(threshold))
  {
    hide Quot, Rem;
    TimesUnit(threshold);
    assert InvAt(Init(threshold), 0);
  }

  // ----- what every reachable state promises

  ghost predicate Reachable(s: State, threshold: nat) {
    exists ss :: |ss| > 0 && s == ss[|ss| - 1] && Run(ss, threshold)
  }

  lemma ReachableInv(s: State, threshold: nat)
    requires Reachable(s, threshold)
    ensures Inv(s) && s.c.threshold == threshold > 0
  {
    hide Inv, Run;
    var ss :| |ss| > 0 && s == ss[|ss| - 1] && Run(ss, threshold);
    RunKeeps(ss, threshold, |ss| - 1);
  }

  /** in and out are never both non-zero, and neither counter ever wraps around. */
  lemma OnePhaseAtATime(s: State, threshold: nat)
    requires Reachable(s, threshold)
    ensures s.c.entered == 0 || s.c.leaving == 0
    ensures s.c.entered < threshold && s.c.leaving < threshold
    ensures s.c.entered + s.c.leaving == |InsideOf(s.at)|
  {
    hide Quot, Rem, Times, Enters, Leaves, InCall, EntryGen;
    ReachableInv(s, threshold);
  }

  /** Every entry and every return of every run keeps the promise of EventOk. */
  lemma EveryEventOk(s: State, threshold: nat, k: nat)
    requires Reachable(s, threshold) && k < |s.log|
    ensures EventOk(s.log[..k], s.log[k], threshold)
  {
    hide Quot, Rem, Times, Enters, Leaves, InCall, EntryGen;
    ReachableInv(s, threshold);
  }

  /** If as many threads are in the call as the barrier asks for, one of them can run. */
  lemma NeverStuck(s: State, threshold: nat)
    requires Reachable(s, threshold) && |s.at| >= threshold
    ensures exists t :: t in s.at && t !in s.asleep
  {
    hide Quot, Rem, Times, Enters, Leaves, InCall, EntryGen, EventOk;
    ReachableInv(s, threshold);
    var g: nat :| InvAt(s, g);
    AllInside(s.at);
    if s.c.leaving > 0 {
      var t :| t in InsideOf(s.at);
      assert t in s.at && t !in s.asleep;
    } else if t :| t in s.at && s.at[t] == Waiting {
      assert t !in s.asleep;
    }
  }

  lemma AllInside(at: map<Thread, Place>)
    ensures (forall t :: t in at ==> at[t] == Inside) ==> |at| == |InsideOf(at)|
  {
    if forall t :: t in at ==> at[t] == Inside {
      assert at.Keys == InsideOf(at);
      assert |at.Keys| == |at|;
    }
  }

  /** A generation that has left completely. */
  ghost predicate Through(h: seq<Event>, g: nat, size: nat) {
    Leaves(h) >= Times(g, size) + size
  }

  /** The return at position k of the history belongs to generation g. */
  ghost predicate ReturnsIn(h: seq<Event>, k: nat, g: nat, size: nat)
    requires size > 0
  {
    k < |h| && h[k].Leave? && Quot(Leaves(h[..k]), size) == g
  }

  lemma {:induction false} LeaveNumber(h: seq<Event>, n: nat) returns (k: nat)
    requires n < Leaves(h)
    ensures k < |h| && h[k].Leave? && Leaves(h[..k]) == n
  {
    var h1 := h[..|h| - 1];
    if n < Leaves(h1) {
      k := LeaveNumber(h1, n);
      assert h[..k] == h1[..k];
    } else {
      k := |h| - 1;
    }
  }

  lemma {:induction false} LeavesGrow(h: seq<Event>, j: nat, k: nat)
    requires j < k <= |h|
    ensures Leaves(h[..j]) + (if h[j].Leave? then 1 else 0) <= Leaves(h[..k])
    ensures Enters(h[..j]) + (if h[j].Enter? then 1 else 0) <= Enters(h[..k])
    decreases k
  {
    assert h[..k][..k - 1] == h[..k - 1];
    if j < k - 1 {
      LeavesGrow(h, j, k - 1);
    }
  }

  /** Of the threads of a generation exactly one is told that it is the last. */
  lemma OneSerialThread(s: State, threshold: nat, g: nat)
    requires Reachable(s, threshold) && Through(s.log, g, threshold)
    ensures exists k: nat :: ReturnsIn(s.log, k, g, threshold) && s.log[k].last
    ensures forall j: nat, k: nat ::
      (ReturnsIn(s.log, j, g, threshold) && ReturnsIn(s.log, k, g, threshold)
       && s.log[j].last && s.log[k].last) ==> j == k
  {
    hide Quot, Rem, Times, Enters, Leaves, InCall, EntryGen;
    hide EventOk, Reachable, Inv;
    ReachableInv(s, threshold);
    var h, n := s.log, threshold;
    DivModOf(g, n, n - 1);
    var k0 := LeaveNumber(h, Times(g, n) + n - 1);
    SerialIs(s, n, g, k0);
    forall j: nat, k: nat | ReturnsIn(h, j, g, n) && ReturnsIn(h, k, g, n) && h[j].last && h[k].last
      ensures j == k
    {
      SerialIs(s, n, g, j);
      SerialIs(s, n, g, k);
      if j < k {
        LeavesGrow(h, j, k);
      } else if k < j {
        LeavesGrow(h, k, j);
      }
    }
  }

  lemma SerialIs(s: State, threshold: nat, g: nat, k: nat)
    requires Reachable(s, threshold) && ReturnsIn(s.log, k, g, threshold)
    ensures s.log[k].last <==> Leaves(s.log[..k]) == Times(g, threshold) + threshold - 1
  {
    hide Quot, Rem, Times, Enters, Leaves, InCall, EntryGen;
    EveryEventOk(s, threshold, k);
    var x := Leaves(s.log[..k]);
    QuotRem(x, threshold);
  }

  /** A thread that came out has been overtaken by the next generation. */
  lemma {:induction false} OutIsPast(h: seq<Event>, t: Thread, size: nat)
    requires size > 0 && HistoryOk(h, size) && !InCall(h, t)
    ensures EntryGen(h, t, size) < Quot(Enters(h), size)
  {
    hide Quot, Rem, Times, Leaves;
    if h != [] {
      var p, e := h[..|h| - 1], h[|h| - 1];
      assert h == p + [e];
      Append(p, e);
      assert HistoryOk(p, size) by {
        hide EventOk;
        forall i | 0 <= i < |p| ensures EventOk(p[..i], p[i], size) {
          assert p[..i] == h[..i];
        }
      }
      assert EventOk(p, e, size);
      if e.t == t {
        Reaches(Enters(h), Quot(Leaves(p), size) + 1, size);
      } else {
        OutIsPast(p, t, size);
        Above(Enters(h), Enters(p), size);
      }
    }
  }

  lemma {:induction false} LatestEntry(h: seq<Event>, t: Thread, k: nat, size: nat)
    requires size > 0 && k < |h| && h[k] == Enter(t)
    ensures EntryGen(h, t, size) >= Quot(Enters(h[..k]), size)
  {
    hide Quot, Leaves, InCall;
    var p := h[..|h| - 1];
    if k < |p| {
      assert p[..k] == h[..k];
      if h[|h| - 1] == Enter(t) {
        LeavesGrow(h, k, |h| - 1);
        Above(Enters(p), Enters(h[..k]), size);
      } else {
        LatestEntry(p, t, k, size);
      }
    }
  }

  /** A thread that comes back enters a later generation: no generation has it twice. */
  lemma DistinctThreads(s: State, threshold: nat, j: nat, k: nat)
    requires Reachable(s, threshold) && j < k < |s.log|
    requires s.log[j].Enter? && s.log[k] == s.log[j]
    ensures Quot(Enters(s.log[..j]), threshold) < Quot(Enters(s.log[..k]), threshold)
  {
    hide Quot, Rem, Times, Enters, Leaves, InCall, EntryGen;
    ReachableInv(s, threshold);
    var h := s.log;
    var p := h[..k];
    assert HistoryOk(p, threshold) by {
      hide EventOk;
      forall m | 0 <= m < |p| ensures EventOk(p[..m], p[m], threshold) {
        assert p[..m] == h[..m];
      }
    }
    assert EventOk(p, h[k], threshold);
    OutIsPast(p, h[k].t, threshold);
    LatestEntry(p, h[k].t, j, threshold);
    assert p[..j] == h[..j];
  }

  lemma Above(x: nat, y: nat, size: nat)
    requires size > 0 && x >= y
    ensures Quot(x, size) >= Quot(y, size)
  {
    hide Quot, Rem, Times;
    QuotRem(y, size);
    Reaches(x, Quot(y, size), size);
  }

  lemma Reaches(x: nat, g: nat, size: nat)
    requires size > 0 && x >= Times(g, size)
    ensures Quot(x, size) >= g
  {
    hide Quot, Rem, Times;
    QuotRem(x, size);
    if Quot(x, size) < g {
      NextRow(g, Quot(x, size), Rem(x, size), size);
    }
  }

  lemma OneStep(s: State, threshold: nat, a: Action)
    requires Reachable(s, threshold) && Enabled(s, a)
    ensures Reachable(Act(s, a), threshold)
  {
    hide Act, Enabled, Init, Follows;
    var ss :| |ss| > 0 && s == ss[|ss| - 1] && Run(ss, threshold);
    var more := ss + [Act(s, a)];
    CanFollow(s, a);
    assert forall i :: 0 < i < |more| ==> Follows(more[i - 1], more[i]);
    assert more[|more| - 1] == Act(s, a) && Run(more, threshold);
  }

  lemma CanFollow(s: State, a: Action)
    requires Enabled(s, a)
    ensures Follows(s, Act(s, a))
  {
  }

  /** Two threads meet: the second to come leaves at once, the first is told it is the last. */
  lemma TwoThreadsMeet()
    ensures exists s :: Reachable(s, 2) && s.log == [Enter(0), Enter(1), Leave(1, false), Leave(0, true)]
  {
    hide Reachable;
    var s0 := Init(2);
    Begins(2);
    OneStep(s0, 2, Call(0));
    var s1 := Act(s0, Call(0));
    OneStep(s1, 2, Try(0));
    var s2 := Act(s1, Try(0));
    assert s2 == State(Counters(1, 0, 2), map[0 := Inside], {0}, [Enter(0)]);
    OneStep(s2, 2, Call(1));
    var s3 := Act(s2, Call(1));
    OneStep(s3, 2, Try(1));
    var s4 := Act(s3, Try(1));
    assert s4 == State(Counters(0, 1, 2), map[0 := Inside], {}, [Enter(0), Enter(1), Leave(1, false)]);
    OneStep(s4, 2, Check(0));
    var s5 := Act(s4, Check(0));
    assert s5.log == [Enter(0), Enter(1), Leave(1, false), Leave(0, true)];
  }

  lemma Begins(threshold: nat)
    requires 0 < threshold < UINT
    ensures Reachable(Init(threshold), threshold)
  {
    var ss := [Init(threshold)];
    assert Run(ss, threshold) && ss[|ss| - 1] == Init(threshold);
  }

  /** A thread that finds its condition false sleeps: it takes no step until it is woken, and
      then it tests again. */
  lemma SleepsUntilWoken(s: State, t: Thread)
    requires Inv(s)
    ensures Enabled(s, Try(t)) && s.c.leaving != 0 ==>
      var r := Act(s, Try(t));
      && !Enabled(r, Try(t)) && !Enabled(r, Check(t)) && Enabled(r, Wake(t)) && Enabled(Act(r, Wake(t)), Try(t))
    ensures Enabled(s, Try(t)) && s.c.leaving == 0 && s.c.entered + 1 != s.c.threshold ==>
      var r := Act(s, Try(t));
      && !Enabled(r, Try(t)) && !Enabled(r, Check(t)) && Enabled(r, Wake(t)) && Enabled(Act(r, Wake(t)), Check(t))
    ensures Enabled(s, Check(t)) && s.c.entered != 0 ==>
      var r := Act(s, Check(t));
      && !Enabled(r, Try(t)) && !Enabled(r, Check(t)) && Enabled(r, Wake(t)) && Enabled(Act(r, Wake(t)), Check(t))
  {
  }
}
