/** The scheduler, as values. */
module Scheduling {
  import opened Numbers

  // The process table, the ready queue and the running process (scheduler/round_robin.c,
  // kernel/process.c), and the events that change them.

  const MAX_PROCESSES: nat := 32
  const IDLE: nat := MAX_PROCESSES

  datatype State = Ready | Running | Blocked | Zombie

  /** A process slot; `runnable` says that it has a stack to run on. */
  datatype Proc = Proc(inUse: bool, state: State, runnable: bool, key: nat, deadline: nat)

  /** `procs` is the table with the idle process last; `count` bounds the slots ever used. */
  datatype Sched = Sched(procs: seq<Proc>, queue: seq<nat>, current: nat, count: nat)

  ghost predicate Distinct(queue: seq<nat>) {
    forall i, j | 0 <= i < j < |queue| :: queue[i] != queue[j]
  }

  ghost predicate Shaped(s: Sched) {
    && |s.procs| == MAX_PROCESSES + 1
    && s.current <= IDLE && s.count <= MAX_PROCESSES
    && (forall i | 0 <= i < |s.queue| :: s.queue[i] < MAX_PROCESSES)
  }

  /** What every event keeps. */
  ghost predicate Inv(s: Sched) {
    && Shaped(s)
    && Distinct(s.queue) && s.current !in s.queue
    && (forall i | 0 <= i < |s.queue| :: s.procs[s.queue[i]].inUse && s.procs[s.queue[i]].state in {Ready, Zombie})
    && (forall p: nat | p < MAX_PROCESSES && s.procs[p].state == Running :: p == s.current)
    && (s.current < IDLE ==> s.procs[s.current].inUse && s.procs[s.current].state in {Ready, Running, Zombie})
    && (forall p: nat | p < MAX_PROCESSES && s.procs[p].state == Blocked :: s.procs[p].inUse)
    && (forall p: nat | p < MAX_PROCESSES && s.procs[p].inUse :: p < s.count)
  }

  // ---------------------------------------------------------------- queue operations

  function SetState(s: Sched, p: nat, state: State): Sched
    requires p < |s.procs|
  {
    s.(procs := s.procs[p := s.procs[p].(state := state)])
  }

  /** `enqueue`: refused for free, dead and stackless slots. */
  function Enqueue(s: Sched, p: nat): (r: Sched)
    requires p < |s.procs|
  {
    if !s.procs[p].inUse || s.procs[p].state == Zombie || !s.procs[p].runnable then s
    else s.(queue := s.queue + [p])
  }

  predicate Eligible(s: Sched, p: nat) {
    p < |s.procs| && s.procs[p].inUse && s.procs[p].state == Ready
  }

  /** Position of the first eligible entry, or the queue's length. */
  function FirstEligible(s: Sched, queue: seq<nat>): (r: nat)
    ensures r <= |queue|
    ensures r < |queue| ==> Eligible(s, queue[r])
    ensures forall i | 0 <= i < r :: !Eligible(s, queue[i])
  {
    if queue == [] || Eligible(s, queue[0]) then 0 else 1 + FirstEligible(s, queue[1..])
  }

  /** `next_ready`: everything in front of the first eligible entry is dropped with it. */
  function NextReady(s: Sched): (r: (Sched, nat))
    ensures r.0 == s.(queue := r.0.queue)
    ensures r.1 == IDLE || (r.1 in s.queue && Eligible(s, r.1))
    ensures Shaped(s) ==> Shaped(r.0) && r.1 <= IDLE
  {
    var i := FirstEligible(s, s.queue);
    if i < |s.queue| then (s.(queue := s.queue[i + 1..]), s.queue[i]) else (s.(queue := []), IDLE)
  }

  function Activate(s: Sched, p: nat): Sched
    requires p < |s.procs|
  {
    SetState(s, p, Running).(current := p)
  }

  // ---------------------------------------------------------------- scheduling steps

  /** A running process goes to the back of the queue. */
  function Requeue(s: Sched): (r: Sched)
    requires Shaped(s)
    ensures Shaped(r) && r.current == s.current
  {
    if s.current != IDLE && s.procs[s.current].state == Running
    then Enqueue(SetState(s, s.current, Ready), s.current) else s
  }

  /** The body of `scheduler_timer_tick` after the timeouts are polled; the quantum is one tick. */
  function Tick(s: Sched): (r: Sched)
    requires Shaped(s)
    ensures Shaped(r)
  {
    var (b, n) := NextReady(Requeue(s));
    if n == s.current then b else if n == IDLE then Stay(b) else Activate(b, n)
  }

  /** Nothing else to run: a ready or running process keeps the processor, any other yields to idle. */
  function Stay(s: Sched): (r: Sched)
    requires Shaped(s)
    ensures Shaped(r)
  {
    if s.current != IDLE && s.procs[s.current].state == Ready then SetState(s, s.current, Running)
    else s.(current := if s.procs[s.current].state == Running then s.current else IDLE)
  }

  /** `scheduler_yield`, which fills the quantum and calls `rr_tick`: with nothing to run it goes to idle at once. */
  function Yielding(s: Sched): (r: Sched)
    requires Shaped(s)
    ensures Shaped(r)
  {
    var (b, n) := NextReady(Requeue(s));
    if n == s.current then b else Activate(b, n)
  }

  /** `switch_from_current`. */
  function Switch(s: Sched): (r: Sched)
    requires Shaped(s)
    ensures Shaped(r)
  {
    var a := if s.procs[s.current].state == Running then SetState(s, s.current, Blocked) else s;
    var (b, n) := NextReady(a);
    if n == IDLE then Stay(b) else Activate(b, n)
  }

  // ---------------------------------------------------------------- wake-ups

  /** A blocked process becomes ready and joins the queue. */
  function Rouse(s: Sched, p: nat): (r: Sched)
    requires Shaped(s) && p < MAX_PROCESSES
    ensures Shaped(r) && r.current == s.current && r.count == s.count
  {
    Enqueue(s.(procs := s.procs[p := s.procs[p].(state := Ready, key := 0, deadline := 0)]), p)
  }

  predicate WaitsOn(s: Sched, p: nat, key: nat) {
    p < |s.procs| && s.procs[p].state == Blocked && s.procs[p].key == key
  }

  /** The loop of `process_futex_wake` after examining the first `n` slots: the state and the number woken. */
  function WakeUpTo(s: Sched, key: nat, limit: nat, n: nat): (r: (Sched, nat))
    requires Shaped(s) && n <= MAX_PROCESSES
    ensures Shaped(r.0) && r.0.current == s.current && r.0.count == s.count
  {
    if n == 0 then (s, 0)
    else
      var (t, woken) := WakeUpTo(s, key, limit, n - 1);
      if (limit == 0 || woken < limit) && WaitsOn(t, n - 1, key) then (Rouse(t, n - 1), woken + 1) else (t, woken)
  }

  /** The signed 32-bit comparison of `process_poll_timeouts`. */
  predicate Expired(deadline: nat, now: nat) {
    (now - deadline) % WORD < 0x8000_0000
  }

  predicate TimesOut(s: Sched, p: nat, now: nat) {
    && p < |s.procs| && s.procs[p].inUse && s.procs[p].state == Blocked
    && s.procs[p].key != 0 && s.procs[p].deadline != 0 && Expired(s.procs[p].deadline, now)
  }

  /** `process_poll_timeouts` after the first `n` slots. */
  function PollUpTo(s: Sched, now: nat, n: nat): (r: Sched)
    requires Shaped(s) && n <= MAX_PROCESSES
    ensures Shaped(r) && r.current == s.current && r.count == s.count
  {
    if n == 0 then s
    else
      var t := PollUpTo(s, now, n - 1);
      if !TimesOut(t, n - 1, now) then t
      else if n - 1 == s.current then
        t.(procs := t.procs[n - 1 := t.procs[n - 1].(state := Running, key := 0, deadline := 0)])
      else Rouse(t, n - 1)
  }

  // ---------------------------------------------------------------- events

  /**
    `Block` is any wait of the current process, on a futex or for a child, with the switch its
    system call ends with; `ExitCurrent` is an exit with that switch.  `Kill` is an exit without
    one: a signal 9, or a kernel thread that exits and halts until the next tick.
   */
  datatype Event =
    | TimerTick(now: nat)
    | Yield
    | Block(key: nat, deadline: nat)
    | ExitCurrent
    | FutexWake(key: nat, limit: nat)
    | Signal(p: nat)
    | Kill(p: nat)
    | Create(p: nat, runnable: bool)
    | Add(p: nat)
    | Start(p: nat)
    | Reap(p: nat)

  /** What the callers in the kernel guarantee. */
  predicate Allowed(s: Sched, e: Event) {
    match e
    case TimerTick(_) => true
    case Yield => true
    case Block(_, _) => s.current < IDLE
    case ExitCurrent => s.current < IDLE
    case FutexWake(_, _) => true
    case Signal(p) => p < MAX_PROCESSES
    case Kill(p) => p < MAX_PROCESSES
    case Create(p, _) => p < MAX_PROCESSES && p <= s.count && |s.procs| > p && !s.procs[p].inUse
    case Add(p) =>
      && p < MAX_PROCESSES && p < |s.procs| && p != s.current && p !in s.queue
      && (s.procs[p].inUse ==> s.procs[p].state == Ready)
    case Start(p) =>
      && p < MAX_PROCESSES && p < |s.procs| && s.current in {IDLE, p} && p !in s.queue
      && s.procs[p].inUse && s.procs[p].state in {Ready, Running}
    case Reap(p) =>
      && p < MAX_PROCESSES && p < |s.procs| && s.procs[p].inUse && s.procs[p].state == Zombie
      && p != s.current && p !in s.queue
  }

  /** The current process waiting on `key` until `deadline`. */
  function Sleeping(s: Sched, key: nat, deadline: nat): Sched
    requires Shaped(s)
  {
    s.(procs := s.procs[s.current := s.procs[s.current].(state := Blocked, key := key, deadline := deadline)])
  }

  function Step(s: Sched, e: Event): Sched
    requires Shaped(s) && Allowed(s, e)
  {
    match e
    case TimerTick(now) => Tick(PollUpTo(s, now, s.count))
    case Yield => Yielding(s)
    case Block(key, deadline) => Switch(Sleeping(s, key, deadline))
    case ExitCurrent => Switch(SetState(s, s.current, Zombie))
    case FutexWake(key, limit) => if key == 0 then s else WakeUpTo(s, key, limit, s.count).0
    case Signal(p) => if s.procs[p].inUse && s.procs[p].state == Blocked then Rouse(s, p) else s
    case Kill(p) => if s.procs[p].inUse then SetState(s, p, Zombie) else s
    case Create(p, runnable) =>
      s.(procs := s.procs[p := Proc(true, Ready, runnable, 0, 0)], count := if p == s.count then p + 1 else s.count)
    case Add(p) => if s.procs[p].inUse && s.procs[p].runnable then Enqueue(s, p) else s
    case Start(p) => Activate(s, p)
    case Reap(p) => s.(procs := s.procs[p := s.procs[p].(inUse := false, state := Ready)])
  }

  // ---------------------------------------------------------------- every event keeps the invariant

  /** The invariant while the running process has just blocked or died. */
  ghost predicate Leaving(s: Sched) {
    && Shaped(s)
    && Distinct(s.queue) && s.current !in s.queue
    && (forall i | 0 <= i < |s.queue| :: s.procs[s.queue[i]].inUse && s.procs[s.queue[i]].state in {Ready, Zombie})
    && (forall p: nat | p < MAX_PROCESSES :: s.procs[p].state != Running)
    && s.current < IDLE && s.procs[s.current].inUse && s.procs[s.current].state in {Blocked, Zombie}
    && (forall p: nat | p < MAX_PROCESSES && s.procs[p].state == Blocked :: s.procs[p].inUse)
    && (forall p: nat | p < MAX_PROCESSES && s.procs[p].inUse :: p < s.count)
  }

  /** What is left of the queue is a suffix without the process taken from it. */
  lemma NextReadySuffix(s: Sched)
    requires Distinct(s.queue)
    ensures var (t, n) := NextReady(s);
            && Distinct(t.queue) && n !in t.queue && (forall p | p in t.queue :: p in s.queue)
  {
    var i := FirstEligible(s, s.queue);
    if i < |s.queue| {
      var rest := s.queue[i + 1..];
      forall j, k | 0 <= j < k < |rest| ensures rest[j] != rest[k] {
        assert s.queue[i + 1 + j] != s.queue[i + 1 + k];
      }
      forall j | 0 <= j < |rest| ensures rest[j] != s.queue[i] { assert s.queue[i] != s.queue[i + 1 + j]; }
    }
  }

  lemma SwitchKeeps(s: Sched)
    requires Leaving(s)
    ensures Inv(Switch(s))
  {
    NextReadySuffix(s);
  }

  /** The invariant after the running process was put back: nobody is running. */
  ghost predicate Between(s: Sched) {
    && Shaped(s)
    && Distinct(s.queue)
    && (forall i | 0 <= i < |s.queue| :: s.procs[s.queue[i]].inUse && s.procs[s.queue[i]].state in {Ready, Zombie})
    && (forall p: nat | p < MAX_PROCESSES :: s.procs[p].state != Running)
    && (s.current < IDLE ==> s.procs[s.current].inUse && s.procs[s.current].state in {Ready, Zombie})
    && (forall p: nat | p < MAX_PROCESSES && s.procs[p].state == Blocked :: s.procs[p].inUse)
    && (forall p: nat | p < MAX_PROCESSES && s.procs[p].inUse :: p < s.count)
  }

  lemma RequeueKeeps(s: Sched)
    requires Inv(s)
    ensures Between(Requeue(s))
  {
  }

  /** Taking the next process out of the queue. */
  lemma TakenKeeps(s: Sched)
    requires Between(s)
    ensures var (t, n) := NextReady(s);
            && Between(t) && n !in t.queue && t.procs == s.procs && t.current == s.current
            && (n == IDLE ==> t.queue == []) && (n != IDLE ==> n < MAX_PROCESSES && Eligible(t, n))
  {
    NextReadySuffix(s);
  }

  lemma ActivateKeeps(s: Sched, p: nat)
    requires Between(s) && p < MAX_PROCESSES && p !in s.queue && Eligible(s, p)
    ensures Inv(Activate(s, p))
  {
  }

  lemma StayKeeps(s: Sched)
    requires Between(s) && s.queue == []
    ensures Inv(Stay(s))
  {
  }

  lemma TickKeeps(s: Sched)
    requires Inv(s)
    ensures Inv(Tick(s))
  {
    hide NextReady, Requeue, Activate, Stay;
    var a := Requeue(s);
    RequeueKeeps(s);
    TakenKeeps(a);
    var (b, n) := NextReady(a);
    if n == s.current {
    } else if n == IDLE {
      StayKeeps(b);
    } else {
      ActivateKeeps(b, n);
    }
  }

  lemma ToIdleKeeps(s: Sched)
    requires Between(s) && s.queue == []
    ensures Inv(Activate(s, IDLE))
  {
  }

  lemma YieldKeeps(s: Sched)
    requires Inv(s)
    ensures Inv(Yielding(s))
  {
    hide NextReady, Requeue, Activate;
    var a := Requeue(s);
    RequeueKeeps(s);
    TakenKeeps(a);
    var (b, n) := NextReady(a);
    if n == s.current {
    } else if n == IDLE {
      ToIdleKeeps(b);
    } else {
      ActivateKeeps(b, n);
    }
  }

  lemma RouseKeeps(s: Sched, p: nat)
    requires Inv(s) && p < MAX_PROCESSES && s.procs[p].state == Blocked
    ensures Inv(Rouse(s, p))
  {
  }

  lemma {:induction false} WakeKeeps(s: Sched, key: nat, limit: nat, n: nat)
    requires Inv(s) && n <= MAX_PROCESSES
    ensures Inv(WakeUpTo(s, key, limit, n).0)
  {
    hide Distinct;
    if n == 0 {
    } else {
      WakeKeeps(s, key, limit, n - 1);
      var (t, woken) := WakeUpTo(s, key, limit, n - 1);
      if WaitsOn(t, n - 1, key) { RouseKeeps(t, n - 1); }
    }
  }

  lemma {:induction false} PollKeeps(s: Sched, now: nat, n: nat)
    requires Inv(s) && n <= MAX_PROCESSES
    ensures Inv(PollUpTo(s, now, n))
  {
    if n == 0 {
    } else {
      PollKeeps(s, now, n - 1);
      var t := PollUpTo(s, now, n - 1);
      if TimesOut(t, n - 1, now) { RouseKeeps(t, n - 1); }
    }
  }

  /** Blocking and switching are one step, so the loop never finds the current process waiting. */
  lemma CurrentIsNotPolled(s: Sched, now: nat, n: nat)
    requires Inv(s) && n <= MAX_PROCESSES && s.current < IDLE
    ensures !TimesOut(PollUpTo(s, now, n), s.current, now)
  {
    PollKeeps(s, now, n);
  }

  /** Events that touch one slot and the queue's end. */
  lemma SlotKeeps(s: Sched, e: Event)
    requires Inv(s) && Allowed(s, e) && (e.Kill? || e.Create? || e.Add? || e.Start? || e.Reap?)
    ensures Inv(Step(s, e))
  {
    hide Tick, Yielding, Switch, PollUpTo, WakeUpTo, Rouse;
  }

  lemma StepKeeps(s: Sched, e: Event)
    requires Inv(s) && Allowed(s, e)
    ensures Inv(Step(s, e))
  {
    hide Tick, Yielding, Switch, PollUpTo, WakeUpTo, Rouse;
    match e
    case TimerTick(now) => PollKeeps(s, now, s.count); TickKeeps(PollUpTo(s, now, s.count));
    case Yield => YieldKeeps(s);
    case Block(key, deadline) => SwitchKeeps(Sleeping(s, key, deadline));
    case ExitCurrent => SwitchKeeps(SetState(s, s.current, Zombie));
    case FutexWake(key, limit) => WakeKeeps(s, key, limit, s.count);
    case Signal(p) => if s.procs[p].inUse && s.procs[p].state == Blocked { RouseKeeps(s, p); }
    case _ => SlotKeeps(s, e);
  }

  /** The table, the queue and the running process stay consistent over every run of allowed events. */
  ghost predicate AllowedRun(s: Sched, events: seq<Event>)
    decreases |events|
  {
    events != [] ==> Shaped(s) && Allowed(s, events[0]) && (Inv(s) ==> AllowedRun(Step(s, events[0]), events[1..]))
  }

  ghost function After(s: Sched, events: seq<Event>): Sched
    requires Inv(s) && AllowedRun(s, events)
    decreases |events|
  {
    if events == [] then s else StepKeeps(s, events[0]); After(Step(s, events[0]), events[1..])
  }

  lemma {:induction false} RunKeeps(s: Sched, events: seq<Event>)
    requires Inv(s) && AllowedRun(s, events)
    ensures Inv(After(s, events))
    decreases |events|
  {
    if events == [] {
    } else {
      StepKeeps(s, events[0]);
      RunKeeps(Step(s, events[0]), events[1..]);
    }
  }

  // ---------------------------------------------------------------- bounded waiting

  /** `p` waits at position `i` of the queue. */
  ghost predicate Waits(s: Sched, p: nat, i: nat) {
    i < |s.queue| && s.queue[i] == p && Eligible(s, p)
  }

  /** `p` has the processor, or waits nearer to the front than `i`. */
  ghost predicate Nearer(s: Sched, p: nat, i: nat) {
    s.current == p || exists j: nat | j < i :: Waits(s, p, j)
  }

  /** Taking the next process moves every other waiting process forward. */
  lemma NextReadyAdvances(s: Sched, p: nat, i: nat)
    requires Shaped(s) && Waits(s, p, i)
    ensures var (t, n) := NextReady(s); n != IDLE && (n == p || exists j: nat | j < i :: Waits(t, p, j))
  {
    var f := FirstEligible(s, s.queue);
    var (t, n) := NextReady(s);
    if f < i { assert Waits(t, p, i - f - 1); }
  }

  lemma TickAdvances(s: Sched, p: nat, i: nat)
    requires Inv(s) && Waits(s, p, i)
    ensures Nearer(Tick(s), p, i)
  {
    var a := Requeue(s);
    assert Waits(a, p, i);
    NextReadyAdvances(a, p, i);
    var (b, n) := NextReady(a);
    if n != p {
      var j: nat :| j < i && Waits(b, p, j);
      assert n != s.current ==> Waits(Activate(b, n), p, j);
    }
  }

  /** A yield differs from a tick only when the queue holds nobody who can run. */
  lemma YieldIsTick(s: Sched)
    requires Shaped(s) && NextReady(Requeue(s)).1 != IDLE
    ensures Yielding(s) == Tick(s)
  {
  }

  lemma YieldAdvances(s: Sched, p: nat, i: nat)
    requires Inv(s) && Waits(s, p, i)
    ensures Nearer(Yielding(s), p, i)
  {
    var a := Requeue(s);
    assert Waits(a, p, i);
    NextReadyAdvances(a, p, i);
    YieldIsTick(s);
    TickAdvances(s, p, i);
  }

  lemma SwitchAdvances(s: Sched, p: nat, i: nat)
    requires Leaving(s) && Waits(s, p, i)
    ensures Nearer(Switch(s), p, i)
  {
    NextReadyAdvances(s, p, i);
    var (b, n) := NextReady(s);
    if n != p {
      var j: nat :| j < i && Waits(b, p, j);
      assert Waits(Activate(b, n), p, j);
    }
  }

  lemma RouseWaits(s: Sched, q: nat, p: nat, i: nat)
    requires Shaped(s) && q < MAX_PROCESSES && s.procs[q].state == Blocked && Waits(s, p, i)
    ensures Waits(Rouse(s, q), p, i)
  {
  }

  lemma {:induction false} WakeWaits(s: Sched, key: nat, limit: nat, n: nat, p: nat, i: nat)
    requires Shaped(s) && n <= MAX_PROCESSES && Waits(s, p, i)
    ensures Waits(WakeUpTo(s, key, limit, n).0, p, i)
  {
    if n == 0 {
    } else {
      WakeWaits(s, key, limit, n - 1, p, i);
      var (t, woken) := WakeUpTo(s, key, limit, n - 1);
      if WaitsOn(t, n - 1, key) { RouseWaits(t, n - 1, p, i); }
    }
  }

  lemma {:induction false} PollWaits(s: Sched, now: nat, n: nat, p: nat, i: nat)
    requires Shaped(s) && n <= MAX_PROCESSES && Waits(s, p, i)
    ensures Waits(PollUpTo(s, now, n), p, i)
  {
    if n == 0 {
    } else {
      PollWaits(s, now, n - 1, p, i);
      var t := PollUpTo(s, now, n - 1);
      if TimesOut(t, n - 1, now) { RouseWaits(t, n - 1, p, i); }
    }
  }

  predicate Schedules(e: Event) {
    e.TimerTick? || e.Yield? || e.Block? || e.ExitCurrent?
  }

  /** A scheduling event brings `p` nearer; any other event that does not kill it leaves it in place. */
  lemma StepWaits(s: Sched, e: Event, p: nat, i: nat)
    requires Inv(s) && Allowed(s, e) && e != Kill(p) && Waits(s, p, i)
    ensures if Schedules(e) then Nearer(Step(s, e), p, i) else Waits(Step(s, e), p, i)
  {
    match e
    case TimerTick(now) =>
      PollKeeps(s, now, s.count);
      PollWaits(s, now, s.count, p, i);
      TickAdvances(PollUpTo(s, now, s.count), p, i);
    case Yield => YieldAdvances(s, p, i);
    case Block(key, deadline) => SwitchAdvances(Sleeping(s, key, deadline), p, i);
    case ExitCurrent => SwitchAdvances(SetState(s, s.current, Zombie), p, i);
    case FutexWake(key, limit) => WakeWaits(s, key, limit, s.count, p, i);
    case Signal(q) => if s.procs[q].inUse && s.procs[q].state == Blocked { RouseWaits(s, q, p, i); }
    case _ =>
  }

  function SchedulingSteps(events: seq<Event>): nat {
    if events == [] then 0 else (if Schedules(events[0]) then 1 else 0) + SchedulingSteps(events[1..])
  }

  /** `p` has the processor in some state of the run. */
  ghost predicate GetsProcessor(s: Sched, events: seq<Event>, p: nat)
    requires Inv(s) && AllowedRun(s, events)
    decreases |events|
  {
    s.current == p || (events != [] && (StepKeeps(s, events[0]); GetsProcessor(Step(s, events[0]), events[1..], p)))
  }

  /** A ready process at position `i` runs within `i + 1` scheduling steps, whatever happens, unless it is killed. */
  lemma {:induction false} BoundedWaiting(s: Sched, events: seq<Event>, p: nat, i: nat)
    requires Inv(s) && AllowedRun(s, events) && Kill(p) !in events
    requires s.current == p || Waits(s, p, i)
    requires SchedulingSteps(events) >= i + 1
    ensures GetsProcessor(s, events, p)
    decreases |events|
  {
    if s.current == p {
    } else {
      StepKeeps(s, events[0]);
      StepWaits(s, events[0], p, i);
      var t := Step(s, events[0]);
      assert Kill(p) !in events[1..];
      if Schedules(events[0]) {
        if t.current != p {
          var j: nat :| j < i && Waits(t, p, j);
          BoundedWaiting(t, events[1..], p, j);
        }
      } else {
        BoundedWaiting(t, events[1..], p, i);
      }
    }
  }

  // ---------------------------------------------------------------- rotation

  /** A running process and at least one other, all of them able to run. */
  ghost predicate Rotating(s: Sched) {
    && Inv(s) && s.current < IDLE && |s.queue| > 0
    && s.procs[s.current].state == Running && s.procs[s.current].runnable
    && forall i | 0 <= i < |s.queue| :: Eligible(s, s.queue[i]) && s.procs[s.queue[i]].runnable
  }

  /** The running process followed by the ready queue. */
  ghost function Order(s: Sched): seq<nat> {
    [s.current] + s.queue
  }

  ghost function Ticks(s: Sched, t: nat): (r: Sched)
    requires Shaped(s)
    ensures Shaped(r)
  {
    if t == 0 then s else Tick(Ticks(s, t - 1))
  }

  lemma TickRotates(s: Sched)
    requires Rotating(s)
    ensures Rotating(Tick(s)) && Order(Tick(s)) == Order(s)[1..] + [Order(s)[0]]
  {
    TickKeeps(s);
    var a := Requeue(s);
    assert a.queue == s.queue + [s.current];
    assert FirstEligible(a, a.queue) == 0;
    assert NextReady(a).0.queue == s.queue[1..] + [s.current];
  }

  /** `list` turned left by `k` places. */
  ghost function Turned(list: seq<nat>, k: nat): seq<nat>
    requires k <= |list|
  {
    list[k..] + list[..k]
  }

  /** The place in the order that runs after `t` ticks, counted round and round. */
  function Place(t: nat, n: nat): (r: nat)
    requires n > 0
    ensures r < n
  {
    if t == 0 then 0 else if Place(t - 1, n) + 1 == n then 0 else Place(t - 1, n) + 1
  }

  lemma {:induction false} PlaceIsRemainder(t: nat, n: nat)
    requires n > 0
    ensures Place(t, n) == t % n
  {
    if t == 0 {
    } else {
      PlaceIsRemainder(t - 1, n);
      DivModNext(t - 1, n);
    }
  }

  lemma {:induction false} TicksTurn(s: Sched, t: nat)
    requires Shaped(s) && Rotating(s)
    ensures Rotating(Ticks(s, t)) && Order(Ticks(s, t)) == Turned(Order(s), Place(t, |Order(s)|))
  {
    hide Tick, Rotating;
    if t == 0 {
    } else {
      TicksTurn(s, t - 1);
      TickRotates(Ticks(s, t - 1));
      TurnedNext(Order(s), Place(t - 1, |Order(s)|));
    }
  }

  /** After any number of ticks the processes run in turn, and nobody is lost. */
  lemma RoundRobin(s: Sched, t: nat)
    requires Rotating(s)
    ensures var k := t % |Order(s)|;
            var r := Ticks(s, t);
            Rotating(r) && r.current == Order(s)[k] && Order(r) == Turned(Order(s), k)
  {
    TicksTurn(s, t);
    PlaceIsRemainder(t, |Order(s)|);
    assert Order(Ticks(s, t))[0] == Ticks(s, t).current;
  }

  lemma TurnedNext(list: seq<nat>, k: nat)
    requires k < |list|
    ensures Turned(list, k)[1..] + [Turned(list, k)[0]] ==
            if k + 1 == |list| then Turned(list, 0) else Turned(list, k + 1)
  {
  }

  // ---------------------------------------------------------------- losing a process

  /** Ready and able to run, but neither queued nor running. */
  ghost predicate Stranded(s: Sched, p: nat) {
    p < MAX_PROCESSES && Eligible(s, p) && s.procs[p].runnable && p !in s.queue && p != s.current
  }

  /** The current process is marked ready without being queued. */
  ghost predicate Unqueued(s: Sched, p: nat)
    requires Shaped(s)
  {
    p == s.current && p < IDLE && s.procs[p].state == Ready && s.procs[p].runnable
  }

  /** It is, while another process can be taken. */
  ghost predicate Strands(s: Sched, p: nat)
    requires Shaped(s)
  {
    Unqueued(s, p) && NextReady(s).1 != IDLE
  }

  /** A tick strands a process exactly under that condition. */
  lemma TickStrandsIff(s: Sched, p: nat)
    requires Inv(s)
    ensures Stranded(Tick(s), p) <==> Stranded(s, p) || Strands(s, p)
  {
    hide NextReady;
    var a := Requeue(s);
    var (b, n) := NextReady(a);
    RequeueKeeps(s);
    NextReadySuffix(a);
    DroppedAreDead(a, p);
    assert p in a.queue <==> p in s.queue || (p == s.current && a.queue != s.queue);
  }

  /** A yield strands exactly such a process, whether or not another can be taken. */
  lemma YieldStrandsIff(s: Sched, p: nat)
    requires Inv(s)
    ensures Stranded(Yielding(s), p) <==> Stranded(s, p) || Unqueued(s, p)
  {
    hide NextReady;
    var a := Requeue(s);
    var (b, n) := NextReady(a);
    RequeueKeeps(s);
    NextReadySuffix(a);
    DroppedAreDead(a, p);
    assert p in a.queue <==> p in s.queue || (p == s.current && a.queue != s.queue);
  }

  /** Only entries that cannot run are dropped from the queue. */
  lemma DroppedAreDead(s: Sched, p: nat)
    ensures var (t, n) := NextReady(s); p in s.queue && Eligible(s, p) ==> p in t.queue || p == n
    ensures var (t, n) := NextReady(s); p !in s.queue ==> p !in t.queue
  {
    var f := FirstEligible(s, s.queue);
    if p in s.queue && Eligible(s, p) {
      var i :| 0 <= i < |s.queue| && s.queue[i] == p;
      if f < i { assert s.queue[f + 1..][i - f - 1] == p; }
    }
  }

  lemma RouseStrands(s: Sched, q: nat, p: nat)
    requires Shaped(s) && q < MAX_PROCESSES && s.procs[q].state == Blocked
    ensures Stranded(Rouse(s, q), p) <==> Stranded(s, p)
  {
  }

  lemma {:induction false} WakeStrands(s: Sched, key: nat, limit: nat, n: nat, p: nat)
    requires Shaped(s) && n <= MAX_PROCESSES
    ensures Stranded(WakeUpTo(s, key, limit, n).0, p) <==> Stranded(s, p)
  {
    hide Rouse, Stranded;
    if n == 0 {
    } else {
      WakeStrands(s, key, limit, n - 1, p);
      var (t, woken) := WakeUpTo(s, key, limit, n - 1);
      if WaitsOn(t, n - 1, key) { RouseStrands(t, n - 1, p); }
    }
  }

  lemma {:induction false} PollStrands(s: Sched, now: nat, n: nat, p: nat)
    requires Shaped(s) && n <= MAX_PROCESSES
    ensures Stranded(PollUpTo(s, now, n), p) <==> Stranded(s, p)
  {
    hide Rouse;
    if n == 0 {
    } else {
      PollStrands(s, now, n - 1, p);
      var t := PollUpTo(s, now, n - 1);
      if TimesOut(t, n - 1, now) { RouseStrands(t, n - 1, p); }
    }
  }

  lemma SwitchStrands(s: Sched, p: nat)
    requires Leaving(s)
    ensures Stranded(Switch(s), p) <==> Stranded(s, p)
  {
    hide NextReady;
    NextReadySuffix(s);
    DroppedAreDead(s, p);
  }

  /** When `p` is stranded after `e`, told before it. */
  ghost predicate StrandedBy(s: Sched, e: Event, p: nat)
    requires Shaped(s)
  {
    match e
    case TimerTick(now) => Stranded(s, p) || Strands(PollUpTo(s, now, s.count), p)
    case Yield => Stranded(s, p) || Unqueued(s, p)
    case Kill(q) => Stranded(s, p) && q != p
    case Create(q, runnable) => if q == p then runnable else Stranded(s, p)
    case Add(q) => Stranded(s, p) && q != p
    case Start(q) => Stranded(s, p) && q != p
    case _ => Stranded(s, p)
  }

  /** Over every event: only a tick or a yield strands a process that exists, and only under those conditions. */
  lemma StepStrandsIff(s: Sched, e: Event, p: nat)
    requires Inv(s) && Allowed(s, e)
    ensures Stranded(Step(s, e), p) <==> StrandedBy(s, e, p)
  {
    hide Tick, Yielding, Switch, PollUpTo, WakeUpTo, Rouse;
    match e
    case TimerTick(now) =>
      PollKeeps(s, now, s.count);
      PollStrands(s, now, s.count, p);
      TickStrandsIff(PollUpTo(s, now, s.count), p);
    case Yield => YieldStrandsIff(s, p);
    case Block(key, deadline) => SwitchStrands(Sleeping(s, key, deadline), p);
    case ExitCurrent => SwitchStrands(SetState(s, s.current, Zombie), p);
    case FutexWake(key, limit) => WakeStrands(s, key, limit, s.count, p);
    case Signal(q) => if s.procs[q].inUse && s.procs[q].state == Blocked { RouseStrands(s, q, p); }
    case _ =>
  }

  /** A process that ticks alone is stranded by the next process that arrives. */
  lemma LoneTickThenArrival(s: Sched, q: nat)
    requires Inv(s) && s.current < IDLE && s.procs[s.current].state == Running && s.procs[s.current].runnable
    requires s.queue == [] && q < MAX_PROCESSES && q != s.current
    requires Eligible(s, q) && s.procs[q].runnable
    ensures var t := Step(Tick(s), Add(q)); Inv(t) && Tick(t).current == q && Stranded(Tick(t), s.current)
  {
    var one := Tick(s);
    TickKeeps(s);
    LoneTick(s);
    StepKeeps(one, Add(q));
    LoneTickAfter(Step(one, Add(q)), q);
  }

  /** A process that ticks alone and then yields gives the processor to idle, and is lost. */
  lemma LoneTickThenYield(s: Sched)
    requires Inv(s) && s.current < IDLE && s.procs[s.current].state == Running && s.procs[s.current].runnable
    requires s.queue == []
    ensures Inv(Tick(s))
    ensures var t := Step(Tick(s), Yield); t.current == IDLE && Stranded(t, s.current)
  {
    TickKeeps(s);
    LoneTick(s);
    YieldStrandsIff(Tick(s), s.current);
  }

  lemma LoneTick(s: Sched)
    requires Inv(s) && s.current < IDLE && s.procs[s.current].state == Running && s.procs[s.current].runnable
    requires s.queue == []
    ensures Tick(s) == SetState(s, s.current, Ready)
  {
    var a := Requeue(s);
    assert a.queue == [s.current];
    assert FirstEligible(a, a.queue) == 0;
  }

  lemma LoneTickAfter(t: Sched, q: nat)
    requires Inv(t) && t.current < IDLE && Eligible(t, t.current) && t.procs[t.current].runnable
    requires t.queue == [q] && Eligible(t, q)
    ensures Tick(t).current == q && Stranded(Tick(t), t.current)
  {
    assert FirstEligible(t, [q]) == 0;
  }

  // ---------------------------------------------------------------- reaping a queued process

  /** Where `p` stands in the queue, or the queue's length. */
  function Position(queue: seq<nat>, p: nat): (r: nat)
    ensures r <= |queue| && (r < |queue| ==> queue[r] == p)
    ensures forall i | 0 <= i < r :: queue[i] != p
  {
    if queue == [] || queue[0] == p then 0 else 1 + Position(queue[1..], p)
  }

  /** `process_wait` on a dead child clears its link, so the queue ends at a child that was still on it. */
  function Reaped(s: Sched, p: nat): Sched
    requires Shaped(s) && p < MAX_PROCESSES
  {
    var i := Position(s.queue, p);
    s.(procs := s.procs[p := s.procs[p].(inUse := false, state := Ready)],
       queue := if i < |s.queue| then s.queue[..i + 1] else s.queue)
  }

  lemma ReapedShaped(s: Sched, p: nat)
    requires Shaped(s) && p < MAX_PROCESSES
    ensures |s.procs| > p && Shaped(Reaped(s, p))
  {
  }

  /** Off the queue it is the event `Reap`. */
  lemma ReapedOffQueue(s: Sched, p: nat)
    requires Inv(s) && Allowed(s, Reap(p))
    ensures Reaped(s, p) == Step(s, Reap(p))
  {
  }

  /** Reaping the entry at `i` loses exactly the processes behind it, and leaves a free slot on the queue. */
  lemma QueuedReapStrandsIff(s: Sched, i: nat, p: nat)
    requires Inv(s) && i < |s.queue| && s.procs[s.queue[i]].state == Zombie
    ensures var t := Reaped(s, s.queue[i]);
            && t.queue == s.queue[..i + 1] && !Inv(t)
            && (t.queue == s.queue <==> i == |s.queue| - 1)
            && (Stranded(t, p) <==>
                Stranded(s, p) || (p in s.queue[i + 1..] && Eligible(s, p) && s.procs[p].runnable))
  {
    var q := s.queue[i];
    assert Position(s.queue, q) == i;
    var t := Reaped(s, q);
    assert t.queue[i] == q && !t.procs[q].inUse;
    assert s.queue == s.queue[..i + 1] + s.queue[i + 1..];
    assert p in s.queue[..i + 1] ==> p !in s.queue[i + 1..];
  }
}
