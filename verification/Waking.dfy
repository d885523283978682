/** Who is woken, and when (kernel/process.c). */
module Waking {
  import opened Numbers
  import opened Scheduling

  // `Scheduling` says what waking keeps; this module says which processes a futex wake and the
  // timer wake, in which order they join the queue, and what alone ends a wait.

  /** Why a process is woken: for the futex it waits on, or because its deadline has passed. */
  datatype Cause = OnKey(key: nat) | PastDeadline(now: nat)

  predicate Meant(p: Proc, cause: Cause) {
    && p.state == Blocked
    && match cause
       case OnKey(key) => p.key == key
       case PastDeadline(now) => p.inUse && p.key != 0 && p.deadline != 0 && (now - p.deadline) % WORD < 0x8000_0000
  }

  /** The slots below `n` that are meant, in ascending order. */
  function Sleepers(s: Sched, cause: Cause, n: nat): (r: seq<nat>)
    requires n <= |s.procs|
    ensures forall p: nat :: p in r <==> p < n && Meant(s.procs[p], cause)
    ensures forall i, j | 0 <= i < j < |r| :: r[i] < r[j]
  {
    if n == 0 then []
    else
      var r := Sleepers(s, cause, n - 1);
      assert forall i | 0 <= i < |r| :: r[i] in r;
      if Meant(s.procs[n - 1], cause) then r + [n - 1] else r
  }

  /** Those of `who` that can be queued: in use and with a stack to run on. */
  function CanRun(s: Sched, who: seq<nat>): seq<nat> {
    if who == [] then []
    else
      var p := who[|who| - 1];
      CanRun(s, who[..|who| - 1]) + if p < |s.procs| && s.procs[p].inUse && s.procs[p].runnable then [p] else []
  }

  /** `t` is `s` after exactly the processes of `who` were made ready and queued, in that order. */
  ghost predicate Wakes(s: Sched, who: seq<nat>, t: Sched) {
    && |t.procs| == |s.procs| && t.current == s.current && t.count == s.count
    && (forall p: nat | p < |s.procs| ::
          t.procs[p] == if p in who then Proc(s.procs[p].inUse, Ready, s.procs[p].runnable, 0, 0) else s.procs[p])
    && t.queue == s.queue + CanRun(s, who)
  }

  lemma NoSleepers(s: Sched, cause: Cause)
    ensures Sleepers(s, cause, 0) == []
  {
  }

  lemma WakesNobody(s: Sched)
    ensures Wakes(s, [], s)
  {
  }

  lemma WakesOneMore(s: Sched, who: seq<nat>, t: Sched, p: nat)
    requires Shaped(s) && Shaped(t) && Wakes(s, who, t) && p < MAX_PROCESSES && p !in who
    ensures Wakes(s, who + [p], Rouse(t, p))
  {
    assert (who + [p])[..|who|] == who;
    assert CanRun(s, who + [p]) ==
           CanRun(s, who) + if s.procs[p].inUse && s.procs[p].runnable then [p] else [];
  }

  // ---------------------------------------------------------------- the two loops

  /** How many of the waiters a call with this limit wakes; 0 is no limit. */
  function Granted(limit: nat, waiters: nat): nat {
    if limit == 0 || waiters < limit then waiters else limit
  }

  /** A futex wake wakes the first waiters on its key, up to the limit, and returns their number. */
  lemma {:induction false} WakeIs(s: Sched, key: nat, limit: nat, n: nat)
    requires Shaped(s) && n <= MAX_PROCESSES
    ensures var all := Sleepers(s, OnKey(key), n);
            var m := Granted(limit, |all|);
            WakeUpTo(s, key, limit, n).1 == m && Wakes(s, all[..m], WakeUpTo(s, key, limit, n).0)
  {
    hide Rouse, Wakes, CanRun, Sleepers;
    if n == 0 {
      WakesNobody(s);
      NoSleepers(s, OnKey(key));
    } else {
      WakeIs(s, key, limit, n - 1);
      var (t, m) := WakeUpTo(s, key, limit, n - 1);
      WakeNext(s, key, limit, n - 1, t, m);
    }
  }

  lemma WakeNext(s: Sched, key: nat, limit: nat, n: nat, t: Sched, m: nat)
    requires Shaped(s) && Shaped(t) && n < MAX_PROCESSES
    requires m == Granted(limit, |Sleepers(s, OnKey(key), n)|) && Wakes(s, Sleepers(s, OnKey(key), n)[..m], t)
    ensures var all := Sleepers(s, OnKey(key), n + 1);
            if (limit == 0 || m < limit) && WaitsOn(t, n, key)
            then Granted(limit, |all|) == m + 1 && Wakes(s, all[..m + 1], Rouse(t, n))
            else Granted(limit, |all|) == m && Wakes(s, all[..m], t)
  {
    hide Rouse, Wakes, CanRun, Meant, WaitsOn;
    var before, all := Sleepers(s, OnKey(key), n), Sleepers(s, OnKey(key), n + 1);
    NotReached(s, before[..m], t, n);
    KeyTest(t, n, key);
    assert all[..m] == before[..m];
    if WaitsOn(t, n, key) && m == |before| {
      assert before[..m] == before && all[..m + 1] == before + [n];
      WakesOneMore(s, before, t, n);
    }
  }

  /** What the loop sees in a slot it has not reached is what was there at the start. */
  lemma NotReached(s: Sched, who: seq<nat>, t: Sched, n: nat)
    requires Shaped(s) && Shaped(t) && Wakes(s, who, t) && n < MAX_PROCESSES && n !in who
    ensures t.procs[n] == s.procs[n]
  {
  }

  lemma KeyTest(t: Sched, n: nat, key: nat)
    requires n < |t.procs|
    ensures WaitsOn(t, n, key) <==> Meant(t.procs[n], OnKey(key))
  {
  }

  lemma TimeTest(t: Sched, n: nat, now: nat)
    requires n < |t.procs|
    ensures TimesOut(t, n, now) <==> Meant(t.procs[n], PastDeadline(now))
  {
  }

  /** The timer wakes exactly the processes whose deadline has passed. */
  lemma {:induction false} PollIs(s: Sched, now: nat, n: nat)
    requires Inv(s) && n <= MAX_PROCESSES
    ensures Wakes(s, Sleepers(s, PastDeadline(now), n), PollUpTo(s, now, n))
  {
    hide Rouse, Wakes, CanRun, Meant;
    if n == 0 {
      WakesNobody(s);
    } else {
      PollIs(s, now, n - 1);
      var before, t := Sleepers(s, PastDeadline(now), n - 1), PollUpTo(s, now, n - 1);
      NotReached(s, before, t, n - 1);
      TimeTest(t, n - 1, now);
      if TimesOut(t, n - 1, now) {
        if s.current < IDLE { CurrentIsNotPolled(s, now, n - 1); }
        WakesOneMore(s, before, t, n - 1);
      }
    }
  }

  // ---------------------------------------------------------------- deadlines

  /** The deadline `process_futex_wait` sets for a wait of `timeout` milliseconds begun at `now`; 0 is none. */
  function DeadlineFor(now: nat, timeout: nat): nat {
    if timeout == 0 then 0 else (now + timeout) % WORD
  }

  /**
    A wait shorter than 2^31 ms ends at the first poll at least `timeout` later (polls being less than
    2^31 ms apart from its start), unless the deadline happens to be 0: then it never ends.
   */
  lemma TimesOutIff(p: Proc, now: nat, timeout: nat, elapsed: nat)
    requires p.state == Blocked && p.inUse && p.key != 0 && p.deadline == DeadlineFor(now, timeout)
    requires 0 < timeout < 0x8000_0000 && elapsed < 0x8000_0000
    ensures Meant(p, PastDeadline((now + elapsed) % WORD)) <==> elapsed >= timeout && (now + timeout) % WORD != 0
  {
    WrappedDistance(now + elapsed, now + timeout);
  }

  /** A wait without a timeout is ended by no poll. */
  lemma EndlessWait(p: Proc, now: nat, later: nat)
    requires p.deadline == DeadlineFor(now, 0)
    ensures !Meant(p, PastDeadline(later))
  {
  }

  /** A longer wait ends at once. */
  lemma LongWaitEndsAtOnce(p: Proc, now: nat, timeout: nat)
    requires p.state == Blocked && p.inUse && p.key != 0 && p.deadline == DeadlineFor(now, timeout)
    requires 0x8000_0000 < timeout < WORD
    ensures Meant(p, PastDeadline(now % WORD)) <==> (now + timeout) % WORD != 0
  {
    WrappedDistance(now, now + timeout);
  }

  lemma WrappedDistance(a: nat, b: nat)
    ensures (a % WORD - b % WORD) % WORD == (a - b) % WORD
  {
    Decompose(a, WORD);
    Decompose(b, WORD);
    var k := a / WORD - b / WORD;
    assert a - b == (a % WORD - b % WORD) + k * WORD;
  }

  // ---------------------------------------------------------------- what ends a wait

  /** `e` ends the wait of the blocked process `p`. */
  ghost predicate Ends(s: Sched, e: Event, p: nat)
    requires p < |s.procs|
  {
    match e
    case TimerTick(now) => Meant(s.procs[p], PastDeadline(now))
    case FutexWake(key, limit) =>
      key != 0 && Meant(s.procs[p], OnKey(key)) && (limit == 0 || |Sleepers(s, OnKey(key), p)| < limit)
    case Signal(q) => q == p
    case Kill(q) => q == p
    case _ => false
  }

  lemma {:induction false} SleepersPrefix(s: Sched, cause: Cause, p: nat, n: nat)
    requires p < n <= |s.procs| && Meant(s.procs[p], cause)
    ensures var k := |Sleepers(s, cause, p)|; k < |Sleepers(s, cause, n)| && Sleepers(s, cause, n)[k] == p
  {
    hide Meant;
    if n == p + 1 {
    } else {
      SleepersPrefix(s, cause, p, n - 1);
    }
  }

  /** Being among the first `m` waiters is having fewer than `m` in front. */
  lemma AmongFirst(s: Sched, key: nat, limit: nat, p: nat, n: nat)
    requires p < n <= |s.procs|
    ensures var all := Sleepers(s, OnKey(key), n);
            p in all[..Granted(limit, |all|)] <==>
            Meant(s.procs[p], OnKey(key)) && (limit == 0 || |Sleepers(s, OnKey(key), p)| < limit)
  {
    hide Meant, Sleepers;
    var all, k := Sleepers(s, OnKey(key), n), |Sleepers(s, OnKey(key), p)|;
    var m := Granted(limit, |all|);
    if Meant(s.procs[p], OnKey(key)) {
      SleepersPrefix(s, OnKey(key), p, n);
      if k < m { assert all[..m][k] == p; }
    }
  }

  /** A tick, a yield or a switch leaves every process that it does not schedule as it was. */
  lemma TickLeaves(s: Sched, p: nat)
    requires Inv(s) && p < MAX_PROCESSES
    ensures s.procs[p].state in {Blocked, Zombie} ==> Tick(s).procs[p] == s.procs[p]
    ensures s.procs[p].state in {Blocked, Zombie} ==> Yielding(s).procs[p] == s.procs[p]
    ensures s.procs[p].state != Blocked ==> Tick(s).procs[p].state != Blocked
    ensures s.procs[p].state in {Blocked, Zombie} && p != s.current ==> Tick(s).current != p && Yielding(s).current != p
  {
    hide NextReady;
    RequeueKeeps(s);
    TakenKeeps(Requeue(s));
  }

  lemma SwitchLeaves(s: Sched, p: nat)
    requires Leaving(s) && p < MAX_PROCESSES && s.procs[p].state in {Blocked, Zombie}
    ensures Switch(s).procs[p] == s.procs[p] && Switch(s).current != p
  {
    hide NextReady;
    NextReadySuffix(s);
  }

  /** Over every event: a wait ends for these reasons only, and until then key and deadline stay. */
  lemma StepEndsIff(s: Sched, e: Event, p: nat)
    requires Inv(s) && Allowed(s, e) && p < MAX_PROCESSES && s.procs[p].state == Blocked
    ensures Step(s, e).procs[p].state != Blocked <==> Ends(s, e, p)
    ensures !Ends(s, e, p) ==> Step(s, e).procs[p] == s.procs[p]
  {
    hide Tick, Yielding, Switch, PollUpTo, WakeUpTo, Meant, Sleepers;
    match e
    case TimerTick(now) =>
      PollIs(s, now, s.count);
      PollKeeps(s, now, s.count);
      TickLeaves(PollUpTo(s, now, s.count), p);
    case Yield => TickLeaves(s, p);
    case Block(key, deadline) => SwitchLeaves(Sleeping(s, key, deadline), p);
    case ExitCurrent => SwitchLeaves(SetState(s, s.current, Zombie), p);
    case FutexWake(key, limit) =>
      WakeIs(s, key, limit, s.count);
      AmongFirst(s, key, limit, p, s.count);
    case _ =>
  }

  /** Blocking takes effect: the process leaves the processor, waiting on what it asked for. */
  lemma BlockTakesEffect(s: Sched, key: nat, deadline: nat)
    requires Inv(s) && s.current < IDLE
    ensures var t := Step(s, Block(key, deadline));
            && t.procs[s.current] == s.procs[s.current].(state := Blocked, key := key, deadline := deadline)
            && t.current != s.current
  {
    hide Switch;
    SwitchLeaves(Sleeping(s, key, deadline), s.current);
  }

  /** A process that waits on a futex and is then woken through it is ready, and in the queue if it can run. */
  lemma BlockThenWake(s: Sched, key: nat, deadline: nat)
    requires Inv(s) && s.current < IDLE && key != 0
    ensures var t := Step(Step(s, Block(key, deadline)), FutexWake(key, 0));
            && t.procs[s.current].state == Ready
            && (s.procs[s.current].runnable ==> s.current in t.queue)
  {
    hide Switch, WakeUpTo, Sleepers;
    var p, mid := s.current, Step(s, Block(key, deadline));
    BlockTakesEffect(s, key, deadline);
    StepKeeps(s, Block(key, deadline));
    WakeIs(mid, key, 0, mid.count);
    var all := Sleepers(mid, OnKey(key), mid.count);
    assert all[..|all|] == all;
    CanRunHas(mid, all, p);
  }

  lemma {:induction false} CanRunHas(s: Sched, who: seq<nat>, p: nat)
    requires p < |s.procs|
    ensures p in CanRun(s, who) <==> p in who && s.procs[p].inUse && s.procs[p].runnable
  {
    if who == [] {
    } else {
      CanRunHas(s, who[..|who| - 1], p);
      assert who == who[..|who| - 1] + [who[|who| - 1]];
    }
  }

  /** A process that is created and added waits for nothing but its turn, at the end of the queue. */
  lemma NewcomerQueues(s: Sched, p: nat)
    requires Inv(s) && Allowed(s, Create(p, true)) && p != s.current && p !in s.queue
    ensures var t := Step(s, Create(p, true));
            && t.procs[p].key == 0 && t.procs[p].deadline == 0 && Allowed(t, Add(p))
            && Waits(Step(t, Add(p)), p, |s.queue|) && Step(t, Add(p)).queue[..|s.queue|] == s.queue
  {
    StepKeeps(s, Create(p, true));
  }

  // ---------------------------------------------------------------- the dead

  /** `p` has exited, and its slot has not been given up. */
  ghost predicate Dead(s: Sched, p: nat) {
    p < MAX_PROCESSES && p < |s.procs| && s.procs[p].inUse && s.procs[p].state == Zombie && p != s.current
  }

  /** Exiting takes effect. */
  lemma ExitTakesEffect(s: Sched)
    requires Inv(s) && s.current < IDLE
    ensures Dead(Step(s, ExitCurrent), s.current)
  {
    hide Switch;
    SwitchLeaves(SetState(s, s.current, Zombie), s.current);
  }

  lemma DeadStep(s: Sched, e: Event, p: nat)
    requires Inv(s) && Allowed(s, e) && Dead(s, p) && e != Reap(p)
    ensures Dead(Step(s, e), p)
  {
    hide Tick, Yielding, Switch, PollUpTo, WakeUpTo, Sleepers;
    StepKeeps(s, e);
    match e
    case TimerTick(now) =>
      PollIs(s, now, s.count);
      PollKeeps(s, now, s.count);
      TickLeaves(PollUpTo(s, now, s.count), p);
    case Yield => TickLeaves(s, p);
    case Block(key, deadline) => SwitchLeaves(Sleeping(s, key, deadline), p);
    case ExitCurrent => SwitchLeaves(SetState(s, s.current, Zombie), p);
    case FutexWake(key, limit) => WakeIs(s, key, limit, s.count);
    case _ =>
  }

  /** Over every run: the dead never run again until they are reaped. */
  lemma {:induction false} DeadStay(s: Sched, events: seq<Event>, p: nat)
    requires Inv(s) && AllowedRun(s, events) && Dead(s, p) && Reap(p) !in events
    ensures Dead(After(s, events), p) && !GetsProcessor(s, events, p)
    decreases |events|
  {
    hide Dead;
    if events == [] {
      assert p != s.current by { DeadIs(s, p); }
    } else {
      StepKeeps(s, events[0]);
      DeadStep(s, events[0], p);
      DeadIs(s, p);
      DeadStay(Step(s, events[0]), events[1..], p);
    }
  }

  lemma DeadIs(s: Sched, p: nat)
    requires Dead(s, p)
    ensures p != s.current
  {
  }
}
