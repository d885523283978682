/**
  The scheduler itself: a ready list linked through the `next` fields of the process
  table, walked and rewired in place (scheduler/round_robin.c), and the loops of
  kernel/process.c that wake processes.  `queue` is the list those links spell out.  Each
  method is proved to perform the step of `Scheduling` that it stands for.
 */
module RoundRobin {
  import opened Scheduling
  import opened Waking

  const NIL: nat := MAX_PROCESSES + 1

  ghost function At(queue: seq<nat>, j: nat): nat {
    if j < |queue| then queue[j] else NIL
  }

  /** Following `next` from `head` visits exactly `queue`, then stops: the list is acyclic. */
  ghost predicate Linked(next: seq<nat>, head: nat, queue: seq<nat>) {
    && |next| == MAX_PROCESSES + 1
    && head == At(queue, 0)
    && (forall j: nat | j < |queue| :: queue[j] < MAX_PROCESSES)
    && (forall j: nat | j < |queue| :: next[queue[j]] == At(queue, j + 1))
  }

  /** Clearing the link of `p` ends the list at it; the list stays whole if `p` is not on it. */
  lemma LinkCleared(next: seq<nat>, head: nat, queue: seq<nat>, p: nat)
    requires Linked(next, head, queue) && Distinct(queue) && p < MAX_PROCESSES
    ensures var i := Position(queue, p);
            var list := if i < |queue| then queue[..i + 1] else queue;
            |next| > p && Linked(next[p := NIL], head, list) && Distinct(list)
  {
    var i := Position(queue, p);
    var list := if i < |queue| then queue[..i + 1] else queue;
    forall j: nat | j < |list| ensures next[p := NIL][list[j]] == At(list, j + 1) {
      assert list[j] == p <==> j == i;
    }
  }

  /** Blocked processes are not on the list, so waking one cannot tie a knot in it. */
  ghost predicate BlockedApart(s: Sched) {
    |s.procs| == MAX_PROCESSES + 1 && forall p: nat | p < MAX_PROCESSES && s.procs[p].state == Blocked :: p !in s.queue
  }

  lemma {:induction false} PollApart(s: Sched, now: nat, n: nat)
    requires Shaped(s) && BlockedApart(s) && n <= MAX_PROCESSES
    ensures BlockedApart(PollUpTo(s, now, n))
  {
    if n == 0 {
    } else {
      PollApart(s, now, n - 1);
    }
  }

  lemma {:induction false} WakeApart(s: Sched, key: nat, limit: nat, n: nat)
    requires Shaped(s) && BlockedApart(s) && n <= MAX_PROCESSES
    ensures BlockedApart(WakeUpTo(s, key, limit, n).0)
  {
    if n == 0 {
    } else {
      WakeApart(s, key, limit, n - 1);
    }
  }

  lemma SearchStep(s: Sched, i: nat)
    requires i < |s.queue|
    ensures s.queue[i..][1..] == s.queue[i + 1..]
    ensures FirstEligible(s, s.queue[i..]) ==
            if Eligible(s, s.queue[i]) then 0 else 1 + FirstEligible(s, s.queue[i + 1..])
  {
  }

  lemma SearchEnd(s: Sched)
    ensures FirstEligible(s, s.queue[|s.queue|..]) == 0
  {
  }

  class Scheduler {
    var procs: seq<Proc>
    var next: seq<nat>
    var head: nat
    var current: nat
    var count: nat
    ghost var queue: seq<nat>

    ghost function View(): Sched
      reads this
    {
      Sched(procs, queue, current, count)
    }

    ghost predicate Valid()
      reads this
    {
      Shaped(View()) && Distinct(queue) && Linked(next, head, queue)
    }

    constructor ()
      ensures Valid() && Inv(View())
      ensures queue == [] && current == IDLE && count == 0
    {
      procs := seq(MAX_PROCESSES + 1, i => Proc(false, if i == IDLE then Running else Ready, false, 0, 0));
      next := seq(MAX_PROCESSES + 1, _ => NIL);
      head, current, count := NIL, IDLE, 0;
      queue := [];
    }

    /** `enqueue`: walk to the tail and link `p` there. */
    method Append(p: nat)
      requires Valid() && p < MAX_PROCESSES && p !in queue
      modifies this`next, this`head, this`queue
      ensures Valid() && View() == Enqueue(old(View()), p)
    {
      if !procs[p].inUse || procs[p].state == Zombie || !procs[p].runnable { return; }
      next := next[p := NIL];
      if head == NIL {
        head := p;
      } else {
        var q := head;
        ghost var j := 0;
        while next[q] != NIL
          invariant j < |queue| && q == queue[j]
          invariant forall k: nat | k < |queue| :: next[queue[k]] == At(queue, k + 1)
          decreases |queue| - j
        {
          q, j := next[q], j + 1;
        }
        assert j == |queue| - 1;
        next := next[q := p];
      }
      queue := queue + [p];
    }

    /** `next_ready`: unlink from the front until an eligible process turns up. */
    method TakeNext() returns (n: nat)
      requires Valid()
      modifies this`next, this`head, this`queue
      ensures Valid() && (View(), n) == NextReady(old(View()))
    {
      hide Distinct, FirstEligible;
      ghost var s := View();
      ghost var i := 0;
      assert s.queue[0..] == s.queue;
      while head != NIL
        invariant Valid() && i <= |s.queue| && View() == s.(queue := s.queue[i..])
        invariant FirstEligible(s, s.queue) == i + FirstEligible(s, s.queue[i..])
        decreases |s.queue| - i
      {
        var p := head;
        SearchStep(s, i);
        Unlink();
        if procs[p].inUse && procs[p].state == Ready { return p; }
        i := i + 1;
      }
      SearchEnd(s);
      n := IDLE;
    }

    method Unlink()
      requires Valid() && queue != []
      modifies this`next, this`head, this`queue
      ensures Valid() && queue == old(queue)[1..]
    {
      var p := head;
      head := next[p];
      next := next[p := NIL];
      ghost var rest := queue[1..];
      forall j: nat | j < |rest| ensures next[rest[j]] == At(rest, j + 1) {
        assert queue[0] != queue[j + 1];
      }
      forall j, k | 0 <= j < k < |rest| ensures rest[j] != rest[k] { assert queue[j + 1] != queue[k + 1]; }
      queue := rest;
    }

    method MoveTo(p: nat, state: State)
      requires Valid() && p <= IDLE
      modifies this`procs
      ensures Valid() && View() == SetState(old(View()), p, state)
    {
      procs := procs[p := procs[p].(state := state)];
    }

    /** The end of both switching paths when nothing else can run. */
    method KeepOrIdle()
      requires Valid()
      modifies this`procs, this`current
      ensures Valid() && View() == Stay(old(View()))
    {
      if current != IDLE && procs[current].state == Ready {
        MoveTo(current, Running);
      } else {
        current := if procs[current].state == Running then current else IDLE;
      }
    }

    /** `scheduler_timer_tick`. */
    method TimerInterrupt(now: nat)
      requires Valid() && Inv(View())
      modifies this
      ensures Valid() && View() == Step(old(View()), TimerTick(now)) && Inv(View())
    {
      hide PollUpTo, Tick;
      StepKeeps(View(), TimerTick(now));
      PollKeeps(View(), now, count);
      PollTimeouts(now);
      Reschedule();
    }

    /** `scheduler_yield`: `rr_tick` with the quantum filled. */
    method YieldProcessor()
      requires Valid() && Inv(View())
      modifies this
      ensures Valid() && View() == Step(old(View()), Yield) && Inv(View())
    {
      hide Requeue, NextReady, Inv;
      StepKeeps(View(), Yield);
      var previous := current;
      RequeueCurrent();
      var n := TakeNext();
      if n == previous { return; }
      MoveTo(n, Running);
      current := n;
    }

    method Reschedule()
      requires Valid() && Inv(View())
      modifies this
      ensures Valid() && View() == Tick(old(View()))
    {
      hide Requeue, NextReady, Inv;
      var previous := current;
      RequeueCurrent();
      var n := TakeNext();
      if n == previous { return; }
      if n == IDLE {
        KeepOrIdle();
      } else {
        MoveTo(n, Running);
        current := n;
      }
    }

    method RequeueCurrent()
      requires Valid() && Inv(View())
      modifies this
      ensures Valid() && View() == Requeue(old(View()))
    {
      if current != IDLE && procs[current].state == Running {
        MoveTo(current, Ready);
        Append(current);
      }
    }

    /** `switch_from_current`. */
    method SwitchAway()
      requires Valid()
      modifies this
      ensures Valid() && View() == Switch(old(View()))
    {
      if procs[current].state == Running { MoveTo(current, Blocked); }
      var n := TakeNext();
      if n == IDLE {
        KeepOrIdle();
      } else {
        MoveTo(n, Running);
        current := n;
      }
    }

    method Wake(p: nat)
      requires Valid() && p < MAX_PROCESSES && p !in queue
      modifies this`procs, this`next, this`head, this`queue
      ensures Valid() && View() == Rouse(old(View()), p)
    {
      procs := procs[p := procs[p].(state := Ready, key := 0, deadline := 0)];
      Append(p);
    }

    /** `process_poll_timeouts`. */
    method PollTimeouts(now: nat)
      requires Valid() && BlockedApart(View())
      modifies this`procs, this`next, this`head, this`queue
      ensures Valid() && View() == PollUpTo(old(View()), now, old(count))
      ensures Inv(old(View())) ==> Wakes(old(View()), Sleepers(old(View()), PastDeadline(now), old(count)), View())
    {
      hide Linked, Distinct, Rouse, Inv, Wakes, Sleepers;
      ghost var s := View();
      if Inv(s) { PollIs(s, now, count); }
      for i := 0 to count
        invariant Valid() && count == old(count) && current == old(current)
        invariant View() == PollUpTo(s, now, i)
      {
        PollApart(s, now, i);
        var p := procs[i];
        if p.inUse && p.state == Blocked && p.key != 0 && p.deadline != 0 && Expired(p.deadline, now) {
          if i == current {
            procs := procs[i := p.(state := Running, key := 0, deadline := 0)];
          } else {
            Wake(i);
          }
        }
      }
    }

    /** `process_futex_wake`; the number woken is returned, -1 for the null key. */
    method FutexWakeAll(key: nat, limit: nat) returns (woken: int)
      requires Valid() && BlockedApart(View())
      modifies this`procs, this`next, this`head, this`queue
      ensures Valid() && View() == Step(old(View()), FutexWake(key, limit))
      ensures if key == 0 then woken == -1 && View() == old(View())
              else var all := Sleepers(old(View()), OnKey(key), old(count));
                   woken == Granted(limit, |all|) && Wakes(old(View()), all[..woken], View())
    {
      hide Linked, Distinct, Rouse, Wakes, Sleepers;
      if key == 0 { return -1; }
      ghost var s := View();
      WakeIs(s, key, limit, count);
      woken := 0;
      var i := 0;
      while i < count && (limit == 0 || woken < limit)
        invariant i <= count && Valid() && count == old(count) && current == old(current)
        invariant (View(), woken) == WakeUpTo(s, key, limit, i)
      {
        WakeApart(s, key, limit, i);
        if procs[i].state == Blocked && procs[i].key == key {
          Wake(i);
          woken := woken + 1;
        }
        i := i + 1;
      }
      WakeDone(s, key, limit, i, count);
    }

    /** The wake-up half of `process_send_signal`, for signals other than kill. */
    method WakeForSignal(p: nat)
      requires Valid() && BlockedApart(View()) && p < MAX_PROCESSES
      modifies this`procs, this`next, this`head, this`queue
      ensures Valid() && View() == Step(old(View()), Signal(p))
    {
      if procs[p].inUse && procs[p].state == Blocked { Wake(p); }
    }

    /** `scheduler_set_current`, with which the kernel starts the first user process. */
    method SetCurrent(p: nat)
      requires Valid() && Inv(View()) && Allowed(View(), Start(p))
      modifies this`procs, this`current
      ensures Valid() && View() == Step(old(View()), Start(p)) && Inv(View())
    {
      StepKeeps(View(), Start(p));
      current := p;
      MoveTo(p, Running);
    }

    /** The slot of a dead child is given up and its link cleared, whether or not it is still on the list. */
    method ReapSlot(p: nat)
      requires Valid() && p < MAX_PROCESSES
      modifies this`procs, this`next, this`queue
      ensures Valid() && View() == Reaped(old(View()), p)
    {
      hide Linked, Distinct, Shaped, Position;
      ReapedShaped(View(), p);
      LinkCleared(next, head, queue, p);
      procs := procs[p := procs[p].(inUse := false, state := Ready)];
      next := next[p := NIL];
      ghost var i := Position(queue, p);
      if i < |queue| { queue := queue[..i + 1]; }
    }

    /**
      `process_futex_wait` on a matching word or `process_wait` on a living child, then the switch
      their call ends with.
     */
    method BlockOn(key: nat, deadline: nat)
      requires Valid() && Inv(View()) && current < IDLE
      modifies this
      ensures Valid() && View() == Step(old(View()), Block(key, deadline)) && Inv(View())
    {
      StepKeeps(View(), Block(key, deadline));
      procs := procs[current := procs[current].(state := Blocked, key := key, deadline := deadline)];
      SwitchAway();
    }
  }

  /** Once the limit is reached the remaining slots change nothing. */
  lemma {:induction false} WakeDone(s: Sched, key: nat, limit: nat, i: nat, n: nat)
    requires Shaped(s) && i <= n <= MAX_PROCESSES
    requires i < n ==> limit != 0 && WakeUpTo(s, key, limit, i).1 >= limit
    ensures WakeUpTo(s, key, limit, n) == WakeUpTo(s, key, limit, i)
  {
    if i == n {
    } else {
      WakeDone(s, key, limit, i, n - 1);
    }
  }
}
