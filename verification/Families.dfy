/** Parents, exits and waits (kernel/process.c). */
module Families {
  import opened Scheduling

  // docs/v05-status.md says that a process waiting for its child is woken when the child exits.  The
  // code compares the waiter's own parent with the process that exits, so it never is: this module
  // says exactly whom an exit wakes, and shows over every run that no parent is among them.

  /** A process slot: who it is, whose child it is, and whom it waits for (0: nobody). */
  datatype Member = Member(inUse: bool, pid: nat, parent: nat, state: State, waitFor: nat, code: int)

  // ---------------------------------------------------------------- exit

  /** Index of the process with this identifier, or `|ms|`. */
  function Find(ms: seq<Member>, pid: nat): (r: nat)
    ensures r <= |ms|
    ensures r < |ms| ==> ms[r].inUse && ms[r].pid == pid
    ensures forall i | 0 <= i < r :: !(ms[i].inUse && ms[i].pid == pid)
  {
    if ms == [] || (ms[0].inUse && ms[0].pid == pid) then 0 else 1 + Find(ms[1..], pid)
  }

  /** A dead child of the process that exits loses its parent. */
  function Orphaned(m: Member, pid: nat): Member {
    if m.inUse && m.parent == pid && m.state == Zombie then m.(parent := 0) else m
  }

  /** The test of `process_exit_with_status`, and what it does to a process that passes. */
  function Notified(m: Member, pid: nat): Member {
    if m.inUse && m.parent == pid && m.state == Blocked && m.waitFor == pid then m.(state := Ready, waitFor := 0) else m
  }

  /** `process_exit_with_status`. */
  function AfterExit(ms: seq<Member>, pid: nat, code: int): (r: seq<Member>)
    ensures |r| == |ms|
  {
    var i := Find(ms, pid);
    if i == |ms| then ms
    else
      var dead := ms[i := ms[i].(state := Zombie, code := code)];
      seq(|ms|, j requires 0 <= j < |ms| => Notified(Orphaned(dead[j], pid), pid))
  }

  // ---------------------------------------------------------------- wait

  /** Index of the child `pid` of `parent`, or `|ms|`. */
  function FindChild(ms: seq<Member>, pid: nat, parent: nat): (r: nat)
    ensures r <= |ms|
    ensures r < |ms| ==> ms[r].inUse && ms[r].pid == pid && ms[r].parent == parent
    ensures forall i | 0 <= i < r :: !(ms[i].inUse && ms[i].pid == pid && ms[i].parent == parent)
  {
    if ms == [] || (ms[0].inUse && ms[0].pid == pid && ms[0].parent == parent) then 0
    else 1 + FindChild(ms[1..], pid, parent)
  }

  /** No such child; blocked until further notice; or the child's slot given up and its exit code returned. */
  datatype Outcome = NoChild | Blocks | Reaped(code: int)

  /** `process_wait` by the process in slot `me`. */
  function AfterWait(ms: seq<Member>, me: nat, pid: nat): (r: (seq<Member>, Outcome))
    requires me < |ms|
    ensures |r.0| == |ms|
  {
    var i := FindChild(ms, pid, ms[me].pid);
    if i == |ms| then (ms, NoChild)
    else if ms[i].state == Zombie
    then (ms[i := ms[i].(parent := 0, state := Ready, inUse := false)], Reaped(ms[i].code))
    else (ms[me := ms[me].(waitFor := pid, state := Blocked)], Blocks)
  }

  class ProcessTable {
    var members: seq<Member>

    /** Both loops of `process_exit_with_status` after the process is marked. */
    method Exit(pid: nat, code: int) returns (ok: bool)
      modifies this
      ensures members == AfterExit(old(members), pid, code)
      ensures ok <==> exists i: nat :: i < |old(members)| && old(members)[i].inUse && old(members)[i].pid == pid
    {
      var i := 0;
      while i < |members| && !(members[i].inUse && members[i].pid == pid)
        invariant i <= |members| && members == old(members)
        invariant forall k | 0 <= k < i :: !(members[k].inUse && members[k].pid == pid)
      {
        i := i + 1;
      }
      if i == |members| { return false; }
      FindIs(members, pid, i);
      members := members[i := members[i].(state := Zombie, code := code)];
      ghost var dead := members;
      for j := 0 to |members|
        invariant |members| == |dead|
        invariant forall k | 0 <= k < |dead| :: members[k] == if k < j then Orphaned(dead[k], pid) else dead[k]
      {
        var m := members[j];
        if m.inUse && m.parent == pid && m.state == Zombie { members := members[j := m.(parent := 0)]; }
      }
      for j := 0 to |members|
        invariant |members| == |dead|
        invariant forall k | 0 <= k < |dead| ::
                    members[k] == if k < j then Notified(Orphaned(dead[k], pid), pid) else Orphaned(dead[k], pid)
      {
        var m := members[j];
        if m.inUse && m.parent == pid && m.state == Blocked && m.waitFor == pid {
          members := members[j := m.(state := Ready, waitFor := 0)];
        }
      }
      ok := true;
    }

    /** `process_wait` for the process in slot `me`. */
    method Wait(me: nat, pid: nat) returns (outcome: Outcome)
      requires me < |members|
      modifies this
      ensures (members, outcome) == AfterWait(old(members), me, pid)
    {
      var i, parent := 0, members[me].pid;
      while i < |members| && !(members[i].inUse && members[i].pid == pid && members[i].parent == parent)
        invariant i <= |members| && members == old(members)
        invariant forall k | 0 <= k < i :: !(members[k].inUse && members[k].pid == pid && members[k].parent == parent)
      {
        i := i + 1;
      }
      if i == |members| { return NoChild; }
      if members[i].state == Zombie {
        outcome := Reaped(members[i].code);
        members := members[i := members[i].(parent := 0, state := Ready, inUse := false)];
      } else {
        members := members[me := members[me].(waitFor := pid, state := Blocked)];
        outcome := Blocks;
      }
    }
  }

  lemma FindIs(ms: seq<Member>, pid: nat, i: nat)
    requires i < |ms| && ms[i].inUse && ms[i].pid == pid
    requires forall k | 0 <= k < i :: !(ms[k].inUse && ms[k].pid == pid)
    ensures Find(ms, pid) == i
  {
  }

  // ---------------------------------------------------------------- whom an exit wakes

  /** An exit ends exactly the waits of its own children for it. */
  lemma ExitWakesIff(ms: seq<Member>, pid: nat, code: int, j: nat)
    requires j < |ms| && Find(ms, pid) < |ms| && Find(ms, pid) != j && ms[j].state == Blocked
    ensures AfterExit(ms, pid, code)[j].state != Blocked <==> ms[j].inUse && ms[j].waitFor == pid && ms[j].parent == pid
    ensures var r := AfterExit(ms, pid, code)[j]; r.state != Blocked ==> r.state == Ready && r.waitFor == 0
  {
  }

  /** The process that exits is dead, with its code; its dead children have no parent; all others keep theirs. */
  lemma ExitMarks(ms: seq<Member>, pid: nat, code: int, j: nat)
    requires j < |ms| && Find(ms, pid) < |ms|
    ensures var r, i := AfterExit(ms, pid, code), Find(ms, pid);
            && r[i].state == Zombie && r[i].code == code && r[i].inUse && r[i].pid == pid
            && r[j].inUse == ms[j].inUse && r[j].pid == ms[j].pid && (j != i ==> r[j].code == ms[j].code)
            && r[j].parent == (if ms[j].inUse && ms[j].parent == pid && (j == i || ms[j].state == Zombie)
                               then 0 else ms[j].parent)
            && (j != i && ms[j].state != Blocked ==> r[j].state == ms[j].state)
  {
  }

  /** A wait for a child that has exited returns its code at once and gives up its slot. */
  lemma ExitThenWait(ms: seq<Member>, child: nat, code: int, me: nat)
    requires me < |ms| && ms[me].inUse && Find(ms, child) < |ms| && Find(ms, child) != me
    requires ms[Find(ms, child)].parent == ms[me].pid && ms[me].pid != child
    ensures var (r, outcome) := AfterWait(AfterExit(ms, child, code), me, child);
            var i := Find(ms, child);
            outcome == Reaped(code) && r[i] == ms[i].(inUse := false, parent := 0, state := Ready, code := code)
  {
    var i, mid := Find(ms, child), AfterExit(ms, child, code);
    ExitMarks(ms, child, code, i);
    ExitMarks(ms, child, code, me);
    forall k | 0 <= k < i ensures !(mid[k].inUse && mid[k].pid == child) { ExitMarks(ms, child, code, k); }
    assert FindChild(mid, child, mid[me].pid) == i;
  }

  // ---------------------------------------------------------------- runs

  /** `Change` is everything else that moves a living process between ready, running and blocked. */
  datatype Event =
    | Fork(slot: nat, parent: nat, pid: nat)
    | Exit(pid: nat, code: int)
    | Wait(me: nat, pid: nat)
    | Change(who: nat, state: State)

  /** A new process gets an identifier that no process has or names; only a process that is not blocked can wait. */
  ghost predicate Allowed(ms: seq<Member>, e: Event) {
    match e
    case Fork(slot, parent, pid) =>
      && slot < |ms| && !ms[slot].inUse && parent < |ms| && ms[parent].inUse && pid != 0 && Unknown(ms, pid)
    case Exit(_, _) => true
    case Wait(me, _) => me < |ms| && ms[me].inUse && ms[me].state == Running
    case Change(who, state) => who < |ms| && ms[who].inUse && ms[who].state != Zombie && state != Zombie
  }

  ghost predicate Unknown(ms: seq<Member>, pid: nat) {
    forall i | 0 <= i < |ms| && ms[i].inUse :: ms[i].pid != pid && ms[i].parent != pid
  }

  function Step(ms: seq<Member>, e: Event): (r: seq<Member>)
    requires e.Fork? ==> e.slot < |ms| && e.parent < |ms|
    requires e.Wait? ==> e.me < |ms|
    requires e.Change? ==> e.who < |ms|
    ensures |r| == |ms|
  {
    match e
    case Fork(slot, parent, pid) => ms[slot := Member(true, pid, ms[parent].pid, Ready, 0, 0)]
    case Exit(pid, code) => AfterExit(ms, pid, code)
    case Wait(me, pid) => AfterWait(ms, me, pid).0
    case Change(who, state) => ms[who := ms[who].(state := state)]
  }

  /** A fork makes a ready child, which its parent can wait for. */
  lemma ForkThenWait(ms: seq<Member>, slot: nat, parent: nat, pid: nat)
    requires Allowed(ms, Fork(slot, parent, pid))
    ensures var r := Step(ms, Fork(slot, parent, pid));
            && r[slot].inUse && r[slot].state == Ready && r[slot].waitFor == 0 && r[slot].code == 0
            && r[parent] == ms[parent] && FindChild(r, pid, ms[parent].pid) == slot
            && AfterWait(r, parent, pid).1 == Blocks
  {
    var r := Step(ms, Fork(slot, parent, pid));
    assert r[slot].inUse && r[slot].pid == pid && r[slot].parent == ms[parent].pid;
    forall i | 0 <= i < |ms| && i != slot ensures !(r[i].inUse && r[i].pid == pid) { assert r[i] == ms[i]; }
  }

  /** Identifiers are not 0, differ, and nobody is the parent of their own parent. */
  ghost predicate Inv(ms: seq<Member>) {
    && (forall i | 0 <= i < |ms| && ms[i].inUse :: ms[i].pid != 0)
    && (forall i: nat, j: nat :: Apart(ms, i, j))
  }

  ghost predicate Apart(ms: seq<Member>, i: nat, j: nat) {
    i < |ms| && j < |ms| && ms[i].inUse && ms[j].inUse ==>
      && (i != j ==> ms[i].pid != ms[j].pid)
      && !(ms[i].parent == ms[j].pid && ms[j].parent == ms[i].pid)
  }

  /** Only parents given up and slots given up: what an exit and a wait do to identities. */
  ghost predicate Fewer(ms: seq<Member>, r: seq<Member>) {
    |r| == |ms| && forall i | 0 <= i < |ms| :: r[i].inUse ==>
      ms[i].inUse && r[i].pid == ms[i].pid && (r[i].parent == ms[i].parent || r[i].parent == 0)
  }

  lemma FewerKeeps(ms: seq<Member>, r: seq<Member>)
    requires Inv(ms) && Fewer(ms, r)
    ensures Inv(r)
  {
    forall i: nat, j: nat ensures Apart(r, i, j) { assert Apart(ms, i, j); }
  }

  lemma ExitFewer(ms: seq<Member>, pid: nat, code: int)
    ensures Fewer(ms, AfterExit(ms, pid, code))
  {
  }

  lemma StepKeeps(ms: seq<Member>, e: Event)
    requires Inv(ms) && Allowed(ms, e)
    ensures Inv(Step(ms, e))
  {
    match e
    case Fork(slot, parent, pid) => ForkKeeps(ms, slot, parent, pid);
    case Exit(pid, code) =>
      ExitFewer(ms, pid, code);
      FewerKeeps(ms, Step(ms, e));
    case Wait(me, pid) => FewerKeeps(ms, Step(ms, e));
    case Change(_, _) => FewerKeeps(ms, Step(ms, e));
  }

  lemma ForkKeeps(ms: seq<Member>, slot: nat, parent: nat, pid: nat)
    requires Inv(ms) && Allowed(ms, Fork(slot, parent, pid))
    ensures Inv(Step(ms, Fork(slot, parent, pid)))
  {
    var r := Step(ms, Fork(slot, parent, pid));
    forall i: nat, j: nat ensures Apart(r, i, j) { assert Apart(ms, i, j); }
  }

  /** The process in slot `w` is blocked in a wait for its child in slot `c`. */
  ghost predicate Awaits(ms: seq<Member>, w: nat, c: nat) {
    && w < |ms| && c < |ms| && ms[w].inUse && ms[c].inUse && ms[w].state == Blocked
    && ms[c].parent == ms[w].pid && ms[w].waitFor == ms[c].pid
  }

  lemma AwaitsStep(ms: seq<Member>, e: Event, w: nat, c: nat)
    requires Inv(ms) && Allowed(ms, e) && Awaits(ms, w, c)
    requires !(e.Change? && e.who == w) && !(e.Exit? && e.pid == ms[w].pid)
    ensures Awaits(Step(ms, e), w, c) && Step(ms, e)[w].pid == ms[w].pid
  {
    assert Apart(ms, w, c) && Apart(ms, c, c);
    match e
    case Exit(pid, code) =>
      var i := Find(ms, pid);
      if i < |ms| {
        assert Apart(ms, i, w) && Apart(ms, i, c);
        ExitMarks(ms, pid, code, w);
        ExitMarks(ms, pid, code, c);
        ExitWakesIff(ms, pid, code, w);
      }
    case Wait(me, pid) =>
      assert Apart(ms, me, w);
    case _ =>
  }

  ghost predicate AllowedRun(ms: seq<Member>, events: seq<Event>)
    decreases |events|
  {
    events != [] ==> Allowed(ms, events[0]) && AllowedRun(Step(ms, events[0]), events[1..])
  }

  ghost function After(ms: seq<Member>, events: seq<Event>): seq<Member>
    requires AllowedRun(ms, events)
    decreases |events|
  {
    if events == [] then ms else After(Step(ms, events[0]), events[1..])
  }

  /**
    Over every run of forks, exits, waits and other changes: a process that waits for its child stays
    blocked, whatever exits, its child included, until something else changes it or it is killed.
   */
  lemma {:induction false} ParentSleepsOn(ms: seq<Member>, events: seq<Event>, w: nat, c: nat)
    requires Inv(ms) && AllowedRun(ms, events) && Awaits(ms, w, c)
    requires forall e | e in events :: !(e.Change? && e.who == w) && !(e.Exit? && e.pid == ms[w].pid)
    ensures Awaits(After(ms, events), w, c)
    decreases |events|
  {
    hide Awaits, Inv, Step;
    if events == [] {
    } else {
      assert events[0] in events;
      StepKeeps(ms, events[0]);
      AwaitsStep(ms, events[0], w, c);
      ParentSleepsOn(Step(ms, events[0]), events[1..], w, c);
    }
  }

  /** Such waits come about: every wait for a living child is one. */
  lemma WaitAwaits(ms: seq<Member>, me: nat, pid: nat)
    requires Inv(ms) && Allowed(ms, Wait(me, pid)) && AfterWait(ms, me, pid).1 == Blocks
    ensures Awaits(AfterWait(ms, me, pid).0, me, FindChild(ms, pid, ms[me].pid))
  {
    assert Apart(ms, me, me);
  }
}
