/**
  Process identifiers (kernel/process.c `new_pcb`, fs/vfs.c `slot_for_pid`): a slot number
  in the low byte, a per-slot generation above it.
 */
module Pids {

  const MAX_PROCESSES: nat := 32
  const GENERATIONS: nat := 0x0100_0000

  /** How many generations a slot goes through before one comes back. */
  const PERIOD: nat := GENERATIONS - 1

  datatype Entry = Entry(inUse: bool, generation: nat, pid: nat)

  /** The process table; `made` counts the allocations of each slot. */
  datatype Table = Table(entries: seq<Entry>, count: nat, made: seq<nat>)

  function NextGeneration(g: nat): nat {
    var n := (g + 1) % GENERATIONS;
    if n == 0 then 1 else n
  }

  function PidOf(generation: nat, slot: nat): nat {
    generation * 256 + slot + 1
  }

  /** The descriptor row of a PID. */
  function SlotForPid(pid: nat): nat {
    var slot := pid % 256;
    if slot == 0 then 0 else if slot - 1 < MAX_PROCESSES then slot - 1 else 0
  }

  ghost predicate Valid(t: Table) {
    && |t.entries| == |t.made| == MAX_PROCESSES && t.count <= MAX_PROCESSES
    && (forall i: nat | i < MAX_PROCESSES && t.entries[i].inUse :: i < t.count && Named(t, i))
    && (forall i: nat | i < MAX_PROCESSES && t.made[i] > 0 :: Named(t, i))
    && (forall i: nat | i < MAX_PROCESSES && t.made[i] == 0 :: t.entries[i].generation == 0)
  }

  /** Slot `i` has had a PID, and it carries the slot and its generation. */
  ghost predicate Named(t: Table, i: nat)
    requires |t.entries| == |t.made| == MAX_PROCESSES && i < MAX_PROCESSES
  {
    && t.made[i] > 0 && 1 <= t.entries[i].generation < GENERATIONS
    && t.entries[i].pid == PidOf(t.entries[i].generation, i)
  }

  function Boot(): Table {
    Table(seq(MAX_PROCESSES, _ => Entry(false, 0, 0)), 0, seq(MAX_PROCESSES, _ => 0))
  }

  /** First free slot at or after `from`, or MAX_PROCESSES. */
  function FirstFree(entries: seq<Entry>, from: nat): (r: nat)
    requires |entries| == MAX_PROCESSES && from <= MAX_PROCESSES
    ensures from <= r <= MAX_PROCESSES && (r < MAX_PROCESSES ==> !entries[r].inUse)
    ensures forall i | from <= i < r :: entries[i].inUse
    decreases MAX_PROCESSES - from, entries
  {
    if from == MAX_PROCESSES || !entries[from].inUse then from else FirstFree(entries, from + 1)
  }

  /** `new_pcb`; `spaceOk` says whether an address space could be created.  A failure still uses up the generation. */
  function NewPcb(t: Table, spaceOk: bool): Table
    requires |t.entries| == |t.made| == MAX_PROCESSES
  {
    var i := FirstFree(t.entries, 0);
    if i == MAX_PROCESSES then t
    else
      var g := NextGeneration(t.entries[i].generation);
      Table(t.entries[i := Entry(spaceOk, g, PidOf(g, i))],
            if spaceOk && i == t.count then t.count + 1 else t.count,
            t.made[i := t.made[i] + 1])
  }

  /** Reaping frees the slot and leaves its generation behind. */
  function Reap(t: Table, i: nat): Table
    requires |t.entries| == MAX_PROCESSES
  {
    if i < MAX_PROCESSES then t.(entries := t.entries[i := t.entries[i].(inUse := false)]) else t
  }

  // ---------------------------------------------------------------- the table over every run

  datatype Event = Spawn(spaceOk: bool) | Reaped(i: nat)

  function Step(t: Table, e: Event): (r: Table)
    requires |t.entries| == |t.made| == MAX_PROCESSES
    ensures |r.entries| == |r.made| == MAX_PROCESSES
  {
    match e
    case Spawn(spaceOk) => NewPcb(t, spaceOk)
    case Reaped(i) => Reap(t, i)
  }

  function Run(t: Table, events: seq<Event>): (r: Table)
    requires |t.entries| == |t.made| == MAX_PROCESSES
    ensures |r.entries| == |r.made| == MAX_PROCESSES
  {
    if events == [] then t else Step(Run(t, events[..|events| - 1]), events[|events| - 1])
  }

  lemma StepValid(t: Table, e: Event)
    requires Valid(t)
    ensures Valid(Step(t, e))
  {
    var r := Step(t, e);
    var f := FirstFree(t.entries, 0);
    assert f > 0 ==> t.entries[f - 1].inUse;
    forall i: nat | i < MAX_PROCESSES && r.made[i] > 0 ensures Named(r, i) {
      if t.made[i] > 0 { assert Named(t, i); }
    }
    forall i: nat | i < MAX_PROCESSES && r.entries[i].inUse ensures i < r.count && Named(r, i) {
      if t.entries[i].inUse { assert Named(t, i); }
    }
  }

  /** The first process gets identifier 0x101, in slot 0. */
  lemma FirstPid()
    ensures var t := NewPcb(Boot(), true);
            && t.entries[0] == Entry(true, 1, 0x101) && t.count == 1 && t.made[0] == 1
            && forall i | 0 < i < MAX_PROCESSES :: !t.entries[i].inUse && t.entries[i].generation == t.made[i] == 0
  {
  }

  lemma {:induction false} RunValid(t: Table, events: seq<Event>)
    requires Valid(t)
    ensures Valid(Run(t, events))
  {
    if events == [] {
    } else {
      RunValid(t, events[..|events| - 1]);
      StepValid(Run(t, events[..|events| - 1]), events[|events| - 1]);
    }
  }

  /** Every number leads to a row: the slot in its low byte, or row 0 if that names none. */
  lemma RowOfAny(pid: nat)
    ensures SlotForPid(pid) < MAX_PROCESSES
    ensures 1 <= pid % 256 <= MAX_PROCESSES ==> SlotForPid(pid) + 1 == pid % 256
    ensures pid % 256 == 0 || pid % 256 > MAX_PROCESSES ==> SlotForPid(pid) == 0
  {
  }

  /** A PID decodes to its slot, so processes never share a descriptor row. */
  lemma PidDecodes(g: nat, i: nat)
    requires i < MAX_PROCESSES
    ensures SlotForPid(PidOf(g, i)) == i
  {
  }

  lemma PidInjective(g: nat, i: nat, h: nat, j: nat)
    requires i < MAX_PROCESSES && j < MAX_PROCESSES && PidOf(g, i) == PidOf(h, j)
    ensures g == h && i == j
  {
  }

  lemma PidsDistinct(t: Table, i: nat, j: nat)
    requires Valid(t) && i < MAX_PROCESSES && j < MAX_PROCESSES
    requires t.entries[i].inUse && t.entries[j].inUse && t.entries[i].pid == t.entries[j].pid
    ensures i == j
  {
    PidInjective(t.entries[i].generation, i, t.entries[j].generation, j);
  }

  method FindFree(entries: seq<Entry>) returns (i: nat)
    requires |entries| == MAX_PROCESSES
    ensures i == FirstFree(entries, 0)
  {
    i := 0;
    while i < MAX_PROCESSES && entries[i].inUse
      invariant i <= MAX_PROCESSES && FirstFree(entries, i) == FirstFree(entries, 0)
    {
      i := i + 1;
    }
  }

  /** The process table as the kernel updates it. */
  class ProcessTable {
    var entries: seq<Entry>
    var count: nat
    ghost var made: seq<nat>

    ghost function View(): Table
      reads this
    {
      Table(entries, count, made)
    }

    constructor ()
      ensures View() == Boot() && Valid(View())
    {
      entries := seq(MAX_PROCESSES, _ => Entry(false, 0, 0));
      count := 0;
      made := seq(MAX_PROCESSES, _ => 0);
    }

    /** `new_pcb` with its undo when no address space is left; MAX_PROCESSES when it fails. */
    method Allocate(spaceOk: bool) returns (slot: nat)
      requires Valid(View()) && |entries| == |made| == MAX_PROCESSES
      modifies this
      ensures View() == NewPcb(old(View()), spaceOk)
      ensures Valid(View())
      ensures slot < MAX_PROCESSES <==> spaceOk && FirstFree(old(entries), 0) < MAX_PROCESSES
      ensures slot < MAX_PROCESSES ==> !old(entries)[slot].inUse && entries[slot].inUse
    {
      hide Named, PidOf, Valid, FirstFree;
      StepValid(View(), Spawn(spaceOk));
      var i := FindFree(entries);
      if i == MAX_PROCESSES { return MAX_PROCESSES; }
      var grew := i == count;
      if grew { count := count + 1; }
      var g := (entries[i].generation + 1) % GENERATIONS;
      if g == 0 { g := 1; }
      entries := entries[i := Entry(true, g, PidOf(g, i))];
      made := made[i := made[i] + 1];
      if !spaceOk {
        entries := entries[i := entries[i].(inUse := false)];
        if grew { count := count - 1; }
      }
      assert entries == old(entries)[i := Entry(spaceOk, g, PidOf(g, i))];
      slot := if spaceOk then i else MAX_PROCESSES;
    }
  }

  /** The lookup loop shared by the PID system calls: the slot of `pid`, or MAX_PROCESSES. */
  method Find(t: Table, pid: nat) returns (r: nat)
    requires Valid(t)
    ensures r <= MAX_PROCESSES
    ensures r < MAX_PROCESSES ==> t.entries[r].inUse && t.entries[r].pid == pid && r == SlotForPid(pid)
    ensures r == MAX_PROCESSES ==> forall i: nat | i < MAX_PROCESSES :: !(t.entries[i].inUse && t.entries[i].pid == pid)
  {
    r := 0;
    while r < t.count
      invariant r <= t.count
      invariant forall i: nat | i < r :: !(t.entries[i].inUse && t.entries[i].pid == pid)
    {
      if t.entries[r].inUse && t.entries[r].pid == pid {
        PidDecodes(t.entries[r].generation, r);
        return;
      }
      r := r + 1;
    }
    r := MAX_PROCESSES;
  }

  // ---------------------------------------------------------------- generations

  /** The generation after `m` more allocations. */
  function Later(g: nat, m: nat): nat {
    if m == 0 then g else NextGeneration(Later(g, m - 1))
  }

  /** Generations go round `1..PERIOD`. */
  lemma {:induction false} LaterIs(g: nat, m: nat)
    requires 1 <= g <= PERIOD
    ensures Later(g, m) == (g - 1 + m) % PERIOD + 1
  {
    hide NextGeneration;
    if m == 0 {
    } else {
      LaterIs(g, m - 1);
      NextRound(g - 1 + m - 1);
    }
  }

  lemma NextRound(x: nat)
    ensures NextGeneration(x % PERIOD + 1) == (x + 1) % PERIOD + 1
  {
  }

  /** A generation comes back exactly after a whole number of periods. */
  lemma ReturnsIff(g: nat, m: nat)
    requires 1 <= g <= PERIOD
    ensures Later(g, m) == g <==> m % PERIOD == 0
  {
    LaterIs(g, m);
    RoundTrip(g - 1, m);
  }

  lemma RoundTrip(a: nat, m: nat)
    requires a < PERIOD
    ensures (a + m) % PERIOD == a <==> m % PERIOD == 0
  {
  }

  lemma {:induction false} RunGeneration(t: Table, events: seq<Event>, i: nat)
    requires Valid(t) && i < MAX_PROCESSES && t.made[i] > 0
    ensures var r := Run(t, events);
            r.made[i] >= t.made[i] && r.entries[i].generation == Later(t.entries[i].generation, r.made[i] - t.made[i])
  {
    if events == [] {
    } else {
      RunGeneration(t, events[..|events| - 1], i);
    }
  }

  /** A PID that is out of date by fewer than 2^24 - 1 allocations of its slot finds nothing. */
  lemma StalePidFindsNothing(t: Table, events: seq<Event>, i: nat, j: nat)
    requires Valid(t) && i < MAX_PROCESSES && t.made[i] > 0 && j < MAX_PROCESSES
    requires 0 < Run(t, events).made[i] - t.made[i] < PERIOD
    ensures var r := Run(t, events); !(r.entries[j].inUse && r.entries[j].pid == t.entries[i].pid)
  {
    hide Later, PidOf, Run, NextGeneration;
    var r := Run(t, events);
    RunValid(t, events);
    RunGeneration(t, events, i);
    ReturnsIff(t.entries[i].generation, r.made[i] - t.made[i]);
    if r.entries[j].inUse && r.entries[j].pid == t.entries[i].pid {
      PidInjective(r.entries[j].generation, j, t.entries[i].generation, i);
    }
  }
}
