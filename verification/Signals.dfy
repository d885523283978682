/**
  Signal delivery and return (kernel/process.c, kernel/syscall.c).  Signal masks are
  sets of bit numbers; a register frame is its fifteen words in memory order.
 */
module Signals {

  const SIGNALS: nat := 32
  const FRAME_WORDS: nat := 15
  const KILL: nat := 9
  const EAX: nat := 7
  const EIP: nat := 10
  const USERESP: nat := 13
  const STACK_LOW: nat := 0x0040_0008
  const SYS_SIGRETURN: nat := 18

  type Frame = f: seq<nat> | |f| == FRAME_WORDS witness seq(FRAME_WORDS, _ => 0)

  datatype Process = Process(
    pending: set<nat>, mask: set<nat>, handlers: seq<nat>,
    saved: Frame, active: bool, userMode: bool)

  ghost predicate Valid(p: Process) {
    |p.handlers| == SIGNALS && forall x | x in p.pending + p.mask :: x < SIGNALS
  }

  /** The signals one delivery attempt looks at: pending, not masked, not bit 0. */
  function Considered(p: Process): set<nat> {
    p.pending - p.mask - {0}
  }

  /** Signal `x` can be delivered on frame `r`; `stackOk` is the outcome of validating the user stack for it. */
  predicate Deliverable(p: Process, r: Frame, stackOk: nat -> bool, x: nat) {
    x in Considered(p) && x < |p.handlers| && p.handlers[x] != 0 && r[USERESP] >= STACK_LOW && stackOk(x)
  }

  /** `x` is the lowest deliverable signal. */
  ghost predicate Lowest(p: Process, r: Frame, stackOk: nat -> bool, x: nat) {
    Deliverable(p, r, stackOk, x) && forall y: nat | y < x :: !Deliverable(p, r, stackOk, y)
  }

  /** The considered signals below `limit` are consumed, everything else stays pending. */
  ghost function ConsumedBelow(p: Process, limit: nat): set<nat> {
    set x | x in p.pending && !(x in Considered(p) && x < limit)
  }

  /** The frame a handler for `x` starts with. */
  function Entered(p: Process, r: Frame, x: nat): Frame
    requires x < |p.handlers| && r[USERESP] >= STACK_LOW
  {
    r[USERESP := r[USERESP] - 8][EIP := p.handlers[x]][EAX := x]
  }

  /** What a delivery attempt may do: nothing, drop the undeliverable, or enter the lowest deliverable handler. */
  ghost predicate Delivers(p: Process, r: Frame, stackOk: nat -> bool, q: Process, s: Frame, x: nat) {
    if !p.userMode || p.active then q == p && s == r && x == 0
    else if x == 0 then
      && (forall y: nat :: !Deliverable(p, r, stackOk, y))
      && q == p.(pending := ConsumedBelow(p, SIGNALS)) && s == r
    else
      && Lowest(p, r, stackOk, x)
      && q == p.(pending := ConsumedBelow(p, x + 1), saved := r, active := true)
      && s == Entered(p, r, x)
  }

  /**
    `process_deliver_signal`: the new process state, the frame to resume with, the signal (0: none)
    and the words put on the user stack: a null return address, and the signal as argument above it.
   */
  method Deliver(p: Process, r: Frame, stackOk: nat -> bool)
    returns (q: Process, s: Frame, x: nat, pushed: map<nat, nat>)
    requires Valid(p)
    ensures Delivers(p, r, stackOk, q, s, x)
    ensures x != 0 ==> x < SIGNALS && s[EIP] == p.handlers[x] && s[EAX] == x && s[USERESP] == r[USERESP] - 8
    ensures forall i | 0 <= i < FRAME_WORDS && i != EIP && i != EAX && i != USERESP :: s[i] == r[i]
    ensures pushed == if x == 0 then map[] else map[r[USERESP] - 8 := 0, r[USERESP] - 4 := x]
    ensures x != 0 ==> s[USERESP] in pushed && pushed[s[USERESP]] == 0
    ensures x != 0 ==> s[USERESP] + 4 in pushed && pushed[s[USERESP] + 4] == x
  {
    q, s, x, pushed := p, r, 0, map[];
    if !p.userMode || p.active { return; }
    var considered := Considered(p);
    var signal := 1;
    assert ConsumedBelow(p, 1) == p.pending;
    while signal <= 31
      invariant 1 <= signal <= 32
      invariant q == p.(pending := ConsumedBelow(p, signal))
      invariant forall y: nat | y < signal :: !Deliverable(p, r, stackOk, y)
    {
      if signal in considered {
        q := q.(pending := q.pending - {signal});
        assert q.pending == ConsumedBelow(p, signal + 1);
        var handler := p.handlers[signal];
        if handler != 0 && !(r[USERESP] < STACK_LOW || !stackOk(signal)) {
          q := q.(saved := r, active := true);
          var stack := r[USERESP] - 8;
          pushed := map[stack := 0, stack + 4 := signal];
          s := Entered(p, r, signal);
          x := signal;
          return;
        }
      } else {
        assert ConsumedBelow(p, signal + 1) == ConsumedBelow(p, signal);
      }
      signal := signal + 1;
    }
  }

  /** `process_signal_return`. */
  function Return(p: Process, r: Frame): (Process, Frame) {
    if !p.active then (p, r) else (p.(active := false), p.saved)
  }

  /** Masked signals stay pending, and so does everything above the delivered signal. */
  lemma DeliveryKeepsMasked(p: Process, r: Frame, stackOk: nat -> bool, q: Process, s: Frame, x: nat, y: nat)
    requires Valid(p) && Delivers(p, r, stackOk, q, s, x)
    requires y in p.mask || (x != 0 && y > x)
    ensures y in q.pending <==> y in p.pending
  {
  }

  /** Delivery happens exactly when some pending signal is not masked, has a handler and finds room on the stack. */
  lemma DeliveredIff(p: Process, r: Frame, stackOk: nat -> bool, q: Process, s: Frame, x: nat)
    requires Valid(p) && p.userMode && !p.active && Delivers(p, r, stackOk, q, s, x)
    ensures x != 0 <==> exists y: nat :: 0 < y < SIGNALS && y in p.pending && y !in p.mask && p.handlers[y] != 0 &&
                                         r[USERESP] >= 0x0040_0008 && stackOk(y)
    ensures x != 0 <==> q.active && !p.active
    ensures forall y: nat | y in p.pending && y !in q.pending :: 0 < y && y !in p.mask && (x != 0 ==> y <= x)
    ensures q.pending <= p.pending && x !in q.pending - {0}
  {
    if y: nat :| 0 < y < SIGNALS && y in p.pending && y !in p.mask && p.handlers[y] != 0 &&
                 r[USERESP] >= 0x0040_0008 && stackOk(y) {
      assert Deliverable(p, r, stackOk, y);
    }
    if x != 0 { assert Deliverable(p, r, stackOk, x); }
  }

  /** The outcome of an attempt is determined: two attempts on one state agree. */
  lemma DeliveryUnique(p: Process, r: Frame, stackOk: nat -> bool, q: Process, s: Frame, x: nat,
                       q': Process, s': Frame, x': nat)
    requires Delivers(p, r, stackOk, q, s, x) && Delivers(p, r, stackOk, q', s', x')
    ensures (q, s, x) == (q', s', x')
  {
  }

  // ---------------------------------------------------------------- between delivery and return

  datatype Event =
    | Post(x: nat)
    | SetMask(mask: set<nat>)
    | SetHandler(x: nat, handler: nat)
    | Attempt(r: Frame, stackOk: nat -> bool)

  /** `q` may follow `p`. */
  ghost predicate Next(p: Process, e: Event, q: Process) {
    match e
    case Post(x) => q == p.(pending := p.pending + {x})
    case SetMask(mask) => q == p.(mask := mask - {KILL})
    case SetHandler(x, handler) => x < |p.handlers| && q == p.(handlers := p.handlers[x := handler])
    case Attempt(r, stackOk) => exists s, x :: Delivers(p, r, stackOk, q, s, x)
  }

  ghost predicate Run(ps: seq<Process>, events: seq<Event>) {
    |ps| == |events| + 1 && forall i: nat | i < |events| :: Next(ps[i], events[i], ps[i + 1])
  }

  lemma {:induction false} FrameIntact(ps: seq<Process>, events: seq<Event>, n: nat)
    requires Run(ps, events) && n < |ps| && ps[0].active
    ensures ps[n].active && ps[n].saved == ps[0].saved
  {
    if n == 0 {
    } else {
      FrameIntact(ps, events, n - 1);
      assert Next(ps[n - 1], events[n - 1], ps[n]);
    }
  }

  /** Whatever masks are set, the kill signal is never masked. */
  lemma {:induction false} KillNeverMasked(ps: seq<Process>, events: seq<Event>, n: nat)
    requires Run(ps, events) && n < |ps| && KILL !in ps[0].mask
    ensures 9 !in ps[n].mask
  {
    if n == 0 {
    } else {
      KillNeverMasked(ps, events, n - 1);
      assert Next(ps[n - 1], events[n - 1], ps[n]);
    }
  }

  /**
    From a delivery to the matching return, whatever is posted, masked, installed or
    attempted in between, all fifteen registers come back.
   */
  lemma ReturnRestores(p: Process, r: Frame, stackOk: nat -> bool, q: Process, s: Frame, x: nat,
                       ps: seq<Process>, events: seq<Event>, any: Frame)
    requires !p.active && Delivers(p, r, stackOk, q, s, x) && x != 0
    requires Run(ps, events) && ps[0] == q
    ensures Return(ps[|events|], any).1 == r && !Return(ps[|events|], any).0.active
  {
    FrameIntact(ps, events, |events|);
  }

  /** The end of `syscall_from_interrupt`: the result goes to EAX, then return or deliver. */
  ghost predicate SyscallExit(p: Process, r: Frame, number: nat, result: nat, stackOk: nat -> bool,
                              q: Process, s: Frame)
  {
    var r1 := r[EAX := result];
    if number == SYS_SIGRETURN then (q, s) == Return(p, r1) else exists x :: Delivers(p, r1, stackOk, q, s, x)
  }

  /** A call that does not block sees its own result after the handler: `sigreturn` brings back EAX too. */
  lemma InterruptedCallResumes(p: Process, r: Frame, number: nat, result: nat, stackOk: nat -> bool,
                               q: Process, s: Frame, ps: seq<Process>, events: seq<Event>,
                               h: Frame, junk: nat, q': Process, s': Frame)
    requires p.userMode && !p.active && q.active && number != SYS_SIGRETURN
    requires SyscallExit(p, r, number, result, stackOk, q, s)
    requires Run(ps, events) && ps[0] == q
    requires SyscallExit(ps[|events|], h, SYS_SIGRETURN, junk, stackOk, q', s')
    ensures s' == r[EAX := result]
  {
    var x :| Delivers(p, r[EAX := result], stackOk, q, s, x);
    ReturnRestores(p, r[EAX := result], stackOk, q, s, x, ps, events, h[EAX := junk]);
  }

  /** The frame of a blocked process after a wake-up has put the outcome of its wait in EAX. */
  function Woken(s: Frame, outcome: nat): Frame {
    s[EAX := outcome]
  }

  /**
    A call that blocks leaves with result 0, and its outcome is written into the frame it left
    with.  If a signal was delivered on the way out that frame is the handler's: the call sees its
    outcome exactly when no signal was delivered or the outcome is 0, and returns 0 otherwise.
   */
  lemma BlockedCallSeesIff(p: Process, r: Frame, number: nat, outcome: nat, stackOk: nat -> bool,
                           q: Process, s: Frame, ps: seq<Process>, events: seq<Event>,
                           h: Frame, junk: nat, q': Process, s': Frame)
    requires p.userMode && !p.active && number != SYS_SIGRETURN
    requires SyscallExit(p, r, number, 0, stackOk, q, s)
    requires Run(ps, events) && ps[0] == q
    requires q.active ==> SyscallExit(ps[|events|], h, SYS_SIGRETURN, junk, stackOk, q', s')
    ensures q.active ==> s' == r[EAX := 0]
    ensures var seen := if q.active then s' else Woken(s, outcome);
            seen == r[EAX := outcome] <==> !q.active || outcome == 0
  {
    if q.active {
      InterruptedCallResumes(p, r, number, 0, stackOk, q, s, ps, events, h, junk, q', s');
      assert r[EAX := 0][EAX] == 0 && r[EAX := outcome][EAX] == outcome;
    } else {
      assert s == r[EAX := 0];
    }
  }
}
