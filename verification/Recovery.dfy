/** Recovery from any log (fs/journal.c). */
module Recovery {
  import opened Numbers
  import opened Sectors
  import opened Journal

  // `CrashSafe` starts from a log without committed records.  Recovery itself need not leave one:
  // a record whose tail does not match is skipped and stays.  Here the log holds any records.

  // ---------------------------------------------------------------- replaying any log

  /** The sector a record is for; the bytes that are lost do not matter to it. */
  function TargetOf(s: Sector): nat {
    Word(s[8..12])
  }

  /** The log lies on the device, and its committed records are for sectors outside it. */
  ghost predicate Contained(g: Log, d: Disk) {
    forall i | InLog(g, i) :: i in d && (IsCommitted(d[i]) ==> TargetOf(d[i]) in d && !InLog(g, TargetOf(d[i])))
  }

  /** What the last of the first `n` records that apply says about `lba`, or what was there. */
  ghost function LastApplied(g: Log, d: Disk, tail: Tail, lba: nat, n: nat): Sector
    requires lba in d && forall i | g.base <= i < g.base + n :: i in d
  {
    if n == 0 then d[lba]
    else
      var slot := g.base + n - 1;
      if Applies(d[slot], tail) && TargetOf(d[slot]) == lba then Parse(d[slot], tail).data
      else LastApplied(g, d, tail, lba, n - 1)
  }

  /** A slot after replay: a record that applied has lost its committed flag. */
  ghost function Settled(s: Sector, tail: Tail): Sector {
    if Applies(s, tail) then Image(Parse(s, tail).(committed := 0)) else s
  }

  lemma AppliesIsCommitted(s: Sector, tail: Tail)
    ensures Applies(s, tail) ==> IsCommitted(s)
    ensures Parse(s, tail).target == TargetOf(s)
  {
    if !IsCommitted(s) { NotApplied(s, tail); }
  }

  /** Replay of any log settles its slots, in order. */
  lemma {:induction false} SlotsSettle(g: Log, d: Disk, tail: Tail, n: nat)
    requires n <= g.slots && Contained(g, d)
    ensures var r := ReplayUpTo(g, d, tail, n);
            && r.Keys == d.Keys
            && forall i: nat | InLog(g, i) :: r[i] == if i < g.base + n then Settled(d[i], tail) else d[i]
  {
    hide Applies, Parse, Image, IsCommitted, TargetOf;
    if n == 0 {
    } else {
      SlotsSettle(g, d, tail, n - 1);
      var slot := g.base + n - 1;
      AppliesIsCommitted(d[slot], tail);
      var before := ReplayUpTo(g, d, tail, n - 1);
      assert InLog(g, slot) && before[slot] == d[slot];
      assert ReplaySlot(before, slot, tail).Keys == d.Keys;
    }
  }

  /** Replay of any log: a sector outside it holds what the last record that applies says. */
  lemma {:induction false} ReplayIs(g: Log, d: Disk, tail: Tail, n: nat, lba: nat)
    requires n <= g.slots && Contained(g, d) && lba in d && !InLog(g, lba)
    ensures var r := ReplayUpTo(g, d, tail, n); lba in r && r[lba] == LastApplied(g, d, tail, lba, n)
  {
    hide Applies, Parse, Image, IsCommitted, TargetOf;
    if n == 0 {
    } else {
      ReplayIs(g, d, tail, n - 1, lba);
      SlotsSettle(g, d, tail, n - 1);
      var slot := g.base + n - 1;
      assert InLog(g, slot);
      AppliesIsCommitted(d[slot], tail);
    }
  }

  lemma SettledIsClean(s: Sector, tail: Tail)
    ensures IsCommitted(Settled(s, tail)) <==> IsCommitted(s) && !Applies(s, tail)
  {
    hide Image, Word;
    AppliesIsCommitted(s, tail);
    if Applies(s, tail) {
      ImageCommitted(Parse(s, tail).(committed := 0));
    }
  }

  lemma SettledForGood(s: Sector, tail: Tail)
    ensures !Applies(Settled(s, tail), tail)
  {
    hide Image, Word, Applies;
    SettledIsClean(s, tail);
    AppliesIsCommitted(Settled(s, tail), tail);
  }

  /** Recovery leaves the log clean exactly when every committed record applies. */
  lemma RecoveryCleansIff(g: Log, d: Disk, tail: Tail)
    requires Contained(g, d)
    ensures Clean(g, Replay(g, d, tail)) <==> forall i: nat | InLog(g, i) && IsCommitted(d[i]) :: Applies(d[i], tail)
  {
    hide Applies, Parse, Image, IsCommitted, TargetOf, Settled;
    SlotsSettle(g, d, tail, g.slots);
    var r := Replay(g, d, tail);
    forall i: nat | InLog(g, i) ensures IsCommitted(r[i]) <==> IsCommitted(d[i]) && !Applies(d[i], tail) {
      SettledIsClean(d[i], tail);
    }
  }

  // ---------------------------------------------------------------- a second crash, during recovery

  /** Replay cut before slot `n`, or with `half` between the two sector writes for it. */
  function CutReplay(g: Log, d: Disk, tail: Tail, n: nat, half: bool): Disk {
    var r, slot := ReplayUpTo(g, d, tail, n), g.base + n;
    if half && Applied(r, slot, tail) then r[Parse(r[slot], tail).target := Parse(r[slot], tail).data] else r
  }

  lemma {:induction false} NothingAgain(g: Log, d: Disk, tail: Tail, n: nat)
    requires forall i: nat | g.base <= i < g.base + n && i in d :: !Applies(d[i], tail)
    ensures ReplayUpTo(g, d, tail, n) == d
  {
    hide Applies;
    if n == 0 {
    } else {
      NothingAgain(g, d, tail, n - 1);
    }
  }

  lemma {:induction false} SameFrom(g: Log, d: Disk, e: Disk, tail: Tail, n: nat, m: nat)
    requires n <= m && ReplayUpTo(g, d, tail, n) == ReplayUpTo(g, e, tail, n)
    ensures ReplayUpTo(g, d, tail, m) == ReplayUpTo(g, e, tail, m)
  {
    if n == m {
    } else {
      SameFrom(g, d, e, tail, n, m - 1);
    }
  }

  /** Recovery of any log, cut anywhere and run again, ends where it would have ended. */
  lemma RecoveryResumes(g: Log, d: Disk, tail: Tail, n: nat, half: bool)
    requires Contained(g, d) && n <= g.slots && (half ==> n < g.slots)
    ensures Replay(g, CutReplay(g, d, tail, n, half), tail) == Replay(g, d, tail)
  {
    hide Applies, Parse, Image, IsCommitted, TargetOf, Settled;
    var r, slot := ReplayUpTo(g, d, tail, n), g.base + n;
    var cut := CutReplay(g, d, tail, n, half);
    SlotsSettle(g, d, tail, n);
    var again := half && Applied(r, slot, tail);
    if again {
      assert InLog(g, slot);
      AppliesIsCommitted(d[slot], tail);
    }
    forall i: nat | g.base <= i < g.base + n ensures !Applies(cut[i], tail) {
      assert InLog(g, i) && cut[i] == Settled(d[i], tail);
      SettledForGood(d[i], tail);
    }
    NothingAgain(g, cut, tail, n);
    if again {
      assert ReplaySlot(cut, slot, tail) == ReplaySlot(r, slot, tail);
      SameFrom(g, cut, d, tail, n + 1, g.slots);
    } else {
      SameFrom(g, cut, d, tail, n, g.slots);
    }
  }

  // ---------------------------------------------------------------- crashes over any log

  /** None of the first `n` writes from `g` on goes through slot `i`. */
  ghost predicate Unused(g: Log, n: nat, i: nat)
    requires g.slots > 0
  {
    forall m: nat | m < n :: SlotOf(AdvanceBy(g, m)) != i
  }

  /** What a write does to the log and to the rest, whatever the log held. */
  lemma WriteAnyLog(g: Log, d: Disk, w: Request, k: nat)
    requires Ready(g) && GoodTarget(g, d, w.target) && k <= 3
    ensures var after := Written(g, d, w.target, w.data, w.reserved, k);
            && after.Keys == d.Keys
            && (forall i: nat | InLog(g, i) && i != SlotOf(g) :: after[i] == d[i])
            && (0 < k < 3 ==>
                  && after[SlotOf(g)] == Image(RecordFor(g, w.target, w.data, w.reserved))
                  && IsCommitted(after[SlotOf(g)]))
            && (k == 0 ==> after == d) && (k == 3 ==> !IsCommitted(after[SlotOf(g)]))
            && forall lba: nat | lba in d && !InLog(g, lba) ::
                 after[lba] == if k >= 2 && lba == w.target then w.data else d[lba]
  {
    hide Image, IsCommitted, ChecksumOf;
    var r := RecordFor(g, w.target, w.data, w.reserved);
    RecordFits(g, w.target, w.data, w.reserved);
    ImageCommitted(r);
    ImageCommitted(r.(committed := 0));
    assert Written(g, d, w.target, w.data, w.reserved, k).Keys == d.Keys;
  }

  lemma UnusedNext(g: Log, n: nat, i: nat)
    requires g.slots > 0
    ensures Unused(g, n + 1, i) <==> Unused(g, n, i) && SlotOf(AdvanceBy(g, n)) != i
  {
    hide SlotOf, AdvanceBy;
  }

  lemma LaterLog(g: Log, d: Disk, e: Disk, n: nat, target: nat)
    requires Ready(g) && GoodTarget(g, d, target) && e.Keys == d.Keys
    ensures Ready(AdvanceBy(g, n)) && GoodTarget(AdvanceBy(g, n), e, target)
    ensures forall i: nat :: InLog(AdvanceBy(g, n), i) <==> InLog(g, i)
  {
    hide AdvanceBy;
  }

  /** After a run of completed writes only records in slots it did not use are left. */
  lemma {:induction false} RunOverAnyLog(g: Log, d: Disk, ws: seq<Request>)
    requires Ready(g) && forall w | w in ws :: GoodTarget(g, d, w.target)
    requires forall i: nat | InLog(g, i) :: i in d
    ensures var r := WriteAll(g, d, ws);
            && r.Keys == d.Keys
            && (forall i: nat | InLog(g, i) :: if Unused(g, |ws|, i) then r[i] == d[i] else !IsCommitted(r[i]))
            && forall lba: nat | lba in d && !InLog(g, lba) :: r[lba] == LastWritten(d, ws, lba)
  {
    hide Image, IsCommitted, ChecksumOf, SlotOf, AdvanceBy, Written, Unused, GoodTarget, InLog;
    if ws == [] {
      forall i: nat ensures Unused(g, 0, i) { UnusedAtFirst(g, i); }
    } else {
      var n := |ws| - 1;
      RunOverAnyLog(g, d, ws[..n]);
      assert ws[n] in ws;
      LaterLog(g, d, WriteAll(g, d, ws[..n]), n, ws[n].target);
      WriteAnyLog(AdvanceBy(g, n), WriteAll(g, d, ws[..n]), ws[n], 3);
      forall i: nat ensures Unused(g, n + 1, i) <==> Unused(g, n, i) && SlotOf(AdvanceBy(g, n)) != i {
        UnusedNext(g, n, i);
      }
    }
  }

  lemma UnusedAtFirst(g: Log, i: nat)
    requires g.slots > 0
    ensures Unused(g, 0, i)
  {
  }

  /** The record in slot `i` applies, and to `lba`. */
  ghost predicate Hits(d: Disk, i: nat, tail: Tail, lba: nat) {
    i in d && Applies(d[i], tail) && TargetOf(d[i]) == lba
  }

  /** Either no record applies to `lba`, or the sector gets the data of one that does. */
  lemma {:induction false} LastAppliedIs(g: Log, d: Disk, tail: Tail, lba: nat, n: nat)
    requires lba in d && forall i: nat | g.base <= i < g.base + n :: i in d
    ensures var r := LastApplied(g, d, tail, lba, n);
            || (r == d[lba] && forall i: nat | g.base <= i < g.base + n :: !Hits(d, i, tail, lba))
            || exists i: nat :: g.base <= i < g.base + n && Hits(d, i, tail, lba) && r == Parse(d[i], tail).data
  {
    hide Applies, Parse, TargetOf;
    if n == 0 {
    } else {
      LastAppliedIs(g, d, tail, lba, n - 1);
      var i := g.base + n - 1;
      assert !Hits(d, i, tail, lba) || LastApplied(g, d, tail, lba, n) == Parse(d[i], tail).data;
    }
  }

  /**
    A record from before `g` is left in slot `i` when `n` writes were completed and one was cut
    after `k` sector writes.
   */
  ghost predicate Left(g: Log, n: nat, k: nat, i: nat)
    requires g.slots > 0
  {
    InLog(g, i) && Unused(g, if k == 0 then n else n + 1, i)
  }

  /** The slots after a run and a cut write: the cut write's own, those left over, and uncommitted ones. */
  lemma CutOverAnyLog(g: Log, d: Disk, ws: seq<Request>, w: Request, k: nat, tail: Tail, i: nat, lba: nat)
    requires Ready(g) && Contained(g, d) && (forall v | v in ws :: GoodTarget(g, d, v.target))
    requires GoodTarget(g, d, w.target) && k <= 2
    requires InLog(g, i)
    ensures var h := AdvanceBy(g, |ws|);
            var cut := Written(h, WriteAll(g, d, ws), w.target, w.data, w.reserved, k);
            && cut.Keys == d.Keys
            && (IsCommitted(cut[i]) ==> TargetOf(cut[i]) in d && !InLog(g, TargetOf(cut[i])))
            && (if k > 0 && i == SlotOf(h)
                then (Hits(cut, i, tail, lba) <==> Fooled(h, w.target, w.data, tail) && lba == w.target)
                     && Parse(cut[i], tail).data == w.data[..CARRIED] + tail
                else (Hits(cut, i, tail, lba) <==> Left(g, |ws|, k, i) && Hits(d, i, tail, lba))
                     && (Left(g, |ws|, k, i) ==> cut[i] == d[i]))
  {
    hide Applies, Parse, TargetOf, IsCommitted, Image, Written, WriteAll, AdvanceBy, Unused, SlotOf, Fooled;
    var n := |ws|;
    var h, mid := AdvanceBy(g, n), WriteAll(g, d, ws);
    RunOverAnyLog(g, d, ws);
    LaterLog(g, d, mid, n, w.target);
    WriteAnyLog(h, mid, w, k);
    UnusedNext(g, n, i);
    var cut := Written(h, mid, w.target, w.data, w.reserved, k);
    AppliesIsCommitted(cut[i], tail);
    AppliesIsCommitted(d[i], tail);
    AppliesWritten(h, w.target, w.data, w.reserved, tail);
    if k > 0 && i == SlotOf(h) {
      assert cut[i] == Image(RecordFor(h, w.target, w.data, w.reserved));
    } else {
      assert cut[i] == mid[i];
    }
  }

  /** A left-over record applies to `lba`. */
  ghost predicate Haunted(g: Log, d: Disk, n: nat, k: nat, tail: Tail, lba: nat)
    requires g.slots > 0
  {
    exists i: nat :: Left(g, n, k, i) && Hits(d, i, tail, lba)
  }

  /**
    A crash and a replay over any log.  A sector for which no left-over record applies is as over a
    clean log; any other gets the data of such a record, unless the cut write's record applies to it.
   */
  lemma CrashOverAnyLog(g: Log, d: Disk, ws: seq<Request>, w: Request, k: nat, tail: Tail, lba: nat)
    requires Ready(g) && Contained(g, d) && (forall v | v in ws :: GoodTarget(g, d, v.target))
    requires GoodTarget(g, d, w.target) && k <= 2
    requires lba in d && !InLog(g, lba)
    ensures var h := AdvanceBy(g, |ws|);
            var r := Replay(h, Written(h, WriteAll(g, d, ws), w.target, w.data, w.reserved, k), tail);
            var fooled := k > 0 && lba == w.target && Fooled(h, w.target, w.data, tail);
            && lba in r
            && (if !Haunted(g, d, |ws|, k, tail, lba)
                then r[lba] == if fooled then w.data[..CARRIED] + tail
                               else if k == 2 && lba == w.target then w.data else LastWritten(d, ws, lba)
                else (fooled && r[lba] == w.data[..CARRIED] + tail)
                     || exists i: nat ::
                          Left(g, |ws|, k, i) && Hits(d, i, tail, lba) && r[lba] == Parse(d[i], tail).data)
  {
    hide Applies, Parse, TargetOf, IsCommitted, Image, Written, WriteAll, AdvanceBy, Unused, SlotOf, Fooled, Left, Hits,
         ReplayUpTo, LastApplied;
    var n := |ws|;
    var h, mid := AdvanceBy(g, n), WriteAll(g, d, ws);
    var cut := Written(h, mid, w.target, w.data, w.reserved, k);
    RunOverAnyLog(g, d, ws);
    LaterLog(g, d, mid, n, w.target);
    WriteAnyLog(h, mid, w, k);
    forall i: nat | InLog(g, i) ensures IsCommitted(cut[i]) ==> TargetOf(cut[i]) in d && !InLog(g, TargetOf(cut[i])) {
      CutOverAnyLog(g, d, ws, w, k, tail, i, lba);
    }
    ReplayIs(h, cut, tail, h.slots, lba);
    LastAppliedIs(h, cut, tail, lba, h.slots);
    if i: nat :| h.base <= i < h.base + h.slots && Hits(cut, i, tail, lba)
                 && LastApplied(h, cut, tail, lba, h.slots) == Parse(cut[i], tail).data {
      CutOverAnyLog(g, d, ws, w, k, tail, i, lba);
      if !(k > 0 && i == SlotOf(h)) { assert Left(g, n, k, i) && Hits(d, i, tail, lba); }
    } else {
      forall i: nat | Left(g, n, k, i) ensures !Hits(d, i, tail, lba) {
        LeftIs(g, n, k, i);
        CutOverAnyLog(g, d, ws, w, k, tail, i, lba);
      }
      if k > 0 {
        LeftIs(g, n, k, SlotOf(h));
        CutOverAnyLog(g, d, ws, w, k, tail, SlotOf(h), lba);
      }
    }
  }

  lemma LeftIs(g: Log, n: nat, k: nat, i: nat)
    requires g.slots > 0
    ensures Left(g, n, k, i) ==> InLog(g, i) && (k > 0 ==> i != SlotOf(AdvanceBy(g, n)))
    ensures InLog(g, SlotOf(AdvanceBy(g, n)))
  {
    UnusedNext(g, n, i);
  }

  // ---------------------------------------------------------------- over two boots

  /**
    After a crash from a clean log, recovery leaves a clean log exactly when no record was cut off,
    or its tail is accepted.
   */
  lemma CrashCleansIff(g: Log, d: Disk, w: Request, k: nat, tail: Tail)
    requires Ready(g) && Clean(g, d) && GoodTarget(g, d, w.target) && k <= 2
    ensures Clean(g, Replay(g, Written(g, d, w.target, w.data, w.reserved, k), tail)) <==>
            k == 0 || Fooled(g, w.target, w.data, tail)
  {
    hide Applies, Parse, TargetOf, IsCommitted, Image, Written, Fooled, ReplayUpTo;
    var cut := Written(g, d, w.target, w.data, w.reserved, k);
    WriteAnyLog(g, d, w, k);
    AppliesWritten(g, w.target, w.data, w.reserved, tail);
    AppliesIsCommitted(cut[SlotOf(g)], tail);
    RecoveryCleansIff(g, cut, tail);
  }

  /**
    A write is cut after its record, and recovery skips the record.  The next boot starts counting
    at 1 again; a write to the same sector completes, the kernel stops, and recovery runs once
    more.  The sector then holds the older data exactly if the second write went through another
    slot and this time the tail is accepted.
   */
  lemma OlderWriteReturnsIff(g: Log, d: Disk, w: Request, k: nat, first: Tail, v: Request, tail: Tail)
    requires Ready(g) && Clean(g, d) && GoodTarget(g, d, w.target) && 0 < k <= 2
    requires !Fooled(g, w.target, w.data, first) && v.target == w.target
    ensures var one := Replay(g, Written(g, d, w.target, w.data, w.reserved, k), first);
            var h := g.(sequence := 1);
            var two := Written(h, one, v.target, v.data, v.reserved, 3);
            var r := Replay(h, two, tail);
            && w.target in r
            && r[w.target] == if SlotOf(h) != SlotOf(g) && Fooled(g, w.target, w.data, tail)
                              then w.data[..CARRIED] + tail else v.data
  {
    hide Applies, Parse, TargetOf, IsCommitted, Image, Written, Fooled, ReplayUpTo, LastApplied;
    var p, h := SlotOf(g), g.(sequence := 1);
    var cut := Written(g, d, w.target, w.data, w.reserved, k);
    WriteAnyLog(g, d, w, k);
    AppliesWritten(g, w.target, w.data, w.reserved, first);
    AppliesWritten(g, w.target, w.data, w.reserved, tail);
    AppliesIsCommitted(cut[p], first);
    OneSlotReplays(g, cut, first, p);
    WriteAnyLog(h, cut, v, 3);
    var two := Written(h, cut, v.target, v.data, v.reserved, 3);
    assert InLog(h, p) && InLog(h, SlotOf(h));
    AppliesIsCommitted(two[p], tail);
    if SlotOf(h) == p { NotApplied(two[p], tail); }
    OneSlotReplays(h, two, tail, p);
  }

  // ---------------------------------------------------------------- the checksum can be fooled

  /** The part of a sector's data that a record carries. */
  type Front = s: seq<Byte> | |s| == CARRIED witness seq(CARRIED, _ => 0)

  /** One tail for each number up to `WORD`. */
  function Numbered(n: nat): Tail {
    Le32(n % WORD) + [n / WORD % 256] + seq(PREFIX - 5, _ => 0)
  }

  lemma NumberedDiffer(i: nat, j: nat)
    requires i < j <= WORD
    ensures Numbered(i) != Numbered(j)
  {
    hide Le32, Word;
    assert Numbered(i)[..4] == Le32(i % WORD) && Numbered(j)[..4] == Le32(j % WORD);
    WordOfLe32(i % WORD);
    WordOfLe32(j % WORD);
    assert i % WORD == j % WORD ==> j == WORD;
    assert Numbered(i)[4] == i / WORD && Numbered(j)[4] == j / WORD;
  }

  ghost function SumOf(front: Front, target: nat, sequence: nat, n: nat): nat {
    if target < WORD && sequence < WORD then ChecksumOf(front + Numbered(n), target, sequence) else 0
  }

  /** There are more tails than sums: whatever the front, two tails have the same sum. */
  lemma Collision(front: Front, target: nat, sequence: nat) returns (a: Tail, b: Tail)
    requires target < WORD && sequence < WORD
    ensures a != b && ChecksumOf(front + a, target, sequence) == ChecksumOf(front + b, target, sequence)
  {
    hide ChecksumOf, Numbered;
    var i, j := Pigeonhole((n: nat) => SumOf(front, target, sequence, n), WORD);
    NumberedDiffer(i, j);
    a, b := Numbered(i), Numbered(j);
  }

  /** Whatever the front, the old contents and the record's place, some tail makes a third value. */
  lemma ThirdValue(g: Log, target: nat, front: Front, before: Sector) returns (data: Sector, tail: Tail)
    requires target < WORD && g.sequence < WORD
    ensures data[..CARRIED] == front && Fooled(g, target, data, tail) && data[..CARRIED] + tail !in {before, data}
  {
    hide ChecksumOf;
    var a, b := Collision(front, target, g.sequence);
    assert (front + a)[..CARRIED] == front == (front + b)[..CARRIED];
    assert front + a != front + b by { assert (front + a)[CARRIED..] == a && (front + b)[CARRIED..] == b; }
    if front + b == before { data, tail := front + b, a; } else { data, tail := front + a, b; }
  }

  /** After any run of writes, some write cut after its record leaves its target neither old nor new. */
  lemma ThirdValueHappens(g: Log, d: Disk, ws: seq<Request>, target: nat, front: Front, k: nat)
    returns (w: Request, tail: Tail)
    requires Ready(g) && Clean(g, d) && (forall v | v in ws :: GoodTarget(g, d, v.target))
    requires GoodTarget(g, d, target) && 0 < k <= 2
    ensures w.target == target && w.data[..CARRIED] == front
    ensures var h := AdvanceBy(g, |ws|);
            var r := Replay(h, Written(h, WriteAll(g, d, ws), target, w.data, w.reserved, k), tail);
            target in r && r[target] !in {LastWritten(d, ws, target), w.data}
  {
    hide Fooled, Replay, Written, WriteAll;
    var h := AdvanceBy(g, |ws|);
    var data, t := ThirdValue(h, target, front, LastWritten(d, ws, target));
    w, tail := Request(target, data, [0, 0, 0]), t;
    TargetOldOrNewIff(g, d, ws, w, k, tail);
    CrashSafe(g, d, ws, w, k, tail, target);
  }
}
