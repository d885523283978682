/** The recovery log and crashes (fs/journal.c). */
module Journal {
  import opened Numbers
  import opened Sectors

  // A record is written, then the target sector, then the record again with its committed flag
  // cleared.  Records are 532 bytes but travel through 512-byte sectors, so the last 20 data
  // bytes are lost; `tail` is what replay finds there.

  const MAGIC: nat := 0x434a4e4c
  const COMMITTED: Byte := 0xa5
  const MAX_SLOTS: nat := 64
  const PREFIX: nat := 20
  const CARRIED: nat := SECTOR - PREFIX

  type Tail = s: seq<Byte> | |s| == PREFIX witness seq(PREFIX, _ => 0)

  datatype Record = Record(
    magic: nat, sequence: nat, target: nat, checksum: nat, committed: Byte, reserved: seq<Byte>, data: Sector)

  // ---------------------------------------------------------------- record layout

  function Le32(w: nat): (r: seq<Byte>)
    ensures |r| == 4
  {
    [w % 256, w / 256 % 256, w / 256 / 256 % 256, w / 256 / 256 / 256 % 256]
  }

  function Word(b: seq<Byte>): (r: nat)
    requires |b| == 4
    ensures r < WORD
  {
    b[0] as int + 256 * (b[1] as int + 256 * (b[2] as int + 256 * b[3] as int))
  }

  lemma WordOfLe32(w: nat)
    requires w < WORD
    ensures Word(Le32(w)) == w
  {
    var a := w / 256;
    var b := a / 256;
    var c := b / 256;
    assert c < 256;
  }

  ghost predicate Fits(r: Record) {
    r.magic < WORD && r.sequence < WORD && r.target < WORD && r.checksum < WORD && |r.reserved| == 3
  }

  function Header(r: Record): (h: seq<Byte>)
    requires |r.reserved| == 3
    ensures |h| == PREFIX
  {
    Le32(r.magic) + Le32(r.sequence) + Le32(r.target) + Le32(r.checksum) + [r.committed] + r.reserved
  }

  /** The sector a record is written as: the header and the first 492 data bytes. */
  function Image(r: Record): Sector
    requires |r.reserved| == 3
  {
    Header(r) + r.data[..CARRIED]
  }

  /** The record read back from a sector, with `tail` in the bytes the sector does not cover. */
  function Parse(s: Sector, tail: Tail): Record {
    Record(Word(s[0..4]), Word(s[4..8]), Word(s[8..12]), Word(s[12..16]), s[16], s[17..20], s[20..] + tail)
  }

  /** Everything survives except the last 20 data bytes. */
  lemma ParseImage(r: Record, tail: Tail)
    requires Fits(r)
    ensures Parse(Image(r), tail) == r.(data := r.data[..CARRIED] + tail)
    ensures r.data[CARRIED..] == tail ==> Parse(Image(r), tail) == r
  {
    var s := Image(r);
    assert s[0..4] == Le32(r.magic) && s[4..8] == Le32(r.sequence);
    assert s[8..12] == Le32(r.target) && s[12..16] == Le32(r.checksum);
    assert s[16] == r.committed && s[17..20] == r.reserved && s[20..] == r.data[..CARRIED];
    WordOfLe32(r.magic);
    WordOfLe32(r.sequence);
    WordOfLe32(r.target);
    WordOfLe32(r.checksum);
    assert r.data == r.data[..CARRIED] + r.data[CARRIED..];
  }

  // ---------------------------------------------------------------- checksum

  const FNV_OFFSET: nat := 2166136261
  const FNV_PRIME: nat := 16777619

  /** Exclusive or, bit by bit. */
  function Xor(a: nat, b: nat): (r: nat)
    ensures r <= a + b
  {
    if a == 0 && b == 0 then 0 else (if a % 2 == b % 2 then 0 else 1) + 2 * Xor(a / 2, b / 2)
  }

  /** One FNV-1a round, in 32 bits. */
  function Absorb(h: nat, x: nat): nat {
    Xor(h, x) * FNV_PRIME % WORD
  }

  /** The hash of the first `n` data bytes. */
  function HashUpTo(data: seq<Byte>, n: nat): nat
    requires n <= |data|
    decreases n, data
  {
    if n == 0 then FNV_OFFSET else Absorb(HashUpTo(data, n - 1), data[n - 1])
  }

  function ChecksumOf(data: Sector, target: nat, sequence: nat): (r: nat)
    requires target < WORD && sequence < WORD
    ensures r < WORD
  {
    Xor(Absorb(HashUpTo(data, SECTOR), target), sequence) % WORD
  }

  /** `checksum`. */
  method ComputeChecksum(data: Sector, target: nat, sequence: nat) returns (r: nat)
    requires target < WORD && sequence < WORD
    ensures r == ChecksumOf(data, target, sequence)
  {
    hide Absorb, Xor;
    var h := FNV_OFFSET;
    for i := 0 to SECTOR
      invariant h == HashUpTo(data, i)
    {
      h := Absorb(h, data[i]);
    }
    r := Xor(Absorb(h, target), sequence) % WORD;
  }

  // ---------------------------------------------------------------- the log

  type Disk = map<nat, Sector>

  /** The journal's place on the disk, and the next sequence number. */
  datatype Log = Log(base: nat, slots: nat, sequence: nat)

  ghost predicate Ready(g: Log) {
    0 < g.slots <= MAX_SLOTS && g.base + g.slots <= WORD && g.sequence < WORD
  }

  predicate InLog(g: Log, lba: nat) {
    g.base <= lba < g.base + g.slots
  }

  function SlotOf(g: Log): (r: nat)
    requires g.slots > 0
    ensures InLog(g, r)
  {
    g.base + g.sequence % g.slots
  }

  function Advance(g: Log): Log {
    g.(sequence := (g.sequence + 1) % WORD)
  }

  /** Replay would consider this sector. */
  predicate IsCommitted(s: Sector) {
    Word(s[0..4]) == MAGIC && s[16] == COMMITTED
  }

  /** No slot is committed. */
  ghost predicate Clean(g: Log, d: Disk) {
    forall i | InLog(g, i) && i in d :: !IsCommitted(d[i])
  }

  /** The record `journal_write` builds; `reserved` is whatever its stack held. */
  function RecordFor(g: Log, target: nat, data: Sector, reserved: seq<Byte>): Record
    requires target < WORD && g.sequence < WORD
  {
    Record(MAGIC, g.sequence, target, ChecksumOf(data, target, g.sequence), COMMITTED, reserved, data)
  }

  /** The disk after the first `k` of the three sector writes. */
  function Written(g: Log, d: Disk, target: nat, data: Sector, reserved: seq<Byte>, k: nat): Disk
    requires Ready(g) && target < WORD && |reserved| == 3
  {
    var r := RecordFor(g, target, data, reserved);
    var one := d[SlotOf(g) := Image(r)];
    var two := one[target := data];
    if k == 0 then d else if k == 1 then one else if k == 2 then two else two[SlotOf(g) := Image(r.(committed := 0))]
  }

  /** What a completed write promises: the target holds the data, nothing outside the log changed otherwise. */
  ghost predicate OnlyTarget(g: Log, before: Disk, after: Disk, target: nat, data: Sector) {
    && after.Keys == before.Keys
    && forall lba | lba in before && !InLog(g, lba) :: after[lba] == if lba == target then data else before[lba]
  }

  /** Targets live outside the log, on the device. */
  ghost predicate GoodTarget(g: Log, d: Disk, target: nat) {
    target < WORD && target in d && !InLog(g, target) && forall i | InLog(g, i) :: i in d
  }

  lemma ImageCommitted(r: Record)
    requires Fits(r) && r.magic == MAGIC
    ensures IsCommitted(Image(r)) <==> r.committed == COMMITTED
  {
    var s := Image(r);
    assert s[0..4] == Le32(r.magic) && s[16] == r.committed;
    WordOfLe32(r.magic);
  }

  lemma RecordFits(g: Log, target: nat, data: Sector, reserved: seq<Byte>)
    requires target < WORD && g.sequence < WORD && |reserved| == 3
    ensures Fits(RecordFor(g, target, data, reserved))
  {
  }

  /** A completed write updates its target and leaves the log clean. */
  lemma WriteCompletes(g: Log, d: Disk, target: nat, data: Sector, reserved: seq<Byte>)
    requires Ready(g) && GoodTarget(g, d, target) && |reserved| == 3 && Clean(g, d)
    ensures var after := Written(g, d, target, data, reserved, 3);
            Clean(g, after) && OnlyTarget(g, d, after, target, data)
  {
    hide Image, IsCommitted, ChecksumOf;
    var r := RecordFor(g, target, data, reserved);
    RecordFits(g, target, data, reserved);
    ImageCommitted(r.(committed := 0));
    var after := Written(g, d, target, data, reserved, 3);
    assert after.Keys == d.Keys;
  }

  /** Cut anywhere, a write leaves at most its own slot committed, and every other sector as it was. */
  lemma WriteCut(g: Log, d: Disk, target: nat, data: Sector, reserved: seq<Byte>, k: nat)
    requires Ready(g) && GoodTarget(g, d, target) && |reserved| == 3 && Clean(g, d) && k <= 2
    ensures var cut := Written(g, d, target, data, reserved, k);
            && cut.Keys == d.Keys
            && (forall i | InLog(g, i) && i in cut && IsCommitted(cut[i]) :: k > 0 && i == SlotOf(g))
            && (k > 0 ==> cut[SlotOf(g)] == Image(RecordFor(g, target, data, reserved)) && IsCommitted(cut[SlotOf(g)]))
            && (forall lba | lba in d && lba != target && lba != SlotOf(g) :: cut[lba] == d[lba])
            && cut[target] == if k == 2 then data else d[target]
  {
    hide Image, IsCommitted, ChecksumOf;
    var r := RecordFor(g, target, data, reserved);
    RecordFits(g, target, data, reserved);
    ImageCommitted(r);
    var cut := Written(g, d, target, data, reserved, k);
    assert cut.Keys == d.Keys;
  }

  // ---------------------------------------------------------------- runs of writes

  datatype AnyRequest = Request(target: nat, data: Sector, reserved: seq<Byte>)

  type Request = w: AnyRequest | w.target < WORD && |w.reserved| == 3
    witness Request(0, seq(SECTOR, _ => 0), [0, 0, 0])

  function AdvanceBy(g: Log, n: nat): (r: Log)
    ensures r.base == g.base && r.slots == g.slots && (g.sequence < WORD ==> r.sequence < WORD)
  {
    if n == 0 then g else Advance(AdvanceBy(g, n - 1))
  }

  /** Sequence numbers count the writes, in 32 bits. */
  lemma {:induction false} AdvanceByIs(g: Log, n: nat)
    requires g.sequence < WORD
    ensures AdvanceBy(g, n).sequence == (g.sequence + n) % WORD
  {
    if n == 0 {
    } else {
      AdvanceByIs(g, n - 1);
      WrapNext(g.sequence + n - 1);
    }
  }

  lemma NotWrapped(g: Log, n: nat)
    requires g.sequence + n < WORD
    ensures AdvanceBy(g, n) == g.(sequence := g.sequence + n)
  {
    AdvanceByIs(g, n);
  }

  /** Until the number wraps, writes fewer than `slots` apart go through different slots. */
  lemma SlotsTakeTurns(g: Log, i: nat, j: nat)
    requires Ready(g) && i < j < i + g.slots && g.sequence + j < WORD
    ensures SlotOf(AdvanceBy(g, i)) != SlotOf(AdvanceBy(g, j))
  {
    hide AdvanceBy;
    NotWrapped(g, i);
    NotWrapped(g, j);
    NotCongruent(g.sequence + i, g.sequence + j, g.slots);
  }

  lemma NotCongruent(a: nat, b: nat, n: nat)
    requires a < b < a + n
    ensures a % n != b % n
  {
    Decompose(a, n);
    Decompose(b, n);
    var q := b / n - a / n;
    assert b - a == n * q + (b % n - a % n);
    assert q >= 1 ==> n * q >= n;
    assert q <= 0 ==> n * q <= 0;
  }

  /** The disk after the writes `ws`, all completed. */
  function WriteAll(g: Log, d: Disk, ws: seq<Request>): (r: Disk)
    requires Ready(g)
  {
    if ws == [] then d
    else
      var n := |ws| - 1;
      Written(AdvanceBy(g, n), WriteAll(g, d, ws[..n]), ws[n].target, ws[n].data, ws[n].reserved, 3)
  }

  /** What a plain disk would hold at `lba`. */
  function LastWritten(d: Disk, ws: seq<Request>, lba: nat): Sector
    requires lba in d
  {
    if ws == [] then d[lba]
    else if ws[|ws| - 1].target == lba then ws[|ws| - 1].data
    else LastWritten(d, ws[..|ws| - 1], lba)
  }

  lemma {:induction false} RunCompletes(g: Log, d: Disk, ws: seq<Request>)
    requires Ready(g) && Clean(g, d) && forall w | w in ws :: GoodTarget(g, d, w.target)
    ensures var r := WriteAll(g, d, ws);
            && Clean(g, r) && r.Keys == d.Keys
            && forall lba | lba in d && !InLog(g, lba) :: r[lba] == LastWritten(d, ws, lba)
  {
    if ws == [] {
    } else {
      var n := |ws| - 1;
      RunCompletes(g, d, ws[..n]);
      assert ws[n] in ws;
      var h, mid := AdvanceBy(g, n), WriteAll(g, d, ws[..n]);
      CleanLater(g, h, mid);
      WriteCompletes(h, mid, ws[n].target, ws[n].data, ws[n].reserved);
      CleanLater(h, g, WriteAll(g, d, ws));
    }
  }

  /** Cleanliness does not depend on the sequence number. */
  lemma CleanLater(g: Log, h: Log, d: Disk)
    requires g.base == h.base && g.slots == h.slots && Clean(g, d)
    ensures Clean(h, d)
  {
    forall i | InLog(h, i) && i in d ensures !IsCommitted(d[i]) { assert InLog(g, i); }
  }

  // ---------------------------------------------------------------- replay

  /** A slot that replay applies: committed, and the checksum agrees with what was read. */
  predicate Applies(s: Sector, tail: Tail) {
    var r := Parse(s, tail);
    r.magic == MAGIC && r.committed == COMMITTED && r.checksum == ChecksumOf(r.data, r.target, r.sequence)
  }

  /** `journal_replay` on one slot. */
  function ReplaySlot(d: Disk, slot: nat, tail: Tail): Disk {
    if slot !in d || !Applies(d[slot], tail) then d
    else
      var r := Parse(d[slot], tail);
      if r.target in d then d[r.target := r.data][slot := Image(r.(committed := 0))] else d
  }

  function ReplayUpTo(g: Log, d: Disk, tail: Tail, n: nat): Disk {
    if n == 0 then d else ReplaySlot(ReplayUpTo(g, d, tail, n - 1), g.base + n - 1, tail)
  }

  function Replay(g: Log, d: Disk, tail: Tail): Disk {
    ReplayUpTo(g, d, tail, g.slots)
  }

  /** The record in `slot` gets applied. */
  predicate Applied(d: Disk, slot: nat, tail: Tail) {
    slot in d && Applies(d[slot], tail) && Parse(d[slot], tail).target in d
  }

  /** That is exactly when its committed flag gets cleared. */
  lemma AppliedIff(d: Disk, slot: nat, tail: Tail)
    requires slot in d
    ensures Applied(d, slot, tail) <==> IsCommitted(d[slot]) && !IsCommitted(ReplaySlot(d, slot, tail)[slot])
  {
    hide Image, Word, ChecksumOf;
    if Applied(d, slot, tail) { ImageCommitted(Parse(d[slot], tail).(committed := 0)); }
  }

  /** How many of the first `n` slots `journal_replay` applies. */
  function AppliedUpTo(g: Log, d: Disk, tail: Tail, n: nat): nat {
    if n == 0 then 0
    else AppliedUpTo(g, d, tail, n - 1) + if Applied(ReplayUpTo(g, d, tail, n - 1), g.base + n - 1, tail) then 1 else 0
  }

  lemma UncommittedSkipped(d: Disk, slot: nat, tail: Tail)
    requires slot in d ==> !IsCommitted(d[slot])
    ensures ReplaySlot(d, slot, tail) == d && !Applied(d, slot, tail)
  {
  }

  /** If only slot `p` of the log can be committed, replay is replay of that slot. */
  lemma {:induction false} ReplayOnly(g: Log, d: Disk, tail: Tail, p: nat, n: nat)
    requires n <= g.slots && InLog(g, p) && p in d
    requires forall i | InLog(g, i) && i in d && i != p :: !IsCommitted(d[i])
    requires Applies(d[p], tail) ==> !InLog(g, Parse(d[p], tail).target)
    ensures ReplayUpTo(g, d, tail, n) == if p < g.base + n then ReplaySlot(d, p, tail) else d
    ensures AppliedUpTo(g, d, tail, n) == if p < g.base + n && Applied(d, p, tail) then 1 else 0
  {
    hide IsCommitted, Applies, Parse, Image;
    if n == 0 {
    } else {
      ReplayOnly(g, d, tail, p, n - 1);
      var slot := g.base + n - 1;
      if slot != p {
        var before := ReplayUpTo(g, d, tail, n - 1);
        assert slot in before ==> before[slot] == d[slot];
        UncommittedSkipped(before, slot, tail);
      }
    }
  }

  /** The checksum cannot tell the tail that was found from the tail that was written. */
  predicate Fooled(g: Log, target: nat, data: Sector, tail: Tail)
    requires target < WORD && g.sequence < WORD
  {
    ChecksumOf(data[..CARRIED] + tail, target, g.sequence) == ChecksumOf(data, target, g.sequence)
  }

  lemma AppliesWritten(g: Log, target: nat, data: Sector, reserved: seq<Byte>, tail: Tail)
    requires Ready(g) && target < WORD && |reserved| == 3
    ensures var s := Image(RecordFor(g, target, data, reserved));
            && (Applies(s, tail) <==> Fooled(g, target, data, tail))
            && Parse(s, tail).target == target && Parse(s, tail).data == data[..CARRIED] + tail
            && Fits(Parse(s, tail))
  {
    var r := RecordFor(g, target, data, reserved);
    RecordFits(g, target, data, reserved);
    ParseImage(r, tail);
  }

  /**
    Crash safety.  After any run of completed writes and one write cut after `k` sector
    writes, replay touches nothing but that write's target and slot: every other sector
    holds its last completed value.
   */
  lemma CrashSafe(g: Log, d: Disk, ws: seq<Request>, w: Request, k: nat, tail: Tail, lba: nat)
    requires Ready(g) && Clean(g, d) && (forall v | v in ws :: GoodTarget(g, d, v.target))
    requires GoodTarget(g, d, w.target) && k <= 2
    requires lba in d && !InLog(g, lba)
    ensures var h := AdvanceBy(g, |ws|);
            var cut := Written(h, WriteAll(g, d, ws), w.target, w.data, w.reserved, k);
            var r := Replay(h, cut, tail);
            && lba in r
            && (lba != w.target ==> r[lba] == LastWritten(d, ws, lba))
            && (lba == w.target ==>
                  r[lba] == if k > 0 && Fooled(h, w.target, w.data, tail) then w.data[..CARRIED] + tail
                            else if k == 2 then w.data else LastWritten(d, ws, lba))
  {
    RunCompletes(g, d, ws);
    var h, mid := AdvanceBy(g, |ws|), WriteAll(g, d, ws);
    CleanLater(g, h, mid);
    WriteCut(h, mid, w.target, w.data, w.reserved, k);
    var cut := Written(h, mid, w.target, w.data, w.reserved, k);
    AppliesWritten(h, w.target, w.data, w.reserved, tail);
    if k == 0 { NotApplied(cut[SlotOf(h)], tail); }
    OneSlotReplays(h, cut, tail, SlotOf(h));
  }

  /** If only slot `p` can be committed, replay writes its record's target, or nothing. */
  lemma OneSlotReplays(h: Log, cut: Disk, tail: Tail, p: nat)
    requires InLog(h, p) && p in cut
    requires forall i | InLog(h, i) && i in cut && i != p :: !IsCommitted(cut[i])
    requires IsCommitted(cut[p]) ==> !InLog(h, Parse(cut[p], tail).target) && Parse(cut[p], tail).target in cut
    ensures var r := Replay(h, cut, tail);
            var target := Parse(cut[p], tail).target;
            if Applies(cut[p], tail)
            then r.Keys == cut.Keys && target in cut && r[target] == Parse(cut[p], tail).data
                 && forall lba | lba in cut && lba != target && lba != p :: r[lba] == cut[lba]
            else r == cut
  {
    hide Applies, Parse, Image, IsCommitted;
    if !IsCommitted(cut[p]) { NotApplied(cut[p], tail); }
    ReplayOnly(h, cut, tail, p, h.slots);
  }

  lemma NotApplied(s: Sector, tail: Tail)
    requires !IsCommitted(s)
    ensures !Applies(s, tail)
  {
  }

  /**
    After recovery the cut write's target holds exactly its old or its new contents if and
    only if the checksum is not fooled by a tail that differs from both.
   */
  lemma TargetOldOrNewIff(g: Log, d: Disk, ws: seq<Request>, w: Request, k: nat, tail: Tail)
    requires Ready(g) && Clean(g, d) && (forall v | v in ws :: GoodTarget(g, d, v.target))
    requires GoodTarget(g, d, w.target) && k <= 2
    ensures var h := AdvanceBy(g, |ws|);
            var before := LastWritten(d, ws, w.target);
            var r := Replay(h, Written(h, WriteAll(g, d, ws), w.target, w.data, w.reserved, k), tail);
            (w.target in r && r[w.target] in {before, w.data}) <==>
            !(k > 0 && Fooled(h, w.target, w.data, tail) && w.data[..CARRIED] + tail !in {before, w.data})
  {
    CrashSafe(g, d, ws, w, k, tail, w.target);
  }

  /** When the whole record is carried, recovery completes every write whose record reached the log. */
  lemma WholeRecordRecovers(g: Log, d: Disk, ws: seq<Request>, w: Request, k: nat)
    requires Ready(g) && Clean(g, d) && (forall v | v in ws :: GoodTarget(g, d, v.target))
    requires GoodTarget(g, d, w.target) && k <= 2
    ensures var h := AdvanceBy(g, |ws|);
            var tail: Tail := w.data[CARRIED..];
            var r := Replay(h, Written(h, WriteAll(g, d, ws), w.target, w.data, w.reserved, k), tail);
            w.target in r && r[w.target] == if k > 0 then w.data else LastWritten(d, ws, w.target)
  {
    var tail: Tail := w.data[CARRIED..];
    assert w.data[..CARRIED] + tail == w.data;
    CrashSafe(g, d, ws, w, k, tail, w.target);
  }

  /** Replay cut between its two sector writes can simply be run again. */
  lemma ReplayResumes(g: Log, d: Disk, tail: Tail, p: nat)
    requires InLog(g, p) && p in d && Applies(d[p], tail) && Parse(d[p], tail).target in d
    requires !InLog(g, Parse(d[p], tail).target)
    requires forall i | InLog(g, i) && i in d && i != p :: !IsCommitted(d[i])
    ensures var r := Parse(d[p], tail); Replay(g, d[r.target := r.data], tail) == Replay(g, d, tail)
  {
    hide Applies, Parse, Image, IsCommitted;
    var r := Parse(d[p], tail);
    var cut := d[r.target := r.data];
    ReplayOnly(g, d, tail, p, g.slots);
    ReplayOnly(g, cut, tail, p, g.slots);
    assert cut[r.target := r.data] == cut;
  }

  // ---------------------------------------------------------------- the journal as the kernel runs it

  class RecoveryLog {
    var disk: Disk
    var log: Log
    var ready: bool

    ghost predicate Valid()
      reads this
    {
      ready ==> Ready(log)
    }

    /** `block_write_sector`: sectors outside the device are refused. */
    method WriteSector(lba: nat, s: Sector) returns (ok: bool)
      modifies this`disk
      ensures ok <==> lba in old(disk)
      ensures disk == if ok then old(disk)[lba := s] else old(disk)
    {
      ok := lba in disk;
      if ok { disk := disk[lba := s]; }
    }

    /** `journal_init`. */
    constructor (disk: Disk, start: nat, slots: nat)
      requires start + slots <= WORD
      ensures Valid() && this.disk == disk && (ready <==> slots != 0)
      ensures log == Log(start, if slots > MAX_SLOTS then MAX_SLOTS else slots, 1)
    {
      this.disk := disk;
      log := Log(start, if slots > MAX_SLOTS then MAX_SLOTS else slots, 1);
      ready := slots != 0;
    }

    /** `journal_write`: record, target, record again; on failure the disk is left where the write stopped. */
    method Write(target: nat, data: Sector, reserved: seq<Byte>) returns (ok: bool)
      requires Valid() && target < WORD && |reserved| == 3
      modifies this`disk, this`log
      ensures Valid()
      ensures log == if ready then Advance(old(log)) else old(log)
      ensures ok <==> ready && SlotOf(old(log)) in old(disk) && target in old(disk)
      ensures !ready ==> disk == old(disk)
      ensures ready ==>
                disk == Written(old(log), old(disk), target, data, reserved,
                                if SlotOf(old(log)) !in old(disk) then 0 else if target !in old(disk) then 1 else 3)
    {
      hide Image, ChecksumOf;
      if !ready { return false; }
      var sum := ComputeChecksum(data, target, log.sequence);
      var r := Record(MAGIC, log.sequence, target, sum, COMMITTED, reserved, data);
      var slot := SlotOf(log);
      log := Advance(log);
      ok := WriteSector(slot, Image(r));
      if !ok { return; }
      ok := WriteSector(target, data);
      if !ok { return; }
      ok := WriteSector(slot, Image(r.(committed := 0)));
    }

    /** `journal_replay`; `tail` is what the record buffer holds beyond a sector. */
    method ReplayAll(tail: Tail) returns (applied: int)
      requires Valid()
      modifies this`disk
      ensures disk == if ready then Replay(log, old(disk), tail) else old(disk)
      ensures applied == if ready then AppliedUpTo(log, old(disk), tail, log.slots) else -1
    {
      hide ReplaySlot, Applied;
      if !ready { return -1; }
      applied := 0;
      for i := 0 to log.slots
        invariant disk == ReplayUpTo(log, old(disk), tail, i)
        invariant applied == AppliedUpTo(log, old(disk), tail, i)
      {
        var done := ReplayOne(log.base + i, tail);
        if done { applied := applied + 1; }
      }
    }

    /** One round of the replay loop. */
    method ReplayOne(slot: nat, tail: Tail) returns (done: bool)
      modifies this`disk
      ensures disk == ReplaySlot(old(disk), slot, tail)
      ensures done <==> Applied(old(disk), slot, tail)
    {
      hide Image, ChecksumOf, Word;
      done := false;
      if slot !in disk { return; }
      var r := Parse(disk[slot], tail);
      var sum := ComputeChecksum(r.data, r.target, r.sequence);
      if r.magic != MAGIC || r.committed != COMMITTED || r.checksum != sum { return; }
      done := WriteSector(r.target, r.data);
      if done { var _ := WriteSector(slot, Image(r.(committed := 0))); }
    }

    /** `journal_clear`: a log that lies on the device comes out clean. */
    method Clear() returns (ok: bool)
      requires Valid()
      modifies this`disk
      ensures disk.Keys == old(disk).Keys && (!ready ==> disk == old(disk))
      ensures ok <==> ready && forall i | InLog(log, i) :: i in disk
      ensures ok ==> Clean(log, disk)
      ensures forall lba | lba in disk && !InLog(log, lba) :: disk[lba] == old(disk)[lba]
    {
      hide IsCommitted;
      if !ready { return false; }
      var zero: Sector := seq(SECTOR, _ => 0);
      ZeroUncommitted(zero);
      for i := 0 to log.slots
        invariant disk.Keys == old(disk).Keys
        invariant forall j | log.base <= j < log.base + i :: j in disk && !IsCommitted(disk[j])
        invariant forall lba | lba in disk && !InLog(log, lba) :: disk[lba] == old(disk)[lba]
      {
        ok := WriteSector(log.base + i, zero);
        if !ok {
          assert InLog(log, log.base + i);
          return;
        }
      }
      ok := true;
    }
  }

  lemma ZeroUncommitted(s: Sector)
    requires forall k | 0 <= k < SECTOR :: s[k] == 0
    ensures !IsCommitted(s)
  {
  }
}
