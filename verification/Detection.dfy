/**
  What the checksum of a log record does catch (fs/journal.c): every change of one byte.  Each
  round of the hash is undone by an inverse, so a difference once made is never lost.
 */
module Detection {
  import opened Numbers
  import opened Sectors
  import opened Journal
  import opened Recovery

  // ---------------------------------------------------------------- exclusive or

  lemma {:induction false} XorTwice(a: nat, b: nat)
    ensures Xor(Xor(a, b), b) == a
  {
    if a == 0 && b == 0 {
    } else {
      XorTwice(a / 2, b / 2);
      assert Xor(a, b) / 2 == Xor(a / 2, b / 2);
    }
  }

  lemma {:induction false} XorSwaps(a: nat, b: nat)
    ensures Xor(a, b) == Xor(b, a)
  {
    if a == 0 && b == 0 {
    } else {
      XorSwaps(a / 2, b / 2);
    }
  }

  function Power(k: nat): (r: nat)
    ensures r > 0
  {
    if k == 0 then 1 else 2 * Power(k - 1)
  }

  lemma {:induction false} XorBelow(a: nat, b: nat, k: nat)
    requires a < Power(k) && b < Power(k)
    ensures Xor(a, b) < Power(k)
  {
    if k == 0 {
    } else {
      XorBelow(a / 2, b / 2, k - 1);
    }
  }

  lemma WordIsPower()
    ensures Power(32) == WORD
  {
    assert Power(8) == 0x100;
    assert Power(16) == 0x1_0000;
    assert Power(24) == 0x100_0000;
  }

  // ---------------------------------------------------------------- the rounds

  const FNV_INVERSE: nat := 899433627

  /** The prime is odd, so multiplying by it in 32 bits can be undone. */
  lemma TimesPrimeUndone(a: nat)
    requires a < WORD
    ensures a * FNV_PRIME % WORD * FNV_INVERSE % WORD == a
  {
    var r, q := a * FNV_PRIME % WORD, a * FNV_PRIME / WORD;
    assert r * FNV_INVERSE == a + WORD * (3513497 * a - q * FNV_INVERSE);
  }

  /** A round tells apart two states, and two bytes. */
  lemma AbsorbDiffers(h: nat, x: nat, i: nat, y: nat)
    requires h < WORD && i < WORD && x < WORD && y < WORD
    requires (h == i && x != y) || (h != i && x == y)
    ensures Absorb(h, x) != Absorb(i, y)
  {
    hide Xor, Power;
    WordIsPower();
    XorBelow(h, x, 32);
    XorBelow(i, y, 32);
    XorTwice(h, x);
    XorTwice(i, y);
    XorSwaps(h, x);
    XorSwaps(i, y);
    XorTwice(x, h);
    XorTwice(y, i);
    TimesPrimeUndone(Xor(h, x));
    TimesPrimeUndone(Xor(i, y));
  }

  lemma HashBelow(data: Sector, n: nat)
    requires n <= SECTOR
    ensures HashUpTo(data, n) < WORD
  {
  }

  /** The two sectors differ at `i` and nowhere else. */
  ghost predicate OneOff(a: Sector, b: Sector, i: nat) {
    i < SECTOR && a[i] != b[i] && forall k: nat | k < SECTOR && k != i :: a[k] == b[k]
  }

  lemma {:induction false} HashSame(a: Sector, b: Sector, i: nat, n: nat)
    requires OneOff(a, b, i) && n <= i
    ensures HashUpTo(a, n) == HashUpTo(b, n)
  {
    hide Absorb;
    if n == 0 {
    } else {
      HashSame(a, b, i, n - 1);
    }
  }

  lemma {:induction false} HashDiffers(a: Sector, b: Sector, i: nat, n: nat)
    requires OneOff(a, b, i) && i < n <= SECTOR
    ensures HashUpTo(a, n) != HashUpTo(b, n)
  {
    hide Absorb;
    HashBelow(a, n - 1);
    HashBelow(b, n - 1);
    if n == i + 1 {
      HashSame(a, b, i, i);
    } else {
      HashDiffers(a, b, i, n - 1);
    }
    AbsorbDiffers(HashUpTo(a, n - 1), a[n - 1], HashUpTo(b, n - 1), b[n - 1]);
  }

  /** The checksum of a record changes with every change of one data byte. */
  lemma OneByteDetected(a: Sector, b: Sector, i: nat, target: nat, sequence: nat)
    requires OneOff(a, b, i) && target < WORD && sequence < WORD
    ensures ChecksumOf(a, target, sequence) != ChecksumOf(b, target, sequence)
  {
    hide HashUpTo, Xor;
    var h, j := HashUpTo(a, SECTOR), HashUpTo(b, SECTOR);
    HashDiffers(a, b, i, SECTOR);
    HashBelow(a, SECTOR);
    HashBelow(b, SECTOR);
    AbsorbDiffers(h, target, j, target);
    SequenceCancels(Absorb(h, target), Absorb(j, target), sequence);
  }

  /** It changes with the target, and with the sequence number. */
  lemma PlaceDetected(data: Sector, target: nat, sequence: nat, target': nat, sequence': nat)
    requires target < WORD && sequence < WORD && target' < WORD && sequence' < WORD
    requires (target != target' && sequence == sequence') || (target == target' && sequence != sequence')
    ensures ChecksumOf(data, target, sequence) != ChecksumOf(data, target', sequence')
  {
    hide HashUpTo, Xor, Power;
    var h := HashUpTo(data, SECTOR);
    HashBelow(data, SECTOR);
    if target != target' {
      AbsorbDiffers(h, target, h, target');
      SequenceCancels(Absorb(h, target), Absorb(h, target'), sequence);
    } else {
      var a := Absorb(h, target);
      XorSwaps(a, sequence);
      XorSwaps(a, sequence');
      SequenceCancels(sequence, sequence', a);
    }
  }

  lemma SequenceCancels(a: nat, b: nat, sequence: nat)
    requires a < WORD && b < WORD && sequence < WORD && a != b
    ensures Xor(a, sequence) % WORD != Xor(b, sequence) % WORD
  {
    hide Xor, Power;
    WordIsPower();
    XorBelow(a, sequence, 32);
    XorBelow(b, sequence, 32);
    XorTwice(a, sequence);
    XorTwice(b, sequence);
  }

  // ---------------------------------------------------------------- records that recovery skips

  /** `tail` is the lost part of `data` with byte `i` changed. */
  ghost predicate TailOneOff(data: Sector, tail: Tail, i: nat) {
    i < PREFIX && tail[i] != data[CARRIED + i] && forall k: nat | k < PREFIX && k != i :: tail[k] == data[CARRIED + k]
  }

  lemma OneByteNotFooled(g: Log, target: nat, data: Sector, tail: Tail, i: nat)
    requires target < WORD && g.sequence < WORD && TailOneOff(data, tail, i)
    ensures !Fooled(g, target, data, tail)
  {
    hide ChecksumOf;
    var read: Sector := data[..CARRIED] + tail;
    forall k: nat | k < SECTOR && k != CARRIED + i ensures read[k] == data[k] {
      assert k >= CARRIED ==> read[k] == tail[k - CARRIED];
    }
    OneByteDetected(read, data, CARRIED + i, target, g.sequence);
  }

  /** A crash after the record, found with such a tail, leaves a log that is not clean. */
  lemma SkippedRecordStays(g: Log, d: Disk, w: Request, k: nat, tail: Tail, i: nat)
    requires Ready(g) && Clean(g, d) && GoodTarget(g, d, w.target) && 0 < k <= 2 && TailOneOff(w.data, tail, i)
    ensures !Clean(g, Replay(g, Written(g, d, w.target, w.data, w.reserved, k), tail))
  {
    hide ChecksumOf, Written, Replay, Clean, TailOneOff;
    OneByteNotFooled(g, w.target, w.data, tail, i);
    CrashCleansIff(g, d, w, k, tail);
  }

  lemma OtherSlot(g: Log)
    requires g.slots >= 2
    ensures g.sequence % g.slots != 1 ==> SlotOf(g.(sequence := 1)) != SlotOf(g)
    ensures g.sequence == 2 ==> g.sequence % g.slots != 1
  {
  }

  /**
    The older write does come back: skipped once for one wrong byte, passed over by a completed
    write through another slot, and applied at the next boot, which finds the bytes that were lost.
    The second write of a boot, over any log of two slots or more, is such a write.
   */
  lemma OlderWriteReturns(g: Log, d: Disk, w: Request, k: nat, first: Tail, i: nat, v: Request)
    requires Ready(g) && Clean(g, d) && GoodTarget(g, d, w.target) && 0 < k <= 2
    requires g.slots >= 2 && g.sequence % g.slots != 1
    requires TailOneOff(w.data, first, i) && v.target == w.target
    ensures var one := Replay(g, Written(g, d, w.target, w.data, w.reserved, k), first);
            var h := g.(sequence := 1);
            var r := Replay(h, Written(h, one, v.target, v.data, v.reserved, 3), w.data[CARRIED..]);
            w.target in r && r[w.target] == w.data
  {
    hide ChecksumOf, Written, Replay, TailOneOff, SlotOf;
    OtherSlot(g);
    var tail: Tail := w.data[CARRIED..];
    assert w.data[..CARRIED] + tail == w.data;
    OneByteNotFooled(g, w.target, w.data, first, i);
    OlderWriteReturnsIff(g, d, w, k, first, v, tail);
  }
}
