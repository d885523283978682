/** When the copy of `krealloc` stays in its block (mm/heap.c). */
module Overrun {
  import opened Numbers
  import opened Blocks
  import opened KernelHeap

  // A size above 0xfffffff8 rounds to 0.  The block granted for it can be smaller than the payload
  // to be moved, and the copy then runs over the header behind it.

  /** The loop writes upwards: what lies below its cursor stays. */
  lemma {:induction false} CopyingAbove(mem: seq<Byte>, o: nat, to: nat, i: nat, k: nat)
    requires o + HEADER <= |mem| && k < |mem| && k < to + i
    ensures Copying(mem, o, to, i)[k] == mem[k]
    decreases |mem| - i
  {
    if i < WordAt(mem, o) && o + HEADER + i < |mem| && to + i < |mem| {
      CopyingAbove(mem[to + i := mem[o + HEADER + i]], o, to, i + 1, k);
    } else {
    }
  }

  /** The state of the loop on reaching round `k`, while the header it reads the size from is untouched. */
  lemma {:induction false} CopyingReaches(mem: seq<Byte>, o: nat, to: nat, i: nat, k: nat) returns (r: seq<Byte>)
    requires |mem| == ARENA && i <= k && o + HEADER + k <= ARENA && to + k <= ARENA
    requires k <= WordAt(mem, o) && (to + k <= o || o + HEADER <= to)
    ensures SameOutside(mem, r, to + i, to + k) && Copying(mem, o, to, i) == Copying(r, o, to, k)
    decreases k - i
  {
    if i == k {
      r := mem;
    } else {
      r := CopyingReaches(mem[to + i := mem[o + HEADER + i]], o, to, i + 1, k);
    }
  }

  /** A copy longer than its room puts a payload byte right behind the room. */
  lemma CopyingSpills(mem: seq<Byte>, o: nat, to: nat, room: nat)
    requires |mem| == ARENA && o + HEADER + room < ARENA && to + room < ARENA && room < WordAt(mem, o)
    requires to + room <= o || o + HEADER + WordAt(mem, o) <= to
    ensures Copying(mem, o, to, 0)[to + room] == mem[o + HEADER + room]
  {
    var r := CopyingReaches(mem, o, to, 0, room);
    assert WordAt(r, o) == WordAt(mem, o);
    CopyingAbove(r[to + room := r[o + HEADER + room]], o, to, room + 1, to + room);
  }

  /** `m` is the memory with other bytes in the payload of `a`. */
  ghost predicate OtherPayload(mem: seq<Byte>, m: seq<Byte>, a: Block) {
    SameOutside(mem, m, a.off + HEADER, End(a))
  }

  /** Copying `len` bytes from behind `o` to `to` stays in the arena and leaves the headers of `list` whole. */
  ghost predicate Survives(m: seq<Byte>, area: nat, list: seq<Block>, o: nat, to: nat, len: nat) {
    && |m| == ARENA && o + HEADER <= ARENA && to + len <= ARENA
    && Headers(Copying(m, o, to, 0), area, list)
  }

  /** A payload that fits is copied without harm, whatever it holds. */
  lemma FittingSurvives(mem: seq<Byte>, m: seq<Byte>, area: nat, list: seq<Block>, i: nat, j: nat)
    requires Laid(list) && Headers(mem, area, list) && i < |list| && j < |list| && i != j
    requires list[i].size <= list[j].size && OtherPayload(mem, m, list[i])
    ensures Survives(m, area, list, list[i].off, list[j].off + HEADER, list[i].size)
  {
    hide Headers, Copying, Live, Moved, PayloadKept;
    PayloadWrites(list, i, area, mem, m);
    CopyingMoves(m, area, list, i, j);
  }

  lemma FirstByte(mem: seq<Byte>, area: nat, list: seq<Block>, i: nat)
    requires Headers(mem, area, list) && i < |list|
    ensures list[i].off < |mem| && mem[list[i].off] == WordByte(list[i].size, 0)
  {
    assert HeaderIs(mem, list[i], NextOf(area, list, i));
  }

  /** One that does not fit leaves the arena, or with the right byte destroys the header behind its room. */
  lemma SpillingBreaks(mem: seq<Byte>, area: nat, list: seq<Block>, i: nat, j: nat) returns (m: seq<Byte>)
    requires Tiles(list, 0, ARENA) && Laid(list) && Headers(mem, area, list) && |mem| == ARENA
    requires i < |list| && j < |list| && i != j && list[i].size > list[j].size
    ensures OtherPayload(mem, m, list[i])
    ensures !Survives(m, area, list, list[i].off, list[j].off + HEADER, list[i].size)
  {
    hide Headers, HeaderIs, Copying, WordAt, Tiles;
    var o, to, room := list[i].off, list[j].off + HEADER, list[j].size;
    TilesAt(list, j, 0, ARENA);
    m := mem;
    if j + 1 < |list| {
      assert Before(list, i, j) && Before(list, j, i);
      FirstByte(mem, area, list, j + 1);
      var other: Byte := if mem[to + room] == 0 then 1 else 0;
      m := mem[o + HEADER + room := other];
      PayloadWrites(list, i, area, mem, m);
      ReadBack(m, area, list, i);
      CopyingSpills(m, o, to, room);
      if Headers(Copying(m, o, to, 0), area, list) {
        FirstByte(Copying(m, o, to, 0), area, list, j + 1);
      }
    }
  }

  /** Where the payload to be moved and the block granted for it lie once it is granted. */
  lemma MovedBetween(blocks: seq<Block>, p: Ptr, n: nat) returns (i: nat, j: nat)
    requires Tiles(blocks, 0, ARENA) && Moves(blocks, p, n)
    ensures var (grown, q) := Malloc(blocks, n);
            && i < |grown| && j < |grown| && i != j
            && grown[i] == blocks[IndexOf(blocks, p - HEADER)]
            && grown[j].off + HEADER == q && grown[j].size == GrantedSize(blocks, n)
  {
    hide Malloc, GrantedSize, Live, RoundUp;
    var a := blocks[IndexOf(blocks, p - HEADER)];
    var grown := Malloc(blocks, n).0;
    LiveHas(blocks, a);
    StillLive(blocks, n, a);
    LiveHas(grown, a);
    var b := GrantedBlock(blocks, n);
    i :| 0 <= i < |grown| && grown[i] == a;
    j :| 0 <= j < |grown| && grown[j] == b;
  }

  /**
    A `krealloc` that moves a payload keeps every header and stays in the arena, whatever the payload
    holds, exactly when the block granted is large enough for it.
   */
  lemma OverrunsIff(mem: seq<Byte>, area: nat, blocks: seq<Block>, p: Ptr, n: nat)
    requires Tiles(blocks, 0, ARENA) && Moves(blocks, p, n)
    requires |mem| == ARENA && Headers(mem, area, Malloc(blocks, n).0)
    ensures var (grown, q) := Malloc(blocks, n);
            var a := blocks[IndexOf(blocks, p - HEADER)];
            !Overruns(blocks, p, n) <==>
            forall m | OtherPayload(mem, m, a) :: Survives(m, area, grown, a.off, q, a.size)
  {
    hide Malloc, GrantedSize, Tiles, Laid, Headers, OtherPayload, Survives;
    var (grown, q) := Malloc(blocks, n);
    var i, j := MovedBetween(blocks, p, n);
    MallocTiles(blocks, n);
    LaidOut(grown);
    if Overruns(blocks, p, n) {
      var m := SpillingBreaks(mem, area, grown, i, j);
    } else {
      forall m | OtherPayload(mem, m, grown[i]) ensures Survives(m, area, grown, grown[i].off, q, grown[i].size) {
        FittingSurvives(mem, m, area, grown, i, j);
      }
    }
  }

  lemma WrappedGrant()
    ensures Malloc([Block(0, 64, false), Block(80, ARENA - 96, true)], 0xffff_fff9) ==
            ([Block(0, 64, false), Block(80, 0, false), Block(96, ARENA - 112, true)], 96)
  {
    var blocks := [Block(0, 64, false), Block(80, ARENA - 96, true)];
    assert FirstFit(blocks[1..], 0) == 0;
    assert FirstFit(blocks, 0) == 1;
    assert SplitAt(blocks, 1, 0) == [Block(0, 64, false), Block(80, 0, true), Block(96, ARENA - 112, true)];
    assert Take(blocks, 1, 0) == [Block(0, 64, false), Block(80, 0, false), Block(96, ARENA - 112, true)];
  }

  /** It happens: 64 bytes, resized to 0xfffffff9, are copied over the header behind an empty block. */
  lemma WrappedGrowthOverruns()
    ensures var requests := [Kmalloc(64), Krealloc(HEADER, 0xffff_fff9)];
            Overruns(After(requests, 1).blocks, HEADER, 0xffff_fff9) && !Proper(After(requests, 1).blocks, requests[1])
  {
    hide Malloc;
    var requests := [Kmalloc(64), Krealloc(HEADER, 0xffff_fff9)];
    AfterNext(requests, 0);
    FirstGrant();
    WrappedGrant();
    var blocks := After(requests, 1).blocks;
    assert IndexOf(blocks, 0) == 0;
  }
}
