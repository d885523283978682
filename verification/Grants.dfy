/** Whose payload each heap request takes or gives up (mm/heap.c). */
module Grants {
  import opened Numbers
  import opened Blocks

  // `Blocks` says that live payloads stay in bounds, disjoint and large enough; this module says
  // which ones are live after each request, and that a heap with none is the heap at the start.

  /** The blocks of `live` other than `b`, in order. */
  function Without(live: seq<Block>, b: Block): (r: seq<Block>)
    ensures forall c :: c in r <==> c in live && c != b
  {
    if live == [] then []
    else (if live[0] == b then [] else [live[0]]) + Without(live[1..], b)
  }

  lemma WithoutFirst(live: seq<Block>, b: Block)
    ensures Without(live, b) ==
            if live == [] then [] else (if live[0] == b then [] else [live[0]]) + Without(live[1..], b)
  {
  }

  lemma {:induction false} WithoutAbsent(live: seq<Block>, b: Block)
    requires b !in live
    ensures Without(live, b) == live
  {
    if live == [] {
    } else {
      WithoutAbsent(live[1..], b);
      assert live == [live[0]] + live[1..];
    }
  }

  lemma {:induction false} WithoutAppend(a: seq<Block>, c: seq<Block>, b: Block)
    ensures Without(a + c, b) == Without(a, b) + Without(c, b)
  {
    hide Without;
    WithoutFirst(a, b);
    if a == [] {
      assert a + c == c;
    } else {
      WithoutAppend(a[1..], c, b);
      assert (a + c)[1..] == a[1..] + c;
      WithoutFirst(a + c, b);
    }
  }

  lemma JustThis(b: Block)
    ensures Without([b], b) == []
  {
  }

  lemma WithoutMiddle(before: seq<Block>, b: Block, after: seq<Block>)
    requires b !in before && b !in after
    ensures Without(before + ([b] + after), b) == before + after
  {
    hide Without;
    WithoutAppend(before, [b] + after, b);
    WithoutAppend([b], after, b);
    WithoutAbsent(before, b);
    WithoutAbsent(after, b);
    JustThis(b);
    assert [] + after == after;
  }

  /** Block `i` of a tiling is not among the live blocks around it. */
  lemma NotAround(blocks: seq<Block>, i: nat, x: Block)
    requires Tiles(blocks, 0, ARENA) && i < |blocks| && x.off == blocks[i].off
    ensures x !in Live(blocks[..i]) && x !in Live(blocks[i + 1..])
  {
    hide Live, Tiles;
    if x in Live(blocks[..i]) || x in Live(blocks[i + 1..]) { OthersElsewhere(blocks, i, x, ARENA); }
  }

  lemma LiveIndex(blocks: seq<Block>, b: Block) returns (i: nat)
    requires Tiles(blocks, 0, ARENA) && b in Live(blocks)
    ensures i < |blocks| && blocks[i] == b && !b.free && IndexOf(blocks, b.off) == i
  {
    hide Live, Tiles;
    LiveHas(blocks, b);
    i :| 0 <= i < |blocks| && blocks[i] == b;
    FoundAt(blocks, i, ARENA);
  }

  // ---------------------------------------------------------------- one request

  /** Freeing a live payload gives up that payload and no other. */
  lemma FreeGivesUp(blocks: seq<Block>, b: Block)
    requires Tiles(blocks, 0, ARENA) && b in Live(blocks)
    ensures Live(Free(blocks, b.off + HEADER)) == Without(Live(blocks), b)
    ensures Coalesced(Free(blocks, b.off + HEADER))
  {
    hide Live, Tiles, Without, Release;
    var i := LiveIndex(blocks, b);
    ReleaseLive(blocks, i);
    ReleaseCoalesced(blocks, i);
    NotAround(blocks, i, b);
    WithoutMiddle(Live(blocks[..i]), b, Live(blocks[i + 1..]));
  }

  lemma ReleaseCoalesced(blocks: seq<Block>, i: nat)
    requires i < |blocks|
    ensures Coalesced(Release(blocks, i))
  {
    CoalesceCoalesced(blocks[i := blocks[i].(free := true)]);
  }

  /** A free of anything else known changes nothing. */
  lemma FreeOfFree(blocks: seq<Block>, p: Ptr)
    requires forall b | b in Live(blocks) :: b.off + HEADER != p
    ensures Free(blocks, p) == blocks
  {
    var i := IndexOf(blocks, p - HEADER);
    if i < |blocks| { LiveHas(blocks, blocks[i]); }
  }

  /** `b` starts where the first free block large enough for `size` starts, and wastes at most 23 bytes of it. */
  ghost predicate FirstFitting(blocks: seq<Block>, size: nat, b: Block) {
    exists i: nat :: i < |blocks| && FitsAt(blocks, i, size, b)
  }

  ghost predicate FitsAt(blocks: seq<Block>, i: nat, size: nat, b: Block)
    requires i < |blocks|
  {
    && blocks[i].free && blocks[i].size >= size && b.off == blocks[i].off
    && (forall j | 0 <= j < i :: !(blocks[j].free && blocks[j].size >= size))
    && size <= b.size <= blocks[i].size && b.size < size + HEADER + MIN_SPLIT
  }

  /** A grant adds one payload, in the first free block that is large enough, and touches no other. */
  lemma MallocTakes(blocks: seq<Block>, n: nat) returns (b: Block)
    requires Tiles(blocks, 0, ARENA) && Malloc(blocks, n).1 != 0
    ensures var (r, q) := Malloc(blocks, n);
            && b in Live(r) && b !in Live(blocks) && Without(Live(r), b) == Live(blocks)
            && q == b.off + HEADER && FirstFitting(blocks, RoundUp(n), b)
  {
    hide Live, Tiles, Without, RoundUp;
    var i := FirstFit(blocks, RoundUp(n));
    var r := Take(blocks, i, RoundUp(n));
    b := r[i];
    TakeLive(blocks, i, RoundUp(n));
    NotAround(blocks, i, b);
    WithoutMiddle(Live(blocks[..i]), b, Live(blocks[i + 1..]));
    assert FitsAt(blocks, i, RoundUp(n), b);
  }

  /** The size is rounded up to the next multiple of eight, unless that wraps. */
  lemma RoundsUp(n: nat)
    requires n <= 0xffff_fff8
    ensures n <= RoundUp(n) < n + 8 && RoundUp(n) % 8 == 0
  {
  }

  /** `krealloc` in place: the payload keeps its address and gets what was asked, and no other changes. */
  lemma ReallocInPlace(blocks: seq<Block>, b: Block, n: nat) returns (c: Block)
    requires Tiles(blocks, 0, ARENA) && b in Live(blocks) && 0 < n <= b.size
    ensures var (r, q) := Realloc(blocks, b.off + HEADER, n);
            && q == b.off + HEADER && c.off == b.off && c in Live(r) && n <= c.size <= b.size
            && c.size < n + HEADER + MIN_SPLIT && Without(Live(r), c) == Without(Live(blocks), b)
  {
    hide Live, Tiles, Without;
    var i := LiveIndex(blocks, b);
    c := SplitAt(blocks, i, n)[i];
    SplitLive(blocks, i, n);
    NotAround(blocks, i, b);
    NotAround(blocks, i, c);
    WithoutMiddle(Live(blocks[..i]), b, Live(blocks[i + 1..]));
    WithoutMiddle(Live(blocks[..i]), c, Live(blocks[i + 1..]));
  }

  /** `krealloc` by moving: the old payload is given up and the new one is a grant; refused, nothing changes. */
  lemma ReallocMoves(blocks: seq<Block>, b: Block, n: nat) returns (c: Block)
    requires Tiles(blocks, 0, ARENA) && b in Live(blocks) && n > b.size
    ensures var (r, q) := Realloc(blocks, b.off + HEADER, n);
            if Malloc(blocks, n).1 == 0 then q == 0 && r == blocks
            else && q == c.off + HEADER && c.off != b.off && FirstFitting(blocks, RoundUp(n), c)
                 && c in Live(r) && Without(Live(r), c) == Without(Live(blocks), b)
  {
    hide Live, Tiles, Without, RoundUp, Malloc, Free, FirstFitting;
    var i := LiveIndex(blocks, b);
    c := b;
    if Malloc(blocks, n).1 != 0 {
      c := MallocTakes(blocks, n);
      var grown := Malloc(blocks, n).0;
      MallocTiles(blocks, n);
      StillLive(blocks, n, b);
      FreeGivesUp(grown, b);
      WithoutSwaps(Live(grown), b, c);
      DistinctOffs(grown, b, c);
    }
  }

  lemma DistinctOffs(blocks: seq<Block>, b: Block, c: Block)
    requires Tiles(blocks, 0, ARENA) && b in Live(blocks) && c in Live(blocks) && b != c
    ensures b.off != c.off
  {
    hide Live, Tiles;
    var i := LiveIndex(blocks, b);
    var j := LiveIndex(blocks, c);
  }

  lemma {:induction false} WithoutSwaps(live: seq<Block>, b: Block, c: Block)
    ensures Without(Without(live, b), c) == Without(Without(live, c), b)
  {
    if live == [] {
    } else {
      WithoutSwaps(live[1..], b, c);
      WithoutAppend(if live[0] == b then [] else [live[0]], Without(live[1..], b), c);
      WithoutAppend(if live[0] == c then [] else [live[0]], Without(live[1..], c), b);
    }
  }

  // ---------------------------------------------------------------- runs

  /** Once nothing is live the heap is as it was at the start. */
  ghost predicate Settled(blocks: seq<Block>) {
    Live(blocks) == [] ==> blocks == Initial()
  }

  lemma FreeSettled(blocks: seq<Block>, p: Ptr)
    requires Tiles(blocks, 0, ARENA) && Settled(blocks)
    ensures Settled(Free(blocks, p))
  {
    hide Free, Tiles, Live;
    if Free(blocks, p) != blocks { FreeCoalesces(blocks, p); }
  }

  lemma MallocSettled(blocks: seq<Block>, n: nat)
    requires Tiles(blocks, 0, ARENA) && Settled(blocks)
    ensures Settled(Malloc(blocks, n).0)
  {
    hide Malloc, Tiles, Live, FirstFitting;
    Refused(blocks, n);
    if Malloc(blocks, n).1 != 0 { var b := MallocTakes(blocks, n); }
  }

  lemma ServeSettled(h: Heap, r: Request)
    requires Tiles(h.blocks, 0, ARENA) && Settled(h.blocks)
    ensures Settled(Serve(h, r).blocks)
  {
    hide Malloc, Free, Tiles, Live, SplitAt, Settled, FirstFitting;
    match r
    case Kmalloc(n) => MallocSettled(h.blocks, n);
    case Kfree(p) => FreeSettled(h.blocks, p);
    case Krealloc(p, n) =>
      MallocSettled(h.blocks, n);
      FreeSettled(h.blocks, p);
      var i := IndexOf(h.blocks, p - HEADER);
      if p != 0 && n != 0 && i < |h.blocks| && !h.blocks[i].free { ReallocSettled(h.blocks, h.blocks[i], n); }
  }

  lemma ReallocSettled(blocks: seq<Block>, b: Block, n: nat)
    requires Tiles(blocks, 0, ARENA) && Settled(blocks) && b in blocks && !b.free && n > 0
    ensures Settled(Realloc(blocks, b.off + HEADER, n).0)
  {
    hide Realloc, Malloc, Tiles, Live, FirstFitting;
    LiveHas(blocks, b);
    if n <= b.size {
      var c := ReallocInPlace(blocks, b, n);
    } else {
      var c := ReallocMoves(blocks, b, n);
    }
  }

  lemma {:induction false} SettledAfter(requests: seq<Request>, n: nat)
    requires n <= |requests| && ProperRun(requests)
    ensures Tiles(After(requests, n).blocks, 0, ARENA) && Settled(After(requests, n).blocks)
  {
    hide Serve, Proper, Tiles, Settled, ProperRun;
    TilesAfter(requests, n);
    if n == 0 {
      AtFirst();
    } else {
      SettledAfter(requests, n - 1);
      AfterNext(requests, n - 1);
      ServeSettled(After(requests, n - 1), requests[n - 1]);
    }
  }

  lemma AtFirst()
    ensures Settled(Initial())
  {
  }

  /** One free for each block of `order`. */
  function Frees(order: seq<Block>): (r: seq<Request>)
    ensures |r| == |order|
  {
    seq(|order|, i requires 0 <= i < |order| => Kfree(order[i].off + HEADER))
  }

  ghost predicate NoRepeats(order: seq<Block>) {
    forall i, j | 0 <= i < j < |order| :: order[i] != order[j]
  }

  /** Live are those of `h` that have not had their turn. */
  lemma {:induction false} LiveLeft(h: Heap, order: seq<Block>, k: nat)
    requires Tiles(h.blocks, 0, ARENA) && Settled(h.blocks) && k <= |order| && NoRepeats(order)
    requires forall b | b in order :: b in Live(h.blocks)
    ensures var r := Run(h, Frees(order[..k])).blocks;
            && Tiles(r, 0, ARENA) && Settled(r)
            && forall b :: b in Live(r) <==> b in Live(h.blocks) && b !in order[..k]
  {
    hide Free, Tiles, Live, Settled, Without;
    if k == 0 {
    } else {
      LiveLeft(h, order, k - 1);
      var was, b := Run(h, Frees(order[..k - 1])).blocks, order[k - 1];
      assert Frees(order[..k])[..k - 1] == Frees(order[..k - 1]);
      assert b !in order[..k - 1];
      FreeGivesUp(was, b);
      FreeTiles(was, b.off + HEADER);
      FreeSettled(was, b.off + HEADER);
      assert order[..k] == order[..k - 1] + [b];
    }
  }

  lemma SomeMember(live: seq<Block>)
    ensures live == [] || exists b :: b in live
  {
    if live != [] { assert live[0] in live; }
  }

  /** After any run, freeing every live payload once, in any order, leaves the heap as it was at the start. */
  lemma FreeingAll(requests: seq<Request>, order: seq<Block>)
    requires ProperRun(requests) && NoRepeats(order)
    requires forall b :: b in order <==> b in Live(After(requests, |requests|).blocks)
    ensures Run(After(requests, |requests|), Frees(order)).blocks == Initial()
  {
    hide Tiles, Live, Run, ProperRun, After;
    var h := After(requests, |requests|);
    SettledAfter(requests, |requests|);
    LiveLeft(h, order, |order|);
    assert order[..|order|] == order;
    var r := Run(h, Frees(order)).blocks;
    SomeMember(Live(r));
  }
}
