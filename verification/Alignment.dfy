/**
  Eight-byte alignment of the kernel heap (mm/heap.c).  Requests are rounded up to eight
  bytes, but `krealloc` splits a block in place at the size it is given.
 */
module Alignment {
  import opened Blocks

  const WIDTH: nat := 8

  /** Every header, and so every payload, starts at a multiple of eight. */
  ghost predicate Aligned(blocks: seq<Block>) {
    forall i | 0 <= i < |blocks| :: blocks[i].off % WIDTH == 0
  }

  lemma SplitAlignedIff(blocks: seq<Block>, i: nat, n: nat)
    requires Aligned(blocks) && i < |blocks|
    ensures Aligned(SplitAt(blocks, i, n)) <==> !Splits(blocks[i], n) || n % WIDTH == 0
  {
    var r := SplitAt(blocks, i, n);
    if Splits(blocks[i], n) {
      assert r[i + 1].off == blocks[i].off + HEADER + n;
      forall j | 0 <= j < |r| && j != i + 1 ensures r[j].off % WIDTH == 0 {
        assert r[j].off == blocks[if j <= i then j else j - 1].off;
      }
    }
  }

  lemma {:induction false} CoalesceAligned(blocks: seq<Block>)
    requires Aligned(blocks)
    ensures Aligned(Coalesce(blocks))
    decreases |blocks|
  {
    if |blocks| < 2 {
    } else if blocks[0].free && blocks[1].free {
      CoalesceAligned([blocks[0].(size := blocks[0].size + HEADER + blocks[1].size)] + blocks[2..]);
    } else {
      CoalesceAligned(blocks[1..]);
    }
  }

  lemma MallocAligned(blocks: seq<Block>, n: nat)
    requires Aligned(blocks)
    ensures Aligned(Malloc(blocks, n).0) && Malloc(blocks, n).1 % WIDTH == 0
  {
    hide SplitAt;
    var i := FirstFit(blocks, RoundUp(n));
    if i < |blocks| {
      SplitAlignedIff(blocks, i, RoundUp(n));
    }
  }

  lemma FreeAligned(blocks: seq<Block>, p: Ptr)
    requires Aligned(blocks)
    ensures Aligned(Free(blocks, p))
  {
    hide Coalesce;
    var i := IndexOf(blocks, p - HEADER);
    if i < |blocks| {
      CoalesceAligned(blocks[i := blocks[i].(free := true)]);
    }
  }

  /** `r` shrinks a live block in place, far enough to split it, to a size that is no multiple of eight. */
  predicate Misplaces(blocks: seq<Block>, r: Request) {
    && r.Krealloc? && r.p != 0 && r.n % WIDTH != 0
    && var i := IndexOf(blocks, r.p - HEADER);
       i < |blocks| && !blocks[i].free && Splits(blocks[i], r.n)
  }

  /** A request loses alignment exactly in that case. */
  lemma ServeAlignedIff(h: Heap, r: Request)
    requires Aligned(h.blocks) && Proper(h.blocks, r)
    ensures Aligned(Serve(h, r).blocks) <==> !Misplaces(h.blocks, r)
  {
    hide SplitAt, Malloc, Free, Aligned;
    match r
    case Kmalloc(n) => MallocAligned(h.blocks, n);
    case Kfree(p) => FreeAligned(h.blocks, p);
    case Krealloc(p, n) =>
      MallocAligned(h.blocks, n);
      FreeAligned(h.blocks, p);
      FreeAligned(Malloc(h.blocks, n).0, p);
      var i := IndexOf(h.blocks, p - HEADER);
      if i < |h.blocks| { SplitAlignedIff(h.blocks, i, n); }
  }

  /** A run without such a request is aligned throughout. */
  lemma {:induction false} RunAligned(requests: seq<Request>, n: nat)
    requires n <= |requests| && ProperRun(requests)
    requires forall k: nat | k < n :: !Misplaces(After(requests, k).blocks, requests[k])
    ensures Aligned(After(requests, n).blocks)
  {
    hide Serve, Misplaces;
    if n == 0 {
    } else {
      RunAligned(requests, n - 1);
      AfterNext(requests, n - 1);
      ServeAlignedIff(After(requests, n - 1), requests[n - 1]);
    }
  }

  /** Over every run: the heap is aligned at every point exactly when no request misplaces a block. */
  lemma RunAlignedIff(requests: seq<Request>)
    requires ProperRun(requests)
    ensures (forall k: nat | k <= |requests| :: Aligned(After(requests, k).blocks)) <==>
            (forall k: nat | k < |requests| :: !Misplaces(After(requests, k).blocks, requests[k]))
  {
    hide Serve, Misplaces, Aligned, After;
    if forall k: nat | k < |requests| :: !Misplaces(After(requests, k).blocks, requests[k]) {
      forall k: nat | k <= |requests| ensures Aligned(After(requests, k).blocks) { RunAligned(requests, k); }
    } else {
      var k: nat :| k < |requests| && Misplaces(After(requests, k).blocks, requests[k]);
      if Aligned(After(requests, k).blocks) {
        AfterNext(requests, k);
        ServeAlignedIff(After(requests, k), requests[k]);
        assert !Aligned(After(requests, k + 1).blocks);
      }
    }
  }

  /** It happens: 64 bytes, shrunk to one in place, leave the next header at an odd offset. */
  lemma OddShrinkMisaligns()
    ensures var requests := [Kmalloc(64), Krealloc(HEADER, 1)];
            ProperRun(requests) && !Aligned(After(requests, 2).blocks)
  {
    hide Malloc, Realloc, Aligned;
    var requests := [Kmalloc(64), Krealloc(HEADER, 1)];
    AfterNext(requests, 0);
    AfterNext(requests, 1);
    FirstGrant();
    AlignedAtFirst();
    MallocAligned(Initial(), 64);
    assert Misplaces(After(requests, 1).blocks, requests[1]);
    ServeAlignedIff(After(requests, 1), requests[1]);
  }

  lemma AlignedAtFirst()
    ensures Aligned(Initial())
  {
  }
}
