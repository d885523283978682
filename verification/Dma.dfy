/**
  The contiguous DMA allocator (drivers/dma/dma.c): it asks for frames one at a
  time, insists that they are consecutive and low, and gives everything back otherwise.
 */
module Dma {
  import opened Numbers
  import opened Pmm

  const DMA_MAX_PAGE: nat := 0x400000 / PAGE_SIZE

  /** `(length + 4095) / 4096` in 32-bit arithmetic. */
  function PagesFor(length: nat): nat {
    ((length + PAGE_SIZE - 1) % WORD) / PAGE_SIZE
  }

  /** The pages cover the length exactly when the sum does not wrap; above that a request is granted no page. */
  lemma PagesCoverIff(length: nat)
    requires length < WORD
    ensures PagesFor(length) * PAGE_SIZE >= length <==> length <= 0xffff_f000
    ensures length > 0xffff_f000 ==> PagesFor(length) == 0
  {
  }

  /** All of `lo..hi` is clear, allocatable and below the DMA limit. */
  ghost predicate ClearRun(f: Frames, lo: nat, hi: nat) {
    && lo <= hi && |f.taken| == |f.refs| == MAX_PHYS_PAGES && f.total <= MAX_PHYS_PAGES
    && (lo < hi ==> 0 < lo && hi <= f.total && hi <= DMA_MAX_PAGE)
    && forall p | lo <= p < hi :: !f.taken[p]
  }

  /** `f` with the run `lo..hi` handed out, one reference each. */
  ghost function ClaimRun(f: Frames, lo: nat, hi: nat): Frames
    requires ClearRun(f, lo, hi)
  {
    Frames(seq(MAX_PHYS_PAGES, p requires 0 <= p < MAX_PHYS_PAGES => lo <= p < hi || f.taken[p]),
           seq(MAX_PHYS_PAGES, p requires 0 <= p < MAX_PHYS_PAGES => if lo <= p < hi then 1 else f.refs[p]),
           f.total, f.used + (hi - lo))
  }

  /** The `i`-th page of a buffer, in 32-bit address arithmetic. */
  function PageAt(first: nat, i: nat): nat {
    (first + i) % 0x100000
  }

  /** It is the frame of the address `i` pages after `first`, computed in 32 bits. */
  lemma PageAtAddress(first: nat, i: nat)
    ensures PageAt(first, i) * PAGE_SIZE == (first * PAGE_SIZE + i * PAGE_SIZE) % WORD
  {
    var n := first + i;
    assert n * PAGE_SIZE == n % 0x100000 * PAGE_SIZE + n / 0x100000 * WORD;
  }

  ghost function FreeRun(f: Frames, first: nat, pages: nat): (r: Frames)
    requires WellFormed(f)
    ensures WellFormed(r)
  {
    if pages == 0 then f else Free(FreeRun(f, first, pages - 1), PageAt(first, pages - 1))
  }

  /** Success is decided by the lowest clear frame alone: the run must start there. */
  ghost predicate Granted(f: Frames, pages: nat) {
    WellFormed(f) && (pages > 0 ==> Alloc(f).1 > 0 && ClearRun(f, Alloc(f).1, Alloc(f).1 + pages))
  }

  lemma ClaimRunGrows(f: Frames, lo: nat, hi: nat)
    requires ClearRun(f, lo, hi + 1) && lo <= hi
    ensures ClearRun(f, lo, hi)
    ensures Claim(ClaimRun(f, lo, hi), hi) == ClaimRun(f, lo, hi + 1)
  {
    var c := Claim(ClaimRun(f, lo, hi), hi);
    assert c.taken == ClaimRun(f, lo, hi + 1).taken;
    assert c.refs == ClaimRun(f, lo, hi + 1).refs;
  }

  lemma ClaimRunShrinks(f: Frames, lo: nat, hi: nat)
    requires Balanced(f) && ClearRun(f, lo, hi) && lo < hi
    ensures ClearRun(f, lo + 1, hi)
    ensures Free(ClaimRun(f, lo, hi), lo) == ClaimRun(f, lo + 1, hi)
  {
    var c := Free(ClaimRun(f, lo, hi), lo);
    assert c.taken == ClaimRun(f, lo + 1, hi).taken;
    assert c.refs == ClaimRun(f, lo + 1, hi).refs;
  }

  lemma ClaimRunEmpty(f: Frames, lo: nat)
    requires WellFormed(f)
    ensures ClearRun(f, lo, lo) && ClaimRun(f, lo, lo) == f
  {
    assert ClaimRun(f, lo, lo).taken == f.taken;
    assert ClaimRun(f, lo, lo).refs == f.refs;
  }

  lemma {:induction false} ClaimRunBalanced(f: Frames, lo: nat, hi: nat)
    requires Balanced(f) && ClearRun(f, lo, hi)
    ensures Balanced(ClaimRun(f, lo, hi)) && Reserved(ClaimRun(f, lo, hi)) == Reserved(f)
    decreases hi - lo
  {
    if lo == hi {
      ClaimRunEmpty(f, lo);
    } else {
      assert ClearRun(f, lo, hi - 1);
      ClaimRunBalanced(f, lo, hi - 1);
      ClaimRunGrows(f, lo, hi - 1);
      ClaimBalanced(ClaimRun(f, lo, hi - 1), hi - 1);
    }
  }

  lemma {:induction false} FreeRunPrefix(f: Frames, lo: nat, hi: nat, n: nat)
    requires Balanced(f) && ClearRun(f, lo, hi) && lo + n <= hi
    ensures ClearRun(f, lo + n, hi)
    ensures FreeRun(ClaimRun(f, lo, hi), lo, n) == ClaimRun(f, lo + n, hi)
  {
    hide Free;
    if n == 0 {
    } else {
      FreeRunPrefix(f, lo, hi, n - 1);
      ClaimRunShrinks(f, lo + n - 1, hi);
    }
  }

  /** Freeing a granted run restores bitmap, counts and counters exactly. */
  lemma FreeUndoesGrant(f: Frames, lo: nat, pages: nat)
    requires Balanced(f) && ClearRun(f, lo, lo + pages)
    ensures FreeRun(ClaimRun(f, lo, lo + pages), lo, pages) == f
  {
    FreeRunPrefix(f, lo, lo + pages, pages);
    ClaimRunEmpty(f, lo + pages);
  }

  /** The next allocation after a claimed run continues it exactly when its next frame is free. */
  lemma NextAfterRun(f: Frames, lo: nat, hi: nat)
    requires WellFormed(f) && lo == Alloc(f).1 != 0 && lo < hi && ClearRun(f, lo, hi)
    ensures var p := Alloc(ClaimRun(f, lo, hi)).1;
            (p == hi <==> hi < f.total && !f.taken[hi]) && (p == 0 || p >= hi)
  {
    var g := ClaimRun(f, lo, hi);
    var p := Alloc(g).1;
    assert forall q | 0 < q < hi :: g.taken[q];
    if hi < f.total { assert g.taken[hi] == f.taken[hi]; }
  }

  /** What `dma_alloc` does with the frame `p` it gets after holding `first..first+i`. */
  predicate Rejects(p: nat, first: nat, i: nat) {
    p == 0 || p >= DMA_MAX_PAGE || (i > 0 && p != first + i)
  }

  /** The state the allocation loop is in after `i` accepted frames. */
  ghost predicate Holding(f: Frames, g: Frames, first: nat, i: nat) {
    && Balanced(f)
    && (if i == 0 then first == 0 else first == Alloc(f).1 != 0)
    && ClearRun(f, first, first + i) && g == ClaimRun(f, first, first + i)
  }

  lemma RejectedRun(f: Frames, g: Frames, first: nat, i: nat, pages: nat)
    requires Holding(f, g, first, i) && WellFormed(g) && Rejects(Alloc(g).1, first, i) && i < pages
    ensures !Granted(f, pages)
  {
    if i == 0 {
      ClaimRunEmpty(f, first);
    } else {
      NextAfterRun(f, first, first + i);
    }
  }

  lemma AcceptedRun(f: Frames, g: Frames, first: nat, i: nat)
    requires Holding(f, g, first, i) && WellFormed(g) && !Rejects(Alloc(g).1, first, i)
    ensures Holding(f, Alloc(g).0, if i == 0 then Alloc(g).1 else first, i + 1)
  {
    if i == 0 {
      ClaimRunEmpty(f, first);
      ClaimRunEmpty(f, Alloc(f).1);
      ClaimRunGrows(f, Alloc(f).1, Alloc(f).1);
    } else {
      NextAfterRun(f, first, first + i);
      ClaimRunGrows(f, first, first + i);
    }
  }

  /** The allocation loop of `dma_alloc`: the whole run, or the allocator exactly as found. */
  method TakeRun(pmm: PageAllocator, pages: nat) returns (ok: bool, first: nat)
    requires pmm.Valid() && Balanced(pmm.frames)
    modifies pmm, pmm.bitmap, pmm.refs
    ensures pmm.Valid() && pmm.bitmap == old(pmm.bitmap) && pmm.refs == old(pmm.refs)
    ensures ok <==> Granted(old(pmm.frames), pages)
    ensures ok ==> Holding(old(pmm.frames), pmm.frames, first, pages)
    ensures !ok ==> pmm.frames == old(pmm.frames)
  {
    hide Balanced, ClaimRun;
    ghost var was := pmm.frames;
    first := 0;
    var i := 0;
    ClaimRunEmpty(was, 0);
    while i < pages
      invariant i <= pages && pmm.Valid()
      invariant pmm.bitmap == old(pmm.bitmap) && pmm.refs == old(pmm.refs)
      invariant Holding(was, pmm.frames, first, i)
    {
      ghost var g := pmm.frames;
      ClaimRunBalanced(was, first, first + i);
      var p := pmm.AllocPage();
      if Rejects(p, first, i) {
        RejectedRun(was, g, first, i, pages);
        if p != 0 {
          FreeUndoesAlloc(g);
          pmm.FreePage(p);
        }
        GiveBack(pmm, first, i, was);
        return false, 0;
      }
      AcceptedRun(was, g, first, i);
      if i == 0 { first := p; }
      i := i + 1;
    }
    ok := true;
  }

  /** The rollback loop of `dma_alloc`. */
  method GiveBack(pmm: PageAllocator, first: nat, n: nat, ghost was: Frames)
    requires pmm.Valid() && Balanced(was)
    requires ClearRun(was, first, first + n) && pmm.frames == ClaimRun(was, first, first + n)
    modifies pmm, pmm.bitmap, pmm.refs
    ensures pmm.Valid() && pmm.frames == was
    ensures pmm.bitmap == old(pmm.bitmap) && pmm.refs == old(pmm.refs)
  {
    for j := 0 to n
      invariant pmm.Valid() && pmm.bitmap == old(pmm.bitmap) && pmm.refs == old(pmm.refs)
      invariant ClearRun(was, first + j, first + n) && pmm.frames == ClaimRun(was, first + j, first + n)
    {
      ClaimRunShrinks(was, first + j, first + n);
      pmm.FreePage(first + j);
    }
    ClaimRunEmpty(was, first + n);
  }

  /** The caller's buffer record; addresses are kept as page numbers (0: none). */
  class Buffer {
    var page: nat
    var length: nat
    var pages: nat

    /** `dma_alloc`. */
    method Acquire(pmm: PageAllocator, initialized: bool, length: nat) returns (ok: bool)
      requires pmm.Valid() && Balanced(pmm.frames) && length < WORD
      modifies this, pmm, pmm.bitmap, pmm.refs
      ensures pmm.Valid() && pmm.bitmap == old(pmm.bitmap) && pmm.refs == old(pmm.refs) && Balanced(pmm.frames)
      ensures ok <==> initialized && length != 0 && Granted(old(pmm.frames), PagesFor(length))
      ensures !ok ==> pmm.frames == old(pmm.frames) && unchanged(this)
      ensures ok ==> this.length == length && pages == PagesFor(length)
      ensures ok ==> Holding(old(pmm.frames), pmm.frames, page, pages)
    {
      if !initialized || length == 0 { return false; }
      var first;
      ok, first := TakeRun(pmm, PagesFor(length));
      if ok {
        ClaimRunBalanced(old(pmm.frames), first, first + PagesFor(length));
        this.page, this.length, this.pages := first, length, PagesFor(length);
      }
    }

    /** `dma_free`. */
    method Release(pmm: PageAllocator)
      requires pmm.Valid()
      modifies this, pmm, pmm.bitmap, pmm.refs
      ensures pmm.Valid() && pmm.bitmap == old(pmm.bitmap) && pmm.refs == old(pmm.refs)
      ensures old(page) == 0 || old(pages) == 0 ==> pmm.frames == old(pmm.frames) && unchanged(this)
      ensures old(page) != 0 && old(pages) != 0 ==>
                pmm.frames == FreeRun(old(pmm.frames), old(page), old(pages)) && page == length == pages == 0
    {
      if page == 0 || pages == 0 { return; }
      for i := 0 to pages
        invariant pmm.Valid() && pmm.bitmap == old(pmm.bitmap) && pmm.refs == old(pmm.refs) && unchanged(this)
        invariant pmm.frames == FreeRun(old(pmm.frames), page, i)
      {
        pmm.FreePage(PageAt(page, i));
      }
      page, length, pages := 0, 0, 0;
    }
  }

  /** `dma_free` undoes `dma_alloc`: the allocator is exactly as found, and so is an empty record. */
  method AllocateAndFree(b: Buffer, pmm: PageAllocator, initialized: bool, length: nat) returns (ok: bool)
    requires pmm.Valid() && Balanced(pmm.frames) && length < WORD
    modifies b, pmm, pmm.bitmap, pmm.refs
    ensures pmm.Valid() && pmm.frames == old(pmm.frames)
    ensures !ok ==> unchanged(b)
    ensures ok && PagesFor(length) > 0 ==> b.page == b.length == b.pages == 0
  {
    hide FreeRun, ClaimRun, Balanced;
    ok := b.Acquire(pmm, initialized, length);
    if ok {
      FreeUndoesGrant(old(pmm.frames), b.page, b.pages);
      if b.pages == 0 { ClaimRunEmpty(old(pmm.frames), b.page); }
      b.Release(pmm);
    }
  }
}
