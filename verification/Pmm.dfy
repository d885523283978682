/** Physical frames (mm/pmm.c). */
module Pmm {
  import opened Numbers

  // A bitmap of frames, a 16-bit reference count per frame, and the counters `total` and `used`.
  // `Frames` is the value the allocator stands for; `Alloc`, `Retain` and `Free` are its
  // transitions.  `PageAllocator` is the allocator itself, over packed bytes.

  const PAGE_SIZE: nat := 4096
  const MAX_PHYS_PAGES: nat := 65536
  const BITMAP_BYTES: nat := MAX_PHYS_PAGES / 8
  const REF_LIMIT: nat := 0xffff
  const MMAP_AVAILABLE: nat := 1

  datatype Frames = Frames(taken: seq<bool>, refs: seq<nat>, total: nat, used: nat)

  ghost predicate WellFormed(f: Frames) {
    && |f.taken| == |f.refs| == MAX_PHYS_PAGES
    && f.total <= MAX_PHYS_PAGES
    && forall p | 0 <= p < MAX_PHYS_PAGES :: f.refs[p] <= REF_LIMIT
  }

  predicate InRange(f: Frames, p: nat) {
    0 < p < f.total
  }

  /** The frames whose bitmap bit is clear. */
  ghost function Clear(taken: seq<bool>): set<nat> {
    set p | 0 <= p < |taken| && !taken[p]
  }

  /** The frames somebody holds a counted reference to. */
  ghost function Owned(refs: seq<nat>): set<nat> {
    set p | 0 <= p < |refs| && refs[p] > 0
  }

  /** Frames marked taken that nobody owns: memory holes and the kernel image. */
  ghost function Reserved(f: Frames): set<nat>
    requires |f.taken| == |f.refs|
  {
    set p | 0 <= p < |f.taken| && f.taken[p] && f.refs[p] == 0
  }

  /** `pmm_free_pages`, the number the kernel reports, is the number of clear bits. */
  ghost predicate CountsMatch(f: Frames) {
    f.used <= f.total && f.total - f.used == |Clear(f.taken)|
  }

  ghost predicate Balanced(f: Frames) {
    && WellFormed(f)
    && CountsMatch(f)
    && |Owned(f.refs)| <= f.used
    && (forall p | 0 <= p < MAX_PHYS_PAGES && f.refs[p] > 0 :: f.taken[p] && InRange(f, p))
  }

  /** First clear frame in `from..total`, or 0 when there is none. */
  function LowestClear(f: Frames, from: nat): (r: nat)
    requires WellFormed(f) && 1 <= from
    ensures r == 0 ==> forall p | from <= p < f.total :: f.taken[p]
    ensures r != 0 ==> from <= r < f.total && !f.taken[r] && forall p | from <= p < r :: f.taken[p]
    decreases f.total - from
  {
    if from >= f.total then 0
    else if !f.taken[from] then from
    else LowestClear(f, from + 1)
  }

  function Claim(f: Frames, p: nat): (r: Frames)
    requires p < |f.taken| && p < |f.refs|
  {
    f.(taken := f.taken[p := true], refs := f.refs[p := 1], used := f.used + 1)
  }

  /** The frame `pmm_alloc_page` hands out (0: none) and the allocator afterwards. */
  function Alloc(f: Frames): (r: (Frames, nat))
    requires WellFormed(f)
    ensures r.1 == 0 ==> r.0 == f && forall p | 0 < p < f.total :: f.taken[p]
    ensures r.1 != 0 ==> InRange(f, r.1) && !f.taken[r.1] && forall p | 0 < p < r.1 :: f.taken[p]
  {
    var p := LowestClear(f, 1);
    if p == 0 then (f, 0) else (Claim(f, p), p)
  }

  function Retain(f: Frames, p: nat): (r: Frames)
    requires WellFormed(f)
  {
    if InRange(f, p) && f.taken[p] && f.refs[p] != REF_LIMIT then f.(refs := f.refs[p := f.refs[p] + 1]) else f
  }

  function Free(f: Frames, p: nat): (r: Frames)
    requires WellFormed(f)
  {
    if !InRange(f, p) || !f.taken[p] then f
    else if f.refs[p] > 1 then f.(refs := f.refs[p := f.refs[p] - 1])
    else f.(taken := f.taken[p := false], refs := f.refs[p := 0], used := if f.used > 0 then f.used - 1 else 0)
  }

  lemma ClearAfterSet(taken: seq<bool>, p: nat)
    requires p < |taken| && !taken[p]
    ensures |Clear(taken[p := true])| + 1 == |Clear(taken)|
  {
    assert Clear(taken) == Clear(taken[p := true]) + {p};
  }

  lemma ClearAfterClear(taken: seq<bool>, p: nat)
    requires p < |taken| && taken[p]
    ensures |Clear(taken[p := false])| == |Clear(taken)| + 1
  {
    assert Clear(taken[p := false]) == Clear(taken) + {p};
  }

  lemma OwnedAfterGain(refs: seq<nat>, p: nat, n: nat)
    requires p < |refs| && refs[p] == 0 && n > 0
    ensures |Owned(refs[p := n])| == |Owned(refs)| + 1
  {
    assert Owned(refs[p := n]) == Owned(refs) + {p};
  }

  lemma OwnedAfterLoss(refs: seq<nat>, p: nat)
    requires p < |refs| && refs[p] > 0
    ensures |Owned(refs[p := 0])| + 1 == |Owned(refs)|
  {
    assert Owned(refs) == Owned(refs[p := 0]) + {p};
  }

  /** Clear frames are never counted, so allocation always starts a frame at one reference. */
  lemma ClearIsUnowned(f: Frames, p: nat)
    requires Balanced(f) && p < MAX_PHYS_PAGES && !f.taken[p]
    ensures f.refs[p] == 0
  {
  }

  /** Taking the clear frame `p` keeps the books. */
  lemma ClaimBalanced(f: Frames, p: nat)
    requires Balanced(f) && InRange(f, p) && !f.taken[p]
    ensures Balanced(Claim(f, p))
    ensures Reserved(Claim(f, p)) == Reserved(f)
  {
    ClearAfterSet(f.taken, p);
    OwnedAfterGain(f.refs, p, 1);
  }

  lemma RetainBalanced(f: Frames, p: nat)
    requires Balanced(f) && p < MAX_PHYS_PAGES && f.refs[p] > 0
    ensures Balanced(Retain(f, p))
    ensures Reserved(Retain(f, p)) == Reserved(f)
  {
    var r := Retain(f, p);
    assert Owned(r.refs) == Owned(f.refs);
  }

  /** Freeing an owned frame keeps the books, and the zero guard on `used` never swallows a decrement. */
  lemma FreeBalanced(f: Frames, p: nat)
    requires Balanced(f) && p < MAX_PHYS_PAGES && f.refs[p] > 0
    ensures Balanced(Free(f, p))
    ensures Reserved(Free(f, p)) == Reserved(f)
    ensures f.refs[p] == 1 ==> f.used > 0 && Free(f, p).used == f.used - 1
  {
    var r := Free(f, p);
    assert p in Owned(f.refs);
    if f.refs[p] > 1 {
      assert Owned(r.refs) == Owned(f.refs);
    } else {
      ClearAfterClear(f.taken, p);
      OwnedAfterLoss(f.refs, p);
    }
  }

  /**
    For an arbitrary address the reported free count survives `pmm_free_page`
    exactly when the zero guard does not swallow the decrement.
   */
  lemma FreeKeepsCountIff(f: Frames, p: nat)
    requires WellFormed(f) && CountsMatch(f)
    ensures CountsMatch(Free(f, p)) <==> !(InRange(f, p) && f.taken[p] && f.refs[p] <= 1 && f.used == 0)
  {
    if InRange(f, p) && f.taken[p] && f.refs[p] <= 1 {
      ClearAfterClear(f.taken, p);
    }
  }

  /** Freeing what was just allocated restores the allocator exactly. */
  lemma FreeUndoesAlloc(f: Frames)
    requires Balanced(f) && Alloc(f).1 != 0
    ensures Free(Alloc(f).0, Alloc(f).1) == f
  {
    var (g, p) := Alloc(f);
    ClearIsUnowned(f, p);
    var h := Free(g, p);
    assert h.taken == f.taken;
    assert h.refs == f.refs;
  }

  // ---------------------------------------------------------------- runs

  datatype Event = EvAlloc | EvRetain(p: nat) | EvFree(p: nat)

  function Next(f: Frames, e: Event): (r: Frames)
    requires WellFormed(f)
  {
    match e
    case EvAlloc => Alloc(f).0
    case EvRetain(p) => Retain(f, p)
    case EvFree(p) => Free(f, p)
  }

  /** Every retain and every free names a frame its caller holds. */
  ghost predicate Honest(f: Frames, events: seq<Event>)
    decreases |events|
  {
    events != [] ==>
    && WellFormed(f)
    && (match events[0]
        case EvAlloc => true
        case EvRetain(p) => p < MAX_PHYS_PAGES && f.refs[p] > 0
        case EvFree(p) => p < MAX_PHYS_PAGES && f.refs[p] > 0)
    && Honest(Next(f, events[0]), events[1..])
  }

  ghost function Run(f: Frames, events: seq<Event>): Frames
    requires Honest(f, events)
    decreases |events|
  {
    if events == [] then f else Run(Next(f, events[0]), events[1..])
  }

  lemma NextBalanced(f: Frames, events: seq<Event>)
    requires Balanced(f) && Honest(f, events) && events != []
    ensures var r := Next(f, events[0]); Balanced(r) && Reserved(r) == Reserved(f) && r.total == f.total
  {
    match events[0]
    case EvAlloc => if Alloc(f).1 != 0 { ClaimBalanced(f, Alloc(f).1); }
    case EvRetain(p) => RetainBalanced(f, p);
    case EvFree(p) => FreeBalanced(f, p);
  }

  lemma {:induction false} RunBalanced(f: Frames, events: seq<Event>)
    requires Balanced(f) && Honest(f, events)
    ensures Balanced(Run(f, events))
    ensures Reserved(Run(f, events)) == Reserved(f)
    ensures Run(f, events).total == f.total
    decreases |events|
  {
    if events == [] {
    } else {
      NextBalanced(f, events);
      RunBalanced(Next(f, events[0]), events[1..]);
    }
  }

  // ---------------------------------------------------------------- frames that cannot be reached

  /** The frames that the allocator can still hand out. */
  ghost function Available(f: Frames): set<nat>
    requires WellFormed(f)
  {
    set p: nat | 0 < p < f.total && !f.taken[p]
  }

  /**
    `total` counts the frames present, and the search ends there as if they were the first ones.  The
    number reported free can be had exactly when no clear frame lies at 0 or beyond that end.
   */
  lemma ReportedIff(f: Frames)
    requires Balanced(f)
    ensures f.total - f.used == |Available(f)| <==> forall p | 0 <= p < MAX_PHYS_PAGES && !f.taken[p] :: InRange(f, p)
  {
    var clear, out := Clear(f.taken), Clear(f.taken) - Available(f);
    assert clear == Available(f) + out;
    assert |clear| == |Available(f)| + |out|;
    assert forall p: nat :: p in out <==> p in clear && !InRange(f, p);
    if p :| 0 <= p < MAX_PHYS_PAGES && !f.taken[p] && !InRange(f, p) {
      assert p in clear;
      assert p in out;
    } else {
      assert out == {};
    }
  }

  /** Over every run, a frame at 0 or beyond that end is never handed out. */
  lemma {:induction false} NeverReached(f: Frames, events: seq<Event>, p: nat)
    requires Balanced(f) && Honest(f, events) && p < MAX_PHYS_PAGES && !InRange(f, p)
    ensures var r := Run(f, events); WellFormed(r) && r.taken[p] == f.taken[p]
    decreases |events|
  {
    if events == [] {
    } else {
      NextBalanced(f, events);
      NeverReached(Next(f, events[0]), events[1..], p);
    }
  }

  // ---------------------------------------------------------------- boot memory map

  /** One multiboot memory-map entry: 64-bit base and length, 32-bit kind. */
  datatype Region = Region(addr: nat, length: nat, kind: nat)

  function FirstPage(r: Region): nat {
    (r.addr / PAGE_SIZE) % WORD
  }

  /** One past the last page, computed in 32 bits as the source does. */
  function PageBound(r: Region): nat {
    (FirstPage(r) + (r.length / PAGE_SIZE) % WORD) % WORD
  }

  ghost predicate Covers(r: Region, p: nat) {
    r.kind == MMAP_AVAILABLE && FirstPage(r) <= p < PageBound(r)
  }

  ghost predicate Listed(regions: seq<Region>, p: nat) {
    exists i | 0 <= i < |regions| :: Covers(regions[i], p)
  }

  ghost function ListedFrames(regions: seq<Region>): set<nat> {
    set p | 0 <= p < MAX_PHYS_PAGES && Listed(regions, p)
  }

  ghost predicate NoneListed(regions: seq<Region>) {
    forall p | 0 <= p < MAX_PHYS_PAGES :: !Listed(regions, p)
  }

  function KernelPages(kernelEnd: nat): nat {
    var pages := ((kernelEnd + PAGE_SIZE - 1) % WORD) / PAGE_SIZE;
    if pages > MAX_PHYS_PAGES then MAX_PHYS_PAGES else pages
  }

  /** The frames that an entry of the memory map lists, below the 2^44 bytes that page numbers reach. */
  lemma CoversIff(r: Region, p: nat)
    requires r.addr + r.length < 0x1000_0000_0000
    ensures Covers(r, p) <==> r.kind == 1 && r.addr / 4096 <= p < r.addr / 4096 + r.length / 4096
  {
  }

  /** They lie inside the memory described exactly when that starts on a page boundary, or is less than a page. */
  lemma CoversInsideIff(r: Region)
    requires r.kind == MMAP_AVAILABLE && r.addr + r.length < 0x1000_0000_0000
    ensures (forall p: nat :: Covers(r, p) ==> Inside(r, p)) <==> r.addr % PAGE_SIZE == 0 || r.length < PAGE_SIZE
  {
    if r.addr % PAGE_SIZE == 0 || r.length < PAGE_SIZE {
      forall p: nat ensures Covers(r, p) ==> Inside(r, p) { CoversIff(r, p); }
    } else {
      CoversIff(r, r.addr / PAGE_SIZE);
      assert !Inside(r, r.addr / PAGE_SIZE);
    }
  }

  predicate Inside(r: Region, p: nat) {
    r.addr <= p * PAGE_SIZE && (p + 1) * PAGE_SIZE <= r.addr + r.length
  }

  /** The frames reserved for the kernel are those that start below its end. */
  lemma KernelPagesIff(kernelEnd: nat, p: nat)
    requires kernelEnd <= 0xffff_f000 && p < MAX_PHYS_PAGES
    ensures p < KernelPages(kernelEnd) <==> p * 4096 < kernelEnd
  {
  }

  lemma {:induction false} ClearBounded(taken: seq<bool>)
    ensures |Clear(taken)| <= |taken|
  {
    if |taken| == 0 {
    } else {
      var last := |taken| - 1;
      ClearBounded(taken[..last]);
      assert Clear(taken) <= Clear(taken[..last]) + {last};
      SubsetCard(Clear(taken), Clear(taken[..last]) + {last});
    }
  }

  // ---------------------------------------------------------------- packed bitmap

  /** The byte `1 << k`. */
  function Mask(k: nat): bv8
    requires k < 8
  {
    if k == 0 then 0x01 else if k == 1 then 0x02 else if k == 2 then 0x04 else if k == 3 then 0x08
    else if k == 4 then 0x10 else if k == 5 then 0x20 else if k == 6 then 0x40 else 0x80
  }

  lemma MaskIs(k: nat)
    requires k < 8
    ensures Mask(k) == 1 << k
  {
    var one: bv8 := 1;
    assert one << 0 == 0x01 && one << 1 == 0x02 && one << 2 == 0x04 && one << 3 == 0x08;
    assert one << 4 == 0x10 && one << 5 == 0x20 && one << 6 == 0x40 && one << 7 == 0x80;
  }

  predicate TestBit(b: bv8, k: nat)
    requires k < 8
  {
    b & Mask(k) != 0
  }

  function SetBit(b: bv8, k: nat): (r: bv8)
    requires k < 8
  {
    b | Mask(k)
  }

  function ClearBit(b: bv8, k: nat): (r: bv8)
    requires k < 8
  {
    b & !Mask(k)
  }

  lemma SetBitAt(b: bv8, k: nat, j: nat)
    requires k < 8 && j < 8
    ensures TestBit(SetBit(b, k), j) == (j == k || TestBit(b, j))
  {
  }

  lemma ClearBitAt(b: bv8, k: nat, j: nat)
    requires k < 8 && j < 8
    ensures TestBit(ClearBit(b, k), j) == (j != k && TestBit(b, j))
  {
  }

  /** Byte `b` of the bitmap holds the bits of frames `8b..8b+8`. */
  ghost predicate Packs(byte: bv8, taken: seq<bool>, b: nat)
    requires |taken| == MAX_PHYS_PAGES && b < BITMAP_BYTES
  {
    forall k: nat | k < 8 :: TestBit(byte, k) == taken[8 * b + k]
  }

  class PageAllocator {
    var bitmap: array<bv8>
    var refs: array<nat>
    var total: nat
    var used: nat
    ghost var frames: Frames

    ghost predicate Valid()
      reads this, bitmap, refs
    {
      && bitmap.Length == BITMAP_BYTES
      && refs.Length == MAX_PHYS_PAGES
      && WellFormed(frames)
      && refs[..] == frames.refs
      && total == frames.total
      && used == frames.used
      && forall b | 0 <= b < BITMAP_BYTES :: Packs(bitmap[b], frames.taken, b)
    }

    method BitSet(p: nat)
      requires Valid() && p < MAX_PHYS_PAGES
      modifies this`frames, bitmap
      ensures Valid()
      ensures frames == old(frames).(taken := old(frames).taken[p := true])
    {
      forall j: nat | j < 8 { SetBitAt(bitmap[p / 8], p % 8, j); }
      bitmap[p / 8] := SetBit(bitmap[p / 8], p % 8);
      frames := frames.(taken := frames.taken[p := true]);
    }

    method BitClear(p: nat)
      requires Valid() && p < MAX_PHYS_PAGES
      modifies this`frames, bitmap
      ensures Valid()
      ensures frames == old(frames).(taken := old(frames).taken[p := false])
    {
      forall j: nat | j < 8 { ClearBitAt(bitmap[p / 8], p % 8, j); }
      bitmap[p / 8] := ClearBit(bitmap[p / 8], p % 8);
      frames := frames.(taken := frames.taken[p := false]);
    }

    method SetRefs(p: nat, n: nat)
      requires Valid() && p < MAX_PHYS_PAGES && n <= REF_LIMIT
      modifies this`frames, refs
      ensures Valid()
      ensures frames == old(frames).(refs := old(frames).refs[p := n])
    {
      refs[p] := n;
      frames := frames.(refs := frames.refs[p := n]);
    }

    /** `pmm_init`: everything taken, then clear what the map lists, then reserve the kernel image. */
    constructor (regions: seq<Region>, kernelEnd: nat)
      ensures Valid() && fresh(bitmap) && fresh(refs)
      ensures Balanced(frames)
      ensures Owned(frames.refs) == {}
      ensures forall p | 0 <= p < MAX_PHYS_PAGES ::
                frames.taken[p] <==> p < KernelPages(kernelEnd) || !(Listed(regions, p) || NoneListed(regions))
      ensures frames.total == if NoneListed(regions) then MAX_PHYS_PAGES else |ListedFrames(regions)|
    {
      bitmap := new bv8[BITMAP_BYTES](_ => 0xff);
      refs := new nat[MAX_PHYS_PAGES](_ => 0);
      total, used := 0, 0;
      frames := Frames(seq(MAX_PHYS_PAGES, _ => true), seq(MAX_PHYS_PAGES, _ => 0), 0, 0);
      new;
      assert Clear(frames.taken) == {};
      AddRegions(regions);
      assert Clear(frames.taken) == ListedFrames(regions);
      if total == 0 {
        assert NoneListed(regions) by {
          forall p | 0 <= p < MAX_PHYS_PAGES ensures !Listed(regions, p) { assert p !in Clear(frames.taken); }
        }
        ClearAll();
      } else {
        ghost var p :| p in Clear(frames.taken);
        assert Listed(regions, p);
      }
      assert forall p | 0 <= p < MAX_PHYS_PAGES :: frames.taken[p] <==> !(Listed(regions, p) || NoneListed(regions));
      ReserveUpTo(KernelPages(kernelEnd));
      assert Owned(frames.refs) == {};
    }

    /** The memory-map loop: each listed page counts once, however many entries cover it. */
    method AddRegions(regions: seq<Region>)
      requires Valid() && total == used == 0
      requires forall p | 0 <= p < MAX_PHYS_PAGES :: frames.taken[p]
      modifies this`frames, this`total, bitmap
      ensures Valid() && frames.refs == old(frames.refs)
      ensures total == |Clear(frames.taken)|
      ensures forall p | 0 <= p < MAX_PHYS_PAGES :: frames.taken[p] <==> !Listed(regions, p)
    {
      assert Clear(frames.taken) == {};
      for i := 0 to |regions|
        invariant Valid() && frames.refs == old(frames.refs)
        invariant total == |Clear(frames.taken)|
        invariant forall p | 0 <= p < MAX_PHYS_PAGES :: frames.taken[p] <==> !Listed(regions[..i], p)
      {
        if regions[i].kind == MMAP_AVAILABLE {
          AddRegion(regions[i]);
        }
        forall p | 0 <= p < MAX_PHYS_PAGES
          ensures Listed(regions[..i + 1], p) <==> Listed(regions[..i], p) || Covers(regions[i], p)
        {
          if Covers(regions[i], p) { assert Covers(regions[..i + 1][i], p); }
          if Listed(regions[..i], p) {
            var j :| 0 <= j < i && Covers(regions[..i][j], p);
            assert Covers(regions[..i + 1][j], p);
          }
          if Listed(regions[..i + 1], p) {
            var j :| 0 <= j < i + 1 && Covers(regions[..i + 1][j], p);
            assert j < i ==> Covers(regions[..i][j], p);
          }
        }
      }
      assert regions[..|regions|] == regions;
    }

    method AddRegion(r: Region)
      requires Valid() && used == 0 && total == |Clear(frames.taken)|
      requires r.kind == MMAP_AVAILABLE
      modifies this`frames, this`total, bitmap
      ensures Valid() && frames.refs == old(frames.refs)
      ensures total == |Clear(frames.taken)|
      ensures forall p | 0 <= p < MAX_PHYS_PAGES :: frames.taken[p] <==> old(frames).taken[p] && !Covers(r, p)
    {
      var first, bound := FirstPage(r), PageBound(r);
      var p := first;
      while p < bound && p < MAX_PHYS_PAGES
        invariant Valid() && frames.refs == old(frames.refs)
        invariant first <= p
        invariant total == |Clear(frames.taken)|
        invariant forall q | 0 <= q < MAX_PHYS_PAGES ::
                    frames.taken[q] <==> old(frames).taken[q] && !(first <= q < p && q < bound)
        decreases bound - p
      {
        if TestBit(bitmap[p / 8], p % 8) {
          ghost var before := frames.taken;
          ClearAfterClear(before, p);
          ClearBounded(before[p := false]);
          BitClear(p);
          if total < MAX_PHYS_PAGES {
            total := total + 1;
            frames := frames.(total := total);
          }
        }
        p := p + 1;
      }
    }

    /** The fallback for an empty memory map: treat every frame as present. */
    method ClearAll()
      requires Valid() && used == 0
      modifies this`frames, this`total, bitmap
      ensures Valid() && frames.refs == old(frames.refs)
      ensures total == |Clear(frames.taken)| == MAX_PHYS_PAGES
      ensures forall p | 0 <= p < MAX_PHYS_PAGES :: !frames.taken[p]
    {
      total := MAX_PHYS_PAGES;
      frames := frames.(total := total);
      var p := 0;
      while p < total
        invariant p <= total == MAX_PHYS_PAGES && Valid() && frames.refs == old(frames.refs)
        invariant forall q | 0 <= q < p :: !frames.taken[q]
      {
        BitClear(p);
        p := p + 1;
      }
      AllClear(frames.taken);
    }

    /** `reserve_range(0, end)`. */
    method ReserveUpTo(end: nat)
      requires Valid() && end <= MAX_PHYS_PAGES && used == 0
      requires CountsMatch(frames)
      modifies this`frames, this`used, bitmap
      ensures Valid() && frames.refs == old(frames.refs) && frames.total == old(frames.total)
      ensures CountsMatch(frames)
      ensures forall p | 0 <= p < MAX_PHYS_PAGES :: frames.taken[p] <==> old(frames).taken[p] || p < end
    {
      for p := 0 to end
        invariant Valid() && frames.refs == old(frames.refs) && frames.total == old(frames.total)
        invariant CountsMatch(frames)
        invariant forall q | 0 <= q < MAX_PHYS_PAGES :: frames.taken[q] <==> old(frames).taken[q] || q < p
      {
        if !TestBit(bitmap[p / 8], p % 8) {
          ClearAfterSet(frames.taken, p);
          BitSet(p);
          used := used + 1;
          frames := frames.(used := used);
        }
      }
    }

    method AllocPage() returns (page: nat)
      requires Valid()
      modifies this, bitmap, refs
      ensures Valid() && bitmap == old(bitmap) && refs == old(refs)
      ensures (frames, page) == Alloc(old(frames))
    {
      page := 0;
      var p := 1;
      while p < total
        invariant 1 <= p && LowestClear(frames, p) == LowestClear(frames, 1)
      {
        if !TestBit(bitmap[p / 8], p % 8) {
          BitSet(p);
          SetRefs(p, 1);
          used := used + 1;
          frames := frames.(used := used);
          page := p;
          return;
        }
        p := p + 1;
      }
    }

    method RetainPage(p: nat)
      requires Valid()
      modifies this, refs
      ensures Valid() && bitmap == old(bitmap) && refs == old(refs)
      ensures frames == Retain(old(frames), p)
    {
      if p > 0 && p < total && TestBit(bitmap[p / 8], p % 8) && refs[p] != REF_LIMIT {
        SetRefs(p, refs[p] + 1);
      }
    }

    method FreePage(p: nat)
      requires Valid()
      modifies this, bitmap, refs
      ensures Valid() && bitmap == old(bitmap) && refs == old(refs)
      ensures frames == Free(old(frames), p)
    {
      if p > 0 && p < total && TestBit(bitmap[p / 8], p % 8) {
        if refs[p] > 1 {
          SetRefs(p, refs[p] - 1);
        } else {
          SetRefs(p, 0);
          BitClear(p);
          if used > 0 {
            used := used - 1;
            frames := frames.(used := used);
          }
        }
      }
    }
  }

  lemma {:induction false} AllClear(taken: seq<bool>)
    requires forall p | 0 <= p < |taken| :: !taken[p]
    ensures |Clear(taken)| == |taken|
  {
    if |taken| == 0 {
    } else {
      var last := |taken| - 1;
      AllClear(taken[..last]);
      assert Clear(taken) == Clear(taken[..last]) + {last};
    }
  }
}
