/** Copy-on-write memory (mm/vmm.c), as values. */
module Cow {
  import opened Numbers
  import opened Pmm

  // `Machine` is the memory state: frames, page contents and the present user page table
  // entries of every live address space.  Each kernel operation is a function on it.
  // `Inv` is what every operation keeps; `Image` is what user code can read.

  const MAX_SPACES: nat := 32
  const USER_PAGES: nat := 8 * 1024

  type Page = seq<Byte>

  /** A page of an address space: user page `page` is at address `(1024 + page) * 4096`. */
  datatype Slot = Slot(space: nat, page: nat)

  /** A page table entry; `other` stands for the low flag bits the kernel only copies. */
  datatype Pte = Pte(frame: nat, present: bool, write: bool, user: bool, cow: bool, other: nat)

  datatype Flags = Flags(write: bool, cow: bool, other: nat)

  datatype Machine = Machine(
    frames: Frames,
    mem: seq<Page>,
    pt: map<Slot, Pte>,
    refs: map<nat, nat>,
    held: set<nat>)

  function Entry(frame: nat, flags: Flags): Pte {
    Pte(frame, true, flags.write, true, flags.cow, flags.other)
  }

  /** The entry `vmm_clone_address_space_cow` leaves in both spaces. */
  function Shared(e: Pte): Pte {
    e.(write := false, cow := true)
  }

  // ---------------------------------------------------------------- invariant

  /** The page table entries that name frame `p`. */
  ghost function Mappers(pt: map<Slot, Pte>, p: nat): set<Slot> {
    set x | x in pt && pt[x].frame == p
  }

  ghost predicate Typed(m: Machine) {
    && Balanced(m.frames)
    && |m.mem| == MAX_PHYS_PAGES
    && (forall i | i in m.refs :: i < MAX_SPACES && m.refs[i] > 0)
    && TypedTable(m.pt, m.refs.Keys, m.frames.total)
    && (forall p | p in m.held :: InRange(m.frames, p))
  }

  ghost predicate TypedEntry(x: Slot, e: Pte, live: set<nat>, total: nat) {
    x.space in live && x.page < USER_PAGES && e.present && e.user && 0 < e.frame < total
  }

  ghost predicate TypedTable(pt: map<Slot, Pte>, live: set<nat>, total: nat) {
    forall x | x in pt :: TypedEntry(x, pt[x], live, total)
  }

  /** Reference counts are exactly the number of entries, or one for a kernel holder. */
  ghost predicate Exact(refs: seq<nat>, pt: map<Slot, Pte>, held: set<nat>) {
    && (forall p: nat {:trigger Mappers(pt, p)} | p < |refs| ::
          refs[p] == |Mappers(pt, p)| + if p in held then 1 else 0)
    && (forall p | p in held :: Mappers(pt, p) == {})
  }

  /** Two entries on one frame that break the sharing discipline. */
  ghost predicate Clash(pt: map<Slot, Pte>, x: Slot, y: Slot) {
    && x in pt && y in pt && x != y && pt[x].frame == pt[y].frame
    && !(x.space != y.space && !pt[x].write && pt[x].cow && !pt[y].write && pt[y].cow)
  }

  /** Two entries on one frame belong to different spaces and are both read-only and COW. */
  ghost predicate Private(pt: map<Slot, Pte>) {
    forall x, y :: !Clash(pt, x, y)
  }

  ghost predicate Inv(m: Machine) {
    Typed(m) && Exact(m.frames.refs, m.pt, m.held) && Private(m.pt)
  }

  function FrameContents(mem: seq<Page>, p: nat): Page {
    if p < |mem| then mem[p] else []
  }

  /** What user code reads at every mapped page. */
  ghost function Image(m: Machine): map<Slot, Page> {
    map x | x in m.pt :: FrameContents(m.mem, m.pt[x].frame)
  }

  lemma MappersAdd(pt: map<Slot, Pte>, x: Slot, e: Pte, p: nat)
    requires x !in pt
    ensures Mappers(pt[x := e], p) == Mappers(pt, p) + if p == e.frame then {x} else {}
    ensures |Mappers(pt[x := e], p)| == |Mappers(pt, p)| + if p == e.frame then 1 else 0
  {
    assert Mappers(pt[x := e], p) == Mappers(pt, p) + if p == e.frame then {x} else {};
  }

  lemma MappersRemove(pt: map<Slot, Pte>, x: Slot, p: nat)
    requires x in pt
    ensures Mappers(pt - {x}, p) == Mappers(pt, p) - {x}
    ensures |Mappers(pt - {x}, p)| == |Mappers(pt, p)| - if p == pt[x].frame then 1 else 0
  {
    assert Mappers(pt - {x}, p) == Mappers(pt, p) - {x};
    assert x in Mappers(pt, pt[x].frame);
  }

  lemma ExactAdd(refs: seq<nat>, pt: map<Slot, Pte>, held: set<nat>, x: Slot, e: Pte)
    requires Exact(refs, pt, held) && x !in pt && e.frame < |refs| && e.frame !in held
    ensures Exact(refs[e.frame := refs[e.frame] + 1], pt[x := e], held)
  {
    var after := pt[x := e];
    forall p: nat ensures Mappers(after, p) == Mappers(pt, p) + (if p == e.frame then {x} else {})
                          && |Mappers(after, p)| == |Mappers(pt, p)| + if p == e.frame then 1 else 0
    {
      MappersAdd(pt, x, e, p);
    }
  }

  lemma ExactRemove(refs: seq<nat>, pt: map<Slot, Pte>, held: set<nat>, x: Slot)
    requires Exact(refs, pt, held) && x in pt && pt[x].frame < |refs|
    ensures refs[pt[x].frame] > 0 && pt[x].frame !in held
    ensures Exact(refs[pt[x].frame := refs[pt[x].frame] - 1], pt - {x}, held)
  {
    assert x in Mappers(pt, pt[x].frame);
    var after := pt - {x};
    forall p: nat ensures Mappers(after, p) == Mappers(pt, p) - {x}
                          && |Mappers(after, p)| == |Mappers(pt, p)| - if p == pt[x].frame then 1 else 0
    {
      MappersRemove(pt, x, p);
    }
  }

  /** Changing the permissions of an entry changes no count. */
  lemma ExactReflag(refs: seq<nat>, pt: map<Slot, Pte>, held: set<nat>, x: Slot, e: Pte)
    requires Exact(refs, pt, held) && x in pt && e.frame == pt[x].frame
    ensures Exact(refs, pt[x := e], held)
  {
    var after := pt[x := e];
    forall p: nat ensures Mappers(after, p) == Mappers(pt, p) { }
  }

  lemma TypedAdd(pt: map<Slot, Pte>, live: set<nat>, total: nat, x: Slot, e: Pte)
    requires TypedTable(pt, live, total) && TypedEntry(x, e, live, total)
    ensures TypedTable(pt[x := e], live, total)
  {
  }

  lemma PrivateAdd(pt: map<Slot, Pte>, x: Slot, e: Pte)
    requires Private(pt) && forall y | y in pt :: pt[y].frame != e.frame
    ensures Private(pt[x := e])
  {
    var after := pt[x := e];
    forall y, z ensures !Clash(after, y, z) { assert !Clash(pt, y, z); }
  }

  lemma PrivateRemove(pt: map<Slot, Pte>, x: Slot)
    requires Private(pt)
    ensures Private(pt - {x})
  {
    var after := pt - {x};
    forall y, z ensures !Clash(after, y, z) { assert !Clash(pt, y, z); }
  }

  /** A clear frame is named by nobody. */
  lemma ClearUnmapped(m: Machine, p: nat)
    requires Inv(m) && InRange(m.frames, p) && !m.frames.taken[p]
    ensures p !in m.held && m.frames.refs[p] == 0
    ensures forall x | x in m.pt :: m.pt[x].frame != p
  {
    assert |Mappers(m.pt, p)| == 0;
    assert forall x :: x in Mappers(m.pt, p) <==> x in m.pt && m.pt[x].frame == p;
  }

  /** A frame some entry names is owned, and held by no one else. */
  lemma MappedOwned(m: Machine, x: Slot)
    requires Inv(m) && x in m.pt
    ensures var p := m.pt[x].frame; m.frames.refs[p] > 0 && m.frames.taken[p] && p !in m.held
  {
    var p := m.pt[x].frame;
    assert x in Mappers(m.pt, p);
  }

  // ---------------------------------------------------------------- primitive steps

  /** `pmm_alloc_page` then `vmm_map_user`; on a page outside the eight tables the frame is given back. */
  function MapFresh(m: Machine, x: Slot, flags: Flags): (r: Machine)
    requires WellFormed(m.frames)
  {
    var (f, p) := Alloc(m.frames);
    if p == 0 || x.page >= USER_PAGES then m
    else m.(frames := f, pt := m.pt[x := Entry(p, flags)])
  }

  predicate CanMap(m: Machine, x: Slot)
    requires WellFormed(m.frames)
  {
    Alloc(m.frames).1 != 0 && x.page < USER_PAGES
  }

  /** `vmm_unmap_user`. */
  function Unmap(m: Machine, x: Slot): (r: Machine)
    requires WellFormed(m.frames)
  {
    if x in m.pt then m.(frames := Free(m.frames, m.pt[x].frame), pt := m.pt - {x}) else m
  }

  /** One entry of the COW clone: both sides read-only and COW, one more reference. */
  function Share(m: Machine, x: Slot, y: Slot): (r: Machine)
    requires WellFormed(m.frames)
  {
    if x !in m.pt then m
    else
      var e := Shared(m.pt[x]);
      m.(pt := m.pt[x := e][y := e.(user := true)], frames := Retain(m.frames, e.frame))
  }

  /** The COW branch of `vmm_page_fault`, when a frame is available. */
  function Split(m: Machine, x: Slot): (r: Machine)
    requires WellFormed(m.frames) && x in m.pt
  {
    var (f, p) := Alloc(m.frames);
    var from := m.pt[x].frame;
    if p == 0 || p >= |m.mem| then m
    else m.(frames := Free(f, from),
            mem := m.mem[p := FrameContents(m.mem, from)],
            pt := m.pt[x := Pte(p, true, true, true, false, 0)])
  }

  function StorePage(page: Page, offset: nat, b: Byte): Page {
    if offset < |page| then page[offset := b] else page
  }

  function Store(m: Machine, x: Slot, offset: nat, b: Byte): (r: Machine)
    requires x in m.pt && m.pt[x].frame < |m.mem|
  {
    var p := m.pt[x].frame;
    m.(mem := m.mem[p := StorePage(m.mem[p], offset, b)])
  }

  /** `pmm_alloc_page` by the kernel for itself (heap growth, DMA). */
  function Hold(m: Machine): (r: Machine)
    requires WellFormed(m.frames)
  {
    var (f, p) := Alloc(m.frames);
    if p == 0 then m else m.(frames := f, held := m.held + {p})
  }

  /** The kernel gives a frame of its own back. */
  function Drop(m: Machine, p: nat): (r: Machine)
    requires WellFormed(m.frames)
  {
    if p in m.held then m.(frames := Free(m.frames, p), held := m.held - {p}) else m
  }

  // ---------------------------------------------------------------- each step keeps the invariant

  lemma MapFreshKeeps(m: Machine, x: Slot, flags: Flags)
    requires Inv(m) && x.space in m.refs && x !in m.pt && CanMap(m, x)
    ensures var r := MapFresh(m, x, flags); Inv(r) && Reserved(r.frames) == Reserved(m.frames)
  {
    var p := Alloc(m.frames).1;
    ClearUnmapped(m, p);
    ClaimBalanced(m.frames, p);
    ExactAdd(m.frames.refs, m.pt, m.held, x, Entry(p, flags));
    PrivateAdd(m.pt, x, Entry(p, flags));
    TypedAdd(m.pt, m.refs.Keys, m.frames.total, x, Entry(p, flags));
  }

  lemma MapFreshUndone(m: Machine, x: Slot, flags: Flags)
    requires Balanced(m.frames) && x !in m.pt && CanMap(m, x)
    ensures Unmap(MapFresh(m, x, flags), x) == m
  {
    FreeUndoesAlloc(m.frames);
    assert MapFresh(m, x, flags).pt - {x} == m.pt;
  }

  lemma UnmapKeeps(m: Machine, x: Slot)
    requires Inv(m) && x in m.pt
    ensures var r := Unmap(m, x); Inv(r) && Reserved(r.frames) == Reserved(m.frames)
  {
    var p := m.pt[x].frame;
    ExactRemove(m.frames.refs, m.pt, m.held, x);
    FreeBalanced(m.frames, p);
    PrivateRemove(m.pt, x);
  }

  lemma ExactMove(refs: seq<nat>, pt: map<Slot, Pte>, held: set<nat>, x: Slot, e: Pte)
    requires Exact(refs, pt, held) && x in pt && pt[x].frame < |refs|
    requires e.frame < |refs| && e.frame !in held && e.frame != pt[x].frame
    ensures refs[pt[x].frame] > 0
    ensures Exact(refs[e.frame := refs[e.frame] + 1][pt[x].frame := refs[pt[x].frame] - 1], pt[x := e], held)
  {
    var from := pt[x].frame;
    ExactRemove(refs, pt, held, x);
    var less := refs[from := refs[from] - 1];
    ExactAdd(less, pt - {x}, held, x, e);
    assert (pt - {x})[x := e] == pt[x := e];
    assert less[e.frame := less[e.frame] + 1] == refs[e.frame := refs[e.frame] + 1][from := refs[from] - 1];
  }

  lemma FramesMove(f: Frames, p: nat, from: nat)
    requires Balanced(f) && InRange(f, p) && !f.taken[p] && from < MAX_PHYS_PAGES && f.refs[from] > 0
    ensures var g := Free(Claim(f, p), from);
            && Balanced(g) && Reserved(g) == Reserved(f) && g.total == f.total
            && g.refs == f.refs[p := 1][from := f.refs[from] - 1]
  {
    ClaimBalanced(f, p);
    FreeBalanced(Claim(f, p), from);
  }

  lemma SplitKeeps(m: Machine, x: Slot)
    requires Inv(m) && x in m.pt && Alloc(m.frames).1 != 0
    ensures var r := Split(m, x); Inv(r) && Reserved(r.frames) == Reserved(m.frames)
  {
    var p := Alloc(m.frames).1;
    var e := Pte(p, true, true, true, false, 0);
    ClearUnmapped(m, p);
    ExactMove(m.frames.refs, m.pt, m.held, x, e);
    FramesMove(m.frames, p, m.pt[x].frame);
    TypedAdd(m.pt, m.refs.Keys, m.frames.total, x, e);
    PrivateAdd(m.pt, x, e);
  }

  /** Breaking COW changes nothing anybody can read. */
  lemma SplitImage(m: Machine, x: Slot)
    requires Inv(m) && x in m.pt && Alloc(m.frames).1 != 0
    ensures Image(Split(m, x)) == Image(m)
  {
    ClearUnmapped(m, Alloc(m.frames).1);
  }

  lemma PrivateShare(pt: map<Slot, Pte>, x: Slot, y: Slot)
    requires Private(pt) && x in pt && y !in pt
    requires forall z | z in pt && z.space == y.space :: pt[z].frame != pt[x].frame
    ensures Private(pt[x := Shared(pt[x])][y := Shared(pt[x])])
  {
    var e := Shared(pt[x]);
    var after := pt[x := e][y := e];
    forall u, v ensures !Clash(after, u, v) {
      assert !Clash(pt, u, v) && !Clash(pt, u, x) && !Clash(pt, x, v);
    }
  }

  /** No frame can be named more often than there are address spaces. */
  lemma {:induction false} OnePerSpace(s: set<Slot>, n: nat)
    requires forall x | x in s :: x.space < n
    requires forall x, y | x in s && y in s && x != y :: x.space != y.space
    ensures |s| <= n
  {
    if n == 0 {
    } else {
      if x :| x in s && x.space == n - 1 {
        OnePerSpace(s - {x}, n - 1);
      } else {
        OnePerSpace(s, n - 1);
      }
    }
  }

  /** The 16-bit reference counts never come near saturation. */
  lemma NeverSaturates(m: Machine, p: nat)
    requires Inv(m) && p < MAX_PHYS_PAGES
    ensures m.frames.refs[p] <= MAX_SPACES
  {
    forall x, y | x in Mappers(m.pt, p) && y in Mappers(m.pt, p) && x != y ensures x.space != y.space {
      assert !Clash(m.pt, x, y);
    }
    OnePerSpace(Mappers(m.pt, p), MAX_SPACES);
  }

  ghost predicate Shareable(m: Machine, x: Slot, y: Slot) {
    && x in m.pt && y !in m.pt && y.space in m.refs && y.page < USER_PAGES
    && forall z | z in m.pt && z.space == y.space :: m.pt[z].frame != m.pt[x].frame
  }

  lemma ShareKeeps(m: Machine, x: Slot, y: Slot)
    requires Inv(m) && Shareable(m, x, y)
    ensures var r := Share(m, x, y); Inv(r) && Reserved(r.frames) == Reserved(m.frames)
  {
    var e := Shared(m.pt[x]);
    MappedOwned(m, x);
    NeverSaturates(m, e.frame);
    ExactReflag(m.frames.refs, m.pt, m.held, x, e);
    ExactAdd(m.frames.refs, m.pt[x := e], m.held, y, e);
    RetainBalanced(m.frames, e.frame);
    TypedAdd(m.pt, m.refs.Keys, m.frames.total, x, e);
    TypedAdd(m.pt[x := e], m.refs.Keys, m.frames.total, y, e);
    PrivateShare(m.pt, x, y);
  }

  lemma ShareImage(m: Machine, x: Slot, y: Slot)
    requires x in m.pt && y !in m.pt && WellFormed(m.frames)
    ensures Image(Share(m, x, y)) == Image(m)[y := Image(m)[x]]
  {
  }

  lemma StoreKeeps(m: Machine, x: Slot, offset: nat, b: Byte)
    requires Inv(m) && x in m.pt
    ensures Inv(Store(m, x, offset, b))
  {
    var r := Store(m, x, offset, b);
    assert r.frames == m.frames && r.pt == m.pt && r.refs == m.refs && r.held == m.held;
  }

  /** A store through a writable entry is seen by that entry alone. */
  lemma StoreImage(m: Machine, x: Slot, offset: nat, b: Byte)
    requires Private(m.pt) && x in m.pt && m.pt[x].write && m.pt[x].frame < |m.mem|
    ensures Image(Store(m, x, offset, b)) == Image(m)[x := StorePage(Image(m)[x], offset, b)]
  {
    var r := Store(m, x, offset, b);
    forall y | y in m.pt && y != x ensures Image(r)[y] == Image(m)[y] {
      assert !Clash(m.pt, x, y);
    }
  }

  lemma HoldKeeps(m: Machine)
    requires Inv(m)
    ensures Inv(Hold(m)) && Reserved(Hold(m).frames) == Reserved(m.frames) && Image(Hold(m)) == Image(m)
  {
    var p := Alloc(m.frames).1;
    if p != 0 {
      ClearUnmapped(m, p);
      ClaimBalanced(m.frames, p);
      assert Mappers(m.pt, p) == {};
    }
  }

  lemma DropKeeps(m: Machine, p: nat)
    requires Inv(m)
    ensures Inv(Drop(m, p)) && Reserved(Drop(m, p).frames) == Reserved(m.frames) && Image(Drop(m, p)) == Image(m)
  {
    if p in m.held {
      assert Mappers(m.pt, p) == {} && m.frames.refs[p] == 1;
      FreeBalanced(m.frames, p);
    }
  }

  /** The frame goes back to the allocator exactly when its last entry is unmapped. */
  lemma FreedAtLastUnmap(m: Machine, x: Slot)
    requires Inv(m) && x in m.pt
    ensures !Unmap(m, x).frames.taken[m.pt[x].frame] <==> Mappers(m.pt, m.pt[x].frame) == {x}
  {
    var p := m.pt[x].frame;
    MappedOwned(m, x);
    assert x in Mappers(m.pt, p);
    if |Mappers(m.pt, p)| == 1 {
      assert |Mappers(m.pt, p) - {x}| == 0;
      assert Mappers(m.pt, p) == {x};
    }
  }
}
