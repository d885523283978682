/**
  Operations on whole address spaces (mm/vmm.c): create, the copy-on-write clone, the eager
  clone, range mapping and unmapping, and destroy, built from the single-entry steps of `Cow`.
  `CopyImage` is what a fork means for the pages that user code reads; both clones are proved
  to give it, and a failed eager clone is proved to leave tables and allocator as found.
 */
module Fork {
  import opened Pmm
  import opened Cow

  /** First unused space at or after `from`, or MAX_SPACES. */
  function FreeSpace(live: set<nat>, from: nat): (r: nat)
    requires from <= MAX_SPACES
    ensures from <= r <= MAX_SPACES && r !in live - {MAX_SPACES}
    ensures forall i | from <= i < r :: i in live
    decreases MAX_SPACES - from, live
  {
    if from == MAX_SPACES || from !in live then from else FreeSpace(live, from + 1)
  }

  /** `vmm_create_address_space`: the new space, or MAX_SPACES when all are in use. */
  function Create(m: Machine): (r: (Machine, nat)) {
    var d := FreeSpace(m.refs.Keys, 0);
    if d == MAX_SPACES then (m, d) else (m.(refs := m.refs[d := 1]), d)
  }

  lemma CreateKeeps(m: Machine)
    requires Inv(m)
    ensures var (r, d) := Create(m); Inv(r) && (d < MAX_SPACES ==> d !in m.refs && forall x | x in r.pt :: x.space != d)
  {
    var (r, d) := Create(m);
    assert TypedTable(r.pt, r.refs.Keys, r.frames.total) by {
      forall x | x in r.pt ensures TypedEntry(x, r.pt[x], r.refs.Keys, r.frames.total) {
        assert TypedEntry(x, m.pt[x], m.refs.Keys, m.frames.total);
      }
    }
  }

  // ---------------------------------------------------------------- COW clone

  /** The clone loop of `vmm_clone_address_space_cow` after its first `n` entries. */
  function ShareUpTo(m: Machine, s: nat, d: nat, n: nat): (r: Machine)
    requires WellFormed(m.frames)
    ensures WellFormed(r.frames) && r.mem == m.mem && r.refs == m.refs && r.held == m.held
  {
    if n == 0 then m else Share(ShareUpTo(m, s, d, n - 1), Slot(s, n - 1), Slot(d, n - 1))
  }

  function CloneCow(m: Machine, s: nat): (r: (Machine, nat))
    requires WellFormed(m.frames)
  {
    var (c, d) := Create(m);
    if d == MAX_SPACES then (m, d) else (ShareUpTo(c, s, d, USER_PAGES), d)
  }

  /** The eager copy: `d` gets its own copy of every page of `s` below page `n`. */
  ghost function CopyImage(img: map<Slot, Page>, s: nat, d: nat, n: nat): map<Slot, Page> {
    if n == 0 then img
    else
      var prev := CopyImage(img, s, d, n - 1);
      if Slot(s, n - 1) in img then prev[Slot(d, n - 1) := img[Slot(s, n - 1)]] else prev
  }

  /** Where a key of the eager copy gets its page from. */
  function Source(y: Slot, s: nat, d: nat): Slot {
    if y.space == d then Slot(s, y.page) else y
  }

  lemma {:induction false} CopyImageAt(img: map<Slot, Page>, s: nat, d: nat, n: nat, y: Slot)
    requires s != d && forall x | x in img :: x.space != d
    ensures y in CopyImage(img, s, d, n) <==> Source(y, s, d) in img && (y.space == d ==> y.page < n)
    ensures y in CopyImage(img, s, d, n) ==> CopyImage(img, s, d, n)[y] == img[Source(y, s, d)]
  {
    if n == 0 {
    } else {
      CopyImageAt(img, s, d, n - 1, y);
    }
  }

  lemma CopyImageNext(img: map<Slot, Page>, s: nat, d: nat, n: nat)
    requires s != d && forall x | x in img :: x.space != d
    ensures var c := CopyImage(img, s, d, n);
            && Slot(d, n) !in c
            && CopyImage(img, s, d, n + 1) == if Slot(s, n) in c then c[Slot(d, n) := c[Slot(s, n)]] else c
  {
    CopyImageAt(img, s, d, n, Slot(s, n));
    CopyImageAt(img, s, d, n, Slot(d, n));
  }

  /** Every entry of `d` repeats the frame of the same page of `s`, below page `n`. */
  ghost predicate Follows(pt: map<Slot, Pte>, s: nat, d: nat, n: nat) {
    forall y :: Follower(pt, s, d, n, y)
  }

  ghost predicate Follower(pt: map<Slot, Pte>, s: nat, d: nat, n: nat, y: Slot) {
    y in pt && y.space == d ==>
      y.page < n && Slot(s, y.page) in pt && pt[y].frame == pt[Slot(s, y.page)].frame
  }

  ghost predicate Cloning(m: Machine, s: nat, d: nat, n: nat) {
    Inv(m) && s != d && d in m.refs && Follows(m.pt, s, d, n)
  }

  lemma FollowsShareable(m: Machine, s: nat, d: nat, n: nat)
    requires Cloning(m, s, d, n) && n < USER_PAGES && Slot(s, n) in m.pt
    ensures Shareable(m, Slot(s, n), Slot(d, n))
  {
    forall z | z in m.pt && z.space == d ensures m.pt[z].frame != m.pt[Slot(s, n)].frame {
      assert Follower(m.pt, s, d, n, z) && !Clash(m.pt, Slot(s, z.page), Slot(s, n));
    }
    assert Follower(m.pt, s, d, n, Slot(d, n));
  }

  lemma ShareFollows(m: Machine, s: nat, d: nat, n: nat)
    requires WellFormed(m.frames) && s != d && Follows(m.pt, s, d, n)
    ensures Follows(Share(m, Slot(s, n), Slot(d, n)).pt, s, d, n + 1)
  {
    var after := Share(m, Slot(s, n), Slot(d, n)).pt;
    var k := n + 1;
    forall y ensures Follower(after, s, d, k, y) { assert Follower(m.pt, s, d, n, y); }
  }

  lemma ShareStep(m: Machine, s: nat, d: nat, n: nat)
    requires Cloning(m, s, d, n) && n < USER_PAGES
    ensures var r := Share(m, Slot(s, n), Slot(d, n));
            Cloning(r, s, d, n + 1) && Reserved(r.frames) == Reserved(m.frames) && r.frames.total == m.frames.total
  {
    if Slot(s, n) in m.pt {
      FollowsShareable(m, s, d, n);
      ShareKeeps(m, Slot(s, n), Slot(d, n));
    }
    ShareFollows(m, s, d, n);
  }

  lemma {:induction false} ShareUpToKeeps(m: Machine, s: nat, d: nat, n: nat)
    requires Cloning(m, s, d, 0) && n <= USER_PAGES
    ensures var r := ShareUpTo(m, s, d, n);
            Cloning(r, s, d, n) && Reserved(r.frames) == Reserved(m.frames) && r.frames.total == m.frames.total
  {
    hide WellFormed, Share, Follower, Follows;
    if n == 0 {
    } else {
      ShareUpToKeeps(m, s, d, n - 1);
      ShareStep(ShareUpTo(m, s, d, n - 1), s, d, n - 1);
    }
  }

  lemma {:induction false} ShareUpToImage(m: Machine, s: nat, d: nat, n: nat)
    requires WellFormed(m.frames) && s != d
    requires forall x | x in m.pt :: x.space != d
    ensures Image(ShareUpTo(m, s, d, n)) == CopyImage(Image(m), s, d, n)
  {
    hide WellFormed;
    if n == 0 {
    } else {
      ShareUpToImage(m, s, d, n - 1);
      var q := ShareUpTo(m, s, d, n - 1);
      var x, y := Slot(s, n - 1), Slot(d, n - 1);
      CopyImageNext(Image(m), s, d, n - 1);
      assert x in q.pt <==> x in Image(q);
      assert y in q.pt <==> y in Image(q);
      if x in q.pt { ShareImage(q, x, y); }
    }
  }

  /** COW fork: the books stay exact, and every space reads what an eager copy would give it. */
  lemma CloneCowKeeps(m: Machine, s: nat)
    requires Inv(m) && s in m.refs
    ensures var (r, d) := CloneCow(m, s);
            && Inv(r) && Reserved(r.frames) == Reserved(m.frames) && r.frames.total == m.frames.total
            && (d == MAX_SPACES ==> r == m)
            && (d < MAX_SPACES ==> d !in m.refs && r.refs == m.refs[d := 1]
                                   && Image(r) == CopyImage(Image(m), s, d, USER_PAGES))
  {
    var (c, d) := Create(m);
    CreateKeeps(m);
    if d < MAX_SPACES {
      assert Follows(c.pt, s, d, 0);
      ShareUpToKeeps(c, s, d, USER_PAGES);
      ShareUpToImage(c, s, d, USER_PAGES);
      assert Image(c) == Image(m);
    }
  }

  // ---------------------------------------------------------------- unmapping runs of pages

  /** A COW fork fails only for want of an address space: mapping the shared pages never does. */
  lemma CloneCowFailsIff(m: Machine, s: nat)
    requires WellFormed(m.frames) && s in m.refs
    ensures CloneCow(m, s).1 == MAX_SPACES <==> forall d: nat | d < MAX_SPACES :: d in m.refs
  {
    hide ShareUpTo;
  }

  /** Unmap the pages `first..first+n` of space `i`. */
  function UnmapRun(m: Machine, i: nat, first: nat, n: nat): (r: Machine)
    requires WellFormed(m.frames)
    ensures WellFormed(r.frames) && r.mem == m.mem && r.refs == m.refs && r.held == m.held
  {
    if n == 0 then m else Unmap(UnmapRun(m, i, first, n - 1), Slot(i, first + n - 1))
  }

  function RunSlots(i: nat, first: nat, n: nat): (r: set<Slot>)
    ensures forall x :: x in r <==> x.space == i && first <= x.page < first + n
  {
    set k | first <= k < first + n :: Slot(i, k)
  }

  lemma {:induction false} UnmapRunKeeps(m: Machine, i: nat, first: nat, n: nat)
    requires Inv(m)
    ensures var r := UnmapRun(m, i, first, n);
            Inv(r) && Reserved(r.frames) == Reserved(m.frames) && r.frames.total == m.frames.total
  {
    if n == 0 {
    } else {
      UnmapRunKeeps(m, i, first, n - 1);
      var q := UnmapRun(m, i, first, n - 1);
      var x := Slot(i, first + n - 1);
      if x in q.pt { UnmapKeeps(q, x); }
    }
  }

  lemma {:induction false} UnmapRunTable(m: Machine, i: nat, first: nat, n: nat)
    requires WellFormed(m.frames)
    ensures UnmapRun(m, i, first, n).pt == m.pt - RunSlots(i, first, n)
  {
    if n == 0 {
    } else {
      UnmapRunTable(m, i, first, n - 1);
      var x := Slot(i, first + n - 1);
      assert RunSlots(i, first, n) == RunSlots(i, first, n - 1) + {x};
      assert m.pt - RunSlots(i, first, n - 1) - {x} == m.pt - RunSlots(i, first, n);
    }
  }

  /** `vmm_destroy_address_space`: drop one reference, and tear down on the last. */
  function Destroy(m: Machine, i: nat): (r: Machine)
    requires WellFormed(m.frames)
  {
    if i !in m.refs then m
    else if m.refs[i] > 1 then m.(refs := m.refs[i := m.refs[i] - 1])
    else
      var u := UnmapRun(m, i, 0, USER_PAGES);
      u.(refs := u.refs - {i})
  }

  /** What is left when space `i` goes away. */
  ghost function Without<V>(img: map<Slot, V>, i: nat): map<Slot, V> {
    map x | x in img && x.space != i :: img[x]
  }

  lemma DestroyKeeps(m: Machine, i: nat)
    requires Inv(m) && i in m.refs
    ensures var r := Destroy(m, i);
            && Inv(r) && Reserved(r.frames) == Reserved(m.frames) && r.frames.total == m.frames.total
            && r.refs == (if m.refs[i] > 1 then m.refs[i := m.refs[i] - 1] else m.refs - {i})
            && Image(r) == if m.refs[i] > 1 then Image(m) else Without(Image(m), i)
  {
    hide UnmapRun, WellFormed, RunSlots, CanMap;
    if m.refs[i] > 1 {
      assert m.refs[i := m.refs[i] - 1].Keys == m.refs.Keys;
    } else {
      UnmapRunKeeps(m, i, 0, USER_PAGES);
      UnmapRunTable(m, i, 0, USER_PAGES);
      var u := UnmapRun(m, i, 0, USER_PAGES);
      forall x | x in u.pt ensures TypedEntry(x, u.pt[x], u.refs.Keys - {i}, u.frames.total) {
        assert TypedEntry(x, u.pt[x], u.refs.Keys, u.frames.total);
      }
      assert (u.refs - {i}).Keys == u.refs.Keys - {i};
    }
  }

  // ---------------------------------------------------------------- mapping runs of pages

  function MapRun(m: Machine, i: nat, first: nat, n: nat, flags: Flags): (r: Machine)
    requires WellFormed(m.frames)
    ensures WellFormed(r.frames) && r.mem == m.mem && r.refs == m.refs && r.held == m.held
  {
    if n == 0 then m else MapFresh(MapRun(m, i, first, n - 1, flags), Slot(i, first + n - 1), flags)
  }

  /** Every page of the run gets a frame. */
  ghost predicate CanMapRun(m: Machine, i: nat, first: nat, n: nat, flags: Flags)
    requires WellFormed(m.frames)
  {
    n == 0 || (CanMapRun(m, i, first, n - 1, flags) &&
               CanMap(MapRun(m, i, first, n - 1, flags), Slot(i, first + n - 1)))
  }

  lemma {:induction false} MapRunTable(m: Machine, i: nat, first: nat, n: nat, flags: Flags)
    requires WellFormed(m.frames) && CanMapRun(m, i, first, n, flags)
    requires forall x | x in RunSlots(i, first, n) :: x !in m.pt
    ensures var r := MapRun(m, i, first, n, flags);
            r.pt.Keys == m.pt.Keys + RunSlots(i, first, n) && forall x | x in m.pt :: r.pt[x] == m.pt[x]
  {
    if n == 0 {
    } else {
      assert RunSlots(i, first, n) == RunSlots(i, first, n - 1) + {Slot(i, first + n - 1)};
      MapRunTable(m, i, first, n - 1, flags);
    }
  }

  lemma {:induction false} MapRunKeeps(m: Machine, i: nat, first: nat, n: nat, flags: Flags)
    requires Inv(m) && i in m.refs && CanMapRun(m, i, first, n, flags)
    requires forall x | x in RunSlots(i, first, n) :: x !in m.pt
    ensures var r := MapRun(m, i, first, n, flags);
            Inv(r) && Reserved(r.frames) == Reserved(m.frames) && r.frames.total == m.frames.total
  {
    hide Exact, Private, WellFormed;
    if n == 0 {
    } else {
      var x := Slot(i, first + n - 1);
      assert x in RunSlots(i, first, n) && x !in RunSlots(i, first, n - 1);
      assert RunSlots(i, first, n - 1) <= RunSlots(i, first, n);
      MapRunKeeps(m, i, first, n - 1, flags);
      MapRunTable(m, i, first, n - 1, flags);
      MapFreshKeeps(MapRun(m, i, first, n - 1, flags), x, flags);
    }
  }

  /** Unmapping the last page of a run undoes its last step exactly: the rollback of a failed range. */
  lemma MapRunUndone(m: Machine, i: nat, first: nat, n: nat, flags: Flags)
    requires Inv(m) && i in m.refs && n > 0 && CanMapRun(m, i, first, n, flags)
    requires forall x | x in RunSlots(i, first, n) :: x !in m.pt
    ensures Unmap(MapRun(m, i, first, n, flags), Slot(i, first + n - 1)) == MapRun(m, i, first, n - 1, flags)
  {
    var x := Slot(i, first + n - 1);
    assert x in RunSlots(i, first, n) && x !in RunSlots(i, first, n - 1);
    assert RunSlots(i, first, n - 1) <= RunSlots(i, first, n);
    MapRunKeeps(m, i, first, n - 1, flags);
    MapRunTable(m, i, first, n - 1, flags);
    MapFreshUndone(MapRun(m, i, first, n - 1, flags), x, flags);
  }

  // ---------------------------------------------------------------- eager clone

  /** One entry of `vmm_clone_address_space`: a fresh frame holding a copy of the page. */
  function Copy(m: Machine, x: Slot, y: Slot): (r: Machine)
    requires WellFormed(m.frames)
  {
    if x !in m.pt then m
    else
      var e := m.pt[x];
      var q := MapFresh(m, y, Flags(e.write, e.cow, e.other));
      if !CanMap(m, y) || q.pt[y].frame >= |m.mem| then m
      else q.(mem := m.mem[q.pt[y].frame := FrameContents(m.mem, e.frame)])
  }

  function CopyUpTo(m: Machine, s: nat, d: nat, n: nat): (r: Machine)
    requires WellFormed(m.frames)
    ensures WellFormed(r.frames) && r.refs == m.refs && r.held == m.held
  {
    if n == 0 then m else Copy(CopyUpTo(m, s, d, n - 1), Slot(s, n - 1), Slot(d, n - 1))
  }

  /** Frames never run out while copying the first `n` pages. */
  ghost predicate CanCopy(m: Machine, s: nat, d: nat, n: nat)
    requires WellFormed(m.frames)
  {
    n == 0 || (CanCopy(m, s, d, n - 1) &&
               (Slot(s, n - 1) in m.pt ==> CanMap(CopyUpTo(m, s, d, n - 1), Slot(d, n - 1))))
  }

  /** `vmm_clone_address_space`: all pages copied, or the half-built space destroyed. */
  ghost function CloneEager(m: Machine, s: nat): (r: (Machine, nat))
    requires WellFormed(m.frames)
  {
    var (c, d) := Create(m);
    if d == MAX_SPACES then (m, d)
    else if CanCopy(c, s, d, USER_PAGES) then (CopyUpTo(c, s, d, USER_PAGES), d)
    else (Destroy(CopyUpTo(c, s, d, Reached(c, s, d, USER_PAGES)), d), MAX_SPACES)
  }

  /** How many pages are copied before frames run out. */
  ghost function Reached(m: Machine, s: nat, d: nat, n: nat): (r: nat)
    requires WellFormed(m.frames)
    ensures r <= n && CanCopy(m, s, d, r)
  {
    if CanCopy(m, s, d, n) then n else Reached(m, s, d, n - 1)
  }

  lemma CopyKeeps(m: Machine, x: Slot, y: Slot)
    requires Inv(m) && y.space in m.refs && x in m.pt && y !in m.pt && CanMap(m, y)
    ensures var r := Copy(m, x, y); Inv(r) && Reserved(r.frames) == Reserved(m.frames)
  {
    var e := m.pt[x];
    MapFreshKeeps(m, y, Flags(e.write, e.cow, e.other));
    var q := MapFresh(m, y, Flags(e.write, e.cow, e.other));
    var r := Copy(m, x, y);
    assert r.frames == q.frames && r.pt == q.pt && r.refs == q.refs && r.held == q.held;
  }

  lemma CopyStepImage(m: Machine, x: Slot, y: Slot)
    requires Inv(m) && y !in Image(m) && (x in m.pt ==> CanMap(m, y))
    ensures Image(Copy(m, x, y)) == if x in Image(m) then Image(m)[y := Image(m)[x]] else Image(m)
  {
    if x in m.pt { ClearUnmapped(m, Alloc(m.frames).1); }
  }

  lemma {:induction false} CopyUpToKeeps(m: Machine, s: nat, d: nat, n: nat)
    requires Inv(m) && s != d && d in m.refs && n <= USER_PAGES && CanCopy(m, s, d, n)
    requires forall x | x in m.pt :: x.space != d
    ensures var r := CopyUpTo(m, s, d, n);
            && Inv(r) && Reserved(r.frames) == Reserved(m.frames) && r.frames.total == m.frames.total
            && (forall x | x in r.pt && x.space == d :: x.page < n)
            && (forall x | x in m.pt || (x in r.pt && x.space != d) :: x in m.pt && x in r.pt && r.pt[x] == m.pt[x])
  {
    if n == 0 {
    } else {
      CopyUpToKeeps(m, s, d, n - 1);
      var q := CopyUpTo(m, s, d, n - 1);
      if Slot(s, n - 1) in q.pt { CopyKeeps(q, Slot(s, n - 1), Slot(d, n - 1)); }
    }
  }

  lemma {:induction false} CopyUpToImage(m: Machine, s: nat, d: nat, n: nat)
    requires Inv(m) && s != d && d in m.refs && n <= USER_PAGES && CanCopy(m, s, d, n)
    requires forall x | x in m.pt :: x.space != d
    ensures Image(CopyUpTo(m, s, d, n)) == CopyImage(Image(m), s, d, n)
  {
    if n == 0 {
    } else {
      CopyUpToImage(m, s, d, n - 1);
      CopyImageNext(Image(m), s, d, n - 1);
      assert Inv(CopyUpTo(m, s, d, n - 1)) by { CopyUpToKeeps(m, s, d, n - 1); }
      var q := CopyUpTo(m, s, d, n - 1);
      var x, y := Slot(s, n - 1), Slot(d, n - 1);
      assert x in m.pt <==> x in q.pt by { CopyUpToKeeps(m, s, d, n - 1); }
      CopyStepImage(q, x, y);
    }
  }

  /** The allocator's whole state follows from the page tables, the kernel's holdings and the reserved frames. */
  lemma FramesDetermined(m: Machine, r: Machine)
    requires Inv(m) && Inv(r) && m.pt == r.pt && m.held == r.held
    requires m.frames.total == r.frames.total && Reserved(m.frames) == Reserved(r.frames)
    ensures m.frames == r.frames
  {
    var f, g := m.frames, r.frames;
    forall p: nat | p < MAX_PHYS_PAGES ensures f.refs[p] == g.refs[p] && f.taken[p] == g.taken[p] {
      assert f.refs[p] == |Mappers(m.pt, p)| + if p in m.held then 1 else 0;
      assert p in Reserved(f) <==> p in Reserved(g);
    }
    assert f.refs == g.refs;
    assert f.taken == g.taken;
  }

  /** The eager clone reaches the same image as the COW clone, or leaves tables and allocator as found. */
  lemma CloneEagerKeeps(m: Machine, s: nat)
    requires Inv(m) && s in m.refs
    ensures var (r, d) := CloneEager(m, s);
            && Inv(r) && Reserved(r.frames) == Reserved(m.frames) && r.frames.total == m.frames.total
            && (d < MAX_SPACES ==> d !in m.refs && r.refs == m.refs[d := 1]
                                   && Image(r) == CopyImage(Image(m), s, d, USER_PAGES))
            && (d == MAX_SPACES ==> r.frames == m.frames && r.pt == m.pt && r.refs == m.refs && Image(r) == Image(m))
  {
    var (c, d) := Create(m);
    CreateKeeps(m);
    assert Image(c) == Image(m);
    if d < MAX_SPACES {
      if CanCopy(c, s, d, USER_PAGES) {
        CopyUpToKeeps(c, s, d, USER_PAGES);
        CopyUpToImage(c, s, d, USER_PAGES);
      } else {
        CloneEagerFails(m, c, s, d);
      }
    }
  }

  lemma CloneEagerFails(m: Machine, c: Machine, s: nat, d: nat)
    requires Inv(m) && Inv(c) && s in m.refs && d !in m.refs && c == m.(refs := m.refs[d := 1])
    ensures var r := Destroy(CopyUpTo(c, s, d, Reached(c, s, d, USER_PAGES)), d);
            && Inv(r) && Reserved(r.frames) == Reserved(m.frames)
            && r.frames == m.frames && r.pt == m.pt && r.refs == m.refs && Image(r) == Image(m)
  {
    assert forall x | x in c.pt :: TypedEntry(x, m.pt[x], m.refs.Keys, m.frames.total);
    var n := Reached(c, s, d, USER_PAGES);
    CopyUpToKeeps(c, s, d, n);
    CopyUpToImage(c, s, d, n);
    var q := CopyUpTo(c, s, d, n);
    DestroyKeeps(q, d);
    DropCopy(m, q, d);
    WithoutCopy(Image(m), s, d, n);
    FramesDetermined(m, Destroy(q, d));
  }

  lemma DropCopy(m: Machine, q: Machine, d: nat)
    requires WellFormed(q.frames) && d !in m.refs && q.refs == m.refs[d := 1]
    requires forall x | x in q.pt && x.space == d :: x.page < USER_PAGES
    requires forall x | x in m.pt || (x in q.pt && x.space != d) :: x in m.pt && x in q.pt && q.pt[x] == m.pt[x]
    requires forall x | x in m.pt :: x.space != d
    ensures Destroy(q, d).pt == m.pt && Destroy(q, d).refs == m.refs && Destroy(q, d).held == q.held
  {
    UnmapRunTable(q, d, 0, USER_PAGES);
  }

  lemma WithoutCopy(img: map<Slot, Page>, s: nat, d: nat, n: nat)
    requires s != d && forall x | x in img :: x.space != d
    ensures Without(CopyImage(img, s, d, n), d) == img
  {
    forall x { CopyImageAt(img, s, d, n, x); }
  }

  // ---------------------------------------------------------------- skipping unused tables

  lemma UnmapRunNext(m: Machine, i: nat, k: nat)
    requires WellFormed(m.frames)
    ensures UnmapRun(m, i, 0, k + 1).frames ==
            if Slot(i, k) in m.pt then Free(UnmapRun(m, i, 0, k).frames, m.pt[Slot(i, k)].frame)
            else UnmapRun(m, i, 0, k).frames
  {
    UnmapRunTable(m, i, 0, k);
  }

  /** A stretch without entries is a stretch the loops may skip. */
  lemma {:induction false} UnmapSkip(m: Machine, i: nat, n: nat, len: nat)
    requires WellFormed(m.frames) && forall x | x in RunSlots(i, n, len) :: x !in m.pt
    ensures UnmapRun(m, i, 0, n + len) == UnmapRun(m, i, 0, n)
  {
    if len == 0 {
    } else {
      assert RunSlots(i, n, len) == RunSlots(i, n, len - 1) + {Slot(i, n + len - 1)};
      UnmapSkip(m, i, n, len - 1);
      UnmapRunTable(m, i, 0, n + len - 1);
    }
  }

  /** Cloning changes the flags of the source's entries, never which pages it has. */
  lemma {:induction false} ShareSource(m: Machine, s: nat, d: nat, n: nat, k: nat)
    requires WellFormed(m.frames) && s != d
    ensures var r := ShareUpTo(m, s, d, n);
            && (Slot(s, k) in r.pt <==> Slot(s, k) in m.pt)
            && (Slot(s, k) in m.pt ==> r.pt[Slot(s, k)] == if k < n then Shared(m.pt[Slot(s, k)]) else m.pt[Slot(s, k)])
  {
    if n == 0 {
    } else {
      ShareSource(m, s, d, n - 1, k);
      ShareSource(m, s, d, n - 1, n - 1);
    }
  }

  lemma {:induction false} ShareSkip(m: Machine, s: nat, d: nat, n: nat, len: nat)
    requires WellFormed(m.frames) && s != d && forall x | x in RunSlots(s, n, len) :: x !in m.pt
    ensures ShareUpTo(m, s, d, n + len) == ShareUpTo(m, s, d, n)
  {
    hide Retain, Shared, WellFormed, RunSlots;
    if len == 0 {
    } else {
      assert RunSlots(s, n, len) == RunSlots(s, n, len - 1) + {Slot(s, n + len - 1)};
      ShareSkip(m, s, d, n, len - 1);
      ShareSource(m, s, d, n + len - 1, n + len - 1);
    }
  }

  /** Copying leaves the source's entries alone. */
  lemma {:induction false} CopySource(m: Machine, s: nat, d: nat, n: nat, k: nat)
    requires WellFormed(m.frames) && s != d
    ensures var r := CopyUpTo(m, s, d, n);
            && (Slot(s, k) in r.pt <==> Slot(s, k) in m.pt)
            && (Slot(s, k) in m.pt ==> r.pt[Slot(s, k)] == m.pt[Slot(s, k)])
  {
    if n == 0 {
    } else {
      CopySource(m, s, d, n - 1, k);
    }
  }

  lemma {:induction false} CopySkip(m: Machine, s: nat, d: nat, n: nat, len: nat)
    requires WellFormed(m.frames) && s != d && forall x | x in RunSlots(s, n, len) :: x !in m.pt
    ensures CopyUpTo(m, s, d, n + len) == CopyUpTo(m, s, d, n)
    ensures CanCopy(m, s, d, n) ==> CanCopy(m, s, d, n + len)
  {
    hide MapFresh, CanMap;
    if len == 0 {
    } else {
      assert RunSlots(s, n, len) == RunSlots(s, n, len - 1) + {Slot(s, n + len - 1)};
      CopySkip(m, s, d, n, len - 1);
      CopySource(m, s, d, n + len - 1, n + len - 1);
    }
  }

  lemma {:induction false} ReachedAt(m: Machine, s: nat, d: nat, k: nat, n: nat)
    requires WellFormed(m.frames) && k < n && CanCopy(m, s, d, k) && !CanCopy(m, s, d, k + 1)
    ensures !CanCopy(m, s, d, n) && Reached(m, s, d, n) == k
  {
    if k + 1 == n {
    } else {
      ReachedAt(m, s, d, k, n - 1);
    }
  }
}
