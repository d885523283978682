/**
  The virtual memory manager itself (mm/vmm.c): the table of address spaces with
  their page tables and areas, updated in place by the kernel's loops.  Each method
  is proved to perform the transition of the same name on the value `sys`, which the tables
  represent at every call and return: `Valid` says how, entry by entry and area by area.
 */
module Vmm {
  import opened Numbers
  import opened Pmm
  import opened Cow
  import opened Fork
  import opened Areas
  import opened Paging
  import opened Steps
  import opened Runs
  import opened Capacity
  import opened Resolution

  const TABLES: nat := 8
  const ENTRIES: nat := 1024

  const ABSENT := Pte(0, false, false, false, false, 0)

  /** One `address_space_t`: `ptes` is `user_tables` row after row. */
  datatype Space = Space(tableUsed: seq<bool>, ptes: seq<Pte>, areas: seq<Area>, refs: nat)

  function EmptySpace(): Space {
    Space(seq(TABLES, _ => false), seq(USER_PAGES, _ => ABSENT), FreshAreas(), 1)
  }

  ghost predicate Shaped(sp: Space) {
    |sp.tableUsed| == TABLES && |sp.ptes| == USER_PAGES && |sp.areas| == MAX_VMAS
  }

  /** Entry `k` of space `i` stands for the slot of the same name. */
  ghost predicate Stands(sp: Space, pt: map<Slot, Pte>, i: nat, k: nat)
    requires Shaped(sp) && k < USER_PAGES
  {
    && (Slot(i, k) in pt <==> sp.ptes[k].present)
    && (sp.ptes[k].present ==> pt[Slot(i, k)] == sp.ptes[k] && sp.tableUsed[k / ENTRIES])
  }

  ghost predicate StandsFor(sp: Space, pt: map<Slot, Pte>, i: nat) {
    Shaped(sp) && forall k: nat | k < USER_PAGES :: Stands(sp, pt, i, k)
  }

  ghost predicate Represents(live: seq<bool>, spaces: seq<Space>, s: System) {
    && |live| == |spaces| == MAX_SPACES
    && (forall i: nat | i < MAX_SPACES :: live[i] <==> i in s.m.refs)
    && (forall i | i in s.m.refs :: i < MAX_SPACES && i in s.areas && spaces[i].refs == s.m.refs[i])
    && (forall i: nat | i < MAX_SPACES && i !in s.m.refs :: spaces[i].refs == 0)
    && (forall i | i in s.areas :: i in s.m.refs && spaces[i].areas == s.areas[i])
    && (forall i | i in s.m.refs :: StandsFor(spaces[i], s.m.pt, i))
    && (forall x | x in s.m.pt :: x.space in s.m.refs && x.page < USER_PAGES && s.m.pt[x].user)
  }

  lemma StandsAfterSet(sp: Space, pt: map<Slot, Pte>, i: nat, k: nat, e: Pte)
    requires StandsFor(sp, pt, i) && k < USER_PAGES && e.present
    ensures StandsFor(sp.(ptes := sp.ptes[k := e], tableUsed := sp.tableUsed[k / ENTRIES := true]),
                      pt[Slot(i, k) := e], i)
  {
    var sp', pt' := sp.(ptes := sp.ptes[k := e], tableUsed := sp.tableUsed[k / ENTRIES := true]), pt[Slot(i, k) := e];
    forall j: nat | j < USER_PAGES ensures Stands(sp', pt', i, j) { assert Stands(sp, pt, i, j); }
  }

  lemma StandsAfterClear(sp: Space, pt: map<Slot, Pte>, i: nat, k: nat)
    requires StandsFor(sp, pt, i) && k < USER_PAGES
    ensures StandsFor(sp.(ptes := sp.ptes[k := ABSENT]), pt - {Slot(i, k)}, i)
  {
    var sp', pt' := sp.(ptes := sp.ptes[k := ABSENT]), pt - {Slot(i, k)};
    forall j: nat | j < USER_PAGES ensures Stands(sp', pt', i, j) { assert Stands(sp, pt, i, j); }
  }

  lemma StandsElsewhere(sp: Space, pt: map<Slot, Pte>, pt': map<Slot, Pte>, i: nat)
    requires StandsFor(sp, pt, i)
    requires forall x: Slot | x.space == i :: (x in pt <==> x in pt') && (x in pt ==> pt[x] == pt'[x])
    ensures StandsFor(sp, pt', i)
  {
    forall j: nat | j < USER_PAGES ensures Stands(sp, pt', i, j) { assert Stands(sp, pt, i, j); }
  }

  /** The tables say nothing about frames and contents. */
  lemma AnyMemory(live: seq<bool>, spaces: seq<Space>, s: System, frames: Frames, mem: seq<Page>)
    requires Represents(live, spaces, s)
    ensures Represents(live, spaces, s.(m := s.m.(frames := frames, mem := mem)))
  {
  }

  lemma EntryIs(live: seq<bool>, spaces: seq<Space>, s: System, i: nat, k: nat)
    requires Represents(live, spaces, s) && i in s.m.refs && k < USER_PAGES
    ensures i < |spaces| && Shaped(spaces[i]) && Stands(spaces[i], s.m.pt, i, k)
  {
  }

  lemma RepresentsDestroyed(live: seq<bool>, spaces: seq<Space>, s: System, i: nat)
    requires WellFormed(s.m.frames) && Represents(live, spaces, s) && i in s.m.refs && s.m.refs[i] <= 1
    ensures Represents(live[i := false], spaces[i := spaces[i].(refs := 0)], DestroySpace(s, i))
  {
    hide UnmapRun;
    UnmapRunTable(s.m, i, 0, USER_PAGES);
    var t := DestroySpace(s, i);
    forall j | j in t.m.refs ensures StandsFor(spaces[j], t.m.pt, j) {
      StandsElsewhere(spaces[j], s.m.pt, t.m.pt, j);
    }
  }

  class AddressSpaces {
    const pmm: PageAllocator
    var live: seq<bool>
    var spaces: seq<Space>
    var mem: seq<Page>
    var current: nat
    var window: nat
    ghost var sys: System

    ghost predicate Valid()
      reads this, pmm, pmm.bitmap, pmm.refs
    {
      && pmm.Valid()
      && sys.m.frames == pmm.frames
      && sys.m.mem == mem && |mem| == MAX_PHYS_PAGES
      && sys.current == current && sys.window == window
      && Represents(live, spaces, sys)
    }

    /** `vmm_init`. */
    constructor (pmm: PageAllocator, mem: seq<Page>)
      requires pmm.Valid() && Balanced(pmm.frames) && Owned(pmm.frames.refs) == {} && |mem| == MAX_PHYS_PAGES
      ensures Valid() && this.pmm == pmm && sys == Boot(pmm.frames, mem) && SysInv(sys)
    {
      this.pmm, this.mem := pmm, mem;
      live := seq(MAX_SPACES, _ => false);
      spaces := seq(MAX_SPACES, _ => EmptySpace().(refs := 0));
      current, window := MAX_SPACES, WINDOW_HOME;
      sys := Boot(pmm.frames, mem);
      BootInv(pmm.frames, mem);
    }

    /** `vmm_map_user`: install an entry; pages outside the eight tables are refused. */
    method MapUser(i: nat, k: nat, frame: nat, flags: Flags) returns (ok: bool)
      requires Valid() && i in sys.m.refs
      modifies this`spaces, this`sys
      ensures Valid()
      ensures ok <==> k < USER_PAGES
      ensures sys == if ok then old(sys).(m := old(sys).m.(pt := old(sys).m.pt[Slot(i, k) := Entry(frame, flags)]))
                     else old(sys)
    {
      if k >= USER_PAGES { return false; }
      Put(i, k, Entry(frame, flags));
      return true;
    }

    method Put(i: nat, k: nat, e: Pte)
      requires Valid() && i in sys.m.refs && k < USER_PAGES && e.present && e.user
      modifies this`spaces, this`sys
      ensures Valid()
      ensures sys == old(sys).(m := old(sys).m.(pt := old(sys).m.pt[Slot(i, k) := e]))
    {
      var sp := spaces[i];
      if !sp.tableUsed[k / ENTRIES] {
        sp := sp.(tableUsed := sp.tableUsed[k / ENTRIES := true]);
      }
      assert sp.tableUsed == spaces[i].tableUsed[k / ENTRIES := true];
      ghost var pt := sys.m.pt[Slot(i, k) := e];
      StandsAfterSet(spaces[i], sys.m.pt, i, k, e);
      forall j | j in sys.m.refs && j != i ensures StandsFor(spaces[j], pt, j) {
        StandsElsewhere(spaces[j], sys.m.pt, pt, j);
      }
      spaces := spaces[i := sp.(ptes := sp.ptes[k := e])];
      sys := sys.(m := sys.m.(pt := pt));
    }

    method Erase(i: nat, k: nat)
      requires Valid() && i in sys.m.refs && k < USER_PAGES
      modifies this`spaces, this`sys
      ensures Valid()
      ensures sys == old(sys).(m := old(sys).m.(pt := old(sys).m.pt - {Slot(i, k)}))
    {
      ghost var pt := sys.m.pt - {Slot(i, k)};
      StandsAfterClear(spaces[i], sys.m.pt, i, k);
      forall j | j in sys.m.refs && j != i ensures StandsFor(spaces[j], pt, j) {
        StandsElsewhere(spaces[j], sys.m.pt, pt, j);
      }
      spaces := spaces[i := spaces[i].(ptes := spaces[i].ptes[k := ABSENT])];
      sys := sys.(m := sys.m.(pt := pt));
    }

    /** `vmm_get_user_physical` as a test: the page is present for user mode. */
    method Mapped(i: nat, k: nat) returns (r: bool)
      requires Valid() && i in sys.m.refs
      ensures r <==> Slot(i, k) in sys.m.pt
      ensures r <==> Present(sys, Slot(i, k))
    {
      if k >= USER_PAGES || !spaces[i].tableUsed[k / ENTRIES] {
        assert k < USER_PAGES ==> Stands(spaces[i], sys.m.pt, i, k);
        return false;
      }
      assert Stands(spaces[i], sys.m.pt, i, k);
      var e := spaces[i].ptes[k];
      r := e.present && e.user;
    }

    /** `vmm_unmap_user`. */
    method UnmapUser(i: nat, k: nat) returns (ok: bool)
      requires Valid() && i in sys.m.refs
      modifies this`spaces, this`sys, pmm, pmm.bitmap, pmm.refs
      ensures Valid() && pmm.bitmap == old(pmm.bitmap) && pmm.refs == old(pmm.refs)
      ensures ok <==> Slot(i, k) in old(sys).m.pt
      ensures sys == old(sys).(m := Unmap(old(sys).m, Slot(i, k)))
    {
      if k >= USER_PAGES { return false; }
      assert Stands(spaces[i], sys.m.pt, i, k);
      if !spaces[i].tableUsed[k / ENTRIES] || !spaces[i].ptes[k].present { return false; }
      pmm.FreePage(spaces[i].ptes[k].frame);
      sys := sys.(m := sys.m.(frames := pmm.frames));
      Erase(i, k);
      return true;
    }

    /** `pmm_alloc_page`, as the manager calls it. */
    method TakeFrame() returns (p: nat)
      requires Valid()
      modifies this`sys, pmm, pmm.bitmap, pmm.refs
      ensures Valid() && pmm.bitmap == old(pmm.bitmap) && pmm.refs == old(pmm.refs)
      ensures (sys, p) ==
              (old(sys).(m := old(sys).m.(frames := Alloc(old(sys).m.frames).0)), Alloc(old(sys).m.frames).1)
    {
      hide Represents, Alloc;
      p := pmm.AllocPage();
      AnyMemory(live, spaces, sys, pmm.frames, mem);
      sys := sys.(m := sys.m.(frames := pmm.frames));
    }

    /** `pmm_free_page`, as the manager calls it. */
    method GiveFrame(p: nat)
      requires Valid()
      modifies this`sys, pmm, pmm.bitmap, pmm.refs
      ensures Valid() && pmm.bitmap == old(pmm.bitmap) && pmm.refs == old(pmm.refs)
      ensures sys == old(sys).(m := old(sys).m.(frames := Free(old(sys).m.frames, p)))
    {
      hide Represents, Free;
      pmm.FreePage(p);
      AnyMemory(live, spaces, sys, pmm.frames, mem);
      sys := sys.(m := sys.m.(frames := pmm.frames));
    }

    /** The first frame, mapped; a page outside the tables gives the frame straight back. */
    method MapFreshPage(i: nat, k: nat, flags: Flags) returns (ok: bool)
      requires Valid() && i in sys.m.refs && Balanced(sys.m.frames)
      modifies this`spaces, this`sys, pmm, pmm.bitmap, pmm.refs
      ensures Valid() && pmm.bitmap == old(pmm.bitmap) && pmm.refs == old(pmm.refs)
      ensures ok <==> CanMap(old(sys).m, Slot(i, k))
      ensures sys == old(sys).(m := MapFresh(old(sys).m, Slot(i, k), flags))
      ensures !ok ==> sys == old(sys)
    {
      hide Represents;
      var p := TakeFrame();
      if p == 0 { return false; }
      ok := MapUser(i, k, p, flags);
      if !ok {
        FreeUndoesAlloc(old(sys).m.frames);
        GiveFrame(p);
      }
    }

    /** `vmm_create_address_space`. */
    method CreateSpace() returns (d: nat)
      requires Valid()
      modifies this`live, this`spaces, this`sys
      ensures Valid()
      ensures d == Create(old(sys).m).1
      ensures sys == Adopt(old(sys), Create(old(sys).m), FreshAreas())
    {
      d := 0;
      while d < MAX_SPACES
        invariant d <= MAX_SPACES && Valid() && sys == old(sys)
        invariant FreeSpace(sys.m.refs.Keys, d) == FreeSpace(sys.m.refs.Keys, 0)
      {
        if !live[d] {
          live := live[d := true];
          spaces := spaces[d := EmptySpace()];
          sys := Adopt(sys, Create(sys.m), FreshAreas());
          assert StandsFor(EmptySpace(), sys.m.pt, d) by {
            forall k: nat | k < USER_PAGES ensures Stands(EmptySpace(), sys.m.pt, d, k) { }
          }
          return;
        }
        d := d + 1;
      }
    }

    /** `vmm_retain_address_space`. */
    method RetainSpace(i: nat)
      requires Valid() && i in sys.m.refs
      modifies this`spaces, this`sys
      ensures Valid()
      ensures sys == old(sys).(m := old(sys).m.(refs := old(sys).m.refs[i := old(sys).m.refs[i] + 1]))
    {
      SetRefs(i, spaces[i].refs + 1);
    }

    method SetRefs(i: nat, n: nat)
      requires Valid() && i in sys.m.refs
      modifies this`spaces, this`sys
      ensures Valid()
      ensures sys == old(sys).(m := old(sys).m.(refs := old(sys).m.refs[i := n]))
    {
      var sp := spaces[i].(refs := n);
      assert StandsFor(sp, sys.m.pt, i) by {
        forall k: nat | k < USER_PAGES ensures Stands(sp, sys.m.pt, i, k) { assert Stands(spaces[i], sys.m.pt, i, k); }
      }
      spaces := spaces[i := sp];
      sys := sys.(m := sys.m.(refs := sys.m.refs[i := n]));
    }

    /** The loops of `vmm_destroy_address_space`: one free for every present entry. */
    method ReleasePages(i: nat)
      requires Valid() && i in sys.m.refs
      modifies pmm, pmm.bitmap, pmm.refs
      ensures pmm.Valid() && pmm.bitmap == old(pmm.bitmap) && pmm.refs == old(pmm.refs)
      ensures pmm.frames == UnmapRun(sys.m, i, 0, USER_PAGES).frames
    {
      for t := 0 to TABLES
        invariant pmm.Valid() && pmm.bitmap == old(pmm.bitmap) && pmm.refs == old(pmm.refs)
        invariant pmm.frames == UnmapRun(sys.m, i, 0, t * ENTRIES).frames
      {
        if spaces[i].tableUsed[t] {
          ReleaseTable(i, t);
        } else {
          AbsentTable(spaces[i], sys.m.pt, i, t);
          UnmapSkip(sys.m, i, t * ENTRIES, ENTRIES);
        }
      }
    }

    method ReleaseTable(i: nat, t: nat)
      requires pmm.Valid() && Represents(live, spaces, sys) && i in sys.m.refs && t < TABLES
      requires WellFormed(sys.m.frames) && pmm.frames == UnmapRun(sys.m, i, 0, t * ENTRIES).frames
      modifies pmm, pmm.bitmap, pmm.refs
      ensures pmm.Valid() && pmm.bitmap == old(pmm.bitmap) && pmm.refs == old(pmm.refs)
      ensures pmm.frames == UnmapRun(sys.m, i, 0, (t + 1) * ENTRIES).frames
    {
      hide UnmapRun, Free;
      for j := 0 to ENTRIES
        invariant pmm.Valid() && pmm.bitmap == old(pmm.bitmap) && pmm.refs == old(pmm.refs)
        invariant pmm.frames == UnmapRun(sys.m, i, 0, t * ENTRIES + j).frames
      {
        var k := t * ENTRIES + j;
        assert Stands(spaces[i], sys.m.pt, i, k);
        UnmapRunNext(sys.m, i, k);
        if spaces[i].ptes[k].present {
          pmm.FreePage(spaces[i].ptes[k].frame);
        }
      }
    }

    /** `vmm_destroy_address_space`; a space without owners is left alone. */
    method Destroy(i: nat)
      requires Valid() && i < MAX_SPACES
      modifies this`live, this`spaces, this`current, this`sys, pmm, pmm.bitmap, pmm.refs
      ensures Valid() && pmm.bitmap == old(pmm.bitmap) && pmm.refs == old(pmm.refs)
      ensures sys == if i in old(sys).m.refs && old(sys).m.refs[i] > 0 then DestroySpace(old(sys), i) else old(sys)
    {
      if spaces[i].refs == 0 { return; }
      if spaces[i].refs > 1 {
        SetRefs(i, spaces[i].refs - 1);
        return;
      }
      ghost var was := sys;
      if current == i {
        current := MAX_SPACES;
        sys := sys.(current := MAX_SPACES);
      }
      ReleasePages(i);
      RepresentsDestroyed(live, spaces, was, i);
      spaces := spaces[i := spaces[i].(refs := 0)];
      live := live[i := false];
      sys := DestroySpace(was, i);
    }

    // -------------------------------------------------------------- clones

    method SetAreas(i: nat, areas: seq<Area>)
      requires Valid() && i in sys.m.refs && |areas| == MAX_VMAS
      modifies this`spaces, this`sys
      ensures Valid()
      ensures sys == old(sys).(areas := old(sys).areas[i := areas])
    {
      var sp := spaces[i].(areas := areas);
      assert StandsFor(sp, sys.m.pt, i) by {
        forall k: nat | k < USER_PAGES ensures Stands(sp, sys.m.pt, i, k) { assert Stands(spaces[i], sys.m.pt, i, k); }
      }
      spaces := spaces[i := sp];
      sys := sys.(areas := sys.areas[i := areas]);
    }

    method CopyAreas(src: nat, d: nat)
      requires Valid() && src in sys.areas && d in sys.areas
      modifies this`spaces, this`sys
      ensures Valid()
      ensures sys == old(sys).(areas := old(sys).areas[d := old(sys).areas[src]])
    {
      assert StandsFor(spaces[src], sys.m.pt, src);
      SetAreas(d, spaces[src].areas);
    }

    /** Record a mapped interval in the first unused area. */
    method AddArea(i: nat, base: nat, pages: nat, flags: Flags)
      requires Valid() && i in sys.areas && |sys.areas[i]| == MAX_VMAS && FirstFree(sys.areas[i], 0) < MAX_VMAS
      modifies this`spaces, this`sys
      ensures Valid()
      ensures sys == WithArea(old(sys), i, base, pages, flags)
    {
      var slot := FindFree(spaces[i].areas);
      SetAreas(i, Insert(spaces[i].areas, slot, base, base + pages * PAGE_SIZE, flags));
    }

    /** `vmm_clone_address_space_cow`. */
    method ForkCow(src: nat) returns (d: nat)
      requires Valid() && src in sys.m.refs && src in sys.areas
      modifies this`live, this`spaces, this`sys, pmm, pmm.bitmap, pmm.refs
      ensures Valid() && pmm.bitmap == old(pmm.bitmap) && pmm.refs == old(pmm.refs)
      ensures d == CloneCow(old(sys).m, src).1
      ensures sys == Adopt(old(sys), CloneCow(old(sys).m, src), old(sys).areas[src])
    {
      hide Represents, ShareUpTo;
      d := CreateSpace();
      if d == MAX_SPACES { return; }
      CopyAreas(src, d);
      ShareTables(src, d);
    }

    method ShareTables(src: nat, d: nat)
      requires Valid() && src != d && src in sys.m.refs && d in sys.m.refs
      modifies this`spaces, this`sys, pmm, pmm.bitmap, pmm.refs
      ensures Valid() && pmm.bitmap == old(pmm.bitmap) && pmm.refs == old(pmm.refs)
      ensures sys == old(sys).(m := ShareUpTo(old(sys).m, src, d, USER_PAGES))
    {
      hide Share;
      ghost var base := sys;
      for t := 0 to TABLES
        invariant Valid() && pmm.bitmap == old(pmm.bitmap) && pmm.refs == old(pmm.refs)
        invariant sys == base.(m := ShareUpTo(base.m, src, d, t * ENTRIES))
      {
        if spaces[src].tableUsed[t] {
          ShareTable(src, d, t, base);
        } else {
          AbsentTable(spaces[src], sys.m.pt, src, t);
          AbsentSource(base.m, src, d, t * ENTRIES, ENTRIES);
          ShareSkip(base.m, src, d, t * ENTRIES, ENTRIES);
        }
      }
    }

    method ShareTable(src: nat, d: nat, t: nat, ghost base: System)
      requires Valid() && src != d && src in sys.m.refs && d in sys.m.refs && t < TABLES
      requires WellFormed(base.m.frames) && sys == base.(m := ShareUpTo(base.m, src, d, t * ENTRIES))
      modifies this`spaces, this`sys, pmm, pmm.bitmap, pmm.refs
      ensures Valid() && pmm.bitmap == old(pmm.bitmap) && pmm.refs == old(pmm.refs)
      ensures sys == base.(m := ShareUpTo(base.m, src, d, (t + 1) * ENTRIES))
    {
      hide Valid, Share;
      for j := 0 to ENTRIES
        invariant Valid() && pmm.bitmap == old(pmm.bitmap) && pmm.refs == old(pmm.refs)
        invariant sys == base.(m := ShareUpTo(base.m, src, d, t * ENTRIES + j))
      {
        ShareEntry(src, d, t * ENTRIES + j);
      }
    }

    /** One round of the clone loop; the inner `vmm_map_user` cannot fail. */
    method ShareEntry(src: nat, d: nat, k: nat)
      requires Valid() && src in sys.m.refs && d in sys.m.refs && k < USER_PAGES
      modifies this`spaces, this`sys, pmm, pmm.bitmap, pmm.refs
      ensures Valid() && pmm.bitmap == old(pmm.bitmap) && pmm.refs == old(pmm.refs)
      ensures sys == old(sys).(m := Share(old(sys).m, Slot(src, k), Slot(d, k)))
    {
      assert Stands(spaces[src], sys.m.pt, src, k);
      var e := spaces[src].ptes[k];
      if e.present {
        Put(src, k, Shared(e));
        var ok := MapUser(d, k, e.frame, Flags(false, true, e.other));
        assert ok;
        pmm.RetainPage(e.frame);
        sys := sys.(m := sys.m.(frames := pmm.frames));
      }
    }

    /** `vmm_clone_address_space`: a full copy, or the half-made space torn down again. */
    method ForkEager(src: nat) returns (d: nat)
      requires Valid() && SysInv(sys) && src in sys.m.refs
      modifies this`live, this`spaces, this`mem, this`current, this`sys, pmm, pmm.bitmap, pmm.refs
      ensures Valid() && pmm.bitmap == old(pmm.bitmap) && pmm.refs == old(pmm.refs)
      ensures d == CloneEager(old(sys).m, src).1
      ensures sys == Adopt(old(sys), CloneEager(old(sys).m, src), old(sys).areas[src])
    {
      hide Represents, CopyUpTo, CanCopy, Inv;
      d := CreateSpace();
      if d == MAX_SPACES { return; }
      CopyAreas(src, d);
      var ok := CopyTables(src, d);
      if !ok {
        ghost var made := d;
        Destroy(d);
        d := MAX_SPACES;
        assert old(sys).areas[made := old(sys).areas[src]] - {made} == old(sys).areas;
      }
    }

    method CopyTables(src: nat, d: nat) returns (ok: bool)
      requires Valid() && src != d && src in sys.m.refs && d in sys.m.refs
      modifies this`spaces, this`mem, this`sys, pmm, pmm.bitmap, pmm.refs
      ensures Valid() && pmm.bitmap == old(pmm.bitmap) && pmm.refs == old(pmm.refs)
      ensures ok <==> CanCopy(old(sys).m, src, d, USER_PAGES)
      ensures sys == old(sys).(m := CopyUpTo(old(sys).m, src, d, Reached(old(sys).m, src, d, USER_PAGES)))
    {
      hide Copy, CanMap;
      ghost var base := sys;
      for t := 0 to TABLES
        invariant Valid() && pmm.bitmap == old(pmm.bitmap) && pmm.refs == old(pmm.refs)
        invariant CanCopy(base.m, src, d, t * ENTRIES)
        invariant sys == base.(m := CopyUpTo(base.m, src, d, t * ENTRIES))
      {
        if spaces[src].tableUsed[t] {
          ok := CopyTable(src, d, t, base);
          if !ok { return; }
        } else {
          AbsentTable(spaces[src], sys.m.pt, src, t);
          AbsentOriginal(base.m, src, d, t * ENTRIES, ENTRIES);
          CopySkip(base.m, src, d, t * ENTRIES, ENTRIES);
        }
      }
      ok := true;
    }

    method CopyTable(src: nat, d: nat, t: nat, ghost base: System) returns (ok: bool)
      requires Valid() && src != d && src in sys.m.refs && d in sys.m.refs && t < TABLES
      requires WellFormed(base.m.frames) && CanCopy(base.m, src, d, t * ENTRIES)
      requires sys == base.(m := CopyUpTo(base.m, src, d, t * ENTRIES))
      modifies this`spaces, this`mem, this`sys, pmm, pmm.bitmap, pmm.refs
      ensures Valid() && pmm.bitmap == old(pmm.bitmap) && pmm.refs == old(pmm.refs)
      ensures ok ==> CanCopy(base.m, src, d, (t + 1) * ENTRIES)
                     && sys == base.(m := CopyUpTo(base.m, src, d, (t + 1) * ENTRIES))
      ensures !ok ==> !CanCopy(base.m, src, d, USER_PAGES)
                      && sys == base.(m := CopyUpTo(base.m, src, d, Reached(base.m, src, d, USER_PAGES)))
    {
      hide Valid, Copy, CanMap;
      for j := 0 to ENTRIES
        invariant Valid() && pmm.bitmap == old(pmm.bitmap) && pmm.refs == old(pmm.refs)
        invariant CanCopy(base.m, src, d, t * ENTRIES + j)
        invariant sys == base.(m := CopyUpTo(base.m, src, d, t * ENTRIES + j))
      {
        CopySource(base.m, src, d, t * ENTRIES + j, t * ENTRIES + j);
        ok := CopyEntry(src, d, t * ENTRIES + j);
        if !ok {
          ReachedAt(base.m, src, d, t * ENTRIES + j, USER_PAGES);
          return;
        }
      }
      ok := true;
    }

    /** One round of the eager loop: a frame, an entry with the source's flags, and the page's contents. */
    method CopyEntry(src: nat, d: nat, k: nat) returns (ok: bool)
      requires Valid() && src != d && src in sys.m.refs && d in sys.m.refs && k < USER_PAGES
      modifies this`spaces, this`mem, this`sys, pmm, pmm.bitmap, pmm.refs
      ensures Valid() && pmm.bitmap == old(pmm.bitmap) && pmm.refs == old(pmm.refs)
      ensures ok <==> (Slot(src, k) in old(sys).m.pt ==> CanMap(old(sys).m, Slot(d, k)))
      ensures sys == old(sys).(m := Copy(old(sys).m, Slot(src, k), Slot(d, k)))
      ensures !ok ==> sys == old(sys)
    {
      hide Represents;
      EntryIs(live, spaces, sys, src, k);
      var e := spaces[src].ptes[k];
      if !e.present { return true; }
      var p := TakeFrame();
      if p == 0 { return false; }
      ok := MapUser(d, k, p, Flags(e.write, e.cow, e.other));
      assert ok;
      var contents := mem[p := FrameContents(mem, e.frame)];
      AnyMemory(live, spaces, sys, sys.m.frames, contents);
      mem := contents;
      sys := sys.(m := sys.m.(mem := mem));
    }

    // -------------------------------------------------------------- ranges

    /** The pages of space `i` that are present for user mode. */
    method BusySet(i: nat) returns (busy: set<nat>)
      requires Valid() && i in sys.m.refs
      ensures busy == BusyPages(sys.m.pt, i)
    {
      var sp := spaces[i];
      busy := set k | 0 <= k < USER_PAGES && sp.ptes[k].present && sp.ptes[k].user :: FIRST_USER_PAGE + k;
      forall k: nat | k < USER_PAGES
        ensures Slot(i, k) in sys.m.pt <==> sp.ptes[k].present && sp.ptes[k].user
      {
        assert Stands(sp, sys.m.pt, i, k);
      }
      forall v ensures v in busy <==> v in BusyPages(sys.m.pt, i) {
        if v in BusyPages(sys.m.pt, i) {
          var x :| x in sys.m.pt && x.space == i && v == FIRST_USER_PAGE + x.page;
          assert Slot(i, x.page) in sys.m.pt;
        }
        if v in busy {
          var k :| 0 <= k < USER_PAGES && sp.ptes[k].present && sp.ptes[k].user && v == FIRST_USER_PAGE + k;
          assert Slot(i, k) in sys.m.pt;
        }
      }
    }

    /** The checks both mapping calls make before they commit. */
    method ChooseBase(i: nat, busy: set<nat>, virt: nat, pages: nat) returns (ok: bool, base: nat)
      requires Valid() && i in sys.areas && WellPlaced(sys.areas[i]) && virt < WORD
      ensures ok ==> Chosen(sys, i, busy, virt, pages, base)
      ensures !ok ==> forall b: nat :: !Chosen(sys, i, busy, virt, pages, b)
    {
      base := virt;
      if pages == 0 || pages > MAX_RANGE_PAGES { return false, 0; }
      var areas := spaces[i].areas;
      if base == 0 {
        base := Place(areas, busy, pages);
      }
      OutOfRangeIff(base, pages);
      var end := RangeEnd(base, pages);
      if base % PAGE_SIZE != 0 || base < USER_LOW || base >= USER_HIGH || OutOfRange(base, end) { return false, 0; }
      var overlap := FindOverlap(areas, base, end);
      if overlap { return false, 0; }
      var taken := FindBusy(busy, base / PAGE_SIZE, pages);
      if taken { return false, 0; }
      var slot := FindFree(areas);
      if slot == MAX_VMAS { return false, 0; }
      ok := true;
    }

    /** The allocation loop of `vmm_map_range`: every page, or everything undone. */
    method FillRun(i: nat, first: nat, pages: nat, flags: Flags) returns (ok: bool)
      requires Valid() && SysInv(sys) && i in sys.m.refs
      requires forall x | x in RunSlots(i, first, pages) :: x !in sys.m.pt
      modifies this`spaces, this`sys, pmm, pmm.bitmap, pmm.refs
      ensures Valid() && pmm.bitmap == old(pmm.bitmap) && pmm.refs == old(pmm.refs)
      ensures ok <==> CanMapRun(old(sys).m, i, first, pages, flags)
      ensures sys == if ok then old(sys).(m := MapRun(old(sys).m, i, first, pages, flags)) else old(sys)
    {
      hide Valid, MapFresh, WellPlaced;
      ghost var was := sys;
      for n := 0 to pages
        invariant Valid() && pmm.bitmap == old(pmm.bitmap) && pmm.refs == old(pmm.refs)
        invariant CanMapRun(was.m, i, first, n, flags)
        invariant sys == was.(m := MapRun(was.m, i, first, n, flags))
      {
        MapRunKeeps(was.m, i, first, n, flags);
        ok := MapFreshPage(i, first + n, flags);
        if !ok {
          CannotMapMore(was.m, i, first, n, pages, flags);
          Undo(i, first, n, flags, was);
          return;
        }
      }
      ok := true;
    }

    /** The rollback: pages leave in the reverse order of their arrival. */
    method Undo(i: nat, first: nat, count: nat, flags: Flags, ghost was: System)
      requires Valid() && Inv(was.m) && i in was.m.refs && CanMapRun(was.m, i, first, count, flags)
      requires forall x | x in RunSlots(i, first, count) :: x !in was.m.pt
      requires sys == was.(m := MapRun(was.m, i, first, count, flags))
      modifies this`spaces, this`sys, pmm, pmm.bitmap, pmm.refs
      ensures Valid() && pmm.bitmap == old(pmm.bitmap) && pmm.refs == old(pmm.refs)
      ensures sys == was
    {
      hide Valid, Exact, Private, Owned, Clear, MapFresh, Unmap;
      var n: nat := count;
      while n > 0
        invariant n <= count && Valid() && pmm.bitmap == old(pmm.bitmap) && pmm.refs == old(pmm.refs)
        invariant CanMapRun(was.m, i, first, n, flags)
        invariant sys == was.(m := MapRun(was.m, i, first, n, flags))
      {
        MapRunUndone(was.m, i, first, n, flags);
        n := n - 1;
        var _ := UnmapUser(i, first + n);
      }
    }

    /** `vmm_map_range`: all the pages and the area, or nothing at all. */
    method MapPages(i: nat, virt: nat, pages: nat, flags: Flags) returns (ok: bool, base: nat)
      requires Valid() && SysInv(sys) && i in sys.m.refs && virt < WORD
      modifies this`spaces, this`sys, pmm, pmm.bitmap, pmm.refs
      ensures Valid() && pmm.bitmap == old(pmm.bitmap) && pmm.refs == old(pmm.refs)
      ensures ok ==> RangeMaps(old(sys), i, virt, pages, flags, base)
                     && sys == MapRange(old(sys), i, virt, pages, flags, base)
      ensures !ok ==> sys == old(sys) && forall b: nat :: !RangeMaps(sys, i, virt, pages, flags, b)
    {
      hide Represents, Inv, CanMapRun, MapRun, LowestFit, Fits;
      ghost var was := sys;
      var busy := BusySet(i);
      ok, base := ChooseBase(i, busy, virt, pages);
      if !ok { return; }
      ChosenRange(sys, i, busy, virt, pages, base);
      NotBusy(sys.m.pt, i, base, pages);
      ok := FillRun(i, FirstOf(base), pages, flags.(write := true));
      if ok {
        AddArea(i, base, pages, flags);
      } else {
        forall b: nat ensures !RangeMaps(was, i, virt, pages, flags, b) {
          if RangeMaps(was, i, virt, pages, flags, b) { ChosenUnique(was, i, busy, virt, pages, base, b); }
        }
      }
    }

    /** `vmm_map_lazy_range`. */
    method MapLazy(i: nat, virt: nat, pages: nat, flags: Flags) returns (ok: bool, base: nat)
      requires Valid() && SysInv(sys) && i in sys.m.refs && virt < WORD
      modifies this`spaces, this`sys
      ensures Valid()
      ensures ok ==> Chosen(old(sys), i, {}, virt, pages, base) && sys == WithArea(old(sys), i, base, pages, flags)
      ensures !ok ==> sys == old(sys) && forall b: nat :: !Chosen(sys, i, {}, virt, pages, b)
    {
      ok, base := ChooseBase(i, {}, virt, pages);
      if ok { AddArea(i, base, pages, flags); }
    }

    /** The tail of `vmm_unmap_range`: whole, head, tail or middle of the area. */
    method CutArea(i: nat, k: nat, lo: nat, hi: nat)
      requires Valid() && i in sys.areas && |sys.areas[i]| == MAX_VMAS && k < MAX_VMAS
      modifies this`spaces, this`sys
      ensures Valid()
      ensures sys == old(sys).(areas := old(sys).areas[i := Cut(old(sys).areas[i], k, lo, hi)])
    {
      var areas := spaces[i].areas;
      var a := areas[k];
      if lo == a.start && hi == a.end {
        areas := areas[k := a.(used := false)];
      } else if lo == a.start {
        areas := areas[k := a.(start := hi)];
      } else if hi == a.end {
        areas := areas[k := a.(end := lo)];
      } else {
        var j := FindFree(areas);
        if j < MAX_VMAS { areas := areas[j := a.(start := hi)][k := a.(end := lo)]; }
      }
      SetAreas(i, areas);
    }

    method AllMapped(i: nat, first: nat, pages: nat) returns (r: bool)
      requires Valid() && i in sys.m.refs
      ensures r <==> RunSlots(i, first, pages) <= sys.m.pt.Keys
    {
      for j := 0 to pages
        invariant RunSlots(i, first, j) <= sys.m.pt.Keys
      {
        var present := Mapped(i, first + j);
        if !present {
          assert Slot(i, first + j) in RunSlots(i, first, pages);
          return false;
        }
      }
      r := true;
    }

    /** `vmm_unmap_range`. */
    method UnmapPages(i: nat, virt: nat, pages: nat) returns (ok: bool)
      requires Valid() && i in sys.areas && |sys.areas[i]| == MAX_VMAS && virt < WORD
      modifies this`spaces, this`sys, pmm, pmm.bitmap, pmm.refs
      ensures Valid() && pmm.bitmap == old(pmm.bitmap) && pmm.refs == old(pmm.refs)
      ensures ok <==> RangeUnmaps(old(sys), i, virt, pages)
      ensures sys == if ok then UnmapRange(old(sys), i, virt, pages) else old(sys)
    {
      if pages == 0 || virt % PAGE_SIZE != 0 || virt < USER_LOW || virt >= USER_HIGH { return false; }
      var end := RangeEnd(virt, pages);
      if OutOfRange(virt, end) { return false; }
      var present := AllMapped(i, FirstOf(virt), pages);
      if !present { return false; }
      RunBounded(sys.m.pt, i, FirstOf(virt), pages);
      OutOfRangeIff(virt, pages);
      var slot := FindContainer(spaces[i].areas, virt, end);
      if slot == MAX_VMAS { return false; }
      UnmapEach(i, FirstOf(virt), pages);
      CutArea(i, slot, virt, end);
      ok := true;
    }

    method UnmapEach(i: nat, first: nat, pages: nat)
      requires Valid() && i in sys.m.refs
      modifies this`spaces, this`sys, pmm, pmm.bitmap, pmm.refs
      ensures Valid() && pmm.bitmap == old(pmm.bitmap) && pmm.refs == old(pmm.refs)
      ensures sys == old(sys).(m := UnmapRun(old(sys).m, i, first, pages))
    {
      hide Represents, Unmap;
      ghost var was := sys;
      for n := 0 to pages
        invariant Valid() && pmm.bitmap == old(pmm.bitmap) && pmm.refs == old(pmm.refs)
        invariant sys == was.(m := UnmapRun(was.m, i, first, n))
      {
        var _ := UnmapUser(i, first + n);
      }
    }

    // -------------------------------------------------------------- faults and validation

    /** `vmm_page_fault`; false where the kernel panics. */
    method HandleFault(write: bool, user: bool, k: nat) returns (ok: bool)
      requires Valid() && window < MAX_PHYS_PAGES
      requires forall i | i in sys.areas :: |sys.areas[i]| == MAX_VMAS
      modifies this`spaces, this`mem, this`window, this`sys, pmm, pmm.bitmap, pmm.refs
      ensures Valid() && pmm.bitmap == old(pmm.bitmap) && pmm.refs == old(pmm.refs)
      ensures ok <==> PageFault(old(sys), write, user, k).Resolved?
      ensures ok ==> sys == PageFault(old(sys), write, user, k).s && window < MAX_PHYS_PAGES
      ensures SysInv(old(sys)) ==> (ok <==> Resolvable(old(sys), write, user, k))
    {
      hide SysInv, Resolvable;
      if SysInv(sys) { FaultResolvesIff(sys, write, user, k); }
      if current < MAX_SPACES && live[current] && k < USER_PAGES {
        var slot := FindContainer(spaces[current].areas, Address(k), Address(k) + 1);
        var present := Mapped(current, k);
        if slot < MAX_VMAS && !present {
          ok := DemandPage(k, spaces[current].areas[slot].flags);
          return;
        }
        if write && user {
          assert Stands(spaces[current], sys.m.pt, current, k);
          if spaces[current].tableUsed[k / ENTRIES] && spaces[current].ptes[k].cow && spaces[current].ptes[k].present {
            ok := BreakCow(k);
            return;
          }
        }
      }
      ok := false;
    }

    method DemandPage(k: nat, flags: Flags) returns (ok: bool)
      requires Valid() && current in sys.m.refs && k < USER_PAGES && window < MAX_PHYS_PAGES
      requires TakesDemand(sys, k) && flags == sys.areas[current][DemandArea(sys, k)].flags
      modifies this`spaces, this`mem, this`window, this`sys, pmm, pmm.bitmap, pmm.refs
      ensures Valid() && pmm.bitmap == old(pmm.bitmap) && pmm.refs == old(pmm.refs)
      ensures ok <==> Demand(old(sys), k).Resolved?
      ensures ok ==> sys == Demand(old(sys), k).s && window < MAX_PHYS_PAGES
    {
      var p := pmm.AllocPage();
      sys := sys.(m := sys.m.(frames := pmm.frames));
      if p == 0 { return false; }
      mem := mem[window := ZeroPage()];
      window := p;
      sys := sys.(m := sys.m.(mem := mem), window := p);
      var mapped := MapUser(current, k, p, flags.(write := true));
      pmm.FreePage(p);
      sys := sys.(m := sys.m.(frames := pmm.frames));
      ok := true;
    }

    /** The COW branch: copy through the window, install the private page, drop the shared one. */
    method BreakCow(k: nat) returns (ok: bool)
      requires Valid() && Slot(current, k) in sys.m.pt
      modifies this`spaces, this`mem, this`window, this`sys, pmm, pmm.bitmap, pmm.refs
      ensures Valid() && pmm.bitmap == old(pmm.bitmap) && pmm.refs == old(pmm.refs)
      ensures ok <==> Alloc(old(sys).m.frames).1 != 0
      ensures ok ==> sys == old(sys).(m := Split(old(sys).m, Slot(current, k)), window := WINDOW_HOME)
                     && window < MAX_PHYS_PAGES
    {
      assert Stands(spaces[current], sys.m.pt, current, k);
      var from := spaces[current].ptes[k].frame;
      var p := pmm.AllocPage();
      sys := sys.(m := sys.m.(frames := pmm.frames));
      if p == 0 { return false; }
      window := from;
      var copyPage := FrameContents(mem, window);
      window := p;
      mem := mem[window := copyPage];
      window := WINDOW_HOME;
      sys := sys.(m := sys.m.(mem := mem), window := WINDOW_HOME);
      Put(current, k, Pte(p, true, true, true, false, 0));
      pmm.FreePage(from);
      sys := sys.(m := sys.m.(frames := pmm.frames));
      ok := true;
    }

    ghost predicate Sized()
      reads this
    {
      window < MAX_PHYS_PAGES && forall i | i in sys.areas :: |sys.areas[i]| == MAX_VMAS
    }

    /** The second half of a round: the entry must be there, and writable after at most one COW fault. */
    method InspectEntry(i: nat, k: nat, write: bool) returns (answer: int)
      requires Valid() && Sized() && i in sys.m.refs
      modifies this`spaces, this`mem, this`window, this`sys, pmm, pmm.bitmap, pmm.refs
      ensures Valid() && pmm.bitmap == old(pmm.bitmap) && pmm.refs == old(pmm.refs)
      ensures answer == Code(CheckEntry(old(sys), Slot(i, k), write))
      ensures answer != HALT ==> sys == CheckEntry(old(sys), Slot(i, k), write).s && Sized()
    {
      hide Present;
      var present := Mapped(i, k);
      if !present { return REJECT; }
      assert Stands(spaces[i], sys.m.pt, i, k);
      if write && !spaces[i].ptes[k].write {
        if !spaces[i].ptes[k].cow { return REJECT; }
        var ok := HandleFault(true, true, k);
        if !ok { return HALT; }
        assert Stands(spaces[i], sys.m.pt, i, k);
        if !spaces[i].ptes[k].write { return REJECT; }
      }
      return ACCEPT;
    }

    /** One round of the validation loop. */
    method InspectPage(i: nat, k: nat, write: bool) returns (answer: int)
      requires Valid() && Sized() && i in sys.m.refs && i in sys.areas
      modifies this`spaces, this`mem, this`window, this`sys, pmm, pmm.bitmap, pmm.refs
      ensures Valid() && pmm.bitmap == old(pmm.bitmap) && pmm.refs == old(pmm.refs)
      ensures answer == Code(CheckPage(old(sys), i, k, write))
      ensures answer != HALT ==> sys == CheckPage(old(sys), i, k, write).s && Sized()
    {
      hide Present, PageFault, CheckEntry, WellPlaced;
      var present := Mapped(i, k);
      if !present {
        var slot := FindContainer(spaces[i].areas, Address(k), Address(k) + 1);
        if slot < MAX_VMAS {
          var ok := HandleFault(write, true, k);
          if !ok { return HALT; }
        }
      }
      answer := InspectEntry(i, k, write);
    }

    /** `vmm_validate_user_ptr`. */
    method Validate(i: nat, virt: nat, len: nat, write: bool) returns (answer: int)
      requires Valid() && Sized() && i in sys.m.refs && i in sys.areas
      modifies this`spaces, this`mem, this`window, this`sys, pmm, pmm.bitmap, pmm.refs
      ensures Valid() && pmm.bitmap == old(pmm.bitmap) && pmm.refs == old(pmm.refs)
      ensures !UserRange(virt, len) ==> answer == REJECT && sys == old(sys)
      ensures UserRange(virt, len) ==>
                var v := CheckRun(old(sys), i, FirstOf(virt), PagesTouched(virt, len), write);
                answer == Code(v) && (answer != HALT ==> sys == v.s)
      ensures UserRange(virt, len) && SysInv(old(sys)) && i == old(sys).current ==>
                var first, n := FirstOf(virt), PagesTouched(virt, len);
                OffDemand(old(sys), first, n) ==>
                  (answer == ACCEPT <==> forall j: nat | j < n :: Fine(old(sys), first, j, write))
    {
      hide SysInv, CheckRun, Fine, OffDemand, PagesTouched, FirstOf;
      if UserRange(virt, len) && SysInv(sys) && i == sys.current {
        ghost var first, n := FirstOf(virt), PagesTouched(virt, len);
        if OffDemand(sys, first, n) { AcceptsIff(sys, first, n, write); }
      }
      if len == 0 || virt < USER_LOW || virt >= USER_HIGH || len > USER_HIGH - virt { return REJECT; }
      FirstRound(virt, len);
      answer := ValidateLoop(i, virt, len, write);
    }

    method ValidateLoop(i: nat, virt: nat, len: nat, write: bool) returns (answer: int)
      requires Valid() && WellFormed(sys.m.frames) && Sized() && i in sys.m.refs && i in sys.areas
      requires UserRange(virt, len)
      requires PagesTouched(virt, len) > 0 && virt - virt % PAGE_SIZE == Address(FirstOf(virt))
      modifies this`spaces, this`mem, this`window, this`sys, pmm, pmm.bitmap, pmm.refs
      ensures Valid() && pmm.bitmap == old(pmm.bitmap) && pmm.refs == old(pmm.refs)
      ensures var v := CheckRun(old(sys), i, FirstOf(virt), PagesTouched(virt, len), write);
              answer == Code(v) && (answer != HALT ==> sys == v.s)
    {
      hide Valid, WellFormed, CheckPage, PageFault, FirstOf, Address, PagesTouched;
      var end := virt + len - 1;
      var page := virt - virt % PAGE_SIZE;
      ghost var was, n := sys, 0;
      while true
        invariant Valid() && Sized() && pmm.bitmap == old(pmm.bitmap) && pmm.refs == old(pmm.refs)
        invariant n < PagesTouched(virt, len) && page == Address(FirstOf(virt) + n)
        invariant CheckRun(was, i, FirstOf(virt), n, write) == Accept(sys)
        decreases PagesTouched(virt, len) - n
      {
        AddressStep(FirstOf(virt) + n);
        answer := InspectPage(i, FirstOf(page), write);
        LastRound(virt, len, n);
        if answer != ACCEPT {
          Stops(was, i, FirstOf(virt), n + 1, PagesTouched(virt, len), write);
          return;
        }
        if page > end - PAGE_SIZE { return; }
        page := page + PAGE_SIZE;
        n := n + 1;
      }
    }
  }

  const ACCEPT := 0
  const REJECT := -1
  const HALT := 2

  function Code(v: Verdict): int {
    match v
    case Accept(_) => ACCEPT
    case Reject(_) => REJECT
    case Halt => HALT
  }

  predicate UserRange(virt: nat, len: nat) {
    len > 0 && USER_LOW <= virt < USER_HIGH && virt + len <= USER_HIGH
  }

  /** How many pages the bytes `virt..virt+len` touch. */
  function PagesTouched(virt: nat, len: nat): nat
    requires UserRange(virt, len)
  {
    (virt + len - 1) / PAGE_SIZE - virt / PAGE_SIZE + 1
  }

  lemma AddressStep(k: nat)
    ensures Address(k) >= USER_LOW && FirstOf(Address(k)) == k && Address(k + 1) == Address(k) + PAGE_SIZE
  {
  }

  lemma FirstRound(virt: nat, len: nat)
    requires UserRange(virt, len)
    ensures PagesTouched(virt, len) > 0 && virt - virt % PAGE_SIZE == Address(FirstOf(virt))
  {
  }

  /** The loop's exit test holds in exactly the last of those rounds. */
  lemma LastRound(virt: nat, len: nat, n: nat)
    requires UserRange(virt, len) && n < PagesTouched(virt, len)
    ensures Address(FirstOf(virt) + n) > virt + len - 1 - PAGE_SIZE <==> n + 1 == PagesTouched(virt, len)
  {
  }

  /** Every byte of the range lies in one of the pages touched. */
  lemma TouchedCovers(virt: nat, len: nat, a: nat)
    requires UserRange(virt, len) && virt <= a < virt + len
    ensures FirstOf(virt) <= FirstOf(a) < FirstOf(virt) + PagesTouched(virt, len)
  {
  }

  /** A refusal is final. */
  lemma {:induction false} Stops(s: System, i: nat, k: nat, n: nat, m: nat, write: bool)
    requires WellFormed(s.m.frames) && i in s.areas && |s.areas[i]| == MAX_VMAS
    requires n <= m && !CheckRun(s, i, k, n, write).Accept?
    ensures CheckRun(s, i, k, m, write) == CheckRun(s, i, k, n, write)
  {
    if n == m {
    } else {
      Stops(s, i, k, n, m - 1, write);
    }
  }

  /** Mapped pages are few, so a fully mapped run cannot be long enough to wrap an address. */
  lemma RunBounded(pt: map<Slot, Pte>, i: nat, first: nat, pages: nat)
    requires RunSlots(i, first, pages) <= pt.Keys && forall x | x in pt :: x.page < USER_PAGES
    ensures pages <= USER_PAGES
  {
    if pages > 0 { assert Slot(i, first + pages - 1) in RunSlots(i, first, pages); }
  }

  lemma {:induction false} CannotMapMore(m: Machine, i: nat, first: nat, n: nat, pages: nat, flags: Flags)
    requires WellFormed(m.frames) && n < pages && !CanMapRun(m, i, first, n + 1, flags)
    ensures !CanMapRun(m, i, first, pages, flags)
  {
    if n + 1 == pages {
    } else {
      CannotMapMore(m, i, first, n, pages - 1, flags);
    }
  }

  lemma ChosenUnique(s: System, i: nat, busy: set<nat>, virt: nat, pages: nat, a: nat, b: nat)
    requires i in s.areas && |s.areas[i]| == MAX_VMAS
    requires Chosen(s, i, busy, virt, pages, a) && Chosen(s, i, busy, virt, pages, b)
    ensures a == b
  {
  }

  lemma AbsentSource(m: Machine, s: nat, d: nat, n: nat, len: nat)
    requires WellFormed(m.frames) && s != d && forall x | x in RunSlots(s, n, len) :: x !in ShareUpTo(m, s, d, n).pt
    ensures forall x | x in RunSlots(s, n, len) :: x !in m.pt
  {
    forall x | x in RunSlots(s, n, len) ensures x !in m.pt { ShareSource(m, s, d, n, x.page); }
  }

  lemma AbsentOriginal(m: Machine, s: nat, d: nat, n: nat, len: nat)
    requires WellFormed(m.frames) && s != d && forall x | x in RunSlots(s, n, len) :: x !in CopyUpTo(m, s, d, n).pt
    ensures forall x | x in RunSlots(s, n, len) :: x !in m.pt
  {
    forall x | x in RunSlots(s, n, len) ensures x !in m.pt { CopySource(m, s, d, n, x.page); }
  }

  lemma AbsentTable(sp: Space, pt: map<Slot, Pte>, i: nat, t: nat)
    requires StandsFor(sp, pt, i) && t < TABLES && !sp.tableUsed[t]
    requires forall x | x in pt :: x.page < USER_PAGES
    ensures forall x | x in RunSlots(i, t * ENTRIES, ENTRIES) :: x !in pt
  {
    forall x | x in RunSlots(i, t * ENTRIES, ENTRIES) ensures x !in pt {
      assert Stands(sp, pt, i, x.page);
    }
  }
}
