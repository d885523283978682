/** When mapping, forking and creating succeed (mm/vmm.c). */
module Capacity {
  import opened Pmm
  import opened Cow
  import opened Fork
  import opened Areas
  import opened Paging

  lemma AllocAvailable(f: Frames)
    requires WellFormed(f)
    ensures Alloc(f).1 == 0 <==> |Available(f)| == 0
    ensures Alloc(f).1 != 0 ==> Alloc(f).1 in Available(f)
  {
    if Alloc(f).1 != 0 {
      assert Alloc(f).1 in Available(f);
    } else {
      assert Available(f) == {};
    }
  }

  lemma ClaimAvailable(f: Frames)
    requires WellFormed(f) && Alloc(f).1 != 0
    ensures WellFormed(Alloc(f).0) && |Available(Alloc(f).0)| == |Available(f)| - 1
  {
    var (g, p) := Alloc(f);
    assert p in Available(f) && Available(g) == Available(f) - {p};
  }

  // ---------------------------------------------------------------- mapping

  /** A page that is mapped lies on a frame that was clear, with exactly the permissions asked for. */
  lemma MapGives(m: Machine, x: Slot, flags: Flags)
    requires WellFormed(m.frames)
    ensures CanMap(m, x) <==> |Available(m.frames)| > 0 && x.page < USER_PAGES
    ensures var r := MapFresh(m, x, flags);
            if !CanMap(m, x) then r == m
            else && x in r.pt && r.pt == m.pt[x := r.pt[x]] && r.pt[x].frame in Available(m.frames)
                 && r.pt[x].present && r.pt[x].user
                 && (r.pt[x].write, r.pt[x].cow, r.pt[x].other) == (flags.write, flags.cow, flags.other)
  {
    AllocAvailable(m.frames);
  }

  /** A run of pages can be mapped exactly when it ends inside the tables and there are frames enough. */
  lemma {:induction false} RunMapsIff(m: Machine, i: nat, first: nat, n: nat, flags: Flags)
    requires WellFormed(m.frames)
    ensures CanMapRun(m, i, first, n, flags) <==>
            n == 0 || (first + n <= USER_PAGES && n <= |Available(m.frames)|)
    ensures CanMapRun(m, i, first, n, flags) ==>
            |Available(MapRun(m, i, first, n, flags).frames)| == |Available(m.frames)| - n
  {
    hide Available, Alloc, WellFormed;
    if n == 0 {
    } else {
      RunMapsIff(m, i, first, n - 1, flags);
      var r := MapRun(m, i, first, n - 1, flags);
      AllocAvailable(r.frames);
      if Alloc(r.frames).1 != 0 { ClaimAvailable(r.frames); }
    }
  }

  /** Every page of the run gets the permissions asked for. */
  lemma {:induction false} RunGives(m: Machine, i: nat, first: nat, n: nat, flags: Flags, x: Slot)
    requires WellFormed(m.frames) && CanMapRun(m, i, first, n, flags) && x in RunSlots(i, first, n)
    ensures var r := MapRun(m, i, first, n, flags);
            x in r.pt && r.pt[x] == Pte(r.pt[x].frame, true, flags.write, true, flags.cow, flags.other)
  {
    hide Alloc, WellFormed;
    if x.page < first + n - 1 { RunGives(m, i, first, n - 1, flags, x); } else {
    }
  }

  /** The range ends in user space, no area covers an address of it, and no page of it is mapped. */
  ghost predicate Vacant(s: System, i: nat, base: nat, pages: nat)
    requires i in s.areas
  {
    && base + pages * 4096 <= 0xc000_0000
    && (forall a: nat | base <= a < base + pages * 4096 :: !Covered(s.areas[i], a))
    && forall k: nat | base / 4096 <= 1024 + k < base / 4096 + pages :: Slot(i, k) !in s.m.pt
  }

  lemma FitsIff(s: System, i: nat, base: nat, pages: nat)
    requires SysInv(s) && i in s.areas && base >= USER_LOW && pages > 0
    ensures Fits(s.areas[i], BusyPages(s.m.pt, i), base, pages) <==> Vacant(s, i, base, pages)
  {
    hide Inv, Covered, Overlaps;
    OverlapsIff(s.areas[i], base, base + pages * PAGE_SIZE);
    var busy := BusyPages(s.m.pt, i);
    forall k: nat ensures Slot(i, k) in s.m.pt <==> FIRST_USER_PAGE + k in busy {
      if FIRST_USER_PAGE + k in busy {
        var x :| x in s.m.pt && x.space == i && FIRST_USER_PAGE + x.page == FIRST_USER_PAGE + k;
        assert x == Slot(i, k);
      }
    }
    if v :| v in busy && base / PAGE_SIZE <= v < base / PAGE_SIZE + pages {
      assert Slot(i, v - FIRST_USER_PAGE) in s.m.pt;
    }
  }

  /**
    The base for a range: the address given, if it is aligned and the range vacant, or else the first
    vacant page from 0x01000000 on; in both cases an area slot must be free.
   */
  lemma ChosenIff(s: System, i: nat, virt: nat, pages: nat, base: nat)
    requires SysInv(s) && i in s.areas
    ensures Chosen(s, i, BusyPages(s.m.pt, i), virt, pages, base) <==>
            && 0 < pages <= 0x80000 && (exists j: nat :: j < MAX_VMAS && !s.areas[i][j].used)
            && base % 4096 == 0 && Vacant(s, i, base, pages)
            && if virt != 0 then base == virt && 0x0040_0000 <= virt
               else && 0x0100_0000 <= base
                    && forall b: nat | 0x0100_0000 <= b < base && b % 4096 == 0 :: !Vacant(s, i, b, pages)
  {
    hide Inv, Covered, Overlaps, Fits, Vacant, WellPlaced;
    AreasCount(s, i);
    if pages > 0 {
      forall b: nat | b >= USER_LOW
        ensures Fits(s.areas[i], BusyPages(s.m.pt, i), b, pages) <==> Vacant(s, i, b, pages)
      {
        FitsIff(s, i, b, pages);
      }
    }
  }

  /** A range maps at the base chosen for it exactly when it ends inside the tables and there are frames enough. */
  lemma RangeMapsIff(s: System, i: nat, virt: nat, pages: nat, flags: Flags, base: nat)
    requires SysInv(s) && i in s.areas
    ensures RangeMaps(s, i, virt, pages, flags, base) <==>
            && Chosen(s, i, BusyPages(s.m.pt, i), virt, pages, base)
            && base + pages * PAGE_SIZE <= Address(USER_PAGES) && pages <= |Available(s.m.frames)|
  {
    hide CanMapRun, Available, LowestFit;
    if Chosen(s, i, BusyPages(s.m.pt, i), virt, pages, base) {
      ChosenRange(s, i, BusyPages(s.m.pt, i), virt, pages, base);
      RunMapsIff(s.m, i, FirstOf(base), pages, flags.(write := true));
      assert Address(FirstOf(base)) == base;
      assert Address(FirstOf(base) + pages) == base + pages * PAGE_SIZE;
    }
  }

  /** A range is unmapped exactly when it is aligned, in user space and in one area, and every page of it reads. */
  lemma RangeUnmapsIff(s: System, i: nat, virt: nat, pages: nat)
    requires SysInv(s) && i in s.areas
    ensures RangeUnmaps(s, i, virt, pages) <==>
            && pages > 0 && virt % 4096 == 0 && 0x0040_0000 <= virt && virt + pages * 4096 <= 0xc000_0000
            && (forall k: nat | virt / 4096 <= 1024 + k < virt / 4096 + pages :: Slot(i, k) in Image(s.m))
            && (exists j: nat :: j < MAX_VMAS && s.areas[i][j].used &&
                                 s.areas[i][j].start <= virt && virt + pages * 4096 <= s.areas[i][j].end)
  {
    hide Inv, WellPlaced;
    AreasCount(s, i);
    var areas, end := s.areas[i], virt + pages * PAGE_SIZE;
    var r := Container(areas, virt, end, 0);
    if virt % PAGE_SIZE == 0 && virt >= USER_LOW {
      assert (forall k: nat | virt / 4096 <= 1024 + k < virt / 4096 + pages :: Slot(i, k) in Image(s.m)) <==>
             RunSlots(i, FirstOf(virt), pages) <= s.m.pt.Keys;
    }
    if j: nat :| j < MAX_VMAS && areas[j].used && areas[j].start <= virt && end <= areas[j].end {
      if j < r { ContainerFirst(areas, virt, end, 0, j); }
    }
  }

  lemma AreasCount(s: System, i: nat)
    requires SysInv(s) && i in s.areas
    ensures |s.areas[i]| == MAX_VMAS && WellFormed(s.m.frames)
  {
  }

  // ---------------------------------------------------------------- forks

  lemma CreateFailsIff(m: Machine)
    ensures Create(m).1 == MAX_SPACES <==> forall d: nat | d < MAX_SPACES :: d in m.refs
  {
  }

  /** The pages of space `s` below page `n`. */
  ghost function PagesOf(pt: map<Slot, Pte>, s: nat, n: nat): set<Slot> {
    set x | x in pt && x.space == s && x.page < n
  }

  /** Pages can be copied as far as the frames reach, one for each. */
  lemma {:induction false} CopiesIff(m: Machine, s: nat, d: nat, n: nat)
    requires WellFormed(m.frames) && |m.mem| == MAX_PHYS_PAGES && s != d && n <= USER_PAGES
    ensures CanCopy(m, s, d, n) <==> |PagesOf(m.pt, s, n)| <= |Available(m.frames)|
    ensures CanCopy(m, s, d, n) ==>
            |Available(CopyUpTo(m, s, d, n).frames)| == |Available(m.frames)| - |PagesOf(m.pt, s, n)|
    ensures |CopyUpTo(m, s, d, n).mem| == MAX_PHYS_PAGES
  {
    hide Available, Alloc, Copy, CanMap;
    if n == 0 {
      assert PagesOf(m.pt, s, 0) == {};
    } else {
      CopiesIff(m, s, d, n - 1);
      var r, x := CopyUpTo(m, s, d, n - 1), Slot(s, n - 1);
      PagesNext(m.pt, s, n - 1);
      CopySource(m, s, d, n - 1, n - 1);
      CopyUses(r, x, Slot(d, n - 1));
    }
  }

  lemma CopyUses(m: Machine, x: Slot, y: Slot)
    requires WellFormed(m.frames) && |m.mem| == MAX_PHYS_PAGES && y.page < USER_PAGES
    ensures CanMap(m, y) <==> |Available(m.frames)| > 0
    ensures x in m.pt && CanMap(m, y) ==> WellFormed(Copy(m, x, y).frames)
    ensures x in m.pt && CanMap(m, y) ==> |Available(Copy(m, x, y).frames)| == |Available(m.frames)| - 1
    ensures |Copy(m, x, y).mem| == MAX_PHYS_PAGES && (x !in m.pt ==> Copy(m, x, y) == m)
  {
    hide Available, Alloc;
    AllocAvailable(m.frames);
    if Alloc(m.frames).1 != 0 { ClaimAvailable(m.frames); }
  }

  lemma PagesNext(pt: map<Slot, Pte>, s: nat, n: nat)
    ensures |PagesOf(pt, s, n + 1)| == |PagesOf(pt, s, n)| + if Slot(s, n) in pt then 1 else 0
  {
    var x := Slot(s, n);
    assert PagesOf(pt, s, n + 1) == PagesOf(pt, s, n) + if x in pt then {x} else {};
  }

  /** The eager clone fails exactly for want of a space, or of a frame for each page. */
  lemma CloneEagerFailsIff(m: Machine, s: nat)
    requires Inv(m) && s in m.refs
    ensures CloneEager(m, s).1 == MAX_SPACES <==>
            (forall d: nat | d < MAX_SPACES :: d in m.refs) || |PagesOf(m.pt, s, USER_PAGES)| > |Available(m.frames)|
  {
    hide Available, Exact, Private, TypedTable;
    var (c, d) := Create(m);
    CreateFailsIff(m);
    if d < MAX_SPACES { CopiesIff(c, s, d, USER_PAGES); }
  }

  /** An entry of the COW clone: the same frame and flags, read-only and COW. */
  ghost predicate SharedFrom(e: Pte, was: Pte) {
    e == Pte(was.frame, was.present, false, was.user, true, was.other)
  }

  lemma {:induction false} ShareUpToTable(m: Machine, s: nat, d: nat, n: nat, x: Slot)
    requires WellFormed(m.frames) && s != d && n <= USER_PAGES
    requires forall y | y in m.pt :: y.space != d && m.pt[y].user
    ensures var r := ShareUpTo(m, s, d, n);
            var y := Source(x, s, d);
            && (x in r.pt <==> y in m.pt && (x.space == d ==> x.page < n))
            && (x in r.pt ==> if y.space == s && x.page < n then SharedFrom(r.pt[x], m.pt[y]) else r.pt[x] == m.pt[y])
  {
    hide Retain, WellFormed;
    if n == 0 {
    } else {
      ShareUpToTable(m, s, d, n - 1, x);
      ShareUpToTable(m, s, d, n - 1, Slot(s, n - 1));
    }
  }

  /** After the COW clone both spaces hold the same entries: the parent's, read-only and COW.  No other changes. */
  lemma CloneCowTable(m: Machine, s: nat, x: Slot)
    requires Inv(m) && s in m.refs && CloneCow(m, s).1 < MAX_SPACES
    ensures var (r, d) := CloneCow(m, s);
            var y := Source(x, s, d);
            && (x in r.pt <==> y in m.pt)
            && (x in r.pt ==> if y.space == s then SharedFrom(r.pt[x], m.pt[y]) else r.pt[x] == m.pt[y])
  {
    hide Private, Exact, SharedFrom;
    CreateKeeps(m);
    var (c, d) := Create(m);
    forall y | y in c.pt ensures y.space != d && c.pt[y].user {
      assert TypedEntry(y, m.pt[y], m.refs.Keys, m.frames.total);
    }
    ShareUpToTable(c, s, d, USER_PAGES, x);
  }

  /** An entry of the eager clone: the same flags on a frame that was clear. */
  ghost predicate CopiedFrom(f: Frames, e: Pte, was: Pte)
    requires WellFormed(f)
  {
    e.frame in Available(f) && e == Pte(e.frame, true, was.write, true, was.cow, was.other)
  }

  lemma AvailableShrinks(f: Frames)
    requires WellFormed(f) && Alloc(f).1 != 0
    ensures WellFormed(Alloc(f).0) && Available(Alloc(f).0) <= Available(f) && Alloc(f).1 in Available(f)
  {
  }

  lemma {:induction false} CopyUpToTable(m: Machine, s: nat, d: nat, n: nat, x: Slot)
    requires WellFormed(m.frames) && |m.mem| == MAX_PHYS_PAGES && s != d && n <= USER_PAGES && CanCopy(m, s, d, n)
    requires forall y | y in m.pt :: y.space != d
    ensures var r := CopyUpTo(m, s, d, n);
            && |r.mem| == MAX_PHYS_PAGES && Available(r.frames) <= Available(m.frames)
            && (x in r.pt <==> Source(x, s, d) in m.pt && (x.space == d ==> x.page < n))
            && (x in r.pt ==> if x.space == d then CopiedFrom(m.frames, r.pt[x], m.pt[Slot(s, x.page)])
                              else r.pt[x] == m.pt[x])
  {
    hide Available, Alloc, FrameContents;
    if n == 0 {
    } else {
      CopyUpToTable(m, s, d, n - 1, x);
      CopySource(m, s, d, n - 1, n - 1);
      var r := CopyUpTo(m, s, d, n - 1);
      if Alloc(r.frames).1 != 0 { AvailableShrinks(r.frames); }
    }
  }

  /** After the eager clone the child has the parent's entries on frames of its own.  No other changes. */
  lemma CloneEagerTable(m: Machine, s: nat, x: Slot)
    requires Inv(m) && s in m.refs && CloneEager(m, s).1 < MAX_SPACES
    ensures var (r, d) := CloneEager(m, s);
            && (x in r.pt <==> Source(x, s, d) in m.pt)
            && (x in r.pt ==> if x.space == d then CopiedFrom(m.frames, r.pt[x], m.pt[Slot(s, x.page)])
                              else r.pt[x] == m.pt[x])
  {
    hide Private, Exact, CopiedFrom, Available;
    CreateKeeps(m);
    var (c, d) := Create(m);
    CopyUpToTable(c, s, d, USER_PAGES, x);
    var y := Slot(s, x.page);
    if y in m.pt { assert TypedEntry(y, m.pt[y], m.refs.Keys, m.frames.total); }
  }
}
