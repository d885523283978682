/** Which faults, stores and validations succeed (mm/vmm.c). */
module Resolution {
  import opened Numbers
  import opened Pmm
  import opened Cow
  import opened Fork
  import opened Areas
  import opened Paging
  import opened Capacity

  // `Paging` says what a resolved fault keeps; this module says which faults are resolved, what the
  // page then is, and which stores and pointer validations therefore succeed.

  // ---------------------------------------------------------------- faults

  /** The demand branch is taken exactly for an unmapped page of the current space that an area covers. */
  lemma TakesDemandIff(s: System, k: nat)
    requires SysInv(s)
    ensures TakesDemand(s, k) <==>
            && s.current in s.areas && k < USER_PAGES && Slot(s.current, k) !in s.m.pt
            && Covered(s.areas[s.current], Address(k))
  {
    if s.current in s.areas && k < USER_PAGES && Slot(s.current, k) !in s.m.pt {
      CoveredIff(s.areas[s.current], Address(k));
    }
  }

  /**
    A frame is left, and the page is mapped and COW and the user writes to it, or it is not mapped
    and an area of the current space covers it.
   */
  ghost predicate Resolvable(s: System, write: bool, user: bool, k: nat)
    requires WellFormed(s.m.frames)
  {
    var x := Slot(s.current, k);
    && |Available(s.m.frames)| > 0
    && if x in s.m.pt then write && user && s.m.pt[x].cow
       else s.current in s.areas && k < USER_PAGES && Covered(s.areas[s.current], Address(k))
  }

  /** A fault is resolved exactly then; in every other case the kernel panics. */
  lemma FaultResolvesIff(s: System, write: bool, user: bool, k: nat)
    requires SysInv(s)
    ensures PageFault(s, write, user, k).Resolved? <==> Resolvable(s, write, user, k)
  {
    TakesDemandIff(s, k);
    AllocAvailable(s.m.frames);
    var x := Slot(s.current, k);
    if x in s.m.pt { assert TypedEntry(x, s.m.pt[x], s.m.refs.Keys, s.m.frames.total); }
  }

  /**
    A COW fault leaves the page writable, private and no longer COW, on a frame that was clear, with
    the contents it had; every other entry is as it was, and the copy window shows its own frame again.
   */
  lemma FaultGives(s: System, k: nat)
    requires SysInv(s) && !TakesDemand(s, k) && PageFault(s, true, true, k).Resolved?
    ensures var t := PageFault(s, true, true, k).s;
            var x := Slot(s.current, k);
            && x in s.m.pt && x in t.m.pt
            && t.m.pt == s.m.pt[x := t.m.pt[x]] && t.m.pt[x].write && !t.m.pt[x].cow
            && t.m.pt[x].frame in Available(s.m.frames) && t.m.frames.refs[t.m.pt[x].frame] == 1
            && Image(t.m)[x] == Image(s.m)[x] && t.window * PAGE_SIZE == 0x003f_f000
  {
    FaultKeeps(s, true, true, k);
    AllocAvailable(s.m.frames);
    var x := Slot(s.current, k);
    ClearUnmapped(s.m, Alloc(s.m.frames).1);
    assert s.m.pt[x].frame != Alloc(s.m.frames).1;
  }

  /** The user page that a demand fault adds is writable, with the area's other flags. */
  lemma DemandGives(s: System, k: nat)
    requires SysInv(s) && TakesDemand(s, k) && PageFault(s, true, true, k).Resolved?
    ensures var t := PageFault(s, true, true, k).s;
            var x := Slot(s.current, k);
            && x !in s.m.pt && x in t.m.pt && t.m.pt == s.m.pt[x := t.m.pt[x]]
            && Present(t, x) && t.m.pt[x].write && t.m.pt[x].frame in Available(s.m.frames)
            && exists w: bool :: Flagged(s.areas[s.current], Address(k), Flags(w, t.m.pt[x].cow, t.m.pt[x].other))
  {
    AllocAvailable(s.m.frames);
    var areas, a := s.areas[s.current], Address(k);
    var r := Container(areas, a, a + 1, 0);
    assert Holds(areas[r], a);
    assert Flagged(areas, a, areas[r].flags);
  }

  /** 4096 zeros. */
  ghost predicate Blank(page: Page) {
    |page| == PAGE_SIZE && forall i | 0 <= i < |page| :: page[i] == 0
  }

  /**
    The handler clears whatever frame the window shows, and only then maps the new one there: the
    page reads zero exactly when that was the same frame or the new frame held zeros already.
   */
  lemma DemandZeroedIff(s: System, k: nat)
    requires SysInv(s) && TakesDemand(s, k) && PageFault(s, true, true, k).Resolved?
    ensures var t := PageFault(s, true, true, k).s;
            var p := t.m.pt[Slot(s.current, k)].frame;
            Blank(Image(t.m)[Slot(s.current, k)]) <==> s.window == p || Blank(s.m.mem[p])
  {
  }

  // ---------------------------------------------------------------- stores

  /** Off the demand branch a store succeeds exactly on a page that is writable, or COW while a frame is left. */
  lemma StoreResolvesIff(s: System, k: nat, offset: nat, b: Byte)
    requires SysInv(s) && !TakesDemand(s, k)
    ensures UserStore(s, k, offset, b).Resolved? <==>
            && Slot(s.current, k) in s.m.pt
            && (s.m.pt[Slot(s.current, k)].write || (s.m.pt[Slot(s.current, k)].cow && |Available(s.m.frames)| > 0))
  {
    var x := Slot(s.current, k);
    FaultResolvesIff(s, true, true, k);
    if x in s.m.pt {
      assert TypedEntry(x, s.m.pt[x], s.m.refs.Keys, s.m.frames.total);
      if PageFault(s, true, true, k).Resolved? { FaultGives(s, k); }
    }
  }

  /** Whatever the flags asked for, the pages of a range can be stored to at once. */
  lemma RangeIsWritable(s: System, i: nat, virt: nat, pages: nat, flags: Flags, base: nat, k: nat, offset: nat, b: Byte)
    requires SysInv(s) && RangeMaps(s, i, virt, pages, flags, base) && Slot(i, k) in RunSlots(i, FirstOf(base), pages)
    ensures UserStore(MapRange(s, i, virt, pages, flags, base).(current := i), k, offset, b).Resolved?
  {
    hide CanMapRun, Available, LowestFit, MapRun, Inv, WithArea;
    var t := MapRange(s, i, virt, pages, flags, base);
    MapRangeKeeps(s, i, virt, pages, flags, base);
    RunGives(s.m, i, FirstOf(base), pages, flags.(write := true), Slot(i, k));
    WithAreaMachine(s.(m := MapRun(s.m, i, FirstOf(base), pages, flags.(write := true))), i, base, pages, flags);
    Writable(t.(current := i), k, offset, b);
  }

  lemma WithAreaMachine(s: System, i: nat, base: nat, pages: nat, flags: Flags)
    requires i in s.areas && |s.areas[i]| == MAX_VMAS && FirstFree(s.areas[i], 0) < MAX_VMAS
    ensures WithArea(s, i, base, pages, flags).m == s.m
  {
  }

  lemma Writable(s: System, k: nat, offset: nat, b: Byte)
    requires SysInv(s) && Slot(s.current, k) in s.m.pt && s.m.pt[Slot(s.current, k)].write
    ensures UserStore(s, k, offset, b).Resolved?
  {
    assert TypedEntry(Slot(s.current, k), s.m.pt[Slot(s.current, k)], s.m.refs.Keys, s.m.frames.total);
  }

  /** After a store that succeeds the byte reads as stored, and every other byte of every space as before. */
  lemma StoreReadsBack(s: System, k: nat, offset: nat, b: Byte, y: Slot, o: nat)
    requires SysInv(s) && !TakesDemand(s, k) && UserStore(s, k, offset, b).Resolved?
    requires y in s.m.pt && o < |Image(s.m)[y]|
    ensures var t := UserStore(s, k, offset, b).s;
            && y in t.m.pt && |Image(t.m)[y]| == |Image(s.m)[y]|
            && Image(t.m)[y][o] == if y == Slot(s.current, k) && o == offset then b else Image(s.m)[y][o]
  {
    hide UserStore;
    UserStoreKeeps(s, k, offset, b);
    assert y in Image(UserStore(s, k, offset, b).s.m);
  }

  // ---------------------------------------------------------------- pointer validation

  /** Page `k` of the current space is COW and not writable: it has to be split before a write. */
  predicate Needs(s: System, k: nat) {
    var x := Slot(s.current, k);
    x in s.m.pt && !s.m.pt[x].write && s.m.pt[x].cow
  }

  /** Splitting it uses up a frame, because others keep the old one. */
  ghost predicate Costs(s: System, k: nat)
    requires SysInv(s)
  {
    Needs(s, k) && s.m.frames.refs[s.m.pt[Slot(s.current, k)].frame] > 1
  }

  /** The frames used up by splitting pages `k..k + n`. */
  ghost function Spent(s: System, k: nat, n: nat): nat
    requires SysInv(s)
  {
    if n == 0 then 0 else Spent(s, k, n - 1) + if Costs(s, k + n - 1) then 1 else 0
  }

  /** Page `k + j` is mapped and, for a write, writable, or COW with a frame left after the pages before it. */
  ghost predicate Fine(s: System, k: nat, j: nat, write: bool)
    requires SysInv(s)
  {
    var x := Slot(s.current, k + j);
    && x in s.m.pt
    && (write ==> s.m.pt[x].write || (s.m.pt[x].cow && Spent(s, k, j) < |Available(s.m.frames)|))
  }

  /** `t` is `s` with the pages `k..k + n` made writable where that was needed. */
  ghost predicate Advanced(s: System, t: System, k: nat, n: nat, write: bool)
    requires SysInv(s)
  {
    && SameView(s, t)
    && |Available(t.m.frames)| == |Available(s.m.frames)| - (if write then Spent(s, k, n) else 0)
    && forall j: nat | j >= k + n :: Untouched(s, t, j)
  }

  ghost predicate Untouched(s: System, t: System, k: nat)
    requires SysInv(s) && SysInv(t)
  {
    var x := Slot(s.current, k);
    x in s.m.pt ==>
      && x in t.m.pt && t.m.pt[x] == s.m.pt[x]
      && t.m.frames.refs[s.m.pt[x].frame] == s.m.frames.refs[s.m.pt[x].frame]
  }

  lemma SplitAvailable(m: Machine, x: Slot)
    requires Inv(m) && x in m.pt && Alloc(m.frames).1 != 0
    ensures WellFormed(Split(m, x).frames)
    ensures |Available(Split(m, x).frames)| == |Available(m.frames)| - if m.frames.refs[m.pt[x].frame] > 1 then 1 else 0
  {
    hide Exact, Private, CountsMatch, Owned;
    var p, from := Alloc(m.frames).1, m.pt[x].frame;
    SplitKeeps(m, x);
    MappedOwned(m, x);
    assert TypedEntry(x, m.pt[x], m.refs.Keys, m.frames.total);
    var f, r := m.frames, Split(m, x).frames;
    assert p in Available(f);
    if f.refs[from] > 1 {
      assert Available(r) == Available(f) - {p};
    } else {
      assert Available(r) == Available(f) - {p} + {from};
    }
  }

  /** Splitting one page of a space leaves the others, and the counts of their frames, alone. */
  lemma SplitUntouched(m: Machine, x: Slot, y: Slot)
    requires Inv(m) && x in m.pt && y in m.pt && x.space == y.space && x != y && Alloc(m.frames).1 != 0
    ensures Split(m, x).pt[y] == m.pt[y]
    ensures Split(m, x).frames.refs[m.pt[y].frame] == m.frames.refs[m.pt[y].frame]
  {
    assert !Clash(m.pt, x, y);
    ClearUnmapped(m, Alloc(m.frames).1);
    MappedOwned(m, x);
  }

  lemma BreakAdvances(s: System, k: nat)
    requires SysInv(s) && Needs(s, k) && |Available(s.m.frames)| > 0
    ensures PageFault(s, true, true, k).Resolved?
    ensures var t := PageFault(s, true, true, k).s;
            && SameView(s, t) && t.m.pt[Slot(s.current, k)].write
            && |Available(t.m.frames)| == |Available(s.m.frames)| - (if Costs(s, k) then 1 else 0)
            && forall j: nat | j > k :: Untouched(s, t, j)
  {
    var x := Slot(s.current, k);
    assert !TakesDemand(s, k);
    FaultResolvesIff(s, true, true, k);
    FaultKeeps(s, true, true, k);
    FaultGives(s, k);
    AllocAvailable(s.m.frames);
    SplitAvailable(s.m, x);
    var t := PageFault(s, true, true, k).s;
    forall j: nat | j > k ensures Untouched(s, t, j) {
      if Slot(s.current, j) in s.m.pt { SplitUntouched(s.m, x, Slot(s.current, j)); }
    }
  }

  /** One round of the loop on a page that it accepts. */
  lemma CheckPageFine(s: System, k: nat, write: bool)
    requires SysInv(s) && s.current in s.areas && !TakesDemand(s, k) && Slot(s.current, k) in s.m.pt
    requires write && !s.m.pt[Slot(s.current, k)].write ==>
               s.m.pt[Slot(s.current, k)].cow && |Available(s.m.frames)| > 0
    ensures CheckPage(s, s.current, k, write).Accept?
    ensures var t := CheckPage(s, s.current, k, write).s;
            && SameView(s, t)
            && |Available(t.m.frames)| == |Available(s.m.frames)| - (if write && Costs(s, k) then 1 else 0)
            && forall j: nat | j > k :: Untouched(s, t, j)
  {
    hide SameView, Untouched, Available, PageFault;
    var x := Slot(s.current, k);
    assert TypedEntry(x, s.m.pt[x], s.m.refs.Keys, s.m.frames.total);
    assert Present(s, x);
    if write && Needs(s, k) {
      BreakAdvances(s, k);
    } else {
      NothingTouched(s);
    }
  }

  lemma NothingTouched(s: System)
    requires SysInv(s)
    ensures SameView(s, s) && forall j: nat :: Untouched(s, s, j)
  {
  }

  /** It refuses every other page: with a panic if it faults for want of a frame, or outside the tables. */
  lemma CheckPageStops(s: System, k: nat, write: bool)
    requires SysInv(s) && s.current in s.areas && !TakesDemand(s, k)
    requires Slot(s.current, k) in s.m.pt ==>
               && write && !s.m.pt[Slot(s.current, k)].write
               && (s.m.pt[Slot(s.current, k)].cow ==> |Available(s.m.frames)| == 0)
    ensures CheckPage(s, s.current, k, write) ==
            if Needs(s, k) || (Slot(s.current, k) !in s.m.pt && Covered(s.areas[s.current], Address(k)))
            then Halt else Reject(s)
  {
    var x, areas, a := Slot(s.current, k), s.areas[s.current], Address(k);
    FaultResolvesIff(s, true, true, k);
    FaultResolvesIff(s, write, true, k);
    if x in s.m.pt {
      assert TypedEntry(x, s.m.pt[x], s.m.refs.Keys, s.m.frames.total);
    } else {
      CoveredIff(areas, a);
    }
  }

  lemma CoveredIff(areas: seq<Area>, a: nat)
    requires |areas| == MAX_VMAS
    ensures Container(areas, a, a + 1, 0) < MAX_VMAS <==> Covered(areas, a)
  {
    var r := Container(areas, a, a + 1, 0);
    if r < MAX_VMAS { assert Holds(areas[r], a); }
    if Covered(areas, a) {
      var i :| 0 <= i < |areas| && Holds(areas[i], a);
      if i < r { ContainerFirst(areas, a, a + 1, 0, i); }
    }
  }

  ghost predicate OffDemand(s: System, k: nat, n: nat) {
    forall j: nat | k <= j < k + n :: !TakesDemand(s, j)
  }

  /** What page `k + n` needs is as it was before the pages in front of it were split. */
  lemma StillFine(s: System, t: System, k: nat, n: nat, write: bool)
    requires SysInv(s) && Advanced(s, t, k, n, write)
    ensures SysInv(t) && t.current == s.current && t.areas == s.areas
    ensures var x := Slot(s.current, k + n);
            && (x in t.m.pt <==> x in s.m.pt) && (x in s.m.pt ==> t.m.pt[x] == s.m.pt[x])
            && Costs(t, k + n) == Costs(s, k + n)
  {
    hide Available, SysInv;
    assert Untouched(s, t, k + n);
  }

  lemma AdvancedNext(s: System, t: System, u: System, k: nat, n: nat, write: bool)
    requires SysInv(s) && Advanced(s, t, k, n, write) && SysInv(t) && SameView(t, u)
    requires |Available(u.m.frames)| == |Available(t.m.frames)| - (if write && Costs(s, k + n) then 1 else 0)
    requires forall j: nat | j > k + n :: Untouched(t, u, j)
    ensures Advanced(s, u, k, n + 1, write)
  {
    hide Available, SysInv, Costs;
    SameViewTransitive(s, t, u);
    forall j: nat | j >= k + (n + 1) ensures Untouched(s, u, j) {
      assert Untouched(s, t, j) && Untouched(t, u, j);
    }
  }

  lemma {:induction false} FineRun(s: System, k: nat, n: nat, write: bool)
    requires SysInv(s) && s.current in s.areas && OffDemand(s, k, n) && forall j: nat | j < n :: Fine(s, k, j, write)
    ensures CheckRun(s, s.current, k, n, write).Accept?
    ensures Advanced(s, CheckRun(s, s.current, k, n, write).s, k, n, write)
  {
    hide Available, SysInv, CheckPage, TakesDemand, SameView, Costs, Untouched, Fine, WellFormed;
    SameViewRefl(s);
    NothingTouched(s);
    if n == 0 {
    } else {
      FineRun(s, k, n - 1, write);
      var t := CheckRun(s, s.current, k, n - 1, write).s;
      StillFine(s, t, k, n - 1, write);
      SameViewDemand(s, t, k + n - 1);
      FineNow(s, t, k, n - 1, write);
      CheckPageFine(t, k + n - 1, write);
      AdvancedNext(s, t, CheckPage(t, t.current, k + n - 1, write).s, k, n - 1, write);
    }
  }

  /** The number of frames left decides in `t` as the count of those spent does in `s`. */
  lemma FineNow(s: System, t: System, k: nat, n: nat, write: bool)
    requires SysInv(s) && Advanced(s, t, k, n, write) && SysInv(t)
    ensures var x := Slot(s.current, k + n);
            Fine(s, k, n, write) <==>
            && x in t.m.pt
            && (write && !t.m.pt[x].write ==> t.m.pt[x].cow && |Available(t.m.frames)| > 0)
  {
    hide Available, SysInv;
    StillFine(s, t, k, n, write);
  }

  /** Validation stops at the first page that is not fine. */
  lemma {:induction false} StopsAt(s: System, k: nat, j: nat, n: nat, write: bool)
    requires SysInv(s) && s.current in s.areas && OffDemand(s, k, n) && j < n
    requires (forall i: nat | i < j :: Fine(s, k, i, write)) && !Fine(s, k, j, write)
    ensures var x := Slot(s.current, k + j);
            var v := CheckRun(s, s.current, k, n, write);
            && !v.Accept?
            && (v.Halt? <==> if x in s.m.pt then s.m.pt[x].cow else Covered(s.areas[s.current], Address(k + j)))
    decreases n
  {
    hide Available, SysInv, CheckPage, SameView, Costs, Untouched, TakesDemand, Covered;
    SameViewRefl(s);
    if j < n - 1 {
      StopsAt(s, k, j, n - 1, write);
    } else {
      FineRun(s, k, j, write);
      var t := CheckRun(s, s.current, k, j, write).s;
      StillFine(s, t, k, j, write);
      SameViewDemand(s, t, k + j);
      FineNow(s, t, k, j, write);
      CheckPageStops(t, k + j, write);
    }
  }

  /**
    Validation off the demand branch accepts exactly when every page is mapped and, for a write, is
    writable or COW, and a frame is left for each COW page after the shared ones before it.
   */
  lemma AcceptsIff(s: System, k: nat, n: nat, write: bool)
    requires SysInv(s) && s.current in s.areas && OffDemand(s, k, n)
    ensures CheckRun(s, s.current, k, n, write).Accept? <==> forall j: nat | j < n :: Fine(s, k, j, write)
  {
    hide Fine, SysInv, CheckRun, TakesDemand;
    if forall j: nat | j < n :: Fine(s, k, j, write) {
      FineRun(s, k, n, write);
    } else {
      var j := FirstBad(s, k, n, write);
      StopsAt(s, k, j, n, write);
    }
  }

  lemma {:induction false} FirstBad(s: System, k: nat, n: nat, write: bool) returns (j: nat)
    requires SysInv(s) && exists j: nat | j < n :: !Fine(s, k, j, write)
    ensures j < n && !Fine(s, k, j, write) && forall i: nat | i < j :: Fine(s, k, i, write)
  {
    hide Fine, SysInv;
    if exists i: nat | i < n - 1 :: !Fine(s, k, i, write) {
      j := FirstBad(s, k, n - 1, write);
    } else {
      j := n - 1;
    }
  }
}
