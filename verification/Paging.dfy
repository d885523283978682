/** Page faults, validation and ranges (mm/vmm.c). */
module Paging {
  import opened Numbers
  import opened Pmm
  import opened Cow
  import opened Fork
  import opened Areas

  // `System` adds to the memory state the areas of each space, the current space and the
  // copy window.  `SysInv` is what every operation off the demand-paging branch keeps.

  const FIRST_USER_PAGE: nat := 1024

  /** The frame the copy window is mapped to when the COW branch has finished with it. */
  const WINDOW_HOME: nat := 0x3ff

  /** `current` is MAX_SPACES when no space is loaded; `window` is the frame behind the kernel's copy window. */
  datatype System = System(m: Machine, areas: map<nat, seq<Area>>, current: nat, window: nat)

  function Address(k: nat): nat {
    (FIRST_USER_PAGE + k) * PAGE_SIZE
  }

  ghost predicate SysInv(s: System) {
    && Inv(s.m)
    && s.areas.Keys == s.m.refs.Keys
    && (forall i | i in s.areas :: WellPlaced(s.areas[i]))
    && (s.current == MAX_SPACES || s.current in s.m.refs)
    && s.window < MAX_PHYS_PAGES
  }

  // ---------------------------------------------------------------- page faults

  datatype Fault = Resolved(s: System) | Panic

  function ZeroPage(): Page {
    seq(PAGE_SIZE, _ => 0)
  }

  /** `vmm_get_user_physical` finds the page: its entry is present for user mode. */
  predicate Present(s: System, x: Slot) {
    x in s.m.pt && s.m.pt[x].present && s.m.pt[x].user
  }

  /** Entries are only added, and permission to write is only gained. */
  ghost predicate Grows(s: System, t: System) {
    && WellFormed(t.m.frames)
    && t.areas == s.areas && t.current == s.current && t.m.refs == s.m.refs
    && s.m.pt.Keys <= t.m.pt.Keys
    && (forall x | Present(s, x) :: Present(t, x))
    && forall x | x in s.m.pt && s.m.pt[x].write :: t.m.pt[x].write
  }

  /** The area slot that makes user page `k` of the current space demand-paged, or MAX_VMAS. */
  function DemandArea(s: System, k: nat): (r: nat)
    ensures r <= MAX_VMAS
    ensures r < MAX_VMAS ==> s.current in s.areas && |s.areas[s.current]| == MAX_VMAS
  {
    if s.current in s.areas && |s.areas[s.current]| == MAX_VMAS && k < USER_PAGES && Slot(s.current, k) !in s.m.pt
    then Container(s.areas[s.current], Address(k), Address(k) + 1, 0)
    else MAX_VMAS
  }

  /** The guard of the demand-page branch. */
  predicate TakesDemand(s: System, k: nat) {
    DemandArea(s, k) < MAX_VMAS
  }

  /** The demand-page branch: clear the window, map a new frame there and in the space, then free the frame. */
  function Demand(s: System, k: nat): (r: Fault)
    requires WellFormed(s.m.frames) && TakesDemand(s, k)
    ensures r.Resolved? ==> Grows(s, r.s)
  {
    var (f, p) := Alloc(s.m.frames);
    var flags := s.areas[s.current][DemandArea(s, k)].flags;
    if p == 0 then Panic
    else
      var mem := if s.window < |s.m.mem| then s.m.mem[s.window := ZeroPage()] else s.m.mem;
      Resolved(s.(m := s.m.(frames := Free(f, p), mem := mem,
                            pt := s.m.pt[Slot(s.current, k) := Entry(p, flags.(write := true))]),
                  window := p))
  }

  /** `vmm_page_fault` on user page `k` of the current space. */
  function PageFault(s: System, write: bool, user: bool, k: nat): (r: Fault)
    requires WellFormed(s.m.frames)
    ensures r.Resolved? ==> Grows(s, r.s)
  {
    var x := Slot(s.current, k);
    if TakesDemand(s, k) then Demand(s, k)
    else if write && user && k < USER_PAGES && x in s.m.pt && s.m.pt[x].cow then
      if Alloc(s.m.frames).1 == 0 then Panic else Resolved(s.(m := Split(s.m, x), window := WINDOW_HOME))
    else Panic
  }

  /** A fault outside the demand branch keeps the books and changes nothing anyone can read. */
  lemma FaultKeeps(s: System, write: bool, user: bool, k: nat)
    requires SysInv(s) && !TakesDemand(s, k) && PageFault(s, write, user, k).Resolved?
    ensures var t := PageFault(s, write, user, k).s;
            && SysInv(t) && Reserved(t.m.frames) == Reserved(s.m.frames)
            && Image(t.m) == Image(s.m) && t.m.refs == s.m.refs && t.areas == s.areas && t.current == s.current
            && t.m.pt.Keys == s.m.pt.Keys && t.m.pt[Slot(s.current, k)].write
            && (forall x | x in s.m.pt && s.m.pt[x].write :: t.m.pt[x].write)
  {
    SplitKeeps(s.m, Slot(s.current, k));
    SplitImage(s.m, Slot(s.current, k));
  }

  /** The demand branch leaves a mapped frame that the allocator believes is free. */
  lemma DemandUncounted(s: System, k: nat)
    requires SysInv(s) && TakesDemand(s, k) && Demand(s, k).Resolved?
    ensures var t := Demand(s, k).s;
            var x := Slot(s.current, k);
            x in t.m.pt && t.m.frames == s.m.frames && !t.m.frames.taken[t.m.pt[x].frame]
  {
    FreeUndoesAlloc(s.m.frames);
  }

  /** A resolved fault keeps the books exactly when it does not take the demand branch. */
  lemma FaultKeepsIff(s: System, write: bool, user: bool, k: nat)
    requires SysInv(s) && PageFault(s, write, user, k).Resolved?
    ensures Inv(PageFault(s, write, user, k).s.m) <==> !TakesDemand(s, k)
  {
    if TakesDemand(s, k) {
      DemandUncounted(s, k);
      var t := Demand(s, k).s;
      if Inv(t.m) { MappedOwned(t.m, Slot(s.current, k)); }
    } else {
      FaultKeeps(s, write, user, k);
    }
  }

  // ---------------------------------------------------------------- user stores

  /** A user-mode store: through the entry if it is writable, else after the fault it causes. */
  function UserStore(s: System, k: nat, offset: nat, b: Byte): Fault
    requires WellFormed(s.m.frames)
  {
    var x := Slot(s.current, k);
    if x in s.m.pt && s.m.pt[x].write then
      if s.m.pt[x].frame < |s.m.mem| then Resolved(s.(m := Store(s.m, x, offset, b))) else Panic
    else
      match PageFault(s, true, true, k)
      case Panic => Panic
      case Resolved(t) =>
        if x in t.m.pt && t.m.pt[x].frame < |t.m.mem| then Resolved(t.(m := Store(t.m, x, offset, b))) else Panic
  }

  lemma UserStoreKeeps(s: System, k: nat, offset: nat, b: Byte)
    requires SysInv(s) && !TakesDemand(s, k) && UserStore(s, k, offset, b).Resolved?
    ensures var t := UserStore(s, k, offset, b).s;
            var x := Slot(s.current, k);
            && SysInv(t) && Reserved(t.m.frames) == Reserved(s.m.frames) && t.m.refs == s.m.refs
            && x in Image(s.m) && Image(t.m) == Image(s.m)[x := StorePage(Image(s.m)[x], offset, b)]
  {
    var x := Slot(s.current, k);
    if x in s.m.pt && s.m.pt[x].write {
      StoreKeeps(s.m, x, offset, b);
      StoreImage(s.m, x, offset, b);
    } else {
      FaultKeeps(s, true, true, k);
      var t := PageFault(s, true, true, k).s;
      StoreKeeps(t.m, x, offset, b);
      StoreImage(t.m, x, offset, b);
    }
  }

  // ---------------------------------------------------------------- pointer validation

  datatype Verdict = Accept(s: System) | Reject(s: System) | Halt

  /** User page `k` of space `i` may be read, and written if asked. */
  ghost predicate Usable(s: System, i: nat, k: nat, write: bool) {
    Present(s, Slot(i, k)) && (write ==> s.m.pt[Slot(i, k)].write)
  }

  /** One round of the loop of `vmm_validate_user_ptr`, on user page `k` of space `i`. */
  function CheckPage(s: System, i: nat, k: nat, write: bool): (r: Verdict)
    requires WellFormed(s.m.frames) && i in s.areas && |s.areas[i]| == MAX_VMAS
    ensures r.Accept? ==> Grows(s, r.s) && Usable(r.s, i, k, write)
    ensures r.Reject? ==> Grows(s, r.s)
  {
    var x := Slot(i, k);
    if !Present(s, x) && Container(s.areas[i], Address(k), Address(k) + 1, 0) < MAX_VMAS then
      match PageFault(s, write, true, k)
      case Panic => Halt
      case Resolved(t) => CheckEntry(t, x, write)
    else CheckEntry(s, x, write)
  }

  function CheckEntry(s: System, x: Slot, write: bool): (r: Verdict)
    requires WellFormed(s.m.frames)
    ensures r.Accept? ==> Grows(s, r.s) && Usable(r.s, x.space, x.page, write)
    ensures r.Reject? ==> Grows(s, r.s)
  {
    if !Present(s, x) then Reject(s)
    else if write && !s.m.pt[x].write then
      if !s.m.pt[x].cow then Reject(s)
      else
        match PageFault(s, true, true, x.page)
        case Panic => Halt
        case Resolved(t) => if t.m.pt[x].write then Accept(t) else Reject(t)
    else Accept(s)
  }

  /**
    The loop: pages `k..k+n` in order, stopping at the first that is refused.
   */
  function CheckRun(s: System, i: nat, k: nat, n: nat, write: bool): (r: Verdict)
    requires WellFormed(s.m.frames) && i in s.areas && |s.areas[i]| == MAX_VMAS
    ensures r.Accept? || r.Reject? ==> Grows(s, r.s)
  {
    if n == 0 then Accept(s)
    else
      match CheckRun(s, i, k, n - 1, write)
      case Accept(t) => CheckPage(t, i, k + n - 1, write)
      case v => v
  }

  /** Acceptance means that all the pages are usable together, at the end. */
  lemma {:induction false} CheckRunSound(s: System, i: nat, k: nat, n: nat, write: bool)
    requires WellFormed(s.m.frames) && i in s.areas && |s.areas[i]| == MAX_VMAS
    requires CheckRun(s, i, k, n, write).Accept?
    ensures forall j: nat | k <= j < k + n :: Usable(CheckRun(s, i, k, n, write).s, i, j, write)
  {
    hide CheckPage;
    if n == 0 {
    } else {
      CheckRunSound(s, i, k, n - 1, write);
      CheckPageSound(CheckRun(s, i, k, n - 1, write).s, i, k, n - 1, write);
    }
  }

  lemma CheckPageSound(s: System, i: nat, k: nat, n: nat, write: bool)
    requires WellFormed(s.m.frames) && i in s.areas && |s.areas[i]| == MAX_VMAS
    requires CheckPage(s, i, k + n, write).Accept?
    requires forall j: nat | k <= j < k + n :: Usable(s, i, j, write)
    ensures var t := CheckPage(s, i, k + n, write).s; forall j: nat | k <= j < k + n + 1 :: Usable(t, i, j, write)
  {
    var t := CheckPage(s, i, k + n, write).s;
    forall j: nat | k <= j < k + n + 1 ensures Usable(t, i, j, write) {
      if j < k + n { assert Usable(s, i, j, write); }
    }
  }

  /** Two systems no program can tell apart, with the same tables in use. */
  ghost predicate SameView(s: System, t: System)
    requires WellFormed(s.m.frames)
  {
    && SysInv(t) && Reserved(t.m.frames) == Reserved(s.m.frames)
    && Image(t.m) == Image(s.m) && t.m.refs == s.m.refs && t.areas == s.areas && t.current == s.current
    && t.m.pt.Keys == s.m.pt.Keys
  }

  lemma CheckEntryView(s: System, x: Slot, write: bool)
    requires SysInv(s) && x.space == s.current
    ensures match CheckEntry(s, x, write) case Halt => true case v => SameView(s, v.s)
  {
    if x in s.m.pt && write && !s.m.pt[x].write && s.m.pt[x].cow && PageFault(s, true, true, x.page).Resolved? {
      FaultKeeps(s, true, true, x.page);
    }
  }

  lemma SameViewDemand(s: System, t: System, k: nat)
    requires SysInv(s) && SameView(s, t)
    ensures TakesDemand(t, k) == TakesDemand(s, k)
  {
    hide SysInv, Image;
  }

  lemma SameViewTransitive(s: System, t: System, u: System)
    requires SysInv(s) && SameView(s, t) && SameView(t, u)
    ensures SameView(s, u)
  {
    hide SysInv, Image, Reserved;
  }

  lemma SameViewRefl(s: System)
    requires SysInv(s)
    ensures WellFormed(s.m.frames) && SameView(s, s)
    ensures s.current in s.areas ==> |s.areas[s.current]| == MAX_VMAS
  {
  }

  lemma SameViewFacts(s: System, t: System)
    requires WellFormed(s.m.frames) && SameView(s, t)
    ensures SysInv(t) && t.areas == s.areas && t.current == s.current
  {
    hide SysInv, Image, Reserved;
  }

  /** Validating pages that are present or outside every area breaks COW where needed and changes no contents. */
  lemma {:induction false} CheckRunView(s: System, k: nat, n: nat, write: bool)
    requires SysInv(s) && s.current in s.areas
    requires forall j | k <= j < k + n :: !TakesDemand(s, j)
    ensures match CheckRun(s, s.current, k, n, write) case Halt => true case v => SameView(s, v.s)
  {
    hide SysInv, CheckPage, TakesDemand, SameView, Grows, WellFormed;
    SameViewRefl(s);
    if n == 0 {
    } else {
      CheckRunView(s, k, n - 1, write);
      var v := CheckRun(s, s.current, k, n - 1, write);
      if v.Accept? {
        var t := v.s;
        SameViewFacts(s, t);
        SameViewRefl(t);
        SameViewDemand(s, t, k + n - 1);
        CheckPageView(t, k + n - 1, write);
        match CheckPage(t, t.current, k + n - 1, write)
        case Halt =>
        case u => SameViewTransitive(s, t, u.s);
      }
    }
  }

  lemma CheckPageView(s: System, k: nat, write: bool)
    requires SysInv(s) && s.current in s.areas && !TakesDemand(s, k)
    ensures match CheckPage(s, s.current, k, write) case Halt => true case v => SameView(s, v.s)
  {
    CheckEntryView(s, Slot(s.current, k), write);
  }

  // ---------------------------------------------------------------- ranges

  ghost function BusyPages(pt: map<Slot, Pte>, i: nat): set<nat> {
    set x | x in pt && x.space == i :: FIRST_USER_PAGE + x.page
  }

  function FirstOf(base: nat): nat
    requires base >= USER_LOW
  {
    base / PAGE_SIZE - FIRST_USER_PAGE
  }

  /** The base `vmm_map_range` settles on, before any frame is allocated. */
  ghost predicate Chosen(s: System, i: nat, busy: set<nat>, virt: nat, pages: nat, base: nat)
    requires i in s.areas && |s.areas[i]| == MAX_VMAS
  {
    && 0 < pages <= MAX_RANGE_PAGES
    && (if virt == 0 then LowestFit(s.areas[i], busy, base, pages)
        else base == virt && virt % PAGE_SIZE == 0 && USER_LOW <= virt && Fits(s.areas[i], busy, virt, pages))
    && FirstFree(s.areas[i], 0) < MAX_VMAS
  }

  /** `vmm_map_range` succeeds at `base`. */
  ghost predicate RangeMaps(s: System, i: nat, virt: nat, pages: nat, flags: Flags, base: nat) {
    && WellFormed(s.m.frames) && i in s.areas && |s.areas[i]| == MAX_VMAS
    && Chosen(s, i, BusyPages(s.m.pt, i), virt, pages, base)
    && CanMapRun(s.m, i, FirstOf(base), pages, flags.(write := true))
  }

  function WithArea(s: System, i: nat, base: nat, pages: nat, flags: Flags): System
    requires i in s.areas && |s.areas[i]| == MAX_VMAS && FirstFree(s.areas[i], 0) < MAX_VMAS
  {
    s.(areas := s.areas[i := Insert(s.areas[i], FirstFree(s.areas[i], 0), base, base + pages * PAGE_SIZE, flags)])
  }

  ghost function MapRange(s: System, i: nat, virt: nat, pages: nat, flags: Flags, base: nat): System
    requires RangeMaps(s, i, virt, pages, flags, base)
  {
    WithArea(s.(m := MapRun(s.m, i, FirstOf(base), pages, flags.(write := true))), i, base, pages, flags)
  }

  lemma ChosenRange(s: System, i: nat, busy: set<nat>, virt: nat, pages: nat, base: nat)
    requires i in s.areas && WellPlaced(s.areas[i]) && Chosen(s, i, busy, virt, pages, base)
    ensures GoodRange(base, base + pages * PAGE_SIZE) && !Overlaps(s.areas[i], base, base + pages * PAGE_SIZE)
    ensures !AnyBusy(busy, base / PAGE_SIZE, pages)
  {
  }

  lemma NotBusy(pt: map<Slot, Pte>, i: nat, base: nat, pages: nat)
    requires base >= USER_LOW && !AnyBusy(BusyPages(pt, i), base / PAGE_SIZE, pages)
    ensures forall x | x in RunSlots(i, FirstOf(base), pages) :: x !in pt
  {
    forall x | x in pt && x.space == i ensures FIRST_USER_PAGE + x.page in BusyPages(pt, i) { }
  }

  lemma EndAligned(virt: nat, pages: nat)
    requires virt % PAGE_SIZE == 0
    ensures (virt + pages * PAGE_SIZE) % PAGE_SIZE == 0
  {
  }

  /** The areas and the page tables can change independently. */
  lemma WithMachine(s: System, m: Machine)
    requires SysInv(s) && Inv(m) && m.refs == s.m.refs
    ensures SysInv(s.(m := m))
  {
  }

  lemma WithAreas(s: System, i: nat, areas: seq<Area>)
    requires SysInv(s) && i in s.areas && WellPlaced(areas)
    ensures SysInv(s.(areas := s.areas[i := areas]))
  {
  }

  lemma WithAreaKeeps(s: System, i: nat, base: nat, pages: nat, flags: Flags)
    requires SysInv(s) && i in s.areas && FirstFree(s.areas[i], 0) < MAX_VMAS
    requires GoodRange(base, base + pages * PAGE_SIZE) && !Overlaps(s.areas[i], base, base + pages * PAGE_SIZE)
    ensures var t := WithArea(s, i, base, pages, flags);
            SysInv(t) && t.m == s.m &&
            forall a: nat :: Covered(t.areas[i], a) <==> Covered(s.areas[i], a) || base <= a < base + pages * PAGE_SIZE
  {
    InsertAdds(s.areas[i], FirstFree(s.areas[i], 0), base, base + pages * PAGE_SIZE, flags);
    WithAreas(s, i, WithArea(s, i, base, pages, flags).areas[i]);
  }

  lemma MapRangeKeeps(s: System, i: nat, virt: nat, pages: nat, flags: Flags, base: nat)
    requires SysInv(s) && RangeMaps(s, i, virt, pages, flags, base)
    ensures var t := MapRange(s, i, virt, pages, flags, base);
            && SysInv(t) && Reserved(t.m.frames) == Reserved(s.m.frames) && t.m.refs == s.m.refs
            && Image(t.m).Keys == Image(s.m).Keys + RunSlots(i, FirstOf(base), pages)
            && RunSlots(i, FirstOf(base), pages) !! Image(s.m).Keys
            && (forall x | x in Image(s.m) :: Image(t.m)[x] == Image(s.m)[x])
  {
    hide Inv, Reserved, MapRun, CanMapRun, LowestFit, Overlaps, Insert;
    var first, f := FirstOf(base), flags.(write := true);
    ChosenRange(s, i, BusyPages(s.m.pt, i), virt, pages, base);
    NotBusy(s.m.pt, i, base, pages);
    MapRunKeeps(s.m, i, first, pages, f);
    MapRunTable(s.m, i, first, pages, f);
    WithMachine(s, MapRun(s.m, i, first, pages, f));
    WithAreaKeeps(s.(m := MapRun(s.m, i, first, pages, f)), i, base, pages, flags);
  }

  /** `vmm_unmap_range` succeeds. */
  ghost predicate RangeUnmaps(s: System, i: nat, virt: nat, pages: nat) {
    && WellFormed(s.m.frames) && i in s.areas && |s.areas[i]| == MAX_VMAS
    && 0 < pages && virt % PAGE_SIZE == 0 && USER_LOW <= virt && virt + pages * PAGE_SIZE <= USER_HIGH
    && RunSlots(i, FirstOf(virt), pages) <= s.m.pt.Keys
    && Container(s.areas[i], virt, virt + pages * PAGE_SIZE, 0) < MAX_VMAS
  }

  function UnmapRange(s: System, i: nat, virt: nat, pages: nat): System
    requires WellFormed(s.m.frames) && i in s.areas && |s.areas[i]| == MAX_VMAS && USER_LOW <= virt
    requires Container(s.areas[i], virt, virt + pages * PAGE_SIZE, 0) < MAX_VMAS
  {
    var end := virt + pages * PAGE_SIZE;
    s.(m := UnmapRun(s.m, i, FirstOf(virt), pages),
       areas := s.areas[i := Cut(s.areas[i], Container(s.areas[i], virt, end, 0), virt, end)])
  }

  lemma UnmapRangeKeeps(s: System, i: nat, virt: nat, pages: nat)
    requires SysInv(s) && RangeUnmaps(s, i, virt, pages)
    ensures var t := UnmapRange(s, i, virt, pages);
            && SysInv(t) && Reserved(t.m.frames) == Reserved(s.m.frames) && t.m.refs == s.m.refs
            && Image(t.m) == Image(s.m) - RunSlots(i, FirstOf(virt), pages)
  {
    var end := virt + pages * PAGE_SIZE;
    UnmapRunKeeps(s.m, i, FirstOf(virt), pages);
    UnmapRunTable(s.m, i, FirstOf(virt), pages);
    EndAligned(virt, pages);
    CutWellPlaced(s.areas[i], Container(s.areas[i], virt, end, 0), virt, end);
    WithMachine(s, UnmapRun(s.m, i, FirstOf(virt), pages));
    WithAreas(s.(m := UnmapRun(s.m, i, FirstOf(virt), pages)), i, UnmapRange(s, i, virt, pages).areas[i]);
  }
}
