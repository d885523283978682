/** Areas of an address space (mm/vmm.c). */
module Areas {
  import opened Numbers
  import opened Pmm
  import opened Cow

  // `vma_overlaps` and the interval bookkeeping of `vmm_map_range`, `vmm_map_lazy_range` and
  // `vmm_unmap_range`.

  const MAX_VMAS: nat := 64
  const USER_LOW: nat := 0x0040_0000
  const USER_HIGH: nat := 0xc000_0000
  const PLACE_BASE: nat := 0x0100_0000
  const MAX_RANGE_PAGES: nat := 0x80000

  datatype Area = Area(start: nat, end: nat, flags: Flags, used: bool)

  /** The address range an area of this shape may occupy. */
  predicate GoodRange(start: nat, end: nat) {
    USER_LOW <= start < end <= USER_HIGH && start % PAGE_SIZE == 0 && end % PAGE_SIZE == 0
  }

  predicate Holds(a: Area, address: nat) {
    a.used && a.start <= address < a.end
  }

  predicate Hits(a: Area, start: nat, end: nat) {
    a.used && start < a.end && end > a.start
  }

  ghost predicate Disjoint(areas: seq<Area>, i: nat, j: nat)
    requires i < |areas| && j < |areas|
  {
    i != j && areas[i].used && areas[j].used ==> areas[i].end <= areas[j].start || areas[j].end <= areas[i].start
  }

  /** Used areas are aligned, in range and pairwise disjoint. */
  ghost predicate WellPlaced(areas: seq<Area>) {
    && |areas| == MAX_VMAS
    && (forall i | 0 <= i < |areas| && areas[i].used :: GoodRange(areas[i].start, areas[i].end))
    && (forall i: nat, j: nat | i < |areas| && j < |areas| :: Disjoint(areas, i, j))
  }

  ghost predicate Covered(areas: seq<Area>, address: nat) {
    exists i | 0 <= i < |areas| :: Holds(areas[i], address)
  }

  /** An area with these flags holds the address. */
  ghost predicate Flagged(areas: seq<Area>, address: nat, flags: Flags) {
    exists i | 0 <= i < |areas| :: Holds(areas[i], address) && areas[i].flags == flags
  }

  ghost predicate Overlaps(areas: seq<Area>, start: nat, end: nat) {
    exists i | 0 <= i < |areas| :: Hits(areas[i], start, end)
  }

  /** A range overlaps the areas exactly when they cover one of its addresses; ranges that only touch do not. */
  lemma OverlapsIff(areas: seq<Area>, start: nat, end: nat)
    requires WellPlaced(areas) && start < end
    ensures Overlaps(areas, start, end) <==> exists a: nat :: start <= a < end && Covered(areas, a)
  {
    if Overlaps(areas, start, end) {
      var i :| 0 <= i < |areas| && Hits(areas[i], start, end);
      var a := if start <= areas[i].start then areas[i].start else start;
      assert Holds(areas[i], a);
      assert Covered(areas, a);
    }
    if a: nat :| start <= a < end && Covered(areas, a) {
      var i :| 0 <= i < |areas| && Holds(areas[i], a);
      assert Hits(areas[i], start, end);
    }
  }

  /** First unused slot at or after `from`, or MAX_VMAS. */
  function FirstFree(areas: seq<Area>, from: nat): (r: nat)
    requires |areas| == MAX_VMAS && from <= MAX_VMAS
    ensures from <= r <= MAX_VMAS && (r < MAX_VMAS ==> !areas[r].used)
    ensures forall i | from <= i < r :: areas[i].used
    decreases MAX_VMAS - from, areas
  {
    if from == MAX_VMAS || !areas[from].used then from else FirstFree(areas, from + 1)
  }

  /** First area at or after `from` that contains `lo..hi`, or MAX_VMAS. */
  function Container(areas: seq<Area>, lo: nat, hi: nat, from: nat): (r: nat)
    requires |areas| == MAX_VMAS && from <= MAX_VMAS
    ensures from <= r <= MAX_VMAS
    ensures r < MAX_VMAS ==> areas[r].used && areas[r].start <= lo && hi <= areas[r].end
    decreases MAX_VMAS - from, areas
  {
    if from == MAX_VMAS || (areas[from].used && areas[from].start <= lo && hi <= areas[from].end) then from
    else Container(areas, lo, hi, from + 1)
  }

  /** No earlier area contains the range, so the search is complete. */
  lemma {:induction false} ContainerFirst(areas: seq<Area>, lo: nat, hi: nat, from: nat, i: nat)
    requires |areas| == MAX_VMAS && from <= i < MAX_VMAS && i < Container(areas, lo, hi, from)
    ensures !(areas[i].used && areas[i].start <= lo && hi <= areas[i].end)
    decreases MAX_VMAS - from
  {
    if from == i {
    } else {
      ContainerFirst(areas, lo, hi, from + 1, i);
    }
  }

  // ---------------------------------------------------------------- adding an interval

  function Insert(areas: seq<Area>, slot: nat, start: nat, end: nat, flags: Flags): seq<Area>
    requires slot < |areas|
  {
    areas[slot := Area(start, end, flags, true)]
  }

  /** A successful map adds exactly its interval and keeps the areas disjoint. */
  lemma InsertAdds(areas: seq<Area>, slot: nat, start: nat, end: nat, flags: Flags)
    requires WellPlaced(areas) && slot < MAX_VMAS && !areas[slot].used
    requires GoodRange(start, end) && !Overlaps(areas, start, end)
    ensures var r := Insert(areas, slot, start, end, flags);
            WellPlaced(r) && forall a: nat :: Covered(r, a) <==> Covered(areas, a) || start <= a < end
  {
    var r := Insert(areas, slot, start, end, flags);
    forall i: nat, j: nat | i < |r| && j < |r| ensures Disjoint(r, i, j) {
      assert Disjoint(areas, i, j);
      assert !Hits(areas[i], start, end) && !Hits(areas[j], start, end);
    }
    forall a: nat ensures Covered(r, a) <==> Covered(areas, a) || start <= a < end {
      if start <= a < end { assert Holds(r[slot], a); }
      if Covered(areas, a) {
        var i :| 0 <= i < |areas| && Holds(areas[i], a);
        assert Holds(r[i], a);
      }
      if Covered(r, a) {
        var i :| 0 <= i < |r| && Holds(r[i], a);
        if i != slot { assert Holds(areas[i], a); }
      }
    }
  }

  /** The new addresses get the flags asked for, and every other address keeps its flags. */
  lemma InsertFlags(areas: seq<Area>, slot: nat, start: nat, end: nat, flags: Flags, a: nat, f: Flags)
    requires WellPlaced(areas) && slot < MAX_VMAS && !areas[slot].used
    ensures Flagged(Insert(areas, slot, start, end, flags), a, f) <==>
            Flagged(areas, a, f) || (start <= a < end && f == flags)
  {
    var r := Insert(areas, slot, start, end, flags);
    if start <= a < end { assert Holds(r[slot], a); }
    if Flagged(areas, a, f) {
      var i :| 0 <= i < |areas| && Holds(areas[i], a) && areas[i].flags == f;
      assert Holds(r[i], a);
    }
    if Flagged(r, a, f) {
      var i :| 0 <= i < |r| && Holds(r[i], a) && r[i].flags == f;
      if i != slot { assert Holds(areas[i], a); }
    }
  }

  // ---------------------------------------------------------------- removing an interval

  /** The four cases at the end of `vmm_unmap_range`; a middle cut without a free slot changes nothing. */
  function Cut(areas: seq<Area>, k: nat, lo: nat, hi: nat): (r: seq<Area>)
    requires |areas| == MAX_VMAS && k < MAX_VMAS
  {
    var a := areas[k];
    if lo == a.start && hi == a.end then areas[k := a.(used := false)]
    else if lo == a.start then areas[k := a.(start := hi)]
    else if hi == a.end then areas[k := a.(end := lo)]
    else
      var j := FirstFree(areas, 0);
      if j == MAX_VMAS then areas else areas[j := a.(start := hi)][k := a.(end := lo)]
  }

  ghost predicate CutRoom(areas: seq<Area>, k: nat, lo: nat, hi: nat)
    requires |areas| == MAX_VMAS && k < MAX_VMAS
  {
    lo == areas[k].start || hi == areas[k].end || FirstFree(areas, 0) < MAX_VMAS
  }

  lemma CutWellPlaced(areas: seq<Area>, k: nat, lo: nat, hi: nat)
    requires WellPlaced(areas) && k < MAX_VMAS && areas[k].used && areas[k].start <= lo < hi <= areas[k].end
    requires lo % PAGE_SIZE == 0 && hi % PAGE_SIZE == 0
    ensures WellPlaced(Cut(areas, k, lo, hi))
  {
    var r := Cut(areas, k, lo, hi);
    forall i: nat, j: nat | i < |r| && j < |r| ensures Disjoint(r, i, j) {
      assert Disjoint(areas, i, j) && Disjoint(areas, i, k) && Disjoint(areas, k, j);
    }
  }

  /** What the cut leaves, address by address. */
  lemma CutCovers(areas: seq<Area>, k: nat, lo: nat, hi: nat, a: nat)
    requires WellPlaced(areas) && k < MAX_VMAS && areas[k].used && areas[k].start <= lo < hi <= areas[k].end
    requires CutRoom(areas, k, lo, hi)
    ensures Covered(Cut(areas, k, lo, hi), a) <==> Covered(areas, a) && !(lo <= a < hi)
  {
    var r := Cut(areas, k, lo, hi);
    var f := FirstFree(areas, 0);
    if Covered(areas, a) && !(lo <= a < hi) {
      var i :| 0 <= i < |areas| && Holds(areas[i], a);
      if i != k {
        assert Holds(r[i], a);
      } else if a < lo {
        assert Holds(r[k], a);
      } else {
        assert Holds(r[k], a) || Holds(r[f], a);
      }
    }
    if Covered(r, a) {
      var i :| 0 <= i < |r| && Holds(r[i], a);
      assert Disjoint(areas, i, k);
      if i == k || areas[i] != r[i] { assert Holds(areas[k], a); } else { assert Holds(areas[i], a); }
    }
  }

  /** What is left keeps its flags, both halves of a middle cut included. */
  lemma CutFlags(areas: seq<Area>, k: nat, lo: nat, hi: nat, a: nat, f: Flags)
    requires WellPlaced(areas) && k < MAX_VMAS && areas[k].used && areas[k].start <= lo < hi <= areas[k].end
    requires CutRoom(areas, k, lo, hi)
    ensures Flagged(Cut(areas, k, lo, hi), a, f) <==> Flagged(areas, a, f) && !(lo <= a < hi)
  {
    var r := Cut(areas, k, lo, hi);
    var j := FirstFree(areas, 0);
    if Flagged(areas, a, f) && !(lo <= a < hi) {
      var i :| 0 <= i < |areas| && Holds(areas[i], a) && areas[i].flags == f;
      assert if i != k then Holds(r[i], a) else Holds(r[k], a) || Holds(r[j], a);
    }
    if Flagged(r, a, f) {
      var i :| 0 <= i < |r| && Holds(r[i], a) && r[i].flags == f;
      assert Disjoint(areas, i, k);
      assert Holds(if i == k || areas[i] != r[i] then areas[k] else areas[i], a);
    }
  }

  /** Unmapping removes exactly its interval if and only if it touches an edge or a slot is free. */
  lemma CutExactIff(areas: seq<Area>, k: nat, lo: nat, hi: nat)
    requires WellPlaced(areas) && k < MAX_VMAS && areas[k].used && areas[k].start <= lo < hi <= areas[k].end
    ensures (forall a: nat :: Covered(Cut(areas, k, lo, hi), a) <==> Covered(areas, a) && !(lo <= a < hi))
       <==> CutRoom(areas, k, lo, hi)
  {
    if CutRoom(areas, k, lo, hi) {
      forall a: nat { CutCovers(areas, k, lo, hi, a); }
    } else {
      assert Holds(areas[k], lo);
      assert Covered(Cut(areas, k, lo, hi), lo);
    }
  }

  function CrowdedAt(i: nat): nat {
    USER_LOW + 3 * i * PAGE_SIZE
  }

  /** Every area slot in use, for three pages each. */
  function Crowded(): seq<Area> {
    seq(MAX_VMAS, i requires 0 <= i < MAX_VMAS => Area(CrowdedAt(i), CrowdedAt(i + 1), Flags(true, false, 0), true))
  }

  /** A table where it fails: the middle page of the first area cannot be taken out. */
  lemma MiddleCutFails()
    ensures var areas, lo := Crowded(), USER_LOW + PAGE_SIZE;
            && WellPlaced(areas) && areas[0].start < lo && lo + PAGE_SIZE < areas[0].end
            && !CutRoom(areas, 0, lo, lo + PAGE_SIZE)
            && Covered(Cut(areas, 0, lo, lo + PAGE_SIZE), lo)
  {
    hide Crowded, WellPlaced, FirstFree;
    var areas, lo := Crowded(), USER_LOW + PAGE_SIZE;
    CrowdedPlaced();
    assert Holds(areas[0], lo);
  }

  lemma CrowdedPlaced()
    ensures var areas := Crowded();
            && WellPlaced(areas) && |areas| == MAX_VMAS && (forall i: nat | i < MAX_VMAS :: areas[i].used)
            && areas[0].start == USER_LOW && areas[0].end == USER_LOW + 3 * PAGE_SIZE
  {
    hide CrowdedAt;
    var areas := Crowded();
    CrowdedFirst();
    forall i | 0 <= i < |areas| ensures GoodRange(areas[i].start, areas[i].end) { CrowdedGood(i); }
    forall i: nat, j: nat | i < |areas| && j < |areas| ensures Disjoint(areas, i, j) {
      if i < j { CrowdedInOrder(i, j); } else if j < i { CrowdedInOrder(j, i); }
    }
  }

  lemma CrowdedOnPages(i: nat)
    ensures CrowdedAt(i) % PAGE_SIZE == 0
  {
    assert CrowdedAt(i) == (USER_LOW / PAGE_SIZE + 3 * i) * PAGE_SIZE;
  }

  lemma CrowdedFirst()
    ensures CrowdedAt(0) == USER_LOW && CrowdedAt(1) == USER_LOW + 3 * PAGE_SIZE
  {
  }

  lemma CrowdedGood(i: nat)
    requires i < MAX_VMAS
    ensures GoodRange(CrowdedAt(i), CrowdedAt(i + 1))
  {
    CrowdedOnPages(i);
    CrowdedOnPages(i + 1);
  }

  lemma CrowdedInOrder(i: nat, j: nat)
    requires i < j
    ensures CrowdedAt(i + 1) <= CrowdedAt(j)
  {
    assert CrowdedAt(j) - CrowdedAt(i + 1) == 3 * (j - i - 1) * PAGE_SIZE;
  }

  // ---------------------------------------------------------------- automatic placement

  /** `base + pages * 4096` in 32 bits. */
  function RangeEnd(base: nat, pages: nat): nat {
    (base + pages * PAGE_SIZE) % WORD
  }

  predicate OutOfRange(base: nat, end: nat) {
    end < base || end > USER_HIGH
  }

  /** The two 32-bit comparisons reject exactly the ranges that end above user space. */
  lemma OutOfRangeIff(base: nat, pages: nat)
    requires base < WORD && 0 < pages <= MAX_RANGE_PAGES
    ensures OutOfRange(base, RangeEnd(base, pages)) <==> base + pages * PAGE_SIZE > USER_HIGH
    ensures !OutOfRange(base, RangeEnd(base, pages)) ==> RangeEnd(base, pages) == base + pages * PAGE_SIZE
  {
  }

  /** Nothing mapped or reserved in the way; `busy` is the set of mapped pages that count. */
  ghost predicate Fits(areas: seq<Area>, busy: set<nat>, base: nat, pages: nat) {
    && base + pages * PAGE_SIZE <= USER_HIGH
    && !Overlaps(areas, base, base + pages * PAGE_SIZE)
    && !AnyBusy(busy, base / PAGE_SIZE, pages)
  }

  ghost predicate AnyBusy(busy: set<nat>, page: nat, pages: nat) {
    exists v | v in busy :: page <= v < page + pages
  }

  /** `base` is the lowest page at or above the placement base where the range fits. */
  ghost predicate LowestFit(areas: seq<Area>, busy: set<nat>, base: nat, pages: nat) {
    && PLACE_BASE <= base && base % PAGE_SIZE == 0 && Fits(areas, busy, base, pages)
    && forall b | PLACE_BASE <= b < base && b % PAGE_SIZE == 0 :: !Fits(areas, busy, b, pages)
  }

  /** `vma_overlaps`. */
  method FindOverlap(areas: seq<Area>, start: nat, end: nat) returns (r: bool)
    ensures r <==> Overlaps(areas, start, end)
  {
    for i := 0 to |areas|
      invariant forall j | 0 <= j < i :: !Hits(areas[j], start, end)
    {
      if Hits(areas[i], start, end) { return true; }
    }
    return false;
  }

  method FindFree(areas: seq<Area>) returns (slot: nat)
    requires |areas| == MAX_VMAS
    ensures slot == FirstFree(areas, 0)
  {
    slot := 0;
    while slot < MAX_VMAS
      invariant slot <= MAX_VMAS && FirstFree(areas, slot) == FirstFree(areas, 0)
    {
      if !areas[slot].used { return; }
      slot := slot + 1;
    }
  }

  method FindContainer(areas: seq<Area>, lo: nat, hi: nat) returns (slot: nat)
    requires |areas| == MAX_VMAS
    ensures slot == Container(areas, lo, hi, 0)
  {
    slot := 0;
    while slot < MAX_VMAS
      invariant slot <= MAX_VMAS && Container(areas, lo, hi, slot) == Container(areas, lo, hi, 0)
    {
      if areas[slot].used && lo >= areas[slot].start && hi <= areas[slot].end { return; }
      slot := slot + 1;
    }
  }

  method FindBusy(busy: set<nat>, page: nat, pages: nat) returns (r: bool)
    ensures r <==> AnyBusy(busy, page, pages)
  {
    for i := 0 to pages
      invariant !AnyBusy(busy, page, i)
    {
      if page + i in busy { return true; }
    }
    return false;
  }

  /** The search loop of both mapping calls: the lowest fit, or a base the caller then rejects. */
  method Place(areas: seq<Area>, busy: set<nat>, pages: nat) returns (base: nat)
    requires 0 < pages <= MAX_RANGE_PAGES
    ensures base <= USER_HIGH && base % PAGE_SIZE == 0
    ensures LowestFit(areas, busy, base, pages) ||
            (base + pages * PAGE_SIZE > USER_HIGH && forall b: nat :: !LowestFit(areas, busy, b, pages))
  {
    base := PLACE_BASE;
    while base < USER_HIGH
      invariant PLACE_BASE <= base <= USER_HIGH && base % PAGE_SIZE == 0
      invariant forall b | PLACE_BASE <= b < base && b % PAGE_SIZE == 0 :: !Fits(areas, busy, b, pages)
    {
      OutOfRangeIff(base, pages);
      if OutOfRange(base, RangeEnd(base, pages)) { break; }
      var overlap := FindOverlap(areas, base, RangeEnd(base, pages));
      if !overlap {
        var taken := FindBusy(busy, base / PAGE_SIZE, pages);
        if !taken { return; }
      }
      base := base + PAGE_SIZE;
    }
  }
}
