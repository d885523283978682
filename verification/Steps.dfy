/**
  The memory operations as steps of two machines (mm/vmm.c).  `Performs` is what the kernel does,
  sharing frames and copying on write; `RefNext` is what a machine does in which a fork copies
  all pages at once and an operation on one space can only touch that space.  For each
  operation a step of the first is proved to be a step of the second.
 */
module Steps {
  import opened Numbers
  import opened Pmm
  import opened Cow
  import opened Fork
  import opened Areas
  import opened Paging

  datatype Op =
    | OpCreate
    | OpRetain(i: nat)
    | OpDestroy(i: nat)
    | OpSwitch(i: nat)
    | OpMap(i: nat, k: nat, flags: Flags)
    | OpUnmap(i: nat, k: nat)
    | OpForkCow(i: nat)
    | OpForkEager(i: nat)
    | OpStore(i: nat, k: nat, offset: nat, b: Byte)
    | OpMapRange(i: nat, virt: nat, pages: nat, flags: Flags)
    | OpMapLazy(i: nat, virt: nat, pages: nat, flags: Flags)
    | OpUnmapRange(i: nat, virt: nat, pages: nat)
    | OpValidate(i: nat, k: nat, n: nat, write: bool)
    | OpHold
    | OpDrop(p: nat)

  function FreshAreas(): (r: seq<Area>) {
    seq(MAX_VMAS, _ => Area(0, 0, Flags(false, false, 0), false))
  }

  // ---------------------------------------------------------------- the kernel's steps

  /** What the callers of each operation guarantee; stores and validation stay off the demand branch. */
  ghost predicate Allowed(s: System, op: Op) {
    match op
    case OpCreate => true
    case OpRetain(i) => i in s.m.refs
    case OpDestroy(i) => i in s.m.refs
    case OpSwitch(i) => i in s.m.refs || i == MAX_SPACES
    case OpMap(i, k, _) => i in s.m.refs && Slot(i, k) !in s.m.pt
    case OpUnmap(i, _) => i in s.m.refs
    case OpForkCow(i) => i in s.m.refs
    case OpForkEager(i) => i in s.m.refs
    case OpStore(i, k, _, _) => i == s.current && !TakesDemand(s, k)
    case OpMapRange(i, _, _, _) => i in s.m.refs
    case OpMapLazy(i, _, _, _) => i in s.m.refs
    case OpUnmapRange(i, _, _) => i in s.m.refs
    case OpValidate(i, k, n, _) => i == s.current && i in s.m.refs && forall j | k <= j < k + n :: !TakesDemand(s, j)
    case OpHold => true
    case OpDrop(_) => true
  }

  /** A new space `d` with the areas `a`. */
  function Adopt(s: System, r: (Machine, nat), a: seq<Area>): System {
    if r.1 == MAX_SPACES then s.(m := r.0) else s.(m := r.0, areas := s.areas[r.1 := a])
  }

  function DestroySpace(s: System, i: nat): System
    requires WellFormed(s.m.frames) && i in s.m.refs
  {
    var m := Destroy(s.m, i);
    if s.m.refs[i] > 1 then s.(m := m)
    else s.(m := m, areas := s.areas - {i}, current := if s.current == i then MAX_SPACES else s.current)
  }

  /** `t` may follow `s` when the kernel performs `op` without panicking. */
  ghost predicate Performs(s: System, op: Op, t: System)
    requires SysInv(s) && Allowed(s, op)
  {
    match op
    case OpCreate => t == Adopt(s, Create(s.m), FreshAreas())
    case OpRetain(i) => t == s.(m := s.m.(refs := s.m.refs[i := s.m.refs[i] + 1]))
    case OpDestroy(i) => t == DestroySpace(s, i)
    case OpSwitch(i) => t == s.(current := i)
    case OpMap(i, k, flags) => t == s.(m := MapFresh(s.m, Slot(i, k), flags))
    case OpUnmap(i, k) => t == s.(m := Unmap(s.m, Slot(i, k)))
    case OpForkCow(i) => t == Adopt(s, CloneCow(s.m, i), s.areas[i])
    case OpForkEager(i) => t == Adopt(s, CloneEager(s.m, i), s.areas[i])
    case OpStore(_, k, offset, b) => UserStore(s, k, offset, b) == Resolved(t)
    case OpMapRange(i, virt, pages, flags) =>
      || (exists base :: RangeMaps(s, i, virt, pages, flags, base) && t == MapRange(s, i, virt, pages, flags, base))
      || ((forall base: nat :: !RangeMaps(s, i, virt, pages, flags, base)) && t == s)
    case OpMapLazy(i, virt, pages, flags) =>
      || (exists base :: Chosen(s, i, {}, virt, pages, base) && t == WithArea(s, i, base, pages, flags))
      || ((forall base: nat :: !Chosen(s, i, {}, virt, pages, base)) && t == s)
    case OpUnmapRange(i, virt, pages) =>
      t == if RangeUnmaps(s, i, virt, pages) then UnmapRange(s, i, virt, pages) else s
    case OpValidate(i, k, n, write) => CheckRun(s, i, k, n, write) in {Accept(t), Reject(t)}
    case OpHold => t == s.(m := Hold(s.m))
    case OpDrop(p) => t == s.(m := Drop(s.m, p))
  }

  // ---------------------------------------------------------------- the reference machine

  /** The pages every space reads, and how many owners each space has. */
  datatype Ref = Ref(image: map<Slot, Page>, refs: map<nat, nat>)

  ghost function View(s: System): Ref {
    Ref(Image(s.m), s.m.refs)
  }

  /** A fork copies every page of `i` into a space `d` that did not exist. */
  ghost predicate RefFork(a: Ref, i: nat, b: Ref) {
    a == b || exists d: nat :: d !in a.refs && b == Ref(CopyImage(a.image, i, d, USER_PAGES), a.refs[d := 1])
  }

  ghost predicate RefAdds(a: Ref, slots: set<Slot>, b: Ref) {
    && b.refs == a.refs && slots !! a.image.Keys && b.image.Keys == a.image.Keys + slots
    && forall x | x in a.image :: b.image[x] == a.image[x]
  }

  ghost predicate RefNext(a: Ref, op: Op, b: Ref) {
    match op
    case OpCreate => a == b || exists d: nat :: d !in a.refs && b == a.(refs := a.refs[d := 1])
    case OpRetain(i) => i in a.refs && b == a.(refs := a.refs[i := a.refs[i] + 1])
    case OpDestroy(i) =>
      i in a.refs &&
      b == if a.refs[i] > 1 then a.(refs := a.refs[i := a.refs[i] - 1]) else Ref(Without(a.image, i), a.refs - {i})
    case OpMap(i, k, _) => a == b || RefAdds(a, {Slot(i, k)}, b)
    case OpUnmap(i, k) => b == a.(image := a.image - {Slot(i, k)})
    case OpForkCow(i) => RefFork(a, i, b)
    case OpForkEager(i) => RefFork(a, i, b)
    case OpStore(i, k, offset, c) =>
      var x := Slot(i, k);
      x in a.image && b == a.(image := a.image[x := StorePage(a.image[x], offset, c)])
    case OpMapRange(i, virt, pages, _) =>
      a == b || exists first: nat :: (virt == 0 || Address(first) == virt) && RefAdds(a, RunSlots(i, first, pages), b)
    case OpUnmapRange(i, virt, pages) =>
      a == b || (virt >= USER_LOW && b == a.(image := a.image - RunSlots(i, FirstOf(virt), pages)))
    case _ => a == b
  }

  /** The space an operation names; operations without one name no space. */
  function Target(op: Op): nat {
    match op
    case OpDestroy(i) => i
    case OpMap(i, _, _) => i
    case OpUnmap(i, _) => i
    case OpStore(i, _, _, _) => i
    case OpMapRange(i, _, _, _) => i
    case OpUnmapRange(i, _, _) => i
    case _ => MAX_SPACES
  }

  /** In the reference machine an operation changes nothing in the other spaces that exist. */
  lemma RefIsolation(a: Ref, op: Op, b: Ref, x: Slot)
    requires RefNext(a, op, b) && x.space in a.refs && x.space != Target(op)
    requires forall y | y in a.image :: y.space in a.refs
    ensures x in a.image <==> x in b.image
    ensures x in a.image ==> a.image[x] == b.image[x]
  {
    match op
    case OpForkCow(i) => ForkIsolation(a, i, b, x);
    case OpForkEager(i) => ForkIsolation(a, i, b, x);
    case _ =>
  }

  lemma ForkIsolation(a: Ref, i: nat, b: Ref, x: Slot)
    requires RefFork(a, i, b) && x.space in a.refs
    requires forall y | y in a.image :: y.space in a.refs
    ensures x in a.image <==> x in b.image
    ensures x in a.image ==> a.image[x] == b.image[x]
  {
    if a != b {
      var d: nat :| d !in a.refs && b == Ref(CopyImage(a.image, i, d, USER_PAGES), a.refs[d := 1]);
      if i == d {
        SelfCopy(a.image, i, USER_PAGES);
      } else {
        CopyImageAt(a.image, i, d, USER_PAGES, x);
      }
    }
  }

  lemma {:induction false} SelfCopy(img: map<Slot, Page>, i: nat, n: nat)
    requires forall y | y in img :: y.space != i
    ensures CopyImage(img, i, i, n) == img
  {
    if n == 0 {
    } else {
      SelfCopy(img, i, n - 1);
    }
  }

  // ---------------------------------------------------------------- every step refines

  /** The step keeps the invariant, leaks and invents no frame, and looks like the reference step. */
  ghost predicate Faithful(s: System, op: Op, t: System)
    requires WellFormed(s.m.frames)
  {
    SysInv(t) && Reserved(t.m.frames) == Reserved(s.m.frames) && RefNext(View(s), op, View(t))
  }

  lemma AdoptKeeps(s: System, r: (Machine, nat), a: seq<Area>)
    requires SysInv(s) && Inv(r.0) && WellPlaced(a)
    requires if r.1 == MAX_SPACES then r.0.refs == s.m.refs else r.1 !in s.m.refs && r.0.refs == s.m.refs[r.1 := 1]
    ensures SysInv(Adopt(s, r, a))
  {
  }

  /** After either fork the child has the areas of its parent, and everyone else keeps theirs. */
  lemma ForkAreas(s: System, op: Op, t: System)
    requires SysInv(s) && (op.OpForkCow? || op.OpForkEager?) && Allowed(s, op) && Performs(s, op, t)
    ensures t.areas == s.areas ||
            exists d: nat :: d !in s.m.refs && d in t.m.refs && t.areas == s.areas[d := s.areas[op.i]]
    ensures t.areas == s.areas <==> t.m.refs == s.m.refs
  {
    hide ShareUpTo, CopyUpTo, CanCopy, Destroy, Exact, Private, TypedTable, Image, CopyImage;
    CloneCowKeeps(s.m, op.i);
    CloneEagerKeeps(s.m, op.i);
    AdoptAreas(s, if op.OpForkCow? then CloneCow(s.m, op.i) else CloneEager(s.m, op.i), s.areas[op.i]);
  }

  lemma AdoptAreas(s: System, r: (Machine, nat), a: seq<Area>)
    requires s.areas.Keys == s.m.refs.Keys
    requires if r.1 == MAX_SPACES then r.0.refs == s.m.refs else r.1 !in s.m.refs && r.0.refs == s.m.refs[r.1 := 1]
    ensures var t := Adopt(s, r, a);
            && (t.areas == s.areas || exists d: nat :: d !in s.m.refs && d in t.m.refs && t.areas == s.areas[d := a])
            && (t.areas == s.areas <==> t.m.refs == s.m.refs)
  {
    var t := Adopt(s, r, a);
    if r.1 != MAX_SPACES { assert r.1 in t.areas && r.1 in t.m.refs; }
  }

  lemma CreateStep(s: System, t: System)
    requires SysInv(s) && Performs(s, OpCreate, t)
    ensures Faithful(s, OpCreate, t)
  {
    CreateKeeps(s.m);
    AdoptKeeps(s, Create(s.m), FreshAreas());
    assert Image(t.m) == Image(s.m);
  }

  lemma RetainStep(s: System, i: nat, t: System)
    requires SysInv(s) && Allowed(s, OpRetain(i)) && Performs(s, OpRetain(i), t)
    ensures Faithful(s, OpRetain(i), t)
  {
    assert t.m.refs.Keys == s.m.refs.Keys;
    assert Image(t.m) == Image(s.m);
  }

  lemma DestroyStep(s: System, i: nat, t: System)
    requires SysInv(s) && Allowed(s, OpDestroy(i)) && Performs(s, OpDestroy(i), t)
    ensures Faithful(s, OpDestroy(i), t)
  {
    DestroyKeeps(s.m, i);
  }

  lemma MapStep(s: System, i: nat, k: nat, flags: Flags, t: System)
    requires SysInv(s) && Allowed(s, OpMap(i, k, flags)) && Performs(s, OpMap(i, k, flags), t)
    ensures Faithful(s, OpMap(i, k, flags), t)
  {
    hide Exact, Private, Reserved, Owned, Clear, WellFormed, Create, Adopt, DestroySpace, CloneCow, CloneEager;
    if CanMap(s.m, Slot(i, k)) {
      MapFreshKeeps(s.m, Slot(i, k), flags);
      WithMachine(s, t.m);
      assert RefAdds(View(s), {Slot(i, k)}, View(t));
    }
  }

  lemma UnmapStep(s: System, i: nat, k: nat, t: System)
    requires SysInv(s) && Allowed(s, OpUnmap(i, k)) && Performs(s, OpUnmap(i, k), t)
    ensures Faithful(s, OpUnmap(i, k), t)
  {
    if Slot(i, k) in s.m.pt {
      UnmapKeeps(s.m, Slot(i, k));
      WithMachine(s, t.m);
    }
    assert Image(t.m) == Image(s.m) - {Slot(i, k)};
  }

  lemma ForkCowStep(s: System, i: nat, t: System)
    requires SysInv(s) && Allowed(s, OpForkCow(i)) && Performs(s, OpForkCow(i), t)
    ensures Faithful(s, OpForkCow(i), t)
  {
    CloneCowKeeps(s.m, i);
    AdoptKeeps(s, CloneCow(s.m, i), s.areas[i]);
  }

  lemma ForkEagerStep(s: System, i: nat, t: System)
    requires SysInv(s) && Allowed(s, OpForkEager(i)) && Performs(s, OpForkEager(i), t)
    ensures Faithful(s, OpForkEager(i), t)
  {
    CloneEagerKeeps(s.m, i);
    AdoptKeeps(s, CloneEager(s.m, i), s.areas[i]);
  }

  lemma AddressOfFirst(base: nat)
    requires base >= USER_LOW && base % PAGE_SIZE == 0
    ensures Address(FirstOf(base)) == base
  {
  }

  lemma MapRangeStep(s: System, i: nat, virt: nat, pages: nat, flags: Flags, t: System)
    requires SysInv(s) && Allowed(s, OpMapRange(i, virt, pages, flags))
    requires Performs(s, OpMapRange(i, virt, pages, flags), t)
    ensures Faithful(s, OpMapRange(i, virt, pages, flags), t)
  {
    if base :| RangeMaps(s, i, virt, pages, flags, base) && t == MapRange(s, i, virt, pages, flags, base) {
      MapRangeKeeps(s, i, virt, pages, flags, base);
      AddressOfFirst(base);
      assert RefAdds(View(s), RunSlots(i, FirstOf(base), pages), View(t));
    }
  }

  lemma MapLazyStep(s: System, i: nat, virt: nat, pages: nat, flags: Flags, t: System)
    requires SysInv(s) && Allowed(s, OpMapLazy(i, virt, pages, flags))
    requires Performs(s, OpMapLazy(i, virt, pages, flags), t)
    ensures Faithful(s, OpMapLazy(i, virt, pages, flags), t)
  {
    if base :| Chosen(s, i, {}, virt, pages, base) && t == WithArea(s, i, base, pages, flags) {
      ChosenRange(s, i, {}, virt, pages, base);
      WithAreaKeeps(s, i, base, pages, flags);
    }
  }

  lemma UnmapRangeStep(s: System, i: nat, virt: nat, pages: nat, t: System)
    requires SysInv(s) && Allowed(s, OpUnmapRange(i, virt, pages)) && Performs(s, OpUnmapRange(i, virt, pages), t)
    ensures Faithful(s, OpUnmapRange(i, virt, pages), t)
  {
    if RangeUnmaps(s, i, virt, pages) { UnmapRangeKeeps(s, i, virt, pages); }
  }

  lemma SwitchStep(s: System, i: nat, t: System)
    requires SysInv(s) && Allowed(s, OpSwitch(i)) && Performs(s, OpSwitch(i), t)
    ensures Faithful(s, OpSwitch(i), t)
  {
  }

  lemma StoreStep(s: System, i: nat, k: nat, offset: nat, b: Byte, t: System)
    requires SysInv(s) && Allowed(s, OpStore(i, k, offset, b)) && Performs(s, OpStore(i, k, offset, b), t)
    ensures Faithful(s, OpStore(i, k, offset, b), t)
  {
    hide UserStore, Store, Inv;
    UserStoreKeeps(s, k, offset, b);
  }

  lemma ValidateStep(s: System, i: nat, k: nat, n: nat, write: bool, t: System)
    requires SysInv(s) && Allowed(s, OpValidate(i, k, n, write)) && Performs(s, OpValidate(i, k, n, write), t)
    ensures Faithful(s, OpValidate(i, k, n, write), t)
  {
    hide CheckRun;
    CheckRunView(s, k, n, write);
  }

  lemma HoldStep(s: System, t: System)
    requires SysInv(s) && Performs(s, OpHold, t)
    ensures Faithful(s, OpHold, t)
  {
    HoldKeeps(s.m);
    WithMachine(s, t.m);
  }

  lemma DropStep(s: System, p: nat, t: System)
    requires SysInv(s) && Performs(s, OpDrop(p), t)
    ensures Faithful(s, OpDrop(p), t)
  {
    DropKeeps(s.m, p);
    WithMachine(s, t.m);
  }
}
