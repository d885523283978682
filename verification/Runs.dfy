/** Every run of the memory operations. */
module Runs {
  import opened Pmm
  import opened Cow
  import opened Fork
  import opened Areas
  import opened Paging
  import opened Steps

  // `RunRefines` says that the kernel, which shares frames and copies on write, cannot be told
  // apart from the reference machine `Ref`, in which nothing is ever shared.

  /** Whatever the operation, the step is faithful. */
  lemma NextFaithful(s: System, op: Op, t: System)
    requires SysInv(s) && Allowed(s, op) && Performs(s, op, t)
    ensures Faithful(s, op, t)
  {
    hide *;
    match op
    case OpCreate => CreateStep(s, t);
    case OpRetain(i) => RetainStep(s, i, t);
    case OpDestroy(i) => DestroyStep(s, i, t);
    case OpSwitch(i) => SwitchStep(s, i, t);
    case OpMap(i, k, flags) => MapStep(s, i, k, flags, t);
    case OpUnmap(i, k) => UnmapStep(s, i, k, t);
    case OpForkCow(i) => ForkCowStep(s, i, t);
    case OpForkEager(i) => ForkEagerStep(s, i, t);
    case OpStore(i, k, offset, b) => StoreStep(s, i, k, offset, b, t);
    case OpMapRange(i, virt, pages, flags) => MapRangeStep(s, i, virt, pages, flags, t);
    case OpMapLazy(i, virt, pages, flags) => MapLazyStep(s, i, virt, pages, flags, t);
    case OpUnmapRange(i, virt, pages) => UnmapRangeStep(s, i, virt, pages, t);
    case OpValidate(i, k, n, write) => ValidateStep(s, i, k, n, write, t);
    case OpHold => HoldStep(s, t);
    case OpDrop(p) => DropStep(s, p, t);
  }

  // ---------------------------------------------------------------- runs

  /** The machine after boot: frames as the allocator found them, no address space yet. */
  function Boot(frames: Frames, mem: seq<Page>): System {
    System(Machine(frames, mem, map[], map[], {}), map[], MAX_SPACES, WINDOW_HOME)
  }

  lemma BootInv(frames: Frames, mem: seq<Page>)
    requires Balanced(frames) && Owned(frames.refs) == {} && |mem| == MAX_PHYS_PAGES
    ensures SysInv(Boot(frames, mem))
  {
    var pt: map<Slot, Pte> := map[];
    forall p: nat | p < |frames.refs| ensures frames.refs[p] == |Mappers(pt, p)| {
      assert p !in Owned(frames.refs);
      assert Mappers(pt, p) == {};
    }
    forall x, y ensures !Clash(pt, x, y) { }
  }

  /** `states` is a run of the operations `ops`. */
  ghost predicate Run(states: seq<System>, ops: seq<Op>) {
    && |states| == |ops| + 1
    && SysInv(states[0])
    && forall n: nat | n < |ops| ::
         SysInv(states[n]) ==> Allowed(states[n], ops[n]) && Performs(states[n], ops[n], states[n + 1])
  }

  /** Every state of every run is sound, and every step is a step of the reference machine. */
  lemma {:induction false} RunRefines(states: seq<System>, ops: seq<Op>, n: nat)
    requires Run(states, ops) && n <= |ops|
    ensures SysInv(states[n]) && Reserved(states[n].m.frames) == Reserved(states[0].m.frames)
    ensures forall j: nat | j < n :: RefNext(View(states[j]), ops[j], View(states[j + 1]))
  {
    hide SysInv, Performs, Allowed, RefNext, Reserved, View;
    if n == 0 {
    } else {
      RunRefines(states, ops, n - 1);
      NextFaithful(states[n - 1], ops[n - 1], states[n]);
    }
  }

  lemma ImageLive(s: System)
    requires SysInv(s)
    ensures forall y | y in View(s).image :: y.space in View(s).refs
  {
    hide Exact, Private, Balanced;
  }

  lemma RefOwners(a: Ref, op: Op, b: Ref, i: nat)
    requires RefNext(a, op, b) && i in a.refs && i != Target(op)
    ensures i in b.refs
  {
    hide CopyImage, Without, RunSlots, StorePage;
  }

  /** Whatever the other spaces do, for however long, a space reads what it read before. */
  lemma {:induction false} RunIsolates(states: seq<System>, ops: seq<Op>, x: Slot, n: nat)
    requires Run(states, ops) && n <= |ops|
    requires x.space in states[0].m.refs && forall j: nat | j < n :: Target(ops[j]) != x.space
    ensures var a, b := View(states[0]), View(states[n]);
            && x.space in b.refs && (x in a.image <==> x in b.image) && (x in a.image ==> a.image[x] == b.image[x])
  {
    hide SysInv, Performs, Allowed, RefNext, Reserved, Image;
    if n == 0 {
    } else {
      RunIsolates(states, ops, x, n - 1);
      RunRefines(states, ops, n);
      var a, b := View(states[n - 1]), View(states[n]);
      RunRefines(states, ops, n - 1);
      ImageLive(states[n - 1]);
      RefIsolation(a, ops[n - 1], b, x);
      RefOwners(a, ops[n - 1], b, x.space);
    }
  }

  // ---------------------------------------------------------------- the branch that runs leave out

  /** From boot: a space, a switch to it, and a lazy page at the bottom of user memory. */
  ghost function LazyPage(frames: Frames, mem: seq<Page>): System {
    var s := Adopt(Boot(frames, mem), Create(Boot(frames, mem).m), FreshAreas()).(current := 0);
    s.(areas := map[0 := Insert(FreshAreas(), 0, USER_LOW, USER_LOW + PAGE_SIZE, Flags(true, false, 0))])
  }

  lemma LazyPageReached(frames: Frames, mem: seq<Page>)
    requires Balanced(frames) && Owned(frames.refs) == {} && |mem| == MAX_PHYS_PAGES
    ensures var flags := Flags(true, false, 0);
            var start := Boot(frames, mem);
            var made := Adopt(start, Create(start.m), FreshAreas());
            Run([start, made, made.(current := 0), LazyPage(frames, mem)],
                [OpCreate, OpSwitch(0), OpMapLazy(0, USER_LOW, 1, flags)])
  {
    hide Balanced, Exact, Private;
    BootInv(frames, mem);
    var flags := Flags(true, false, 0);
    var start := Boot(frames, mem);
    var made := Adopt(start, Create(start.m), FreshAreas());
    var here := made.(current := 0);
    assert FreeSpace({}, 0) == 0;
    assert made.areas == map[0 := FreshAreas()];
    assert FirstFree(FreshAreas(), 0) == 0;
    assert Chosen(here, 0, {}, USER_LOW, 1, USER_LOW);
    assert WithArea(here, 0, USER_LOW, 1, flags) == LazyPage(frames, mem);
  }

  /**
    A write to that page takes the demand branch, is resolved, and breaks ownership: this happens on
    every machine with a free frame.
   */
  lemma DemandHappens(frames: Frames, mem: seq<Page>)
    requires Balanced(frames) && Owned(frames.refs) == {} && |mem| == MAX_PHYS_PAGES && Alloc(frames).1 != 0
    ensures var s := LazyPage(frames, mem);
            && SysInv(s) && TakesDemand(s, 0) && PageFault(s, true, true, 0).Resolved?
            && !Inv(PageFault(s, true, true, 0).s.m)
  {
    hide Balanced, Exact, Private, Inv, Alloc;
    var s := LazyPage(frames, mem);
    LazyPageReached(frames, mem);
    var start := Boot(frames, mem);
    var made := Adopt(start, Create(start.m), FreshAreas());
    RunRefines([start, made, made.(current := 0), s],
               [OpCreate, OpSwitch(0), OpMapLazy(0, USER_LOW, 1, Flags(true, false, 0))], 3);
    assert Container(s.areas[0], Address(0), Address(0) + 1, 0) == 0;
    FaultKeepsIff(s, true, true, 0);
  }
}
