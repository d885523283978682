# Verified core of the kernel

A model in Dafny of the parts of the kernel that hold shared, reference-counted or persistent
state, with proofs of what they keep over whole runs.  `dafny verify dfyconfig.toml` checks all
of it.

Each component has two layers.  The lower layer is imperative, as the C code is: classes with
the same fields, loops and rollbacks, and methods proved equal to one step of the upper layer.
The upper layer is made of values: a state, a function for each operation, an invariant, and
theorems about every sequence of operations.

| modules | component |
|---|---|
| `Pmm`, `Dma` | physical frames: bitmap, reference counts, counters; contiguous DMA runs |
| `Cow`, `Fork`, `Areas`, `Paging`, `Capacity`, `Resolution`, `Steps`, `Runs`, `Vmm` | address spaces that share frames copy-on-write, their mapped areas, faults, pointer validation, and when each of these succeeds |
| `Blocks`, `Grants`, `Alignment`, `KernelHeap`, `Overrun` | the kernel heap, as a list of blocks, whose they are and where they lie, as bytes with headers, and when a copy stays in its block |
| `Scheduling`, `Waking`, `Families`, `RoundRobin` | the ready queue, ticks, blocking and waking, exits and waits for children |
| `Signals`, `Pids` | signal frames; process slots and identifiers |
| `Journal`, `Recovery`, `Detection` | the recovery log and crashes between its sector writes, from a clean log and from any; what its checksum catches |
| `Sectors`, `Fat32`, `Names`, `Directory`, `RawDisk` | file reads through cluster chains, short names, lookup, the raw disk file |
| `Checksum` | the Internet checksum of RFC 1071 with the pseudo-header of section 8.1 of RFC 8200 |
| `Numbers` | bytes, words, division and counting facts used by several of these |

## Main results

- **Copy-on-write cannot be observed.**  `Runs.RunRefines`: over every run of create, retain,
  destroy, switch, map, unmap, both forks, user stores (with their faults), range operations and
  pointer validation, every state keeps the invariant and every step is a step of a reference
  machine in which a fork copies all pages at once.  `Runs.RunIsolates`: a space that no
  operation of a run names reads at the end what it read at the start.
- **Ownership is exact.**  The invariant (`Paging.SysInv`) says that a frame's count is the
  number of page-table entries that name it, that a writable entry is alone on its frame, and
  that used, total and bitmap agree.  `Cow.NeverSaturates`, `Cow.FreedAtLastUnmap` and
  `Fork.FramesDetermined` follow.
- **Demand paging breaks ownership, and exactly when is proved.**  `Paging.FaultKeepsIff`: a
  resolved fault keeps ownership exact if and only if it does not take the demand-paging branch,
  which frees the frame it has just mapped.  `Runs.DemandHappens`: on every machine with a free
  frame three calls and one store get there.
- **Success is exact.**  `Resolution.FaultResolvesIff` says which faults are resolved,
  `Resolution.AcceptsIff` which pointers validation accepts, counting the frames that its splits use
  up, `Capacity.RangeMapsIff` and `Capacity.CloneEagerFailsIff` when ranges and forks succeed, all
  in terms of the tables and the number of frames left.  A page filled on demand reads zero exactly
  when `Resolution.DemandZeroedIff` says, because the handler clears the frame the window showed
  before.
- **Areas.**  `Areas.CutExactIff`: unmapping from the middle of an area removes exactly its interval
  if and only if it touches an edge or an area slot is free; `Areas.MiddleCutFails` is a table in
  which it does not.
- **The heap stays sound over a run exactly when no wrapping size is granted a block**
  (`Blocks.RunSoundIff`), and `krealloc` keeps contents byte for byte
  (`KernelHeap.Arena.Krealloc`).  After every run, freeing what is live in any order gives the heap
  of the start (`Grants.FreeingAll`).  A size above 0xfffffff8 rounds to 0.  `krealloc` then copies a
  payload into a block that can be too small for it: `Overrun.OverrunsIff` says exactly when that
  destroys a header, `Overrun.WrappedGrowthOverruns` is a run that gets there, and
  `Blocks.RunTiles` holds of the runs that do not.  Nor does the heap keep eight-byte alignment:
  `Alignment.RunAlignedIff` says for which runs it does, `Alignment.OddShrinkMisaligns` is one for
  which it does not.
- **Crash safety of the log.**  `Journal.CrashSafe` gives every sector outside the log after a
  crash at any point and a replay.  A record is 532 bytes and is moved by a 512-byte call, so
  its last 20 bytes are lost; `Journal.TargetOldOrNewIff` gives the exact condition under which
  the target is still old or new, `Recovery.ThirdValueHappens` shows that it can fail after every
  run, and `Journal.WholeRecordRecovers` is the case in which whole records are carried.
  `Recovery.CrashOverAnyLog` starts from a log that holds any records, because recovery need not
  leave a clean one (`Recovery.CrashCleansIff`); `Recovery.RecoveryResumes` is a second crash, during
  recovery.  `Recovery.OlderWriteReturnsIff` says when a record so left puts older data back over a
  newer completed write.  That happens: the checksum catches every change of one byte, of the target
  and of the sequence number (`Detection.OneByteDetected`, `Detection.PlaceDetected`), so `Detection.SkippedRecordStays` and
  `Detection.OlderWriteReturns` follow for every write and every log of two slots or more.
- **No parent is woken by its child.**  docs/v05-status.md:9 promises that a wait is ended by the exit
  of the child.  `Families.ExitWakesIff` says whom an exit wakes, and `Families.ParentSleepsOn` shows
  over every run that a waiting parent sleeps on.
- **Wake-ups are exact.**  `Waking.WakeIs` and `Waking.PollIs` say who is woken, how many, and in which
  order they join the queue; `Waking.StepEndsIff` says over every event what ends a wait, and
  `Waking.DeadStay` that the dead never run again.
- **Bounded waiting and rotation** (`Scheduling.BoundedWaiting`, `Scheduling.RoundRobin`).  A
  tick with nothing else to run leaves its process ready but unqueued: `Scheduling.StepStrandsIff`
  says over every event exactly when a process is lost that way.  A tick
  (`Scheduling.LoneTickThenArrival`) and a yield (`Scheduling.LoneTickThenYield`) lose one, and no
  other event does; `Scheduling.QueuedReapStrandsIff` says whom the reaping of a queued process
  loses.
- **File reads are slices, whatever their lengths** (`Fat32.ReadsAreConsecutive`), for every
  chain, cyclic or broken ones included.
- **Short names come back exactly when** `Names.RoundTripIff` says.

## Model

| member | source | states |
|---|---|---|
| `Pmm.LowestClear` | mm/pmm.c:15 | the search returns the lowest clear frame of its range, and 0 exactly when every frame there is taken |
| `Pmm.Alloc` | mm/pmm.c:15 | an allocation returns the lowest clear frame in 1..total and takes it with one reference, or returns 0 and changes nothing when none is clear |
| `Pmm.ClaimBalanced` | mm/pmm.c:15 | taking a clear frame keeps total - used equal to the number of clear bits, counts zero on clear frames, and the set of reserved frames |
| `Pmm.RetainBalanced` | mm/pmm.c:16 | retaining an owned frame keeps the same books |
| `Pmm.FreeBalanced` | mm/pmm.c:17 | freeing an owned frame keeps the books, and the zero guard on the used counter never swallows a decrement |
| `Pmm.FreeKeepsCountIff` | mm/pmm.c:17 | for any frame, owned or not, a free keeps counter and bitmap in agreement if and only if it does not release the last reference while the used counter is zero |
| `Pmm.FreeUndoesAlloc` | mm/pmm.c:15-17 | freeing what was just allocated restores the allocator exactly |
| `Pmm.ClearIsUnowned` | mm/pmm.c:15-17 | a clear frame has count zero |
| `Pmm.RunBalanced` | mm/pmm.c:13-18 | every sequence of allocations, retains and frees of owned frames keeps the books, the reserved set and the total |
| `Pmm.ReportedIff` | mm/pmm.c:15-18 | the number of frames reported free can be had if and only if every clear frame lies in 1..total, where the search looks |
| `Pmm.NeverReached` | mm/pmm.c:15-17 | over every run a frame outside that range is never handed out |
| `Pmm.CoversIff` | mm/pmm.c:14 | the frames that a memory-map entry lists |
| `Pmm.CoversInsideIff` | mm/pmm.c:14 | they lie inside the memory described if and only if that starts on a page boundary or is less than a page |
| `Pmm.KernelPagesIff` | mm/pmm.c:13-14 | the frames reserved at boot are those that start below the kernel's end |
| `Pmm.MaskIs` | mm/pmm.c:11 | frame 8b + k is bit k of byte b |
| `Pmm.SetBitAt` | mm/pmm.c:11 | setting a bit of a byte changes that bit and no other |
| `Pmm.ClearBitAt` | mm/pmm.c:11 | clearing a bit of a byte changes that bit and no other |
| `Pmm.PageAllocator.constructor` | mm/pmm.c:14 | for every memory map, overlapping entries included, the books balance after start-up and a frame is taken exactly if it is in the kernel image or listed by no available entry (all are present when none is listed); the total is the number of frames listed, or all 65536 if none is |
| `Pmm.PageAllocator.AddRegions` | mm/pmm.c:14 | the memory-map loop clears exactly the listed frames and counts each once |
| `Pmm.PageAllocator.AddRegion` | mm/pmm.c:14 | one available entry clears exactly the frames it covers |
| `Pmm.PageAllocator.ClearAll` | mm/pmm.c:14 | without a usable map every frame is present |
| `Pmm.PageAllocator.ReserveUpTo` | mm/pmm.c:13 | reserving takes exactly the frames below the bound and keeps counter and bitmap in agreement |
| `Pmm.PageAllocator.AllocPage` | mm/pmm.c:15 | the byte-and-bit search is `Alloc` |
| `Pmm.PageAllocator.RetainPage` | mm/pmm.c:16 | the in-place retain is `Retain`: saturating, ignored for frames that are clear or out of range |
| `Pmm.PageAllocator.FreePage` | mm/pmm.c:17 | the in-place free is `Free` |
| `Dma.TakeRun` | drivers/dma/dma.c:9 | the allocation loop succeeds if and only if the lowest free frame starts a long enough free run below the limit; then it holds exactly that run, otherwise the allocator is exactly as found |
| `Dma.GiveBack` | drivers/dma/dma.c:9 | the rollback loop restores the allocator exactly |
| `Dma.NextAfterRun` | drivers/dma/dma.c:9 | the next allocation after a held run continues it if and only if the frame behind it is free |
| `Dma.ClaimRunBalanced` | drivers/dma/dma.c:9 | holding a run keeps the books |
| `Dma.FreeUndoesGrant` | drivers/dma/dma.c:9-10 | freeing a granted run restores bitmap, counts and counters exactly |
| `Dma.PageAtAddress` | drivers/dma/dma.c:10 | the frames of a run, from 32-bit address arithmetic |
| `Dma.PagesCoverIff` | drivers/dma/dma.c:9 | the pages asked for cover the length if and only if it is at most 0xfffff000; above that the count wraps to none |
| `Dma.Buffer.Acquire` | drivers/dma/dma.c:9 | all or nothing: success exactly when the run can be had, with the record filled in; on failure record and allocator are untouched |
| `Dma.Buffer.Release` | drivers/dma/dma.c:10 | every page of the buffer is freed and the record cleared; with an empty record nothing changes, the record included |
| `Dma.AllocateAndFree` | drivers/dma/dma.c:9-10 | allocating and then freeing leaves the allocator exactly as found, and the record empty |
| `Cow.ClearUnmapped` | mm/vmm.c:16 | no entry names a clear frame |
| `Cow.MappedOwned` | mm/vmm.c:16 | a frame that an entry names is taken, counted and not held by the kernel |
| `Cow.MapFreshKeeps` | mm/vmm.c:16 | mapping a fresh frame at an absent page keeps counts exact, writable entries alone and the reserved set |
| `Cow.MapFreshUndone` | mm/vmm.c:16 | unmapping it again restores the machine exactly |
| `Cow.UnmapKeeps` | mm/vmm.c:16 | unmapping keeps the invariant |
| `Cow.FreedAtLastUnmap` | mm/vmm.c:16 | unmapping returns the frame to the allocator if and only if no other entry names it |
| `Cow.ShareKeeps` | mm/vmm.c:16 | making two entries share a frame read-only keeps the invariant |
| `Cow.ShareImage` | mm/vmm.c:16 | and gives the second page the contents of the first, changing nothing else readable |
| `Cow.SplitKeeps` | mm/vmm.c:19 | breaking copy-on-write keeps the invariant, whether the frame was shared or not |
| `Cow.SplitImage` | mm/vmm.c:19 | and changes nothing that any space reads |
| `Cow.StoreImage` | mm/vmm.c:19 | a store through a writable entry changes that page of that space and no other |
| `Cow.NeverSaturates` | mm/pmm.c:16 | in every sound state a frame's count is at most the number of address spaces, so the 16-bit count never saturates |
| `Cow.OnePerSpace` | mm/vmm.c:10 | a set of entries with one per space has no more members than there are spaces |
| `Cow.HoldKeeps` | mm/pmm.c:15 | a frame taken by the kernel for itself disturbs nothing |
| `Cow.DropKeeps` | mm/pmm.c:17 | nor does giving it back |
| `Fork.CreateKeeps` | mm/vmm.c:10 | a new space was not in use and owns no entries |
| `Fork.ShareUpToKeeps` | mm/vmm.c:16 | every prefix of the copy-on-write clone loop keeps the invariant |
| `Fork.ShareUpToImage` | mm/vmm.c:16 | and has given the child exactly the contents of the pages passed |
| `Fork.CloneCowKeeps` | mm/vmm.c:16 | a copy-on-write fork keeps the invariant and every space reads what copying all pages at once would give it |
| `Fork.CloneCowFailsIff` | mm/vmm.c:16 | it fails if and only if all address spaces are in use |
| `Fork.CloneEagerKeeps` | mm/vmm.c:14 | the eager clone reaches the same contents, or leaves tables, owners, contents and allocator as found |
| `Fork.CloneEagerFails` | mm/vmm.c:14 | tearing down a half-made clone restores the allocator exactly |
| `Fork.CopyUpToImage` | mm/vmm.c:14 | every prefix of the eager loop has copied exactly the pages passed |
| `Fork.FramesDetermined` | mm/pmm.c:15-17 | the allocator's whole state follows from the page tables, the kernel's own frames and the reserved set |
| `Fork.UnmapRunKeeps` | mm/vmm.c:11 | unmapping a run of pages keeps the invariant |
| `Fork.UnmapRunTable` | mm/vmm.c:11 | and removes exactly those entries |
| `Fork.DestroyKeeps` | mm/vmm.c:11 | destroying a space drops one owner; the last one takes all its pages away and changes nothing else readable |
| `Fork.MapRunKeeps` | mm/vmm.c:17 | mapping a run of fresh pages keeps the invariant |
| `Fork.MapRunTable` | mm/vmm.c:17 | it adds exactly the run and leaves the other entries alone |
| `Fork.MapRunUndone` | mm/vmm.c:17 | unmapping its last page undoes its last step exactly, which is what the rollback does |
| `Areas.FindOverlap` | mm/vmm.c:17 | the loop answers whether some used area meets the interval |
| `Areas.FindFree` | mm/vmm.c:17 | the loop returns the first unused slot |
| `Areas.FindContainer` | mm/vmm.c:17 | the loop returns the first area that contains the interval |
| `Areas.ContainerFirst` | mm/vmm.c:17 | no earlier area contains it |
| `Areas.InsertAdds` | mm/vmm.c:17 | recording a mapped interval keeps the areas aligned, in range and disjoint, and covers exactly that much more |
| `Areas.InsertFlags` | mm/vmm.c:17 | the new addresses get the flags asked for and all others keep theirs |
| `Areas.OverlapsIff` | mm/vmm.c:17 | a range overlaps if and only if one of its addresses is covered; ranges that touch do not |
| `Areas.CutWellPlaced` | mm/vmm.c:17 | cutting an interval out of an area keeps the areas aligned, in range and disjoint |
| `Areas.CutCovers` | mm/vmm.c:17 | when an edge is touched or a slot is free, what stays covered is exactly what was covered minus the interval |
| `Areas.CutFlags` | mm/vmm.c:17 | what is left keeps its flags, both halves of a middle cut included |
| `Areas.CutExactIff` | mm/vmm.c:17 | and only then |
| `Areas.MiddleCutFails` | mm/vmm.c:17 | with all slots in use the middle page of an area stays covered |
| `Areas.OutOfRangeIff` | mm/vmm.c:17 | the two 32-bit comparisons reject exactly the ranges that end above user space, and nothing wraps otherwise |
| `Areas.Place` | mm/vmm.c:17-20 | automatic placement finds the lowest fitting page-aligned base at or above its start, or there is none and the base it returns is rejected |
| `Paging.PageFault` | mm/vmm.c:19 | a resolved fault only adds entries and permissions; which faults are resolved is `Resolution.FaultResolvesIff` |
| `Paging.FaultKeeps` | mm/vmm.c:19 | outside the demand branch a resolved fault keeps the invariant, makes the page writable and changes no contents |
| `Paging.DemandUncounted` | mm/vmm.c:19 | the demand branch leaves a mapped frame that the allocator holds to be free |
| `Paging.FaultKeepsIff` | mm/vmm.c:19 | a resolved fault keeps ownership exact if and only if it does not take the demand branch |
| `Paging.UserStoreKeeps` | mm/vmm.c:19 | a user store, with its fault if it needs one, changes that byte of that page of the current space and nothing else readable |
| `Paging.CheckRunSound` | mm/vmm.c:17 | when validation accepts, all pages of the range are at once present, for user mode and, if asked, writable |
| `Paging.CheckRunView` | mm/vmm.c:17-19 | validation off the demand branch breaks copy-on-write where it must and changes no contents, areas or owners |
| `Paging.MapRangeKeeps` | mm/vmm.c:17 | a successful range map keeps the invariant, adds exactly its pages, which were absent, and changes no other contents |
| `Paging.WithAreaKeeps` | mm/vmm.c:17 | its area covers exactly that interval more |
| `Paging.UnmapRangeKeeps` | mm/vmm.c:17 | a successful range unmap keeps the invariant and removes exactly its pages |
| `Capacity.MapGives` | mm/vmm.c:16-17 | mapping a page succeeds if and only if it lies in the tables and a frame is left; the entry has exactly the permissions asked for, on a frame that was clear |
| `Capacity.RunMapsIff` | mm/vmm.c:17 | a run of pages can be mapped if and only if it ends in the tables and there are frames enough, of which it uses one a page |
| `Capacity.RunGives` | mm/vmm.c:17 | every page of the run gets the permissions asked for |
| `Capacity.ChosenIff` | mm/vmm.c:17 | the base of a range: the address given if it is aligned and vacant, else the first vacant page from 0x01000000 on, while an area slot is free |
| `Capacity.RangeMapsIff` | mm/vmm.c:17 | a range maps at its base if and only if it ends in the tables and there are frames enough |
| `Capacity.RangeUnmapsIff` | mm/vmm.c:17 | a range is unmapped if and only if it is aligned, in user space and in one area, and every page of it is mapped |
| `Capacity.CreateFailsIff` | mm/vmm.c:10 | a space can be had if and only if not all are in use |
| `Capacity.CopiesIff` | mm/vmm.c:14 | pages can be copied if and only if there is a frame for each |
| `Capacity.CloneEagerFailsIff` | mm/vmm.c:14 | the eager clone fails if and only if all spaces are in use or there are fewer frames than pages |
| `Capacity.CloneCowTable` | mm/vmm.c:16 | after the COW clone parent and child hold the same entries, the parent's made read-only and COW; no other changes |
| `Capacity.CloneEagerTable` | mm/vmm.c:14 | after the eager clone the child holds the parent's permissions on frames that were clear; no other changes |
| `Resolution.TakesDemandIff` | mm/vmm.c:19 | the demand branch is taken if and only if the page lies in the tables, is not mapped and is covered by an area |
| `Resolution.FaultResolvesIff` | mm/vmm.c:19 | a fault is resolved if and only if a frame is left and the page is mapped, COW and written by the user, or not mapped and covered by an area |
| `Resolution.FaultGives` | mm/vmm.c:19 | a COW fault leaves the page writable, no longer COW, alone on a frame that was clear, with its contents; every other entry is as it was |
| `Resolution.DemandGives` | mm/vmm.c:19 | a demand fault adds that page alone, writable, with the other flags of its area |
| `Resolution.DemandZeroedIff` | mm/vmm.c:19 | the new page reads zero if and only if the window showed its frame before or the frame held zeros |
| `Resolution.StoreResolvesIff` | mm/vmm.c:19 | off the demand branch a store succeeds if and only if the page is writable, or COW while a frame is left |
| `Resolution.RangeIsWritable` | mm/vmm.c:17 | every page of a mapped range can be stored to, whatever flags were asked for |
| `Resolution.StoreReadsBack` | mm/vmm.c:19 | the byte stored is the byte read; every other byte of every space is as before |
| `Resolution.SplitAvailable` | mm/vmm.c:19 | a split uses up a frame if and only if others keep the old one |
| `Resolution.StopsAt` | mm/vmm.c:17 | validation stops at the first page that is not usable, with a panic if it is COW without a frame left, or covered but outside the tables |
| `Resolution.AcceptsIff` | mm/vmm.c:17 | validation accepts if and only if every page is mapped and, for a write, writable, or COW with a frame left after the shared pages before it |
| `Steps.CreateStep` | mm/vmm.c:10 | creating a space is a step of the reference machine |
| `Steps.RetainStep` | mm/vmm.c:11 | so is sharing one |
| `Steps.DestroyStep` | mm/vmm.c:11 | destroying one |
| `Steps.MapStep` | mm/vmm.c:16 | mapping a page |
| `Steps.UnmapStep` | mm/vmm.c:16 | unmapping a page |
| `Steps.ForkCowStep` | mm/vmm.c:16 | the copy-on-write fork, which in the reference machine copies every page |
| `Steps.ForkEagerStep` | mm/vmm.c:14 | the eager fork, against the same reference step |
| `Steps.ForkAreas` | mm/vmm.c:14-16 | after either fork the child has the areas of its parent, and every other space keeps its own |
| `Steps.StoreStep` | mm/vmm.c:19 | a user store |
| `Steps.MapRangeStep` | mm/vmm.c:17 | a range map, at the address given if one is, failed ones included |
| `Steps.MapLazyStep` | mm/vmm.c:20 | a lazy range, which maps nothing yet |
| `Steps.UnmapRangeStep` | mm/vmm.c:17 | a range unmap |
| `Steps.ValidateStep` | mm/vmm.c:17 | pointer validation, which changes nothing observable |
| `Runs.NextFaithful` | mm/vmm.c:10-20 | every operation keeps the invariant and the reserved frames and is a step of the reference machine |
| `Steps.RefIsolation` | mm/vmm.c:10-20 | in the reference machine an operation changes nothing in spaces it does not name |
| `Runs.BootInv` | mm/vmm.c:10 | the machine starts sound |
| `Runs.RunRefines` | mm/vmm.c:10-20 | every state of every run is sound and every step is a reference step |
| `Runs.RunIsolates` | mm/vmm.c:10-20 | over every run, a space that no operation names keeps its pages and their contents |
| `Runs.LazyPageReached` | mm/vmm.c:10-20 | from boot, creating a space, switching to it and mapping a lazy page is a run |
| `Runs.DemandHappens` | mm/vmm.c:19 | a store to that page takes the demand branch, is resolved and breaks ownership, whenever a frame is free |
| `Vmm.AddressSpaces.constructor` | mm/vmm.c:10 | the tables start empty and represent the sound initial machine |
| `Vmm.AddressSpaces.MapUser` | mm/vmm.c:16 | installs exactly that entry; fails exactly for pages outside the eight tables |
| `Vmm.AddressSpaces.UnmapUser` | mm/vmm.c:16 | clears exactly that entry and frees its frame; fails exactly when absent |
| `Vmm.AddressSpaces.TakeFrame` | mm/pmm.c:15 | the allocator call changes the frames and nothing else |
| `Vmm.AddressSpaces.GiveFrame` | mm/pmm.c:17 | so does the free |
| `Vmm.AddressSpaces.MapFreshPage` | mm/vmm.c:17 | allocation and mapping together are one step, or nothing |
| `Vmm.AddressSpaces.CreateSpace` | mm/vmm.c:10 | the slot search is the step `Create` |
| `Vmm.AddressSpaces.RetainSpace` | mm/vmm.c:11 | one more owner |
| `Vmm.AddressSpaces.Destroy` | mm/vmm.c:11 | the nested loops over tables and entries are the step `DestroySpace`, empty tables skipped; a space without owners is left alone |
| `Vmm.AddressSpaces.ForkCow` | mm/vmm.c:16 | the nested clone loops are the copy-on-write fork of the value layer |
| `Vmm.AddressSpaces.ShareEntry` | mm/vmm.c:16 | one round of them; its inner mapping call cannot fail |
| `Vmm.AddressSpaces.ForkEager` | mm/vmm.c:14 | the eager loops, their copies and their teardown are the eager fork of the value layer |
| `Vmm.AddressSpaces.CopyEntry` | mm/vmm.c:14 | one round of them: a frame, an entry with the source's flags, the contents; false exactly when no frame is left |
| `Vmm.AddressSpaces.ChooseBase` | mm/vmm.c:17 | the checks made before a range is committed accept exactly the bases the model allows |
| `Vmm.AddressSpaces.FillRun` | mm/vmm.c:17 | the allocation loop maps every page or undoes everything |
| `Vmm.AddressSpaces.Undo` | mm/vmm.c:17 | the rollback restores the machine before the range exactly |
| `Vmm.AddressSpaces.MapPages` | mm/vmm.c:17 | all the pages and the area, or the system exactly as found |
| `Vmm.AddressSpaces.MapLazy` | mm/vmm.c:20 | the area alone, or the system as found |
| `Vmm.AddressSpaces.CutArea` | mm/vmm.c:17 | the four ways to cut an area are `Areas.Cut` |
| `Vmm.AddressSpaces.UnmapPages` | mm/vmm.c:17 | succeeds exactly when the range is mapped throughout and inside one area, and removes both |
| `Vmm.AddressSpaces.HandleFault` | mm/vmm.c:19 | the handler is `PageFault`; it panics exactly where that is unresolved |
| `Vmm.AddressSpaces.BreakCow` | mm/vmm.c:19 | allocation, window, copy and re-mapping together are one split |
| `Vmm.AddressSpaces.Validate` | mm/vmm.c:17 | the validation loop visits exactly the pages that the range touches, without wrapping, and gives the verdict of `CheckRun` |
| `Vmm.TouchedCovers` | mm/vmm.c:17 | every byte of the range lies in a page visited |
| `Vmm.LastRound` | mm/vmm.c:17 | the loop's exit test holds in exactly the last round |
| `Vmm.RunBounded` | mm/vmm.c:17 | a run mapped throughout is too short to wrap an address |
| `Blocks.SplitTiles` | mm/heap.c:9 | splitting a block keeps the tiling of the arena |
| `Blocks.CoalesceTiles` | mm/heap.c:10 | so does merging |
| `Blocks.CoalesceCoalesced` | mm/heap.c:10 | one pass leaves no two adjacent free blocks |
| `Blocks.CoalesceLive` | mm/heap.c:10 | and touches no live block |
| `Blocks.TilesDisjoint` | mm/heap.c:9-14 | blocks of a tiling, headers included, never overlap |
| `Blocks.TakeLive` | mm/heap.c:13 | a grant makes exactly one new payload live and leaves the others alone |
| `Blocks.ReleaseLive` | mm/heap.c:14 | a free removes exactly that payload |
| `Blocks.SplitLive` | mm/heap.c:15 | shrinking in place only shortens that payload |
| `Blocks.RoundUpEnough` | mm/heap.c:13 | rounding up to eight loses nothing if and only if it does not wrap |
| `Blocks.MallocFailsIff` | mm/heap.c:13 | a request fails if and only if no free block holds the rounded size |
| `Blocks.MallocSound` | mm/heap.c:13 | after a grant live payloads still have what was asked for them |
| `Blocks.FreeSound` | mm/heap.c:14 | after a free of null or of a block's payload too |
| `Blocks.FreeCoalesces` | mm/heap.c:14 | a free that changes anything leaves no two adjacent free blocks, and the single initial block once nothing is live |
| `Blocks.FreeingAllRestores` | mm/heap.c:10-14 | a tiling with nothing live merges into the initial block |
| `Blocks.ServeSoundIff` | mm/heap.c:13-15 | a 32-bit request leaves every live payload as large as asked if and only if its size does not wrap or it is refused |
| `Blocks.RunSoundIff` | mm/heap.c:9-15 | over every run of 32-bit requests the blocks tile the arena and live payloads are in bounds, disjoint and at least as large as asked, at every point, if and only if no size that wraps is granted a block |
| `Blocks.RunSound` | mm/heap.c:9-15 | in particular over runs whose sizes do not wrap |
| `Blocks.ReasonableFits` | mm/heap.c:13-15 | a size that does not wrap is granted a block large enough for the payload moved into it |
| `Blocks.RunTiles` | mm/heap.c:9-15 | the blocks tile the arena over every run of requests, wrapping sizes included, in which no `krealloc` copies a payload into a block too small for it |
| `Grants.FreeGivesUp` | mm/heap.c:14 | freeing a live payload makes exactly that payload not live, and merges |
| `Grants.FreeOfFree` | mm/heap.c:14 | freeing anything else changes nothing |
| `Grants.RoundsUp` | mm/heap.c:13 | sizes are rounded up to the next multiple of eight |
| `Grants.MallocTakes` | mm/heap.c:13 | a grant makes one payload live, at the start of the first free block large enough, with less than 24 bytes to spare, and no other changes |
| `Grants.ReallocInPlace` | mm/heap.c:15 | shrinking keeps the address and gives what was asked; no other payload changes |
| `Grants.ReallocMoves` | mm/heap.c:15 | growing gives up the old payload for a grant, or changes nothing |
| `Grants.SettledAfter` | mm/heap.c:9-15 | over every run, a heap with nothing live is the heap of the start |
| `Grants.FreeingAll` | mm/heap.c:9-15 | after every run, freeing all live payloads in any order gives the heap of the start |
| `Alignment.SplitAlignedIff` | mm/heap.c:9 | a split keeps eight-byte alignment if and only if its size is a multiple of eight |
| `Alignment.MallocAligned` | mm/heap.c:13 | an aligned heap grants aligned payloads and stays aligned |
| `Alignment.ServeAlignedIff` | mm/heap.c:13-15 | a request whose copy, if it makes one, stays in the block granted loses alignment if and only if it shrinks a block in place, splitting it, to a size that is no multiple of eight |
| `Alignment.RunAlignedIff` | mm/heap.c:9-15 | over every run of such requests, alignment holds throughout if and only if no request does that |
| `Alignment.OddShrinkMisaligns` | mm/heap.c:15 | two requests that lose it |
| `KernelHeap.Arena.constructor` | mm/heap.c:12 | the untouched arena stands for one free block |
| `KernelHeap.Arena.Init` | mm/heap.c:12 | initialising writes the header of the one free block |
| `KernelHeap.Arena.SplitBlock` | mm/heap.c:9 | the writes of a split turn the bytes into those of the split list and touch only the two headers |
| `KernelHeap.Arena.Merge` | mm/heap.c:10 | the merging walk over the linked headers is the merging pass on the list; live payloads keep their bytes |
| `KernelHeap.Arena.FindFit` | mm/heap.c:13 | the walk finds the first free block large enough |
| `KernelHeap.Arena.Kmalloc` | mm/heap.c:13 | the bytes after it are those of the list after the grant; every live payload keeps its bytes; null exactly when the list grants nothing |
| `KernelHeap.Arena.Kfree` | mm/heap.c:14 | a live payload is given up, and it alone; payloads that stay live keep their bytes; null and double frees do nothing |
| `KernelHeap.Arena.CopyPayload` | mm/heap.c:15 | the copy loop, which reads the size from the header in every round, is `Copying`, wherever it writes |
| `KernelHeap.CopyingMoves` | mm/heap.c:15 | into a block with room for it the loop moves the payload, keeps every header and disturbs no other payload |
| `KernelHeap.Arena.Krealloc` | mm/heap.c:15 | for every 32-bit size whose copy stays in the block granted: the first min(old, new) bytes arrive at the result, every other live payload keeps its bytes, and the list is that of the value layer in all five cases |
| `Overrun.CopyingSpills` | mm/heap.c:15 | a copy longer than its room puts a byte of the payload right behind the room |
| `Overrun.OverrunsIff` | mm/heap.c:13-15 | a `krealloc` that moves a payload keeps every header and stays in the arena, whatever the payload holds, if and only if the block granted is at least as large as the old one |
| `Overrun.WrappedGrowthOverruns` | mm/heap.c:13-15 | 64 bytes resized to 0xfffffff9 are not granted such a block |
| `Scheduling.NextReady` | scheduler/round_robin.c:11 | the process taken was queued and can run, otherwise it is the idle one; only the queue changes |
| `Scheduling.NextReadySuffix` | scheduler/round_robin.c:11 | what stays queued is a duplicate-free part of the queue without it |
| `Scheduling.DroppedAreDead` | scheduler/round_robin.c:11 | only entries that cannot run are dropped on the way |
| `Scheduling.TickKeeps` | scheduler/round_robin.c:17 | a tick keeps the queue duplicate-free, the current process out of it, and at most one process running, which is current |
| `Scheduling.SwitchKeeps` | scheduler/round_robin.c:17 | so does switching away from a process that leaves the processor |
| `Scheduling.YieldKeeps` | scheduler/round_robin.c:14-19 | so does a yield |
| `Scheduling.WakeKeeps` | kernel/process.c:19 | so does a futex wake |
| `Scheduling.PollKeeps` | kernel/process.c:19 | and the polling of timeouts |
| `Scheduling.RunKeeps` | scheduler/round_robin.c:10-18 | over every interleaving of ticks, yields, arrivals, waits, wakes, signals, kills of any process and exits with and without a switch |
| `Scheduling.StepWaits` | scheduler/round_robin.c:10-19 | a scheduling step brings a waiting process nearer to the front; any other event leaves its place |
| `Scheduling.BoundedWaiting` | scheduler/round_robin.c:10-19 | a ready process at position i runs within i + 1 scheduling steps unless killed, whatever else happens |
| `Scheduling.TickRotates` | scheduler/round_robin.c:17 | a tick rotates the order by one |
| `Scheduling.RoundRobin` | scheduler/round_robin.c:10-17 | after t ticks the process that runs is element t mod (k + 1) of the order, and the order is that rotation of it, so nobody is lost |
| `Scheduling.TickStrandsIff` | scheduler/round_robin.c:17 | a tick leaves a process ready but neither queued nor current if and only if it was so before or it was current and ready rather than running, and another could run |
| `Scheduling.YieldStrandsIff` | scheduler/round_robin.c:14-19 | a yield does so if and only if it was so before or it was current and ready rather than running, whether or not another could run |
| `Scheduling.LoneTickThenArrival` | scheduler/round_robin.c:17 | that happens: a process that ticks alone is stranded by the next arrival |
| `Scheduling.LoneTickThenYield` | scheduler/round_robin.c:14-19 | a process that ticks alone and then yields leaves the processor to idle and is stranded |
| `Scheduling.StepStrandsIff` | scheduler/round_robin.c:10-19 | over every event: a process is ready but neither queued nor current afterwards if and only if it was so before and the event does not queue, start or kill it, a tick or a yield strands it, or it has just been created |
| `Scheduling.QueuedReapStrandsIff` | kernel/process.c:19 | reaping the process at place i of the queue cuts the queue behind it, which keeps the queue if and only if it was last; stranded are exactly those that were and the processes behind it that could run |
| `Scheduling.CurrentIsNotPolled` | kernel/process.c:19 | the polling loop never finds the current process waiting |
| `Waking.WakeIs` | kernel/process.c:19 | a futex wake makes ready exactly the first waiters on its key in slot order, as many as the limit allows, queues them in that order and returns their number |
| `Waking.PollIs` | kernel/process.c:19 | a poll makes ready exactly the processes in use blocked on a futex whose deadline has passed, and queues them in slot order |
| `Waking.TimesOutIff` | kernel/process.c:19 | a wait shorter than 2^31 ms ends at a poll if and only if the timeout has passed and its deadline is not 0 by wrapping |
| `Waking.EndlessWait` | kernel/process.c:19 | a wait without a timeout is ended by no poll |
| `Waking.LongWaitEndsAtOnce` | kernel/process.c:19 | a wait longer than 2^31 ms ends at the first poll |
| `Waking.StepEndsIff` | scheduler/round_robin.c:10-19 | over every event: a wait ends if and only if the event is a wake on its key with room in the limit, a tick past its deadline, a signal or a kill; until then key and deadline stay |
| `Waking.BlockTakesEffect` | kernel/process.c:19 | a process that blocks leaves the processor with the key and deadline it asked for |
| `Waking.BlockThenWake` | kernel/process.c:19 | blocking and then waking the key makes it ready, and queued if it can run |
| `Waking.NewcomerQueues` | scheduler/round_robin.c:16 | a process created and added joins the end of the queue, waiting on nothing |
| `Waking.ExitTakesEffect` | kernel/process.c:18 | a process that exits leaves the processor and is dead |
| `Waking.DeadStay` | scheduler/round_robin.c:10-19 | over every run the dead never have the processor until they are reaped |
| `Families.ExitWakesIff` | kernel/process.c:18 | an exit ends a wait if and only if it is a wait for the process that exits, by a child of that process |
| `Families.ExitMarks` | kernel/process.c:18 | the process is dead with its code, its dead children have no parent, everyone else keeps identity, parent and code |
| `Families.ExitThenWait` | kernel/process.c:18-19 | a wait for a child that has exited returns its code and gives up its slot |
| `Families.ForkThenWait` | kernel/process.c:19-23 | a fork makes a ready child for which a wait by its parent blocks |
| `Families.StepKeeps` | kernel/process.c:13-23 | identifiers stay distinct and nobody becomes the parent of their own parent |
| `Families.WaitAwaits` | kernel/process.c:19 | a wait for a living child blocks its caller |
| `Families.ParentSleepsOn` | kernel/process.c:18-23 | over every run of forks, exits, waits and other changes, a parent blocked in a wait stays blocked, its child's exit included, unless it is itself changed or killed |
| `Families.ProcessTable.Exit` | kernel/process.c:18 | both loops of an exit are `AfterExit`; it succeeds if and only if the identifier is in use |
| `Families.ProcessTable.Wait` | kernel/process.c:19 | the search and its three outcomes are `AfterWait` |
| `RoundRobin.Scheduler.constructor` | scheduler/round_robin.c:16 | the scheduler starts idle with an empty queue |
| `RoundRobin.Scheduler.Append` | scheduler/round_robin.c:10 | walking the links to the tail appends to the queue |
| `RoundRobin.Scheduler.TakeNext` | scheduler/round_robin.c:11 | unlinking from the front is `NextReady` |
| `RoundRobin.Scheduler.Reschedule` | scheduler/round_robin.c:17 | requeue, take, activate is `Tick` |
| `RoundRobin.Scheduler.TimerInterrupt` | scheduler/round_robin.c:17 | timeouts then the tick, in that order; the invariant is kept |
| `RoundRobin.Scheduler.YieldProcessor` | scheduler/round_robin.c:14-19 | a yield is the step `Yield`; the invariant is kept |
| `RoundRobin.Scheduler.SwitchAway` | scheduler/round_robin.c:17 | the other switching path is `Switch` |
| `RoundRobin.Scheduler.PollTimeouts` | kernel/process.c:19 | exactly the processes blocked on a futex whose deadline has passed are made ready, and queued in slot order |
| `RoundRobin.Scheduler.FutexWakeAll` | kernel/process.c:19 | exactly the first waiters on the key up to the limit are made ready, queued in slot order and counted; the null key wakes nobody and returns -1 |
| `RoundRobin.Scheduler.WakeForSignal` | kernel/process.c:19 | a signal wakes its target if it is blocked |
| `RoundRobin.Scheduler.SetCurrent` | scheduler/round_robin.c:18 | the process becomes current and running; the invariant is kept |
| `RoundRobin.LinkCleared` | kernel/process.c:19 | clearing the link of a process ends the list at it; the list is whole if it was not on it |
| `RoundRobin.Scheduler.ReapSlot` | kernel/process.c:19 | giving up the slot of a dead child, on the list or not, is `Reaped` |
| `RoundRobin.Scheduler.BlockOn` | kernel/process.c:19 | waiting, on a futex or for a child, blocks the current process and gives the processor away |
| `Signals.Deliver` | kernel/process.c:19 | an attempt delivers the lowest deliverable signal, consumes the unmasked signals up to it and no other, saves the interrupted frame, puts a null return address and the signal on the user stack, resumes at the handler with the signal in EAX and the stack eight lower, and leaves the other twelve registers; or delivers nothing |
| `Signals.DeliveryKeepsMasked` | kernel/process.c:19 | masked signals, and those above the one delivered, stay pending |
| `Signals.DeliveredIff` | kernel/process.c:19 | a signal is delivered if and only if some pending one is not masked, has a handler and finds room on the stack; only unmasked signals up to it stop being pending |
| `Signals.KillNeverMasked` | kernel/process.c:19 | over every run the kill signal is not masked |
| `Signals.DeliveryUnique` | kernel/process.c:19 | that description determines the outcome |
| `Signals.FrameIntact` | kernel/process.c:19 | over every run of posts, mask changes and delivery attempts inside a handler the saved frame is not overwritten |
| `Signals.ReturnRestores` | kernel/process.c:19 | the return from the handler brings back all fifteen registers as they were |
| `Signals.InterruptedCallResumes` | kernel/syscall.c:21 | a system call that does not block, interrupted by a signal, sees its own result after the handler returns |
| `Signals.BlockedCallSeesIff` | kernel/process.c:19 | a call that blocks sees the outcome of its wait if and only if no signal was delivered as it left or the outcome is 0; otherwise it returns 0, since the outcome goes to the handler's frame |
| `Pids.StepValid` | kernel/process.c:13-18 | creating, failing to create and reaping keep every slot in use below the count and named by its generation |
| `Pids.RunValid` | kernel/process.c:13-19 | over every run |
| `Pids.PidDecodes` | fs/vfs.c:8 | an identifier decodes to its own slot, hence to a private descriptor row |
| `Pids.RowOfAny` | fs/vfs.c:8 | any number leads to a descriptor row: that of the slot in its low byte, or row 0 |
| `Pids.FirstPid` | kernel/process.c:13 | the first process gets identifier 0x101 in slot 0 |
| `Pids.PidInjective` | kernel/process.c:13 | an identifier determines generation and slot |
| `Pids.PidsDistinct` | kernel/process.c:13 | processes in use have different identifiers |
| `Pids.Find` | kernel/process.c:19 | the lookup loop finds the process with that identifier, and misses none |
| `Pids.ReturnsIff` | kernel/process.c:13 | a generation recurs exactly after a multiple of 2^24 - 1 allocations of its slot |
| `Pids.StalePidFindsNothing` | kernel/process.c:13-19 | over every run, an identifier fewer allocations old than that names no process |
| `Pids.ProcessTable.constructor` | kernel/process.c:13 | the table starts empty and valid |
| `Pids.ProcessTable.Allocate` | kernel/process.c:13 | the slot search and the undo for want of an address space are `NewPcb`; a slot is returned exactly when one is free and the space can be had |
| `Checksum.AddWords` | net/net.c:12 | partial folding stays within 32 bits and keeps the residue mod 65535 of the word sum, zero only for zero |
| `Checksum.FoldChecksum` | net/net.c:13 | the folding loop ends in the complement of that residue |
| `Checksum.NetChecksum` | net/net.c:14 | for every length, odd ones included, the result is the checksum of RFC 1071 |
| `Checksum.VerifiesIff` | net/net.c:14 | a packet verifies if and only if its words add up to a positive multiple of 65535 |
| `Checksum.StoredVerifies` | net/net.c:14 | storing the checksum in its zeroed even-offset field makes the packet verify |
| `Checksum.StoredVerifiesIff` | net/net.c:14 | a stored value verifies if and only if it has the checksum's residue and the words are not all zero |
| `Checksum.WordSumAppend` | net/net.c:20 | summing an even prefix and then the rest is summing the whole |
| `Checksum.FillPseudo` | net/net.c:20 | the forty bytes filled in place are the pseudo-header |
| `Checksum.PseudoHeaderIs` | net/net.c:20 | where addresses, length, zeros and next header stand in it |
| `Checksum.PseudoSum` | net/net.c:20 | what it adds to the sum |
| `Checksum.PseudoChecksum` | net/net.c:20 | header then payload is one pass over their concatenation |
| `Checksum.TcpChecksum` | net/net.c:20 | the TCP checksum; segments over 65535 bytes are refused with 0 |
| `Checksum.Icmpv6Checksum` | net/net.c:20 | the ICMPv6 checksum of section 2.3 of RFC 4443 |
| `Checksum.SegmentVerifies` | net/net.c:20 | a segment filled in at the sender verifies at the receiver |
| `Journal.ParseImage` | fs/journal.c:9 | what a record keeps through a sector write and read: all but its last 20 data bytes |
| `Journal.ComputeChecksum` | fs/journal.c:10 | the loop is the FNV-1a sum over data, target and sequence |
| `Journal.WriteCompletes` | fs/journal.c:14 | a completed write updates its target and leaves no committed record |
| `Journal.WriteCut` | fs/journal.c:14 | cut before any of its sector writes, at most its own slot is committed, with its record, and every sector but target and slot is as before |
| `Journal.RunCompletes` | fs/journal.c:14 | after any run of writes every sector outside the log holds the last value written to it |
| `Journal.AdvanceByIs` | fs/journal.c:14 | sequence numbers count the writes in 32 bits |
| `Journal.SlotsTakeTurns` | fs/journal.c:14 | until they wrap, writes fewer than the slots apart go through different slots |
| `Journal.AppliedIff` | fs/journal.c:13 | a record counts as applied if and only if its committed flag gets cleared |
| `Journal.ReplayOnly` | fs/journal.c:13 | with one slot committed at most, replay is replay of that slot, and it reports 1 or 0 accordingly |
| `Journal.AppliesWritten` | fs/journal.c:13 | replay applies a record it wrote if and only if the checksum cannot tell the tail found from the tail lost |
| `Journal.CrashSafe` | fs/journal.c:13-14 | after any run, a write cut anywhere and a replay: every sector outside the log but the last target holds its last completed value, and the target is given exactly |
| `Journal.TargetOldOrNewIff` | fs/journal.c:13-14 | the target is its old or its new value if and only if the checksum was not fooled by a tail that makes a third value |
| `Journal.WholeRecordRecovers` | fs/journal.c:13-14 | if the tail survives, recovery completes every write whose record reached the log |
| `Journal.ReplayResumes` | fs/journal.c:13 | with one slot committed, a replay cut between its two sector writes can be run again with the same result |
| `Journal.RecoveryLog.constructor` | fs/journal.c:11 | the log is ready exactly if it has slots, of which it uses at most the maximum |
| `Journal.RecoveryLog.Write` | fs/journal.c:14 | the three sector writes in order; on a refused one the disk is exactly where the write stopped |
| `Journal.RecoveryLog.ReplayAll` | fs/journal.c:13 | the replay loop is `Replay` and returns how many records were applied, -1 when not ready |
| `Journal.RecoveryLog.Clear` | fs/journal.c:15 | clearing leaves no committed record and touches only the log; it fails exactly when not ready or the log leaves the device |
| `Recovery.SlotsSettle` | fs/journal.c:13 | replay of any log clears the committed flag of exactly the records that apply |
| `Recovery.ReplayIs` | fs/journal.c:13 | replay of any log gives a sector outside it the data of the last record that applies to it |
| `Recovery.RecoveryCleansIff` | fs/journal.c:13 | recovery leaves a clean log if and only if every committed record applies |
| `Recovery.RecoveryResumes` | fs/journal.c:13 | replay of any log, cut before or between the two sector writes of any slot and run again, ends where it would have ended |
| `Recovery.RunOverAnyLog` | fs/journal.c:14 | after a run of writes over any log, what is left of it is in the slots the run did not use |
| `Recovery.CrashOverAnyLog` | fs/journal.c:13-14 | after any run over any log, a write cut anywhere and a replay: a sector to which no left-over record applies is as over a clean log, any other gets the data of such a record or of the cut write |
| `Recovery.CrashCleansIff` | fs/journal.c:13-14 | after a crash from a clean log, recovery leaves a clean log if and only if no record was written or its tail is accepted |
| `Recovery.OlderWriteReturnsIff` | fs/journal.c:11-14 | over two boots, a cut write comes back over a later completed write to its sector if and only if that went through another slot and the tail is then accepted |
| `Recovery.Collision` | fs/journal.c:10 | for every front, target and sequence two tails have the same sum |
| `Recovery.ThirdValue` | fs/journal.c:10-13 | whatever the old contents, some data and tail are accepted and make neither old nor new |
| `Recovery.ThirdValueHappens` | fs/journal.c:13-14 | after every run some write cut after its record leaves its target neither old nor new |
| `Detection.AbsorbDiffers` | fs/journal.c:10 | a round of the hash tells apart two states given one byte, and two bytes given one state |
| `Detection.OneByteDetected` | fs/journal.c:10 | the checksum of a record changes with every change of one data byte |
| `Detection.PlaceDetected` | fs/journal.c:10 | it changes with the target, and with the sequence number |
| `Detection.SkippedRecordStays` | fs/journal.c:13-14 | a crash after the record, then a replay that finds one lost byte changed, leaves a committed record |
| `Detection.OlderWriteReturns` | fs/journal.c:11-14 | over two boots the older data does come back over a completed newer write: any log of two slots or more, any write through another slot than the first of a boot, one byte wrong at the first replay and none at the second |
| `Fat32.TransferIsSlice` | fs/fat32/fat32.c:17 | the bytes delivered are consecutive bytes of the chain from the position, and as many as the chain has up to the request |
| `Fat32.SliceUnique` | fs/fat32/fat32.c:17 | there is one such slice |
| `Fat32.FailedIff` | fs/fat32/fat32.c:17 | a transfer fails if and only if it stops short at a sector of the chain that cannot be read |
| `Fat32.TransferSplits` | fs/fat32/fat32.c:17 | a transfer is any shorter one followed by a transfer from where that one stopped |
| `Fat32.ReadsAreConsecutive` | fs/fat32/fat32.c:17 | any sequence of reads of any lengths delivers together what one read of the total length would, on every chain |
| `Fat32.ReadCluster` | fs/fat32/fat32.c:17 | the inner loop delivers the rest of one cluster, or what is wanted of it, and makes progress or fails |
| `Fat32.SkipClusters` | fs/fat32/fat32.c:11-17 | the skip loop reaches the cluster that holds the position, or the end of the chain |
| `Fat32.OpenFile.Read` | fs/fat32/fat32.c:17 | the nested loops deliver the transfer cut at the file size, advance the position by the bytes delivered, return their number or -1 exactly when nothing came and a sector failed, and end on cyclic chains too |
| `Fat32.ValidClusterIff` | fs/fat32/fat32.c:9-11 | which 28-bit numbers are clusters |
| `Fat32.NextClusterBytes` | fs/fat32/fat32.c:11 | the four bytes of the table that give the next cluster |
| `Fat32.ClustersInOrder` | fs/fat32/fat32.c:11 | cluster 2 is first in the data area and the clusters lie end to end |
| `Fat32.ClustersApart` | fs/fat32/fat32.c:11 | no two clusters share a sector |
| `Names.Make83` | fs/fat32/fat32.c:13 | the field is the upper-case base and extension, padded; which bytes those are is given for every path |
| `Names.ShortName` | fs/fat32/fat32.c:12 | the buffer receives as much of the printable name as fits before its terminator, and nothing behind it changes |
| `Names.RoundTripIff` | fs/fat32/fat32.c:12-13 | printing an entry's name and parsing it again gives the entry if and only if its parts are clean, padded at the end, and no dot follows a base shorter than eight |
| `Names.NamePrints` | fs/fat32/fat32.c:12-13 | a legal name put into an entry and printed is the name in upper case |
| `Names.CaseInsensitive` | fs/fat32/fat32.c:13 | case does not matter to the entry |
| `Names.UpperIs` | fs/fat32/fat32.c:13 | small letters become capitals and everything else stays |
| `Names.DotsSkipped` | fs/fat32/fat32.c:13 | between base and extension up to two dots are skipped after a short base, one after a full one |
| `Directory.ScanSector` | fs/fat32/fat32.c:14 | the first entry of a sector that ends the directory or is the file |
| `Directory.ScanCluster` | fs/fat32/fat32.c:14 | the same for the sectors of a cluster |
| `Directory.ScanRoot` | fs/fat32/fat32.c:14 | the scan returns the first live plain file of that name before the end of the directory, or reports that the directory is over without one |
| `Directory.NoneFound` | fs/fat32/fat32.c:14 | once the directory is over, no entry is a first match |
| `Directory.MatchUnique` | fs/fat32/fat32.c:14 | there is one first match at most, and none if the directory is over before it |
| `Directory.PlainFileIff` | fs/fat32/fat32.c:14 | which entries are live plain files, in bytes |
| `Directory.FileDescribed` | fs/fat32/fat32.c:14 | the first cluster is in bytes 26, 27, 20, 21 of the entry and the size in bytes 28 to 31 |
| `Directory.SlashesDropped` | fs/fat32/fat32.c:16 | leading slashes do not count, and a path of nothing else has no name |
| `Directory.OpensEntry` | fs/fat32/fat32.c:14-16 | the file opened is that of a live entry with the name, no directory and no label |
| `Directory.Open` | fs/fat32/fat32.c:16 | opening succeeds with exactly the file that the path names, its first cluster and size read from the bytes of the matching entry, and fails exactly when the volume is not mounted, the name is empty or no entry matches |
| `Directory.OpensOne` | fs/fat32/fat32.c:14-16 | a path opens one file at most |
| `Directory.OpensAnyCase` | fs/fat32/fat32.c:13-16 | a path opens exactly what its upper-case form opens |
| `RawDisk.RawFile.Read` | fs/vfs.c:15 | the bytes returned are those of the flat device from the position; the position moves by their number; fewer come only because the next sector cannot be read; -1 exactly when nothing came |
| `RawDisk.RawFile.Write` | fs/vfs.c:16 | exactly the bytes [position, position + done) of the flat device change, to the data, across partial first and last sectors; done falls short only where the next sector is refused |
| `RawDisk.BlockedIff` | fs/vfs.c:16 | a write stops at a sector that cannot be written, or cannot be read and is not written whole |
| `RawDisk.ReadsBack` | fs/vfs.c:15-16 | what was written is what is read back |
| `RawDisk.OthersUnchanged` | fs/vfs.c:15-16 | reads of other bytes do not notice a write |
| `RawDisk.WritesJoin` | fs/vfs.c:16 | two writes in turn are one write |
| `RawDisk.FetchesJoin` | fs/vfs.c:15 | two reads in turn are one read |

## Left out

- Demand paging in the ownership and isolation theorems: the branch (mm/vmm.c:19) frees the frame it has just mapped; `Paging.FaultKeepsIff` says so, and runs that take it are excluded from `Runs`.
- Permissions in the comparison of the two forks: a copy-on-write fault makes read-only pages writable (mm/vmm.c:16-19), so `Runs` compares contents; `Capacity.CloneCowTable` and `Capacity.CloneEagerTable` give the permissions.
- Vmm.AddressSpaces.MapUser: does not free a frame it overwrites, as the code does not; `Runs` maps absent pages only.
- Page directories, the TLB, CR3 and the switch to the copied space during the eager clone: not modelled.
- Tables and areas are sequence-valued fields of a class, so aliasing between the tables of different spaces is not modelled.
- Page-table flag words above the twelve flag bits, and table-used marks after a failed range, which nothing observable depends on.
- Null pointer arguments.
- Byte layout of the multiboot memory map: its entries are a list of regions; entry size zero does not occur.
- Pmm.RunBalanced: runs free owned frames only; a free of an unowned taken frame is covered one step at a time by `Pmm.FreeKeepsCountIff`.
- KernelHeap.Arena.Kmalloc: growth beyond the static arena (mm/heap.c:11) is taken to fail, because `merge` joins list neighbours that are not adjacent in memory.
- KernelHeap.Arena.Krealloc: a copy into a block smaller than the payload is excluded, since it writes behind the block; `Overrun.OverrunsIff` says what that does.
- Blocks.RunTiles: excludes the same copies, which the list of blocks cannot show, and pointers that are not payload addresses of a block; so do `Alignment.ServeAlignedIff` and `Alignment.RunAlignedIff`.
- Blocks.RunSoundIff: pointers that are not payload addresses of a block are excluded; so do `Blocks.RunSound`, `Blocks.ServeSoundIff` and `Blocks.FreeSound`.
- KernelHeap.Arena.Kfree: pointers that are not payload addresses of a block are excluded, since the code reads a header in front of any pointer it is given.
- The time slice is one tick, so no tick counter is kept; a cooperative tick is then a yield.
- Families.ParentSleepsOn: a new process is taken to have an identifier that no process has or names, which `Pids.StalePidFindsNothing` bounds; status words in user memory are not modelled.
- Waking.PollIs: the branch for a current process that is still waiting is not reached (`Scheduling.CurrentIsNotPolled`).
- Pmm.CoversIff: memory above 2^44 bytes, whose page numbers wrap, is excluded.
- Resolution.AcceptsIff: pages that would be filled on demand are excluded, since filling them breaks ownership (`Paging.FaultKeepsIff`).
- Scheduling.RunKeeps: a process that is still queued or current is not reaped, since reaping clears its link (kernel/process.c:19); `Scheduling.QueuedReapStrandsIff` says what that does to a queued one.
- Futex words, the clock and user stacks: the comparison, the time and whether the stack can be written are inputs.
- Polling with the current process still waiting, which only the self-test in kernel/process.c:19 does; a wait and the switch that follows it are one event, so that branch of `Scheduling.PollUpTo` is not reached (`Scheduling.CurrentIsNotPolled`).
- `scheduler_set_current` while another process is current: the kernel calls it from the idle context, or for the process that is current.
- Signal masks are sets of signal numbers.
- Journal.RecoveryLog.constructor: logs whose sector numbers would wrap past 2^32 are excluded.
- Journal.CrashSafe: single sector writes are atomic, the targets lie outside the log, and a write the device refuses is covered per call by `Journal.RecoveryLog.Write`; logs that are not clean are the subject of `Recovery.CrashOverAnyLog`.
- Recovery.CrashOverAnyLog: records whose targets lie inside the log or off the device are excluded.
- Directory.ScanRoot: a directory whose chain is cyclic and holds neither an end mark nor the file is excluded, since the scan then never ends; every other directory is covered.
- `fat32_mount` and `fat32_readdir`, which never lists plain files (fs/fat32/fat32.c:14).
- RawDisk.RawFile.Write: a sector write that fails leaves the sector as it was.
- docs/v06-status.md:19 says that process slots are not recycled and that mappings have no area objects; the code does both, and the model follows the code.
- Device drivers, interrupt plumbing, ELF loading, shell, libc, sockets and the module loader.
