# Verified models of the microkernel's memory and device cores

This project models the parts of the system where the reasoning is hardest, in Dafny, and proves what
they are for:

- **Page maps, copy-on-write fork and frame counts** (`Pae`, `FrameSharing`, `EagerFork`, `PageMap`,
  `Signals`,
  `UserSpace`, `QuietStack`, `ThreadFork`, `HwExport`, `Runs`, `LowPage`). Any number of address spaces share frames through
  entries that are normal, copy-on-write, wired or device mappings. `EagerFork` is an independent
  reference machine in which a page is just its contents and fork copies every page. `Runs.Run` proves
  that the kernel, the fault handler in the user library and the device exports together behave like
  it over whole runs. Underneath lie the invariants: a count is at least the number of mappings; a frame has
  one mapping or only copy-on-write ones; a wire count is what it was when the frame was handed out plus
  the number of export records; a frame is freed only when nothing maps it. Faults are delivered by
  storing a frame on the process's handler stack; the copying machine stores the same frames, and
  `QuietStack` shows that a run that keeps off those stacks is the same without them. Runs go on when a
  process is killed or faults for ever, and end early exactly when the next operation stops the kernel
  (`Runs.Fatal`) or meets one of the obstacles listed in `Runs.Stop`. With a free frame for every operation
  the kernel stops only for what it is asked (`Runs.Reckless`).
- **TLB shootdown** (`TlbShootdown`, `TlbProgress`): every atomic instruction of every initiator and interrupt handler
  is a step, and steps interleave freely over any number of processors, with translations cached and page tables
  changed at any time. Safety is stated for what it is for: no translation that was gone at a call and that the request
  covers is cached by the processors asked, or by the one asking, when the call returns. Progress too is proved over all runs.
- **Red-black tree** (`RbShape`, `RbHeap`, `RbRemoval`, `RbTree`): nodes with father links and side and
  colour bits in an explicit memory, updated in place, tied to a tree value by `Focus`, which describes
  a subtree and the path above it. All of insertion and deletion is proved on this memory.
- **Zone allocator and its two instances** (`Powers`, `ZoneIndex`, `Tiling`, `VmMap`, `PageZone`): the index
  of size classes refines a plain set of free extents. `VmMap` runs it over the red-black tree above;
  `PageZone` runs it over boundary tags in the frame database.
- **User devices** (`UserDevice`): descriptors, ids and the request stream the driver polls.
- **Slab cache** (`Slab`, the structs instance) and **base-40 names** (`Squoze`).

`Options` holds the option type. State the source updates in place is a class with the same fields;
a linked list is a sequence and a pointer-linked structure a map from addresses to cells. Each method
is specified by the abstract state it reaches.

What the proofs show of the code that a reader of it might not expect:

- Mapping a page without write permission stops the kernel, and so does the first touch of a page of a
  read-only or executable region: the new frame is cleared through its own mapping with write protection
  in force (`PageMap.Kernel.VmMap`, `UserSpace.FirstTouchStops`).
- A fault of a process that could not be delivered kills it, and the kernel too if the process has no
  parent, as init has none (`UserSpace.FaultHandler`, `UserSpace.TakeFault`); delivery succeeds exactly if the frame's pages
  are there and writable (`Signals.Deliver`). That is why fork copies the low page outright: if a process can
  have faults delivered there, so can all its descendants that do not disturb theirs (`Runs.Run`). On the
  stack itself the frames are seen (`QuietStack.FrameSeen`).
- Moving a page onto itself hands its frame back while it is mapped, exactly when its count is one
  (`FrameSharing.SelfMove`).
- The kernel's repair of the last copy-on-write mapping is not taken in any run in which a copy-on-write
  page is exported only when nothing else maps its frame: a copy-on-write frame keeps a count of at least
  two, since replacing its entries never lowers it (`CowShared` in `Runs.Ready`, kept by every step of
  `Runs.Run`; `PageMap.Kernel.PageFault`). It is taken after a shared page is exported, unexported and
  unmapped (`HwExport.RepairReached`).
- Exporting a copy-on-write page breaks "writable means exclusive" exactly when another page maps its
  frame (`FrameSharing.WiringCow`, `HwExport.Export`).
- Fork clears the reference count of the frame for the low page but not its wire count, which lies over
  the address and size of the free extent the frame began and so is never zero. All wire counts start
  from zero after a fork exactly if they did before and there is no low page (`LowPage.ForkFromZone`).
  A page over such a frame, once exported, stays wired when its last export is taken back
  (`HwExport.ReleaseAt`, exactly then).
- A device export is refused by where its last byte lies, in 32 bits: a range that goes round the whole address
  space and ends in the page before it started is accepted (`EagerFork.OnePageIs`).
- The test of memory types before merging with the next extent compares the wrong pair of frames;
  `PageZone.NextCrossesTypes` says exactly when that lets a merge cross types, and
  `PageZone.CrossingExample` gives a case.
- The neighbour test for a block that ends with the last frame reads the record just past the frame
  database; what that record reads as decides whether the block is merged (`PageZone.PastTheEnd`).
- The slab cache needs two objects per slab: with one, the first allocation queues the slab wrongly
  (`Slab.Caches.Alloc`).
- The decoder's zero fill runs past the buffer exactly when the text does not fit it (`Squoze.Unpack`).

Assumptions, stated where they are used: exported pages and device memory change only by stores of
processes; a handler stores only on the stack set aside for it; a sent interrupt is delivered once and nothing else raises
one; a processor caches translations only from the page tables as they are, and a new mapping is another translation; bus operations and page-map calls are atomic; which free frame the allocator picks, permission
decisions, and whether a page is to be had are parameters or unconstrained results; the frame database's
last element in `PageZone` stands for the record just past it, and is taken not to read as the start of
a free extent.

## Model

| member | source | states |
|---|---|---|
| `Runs.Run` | lib/libmrg/vm.c:127-172 | Copy-on-write fork refines fork by copying: over any run of forks with any leftover wire count, maps, unmaps, moves, protection changes, reads, writes, device mappings, exports, clears and handler settings of any number of processes, the bytes read are exactly those of the machine that copies every page at fork and stores the same fault frames, and the two machines stay equal as the processes see them, also past accesses that kill their process or never end. For a run that keeps off the handler stacks both hold of the copying machine without any frames, outside the stacks. A process no operation acts on keeps its memory; a page keeps its entry while a client holds an export of it; descendants of processes that can have faults delivered in their low page can too unless they disturb theirs. Operation by operation, from the kernel state before it: no obstacle, the fate the verdict on that state gives, bytes stored exactly if a fault was delivered, one free frame taken at most. The run ends early exactly where the next operation meets an obstacle of `Runs.Obstacle` or stops the kernel; with a free frame for every operation it is stopped only by what `Runs.Reckless` lists, and not at all if every operation is harmless |
| `Runs.Exec` | ukern/i386/src/pmap.c:121-161 | One operation without an obstacle, with all its faults and retries, is one step of the copying machine according to its fate and the frames stored, and keeps every invariant; its fate is that of the verdict on the state before it, bytes are stored exactly if a fault is delivered, at most one free frame is taken, and the kernel stops exactly if `Runs.Fatal` says so |
| `Runs.ExecAccess` | lib/libmrg/vm.c:127-172 | Exactly when a read or write goes through, kills its process, faults for ever or stops the kernel, from the entry, the reference count, the region, whether a fault can be delivered, whether a frame is free and whether the process has a parent; what its faults store; and its effect on the view. With deliverability and memory, a first touch goes through exactly in an Rw or Wx region and stops the kernel exactly in an Ro or Rx one, or in none with a process without a parent |
| `Runs.DeliveryNeverFails` | ukern/i386/src/machdep.c:259-300 | A process with its handler stack in a writable low page always has its faults delivered |
| `Runs.ReadBack` | ukern/i386/src/pmap.c:518-562 | Isolation on the kernel: a process reads back the byte its memory held, whatever any run of operations of others did meanwhile, its forks and the writes of its children included, unless one of them stopped the kernel; with a free frame for every operation and all of them harmless none does |
| `Runs.ChildReads` | ukern/i386/src/pmap.c:518-562 | On the kernel, after a fork and any run of operations of others, the child reads in every ordinary page of the copy-on-write range, and in the page below it, what the page of its parent held at the fork, unless an operation stopped the kernel; with a free frame for every operation, all of them harmless, and the address space of the child not in use, it always does |
| `Runs.StopsAsAsked` | ukern/src/kern.c:670-691 | Over any run with a free frame at the start for every operation, the kernel stops only for what it was asked in the state it was asked in, and never if all the operations are harmless at the start |
| `Runs.FatalWithRoom` | lib/libmrg/vm.c:127-172 | With a free frame, exactly these stop the kernel: a page mapped without write permission or first touched in a region without it, the killing of a process without a parent, a protection taken from a copy-on-write page, a device frame that does not exist, an export of an absent page |
| `Runs.RoomAfter` | ukern/src/kern.c:670-691 | Every operation takes one free frame at most, the frames stay the same and no process loses its parent |
| `Runs.ObstacleIs` | ukern/i386/src/pmap.c:518-562 | Each obstacle in terms of entries, counts and records: exactly when a fork finds the child in use, a move onto itself frees its frame, an export is refused with the lock held or shares its frame, a release or a close leaves a page wired |
| `Runs.HarmlessIs` | ukern/src/kern.c:670-691 | Harmless is exact: any other operation stops the kernel in some state with the same frames and parents, whatever memory there is |
| `Runs.InPlainTerms` | ukern/src/kern.c:196-273 | Which operations take back an export, who has faults delivered in the low page, and who are the descendants of a family that do not disturb theirs |
| `EagerFork.RunUndisturbed` | ukern/i386/src/pmap.c:518-562 | The part of that isolation about the copying machine: operations of other processes leave every memory page of p as it was |
| `LowPage.ForkFromZone` | ukern/src/kern.c:255-271 | Fork with the low page in the very frame the page allocator returned: it fails exactly if the zone is empty; the result is fork by copying, the zone and the frame types go on agreeing, and afterwards all wire counts have started from zero if and only if they had before and there was no low page |
| `EagerFork.SeenStore` | ukern/i386/src/pmap.c:128-144 | A store through a writable entry changes what one page of one process shows and nothing else, because the frame is mapped nowhere else |
| `EagerFork.CopyThroughSpare` | lib/libmrg/vm.c:152-160 | Map a spare page, copy into it, move it over the original: on the copying machine nothing has changed but the spare page |
| `ThreadFork.ShareOne` | ukern/i386/src/pmap.c:535-555 | Sharing one page with the child: both entries become copy-on-write, one reference more, external pages are not inherited; the view of the copying machine gains exactly the child page; every invariant is kept |
| `ThreadFork.PmapCopy` | ukern/i386/src/pmap.c:518-562 | Building the whole child: the child sees exactly the ordinary pages of the range, the parent sees no change, external entries are untouched |
| `ThreadFork.CopyLow` | ukern/src/kern.c:255-271 | The page below the copy-on-write range is copied outright if present, for any wire count left in its frame; all wire counts still start from zero exactly if they did and that count is zero or the page absent |
| `ThreadFork.Fork` | ukern/src/kern.c:196-273 | The page-map part of fork gives the state fork by copying gives and keeps every invariant, whatever wire count is left in the frame of the low page; it fails exactly without a frame; the child gets the handler of its parent and, if there is a low page, a writable one of its own; external entries and the low pages of others stay |
| `UserSpace.CopyOnWrite` | lib/libmrg/vm.c:152-160 | A copy-on-write fault in user code leaves every process seeing what it saw, and the page normal, writable and its own |
| `UserSpace.FaultHandler` | lib/libmrg/vm.c:127-172 | Exactly which faults kill the process and which stop the kernel, a process without a parent not dying alone; any other leaves the view as it was, or with one zero page more, and the entry ready for the retry. An absent page with memory free is mapped exactly in an Rw or Wx region and stops the kernel exactly in an Ro or Rx one; a write to a normal read-only page is let through exactly in an Rw or Wx region |
| `UserSpace.TakeFault` | lib/libmrg/vm.c:127-172 | The same with the delivery before it: without delivery the process is killed, or the kernel with it if it has no parent |
| `UserSpace.FirstTouchStops` | ukern/src/kern.c:670-691 | With a free frame and a fault that can be delivered, the first touch of a page goes through exactly in an Rw or Wx region and stops the kernel exactly in an Ro or Rx one, where it does so however much memory there is; mapping a page read-only stops the kernel |
| `UserSpace.UserWrite` | lib/libmrg/vm.c:127-172 | A write is the write of the copying machine after the frame stored for its fault; whether it goes through, kills the process, faults for ever or stops the kernel is decided exactly by the entry, the reference count, the region, deliverability, free memory and whether the process has a parent; its faults store their frame and what the handler leaves exactly if it faults and that can be delivered; it takes no fault if the page can be written, two if it is copy-on-write over a frame with a count of one, and one otherwise; with deliverability, a first touch with memory free and a write to a normal read-only page go through exactly in an Rw or Wx region |
| `UserSpace.WriteFault` | lib/libmrg/vm.c:145-168 | One fault of a write: killed, fatal to the kernel, in vain, or tried again, after the repair of the kernel with the same outcome in store or with the page writable |
| `UserSpace.UserRead` | lib/libmrg/vm.c:127-172 | A read gives the byte of the copying machine; exactly when it kills the process or stops the kernel, and what its fault stores; with deliverability and memory, the first touch of a page reads zero, and goes through exactly in an Rw or Wx region |
| `PageMap.Kernel.UEnter` | ukern/i386/src/pmap.c:287-327 | Entering a page: refused exactly for external entries; otherwise the entry, the counts and the frame handed back are as stated, that frame is mapped nowhere, and entering a fresh frame keeps every invariant |
| `PageMap.Kernel.UIomap` | ukern/i386/src/pmap.c:194-232 | Mapping device memory keeps every invariant, and the frame handed back is mapped nowhere |
| `PageMap.Kernel.UIounmap` | ukern/i386/src/pmap.c:234-260 | Only a device mapping is taken away; every invariant is kept |
| `PageMap.Kernel.UChAddr` | ukern/i386/src/pmap.c:329-372 | A move between different pages keeps every invariant and hands back only a frame mapped nowhere; the counts are stated for equal pages too |
| `PageMap.Kernel.UChProt` | ukern/i386/src/pmap.c:374-417 | Every outcome of a protection change, and that none breaks an invariant; a shared page never becomes writable |
| `PageMap.Kernel.UWire` | ukern/i386/src/pmap.c:459-486 | Wiring: outcome, new entry and new count |
| `PageMap.Kernel.UUnwire` | ukern/i386/src/pmap.c:488-516 | Unwiring: the entry turns normal exactly when the count reaches zero |
| `PageMap.Kernel.PageFault` | ukern/i386/src/pmap.c:121-157 | The kernel half of a fault up to its delivery is invisible to processes and keeps every invariant; the last-mapping repair is taken exactly on a copy-on-write entry with count one, so never while every copy-on-write frame has a count of two or more |
| `Signals.Deliver` | ukern/i386/src/machdep.c:259-300 | The frame of a fault is stored whole exactly if there is a handler and every page of the frame is there and writable; otherwise as much of it as comes before the first page that is not, and delivery fails |
| `Signals.SignalFault` | lib/libuk/i386/xcpt.S:34-78 | What a fault delivered leaves is the frame below the top of the stack and then whatever the handler has put in the stack, in the memory of that process; a fault not delivered leaves nothing |
| `Signals.ReadyDelivers` | ukern/i386/src/machdep.c:259-300 | For a stack within one page, delivery succeeds exactly if that page is there and writable |
| `Signals.UserRangeIs` | ukern/src/param.h:42 | The check of a user range passes exactly if the range is not empty and all its bytes are in user pages |
| `Signals.SetHandler` | ukern/src/sys.c:44-55 | The handler is set exactly if its address and the frame below the stack it is to run on lie in user memory |
| `QuietStack.FramesUnseen` | ukern/i386/src/machdep.c:259-300 | On the copying machine, a run in which every process keeps off the addresses it reserves, a child reserving at least what its parent does, reads the same bytes with and without the frames stored there, and ends the same outside them |
| `Runs.QuietEnough` | ukern/i386/src/machdep.c:259-300 | What it takes for a run to keep off the handler stacks, address by address and operation by operation |
| `QuietStack.StepAgrees` | ukern/i386/src/pmap.c:518-562 | Every operation that keeps off the reserved addresses keeps two machines in agreement outside them, fork and moves included |
| `QuietStack.FrameSeen` | ukern/i386/src/machdep.c:259-300 | For any marks a fault delivered leaves with a last byte that is not zero: a run that reads the top of its handler stack after a copy-on-write fault reads that byte, and zero without the marks |
| `PageMap.Kernel.AllocFrame` | ukern/src/pfndb.h:109-117 | A frame handed out was free and is mapped nowhere, its counts cleared; it fails exactly if no frame is free |
| `PageMap.Kernel.TakeFrame` | ukern/src/pfndb.c:123-137 | A given free frame becomes a user frame with the wire count left in it, and every invariant is kept |
| `PageMap.Kernel.FreePage` | ukern/src/pfndb.c:123-137 | Freeing a frame keeps every invariant if nothing maps it and breaks them if something does; so no call that keeps them frees a mapped frame |
| `PageMap.Kernel.VmMap` | ukern/src/kern.c:670-691 | The kernel stops exactly if no frame is free or the page is not external and write permission is not asked for; otherwise external pages are refused, and any other shows zeroes, byte by byte, and nothing else changes anywhere |
| `PageMap.Kernel.VmUnmap` | ukern/src/kern.c:714-730 | Unmapping is the unmap of the copying machine; refused exactly for external pages |
| `PageMap.Kernel.VmClear` | ukern/src/kern.c:653-668 | Clearing a range removes exactly its ordinary pages and touches no other page |
| `PageMap.Kernel.VmMove` | ukern/src/kern.c:732-748 | Moving a page, also onto itself, keeps every invariant if and only if it is not a normal page with a count of one moved onto itself; if so it is the move of the copying machine |
| `PageMap.Kernel.VmChProt` | ukern/src/kern.c:750-757 | Changing protection changes what no process sees |
| `PageMap.Kernel.IoMapPage` | ukern/src/kern.c:601-620 | Device mapping is that of the copying machine; frames that are not device memory are refused |
| `PageMap.Kernel.IoUnmapPage` | ukern/src/kern.c:622-629 | Removing a device mapping is that of the copying machine |
| `PageMap.LastMapping` | ukern/i386/src/pmap.c:128-144 | A count of one means one mapping |
| `FrameSharing.ReplaceKeepsInv` | ukern/i386/src/pmap.c:310-326 | Replacing an entry keeps: entries typed, ref at least the number of mappings, and one mapping or all copy-on-write and not writable |
| `FrameSharing.MoveKeepsInv` | ukern/i386/src/pmap.c:349-371 | The same for a move, and the frame the target held is left without mappings |
| `FrameSharing.SelfMove` | ukern/i386/src/pmap.c:349-371 | Moving a page onto itself breaks the invariants if and only if its count is one; then its frame is handed back while mapped |
| `FrameSharing.WireKeeps` | ukern/i386/src/pmap.c:474-485 | Wiring a page whose frame nothing else maps keeps every invariant, wire counts included |
| `FrameSharing.WiringCow` | ukern/i386/src/pmap.c:479-480 | Wiring a copy-on-write page keeps "writable means exclusive" if and only if nothing else maps its frame |
| `FrameSharing.RecordIsWired` | ukern/src/hwdev.c:256-266 | A page with an export record is wired, and its wire count is one more than what it started from and the records left without this one |
| `FrameSharing.WiresAreRecords` | ukern/src/hwdev.c:209-243 | Where wire counts start from zero, a page is wired exactly while it has records and its wire count is their number |
| `FrameSharing.UnwireKeepsWires` | ukern/i386/src/pmap.c:503-515 | Dropping a record keeps wire counts exact |
| `Pae.ClassifiersDecode` | ukern/i386/src/pae.h:99-107 | For all 64-bit entries the classifier macros agree with the decoded record |
| `Pae.MkCowDecode` | ukern/i386/src/pae.h:95 | For all entries: copy-on-write marking keeps frame, presence and user bit and removes write |
| `Pae.RetypeDecode` | ukern/i386/src/pae.h:94-97 | For all entries the other three marking macros change the software bits only |
| `FrameSharing.ReplacedIs` | ukern/i386/src/pmap.c:310-326 | Frame by frame, replacing an entry raises the count of the frame entered by one, lowers that of a normal frame displaced by one, and changes nothing else |
| `EagerFork.OnePageIs` | ukern/src/hwdev.c:219-221 | The test of an export range accepts exactly the ranges within the page, its last byte included, and those that go round the 32-bit address space and end in the page before they started |
| `Pae.EntryDecode` | ukern/i386/src/pae.h:80-90 | Composing an entry from frame number and protection gives the entry the page-map model enters for them |
| `Pae.AddressDecode` | ukern/i386/src/pae.h:80-90 | For any address: the frame is that of its page, and what lies below the page does not reach the flags |
| `Pae.StoreNeverTears` | ukern/i386/src/pmap.c:101-108 | Between the three stores of an entry update the entry reads as absent; after them it is the new one |
| `HwExport.Export` | ukern/src/hwdev.c:209-243 | Every outcome of exporting a range; the device gets the frame of the page; every invariant is kept if nothing else maps the frame, and exclusivity only then |
| `HwExport.ReleaseAt` | ukern/src/hwdev.c:256-271 | Dropping a record never meets an unwired page, and is the release of the copying machine, the last record restoring a normal entry with the same frame and protection, if and only if it is not the last record of a page whose wire count did not start from zero; then the page stays wired |
| `HwExport.Unexport` | ukern/src/hwdev.c:245-272 | Unexporting finds the record exactly if there is one, and is the release of the copying machine with the same exact exception |
| `HwExport.Close` | ukern/src/hwdev.c:441-467 | Closing a client leaves no record of it and is the repeated release of the copying machine exactly unless a page only it had exported stays wired |
| `HwExport.ReleaseHolds` | ukern/src/hwdev.c:256-271 | Taking back one export leaves the exports of others, and the entries of their pages, as they are |
| `HwExport.RepairReached` | ukern/i386/src/pmap.c:459-486 | A run that exports a shared copy-on-write page: exclusivity fails on the way, and in the end a copy-on-write entry has a count of one |
| `TlbShootdown.ShootdownSafe` | ukern/i386/src/tlb.c:67-93 | In every interleaving, when an initiator leaves its wait, each other active processor of its mask was posted to in this call and has since fetched a word holding the request and finished a flush for it |
| `TlbShootdown.StrongEnough` | ukern/i386/src/tlb.c:36-46 | A word holding the request makes the handler drop at least the translations that were asked for |
| `TlbShootdown.FlushedIs` | ukern/i386/src/tlb.c:36-63 | A flush for a word drops exactly what the word covers: everything if it is global, what is not global if it is normal |
| `TlbShootdown.NothingStale` | ukern/i386/src/tlb.c:67-93 | In every interleaving with translations cached and tables changed at any time: when an initiator leaves, neither it nor any active processor of its mask caches a translation that was gone from the tables at the call and that the request covers |
| `TlbShootdown.OwnClean` | ukern/i386/src/tlb.c:84-87 | An initiator that waits has flushed its own translations since its call |
| `TlbShootdown.FlushCleans` | ukern/i386/src/tlb.c:36-46 | After the flush of a handler the processor holds nothing the word covers that was gone then, whatever happens later |
| `TlbProgress.CounterExact` | ukern/i386/src/tlb.c:67-93 | In every reachable state the counter equals requests counted but not sent, plus interrupts pending, plus handlers not finished |
| `TlbShootdown.CountStep` | ukern/i386/src/tlb.c:67-93 | Every atomic step keeps the counter exact |
| `TlbShootdown.InvStep` | ukern/i386/src/tlb.c:36-93 | Every atomic step keeps where each posted request stands: in the word with a handler to come, held by a handler, or served |
| `TlbProgress.NeverStuck` | ukern/i386/src/tlb.c:90-92 | While anyone is inside a call, some step of the protocol other than spinning is enabled |
| `TlbProgress.BoundedWork` | ukern/i386/src/tlb.c:67-93 | A run with n calls has at most 452 n steps of the protocol besides spins, whatever the interleaving |
| `TlbProgress.ForeachCpumask` | ukern/src/cpu.h:98-112 | The mask loop, entered in the middle of its body, visits exactly the set bits, each once, lowest first |
| `RbTree.RbTree.Insert` | ukern/lib/gen/rb.c:188-323 | Insertion into a valid tree gives a valid tree (order, black root, no red-red edge, equal black heights, father and side links, cached extremes) with the node added, or finds the node of equal key and changes nothing |
| `RbTree.RbTree.InsertRebalance` | ukern/lib/gen/rb.c:397-501 | The climbing loop ends, and restores the red-black shape without changing the order |
| `RbTree.RbTree.InsertRotate` | ukern/lib/gen/rb.c:460-500 | With a black uncle one or two rotations finish |
| `RbTree.RbTree.Reparent` | ukern/lib/gen/rb.c:333-395 | The rotate-and-recolour primitive on links is the rotation of the tree, in any context |
| `RbTree.RbTree.Remove` | ukern/lib/gen/rb.c:753-816 | Removing any node of a valid tree gives a valid tree whose nodes lost exactly that one, with true extremes |
| `RbTree.RbTree.PruneNode` | ukern/lib/gen/rb.c:503-550 | Taking out a childless node: order without it, red-black, extremes moved to the father when needed |
| `RbTree.RbTree.PruneBlackRed` | ukern/lib/gen/rb.c:708-751 | Taking out a node with one child: order without it, red-black, extremes moved to the child when needed |
| `RbTree.RbTree.SwapPrune` | ukern/lib/gen/rb.c:555-699 | Taking out a node with two children by its stand-in: order without it, red-black, extremes kept |
| `RbTree.RbTree.SwapIn` | ukern/lib/gen/rb.c:565-690 | The pointer surgery that puts the stand-in in the place, sides and colour of the node, near or far |
| `RbTree.RbTree.RemovalRebalance` | ukern/lib/gen/rb.c:818-967 | From any place one black level short, the loop ends and restores the red-black shape without changing the order |
| `RbTree.RbTree.Find` | ukern/lib/gen/rb.c:127-144 | For any comparison consistent with the order: a match if there is one, after at most 2 log2(n + 1) visits, which go down from the root one after another |
| `RbTree.RbTree.FindNear` | ukern/lib/gen/rb.c:146-186 | The least node not below, or the greatest not above, a key |
| `RbTree.RbTree.Iterate` | ukern/lib/gen/rb.c:969-1016 | The in-order neighbour on either side |
| `RbTree.RbTree.IterateFrom` | ukern/lib/gen/rb.c:976-984 | The first or last node, from the cached extremes |
| `RbShape.RotatedInorder` | ukern/lib/gen/rb.c:333-395 | Rotation keeps the order |
| `RbShape.PlugRB` | ukern/lib/gen/rb.c:397-501 | A tree that fits a hole of the right black height completes a red-black tree |
| `RbShape.SplitRB` | ukern/lib/gen/rb.c:753-816 | Any place of a red-black tree splits it into a fitting tree and a path |
| `RbShape.HeightLog` | ukern/lib/gen/rb.c:127-144 | The height of a red-black tree is at most 2 log2(n + 1) |
| `RbRemoval.RedBrother` | ukern/lib/gen/rb.c:842-860 | Case of a red brother: still one level short, now with a black brother, same order |
| `RbRemoval.AllBlack` | ukern/lib/gen/rb.c:862-881 | All black: the shortage moves up one level, or ends at the root, same order |
| `RbRemoval.RedFather` | ukern/lib/gen/rb.c:893-908 | Red father, black brother and nephews: exchanging colours ends the shortage |
| `RbRemoval.NearNephew` | ukern/lib/gen/rb.c:918-934 | Red near nephew only: a rotation makes the far nephew red, still short by one |
| `RbRemoval.FarNephew` | ukern/lib/gen/rb.c:935-964 | Red far nephew: one rotation and a repainting end the shortage |
| `RbRemoval.SwapFocus` | ukern/lib/gen/rb.c:565-690 | Pointers after the stand-in took the place of a node represent the tree with exactly that change |
| `RbRemoval.SwapOrder` | ukern/lib/gen/rb.c:555-699 | Replacing a node by its stand-in takes the node out of the order and nothing else |
| `ZoneIndex.Zone.Attach` | lib/libmrg/alloc.c:95-112 | Adding an extent keeps: bit k set exactly if list k is not empty, every extent once in the list of its top bit, the total right |
| `ZoneIndex.Zone.Detach` | lib/libmrg/alloc.c:78-93 | Taking an extent out keeps the same |
| `ZoneIndex.Zone.FindFree` | lib/libmrg/alloc.c:114-139 | A free extent large enough, of the lowest class that holds one sure to be; none if and only if every free extent is smaller than the least power of two covering the request |
| `ZoneIndex.DoubleSuffices` | lib/libmrg/alloc.c:114-139 | A free extent of twice the request less one always suffices |
| `ZoneIndex.MinBitBounds` | lib/libmrg/alloc.c:120-123 | The starting class is the least k with 2^k at least the size |
| `VmMap.VmMap.constructor` | lib/libmrg/vmap.c:175-185 | The arena starts as one free entry |
| `VmMap.VmMap.Find` | lib/libmrg/vmap.c:74-106 | The interval search finds the entry holding an address if there is one |
| `VmMap.VmMap.Remove` | lib/libmrg/vmap.c:65-72 | Removing an entry from the tree removes it from the map and nothing else |
| `VmMap.VmMap.Insert` | lib/libmrg/vmap.c:82-94 | Inserting an entry disjoint from all others adds exactly it |
| `VmMap.VmMap.GetNeighbors` | lib/libmrg/vmap.c:140-157 | The free entries holding the addresses just before and just after a range |
| `VmMap.VmMap.CreateAt` | lib/libmrg/alloc.c:147-167 | Giving a range back merges it with its free neighbours, closes the hole and touches no allocation |
| `VmMap.VmMap.ZoneAlloc` | lib/libmrg/alloc.c:177-198 | Taking room out of the free space: nothing exactly when the index finds nothing; a failed assertion, with nothing changed, exactly when the only extent sure to fit is left half a word or more, which an arena below half a word rules out; otherwise from the start of one free extent |
| `VmMap.VmMap.Alloc` | lib/libmrg/vmap.c:187-201 | The map still tiles its arena with no two free entries touching and the index exact, if and only if nothing was allocated of the free kind; the allocations gain exactly the returned range, which no allocation met; failure if and only if every free extent is smaller than the covering power of two; the size is rounded up to whole pages, by less than a page; a failed assertion if and only if it is zero, would round past the word, or leaves half a word of the only extent sure to fit |
| `VmMap.VmMap.Free` | lib/libmrg/vmap.c:203-219 | The allocation at the start named, if its size is the size named rounded up to whole pages, is given back, and exactly it; anything else fails an assertion and changes nothing |
| `VmMap.VmMap.Info` | lib/libmrg/vmap.c:221-247 | The unique entry holding an address of the arena |
| `VmMap.VmMap.FreeBytes` | lib/libmrg/alloc.c:78-112 | The running total of the zone equals the arena less the allocations, so it never wraps |
| `VmMap.VmMap.MapSize` | lib/libmrg/vmap.c:65-94 | The running size of the map is always that of the arena |
| `Tiling.AllFree` | lib/libmrg/alloc.c:147-167 | With nothing allocated one free extent is left, the whole arena |
| `Tiling.FreeIsTheRest` | lib/libmrg/vmap.c:187-219 | An address is free exactly when no allocation holds it |
| `Tiling.Conserved` | lib/libmrg/alloc.c:78-112 | Free and used sizes add up to the arena |
| `Tiling.OneHolder` | lib/libmrg/vmap.c:96-106 | At most one entry holds an address |
| `Tiling.ComparisonAsserts` | lib/libmrg/vmap.c:108-122 | What the node comparison asserts holds of any two entries of a tiling away from address zero |
| `PageZone.Pages.PgInit` | ukern/src/pgalloc.c:237-278 | The first scan makes extents of exactly the free frames, tagged and recorded at both ends |
| `PageZone.Pages.PgAlloc` | ukern/src/pgalloc.c:184-221 | A range that was wholly free becomes busy with the type asked, no other frame changes hands, and tags again stand exactly at the ends of free extents; the record of its first frame still holds that address and a size of at least the request; none if and only if every extent is smaller than the covering power of two |
| `PageZone.Pages.PgFree` | ukern/src/pgalloc.c:223-235 | The frames given back, and no others, become free, merged on both sides; tags and records exact again |
| `PageZone.Pages.Mkptr` | ukern/src/pgalloc.c:136-160 | Tags and both end records of an extent, nothing else changed |
| `PageZone.Pages.ZoneCreate` | ukern/src/alloc.c:154-174 | Giving a range back with stale tags around: the stale ones never cause a merge, and the free frames grow by exactly the range |
| `PageZone.Pages.ZoneAlloc` | ukern/src/alloc.c:184-205 | Taking frames from the start of an extent: the tags left stale are exactly those of the frames taken |
| `PageZone.PrevIs` | ukern/src/pgalloc.c:114-125 | The previous-neighbour test finds the extent that ends there, if any; across a border of memory types it finds none |
| `PageZone.NextIs` | ukern/src/pgalloc.c:127-133 | The next-neighbour test finds the extent that starts there, if any |
| `PageZone.NextCrossesTypes` | ukern/src/pgalloc.c:127-133 | The next-neighbour test offers an extent of another memory type if and only if the block has at least two frames and the frame after it starts a free extent of another type |
| `PageZone.CrossingExample` | ukern/src/pgalloc.c:127-133 | An input on which that happens |
| `PageZone.PastTheEnd` | ukern/src/pgalloc.c:127-133 | For a block that ends with the last frame, exactly what the test offers, from the record past the database |
| `PageZone.MarkKeeps` | ukern/src/pgalloc.c:136-160 | Marking a new extent keeps the tags exact |
| `PageZone.Unmark` | ukern/src/pgalloc.c:162-166 | Taking an extent out without clearing its tags leaves exactly its own frames stale |
| `UserDevice.Machine.Run` | ukern/src/usrdev.c:42-53 | Over any run of calls by any processes and the driver: buses, ids, events sent and events polled are exactly what the calls make of them one by one; ids in use are exactly those of plugged descriptors, none held twice; and what the driver polled is for every id whole sessions (open or clone, then out and clone, then close), possibly followed by one still open |
| `UserDevice.Machine.Do` | ukern/src/bus.c:57-301 | Each call does exactly its step of `StepSys`, which the lemmas below spell out in descriptors, ids and events; polling gives the oldest event |
| `UserDevice.PlugMeans` | ukern/src/bus.c:57-111 | Plugging gives the first free descriptor the least free id and sends its open; when it cannot, nothing changes |
| `UserDevice.CopyMeans` | ukern/src/bus.c:113-190 | Copying gives a free descriptor the least free id and sends one clone event from the id of the source; when it cannot, nothing changes |
| `UserDevice.UnplugMeans` | ukern/src/bus.c:204-240 | Unplugging clears the descriptor, frees its id and sends its close |
| `UserDevice.ForkMeans` | ukern/src/kern.c:246-249 | A fork leaves the parent bus as it was and plugs on the child bus every descriptor plugged on the parent at a free place, each with a fresh id of its own and one clone event from the id of the parent, in order; one is left out only when every id is in use |
| `UserDevice.ExitMeans` | ukern/src/kern.c:556-558 | The end of a process clears every plugged descriptor of its bus, frees exactly their ids, and sends one close for each, in order; other buses are as they were |
| `UserDevice.RunsCompose` | ukern/src/bus.c:57-301 | Runs of calls compose, and a run of one call is its step |
| `UserDevice.UsrDev.DevOpen` | ukern/src/usrdev.c:130-175 | The first id not in use is taken and its open queued; fails exactly when all are in use; every id stream stays well formed |
| `UserDevice.UsrDev.DevClone` | ukern/src/usrdev.c:177-229 | The same for a clone, which is an event of the old id and starts the new one |
| `UserDevice.UsrDev.DevOut` | ukern/src/usrdev.c:255-291 | The output is queued within its session |
| `UserDevice.UsrDev.DevClose` | ukern/src/usrdev.c:434-472 | The session ends and its id is free |
| `UserDevice.UsrDev.Poll` | ukern/src/usrdev.c:514-561 | The oldest request; what has been polled is well formed for every id at every moment: every output, clone and close of an id comes after an open or a clone that gave it out and before its close, and it is given out only when it is not |
| `UserDevice.Machine.Plug` | ukern/src/bus.c:57-111 | The first free descriptor gets a fresh id; every failure characterised; nothing changes on failure |
| `UserDevice.Machine.Copy` | ukern/src/bus.c:113-190 | The chosen descriptor gets a fresh id cloned from the source; every failure characterised |
| `UserDevice.Machine.Unplug` | ukern/src/bus.c:204-240 | The descriptor is cleared, its id freed and its close queued; every failure characterised |
| `UserDevice.Machine.BusOut` | ukern/src/bus.c:298-301 | The output carries the id of the descriptor; every failure characterised |
| `UserDevice.Machine.RemoveBus` | ukern/src/bus.c:365-371 | Nothing is left plugged on the bus; other buses are untouched |
| `UserDevice.Machine.ForkBus` | ukern/src/kern.c:246-249 | Every descriptor is copied to its place unless the place was taken or ids ran out; the parent bus is untouched |
| `UserDevice.Extend` | ukern/src/usrdev.c:42-53 | How a well-formed stream may go on |
| `UserDevice.Suits` | ukern/src/usrdev.c:42-53 | An event that suits the ids it concerns keeps all streams well formed |
| `UserDevice.OwnMore` | ukern/src/bus.c:95-104 | Plugging keeps the one-to-one match of ids in use and plugged descriptors |
| `UserDevice.OwnLess` | ukern/src/bus.c:214-236 | Unplugging keeps it |
| `Slab.Caches.Alloc` | ukern/src/slab.c:233-287 | An object nobody has, of the cache asked, becomes live and no other object changes; fails exactly when no slab has room and no page is to be had; every slab stays on the queue its free count dictates and the counters count the queues if and only if a slab holds two objects or more |
| `Slab.Caches.Free` | ukern/src/slab.c:289-321 | The object, and no other, stops being live; queues and counters stay right if and only if a slab holds two objects or more; a pointer without a slab header is ignored |
| `Slab.Caches.Grow` | ukern/src/slab.c:184-211 | One more empty slab, all its objects free; no object changes hands |
| `Slab.Caches.Shrink` | ukern/src/slab.c:213-231 | Exactly the slabs without live objects are returned, and counted |
| `Slab.Caches.Register` | ukern/src/slab.c:323-358 | A new cache without slabs, the object size rounded up to cache lines if asked; it is in order if and only if an object fits a slab |
| `Slab.Caches.Carve` | ukern/src/slab.c:196-202 | Every address one object apart behind the header that ends within the slab, each once |
| `Slab.ObjEnds` | ukern/src/slab.c:128-132 | A slab holds every object that ends inside it, and no other |
| `Slab.TwoFit` | ukern/src/slab.c:189-202 | Two objects fit a slab exactly up to 8160 bytes |
| `Slab.HeaderFound` | ukern/src/slab.c:147-156 | Masking the address of any object gives its own slab header, and the object ends inside the slab |
| `Slab.MaskIsBase` | ukern/src/slab.c:152 | For every 32-bit address, clearing the low fourteen bits rounds down to a slab |
| `Slab.LiveApart` | ukern/src/slab.c:128-145 | No two live objects overlap, whatever caches they come from |
| `Slab.MovedOk` | ukern/src/slab.c:304-317 | A slab whose free count changes fits its cache again exactly if it is on the queue of its new kind |
| `Squoze.EncDec` | lib/libsquoze/squoze.c:38-62 | Decoding an encoded character gives its canonical form; only the blank encodes to zero |
| `Squoze.DecEnc` | lib/libsquoze/squoze.c:38-62 | Encoding a decoded digit gives the digit |
| `Squoze.AlphabetIs` | lib/libsquoze/squoze.c:38-62 | The forty characters and their codes, one by one; small letters code as capitals, all other characters as the underscore |
| `Squoze.Pack` | lib/libsquoze/squoze.c:90-105 | The word is the base-40 number of the first twelve characters, padded; it is below 40^12 and no step overflows 64 bits |
| `Squoze.Append` | lib/libsquoze/squoze.c:64-88 | For every 64-bit word: appending equals packing the text of the word and the string together if and only if the word is below 40^12; above, what comes out differs by 40^12, in 64 bits |
| `Squoze.Unpack` | lib/libsquoze/squoze.c:119-131 | For every 64-bit word the text is the decoded one cut to the buffer; the zero fill of the rest has the right length if and only if the text fits |
| `Squoze.PackThenRead` | lib/libsquoze/squoze.c:90-131 | Unpacking a packed name gives its canonical form: twelve characters, capitals, unknown as underscore, no blanks at the end |
| `Squoze.ReadThenPack` | lib/libsquoze/squoze.c:90-131 | Packing an unpacked word gives the word if and only if it is below 40^12 |

## Left out

- Runs.Run: processes stay off the page reserved for copying and keep their handler stacks in one page; only an access kills its process (exit is a system call, and for a process without a parent it stops the kernel in the same way); a killed process keeps its pages until operations Close and Clear take them away, which exit does at once; a process that faults for ever is taken to store its frame once, as it goes on storing frames in the same bytes; the obstacles before which it stops are those where the code leaves the invariants or the copying machine (shared export, stuck wiring, freeing self-move, a device left locked) or a fork into an address space in use, which fresh process ids rule out.
- EagerFork.RunUndisturbed: about the copying machine only; `Runs.Run` and `Runs.ReadBack` state it for the kernel.
- Signals.SignalFault: what the frame holds, and what the handler stores on its stack, is arbitrary; other interrupts, delivered on the same stack, are not operations of a run.
- HwExport.Export: the lock that refusing a range over two pages leaves held is not modelled; a run stops there.
- HwExport.ReleaseAt: a record is released in the address space that made it. The source uses the current one, which is the same: a hardware device has no clone operation, so a client belongs to one process, and only device detach, not modelled, closes it from elsewhere.
- HwExport.Close: device mappings and interrupt registrations of the client are not among the records.
- TlbProgress.ForeachCpumask: the mask is a number below 2^64; the intersection with the active processors is part of the call step.
- RbTree.RbTree.Find: the node pointer offset inside objects is not modelled, keys are integers, and the comparison callback is a function of the node.
- VmMap.VmMap.Alloc: allocation of tree nodes does not fail, and the first call's set-up is the constructor.
- PageZone.Pages.PgInit: one memory type, frame 0 not free; runs that end at a type boundary are not modelled. The last element of the database is the record at the index of the first missing frame, which a block ending with the last frame makes the neighbour test read (always for two frames or more, for one frame of the highest type); it is taken not to read as the start of an extent, and `PageZone.PastTheEnd` says what happens otherwise.
- PageZone.Pages.PgFree: the same assumption about the record past the database; with it, blocks up to and including the last frame are covered.
- PageZone.Pages.ZoneCreate: the same.
- PageZone.Pages.ZoneAlloc: what is left of an extent is asserted not to be negative as a 32-bit signed number. That never fails here: a database of half a word of frames would not fit the 32-bit address space it lies in. `VmMap.VmMap.ZoneAlloc` has the assertion.
- PageZone.Pages.PgAlloc: one zone; the choice of zone by flags is not modelled.
- UserDevice.Machine.Run: one device, which every descriptor is of, and which is not being detached; calls are atomic and one after another; interrupts, configuration space and data transfer between process and driver are not modelled.
- UserDevice.Machine.Plug: the outcomes for an unknown and an offline device.
- UserDevice.Machine.Copy: the outcomes for an offline device and for one that cannot be cloned.
- UserDevice.Machine.ForkBus: with other devices on the bus, descriptors of those that cannot be cloned (hardware devices among them) are not copied.
- UserDevice.Machine.Unplug: the outcome for an offline device.
- UserDevice.Machine.BusOut: the outcome for an offline device.
- UserDevice.UsrDev.DevOpen: the outcome on a device being detached, which also leaves the id taken.
- UserDevice.UsrDev.DevClone: the outcome on a device being detached.
- UserDevice.UsrDev.DevOut: the outcome on a device being detached.
- UserDevice.UsrDev.DevClose: the case of a device being detached, and the apertures of the client.
- UserDevice.UsrDev.Poll: the process, user and group of a request.
- Slab.Caches.Alloc: sequential; the lock dropped around growing, and constructors and the zeroing of objects, are not modelled.
- Squoze.Pack: a name is the characters before its terminating zero; the formatted variant of appending is not modelled.
- vmmap32 and vmpopulate, which differ from the modelled calls in the frame pool and in zeroing.
- TLB flush accumulation between page-map updates and their commit; only the shootdown itself is modelled.
- The slab instance for fixed memory, slab deregistration, the kernel heap, the scheduler, timers and zombies.
- The light-weight threads and event library, the rump kernel locks, printf, console, AHCI, ACPI, boot and interrupt controllers.
