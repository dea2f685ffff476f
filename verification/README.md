# SnapOS, modelled in Dafny

A model of the parts of the SnapOS kernel that carry its guarantees, with proofs about them:

- **Physical memory** (`MemoryMap`, `FrameBitmap`, `Frames`, `Ownership`, `Allocators`): cleaning the firmware's memory map,
  the early allocator, the bitmap allocator that takes over from it, and who owns which frame over whole runs.
- **Virtual memory** (`EntryBits`, `PageTable`, `PageSplit`, `Mmu`, `Vmm`): four-level page tables as a map from frame to
  512 entries, the hardware walk as a function, mapping ranges, allocating pages, and address spaces that share tables.
- **Heap** (`HeapLayout`, `HeapSteps`, `Heap`): kmalloc and kfree on a word-addressed memory, with the free lists and the
  list of big blocks as pointers in that memory.
- **Scheduling, waiting and the terminal** (`List`, `Sched`, `Wait`, `Tty`, `KernelRun`, `Machine`): the intrusive lists as
  objects, the operations on them, a step system whose invariants hold in every reachable state, and the proof that the
  lists in memory follow it.
- **ext2, read twice** (`Ext2`, `Ext2File`, `Ext2Inode`, `Ext2Dir`, `Ext2Layout`, `Loader`): how inodes, descriptors and
  directories lie on a volume, what they mean, and the kernel's and the boot loader's code against that.
- **Path lookup** (`Vfs`): the dentry cache against resolution from the disk alone.

Operations that change state are methods of classes, proved against specification functions on values; the theorems are
about those functions and about runs. `dafny verify dfyconfig.toml` checks the project.

## Where the code and its documentation or intent differ

The model follows the code. Each difference is stated as a theorem.

- `PAGE_SIZE_2M` is written as 8 MiB while the entry it sizes spans 2 MiB. The middle chunk is a parameter of `PageSplit`
  and `Mmu`; the results are given for the span and for the constant as written.
- The terminal's line counter goes wrong for a newline into a full buffer and for a backspace onto a newline (`Tty.PushSync`).
- The -EFAULT exit of `tty_read` skips `finish_wait` and leaves the task marked as sleeping (`KernelRun.FaultBreaks`).
- A read into a buffer that takes only part of a line loses the rest of the bounce it stops in (`Tty.ReadsPartOfLine`).
- `kfree` tells small from big blocks by a magic word that the owner of a big block can write (`Heap.Kheap.Kfree`).
- Neither reader checks an indirect root for zero (`Ext2.KernelPtrIff`, `Ext2.LoaderPtrIff`), and the kernel's reader has
  no doubly indirect blocks: beyond the singly indirect ones a file reads as zeros (`Ext2.BeyondIsZero`).
- `ext2_read_file` ignores the status of `ext2_init_singly` (`Ext2File.InodeInfo.ReadFile`).
- A directory is scanned up to its first zero pointer, whatever its size, and the length of a looked-up name is cut to
  8 bits (`Ext2Dir.LookupIff`).
- `IS_PAGE_ALIGNED` is never false, so the tests of `vmm_alloc_page` and `vmm_alloc_range` do nothing and
  `mmu_map_range` finds the misalignment, after a frame has been taken (`Vmm.Spaces.AllocPage`).
- The boundary buffer of the sanitiser holds 128 regions, but up to 129 are passed (`MemoryMap.Sanitize`).

## Assumptions

- Physical addresses have at most 52 bits. A mapped range does not cross the end of its half of the address space.
- System calls and interrupt handlers run with interrupts masked, so each is one step of `KernelRun`.
- A disk read is a total function from sector number to 512 bytes. Whether memory is available, and how many bytes
  `copy_to_user` accepts, are inputs or nondeterministic choices.
- The pointers that a read, a lookup or the loader follows lie on the volume (`Ext2File.FileOk`, `Ext2Dir.ScanOk`,
  `Loader.Loadable`), and the records of the directory blocks that are read lie in their block. Nothing is assumed of
  pointers that are not followed. The inode size divides the sector size. A file has at most 2^32 blocks.
- A caller of `kfree` passes a live block.

## Model

| member | source | states |
|---|---|---|
| MemoryMap.SortU64 | mm/early_pmm.c:29-41 | the first n values end up ascending and a permutation of what they were; the rest of the array is untouched |
| MemoryMap.Dedup | mm/early_pmm.c:61-65 | exactly the distinct values of the sorted input remain, strictly ascending |
| MemoryMap.Sanitize | mm/early_pmm.c:47-105 | the output is the clean form of the input: sorted, disjoint, maximal regions giving every address the highest-priority kind that covers it; it panics only when no clean form fits the output array; it writes behind the boundary buffer exactly when there are more than 128 regions |
| MemoryMap.CleanUnique | mm/early_pmm.c:47-105 | two clean maps giving every address the same kind are equal, so the clean form is canonical |
| MemoryMap.KindIs | mm/early_pmm.c:21-27 | where regions overlap, bad memory comes before non-volatile ACPI memory, that before the first reserved or reclaimable region, and that before usable memory |
| MemoryMap.UsableMeansAllUsable | mm/early_pmm.c:76-85 | an address is usable only if every region covering it is usable |
| MemoryMap.UsableRunInOneRegion | mm/early_pmm.c:87-102 | every run of usable addresses lies inside a single usable region of a clean map |
| Frames.PhysMem.EarlyInit | mm/early_pmm.c:146-163 | afterwards the frames on offer are exactly those at or above 1 MiB whose every byte is usable in the firmware map with the kernel image reserved; it panics only when the cleaned map does not fit, and runs out of bounds exactly from 128 firmware regions on |
| Frames.PhysMem.PaNext | mm/early_pmm.c:122-139 | moves to the first frame of the next region that is not skipped, and runs dry exactly when all later ones are skipped |
| Frames.PhysMem.EarlyAllocFrame | mm/early_pmm.c:165-176 | takes the lowest frame on offer and no other; NULL exactly when none is left |
| Frames.PhysMem.EarlyAllocContinuousFrames | mm/early_pmm.c:178-189 | takes the lowest run of that length, giving up everything below it; NULL exactly when the frames on offer hold no such run |
| Frames.PhysMem.GetMaxUsable | mm/early_pmm.c:107-115 | the largest end of a usable region, 0 if there is none |
| Frames.PhysMem.FillBitmap | mm/pmm.c:29-54 | from an all-taken bitmap, bit f is clear exactly when frame f is on offer, whatever the byte boundaries; no write leaves the bitmap and padding bits stay taken |
| Frames.PhysMem.PmmInit | mm/pmm.c:13-59 | the bitmap takes over exactly the early allocator's remaining frames, reaches every usable frame, and lies in a run it took from them; -ENOMEM only when they hold no run for it |
| Frames.UsableFrameIff | mm/pmm.c:29-38 | a frame lies wholly inside a usable cleaned region exactly when each of its bytes is usable in the raw map |
| Frames.UsableFrameAvoids | mm/early_pmm.c:146-163 | no usable frame touches the kernel image or a firmware region of another kind |
| Frames.RunInOneRegion | mm/early_pmm.c:178-189 | consecutive usable frames always lie in one cleaned region, so searching region by region misses no run |
| Frames.PhysMem.CurrentAllocFrame | mm/pmm.c:62-73 | before and after the handover alike the lowest free frame is taken; NULL exactly when there is none |
| Frames.PhysMem.PmmAllocContiguousFrames | mm/pmm.c:111-135 | the lowest free run is taken and nothing else; NULL exactly when there is no such run; panic exactly for count 0 |
| Frames.PhysMem.PmmFreeContiguousFrames | mm/pmm.c:137-146 | gives back exactly the named frames |
| Frames.PhysMem.PmmFreeFrame | mm/pmm.c:76-91 | gives back exactly that frame, and panics exactly when it was not taken |
| FrameBitmap.ClearRange | mm/pmm.c:40-53 | byte-wise clearing frees exactly the frames of the range, also when it starts and ends inside one byte or ends with the bitmap |
| FrameBitmap.AllocFrame | mm/pmm.c:62-73 | finds and takes the lowest clear bit |
| FrameBitmap.MarkTaken | mm/pmm.c:93-97 | takes exactly the frames of the run |
| FrameBitmap.CheckForContiguousFrames | mm/pmm.c:99-109 | finds a run exactly when there is one here; otherwise no run starts before the position it moves to |
| FrameBitmap.AllocContiguousFrames | mm/pmm.c:111-135 | although it jumps past full bytes and past the frame that stopped a probe, it returns the first free run |
| FrameBitmap.FreeFrame | mm/pmm.c:76-91 | the bit is cleared; a frame that is already free is refused |
| FrameBitmap.FreeContiguousFrames | mm/pmm.c:137-146 | exactly the run becomes free |
| Ownership.OneFrameIsTaken | mm/pmm.c:62-73 | the effect of a single-frame allocation is an ownership step |
| Ownership.EarlyRunIsTaken | mm/early_pmm.c:178-189 | the effect of an early contiguous allocation is to drop the frames below and take the run |
| Ownership.StepKeeps | mm/pmm.c:62-146 | no step gives a frame two owners or makes an owned frame free; steps of the bitmap lose no frame |
| Ownership.RunSafe | mm/pmm.c:62-146 | in every state of every run, across the handover, live allocations are disjoint from each other and from the free frames, and stem from the frames offered at the start |
| Ownership.RunConserves | mm/pmm.c:62-146 | once the bitmap is in charge, free plus held frames are one fixed set through any run |
| Ownership.HeldIsUsable | mm/early_pmm.c:146-176 | no frame held at any time touches the kernel image or a region of another kind |
| Ownership.BitmapIsSafe | mm/pmm.c:13-25 | over every run in which the bitmap's own run is not given back, none of its frames is ever free or part of another allocation |
| Allocators.Allocators.TakeFrame | mm/pmm.c:62-73 | a single frame from either allocator is an ownership step of the machine; NULL exactly without a free frame |
| Allocators.Allocators.TakeEarly | mm/early_pmm.c:178-189 | so is an early run, after what lies below has been given up |
| Allocators.Allocators.HandOver | mm/pmm.c:13-59 | so is the handover, with the bitmap's run as an allocation of its own |
| Allocators.Allocators.TakeRun | mm/pmm.c:111-135 | so is a run from the bitmap |
| Allocators.Allocators.Give | mm/pmm.c:76-146 | so is giving back any allocation that is held, early or not; it never panics and never leaves the bitmap |
| Allocators.Allocators.Serve | mm/pmm.c:13-146 | any request is a step, and is served when it can be |
| Allocators.Allocators.ServeAll | mm/pmm.c:13-146 | every sequence of requests, across the handover, is a run of ownership steps from the firmware's usable frames |
| Allocators.Allocators.HeldIsSafe | mm/early_pmm.c:146-176 | so at any time no frame has two holders or is both held and free, and none touches the kernel image or a region of another kind |
| Allocators.Allocators.BitmapAlone | mm/pmm.c:13-25 | and the frames of the bitmap are neither free nor in another allocation |
| Allocators.Boot | mm/early_pmm.c:146-163 | the machine starts from any firmware map that the sanitiser can take |
| EntryBits.PackUnpack | arch/x86_64/kernel/paging.c:98-109 | reading a packed entry gives back address, present, size and protection bits |
| EntryBits.Separated | arch/x86_64/include/asm/paging.h:9-30 | address bits and flag bits never mix |
| EntryBits.MaskIsRemainder | arch/x86_64/kernel/paging.c:15-17 | the mask test is divisibility, for each of the three chunk sizes |
| EntryBits.ShiftIsQuotient | arch/x86_64/include/asm/paging.h:25-28 | the index macros are quotient and remainder |
| EntryBits.AlignIsRemainder | arch/x86_64/include/asm/paging.h:22-23 | so are PAGE_ALIGN_DOWN and PAGE_ALIGN_UP |
| PageTable.PrefixIsBlock | arch/x86_64/include/asm/paging.h:25-28 | two addresses share their indices down to a level exactly when they lie in one block of that level's span |
| PageTable.TranslateLow | arch/x86_64/include/asm/paging.h:25-28 | only the low 48 bits of an address take part in its translation |
| PageTable.PathUnique | arch/x86_64/kernel/paging.c:47-89 | two walks that meet in one table below the top took the same indices, from top-level tables sharing that slot |
| PageTable.LookupAfterTable | arch/x86_64/kernel/paging.c:37-45 | hanging a zeroed table under an absent entry changes no translation of any table |
| PageTable.LookupAfterWrite | arch/x86_64/kernel/paging.c:91-110 | a walk sees a written leaf exactly when it goes through that entry |
| PageTable.TranslateAfterWrite | arch/x86_64/kernel/paging.c:91-110 | writing a leaf changes the translation of the block of its address and of nothing else |
| PageTable.OthersAfterWrite | arch/x86_64/kernel/paging.c:91-110 | other top-level tables that do not share the slot see no change |
| PageTable.RightsOfLeaf | arch/x86_64/kernel/paging.c:37-45 | as intermediate entries grant everything, the leaf alone decides the access rights of a walk |
| PageSplit.SplitIsPages | arch/x86_64/kernel/paging.c:112-138 | with chunks equal to the spans of their entries, the greedy 1 GiB / 2 MiB / 4 KiB split maps what a plain loop of 4 KiB pages maps |
| PageSplit.PagesCover | arch/x86_64/kernel/paging.c:112-138 | that plain loop maps each address of the range to its counterpart and no other |
| PageSplit.SplitInside | arch/x86_64/kernel/paging.c:112-138 | whatever the middle chunk, only addresses of the range are mapped, each to its counterpart |
| PageSplit.SplitAsWritten | arch/x86_64/include/asm/paging.h:18-20 | the exact set of addresses mapped with the middle chunk as the constant is written (8 MiB) |
| PageSplit.CompleteAsWritten | arch/x86_64/include/asm/paging.h:18-20 | as written, a range is mapped completely if and only if it holds no aligned 8 MiB block outside its 1 GiB chunks |
| PageSplit.AsWrittenLeavesGaps | arch/x86_64/include/asm/paging.h:19 | 16 MiB mapped at address 0 without 1 GiB pages leave the byte at 2 MiB unmapped |
| Mmu.AddressSpaces.AllocTable | arch/x86_64/kernel/paging.c:37-45 | a zeroed frame that was no table is linked; panics exactly when no frame is free |
| Mmu.AddressSpaces.NewRoot | mm/vmm.c:13-21 | a zeroed frame becomes a top-level table that translates and shares nothing, all others stay as they were; fails exactly without a free frame |
| Mmu.AddressSpaces.Walk | arch/x86_64/kernel/paging.c:47-89 | for any 64-bit address: returns the table of the wanted level on the path, growing the tables without changing any translation; hits a huge leaf exactly if a present huge entry lies above that level on the way, and fails for lack of frames only if none is left and a table was missing; where all tables were there nothing changes |
| Mmu.AddressSpaces.MapOne | arch/x86_64/kernel/paging.c:91-110 | maps the block of the address and changes no other translation; it panics over a huge page exactly if a present huge entry lies above the level on the way, over an entry exactly if that is present and must not be overwritten, and for lack of frames only if none is left and a table was missing; otherwise it succeeds; a panic changes no translation; other address spaces are untouched where the slot is not shared |
| Mmu.AddressSpaces.MapRange | arch/x86_64/kernel/paging.c:112-138 | panics on misalignment exactly; otherwise the new translation is the old one overlaid with the chunks, or, after a panic, with the chunks up to some address; with overwrite allowed it succeeds unless the frames run out where a table is missing or a huge entry that was there before lies on the way to a chunk; each panic has its cause in the tables before the call |
| Mmu.RangeEffect | arch/x86_64/kernel/paging.c:112-138 | after mmu_map_range nothing outside the range changed, and each vaddr+k translates to paddr+k with the requested flags (with the constant as written: except exactly the missed addresses) |
| Mmu.RangeEffectAt | arch/x86_64/kernel/paging.c:112-138 | the same for the 64-bit addresses of the range, in either half of the address space |
| Mmu.LowChunk | arch/x86_64/kernel/paging.c:120-131 | the upper 16 bits take no part in the choice of the chunk |
| Mmu.RangeIsPages | arch/x86_64/kernel/paging.c:112-138 | the resulting translation is that of the 4 KiB loop laid over the old one |
| Vmm.Spaces.AllocPage | mm/vmm.c:67-80 | the page is mapped to a frame that was free and no longer is, and nothing else changes; -ENOMEM exactly without a free frame, even for a misaligned address; with overwrite allowed it panics only for a misaligned address, without a frame for a missing table, or inside a huge page |
| Vmm.Spaces.AllocRange | mm/vmm.c:82-102 | page k is mapped to frame k, the frames are pairwise different and were free, nothing else changes; all pages unless memory runs out, and then those so far; panics only for a misaligned or occupied range or for lack of frames, and with overwrite allowed for a range that meets a huge page instead of an occupied one |
| Vmm.Spaces.CopyKernelTable | mm/vmm.c:108-114 | a new top-level table translates every address as the kernel table does, and owns the slots that are absent there; NULL exactly when no frame is free |
| Vmm.NewKernelTable | mm/vmm.c:13-21 | the kernel table can be had exactly when a frame is free |
| Vmm.Spaces.Ioremap | mm/vmm.c:44-55 | every byte of the device is seen at its place in the window onto physical memory, with the given flags (with the constant as written: except the missed ones), also if it was mapped before; panics only without a frame for a missing table, or if a huge entry that was there before lies on the way |
| Vmm.CopyIsCopy | mm/vmm.c:108-114 | copying 512 entries, although lower tables are shared, keeps all tables well-formed and gives such a copy |
| Vmm.RunIsolates | mm/vmm.c:82-114 | over every run of copying and of allocating in slots absent at copy time, the kernel table and every other copy keep all their translations |
| Heap.SizeToTier | mm/kmalloc.c:39-47 | the smallest tier that fits, -1 exactly for sizes over 1024 |
| Heap.Kheap.ThreadSlots | mm/kmalloc.c:61-69 | the loop chains all slots of a fresh page, and writes nothing outside the page or its header |
| Heap.Kheap.InitTier | mm/kmalloc.c:49-73 | a page that belonged to nobody becomes a pool of free slots |
| Heap.Kheap.KmallocSmall | mm/kmalloc.c:75-92 | the first free slot of the tier becomes the block; without one the lowest free frame becomes a page of slots and gives the first; NULL exactly when there is neither |
| Heap.Kheap.Kmalloc | mm/kmalloc.c:126-134 | up to 1024 bytes: a slot of the one tier that is large enough while every smaller tier is not, NULL exactly when that tier has no free slot and no frame is free; above: whole pages, no more than needed, NULL exactly when they or the slot for the node cannot be had; all other blocks stay, and NULL changes nothing; panics exactly when rounding the size up wraps to 0, within a page of 2^64 |
| Heap.Kheap.KmallocBig | mm/kmalloc.c:94-121 | the lowest run of as many free pages as the size needs becomes a block recorded in a list node; NULL exactly when there is no such run or no room left for the node, and then nothing has changed; panics exactly when rounding up wraps to 0 |
| Heap.SmallConserves | mm/kmalloc.c:48-92 | taking a slot loses no frame: what was free or held by the heap still is |
| Heap.BigConserves | mm/kmalloc.c:94-121 | nor does taking whole pages, with the node for them |
| Heap.FreeConserves | mm/kmalloc.c:145-164 | nor does giving them back |
| Heap.Kheap.Kfree | mm/kmalloc.c:167-184 | for every live block: it is freed and some layout still fits the heap's lists if and only if it is small or its first word lacks the magic; then a small block returns to its own tier's list and a big one to the frame allocator; otherwise exactly what is written where, or when the tier table is accessed out of bounds |
| Heap.Kheap.PushSlot | mm/kmalloc.c:181-183 | the push, with the tier read again after the first write, for slots and for misleading big blocks |
| Heap.Kheap.KfreeBig | mm/kmalloc.c:145-164 | the block's node leaves the list, exactly its pages become free, and its node becomes a free slot |
| Heap.Kheap.FindNode | mm/kmalloc.c:146-150 | finds the node of the block and the one before it |
| Heap.Kheap.Unlink | mm/kmalloc.c:156-160 | takes exactly that node off the big list |
| Heap.Kheap.ClientWrite | mm/kmalloc.c:75-121 | whatever aligned words a caller writes into a block it holds, all invariants of the heap survive |
| HeapLayout.SmallApart | mm/kmalloc.c:49-92 | a live small block overlaps no other live block or list node and no page header |
| HeapLayout.BigApart | mm/kmalloc.c:94-121 | a live big block overlaps no other big block and no pool page |
| Heap.KnownHeader | mm/kmalloc.c:167-184 | the word at the start of a small block's page always carries the magic and its tier |
| Heap.NoViewFits | mm/kmalloc.c:181-183 | no layout fits a free list that begins with the start of a page |
| Heap.WriteMagicAndFree | mm/kmalloc.c:94-184 | on any heap that can serve the request, writing the magic into one's own big block and freeing it leaves no sound heap |
| Heap.MagicRun | mm/kmalloc.c:94-184 | a run from an empty heap with seven frames that does so |
| List.InitListHead | include/list.h:23-26 | the node becomes an empty ring |
| List.ListAddTail | include/list.h:35-40 | the ring gains the node at its end |
| List.ListAdd | include/list.h:28-33 | the ring gains the node at its front |
| List.ListDel | include/list.h:42-45 | the ring loses exactly that node |
| List.ListEmpty | include/list.h:47-49 | true exactly when the ring is empty |
| List.RingUnique | include/list.h:23-49 | the pointers determine the contents of a ring |
| Sched.Scheduler.Enqueue | kernel/sched.c:32-40 | the task joins the end of the run queue |
| Sched.Scheduler.Dequeue | kernel/sched.c:42-44 | the task, and no other, leaves the run queue |
| Sched.Scheduler.SchedNext | kernel/sched.c:50-60 | the ring is rotated by one and the new head, or the idle task, is picked |
| Sched.Scheduler.ScheduleNow | kernel/sched.c:62-82 | a voluntarily sleeping task leaves the queue first; then the next one runs |
| Sched.Scheduler.WakeUpTask | kernel/sched.c:89-101 | a task that is not running is queued and marked running; others are left alone |
| Sched.Scheduler.Start | kernel/task.c:43-51 | a new task joins the end of the run queue, running |
| Sched.TurnAt | kernel/sched.c:50-60 | k ticks leave a queue of any length rotated by k |
| Sched.PickAt | kernel/sched.c:50-82 | the pick after k ticks is the task k+1 places on, cyclically |
| Sched.EachOnce | kernel/sched.c:50-82 | any n consecutive picks of a queue of n tasks choose each task exactly once |
| Wait.WaitQueue.PrepareToWait | kernel/wait.c:10-21 | the entry joins the end of the wait queue unless it is already on it, and its task gets the state |
| Wait.WaitQueue.FinishWait | kernel/wait.c:23-36 | the entry, and no other, leaves the wait queue and is self-linked, and its task runs |
| Wait.WaitQueue.Wakeup | kernel/wait.c:38-54 | walking the ring of the wait queue gives the specified wake-ups, with mode, key filter and exclusive budget |
| Wait.WakeQueueAll | include/wait.h:55-56 | wake_up wakes every plain waiter |
| Wait.WokenIff | kernel/wait.c:38-65 | unless exclusive waiters use up the count, exactly the tasks with an entry whose flags the mode asks for and whose filter, if any, is for the key run afterwards, besides those that did before |
| Wait.InOrder | kernel/wait.c:38-54 | waiters are served in the order in which they joined: whoever is called on before a task that was woken runs too |
| Wait.ExclusiveLimit | kernel/wait.c:38-54 | of the tasks that wait in exclusive entries only, no more go from sleeping to running than asked for, whatever else is queued |
| KernelRun.StepKeeps | kernel/sched.c:32-101 | any step of the system (tick, new task, key, read, write, resume) keeps all invariants if and only if it is not a read by the foreground task, with a line waiting, into a buffer that takes no byte |
| KernelRun.FaultIff | kernel/tty.c:184-222 | such a read, and no other, ends through the -EFAULT exit |
| KernelRun.RunInv | kernel/sched.c:32-120 | in every state of every such run: the run queue is duplicate-free and holds exactly the started non-idle running tasks; the current task is idle or its head; the wait queues hold exactly the tasks inside the calls; no wake-up is lost |
| KernelRun.TickByIndex | kernel/sched.c:50-82 | a tick moves the first task of the queue to the back, gives the CPU to the next one, and changes nothing else |
| KernelRun.TicksTurn | kernel/sched.c:50-120 | anywhere in a run, n ticks in a row leave the queue turned by n places and the CPU with the task n places on, or with the idle task if the queue is empty |
| KernelRun.EveryTaskRuns | kernel/sched.c:50-120 | anywhere in a run, as many ticks in a row as there are tasks on the queue give each of them the CPU exactly once |
| KernelRun.SleepByIndex | kernel/sched.c:62-82 | a task that goes to sleep leaves the front of the queue; the first of the others goes to the back and the next one runs |
| KernelRun.CallEnds | kernel/tty.c:153-283 | a read of nothing, a read in the foreground with a line waiting and a write in the foreground return at once, with the task waiting nowhere; any other read or write sleeps, at the back of the queues where it is woken up |
| KernelRun.KeyWakes | kernel/tty.c:90-121 | a newline makes every waiting reader run and no other task; any other key wakes nobody |
| KernelRun.QueueGrows | kernel/sched.c:32-40 | keys and new tasks only add to the back of the run queue, and leave the CPU where it is |
| KernelRun.BootInv | kernel/sched.c:32-60 | the state after boot satisfies the invariants |
| KernelRun.TickKeeps | kernel/sched.c:107-120 | a timer tick keeps the invariants |
| KernelRun.SpawnKeeps | kernel/task.c:43-51 | starting a kernel thread keeps them |
| KernelRun.KeyKeeps | kernel/tty.c:90-121 | a key, with the wake-ups it causes, keeps them |
| KernelRun.ReadKeeps | kernel/tty.c:153-233 | a read that sleeps or returns keeps them, wherever it stands in its loop |
| KernelRun.WriteKeeps | kernel/tty.c:255-305 | a write that sleeps for the foreground or returns keeps them |
| KernelRun.FaultBreaks | kernel/tty.c:153-233 | every -EFAULT exit breaks them: the task runs on marked as sleeping |
| KernelRun.FaultReachable | kernel/tty.c:184-222 | three events after boot such a read can be the next |
| KernelRun.FaultThenNewlineQueuesTwice | kernel/tty.c:153-233 | after that exit, the next newline puts the running task on the run queue a second time |
| KernelRun.UnmaskedWaitQueuesTwice | arch/x86_64/syscall.asm:44-48 | were interrupts not masked in system calls, a tick after prepare_to_wait in any state and a newline would queue the task twice |
| KernelRun.NewlineWakes | kernel/tty.c:118-120 | every newline puts a sleeping reader back on the run queue, exactly once |
| Machine.Machine.Tick | kernel/sched.c:107-120 | the rings in memory after a tick are those of the specified state |
| Machine.Machine.Key | kernel/tty.c:90-121 | likewise after a key, with the walk over the ring of waiting readers |
| Machine.Machine.Spawn | kernel/task.c:43-51 | likewise after starting a thread |
| Machine.Machine.Read | kernel/tty.c:153-233 | likewise after tty_read has slept, returned or faulted, with its two wait entries linked and unlinked |
| Machine.Machine.Write | kernel/tty.c:255-278 | likewise after the wait in __tty_write |
| Machine.Machine.Resume | kernel/tty.c:184-233 | likewise when a call goes on after its sleep |
| Machine.Machine.Step | kernel/sched.c:32-120 | for any event: run queue, wait queues and terminal in memory stay well-formed and represent the next state, which satisfies the invariants exactly when the event does not fault |
| Machine.Machine.Run | kernel/sched.c:32-120 | the memory follows every run state by state: in every reachable state the run queue is a well-formed circular list of exactly the tasks that the invariants name |
| Machine.WakesAll | kernel/wait.c:38-54 | the invariants imply what wake-ups require of the run queue, and wake_up wakes every waiting reader |
| Tty.PushContents | kernel/tty.c:83-121 | a character is appended unless 511 wait already; backspace takes back the last one |
| Tty.PushSync | kernel/tty.c:83-121 | the line counter stays equal to the number of waiting newlines if and only if no newline meets a full ring and no backspace takes back a newline |
| Tty.ErasedNewlineIsRead | kernel/tty.c:83-88 | after newline and backspace on an empty ring, one line is counted and the erased newline is read |
| Tty.DroppedNewlineIsCounted | kernel/tty.c:101-111 | a newline typed into a full ring is counted but lost |
| Tty.ChunkContents | kernel/tty.c:125-151 | a chunk is what is asked for up to the end of the first line, taken off the front; the counter stays right |
| Tty.ReadsOneLine | kernel/tty.c:153-233 | however the bounce buffer splits it, a read delivers exactly the first line or as much as asked for; the rest stays |
| Tty.ReadsPartOfLine | kernel/tty.c:184-226 | a buffer that takes only the first bytes of the line gets exactly these, or -EFAULT if it takes none; whole bounces up to and with the one in which the copying stops are taken out, so the rest of that bounce is lost |
| Tty.RunRefines | kernel/tty.c:83-233 | over every run without those two keystrokes the ring delivers the same bytes and holds the same characters as a bounded queue, and its counter counts the newlines |
| Tty.Device.PushChar | kernel/tty.c:90-121 | the array version, with wrap-around, does the same |
| Tty.Device.TakeChunk | kernel/tty.c:125-151 | so does the copying loop |
| Tty.Device.ReadAll | kernel/tty.c:153-233 | so does the loop of tty_read, up to sleeping, success or -EFAULT |
| Ext2.KernelPtrIff | fs/ext2/file.c:32-37 | for every block: the pointer the kernel follows is the file's if and only if it needs no indirect block, the indirect block exists or block 0 holds a zero there, or, beyond reach, the file has a hole |
| Ext2.ZeroRootIsFollowed | fs/ext2/ext2.c:24-46 | a file of 13 blocks, all holes, whose last block both readers take from a block it does not own |
| Ext2.BeyondIsZero | fs/ext2/file.c:30-60 | beyond the singly indirect blocks every file reads as zeros |
| Ext2.LoaderPtrIff | arch/x86_64/boot/loadkernel.c:164-230 | for every block: the boot loader follows the file's pointer if and only if the root it needs exists or block 0 leads to a zero in its place |
| Ext2.SliceJoin | fs/ext2/file.c:5-69 | consecutive slices of a file join to the slice of both, for each reader |
| Ext2File.InodeInfo.InitSingly | fs/ext2/ext2.c:24-46 | the cached indirect block is the one on the disk; fails exactly without memory for a block not yet cached |
| Ext2File.InodeInfo.Locate | fs/ext2/file.c:29-37 | the sector of a file block, 0 exactly for a hole or a block out of reach, without 32-bit overflow; a null pointer is used exactly when the indirect block is needed and could not be had |
| Ext2File.InodeInfo.ReadFile | fs/ext2/file.c:5-69 | a read returns the bytes of the file at the offset, clamped to its size, whatever blocks they straddle, and advances the offset by that count, to the smaller of its end and the end of the file; -ENOMEM exactly without a block buffer; a null pointer is used exactly when the read passes through an indirect block that is not cached and cannot be had; of 2^32 bytes or more it delivers too few |
| Ext2File.KernelReadsFile | fs/ext2/file.c:5-69 | within the direct and singly indirect blocks these are the bytes of the file itself |
| Ext2File.SmallFileOk | fs/ext2/file.c:28-37 | for a file of direct blocks nothing is assumed beyond its own pointers, whatever block 0 holds |
| Ext2File.ReadsCompose | fs/ext2/file.c:5-69 | two reads in a row deliver what one read of the combined length delivers |
| Loader.BootLoader.Malloc | arch/x86_64/boot/loadkernel.c:260-267 | a bump allocation, refused exactly when the heap is too small |
| Loader.BootLoader.Read | arch/x86_64/boot/loadkernel.c:37-49 | reading through the 4 KiB bounce buffer yields the sectors asked for |
| Loader.BootLoader.LoadData | arch/x86_64/boot/loadkernel.c:232-255 | blocks and holes land in order at the destination, cut at the limit; nothing else is written |
| Loader.BootLoader.LoadDoubly | arch/x86_64/boot/loadkernel.c:200-226 | the two nested loops load what direct indexing through two levels of pointers means, zero pointers being holes |
| Loader.BootLoader.LoadKernelBinary | arch/x86_64/boot/loadkernel.c:164-230 | on success every byte of the file in a block that three levels of pointers name is in memory; where these blocks are all there are and the roots the size asks for exist, memory holds the file; -1 exactly when the heap cannot hold its buffers; the heap is given back; at most the rest of a final block of zeros is written beyond |
| Loader.LoadedIsFile | arch/x86_64/boot/loadkernel.c:164-230 | where the roots it needs exist, what is in memory is the file |
| Loader.SmallLoadable | arch/x86_64/boot/loadkernel.c:164-181 | likewise for an image of direct blocks |
| Loader.LoaderAgreesWithKernel | fs/ext2/file.c:5-69 | on files without doubly indirect blocks, boot loader and kernel deliver the same bytes, whatever the pointers |
| Ext2Inode.SameAddress | fs/ext2/inode.c:22-35 | in 32-bit arithmetic, for an inode on the volume, kernel and boot loader compute the same absolute byte address, index times size behind the table |
| Ext2Inode.NoStraddle | fs/ext2/inode.c:27-58 | no inode straddles the block, or the sector, that is read for it |
| Ext2Inode.InodesApart | fs/ext2/inode.c:22-31 | different inode numbers of a group occupy disjoint bytes |
| Ext2Inode.NumberSplits | fs/ext2/inode.c:22-29 | inodes are numbered from 1 on, group by group, and the valid numbers are those of the groups there are |
| Ext2Inode.SameTable | arch/x86_64/boot/loadkernel.c:141-154 | both find the same inode table in the group descriptors |
| Ext2Inode.SameInodeBytes | arch/x86_64/boot/loadkernel.c:141-162 | for every valid inode number both read the same inode |
| Ext2Dir.SearchDirBlock | fs/ext2/dir.c:7-31 | finds the first live record of the name; NULL exactly when there is none and the block is clean; EUCLEAN exactly when a record of size 0 comes before any match |
| Ext2Dir.SearchJoin | fs/ext2/dir.c:34-86 | searching block after block is searching the records of all blocks as one list |
| Ext2Dir.FindEntry | fs/ext2/dir.c:34-86 | the loop of ext2_lookup gives the result of searching all records up to the first zero pointer; -ENOMEM only when memory is short |
| Ext2Dir.PartingIs | fs/ext2/dir.c:51-64 | the blocks scanned and the blocks that make up the directory part at its end, at a hole, or at the end of the reach; scanning goes on only past the end or into what block 0 holds in place of a missing indirect block |
| Ext2Dir.LookupIff | fs/ext2/dir.c:7-86 | scanning gives what the name means in the directory if and only if it has at most 255 bytes and is decided before the parting or not concerned by what only one side gets to; a longer name if and only if its truncation names nothing |
| Ext2Dir.LookupCases | fs/ext2/dir.c:7-103 | a lookup delivers the inode of the first record of the name; -ENOENT or, if a record of size 0 cut the walk short, -EUCLEAN without one; -EINVAL for a number beyond the last group |
| Ext2Dir.RegularAgrees | fs/ext2/dir.c:34-86 | a directory without holes, within reach, with a zero pointer behind it, is scanned exactly as it is |
| Ext2Dir.SmallScanOk | fs/ext2/dir.c:51-64 | for a directory with a zero direct pointer nothing is assumed beyond the blocks before it |
| Ext2Dir.ZeroRootIsSearched | fs/ext2/dir.c:54-62 | a full directory without an indirect block in which a name is found that is not in it |
| Ext2Dir.HoleEndsSearch | fs/ext2/dir.c:62-64 | a directory with a hole in which a name behind it is not found |
| Ext2Dir.LongNameIsCut | fs/ext2/dir.c:7-23 | a name of 257 equal bytes finds the entry named by one of them |
| Ext2Dir.ReadInode | fs/ext2/inode.c:18-97 | the inode on the disk (see `Ext2Layout.NodeIs`), EINVAL exactly for a group out of range, a panic exactly for a type that is neither directory nor file, -ENOMEM only when memory is short |
| Ext2Layout.InodeRoundTrip | include/fs/ext2.h:88-110 | an inode laid out field after field in little-endian order is read back: the twelve direct pointers, the singly and doubly indirect ones, the 64-bit size and the mode |
| Ext2Layout.InodeLaidOut | include/fs/ext2.h:88-110 | every 128 bytes are such a layout, so the round trip covers all of them |
| Ext2Layout.NodeIs | fs/ext2/inode.c:68-83 | the driver takes an inode for a directory exactly if its mode masked with 0xF000 is 0x4000 and for a file exactly if it is 0x8000, with the fields at their places |
| Ext2Layout.PointerBlock | fs/ext2/ext2.c:25-52 | pointer i of a block of little-endian pointers is the i-th one |
| Ext2Layout.TableIs | include/fs/ext2.h:78-86 | both readers find the inode table of a group in its descriptor |
| Ext2Layout.DirRoundTrip | fs/ext2/dir.c:7-33 | walking over directory records laid out one after the other finds exactly those in use, in order, with their numbers and names, up to the end or a record of size 0 |
| Vfs.Hash | fs/vfs.c:53-61 | the loop with 32-bit shifts computes the hash on signed characters |
| Vfs.HashIs | fs/vfs.c:53-61 | the hash is the value at 33 of the polynomial of the signed characters with leading coefficient 5381, cut to 32 bits |
| Vfs.FindChild | fs/vfs.c:103-113 | walks the sibling list: finds the cached child of that name, null exactly when there is none |
| Vfs.DAdd | fs/vfs.c:94-101 | the child becomes the first of its parent's list |
| Vfs.Cache.LookupOnDisk | fs/ext2/dir.c:34-103 | the child is linked with the inode its name means, or nothing is linked and the error is the right one |
| Vfs.Cache.LookupDirect | fs/vfs.c:103-127 | the child returned is a cached child of that name; an error other than ENOMEM is what the directory says; nothing is cached on failure |
| Vfs.Cache.VfsLookup | fs/vfs.c:130-160 | through any history of the cache, if the directories on the path can be scanned, the result is the inode or error of resolving the names of the path on the disk alone (ENOMEM only if memory is short); the cache stays sound and only grows |
| Vfs.ResolvesAsIntended | fs/vfs.c:130-160 | for names of at most 255 bytes that lead through regular directories, that is what the contents of the directories mean |
| Vfs.ResolveJoin | fs/vfs.c:129-160 | where the first names of a path lead, the others go on from; an error of theirs stays, and a name behind what is not a directory is -ENOTDIR |
| Vfs.ReachedUnique | fs/vfs.c:103-127 | a cache holds at most one dentry for a list of names |
| Vfs.ReachedKept | fs/vfs.c:94-127 | and keeps it: looking up a path again gives the same dentry |
| Vfs.SlashesDoNotMatter | fs/vfs.c:130-157 | leading, trailing and repeated slashes do not matter |
| Vfs.PathRoundTrip | fs/vfs.c:133-156 | every list of names is what some path means |
| Vfs.ComponentsJoin | fs/vfs.c:133-156 | a path may be cut at any slash |

## Left out

- Device drivers, interrupt and descriptor tables, ACPI, assembly and the linker layout: hardware set-up.
- The direct map loop and the mapping of the kernel image in `vmm_init`: calls of `mmu_map_range` whose effect `Mmu.RangeEffectAt` gives.
- TLB flushes: the model has one translation per table, not a cached one.
- `mm/mm.c` and the loading of user programs: no property is stated for them.
- The slot counter in the header of a heap page, which nothing reads, `kzalloc`, and the wrappers around single and multiple pages.
- The exit of tasks and the change of the foreground task, which the source has commented out: it is fixed during a run.
- Spin locks: there is one processor, and interrupts are masked while they are held.
- `vfs_open`, `vfs_read`, `vfs_seek`, `vfs_close` and the file descriptor table: guards around the operations modelled.
- The boot loader's directory search and its reading of the superblock.
- Probing and mounting: `Vfs.Cache` starts from a root inode that has been read.
- Ext2File.InodeInfo.ReadFile: a read error of the disk is not modelled.
- Ext2Dir.FindEntry: a read error of the disk is not modelled.
- Vfs.Cache.VfsLookup: a flag says whether every allocation succeeds; without it any may fail. Its memory is not tied to the model of the heap.
