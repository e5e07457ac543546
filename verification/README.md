# Verified models of the petix2 kernel cores

petix2 is a small Unix-like kernel for 32-bit x86, written in C. This project models its stateful
cores in Dafny and proves what they keep over whole runs. Each core has two layers. A value layer
gives every operation as a function on states, and lemmas state the properties: invariants of every
reachable state, isolation, conservation, round trips. Above it, classes with the fields, arrays,
linked records and loops of the C code are proved to compute those functions, statement by
statement.

| files | system |
|---|---|
| Frames | page frame allocator: bitmap and free stack |
| Paging, PagingOps, PagingFork, PagingFree, PagingRuns, PagingRoom, AddressSpaces | two-level page tables: demand filling, fork, remapping, teardown, and the frames each takes |
| Heap, HeapOps, HeapRuns, KernelHeap | kmalloc, krealloc, kfree over a doubly linked block list |
| Sync, SyncRuns, SyncEffects, SyncPrimitives | locks, counting semaphores, conditions |
| Pipe, PipeRuns, PipeSleep, PipeDelivery, PipeFree | the pipe ring, who gets which bytes, its sleeping readers and writers, and its freeing |
| ProcTable, Sched | process table, pids, round-robin scheduler |
| Descriptors, Syscalls, DescriptorTables, LastReference | descriptor tables, reference counts, close hooks |
| HashMap | open-addressing hash map with tombstones |
| Strtok, Mounts, MountPoints | path tokens and the mount tree |
| Ustar, TarFs, ArchiveTrees | ustar archives (the "ustar Interchange Format" of pax in POSIX.1-2017) as a file system, and archives written from a tree |
| Stdio | buffered streams of the C library |

Concurrency is modelled by steps: a region between taking and dropping the global lock is one step,
and so is one critical section of a pipe and each unlocked test around it. The descriptor model
(Descriptors, Syscalls) takes whole system calls as steps, since a process sees no other's table. What
preemption inside a close can do to shared state is modelled separately: LastReference splits the
decrement and the test of release_fd, and PipeFree splits the locked section and the test of pclose.
Integers are unbounded except where the C width matters:
bitmap words, pids and archive fields are treated in 32 bits. Pages, blocks, files and tree nodes
are named by numbers in place of pointers.

Some properties one might expect do not hold of the code. Each has a concrete run that shows it and a
result that says exactly when the property does hold:

| property | run | exact condition |
|---|---|---|
| pages stay inside the region | `Frames.TailRun` | `Frames.RegionKeptIffWholeWords` |
| krealloc keeps free blocks merged | `HeapRuns.GapRun` | `HeapRuns.ReallocCoalescedIff` |
| sleeping readers and writers of a pipe are woken | `PipeSleep.TwoReadersMiss`, `PipeSleep.TwoWritersMiss` | `PipeSleep.ReadersSafeIff`, `PipeSleep.WritersSafeIff` |
| a delete keeps a hash map sound | `HashMap.Map.DeleteAbsent` | `HashMap.DeleteSoundIff` |
| a pipe is freed once | `PipeFree.FreedTwice` | `PipeFree.FreedOnceIff` |
| a close hook runs once | `LastReference.HookTwice` | `LastReference.HookOnceIff` |
| a failing pipe call changes nothing | `Syscalls.PipeLosesSlot` | `Syscalls.PipeFailsCleanlyIff` |
| no pid is issued twice | `ProcTable.BusyRun`, `ProcTable.PidRepeats` | `ProcTable.NoPidTwiceIff` |
| a mount keeps the tree whole | `MountPoints.MountsAbove` | `MountPoints.MountEffect` |
| a directory listing is exact | `TarFs.OutOfOrderMisses`, `TarFs.SlashlessHides`, `TarFs.SlashlessAdds` | `TarFs.ListingExactIff` |

The number fwrite returns (`Stdio.Writer.Fwrite`) has an exact condition too.

Where names or comments in the code say something else, the model follows the code: fread and fwrite
return bytes and not members, and the scan at kernel/mem.c:72 tests an unsigned index against zero, so
it never reaches the panic after it.

## Model

| member | source | states |
|---|---|---|
| `Frames.WithBitFrame` | kernel/mem.c:53-61 | writing bit b of a word sets that bit to the given value and leaves every other bit |
| `Frames.FullIsAllBits` | kernel/mem.c:73 | the comparison with all ones holds exactly when every bit of the word is set |
| `Frames.FirstClear` | kernel/mem.c:75 | the count of trailing zeros of the complement is the lowest clear bit |
| `Frames.AllocTakesOneFreePage` | kernel/mem.c:63-84 | the page handed out is in range, non-zero and was not allocated; it alone becomes allocated; the stack keeps agreeing with the bitmap; there is none exactly when every page is taken |
| `Frames.FreeReleasesOnePage` | kernel/mem.c:86-99 | freeing an allocated page releases it alone, and stack entries stay distinct with clear bits, whether or not the stack is full |
| `Frames.AllocUsesOne` | kernel/mem.c:63-84 | a page is handed out exactly while one of the range is unused, and then exactly that page stops being unused |
| `Frames.FreeGivesBack` | kernel/mem.c:86-99 | a release makes exactly that page unused again, one more than before |
| `Frames.FreeThenAlloc` | kernel/mem.c:66-99 | while the stack has room, the page freed last is the next one handed out, and handing it out restores the stack and the allocated set |
| `Frames.InitIsFree` | kernel/mem.c:21-35 | after initialisation the allocator is consistent and nothing is allocated |
| `Frames.InitRoom` | kernel/mem.c:21-35 | at the start as many pages are unused as the bitmap has bits |
| `Frames.StepKeeps` | kernel/mem.c:63-99 | every allocation or release keeps the invariant and changes the allocated set by exactly its page |
| `Frames.RunIssuesFreshPages` | kernel/mem.c:63-99 | in every run from boot the bitmap is exactly the set of pages issued and not yet released, and no page is issued while it is outstanding |
| `Frames.TailRun` | kernel/mem.c:72-80 | a run that issues a page past the end of the region, for every region that does not fill its last word |
| `Frames.RegionKeptIffWholeWords` | kernel/mem.c:72-80 | all runs stay inside the region if and only if its page count is a multiple of the word size |
| `Frames.FrameAllocator.constructor` | kernel/mem.c:21-35 | a zeroed bitmap and an empty stack, as the initial state of the model |
| `Frames.FrameAllocator.SetBit` | kernel/mem.c:53-61 | the array after the store is the word sequence with that one bit written |
| `Frames.FrameAllocator.LastWordWithRoom` | kernel/mem.c:72-73 | the downward scan finds the highest word with a clear bit |
| `Frames.FrameAllocator.PopFrame` | kernel/mem.c:64-69 | pops the page the model allocates next; it was not allocated and is not zero, so both assertions hold |
| `Frames.FrameAllocator.TakeFromBitmap` | kernel/mem.c:72-83 | with an empty stack takes the page the model allocates next, or none from a full bitmap |
| `Frames.FrameAllocator.AllocPage` | kernel/mem.c:63-84 | the arrays after the call are the model state after one allocation |
| `Frames.FrameAllocator.FreePage` | kernel/mem.c:86-99 | the arrays after the call are the model state after the release; page 0 is ignored |
| `Paging.RowUpdate` | kernel/arch/i686/paging.c:56-185 | a change confined to one directory entry and the frames below it keeps the invariant, all other spaces and all other rows, if that row is sound afterwards |
| `Paging.PteUpdate` | kernel/arch/i686/paging.c:81-113 | the same for one page table entry |
| `Paging.OtherSpaces` | kernel/arch/i686/paging.c:56-228 | a change confined to the frames of one space leaves every other space sound and its memory view unchanged |
| `Paging.ReachesIffOwned` | kernel/arch/i686/paging.c:136-154 | walking the tables of a space reaches exactly the frames recorded as owned by it |
| `Paging.FootprintsDisjoint` | kernel/arch/i686/paging.c:56-228 | no frame serves two spaces or two slots of one space, and every frame in use is marked allocated |
| `PagingOps.GrabIsFresh` | kernel/arch/i686/paging.c:83-84 | a frame taken for a table, directory or page was neither owned nor allocated; nothing else changes |
| `PagingOps.DropOwned` | kernel/arch/i686/paging.c:146 | freeing an owned frame never trips the double-free assertion and releases it alone |
| `PagingOps.PageFaultIsInvisible` | kernel/arch/i686/paging.c:56-119 | a fault in the process region fails exactly on a protection or reserved-bit error, or for want of frames (when, says PagingRoom.FaultDoneIff); otherwise the page is present afterwards and no view of any space changes |
| `PagingOps.KernelFault` | kernel/arch/i686/paging.c:75-105 | in the kernel half the handler allocates nothing and panics exactly on an unmapped page |
| `PagingOps.LockPageOnly` | kernel/arch/i686/paging.c:191-201 | user access to the one page is removed; bytes, other pages and other spaces are unchanged |
| `PagingOps.StoreIsPrivate` | kernel/arch/i686/paging.c:107-113 | a store to a private page is seen at that byte of that space only |
| `PagingOps.PointAtShowsDevice` | kernel/arch/i686/paging.c:213-227 | the page shows the device frame with its old permissions, the replaced frame is released, nothing else changes |
| `PagingOps.RemapUserShowsDevice` | kernel/arch/i686/paging.c:203-228 | the call refuses the kernel half and the page above the user stack, and otherwise maps the device or runs out of frames; its assertions hold |
| `PagingFork.CreateShowsZeros` | kernel/arch/i686/paging.c:121-134 | a new space reads as zero, user-writable, throughout the process region and takes only free frames |
| `PagingFork.NewSpace` | kernel/arch/i686/paging.c:156-185 | a space built from frames nobody owned joins the machine without affecting any other |
| `PagingFork.CopyPagesAll` | kernel/arch/i686/paging.c:171-179 | the inner fork loop gives the child its own copy of every private page of one table |
| `PagingFork.CopyRowsAll` | kernel/arch/i686/paging.c:162-181 | the outer fork loop gives the child its own copy of every table |
| `PagingFork.ForkCopies` | kernel/arch/i686/paging.c:156-185 | the child sees the bytes, devices and permissions of the parent at every address of the process region; every existing view is unchanged; only free frames are used |
| `PagingFree.FreePagesAll` | kernel/arch/i686/paging.c:144-148 | the inner teardown loop releases exactly the remaining private pages of the table |
| `PagingFree.FreeRowsAll` | kernel/arch/i686/paging.c:141-152 | the outer teardown loop releases exactly the remaining tables and their pages |
| `PagingFree.FootprintIsOwned` | kernel/arch/i686/paging.c:136-154 | what teardown visits is exactly what the space owns |
| `PagingFree.FreeSpaceExact` | kernel/arch/i686/paging.c:136-154 | teardown never trips the double-free assertion, releases exactly the frames of the space, and leaves every other view unchanged |
| `PagingRuns.ExecSound` | kernel/arch/i686/paging.c:56-228 | each operation keeps the invariant, frames held outside paging, and the view of every space it does not act for; it panics only for an excused reason |
| `PagingRuns.RunSound` | kernel/arch/i686/paging.c:56-228 | the same over every run of create, fault, store, lock, remap, fork and free |
| `PagingRuns.RunIsolates` | kernel/arch/i686/paging.c:56-228 | a space no operation of the run acts for keeps its whole view |
| `PagingRuns.ForkThenApart` | kernel/arch/i686/paging.c:156-185 | after a fork, whatever everybody else does, the child keeps the view of the parent at the fork until it acts itself, and likewise the parent |
| `PagingRuns.BootRunSound` | kernel/arch/i686/paging.c:19-54 | from boot, in every run, the allocated frames are exactly the owned ones and no frame sits in two slots |
| `PagingRuns.KernelHalfIsIdentity` | kernel/arch/i686/paging.c:19-54 | in every run from boot the kernel half of every space maps each address to itself, writable, global and out of reach of user mode, except the page of the null pointer, which is not mapped |
| `PagingRuns.ProcessPagesNotGlobal` | kernel/arch/i686/paging.c:81-113 | in every run no page of the process region is marked global |
| `PagingRoom.GrabRoom` | kernel/arch/i686/paging.c:83-84 | taking a frame succeeds exactly while one is free, and leaves one less |
| `PagingRoom.FaultDoneIff` | kernel/arch/i686/paging.c:56-119 | a legal fault in the process region completes if and only if as many frames are free as it needs: two if the table is missing, one if only the page is, none otherwise; it leaves exactly that many less |
| `PagingRoom.CreateDoneIff` | kernel/arch/i686/paging.c:121-134 | creating a space succeeds if and only if one frame is free, and takes one |
| `PagingRoom.CopyPagesRoom` | kernel/arch/i686/paging.c:171-179 | the inner fork loop completes if and only if a frame is free for each private page that is left of the table |
| `PagingRoom.CopyRowsRoom` | kernel/arch/i686/paging.c:162-181 | the outer fork loop completes if and only if a frame is free for each table and private page that is left of the parent |
| `PagingRoom.ForkDoneIff` | kernel/arch/i686/paging.c:156-185 | fork succeeds if and only if as many frames are free as the tables of the parent reach, and takes exactly so many |
| `PagingRoom.FreeSpaceRoom` | kernel/arch/i686/paging.c:136-154 | teardown gives back as many frames as the tables of the space reached |
| `PagingRoom.RemapDoneIff` | kernel/arch/i686/paging.c:203-228 | a remap of a user page succeeds if and only if a fault on the page would, and gives the private frame back |
| `PagingRoom.LockDoneIff` | kernel/arch/i686/paging.c:191-201 | the assertion of lock_page holds exactly when table and page are there |
| `PagingRoom.StoreDoneIff` | kernel/arch/i686/paging.c:107-113 | a store goes through exactly on a private page that is there and writable |
| `PagingRoom.ExecDoneIff` | kernel/arch/i686/paging.c:56-228 | each operation completes if and only if it is legal and as many frames are free as it needs, and changes the number of free frames by what it takes and gives back |
| `PagingRoom.RunStopsIffShort` | kernel/arch/i686/paging.c:56-228 | in every run the next operation stops the kernel for want of frames if and only if it is legal and needs more than are free |
| `PagingRoom.BootRoom` | kernel/mem.c:21-35 | at boot at least every frame of the region is free |
| `AddressSpaces.AddressSpaceManager.constructor` | kernel/arch/i686/paging.c:19-54 | no address spaces, nothing owned |
| `AddressSpaces.AddressSpaceManager.GrabFrame` | kernel/arch/i686/paging.c:83-84 | agrees with taking a fresh frame in the model, on top of the bitmap arrays |
| `AddressSpaces.AddressSpaceManager.DropFrame` | kernel/arch/i686/paging.c:146 | agrees with dropping an owned frame in the model |
| `AddressSpaces.AddressSpaceManager.FillTable` | kernel/arch/i686/paging.c:84-90 | the loop builds the table of demand-filled entries with the permissions of the directory entry |
| `AddressSpaces.AddressSpaceManager.InstallTable` | kernel/arch/i686/paging.c:81-93 | agrees with making a missing table present |
| `AddressSpaces.AddressSpaceManager.InstallPage` | kernel/arch/i686/paging.c:99-113 | agrees with making a missing page present |
| `AddressSpaces.AddressSpaceManager.HandleFault` | kernel/arch/i686/paging.c:56-119 | the handler, step by step, agrees with the model of a page fault, panics included |
| `AddressSpaces.AddressSpaceManager.CreateSpace` | kernel/arch/i686/paging.c:121-134 | the copy and the loop over the process half agree with the model of creation |
| `AddressSpaces.AddressSpaceManager.CopyOnePage` | kernel/arch/i686/paging.c:172-178 | one round of the inner fork loop |
| `AddressSpaces.AddressSpaceManager.CopyTablePages` | kernel/arch/i686/paging.c:171-179 | the inner fork loop agrees with the model |
| `AddressSpaces.AddressSpaceManager.CopyOneRow` | kernel/arch/i686/paging.c:163-180 | one round of the outer fork loop |
| `AddressSpaces.AddressSpaceManager.CopyAllRows` | kernel/arch/i686/paging.c:162-181 | the outer fork loop agrees with the model |
| `AddressSpaces.AddressSpaceManager.ForkSpace` | kernel/arch/i686/paging.c:156-185 | the nested loops agree with the model of fork |
| `AddressSpaces.AddressSpaceManager.FreeTablePages` | kernel/arch/i686/paging.c:144-148 | the inner teardown loop agrees with the model |
| `AddressSpaces.AddressSpaceManager.FreeOneRow` | kernel/arch/i686/paging.c:142-151 | one round of the outer teardown loop |
| `AddressSpaces.AddressSpaceManager.FreeAll` | kernel/arch/i686/paging.c:136-154 | the nested loops agree with the model of teardown; NULL is ignored |
| `AddressSpaces.AddressSpaceManager.Lock` | kernel/arch/i686/paging.c:191-201 | agrees with the model of page locking, failed assertions included |
| `AddressSpaces.AddressSpaceManager.Walk` | kernel/arch/i686/paging.c:210 | the page is present exactly when directory and table entry say so |
| `AddressSpaces.AddressSpaceManager.Redirect` | kernel/arch/i686/paging.c:213-227 | agrees with the model of redirecting a present page |
| `AddressSpaces.AddressSpaceManager.Remap` | kernel/arch/i686/paging.c:203-228 | agrees with the model of the whole remap, including the forced fault |
| `Heap.SpliceTiled` | kernel/kmalloc.c:62-121 | replacing blocks by others that span the same bytes keeps the tiling: address order, aligned headers, gaps under 8 bytes, last block ending at the break |
| `Heap.PushInv` | kernel/kmalloc.c:28-54 | a pushed block starts past every old one and keeps the tiling and all live bytes |
| `Heap.ShrinkInv` | kernel/kmalloc.c:62-85 | a split keeps the tiling and every live byte that remains in a block |
| `Heap.MergeInv` | kernel/kmalloc.c:109-121 | a merge keeps the tiling and every live byte |
| `HeapOps.MallocFresh` | kernel/kmalloc.c:131-148 | the region is aligned, at least as large as asked, was not live and overlaps no live region; live bytes are kept; the break moves exactly when no free block fits |
| `HeapOps.MallocTight` | kernel/kmalloc.c:62-102 | the block handed out is less than 128 bytes larger than asked; if no free block fits it is exactly as large, starts at the break rounded up to 8, and ends at the new break |
| `HeapOps.LiveDisjoint` | kernel/kmalloc.c:28-200 | different blocks never overlap, headers included |
| `HeapOps.FreeExact` | kernel/kmalloc.c:180-200 | exactly the freed region stops being live and no byte of another region changes |
| `HeapOps.ReallocKeepsBytes` | kernel/kmalloc.c:150-178 | on each of the four paths the first min(old, new) bytes are kept, other live regions are untouched, and NULL is returned only for size zero |
| `HeapOps.ReallocNullAllocates` | kernel/kmalloc.c:153-155 | krealloc of NULL gives a fresh region as kmalloc does, the break moving exactly when no free block fits; for size zero it gives NULL and changes nothing |
| `HeapOps.ReallocInPlaceIff` | kernel/kmalloc.c:161-178 | the pointer is kept if and only if the region shrinks, is the last block, or the next block is free and the two are large enough; in place it takes no more than it must, and otherwise the new region was not live |
| `HeapRuns.ExecSound` | kernel/kmalloc.c:131-200 | each call keeps the tiling and every live region it does not act on |
| `HeapRuns.RunTiled` | kernel/kmalloc.c:131-200 | after every sequence of kmalloc, krealloc, kfree and stores the blocks tile the heap up to the break |
| `HeapRuns.RunKeepsRegion` | kernel/kmalloc.c:131-200 | a region nobody acts on keeps its block and bytes through any run |
| `HeapRuns.ReallocCoalescedIff` | kernel/kmalloc.c:150-178 | krealloc keeps the absence of free neighbours if and only if it does not cut a block in front of a free one |
| `HeapRuns.GapRun` | kernel/kmalloc.c:161-163 | five calls after which two neighbouring blocks are both free |
| `HeapRuns.RunCoalesced` | kernel/kmalloc.c:131-200 | no two neighbours are free after any run in which no krealloc makes such a cut |
| `KernelHeap.LinkPush` | kernel/kmalloc.c:41-51 | appending a header keeps the doubly linked list in step with the block sequence |
| `KernelHeap.LinkSplit` | kernel/kmalloc.c:67-81 | relinking around a split keeps it in step |
| `KernelHeap.LinkMerge` | kernel/kmalloc.c:111-120 | unlinking the merged header keeps it in step |
| `KernelHeap.LinkUpdate` | kernel/kmalloc.c:96 | rewriting length or flag leaves the links in step |
| `KernelHeap.KmallocHeap.constructor` | kernel/kmalloc.c:19 | the empty list at the initial break |
| `KernelHeap.KmallocHeap.PushBlock` | kernel/kmalloc.c:28-54 | the link updates refine pushing a block |
| `KernelHeap.KmallocHeap.ShrinkBlock` | kernel/kmalloc.c:62-85 | the link updates refine splitting a block |
| `KernelHeap.KmallocHeap.MergeWithNext` | kernel/kmalloc.c:109-121 | the link updates refine merging two blocks |
| `KernelHeap.KmallocHeap.FindFreeBlock` | kernel/kmalloc.c:91-102 | the walk along the prev links finds the last free block that is large enough, or none |
| `KernelHeap.KmallocHeap.SetUsedFlag` | kernel/kmalloc.c:96 | one flag changes, the list stays linked |
| `KernelHeap.KmallocHeap.Kmalloc` | kernel/kmalloc.c:131-148 | refines the model of allocation |
| `KernelHeap.KmallocHeap.Kfree` | kernel/kmalloc.c:180-200 | refines the model of release, both merges included |
| `KernelHeap.KmallocHeap.GrowLast` | kernel/kmalloc.c:164-167 | refines growth of the last block at the break |
| `KernelHeap.KmallocHeap.MoveRegion` | kernel/kmalloc.c:172-177 | refines allocate, copy and free |
| `KernelHeap.KmallocHeap.Krealloc` | kernel/kmalloc.c:150-178 | refines the model of reallocation on all paths, NULL included |
| `Sync.AcquireKeeps` | kernel/sync.c:35-68 | taking, nesting or queueing for a lock keeps the invariant on locks, wait lists and process states |
| `Sync.ReleaseKeeps` | kernel/sync.c:70-97 | a release keeps it, and a lock that becomes free has woken and delisted every waiter |
| `Sync.SignalKeeps` | kernel/sync.c:99-128 | a signal keeps it and never trips its assertion |
| `Sync.WaitKeeps` | kernel/sync.c:130-159 | a wait keeps it and never trips its assertion |
| `Sync.SwitchKeeps` | kernel/proc.c:169-216 | a context switch keeps it |
| `SyncRuns.ExecSafe` | kernel/sync.c:35-159 | a call panics exactly when a lock is released by somebody who does not hold it |
| `SyncRuns.RunInv` | kernel/sync.c:35-159 | the invariant holds in every state of every run |
| `SyncRuns.NobodyWaitsInVain` | kernel/sync.c:35-159 | in every reachable state a blocked process is listed for one thing only, and that is a lock another process holds or an amount above the count |
| `SyncRuns.DepthIsHeld` | kernel/sync.c:35-97 | the recorded nesting depth is acquires minus releases of that process, so the lock becomes free after exactly as many releases as acquires |
| `SyncRuns.MutualExclusion` | kernel/sync.c:35-97 | two processes never hold one lock |
| `SyncRuns.CountIsBalance` | kernel/sync.c:99-159 | with non-zero signals the count is the initial count plus everything signalled minus everything acquired |
| `SyncRuns.ConditionsAreBinary` | kernel/sync.c:161-167 | a semaphore signalled through cond_wake only stays at 0 or 1, and is 1 exactly when a wake-up came after the last waiter that got through |
| `SyncEffects.ReleaseStates` | kernel/sync.c:70-97 | a release that gives the lock up makes ready exactly the processes blocked for it; every other process keeps its state |
| `SyncEffects.SignalStates` | kernel/sync.c:99-128 | a signal makes ready exactly the processes blocked for at most the new count; every other process keeps its state |
| `SyncEffects.StepStates` | kernel/sync.c:35-159 | each call or switch: the blocked processes that waited for it become ready, a caller that cannot be served blocks, a running process that is switched away from becomes ready, and nobody else changes state |
| `SyncEffects.StepTasks` | kernel/sync.c:35-159 | an acquire or wait returns exactly when the lock is free or held by the caller, or the count suffices; no other process is affected in its own call, and only a switch changes the current one |
| `SyncEffects.RunWakesExactly` | kernel/sync.c:35-159 | in every run a blocked process stops being blocked exactly at the event it waits for, and is ready then |
| `SyncEffects.WakeReadiesAll` | kernel/sync.c:161-163 | cond_wake leaves the count at one and every process waiting on the condition ready |
| `SyncPrimitives.KernelSync.AcquireLock` | kernel/sync.c:35-68 | the field updates refine the acquire step |
| `SyncPrimitives.KernelSync.ReleaseLock` | kernel/sync.c:70-97 | the field updates and the wakeup loop refine the release step, and it panics exactly when the caller does not hold the lock |
| `SyncPrimitives.KernelSync.ReadyWaiters` | kernel/sync.c:84-89 | the loop makes exactly the listed processes ready and leaves the others as they were |
| `SyncPrimitives.KernelSync.SemSignal` | kernel/sync.c:99-128 | refines the signal step |
| `SyncPrimitives.KernelSync.WakeWaiters` | kernel/sync.c:107-125 | each listed process is ready afterwards if it now has enough and blocked if not; the others are relisted in the order of the source |
| `SyncPrimitives.KernelSync.SemTryWait` | kernel/sync.c:130-159 | one round of the loop refines the wait step |
| `Pipe.RingSize` | kernel/pipe.c:26-37 | the ring holds at most 4095 bytes; equal indices mean empty; the next index meeting the other means full |
| `Pipe.RingTake` | kernel/pipe.c:26-31 | advancing lo removes the first byte |
| `Pipe.RingPut` | kernel/pipe.c:70-75 | a store at hi and advancing it append one byte |
| `Pipe.PipeRing.constructor` | kernel/pipe.c:119-143 | an empty ring with both ends open |
| `Pipe.PipeRing.Take` | kernel/pipe.c:26-31 | the loop takes the first min(count, size) bytes in order |
| `Pipe.PipeRing.Put` | kernel/pipe.c:70-75 | the loop appends as many bytes as fit, in order |
| `PipeRuns.ExecInv` | kernel/pipe.c:12-116 | every critical section, wait, wakeup and close of any process keeps the byte accounting |
| `PipeSleep.RunInv` | kernel/pipe.c:12-116 | the accounting holds in every state of every run |
| `PipeSleep.NothingLostOrReordered` | kernel/pipe.c:24-88 | for any number of readers and writers, bytes taken followed by bytes in the ring are the bytes put, in order; a read is short only when the write end is closed and all is taken; a write is short only when the read end is closed; whose bytes these are, say the results of PipeDelivery |
| `PipeDelivery.ReadersGetTheirSections` | kernel/pipe.c:23-50 | in every run, what a call of pread holds or has returned is what its own sections took out of the ring, in order, and what it still wants is the rest of what it asked for |
| `PipeDelivery.WritersGiveTheirBytes` | kernel/pipe.c:63-88 | in every run, what a call of pwrite has put in by its own sections, followed by what it still holds, is what it was called with, and the number it returns is the length of the part put in |
| `PipeDelivery.SectionsInterleave` | kernel/pipe.c:24-88 | in every run the bytes taken are the read sections one after the other, the bytes put are the write sections, and the former followed by the ring are the latter |
| `PipeDelivery.CallsEndIff` | kernel/pipe.c:37-68 | a read section ends its call if and only if it has all that was asked for, or the pipe is empty with its write end closed; a write section if and only if all is given; a test of the read end if and only if that end is closed |
| `PipeDelivery.ReadRound` | kernel/pipe.c:25-42 | one round of pread on the ring in memory is one read section of a run: same bytes, same wake-up, same ending |
| `PipeDelivery.WriteRound` | kernel/pipe.c:69-81 | one round of pwrite on the ring in memory is one write section of a run |
| `PipeSleep.OneReaderSleepsRightly` | kernel/pipe.c:24-47 | with one reader, it sleeps only while the pipe is empty with its write end open |
| `PipeSleep.OneWriterSleepsRightly` | kernel/pipe.c:64-86 | with one writer, it sleeps only while the pipe is full with its read end open |
| `PipeSleep.NeverBothAsleep` | kernel/pipe.c:24-116 | one reader and one writer never sleep at once, and a closed end leaves nobody asleep |
| `PipeSleep.TwoReadersMiss` | kernel/pipe.c:44-46 | nine steps after which a second reader sleeps although a byte is there |
| `PipeSleep.ReadersSafeIff` | kernel/pipe.c:24-47 | readers sleep rightly in every run if and only if there is at most one |
| `PipeSleep.TwoWritersMiss` | kernel/pipe.c:83-85 | ten steps after which a second writer sleeps although there is room |
| `PipeSleep.WritersSafeIff` | kernel/pipe.c:64-86 | writers sleep rightly in every run if and only if there is at most one |
| `PipeFree.StepEnds` | kernel/pipe.c:91-116 | a closer marks its end in the locked section and frees the pipe in a later, unlocked step if both ends are marked; no other step touches either |
| `PipeFree.OpenIsNotFreed` | kernel/pipe.c:110-113 | while an end is open the pipe is not freed |
| `PipeFree.TestsFree` | kernel/pipe.c:110-113 | from the second closer section on, every test frees the pipe |
| `PipeFree.FreedOnceIff` | kernel/pipe.c:109-113 | in every interleaving, when both closers have finished the pipe has been freed once or twice: once if and only if the test of the first came before the locked section of the second |
| `PipeFree.TestedIff` | kernel/pipe.c:110-113 | a closer has made its test exactly when that step is in the run so far |
| `PipeFree.FreedTwice` | kernel/pipe.c:109-113 | four steps in which both closers free the pipe |
| `ProcTable.MakePidWraps` | kernel/proc.c:15 | the shift and or in 32 bits give the generation modulo 2^22 above the slot number |
| `ProcTable.PidParts` | kernel/proc.c:13-15 | slot and generation can be read back from the pid, the sign included |
| `ProcTable.NextPid` | kernel/proc.c:90 | adding one to the stored generation gives the next pid of the slot, across the wrap too |
| `ProcTable.PidsDiffer` | kernel/proc.c:13-15 | two pids are equal exactly when slot and generation modulo 2^22 are |
| `ProcTable.AllocFindsFree` | kernel/proc.c:73-96 | the cyclic scan finds a slot exactly when one is free |
| `ProcTable.FindsNearest` | kernel/proc.c:78-85 | the slot found is the nearest free one, going round from where the search starts |
| `ProcTable.SlotsGoRound` | kernel/proc.c:78-85 | after an allocation the next one takes the nearest free slot ahead of it |
| `ProcTable.RunPids` | kernel/proc.c:73-106 | in every run the pid in a slot is determined by the number of its allocations |
| `ProcTable.NoPidTwice` | kernel/proc.c:73-96 | with at most 2^22 allocations per slot no pid is issued twice |
| `ProcTable.PidRepeats` | kernel/proc.c:90 | in every run with more than 2^22 allocations of a slot some pid is issued twice |
| `ProcTable.NoPidTwiceIff` | kernel/proc.c:73-96 | in every run no pid is issued twice if and only if no slot is allocated more than 2^22 times |
| `ProcTable.BusyRun` | kernel/proc.c:73-106 | runs that allocate and release slot 0 any number of times, more than 2^22 included |
| `ProcTable.ReleasedPidStaysDead` | kernel/proc.c:63-71 | get_pcb of a released pid never resolves to a later process |
| `ProcTable.LivePidResolves` | kernel/proc.c:63-96 | until its slot is released get_pcb resolves an issued pid to that slot; right after the allocation the process is in the created state |
| `ProcTable.OthersStay` | kernel/proc.c:73-106 | an allocation, release or change of state concerns one slot, and an allocation takes a free one |
| `ProcTable.ResolvesIff` | kernel/proc.c:63-71 | get_pcb of a released pid finds a process exactly while its slot is in use a multiple of 2^22 allocations later |
| `ProcTable.EarlyPidsPositive` | kernel/proc.c:90 | the first 2^21 - 1 pids of a slot are positive |
| `ProcTable.ProcessTable.constructor` | kernel/proc.c:17-18 | the zeroed table |
| `ProcTable.ProcessTable.AllocProc` | kernel/proc.c:73-96 | the loop takes the next free slot at or after pt_free, or none |
| `ProcTable.ProcessTable.ReleaseProc` | kernel/proc.c:98-106 | frees the slot and keeps its pid |
| `Sched.ScanNearest` | kernel/proc.c:182-204 | the scan picks the ready slot nearest ahead; without one it halts exactly when some process is blocked |
| `Sched.PassSwitches` | kernel/proc.c:177-207 | told by the states before: some process is chosen exactly when one is ready or the current one is still running; it is the nearest ahead; a running process that loses the processor becomes ready, one that is not running keeps its state, and nobody else changes |
| `Sched.RunningIsKept` | kernel/proc.c:177-207 | if the current process is running, somebody is always chosen, and it runs on or is ready |
| `Sched.SkippedIsCloser` | kernel/proc.c:169-216 | each decision that passes over a ready process brings the current slot closer to it |
| `Sched.ChosenWithinOneRound` | kernel/proc.c:169-216 | a process that is ready, or current and running, at each decision is chosen within PTABLE_SIZE decisions, whatever the others do |
| `Sched.PreemptedRunsAgain` | kernel/proc.c:169-216 | a process that is only ever preempted is chosen again in every stretch of PTABLE_SIZE decisions |
| `Sched.OnlyCurrentRuns` | kernel/proc.c:178-207 | after a decision exactly the chosen process is running and no uninvolved state has changed |
| `Sched.Scheduler.constructor` | kernel/proc.c:17-20 | every slot of the table is unused |
| `Sched.Scheduler.Pass` | kernel/proc.c:177-213 | the loop refines one scheduling decision, and promises on the states before and after what Sched.PassSwitches states |
| `Descriptors.NewFileInv` | kernel/proc.c:108-119 | a new file in a free slot keeps counts, hook history and pipe ends exact |
| `Descriptors.ShareInv` | kernel/proc.c:138-140 | one more slot for a file, counted, keeps them exact |
| `Descriptors.ReleaseInv` | kernel/proc.c:121-136 | a release trips no assertion, empties exactly its slot and keeps them exact |
| `Descriptors.HookEffect` | kernel/pipe.c:91-109 | the hook of a file runs once; on a pipe end it marks that end closed |
| `Syscalls.CloseInv` | kernel/syscall.c:117-126 | close of an open descriptor answers 0 and empties exactly its slot; any other number answers EBADF and changes nothing |
| `Syscalls.Dup2Inv` | kernel/syscall.c:128-149 | the answer is the target, both descriptors name the same file afterwards, the old file at the target is released, no other slot changes; a bad descriptor answers EBADF, and neither that nor equal descriptors change anything |
| `Syscalls.OpenInv` | kernel/syscall.c:99-115 | open keeps counts, hooks and pipe ends exact, on success and on either error path |
| `Syscalls.OpenNames` | kernel/syscall.c:99-115 | a successful open returns the lowest free slot, which names the new file, with its close-on-exec flag and the hook it was given; a failing one leaves every table as it was |
| `Syscalls.PipeInv` | kernel/syscall.c:234-257 | pipe keeps counts, hooks and pipe ends exact on all three paths |
| `Syscalls.PipeNames` | kernel/syscall.c:234-257 | a successful pipe puts the read end in the lowest free slot and the write end in the next one, and changes no other slot |
| `Syscalls.PipeLosesSlot` | kernel/syscall.c:237-245 | with exactly one free slot the call fails and that slot is taken by a file without operations |
| `Syscalls.PipeFailsCleanlyIff` | kernel/syscall.c:237-245 | a failing pipe call leaves the table as it was if and only if no slot was free |
| `Syscalls.CloseFromInv` | kernel/syscall.c:385-389 | the closing loops empty exactly the slots they should |
| `Syscalls.ExecInv` | kernel/syscall.c:385-389 | exec closes exactly the descriptors marked close-on-exec, of this process only |
| `Syscalls.ExitInv` | kernel/syscall.c:514-524 | exit drops every reference of the process and touches no other table |
| `Syscalls.CopyFromInv` | kernel/syscall.c:360-366 | the counting loop of fork keeps counts exact at every step |
| `Syscalls.ForkInv` | kernel/syscall.c:349-377 | the answer is the child, which has exactly the descriptors of the parent, flags included |
| `Syscalls.DoInv` | kernel/syscall.c:99-524 | each modelled call keeps the invariant and trips no assertion |
| `Syscalls.KindsAreFixed` | kernel/syscall.c:99-524 | no call changes what an existing file is, and so whether its last close runs a hook |
| `Syscalls.RunInv` | kernel/syscall.c:99-524 | the invariant holds in every state of every run |
| `Syscalls.CountsAreReferences` | kernel/proc.c:108-140 | in every run the count of a file is the number of slots in all processes that name it, and a file exists exactly while some slot does |
| `Syscalls.HookRunsOnce` | kernel/proc.c:128-133 | with system calls as steps, the close hook has run exactly once when the last reference is gone and never before |
| `Syscalls.EndsOpenWhileHeld` | kernel/pipe.c:91-109 | each end of a pipe is open exactly while some process holds it, and its closing section has run once when nobody does and never before |
| `LastReference.RunInv` | kernel/proc.c:121-136 | with preemption inside release_fd the count is still the number of slots that name the file, and the hook does not run while there is one |
| `LastReference.HookOnceIff` | kernel/proc.c:126-133 | in every run with preemption between decrement and test, the hook runs once if and only if no other release is between the two when the last reference is dropped; otherwise it runs once more for each that is |
| `LastReference.UnsplitHookOnce` | kernel/proc.c:126-133 | without such preemption it runs once in every run |
| `LastReference.HookTwice` | kernel/proc.c:126-133 | a run of two releases in which it runs twice |
| `DescriptorTables.FileTables.constructor` | kernel/proc.c:27-57 | one process with an empty table |
| `DescriptorTables.FileTables.AllocateFd` | kernel/proc.c:108-119 | the loop takes the first free slot or fails without a change |
| `DescriptorTables.FileTables.Hook` | kernel/pipe.c:91-109 | refines the close hook, for a pipe end its locked section |
| `DescriptorTables.FileTables.Release` | kernel/proc.c:121-136 | refines the release of a descriptor |
| `DescriptorTables.FileTables.Close` | kernel/syscall.c:117-126 | refines close, errors included |
| `DescriptorTables.FileTables.ShareSlot` | kernel/syscall.c:146-147 | refines one more slot for a file |
| `DescriptorTables.FileTables.Dup2` | kernel/syscall.c:128-149 | refines dup2, errors included |
| `DescriptorTables.FileTables.CloseAll` | kernel/syscall.c:385-389 | the loops of exec and exit refine the model |
| `DescriptorTables.FileTables.ForkTable` | kernel/syscall.c:360-366 | the copy and the counting loop refine the model of fork |
| `HashMap.MustGrowIff` | kernel/container/hashmap.c:85-88 | the floating-point load test means four fifths of the buckets taken, or no buckets |
| `HashMap.TakenBound` | kernel/container/hashmap.c:36-53 | not every bucket taken means an empty one exists |
| `HashMap.AbsentAtEmpty` | kernel/container/hashmap.c:36-53 | a probe that reaches an empty bucket proves the key absent |
| `HashMap.InsertRepresents` | kernel/container/hashmap.c:55-63 | writing a key where its probe ends updates exactly that key |
| `HashMap.DeleteRepresents` | kernel/container/hashmap.c:94-101 | a tombstone removes exactly that key and keeps every other reachable |
| `HashMap.TombRepresents` | kernel/container/hashmap.c:94-101 | a tombstone over an empty bucket changes nothing in the map |
| `HashMap.DeleteEffect` | kernel/container/hashmap.c:94-101 | a delete removes the key from the map in any case, and takes an empty bucket exactly when the key was absent |
| `HashMap.DeleteSoundIff` | kernel/container/hashmap.c:94-101 | so the count of taken buckets stays right if and only if the value is present |
| `HashMap.EndlessProbe` | kernel/container/hashmap.c:40-48 | with no empty bucket left, no step of the probe for an absent value ends it |
| `HashMap.Map.constructor` | kernel/container/hashmap.c:13-20 | the empty map |
| `HashMap.Map.GetBucket` | kernel/container/hashmap.c:36-53 | the probe ends, at the bucket of the key if it is present and else at a reachable bucket no key uses |
| `HashMap.Map.InsertOp` | kernel/container/hashmap.c:55-63 | adds or replaces the key and counts a new bucket |
| `HashMap.Map.InsertAll` | kernel/container/hashmap.c:75-80 | the loop carries every live entry over |
| `HashMap.Map.Rehash` | kernel/container/hashmap.c:65-82 | the mapping is unchanged in the larger table |
| `HashMap.Map.Insert` | kernel/container/hashmap.c:84-92 | updates the mathematical map at the key; the table doubles exactly when four fifths of it are taken, from 32 buckets on |
| `HashMap.Map.Delete` | kernel/container/hashmap.c:94-101 | for every key: the map loses it, an absent key uses up an empty bucket uncounted, and the table stays sound exactly when the key was present or there are no buckets |
| `HashMap.Map.DeleteAbsent` | kernel/container/hashmap.c:94-101 | deletes of as many absent values as there are empty buckets leave none empty, with the map unchanged |
| `HashMap.Map.Has` | kernel/container/hashmap.c:103-109 | true exactly when the key is in the map |
| `HashMap.Map.Get` | kernel/container/hashmap.c:127-141 | the value of the key, or none exactly when it is absent |
| `Strtok.Skip` | libc/string/strtok.c:18 | the longest run of delimiters is dropped and nothing else |
| `Strtok.Span` | libc/string/strtok.c:25 | the token reaches up to the first delimiter or the end |
| `Strtok.TokensAreTokens` | libc/string/strtok.c:9-35 | tokens are non-empty and free of delimiters |
| `Strtok.TokensOfWoven` | libc/string/strtok.c:9-35 | however a text is made of non-empty tokens with delimiters between them, its tokens are those |
| `Strtok.TextIsWoven` | libc/string/strtok.c:9-35 | every text is its tokens with delimiters before, between and after them |
| `Strtok.SkipIs` | libc/string/strtok.c:18 | any position that satisfies the description is where the skipping ends |
| `Strtok.SpanIs` | libc/string/strtok.c:25 | any length that satisfies the description is the length of the token |
| `Strtok.SkipOne` | libc/string/strtok.c:30-31 | stepping over the overwritten delimiter loses no token |
| `Strtok.SplitToken` | libc/string/strtok.c:23-31 | the token found is the first one, and the others follow it |
| `Strtok.SkipDelims` | libc/string/strtok.c:18 | the first loop, in the buffer |
| `Strtok.SpanToken` | libc/string/strtok.c:25 | the second loop, in the buffer |
| `Strtok.StrtokR` | libc/string/strtok.c:9-35 | one call returns the first remaining token, NUL-terminated in place, writes one byte at most, and leaves exactly the remaining tokens for the next call; it fails exactly when there are none |
| `Mounts.FoundChild` | kernel/fs.c:110-116 | a child found by name is at the place of the parent extended by that name |
| `Mounts.OnlyChild` | kernel/fs.c:110-116 | the node at a place is on the child list of its parent under its last component |
| `Mounts.MissingChild` | kernel/fs.c:118-120 | a failed search means there is no node at that place |
| `Mounts.PrefixPlace` | kernel/fs.c:199-222 | every prefix of a place in the tree is a place in the tree |
| `Mounts.InsertInv` | kernel/fs.c:211-221 | linking a new node at the head of a child list keeps the tree and the mount table |
| `Mounts.MarkInv` | kernel/fs.c:225-233 | marking a node mounts at exactly its place |
| `MountPoints.DoomedSplit` | kernel/fs.c:181-189 | node, children and later siblings are disjoint and together are what one activation frees |
| `MountPoints.DoomedIsBelow` | kernel/fs.c:224 | from the child list of a node everything strictly below the node is freed |
| `MountPoints.ChildlessIff` | kernel/fs.c:224 | a node has children exactly when something is mounted strictly below it |
| `MountPoints.MountEffect` | kernel/fs.c:224-225 | after a mount a link dangles if and only if something was mounted strictly below the target; otherwise the tree is sound |
| `MountPoints.TreeHasNoDangling` | kernel/fs.c:78-86 | a sound tree has no dangling child link |
| `MountPoints.Longest` | kernel/fs.c:99-130 | the longest mounted prefix: mounted itself, and no longer one is |
| `MountPoints.LongestStops` | kernel/fs.c:118-120 | past a missing node no longer prefix is mounted, so stopping there is right |
| `MountPoints.NextComponent` | kernel/fs.c:106-125 | after each token the rest of the path holds exactly the remaining components |
| `MountPoints.LastMountWins` | kernel/fs.c:191-237 | the table of a run of mounts holds at each path what was mounted there last |
| `MountPoints.NeverAboveIff` | kernel/fs.c:191-237 | a run never mounts above an existing mount exactly when no target is a proper prefix of an earlier one |
| `MountPoints.NestedPaths` | kernel/fs.c:194-200 | the components of a/b and of a |
| `MountPoints.MountsAbove` | kernel/fs.c:191-237 | the two calls that mount at a/b and then at a, on a fresh tree, leave a child link to a freed node |
| `MountPoints.SelectedIsLast` | kernel/fs.c:92-133 | the longest mounted prefix in the table of a run was named by a call, its entry is that of the last such call, and no call named a longer prefix |
| `MountPoints.MountTree.constructor` | kernel/fs.c:86 | an unmounted root |
| `MountPoints.MountTree.LoadPath` | kernel/fs.c:94 | the shared buffer holds the path and its NUL |
| `MountPoints.MountTree.FindChild` | kernel/fs.c:109-116 | the search that stops at the first match finds the node at the extended place or proves there is none |
| `MountPoints.MountTree.FindLastChild` | kernel/fs.c:203-209 | so does the search that looks at the whole list |
| `MountPoints.MountTree.GetFs` | kernel/fs.c:92-133 | the file system at the longest mounted component-wise prefix, and an offset from which the path has exactly the remaining components; fails exactly when no prefix is mounted |
| `MountPoints.MountTree.UnmountChild` | kernel/fs.c:181-189 | frees exactly the nodes at or below the given siblings, each once, and ends |
| `MountPoints.MountTree.Enter` | kernel/fs.c:203-221 | the child of that name, made if missing |
| `MountPoints.MountTree.Descend` | kernel/fs.c:194-222 | the walk ends at the node of the target with every table entry as before |
| `MountPoints.MountTree.Mount` | kernel/fs.c:191-237 | mounts at the target and nowhere else; leaves a dangling link if and only if something was mounted below it, and else a sound tree |
| `MountPoints.MountTree.NextToken` | kernel/fs.c:106-107 | the next component, and where the rest of the path starts |
| `MountPoints.MountTree.MountAll` | kernel/fs.c:191-237 | any run of mounts of which none is above an earlier one leaves a sound tree, with the table that the last call for each path decides |
| `MountPoints.MountTree.MountAllThenGet` | kernel/fs.c:92-133 | after such a run: the file system of the last call for the longest named prefix and exactly the remaining components, or none exactly when no call named a prefix |
| `Ustar.UntilIs` | kernel/tar.c:7 | the text before the first NUL is determined |
| `Ustar.OctalOfDigits` | kernel/tar.c:5-12 | reading a zero-padded octal field gives back the number written |
| `Ustar.TarField` | kernel/tar.c:5-12 | the loop computes the octal number of the field modulo 2^32, for any bytes, with char signed as on i686 |
| `Ustar.TarNextBlk` | kernel/tar.c:36-41 | header block plus size rounded up to blocks, in 32-bit arithmetic |
| `Ustar.NextIsNext` | kernel/tar.c:36-41 | on an archive that arithmetic never wraps and leads to the next header |
| `Ustar.BlocksTight` | kernel/tar.c:36-41 | between two headers the contents fit with less than a block to spare |
| `Ustar.HeaderBlock` | kernel/fs/tarfs.c:125-129 | a scan meets the described headers one after the other, and the nameless block exactly at the end |
| `TarFs.ComparesWhole` | kernel/fs/tarfs.c:130-134 | the two bounded comparisons accept exactly the path itself or the path with a final slash |
| `TarFs.ExecutableIff` | kernel/fs/tarfs.c:136 | the mask 0111 asks whether owner, group or others may execute |
| `TarFs.DeviceHalves` | kernel/fs/tarfs.c:143-144 | major and minor numbers of 16 bits come back out of the device number, the major from its upper half |
| `TarFs.InodeFields` | kernel/fs/tarfs.c:136-151 | each field of the inode, told by the fields of the header: type flag, mode, device numbers, size and block |
| `TarFs.StrnLen` | libc/string/strlen.c:9-13 | the length, or one more than the bound |
| `TarFs.ReadInode` | kernel/fs/tarfs.c:136-151 | type, device number, size and execute bit of a header, or an unsupported type |
| `TarFs.LookupAll` | kernel/fs/tarfs.c:114-158 | the inode of the first entry for the path, or no entry, or an unsupported type |
| `TarFs.ChildIsLookedUp` | kernel/fs/tarfs.c:130-134 | the children of a directory are exactly the entries that the lookup of its path, a slash and a component accepts |
| `TarFs.ChildIffSingle` | kernel/fs/tarfs.c:68-77 | under a directory name with its slash, the tests of getdent accept the children and repetitions of the directory itself |
| `TarFs.ChildNotSingle` | kernel/fs/tarfs.c:68-77 | under a directory name without its slash, they reject every child |
| `TarFs.ChildrenMember` | kernel/fs/tarfs.c:39-102 | the list of children holds exactly the children |
| `TarFs.ListingMember` | kernel/fs/tarfs.c:59-100 | the listing holds the one-component entries before the first name outside the directory |
| `TarFs.ListingExactIff` | kernel/fs/tarfs.c:39-102 | a listing from a given entry is exactly the children, once each and in order, if and only if the recorded name ends in a slash, the entries from there run through all children, and none repeats the directory; or, without the slash, there is no child and nothing in the run passes for one |
| `TarFs.SlashlessMisses` | kernel/fs/tarfs.c:68-77 | for a directory recorded without its slash nothing that is listed is a child |
| `TarFs.SlashlessHides` | kernel/fs/tarfs.c:68-77 | an archive in which the directory and its child are found by path and the child is not listed |
| `TarFs.SlashlessAdds` | kernel/fs/tarfs.c:68-77 | an archive in which a listing reports an entry that is not in the directory |
| `TarFs.RootListsIff` | kernel/fs/tarfs.c:47-49 | the listing of the root is exactly its children, in any order of entries, if and only if no name is a lone slash |
| `TarFs.OutOfOrderMisses` | kernel/fs/tarfs.c:70-74 | an archive out of order whose listing misses a child |
| `TarFs.HasSingle` | kernel/fs/tarfs.c:76-77 | the slash test means one component |
| `TarFs.CutName` | kernel/fs/tarfs.c:88-92 | strtok_r on the copied name leaves it without its final slash |
| `TarFs.ReadHeader` | kernel/fs/tarfs.c:61-66 | name, type and successor of the header at a block, or the end |
| `TarFs.ReadRunIsContent` | kernel/fs/tarfs.c:23-37 | reads of any sizes, one after the other, return the contents without gap or repetition |
| `TarFs.TarFile.constructor` | kernel/fs/tarfs.c:11-19 | an opened file starts at the first byte of its contents, the root at its first entry, and a directory at its first entry if and only if its header records no contents |
| `TarFs.Scan` | kernel/fs/tarfs.c:60-100 | the loop of getdent stops at the first entry of the listing, or where the listing ends |
| `TarFs.TarFile.Getdent` | kernel/fs/tarfs.c:39-102 | each call returns the next entry of the listing and leaves the rest, and the first absent answer comes when nothing is left |
| `TarFs.TarFile.ListAll` | kernel/fs/tarfs.c:39-102 | calls repeated until the first absent answer return exactly the entries of the listing, in order |
| `TarFs.TarFile.Tread` | kernel/fs/tarfs.c:23-37 | the next bytes of the contents, as many as asked for or left |
| `TarFs.TarFile.ReadAll` | kernel/fs/tarfs.c:23-37 | reads of any sizes, one after the other, return the contents from the offset on, as many bytes as asked for or left |
| `ArchiveTrees.UnderHead` | kernel/fs/tarfs.c:70-77 | the component after a directory prefix is determined by the name |
| `ArchiveTrees.FlattenUnder` | kernel/fs/tarfs.c:70-77 | every entry of a flattened tree lies at or below one of its members |
| `ArchiveTrees.FindSettled` | kernel/fs/tarfs.c:39-102 | for the directory at any path of a tree written in pre-order: its contents follow its entry without a gap, and nothing else in the archive has its prefix |
| `ArchiveTrees.ListsHeads` | kernel/fs/tarfs.c:59-100 | a listing over a flattened tree passes over everything deeper and reports the members, in order |
| `ArchiveTrees.PreorderLists` | kernel/fs/tarfs.c:39-102 | in an archive written in pre-order from any tree, for the root and every directory, the listing is exactly its members, once each, in order and under their names, and these are all its children in the archive |
| `ArchiveTrees.PathLeadsTo` | kernel/fs/tarfs.c:114-158 | the path of every directory of the tree is looked up at its own entry |
| `ArchiveTrees.FileLeadsTo` | kernel/fs/tarfs.c:114-158 | the path of every file of the tree is looked up at its own entry |
| `ArchiveTrees.ListedIsLookedUp` | kernel/fs/tarfs.c:78-98 | looking up a listed name in its directory finds the inode number and type that the listing gave |
| `ArchiveTrees.OpenPath` | kernel/fs.c:146-157 | lookup and open on the path of any directory give a file positioned at its first member |
| `ArchiveTrees.ListPath` | kernel/fs.c:146-157 | lookup, open and repeated getdent on the path of any directory of the tree report exactly the names in it, in order, each with the inode number and type that looking it up gives |
| `ArchiveTrees.ReadPath` | kernel/fs.c:146-157 | lookup, open and reads of any sizes on the path of any regular file of the tree return the first bytes of its contents |
| `Stdio.RunConserves` | libc/stdio/fwrite.c:4-47 | after any mix of writes and flushes, descriptor bytes followed by the buffer are everything written; the buffer is bounded, and in line mode holds no newline |
| `Stdio.ApplyKeeps` | libc/stdio/fwrite.c:19-46 | each call keeps this |
| `Stdio.FlushedIsUnbuffered` | libc/stdio/fflush.c:4-14 | a flushed buffered stream shows what an unbuffered one shows |
| `Stdio.NothingEarly` | libc/stdio/fwrite.c:19-26 | nothing goes to the descriptor while all that was written fits the buffer and, in line mode, ends no line |
| `Stdio.Writer.constructor` | libc/stdio/file.h:9-17 | a fresh stream |
| `Stdio.Writer.Fwrite` | libc/stdio/fwrite.c:4-47 | refines the model; the returned number counts the old buffer as well exactly when it spills |
| `Stdio.Writer.Fflush` | libc/stdio/fflush.c:4-14 | refines the model; a closed stream is refused and marked |
| `Stdio.Reader.constructor` | libc/stdio/file.h:9-17 | a fresh stream over a source |
| `Stdio.Reader.ReadFd` | libc/stdio/fread.c:27 | any short read, but nothing only at the end of the source |
| `Stdio.Reader.CopyOut` | libc/stdio/fread.c:20-24 | the buffered bytes go to the caller in order |
| `Stdio.Reader.Direct` | libc/stdio/fread.c:26-33 | a direct read continues where the buffer ended |
| `Stdio.Reader.Refill` | libc/stdio/fread.c:34-44 | the buffer takes the next bytes, or the source has ended |
| `Stdio.Reader.Fread` | libc/stdio/fread.c:6-61 | what the program received so far is always a prefix of the source, under any pattern of short reads; the loop ends; fewer bytes than asked come only at the end of the source or from a short direct read; the end mark is set exactly by a read of nothing |

## Left out

- Kernel image and page pool: the pool starts at the load address of the kernel; the model takes the kernel's static data to be separate from it.
- Hardware: TLB contents, cached translations after a remap, contents of device frames, assembly, interrupts, timer and port input and output.
- remap_page_kernel and virt_to_phys: not used by the paths modelled.
- Frames.FrameAllocator.AllocPage: on a full bitmap the C scan runs below index 0; the model stops there and answers none.
- Frames.FrameAllocator.TakeFromBitmap: the same.
- Frames.FrameAllocator.LastWordWithRoom: the same.
- PagingOps.LockPageOnly: pages of the process region only, as in the one call that the kernel makes.
- AddressSpaces.AddressSpaceManager.Lock: the same.
- PagingOps.StoreIsPrivate: a store through a device mapping is not described.
- Heap sizes: 32-bit overflow of lengths and of the break is not modelled; addresses and sizes are unbounded.
- KernelHeap.KmallocHeap.Kfree: pointers are NULL or live, as the caller must guarantee; the magic number is checked at those only.
- KernelHeap.KmallocHeap.Krealloc: the same.
- Locks: allocation of waiter nodes inside the lock code, lock calls from interrupt context, the mode before the scheduler starts, and overflow of counts.
- PipeFree.FreedOnceIff: a test that comes after a free reads freed memory; the model lets it see the flags as they were left.
- LastReference.HookOnceIff: the same for the count of a freed file; the decrement itself is one step.
- Pipe calls on a descriptor of the wrong end, and on a null pipe, which only return an error.
- Sched.Scheduler.Pass: the halt and the nested call during it are the boundary of a pass, and the context switch itself is not modelled.
- ProcTable.ProcessTable.AllocProc: the failing path leaves the global lock held in the C code; the lock is not part of this model.
- waitpid, orphans and signals.
- Syscalls.OpenInv: path lookup and the open hook of the file are a parameter that says how they end.
- sys_exec beyond closing descriptors: ELF loading and argument copying.
- HashMap.Map.Delete: maps without a free function only.
- Hash map iteration and release of whole maps.
- MountPoints.MountTree.LoadPath: paths of 4096 characters or more, which the C buffer does not terminate, are excluded.
- MountPoints.MountTree.GetFs: the same.
- MountPoints.MountTree.Descend: the same.
- MountPoints.MountTree.MountAll: the same.
- MountPoints.MountTree.MountAllThenGet: the same.
- MountPoints.MountTree.Mount: the same; a file system is an identity, so opening its source device is not modelled.
- fs_umount, which does nothing, and fs_lookup beyond the choice of the file system.
- Ustar.HeaderBlock: names that fill all 100 bytes of their field and names split over the prefix field are excluded.
- ArchiveTrees.PreorderLists: archives written from a tree, so no name occurs twice in a directory; `TarFs.ListingExactIff` covers all others.
- TarFs.TarFile.Tread: the offset lies within the file; seeking past the end is excluded.
- Stdio.Writer.Fwrite: every descriptor write is complete and succeeds.
- Stdio.Writer.Fflush: the same.
- Stdio.Reader.Fread: descriptor reads do not fail.
- Streams used for both reading and writing, and reuse of a stream after it is closed.
- tmpfs, devfs, terminals, frame buffer, keyboard, shell and utilities.
