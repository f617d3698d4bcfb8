# POLX kernel model

POLX is a small i386 kernel. This project models its memory management, its tasks and its
name tree, in the shape the C code has (objects whose fields are updated in place, linked
lists, loops over memory), and proves what that code keeps, promises and gets wrong.

| file | what it models |
|---|---|
| Heap.dfy | the chunk heap of kmalloc and kfree: boundary tags, five size bins, a sorted bin, the void chunk |
| Paging.dfy | two-level page tables edited through the recursive slot, against a model of the processor's walk (section 4.3 of the Intel 64 and IA-32 SDM, volume 3A) |
| Regions.dfy | the region list of an address space and the program break |
| Fork.dfy | the duplication of an address space |
| UserCopy.dfy | copying bytes to a program and strings from it, through a temporary map |
| Mmap.dfy | mapping a file into an address space |
| Pmm.dfy | the bitmap of physical frames |
| Vmalloc.dfy | ranges of kernel virtual memory |
| Tasks.dfy | task control blocks, their queues and family lists |
| Scheduler.dfy | dispatching, sleeping, exiting, waiting, reading the terminal, forking |
| Runs.dfy | whole runs of the scheduler |
| Namei.dfy | path lookup and the calls that create and remove nodes |
| Terminal.dfy | the line editor of the terminal |
| Lists.dfy | lists without repetitions |

Linked structures carry a ghost sequence that their pointers spell; `Valid()` ties the two
together, and every method says what becomes of the sequence. A context switch is "the
actual task becomes this one". What the kernel gets from outside is a parameter: the frames
pmm_get_frame will hand out, the answer of a driver's read, the next event of a run. Machine
words are natural numbers and wrap-around is written out where the code can wrap.

Where the code departs from its own comments or evident intent the model follows the code
and says exactly when it still does what was meant: kmalloc's clamped remainder
(`Heap.Conservation`), tables that are never cleared (`Paging.OthersKeptIffTableClean`), the
frame number lost by unmapping (`Paging.UnmapForgetsTheFrame`), areas called free that are
not (`Regions.AreaFreeExactly`), mappings that are not recorded (`Mmap.VmmMmapAt`), regions
whose last page a fork misses (`Fork.EveryByteVisitedIff`), a heap that hands out memory
behind its end (`Heap.SmallRunLeavesWindow`), the address counted wrong in strings of more
than two pages, longer than any caller asks for (`UserCopy.ReadsRightIff`,
`UserCopy.APageIsWithinReach`), the unmapping when a segment that ends at a page boundary
shrinks (`Regions.ShrinkUnmapsRightIff`), frames freed twice and pools of no frames
(`Pmm.FrameAllocator.FreeFrame`, `Pmm.FrameAllocator.GetPool`), the first vmalloc request
(`Vmalloc.UsedRegions.Vmalloc`), nodes created under another name than was looked up
(`Namei.FileNameIsLastNameIff`), keys that write behind the screen (the outcomes of
`Terminal.Terminal.PutcharFromKeyboard`), and a line typed while nobody reads
(`Scheduling.Scheduler.StdinRecall`).

`dafny verify dfyconfig.toml` checks the whole project.

## Model

| member | source | states |
|---|---|---|
| Heap.KernelHeap.Kmalloc | src/kernel/klib/kmalloc.c:167-212 | keeps the heap invariant (chunks tile the heap, every chunk is live or in exactly its bin, boundary tags true, and over every run the void records exactly what is left of the window but never less than 16 bytes); panics exactly if no free chunk serves the rounded size and the void chunk is too small, so never for the smallest chunk; otherwise the chunk handed out was not live, is the smallest that serves or is carved from the void, and every other live chunk keeps its size and its payload words |
| Heap.KernelHeap.Kfree | src/kernel/klib/kfree.c:99-132 | NULL does nothing; a chunk that is free already panics and nothing changes; otherwise exactly that chunk stops being live, the header behind it says that a free chunk of its size precedes it and no other header's tags change, and the invariant holds again even if the tag behind the chunk was stale on entry, as after a split |
| Heap.KernelHeap.FindFreeChunk | src/kernel/klib/kmalloc.c:116-159 | finds a chunk exactly if some free chunk serves, and then the smallest one; after the split it has exactly the wanted size, the rest is a free chunk in its bin, and it is the only chunk that became live; the header behind it says so |
| Heap.ServesIff | src/kernel/klib/kmalloc.c:116-149 | a free chunk serves a request exactly if its size is the one wanted, or is larger and none of the five sizes that have bins of their own |
| Heap.FreedServesAgain | src/kernel/klib/kfree.c:99-132 | a chunk given back serves the request it was made for |
| Heap.KernelHeap.InsertInSortedbin | src/kernel/klib/kfree.c:31-97 | puts the chunk at a place where the sorted bin stays in order of size, relinking exactly the neighbours, with first, last and counter to match |
| Heap.KernelHeap.EraseFromSortedbin | src/kernel/klib/kmalloc.c:71-97 | takes out exactly the chunk asked for and links its neighbours to each other, in both directions, at the ends too |
| Heap.KernelHeap.PopFromSizebin | src/kernel/klib/kmalloc.c:55-69 | hands out the head of the bin and leaves the others linked (last in, first out) |
| Heap.KernelHeap.PushToSizebin | src/kernel/klib/kfree.c:23-29 | the chunk becomes the head of the bin, in front of the others |
| Heap.OwnBinIff | src/kernel/klib/kfree.c:6-29 | the sizes 32, 48, 64, 80 and 96 have bins of their own, each recording its size, and no others have |
| Heap.BinHoldsItsSize | src/kernel/klib/kmalloc.c:21-45 | the chunks in a bin of that kind are free and have the size it records |
| Heap.EveryAddressInOneChunk | src/kernel/klib/kmalloc.c:190-204 | every address between the start of the heap and the void chunk lies in exactly one chunk |
| Heap.LiveOrInOneBin | src/kernel/klib/kfree.c:99-132 | a chunk is free exactly if it is in a bin, and then in the one bin of its size, once |
| Heap.PrevFreeTellsTheTruth | src/kernel/klib/kfree.c:123-129 | a set prev_free means that the chunk before is free and prev_size its size; the converse is not claimed, as _create_chunk clears the flag |
| Heap.PayloadsDisjoint | src/kernel/klib/kmalloc.c:211 | no byte of a live payload lies in another chunk or in a header |
| Heap.PayloadHoldsRequest | src/kernel/klib/kmalloc.c:180-211 | the payload of the chunk handed out holds every byte asked for |
| Heap.RequestFits | src/kernel/klib/kmalloc.c:180-188 | the rounded size is a well-formed chunk with room for the request exactly if the request is at most 2^32 - 24; above, the 32-bit rounding wraps around |
| Heap.RequestsForNothing | src/kernel/klib/kmalloc.c:180-188 | exactly which requests wrap around to a chunk size of 0 |
| Heap.Conservation | src/kernel/klib/kmalloc.c:191-204 | the sizes of all chunks and the void add up to the same total after an allocation exactly if it reused a chunk or left at least 16 bytes in the void |
| Heap.ConservationFails | src/kernel/klib/kmalloc.c:161-165 | an allocation that leaves 8 bytes, recorded as 16, after which the heap claims 8 bytes more than it has |
| Heap.HandedOutInsideIff | src/kernel/klib/kmalloc.c:161-204 | as long as the heap is inside its window, the chunk handed out ends inside it exactly if a free chunk serves or the window still has room for it; only a 16-byte chunk is ever handed out behind the end, and then fewer than 16 bytes were left |
| Heap.AllInsideIff | src/kernel/klib/kmalloc.c:47-50 | every chunk lies inside the window exactly if the void chunk starts at its end or before |
| Heap.SmallRunLeavesWindow | src/kernel/klib/kmalloc.c:161-212 | a run of more small requests than the window has room for is granted in full, and a chunk then ends behind the window |
| Heap.SmallestChunkIff | src/kernel/klib/kmalloc.c:180-188 | exactly which requests are served by a 16-byte chunk: up to 8 bytes, and those near 2^32 whose rounding wraps around |
| Heap.HeapOverrunsWindow | src/kernel/klib/kmalloc.c:47-50 | with the unparenthesised start macro the first void chunk reaches 0x2000 bytes into the vmalloc window, wherever the kernel ends |
| Paging.CurrentTablesWindow | src/kernel/arch/i386/paging.c:59-68 | through the recursive slot, the word at current_pts[va >> 12] is the entry of va in the table of its own slot, for every va whose table is present |
| Paging.ExternalTablesWindow | src/kernel/arch/i386/paging.c:70-79 | the same for external_pts and the directory in the external slot |
| Paging.Machine.PgMapTo | src/kernel/arch/i386/paging.c:102-118 | reads and writes made only through the windows leave memory with the one entry set, a missing table taken from the next frame as it is, and the directory that was in the external slot there again, with the present and write bits on |
| Paging.MappedToEntry | src/kernel/arch/i386/paging.c:102-118 | what pg_map_to does to every entry of every address space: the one page is set, the siblings in a brand-new table take on what the frame held, every other entry stays |
| Paging.UserMayUseIff | src/kernel/arch/i386/paging.c:102-118 | programs may use a page just mapped if and only if it is mapped for them and its table was not first made for a page of the kernel's; what rights a new table has |
| Paging.OthersKeptIffTableClean | src/kernel/arch/i386/paging.c:108-116 | no other page of any address space is disturbed exactly if no new table is needed or the frame for it happens to hold no present entry elsewhere |
| Paging.Machine.PgMap | src/kernel/arch/i386/paging.c:92-100 | at any address below the windows, kernel addresses among them: the same memory change in the current address space, through the current windows |
| Paging.MappedSeenFrom | src/kernel/arch/i386/paging.c:92-100 | the entry of every page of every address space after a page is mapped: it is set in the directories that share the table, so in all that have the kernel table already, and in one alone if the table is made now |
| Paging.SameTableIsKernels | src/kernel/arch/i386/paging.c:203-228 | two directories share a table only in the kernel range |
| Paging.Machine.PgUnmap | src/kernel/arch/i386/paging.c:156-169 | at any address below the windows: only the entry of that page is cleared; the value returned is zero exactly if the page was absent, else it has the entry's flags, and a frame number set to ones |
| Paging.UnmappedSeenFrom | src/kernel/arch/i386/paging.c:156-169 | the entry of every page of every address space after a page is unmapped: it is gone from all directories that share the table |
| Paging.Machine.PgUnmapFrom | src/kernel/arch/i386/paging.c:171-189 | every entry of every address space but that one stays; the value returned as for pg_unmap; the external slot is written back, but is left on the foreign directory if the page was absent |
| Paging.UnmapForgetsTheFrame | src/kernel/arch/i386/paging.c:168 | the caller learns the frame from the returned value exactly if it was the very last frame |
| Paging.Machine.PgGetFrameFrom | src/kernel/arch/i386/paging.c:191-201 | returns the present entry of the page in the other address space, else zero, and changes nothing but the external slot's flags |
| Paging.Machine.PgDuplicatePage | src/kernel/arch/i386/paging.c:120-154 | a present page is copied, all 4096 bytes, into the next frame, and no other page of any address space changes; an absent page gives zero |
| Paging.Machine.PgCreateDirectory | src/kernel/arch/i386/paging.c:203-228 | the new directory maps itself, has nothing below the kernel and the kernel's tables above, and no other address space changes |
| Regions.AddressSpace.InsertRegion | src/kernel/memory/vmm.c:47-91 | the region is linked in where it fits, in a sorted list well linked both ways; it is dropped exactly if it overlaps one that is there |
| Regions.AddressSpace.RemoveRegion | src/kernel/memory/vmm.c:93-117 | exactly that region leaves the list, which stays sorted and linked |
| Regions.AddressSpace.IsAreaFree | src/kernel/memory/vmm.c:14-45 | the walk gives the answer that AreaFreeExactly judges |
| Regions.AreaFreeExactly | src/kernel/memory/vmm.c:14-45 | the answer agrees with "overlaps nothing and ends in user space" exactly if the area does not start strictly inside a region and its end does not wrap, or it is refused anyway; for an empty list, exactly if it ends in user space |
| Regions.CalledFreeOverlapsIff | src/kernel/memory/vmm.c:14-91 | of the areas called free, exactly those that start strictly inside a region overlap one |
| Regions.AreaFreeMisjudges | src/kernel/memory/vmm.c:33-38 | an area called free that starts in the middle of a region |
| Regions.FoundIsContaining | src/kernel/memory/vmm.c:119-132 | the region found contains the address unless the address is its end; any region that contains it and was not found is the next one |
| Regions.AddressSpace.SetBrk | src/kernel/memory/vmm.c:525-618 | from the end of the program on, with a region behind: it succeeds exactly if the new break stays behind the program and the grown segment ends before the next region; success returns the old break and moves it, gives the segment its new size and no other region another, and lists what is unmapped; failure changes nothing; always elf_end <= data_end <= end of the segment <= start of the next region |
| Regions.MoveAllowedIff | src/kernel/memory/vmm.c:531-592 | once there is a segment, the condition on which the break moves is that it stays behind the program and the segment, if it has to grow, overlaps none of the other regions |
| Regions.FirstGrowthIff | src/kernel/memory/vmm.c:540-560 | before, that the new segment overlaps no region |
| Regions.ShrinkUnmapsRightIff | src/kernel/memory/vmm.c:595-605 | shrinking a segment by at least a page unmaps exactly the pages that hold a byte given up and none kept if and only if the segment does not end at a page boundary |
| Regions.ShrinkIsOnePageHigh | src/kernel/memory/vmm.c:595-605 | if it does end at one, the page behind it is unmapped and the lowest page given up stays mapped; all other pages are treated right |
| Fork.ForkAspace | src/kernel/memory/vmm.c:207-233 | the child gets the parent's region list and fields; every page of every region that the loop comes to is an own copy; no other address space and no frame in use changes; if the frames at hand were clean, every page of the child that the loop does not come to is as it was |
| Fork.RegionReadsTheSame | src/kernel/memory/vmm.c:207-233 | at every address of a region whose last page the loop does not miss, page-aligned ones among them, the child reads the parent's byte exactly if the parent's page was present, and the parent still reads it |
| Fork.RightsAreTheRegions | src/kernel/memory/vmm.c:215-219 | the child's page has the rights of the last region whose stride holds it, and the present bit |
| Fork.ForkReadsIff | src/kernel/memory/vmm.c:207-233 | with clean frames, at every address of user space where the child had no page: it reads what the parent read exactly if the parent had a page and the loop came to it, or neither |
| Fork.VisitedIff | src/kernel/memory/vmm.c:213-219 | which pages the loop over all regions comes to: for each region as many as its size has started pages, from the page of its start |
| Fork.FrameZeroIsShared | src/kernel/memory/vmm.c:215-219 | where the parent had no page the child stores into frame 0, and the store is seen in every page mapped to frame 0, of whatever address space, and in no other |
| Fork.RegionStoresStayApart | src/kernel/memory/vmm.c:207-233 | whatever the child stores in a page of such a region the parent does not see, and whatever the parent stores the child does not see |
| Fork.ChildReadsWhatParentRead | src/kernel/memory/vmm.c:215-219 | where the parent had no page the child reads physical frame 0 |
| Fork.ChildStoresAreInvisible | src/kernel/memory/vmm.c:215-219 | a store by the child is seen in no other address space at all |
| Fork.ParentStoresAreInvisible | src/kernel/memory/vmm.c:215-219 | a store into any frame that was in use before the fork does not reach the child |
| Fork.ChildPagesAreSeparate | src/kernel/memory/vmm.c:215-219 | two pages of the child never share a frame |
| Fork.EveryByteVisitedIff | src/kernel/memory/vmm.c:214-219 | stepping a page at a time from the region's start reaches the page of every byte exactly if the offsets of start and end fit into one page together |
| UserCopy.CopyDataTo | src/kernel/memory/vmm.c:483-523 | succeeds exactly if the first page and every page of the range are present; memory is then as if the program's bytes had been set one by one; a fault stops at the first absent page, with the bytes before it written |
| UserCopy.PokedCell | src/kernel/memory/vmm.c:501-517 | what every byte of physical memory holds after the copy, even if pages of the range share a frame |
| UserCopy.CopiedBytesAreSeen | src/kernel/memory/vmm.c:483-523 | the program reads byte i of the data at vaddr + i, if its pages have frames of their own |
| UserCopy.OtherBytesStay | src/kernel/memory/vmm.c:483-523 | every byte of every address space that is none of those copied stays |
| UserCopy.CopyStringFrom | src/kernel/memory/vmm.c:421-481 | for every length: what a scan through the pages the loop counts gives, the string up to the first NUL, E2BIG exactly if there is none, EFAULT exactly if a page needed is absent; memory is as before |
| UserCopy.ScanMeans | src/kernel/memory/vmm.c:440-480 | the three outcomes told apart by what the bytes are, independently of the loop |
| UserCopy.CountedRightIff | src/kernel/memory/vmm.c:442-447 | the loop's `vaddr += i` names the right page after one boundary, after two only if the string did not start at one, and never after more, when it is too far ahead |
| UserCopy.ReadsRightIff | src/kernel/memory/vmm.c:440-480 | the scan through the counted pages gives what a scan of the string gives, whatever memory holds, if and only if the length is within reach: two pages from a page start, to the end of the third page otherwise |
| UserCopy.BeyondReach | src/kernel/memory/vmm.c:440-480 | beyond reach there is a memory in which the string ends at the reach and the loop misses its end |
| UserCopy.APageIsWithinReach | src/kernel/memory/vmm.c:421-447 | a length of up to a page is always within reach |
| UserCopy.CopyThereAndBack | src/kernel/memory/vmm.c:421-523 | a string copied out by the one call is read back by the other as it was |
| Mmap.VmmMmapAt | src/kernel/memory/vmm.c:268-355 | at a given address: succeeds exactly if the area is called free, is not empty and every read succeeds; the bytes are then mapped with the flags asked for and the pages counted; the region is recorded exactly if it does not start strictly inside another, with a size rounded up to the end of a unit, of 4096 bytes if none is given; on failure regions and counter stay, and what was mapped before the failing read stays mapped |
| Mmap.AlignedSizeIff | src/kernel/memory/vmm.c:276-285 | the size recorded is the size itself if that is a whole number of units, else the one that ends a unit, past the size by less than a unit as counted from the start of the unit vaddr lies in |
| Mmap.NewPagesAreAbsent | src/kernel/memory/vmm.c:306-346 | the pages counted are those of the range that were absent, each once |
| Mmap.CopyFile | src/kernel/memory/vmm.c:306-346 | chunk by chunk each byte vaddr + i reads as byte offset + i of the object, each page keeps its frame or gets one nobody used, and a failing read leaves exactly the chunks before it |
| Mmap.OthersStillRead | src/kernel/memory/vmm.c:268-355 | every byte that could be read before, in any address space, and is none of those mapped, is read as before |
| Mmap.RecordedCoversIff | src/kernel/memory/vmm.c:276-285 | the recorded region contains every mapped byte exactly if the size is a whole number of units or the remainders of address and size fit into one unit together |
| Mmap.MappedButNotRecorded | src/kernel/memory/vmm.c:298-353 | a request that succeeds and is not recorded |
| Pmm.FrameAllocator.constructor | src/kernel/memory/pmm.c:54-69 | after start-up exactly the reserved frames are marked and the count is that of the clear bits |
| Pmm.FrameAllocator.GetFrame | src/kernel/memory/pmm.c:71-95 | hands out a clear frame behind the kernel exactly if there is one; it starts over at most once; the hint then is one more than where the successful search began |
| Pmm.FrameAllocator.NextIsFirst | src/kernel/memory/pmm.c:79-92 | it is the first clear frame from the hint on, or else the first of all |
| Pmm.FrameAllocator.FreeFrame | src/kernel/memory/pmm.c:97-105 | the count of free frames stays right exactly if the frame was handed out before, or is none at all |
| Pmm.FrameAllocator.GetPool | src/kernel/memory/pmm.c:107-149 | takes the lowest run of that many clear frames, lowers the count by it, and returns 0 exactly if there is no such run; a request for no frames returns 0 and spoils the count exactly if the last frame is in use, since it takes frame 0 again |
| Pmm.FrameAllocator.FreePool | src/kernel/memory/pmm.c:151-161 | clears the frames of the pool that exist and raises the count by their number; the account stays right exactly if each of them was in use and none is the kernel's; the hint goes to the last frame freed |
| Pmm.ReleaseUndoesTake | src/kernel/memory/pmm.c:140-161 | releasing a run just taken gives back the bitmap it was taken from |
| Pmm.CountMarked | src/kernel/memory/pmm.c:140-146 | marking a run of n clear frames lowers the number of clear bits by n |
| Pmm.FrameAllocator.BitSet | src/kernel/memory/pmm.c:19-31 | in the packed bytes exactly the one bit changes |
| Vmalloc.UsedRegions.Vmalloc | src/kernel/klib/vmalloc.c:83-127 | takes the lowest address at which that many bytes are free, and panics exactly if there is none; the very first request is granted unchecked, so the list stays in order exactly if it is not the first or fits the window |
| Vmalloc.UsedRegions.Vfree | src/kernel/klib/vfree.c:42-59 | takes out the region that starts at the address, and panics exactly if none does |
| Vmalloc.LowestHole | src/kernel/klib/vmalloc.c:12-46 | first fit over the holes gives the lowest free address, and fails exactly if no address is free |
| Vmalloc.FreeUndoesTake | src/kernel/klib/vfree.c:9-59 | what vmalloc took, vfree gives back: the list is as before |
| Vmalloc.RoundedHolds | src/kernel/klib/vmalloc.c:91-93 | the rounded size holds the request exactly if it is not within a page of 2^32; beyond, it is 0 |
| Tasks.Queue.Add | src/kernel/cpu/scheduler.c:39-57 | the task becomes the last, with counter, first, last and both directions of links to match, also on a queue with a stale last |
| Tasks.Queue.Remove | src/kernel/cpu/scheduler.c:59-80 | exactly that task leaves; the others stay in order and linked |
| Tasks.Task.AddChild | src/kernel/cpu/task.c:23-35 | the child becomes the last of the parent's children, linked both ways |
| Tasks.Task.RemoveChild | src/kernel/cpu/task.c:37-65 | exactly that child leaves the list, at either end, in the middle and when it is alone |
| Tasks.UnmarkClearsIffSet | src/include/kernel/signal.h:16 | the exclusive or clears the bit exactly if it was set |
| Tasks.UnmarkUndoesMarkIff | src/include/kernel/signal.h:15-16 | marking and unmarking leave no trace exactly if the bit was clear before |
| Tasks.EveryTaskHasItsTurn | src/kernel/cpu/task.c:112-153 | going to the follower as often as the queue has tasks meets each of them once and comes back |
| Scheduling.Scheduler.constructor | src/kernel/cpu/scheduler.c:82-104 | the state without tasks satisfies the invariant: three disjoint well-linked queues, waiting tasks in the sleep queue and the others in that of their priority, counters right, only the actual task running, no low-priority task actual while a high-priority one is ready, signal bits and awaited children in step, the family tree linked |
| Scheduling.Scheduler.Boot | src/kernel/cpu/task.c:67-90 | the first task gets number 1 and no parent, and after being added and one switch it runs with the invariant in force |
| Scheduling.Scheduler.GetTcb | src/kernel/cpu/scheduler.c:106-123 | finds a task exactly if one in a queue has the number |
| Scheduling.Scheduler.TaskSwitch | src/kernel/cpu/task.c:112-153 | gives the processor to the follower of the actual task in its queue, else to the head of the high-priority queue, else to the kept turn, else to the head of the low-priority queue, and idles exactly if nobody can run; the task that gets it has its pending exit code delivered; no other task changes |
| Scheduling.Scheduler.TaskSwitchTo | src/kernel/cpu/task.c:155-168 | the task runs with its pending exit code delivered; the kernel panics exactly for its own task |
| Scheduling.Scheduler.TakeTurns | src/kernel/cpu/task.c:112-153 | as many switches as the queue has tasks run each of them exactly once, in the order of the queue, and come back to the first |
| Scheduling.Scheduler.SetState | src/kernel/cpu/scheduler.c:182-213 | the task moves between its run queue and the sleep queue; a woken task of a higher priority takes the processor at once, and the task right behind the displaced one keeps the turn; otherwise whose turn is kept does not change; a call that asks for the state there is already does nothing |
| Scheduling.Scheduler.SchedRemove | src/kernel/cpu/scheduler.c:166-180 | exactly that task leaves its queue and the counters stay right |
| Scheduling.Scheduler.SigHandler | src/kernel/ipc/signal.c:35-45 | a task that was signalled gets the exit code of the child it waited for, that child is destroyed, and both signal bits are clear; any other task is left alone |
| Scheduling.Scheduler.TaskDestroy | src/kernel/cpu/task.c:92-110 | a task without children leaves its parent's list and the tree, and no other family changes |
| Scheduling.Scheduler.DoExit | src/kernel/cpu/exit.c:14-68 | a parent that waits for this task, and nobody else, is woken: it runs at once with the exit code, or is ready and will get it; otherwise the task is gone and nobody wakes; the kernel panics exactly if the task was the last that could run and nobody waits for it; the processor goes to the head of the high-priority queue, else to the kept turn, else to the head of the low-priority queue |
| Scheduling.Scheduler.DoWaitpid | src/kernel/cpu/waitpid.c:11-32 | fails without effect exactly if no task in a queue has the number; otherwise the caller sleeps with the signal enabled |
| Scheduling.Scheduler.StdinRead | src/kernel/vfs/dev_stdin.c:20-34 | the caller sleeps and is the one to be answered |
| Scheduling.Scheduler.StdinRecall | src/kernel/vfs/dev_stdin.c:36-64 | exactly the reader is woken, at once if its priority is the higher one, and then the task right behind the displaced one keeps the turn; with no reader the code goes through a null pointer |
| Scheduling.Scheduler.AddTask | src/kernel/cpu/scheduler.c:151-164 | the new task is the last of its queue, and runs at once exactly if its priority is above the actual one's; then the task right behind the displaced one keeps the turn |
| Scheduling.Scheduler.TaskNew | src/kernel/cpu/task.c:67-90 | a child of the actual task with a number no task ever had, or the panic exactly when the numbers are used up |
| Scheduling.Scheduler.DoFork | src/kernel/cpu/fork.c:10-43 | the child has the parent's mask and priority and waits for its turn; the parent goes on, and whose turn is kept does not change |
| Runs.Step | src/kernel/cpu/scheduler.c:82-213 | one event of any kind keeps the invariant or halts the kernel, exactly when is said; of the tasks that sleep in waitpid it wakes exactly those whose own awaited child exits, so one that waits for somebody else's child is never woken; while tasks of the high priority run, the low-priority queue loses nobody and its turn is kept, and it is taken when that queue gets the processor back |
| Runs.TurnComesBack | src/kernel/cpu/scheduler.c:182-213 | a typed line takes the processor from a low-priority task for a reader of the high priority; whatever happens while such tasks run, the next low-priority task to run is the follower of the displaced one in its queue |
| Runs.Run | src/kernel/main.c:47-89 | from start-up and the first task, over any sequence of events, the invariant holds; the run ends before its last event only in front of one that halts the kernel in the state reached |
| Namei.NamesOfJoin | src/kernel/vfs/namei.c:21-49 | splitting undoes joining: good names joined by slashes, with or without one at the end, come back |
| Namei.FileTree.PathDeconcatenator | src/kernel/vfs/namei.c:21-49 | one call gives the next name and where to go on, for every path without a component of exactly 128 characters |
| Namei.FileTree.NameiPathToVfsNode | src/kernel/vfs/namei.c:64-117 | the lookup loop gives the node and the parent that Resolve gives on the names, and nothing for a path that is not absolute |
| Namei.ResolveIsWalk | src/kernel/vfs/namei.c:84-116 | without empty names the lookup gives the node at the end of the names and the one before it, where either may be missing |
| Namei.ResolveStopsAtEmpty | src/kernel/vfs/namei.c:87-91 | an empty name ends the lookup at the node reached |
| Namei.JoinedNamesResolve | src/kernel/vfs/namei.c:64-117 | the path spelled by good names leads along exactly those names from the root |
| Namei.FileNameIsLastNameIff | src/kernel/vfs/namei.c:21-139 | the name under which a missing node is created is the one the lookup missed if and only if no component is too long, or the last one is what is left of the first that is |
| Namei.NamesAreCut | src/kernel/vfs/namei.c:21-49 | the names looked up are the components before the first too long one, and its first 127 characters |
| Namei.FileNameIsLastComponent | src/kernel/vfs/namei.c:119-139 | the name given to a new node is the last component of the path, however long |
| Namei.LongNameMisleads | src/kernel/vfs/namei.c:33-37 | a directory name of over 128 characters: the lookup stops at its beginning, and the file is named as the last component says |
| Namei.WalkInGrown | src/kernel/vfs/namei.c:141-155 | after a node is added its path leads to it and every other path leads where it led |
| Namei.WalkInShrunk | src/kernel/vfs/namei.c:157-182 | after a node is removed no path leads to it and every other path leads where it led |
| Namei.VNode.AddChild | src/kernel/vfs/namei.c:141-155 | the child becomes the last of the directory, linked both ways |
| Namei.VNode.RemoveChild | src/kernel/vfs/namei.c:157-182 | exactly that child leaves, at either end, in the middle and when it is alone |
| Namei.FileTree.DoMkdir | src/kernel/vfs/mkdir.c:10-41 | which error it gives in every case, the tree then being as it was; without one the directory appears where the lookup stopped, under the last component; the tree stays a tree if and only if nothing had that name there, and the path then finds it if and only if that is the name looked up; it can hold directories and files and be opened and removed by rmdir |
| Namei.FileTree.DoRmdir | src/kernel/vfs/rmdir.c:10-45 | which error it gives in every case; without one exactly that directory disappears and the path finds nothing |
| Namei.FileTree.MkdirRmdir | src/kernel/vfs/rmdir.c:10-45 | a directory just made is removed again by the same path, and the tree is what it was, if it was made under the name looked up |
| Namei.FileTree.DoRemove | src/kernel/vfs/remove.c:11-39 | which error it gives in every case; without one exactly that file disappears and the path finds nothing |
| Namei.FileTree.DoOpen | src/kernel/vfs/open.c:26-51 | which error it gives in every case; the file found is returned with one more user; a new one appears where the lookup stopped, under the last component; the tree stays a tree if and only if nothing had that name there, and the path then finds it if and only if that is the name looked up; a new file can be opened and removed and holds nothing |
| Terminal.Terminal.PutcharFromKeyboard | src/dev/terminal/terminal.c:162-239 | a key does to the line shown on the screen what it does to a line of text with a position; Enter hands over exactly the line; which keys end in a panic, behind the screen or with a lost line is said exactly; keys that edit nothing leave the screen as it is, and Enter goes to the row behind the line |
| Terminal.Terminal.FateOkIff | src/dev/terminal/terminal.c:162-239 | a key in a started line goes well exactly if the cells it needs are there: up to the end of the screen, or a row less for a line that starts in the first row |
| Terminal.Terminal.PressAll | src/dev/terminal/terminal.c:162-239 | after any run of keys that go well the screen shows the line edited by all of them in order |
| Terminal.TypedText | src/dev/terminal/terminal.c:174-187 | typing a text puts it in front of the position |
| Terminal.RubOut | src/dev/terminal/terminal.c:215-235 | backspace takes back what was typed, and Del what was typed and left |
| Terminal.HomeAndEnd | src/dev/terminal/terminal.c:195-204 | HOME and then a text puts it in front of the line, END and then a text behind it |
| Terminal.LeftsMove | src/dev/terminal/cursor.c:81-105 | left arrows go back one place each and stop at the start; HOME is enough of them |
| Terminal.RightsMove | src/dev/terminal/cursor.c:107-134 | right arrows go on one place each and stop at the end; END is enough of them |
| Terminal.ArrowsUndo | src/dev/terminal/cursor.c:81-134 | each arrow undoes the other exactly if the first was not stopped |
| Terminal.KeysWithoutEffect | src/dev/terminal/terminal.c:192-239 | exactly which codes leave the line alone: all that are no key, and the keys that have nothing to do |
| Terminal.CopyLine | src/dev/terminal/vga_text_mode.c:66-88 | reads exactly the cells of the line, or refuses exactly the lines that reach beyond the screen's limit |
| Terminal.PasteLine | src/dev/terminal/vga_text_mode.c:90-125 | writes the codes that are not 0, closes the gaps, blanks the rest and touches no other cell |
| Terminal.Terminal.Scroll | src/dev/terminal/terminal.c:12-19 | every row moves up by one and the last is blank |

## Left out

- Heap.KernelHeap.Kmalloc: does not speak of the requests that round to a chunk of size 0 (`Heap.RequestsForNothing` says which); the code would hand out the void chunk itself. Addresses of chunks do not wrap around.
- Regions.AddressSpace.SetBrk: asks that the first growth is not empty, that a region lies behind the data segment and that the sums do not wrap around 2^32; what its loop unmaps is listed, not applied to the page tables.
- Regions.AddressSpace.InsertRegion: asks for a region that is not empty and ends in user space.
- Fork.ForkAspace: asks for enough frames, where the kernel would panic; that pages not visited keep their entries is stated for clean frames, since what a dirty table frame brings in is what `Paging.MappedToEntry` says.
- UserCopy.CopyStringFrom: asks that the pages the loop counts lie in user space and are absent or pages of data.
- UserCopy.CopyDataTo: asks that the range lies in user space.
- Mmap.VmmMmapAt: asks for an address other than 0, so the search of `_find_free_area` is not modelled; for an object that has the bytes; for clean frames for new tables; and that the range neither wraps nor leaves user space where the code does not check it. A read that fails is taken to have written nothing.
- Mmap.CopyFile: asks for clean frames, as `Mmap.VmmMmapAt` does; what a dirty table frame brings in is what `Paging.MappedToEntry` says.
- Pmm.FrameAllocator.constructor: for memory reserved from address 0 on and not empty, as start-up calls it.
- Paging.Machine.PgMap: not inside the two windows, where a page would be a table.
- Paging.Machine.PgUnmap: not inside the two windows.
- Paging.Machine.PgMapTo: for user space and the temporary maps; nobody maps a kernel page in another address space.
- Paging.Machine.PgUnmapFrom: for user space and the temporary maps.
- Vmalloc.UsedRegions.Vmalloc: asks for a request that does not round to 0; the mapping of physical pages behind the range is not modelled.
- Vmalloc.UsedRegions.Vfree: the unmapping of the pages of the range, and the freeing of their frames, are not modelled.
- Scheduling.Scheduler.SetState: as it is called, that is, only the actual task is put to sleep.
- Scheduling.Scheduler.SchedRemove: for a task that sits in a queue, as do_exit calls it; it does not clear next_to_run, which is safe there because the actual task is never the kept turn.
- Scheduling.Scheduler.TaskDestroy: for a task without children; the killing of descendants is not modelled, since do_exit does not return to the loop that calls it.
- Scheduling.Scheduler.DoExit: for the actual task, without children; closing its files is not modelled.
- Scheduling.Scheduler.Boot: the execution of the first program is not modelled.
- Scheduling.Scheduler.StdinRead: a second reader takes the place of the first, which then sleeps on; the address and size it asks for are not kept.
- Scheduling.Scheduler.StdinRecall: who is woken; copying the line into the reader's memory is that of `UserCopy.CopyDataTo`, and the number of bytes returned is not modelled.
- Scheduling.Scheduler.DoFork: the part about tasks; the address space is that of `Fork.ForkAspace`, registers and files are not modelled.
- Runs.Step: a task with children does not exit; exec and signals sent by programs are no events; the timer may tick while all tasks sleep, as the idle loop allows.
- Namei.FileTree.PathDeconcatenator: not for a component of exactly 128 characters, with which the code writes behind its buffer; the same holds for NameiPathToVfsNode, DoRmdir and DoRemove.
- Namei.FileTree.DoMkdir: not for a component of exactly 128 characters, nor for a last component that does not fit the buffer of the file name; there the code writes behind its buffers.
- Namei.FileTree.DoOpen: the part that finds or creates the file, for the same paths; descriptors are not modelled.
- Terminal.Terminal.PutcharFromKeyboard: with no program output between the keys of a line; the hardware cursor is not modelled.
- Task control blocks are objects that are never used again: wait4 is never reset, and the memory of a destroyed task is not handed out to another.
- Mounts (`namei_mount`) and the file systems behind them.
- vmm_munmap and the destruction of address spaces and directories.
- Page faults, the translation cache, permissions, and everything else the hardware does besides the page walk.
- File descriptors, reading and writing files, device nodes, ramfs data.
- The tar and ELF loaders, exec, printing, the shell and the programs.
- The malloc of the C library, which is the same heap with page-sized growth.
- Terminal output by programs and the terminal's commands.
