# A verified model of the kernel's core

This project models, in Dafny, the parts of the Pintos-derived kernel whose correctness
depends on invariants that hold over whole runs: demand paging, the buffer cache and
files, the scheduler with its semaphores and locks, the feedback-queue accounting, the
allocators and containers, 64-bit division, heapsort, printf and the ustar codec.  State
that the C code updates in place is a class with fields, arrays and loops; each method is
proved against a specification function or an invariant, and the lemmas say what that
specification guarantees.

| file | models |
|---|---|
| `Paging.dfy` | frames, page tables, supplemental page tables, swap, lazy loading, stack growth |
| `BufferCache.dfy`, `Inode.dfy` | the 64-slot write-back cache and byte-level file access on top of it |
| `Scheduling.dfy` | ready, wait and sleep queues, semaphores, locks, priority changes |
| `FixedPoint.dfy`, `Mlfqs.dfy` | 17.14 arithmetic and the load, recent-CPU and priority accounting |
| `StableOrder.dfy`, `LinkedList.dfy` | stability of sorting; the sentinel doubly linked list and its natural merge sort |
| `Malloc.dfy`, `Palloc.dfy`, `Bitmap.dfy` | arenas and free lists, the two page pools, the word-packed bitmap |
| `HashTable.dfy` | the rehashing chained hash table |
| `Arithmetic.dfy` | 64-bit division from a 64/32-bit divide |
| `HeapSort.dfy` | in-place heapsort and binary search |
| `Printf.dfy`, `Conversions.dfy`, `Ustar.dfy` | integer conversions, conversion specifications, atoi, archive headers |
| `Storage.dfy`, `Sequences.dfy`, `Bits.dfy`, `Integers.dfy` | shared vocabulary |

`dafny verify dfyconfig.toml` checks the whole project.

## Main results

* **Demand paging refines flat memory.** Every run of user reads, writes and stack growths
  by any number of processes answers exactly as a flat memory per process would, however
  pages were evicted and reloaded on the way (`Paging.VirtualMemory.Run`). Only two kinds of
  pages are excepted, and only from the moment they are hit. One is a page that is evicted,
  needs swap space and finds no slot free. The run theorem gives the whole trace of where
  pages are, in which that is exactly when a page is lost; so the first loss needs an event
  that began with fewer free slots and fewer free pool pages than it asks for pages, and
  however long the run, slots and pool pages that together are no more than three counts add
  up to: the pages described at the start, the slots then in use for no page out of memory,
  and the pages the run grows. `Paging.UnsavedEviction` says exactly when such an eviction
  is harmless. The other is a page that is described already when a stack growth covers it;
  the run theorem says exactly which pages of a run are spoilt so, and `Paging.OverlayExact`
  why those and no others are.
* **A load finds the byte stored last.** Over every run, unless its page was lost or spoilt
  before, a load finds the byte of the last store to that place that was answered, zero if a
  growth laid the page after it, and the initial byte if there was neither; a store is
  answered if the page is writable at the start or was grown (`Paging.RunLoads`,
  `Paging.RunStores`).  The frame chosen for eviction is the one the clock algorithm names,
  in terms of the reference bits it started from (`Paging.VirtualMemory.GetLruFrame`).
* **Ownership in paging.**  `Structure` and `Valid` hold after every step: each present
  mapping belongs to exactly one frame entry that names it, and each swap slot in use to at
  most one supplemental entry.
* **The cache refines a plain disk**, with the dump thread interleaved at any point between
  pin and unpin, and although slot lookup ignores `present`; every byte read is the one
  written last (`BufferCache.Cache.Run`).
* **No lost wake-ups** in any interleaving of semaphore, lock, sleep, priority and timer
  steps, including wake-ups forced by priority donation (`Scheduling.Kernel.Run`, which
  gives the whole trace of states, each following from the one before by its step: all of
  threads, queues, arrival stamps, values, holders and bounties, and which sleepers a tick
  wakes in which order).  The scheduler always picks the longest-queued thread of the
  highest non-empty level, so whenever the running thread changes no ready thread outranks
  the new one (`Scheduling.RunDispatch`), and every semaphore and lock balances
  (`Scheduling.RunBalanced`).
* **Preemption and donation, in priorities.** In every step of every run, a thread readied
  by an up, a release or a creation takes over exactly if its priority is higher than that
  of the running thread, outside mlfqs and idle; a thread's priority changes only by its own
  setting, by a recomputation, by a higher thread meeting a lock it holds, or by its own
  release of the lock its priority came from, and then to the highest that is left; and the
  same for the priority a lock carries (`Scheduling.RunLaws`).
* **The accounting stays bounded forever** and never overflows: each run ends in the state
  that an event-by-event specification gives, which is within bounds after every event
  (`Mlfqs.Accounting.Run`, `Mlfqs.AfterAll`).  After every event each load, recent CPU and
  priority is the number that the formula over the reals gives, to within the rounding of
  17.14 arithmetic (`Mlfqs.RunMeaning`).
* **list_sort is a stable sort** on the linked structure for any strict weak order, and
  each unfinished pass strictly reduces the number of descents (`LinkedList.List.Sort`).
* **malloc, palloc and the hash table** over every run of requests: malloc answers with a
  new block exactly unless a page is needed and refused, no two blocks held ever overlap,
  and a page is cut into as many blocks as it holds, so that many requests are served by it; palloc is first fit on two bit sequences, whose set bits are exactly the disjoint
  groups held; the hash table is a keyed set.
* **udiv64 is floor division** for all 64-bit operands, and DIVL never traps.
* **Round trips**: atoi inverts `%d`, parse_conversion inverts the text of a specification,
  ustar_parse_header inverts ustar_make_header, inode_open inverts inode_create.  A header
  is accepted exactly if it describes what is reported (`Ustar.ParsedExact`), so one damaged
  byte is always noticed (`Ustar.DamageNoticed`).

Properties that turned out to fail somewhere, each with its exact condition: an eviction
with swap full loses the page unless it equals its file image (`Paging.UnsavedEviction`,
`Paging.FullSwapLosesStackPage`); a stack growth over a described page keeps the flat memory
exactly when that page is writable and would come back as zeros, or never comes from its
file (`Paging.OverlayExact`, `Paging.GrowthOverSegment`); the stack limit holds exactly
while the wrapped page count stays off the sign bit and does not come out small again
(`Paging.LimitExact`, `Paging.LimitWraps`); a stack fault below the stack pointer grows the
stack to the faulting page exactly unless the pointer is inside a page and the fault in the
one below, where it takes a second fault (`Paging.FaultCovers`, `Paging.FaultAgain`); a timer tick trips the assertion in thread_yield
exactly when a due sleeper outranks the running thread (`Scheduling.Kernel.WakeSleepers`,
`Scheduling.TrippedInput`); a nice value keeps recent CPU bounded, whatever it is and
whatever the load, exactly when one second at the bounds and the highest load does, which
-20 to 20 pass for any number of threads and 21 fails for one (`Mlfqs.NiceExact`,
`Mlfqs.NiceDocumented`, `Mlfqs.NiceTooHigh`, `Mlfqs.NiceBreaksBound`); umod64 and smod64 are
right exactly when the remainder fits in 32 bits (`Arithmetic.Umod64`, `Arithmetic.Smod64`,
`Arithmetic.WideRemainderLost`); sdiv64 is right exactly when the quotient is representable
(`Arithmetic.Sdiv64`); a printf field is padded twice exactly when both kinds of padding are
in force (`Printf.FieldWidth`, `Printf.DoublePadding`, `Conversions.BothPaddings`); a made
header with a negative size is rejected when parsed (`Ustar.RoundTrip`).

Where code and comments disagree the model follows the code: `bitmap_scan` with a count of
zero returns its start, not 0; the cache's clock cursor never leaves slot 0;
`ft_alloc_frame` goes on after `ft_evict_frame` reported failure; a short file read in
`load_page` stops the kernel, because `ft_free_frame` asserts that the frame is pinned.

Clocks, the device contents, page and memory allocation answers, dump-thread timing and
executable files are parameters.  Each method of `Scheduling` is a stretch of code that
runs with interrupts off; each paging event is one atomic step.

## Model

| member | source | states |
|---|---|---|
| `Paging.VirtualMemory.Run` | vm/frame.c:101-241 | every run of loads, stores and stack growths, with the trace of where pages were: each state follows from the one before by its event (Served), the flat memory by its step, and each reply is that of the flat memory unless it is an access to a page lost or spoilt before; the pages spoilt are exactly those the flat run says; the first event to lose a page, if any, began with fewer free slots and fewer free pool pages than it asks for, and all replies before it are those of the flat memory if nothing was spoilt; a page can be lost only if slots and pool pages together are no more than the pages described and the stray slots (in use for no page out of memory) at the start plus the pages grown; a run stops early only for want of a page table, at an access outside the flat memory or to a page lost or spoilt, or at a growth out of the address space or onto a described page; and in terms of events and replies alone, each load of a page not lost or spoilt finds the byte stored last at that place, or the zero of a growth after it, or the initial byte, and each store is answered as the initial permissions and the growths say |
| `Paging.VirtualMemory.Serve` | vm/frame.c:101-241 | one event of any process: invariant kept, flat memory stepped, pages moved as Follows says, the reply of the flat memory unless the page was lost or spoilt before, which pages a growth spoils, why an event can go unanswered, and slots, pool pages and losses bounded by the pages it asks for and grows; what a step of the flat memory does to each byte is StepByte |
| `Paging.FirstLoss` | vm/frame.c:126-134 | over every run: the first event to lose a page began short of slots and of pool pages, and the replies before it are those of the flat memory unless a growth spoilt a page |
| `Paging.AccessLoses` | vm/frame.c:116-134 | an access to a page in memory, or to none, moves nothing; any other loses at most one page, another one, which was in memory and dirty or not file-backed, with no pool page and no slot free |
| `Paging.RunFlat` | userprog/process.c:898-974 | in every state of a run the flat memory and the pages spoilt are those of the flat run |
| `Paging.RunLoads` | userprog/process.c:898-921 | in every run, a load of a page not lost or spoilt before finds the byte of the last event that set it: a store to that place that was answered, or a growth that covers the page; if none did, what the memory held at the start, or no page |
| `Paging.RunStores` | userprog/process.c:898-921 | in every run, a store to a page not lost or spoilt before is answered exactly if the page was writable at the start or a growth has covered it, denied if it was read-only, and reported if there is none |
| `Paging.StepByte` | userprog/process.c:898-974 | one event, one byte: a growth that covers the page makes it zero and writable, an answered store to that place sets it, everything else keeps it |
| `Paging.StackPagesExact` | userprog/process.c:929-974 | in every state of a run a process has as many stack pages as its answered growths asked for, and those it began with |
| `Paging.RunLosses` | vm/swap.c:59-81 | over the first n events of a run, slots and pool pages used and pages lost are bounded by the pages asked for and grown |
| `Paging.VirtualMemory.Touch` | userprog/process.c:898-921 | a fault on a described page ends with the page present and, unless it was lost or spoilt before, equal to its flat contents and permission; a page in memory moves nothing; an undescribed page is reported and changes nothing |
| `Paging.VirtualMemory.UserRead` | userprog/process.c:898-921 | a user read returns the byte of the flat memory, unless the page was lost or spoilt before, and moves pages only if its page is not in memory |
| `Paging.VirtualMemory.UserWrite` | userprog/process.c:898-921 | a user write is denied on a read-only page and reported on a missing one; otherwise it puts exactly the given byte at exactly that offset of that page of the flat memory, and every other byte and permission of every process is kept |
| `Paging.VirtualMemory.LoadLazy` | userprog/process.c:898-921 | reloading succeeds exactly when a page table is available and the page is in swap or its file read is not short and stays inside the page, restores the invariant, and moves pages as Fetched says |
| `Paging.VirtualMemory.LoadPage` | userprog/process.c:800-884 | the page is filled from its slot and marked dirty, or from the file followed by as many zeros as the entry says, with what the frame held left behind them, and left clean |
| `Paging.VirtualMemory.AddStackPage` | userprog/process.c:939-966 | one round of growth on a new page adds one writable zero page to the flat memory |
| `Paging.VirtualMemory.StackGrowth` | userprog/process.c:929-974 | refused exactly when the wrapped 32-bit product reaches the limit; otherwise it goes through if every round has a page table, an address and a page that is not in memory, and only if the first two hold, and, while the pool has a free page for each round, only if all three do; then exactly the requested zero pages are added downwards, the rest is kept, pages move round by round, and exactly the pages that GrowthSpoiltExact names are spoilt |
| `Paging.FreshGrowth` | userprog/process.c:929-974 | with page tables and addresses for all its pages and none of them described, a growth meets no obstacle and spoils no page, so StackGrowth goes through |
| `Paging.VirtualMemory.OverlayPage` | userprog/process.c:948-966 | growth over a described page: stops only without a page table or if the page is in memory, and always does in the first case, and in the second while the pool has a free page; else the page reads as zeros, the table keeps the old entry, and the page is spoilt exactly when OverlayExact says so |
| `Paging.OverlayExact` | userprog/process.c:948-966 | for every state, a zero page laid over a described page gives the flat memory with a zero page there if and only if the page was writable and has no file bytes or would come back as zeros |
| `Paging.GrowthOverSegment` | userprog/process.c:948-966 | any file page that is not all zeros, described at 0xBFFFD000: after the growth it reads as zeros, and after a clean eviction as the file again |
| `Paging.GrownPages` | userprog/process.c:939-966 | a growth by n pages makes exactly the n pages below the stack zero pages and keeps every other page, entry and count |
| `Paging.GrowthSpoiltExact` | userprog/process.c:939-966 | a page is spoilt by a growth if and only if it is one of the pages grown and its own overlay breaks the flat memory, judged before the growth |
| `Paging.LimitExact` | userprog/process.c:933 | the size test agrees with the 2048-page limit if and only if the count is below it or its low 20 bits lie between the limit and 0x80000; so always below 0x80000 pages |
| `Paging.LimitWraps` | userprog/process.c:933 | a one-page stack with esp at 0x40000000 asks for 0x80000 pages and is not refused |
| `Paging.FaultLimit` | userprog/exception.c:220-229 | a stack fault asks for at most 0x80000 pages, and a stack within the limit passes it unrefused exactly when it is asked for 0x80000 pages less its own or more |
| `Paging.FaultCovers` | userprog/exception.c:220-229 | a fault grows the stack exactly 4 or 32 bytes below the stack pointer or between it and the stack; the pages asked for reach the faulting page if and only if the pointer is at a page boundary or the fault is in the page of the pointer or above |
| `Paging.FaultAgain` | userprog/exception.c:220-229 | a PUSHA at 16 bytes into a page asks for one page and still faults; the second fault asks for the page it needs |
| `Paging.VirtualMemory.LoadSegment` | userprog/process.c:721-761 | the segment's pages read as the file bytes followed by zeros, with the segment's permission; no other page changes; pages already described are left alone |
| `Paging.SegmentEntry` | userprog/process.c:721-761 | the table entry made for page j describes exactly that page of the segment image |
| `Paging.VirtualMemory.AllocFrame` | vm/frame.c:101-151 | a frame is mapped at the page: the lowest free page of the pool or, if there is none, that of a page in memory, which is evicted; every other page stays represented |
| `Paging.VirtualMemory.Recycle` | vm/frame.c:116-134 | the eviction branch takes the frame of some page in memory, and keeps ownership, contents of all pages not lost, and detached slots |
| `Paging.VirtualMemory.Install` | vm/frame.c:136-148 | installing the frame restores one owner per mapping |
| `Paging.VirtualMemory.GetLruFrame` | vm/frame.c:163-196 | the clock terminates and pins the frame that the clock algorithm names: unpinned, the first in cursor order not accessed, or the first of all if every unpinned one was accessed; exactly the frames passed lose their reference bits |
| `Paging.ClockStep` | vm/frame.c:175-195 | one turn of the clock either stops at the frame the clock algorithm names or clears one reference bit and keeps the account of the frames passed |
| `Paging.VisitsEnd` | vm/frame.c:175-195 | while an unpinned frame remains the clock has not gone round twice |
| `Paging.VirtualMemory.Evict` | vm/frame.c:206-241 | the page is unmapped and, if dirty or not file-backed, written to the lowest free slot, or lost if there is none; nothing else moves |
| `Paging.VirtualMemory.EvictPage` | vm/frame.c:206-241 | every page but one that is lost stays represented, and a page is lost exactly when it needs swap space and every slot is used; slots keep one owner |
| `Paging.EvictWeight` | vm/frame.c:206-241 | an eviction, wherever the page goes, does not add to the described pages and stray slots |
| `Paging.FullWeight` | vm/swap.c:59-81 | when every slot and every pool page is used, the described pages and stray slots are at least as many as both together, and one more while a slot is detached |
| `Paging.ResidentCount` | vm/frame.c:101-151 | a used-up pool holds as many pages as it has frames |
| `Paging.TakenLosses` | vm/frame.c:101-151 | one allocation uses at most one slot and one pool page, adds no described page and no stray slot, and loses a page only with both used up and too few of them for the described pages |
| `Paging.GrowthCount` | userprog/process.c:939-966 | over every run that does not halt, each page grown is either newly described or laid over a described one, and the two counts add up |
| `Paging.DetachedWeight` | userprog/process.c:919-922 | detaching its slot from a page about to be reloaded makes one stray slot, if it had one |
| `Paging.EvictRepresents` | vm/frame.c:206-241 | an eviction keeps the flat memory represented for every page but one that is dropped unwritten although dirty or not file-backed |
| `Paging.UnsavedEviction` | vm/frame.c:230-238 | dropping a page without saving it keeps the representation if and only if the page equals its backed file image |
| `Paging.FullSwapLosesStackPage` | vm/frame.c:126-134 | a concrete state in which ignoring the failed swap_out loses a written stack page |
| `Paging.VirtualMemory.SwapOut` | vm/swap.c:59-81 | the page goes to the lowest free slot, whose eight sectors then hold it; no other slot changes; -1 exactly when all are used |
| `Paging.VirtualMemory.SwapIn` | vm/swap.c:40-54 | the slot's eight sectors are copied to the page in order and the slot is freed |
| `Paging.OtherSlotsKept` | vm/swap.c:59-81 | the sectors of different slots do not overlap |
| `Paging.MappingsInjective` | userprog/pagedir.c:140-165 | two present pages never share a kernel page |
| `Paging.ClearOwned` | userprog/pagedir.c:185-199 | clearing a page leaves its frame as the only one without owner |
| `Paging.InstallOwned` | userprog/pagedir.c:140-165 | mapping a page to an ownerless frame restores ownership |
| `Paging.NewFrameOwned` | vm/frame.c:61-68 | inserting a frame for a free pool page keeps kernel pages unique |
| `Paging.LoadedPageOk` | userprog/process.c:816-842 | a page loaded from swap and marked dirty, or from its file and clean, is what the flat memory says |
| `Paging.VirtualMemory.constructor` | vm/swap.c:25-35 | the initial state represents the empty flat memory, with every swap slot and pool page free |
| `BufferCache.Cache.Run` | filesys/cache.c:103-158 | any sequence of reads and writes, with dumps interleaved anywhere between pin and unpin, returns what a plain disk returns, and after the final dump the device is that disk; every byte read is the one written last before, or the initial one |
| `BufferCache.PlainReads` | filesys/cache.c:103-158 | over every sequence of operations, each byte a read gives is that of the last write before it that covers the byte, or the initial one |
| `BufferCache.Cache.ReadSector` | filesys/cache.c:131-158 | a read returns exactly the asked number of bytes, those of the logical disk from the offset on |
| `BufferCache.Cache.WriteSector` | filesys/cache.c:103-129 | the bytes given are at the offset of that sector of the logical disk afterwards, and every other byte is as it was |
| `BufferCache.Cache.DumpAll` | filesys/cache.c:202-207 | afterwards the device equals the logical disk |
| `BufferCache.Cache.DumpEntry` | filesys/cache.c:209-218 | one slot's dirty data goes to its sector and the slot becomes clean, at any time |
| `BufferCache.Cache.Lru` | filesys/cache.c:229-248 | within two sweeps the clock returns a slot that is not present, the first such, or an unpinned one when all are present |
| `BufferCache.Cache.Evict` | filesys/cache.c:290-298 | the victim is written back and vacated with the invariant for all other slots kept |
| `BufferCache.Cache.Lookup` | filesys/cache.c:300-310 | although `present` is ignored, a hit is the only slot holding the sector or an unused slot that is safe to fill |
| `BufferCache.Cache.Pin` | filesys/cache.c:300-320 | the pinned slot holds the sector's logical contents, or is marked for filling and no other slot has the sector |
| `BufferCache.Cache.Unpin` | filesys/cache.c:322-330 | writing the record back restores the invariant |
| `BufferCache.Cache.Fill` | filesys/cache.c:332-334 | reading the device fills the slot with the logical contents |
| `BufferCache.Cache.constructor` | filesys/cache.c:160-177 | the empty cache represents the device |
| `BufferCache.LogicalDetermined` | filesys/cache.c:300-330 | the slots and the device determine the logical disk: no sector can be in two slots with different contents |
| `BufferCache.DumpedPinned` | filesys/cache.c:209-218 | a dump between pin and unpin keeps every stage of the access |
| `BufferCache.TakeSlot` | filesys/cache.c:300-320 | a clean or matching slot can be set aside without losing data |
| `BufferCache.Settle` | filesys/cache.c:322-330 | putting the slot back completes the access |
| `Inodes.ReadAt` | filesys/inode.c:333-394 | returns exactly the bytes of the file from the offset, as many as requested and available |
| `Inodes.WriteAt` | filesys/inode.c:400-516 | writes exactly the bytes that fit below the file length, none if writes are denied, and changes no other byte of the device |
| `Inodes.OverwriteInFile` | filesys/inode.c:400-516 | in the file, exactly the bytes at the offset are replaced |
| `Inodes.OverwriteOutsideFile` | filesys/inode.c:400-516 | a file that shares no sector is unchanged |
| `Inodes.ChunkProgress` | filesys/inode.c:341-357 | each chunk stays in one sector, and the loop stops exactly when everything transferable is done |
| `Inodes.ChunkOfFile` | filesys/inode.c:91-105 | byte_to_sector maps a chunk of the file to its sector bytes |
| `Inodes.Create` | filesys/inode.c:127-192 | on success the inode sector holds the new inode, the data sectors are zero and nothing else changed; on failure nothing changed; the data sectors are the fewest that hold the length |
| `Inodes.SectorsExact` | filesys/inode.c:82-85 | the number of sectors is the least that holds the length |
| `Inodes.CreatedFile` | filesys/inode.c:127-192 | a created file opens with the requested length and reads as zeros |
| `Inodes.OpenAfterCreate` | filesys/inode.c:197-236 | opening undoes creating |
| `Inodes.Open` | filesys/inode.c:216-236 | opening reads the inode of the logical disk through the cache, whatever is dumped meanwhile |
| `Inodes.WordRoundTrip` | filesys/inode.c:197-236 | words survive the trip through the sector |
| `Scheduling.Kernel.Run` | threads/synch.c:60-274 | over every interleaving of steps, a trace of states: each keeps the invariants and follows from the one before by its step with the listed effect; each semaphore is its initial value plus ups minus completed downs and each lock balances; the run stops exactly at the first timer tick that trips the assertion in thread_yield; and every step obeys the laws of preemption, priorities, carried priorities, ticks and sleep that RunLaws states |
| `Scheduling.Kernel.Perform` | threads/synch.c:60-274 | one step, with a thread in a retry loop testing its condition first: invariants kept, and the whole state afterwards (threads, queues, arrival stamps, running thread, values, holders, bounties) is the one that step demands; it obeys the laws of RunLaws |
| `Scheduling.RunLaws` | threads/synch.c:60-274 | every step of every run obeys the laws of the next rows |
| `Scheduling.MovesServed` | threads/thread.c:340-359 | in any step, outside mlfqs and idle, a thread that becomes ready and does not run is no higher than the one that does; an up, a release or a creation changes the running thread exactly if it readies a higher one |
| `Scheduling.MovesLaw` | threads/synch.c:187-274 | in any step a thread keeps base and current priority unless it sets its own, its priority is recomputed, it holds the lock a higher thread meets (then it has that priority), or it releases the lock its priority came from (then it has the highest of its base and what its other locks carry) |
| `Scheduling.MovesBounty` | threads/synch.c:187-274 | in any step the priority a lock carries is the priority of the thread that just donated through it, none after its release, and otherwise unchanged |
| `Scheduling.TickedLaw` | threads/thread.c:848-864 | a tick readies exactly the sleepers whose time has come and changes nothing else of any thread |
| `Scheduling.SleptLaw` | threads/thread.c:828-834 | the sleeper is blocked until the time it gave, and another thread runs |
| `Scheduling.PreemptedMeaning` | threads/thread.c:355-358 | what readying one thread does to the running thread, in priorities |
| `Scheduling.PrioritySetMeaning` | threads/thread.c:489-506 | what setting a priority does to the priorities of all threads and to the running thread |
| `Scheduling.MovesEffect` | threads/synch.c:60-274 | whatever the step, semaphore values and lock holders change by its effect and not otherwise |
| `Scheduling.RunBalanced` | threads/synch.c:60-274 | from the start of a run to any of its states each semaphore and each lock balances |
| `Scheduling.RunDispatch` | threads/thread.c:799-811 | whenever a step of a run changes the running thread, no ready thread outranks the new one |
| `Scheduling.Kernel.SemaDown` | threads/synch.c:60-75 | takes a unit exactly when there is one, else the thread goes to the back of the wait list and the next thread runs |
| `Scheduling.Kernel.SemaTryDown` | threads/synch.c:83-98 | takes a unit exactly when there is one, without waiting |
| `Scheduling.Kernel.SemaUp` | threads/synch.c:104-122 | adds a unit; if anybody waits, the wait list is sorted and its first waiter of the highest priority is readied; the running thread changes exactly if, outside mlfqs and idle, the readied thread has a higher priority, and then the readied thread is not above the one that runs |
| `Scheduling.Kernel.LockAcquire` | threads/synch.c:187-215 | the lock is taken exactly when free; otherwise a lower holder is promoted and the thread waits, the best thread running next |
| `Scheduling.Kernel.LockTryAcquire` | threads/synch.c:223-243 | the lock is taken exactly when free, without waiting |
| `Scheduling.Kernel.LockRelease` | threads/synch.c:250-274 | the lock becomes free, a donated priority is given back, the best waiter is woken; the running thread changes exactly if, outside mlfqs and idle, the waiter has a higher priority than the releaser has left |
| `Scheduling.Kernel.Donate` | threads/synch.c:198-202 | a lower-priority holder is promoted to the waiter's priority |
| `Scheduling.Kernel.Promote` | threads/thread.c:515-528 | a promoted thread moves to its new ready list, or is forced off whatever it waits on and made ready, and no wake-up is lost |
| `Scheduling.Kernel.Reprioritize` | threads/thread.c:372-402 | a recomputed priority moves a ready thread to the back of its new list and leaves any other thread where it is |
| `Scheduling.Kernel.SetPriority` | threads/thread.c:489-506 | the base priority is the new one; a donated priority stays in force and the thread goes on; otherwise the new one is in force and the best ready thread runs; no other thread changes its priority |
| `Scheduling.Kernel.NextThread` | threads/thread.c:728-746 | the longest-queued thread of the highest non-empty level, or idle when all are empty |
| `Scheduling.Kernel.Schedule` | threads/thread.c:799-811 | exactly that thread becomes the running one and leaves its ready list, and no ready thread outranks it |
| `Scheduling.Kernel.Yield` | threads/thread.c:456-472 | the running thread goes to the back of its level and the next one runs |
| `Scheduling.Kernel.Preempt` | threads/thread.c:340-359 | the running thread changes exactly if, outside mlfqs and idle, the readied thread has the higher priority; then that thread or one no lower runs |
| `Scheduling.Kernel.BlockOn` | threads/thread.c:296-308 | the blocked thread is on exactly its wait list |
| `Scheduling.Kernel.SleepUntil` | threads/thread.c:828-834 | the sleeper is blocked until the given time, enters the sleep list in wake-up order, and the next thread runs |
| `Scheduling.Kernel.WakeSleepers` | threads/thread.c:848-864 | exactly the threads whose time has come are readied, each at the back of its ready list in wake-up order, and nothing else changes; fails exactly when, outside mlfqs and idle, a due sleeper outranks the running thread |
| `Scheduling.AwokenFirst` | threads/thread.c:848-864 | waking the first due sleeper and then the due ones of the rest is waking all that are due |
| `Scheduling.TrippedInput` | threads/thread.c:848-864 | a valid state with a due sleeper of priority 40 and a running thread of priority 31, at which the tick stops the kernel |
| `Scheduling.Kernel.Create` | threads/thread.c:176-222 | the new thread has the given priority, is at the back of its ready list, and the running thread changes exactly if, outside mlfqs and idle, the new one has the higher priority |
| `Scheduling.Kernel.Exit` | threads/thread.c:429-452 | the thread is gone and the next one runs |
| `Scheduling.Kernel.Become` | threads/thread.c:553-565 | every state change keeps each thread on exactly its home queue, queues in arrival order and the sleep list in wake-up order |
| `Scheduling.Kernel.constructor` | threads/thread.c:98-131 | the initial state satisfies the invariants |
| `Scheduling.Unlink` | lib/kernel/list.c:249-255 | removing a thread from its queue leaves every other thread on its home queue |
| `Scheduling.Link` | lib/kernel/list.c:169-178 | inserting a thread into its home queue keeps every thread on one queue |
| `Scheduling.MovedPlaced` | threads/thread.c:553-565 | a thread that changes state ends on its new home queue and no other |
| `Scheduling.MovedFifo` | threads/thread.c:456-472 | ready lists stay in arrival order |
| `Scheduling.WakeupsKept` | threads/synch.c:60-274 | which changes of threads, queues, values and holders lose no wake-up |
| `Scheduling.MovedWakeups` | threads/thread.c:553-565 | a state change, forced wake-ups included, loses no wake-up |
| `Scheduling.WokenCounts` | threads/synch.c:114-119 | a woken waiter adds one to the readied waiters of its semaphore |
| `Scheduling.UnitAdded` | threads/synch.c:112-119 | one more unit is safe when nobody waits or one more waiter is ready for it |
| `Scheduling.TakeUnit` | threads/synch.c:68-73 | taking a unit and leaving the loop keep units and readied waiters balanced |
| `Scheduling.FrontIsBest` | threads/synch.c:116-117 | after sorting, the front of the wait list is the first waiter of the highest priority |
| `Scheduling.NextIsHighest` | threads/thread.c:728-746 | no ready thread has a higher priority than the chosen one |
| `Scheduling.NextIsTop` | threads/thread.c:728-746 | no thread that stays ready outranks the chosen one, and none is ready if the idle thread is chosen |
| `Scheduling.GrantLock` | threads/synch.c:210-212 | acquiring keeps owned_locks equal to the set of held locks |
| `Scheduling.RevokeLock` | threads/synch.c:259-260 | releasing keeps owned_locks equal to the set of held locks |
| `FixedPoint.RoundsToNearest` | lib/kernel/fixed_point.c:36-38 | the result is within half a unit of the argument |
| `FixedPoint.RoundTrip` | lib/kernel/fixed_point.c:18-38 | converting an int to fixed point and back gives the int |
| `Mlfqs.Accounting.Run` | devices/timer.c:155-176 | over every run of ticks and thread events the accounts are those of the event-by-event specification; load in [0, N], nice values that NiceExact admits, recent CPU in [-20(2N+1), 240N+20] plus one unit per tick since the last second, priorities in 0..63, no overflow; after every event, load, recent CPUs and priorities are the numbers RunMeaning names |
| `Mlfqs.AfterAll` | devices/timer.c:155-176 | the accounts specified for a run are within bounds after each of its events; what those numbers are is RunMeaning |
| `Mlfqs.RunMeaning` | devices/timer.c:155-176 | over every run, after every event: what load, recent CPU and priorities are in terms of those before, as numbers, and that nothing else changes |
| `Mlfqs.PriorityMeaning` | threads/thread.c:385-391 | the priority is within rounding of 63 - recent / 4 - 2 nice, and 0 or 63 for exactly the recent CPUs from which that value, rounded to nearest, is at or past the end of the scale |
| `Mlfqs.PriorityWhole` | threads/thread.c:385-391 | no rounding where recent CPU is a multiple of 4 on the scale |
| `Mlfqs.LoadMeaning` | threads/thread.c:361-370 | the load is (59 load + active) / 60 rounded down |
| `Mlfqs.RecentMeaning` | threads/thread.c:379-382 | recent CPU is 2 load / (2 load + 1) of itself plus nice, with the error of two truncations |
| `Mlfqs.CountMeaning` | threads/thread.c:316-330 | the count taken is the size of the set of active threads |
| `Mlfqs.TickBounded` | devices/timer.c:161-175 | a tick keeps the bounds, with one more unit of recent CPU allowed until the next second, and does not overflow |
| `Mlfqs.Accounting.Timer` | devices/timer.c:155-176 | whatever the nice values, unless a result overflows: the running thread is charged one unit; each second the load is (59 load + active) / 60, every recent CPU 2 load / (2 load + 1) of itself plus nice, every priority 63 - recent / 4 - 2 nice cut to the scale, all within rounding; every fourth tick the running thread has that priority; nothing else changes; the bounds are kept |
| `Mlfqs.Accounting.EverySecond` | threads/thread.c:361-402 | the load average, every recent CPU and every priority are the numbers that the formulas of the source give, within rounding |
| `Mlfqs.SecondBounded` | threads/thread.c:361-402 | a second keeps the load average within [0, N] and brings every thread back inside the bounds, without overflow |
| `Mlfqs.Accounting.ReadyThreads` | threads/thread.c:316-330 | the number of active threads |
| `Mlfqs.Accounting.Spawn` | threads/thread.c:693-700 | a new thread inherits nice and recent CPU and has the priority 63 - recent / 4 - 2 nice, cut to the scale |
| `Mlfqs.Accounting.SetNice` | threads/thread.c:578-581 | only the nice value changes, any value is taken, and the bounds survive exactly if it is one that NiceExact admits |
| `Mlfqs.NiceExact` | threads/thread.c:379-382 | a nice value keeps the recent CPU of a second within bounds for every load and every recent CPU in bounds if and only if it does so at the highest load from the two bounds |
| `Mlfqs.NiceDocumented` | threads/thread.c:379-382 | -20 to 20 do, for any number of threads |
| `Mlfqs.NiceTooHigh` | threads/thread.c:578-581 | 21, which thread_set_nice takes, does not: one thread at the upper bound and load 1 ends above it |
| `Mlfqs.NiceBreaksBound` | threads/thread.c:578-581 | from the initial state with nice set to 21 there is a run of timer ticks, without overflow, after which the recent CPU of the one thread is above the bound |
| `Mlfqs.DecayMonotone` | threads/thread.c:379-382 | a higher load decays recent CPU less |
| `Mlfqs.LoadBounded` | threads/thread.c:361-370 | the load average never leaves [0, N] |
| `Mlfqs.DecayBound` | threads/thread.c:379-382 | the decay factor is at most 2N / (2N + 1) |
| `Mlfqs.RecentBounded` | threads/thread.c:379-382 | one second's decay brings recent CPU back inside its bounds, for every nice value that fits |
| `Mlfqs.PriorityAntitone` | threads/thread.c:385-391 | more CPU use or a higher nice never raises a priority |
| `LinkedList.List.Sort` | lib/kernel/list.c:405-440 | the linked list stays well formed and its contents become the stable sort of what they were |
| `LinkedList.List.SortPass` | lib/kernel/list.c:418-436 | one pass merges the runs pairwise and counts those it puts out |
| `LinkedList.List.InplaceMerge` | lib/kernel/list.c:380-399 | the two adjacent ranges become their stable merge, by relinking |
| `LinkedList.List.FindEndOfRun` | lib/kernel/list.c:358-372 | finds the end of the maximal nondecreasing run |
| `LinkedList.List.Splice` | lib/kernel/list.c:184-204 | the range moves, in order, before the earlier element; links stay consistent in both directions |
| `LinkedList.List.Insert` | lib/kernel/list.c:169-178 | the element is linked in before the given one |
| `LinkedList.List.Remove` | lib/kernel/list.c:249-255 | the element is unlinked and its successor returned |
| `LinkedList.List.Reverse` | lib/kernel/list.c:326-337 | the list is reversed in place |
| `LinkedList.RunIsSorted` | lib/kernel/list.c:358-372 | a run is sorted |
| `LinkedList.RunEndsAtDescent` | lib/kernel/list.c:358-372 | a run that ends before the range does ends at a descent |
| `LinkedList.MergeStable` | lib/kernel/list.c:380-399 | merging keeps equivalent elements in order |
| `LinkedList.MergeSorted` | lib/kernel/list.c:380-399 | merging two sorted ranges gives a sorted range |
| `LinkedList.PassStable` | lib/kernel/list.c:418-436 | a whole pass is stable |
| `LinkedList.PassProgress` | lib/kernel/list.c:412-437 | a pass that puts out one run has sorted the list, and any other strictly reduces the descents |
| `LinkedList.PassLeavesDescents` | lib/kernel/list.c:418-436 | a pass that puts out r runs leaves at most r - 1 descents |
| `LinkedList.PassConsumesDescents` | lib/kernel/list.c:418-436 | a pass that puts out r runs found at least 2r - 2 descents |
| `StableOrder.SortedStableUnique` | lib/kernel/list.c:402-405 | sorted and stable determines the result of a sort |
| `StableOrder.StableSortCorrect` | lib/kernel/list.c:402-405 | the reference sort is sorted and stable |
| `Malloc.Heap.Run` | threads/malloc.c:89-264 | over every run of allocations and frees, a trace of heaps: each is in order with no two blocks overlapping, and each request is answered and changes arenas, free lists and the blocks held as Step demands; how many blocks a page is cut into is ArenaFilled |
| `Malloc.Heap.Serve` | threads/malloc.c:89-264 | one request: exactly the freed block leaves the blocks held, or a new one joins unless the size is 0 or a page is needed and not granted; the new block is the front of the free list of the smallest descriptor, the first block of the granted page, or all of it; a freed block goes to the front of its list; a page joins exactly when needed and granted, leaves exactly when its last block does, and keeps its descriptor in between; what the list then holds is GotFilled |
| `Malloc.Heap.Malloc` | threads/malloc.c:89-154 | the new block is not live, holds the request and disturbs no other, and is the front of the free list of the smallest descriptor large enough, filled from the granted page if empty, or the granted pages; null exactly for size 0 or when a page is needed, because no descriptor is large enough or the smallest that is has no free block, and refused; the granted page is used exactly when needed; if the list was empty, block and list together are all the blocks that fit on the granted page |
| `Malloc.Heap.Free` | threads/malloc.c:218-264 | the block is no longer live and is at the front of its free list, or its page and all the blocks on it are gone, which happens exactly when it was the last live block there |
| `Malloc.Heap.FindDesc` | threads/malloc.c:100-105 | the smallest descriptor that satisfies the request |
| `Malloc.Heap.FillArena` | threads/malloc.c:122-143 | a new arena is counted and its free list holds exactly the blocks that fit: each position behind the header at a multiple of the block size whose block ends inside the page, in order |
| `Malloc.ArenaFilled` | threads/malloc.c:81 | the blocks of an arena fit behind its header, and one more would not |
| `Malloc.ArenaCounts` | threads/malloc.c:81 | 255 blocks of 16 bytes, down to 3 of 1024 |
| `Malloc.GotFilled` | threads/malloc.c:122-143 | a request that needed a page leaves one block fewer on the list than the page holds |
| `Malloc.ListServes` | threads/malloc.c:89-154 | over every run of requests of one class without a page granted, exactly as many are served as blocks were listed |
| `Malloc.Heap.TakeFirst` | threads/malloc.c:145-150 | the front block leaves the list and the count |
| `Malloc.Heap.DropArena` | threads/malloc.c:237-250 | an unused arena's blocks leave the free list and no live block was in it |
| `Malloc.Heap.constructor` | threads/malloc.c:71-85 | the initial heap is valid, with descriptors 16 to 1024 |
| `Malloc.Descriptors` | threads/malloc.c:71-85 | seven descriptors, doubling from 16 to 1024 |
| `Malloc.BlockToArena` | threads/malloc.c:267-294 | block_to_arena inverts arena_to_block, and a block lies inside its page after the header |
| `Malloc.LiveDisjoint` | threads/malloc.c:89-264 | live blocks never overlap, whatever sizes they have |
| `Malloc.PopKeeps` | threads/malloc.c:145-150 | handing out a block keeps the partition of slots and the count |
| `Malloc.PushKeeps` | threads/malloc.c:233-237 | taking a block back keeps the partition of slots and the count |
| `Malloc.FullArena` | threads/malloc.c:237-243 | when the count reaches the block count, every block is on the list and none is live |
| `Malloc.PartlyLive` | threads/malloc.c:237-243 | when it does not, some block of the arena is live |
| `Malloc.BigKeeps` | threads/malloc.c:106-122 | a big block fills the pages of its own arena |
| `Palloc.PageAllocator.Run` | threads/palloc.c:70-142 | over every run the bits of both pools and the groups held are those of first fit, so groups are disjoint, inside one pool, and exactly the set bits |
| `Palloc.PageAllocator.Serve` | threads/palloc.c:70-142 | one request: the lowest fitting group joins the groups held, if there is one, or exactly the freed pages leave them |
| `Palloc.PageAllocator.GetMultiple` | threads/palloc.c:70-101 | the lowest group of free pages of the chosen pool, whose bits and no others are set, or none exactly when there is no such group |
| `Palloc.PageAllocator.FreeMultiple` | threads/palloc.c:117-142 | exactly the bits of the freed pages are cleared; nothing happens for no pages |
| `Palloc.PageAllocator.constructor` | threads/palloc.c:45-62 | two disjoint pools inside free memory: the user pool starts where its share does, the lesser of half the pages and the limit; each pool is behind just as many pages as its bitmap needs; nothing is allocated |
| `Palloc.BitmapPagesExact` | threads/palloc.c:151-168 | the pages set aside for a bitmap are the fewest that hold it |
| `Palloc.TakeBits` | threads/palloc.c:80-82 | setting a run of clear bits hands out exactly those pages |
| `Palloc.ClearApart` | threads/palloc.c:80-82 | a run of clear bits overlaps no group held |
| `Palloc.LowestRunUnique` | lib/kernel/bitmap.c:296-311 | what the bitmap scan finds is the first fit |
| `Palloc.DropBits` | threads/palloc.c:134-141 | the bits of a group held are all set, and clearing some frees exactly those pages |
| `Palloc.FreedPages` | threads/palloc.c:117-142 | freeing part of a group takes exactly those pages out of the groups held |
| `Palloc.After` | threads/palloc.c:70-142 | each request keeps the groups disjoint, inside one pool, and exactly the set bits |
| `Bitmaps.Bitmap.ScanAndFlip` | lib/kernel/bitmap.c:320-327 | flips the lowest fitting run and nothing else, or nothing |
| `Bitmaps.Bitmap.Scan` | lib/kernel/bitmap.c:296-311 | the lowest run of the wanted bits at or after start, or none exactly when there is none |
| `Bitmaps.Bitmap.Contains` | lib/kernel/bitmap.c:251-264 | whether any bit of the range has the value |
| `Bitmaps.Bitmap.SetMultiple` | lib/kernel/bitmap.c:218-229 | exactly the bits of the range take the value, all others are kept |
| `Bitmaps.Bitmap.Mark` | lib/kernel/bitmap.c:157-167 | or with the mask sets that bit of the sequence and no other |
| `Bitmaps.Bitmap.Reset` | lib/kernel/bitmap.c:170-180 | and with the complement clears that bit and no other |
| `Bitmaps.Bitmap.Flip` | lib/kernel/bitmap.c:185-195 | exclusive or toggles that bit and no other |
| `Bitmaps.Bitmap.Test` | lib/kernel/bitmap.c:198-204 | and with the mask reads that bit |
| `Bitmaps.Bitmap.constructor` | lib/kernel/bitmap.c:99-110 | all bits false |
| `Bitmaps.OneBit` | lib/kernel/bitmap.c:35-54 | changing one bit of one word changes one bit of the bitmap |
| `HashTable.Table.Run` | lib/kernel/hash.c:98-154 | any sequence of operations behaves as on a keyed set, whether or not rehashing finds memory, and the element count is exact |
| `HashTable.Table.Insert` | lib/kernel/hash.c:98-110 | adds the element unless an equal one is present, which is returned |
| `HashTable.Table.Replace` | lib/kernel/hash.c:114-127 | the element takes the place of an equal one, which is returned |
| `HashTable.Table.Find` | lib/kernel/hash.c:131-135 | returns the equal element exactly when there is one |
| `HashTable.Table.Delete` | lib/kernel/hash.c:144-154 | removes and returns the equal element, if any |
| `HashTable.Table.Rehash` | lib/kernel/hash.c:351-413 | the contents stay; the bucket count becomes the largest power of two not above max(4, n / 2) when memory is found |
| `HashTable.Table.Next` | lib/kernel/hash.c:218-235 | the cursor advances over exactly one element of what is left, skipping empty buckets |
| `HashTable.Table.Iterate` | lib/kernel/hash.c:199-235 | iteration visits every element exactly once |
| `HashTable.Table.constructor` | lib/kernel/hash.c:24-42 | an empty table, usable exactly if its buckets could be allocated |
| `HashTable.Redistribute` | lib/kernel/hash.c:388-408 | moving every element gives a table with the same contents |
| `HashTable.IdealBuckets` | lib/kernel/hash.c:366-375 | turning off low bits ends at the largest power of two |
| `HashTable.IndexInRange` | lib/kernel/hash.c:305-310 | masking with a power of two less one is the remainder |
| `HashTable.LeastOffLargest` | lib/kernel/hash.c:329-340 | is_power_of_2 holds exactly for powers of two, and clearing the lowest bit keeps the highest |
| `HashTable.IterationExact` | lib/kernel/hash.c:199-235 | the buckets in order list each element of the set once |
| `Arithmetic.Udiv64` | lib/arithmetic.c:77-127 | the floor quotient for all 64-bit n and nonzero d, with DIVL never trapping |
| `Arithmetic.Nlz` | lib/arithmetic.c:41-73 | shifting by the result puts the highest set bit at bit 31 |
| `Arithmetic.TwoStep` | lib/arithmetic.c:80-110 | dividing the high word first gives the quotient, and the second division does not trap |
| `Arithmetic.Normalised` | lib/arithmetic.c:119-121 | normalising the divisor loses no bits |
| `Arithmetic.Estimate` | lib/arithmetic.c:119-122 | the estimate is the quotient or one more |
| `Arithmetic.ChooseQuotient` | lib/arithmetic.c:123 | the final comparison picks the quotient, without wrap-around |
| `Arithmetic.Umod64` | lib/arithmetic.c:131-135 | the remainder modulo 2^32, so the remainder exactly when it fits |
| `Arithmetic.Sdiv64` | lib/arithmetic.c:139-146 | truncation toward zero, exactly except for the least number divided by -1 |
| `Arithmetic.Smod64` | lib/arithmetic.c:150-154 | the C remainder exactly when it fits in 32 bits |
| `Arithmetic.WideRemainderLost` | lib/arithmetic.c:131-135 | a remainder of 2^32 comes out as 0 |
| `Arithmetic.TruncatedMeaning` | lib/arithmetic.c:137-154 | the truncated quotient leaves a remainder smaller than the divisor with the sign of n |
| `HeapSort.Sort` | lib/stdlib.c:131-152 | the array becomes an ordered permutation of itself for any total preorder |
| `HeapSort.BuildHeap` | lib/stdlib.c:143-145 | building bottom up gives a heap and a permutation |
| `HeapSort.Heapify` | lib/stdlib.c:96-123 | the element floats down until the heap property holds from its position on; only the first n elements are permuted |
| `HeapSort.ExtractRoot` | lib/stdlib.c:148-152 | the root joins the sorted suffix and the rest is a heap again |
| `HeapSort.SiftDown` | lib/stdlib.c:106-121 | swapping with the larger child moves the exception one level down |
| `HeapSort.RootLargest` | lib/stdlib.c:148-152 | the root of a heap is its largest element |
| `HeapSort.BinarySearch` | lib/stdlib.c:184-207 | on an ordered array, finds a match exactly when one exists |
| `Printf.AtoiInverts` | lib/stdio.c:469-547 | atoi of any %d conversion without grouping is the value, for all flags, widths and precisions |
| `Printf.FormatInteger` | lib/stdio.c:469-547 | the output is padding, sign, prefix, zeros and digits as specified |
| `Printf.FillBuffer` | lib/stdio.c:501-521 | no store goes past the 64-byte digit buffer |
| `Printf.BufferFits` | lib/stdio.c:501-521 | digits, separators, precision zeros and the octal zero of any 64-bit value fit in 64 bytes |
| `Printf.FoldDigits` | lib/stdio.c:503-511 | reading the digits of a value gives the value |
| `Printf.FieldWidth` | lib/stdio.c:523-546 | the field is never shorter than asked, and longer than needed exactly when both paddings are in force |
| `Printf.FieldPlacement` | lib/stdio.c:526-546 | padding is blanks on the left, or on the right after -, or zeros between sign and digits after 0 (with blanks on the right as well if - is in force too), as many as the width lacks, and the rest is the conversion without a width |
| `Printf.SignPlacement` | lib/stdio.c:482-494 | a signed conversion is the unsigned one behind a minus, a plus, a blank or nothing, as value and flags say |
| `Printf.DigitCount` | lib/stdio.c:515-522 | as many digits as the value has or the precision asks for, up to 63, and at least one if it does not say |
| `Printf.OctalMark` | lib/stdio.c:518-524 | # puts one zero in front of an octal conversion exactly if it does not begin with one |
| `Printf.Grouping` | lib/stdio.c:501-513 | with grouping, the digits are those without it, in order, and a comma is before every third one counted from the right (every group of the base), and nowhere else |
| `Printf.DoublePadding` | lib/stdio.c:523-546 | a conversion of width 5 that puts out nine characters |
| `Printf.Atoi` | lib/stdlib.c:9-41 | the value of the leading number; no intermediate result overflows for a number in range |
| `Conversions.ParseConversion` | lib/stdio.c:339-460 | flags, width, precision, size and end position of a specification, with star arguments |
| `Conversions.SpecRoundTrip` | lib/stdio.c:339-460 | every normalised conversion of every argument type is read back from its text, size letters included |
| `Conversions.BothPaddings` | lib/stdio.c:371-393 | both paddings are in force exactly after 0 without -, a negative star width and no precision |
| `Conversions.Snprintf` | lib/stdio.c:25-52 | the text is cut to leave room for the terminator, its full length is returned, and nothing else is written |
| `Ustar.RoundTrip` | lib/ustar.c:82-227 | parsing a made header gives the stripped name, type and size; size 0 for a directory; a negative size is rejected |
| `Ustar.MakeHeader` | lib/ustar.c:82-118 | fails exactly when the stripped name exceeds 99 bytes, else the header parses back to name, type and size |
| `Ustar.ParseHeader` | lib/ustar.c:181-227 | the checks in their order; what is accepted is what ParsedExact says |
| `Ustar.ParsedExact` | lib/ustar.c:181-227 | a header is accepted as an entry if and only if magic, version, checksum, name terminator, prefix, type and size field all say so, and the name is the stripped one |
| `Ustar.DamageNoticed` | lib/ustar.c:199-206 | an accepted header with one byte changed outside the checksum field is no longer accepted as an entry |
| `Ustar.StrippedSafe` | lib/ustar.c:65-73 | a stripped name has no antisocial prefix, is neither empty nor "..", and stripping is idempotent |
| `Ustar.StrippedSuffix` | lib/ustar.c:56-73 | what is left is a suffix of the name or "." |
| `Ustar.StripAntisocialPrefixes` | lib/ustar.c:65-73 | the loop terminates with the name from the first component that does not lead out of the directory, or "." if that is empty or ".." |
| `Ustar.StrippedExact` | lib/ustar.c:56-73 | stripping gives the name from its first safe component: every component start before it is a slash, "./" or "../"; "." if nothing or ".." is left |
| `Ustar.SafePart` | lib/ustar.c:56-73 | every name has such a component |
| `Ustar.SafeUnchanged` | lib/ustar.c:65-73 | a name that does not begin with a slash, "./" or "../" and is not empty or ".." is kept |
| `Ustar.OctalPrinted` | lib/ustar.c:103-115 | "%0<width>o" prints the octal numeral with exactly that many digits |
| `Ustar.OctalSpec` | lib/ustar.c:103-115 | "07" and "011" are the specifications of those numerals, and parse back to them |
| `Ustar.OctalReads` | lib/ustar.c:129-162 | digits and a terminator parse to their value, if that is an unsigned long |
| `Ustar.ParseOctalField` | lib/ustar.c:129-162 | the number written by the leading octal digits, if there are some, a blank or a null follows them and the number fits an unsigned long; no number otherwise |
| `Ustar.OctalExact` | lib/ustar.c:129-162 | the value is that of the whole run of leading digits, and there is one exactly if it is followed by a terminator, not empty and not too large |
| `Ustar.CalculateChksum` | lib/ustar.c:36-54 | the byte sum with spaces for the checksum field |
| `Ustar.ChecksumOneByte` | lib/ustar.c:36-54 | changing one byte outside the field changes the checksum by the difference of the bytes; inside, not at all |
| `Ustar.ChecksumOfNulls` | lib/ustar.c:36-54 | the checksum of a header of zeros is that of eight blanks |
| `Ustar.ChecksumIgnoresField` | lib/ustar.c:36-54 | the checksum does not depend on the checksum field |
| `Ustar.SumFits` | lib/ustar.c:115 | the checksum of a header fits in its seven digits |
| `Ustar.HeaderReads` | lib/ustar.c:99-115 | every field the parser looks at reads back as stored |

## Left out

- Paging.VirtualMemory.Run: processes are not created or destroyed and their executables do not change, because exit and pagedir_destroy would only add easy members.
- Paging.VirtualMemory.Run: memory-mapped files (slot -2) are not modelled, because adjacent mappings are ambiguous in the code.
- Paging.VirtualMemory.StackGrowth: when the pool runs out during a growth over a page that is in memory, whether it goes through depends on whether the clock recycles that page's own frame; both outcomes are allowed there.
- Paging.VirtualMemory.Run: a page that was lost or spoilt once is excepted for good, even where a later growth or store would make it right again; and which page the clock evicts is left open in the trace.
- Paging.VirtualMemory.LoadLazy: as for LoadPage, an entry whose byte counts exceed a page stops the model.
- Paging.VirtualMemory.OverlayPage: with the pool used up, a page in memory may go either way, as for StackGrowth.
- Paging.VirtualMemory.LoadPage: an entry whose byte counts exceed a page stops the model, where the code would clear past the frame; that needs a stack page lost before and an unset count above 4096.
- Paging.VirtualMemory.GetLruFrame: the cursor moves over positions of the frame table; its movement when a frame is removed is not modelled, because removal happens only on exit.
- Paging.VirtualMemory.AllocFrame: frames pinned by system calls, and a process that is exiting while its frame is chosen, are not modelled; a page table that cannot be provided stops the run.
- BufferCache.Cache.Run: one client and the dump thread; two concurrent clients and read-ahead are not modelled, because unpinning writes back a stale record.
- Inodes.Open: the list of open inodes, with its counts, is not modelled.
- Inodes.WriteAt: files have a fixed length; the extending variant is not compiled in this configuration.
- LinkedList.List.Splice: the destination is an earlier position of the same list, which is how list_sort uses it.
- Scheduling.Kernel.Exit: a thread exits holding no lock; the code does not release locks on exit.
- Scheduling.Kernel.SetPriority: priorities above 63 are not accepted; the code does not check and would index past its ready lists.
- Scheduling.Kernel.GiveBack: wakes the waiter before it clears the holder, which cannot be observed with interrupts off.
- Scheduling.Kernel.Donate: no claim that a holder is always at least as high as its waiters, because the code does not ensure it.
- Mlfqs.Accounting.Run: thread_set_nice calls with values that NiceExact excludes are left out of runs.
- Malloc.Heap.Malloc: sizes are unbounded integers, so requests near SIZE_MAX do not wrap; calloc and realloc are left out.
- Arithmetic.Sdiv64: the negation of the least number when it is divided by 1, a signed overflow in C, wraps around.
- Conversions.ParseConversion: widths and precisions are unbounded integers, where an int overflows.
- HashTable: hash_clear and the FNV hash functions are left out.
- Printf.FormatInteger: strings, characters and pointers are left out.
- Condition variables, directories and paths, file descriptors, system calls, program arguments, process waiting.
- Context switches, interrupts in the middle of a stretch with interrupts off, device drivers, console, tests.
