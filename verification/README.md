# Kernel memory managers and locks in Dafny

A Dafny 4.11 model of the hard parts of an x86-64 kernel, with proofs. `dafny verify dfyconfig.toml`
checks all of it. Code that changes objects in place is modelled by classes, arrays and loops;
code that many processors run at once is modelled as step systems whose every interleaving is
covered.

## What is modelled

**Virtual regions** (`RegionTree`, `KernelVma`, `UserSpace`, `UserFault`). The kernel's and the
user's region trees are one heap structure here: nodes with parent pointers, colours, an exact gap
to the next region and the largest gap of each subtree. Insertion and deletion, with rotations and
colour repair, keep order, links, gaps and maxima in every tree without red-red conflicts.

Balance is accounted for in every such tree, not only in balanced ones. Each empty place below a node
has a number, its ground, such that black nodes plus ground are the same on every path from the root
down to a place (`Heights`). Two paths differ in black nodes by what their grounds differ in
(`PathsDiffer`), and the tree is red-black balanced exactly when the ground is level (`LevelExact`).
Rotations, both repairs and the splice keep this account. Insertion gives the new place the ground of
the one it splits. Deletion leaves the ground as it was, minus the place that goes, except that a black
node without children leaves a place one higher (`NewGround`): the source starts its repair only when
there is a child to start from. So deletion of exactly one region leaves a balanced tree if and only if
`NewGround` is level; from a balanced tree that means that the node spliced out is red, has a child, or
is the last one. Where the ground is or becomes level the repair never meets a null sibling; in general
it can, and `DeleteSafe` is the exact condition on the tree before the call. `UserFault` shows that runs
get there: from every balanced tree of sixteen regions some sequence of frees ends in one that reads a
null sibling, and `ReachDoomed` and `ReachFault` are such a run from the empty address space.

The pruned search for a hole returns the lowest aligned address above some region at which the range is
clear and fits, and fails only if there is none. Over every run of user calls the live regions stay
disjoint and inside user space.

**Physical pages** (`PageBits`, `PageBooks`, `PageRuns`, `PhysicalManager`, `PageAllocator`). The page
bitmap, the summary bitmap with one bit per bitmap word, the counter, the hints and the per-CPU
stacks are those of the source. A page is named by its number. Batched refill, batched flush with its
deferred word writes, and freeing by bits and whole words are proved against freeing one page at a
time. Freeing a run that covers a last word with bits past the last page clears those bits too: that
is exactly when the books stop being exact (`CoversEnd`). An aligned request takes the first aligned
free run from its hint on, or else the first one before it, and fails only if there is neither, where
the skips of the search allow it. Every public call is a short sequence of moves between four places (free, in a stack, held,
reserved), and every run of moves keeps each page in exactly one of them.

**Page tables** (`PageTables`, `TableLinks`, `TableGrowth`, `RangeNeeds`, `PageFrames`, `Paging`,
`PagingCases`, `EntryBits`). Four-level paging
as in section 4.5 of the Intel 64 and IA-32 Architectures Software Developer's Manual, Volume 3A. The
specification is a walk that tests the present bit; `translate` in the source does not, and is proved
right on mapped addresses only. Tables are unshared, and every table is reached by some address.
Mapping, unmapping with reclaim of emptied tables, and the greedy range mapping are described by what
they do to the translation of every address. Which tables a mapping opens is stated for every address
and level, so that whether a whole range can be mapped is decided by the tables and the number of free
frames before the call: no large page in the way of a page that the range picks, and one frame for each
table that is missing, counted once where pages of the range share it (`RangeNeed`). A large page stored over a present table entry drops
the tables below it: they are neither in use nor given back, `Map` says which they are, and `Leak`
is an input. A large page with a PAT cache type keeps that bit in bit 12, inside the frame field:
translation ignores it, but the frame run that unmap hands back starts one frame late (`MapUnmap`
gives the exact condition and `WrongRun` an input). `EntryBits` relates the stored 64-bit words to
the entries that the tables hold here, and gives their values.

**Locks and the like** (`TicketLock`, `RwLock`, `MutexSteps`, `WaitQueue`, `Shootdown`). One atomic
access per step, any number of threads, any interleaving. The reader-writer lock and the TLB
shootdown are built on the steps of the ticket lock.

**Timers** (`TimerHeap`, `TimerRuns`, `Timer`). The 4-ary heap with its hole-moving sifts, and the
timer manager on top of it.

**Message ports** (`IpcPort`, `PortTable`). The ring buffer of a port, and handles made of a slot
index and the slot's generation. A receiver that wakes up leaves with nothing when its port is found
valid, and the port it asks about is the bare slot index, which is the handle of generation 0. So a
receiver that a message wakes leaves without it on the first port of a slot, and with it on every
later one; a receiver that the end of its port wakes always goes back to that port.

**Alignment** (`BitMath`). What the mask arithmetic computes, and for which bases.

## Hypotheses

- Addresses plus sizes do not wrap 64 bits. `AlignUpExact` and `Accepts64Exact` say what that rules out.
- Alignments in the region trees are powers of two. `AlignDownExact` shows that masking rounds down for no other base.
- Callers free only the pages they hold, and only a lock's holder unlocks it.
- Each call of the page allocator, the region trees, the timer manager and the port table is atomic.
- Memory is sequentially consistent. Tickets, timer ids and slot generations do not wrap.
- Physical addresses passed to the range mapping fit in 52 bits.

The order that the library sort leaves, whether `populate` succeeded, and which free frame the page
allocator hands to the page tables are parameters or free choices.

## Model

| member | source | states |
|---|---|---|
| BitMath.AlignDownExact | kernel/include/libs/math.hpp:4-6 | the mask rounds every word down to a multiple of the base if and only if the base is a power of two |
| BitMath.AlignUpExact | kernel/include/libs/math.hpp:8-10 | for a power of two, rounding up by the mask is right if and only if the sum does not wrap |
| BitMath.RoundUpIsMask | kernel/include/libs/math.hpp:8-10 | for every base, a word whose sum does not wrap is rounded up by clearing the bits of base - 1, which is how the page search rounds |
| BitMath.LowBits | kernel/include/libs/math.hpp:16-18 | the bits below a power of two are the remainder, so the alignment test is divisibility |
| RegionTree.Tree.constructor | kernel/src/memory/vma.cpp:43-67 | an empty tree is valid and balanced and holds nothing |
| RegionTree.Tree.UpdateNodeMetadata | kernel/src/memory/vma.cpp:613-632 | afterwards the node's maximum is that of its own gap and its children's maxima |
| RegionTree.Tree.UpdatePathToRoot | kernel/src/memory/vma.cpp:684-689 | every maximum that was out of date because of this path is exact again, up to the root |
| RegionTree.Tree.RotateLeft | kernel/src/memory/vma.cpp:441-464 | a rotation keeps order, links and threading; no maximum becomes out of date that was not |
| RegionTree.Tree.RotateRight | kernel/src/memory/vma.cpp:466-489 | the mirror image |
| RegionTree.Tree.Predecessor | kernel/src/memory/vma.cpp:634-657 | returns the region with the next smaller start, and null only if there is none |
| RegionTree.Tree.Successor | kernel/src/memory/vma.cpp:659-682 | returns the region with the next larger start, and null only if there is none |
| RegionTree.Tree.FindSlot | kernel/src/memory/vma.cpp:319-330 | finds the node under which a new start belongs in order |
| RegionTree.Tree.FillGaps | kernel/src/memory/vma.cpp:345-362 | gaps to both neighbours become exact and so do all maxima |
| RegionTree.Tree.InsertFixup | kernel/src/memory/vma.cpp:491-533 | from one red-red conflict no conflict is left; links, order, maxima and the account of black heights on every path are kept |
| RegionTree.Tree.Insert | kernel/src/memory/vma.cpp:309-365 | inserting a clear range adds exactly that region, keeps the tree valid and balanced, gives the new empty place the ground of the one it splits, and sets the cursor to it |
| RegionTree.Tree.FindVictim | kernel/src/memory/vma.cpp:376-387 | the node spliced out is the region itself or its in-order successor, and has at most one child |
| RegionTree.Tree.MergeGap | kernel/src/memory/vma.cpp:371-374 | the predecessor's gap takes in the region and its gap |
| RegionTree.Tree.DeleteFixup | kernel/src/memory/vma.cpp:535-611 | the repair meets no null sibling if and only if the start state is safe, and then leaves no red-red conflict with links and order kept; if all paths agree once those through the start node count one more, all paths agree afterwards, and if the ground is level as well the repair is safe and the tree ends balanced |
| RegionTree.Tree.Delete | kernel/src/memory/vma.cpp:367-439 | removes exactly the region when safe and keeps the tree valid; from every tree the account of black nodes afterwards is the one foretold, so the result is balanced if and only if that is level, and then the deletion is safe; from a balanced tree it is always safe and the result can be balanced if and only if the spliced node was red, had a child or was the last |
| RegionTree.Tree.BalancedSafe | kernel/src/memory/vma.cpp:535-575 | in a balanced tree every deletion is safe |
| RegionTree.Tree.LevelExact | kernel/src/memory/vma.cpp:393-428 | some assignment of heights makes the black heights agree if and only if the ground is level |
| RegionTree.Tree.KeepsBalanceExact | kernel/src/memory/vma.cpp:393-428 | from a balanced tree the foretold account is level if and only if the spliced node is red, has a child or is the last |
| RegionTree.Tree.PathsDiffer | kernel/src/memory/vma.cpp:393-428 | any two paths from the root to empty places differ in black nodes by what the grounds of the places differ in |
| RegionTree.Tree.FindNode | kernel/src/memory/vma.cpp:213-229 | finds the region that starts at the address, if and only if there is one |
| RegionTree.Tree.FindHoleFirstFit | kernel/src/memory/vma.cpp:265-301 | the pruned recursive search returns the lowest aligned candidate whose gap fits, and 0 only if none fits |
| RegionTree.Tree.FindHoleLowest | kernel/src/memory/vma.cpp:265-301 | the search returns the lowest aligned address at or above the end of some region at which the range is clear and below the limit, and 0 if and only if there is none |
| RegionTree.Tree.SomeFitExact | kernel/src/memory/vma.cpp:265-301 | some gap fits if and only if such an address exists |
| RegionTree.Tree.BoundRedundant | kernel/src/memory/user_address_space.cpp:209-242 | the user variant's extra bound test never changes the answer |
| RegionTree.Tree.FindRegionContaining | kernel/src/memory/user_address_space.cpp:406-422 | finds the region that holds the address, and null only if none does |
| RegionTree.Tree.CheckOverlap | kernel/src/memory/user_address_space.cpp:424-441 | answers true if and only if some region intersects the range |
| UserFault.Crowd | kernel/src/memory/vma.cpp:491-533 | a balanced subtree of black height h holds at most 4^h - 1 regions, or twice that and one more if its root is red |
| UserFault.ChainUnsafe | kernel/src/memory/vma.cpp:535-575 | in a tree that is a chain of three or more black nodes, deleting the second is not safe |
| UserFault.Wreck | kernel/src/memory/user_address_space.cpp:156-171 | from every balanced address space with at least sixteen regions some run of frees leads to a tree in which the free of a live region is not safe |
| UserFault.ReachDoomed | kernel/src/memory/user_address_space.cpp:111-171 | such a tree at the end of a run of page-sized allocations and frees from the empty address space |
| UserFault.ReachFault | kernel/src/memory/user_address_space.cpp:156-171 | the free that comes next faults |
| KernelVma.VirtualMemoryAllocator.FindHole | kernel/src/memory/vma.cpp:231-263 | the address is aligned and clear, and the range fits if and only if some aligned clear range does; then it is the lowest one in the gap after the cursor, or else the lowest above any region, or above the base of an empty tree |
| KernelVma.VirtualMemoryAllocator.Reserve | kernel/src/memory/vma.cpp:115-124 | places the region if and only if there is room, at that address, and then adds exactly it |
| KernelVma.VirtualMemoryAllocator.Allocate | kernel/src/memory/vma.cpp:96-113 | the same with the alignment chosen by size: from 2M on the address is a multiple of 2M, from 1G on of 1G |
| KernelVma.VirtualMemoryAllocator.Free | kernel/src/memory/vma.cpp:126-146 | removes the region that starts at the pointer and no other; the fault happens exactly for an unsafe deletion |
| UserSpace.UserAddressSpace.FindHole | kernel/src/memory/user_address_space.cpp:173-207 | finds an aligned clear range in user space if and only if there is one where it looks; it is the lowest in the gap after the cursor, or else the lowest of all |
| UserSpace.UserAddressSpace.AllocateAnywhere | kernel/src/memory/user_address_space.cpp:69-109 | maps exactly when the size is positive, there is room and backing succeeds, at that address, with address and size multiples of the page size; otherwise nothing changes |
| UserSpace.UserAddressSpace.AllocateAt | kernel/src/memory/user_address_space.cpp:111-154 | maps exactly when the rounded range is in user space, free and backed, with address and size multiples of the page size; otherwise nothing changes |
| UserSpace.UserAddressSpace.FreeAt | kernel/src/memory/user_address_space.cpp:156-171 | removes only the region that starts at the argument; faults exactly for an unsafe deletion |
| UserSpace.RunKeeps | kernel/src/memory/user_address_space.cpp:69-171 | over every run live regions are pairwise disjoint and inside user space |
| UserSpace.StaysMapped | kernel/src/memory/user_address_space.cpp:69-171 | over every run a region stays as it is until it is freed by its own start |
| UserSpace.Accepts64Exact | kernel/src/memory/user_address_space.cpp:90-92 | the 64-bit range test is right if and only if the sum does not wrap, or wraps past the end of user space |
| PhysicalManager.Manager.constructor | kernel/src/memory/pmm.cpp:751-872 | the state before any range is given has every page in use and exact books |
| PhysicalManager.Manager.SetBit | kernel/src/memory/pmm.cpp:44-57 | sets one page's bit and keeps the summary exact |
| PhysicalManager.Manager.ClearBit | kernel/src/memory/pmm.cpp:59-71 | clears one page's bit and keeps the summary exact |
| PhysicalManager.Manager.CacheRefill | kernel/src/memory/pmm.cpp:80-202 | moves distinct free pages to the stack; with space for a batch it moves all 256, and leaves the hint at the word of the last, or leaves no free page; books stay exact |
| PhysicalManager.Manager.ScanSummary | kernel/src/memory/pmm.cpp:102-180 | takes from the words that one summary word lists until the batch is full or all of them are |
| PhysicalManager.Manager.FlushPages | kernel/src/memory/pmm.cpp:233-284 | clearing in a word-local copy with deferred writes frees exactly the listed pages in range |
| PhysicalManager.Manager.CacheFlush | kernel/src/memory/pmm.cpp:204-287 | the upper half of a full stack becomes free; bitmap, summary and counter are those of clearing each page by itself |
| PhysicalManager.Manager.FreeToBitmap | kernel/src/memory/pmm.cpp:584-637 | for every run: bitmap, summary and counter stay exact if and only if the run does not cover a last word with bits past the last page, and are then those of clearing each existing page of the run by itself |
| PhysicalManager.LastWordTorn | kernel/src/memory/pmm.cpp:599-621 | 65 pages, and a run of 64 from the last one, after which the books are not exact |
| PageBooks.OneByOne | kernel/src/memory/pmm.cpp:59-71 | any exact books with the same free pages are those that clearing page by page gives |
| PageBits.Determined | kernel/src/memory/pmm.cpp:44-71 | bitmap and summary are determined by which pages are free |
| PhysicalManager.Manager.Search | kernel/src/memory/pmm.cpp:442-496 | terminates for every alignment; a result is an in-range run of free pages, aligned if the alignment is a power of two; then for runs below 64 pages, or alignments that are multiples of 16 MiB, it is the first such run in the range searched, and a failure means there is none |
| PhysicalManager.Manager.AllocAligned | kernel/src/memory/pmm.cpp:418-516 | for every page-multiple alignment a result is an in-range run that was free and exactly its bits are newly set; for powers of two it is aligned; in the cases of the search it is the first aligned free run from the hint on (in high memory if there is any; from 2M on by their own hint), else the first before the hint, and a failure means there is neither; a failure changes nothing |
| PhysicalManager.Manager.AllocDma | kernel/src/memory/pmm.cpp:531-582 | the same below the 4 GiB threshold: in the same cases the result is the first run there, and a failure means there is none |
| PhysicalManager.Manager.FindSingle | kernel/src/memory/pmm.cpp:289-372 | the two summary scans find a page if and only if one is free where they look, which is everywhere if the hint is positive or there is no high memory |
| PhysicalManager.OnlyLowFree | kernel/src/memory/pmm.cpp:289-372 | hint 0, high memory, and page 1 alone free: the two scans find nothing |
| PhysicalManager.Manager.AllocFromBitmap | kernel/src/memory/pmm.cpp:289-375 | takes exactly the run it returns; a single page is refused only if no scanned page is free; a run of 2 to 63 pages is the first from the hint on or else the first before it, and is refused only if there is neither |
| PageAllocator.Pmm.Alloc | kernel/src/memory/pmm.cpp:377-416 | the caller gains exactly the run, which nobody held and which is not the null page; with a CPU stack a single page is refused only if the bitmap and that stack are empty; short runs are chosen and refused as the bitmap search says, and without high memory only if no free run exists |
| PageAllocator.Pmm.Free | kernel/src/memory/pmm.cpp:639-672 | the caller loses exactly the run, by moves that keep every page in one place |
| PageAllocator.Pmm.AllocAligned | kernel/src/memory/pmm.cpp:418-516 | the caller gains exactly a run, aligned for powers of two, or nothing moves; which run, and when none, is as for the bitmap |
| PageAllocator.Pmm.AllocDma | kernel/src/memory/pmm.cpp:531-582 | the caller gains exactly a run below the threshold, aligned for powers of two, or nothing moves; which run, and when none, is as for the bitmap |
| PageAllocator.LeadsIsRun | kernel/src/memory/pmm.cpp:377-672 | the moves that a call makes are a run from its first state to its last, and the other way round, so what holds of runs holds of sequences of calls |
| PageAllocator.Pmm.GetStats | kernel/src/memory/pmm.cpp:693-710 | used memory is the held and reserved pages, free memory all others |
| PageRuns.RunKeeps | kernel/src/memory/pmm.cpp:377-672 | in every state of every run each page is free, in one slot of one stack, held, or reserved |
| PageRuns.HeldStays | kernel/src/memory/pmm.cpp:377-672 | a held page stays held and is not handed out again until it is given back |
| PageRuns.PagesAddUp | kernel/src/memory/pmm.cpp:693-710 | the four kinds of pages add up to the total |
| PageTables.SameTable | kernel/src/arch/x86_64/memory/paging.cpp:243-293 | an unshared table is reached by the addresses of one aligned range only |
| PageTables.Rewrite | kernel/src/arch/x86_64/memory/paging.cpp:295-342 | rewriting one entry changes the translation of its own range and of no other address |
| PageTables.RawAgrees | kernel/src/arch/x86_64/memory/paging.cpp:482-527 | the walk without the present test agrees with the real one on every mapped address |
| PageTables.RawUnmapped | kernel/src/arch/x86_64/memory/paging.cpp:515-521 | where the real walk stops at an absent entry, of any level, it takes the entry for a page if it is of level 1 or marked large, and follows it as a table otherwise |
| PageTables.AbsentEntry | kernel/src/arch/x86_64/memory/paging.cpp:482-527 | over sound tables every address that is not mapped has such an entry |
| Paging.PageMap.GetPte | kernel/src/arch/x86_64/memory/paging.cpp:243-293 | reaches the entry exactly when no large page is in the way and enough frames are there, taking one frame per missing table; then the tables of the address down to that level are there and no others were opened, for every address; no translation changes |
| Paging.PageMap.Map | kernel/src/arch/x86_64/memory/paging.cpp:295-342 | succeeds exactly when size, alignment and tables allow; then the entry of the address is the one that the arguments ask for, every offset of the page goes to the matching physical offset, no other translation changes, the frames taken are the tables that were missing, which are opened and no others, and the frames lost are exactly the tables below the entry that was overwritten; a failure changes no translation, loses no frame, and would happen again |
| TableGrowth.LinkOpens | kernel/src/arch/x86_64/memory/paging.cpp:260-283 | hanging a cleared table under an absent entry makes that table reachable for the addresses of its range, and changes for no other address or level what is reached or blocked |
| TableGrowth.StoredBut | kernel/src/arch/x86_64/memory/paging.cpp:318-328 | storing a page at the end changes none of this outside the page itself |
| TableLinks.CutOff | kernel/src/arch/x86_64/memory/paging.cpp:318-328 | the tables counted are exactly those that some address reaches |
| TableLinks.HangingExact | kernel/src/arch/x86_64/memory/paging.cpp:318-328 | storing over an entry cuts tables off if and only if it is a present entry above level 1 that is not large |
| TableLinks.StoreKeeps | kernel/src/arch/x86_64/memory/paging.cpp:318-328 | the tables that remain after the cut are sound and each hangs from its parent |
| PagingCases.MapOver | kernel/src/arch/x86_64/memory/paging.cpp:318-328 | a 2M page mapped over a 4K page at address 0 loses exactly one frame, for every page map |
| PagingCases.Leak | kernel/src/arch/x86_64/memory/paging.cpp:318-328 | a new page map with four frames on which it does: three are left in use or free |
| Paging.PageMap.FindLeaf | kernel/src/arch/x86_64/memory/paging.cpp:398-427 | records the path and finds the level of the entry that maps the address, if any |
| Paging.PageMap.IsTableEmpty | kernel/src/arch/x86_64/memory/paging.cpp:388-396 | true if and only if no entry is present |
| Paging.PageMap.Reclaim | kernel/src/arch/x86_64/memory/paging.cpp:453-472 | gives back exactly the emptied tables up to the first one in use, each once, without changing a translation |
| Paging.PageMap.Unmap | kernel/src/arch/x86_64/memory/paging.cpp:398-480 | removes exactly the leaf's range from the translation, reclaims emptied tables, conserves frames, and does nothing where nothing is mapped; the run handed back is the set of frames that the walk before sent addresses of the page to, or that set moved up by the one bit that a PAT cache type put into the frame number |
| PageFrames.RunOfEntry | kernel/src/arch/x86_64/memory/paging.cpp:426-451 | the frames that some address of a page of level l is sent to are, for every entry, a run of as many 4K frames as the page has |
| PageFrames.FrameOnce | kernel/src/arch/x86_64/memory/paging.cpp:426-451 | two addresses of the page that go to one frame lie in one 4K page, so each frame counts once |
| PagingCases.MapUnmap | kernel/src/arch/x86_64/memory/paging.cpp:295-451 | of a page mapped and then unmapped, the run handed back is the frames that the page's addresses went to in between if and only if the page is small or its cache type uses no PAT bit; else that run moved up by one |
| PagingCases.WrongRun | kernel/src/arch/x86_64/memory/paging.cpp:426-451 | a 2M page at physical 2M with a PAT cache type: frames 513 to 1024 come back for 512 to 1023 |
| Paging.LeafOf | kernel/src/arch/x86_64/memory/paging.cpp:501-521 | a stored entry translates to the address it was made from, whatever its cache bit |
| Paging.PageMap.Translate | kernel/src/arch/x86_64/memory/paging.cpp:482-527 | equals the walk on every mapped address |
| Paging.PageMap.MapRange | kernel/src/arch/x86_64/memory/paging.cpp:641-685 | succeeds if and only if, before the call, no large page was in the way of the range and there were as many free frames as it needs, and takes exactly those; on success the whole range, and at a failure exactly the part done, translates linearly; no other translation changes and no frame appears; where it fails, the largest page that alignment, rest and support allow cannot be mapped |
| RangeNeeds.LargestAllowed | kernel/src/arch/x86_64/memory/paging.cpp:648-664 | the size taken is the largest that both addresses, the rest of the range and the processor allow |
| RangeNeeds.GrownStep | kernel/src/arch/x86_64/memory/paging.cpp:641-685 | after each page the tables ahead are those from before the call and those shared with the part done, and no others |
| RangeNeeds.NeedFresh | kernel/src/arch/x86_64/memory/paging.cpp:641-685 | so what the next page needs then is known before the call: the tables missing from the start that no earlier page of the range shares |
| Paging.RangeIsPages | kernel/src/arch/x86_64/memory/paging.cpp:641-685 | a range mapped with any mix of sizes translates as if its 4K pages had been mapped one by one |
| EntryBits.WalkReads | kernel/src/arch/x86_64/memory/paging.cpp:43-93 | presence, size bit and frame number that a walk reads from the stored word are those of the entry that the page tables hold here, for every address, flags, cache type and size |
| EntryBits.RoundTrip | kernel/src/arch/x86_64/memory/paging.cpp:95-139 | decoding a stored word gives back flags and cache type, but for lazy and, without a no-execute bit, execute |
| EntryBits.StoredNumber | kernel/src/arch/x86_64/memory/paging.cpp:43-93 | the value of the stored word: the weights of the flags and cache bits, the frame number from bit 12 on, and the key from bit 59 on |
| TicketLock.MutualExclusion | kernel/include/libs/spinlock.hpp:30-52 | in every run at most one thread has the lock |
| TicketLock.ServedInOrder | kernel/include/libs/spinlock.hpp:30-52 | in every run threads enter in the order of their tickets |
| TicketLock.SaysFreeIsFree | kernel/include/libs/spinlock.hpp:63-68 | is_locked, two loads, answers false only if the lock is free at the second |
| TicketLock.AnswerExact | kernel/include/libs/spinlock.hpp:54-68 | in every run is_locked answers false if and only if the lock was free at the first load and nobody drew a ticket before the second; try_lock then goes on to lock and otherwise gives up |
| TicketLock.FalseAlarm | kernel/include/libs/spinlock.hpp:63-68 | a run in which it answers true although the lock is free at both loads |
| TicketLock.OwnedNotFree | kernel/include/libs/spinlock.hpp:41-52 | an owner's unlock always finds the lock taken |
| TicketLock.Progress | kernel/include/libs/spinlock.hpp:30-39 | a lock that is not free has an owner, or the thread whose turn it is can enter |
| RwLock.WritersAlone | kernel/include/libs/spinlock.hpp:170-225 | in every run no writer is together with a reader or another writer, and the counter counts the announced readers |
| RwLock.StartReading | kernel/include/libs/spinlock.hpp:198-211 | a thread starts to read only while nobody writes |
| RwLock.GrantedExact | kernel/include/libs/spinlock.hpp:198-225 | in every run each of the two checks of a reader, and the check of a writer that tries, passes if and only if the writers' lock was free at its first load and no writer drew a ticket before its second |
| RwLock.StepInv | kernel/include/libs/spinlock.hpp:170-225 | every step of every thread keeps the invariant behind it |
| MutexSteps.MutualExclusion | kernel/src/libs/mutex.cpp:18-166 | in every run at most one thread holds the mutex or is between the two writes of unlock |
| MutexSteps.ZeroIsFree | kernel/src/libs/mutex.cpp:158-166 | the state is 0 if and only if no thread holds the mutex or is between those writes |
| MutexSteps.MarkStays | kernel/src/libs/mutex.cpp:18-86 | in every run a thread that marks the mutex sets the state to 2 while another holds it or is between the two writes of unlock, and it stays 2 until an unlock writes it |
| MutexSteps.MarkSeen | kernel/src/libs/mutex.cpp:158-166 | so an unlock that comes next finds the mark and goes on to wake |
| MutexSteps.LongestWoken | kernel/src/libs/mutex.cpp:129-145 | in every run a wakeup takes one waiter if there is any, and never one that began to wait after a thread that still waits |
| MutexSteps.StepInv | kernel/src/libs/mutex.cpp:18-166 | every step keeps this, and keeps each waiter in the queue at most once |
| WaitQueue.Queue.AddWaiter | kernel/src/libs/mutex.cpp:88-100 | appends to the sequence |
| WaitQueue.Queue.RemoveWaiter | kernel/src/libs/mutex.cpp:102-127 | removes the first occurrence from the sequence and keeps head and tail right |
| WaitQueue.Queue.WakeupNext | kernel/src/libs/mutex.cpp:129-145 | takes the first of the sequence, if any |
| WaitQueue.RemoveFirstAll | kernel/src/libs/mutex.cpp:102-127 | without duplicates removal takes out that thread and no other |
| Shootdown.ReturnsFlushed | kernel/src/arch/x86_64/hal/smp.cpp:194-231 | when a request returns every other core has invalidated every page of it, for that request |
| Shootdown.OnlyOwnRequest | kernel/src/arch/x86_64/hal/smp.cpp:44-55 | in every run a handler works for the request whose broadcast interrupted its core: that request's thread waits, the mailbox holds its range, and the pages invalidated are its own |
| Shootdown.StartsUnflushed | kernel/src/arch/x86_64/hal/smp.cpp:222-231 | so those pages were invalidated during the request |
| TimerHeap.MinHeap.SiftUp | kernel/include/libs/min_heap.hpp:171-193 | restores heap order from one edge above, and permutes |
| TimerHeap.MinHeap.SiftDown | kernel/include/libs/min_heap.hpp:195-233 | restores heap order from the edges below, and permutes |
| TimerHeap.MinHeap.Insert | kernel/include/libs/min_heap.hpp:29-37 | adds one element to the multiset and keeps heap order |
| TimerHeap.MinHeap.ExtractMin | kernel/include/libs/min_heap.hpp:45-63 | removes one least element, if any, and keeps heap order |
| TimerHeap.MinHeap.Erase | kernel/include/libs/min_heap.hpp:65-98 | removes the element at the index and keeps heap order |
| TimerHeap.MinHeap.EraseIf | kernel/include/libs/min_heap.hpp:100-120 | removes exactly the elements with the id and rebuilds the heap |
| TimerHeap.MinHeap.Heapify | kernel/include/libs/min_heap.hpp:19-27 | makes a heap of any order of elements, and permutes |
| Timer.TimerManager.Schedule | kernel/src/hal/timer_manager.cpp:4-31 | adds the one event that the mode and ticks ask for, with a new id |
| Timer.TimerManager.Tick | kernel/src/hal/timer_manager.cpp:33-57 | terminates; fires exactly the events that are due, in nondecreasing expiry order, and puts back the periodic ones one interval later |
| Timer.TimerManager.Cancel | kernel/src/hal/timer_manager.cpp:59-61 | removes the events with the id and says whether there was one |
| TimerRuns.PeriodicFires | kernel/src/hal/timer_manager.cpp:4-57 | in every run a periodic timer of k ticks, or 1 if k is 0, fires once at every k-th tick after it was scheduled, with that tick as its expiry, and at no other, until cancelled |
| TimerRuns.OnceFires | kernel/src/hal/timer_manager.cpp:4-57 | in every run any other timer fires once, unless cancelled: a one-shot at the tick of the call plus the ticks asked for, a deadline at the tick given, and either at the next tick if that is past |
| TimerRuns.CancelledSilent | kernel/src/hal/timer_manager.cpp:59-61 | a cancelled timer never fires again |
| IpcPort.Port.Send | kernel/src/task/ipc.cpp:5-40 | refuses long messages, blocks on a full ring, and else appends the message and wakes the first receiver |
| IpcPort.Port.Receive | kernel/src/task/ipc.cpp:42-77 | takes the oldest message, cut to the buffer, and wakes the first sender, or blocks; what was received is always a prefix of what was accepted |
| IpcPort.Port.ResumeReceive | kernel/src/task/ipc.cpp:50-60 | a woken receiver of a live port leaves with nothing if and only if its slot's generation is 0, and else takes a message or blocks again, for every table |
| IpcPort.WokenByMessage | kernel/src/task/ipc.cpp:42-60 | in every run with issued handles a receiver woken on a live port leaves with nothing if and only if the handle is a bare index |
| IpcPort.WokenByClose | kernel/src/task/ipc.cpp:50-98 | in every such run a receiver that the end of its port wakes never finds the slot valid, however late it runs |
| IpcPort.WakeTwice | kernel/src/task/ipc.cpp:42-60 | a message for a waiting receiver stays in the ring on the first port of slot 0 and is taken on the second |
| IpcPort.Port.Close | kernel/src/task/ipc.cpp:79-98 | wakes all blocked threads in order and empties the ring |
| PortTable.HandleLife | kernel/src/task/ipc.cpp:100-169 | in every run with issued handles a handle resolves to its own port until destroyed and to nothing ever after |
| PortTable.HandlesDiffer | kernel/src/task/ipc.cpp:100-117 | no two ports get the same handle |
| PortTable.DestroyedFree | kernel/src/task/ipc.cpp:138-169 | destroy keeps the free slots exact and unrepeated if and only if the handle does not name an empty slot's generation |
| PortTable.MadeUpHandle | kernel/src/task/ipc.cpp:138-169 | such a handle, never issued, leads to two ports with one handle |
| PortTable.StepInv | kernel/src/task/ipc.cpp:100-169 | free slots are exactly the empty ones without repetition, kept by every call |
| PortTable.PortManager.CreatePort | kernel/src/task/ipc.cpp:100-117 | the table, free stack and handle are those of the specification that HandleLife is about |
| PortTable.PortManager.GetPort | kernel/src/task/ipc.cpp:119-136 | returns what the handle resolves to |
| PortTable.PortManager.DestroyPort | kernel/src/task/ipc.cpp:138-169 | empties the slot of a current handle and returns the port to close; a stale one changes nothing |
| PortTable.PortManager.IsValidPort | kernel/src/task/ipc.cpp:171-193 | true if and only if the handle resolves to a port |

## Left out

- KernelVma.VirtualMemoryAllocator.Reserve: a range that would run past the last address is refused with `OutOfSpace`; the source inserts at whatever address the search returned.
- KernelVma.VirtualMemoryAllocator.Allocate: has the same refusal, and leaves out the per-CPU cache of freed addresses.
- KernelVma.VirtualMemoryAllocator.Free: leaves out unmapping and the push to the per-CPU cache.
- UserSpace.UserAddressSpace.AllocateAnywhere: excludes sizes whose rounding or sum wraps 64 bits, for which the source would insert a region that the tree cannot hold; `Accepts64Exact` says when its range test lets them through.
- UserSpace.UserAddressSpace.AllocateAt: excludes the same sizes, and addresses so high that the sum wraps.
- UserSpace.UserAddressSpace.FreeAt: leaves out the unmapping of the pages behind the region.
- UserFault.ReachFault: what the machine does after the null read is not modelled.
- PhysicalManager.Manager.constructor: leaves out where the metadata is placed.
- PhysicalManager.Manager.AllocAligned: for runs of 64 pages and more at smaller alignments a failure does not show that no run is free, because the summary skip adds 4096 pages even from the middle of a summary word; where there is high memory, pages from the hint to the 4 GiB threshold are in neither pass, as the contract says.
- PhysicalManager.OnlyLowFree: gives the state; which calls lead to hint 0 is not modelled.
- Paging.PageMap.MapRange: addresses and length are multiples of 4K; the source rounds other addresses, and for another length its count of what remains wraps. Which tables a range cuts off in all is not stated, only that no frame appears.
- PageAllocator.Pmm.Alloc: the allocator's lock is not modelled; the source takes it again inside the aligned search while holding it.
- IpcPort.Port.Receive: blocking ends the call, and the resumed call is a separate one.
- Paging.PageMap.Unmap: the frames of the page itself are reported, not put back into a pool; TLB flushes are left out.
- MutexSteps.MutualExclusion: liveness and timeouts are not claimed; a woken thread takes the mutex with state 1 and its unlock then wakes nobody.
- Shootdown.ReturnsFlushed: remote function calls share the counter and are excluded.
- Timer.TimerManager.Tick: callbacks that schedule or cancel are excluded.
- The per-CPU cache of freed kernel addresses, under which an address can be cached and handed out by the tree at once.
- The page size stored in a user region, which deletion does not copy when it moves a payload.
- Mapping and unmapping of physical memory behind kernel and user regions, and page-fault handling.
- Five-level paging, changing the flags of a mapped page, loading page maps, and the PCID manager.
- The mapping call that allocates its own frames, which is glue between two modelled parts.
- Boot-time discovery of memory, ACPI, APIC, timers and serial hardware, descriptor tables, assembly and logging: input, output and constants.
- The scheduler, slab allocator and heap caches.
- The deque, which nothing in the kernel uses.
