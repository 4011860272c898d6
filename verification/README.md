# Verification of the copy-on-write teaching kernel

A Dafny 4.11 model of the RISC-V teaching kernel under `Code/`, with proofs of what its
stateful cores are for. `dafny verify dfyconfig.toml` checks everything.

Memory is modelled where the kernel has it: reference counts, page tables, list links and
block headers are fields and arrays that methods update, in the order of the C statements.
Each method is tied to a function of the old state, and what the kernel relies on is proved
about those functions and about every run of the methods.

| files | what they model |
|---|---|
| `Mmu`, `CowState`, `CowRanges`, `CowKernel` | leaf entries, reference counts and the page allocator as a set; fork, fault, mapping and exit on them |
| `CowTables`, `CowExit` | the frames that serve as page tables: what building them costs, which of them an exit gives back |
| `CowEager`, `CowTrace`, `CowMachine` | the machine whose fork copies every page, what each operation needs and leaves, and the proof that the kernel refines that machine over all runs |
| `FaultInterleaving` | `do_pgfault` cut into its lock, read, copy, insert and unlock steps, interleaved by any number of processes |
| `Sv39` | the three-level table walk, bit for bit, as a flat map |
| `Vma` | the sorted area list with its lookup cache, `mm_map`, `user_mem_check` |
| `Runs`, `SlobHeap`, `Slob` | SLOB: the circular list in memory, splitting, coalescing, growth, `kmalloc` and `kfree` |
| `PageAllocator`, `FreeLinks` | the first-fit page allocator; its insertion loop taken literally |
| `Collections`, `Sequences`, `Family`, `ProcState`, `ProcIndex`, `Pid`, `Process`, `Scheduler` | process ids, family links, the two process indexes, fork, exit, wait, kill, wakeup and round robin |
| `Segments`, `LoadIcode` | the ELF loader: the page loops of one segment in 64-bit addresses that may wrap, then all segments and the stack |
| `Format` | `printnum`, the bounded buffer behind `vsnprintf`, and `strtol` |

## What was found

- `exit_range` gives a second-level table back when every entry it looked at was valid, whatever
  the other entries hold, so the third-level tables of a later area in that directory are lost.
  Nothing is lost exactly when no third-level table is first covered by a later area than the
  one that clears its directory, and every directory is cleared (`CowExit.ExitGivesAllBack`,
  `CowKernel.Memory.Exit`, `CowExit.LostTable`).
- `kmalloc` of 4064 to 4079 bytes takes the small path and fails the assert of `slob_alloc`
  (`Slob.SmallPathAssert`, `Slob.Heap.Kmalloc`).
- `find_order` shifts bits out: a size strictly between 4096 * 2^k and 4097 * 2^k gets 2^k pages,
  8193 bytes get two. It takes an int, so 2^31 bytes get one page. A block is as large as asked
  for exactly when its size is below 2^31 and in none of those gaps (`Slob.OrderIsEnough`,
  `Slob.TooFewPages`).
- The insertion loop of the page allocator does not leave the loop after appending: a page put
  above all others ends as its own predecessor, and unlinking it later leaves it on the list.
  The links come out right exactly when the list was empty or the page is not the highest. A
  page freed above all others is not merged with the block below it, even when it is next to it;
  and once it is handed out the next call finds it on the list and hands it out again
  (`FreeLinks.Links.Insert`, `FreeLinks.AppendExample`, `FreeLinks.Links.FreePages`,
  `FreeLinks.Links.AllocAppended`, `FreeLinks.Links.AllocTwice`).
- `default_init_memmap` merges nothing: the free list stays one of maximal runs exactly when the
  new region touches no free block (`PageAllocator.PageArea.InitMemmap`,
  `PageAllocator.TouchingRegions`).
- `mm_map` refuses only an area that holds its first byte; it panics exactly when some area
  begins later inside the new one. A length just short of 2^64 wraps and is accepted, and the
  new area covers the bytes asked for exactly when the addresses do not wrap (`Vma.MmMap`,
  `Vma.LaterArea`, `Vma.MappedCovers`, `Vma.WrappedLength`).
- A segment with `p_memsz` 0 gets no page even when `p_va` is not page aligned, although its
  area is a page long; the pages of the area are all mapped exactly when `p_memsz` is not 0 or
  `p_va` is page aligned (`Segments.AreaMapped`, `Segments.EmptySegment`).
- `load_icode` never looks at its `size`: it reads inside the file exactly when every PT_LOAD
  header it reaches with file bytes to copy has `p_offset + p_filesz <= size`
  (`LoadIcode.ReadsInside`, `LoadIcode.Load`; `LoadIcode.OverRead` is a header that fails it).
- A segment whose end wraps round into its first page passes `mm_map`, and is in memory
  afterwards exactly when it does not wrap. If `p_filesz` is 0 or the end of the file part wraps
  too, nothing is mapped; if the file part ends a page, it is loaded past the end of the area and
  the rest is left out; otherwise the memset for the rest of the page gets the length `p_memsz` -
  `p_filesz` (`Segments.Loader.LoadSegment`; 2^64 - 12 in `LoadIcode.WrappedMemset`).
- The comment on `printnum` admits base 1, in which the recursion ends for 0 only
  (`Format.BaseOne`).
- The comment on `strtol` admits the prefix `0X` in base 16; the code knows `0x` only and reads
  `0X10` as 0 (`Format.CapitalPrefix`).
- `do_kill` accepts init, whose next step out of `do_wait` is then a panic
  (`Process.ProcTable.Resume`).

## Model

| member | source | states |
|---|---|---|
| Mmu.DemoteBits | Code/kern/mm/pmm.c:420-453 | what fork does to an entry's bits: a writable or already shared entry loses W and has COW, every other bit is kept |
| Mmu.UpgradeBits | Code/kern/mm/vmm.c:428-432 | what a fault does to the bits: W is set, COW is cleared, every other bit is kept |
| Mmu.FaultUndoesFork | Code/kern/mm/vmm.c:428-432 | a fault restores exactly the permission bits a writable entry held before the fork |
| CowState.WriterIsAlone | Code/kern/mm/pmm.c:420-453 | in every state a writable entry maps a frame of reference count 1 that no other entry of any page table maps |
| CowState.FreeIffUnmapped | Code/kern/mm/pmm.c:271-284 | a user frame is with the allocator exactly when no valid entry maps it |
| CowState.NothingLeaks | Code/kern/mm/vmm.c:236-251 | with no address space left, every frame the kernel does not keep is free again |
| CowTables.TablesCost | Code/kern/mm/pmm.c:221-251 | building the tables for a page takes one frame for each missing one, and stops only with fewer |
| CowTables.ForkCost | Code/kern/mm/vmm.c:211-234 | a complete copy takes one frame for each table its pages need; one that stops for want of frames had fewer |
| CowExit.ReclaimedSoFar | Code/kern/mm/pmm.c:307-366 | the loops of exit_range over all areas in closed form: which tables are left and which frames were given back, from the tables at the exit |
| CowExit.ExitGivesAllBack | Code/kern/mm/pmm.c:307-366 | in a state of the kernel, all page tables of a space come back exactly when every directory is cleared by some area and no table of it is first covered by a later one |
| CowExit.LostTable | Code/kern/mm/pmm.c:334-360 | a space of two areas whose exit loses a table |
| CowExit.LostAfterExit | Code/kern/mm/pmm.c:307-366 | the frames lost by an exit are the tables exit_range did not give back, and no other |
| CowExit.ExitLosesNothing | Code/kern/mm/pmm.c:307-366 | an exit loses no frame exactly under that condition on the areas and tables before it |
| CowExit.OnlyTablesAreLost | Code/kern/mm/vmm.c:236-251 | after all processes are gone every frame is free but those the kernel occupies and the lost tables |
| CowState.DropKeepsFrames | Code/kern/mm/pmm.c:271-284 | clearing one entry keeps every count equal to the number of mapping entries, and frees the frame just when that was the last |
| CowState.MapKeepsFrames | Code/kern/mm/pmm.c:498-546 | mapping a frame at an empty slot keeps every count equal to the number of mapping entries |
| CowRanges.SkipPassesNothing | Code/kern/mm/pmm.c:390-402 | the 2 MiB skip of the range walkers passes only pages without an entry |
| CowRanges.ShareKeepsWriters | Code/kern/mm/pmm.c:420-453 | sharing a page at fork leaves no writable entry to a frame with two references |
| CowRanges.FreshKeepsWriters | Code/kern/mm/vmm.c:446-520 | mapping a fresh frame, also over a shared one, keeps writable entries alone |
| CowRanges.CopiedTwice | Code/kern/mm/vmm.c:211-234 | copies made area by area add up to one copy of their union, no entry demoted or counted twice |
| CowRanges.AllAreasCopied | Code/kern/mm/vmm.c:211-234 | over the disjoint areas, dup_mmap copies each mapped page of the parent and no other |
| CowRanges.WithoutAllAreas | Code/kern/mm/vmm.c:236-251 | unmapping area by area leaves the address space without any entry |
| CowRanges.UndoneFork | Code/kern/process/proc.c:384-414 | dropping a half-made child leaves the parent's entries as they were up to W turned into COW |
| CowRanges.InsertAreaFits | Code/kern/mm/vmm.c:117-159 | on a list of areas that is in order, the list with the new area is in order exactly when the area lies in user space and overlaps none of the others |
| CowKernel.Memory.GetPte | Code/kern/mm/pmm.c:221-251 | builds the missing tables from the allocator, one frame each, without touching a leaf entry, also when the second table cannot be had; a creating call fails only when no frame is left |
| CowKernel.Memory.PageRemovePte | Code/kern/mm/pmm.c:271-284 | one reference less, and the frame is freed exactly when that was the last |
| CowKernel.Memory.PageInsert | Code/kern/mm/pmm.c:498-546 | maps a frame in place of what was there, counts stay exact; it succeeds exactly when the page has its table afterwards, and otherwise nothing is mapped and no frame is left |
| CowKernel.Memory.UnmapRange | Code/kern/mm/pmm.c:286-305 | removes exactly the entries of the range in this address space and keeps the sharing invariant |
| CowKernel.Memory.SharePage | Code/kern/mm/pmm.c:403-470 | one page of fork: both entries afterwards map the same frame with the same demoted bits; it fails only when no frame is left for a table |
| CowKernel.Memory.CopyRange | Code/kern/mm/pmm.c:383-477 | shares each mapped page of the range exactly once, up to the page for whose table no frame was left if it fails; the tables grow by what those pages need |
| CowKernel.Memory.DupMmap | Code/kern/mm/vmm.c:211-234 | the child has the parent's areas and, page by page, a share of each mapped page; it fails only when kmalloc refuses an area or no frame is left for a table |
| CowKernel.Memory.ExitRange | Code/kern/mm/pmm.c:307-366 | gives back the third-level tables in the range, and a second-level table when all entries looked at were valid, as the function it is tied to says |
| CowKernel.Memory.ExitMmap | Code/kern/mm/vmm.c:236-251 | every entry of the address space is removed, no other entry changes, counts stay exact; the tables the second loop finds are free |
| CowKernel.Memory.CopyMm | Code/kern/process/proc.c:368-415 | succeeds exactly when kmalloc grants the mm and every area and there are more frames than tables the parent's pages need; then a fork that cost one frame for the root and one for each table, otherwise a rollback after which every user frame's count is as before |
| CowKernel.Memory.Exit | Code/kern/process/proc.c:554-565 | removes the address space with all its entries and keeps the sharing invariant; the allocator gets back the root, the tables exit_range finds and the frames nobody else maps, the other tables are lost, none exactly under the condition of ExitGivesAllBack |
| CowKernel.Memory.MapPage | Code/kern/mm/pmm.c:558-578 | succeeds exactly when there is a frame for the page and for each missing table; a fresh frame with the loader's contents at the page, or no change of entries and contents and at most one frame left |
| CowKernel.Memory.DoPgfault | Code/kern/mm/vmm.c:276-569 | fixes exactly the stores to COW pages: alone the process keeps the frame, otherwise it gets a free frame with the same contents; it fails only without a free frame, and then changes nothing |
| CowEager.OthersChangeNothing | Code/user/cow_advanced.c:1-60 | in the machine whose fork copies, a page of a process that does nothing itself keeps contents and rights over any run of others |
| CowEager.RunAlone | Code/user/cow_advanced.c:1-60 | in that machine a process runs as if alone: what it has after any run, and every byte it read, are what its own operations make of what it had, whoever else runs in between |
| CowEager.ChildKeepsFork | Code/user/cow_advanced.c:1-60 | a child that does nothing keeps what the parent had at the fork, whatever the parent and others store |
| CowEager.ParentKeepsFork | Code/user/cow_advanced.c:1-60 | a parent that does nothing keeps it too, whatever the child stores |
| CowEager.ForkRefines | Code/kern/mm/pmm.c:383-477 | sharing frames at fork looks to every process like copying all pages |
| CowEager.RollbackRefines | Code/kern/process/proc.c:384-414 | a rolled back fork changes no byte and no right any process can observe |
| CowEager.FaultRefines | Code/kern/mm/vmm.c:446-565 | resolving a fault is invisible: every page reads the same and stays writable |
| CowEager.StoreRefines | Code/kern/mm/pmm.c:420-453 | a direct store through a writable entry changes that page of that process only |
| CowEager.ExitRefines | Code/kern/mm/vmm.c:236-251 | exit removes the pages of that process only |
| CowEager.MapRefines | Code/kern/mm/pmm.c:558-578 | a mapped page appears with its contents and nothing else changes |
| CowMachine.UserStore | Code/kern/trap/trap.c:274-286 | a store, direct or by fault and retry, is the eager store; the process dies exactly when the access is not allowed or no frame is left for its copy |
| CowMachine.UserLoad | Code/kern/trap/trap.c:255-286 | a load returns the byte the eager machine holds |
| CowMachine.Fork | Code/kern/process/proc.c:368-415 | the eager fork exactly when kmalloc and the allocator have what it takes, otherwise no change anyone can observe |
| CowMachine.Execute | Code/kern/trap/trap.c:255-286 | each operation takes place exactly when its condition on the memory before it holds (for a new area that it overlaps no other), is then the eager operation on what processes can observe, and leaves areas, entries, tables and free frames as that operation must |
| CowTrace.TraceIsRun | Code/kern/mm/pmm.c:383-477 | at every time of a run processes see what the eager machine shows them |
| CowTrace.ForkTablesAtMost | Code/kern/mm/pmm.c:383-477 | no fork needs more tables than user space has regions and directories |
| CowTrace.AmpleMemory | Code/kern/mm/pmm.c:383-477 | with kmalloc granting and 1027 frames for each operation, a run is one of the eager machine that never fails: every fork copies and no process dies but by an access its page does not permit |
| CowMachine.RunAll | Code/kern/mm/pmm.c:383-477 | copy-on-write refines eager copying: over every run of fork, new area, map, load, store and exit all loads return what they return when fork copies every page; at each step an area is added exactly when it overlaps no other and kmalloc grants it, and an operation is refused, or a storing process killed, exactly when kmalloc or the allocator has not what it takes |
| CowMachine.ForkIsolates | Code/user/cow_advanced.c:1-60 | after a fork in the kernel's own memory parent and child each run as if the other were not there: pages and bytes read are what their own operations make of what the parent had; an idle one keeps what was there at the fork |
| FaultInterleaving.StepKeepsInv | Code/kern/mm/vmm.c:382-567 | every step of every process keeps the protocol invariant: lock owner, counts, copies in flight |
| FaultInterleaving.StepReads | Code/kern/mm/vmm.c:382-567 | a step changes what no process reads, except that a store of a process that finds its page writable puts that byte at that offset of its own page |
| FaultInterleaving.ReadsOwn | Code/kern/trap/trap.c:274-286 | after any run a process reads the contents at the fork with its own stores, in order, on top, and no others |
| FaultInterleaving.InterleavingIsSafe | Code/kern/mm/vmm.c:382-567 | for every interleaving of faults and stores: one process in the critical section, the count read stays valid until the entry is written, each process reads its own bytes as ReadsOwn says, counts are the number of entries that map the frame, no frame is lost, unlock never finds the lock clear, and the copy made when nobody else is left is never reached |
| FaultInterleaving.LastFaulterReusesTheFrame | Code/kern/mm/vmm.c:520-565 | whoever got the original frame back writable was the last: all others have frames of their own |
| FaultInterleaving.AllDone | Code/kern/mm/vmm.c:446-565 | once all k sharers have faulted, exactly k - 1 frames were allocated, one process has the original, and no two share |
| FaultInterleaving.AllCanFinish | Code/kern/mm/vmm.c:382-567 | no deadlock: from every reachable state some run makes all pages writable, exactly when k - 1 frames were free at the start |
| Sv39.FieldsOfPgAddr | Code/kern/mm/mmu.h:38-51 | PDX1, PDX0, PTX and PGOFF take PGADDR apart again |
| Sv39.PgAddrOfFields | Code/kern/mm/mmu.h:38-51 | PGADDR of an address's fields is the address in its 39 translated bits |
| Sv39.EntryRoundTrip | Code/kern/mm/pmm.h:190-193 | PTE_ADDR, PPN and the flag bits give back what pte_create was given |
| Sv39.IndexesTellPages | Code/kern/mm/mmu.h:38-42 | two user addresses agree in all three indexes exactly when they are on the same page |
| Sv39.SlotsTellPages | Code/kern/mm/pmm.c:221-251 | distinct user pages have distinct entry slots |
| Sv39.StoreIsFlat | Code/kern/mm/pmm.c:221-251 | writing an entry through its slot changes that page's entry in the flat map, no other, and no table |
| Sv39.FlatOfNew | Code/kern/mm/pmm.c:224-249 | a zeroed table adds no translation and changes none |
| Sv39.NewMid | Code/kern/mm/pmm.c:224-236 | a new second-level table keeps the tree unshared and every translation |
| Sv39.NewLeaf | Code/kern/mm/pmm.c:238-249 | a new third-level table keeps the tree unshared and every translation |
| Sv39.NotALeaf | Code/kern/mm/pmm.c:224-249 | the entry put above a table has its frame and no right, so that it is not read as a leaf |
| Sv39.PageTable.GetPte | Code/kern/mm/pmm.c:221-251 | returns the slot of the page; a creating call changes no existing translation and adds none, also when it fails after one level, and fails only without free pages; it takes one page for each missing table and no other; other tables, and the rest of the root, are untouched |
| Vma.SearchUnique | Code/kern/mm/vmm.c:84-114 | at most one area holds an address |
| Vma.MmStruct.FindVma | Code/kern/mm/vmm.c:84-114 | the area that holds the address, whatever the cache held before |
| Vma.MmStruct.InsertVma | Code/kern/mm/vmm.c:117-159 | checking the two neighbours finds an overlap with any area; otherwise the list stays sorted and disjoint with the new area in it |
| Vma.OnlyLaterAreas | Code/kern/mm/vmm.c:189-192 | when no area holds the first byte, the overlapping areas are those that begin later inside the new one |
| Vma.MmMap | Code/kern/mm/vmm.c:176-209 | the exact conditions of each outcome: invalid, out of memory, panic, or the new area and all the old ones |
| Vma.LaterArea | Code/kern/mm/vmm.c:189-192 | an area list and a request for which insert_vma_struct's assert fails |
| Vma.MappedCovers | Code/kern/mm/vmm.c:179-183 | the new area is made of whole pages and begins in that of addr; it covers the bytes asked for, and no page more, exactly when addr + len does not wrap |
| Vma.WrappedLength | Code/kern/mm/vmm.c:179-183 | an input whose length wraps and that mm_map accepts |
| Vma.RestOfArea | Code/kern/mm/vmm.c:685-704 | access at one byte of an area decides access at the bytes after it, the stack guard included |
| Vma.UserMemCheck | Code/kern/mm/vmm.c:676-708 | 1 exactly when the range is not empty, does not wrap, lies in user space, every byte is in an area with the right, and no written byte is in the first page of a stack area |
| Runs.Canonical | Code/kern/mm/default_pmm.c:144-205 | a sorted list without adjacent blocks is determined by the set it covers |
| Runs.ReleaseKeepsSorted | Code/kern/mm/kmalloc.c:175-191 | putting a block in with two-sided coalescing keeps the list ascending, disjoint and never adjacent |
| Runs.ReleaseCovers | Code/kern/mm/kmalloc.c:175-191 | releasing a block frees its units and no others |
| Runs.TakeCovers | Code/kern/mm/kmalloc.c:124-133 | taking the front of a block removes exactly those units |
| Runs.TakeThenRelease | Code/kern/mm/default_pmm.c:106-205 | giving back what was taken restores the list |
| SlobHeap.AllocKeepsPartition | Code/kern/mm/kmalloc.c:97-156 | after an allocation every unit of an acquired page is in exactly one free or live block |
| SlobHeap.FreeKeepsPartition | Code/kern/mm/kmalloc.c:158-194 | after a free every unit of an acquired page is in exactly one free or live block |
| SlobHeap.GrowKeepsPartition | Code/kern/mm/kmalloc.c:140-153 | after growth too, with the new page free |
| SlobHeap.Conservation | Code/kern/mm/kmalloc.c:97-194 | free units plus live units are 256 per acquired page, apart from the arena's one |
| Slob.FreeKeepsLinked | Code/kern/mm/kmalloc.c:175-191 | the header stores of slob_free leave memory holding the new circular list |
| Slob.TakeKeepsLinked | Code/kern/mm/kmalloc.c:124-133 | the header stores of slob_alloc leave memory holding the new circular list |
| Slob.SmallPathAssert | Code/kern/mm/kmalloc.c:228-238 | a size on the small path meets slob_alloc's assert exactly below 4064 bytes |
| Slob.OrderIsEnough | Code/kern/mm/kmalloc.c:220-244 | for every size_t, find_order leads to enough pages exactly when the size is below 2^31 and not strictly between 4096 * 2^k and 4097 * 2^k for any k |
| Slob.TooFewPages | Code/kern/mm/kmalloc.c:220-226 | 8193 bytes and 2^31 bytes get too few pages |
| Slob.PagesCover | Code/kern/mm/kmalloc.c:240-258 | the pages of a big block are those its address range covers |
| Slob.Heap.SlobFree | Code/kern/mm/kmalloc.c:158-194 | the free list becomes the old one with the block in its place, joined with its neighbours; the rover is at the free block before it; headers outside the free list are as they were |
| Slob.Heap.SlobAlloc | Code/kern/mm/kmalloc.c:97-156 | takes the front of the first free block after the rover with enough units, and leaves the rover at the block before it; a new page is taken only when no block is large enough, freed into the list and then searched in the same way; fails exactly when none is large enough and no page is free |
| Slob.Heap.Kmalloc | Code/kern/mm/kmalloc.c:228-258 | a live small block, found as SlobAlloc finds it, or a run of pages of the order find_order gives with a descriptor so found; nothing changes on a panic; exact causes of Null and Panic; no header of another block is written |
| Slob.Heap.Kfree | Code/kern/mm/kmalloc.c:266-294 | page-aligned or not, gives back the small block or the big block that was handed out and nothing else; the block or descriptor goes back into the free list as SlobFree puts it |
| PageAllocator.BlockIsMaximalRun | Code/kern/mm/default_pmm.c:144-205 | each block of the free list is a maximal run of free pages |
| PageAllocator.MaximalRunIsBlock | Code/kern/mm/default_pmm.c:144-205 | each maximal run of free pages is a block of the list |
| PageAllocator.AllocThenFree | Code/kern/mm/default_pmm.c:107-205 | freeing what an allocation returned restores the same list |
| PageAllocator.FreesCommute | Code/kern/mm/default_pmm.c:144-205 | the order of two frees does not matter |
| PageAllocator.OnePageIsAPick | Code/kern/mm/default_pmm.c:107-141 | for n = 1 the call fails exactly when no page is free and takes exactly the page it returns, which is what the copy-on-write model asks of alloc_page |
| PageAllocator.FirstFitIsLowest | Code/kern/mm/default_pmm.c:107-125 | first fit finds the lowest n free pages in a row, and nothing exactly when no n pages in a row are free |
| PageAllocator.FreeCovers | Code/kern/mm/default_pmm.c:143-205 | a free adds exactly its pages to the free set |
| PageAllocator.StepIsExact | Code/kern/mm/default_pmm.c:107-205 | page by page, an allocation hands out the lowest n free pages in a row and fails without a change exactly when there are none; a free takes back its pages and no others |
| PageAllocator.StepKeepsSplit | Code/kern/mm/default_pmm.c:107-205 | each call keeps every page either free or handed out |
| PageAllocator.RunsAreCanonical | Code/kern/mm/default_pmm.c:69-205 | after any run of calls the list is sorted with no adjacent blocks and covers what is not handed out; with everything back it is the list of the beginning |
| PageAllocator.PageArea.InitMemmap | Code/kern/mm/default_pmm.c:69-105 | reserved pages become a block of their own in the sorted list, their flags and property cleared but for the head's; the allocator's invariant holds afterwards exactly when no free block is next to them |
| PageAllocator.TouchingRegions | Code/kern/mm/default_pmm.c:69-105 | a block of pages 3 and 4 and the region of page 5: two blocks that touch |
| PageAllocator.PageArea.AllocPages | Code/kern/mm/default_pmm.c:107-141 | the first n pages of the lowest block of at least n, NULL exactly when there is none; PG_property marks the heads and nr_free is their total |
| PageAllocator.PageArea.FreePages | Code/kern/mm/default_pmm.c:143-205 | with the insertion the source's comment describes: the list with the pages back in their place and both neighbours joined; PG_property marks the heads and nr_free is their total. When the loop as written gives this list is FreeLinks.Links.FreePages |
| FreeLinks.Links.Insert | Code/kern/mm/default_pmm.c:156-180 | the successor chain is right in all cases, the predecessor chain exactly when the list was empty or the page is not the highest |
| FreeLinks.AppendExample | Code/kern/mm/default_pmm.c:170-178 | page 2 appended to a list of page 1: the links the loop leaves, page 2 its own predecessor |
| FreeLinks.Links.FreePages | Code/kern/mm/default_pmm.c:143-205 | a free as the loop and the merges are written: the same list as PageArea.FreePages gives exactly when the page is not above all others or not next to the last block, and right links exactly in the first case |
| FreeLinks.Links.DeleteAppended | Code/kern/mm/default_pmm.c:126-127 | unlinking a page just appended leaves it on the successor chain |
| FreeLinks.Links.FindFit | Code/kern/mm/default_pmm.c:114-124 | following the links, the first page of the list with enough pages, or the head |
| FreeLinks.Links.AllocAppended | Code/kern/mm/default_pmm.c:107-141 | an allocation that finds the appended page hands it out and leaves it on the list with the pages it had; when it splits it the rest follows it on the list |
| FreeLinks.Links.AllocTwice | Code/kern/mm/default_pmm.c:107-141 | two allocations in a row get the same page |
| Pid.FirstFreeUnique | Code/kern/process/proc.c:188-227 | the naive search has one answer |
| Pid.AfterIsIteratedSucc | Code/kern/process/proc.c:192-199 | ids follow the cyclic order 1 to MAX_PID - 1 |
| Pid.Pigeonhole | Code/kern/process/proc.c:203-224 | the search passes no more ids than there are processes |
| Pid.PidAllocator.GetPid | Code/kern/process/proc.c:188-227 | ends, and returns the first id after the last one that no process has; the cached interval holds no live id |
| Family.KidsAreChildren | Code/kern/process/proc.c:153-184 | a child list read through cptr and optr holds exactly the processes with that parent |
| Family.SetKeepsFamily | Code/kern/process/proc.c:153-164 | set_links puts the process first in its parent's list, all links of all processes right |
| Family.RemoveKeepsFamily | Code/kern/process/proc.c:167-184 | remove_links takes the process out of its parent's list, all links of all processes right |
| Family.AdoptKeepsFamily | Code/kern/process/proc.c:577-589 | one round of reparenting moves the first child to the head of init's list; a stale yptr stays until the next round clears it |
| Family.ParentsReachInit | Code/kern/process/proc.c:577-589 | following parents from any process but idle leads to init |
| Family.InitIsAlone | Code/kern/process/proc.c:1006-1015 | when init has no children there are no processes besides idle and init |
| ProcIndex.SearchUnique | Code/kern/process/proc.c:290-307 | a pid has one process |
| ProcIndex.AddKeepsIndexed | Code/kern/process/proc.c:276-281 | adding a process keeps the list and the hash buckets in agreement and pids unique |
| ProcIndex.DropKeepsIndexed | Code/kern/process/proc.c:283-288 | removing one does too |
| ProcState.WakeKeepsStates | Code/kern/schedule/sched.c:7-24 | a wakeup leaves every other sleeper with something still to wait for |
| ProcState.ExitKeepsStates | Code/kern/process/proc.c:566-576 | a process turned ZOMBIE wakes the parent that waits for it, so no sleeper has missed it |
| ProcState.AdoptKeepsStates | Code/kern/process/proc.c:577-596 | a zombie handed to a waiting init wakes it |
| ProcState.ReapKeepsStates | Code/kern/process/proc.c:896-916 | reaping a child takes nothing from any sleeper |
| Process.NoLostWakeup | Code/kern/process/proc.c:847-917 | SLEEPING exactly with wait_state WT_CHILD; a process in do_wait(0) has a child and no zombie child, one in do_wait(pid) has that child and it is no zombie; a zombie has no children |
| Process.AllHaveQuit | Code/kern/process/proc.c:1006-1015 | the asserts at the end of init_main hold when its do_wait finds no child |
| Process.ForkKeepsGood | Code/kern/process/proc.c:438-538 | a new child keeps family, indexes, states and ancestry in order |
| Process.LeavingRound | Code/kern/process/proc.c:577-596 | each round of reparenting keeps them in order too |
| Process.ReapKeepsGood | Code/kern/process/proc.c:896-916 | so does reaping |
| Process.ReapIsEvent | Code/kern/process/proc.c:167-184 | reaping takes one process off proc_list as the event of that name does in the runs of the scheduler |
| Process.ProcTable.constructor | Code/kern/process/proc.c:1023-1058 | after proc_init idle runs, init has pid 1 and is its only child |
| Process.ProcTable.FindProc | Code/kern/process/proc.c:290-307 | the hash bucket gives what a linear search of proc_list gives |
| Process.ProcTable.DoFork | Code/kern/process/proc.c:438-538 | a runnable child with the first free pid at the head of both lists, or no change; the assert on wait_state holds |
| Process.ProcTable.Leave | Code/kern/process/proc.c:566-598 | init's children are the exiter's in reverse followed by its own; its parent is woken exactly when it waits, init exactly when it waits and is handed a zombie, and nothing else changes |
| Process.ProcTable.DoExit | Code/kern/process/proc.c:544-601 | panics exactly for idle and init; otherwise the exiter is a zombie without children, wakeups are those of Leave, and schedule's choice runs next. No operation changes a zombie but the reaping, nor makes one current |
| Process.ProcTable.WaitOnce | Code/kern/process/proc.c:859-916 | reaps a zombie among the children asked for (the youngest, when any will do), returns its exit code and frees it, or reports that there is no such child, or sleeps, still asking for the same pid, because there is one and none has exited |
| Process.ProcTable.DoWait | Code/kern/process/proc.c:847-917 | the same for the pid asked for, or E_INVAL with no change for a code_store the process may not write |
| Process.ProcTable.Resume | Code/kern/process/proc.c:884-893 | a sleeper that runs again looks for the pid it asked for before and ends as WaitOnce does for that pid; one killed in its sleep exits, a panic exactly if it is init |
| Process.ProcTable.DoKill | Code/kern/process/proc.c:920-937 | marks the process found by pid, init included, and wakes it exactly when it sleeps; a zombie is never woken |
| Process.ProcTable.Schedule | Code/kern/schedule/sched.c:26-58 | the first runnable process after the current one in ring order runs next, else idle |
| Scheduler.Scan | Code/kern/schedule/sched.c:34-51 | the scan finds the first runnable process after the current one in ring order, else idle |
| Scheduler.NextUnique | Code/kern/schedule/sched.c:34-51 | that answer is unique |
| Scheduler.Closer | Code/kern/schedule/sched.c:34-51 | choosing someone else brings the scan strictly closer to a runnable process |
| Scheduler.NoFarther | Code/kern/process/proc.c:167-184 | reaping others takes nobody further away |
| Scheduler.SchedulesCount | Code/kern/schedule/sched.c:26-58 | the number that bounds waiting is that of the calls of schedule in the run |
| Scheduler.BoundedWaiting | Code/kern/schedule/sched.c:26-58 | a process that stays runnable is passed over fewer times than proc_list is long, whoever exits or is reaped meanwhile |
| Segments.PutLoads | Code/kern/process/proc.c:683-695 | writing a chunk of the segment into its page extends what is loaded and keeps the rest |
| Segments.LoadedRights | Code/kern/process/proc.c:659-672 | a segment in memory has its rights on all its pages: writable and executable as its header says, readable when it says readable or writable |
| LoadIcode.OnceMore | Code/kern/process/proc.c:681-731 | the pages of a segment are asked for once each, and were not mapped before |
| LoadIcode.NewAreaUnmapped | Code/kern/process/proc.c:665-668 | an area mm_map accepts holds no page mapped before |
| Segments.Loader.AllocPage | Code/kern/mm/pmm.c:558-578 | a page exactly when there is a frame for it and for each table it still needs, in place of what was mapped there; otherwise the frame is given back and at most one is free |
| Segments.Loader.LoadFile | Code/kern/process/proc.c:680-696 | in 64-bit addresses, the page loop puts the bytes the header points at in place, at page boundaries and within pages, and reads those bytes and no others; none when the end of the file part wraps |
| Segments.Loader.LoadZeros | Code/kern/process/proc.c:698-732 | when the end of the segment does not wrap, the rest up to p_memsz is zero, in the page the file ended in and beyond, and the assert at 717 holds; when it wraps, the memset gets p_memsz - p_filesz exactly if the file part ends inside a page, and nothing happens otherwise |
| Segments.Loader.LoadSegment | Code/kern/process/proc.c:670-732 | one segment mm_map has accepted: byte p_va + i is byte p_offset + i of the file, or 0 from p_filesz on, for all i below p_memsz, exactly when p_va + p_memsz is below 2^64, on pages with the rights of its header; otherwise what is mapped instead, and when the memset runs away; it stops only at a page for which the frames do not suffice |
| Segments.WrappedIsNotLoaded | Code/kern/process/proc.c:670-732 | a segment that wraps has a byte at address 0, where no page is mapped |
| Segments.AreaMapped | Code/kern/process/proc.c:670-732 | every page of the segment's area is mapped exactly when p_memsz is not 0 or p_va is page aligned |
| Segments.EmptySegment | Code/kern/process/proc.c:670-732 | a segment of no bytes at 0x800004: an area that holds it and no page |
| LoadIcode.WrappedMemset | Code/kern/process/proc.c:698-716 | a segment of 2^64 - 8 bytes at 0x200010 that mm_map accepts and whose memset gets 2^64 - 12 |
| LoadIcode.ReadsInside | Code/kern/process/proc.c:670-695 | all bytes read lie inside the file exactly when each header reached stays inside it |
| LoadIcode.OverRead | Code/kern/process/proc.c:670-695 | a header of 8 bytes at offset 4096 in a file of 4100 bytes: byte 4100 is read |
| LoadIcode.SaidIs | Code/kern/process/proc.c:665-668 | mm_map's answer for a segment depends on the areas of the headers before it and on kmalloc only |
| LoadIcode.Load | Code/kern/process/proc.c:634-744 | at the end all PT_LOAD segments are in memory with the rights of their headers exactly when none wraps, and then every page was asked for once and lies in an area of the same rights; each segment has its area, the stack's top four pages are there, and the frames gone are the pages and the tables they need; the bytes read are inside the file exactly when the headers reached are; each failure is at the header reached and has its exact cause, for mm_map the answer to that header's area, for memory the page the frames did not suffice for |
| Format.PrintThenParse | Code/libs/string.c:204-259 | strtol reads back what printnum printed, to the end, for every number below 2^63, base 2 to 16, width, and padding with zeros or blanks |
| Format.WrittenThenParsed | Code/libs/string.c:204-259 | strtol reads a number back from any blanks, sign and base prefix it admits (0x and 0 in base 0, 0x in base 16) followed by its digits, up to the first character that is no digit |
| Format.CapitalPrefix | Code/libs/string.c:195-259 | 0X10 in base 16 is read as 0 up to the X, 0x10 as 16 |
| Format.DigitSays | Code/libs/string.c:233-246 | digits are 0 to 9 and the letters, small or capital, with the values 10 to 35 |
| Format.PrintedWidth | Code/libs/printfmt.c:39-61 | the output is as long as the wider of the field and the number |
| Format.BaseOne | Code/libs/printfmt.c:35-48 | in base 1 the recursive call repeats the call, which happens exactly for numbers other than 0 |
| Format.SprintBuf.PrintNum | Code/libs/printfmt.c:39-61 | the recursion puts out the padding and then the digits, most significant first |
| Format.SprintBuf.Putch | Code/libs/printfmt.c:299-305 | counts every character and keeps those that fit |
| Format.Vsnprintf | Code/libs/printfmt.c:337-348 | the buffer holds the size - 1 prefix of the unbounded output and a null character, and keeps the rest of its bytes; the result is the full length |
| Format.Strtol | Code/libs/string.c:204-259 | blanks, sign, base prefix and digits, with the end of the number |

## Left out

- CowKernel.Memory.FindVma: leaves out the lookup cache, which `Vma` covers.
- CowKernel.Memory.GetPte: knows tables by region; the walk through them is in `Sv39`.
- Vma.MmMap: the executable right of an area is not kept, since no function here reads it.
- Process.ProcTable.DoFork: the memory part of a fork is `CowKernel.Memory.CopyMm`; whether it
  and the kernel stack succeed are parameters.
- PageAllocator.PageArea.FreePages: inserts with the append leaving the loop, as the comment at
  Code/kern/mm/default_pmm.c:53-55 asks; `FreeLinks` has the loop and the merges as written, for
  one call from a list whose links are right.
- LoadIcode.Load: the headers are a list; reading them from the file, the trapframe, satp and the
  clean-up after a failure are not part of it. What a memset past its page destroys is not
  followed.
- Segments.Loader.LoadSegment: memory has at most the KMEMSIZE of Code/kern/mm/memlayout.h:49, so
  addresses stay below 2^39, where the page table's indexes would repeat.
- Slob.Heap.Kmalloc: pages for the heap come from a set of their own, and the `align` path,
  `ksize` and size 0 are out.
- Sv39.PageTable.GetPte: one page table; the kernel half that address spaces share, and the huge
  pages in it, are out.
- Format.SprintBuf.PrintNum: the counter is unbounded, and base 1 with a number other than 0, for
  which the C recursion does not end, is excluded; the rest of `vprintfmt` is out.
- Format.Strtol: overflow wraps at 64 bits, which C leaves undefined.
- Copy-on-write works on page numbers; bytes within a page matter only for loads and stores.
- Kernel entries are atomic, except in `FaultInterleaving`; fork and exit overlapping a held
  `page_lock` are out, since they do not take it.
- In the copy-on-write model `kmalloc` is a sequence of answers given from outside, and its pages
  are not drawn from the frames there; `alloc_page` takes any free frame.
- Stores by the kernel to user pages (`*code_store` in `do_wait`) and one mm shared by several
  processes, since `sys_fork` passes flags 0.
- What happens after a panic.
- TLB, satp and fences, barriers, interrupts, assembly, SBI, console, clock, device tree,
  monitor and user programs.
