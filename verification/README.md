# Raincloud: what the kernel's core data structures do

This project models the core of Raincloud, a small x86_64 kernel written in C, and proves what that core keeps and
promises. It covers

- the four-level page tables: growing the tree, mapping ranges, reading them back, and the boot-time mapper
  (`Bits.dfy`, `TableTree.dfy`, `PagingSteps.dfy`, `Ranges.dfy`, `Paging.dfy`, `BootMap.dfy`);
- the two free-list allocators: the page pool (`PageBlocks.dfy`, `PagePool.dfy`, `PoolRuns.dfy`) and the kernel heap, whose
  block headers and list links lie in the same memory as the blocks it hands out (`Memory.dfy`, `HeapBlocks.dfy`,
  `HeapHeaders.dfy`, `Heap.dfy`, `HeapRuns.dfy`);
- the memory maps of processes: mapping, duplicating with a copy of every page, clearing (`VmMap.dfy`), and every run of
  everything that takes pages of the pool (`SpaceRuns.dfy`);
- the round-robin scheduler and the context switch as a transition system of timer ticks, system calls, fork, exec and
  exit, and the C code that refines it (`Context.dfy`, `SchedSpec.dfy`, `SchedRuns.dfy`, `NodeLists.dfy`, `Queue.dfy`,
  `Scheduler.dfy`);
- the FAT12/16/32 reader: table entries, layout, cluster chains, reading files, long and short names, directories
  (`FatTable.dfy`, `FatChain.dfy`, `FatFile.dfy`, `Coding.dfy`, `FatNames.dfy`, `FatDirs.dfy`);
- the path tokeniser and the tree of file nodes (`Strings.dfy`, `FsTree.dfy`, `FileTree.dfy`), and the pipe (`Pipe.dfy`).

What is a structure the kernel updates in place is a class here, and its methods follow the branches and loops of the C
functions. Each is tied to a value-level specification, and the properties of whole runs are proved about that
specification. Machine words are integers; 32-bit and 64-bit wrap-around is written out where a computation can reach it.
Page table entries are masked with bitwise and/or defined on numbers. The page table format is that of section 4.5 of the
Intel SDM, volume 3A, and what a page permits that of section 4.6; the FAT formats are those of the Microsoft FAT32 File
System Specification, version 1.03; memory types are those of EFI_MEMORY_TYPE in the UEFI Specification.

## Where the code falls short of what it is for

Each of these is a proved statement, with the condition under which the code is right and an input for which it is not.

- `__page_free` overwrites its address with the conversion of the size (arch/x86/paging.c:281). `Pool.PageFree` models the
  evident intention; `FreeAsWritten` says when the written line does the same, `FreeAsWrittenLosesPages` shows a page lost.
- `page_alloc_init` subtracts without a guard (arch/x86/paging.c:223-225): `InitialBlocksSorted`, `LowRegionWraps`.
- When both tries failed, `malloc` clears memory from address 0 on (mm/malloc.c:159). Low addresses are mapped to the
  physical memory of the same number (arch/x86/init/init_mm_map.c:212), where the pages of the heap and the head of its list
  are too. The call leaves them alone exactly when the rounded size reaches neither: `FailedMallocWipes`, `FailingRequest`.
  What a failed call promises is that of `Malloc`; the two tries alone keep everything (`TryTwice`).
- After `exit` the system call handler stores the leftover RAX through the load pointer of the thread that runs next
  (arch/x86/asm/interrupt_handler.S:28-29): `ExitDisturbs`, `ExitLeavesSeven`.
- A FAT12 entry that starts at the last byte of a sector is read from one sector only (fs/fat.c:38-46):
  `Reads12Exactly`, `Cluster341Straddles`.
- The test for a full buffer in `read_cluster_chain` can wrap (fs/fat.c:115): `OverflowTestExact`, `OverflowTestWraps`, and
  the contract of `ReadClusterChain` for when a cluster is then read past the buffer. The size that `fat_open` computes is
  taken modulo 2^32: `OpensWhole`, `OpensEmpty`.
- `fat_lseek` accepts any position (fs/fs_generic.c:75-93), and from a position outside the file `fat_read` copies memory
  outside the buffer: `ReadStaysInside`, `PositionIsSafe`, `SeekBehindFile`.
- `fatfs_readdir` does not look for the mark of a deleted file (fs/fat.c:387-413): `ListFiles`, `DeletedIsListed`. Of a long
  name, whose entries are marked too, `read_name` takes the first thirteen units only: `DeletedIsCut`.
- `read_name` does not ask for the size of the caller's buffer (fs/fat.c:226), which in `fatfs_readdir` has 256 bytes. The
  contracts of `ReadName` and `Readdir` say when it is left: `NameOverflows`, `NameDoesNotFit`.
- `read_name` cuts the fields of a short name at the first space, though spaces inside are legal (fs/fat.c:164-181):
  `ShortNameInverts`, `SpaceInside`.
- An empty file has first cluster 0, and the code follows the entry of that cluster (fs/fat.c:76-104):
  `EmptyFileLeavesVolume`.
- `fs_mknode` strips a slash at the end of its path and `fs_getnode` does not (fs/fs.c:90-131): `MakeThenGet`, `SlashAtEnd`.
- `find_node` finds something for some paths whose components do not exist (fs/fs.c:74-80): `WalkFails`, `PipePipe`, `DiskX`;
  `fs_rmnode` then removes it. And a path such as `//` frees the root when it has no children: `FreesRootExactly`,
  `RemovesRoot`.

## Model

| member | source | states |
|---|---|---|
| Lists.AddKeepsRing | include/list.h:22-47 | linking a node between two neighbours of a circular list, in word memory, makes the list whose order is the old one with the node inserted there; every other link is intact |
| Lists.DelKeepsRing | include/list.h:53-65 | unlinking a node leaves exactly the other nodes, in order, and the node is in no link any more |
| Lists.DelUndoesAdd | include/list.h:22-65 | deleting the node just added gives the old list back |
| Lists.EmptyTest | include/list.h:12-16 | a list is empty exactly when its head points to itself, the test of list_empty |
| Lists.RingFrame | include/list.h:12-65 | a write outside the words of the nodes and the head leaves the list as it is |
| RamObject.Ram.ListAddBetween | include/list.h:22-28 | __list_add performs its four stores in the source's order and yields the linked memory |
| RamObject.Ram.ListAddAfter | include/list.h:35-38 | the node goes between the head and its first node |
| RamObject.Ram.ListAddBefore | include/list.h:44-47 | the node goes between the last node and the head |
| RamObject.Ram.ListDel | include/list.h:53-65 | list_del relinks the two neighbours and writes nothing else |
| PageBlocks.FirstFitIsComplete | arch/x86/paging.c:235-262 | when no two free blocks touch, the first-fit search fails only if no run of that many free pages exists at any page address |
| PageBlocks.CutTakesPages | arch/x86/paging.c:246-259 | taking pages from the tail of a block, or the whole block, frees exactly the other pages: the pages covered afterwards are those before without the ones returned |
| PageBlocks.CutSum | arch/x86/paging.c:246-258 | the sum of the free lengths falls by exactly the pages taken |
| PageBlocks.ReleaseAddsPages | arch/x86/paging.c:279-293 | inserting a freed block in address order covers exactly the old pages and the block's, in sorted order without overlap |
| PageBlocks.ReleaseSum | arch/x86/paging.c:290-291 | the sum of the free lengths grows by exactly the pages given back |
| PageBlocks.MergeKeepsPages | arch/x86/paging.c:294-316 | merging keeps the set of free pages, the address order and the sum, and ends with no two adjacent blocks |
| PageBlocks.SumCountsPages | arch/x86/paging.c:323-343 | the sum of the lengths is the number of free pages |
| PagePool.MergedFailureIsExhaustion | arch/x86/paging.c:264-278 | a failure after merging means that no contiguous run of that many free pages exists before the merge either |
| PagePool.ValidIsConsistent | arch/x86/paging.c:323-343 | in every valid pool state the consistency check finds nothing to report |
| PagePool.TakesPages | arch/x86/paging.c:235-262 | the pages handed out were all free, and exactly they leave the free set |
| PagePool.ReleasePages | arch/x86/paging.c:279-293 | a release adds exactly the pages of the block to the free set |
| PagePool.FreeAsWritten | arch/x86/paging.c:279-282 | as the line is written, `addr` is replaced by the conversion of `size`: the block that is freed is the intended one if and only if the two numbers are equal |
| PagePool.FreeAsWrittenLosesPages | arch/x86/paging.c:279-282 | one page at 0x3000, freed as the line is written: it is lost, the bytes from address 1 on are free instead, and the list is no longer page aligned |
| PagePool.InitialBlocksSorted | arch/x86/paging.c:214-230 | regions in order give a sorted free list if and only if every usable region ends above the lower bound: otherwise the unguarded subtraction wraps |
| PagePool.InitialBlocksCover | arch/x86/paging.c:214-230 | for regions that end above the lower bound: an address is in the free list if and only if it lies, at or above the bound, in a region of UEFI type 1 to 4 or 7 |
| PagePool.RegionCovers | arch/x86/paging.c:217-227 | one such region becomes exactly its bytes at and above the bound |
| PagePool.LowRegionWraps | arch/x86/paging.c:223-225 | a usable page below the lower bound becomes a block of 2^52 - 254 pages: the list is not a free list |
| PagePool.Pool.constructor | arch/x86/paging.c:203-234 | page_alloc_init puts exactly the pages of regions of usable type at or above the lower bound under management, all of them free |
| PagePool.Pool.AllocFirstFit | arch/x86/paging.c:235-262 | the list walk of __page_alloc takes the last pages of the first block that is long enough, and fails exactly when none is |
| PagePool.Pool.MergeBlocks | arch/x86/paging.c:294-316 | the nested loops of __page_merge compute the merge of the whole list and leave the counters alone |
| PagePool.Pool.ConsistencyCheck | arch/x86/paging.c:323-343 | the loop reports nothing if and only if the neighbours are in order and the lengths add up to the available count |
| PagePool.Pool.PageAlloc | arch/x86/paging.c:264-278 | INVALID_ADDR is returned if and only if the size is 0 or no run of that many free pages exists; otherwise the pages were free, are well placed, and are the only ones to leave the pool |
| PagePool.Pool.PageFree | arch/x86/paging.c:279-322 | giving pages back at their own address makes exactly them free again; the check that follows never fires |
| PoolRuns.TakeShared | arch/x86/paging.c:235-278 | a grant keeps the sharing: every managed page is free or in exactly one grant |
| PoolRuns.GiveShared | arch/x86/paging.c:279-293 | a release keeps the sharing |
| PoolRuns.Step | arch/x86/paging.c:264-322 | one request of a client, among pages that others hold too: refused exactly when there is no such run of free pages, and a refusal changes no grant |
| PoolRuns.Run | arch/x86/paging.c:264-322 | over any sequence of page_alloc and page_free by clients alone, each managed page is free or belongs to exactly one grant, and the available count is the number of free pages |
| Bits.AndAssociative | arch/x86/paging.c:13-29 | masking twice is masking with the combined mask, for words of any width |
| Bits.AndOverOr | arch/x86/paging.c:26-29 | a mask distributes over the union of an address and its flags |
| Entries.MaskKeepsAddr | arch/x86/paging.c:17-20 | the address mask returns an address unchanged if and only if it is page aligned and below 48 bits |
| Entries.EntryReadsBack | arch/x86/paging.c:17-29 | an entry made of an address and flags is present and reads back both if and only if the address fits its field and the flags are present and within the flag mask |
| Entries.EntryPresence | arch/x86/paging.c:21-29 | whatever the address, presence and flags of an entry come from the flags alone |
| Entries.DefaultFlags | arch/x86/paging.c:52-58 | the flags of an empty entry are not present; those of tables and of pages read back unchanged |
| Entries.TableEntryPasses | arch/x86/paging.c:52-58 | the entry that links a new table permits writing, user access and execution, and is no large page |
| Entries.RightsInBits | arch/x86/paging.h:116-126 | the rights of an entry, which the masks name, are its bits 1, 2 and 63, and bit 7 is the one of large pages |
| Entries.FlagsThatFit | arch/x86/paging.c:26-29 | the flag words that can be read back are those with bit 0 set, any of bits 1 to 8, and bit 63 or not |
| TableTree.ShiftedIndex | arch/x86/paging.c:51-82 | the nine bits that each level shifts out of a virtual address are the digits of its page number |
| TableTree.StepDown | arch/x86/paging.c:51-80 | following the index of one level leads to the table of the next level for the same page |
| TableTree.WalkFindsView | arch/x86/paging.c:92-132 | under the no-aliasing invariant the four-level walk reads exactly the entry of the page's own lowest table |
| TableTree.GrowTree | arch/x86/paging.c:52-58 | linking an empty table in a page that no entry reaches keeps the invariant: no table is reached by two entries |
| TableTree.GrowKeepsView | arch/x86/paging.c:52-80 | a new table changes what no page translates to |
| TableTree.SetLeaf | arch/x86/paging.c:82-83 | writing the entry of a page keeps the tree |
| TableTree.SetLeafView | arch/x86/paging.c:82-83 | writing the entry of a page changes the translation of that page and of no other |
| TableTree.AccessIsLeaf | arch/x86/paging.c:51-132 | under the tree, what the processor grants on its own walk, with the rights of all four entries put together, is the page of the lowest entry with the rights of that entry alone |
| PagingSteps.FreshPage | arch/x86/paging.c:42-45 | a page from the allocator is no table yet, and no table is ever free |
| PagingSteps.OneMoreTable | arch/x86/paging.c:52-80 | growing by a fresh table keeps the tree, every translation, and all memory outside the tables |
| PagingSteps.PageBecomesTable | arch/x86/paging.c:42-58 | a page that becomes a table leaves the data pages as they were: free pages, tables and data pages go on sharing out the pool |
| Ranges.PagesDiffer | arch/x86/paging.c:85-91 | the page numbers of a range, with 64-bit and 48-bit wrap-around, repeat only after the whole 48-bit space |
| Ranges.HitIsOwn | arch/x86/paging.c:85-91 | in a range that fits physical memory every page is written last by its own step |
| Ranges.RangeReadsBack | arch/x86/paging.c:133-147 | after a range was mapped, the validation succeeds if and only if the range is empty, or its flags are readable, its start is page aligned and it ends within the address field |
| Ranges.RanShortExactly | arch/x86/paging.c:85-91 | mapping stops for want of a page exactly when the tables missing before are more than the free pages |
| Ranges.RangeTranslates | arch/x86/paging.c:85-91 | no page outside the mapped range translates differently than before |
| Ranges.MappedIsGranted | arch/x86/paging.c:85-91 | after the range is mapped, the processor finds each of its pages with exactly the rights of the flags, and every other page with the rights it had |
| Paging.AddressSpace.AddTable | arch/x86/paging.c:42-58 | an absent entry gets an empty table from the pool; the free pages and the tables together stay as many |
| Paging.AddressSpace.NextTable | arch/x86/paging.c:51-60 | one level: an existing table is followed, a missing one is made, and nothing else translates differently |
| Paging.AddressSpace.FindLeafTable | arch/x86/paging.c:51-80 | the walk makes exactly the tables that are missing on the way to the page |
| Paging.AddressSpace.DoMapping | arch/x86/paging.c:46-84 | afterwards the page reads as the new entry and every other page as before, and of the pages in use only tables were written |
| Paging.AddressSpace.MapByPages | arch/x86/paging.c:85-91 | the loop maps the range, or runs out of pages exactly when more tables are missing than pages are free |
| Paging.AddressSpace.QueryMapping | arch/x86/paging.c:92-132 | the four-step read returns the translation of the page, or nothing where an entry on the way is absent |
| Paging.AddressSpace.ValidateMapping | arch/x86/paging.c:133-147 | it halts if and only if some page of the range does not read back its address and flags |
| Paging.AddressSpace.ModifyChunkMapping | arch/x86/paging.c:153-158 | the outcome is decided before the call: out of pages, halted, or done; when done, every page of the range translates to its physical page with the flags, and permits what the flags permit, every other page as before, no data page was written or lost, and exactly the missing tables were made |
| BootMap.BootSpace.constructor | arch/x86/init/init_mm_map.c:200-202 | the root table is the first page of the run and translates nothing |
| BootMap.BootSpace.ContinousAlloc | arch/x86/init/init_mm_map.c:55-59 | the page handed out holds no table, fits an entry, and is the next of the run: with a table in it, for whatever slot, the tables still fill the run without a gap |
| BootMap.BootSpace.DoMapping | arch/x86/init/init_mm_map.c:60-98 | afterwards the page reads as the new entry and every other page as before; the tables are those there were and those the page needs |
| BootMap.BootSpace.MapByPages | arch/x86/init/init_mm_map.c:99-105 | page_table_size grows by exactly one page for each table the range needs and did not have; there need be room for these only; a mappable range then permits what its flags permit |
| BootMap.NeededIsBetween | arch/x86/init/init_mm_map.c:60-105 | a range that does not wrap needs exactly the tables of the three lower levels with prefixes from its first page to its last |
| BootMap.NeededSize | arch/x86/init/init_mm_map.c:99-105 | the number of those tables is the sum over the shifts 21, 30 and 39 of the last prefix minus the first plus one |
| BootMap.BootTablesBounded | arch/x86/init/init_mm_map.c:99-105 | that sum bounds what one range costs, whatever tables exist before |
| BootMap.RunIsFull | arch/x86/init/init_mm_map.c:55-59 | the table pages are distinct and contiguous: every page of the run from page_table_base holds exactly one table |
| VmEntries.MapsLikeNext | mm/vm_map.c:37-49 | mapping one more entry on top makes the map look up the last covering entry |
| VmEntries.MapsIsGranted | mm/vm_map.c:37-49 | a page that an entry covers permits what the flags of the last such entry permit |
| VmEntries.UserEntryAllowed | mm/vm_map.c:39-44 | of the entries whose flags can be read back and whose end does not wrap, the assertions pass exactly those that end in the lower half of the address space |
| VmEntries.EntryMapped | mm/vm_map.c:45-48 | one mapped entry translates each of its pages at its offset and leaves the others |
| VmMaps.VmMap.Add | mm/vm_map.c:10-19 | from then on the map says of every page the new entry covers what that entry says, and of every other page what it said before |
| VmMaps.VmMap.FreeEntry | mm/vm_map.c:28 | the entry's pages, and only they, become free, and no table becomes free |
| VmMaps.VmMap.DoMapping | mm/vm_map.c:33-50 | it comes to its end if and only if every entry passes its assertions and can be read back, and the tables missing for all entries together are no more than the free pages; then every page covered by an entry translates through the last entry in list order that covers it, with its flags and what these permit, and every other page as before |
| VmMaps.VmMap.EntryDup | mm/vm_map.c:56-65 | the copy has pages of its own from the pool, with the same bytes, no other page in use is written, and it fails only when there is no such run of free pages |
| VmMaps.VmMap.Dup | mm/vm_map.c:69-85 | the duplicate has the same entries in order, or the first of them where the pages run out; it shares no page with the original, itself or the tables, holds the same bytes, and exactly its pages become data pages |
| VmMaps.VmMap.Clear | mm/vm_map.c:20-32 | every page of every entry goes back to the pool, these are exactly the data pages lost, and the list is empty |
| VmMaps.VmMap.DupThenClear | mm/vm_map.c:20-85 | duplicating a map and clearing the duplicate leaves the pool with the same free pages and the same data pages, even where the duplication ran short |
| VmCopies.CopyNext | mm/vm_map.c:73-84 | one more copied entry keeps the copies apart from each other and from their originals |
| VmEntries.PagesDo | mm/vm_map.c:37-49 | with some entries mapped, the pages left do for the next one if and only if the pages there were did for all of them |
| Holdings.AddParted | proc/exec.c:20-26 | a grant that becomes an entry of a map is no grant any more, and the pages in use are still shared out |
| Holdings.NewMapParted | mm/vm_map.c:69-85 | a map over pages nobody held is apart from all grants and maps |
| Holdings.ClearParted | mm/vm_map.c:20-32 | clearing a map takes exactly its pages out of the pages in use |
| Holdings.RequestParted | arch/x86/paging.c:264-322 | what clients take and give back stays within the free pages and their grants, away from tables and maps |
| SpaceRuns.Step | mm/vm_map.c:20-85 | one page_alloc, page_free, modify_chunk_mapping, vm_map_init, vm_map_add, vm_map_do_mapping, vm_map_dup or vm_map_clear, with its exact effect on grants and maps, when a request is refused, and when it stops the machine |
| SpaceRuns.Run | arch/x86/paging.c:153-343 | over any run of page_alloc, page_free, mapping, vm_map_dup and vm_map_clear, free pages, table pages, grants and the pages of all live maps are pairwise disjoint and make up the pool, and the available count is the number of free pages |
| HeapBlocks.TakeTiles | mm/malloc.c:44-65 | handing a block out whole or splitting its tail off keeps the blocks tiling the heap without a gap |
| HeapBlocks.TakeLive | mm/malloc.c:44-65 | exactly one live block is added, of at least the size asked for, where the taken block ended |
| HeapBlocks.GivenIsTail | mm/malloc.c:46-65 | what is handed out ends where the block ended, and is longer than the rounded size by less than a header and 16 bytes |
| HeapBlocks.TakenWith | mm/malloc.c:46-65 | of what was free, only the block handed out and its header is taken |
| HeapBlocks.TakeCounts | mm/malloc.c:48-64 | the available count and the block count follow the list |
| HeapBlocks.ReleaseLive | mm/malloc.c:73-85 | freeing a block removes it, and it alone, from the live blocks |
| HeapBlocks.JoinTiles | mm/malloc.c:98-109 | joining two free neighbours keeps the tiling |
| HeapBlocks.JoinLive | mm/malloc.c:98-109 | joining changes no live block |
| HeapBlocks.FirstFitIsComplete | mm/malloc.c:146-157 | once no two neighbours are free, first fit fails only if no span of the heap has room for a header and the size outside the live blocks |
| HeapBlocks.NothingLive | mm/malloc.c:89-112 | when nothing is live, merging leaves one block of the total minus one header |
| HeapBlocks.TiledLengths | mm/malloc.c:113-134 | the lengths and the headers of a tiling add up to the total, which is what the check adds up |
| HeapBlocks.LiveApart | mm/malloc.c:32-68 | two different live blocks share no byte |
| HeapBlocks.Aligned | mm/malloc.c:25-68 | every payload is 16-byte aligned |
| HeapHeaders.AddBlock | mm/malloc.c:55-60 | writing the new header and linking it in gives a list that holds the split blocks |
| HeapHeaders.DelBlock | mm/malloc.c:101-102 | unlinking a header gives a list that holds the other blocks |
| HeapHeaders.ClearHeader | mm/malloc.c:102 | the words of an absorbed header are zeroed without touching the list |
| HeapHeaders.LiveIsNotMeta | mm/malloc.c:32-112 | no word of a live payload is a header word or a link |
| HeapHeaders.MetaKeepsLive | mm/malloc.c:32-112 | writing headers and links changes no word of a live block, though they lie in the same memory |
| HeapSteps.SplitStep | mm/malloc.c:55-64 | the whole split, on memory: the list holds the new blocks and every live word is kept |
| HeapSteps.JoinStep | mm/malloc.c:98-109 | one join, on memory: the list holds the joined blocks and every live word is kept |
| Heap.FailedMallocWipes | mm/malloc.c:152-159 | the memset of a failed malloc begins at address 0, which is mapped to physical address 0: it leaves the block list and its head alone, and then every live word too, if and only if the rounded size reaches the physical address of neither the heap nor the head |
| Heap.FailingRequest | mm/malloc.c:146-190 | on the heap as malloc_init leaves it, with pages that begin below 2^28, malloc(2^28) fails and wipes the heap |
| Heap.WipedAt | mm/malloc.c:159 | a word of the heap or of the list head is zero after that memset exactly when its physical address was cleared |
| Heap.KernelHeap.constructor | mm/malloc.c:176-190 | malloc_init leaves one free block of the total minus one header |
| Heap.KernelHeap.TakeWhole | mm/malloc.c:46-51 | the block is marked and counted, nothing else moves |
| Heap.KernelHeap.TakeTail | mm/malloc.c:52-65 | the block is split, and the tail's payload is returned |
| Heap.KernelHeap.TryMalloc | mm/malloc.c:32-68 | __malloc takes from the first unused block that is long enough, or returns NULL and changes nothing |
| Heap.KernelHeap.ConsistencyCheck | mm/malloc.c:113-134 | the loop reports nothing if and only if the blocks are contiguous and lengths and headers add up to the total |
| Heap.KernelHeap.CheckHeap | mm/malloc.c:113-134 | in every state of the heap the check passes |
| Heap.KernelHeap.MergeBlocks | mm/malloc.c:89-112 | afterwards no two neighbours are free, and every live block and its words are as before |
| Heap.KernelHeap.ClearBlock | mm/malloc.c:159 | the memset of a successful call: the block is zero over the rounded size and no other live word changes |
| Heap.KernelHeap.ClearLow | mm/malloc.c:159 | the memset of a failed call: the heap survives it if and only if the size reaches neither its physical address nor that of its list head |
| Heap.KernelHeap.TryTwice | mm/malloc.c:152-157 | the two tries fail if and only if no span has room for a header and the size; whether or not they do, the heap is valid and every live word is kept |
| Heap.KernelHeap.Malloc | mm/malloc.c:146-164 | NULL if and only if the size is 0 or no span has room for a header and the rounded size; otherwise a new live block, aligned, zeroed, apart from every other, as long as the rounded size and by less than a header and 16 bytes longer; nothing else that was free is taken. As far as the memory of the heap goes, it is valid afterwards, and all live words are kept, if and only if the call succeeds, the size is 0, or the rounded size reaches neither the heap nor its list head in physical memory |
| Heap.KernelHeap.Free | mm/malloc.c:73-169 | a live block leaves the live blocks, its bytes and no others become free, and every other live word is kept; a block that is not used is reported and nothing changes |
| HeapRuns.Run | mm/malloc.c:32-169 | over any run of allocations, writes and releases, every object holds exactly what its own operations put into it, and the live blocks are exactly the objects, each less than a header and 16 bytes longer than its rounded size; as far as the memory of the heap goes, the run comes to its end unless a request fails whose rounded size reaches the heap or its list head in physical memory |
| HeapRuns.AgreesAlloc | mm/malloc.c:146-164 | an allocation adds one zeroed object and disturbs none |
| HeapRuns.AgreesDealloc | mm/malloc.c:165-169 | a release drops one object and disturbs none |
| Context.LoadInvertsSave | arch/x86/context.c:9-49 | loading puts the saved 22 registers back into any frame and keeps slot 17 and everything above the frame |
| Context.StackPops | arch/x86/asm/context_switch.S:6-63 | what the processor, the call and context_save push is what context_load and iretq pop, register by register |
| Context.SavedFields | arch/x86/context.c:9-30 | saving puts every register of the interrupted thread into its own field of the context, around the return address |
| Context.LoadedFields | arch/x86/context.c:32-49 | loading makes the stack the one that resumes with the fields of the context, with the return address of context_load and all words above the frame in place |
| Context.ResultField | arch/x86/asm/interrupt_handler.S:28-29 | the word a result is stored to is RAX |
| SchedSpec.SchedKeepsSound | proc/sched.c:83-111 | sched always finds a thread, queues none twice, loses no runnable thread, and never picks a stopped one |
| SchedSpec.StepKeepsSound | proc/sched.c:83-111 | every tick, system call, fork, exec and exit keeps that invariant |
| SchedSpec.RunIsSound | proc/sched.c:28-111 | it holds after every run from boot |
| SchedSpec.BootIsSound | proc/sched.c:28-52 | it holds after sched_init |
| SchedSpec.RunnableKeeps | proc/sched.c:88-95 | dropping stopped threads at the head of the queue drops no other thread |
| SchedRuns.ContextIsOwed | proc/sched.c:83-111 | in every reachable state the saved context of a thread that is not running is the one of its last interrupt, or its first one |
| SchedRuns.ResumesWhereItStopped | arch/x86/asm/interrupt_handler.S:3-7 | after any run, the next interrupt returns to the thread it picks with exactly the registers that thread is owed and an otherwise untouched frame; only exit puts its leftover RAX there |
| SchedRuns.ResumesCpu | arch/x86/asm/interrupt_handler.S:3-7 | in the processor's registers: after any run, the stack the next interrupt returns through is the one that resumes the chosen thread with RAX to GS, RIP, CS, RFLAGS, RSP and SS as they were when it was interrupted last, or made; only exit puts its leftover in RAX |
| SchedRuns.ExitDisturbs | arch/x86/asm/interrupt_handler.S:27-31 | the resumed thread gets exactly what it is owed if and only if the interrupt was not exit or the leftover equals its own RAX |
| SchedRuns.ExitLeavesSeven | arch/x86/asm/interrupt_handler.S:27-31 | a run from boot of two threads after which the first is resumed with 7 in RAX, where it was interrupted with 0 |
| SchedRuns.ForkReturnsTwice | proc/fork.c:4-28 | the child is owed its parent's registers with the process id in RAX and is queued last; the parent goes on with RAX 0 |
| SchedRuns.StepStops | proc/exit.c:3-15 | only exit stops threads: those of the leaving process, never the first thread, and the running thread is never stopped |
| SchedRuns.StoppedForever | proc/sched.c:88-95 | a thread marked -1 never runs again, in any continuation |
| SchedRuns.SchedMoves | proc/sched.c:83-103 | each call of sched picks a runnable thread or brings it nearer to the head |
| SchedRuns.BoundedWait | proc/sched.c:83-105 | whatever comes between, a thread at place p of the queue that is not stopped is chosen within p + 1 calls of sched |
| Queues.Queue.Enqueue | lib/queue.c:35-43 | the ring of nodes carries the old elements in order and the new one behind them |
| Queues.Queue.Dequeue | lib/queue.c:22-34 | the first element leaves the queue, and an empty queue yields NULL and stays empty |
| NodeLists.NodeList.AddLast | lib/queue.c:37-41 | a new node, initialised and linked in before the head, makes the ring carry one more item, the last |
| NodeLists.NodeList.RemoveFirst | lib/queue.c:27-30 | unlinking the node after the head leaves a ring that carries the other items |
| NodeLists.NodeList.After | include/list.h:127-128 | one step of list_for_each: the cursor is at the next item, or back at the head exactly behind the last one |
| Queues.Run | lib/queue.c:22-43 | over any interleaving of enqueues and dequeues, what was dequeued is the beginning of what was enqueued and the rest of it is in the queue |
| Scheduling.Kernel.constructor | proc/sched.c:28-52 | one queued kernel thread, current, with a zeroed context and both pointers on it |
| Scheduling.Kernel.Sched | proc/sched.c:83-111 | the assertion in the loop cannot fail; the new state is the transition system's, and the save and load pointers belong to the new current thread |
| Scheduling.Kernel.TakeRunnable | proc/sched.c:87-95 | the loop terminates and drops exactly the stopped threads at the head |
| Scheduling.Kernel.Fork | proc/fork.c:4-28 | a copy of the running thread in a new process is queued last, with the process id in its saved RAX |
| Scheduling.Kernel.Exec | proc/exec.c:12-59 | from a thread without a process, a new thread with the initial context of thread_init is queued last |
| Scheduling.Kernel.Exit | proc/exit.c:3-24 | exactly the threads of the running process are marked stopped, then another is chosen |
| Scheduling.Kernel.MarkStopped | proc/exit.c:9-15 | the loop adds exactly the listed threads to the stopped ones |
| Scheduling.Kernel.ContextSave | arch/x86/context.c:9-28 | the 22 words around slot 17 of the frame are copied into the context the save pointer names, and no other context changes |
| Scheduling.Kernel.ContextLoad | arch/x86/context.c:30-49 | the context the load pointer names is copied around slot 17, which keeps its word |
| Scheduling.Kernel.Systick | arch/x86/asm/interrupt_handler.S:3-7 | save, sched and load, in this order, are the tick of the transition system; the context of the interrupted thread has its registers, and the stack resumes the chosen one with those of its context |
| Scheduling.Kernel.SyscallPlain | arch/x86/asm/interrupt_handler.S:11-33 | a call that only computes: the stack resumes the caller with the result in RAX and every other register as it was; the state is that of the transition system |
| Scheduling.Kernel.SyscallExec | arch/x86/asm/interrupt_handler.S:11-33 | the whole system call is the spawn step; the new thread starts in user mode with interrupts on, at address 0 with its stack at 4096 and general registers zero, and the caller goes on with its registers but for RAX |
| Scheduling.Kernel.SyscallFork | arch/x86/asm/interrupt_handler.S:11-33 | the whole system call is the fork step; the caller resumes with RAX 0 and the child has the same registers with the process id in RAX |
| Scheduling.Kernel.SyscallExit | arch/x86/asm/interrupt_handler.S:11-33 | the whole system call is the exit step: another thread is resumed with the registers of its context, but for the leftover RAX, which is stored through the load pointer that sched has moved |
| FatTable.Reads16 | fs/fat.c:7-60 | for FAT16 the entry read is the entry that the specification packed, for every cluster of the table |
| FatTable.Reads32 | fs/fat.c:7-60 | for FAT32 the entry read is the packed entry without its four reserved bits |
| FatTable.Reads12Exactly | fs/fat.c:7-60 | for FAT12 the entry read is the packed entry, whatever lies behind the sector buffer, if and only if the entry does not start at the last byte of a sector |
| FatTable.Cluster341Straddles | fs/fat.c:37-46 | cluster 341 of a FAT12 volume: its entry begins at byte 511, and what lies behind the sector buffer decides what is read |
| FatTable.LayoutFits | fs/fat.c:266-301 | for a consistent volume no 32-bit sum wraps and the regions follow one another to the last sector |
| FatTable.Geometry | fs/fat.c:266-301 | what is used of the parameter block; the root directory has as many sectors as its entries need; the clusters are as many as fit in the rest of the volume, and below 4085 of them it is FAT12, from 65525 on FAT32 |
| FatTable.LookupStaysInTable | fs/fat.c:7-27 | the lookup of a data cluster reads a sector of the first table, and its entry is inside that table |
| FatTable.LookupInCopy | fs/fat.c:7-27 | the lookup in another copy of the table reads the same sector of that copy, which ends before the root directory |
| FatTable.ClusterInData | fs/fat.c:64-72 | the sectors of a data cluster lie in the data region, behind the tables and within the volume |
| FatTable.ClustersFollow | fs/fat.c:64-72 | cluster 2 begins with the data region and each other one where the one before ends |
| FatTable.ClustersApart | fs/fat.c:64-72 | two data clusters share no sector |
| FatChain.ChainIsAcyclic | fs/fat.c:76-104 | a chain that ends in the mark the loop looks for visits no cluster twice |
| FatChain.ChainIsShort | fs/fat.c:76-104 | so it has at most 2^28 + 1 clusters and its length cannot wrap |
| FatChain.ComputeClusterChainLength | fs/fat.c:76-104 | the loop ends and returns the length of the chain |
| FatChain.OnesEndChain | fs/fat.c:76-104 | the value the loop stops at is the entry with ones in all bits that count |
| FatChain.EmptyFileLeavesVolume | fs/fat.c:76-104 | the first cluster 0 of an empty file: on a fixed disk its entry is neither the end mark nor a data cluster, so the loops leave the volume |
| FatChain.ReadCluster | fs/fat.c:64-72 | the buffer gets the cluster's sectors in order, and nothing else changes |
| FatChain.ContentsAt | fs/fat.c:64-150 | byte b of sector j of the chain's cluster i is byte b of the j-th sector from that cluster's start on |
| FatChain.OverflowTestExact | fs/fat.c:114-116 | the test for a full buffer is right after every number of whole clusters if and only if one cluster more than the buffer has room for does not wrap in 32 bits |
| FatChain.OverflowTestWraps | fs/fat.c:114-116 | a buffer of 2^32 - 1 bytes, full but for 511, is given another cluster of 512 |
| FatChain.PackedChain | fs/fat.c:7-104 | a file whose clusters the table packs by the specification, none straddling two sectors, is a chain to the code, for every type of volume |
| FatChain.PackedChainApart | fs/fat.c:64-104 | its clusters lie in the data region and no two of them share a sector |
| FatChain.ReadClusterChain | fs/fat.c:108-150 | from cluster k on it reads min(max(n-k, 0), bufsize / cluster size) clusters, the buffer is their concatenation and its rest is untouched; a cluster is read past the end of the buffer if and only if the chain is longer than that and the test for a full buffer wraps |
| FatFile.NeededBufSize | fs/fat.c:466-469 | the size is the length of the chain in bytes, modulo 2^32 |
| FatFile.Readfile | fs/fat.c:459-465 | nothing is read into a buffer smaller than the file; otherwise what the chain reader reads, with the same exact condition for staying inside the buffer |
| FatFile.Open | fs/fs_generic.c:37-54 | for every chain, when the size test passes and what is in the buffer then; the needed size is taken modulo 2^32 |
| FatFile.OpensWhole | fs/fs_generic.c:37-54 | for a chain below 2^32 bytes nothing leaves the buffer, the test passes if and only if the directory gives a file size not larger than the chain, and then the buffer holds the chain |
| FatFile.OpensEmpty | fs/fs_generic.c:37-54 | a chain of a multiple of 2^32 bytes passes the test with an empty buffer, whatever the file size |
| FatFile.FatContext.Read | fs/fs_generic.c:65-74 | at any position: the copy stays inside the buffer if and only if the position is in the file and the 64-bit sum with the size does not wrap; then the next bytes are copied, as many as asked for or left of the file, and the offset moves behind them |
| FatFile.FatContext.Lseek | fs/fs_generic.c:75-93 | the offset is the one asked for, as a signed 64-bit number, and reads of every size then stay inside the buffer if and only if it is between 0 and the file size |
| FatFile.ReadStaysInside | fs/fs_generic.c:65-74 | the range fat_read copies, with its unsigned 64-bit sum and difference, is inside the buffer if and only if the position is in the file and the sum does not wrap |
| FatFile.PositionIsSafe | fs/fs_generic.c:65-74 | for all sizes up to the largest result: if and only if the position is between 0 and the file size |
| FatFile.SeekBehindFile | fs/fs_generic.c:65-93 | SEEK_SET to one byte behind the file: every read then leaves the buffer |
| FatFile.ReadPieces | fs/fs_generic.c:65-74 | however a sequence of fat_read calls cuts the file, together they are the file from the starting offset on, and never go past its size |
| FatFile.SeekAndRead | fs/fs_generic.c:65-93 | a seek into the file from its beginning, from the position or from its end, and a read: exactly the bytes from there on, as many as asked for or left |
| FatFile.OpenAndRead | fs/fs_generic.c:37-74 | fat_open and any sequence of fat_read calls: they come through if and only if the file size is within the chain's, taken modulo 2^32, and reading the chain fills a buffer of that size and stays inside it; then together they yield the first bytes of the clusters of the chain, as many as asked for, or the whole file |
| FatFile.ReadableBelow | fs/fs_generic.c:37-54 | for a chain below 2^32 bytes that is the case if and only if the file size is not larger than the chain |
| Strings.TokensStep | lib/string.c:93-116 | skipping delimiters, taking a run and going on behind it, again and again, yields all maximal runs |
| Strings.StrtokR | lib/string.c:93-116 | one call returns the first run, saves the position behind it and writes only the zero that ends it |
| Strings.TookMeans | lib/string.c:93-116 | that call yields the first token as a string of its own and leaves exactly the other tokens, unchanged, to the next call |
| Strings.TokensJoin | lib/string.c:93-116 | the tokens joined are the path without its delimiters: none lost, none invented, none moved |
| Strings.TokensAreRuns | lib/string.c:93-116 | no token is empty or holds a delimiter |
| Strings.TokensCut | lib/string.c:93-116 | a path cut behind a delimiter has the tokens of both parts |
| Strings.Strspn | lib/string.c:124-135 | the length of the longest prefix of accepted bytes |
| Strings.Strcspn | lib/string.c:137-145 | the length of the longest prefix of bytes not rejected |
| Strings.Strpbrk | lib/string.c:174-181 | the first byte of the set, or NULL |
| Strings.Strcmp | lib/string.c:64-77 | 0 exactly when the strings are equal |
| FsTree.WalkIsExact | fs/fs.c:52-86 | a path whose components all exist is found exactly |
| FsTree.WalkMissing | fs/fs.c:64-80 | one missing component: the search ends, at a mount point with that node; where it repeats the name of the node it should be a child of, the search stays and goes on |
| FsTree.WalkReaches | fs/fs.c:58-80 | the search comes as far as the components exist |
| FsTree.WalkFails | fs/fs.c:58-86 | find_node returns NULL if and only if a component is missing below a node that neither is a mount point nor has the name of that component, or has it and the same is true of the rest of the path from there |
| FsTree.ExactKept | fs/fs.c:120-125 | adding a node changes no lookup that succeeded before |
| FsTree.NewNodeIsFound | fs/fs.c:103-131 | the new node is what its path leads to if and only if its parent had no child of that name |
| FsTree.WithoutUndoesWith | fs/fs.c:120-152 | removing the node just added gives the same tree back |
| FileTree.FileSystem.FindNode | fs/fs.c:52-86 | the token loop walks the tree along exactly the components of the path |
| FileTree.FileSystem.GetNode | fs/fs.c:90-99 | the node found, provided it has the path's last name |
| FileTree.FileSystem.MkNode | fs/fs.c:103-131 | a new last child of the node the directory part leads to, with the last component as its name; -1 and no change where there is no such node, for every path with a slash in front of its last name |
| FileTree.FileSystem.RmNode | fs/fs.c:135-152 | the node leaves its parent's list; -1 and no change for the root path, a missing node or one with children; the tree stays whole if and only if the path is "/", or has anything but slashes, or the root has children |
| FileTree.FreesRootExactly | fs/fs.c:135-152 | a childless root is found by exactly the paths of nothing but slashes |
| FileTree.RemovesRoot | fs/fs.c:135-152 | on a childless root, "//" frees it |
| FileTree.PipePipe | fs/fs.c:74-152 | after fs_init no node is at "/pipe/pipe", yet fs_getnode returns the pipe and fs_rmnode removes it |
| FileTree.DiskX | fs/fs.c:74-152 | after fs_init no node is at "/disk/x", yet find_node returns the mount point and fs_rmnode removes it |
| FileTree.InitialIsMade | fs/fs.c:221-240 | the tree of fs_init is what its three calls of fs_mknode make |
| FileTree.PartsSplit | fs/fs.c:111-114 | the components of a path are those of its directory part and its last name |
| FileTree.StrippedParts | fs/fs.c:10-21 | stripping a slash at the end changes no component |
| FileTree.MakeThenGet | fs/fs.c:90-131 | after fs_mknode below an existing directory, fs_getnode of the same path returns the new node if and only if the path does not end with a slash and named nothing before |
| FileTree.SlashAtEnd | fs/fs.c:10-131 | fs_mknode of "/a/" on an empty root succeeds and makes "/a"; fs_getnode finds it there and nothing at "/a/" |
| FileTree.MakeKeepsLookups | fs/fs.c:52-131 | every lookup by existing components finds what it found before |
| FileTree.RemoveUndoesMake | fs/fs.c:103-152 | fs_rmnode of a path that fs_mknode just made succeeds and gives the old tree back, with a slash at the end or without |
| Pipes.RingTake | fs/fs_special.c:79-84 | moving the read offset on takes off the oldest byte |
| Pipes.RingPut | fs/fs_special.c:92-97 | storing at the write offset adds a newest byte and overwrites none that is unread |
| Pipes.Pipe.Read | fs/fs_special.c:74-86 | the oldest bytes are delivered, as many as asked for or held, and the rest stays in order |
| Pipes.Pipe.Write | fs/fs_special.c:87-99 | as many bytes as there is room for are appended in order; the write offset stays the read offset plus the length, modulo 4096 |
| Pipes.Run | fs/fs_special.c:59-99 | over any interleaving of pipe_read and pipe_write on the ring, the bytes delivered are a prefix of those accepted and the remainder is what the ring holds between its offsets, `length` bytes and at most 4096, with write_offset = (read_offset + length) mod 4096; every call moves as many bytes as it can |
| Coding.UnicodeIntoUtf8 | lib/coding.c:7-58 | the bytes stored are the UTF-8 form of the code point, as many as returned, and no other byte changes |
| Coding.DecodeInvertsEncode | lib/coding.c:7-58 | whatever follows, decoding gives the code point back, and the first byte tells where the next one begins |
| Coding.ShortestForm | lib/coding.c:7-58 | each code point gets its shortest form: n bytes suffice exactly below 2^7, 2^11, 2^16, 2^21, 2^26 and 2^31 |
| Coding.NoZeroBytes | lib/coding.c:7-58 | a nonzero code point has no zero byte, so it cannot end the string early |
| Coding.DecodeAllInverts | lib/coding.c:62-71 | decoding the bytes of a whole string gives its units back |
| Coding.StrUnicodeToUtf8 | lib/coding.c:62-71 | the units up to the first zero are stored as UTF-8 with a zero behind them, and their size is returned; they are written past the end of the buffer if and only if they and the zero do not fit |
| FatNames.CopyPart | fs/fat.c:209-217 | one field of a long entry: it stops at padding, and otherwise appends the units up to the zero |
| FatNames.Collect | fs/fat.c:207-224 | walking back from the last long entry to the first with the order bit reassembles the units in order within 256 and leaves zeros behind them; the mark of a deleted file has that bit, so of its name the units of one entry are taken |
| FatNames.LaidOutRun | fs/fat.c:187-199 | a name of 1 to 255 units takes one entry for each thirteen units, at most twenty, before an entry that is not long |
| FatNames.LongEntryHolds | fs/fat.c:207-217 | an entry with its units stored lowest byte first at 1 to 10, 14 to 25 and 28 to 31, and 0x0F at 11, is read as those units |
| FatNames.StoredIsLaidOut | fs/fat.c:187-224 | the entries of every legal name, stored byte by byte as the specification has them, last part first with bit 6 in its order, or all marked 0xE5, are what read_name reads back |
| FatNames.ReadShort | fs/fat.c:164-181 | the base up to its first space, and a dot and the extension where there is one |
| FatNames.ShortNameInverts | fs/fat.c:164-181 | a name and extension stored with space padding come back joined by a dot, or without one when the extension is empty, if and only if neither has a space inside |
| FatNames.SpaceInside | fs/fat.c:164-181 | the legal name "A B" comes back as "A" |
| FatNames.ReadName | fs/fat.c:158-229 | -1 at the end of the directory and where the long entries go beyond it; otherwise the number of long entries, and the UTF-8 of the name laid out by the specification, of a deleted one as far as it is taken; the name is written past the end of the buffer if and only if it and a zero do not fit |
| FatNames.NameOverflows | fs/fat.c:207-226 | a legal name of 86 units takes 258 bytes |
| FatDirs.FatDir.Readdir | fs/fat.c:387-413 | the next group of entries in order with its name, attributes, first cluster and size, the offset moving behind its short entry; NULL at the end; the name is written past file_info if and only if it has 256 bytes or more |
| FatDirs.ShortEntryInfo | fs/fat.c:400-412 | the attributes at byte 11, every first cluster of 32 bits with its high half at 20 and its low half at 26, and every size at 28, lowest byte first, are taken over as stored |
| FatDirs.StoredFileIsGroup | fs/fat.c:387-413 | the stored bytes of a file, long entries and short one, are the group that is listed, with the numbers that were stored |
| FatDirs.ListAll | fs/fat.c:387-413 | reading to the end lists every group of entries of a directory exactly once, in order, deleted files included, unless some name does not fit in its buffer; up to the first such name it lists all |
| FatDirs.ListFiles | fs/fat.c:387-413 | all names fit if and only if the listing comes to its end; then what is listed are exactly the files of the directory if and only if none is marked deleted, and otherwise it is more |
| FatDirs.ListStored | fs/fat.c:387-413 | from the bytes of a directory to its listing: all files in order with the attributes, first cluster and size that were stored, if and only if all names fit |
| FatDirs.DeletedIsListed | fs/fat.c:387-413 | a directory of one entry, of a deleted file: it has no files, and one is listed |
| FatDirs.DeletedIsCut | fs/fat.c:195-226 | a deleted file with a long name is listed under its first thirteen units, which is its name if and only if it has no more |
| FatDirs.NameDoesNotFit | fs/fat.c:387-395 | a file with a legal name that is written past file_info |

## Left out

- PagePool.Pool.PageFree: frees at the address it is given, not at the address the written line computes, for which see
  `FreeAsWritten`.
- PagePool.Pool.constructor: region descriptors in address order, disjoint, and ending above the lower bound; the other
  case is `InitialBlocksSorted`.
- Heap.KernelHeap.Malloc: sizes up to 2^64 - 16 only, so that rounding does not wrap. The memory is that of the heap and of
  its list head; what the memset of a failed call does to the rest of the kernel, such as the descriptor table at address 0,
  is not modelled, nor the check that walks a list that is gone.
- Heap.KernelHeap.Free: takes the payload of a block that is in the list, as free's callers must.
- RamObject.Ram.ListAddBetween: memory is a map from word addresses to words, so a partial write of a word is not modelled.
- FatNames.ReadName: long entries only where they are laid out as the specification has it, or all marked as those of a deleted
  file; long entries without their short one and other runs with wrong order marks are not modelled. The buffer has at least
  13 bytes, and nothing is said of it when the code writes past its end.
- FatDirs.FatDir.Readdir: the dates and times of an entry.
- FatChain.ReadClusterChain: nothing is said of the buffer when the code reads past its end.
- FatChain.ComputeClusterChainLength: chains that end in exactly the mark the loop looks for; the specification allows others, which
  the code does not stop at.
- FatFile.Open: files with a chain that ends; an empty file has none, see `EmptyFileLeavesVolume`.
- FatFile.OpenAndRead: as Open.
- FatFile.NeededBufSize: as Open.
- FatFile.Readfile: as Open.
- FatFile.FatContext.Read: nothing is said of the destination when the code copies from outside the buffer.
- FileTree.FileSystem.MkNode: paths with a slash in front of the last name, since the code uses the result of strrchr
  unchecked.
- FileTree.FileSystem.GetNode: paths with a slash, for the same reason.
- Strings.Strcmp: the sign of a nonzero result is that of unsigned bytes, where the C type is a signed char; callers look only
  for zero.
- Paging.AddressSpace.ModifyChunkMapping: tables are read and written through the direct map as it was at the start. A range of
  virtual addresses that covers the direct map's own pages would change where the code's table pointers lead; no caller maps
  one, and what it would do is not modelled.
- VmMaps.VmMap.DoMapping: the same; entries end below the direct map unless their 64-bit end wraps.
- BootMap.BootSpace.DoMapping: as MapByPages.
- BootMap.BootSpace.MapByPages: the tables that are missing must fit below the end of physical addresses; the code does not
  check. Its own copies of the query and validation functions are the ones of module Paging.
- Scheduling.Kernel.Exec: only the case of a caller without a process; replacing the image of a running process resets that
  thread's structure and is not modelled.
- Scheduling.Kernel.Fork: the caller has a process, which the code copies without a test; the result -1 for a failed malloc is
  not modelled, nor the copy of the memory map, which is that of module VmMaps.
- Scheduling.Kernel.SyscallFork: as Fork.
- SpaceRuns.Run: pages are given back at the address page_free is given, as in `Pool.PageFree`; the memory maps name pages that
  page_alloc handed out, as those of exec and fork do.
- Coding.UnicodeIntoUtf8: code points from 0x110000 to 0x1FFFFF and above 0x7FFFFFFF, for which the code stores nothing and
  returns a size it never set.
- The page pool is a sequence of blocks: its headers inside the free pages are not in memory here, so statements about memory
  are about pages that are not free.
- Each memory map and the ready queue have a ring of nodes in a memory of their own. Where malloc puts the nodes, that they
  are freed again, and vm_map_add's result -1 for a failed malloc are left out.
- Threads, processes and file nodes are found by address in maps of their fields; that two structures could overlap in
  memory is not modelled. The parent pointers of processes and file nodes, thread and process identifiers, nice values and
  exit status are left out.
- Sectors are read by a total function from block addresses; device waits and read errors are left out.
- fatfs_opendir and fatfs_searchfile: what they do beyond walking names and reading chains is comparing and releasing
  buffers.
- The address space switch in sched (it maps the next process's memory map) is the one of module VmMaps and is not repeated
  in the scheduler.
- TLB and caches, interrupt nesting, several processors, device drivers, screen output, descriptor tables, boot code and the
  system call table.
- queue_destroy, proc_destroy, read_file, atoi, the fd table, identifier allocation and printf.
