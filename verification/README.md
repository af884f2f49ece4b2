# A verified model of the kernel's memory, scheduling and file-reading core

This project models, in Dafny, five parts of a small x86-64 kernel and proves what they keep over every run:

* **The kernel heap** (`kernlib/kernmem.c`): a class over headers keyed by address, with `prev`/`next` links, the heap end and the
  payload bytes. Every operation keeps the list address-ordered, its links mutual and its blocks disjoint; allocation is the lowest
  possible placement; and over whole runs every owner finds in its block what it wrote.
* **4-level page tables** (`modules/vmemory/vmemory.c`): a class over word-addressed memory whose tables are blocks of that heap. The
  address macros are bit operations, proved equal to arithmetic; the three-loop mixes of 4 KB and 2 MB entries are proved to
  refine a flat map from linear to physical addresses, for every handle at once (Intel SDM, Volume 3A, section 4.5).
* **Ordered trees and physical memory** (`modules/mtask/thread_tree.c`, `modules/vmemory/allocator.c`): red-black insertion on a store
  of nodes with parent links, proved against stable sorted insertion and the relaxed red-black invariant; interval search and
  carving proved against the set of free bytes; and `map_alloc`, which brings heap, page tables and allocator together.
* **The scheduler** (`modules/mtask/scheduler.c`, `modules/mtask/thread_pqueue.c`): fairness and absence of starvation over runs of a
  CPU's queue, placement on the least-loaded CPU, giving threads away, and the sleep heap with wrapping deadlines.
* **ext2** (`fs/ext2.c`): indirect block lookup and reading against a flat file, and the inode bitmap search and marking.

Code that changes state in place is modelled by classes and loops; each such method is proved against a specification function or
states its property outright. Locks are left aside: all operations run one after the other. Integers are unbounded except where
the wrap matters (the allocator's fit test, 8-bit shifts, wake-up times).

## Layout

| file | contents |
|---|---|
| `Prelude.dfy`, `Arithmetic.dfy`, `Bits.dfy` | shared vocabulary; division facts; bitwise operations on naturals and what they mean |
| `KernelHeap.dfy`, `HeapRuns.dfy` | the kernel heap; what its owners see over whole runs |
| `PageTables.dfy`, `Translation.dfy` | entry macros; the forest of tables and the walk |
| `MapRange.dfy`, `MapPlans.dfy` | address ranges; the leaf writes that map_phys and unmap make, and their effect on every translation |
| `Vmemory.dfy`, `VmemRuns.dfy`, `VmemExamples.dfy` | the virtual memory module; runs of it over all handles; calls that go wrong |
| `RedBlack.dfy`, `Textbook.dfy`, `ThreadTree.dfy` | the pure tree and its invariant; when the textbook invariant is kept; the linked tree |
| `FrameAllocator.dfy`, `MapAlloc.dfy`, `MapRuns.dfy` | physical allocation; `map_alloc` and `map_phys` over all three components; runs of both |
| `RunQueue.dfy`, `CpuList.dfy`, `SleepQueue.dfy` | fairness; placement and giving; sleeping |
| `Ext2File.dfy`, `Ext2Examples.dfy`, `Ext2Bitmap.dfy` | reading files; files on concrete volumes; inode bitmaps |

## What turned out different from what the code intends

For each of these the model states exactly when the code does what it intends, and gives an input for which it does not.

* Case 4 of the tree insertion paints a red root red (`modules/mtask/thread_tree.c:43`). From a tree without red nodes below red
  ones, insertion keeps it so if and only if the chain of recolourings does not stop below a red root; a black root is lost if and
  only if the chain reaches it (`Textbook.InsertExactly`). Six threads queued in the order of their vruntimes end in case 4
  (`Textbook.SixAscending`, `ThreadTree.SixThreads`). The relaxed invariant is always kept, and the height bound needs only that.
* `map_phys` stops its first loop when either address is 2 MB aligned. Its large pages are aligned if and only if the two addresses
  are congruent modulo 2 MB or too few pages are left for a large one (`MapRange.LargeAlignedExactly`). A call with other addresses
  that succeeds mistranslates its first large page (`Vmemory.Vmem.MapPhys`, `MapPlans.Mistranslated`), as for 512 pages from 4 KB to
  2 MB (`VmemExamples.Misaligned`). Or the large page meets the table of the small pages before it, the call fails, and the whole
  region is translated into that table (`Vmemory.Vmem.MapClash`, `VmemExamples.Clashing`).
* Bits left in an entry by an earlier page are mixed into the address of the next one, 4 KB or 2 MB, which gets its own frame if and
  only if they are among its bits: for one word (`PageTables.StaleExactly`), for one walk (`Vmemory.MixedWalk`) and for a whole
  request (`MapPlans.PlanRanged`, `Vmemory.Vmem.MapPhys`). A page mapped to 8 KB, unmapped and mapped to 4 KB leads to 12 KB
  (`VmemExamples.Stale`). A 4 KB page in a region whose 2 MB page was unmapped finds the size bit still set: its table is never used
  as one, and the whole region is translated (`Vmemory.Vmem.TableOverLarge`).
* `unmap` frees 4 KB pages with the 2 MB mask, which is right if and only if the addresses are congruent (`MapRange.FreedExactly`);
  for a page at 4 KB mapped to 8 KB it frees 4 KB (`VmemExamples.FreedElsewhere`).
* `unmap` reports a page that is not mapped if and only if the walk of its address ends before a lowest table
  (`Translation.EntryExactly`, `Vmemory.Vmem.UnmapOne`); unmapping a page twice succeeds and frees it twice
  (`VmemExamples.UnmappedTwice`).
* `map_phys` ignores whether `allocator_alloc_addr` could reserve its range. No page of the range is then granted to someone or free to
  be granted if and only if one free interval covered the range or that was so before (`MapAlloc.Space.MapPhys`); and it stays so
  over every run (`MapRuns.Client.Session`). Otherwise a frame can be shared (`VmemExamples.SharedFrame`).
* `allocator_alloc_align` asks for one alignment unit more than it needs, so a perfect fit is never used
  (`FrameAllocator.FitsExactly`).
* An occupied page makes `map_alloc` lose the frame it had just taken: it is free no more and mapped nowhere
  (`MapAlloc.Space.MapPageAlloc`).
* `fs_ext2_find_unalloc_inode` skips whole bytes of the bitmap, and its wrapped loop numbers the result with the wrong variable. Its
  answer is usable if and only if a group at or behind the starting one has an inode to return, or none has and no unused,
  unreserved inode lies in a skipped byte (`Ext2Bitmap.Bitmaps.Find`). With 11 as the first unreserved inode, inodes 11 to 16 are
  such ones (`Ext2Bitmap.LostInode`); none further than 8 behind it is (`Ext2Bitmap.LostNear`).
* A forward seek stops at the end of the file if and only if the offset, cut to 32 bits, does not exceed the file size; beyond that
  the unsigned difference it is compared with wraps (`Ext2File.SeekExactly`, `Ext2File.SeekBehind`).
* A read at the very end of a file marks the descriptor invalid for good if and only if no block is allocated at that position
  (`Ext2File.Descriptor.RewindAfterEnd`), as for a file that fills its only block (`Ext2Examples.RewindFails`).
* A read is cut to the file if and only if its position does not exceed the size (`Ext2File.TrimExactly`). A seek can end behind the
  file, and a read from there returns bytes that are not in it (`Ext2File.Descriptor.ReadBehind`, `Ext2Examples.ReadsPastEnd`).
* `krealloc` copies the old size. A moving shrink writes over another block if and only if a block begins within the old size behind
  the new place (`KernelHeap.OverrunExactly`); `KernelHeap.ShrinkOverrun` is a heap for which it does.
* The kernel heap calls its end the upper bound of mapped memory, but a growth is mapped only under the condition of
  `KernelHeap.GrowthMapped`; `KernelHeap.GrowthGap` is a heap for which it is not.
* A list of CPUs whose head has no `prev` gets a stale one there if and only if the old head goes to the end, as it does for the
  very first thread (`CpuList.List.MoveSmallest`, `CpuList.List.FirstThread`).

## Model

| member | source | states |
|---|---|---|
| `Bits.OrIsSum` | cstdlib/bits.h:8 | OR-ing bits below 2^k into a value whose low k bits are clear is addition |
| `Bits.GetBitsIs` | cstdlib/bits.h:4-6 | GET_BITS, a shift and a mask, is a quotient modulo a power of two |
| `KernelHeap.AlignUpLeast` | kernlib/kernmem.c:66-67 | the adjusted gap start has an aligned payload, and no earlier address does |
| `KernelHeap.LeastFit` | kernlib/kernmem.c:61-88 | once all earlier gaps are too small, the aligned end of the current block is the lowest placement of all |
| `KernelHeap.InsertLinked` | kernlib/kernmem.c:72-78 | the header writes of an insertion give exactly the new list, with prev the inverse of next |
| `KernelHeap.RemoveLinked` | kernlib/kernmem.c:148-151 | the header writes of a removal give exactly the list without the block |
| `KernelHeap.GrowthMapped` | kernlib/kernmem.c:89-99 | the exact condition under which a growth leaves the whole heap mapped |
| `KernelHeap.RequestReach` | kernlib/kernmem.c:89-99 | a request asks for exactly the memory from the unit behind the old end up to one unit behind the new end, if the growth reaches that far |
| `KernelHeap.GrowthGap` | kernlib/kernmem.c:89-99 | two allocations on a new heap reach into a second page although no mapping was ever requested |
| `KernelHeap.OverrunExactly` | kernlib/kernmem.c:132-138 | a copy of n bytes to a placement meets a header or payload if and only if a block begins that close behind it |
| `KernelHeap.SafeExactly` | kernlib/kernmem.c:122-138 | krealloc is safe if and only if the block fits where it is or the copy of its old size meets no block |
| `KernelHeap.ShrinkOverrun` | kernlib/kernmem.c:132-138 | a heap on which a shrinking move would copy over the header of the block being copied |
| `KernelHeap.Heap.CanResize` | kernlib/kernmem.c:122-138 | the guard that a caller can compute says exactly whether krealloc is safe for the block |
| `KernelHeap.Heap.constructor` | kernlib/kernmem.c:33-38 | the initial heap is valid and holds only the dummy head |
| `KernelHeap.Heap.FindSpace` | kernlib/kernmem.c:61-88 | the search ends at the lowest address where an aligned block with its header overlaps nothing |
| `KernelHeap.Heap.KmallocAlign` | kernlib/kernmem.c:58-109 | keeps the list ordered, linked and disjoint; adds exactly one block, at the lowest of all placements; how the heap end and the mapping requests grow |
| `KernelHeap.Heap.Grow` | kernlib/kernmem.c:89-102 | the new heap end is the next unit boundary behind the block, and which mapping request is made |
| `KernelHeap.Heap.Kfree` | kernlib/kernmem.c:143-153 | removes exactly the freed block and keeps the invariant |
| `KernelHeap.Heap.AllocThenFree` | kernlib/kernmem.c:58-153 | freeing a block at once restores the previous list |
| `KernelHeap.Heap.ResizeInPlace` | kernlib/kernmem.c:122-129 | resizes in place exactly when the gap behind the block has room, and keeps the invariant |
| `KernelHeap.Heap.KreallocAlign` | kernlib/kernmem.c:115-141 | wherever the copy is safe, growing or shrinking: the block stays exactly if a header still fits behind it before the next one, and otherwise gets the lowest aligned placement; it has the new size, the bytes that fit survive, no byte of another block and no other block changes |
| `HeapRuns.ReplaceOwns` | kernlib/kernmem.c:122-138 | resizing, moving or writing one owner's block leaves every other owner's block and bytes as they were |
| `HeapRuns.Client.DoResize` | kernlib/kernmem.c:115-141 | a resize, growing or shrinking, keeps the bytes that fit, at the old place exactly if there is room and otherwise at the lowest aligned placement |
| `HeapRuns.Client.Session` | kernlib/kernmem.c:58-153 | over every run of allocating, freeing, resizing and writing, each operation changes what its own owner sees and nothing else; every block is where the heap should put it, with its alignment; the live blocks are exactly the owners' and hold what they wrote; the heap end never falls |
| `PageTables.EntryPtrIs` | modules/vmemory/vmemory.c:31-52 | the OR-composed entry address is the table address plus eight times the index |
| `PageTables.TableBitsIs` | modules/vmemory/vmemory.c:37-52 | the 51:12 mask yields the frame of an entry |
| `PageTables.PdePhysAddrIs` | modules/vmemory/vmemory.c:47 | GET_PDE_PHYSADDR is the 2 MB frame plus the low 21 bits of the address |
| `PageTables.FlagsAre` | modules/vmemory/vmemory.c:12-19 | testing PRESENT and PSIZE by masks reads the bits meant |
| `PageTables.ClearPresentIs` | modules/vmemory/vmemory.c:241 | clearing PRESENT leaves all other bits, so the address bits stay behind |
| `PageTables.SmallWord` | modules/vmemory/vmemory.c:206-207 | the word written into an empty 4 KB entry is the address plus its flags |
| `PageTables.LargeWord` | modules/vmemory/vmemory.c:216-217 | the word written into an empty 2 MB entry is the address plus its flags |
| `PageTables.StaleExactly` | modules/vmemory/vmemory.c:206-217 | a 4 KB or 2 MB word mixed into a used entry keeps its own frame if and only if the old address bits are among the new ones |
| `PageTables.StaleExample` | modules/vmemory/vmemory.c:206-241 | what is left of a page at 8 KB turns the word of a page at 4 KB into one for 12 KB |
| `Translation.EntryIsLeaf` | modules/vmemory/vmemory.c:173-188 | an address is translated if and only if the entry that get_entry ends in exists and is present, and that entry is its leaf |
| `Translation.EntryExactly` | modules/vmemory/vmemory.c:173-188 | get_entry has an entry to return if and only if the walk reads a lowest table, present entry or not, or a directory entry that is a present large page |
| `Translation.OneReference` | modules/vmemory/vmemory.c:124-168 | each table below a PML4 is referred to by exactly one present entry of all tables of all handles |
| `Translation.HitsUnique` | modules/vmemory/vmemory.c:124-168 | an entry is read by exactly the addresses of one handle that fall under it |
| `Translation.FlatWrite` | modules/vmemory/vmemory.c:206-207 | what writing one entry does to the translation of every address of every handle |
| `Translation.LeafKeepsInv` | modules/vmemory/vmemory.c:204-207 | writing a leaf over an empty or leaf entry keeps the forest of tables |
| `Translation.AddKeepsInv` | modules/vmemory/vmemory.c:126-164 | hooking a cleared page of its own into an empty entry keeps the forest of tables |
| `Translation.AddKeepsWalk` | modules/vmemory/vmemory.c:126-164 | adding an empty table changes no translation |
| `Translation.LeafWrite` | modules/vmemory/vmemory.c:204-217 | writing a leaf gives the addresses under it that leaf and leaves all others theirs |
| `Translation.ReadyWalk` | modules/vmemory/vmemory.c:204-205 | an entry fit for mapping is present exactly when its address is already translated |
| `MapPlans.AppliedStep` | modules/vmemory/vmemory.c:286-291 | one more leaf write adds exactly its effect to the translations of one handle |
| `MapPlans.WritesSeparate` | modules/vmemory/vmemory.c:286-291 | unless its loops clash, no two pages of a request share an entry |
| `MapPlans.PlanRanged` | modules/vmemory/vmemory.c:286-291 | the writes of an aligned request, as far as they got and over whatever the entries held, send va+i to pa+i and change nothing else if and only if no old bits get mixed in |
| `MapPlans.FreeRange` | modules/vmemory/vmemory.c:204-214 | no page of an aligned request finds its entry present if and only if no byte of the range is translated |
| `MapRange.LargeAlignedExactly` | modules/vmemory/vmemory.c:286-289 | the 2 MB pages are aligned in both address spaces if and only if the addresses are congruent or no 2 MB page is used |
| `Vmemory.UnitsLeast` | modules/vmemory/vmemory.c:281-282 | a size in bytes is turned into the least number of pages that hold it |
| `Vmemory.MappedBytes` | modules/vmemory/vmemory.c:279-293 | for a congruent or short request in bytes: success if and only if none of the bytes was translated; then, unless old bits get mixed in, each goes to its byte of the physical range, and nothing a page or more away changes |
| `MapPlans.Mistranslated` | modules/vmemory/vmemory.c:286-289 | the writes of a request that is not aligned send the first byte of the first large page elsewhere, whatever the entries held |
| `MapRange.FreedExactly` | modules/vmemory/vmemory.c:240 | the address freed is the one translated to if and only if the leaf is large or the addresses are congruent |
| `MapPlans.UnmapMapped` | modules/vmemory/vmemory.c:295-307 | on a range mapped page by page unmap goes through and exactly the range loses its translations; if each page has its own frame, the freed pieces tile what it was mapped to |
| `Vmemory.UnmappedBytes` | modules/vmemory/vmemory.c:295-307 | unmapping so many bytes, mapped as map_phys maps them, goes through, leaves none of them translated and changes nothing a page or more away |
| `Vmemory.Vmem.CreateHandle` | modules/vmemory/vmemory.c:72-83 | a new handle has a PML4 of its own, maps nothing, and no translation of another handle changes |
| `Vmemory.Vmem.SelectHandle` | modules/vmemory/vmemory.c:87-94 | the handle becomes current and the invariant stays |
| `Vmemory.Vmem.NewTable` | modules/vmemory/vmemory.c:127-134 | a new table is aligned, cleared, a heap block of its own and different from every table in use |
| `Vmemory.Vmem.EnsureTable` | modules/vmemory/vmemory.c:126-135 | after one level the entry leads to a table of the next level; all translations and all readiness elsewhere stay |
| `Vmemory.Vmem.MakeEntry` | modules/vmemory/vmemory.c:124-168 | the entry returned is the one the walk of the address ends in, still with its old word, and no translation has changed on the way |
| `Vmemory.Vmem.MapPage` | modules/vmemory/vmemory.c:199-208 | fails exactly when the page is already translated; otherwise exactly its 4 KB get the new leaf, mixed with what the entry held |
| `Vmemory.Vmem.MapPage2` | modules/vmemory/vmemory.c:209-218 | the same for 2 MB pages |
| `Vmemory.MixedWalk` | modules/vmemory/vmemory.c:206-217 | after mapping over a used entry the page translates to its own frame if and only if the old address bits are among the new ones, for both sizes |
| `Vmemory.Vmem.TableOverLarge` | modules/vmemory/vmemory.c:155-163 | a table hooked in where a 2 MB page was unmapped leaves a 2 MB leaf for the whole region, mixed from both addresses; no other translation changes |
| `Vmemory.Vmem.MapPhys` | modules/vmemory/vmemory.c:279-293 | succeeds if and only if no page was translated; does the first writes of its plan, mixed with what the entries held, up to the first occupied page and nothing else to any handle; if aligned, va+i goes to pa+i that far if and only if nothing gets mixed in, and success is that no byte of the range was translated; if not aligned, success means a mistranslation; and the same byte by byte for sizes in bytes |
| `Vmemory.Vmem.MapClash` | modules/vmemory/vmemory.c:148-151 | a request whose large page meets the table of its own small pages fails; its exact effect on every translation of every handle: it stops at an occupied page, or the region is translated into that table and the page mapped last is lost |
| `Vmemory.Vmem.GetEntry` | modules/vmemory/vmemory.c:173-188 | the entry returned is that of the table where the walk ends, the large directory entry or the lowest entry, present or not; NULL exactly if the walk does not get that far |
| `Vmemory.Vmem.UnmapOne` | modules/vmemory/vmemory.c:235-250 | fails exactly if the walk ends before an entry; otherwise exactly the addresses under the entry lose their leaf, and the piece freed is that of the entry, present or not |
| `Vmemory.Vmem.Unmap` | modules/vmemory/vmemory.c:295-307 | on any range: the leaf of each page's address is cleared whole, one after the other, up to an address without entry; nothing else changes, in any handle; exactly what is freed for each, present or not; and what that means byte by byte for sizes in bytes |
| `Vmemory.Vmem.MapThenUnmap` | modules/vmemory/vmemory.c:279-307 | mapping and unmapping an unused congruent range restores every translation, whatever its entries held; unless old bits got mixed in, the freed pieces tile exactly what was mapped |
| `VmemRuns.Driver.Session` | modules/vmemory/vmemory.c:72-307 | over every run of creating and selecting handles, mapping and unmapping, each step, successful or not, has exactly its effect on the handle it concerns and none on any other; every table is aligned and referred to by exactly one present entry |
| `VmemExamples.Misaligned` | modules/vmemory/vmemory.c:286-289 | on a new address space, 512 pages from 4 KB to 2 MB: success, and the first page leads elsewhere |
| `VmemExamples.Clashing` | modules/vmemory/vmemory.c:148-151 | on a new address space, 600 pages from 4 KB to one page below 2 MB: failure, and the first page, just mapped, is lost |
| `VmemExamples.FreedElsewhere` | modules/vmemory/vmemory.c:240 | a page at 4 KB mapped to 8 KB and unmapped: the page at 4 KB is freed |
| `VmemExamples.UnmappedTwice` | modules/vmemory/vmemory.c:235-242 | unmapping that page once more succeeds and frees it a second time |
| `VmemExamples.Stale` | modules/vmemory/vmemory.c:206-207 | the same page then mapped to 4 KB leads to 12 KB |
| `Threads.InsertStableMeaning` | modules/mtask/thread_tree.c:82-92 | stable insertion keeps the order, adds exactly one thread, behind all of vruntime at most its own |
| `RedBlack.PlugRelaxed` | modules/mtask/thread_tree.c:35-68 | a subtree that fits its context in height and colour makes a relaxed red-black tree |
| `RedBlack.CaseFour` | modules/mtask/thread_tree.c:41-45 | case 4 keeps the relaxed invariant and always breaks the textbook one, which a black root would have kept |
| `Textbook.FixedClean` | modules/mtask/thread_tree.c:35-68 | from a context without red nodes below red ones, the fix-up leaves none if and only if its chain does not end below a red root |
| `Textbook.InsertExactly` | modules/mtask/thread_tree.c:71-94 | the exact conditions under which insertion keeps red nodes apart and the root black |
| `Textbook.SixAscending` | modules/mtask/thread_tree.c:41-45 | the fourth of six ascending insertions loses the black root and the sixth ends in case 4 |
| `RedBlack.RecoloredPending` | modules/mtask/thread_tree.c:64-67 | case 2 moves the only possible flaw two levels up and keeps the order of threads |
| `RedBlack.RaisedRelaxed` | modules/mtask/thread_tree.c:58-62 | case 6 ends with the relaxed invariant |
| `RedBlack.RelaxedHeight` | modules/mtask/thread_tree.c:3-94 | no path of a relaxed tree of n nodes is longer than 2*log2(n+1)+2 |
| `ThreadTree.LinksMutual` | modules/mtask/thread_tree.c:3-20 | in a stored tree, parent and child links are inverse to each other everywhere |
| `ThreadTree.Queue.Rotate` | modules/mtask/thread_tree.c:3-20 | the link writes of a rotation store exactly the rotated tree in its place |
| `ThreadTree.Queue.RaiseChild` | modules/mtask/thread_tree.c:50-62 | cases 5 and 6 end with a relaxed tree of the same threads in the same order |
| `ThreadTree.Queue.FixUp` | modules/mtask/thread_tree.c:35-68 | refines the fix-up on values: a relaxed tree, the same order, the same nodes, and exactly that tree |
| `ThreadTree.Queue.Descend` | modules/mtask/thread_tree.c:82-92 | the slot found is behind every thread of vruntime at most the new one's and before every larger one |
| `ThreadTree.Queue.Insert` | modules/mtask/thread_tree.c:71-94 | refines stable sorted insertion and the insertion on tree values, and keeps the relaxed invariant and the links, through all rotations |
| `ThreadTree.SixThreads` | modules/mtask/thread_tree.c:71-94 | six threads queued on the linked tree leave a red root with a red child |
| `ThreadTree.Queue.AddAll` | modules/mtask/scheduler.c:192-195 | any number of insertions: the order is the stable insertion of all, and the height stays within 2*log2(n+1)+2 |
| `ThreadTree.Queue.MinVruntime` | modules/mtask/scheduler.c:210-219 | following left links reads the least vruntime, or 0 for an empty tree |
| `FrameAllocator.FirstFit` | modules/vmemory/allocator.c:429-440 | finds a node that passes the fit test whenever there is one, for every tree shape |
| `FrameAllocator.FirstVisited` | modules/vmemory/allocator.c:429-440 | the search takes the first node that fits, visiting each node before its left and its right subtree |
| `FrameAllocator.FitsExactly` | modules/vmemory/allocator.c:431 | on aligned intervals the wrapping fit test asks for exactly size + align bytes |
| `FrameAllocator.CutFront` | modules/vmemory/allocator.c:131-133 | shrinking a node removes exactly its first bytes from the free set and keeps the order |
| `FrameAllocator.InsertFree` | modules/vmemory/allocator.c:212-234 | insertion adds exactly the interval to the free set and keeps the nodes ordered |
| `FrameAllocator.Allocator.AllocAlign` | modules/vmemory/allocator.c:109-136 | succeeds exactly when some interval has size + align bytes; removes exactly the returned, aligned bytes, which begin the first such interval in the order of the search |
| `FrameAllocator.Allocator.AllocPages` | modules/vmemory/vmemory.c:220-226 | over any number of one-page allocations no frame is handed out twice, each was free, and they end early only if no interval has two pages |
| `FrameAllocator.Allocator.FindContaining` | modules/vmemory/allocator.c:454-463 | succeeds exactly when one free interval covers the request |
| `FrameAllocator.Allocator.AllocAddr` | modules/vmemory/allocator.c:138-167 | succeeds exactly when one interval covers the range, and then removes exactly that range from the free set; intervals stay multiples of a unit that the range is a multiple of |
| `MapAlloc.GrantStep` | modules/vmemory/vmemory.c:220-226 | mapping an untranslated page to a frame just taken keeps all earlier pages translated to frames of their own |
| `MapAlloc.Space.MapPageAlloc` | modules/vmemory/vmemory.c:220-226 | no space exactly if no interval has two pages, occupied exactly if one has and the page is translated; otherwise the page gets a frame that was free; an occupied page costs the frame taken |
| `MapAlloc.Space.MapAlloc` | modules/vmemory/vmemory.c:252-277 | each page of the request translates to its own frame, nothing else changes, no two pages of any calls through any handles share a frame; how far a failing call got and why; and for sizes in bytes, how many pages a call gets and where every byte goes |
| `MapAlloc.Space.MapPhys` | modules/vmemory/vmemory.c:279-293 | map_phys between calls of map_alloc: all granted pages keep their frames; no page of its range is granted or free afterwards if and only if one interval covered the range or that was so before |
| `MapRuns.Client.Session` | modules/vmemory/vmemory.c:252-293 | over every run of map_alloc and map_phys through any handles, at every step no frame is granted twice and none lies in a range that was available when map_phys was called for it; the exact effect of each step |
| `VmemExamples.SharedFrame` | modules/vmemory/vmemory.c:279-284 | a page from map_alloc under one handle, then all of memory by map_phys under another: success, and both handles reach the page |
| `RunQueue.Queue.Add` | modules/mtask/scheduler.c:175-196 | a new thread gets the least vruntime of the queue, or 0 in an empty one, and goes behind its equals and before all others, which keep their order; the time slice fits the new count |
| `RunQueue.SliceExactly` | modules/mtask/scheduler.c:187-191 | up to four threads share 48 ms and more get 10 ms each |
| `RunQueue.ChargeBounds` | modules/mtask/scheduler.c:345 | a thread of weight 1024 is charged the time it ran, any other in inverse proportion to its weight, rounded down |
| `RunQueue.Queue.Remove` | modules/mtask/scheduler.c:197-208 | removes one thread and adjusts the time slice |
| `RunQueue.Queue.Advance` | modules/mtask/scheduler.c:328-353 | nothing happens before the slice has passed or on an empty queue; otherwise a thread of least vruntime is charged, chosen and put behind its equals and before all others, which keep their order |
| `RunQueue.StepKeepsClose` | modules/mtask/scheduler.c:175-219 | adding at the minimum, removing, and charging a minimal thread keep all vruntimes within the charge limit of each other |
| `RunQueue.RunKeepsClose` | modules/mtask/scheduler.c:336-349 | the same over every run |
| `RunQueue.Queue.Drive` | modules/mtask/scheduler.c:175-353 | every run of the queue's own operations whose ticks charge at most the limit keeps the vruntimes within that limit of each other |
| `RunQueue.PassedOver` | modules/mtask/scheduler.c:336-349 | each selection that passes a thread over uses up one of the turns the others have before it |
| `RunQueue.NoStarvation` | modules/mtask/scheduler.c:336-353 | among n threads within I of each other and charges of at least e, every thread is selected within (n-1)*(I/e+1)+1 selections |
| `RunQueue.Queue.Await` | modules/mtask/scheduler.c:328-353 | the same for timer interrupts a time slice or more apart, with e what a slice costs the heaviest thread |
| `CpuList.List.constructor` | modules/mtask/scheduler.c:50-69 | the initial list holds every CPU once, idle |
| `CpuList.List.FindPlace` | modules/mtask/scheduler.c:108-116 | finds the place behind all CPUs with fewer threads than the head |
| `CpuList.List.MoveSmallest` | modules/mtask/scheduler.c:105-134 | after the head got a thread, the list is again a linked permutation of all CPUs sorted by load: the head is behind exactly those with fewer threads and the others keep their order; the new head's prev is stale exactly if the old head went to the end |
| `CpuList.List.FirstThread` | modules/mtask/scheduler.c:117-122 | with more than one CPU the very first thread leaves a stale prev |
| `CpuList.List.QueueThread` | modules/mtask/scheduler.c:221-230 | the thread goes to a least-loaded CPU, which is put behind exactly those with fewer threads; the list stays sorted, and no two loads differ by more than one |
| `CpuList.List.QueueAll` | modules/mtask/scheduler.c:221-230 | over any number of arrivals the counts sum to the threads queued and stay within one of each other |
| `CpuList.MoveOne` | modules/mtask/scheduler.c:317-322 | moving a thread to a CPU with at least two fewer keeps the sum and lowers the sum of squares by at least two |
| `CpuList.GiveExactly` | modules/mtask/scheduler.c:308-314 | a CPU gives half of what it has more than the head if that is at least fifteen percent of its own, rounded down, and at least one |
| `CpuList.GiveThreads` | modules/mtask/scheduler.c:317-322 | the given threads end level: no CPU that received one has more than one above any other, nor more than the giver |
| `CpuList.GiveRound` | modules/mtask/scheduler.c:307-326 | a round moves exactly the computed number of threads, none to the giver, loses none, each to a CPU with the fewest of that moment so that the receivers end level, and lowers the sum of squares by at least two for each |
| `CpuList.Rounds` | modules/mtask/scheduler.c:300-326 | whatever the turns, the rounds that move a thread number at most half the initial sum of squares |
| `SleepQueue.LaterIsDeadline` | modules/mtask/thread.h:10-11 | the comparison with the overflow flag compares unbounded deadlines |
| `SleepQueue.AsleepDeadline` | modules/mtask/scheduler.c:253-259 | the recorded wake-up time stands for start plus duration even when it wraps past 2^64 |
| `SleepQueue.RootLeast` | modules/mtask/thread_pqueue.c:4-17 | the root of the heap has the least deadline |
| `SleepQueue.PQueue.HeapifyUp` | modules/mtask/thread_pqueue.c:4-17 | restores the heap after a push and keeps the same threads |
| `SleepQueue.PQueue.Push` | modules/mtask/thread_pqueue.c:45-52 | keeps the heap and adds exactly the thread |
| `SleepQueue.PQueue.SleepAll` | modules/mtask/scheduler.c:250-265 | after any sequence of sleeps the heap holds exactly the sleepers, by id and deadline, and its root wakes no later than any of them |
| `Ext2File.PointerAt` | fs/ext2.c:76-104 | the entry of the flat pointer list is the direct, singly or doubly indirect one |
| `Ext2File.Le32Exactly` | fs/ext2.c:83-104 | a pointer in a block has a value if and only if its four bytes are that value's digits, lowest first |
| `Ext2File.SinglePointer` | fs/ext2.c:83-89 | the number of a singly indirect block is what the four bytes at its place in the indirect block on the disk say |
| `Ext2File.DoublePointer` | fs/ext2.c:91-104 | that of a doubly indirect block is what the bytes say at the two places on the disk |
| `Ext2File.ContentOf` | fs/ext2.c:128-138 | byte i of a block of the file is byte i of that block on the disk |
| `Ext2File.ContentDirect` | fs/ext2.c:81-82 | the bytes of the first twelve blocks lie on the disk where the inode says |
| `Ext2File.Chunk` | fs/ext2.c:1306-1308 | a piece of the block in the buffer is a piece of the flat content |
| `Ext2File.Descriptor.GetPointer` | fs/ext2.c:76-104 | the lookup through indirect blocks yields the entry of the flat pointer list |
| `Ext2File.Descriptor.ReadInodeData` | fs/ext2.c:128-138 | loads the block of the flat list, or fails exactly for a hole |
| `Ext2File.Descriptor.constructor` | fs/ext2.c:1166-1187 | a plain open starts at 0, usable if the file is not empty |
| `Ext2File.Descriptor.Seek` | fs/ext2.c:1214-1264 | from the beginning or the current position, for every offset: where it ends, and that it stops at the end of the file exactly if the offset does not exceed the size |
| `Ext2File.SeekExactly` | fs/ext2.c:1241-1250 | a forward seek ends at the target or at the end of the file, whichever comes first, if and only if the offset, cut to 32 bits, does not exceed the size |
| `Ext2File.SeekBack` | fs/ext2.c:1251-1259 | a backward seek ends at the target or at 0 if and only if the offset has 32 bits or its low 32 bits reach back far enough |
| `Ext2File.SeekBehind` | fs/ext2.c:1246-1249 | offsets for which the check against the size fires and for which it does not |
| `Ext2File.Descriptor.CopySome` | fs/ext2.c:1289-1313 | one round copies a non-empty piece of the flat content at the position and advances by it, across block boundaries |
| `Ext2File.Descriptor.Read` | fs/ext2.c:1269-1316 | from a position in the file, returns exactly min(count, size - position) bytes of the flat content and advances by that; a failed descriptor reads nothing |
| `Ext2File.TrimExactly` | fs/ext2.c:1275-1278 | what a read goes for stays inside the file if and only if the position does not exceed the size; behind it nothing is cut |
| `Ext2File.Descriptor.ReadBehind` | fs/ext2.c:1269-1316 | a read from behind the end returns the bytes of the block there, as many as asked for |
| `Ext2File.Descriptor.RewindAfterEnd` | fs/ext2.c:1280-1294 | a read at the end followed by a rewind works exactly when a block follows the end |
| `Ext2Examples.RewindFails` | fs/ext2.c:1280-1294 | a file that fills its only block is not read any more after a read at its end |
| `Ext2Examples.ReadsPastEnd` | fs/ext2.c:1246-1278 | a file shorter than its only block: seek and read return a byte from behind the end |
| `Ext2Examples.BothFail` | fs/ext2.c:1269-1316 | a volume with a file of either kind |
| `Ext2Examples.ReadIndirect` | fs/ext2.c:76-138 | a byte of a file read through the indirect pointer 256 of a concrete volume |
| `Ext2File.Descriptor.Session` | fs/ext2.c:1214-1316 | every result of any sequence of reads and seeks inside the file is what the flat content says |
| `Ext2File.ReadsJoin` | fs/ext2.c:1269-1316 | what successive reads return, put together, is one piece of the content from the position on, as long as asked for or up to the end |
| `BitmapByte.ChangedBit` | fs/ext2.c:334-336 | setting or clearing a bit changes that bit of the byte and no other, counted from the top |
| `BitmapByte.TopAfter` | fs/ext2.c:253-258 | after n left shifts the top-bit test reads bit n of the original byte |
| `Ext2Bitmap.MarkedMeaning` | fs/ext2.c:323-340 | marking changes the state of that inode and of no other inode in any group |
| `Ext2Bitmap.UsedExactly` | fs/ext2.c:323-340 | the state of an inode is the bit of its group's bitmap on the drive, bytes in order and in a byte from the highest bit down |
| `Ext2Bitmap.SameDrive` | fs/ext2.c:361-378 | drives that agree on every inode, on the padding and outside the bitmaps are equal byte for byte |
| `Ext2Bitmap.Bitmaps.Mark` | fs/ext2.c:323-340 | the sector written back differs in exactly the inode's bit; padding and all other bytes stay |
| `Ext2Bitmap.Bitmaps.FirstClear` | fs/ext2.c:252-259 | the shifting loop ends at the first clear bit of the byte |
| `Ext2Bitmap.Bitmaps.FindInGroup` | fs/ext2.c:233-268 | finds the first free bit in an unreserved byte of the group, or 0 exactly when there is none |
| `Ext2Bitmap.Bitmaps.Find` | fs/ext2.c:269-286 | the exact condition under which the answer is an unused, unreserved inode, or 0 because there is none, the first unreserved one included; and that it is the first one from the starting group on, but for skipped ones |
| `Ext2Bitmap.NoneUnusedExactly` | fs/ext2.c:245-249 | every unreserved inode is in use if and only if the search would find nothing and no unused one lies in a byte it skips |
| `Ext2Bitmap.LostInode` | fs/ext2.c:247-248 | volumes on which one of the inodes 11 to 16 is unused and unreserved and the search reports that there is none |
| `Ext2Bitmap.LostNear` | fs/ext2.c:245-249 | only inodes up to 8 behind the first unreserved one are ever skipped |
| `Ext2Bitmap.FarFound` | fs/ext2.c:245-249 | an unused inode behind these keeps the search from ending without an answer |
| `Ext2Bitmap.Bitmaps.MarkThenUnmark` | fs/ext2.c:361-378 | unmarking undoes marking, byte for byte |
| `Ext2Bitmap.Bitmaps.Session` | fs/ext2.c:269-378 | over any run of allocations, from any groups, and releases no inode is handed out that is reserved, was in use or is still held; exactly the held ones are marked; releasing all restores the drive |

## Left out

- Red-black deletion (`modules/mtask/thread_tree.c:96-228`, `modules/vmemory/allocator.c:285-413`): its sibling macro yields the node itself, so order and balance are not kept; removal is taken by its contract (`RunQueue.Queue.Remove`, `FrameAllocator.Delete`).
- RunQueue.Queue.Remove: removal from the tree is by contract, on the in-order sequence.
- FrameAllocator.Insert: the allocator's tree is a value without colours, rotations and parent links, which no search reads; the same insertion algorithm is proved on linked nodes in `ThreadTree`. The node pool and update in place of nodes are not captured.
- `allocator_free` and its merging (`modules/vmemory/allocator.c:169-208`): a failed search is used as a node; the calls made to it are recorded instead.
- FrameAllocator.Allocator.AllocAlign: stated while all intervals are multiples of the alignment, so the branch that splits off padding is not modelled; its split node would be misplaced.
- MapAlloc.Space.MapAlloc: asks for entries that hold nothing or a page; requests that reach the 2 MB loop of `map_alloc`, and the continuity flag, are not modelled, because 2 MB alignment needs that split.
- Vmemory.Vmem.MapPhys: asks that no leaf of the other size and no unmapped 2 MB entry is in the way of its pages (`MapClash` and `TableOverLarge` show what these lead to), for linear addresses below 2^48 and tables below 2^52. `make_entry` never fails in the model, as the heap never does.
- VmemRuns.Driver.Session: a mapping that meets entries of the other size, by itself or from before, is skipped, because the code then turns a table into a page and the forest of tables is gone.
- `destroy_mem_hndl` and loading CR3: the lowest tables are not freed by the code.
- KernelHeap.Heap.KreallocAlign: asks that the copy of the old size hits no block; that such a copy may still reach behind the heap end, and address overflow at 2^64, are not modelled, and calls to the mapping function are recorded, not followed.
- Ext2File.Descriptor.Seek: seeks from the end are not modelled.
- Ext2File.Descriptor.Read: for positions in the file; reads from behind the end are `ReadBehind`, within one block.
- Ext2File.Descriptor.GetPointer: triple-indirect pointers are left out; the code's indices there are not yet right.
- Ext2Bitmap.Bitmaps.FindInGroup: one bitmap block per group, and 32-bit overflow of inode numbers is not modelled.
- The rest of ext2: indirect writes, inode write-back, block bitmap, directories, opening at the end, truncation.
- `cpu_tree_list_move_left` and list order after departures (`modules/mtask/scheduler.c:136-173`): its condition skips needed moves. The giving rounds take the head to be some least-loaded CPU instead.
- `thread_pqueue_pop` and timer wrap (`modules/mtask/thread_pqueue.c:18-31`, `modules/mtask/scheduler.c:281-296`): sift-down never advances, and clearing the overflow flags can reorder the heap.
- CpuList.GiveRound: which thread is given, and the order of the list in between, are not modelled.
- 64-bit overflow of vruntime and of charges.
- Locks, interrupts, context switching, multiprocessor start, drivers, ACPI, ELF loading, the module parser and boot logging.
