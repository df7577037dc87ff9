# printOS memory stack, formatter, console and timer arithmetic in Dafny

A model of the parts of the printOS kernel that carry most of its state, with
proofs about them. `dafny verify dfyconfig.toml` checks the whole project.

The kernel's memory management is four layers, each resting on the one below,
and the model keeps them connected: the heap calls the pager and the frame
allocator, the pager calls the frame allocator, the frame allocator works on the
bytes of its bitmap.

| layer | files | what it is proved against |
|---|---|---|
| bitmap | `Bitmap.dfy` | a sequence of booleans |
| frame allocator | `FrameSpec.dfy`, `MemoryMap.dfy`, `PMem.dfy` | the set of free frames, the lowest free frame, the lowest free run |
| pager | `PageSpec.dfy`, `IdentitySpec.dfy`, `TableSpec.dfy`, `Paging.dfy` | a plain map from page numbers to frame numbers, read by the hardware walk |
| heap | `HeapSpec.dfy`, `HeapLaws.dfy`, `HeapOrder.dfy`, `HeapLinks.dfy`, `HeapWrites.dfy`, `HeapPlacement.dfy`, `Heap.dfy` | a list of blocks that tiles the heap's pages, and the set of live allocations |
| start-up | `Kernel.dfy` | the three layers started in order |
| text | `Stdlib.dfy`, `Printf.dfy`, `Screen.dfy`, `Console.dfy` | numerals, format expansion, an unbounded page seen through a window |
| timer | `Hpet.dfy` | time in femtoseconds |

Conventions:

- A failed `ASSERT` panics and never returns, so a call yields an `Outcome`:
  `Halted`, or `Returned` with its value. Methods without a value return a flag.
- Objects that the kernel updates in place are classes. `PMem`, `Paging`, `Heap`
  and `Console` have a `Valid` (or `Ready`) predicate that every method keeps.
- Numbers are unbounded in Dafny; 64-bit, 32-bit and 16-bit behaviour is written
  out where it can be seen: the subtraction after the run search, the sizes of
  memory-map segments, the addresses of identity paging, the address field of a
  table entry and the pointer read back from it, the comparator value.
- A frame or page is 4096 bytes and a block header 32 bytes; both are written as
  numbers. Headers are kept by address, address 0 included, because freeing can
  write there (see below).
- Firmware data (memory map, device addresses, stack address) are parameters.

## What the proofs found

Where the code differs from what its comments or layout promise, the model
follows the code, and the exact condition is proved.

- `request_frames` (kernel/src/memory/pmem.cpp:162) subtracts the wrong way
  round in unsigned arithmetic. A request for one frame always halts. When no
  run is long enough, a shorter free run of at least two frames at the end of
  memory is returned as if it were (`FrameSpec.RunAnswer`,
  `FrameSpec.RunAnswerLength`, `FrameSpec.ShortGrantExample`).
- Heap growth therefore works only from 4096 bytes on. It also halts when the
  request leaves no room for the header, that is when `bytes % 4096 > 4064`. When
  a grant is cut short, the list from then on stands for pages past the end of
  memory as well: the blocks tile the frames that memory has exactly until the
  first such grant (`KernelHeap.Heap.Malloc`, `HeapLaws.RunBacked`). A valid heap
  can meet a short grant and return from it
  (`HeapPlacement.ShortGrantReachable`).
- The backward merge of `free` (kernel/src/memory/heap.cpp:184) writes through a
  null successor exactly when the block joins its predecessor and ends the list
  (`HeapLaws.WritesNull`, `KernelHeap.Heap.Free`), and an ordinary run does that
  (`HeapLaws.WritesNullReachable`). Frame 0 is never granted, so the write hits
  no block.
- The comment at kernel/src/memory/paging.cpp:211 promises that a region is
  rounded up to full pages. The loop maps `n / 4097 + 1` pages, which reaches the
  last byte exactly when the offset in the first page, `n / 4097` and
  `n % 4097` sum to at most 4096; for whole pages that is up to 4097 pages
  (`IdentitySpec.CoverageCondition`, `IdentitySpec.WholePagesCoverage`).
- The kernel finds a page table again exactly when the table lies below 4 GiB,
  because the 32-bit address field is shifted in 32 bits
  (`PageSpec.TablePointerRoundTrip`, `PageSpec.SoftStep`; the first table above
  is looked for at address 0, `PageSpec.FirstTableLost`). The note at
  kernel/src/memory/paging.cpp:116 speaks of 44 bits. Because tables take the
  lowest free frames, all of them stay findable exactly when no more are lacking
  than frames are free below 4 GiB (`TableSpec.LowAfter`,
  `Pager.Paging.AllocatePage`); on a machine with at most 4 GiB that is always so
  (`Pager.Paging.SmallMachineLow`).
- Identity paging is the identity only below page 2^32: the 32-bit address field
  of the leaf cuts the frame number. A list of regions is mapped to itself
  exactly when each region ends at or below page 2^32
  (`IdentitySpec.TrueIdentityCondition`); a framebuffer at 16 TiB puts page 2^32
  on frame 0 (`Pager.HighFramebuffer`).
- The comment at kernel/src/memory/heap.cpp:73 speaks of an address between two
  blocks; the condition asks that both lie below it. Growth therefore breaks the
  address order of an ordered list unless the list is a single block below the
  new one, and no other call does (`HeapOrder.GrowOrdered`,
  `HeapOrder.StepOrdered`). Merging looks at neighbours of the list only. While
  the list is in order that is enough and no two free blocks touch
  (`HeapOrder.OrderedMerged`); out of order, touching free blocks stay apart, as
  an ordinary run shows (`HeapOrder.UnmergedReachable`).
- A tab moves the cursor three columns (kernel/src/console/console.cpp:121-126),
  although the default at kernel/src/console/console.hpp:25 is four
  (`Screen.TabMoves`).

## Model

| member | source | states |
|---|---|---|
| Bitmaps.ByteSet | kernel/src/kutils/bits.hpp:3-5 | setting bit r of a byte sets bit r and changes none of the other seven |
| Bitmaps.ByteClear | kernel/src/kutils/bits.hpp:3-5 | clearing bit r of a byte clears bit r and changes none of the other seven |
| Bitmaps.UnpackUpdate | kernel/src/kutils/bitmap.cpp:12-37 | replacing one byte by one that differs in a single bit replaces exactly that bit of the whole bit sequence |
| Bitmaps.Bitmap.constructor | kernel/src/kutils/bitmap.cpp:6-10 | a buffer of the rounded-up number of bytes in which every bit is clear |
| Bitmaps.Bitmap.Get | kernel/src/kutils/bitmap.cpp:12-19 | reads the abstract bit at the index |
| Bitmaps.Bitmap.Set | kernel/src/kutils/bitmap.cpp:21-28 | the abstract bit sequence changes at the index and nowhere else |
| Bitmaps.Bitmap.Unset | kernel/src/kutils/bitmap.cpp:30-37 | the same for clearing |
| MemoryMaps.FramesCounted | kernel/src/memory/mmap.cpp:21-58 | when no descriptor ends behind the last one and nothing wraps, the count reaches one frame past the last descriptor and every frame of every descriptor is below it |
| MemoryMaps.FramesModulo | kernel/src/memory/mmap.cpp:21-58 | the number of frames is the address of the last descriptor plus 4096 bytes for each of its pages and one more, cut to 64 bits, in whole frames |
| MemoryMaps.LargestFreeSeg | kernel/src/memory/mmap.cpp:30-49 | no segment of kind 7 is larger, sizes being 4096 bytes a page cut to 64 bits; the address is that of the first descriptor of that size, none when the size is 0 |
| FrameSpec.FreePlusLocked | kernel/src/memory/pmem.hpp:13-15 | the sizes of the sets of free and of locked frames add up to the number of frames |
| FrameSpec.RunStart | kernel/src/memory/pmem.cpp:130-158 | the lowest start at or above a bound of n free frames in a row, or none when no such run exists |
| FrameSpec.RunAnswerLength | kernel/src/memory/pmem.cpp:160-171 | what is granted has the requested length if and only if a free run of that length exists; a shorter grant reaches the end of memory |
| FrameSpec.ShortGrantExample | kernel/src/memory/pmem.cpp:124-172 | three frames asked for, only the last two free: two are granted |
| FrameSpec.GrantsNeverOverlap | kernel/src/memory/pmem.cpp:109-172 | over any run of grants no frame is granted twice, granted frames stay locked, and no frame locked at the start (frame 0 among them) is granted |
| FrameSpec.LowestAfter | kernel/src/memory/pmem.cpp:109-122 | after n requests took the lowest free frames, the next one is served with the frame that had exactly n free frames below it, and only that one |
| PhysicalMemory.ScanStep | kernel/src/memory/pmem.cpp:138-157 | looking at one more frame keeps what the scan knows: the free block it is in and that no long-enough run began earlier |
| PhysicalMemory.ScanAnswer | kernel/src/memory/pmem.cpp:160-162 | the wrapped comparison after the scan passes exactly when the specification grants something, and the scan then holds its bounds |
| PhysicalMemory.InRangeWhen | kernel/src/memory/pmem.cpp:41-74 | when no descriptor ends behind the last one, nothing wraps, and stack and bitmap lie below the end, every frame the constructor touches has a bit |
| PhysicalMemory.PMem.FreeFrame | kernel/src/memory/pmem.cpp:81-88 | exactly that bit is cleared, both counters still count the bits, and the cached scan start stays sound if and only if the frame is not below it |
| PhysicalMemory.PMem.LockFrame | kernel/src/memory/pmem.cpp:90-97 | exactly that bit is set and both counters still count the bits |
| PhysicalMemory.PMem.RequestFrame | kernel/src/memory/pmem.cpp:109-122 | halts if and only if nothing is free; after construction it returns the lowest free frame of all, never null, and locks that frame only |
| PhysicalMemory.PMem.RequestFrames | kernel/src/memory/pmem.cpp:124-172 | the lowest long-enough run when one exists, including one that ends at the last frame; the short run or the halt otherwise; exactly the returned frames become locked and all of them were free |
| PhysicalMemory.PMem.FreeUsable | kernel/src/memory/pmem.cpp:46-59 | exactly the frames that some descriptor of kind 3, 4 or 7 covers become free |
| PhysicalMemory.PMem.Populate | kernel/src/memory/pmem.cpp:41-74 | a frame ends up free if and only if a descriptor of kind 3, 4 or 7 covers it and it is not frame 0, the stack frame or in the window of whole frames as long as the bitmap |
| PhysicalMemory.PMem.Boot | kernel/src/memory/pmem.cpp:10-79 | halts if and only if there are no frames, no segment of kind 7 passes the size check or nothing is left free; otherwise a frame is free if and only if a descriptor of kind 3, 4 or 7 covers it and it is not reserved, the cache is sound and all bitmap bytes fit in a segment of kind 7 |
| PageSpec.IndexerDigits | kernel/src/memory/paging.cpp:34-51 | the four indices are the page number written in base 512 |
| PageSpec.IndexerInjective | kernel/src/memory/paging.cpp:34-51 | two addresses have the same indices if and only if they lie in the same page |
| PageSpec.TablePointerRoundTrip | kernel/src/memory/paging.cpp:132-136 | a table address survives the entry's address field and the shift back if and only if it is below 4 GiB |
| PageSpec.SoftStep | kernel/src/memory/paging.cpp:88-112 | a step of the kernel's walk sees the entry present if and only if the place below has a table, and arrives at that table if and only if it lies below 4 GiB |
| PageSpec.WalkIsLookup | kernel/src/memory/paging.cpp:88-112 | in a well-formed tree the four-step hardware walk of a page arrives at the leaf registered for it |
| PageSpec.LinkTable | kernel/src/memory/paging.cpp:125-134 | hanging a cleared table below an absent entry keeps the tree well formed and changes no translation of any page |
| PageSpec.SetLeaf | kernel/src/memory/paging.cpp:180-183 | writing a leaf sets the translation of that page and of no other |
| PageSpec.TranslatedWritable | kernel/src/memory/paging.cpp:129-183 | when every present entry has the write bit, the hardware allows writes to every page that has a translation |
| PageSpec.EntriesUnshared | kernel/src/memory/paging.cpp:114-184 | no two present entries above the leaves lead to the same table |
| PageSpec.PresentLeaf | kernel/src/memory/paging.cpp:109-111 | a page has a translation if and only if the leaf its indices lead to is present |
| PageSpec.MissingByPlaces | kernel/src/memory/paging.cpp:123-175 | the number of tables the walk finds missing is the number of the page's three places that have none |
| TableSpec.AdvanceTwice | kernel/src/memory/paging.cpp:209-219 | two mapping steps take what one step for the union of their places takes, and the second runs short exactly when the union does |
| TableSpec.LowFrame | kernel/src/memory/paging.cpp:132-136 | the frames counted as low are those whose address is below 2^32 |
| TableSpec.LowAfter | kernel/src/memory/paging.cpp:114-178 | after the tables that were lacking have been made, all tables lie below 4 GiB if and only if no more were lacking than frames were free there |
| TableSpec.FindableNext | kernel/src/memory/paging.cpp:186-219 | if the tables for a list of pages will all lie below 4 GiB, the same holds for the rest of the list after any part of it |
| Pager.Paging.IsPageAllocated | kernel/src/memory/paging.cpp:88-112 | for a page whose existing tables lie below 4 GiB, the kernel's own walk answers membership in the translation map |
| Pager.Paging.AddTable | kernel/src/memory/paging.cpp:142-153 | the lowest free frame, locked and never a table before, becomes the table of exactly that place and no translation changes; halts if and only if no frame is free |
| Pager.Paging.AllocatePage | kernel/src/memory/paging.cpp:114-184 | the translation map is updated at the page of the virtual address with the frame of the physical one and nowhere else; halts if and only if fewer frames are free than tables are missing, and takes exactly that many frames, the lowest free ones, all for tables; all tables can still be found if and only if no more were missing than frames were free below 4 GiB; the page may be written |
| Pager.Paging.MappedWritable | kernel/src/memory/paging.cpp:114-184 | every page that is mapped may be written: all four entries its walk passes have the write bit |
| IdentitySpec.MapPagesAt | kernel/src/memory/paging.cpp:209-219 | each page of the run is mapped to the frame of its own number modulo 2^32, every other page keeps its translation |
| IdentitySpec.MapRegionsMeaning | kernel/src/memory/paging.cpp:186-207 | identity paging of any list of regions maps exactly their pages, each to the frame of its own number modulo 2^32 |
| IdentitySpec.TrueIdentityCondition | kernel/src/memory/paging.cpp:180-219 | every page of a list of regions is mapped to itself if and only if each region's first page plus the number of pages mapped for it is at most 2^32 |
| IdentitySpec.OrderIrrelevant | kernel/src/memory/paging.cpp:186-207 | lists with the same regions, in any order and with any repetition, give the same map |
| IdentitySpec.CoverageCondition | kernel/src/memory/paging.cpp:209-219 | every byte of a region is mapped if and only if offset, quotient and remainder by 4097 sum to at most 4096 |
| IdentitySpec.WholePagesCoverage | kernel/src/memory/paging.cpp:209-219 | an aligned region of k whole pages is fully mapped if and only if k is at most 4097 |
| Pager.InstalledIs | kernel/src/memory/paging.cpp:186-207 | the pages of the regions are those of every descriptor and of the framebuffer, as many as their size demands, and the one page of each APIC and of the HPET |
| Pager.HighFramebuffer | kernel/src/memory/paging.cpp:180-197 | for any memory map, a framebuffer at 16 TiB makes start-up map page 2^32 to frame 0 |
| Pager.Paging.MapRun | kernel/src/memory/paging.cpp:215-218 | a run of pages is mapped, each page to the frame of its own number modulo 2^32, also when addresses wrap; halts if and only if the run lacks more tables than frames are free; the loop at kernel/src/memory/heap.cpp:95-98 is the same |
| Pager.Paging.IdentityPaging | kernel/src/memory/paging.cpp:209-219 | the map afterwards is the old one with the region's pages mapped to the frames of their own number modulo 2^32, also when addresses wrap; halts if and only if the places of the region's pages lack more tables than frames are free |
| Pager.Paging.Init | kernel/src/memory/paging.cpp:186-207 | a page is mapped if and only if it belongs to a descriptor, to the framebuffer, or is the page of the local APIC, the I/O APIC or the HPET, and then to the frame of its own number modulo 2^32, which is the page itself below page 2^32; halts if and only if all regions together lack more tables than frames are free |
| Pager.Paging.Boot | kernel/src/memory/paging.cpp:53-86 | exactly the pages of the descriptors, the framebuffer, the APICs and the HPET and the probe page are mapped, the probe page to frame 0 and every other to the frame of its own number modulo 2^32, all of them writable; the tables occupy exactly the frames that became locked, the lowest that were free; halts if and only if start-up needs more tables than frames are free |
| HeapSpec.FirstFit | kernel/src/memory/heap.cpp:23-35 | the block at the result is free and has at least n bytes, and every earlier free block has fewer; or every free block has fewer |
| HeapSpec.InsertAfter | kernel/src/memory/heap.cpp:57-83 | the first block that is last or lies, with its successor, below the address |
| HeapSpec.SplitTiled | kernel/src/memory/heap.cpp:131-145 | cutting a block in two, or joining two that touch, keeps the exact tiling of the pages and the total size |
| HeapSpec.GrowTiled | kernel/src/memory/heap.cpp:100-110 | linking a block of whole fresh pages keeps the tiling for the enlarged set of pages and adds their size |
| HeapSpec.CarveCoalesced | kernel/src/memory/heap.cpp:116-147 | allocation leaves no two neighbours of the list that touch both free, even when the block taken touched a free predecessor |
| HeapSpec.CarveUsed | kernel/src/memory/heap.cpp:116-147 | one live block is added, of at least the requested and at most 32 more bytes, and no other live block changes |
| HeapLaws.ReleaseCoalesced | kernel/src/memory/heap.cpp:154-185 | after both merges no two neighbours of the list that touch are both free |
| HeapLaws.ReleaseUsed | kernel/src/memory/heap.cpp:150-186 | exactly the released block leaves the set of live blocks |
| HeapLaws.InitialInv | kernel/src/memory/heap.cpp:9-21 | the one-page heap satisfies the invariant |
| HeapLaws.MallocFitInv | kernel/src/memory/heap.cpp:85-148 | allocation without growth keeps the invariant |
| HeapLaws.GrowthChoice | kernel/src/memory/heap.cpp:91-114 | after growth the second search chooses the new block if and only if bytes mod 4096 is at most 4064, and otherwise finds nothing |
| HeapLaws.GrownCoalesced | kernel/src/memory/heap.cpp:57-83 | growth followed by allocation leaves no two neighbours of the list that touch both free, because the successor of the new block is never above it; blocks that are no neighbours may touch |
| HeapLaws.MallocGrowInv | kernel/src/memory/heap.cpp:91-147 | allocation with growth by a fresh run keeps the invariant |
| HeapLaws.ReleaseInv | kernel/src/memory/heap.cpp:150-186 | release keeps the invariant: tiling, total size, coalescing of list neighbours |
| HeapLaws.ReleaseAfterCarve | kernel/src/memory/heap.cpp:116-186 | releasing what was just carved out of a free block restores the block list exactly |
| HeapLaws.ReleaseAfterGrowth | kernel/src/memory/heap.cpp:91-186 | when growth was needed, release leaves the new pages as one free block, joined backward if its predecessor is free and touches it |
| HeapLaws.FreeUndoesMalloc | kernel/src/memory/heap.cpp:116-186 | the state after an allocation without growth and the release of its pointer is the state before |
| HeapLaws.HeadersClear | kernel/src/memory/heap.cpp:37-46 | no header of the list, and not the null page, overlaps the payload of any block |
| HeapLaws.WritesNullReachable | kernel/src/memory/heap.cpp:176-185 | two allocations that fill the first page, freed in order, make the backward merge write through null |
| HeapLaws.StepUsed | kernel/src/memory/heap.cpp:85-186 | a step adds one live block of at least the requested size or removes the one of the freed pointer, and keeps all others |
| HeapLaws.RunInv | kernel/src/memory/heap.cpp:9-186 | over every run of allocations and releases the invariant holds in every state, for the pages the list stands for; grants cut short by the end of memory are steps like any other |
| HeapLaws.LiveUntilFreed | kernel/src/memory/heap.cpp:85-186 | over every run, short grants included, a live block keeps its address and size until its pointer is freed |
| HeapLaws.RunNonInterference | kernel/src/memory/heap.cpp:85-186 | over every run, short grants included, different live blocks and their payloads are disjoint, no header lies in a live payload and every byte of a live payload lies in the pages the list stands for |
| HeapLaws.RunBacked | kernel/src/memory/heap.cpp:85-186 | over every run the blocks tile exactly the frames that memory has if and only if no grant so far was cut short by the end of memory |
| HeapOrder.GrowOrdered | kernel/src/memory/heap.cpp:57-83 | growth keeps an address-ordered list ordered if and only if it is a single block below the new one |
| HeapOrder.StepOrdered | kernel/src/memory/heap.cpp:85-186 | an ordered list stays ordered under every call but an allocation that grows a list of more than one block or below its only block |
| HeapOrder.OrderedMerged | kernel/src/memory/heap.cpp:154-185 | in an address-ordered list of disjoint blocks whose free neighbours do not touch, no two free blocks touch at all |
| HeapOrder.UnmergedReachable | kernel/src/memory/heap.cpp:57-186 | two allocations that fill the first page, one that grows, and the release of the first two leave two touching free blocks unmerged |
| HeapLinks.InsertLinks | kernel/src/memory/heap.cpp:103-110 | linking a header in yields an acyclic list whose next and prev are inverse to each other |
| HeapLinks.RemoveLinks | kernel/src/memory/heap.cpp:163-170 | unlinking a header does as well |
| HeapLinks.SplitLinks | kernel/src/memory/heap.cpp:131-145 | the header writes of a split give a well-formed list whose blocks are the carved ones |
| HeapLinks.MergeLinks | kernel/src/memory/heap.cpp:160-184 | the header writes of a merge, the one through null included, give a well-formed list whose blocks are the merged ones |
| KernelHeap.Heap.FindFreeBlock | kernel/src/memory/heap.cpp:23-35 | walking the links finds the first free block of at least the size asked for, null if and only if every free block is smaller |
| KernelHeap.Heap.FindBlockCloseBefore | kernel/src/memory/heap.cpp:57-83 | walking the links finds the insertion point of the specification |
| KernelHeap.Heap.CarveBlock | kernel/src/memory/heap.cpp:116-147 | the list in memory becomes the carved list; only headers of the new list are written, and memory outside the written headers is unchanged |
| KernelHeap.Heap.MergeWithNext | kernel/src/memory/heap.cpp:157-171 | the list in memory becomes the forward-merged one; memory outside the written headers is unchanged |
| KernelHeap.Heap.MergeWithPrev | kernel/src/memory/heap.cpp:173-185 | the list in memory becomes the backward-merged one; the null page is written if and only if a merge happens at the end of the list; memory outside the written headers is unchanged |
| KernelHeap.Heap.Free | kernel/src/memory/heap.cpp:150-186 | the heap stays valid and takes the specified step; no header write hits a live payload or leaves the pages the list stands for, and memory outside the written headers is unchanged; the null page is written if and only if `WritesNull` held before |
| KernelHeap.Heap.GrowHeap | kernel/src/memory/heap.cpp:91-110 | the pages of the run hold no page table, those that memory has are owned, locked and mapped to themselves, and the list has grown at the insertion point; exactly the run's pages have new translations, exactly the granted frames and those of new tables became locked; halts if and only if nothing is granted or too few frames are left for the tables |
| KernelHeap.Heap.Malloc | kernel/src/memory/heap.cpp:85-148 | whenever some free block has enough bytes it returns a fresh live block, the heap is valid and the layers below are untouched; otherwise it halts if and only if nothing is granted, the frames left are too few for page tables or there is no room for the header, always below 4096 bytes; if it returns, the heap is valid with a fresh live block, exactly the run's pages have new translations, exactly the granted frames and those of new tables became locked, and the blocks tile the granted frames if and only if they did before and the whole run was granted; memory outside the written headers is unchanged, and none of these lies in a live payload |
| KernelHeap.Heap.SmallMachineGrants | kernel/src/memory/paging.cpp:114-184 | with at most 4 GiB of memory the condition that growth puts on page tables always holds |
| HeapPlacement.ShortGrantBreaks | kernel/src/memory/heap.cpp:92-101 | after a short grant the blocks no longer tile the granted frames |
| HeapPlacement.ShortGrantReachable | kernel/src/memory/heap.cpp:85-101 | a valid one-page heap, seven frames of which the last two are free and a request of 8192 bytes: two frames are granted for three, no table is missing, and the blocks no longer tile the granted frames |
| KernelHeap.AllocateAndRelease | kernel/src/memory/heap.cpp:85-186 | on the heap in memory, an allocation from a block that fits followed by the release of its pointer restores the list, its addresses and every header on it, and leaves the pager and the frame allocator untouched |
| KernelHeap.Heap.Boot | kernel/src/memory/heap.cpp:9-21 | a valid heap of one free block that fills the lowest free frame, mapped to itself; halts if and only if there is none or the others are too few for the tables |
| KernelHeap.Heap.SmallMachineFirstPage | kernel/src/memory/paging.cpp:114-184 | with at most 4 GiB of memory the condition that the heap's first page puts on page tables always holds |
| KernelHeap.Heap.HeapStats | kernel/src/memory/heap.cpp:188-209 | the three counts are the length of the list, the free blocks and the size of the set of live blocks |
| Kernel.BootPaging | kernel/src/kernel.cpp:61-141 | the frame allocator and the pager together halt if and only if the former cannot be built or leaves fewer frames than tables are needed; otherwise the tables take the lowest frames it left and the address space is the specified one |
| Kernel.BootMemory | kernel/src/kernel.cpp:61-162 | start-up halts if and only if the frame allocator cannot be built, the pager's tables take every free frame, or the frame with just these tables below it lacks more tables than are left; otherwise the heap is valid, that frame is its page, and its page and all page tables lie in different frames that the memory map left usable and that are not reserved |
| Kernel.SmallMachineStart | kernel/src/memory/paging.cpp:114-184 | with at most 4 GiB of memory the condition that start-up puts on page tables always holds |
| Stdlib.StrLen | kernel/src/libc/stdlib.cpp:6-15 | the length of the text before the first NUL |
| Stdlib.StrReverse | kernel/src/libc/stdlib.cpp:17-28 | the first len characters are reversed exactly, the rest is untouched |
| Stdlib.MemCpyWithin | kernel/src/libc/stdlib.cpp:30-39 | a forward copy within one buffer is a move whenever the destination is not above the source or they do not overlap; otherwise the stretch between them repeats |
| Stdlib.MemCpy | kernel/src/libc/stdlib.cpp:30-39 | the destination holds the source and nothing else changes |
| Stdlib.ParseDigits | kernel/src/libc/stdlib.cpp:51-80 | parsing the digits of a number in any base from 2 to 36 gives the number back |
| Stdlib.DigitAlphabet | kernel/src/libc/stdlib.cpp:66-69 | the digits are 0 to 9 and then a to z |
| Stdlib.DigitsCanonical | kernel/src/libc/stdlib.cpp:60-72 | the digits are valid in the base and start with 0 only for zero |
| Stdlib.DigitsParse | kernel/src/libc/stdlib.cpp:51-80 | the digits of the value of a canonical numeral are that numeral |
| Stdlib.DecimalAndHexLength | kernel/src/kutils/console.cpp:13-14 | a 64-bit number has at most 20 decimal and 16 hexadecimal digits, so both fit the 64-byte buffer |
| Stdlib.Itoa | kernel/src/libc/stdlib.cpp:51-80 | the buffer holds the digits, most significant first, and a NUL |
| Printf.ExpandConcat | kernel/src/kutils/console.cpp:21-76 | expansion distributes over formats joined outside a directive |
| Printf.DirectiveYields | kernel/src/kutils/console.cpp:23-59 | %d and %p yield the canonical decimal and hexadecimal numeral of any 64-bit number, %s the string |
| Printf.OtherCharacters | kernel/src/kutils/console.cpp:60-75 | any other character is printed as it is; behind a percent sign nothing is, and no argument is read |
| Printf.CompleteConcat | kernel/src/kutils/console.cpp:21-76 | complete formats joined are complete and read as many arguments as both |
| Printf.Fill | kernel/src/kutils/console.cpp:21-76 | the flag-driven loop writes exactly the expansion of the format |
| Printf.Format | kernel/src/kutils/console.cpp:7-78 | whenever the expansion fits, the text in the 4096-byte buffer is the expansion |
| Printf.Vprintf | kernel/src/kutils/console.cpp:7-81 | the page afterwards is the one on which the expansion has been laid out, the window has scrolled as that text demands, and the screen shows the window |
| Screen.WrappedText | kernel/src/console/console.cpp:15-22 | printable text fills the page row by row: character k stands in row k / 100, column k mod 100 |
| Screen.WindowFollows | kernel/src/console/console.cpp:90-138 | for text without backspace on an empty page, the first visible row is the row of the cursor before the last character minus 36, or 0 |
| Screen.TabMoves | kernel/src/console/console.cpp:121-126 | a tab moves the cursor three columns, into the next row at the end of a row, and draws nothing |
| Screen.LinesStand | kernel/src/console/console.cpp:95-120 | lines of printable text, each ended by a newline, stand in consecutive rows from column 0 on, and nothing else is drawn |
| Screen.Overprint | kernel/src/console/console.cpp:127-130 | what follows a carriage return is written over the row from its start, and the rest of the row stays |
| Screen.BackspaceErases | kernel/src/console/console.cpp:131-136 | a backspace behind a drawn character blanks that cell only and puts the cursor back on it |
| Screen.Ignored | kernel/src/console/console.cpp:95-137 | characters outside 32 to 127 other than backspace, tab, newline and carriage return change nothing |
| Screen.FeedConcat | kernel/src/console/console.cpp:145-152 | printing a text is printing its parts one after the other, scrolls included |
| Screen.NoBackspaceSafe | kernel/src/console/console.cpp:24-31 | text without backspace never moves the cursor above the window |
| Consoles.Console.ScrollDown | kernel/src/console/console.cpp:154-162 | the overlapping copy and the blanked row show the same page one row further down |
| Consoles.Console.PrintChar | kernel/src/console/console.cpp:90-138 | the page receives the character, the window scrolls if the cursor had left it, the screen shows the window, glyphs are drawn on rows below 37 and columns below 100 only |
| Consoles.Console.Print | kernel/src/console/console.cpp:145-152 | after any safe text the screen is the window of the page that holds it |
| Hpet.TickBounds | kernel/src/acpi/hpet/comparator.cpp:54-59 | the programmed ticks are never more than one tick short of the time asked for, and the overshoot is bounded by the truncation of the period |
| Hpet.TooLong | kernel/src/acpi/hpet/comparator.cpp:54-59 | a time too long for 64 bits of nanoseconds loses the whole multiples of 2^64 |
| Hpet.OvershootBelow | kernel/src/acpi/hpet/hpet.cpp:26-35 | the relative overshoot is below one over the period in nanoseconds |
| Hpet.OneShotDistance | kernel/src/acpi/hpet/comparator.cpp:61-77 | the distance from the running counter to the comparator is the tick count, also when the sum wraps |

## Left out

- KernelHeap.Heap.Malloc: requests within the memory size and 32 bytes of 2^64 are left out, where the address of a split header would wrap; so is growth that puts page tables above 4 GiB, which needs more than 4 GiB of memory (`KernelHeap.Heap.SmallMachineGrants`).
- Headers past the end of memory, which a split writes after a short grant, are modelled as if memory were there.
- KernelHeap.Heap.Free: pointers that are not live are left out; whether the write to the null page faults depends on the memory map and is not modelled.
- Pager.Paging.AllocatePage: pages with an existing table above 4 GiB on their path are left out, since the kernel then writes to an unrelated address; allocators with more than 2^32 frames are left out, where the address field no longer holds a frame number.
- Pager.Paging.IsPageAllocated: the same pages are left out, since the kernel then reads an unrelated address.
- Pager.Paging.IdentityPaging: regions whose tables would not all lie below 4 GiB are left out, because later pages might need such a table.
- Pager.Paging.MapRun: runs of pages likewise.
- Pager.Paging.Init: memory maps and devices likewise; also for the next three.
- Pager.Paging.Boot: as for Init.
- Kernel.BootPaging: as for Init.
- Kernel.BootMemory: as for Init; the condition asks for four free frames below 4 GiB besides the pager's, or none above.
- KernelHeap.Heap.Boot: a first page whose tables would lie above 4 GiB is left out.
- KernelHeap.Heap.GrowHeap: as for Malloc.
- PhysicalMemory.PMem.Boot: memory maps whose usable descriptors, stack or bitmap window lie outside the counted frames are left out, since the bitmap would be indexed out of bounds; the bitmap window is an arbitrary address, because the kernel takes it from the address of a pointer field.
- Consoles.Console.PrintChar: backspace in the upper left corner is left out, where the 16-bit row would wrap.
- Printf.Format: formats of 65536 characters or more, expansions that overflow the buffer and arguments that do not match the directives are left out.
- The PML4 and the bytes of the bitmap are kept apart from the frames that are granted. The kernel does not guarantee that: the bitmap is placed at the start of the largest conventional segment, whose frames are left free, and the PML4 is in a local of `_start`, of whose stack only one frame is locked (kernel/src/memory/pmem.cpp:61 has a note about the kernel's own frames). The heap's write claims therefore cover the tables below the PML4 only.
- The line that `request_frames` prints, and every other kernel message, has no effect on the memory model.
- The memory map is a sequence of descriptors; the pointer arithmetic over descriptor size is not modelled.
- Table entries keep the present bit, the write bit and the address; the other bits are never set by the kernel.
- Colours, glyph bitmaps, pixels and the copy from the double buffer to the framebuffer: the console is modelled by cells.
- The bootloader, assembly, control registers, descriptor tables, interrupts, ACPI tables, keyboard and PS/2: hardware or firmware access, or table lookups that would only add easy members.
- The HPET and comparator registers: only the arithmetic that decides their values is modelled.
