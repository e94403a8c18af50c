# dsOS kernel core in Dafny

A model of the core of dsOS, a small x86_64 kernel written in C, with proofs
about it. The model covers these parts of the kernel:

- **Memory**: the physical frame allocator (`kernel/mm/memory.c`). It keeps a bitmap with one bit per 4 KiB frame and a `used_pages` counter.
- **Paging**: the four-level page tables (`kernel/mm/paging.c`). This covers walking them, mapping and unmapping pages and runs of pages, and the recursive PML4 slot.
- **Heap**: the kernel heap (`kernel/mm/heap.c`). It is a first-fit list of blocks with headers, and covers splitting, merging, `krealloc` and aligned allocation.
- **Strings**: the C string and memory routines (`kernel/lib/string.c`), including `strtok_r`.
- **Printf**: the formatter (`kernel/lib/printf.c`). This covers flag parsing, `int_to_string` and `vsprintf_internal`'s buffer discipline.
- **BootLogo**: the boot logo decoder and helpers (`kernel/boot/boot_logo.c`). This covers the PNG chunk walk, byte swapping, blending and centring.
- **Keyboard**: scancode handling (`kernel/arch/x86_64/keyboard.c`). This covers modifier state, keymaps and the LED byte.
- **Vga**: the VGA driver (`kernel/arch/x86_64/vga.c`). This covers the text console with scrolling and the framebuffer primitives.
- **KernelConsole**: the early console of `kernel/kernel.c`. This covers its `vga_putchar`, `itoa` and `kprintf`.
- **Gdt**: the descriptor table and TSS (`kernel/arch/x86_64/gdt.c`).
- **Idt**: the interrupt table and dispatch (`kernel/arch/x86_64/idt.c`).
- **Timer**: the programmable interval timer (`kernel/arch/x86_64/timer.c`).
- **Serial**: the 16550 UART driver (`kernel/arch/x86_64/serial.c`).

Each C file that updates state in place becomes imperative Dafny. Its statics or structures are the fields of a class. Its loops are `while` loops with invariants, proved against specification functions. Pure computations become functions, and lemmas state their properties. Machine integers are unbounded here, so the model writes out each wrap-around or truncation the C code performs. Port I/O appears in two ways: as a log of the bytes written, or as parameters standing for what the hardware answers.

Where the code has a defect, the model keeps the code as written and proves the defect with a concrete input, and gives the corrected definition with the intended property proved (see "## Findings"). There is one exception. `Paging`'s walking, mapping and unmapping operations follow each address's own tables; in effect they use corrected recursive windows. The as-written entry accesses of `is_page_mapped`, `virtual_to_physical` and `unmap_page` are modelled beside them and compared with them. "## Left out" names each operation this affects.

`find_free_block` (kernel/mm/heap.c:353-377) returns the first free block that is large enough, so `Heap` models first-fit.

## Model

| member | source | states |
|---|---|---|
| Memory.Inc | kernel/mm/memory.c:150 | `used_pages++` as a size_t: the result stays below 2^64 and equals x + n while that fits |
| Memory.Dec | kernel/mm/memory.c:265 | `used_pages--` as a size_t: below 2^64, 0 wraps to 2^64 - 1, otherwise x - 1 |
| Memory.FirstClear | kernel/mm/memory.c:75-86 | the index found is NOT_FOUND or a clear flag, and every flag before it is set |
| Memory.FirstRun | kernel/mm/memory.c:94-112 | the start found is NOT_FOUND or begins n clear flags inside the range, and no earlier start does |
| Memory.ZeroMemoryInitOverflows | kernel/kernel.c:457 | with mm_init(0) there are no pages and no bitmap words, yet the marking of the low frames does not fit |
| Memory.VmGetPhys | kernel/mm/memory.c:333-340 | above the kernel base the result plus the base gives the address back; below it the result is 0 |
| Memory.VmGetPhysInverse | kernel/mm/memory.c:333-340 | vm_get_phys undoes the kernel-base offset for every physical address that fits |
| Memory.FrameAllocator.Init | kernel/mm/memory.c:119-192 | mm_init as written: total_pages = mem_upper*1024/4096, entries = ceil(total_pages/64), every frame below 1 MiB, the kernel's and the bitmap's frames set, and used_pages counts every marking |
| Memory.FrameAllocator.InitChecked | kernel/mm/memory.c:119-192 | corrected mm_init: same layout, but marking stays below total_pages and counts each flag once, so the counter equals the set flags |
| Memory.FrameAllocator.MarkRun | kernel/mm/memory.c:145-151 | a marking loop sets exactly the frames of the run and adds one to the counter per marking |
| Memory.FrameAllocator.Reserve | kernel/mm/memory.c:188-191 | the bounded marking keeps the counter equal to the set flags and sets exactly the run's frames below total_pages |
| Memory.FrameAllocator.BitmapSet | kernel/mm/memory.c:41-45 | bitmap_set sets the flag of the index (bit index%64 of word index/64) and changes no other |
| Memory.FrameAllocator.BitmapClear | kernel/mm/memory.c:52-56 | bitmap_clear clears that flag and changes no other |
| Memory.FrameAllocator.BitmapTest | kernel/mm/memory.c:64-68 | bitmap_test reads the same flag bitmap_set and bitmap_clear write |
| Memory.FrameAllocator.FindFree | kernel/mm/memory.c:75-86 | bitmap_find_free returns the first clear flag over all entries*64 flags, and NOT_FOUND exactly when all are set |
| Memory.FrameAllocator.FindFreeBounded | kernel/mm/memory.c:75-86 | the corrected search returns the first clear frame below total_pages, never a padding flag |
| Memory.FrameAllocator.FindFreeContiguous | kernel/mm/memory.c:94-112 | NOT_FOUND for n = 0, bitmap_find_free for n = 1, otherwise the lowest run of n clear frames below total_pages, restarting after any set flag |
| Memory.FrameAllocator.AllocPage | kernel/mm/memory.c:214-225 | mm_alloc_page returns page*4096 for the first clear flag, which becomes set, and the counter rises by 1; 0 when every flag is set; a consistent counter stays consistent |
| Memory.FrameAllocator.AllocPages | kernel/mm/memory.c:233-247 | mm_alloc_pages: the n frames found were clear and become set, the counter rises by n; 0 on failure |
| Memory.FrameAllocator.SetRun | kernel/mm/memory.c:240-243 | the marking loop sets exactly the run and the set-flag count rises by its length |
| Memory.FrameAllocator.FreePage | kernel/mm/memory.c:254-268 | mm_free_page ignores addresses below 1 MiB and frames at or past total_pages; otherwise it clears the flag and decrements the counter, set or not |
| Memory.FrameAllocator.FreePageChecked | kernel/mm/memory.c:254-268 | corrected mm_free_page decrements only when the flag was set, keeping the counter equal to the set flags |
| Memory.FrameAllocator.FreePages | kernel/mm/memory.c:276-280 | mm_free_pages clears the frames of the range in [256, total_pages) with one decrement each |
| Memory.FrameAllocator.GetFreePages | kernel/mm/memory.c:296-298 | total_pages - used_pages as a size_t, below 2^64 |
| Memory.FrameAllocator.FreePagesCountsClearFrames | kernel/mm/memory.c:287-298 | with a consistent counter and clear padding, mm_get_free_pages is the number of clear frames below total_pages |
| Memory.DecBy | kernel/mm/memory.c:276-280 | n wrapping size_t decrements stay below 2^64 |
| Memory.DoubleFreeDrifts | kernel/mm/memory.c:254-268 | freeing an already clear frame leaves a counter that no longer equals the set flags |
| Memory.FindFreeReturnsPadding | kernel/mm/memory.c:75-86 | with one page of memory and frame 0 used, bitmap_find_free answers frame 1, which does not exist |
| Paging.SamePageIffSameIndices | kernel/mm/paging.c:303-338 | two addresses lie in the same 4 KiB page exactly when their four 9-bit table indices (bits 39, 30, 21, 12) agree |
| Paging.OffsetKeepsPage | kernel/mm/paging.c:227-268 | a byte offset inside an aligned page keeps its page and all four indices |
| Paging.MaskKeepsIndices | kernel/mm/paging.c:73-74 | aligning an address down with PAGE_MASK keeps all four indices |
| Paging.EntryFlagsExact | kernel/mm/paging.c:77-91 | map_page's flag conversion gives PRESENT plus exactly the six passable caller bits, and never an address bit |
| Paging.ZeroTable | kernel/mm/paging.c:128-130 | a cleared table has 512 entries, none present |
| Paging.AsLeaf | kernel/mm/paging.c:294 | the walk reports an entry exactly when its PRESENT bit is set |
| Paging.SelfEntry | kernel/mm/paging.c:53 | the self entry of slot 510 is present and names the PML4's own frame |
| Paging.SameLeafTableSamePrefix | kernel/mm/paging.c:105-175 | outside slot 510, walks that end in the same page table went through the same three slots |
| Paging.WindowWalkAvoidsPageTables | kernel/mm/paging.c:105-175 | a walk through slot 510 never ends in a page table |
| Paging.LeafWriteEffect | kernel/mm/paging.c:169-170 | writing the last-level entry of an address keeps the table hierarchy, makes that address read the entry, and changes no other page |
| Paging.InstallEffect | kernel/mm/paging.c:117-165 | installing a cleared frame in an absent slot keeps the hierarchy, links the slot to the frame one level down, and changes no address outside slot 510 |
| Paging.InstallExtends | kernel/mm/paging.c:117-165 | installing a frame from the allocator's pool extends the space: tables only added, links and entries kept |
| Paging.ExtendsFrame | kernel/mm/paging.c:117-165 | an extension only adds tables taken from the pool, one for one, and changes no address outside slot 510 |
| Paging.PdpWindowCollides | kernel/mm/paging.c:127 | the PDP window as written gives addresses 0 and 2^39 the same table although their PML4 indices differ |
| Paging.PdWindowCollides | kernel/mm/paging.c:144 | likewise the PD window for 0 and 2^30 |
| Paging.PtWindowCollides | kernel/mm/paging.c:161 | likewise the PT window for 0 and 2^21 |
| Paging.PdpWindowDecodes | kernel/mm/paging.c:313-316 | the corrected PDP window is the page at slots 510, 510, 510, I4(v) |
| Paging.PdWindowDecodes | kernel/mm/paging.c:324-327 | the corrected PD window is the page at slots 510, 510, I4(v), I3(v) |
| Paging.PtWindowDecodes | kernel/mm/paging.c:335-338 | the corrected PT window is the page at slots 510, I4(v), I3(v), I2(v) |
| Paging.PtWindowInjective | kernel/mm/paging.c:335-338 | two addresses share a corrected PT window exactly when they share the PML4, PDP and PD indices |
| Paging.PdWindowInjective | kernel/mm/paging.c:324-327 | two addresses share a corrected PD window exactly when they share the PML4 and PDP indices |
| Paging.PdpWindowInjective | kernel/mm/paging.c:313-316 | two addresses share a corrected PDP window exactly when they share the PML4 index |
| Paging.PtWindowReachesTable | kernel/mm/paging.c:335-338 | with the recursive slot in place, the corrected PT window of v reaches v's own page table |
| Paging.PdWindowReachesTable | kernel/mm/paging.c:324-327 | the corrected PD window of v reaches v's page directory |
| Paging.PdpWindowReachesTable | kernel/mm/paging.c:313-316 | the corrected PDP window of v reaches v's PDP table |
| Paging.RecursiveRead | kernel/mm/paging.c:313-338 | a load at an address under PML4 slot 510 reads a table entry exactly when the walk of its next three indices reaches a table; bits 3-11 of the address pick the slot |
| Paging.LowIndices | kernel/mm/paging.c:127-161 | below 2 MiB the top three indices are 0 and the as-written PDP, PD and PT entry pointers land under slot 510 at slots 0, 0 and I1(v) of the tables v's walk passes |
| Paging.LowLoads | kernel/mm/paging.c:276-295 | below 2 MiB the three as-written loads of is_page_mapped read slot 0 of the PDP table, slot 0 of the PD and slot I1(v) of v's page table |
| Paging.LowAddressesAgree | kernel/mm/paging.c:205-216 | below 2 MiB is_page_mapped and virtual_to_physical as written never fault and return what the walk-based IsPageMapped and VirtualToPhysical return |
| Paging.LowMappedAgree | kernel/mm/paging.c:276-295 | below 2 MiB is_page_mapped as written agrees with IsPageMapped |
| Paging.TwoMiBWindow | kernel/mm/paging.c:161 | 0x200000 has PD index 1, yet its as-written PT entry pointer equals that of address 0 and reads entry 0 of page 0's page table |
| Paging.TwoMiBAsWritten | kernel/mm/paging.c:183-197 | with both page tables present, page 0's and 0x200000's tables differ; is_page_mapped(0x200000) as written reports page 0's entry, and unmap_page(0x200000) as written returns 0 and clears page 0's entry |
| Paging.TwoMiBUnmapEffect | kernel/mm/paging.c:183-197 | after that store page 0 reads as unmapped while 0x200000 reads as before |
| Paging.SelfSlotSound | kernel/mm/paging.c:53 | overwriting PML4 slot 510 with the self entry keeps the hierarchy and sets up the recursive slot |
| Paging.VmInit | kernel/mm/paging.c:44-61 | vm_init leaves a valid space whose slot 510 points at the PML4, with every other slot and table unchanged |
| Paging.PresentAt | kernel/mm/paging.c:276-295 | the top-down presence check is true exactly when the walk reaches a present entry |
| Paging.IsPageMapped | kernel/mm/paging.c:276-295 | is_page_mapped holds exactly when the walk of the address reads a present entry |
| Paging.VirtualToPhysical | kernel/mm/paging.c:205-216 | 0 for an unmapped page; otherwise the entry with its low 12 bits replaced by the address's offset |
| Paging.VirtualToPhysicalFixed | kernel/mm/paging.c:205-216 | the corrected translation keeps only the entry's address bits |
| Paging.ClearTable | kernel/mm/paging.c:128-130 | the clearing loop leaves all 512 entries 0 |
| Paging.InstallTable | kernel/mm/paging.c:117-131 | one "create the missing table" step fails exactly when the allocator has no frame, and otherwise installs a pool frame and extends the space |
| Paging.EnsureTable | kernel/mm/paging.c:117-165 | a get-or-create block returns -1 exactly when the slot is absent and the pool is empty; otherwise the slot leads one level down |
| Paging.EnsureWalk | kernel/mm/paging.c:116-165 | the three blocks reach the address's page table on success; on failure the pool is empty and the tables created so far stay installed |
| Paging.MapPageInternal | kernel/mm/paging.c:105-175 | a mapped page is rewritten in place without invlpg; otherwise the tables are built, the entry stored and invalidated; -1 means the pool ran dry and the page stays unmapped; no other page changes |
| Paging.MapUnmapped | kernel/mm/paging.c:116-174 | the path for an unmapped page: same result, the address invalidated on success |
| Paging.MapPage | kernel/mm/paging.c:71-95 | map_page: the page of virt reads the aligned phys with the converted flags, or -1 with an empty pool; no other page changes |
| Paging.UnmapPage | kernel/mm/paging.c:183-197 | -1 exactly when the page is not mapped; otherwise only that page's entry is cleared and invalidated, and no table is freed |
| Paging.TranslateMapped | kernel/mm/paging.c:205-216 | after map_page without NX, byte k of the page translates to byte k of the physical page |
| Paging.TranslateLeaksNx | kernel/mm/paging.c:215 | with NX requested, the translation keeps bit 63 of the entry |
| Paging.TranslateFixedMapped | kernel/mm/paging.c:205-216 | the corrected translation returns the physical byte whatever the flags |
| Paging.Pages | kernel/mm/paging.c:233-245 | the run of n page addresses from v, stepping by 4096 and wrapping as the 64-bit sum does |
| Paging.UnmapDown | kernel/mm/paging.c:237-239 | unmapping n pages downwards leaves them unmapped and every other page as it was |
| Paging.UnmapPages | kernel/mm/paging.c:257-268 | unmap_pages returns 0, leaves the count pages from the aligned address unmapped, and changes nothing else |
| Paging.MapNext | kernel/mm/paging.c:234 | one map_page call of the loop extends the run of mapped pages by one, or leaves the page unmapped with an empty pool |
| Paging.RollbackAsWritten | kernel/mm/paging.c:235-241 | the rollback as written unmaps pages i down to 1: page 0 keeps its mapping |
| Paging.RollbackFixed | kernel/mm/paging.c:235-241 | the corrected rollback unmaps pages i-1 down to 0, so no page of the run stays mapped |
| Paging.MapPages | kernel/mm/paging.c:227-248 | map_pages as written: on success the count pages map to consecutive frames with the converted flags; on failure the pool is empty and page 0 of the run stays mapped when another page was mapped |
| Paging.MapPagesFixed | kernel/mm/paging.c:227-248 | map_pages with the intended rollback: on failure no page of the run is left mapped |
| Paging.EnsureBelow | kernel/mm/paging.c:133-149 | the PDP and PD steps of map_page_internal: on 0 a PD and a PT hang below the PDP table for the page's indices; -1 only when no free frame is left |
| Paging.MapStepAsWritten | kernel/mm/paging.c:233-242 | one iteration of map_pages as written: on 0 the run of mapped pages grows by the next page, on -1 the frame pool is exhausted |
| Paging.MapStepFixed | kernel/mm/paging.c:233-242 | one iteration with the corrected rollback: on -1 every page of the run up to this one is unmapped |
| Paging.MapRunFixed | kernel/mm/paging.c:227-248 | the corrected map_pages loop: on 0 all count pages map to consecutive frames, on -1 it names the failing page |
| Paging.UnmapNext | kernel/mm/paging.c:257-268 | unmapping a page at either end of an unmapped range widens the range by one and touches nothing else |
| Heap.UsedWithinTotal | kernel/mm/heap.c:340-344 | the bytes of blocks in use never exceed the arena, and the blocks in use never exceed the blocks |
| Heap.AddrEnd | kernel/mm/heap.c:58-62 | the block headers tile the arena: the block after the last one starts at heap_start plus the sum of the sizes |
| Heap.AllocsAt | kernel/mm/heap.c:98-106 | every block in use is a live allocation under its data pointer (header + 32), with its size |
| Heap.AllocsOnly | kernel/mm/heap.c:98-106 | every live allocation is the data pointer of a block in use |
| Heap.LiveIff | kernel/mm/heap.c:203-231 | a pointer is live exactly when its header names a block in use |
| Heap.Split | kernel/mm/heap.c:385-403 | split_block: the block keeps n bytes and a new free block after it takes the rest; the total size is kept |
| Heap.SplitAllocs | kernel/mm/heap.c:385-403 | a split changes the live allocations only when the block is in use, whose size drops to n; the block keeps its address |
| Heap.MergeAllocs | kernel/mm/heap.c:411-438 | absorbing a free next block changes the live allocations only when the block is in use, whose size grows by the next block's |
| Heap.MergeAroundCoalesced | kernel/mm/heap.c:203-231 | freeing a block of a list with no two free neighbours and merging around it leaves no two free neighbours |
| Heap.AlignUp | kernel/mm/heap.c:143 | `(x + a - 1) & ~(a - 1)` is the least multiple of a at or above x |
| Heap.Padding | kernel/mm/heap.c:142-144 | the padding is below align, brings the pointer to a multiple of align, and is 0 exactly when it already was one |
| Heap.SizeLessHeader | kernel/mm/heap.c:256 | `block->size - sizeof(heap_block_t)` in size_t arithmetic: the size less the header when the size holds one |
| Heap.HeapState.Init | kernel/mm/heap.c:46-66 | heap_init as written: a page-aligned start, one free block of the full size, heap_end = start + size, counters 0, no allocations |
| Heap.HeapState.InitWithin | kernel/mm/heap.c:46-66 | corrected heap_init: the arena stays inside the caller's region; a region too small for a header holds no block |
| Heap.InitRunsPast | kernel/mm/heap.c:48-53 | heap_init(4097, 4096) starts at 8192 and ends at 12288, past the caller's region |
| Heap.HeapState.FindFreeBlock | kernel/mm/heap.c:353-377 | find_free_block returns the first block in list order that is free, large enough and, for align > 1, holds the padding; or none |
| Heap.HeapState.SplitBlock | kernel/mm/heap.c:385-403 | split_block rewires the list to Split and leaves the statistics alone |
| Heap.HeapState.MergeAdjacentBlocks | kernel/mm/heap.c:411-438 | merge_adjacent_blocks absorbs a free next block, then is absorbed by a free previous one, and reports whether either happened |
| Heap.HeapState.Take | kernel/mm/heap.c:94-106 | claiming block i: split above the limit, mark it used, heap_used rises by its size, alloc_count by 1, and its pointer becomes live |
| Heap.HeapState.Kmalloc | kernel/mm/heap.c:74-107 | kmalloc is NULL exactly for size 0 or when no block fits the rounded request; otherwise the first fitting block becomes a new allocation of at least size + header bytes, nothing else changes, and tiling, coalescing and accounting are kept |
| Heap.HeapState.KmallocAligned | kernel/mm/heap.c:116-182 | kmalloc_aligned as written: NULL for size 0, a non-power-of-two align or no fit; the pointer is aligned exactly when a padding block was carved |
| Heap.ShortPadding | kernel/mm/heap.c:147-166 | kmalloc_aligned(8, 16) at a data pointer 8 bytes short of alignment carves no padding block and returns an unaligned pointer |
| Heap.ShortRemainder | kernel/mm/heap.c:169-171 | kmalloc_aligned(8, 1) in a lone 64-byte block leaves a 24-byte remainder that cannot hold its 32-byte header |
| Heap.ZeroAlignPasses | kernel/mm/heap.c:123-126 | align 0 passes the power-of-two check, and the rounding then sends every address to 0 |
| Heap.HeapState.KmallocAlignedFixed | kernel/mm/heap.c:116-182 | corrected kmalloc_aligned: align 0 is refused, and every non-NULL result is a multiple of align |
| Heap.HeapState.CarvePadding | kernel/mm/heap.c:147-166 | the padding block keeps the first p bytes and the free block after it starts p bytes further on; the live allocations do not change |
| Heap.HeapState.TakePadded | kernel/mm/heap.c:147-173 | the as-written claim returns an aligned pointer exactly when a padding block was carved, and a new allocation of at least size + header bytes |
| Heap.HeapState.TakeWidened | kernel/mm/heap.c:147-173 | the corrected claim always returns an aligned pointer to a new allocation of at least size + header bytes |
| Heap.HeapState.ShrinkBlockFixed | kernel/mm/heap.c:259-270 | the corrected shrink keeps the pointer, merges the remainder, and lowers heap_used by exactly what the block released |
| Heap.HeapState.GrowBlockFixed | kernel/mm/heap.c:273-291 | the corrected growth keeps the pointer and raises heap_used by exactly what the block gained |
| Heap.HeapState.ResizeInPlace | kernel/mm/heap.c:252-291 | the in-place paths as written: a shrink split leaves heap_used above the block total, a growth leaves it below |
| Heap.HeapState.Kfree | kernel/mm/heap.c:203-231 | kfree ignores NULL, panics (changing nothing) on a header outside the heap or a free block, and otherwise frees exactly that allocation, reverses the statistics and keeps the list coalesced |
| Heap.HeapState.Release | kernel/mm/heap.c:219-230 | marking a block free, reversing the statistics and merging removes exactly its pointer from the live allocations |
| Heap.HeapState.Ksize | kernel/mm/heap.c:315-331 | ksize is 0 for NULL and out-of-range pointers, and the block size less the header for a live pointer |
| Heap.HeapState.HeapGetInfo | kernel/mm/heap.c:340-344 | alloc_count equals the number of live allocations, and with heap_used accounted the bytes in use are at most the heap size |
| Heap.HeapState.ShrinkBlock | kernel/mm/heap.c:259-270 | the shrink path splits exactly when the block exceeds the request by more than a header and 16 bytes, and leaves heap_used unchanged |
| Heap.HeapState.GrowBlock | kernel/mm/heap.c:273-291 | the merge path absorbs the free successor, holds at least size + header bytes, and leaves heap_used unchanged |
| Heap.HeapState.Move | kernel/mm/heap.c:294-306 | the last resort allocates a new block and frees the old one, or returns NULL with nothing changed |
| Heap.HeapState.Resize | kernel/mm/heap.c:252-306 | krealloc of a live pointer keeps it exactly when the block resizes in place; a large shrink splits, and heap_used then disagrees with the bytes in use |
| Heap.HeapState.Krealloc | kernel/mm/heap.c:240-307 | krealloc as written: NULL allocates, size 0 frees; a shrink leaves heap_used above the bytes in use and can leave two free neighbours, and a merge leaves it below |
| Heap.ShrinkBesideFree | kernel/mm/heap.c:259-270 | krealloc(p, 8) on a 200-byte block before a free block leaves two free neighbours and heap_used at 200 for 40 bytes in use; the corrected shrink merges them |
| Heap.HeapState.KreallocFixed | kernel/mm/heap.c:240-307 | corrected krealloc: the same results, with heap_used always accounted and the list kept coalesced |
| Strings.ToByte | kernel/lib/string.c:93 | `(unsigned char)c` is c modulo 256 |
| Strings.Strlen | kernel/lib/string.c:168-176 | strlen is the index of the first NUL: that byte is NUL and none before it is |
| Strings.Memcmp | kernel/lib/string.c:128-139 | memcmp is 0 exactly when the first n bytes agree |
| Strings.MemcmpOrder | kernel/lib/string.c:128-139 | memcmp is negative exactly when the first n bytes of the first area sort first (unsigned lexicographic order) |
| Strings.MemcmpSwap | kernel/lib/string.c:128-139 | swapping the areas negates memcmp |
| Strings.Strcmp | kernel/lib/string.c:274-281 | strcmp is 0 exactly when the two strings are equal |
| Strings.StrcmpOrder | kernel/lib/string.c:274-281 | strcmp is negative exactly when the first string sorts first |
| Strings.StrcmpSwap | kernel/lib/string.c:274-281 | swapping the strings negates strcmp |
| Strings.Strncmp | kernel/lib/string.c:291-302 | strncmp is 0 exactly when the first n characters of the strings agree; 0 for n = 0 |
| Strings.StrncmpOrder | kernel/lib/string.c:291-302 | strncmp is negative exactly when the first string's n-prefix sorts first |
| Strings.StrncmpSwap | kernel/lib/string.c:291-302 | swapping the strings negates strncmp |
| Strings.Memchr | kernel/lib/string.c:149-160 | memchr answers the first of the n bytes equal to (unsigned char)c, or NULL when none is |
| Strings.Strchr | kernel/lib/string.c:311-319 | strchr answers the first occurrence of (char)c in the string or its NUL, or NULL |
| Strings.StrchrNul | kernel/lib/string.c:311-319 | strchr(s, 0) finds the terminator |
| Strings.StrchrFinds | kernel/lib/string.c:311-319 | for c other than NUL, strchr finds c exactly when c is in the string |
| Strings.Strrchr | kernel/lib/string.c:328-345 | strrchr answers the last occurrence of (char)c in the string or its NUL, or NULL |
| Strings.Strspn | kernel/lib/string.c:520-529 | strspn is the length of the longest prefix made of characters of accept |
| Strings.Strcspn | kernel/lib/string.c:499-511 | strcspn is the length of the longest prefix free of characters of reject |
| Strings.StrpbrkFinds | kernel/lib/string.c:538-547 | strpbrk finds a character of accept with none before it, and NULL means the string has none |
| Strings.StrpbrkIsStrcspn | kernel/lib/string.c:499-547 | strpbrk stops where strcspn does, and is NULL exactly when that is the NUL |
| Strings.Strstr | kernel/lib/string.c:354-386 | strstr answers the haystack for an empty needle, otherwise the first position where the needle occurs inside the haystack string, or NULL |
| Strings.WriteBytes | kernel/lib/string.c:18-118 | a write puts the bytes at their place and leaves every other byte as it was |
| Strings.Memcpy | kernel/lib/string.c:18-48 | memcpy, by words and then by bytes, leaves dest[0..n) equal to src[0..n), changes nothing else, and returns dest |
| Strings.Memmove | kernel/lib/string.c:58-81 | memmove leaves dest[0..n) equal to the original src[0..n), even when the areas overlap, changes nothing else, and returns dest |
| Strings.CopyWords | kernel/lib/string.c:27-34 | the word loop copies 4 * words bytes from src to dest and changes nothing else |
| Strings.CopyForward | kernel/lib/string.c:74-77 | the forward loop copies correctly whenever dest does not start inside the source |
| Strings.CopyBackward | kernel/lib/string.c:67-72 | the backward loop copies correctly whenever dest starts after src |
| Strings.Memset | kernel/lib/string.c:91-118 | memset writes exactly n copies of (unsigned char)c, changes nothing else, and returns s |
| Strings.Strcpy | kernel/lib/string.c:185-191 | strcpy writes the source string and its NUL at dest and nothing else |
| Strings.WriteCStr | kernel/lib/string.c:185-191 | afterwards dest holds the source string |
| Strings.Strncpy | kernel/lib/string.c:201-216 | strncpy writes exactly n bytes: the first n characters of src, then NULs |
| Strings.PaddedTerminated | kernel/lib/string.c:201-216 | strncpy leaves no terminator exactly when the source has at least n characters |
| Strings.Strcat | kernel/lib/string.c:225-237 | strcat copies the source string and its NUL to the end of the string at dest |
| Strings.StrcatString | kernel/lib/string.c:225-237 | afterwards dest holds the old string followed by the source string |
| Strings.Strncat | kernel/lib/string.c:247-265 | strncat copies at most n characters of src and a NUL to the end of the string at dest |
| Strings.StrncatString | kernel/lib/string.c:247-265 | afterwards dest holds the old string followed by the first n characters of src, always terminated |
| Strings.ConvertMeaning | kernel/lib/string.c:394-424 | after strupr no lower-case letter is left (after strlwr no upper-case one), and every other character is kept |
| Strings.ConvertIdempotent | kernel/lib/string.c:394-424 | converting twice to the same case is converting once |
| Strings.ConvertLast | kernel/lib/string.c:394-424 | strlwr after strupr, or strupr after strlwr, is the second conversion alone |
| Strings.CaseString | kernel/lib/string.c:394-424 | afterwards the string at s is the old string converted, with the same length |
| Strings.Strupr | kernel/lib/string.c:394-405 | strupr rewrites the string at s in place, upper case, and returns s |
| Strings.Strlwr | kernel/lib/string.c:413-424 | strlwr rewrites the string at s in place, lower case, and returns s |
| Strings.Strdup | kernel/lib/string.c:432-441 | strdup returns NULL when kmalloc does, and otherwise the new block holding the string and its NUL |
| Strings.NoToken | kernel/lib/string.c:451-478 | strtok_r finds no token exactly when only delimiters remain; *saveptr is then left at the NUL and memory is unchanged |
| Strings.TokenString | kernel/lib/string.c:451-478 | a token found is the nonempty run of characters up to the first delimiter, NUL-terminated in place |
| Strings.TokenResume | kernel/lib/string.c:451-478 | *saveptr points just past the token, at a strictly shorter rest of the string |
| Strings.StrtokR | kernel/lib/string.c:451-478 | strtok_r's token, *saveptr and memory are those of the token specification, from str or from *saveptr for NULL |
| Strings.Tokenizer.Strtok | kernel/lib/string.c:487-490 | strtok is strtok_r with its own saved position |
| Printf.DigitsValue | kernel/lib/printf.c:143-181 | reading the digits back in the same base gives the value |
| Printf.DigitsShape | kernel/lib/printf.c:143-181 | the digit text is nonempty, made of digits of the base, and begins with '0' only for the value 0 |
| Printf.DigitsFit | kernel/lib/printf.c:143-181 | a 64-bit value has at most 22 digits in base 8 or more, which fits the 32-byte num_buffer |
| Printf.IntToString | kernel/lib/printf.c:143-181 | int_to_string as written: the digits, most significant first and NUL-terminated, but the count returned is half the digit count, rounded up |
| Printf.ShortLength | kernel/lib/printf.c:172-180 | 123 has three digits, and int_to_string reports two |
| Printf.IntToStringFixed | kernel/lib/printf.c:143-181 | corrected int_to_string: the digit count, the digits NUL-terminated, nothing else changed, and the text reads back as the value |
| Printf.ParseSpec | kernel/lib/printf.c:53-132 | parse_flags stops inside the format, past what it consumed |
| Printf.ParseDefaults | kernel/lib/printf.c:53-60 | a specification that starts with its letter gets the defaults (width -1, precision -1, no length) and consumes nothing |
| Printf.ParsedFields | kernel/lib/printf.c:97-131 | width and precision are -2 (`*`), -1 (absent) or a decimal value; the length is h, l, L or none |
| Printf.ParseFlags | kernel/lib/printf.c:53-132 | parse_flags' loops compute exactly the specification ParseSpec reads |
| Printf.ReadFlags | kernel/lib/printf.c:64-97 | the flag loop stops at the first non-flag byte and sets each flag exactly when its character occurs before it |
| Printf.ReadDecimal | kernel/lib/printf.c:102-105 | the digit loop stops at the first non-digit and accumulates the decimal value of the digits |
| Printf.ReadWidth | kernel/lib/printf.c:99-109 | the width block computes WidthField |
| Printf.ReadPrecision | kernel/lib/printf.c:111-124 | the precision block computes PrecisionField |
| Printf.WriteDigits | kernel/lib/printf.c:164-180 | the two loops leave the digits most significant first and NUL-terminated; the upper pointer stops at (n + 1) / 2 - 1 |
| Printf.ReverseInPlace | kernel/lib/printf.c:172-178 | the two-pointer loop reverses the first n bytes and leaves the rest |
| Printf.FormatNumber | kernel/lib/printf.c:279-513 | the numeric cases append the guarded rendering of their padding, prefix and digits |
| Printf.FormatPointer | kernel/lib/printf.c:547-580 | a non-NULL %p appends the guarded rendering of its padding, `0x` and hex digits |
| Printf.StrictPrefix | kernel/lib/printf.c:209-597 | with every store guarded, the output is exactly the part of the full rendering that fits the room left |
| Printf.EmitRoomy | kernel/lib/printf.c:209-597 | when the room covers the rendering, the guard makes no difference |
| Printf.EmitBound | kernel/lib/printf.c:209-597 | the guarded loops never pass the limit; only unguarded stores go beyond it, by at most their own length |
| Printf.SignedValue | kernel/lib/printf.c:281-289 | a %d argument read as long, short or int is a 64-bit signed value |
| Printf.UnsignedValue | kernel/lib/printf.c:349-356 | a %u, %x or %o argument read as unsigned long, unsigned short or unsigned int is below 2^64 |
| Printf.StarsMeaning | kernel/lib/printf.c:218-231 | a negative `*` width becomes `-` with its magnitude, and a negative `*` precision becomes -1 |
| Printf.ReadStars | kernel/lib/printf.c:218-231 | the `*` fields are read from the arguments as Stars says |
| Printf.ConvertSigned | kernel/lib/printf.c:279-346 | %d and %i append the guarded rendering of the sign and decimal digits |
| Printf.ConvertUnsigned | kernel/lib/printf.c:348-513 | %u, %x, %X and %o append the guarded rendering of the digits in base 10, 16 or 8, with the `#` prefix only for a nonzero value |
| Printf.ConvertString | kernel/lib/printf.c:243-277 | %s appends the guarded rendering of the string cut to the precision, or "(null)" |
| Printf.ConvertPointer | kernel/lib/printf.c:515-582 | %p appends "(nil)" for NULL, otherwise 0x and the hex digits |
| Printf.Convert | kernel/lib/printf.c:234-597 | the specifier switch appends what the conversion's pieces render and moves to the next argument |
| Printf.Step | kernel/lib/printf.c:197-597 | every loop iteration consumes at least one format byte |
| Printf.FormatStep | kernel/lib/printf.c:197-597 | the loop body does what Step says |
| Printf.Vsprintf | kernel/lib/printf.c:192-605 | vsprintf_internal writes the formatted bytes, then the terminator at index written, which it returns |
| Printf.Snprintf | kernel/lib/printf.c:616-631 | snprintf writes nothing and returns 0 for a NULL buffer or size 0, and otherwise is vsprintf_internal |
| Printf.PlainCopy | kernel/lib/printf.c:199-205 | a format with no `%` is copied as it stands up to its terminator, cut where the guard stops the loop |
| Printf.FormatBound | kernel/lib/printf.c:197-602 | as written, the returned count is at most max_size + 1, so the terminator never lands past index max_size + 1 |
| Printf.UnguardedOverrun | kernel/lib/printf.c:593-602 | "%y" in a 2-byte buffer stores both bytes and puts the terminator at index 2, outside the buffer |
| Printf.StrictBound | kernel/lib/printf.c:197-602 | with every store guarded, the bytes and the terminator stay inside a max_size-byte buffer |
| Printf.TrailingPercent | kernel/lib/printf.c:197-597 | a `%` at the end of the format takes the terminator as its specifier and the loop reads on past it |
| Printf.StrictUnterminated | kernel/lib/printf.c:197-597 | stopping at the terminator, the loop never reads past the format's end |
| Printf.ZeroPadOverrun | kernel/lib/printf.c:317-330 | as written, `0` padding counts only the digits, so a sign or `#` prefix makes the field wider than the width |
| Printf.ZeroPadExample | kernel/lib/printf.c:317-330 | "%05d" of -42 gives six bytes as written, five when the sign is counted |
| Printf.StrictNumberField | kernel/lib/printf.c:279-346 | with the padding counting the prefix, a number field is exactly as wide as the width asks, or as the prefix and digits if wider |
| Printf.TextField | kernel/lib/printf.c:243-277 | %s and "(nil)" are right-aligned in the width unless `-` left-aligns them |
| Printf.StringTextMeaning | kernel/lib/printf.c:243-277 | the %s text is the string cut to the precision, or "(null)" for NULL |
| BootLogo.SwapReverses | kernel/boot/boot_logo.c:59-64 | byte k of swap32(v) is byte 3-k of v |
| BootLogo.SwapInvolution | kernel/boot/boot_logo.c:59-64 | swap32(swap32(v)) == v |
| BootLogo.ReadU32 | kernel/boot/boot_logo.c:69-71 | read_uint32 is a 32-bit value, read big-endian |
| BootLogo.ReadBigEndian | kernel/boot/boot_logo.c:69-71 | reading back the big-endian encoding of x gives x |
| BootLogo.BigEndianRead | kernel/boot/boot_logo.c:69-71 | encoding a value read big-endian gives the four bytes back |
| BootLogo.CopyInto | kernel/boot/boot_logo.c:156 | the IDAT memcpy makes the first len bytes of the logo buffer the chunk's data and keeps the rest |
| BootLogo.ChunkStep | kernel/boot/boot_logo.c:95-174 | one chunk, exact: a continuing walk moves forward by 12 + length inside the input, and no access leaves a buffer |
| BootLogo.WalkLoaded | kernel/boot/boot_logo.c:95-178 | the walk succeeds only by reaching an IEND after an IHDR that passed every check, with the logo buffer allocated at width*height*4 bytes |
| BootLogo.DecodeLoaded | kernel/boot/boot_logo.c:83-179 | a successful decode had the PNG signature, saw an IEND and leaves a loaded logo |
| BootLogo.DataBeforeHeader | kernel/boot/boot_logo.c:148-164 | an IDAT or IEND before any IHDR makes the decode fail |
| BootLogo.ChunkAgrees | kernel/boot/boot_logo.c:95-174 | a chunk's step reads only its length, type and data |
| BootLogo.CrcIgnored | kernel/boot/boot_logo.c:174 | replacing the CRC bytes of a chunk does not change the outcome |
| BootLogo.OnePixelAccepted | kernel/boot/boot_logo.c:83-179 | a 1x1 RGBA image of an IHDR and an IEND chunk is accepted with an empty 4-byte buffer, and rejected when kmalloc fails |
| BootLogo.OnePixelDataCopied | kernel/boot/boot_logo.c:148-158 | with a 4-byte IDAT chunk between them the image is accepted and the buffer holds exactly the IDAT bytes |
| BootLogo.SpinAsWritten | kernel/boot/boot_logo.c:95-174 | as written, a chunk length of 0xFFFFFFF4 at offset 8 wraps the offset back to 8: the loop never ends |
| BootLogo.IdatOverrunAsWritten | kernel/boot/boot_logo.c:156 | as written, an IDAT longer than the width*height*4 buffer is copied past its end |
| BootLogo.Logo.DecodePng | kernel/boot/boot_logo.c:83-179 | the corrected decode_png loop computes Decode and sets the logo state it describes |
| BootLogo.RowPlaced | kernel/boot/boot_logo.c:184-198 | a centred logo row lies on its own framebuffer line, below the guard |
| BootLogo.RowsApart | kernel/boot/boot_logo.c:184-198 | later logo rows start after earlier ones end |
| BootLogo.CopyRow | kernel/boot/boot_logo.c:189-196 | one row of center_logo: nothing at or past the guard changes, and a centred row shows the logo's pixels |
| BootLogo.CenterLogo | kernel/boot/boot_logo.c:184-198 | center_logo writes only below fb_height*(fb_pitch/4); when the logo fits, every logo pixel is at its centred place and every position outside the logo rows keeps its value |
| BootLogo.KeptOneMore | kernel/boot/boot_logo.c:189-196 | copying one more centred row, which changes only that row's span, keeps every position outside the rows copied so far |
| BootLogo.Mix | kernel/boot/boot_logo.c:262-264 | a blended channel is below 256 and lies between the two channels |
| BootLogo.PackChannels | kernel/boot/boot_logo.c:266 | the channels of a packed colour are the packed values |
| BootLogo.BlendColor | kernel/boot/boot_logo.c:253-267 | blend_color has bits 24-31 clear |
| BootLogo.BlendChannels | kernel/boot/boot_logo.c:253-267 | each channel of the blend is (c1*(255-a) + c2*a)/255 of the two colours' channels |
| BootLogo.BlendEnds | kernel/boot/boot_logo.c:253-267 | alpha 0 gives c1's colour and alpha 255 gives c2's, with bits 24-31 clear |
| Keyboard.LetterTables | kernel/arch/x86_64/keyboard.c:85-102 | the plain and shifted keymaps agree on the letter keys: the shifted table holds the capital of each plain letter, and no table holds a letter of the other case |
| Keyboard.ScancodeSplit | kernel/arch/x86_64/keyboard.c:212-213 | a scancode is its key code (below 128) plus 128 when bit 7 marks a release |
| Keyboard.ModByteFlags | kernel/arch/x86_64/keyboard.c:72-78 | keyboard_modifiers holds only the six KEY_MOD_* bits, each set exactly when its modifier is on, and the byte determines the modifiers |
| Keyboard.HeldKeys | kernel/arch/x86_64/keyboard.c:218-243 | Ctrl, Shift and Alt: a press or-s their bit in, a release and-s it out, no other bit changes, no character, no LED update |
| Keyboard.LockKeys | kernel/arch/x86_64/keyboard.c:245-267 | Caps, Num and Scroll Lock: a press xor-s their bit and updates the LEDs; a release changes nothing |
| Keyboard.OtherKeys | kernel/arch/x86_64/keyboard.c:269-288 | any other key leaves the modifiers alone, and a release yields character 0 |
| Keyboard.LetterCase | kernel/arch/x86_64/keyboard.c:269-287 | a letter key gives the capital exactly when Shift xor Caps Lock, and the same letter either way |
| Keyboard.SymbolKeys | kernel/arch/x86_64/keyboard.c:269-287 | a key that is not a letter maps through the shifted table when Shift is on and the plain one otherwise; Caps Lock does not matter |
| Keyboard.LedBits | kernel/arch/x86_64/keyboard.c:185-199 | the LED byte is 1 for Scroll, 2 for Num and 4 for Caps Lock, taken from bits 5, 4 and 3 of keyboard_modifiers |
| Keyboard.LedByte | kernel/arch/x86_64/keyboard.c:185-199 | the LED byte uses only the three low bits |
| Keyboard.KeyboardState.UpdateLeds | kernel/arch/x86_64/keyboard.c:185-203 | keyboard_update_leds sends the SET_LEDS command and then the LED byte, and changes nothing else |
| Keyboard.KeyboardState.ProcessScancode | kernel/arch/x86_64/keyboard.c:210-294 | keyboard_process_scancode sets the modifiers as Process says, sends the LEDs when a lock key was pressed, and calls the callback with the scancode and character when one is registered |
| Keyboard.KeyboardState.RegularKey | kernel/arch/x86_64/keyboard.c:269-287 | the character of a pressed regular key is the keymap lookup with the Caps Lock case swap |
| Keyboard.KeyboardState.Deliver | kernel/arch/x86_64/keyboard.c:290-293 | the callback is called once when registered, and not otherwise |
| Keyboard.KeyboardState.RegisterCallback | kernel/arch/x86_64/keyboard.c:363-367 | keyboard_register_callback returns the previous callback and installs the new one |
| Keyboard.KeyboardState.IsModifierActive | kernel/arch/x86_64/keyboard.c:375-377 | keyboard_is_modifier_active(m) is true exactly when modifier m is on |
| Keyboard.KeyboardState.GetModifiers | kernel/arch/x86_64/keyboard.c:384-386 | keyboard_get_modifiers holds only KEY_MOD_* bits |
| Vga.EntryColorSplit | kernel/arch/x86_64/vga.c:81-83 | vga_entry_color(fg, bg) keeps fg in the low nibble and bg in the high one, so both read back |
| Vga.EntrySplit | kernel/arch/x86_64/vga.c:92-94 | vga_entry(c, color) keeps the character in the low byte and the attribute in the high byte |
| Vga.BlankScreen | kernel/arch/x86_64/vga.c:115-119 | the text-mode clear leaves all 2000 cells blank in the current colour |
| Vga.Scrolled | kernel/arch/x86_64/vga.c:166-178 | vga_scroll keeps the 2000-cell buffer size |
| Vga.ScrolledRows | kernel/arch/x86_64/vga.c:166-178 | after vga_scroll row y holds the old row y+1 for y < 24, and row 24 is blank in the current colour |
| Vga.NextRowOn | kernel/arch/x86_64/vga.c:189-194 | moving to the next row keeps the cursor on the screen, scrolling at the bottom |
| Vga.PutCharOn | kernel/arch/x86_64/vga.c:185-226 | vga_putchar keeps 0 <= row < 25 and 0 <= col < 80 and the colour |
| Vga.PrintableBeforeCursor | kernel/arch/x86_64/vga.c:210-222 | a printable character lands in the cell just before the new cursor, after any wrap or scroll; without a scroll no other cell changes, and with one the screen is the scrolled screen holding the character in its last cell |
| Vga.NewlineMoves | kernel/arch/x86_64/vga.c:187-195 | '\n' goes to column 0 of the next row, and on row 24 scrolls and stays on row 24 |
| Vga.ReturnAndBackspace | kernel/arch/x86_64/vga.c:196-208 | '\r' only resets the column; '\b' at column 0 changes nothing |
| Vga.PrintThenBackspace | kernel/arch/x86_64/vga.c:201-220 | a printable character that does not end the line followed by '\b' restores the cursor and leaves that cell blank |
| Vga.CursorWrites | kernel/arch/x86_64/vga.c:133-151 | vga_set_cursor makes four port writes |
| Vga.CursorBytes | kernel/arch/x86_64/vga.c:141-150 | the low byte goes to CRTC register 0x0F and the high byte to 0x0E, and together they are row*80+col |
| Vga.PixelBytes | kernel/arch/x86_64/vga.c:280-304 | a pixel store writes bpp/8 bytes for bpp 8, 16, 24 or 32 and nothing for any other depth |
| Vga.PixelLittleEndian | kernel/arch/x86_64/vga.c:280-304 | the bytes written are the low bpp bits of the colour, lowest byte first |
| Vga.StoreEffect | kernel/arch/x86_64/vga.c:280-304 | a store changes exactly the bytes it writes |
| Vga.SetPixelEffect | kernel/arch/x86_64/vga.c:274-305 | vga_set_pixel changes nothing outside graphics mode, without a framebuffer or off the screen; otherwise exactly the bpp/8 bytes at y*pitch + x*bpp/8 (a 32-bit offset) change, and they hold the colour |
| Vga.HLineOffScreen | kernel/arch/x86_64/vga.c:315-325 | a horizontal line below the screen or outside graphics mode draws nothing |
| Vga.HLineRightOfScreen | kernel/arch/x86_64/vga.c:315-325 | a horizontal line that starts right of the screen draws nothing |
| Vga.VLineOffScreen | kernel/arch/x86_64/vga.c:335-345 | a vertical line right of the screen or outside graphics mode draws nothing |
| Vga.LineEndWrapsAsWritten | kernel/arch/x86_64/vga.c:321 | with the end point 0xFFFFFFFF the 32-bit loop counter wraps to 0 and the loop condition never fails |
| Vga.Cleared | kernel/arch/x86_64/vga.c:112 | the framebuffer memset zeroes the first n bytes and changes no other byte |
| Vga.Display.SetColor | kernel/arch/x86_64/vga.c:159-161 | vga_set_color sets the colour to vga_entry_color(fg, bg) and nothing else |
| Vga.Display.SetCursor | kernel/arch/x86_64/vga.c:133-151 | vga_set_cursor ignores a position off the screen; otherwise it sets row and column and writes the cursor registers |
| Vga.Display.Scroll | kernel/arch/x86_64/vga.c:166-178 | the cell loops of vga_scroll produce Scrolled of the old cells |
| Vga.Display.PutChar | kernel/arch/x86_64/vga.c:185-226 | vga_putchar changes the text state as PutCharOn says and writes the cursor registers after a printable character |
| Vga.Display.Print | kernel/arch/x86_64/vga.c:210-225 | the printable case: store, advance, wrap, scroll, move the hardware cursor |
| Vga.Display.NextRow | kernel/arch/x86_64/vga.c:189-194 | `vga_row++` with the scroll at the bottom, as NextRowOn says |
| Vga.Display.ClearScreen | kernel/arch/x86_64/vga.c:109-125 | vga_clear_screen zeroes fb_height*fb_pitch bytes (32-bit product) in graphics mode with a framebuffer, else blanks all 2000 cells; either way the cursor goes to 0,0 |
| Vga.Display.SetPixel | kernel/arch/x86_64/vga.c:274-305 | vga_set_pixel changes the framebuffer memory as SetPixelOn says and nothing else |
| Vga.Display.DrawHLine | kernel/arch/x86_64/vga.c:315-325 | vga_draw_hline swaps reversed end points and sets every pixel from the smaller x to the larger |
| Vga.Display.DrawVLine | kernel/arch/x86_64/vga.c:335-345 | vga_draw_vline swaps reversed end points and sets every pixel from the smaller y to the larger |
| KernelConsole.FieldShape | kernel/kernel.c:166-196 | itoa stores max(len, width) bytes: the pad bytes, then the len digits of the number in the base (zero is "0") |
| KernelConsole.ReversedField | kernel/kernel.c:171-193 | reversing tmp (digits least significant first, then padding) gives the field, and tmp holds as many digits as the number has |
| KernelConsole.LowDigitLoop | kernel/kernel.c:171-180 | the first loop of itoa fills tmp with the digits, least significant first, or "0" for zero |
| KernelConsole.PadLoop | kernel/kernel.c:185-188 | the second loop appends the pad character until tmp holds the width |
| KernelConsole.ReverseLoop | kernel/kernel.c:190-193 | the last loop stores tmp from its end |
| KernelConsole.Itoa | kernel/kernel.c:166-196 | itoa stores the field and returns the digit count, not the count of bytes stored |
| KernelConsole.ParseConv | kernel/kernel.c:218-232 | the `0` flag and the width digits are read after the `%`, and the letter lies past the `%` and within the format |
| KernelConsole.SignedConv | kernel/kernel.c:235-243 | `%d` takes one argument; as written the index moves by the sign and the digit count only, so never past what was stored |
| KernelConsole.UnsignedConv | kernel/kernel.c:245-257 | `%u`, `%x` and `%p` take one argument; as written the index moves past the prefix and the digit count only |
| KernelConsole.Render | kernel/kernel.c:234-275 | the switch on the letter never moves the index past what it stored |
| KernelConsole.Conversion | kernel/kernel.c:217-275 | a conversion ends past its `%` and within the format |
| KernelConsole.Put | kernel/kernel.c:213 | a store at index i overwrites from i and extends the buffer only past its end |
| KernelConsole.Walk | kernel/kernel.c:211-276 | the index of kprintf's loop never passes the bytes stored, and the buffer never shrinks |
| KernelConsole.WalkAppends | kernel/kernel.c:211-281 | with the index moved by all it stored, every store appends and the terminator follows the last byte |
| KernelConsole.ConversionAppends | kernel/kernel.c:217-275 | the same at a `%`: the whole conversion is appended |
| KernelConsole.LiteralFormat | kernel/kernel.c:211-215 | bytes other than `%` are copied as they are |
| KernelConsole.LiteralOutput | kernel/kernel.c:204-286 | kprintf of a format without `%` prints exactly the format |
| KernelConsole.StringOutput | kernel/kernel.c:263-270 | `%s` copies the whole string, or "(null)" for NULL |
| KernelConsole.UnknownLetter | kernel/kernel.c:272-274 | a letter that is not a conversion is stored itself and takes no argument |
| KernelConsole.UnsignedAdvanceAsWritten | kernel/kernel.c:246-256 | as written the numeric field is stored whole, but the index falls short of its end exactly when the width pads it |
| KernelConsole.SignedAdvanceAsWritten | kernel/kernel.c:235-243 | the same for `%d`, for every argument but INT_MIN |
| KernelConsole.OtherAdvance | kernel/kernel.c:259-274 | `%c`, `%s` and other letters move the index past all they store, as written and corrected alike |
| KernelConsole.ParseFiveD | kernel/kernel.c:221-232 | "%5d" parses as pad ' ', width 5, letter at index 2 |
| KernelConsole.ConvFiveD | kernel/kernel.c:235-243 | "%5d" of 42 stores "   42"; as written the index moves by 2, corrected by 5 |
| KernelConsole.PaddedFieldAsWritten | kernel/kernel.c:241-281 | kprintf("%5d", 42) prints two spaces as written, and "   42" corrected |
| KernelConsole.IntMinAsWritten | kernel/kernel.c:237-241 | kprintf("%d", INT_MIN): as written `-val` overflows and itoa gets 2^64 - 2^31; corrected it prints 2^31 after the sign |
| KernelConsole.UnsignedConversion | kernel/kernel.c:245-257 | the corrected `%u`, `%x`, `%p`: the prefix, the pad character up to the width, then the digits of the number |
| KernelConsole.PrefixedField | kernel/kernel.c:253-256 | a prefix before a padded field keeps the pad bytes and the digits |
| KernelConsole.SignedConversion | kernel/kernel.c:235-243 | the corrected `%d` stores `-` exactly for a negative argument and ends in the digits of its magnitude |
| KernelConsole.EarlyColorNibbles | kernel/kernel.c:130-132 | the early vga_set_color keeps the low nibble of fg and bg's nibble above it, and nothing else |
| KernelConsole.EarlyColorAgrees | kernel/kernel.c:130-132 | for fg below 16 it agrees with the driver's vga_entry_color; above that the driver's fg spills into the background and the early one cuts it |
| KernelConsole.SignExtensionAsWritten | kernel/kernel.c:86 | as written a byte from 0x80 on is sign-extended and its cell gets attribute 0xFF whatever the colour (0xE9 gives 0xFFE9, not 0x07E9) |
| KernelConsole.PutCharEarly | kernel/kernel.c:60-96 | the early vga_putchar, storing the corrected cell Entry(c, colour), keeps the cursor on the screen and the colour |
| KernelConsole.EarlyPrint | kernel/kernel.c:86-95 | any byte but '\n' and '\r' is stored in the cursor's cell as the corrected cell Entry(c, colour), without the sign extension of bytes from 0x80; only that cell changes, and the cursor moves on, from the last cell back to the first |
| KernelConsole.CellsOnMod | kernel/kernel.c:86-95 | moving n cells on is adding n modulo 2000 |
| KernelConsole.EarlyAgreesWithDriver | kernel/kernel.c:60-96 | with the corrected cell store, the early console agrees with the driver's vga_putchar except at '\b' (which it prints) and at the last cell (where it wraps to the top instead of scrolling); as written the two also differ for bytes from 0x80 |
| KernelConsole.PutsEarly | kernel/kernel.c:139-143 | vga_puts keeps the cursor on the screen and the colour |
| KernelConsole.PutsAdvance | kernel/kernel.c:139-143 | a string without '\n' and '\r' moves the cursor by its length, round the screen |
| KernelConsole.PutsCellsOn | kernel/kernel.c:139-143 | the cursor after such a string is CellsOn of the old one by its length |
| KernelConsole.PutsLastByte | kernel/kernel.c:139-143 | the last byte of such a string sits just before the new cursor |
| KernelConsole.EarlyConsole.constructor | kernel/kernel.c:46-49 | the statics start light grey on black with the cursor at the top left |
| KernelConsole.EarlyConsole.SetColor | kernel/kernel.c:130-132 | vga_set_color sets the colour to EarlyColor(fg, bg) and nothing else |
| KernelConsole.EarlyConsole.Clear | kernel/kernel.c:114-122 | vga_clear blanks all 2000 cells in the console colour and homes the cursor |
| KernelConsole.EarlyConsole.PutChar | kernel/kernel.c:60-96 | the early vga_putchar changes the text state as PutCharEarly says, storing the corrected cell |
| KernelConsole.EarlyConsole.Scroll | kernel/kernel.c:64-76 | the scroll loops produce Scrolled of the old cells |
| KernelConsole.EarlyConsole.VgaPuts | kernel/kernel.c:139-143 | vga_puts puts the bytes up to the NUL, as PutsEarly says |
| KernelConsole.EarlyConsole.SerialPuts | kernel/kernel.c:150-154 | serial_puts sends the bytes up to the NUL to COM1 |
| KernelConsole.EarlyConsole.Kprintf | kernel/kernel.c:204-286 | kprintf, with the index corrected, prints the formatted output on the screen and on COM1 |
| KernelConsole.Format | kernel/kernel.c:211-281 | the corrected loop of kprintf builds a buffer whose string is Output of the format |
| KernelConsole.FormatStep | kernel/kernel.c:211-276 | one turn of the loop moves forward within the format and keeps what the rest of the walk yields |
| KernelConsole.Convert | kernel/kernel.c:217-275 | one conversion stores what Conversion says |
| KernelConsole.RenderConv | kernel/kernel.c:234-275 | the switch stores what Render says, by appending |
| KernelConsole.SignedText | kernel/kernel.c:235-243 | the `%d` case stores what the corrected SignedConv says |
| KernelConsole.UnsignedText | kernel/kernel.c:245-257 | the `%u`, `%x`, `%p` cases store what the corrected UnsignedConv says |
| Gdt.DescriptorFields | kernel/arch/x86_64/gdt.c:90-105 | the corrected descriptor packing: limit, base, access byte and flags nibble each read back from the packed descriptor |
| Gdt.DescriptorTruncates | kernel/arch/x86_64/gdt.c:95-101 | only the low 20 limit bits and the low 32 base bits are kept |
| Gdt.KernelCodeAsWritten | kernel/arch/x86_64/gdt.c:99-160 | as written the kernel code descriptor is 0x0A009A00000FFFFF: the L and G flags land in base bits 25 and 27, the high limit nibble in base bits 0-3, and the flags nibble reads 0; packed correctly it is 0x00AF9A000000FFFF |
| Gdt.DescriptorAgrees | kernel/arch/x86_64/gdt.c:90-105 | as written and corrected agree when the limit fits 16 bits and gran is 0 (the null and TSS descriptors) |
| Gdt.SystemBase | kernel/arch/x86_64/gdt.c:116-126 | gdt_set_system's two slots hold the whole 64-bit base; as written, this holds while gran < 0x10 and the limit fits 16 bits |
| Gdt.TssSlotAsWritten | kernel/arch/x86_64/gdt.c:67-145 | the TSS descriptor at slots 5 and 6 does not fit GDT_ENTRIES = 6 and fits 7 |
| Gdt.ZeroTss | kernel/arch/x86_64/gdt.c:136 | the cleared TSS has seven zero IST slots |
| Gdt.InitialTable | kernel/arch/x86_64/gdt.c:156-172 | gdt_init fills every slot of the table with what gdt_set_gate packs |
| Gdt.InitialLayout | kernel/arch/x86_64/gdt.c:90-105 | the table as written: null descriptor 0; kernel code 0x0A009A00000FFFFF and data 0x08009200000FFFFF, with bases 0x0A00000F and 0x0800000F, limit 0xFFFF and flags 0, so code is not a long-mode segment; the user segments differ from them only by DPL 3; the TSS descriptor covers the TSS at its address |
| Gdt.FixedLayout | kernel/arch/x86_64/gdt.c:156-172 | with the SDM packing, kernel code and data are flat (base 0, limit 0xFFFFF, G set), code with L; the user segments differ only by DPL 3; the TSS descriptor covers the TSS |
| Gdt.TablesDiffer | kernel/arch/x86_64/gdt.c:90-105 | the as-written and corrected tables agree on the null and TSS slots and differ in all four segment descriptors |
| Gdt.GdtState.SetGate | kernel/arch/x86_64/gdt.c:90-105 | gdt_set_gate sets slot num to the value it packs (as written) and no other slot |
| Gdt.GdtState.SetSystem | kernel/arch/x86_64/gdt.c:116-126 | gdt_set_system sets slot num to the as-written packing and slot num+1 to base bits 32-63 |
| Gdt.GdtState.TssInit | kernel/arch/x86_64/gdt.c:131-146 | tss_init clears the TSS, sets rsp0 to the stack top and iomap_base to sizeof(tss), and installs the TSS descriptor at 5 and 6 |
| Gdt.GdtState.Init | kernel/arch/x86_64/gdt.c:151-181 | gdt_init sets the pointer's limit to 8*entries-1 and its base, and builds the as-written InitialTable and the TSS |
| Gdt.GdtState.SetKernelStack | kernel/arch/x86_64/gdt.c:188-190 | gdt_set_kernel_stack changes only rsp0 |
| Idt.TableLimitCovers | kernel/arch/x86_64/idt.c:187 | the IDT pointer's limit plus one is 256 gates of 16 bytes |
| Idt.GateFields | kernel/arch/x86_64/idt.c:98-107 | idt_set_gate splits the handler address into three parts that give it back, keeps selector and flags, keeps the low three IST bits, and zeroes the reserved field |
| Idt.InitialGates | kernel/arch/x86_64/idt.c:190-246 | idt_init leaves 256 gates |
| Idt.InitialLayout | kernel/arch/x86_64/idt.c:190-246 | after idt_init vectors 0-47 are present interrupt gates (0x8E) to their stubs through selector 0x08, IST 0; every other vector is an all-zero gate |
| Idt.Dispatch | kernel/arch/x86_64/idt.c:125-180 | handle_interrupt calls the registered handler exactly when there is one; otherwise it panics for a vector below 32 and logs the others |
| Idt.RegisterThenDispatch | kernel/arch/x86_64/idt.c:115-130 | registering a handler makes its vector call it and changes no other vector's outcome |
| Idt.UnhandledVectors | kernel/arch/x86_64/idt.c:133-179 | with no handler, vector 14 panics as "Page Fault", 13 as "General Protection Fault", and 32 is logged |
| Idt.IdtState.SetGate | kernel/arch/x86_64/idt.c:98-107 | idt_set_gate sets gate num and no other |
| Idt.IdtState.RegisterHandler | kernel/arch/x86_64/idt.c:115-117 | register_interrupt_handler changes only interrupt_handlers[num] |
| Idt.IdtState.HandleInterrupt | kernel/arch/x86_64/idt.c:125-180 | handle_interrupt takes the action Dispatch says |
| Idt.IdtState.Init | kernel/arch/x86_64/idt.c:185-252 | idt_init sets the pointer's limit and base, clears every handler and leaves the gates of InitialGates |
| Idt.IdtState.ClearTables | kernel/arch/x86_64/idt.c:190-194 | the clearing loop zeroes all 256 gates and handlers |
| Idt.IdtState.SetStubGates | kernel/arch/x86_64/idt.c:196-246 | the 48 stub gates, in vector order, turn the cleared table into InitialGates |
| Timer.ClampPit | kernel/arch/x86_64/timer.c:80-85 | pit_set_frequency's clamp lands in [19, 1193182] and leaves a rate inside unchanged |
| Timer.DivisorRange | kernel/arch/x86_64/timer.c:80-88 | the divisor is between 1 and 62799, so the uint16_t store keeps it, and it is the largest count whose rate does not exceed the request: d*f <= 1193182 < (d+1)*f |
| Timer.CommandFields | kernel/arch/x86_64/timer.c:91-108 | the command byte holds the channel in bits 7-6, access mode 3 (low then high) in bits 5-4 and the mode in bits 3-0 |
| Timer.PitProgram | kernel/arch/x86_64/timer.c:93-105 | pit_set_frequency writes nothing exactly when the channel is above 2 |
| Timer.PitProgramSends | kernel/arch/x86_64/timer.c:108-127 | on channel 0-2 the command goes to port 0x43, then the divisor's low and high bytes to the channel's port, and the bytes give the divisor back |
| Timer.ClampTick | kernel/arch/x86_64/timer.c:241-245 | timer_init's clamp lands in [19, 1000] and leaves a rate inside unchanged |
| Timer.TickDivisor | kernel/arch/x86_64/timer.c:241-250 | at a rate timer_init keeps, the divisor lies in [1193, 62799] |
| Timer.MillisBound | kernel/arch/x86_64/timer.c:173 | below the 64-bit wrap timer_ms never runs ahead of ticks*1000/f, and is exact when f divides 1000 |
| Timer.MillisAt300 | kernel/arch/x86_64/timer.c:173 | at 300 Hz the step is 3 ms, so 300 ticks read 900 ms instead of 1000 |
| Timer.WaitTicksSpan | kernel/arch/x86_64/timer.c:219-223 | the intended wait is at least one tick and is the whole number of ticks in ms milliseconds |
| Timer.WaitTicksAgree | kernel/arch/x86_64/timer.c:220 | while ms*f fits in 32 bits the as-written count is the intended one |
| Timer.WaitOverflowAsWritten | kernel/arch/x86_64/timer.c:220 | timer_wait_ms(5000000) at 1000 Hz: 5000000 ticks are meant and 705032 are waited, because ms*timer_frequency is a 32-bit product |
| Timer.PitTimer.constructor | kernel/arch/x86_64/timer.c:61-69 | the statics start at zero with no callback |
| Timer.PitTimer.SetFrequency | kernel/arch/x86_64/timer.c:79-128 | pit_set_frequency makes the port writes PitProgram says and changes nothing else |
| Timer.PitTimer.Handler | kernel/arch/x86_64/timer.c:168-182 | timer_handler adds one tick (mod 2^64), recomputes timer_ms from it, and runs the callback when one is set |
| Timer.PitTimer.RegisterCallback | kernel/arch/x86_64/timer.c:230-232 | timer_register_callback sets the callback and nothing else |
| Timer.PitTimer.Init | kernel/arch/x86_64/timer.c:239-259 | timer_init keeps the clamped rate, programs channel 0 in square-wave mode and registers the handler on vector 32 |
| Timer.PitTimer.SleepInit | kernel/arch/x86_64/timer.c:264-267 | sleep_timer_init programs channel 1 at 100 Hz in one-shot mode |
| Serial.PortAddress | kernel/arch/x86_64/serial.c:453-461 | serial_get_port_address answers a non-zero address exactly for COM1-COM4 |
| Serial.ComNumber | kernel/arch/x86_64/serial.c:469-477 | serial_get_com_number answers 0-4 |
| Serial.ComTables | kernel/arch/x86_64/serial.c:453-477 | the two tables are inverse on COM1-COM4 and their four base addresses, and every other address is answered with 0 |
| Serial.DivisorRange | kernel/arch/x86_64/serial.c:130-133 | from 2 baud up the divisor fits 16 bits and is the largest whose rate is at least the one asked for; it is 0 exactly above 115200 baud; at 1 baud the uint16_t return cuts 115200 to 49664 |
| Serial.LineConfig | kernel/arch/x86_64/serial.c:402-427 | serial_configure accepts exactly 5-8 data bits, 1-2 stop bits and parity 0-2 |
| Serial.LineConfigDecodes | kernel/arch/x86_64/serial.c:402-427 | every accepted setting is encoded so that it reads back unchanged |
| Serial.DecodeLineEncodes | kernel/arch/x86_64/serial.c:402-427 | every encodable line byte is the encoding of the settings it reads as |
| Serial.InitLineIs8N1 | kernel/arch/x86_64/serial.c:176-427 | serial_init's line byte 0x03 is what serial_configure makes of 8 data bits, 1 stop bit and no parity |
| Serial.ExpandAppend | kernel/arch/x86_64/serial.c:278-287 | the LF translation of a concatenation is the concatenation of the translations |
| Serial.ExpandHead | kernel/arch/x86_64/serial.c:278-287 | the translated output never starts with a bare LF |
| Serial.UnexpandExpand | kernel/arch/x86_64/serial.c:278-287 | taking the inserted CRs out gives the string back, so nothing is lost |
| Serial.ExpandShape | kernel/arch/x86_64/serial.c:278-287 | the output has one extra byte per LF, and every LF has a CR right before it |
| Serial.CrLfDoubled | kernel/arch/x86_64/serial.c:278-287 | a string that already holds CR LF goes out as CR CR LF |
| Serial.Sent | kernel/arch/x86_64/serial.c:260 | one data-register write per byte |
| Serial.SentAppend | kernel/arch/x86_64/serial.c:260 | the writes of a concatenation are the concatenation of the writes |
| Serial.SerialState.constructor | kernel/arch/x86_64/serial.c:82-87 | com_ports starts with COM1-COM4 at their base addresses, none initialised |
| Serial.SerialState.IsInitialized | kernel/arch/x86_64/serial.c:219-221 | serial_is_initialized is false for NULL |
| Serial.SerialState.Find | kernel/arch/x86_64/serial.c:144-150 | serial_init's lookup finds the entry exactly for the four COM addresses, at index com-1 |
| Serial.SerialState.Init | kernel/arch/x86_64/serial.c:142-191 | serial_init returns a port exactly for a COM address whose UART the probe finds; an initialised port comes back untouched; otherwise it is programmed, with the divisor and 8N1, and marked initialised |
| Serial.SerialState.Configure | kernel/arch/x86_64/serial.c:390-445 | serial_configure returns false and writes nothing for a port that is not initialised or settings out of range; otherwise it writes the divisor and the line byte and changes only baud_rate and line_config |
| Serial.SerialState.WriteChar | kernel/arch/x86_64/serial.c:250-264 | serial_write_char sends the byte exactly when the port is initialised |
| Serial.SerialState.WriteStr | kernel/arch/x86_64/serial.c:273-290 | serial_write_str sends nothing for a port that is not initialised, else the string with a CR before each LF |
| Serial.SerialState.WriteTranslated | kernel/arch/x86_64/serial.c:278-287 | one turn of the loop sends a CR first when the byte is LF, then the byte |
| Serial.SerialState.ReadChar | kernel/arch/x86_64/serial.c:298-310 | serial_read_char is -1 exactly when the port is not initialised or has no data, else the received byte |

## Left out

- Port I/O, busy-waits and the probes are not modelled as hardware. `outb` becomes a trace of writes and `inb` a parameter. This covers the UART transmitter wait, the keyboard controller handshakes, `serial_port_exists` and `serial_test` (whose answer is the parameter `present` of `Serial.SerialState.Init`), and `pit_get_count`.
- Inline assembly and CPU state are out of scope: CR3 reloads, `invlpg` (TLB invalidation), `cli`/`sti`/`hlt`, `idt_flush`, `gdt_flush` and `tss_flush`.
- `panic` is an outcome value (`Idt.Action.Panic`, `Heap.FreeOutcome`). Halting, the formatted panic text and the backtrace are not modelled.
- Interrupt re-entry and concurrency are not modelled: handlers changing `timer_ticks` or `keyboard_modifiers` asynchronously, and `timer_wait_ticks` spinning on the tick counter. `timer_wait_ms` is modelled by the tick count it waits for (`Timer.WaitTicksAsWritten`).
- A registered callback is named by its address and its call is a trace entry. What the callback does is not modelled. This applies to the keyboard, timer and interrupt handlers.
- Boot sequencing is not modelled: `kernel_main`, `keyboard_init`, `serial_init_all`, `vga_init` and `vga_init_text_mode`. Nor are `pic_*` and `pic_send_eoi`, the log lines from `timer_init`, `gdt_init`, `idt_init` and `vga_setup_framebuffer`, or the fan-out of kernel/lib/printf.c's `kprintf` to its consoles.
- These accessors only return or set a static, so they are not modelled: `timer_get_ticks`, `timer_get_ms`, `mm_get_total_pages` (the field `totalPages`) and `kprintf_set_mode`. `serial_printf` is not modelled either; it is vsnprintf into a local buffer followed by `serial_write_str`.
- `pc_speaker_set_frequency` and `pc_speaker_beep` are not modelled: port writes and a busy wait.
- memory.c's stubs are not modelled: `vm_map_page`, `vm_unmap_page` and `map_kernel_memory`.
- `vga_puts`, `vga_draw_rect` and `vga_setup_framebuffer` of the VGA driver are not modelled. They are loops over `vga_putchar` and `vga_draw_hline`, and a store of the framebuffer fields followed by the memset that `Vga.Display.ClearScreen` models.
- Vga: the text cells are an `array<bv16>`. The framebuffer is a map from byte offset to byte, so a pixel store of 16 or 32 bits is its little-endian bytes.
- Vga.Display.DrawHLine and Vga.Display.DrawVLine count with unbounded integers. They therefore end for the end point 0xFFFFFFFF, where the C's 32-bit counter never does (`Vga.LineEndWrapsAsWritten`).
- `boot_logo_init`, `boot_logo_show`, `boot_logo_fade_in`, `boot_logo_fade_out` and `boot_logo_cleanup` are not modelled: framebuffer fades with busy-wait delays and buffer swaps. Whether kmalloc can satisfy the logo buffer is the parameter `room` of `BootLogo.Logo.DecodePng`.
- `kzalloc` is not modelled; it is kmalloc followed by memset.
- Heap: the header links `next` and `prev` are the order of the block sequence. Block contents are not modelled, so krealloc's copy of `current_size` bytes into the new block is not part of `Heap.HeapState.Krealloc`.
- Heap.HeapState.Kmalloc, Heap.HeapState.Krealloc and Heap.HeapState.GrowBlock require the request to be at most 2^64 - 40, so that `size + header` rounded up to 8 does not wrap. The C wraps there.
- Heap.HeapState.KmallocAligned requires `align > 0` and `size + align` at most 2^64 - 40. Align 0 is shown separately (`Heap.ZeroAlignPasses`).
- Heap.HeapState.Kfree requires the pointer to be NULL, outside the heap, or the data pointer of a block. kfree on any other address inside the heap reads a header that is not one, and the model does not follow that.
- Heap.HeapState.Krealloc requires the pointer to be NULL or live. krealloc does not check it.
- Heap.HeapState.Init requires the size to hold at least one header. The as-written overrun is shown by `Heap.InitRunsPast`, and `Heap.HeapState.InitWithin` has no such requirement.
- Heap.HeapState.Init also requires `AlignUp(start, 4096) + size + 32` to be at most 2^64, so that the arena's end address does not wrap. heap_init does not check this.
- Heap.HeapState.InitWithin has the same no-wrap requirement as `Heap.HeapState.Init`.
- Memory: the bitmap words are a flat array of flags, 64 per word. `used_pages` and the page arithmetic are unbounded, with `size_t` wrap-around written out where the source's counter can wrap.
- Memory.FrameAllocator.Init (mm_init as written) requires that the frames it marks lie inside the bitmap. The source writes past the bitmap otherwise (`Memory.ZeroMemoryInitOverflows`), and `Memory.FrameAllocator.InitChecked` has no such requirement.
- Paging: the page tables are a value, a map from table frame to its 512 entries, threaded through the methods. Aliasing of a table reached twice, and update in place through the recursive windows, are not captured.
- Paging: `alloc_physical_page` draws from a set of free frames, with 0 for failure. The frame allocator's own bitmap is not linked to it.
- Paging.PresentAt walks each address's own tables, as the corrected windows do. paging.c reaches the PDP, PD and PT entries through the windows `(virt >> 39) & 0xFF8`, `(virt >> 30) & 0x3FFFF8` and `(virt >> 21) & 0x7FFFFFF8`, which treat the indices as byte offsets (kernel/mm/paging.c:127, 144, 161, 314-337). The as-written probe is `Paging.Probe` over `Paging.Load`. It agrees below 2 MiB (`Paging.LowAddressesAgree`) and differs at 0x200000 (`Paging.TwoMiBAsWritten`).
- Paging.IsPageMapped reads the entry of each address's own page table. is_page_mapped as written is `Paging.IsPageMappedAsWritten`; for 0x200000 it reads page 0's entry (`Paging.TwoMiBAsWritten`).
- Paging.VirtualToPhysical reads the entry of each address's own page table. virtual_to_physical as written is `Paging.VirtualToPhysicalAsWritten`, which agrees below 2 MiB (`Paging.LowAddressesAgree`) and reads page 0's entry for 0x200000.
- Paging.ClearTable clears the newly allocated table. As written, the clearing loop writes through the window, so for 0x200000 it clears page 0's page table (`Paging.TwoMiBWindow`) and leaves the new table uncleared.
- Paging.InstallTable links and clears the new frame. As written, the clearing goes through the window, as for `Paging.ClearTable`.
- Paging.EnsureTable finds or creates the table below the slot of the address's own walk. As written, the PDP and PD entries are found through the windows.
- Paging.EnsureWalk builds the walk of the address's own tables. As written, each level's entry is found, and each new table cleared, through the windows.
- Paging.EnsureBelow builds the PD and PT below the address's own PDP table. As written, they are reached through the windows.
- Paging.MapPageInternal stores the leaf entry in the address's own page table. As written, map_page(p, 0x200000) reaches entry 0 of page 0's page table (`Paging.TwoMiBWindow`). When PD slot 1 is absent, it clears that table and writes p into its entry 0. The as-written method is not modelled.
- Paging.MapUnmapped is the unmapped path of `Paging.MapPageInternal` and walks the corrected windows likewise.
- Paging.MapPage is built on `Paging.MapPageInternal` and walks the corrected windows likewise.
- Paging.UnmapPage clears the entry of the address's own page table. unmap_page as written is `Paging.UnmapPageAsWritten`; for 0x200000 it clears page 0's entry and leaves 0x200000 mapped (`Paging.TwoMiBAsWritten`, `Paging.TwoMiBUnmapEffect`).
- Paging.UnmapDown is built on `Paging.UnmapPage` and walks the corrected windows.
- Paging.UnmapPages is built on `Paging.UnmapPage` and walks the corrected windows.
- Paging.UnmapNext is stated for `Paging.UnmapPage` and walks the corrected windows.
- Paging.MapNext is built on `Paging.MapPage` and walks the corrected windows.
- Paging.MapPages is built on `Paging.MapPage` and walks the corrected windows. Its "as written" covers the rollback only.
- Paging.MapStepAsWritten is built on `Paging.MapPage` and walks the corrected windows. Its "as written" covers the rollback only.
- Paging.MapPage and Paging.UnmapPage require the virtual address outside PML4 slot 510, the recursive slot. There a leaf write lands in an upper-level table, which the source does not prevent.
- Paging.MapPages and Paging.MapPagesFixed require the run's pages to lie outside slot 510 and to be distinct. The source does not demand this. A run of more than 2^36 pages wraps and overwrites itself.
- Strings: memory is one byte array and pointers are indices into it. The `requires` of each function are the C library's conditions for defined behaviour: the buffers are large enough, a NUL lies within reach, and the operands of every copying function except `memmove` do not overlap.
- Strings: `strdup`'s allocation is the parameter `p`, with 0 for NULL.
- Printf: `%n` consumes its argument, but the store of `written` through the pointer is not modelled. Floating-point conversions are not in the source.
- Printf: arguments are integers or optional strings, and a missing or mismatched argument reads as 0 or NULL. C's `va_arg` has undefined behaviour there.
- KernelConsole: `buf[1024]` and `tmp[64]` have no bound in the model. An overlong kprintf output or width writes past them in the C (`KernelConsole.StringOutput`).
- KernelConsole.PutCharEarly stores the corrected cell `Entry(c, colour)`. kernel.c:86 or-s the colour with a signed char, so a byte from 0x80 on gets attribute 0xFF (`KernelConsole.SignExtensionAsWritten`). `KernelConsole.EarlyPrint`, `KernelConsole.EarlyAgreesWithDriver` and `KernelConsole.EarlyConsole.PutChar` inherit this.
- KernelConsole.EarlyPrint states the corrected cell of `KernelConsole.PutCharEarly`, not the sign-extended one.
- KernelConsole.EarlyAgreesWithDriver compares the driver with the corrected cell store. For bytes from 0x80 the as-written store differs from the driver's cell.
- KernelConsole.EarlyConsole.PutChar stores the corrected cell of `KernelConsole.PutCharEarly`.
- KernelConsole.Walk stops after storing the terminator that a trailing `%` or `%05` takes as its letter. kprintf's `p++` (kernel/kernel.c:211) steps past that terminator, and the loop goes on reading the bytes after the format. The model does not hold those bytes; `Printf.TrailingPercent` shows the same read-on for kernel/lib/printf.c.
- KernelConsole.EarlyConsole.Kprintf is the corrected formatter. The as-written index movement is modelled by `KernelConsole.Walk` with `asWritten`.
- Keyboard: `keyboard_modifiers` is kept as its six flags (`Mods`), since the driver sets no other bit. `Keyboard.ModByteFlags` proves the byte and the flags determine each other, and `Keyboard.HeldKeys` and `Keyboard.LockKeys` state the `|=`, `&= ~` and `^=` updates on the byte. `keyboard_handler`'s port read and EOI are not modelled.
- Gdt: the shift `((limit >> 16) & 0xF) << 48` of a 32-bit value is undefined in C. `Gdt.LimitHighAsWritten` takes the x86 `shl` outcome, with the count masked to 5 bits.
- Gdt.GdtState and Gdt.GdtState.Init use a table of 7 slots, which the TSS descriptor at index 5 needs. The source's 6 slots are shown by `Gdt.TssSlotAsWritten`.
- Idt.IdtState.HandleInterrupt requires the vector below 256. The C indexes `interrupt_handlers` with any 64-bit value, but the stubs only pass 0-47.
- Idt.IdtState.SetStubGates writes the 48 explicit `idt_set_gate` calls as one loop over the vectors.
- Serial.SerialState.Init and Serial.SerialState.Configure require a baud rate other than 0, the divisor's division by zero.
- Serial.SerialState.WriteStr omits the `return false` after a failed `serial_write_char`. That write cannot fail on an initialised port.

## Findings

| source | as written | input that shows it | evidently intended | confidence | as-written member | corrected member |
|---|---|---|---|---|---|---|
| kernel/mm/memory.c:145-191 | mm_init marks frames 0-255, the kernel's frames and the bitmap's frames with no bounds check | kernel/kernel.c:457 calls mm_init(0): zero bitmap words, 256 low frames marked | marking stays below total_pages | not executed | Memory.ZeroMemoryInitOverflows | Memory.FrameAllocator.InitChecked |
| kernel/mm/memory.c:75-86 | bitmap_find_free scans every bit of every word, including the padding bits past total_pages | one page of memory with frame 0 used: frame 1 is returned | only frames below total_pages are returned | not executed | Memory.FindFreeReturnsPadding | Memory.FrameAllocator.FindFreeBounded |
| kernel/mm/memory.c:254-268 | mm_free_page decrements used_pages even when the frame is already free | freeing the same frame twice | used_pages equals the number of used frames | not executed | Memory.DoubleFreeDrifts | Memory.FrameAllocator.FreePageChecked |
| kernel/mm/paging.c:127 | the PDP window adds (virt >> 39) & 0xFF8, a byte offset, to the window base | addresses 0 and 2^39 get the same PDP table | each PML4 index reaches its own PDP table | not executed | Paging.PdpWindowCollides | Paging.PdpWindowDecodes |
| kernel/mm/paging.c:144 | the PD window adds (virt >> 30) & 0x3FFFF8 | addresses 0 and 2^30 get the same PD table | each PML4/PDP prefix reaches its own PD table | not executed | Paging.PdWindowCollides | Paging.PdWindowDecodes |
| kernel/mm/paging.c:161 | the PT window adds (virt >> 21) & 0x7FFFFFF8 | addresses 0 and 2^21 get the same page table | each prefix reaches its own page table | not executed | Paging.PtWindowCollides | Paging.PtWindowDecodes |
| kernel/mm/paging.c:183-197 | unmap_page stores 0 through the as-written PT window | with pages 0 and 0x200000 mapped, unmap_page(0x200000) clears page 0 and leaves 0x200000 mapped | the entry of 0x200000 is cleared | not executed | Paging.TwoMiBAsWritten | Paging.UnmapPage |
| kernel/mm/paging.c:215 | virtual_to_physical masks the entry with PAGE_MASK, which keeps bit 63 | a page mapped with NX translates to an address with bit 63 set | only the frame address bits are kept | not executed | Paging.TranslateLeaksNx | Paging.VirtualToPhysicalFixed |
| kernel/mm/paging.c:235-241 | the rollback of map_pages unmaps the pages from the failing one down to page 1 | a failure at page 1 leaves page 0 mapped | no page of the run stays mapped | not executed | Paging.RollbackAsWritten | Paging.RollbackFixed |
| kernel/mm/heap.c:48-53 | heap_init aligns the start up and keeps the full size | heap_init(4097, 4096): the arena ends at 12288, past 8193 | the arena stays inside the caller's region | not executed | Heap.InitRunsPast | Heap.HeapState.InitWithin |
| kernel/mm/heap.c:259-270 | the krealloc shrink leaves its free remainder beside a free next block, and subtracts 0 from heap_used | krealloc(p, 8) on a 200-byte block before a free block | the remainder merges with the next block and heap_used drops by its size | not executed | Heap.ShrinkBesideFree | Heap.HeapState.KreallocFixed |
| kernel/mm/heap.c:147-166 | kmalloc_aligned carves no padding block when 0 < padding < header, and returns the unaligned pointer | kmalloc_aligned(8, 16) with the data pointer 8 bytes short of alignment | every result is a multiple of align | not executed | Heap.ShortPadding | Heap.HeapState.KmallocAlignedFixed |
| kernel/mm/heap.c:169-171 | the aligned split leaves a remainder smaller than a header | kmalloc_aligned(8, 1) in a lone 64-byte block leaves 24 bytes for a 32-byte header | a block is split only when the remainder holds a header | not executed | Heap.ShortRemainder | Heap.HeapState.KmallocAlignedFixed |
| kernel/mm/heap.c:123-126 | align 0 passes the power-of-two check | kmalloc_aligned(8, 0) | align 0 is refused | not executed | Heap.ZeroAlignPasses | Heap.HeapState.KmallocAlignedFixed |
| kernel/lib/printf.c:172-180 | int_to_string returns (n + 1) / 2 for n digits | 123 reports length 2 | the number of digits | not executed | Printf.ShortLength | Printf.IntToStringFixed |
| kernel/lib/printf.c:593-602 | the stores of an unknown conversion are not checked against max_size | "%y" into a 2-byte buffer writes 3 bytes | every store and the terminator stay inside the buffer | not executed | Printf.UnguardedOverrun | Printf.StrictBound |
| kernel/lib/printf.c:317-330 | zero padding counts only the digits, not the sign or prefix | "%05d" of -42 gives 6 bytes | the field is as wide as the width asks | not executed | Printf.ZeroPadExample | Printf.StrictNumberField |
| kernel/lib/printf.c:197-597 | a `%` at the end of the format takes the terminator as its letter and the loop reads past it | the format "%" with "A" after its terminator prints "%", NUL and "A" | the loop stops at the terminator | not executed | Printf.TrailingPercent | Printf.StrictUnterminated |
| kernel/boot/boot_logo.c:95-174 | the chunk offset advances by 12 + length in 32 bits | a chunk length of 0xFFFFFFF4 at offset 8 wraps back to 8, so the loop never ends | the walk moves forward and stops at the end of the input | not executed | BootLogo.SpinAsWritten | BootLogo.Logo.DecodePng |
| kernel/boot/boot_logo.c:156 | IDAT data is copied with no check against the logo buffer | an IDAT longer than width*height*4 bytes | IDAT data larger than the buffer is rejected | not executed | BootLogo.IdatOverrunAsWritten | BootLogo.Logo.DecodePng |
| kernel/kernel.c:241-256 | kprintf moves its index by itoa's digit count, not by the padded width | kprintf("%5d", 42) prints two spaces | the index moves past every byte stored, printing "   42" | not executed | KernelConsole.PaddedFieldAsWritten | KernelConsole.Format |
| kernel/kernel.c:237-241 | `-val` of INT_MIN overflows before the conversion to uint64_t | kprintf("%d", INT_MIN) converts 2^64 - 2^31 | the digits of 2^31 after the sign | not executed | KernelConsole.IntMinAsWritten | KernelConsole.SignedText |
| kernel/kernel.c:86 | the cell store or-s `vga_color << 8` with a signed char, which sign-extends from 0x80 on | byte 0xE9 in colour 0x07 gives the cell 0xFFE9 | the cell 0x07E9 | not executed | KernelConsole.SignExtensionAsWritten | KernelConsole.EarlyConsole.PutChar |
| kernel/arch/x86_64/vga.c:321 | the loop counter of vga_draw_hline is a 32-bit unsigned int compared by `x <= x2` | vga_draw_hline(0, 0, 0xFFFFFFFF, c) never returns | the line ends at x2 | not executed | Vga.LineEndWrapsAsWritten | Vga.Display.DrawHLine |
| kernel/arch/x86_64/gdt.c:99-100 | gdt_set_gate shifts the whole granularity byte to bit 52 and a 32-bit limit nibble by 48 | the kernel code segment gives 0x0A009A00000FFFFF, flags 0 | 0x00AF9A000000FFFF, the flat 64-bit code segment | not executed | Gdt.KernelCodeAsWritten | Gdt.FixedLayout |
| kernel/arch/x86_64/gdt.c:67 | GDT_ENTRIES is 6, but the TSS descriptor takes slots 5 and 6 | tss_init writes gdt[6] | a table of 7 slots | not executed | Gdt.TssSlotAsWritten | Gdt.GdtState.Init |
| kernel/arch/x86_64/timer.c:220 | `ms * timer_frequency` is a 32-bit product | timer_wait_ms(5000000) at 1000 Hz waits 705032 ticks | 5000000 ticks | not executed | Timer.WaitOverflowAsWritten | Timer.WaitTicksSpan |
