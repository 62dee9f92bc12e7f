# WorkbenchOS: a model of its memory, disk and boot code

This project models the parts of the WorkbenchOS kernel, bootloader and libraries whose correctness rests on an
invariant over several structures, and proves those invariants over every run. A module stands for one component.

Where the source rewrites something in place the model is a class or a method over arrays, tied by its contract to a
function of the old state; what the source promises is proved about those functions and over runs of them.

- `FrameBitmap` (with `Words`, storage words as 64 bits): the physical frame allocator.
- `PageTables`, `MemoryManagement`: physical memory as frames of 512 entries, the kernel's and the users' tables, and
  the kernel heap's virtual pages. One invariant spans bitmap, tables and the zeroing of frames. `KernelAccess` and
  `UserAccess` say what kernel and user may do with a page, entry by entry on the way to it; `BootMappings` is about
  the frames that mappings made before the kernel ran go on showing, `Startup` about the boot loader's tables as the
  start of runs.
- `FreeList`, `SubHeap`, `Kmalloc` (with `ByteMemory`): the kernel sub-heap, its block headers threaded through the
  arena's own bytes, refined to a tiling of the arena. `HeapRequests`: what a caller gets for the bytes it asks for.
- `SlabPages`, `SlabTable`: slab pages with a free list kept inside client memory, and the table of slabs.
- `Virtio`: the block driver's queue as interleaved steps of driver and device. `BlockHeader`, `BlockBuffers`: the
  bytes of a request's header, and its data buffers in mapped memory.
- `CString`: memcpy. `FatNames`, `Fat32`: names, paths, directories and files of a FAT32 volume; `FatBytes` says the
  same of the volume's bytes.
- `Externals`: ACPICA's list of external names. `BootLayout`: the address space the bootloader builds. `Console`:
  number formatting; `Printed` says what stands on the screen.

Each operation is described twice: by a function that follows the code, and by lemmas that say, in numbers, bytes and
characters rather than in the function's own terms, what the operation leaves. Lemmas that Dafny would try by induction
of its own carry `{:induction false}`: their proofs are written out.

## What the code does not do

Some promises hold only on a condition. For each the project gives the condition, in both directions, and a lemma with
a case that fails.

- The sub-heap's `split_if_required` and the middle branch of `insert_into_free_list` each leave out one back-link
  write (Kernel/Heap/Kmalloc.cpp:93-95 and 144-146). The model carries a flag, `repair`. Without it the code is
  modelled as written: one call keeps right links exactly when it is `Harmless`, and `FourCallsBreakLinks` and
  `StaleLinkCorrupts` show what happens otherwise. Runs of the code as written stay right forwards exactly until an
  allocation takes a block with a wrong back link (`RunForwardExactly`, `TakenStaysListed`, `MiddleInsertionLoses`),
  and some frees right such links (`JoiningHeals`, `FifthCallHeals`). With the flag the two writes are added and the
  links are an invariant of every run. Nothing else in the model is added to the code.
- The address translation reads the wrong table above 2 GiB and stops when entry 0 of a table is absent, though the
  page asked for is mapped (`WalkFindsTable`, `UnmapTranslatesOthers`, `MapTranslatesOthers`; `UnmapFirstPageStops`).
  Freeing a heap page through such a table can give back a frame in use (`FreeKeepsExactly`,
  `HighFreeTakesDirectory`), which no machine without frames above 2 GiB does (`LowRunNeverAliases`).
- The index helpers look only at bits 12 to 29 of an address, so the first heap page past a 1 GiB window takes over the
  entry of the window's first page (`HeapPageKeepsWindow`).
- Initialisation marks nine kinds of memory and the lowest 1 MiB and takes all else for free. The framebuffer's frames
  are device memory, so on a machine whose memory map reaches beyond them they are left clear, though the boot loader
  has them mapped: they are handed out in their turn (`BootExposes`, `LoaderExposes`, `FramebufferHandedOut`).
- A heap page that is not had costs a frame if the heap has no pages left, and a frame and a page if there is no frame
  for its table (`HeapPageCosts`).
- `allocate_user_pages` drops the result of `map_user_page` and can report success without mapping the last page
  (`AllocateUserPagesKeeps`, `SilentUserFailure`). A page already mapped stops it for ever (`AllocateUserPagesStops`).
  The block it maps need not be contiguous (`UserBlockContiguous`): its table may stand behind its first page
  (`TableBehindFirstPage`), while the loader of programs fills it from its first frame on (Kernel/main.cpp:126-127).
- `allocate_contiguous` cuts its page count to eight bits, and counts that this leaves above 65 wrap its loop bound
  (`ContiguousIsWhole`, `ContiguousCounts`, `HundredPages`). The mask may then be shifted by 64 places, which C++
  leaves undefined: the model takes the outcome, called `wild`, as an input.
- `set_allocated` counts a page off though its frame is already marked, as initialisation does with used frames below
  1 MiB, and though no allocation ever finds it, past the last whole word (`MarkingCounts`, `MarkAllCounts`,
  `LowFrameTwice`, `TailFrameOnce`). Pages so lost are never handed out (`HandsOutAvailable`). What is proved of page
  tables asks nothing of the count.
- A slab whose page could not be had keeps its slot for ever (`PagelessExactly`, `SecondRequestPageless`).
- A virtio queue of fewer than three descriptors serves no call, and the first one empties it (`ServedFromStart`,
  `TwoDescriptors`). The branches of `rw` after a failed translation would lose three descriptors (`ServedExactly`),
  but no translation fails: it returns or stops the kernel.
- The block driver translates the first byte of a data buffer only, so a buffer across pages is served in the caller's
  bytes exactly when their frames follow one another (`ServedOwnBytes`, `SectorAcrossPages`).
- A virtio queue whose available ring ends on a page boundary has its used ring where the device does not look
  (`RingLayout`, `UsedRingMisplaced`). That takes a queue size the device offers against the standard, as 910: for
  powers of two the rings are where they belong (`PowerOfTwoLayout`).
- The forward memcpy smears when the destination starts inside the source (`DeliversExactly`, `OverlapSmears`).
- 8.3 names are told apart only if they fit (`RejoinIsUpper`, `NineLetters`); a directory search on a cyclic chain need
  not end (`HaltsExactly`, `SelfLinked`); a read fails when the last cluster's table entry cannot be read, though
  nothing is read from where it leads (`ReadSucceeds`, `LastEntryFails`).
- The bootloader counts preserved firmware pages it never maps and not the boot state and stack it does map
  (`AllMappedExactly`, `AllocatorUnreachable`), sizes the room for its tables before it has counted them
  (`TablesInsideExactly`, `SecondTableOutside`), and maps a region whose physical base is not page aligned shifted
  (`OffsetKept`, `BaseCutOff`).
- Signed numbers print without their sign outside base ten (`SignedReadsBack`, `SignLost`); a pointer given a type other
  than x, X or p prints digits that are not hexadecimal behind a hexadecimal prefix (`PrefixNamesBase`,
  `PointerInDecimal`); fill characters at the ends of the text cannot be told from it (`StripPadded`, `FillTaken`).

Where code and comment disagree the model follows the code: the slab header stands at the start of its page, not at
the end as the comment in Kernel/Heap/SlabAllocator.h:21-25 has it, and `split_if_required` makes the left block's
recorded size 16 bytes too large until the block is retyped (Kernel/Heap/Kmalloc.cpp:87 and 183).

## Model

| member | source | states |
|---|---|---|
| FrameBitmap.RunKeepsCount | Kernel/Memory/Bitmap.cpp:14-147 | in every run of allocate, free, set_allocated on clear frames and allocate_contiguous of a narrowed count up to 65, m_free_pages is the clear bits plus m_total_pages mod 64 |
| FrameBitmap.MarkingCounts | Kernel/Memory/Bitmap.cpp:91-95 | set_allocated keeps that count right if and only if the frame lies in a whole word and was clear; marking a frame twice, or one past the last whole word, loses a page |
| FrameBitmap.AllocateFailsWhenFull | Kernel/Memory/Bitmap.cpp:36-53 | allocate fails exactly when every tracked frame is taken, and which of the two errors it gives depends only on the pages past the last whole word |
| FrameBitmap.AllocateFrameIs | Kernel/Memory/Bitmap.cpp:36-53 | the lowest clear frame is taken and no other, and counted off; no page counted is one error, no frame clear the other, and neither changes anything |
| FrameBitmap.FreeFrameIs | Kernel/Memory/Bitmap.cpp:55-65 | a frame in use is cleared and counted, another is refused as a double free with nothing changed |
| FrameBitmap.ContiguousIs | Kernel/Memory/Bitmap.cpp:67-84 | of a count that eight bits leave at 65 at most, the lowest run of clear frames inside one word is taken and no other frame; it fails exactly without such a run or a page counted |
| FrameBitmap.AllocateThenFreeFrame | Kernel/Memory/Bitmap.cpp:36-65 | freeing the frame just allocated restores the marks and the count |
| FrameBitmap.AllocateKeepsCount | Kernel/Memory/Bitmap.cpp:36-53 | one allocation keeps the count, the error paths included |
| FrameBitmap.ContiguousCounts | Kernel/Memory/Bitmap.cpp:67-84 | a contiguous request keeps the count if and only if it fails or its count, cut to eight bits, is at most 65 |
| FrameBitmap.OverlongSucceeds | Kernel/Memory/Bitmap.cpp:128-146 | a count that eight bits leave above 65 wraps the loop bound: the request succeeds wherever a page is counted free, and reports the frame behind the first word when that word's last frame is taken |
| FrameBitmap.HundredPages | Kernel/Memory/Bitmap.cpp:128-146 | a hundred pages of two clear words: success, 64 frames marked, a hundred pages counted off |
| FrameBitmap.AllocateRunKeepsCount | Kernel/Memory/Bitmap.cpp:67-84 | a contiguous allocation within those counts keeps the count |
| FrameBitmap.AvailableSteps | Kernel/Memory/Bitmap.cpp:36-53 | however far the count has drifted, allocation fails exactly when the lesser of count and clear frames is zero, and otherwise lowers it by one |
| FrameBitmap.HandsOutAvailable | Kernel/Memory/Bitmap.cpp:36-53 | n allocations succeed exactly as often as there are frames both counted and clear, so pages a low count has lost are never handed out |
| FrameBitmap.MarkAllMarks | Kernel/Memory/Bitmap.cpp:86-95 | marking one frame after another marks those frames and no other |
| FrameBitmap.MarkAllLeaves | Kernel/Memory/Bitmap.cpp:86-95 | the count ends up short by one page, modulo 2^64, for each mark on a frame already marked or past the last whole word |
| FrameBitmap.MarkAllCounts | Kernel/Memory/MemoryManager.cpp:19-47 | the count is right after a list of marks if and only if each falls in a whole word, on a frame clear at first and named once |
| FrameBitmap.TailFrameOnce | Kernel/Memory/MemoryManager.cpp:32-47 | of 520 pages frame 515, past the last whole word, is marked once: no repeat, and the count is a page short |
| FrameBitmap.LowFrameTwice | Kernel/Memory/MemoryManager.cpp:32-47 | one used frame below 1 MiB, marked again with all the low frames, breaks the count |
| FrameBitmap.FreeKeepsCount | Kernel/Memory/Bitmap.cpp:55-65 | a free, or a refused double free, keeps the count |
| FrameBitmap.ContiguousIsWhole | Kernel/Memory/Bitmap.cpp:67-84 | a contiguous request that succeeds takes as many frames as asked for if and only if it asks for at most 64 |
| FrameBitmap.CountMarkRun | Kernel/Memory/Bitmap.cpp:140-146 | marking a run of n clear frames lowers the number of clear frames by n |
| FrameBitmap.AddressRoundTrip | Kernel/Memory/Bitmap.cpp:103-109 | frame to address to block and offset is the identity for every byte of the frame |
| FrameBitmap.FrameOfAddress | Kernel/Memory/Bitmap.cpp:103-109 | every address past the base lies in exactly the frame its block and offset name |
| FrameBitmap.RunInWord | Kernel/Memory/Bitmap.cpp:128-138 | a run of free frames in one word is a run of clear bits of the storage word at that offset |
| FrameBitmap.MarkRunInWord | Kernel/Memory/Bitmap.cpp:140-146 | or-ing the shifted mask into the word marks those n frames and no other |
| FrameBitmap.FindFree | Kernel/Memory/Bitmap.cpp:111-118 | the lowest clear bit; an error exactly when the word is full |
| FrameBitmap.FindNFree | Kernel/Memory/Bitmap.cpp:128-138 | for each count a u8 holds: up to 65 the least start of n clear bits, an error exactly when the word has none; above, the least start of a clear tail, always found |
| Words.MaskValue | Kernel/Memory/Bitmap.cpp:120-126 | the mask of n pages has the value 2^min(n, 64) - 1 |
| FrameBitmap.Bitmap.Init | Kernel/Memory/Bitmap.cpp:14-34 | the page size must be a power of two and the base a multiple of it, else the two errors with nothing changed; then as many whole pages as memory has are counted, and every tracked frame is free |
| FrameBitmap.Bitmap.Allocate | Kernel/Memory/Bitmap.cpp:36-53 | refines AllocateFrame: the lowest clear frame is marked and its address returned, or the right error with nothing changed |
| FrameBitmap.Bitmap.Free | Kernel/Memory/Bitmap.cpp:55-65 | any frame whose bit the storage holds: a clear bit is a double free and changes nothing, a set one is cleared and counted; on a tracked frame this is FreeFrame |
| FrameBitmap.Bitmap.AllocateContiguous | Kernel/Memory/Bitmap.cpp:67-84 | refines AllocateRun: the first run of clear bits inside one word, in the first word that has one, and for wrapped loop bounds the clear tail of the first word |
| FrameBitmap.Bitmap.SetAllocated | Kernel/Memory/Bitmap.cpp:86-89 | sets the bit of the frame the address lies in and no other, and counts it off, past the last whole word too |
| FrameBitmap.Bitmap.SetNAllocated | Kernel/Memory/Bitmap.cpp:140-146 | marks what the shifted mask has set in the word and lowers the count by n |
| FrameBitmap.Bitmap.IsAllocated | Kernel/Memory/Bitmap.cpp:97-101 | reads the bit of the frame the address lies in, past the last whole word too |
| PageTables.RunNeverAliases | Kernel/Memory/MemoryManager.cpp:129-319 | in every run of heap page allocation and freeing, user directories, user pages, flag changes and client writes to their own pages, from whatever the boot loader left mapped, every frame serving as root, table or data page is allocated in the bitmap and no two slots share one |
| PageTables.PerformKeeps | Kernel/Memory/MemoryManager.cpp:129-345 | each call that comes back keeps the invariant tying bitmap, tables and zeroed memory together, leaves what the boot loader mapped as it was, and takes into use only frames that were free |
| PageTables.LowRunNeverAliases | Kernel/Memory/MemoryManager.cpp:129-345 | where the bitmap tracks no frame above 2 GiB, the same holds in every run that keeps the heap inside its window, whatever heap pages it frees |
| PageTables.BootIsSound | Kernel/Memory/MemoryManager.cpp:20-60 | the state after boot, with distinct allocated tables and an unmapped heap window, satisfies that invariant |
| PageTables.BootMarksSuffice | Kernel/Memory/MemoryManager.cpp:19-60 | from the marks init makes on, however many it makes twice and whatever the boot mappings show, runs may start once the kernel's tables are among them |
| PageTables.ClientWriteKeeps | Kernel/Memory/MemoryManager.cpp:129-145 | whatever a client writes into a page it was given changes no mapping |
| PageTables.AllocatePageKeeps | Kernel/Memory/MemoryManager.cpp:111-114 | an allocated frame was free, is zeroed, belongs to no slot, and nothing else changes |
| PageTables.KernelTableForKeeps | Kernel/Memory/MemoryManager.cpp:219-233 | the walker keeps the invariant and every mapping, also when it makes a table |
| PageTables.UpdateKernelEntry | Kernel/Memory/MemoryManager.cpp:219-233 | an update rewrites the whole entry shared by the pages a window apart and no other page's entry |
| PageTables.UpdateKernelLookup | Kernel/Memory/MemoryManager.cpp:153-170 | an update rewrites the mapping of exactly the pages that share the entry, also when a table had to be made; a failed one changes nothing |
| PageTables.MapKernelLookup | Kernel/Memory/MemoryManager.cpp:153-161 | after mapping, the pages a whole number of 1 GiB windows from the page have the frame, every other page is as before |
| PageTables.UnmapKernelLookup | Kernel/Memory/MemoryManager.cpp:163-170 | after unmapping exactly those pages are unmapped |
| PageTables.OwnedTablesApart | Kernel/Memory/MemoryManager.cpp:219-233 | in every state that satisfies the invariant the directory and its tables are distinct allocated frames, which is what the mapping lemmas ask for |
| PageTables.UnmapUndoesMap | Kernel/Memory/MemoryManager.cpp:153-170 | unmapping a page that was unmapped before it was mapped restores every mapping |
| PageTables.SameEntry | Kernel/Memory/MemoryManager.cpp:172-188 | two pages share an entry if and only if their numbers agree modulo 2^18 |
| PageTables.IndexWithinWindow | Kernel/Memory/MemoryManager.cpp:172-188 | the low nine bits of a page number pick the entry of its table and the nine above them the table |
| PageTables.WalkFindsTable | Kernel/Memory/MemoryManager.cpp:197-198 | the translation reads the table the directory names if and only if that table lies below 2 GiB, the 28-bit field being shifted as an int |
| PageTables.MapThenTranslate | Kernel/Memory/MemoryManager.cpp:153-211 | translating any byte of a page just mapped gives that byte of the frame, whenever entry 0 of the table is present; otherwise it stops |
| PageTables.TranslateLow | Kernel/Memory/MemoryManager.cpp:190-211 | through a low table the translation gives what the hardware finds, unless entry 0 or the page is absent |
| PageTables.UnmapTranslatesOthers | Kernel/Memory/MemoryManager.cpp:163-211 | unmapping a page leaves the translation of another alone if and only if it does not clear entry 0 of that other page's table while that page translates |
| PageTables.MapTranslatesOthers | Kernel/Memory/MemoryManager.cpp:153-211 | mapping a page leaves the translation of another alone if and only if it does not bring entry 0 to that other page's table while that page is mapped and stops |
| PageTables.UnmapFirstPageStops | Kernel/Memory/MemoryManager.cpp:163-211 | unmapping the first page of a table stops the translation of its other pages, which stay mapped |
| PageTables.AllocateHeapPageKeeps | Kernel/Memory/MemoryManager.cpp:129-134 | success maps the next virtual page to a frame that was free; every other page of the window stays |
| PageTables.HeapPageCosts | Kernel/Memory/MemoryManager.cpp:129-134 | what one heap page costs, had or not: nothing without a frame, a frame without a page, both without a frame for its table, and else one frame or two |
| PageTables.TakePagesIs | Kernel/Memory/MemoryManager.cpp:371-388 | asked for n pages, or for none, which counts as one, the heap hands out the next n if it has them, and if it has fewer uses them all up and fails |
| PageTables.HeapPageKeepsWindow | Kernel/Memory/MemoryManager.cpp:129-188 | one more heap page keeps every mapping of the window if and only if the window has room, or its first page is unmapped or shows the very frame handed out; the page just past it makes the first one lead to the new frame |
| PageTables.AllocateHeapPagesKeeps | Kernel/Memory/MemoryManager.cpp:136-145 | success hands out n consecutive virtual pages never handed out before, mapped to n distinct frames that were free; failure leaves every earlier mapping; asked for none it still uses up a page |
| PageTables.BackPagesKeeps | Kernel/Memory/MemoryManager.cpp:139-143 | the loop backs each page with a frame that was free and touches no other page |
| PageTables.TakePagesKeeps | Kernel/Memory/MemoryManager.cpp:371-388 | taking pages moves the end of the heap and maps nothing |
| PageTables.FreeHeapPageKeeps | Kernel/Memory/MemoryManager.cpp:147-151 | freeing a heap page gives its frame back to the bitmap and unmaps that page alone |
| PageTables.FreeKeepsExactly | Kernel/Memory/MemoryManager.cpp:147-151 | a free of a heap page, wherever its table lies, keeps the invariant if and only if the frame it gives back is the page's own or nobody's |
| PageTables.LowTableFreesOwn | Kernel/Memory/MemoryManager.cpp:147-151 | through a table below 2 GiB it always is |
| PageTables.LowMachineFreesOwn | Kernel/Memory/MemoryManager.cpp:147-151 | where the bitmap tracks no frame above 2 GiB, every free of a heap page gives back that page's own frame |
| PageTables.HighFreeTakesDirectory | Kernel/Memory/MemoryManager.cpp:147-198 | a state that satisfies the invariant in which freeing the only heap page gives back the page directory |
| PageTables.CreateUserDirectoryKeeps | Kernel/Memory/MemoryManager.cpp:235-250 | two fresh frames, a root and its directory, with no user page mapped; kernel mappings and other directories stay |
| PageTables.MapUserPageKeeps | Kernel/Memory/MemoryManager.cpp:252-288 | the page gets the frame, or nothing happens because a table is missing and no frame is free |
| PageTables.MapUserPageStops | Kernel/Memory/MemoryManager.cpp:273-281 | the call never comes back if and only if the page is already mapped |
| PageTables.AllocateUserPagesStops | Kernel/Memory/MemoryManager.cpp:299-319 | it never comes back if and only if it finds a page mapped, by an earlier call or by itself a window before, while its frames last |
| PageTables.UserBlockContiguous | Kernel/Memory/MemoryManager.cpp:299-319 | a block mapped whole lies in frames that follow one another if and only if the lowest clear frame and those behind it were clear and no page but the last lacked its table |
| PageTables.TableBehindFirstPage | Kernel/Memory/MemoryManager.cpp:299-319 | the first page of a stretch without a table gets the lowest clear frame and the table the frame behind it, if clear, so that filling two pages from the block's start runs over the table |
| PageTables.UserTableForKeeps | Kernel/Memory/MemoryManager.cpp:256-271 | a table is made exactly when it is missing and a frame is free |
| PageTables.AllocateUserPagesKeeps | Kernel/Memory/MemoryManager.cpp:299-319 | all pages are mapped if and only if the allocator has frames for the pages and the missing tables; success is reported also one frame short when the last page is the one that lacks its table |
| PageTables.SilentUserFailure | Kernel/Memory/MemoryManager.cpp:313-314 | with one frame left and no table the call reports success and maps nothing |
| PageTables.SetPageFlagsKeeps | Kernel/Memory/MemoryManager.cpp:331-345 | changing flags changes no mapping, though it may make tables |
| PageTables.SetPageFlagsSets | Kernel/Memory/MemoryManager.cpp:331-345 | the pages got through, all exactly on success, have the flags asked for and their entries otherwise as before; every other page keeps its whole entry |
| KernelAccess.MapKernelEntry | Kernel/Memory/MemoryManager.cpp:153-161 | the page becomes present, writeable and the frame's; user and no-execute stay; pages of other entries keep theirs whole |
| KernelAccess.UnmapKernelEntry | Kernel/Memory/MemoryManager.cpp:163-170 | presence, writeability and frame are cleared, the rest stays |
| KernelAccess.HeapPageWrites | Kernel/Memory/MemoryManager.cpp:129-134 | a heap page that is had may be written, at both levels, and so may every page that might before |
| KernelAccess.HeapPagesWrite | Kernel/Memory/MemoryManager.cpp:136-145 | so may all pages of a heap block |
| UserAccess.MapUserEntries | Kernel/Memory/MemoryManager.cpp:252-288 | a page that is mapped is the user's, writeable exactly if write was asked for and executable exactly if execute was; its directory and table entries forbid nothing; every other user page, of any directory, keeps its whole entry |
| UserAccess.AllocateUserEntries | Kernel/Memory/MemoryManager.cpp:299-319 | the loop grants the access asked for to the pages it maps, and changes no page that was mapped and none out of its reach |
| UserAccess.UserBlockAccess | Kernel/Memory/MemoryManager.cpp:299-319 | of a block mapped whole a user program may use every page, and write and execute it exactly as asked for |
| UserAccess.NewDirectoryEntries | Kernel/Memory/MemoryManager.cpp:235-250 | a new root names an open directory, which is empty; the tables of all other directories stay as they were |
| UserAccess.KernelCallSame | Kernel/Memory/MemoryManager.cpp:129-345 | calls for the kernel's own pages leave every frame that holds a user root, directory or table as it was |
| UserAccess.RunKeepsUserPages | Kernel/Memory/MemoryManager.cpp:129-345 | in every run a user page once mapped keeps its frame and what the user may do with it |
| UserAccess.RunWays | Kernel/Memory/MemoryManager.cpp:235-288 | in every run no root or directory entry forbids what a page entry allows |
| BootMappings.BootExposes | Kernel/Memory/MemoryManager.cpp:19-145 | from boot, some run hands out a frame that a boot mapping shows, or makes a table of it, if and only if a boot mapping shows a clear frame with fewer clear frames before it than are counted free |
| BootMappings.RunExposes | Kernel/Memory/MemoryManager.cpp:129-345 | a run stays free of that if and only if no call of it takes into use a clear frame that a boot mapping shows |
| BootMappings.CallExposes | Kernel/Memory/MemoryManager.cpp:129-345 | the same for one call |
| BootMappings.HeapPageShown | Kernel/Memory/MemoryManager.cpp:129-134 | a new heap page gets the lowest clear frame, and shares it with a boot mapping if and only if a boot mapping shows that frame |
| BootMappings.RunStaysReserved | Kernel/Memory/MemoryManager.cpp:129-345 | where boot mappings show only reserved frames and ones the bitmap does not track, they do so in every run, and none is ever handed out |
| BootMappings.FramebufferHandedOut | Kernel/Memory/MemoryManager.cpp:19-47 | four frames, of which a boot mapping shows the one that init left clear: the first heap page gets it |
| BootMappings.PerformDraws | Kernel/Memory/MemoryManager.cpp:129-345 | after a call that comes back each root, table or page is in the frame it was in, or in one that was free |
| Startup.StartIsAtBoot | Bootloader/main.cpp:473-522 | the tables the boot loader leaves, with init's marks on the block it took for the kernel, are a state from which runs may start |
| Startup.StartMaps | Bootloader/main.cpp:484-522 | the hardware finds a kernel page in them if and only if a region and a linked table hold it, and then the region's frame |
| Startup.StartShows | Bootloader/main.cpp:396-522 | a boot mapping shows a frame if and only if it is that of a page of a region in a linked table |
| Startup.LoaderExposes | Kernel/Memory/MemoryManager.cpp:19-145 | from there, some run hands out a frame of a region such as the framebuffer if and only if init left one clear, and in reach of the count |
| MemoryManagement.VirtualAddressSpace.TakePage | Kernel/Memory/MemoryManager.cpp:371-380 | the next page, or an error when none is left |
| MemoryManagement.VirtualAddressSpace.TakePages | Kernel/Memory/MemoryManager.cpp:382-388 | the first of n pages, with the pages taken even when it fails half way |
| MemoryManagement.MemoryManager.AllocatePhysicalPage | Kernel/Memory/MemoryManager.cpp:111-114 | rewriting entries in place leaves the state and the answer that PageTables.AllocatePage gives for the old state |
| MemoryManagement.MemoryManager.GetKernelPageTableEntry | Kernel/Memory/MemoryManager.cpp:219-233 | rewriting entries in place leaves the state and the answer that PageTables.KernelTableFor gives for the old state |
| MemoryManagement.MemoryManager.MapKernelPageDirectory | Kernel/Memory/MemoryManager.cpp:153-161 | rewriting entries in place leaves the state and the answer that PageTables.MapKernel gives for the old state |
| MemoryManagement.MemoryManager.UnmapKernelPageDirectory | Kernel/Memory/MemoryManager.cpp:163-170 | rewriting entries in place leaves the state and the answer that PageTables.UnmapKernel gives for the old state |
| MemoryManagement.MemoryManager.KernelVirtualToPhysicalAddress | Kernel/Memory/MemoryManager.cpp:190-211 | rewriting entries in place leaves the state and the answer that PageTables.Translate gives for the old state |
| MemoryManagement.MemoryManager.AllocateKernelHeapPage | Kernel/Memory/MemoryManager.cpp:129-134 | rewriting entries in place leaves the state and the answer that PageTables.AllocateHeapPage gives for the old state |
| MemoryManagement.MemoryManager.AllocateKernelHeapPages | Kernel/Memory/MemoryManager.cpp:136-145 | rewriting entries in place leaves the state and the answer that PageTables.AllocateHeapPages gives for the old state |
| MemoryManagement.MemoryManager.FreeKernelHeapPage | Kernel/Memory/MemoryManager.cpp:147-151 | rewriting entries in place leaves the state and the answer that PageTables.FreeHeapPage gives for the old state |
| MemoryManagement.MemoryManager.CreateUserModeDirectory | Kernel/Memory/MemoryManager.cpp:235-250 | rewriting entries in place leaves the state and the answer that PageTables.CreateUserDirectory gives for the old state |
| MemoryManagement.MemoryManager.MapUserPage | Kernel/Memory/MemoryManager.cpp:252-288 | rewriting entries in place leaves the state and the answer that PageTables.MapUserPage gives for the old state |
| MemoryManagement.MemoryManager.AllocateUserPages | Kernel/Memory/MemoryManager.cpp:299-319 | rewriting entries in place leaves the state and the answer that PageTables.AllocateUserPages gives for the old state |
| MemoryManagement.MemoryManager.SetPageFlags | Kernel/Memory/MemoryManager.cpp:331-345 | rewriting entries in place leaves the state and the answer that PageTables.SetPageFlags gives for the old state |
| FreeList.RemoveLinks | Kernel/Heap/Kmalloc.cpp:113-125 | unlinking a block whose own back link is right gives the list without it and rights its successor's back link |
| FreeList.InsertLinks | Kernel/Heap/Kmalloc.cpp:127-151 | inserting puts the block in order; as written a middle insertion leaves the successor's back link on the block before, with the missing write it does not |
| FreeList.SplitLinks | Kernel/Heap/Kmalloc.cpp:76-96 | splitting puts the remainder behind the block; as written the old successor's back link still names the block |
| FreeList.CoalesceLinks | Kernel/Heap/Kmalloc.cpp:25-35 | coalescing merges two touching blocks and rights the back link of the block behind them |
| FreeList.CoalescePreviousIs | Kernel/Heap/Kmalloc.cpp:37-58 | coalescing backwards is coalescing the predecessor forwards when the two touch, and otherwise nothing |
| FreeList.CarveWhole | Kernel/Heap/Kmalloc.cpp:180-184 | taking a whole block leaves a list right both ways and a tagged allocation |
| FreeList.CarveFront | Kernel/Heap/Kmalloc.cpp:180-184 | taking the front of a block leaves the remainder in its place; exactly which back link is left wrong as written |
| FreeList.GiveBackLinks | Kernel/Heap/Kmalloc.cpp:163-169 | freeing links the block in and joins it with what it touches; as written the back links are all right if and only if it did not go between two blocks touching neither |
| FreeList.RemoveStale | Kernel/Heap/Kmalloc.cpp:113-125 | removing a block with a wrong back link writes into the memory that link names and leaves the block on the list |
| SubHeap.RunForward | Kernel/Heap/Kmalloc.cpp:25-191 | in every run, as written too, the forward list stays ordered and complete over a gapless, coalesced tiling up to the first allocation that takes a block with a wrong back link |
| SubHeap.RunForwardExactly | Kernel/Heap/Kmalloc.cpp:25-191 | in a run from a fresh sub-heap, as written too, the forward list is right all the way if and only if each allocation on the way takes a block whose back link is right |
| SubHeap.KeptExactly | Kernel/Heap/Kmalloc.cpp:113-191 | the same for one call |
| SubHeap.FreshLoose | Kernel/Heap/Kmalloc.cpp:98-106 | a fresh sub-heap is a state from which this holds |
| SubHeap.TakenStaysListed | Kernel/Heap/Kmalloc.cpp:113-125 | taking a block whose wrong back link names memory below the block before leaves that block naming the one taken |
| SubHeap.MiddleInsertionLoses | Kernel/Heap/Kmalloc.cpp:127-151 | a block freed between two that it does not touch is on the list; taking the block behind it, whose back link was left, drops both |
| SubHeap.PerformLoose | Kernel/Heap/Kmalloc.cpp:25-191 | a call that takes no such block keeps the arena; the back links wrong after it are at most those wrong before, with what the call spoils and without what it rights |
| SubHeap.JoiningHeals | Kernel/Heap/Kmalloc.cpp:25-58 | a free next to a free block leaves the back link of the free block behind right; one that touches the block behind also rights the link of the block after that; any free spoils at most the first of these |
| SubHeap.FifthCallHeals | Kernel/Heap/Kmalloc.cpp:25-58 | after the four calls that leave a wrong back link, a fifth one that frees the allocation between the two free blocks rights it |
| SubHeap.NoneWrongIsConsistent | Kernel/Heap/Kmalloc.cpp:25-191 | back links are right both ways if and only if no block is among those with a wrong one |
| SubHeap.AllocateLoose | Kernel/Heap/Kmalloc.cpp:172-191 | allocating a block whose own back link is right keeps the arena whatever other back links are wrong, and which are wrong afterwards |
| SubHeap.FreeLoose | Kernel/Heap/Kmalloc.cpp:153-170 | free keeps the arena whatever back links are wrong, and which are wrong afterwards |
| SubHeap.RunConsistent | Kernel/Heap/Kmalloc.cpp:25-191 | with the two missing writes every run keeps the free list ordered, complete and linked both ways over a gapless, fully coalesced tiling; as written, every run of harmless calls does |
| SubHeap.PerformKeeps | Kernel/Heap/Kmalloc.cpp:153-191 | one call always leaves the right forward chain, and right back links if and only if the writes are added or the call is harmless |
| SubHeap.AllocateRefines | Kernel/Heap/Kmalloc.cpp:172-191 | allocate carves the tiling, writes only inside free blocks, and keeps the back links exactly when it repairs them, did not split, or split the last free block |
| SubHeap.FreeRefines | Kernel/Heap/Kmalloc.cpp:153-170 | free rejoins the tiling, writes only inside free blocks and the freed one, and keeps the back links exactly when it repairs them or the block is at an end of the list or touches a free neighbour |
| SubHeap.AllocateKeepsShape | Kernel/Heap/Kmalloc.cpp:172-191 | the arena stays a gapless tiling with no two free blocks touching |
| SubHeap.FreeKeepsShape | Kernel/Heap/Kmalloc.cpp:153-170 | after a free no two free blocks touch, and the tiling has no gap |
| SubHeap.Conserved | Kernel/Heap/Kmalloc.cpp:25-191 | capacity is free bytes plus 16 + size for each live allocation plus slack |
| SubHeap.AllocateConserves | Kernel/Heap/Kmalloc.cpp:76-96 | slack grows by exactly the remainder that could not be recorded: under 32 bytes, and only without a split |
| SubHeap.FreeConserves | Kernel/Heap/Kmalloc.cpp:153-170 | a free gives back exactly tag and data, and leaves slack as it was |
| SubHeap.Disjoint | Kernel/Heap/Kmalloc.cpp:172-191 | allocations and free blocks never overlap and lie inside the arena |
| SubHeap.InitialConsistent | Kernel/Heap/Kmalloc.cpp:98-106 | a new sub-heap is one free block with right links |
| SubHeap.ClientWriteKeeps | Kernel/Heap/Kmalloc.cpp:183-184 | what clients write inside their allocations disturbs neither list nor tags |
| SubHeap.FourCallsBreakLinks | Kernel/Heap/Kmalloc.cpp:93-95 | four calls from a fresh heap after which the code as written has a wrong back link |
| SubHeap.StaleLinkCorrupts | Kernel/Heap/Kmalloc.cpp:113-125 | the next removal of that block overwrites eight bytes of a client's data and leaves the block on the list |
| HeapRequests.RunServes | Kernel/Heap/Kmalloc.cpp:172-191 | in every run the bytes answered for a request lie inside the arena and meet no free block, no other allocation and no tag, at least as many as asked for, until they are given back |
| HeapRequests.AnswerServes | Kernel/Heap/Kmalloc.cpp:172-191 | the same when the call returns: the new allocation has the greater of the size asked for and 32 bytes |
| HeapRequests.FailsExactly | Kernel/Heap/Kmalloc.cpp:172-191 | a request fails if and only if no free block has that many bytes and 16 more |
| HeapRequests.RunKeepsByte | Kernel/Heap/Kmalloc.cpp:153-191 | in every run whose allocations take blocks with right back links, a byte of an allocation keeps its value until it is written or the allocation is given back |
| HeapRequests.FreedBytes | Kernel/Heap/Kmalloc.cpp:153-170 | giving back makes the allocation and its tag part of one free block and leaves every other allocation |
| HeapRequests.FreedTwice | Kernel/Heap/Kmalloc.cpp:153-161 | what stands before an address given back is no longer an allocation's tag, so that giving it back again is refused |
| Kmalloc.FirstFitOnList | Kernel/Heap/Kmalloc.cpp:174-188 | the first block on the list that fits is the first free segment of the tiling that fits |
| Kmalloc.NoFitOnList | Kernel/Heap/Kmalloc.cpp:190 | when no block on the list fits, no free segment does |
| Kmalloc.KmallocSubHeap.constructor | Kernel/Heap/Kmalloc.cpp:98-106 | initialise: one free block spanning the arena |
| Kmalloc.KmallocSubHeap.SplitIfRequired | Kernel/Heap/Kmalloc.cpp:76-96 | in place, what FreeList.SplitIfRequired says |
| Kmalloc.KmallocSubHeap.CoalesceWithNextBlock | Kernel/Heap/Kmalloc.cpp:25-35 | in place, what FreeList.CoalesceNext says |
| Kmalloc.KmallocSubHeap.CoalesceWithPreviousBlock | Kernel/Heap/Kmalloc.cpp:37-42 | in place, what FreeList.CoalescePrevious says |
| Kmalloc.KmallocSubHeap.RemoveFromFreeList | Kernel/Heap/Kmalloc.cpp:113-125 | in place, what FreeList.Remove says |
| Kmalloc.KmallocSubHeap.InsertIntoFreeList | Kernel/Heap/Kmalloc.cpp:127-151 | the walk over the list finds the predecessor and links the block in as FreeList.Insert says, in all three cases and whatever back links are wrong |
| Kmalloc.KmallocSubHeap.Allocate | Kernel/Heap/Kmalloc.cpp:172-191 | first fit over the whole tiling: succeeds exactly when some free block has room for the greater of the request and 32 bytes with a tag of 16, and serves the bytes asked for; needs only the forward list, which it keeps if the block taken has a right back link; from right links both ways they stay so exactly when the call is harmless or repaired |
| Kmalloc.KmallocSubHeap.Free | Kernel/Heap/Kmalloc.cpp:153-170 | null accepted, a missing canary refused with nothing changed, otherwise the tiling is rejoined and the forward list kept, whatever back links are wrong; from right links both ways they stay so exactly when harmless or repaired |
| SlabPages.RunLists | Kernel/Heap/SlabAllocator.cpp:69-125 | in every run the first m_free_objects nodes of the list are exactly the objects whose addresses were not returned or were given back, whatever clients write in theirs |
| SlabPages.FreshListsRest | Kernel/Heap/SlabAllocator.cpp:90-102 | runs may start from a fresh page with nothing held |
| SlabPages.PageFull | Kernel/Heap/SlabAllocator.cpp:90-102 | objects stand one behind the other after a header of 48 bytes, as many as the page has room for |
| SlabPages.TakeIsNew | Kernel/Heap/SlabAllocator.cpp:69-78 | an address is never returned while it is held, is always an object's, and none is returned exactly when all are held |
| SlabPages.HeldDisjoint | Kernel/Heap/SlabAllocator.cpp:90-112 | held addresses lie past the header inside the page and their objects do not overlap |
| SlabPages.PerformLists | Kernel/Heap/SlabAllocator.cpp:69-125 | one allocation, free or client write keeps the list the complement of what is held |
| SlabPages.InitialiseLists | Kernel/Heap/SlabAllocator.cpp:90-102 | a fresh page lists every object in order and then one past the end |
| SlabPages.AllocateLists | Kernel/Heap/SlabAllocator.cpp:69-78 | allocate gives the first listed object, never the one past the end, and fails exactly when the list is empty |
| SlabPages.FreeLists | Kernel/Heap/SlabAllocator.cpp:114-125 | free puts an outstanding object at the front |
| SlabPages.ClientWriteLists | Kernel/Heap/SlabAllocator.cpp:104-112 | client writes into outstanding objects keep the list |
| SlabPages.OutstandingDisjoint | Kernel/Heap/SlabAllocator.cpp:90-102 | slots off the list lie past the header inside the page and do not overlap |
| SlabPages.ListedOrOutstanding | Kernel/Heap/SlabAllocator.cpp:69-78 | the list is empty exactly when every object is outstanding |
| SlabPages.ListFits | Kernel/Heap/SlabAllocator.cpp:104-107 | the list head is never null, so the null branches are not taken |
| SlabPages.SlabPage.constructor | Kernel/Heap/SlabAllocator.cpp:90-102 | the loop lays the links and leaves every object free |
| SlabPages.SlabPage.Allocate | Kernel/Heap/SlabAllocator.cpp:69-78 | fails exactly when all objects are outstanding, else hands out one that was not |
| SlabPages.SlabPage.Free | Kernel/Heap/SlabAllocator.cpp:114-125 | the object is first on the list again |
| SlabTable.RunHoldsFirst | Kernel/Heap/SlabAllocator.cpp:31-57 | after any run the table holds, in order, the first request for each size below the limit with the page that request got, no size twice |
| SlabTable.GetOrCreateIs | Kernel/Heap/SlabAllocator.cpp:31-67 | a size of 4048 or more stops the kernel; else the first slab for the size is given; else the first unused slot becomes it, given if a page was had and refused if not; a full table of slabs refuses; no other slot changes |
| SlabTable.PagelessExactly | Kernel/Heap/SlabAllocator.cpp:31-67 | a request is answered with a slab that has no page if and only if the first request for its size found a slot but no page |
| SlabTable.SecondRequestPageless | Kernel/Heap/SlabAllocator.cpp:59-67 | two requests for one size, the first without a page: the second is given the slab that has none |
| SlabTable.SlabAllocator.GetOrCreateSlab | Kernel/Heap/SlabAllocator.cpp:31-67 | a size past the limit stops the kernel, else the first slab for the size, else the first unused slot, taken before its page is asked for |
| Virtio.RunInv | Kernel/Devices/VirtioBlockDevice.cpp:135-283 | in every interleaving with the device, free, in-flight and dropped descriptors are 0..num-1 exactly once each, at most one chain is in flight, and the 16-bit counters are the histories modulo 2^16 |
| Virtio.HappenKeeps | Kernel/Devices/VirtioBlockDevice.cpp:209-283 | each driver or device step keeps that invariant |
| Virtio.StartInv | Kernel/Devices/VirtioBlockDevice.cpp:186-195 | the ring as set up satisfies it |
| Virtio.PollExitsOnCompletion | Kernel/Devices/VirtioBlockDevice.cpp:265-272 | the polling loop exits if and only if the request this call published has been completed, whatever the counters wrapped to |
| Virtio.AnswerIs | Kernel/Devices/VirtioBlockDevice.cpp:213-223 | code 1 for a length that is no whole number of sectors of 512 bytes and for addresses that do not translate, code 2 for want of three descriptors, and else the three on top of the stack are published |
| Virtio.CompletedRequestRestores | Kernel/Devices/VirtioBlockDevice.cpp:217-277 | from publication to reclaim, with any device steps between, exactly the three descriptors taken come back and nothing is dropped |
| Virtio.ServedExactly | Kernel/Devices/VirtioBlockDevice.cpp:213-234 | a call is published if and only if its length is good, three descriptors are free and its addresses translate |
| Virtio.ServedFromStart | Kernel/Devices/VirtioBlockDevice.cpp:186-283 | in every run from the queue as set up, whose translations return, a call of good length is served if and only if the queue has at least three descriptors |
| Virtio.TwoDescriptors | Kernel/Devices/VirtioBlockDevice.cpp:155-223 | a queue of two: the first call is refused with code 2 and no later one is served |
| Virtio.NothingDropped | Kernel/Devices/VirtioBlockDevice.cpp:209-283 | with three descriptors or more no run drops any |
| Virtio.ShortCallStarves | Kernel/Devices/VirtioBlockDevice.cpp:217-223 | a call that finds fewer than three descriptors leaves none |
| Virtio.StarvedForEver | Kernel/Devices/VirtioBlockDevice.cpp:217-223 | after that no request is ever published again |
| Virtio.DeviceReadsRequest | Kernel/Devices/VirtioBlockDevice.cpp:236-258 | the chain the device takes is header, data and status in that order; it may write the status, and the data only of a read |
| Virtio.TakeFinds | Kernel/Devices/VirtioBlockDevice.cpp:254-258 | only a waiting request can be there for the device, and its slot of the available ring holds the head of its chain |
| Virtio.RingLayout | Kernel/Devices/VirtioBlockDevice.cpp:127-183 | descriptors and rings do not overlap and fill the computed size; the used ring is where section 2.6.2 of virtio 1.1 puts it if and only if the shorter available ring does not end on a page boundary |
| Virtio.UsedRingMisplaced | Kernel/Devices/VirtioBlockDevice.cpp:127-183 | with 910 descriptors, a number that no device keeping to the standard offers, it is a page short of there |
| Virtio.PowerOfTwoLayout | Kernel/Devices/VirtioBlockDevice.cpp:127-183 | for the power-of-two sizes the standard demands it always is |
| Virtio.PoolDistinct | Kernel/Devices/VirtioBlockDevice.cpp:135-142 | no descriptor is in two places |
| Virtio.VirtioQueue.constructor | Kernel/Devices/VirtioBlockDevice.cpp:186-195 | the free stack with descriptor 0 on top, all counters zero |
| Virtio.VirtioQueue.PopFree | Kernel/Devices/VirtioBlockDevice.cpp:135-138 | in place, the top of the stack or 0xFFFF |
| Virtio.VirtioQueue.PushFree | Kernel/Devices/VirtioBlockDevice.cpp:140-142 | in place, one more on the stack |
| Virtio.VirtioQueue.Submit | Kernel/Devices/VirtioBlockDevice.cpp:209-262 | in place, the ring and the answer of SubmitTo, early exits included |
| Virtio.VirtioQueue.Poll | Kernel/Devices/VirtioBlockDevice.cpp:265-282 | one look at the ring: nothing changes until it is ready, then descriptors go back and the status byte is the result |
| BlockHeader.DeviceReadsHeader | Kernel/Devices/VirtioBlockDevice.cpp:225-239 | the device that reads the first buffer of a chain to its length finds type 0 to read or 1 to write, and the whole sector number asked for, as section 5.2.6 of virtio 1.1 lays them out, and reads nothing beyond |
| BlockHeader.FillHeader | Kernel/Devices/VirtioBlockDevice.cpp:225-228 | the three stores, in place |
| BlockBuffers.WriteSendsSource | Kernel/Devices/VirtioBlockDevice.cpp:232-246 | while the device has a write, the data it reads are the source's bytes if and only if the source's frames follow one another from where its first byte translates to; it may not write there |
| BlockBuffers.ReadFillsDestination | Kernel/Devices/VirtioBlockDevice.cpp:232-246 | while it has a read, the data it writes come into the destination's bytes on the same terms |
| BlockBuffers.ServedExactly | Kernel/Devices/VirtioBlockDevice.cpp:232-246 | a request is served in the caller's own bytes if and only if its data address is where the hardware has the first byte and the frames of the buffer's pages follow one another |
| BlockBuffers.ServedOwnBytes | Kernel/Devices/VirtioBlockDevice.cpp:232-246 | the address the driver gives is right below 2 GiB, and wherever it is right all turns on the frames |
| BlockBuffers.OnePageServed | Kernel/Devices/VirtioBlockDevice.cpp:232-246 | a buffer inside one page is if and only if its data address is right |
| BlockBuffers.PagesApart | Kernel/Memory/MemoryManager.cpp:129-134 | two heap pages allocated one behind the other with a user directory made between are in frames that do not follow one another |
| BlockBuffers.SectorAcrossPages | Kernel/Devices/VirtioBlockDevice.cpp:232-246 | after three calls from eight frames, a sector across two heap pages is sent to the device at a frame where the second page is not |
| CString.Memcpy | Libraries/LibStd/CString.cpp:26-63 | whatever branch it takes and however the buffers overlap, memory is left as by the forward byte-by-byte copy; null pointers change nothing |
| CString.UnitsAreBytes | Libraries/LibStd/CString.cpp:33-42 | copying by 8- or 4-byte units equals copying by bytes when the buffers are no closer than a unit |
| CString.CopyUnits | Libraries/LibStd/CString.cpp:33-53 | the word loops, in place |
| CString.DeliversExactly | Libraries/LibStd/CString.cpp:57-61 | the destination gets what the source held, for every memory, if and only if it does not start inside the source |
| CString.OverlapSmears | Libraries/LibStd/CString.cpp:57-61 | when it does start inside, the source's first byte comes back at twice the distance |
| CString.CopyConfined | Libraries/LibStd/CString.cpp:57-61 | no byte outside the destination changes |
| FatNames.OneComponent | Kernel/Filesystems/Fat32.cpp:144-191 | separators before, between and after components, of either kind and any number, change nothing |
| FatNames.SeparatorsSplit | Kernel/Filesystems/Fat32.cpp:144-191 | a path cut at a separator has the components of its two parts |
| FatNames.PlainIsOne | Kernel/Filesystems/Fat32.cpp:154-155 | a run without separators is one component |
| FatNames.RejoinIsUpper | Kernel/Filesystems/Fat32.cpp:68-97 | trimming and joining the eleven bytes gives the name back in capitals if and only if the stem has at most 8 characters, the extension if there is a dot 1 to 3, and neither ends in a space |
| FatNames.NameBytes | Kernel/Filesystems/Fat32.cpp:68-97 | the eleven bytes one by one: eight of the element before its last dot and three behind it, small letters as capitals, cut off or filled with blanks |
| FatNames.Separators | Kernel/Filesystems/Fat32.cpp:72-76 | paths are cut at slashes of either kind |
| FatNames.NineLetters | Kernel/Filesystems/Fat32.cpp:80-86 | two names that differ in their ninth letter give the same eleven bytes, and neither is read back |
| FatNames.SameNames | Kernel/Filesystems/Fat32.cpp:68-97 | two names that fit give the same eleven bytes if and only if they differ in letter case only |
| FatNames.To8dot3Upper | Kernel/Filesystems/Fat32.cpp:68-97 | the scans and copy loops produce To8dot3: one leading separator skipped, cut at the last dot, 8 and 3 characters, space padded |
| FatNames.ScanElement | Kernel/Filesystems/Fat32.cpp:75-78 | one pass finds the end of the element and its last dot |
| FatBytes.WalkSteps | Kernel/Filesystems/Fat32.cpp:139-193 | a path leads to an entry if and only if its components are found one in the other from the root, all but the last, or all if a separator follows, with an attribute byte that is an odd number of times 16 and less than 16 more |
| FatBytes.ScanOnBytes | Kernel/Filesystems/Fat32.cpp:118-135 | on the bytes of a cluster: the first record with the name is found unless one before it begins with 0, and records that begin with 0xE5, have the attribute 0x0F or its bit of value 8 are passed over; cluster number and size are the record's bytes |
| FatBytes.AnswersByByte | Kernel/Filesystems/Fat32.cpp:195-219 | of the entry found, a size or a read is refused as a directory if and only if its attribute byte says so |
| FatBytes.FileBytes | Kernel/Filesystems/Fat32.cpp:207-240 | a read that succeeds gives the bytes of clusters that follow one another by the table's entries, as many as asked for and as the file has, or all of a chain that ends before |
| FatBytes.EndMarks | Kernel/Filesystems/Fat32.cpp:60-66 | 0 and the eight highest of 28 bits end a chain |
| Fat32.ParseWritten | Kernel/Filesystems/Fat32.h:52-62 | parsing the 32 bytes of an entry gives back name, attributes, size and the cluster number from its two halves |
| Fat32.HaltsExactly | Kernel/Filesystems/Fat32.cpp:118-135 | a directory search ends if and only if the chain does not lead it back to a cluster it went on from |
| Fat32.SelfLinked | Kernel/Filesystems/Fat32.cpp:118-135 | a directory of one deleted entry whose cluster links to itself: no search of it ends |
| Fat32.SearchIsScan | Kernel/Filesystems/Fat32.cpp:118-136 | on a chain that ends the search finds what a scan of all its entries end to end finds |
| Fat32.FindIsSearch | Kernel/Filesystems/Fat32.cpp:118-136 | what a search finds does not depend on how many steps it is given |
| Fat32.FindInDirectory | Kernel/Filesystems/Fat32.cpp:106-137 | the loop comes to that outcome: the first live entry with the name, not found at an end mark or the end of the chain, or the device error |
| Fat32.ScanBuffer | Kernel/Filesystems/Fat32.cpp:121-133 | the first match among the whole entries of a cluster, an end mark stopping it, deleted, long-name and volume entries skipped |
| Fat32.ResolveAppend | Kernel/Filesystems/Fat32.cpp:139-193 | looking up a longer list of components is looking up its front as a directory and the rest from there |
| Fat32.WalkAppend | Kernel/Filesystems/Fat32.cpp:139-193 | walking p/q is walking p/ and going on from the directory found, whatever separators stand between |
| Fat32.WalkPath | Kernel/Filesystems/Fat32.cpp:139-193 | the pointer loop equals the fold of directory lookup over the components, with all its error cases |
| Fat32.ReadDelivers | Kernel/Filesystems/Fat32.cpp:223-239 | the bytes copied are the first bytes of the chain in order, and a read that stops short without error is at the end of the chain |
| Fat32.ReadSucceeds | Kernel/Filesystems/Fat32.cpp:229-238 | a read succeeds if and only if each cluster starting before the wanted length can be read and has a readable table entry, the last one's included |
| Fat32.LastEntryFails | Kernel/Filesystems/Fat32.cpp:229-238 | a file of one cluster whose table entry cannot be read: every byte arrives and the read fails |
| Fat32.CopyChain | Kernel/Filesystems/Fat32.cpp:226-240 | the loop, which ends on cyclic chains too, leaves what was copied in front of what the buffer held |
| Fat32.FileDelivered | Kernel/Filesystems/Fat32.cpp:207-240 | a successful read gives the first min(max, FileSize) bytes of the chain, or all it has, and their number |
| Fat32.ReadFile | Kernel/Filesystems/Fat32.cpp:207-240 | the whole operation, for any max of which the buffer holds what the file has: every error case, the count, and the buffer outside the count untouched |
| Fat32.FileSize | Kernel/Filesystems/Fat32.cpp:195-205 | the entry's size, directories refused |
| Externals.RunIsComplete | Libraries/LibACPICA/ACPICA/source/common/dmextern.c:987-1100 | after any calls the list is in case-insensitive order, ties in order of arrival, no path twice, and each entry sums up the calls that shaped it: least value, first type other than ANY, all flags |
| Externals.RunIsAlphabetical | Libraries/LibACPICA/ACPICA/source/common/dmextern.c:1066-1099 | at the first place where two listed paths differ, capitals counted as small letters and the end as 0, the one listed first has the smaller number; paths of the same letters stand in the order of the calls that created them |
| Externals.StatusIs | Libraries/LibACPICA/ACPICA/source/common/dmextern.c:998-1052 | listed already, no memory, or one entry more that says what the call says |
| Externals.FlagMasks | Libraries/LibACPICA/ACPICA/source/include/aclocal.h:1489-1491 | the two flags asked for are the masks 0x10 and 0x04 of the flag word |
| Externals.ListedOnce | Libraries/LibACPICA/ACPICA/source/common/dmextern.c:987-1100 | a path is listed if and only if some call for it found memory, and then once |
| Externals.ShapingStops | Libraries/LibACPICA/ACPICA/source/common/dmextern.c:1016-1019 | of the calls that shape an entry only the last may come from an External opcode |
| Externals.MergeSums | Libraries/LibACPICA/ACPICA/source/common/dmextern.c:1016-1042 | merging one more call keeps the sum; after an opcode the entry is finished |
| Externals.StricmpFlips | Libraries/LibACPICA/ACPICA/source/components/utilities/utnonansi.c:251-271 | swapping the names flips the sign |
| Externals.StricmpIs | Libraries/LibACPICA/ACPICA/source/components/utilities/utnonansi.c:251-271 | the comparison is negative if and only if the names are in alphabetical order, and zero if and only if they have the same letters |
| Externals.StricmpTransitive | Libraries/LibACPICA/ACPICA/source/components/utilities/utnonansi.c:251-271 | the order is transitive, strictly where one step is strict |
| Externals.StricmpZero | Libraries/LibACPICA/ACPICA/source/components/utilities/utnonansi.c:251-271 | names compare equal if and only if they differ in letter case only |
| Externals.CompareNames | Libraries/LibACPICA/ACPICA/source/components/utilities/utnonansi.c:251-271 | the loop over letters computes that comparison |
| Externals.ExternalList.FindPath | Libraries/LibACPICA/ACPICA/source/common/dmextern.c:1005-1045 | the walk finds the first entry with the path |
| Externals.ExternalList.FindPlace | Libraries/LibACPICA/ACPICA/source/common/dmextern.c:1068-1088 | the walk finds the first entry that sorts strictly after the path, and its predecessor |
| Externals.ExternalList.Insert | Libraries/LibACPICA/ACPICA/source/common/dmextern.c:1049-1099 | the new node is linked in there, the other nodes as they were |
| Externals.ExternalList.CreateNew | Libraries/LibACPICA/ACPICA/source/common/dmextern.c:987-1100 | the linked list then holds what CreateNewExternal makes of the old contents, with the status |
| BootLayout.TranslateExactly | Bootloader/main.cpp:484-522 | after the calls a page translates if and only if it lies in a region and in a linked table, and page i of a region leads to the frame i after its first |
| BootLayout.MapAllInside | Bootloader/main.cpp:497-513 | no call overwrites an entry another wrote |
| BootLayout.GuardsUnmapped | Bootloader/main.cpp:70-72 | the guard page behind each region is unmapped |
| BootLayout.Apart | Bootloader/main.cpp:70-72 | each region ends at least a page before any later one starts |
| BootLayout.RegionsPlaced | Bootloader/main.cpp:396-429 | the seven regions follow one another a page apart |
| BootLayout.RecordsShow | Bootloader/main.cpp:396-429 | the seven records tell the kernel where image, boot state, paging structures, memory map, framebuffer, stack and bitmap are, and there the hardware has them, each in all its pages, the framebuffer alone write combining |
| BootLayout.RoundedUp | Bootloader/main.cpp:56-58 | the least whole number of divisors that holds the value |
| BootLayout.AllMappedExactly | Bootloader/main.cpp:318-334 | every page of every region is reachable if and only if boot state, stack and the final memory map take no more pages than the counted preserved memory and first memory map, plus the rest of the last table |
| BootLayout.AllocatorUnreachable | Bootloader/main.cpp:318-334 | 512 pages counted, preserved ones among them, and one table linked: the frame allocator's page is out of reach |
| BootLayout.TablesInsideExactly | Bootloader/main.cpp:109-127 | the tables linked lie inside the region set aside for them if and only if the pages counted after its size was fixed open no further table |
| BootLayout.SecondTableOutside | Bootloader/main.cpp:318-334 | 512 pages before the tables are counted: room for one table, two linked |
| BootLayout.BaseCutOff | Bootloader/main.cpp:497-503 | a framebuffer based 256 bytes into a page is shown from the start of that page |
| BootLayout.OffsetKept | Bootloader/main.cpp:497-503 | an address in a region keeps its offset if and only if the region's physical base is page aligned |
| BootLayout.MapAddressSpace | Bootloader/main.cpp:497-513 | the loop, in place |
| BootLayout.BuildTables | Bootloader/main.cpp:396-522 | region records and the seven calls |
| Console.ParseDigits | Library/UnbufferedConsole.cpp:136-149 | for every base from 2 to 16 the digits parse back to the value and have no leading zero |
| Console.DigitsUnique | Library/UnbufferedConsole.cpp:136-149 | they are the only digit string without a leading zero that does |
| Console.DigitCount | Library/UnbufferedConsole.cpp:136-149 | k digits are enough if and only if the value is below base^k |
| Console.AtMost64 | Library/UnbufferedConsole.cpp:207-209 | a 64-bit value needs at most 64 digits, so the buffers are not run off |
| Console.FormatUintRev | Library/UnbufferedConsole.cpp:136-149 | the loop writes exactly the digits before the end of the buffer and returns their number |
| Console.PaddedLength | Library/UnbufferedConsole.cpp:151-186 | the output is max(width, sign + prefix + digits) long for every alignment |
| Console.StripPadded | Library/UnbufferedConsole.cpp:151-186 | taking the fill off gives the text back if and only if the text neither begins nor ends with the fill character |
| Console.FillTaken | Library/UnbufferedConsole.cpp:170-185 | five and fifty, filled with zeros to two places on the right, print alike |
| Console.PrefixNamesBase | Library/UnbufferedConsole.cpp:188-222 | a prefix names the base of the digits behind it if and only if this is no pointer or one printed in hexadecimal |
| Console.PointerInDecimal | Library/UnbufferedConsole.cpp:191-216 | the number ten as a pointer given the type d prints as 0x10 |
| Console.ZerosInFront | Library/UnbufferedConsole.cpp:161-168 | zero padding between prefix and digits does not change the value |
| Console.SignedReadsBack | Library/UnbufferedConsole.cpp:244-273 | sign and digits read back as the number, least integer included, if and only if the base is ten or the number is not negative |
| Console.SignLost | Library/UnbufferedConsole.cpp:245-252 | in another base a number and its negative print alike |
| Console.DecimalDistinct | Library/UnbufferedConsole.cpp:244-273 | in decimal different numbers have different sign and digits |
| Console.MagnitudeFits | Library/UnbufferedConsole.cpp:246-252 | nothing on the way to the magnitude leaves 64 bits |
| Printed.UnsignedParts | Library/UnbufferedConsole.cpp:188-225 | an unsigned number, a pointer too, is fill, prefix, zeros, digits and fill that make up the width as alignment asks; the digits spell it in the base its type letter asks for |
| Printed.SignedParts | Library/UnbufferedConsole.cpp:227-300 | a signed number likewise, with a minus sign exactly in decimal below zero and else the plus or blank asked for |
| Printed.Character | Library/UnbufferedConsole.cpp:195-198 | the type c prints one character, the low byte |
| Console.Printer.EmitPaddedNumeric | Library/UnbufferedConsole.cpp:151-186 | emits Padded, character by character |
| Console.Printer.FormatAndEmitUnsigned | Library/UnbufferedConsole.cpp:188-225 | emits UnsignedText: base, prefix and the character type chosen from the specification |
| Console.Printer.FormatAndEmitSigned | Library/UnbufferedConsole.cpp:227-300 | emits SignedText |

## Left out

- FrameBitmap.Bitmap.AllocateContiguous: of a mask shifted by 64 places nothing is assumed; the source zeroes only the first frame, and nothing is claimed of that.
- FrameBitmap.Bitmap.Allocate: the zeroing of the frame is modelled one level up, in MemoryManagement.MemoryManager.AllocatePhysicalPage, where memory is in view.
- FrameBitmap.RunKeepsCount: runs start from a right count; MarkAllCounts says exactly when initialisation leaves one, and ContiguousCounts when a contiguous request keeps it.
- PageTables.RunNeverAliases: runs keep heap growth inside one 1 GiB window, and HeapPageKeepsWindow says what the first page past it does; heap frees give back no frame in other use, which FreeKeepsExactly shows to be needed and LowMachineFreesOwn to hold on machines without frames above 2 GiB; frame numbers fit the 28 bits of a directory entry; loop counters of type int are taken as unbounded.
- PageTables.FreeHeapPageKeeps: a page whose frame the bitmap does not track is not modelled further; the call counts as not coming back.
- MemoryManagement.MemoryManager.FreeKernelHeapPage: a failed VERIFY and the endless loop of map_user_page on a page already present are both modelled as the call not coming back.
- PageTables.MapThenTranslate: what the translation reads through a table above 2 GiB is memory that is no table of the page; only that it misses the table is stated, by WalkFindsTable.
- PageTables.UnmapTranslatesOthers: tables above 2 GiB likewise.
- PageTables.MapTranslatesOthers: tables above 2 GiB likewise.
- MemoryManagement.MemoryManager.AllocateUserPages: the address returned, the kernel's mapping of the block's first frame, is not part of the answer; PageTables.UserBlockContiguous says which frame that is.
- Page-table bits other than present, writeable, user, no-execute and frame; the levels above the kernel page directory; TLB invalidation; the direct mapping of physical memory.
- Kmalloc.KmallocSubHeap.constructor: the arena is taken as already mapped; that its pages are had is the subject of PageTables.AllocateHeapPagesKeeps.
- SubHeap.RunForwardExactly: beyond the first allocation that takes a block with a wrong back link memory is no longer a list, as StaleLinkCorrupts shows, and nothing is claimed of it.
- Kmalloc.KmallocSubHeap.Free: an address whose tag carries the allocated canary is one the client holds; forged tags are not modelled.
- KmallocHeap::allocate, free and grow: m_available is never brought up to date, so the choice among sub-heaps promises nothing beyond the sub-heap.
- SlabPages.RunLists: object sizes below 8 bytes, which cannot hold a link, and slabs of more than one page, which the source never makes.
- SlabTable.PagelessExactly: what allocating from a slab without a page does, which is to stop the kernel, is not a step of the model.
- Virtio.RunInv: one caller at a time, as the polling driver has it; memory barriers and the device's configuration space are not modelled, and of the buffers' contents only the header's (BlockHeader.DeviceReadsHeader). Whether a translation fails is an input of the request; ServedFromStart has the runs in which, as in the kernel, none does.
- Virtio.DeviceReadsRequest: the device takes published chains in order and may complete them late; a device that breaks the protocol is not modelled.
- CString.Memcpy: word counts stay below 2^31, the range of the loop counters; memmove is unfinished in the source.
- Fat32.ReadFile: a cluster's buffer and its table entry are functions of the cluster number, because the sector arithmetic of read_fat and read_cluster does not do what a FAT volume needs; which buffer requests succeed is a function of their number, since the source never frees one. A volume of clusters of no bytes counts as one without buffers. Mounting is left out.
- Fat32.WalkPath: required of the volume is that each directory search on the way ends, which is what the call needs to return at all; HaltsExactly says when a search does.
- Externals.ExternalList.CreateNew: the Length field and debug output; whether memory is there is an input of the call.
- BootLayout.AllMappedExactly: one page directory, so at most 512 tables, and a frame allocator of at least a page; the identity mappings, the kernel image and the UEFI calls are left out.
- Startup.StartIsAtBoot: fewer than 512 linked tables, as BootLayout.AllMappedExactly has it; that the loader's block for the kernel is among the marks is taken from its memory type.
- BootMappings.BootExposes: writes through boot mappings, such as drawing, are not a step of the runs.
- BootLayout.BuildTables: the entries start out as the caller has them; physical bases are inputs.
- Console.Printer.FormatAndEmitSigned: the 64-bit instance only; parsing of format strings and the other `select` overloads are left out, the one for bool reading two specifications.
- RamdiskFS, SquashFS, AddressSpace and Region, interrupt, device and display plumbing, the rest of ACPICA, and the experiments and tools outside the kernel.
