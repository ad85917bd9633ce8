# NileOS kernel: verified model

NileOS is an x86-64 kernel. This project models the parts of it that carry data structures and protocols, and
proves what they are meant to guarantee. Paths below are relative to the repository's root.

- **Frames** (`Bitmap`, `FrameAllocator`, `FrameRuns`): the frame bitmap with one counter per 512 frames, updated in
  place. Counters agree with the bitmap over every run, allocation is first fit, and frames are conserved.
- **Page tables** (`PageTables`, `PageTableMachine`, `PageTableRuns`): one flat memory of words that holds the
  four-level tables of all cores and the pool of table blocks. The software walk refines a map from core and page
  to entry; no core's links touch another core's translations.
- **Shared memory** (`SharedFrames`, `SharedMapping`, `SharedBitmap`): mapping the same collections on all cores,
  releasing them once per core, and the first-fit bitmap of shared pages.
- **Windows and boot map** (`MemoryMap`, `ReservedWindows`, `BootMap`): placing reserved ranges top-down, and the
  boot-time map of usable chunks.
- **Spinlock and kernel heap** (`KernelHeap`): every memory access is one step; all schedules of all cores.
- **Messages** (`XmlParser`, `XmlTree`, `XmlMachine`, `XmlArena`, `XmlElements`, `XmlQuery`, `XmlQueryMachine`, `Base64`,
  `Message`, `MessageMachine`, `Decimal`): the parser that cuts its source in place and links nodes in an arena, the
  element tree of every accepted text, path queries, Base64, and the message that carries a parameter from one machine to another.
- **Disk reads** (`DmaRead`, `DmaMachine`): descriptor table, device, and the interrupt-driven loop over chunks.
- **Search and checksums** (`Search`, `Checksum`, `Icmp`): substring search with skips, the Internet checksum
  (sections 1 and 2 of RFC 1071), echo replies.

Code that works in place is a class or a method over arrays; each is proved equal to a function on values, and the
theorems are about those functions. Words are natural numbers; 8, 16, 32 and 64-bit wrap-around is written out
where it can happen. The page-table layout follows 4-level paging (section 4.5 of the Intel SDM, volume 3A), Base64
follows section 4 of RFC 4648 and, for characters outside the alphabet, section 5.2 of RFC 1341.

Where the code does something its comments or callers do not expect, the model follows the code:

- `ReverseSourceAndDestination` exchanges the two addresses and exchanges them back; the reply is right only because
  both are overwritten afterwards.
- `atoi` returns 0 for digits that are not followed by a blank, so `tag[2]` in a path means index 0.
- `strstr` and `scanmem` measure the shift after a mismatch from the needle's end. `Search` says exactly for which
  needles this loses an occurrence.
- The 64-bit sums of `kmalloc` and `kvalloc` can wrap, and blocks then overlap (`WrappingSizeOverlaps`).
  `RunSoundIffNoWrapPasses` and `SizesSafeIffFit` say exactly for which runs, and for which sizes, this cannot happen.
- `AllocateConsecutivePages` asked for 0 pages answers with the end of the first used bit.
- Freeing the all-ones word that a failed shared allocation stored in a slot frees nothing, because the bound of the
  loop wraps; that is why sharing conserves frames even when collections run out.
- The mapping loops of the shared memory are inclusive and cover floor(size / 2 MiB) + 1 pages.

`dafny verify dfyconfig.toml` checks the whole project.

## Model

| member | source | states |
|---|---|---|
| `Bitmap.SetBit` | stage2/sources/memory/PhysicalMemory.c:160-166 | the bit of the given number becomes 1 and no other bit of the map changes |
| `Bitmap.ClearBit` | stage2/sources/memory/PhysicalMemory.c:168-175 | the bit becomes 0 and no other bit changes |
| `Bitmap.GetBit` | stage2/sources/memory/PhysicalMemory.c:177-183 | the answer is the bit of that number, counted from the top of its byte |
| `FrameAllocator.PhysicalMemoryManager.constructor` | stage2/sources/memory/PhysicalMemory.c:228-253 | one counter per 512 available frames, each equal to the number of 1 bits of its slice; the bitmap is taken over as it is |
| `FrameAllocator.CountCollection` | stage2/sources/memory/PhysicalMemory.c:240-247 | the loop over 512 frames counts exactly the 1 bits of the slice |
| `FrameAllocator.PhysicalMemoryManager.AllocateOnePhysicalFrame` | stage2/sources/memory/PhysicalMemory.c:258-290 | state and answer are those of AllocOne, with all counters kept right |
| `FrameAllocator.PhysicalMemoryManager.AllocateOnePhysicalFrameCollection` | stage2/sources/memory/PhysicalMemory.c:354-388 | state and answer are those of AllocCollection; the branch for a frame that is already cleared is never taken |
| `FrameAllocator.PhysicalMemoryManager.DeallocatePhysicalFrame` | stage2/sources/memory/PhysicalMemory.c:306-336 | the frame becomes free; its counter grows only when it was not free before |
| `FrameAllocator.PhysicalMemoryManager.DeallocateOnePhysicalFrameCollection` | stage2/sources/memory/PhysicalMemory.c:338-348 | 512 frames from the given word on become free, with the 64-bit wrap of the loop bound: a word of all ones frees nothing |
| `FrameAllocator.TakeGiveConsistent` | stage2/sources/memory/PhysicalMemory.c:258-336 | taking or giving any frame keeps every counter equal to the bit count of its slice |
| `FrameAllocator.FullMeansAllFree` | stage2/sources/memory/PhysicalMemory.c:354-388 | a counter of 512 means that all 512 frames are free, 0 that none is |
| `FrameAllocator.AllocCollectionConsistent` | stage2/sources/memory/PhysicalMemory.c:354-388 | taking a full collection keeps counters and bitmap in agreement |
| `FrameAllocator.GiveRangeConsistent` | stage2/sources/memory/PhysicalMemory.c:338-348 | freeing any run of frames, free or not, keeps counters and bitmap in agreement |
| `FrameRuns.RunKeepsCounters` | stage2/sources/memory/PhysicalMemory.c:258-388 | after any sequence of the four operations, whatever addresses callers free, every counter is the bit count of its slice |
| `FrameRuns.OneIsLowestSet` | stage2/sources/memory/PhysicalMemory.c:258-290 | a single allocation returns the lowest free covered frame and clears only its bit; it returns -1 exactly when no covered frame is free |
| `FrameRuns.CollectionIsLowestAllFree` | stage2/sources/memory/PhysicalMemory.c:354-388 | a collection allocation, which looks at counters only, returns the lowest collection whose 512 bits are all 1, and -1 exactly when there is none |
| `FrameRuns.RunConserves` | stage2/sources/memory/PhysicalMemory.c:258-388 | when callers free only what they hold, free and live frames always partition the frames free at the start, and nothing live is handed out again |
| `PageTables.WalkIsDirectIndex` | stage2/sources/memory/MemoryPageMap.c:83-96 | the walk through PGD and PUD ends at the same cell as indexing the PMD pages by address / 2 MiB |
| `PageTables.WalkReadsView` | stage2/sources/memory/MemoryPageMap.c:83-96 | in any state that represents a map, the four-level walk returns the map's entry, and nothing where no block is linked |
| `PageTables.FreedIsAbsent` | stage2/sources/memory/MemoryPageMap.c:332-335 | the word of a released slot has its present bit clear and is not the marker for a slot without a table |
| `PageTables.LinkFourthRepresents` | stage2/sources/memory/MemoryPageMap.c:462-493 | linking a 4 KiB page changes the represented map at that core and page only, whether or not a new block is drawn |
| `PageTables.SetSlotRepresents` | stage2/sources/memory/MemoryPageMap.c:412-430 | writing a 2 MiB slot keeps all other entries of all cores |
| `PageTables.BuiltRepresents` | stage2/sources/memory/MemoryPageMap.c:248-277 | freshly linked upper levels represent a core with nothing mapped and leave the other cores as they were |
| `PageTableMachine.VirtualMemory.BspLinkFirst3Levels` | stage2/sources/memory/MemoryPageMap.c:248-277 | afterwards PGD and PUD entries are linked as the direct index needs, 2048 windows are counted and the last address is the last one mapped; no cell outside the core's two upper levels changes |
| `PageTableMachine.VirtualMemory.BuildTable` | stage2/sources/memory/MemoryPageMap.c:522-527 | a new core's tables are valid and empty; all maps of other cores stay |
| `PageTableMachine.VirtualMemory.AllocateVirtualMemoryBlock` | stage2/sources/memory/MemoryPageMap.c:340-375 | returns the lowest free pool block, or all ones exactly when none is free; only its bit changes |
| `PageTableMachine.VirtualMemory.DeallocateVirtualMemoryBlock` | stage2/sources/memory/MemoryPageMap.c:377-388 | the block's bit becomes free again and nothing else changes |
| `PageTableMachine.VirtualMemory.LinkFourthStageToFramePhysical` | stage2/sources/memory/MemoryPageMap.c:462-493 | memory, block bitmap and map change exactly as LinkFourth says |
| `PageTableMachine.VirtualMemory.LinkThirdStageToCollectionPhysical` | stage2/sources/memory/MemoryPageMap.c:412-430 | the slot holds the collection's address with flags; everything else stays |
| `PageTableMachine.VirtualMemory.MarkSlotFreed` | stage2/sources/memory/MemoryPageMap.c:319-338 | the slot holds 0xFFFFFFFFFFFFFFF0, which is not the marker for "no table" |
| `PageTableRuns.WalkIsLastLinked` | stage2/sources/memory/MemoryPageMap.c:83-96 | after any history of building tables, linking pages and storing 2 MiB slots on any cores, v2p of a core gives the last physical page linked at that virtual page of that core, with its flags; where nothing was linked it finds nothing present, or stands on the word last stored in the 2 MiB slot |
| `PageTableRuns.TranslationReadsView` | stage2/sources/memory/MemoryPageMap.c:83-96 | the present translations of a core are exactly the entries of its map |
| `PageTableRuns.LinkChangesOneTranslation` | stage2/sources/memory/MemoryPageMap.c:462-493 | one link changes the translation of its own page on its own core and no other translation of any core |
| `SharedMapping.LinkOnAllCores` | stage2/sources/memory/MemoryPageMap.c:279-305 | one page: one collection is allocated and every core's slot gets the same word |
| `SharedMapping.AllocateSharedMemoryTwoMb` | stage2/sources/memory/MemoryPageMap.c:279-305 | page j of the inclusive range gets the j-th allocation on every core; frames and slots are given exactly |
| `SharedMapping.AllCoresAgree` | stage2/sources/memory/MemoryPageMap.c:279-305 | after sharing, the walk of every core finds the same word for the same page |
| `SharedFrames.AllocPagesTakesFull` | stage2/sources/memory/PhysicalMemory.c:354-388 | n allocations in a row take the n lowest full collections, in order, and all ones once they ran out |
| `SharedFrames.PagesDistinct` | stage2/sources/memory/MemoryPageMap.c:279-305 | two pages get the same word exactly when the full collections ran out before the first of them |
| `SharedMapping.DeallocateVirtualMemoryCollection` | stage2/sources/memory/MemoryPageMap.c:319-338 | frees the collection named by the core's slot word and marks the slot |
| `SharedMapping.ReleaseOnCore` | stage2/sources/memory/MemoryPageMap.c:307-317 | one core's inner loop frees exactly the words that core held |
| `SharedMapping.DeallocateSharedMemoryTwoMb` | stage2/sources/memory/MemoryPageMap.c:307-317 | every core in turn frees the words it held; slots of the range end as freed, all others stay |
| `SharedFrames.FreeUndoesTake` | stage2/sources/memory/PhysicalMemory.c:306-348 | freeing a taken collection restores its bits and counter; freeing it once more changes nothing |
| `SharedFrames.SharingConserves` | stage2/sources/memory/PhysicalMemory.c:306-388 | allocating any number of pages and freeing all of them once per core restores bitmap and counters exactly, for any positive number of cores, even when collections ran out |
| `SharedMapping.ReleaseUndoesShare` | stage2/sources/memory/MemoryPageMap.c:279-338 | the release restores the frame state that the matching allocation found |
| `MemoryMap.MemoryTable.IsAddress` | stage2/sources/memory/PhysicalMemory.c:77-94 | true exactly when an entry covers the address, with start + size taken in 64 bits |
| `MemoryMap.MemoryTable.IsUsableAddress` | stage2/sources/memory/PhysicalMemory.c:96-112 | true exactly when a usable entry holds the whole range with a byte to spare, the sum taken in 64 bits, or the address is in the first MiB of a non-empty table |
| `MemoryMap.MemoryTable.GetVirtualAddress` | stage2/sources/memory/PhysicalMemory.c:114-130 | the offset into the first containing entry, added to that entry's window; 0 when there is none |
| `MemoryMap.FirstRange` | stage2/sources/memory/PhysicalMemory.c:114-130 | the entry found is the first one whose range, from start to below start + size, holds the address |
| `MemoryMap.UsableIff` | stage2/sources/memory/PhysicalMemory.c:96-112 | at and above 1 MiB an address is usable exactly when one entry of type 1 starts at or below it and ends behind the whole range; below, when there is any entry |
| `MemoryMap.MemoryTable.AddPhysicalMemoryEntry` | stage2/sources/memory/PhysicalMemory.c:132-151 | appends a reserved entry unless its address is covered; older entries stay |
| `ReservedWindows.MapKernelUsableMemory` | stage2/sources/memory/MemoryPageMap.c:495-505 | the first 750 MiB are mapped one to one |
| `ReservedWindows.MapWindow` | stage2/sources/memory/MemoryPageMap.c:190-202 | a window of size bytes maps every page it touches to consecutive frames |
| `ReservedWindows.MapReservedMemory` | stage2/sources/memory/MemoryPageMap.c:172-207 | stores every entry's window start and maps all windows; with enough pool blocks no link fails |
| `ReservedWindows.WindowsDisjoint` | stage2/sources/memory/MemoryPageMap.c:172-207 | windows of different reserved entries never share a page, although a size that is no page multiple maps one page more than was counted |
| `ReservedWindows.WindowsPacked` | stage2/sources/memory/MemoryPageMap.c:172-207 | the first window ends one page below 2 TiB, each other one exactly one page below the window before |
| `ReservedWindows.AppendingKeepsWindows` | stage2/sources/memory/MemoryPageMap.c:535-544 | appending entries and placing again moves no window |
| `ReservedWindows.WindowsMapped` | stage2/sources/memory/MemoryPageMap.c:172-207 | every page of every window is still mapped to its own frame when all entries are done |
| `ReservedWindows.RefreshReserved` | stage2/sources/memory/MemoryPageMap.c:535-544 | maps and window starts are those of placing once and mapping all windows on every core in turn |
| `ReservedWindows.RefreshMapsEveryCore` | stage2/sources/memory/MemoryPageMap.c:535-544 | after the loop over the cores every core, not only the last, holds every page of every window |
| `ReservedWindows.BuildApCoresPageTables` | stage2/sources/memory/MemoryPageMap.c:507-533 | every core but the first gets its tables, the kernel's memory and the windows; maps and window starts are given exactly |
| `ReservedWindows.BuildMapsEveryCore` | stage2/sources/memory/MemoryPageMap.c:507-533 | every core built holds every window, and the first 750 MiB one to one when the windows end above them |
| `ReservedWindows.ReservedAddressTranslates` | stage2/sources/memory/PhysicalMemory.c:114-130 | on every core that holds the windows: for an address in the range of a page-aligned entry of type 2, 3 or 4 above 1 MiB, and of no earlier entry, the walk at the answer of GetVirtualAddress finds the address's own frame |
| `ReservedWindows.UsableAddressIsItself` | stage2/sources/memory/MemoryPageMap.c:204-205 | an address in the range of an entry that is neither reserved nor a hole is its own virtual address |
| `ReservedWindows.ZeroIffNowhere` | stage2/sources/memory/PhysicalMemory.c:114-130 | without holes and with all windows above 0, the answer for a positive address is 0 exactly when it is in no range |
| `ReservedWindows.ReservedIsNotUsable` | stage2/sources/memory/MemoryPageMap.c:167-170 | an entry of type 2, 3 or 4 above 1 MiB is reserved, and makes no address at or above 1 MiB usable |
| `BootMap.MapLimitedUsableMemory` | stage2/sources/memory/MemoryPageMap.c:123-158 | tables, page count and last address describe exactly the chunks accepted by IsUsableAddress, in order |
| `BootMap.ChunksSpread` | stage2/sources/memory/MemoryPageMap.c:123-158 | accepted chunks are usable, aligned, inside the scanned range and at least 2 MiB apart |
| `BootMap.ChunkInsideEntry` | stage2/sources/memory/MemoryPageMap.c:123-158 | every accepted chunk at or above 1 MiB lies, with all its 2 MiB, inside one entry of type 1 |
| `BootMap.UsableIsTaken` | stage2/sources/memory/MemoryPageMap.c:123-158 | no usable memory is passed over: a page of the scanned range with 2 MiB of a usable entry behind it belongs to an accepted chunk |
| `BootMap.KthPageIsKthChunk` | stage2/sources/memory/MemoryPageMap.c:98-110 | v2p2m is defined on the whole mapped range and sends the k-th 2 MiB page to the k-th chunk |
| `BootMap.BootMapInjective` | stage2/sources/memory/MemoryPageMap.c:98-158 | different mapped virtual addresses have different physical addresses |
| `SharedBitmap.AllocateConsecutivePages` | stage2/sources/memory/SharedMemory.c:148-184 | the smallest start of n free bits, or -1 exactly when there is none; for n = 0 the end of the first used bit |
| `SharedBitmap.SetBitsToValue` | stage2/sources/memory/SharedMemory.c:186-215 | sets exactly the bits of the range; false exactly when the range reaches the last bit of the map |
| `SharedBitmap.RunIsExact` | stage2/sources/memory/SharedMemory.c:148-215 | over every run of reserving and releasing, live ranges are disjoint and their union is the set of 1 bits |
| `KernelHeap.StepKeepsExclusive` | stage2/sources/sync/Spinlock.c:42-85 | no memory access of any core breaks: at most one core between winning exchange and release write, lock word set exactly then, nesting count right |
| `KernelHeap.HolderReleases` | stage2/sources/sync/Spinlock.c:42-85 | a core that holds the lock releases it within ten accesses of its own |
| `KernelHeap.WaiterEnters` | stage2/sources/sync/Spinlock.c:42-85 | no deadlock: whenever a core waits, the holder can release and the waiting core can then take the lock |
| `KernelHeap.RunIsSafe` | stage2/sources/memory/KMalloc.c:5-37 | for any number of cores and any schedule of single memory accesses in which no wrapped test is passed: mutual exclusion, and all blocks returned or granted are disjoint, inside the kernel range, and page aligned when they come from kvalloc |
| `KernelHeap.CallAlone` | stage2/sources/memory/KMalloc.c:5-37 | an undisturbed call that passes its test advances the current address modulo 2^64 and returns the block at its start; any other leaves everything as it was |
| `KernelHeap.GrantedIffRoom` | stage2/sources/memory/KMalloc.c:5-37 | an undisturbed call is granted exactly when its block ends below the end of the range: kmalloc's at the current address, kvalloc's at the first page boundary from there on |
| `KernelHeap.RunSoundIffNoWrapPasses` | stage2/sources/memory/KMalloc.c:5-37 | the exact condition over runs of any cores, any schedule and any sizes: every state is sound, and stays so through the block about to be granted, if and only if no core passes a test whose 64-bit sum wrapped |
| `KernelHeap.SizesSafeIffFit` | stage2/sources/memory/KMalloc.c:5-37 | the exact condition on sizes: calls of up to `most` bytes are safe on every number of cores in every order if and only if the last page-aligned start below the end, plus `most`, fits 64 bits |
| `KernelHeap.SmallSizesNeverWrap` | stage2/sources/memory/KMalloc.c:5-37 | sizes that fit never pass a wrapped test |
| `KernelHeap.WrappingSizeOverlaps` | stage2/sources/memory/KMalloc.c:5-17 | a concrete schedule of one core in which a wrapping size makes two blocks overlap |
| `XmlMachine.VoidPtrStack.Push` | stage2/sources/misc/void_ptr_stack.c:10-19 | appends while a slot is left; the source's test lets a 129th push write behind the array, which the precondition excludes |
| `XmlMachine.VoidPtrStack.Pop` | stage2/sources/misc/void_ptr_stack.c:21-30 | removes and returns the last item; null on an empty stack |
| `XmlMachine.XmlHeap.constructor` | stage2/sources/xml/XMLParser.c:140-148 | an empty arena over the text, closed by a NUL |
| `XmlMachine.XmlHeap.CutTag` | stage2/sources/xml/XMLParser.c:18-52 | blanks up to the closing bracket and the bracket itself become NULs; the tag starts where the scan started |
| `XmlMachine.XmlHeap.GetNewXMLNode` | stage2/sources/xml/XMLParser.c:5-16 | a cleared node behind the used ones, or null exactly when all 131072 are used |
| `XmlMachine.XmlHeap.StrEqual` | stage2/sources/misc/MemoryUtilities.c:77-94 | true exactly when both C strings are equal |
| `XmlMachine.XmlHeap.StartTag` | stage2/sources/xml/XMLParser.c:84-133 | arena, source, stack, content pointer and open element change as Open says, including self-closing tags and the full arena |
| `XmlMachine.XmlHeap.EndTag` | stage2/sources/xml/XMLParser.c:64-83 | the same for Close: text ended and stored, element above reopened, mismatching tag rejected |
| `XmlMachine.XmlHeap.ParseXml` | stage2/sources/xml/XMLParser.c:54-138 | returns 1 exactly when Run accepts, and then source and arena are those of Run; excluded are only inputs on which C is undefined |
| `XmlTree.CutPlain` | stage2/sources/xml/XMLParser.c:18-52 | the scan of a tag stops at its bracket; the bracket and every blank in front of it become NULs, and nothing else changes |
| `XmlTree.StartStep` | stage2/sources/xml/XMLParser.c:84-133 | a start tag, with attributes or without, opens an element whose tag is the text in front of the first blank |
| `XmlTree.EmptyStep` | stage2/sources/xml/XMLParser.c:115-122 | a tag that ends in a slash, behind attributes or not, closes itself |
| `XmlTree.EndStep` | stage2/sources/xml/XMLParser.c:64-83 | an end tag, padded with a blank and more or not, closes the element of the same tag and ends its text |
| `XmlTree.MismatchRejected` | stage2/sources/xml/XMLParser.c:75-80 | an end tag that names another element than the open one makes the parse return 0 |
| `XmlTree.ParseTree` | stage2/sources/xml/XMLParser.c:54-138 | reading the rendering of any tree, inside any file and at any depth that fits, adds exactly the tree's nodes, cuts exactly its strings, and returns to the element it started in |
| `XmlTree.TreeRejected` | stage2/sources/xml/XMLParser.c:86-94 | a tree with more nodes than are left makes the parse return 0 |
| `XmlTree.ReadBack` | stage2/sources/xml/XMLParser.c:54-138 | a rendered tree with attributes of depth at most 128, with prolog and newlines around it, is accepted exactly when its nodes fit the arena of 131072; the final parser state is given in full |
| `XmlTree.TooDeep` | stage2/sources/misc/void_ptr_stack.c:10-19 | the depth bound is exact: with the nodes fitting, the parse of a rendered tree writes behind its stack if and only if more than 128 elements are open at once |
| `XmlArena.BuildShows` | stage2/sources/xml/XMLParser.c:96-121 | the nodes added are the tree in document order: tags, NUL-cut texts, parent, first-child, last-child and sibling links |
| `XmlArena.BuildAllOld` | stage2/sources/xml/XMLParser.c:97-113 | older nodes change only in the child pointers of the open element and the sibling link of its last child |
| `XmlArena.ReadBackShows` | stage2/sources/xml/XMLParser.c:54-138 | parsing the rendering of a tree gives an arena that is exactly that tree and nothing else |
| `XmlArena.RunRises` | stage2/sources/xml/XMLParser.c:54-138 | on every text the parser accepts, sibling and child links lead to younger nodes and parent links to older ones |
| `XmlArena.RunTags` | stage2/sources/xml/XMLParser.c:54-138 | on every accepted text all tags point into the source |
| `XmlElements.RunTidy` | stage2/sources/xml/XMLParser.c:54-138 | every step of the parser keeps the links tidy: first and last child pointers and sibling links name exactly the nodes they should, whatever the text |
| `XmlElements.ChildListExact` | stage2/sources/xml/XMLParser.c:96-113 | the list reached from childStart by sibling links is exactly the nodes with that parent, in order, and childEnd is its last one |
| `XmlElements.AcceptedChildren` | stage2/sources/xml/XMLParser.c:54-138 | on every accepted text each node but the first stands exactly once among its parent's children and among nobody else's |
| `XmlElements.AcceptedTreeIsWhole` | stage2/sources/xml/XMLParser.c:54-138 | on every accepted text the element tree has one root and contains every node |
| `XmlElements.ShowsAreElements` | stage2/sources/xml/XMLParser.c:54-138 | where the arena shows rendered trees, the element tree is those trees, numbered in document order |
| `XmlQueryMachine.XQuery.ParseXQueryItem` | stage2/sources/xml/XQuery.c:6-28 | appends the tag in front of the bracket and the number inside it, or the whole piece with index 0 |
| `XmlQueryMachine.SplitPath` | stage2/sources/xml/XQuery.c:48-73 | the list holds exactly the non-empty pieces of the path between slashes |
| `XmlQueryMachine.GetXMLNode` | stage2/sources/xml/XQuery.c:30-46 | terminates and returns the index-th right sibling with the tag, or null exactly when there are fewer |
| `XmlQueryMachine.ExecXQuery` | stage2/sources/xml/XQuery.c:48-84 | terminates and returns what following the path step by step gives |
| `XmlQuery.FollowIsLookup` | stage2/sources/xml/XQuery.c:48-84 | in every arena whose links lead to younger nodes, following a path from any node gives the node found by recursive n-th-matching-child lookup in the element tree, and null exactly when that lookup fails |
| `XmlQuery.QueryIsLookup` | stage2/sources/xml/XQuery.c:48-84 | on every text the parser accepts, with any text between elements and any attributes, a query is the lookup in the text's element tree |
| `XmlQuery.TaggedIsSameTag` | stage2/sources/xml/XQuery.c:30-46 | the tagged siblings behind any link of the arena are the elements with that tag, in the same order |
| `XmlQuery.ItemsOfPath` | stage2/sources/xml/XQuery.c:63-73 | splitting a path undoes joining its steps with slashes |
| `XmlQuery.ItemsOfGapped` | stage2/sources/xml/XQuery.c:63-73 | empty pieces are dropped: with any number of slashes in front of, between and behind the steps, the items are those of the steps; a path of slashes has none |
| `XmlQuery.EveryPathIsGapped` | stage2/sources/xml/XQuery.c:63-73 | every path is steps with such gaps, so that the splitting is given for all texts |
| `XmlQuery.SlashesAround` | stage2/sources/xml/XQuery.c:63-73 | a slash in front of a path or behind it changes no query |
| `XmlQuery.ConfigurationPath` | stage2/sources/xml/XMLService.c:93-101 | the path /SystemConfig/tag names the child with that tag of the root SystemConfig |
| `XmlQuery.IndexedStep` | stage2/sources/xml/XQuery.c:6-20 | tag[n ] with a blank behind the digits is read as the n-th child, for every n below 65536, whatever stands behind the bracket |
| `XmlQuery.UnbracketedStep` | stage2/sources/xml/XQuery.c:8-27 | a piece without both brackets, with nothing between them, or with the closing one in front, is a tag as it stands |
| `XmlQuery.IndexNeedsBlank` | stage2/sources/xml/XQuery.c:6-20 | tag[n] without the blank is read as index 0, whatever n |
| `Base64.Base64Encode` | stage2/sources/misc/Base64Encoding.c:31-84 | null exactly on overflow or without memory; otherwise the text is the encoding and fits len * 4 / 3 + 4 bytes |
| `Base64.OverflowTest` | stage2/sources/misc/Base64Encoding.c:38-43 | the wrap test fires exactly when len * 4 does not fit 64 bits |
| `Base64.EncodeLength` | stage2/sources/misc/Base64Encoding.c:54-76 | the encoding has 4 * ceil(n / 3) characters |
| `Base64.SymbolsAreDigits` | stage2/sources/misc/Base64Encoding.c:54-76 | the four symbols are the digits to the base 64 of the 24 bits of three bytes; one or two bytes are filled up with zero bits and padded |
| `Base64.EncodeOfAppend` | stage2/sources/misc/Base64Encoding.c:54-61 | every three bytes are encoded on their own |
| `Base64.BuildTable` | stage2/sources/misc/Base64Encoding.c:105-108 | the table holds a symbol's value, 0 for the pad character and 0x80 for every other byte |
| `Base64.Base64Decode` | stage2/sources/misc/Base64Encoding.c:98-156 | null exactly when decoding fails or memory is missing; otherwise the bytes are the decoding and fit count / 4 * 3 bytes |
| `Base64.DecodeFailsIff` | stage2/sources/misc/Base64Encoding.c:110-150 | decoding fails exactly when nothing is kept, when the kept symbols are no whole quads, or when the first padded quad has three or four pads |
| `Base64.DecodeQuadsEncode` | stage2/sources/misc/Base64Encoding.c:124-153 | decoding undoes encoding quad by quad, with 0, 1 or 2 pad characters |
| `Base64.RoundTrip` | stage2/sources/misc/Base64Encoding.c:98-156 | every text whose alphabet characters are the encoding of some data decodes to the data when it is non-empty, and to nothing when it is empty |
| `Base64.OutsideIsIgnored` | stage2/sources/misc/Base64Encoding.c:110-131 | bytes outside the alphabet can be put anywhere without changing what a text decodes to |
| `Message.ConvertTagToXML` | stage2/sources/devices/service/service.c:112-145 | the text is opening, encoded bytes, closing, and the element is empty when the encoding fails; the end pointer stays equal to the length written |
| `Message.MessageIsRendering` | stage2/sources/devices/service/service.c:135-142 | the text is the rendering of a two-level tree with the encoding between blanks as its leaf |
| `Message.MessageLookup` | stage2/sources/xml/XMLService.c:113-130 | params/tag names exactly that leaf |
| `Message.MessageRoundTrip` | stage2/sources/devices/service/service.c:80-149 | for every plain tag and all non-empty data, parsing the message, querying params/tag and decoding the value gives the data back |
| `Message.ValueFits` | stage2/sources/xml/XMLService.c:113-130 | the value fits its 256 bytes exactly up to 189 bytes of data |
| `MessageMachine.GetValueFromTagMessage` | stage2/sources/xml/XMLService.c:113-130 | the value field holds the content of the node found, closed by a NUL, or is unchanged when there is none |
| `MessageMachine.GetValueFromTag` | stage2/sources/xml/XMLService.c:93-111 | the same for a configuration value, whose path starts with a slash |
| `MessageMachine.PassParameter` | stage2/sources/xml/XMLService.c:70-130 | the imperative parts joined: what one machine renders, the other parses, queries and decodes to the same bytes |
| `Decimal.PrintDecimal` | stage2/sources/misc/stdio.c:28-53 | writes the decimal notation of n, without leading zeros, for every n below 2^64, and nothing else |
| `Decimal.DecimalIsUnique` | stage2/sources/misc/stdio.c:28-53 | a number has one such notation |
| `Decimal.IsInteger` | stage2/sources/misc/numbers.c:4-13 | true exactly for non-empty strings of digits |
| `Decimal.Atoi` | stage2/sources/misc/numbers.c:15-30 | the value of the digits behind leading blanks, modulo 2^64, when a blank follows them; 0 otherwise |
| `Decimal.AtoiExact` | stage2/sources/misc/numbers.c:15-30 | for every text of blanks, digits and a rest: the value of the digits modulo 2^64 when a blank follows them, and 0 when anything else does, or nothing |
| `Decimal.AtoiReadsDecimal` | stage2/sources/misc/numbers.c:15-30 | the notation of n between blanks is read as n |
| `Decimal.AtoiNeedsBlank` | stage2/sources/misc/numbers.c:22-27 | digits that end the string are read as 0 |
| `DmaMachine.DmaBuffer.BuildTable` | stage2/sources/devices/ata/ATADisk.c:275-289 | the table describes consecutive 64 KiB pieces from the area's base, the last one shorter and the only one marked |
| `DmaRead.PiecesAddUp` | stage2/sources/devices/ata/ATADisk.c:275-289 | the first n lengths add up to n * 64 KiB or to all bytes asked for |
| `DmaRead.TableBound` | stage2/sources/devices/ata/ATAManager.c:114-118 | for every 16-bit sector count the table fits its 4 KiB page and the data its 32 MiB area; 65534 sectors take exactly 512 entries |
| `DmaMachine.DmaBuffer.Transfer` | stage2/sources/devices/ata/ATADisk.c:258-289 | a device that follows the table leaves exactly the sectors in the area |
| `DmaMachine.DmaBuffer.ReadDMADisk` | stage2/sources/devices/ata/ATADisk.c:461-491 | the fields and the area are those of Begin |
| `DmaMachine.DmaBuffer.HandleReadInterrupt` | stage2/sources/devices/ata/ATAManager.c:229-272 | fields, buffer and area change exactly as Interrupt says |
| `DmaRead.InterruptStep` | stage2/sources/devices/ata/ATAManager.c:229-272 | each interrupt keeps the invariant (current_address = start + total_read, current_read is the next chunk, buffer filled so far) or completes the read |
| `DmaRead.ReadCompletes` | stage2/sources/devices/ata/ATAManager.c:229-272 | a read of any positive count is complete after exactly ceil(count / chunk) interrupts, and the invariant holds in front of each; the end offset shortens it, the start offset moves a read of one chunk |
| `DmaRead.CommandsFit` | stage2/sources/devices/ata/ATADisk.c:467-478 | the k-th command asks for the next 256 sectors, or 65534 on a disk with 48-bit commands, or for what is left; up to that many sectors take one interrupt |
| `DmaRead.CanIssueIff` | stage2/sources/devices/ata/ATADisk.c:328-347 | a command moves all sectors asked for exactly when they are at most 256, or 65535 with 48-bit commands, since the 28-bit command has an 8-bit count |
| `DmaRead.BytesArrive` | stage2/sources/devices/ata/ATAManager.c:229-272 | byte k of the buffer is byte address * 512 + k of the disk, moved by the start offset; behind the data the buffer is unchanged |
| `Search.StrStr` | stage2/sources/misc/MemoryUtilities.c:4-30 | terminates with the result of the skipping search; the first occurrence when the needle is sound |
| `Search.ScanMem` | stage2/sources/misc/MemoryUtilities.c:32-55 | the same for memory blocks |
| `Search.ShiftIs` | stage2/sources/misc/MemoryUtilities.c:17-28 | after a mismatch the search moves by the distance of the last such byte in front of it from the needle's end; by the whole needle in strstr and by 1 in scanmem when there is none |
| `Search.FindsEverywhereIffSound` | stage2/sources/misc/MemoryUtilities.c:4-55 | a needle is found correctly in every haystack if and only if it is sound: no mismatch of it allows an occurrence inside the jump |
| `Search.UniqueLastIsSound` | stage2/sources/misc/MemoryUtilities.c:4-55 | a needle whose last byte occurs nowhere else in it is sound, and so is every needle of at most two bytes |
| `Search.LostNeedle` | stage2/sources/misc/MemoryUtilities.c:4-55 | abcb is lost in ababcb by both searches |
| `Search.SkippedMeansLoses` | stage2/sources/misc/MemoryUtilities.c:17-28 | an occurrence inside a jump is always due to measuring the shift from the needle's end |
| `Checksum.CalcSum` | stage2/sources/misc/checksum.c:3-18 | the loop computes the checksum of the bytes, odd last byte included |
| `Checksum.OddIsPadded` | stage2/sources/misc/checksum.c:3-18 | an odd number of bytes has the checksum of the bytes with a zero behind them |
| `Checksum.FoldIsRemainder` | stage2/sources/misc/checksum.c:15-16 | two folds give the remainder modulo 65535, and 0 only for 0 |
| `Checksum.StoredChecksumVerifies` | stage2/sources/misc/checksum.c:3-18 | storing the checksum in its zeroed field at an even offset makes the checksum of the whole 0, for even and odd lengths up to 65535 |
| `Checksum.SwappedChecksum` | stage2/sources/misc/checksum.c:3-18 | on even lengths, swapping the bytes of every word swaps the checksum |
| `Icmp.NetworkPacket.ReverseSourceAndDestination` | stage2/sources/devices/network/Ethernet.c:17-25 | leaves the frame as it was: the addresses are exchanged twice |
| `Icmp.NetworkPacket.ReverseIPSourceAndDestination` | stage2/sources/devices/network/IP.c:23-28 | exchanges the two IP addresses and nothing else |
| `Icmp.NetworkPacket.ProcessICMPPacket` | stage2/sources/devices/network/ICMP.c:9-38 | an echo request becomes its reply: addresses exchanged, own MAC as source, type and code 0, both checksums verifying, all other bytes unchanged, sent once; any other packet is left alone |
| `Icmp.RewrittenIsReply` | stage2/sources/devices/network/ICMP.c:14-34 | the bytes written are a reply |

## Left out

- Devices: port and memory-mapped I/O, APIC, PCI, network drivers, keyboard and console. A disk command is one step that succeeds with the right sectors; a retried command is the same step.
- Service plumbing: parameters and results that travel in `params` and `returns` fields are arguments and results here; registration, dispatch tables and printing are not modelled.
- Assembly helpers (memcpy, memset, memcmp, rmemcmp, rscanc, strlen, fast_memswap) are plain sequence operations, as their header comments describe them.
- FrameAllocator.PhysicalMemoryManager.constructor: at most 1024 collections (2 GiB), because the frame numbers are multiplied in 32-bit `int`.
- CreatePhysicalPagesBitMap and AllocateUsableCollection; the bitmap that the allocator starts from is arbitrary here.
- PageTableRuns.WalkIsLastLinked: 2 MiB slots and slots with 4 KiB pages are kept apart, as the callers do; a slot freed by a release is not linked again, because its word 0xFFFFFFFFFFFFFFF0 is not the marker the code tests for.
- PageTableMachine.VirtualMemory.DeallocateVirtualMemoryBlock: nothing in the repository calls it. A freed block keeps its entries and the slots that point to it, so the tables no longer represent a map, and a later link through the block would show the old entries.
- ReservedWindows.MapKernelUsableMemory: the pool must have a block for each of the 375 slots; the code would store into the page of the all-ones address otherwise.
- ReservedWindows.MapWindow: the pool must have a block for each slot of the window, for the same reason.
- ReservedWindows.MapReservedMemory: pool blocks must suffice for all windows, and the windows must fit the mapped space; running out of either in the middle of a window is not modelled.
- ReservedWindows.RefreshReserved: at most 255 cores, since its 8-bit counter never reaches more; reloading the page directory register is left out.
- BootMap.MapLimitedUsableMemory: scans of at most 16 GiB, which is what the 16 PMD pages hold; the caller scans less.
- XmlMachine.VoidPtrStack.Push: a 129th item, which the source writes behind its array; XmlTree.TooDeep says exactly when that happens.
- XmlQueryMachine.XQuery.ParseXQueryItem: tags of at most 127 characters and room in the list of 32 steps; the source checks neither.
- XmlQueryMachine.SplitPath: paths shorter than 1024 characters with at most 32 steps, the sizes of the source's buffers.
- ReservedWindows.ReservedAddressTranslates: for ranges that start on a page, as the memory map delivers them.
- BlockService.c, whose sectors, blocks and bytes are mixed, so that no agreement with a direct read can be stated.
- The ATA write path: a remainder of zero sectors is replaced by a whole chunk there.
- DmaRead.ReadCompletes: the end offset stays inside the last chunk, and a start offset is for reads of one chunk that the end offset covers; in longer reads the code moves the first chunk only. Both callers in the repository pass 0 for both.
- MemoryMap.MemoryTable.AddPhysicalMemoryEntry: the table has room; the source does not check it.
- DmaMachine.DmaBuffer.ReadDMADisk: positive sector counts; a count of 0 would program the device with a zero count.
- AllocateSharedMemory and DeallocateSharedMemory as services; the bitmap helpers and the table loops they call are modelled.
- KernelHeap.RunSoundIffNoWrapPasses: the kernel range ends at least a page below 2^64; KernelHeap.SizesSafeIffFit assumes the same and a range that is not empty.
- spinlock_trylock and the `lapic > 0` mode of the lock, where the owner field is cleared after the lock word.
- malloc, valloc and memoryAllocatorAdjust (user memory, scaled in floating point).
- XmlMachine.XmlHeap.ParseXml: inputs on which C is undefined (more than 128 open elements, an end tag without a start tag, text outside the root closed by an end tag) are excluded by the precondition.
- XmlTree.ReadBack: trees have text in leaves only, tags without blanks, `>`, NUL, a leading `/` or `?`, or a trailing `/`, and attributes without `>` and NUL that do not end in `/`. The parser drops attributes, and so does the tree in the arena. The depth bound counts elements that are open at once.
- XmlQueryMachine.ExecXQuery: paths with at least one and at most 32 steps of at most 127 characters, shorter than 1024 characters in all; the source overruns its buffers beyond that.
- Message.ConvertTagToXML: one parameter, and its output is a sequence instead of a buffer of the size computed beforehand; with several parameters each gets its own `params` element.
- MessageMachine.GetValueFromTagMessage: the node found has a content that fits the value field; the source copies without a check.
- MessageMachine.PassParameter: data of 1 to 189 bytes, which is what the 256-byte value field can hold, and tags that fit a query step.
- Decimal.Atoi: strings of less than 65536 characters, since its index has 16 bits.
- Decimal: the character, string and hexadecimal directives of the format function.
- Base64 and Icmp: `|` between disjoint bit fields, shifts and masks are written as sums, products and remainders.
- Icmp.NetworkPacket.ProcessICMPPacket: the header lengths must be consistent with the frame; the source reads beyond the packet otherwise.
- HashTable.c, the regular-expression preprocessor, descriptor tables and the IPIoE worker queue.
