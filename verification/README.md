# A verified model of the SynOS memory manager

This project models the memory manager of the kernel in Dafny and proves what its parts promise each
other: the buddy allocator of a memory region, the chain of regions on top of it, the recursive page
tables and the finder of free virtual pages, and the kernel heap. Three smaller machines stand beside it:
the spinlock around the allocator, the clock driven by the RTC interrupt, and the scrolling text console.

`dafny verify dfyconfig.toml` checks everything.

## How it is laid out

| files | what they are |
|---|---|
| `Halving`, `Machine`, `Builds`, `Wrappers` | block arithmetic, 64-bit subtraction, shared datatypes |
| `Buddy` | the state of a region (bitmaps, counts, cached indices) and the allocator's operations on it |
| `BuddyBlocks`, `BuddySteps`, `BuddyReserve`, `BuddyReserveSource` | what each operation does to the free pages and to the cached state |
| `BuddyCanonical`, `BuddyInit`, `BuddyRuns` | canonical form and completeness, the initial decomposition, whole runs with clients |
| `BuddyFlag`, `BuddyFreeSource` | when the code as written leaves `mem_full` right and gives a block back |
| `Bitmaps`, `Region` | the ten bitmaps in one byte buffer; the region as a class over arrays, proved equal to `Buddy` step by step |
| `Chain`, `ChainSource` | the chain of regions and its moving cursor; when its answers as written are right |
| `LogOrder` | rounding a page count up to an order |
| `PageBits`, `PageWalk`, `PageEntries`, `PageRights`, `Paging`, `VirtualPages` | table addresses, four-level walks, page table entries, what they allow, the tables as a class fed with frames by the chain, the virtual page finder |
| `TablesSource` | what linking unchecked and uncleared frames shows |
| `Segments`, `Heap`, `HeapCanonical`, `HeapSource`, `HeapRuns`, `KernelHeap` | segment lists, `kmalloc` and `kfree`, the heap as a function of its blocks, when they are right as written, runs of both, the heap as a class |
| `PhysicalBlocks`, `HeapPages`, `PagedHeap` | the heap on pages of the finder, mapped to blocks of the chain: all layers put together, as steps and as a class |
| `Spinlock`, `Clock`, `Console`, `ConsoleScreen` | the three smaller machines |

Where the source works by changing things in place the model has a class whose methods have the source's
loops. Each such method is proved to do exactly what a function on values says, and the properties are
proved about those functions.

## Where the code departs from what it relies on

Several lines break a property that the rest of the program relies on. Operations with such a line take a
parameter `Build`: `Source` is the code line by line, `Repaired` the same code with that line mended. For
`Repaired` the property is proved outright; for `Source` there is either the exact condition under which it
holds, or a statement of what goes wrong, for all inputs.

| lines | what the code does | stated by |
|---|---|---|
| `kernel/page.c:559` | divides by the page size, not by the block size, so only single pages and the first block are found again | `BuddyRuns.OffsetOfAddress`, `BuddyRuns.SecondPairMissed`, `BuddyFreeSource.SourceGivesBack` |
| `kernel/page.c:570` | leaves the cached index of an order that had no free block; the next request is given block 0 | `BuddySteps.FreeBlockEffect`, `BuddyRuns.StaleIndexHandsOutBlockZero`, `BuddyRuns.PageGrantedTwice` |
| `kernel/page.c:557-561` | returns with the lock held | `Spinlock.HeldIffRejected`, `Spinlock.FreshFreeHeld`, `ChainSource.BackHoldsIff`, `Spinlock.StuckIffHeld`, `Spinlock.StuckForever` |
| `kernel/page.c:391,397,490,497,564-565` | marks a region full when one order is exhausted and never unmarks it | `BuddyFlag.FlagRightIff`, `BuddyFlag.RunFlagIff`, `BuddyFlag.UntouchedMarkedFull`, `ChainSource.SourceAnswersRight` |
| `kernel/page.c:415-416,419-422,538,546-548` | reservation descends to the left child only, compares with the wrong index and charges even if nothing was reserved | `BuddyReserveSource.SourceReserves`, `BuddyReserveSource.SourceKeepsInv`, `BuddyReserveSource.SourceAnswers`, `BuddyRuns.ThirdPageMissed`, `BuddyRuns.IndexLost` |
| `kernel/page.c:129,159,170` | the cursor may be NULL when a page is given back | `ChainSource.SourceBackIff`, `ChainSource.NextPageFailsIff`, `Chain.OneFailureLosesChain`, `ChainSource.UntouchedChainFails` |
| `kernel/page.c:229-243` | order 11 is taken for the mark that no bit was seen | `LogOrder.LogIsLeastOrder`, `LogOrder.LogForgets` |
| `kernel/page.c:338-343` | the bitmaps of many regions of up to 32772 pages do not fit their buffer | `Bitmaps.FitsIff`, `Bitmaps.LargeRegionsFit`, `Bitmaps.SmallRegionsOverrun` |
| `kernel/mm.c:59` | a merge forgets the room of the pointer between the two segments | `Segments.SourceMergeExact`, `Segments.MergedRoom` |
| `kernel/mm.c:90-92` | a large request, or one whose sum wraps, grows a header that is too small | `Heap.GrowthSuffices`, `Heap.SourceGrowsTooLittle`, `HeapSource.SourceMallocIff` |
| `kernel/mm.c:105` | the segment of a new header is given the size of the header | `HeapSource.SourceMallocIff`, `HeapSource.SourceServesIff`, `HeapRuns.SourceOverruns` |
| `kernel/mm.c:144` | looks for the payload sixteen pointers behind a segment | `HeapSource.SourceFreeIff`, `HeapSource.SourceFreeIdleIff`, `HeapRuns.SourceFree`, `HeapRuns.SourceWipes` |
| `kernel/mm.c:150` | subtracts from a NULL next pointer for the last segment | `Segments.FreedSizeExact` |
| `arch/X86_64/memory.c:67-69` | the address has bit 47 set and no sign extension, so every load faults | `Paging.Mmu.PageInfo`, `Paging.InfoAddressFaults` |
| `arch/X86_64/memory.c:96` | neither checks the new table nor clears it | `TablesSource.SourceTablesIff`, `TablesSource.SourceMapIff`, `PageWalk.StaleTable`, `PageWalk.NullTable` |
| `arch/X86_64/memory.c:97` | the entry of a new table does not let user code through, whatever the page below it is mapped for | `PageRights.MappedRights`, `PageRights.FirstPageDenied` |
| `kernel/page.c:61-75` | mapping at a chosen address does not look at the cursor of the finder | `VirtualPages.Finder.VpagesSmap` |

Two more remarks. `VPAGE_NO_CACHE` sets bit 3 of an entry, which `arch/X86_64/memory.h` names
`PAGE_CACHE_WRITE`, not the bit named `PAGE_CACHE_DISABLE`; the model follows the code. Physical address 0
is both the first page of a region that starts at 0 and the failure value; `BuddyRuns.ZeroIsFailure` says
exactly when the two are confused.

## Model

| member | source | states |
|---|---|---|
| Buddy.Scan | kernel/page.c:295-305 | the lowest free index from a start on; none only if none is left |
| BuddyBlocks.SplitKeeps | kernel/page.c:371-376 | splitting a free block keeps the set of free pages, their number and the separation of blocks |
| BuddyBlocks.MergeKeeps | kernel/page.c:442-447 | merging two free buddies keeps the set of free pages, their number and the separation of blocks |
| BuddyBlocks.TakeRemoves | kernel/page.c:473-484 | taking a free block removes exactly its 2^k pages |
| BuddyBlocks.GiveAdds | kernel/page.c:562-569 | giving back a block none of whose pages is free adds exactly its 2^k pages |
| BuddySteps.BlockSplitEffect | kernel/page.c:365-401 | the recursive split refills an empty order whenever a larger free block exists: the free pages stay, every count and cached index is right, and exactly one pair of free buddies appears, the first two of the lowest of the smallest larger free blocks |
| BuddySteps.AllocNone | kernel/page.c:488-500 | with nothing free from the order up, allocation fails and marks the region |
| BuddySteps.AllocSome | kernel/page.c:463-502 | otherwise one block whose pages were all free leaves the free pages, the first of its size in the lowest of the smallest free blocks large enough, and the whole invariant survives: bounds, separation, coalescing, counts, cached indices, free count |
| BuddySteps.AllocLowest | kernel/page.c:463-502 | with block m of order j the lowest free block of the least order from k up that has one, the answer is its first block of order k |
| BuddySteps.BlockMergeEffect | kernel/page.c:434-461 | the recursive merge removes the only pair of free buddies and keeps the free pages, counts and cached indices |
| BuddySteps.FreeBlockEffect | kernel/page.c:562-579 | freeing a busy block makes exactly its pages free, and keeps the invariant if and only if the cached index survives: the order had a free block, or the block is its first, or the line is mended |
| BuddyCanonical.WholeIsContained | kernel/page.c:434-461 | a block all of whose pages are free lies inside one free block |
| BuddyCanonical.ClearIsMaximal | kernel/page.c:454-460 | a bit is clear exactly when its block is all free and the block twice its size is not |
| BuddyCanonical.BitmapsFromPages | kernel/page.c:365-461 | canonical form: the ten bitmaps are a function of the set of free pages |
| BuddyCanonical.ZoneFromPages | kernel/page.c:295-305 | so are all counts, cached indices and the free count |
| BuddyCanonical.AllocFailsIffNoRun | kernel/page.c:463-502 | completeness: allocation fails if and only if no aligned run of 2^k pages is free |
| BuddyCanonical.AllocThenFree | kernel/page.c:463-581 | allocating and giving back restores the whole state |
| BuddyCanonical.FreeCountsPages | kernel/page.c:482-484 | the region's free count is the number of free pages |
| BuddyInit.OrderMaxFirst | kernel/page.c:283-294 | the order found is the first at which the halved count is odd, or the top one |
| BuddyInit.OrderMaxDivides | kernel/page.c:283-294 | 2^order divides the page count and, below the top order, is the highest power of two that does |
| BuddyInit.FreeAreaMapFresh | kernel/page.c:307-330 | from any partly built region the loop ends with every page free and the state right |
| BuddyInit.RegionMapFresh | kernel/page.c:332-358 | for every page count the initial state satisfies the invariant and has every page free |
| BuddyInit.FreshBlocks | kernel/page.c:307-330 | which blocks those are: all of the top order, and below it at most the last one, for each set bit of the count |
| BuddyReserve.ReserveEffect | kernel/page.c:508-552 | mended, a reservation succeeds if and only if every page of the block is free, then removes exactly those pages and keeps the invariant; otherwise it changes nothing |
| BuddyReserveSource.SourceReserves | kernel/page.c:508-552 | as written it removes exactly the block's pages with the right charge if and only if the block is free itself or is one of the two leftmost of its size in its free block |
| BuddyReserveSource.SourceAnswers | kernel/page.c:538-552 | as written it answers the address of the block in every case; where the block is not reserved no page changes and the region is charged all the same |
| BuddyReserveSource.SourceKeepsInv | kernel/page.c:402-433 | as written it keeps the whole invariant if and only if, besides, every cached index on the way survives |
| BuddyReserveSource.ChargedForNothing | kernel/page.c:546-548 | charging for pages that were not taken makes the free count wrong |
| BuddyRuns.OffsetOfAddress | kernel/page.c:559 | the block number comes back from the address of line 474; as written if and only if the order is 0 or the block is the first |
| BuddyRuns.OffsetBrackets | kernel/page.c:559 | for every address: the block number worked out is that of the block the address lies in; as written, that of the page |
| BuddyRuns.AllocAddress | kernel/page.c:472-484 | the address that pages_alloc answers is where the lowest of the smallest free blocks large enough starts |
| BuddyRuns.ZeroIsFailure | kernel/page.c:474-492 | the returned address is 0 exactly on failure or for block 0 of a region at 0 |
| BuddyRuns.AddressInside | kernel/page.c:557 | the address of a block of the region passes the range check |
| BuddyRuns.InitialGood | kernel/page.c:332-358 | the state after region_map satisfies what runs keep |
| BuddyRuns.AllocKeeps | kernel/page.c:463-502 | allocation keeps the partition into free pages and granted blocks |
| BuddyRuns.FreeKeeps | kernel/page.c:554-581 | so does giving back a granted block by any address inside it |
| BuddyRuns.AllowedFree | kernel/page.c:554-581 | an allowed call with any address gives back exactly the block that the address falls into |
| BuddyRuns.SourceReserveTakes | kernel/page.c:508-552 | so does a reservation that meets the condition above |
| BuddyRuns.StepKeeps | kernel/page.c:463-581 | every operation keeps it |
| BuddyRuns.RunKeeps | kernel/page.c:463-581 | partition: after any run the free blocks and the granted blocks are pairwise disjoint and cover exactly the region |
| BuddyRuns.LiveIsBusy | kernel/page.c:463-581 | no page of a granted block is free, so no page is handed out twice |
| BuddyRuns.AllBackRestores | kernel/page.c:307-581 | conservation: once all granted blocks are back, in whatever order, the state is bit for bit the initial one |
| BuddyRuns.SecondPairMissed | kernel/page.c:559 | the second block of two pages is taken for the third |
| BuddyRuns.IndexLost | kernel/page.c:415-416 | reserving the third block of order 8 of 1024 free pages as written takes that block and leaves a cached index wrong |
| BuddyRuns.ThirdPageMissed | kernel/page.c:535-539 | reserving the third page of 512 free ones as written does not take that page alone |
| BuddyFlag.StepFlag | kernel/page.c:463-581 | what each call as written does to the flag and to the free count |
| BuddyFlag.FlagRightIff | kernel/page.c:482-497 | exactly when a call as written leaves the flag right, told from the state before it: the request can be served or nothing is free, and nothing is given back to an exhausted region; a flag set too early becomes right only when the last free pages are taken |
| BuddyFlag.RunFlagIff | kernel/page.c:463-581 | the same over every run |
| BuddyFlag.FullStays | kernel/page.c:564-565 | as written a region once marked full stays so through every run |
| BuddyFlag.UntouchedMarkedFull | kernel/page.c:488-492 | a request of the top order marks an untouched region of fewer than 512 pages full |
| BuddyFreeSource.SourceGivesBack | kernel/page.c:554-581 | as written a block is given back and the invariant kept if and only if the division finds it and the cached index survives |
| BuddyRuns.StaleIndexHandsOutBlockZero | kernel/page.c:568-571 | whenever freeing leaves a stale cached index, the next request of that order is given block 0, which is not free |
| BuddyRuns.PageGrantedTwice | kernel/page.c:568-571 | three calls on two pages after which a page a client holds is handed out again |
| Bitmaps.FitsIff | kernel/page.c:338-355 | for every page count: the ten bitmaps lie inside the buffer if and only if a condition on the number of the first bitmap's last byte holds |
| Bitmaps.FitsAtMultiple | kernel/page.c:338-355 | that condition where this number is a multiple of 1024 |
| Bitmaps.LargeRegionsFit | kernel/page.c:338-355 | from 32773 pages on they fit |
| Bitmaps.SmallRegionsOverrun | kernel/page.c:338-355 | 32772 pages do not fit, nor do up to eight, which need ten bytes and get one or two |
| Bitmaps.MapsDisjoint | kernel/page.c:348-355 | the bitmaps of two orders do not overlap |
| Bitmaps.BitsCover | kernel/page.c:454-460 | every index an operation computes, and its buddy, has a bit in the bitmap of its order |
| Bitmaps.PaddingReadsOne | kernel/page.c:573-578 | the buddy test of the last block of an odd count reads a one of the same bitmap |
| Bitmaps.ByteSetAt | kernel/page.c:257-261 | setting one bit of a byte changes no other |
| Bitmaps.ByteClearAt | kernel/page.c:262-266 | clearing one bit of a byte changes no other |
| Bitmaps.SetWrite | kernel/page.c:257-261 | block_set on the buffer removes one index of one order from the bitmaps, and nothing else |
| Bitmaps.ClearWrite | kernel/page.c:262-266 | block_clear on the buffer adds one index of one order, and nothing else |
| Bitmaps.AllSet | kernel/page.c:343 | a buffer of 0xFF bytes is ten empty bitmaps |
| Region.Region.LayOut | kernel/page.c:346-355 | the loop puts each bitmap where the layout says |
| Region.Region.constructor | kernel/page.c:332-358 | region_map on arrays builds exactly the initial state |
| Region.Region.BlockCheck | kernel/page.c:252-256 | reads a bit of the buffer |
| Region.Region.BlockSet | kernel/page.c:257-261 | the buffer holds the bitmaps without that block |
| Region.Region.BlockClear | kernel/page.c:262-266 | the buffer holds the bitmaps with that block |
| Region.Region.FreeAreaLength | kernel/page.c:277-282 | the loop halves as often as the order says |
| Region.Region.OrderMax | kernel/page.c:283-294 | the loop computes the order of the decomposition |
| Region.Region.FindNextFreePage | kernel/page.c:295-305 | the loop finds the next free index, or resets the count |
| Region.Region.FreeAreaMap | kernel/page.c:307-330 | the goto loop builds the decomposition in place |
| Region.Region.BlockSplit | kernel/page.c:365-401 | the recursive split in place equals the split on values |
| Region.Region.ZBlockSplit | kernel/page.c:402-433 | the targeted split in place equals the one on values |
| Region.Region.BlockMerge | kernel/page.c:434-461 | the recursive merge in place equals the merge on values |
| Region.Region.PagesAlloc | kernel/page.c:463-502 | allocation in place, the lock given back, and the address: where the lowest of the smallest free blocks large enough starts |
| Region.Region.MakeRoom | kernel/page.c:525-539 | the two loops that open the way to a block |
| Region.Region.PagesReserve | kernel/page.c:508-552 | reservation in place and its address |
| Region.Region.AddBlock | kernel/page.c:562-571 | what freeing does before the buddy is looked at |
| Region.Region.GiveBack | kernel/page.c:562-579 | what freeing does once the address is accepted |
| Region.Region.SplitAt | kernel/page.c:411-423 | one targeted split in place |
| Region.Region.PagesFree | kernel/page.c:554-581 | freeing in place, for any address; the lock is left taken exactly when the value-level operation says so |
| Chain.FindNext | kernel/page.c:86-98 | the first usable region from a place on |
| Chain.UsableMeans | kernel/page.c:86-98 | a usable region is available, readable and writable, not bad, preserved or protected, and holds a page |
| Chain.FindFree | kernel/page.c:99-112 | the first usable region not marked full |
| Chain.FindRegion | kernel/page.c:113-121 | the first region that holds the address; none only if none does |
| Chain.RegionChain.FindNextRegion | kernel/page.c:86-98 | the loop finds it |
| Chain.RegionChain.FindFreeRegion | kernel/page.c:99-112 | the goto loop ends and finds it, and records that memory is out if there is none |
| Chain.RegionChain.FindRegionOf | kernel/page.c:113-121 | the loop finds it |
| Chain.RegionChain.AllocPage | kernel/page.c:123-134 | the goto loop ends with exactly the chain state and page the specification gives |
| Chain.RegionChain.AllocPages | kernel/page.c:135-151 | the same for blocks |
| Chain.RegionChain.FreePages | kernel/page.c:164-174 | the same for giving back, and whether the call faults, with the state it leaves then |
| Chain.PageFromKeeps | kernel/page.c:123-134 | alloc_page keeps the order of the chain, the cursor and the fullness before it; it fails if and only if every usable region is marked full; otherwise one page of the first usable region that is not leaves the free ones, and the cursor stands there |
| Chain.PageFailsIffNonePage | kernel/page.c:123-134 | mended, it fails if and only if no usable region has a free page |
| Chain.TryFromServes | kernel/page.c:140-149 | the first region asked that can serve a request serves it |
| Chain.PagesFromServes | kernel/page.c:135-151 | mended, alloc_pages fails if and only if no usable region has an aligned run, and then changes nothing; the cursor never moves |
| Chain.RegionOfAddress | kernel/page.c:113-121 | with regions in order, the region found is the one that gave the address |
| Chain.PagesBackKeeps | kernel/page.c:164-174 | a block goes back to the region that gave it, no other region changes, the cursor stands there unless it stood before it, and every usable region before the cursor is still full |
| Chain.PagesBackMoves | kernel/page.c:164-174 | for every address and either build: when the call faults, and otherwise which region may change and that the cursor ends at the earlier of that region and its old place |
| Chain.OneFailureLosesChain | kernel/page.c:129-170 | as written one unserved request makes every later alloc_page fail, whatever is free, and after that giving back any address reads a NULL cursor |
| ChainSource.SourceServes | kernel/page.c:135-151 | as written alloc_pages keeps the chain's invariant; the first region asked that has a block serves, those before it are marked full |
| ChainSource.SourceFailsIff | kernel/page.c:135-151 | as written it fails if and only if memory is out or no region that is asked has a block large enough |
| ChainSource.SourceAnswersRight | kernel/page.c:135-151 | as written it fails exactly for want of a run, if and only if a region that is asked has one or no region skipped for its flag has |
| ChainSource.SourcePageAnswersRight | kernel/page.c:123-134 | the same of alloc_page: some usable region is not marked full, or none that is has a free page |
| ChainSource.NextPageFailsIff | kernel/page.c:135-151 | the next alloc_page fails if and only if this request failed or the region that served it was the last one left |
| ChainSource.UntouchedChainFails | kernel/page.c:135-151 | a chain of one untouched region on which one request makes every page unobtainable |
| ChainSource.SourceBackIff | kernel/page.c:164-174 | as written a block goes back to its region, with the chain's invariant kept and the cursor at the earlier of that region and its old place, if and only if there is a cursor, the division finds the block and the cached index survives |
| ChainSource.BackIsServed | kernel/page.c:135-174 | once a block is back, the next alloc_pages asks its region if and only if it is not behind the cursor or not marked full, which mended it never is, and if it asks it serves a request of that order |
| ChainSource.BackHoldsIff | kernel/page.c:164-174 | as written free_pages leaves a lock held if and only if the address lies in a region and its block is free already |
| LogOrder.LogOrder | kernel/page.c:227-245 | the loop computes what the lemmas below are about |
| LogOrder.LogIsLeastOrder | kernel/page.c:227-245 | the result is the least order that fits if and only if the argument is at most 1024 or at least 4096 |
| LogOrder.LeastOrderUnique | kernel/page.c:227-245 | there is only one least order |
| LogOrder.LogForgets | kernel/page.c:229-243 | from 2048 to 4095 the highest bit is forgotten: the result is that of the rest |
| LogOrder.LogOf2049 | kernel/page.c:229-243 | 2049 pages get order 0 |
| PageBits.GetTableAddress | arch/X86_64/memory.c:35-46 | the address is canonical and aligned, its path is 511 once per level followed by the path of v, and it picks the entry of v's walk at that level |
| PageBits.AddressReaches | arch/X86_64/memory.c:35-46 | the same of the value of the loop, for every 64-bit address and level |
| PageBits.FilledDigits | arch/X86_64/memory.c:39-40 | the or-ing loop sets exactly the topmost indices to 511 |
| PageBits.ShiftedSplit | arch/X86_64/memory.c:37-38 | shifting moves the path down and leaves the entry's offset |
| PageBits.SignDigits | arch/X86_64/memory.c:41-44 | sign extension keeps the path and makes the address canonical |
| PageWalk.RecursiveMapping | arch/X86_64/memory.c:22-46 | with the root naming itself, a table address resolves to the entry that the walk of v uses at that level, and faults exactly when that walk ends before |
| PageWalk.SelfSteps | arch/X86_64/memory.c:26-29 | leading entries of 511 stay at the root, however many |
| PageWalk.SelfMapKeeps | arch/X86_64/memory.c:22-33 | pga_init makes the tree name itself and moves no page |
| PageWalk.LevelPresent | arch/X86_64/memory.c:48-61 | a walk gets one level further exactly when the entry is present |
| PageWalk.WalkOwned | arch/X86_64/memory.c:89-104 | a walk ends in the table that hangs there: no two paths share a table |
| PageWalk.StoreElsewhere | arch/X86_64/memory.c:101 | a store into a table entry leaves every walk that does not go through it |
| PageWalk.StoreThrough | arch/X86_64/memory.c:101 | a walk through it continues from the frame stored |
| PageWalk.LeafMaps | arch/X86_64/memory.c:123-126 | a store into a last-level table gives one page its entry and keeps every other |
| PageWalk.LinkShows | arch/X86_64/memory.c:96-101 | linking a frame as a table shows below it exactly what its words say, and nothing else changes |
| PageWalk.BlankLinkHides | arch/X86_64/memory.c:96-101 | linking a blank frame changes the mapping of no page |
| PageWalk.StaleTable | arch/X86_64/memory.c:96-101 | linking a frame as a table of any level changes no page if and only if no walk over the words it holds arrives |
| PageWalk.StaleLastTable | arch/X86_64/memory.c:96-101 | for a last-level table: if and only if no word of it is present |
| PageWalk.NullTable | arch/X86_64/memory.c:96-101 | after a failed alloc_page frame 0 becomes the table, and no page changes if and only if no walk over its words arrives |
| PageWalk.EntryTranslates | arch/X86_64/memory.c:73-81 | a page's translation is what its entry says |
| PageWalk.AgreeElsewhere | arch/X86_64/memory.c:96-101 | memories that differ in one table entry have the same walks but those through it |
| PageWalk.ClearKeeps | arch/X86_64/memory.c:96 | clearing a frame that is no table keeps the tree |
| TablesSource.LinkResolves | arch/X86_64/memory.c:99-101 | each store of page_table_alloc goes to the entry its table address leads to |
| TablesSource.SourceTablesIff | arch/X86_64/memory.c:89-104 | the whole call as written: no page changes if and only if no walk from the first frame linked arrives, over the words those frames hold and the links stored |
| TablesSource.SourceMapIff | arch/X86_64/memory.c:118-127 | one page of pga_map as written: no other page changes if and only if no such walk arrives anywhere else |
| TablesSource.SourceTablesBlank | arch/X86_64/memory.c:89-104 | as written no page changes when no allocation fails and the frames happen to be blank |
| PageEntries.EntryMeans | arch/X86_64/memory.c:107-123 | every requested flag bit and the frame, masked to bits 12 to 51, are in the entry |
| PageRights.LinkBits | arch/X86_64/memory.c:96-97 | the entry of a new table is present, names the frame, allows writing and the fetch of instructions, and keeps user code out |
| PageRights.MappedRights | arch/X86_64/memory.c:89-129 | exactly what a page that pga_map mapped allows, over the entries of all four levels: writing if and only if flag 2 was not given and no table there before forbids it, instructions likewise, user code if and only if flag 4 was given and no table had to be added |
| PageRights.OthersRights | arch/X86_64/memory.c:105-129 | every other page that was mapped allows exactly what it allowed |
| PageRights.FirstPageDenied | arch/X86_64/memory.c:97 | the first page mapped for user code under an empty root cannot be reached by it |
| PageRights.InitAllows | arch/X86_64/memory.c:27-29 | the entry that pga_init stores forbids nothing |
| PageRights.TablesStay | arch/X86_64/memory.c:89-104 | tables that can all be written, or that instructions may all be fetched through, stay so |
| PageRights.EntryWritable | arch/X86_64/memory.c:99-101 | under writable tables, the root's own entry included, every table entry that has a table address can be stored to through it |
| PageEntries.DistinctPages | arch/X86_64/memory.c:118-124 | the pages of a mapped range have different paths |
| PageEntries.MapTranslates | arch/X86_64/memory.c:105-129 | after pga_map each byte of page i is the byte of frame i at the same offset |
| PageEntries.OthersTranslate | arch/X86_64/memory.c:105-142 | every page outside the range translates as before |
| PageEntries.UnmapUndoesMap | arch/X86_64/memory.c:105-142 | unmapping a range that was absent before it was mapped restores every mapping |
| Paging.LinkTable | arch/X86_64/memory.c:96-101 | a new table keeps the tree and every page, is reached, is empty, and is linked by an entry that is present and writable |
| Paging.InfoAddressFaults | arch/X86_64/memory.c:67-69 | the address that page_info loads from is never canonical |
| Paging.Mmu.constructor | arch/X86_64/memory.c:22-33 | pga_init establishes the tree without moving a page: the one entry it stores is present, writable and names the root |
| Paging.Mmu.PageIsPresent | arch/X86_64/memory.c:48-61 | true if and only if the walk gets past that level; no load faults |
| Paging.PageServed | kernel/page.c:123-134 | alloc_page gives a frame that was free and is not afterwards |
| Paging.TableAdded | arch/X86_64/memory.c:96-101 | a table more keeps every table off the free pages |
| Paging.Mmu.AllocPage | arch/X86_64/memory.c:96 | a frame from the chain that is no table, cleared; no page changes; none only when every region is full |
| Paging.Mmu.PageTableAlloc | arch/X86_64/memory.c:89-104 | the missing tables appear, top down, on pages that were free, each linked by a present and writable entry; no other entry of a table and no page changes; it fails only when every region is full |
| Paging.Mmu.PgaMap | arch/X86_64/memory.c:105-129 | the pages mapped get frame and flags, every other page keeps its entry even when tables are added, tables are linked as above, no access faults, and all pages are mapped unless every region is full |
| Paging.Mmu.PgaUnmap | arch/X86_64/memory.c:130-142 | exactly the pages of the range become absent, and no entry that links a table changes |
| Paging.Mmu.PageInfo | arch/X86_64/memory.c:62-72 | mended, the entry or 0; as written it faults exactly for present pages |
| Paging.Mmu.PgaGetPhysAddr | arch/X86_64/memory.c:73-81 | mended, the frame behind the page, 0 exactly as for an absent page; as written it faults for every page that has one |
| VirtualPages.OutsideKept | kernel/page.c:36-60 | mapping a run leaves the other pages of the stretch as they were |
| VirtualPages.CursorMapped | kernel/page.c:61-75 | the cursor's page is still absent if and only if it is not in the range mapped |
| VirtualPages.Finder.FindFree | kernel/page.c:18-25 | the first absent page from an address on |
| VirtualPages.Finder.VpageMap | kernel/page.c:36-42 | the cursor's page, absent before, is mapped and the cursor moves to the first absent page from there on |
| VirtualPages.Finder.RunIsFree | kernel/page.c:47-51 | the inner loop decides whether a run is absent |
| VirtualPages.Finder.FindRun | kernel/page.c:45-58 | the two loops find the first run of absent pages |
| VirtualPages.Finder.VpagesMap | kernel/page.c:43-60 | that run, at a page boundary and inside its half, is mapped, no mapped page is touched, and the cursor, if it stood there, moves to the first absent page behind the run, and otherwise stays |
| VirtualPages.Finder.VpagesSmap | kernel/page.c:61-75 | mapping at a chosen address leaves the cursor on an absent page if and only if the range does not cover it |
| Segments.LiveApart | kernel/mm.c:117-123 | two payloads of a list that tiles are disjoint, with a pointer between them |
| Segments.LiveInside | kernel/mm.c:115-123 | every payload lies inside its header |
| Segments.PointersSpared | kernel/mm.c:117-123 | no payload covers the pointer of a segment |
| Segments.MaxSize | kernel/mm.c:44-51 | a true maximum: an upper bound that some segment attains |
| Segments.FirstFit | kernel/mm.c:110-112 | the first segment with room |
| Segments.CarveLive | kernel/mm.c:115-124 | carving hands out one block, of exactly the bytes asked for if the rest has room for a pointer and a byte and of the whole segment otherwise, and keeps every other block and the tiling |
| Segments.CarveCoalesced | kernel/mm.c:117-124 | carving leaves no two free neighbours |
| Segments.MergedCoalesced | kernel/mm.c:53-65 | merging leaves no two free neighbours |
| Segments.MergedLive | kernel/mm.c:53-65 | mended, merging moves no block and keeps the tiling |
| Segments.SourceMergeExact | kernel/mm.c:59 | as written the sizes stay exact if and only if there is nothing to merge |
| Segments.MergedRoom | kernel/mm.c:53-65 | each pointer that merging does away with adds 16 bytes to what the free segments record; as written none adds any |
| Segments.FreedSizeExact | kernel/mm.c:150 | the size computed is the extent; as written if and only if the segment is not the last |
| Segments.ReleasedLive | kernel/mm.c:150-155 | giving a segment back takes exactly its block off and keeps tiling and coalescing |
| Segments.ReleasedTwice | kernel/mm.c:150-155 | giving back a free segment changes nothing |
| Segments.NothingLive | kernel/mm.c:53-65 | a coalesced list with nothing handed out is one segment |
| Heap.FirstHeader | kernel/mm.c:81-86 | the first header whose cached maximum suffices |
| Heap.FindHeader | kernel/mm.c:137-139 | the header whose pages hold the address |
| Heap.CachedMaximum | kernel/mm.c:81-86 | a header is found by its cached maximum if and only if some segment has room |
| Heap.GrownInv | kernel/mm.c:100-106 | a new header satisfies the heap's invariant if and only if its segment is given the room that is there |
| Heap.GrowthSuffices | kernel/mm.c:90-101 | the header grown has room for the request if and only if 512 pages suffice, and then it is the smallest that has |
| Heap.SourceGrowsTooLittle | kernel/mm.c:90-92 | a request for 2049 pages grows one page |
| Heap.MallocKeeps | kernel/mm.c:67-128 | kmalloc keeps the invariant, never runs off a list, answers NULL exactly when it must, and otherwise hands out one new block with room for what was asked and at most 16 bytes more, and moves no other |
| HeapCanonical.SegmentsFromLive | kernel/mm.c:53-65 | the blocks handed out determine a list of segments without free neighbours |
| HeapCanonical.HeapFromLive | kernel/mm.c:67-159 | canonical form: on the same headers, the blocks handed out determine every segment, size and maximum |
| HeapCanonical.MallocCuts | kernel/mm.c:79-127 | in either build, if some segment has room, the block starts behind the pointer of the first that has, in chain order, with exactly the bytes asked for or the whole segment, and no other block is added or changed |
| HeapCanonical.MallocGrows | kernel/mm.c:87-127 | otherwise, mended, it is cut in the same way from the one segment of the header grown |
| HeapCanonical.MallocThenFree | kernel/mm.c:67-159 | kmalloc and then kfree restores every header, segment and maximum; a header grown is left as one free segment |
| HeapCanonical.FreesCommute | kernel/mm.c:129-159 | the order in which two blocks are given back does not matter to the state |
| Heap.FreeKeeps | kernel/mm.c:129-159 | kfree takes exactly the block at its argument off; for any other argument nothing changes |
| Heap.FreeWipesBlock | kernel/mm.c:150-152 | kfree clears exactly the block it is given |
| HeapSource.SourceMallocIff | kernel/mm.c:67-128 | as written kmalloc hands out a block with room and keeps the invariant, or answers NULL and changes nothing, if and only if nothing is asked for, a free segment has room, or the heap cannot grow |
| HeapSource.SourceServesIff | kernel/mm.c:67-128 | as written it serves a request rightly if and only if a free segment has room |
| HeapSource.SourceFreeIdleIff | kernel/mm.c:129-159 | for every argument: kfree as written changes nothing if and only if it finds no segment, or one whose recorded size is what it computes |
| HeapSource.SourceFreeIff | kernel/mm.c:129-159 | for every argument: it gives back exactly that block if and only if there is nothing to give back and it notices |
| HeapSource.GrownTakeWrong | kernel/mm.c:105-123 | no block cut from a header that the code grew is right |
| HeapRuns.BootInv | kernel/mm.c:19-35 | mm_init leaves a heap that satisfies the invariant |
| HeapRuns.StepKeeps | kernel/mm.c:67-159 | every call keeps the invariant, as written under the conditions above |
| HeapRuns.RunKeeps | kernel/mm.c:67-159 | after any run of mended calls with any arguments the segments tile, neighbours are merged, maxima are true, and the blocks are those asked for and not given back, each with the room asked for and at most 16 bytes more; after as-written runs that meet the conditions the same, but blocks given back stay handed out |
| HeapRuns.NothingComesBack | kernel/mm.c:129-159 | as written no block is ever given back in such a run |
| HeapRuns.BlocksApart | kernel/mm.c:67-159 | no two blocks overlap |
| HeapRuns.BlockSafe | kernel/mm.c:67-159 | a block lies inside one header's pages and covers no header and no segment pointer of any header |
| HeapRuns.AllFreed | kernel/mm.c:129-159 | once all blocks are back, in whatever order, each header is one free segment of its size less both structs, and its maximum says so |
| HeapRuns.SourceFree | kernel/mm.c:143-152 | as written kfree of a block does nothing if and only if no segment starts 256 bytes before it, and otherwise clears memory to the end of the address space and on from 0 to the segment behind that one |
| HeapRuns.SourceWipes | kernel/mm.c:143-152 | for any argument: as written it clears from there to the next segment, or to 0 if there is none, around the end of the address space if need be |
| HeapRuns.SourceOverruns | kernel/mm.c:105-123 | as written the first block from a grown header leaves a free segment that claims 40 bytes past the end |
| PhysicalBlocks.ServedWasOn | kernel/page.c:135-151 | a block served lies inside its region and was all free pages |
| PhysicalBlocks.ServedIsOff | kernel/page.c:135-151 | no page of it is free afterwards |
| PhysicalBlocks.OffStays | kernel/page.c:135-151 | what was not free before a block is served is not free afterwards |
| PhysicalBlocks.ServedDisjoint | kernel/page.c:135-151 | a block served is disjoint in memory from everything that was not free, in whichever region |
| PhysicalBlocks.GrantIsOff | kernel/page.c:463-502 | every block that clients hold is off the free pages |
| HeapPages.HeaderAdded | kernel/mm.c:197-203 | a header on pages the finder found absent, mapped to a block just served, lies apart from every other header, on memory of its own, and off every table, the new ones included |
| HeapPages.GrantedPages | kernel/mm.c:94-104 | what kmalloc assumes of the pages it is granted follows from the steps of alloc_pages and vpages_map |
| HeapPages.BootSane | kernel/mm.c:13-40 | mm_init establishes the invariants of the chain, the tables, the heap, and that they keep apart |
| HeapPages.MallocSane | kernel/mm.c:67-128 | kmalloc, down to the regions and the page tables, keeps them |
| HeapPages.FreeSane | kernel/mm.c:129-159 | so does kfree |
| HeapPages.MapMoves | kernel/page.c:36-60 | so does mapping absent pages to anything, with frames for tables from the same chain |
| HeapPages.OthersFreeSane | kernel/page.c:164-174 | so does giving back a block that is neither a header's nor a table's |
| HeapPages.TraceSane | kernel/mm.c:67-203 | so does every run of kmalloc, kfree and other users of alloc_page, alloc_pages, free_pages and the finder |
| HeapPages.ByteOf | kernel/mm.c:197-203 | each byte of a header translates to the byte at the same place of its block |
| HeapPages.NoAliasing | kernel/mm.c:67-203 | in every reachable state two different bytes of live blocks are two different bytes of physical memory, and none lies in a page table |
| HeapPages.BlocksWritable | kernel/mm.c:67-203 | in every reachable state each byte of live blocks can be written, the entries of all four levels allowing it, if the tables that the loader left do |
| PagedHeap.PagedHeap.GetFreePages | kernel/mm.c:197-203 | alloc_pages and vpages_map, run one after the other, make the step that kmalloc relies on |
| PagedHeap.PagedHeap.Kmalloc | kernel/mm.c:67-128 | kmalloc on the finder, the tables and the chain is a step of HeapPages, keeps every layer's invariant, and never runs off a list |
| PagedHeap.PagedHeap.Kfree | kernel/mm.c:129-159 | so is kfree |
| PagedHeap.MmInit | kernel/mm.c:13-40 | mm_init leaves a heap of one page in which all of that holds, or panics, and then every region is full |
| PagedHeap.MallocDone | kernel/mm.c:87-107 | what the two halves of kmalloc do together is one step |
| KernelHeap.KernelHeap.constructor | kernel/mm.c:19-35 | mm_init |
| KernelHeap.KernelHeap.FindSizeMax | kernel/mm.c:44-51 | the loop finds the true maximum |
| KernelHeap.KernelHeap.PointersMerge | kernel/mm.c:53-65 | the loop merges as the recursive specification does |
| KernelHeap.KernelHeap.Kmalloc | kernel/mm.c:67-128 | the chain and answer are exactly those of the specification |
| KernelHeap.KernelHeap.TakeFrom | kernel/mm.c:109-127 | the same of its second half |
| KernelHeap.KernelHeap.Kfree | kernel/mm.c:129-159 | the chain is exactly that of the specification |
| KernelHeap.KernelHeap.Give | kernel/mm.c:149-156 | the same of its second half |
| Spinlock.TraceOrderly | mutils/impl/spinlock.c:3-18 | in every state of every run of any number of CPUs, lock, critical section and results are those of the sequential run so far |
| Spinlock.NextOrderly | mutils/impl/spinlock.c:3-18 | every step keeps that |
| Spinlock.MutualExclusion | mutils/impl/spinlock.c:3-18 | at most one CPU is inside, and then the lock is taken |
| Spinlock.SequentialWhenFree | kernel/page.c:467-580 | whenever the lock is free, region and results equal the sequential run in the order of lock acquisition, and the allocator's invariant holds |
| Spinlock.HeldIffRejected | kernel/page.c:556-561 | as written a call with any address keeps the lock if and only if, before it, the address lies outside the region or its block is free |
| Spinlock.FreshFreeHeld | kernel/page.c:556-561 | giving back a block of an untouched region, or an address past one, keeps the lock |
| Spinlock.StuckIffHeld | kernel/page.c:556-561 | the lock is lost if and only if some call met that condition |
| Spinlock.RepairedNeverHolds | kernel/page.c:556-561 | mended, no call keeps it |
| Spinlock.AllowedNeverHolds | kernel/page.c:556-561 | as written, no call of clients that give back only what they hold does |
| Spinlock.StuckForever | mutils/impl/spinlock.c:3-6 | a lost lock stays lost and nobody gets in again |
| Clock.RtcClock.MsUpdate | arch/X86_64/cmos.c:113-128 | with an interrupt counted that the fields do not show yet, they show it afterwards |
| Clock.RtcClock.Irq8 | arch/X86_64/interrupts/isr.asm:178-185 | after each interrupt the fields stand exactly 122 microseconds a tick and 72 every 1024 ticks past the start, less than 72 behind real time and never ahead |
| Clock.ClockShows | arch/X86_64/cmos.c:113-128 | after n ticks the clock has advanced exactly 122 n + 72 floor(n / 1024) microseconds, with milliseconds and seconds to match |
| Clock.NoDrift | arch/X86_64/cmos.c:116-120 | the lag behind n / 8192 seconds is never negative and always below 72 microseconds |
| Clock.WholeSeconds | arch/X86_64/cmos.c:113-128 | 8192 k ticks add k seconds and nothing else |
| ConsoleScreen.TextScreen.constructor | arch/X86_64/printk.c:129-142 | a blank screen over a blank tape |
| ConsoleScreen.TextScreen.SetCursorPos | arch/X86_64/printk.c:58-66 | the 16-bit cursor |
| ConsoleScreen.TextScreen.ClearScreen | arch/X86_64/printk.c:76-83 | a blank screen with the cursor at its start |
| ConsoleScreen.TextScreen.MoveUp | arch/X86_64/printk.c:69-73 | every row takes the one below, the last becomes blank |
| ConsoleScreen.TextScreen.Scroll | arch/X86_64/printk.c:67-75 | rows move up and the cursor with them |
| ConsoleScreen.TextScreen.Put | arch/X86_64/printk.c:89-118 | one character, with the cursor cut to 16 bits: if it is printed, it is in the cell under the cursor, white on black |
| ConsoleScreen.TextScreen.ScrollIntoView | arch/X86_64/printk.c:119-123 | the scroll loop ends with the cursor on the screen |
| ConsoleScreen.TextScreen.PrintAll | arch/X86_64/printk.c:87-124 | the loop over the string, on every screen |
| ConsoleScreen.TextScreen.ArchPrint | arch/X86_64/printk.c:85-127 | on every screen buffer and cursor become what the specification says; where the cursor cannot wrap they stay the window of the unbounded tape that the string writes |
| Console.TypedFollows | arch/X86_64/printk.c:89-118 | a character that does not wrap the cursor does to the screen what it does to the tape |
| Console.ScrolledMirrors | arch/X86_64/printk.c:119-123 | scrolling moves the window until it shows the position |
| Console.PrintedMirrors | arch/X86_64/printk.c:85-127 | where the cursor cannot wrap, for every string the screen is the window of the tape, blank below what was written, with the cursor inside |
| Console.MirrorsIff | arch/X86_64/printk.c:34-127 | the screen is that window for every string if and only if the screen leaves room for one line feed and one tab |
| Console.PrintedParts | arch/X86_64/printk.c:85-127 | how output is cut into calls does not matter to the screen either |
| Console.PrintParts | arch/X86_64/printk.c:85-127 | how output is cut into calls does not matter |
| Console.PrintSane | arch/X86_64/printk.c:119-123 | the position stays inside the window |
| Console.CursorWraps | arch/X86_64/printk.c:34 | no cursor step wraps at 16 bits if and only if the screen leaves room for one line feed and one tab |
| Console.CursorMeans | arch/X86_64/printk.c:89-118 | where each character takes the cursor: one cell on, four for a tab, one row down for a vertical tab, back to the first cell of the row for a return, on to that of the next for a line feed, one cell back for a backspace except at the start |
| Console.EntryMeans | arch/X86_64/printk.c:36-47 | a cell is the character in the low byte, foreground 15 (white) in the next four bits, background 0 (black) in the top four |
| Console.BlankScreen | arch/X86_64/printk.c:76-83 | every cell of a cleared screen is character 0, white on black, and the cursor is at its start |
| Console.PrintText | arch/X86_64/printk.c:85-127 | a text without control characters lies on the tape in order from the position on, the position is behind it, no other cell is touched, and the window moves just far enough |
| Console.TextShown | arch/X86_64/printk.c:85-127 | where the cursor cannot wrap, each character of a text that is still in view is in its cell of the buffer, white on black |

## Left out

- The order-11 and wrap-around cases of a heap request (`kernel/mm.c:90-92`) end, as written, in a read
  through a NULL segment; the model ends in the answer `Fault` and does not go on.
- Sizes added in `pointers_merge` and `kmalloc` are not reduced modulo 2^64: under the invariant they cannot
  wrap, and after a fault of the lines above the model's numbers are larger than the machine's.
- The contents of heap blocks and pages: `memset` appears as the number of bytes cleared.
- The linked lists of headers, segments and regions are sequences in list order; each element carries its
  address, so in-band pointers are there, but a list with a cycle or a shared tail is not.
- Region.Region.constructor: needs a region whose bitmaps fit their buffer, because otherwise they are written past
  its end; `FitsIff` says exactly which regions those are.
- Region.Region.PagesFree: as written, an address inside the region whose quotient is past the bitmap reads
  foreign memory; that is a precondition.
- BuddyFreeSource.SourceGivesBack: a bit past the bitmap counts as one; whatever it really reads, the block is not
  given back.
- Region.Region.PagesAlloc: starts with the lock free and the invariant in force; what other CPUs do meanwhile
  is the subject of `Spinlock`.
- Region.Region.PagesReserve: an index past the bitmap of its order reads foreign memory; that is a precondition.
- VirtualPages.Finder.VpagesMap: needs a run of absent pages and an absent page behind it, below the end of the
  canonical half that the cursor is in.
- Paging.Mmu.PageTableAlloc: clears the frame and ends the call when there is none; as written it does neither, and
  `TablesSource` says exactly what that shows.
- Paging.Mmu.PgaMap: stops when no table can be had, where the code goes on with frame 0 (`TablesSource.SourceMapIff` is
  for one page); and leaves out ranges that wrap, leave the canonical addresses or enter root entry 511, through which
  the tables themselves are edited.
- VirtualPages.Finder.FindFree: needs an absent page ahead; the source loops for ever when there is none.
- VirtualPages.Finder.FindRun: needs a run ahead. Without one the source does not return NULL either: page addresses
  stay below the bound of its loop and wrap to 0, so it searches on for ever.
- HeapPages.NoAliasing: regions start at page boundaries, since `pga_map` cuts addresses to them; tables are never given
  back; and the chain is the mended one, whose conditions as written are in `ChainSource`.
- PagedHeap.PagedHeap.Kmalloc: needs room ahead of the finder when the heap must grow, without which the program
  searches for ever; a header of which not all pages could be mapped is given up, where the code would use it.
- HeapSource.SourceFreeIff: as-written sizes after a wrong call are not followed any further.
- Large pages, the translation cache and its flushes. `PageRights` says of a walk what it allows; the loads and stores
  of the model do not check it.
- The spin loop is a step that may fail any number of times; that a waiting CPU gets in at last is not claimed.
- `next_region`, `outOfMem` and `next_free_vpage` are modelled for one CPU only, since no lock covers them.
- `ppage_init` and `mem_p_protect`: they mix absolute and relative page numbers; a mapped region is the start.
- `memstck_malloc`, used before the memory manager is up, a bump pointer.
- Boot code, descriptor tables, interrupt controllers, serial line, CPUID, multiboot and ELF parsing, strings,
  numerals, `Array_t`, system calls and `printk` formatting.
- Port writes of the cursor and the clock, and the estimate of the calendar at start-up.
