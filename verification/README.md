# Verification models for the JOS kernel and its libc

The repository holds a small x64 kernel, a libc for it and the resizer it uses for images. This project
models its algorithmic parts in Dafny and proves what they keep over whole runs, what one call undoes of
another, and where the code does less than its comments say. The code decides: where a comment and the
code disagree, the model does what the code does.

**Buddy page allocator** (`BuddyModel`, `BuddyRuns`, `BuddyRoundTrip`, `BuddyAllocator`). A pool of
pages is kept in zones of blocks of 2^z pages, chained through headers inside the pages. `BuddyModel`
states each operation on sequences of blocks, `BuddyAllocator` implements it on the zone array and the
headers, and goes through every run of the model. A run ends with the first free that makes two blocks
share a byte: from there on blocks of two chains may share the page that holds their headers, one
chain's links overwrite the other's, and nothing is claimed. Pages are counted byte by byte: free blocks
and live allocations partition the pool in every state if and only if each free finds the pieces that
its allocation split off (`BuddyTails`, `BuddyRuns`), which requests for powers of two of pages always
do. Other frees may make two blocks overlap or lose pages, and the theorems say when each happens, by
conditions that can be checked before the call; frees that only lose pages are part of the runs. After
allocating and freeing three of five fresh pages the fourth page is in two free blocks and the fifth in
none. The header comments say that a free reassembles the pieces "if possible"; `BuddyRoundTrip` says
exactly when, and that on a fresh pool of a power of two of pages an allocation freed at once is lost,
all of it, exactly if its page count is no power of two and at most half of the pool.

**Resizer** (`ResizeWindows`, `ResizeKernels`, `ResizeRing`, `ResizeContributors`). The five kernels,
the sample windows and the ring of scanlines that slides over the image, over exact reals. The windows
hold exactly the scanlines that a kernel can reach, the weights of an enlarged row sum to one, and the
asserts of the C code are proved. Enlarging makes every output row of the scanlines from the first to
the last that have a weight in it; shrinking a region emits every output row once and in order, made of
exactly the scanlines whose weights are in it or on both sides of it, of the image continued without
end.

**Search tree** (`SearchTreeModel`, `SearchTree`). Insertion with rotations refines insertion into a
sorted list, for every sequence of keys. The tree has no double rotation and does not recompute the
pivot's height, so a zig-zag insertion leaves it out of balance; balance is kept exactly by the others,
monotone runs among them.

**Scheduler** (`SchedulerModel`, `Scheduler`). Three ready queues with sentinel heads, a running task
and an idle task. Tasks are neither lost nor duplicated over any run; yields turn the highest non-empty
level round-robin and starve the lower ones; idle runs exactly when it has been started and nothing else
can. A yielding task is queued at the level of the task that replaces it: ready tasks wait at the levels
they were created at in every state of a run if and only if each task that is put back finds the first
ready task at its own level. Tasks created at one level keep it; two tasks at different levels are
enough to lose one.

**JSON** (`JsonModel`, `JsonLayout`, `Json`). The writer and the tokeniser undo each other on trees
whose texts hold no quotes or braces. The tokeniser never returns from an object that has a negative
number at its own level, and trips its own assertion on one that has no member; the theorems say so.
Blanks, tabs and line breaks between tokens do not matter, with two exceptions that the theorems name: a
number right before a closing brace is lost, and `{}` yields the rest of the text. The writer leaves out
the comma behind a value that ends with an empty object, and only there.

**Hive store** (`HashMap`, `StringHash`, `HivePack`, `Hive`). A chained hash map, the permutation table
behind its string hash, the packed encoding of value lists, and the store that keeps a pack in the entry
or in allocated memory. The comment on the sign of `_size` is the reverse of what the code does:
negative means in place.

**PDB symbol index** (`PdbTokens`, `PdbTrie`, `PdbIndex`, `PdbRvaModel`, `PdbRvaIndex`). Names are split
into tokens and stored in a trie; the trie is read into two parallel arrays sorted by address and
searched. Where a name is cut into tokens is stated apart from the code that cuts it; the code does not
cut `_this_isAMixed` where the comment above it says. A symbol is reported under the name whose
insertion made its node, which is a longer name if one came first; repeated names leave entries of the
arrays unset, and without them an address is answered with the name of the nearest symbol at or below
it; a search is answered with a node that is not the name's own exactly if the name goes on beyond an
inserted leaf; an address below every symbol is answered with the first symbol or by reading outside the
array, as the number of symbols decides.

**Integers** (`Decimal`, `IntPrint`, `IntScan`). Printing in decimal, and scanning in any base, behind
any prefix, with range errors exactly where section 7.20.1.4 of ISO/IEC 9899:1999 asks for them.

**Arena** (`ArenaModel`, `Arena`, `ArenaLayout`, `ArenaRuns`, `ArenaBooks`). The doubly linked free list
in order of size and its books, and the headers and tails in memory by which a free finds its
neighbours. A block keeps seven bytes for alignment that lie behind its tail, but the next header
follows the tail at once; so a block that grows over the one behind it ends seven bytes later, over the
next header, and one that grows over the one before it has its tail in the wrong place. The theorems say
exactly when a free leaves every header and tail where it belongs. As long as each does, no two free
blocks are ever neighbours, sizes and padding make up the memory, and once everything is given back the
memory is one free block; callers that give back the last block first and ask for at least 39 bytes keep
it so.

**Base64** (`Base64`). Encoding and decoding as in section 5.2 of RFC 1341.

`Arithmetic` and `BitArithmetic` hold the small facts about division, bitwise operations and shifts that
several components need. `dafny verify dfyconfig.toml` checks the whole project.

## Model

| member | source | states |
|---|---|---|
| `BitArithmetic.XorTagNames` | kernel/include/bb_page_allocator.h:230 | the buddy test holds of the block the tag was made with and of no other |
| `BitArithmetic.XorSwaps` | libc/extensions/pdb_index.c:241-251 | the three-step exclusive-or swap exchanges two values |
| `BitArithmetic.OrIsSum` | libc/internal/intscan.c:73-75 | a digit that fits below a shifted number is added to it by a bitwise or |
| `BitArithmetic.ShiftOrAppends` | libc/internal/intscan.c:73-75 | shifting a word and setting the freed bits multiplies and adds, as long as nothing is shifted out |
| `BuddyModel.CeilLog2IsLeast` | kernel/include/bb_page_allocator.h:57-61 | the rounded-up logarithm is the least order whose block is large enough |
| `BuddyModel.CreateCounts` | kernel/include/bb_page_allocator.h:96-113 | the blocks of a fresh pool cover every page of it exactly once |
| `BuddyModel.InsertCounts` | kernel/include/bb_page_allocator.h:116-139 | inserting a block adds its pages to what is free, and nothing else |
| `BuddyModel.DistributeCounts` | kernel/include/bb_page_allocator.h:186-198 | spreading the rest over the lower zones frees exactly the pages of the rest |
| `BuddyModel.AllocateFailsIff` | kernel/include/bb_page_allocator.h:141-163 | allocation fails exactly for zero pages, too many, or when no zone of a large enough order has a block |
| `BuddyModel.AllocateCounts` | kernel/include/bb_page_allocator.h:173-199 | free pages before are the free pages after and the pages handed out, byte by byte |
| `BuddyModel.AllocateTakesLeastOrder` | kernel/include/bb_page_allocator.h:152-177 | the block comes from the front of the lowest non-empty zone that fits |
| `BuddyModel.FirstNonEmpty` | kernel/include/bb_page_allocator.h:154-159 | the search stops at the first zone with a block, every zone passed being empty |
| `BuddyModel.FindBuddy` | kernel/include/bb_page_allocator.h:226-247 | the first block of a chain whose tag names the last block absorbed |
| `BuddyTails.CoalesceCounts` | kernel/include/bb_page_allocator.h:218-260 | what coalescing removes from the zones is exactly what it absorbs |
| `BuddyTails.AbsorbsAllIff` | kernel/include/bb_page_allocator.h:218-260 | where no two free blocks overlap, the walk absorbs every byte of a stretch of the length it needs if and only if it finds a buddy at every order it needs one of, inside the stretch |
| `BuddyTails.FindsSomeIff` | kernel/include/bb_page_allocator.h:221-262 | the walk ends at another block than it began with if and only if the first search succeeds |
| `BuddyRuns.FreeKeepsPartitionIff` | kernel/include/bb_page_allocator.h:202-268 | freeing a live allocation keeps free and live pages a partition of the pool if and only if at every order the walk uses the search succeeds, with a block inside the part that was split off |
| `BuddyRuns.FreeOverlapsIff` | kernel/include/bb_page_allocator.h:202-268 | a free makes two blocks share a byte if and only if it finds some buddy but not, inside its block, all of them |
| `BuddyRuns.FreeLosesIff` | kernel/include/bb_page_allocator.h:202-268 | a free leaves bytes of the pool in no block if and only if it finds no buddy or takes one outside its block |
| `BuddyRuns.AllocateKeepsPartition` | kernel/include/bb_page_allocator.h:141-200 | allocating any number of pages keeps free and live pages a partition of the pool |
| `BuddyRuns.EveryRunPartitionsThePool` | kernel/include/bb_page_allocator.h:69-268 | as long as every free of a run finds its tail, free blocks and live allocations partition the pool in every state |
| `BuddyRuns.RunPartitionsIff` | kernel/include/bb_page_allocator.h:69-268 | the states of a run all partition the pool if and only if each of its frees finds its tail |
| `BuddyRuns.PowersOfTwoPartition` | kernel/include/bb_page_allocator.h:211-215 | callers that only ask for powers of two of pages never break the partition, in whatever order they free |
| `BuddyRuns.FreeStaysSoundIff` | kernel/include/bb_page_allocator.h:202-268 | where no byte is in two blocks, a free keeps it so if and only if the block has no tail, or no buddy is found, or no block that is left behind reaches into the tail |
| `BuddyRuns.HarmlessSpares` | kernel/include/bb_page_allocator.h:202-268 | a free that finds its whole tail, or no buddy at all, leaves nothing behind in the tail |
| `BuddyRuns.NextIsSoundIff` | kernel/include/bb_page_allocator.h:141-268 | an allocation never makes two blocks share a byte, and a free does exactly if it fails that condition |
| `BuddyRuns.NeverOverlapsIff` | kernel/include/bb_page_allocator.h:69-268 | operations on a fresh pool never make two blocks share a byte if and only if each of their frees meets that condition |
| `BuddyRuns.EveryRunStaysInPool` | kernel/include/bb_page_allocator.h:69-268 | in every state of a run, up to and including the first in which two blocks share a byte, no byte outside the pool is chained or handed out |
| `BuddyRuns.FivePagesOverlap` | kernel/include/bb_page_allocator.h:96-268 | of five fresh pages, allocating and freeing three leaves the fourth in two free blocks and the fifth in none |
| `BuddyRuns.ChainsShareNoBlock` | kernel/include/bb_page_allocator.h:84-139 | in such a state no block is chained twice, within a zone or across zones |
| `BuddyRoundTrip.CoalesceUndoesDistribute` | kernel/include/bb_page_allocator.h:186-198 | when the lower zones can take the pieces findably, coalescing takes back each of them and nothing else |
| `BuddyRoundTrip.CoalesceLeavesAPiece` | kernel/include/bb_page_allocator.h:218-259 | otherwise some piece stays behind in its zone |
| `BuddyRoundTrip.FreeUndoesAllocateIff` | kernel/include/bb_page_allocator.h:141-268 | freeing an allocation at once restores every zone's set of blocks if and only if the exact order had a block and the lower zones can take the pieces findably |
| `BuddyRoundTrip.LargerBlockIsNotRestored` | kernel/include/bb_page_allocator.h:208-268 | an allocation cut from a block of a higher order is never restored by its free |
| `BuddyRoundTrip.LargerBlockLosesPages` | kernel/include/bb_page_allocator.h:217-267 | with empty lower zones, freeing pages whose number is not a power of two changes nothing: they are in no chain afterwards |
| `BuddyRoundTrip.FreshPoolLosesIff` | kernel/include/bb_page_allocator.h:96-268 | on a fresh pool of a power of two of pages, freeing an allocation at once loses pages, all of them, if and only if their number is no power of two and at most half of the pool |
| `BuddyAllocator.CreateIsDistinct` | kernel/include/bb_page_allocator.h:96-113 | a fresh pool chains every block once |
| `BuddyAllocator.AllocateKeepsNoOverlap` | kernel/include/bb_page_allocator.h:173-199 | allocation never makes two free blocks share a byte |
| `BuddyAllocator.Align4k` | kernel/include/bb_page_allocator.h:74 | the least multiple of the page size not below an address |
| `BuddyAllocator.Allocator.constructor` | kernel/include/bb_page_allocator.h:69-114 | the pool after alignment and the allocator's own page are the fresh pool's chains |
| `BuddyAllocator.Allocator.ChainFirst` | kernel/include/bb_page_allocator.h:99-113 | one step of populating zones |
| `BuddyAllocator.Allocator.Populate` | kernel/include/bb_page_allocator.h:96-113 | the loop over zones leaves the chains of a fresh pool |
| `BuddyAllocator.Allocator.InsertPages` | kernel/include/bb_page_allocator.h:116-139 | walking the links appends the block with the specified tag |
| `BuddyAllocator.Allocator.AppendHeader` | kernel/include/bb_page_allocator.h:116-139 | writes the new block's header and links it behind the last one, and no other header changes |
| `BuddyAllocator.Allocator.FirstZone` | kernel/include/bb_page_allocator.h:152-159 | the loop finds the first non-empty zone |
| `BuddyAllocator.Allocator.PopFront` | kernel/include/bb_page_allocator.h:173-178 | unlinks the first block, whose pages are then in no chain |
| `BuddyAllocator.Allocator.Serve` | kernel/include/bb_page_allocator.h:173-199 | takes the first block of a zone and spreads what the request leaves of it |
| `BuddyAllocator.Allocator.Relocate` | kernel/include/bb_page_allocator.h:186-198 | the loop spreads the rest as specified |
| `BuddyAllocator.Allocator.Allocate` | kernel/include/bb_page_allocator.h:141-200 | refines allocation on chains, and keeps free blocks from overlapping |
| `BuddyAllocator.Allocator.AbsorbBuddy` | kernel/include/bb_page_allocator.h:226-247 | the walk unlinks the first block whose tag matches, or nothing |
| `BuddyAllocator.Allocator.Reassemble` | kernel/include/bb_page_allocator.h:217-260 | the loop over orders refines the coalescing walk |
| `BuddyAllocator.Allocator.Free` | kernel/include/bb_page_allocator.h:202-268 | refines freeing on chains |
| `BuddyAllocator.SoundMeetsAllocator` | kernel/include/bb_page_allocator.h:141-268 | while no byte is in two blocks, free blocks do not overlap, and a live allocation's block is in no chain |
| `BuddyAllocator.Step` | kernel/include/bb_page_allocator.h:141-268 | one operation on zone array and headers, in any state in which no byte is in two blocks, is one step of the run |
| `BuddyAllocator.Drive` | kernel/include/bb_page_allocator.h:69-268 | the allocator goes through every run of the model, frees that lose pages among them, up to and including the first free that makes two blocks share a byte |
| `ResizeWindows.UpWindowSlides` | external/stb/stb_image_resize.h:1009-1021 | enlarging: from row to row the window moves forward by at most one scanline and fits the ring |
| `ResizeWindows.DownWindowSlides` | external/stb/stb_image_resize.h:1024-1036 | shrinking: the same for the window of output rows of an input scanline |
| `ResizeWindows.DownEntriesSuffice` | external/stb/stb_image_resize.h:883-892 | the ring has an entry more than the widest window of a shrink needs |
| `ResizeWindows.RegionSpan` | external/stb/stb_image_resize.h:2226-2233 | scale and shift of a region place it over the whole output |
| `ResizeWindows.RegionReachesAllRows` | external/stb/stb_image_resize.h:2173-2179 | the windows from the first to the last input scanline with margins reach every output row |
| `ResizeWindows.RegionIsPlaced` | external/stb/stb_image_resize.h:2226-2233 | the upper edge of the output lies at the region's upper edge in the input, and the lower one at its lower edge |
| `ResizeKernels.SupportIsLeast` | external/stb/stb_image_resize.h:759-864 | the support of each kernel is the least distance from which it is zero |
| `ResizeKernels.UpWindowIsExact` | external/stb/stb_image_resize.h:1009-1021 | enlarging: every scanline with a weight in a row lies in its window, and none in the window is farther away than a weight could be |
| `ResizeKernels.DownWindowIsExact` | external/stb/stb_image_resize.h:1024-1036 | shrinking: the same for the output rows of an input scanline |
| `ResizeKernels.PixelWidthIsGreatest` | external/stb/stb_image_resize.h:881-892 | the width of a filter in pixels is the greatest number of input scanlines that reach an output row: for any row and shift there are as many, or one fewer |
| `ResizeKernels.CubicsSumToOne` | external/stb/stb_image_resize.h:798-837 | at unit distances the values of each cubic kernel sum to one |
| `ResizeKernels.WeightsSumToOne` | external/stb/stb_image_resize.h:1052-1069 | the weights of an output row of an enlargement sum to exactly one, which the code asserts to about a tenth |
| `ResizeKernels.DownWeightExists` | external/stb/stb_image_resize.h:1145-1147 | some output row has a weight of an input scanline, so that the loop which skips zeros ends |
| `ResizeRing.Ring.AddEmptyEntry` | external/stb/stb_image_resize.h:1417-1439 | the new scanline takes the next entry of the ring, no live one is overwritten, and the entry is cleared |
| `ResizeRing.Ring.DropFirst` | external/stb/stb_image_resize.h:2086-2099 | dropping the oldest scanline keeps every other where it is found |
| `ResizeRing.DecodeInto` | external/stb/stb_image_resize.h:2104-2108 | decoding appends one scanline to the window |
| `ResizeRing.SourcesAre` | external/stb/stb_image_resize.h:1867-1982 | the scanlines of a range, one by one |
| `ResizeRing.ResampleVertical` | external/stb/stb_image_resize.h:1867-1982 | a row is made of exactly the scanlines of its range, each found at its place in the ring |
| `ResizeRing.SlideUp` | external/stb/stb_image_resize.h:2081-2108 | after dropping and loading the ring holds exactly the row's window |
| `ResizeRing.UpWindowsSlide` | external/stb/stb_image_resize.h:2064-2079 | the windows of the whole enlargement never move back and never exceed the ring |
| `ResizeRing.UpsampleOver` | external/stb/stb_image_resize.h:2072-2114 | over any sliding windows, every row is resampled from the scanlines of its own range |
| `ResizeRing.BufferLoopUpsample` | external/stb/stb_image_resize.h:2064-2115 | enlarging by any scale and shift, every output row is resampled from exactly its scanlines |
| `ResizeRing.EncodeFirst` | external/stb/stb_image_resize.h:2136-2157 | the oldest row is emitted if it lies in the output, and leaves the ring |
| `ResizeRing.DrainOne` | external/stb/stb_image_resize.h:2134-2157 | one turn of emptying the ring: the oldest row is out, and the ring is empty or begins with the next |
| `ResizeRing.EmptyRingBuffer` | external/stb/stb_image_resize.h:2117-2160 | emits the rows before the first one still needed, in order, and no other |
| `ResizeRing.GrowDown` | external/stb/stb_image_resize.h:2189-2194 | adds cleared rows up to the end of the window |
| `ResizeRing.ResampleVerticalDown` | external/stb/stb_image_resize.h:1984-2062 | a scanline is added to exactly the rows of its range |
| `ResizeRing.MakeRoom` | external/stb/stb_image_resize.h:2185-2194 | emptying and growing leave the ring at the scanline's window, having emitted what came before |
| `ResizeRing.EmittedIsFinal` | external/stb/stb_image_resize.h:2185 | a row that is emitted has received everything it ever will |
| `ResizeRing.VisitScanline` | external/stb/stb_image_resize.h:2173-2198 | each input scanline keeps the invariant of the loop, whether it is skipped or not |
| `ResizeRing.VisitScanlines` | external/stb/stb_image_resize.h:2173-2198 | the loop over all input scanlines and margins keeps that invariant |
| `ResizeRing.DownWindowsSlide` | external/stb/stb_image_resize.h:2162-2180 | the windows of the whole shrink never move back and never exceed the ring |
| `ResizeRing.DownsampleOver` | external/stb/stb_image_resize.h:2173-2200 | over any sliding windows, every row between the first and the last window is emitted once, in order, with all its scanlines |
| `ResizeRing.BufferLoopDownsample` | external/stb/stb_image_resize.h:2162-2201 | the same for the windows of any scale of at most one and any shift |
| `ResizeRing.ShrinkRegion` | external/stb/stb_image_resize.h:2162-2233 | shrinking any region of an image emits each output row exactly once, in increasing order, with all its scanlines |
| `ResizeContributors.SkipLeadingZeros` | external/stb/stb_image_resize.h:1052-1066 | the zeros in front of a window are skipped, the coefficients behind them and their sum are the kernel's |
| `ResizeContributors.TrimEnd` | external/stb/stb_image_resize.h:1077-1084 | the range ends with the last coefficient that is not zero |
| `ResizeContributors.Contribute` | external/stb/stb_image_resize.h:1038-1085 | a window's contributors are the scanlines from the first to the last with a weight, with these weights |
| `ResizeContributors.UpContributors` | external/stb/stb_image_resize.h:1198-1214 | the same for an output row of an enlargement |
| `ResizeContributors.Enlarge` | external/stb/stb_image_resize.h:2064-2115 | enlarging: every output row is made of exactly the scanlines from the first to the last with a weight in it |
| `ResizeContributors.FindExtent` | external/stb/stb_image_resize.h:1099-1147 | the rows of a window from the first to the last with a weight |
| `ResizeContributors.DownContributors` | external/stb/stb_image_resize.h:1088-1192 | an input scanline's contributions go to the rows of the image from the first to the last in which it has a weight |
| `ResizeContributors.MarginsSuffice` | external/stb/stb_image_resize.h:895-898 | no scanline beyond the margins has weights that reach a row of the image |
| `ResizeContributors.Shrink` | external/stb/stb_image_resize.h:2162-2233 | shrinking any region: every output row is emitted once, in order, made of exactly the scanlines whose weights are in it or on both sides of it |
| `SearchTreeModel.RotationKeepsEntries` | kernel/include/binary_search_tree.h:123-141 | rotations and rebalancing leave the sorted sequence of entries as it is |
| `SearchTreeModel.InsertPlaces` | kernel/include/binary_search_tree.h:143-191 | insertion puts the key in its place of the sorted sequence, and refuses exactly the keys that are there |
| `SearchTreeModel.FindIsMembership` | kernel/include/binary_search_tree.h:206-220 | a search finds a key exactly if it is there, with the value it is stored with |
| `SearchTreeModel.InsertGrows` | kernel/include/binary_search_tree.h:179-190 | in a balanced tree the cached height grows exactly when the tree does |
| `SearchTreeModel.InsertKeepsBalanceIff` | kernel/include/binary_search_tree.h:179-190 | a balanced tree stays balanced, with true heights, if and only if the insertion does not zig-zag |
| `SearchTreeModel.OutermostNeverZigZags` | kernel/include/binary_search_tree.h:160-178 | a key beyond all others never zig-zags |
| `SearchTreeModel.InsertAllStores` | kernel/include/binary_search_tree.h:28-38 | after every sequence of insertions the keys are strictly increasing in order, are exactly those inserted, and have one value each |
| `SearchTreeModel.InsertKeepsOthers` | kernel/include/binary_search_tree.h:143-191 | an insertion does not change what a search for another key finds |
| `SearchTreeModel.FindReturnsFirst` | kernel/include/binary_search_tree.h:156-158 | after every sequence of insertions a search finds the first value inserted for the key |
| `SearchTreeModel.MonotoneRunsStayBalanced` | kernel/include/binary_search_tree.h:123-141 | ascending or descending insertions keep every cached height true and every node balanced |
| `SearchTreeModel.BalancedIsFull` | kernel/include/binary_search_tree.h:179-190 | a balanced tree of height h holds at least Fib(h + 2) - 1 keys |
| `SearchTreeModel.ZigZagUnbalances` | kernel/include/binary_search_tree.h:181-188 | inserting 3, 1, 2 unbalances the tree and leaves a wrong cached height |
| `SearchTree.RotateNodeLeft` | kernel/include/binary_search_tree.h:123-131 | relinking refines the rotation and keeps the set of nodes |
| `SearchTree.RotateNodeRight` | kernel/include/binary_search_tree.h:133-141 | the mirror image |
| `SearchTree.Rebalance` | kernel/include/binary_search_tree.h:179-190 | refines rebalancing |
| `SearchTree.AttachRight` | kernel/include/binary_search_tree.h:160-190 | hanging a grown subtree below a node and rebalancing refines the same on trees |
| `SearchTree.AttachLeft` | kernel/include/binary_search_tree.h:170-190 | the mirror image |
| `SearchTree.BinarySearchTree.constructor` | kernel/include/binary_search_tree.h:222-235 | a new tree is empty |
| `SearchTree.BinarySearchTree.InsertImpl` | kernel/include/binary_search_tree.h:143-191 | the recursion refines insertion; a key that is there changes nothing |
| `SearchTree.BinarySearchTree.InsertKey` | kernel/include/binary_search_tree.h:28-38 | reports whether the key was new, counts it, and places it in the sorted sequence |
| `SearchTree.BinarySearchTree.FindImpl` | kernel/include/binary_search_tree.h:206-220 | refines the search |
| `SearchTree.BinarySearchTree.FindKey` | kernel/include/binary_search_tree.h:58-60 | finds a key exactly if it was inserted, with its value if the tree stores values |
| `SearchTree.BinarySearchTree.SortedTraverse` | kernel/include/binary_search_tree.h:94-109 | visits the entries in increasing order of key |
| `SchedulerModel.FirstReady` | kernel/tasks.c:106-110 | the first non-empty level from a given one on |
| `SchedulerModel.YieldKeepsPlaces` | kernel/tasks.c:96-134 | a yield neither loses nor duplicates a task |
| `SchedulerModel.EveryRunKeepsTasks` | kernel/tasks.c:138-205 | in every state of every run a task is in exactly one place if it was created and has not finished, and in none otherwise |
| `SchedulerModel.StartedIff` | kernel/tasks.c:138-205 | the idle task exists from the step that starts it on |
| `SchedulerModel.IdleRunsIff` | kernel/tasks.c:139-175 | after every step of every run but a creation, idle runs if and only if it exists, no task is ready and no ordinary task runs; an ordinary task runs if and only if one was ready or the step is the yield of one |
| `SchedulerModel.SomebodyRuns` | kernel/tasks.c:166-205 | once idle has been started, the processor is never without a task again |
| `SchedulerModel.YieldsRoundRobin` | kernel/tasks.c:104-133 | while no task comes or goes, n yields turn the highest non-empty level n places and touch no other |
| `SchedulerModel.WaitsItsTurn` | kernel/tasks.c:104-133 | the task at position k of that level runs after k + 1 yields and not before |
| `SchedulerModel.CircleIsDistinct` | kernel/tasks.c:96-205 | in every state of every run the running task and the ready ones of a level are distinct |
| `SchedulerModel.EveryRunTakesTurns` | kernel/tasks.c:96-205 | in every state of every run a ready task of the highest level runs after exactly the yields its position asks for |
| `SchedulerModel.LowerLevelsStarve` | kernel/tasks.c:106-130 | until that level has drained, no task of a lower one runs, however tasks yield and finish |
| `SchedulerModel.YieldKeepsHomeIff` | kernel/tasks.c:104-133 | when every ready task waits at the level it was created at, a yield keeps it so if and only if nothing is put back or the first ready task has the level of the running one |
| `SchedulerModel.PrioritiesAreKeptIff` | kernel/tasks.c:96-205 | ready tasks wait at their own levels in every state of a run if and only if each yield of the run meets that condition |
| `SchedulerModel.OneLevelIsKept` | kernel/tasks.c:96-205 | tasks that are all created at one level stay there, in every state of every run |
| `SchedulerModel.HighestTaskIsDemoted` | kernel/tasks.c:106-123 | a run of two tasks in which the one created at the highest level is put back at the lowest |
| `Scheduler.ReadyQueue.Push` | kernel/tasks.c:54-56 | appends the task and keeps head and tail right |
| `Scheduler.ReadyQueue.TryPop` | kernel/tasks.c:65-71 | takes the first task, and resets the tail to the sentinel when the queue empties |
| `Scheduler.CpuContext.constructor` | kernel/tasks.c:35-41 | the queues start empty |
| `Scheduler.CpuContext.QueuesAreDisjoint` | kernel/tasks.c:43-76 | a queued task is in one queue only, and is neither idle, running nor a sentinel |
| `Scheduler.CpuContext.PushTask` | kernel/tasks.c:43-58 | the wait at its top is never reached, and only the one queue changes |
| `Scheduler.CpuContext.TryPopTask` | kernel/tasks.c:60-76 | only the one queue changes |
| `Scheduler.CpuContext.SwapIn` | kernel/tasks.c:109-129 | takes over a ready task of the level, or changes nothing |
| `Scheduler.CpuContext.PutBack` | kernel/tasks.c:113-124 | queues the running task unless it is idle or has finished, and changes no other queue |
| `Scheduler.CpuContext.TakeOver` | kernel/tasks.c:113-128 | the running task is queued when it is an ordinary one, and the other runs |
| `Scheduler.CpuContext.SelectNext` | kernel/tasks.c:96-134 | picks the first ready task of the highest level |
| `Scheduler.CpuContext.YieldToNext` | kernel/tasks.c:138-174 | refines the yield step |
| `Scheduler.CpuContext.Finish` | kernel/tasks.c:194-205 | refines the step in which a task ends |
| `Scheduler.CpuContext.Create` | kernel/tasks.c:281-293 | refines the creation of a task |
| `Scheduler.CpuContext.Enqueue` | kernel/tasks.c:281-293 | a context that is in no queue and does not run becomes the last ready task of its level |
| `Scheduler.CpuContext.StartIdle` | kernel/tasks.c:326-334 | refines the start with the idle task |
| `JsonModel.ClosingSkipsValue` | libc/include/extensions/json.h:229-253 | the brace count passes over any printed value without braces in its texts |
| `JsonModel.ScanMembers` | libc/include/extensions/json.h:129-258 | tokenising printed members yields key, separator and value of each in order, or never ends exactly if one of them is a negative number |
| `JsonModel.ScanDocument` | libc/include/extensions/json.h:229-253 | tokenising a printed document yields its one object |
| `JsonModel.ScanInside` | libc/include/extensions/json.h:240-243 | tokenising the inside of an object yields its members |
| `JsonModel.InsideFinishes` | libc/include/extensions/json.h:129-261 | on the inside of an object the tokeniser returns the first key, never ends if a number is negative, and trips its assertion if there is no member |
| `JsonModel.JsonValueFindsFirst` | libc/include/extensions/json.h:263-321 | looking up a quoted key among the tokens returns the first value written for it |
| `JsonModel.LookupsAgree` | libc/include/extensions/json.h:129-321 | following any path of keys through the text finds what following it through the tree does, and is stuck exactly where a level on the way has a negative number or no member |
| `JsonModel.NumberDenotes` | libc/include/extensions/json.h:104-108 | a number is written as its sign, if it is negative, and its decimal notation |
| `JsonLayout.ClosingSkipsLoose` | libc/include/extensions/json.h:229-253 | the brace count passes over any value without braces in its texts, however it is laid out |
| `JsonLayout.ScanLooseMembers` | libc/include/extensions/json.h:148-258 | with any blanks, tabs and line breaks around its tokens, an object's inside spins exactly if a number is negative, and else yields its triples if and only if it has no `{}` and something behind its last number |
| `JsonLayout.LooseLookupsAgree` | libc/include/extensions/json.h:129-321 | white space does not matter: following a path of keys finds in any such text what it finds in the tree |
| `JsonLayout.NumberBeforeBraceIsLost` | libc/include/extensions/json.h:201-213 | a last number without a space behind it is not found |
| `JsonLayout.EmptyAndBlank` | libc/include/extensions/json.h:129-131 | an empty slice yields nothing, a blank one trips the assertion |
| `JsonLayout.WriterLaysOut` | libc/include/extensions/json.h:83-114 | what the writer emits, token by token |
| `JsonLayout.WriterPunctuatesIff` | libc/include/extensions/json.h:92-102 | the writer separates members by commas, and by nothing else, if and only if no value that ends with an empty object is followed by another member |
| `Json.Writer.Write` | libc/include/extensions/json.h:83-114 | the writer's calls emit the printed form of a value |
| `Json.Writer.WriteMembers` | libc/include/extensions/json.h:92-102 | members are separated by commas exactly where they should be |
| `Json.SeekClosing` | libc/include/extensions/json.h:231-253 | finds the brace that closes the object |
| `Json.Tokenise` | libc/include/extensions/json.h:129-261 | returns nothing for an empty slice, else the first token added, or trips the assertion that there is one, or never returns, as specified |
| `Json.RunStates` | libc/include/extensions/json.h:133-258 | the state machine yields the specified tokens, or spins exactly when the specification does |
| `Json.ReadString` | libc/include/extensions/json.h:214-228 | reads a string token up to its closing quote |
| `Json.ReadNumber` | libc/include/extensions/json.h:201-213 | reads a number token; digits at the very end of the text give none |
| `Json.ReadObject` | libc/include/extensions/json.h:229-255 | reads an object token; an object without content becomes the rest of the whole string |
| `Json.FindValue` | libc/include/extensions/json.h:263-321 | refines the lookup |
| `HashMap.UnorderedMap.constructor` | kernel/include/collections.h:718-734 | a new map is empty |
| `HashMap.UnorderedMap.Locate` | kernel/include/collections.h:760-778 | finds the pair of a key in its slot exactly if the map has one |
| `HashMap.UnorderedMap.Find` | kernel/include/collections.h:780-783 | refines lookup in a finite map |
| `HashMap.UnorderedMap.Insert` | kernel/include/collections.h:785-801 | refines update of a finite map, with the number of distinct keys as occupancy |
| `HashMap.PutKeepsTable` | kernel/include/collections.h:785-801 | putting a pair into its slot keeps every key in its own slot, once, with its value |
| `HashMap.UnorderedMap.IteratorBegin` | kernel/include/collections.h:301-315 | starts at the first pair, all of them still to come |
| `HashMap.UnorderedMap.IteratorNext` | kernel/include/collections.h:812-827 | moves to the next pair and skips empty slots |
| `HashMap.UnorderedMap.VisitAll` | kernel/include/collections.h:297-315 | the iterator yields the slots' pairs in order |
| `HashMap.VisitsEachPairOnce` | kernel/include/collections.h:812-827 | the pairs visited have distinct keys and are exactly those of the map |
| `HashMap.DistinctKeysCount` | kernel/include/collections.h:799 | pairs with distinct keys are as many as the keys |
| `StringHash.SwapKeepsPermutation` | kernel/include/collections.h:696 | a swap keeps the table a permutation of 0 to 255 |
| `StringHash.Hasher.Shuffle` | kernel/include/collections.h:690-699 | for every stream of random numbers the table becomes a permutation |
| `StringHash.Hasher.HashString` | kernel/include/collections.h:678-716 | the table is built once, and the hash is a function of table and string |
| `StringHash.SameStringSameHash` | kernel/include/collections.h:678-716 | equal strings hash equal whatever is hashed in between |
| `StringHash.OneCharacterChangesAllBytes` | kernel/include/collections.h:702-715 | strings that differ in one character after the first have hashes that differ in all four bytes |
| `StringHash.BytesDiffer` | kernel/include/collections.h:702-715 | the four bytes of a hash are different from each other |
| `HivePack.PackRoundTrip` | kernel/include/hive.h:170-204 | decoding a pack yields the list that was encoded |
| `Hive.HiveStore.constructor` | kernel/include/hive.h:218-227 | a new store is empty |
| `Hive.HiveStore.PackSize` | kernel/include/hive.h:137-168 | the size of the encoded list |
| `Hive.HiveStore.ParseParameterPack` | kernel/include/hive.h:170-204 | writes the encoded list over the start of its storage |
| `Hive.HiveStore.WriteInPlace` | kernel/include/hive.h:286-289 | the entry stands for the list and owns no memory |
| `Hive.HiveStore.WriteAllocated` | kernel/include/hive.h:294-297 | the memory stands for the list and no other memory changes |
| `Hive.HiveStore.Rewrite` | kernel/include/hive.h:264-305 | an existing entry, in place or allocated, growing or shrinking, stands for the new list and other keys are left alone |
| `Hive.HiveStore.RewriteAllocated` | kernel/include/hive.h:270-284 | a pack in allocated memory is written over, in memory that grows if it has to |
| `Hive.HiveStore.WriteNew` | kernel/include/hive.h:306-324 | a new entry stands for its list |
| `Hive.HiveStore.Set` | kernel/include/hive.h:254-328 | the store maps the key to the new list and every other key as before; up to seven values stay in the entry, unless its pack already lies in allocated memory |
| `Hive.HiveStore.Unpack` | kernel/include/hive.h:409-448 | appends exactly the list the pack stands for |
| `Hive.HiveStore.Get` | kernel/include/hive.h:385-450 | appends exactly the last list set for the key |
| `Hive.HiveStore.Push` | kernel/include/hive.h:330-383 | creates or extends the list of a key |
| `Hive.HiveStore.VisitValues` | kernel/include/hive.h:495-523 | visits every key once, with its list |
| `Hive.RewriteKeepsConsistent` | kernel/include/hive.h:263-305 | rewriting one entry keeps every other standing for its list, without shared memory |
| `PdbTokens.TokensAreLossless` | libc/extensions/pdb_index.c:23-72 | the tokens of a name, none of them empty, make up the name |
| `PdbTokens.NextToken` | libc/extensions/pdb_index.c:23-72 | takes the first token off a body, leaving the rest |
| `PdbTokens.LettersAre` | libc/extensions/pdb_index.c:38-43 | what counts as a small and as a capital letter |
| `PdbTokens.FirstTokenIff` | libc/extensions/pdb_index.c:23-72 | the first token of a text is what it has before its first cut: a blank, an underscore or, in a word, a case edge |
| `PdbTokens.TokensIff` | libc/extensions/pdb_index.c:23-72 | texts are the tokens of their concatenation if and only if each ends at its first cut |
| `PdbTokens.TokensArePlain` | libc/extensions/pdb_index.c:43-60 | behind its leading underscores a token has no blank and no underscore, unless it is a whole rest that begins with a blank |
| `PdbTokens.WordsAreTokens` | libc/extensions/pdb_index.c:19-21 | names of words set off by underscores or capitals are cut into these words, with the underscores before each |
| `PdbTokens.BlankIsLastCut` | libc/extensions/pdb_index.c:45-68 | a blank ends a word, and what begins with it is not cut any more |
| `PdbTokens.CommentIsNotTheCode` | libc/extensions/pdb_index.c:19 | a name of the comment is not cut as the comment says |
| `PdbTrie.StoreChangesOnePath` | libc/extensions/pdb_index.c:126-200 | an insertion changes exactly its own path; a leaf reached again keeps its symbol |
| `PdbTrie.EveryRunIsWellFormed` | libc/extensions/pdb_index.c:186-194 | after every run siblings have different, non-empty prefixes |
| `PdbTrie.NodesAreTheNamesPaths` | libc/extensions/pdb_index.c:105-124 | every node is a path some name goes through, and its stored name is the first such name |
| `PdbTrie.SymbolsAreTheNames` | libc/extensions/pdb_index.c:122-123 | after every run the symbol nodes are exactly the ends of the inserted names' paths |
| `PdbTrie.EachNameIsOnePath` | libc/extensions/pdb_index.c:126-200 | each inserted name is the concatenation of exactly one path that ends in a symbol node |
| `PdbTrie.RepeatReplacesIff` | libc/extensions/pdb_index.c:155-177 | a name inserted again replaces the symbol if and only if some name goes on beyond it |
| `PdbTrie.NewNameIsStored` | libc/extensions/pdb_index.c:186-194 | a new name's symbol is stored under it |
| `PdbTrie.ReportedUnderOwnNameIff` | libc/extensions/pdb_index.c:230-233 | a symbol is reported under its own name if and only if no name through it that goes on was inserted earlier |
| `PdbTrie.LaterPrefixIsMisnamed` | libc/extensions/pdb_index.c:230-233 | after FooBar, the symbol of Foo is reported as FooBar |
| `PdbTrie.SearchSucceedsIff` | libc/extensions/pdb_index.c:74-101 | a search succeeds if and only if its tokens are a path or a leaf lies on the way, and returns that node |
| `PdbTrie.InsertedNameIsFound` | libc/extensions/pdb_index.c:74-101 | searching an inserted name from its root child returns its symbol node |
| `PdbTrie.LeafSwallowsLonger` | libc/extensions/pdb_index.c:78-81 | a name that goes on beyond an inserted leaf is found there although it was never inserted |
| `PdbTrie.SearchAnswersIff` | libc/extensions/pdb_index.c:74-101 | a search among inserted names is answered with the name's own node if and only if some name goes through it, and with another node if and only if the name goes on beyond an inserted leaf, whose symbol is the answer then |
| `PdbIndex.AddFromNode` | libc/extensions/pdb_index.c:105-124 | adds one branch for the tokens of the body, with the symbol at its end |
| `PdbIndex.InsertChild` | libc/extensions/pdb_index.c:148-199 | inserts below a node exactly if its prefix matches, and says whether the path was there |
| `PdbIndex.InsertBelow` | libc/extensions/pdb_index.c:168-194 | inserts below the one matching child, or adds a new one |
| `PdbIndex.Insert` | libc/extensions/pdb_index.c:126-146 | inserts a name at the root, whether or not there is a tree yet |
| `PdbIndex.Load` | libc/extensions/pdb_index.c:504-518 | builds the trie of all names, skipping empty ones and counting repeated ones again |
| `PdbIndex.MatchSearch` | libc/extensions/pdb_index.c:74-101 | refines the search |
| `PdbRvaModel.StoreCollects` | libc/extensions/pdb_index.c:226-263 | an insertion changes what is collected only by what is held at its own path |
| `PdbRvaModel.EverySymbolOnce` | libc/extensions/pdb_index.c:226-263 | without repeated names every symbol is collected exactly once |
| `PdbRvaModel.IndexIsFilledIff` | libc/extensions/pdb_index.c:537-541 | the arrays are filled if and only if no name was repeated |
| `PdbRvaModel.PlacingAllSorts` | libc/extensions/pdb_index.c:235-253 | inserting pair after pair yields the same pairs in order of address |
| `PdbRvaModel.IndexIsComplete` | libc/extensions/pdb_index.c:537-541 | without repeated names the index is sorted and holds every symbol once, under its reported name |
| `PdbRvaIndex.SwapDown` | libc/extensions/pdb_index.c:241-251 | exchanges two neighbouring elements |
| `PdbRvaIndex.PlaceSymbol` | libc/extensions/pdb_index.c:235-254 | enters a pair into both arrays at its place |
| `PdbRvaIndex.EnterNode` | libc/extensions/pdb_index.c:226-263 | enters the symbols of a node and all below it |
| `PdbRvaIndex.BuildRvaIndex` | libc/extensions/pdb_index.c:537-541 | fills the arrays with the collected symbols in order |
| `PdbRvaIndex.SymbolIndexForAddress` | libc/extensions/pdb_index.c:265-295 | in sorted arrays finds the symbol at an address or the last one below it if and only if the address is not below every symbol; otherwise it answers with the first or leaves the array, as the number of symbols decides |
| `PdbRvaIndex.WrapsIff` | libc/extensions/pdb_index.c:270-279 | a search below every symbol leaves the array if and only if one more than the number of symbols is at least three quarters of the next power of two above it |
| `PdbRvaIndex.ChosenIsNearest` | libc/extensions/pdb_index.c:265-295 | the entry chosen is a stored symbol under its reported name, and no stored symbol is nearer below |
| `PdbRvaIndex.IndexSymbols` | libc/extensions/pdb_index.c:502-541 | from entries without repeated names to the two arrays: sorted, every symbol once, under its reported name |
| `PdbRvaIndex.SymbolNameForAddress` | libc/extensions/pdb_index.c:265-541 | from entries without repeated names and an address to a name: that of the nearest symbol at or below the address; when all lie above, that of the first symbol, or a read outside the array exactly for the numbers of symbols that wrap; nothing exactly without symbols |
| `IntPrint.Sink.PutChar` | libc/internal/_vprint.inc.c:552-562 | writes a character unless only the place for the terminator is left |
| `IntPrint.FixedIsDecimal` | libc/internal/_vprint.inc.c:78-91 | the digits from the highest power of ten down are the decimal notation |
| `IntPrint.HighestPower` | libc/internal/_vprint.inc.c:67-76 | finds the highest power of ten not above the number |
| `IntPrint.PrintDigits` | libc/internal/_vprint.inc.c:78-91 | writes the digits most significant first, or as many as fit |
| `IntPrint.PrintMagnitude` | libc/internal/_vprint.inc.c:67-92 | writes the decimal notation of a positive number, clipped to the room |
| `IntPrint.PrintDecimal` | libc/internal/_vprint.inc.c:48-92 | writes the decimal notation, clipped to the room, and returns its length or the end-of-file code |
| `IntPrint.UnsignedIsPrintedIff` | libc/internal/_vprint.inc.c:389-412 | an unsigned word is printed right if and only if it is not above the signed maximum |
| `Decimal.DecimalRoundTrip` | libc/internal/_vprint.inc.c:67-91 | reading the decimal notation of a number yields the number |
| `IntScan.AnotherDigit` | libc/internal/intscan.c:64-81 | one more digit extends the accumulated number |
| `IntScan.WorthIs` | libc/internal/intscan.c:7-24 | digits and letters of both cases are worth their places |
| `IntScan.OthersAreWorthNothing` | libc/internal/intscan.c:7-24 | no other character is worth anything |
| `IntScan.StoppedEarly` | libc/internal/intscan.c:82-83 | the loops stop before the last digit if and only if the whole number does not fit a word |
| `IntScan.FitsIff` | libc/internal/intscan.c:67 | the guard holds exactly if the next word does not wrap |
| `IntScan.ShiftIsLog` | libc/internal/intscan.c:70-71 | the shift table yields the logarithm of each power-of-two base |
| `IntScan.ShiftableIff` | libc/internal/intscan.c:74 | the shift guard holds exactly if the next word does not wrap |
| `IntScan.ScanDecimal` | libc/internal/intscan.c:64-69 | computes the number of the digits in base ten, in two word sizes |
| `IntScan.ScanShifted` | libc/internal/intscan.c:70-75 | the same for the power-of-two bases, by shifts and bitwise ors |
| `IntScan.ScanGeneral` | libc/internal/intscan.c:76-81 | the same for every other base |
| `IntScan.Saturate` | libc/internal/intscan.c:82-99 | applies the limit and the sign |
| `IntScan.FindStart` | libc/internal/intscan.c:41-63 | interprets a prefix, and what is left of it when no digit follows |
| `IntScan.IntScan` | libc/internal/intscan.c:26-100 | yields the specified word, length and error for every string, base and limit |
| `IntScan.SignedConversionIsExact` | libc/stdlib/strtol.c:25-28 | the 64-bit signed conversion clamps to its range, with a range error exactly outside it |
| `IntScan.NarrowConversionIsExact` | libc/stdlib/strtol.c:35-38 | the same for a signed type of 32 bits |
| `IntScan.UnsignedConversionIsExact` | libc/stdlib/strtol.c:20-23 | the unsigned conversion wraps negative numbers, and saturates exactly when the magnitude is too large |
| `IntScan.ScanInvertsPrint` | libc/internal/intscan.c:26-100 | scanning what was printed yields the number and takes exactly what was printed, whatever follows |
| `IntScan.ScanInvertsNotation` | libc/internal/intscan.c:36-100 | a number in any base, behind white space, a sign and the prefix that announces its base, is what the text denotes, and is read back and taken whole, whatever follows |
| `IntScan.WhiteIs` | libc/include/ctype.h:26-29 | white space are the six characters that section 7.4.1.10 of ISO/IEC 9899:1999 names |
| `IntScan.ScanFailsIff` | libc/internal/intscan.c:31-63 | there is no number, and nothing is taken, if and only if the base is no base or no digit of it follows white space and sign |
| `IntScan.OutOfRangeIsNegatedIff` | libc/internal/intscan.c:82-99 | a negative number out of range comes back as the limit negated exactly if it does not fit a word, else as the limit |
| `IntScan.BarePrefixIsZero` | libc/internal/intscan.c:45-51 | behind white space and a sign, a hexadecimal prefix without a digit after it is read as its zero alone, or as nothing |
| `ArenaModel.NeededCoversIff` | kernel/include/arena_allocator.h:221-232 | the block size computed for a request covers it if and only if the sum does not wrap, and is then less than 31 bytes larger, or the least there is |
| `ArenaModel.FirstFitIsBestFit` | kernel/include/arena_allocator.h:229-235 | in a list in order of size the first block that fits is the smallest |
| `ArenaModel.AllocationBalances` | kernel/include/arena_allocator.h:244-269 | allocation keeps the books, and gives less than a small block more than is needed |
| `ArenaModel.FreeingBalances` | kernel/include/arena_allocator.h:327-354 | freeing with either, both or no neighbours keeps the books |
| `ArenaModel.StepConserves` | kernel/include/arena_allocator.h:214-355 | one request or return neither loses nor makes up a byte |
| `ArenaModel.EveryRunBalances` | kernel/include/arena_allocator.h:214-355 | as long as sizes are read as they were written, the list is in order after every run, and free blocks, bytes lost to alignment and blocks handed out add up to the memory; giving everything back restores the counted size |
| `Arena.LinkedAfterInsert` | kernel/include/arena_allocator.h:128-162 | a block whose neighbours point to it completes the doubly linked list |
| `Arena.LinkedAfterRemoval` | kernel/include/arena_allocator.h:177-183 | a list whose neighbours point past a block is doubly linked without it |
| `Arena.Allocator.constructor` | kernel/include/arena_allocator.h:197-204 | all memory is one free block |
| `Arena.Create` | kernel/include/arena_allocator.h:190-212 | refuses memory that does not hold the arena's header and a block, and makes one free block of any other |
| `Arena.Allocator.InsertAsFree` | kernel/include/arena_allocator.h:115-165 | links a block in before the first that is not smaller |
| `Arena.Allocator.Disconnect` | kernel/include/arena_allocator.h:167-186 | unlinks a block and clears its links |
| `Arena.Allocator.FirstFit` | kernel/include/arena_allocator.h:229-235 | finds the first block that is large enough |
| `Arena.Allocator.Alloc` | kernel/include/arena_allocator.h:214-275 | serves a request if and only if a block fits, from the smallest, putting back what is left |
| `Arena.Allocator.MergeIfBefore` | kernel/include/arena_allocator.h:328-338 | a free block right before grows over the one being freed |
| `Arena.Allocator.MergeIfAfter` | kernel/include/arena_allocator.h:340-350 | a free block right after is absorbed |
| `Arena.Allocator.Free` | kernel/include/arena_allocator.h:307-355 | the block joined with the neighbours given has the sum of their sizes and is in the list, the neighbours are not, every other block is, and the books balance; a marked block is left alone |
| `ArenaLayout.Words.JoinBefore` | kernel/include/arena_allocator.h:328-338 | the words that growing the block before writes |
| `ArenaLayout.Words.JoinBehind` | kernel/include/arena_allocator.h:340-352 | the words that growing over the block behind writes |
| `ArenaLayout.Words.Free` | kernel/include/arena_allocator.h:318-352 | where the words on both sides are real, a free leaves every header and tail where it belongs if and only if no neighbour is free, or the one behind is and what lies behind that is far enough away |
| `ArenaLayout.Words.Take` | kernel/include/arena_allocator.h:244-264 | an allocation leaves every header and tail where it belongs |
| `ArenaRuns.LinksFitIff` | kernel/include/arena_allocator.h:50-54 | a free block has room for its links exactly if it has the least size |
| `ArenaRuns.TooSmallRestIff` | kernel/include/arena_allocator.h:256-263 | an allocation leaves too small a block exactly if a request below the least size takes a block of 101 bytes |
| `ArenaRuns.EveryRunIsSound` | kernel/include/arena_allocator.h:214-355 | in every state of every clean run blocks are apart, no two free ones are neighbours, and sizes and padding make up the memory |
| `ArenaRuns.AllBackIsWhole` | kernel/include/arena_allocator.h:214-355 | once everything has been given back, the memory is the one free block it was |
| `ArenaRuns.StackRunsAreClean` | kernel/include/arena_allocator.h:214-355 | giving back the last block first, with requests of at least the least size, keeps every free clean |
| `ArenaRuns.Perform` | kernel/include/arena_allocator.h:214-355 | one operation on headers, tails and links is one step of the run |
| `ArenaRuns.TailOverHeader` | kernel/include/arena_allocator.h:340-352 | of three blocks of 40 bytes, freeing the second and then the first writes a tail over the header of the third |
| `ArenaRuns.SmallBlockStaysApart` | kernel/include/arena_allocator.h:256-263 | a block of a small request ends one byte before the next header, so that freeing it does not find its neighbour |
| `ArenaBooks.FreeMatchesBooks` | kernel/include/arena_allocator.h:327-354 | a free joins, in the books, the same free blocks as in memory |
| `ArenaBooks.AllocMatchesBooks` | kernel/include/arena_allocator.h:229-264 | the best fit in memory is the first fit of the list, and leaves the same rest |
| `ArenaBooks.RunIsAccounted` | kernel/include/arena_allocator.h:214-355 | every clean run is a run of the books |
| `Base64.EncodedLength` | libc/extensions/base64.c:55-81 | four characters for every three bytes begun |
| `Base64.SymbolsAreTheAlphabet` | libc/extensions/base64.c:18-19 | the characters are those of the standard, in order |
| `Base64.QuadIsTheSameBits` | libc/extensions/base64.c:55-60 | three bytes and their four groups of six bits are the same 24 bits |
| `Base64.RestIsPadded` | libc/extensions/base64.c:69-82 | the last one or two bytes are filled up with zero bits, and padded |
| `Base64.BufferIsLargeEnoughIff` | libc/extensions/base64.c:42-46 | the overflow check fires if and only if the size wraps, and otherwise the buffer has room for the text and a nul |
| `Base64.Encode` | libc/extensions/base64.c:34-91 | writes the encoded text and a nul within the buffer |
| `Base64.DecodingTable` | libc/extensions/base64.c:111-114 | the table gives every character its value |
| `Base64.Decode` | libc/extensions/base64.c:104-163 | yields what the text denotes, never writing beyond the buffer |
| `Base64.NoiseIsIgnored` | libc/extensions/base64.c:131-134 | characters outside the alphabet may stand anywhere without changing the result |
| `Base64.RoundTripIff` | libc/extensions/base64.c:34-163 | decoding inverts encoding for every byte string but the empty one |

## Left out

Parts of the modelled files that are not modelled, and contracts that are weaker than they might be:

- ResizeRing.BufferLoopUpsample: the contributor ranges are inputs that lie within the row's window; `ResizeContributors.Enlarge` computes them.
- ResizeRing.BufferLoopDownsample: the same, with `ResizeContributors.Shrink`; reals are exact, the extra ring entry for rounding is there but rounding is not.
- ResizeRing.ShrinkRegion: the contributor ranges are inputs here too.
- ResizeRing.ResampleVertical: pixel sums are reduced to the list of scanlines a row is made of, whose coefficients `ResizeContributors.UpContributors` gives.
- ResizeRing.ResampleVerticalDown: a scanline's contribution is recorded by its number.
- ResizeContributors.DownContributors: that the coefficients of an output row are divided by their sum is not modelled; it makes none of them zero.
- BuddyAllocator.Allocator.Free: the zone order must exist, as the source asserts, and the block must not be in a chain already, as `BuddyAllocator.SoundMeetsAllocator` grants in every state of a run but one that ends it; addresses do not wrap.
- BuddyAllocator.Allocator.Allocate: free blocks must not overlap, as the same lemma grants.
- BuddyAllocator.Allocator.InsertPages: the block must not be in a chain already; its callers grant that.
- BuddyAllocator.Step: no byte may be in two blocks before the operation; how the headers are overwritten after a free that made two blocks overlap is not part of this model.
- BuddyAllocator.Drive: goes through runs that end with the first such free.
- BuddyRuns.EveryRunStaysInPool: nothing is claimed after the first free that makes two blocks share a byte: blocks of two chains may then share a header, while the chains of the model are independent of each other.
- BuddyRuns.FreeOverlapsIff: describes the first free that misses its tail; `BuddyRuns.FreeStaysSoundIff` describes later ones, too, as long as no earlier one made two blocks overlap.
- BuddyRoundTrip.FreshPoolLosesIff: for pools whose page count is a power of two; for others `BuddyRoundTrip.FreeUndoesAllocateIff` and `BuddyRuns.FreeLosesIff` decide.
- BuddyModel.CeilLog2IsLeast: models the branch of `_ullog2` that returns the floor of the logarithm; the other branch returns a number of leading zeros.
- SearchTree.BinarySearchTree.FindKey: in a tree without values the value index is 0; the source leaves it unset and never reads it.
- Scheduler.CpuContext.Create: the priority field of a new task is unset memory in the source; it is an input here and must differ from the number of levels, the mark of the idle task.
- Scheduler.CpuContext.YieldToNext: the switch of stacks and the extended processor state do nothing here; there is one processor and interrupts do not intervene.
- JsonLayout.LooseLookupsAgree: for trees with texts free of quotes and braces, and not for `{}` or numbers right before a brace, for which `JsonLayout.ScanLooseMembers` says what happens.
- JsonModel.LookupsAgree: for trees with texts free of quotes and braces; what the tokeniser does with other text is stated by `Json.Tokenise` only.
- HashMap.UnorderedMap.Insert: keys are compared by equality and the hash is a fixed function, which `StringHash.SameStringSameHash` justifies for strings once the table is built; slots are sequences, their growth is not modelled.
- Hive.HiveStore.Set: keys created by a push are not set, as the source leaves the two kinds apart without checking; addresses of allocations are inputs and memory does not run out.
- PdbIndex.AddFromNode: the source walks down a pointer in a loop; nodes are values here, stored in their parent as they are in the source's vectors, so the branch is built from its end.
- PdbIndex.Load: starts from names and symbols; reading them from the file in chunks, and the pages of the string store, are not part of this model.
- PdbRvaIndex.SymbolIndexForAddress: what it finds is stated for sorted arrays, which is what no repeated names give; for arrays with unset entries only that it chooses an entry or leaves the array, and arrays longer than a quarter of all words are excluded.
- PdbRvaIndex.SymbolNameForAddress: for entries without repeated names, and no more of them than a quarter of all words.
- IntPrint.PrintDecimal: the least signed number is excluded, because negating it is undefined in the source.
- IntPrint.UnsignedIsPrintedIff: the word 2^63 is excluded for the same reason.
- IntScan.IntScan: the stream is a string that ends in a nul; a limit of zero is not passed by any caller.
- ArenaModel.EveryRunBalances: the books know sizes only; which runs keep the sizes readable in memory is the subject of `ArenaRuns.EveryRunIsSound`, and `ArenaBooks.RunIsAccounted` makes those runs of the books.
- ArenaRuns.EveryRunIsSound: runs end with the first operation that is not clean; from there on headers are read that nobody wrote, and nothing is claimed. Memory of less than 39 bytes, from which nothing can be allocated, is excluded.
- ArenaRuns.Perform: the links are written but not followed, `Arena.Allocator` follows them; what lies behind the last block is an input, and so is whether it looks marked.
- Arena.Allocator.Free: which blocks lie right before and after is an input here, and determined by the layout in `ArenaRuns`; so is the mark of an earlier free. Reallocation is not modelled.
- Arena.Allocator.MergeIfBefore: which block lies right before is an input.
- Arena.Allocator.MergeIfAfter: which block lies right after is an input.
- Arena.Allocator.Alloc: the bytes that alignment takes from a remainder are an input.
- Base64.Encode: the outcome of the memory allocation is an input.

Parts of the repository that are not modelled at all:

- Hardware and firmware: serial lines, interrupt and timer chips, processor start-up, page tables, UEFI and ACPI, the assembly file; they are I/O and foreign state.
- The debugger, traces, video, console, fonts and the lab programs.
- The memory map of `kernel/memory.c`, and the spinlock of `kernel/include/kernel.h`.
- `fixed_allocator_free`, `vector_remove`, `unordered_map_remove` and `hive_delete`.
- Growth of vectors, the queue ring and the paged list of `kernel/include/collections.h`; linear allocator and string helpers: they would add easy members.
- `printhex`, floating point and string formatting, the maths library, pixel kernels and colour spaces of the resizer.
