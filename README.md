# A verified model of the free-list allocator of Customize_allocator

The allocator manages one arena that `init_fl` reserves. The arena is split
into blocks. Each block is a `block_t` header followed by its payload. Every
block sits in the address-ordered list. That list is the intrusive circular
doubly-linked list of `includes/list.h`, and each `block_t` embeds one of its
nodes. `fl_alloc(size)` grants the free block of the smallest sufficient
size. It splits off the unused tail when that tail is larger than one
header, and returns the address just past the granted block's header.
`fl_free(ptr)` marks the block free. It then merges the block with a free
successor and with a free predecessor.

The project has six modules:

- `List` (list.dfy) is the intrusive ring. `ListHead` is a class with mutable
  `prev`/`next` links. `IsRing(head, xs)` says that the head and the nodes
  `xs` form one ring whose links mirror each other.
  - `InitListHead`, `ListAdd` and `ListDel` rewrite links in place.
  - Their contracts say which links change. They also say what the ring
    holds afterwards.
  - `ForEach` is the `list_for_each` loop. It visits exactly the ring's
    members, in order.
- `Arena` (arena.dfy) specifies `fl_alloc` and `fl_free` on the layout the
  address list describes. The layout is a sequence of `Region(size, used)`.
  - A block's header address is the sum of `h + size` over the blocks before
    it, where `h` is `sizeof(block_t)`. A pointer is an offset from the start
    of the arena.
  - `AllocOutcome` is the relation one `fl_alloc` call must satisfy. Ties
    between equal-sized free blocks are left open.
  - `Free` is the function `fl_free` computes.
- `ArenaLemmas` (arena_lemmas.dfy) proves what the two operations guarantee:
  - the arena stays tiled and coalesced;
  - allocation makes exactly one new pointer live, and release takes exactly
    one away;
  - release undoes the allocation before it;
  - releasing twice is releasing once;
  - releasing every live pointer gives back the single block `init_fl` made.
- `FreeListAlloc` (free_list_alloc.dfy) is the allocator's state as a class.
  - `Block` is `block_t`. `Allocator` holds `root_block`, `tree_root`,
    `root_head`, and the node-to-block map that `container_of` computes.
  - `FlAlloc` and `FlFree` walk and relink the address list with the `List`
    operations.
  - They are proved to change the layout the blocks describe exactly as
    `Arena` specifies.
  - `FlAlloc` also says which block and list node it adds, and that both
    are new objects. So a caller can make any number of calls in a row.
- `Scenarios` (scenarios.dfy) proves the assertions of `main()` in `test.c`
  from the `Arena` specification. The header size `h` can be any value from 1
  to 1024 bytes.
- `TestMain` (test_main.dfy) drives `main()` of `test.c` through the
  `Allocator` class.
  - There is one method per group of calls. Each method asserts what
    `test.c` asserts for that group.
  - Each method starts in the layout the previous group leaves, and ends in
    the layout the next group needs. Run in this order, they are `main()` up
    to the stress test: `Start`, `SideBySide`, `ReuseFreedBlock`,
    `ReleaseBoth`, `OneArrayThenRelease`, `TreeRootAfterRelease`,
    `SideBySide`, `SkipSmallGap`, `ReleaseAllThenZero`.

## Model

| member | source | states |
|---|---|---|
| List.ListHead.constructor | includes/list.h:36-39 | a new node is not linked to anything |
| List.IsRing | includes/list.h:21-35 | the ring invariant: the head and its members are distinct, and each node's `next` is the following member (the head after the last) and its `prev` the one before (the head before the first) |
| List.RingLinked | includes/list.h:21-29 | in a well-formed ring, every node x, the head included, has x.next.prev == x and x.prev.next == x |
| List.InitListHead | includes/list.h:104-108 | INIT_LIST_HEAD points both links of the head at itself, which is the empty ring |
| List.ListAdd | includes/list.h:62-79 | list_add writes exactly the four links named in the code; the node then follows `at`, the old successor follows the node, and the ring holds the old members with the node inserted right after `at` |
| List.ListDel | includes/list.h:110-140 | list_del makes the two neighbours point at each other and changes no other link; the ring then holds the old members minus that node, in the same order |
| List.ForEach | includes/list.h:142-152 | list_for_each visits exactly the ring's members in `next` order, never the head, and stops after that many steps |
| List.DistinctInsert | includes/list.h:71-79 | inserting a node that is not yet in the ring keeps the ring's members distinct |
| List.DistinctRemove | includes/list.h:128-134 | unlinking a member keeps the others distinct, and the removed node is no longer a member |
| Arena.OffsetsIncrease | free_list_alloc.c:8 | every block is a header plus its payload, and no block overlaps a later one |
| Arena.PayloadsDistinct | free_list_alloc.c:8 | with a non-empty header, different blocks have different payload pointers |
| Arena.PayloadInside | free_list_alloc.c:8 | every payload lies inside the arena |
| Arena.SpanConcat | free_list_alloc.c:8 | the bytes two runs of blocks occupy add up |
| Arena.WellFormed | free_list_alloc.c:14-19 | the invariant between calls: at least one block, the headers and payloads tile exactly one header plus the capacity, and no two free blocks are neighbours |
| Arena.Initial | free_list_alloc.c:14-19 | the layout init_fl leaves: one free block of the whole capacity |
| Arena.Splits | includes/free_list_alloc.h:28-34 | the split rule: block i is split for a request of `size` bytes exactly when its tail, after the request, is larger than one header |
| Arena.Cut | includes/free_list_alloc.h:28-34 | splitting a block keeps the bytes the blocks occupy, and there is one block more |
| Arena.AllocOutcome | includes/free_list_alloc.h:28-34 | the relation one fl_alloc call must satisfy: NULL and no change for a zero-byte request or when no free block fits; otherwise the pointer is the payload of a best-fitting block, and that block is carved |
| Arena.Carve | includes/free_list_alloc.h:28-34 | granting a block keeps the bytes the blocks occupy; the block count grows by one exactly when the block splits |
| Arena.MergeNext | includes/free_list_alloc.h:36-41 | a block absorbing its successor keeps the bytes the blocks occupy, and there is one block less |
| Arena.Release | includes/free_list_alloc.h:36-41 | releasing a block keeps the bytes the blocks occupy and never adds a block |
| Arena.IndexOf | includes/free_list_alloc.h:36-41 | finds the block whose payload starts at the given address, or reports that no block's payload does |
| Arena.Free | includes/free_list_alloc.h:36-41 | fl_free keeps the bytes the blocks occupy and never adds a block |
| ArenaLemmas.IndexOfPayload | includes/free_list_alloc.h:36-41 | looking up a block's payload pointer finds that block |
| ArenaLemmas.CarveOffsets | includes/free_list_alloc.h:28-34 | a split moves no block before the granted one, puts the new free block right after the granted payload, and keeps every later block where it was |
| ArenaLemmas.MergeOffsets | includes/free_list_alloc.h:36-41 | a merge moves no block up to the absorbing one and keeps every later block where it was |
| ArenaLemmas.CarveLive | includes/free_list_alloc.h:28-34 | granting a block adds its payload pointer, which was not live before, to the live pointers and changes no other |
| ArenaLemmas.MarkLive | includes/free_list_alloc.h:36-41 | marking a used block free removes exactly its pointer from the live set |
| ArenaLemmas.MergeLive | includes/free_list_alloc.h:36-41 | merging two free neighbours changes no live pointer |
| ArenaLemmas.ReleaseLive | includes/free_list_alloc.h:36-41 | releasing a used block removes exactly its pointer from the live set |
| ArenaLemmas.FreeLive | includes/free_list_alloc.h:36-41 | fl_free(a) removes exactly `a` from the live set; for a pointer that is not live it changes nothing at all |
| ArenaLemmas.CarveCoalesced | includes/free_list_alloc.h:28-34 | granting a block of a coalesced layout leaves no two free neighbours |
| ArenaLemmas.ReleaseShape | includes/free_list_alloc.h:36-41 | release replaces the released block and its free neighbours by one free block and keeps every other block |
| ArenaLemmas.ReleaseCoalesced | includes/free_list_alloc.h:36-41 | releasing a block of a coalesced layout leaves no two free neighbours |
| ArenaLemmas.CarveWellFormed | includes/free_list_alloc.h:28-34 | granting a block that fits keeps the arena tiled and coalesced |
| ArenaLemmas.AllocResultOutcome | includes/free_list_alloc.h:28-34 | NULL with no change for an empty request or when nothing fits, or a granted best fit, is an outcome fl_alloc allows |
| ArenaLemmas.OutcomeAllocResult | includes/free_list_alloc.h:28-34 | every outcome fl_alloc allows is NULL with no change, or the grant of a best-fitting block |
| ArenaLemmas.UniqueBestFit | includes/free_list_alloc.h:28-34 | when one fitting block is strictly smaller than every other, fl_alloc has exactly one outcome: that block, carved, and its payload pointer |
| ArenaLemmas.AllocWellFormed | includes/free_list_alloc.h:28-34 | fl_alloc keeps the arena tiled and coalesced |
| ArenaLemmas.FreeWellFormed | includes/free_list_alloc.h:36-41 | fl_free keeps the arena tiled and coalesced |
| ArenaLemmas.AllocGrants | includes/free_list_alloc.h:28-34 | a non-NULL result was not live and becomes live; it is the payload of a used block of at least the requested size, inside the arena |
| ArenaLemmas.CarveRelease | includes/free_list_alloc.h:28-41 | releasing a block just granted from a coalesced layout restores that layout |
| ArenaLemmas.AllocFreeRoundTrip | includes/free_list_alloc.h:28-41 | fl_free of the pointer fl_alloc just returned restores the layout exactly |
| ArenaLemmas.FreeIdempotent | includes/free_list_alloc.h:36-41 | releasing a pointer twice has the effect of releasing it once |
| ArenaLemmas.NothingLiveIsInitial | free_list_alloc.c:14-19 | a tiled, coalesced arena with no live pointer is the single free block init_fl made |
| ArenaLemmas.FreeEachLive | includes/free_list_alloc.h:36-41 | releasing a list of pointers keeps the invariant and removes exactly those pointers from the live set |
| ArenaLemmas.ReleaseAllCoalesces | includes/free_list_alloc.h:36-41 | releasing every live pointer, in any order and with repeats, leaves one free block of the whole capacity |
| FreeListAlloc.Block.InitBlock | free_list_alloc.c:6-12 | init_block records the requested size, leaves both tree children null, and leaves the embedded list node unlinked |
| FreeListAlloc.Allocator.InitFl | free_list_alloc.c:14-19 | init_fl makes one fresh block that is both root_block and tree_root, has the requested size, and is the only member of the address list; container_of knows exactly that block's node; the layout is Initial(size) |
| FreeListAlloc.Allocator.Valid | includes/free_list_alloc.h:9-19 | the allocator's invariant: the blocks form the address ring from root_head in order, starting at root_block; container_of maps each node to its block; the blocks' sizes and flags are the layout, which is well formed; tree_root is a free block, or null when none is free |
| FreeListAlloc.Allocator.BlocksDistinct | includes/free_list_alloc.h:9-14 | different positions of the address list hold different block records |
| FreeListAlloc.Allocator.FindBestFit | includes/free_list_alloc.h:28-34 | the search finds a best-fitting free block and its header address, or none exactly when no free block is large enough |
| FreeListAlloc.Allocator.FindPayload | includes/free_list_alloc.h:36-41 | the walk finds the block whose payload starts at the given pointer, or none exactly when no block's payload does |
| FreeListAlloc.Allocator.SetUse | includes/free_list_alloc.h:11 | setting block k's `use` flag changes exactly that flag of layout[k] |
| FreeListAlloc.Allocator.SetSize | includes/free_list_alloc.h:10 | setting block k's size changes exactly that size in layout[k] |
| FreeListAlloc.Allocator.PickTreeRoot | includes/free_list_alloc.h:18 | tree_root is re-pointed at a free block, or at null when every block is in use, and the invariant holds again |
| FreeListAlloc.Allocator.LinkAfter | includes/list.h:71-79 | list_add of a new block's node after block k inserts the block at position k + 1 of the address list and of the layout, and container_of learns that node |
| FreeListAlloc.Allocator.Unlink | includes/list.h:128-134 | list_del of block j's node removes it from the address list and from the layout |
| FreeListAlloc.Allocator.Split | includes/free_list_alloc.h:28-34 | block k keeps `size` bytes, and a new free block with the rest minus one header follows it; the layout is Cut of the old one; the new block and its node are new objects, and container_of learns exactly that node |
| FreeListAlloc.Allocator.GrantSplit | includes/free_list_alloc.h:28-34 | split block i, then mark it used: the layout changes exactly as Carve says for a block that splits |
| FreeListAlloc.Allocator.Grant | includes/free_list_alloc.h:28-34 | granting block i changes the layout exactly as Carve does |
| FreeListAlloc.Allocator.Take | includes/free_list_alloc.h:28-34 | the granted block's payload pointer is returned, the layout is carved as specified, the invariant holds again, and any block it adds is a new object |
| FreeListAlloc.Allocator.FlAlloc | includes/free_list_alloc.h:28-34 | fl_alloc returns NULL and changes nothing for a zero-byte request or when no free block fits; otherwise it grants a best-fitting block and returns its payload pointer; the result is an AllocOutcome of the old layout; the invariant is kept; container_of is unchanged or learns exactly one new block's node |
| FreeListAlloc.Allocator.Absorb | includes/free_list_alloc.h:36-41 | a free block absorbs its free successor: the layout changes exactly as MergeNext says |
| FreeListAlloc.Allocator.NextOf | includes/list.h:21-29 | the node after block k's is block k + 1's, or root_head after the last block |
| FreeListAlloc.Allocator.PrevOf | includes/list.h:21-29 | the node before block k's is block k - 1's, or root_head before the first block |
| FreeListAlloc.Allocator.MarkFree | includes/free_list_alloc.h:36-41 | the block is marked free and absorbs a free successor |
| FreeListAlloc.Allocator.Coalesce | includes/free_list_alloc.h:36-41 | the block is marked free and merged with free neighbours on both sides, exactly as Release says |
| FreeListAlloc.Allocator.ReleaseBlock | includes/free_list_alloc.h:36-41 | releasing a block keeps the invariant and changes the layout exactly as Release says |
| FreeListAlloc.Allocator.FlFree | includes/free_list_alloc.h:36-41 | fl_free changes the layout exactly as Arena.Free says: NULL, an unknown pointer or a free block change nothing; the invariant is kept |
| FreeListAlloc.Allocator.ListSize | test.c:9-17 | list_size counts the blocks of the address list |
| FreeListAlloc.Allocator.TreeRootSpansArena | test.c:93-94 | once the layout is one free block again, tree_root is that block and its size is the capacity given to init_fl |
| Scenarios.TwoArraysWellFormed | test.c:63-64 | two 120-byte arrays and the free rest tile the arena and are coalesced |
| Scenarios.SecondArrayAdjacent | test.c:61-65 | from a fresh arena, the second 120-byte array starts one header after the end of the first |
| Scenarios.ReleaseFirstArray | test.c:68 | releasing the first array frees its block and merges nothing |
| Scenarios.FreedBlockReused | test.c:68-74 | a new 120-byte request after that release returns the released pointer, and three blocks are listed |
| Scenarios.BothReleasedCoalesce | test.c:77-80 | releasing both arrays, in either order, leaves one block |
| Scenarios.OneArrayTwoBlocks | test.c:84-86 | one allocation from the single block of a fresh arena leaves two blocks |
| Scenarios.ArrayReleasedRestoresArena | test.c:89-94 | an array allocated from a fresh arena and released again leaves one free block of the whole capacity |
| Scenarios.SmallGapStaysSeparate | test.c:96-101 | a released 120-byte block is too small for a 160-byte request and stays separate; the request is carved from the tail and four blocks are listed |
| Scenarios.GapAndArraysCoalesce | test.c:103-107 | releasing the two arrays still in use merges the gap, both arrays and the tail into one block |
| Scenarios.ZeroRequestIsNull | test.c:109-110 | a zero-byte request returns NULL and changes nothing |
| TestMain.Start | test.c:60 | init_fl(1 << 30) leaves a valid allocator with one free block of the whole capacity |
| TestMain.SideBySide | test.c:63-65 | through the class, two 120-byte requests on a fresh arena return pointers h and 2h + 120, and the second starts 120 bytes plus one header after the first |
| TestMain.ReuseFreedBlock | test.c:68-74 | through the class, releasing the first array and requesting 120 bytes again returns the same pointer, and list_size is 3 |
| TestMain.ReleaseBothSteps | test.c:77-78 | releasing the second array and then the first, one after the other, leaves one free block of the whole capacity |
| TestMain.ReleaseBoth | test.c:77-80 | through the class, releasing both arrays leaves list_size 1 and the layout init_fl made |
| TestMain.OneArrayThenRelease | test.c:84-89 | through the class, a 200-byte array from the single block leaves list_size 2, and releasing it restores the single block |
| TestMain.TreeRootAfterRelease | test.c:90-94 | through the class, a 120-byte array allocated and released again leaves tree_root as one block of size 1 << 30 |
| TestMain.SkipSmallGap | test.c:98-101 | through the class, with the first of two arrays released, a 160-byte request returns 3h + 240 past the gap, and list_size is 4 |
| TestMain.ReleaseAllSteps | test.c:103-105 | releasing the second and then the third array of that layout leaves one free block of the whole capacity |
| TestMain.ReleaseAllThenZero | test.c:103-110 | through the class, releasing both arrays in use leaves list_size 1, and a zero-byte request returns NULL |

## Left out

- The size-keyed tree (`l`, `r`, `tree_root`) is not modelled, because the search, split and merge code that maintains it is not part of this model. `Allocator.FindBestFit` walks the address list instead. It finds a free block of the smallest sufficient size, which is what the tree's ceiling search returns.
- Tie-breaking between free blocks of equal size: the tree decides it. `Arena.AllocOutcome` allows any of them, and every scenario of `test.c` has a unique best fit.
- Allocator.treeRoot is a ghost field that is some free block, or null when none is free. The tree shape and its order are not modelled.
- `container_of` / `list_entry` address arithmetic is modelled as the map `Allocator.entry` from list node to block.
- fl_free finds the block of a pointer by walking the address list (`Allocator.FindPayload`), not by subtracting `sizeof(block_t)` from the pointer. The walk finds the block the subtraction would reach, and it also recognises a pointer that is no block's payload.
- Pointers are offsets from the start of the arena, not machine addresses. `size_t` is an unbounded natural number, because test.c's sizes stay far below any wrap-around.
- The failed `malloc` in `init_block` and the `assert` at free_list_alloc.c:17 are not modelled. The host allocator is modelled as allocation of a fresh object.
- FreeListAlloc.Block.InitBlock: promises nothing about `use`, because free_list_alloc.c:8-11 never sets it. `Allocator.InitFl` sets the root block free.
- free_list_alloc.c:10 writes `next` and `prev` fields that `block_t` does not have. The model follows the evident intent: both tree links are null and the embedded list node is unlinked.
- `root_head` is declared at includes/free_list_alloc.h:19 but is neither defined nor set in free_list_alloc.c. The model gives the allocator its own head, which `InitFl` initialises with `INIT_LIST_HEAD`.
- The `LIST_POISONING` build option (includes/list.h:136-139) is left out, because it is a debugging aid. `ListDel` promises nothing about the removed node's links.
- fl_free of a pointer that no block's payload starts at is undefined in C. The model ignores such a pointer.
- `show`, `show_use`, `stress_test` and all of time_test.c are left out, because they are printing, random driving and timing.
- `sizeof(int)` is taken as 4, so test.c's arrays are requests of 120, 200 and 160 bytes. The scenarios are proved for every header size from 1 to 1024 bytes.
- main() of test.c is driven through the class in nine methods of `TestMain`, not in one. They are joined by their contracts: each method requires the layout, header size and pointers the one before it ensures. No single method calls them in order, so nothing carries the freshness of new blocks from one group to the next.
