# MahjongLobbyMemcpyPool allocator core, modelled in Dafny

This project models the three-tier small-object allocator of MahjongLobbyMemcpyPool, in
the style of TCMalloc. It proves properties of the model.

- **Size classes** (`common.dfy`, from `common/common.h`). `RoundUp` and `GetIndex` are
  pure `size_t` arithmetic. The 64-bit wrap-around is written out with `Wrap`.
- **Raw memory and intrusive lists** (`freelist.dfy`). A free block's first word holds the
  address of the next block. Memory is a `Memory` object whose `words` map gives those
  first words; an address never written reads 0, the null pointer. `IsList(words, h, L)`
  says `L` is the null-terminated list reached from `h`.
- **Page cache** (`pagecache.dfy`, from `common/majhongpagecache.cpp`).
  - Class `MahjongPageCache` holds the nodes, the ordered free index (page count to chain
    head) and the work index (address to node).
  - `NewCacheByPageNum` does a first fit with `lower_bound`, takes the chain head and
    splits off the rest.
  - `DeleteCacheByPageNum` merges forward only, then pushes the span on its chain.
  - `PageNode` objects are a map from node identity to record; identity 0 is null.
  - The ghost `chains` field records the node sequence behind each free-index key.
- **Central cache** (`centralcache.dfy`, from `common/majhongcentralcache.cpp`).
  - Class `MahjongCentralCache` keeps one head per class in an array and shares the
    `Memory` object.
  - `GetCacheByRange` detaches a batch from the head. On an empty list it carves an
    8-page span into blocks instead.
  - `SetCacheByRange` walks a returned chain and prepends it.
- **Thread cache** (`threadcache.dfy`, from `common/mahjongthreadcache.cpp`).
  - Class `MahjongThreadCache` keeps the head and count arrays.
  - A request pops from its class list, or fetches a batch on a miss.
  - A free pushes, and trims back to the central cache once the count passes 64.

Each tier has a value-level state and ghost transition functions: `Allocate`/`Release`,
`GetRange`/`SetRange`, and `NewCache`/`DeleteCache`/`Fetch`/`Trim`. Each method's
`ensures` ties its new state to the transition function. Lemmas prove what each
transition keeps (`Inv`, `CentralOk`, `PoolOk`) and what it does. Here is what the
invariants say:

- **Page cache (`Inv`):** the free chains are well formed, and each is filed under the page count of its nodes. Every
  registration is valid. The nodes' pages add up to exactly what the system has mapped.
- **Central and thread caches (`CentralOk`, `PoolOk`):**
  - every class list is a null-terminated list;
  - no block is on two lists;
  - every listed block lies below the next address the system maps;
  - no word above that address has been written.

The source's quirks are modelled as written:

- The trim's split loop never moves (`mahjongthreadcache.cpp:117`).
- A miss still decrements the count (`:25`).
- A fetched batch is installed without raising the count (`:87-91`).
- A byte count is passed as a node bound (`:140`), and a bound of 0 still returns one
  block (`majhongcentralcache.cpp:131-138`). A free of size 0 (class 0, `RoundUp(0) == 0`)
  that triggers a trim therefore sends back exactly one block, and the rest of the chain
  after the head is left off both class-0 lists (`ThreadCache.TrimSizeZero`).
- The 8-page span is carved even when more pages were fetched
  (`majhongcentralcache.cpp:47`).
- A free-index key can be left with a null head (`majhongpagecache.cpp:92-98`).

Where the code departs from what a TCMalloc-style allocator is expected to do, the model
follows the code:

- On a miss, such an allocator installs the rest of the fetched batch and counts it. This
  code installs the blocks but leaves the count as it was, already decremented
  (`mahjongthreadcache.cpp:25`, `:87-91`).
- A trim would normally keep part of the list and hand the rest back. Here the split loop
  never advances (`:117`), so only the head is kept, with `keep` as its count. Everything
  after the head goes back, up to at most `max(bound, 1)` blocks, where the bound
  `(count - keep) * RoundUp(size)` is a byte count used as a node count (`:140`). For a
  size of 0 the bound is 0, so one block goes back and the rest of the chain is lost.
- A refill would normally ask for a span large enough for the batch. This code always
  carves 8 pages (`majhongcentralcache.cpp:47`). For blocks above 32768 bytes that is zero
  blocks, and the bare span is handed out as a single block.
- Returning a chain to a central list would normally splice it in constant time.
  `SetCacheByRange` instead walks the returned chain for at most `max(nSize, 1)` nodes:
  its count starts at 1, so even `nSize == 0` takes one block
  (`majhongcentralcache.cpp:130-138`).
- A page cache would normally merge a released span with free neighbours on both sides.
  `DeleteCacheByPageNum` merges only with the span *after* the released one, and only when
  that span is already free. Of two adjacent spans, only the order "later span first"
  merges (`PageCache.ReleaseMerge`).

## Model

| member | source | states |
|---|---|---|
| `Common.Wrap` | common/common.h:37-51 | The `size_t` value of an integer: an in-range value is itself, and a negative one within one period gains 2^64. |
| `Common.RoundUp` | common/common.h:37-41 | The result is a multiple of 8. When `bytes + 7` does not wrap, `bytes <= r < bytes + 8`. |
| `Common.GetIndex` | common/common.h:44-51 | When `bytes + 7` does not wrap, `(r + 1) * 8 == RoundUp(max(bytes, 8))`: the class's block size is the rounded request. |
| `Common.ClassSize` | common/common.h:44-51 | A class's block size is a positive multiple of 8. |
| `Common.RoundUpIdempotent` | common/common.h:40 | Rounding a rounded size changes nothing. |
| `Common.GetIndexExamples` | common/common.h:46-50 | Every request up to 8 bytes is class 0, and 16 bytes is class 1. |
| `Common.GetIndexOfRoundUp` | common/common.h:40-50 | A request and its rounded size have the same class. |
| `Common.GetIndexInRange` | common/common.h:15-51 | Every request of at most MAX_BYTES has a class below FREE_LIST_SIZE. |
| `Common.ClassSizeCovers` | common/common.h:44-51 | The class's block holds the request and is less than 8 bytes larger than `max(bytes, 8)`. |
| `Common.GetIndexMonotone` | common/common.h:50 | A larger request never gets a smaller class. |
| `Common.WrapAtTopOfRange` | common/common.h:37-51 | As written, both computations wrap at the top of `size_t`: `RoundUp(2^64-1) == 0` and `GetIndex(2^64-1) == 2^64-1`. |
| `FreeList.Memory.constructor` | common/majhongpagecache.cpp:143 | Fresh memory has no written word, so every word reads null. |
| `FreeList.Walk` | common/majhongcentralcache.cpp:87-92 | Following at most `k` links from `h` visits at most `k` blocks. It visits none exactly when `h` is null or `k` is 0. It starts at `h`, visits no null block, and each visited block's word is the next visited block. |
| `FreeList.WalkOfList` | common/majhongcentralcache.cpp:87-92 | On a list `L`, a walk of `k` links visits exactly the first `min(k, |L|)` blocks and stops at block `k`, or at null past the end. |
| `FreeList.ListNext` | common/mahjongthreadcache.cpp:32 | The head's word is the second block, or null for a one-block list. The blocks after the head form the list that word heads. |
| `FreeList.ListPush` | common/mahjongthreadcache.cpp:54-55 | Writing the old head into a non-null block on no list, and making that block the head, gives the list with the block in front. |
| `FreeList.CutFront` | common/mahjongthreadcache.cpp:128-129 | Null-terminating block `m-1` of a list leaves its first `m` blocks as a list from the same head. |
| `FreeList.CutBack` | common/mahjongthreadcache.cpp:128-129 | Null-terminating block `m-1` leaves the blocks from `m` on as a list headed by block `m`. |
| `FreeList.Detach` | common/majhongcentralcache.cpp:87-100 | Walking `k` blocks and null-terminating the last one walked splits a list into its first `min(k, |L|)` blocks and the rest, each a list. |
| `FreeList.Append` | common/majhongcentralcache.cpp:142 | Linking the last block of a list to the head of a disjoint list gives the concatenation. |
| `FreeList.Prepend` | common/majhongcentralcache.cpp:130-143 | For a chain of at most `max(k, 1)` blocks, the walk finds the whole chain. Linking its tail to the head of a disjoint list gives the concatenation. |
| `FreeList.Unlink` | common/majhongpagecache.cpp:103-110 | Pointing block `j-1` at block `j`'s successor leaves the list without block `j`. |
| `FreeList.ListFromLinks` | common/majhongcentralcache.cpp:53-60 | Distinct non-null blocks, each pointing at the next and the last at null, form a list. |
| `PageCache.LowerBound` | common/majhongpagecache.cpp:13-14 | `std::map::lower_bound`: the least key at least `n` when there is one. The result is none exactly when every key is below `n`. |
| `PageCache.Empty` | common/majhongpagecache.h:28-45 | A fresh page cache satisfies the invariant, has no null head, and holds no pages. |
| `PageCache.TakeHead` | common/majhongpagecache.cpp:19-26 | Definition: the key's head is replaced by its successor, and a key whose head has no successor is erased. `TakeHeadKeeps` and `TakeHeadFree` state its effect. |
| `PageCache.Split` | common/majhongpagecache.cpp:29-44 | Definition: the node keeps its first `n` pages. A new node for the pages after them goes to the head of the chain of its page count. `SplitRest`, `SplitKeeps`, `SplitTotal` and `SplitFreePages` state its effect. |
| `PageCache.Allocate` | common/majhongpagecache.cpp:8-67 | Definition of `NewCacheByPageNum`'s state and grant. A first fit under `lower_bound` takes the head of that key, splits it when larger, and registers it. With no fit, fresh pages come from the system through the helper `FromSystem` (lines 59-66), which registers one node of `n` pages at the next address; `FromSystemKeeps` states its effect. The `Allocate…` lemmas state its effect in each case. |
| `PageCache.SystemRefuses` | common/majhongpagecache.cpp:131-142 | Definition: the system refuses an empty request and one whose pages do not fit below 2^64. |
| `PageCache.Push` | common/majhongpagecache.cpp:125-127 | Definition: the node is linked in front of the chain of its page count and becomes the key's head. `PushPlaces`, `PushKeeps` and `PushCounts` state its effect. |
| `PageCache.SpanEnd` | common/majhongpagecache.cpp:84 | Definition: the address `n` pages past `addr`, with the byte count `n * PAGESIZE` wrapped as a `size_t`. |
| `PageCache.UnlinkFree` | common/majhongpagecache.cpp:95-112 | Definition: a node first found at the head is replaced by its successor; otherwise its predecessor is pointed past it. `UnlinkAt`, `UnlinkShape` and `UnlinkShrinks` state its effect. |
| `PageCache.Absorb` | common/majhongpagecache.cpp:116-121 | Definition: after the unlink, the absorbed node's pages are added to the released node's, and the absorbed node and its registration go. `AbsorbPages`, `AbsorbWork`, `AbsorbFreeIds` and `AbsorbKeeps` state its effect. |
| `PageCache.MergeNext` | common/majhongpagecache.cpp:84-122 | The released node stays a node, and the free index and chains keep the same keys. `MergeNextEffect` states when it merges and what changes. |
| `PageCache.Release` | common/majhongpagecache.cpp:70-128 | Definition of `DeleteCacheByPageNum`'s new state: an unknown address changes nothing; otherwise the forward merge, then the push. `ReleaseKeeps`, `ReleaseFrees` and `ReleaseMerge` state its effect. |
| `PageCache.TakeHeadFree` | common/majhongpagecache.cpp:16-26 | Taking the head of a key's chain takes exactly that node, and its pages, off the free chains. |
| `PageCache.TakeHeadKeeps` | common/majhongpagecache.cpp:16-26 | Taking the head of a key's chain keeps the invariant and leaves the head on no chain. |
| `PageCache.SplitRest` | common/majhongpagecache.cpp:31-40 | The remainder node heads a well-formed chain under its page count `pages - n`. |
| `PageCache.SplitKeeps` | common/majhongpagecache.cpp:29-44 | Splitting a node on no chain keeps the invariant, and the shrunk node stays on no chain. |
| `PageCache.SplitTotal` | common/majhongpagecache.cpp:29-44 | Splitting conserves the total page count. |
| `PageCache.SplitFreePages` | common/majhongpagecache.cpp:29-44 | Splitting adds exactly the remainder's `pages - n` pages to the free chains. |
| `PageCache.FromSystemKeeps` | common/majhongpagecache.cpp:52-66 | Registering fresh system pages keeps the invariant, adds `n` to the total and nothing to the free chains. |
| `PageCache.AllocateKeeps` | common/majhongpagecache.cpp:8-67 | `NewCacheByPageNum` keeps the page-cache invariant. |
| `PageCache.AllocateFromFree` | common/majhongpagecache.cpp:13-48 | On a first fit with a non-null head, the head is granted at its own address, shrunk to exactly `n` pages, registered under that address, and left off the chains. |
| `PageCache.AllocateRemainder` | common/majhongpagecache.cpp:29-44 | When the head had `k > n` pages, a new node at `addr + n * PAGESIZE` with `k - n` pages heads the key `k - n`. With `k == n` the nodes are unchanged. |
| `PageCache.AllocateFromFreeCounts` | common/majhongpagecache.cpp:13-48 | A first fit moves exactly `n` pages off the free chains and keeps the total; the free nodes lose the head and gain only the remainder. |
| `PageCache.AllocateFromSystem` | common/majhongpagecache.cpp:51-66 | With no key of at least `n` pages, the system is asked. A refusal (an empty request, or no room below the top of the address space) returns null and changes nothing. Otherwise the fresh span is granted at the old next address, registered with `n` pages, and adds `n` to the total. |
| `PageCache.AllocateNoFree` | common/majhongpagecache.cpp:51-66 | With an empty free index every request goes to the system, and the free index stays empty. |
| `PageCache.AllocateNoNullHeads` | common/majhongpagecache.cpp:13-26 | Without null heads in the free index, a request never meets the null dereference and creates no null head. |
| `PageCache.AllocateGranted` | common/majhongpagecache.cpp:46-66 | A granted address is in the work index, mapped to a node of exactly `n` pages that is on no free chain. |
| `PageCache.IndexOf` | common/majhongpagecache.cpp:100-112 | The first position of `x` in a chain that holds it. |
| `PageCache.Touch` | common/majhongpagecache.cpp:92 | `operator[]` on the free index leaves the key present, with the chain keys agreeing. |
| `PageCache.TouchKeeps` | common/majhongpagecache.cpp:92 | Touching a key keeps the invariant, every node, every registration, the set of free nodes and every existing chain. |
| `PageCache.UnlinkAt` | common/majhongpagecache.cpp:95-112 | Unlinking the node first found at position `j` of its chain replaces the key's head when `j == 0`. Otherwise it points node `j-1` at the node's successor. Either way the chain loses position `j`. |
| `PageCache.UnlinkShape` | common/majhongpagecache.cpp:95-112 | Unlinking changes no node identity, page count, address or registration, and no other key's chain. |
| `PageCache.UnlinkShrinks` | common/majhongpagecache.cpp:95-112 | After unlinking, every node on a chain was on the same chain before and is not the unlinked node. |
| `PageCache.PushPlaces` | common/majhongpagecache.cpp:125-127 | Pushing a node on no chain makes it the head of the chain of its page count, and puts nothing else on a chain. |
| `PageCache.PushKeeps` | common/majhongpagecache.cpp:125-127 | Pushing a node on no chain keeps the invariant, and the node becomes free. |
| `PageCache.PushCounts` | common/majhongpagecache.cpp:125-127 | Pushing adds the node's pages to the free pages and none to the total. |
| `PageCache.AbsorbPages` | common/majhongpagecache.cpp:118-120 | The merged node holds the sum of both page counts, with no wrap-around; the absorbed node is gone and the total is kept. |
| `PageCache.AbsorbWork` | common/majhongpagecache.cpp:119 | Merging erases exactly the absorbed address from the work index and keeps every other registration valid. |
| `PageCache.AbsorbFreeIds` | common/majhongpagecache.cpp:95-121 | Merging takes the absorbed node, and only it, off the free chains. |
| `PageCache.AbsorbKeeps` | common/majhongpagecache.cpp:95-121 | Merging keeps the invariant and leaves the released node on no chain. |
| `PageCache.MergeNextEffect` | common/majhongpagecache.cpp:84-122 | A merge happens exactly when the span registered just past the released one is free. It then adds that span's pages to the released span, erases its node and registration, and takes its pages off the free ones. Otherwise nodes and registrations are unchanged. Either way the total is kept. |
| `PageCache.MergeNextKeeps` | common/majhongpagecache.cpp:84-122 | The merge step keeps the invariant and leaves the released node on no chain. |
| `PageCache.ReleaseKeeps` | common/majhongpagecache.cpp:70-128 | `DeleteCacheByPageNum` keeps the page-cache invariant. |
| `PageCache.ReleaseFrees` | common/majhongpagecache.cpp:74-128 | An unknown address changes nothing. A known span stays registered and becomes the head of the chain of its final page count. Its pages become free and the total is kept. |
| `PageCache.ReleaseMerge` | common/majhongpagecache.cpp:84-127 | With a merge, the span grows by the neighbour's pages, the neighbour's node and registration go, and the neighbour leaves the free nodes while the span joins them. Without one, the span keeps its pages and the work index is unchanged. |
| `PageCache.ReleaseThenAllocate` | common/majhongpagecache.cpp:8-128 | A request for the page count of a span just released gets that same span back. |
| `PageCache.TwoSpansRelease` | common/majhongpagecache.cpp:92-98 | In a two-span cache, releasing the first span absorbs the free second span, which was alone on its chain. Key 1 is left in the free index with a null head, and the merged span heads key 2. |
| `PageCache.ReleaseLeavesNullHead` | common/majhongpagecache.cpp:13-26 | There is a valid page cache without null heads where one release creates a null head, and the next one-page request then meets the null dereference. |
| `PageCache.MahjongPageCache.constructor` | common/majhongpagecache.h:28-45 | The page cache starts empty, valid and without null heads. |
| `PageCache.MahjongPageCache.NewCacheBySystem` | common/majhongpagecache.cpp:131-145 | A refusal returns null and changes nothing. Otherwise it returns the old next address and moves that address past `n` pages. |
| `PageCache.MahjongPageCache.TakeFreeHead` | common/majhongpagecache.cpp:19-26 | The new state is `TakeHead` of the old. |
| `PageCache.MahjongPageCache.SplitSpan` | common/majhongpagecache.cpp:29-44 | The new state is `Split` of the old. |
| `PageCache.MahjongPageCache.NewCacheByPageNum` | common/majhongpagecache.cpp:8-67 | It keeps `Valid()`, and its new state and result are `Allocate` of the old state. |
| `PageCache.MahjongPageCache.TouchKey` | common/majhongpagecache.cpp:92 | The new state is `Touch` of the old. |
| `PageCache.MahjongPageCache.UnlinkNext` | common/majhongpagecache.cpp:95-113 | It reports found exactly when the node is on the chain of its page count. If found, the new state is `UnlinkFree` of the old; otherwise nothing changes. |
| `PageCache.MahjongPageCache.FindPrev` | common/majhongpagecache.cpp:100-112 | The walk finds the node exactly when it is on the chain. It then returns the node's predecessor and the node's first position. |
| `PageCache.MahjongPageCache.PushSpan` | common/majhongpagecache.cpp:125-127 | The new state is `Push` of the old. |
| `PageCache.MahjongPageCache.AbsorbSpan` | common/majhongpagecache.cpp:116-121 | The new state is `Absorb` of the state before the unlink. |
| `PageCache.MahjongPageCache.MergeNextSpan` | common/majhongpagecache.cpp:84-122 | The new state is `MergeNext` of the old. |
| `PageCache.MahjongPageCache.DeleteCacheByPageNum` | common/majhongpagecache.cpp:70-128 | It keeps `Valid()`, and the new state is `Release` of the old at `SpanEnd(ptr, n)`: `ptr` plus the `size_t` product `n * PAGESIZE`, wrapped. |
| `CentralCache.PagesFor` | common/majhongcentralcache.cpp:155-171 | Definition: 8 pages up to 32 KiB, otherwise the byte size rounded up to pages, wrapped as a `size_t`. `PagesForCovers` states its bounds. |
| `CentralCache.Carve` | common/majhongcentralcache.cpp:46-78 | Carving keeps the number of classes. It uses the helper definitions `TotalBlocks` (`SPAN_BYTES / size`, line 47), `AllocBlocks` (`min(batch, TotalBlocks)`, line 48) and `Handed` (the handed-out chain, or the bare span when no block fits). The carved blocks' layout and lists are stated by `CarveHanded`, `CarveRest`, `CarveFrame` and `CarveKeeps`. |
| `CentralCache.DetachFront` | common/majhongcentralcache.cpp:82-100 | Detaching keeps the number of classes. `DetachShape`, `DetachKeeps` and `DetachApart` state what is cut off and what stays. |
| `CentralCache.GetRange` | common/majhongcentralcache.cpp:13-111 | The central state keeps one list per class. `GetRangeKeeps`, `SetThenGet` and `GetThenSet` state the result and the new state. |
| `CentralCache.SetRange` | common/majhongcentralcache.cpp:114-152 | The central state keeps one list per class. `SetRangeShape` and `SetRangeKeeps` state the new list and head. |
| `CentralCache.PagesForCovers` | common/majhongcentralcache.cpp:155-171 | Blocks up to 32 KiB get 8 pages. Larger blocks get the fewest pages that hold one block. |
| `CentralCache.BlocksApart` | common/majhongcentralcache.cpp:47-75 | Carved blocks do not overlap: each lies at least `size` bytes past the one before. |
| `CentralCache.TotalFits` | common/majhongcentralcache.cpp:47 | The blocks carved from a span fit in its 8 pages. |
| `CentralCache.BlocksInSpan` | common/majhongcentralcache.cpp:47-75 | Every carved block, with its `size` bytes, lies inside the span. |
| `CentralCache.ChainIsList` | common/majhongcentralcache.cpp:53-60 | Chaining distinct non-null blocks in order makes them a null-terminated list and writes no other word. |
| `CentralCache.CarvePartition` | common/majhongcentralcache.cpp:47-75 | The handed-out blocks followed by the remainder are exactly the carved blocks, in address order. |
| `CentralCache.HandedBeforeRest` | common/majhongcentralcache.cpp:47-75 | No block is both handed out and on the remainder list. |
| `CentralCache.CarveHanded` | common/majhongcentralcache.cpp:50-61 | The handed-out blocks form a list. With one block no link is written, so that relies on the fresh span's null word. |
| `CentralCache.CarveRest` | common/majhongcentralcache.cpp:64-78 | The remaining blocks form the new class list headed by the class head. |
| `CentralCache.CarveFrame` | common/majhongcentralcache.cpp:46-78 | A refill writes no word outside its span. |
| `CentralCache.CarveKeeps` | common/majhongcentralcache.cpp:46-78 | A refill keeps the class lists well formed and disjoint, and the other classes unchanged. The handed-out blocks are a list, in the span and on no list. |
| `CentralCache.DetachShape` | common/majhongcentralcache.cpp:82-100 | A detach walks the first `min(batch, |L|)` blocks and null-terminates the last. The block after it becomes the head, and the class list keeps the rest. |
| `CentralCache.DetachKeeps` | common/majhongcentralcache.cpp:82-100 | Detaching keeps the lists consistent. The detached chain is a non-empty list, the front of the class list, and nothing else changes. |
| `CentralCache.DetachApart` | common/majhongcentralcache.cpp:82-100 | Every detached block was on the class list and is on no list afterwards. |
| `CentralCache.RefillPages` | common/majhongcentralcache.cpp:36-43 | A refill's page request, with no free span, is granted at the old next address. The next address moves past the carved span. |
| `CentralCache.GetRangeKeeps` | common/majhongcentralcache.cpp:13-111 | `GetCacheByRange` keeps the central and page-cache invariants and never lowers the next address. It returns null exactly when it hands out nothing. Otherwise the handed-out blocks are a list from the result, each from the class list or newly mapped, and on no list. The other classes, and every other word below the old next address, are unchanged. |
| `CentralCache.SetRangeShape` | common/majhongcentralcache.cpp:130-143 | Putting back a chain links the last of its first `min(max(nSize, 1), |C|)` blocks to the old head, makes `start` the head, and puts those blocks in front of the class list. |
| `CentralCache.SetRangeKeeps` | common/majhongcentralcache.cpp:114-152 | Putting back a chain of owned blocks keeps the invariants. The class list becomes the walked prefix followed by the old list, and the other classes are unchanged. |
| `CentralCache.SetThenGet` | common/majhongcentralcache.cpp:13-143 | After a chain is put back, the next request for the class returns its start. A batch no longer than the walked prefix is exactly the chain's first blocks. |
| `CentralCache.GetThenSet` | common/majhongcentralcache.cpp:13-143 | Putting a detached batch straight back, with its length as the bound, restores the class list and every head. |
| `CentralCache.MahjongCentralCache.constructor` | common/majhongcentralcache.h:26-46 | Every class list starts empty and the cache is valid. |
| `CentralCache.MahjongCentralCache.GetCacheByPageCacheSize` | common/majhongcentralcache.cpp:155-171 | The page cache's new state and grant are `Allocate(old, PagesFor(size))`. |
| `CentralCache.MahjongCentralCache.LinkBlocks` | common/majhongcentralcache.cpp:53-75 | The loop leaves the words exactly as `Chain` of the blocks `lo .. hi-1`: each points at the next, and the last at null. |
| `CentralCache.MahjongCentralCache.CarveSpan` | common/majhongcentralcache.cpp:46-78 | The new state is `Carve` of the old. |
| `CentralCache.MahjongCentralCache.TakeBatch` | common/majhongcentralcache.cpp:82-100 | The new state is `DetachFront` of the old. |
| `CentralCache.MahjongCentralCache.WalkBatch` | common/majhongcentralcache.cpp:83-92 | The walk counts `min(batch, |L|)` blocks. It ends with `temp` the last block walked and `cur` the block after it, or null. |
| `CentralCache.MahjongCentralCache.GetCacheByRange` | common/majhongcentralcache.cpp:13-111 | It keeps `Valid()`, and the new central state, the page-cache state and the result are `GetRange` of the old. |
| `CentralCache.MahjongCentralCache.SetCacheByRange` | common/majhongcentralcache.cpp:114-152 | It keeps `Valid()`, and the new state is `SetRange` of the old. |
| `ThreadCache.GetBatchNum` | common/mahjongthreadcache.cpp:148-181 | The batch number is between 1 and 64. |
| `ThreadCache.BaseNum` | common/mahjongthreadcache.cpp:150-176 | The table gives at most 64 blocks per batch, and gives none exactly above 1024 bytes; `BatchFollowsTable` states the byte bound. |
| `ThreadCache.CheckIsReturn` | common/mahjongthreadcache.cpp:184-188 | A trim is called for exactly when the count exceeds 64, and then the trim lowers it: `keep = max(count / 4, 1)` is at least 16 and below the count. |
| `ThreadCache.Fetch` | common/mahjongthreadcache.cpp:66-94 | A fetch keeps the pool's shape. `FetchCentral` and `FetchKeeps` state the returned block and the new lists. |
| `ThreadCache.NewCache` | common/mahjongthreadcache.cpp:8-38 | A request keeps the pool's shape. `NewKeeps`, `PopKeeps` and `DeleteThenNew` state the result and the new state. |
| `ThreadCache.Cut` | common/mahjongthreadcache.cpp:125-133 | Cutting keeps the pool's shape and the page cache. `CutKeeps` states that the blocks after the head become an unowned list. |
| `ThreadCache.Trim` | common/mahjongthreadcache.cpp:97-145 | A trim keeps the pool's shape and the page cache. `TrimEffect`, `TrimHead` and `TrimKeeps` state the new lists and counts. |
| `ThreadCache.PushHead` | common/mahjongthreadcache.cpp:54-56 | A push keeps the pool's shape and the page cache. `PushHeadKeeps` states that the invariant is kept. |
| `ThreadCache.DeleteCache` | common/mahjongthreadcache.cpp:41-63 | A free keeps the pool's shape and the page cache. `DeleteKeeps`, `DeleteShape` and `DeleteThenNew` state its effect. |
| `ThreadCache.BatchFollowsTable` | common/mahjongthreadcache.cpp:150-180 | The cap never binds: the batch is the table value 64/32/16/8/4/2, or 1 above 1024 bytes. Up to 1024 bytes a batch holds at most 4096 bytes. |
| `ThreadCache.BatchNonIncreasing` | common/mahjongthreadcache.cpp:148-181 | Larger blocks never come in larger batches. |
| `ThreadCache.PushHeadKeeps` | common/mahjongthreadcache.cpp:53-56 | Pushing a block the caller owns keeps the pool invariant. |
| `ThreadCache.CutKeeps` | common/mahjongthreadcache.cpp:125-133 | Cutting the class list after its head keeps the pool invariant. The blocks after the head remain a list, owned by nobody, for the central cache. |
| `ThreadCache.TrimEffect` | common/mahjongthreadcache.cpp:97-145 | A trim from the class head with a count of at most 1, or with no head, changes nothing. Otherwise the thread list becomes the head alone, with `keep = max(count / 4, 1)` as its count. The first `min(max(B, 1), |C|)` blocks of the chain `C` after the head go in front of the central list of the class, and the first of them becomes its head; here `B` is the wrapped byte bound `(count - keep) * RoundUp(size)`. Every other class, thread and central, and the page cache are unchanged. |
| `ThreadCache.TrimSizeZero` | common/mahjongthreadcache.cpp:137-142 | For a size of 0 the trim's bound is 0, yet exactly one block goes back: the thread list becomes the head alone, and the central list of class 0 gains only the block after the head. |
| `ThreadCache.TrimHead` | common/mahjongthreadcache.cpp:113-132 | A trim called with the class head leaves that head in place. |
| `ThreadCache.SendKeeps` | common/mahjongthreadcache.cpp:136-143 | Handing the central cache a chain of blocks that nobody owns keeps the pool invariant. |
| `ThreadCache.TrimKeeps` | common/mahjongthreadcache.cpp:97-145 | A trim keeps the pool invariant and keeps the head in place. |
| `ThreadCache.DeleteKeeps` | common/mahjongthreadcache.cpp:41-63 | Freeing keeps the pool invariant: a small block must be owned by the caller, while a large block may be any pointer and changes nothing. A small block becomes the head of its class list. |
| `ThreadCache.FetchCentral` | common/mahjongthreadcache.cpp:69-75 | The central step of a miss keeps the pool invariant and never lowers the next address. A non-null result heads the batch list, and the batch's blocks are on no list. |
| `ThreadCache.FetchKeeps` | common/mahjongthreadcache.cpp:66-94 | A miss keeps the pool invariant, never lowers the next address, and hands the caller a block it owns, or null. |
| `ThreadCache.PopKeeps` | common/mahjongthreadcache.cpp:28-33 | Popping the head of a non-empty class list keeps the pool invariant and hands the caller the old head, now owned. |
| `ThreadCache.NewKeeps` | common/mahjongthreadcache.cpp:8-38 | A request keeps the pool invariant and never lowers the next address. A small request's non-null result is a block the caller owns. |
| `ThreadCache.DeleteShape` | common/mahjongthreadcache.cpp:41-63 | A free leaves the freed block as the class head. Without a trim it is exactly the push. |
| `ThreadCache.DeleteThenNew` | common/mahjongthreadcache.cpp:8-63 | Freeing a block and then asking for the same size returns that block. Without a trim, every head, count and list is restored. |
| `ThreadCache.MahjongThreadCache.constructor` | common/mahjongthreadcache.h:25-38 | A fresh thread cache has every list empty and every count 0, and leaves the central and page caches as they were. |
| `ThreadCache.MahjongThreadCache.MahjongNewCache` | common/mahjongthreadcache.cpp:8-38 | It keeps `Valid()`, and the new pool and the result are `NewCache` of the old pool. |
| `ThreadCache.MahjongThreadCache.MahjongDeleteCache` | common/mahjongthreadcache.cpp:41-63 | It keeps `Valid()`, and the new pool is `DeleteCache` of the old. |
| `ThreadCache.MahjongThreadCache.GetCacheByCentralCache` | common/mahjongthreadcache.cpp:66-94 | It keeps `Valid()`, and the new pool and the result are `Fetch` of the old pool. |
| `ThreadCache.MahjongThreadCache.SetCacheToCentralCache` | common/mahjongthreadcache.cpp:97-145 | It keeps `Valid()`, and the new pool is `Trim` of the old. |

## Left out

- Locks, atomics and memory orders (`std::mutex`, the spin locks, `memory_order`), the
  `try`/`catch` blocks that only release them, and `thread_local`: every call is modelled as
  one atomic, sequential step.
- `mmap` and `memset` (`NewCacheBySystem`): modelled as a bump allocator over the address
  space below 2^64, whose fresh words read null. It refuses only an empty request and one
  that does not fit; any other `mmap` failure is not modelled.
- `malloc` and `free` on the large-object path: `malloc`'s result is the parameter
  `fromMalloc`, and `free` leaves every cache unchanged.
- The `GetInstance` singletons are replaced by explicit objects passed to the constructors.
  The `MemoryPool` facade, the unused `BlockHeader` and the demo program are not modelled.
- Only the first word of each block is modelled. Overlap between a block's other bytes and
  the caller's data is not.
- `new PageNode`/`delete` become fresh identities and map removal; node objects are not
  heap objects.
- Pointer arithmetic is on unbounded naturals. The next mapped address stays at most 2^64,
  so no span address wraps. Adding a byte count to a pointer is not wrapped either; the
  byte count itself is (`PageCache.SpanEnd`).
- `PageCache.MahjongPageCache.NewCacheBySystem`, `PageCache.SystemRefuses` and
  `PageCache.MahjongPageCache.NewCacheByPageNum`: a page count whose byte size
  `n * PAGESIZE` reaches 2^64 (at least 2^52 pages) is refused rather than wrapped. The
  source computes that size as a wrapped `size_t` (`majhongpagecache.cpp:133`). It would
  then map the wrapped byte count, or fail when it wraps to 0, and still register a node
  of `n` pages.
- The 32768-entry class arrays are `array`s of that length. Nothing about their memory
  footprint is modelled.
- `PageCache.MahjongPageCache.DeleteCacheByPageNum`: requires that the released span is not
  already on a free chain. A double release makes a cyclic chain in the source, on which
  the unlink walk does not terminate.
- `PageCache.MahjongPageCache.DeleteCacheByPageNum` is never called by the central or
  thread cache. `CentralCache.MahjongCentralCache.Valid` therefore keeps the page cache's
  free index empty, which is what the hierarchy does.
- `PageCache.MahjongPageCache.NewCacheByPageNum`: the null dereference at line 16, on a key
  with a null head, is the result `NullHeadFault`, not a crash.
- `CentralCache.MahjongCentralCache.SetCacheByRange`: requires the returned chain to be a
  list of blocks below the next address and on no central list, given as the ghost `C`.
  The source accepts any pointer.
- `ThreadCache.MahjongThreadCache.MahjongDeleteCache`: requires, for a size of at most
  MAX_BYTES, a block the caller owns: non-null, below the next address, and on no list.
  A double free or a foreign pointer corrupts the lists in the source, and the model does
  not follow that corruption. A larger size goes to `free` with any pointer.
- `ThreadCache.MahjongThreadCache.SetCacheToCentralCache`: requires `start` to be the class
  head, which is how its only caller invokes it.
- `ThreadCache.MahjongThreadCache.GetCacheByCentralCache`: requires an empty class list,
  which is how its only caller invokes it.
- `ThreadCache.MahjongThreadCache.constructor`: starts from zeroed arrays, as a
  `thread_local` static object is zero-initialised.
- Which size class a block was carved for is not tracked. A block freed with another size
  goes on that size's list, as in the source.
- Blocks beyond the walk bound of `SetCacheByRange` are dropped from every list, as in the
  source (a leak). The model keeps no record of them.
- `Common.RoundUp` and `Common.GetIndex`: their bounds are stated only where `bytes + 7`
  does not wrap. The wrap itself is stated in `Common.WrapAtTopOfRange`.
