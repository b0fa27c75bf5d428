# The wasmalloc allocator core, in Dafny

wasmalloc is an allocator for a linear memory that can grow and never shrinks. It hands out blocks of
size-classed pages, and header-less runs of 64 KiB slices for everything larger; `dealloc` and `realloc`
are given the Layout of the block and recover the block's page from the address with one mask. This project
models that allocator and proves it safe and functionally correct over every sequence of operations and
every behaviour of the memory underneath it, and then that the repository's own model tester, driven against it
by any stream of draws, can report nothing but that the heap was exhausted; its one panic, on a resize to a size no
Layout has, is given its exact condition.

| file | models |
|---|---|
| `Bins.dfy`, `Arithmetic.dfy` | size classes, page geometry, and the fast-path size tests, as functions |
| `Masks.dfy` | the power-of-two masks of the code, over binary digits, as the remainders and roundings used elsewhere |
| `Words.dfy`, `SliceMaps.dfy` | the 64-bit word code of the free-slice bitmap, and the bitmap as a class over two word arrays |
| `Backend.dfy` | the memory: contents, page headers, and a `grow` that may refuse, land elsewhere, or find the memory grown by others |
| `Growth.dfy` | growth policy, acquiring runs and extending them through memory growth |
| `Pages.dfy` | the page header and its free list threaded through block memory |
| `Queues.dfy` | the doubly linked page queues, the occupancy word and the direct table |
| `HeapStates.dfy` | the heap invariant `Consistent` over a state value: pages, lists, contents, slice owners, live blocks |
| `HeapSteps.dfy`, `SliceSteps.dfy`, `Supply.dfy` | each step the heap takes preserves it |
| `Snaps.dfy` | collection rounds, frees, searches and placements, each as a relation between the states before and after |
| `HeapLemmas.dfy`, `Heap.dfy` | the heap as a class: allocation, freeing, resizing, page search, retirement, release, queues |
| `HeapTheorems.dfy` | what the invariant means for the heap's users |
| `Rng.dfy`, `Entropy.dfy` | the splitmix64 generator and mixer, and draws from a stream |
| `Patterns.dfy`, `Tester.dfy` | the tester's block contents, its overlap oracle, and its whole run against the heap |

How the parts fit. Every public operation of `Heaps.Heap` requires and ensures `Valid()`, updates the ghost map
`live` (address to the Layout the caller holds) exactly, and says what happened to contents. `Valid()` ties the
concrete fields (queues, direct table, occupancy word, page headers, link words, bitmap words) to ghost state:
the members of each queue, the free list of each page, the owner of each slice. `Memory.log` records the page
headers at every `grow`, so "no page is empty when memory grows" is part of `Valid()` as a statement about the
whole history. Bitmap methods are proved against the sets of free and zero slices they represent, queue methods
against sequences of pages. What rounds, frees and allocations do to queues, headers, countdowns, the retired range and
the free slices is stated on a value of those, `Snap`; an allocation returns the ghost `Trail` of those it went through.

## Model

| member | source | states |
|---|---|---|
| `Heaps.Heap.constructor` | src/heap.rs:168-182 | A new heap over untouched memory is valid with nothing live. |
| `Heaps.Heap.Alloc` | src/heap.rs:203-225 | From any valid heap: valid again; either nothing changed hands or one block at an address nobody held is live under exactly the requested Layout; every live block keeps its contents. Whenever the first page of the request's bin queue has a free block, the result is the head of that page's list and nothing else changes: the direct table only caches this. Whenever some page of the queue has a free or never-used block, and is in use or no collection round is due, the request is served from that queue and memory is not asked. Otherwise the page is new, at the lowest fit of the free slices left by the round before it, or of those with the empty pages' slices and the grants. A run is at the lowest fit of the same kind. `None` only with no page empty, nothing in the map that fits, and a reason in the log: the request could not fit below the limit, memory refused the bare request, or it granted elsewhere and the retry for any start had no room, was refused or passed the limit. |
| `Heaps.Heap.AllocZeroed` | src/heap.rs:227-254 | As `Alloc`, and all `size` bytes of the block are zero on every path (fresh page, recycled page, fresh run, recycled run). |
| `Heaps.Heap.Dealloc` | src/heap.rs:256-294 | Exactly that block stops being live, all others keep their contents; a run gives back exactly its slices and changes nothing else; a binned block goes to the front of the list of the page its Layout masks to, linking to the old head. A page whose last block came back stays with the countdown it has, if one is running; if not, it stays, alone in its queue or among at most three with blocks below 1024 bytes, with a countdown of 16, or 4 above 10240 bytes, and its bin in the retired range, or its slices are free. A page that was full is last in its bin queue. |
| `Heaps.Heap.DeallocGeneric` | src/heap.rs:496-519 | The same contract on the road of medium pages and runs. |
| `Heaps.Heap.FreeBlock` | src/heap.rs:284-294 | The block is pushed; a page that was full, or gave back its last block with no countdown running, makes the transition above; any other stays as it is. |
| `Heaps.Heap.Realloc` | src/heap.rs:296-385 | On success one block serves the new Layout, in place or at an address nobody held, and its first min(old, new) bytes are the old block's; every other block keeps its bytes; on `None` the old block is still live and unchanged, and memory was as exhausted as for `Alloc`. A binned block stays put if and only if the new bin is the same, or smaller of the same page kind with the new size at least half the old block, and then nothing is touched; otherwise it moves: to the head of the list of the first page of the new bin's queue when there is one, and without memory to a page of that queue when one has room as in `Alloc`. Between page and run it always moves. A run stays put, touching nothing, when it shrinks or the slices after it are free, and without growing memory also when those become free only by releasing the pages that were empty at the call. A run that moves while anything fits lands at the lowest aligned place of the free slices that reach the end of memory as it is then, or at the lowest fit when they are too few; the free slices meant are those at the call, those of the pages emptied, and those granted since. |
| `Heaps.Heap.ExtendOrMove` | src/heap.rs:341-385 | The last steps of a growing run: it stays in place with no grow whenever releasing the empty pages frees all it needs; otherwise it is extended by a grow or moved, to the place `PlacedSince` pins down; failing means exhausted memory with the old run untouched. |
| `Heaps.Heap.MoveBlock` | src/heap.rs:369-385 | The copy is a new block at another address with the kept bytes; a run's is at the place `PlacedSince` pins down, by the end of memory and the free slices of the moment; the old block is gone, or, on failure, nothing is. |
| `Heaps.Heap.Write` | src/page.rs:33-36 | The caller may write anything anywhere in a live block: the invariant, the zero facts included, and every other block survive it. |
| `Heaps.Heap.AllocHuge` | src/heap.rs:441-470 | A run starts at the lowest aligned fit when the map has one, and then no page or queue changes; with `top`, first at the lowest aligned place in the free slices that reach the end of memory, which is the end as it is after the call whenever the map had a fit; a run that needed the release or a grow starts at the lowest fit of all that was then free or granted; it fails only as `Alloc` may; zero-filled when asked. |
| `Heaps.Heap.AllocGeneric` | src/heap.rs:387-440 | The miss handler meets the contract of `Alloc`, and serves a request above the table from the head of its queue. Where its block comes from is settled step by step (`CameFrom`): the gap taken in if the heap was unopened, a round every thousandth miss, the search, the new page, the first block of the page's list. |
| `Heaps.Heap.AllocRun` | src/heap.rs:407-410 | The run road: the heap opens, no miss is counted and no retired page ages; the run is at the lowest fit of what is free, and empty pages go only when nothing fits without them. |
| `Heaps.Heap.MissPage` | src/heap.rs:423-433 | A miss whose queue has a page with room after the housekeeping is served by the page the search picks, with nothing asked of memory; a miss without one collects and takes a new page; the counter wraps at a thousand. |
| `Snaps.RoomLasts` | src/heap.rs:563-645 | A page of the queue with room that is in use, or any while no round is due, survives the housekeeping, so the miss is served from that queue without memory. |
| `Heaps.Heap.SearchQueue` | src/heap.rs:564-625 | The walk ends at the first page with a free block, or the first with room four or more places after the first with room, or at the end; the pages without room it passed are at the back of the full queue in order, uncounted; the candidate is the first page with room, replaced by each later one with room that has at least as many blocks out and is not mostly used. |
| `Heaps.Heap.AcquireRun` | src/heap.rs:472-493 | Memory grows only if nothing fits in the free slices with those of every empty page added, and then with no page empty; whenever something fits there, it succeeds; what is asked of memory is as in `Growth.Acquire`. While something fits, no page or queue changes. With `top` the lowest aligned place in the free slices that reach the end of memory, otherwise the lowest fit of what was free, or of that, the emptied pages and the grants together; `None` means nothing fits afterwards and the log says why memory could not be had. The run is owned by nobody else. |
| `Heaps.Heap.GrowRun` | src/heap.rs:341-367 | In-place growth keeps the heap valid and all contents, and claims the slices or leaves the run as it was; it succeeds without asking for memory when the slices after the run are free, and asks whenever growing memory would complete the run, for as much as `Growth.ExtendWithGrowth` says; it gives up after a refusal only when memory refused exactly the missing slices, or granted elsewhere. |
| `Heaps.Heap.EnsureInit` | src/heap.rs:541-556 | The first use takes exactly the usable whole slices from the heap base read at that moment to the end of memory at that moment, not known zero. |
| `Heaps.Heap.FindPage` | src/heap.rs:558-645 | Terminates with a page of the bin that has a block ready, first in its queue and not retired, or `None` with the heap valid. If any page of the queue had room, the answer is the one the search picks and memory is not asked; if none had, a collection round ran and the answer is a new page placed by `FreshPageOf`, or `None` because no page's worth of slices fits even with the empty pages' slices and growth was tried. The body shows the candidate reaching the fullness comparison has `used == capacity >= 1`. |
| `Heaps.Heap.FreshPageOf` | src/heap.rs:647-664 | Required, and met, only with the bin's queue empty, so the release inside it frees no page the search still refers to. The new page is at the lowest fit of the free slices if there is one, with nothing else changed; otherwise at the lowest fit of those, the empty pages' slices and the grants, every empty page gone. It is alone in its queue, and its list starts at its first block. |
| `Heaps.Heap.ParkPage` | src/heap.rs:583-597 | A page with no room leaves its bin queue for the back of the full queue, its countdown cleared. |
| `Heaps.Heap.Retire` | src/heap.rs:670-703 | An emptied page stays if and only if its queue has at most three pages and it is alone or its blocks are below 1024 bytes, with countdown 16 (4 for blocks above 10240 bytes) and its bin in the retired range; otherwise it leaves its queue and its slices are free. |
| `Heaps.Heap.DeallocTransition` | src/heap.rs:521-534 | A flagged page goes to the end of its bin queue; then an empty page is retired or freed by the numbers of `Retire`, and one in use keeps its countdown. Whatever stale countdown the fast paths left, afterwards every page is in the right queue and retirement state. |
| `Heaps.Heap.Unfull` | src/heap.rs:942-953 | The page moves from the full queue to the end of its bin queue, nothing else moves. |
| `Heaps.Heap.CollectRetired` | src/heap.rs:705-754 | Each queue in the retired range is aged by one round: of its first three pages the expired ones are gone and their slices free, the other empty ones count one less, those in use count zero; later pages, other queues and their order are untouched; the new range is the least that covers every queue of the old one with a countdown still running among its first three pages. |
| `Heaps.Heap.CollectTimes` | src/heap.rs:705-754 | An empty page with countdown k among the first three of a queue in the retired range is freed by the k-th consecutive round, and not before. |
| `Heaps.Heap.ReleaseEmptyPages` | src/heap.rs:756-798 | However countdowns, range and queue positions stand, afterwards each bin queue is its pages in use in the same order, no page is empty, no page has a countdown, the range is empty, and every page in use is unchanged; the free set has gained the slices of the pages that were empty and nothing else; the walk survives freeing the page it stands on. |
| `Heaps.Heap.FreePage` | src/heap.rs:800-811 | The page leaves its queue and its slices, all of them, are free in the map. |
| `Heaps.Heap.UpdateDirect` | src/heap.rs:822-844 | After a queue head changed, the whole direct table is the cache of the queue heads again. |
| `Heaps.Heap.PushFront` | src/heap.rs:846-865 | The queue's sequence gains the page in front; links, occupancy bit and direct table follow. |
| `Heaps.Heap.PushBack` | src/heap.rs:867-889 | The queue's sequence gains the page at the back; links, occupancy bit and direct table follow. |
| `Heaps.Heap.Remove` | src/heap.rs:891-921 | Exactly that page leaves the sequence; links, occupancy bit and direct table follow. |
| `Heaps.Heap.MoveToFront` | src/heap.rs:923-932 | The page is first, the order of the others is kept. |
| `HeapTheorems.LiveBlocksAreSafe` | src/heap.rs:47-55 | Live blocks are aligned, large enough for their Layouts, pairwise disjoint over their whole extent, in granted memory, and disjoint from every header, free-list block, unextended block and free slice. |
| `HeapTheorems.LayoutRecoversHome` | src/heap.rs:994-1024 | The Layout the caller holds recovers the block's home after any resizes: the page the mask finds has the kind of the Layout's bin and blocks at least that large, and a run is exactly `huge_slices(layout)` slices. |
| `HeapTheorems.SlicesAreConserved` | src/heap.rs:47-55 | The slices ever granted below the usable limit are, each, in exactly one of: free in the map, one live page, one live run; and those hold nothing else. |
| `HeapTheorems.PagesAreFiled` | src/heap.rs:47-55 | Every page is once in exactly one queue; an empty page sits in its bin queue counting down; a full-queue page is flagged, full and not counting. |
| `HeapTheorems.TableIsCache` | src/heap.rs:51-55 | Every direct entry is the head of the queue of `bin(i * WORD)` or the sentinel, and an occupancy bit is set iff its queue is not empty. |
| `HeapTheorems.GrowsOnlyWhenFull` | src/heap.rs:756-772 | At every `grow` in the heap's history, on either road, no page was empty. |
| `HeapStates.LiveBlocksDisjoint` | src/heap.rs:47-55 | Two live blocks never share a byte of their blocks or runs. |
| `HeapStates.LiveBlocksApart` | src/page.rs:24-32 | A live block meets no header, free block, unextended block or free slice. |
| `HeapSteps.WriteInside` | src/page.rs:33-36 | Any write inside one live block preserves the whole invariant. |
| `HeapSteps.TakeStep` | src/page.rs:216-245 | Handing out the head of a list preserves the invariant, at a new address. |
| `HeapSteps.ReturnStep` | src/page.rs:247-279 | Pushing a live block back preserves the invariant and the other blocks' bytes. |
| `HeapSteps.StretchStep` | src/page.rs:281-324 | Linking never-used blocks preserves the invariant and all live bytes. |
| `SliceSteps.PageAddedStep` | src/heap.rs:647-664 | Free slices become a page without disturbing anything; no page was there. |
| `SliceSteps.PageDroppedStep` | src/heap.rs:800-811 | An empty page's slices become free without disturbing anything. |
| `SliceSteps.RunAddedStep` | src/heap.rs:456-470 | Free slices become a live run at a new address. |
| `SliceSteps.RunResizedStep` | src/heap.rs:330-350 | Shrinking a run frees its tail, growing it claims what follows; the rest is undisturbed. |
| `SliceSteps.BinnedRelabeledStep` | src/heap.rs:320-329 | A block kept in place under a Layout of the same kind and no larger bin still satisfies every invariant. |
| `SliceSteps.GrantStep` | src/slices.rs:820-825 | New memory enters as free, zero slices and touches no owned byte. |
| `Queues.FrontLinked` | src/heap.rs:846-865 | The link writes of `push_front` give the list with the page in front. |
| `Queues.BackLinked` | src/heap.rs:867-889 | The link writes of `push_back` give the list with the page at the end. |
| `Queues.RemoveLinked` | src/heap.rs:891-921 | The link writes of `remove` give the list without the page, wherever it was. |
| `Bins.LeastBin` | src/bins.rs:187-206 | For every size, `bin(s)` is the least bin whose size covers `s`. |
| `Bins.BoundedWaste` | src/bins.rs:187-222 | The block is larger than the request by at most max(7, s/4). |
| `Bins.BinsAreTight` | src/bins.rs:187-222 | The size of bin `b` is served by bin `b`, one byte more by bin `b + 1`. |
| `Bins.BinMonotone` | src/bins.rs:187-206 | Larger sizes never get smaller bins. |
| `Bins.AlignmentByConstruction` | src/bins.rs:187-222 | Rounding a size up to its bin keeps every power-of-two divisor. |
| `Bins.ClassifyAligns` | src/bins.rs:251-300 | For every binned Layout, block size and first-block offset are multiples of the alignment and the block covers the rounded size. |
| `Bins.ClassifyBySize` | src/bins.rs:251-300 | A Layout is a run if and only if its alignment is above 4096 or its rounded size above 40960, and is on a small page if and only if that is at most 10240. |
| `Bins.PageGeometry` | src/bins.rs:282-310 | Every bin's blocks, at least six and as many as there is room for, fit its page after the header. |
| `Bins.BlockStartLeast` | src/bins.rs:282-300 | The first block is at the least offset past the header that is a multiple of every power of two up to 4096 that divides the block size. |
| `Bins.BytesMaskToHeader` | src/page.rs:136-142 | Every byte of a page masks back to its header. |
| `Masks.MaskIsRounding` | src/page.rs:140-142 | On a 32-bit `usize`, the bitwise `and` of any address with the kind's page mask is the header address the model computes by remainder. |
| `Masks.MaskIsRemainder` | src/page.rs:140-142 | For every 32-bit value and every power of two, masking the low bits is the remainder and masking them off is rounding down. |
| `Masks.MaskRoundsUp` | src/bins.rs:171-174 | The masked rounding of a size is its least multiple of the alignment at or above it, when the sum is a `usize`. |
| `Masks.MaskIsSmallLimit` | src/heap.rs:273-274 | The limit `dealloc` gets from the negated alignment is the largest multiple of it that a small page's block covers. |
| `Bins.DirectAgrees` | src/heap.rs:976-995 | `alloc`'s size test and table index agree with `classify` for every Layout. |
| `Bins.SmallTestAgrees` | src/heap.rs:262-282 | `dealloc`'s test on the unrounded size holds exactly for the Layouts binned on small pages. |
| `Bins.SameSlotSameClass` | src/heap.rs:309-319 | Two word-aligned sizes in one direct slot classify alike. |
| `Bins.DirectRangeExact` | src/heap.rs:1032-1069 | `direct_range(b)` is exactly the set of indices bin `b` serves. |
| `Bins.FitsInPlaceIsSafe` | src/heap.rs:997-1018 | The decision to keep a block is, exactly: same bin, or a smaller bin of the same page kind with the new size at least half the block. What is kept fits its block and keeps its page kind; what outgrew its bin is never kept. |
| `Words.DropLowestBit` | src/heap.rs:776-779 | `w & (w - 1)` clears exactly the lowest set bit. |
| `SliceMaps.SliceMap.Alloc` | src/slices.rs:180-197 | Returns exactly the lowest aligned run of free slices, `None` iff there is none; claims just those slices; `zeroed` iff all were zero. |
| `SliceMaps.SliceMap.AllocTail` | src/slices.rs:199-212 | Returns exactly the lowest aligned start in the maximal free run ending at `below` (or the map's end), `None` iff there is none. |
| `SliceMaps.SliceMap.Find` | src/slices.rs:299-325 | Whichever search is chosen, from the hint on, the result is the lowest fit of the set. |
| `SliceMaps.FindSingle` | src/slices.rs:327-337 | The word scan finds the lowest free slice. |
| `SliceMaps.FindNibble` | src/slices.rs:339-350 | The nibble fold finds the lowest 4-aligned run of 4. |
| `SliceMaps.FindByte` | src/slices.rs:352-363 | The byte fold finds the lowest 8-aligned run of 8. |
| `SliceMaps.FindWord` | src/slices.rs:364-373 | The word scan finds the lowest 64-aligned run of 64. |
| `SliceMaps.FindGeneral` | src/slices.rs:375-404 | First fit over maximal runs finds the lowest aligned fit. |
| `SliceMaps.NextSet` | src/slices.rs:444-463 | The lowest free slice at or above a position. |
| `SliceMaps.NextClear` | src/slices.rs:465-483 | The lowest non-free slice at or above a position, or the end. |
| `SliceMaps.PrevClear` | src/slices.rs:423-443 | The highest non-free slice below a position. |
| `SliceMaps.SliceMap.Claim` | src/slices.rs:485-500 | Exactly the range leaves both sets; reports whether all of it was zero. |
| `SliceMaps.SliceMap.AddFree` | src/slices.rs:160-178 | Exactly the range enters, without slice 65535. |
| `SliceMaps.SliceMap.FreeRun` | src/slices.rs:214-222 | Exactly the run enters, not known zero. |
| `SliceMaps.SliceMap.TryExtend` | src/slices.rs:224-239 | Succeeds iff every slice after the run is free, and then claims exactly those. |
| `SliceMaps.SliceMap.Shrink` | src/slices.rs:241-252 | Exactly the tail enters. |
| `Growth.GrowPolicy.Step` | src/slices.rs:640-650 | The step never exceeds `max_grow`, and is below `min_grow` only when `max_grow` is. |
| `Growth.StepIs` | src/slices.rs:640-650 | The step is the one number `IsStep` names: `max_grow` when the heap divided is above it, else `min_grow` when it is below that, else the quotient. |
| `Growth.Acquire` | src/slices.rs:656-725 | No growth when the map has a fit; otherwise the lowest fit of what was free plus what was granted, or `None` with every grant in the map; the first request is exactly the larger of the bare need and the policy's step, cut off at the usable limit, and a second at the same end comes only after its refusal and is for the bare need; each request stays below the usable limit, covers the alignment slack, and a grant long enough for its own slack serves. `None` has one of the causes `Denied` lists: the bare need passes the limit; memory refused the bare need, after any larger step; a grant lay elsewhere and the `count + align - 1` retry had no room below the limit, was refused, or was granted past it. |
| `Growth.ContiguousGrantServes` | src/slices.rs:682-725 | Acquisition cannot fail after a contiguous grant, nor after the count + align - 1 retry unless the region passes the usable limit. |
| `Growth.ExtendWithGrowth` | src/slices.rs:738-816 | Claims exactly the `extra` slices after the run or leaves it as it was; succeeds without growing memory when they are all free; memory grows only if they are not and every slice above the run is free; a region that lands elsewhere stays in the map; the first request is the larger of what is missing and the policy's step, cut off at the limit, and the bare need only after its refusal; it does ask whenever a contiguous grant would complete the run, and gives up only when memory refused exactly what was missing or granted elsewhere. |
| `Growth.AddRegion` | src/slices.rs:818-825 | Exactly the usable part of a fresh region enters, known zero. |
| `Pages.Pop` | src/page.rs:216-245 | The head of the list and its header update; nothing on the sentinel. |
| `Pages.Push` | src/page.rs:247-279 | The block becomes the head, its link the old head, and the zero flag falls. |
| `Pages.PopKeeps` | src/page.rs:15-38 | Popping keeps every page invariant, and the block is live afterwards. |
| `Pages.PushKeeps` | src/page.rs:15-38 | Pushing a live block keeps every page invariant. |
| `Pages.PopUndoesPush` | src/page.rs:216-279 | The next pop returns the block just pushed and restores the header but for the zero flag. |
| `Pages.Extend` | src/page.rs:281-324 | Succeeds iff blocks are left; links the next ones in order in front of the list, writing only their link words. |
| `Pages.ExtendFits` | src/page.rs:281-324 | An extend links as many blocks as are left or as fit 8192 bytes, whichever is less, and at least one. |
| `Pages.ExtendedOk` | src/page.rs:281-324 | After an extend the list is again `capacity - used` distinct blocks below `capacity`. |
| `Pages.ExtendedChain` | src/page.rs:24-32 | After an extend the links in memory spell out the new list and end at zero. |
| `Pages.ExtendedZero` | src/page.rs:33-36 | An extend keeps the page's zero promise. |
| `Pages.InitOk` | src/page.rs:179-214 | A fresh header satisfies every page invariant, the zero promise only when the memory is zero. |
| `Pages.RoomlessIsFull` | src/page.rs:326-372 | A page with neither free nor unextended blocks has all `reserved` blocks live. |
| `Pages.HandOutAll` | src/page.rs:216-324 | Popping, and extending when dry, hands out exactly `reserved` distinct blocks before refusing. |
| `Backend.Memory.Grow` | src/backend.rs:18-49 | The environment: a refusal, or zero slices at or above the end, nothing else changed. |
| `Backend.Memory.Open` | src/backend.rs:25-28 | The environment: memory others may have grown until now, a heap base that may depend on that, and every whole slice between the two for the allocator. |
| `Rng.Mix64Bijective` | src/testing/rng.rs:51-60 | `mix64` has an inverse on both sides on all of `u64`. |
| `Rng.FullPeriod` | src/testing/rng.rs:62-80 | Two draws see the same state, and give the same output, iff they are a multiple of 2^64 apart. |
| `Entropy.ScaledPreimage` | src/testing/rng.rs:14-21 | The draws giving `k` are one non-empty interval of length 2^32/n up to rounding. |
| `Entropy.ByteSource.Weighted` | src/testing/rng.rs:32-47 | Picks the entry whose interval of the running sum holds the draw; never one of weight zero; `None` iff the stream is dry. |
| `Entropy.ByteSource.InRange` | src/testing/rng.rs:23-30 | Within the bounds, `None` iff the stream is dry. |
| `Patterns.WordInjective` | src/testing/model.rs:133-139 | The pattern word is injective in the chunk for a seed and in the seed for a chunk. |
| `Patterns.BlocksDiffer` | src/testing/model.rs:588-591 | Differently numbered blocks have different words at every position, in some byte. |
| `Patterns.EveryByteDiffers` | src/testing/model.rs:133-139 | "Every chunk distinct in every byte" holds of a block, under any seed, if and only if it has at most 55 chunks (440 bytes). |
| `Patterns.NearChunksDiffer` | src/testing/model.rs:133-139 | Chunks fewer than 55 apart, anywhere in a block of any length, differ in every byte. |
| `Patterns.SharingIsSeedless` | src/testing/model.rs:133-139 | Whether two chunks share a byte depends on the multiples of the constant alone, never on the seed. |
| `Patterns.WordsCanShareBytes` | src/testing/model.rs:133-139 | A case past the bound: in the first block the tester fills, chunks 0 and 55 are different words with a byte in common. |
| `Patterns.Fill` | src/testing/model.rs:214-232 | Afterwards every `Sampled` byte of the block is the pattern's (dense to 64 KiB, one word every 4096 bytes, the last word), and no other block changed. |
| `Patterns.Verify` | src/testing/model.rs:234-273 | Accepts iff every `Sampled` byte of the prefix is the pattern's, or zero without a seed. |
| `Patterns.PrefixPatterned` | src/testing/model.rs:141-200 | What a fill of the whole block wrote satisfies the check of any kept prefix. |
| `Patterns.SpansAreSampled` | src/testing/model.rs:141-200 | The iterator's spans cover byte `x` iff `x < limit` and `x` is in the dense prefix, in a stride word that ends by `limit`, or, the whole block being covered, in the word of the last byte. |
| `Patterns.LongChangesSeen` | src/testing/model.rs:16-22 | All of the first 64 KiB is sampled, and every 4089 consecutive bytes of a block hold a sampled one. |
| `Patterns.ShortChangesCanHide` | src/testing/model.rs:20-22 | That bound is tight: 4088 consecutive bytes of a larger block are not sampled. |
| `Patterns.ForeignContentsFail` | src/testing/model.rs:133-139 | A block holding the contents of a differently numbered one fails its check. |
| `Patterns.ShiftedContentsFail` | src/testing/model.rs:133-139 | A block holding its own contents moved to the front by whole words fails its check. |
| `Testers.LastIntervalDecides` | src/testing/model.rs:715-727 | With live intervals disjoint, the last one starting below `end` decides overlap with all of them. |
| `Testers.Tester.Admit` | src/testing/model.rs:700-730 | For any address an allocator might return: rejected iff misaligned, wrapping or overlapping a live block. |
| `Testers.Tester.DoAlloc` | src/testing/model.rs:743-792 | On this heap a failure can only be a refusal, and then the heap was exhausted for that Layout; the table, the interval map and the byte count stay exact. |
| `Testers.Tester.Release` | src/testing/model.rs:794-818 | A live block always verifies; afterwards it is in neither table nor heap. |
| `Testers.Tester.DoRealloc` | src/testing/model.rs:836-902 | The kept prefix always verifies; it fails only when the heap was exhausted for the new Layout, with the table restored; it panics if and only if no Layout has the new size and the old alignment. |
| `Testers.Tester.NextOp` | src/testing/model.rs:632-693 | For every profile `validate` accepts: the class is the one the draw picks by the weights, in a batch by those without frees until its allocations are used up and then a free; with nothing live a free or resize becomes an allocation; class 1 alone asks for zeroed memory; an allocation past the cap becomes a free, or shrinks to the room with nothing live. Every drawn operation has a non-zero size, a valid Layout if it allocates, a live victim if it frees or resizes, and keeps live bytes within the cap. |
| `Testers.Tester.NextResize` | src/testing/model.rs:676-691 | The victim is drawn from all live blocks; when the second draw is in the lower half the new size is drawn between half the old size and twice it, cut off at the room left by the cap. |
| `Testers.Tester.Run` | src/testing/model.rs:919-951 | Over every valid profile, stream of draws, length and memory, the run on this heap passes, or the heap was exhausted for the last Layout asked of it, a valid one within the cap; the one panic left, a resize past `isize::MAX`, needs a live-byte cap above 2^31 - 65536; a run that passes leaves nothing live. |
| `Testers.Tester.Step` | src/testing/model.rs:928-944 | An operation fails only as its own request: exhausted for the Layout it asked, given the grows before it; and it panics iff it is a resize whose Layout does not exist. |
| `Testers.CapLeavesRoom` | src/testing/model.rs:856-857 | Every drawn block can take every size within the cap iff the cap is at most 2^31 - 65536. |
| `Testers.ResizeCanPanic` | src/testing/model.rs:856-857 | Past it: with one live block of 1 GiB, the draw of all ones gives a resize that is within the cap and has no Layout. |

Where the code and its documentation disagree the code is modelled. The pattern comment of
`src/testing/model.rs:133-139` promises chunks distinct in every byte. The words are always distinct; every byte
is, for any seed, exactly in blocks of up to 55 chunks (`Patterns.EveryByteDiffers`).

A resize can draw a size that no Layout has, and the source then panics (`src/testing/model.rs:856-857`), which is the
outcome `InvalidLayout` here. `Testers.ResizeCanPanic` is such a draw, `Testers.Tester.DoRealloc` says exactly which
resizes panic, and `Testers.CapLeavesRoom` exactly which live-byte caps rule them all out.

## Left out

- Page headers are records keyed by the page's address, in a page-owned and a heap-owned part; the 64 bytes
  they occupy in the page are not bytes of the modelled memory, and the flags byte is one boolean.
- Machine integers: `usize` is 32 bits wide as on wasm32 and written as mathematical integers; bounds that rule out
  overflow are proved (addresses end below 2^32), power-of-two masks on sizes and addresses are written as
  remainders (`Masks.dfy` proves them equal), and bitmap words are 64-bit vectors. `u64` arithmetic of the mixer is modulo 2^64.
- Memory contents count bytes never written as zero; pointers are addresses, without provenance or aliasing rules.
- Other parties grow the memory only at the allocator's own calls of `heap_base`, `size_slices` and `grow`.
- The map is assumed to cover the memory that exists when the heap base is read (1024 words cover all of wasm32).
- `queue_index`, `.max(1)` and other panic-avoidance idioms that the invariants make dead are dropped.
- Large 4 MiB pages as a live configuration (`LARGE_PAGES` is false); the bin lemmas cover them.
- `SliceMap::is_free`, `is_zero`, `free_count`, `has_run` and `Heap::free_slices`, read-only helpers.
- The `validate` functions and the Kani harnesses: the invariants they check are proved here for all sizes.
- src/global.rs, `WasmMemory` and the linker's heap base: foreign symbols and intrinsics. `SimMemory` is one instance
  of the memory modelled.
- Requests outside the `GlobalAlloc` contract, zero sizes among them.
- The tester's statistics, failure texts, first-mismatch report and profile presets; the tester over allocators other
  than this heap, except that `Admit` and `Verify` are exact for any result whatsoever.
- Pattern words are compared as their eight bytes, least significant first.
- Profile weights that sum past 2^32 - 1, where the source panics on the sum or wraps, depending on the build.
- The bench allocators, fuzz targets, scripts and JavaScript harness.
