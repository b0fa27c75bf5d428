/** What the heap invariant means for its users, read off a valid heap: whatever sequence of operations led
    to it, since every operation starts and ends with `Valid()`. */
module HeapTheorems {
  import opened Arithmetic
  import opened Bins
  import opened Words
  import opened SliceMaps
  import opened Backend
  import opened Growth
  import opened Pages
  import opened HeapStates
  import opened HeapSteps
  import opened SliceSteps
  import opened Queues
  import opened HeapLemmas
  import opened Heaps

  /** Live blocks are aligned, large enough, inside granted memory, pairwise disjoint, and meet no page
      header, no block on a free list, no unextended block and no free slice. */
  lemma LiveBlocksAreSafe(h: Heap, a: int, c: int)
    requires h.Valid() && a in h.live
    ensures LayoutOk(h.live[a]) && h.live[a].align >= 1 && a % h.live[a].align == 0
    ensures var n := Extent(h.Now(), a);
            && h.live[a].size <= n
            && (c in h.live && c != a ==> h.live[c].align >= 1 && (a + n <= c || c + Extent(h.Now(), c) <= a))
            && (forall x :: a <= x < a + n ==>
                  && x / SLICE_SIZE in h.mem.granted && x / SLICE_SIZE !in h.slices.freeSet
                  && forall p :: p in h.mem.pages && p in h.lists ==> ApartFromPage(x, p, h.mem.pages[p], h.lists[p]))
  {
    hide h.QueuesValid, RetireBut, LogOk, Consistent, Extent, LayoutOk, BlockAddr;
    h.LiveExtent(a);
    LiveAligned(h.Now(), a);
    h.BaseParts();
    if c in h.live && c != a {
      h.LiveExtent(c);
      LiveBlocksDisjoint(h.Now(), a, c);
    }
    forall x | a <= x < a + Extent(h.Now(), a)
      ensures x / SLICE_SIZE in h.mem.granted && x / SLICE_SIZE !in h.slices.freeSet
      ensures forall p :: p in h.mem.pages && p in h.lists ==> ApartFromPage(x, p, h.mem.pages[p], h.lists[p])
    {
      LiveBlocksApart(h.Now(), a, x);
      assert x / SLICE_SIZE in h.owner.Keys;
    }
  }

  /** `x` is in no header, free block or unextended block of the page. */
  ghost predicate ApartFromPage(x: int, p: int, h: Page, l: seq<int>) {
    && !(p <= x < p + PAGE_HEADER_RESERVE)
    && (forall i :: 0 <= i < |l| ==> !(l[i] <= x < l[i] + h.blockSize))
    && !(BlockAddr(p, h, h.capacity) <= x < BlockAddr(p, h, h.reserved))
  }

  lemma LiveAligned(s: State, a: int)
    requires Consistent(s) && a in s.live && s.live[a].align >= 1
    ensures a % s.live[a].align == 0
  {
    assert BlockHome(a, s.live[a], s.pages, s.lists);
  }

  /** The Layout the caller holds, after any chain of resizes in place and moves, recovers the block's home:
      the page it masks to, of the kind of its bin and with blocks at least as large, or exactly the slices
      of its run. */
  lemma LayoutRecoversHome(h: Heap, a: int)
    requires h.Valid() && a in h.live && h.live[a].align >= 1
    ensures match Classify(h.live[a])
            case Bin(b) =>
              var p := HeaderOf(KindOfBin(b), a);
              && p in h.mem.pages && p in h.lists && h.mem.pages[p].kind == KindOfBin(b)
              && h.mem.pages[p].blockSize >= BinSize(b) >= Rounded(h.live[a])
              && LiveBlock(p, h.mem.pages[p], h.lists[p], a)
            case Huge =>
              && a % SLICE_SIZE == 0
              && forall s :: s in h.owner ==>
                   (h.owner[s] == RunSlice(a) <==> s in Range(a / SLICE_SIZE, HugeSlices(h.live[a])))
  {
    hide h.QueuesValid, RetireBut, h.Base, Consistent;
    HomeOf(h.Now(), a);
    match Classify(h.live[a])
    case Bin(b) =>
      PagesOkAt(h.Now(), Home(a, h.live[a]));
      ClassifyAligns(h.live[a]);
      hide BinOf, BinSize, IsPow2, Classify, KindOfBin, BlockStart;
      if b < h.mem.pages[Home(a, h.live[a])].bin { BinSizeMono(b, h.mem.pages[Home(a, h.live[a])].bin); }
    case Huge =>
  }

  lemma HomeOf(s: State, a: int)
    requires Consistent(s) && a in s.live && s.live[a].align >= 1
    ensures LayoutOk(s.live[a]) && BlockHome(a, s.live[a], s.pages, s.lists)
    ensures IsRun(s.live[a]) ==>
              forall t :: t in s.owner ==>
                (s.owner[t] == RunSlice(a) <==> t in Range(a / SLICE_SIZE, HugeSlices(s.live[a])))
  {
    assert BlockHome(a, s.live[a], s.pages, s.lists);
    Parts(s);
    hide Consistent, BlockHome, HugeSlices, Classify, LayoutOk, LiveOk, LiveComplete, PagesOk, ChainsOk, PagesZero,
         ZeroOk, PagesOwn, FreeOwn;
    if IsRun(s.live[a]) {
      forall t | t in s.owner
        ensures s.owner[t] == RunSlice(a) <==> t in Range(a / SLICE_SIZE, HugeSlices(s.live[a]))
      {
        assert InRun(a, s.live[a], t) <==> Within(t, a / SLICE_SIZE, HugeSlices(s.live[a]));
      }
    }
  }

  /** Every slice the allocator was ever given and may hand out is in exactly one of: the free slices of the
      map, one live page, one live run; and none of these holds any other slice. */
  lemma SlicesAreConserved(h: Heap, s: int)
    requires h.Valid() && h.initialized
    ensures h.owner.Keys == Usable(h.mem.granted, h.slices.UsableLimit())
    ensures s in h.slices.freeSet <==> s in h.owner && h.owner[s] == FreeSlice
    ensures forall p :: p in h.mem.pages ==>
              (InPage(p, h.mem.pages[p].kind, s) <==> s in h.owner && h.owner[s] == PageSlice(p))
    ensures forall a :: a in h.live && IsRun(h.live[a]) ==>
              (InRun(a, h.live[a], s) <==> s in h.owner && h.owner[s] == RunSlice(a))
    ensures s in h.owner ==> match h.owner[s]
                             case FreeSlice => true
                             case PageSlice(p) => p in h.mem.pages
                             case RunSlice(a) => a in h.live && IsRun(h.live[a])
  {
    hide h.QueuesValid, RetireBut, LogOk, Consistent, IsRun, HugeSlices, PageSlices, LiveOk, LiveComplete, PagesOk,
         ChainsOk, PagesZero, ZeroOk, OwnerRange, Usable, h.Base;
    h.BaseParts();
    Parts(h.Now());
  }

  /** Retirement: each page is a member of exactly one queue, once; an empty page sits in its bin queue with
      a running countdown, the pages of the full queue have every block live, the flag set and
      no countdown, and the flag is clear everywhere else. */
  lemma PagesAreFiled(h: Heap, p: int)
    requires h.Valid() && p in h.mem.pages && |h.members| == QUEUE_COUNT
    ensures p in h.mem.links
    ensures var q := if h.mem.links[p].inFull then FULL_QUEUE else h.mem.pages[p].bin;
            && 1 <= q <= FULL_QUEUE && p in h.members[q] && NoDup(h.members[q])
            && forall r :: 0 <= r < QUEUE_COUNT && r != q ==> p !in h.members[r]
    ensures h.mem.pages[p].used == 0 ==> !h.mem.links[p].inFull && h.mem.links[p].retireExpire > 0
    ensures h.mem.links[p].inFull ==>
              h.mem.pages[p].used == h.mem.pages[p].capacity == h.mem.pages[p].reserved
              && h.mem.links[p].retireExpire == 0
  {
    hide h.Base, Consistent, QueuesOk, Placed, OccupiedOk, DirectOk, RetireBut, NoDup, HasFree;
    PlacedKeys(h.members, h.mem.pages, h.mem.links, 0);
    PlacedAt(h.members, h.mem.pages, h.mem.links, p);
    StateAt(h.mem.pages, h.mem.links, 0, p);
    CountsAt(h.Now(), p);
    QueueNoDup(h.queues, h.members, h.mem.links, HomeQueue(h.mem.pages, h.mem.links, p));
    forall r | 0 <= r < QUEUE_COUNT && p in h.members[r]
      ensures r == HomeQueue(h.mem.pages, h.mem.links, p)
    {
      MemberHome(h.members, h.mem.pages, h.mem.links, 0, r, p);
    }
  }

  /** The occupancy word marks exactly the queues with a page, and a direct entry is the head of the queue
      that serves its word count, or the sentinel. */
  lemma TableIsCache(h: Heap, i: nat)
    requires h.Valid() && i < DIRECT_ENTRIES
    ensures |h.direct| == DIRECT_ENTRIES && |h.members| == QUEUE_COUNT && 1 <= BinOf(i * WORD) <= DIRECT_MAX_BIN
    ensures h.direct[i] == if h.members[BinOf(i * WORD)] == [] then SENTINEL else h.members[BinOf(i * WORD)][0]
    ensures forall q: nat | q < 64 :: Bit(h.occupied, q) <==> h.members[q] != []
  {
    hide h.Base, Consistent, Placed, RetireBut, BinOf, QueuesOk, Bit;
    DirectBins(i);
    assert DirectAt(h.direct, h.queues, i);
    HeadFirst(h.queues, h.members, h.mem.links, BinOf(i * WORD));
  }

  /** Whenever memory was asked to grow, no page of the heap was empty. */
  lemma GrowsOnlyWhenFull(h: Heap, k: nat, p: int)
    requires h.Valid() && k < |h.mem.log| && p in h.mem.log[k].pages
    ensures h.mem.log[k].pages[p].used != 0
  {
    hide Consistent, RetireBut, h.QueuesValid;
    h.BaseParts();
    assert NoEmpty(h.mem.log[k].pages);
  }
}
