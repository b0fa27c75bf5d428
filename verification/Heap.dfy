/** The allocator as one object: its page queues and their lookup table, how pages come and go, and the
    operations a caller sees. */
module Heaps {
  import opened Arithmetic
  import opened Bins
  import opened Words
  import opened SliceMaps
  import opened Backend
  import opened Growth
  import opened Pages
  import opened HeapStates
  import opened HeapSteps
  import opened SliceSteps
  import opened Queues
  import opened HeapLemmas
  import opened Snaps
  import opened Supply

  const RETIRE_CYCLES := 16
  const MAX_CANDIDATES := 4
  const GENERIC_COLLECT_PERIOD := 1000

  /** Before the first allocation: nothing is owned, the heap base is unread, and the map will cover whatever
      memory there is when it is read. */
  ghost predicate Unopened(owner: map<int, Owner>, slices: SliceMap, mem: Memory)
    reads slices, mem`size, mem`granted
  {
    && owner == map[] && slices.freeSet == {} && slices.zeroSet == {} && mem.granted == {}
    && mem.size <= mem.openLimit <= MAX_SLICE_INDEX + 1 && Covers(slices.words, mem)
  }

  /** A map of `words` words reaches the end of memory wherever the heap base turns out to be. */
  predicate Covers(words: nat, mem: Memory) {
    mem.openLimit <= mem.lowestBase / SLICE_SIZE - mem.lowestBase / SLICE_SIZE % BITS + words * BITS
  }

  /** The gap above the heap base lies inside a map that covers memory. */
  lemma GapInside(mem: Memory, heapBase: nat, words: nat, base: nat)
    requires Covers(words, mem) && mem.lowestBase <= heapBase
    requires base % BITS == 0 && base <= heapBase / SLICE_SIZE < base + BITS
    ensures base <= CeilDiv(heapBase, SLICE_SIZE) && mem.openLimit <= base + words * BITS
  {
    LowestBaseIsLowest(mem.lowestBase / SLICE_SIZE, heapBase / SLICE_SIZE);
  }

  /** The countdown a retired page starts from. */
  function RetireCycles(blockSize: int): int {
    if blockSize <= SMALL_MAX_OBJ_SIZE then RETIRE_CYCLES else RETIRE_CYCLES / 4
  }

  /** Whether a page that became empty is kept for a while, in a queue of `count` pages. */
  predicate Keeps(count: int, blockSize: int) {
    count <= RETIRE_MAX_PAGES && (count == 1 || blockSize < DIRECT_MAX_SIZE)
  }

  class Heap {
    const mem: Memory
    const slices: SliceMap
    var policy: GrowPolicy
    /** The first page of the queue serving each word count, or the sentinel. */
    var direct: seq<int>
    var queues: seq<PageQueue>
    var retiredMin: nat
    var retiredMax: nat
    /** Occupancy of the queues as a bit set. */
    var occupied: bv64
    var genericCount: nat
    var initialized: bool

    /** The pages of each queue, the free list of each page, the owner of each slice, the live blocks. */
    ghost var members: seq<seq<int>>
    ghost var lists: map<int, seq<int>>
    ghost var owner: map<int, Owner>
    ghost var live: map<int, Layout>

    /** The empty heap over unopened memory, which stays unopened until a first request. */
    constructor (mem: Memory, words: nat)
      requires mem.Valid() && mem.lowestBase > 0 && mem.pages == map[] && mem.links == map[] && mem.log == []
      requires mem.granted == {} && mem.size <= mem.openLimit <= MAX_SLICE_INDEX + 1
      requires words >= 1 && words * BITS <= MAX_SLICE_INDEX + 1 && Covers(words, mem)
      ensures Valid() && live == map[] && this.mem == mem
      ensures fresh(slices) && fresh(slices.free) && fresh(slices.zero)
    {
      this.mem := mem;
      slices := new SliceMap(words);
      policy := DEFAULT_POLICY;
      direct := seq(DIRECT_ENTRIES, i => SENTINEL);
      queues := seq(QUEUE_COUNT, i => EMPTY_QUEUE);
      retiredMin, retiredMax := QUEUE_COUNT, 0;
      occupied := 0;
      genericCount := 0;
      initialized := false;
      members := seq(QUEUE_COUNT, i => []);
      lists, owner, live := map[], map[], map[];
      new;
      EmptyQueues(queues, members, direct);
      EmptyState(Now());
    }

    /** Override the growth policy. */
    method SetGrowPolicy(policy: GrowPolicy)
      requires Valid()
      modifies this`policy
      ensures Valid() && this.policy == policy
    {
      hide Consistent, QueuesOk, Placed, OccupiedOk, DirectOk, RetireBut, Base;
      this.policy := policy;
    }

    /** The queues, the occupancy word and the direct table agree; `loose` is in no queue. */
    ghost predicate QueuesValid(loose: int)
      reads this`queues, this`members, this`direct, this`occupied, mem`pages, mem`links
    {
      && QueuesOk(queues, members, mem.links)
      && Placed(members, mem.pages, mem.links, loose)
      && OccupiedOk(occupied, members)
      && DirectOk(direct, queues)
      && 0 !in mem.pages
    }

    /** The heap's state as a value. */
    ghost function Now(): State
      reads this`lists, this`owner, this`live, mem`pages, mem`bytes, slices`freeSet, slices`zeroSet
    {
      State(mem.pages, lists, mem.bytes, owner, live, slices.freeSet, slices.zeroSet)
    }

    /** The map and memory: the slices with an owner are exactly those granted and usable, and no page was
        ever empty when memory was asked to grow. */
    ghost predicate Base()
      reads this`owner, this`initialized, slices, slices.free, slices.zero, mem`size, mem`granted, mem`heapBase, mem`log
    {
      && Backed(slices, mem) && mem.lowestBase > 0
      && LogOk(mem.log)
      && (if initialized then owner.Keys == Usable(mem.granted, slices.UsableLimit())
          else Unopened(owner, slices, mem))
    }

    /** Everything but the retirement state of page `p`. */
    ghost predicate Ready(p: int)
      reads this, mem, slices, slices.free, slices.zero
    {
      Base() && Consistent(Now()) && QueuesValid(0) && RetireBut(mem.pages, mem.links, p)
    }

    /** The heap invariant between operations. */
    ghost predicate Valid()
      reads this, mem, slices, slices.free, slices.zero
    {
      Ready(0)
    }

    /** Owned slices lie inside the map. */
    lemma OwnedInside(lo: int, n: nat)
      requires Base() && n >= 1 && Range(lo, n) <= owner.Keys
      ensures slices.Valid() && slices.base <= lo && lo + n <= slices.UsableLimit() <= slices.Limit()
      ensures initialized && lo >= 1
    {
      hide Represents, EmptyBelow;
      assert lo in Range(lo, n) && lo + n - 1 in Range(lo, n);
    }

    /** What `Base` says once the heap is initialised, and how to get it back after a step. */
    lemma BaseParts()
      requires Base()
      ensures slices.Valid() && mem.Valid() && slices.base <= mem.heapBase / SLICE_SIZE
      ensures LogOk(mem.log) && mem.lowestBase > 0 && slices.freeSet <= Usable(mem.granted, slices.UsableLimit())
      ensures initialized ==> owner.Keys == Usable(mem.granted, slices.UsableLimit())
      ensures !initialized ==> owner == map[]
      ensures Backed(slices, mem)
    {
      hide Represents, EmptyBelow, LogOk;
    }

    lemma BaseAgain()
      requires slices.Valid() && mem.Valid() && slices.base <= mem.heapBase / SLICE_SIZE && LogOk(mem.log)
      requires mem.lowestBase > 0 && initialized && owner.Keys == Usable(mem.granted, slices.UsableLimit())
      requires Consistent(Now())
      ensures Base()
    {
      hide Represents, EmptyBelow, LogOk, Consistent;
      FreeAreOwned(Now());
    }

    // -------------------------------------------------------------------------------------------
    // Queues and the direct table
    // -------------------------------------------------------------------------------------------

    /** Restore the lookup table after a change of the head of `bin`'s queue: one loop over the bin's range makes
        every entry right again. */
    method UpdateDirect(bin: nat)
      requires bin < QUEUE_COUNT && DirectBut(direct, queues, bin)
      modifies this`direct
      ensures DirectOk(direct, queues)
    {
      hide BinOf, DirectRange, DirectAt;
      if bin == 0 || bin > MAX_BIN || DirectRange(bin).0 > DirectRange(bin).1 {
        DirectUnserved(direct, queues, bin);
        return;
      }
      var lo, hi := DirectRange(bin).0, DirectRange(bin).1;
      var target := queues[bin].first;
      var i := lo;
      while i <= hi && i < DIRECT_ENTRIES
        invariant |direct| == DIRECT_ENTRIES && lo <= i
        invariant forall j :: 0 <= j < DIRECT_ENTRIES && (BinOf(j * WORD) != bin || lo <= j < i) ==>
                  DirectAt(direct, queues, j)
      {
        DirectEntry(bin, i, target);
        i := i + 1;
      }
      forall j | 0 <= j < DIRECT_ENTRIES ensures DirectAt(direct, queues, j) {
        DirectRangeExact(bin, j);
      }
    }

    /** One step of the table update. */
    method DirectEntry(bin: nat, i: nat, target: int)
      requires 1 <= bin <= MAX_BIN && |queues| == QUEUE_COUNT && |direct| == DIRECT_ENTRIES && i < DIRECT_ENTRIES
      requires DirectRange(bin).0 <= i <= DirectRange(bin).1 && target == queues[bin].first
      modifies this`direct
      ensures |direct| == DIRECT_ENTRIES && DirectAt(direct, queues, i)
      ensures forall j :: 0 <= j < DIRECT_ENTRIES && old(DirectAt(direct, queues, j)) ==> DirectAt(direct, queues, j)
    {
      hide BinOf, DirectRange;
      DirectRangeExact(bin, i);
      direct := direct[i := target];
    }

    method PushFront(qi: nat, page: int)
      requires QueuesValid(page) && page in mem.pages && HomeQueue(mem.pages, mem.links, page) == qi
      requires 1 <= qi <= FULL_QUEUE
      modifies this`queues, this`members, this`direct, this`occupied, mem`links
      ensures QueuesValid(0) && SameMarks(old(mem.links), mem.links)
      ensures members == old(members)[qi := [page] + old(members)[qi]]
    {
      hide OccupiedOk, DirectOk, DirectBut, Linked, LinksOnlyAt, SameMarks, MemberOk, HasPlace, OrW, Mask;
      var first := queues[qi].first;
      FrontJoin(page, qi);
      mem.links := FrontLinks(mem.links, page, first);
      DirectAfter(direct, queues, qi, FrontQueue(queues[qi], page));
      OccupiedSet(occupied, members, qi, [page] + members[qi]);
      members := members[qi := [page] + members[qi]];
      queues := queues[qi := FrontQueue(queues[qi], page)];
      occupied := OrW(occupied, Mask(qi, 1));
      UpdateDirect(qi);
    }

    lemma FrontJoin(page: int, qi: nat)
      requires QueuesValid(page) && page in mem.pages && HomeQueue(mem.pages, mem.links, page) == qi
      requires 1 <= qi <= FULL_QUEUE
      ensures var after := FrontLinks(mem.links, page, queues[qi].first);
              var m := [page] + members[qi];
              && QueuesOk(queues[qi := FrontQueue(queues[qi], page)], members[qi := m], after)
              && Placed(members[qi := m], mem.pages, after, 0)
              && SameMarks(mem.links, after)
    {
      hide OccupiedOk, DirectOk, Linked, LinksOnlyAt, SameMarks, HomeQueue, FrontLinks, FrontQueue, HasPlace;
      var q, m := queues[qi], members[qi];
      var after := FrontLinks(mem.links, page, q.first);
      FirstIsMember(q, m, mem.links);
      FrontOnlyAt(mem.links, page, q.first);
      OnlyAtMarks(mem.links, after, page, q.first, page);
      NotMember(members, mem.pages, mem.links, page, qi);
      FrontLinked(q, m, mem.links, page);
      forall qj | 0 <= qj < QUEUE_COUNT && qj != qi ensures Linked(queues[qj], members[qj], after) {
        OthersLinked(queues, members, mem.pages, mem.links, after, page, qi, page, q.first, page, qj);
      }
      ReplaceQueue(queues, members, after, qi, FrontQueue(q, page), [page] + m);
      PlacedJoin(members, mem.pages, mem.links, after, page, [page] + m);
    }

    method PushBack(qi: nat, page: int)
      requires QueuesValid(page) && page in mem.pages && HomeQueue(mem.pages, mem.links, page) == qi
      requires 1 <= qi <= FULL_QUEUE
      modifies this`queues, this`members, this`direct, this`occupied, mem`links
      ensures QueuesValid(0) && SameMarks(old(mem.links), mem.links)
      ensures members == old(members)[qi := old(members)[qi] + [page]]
    {
      hide OccupiedOk, DirectOk, DirectBut, Linked, LinksOnlyAt, SameMarks, MemberOk, HasPlace, OrW, Mask;
      var last := queues[qi].last;
      BackJoin(page, qi);
      mem.links := BackLinks(mem.links, page, last);
      var wasEmpty := queues[qi].first == 0;
      DirectAfter(direct, queues, qi, BackQueue(queues[qi], page));
      OccupiedSet(occupied, members, qi, members[qi] + [page]);
      members := members[qi := members[qi] + [page]];
      queues := queues[qi := BackQueue(queues[qi], page)];
      occupied := OrW(occupied, Mask(qi, 1));
      if wasEmpty {
        UpdateDirect(qi);
      }
    }

    lemma BackJoin(page: int, qi: nat)
      requires QueuesValid(page) && page in mem.pages && HomeQueue(mem.pages, mem.links, page) == qi
      requires 1 <= qi <= FULL_QUEUE
      ensures var after := BackLinks(mem.links, page, queues[qi].last);
              var m := members[qi] + [page];
              && QueuesOk(queues[qi := BackQueue(queues[qi], page)], members[qi := m], after)
              && Placed(members[qi := m], mem.pages, after, 0)
              && SameMarks(mem.links, after)
    {
      hide OccupiedOk, DirectOk, Linked, LinksOnlyAt, SameMarks, HomeQueue, BackLinks, BackQueue, HasPlace;
      var q, m := queues[qi], members[qi];
      var after := BackLinks(mem.links, page, q.last);
      FirstIsMember(q, m, mem.links);
      BackOnlyAt(mem.links, page, q.last);
      OnlyAtMarks(mem.links, after, page, q.last, page);
      NotMember(members, mem.pages, mem.links, page, qi);
      BackLinked(q, m, mem.links, page);
      forall qj | 0 <= qj < QUEUE_COUNT && qj != qi ensures Linked(queues[qj], members[qj], after) {
        OthersLinked(queues, members, mem.pages, mem.links, after, page, qi, page, q.last, page, qj);
      }
      ReplaceQueue(queues, members, after, qi, BackQueue(q, page), m + [page]);
      PlacedJoin(members, mem.pages, mem.links, after, page, m + [page]);
    }

    /** Unlink a member of queue `qi`; `at` is where it was. */
    method Remove(qi: nat, page: int) returns (ghost at: nat)
      requires QueuesValid(0) && 1 <= qi <= FULL_QUEUE && page in members[qi]
      modifies this`queues, this`members, this`direct, this`occupied, mem`links
      ensures QueuesValid(page) && SameMarks(old(mem.links), mem.links)
      ensures at < |old(members)[qi]| && old(members)[qi][at] == page
      ensures members == old(members)[qi := Without(old(members)[qi], at)]
    {
      hide OccupiedOk, DirectOk, DirectBut, Linked, LinksOnlyAt, SameMarks, MemberOk, HasPlace, AndW, NotW, Mask;
      at := RemoveLeave(page, qi);
      var q := RemovedQueue(queues[qi], page, mem.links[page]);
      var wasFirst := queues[qi].first == page;
      mem.links := RemovedLinks(mem.links, page);
      DirectAfter(direct, queues, qi, q);
      if q.count == 0 {
        OccupiedClear(occupied, members, qi);
        occupied := AndW(occupied, NotW(Mask(qi, 1)));
      } else {
        OccupiedKept(occupied, members, qi, Without(members[qi], at));
      }
      members := members[qi := Without(members[qi], at)];
      queues := queues[qi := q];
      if wasFirst {
        UpdateDirect(qi);
      }
    }

    lemma RemoveLeave(page: int, qi: nat) returns (at: nat)
      requires QueuesValid(0) && 1 <= qi <= FULL_QUEUE && page in members[qi]
      ensures at < |members[qi]| && members[qi][at] == page && page in mem.links
      ensures var after := RemovedLinks(mem.links, page);
              var m := Without(members[qi], at);
              var q := RemovedQueue(queues[qi], page, mem.links[page]);
              && QueuesOk(queues[qi := q], members[qi := m], after)
              && Placed(members[qi := m], mem.pages, after, page)
              && SameMarks(mem.links, after)
              && (q.count == 0 <==> m == [])
              && (queues[qi].first != page ==> q.first == queues[qi].first)
    {
      hide OccupiedOk, DirectOk, Linked, LinksOnlyAt, SameMarks, HomeQueue, RemovedLinks, HasPlace, Without, NoDup;
      var q, m := queues[qi], members[qi];
      at :| at < |m| && m[at] == page;
      RemoveLinked(q, m, mem.links, at);
      var after := RemovedLinks(mem.links, page);
      Neighbours(q, m, mem.links, at);
      RemovedOnlyAt(mem.links, page);
      OnlyAtMarks(mem.links, after, page, mem.links[page].prev, mem.links[page].next);
      forall qj | 0 <= qj < QUEUE_COUNT && qj != qi ensures Linked(queues[qj], members[qj], after) {
        OthersLinked(queues, members, mem.pages, mem.links, after, 0, qi, page, mem.links[page].prev,
                     mem.links[page].next, qj);
      }
      ReplaceQueue(queues, members, after, qi, RemovedQueue(q, page, mem.links[page]), Without(m, at));
      LinkedWithout(q, m, mem.links, at);
      LinkedCount(RemovedQueue(q, page, mem.links[page]), Without(m, at), after);
      PlacedLeave(members, mem.pages, mem.links, after, qi, page, Without(m, at));
    }

    method MoveToFront(qi: nat, page: int) returns (ghost at: nat)
      requires QueuesValid(0) && 1 <= qi <= MAX_BIN && page in members[qi]
      modifies this`queues, this`members, this`direct, this`occupied, mem`links
      ensures QueuesValid(0) && SameMarks(old(mem.links), mem.links)
      ensures at < |old(members)[qi]| && old(members)[qi][at] == page
      ensures members == old(members)[qi := [page] + Without(old(members)[qi], at)]
    {
      hide OccupiedOk, DirectOk, Linked, MemberOk, HasPlace, QueuesOk, HomeQueue, Placed;
      MemberHome(members, mem.pages, mem.links, 0, qi, page);
      HeadFirst(queues, members, mem.links, qi);
      MarksSelf(mem.links);
      if queues[qi].first == page {
        at := 0;
        return;
      }
      at := Remove(qi, page);
      SameHomes(mem.pages, old(mem.links), mem.links);
      ghost var between := mem.links;
      PushFront(qi, page);
      MarksTrans(old(mem.links), between, mem.links);
    }

    // -------------------------------------------------------------------------------------------
    // Blocks and pages
    // -------------------------------------------------------------------------------------------

    /** A page of `bin` outside the full queue, or the sentinel. */
    ghost predicate Takeable(page: int, bin: nat)
      reads this, mem, slices, slices.free, slices.zero
    {
      && Ready(page)
      && (page == SENTINEL ||
          (page in mem.pages && page in lists && page in mem.links && mem.pages[page].bin == bin
           && !mem.links[page].inFull && mem.links[page].retireExpire >= 0))
    }

    /** The free list of a page; the sentinel's is empty. */
    ghost function ListOf(page: int): seq<int>
      reads this`lists
    {
      if page != SENTINEL && page in lists then lists[page] else []
    }

    /** Pop `page` for `l`, a request of its own bin: hand out the head of its free list, or nothing (0). */
    method Take(page: int, l: Layout) returns (block: int)
      requires LayoutOk(l) && Classify(l).Bin? && Takeable(page, Classify(l).bin)
      modifies this`lists, this`live, mem`pages
      ensures block == old(Head(ListOf(page)))
      ensures old(ListOf(page)) == [] ==>
                block == 0 && live == old(live) && mem.pages == old(mem.pages) && lists == old(lists)
                && (old(Valid()) ==> Valid())
      ensures old(ListOf(page)) != [] ==>
                Valid() && block != 0 && block !in old(live) && live == old(live)[block := l]
                && page in old(mem.pages)
                && mem.pages == old(mem.pages)[page := Popped(old(mem.pages)[page], Head(old(ListOf(page))[1..]))]
                && HandsOut(old(Snapshot()), Snapshot(), page, block)
                && HeaderOf(KindOfBin(Classify(l).bin), block) == page
    {
      hide HandsOut, HeaderOf, Consistent, QueuesOk, Placed, OccupiedOk, DirectOk, LayoutOk, RetireBut, Base, PageOk,
           Chain, Taken, PageZero, Geometry, ListOk, Kept, Classify, Poppable, Popped;
      ghost var s, l0, s0 := Now(), ListOf(page), Snapshot();
      if page == SENTINEL {
        SentinelPoppable(mem);
        block := Pop(mem, page, []);
        return;
      }
      PagesOkAt(s, page);
      CountsAt(s, page);
      PoppableHere(mem, page, lists[page], mem.pages[page]);
      block := Pop(mem, page, lists[page]);
      if block == 0 {
        return;
      }
      FreeIsHead(s, page);
      BlockHeader(s, page);
      TakeStep(s, page, l);
      TakenIs(s, page, l);
      TakenPages(s.pages, mem.links, page, Head(l0[1..]));
      TakenPlaced(members, s.pages, mem.links, page, Head(l0[1..]));
      live := live[block := l];
      lists := lists[page := lists[page][1..]];
      HandsOutIs(s0, Snapshot(), page, Head(l0[1..]), block);
    }

    /** Push a live binned block back onto its page, whose retirement state is then the caller's to fix. */
    method GiveBack(page: int, block: int)
      requires Valid() && Binned(Now(), block) && page == Home(block, live[block])
      modifies this`lists, this`live, mem`pages, mem`bytes
      ensures Ready(page) && live == old(live) - {block} && Kept(live, old(mem.bytes), mem.bytes)
      ensures page in old(mem.pages) && page in mem.pages && page in mem.links
      ensures PageState(old(mem.pages)[page], mem.links[page])
      ensures mem.pages == old(mem.pages)[page := Pushed(old(mem.pages)[page], block)] && mem.pages[page].used >= 0
      ensures mem.pages[page].capacity == old(mem.pages)[page].capacity
      ensures LinkWritten(old(mem.bytes), mem.bytes, block, old(mem.pages)[page].free)
    {
      hide Consistent, QueuesOk, Placed, OccupiedOk, DirectOk, LayoutOk, RetireBut, Base, PageOk, Chain, PageZero,
           Geometry, ListOk, Kept, SameMarks, MarksBut, Marked, Classify, Returned, Pushed, WriteWord, Binned, Home,
           PageState;
      ghost var s := Now();
      BinnedPage(s, block, page);
      FreeIsHead(s, page);
      ReturnStep(s, block);
      ReturnedIs(s, block, page);
      PlacedKeys(members, mem.pages, mem.links, 0);
      StateAt(mem.pages, mem.links, 0, page);
      PushedPages(mem.pages, mem.links, page, block);
      PushedPlaced(members, mem.pages, mem.links, page, block);
      Push(mem, page, block, lists[page]);
      live := live - {block};
      lists := lists[page := [block] + lists[page]];
    }

    /** Record a countdown or the full flag of `page`. */
    method Mark(page: int, inFull: bool, retireExpire: int, ghost loose: int)
      requires QueuesValid(loose) && page in mem.links && (page == loose || inFull == mem.links[page].inFull)
      modifies mem`links
      ensures QueuesValid(loose) && Marked(old(mem.links), mem.links, page)
      ensures mem.links.Keys == old(mem.links).Keys
      ensures mem.links[page].inFull == inFull && mem.links[page].retireExpire == retireExpire
    {
      hide QueuesOk, Placed, OccupiedOk, DirectOk;
      ghost var before := mem.links;
      mem.links := mem.links[page := mem.links[page].(inFull := inFull, retireExpire := retireExpire)];
      MarkedQueues(queues, members, before, mem.links, page);
      MarkedPlaced(members, mem.pages, before, mem.links, loose, page);
    }

    /** Drop an empty page: it leaves queue `qi` and the page table, and its slices become free. */
    method FreePage(page: int, qi: nat) returns (ghost at: nat)
      requires Ready(page) && 1 <= qi <= MAX_BIN && qi < |members| && page in members[qi]
      requires page in mem.pages && mem.pages[page].used == 0
      modifies this`queues, this`members, this`direct, this`occupied, this`lists, this`owner
      modifies mem`links, mem`pages, slices, slices.free
      ensures Valid() && slices.base == old(slices.base)
      ensures mem.pages == old(mem.pages) - {page} && mem.links.Keys == old(mem.links).Keys - {page}
      ensures slices.freeSet == old(slices.freeSet) + Range(page / SLICE_SIZE, PageSlices(old(mem.pages)[page].kind))
      ensures MarksBut(old(mem.links), mem.links, page)
      ensures at < |old(members)[qi]| && old(members)[qi][at] == page
      ensures members == old(members)[qi := Without(old(members)[qi], at)]
    {
      hide Consistent, QueuesOk, Placed, OccupiedOk, DirectOk, LayoutOk, RetireBut, Base, PageOk, Chain, PageZero,
           Geometry, ListOk, Kept, SameMarks, MarksBut, Marked, Without;
      ghost var links0 := mem.links;
      MemberHome(members, mem.pages, mem.links, 0, qi, page);
      at := Remove(qi, page);
      RetireMarks(mem.pages, links0, mem.links, page);
      ghost var links1 := mem.links;
      ReleaseSlices(page);
      MarksButGone(links0, links1, page);
    }

    /** Return the slices of an empty page that is in no queue. */
    method ReleaseSlices(page: int)
      requires Base() && Consistent(Now()) && QueuesValid(page) && RetireBut(mem.pages, mem.links, page)
      requires page in mem.pages && mem.pages[page].used == 0
      modifies this`lists, this`owner, mem`links, mem`pages, slices, slices.free
      ensures Valid() && slices.base == old(slices.base)
      ensures mem.pages == old(mem.pages) - {page} && mem.links == old(mem.links) - {page}
      ensures slices.freeSet == old(slices.freeSet) + Range(page / SLICE_SIZE, PageSlices(old(mem.pages)[page].kind))
    {
      hide Consistent, QueuesOk, Placed, OccupiedOk, DirectOk, LayoutOk, RetireBut, Base, PageOk, Chain, PageZero,
           Geometry, ListOk, Kept, SameMarks, MarksBut, Marked, PageDropped, Range, Represents, EmptyBelow,
           PageSlices, Usable, LogOk, Unopened, SetOwner, Backed, PageState;
      ghost var s := Now();
      PageDroppedStep(s, page);
      DroppedIs(s, page);
      OwnedInside(page / SLICE_SIZE, PageSlices(mem.pages[page].kind));
      BaseParts();
      slices.FreeRun(page / SLICE_SIZE, PageSlices(mem.pages[page].kind));
      DepartedPlaced(members, mem.pages, mem.links, page);
      DepartedQueues(queues, members, mem.pages, mem.links, page);
      DepartedRetire(mem.pages, mem.links, page);
      owner := SetOwner(owner, page / SLICE_SIZE, PageSlices(mem.pages[page].kind), FreeSlice);
      mem.pages := mem.pages - {page};
      mem.links := mem.links - {page};
      lists := lists - {page};
      assert Now() == PageDropped(s, page);
      BaseAgain();
    }

    /** Start the countdown of an empty page and stretch the retired range to its bin. */
    method KeepEmpty(page: int)
      requires Ready(page) && page in mem.pages && page in mem.links && mem.pages[page].used == 0
      requires !mem.links[page].inFull && mem.pages[page].capacity >= 1 && mem.pages[page].bin >= 0
      modifies this`retiredMin, this`retiredMax, mem`links
      ensures Valid() && MarksBut(old(mem.links), mem.links, page)
      ensures page in mem.links && !mem.links[page].inFull
      ensures mem.links[page].retireExpire == RetireCycles(mem.pages[page].blockSize)
      ensures retiredMin == Min(old(retiredMin), mem.pages[page].bin)
      ensures retiredMax == Max(old(retiredMax), mem.pages[page].bin)
    {
      hide Consistent, QueuesOk, Placed, OccupiedOk, DirectOk, RetireBut, Base, PageOk, SameMarks, MarksBut, Marked;
      ghost var links0 := mem.links;
      var qi := mem.pages[page].bin;
      Mark(page, false, RetireCycles(mem.pages[page].blockSize), 0);
      RetireMarked(mem.pages, links0, mem.links, page);
      MarkedMarks(links0, mem.links, page);
      retiredMin := if qi < retiredMin then qi else retiredMin;
      retiredMax := if qi > retiredMax then qi else retiredMax;
    }

    /** Settle a page with no live block left. It stays, counting down and with its bin inside the retired range,
        exactly when `Keeps` says so of its queue's length and its block size; otherwise it is dropped. */
    method Retire(page: int)
      requires Ready(page) && page in mem.pages && page in mem.links && mem.pages[page].used == 0
      requires !mem.links[page].inFull && mem.pages[page].capacity >= 1
      modifies this`queues, this`members, this`direct, this`occupied, this`lists, this`owner
      modifies this`retiredMin, this`retiredMax
      modifies mem`links, mem`pages, slices, slices.free
      ensures Valid() && slices.base == old(slices.base) && |old(members)| == QUEUE_COUNT
      ensures PagesBut(old(mem.pages), mem.pages, page)
      ensures Retired(old(Snapshot()), Snapshot(), page)
    {
      hide Consistent, QueuesOk, Placed, OccupiedOk, DirectOk, LayoutOk, RetireBut, Base, PageOk, Chain, PageZero,
           Geometry, ListOk, Kept, SameMarks, MarksBut, Marked, BinSize, Retired, Erase, Range, PageSlices, Without;
      InBinQueue(members, mem.pages, mem.links, page, Now());
      HeadFirst(queues, members, mem.links, mem.pages[page].bin);
      QueueNoDup(queues, members, mem.links, mem.pages[page].bin);
      ghost var s0 := Snapshot();
      var qi := mem.pages[page].bin;
      var bsize := mem.pages[page].blockSize;
      var count := queues[qi].count;
      if Keeps(count, bsize) {
        KeepEmpty(page);
        RetiredIs(s0, Snapshot(), page, true);
        return;
      }
      ghost var at := FreePage(page, qi);
      EraseIs(s0.members[qi], at, page);
      RetiredIs(s0, Snapshot(), page, false);
    }

    /** Take `page` out of the full queue and append it to the queue of its bin. */
    method Unfull(page: int) returns (ghost at: nat)
      requires Ready(page) && page in mem.pages && page in mem.links && mem.links[page].inFull
      modifies this`queues, this`members, this`direct, this`occupied, mem`links
      ensures Ready(page) && page in mem.links && !mem.links[page].inFull
      ensures mem.links[page].retireExpire == old(mem.links)[page].retireExpire
      ensures MarksBut(old(mem.links), mem.links, page) && mem.links.Keys == old(mem.links).Keys
      ensures |old(members)| == QUEUE_COUNT && at < |old(members)[FULL_QUEUE]| && old(members)[FULL_QUEUE][at] == page
      ensures var bin := mem.pages[page].bin;
              && 1 <= bin <= MAX_BIN
              && members == old(members)[FULL_QUEUE := Without(old(members)[FULL_QUEUE], at)]
                                        [bin := old(members)[bin] + [page]]
              && members == Unfulled(old(members), bin, page)
    {
      hide Consistent, QueuesOk, Placed, OccupiedOk, DirectOk, LayoutOk, RetireBut, Base, PageOk, Chain, PageZero,
           Geometry, ListOk, Kept, SameMarks, Marked, BinSize, Without, Erase;
      CountsAt(Now(), page);
      InFullQueue(members, mem.pages, mem.links, page);
      QueueNoDup(queues, members, mem.links, FULL_QUEUE);
      ghost var links0, members0 := mem.links, members;
      at := Remove(FULL_QUEUE, page);
      EraseIs(members0[FULL_QUEUE], at, page);
      ghost var links1 := mem.links;
      MarksAt(links0, links1, page);
      RetireMarks(mem.pages, links0, links1, page);
      Mark(page, false, mem.links[page].retireExpire, page);
      RetireMarkedBut(mem.pages, links1, mem.links, page);
      ghost var links2 := mem.links;
      HomeIsBin(mem.pages, mem.links, page);
      PushBack(mem.pages[page].bin, page);
      MarksAt(links2, mem.links, page);
      RetireMarks(mem.pages, links2, mem.links, page);
      UnfullMarks(links0, links1, links2, mem.links, page);
    }

    /** Whether the invariant is still owed something after a push onto `page`. */
    predicate NeedsTransition(page: int)
      requires page in mem.pages && page in mem.links
      reads mem`pages, mem`links
    {
      (mem.pages[page].used == 0 && mem.links[page].retireExpire == 0) || mem.links[page].inFull
    }

    /** Pay what a push onto `page` left owing to the invariant: a flagged page goes back to its bin queue, and an
        empty one is retired or dropped. */
    method DeallocTransition(page: int)
      requires Ready(page) && page in mem.pages && page in mem.links && NeedsTransition(page)
      requires mem.pages[page].capacity >= 1 && mem.links[page].retireExpire >= 0
      modifies this`queues, this`members, this`direct, this`occupied, this`lists, this`owner
      modifies this`retiredMin, this`retiredMax
      modifies mem`links, mem`pages, slices, slices.free
      ensures Valid() && slices.base == old(slices.base)
      ensures PagesBut(old(mem.pages), mem.pages, page)
      ensures page in mem.pages ==> mem.pages[page] == old(mem.pages)[page]
      ensures page !in mem.pages ==> old(mem.pages)[page].used == 0
      ensures Transition(old(Snapshot()), Snapshot(), page)
    {
      hide Consistent, QueuesOk, Placed, OccupiedOk, DirectOk, LayoutOk, RetireBut, Base, PageOk, Chain, PageZero,
           Geometry, ListOk, Kept, SameMarks, MarksBut, Marked, BinSize, Retired, Unfulled;
      ghost var s0 := Snapshot();
      CountsAt(Now(), page);
      MarksButSelf(mem.links, page);
      PlacedKeys(members, mem.pages, mem.links, 0);
      if mem.links[page].inFull {
        ghost var at := Unfull(page);
      }
      ghost var s1 := Snapshot();
      if AllFree(mem.pages[page]) {
        Retire(page);
        RetiredMarks(s0, s1, Snapshot(), page);
      } else {
        CountsAt(Now(), page);
        RetireDone(mem.pages, mem.links, page);
      }
    }

    // -------------------------------------------------------------------------------------------
    // Releasing empty pages
    // -------------------------------------------------------------------------------------------

    /** The release of queue `qi` has been over its first `k` pages. */
    ghost predicate Releasing(qi: nat, k: nat, s0: Snap)
      reads this`members, mem`pages, mem`links, slices`freeSet
    {
      && |members| == QUEUE_COUNT == |s0.members| && qi < QUEUE_COUNT && OthersSame(s0.members, members, qi)
      && var m0 := s0.members[qi];
         && k <= |m0| && members[qi] == Those(m0[..k], InUse(s0.pages)) + m0[k..]
         && CleanSeq(Those(m0[..k], InUse(s0.pages)), mem.pages, mem.links)
         && OutsideSame(m0, s0.pages, s0.links, mem.pages, mem.links) && SubPages(s0.pages, mem.pages)
         && SlicesFreed(s0.pages, mem.pages, s0.free, slices.freeSet)
    }

    lemma ReleaseStart(qi: nat)
      requires Valid() && 1 <= qi <= MAX_BIN
      ensures Releasing(qi, 0, Snapshot()) && |queues| == QUEUE_COUNT == |members|
      ensures queues[qi].first == Head(members[qi][0..])
      ensures Head(members[qi][0..]) == 0 <==> members[qi][0..] == []
    {
      hide Consistent, QueuesOk, Placed, OccupiedOk, DirectOk, RetireBut, Base, CleanSeq, OthersSame, OutsideSame,
           SubPages, SlicesFreed;
      HeadFirst(queues, members, mem.links, qi);
      WalkStart(members, qi, mem.pages, mem.links);
      FreedNothing(mem.pages, slices.freeSet);
      ThoseNone(members[qi], InUse(mem.pages));
    }

    /** The next page of the release: dropped when it is empty, rid of its countdown when not. The successor is
        fetched ahead of the drop that would forget it. */
    method ReleaseNext(qi: nat, page: int, ghost k: nat, ghost s0: Snap) returns (next: int)
      requires Valid() && 1 <= qi <= MAX_BIN && Releasing(qi, k, s0)
      requires k < |s0.members[qi]| && page == s0.members[qi][k]
      modifies this`queues, this`members, this`direct, this`occupied, this`lists, this`owner
      modifies mem`links, mem`pages, slices, slices.free
      ensures Valid() && slices.base == old(slices.base) && Releasing(qi, k + 1, s0)
      ensures next == Head(s0.members[qi][k + 1..]) && (next == 0 <==> s0.members[qi][k + 1..] == [])
    {
      hide SlicesFreed, Consistent, QueuesOk, Placed, OccupiedOk, DirectOk, LayoutOk, RetireBut, Base, PageOk, Chain,
           PageZero, Geometry, ListOk, Kept, SameMarks, MarksBut, Marked, BinSize, Without, CleanSeq, OthersSame,
           OutsideSame, SubPages, PageState, Those;
      ghost var m0 := s0.members[qi];
      ghost var done, todo := Those(m0[..k], InUse(s0.pages)), m0[k..];
      ThoseStep(m0, k, InUse(s0.pages));
      WalkAt(queues, members, mem.pages, mem.links, qi, done, todo);
      StateAt(mem.pages, mem.links, 0, page);
      SubAt(s0.pages, mem.pages, page);
      next := mem.links[page].next;
      ghost var pages1, links1, members1, free1 := mem.pages, mem.links, members, slices.freeSet;
      if AllFree(mem.pages[page]) {
        assert done + [] == done;
        RetireWeaken(mem.pages, mem.links, page);
        ghost var at := FreePage(page, qi);
        WalkDropped(members1[qi], done, todo, at);
        CleanDropped(done, pages1, links1, mem.pages, mem.links, page);
        OutsideDropped(m0, s0.pages, s0.links, pages1, links1, mem.pages, mem.links, page);
        FreedOne(s0.pages, pages1, s0.free, free1, page);
        SubDropped(s0.pages, pages1, page);
      } else {
        if mem.links[page].retireExpire != 0 {
          Mark(page, false, 0, 0);
          UnretiredState(mem.pages, links1, mem.links, page);
        }
        CleanKept(done, mem.pages, links1, mem.links, page);
        OutsideKept(m0, s0.pages, s0.links, mem.pages, links1, mem.links, page);
        assert done + todo == (done + [page]) + m0[k + 1..];
      }
      OthersStay(s0.members, members1, members, qi);
    }

    /** One queue of the release, front to back: afterwards it holds its pages in use, in order, and no
        countdown. */
    method ReleaseEmptyIn(qi: nat)
      requires Valid() && 1 <= qi <= MAX_BIN
      modifies this`queues, this`members, this`direct, this`occupied, this`lists, this`owner
      modifies mem`links, mem`pages, slices, slices.free
      ensures Valid() && slices.base == old(slices.base)
      ensures |members| == QUEUE_COUNT == |old(members)| && CleanSeq(members[qi], mem.pages, mem.links)
      ensures OthersSame(old(members), members, qi)
      ensures OutsideSame(old(members)[qi], old(mem.pages), old(mem.links), mem.pages, mem.links)
      ensures SubPages(old(mem.pages), mem.pages)
      ensures SlicesFreed(old(mem.pages), mem.pages, old(slices.freeSet), slices.freeSet)
      ensures members[qi] == Those(old(members)[qi], InUse(old(mem.pages)))
    {
      hide Valid, Ready, Releasing, OthersSame, OutsideSame, SubPages, CleanSeq, Those, SlicesFreed, Head;
      ghost var s0, k := Snapshot(), 0;
      ReleaseStart(qi);
      assert |s0.members| == QUEUE_COUNT;
      var cur := queues[qi].first;
      while cur != 0
        invariant Valid() && slices.base == old(slices.base) && Releasing(qi, k, s0) && k <= |s0.members[qi]|
        invariant cur == Head(s0.members[qi][k..]) && (cur == 0 <==> s0.members[qi][k..] == [])
        decreases |s0.members[qi]| - k
      {
        WalkHead(s0.members[qi], k);
        cur := ReleaseNext(qi, cur, k, s0);
        k := k + 1;
      }
      ReleaseEnd(qi, k, s0);
    }

    lemma ReleaseEnd(qi: nat, k: nat, s0: Snap)
      requires Releasing(qi, k, s0) && s0.members[qi][k..] == []
      ensures |members| == QUEUE_COUNT == |s0.members| && CleanSeq(members[qi], mem.pages, mem.links)
      ensures OthersSame(s0.members, members, qi) && SubPages(s0.pages, mem.pages)
      ensures OutsideSame(s0.members[qi], s0.pages, s0.links, mem.pages, mem.links)
      ensures SlicesFreed(s0.pages, mem.pages, s0.free, slices.freeSet)
      ensures members[qi] == Those(s0.members[qi], InUse(s0.pages))
    {
      hide OthersSame, OutsideSame, SubPages, CleanSeq, Those, SlicesFreed;
      assert s0.members[qi][..k] == s0.members[qi];
      assert members[qi] == Those(s0.members[qi], InUse(s0.pages)) + [] == Those(s0.members[qi], InUse(s0.pages));
    }

    /** Bring the heap to a state with no empty page, no countdown and an empty retired range. The slices of the
        pages that were empty, and no others, become free; the pages in use keep their blocks. */
    method ReleaseEmptyPages()
      requires Valid()
      modifies this`queues, this`members, this`direct, this`occupied, this`lists, this`owner
      modifies this`retiredMin, this`retiredMax
      modifies mem`links, mem`pages, slices, slices.free
      ensures Valid() && slices.base == old(slices.base)
      ensures NoEmpty(mem.pages) && SubPages(old(mem.pages), mem.pages)
      ensures slices.freeSet == old(slices.freeSet) + EmptySlices(old(mem.pages))
      ensures forall p :: p in mem.pages ==> p in mem.links && mem.links[p].retireExpire == 0
      ensures retiredMin == QUEUE_COUNT && retiredMax == 0
      ensures Cleaned(old(members), old(mem.pages), members)
    {
      hide CleanedBut, Cleaned, Those, InUse, SlicesFreed, EmptySlices, Consistent, QueuesOk, Placed, OccupiedOk,
           DirectOk, LayoutOk, RetireBut, Base, PageOk, Chain, PageZero, Geometry, ListOk, Kept, SameMarks, MarksBut,
           Marked, BinSize, Without, CleanSeq, OthersSame, OutsideSame, SubPages, PageState, AndW, Mask, Bit, NoEmpty,
           DropLowest;
      var pending := AndW(occupied, Mask(1, BIN_COUNT - 1));
      PendingStart(occupied, members, mem.pages, mem.links);
      SubSelf(mem.pages);
      FreedNothing(mem.pages, slices.freeSet);
      CleanedStart(members, mem.pages, mem.links, pending);
      while pending != 0
        invariant Valid() && slices.base == old(slices.base) && |members| == QUEUE_COUNT
        invariant SubPages(old(mem.pages), mem.pages)
        invariant SlicesFreed(old(mem.pages), mem.pages, old(slices.freeSet), slices.freeSet)
        invariant forall q: nat | q < 64 :: Bit(pending, q) ==> 1 <= q <= MAX_BIN
        invariant forall q: nat | 1 <= q <= MAX_BIN :: !Bit(pending, q) ==> CleanSeq(members[q], mem.pages, mem.links)
        invariant PendingBelow(pending) >= 0
        invariant CleanedBut(old(members), old(mem.pages), members, pending)
        decreases PendingBelow(pending)
      {
        var qi := TrailingZeros(pending);
        ghost var members0, pages0, links0, pending0 := members, mem.pages, mem.links, pending;
        ghost var free0 := slices.freeSet;
        pending := DropLowest(pending);
        DroppedBits(pending0, qi);
        PlacedKeys(members, mem.pages, mem.links, 0);
        ReleaseEmptyIn(qi);
        CleanedStep(old(members), old(mem.pages), members0, pages0, members, pending0, pending, qi);
        FreedTwice(old(mem.pages), pages0, mem.pages, old(slices.freeSet), free0, slices.freeSet);
        SubTrans(old(mem.pages), pages0, mem.pages);
        forall q: nat | 1 <= q <= MAX_BIN && !Bit(pending, q) ensures CleanSeq(members[q], mem.pages, mem.links) {
          if q != qi { CleanElsewhere(members0, members, pages0, links0, mem.pages, mem.links, qi, q); }
        }
      }
      retiredMin := QUEUE_COUNT;
      retiredMax := 0;
      ZeroWord(pending);
      CleanedAll(old(members), old(mem.pages), members, pending);
      AllClean(members, mem.pages, mem.links, Now());
      GoneAreEmpty(old(mem.pages), mem.pages);
    }

    ghost function Snapshot(): Snap
      reads this`members, this`retiredMin, this`retiredMax, mem`pages, mem`links, slices`freeSet
    {
      Snap(members, mem.pages, mem.links, retiredMin, retiredMax, slices.freeSet)
    }

    // -------------------------------------------------------------------------------------------
    // Aging retired pages
    // -------------------------------------------------------------------------------------------

    /** Age one page of queue `qi`: un-retire it when it is in use, release it when its countdown ends. */
    method AgePage(qi: nat, page: int, kept: bool, ghost done: seq<int>, ghost todo: seq<int>) returns (now: bool)
      requires Valid() && 1 <= qi <= MAX_BIN && |members| == QUEUE_COUNT
      requires members[qi] == done + todo && todo != [] && todo[0] == page && NoDup(members[qi])
      requires page in mem.pages && page in mem.links && page != 0 && !mem.links[page].inFull
      requires PageState(mem.pages[page], mem.links[page])
      modifies this`queues, this`members, this`direct, this`occupied, this`lists, this`owner
      modifies mem`links, mem`pages, slices, slices.free
      ensures Valid() && slices.base == old(slices.base)
      ensures mem.pages == old(mem.pages) || mem.pages == old(mem.pages) - {page}
      ensures MarksBut(old(mem.links), mem.links, page)
      ensures AgedAt(old(mem.pages), old(mem.links), mem.pages, mem.links, page)
      ensures var kept := if Expires(old(mem.pages)[page], old(mem.links)[page]) then done else done + [page];
              members == old(members)[qi := kept + todo[1..]]
      ensures now <==> kept || (old(mem.pages)[page].used == 0 && old(mem.links)[page].retireExpire > 1)
      ensures SlicesFreed(old(mem.pages), mem.pages, old(slices.freeSet), slices.freeSet)
    {
      hide SlicesFreed, Consistent, QueuesOk, Placed, OccupiedOk, DirectOk, LayoutOk, RetireBut, Base, PageOk, Chain,
           PageZero, Geometry, ListOk, Kept, SameMarks, MarksBut, Marked, BinSize, Without, NoDup, Survivors;
      ghost var links0, free0 := mem.links, slices.freeSet;
      FreedNothing(mem.pages, free0);
      SubSelf(mem.pages);
      FreedOne(mem.pages, mem.pages, free0, free0, page);
      now := kept;
      MarksButSelf(mem.links, page);
      WalkSplit(members, qi, done, todo);
      if mem.links[page].retireExpire != 0 {
        if AllFree(mem.pages[page]) {
          Mark(page, false, mem.links[page].retireExpire - 1, 0);
          MarkedMarks(links0, mem.links, page);
          RetireWeaken(mem.pages, links0, page);
          RetireMarkedBut(mem.pages, links0, mem.links, page);
          if mem.links[page].retireExpire == 0 {
            ghost var links1, members1 := mem.links, members;
            ghost var at := FreePage(page, qi);
            WalkDropped(members1[qi], done, todo, at);
            MarksButTrans(links0, links1, mem.links, page);
          } else {
            now := true;
            RetireDone(mem.pages, mem.links, page);
          }
        } else {
          Mark(page, false, 0, 0);
          MarkedMarks(links0, mem.links, page);
          UnretiredState(mem.pages, links0, mem.links, page);
        }
      }
    }

    /** Where a collection round starts and what it knows about the page it stands at. */
    lemma CollectStart(qi: nat)
      requires Valid() && qi <= MAX_BIN
      ensures |queues| == QUEUE_COUNT && |members| == QUEUE_COUNT && queues[qi].first == Head(members[qi][0..])
      ensures Head(members[qi][0..]) == 0 <==> members[qi][0..] == []
      ensures Collecting(qi, 0, false, members, mem.pages, mem.links)
    {
      hide Consistent, QueuesOk, Placed, OccupiedOk, DirectOk, RetireBut, Base, Survivors, KeepsAging, AgedPrefix,
           OthersSame, OutsideSame, SubPages, NoDup;
      HeadFirst(queues, members, mem.links, qi);
      AgingStart(members[qi], members, qi, mem.pages, mem.links);
      QueueNoDup(queues, members, mem.links, qi);
      assert members[qi][0..] == members[qi];
    }

    lemma CollectAt(qi: nat, done: seq<int>, todo: seq<int>)
      requires Valid() && qi <= MAX_BIN && |members| == QUEUE_COUNT && members[qi] == done + todo && todo != []
      ensures var p := todo[0];
              && p in mem.pages && p in mem.links && p != 0 && !mem.links[p].inFull && 1 <= qi && NoDup(members[qi])
              && mem.links[p].next == Head(todo[1..]) && (Head(todo[1..]) == 0 <==> todo[1..] == [])
              && PageState(mem.pages[p], mem.links[p])
    {
      hide Consistent, QueuesOk, Placed, OccupiedOk, DirectOk, RetireBut, Base, NoDup;
      AgingAt(queues, members, mem.pages, mem.links, qi, done, todo, Now());
      StateAt(mem.pages, mem.links, 0, todo[0]);
    }

    /** The round over queue `qi` has looked at the first `seen` pages of `m0`, its members before. */
    ghost predicate Collecting(qi: nat, seen: nat, kept: bool, members0: seq<seq<int>>, pages0: map<int, Page>,
                               links0: map<int, Links>)
      reads this`members, mem`pages, mem`links
    {
      && |members| == QUEUE_COUNT == |members0| && qi < QUEUE_COUNT && OthersSame(members0, members, qi)
      && var m0 := members0[qi];
         && seen <= Window(m0) && NoDup(m0)
         && members[qi] == Survivors(m0[..seen], pages0, links0) + m0[seen..]
         && AgedPrefix(m0, seen, pages0, links0, mem.pages, mem.links)
         && OutsideSame(m0, pages0, links0, mem.pages, mem.links) && SubPages(pages0, mem.pages)
         && (kept <==> KeepsAging(m0, seen, pages0, links0))
    }

    /** Look at the next page of the round, `cur`. */
    method CollectNext(qi: nat, cur: int, seen: nat, kept: bool, ghost members0: seq<seq<int>>,
                       ghost pages0: map<int, Page>, ghost links0: map<int, Links>) returns (next: int, now: bool)
      requires Valid() && qi <= MAX_BIN && Collecting(qi, seen, kept, members0, pages0, links0)
      requires seen < Window(members0[qi]) && cur == members0[qi][seen]
      modifies this`queues, this`members, this`direct, this`occupied, this`lists, this`owner
      modifies mem`links, mem`pages, slices, slices.free
      ensures Valid() && slices.base == old(slices.base) && Collecting(qi, seen + 1, now, members0, pages0, links0)
      ensures next == Head(members0[qi][seen + 1..]) && (next == 0 <==> members0[qi][seen + 1..] == [])
      ensures SlicesFreed(old(mem.pages), mem.pages, old(slices.freeSet), slices.freeSet)
      ensures SubPages(old(mem.pages), mem.pages)
    {
      hide SlicesFreed, Valid, Ready, AgedPrefix, OthersSame, OutsideSame, SubPages, PageState, Survivors, KeepsAging,
           NoDup, AgedAt, MarksBut;
      ghost var m0 := members0[qi];
      ghost var done, todo := Survivors(m0[..seen], pages0, links0), m0[seen..];
      AgingSame(m0, seen, pages0, links0, mem.pages, mem.links);
      SurvivorsStep(m0, seen, pages0, links0);
      CollectAt(qi, done, todo);
      ghost var pages1, links1, members1 := mem.pages, mem.links, members;
      next := mem.links[cur].next;
      now := AgePage(qi, cur, kept, done, todo);
      AgedStep(m0, seen, pages0, links0, pages1, links1, mem.pages, mem.links);
      OthersStay(members0, members1, members, qi);
      AgedSub(pages1, links1, mem.pages, mem.links, cur);
    }

    /** One collection round over queue `qi`: age the retired pages among its first three and release the
        expired ones. `kept`: one of them stays retired. */
    method CollectIn(qi: nat) returns (kept: bool)
      requires Valid() && qi <= MAX_BIN
      modifies this`queues, this`members, this`direct, this`occupied, this`lists, this`owner
      modifies mem`links, mem`pages, slices, slices.free
      ensures Valid() && slices.base == old(slices.base)
      ensures |members| == QUEUE_COUNT == |old(members)| && OthersSame(old(members), members, qi)
      ensures AgedQueue(old(members)[qi], old(mem.pages), old(mem.links), members[qi], mem.pages, mem.links)
      ensures OutsideSame(old(members)[qi], old(mem.pages), old(mem.links), mem.pages, mem.links)
      ensures SubPages(old(mem.pages), mem.pages)
      ensures kept <==> KeepsAging(old(members)[qi], Window(old(members)[qi]), old(mem.pages), old(mem.links))
      ensures SlicesFreed(old(mem.pages), mem.pages, old(slices.freeSet), slices.freeSet)
    {
      hide SlicesFreed, Valid, Ready, Collecting, AgedQueue, OthersSame, OutsideSame, SubPages, KeepsAging, Window,
           Head;
      CollectStart(qi);
      ghost var members0, pages0, links0, free0 := members, mem.pages, mem.links, slices.freeSet;
      var cur := queues[qi].first;
      var seen := 0;
      FreedNothing(pages0, free0);
      SubSelf(pages0);
      kept := false;
      while cur != 0 && seen < RETIRE_MAX_PAGES
        invariant Valid() && slices.base == old(slices.base) && Collecting(qi, seen, kept, members0, pages0, links0)
        invariant seen <= |members0[qi]| && seen <= RETIRE_MAX_PAGES
        invariant cur == Head(members0[qi][seen..]) && (cur == 0 <==> members0[qi][seen..] == [])
        invariant SlicesFreed(pages0, mem.pages, free0, slices.freeSet) && SubPages(pages0, mem.pages)
        decreases RETIRE_MAX_PAGES - seen
      {
        ghost var pages1, free1 := mem.pages, slices.freeSet;
        CollectHead(members0[qi], seen);
        cur, kept := CollectNext(qi, cur, seen, kept, members0, pages0, links0);
        FreedTwice(pages0, pages1, mem.pages, free0, free1, slices.freeSet);
        SubTrans(pages0, pages1, mem.pages);
        seen := seen + 1;
      }
      CollectEnd(qi, seen, kept, members0, pages0, links0);
    }

    /** A round that has looked at the whole window is over. */
    lemma CollectEnd(qi: nat, seen: nat, kept: bool, members0: seq<seq<int>>, pages0: map<int, Page>,
                     links0: map<int, Links>)
      requires Collecting(qi, seen, kept, members0, pages0, links0)
      requires seen == RETIRE_MAX_PAGES || seen == |members0[qi]|
      ensures |members| == QUEUE_COUNT == |members0| && OthersSame(members0, members, qi)
      ensures AgedQueue(members0[qi], pages0, links0, members[qi], mem.pages, mem.links)
      ensures OutsideSame(members0[qi], pages0, links0, mem.pages, mem.links) && SubPages(pages0, mem.pages)
      ensures kept <==> KeepsAging(members0[qi], Window(members0[qi]), pages0, links0)
    {
      hide AgedPrefix, OthersSame, OutsideSame, SubPages, Survivors, KeepsAging, NoDup;
    }

    /** Age the queues from `lo` up to `hi`; the least range of those that keep a countdown. */
    method CollectRange(lo: nat, hi: nat) returns (min: nat, max: nat)
      requires Valid()
      modifies this`queues, this`members, this`direct, this`occupied, this`lists, this`owner
      modifies mem`links, mem`pages, slices, slices.free
      ensures Valid() && slices.base == old(slices.base) && |old(members)| == QUEUE_COUNT
      ensures SubPages(old(mem.pages), mem.pages)
      ensures SlicesFreed(old(mem.pages), mem.pages, old(slices.freeSet), slices.freeSet)
      ensures var end := Max(lo, Min(hi, MAX_BIN) + 1);
              && Collected(lo, end, old(members), old(mem.pages), old(mem.links), members, mem.pages, mem.links)
              && RangeKept(lo, end, old(members), old(mem.pages), old(mem.links), min, max)
    {
      hide SlicesFreed, Consistent, QueuesOk, Placed, OccupiedOk, DirectOk, LayoutOk, RetireBut, Base, PageOk, Chain,
           PageZero, Geometry, ListOk, Kept, SameMarks, MarksBut, Marked, BinSize, Without, Collected, OthersSame,
           OutsideSame, SubPages, PageState, Survivors, KeepsAging, NoDup, AgedQueue, InWindow;
      min, max := QUEUE_COUNT, 0;
      ghost var m0, pages0, links0, free0 := members, mem.pages, mem.links, slices.freeSet;
      FreedNothing(pages0, slices.freeSet);
      CollectedStart(lo, members, mem.pages, mem.links);
      PlacedKeys(members, mem.pages, mem.links, 0);
      if lo <= hi {
        var qi := lo;
        while qi <= hi && qi <= MAX_BIN
          invariant lo <= qi && (qi == lo || qi <= Min(hi, MAX_BIN) + 1)
          invariant Valid() && slices.base == old(slices.base) && |members| == QUEUE_COUNT
          invariant Collected(lo, qi, m0, pages0, links0, members, mem.pages, mem.links) && SubPages(pages0, mem.pages)
          invariant RangeKept(lo, qi, m0, pages0, links0, min, max)
          invariant SlicesFreed(pages0, mem.pages, free0, slices.freeSet)
          decreases MAX_BIN + 1 - qi
        {
          ghost var m1, pages1, links1, free1 := members, mem.pages, mem.links, slices.freeSet;
          PlacedKeys(members, mem.pages, mem.links, 0);
          var kept := CollectIn(qi);
          FreedTwice(pages0, pages1, mem.pages, free0, free1, slices.freeSet);
          PlacedKeys(members, mem.pages, mem.links, 0);
          CollectedStep(lo, qi, m0, pages0, links0, m1, pages1, links1, members, mem.pages, mem.links);
          CollectedKeeps(lo, qi, m0, pages0, links0, m1, pages1, links1);
          SubTrans(pages0, pages1, mem.pages);
          if kept {
            min := if qi < min then qi else min;
            max := if qi > max then qi else max;
          }
          qi := qi + 1;
        }
      }
    }

    /** One collection round. In every queue of the retired range, the running countdowns of the three leading
        pages go down by one; at zero the page is dropped, and a page in use again just loses its countdown. */
    method CollectRetired()
      requires Valid()
      modifies this`queues, this`members, this`direct, this`occupied, this`lists, this`owner
      modifies this`retiredMin, this`retiredMax
      modifies mem`links, mem`pages, slices, slices.free
      ensures Valid() && slices.base == old(slices.base)
      ensures var lo, hi := old(retiredMin), Min(old(retiredMax), MAX_BIN) + 1;
              Collected(lo, if lo < hi then hi else lo, old(members), old(mem.pages), old(mem.links),
                        members, mem.pages, mem.links)
      ensures SubPages(old(mem.pages), mem.pages)
      ensures forall p :: WindowAged(p, old(retiredMin), old(retiredMax), retiredMin, retiredMax, old(members),
                                     old(mem.pages), old(mem.links), members, mem.pages, mem.links)
      ensures Round(old(Snapshot()), Snapshot())
    {
      hide SlicesFreed, Consistent, QueuesOk, Placed, OccupiedOk, DirectOk, RetireBut, Base, Collected, SubPages,
           RangeKept, WindowAged;
      ghost var s := Snapshot();
      var min, max := CollectRange(retiredMin, retiredMax);
      retiredMin := min;
      retiredMax := max;
      forall p ensures WindowAged(p, s.lo, s.hi, min, max, s.members, s.pages, s.links, members, mem.pages, mem.links) {
        RoundAges(p, s.lo, s.hi, min, max, s, members, mem.pages, mem.links);
      }
    }

    /** Consecutive rounds: an empty page with countdown `k` in the window is released by the `k`-th. */
    method CollectTimes(rounds: nat, ghost page: int)
      requires Valid() && InWindow(page, retiredMin, retiredMax, members, mem.pages, mem.links)
      modifies this`queues, this`members, this`direct, this`occupied, this`lists, this`owner
      modifies this`retiredMin, this`retiredMax
      modifies mem`links, mem`pages, slices, slices.free
      ensures Valid()
      ensures page in mem.pages <==> rounds < old(mem.links)[page].retireExpire
    {
      hide Ready, InWindow, WindowAged, SubPages, Collected;
      WindowPage(page, retiredMin, retiredMax, members, mem.pages, mem.links);
      ghost var k := mem.links[page].retireExpire;
      var i := 0;
      while i < rounds
        invariant 0 <= i <= rounds && Valid()
        invariant i < k ==> InWindow(page, retiredMin, retiredMax, members, mem.pages, mem.links)
                            && page in mem.links && mem.links[page].retireExpire == k - i
        invariant i >= k ==> page !in mem.pages
        decreases rounds - i
      {
        ghost var pages0, links0, members0, lo, hi := mem.pages, mem.links, members, retiredMin, retiredMax;
        CollectRetired();
        SubGone(pages0, mem.pages, page);
        if i < k {
          WindowNext(page, lo, hi, retiredMin, retiredMax, members0, pages0, links0, members, mem.pages, mem.links);
        }
        i := i + 1;
      }
      if i < k { WindowPage(page, retiredMin, retiredMax, members, mem.pages, mem.links); }
    }

    // -------------------------------------------------------------------------------------------
    // Acquiring slices
    // -------------------------------------------------------------------------------------------

    /** `[start, start + count)` is claimed in the map and owned by no page or run yet. */
    ghost predicate Holding(start: int, count: int, zeroed: bool)
      reads this, mem, slices, slices.free, slices.zero
    {
      && Base() && initialized && QueuesValid(0) && RetireBut(mem.pages, mem.links, 0)
      && Consistent(HeldState(Now(), start, count, zeroed))
      && Range(start, count) !! slices.freeSet && slices.zeroSet <= slices.freeSet
      && Range(start, count) <= owner.Keys && start >= 1
    }

    /** Nothing fits, no page is empty, and what happened since `log` says why memory could not be had. */
    ghost predicate OutOfMemory(count: nat, align: nat, log: seq<GrowEvent>)
      requires align >= 1
      reads slices, mem`size, mem`log, mem`pages
    {
      && NoFit(slices.freeSet, count, align) && NoEmpty(mem.pages)
      && DeniedSince(mem.log, |log|, mem.size, slices.UsableLimit(), count, align)
    }

    /** What failing to serve `l` means. */
    ghost predicate Exhausted(l: Layout, log: seq<GrowEvent>)
      reads slices, mem`size, mem`log, mem`pages
    {
      && l.align >= 1
      && match Classify(l)
         case Huge => OutOfMemory(HugeSlices(l), CeilDiv(l.align, SLICE_SIZE), log)
         case Bin(b) => OutOfMemory(PageSlices(KindOfBin(b)), PageSlices(KindOfBin(b)), log)
    }

    lemma BaseNow()
      requires Backed(slices, mem) && LogOk(mem.log) && mem.lowestBase > 0 && initialized
      requires owner.Keys == Usable(mem.granted, slices.UsableLimit())
      ensures Base()
    {
      hide Backed, LogOk, Usable;
    }

    /** Take the gap above the heap base into the map before the first request. */
    method EnsureInit()
      requires Valid()
      modifies this`initialized, this`owner, mem`size, mem`heapBase, mem`granted, slices, slices.free, slices.zero
      ensures Valid() && initialized
      ensures !old(initialized) ==>
                var first := CeilDiv(mem.heapBase, SLICE_SIZE);
                && mem.granted == Range(first, mem.size - first)
                && slices.freeSet == Usable(mem.granted, slices.UsableLimit()) && slices.zeroSet == {}
      ensures old(initialized) ==>
                owner == old(owner) && slices.freeSet == old(slices.freeSet) && slices.base == old(slices.base)
                && mem.granted == old(mem.granted)
    {
      hide Consistent, QueuesOk, Placed, OccupiedOk, DirectOk, RetireBut, LogOk, Represents, EmptyBelow,
           AddFreeSlices, Range, Usable, Backed;
      if initialized {
        return;
      }
      ghost var s := Now();
      initialized := true;
      InitSlices();
      ghost var gain := slices.freeSet;
      owner := AddFreeSlices(owner, gain);
      GrantedAbove();
      InitGain(s, gain, mem.granted, slices.UsableLimit(), mem.heapBase);
      GrantStep(s, gain, {}, mem.bytes);
      assert Now() == WithGrant(s, gain, {}, mem.bytes);
      BaseNow();
    }

    /** The first whole slice above the heap base and those up to the end of memory become free. */
    method InitSlices()
      requires Backed(slices, mem) && Unopened(owner, slices, mem) && mem.lowestBase > 0
      modifies mem`size, mem`heapBase, mem`granted, slices, slices.free, slices.zero
      ensures Backed(slices, mem) && slices.freeSet == Usable(mem.granted, slices.UsableLimit()) && slices.zeroSet == {}
      ensures slices.UsableLimit() <= MAX_SLICE_INDEX
      ensures var first := CeilDiv(mem.heapBase, SLICE_SIZE); mem.granted == Range(first, mem.size - first)
    {
      hide Represents, EmptyBelow, Range, Usable, Covers, CeilDiv;
      var heapBase, size := mem.Open();
      slices.Init(heapBase / SLICE_SIZE);
      GapInside(mem, heapBase, slices.words, slices.base);
      var first := CeilDiv(heapBase, SLICE_SIZE);
      var count := if size < first then 0 else size - first;
      GapUsable(first, size, slices.Limit(), slices.UsableLimit());
      if count > 0 {
        slices.AddFree(first, count, false);
      }
    }

    /** Claim an aligned range of free slices. The place is a fit of the current free set if there is one, then
        one of that set with the empty pages' slices added, and only failing both one of grown memory; with
        `top`, the end of memory is tried before the first of these. */
    method AcquireRun(count: nat, align: nat, top: bool) returns (r: Option<Run>, ghost end: nat)
      requires Valid() && initialized && count >= 1 && align >= 1
      modifies this`queues, this`members, this`direct, this`occupied, this`lists, this`owner
      modifies this`retiredMin, this`retiredMax
      modifies mem`links, mem`pages, mem`size, mem`bytes, mem`granted, mem`log, slices, slices.free, slices.zero
      ensures initialized && Kept(live, old(mem.bytes), mem.bytes) && SubPages(old(mem.pages), mem.pages)
      ensures r.None? ==> Valid() && OutOfMemory(count, align, old(mem.log))
      ensures r.Some? ==> Holding(r.value.start, count, r.value.zeroed) && r.value.start % align == 0
      ensures old(mem.log) <= mem.log && old(mem.granted) <= mem.granted
      ensures slices.base == old(slices.base)
      ensures mem.log != old(mem.log) ==>
                NoEmpty(mem.pages) && NoFit(old(slices.freeSet) + EmptySlices(old(mem.pages)), count, align)
      ensures !NoFit(old(slices.freeSet) + EmptySlices(old(mem.pages)), count, align) ==> r.Some?
      ensures !old(NoFit(slices.freeSet, count, align))
              && (!top || NoTailFit(old(slices.freeSet), count, align, Min(end, slices.Limit()))) ==>
                r.Some? && LowestFit(old(slices.freeSet), r.value.start, count, align)
      ensures top && !NoTailFit(old(slices.freeSet), count, align, Min(end, slices.Limit())) ==>
                r.Some? && LowestTailFit(old(slices.freeSet), r.value.start, count, align, Min(end, slices.Limit()))
      ensures top ==> old(mem.size) <= end <= mem.size
      ensures top && !old(NoFit(slices.freeSet, count, align)) ==> end == mem.size
      ensures r.Some? && old(NoFit(slices.freeSet, count, align)) ==>
                LowestFit(WithGain(old(slices.freeSet) + EmptySlices(old(mem.pages)), old(mem.granted), mem.granted,
                                   slices.UsableLimit()), r.value.start, count, align)
      ensures !old(NoFit(slices.freeSet, count, align)) ==>
                mem.granted == old(mem.granted) && Snapshot() == old(Snapshot()).(free := slices.freeSet)
      ensures old(NoFit(slices.freeSet, count, align)) ==>
                Cleaned(old(members), old(mem.pages), members) && retiredMin == QUEUE_COUNT && retiredMax == 0
                && NoEmpty(mem.pages)
      ensures r.Some? && !top ==>
                PlacedFit(r.value.start, count, align, old(slices.freeSet), old(mem.pages), old(mem.granted),
                          mem.granted, slices.UsableLimit())
      ensures Asked(mem.log, |old(mem.log)|, slices.base, slices.UsableLimit(), count, align, policy)
    {
      hide Cleaned, FirstRequest, WithGain, OutOfMemory, EmptySlices, Consistent, QueuesOk, Placed, OccupiedOk,
           DirectOk, RetireBut, Base, Kept, SubPages, NoEmpty, NoFit, LowestFit, LowestTailFit, NoTailFit, Range,
           Served;
      KeptSelf(live, mem.bytes);
      SubSelf(mem.pages);
      end := 0;
      if top {
        r, end := AcquireTop(count, align);
        if r.Some? {
          TailIsFit(old(slices.freeSet), r.value.start, count, align, Min(end, slices.Limit()));
          return;
        }
      }
      ghost var free0, zero0 := slices.freeSet, slices.zeroSet;
      r := AcquireFit(count, align);
      ServedOrNot(r, count, align, free0, zero0, slices.freeSet, slices.zeroSet);
      if r.Some? {
        ServedLowest(r, count, align, free0, zero0, slices.freeSet, slices.zeroSet);
        return;
      }
      ReleaseEmptyPages();
      r := AcquireGrown(count, align);
    }

    /** The lowest aligned place in the free run that reaches the end of memory. */
    method AcquireTop(count: nat, align: nat) returns (r: Option<Run>, ghost last: nat)
      requires Valid() && initialized && count >= 1 && align >= 1
      modifies mem`size, slices, slices.free, slices.zero
      ensures last == mem.size >= old(mem.size) && slices.base == old(slices.base)
      ensures r.None? ==> Valid() && slices.freeSet == old(slices.freeSet)
                          && NoTailFit(old(slices.freeSet), count, align, Min(last, slices.Limit()))
      ensures r.Some? ==> LowestTailFit(old(slices.freeSet), r.value.start, count, align, Min(last, slices.Limit()))
      ensures r.Some? ==> Holding(r.value.start, count, r.value.zeroed) && r.value.start % align == 0
    {
      hide Consistent, QueuesOk, Placed, OccupiedOk, DirectOk, RetireBut, LogOk, Represents, EmptyBelow, Range,
           LowestTailFit, NoTailFit, HeldState, Usable;
      ghost var s := Now();
      var end := mem.SizeSlices();
      r := slices.AllocTail(count, align, end);
      last := end;
      ghost var t := s.(free := slices.freeSet, zero := slices.zeroSet);
      assert Now() == t;
      if r.Some? {
        TailHeld(s, r.value, count, align, Min(end, slices.Limit()), slices.freeSet, slices.zeroSet);
        assert slices.freeSet <= s.free;
      }
    }

    /** The lowest fit in the map as it is. */
    method AcquireFit(count: nat, align: nat) returns (r: Option<Run>)
      requires Valid() && initialized && count >= 1 && align >= 1
      modifies slices, slices.free, slices.zero
      ensures slices.base == old(slices.base)
      ensures Served(r, count, align, old(slices.freeSet), old(slices.zeroSet), slices.freeSet, slices.zeroSet)
      ensures r.None? ==> Valid()
      ensures r.Some? ==> Holding(r.value.start, count, r.value.zeroed) && r.value.start % align == 0
    {
      hide Consistent, QueuesOk, Placed, OccupiedOk, DirectOk, RetireBut, LogOk, Represents, EmptyBelow, Range,
           Served, HeldState, Usable;
      ghost var s := Now();
      r := slices.Alloc(count, align);
      ServedHeld(s, r, count, align, slices.freeSet, slices.zeroSet);
      ServedOrNot(r, count, align, s.free, s.zero, slices.freeSet, slices.zeroSet);
      assert Now() == s.(free := slices.freeSet, zero := slices.zeroSet);
    }

    /** Search again and grow memory, now that no page is empty. */
    method AcquireGrown(count: nat, align: nat) returns (r: Option<Run>)
      requires Valid() && initialized && count >= 1 && align >= 1 && NoEmpty(mem.pages)
      modifies this`owner, mem`size, mem`bytes, mem`granted, mem`log, slices, slices.free, slices.zero
      ensures initialized && Kept(live, old(mem.bytes), mem.bytes) && slices.base == old(slices.base)
      ensures r.None? ==> Valid() && OutOfMemory(count, align, old(mem.log))
      ensures r.Some? ==> Holding(r.value.start, count, r.value.zeroed) && r.value.start % align == 0
      ensures old(mem.log) <= mem.log
      ensures !old(NoFit(slices.freeSet, count, align)) ==> r.Some? && mem.log == old(mem.log)
      ensures old(mem.size) <= mem.size && old(mem.granted) <= mem.granted
      ensures r.Some? ==> LowestFit(WithGain(old(slices.freeSet), old(mem.granted), mem.granted, slices.UsableLimit()),
                                    r.value.start, count, align)
      ensures Asked(mem.log, |old(mem.log)|, slices.base, slices.UsableLimit(), count, align, policy)
    {
      hide Asked, FirstRequest, Consistent, QueuesOk, Placed, OccupiedOk, DirectOk, RetireBut, LogOk, Represents,
           EmptyBelow, Range, Served, HeldState, Usable, Backed, Kept, NoEmpty, Grew, EventsOk, WithGain,
           AddFreeSlices, WithGrant, NoFit, Denied, DeniedSince, LowestFit;
      ghost var s, bytes0, granted0, size0, log0 := Now(), mem.bytes, mem.granted, mem.size, mem.log;
      LimitFits();
      r := Acquire(slices, mem, count, align, policy);
      ghost var limit := slices.UsableLimit();
      GrewUp(bytes0, granted0, size0, mem.bytes, mem.granted, mem.size);
      if r.None? { DeniedOnce(mem.log, |log0|, mem.size, limit, count, align); }
      ghost var gain := Usable(mem.granted - granted0, limit);
      GrantedAbove();
      GrownStep(s, granted0, mem.granted, size0, mem.size, limit, mem.bytes, mem.heapBase);
      LogAcquired(log0, mem.log, limit, mem.pages, count, align, r.Some?);
      owner := AddFreeSlices(owner, gain);
      GrantIs(s, gain, mem.bytes, granted0, mem.granted, limit);
      NoGain(s.free, granted0, limit);
      ServedOrNot(r, count, align, WithGain(s.free, granted0, mem.granted, limit),
                  WithGain(s.zero, granted0, mem.granted, limit), slices.freeSet, slices.zeroSet);
      if r.Some? {
        ServedLowest(r, count, align, WithGain(s.free, granted0, mem.granted, limit),
                     WithGain(s.zero, granted0, mem.granted, limit), slices.freeSet, slices.zeroSet);
      }
      ServedHeld(WithGrant(s, gain, gain, mem.bytes), r, count, align, slices.freeSet, slices.zeroSet);
      assert Now() == WithGrant(s, gain, gain, mem.bytes).(free := slices.freeSet, zero := slices.zeroSet);
      BaseNow();
    }

    lemma LimitFits()
      requires Base() && initialized
      ensures slices.UsableLimit() <= MAX_SLICE_INDEX && Backed(slices, mem) && mem.lowestBase > 0
      ensures owner.Keys == Usable(mem.granted, slices.UsableLimit()) && LogOk(mem.log)
    {
      hide LogOk, Represents, EmptyBelow, Usable;
    }

    lemma GrantedAbove()
      requires Backed(slices, mem)
      ensures mem.lowestBase <= mem.heapBase && forall x :: x in mem.granted ==> CeilDiv(mem.heapBase, SLICE_SIZE) <= x
    {
      hide Represents, EmptyBelow, Usable;
    }

    // -------------------------------------------------------------------------------------------
    // Page supply
    // -------------------------------------------------------------------------------------------

    /** Link more of `page`'s never-used blocks into its free list. */
    method StretchPage(page: int)
      requires Ready(page) && page in mem.pages && IsExpandable(mem.pages[page])
      modifies this`lists, mem`pages, mem`bytes
      ensures Ready(page) && Kept(live, old(mem.bytes), mem.bytes)
      ensures page in lists && lists[page] != []
      ensures mem.pages == old(mem.pages)[page := ExtendedPage(page, old(mem.pages)[page])]
    {
      hide Consistent, QueuesOk, Placed, OccupiedOk, DirectOk, RetireBut, Base, PageOk, Geometry, ListOk, Chain,
           PageZero, Kept, LinksWritten, ExtendedPage, ExtendedList, Stretched;
      ghost var s := Now();
      PagesOkAt(s, page);
      var ok := Extend(mem, page, lists[page]);
      StretchStep(s, page, mem.bytes);
      StretchedIs(s, page, mem.bytes);
      StretchedPages(members, s.pages, mem.links, page);
      lists := lists[page := ExtendedList(page, s.pages[page], lists[page])];
      assert Now() == Stretched(s, page, mem.bytes);
    }

    /** Turn a held run into a page of `bin`, not in any queue yet. */
    method AddPage(start: nat, bin: nat, zeroed: bool) returns (page: int)
      requires 1 <= bin <= MAX_BINNED_BIN && start % PageSlices(KindOfBin(bin)) == 0
      requires Holding(start, PageSlices(KindOfBin(bin)), zeroed)
      modifies this`lists, this`owner, mem`pages, mem`links
      ensures Base() && Consistent(Now()) && QueuesValid(page) && RetireBut(mem.pages, mem.links, page) && initialized
      ensures page !in old(mem.pages) && page > 0 && page in lists && page == start * SLICE_SIZE
      ensures mem.pages == old(mem.pages)[page := FreshPage(KindOfBin(bin), bin, zeroed)]
      ensures mem.links == old(mem.links)[page := Links(0, 0, false, 0)]
    {
      hide Consistent, QueuesOk, Placed, OccupiedOk, DirectOk, RetireBut, LogOk, Represents, EmptyBelow, Range,
           Usable, HeldState, PageAdded, PageRoom, FreshPage, SetOwner, Backed, PageSlices, PageSize, KindOfBin;
      ghost var s, n := Now(), PageSlices(KindOfBin(bin));
      HeldPage(s, start, bin, zeroed);
      page := start * SLICE_SIZE;
      PageAddedStep(HeldState(s, start, n, zeroed), page, bin, zeroed);
      PlacedKeys(members, mem.pages, mem.links, 0);
      HeldPagesAre(s, start, n, zeroed);
      Init(mem, page, KindOfBin(bin), bin, zeroed);
      ArrivedPlaced(members, s.pages, old(mem.links), page, mem.pages, mem.links);
      ArrivedQueues(queues, members, old(mem.links), page, Links(0, 0, false, 0));
      ArrivedRetire(s.pages, old(mem.links), page, FreshPage(KindOfBin(bin), bin, zeroed), Links(0, 0, false, 0));
      lists := lists[page := []];
      owner := SetOwner(owner, start, n, PageSlice(page));
    }

    /** A page of `bin` that did not exist before, first in its queue and with free blocks. The queue must be
        empty at the call: releasing empty pages then cannot drop a page the caller is holding. */
    method FreshPageOf(bin: nat) returns (page: Option<int>)
      requires Valid() && initialized && 1 <= bin <= MAX_BINNED_BIN && |members| == QUEUE_COUNT && members[bin] == []
      modifies this`queues, this`members, this`direct, this`occupied, this`lists, this`owner
      modifies this`retiredMin, this`retiredMax
      modifies mem`links, mem`pages, mem`size, mem`bytes, mem`granted, mem`log, slices, slices.free, slices.zero
      ensures initialized && Kept(live, old(mem.bytes), mem.bytes)
      ensures old(mem.log) <= mem.log
      ensures page.None? ==>
                Valid() && OutOfMemory(PageSlices(KindOfBin(bin)), PageSlices(KindOfBin(bin)), old(mem.log))
      ensures page.Some? ==> ServingPage(page.value, bin)
      ensures page.Some? ==>
                Supplied(bin, page.value, old(Snapshot()), Snapshot(), old(mem.granted), mem.granted,
                         slices.UsableLimit())
      ensures page.None? ==>
                NoFit(old(slices.freeSet) + EmptySlices(old(mem.pages)), PageSlices(KindOfBin(bin)),
                      PageSlices(KindOfBin(bin)))
      ensures Asked(mem.log, |old(mem.log)|, slices.base, slices.UsableLimit(), PageSlices(KindOfBin(bin)),
                    PageSlices(KindOfBin(bin)), policy)
      ensures slices.base == old(slices.base) && old(mem.granted) <= mem.granted
    {
      hide Supplied, Asked, Cleaned, PlacedFit, BlockStart, BinSize, OutOfMemory, ExtendedPage, Ready, Holding, Kept,
           SubPages, NoEmpty, NoFit, LowestFit, FreshPage, PageSlices, PageSize, KindOfBin, QueuesValid, Consistent,
           RetireBut, Base, ServingPage;
      ghost var s0, granted0 := Snapshot(), mem.granted;
      var kind := KindOfBin(bin);
      var run, end := AcquireRun(PageSlices(kind), PageSlices(kind), false);
      if run.None? {
        return None;
      }
      ghost var bytes1, s1 := mem.bytes, Snapshot();
      HeldStart(run.value.start, PageSlices(kind), run.value.zeroed);
      var p := BuildPage(run.value.start, bin, run.value.zeroed);
      SuppliedIs(bin, p, run.value.zeroed, s0, s1, Snapshot(), granted0, mem.granted, slices.UsableLimit());
      KeptTwice(live, old(mem.bytes), bytes1, mem.bytes);
      page := Some(p);
    }

    /** Make a held run a page of `bin` that is first in its queue and has free blocks. */
    method BuildPage(start: nat, bin: nat, zeroed: bool) returns (page: int)
      requires 1 <= bin <= MAX_BINNED_BIN && start % PageSlices(KindOfBin(bin)) == 0
      requires Holding(start, PageSlices(KindOfBin(bin)), zeroed)
      modifies this`queues, this`members, this`direct, this`occupied, this`lists, this`owner
      modifies mem`links, mem`pages, mem`bytes
      ensures ServingPage(page, bin) && Kept(live, old(mem.bytes), mem.bytes) && initialized
      ensures page == start * SLICE_SIZE && page !in old(mem.pages)
      ensures mem.pages == old(mem.pages)[page := ExtendedPage(page, FreshPage(KindOfBin(bin), bin, zeroed))]
      ensures |old(members)| == QUEUE_COUNT && members == old(members)[bin := [page] + old(members)[bin]]
    {
      hide Ready, Holding, Kept, FreshPage, PageSlices, PageSize, KindOfBin, QueuesValid, Consistent, RetireBut, Base,
           ServingPage, ExtendedPage;
      HeldStart(start, PageSlices(KindOfBin(bin)), zeroed);
      page := AddPage(start, bin, zeroed);
      FreshPageFields(KindOfBin(bin), bin, zeroed);
      EnlistPage(page, bin);
    }

    /** File a page that was just added: it becomes the head of its queue, with a non-empty free list. */
    method EnlistPage(page: int, bin: nat)
      requires Base() && Consistent(Now()) && QueuesValid(page) && RetireBut(mem.pages, mem.links, page)
      requires 1 <= bin <= MAX_BINNED_BIN
      requires page > 0 && page in mem.pages && page in mem.links && mem.links[page] == Links(0, 0, false, 0)
      requires mem.pages[page].bin == bin && mem.pages[page].capacity == 0
      modifies this`queues, this`members, this`direct, this`occupied, this`lists, mem`links, mem`pages, mem`bytes
      ensures ServingPage(page, bin) && Kept(live, old(mem.bytes), mem.bytes)
      ensures mem.pages == old(mem.pages)[page := ExtendedPage(page, old(mem.pages)[page])]
      ensures |old(members)| == QUEUE_COUNT && members == old(members)[bin := [page] + old(members)[bin]]
    {
      hide ExtendedPage, Consistent, QueuesOk, Placed, OccupiedOk, DirectOk, RetireBut, Base, Kept, FreshPage,
           SameMarks, MarksBut;
      ExtendedBin(page, mem.pages[page]);
      HomeIsBin(mem.pages, mem.links, page);
      PlacedKeys(members, mem.pages, mem.links, page);
      FreshRoom(Now(), page);
      ghost var links1 := mem.links;
      PushFront(bin, page);
      RetireMarks(mem.pages, links1, mem.links, page);
      MarksAt(links1, mem.links, page);
      StretchPage(page);
    }

    lemma HeldStart(start: int, count: int, zeroed: bool)
      requires Holding(start, count, zeroed)
      ensures start >= 1
    {
      hide Base, QueuesOk, Placed, OccupiedOk, DirectOk, RetireBut, Consistent, HeldState, Range;
    }

    /** A page of `bin`, first in its bin queue and not retired, with a block to hand out. */
    ghost predicate ServingPage(page: int, bin: nat)
      reads this, mem, slices, slices.free, slices.zero
    {
      && Ready(page) && page in mem.pages && page in mem.links && page in lists && lists[page] != []
      && bin < |members| && members[bin] != [] && members[bin][0] == page
      && mem.pages[page].bin == bin && !mem.links[page].inFull && mem.links[page].retireExpire == 0
    }

    /** A page with no room: clear its countdown, which a fast-path drain may have left, and park it in the
        full queue. */
    method ParkPage(qi: nat, page: int, ghost passed: seq<int>, ghost todo: seq<int>)
      requires Valid() && 1 <= qi <= MAX_BIN && |members| == QUEUE_COUNT
      requires members[qi] == passed + todo && todo != [] && todo[0] == page
      requires page in mem.pages && page in mem.links && !HasFree(mem.pages[page]) && !IsExpandable(mem.pages[page])
      modifies this`queues, this`members, this`direct, this`occupied, mem`links
      ensures Valid() && |members| == QUEUE_COUNT && members[qi] == passed + todo[1..]
      ensures members == old(members)[qi := passed + todo[1..]][FULL_QUEUE := old(members)[FULL_QUEUE] + [page]]
      ensures page in mem.links && mem.links[page].inFull && mem.links[page].retireExpire == 0
      ensures MarksBut(old(mem.links), mem.links, page) && mem.links.Keys == old(mem.links).Keys
    {
      hide Consistent, QueuesOk, Placed, OccupiedOk, DirectOk, RetireBut, Base, SameMarks, MarksBut, Marked, Without,
           PageOk, Head, HasFree, IsExpandable;
      ghost var links0 := mem.links;
      WalkAt(queues, members, mem.pages, mem.links, qi, passed, todo);
      RoomlessPage(Now(), page);
      RetireWeaken(mem.pages, mem.links, page);
      Mark(page, false, 0, 0);
      RetireMarkedBut(mem.pages, links0, mem.links, page);
      ghost var members1, links1 := members, mem.links;
      ghost var at := Remove(qi, page);
      WalkDropped(members1[qi], passed, todo, at);
      RetireMarks(mem.pages, links1, mem.links, page);
      MarksAt(links1, mem.links, page);
      ghost var links2 := mem.links;
      Mark(page, true, mem.links[page].retireExpire, page);
      RetireMarkedBut(mem.pages, links2, mem.links, page);
      ghost var links3 := mem.links;
      FullHome(mem.pages, mem.links, page);
      PushBack(FULL_QUEUE, page);
      RetireMarks(mem.pages, links3, mem.links, page);
      MarksAt(links3, mem.links, page);
      RetireDone(mem.pages, mem.links, page);
      ParkMarks(links0, links1, links2, links3, mem.links, page);
    }

    /** The page a search stands at. */
    lemma FindAt(qi: nat, passed: seq<int>, todo: seq<int>)
      requires Valid() && 1 <= qi <= MAX_BIN && |members| == QUEUE_COUNT && members[qi] == passed + todo && todo != []
      ensures var p := todo[0];
              && p in mem.pages && p in mem.links && p != 0 && p in members[qi] && !mem.links[p].inFull
              && mem.links[p].next == Head(todo[1..]) && (Head(todo[1..]) == 0 <==> todo[1..] == [])
              && mem.pages[p].capacity >= 1 && mem.pages[p].bin == qi
              && (!HasFree(mem.pages[p]) ==> mem.pages[p].used == mem.pages[p].capacity)
    {
      hide Consistent, QueuesOk, Placed, OccupiedOk, DirectOk, RetireBut, Base, NoDup, HasFree;
      WalkAt(queues, members, mem.pages, mem.links, qi, passed, todo);
      StateAt(mem.pages, mem.links, 0, todo[0]);
      CountsAt(Now(), todo[0]);
    }

    /** A page of the queue with room can be the candidate. */
    lemma RoomServes(qi: nat, p: int)
      requires Valid() && 1 <= qi <= MAX_BIN && |members| == QUEUE_COUNT && p in members[qi]
      requires p in Roomy(mem.pages)
      ensures CandidateOk(p, members[qi], mem.pages)
    {
      hide Valid, HasFree, IsExpandable;
      var j :| 0 <= j < |members[qi]| && members[qi][j] == p;
      assert members[qi] == members[qi][..j] + members[qi][j..];
      FindAt(qi, members[qi][..j], members[qi][j..]);
    }

    /** Where a search starts. */
    lemma FindStart(qi: nat)
      requires Valid() && qi < FULL_QUEUE
      ensures |queues| == QUEUE_COUNT && |members| == QUEUE_COUNT && queues[qi].first == Head(members[qi][0..])
      ensures Head(members[qi][0..]) == 0 <==> members[qi][0..] == []
      ensures Searching(qi, 0, Snapshot())
    {
      hide Consistent, QueuesOk, Placed, OccupiedOk, DirectOk, RetireBut, Base, Parking, ParkedMarks;
      HeadFirst(queues, members, mem.links, qi);
      ParkingStart(members, qi, mem.pages, mem.links);
      assert members[qi][0..] == members[qi];
    }

    /** The search of queue `qi` has looked at its first `i` pages since `s0`, and did not stop at one of them. */
    ghost predicate Searching(qi: nat, i: nat, s0: Snap)
      reads this`members, this`retiredMin, this`retiredMax, mem`pages, mem`links, slices`freeSet
    {
      && |s0.members| == QUEUE_COUNT && qi < FULL_QUEUE && i <= |s0.members[qi]|
      && Snapshot() == s0.(members := Parking(s0.members, qi, i, s0.pages), links := mem.links)
      && ParkedMarks(s0.links, mem.links, Those(s0.members[qi][..i], Filled(s0.pages)))
      && forall j :: 0 <= j < i ==> !Stops(s0.members[qi], s0.pages, j)
    }

    /** What a search knows about the page it stands at. */
    lemma SearchAt(qi: nat, i: nat, s0: Snap)
      requires Valid() && 1 <= qi <= MAX_BIN && Searching(qi, i, s0) && i < |s0.members[qi]|
      ensures var m, p := s0.members[qi], s0.members[qi][i];
              && p in mem.pages && p in mem.links && p != 0 && !mem.links[p].inFull && mem.pages == s0.pages
              && |members| == QUEUE_COUNT && members[qi] == Those(m[..i], Roomy(s0.pages)) + m[i..]
              && m[i..] != [] && m[i..][0] == p && m[i..][1..] == m[i + 1..]
              && mem.links[p].next == Head(m[i + 1..]) && (Head(m[i + 1..]) == 0 <==> m[i + 1..] == [])
              && (p in Roomy(s0.pages) <==> !Roomless(mem.pages[p]))
    {
      hide Valid, ParkedMarks, Those, HasFree, IsExpandable;
      var m := s0.members[qi];
      assert members[qi] == Those(m[..i], Roomy(s0.pages)) + m[i..];
      FindAt(qi, Those(m[..i], Roomy(s0.pages)), m[i..]);
    }

    /** The page at `i` has room: the search goes on, or stops here. */
    lemma SearchPasses(qi: nat, i: nat, s0: Snap)
      requires Searching(qi, i, s0) && i < |s0.members[qi]| && s0.members[qi][i] in Roomy(s0.pages)
      requires s0.members[qi][i] in mem.links
      ensures Stops(s0.members[qi], s0.pages, i) ==> Walked(qi, s0, Snapshot(), i + 1)
      ensures !Stops(s0.members[qi], s0.pages, i) ==> Searching(qi, i + 1, s0)
    {
      hide Parking, ParkedMarks, Those, Stops;
      ParkingStep(s0.members, qi, i, s0.pages);
      MarksStep(s0.links, mem.links, mem.links, s0.members[qi], i, s0.pages);
    }

    /** The page at `i` has no room: it goes to the full queue. */
    method SearchParks(qi: nat, ghost i: nat, page: int, ghost s0: Snap)
      requires Valid() && 1 <= qi <= MAX_BIN && Searching(qi, i, s0) && i < |s0.members[qi]|
      requires page == s0.members[qi][i] && page in mem.pages && Roomless(mem.pages[page])
      modifies this`queues, this`members, this`direct, this`occupied, mem`links
      ensures Valid() && Searching(qi, i + 1, s0)
    {
      hide Valid, Ready, Parking, ParkedMarks, Those, MarksBut;
      ghost var m := s0.members[qi];
      ParkingStep(s0.members, qi, i, s0.pages);
      SearchAt(qi, i, s0);
      ghost var links1 := mem.links;
      ParkPage(qi, page, Those(m[..i], Roomy(s0.pages)), m[i..]);
      MarksStep(s0.links, links1, mem.links, m, i, s0.pages);
    }

    /** The walk of a search: pages without room leave for the full queue, and the candidate is `Picked` from those
        seen with room. */
    method SearchQueue(bin: nat) returns (candidate: int, ghost seen: nat)
      requires Valid() && 1 <= bin <= MAX_BIN
      modifies this`queues, this`members, this`direct, this`occupied, mem`links
      ensures Valid() && Walked(bin, old(Snapshot()), Snapshot(), seen)
      ensures |old(members)| == QUEUE_COUNT == |members|
      ensures candidate == 0 <==> !SomeRoom(old(members)[bin], old(mem.pages))
      ensures candidate != 0 ==>
                Picked(old(members)[bin], old(mem.pages), seen, candidate)
                && CandidateOk(candidate, members[bin], mem.pages)
      ensures candidate == 0 ==> members[bin] == []
    {
      hide Ready, Valid, HasFree, IsExpandable, Roomless, SomeRoom, Parking, ParkedMarks, Those, Searching, Walked,
           Stops, Picks, Roomy, Filled, MostlyUsed, CandidateOk, Picked;
      FindStart(bin);
      ghost var s0, m, i, f, k := Snapshot(), members[bin], 0, 0, 0;
      candidate := 0;
      var limit := MAX_CANDIDATES;
      var cur := queues[bin].first;
      while cur != 0
        invariant Valid() && Searching(bin, i, s0) && i <= |m| && mem.pages == s0.pages
        invariant cur == Head(m[i..]) && (cur == 0 <==> m[i..] == [])
        invariant candidate == 0 ==> forall j :: 0 <= j < i ==> m[j] !in Roomy(s0.pages)
        invariant candidate != 0 ==>
                    Picks(m, s0.pages, i, f, k) && k < i && candidate == m[k] && limit == MAX_CANDIDATES - (i - f)
        decreases |m| - i
      {
        var p := cur;
        WalkHead(m, i);
        SearchAt(bin, i, s0);
        var next := mem.links[p].next;
        var available := HasFree(mem.pages[p]);
        var expandable := IsExpandable(mem.pages[p]);
        RoomIs(mem.pages[p]);
        if candidate != 0 { PickNext(m, s0.pages, i, f, k); }
        if !available && !expandable {
          SearchParks(bin, i, p, s0);
        } else {
          SearchPasses(bin, i, s0);
          if candidate == 0 {
            PickFirst(m, s0.pages, i);
            candidate := p;
            limit := MAX_CANDIDATES;
            f, k := i, i;
          } else {
            CandidateFull(bin, i, f, k, s0);
            // Both branches below rely on the candidate having every linked block out: it is not empty.
            assert mem.pages[candidate].used == mem.pages[candidate].capacity >= 1;
            if mem.pages[p].used >= mem.pages[candidate].used && !MostlyUsed(mem.pages[p]) {
              candidate := p;
              k := i;
            }
          }
          if available || limit <= 0 {
            seen := i + 1;
            PickedServes(bin, s0, seen, f, k);
            return;
          }
        }
        limit := limit - 1;
        cur := next;
        i := i + 1;
      }
      seen := i;
      SearchEnd(bin, s0, i);
      if candidate != 0 {
        PickedServes(bin, s0, seen, f, k);
      } else {
        NoneWithRoom(bin, s0);
      }
    }

    /** The candidate a search already has was not available: all its linked blocks are out. */
    lemma CandidateFull(qi: nat, i: nat, f: nat, k: nat, s0: Snap)
      requires Valid() && 1 <= qi <= MAX_BIN && Searching(qi, i, s0) && Picks(s0.members[qi], s0.pages, i, f, k)
      ensures mem.pages == s0.pages && s0.members[qi][k] in mem.pages
      ensures var h := mem.pages[s0.members[qi][k]]; h.used == h.capacity >= 1
    {
      hide Valid, ParkedMarks, Those, MostlyUsed;
      var m := s0.members[qi];
      assert !Stops(m, s0.pages, k);
      assert m[..i][k] == m[k];
      ThoseHas(m[..i], Roomy(s0.pages), k);
      assert m[k] in Those(m[..i], Roomy(s0.pages)) + m[i..];
      RoomServes(qi, m[k]);
    }

    /** A search that ran to the end of its queue. */
    lemma SearchEnd(qi: nat, s0: Snap, i: nat)
      requires Searching(qi, i, s0) && s0.members[qi][i..] == []
      ensures Walked(qi, s0, Snapshot(), i)
    {
      hide Parking, ParkedMarks, Those, Stops;
    }

    lemma PickedServes(qi: nat, s0: Snap, seen: nat, f: nat, k: nat)
      requires Valid() && 1 <= qi <= MAX_BIN && Walked(qi, s0, Snapshot(), seen)
      requires Picks(s0.members[qi], s0.pages, seen, f, k)
      ensures var m := s0.members[qi];
              && Picked(m, s0.pages, seen, m[k]) && m[k] != 0 && CandidateOk(m[k], members[qi], mem.pages)
              && SomeRoom(m, s0.pages) && |members| == QUEUE_COUNT
    {
      hide Valid, ParkedMarks, Those, Stops, MostlyUsed, HasFree, IsExpandable;
      var m := s0.members[qi];
      assert m[..seen][k] == m[k];
      ThoseHas(m[..seen], Roomy(s0.pages), k);
      assert m[k] in Those(m[..seen], Roomy(s0.pages)) + m[seen..];
      RoomServes(qi, m[k]);
    }

    lemma NoneWithRoom(qi: nat, s0: Snap)
      requires qi < |s0.members| && Walked(qi, s0, Snapshot(), |s0.members[qi]|)
      requires forall j :: 0 <= j < |s0.members[qi]| ==> s0.members[qi][j] !in Roomy(s0.pages)
      ensures !SomeRoom(s0.members[qi], s0.pages) && |members| == QUEUE_COUNT && members[qi] == []
    {
      hide ParkedMarks, Those, Stops, HasFree, IsExpandable;
      var m := s0.members[qi];
      assert m[..|m|] == m;
      ThoseEmpty(m, Roomy(s0.pages));
      assert Those(m[..|m|], Roomy(s0.pages)) + m[|m|..] == [];
    }

    /** A page of `bin` that has a free block and is first in its queue, or nothing when memory gave out. If a page
        of the queue had room at the call, the answer is the one `Picked` of them and memory is not asked; if
        not, a collection round ran and the answer is new. */
    method FindPage(bin: nat) returns (page: Option<int>, ghost parked: Snap, ghost last: Snap, ghost seen: nat)
      requires Valid() && initialized && 1 <= bin <= MAX_BINNED_BIN
      modifies this`queues, this`members, this`direct, this`occupied, this`lists, this`owner
      modifies this`retiredMin, this`retiredMax
      modifies mem`links, mem`pages, mem`size, mem`bytes, mem`granted, mem`log, slices, slices.free, slices.zero
      ensures initialized && Kept(live, old(mem.bytes), mem.bytes)
      ensures old(mem.log) <= mem.log && slices.base == old(slices.base) && old(mem.granted) <= mem.granted
      ensures page.None? ==>
                Valid() && OutOfMemory(PageSlices(KindOfBin(bin)), PageSlices(KindOfBin(bin)), old(mem.log))
      ensures page.Some? ==> ServingPage(page.value, bin)
      ensures |old(members)| == QUEUE_COUNT && Walked(bin, old(Snapshot()), parked, seen)
      ensures SomeRoom(old(members)[bin], old(mem.pages)) ==>
                page.Some? && mem.log == old(mem.log) && mem.granted == old(mem.granted)
                && page.value in old(members)[bin] && Picked(old(members)[bin], old(mem.pages), seen, page.value)
                && last == parked && FoundRoom(bin, page.value, parked, Snapshot())
      ensures !SomeRoom(old(members)[bin], old(mem.pages)) ==>
                && Round(parked, last)
                && match page
                   case Some(p) =>
                     Supplied(bin, p, last, Snapshot(), old(mem.granted), mem.granted, slices.UsableLimit())
                   case None =>
                     NoFit(last.free + EmptySlices(last.pages), PageSlices(KindOfBin(bin)), PageSlices(KindOfBin(bin)))
      ensures Asked(mem.log, |old(mem.log)|, slices.base, slices.UsableLimit(), PageSlices(KindOfBin(bin)),
                    PageSlices(KindOfBin(bin)), policy)
    {
      hide OutOfMemory, Ready, Valid, Kept, ServingPage, SomeRoom, Walked, Picked, FoundRoom, Round, Supplied, NoFit,
           EmptySlices, FirstRequest, WindowAged, SubPages, CandidateOk, Collected, PageSlices, KindOfBin;
      KeptSelf(live, mem.bytes);
      ghost var s0 := Snapshot();
      var candidate: int;
      candidate, seen := SearchQueue(bin);
      parked, last := Snapshot(), Snapshot();
      if candidate == 0 {
        CollectRetired();
        last := Snapshot();
        RoundEmpty(parked, last, bin);
        page := FreshPageOf(bin);
        return;
      }
      PickedIn(s0.members[bin], s0.pages, seen, candidate);
      ServeCandidate(bin, candidate);
      page := Some(candidate);
    }

    /** Extend the candidate if its list is empty and put it first in its queue, not retired. */
    method ServeCandidate(qi: nat, candidate: int)
      requires Valid() && 1 <= qi <= MAX_BIN && |members| == QUEUE_COUNT
      requires CandidateOk(candidate, members[qi], mem.pages)
      modifies this`queues, this`members, this`direct, this`occupied, this`lists, mem`links, mem`pages, mem`bytes
      ensures ServingPage(candidate, qi) && Kept(live, old(mem.bytes), mem.bytes)
      ensures FoundRoom(qi, candidate, old(Snapshot()), Snapshot())
    {
      hide FoundRoom, Consistent, QueuesOk, Placed, OccupiedOk, DirectOk, RetireBut, Base, SameMarks, MarksBut,
           Marked, Without, PageOk, ExtendedPage, Kept, HasFree;
      ghost var s0 := Snapshot();
      KeptSelf(live, mem.bytes);
      MemberHome(members, mem.pages, mem.links, 0, qi, candidate);
      CountsAt(Now(), candidate);
      RetireWeaken(mem.pages, mem.links, candidate);
      if !HasFree(mem.pages[candidate]) {
        ExtendedBin(candidate, mem.pages[candidate]);
        StretchPage(candidate);
      }
      PutFirst(qi, candidate);
      FoundRoomIs(qi, candidate, s0, Snapshot());
    }

    /** Make a page with free blocks the head of its queue, with no countdown. */
    method PutFirst(qi: nat, candidate: int)
      requires Ready(candidate) && 1 <= qi <= MAX_BIN && |members| == QUEUE_COUNT
      requires candidate in members[qi] && candidate in mem.pages && candidate in mem.links
      requires candidate in lists && lists[candidate] != []
      requires mem.pages[candidate].bin == qi && !mem.links[candidate].inFull
      modifies this`queues, this`members, this`direct, this`occupied, mem`links
      ensures ServingPage(candidate, qi)
      ensures members == old(members)[qi := [candidate] + Erase(old(members)[qi], candidate)]
      ensures MarksBut(old(mem.links), mem.links, candidate)
      ensures mem.links[candidate].inFull == old(mem.links)[candidate].inFull
    {
      hide Erase, Linked, Consistent, QueuesOk, Placed, OccupiedOk, DirectOk, RetireBut, Base, SameMarks, MarksBut,
           Marked, Without;
      ghost var links0, members0 := mem.links, members;
      QueueNoDup(queues, members, mem.links, qi);
      ghost var at := MoveToFront(qi, candidate);
      EraseIs(members0[qi], at, candidate);
      RetireMarks(mem.pages, links0, mem.links, candidate);
      MarksAt(links0, mem.links, candidate);
      ghost var links1 := mem.links;
      Mark(candidate, false, 0, 0);
      RetireMarkedBut(mem.pages, links1, mem.links, candidate);
      FrontMarks(links0, links1, mem.links, candidate);
    }

    // -------------------------------------------------------------------------------------------
    // Writing to live blocks
    // -------------------------------------------------------------------------------------------

    /** Writes inside a live block keep the invariant and every other block's contents. */
    lemma WriteKeeps(a: int, bytes: map<int, Byte>)
      requires Valid() && a in live && live[a].align >= 1 && OnlyIn(mem.bytes, bytes, a, a + Extent(Now(), a))
      ensures Consistent(Now().(bytes := bytes)) && Kept(live - {a}, mem.bytes, bytes)
    {
      hide QueuesOk, Placed, OccupiedOk, DirectOk, RetireBut, Base, Consistent, Kept, Extent;
      WriteInside(Now(), a, bytes);
      KeptOthers(Now(), a, bytes);
    }

    lemma LiveExtent(a: int)
      requires Valid() && a in live
      ensures LayoutOk(live[a]) && live[a].align >= 1 && 1 <= live[a].size <= Extent(Now(), a) && initialized
      ensures !IsRun(live[a]) ==> Extent(Now(), a) >= LINK
    {
      hide QueuesOk, Placed, OccupiedOk, DirectOk, RetireBut, Consistent, Extent, LogOk, Represents, EmptyBelow,
           Usable, HomeOwner, Backed, LayoutOk;
      ExtentCovers(Now(), a);
      LayoutOkAlign(live[a]);
      LiveBytesOwned(Now(), a, a);
    }

    /** The caller writes anything anywhere inside a block it holds. */
    method Write(a: int, offset: nat, value: seq<Byte>)
      requires Valid() && a in live && offset + |value| <= live[a].size
      modifies mem`bytes
      ensures Valid() && Kept(live - {a}, old(mem.bytes), mem.bytes)
      ensures mem.bytes == Overwritten(old(mem.bytes), a + offset, value)
    {
      hide QueuesOk, Placed, OccupiedOk, DirectOk, RetireBut, Base, Consistent, Kept, Extent, At, LayoutOk;
      LiveExtent(a);
      WriteKeeps(a, Overwritten(mem.bytes, a + offset, value));
      mem.bytes := Overwritten(mem.bytes, a + offset, value);
    }

    /** `size` zero bytes at a live block. */
    method ZeroBlock(a: int, size: nat)
      requires Valid() && a in live && size == live[a].size
      modifies mem`bytes
      ensures Valid() && Kept(live - {a}, old(mem.bytes), mem.bytes) && ZeroAt(mem.bytes, a, size)
    {
      hide QueuesOk, Placed, OccupiedOk, DirectOk, RetireBut, Base, Consistent, Kept, Extent, At, LayoutOk;
      LiveExtent(a);
      WriteKeeps(a, Zeroed(mem.bytes, a, size));
      mem.bytes := Zeroed(mem.bytes, a, size);
    }

    /** Make the `size` bytes of a block taken from `page` zero, writing no more than the link word where the
        page's zero flag already vouches for the rest. */
    method ClearTaken(page: int, a: int, size: nat)
      requires Valid() && a in live && size == live[a].size && !IsRun(live[a]) && page in mem.pages
      requires mem.pages[page].freeIsZero ==> ZeroAt(mem.bytes, a + LINK, size - LINK)
      modifies mem`bytes
      ensures Valid() && Kept(live - {a}, old(mem.bytes), mem.bytes) && ZeroAt(mem.bytes, a, size)
    {
      hide QueuesOk, Placed, OccupiedOk, DirectOk, RetireBut, Base, Consistent, Kept, Extent, At, LayoutOk, WriteWord,
           IsRun;
      LiveExtent(a);
      if mem.pages[page].freeIsZero {
        WriteKeeps(a, WriteWord(mem.bytes, a, 0));
        mem.bytes := WriteWord(mem.bytes, a, 0);
      } else {
        ZeroBlock(a, size);
      }
    }

    /** The first free block of a page whose free blocks are known zero. */
    lemma HeadIsZero(page: int, l: Layout)
      requires LayoutOk(l) && Classify(l).Bin? && Takeable(page, Classify(l).bin) && ListOf(page) != []
      ensures page in mem.pages
      ensures mem.pages[page].freeIsZero ==> ZeroAt(mem.bytes, ListOf(page)[0] + LINK, l.size - LINK)
    {
      hide QueuesOk, Placed, OccupiedOk, DirectOk, RetireBut, Base, Consistent, PageOk, Chain, At, Geometry, ListOk;
      PagesOkAt(Now(), page);
      CountsAt(Now(), page);
      ClassifyAligns(l);
      hide BinSize, Classify, LayoutOk;
    }

    // -------------------------------------------------------------------------------------------
    // Operations
    // -------------------------------------------------------------------------------------------

    /** Serve a run-sized Layout with slices of its own, placed by `LowestPlaced` or, with `top`, `TopPlaced`. */
    method AllocHuge(l: Layout, zero: bool, top: bool) returns (block: Option<int>, ghost end: nat)
      requires Valid() && initialized && LayoutOk(l) && IsRun(l)
      modifies this, mem, slices, slices.free, slices.zero
      ensures Valid() && Kept(old(live), old(mem.bytes), mem.bytes)
      ensures old(mem.log) <= mem.log && (block.None? ==> Exhausted(l, old(mem.log)))
      ensures Allocated(old(live), live, l, block)
      ensures zero && block.Some? ==> ZeroAt(mem.bytes, block.value, l.size)
      ensures var n, k := HugeSlices(l), CeilDiv(l.align, SLICE_SIZE);
              && k >= 1 && (block.None? ==> OutOfMemory(n, k, old(mem.log)))
              && (!top ==> LowestPlaced(block, old(slices.freeSet), n, k))
              && (top ==> TopPlaced(block, old(slices.freeSet), n, k, Min(end, slices.Limit())))
              && (block.Some? && old(NoFit(slices.freeSet, n, k)) ==>
                    LowestFit(WithGain(old(slices.freeSet) + EmptySlices(old(mem.pages)), old(mem.granted), mem.granted,
                                       slices.UsableLimit()), block.value / SLICE_SIZE, n, k))
              && (!old(NoFit(slices.freeSet, n, k)) ==> mem.granted == old(mem.granted) && (top ==> end == mem.size))
              && (!top ==> RunServed(n, k, block, old(Snapshot()), old(mem.granted), Snapshot(), mem.granted,
                                     slices.UsableLimit()))
              && Asked(mem.log, |old(mem.log)|, slices.base, slices.UsableLimit(), n, k, policy)
      ensures top ==> old(mem.size) <= end <= mem.size
      ensures slices.base == old(slices.base) && old(mem.granted) <= mem.granted && initialized == old(initialized)
      ensures policy == old(policy) && genericCount == old(genericCount) && mem.heapBase == old(mem.heapBase)
    {
      hide Asked, PlacedFit, Cleaned, WithGain, OutOfMemory, EmptySlices, Valid, Ready, Holding, Kept, SubPages,
           NoEmpty, NoFit, LowestFit, LayoutOk, ZeroAt, Classify;
      LayoutOkAlign(l);
      var count := HugeSlices(l);
      var align := CeilDiv(l.align, SLICE_SIZE);
      ghost var live0, bytes0 := live, mem.bytes;
      var run: Option<Run>;
      run, end := AcquireRun(count, align, top);
      if run.None? {
        block := None;
        return;
      }
      HeldStart(run.value.start, count, run.value.zeroed);
      ghost var bytes1 := mem.bytes;
      var addr := AddRun(run.value.start, l, run.value.zeroed);
      if zero && !run.value.zeroed {
        ZeroBlock(addr, l.size);
        KeptFewer(live - {addr}, live0, bytes1, mem.bytes);
      } else {
        KeptSelf(live0, mem.bytes);
        if zero { ZeroFront(mem.bytes, addr, count * SLICE_SIZE, l.size); }
      }
      KeptTwice(live0, bytes0, bytes1, mem.bytes);
      block := Some(addr);
    }

    /** Hand out a held run. */
    method AddRun(start: nat, l: Layout, zeroed: bool) returns (a: int)
      requires Holding(start, HugeSlices(l), zeroed) && LayoutOk(l) && IsRun(l)
      requires start % CeilDiv(l.align, SLICE_SIZE) == 0
      modifies this`live, this`owner
      ensures Valid() && a == start * SLICE_SIZE && a > 0 && a !in old(live) && live == old(live)[a := l]
      ensures zeroed ==> ZeroAt(mem.bytes, a, HugeSlices(l) * SLICE_SIZE)
    {
      hide QueuesOk, Placed, OccupiedOk, DirectOk, RetireBut, Consistent, LayoutOk, IsRun, HeldState, Range, RunAdded,
           RunRoom, Backed, LogOk, SetOwner, HugeSlices, Usable;
      ghost var s, n := Now(), HugeSlices(l);
      HeldRun(s, start, l, zeroed);
      HeldPagesAre(s, start, n, zeroed);
      a := start * SLICE_SIZE;
      RunAddedStep(HeldState(s, start, n, zeroed), a, l);
      live := live[a := l];
      owner := SetOwner(owner, start, n, RunSlice(a));
      assert Now() == RunAdded(HeldState(s, start, n, zeroed), a, l);
    }

    /** The queue head that serves `l` has a block ready. */
    ghost predicate HeadReady(l: Layout)
      reads this`members, this`lists
    {
      && l.align >= 1 && Classify(l).Bin? && Classify(l).bin < |members| && members[Classify(l).bin] != []
      && ListOf(members[Classify(l).bin][0]) != []
    }

    /** That block. */
    ghost function HeadBlock(l: Layout): int
      requires HeadReady(l)
      reads this`members, this`lists
    {
      lists[members[Classify(l).bin][0]][0]
    }

    /** For a Layout inside the table's range, the slot read holds the head of the queue of that Layout's bin. */
    lemma DirectHead(l: Layout)
      requires Valid() && LayoutOk(l) && DirectSize(l) <= DIRECT_MAX_SIZE
      ensures DirectIndex(DirectSize(l)) < |direct| && Classify(l).Bin? && Classify(l).bin < |members|
      ensures var page := direct[DirectIndex(DirectSize(l))];
              && page == Head(members[Classify(l).bin]) && Takeable(page, Classify(l).bin)
              && (members[Classify(l).bin] != [] ==> page != 0)
    {
      hide QueuesOk, Placed, OccupiedOk, RetireBut, Base, Consistent, BinOf, DirectSize, LayoutOk;
      LayoutOkAlign(l);
      DirectAgrees(l);
      var b := Classify(l).bin;
      assert DirectAt(direct, queues, DirectIndex(DirectSize(l)));
      QueueHead(b);
    }

    /** The first page of a bin queue can be popped for its bin. */
    lemma QueueHead(bin: nat)
      requires Valid() && bin < FULL_QUEUE
      ensures |queues| == QUEUE_COUNT && |members| == QUEUE_COUNT && queues[bin].first == Head(members[bin])
      ensures Takeable(Head(members[bin]), bin)
      ensures members[bin] != [] ==> Head(members[bin]) != 0 && Head(members[bin]) in mem.pages
                                     && (HasFree(mem.pages[Head(members[bin])]) <==> ListOf(Head(members[bin])) != [])
    {
      hide QueuesOk, Placed, OccupiedOk, RetireBut, Base, Consistent, DirectOk, HasFree;
      HeadFirst(queues, members, mem.links, bin);
      var page := Head(members[bin]);
      if members[bin] != [] {
        assert page in members[bin];
        MemberHome(members, mem.pages, mem.links, 0, bin, page);
        StateAt(mem.pages, mem.links, 0, page);
        CountsAt(Now(), page);
        RetireWeaken(mem.pages, mem.links, page);
      }
    }

    /** Pop `page` for `l` and, for a zero-filled request, clear the block. */
    method TakeCleared(page: int, l: Layout, zero: bool) returns (block: int)
      requires LayoutOk(l) && Classify(l).Bin? && Takeable(page, Classify(l).bin)
      modifies this`lists, this`live, mem`pages, mem`bytes
      ensures block == old(Head(ListOf(page))) && (block == 0 <==> old(ListOf(page)) == [])
      ensures block == 0 ==>
                live == old(live) && mem.pages == old(mem.pages) && lists == old(lists) && mem.bytes == old(mem.bytes)
                             && (old(Valid()) ==> Valid())
      ensures block != 0 ==> Valid() && block !in old(live) && live == old(live)[block := l]
                             && Kept(old(live), old(mem.bytes), mem.bytes)
      ensures block != 0 && zero ==> ZeroAt(mem.bytes, block, l.size)
      ensures !zero ==> mem.bytes == old(mem.bytes)
      ensures block != 0 ==> HandsOut(old(Snapshot()), Snapshot(), page, block)
                             && HeaderOf(KindOfBin(Classify(l).bin), block) == page
    {
      hide HandsOut, HeaderOf, KindOfBin, Valid, Ready, Takeable, Kept, LayoutOk, Classify, ZeroAt, ListOf, Popped;
      ghost var live0, bytes0, pages0, l0 := live, mem.bytes, mem.pages, ListOf(page);
      if l0 != [] { HeadIsZero(page, l); }
      KeptSelf(live, mem.bytes);
      block := Take(page, l);
      if block != 0 && zero {
        PoppedZero(pages0, page, Head(l0[1..]));
        LayoutOkAlign(l);
        BinIsNoRun(l);
        ClearTaken(page, block, l.size);
        KeptFewer(live - {block}, live0, bytes0, mem.bytes);
      }
    }

    /** Where the block of an allocation comes from, by the state before it: `s` and `h`, with `ready` for a free block
        in the first page of the queue. That page serves a request it can and nothing else changes; any other is a
        miss, or a run. */
    ghost predicate CameFrom(l: Layout, block: Option<int>, ready: bool, s: Snap, h: Before, t: Trail)
      requires l.align >= 1
      reads this, slices, mem`pages, mem`links, mem`log, mem`granted, mem`heapBase
    {
      var now, limit := mem.granted, slices.UsableLimit();
      match Classify(l)
      case Bin(b) =>
        var n := PageSlices(KindOfBin(b));
        if ready then
          && HeadServes(b, block, s, Snapshot()) && mem.log == h.log && now == h.granted && genericCount == h.misses
        else
          && MissServed(b, block, s, h.live, h.misses, t, now, limit, Snapshot())
          && TakesGap(h.live, s.free, h.granted, t, mem.heapBase, limit)
          && (SomeRoom(t.start.members[b], t.start.pages) ==> mem.log == h.log)
          && Asked(mem.log, |h.log|, slices.base, limit, n, n, policy)
          && genericCount == if h.misses + 1 >= 1000 then 0 else h.misses + 1
      case Huge =>
        var n, k := HugeSlices(l), CeilDiv(l.align, SLICE_SIZE);
        && k >= 1 && t.start == s.(free := t.gap) && RunServed(n, k, block, t.start, t.granted, Snapshot(), now, limit)
        && TakesGap(h.live, s.free, h.granted, t, mem.heapBase, limit)
        && Asked(mem.log, |h.log|, slices.base, limit, n, k, policy) && genericCount == h.misses
    }

    ghost function Counts(): Before
      reads this`initialized, this`genericCount, mem`log, mem`granted
    {
      Before(initialized, genericCount, mem.log, mem.granted)
    }

    /** Lasting room serves a request, whatever its road. */
    lemma RoomServed(l: Layout, block: Option<int>, ready: bool, s: Snap, h: Before, t: Trail)
      requires RoomFor(l, s, h.misses) && CameFrom(l, block, ready, s, h, t)
      requires |s.members| == QUEUE_COUNT && (!h.live ==> s.pages == map[])
      ensures mem.log == h.log && mem.granted == h.granted && FromQueue(l, block, s.members)
    {
      hide MissServed, HandsOut, KindOfBin, HeaderOf, Classify, PageSlices, Asked, Roomless, SomeRoom;
      if !ready {
        RoomLasts(Classify(l).bin, block, s, h.live, h.misses, t, mem.granted, slices.UsableLimit(), Snapshot());
      }
    }

    lemma BeforeFirst()
      requires Valid()
      ensures |members| == QUEUE_COUNT && (!initialized ==> mem.pages == map[])
    {
      hide Placed, OccupiedOk, DirectOk, RetireBut, Consistent, LogOk, Represents, EmptyBelow;
      if !initialized { NoOwnerNoPage(Now()); }
    }

    lemma BinExhausted(l: Layout, log: seq<GrowEvent>)
      requires l.align >= 1 && Classify(l).Bin?
      requires var n := PageSlices(KindOfBin(Classify(l).bin)); OutOfMemory(n, n, log)
      ensures Exhausted(l, log)
    {
      hide OutOfMemory, Classify, PageSlices, KindOfBin;
    }

    /** The slow road for a block of a page. */
    method AllocBinned(l: Layout, bin: nat, zero: bool) returns (block: Option<int>, ghost trail: Trail)
      requires Valid() && LayoutOk(l) && l.align >= 1 && Classify(l) == Bin(bin)
      requires DirectSize(l) <= DIRECT_MAX_SIZE ==> !HeadReady(l)
      modifies this, mem, slices, slices.free, slices.zero
      ensures Valid() && Kept(old(live), old(mem.bytes), mem.bytes)
      ensures old(mem.log) <= mem.log && (block.None? ==> Exhausted(l, old(mem.log)))
      ensures Allocated(old(live), live, l, block) && l.align >= 1
      ensures zero && block.Some? ==> ZeroAt(mem.bytes, block.value, l.size)
      ensures old(HeadReady(l)) ==> block == Some(old(HeadBlock(l)))
                                    && (!zero ==> mem.bytes == old(mem.bytes)) && mem.log == old(mem.log)
                                    && members == old(members)
      ensures CameFrom(l, block, old(HeadReady(l)), old(Snapshot()), old(Counts()), trail)
      ensures initialized && policy == old(policy)
    {
      hide Valid, Ready, Takeable, ServingPage, Kept, LayoutOk, Classify, DirectSize, ZeroAt, HasFree, Exhausted,
           OutOfMemory, MissServed, RunServed, HandsOut, HeaderOf, TakesGap, Asked, KindOfBin, PageSlices, HugeSlices,
           SomeRoom, Housekept, Searched, NoFit, Popped;
      ClassBounds(l);
      DirectAgrees(l);
      QueueHead(bin);
      BeforeFirst();
      ghost var live0, bytes0, s0, ready, h := live, mem.bytes, Snapshot(), HeadReady(l), Counts();
      KeptSelf(live, mem.bytes);
      var page := 0;
      if bin > DIRECT_MAX_BIN {
        var head := queues[bin].first;
        if head != 0 && HasFree(mem.pages[head]) {
          page := head;
        }
      }
      if page == 0 {
        assert !HeadReady(l);
        var found: Option<int>;
        found, trail := MissPage(bin);
        if found.None? {
          BinExhausted(l, h.log);
          MissNone(bin, s0, h.live, h.misses, trail, mem.granted, slices.UsableLimit(), Snapshot());
          return None, trail;
        }
        page := found.value;
        ServingTakes(page, bin);
      } else {
        trail := NoTrail();
      }
      ghost var bytes1 := mem.bytes;
      var taken := TakeCleared(page, l, zero);
      KeptTwice(live0, bytes0, bytes1, mem.bytes);
      block := Some(taken);
      if !ready {
        MissIs(bin, taken, page, s0, h.live, h.misses, trail, mem.granted, slices.UsableLimit(), Snapshot());
      }
    }

    /** The run of an allocation: the heap opens if it has not, and no retired page ages. */
    method AllocRun(l: Layout, zero: bool) returns (block: Option<int>, ghost trail: Trail)
      requires Valid() && LayoutOk(l) && IsRun(l)
      modifies this, mem, slices, slices.free, slices.zero
      ensures Valid() && Kept(old(live), old(mem.bytes), mem.bytes)
      ensures old(mem.log) <= mem.log && (block.None? ==> Exhausted(l, old(mem.log)))
      ensures Allocated(old(live), live, l, block) && l.align >= 1
      ensures zero && block.Some? ==> ZeroAt(mem.bytes, block.value, l.size)
      ensures CameFrom(l, block, false, old(Snapshot()), old(Counts()), trail)
      ensures initialized && policy == old(policy)
    {
      hide Valid, Ready, Kept, LayoutOk, ZeroAt, Exhausted, OutOfMemory, RunServed, Asked, HugeSlices, NoFit, Usable,
           Range, LowestPlaced, TopPlaced, LowestFit, WithGain, EmptySlices, Allocated;
      ghost var s0 := Snapshot();
      EnsureInit();
      ghost var s1 := Snapshot();
      trail := Trail(slices.freeSet, mem.granted, mem.size, s1, s1, s1, s1, 0);
      ghost var end: nat;
      block, end := AllocHuge(l, zero, false);
    }

    /** The slow road of an allocation, with the contract of the whole operation: `Allocated` and `Kept` hold,
        failure means `Exhausted`, and a queue head with a free block is what a larger request gets it from. */
    method AllocGeneric(l: Layout, zero: bool) returns (block: Option<int>, ghost trail: Trail)
      requires Valid() && LayoutOk(l) && (DirectSize(l) <= DIRECT_MAX_SIZE ==> !HeadReady(l))
      modifies this, mem, slices, slices.free, slices.zero
      ensures Valid() && Kept(old(live), old(mem.bytes), mem.bytes)
      ensures old(mem.log) <= mem.log && (block.None? ==> Exhausted(l, old(mem.log)))
      ensures Allocated(old(live), live, l, block) && l.align >= 1
      ensures zero && block.Some? ==> ZeroAt(mem.bytes, block.value, l.size)
      ensures old(HeadReady(l)) ==> block == Some(old(HeadBlock(l)))
                                    && (!zero ==> mem.bytes == old(mem.bytes)) && mem.log == old(mem.log)
                                    && members == old(members)
      ensures CameFrom(l, block, old(HeadReady(l)), old(Snapshot()), old(Counts()), trail)
      ensures old(RoomFor(l, Snapshot(), genericCount)) ==>
                mem.log == old(mem.log) && mem.granted == old(mem.granted) && FromQueue(l, block, old(members))
      ensures initialized && policy == old(policy)
    {
      hide Valid, Ready, Kept, LayoutOk, Classify, DirectSize, ZeroAt, Exhausted, CameFrom, RoomFor, Allocated;
      LayoutOkAlign(l);
      BeforeFirst();
      ghost var s0, ready, h := Snapshot(), HeadReady(l), Counts();
      match Classify(l) {
        case Huge =>
          block, trail := AllocRun(l, zero);
        case Bin(bin) =>
          block, trail := AllocBinned(l, bin, zero);
      }
      if RoomFor(l, s0, h.misses) { RoomServed(l, block, ready, s0, h, trail); }
    }

    /** A page for a request the queue's head cannot serve, after the housekeeping every miss does. */
    method MissPage(bin: nat) returns (page: Option<int>, ghost trail: Trail)
      requires Valid() && 1 <= bin <= MAX_BINNED_BIN
      modifies this, mem, slices, slices.free, slices.zero
      ensures live == old(live) && Kept(live, old(mem.bytes), mem.bytes) && old(mem.log) <= mem.log
      ensures page.None? ==>
                Valid() && OutOfMemory(PageSlices(KindOfBin(bin)), PageSlices(KindOfBin(bin)), old(mem.log))
      ensures page.Some? ==> ServingPage(page.value, bin)
      ensures policy == old(policy) && initialized
      ensures old(initialized) ==> slices.base == old(slices.base)
      ensures TakesGap(old(initialized), old(slices.freeSet), old(mem.granted), trail, mem.heapBase,
                       slices.UsableLimit())
      ensures genericCount == if old(genericCount) + 1 >= 1000 then 0 else old(genericCount) + 1
      ensures Housekept(old(Snapshot()), old(initialized), old(genericCount), trail)
      ensures Searched(bin, page, trail, mem.granted, slices.UsableLimit())
      ensures SomeRoom(trail.start.members[bin], trail.start.pages) ==> mem.log == old(mem.log)
      ensures page.Some? ==> trail.found == Snapshot()
      ensures Asked(mem.log, |old(mem.log)|, slices.base, slices.UsableLimit(), PageSlices(KindOfBin(bin)),
                    PageSlices(KindOfBin(bin)), policy)
    {
      hide Valid, Ready, ServingPage, Kept, OutOfMemory, SomeRoom, Collected, WindowAged, SubPages, Round, Walked,
           Picked, FoundRoom, Supplied, Asked, NoFit, EmptySlices, PageSlices, KindOfBin, Usable, Range, CeilDiv,
           Housekept, Searched, FirstRequest;
      ghost var s0, misses, live0 := Snapshot(), genericCount, initialized;
      ghost var gap, end := Housekeep();
      ghost var granted, start := mem.granted, Snapshot();
      ghost var parked: Snap, last: Snap, seen: nat;
      page, parked, last, seen := FindPage(bin);
      trail := Trail(gap, granted, end, start, parked, last, Snapshot(), seen);
      HousekeptIs(s0, s0.(free := gap), live0, misses, trail);
      SearchedIs(bin, page, trail, mem.granted, slices.UsableLimit());
    }

    /** What every miss does before its search: open the heap, count, and age the retired pages when a round is
        due. `gap` is what was free before the round. */
    method Housekeep() returns (ghost gap: set<int>, ghost end: nat)
      requires Valid()
      modifies this`initialized, this`genericCount, this`queues, this`members, this`direct, this`occupied, this`lists
      modifies this`owner, this`retiredMin, this`retiredMax
      modifies mem`links, mem`pages, mem`size, mem`heapBase, mem`granted, slices, slices.free, slices.zero
      ensures Valid() && initialized
      ensures genericCount == if old(genericCount) + 1 >= 1000 then 0 else old(genericCount) + 1
      ensures old(initialized) ==>
                mem.granted == old(mem.granted) && gap == old(slices.freeSet) && slices.base == old(slices.base)
      ensures !old(initialized) ==>
                var first := CeilDiv(mem.heapBase, SLICE_SIZE);
                mem.granted == Range(first, end - first) && gap == Usable(mem.granted, slices.UsableLimit())
      ensures var first := old(Snapshot()).(free := gap);
              if old(genericCount) + 1 >= 1000 then Round(first, Snapshot()) else Snapshot() == first
    {
      hide Valid, Ready, Round, Collected, WindowAged, SubPages, Usable, Range, CeilDiv;
      EnsureInit();
      gap, end := slices.freeSet, mem.size;
      var due := CountMiss();
      if due {
        CollectRetired();
      }
    }

    /** Count a miss; every `GENERIC_COLLECT_PERIOD`-th asks for a collection round. */
    method CountMiss() returns (due: bool)
      requires Valid()
      modifies this`genericCount
      ensures Valid() && (due <==> old(genericCount) + 1 >= GENERIC_COLLECT_PERIOD)
      ensures genericCount == if due then 0 else old(genericCount) + 1
    {
      hide QueuesOk, Placed, OccupiedOk, RetireBut, Base, Consistent, DirectOk;
      genericCount := genericCount + 1;
      due := genericCount >= GENERIC_COLLECT_PERIOD;
      if due {
        genericCount := 0;
      }
    }

    lemma ServingTakes(page: int, bin: nat)
      requires ServingPage(page, bin)
      ensures Takeable(page, bin) && (page != 0 ==> ListOf(page) != []) && page != 0
    {
      hide QueuesOk, Placed, OccupiedOk, RetireBut, Base, Consistent, DirectOk;
      PlacedKeys(members, mem.pages, mem.links, 0);
    }

    /** A new live block of exactly `l`, or nothing, with the live blocks as before, when the heap is exhausted
        for `l`. The lookup table is invisible in the result: when the head of the right queue has a free
        block, the head of its list is returned. */
    method Alloc(l: Layout) returns (block: Option<int>, ghost trail: Trail)
      requires Valid() && LayoutOk(l)
      modifies this, mem, slices, slices.free, slices.zero
      ensures Valid() && Kept(old(live), old(mem.bytes), mem.bytes)
      ensures old(mem.log) <= mem.log && (block.None? ==> Exhausted(l, old(mem.log)))
      ensures Allocated(old(live), live, l, block) && l.align >= 1
      ensures old(HeadReady(l)) ==> block == Some(old(HeadBlock(l)))
                                    && mem.bytes == old(mem.bytes) && mem.log == old(mem.log) && members == old(members)
      ensures CameFrom(l, block, old(HeadReady(l)), old(Snapshot()), old(Counts()), trail)
      ensures old(RoomFor(l, Snapshot(), genericCount)) ==>
                mem.log == old(mem.log) && mem.granted == old(mem.granted) && FromQueue(l, block, old(members))
    {
      hide Valid, Ready, Takeable, Kept, LayoutOk, Classify, DirectSize, Exhausted, MissServed, RunServed, HandsOut,
           HeaderOf, KindOfBin, TakesGap, Asked, PageSlices, HugeSlices, LastingRoom;
      LayoutOkAlign(l);
      trail := NoTrail();
      KeptSelf(live, mem.bytes);
      var size := DirectSize(l);
      if size <= DIRECT_MAX_SIZE {
        DirectHead(l);
        var page := direct[DirectIndex(size)];
        var taken := Take(page, l);
        if taken != 0 {
          return Some(taken), trail;
        }
      }
      block, trail := AllocGeneric(l, false);
    }

    /** As `Alloc`, and every byte of the new block is zero. */
    method AllocZeroed(l: Layout) returns (block: Option<int>, ghost trail: Trail)
      requires Valid() && LayoutOk(l)
      modifies this, mem, slices, slices.free, slices.zero
      ensures Valid() && Kept(old(live), old(mem.bytes), mem.bytes)
      ensures old(mem.log) <= mem.log && (block.None? ==> Exhausted(l, old(mem.log)))
      ensures Allocated(old(live), live, l, block) && l.align >= 1
      ensures block.Some? ==> ZeroAt(mem.bytes, block.value, l.size)
      ensures old(HeadReady(l)) ==> block == Some(old(HeadBlock(l)))
                                    && mem.log == old(mem.log) && members == old(members)
      ensures CameFrom(l, block, old(HeadReady(l)), old(Snapshot()), old(Counts()), trail)
      ensures old(RoomFor(l, Snapshot(), genericCount)) ==>
                mem.log == old(mem.log) && mem.granted == old(mem.granted) && FromQueue(l, block, old(members))
    {
      hide Valid, Ready, Takeable, Kept, LayoutOk, Classify, DirectSize, ZeroAt, Exhausted, MissServed, RunServed,
           HandsOut, HeaderOf, KindOfBin, TakesGap, Asked, PageSlices, HugeSlices, LastingRoom;
      LayoutOkAlign(l);
      trail := NoTrail();
      KeptSelf(live, mem.bytes);
      var size := DirectSize(l);
      if size <= DIRECT_MAX_SIZE {
        DirectHead(l);
        var page := direct[DirectIndex(size)];
        var taken := TakeCleared(page, l, true);
        if taken != 0 {
          return Some(taken), trail;
        }
      }
      block, trail := AllocGeneric(l, true);
    }

    /** Give a binned block back to its page and settle the page's place in the queues. */
    method FreeBlock(page: int, a: int)
      requires Valid() && Binned(Now(), a) && page == Home(a, live[a])
      modifies this`queues, this`members, this`direct, this`occupied, this`lists, this`owner, this`live
      modifies this`retiredMin, this`retiredMax, mem`links, mem`pages, mem`bytes, slices, slices.free
      ensures slices.base == old(slices.base)
      ensures Valid() && live == old(live) - {a} && Kept(live, old(mem.bytes), mem.bytes)
      ensures BlockFreed(old(mem.pages), mem.pages, page, a)
      ensures PageFreed(old(Snapshot()), Snapshot(), page, a)
      ensures LinkWritten(old(mem.bytes), mem.bytes, a, old(mem.pages)[page].free)
    {
      hide Transition, PageFreed, LinkWritten, QueuesOk, Placed, OccupiedOk, DirectOk, RetireBut, Base, Consistent,
           Kept, Binned, Home, Pushed;
      BinnedPage(Now(), a, page);
      PushedFields(mem.pages[page], a);
      ghost var s0 := Snapshot();
      GiveBack(page, a);
      ghost var s1 := Snapshot();
      if NeedsTransition(page) {
        DeallocTransition(page);
      } else {
        RetireDone(mem.pages, mem.links, page);
      }
      PageFreedIs(s0, s1, Snapshot(), page, a);
    }

    /** Return a run's slices to the map. */
    method FreeRunOf(a: int, l: Layout)
      requires Valid() && a in live && LiveRun(Now(), a) && live[a] == l
      modifies this`owner, this`live, slices, slices.free
      ensures slices.base == old(slices.base)
      ensures Valid() && live == old(live) - {a}
      ensures slices.freeSet == old(slices.freeSet) + Range(a / SLICE_SIZE, HugeSlices(l))
    {
      hide QueuesOk, Placed, OccupiedOk, DirectOk, RetireBut, Consistent, LogOk, Represents, EmptyBelow, Usable,
           Range, LayoutOk, LiveRun, RunDropped, SetOwner, HugeSlices, Base, Backed;
      ghost var s := Now();
      RunHome(s, a);
      RunDroppedStep(s, a);
      DroppedRunIs(s, a);
      OwnedInside(a / SLICE_SIZE, HugeSlices(l));
      BaseParts();
      slices.FreeRun(a / SLICE_SIZE, HugeSlices(l));
      owner := SetOwner(owner, a / SLICE_SIZE, HugeSlices(l), FreeSlice);
      live := live - {a};
      assert Now() == RunDropped(s, a);
      BaseAgain();
    }

    /** End the life of a block: it leaves `live`, all others keep their bytes, and `FreedWhere` says which page or
        which slices get the memory. For a small page's block the size before rounding settles the kind. */
    method Dealloc(a: int, l: Layout)
      requires Valid() && a in live && live[a] == l
      modifies this`queues, this`members, this`direct, this`occupied, this`lists, this`owner, this`live
      modifies this`retiredMin, this`retiredMax, mem`links, mem`pages, mem`bytes, slices, slices.free
      ensures slices.base == old(slices.base)
      ensures Valid() && live == old(live) - {a} && Kept(live, old(mem.bytes), mem.bytes)
      ensures FreedWhere(a, l, old(Snapshot()), Snapshot(), old(mem.bytes), mem.bytes)
    {
      hide Valid, Ready, Kept, Extent, SmallLimit, Classify, LayoutOk, HeaderOf, BlockFreed, PageFreed, HugeSlices,
           LinkWritten;
      LiveExtent(a);
      SmallTestAgrees(l);
      if l.align <= MAX_NATURAL_ALIGN && l.size <= SmallLimit(l.align) {
        FreeBlock(HeaderOf(Small, a), a);
        return;
      }
      DeallocGeneric(a, l);
    }

    method DeallocGeneric(a: int, l: Layout)
      requires Valid() && a in live && live[a] == l
      modifies this`queues, this`members, this`direct, this`occupied, this`lists, this`owner, this`live
      modifies this`retiredMin, this`retiredMax, mem`links, mem`pages, mem`bytes, slices, slices.free
      ensures slices.base == old(slices.base)
      ensures Valid() && live == old(live) - {a} && Kept(live, old(mem.bytes), mem.bytes)
      ensures FreedWhere(a, l, old(Snapshot()), Snapshot(), old(mem.bytes), mem.bytes)
    {
      hide Valid, Ready, Kept, Extent, Classify, LayoutOk, HeaderOf, BlockFreed, PageFreed, HugeSlices, LinkWritten;
      LiveExtent(a);
      match Classify(l)
      case Huge =>
        FreeRunOf(a, l);
        KeptSelf(live, mem.bytes);
      case Bin(bin) =>
        FreeBlock(HeaderOf(KindOfBin(bin), a), a);
    }

    // -------------------------------------------------------------------------------------------
    // Resizing
    // -------------------------------------------------------------------------------------------

    /** The block stays where it is; only the Layout the caller holds changes. */
    ghost method Relabel(a: int, l: Layout)
      requires Valid() && Consistent(Relabeled(Now(), a, l)) && a in live
      modifies this`live
      ensures Valid() && live == old(live)[a := l]
    {
      hide QueuesOk, Placed, OccupiedOk, DirectOk, RetireBut, Base, Consistent;
      live := live[a := l];
    }

    /** A binned block keeps serving a Layout of the same page kind and no larger bin. */
    lemma KeepBinned(a: int, l: Layout, m: Layout)
      requires Valid() && a in live && live[a] == l && LayoutOk(m) && m.align == l.align && l.align >= 1
      requires Classify(l).Bin? && Classify(m).Bin? && KindOfBin(Classify(m).bin) == KindOfBin(Classify(l).bin)
      requires Classify(m).bin <= Classify(l).bin
      ensures Consistent(Relabeled(Now(), a, m))
    {
      hide QueuesOk, Placed, OccupiedOk, DirectOk, RetireBut, Base, Consistent, Classify, KindOfBin, LayoutOk,
           Relabeled;
      BinnedRelabeledStep(Now(), a, m);
    }

    lemma KeepRun(a: int, l: Layout, m: Layout)
      requires Valid() && a in live && live[a] == l && IsRun(l) && LayoutOk(m) && IsRun(m) && m.align == l.align
      requires HugeSlices(m) == HugeSlices(l)
      ensures Consistent(Relabeled(Now(), a, m))
    {
      hide QueuesOk, Placed, OccupiedOk, DirectOk, RetireBut, Base, Consistent, IsRun, LayoutOk, Relabeled,
           HugeSlices;
      RunRelabeledStep(Now(), a, m);
    }

    /** Give the tail of a run back to the map. */
    method ShrinkRun(a: int, l: Layout, m: Layout)
      requires Valid() && a in live && LiveRun(Now(), a) && live[a] == l && LayoutOk(m) && IsRun(m)
      requires m.align == l.align
      requires HugeSlices(m) < HugeSlices(l)
      modifies this`owner, this`live, slices, slices.free
      ensures Valid() && live == old(live)[a := m]
    {
      hide QueuesOk, Placed, OccupiedOk, DirectOk, RetireBut, Consistent, LogOk, Represents, EmptyBelow, Usable,
           Range, LayoutOk, LiveRun, RunResized, SetOwner, HugeSlices, Base, Backed, IsRun;
      ghost var s := Now();
      var start, n, k := a / SLICE_SIZE, HugeSlices(l), HugeSlices(m);
      RunHome(s, a);
      RunResizedStep(s, a, m);
      ResizedIs(s, a, m);
      OwnedInside(start, n);
      BaseParts();
      slices.Shrink(start, n, k);
      AdoptResize(a, m, s);
    }

    /** The map has taken a resize in; the owners and the caller's Layout follow. */
    ghost method AdoptResize(a: int, m: Layout, s: State)
      requires a in s.live && Consistent(RunResized(s, a, m))
      requires Now() == s.(free := RunResized(s, a, m).free, zero := RunResized(s, a, m).zero)
      requires slices.Valid() && mem.Valid() && slices.base <= mem.heapBase / SLICE_SIZE && LogOk(mem.log)
      requires mem.lowestBase > 0 && initialized && owner.Keys == Usable(mem.granted, slices.UsableLimit())
      requires QueuesValid(0) && RetireBut(mem.pages, mem.links, 0)
      modifies this`owner, this`live
      ensures Valid() && live == old(live)[a := m]
    {
      hide QueuesOk, Placed, OccupiedOk, DirectOk, RetireBut, Consistent, LogOk, Usable, RunResized, SetOwner,
           HugeSlices,
           Base, Represents, EmptyBelow;
      ResizedIs(s, a, m);
      owner := RunResized(s, a, m).owner;
      live := live[a := m];
      assert Now() == RunResized(s, a, m);
      BaseAgain();
    }

    /** Grow a run through the free slices right after it, if they are free. */
    method ExtendRun(a: int, l: Layout, m: Layout) returns (ok: bool)
      requires Valid() && a in live && LiveRun(Now(), a) && live[a] == l && LayoutOk(m) && IsRun(m)
      requires m.align == l.align
      requires HugeSlices(m) > HugeSlices(l)
      modifies this`owner, this`live, slices, slices.free, slices.zero
      ensures Valid() && live == if ok then old(live)[a := m] else old(live)
      ensures ok <==> Range(a / SLICE_SIZE + HugeSlices(l), HugeSlices(m) - HugeSlices(l)) <= old(slices.freeSet)
      ensures slices.base == old(slices.base) && (!ok ==> slices.freeSet == old(slices.freeSet))
    {
      hide QueuesOk, Placed, OccupiedOk, DirectOk, RetireBut, Consistent, LogOk, Represents, EmptyBelow, Usable,
           Range, LayoutOk, LiveRun, RunResized, SetOwner, HugeSlices, Base, Backed, IsRun;
      ghost var s := Now();
      var start, n, k := a / SLICE_SIZE, HugeSlices(l), HugeSlices(m);
      RunHome(s, a);
      OwnedInside(start, n);
      BaseParts();
      var r := slices.TryExtend(start, n, k - n);
      ok := r.Some?;
      if ok {
        RunResizedStep(s, a, m);
        ResizedIs(s, a, m);
        AdoptResize(a, m, s);
      } else {
        assert Now() == s;
        BaseAgain();
      }
    }

    /** Grow a run in place after the release of empty pages, growing memory when it is at the top. */
    method GrowRun(a: int, l: Layout, m: Layout) returns (ok: bool)
      requires Valid() && a in live && LiveRun(Now(), a) && live[a] == l && LayoutOk(m) && IsRun(m)
      requires m.align == l.align
      requires HugeSlices(m) > HugeSlices(l) && NoEmpty(mem.pages)
      modifies this`owner, this`live, mem`size, mem`bytes, mem`granted, mem`log, slices, slices.free, slices.zero
      ensures Valid() && live == if ok then old(live)[a := m] else old(live)
      ensures Kept(old(live), old(mem.bytes), mem.bytes) && old(mem.log) <= mem.log && slices.base == old(slices.base)
      ensures old(mem.size) <= mem.size
      ensures Range(a / SLICE_SIZE + HugeSlices(l), HugeSlices(m) - HugeSlices(l)) <= old(slices.freeSet) ==>
                ok && mem.log == old(mem.log)
      ensures old(mem.granted) <= mem.granted
      ensures !ok ==>
                slices.freeSet == WithGain(old(slices.freeSet), old(mem.granted), mem.granted, slices.UsableLimit())
      ensures !ok ==>
                ExtendDenied(mem.log, |old(mem.log)|, mem.size, slices.UsableLimit(), a / SLICE_SIZE + HugeSlices(l),
                             HugeSlices(m) - HugeSlices(l), old(slices.freeSet))
      ensures ExtendAsked(mem.log, |old(mem.log)|, slices.base, slices.UsableLimit(), a / SLICE_SIZE + HugeSlices(l),
                          HugeSlices(m) - HugeSlices(l), policy)
    {
      hide ExtendAsked, QueuesOk, Placed, OccupiedOk, DirectOk, RetireBut, Consistent, LogOk, Represents, EmptyBelow,
           Usable, Range, LayoutOk, LiveRun, RunResized, SetOwner, HugeSlices, Base, Backed, IsRun, Kept, NoEmpty,
           Grew, ExtendEvents, WithGain, AddFreeSlices, WithGrant, ExtendDenied;
      ghost var s, bytes0, granted0, size0, log0 := Now(), mem.bytes, mem.granted, mem.size, mem.log;
      var start, n, k := a / SLICE_SIZE, HugeSlices(l), HugeSlices(m);
      LiveExtent(a);
      RunHome(s, a);
      OwnedInside(start, n);
      LimitFits();
      var r := ExtendWithGrowth(slices, mem, start, n, k - n, policy);
      ok := r.Some?;
      GrewUp(bytes0, granted0, size0, mem.bytes, mem.granted, mem.size);
      ghost var limit := slices.UsableLimit();
      ghost var gain := Usable(mem.granted - granted0, limit);
      ghost var t := WithGrant(s, gain, gain, mem.bytes);
      GrantedAbove();
      GrownStep(s, granted0, mem.granted, size0, mem.size, limit, mem.bytes, mem.heapBase);
      LogExtended(log0, mem.log, limit, mem.pages, start + n, k - n, s.free, ok);
      owner := AddFreeSlices(owner, gain);
      GrantIs(s, gain, mem.bytes, granted0, mem.granted, limit);
      if ok {
        SameLiveRun(s, t, a);
        RunResizedStep(t, a, m);
        ResizedIs(t, a, m);
        BaseNow();
        BaseParts();
        AdoptResize(a, m, t);
      } else {
        assert Now() == t;
        BaseNow();
      }
    }

    /** Where a resize puts a run it moves: in the free run that reached `end`, as low as its alignment allows,
        if there was room in it, and otherwise at the lowest fit. */
    ghost predicate MovedToTop(m: Layout, block: Option<int>, free: set<int>, end: nat)
      reads slices
    {
      m.align >= 1
      && TopPlaced(block, free, HugeSlices(m), CeilDiv(m.align, SLICE_SIZE), Min(end, slices.Limit()))
    }

    /** Where a run goes that a resize moves: by `MovedToTop`, in a free set of `base` and what was granted during the
        call, against an end of memory between the size at the call and now. When that set has a fit at all,
        it is all of those and the end is the end now. */
    ghost predicate PlacedSince(m: Layout, block: Option<int>, free: set<int>, end: nat,
                                base: set<int>, granted: set<int>, size: nat)
      reads slices, mem`size, mem`granted
    {
      && MovedToTop(m, block, free, end) && size <= end <= mem.size
      && GainedFrom(free, base, granted, mem.granted, slices.UsableLimit())
      && (!NoFit(free, HugeSlices(m), CeilDiv(m.align, SLICE_SIZE)) ==>
            end == mem.size && free == WithGain(base, granted, mem.granted, slices.UsableLimit()))
    }

    lemma PlacedLater(m: Layout, block: Option<int>, free: set<int>, end: nat, base: set<int>, g0: set<int>,
                      g1: set<int>, s0: nat, s1: nat)
      requires PlacedSince(m, block, free, end, free, g1, s1) && s0 <= s1 && g0 <= g1
      requires free == WithGain(base, g0, g1, slices.UsableLimit())
      ensures PlacedSince(m, block, free, end, base, g0, s0)
    {
      hide MovedToTop, NoFit, HugeSlices, WithGain, GainedFrom;
      GainedFromMore(free, base, g0, g1, mem.granted, slices.UsableLimit());
    }

    lemma PlacedNow(m: Layout, block: Option<int>, free: set<int>, end: nat, granted: set<int>, size: nat)
      requires m.align >= 1 && MovedToTop(m, block, free, end) && size <= end <= mem.size && granted <= mem.granted
      requires !NoFit(free, HugeSlices(m), CeilDiv(m.align, SLICE_SIZE)) ==> end == mem.size && granted == mem.granted
      ensures PlacedSince(m, block, free, end, free, granted, size)
    {
      hide MovedToTop, NoFit, HugeSlices;
      NoGain(free, mem.granted, slices.UsableLimit());
    }

    /** The block a resize moves to: as `Alloc` gives it, but a run goes against the end of memory. */
    method AllocMoved(m: Layout) returns (block: Option<int>, ghost end: nat)
      requires Valid() && initialized && LayoutOk(m)
      modifies this, mem, slices, slices.free, slices.zero
      ensures Valid() && Kept(old(live), old(mem.bytes), mem.bytes)
      ensures old(mem.log) <= mem.log && (block.None? ==> Exhausted(m, old(mem.log)))
      ensures Allocated(old(live), live, m, block) && m.align >= 1
      ensures old(HeadReady(m)) ==> block == Some(old(HeadBlock(m))) && mem.log == old(mem.log)
      ensures old(RoomFor(m, Snapshot(), genericCount)) ==>
                mem.log == old(mem.log) && mem.granted == old(mem.granted) && FromQueue(m, block, old(members))
      ensures IsRun(m) ==>
                slices.base == old(slices.base)
                && PlacedSince(m, block, old(slices.freeSet), end, old(slices.freeSet), old(mem.granted), old(mem.size))
    {
      hide Valid, Ready, Kept, Classify, LayoutOk, CameFrom, LastingRoom, RunServed, Asked, LowestPlaced, WithGain,
           EmptySlices, NoFit, LowestFit, HeaderOf, KindOfBin, HugeSlices, OutOfMemory, PlacedSince, Allocated,
           Exhausted;
      LayoutOkAlign(m);
      ghost var free0, granted0, size0 := slices.freeSet, mem.granted, mem.size;
      end := 0;
      if Classify(m).Huge? {
        block, end := AllocHuge(m, false, true);
        PlacedNow(m, block, free0, end, granted0, size0);
      } else {
        ghost var trail: Trail;
        block, trail := Alloc(m);
      }
    }

    /** Copy the block into a new one and free it; on failure nothing has changed. */
    method MoveBlock(a: int, l: Layout, m: Layout) returns (block: Option<int>, ghost end: nat)
      requires Valid() && a in live && live[a] == l && LayoutOk(m)
      modifies this, mem, slices, slices.free, slices.zero
      ensures Valid() && Reallocated(old(live), live, a, l, m, old(mem.bytes), mem.bytes, block)
      ensures old(mem.log) <= mem.log && (block.None? ==> Exhausted(m, old(mem.log)))
      ensures block.Some? ==> block.value != a
      ensures old(HeadReady(m)) ==> block == Some(old(HeadBlock(m))) && mem.log == old(mem.log)
      ensures old(RoomFor(m, Snapshot(), genericCount)) ==>
                mem.log == old(mem.log) && mem.granted == old(mem.granted) && FromQueue(m, block, old(members))
      ensures IsRun(m) ==>
                slices.base == old(slices.base)
                && PlacedSince(m, block, old(slices.freeSet), end, old(slices.freeSet), old(mem.granted), old(mem.size))
    {
      hide Valid, Ready, Kept, Extent, Classify, LayoutOk, At, Reallocated, Slice, Overwritten, HeadReady, RoomFor,
           FreedWhere, GainedFrom, WithGain, NoFit, TopPlaced, HeaderOf, KindOfBin, HugeSlices, Exhausted;
      LiveExtent(a);
      LayoutOkAlign(m);
      ghost var live0, bytes0 := live, mem.bytes;
      block, end := AllocMoved(m);
      if block.None? {
        NotMoved(live0, a, l, m, bytes0, mem.bytes);
        return;
      }
      var b := block.value;
      var n := if l.size < m.size then l.size else m.size;
      ghost var bytes1 := mem.bytes;
      Write(b, 0, Slice(mem.bytes, a, n));
      ghost var bytes2 := mem.bytes;
      Dealloc(a, l);
      MovedContents(live0, live, a, l, m, b, n, bytes0, bytes1, bytes2, mem.bytes);
    }

    /** Whether a resize keeps the block where it is without touching anything else. */
    ghost predicate StaysPut(a: int, l: Layout, m: Layout)
      requires l.align >= 1 && m.align >= 1
      reads slices`freeSet
    {
      match (Classify(l), Classify(m))
      case (Bin(o), Bin(n)) => o >= 1 && FitsInPlace(o, n, m.size)
      case (Huge, Huge) =>
        HugeSlices(m) <= HugeSlices(l)
        || Range(a / SLICE_SIZE + HugeSlices(l), HugeSlices(m) - HugeSlices(l)) <= slices.freeSet
      case (_, _) => false
    }

    /** A run that grows, with all it needs among the slices right after it. */
    ghost predicate GrowsInto(a: int, l: Layout, m: Layout, free: set<int>) {
      && IsRun(l) && IsRun(m) && HugeSlices(m) > HugeSlices(l)
      && Range(a / SLICE_SIZE + HugeSlices(l), HugeSlices(m) - HugeSlices(l)) <= free
    }

    /** Resize a run: give back its tail, extend it where it is, or move it. */
    method ResizeRun(a: int, l: Layout, m: Layout) returns (block: Option<int>, ghost free: set<int>, ghost end: nat)
      requires Valid() && a in live && live[a] == l && LayoutOk(m) && m.align == l.align && IsRun(l) && IsRun(m)
      modifies this, mem, slices, slices.free, slices.zero
      ensures Valid() && Reallocated(old(live), live, a, l, m, old(mem.bytes), mem.bytes, block)
      ensures old(mem.log) <= mem.log && (block.None? ==> Exhausted(m, old(mem.log)))
      ensures old(StaysPut(a, l, m)) ==>
                block == Some(a) && mem.bytes == old(mem.bytes) && mem.log == old(mem.log)
                && mem.pages == old(mem.pages)
      ensures GrowsInto(a, l, m, old(slices.freeSet) + EmptySlices(old(mem.pages))) ==>
                block == Some(a) && mem.log == old(mem.log)
      ensures block != Some(a) ==>
                PlacedSince(m, block, free, end, old(slices.freeSet) + EmptySlices(old(mem.pages)), old(mem.granted),
                            old(mem.size))
    {
      hide Valid, Ready, Kept, Extent, LayoutOk, At, SameContents, HugeSlices, SubPages, NoEmpty, Range, Reallocated,
           EmptySlices, MovedToTop, PlacedSince, Exhausted, OutOfMemory, Rounded;
      free, end := slices.freeSet, 0;
      ghost var live0, bytes0 := live, mem.bytes;
      LiveExtent(a);
      KeptSelf(live, mem.bytes);
      var oldN, newN := HugeSlices(l), HugeSlices(m);
      if newN == oldN {
        KeepRun(a, l, m);
        Relabel(a, m);
        InPlace(live0, a, l, m, bytes0, mem.bytes);
        block := Some(a);
        return;
      }
      if newN < oldN {
        ShrinkRun(a, l, m);
        InPlace(live0, a, l, m, bytes0, mem.bytes);
        block := Some(a);
        return;
      }
      var ok := ExtendRun(a, l, m);
      if ok {
        InPlace(live0, a, l, m, bytes0, mem.bytes);
        block := Some(a);
        return;
      }
      block, free, end := ExtendOrMove(a, l, m);
    }

    /** The rest of a run's growth once the free slices after it fell short. The block stays if the slices of
        empty pages complete the range, and then memory does not grow; it may also stay by a grow. */
    method ExtendOrMove(a: int, l: Layout, m: Layout)
      returns (block: Option<int>, ghost free: set<int>, ghost end: nat)
      requires Valid() && a in live && live[a] == l && LayoutOk(m) && m.align == l.align && IsRun(l) && IsRun(m)
      requires HugeSlices(m) > HugeSlices(l)
      modifies this, mem, slices, slices.free, slices.zero
      ensures Valid() && Reallocated(old(live), live, a, l, m, old(mem.bytes), mem.bytes, block)
      ensures old(mem.log) <= mem.log && (block.None? ==> Exhausted(m, old(mem.log)))
      ensures GrowsInto(a, l, m, old(slices.freeSet) + EmptySlices(old(mem.pages))) ==>
                block == Some(a) && mem.log == old(mem.log)
      ensures block != Some(a) ==>
                PlacedSince(m, block, free, end, old(slices.freeSet) + EmptySlices(old(mem.pages)), old(mem.granted),
                            old(mem.size))
    {
      hide Valid, Ready, Kept, Extent, LayoutOk, At, HugeSlices, SubPages, NoEmpty, Range, Reallocated, EmptySlices,
           MovedToTop, PlacedSince, IsRun, LiveRun, ExtendDenied, WithGain;
      ghost var live0, bytes0, log0, size0, granted0 := live, mem.bytes, mem.log, mem.size, mem.granted;
      end := 0;
      RunIsLive(Now(), a);
      ReleaseEmptyPages();
      RunIsLive(Now(), a);
      var ok := GrowRun(a, l, m);
      free := slices.freeSet;
      if ok {
        InPlace(live0, a, l, m, bytes0, mem.bytes);
        block := Some(a);
        return;
      }
      ghost var base, bytes1, log1 := old(slices.freeSet) + EmptySlices(old(mem.pages)), mem.bytes, mem.log;
      ghost var granted1, size1 := mem.granted, mem.size;
      block, end := MoveBlock(a, l, m);
      PlacedLater(m, block, free, end, base, granted0, granted1, size0, size1);
      MovedLater(live0, live, a, l, m, bytes0, bytes1, mem.bytes, block);
      if block.None? { StillExhausted(m, log0, log1); }
    }

    /** A failure judged since a later log is one since an earlier one. */
    lemma StillExhausted(m: Layout, log0: seq<GrowEvent>, log1: seq<GrowEvent>)
      requires Exhausted(m, log1) && log0 <= log1 <= mem.log
      ensures Exhausted(m, log0)
    {
      hide Classify, HugeSlices, PageSlices, KindOfBin, NoFit, PastLimit;
    }

    /** Resize a block of a page to one of a page: it keeps its place, and everything else, in its own bin, and in a
        smaller one of its page kind if it stays at least half the block; otherwise it moves. */
    method ResizeBinned(a: int, l: Layout, m: Layout, o: nat, n: nat) returns (block: Option<int>, ghost end: nat)
      requires Valid() && a in live && live[a] == l && LayoutOk(m) && l.align >= 1 && m.align == l.align
      requires Classify(l) == Bin(o) && Classify(m) == Bin(n)
      modifies this, mem, slices, slices.free, slices.zero
      ensures Valid() && Reallocated(old(live), live, a, l, m, old(mem.bytes), mem.bytes, block)
      ensures old(mem.log) <= mem.log && (block.None? ==> Exhausted(m, old(mem.log)))
      ensures o >= 1
      ensures block == Some(a) <==> n == o || (n < o && KindOfBin(n) == KindOfBin(o) && 2 * m.size >= BinSize(o))
      ensures block == Some(a) <==> FitsInPlace(o, n, m.size)
      ensures block == Some(a) ==>
                mem.bytes == old(mem.bytes) && mem.log == old(mem.log) && mem.pages == old(mem.pages)
      ensures block != Some(a) && old(HeadReady(m)) ==>
                block == Some(old(HeadBlock(m))) && mem.log == old(mem.log)
      ensures block != Some(a) && old(RoomFor(m, Snapshot(), genericCount)) ==>
                mem.log == old(mem.log) && mem.granted == old(mem.granted) && FromQueue(m, block, old(members))
    {
      hide Valid, Ready, Kept, Extent, Classify, LayoutOk, At, FitsInPlace, KindOfBin, Reallocated, PlacedSince,
           Exhausted, Rounded, HeadReady, RoomFor, HeaderOf;
      LiveExtent(a);
      KeptSelf(live, mem.bytes);
      FitsInPlaceIsSafe(l, m.size);
      if FitsInPlace(o, n, m.size) {
        ghost var live0, bytes0 := live, mem.bytes;
        KeepBinned(a, l, m);
        Relabel(a, m);
        InPlace(live0, a, l, m, bytes0, mem.bytes);
        block, end := Some(a), 0;
        return;
      }
      block, end := MoveBlock(a, l, m);
    }

    /** Resize a block, in place where it can be, moving it where it cannot; `None` leaves it untouched. */
    method Realloc(a: int, l: Layout, newSize: nat) returns (block: Option<int>, ghost free: set<int>, ghost end: nat)
      requires Valid() && a in live && live[a] == l && newSize >= 1 && LayoutOk(Layout(newSize, l.align))
      modifies this, mem, slices, slices.free, slices.zero
      ensures Valid()
      ensures Reallocated(old(live), live, a, l, Layout(newSize, l.align), old(mem.bytes), mem.bytes, block)
      ensures old(mem.log) <= mem.log && (block.None? ==> Exhausted(Layout(newSize, l.align), old(mem.log)))
      ensures l.align >= 1
      ensures old(StaysPut(a, l, Layout(newSize, l.align))) ==>
                block == Some(a) && mem.bytes == old(mem.bytes) && mem.log == old(mem.log)
                && mem.pages == old(mem.pages)
      ensures GrowsInto(a, l, Layout(newSize, l.align), old(slices.freeSet) + EmptySlices(old(mem.pages))) ==>
                block == Some(a) && mem.log == old(mem.log)
      ensures match (Classify(l), Classify(Layout(newSize, l.align)))
              case (Bin(o), Bin(n)) =>
                && o >= 1
                && (block == Some(a) <==>
                      n == o || (n < o && KindOfBin(n) == KindOfBin(o) && 2 * newSize >= BinSize(o)))
                && (block == Some(a) ==>
                      mem.bytes == old(mem.bytes) && mem.log == old(mem.log) && mem.pages == old(mem.pages))
              case (Huge, Huge) =>
                CeilDiv(newSize, SLICE_SIZE) <= CeilDiv(l.size, SLICE_SIZE) ==>
                  block == Some(a) && mem.bytes == old(mem.bytes) && mem.log == old(mem.log)
                  && mem.pages == old(mem.pages)
              case (_, _) => block != Some(a)
      ensures block != Some(a) ==>
                var m := Layout(newSize, l.align);
                && (old(HeadReady(m)) ==> block == Some(old(HeadBlock(m))) && mem.log == old(mem.log))
                && (old(RoomFor(m, Snapshot(), genericCount)) ==>
                      mem.log == old(mem.log) && mem.granted == old(mem.granted) && FromQueue(m, block, old(members)))
      ensures IsRun(Layout(newSize, l.align)) && block != Some(a) ==>
                PlacedSince(Layout(newSize, l.align), block, free, end,
                            old(slices.freeSet) + (if IsRun(l) then EmptySlices(old(mem.pages)) else {}),
                            old(mem.granted), old(mem.size))
    {
      hide Valid, Ready, Kept, Extent, LayoutOk, At, SameContents, HugeSlices, FitsInPlace, SubPages, NoEmpty, Range,
           KindOfBin, Reallocated, DirectIndex, EmptySlices, MovedToTop, PlacedSince, Exhausted, OutOfMemory, BinOf,
           Rounded, LastingRoom, HeaderOf;
      free, end := slices.freeSet, 0;
      ghost var live0, bytes0 := live, mem.bytes;
      var m := Layout(newSize, l.align);
      LiveExtent(a);
      KeptSelf(live, mem.bytes);
      if l.align <= WORD && l.size <= DIRECT_MAX_SIZE && newSize <= DIRECT_MAX_SIZE
         && DirectIndex(l.size) == DirectIndex(newSize)
      {
        SameSlotSameClass(l.size, newSize, l.align);
        KeepBinned(a, l, m);
        Relabel(a, m);
        InPlace(live0, a, l, m, bytes0, mem.bytes);
        block := Some(a);
        return;
      }
      match (Classify(l), Classify(m))
      case (Bin(o), Bin(n)) =>
        block, end := ResizeBinned(a, l, m, o, n);
      case (Huge, Huge) =>
        block, free, end := ResizeRun(a, l, m);
      case (_, _) =>
        block, end := MoveBlock(a, l, m);
        assert free + {} == free;
    }
  }
}
