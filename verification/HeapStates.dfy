/** The allocator's state between steps, as a value: pages and their free lists, memory contents, who owns
    each slice, and which blocks are live under which Layout. `Consistent` is the heap invariant over it;
    every step the heap takes is shown to preserve it. */
module HeapStates {
  import opened Arithmetic
  import opened Bins
  import opened SliceMaps
  import opened Backend
  import opened Pages

  /** What a slice given to the allocator is used for. A slice has one owner. */
  datatype Owner = FreeSlice | PageSlice(page: int) | RunSlice(run: int)

  datatype State = State(
    pages: map<int, Page>,
    lists: map<int, seq<int>>,
    bytes: map<int, Byte>,
    owner: map<int, Owner>,
    live: map<int, Layout>,
    free: set<int>,
    zero: set<int>)

  /** Slices a run of Layout `l` owns. */
  function HugeSlices(l: Layout): (n: nat)
    ensures n >= 1 && (l.size >= 1 ==> (n - 1) * SLICE_SIZE < l.size <= n * SLICE_SIZE)
  {
    var n := CeilDiv(l.size, SLICE_SIZE);
    if n < 1 then 1 else n
  }

  ghost predicate IsRun(l: Layout) {
    l.align >= 1 && Classify(l).Huge?
  }

  predicate InPage(p: int, kind: PageKind, s: int) {
    p / SLICE_SIZE <= s < p / SLICE_SIZE + PageSlices(kind)
  }

  predicate InRun(a: int, l: Layout, s: int) {
    a / SLICE_SIZE <= s < a / SLICE_SIZE + HugeSlices(l)
  }

  // ---------------------------------------------------------------------------------------------
  // The invariant
  // ---------------------------------------------------------------------------------------------

  ghost predicate PagesOk(pages: map<int, Page>, lists: map<int, seq<int>>) {
    pages.Keys == lists.Keys && forall p :: p in pages ==> PageOk(p, pages[p], lists[p])
  }

  ghost predicate ChainsOk(lists: map<int, seq<int>>, bytes: map<int, Byte>) {
    forall p :: p in lists ==> Chain(lists[p], bytes)
  }

  /** Real slices below the last one, so that addresses are positive and do not overflow. */
  ghost predicate OwnerRange(owner: map<int, Owner>) {
    forall s :: s in owner ==> 1 <= s < MAX_SLICE_INDEX
  }

  ghost predicate FreeOwn(owner: map<int, Owner>, free: set<int>) {
    forall s :: s in free <==> s in owner && owner[s] == FreeSlice
  }

  ghost predicate PagesOwn(owner: map<int, Owner>, pages: map<int, Page>) {
    && (forall p, s :: p in pages && InPage(p, pages[p].kind, s) ==> s in owner && owner[s] == PageSlice(p))
    && (forall s :: s in owner && owner[s].PageSlice? ==>
          owner[s].page in pages && InPage(owner[s].page, pages[owner[s].page].kind, s))
  }

  ghost predicate RunsOwn(owner: map<int, Owner>, live: map<int, Layout>) {
    && (forall a, s :: a in live && IsRun(live[a]) && InRun(a, live[a], s) ==> s in owner && owner[s] == RunSlice(a))
    && (forall s :: s in owner && owner[s].RunSlice? ==>
          owner[s].run in live && IsRun(live[owner[s].run]) && InRun(owner[s].run, live[owner[s].run], s))
  }

  /** The page a binned block masks to. */
  function Home(a: int, l: Layout): int
    requires l.align >= 1 && Classify(l).Bin?
  {
    HeaderOf(KindOfBin(Classify(l).bin), a)
  }

  /** The Layout the caller holds recovers where the block lives: masking with the kind of its bin finds
      the block's own page, of that kind and with blocks at least as large; a run is slice aligned. */
  ghost predicate BlockHome(a: int, l: Layout, pages: map<int, Page>, lists: map<int, seq<int>>) {
    && LayoutOk(l) && a > 0 && a % l.align == 0
    && match Classify(l)
       case Huge => a % SLICE_SIZE == 0
       case Bin(b) =>
         var p := Home(a, l);
         && p in pages && p in lists
         && pages[p].kind == KindOfBin(b) && b <= pages[p].bin
         && LiveBlock(p, pages[p], lists[p], a)
  }

  ghost predicate LiveOk(live: map<int, Layout>, pages: map<int, Page>, lists: map<int, seq<int>>) {
    forall a :: a in live ==> BlockHome(a, live[a], pages, lists)
  }

  /** Every block a page has handed out is one the callers hold. */
  ghost predicate LiveComplete(live: map<int, Layout>, pages: map<int, Page>, lists: map<int, seq<int>>) {
    forall p, a :: p in pages && p in lists && LiveBlock(p, pages[p], lists[p], a) ==> a in live && !IsRun(live[a])
  }

  ghost predicate ZeroOk(zero: set<int>, bytes: map<int, Byte>) {
    forall x :: x / SLICE_SIZE in zero ==> At(bytes, x) == 0
  }

  ghost predicate PagesZero(pages: map<int, Page>, lists: map<int, seq<int>>, bytes: map<int, Byte>) {
    forall p :: p in pages && p in lists ==> PageZero(p, pages[p], lists[p], bytes)
  }

  ghost predicate Consistent(s: State) {
    && PagesOk(s.pages, s.lists)
    && ChainsOk(s.lists, s.bytes)
    && OwnerRange(s.owner)
    && FreeOwn(s.owner, s.free)
    && PagesOwn(s.owner, s.pages)
    && RunsOwn(s.owner, s.live)
    && LiveOk(s.live, s.pages, s.lists)
    && LiveComplete(s.live, s.pages, s.lists)
    && s.zero <= s.free
    && ZeroOk(s.zero, s.bytes)
    && PagesZero(s.pages, s.lists, s.bytes)
  }

  // ---------------------------------------------------------------------------------------------
  // Who owns an address
  // ---------------------------------------------------------------------------------------------

  /** The bytes a live block may use: the whole block of its page, or all slices of its run. */
  function Extent(s: State, a: int): int
    requires a in s.live && s.live[a].align >= 1
  {
    var l := s.live[a];
    if Classify(l).Huge? then HugeSlices(l) * SLICE_SIZE
    else
      var p := Home(a, l);
      if p in s.pages then s.pages[p].blockSize else 0
  }

  /** The owner of the slices a live block lies in. */
  function HomeOwner(s: State, a: int): Owner
    requires a in s.live && s.live[a].align >= 1
  {
    var l := s.live[a];
    if Classify(l).Huge? then RunSlice(a) else PageSlice(Home(a, l))
  }

  lemma Parts(s: State)
    requires Consistent(s)
    ensures PagesOk(s.pages, s.lists) && ChainsOk(s.lists, s.bytes) && OwnerRange(s.owner)
    ensures FreeOwn(s.owner, s.free) && PagesOwn(s.owner, s.pages) && RunsOwn(s.owner, s.live)
    ensures LiveOk(s.live, s.pages, s.lists) && LiveComplete(s.live, s.pages, s.lists)
    ensures s.zero <= s.free && ZeroOk(s.zero, s.bytes) && PagesZero(s.pages, s.lists, s.bytes)
  {
  }

  lemma HomeAt(s: State, a: int)
    requires Consistent(s) && a in s.live
    ensures BlockHome(a, s.live[a], s.pages, s.lists)
  {
  }

  /** Every byte of a page lies in a slice the page owns. */
  lemma PageBytesOwned(s: State, p: int, x: int)
    requires PagesOk(s.pages, s.lists) && PagesOwn(s.owner, s.pages) && p in s.pages
    requires p <= x < p + PageSize(s.pages[p].kind)
    ensures x / SLICE_SIZE in s.owner && s.owner[x / SLICE_SIZE] == PageSlice(p)
  {
    var h := s.pages[p];
    assert PageOk(p, h, s.lists[p]);
    BytesMaskToHeader(p, h.kind, x);
    assert InPage(p, h.kind, x / SLICE_SIZE);
  }

  lemma LayoutOkAlign(l: Layout)
    requires LayoutOk(l)
    ensures l.align >= 1 && l.size >= 1
  {
  }

  /** Every byte of a live block's extent lies in a slice its home owns. */
  lemma LiveBytesOwned(s: State, a: int, x: int)
    requires Consistent(s) && a in s.live && a <= x < a + Extent(s, a)
    ensures x / SLICE_SIZE in s.owner && s.owner[x / SLICE_SIZE] == HomeOwner(s, a)
  {
    hide Consistent, Classify, HugeSlices, HeaderOf, KindOfBin, LayoutOk, PageOk, Chain, PageZero;
    HomeAt(s, a);
    var l := s.live[a];
    LayoutOkAlign(l);
    if Classify(l).Huge? {
      RunBytesOwned(s, a, x);
    } else {
      var p := Home(a, l);
      PagesOkAt(s, p);
      PageOkGeometry(p, s.pages[p], s.lists[p]);
      BlockInPage(p, s.pages[p], s.pages[p].capacity, a);
      PageBytesOwnedIn(s, p, x);
    }
  }

  lemma RunBytesOwned(s: State, a: int, x: int)
    requires Consistent(s) && a in s.live && IsRun(s.live[a]) && a % SLICE_SIZE == 0
    requires a <= x < a + HugeSlices(s.live[a]) * SLICE_SIZE
    ensures x / SLICE_SIZE in s.owner && s.owner[x / SLICE_SIZE] == RunSlice(a)
  {
    hide PagesOk, ChainsOk, OwnerRange, FreeOwn, PagesOwn, LiveOk, LiveComplete, ZeroOk, PagesZero, IsRun, HugeSlices;
    assert InRun(a, s.live[a], x / SLICE_SIZE);
  }

  lemma PageOkGeometry(p: int, h: Page, l: seq<int>)
    requires PageOk(p, h, l)
    ensures Geometry(p, h) && ListOk(p, h, l) && 0 <= h.capacity <= h.reserved
  {
  }

  lemma ExtentCovers(s: State, a: int)
    requires Consistent(s) && a in s.live
    ensures LayoutOk(s.live[a]) && 1 <= s.live[a].size <= Extent(s, a)
    ensures !IsRun(s.live[a]) ==> Extent(s, a) >= WORD
  {
    hide Consistent, PageOk, ListOk, Chain, PageZero, LiveBlock, BinOf, BinSize, IsPow2;
    var l := s.live[a];
    HomeAt(s, a);
    if Classify(l).Bin? {
      var p, b := Home(a, l), Classify(l).bin;
      PagesOkAt(s, p);
      ClassifyAligns(l);
      if b < s.pages[p].bin { BinSizeMono(b, s.pages[p].bin); }
    }
  }

  // ---------------------------------------------------------------------------------------------
  // Safety: what the invariant says about addresses
  // ---------------------------------------------------------------------------------------------

  /** Live blocks are pairwise disjoint, block for block and not just Layout for Layout. */
  lemma LiveBlocksDisjoint(s: State, a: int, c: int)
    requires Consistent(s) && a in s.live && c in s.live && a != c
    ensures a + Extent(s, a) <= c || c + Extent(s, c) <= a
  {
    ExtentCovers(s, a);
    ExtentCovers(s, c);
    hide Consistent, Extent, HomeOwner;
    if HomeOwner(s, a) == HomeOwner(s, c) {
      SamePageApart(s, a, c);
    } else if a <= c {
      if c < a + Extent(s, a) {
        LiveBytesOwned(s, a, c);
        LiveBytesOwned(s, c, c);
      }
    } else if a < c + Extent(s, c) {
      LiveBytesOwned(s, c, a);
      LiveBytesOwned(s, a, a);
    }
  }

  lemma SamePageApart(s: State, a: int, c: int)
    requires Consistent(s) && a in s.live && c in s.live && a != c
    requires s.live[a].align >= 1 && s.live[c].align >= 1 && HomeOwner(s, a) == HomeOwner(s, c)
    ensures a + Extent(s, a) <= c || c + Extent(s, c) <= a
  {
    assert BlockHome(a, s.live[a], s.pages, s.lists);
    assert BlockHome(c, s.live[c], s.pages, s.lists);
    hide IsBlock, LayoutOk;
    if HomeOwner(s, a).PageSlice? {
      var p := HomeOwner(s, a).page;
      BlocksApart(p, s.pages[p], s.pages[p].capacity, a, c);
    }
  }

  /** A live block meets no page header, no free slice, and no block on a free list or past the capacity. */
  lemma LiveBlocksApart(s: State, a: int, x: int)
    requires Consistent(s) && a in s.live && a <= x < a + Extent(s, a)
    ensures x / SLICE_SIZE in s.owner && x / SLICE_SIZE !in s.free
    ensures forall p :: p in s.pages ==> !(p <= x < p + PAGE_HEADER_RESERVE)
    ensures forall p, i :: p in s.pages && 0 <= i < |s.lists[p]| ==>
              !(s.lists[p][i] <= x < s.lists[p][i] + s.pages[p].blockSize)
    ensures forall p :: p in s.pages ==>
              !(BlockAddr(p, s.pages[p], s.pages[p].capacity) <= x < BlockAddr(p, s.pages[p], s.pages[p].reserved))
  {
    LiveBytesOwned(s, a, x);
    assert x / SLICE_SIZE !in s.free;
    forall p | p in s.pages
      ensures !(p <= x < p + PAGE_HEADER_RESERVE)
      ensures forall i :: 0 <= i < |s.lists[p]| ==> !(s.lists[p][i] <= x < s.lists[p][i] + s.pages[p].blockSize)
      ensures !(BlockAddr(p, s.pages[p], s.pages[p].capacity) <= x < BlockAddr(p, s.pages[p], s.pages[p].reserved))
    {
      LiveApartFromPage(s, a, x, p);
    }
  }

  lemma LiveApartFromPage(s: State, a: int, x: int, p: int)
    requires Consistent(s) && a in s.live && a <= x < a + Extent(s, a) && p in s.pages
    ensures !(p <= x < p + PAGE_HEADER_RESERVE)
    ensures forall i :: 0 <= i < |s.lists[p]| ==> !(s.lists[p][i] <= x < s.lists[p][i] + s.pages[p].blockSize)
    ensures !(BlockAddr(p, s.pages[p], s.pages[p].capacity) <= x < BlockAddr(p, s.pages[p], s.pages[p].reserved))
  {
    var h, l := s.pages[p], s.lists[p];
    PagesOkAt(s, p);
    AreaInPage(p, h);
    if HomeOwner(s, a) == PageSlice(p) {
      assert BlockHome(a, s.live[a], s.pages, s.lists);
      OwnBlockApart(p, h, l, a);
    } else {
      LiveBytesOwned(s, a, x);
      hide Consistent, Extent, HomeOwner, PageOk, ListOk, Geometry, IsBlock, BlockAddr;
      if p <= x < p + PageSize(h.kind) { PageBytesOwnedIn(s, p, x); }
      CapacityInPage(p, h, l);
      forall i | 0 <= i < |l|
        ensures p <= l[i] && l[i] + h.blockSize <= p + PageSize(h.kind)
      {
        ListInPage(p, h, l, i);
      }
    }
  }

  lemma PageBytesOwnedIn(s: State, p: int, x: int)
    requires Consistent(s) && p in s.pages && p <= x < p + PageSize(s.pages[p].kind)
    ensures x / SLICE_SIZE in s.owner && s.owner[x / SLICE_SIZE] == PageSlice(p)
  {
    PageBytesOwned(s, p, x);
  }

  lemma NoOwnerNoPage(s: State)
    requires Consistent(s) && s.owner == map[]
    ensures s.pages == map[]
  {
    hide Consistent;
    forall p: int ensures p !in s.pages {
      if p in s.pages { PageBytesOwnedIn(s, p, p); }
    }
    assert s.pages.Keys == {};
  }

  lemma PagesOkAt(s: State, p: int)
    requires Consistent(s) && p in s.pages
    ensures p in s.lists && PageOk(p, s.pages[p], s.lists[p]) && Geometry(p, s.pages[p])
    ensures ListOk(p, s.pages[p], s.lists[p])
    ensures Chain(s.lists[p], s.bytes) && PageZero(p, s.pages[p], s.lists[p], s.bytes)
  {
  }

  lemma ListInPage(p: int, h: Page, l: seq<int>, i: int)
    requires PageOk(p, h, l) && 0 <= i < |l|
    ensures p <= l[i] && l[i] + h.blockSize <= p + PageSize(h.kind) && h.blockSize >= WORD
  {
    hide Geometry, IsBlock;
    BlockInPage(p, h, h.capacity, l[i]);
  }

  lemma CapacityInPage(p: int, h: Page, l: seq<int>)
    requires PageOk(p, h, l)
    ensures p + PAGE_HEADER_RESERVE <= BlockAddr(p, h, h.capacity) <= BlockAddr(p, h, h.reserved)
    ensures BlockAddr(p, h, h.reserved) <= p + PageSize(h.kind)
  {
    AreaInPage(p, h);
    MulMono(0, h.capacity, h.blockSize);
    MulMono(h.capacity, h.reserved, h.blockSize);
  }

  /** On its own page a live block is apart from the header, the free blocks and the unextended blocks. */
  lemma OwnBlockApart(p: int, h: Page, l: seq<int>, a: int)
    requires PageOk(p, h, l) && LiveBlock(p, h, l, a)
    ensures p + PAGE_HEADER_RESERVE <= a && a + h.blockSize <= BlockAddr(p, h, h.capacity) && h.blockSize >= WORD
    ensures forall i :: 0 <= i < |l| ==> a + h.blockSize <= l[i] || l[i] + h.blockSize <= a
  {
    hide IsBlock, BlockAddr;
    BlockInPage(p, h, h.capacity, a);
    BlockMono(p, h, h.capacity, h.capacity, a);
    forall i | 0 <= i < |l| ensures a + h.blockSize <= l[i] || l[i] + h.blockSize <= a {
      BlocksApart(p, h, h.capacity, a, l[i]);
    }
  }

  // ---------------------------------------------------------------------------------------------
  // Writes
  // ---------------------------------------------------------------------------------------------

  /** Every byte that changed lies in a slice owned by `o`. */
  ghost predicate OnlyOwned(owner: map<int, Owner>, o: Owner, before: map<int, Byte>, bytes: map<int, Byte>) {
    forall x :: At(bytes, x) != At(before, x) ==> x / SLICE_SIZE in owner && owner[x / SLICE_SIZE] == o
  }

  /** A page none of whose bytes changed keeps its links and its zeros. */
  lemma PageUnaffected(p: int, h: Page, l: seq<int>, before: map<int, Byte>, bytes: map<int, Byte>)
    requires PageOk(p, h, l) && Same(before, bytes, p, p + PageSize(h.kind))
    ensures Chain(l, before) ==> Chain(l, bytes)
    ensures PageZero(p, h, l, before) ==> PageZero(p, h, l, bytes)
  {
    CapacityInPage(p, h, l);
    hide Geometry, IsBlock, At, ReadWord, NoDup, BlockAddr;
    forall i | 0 <= i < |l|
      ensures p <= l[i] && l[i] + h.blockSize <= p + PageSize(h.kind)
      ensures ReadWord(bytes, l[i]) == ReadWord(before, l[i])
    {
      ListInPage(p, h, l, i);
      ReadElsewhere(before, bytes, l[i]);
    }
  }

  /** A write inside slices of one owner leaves every other page, every other live block and every zero
      slice as it was. */
  lemma OthersKeep(s: State, o: Owner, bytes: map<int, Byte>)
    requires Consistent(s) && o != FreeSlice && OnlyOwned(s.owner, o, s.bytes, bytes)
    ensures ZeroOk(s.zero, bytes)
    ensures forall p :: p in s.pages && PageSlice(p) != o ==>
              Chain(s.lists[p], bytes) && PageZero(p, s.pages[p], s.lists[p], bytes)
    ensures forall a :: a in s.live && s.live[a].align >= 1 && HomeOwner(s, a) != o ==>
              Same(s.bytes, bytes, a, a + Extent(s, a))
  {
    ZeroOthers(s, o, bytes);
    hide Consistent, At, Extent, HomeOwner, Chain, PageZero;
    forall p | p in s.pages && PageSlice(p) != o
      ensures p in s.lists && Chain(s.lists[p], bytes) && PageZero(p, s.pages[p], s.lists[p], bytes)
    {
      PagesOkAt(s, p);
      forall x | p <= x < p + PageSize(s.pages[p].kind) ensures At(bytes, x) == At(s.bytes, x) {
        PageBytesOwnedIn(s, p, x);
      }
      PageUnaffected(p, s.pages[p], s.lists[p], s.bytes, bytes);
    }
    forall a | a in s.live && s.live[a].align >= 1 && HomeOwner(s, a) != o
      ensures Same(s.bytes, bytes, a, a + Extent(s, a))
    {
      forall x | a <= x < a + Extent(s, a) ensures At(bytes, x) == At(s.bytes, x) {
        LiveBytesOwned(s, a, x);
      }
    }
  }

  lemma ZeroOthers(s: State, o: Owner, bytes: map<int, Byte>)
    requires Consistent(s) && o != FreeSlice && OnlyOwned(s.owner, o, s.bytes, bytes)
    ensures ZeroOk(s.zero, bytes)
  {
    hide At;
    assert FreeOwn(s.owner, s.free);
    forall x | x / SLICE_SIZE in s.zero ensures At(bytes, x) == 0 {
      assert x / SLICE_SIZE in s.free;
    }
  }
}
