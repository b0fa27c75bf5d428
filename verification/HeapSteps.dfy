/** The steps the heap takes on its state, each preserving `Consistent` and the contents of every live block
    it is not about. */
module HeapSteps {
  import opened Arithmetic
  import opened Bins
  import opened SliceMaps
  import opened Backend
  import opened Pages
  import opened HeapStates

  /** Bytes `[a, a + live[a].size)` of every block in `live` are the same in both memories. */
  ghost predicate Kept(live: map<int, Layout>, before: map<int, Byte>, bytes: map<int, Byte>) {
    forall a :: a in live ==> Same(before, bytes, a, a + live[a].size)
  }

  lemma KeptTwice(live: map<int, Layout>, b0: map<int, Byte>, b1: map<int, Byte>, b2: map<int, Byte>)
    requires Kept(live, b0, b1) && Kept(live, b1, b2)
    ensures Kept(live, b0, b2)
  {
    hide At;
    forall a | a in live ensures Same(b0, b2, a, a + live[a].size) {
      assert Same(b0, b1, a, a + live[a].size) && Same(b1, b2, a, a + live[a].size);
    }
  }

  lemma KeptSelf(live: map<int, Layout>, b: map<int, Byte>)
    ensures Kept(live, b, b)
  {
  }

  // ---------------------------------------------------------------------------------------------
  // Writing into a live block
  // ---------------------------------------------------------------------------------------------

  /** Only bytes of `[lo, hi)` changed. */
  ghost predicate OnlyIn(before: map<int, Byte>, bytes: map<int, Byte>, lo: int, hi: int) {
    forall x :: !(lo <= x < hi) ==> At(bytes, x) == At(before, x)
  }

  /** Anything may be written into a live block, its whole extent included. */
  lemma WriteInside(s: State, a: int, bytes: map<int, Byte>)
    requires Consistent(s) && a in s.live && s.live[a].align >= 1 && OnlyIn(s.bytes, bytes, a, a + Extent(s, a))
    ensures Consistent(s.(bytes := bytes))
    ensures forall c :: c in s.live && c != a && s.live[c].align >= 1 ==> Same(s.bytes, bytes, c, c + Extent(s, c))
  {
    InsideOwned(s, a, bytes);
    OthersKeep(s, HomeOwner(s, a), bytes);
    if HomeOwner(s, a).PageSlice? {
      OwnPageKeeps(s, a, bytes);
    }
    WriteConsistent(s, a, bytes);
    hide Consistent, Extent, HomeOwner, At;
    forall c | c in s.live && c != a && s.live[c].align >= 1
      ensures Same(s.bytes, bytes, c, c + Extent(s, c))
    {
      LiveBlocksDisjoint(s, a, c);
    }
  }

  lemma InsideOwned(s: State, a: int, bytes: map<int, Byte>)
    requires Consistent(s) && a in s.live && s.live[a].align >= 1 && OnlyIn(s.bytes, bytes, a, a + Extent(s, a))
    ensures OnlyOwned(s.owner, HomeOwner(s, a), s.bytes, bytes)
  {
    hide Consistent, Extent, HomeOwner, At;
    forall x | At(bytes, x) != At(s.bytes, x)
      ensures x / SLICE_SIZE in s.owner && s.owner[x / SLICE_SIZE] == HomeOwner(s, a)
    {
      LiveBytesOwned(s, a, x);
    }
  }

  lemma OwnPageKeeps(s: State, a: int, bytes: map<int, Byte>)
    requires Consistent(s) && a in s.live && s.live[a].align >= 1 && HomeOwner(s, a).PageSlice?
    requires OnlyIn(s.bytes, bytes, a, a + Extent(s, a))
    ensures var p := HomeOwner(s, a).page;
            p in s.pages && p in s.lists && Chain(s.lists[p], bytes) && PageZero(p, s.pages[p], s.lists[p], bytes)
  {
    hide Consistent, IsBlock, At, ReadWord, NoDup, BlockAddr, Geometry, LayoutOk, PageOk, ListOk, LiveBlock;
    HomeAt(s, a);
    var p := HomeOwner(s, a).page;
    var h, l := s.pages[p], s.lists[p];
    PagesOkAt(s, p);
    OwnBlockApart(p, h, l, a);
    forall i | 0 <= i < |l| ensures ReadWord(bytes, l[i]) == ReadWord(s.bytes, l[i]) {
      ReadElsewhere(s.bytes, bytes, l[i]);
    }
  }

  lemma WriteConsistent(s: State, a: int, bytes: map<int, Byte>)
    requires Consistent(s) && a in s.live && s.live[a].align >= 1
    requires ZeroOk(s.zero, bytes)
    requires forall p :: p in s.pages && PageSlice(p) != HomeOwner(s, a) ==>
               p in s.lists && Chain(s.lists[p], bytes) && PageZero(p, s.pages[p], s.lists[p], bytes)
    requires HomeOwner(s, a).PageSlice? ==>
               var p := HomeOwner(s, a).page;
               p in s.pages && p in s.lists && Chain(s.lists[p], bytes) && PageZero(p, s.pages[p], s.lists[p], bytes)
    ensures Consistent(s.(bytes := bytes))
  {
    hide PageOk, Chain, PageZero, BlockHome, LiveBlock, At, HomeOwner, FreeOwn, PagesOwn, RunsOwn, OwnerRange, LiveOk,
         LiveComplete, ZeroOk;
  }

  // ---------------------------------------------------------------------------------------------
  // Replacing one page's header and list
  // ---------------------------------------------------------------------------------------------

  /** Two headers of the same page agree on everything `init` fixed. */
  predicate SamePlace(h: Page, g: Page) {
    && h.kind == g.kind && h.bin == g.bin && h.blockSize == g.blockSize
    && h.blockStart == g.blockStart && h.reserved == g.reserved
  }

  ghost predicate SameRuns(live: map<int, Layout>, after: map<int, Layout>) {
    forall a :: (a in live && IsRun(live[a])) || (a in after && IsRun(after[a])) ==>
      a in live && a in after && live[a] == after[a]
  }

  /** One page's header and list change, with its memory; the caller accounts for the live blocks. */
  lemma ReplacePage(s: State, p: int, h: Page, l: seq<int>, bytes: map<int, Byte>, live: map<int, Layout>)
    requires Consistent(s) && p in s.pages && SamePlace(s.pages[p], h)
    requires PageOk(p, h, l) && Chain(l, bytes) && PageZero(p, h, l, bytes)
    requires OnlyOwned(s.owner, PageSlice(p), s.bytes, bytes)
    requires SameRuns(s.live, live)
    requires LiveOk(live, s.pages[p := h], s.lists[p := l])
    requires LiveComplete(live, s.pages[p := h], s.lists[p := l])
    ensures Consistent(s.(pages := s.pages[p := h], lists := s.lists[p := l], bytes := bytes, live := live))
  {
    OthersKeep(s, PageSlice(p), bytes);
    ReplacedPages(s, p, h, l, bytes);
    ReplacedOwners(s, p, h, live);
    hide PagesOk, ChainsOk, PagesZero, PagesOwn, RunsOwn, LiveOk, LiveComplete, ZeroOk, OwnerRange, FreeOwn;
  }

  lemma ReplacedPages(s: State, p: int, h: Page, l: seq<int>, bytes: map<int, Byte>)
    requires Consistent(s) && p in s.pages && PageOk(p, h, l) && Chain(l, bytes) && PageZero(p, h, l, bytes)
    requires forall q :: q in s.pages && PageSlice(q) != PageSlice(p) ==>
               q in s.lists && Chain(s.lists[q], bytes) && PageZero(q, s.pages[q], s.lists[q], bytes)
    ensures PagesOk(s.pages[p := h], s.lists[p := l]) && ChainsOk(s.lists[p := l], bytes)
    ensures PagesZero(s.pages[p := h], s.lists[p := l], bytes)
  {
    hide Consistent, PageOk, Chain, PageZero, OwnerRange, FreeOwn, PagesOwn, RunsOwn, LiveOk, LiveComplete, ZeroOk;
    Parts(s);
  }

  lemma ReplacedOwners(s: State, p: int, h: Page, live: map<int, Layout>)
    requires Consistent(s) && p in s.pages && SamePlace(s.pages[p], h) && SameRuns(s.live, live)
    ensures PagesOwn(s.owner, s.pages[p := h]) && RunsOwn(s.owner, live)
  {
    hide Consistent, IsRun, InPage, InRun, PagesOk, ChainsOk, OwnerRange, FreeOwn, LiveOk, LiveComplete, ZeroOk,
         PagesZero;
    Parts(s);
    var pages := s.pages[p := h];
    forall q, t | q in pages && InPage(q, pages[q].kind, t) ensures t in s.owner && s.owner[t] == PageSlice(q) {
      assert pages[q].kind == s.pages[q].kind;
    }
  }

  // ---------------------------------------------------------------------------------------------
  // Handing out the head of a free list
  // ---------------------------------------------------------------------------------------------

  ghost function Taken(s: State, p: int, l: Layout): State
    requires p in s.pages && p in s.lists && s.lists[p] != []
  {
    var a, rest := s.lists[p][0], s.lists[p][1..];
    s.(pages := s.pages[p := Popped(s.pages[p], Head(rest))], lists := s.lists[p := rest], live := s.live[a := l])
  }

  /** The head block is nobody's: no caller holds its address. */
  lemma HeadIsFresh(s: State, p: int, i: int)
    requires Consistent(s) && p in s.pages && p in s.lists && 0 <= i < |s.lists[p]|
    ensures s.lists[p][i] !in s.live
  {
    var a := s.lists[p][i];
    PagesOkAt(s, p);
    ListInPage(p, s.pages[p], s.lists[p], i);
    PageBytesOwned(s, p, a);
    if a in s.live {
      assert BlockHome(a, s.live[a], s.pages, s.lists);
      ExtentCovers(s, a);
      LiveBytesOwned(s, a, a);
    }
  }

  /** Handing out the head of the list of a page of the request's own bin keeps the invariant, and the
      block is new to the callers. */
  lemma TakeStep(s: State, p: int, l: Layout)
    requires Consistent(s) && p in s.pages && p in s.lists && s.lists[p] != []
    requires LayoutOk(l) && Classify(l) == Bin(s.pages[p].bin)
    ensures Consistent(Taken(s, p, l))
    ensures s.lists[p][0] !in s.live
    ensures Kept(s.live, s.bytes, Taken(s, p, l).bytes)
  {
    hide Consistent, PageOk, Geometry, ListOk, Chain, PageZero, LiveBlock, LiveOk, LiveComplete, At, BlockHome,
         LayoutOk;
    var a, rest := s.lists[p][0], s.lists[p][1..];
    var h, g := s.pages[p], Popped(s.pages[p], Head(rest));
    PagesOkAt(s, p);
    PopKeeps(p, h, s.lists[p], s.bytes);
    HeadIsFresh(s, p, 0);
    TakeHome(s, p, l);
    LayoutOkAlign(l);
    TakeLive(s, p, l);
    assert SameRuns(s.live, s.live[a := l]);
    ReplacePage(s, p, g, rest, s.bytes, s.live[a := l]);
  }

  /** A block of a page is aligned for every request its bin serves, and masks back to the page. */
  lemma TakeHome(s: State, p: int, l: Layout)
    requires Consistent(s) && p in s.pages && p in s.lists && s.lists[p] != []
    requires LayoutOk(l) && Classify(l) == Bin(s.pages[p].bin)
    ensures var rest := s.lists[p][1..];
            BlockHome(s.lists[p][0], l, s.pages[p := Popped(s.pages[p], Head(rest))], s.lists[p := rest])
  {
    var a, rest, h := s.lists[p][0], s.lists[p][1..], s.pages[p];
    PagesOkAt(s, p);
    PopKeeps(p, h, s.lists[p], s.bytes);
    BlockInPage(p, h, h.capacity, a);
    ClassifyAligns(l);
    AlignedBlock(p, h, h.capacity, a, l.align);
    hide BinSize, BlockStart, BlocksPerPage, IsBlock, LayoutOk;
  }

  lemma AlignedBlock(p: int, h: Page, n: int, a: int, align: nat)
    requires Geometry(p, h) && IsBlock(p, h, n, a) && 1 <= align <= MAX_NATURAL_ALIGN && IsPow2(align)
    requires h.blockSize % align == 0 && h.blockStart % align == 0
    ensures a % align == 0
  {
    var i := BlockIndex(p, h, n, a);
    SliceIsAligned(align, PageSize(h.kind));
    hide BinSize, BlockStart, BlocksPerPage, IsPow2;
    DividesTrans(p, PageSize(h.kind), align);
    DividesMul(h.blockSize, i, align);
    DividesSum(p, h.blockStart, align);
    DividesSum(p + h.blockStart, i * h.blockSize, align);
  }

  lemma SliceIsAligned(align: nat, size: nat)
    requires IsPow2(align) && align <= SLICE_SIZE && size % SLICE_SIZE == 0
    ensures size % align == 0
  {
    assert IsPow2(SLICE_SIZE) by {
      Pow2IsPow2(16);
      assert Pow2(4) == 16;
      assert Pow2(8) == 16 * Pow2(4);
      assert Pow2(12) == 16 * Pow2(8);
      assert Pow2(16) == 16 * Pow2(12);
    }
    hide IsPow2;
    Pow2Divides(align, SLICE_SIZE);
    DividesTrans(size, SLICE_SIZE, align);
  }

  lemma TakeLive(s: State, p: int, l: Layout)
    requires Consistent(s) && p in s.pages && p in s.lists && s.lists[p] != []
    requires LayoutOk(l) && Classify(l) == Bin(s.pages[p].bin)
    ensures var t := Taken(s, p, l);
            LiveOk(t.live, t.pages, t.lists) && LiveComplete(t.live, t.pages, t.lists)
  {
    hide Consistent, IsBlock, LayoutOk, PagesOk, OwnerRange, FreeOwn, PagesOwn, RunsOwn, ZeroOk, PagesZero, ChainsOk;
    var t := Taken(s, p, l);
    var a := s.lists[p][0];
    TakeHome(s, p, l);
    SameBlocks(p, s.pages[p], t.pages[p]);
    Parts(s);
    forall c | c in t.live ensures BlockHome(c, t.live[c], t.pages, t.lists) {
      if c != a { assert BlockHome(c, s.live[c], s.pages, s.lists); }
    }
    forall q, x | q in t.pages && q in t.lists && LiveBlock(q, t.pages[q], t.lists[q], x)
      ensures x in t.live && !IsRun(t.live[x])
    {
      if x != a {
        assert q == p ==> x !in s.lists[p] by { if q == p { assert s.lists[p] == [a] + t.lists[p]; } }
        assert LiveBlock(q, s.pages[q], s.lists[q], x);
      }
    }
  }

  // ---------------------------------------------------------------------------------------------
  // Returning a block
  // ---------------------------------------------------------------------------------------------

  ghost predicate Binned(s: State, a: int) {
    a in s.live && s.live[a].align >= 1 && Classify(s.live[a]).Bin?
  }

  /** What the invariant says about a live binned block and its page. */
  lemma BinnedHome(s: State, a: int)
    requires Consistent(s) && Binned(s, a)
    ensures var p := Home(a, s.live[a]);
            && p in s.pages && p in s.lists && LiveBlock(p, s.pages[p], s.lists[p], a)
            && PageOk(p, s.pages[p], s.lists[p]) && Chain(s.lists[p], s.bytes)
            && 0 <= Head(s.lists[p]) <= USIZE_MAX
            && s.pages[p].kind == KindOfBin(Classify(s.live[a]).bin) && Classify(s.live[a]).bin <= s.pages[p].bin
            && s.pages[p].used >= 1
  {
    assert BlockHome(a, s.live[a], s.pages, s.lists);
    var p := Home(a, s.live[a]);
    PagesOkAt(s, p);
    hide Consistent, BlockHome, IsBlock, Geometry, LayoutOk, NoDup;
    HeadIsAddress(p, s.pages[p], s.lists[p]);
    LiveIsUsed(p, s.pages[p], s.lists[p], a);
  }

  ghost function Returned(s: State, a: int): State
    requires Consistent(s) && Binned(s, a)
  {
    BinnedHome(s, a);
    var p := Home(a, s.live[a]);
    var l := s.lists[p];
    s.(pages := s.pages[p := Pushed(s.pages[p], a)], lists := s.lists[p := [a] + l],
       bytes := WriteWord(s.bytes, a, Head(l)), live := s.live - {a})
  }

  /** Pushing a live block back keeps the invariant and every other block's contents. */
  lemma ReturnStep(s: State, a: int)
    requires Consistent(s) && Binned(s, a)
    ensures Consistent(Returned(s, a))
    ensures Kept(s.live - {a}, s.bytes, Returned(s, a).bytes)
  {
    BinnedHome(s, a);
    var p := Home(a, s.live[a]);
    var h, l, t := s.pages[p], s.lists[p], Returned(s, a);
    PushKeeps(p, h, l, s.bytes, a);
    ReturnLive(s, a);
    ReturnWrite(s, a);
    ReturnRuns(s, a);
    hide Consistent, PageOk, Chain, LiveOk, LiveComplete, At, WriteWord, LiveBlock, Kept, OnlyOwned, SameRuns;
    assert PageZero(p, Pushed(h, a), [a] + l, t.bytes);
    ReplacePage(s, p, Pushed(h, a), [a] + l, t.bytes, t.live);
  }

  lemma ReturnRuns(s: State, a: int)
    requires Binned(s, a)
    ensures SameRuns(s.live, s.live - {a})
  {
  }

  lemma ReturnWrite(s: State, a: int)
    requires Consistent(s) && Binned(s, a)
    ensures OnlyOwned(s.owner, PageSlice(Home(a, s.live[a])), s.bytes, Returned(s, a).bytes)
    ensures Kept(s.live - {a}, s.bytes, Returned(s, a).bytes)
  {
    var bytes := Returned(s, a).bytes;
    ExtentCovers(s, a);
    assert OnlyIn(s.bytes, bytes, a, a + Extent(s, a)) by { BinnedHome(s, a); hide At, WriteWord; }
    WriteInside(s, a, bytes);
    InsideOwned(s, a, bytes);
    KeptOthers(s, a, bytes);
  }

  /** Contents kept over whole extents are kept over Layouts. */
  lemma KeptOthers(s: State, a: int, bytes: map<int, Byte>)
    requires Consistent(s)
    requires forall c :: c in s.live && c != a && s.live[c].align >= 1 ==> Same(s.bytes, bytes, c, c + Extent(s, c))
    ensures Kept(s.live - {a}, s.bytes, bytes)
  {
    hide Consistent, Extent, At, LayoutOk;
    forall c | c in s.live - {a} ensures Same(s.bytes, bytes, c, c + s.live[c].size) {
      ExtentCovers(s, c);
      LayoutOkAlign(s.live[c]);
      assert Same(s.bytes, bytes, c, c + Extent(s, c));
    }
  }

  lemma ReturnLive(s: State, a: int)
    requires Consistent(s) && Binned(s, a)
    ensures var t := Returned(s, a);
            LiveOk(t.live, t.pages, t.lists) && LiveComplete(t.live, t.pages, t.lists)
  {
    hide Returned, Consistent, BlockHome, LiveBlock, Binned, IsRun;
    var t := Returned(s, a);
    forall c | c in t.live ensures BlockHome(c, t.live[c], t.pages, t.lists) { ReturnHome(s, a, c); }
    forall q, x | q in t.pages && q in t.lists && LiveBlock(q, t.pages[q], t.lists[q], x)
      ensures x in t.live && !IsRun(t.live[x])
    {
      ReturnComplete(s, a, q, x);
    }
  }

  lemma ReturnHome(s: State, a: int, c: int)
    requires Consistent(s) && Binned(s, a) && c in Returned(s, a).live
    ensures var t := Returned(s, a); BlockHome(c, t.live[c], t.pages, t.lists)
  {
    hide IsBlock, LayoutOk, PageOk, WriteWord, Consistent, Chain, LiveOk;
    var t := Returned(s, a);
    var p := Home(a, s.live[a]);
    BinnedHome(s, a);
    SameBlocks(p, s.pages[p], t.pages[p]);
    HomeAt(s, c);
  }

  lemma ReturnComplete(s: State, a: int, q: int, x: int)
    requires Consistent(s) && Binned(s, a)
    requires var t := Returned(s, a); q in t.pages && q in t.lists && LiveBlock(q, t.pages[q], t.lists[q], x)
    ensures var t := Returned(s, a); x in t.live && !IsRun(t.live[x])
  {
    hide IsBlock, LayoutOk, PageOk, WriteWord, Consistent, Chain, Classify;
    var t := Returned(s, a);
    var p := Home(a, s.live[a]);
    BinnedHome(s, a);
    SameBlocks(p, s.pages[p], t.pages[p]);
    if q != p {
      BlockOfOneHome(s, a, p, q, x);
    } else {
      assert t.lists[p] == [a] + s.lists[p];
    }
    CompleteAt(s, q, x);
  }

  lemma CompleteAt(s: State, q: int, x: int)
    requires Consistent(s) && q in s.pages && q in s.lists && LiveBlock(q, s.pages[q], s.lists[q], x)
    ensures x in s.live && !IsRun(s.live[x])
  {
  }

  /** A live block of another page is another block. */
  lemma BlockOfOneHome(s: State, a: int, p: int, q: int, x: int)
    requires Consistent(s) && Binned(s, a) && p == Home(a, s.live[a]) && q in s.pages && q in s.lists && q != p
    requires LiveBlock(q, s.pages[q], s.lists[q], x)
    ensures x != a
  {
    BinnedHome(s, a);
    PagesOkAt(s, q);
    BlockInPage(q, s.pages[q], s.pages[q].capacity, x);
    BlockInPage(p, s.pages[p], s.pages[p].capacity, a);
    hide Consistent, Geometry, IsBlock;
    PageBytesOwnedIn(s, q, x);
    PageBytesOwnedIn(s, p, a);
  }

  // ---------------------------------------------------------------------------------------------
  // Extending a page's list
  // ---------------------------------------------------------------------------------------------

  ghost function Stretched(s: State, p: int, bytes: map<int, Byte>): State
    requires p in s.pages && p in s.lists && s.pages[p].capacity < s.pages[p].reserved
  {
    s.(pages := s.pages[p := ExtendedPage(p, s.pages[p])],
       lists := s.lists[p := ExtendedList(p, s.pages[p], s.lists[p])], bytes := bytes)
  }

  /** Linking never-used blocks keeps the invariant and every live block's contents. */
  lemma StretchStep(s: State, p: int, bytes: map<int, Byte>)
    requires Consistent(s) && p in s.pages && p in s.lists && s.pages[p].capacity < s.pages[p].reserved
    requires LinksWritten(p, s.pages[p], s.lists[p], s.bytes, bytes)
    ensures Consistent(Stretched(s, p, bytes))
    ensures Kept(s.live, s.bytes, bytes)
  {
    var h, l := s.pages[p], s.lists[p];
    PagesOkAt(s, p);
    ExtendedOk(p, h, l);
    ExtendedChain(p, h, l, s.bytes, bytes);
    ExtendedZero(p, h, l, s.bytes, bytes);
    StretchOwned(s, p, bytes);
    StretchLive(s, p, bytes);
    StretchKept(s, p, bytes);
    hide Consistent, PageOk, Chain, PageZero, LiveOk, LiveComplete, At, Kept, LinksWritten, ExtendedPage,
         ExtendedList;
    assert SamePlace(h, ExtendedPage(p, h)) by { ExtendedPlace(p, h); }
    ReplacePage(s, p, ExtendedPage(p, h), ExtendedList(p, h, l), bytes, s.live);
  }

  lemma ExtendedPlace(p: int, h: Page)
    ensures SamePlace(h, ExtendedPage(p, h))
  {
  }

  lemma StretchOwned(s: State, p: int, bytes: map<int, Byte>)
    requires Consistent(s) && p in s.pages && p in s.lists && s.pages[p].capacity < s.pages[p].reserved
    requires LinksWritten(p, s.pages[p], s.lists[p], s.bytes, bytes)
    ensures OnlyOwned(s.owner, PageSlice(p), s.bytes, bytes)
  {
    hide Consistent, PageOk, Geometry, ListOk, ExtendCount, BlockAddr, At, ReadWord, LinksTo;
    var h := s.pages[p];
    PagesOkAt(s, p);
    ExtendPositive(h);
    AreaInPage(p, h);
    CapacityInPage(p, h, s.lists[p]);
    if h.capacity + ExtendCount(h) < h.reserved { BlockOrder(p, h, h.capacity + ExtendCount(h), h.reserved); }
    forall x | At(bytes, x) != At(s.bytes, x)
      ensures x / SLICE_SIZE in s.owner && s.owner[x / SLICE_SIZE] == PageSlice(p)
    {
      PageBytesOwnedIn(s, p, x);
    }
  }

  lemma StretchLive(s: State, p: int, bytes: map<int, Byte>)
    requires Consistent(s) && p in s.pages && p in s.lists && s.pages[p].capacity < s.pages[p].reserved
    ensures var t := Stretched(s, p, bytes);
            LiveOk(s.live, t.pages, t.lists) && LiveComplete(s.live, t.pages, t.lists)
  {
    hide Consistent, LiveBlock, LayoutOk, PageOk, Geometry, ListOk, Chain, PageZero, PagesOk, OwnerRange, FreeOwn,
         PagesOwn, RunsOwn, ZeroOk, PagesZero, ChainsOk, ExtendedPage, ExtendedList;
    var t := Stretched(s, p, bytes);
    PagesOkAt(s, p);
    ExtendedPlace(p, s.pages[p]);
    forall x ensures LiveBlock(p, t.pages[p], t.lists[p], x) <==> LiveBlock(p, s.pages[p], s.lists[p], x) {
      StretchedBlocks(p, s.pages[p], s.lists[p], x);
    }
    Parts(s);
    forall c | c in s.live ensures BlockHome(c, s.live[c], t.pages, t.lists) {
      assert BlockHome(c, s.live[c], s.pages, s.lists);
    }
  }

  lemma StretchKept(s: State, p: int, bytes: map<int, Byte>)
    requires Consistent(s) && p in s.pages && p in s.lists && s.pages[p].capacity < s.pages[p].reserved
    requires LinksWritten(p, s.pages[p], s.lists[p], s.bytes, bytes)
    ensures Kept(s.live, s.bytes, bytes)
  {
    hide Consistent, Extent, At, LayoutOk, LinksWritten, ReadWord, Chain, PageZero, ExtendCount, PageOk, Classify;
    StretchOwned(s, p, bytes);
    OthersKeep(s, PageSlice(p), bytes);
    forall c | c in s.live ensures Same(s.bytes, bytes, c, c + s.live[c].size) {
      ExtentCovers(s, c);
      LayoutOkAlign(s.live[c]);
      if HomeOwner(s, c) == PageSlice(p) {
        StretchKeptHere(s, p, bytes, c);
      } else {
        assert Same(s.bytes, bytes, c, c + Extent(s, c));
      }
    }
  }

  lemma StretchKeptHere(s: State, p: int, bytes: map<int, Byte>, c: int)
    requires Consistent(s) && p in s.pages && p in s.lists && s.pages[p].capacity < s.pages[p].reserved
    requires LinksWritten(p, s.pages[p], s.lists[p], s.bytes, bytes)
    requires c in s.live && s.live[c].align >= 1 && HomeOwner(s, c) == PageSlice(p)
    ensures Same(s.bytes, bytes, c, c + s.live[c].size)
  {
    hide Consistent, At, LayoutOk, ReadWord, Chain, PageZero, BlockAddr, ExtendCount, IsBlock, PageOk;
    ExtentCovers(s, c);
    BinnedHome(s, c);
    OwnBlockApart(p, s.pages[p], s.lists[p], c);
  }
}
