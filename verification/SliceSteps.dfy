/** The steps that move whole slices between the map, pages and runs. Each keeps `Consistent`, so no step
    loses or duplicates a slice: a slice has exactly one owner before and after. */
module SliceSteps {
  import opened Arithmetic
  import opened Bins
  import opened SliceMaps
  import opened Backend
  import opened Pages
  import opened HeapStates
  import opened HeapSteps

  /** The slices `[lo, lo + n)` change hands. */
  function SetOwner(owner: map<int, Owner>, lo: int, n: int, o: Owner): (r: map<int, Owner>)
    ensures r.Keys == owner.Keys
  {
    map t | t in owner :: if Within(t, lo, n) then o else owner[t]
  }

  // ---------------------------------------------------------------------------------------------
  // Owners
  // ---------------------------------------------------------------------------------------------

  lemma ClaimOwn(owner: map<int, Owner>, free: set<int>, lo: int, n: int, o: Owner)
    requires FreeOwn(owner, free) && OwnerRange(owner) && Range(lo, n) <= free && o != FreeSlice
    ensures FreeOwn(SetOwner(owner, lo, n, o), free - Range(lo, n)) && OwnerRange(SetOwner(owner, lo, n, o))
  {
  }

  lemma ReleaseOwn(owner: map<int, Owner>, free: set<int>, lo: int, n: int)
    requires FreeOwn(owner, free) && OwnerRange(owner) && Range(lo, n) <= owner.Keys
    ensures FreeOwn(SetOwner(owner, lo, n, FreeSlice), free + Range(lo, n))
    ensures OwnerRange(SetOwner(owner, lo, n, FreeSlice))
  {
  }

  /** Pages do not notice slices that are not theirs changing hands, and the same for runs. */
  lemma PagesKeepOwn(owner: map<int, Owner>, pages: map<int, Page>, lo: int, n: int, o: Owner)
    requires PagesOwn(owner, pages) && !o.PageSlice?
    requires forall t :: t in owner && Within(t, lo, n) ==> !owner[t].PageSlice?
    ensures PagesOwn(SetOwner(owner, lo, n, o), pages)
  {
    hide InPage;
  }

  lemma RunsKeepOwn(owner: map<int, Owner>, live: map<int, Layout>, lo: int, n: int, o: Owner)
    requires RunsOwn(owner, live) && !o.RunSlice?
    requires forall t :: t in owner && Within(t, lo, n) ==> !owner[t].RunSlice?
    ensures RunsOwn(SetOwner(owner, lo, n, o), live)
  {
    hide InRun, IsRun;
  }

  lemma FreeAreFree(s: State, lo: int, n: int)
    requires Consistent(s) && Range(lo, n) <= s.free
    ensures forall t :: Within(t, lo, n) ==> t in s.owner && s.owner[t] == FreeSlice && 1 <= t < MAX_SLICE_INDEX
  {
    assert FreeOwn(s.owner, s.free) && OwnerRange(s.owner);
    hide Consistent;
    forall t | Within(t, lo, n) ensures t in s.free { assert t in Range(lo, n); }
  }

  /** The parts of the invariant that are not about owners, gathered so that a step can hand them on. */
  lemma Assemble(s: State)
    requires PagesOk(s.pages, s.lists) && ChainsOk(s.lists, s.bytes) && OwnerRange(s.owner)
    requires FreeOwn(s.owner, s.free) && PagesOwn(s.owner, s.pages) && RunsOwn(s.owner, s.live)
    requires LiveOk(s.live, s.pages, s.lists) && LiveComplete(s.live, s.pages, s.lists)
    requires s.zero <= s.free && ZeroOk(s.zero, s.bytes) && PagesZero(s.pages, s.lists, s.bytes)
    ensures Consistent(s)
  {
  }

  lemma ZeroFewer(zero: set<int>, gone: set<int>, bytes: map<int, Byte>)
    requires ZeroOk(zero, bytes)
    ensures ZeroOk(zero - gone, bytes)
  {
    hide At;
  }

  // ---------------------------------------------------------------------------------------------
  // A fresh page
  // ---------------------------------------------------------------------------------------------

  ghost function PageAdded(s: State, p: int, bin: nat, zeroed: bool): State
    requires bin >= 1
  {
    var kind := KindOfBin(bin);
    var lo, n := p / SLICE_SIZE, PageSlices(kind);
    s.(pages := s.pages[p := FreshPage(kind, bin, zeroed)], lists := s.lists[p := []],
       owner := SetOwner(s.owner, lo, n, PageSlice(p)), free := s.free - Range(lo, n), zero := s.zero - Range(lo, n))
  }

  /** `p` starts `bin`'s page size worth of free slices, aligned to that size. */
  ghost predicate PageRoom(s: State, p: int, bin: nat, zeroed: bool) {
    && 1 <= bin <= MAX_BINNED_BIN && p % PageSize(KindOfBin(bin)) == 0
    && Range(p / SLICE_SIZE, PageSlices(KindOfBin(bin))) <= s.free
    && (zeroed ==> Range(p / SLICE_SIZE, PageSlices(KindOfBin(bin))) <= s.zero)
  }

  lemma PageAddedStep(s: State, p: int, bin: nat, zeroed: bool)
    requires Consistent(s) && PageRoom(s, p, bin, zeroed)
    ensures Consistent(PageAdded(s, p, bin, zeroed))
    ensures p !in s.pages && p > 0 && p + PageSize(KindOfBin(bin)) <= USIZE_MAX
  {
    var t := PageAdded(s, p, bin, zeroed);
    var lo, n := p / SLICE_SIZE, PageSlices(KindOfBin(bin));
    FreshHeader(s, p, bin, zeroed);
    FreeAreFree(s, lo, n);
    Parts(s);
    hide Consistent, FreshPage;
    ClaimOwn(s.owner, s.free, lo, n, PageSlice(p));
    RunsKeepOwn(s.owner, s.live, lo, n, PageSlice(p));
    ZeroFewer(s.zero, Range(lo, n), s.bytes);
    AddedPages(s, p, bin, zeroed);
    AddedOwn(s, p, bin, zeroed);
    AddedLive(s, p, bin, zeroed);
    hide PagesOk, ChainsOk, OwnerRange, FreeOwn, PagesOwn, RunsOwn, LiveOk, LiveComplete, ZeroOk, PagesZero, SetOwner;
    Assemble(t);
  }

  lemma FreshHeader(s: State, p: int, bin: nat, zeroed: bool)
    requires Consistent(s) && PageRoom(s, p, bin, zeroed)
    ensures var h := FreshPage(KindOfBin(bin), bin, zeroed);
            && PageOk(p, h, []) && Chain([], s.bytes) && PageZero(p, h, [], s.bytes)
            && h.kind == KindOfBin(bin) && h.capacity == 0
    ensures p !in s.pages && p > 0 && p + PageSize(KindOfBin(bin)) <= USIZE_MAX
  {
    var kind := KindOfBin(bin);
    RoomIsNew(s, p, bin, zeroed);
    if zeroed { RoomIsZero(s, p, bin); }
    InitOk(p, kind, bin, zeroed, s.bytes);
    FreshPageFields(kind, bin, zeroed);
  }

  lemma RoomIsNew(s: State, p: int, bin: nat, zeroed: bool)
    requires Consistent(s) && PageRoom(s, p, bin, zeroed)
    ensures p !in s.pages && p > 0 && p + PageSize(KindOfBin(bin)) <= USIZE_MAX && p == (p / SLICE_SIZE) * SLICE_SIZE
  {
    hide Consistent, KindOfBin, Range, PagesOk, ChainsOk, FreeOwn, RunsOwn, LiveOk, LiveComplete, ZeroOk, PagesZero;
    var kind := KindOfBin(bin);
    var lo, n := p / SLICE_SIZE, PageSlices(kind);
    FreeAreFree(s, lo, n);
    Parts(s);
    SliceOfPage(p, kind);
    assert Within(lo, lo, n) && Within(lo + n - 1, lo, n);
    assert forall k :: InPage(p, k, lo);
  }

  lemma SliceOfPage(p: int, kind: PageKind)
    requires p % PageSize(kind) == 0
    ensures p == (p / SLICE_SIZE) * SLICE_SIZE && p + PageSize(kind) == (p / SLICE_SIZE + PageSlices(kind)) * SLICE_SIZE
  {
    DividesTrans(p, PageSize(kind), SLICE_SIZE);
  }

  lemma RoomIsZero(s: State, p: int, bin: nat)
    requires Consistent(s) && PageRoom(s, p, bin, true)
    ensures forall x :: p <= x < p + PageSize(KindOfBin(bin)) ==> At(s.bytes, x) == 0
  {
    var lo, n := p / SLICE_SIZE, PageSlices(KindOfBin(bin));
    RoomIsNew(s, p, bin, true);
    Parts(s);
    hide Consistent, At;
    forall x | p <= x < p + PageSize(KindOfBin(bin)) ensures At(s.bytes, x) == 0 {
      assert Within(x / SLICE_SIZE, lo, n);
      assert x / SLICE_SIZE in Range(lo, n);
    }
  }

  lemma FreshPageFields(kind: PageKind, bin: nat, zeroed: bool)
    requires bin >= 1
    ensures FreshPage(kind, bin, zeroed).kind == kind && FreshPage(kind, bin, zeroed).capacity == 0
    ensures FreshPage(kind, bin, zeroed).bin == bin && FreshPage(kind, bin, zeroed).used == 0
  {
  }

  lemma AddedPages(s: State, p: int, bin: nat, zeroed: bool)
    requires bin >= 1 && PagesOk(s.pages, s.lists) && ChainsOk(s.lists, s.bytes) && PagesZero(s.pages, s.lists, s.bytes)
    requires var h := FreshPage(KindOfBin(bin), bin, zeroed);
             PageOk(p, h, []) && Chain([], s.bytes) && PageZero(p, h, [], s.bytes)
    ensures var t := PageAdded(s, p, bin, zeroed);
            PagesOk(t.pages, t.lists) && ChainsOk(t.lists, t.bytes) && PagesZero(t.pages, t.lists, t.bytes)
  {
    hide PageOk, Chain, PageZero, FreshPage;
  }

  lemma AddedOwn(s: State, p: int, bin: nat, zeroed: bool)
    requires bin >= 1 && PagesOwn(s.owner, s.pages) && p !in s.pages
    requires FreshPage(KindOfBin(bin), bin, zeroed).kind == KindOfBin(bin)
    requires forall t :: Within(t, p / SLICE_SIZE, PageSlices(KindOfBin(bin))) ==>
              t in s.owner && s.owner[t] == FreeSlice
    ensures var t := PageAdded(s, p, bin, zeroed); PagesOwn(t.owner, t.pages)
  {
    hide FreshPage, KindOfBin;
    var t := PageAdded(s, p, bin, zeroed);
    forall q, x | q in t.pages && InPage(q, t.pages[q].kind, x)
      ensures x in t.owner && t.owner[x] == PageSlice(q)
    {
      if q == p { assert Within(x, p / SLICE_SIZE, PageSlices(KindOfBin(bin))); }
    }
  }

  lemma AddedLive(s: State, p: int, bin: nat, zeroed: bool)
    requires bin >= 1 && LiveOk(s.live, s.pages, s.lists) && LiveComplete(s.live, s.pages, s.lists) && p !in s.pages
    requires FreshPage(KindOfBin(bin), bin, zeroed).capacity == 0
    ensures var t := PageAdded(s, p, bin, zeroed);
            LiveOk(t.live, t.pages, t.lists) && LiveComplete(t.live, t.pages, t.lists)
  {
    var t := PageAdded(s, p, bin, zeroed);
    var h := FreshPage(KindOfBin(bin), bin, zeroed);
    NoBlocks(p, h);
    hide FreshPage, IsBlock, LayoutOk;
    forall c | c in s.live ensures BlockHome(c, t.live[c], t.pages, t.lists) {
      assert BlockHome(c, s.live[c], s.pages, s.lists);
    }
    forall q, x | q in t.pages && q in t.lists && LiveBlock(q, t.pages[q], t.lists[q], x)
      ensures x in t.live && !IsRun(t.live[x])
    {
      assert q != p;
      assert LiveBlock(q, s.pages[q], s.lists[q], x);
    }
  }

  lemma NoBlocks(p: int, h: Page)
    requires h.capacity == 0
    ensures forall a :: !IsBlock(p, h, h.capacity, a)
  {
    forall a ensures !IsBlock(p, h, 0, a) {
      if h.blockSize >= 1 && a - p - h.blockStart >= 0 {
        QuotientNonNegative(a - p - h.blockStart, h.blockSize);
      }
    }
  }

  lemma QuotientNonNegative(x: int, d: int)
    requires x >= 0 && d >= 1
    ensures x / d >= 0
  {
  }

  // ---------------------------------------------------------------------------------------------
  // An empty page released
  // ---------------------------------------------------------------------------------------------

  ghost function PageDropped(s: State, p: int): State
    requires p in s.pages
  {
    var lo, n := p / SLICE_SIZE, PageSlices(s.pages[p].kind);
    s.(pages := s.pages - {p}, lists := s.lists - {p}, owner := SetOwner(s.owner, lo, n, FreeSlice),
       free := s.free + Range(lo, n))
  }

  /** Releasing a page with no live block keeps the invariant; its slices, dirty now, are free again. */
  lemma PageDroppedStep(s: State, p: int)
    requires Consistent(s) && p in s.pages && s.pages[p].used == 0
    ensures Consistent(PageDropped(s, p))
    ensures var lo, n := p / SLICE_SIZE, PageSlices(s.pages[p].kind);
            Range(lo, n) <= s.owner.Keys && Range(lo, n) !! s.free && p == lo * SLICE_SIZE
  {
    hide Consistent, Geometry, ListOk, PageOk, Chain, PageZero, LiveOk, LiveComplete, ZeroOk, PagesOk, ChainsOk,
         OwnerRange, PagesOwn, RunsOwn, PagesZero, SetOwner;
    var t := PageDropped(s, p);
    var lo, n := p / SLICE_SIZE, PageSlices(s.pages[p].kind);
    PagesOkAt(s, p);
    AreaInPage(p, s.pages[p]);
    Parts(s);
    DroppedLive(s, p);
    PageOwns(s, p);
    ReleaseOwn(s.owner, s.free, lo, n);
    DroppedOwn(s, p);
    RunsKeepDropped(s, p, lo, n);
    DroppedPages(s, p);
    Assemble(t);
  }

  lemma PageOwns(s: State, p: int)
    requires Consistent(s) && p in s.pages && p % PageSize(s.pages[p].kind) == 0
    ensures var lo, n := p / SLICE_SIZE, PageSlices(s.pages[p].kind);
            && p == lo * SLICE_SIZE && Range(lo, n) <= s.owner.Keys && Range(lo, n) !! s.free
            && forall x :: x in Range(lo, n) ==> x in s.owner && s.owner[x] == PageSlice(p)
  {
    hide Consistent, PagesOk, ChainsOk, OwnerRange, RunsOwn, LiveOk, LiveComplete, ZeroOk, PagesZero;
    Parts(s);
    SliceOfPage(p, s.pages[p].kind);
    forall x | x in Range(p / SLICE_SIZE, PageSlices(s.pages[p].kind))
      ensures x in s.owner && s.owner[x] == PageSlice(p)
    {
      assert InPage(p, s.pages[p].kind, x);
    }
  }

  lemma RunsKeepDropped(s: State, p: int, lo: int, n: int)
    requires RunsOwn(s.owner, s.live) && forall x :: x in Range(lo, n) ==> x in s.owner && s.owner[x] == PageSlice(p)
    ensures RunsOwn(SetOwner(s.owner, lo, n, FreeSlice), s.live)
  {
    forall x | x in s.owner && Within(x, lo, n) ensures !s.owner[x].RunSlice? { assert x in Range(lo, n); }
    RunsKeepOwn(s.owner, s.live, lo, n, FreeSlice);
  }

  lemma DroppedPages(s: State, p: int)
    requires p in s.pages && PagesOk(s.pages, s.lists) && ChainsOk(s.lists, s.bytes)
    requires PagesZero(s.pages, s.lists, s.bytes)
    ensures var t := PageDropped(s, p);
            PagesOk(t.pages, t.lists) && ChainsOk(t.lists, t.bytes) && PagesZero(t.pages, t.lists, t.bytes)
  {
    hide PageOk, Chain, PageZero;
  }

  lemma DroppedOwn(s: State, p: int)
    requires p in s.pages && PagesOwn(s.owner, s.pages)
    ensures var t := PageDropped(s, p); PagesOwn(t.owner, t.pages)
  {
    var t := PageDropped(s, p);
    forall q, x | q in t.pages && InPage(q, t.pages[q].kind, x)
      ensures x in t.owner && t.owner[x] == PageSlice(q)
    {
      assert s.owner[x] == PageSlice(q);
      assert !InPage(p, s.pages[p].kind, x);
    }
  }

  lemma DroppedLive(s: State, p: int)
    requires Consistent(s) && p in s.pages && s.pages[p].used == 0
    ensures var t := PageDropped(s, p);
            LiveOk(t.live, t.pages, t.lists) && LiveComplete(t.live, t.pages, t.lists)
  {
    hide Consistent, LayoutOk, IsBlock, PagesOk, ChainsOk, OwnerRange, FreeOwn, PagesOwn, RunsOwn, ZeroOk, PagesZero;
    var t := PageDropped(s, p);
    Parts(s);
    forall c | c in s.live ensures BlockHome(c, t.live[c], t.pages, t.lists) {
      assert BlockHome(c, s.live[c], s.pages, s.lists);
      LayoutOkAlign(s.live[c]);
      if Classify(s.live[c]).Bin? { BinnedHome(s, c); }
    }
    forall q, x | q in t.pages && q in t.lists && LiveBlock(q, t.pages[q], t.lists[q], x)
      ensures x in t.live && !IsRun(t.live[x])
    {
      assert LiveBlock(q, s.pages[q], s.lists[q], x);
    }
  }

  // ---------------------------------------------------------------------------------------------
  // Runs
  // ---------------------------------------------------------------------------------------------

  /** A binned block and a run never start in the same slice; nobody holds an address in a free slice. */
  lemma FreeSliceNotLive(s: State, a: int)
    requires Consistent(s) && a / SLICE_SIZE in s.free
    ensures a !in s.live
  {
    hide Consistent, Extent, LayoutOk, Classify;
    FreeAreFree(s, a / SLICE_SIZE, 1);
    assert Within(a / SLICE_SIZE, a / SLICE_SIZE, 1);
    if a in s.live {
      ExtentCovers(s, a);
      LayoutOkAlign(s.live[a]);
      LiveBytesOwned(s, a, a);
    }
  }

  ghost function RunAdded(s: State, a: int, l: Layout): State {
    var lo, n := a / SLICE_SIZE, HugeSlices(l);
    s.(live := s.live[a := l], owner := SetOwner(s.owner, lo, n, RunSlice(a)),
       free := s.free - Range(lo, n), zero := s.zero - Range(lo, n))
  }

  ghost predicate RunRoom(s: State, a: int, l: Layout) {
    && LayoutOk(l) && IsRun(l) && a > 0 && a % SLICE_SIZE == 0 && a % l.align == 0
    && Range(a / SLICE_SIZE, HugeSlices(l)) <= s.free
  }

  /** Handing out a run of free slices keeps the invariant; its address is new. */
  lemma RunAddedStep(s: State, a: int, l: Layout)
    requires Consistent(s) && RunRoom(s, a, l)
    ensures Consistent(RunAdded(s, a, l)) && a !in s.live
  {
    var t := RunAdded(s, a, l);
    var lo, n := a / SLICE_SIZE, HugeSlices(l);
    FreeAreFree(s, lo, n);
    assert lo in Range(lo, n);
    FreeSliceNotLive(s, a);
    Parts(s);
    hide Consistent;
    ClaimOwn(s.owner, s.free, lo, n, RunSlice(a));
    PagesKeepOwn(s.owner, s.pages, lo, n, RunSlice(a));
    ZeroFewer(s.zero, Range(lo, n), s.bytes);
    RunAddedOwn(s, a, l);
    LiveWith(s, a, l);
    hide PagesOk, ChainsOk, OwnerRange, FreeOwn, PagesOwn, RunsOwn, LiveOk, LiveComplete, ZeroOk, PagesZero, SetOwner,
         IsRun, LayoutOk;
    Assemble(t);
  }

  lemma RunAddedOwn(s: State, a: int, l: Layout)
    requires RunsOwn(s.owner, s.live) && a !in s.live && IsRun(l)
    requires forall x :: Within(x, a / SLICE_SIZE, HugeSlices(l)) ==> x in s.owner && s.owner[x] == FreeSlice
    ensures var t := RunAdded(s, a, l); RunsOwn(t.owner, t.live)
  {
    hide IsRun, HugeSlices;
    var t := RunAdded(s, a, l);
    forall c, x | c in t.live && IsRun(t.live[c]) && InRun(c, t.live[c], x)
      ensures x in t.owner && t.owner[x] == RunSlice(c)
    {
      if c == a { assert Within(x, a / SLICE_SIZE, HugeSlices(l)); }
    }
  }

  /** Adding a run to the live map, or renaming a run there. */
  lemma LiveWith(s: State, a: int, l: Layout)
    requires LiveOk(s.live, s.pages, s.lists) && LiveComplete(s.live, s.pages, s.lists)
    requires LayoutOk(l) && IsRun(l) && a > 0 && a % SLICE_SIZE == 0 && a % l.align == 0
    requires a in s.live ==> IsRun(s.live[a])
    ensures LiveOk(s.live[a := l], s.pages, s.lists) && LiveComplete(s.live[a := l], s.pages, s.lists)
  {
    hide LayoutOk, LiveBlock;
    var after := s.live[a := l];
    forall c | c in after ensures BlockHome(c, after[c], s.pages, s.lists) {
      if c != a { assert BlockHome(c, s.live[c], s.pages, s.lists); }
    }
  }

  ghost predicate LiveRun(s: State, a: int) {
    a in s.live && IsRun(s.live[a])
  }

  lemma RunHome(s: State, a: int)
    requires Consistent(s) && LiveRun(s, a)
    ensures a > 0 && a % SLICE_SIZE == 0 && a % s.live[a].align == 0 && LayoutOk(s.live[a])
    ensures forall x :: Within(x, a / SLICE_SIZE, HugeSlices(s.live[a])) ==> x in s.owner && s.owner[x] == RunSlice(a)
    ensures Range(a / SLICE_SIZE, HugeSlices(s.live[a])) <= s.owner.Keys
    ensures Range(a / SLICE_SIZE, HugeSlices(s.live[a])) !! s.free
  {
    hide Consistent, LayoutOk, PagesOk, ChainsOk, OwnerRange, PagesOwn, LiveOk, LiveComplete, ZeroOk, PagesZero,
         Classify;
    HomeAt(s, a);
    Parts(s);
    forall x | Within(x, a / SLICE_SIZE, HugeSlices(s.live[a])) ensures x in s.owner && s.owner[x] == RunSlice(a) {
      assert InRun(a, s.live[a], x);
    }
  }

  ghost function RunDropped(s: State, a: int): State
    requires a in s.live
  {
    var lo, n := a / SLICE_SIZE, HugeSlices(s.live[a]);
    s.(live := s.live - {a}, owner := SetOwner(s.owner, lo, n, FreeSlice), free := s.free + Range(lo, n))
  }

  /** Freeing a run returns exactly the slices its Layout says, all of them its own. */
  lemma RunDroppedStep(s: State, a: int)
    requires Consistent(s) && LiveRun(s, a)
    ensures Consistent(RunDropped(s, a))
  {
    var t := RunDropped(s, a);
    var lo, n := a / SLICE_SIZE, HugeSlices(s.live[a]);
    RunHome(s, a);
    Parts(s);
    hide Consistent, IsRun, LayoutOk;
    ReleaseOwn(s.owner, s.free, lo, n);
    PagesKeepOwn(s.owner, s.pages, lo, n, FreeSlice);
    RunDroppedOwn(s, a);
    LiveWithout(s, a);
    hide PagesOk, ChainsOk, OwnerRange, FreeOwn, PagesOwn, RunsOwn, LiveOk, LiveComplete, ZeroOk, PagesZero, SetOwner;
    Assemble(t);
  }

  lemma LiveWithout(s: State, a: int)
    requires LiveOk(s.live, s.pages, s.lists) && LiveComplete(s.live, s.pages, s.lists) && LiveRun(s, a)
    ensures LiveOk(s.live - {a}, s.pages, s.lists) && LiveComplete(s.live - {a}, s.pages, s.lists)
  {
    hide BlockHome, LiveBlock, IsRun;
  }

  lemma RunDroppedOwn(s: State, a: int)
    requires LiveRun(s, a) && RunsOwn(s.owner, s.live)
    ensures var t := RunDropped(s, a); RunsOwn(t.owner, t.live)
  {
    hide IsRun, HugeSlices;
    var t := RunDropped(s, a);
    var lo, n := a / SLICE_SIZE, HugeSlices(s.live[a]);
    forall c, x | c in t.live && IsRun(t.live[c]) && InRun(c, t.live[c], x)
      ensures x in t.owner && t.owner[x] == RunSlice(c)
    {
      assert s.owner[x] == RunSlice(c);
      assert !InRun(a, s.live[a], x);
    }
    forall x | x in t.owner && t.owner[x].RunSlice?
      ensures t.owner[x].run in t.live && IsRun(t.live[t.owner[x].run])
      ensures InRun(t.owner[x].run, t.live[t.owner[x].run], x)
    {
      assert !Within(x, lo, n) && t.owner[x] == s.owner[x];
      assert InRun(s.owner[x].run, s.live[s.owner[x].run], x);
    }
  }

  /** Changing a run's Layout without changing how many slices it occupies, or a binned block's Layout to
      one its page still serves. */
  ghost function Relabeled(s: State, a: int, l: Layout): State {
    s.(live := s.live[a := l])
  }

  lemma RunRelabeledStep(s: State, a: int, l: Layout)
    requires Consistent(s) && LiveRun(s, a) && LayoutOk(l) && IsRun(l) && l.align == s.live[a].align
    requires HugeSlices(l) == HugeSlices(s.live[a])
    ensures Consistent(Relabeled(s, a, l))
  {
    RunHome(s, a);
    Parts(s);
    hide Consistent, LayoutOk, IsRun;
    LiveWith(s, a, l);
    RelabeledOwn(s, a, l);
    hide PagesOk, ChainsOk, OwnerRange, FreeOwn, PagesOwn, RunsOwn, LiveOk, LiveComplete, ZeroOk, PagesZero;
    Assemble(Relabeled(s, a, l));
  }

  lemma RelabeledOwn(s: State, a: int, l: Layout)
    requires RunsOwn(s.owner, s.live) && LiveRun(s, a) && IsRun(l) && HugeSlices(l) == HugeSlices(s.live[a])
    ensures RunsOwn(s.owner, s.live[a := l])
  {
    hide IsRun, HugeSlices;
    forall c, x | c in s.live[a := l] && IsRun(s.live[a := l][c]) && InRun(c, s.live[a := l][c], x)
      ensures x in s.owner && s.owner[x] == RunSlice(c)
    {
      assert InRun(c, s.live[c], x);
    }
  }

  /** A binned block takes a new Layout of a bin of the same kind, no larger than its page's. */
  lemma BinnedRelabeledStep(s: State, a: int, l: Layout)
    requires Consistent(s) && Binned(s, a) && LayoutOk(l) && Classify(l).Bin? && l.align == s.live[a].align
    requires KindOfBin(Classify(l).bin) == KindOfBin(Classify(s.live[a]).bin)
    requires Classify(l).bin <= Classify(s.live[a]).bin
    ensures Consistent(Relabeled(s, a, l))
  {
    hide Consistent, LayoutOk, BlockHome, LiveBlock, IsBlock, PageOk, Chain, PagesOk, ChainsOk, OwnerRange, FreeOwn,
         PagesOwn, RunsOwn, LiveOk, LiveComplete, ZeroOk, PagesZero;
    Parts(s);
    BinnedRelabeledHome(s, a, l);
    BinnedRelabeledLive(s, a, l);
    BinnedRelabeledOwn(s, a, l);
    Assemble(Relabeled(s, a, l));
  }

  lemma BinnedRelabeledHome(s: State, a: int, l: Layout)
    requires Consistent(s) && Binned(s, a) && LayoutOk(l) && Classify(l).Bin? && l.align == s.live[a].align
    requires KindOfBin(Classify(l).bin) == KindOfBin(Classify(s.live[a]).bin)
    requires Classify(l).bin <= Classify(s.live[a]).bin
    ensures BlockHome(a, l, s.pages, s.lists)
  {
    hide Consistent, LayoutOk, LiveBlock, Classify, KindOfBin, HeaderOf;
    BinnedHome(s, a);
    HomeAt(s, a);
  }

  lemma BinnedRelabeledLive(s: State, a: int, l: Layout)
    requires LiveOk(s.live, s.pages, s.lists) && LiveComplete(s.live, s.pages, s.lists)
    requires a in s.live && BlockHome(a, l, s.pages, s.lists) && Classify(l).Bin?
    ensures LiveOk(s.live[a := l], s.pages, s.lists) && LiveComplete(s.live[a := l], s.pages, s.lists)
  {
    hide BlockHome, LiveBlock, Classify;
  }

  lemma BinnedRelabeledOwn(s: State, a: int, l: Layout)
    requires RunsOwn(s.owner, s.live) && Binned(s, a) && !IsRun(l)
    ensures RunsOwn(s.owner, s.live[a := l])
  {
    assert !IsRun(s.live[a]);
    hide IsRun, HugeSlices;
  }

  ghost function RunResized(s: State, a: int, l: Layout): State
    requires a in s.live
  {
    var lo, n, m := a / SLICE_SIZE, HugeSlices(s.live[a]), HugeSlices(l);
    if m <= n then
      s.(live := s.live[a := l], owner := SetOwner(s.owner, lo + m, n - m, FreeSlice),
         free := s.free + Range(lo + m, n - m))
    else
      s.(live := s.live[a := l], owner := SetOwner(s.owner, lo + n, m - n, RunSlice(a)),
         free := s.free - Range(lo + n, m - n), zero := s.zero - Range(lo + n, m - n))
  }

  /** Shrinking a run frees its tail; growing it claims the free slices right after it. */
  lemma RunResizedStep(s: State, a: int, l: Layout)
    requires Consistent(s) && LiveRun(s, a) && LayoutOk(l) && IsRun(l) && l.align == s.live[a].align
    requires HugeSlices(l) > HugeSlices(s.live[a]) ==>
               Range(a / SLICE_SIZE + HugeSlices(s.live[a]), HugeSlices(l) - HugeSlices(s.live[a])) <= s.free
    ensures Consistent(RunResized(s, a, l))
  {
    if HugeSlices(l) <= HugeSlices(s.live[a]) { RunShrunkStep(s, a, l); } else { RunGrownStep(s, a, l); }
  }

  lemma RunShrunkStep(s: State, a: int, l: Layout)
    requires Consistent(s) && LiveRun(s, a) && LayoutOk(l) && IsRun(l) && l.align == s.live[a].align
    requires HugeSlices(l) <= HugeSlices(s.live[a])
    ensures Consistent(RunResized(s, a, l))
  {
    hide Consistent, PagesOk, ChainsOk, LiveOk, LiveComplete, ZeroOk, PagesZero, OwnerRange, FreeOwn, PagesOwn,
         RunsOwn, SetOwner, IsRun, LayoutOk, Range;
    var lo, n, m := a / SLICE_SIZE, HugeSlices(s.live[a]), HugeSlices(l);
    RunHome(s, a);
    Parts(s);
    ShrunkTail(s, lo, n, m, a);
    ResizedRest(s, a, l);
    ShrunkOwn(s, a, l);
    MoveOwner(s.owner, s.free, s.pages, lo + m, n - m, RunSlice(a), FreeSlice);
    Assemble(RunResized(s, a, l));
  }

  lemma RunGrownStep(s: State, a: int, l: Layout)
    requires Consistent(s) && LiveRun(s, a) && LayoutOk(l) && IsRun(l) && l.align == s.live[a].align
    requires HugeSlices(l) > HugeSlices(s.live[a])
    requires Range(a / SLICE_SIZE + HugeSlices(s.live[a]), HugeSlices(l) - HugeSlices(s.live[a])) <= s.free
    ensures Consistent(RunResized(s, a, l))
  {
    hide Consistent, PagesOk, ChainsOk, LiveOk, LiveComplete, ZeroOk, PagesZero, OwnerRange, FreeOwn, PagesOwn,
         RunsOwn, SetOwner, IsRun, LayoutOk, Range;
    var lo, n, m := a / SLICE_SIZE, HugeSlices(s.live[a]), HugeSlices(l);
    FreeAreFree(s, lo + n, m - n);
    Parts(s);
    ResizedRest(s, a, l);
    GrownOwn(s, a, l);
    MoveOwner(s.owner, s.free, s.pages, lo + n, m - n, FreeSlice, RunSlice(a));
    Assemble(RunResized(s, a, l));
  }

  /** The parts of the invariant a resize does not move slices for. */
  lemma ResizedRest(s: State, a: int, l: Layout)
    requires Consistent(s) && LiveRun(s, a) && LayoutOk(l) && IsRun(l) && l.align == s.live[a].align
    ensures var t := RunResized(s, a, l);
            && PagesOk(t.pages, t.lists) && ChainsOk(t.lists, t.bytes) && PagesZero(t.pages, t.lists, t.bytes)
            && LiveOk(t.live, t.pages, t.lists) && LiveComplete(t.live, t.pages, t.lists)
            && t.zero <= t.free && ZeroOk(t.zero, t.bytes)
  {
    RunHome(s, a);
    Parts(s);
    hide LayoutOk, IsRun, HugeSlices, Consistent, PagesOk, ChainsOk, LiveOk, LiveComplete, PagesZero, ZeroOk,
         OwnerRange, FreeOwn, PagesOwn, RunsOwn, Range, SetOwner;
    LiveWith(s, a, l);
    var lo, n, m := a / SLICE_SIZE, HugeSlices(s.live[a]), HugeSlices(l);
    ZeroFewer(s.zero, Range(lo + n, m - n), s.bytes);
  }

  /** Slices all owned by `from` pass to `to`, one of the two being the map. */
  lemma MoveOwner(owner: map<int, Owner>, free: set<int>, pages: map<int, Page>, lo: int, n: int, from: Owner,
                  to: Owner)
    requires OwnerRange(owner) && FreeOwn(owner, free) && PagesOwn(owner, pages)
    requires !from.PageSlice? && !to.PageSlice? && (from == FreeSlice) != (to == FreeSlice)
    requires forall x :: Within(x, lo, n) ==> x in owner && owner[x] == from
    ensures var after := SetOwner(owner, lo, n, to);
            && OwnerRange(after) && PagesOwn(after, pages)
            && FreeOwn(after, if to == FreeSlice then free + Range(lo, n) else free - Range(lo, n))
  {
    hide PagesOwn, SetOwner, OwnerRange;
    if to == FreeSlice {
      assert Range(lo, n) <= owner.Keys;
      ReleaseOwn(owner, free, lo, n);
    } else {
      assert Range(lo, n) <= free;
      ClaimOwn(owner, free, lo, n, to);
    }
    PagesKeepOwn(owner, pages, lo, n, to);
  }

  lemma ShrunkTail(s: State, lo: int, n: int, m: int, a: int)
    requires 0 <= m <= n && forall x :: Within(x, lo, n) ==> x in s.owner && s.owner[x] == RunSlice(a)
    ensures forall x :: Within(x, lo + m, n - m) ==> x in s.owner && s.owner[x] == RunSlice(a)
    ensures Range(lo + m, n - m) <= s.owner.Keys
  {
    forall x | Within(x, lo + m, n - m) ensures x in s.owner && s.owner[x] == RunSlice(a) { assert Within(x, lo, n); }
  }

  lemma ShrunkOwn(s: State, a: int, l: Layout)
    requires LiveRun(s, a) && RunsOwn(s.owner, s.live) && IsRun(l) && HugeSlices(l) <= HugeSlices(s.live[a])
    ensures var t := RunResized(s, a, l); RunsOwn(t.owner, t.live)
  {
    hide IsRun, HugeSlices;
    var t := RunResized(s, a, l);
    var lo, n, m := a / SLICE_SIZE, HugeSlices(s.live[a]), HugeSlices(l);
    forall c, x | c in t.live && IsRun(t.live[c]) && InRun(c, t.live[c], x)
      ensures x in t.owner && t.owner[x] == RunSlice(c)
    {
      assert InRun(c, s.live[c], x);
      assert s.owner[x] == RunSlice(c);
      if c != a { assert !InRun(a, s.live[a], x); }
    }
    forall x | x in t.owner && t.owner[x].RunSlice?
      ensures t.owner[x].run in t.live && IsRun(t.live[t.owner[x].run])
      ensures InRun(t.owner[x].run, t.live[t.owner[x].run], x)
    {
      assert !Within(x, lo + m, n - m) && t.owner[x] == s.owner[x];
      assert InRun(s.owner[x].run, s.live[s.owner[x].run], x);
    }
  }

  lemma GrownOwn(s: State, a: int, l: Layout)
    requires LiveRun(s, a) && RunsOwn(s.owner, s.live) && IsRun(l) && HugeSlices(l) > HugeSlices(s.live[a])
    requires forall x :: Within(x, a / SLICE_SIZE + HugeSlices(s.live[a]), HugeSlices(l) - HugeSlices(s.live[a])) ==>
               x in s.owner && s.owner[x] == FreeSlice
    ensures var t := RunResized(s, a, l); RunsOwn(t.owner, t.live)
  {
    hide IsRun, HugeSlices;
    var t := RunResized(s, a, l);
    var lo, n, m := a / SLICE_SIZE, HugeSlices(s.live[a]), HugeSlices(l);
    forall c, x | c in t.live && IsRun(t.live[c]) && InRun(c, t.live[c], x)
      ensures x in t.owner && t.owner[x] == RunSlice(c)
    {
      if c == a && !Within(x, lo + n, m - n) { assert InRun(a, s.live[a], x); }
      if c != a { assert s.owner[x] == RunSlice(c) && !Within(x, lo + n, m - n); }
    }
    forall x | x in t.owner && t.owner[x].RunSlice?
      ensures t.owner[x].run in t.live && IsRun(t.live[t.owner[x].run])
      ensures InRun(t.owner[x].run, t.live[t.owner[x].run], x)
    {
      if !Within(x, lo + n, m - n) {
        assert t.owner[x] == s.owner[x];
        assert InRun(s.owner[x].run, s.live[s.owner[x].run], x);
      }
    }
  }

  // ---------------------------------------------------------------------------------------------
  // Memory granted
  // ---------------------------------------------------------------------------------------------

  function AddFreeSlices(owner: map<int, Owner>, gain: set<int>): (r: map<int, Owner>)
    ensures r.Keys == owner.Keys + gain
  {
    map t | t in owner.Keys + gain :: if t in gain then FreeSlice else owner[t]
  }

  ghost function WithGrant(s: State, gain: set<int>, zeroGain: set<int>, bytes: map<int, Byte>): State {
    s.(owner := AddFreeSlices(s.owner, gain), free := s.free + gain, zero := s.zero + zeroGain, bytes := bytes)
  }

  /** Slices nobody owned become free; those that are fresh are zero, and no owned byte changes. */
  lemma GrantStep(s: State, gain: set<int>, zeroGain: set<int>, bytes: map<int, Byte>)
    requires Consistent(s) && gain !! s.owner.Keys && zeroGain <= gain
    requires forall t :: t in gain ==> 1 <= t < MAX_SLICE_INDEX
    requires forall x :: x / SLICE_SIZE in zeroGain ==> At(bytes, x) == 0
    requires forall x :: x / SLICE_SIZE in s.owner ==> At(bytes, x) == At(s.bytes, x)
    ensures Consistent(WithGrant(s, gain, zeroGain, bytes))
    ensures Kept(s.live, s.bytes, bytes)
  {
    var t := WithGrant(s, gain, zeroGain, bytes);
    Parts(s);
    GrantBytes(s, bytes);
    GrantOwn(s, gain);
    hide Consistent;
    GrantZero(s, gain, zeroGain, bytes);
    hide PagesOk, ChainsOk, OwnerRange, FreeOwn, PagesOwn, RunsOwn, LiveOk, LiveComplete, ZeroOk, PagesZero,
         AddFreeSlices, Kept;
    Assemble(t);
  }

  lemma GrantOwn(s: State, gain: set<int>)
    requires FreeOwn(s.owner, s.free) && PagesOwn(s.owner, s.pages) && RunsOwn(s.owner, s.live) && OwnerRange(s.owner)
    requires gain !! s.owner.Keys && forall t :: t in gain ==> 1 <= t < MAX_SLICE_INDEX
    ensures var owner := AddFreeSlices(s.owner, gain);
            && FreeOwn(owner, s.free + gain) && PagesOwn(owner, s.pages) && RunsOwn(owner, s.live) && OwnerRange(owner)
  {
    hide InPage, InRun, IsRun;
  }

  lemma GrantZero(s: State, gain: set<int>, zeroGain: set<int>, bytes: map<int, Byte>)
    requires FreeOwn(s.owner, s.free) && s.zero <= s.free && ZeroOk(s.zero, s.bytes) && zeroGain <= gain
    requires forall x :: x / SLICE_SIZE in zeroGain ==> At(bytes, x) == 0
    requires forall x :: x / SLICE_SIZE in s.owner ==> At(bytes, x) == At(s.bytes, x)
    ensures ZeroOk(s.zero + zeroGain, bytes) && s.zero + zeroGain <= s.free + gain
  {
    hide At;
    forall x | x / SLICE_SIZE in s.zero + zeroGain ensures At(bytes, x) == 0 {
      if x / SLICE_SIZE in s.zero { assert x / SLICE_SIZE in s.free; }
    }
  }

  lemma GrantBytes(s: State, bytes: map<int, Byte>)
    requires Consistent(s) && forall x :: x / SLICE_SIZE in s.owner ==> At(bytes, x) == At(s.bytes, x)
    ensures ChainsOk(s.lists, bytes) && PagesZero(s.pages, s.lists, bytes) && Kept(s.live, s.bytes, bytes)
  {
    Parts(s);
    hide Consistent, At, Chain, PageZero, PageOk, Extent, LayoutOk, OwnerRange, FreeOwn, PagesOwn, RunsOwn, LiveOk,
         LiveComplete, ZeroOk;
    forall p | p in s.pages ensures Chain(s.lists[p], bytes) && PageZero(p, s.pages[p], s.lists[p], bytes) {
      forall x | p <= x < p + PageSize(s.pages[p].kind) ensures At(bytes, x) == At(s.bytes, x) {
        PageBytesOwnedIn(s, p, x);
      }
      PagesOkAt(s, p);
      PageUnaffected(p, s.pages[p], s.lists[p], s.bytes, bytes);
    }
    forall a | a in s.live ensures Same(s.bytes, bytes, a, a + s.live[a].size) {
      ExtentCovers(s, a);
      forall x | a <= x < a + s.live[a].size ensures At(bytes, x) == At(s.bytes, x) {
        LayoutOkAlign(s.live[a]);
        LiveBytesOwned(s, a, x);
      }
    }
  }
}
