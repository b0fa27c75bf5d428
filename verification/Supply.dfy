/** Slices on their way from the map to a page or a run: claimed in the map, owned by nobody else yet. */
module Supply {
  import opened Arithmetic
  import opened Bins
  import opened SliceMaps
  import opened Backend
  import opened Growth
  import opened Pages
  import opened HeapStates
  import opened HeapSteps
  import opened SliceSteps
  import opened HeapLemmas

  /** The state with a claimed run counted as free still: the caller of the acquisition holds it. */
  ghost function HeldState(s: State, start: int, count: int, zeroed: bool): State {
    s.(free := s.free + Range(start, count), zero := if zeroed then s.zero + Range(start, count) else s.zero)
  }

  /** Claiming free slices: the claimed run is apart from what stays free, and giving it to a page or a run
      starts from a consistent state. */
  lemma ClaimedHeld(s: State, start: int, count: nat, zeroed: bool, t: State)
    requires Consistent(s) && count >= 1 && Range(start, count) <= s.free
    requires t == s.(free := s.free - Range(start, count), zero := s.zero - Range(start, count))
    requires zeroed <==> Range(start, count) <= s.zero
    ensures Consistent(HeldState(t, start, count, zeroed))
    ensures Range(start, count) !! t.free && t.zero <= t.free && Range(start, count) <= s.owner.Keys && start >= 1
  {
    FreeAreFree(s, start, count);
    assert Within(start, start, count);
    Parts(s);
    var h := HeldState(t, start, count, zeroed);
    assert h.free == s.free;
    var gone := if zeroed then {} else Range(start, count);
    assert h.zero == s.zero - gone;
    hide Consistent, PagesOk, ChainsOk, OwnerRange, FreeOwn, PagesOwn, RunsOwn, LiveOk, LiveComplete, ZeroOk,
         PagesZero, Range;
    ZeroFewer(s.zero, gone, s.bytes);
    Assemble(h);
  }

  lemma FitIsFree(free: set<int>, start: int, count: nat, align: nat)
    requires align >= 1 && Fits(free, start, count, align)
    ensures Range(start, count) <= free && start % align == 0
  {
  }

  lemma TailFitIsFree(free: set<int>, start: int, count: nat, align: nat, end: int)
    requires align >= 1 && TailFit(free, start, count, align, end)
    ensures Range(start, count) <= free && start % align == 0
  {
  }

  /** What a search of the map leaves: the state as it was, or a held run. */
  lemma ServedHeld(s: State, r: Option<Run>, count: nat, align: nat, freeNow: set<int>, zeroNow: set<int>)
    requires Consistent(s) && count >= 1 && align >= 1 && Served(r, count, align, s.free, s.zero, freeNow, zeroNow)
    ensures var t := s.(free := freeNow, zero := zeroNow);
            match r
            case None => t == s
            case Some(run) =>
              && Consistent(HeldState(t, run.start, count, run.zeroed))
              && Range(run.start, count) !! freeNow && zeroNow <= freeNow && Range(run.start, count) <= s.owner.Keys
              && run.start >= 1 && run.start % align == 0
  {
    hide Consistent, Range;
    match r
    case None =>
    case Some(run) =>
      FitIsFree(s.free, run.start, count, align);
      ClaimedHeld(s, run.start, count, run.zeroed, s.(free := freeNow, zero := zeroNow));
  }

  lemma TailHeld(s: State, run: Run, count: nat, align: nat, end: int, freeNow: set<int>, zeroNow: set<int>)
    requires Consistent(s) && count >= 1 && align >= 1 && LowestTailFit(s.free, run.start, count, align, end)
    requires freeNow == s.free - Range(run.start, count) && zeroNow == s.zero - Range(run.start, count)
    requires run.zeroed <==> Range(run.start, count) <= s.zero
    ensures var t := s.(free := freeNow, zero := zeroNow);
            && Consistent(HeldState(t, run.start, count, run.zeroed))
            && Range(run.start, count) !! freeNow && zeroNow <= freeNow && Range(run.start, count) <= s.owner.Keys
            && run.start >= 1 && run.start % align == 0
  {
    hide Consistent, Range;
    TailFitIsFree(s.free, run.start, count, align, end);
    ClaimedHeld(s, run.start, count, run.zeroed, s.(free := freeNow, zero := zeroNow));
  }

  // ---------------------------------------------------------------------------------------------
  // Grants
  // ---------------------------------------------------------------------------------------------

  /** New grants below the limit enter the state as free, zero slices. */
  lemma GrownStep(s: State, granted: set<int>, now: set<int>, size: int, sizeNow: int, limit: int,
                  bytes: map<int, Byte>, heapBase: int)
    requires Consistent(s) && s.owner.Keys == Usable(granted, limit) && limit <= MAX_SLICE_INDEX && heapBase > 0
    requires Grew(s.bytes, granted, size, bytes, now, sizeNow)
    requires forall x :: x in now ==> CeilDiv(heapBase, SLICE_SIZE) <= x
    ensures var gain := Usable(now - granted, limit);
            && Consistent(WithGrant(s, gain, gain, bytes))
            && AddFreeSlices(s.owner, gain).Keys == Usable(now, limit)
            && Kept(s.live, s.bytes, bytes)
  {
    var gain := Usable(now - granted, limit);
    assert CeilDiv(heapBase, SLICE_SIZE) >= 1;
    forall x | x / SLICE_SIZE in s.owner ensures At(bytes, x) == At(s.bytes, x) {
      assert x / SLICE_SIZE in s.owner.Keys;
    }
    hide Consistent, At;
    GrantStep(s, gain, gain, bytes);
  }

  /** Events of a growth that saw no empty page keep the log in order. */
  lemma LogAcquired(log: seq<GrowEvent>, more: seq<GrowEvent>, limit: int, pages: map<int, Page>, count: nat,
                    align: nat, served: bool)
    requires LogOk(log) && log <= more && align >= 1 && NoEmpty(pages)
    requires EventsOk(more, |log|, limit, pages, count, align, served)
    ensures LogOk(more)
  {
    hide NoEmpty, Pad;
    forall k | 0 <= k < |more| ensures NoEmpty(more[k].pages) {
      if k < |log| { assert more[k] == log[k]; } else { assert EventOk(more[k], limit, pages, count, align, served); }
    }
  }

  lemma LogExtended(log: seq<GrowEvent>, more: seq<GrowEvent>, limit: int, pages: map<int, Page>, tail: int,
                    extra: nat, free: set<int>, extended: bool)
    requires LogOk(log) && log <= more && NoEmpty(pages)
    requires ExtendEvents(more, |log|, limit, pages, tail, extra, free, extended)
    ensures LogOk(more)
  {
    hide NoEmpty, Range;
    forall k | 0 <= k < |more| ensures NoEmpty(more[k].pages) {
      if k < |log| {
        assert more[k] == log[k];
      } else {
        assert ExtendEvent(more[k], limit, pages, tail, extra, free, extended);
      }
    }
  }

  // ---------------------------------------------------------------------------------------------
  // Putting a held run to use
  // ---------------------------------------------------------------------------------------------

  /** A held, aligned run of a bin's page size makes a page of that bin. */
  lemma HeldPage(s: State, start: nat, bin: nat, zeroed: bool)
    requires 1 <= bin <= MAX_BINNED_BIN
    requires var n := PageSlices(KindOfBin(bin));
             && start % n == 0 && Range(start, n) !! s.free && s.zero <= s.free
             && Consistent(HeldState(s, start, n, zeroed))
    ensures var n, p := PageSlices(KindOfBin(bin)), start * SLICE_SIZE;
            && p / SLICE_SIZE == start && p % PageSize(KindOfBin(bin)) == 0
            && PageRoom(HeldState(s, start, n, zeroed), p, bin, zeroed)
            && PageAdded(HeldState(s, start, n, zeroed), p, bin, zeroed)
               == s.(pages := s.pages[p := FreshPage(KindOfBin(bin), bin, zeroed)], lists := s.lists[p := []],
                     owner := SetOwner(s.owner, start, n, PageSlice(p)))
  {
    var n, p := PageSlices(KindOfBin(bin)), start * SLICE_SIZE;
    PageAligned(start, KindOfBin(bin));
    hide Consistent, FreshPage, SetOwner;
    var h := HeldState(s, start, n, zeroed);
    assert h.free - Range(start, n) == s.free;
    assert h.zero - Range(start, n) == s.zero;
  }

  lemma PageAligned(start: nat, kind: PageKind)
    requires start % PageSlices(kind) == 0
    ensures (start * SLICE_SIZE) % PageSize(kind) == 0 && (start * SLICE_SIZE) / SLICE_SIZE == start
  {
  }

  /** A held, aligned run of a Layout's length makes a live run. */
  lemma HeldRun(s: State, start: nat, l: Layout, zeroed: bool)
    requires LayoutOk(l) && IsRun(l) && start >= 1 && start % CeilDiv(l.align, SLICE_SIZE) == 0
    requires Range(start, HugeSlices(l)) !! s.free && s.zero <= s.free
    requires Consistent(HeldState(s, start, HugeSlices(l), zeroed))
    ensures var n, a := HugeSlices(l), start * SLICE_SIZE;
            && a / SLICE_SIZE == start && a > 0
            && RunRoom(HeldState(s, start, n, zeroed), a, l)
            && RunAdded(HeldState(s, start, n, zeroed), a, l)
               == s.(live := s.live[a := l], owner := SetOwner(s.owner, start, n, RunSlice(a)))
            && (zeroed ==> forall x :: a <= x < a + n * SLICE_SIZE ==> At(s.bytes, x) == 0)
  {
    var n, a := HugeSlices(l), start * SLICE_SIZE;
    RunAligned(start, l);
    var h := HeldState(s, start, n, zeroed);
    assert h.free - Range(start, n) == s.free;
    assert h.zero - Range(start, n) == s.zero;
    if zeroed { HeldZero(s, start, n); }
  }

  lemma HeldZero(s: State, start: nat, n: nat)
    requires Consistent(HeldState(s, start, n, true))
    ensures forall x :: start * SLICE_SIZE <= x < start * SLICE_SIZE + n * SLICE_SIZE ==> At(s.bytes, x) == 0
  {
    var h := HeldState(s, start, n, true);
    assert ZeroOk(h.zero, h.bytes);
    hide Consistent, At;
    forall x | start * SLICE_SIZE <= x < start * SLICE_SIZE + n * SLICE_SIZE ensures At(s.bytes, x) == 0 {
      assert Within(x / SLICE_SIZE, start, n);
      assert x / SLICE_SIZE in Range(start, n);
    }
  }

  lemma RunAligned(start: nat, l: Layout)
    requires LayoutOk(l) && start % CeilDiv(l.align, SLICE_SIZE) == 0
    ensures (start * SLICE_SIZE) % l.align == 0 && (start * SLICE_SIZE) / SLICE_SIZE == start
    ensures (start * SLICE_SIZE) % SLICE_SIZE == 0
  {
    var a := start * SLICE_SIZE;
    if l.align <= SLICE_SIZE {
      SliceIsAligned(l.align, a);
    } else {
      SlicesAlign(l.align);
      var k := CeilDiv(l.align, SLICE_SIZE);
      ScaledMultiple(start, k, SLICE_SIZE);
    }
  }

  /** An alignment above a slice is a whole number of slices. */
  lemma SlicesAlign(align: nat)
    requires IsPow2(align) && align > SLICE_SIZE
    ensures align == CeilDiv(align, SLICE_SIZE) * SLICE_SIZE
  {
    assert IsPow2(SLICE_SIZE) by {
      Pow2IsPow2(16);
      assert Pow2(4) == 16;
      assert Pow2(8) == 16 * Pow2(4);
      assert Pow2(12) == 16 * Pow2(8);
      assert Pow2(16) == 16 * Pow2(12);
    }
    hide IsPow2;
    Pow2Divides(SLICE_SIZE, align);
  }

  lemma ScaledMultiple(start: nat, k: nat, unit: nat)
    requires k >= 1 && unit >= 1 && start % k == 0
    ensures k * unit >= 1 && (start * unit) % (k * unit) == 0
  {
    var q := start / k;
    assert start == q * k;
    assert start * unit == q * (k * unit);
    MulMono(1, k, unit);
    ModUnique(q, k * unit, 0);
  }

  lemma ServedLowest(r: Option<Run>, count: nat, align: nat, free: set<int>, zero: set<int>, freeNow: set<int>,
                     zeroNow: set<int>)
    requires align >= 1 && Served(r, count, align, free, zero, freeNow, zeroNow) && r.Some?
    ensures LowestFit(free, r.value.start, count, align)
  {
  }

  /** What the map takes of the gap `[first, size)` is its usable part. */
  lemma GapUsable(first: nat, size: int, end: int, limit: int)
    requires size <= end && size <= MAX_SLICE_INDEX + 1
    requires limit == if end < MAX_SLICE_INDEX then end else MAX_SLICE_INDEX
    ensures var count := if size < first then 0 else size - first;
            var n := if first <= MAX_SLICE_INDEX && MAX_SLICE_INDEX - first < count then MAX_SLICE_INDEX - first
                     else count;
            Usable(Range(first, size - first), limit) == (if count > 0 then Range(first, n) else {})
    ensures forall free: set<int> :: {} + free == free
  {
  }

  /** The first grant: the usable part of the gap above the heap base, free and not known zero. */
  lemma InitGain(s: State, gain: set<int>, granted: set<int>, limit: int, heapBase: int)
    requires s.owner == map[] && s.free == {} && s.zero == {} && heapBase > 0 && limit <= MAX_SLICE_INDEX
    requires gain == Usable(granted, limit) && forall t :: t in granted ==> CeilDiv(heapBase, SLICE_SIZE) <= t
    ensures gain !! s.owner.Keys && forall t :: t in gain ==> 1 <= t < MAX_SLICE_INDEX
    ensures AddFreeSlices(s.owner, gain).Keys == gain
  {
  }

  lemma GrantIs(s: State, gain: set<int>, bytes: map<int, Byte>, granted: set<int>, now: set<int>, limit: int)
    requires gain == Usable(now - granted, limit)
    ensures var g := WithGrant(s, gain, gain, bytes);
            && g.free == WithGain(s.free, granted, now, limit) && g.zero == WithGain(s.zero, granted, now, limit)
            && g.owner == AddFreeSlices(s.owner, gain) && g.pages == s.pages && g.lists == s.lists
            && g.bytes == bytes && g.live == s.live
  {
  }

  lemma HeldPagesAre(s: State, start: int, count: int, zeroed: bool)
    ensures HeldState(s, start, count, zeroed).pages == s.pages && HeldState(s, start, count, zeroed).live == s.live
  {
  }

  /** A run's block is the lowest fit, if there was one. */
  ghost predicate LowestPlaced(block: Option<int>, free: set<int>, count: nat, align: nat)
    requires align >= 1
  {
    !NoFit(free, count, align) ==> block.Some? && LowestFit(free, block.value / SLICE_SIZE, count, align)
  }

  /** The block starts at the least aligned place of the free slices leading up to `end` when enough of them
      follow it, and at the least fit anywhere when not. */
  ghost predicate TopPlaced(block: Option<int>, free: set<int>, count: nat, align: nat, end: int)
    requires align >= 1
  {
    if NoTailFit(free, count, align, end) then LowestPlaced(block, free, count, align)
    else block.Some? && LowestTailFit(free, block.value / SLICE_SIZE, count, align, end)
  }

  lemma TailIsFit(free: set<int>, start: int, count: nat, align: nat, end: int)
    requires align >= 1 && LowestTailFit(free, start, count, align, end)
    ensures !NoTailFit(free, count, align, end) && !NoFit(free, count, align)
  {
    assert Fits(free, start, count, align);
  }

  /** The free set a search used, `free`, was made of `base` and of slices granted since `granted`. */
  ghost predicate GainedFrom(free: set<int>, base: set<int>, granted: set<int>, now: set<int>, limit: int) {
    granted <= now && base <= free <= WithGain(base, granted, now, limit)
  }

  lemma GainedFromMore(free: set<int>, base: set<int>, g0: set<int>, g1: set<int>, g2: set<int>, limit: int)
    requires g0 <= g1 && free == WithGain(base, g0, g1, limit) && GainedFrom(free, free, g1, g2, limit)
    ensures GainedFrom(free, base, g0, g2, limit)
    ensures free == WithGain(free, g1, g2, limit) ==> free == WithGain(base, g0, g2, limit)
  {
    assert Usable(g2 - g0, limit) == Usable(g1 - g0, limit) + Usable(g2 - g1, limit);
  }
}
