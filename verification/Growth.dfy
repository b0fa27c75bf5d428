/** The `memory.grow` policy: serve a run from the map, or grow memory just enough and serve it then. */
module Growth {
  import opened Arithmetic
  import opened Bins
  import opened SliceMaps
  import opened Backend

  datatype GrowPolicy = GrowPolicy(minGrow: nat, maxGrow: nat, stepDivisor: nat) {
    /** How many slices a heap of `heap` slices asks for at once. */
    function Step(heap: nat): (s: nat)
      ensures s <= maxGrow && (s >= minGrow || s == maxGrow)
    {
      var fraction := heap / (if stepDivisor < 1 then 1 else stepDivisor);
      var raised := if fraction < minGrow then minGrow else fraction;
      if raised > maxGrow then maxGrow else raised
    }
  }

  /** The growth step of a heap of `heap` slices, without a quotient: the largest number of divisors in it, no less
      than the minimum, and above all no more than the maximum. */
  ghost predicate IsStep(p: GrowPolicy, heap: nat, s: nat) {
    var d := if p.stepDivisor < 1 then 1 else p.stepDivisor;
    if p.maxGrow < p.minGrow || (p.maxGrow + 1) * d <= heap then s == p.maxGrow
    else if heap < p.minGrow * d then s == p.minGrow
    else s * d <= heap < (s + 1) * d
  }

  lemma StepIs(p: GrowPolicy, heap: nat)
    ensures IsStep(p, heap, p.Step(heap))
  {
    var d := if p.stepDivisor < 1 then 1 else p.stepDivisor;
    var q := heap / d;
    Quotient(heap, d);
    StepBounds(heap, d, q, p.maxGrow + 1);
    StepBounds(heap, d, q, p.minGrow);
    StepOf(p, heap, d, q, p.Step(heap));
  }

  lemma Quotient(n: nat, d: nat)
    requires d >= 1
    ensures (n / d) * d <= n < (n / d + 1) * d
  {
    assert n == (n / d) * d + n % d && (n / d + 1) * d == (n / d) * d + d;
  }

  /** A step, given where the quotient lies. */
  lemma StepOf(p: GrowPolicy, heap: nat, d: nat, q: nat, s: nat)
    requires d == (if p.stepDivisor < 1 then 1 else p.stepDivisor) && q * d <= heap < (q + 1) * d
    requires (p.maxGrow + 1) * d <= heap <==> p.maxGrow + 1 <= q
    requires p.minGrow * d <= heap <==> p.minGrow <= q
    requires s == Min(Max(q, p.minGrow), p.maxGrow)
    ensures IsStep(p, heap, s)
  {
  }

  lemma StepBounds(heap: nat, d: nat, q: nat, k: nat)
    requires d >= 1 && q * d <= heap < (q + 1) * d
    ensures k * d <= heap <==> k <= q
  {
    if k <= q { MulMono(k, q, d); } else { MulMono(q + 1, k, d); }
  }

  const DEFAULT_POLICY := GrowPolicy(2, 1024, 8)

  /** The slices of `grant` the map may hand out. */
  ghost function Usable(grant: set<int>, limit: int): set<int> {
    set s | s in grant && s < limit
  }

  /** The map describes part of this memory: every free slice was granted and may be handed out. */
  ghost predicate Backed(map_: SliceMap, mem: Memory)
    reads map_, map_.free, map_.zero, mem`size, mem`granted, mem`heapBase
  {
    && map_.Valid() && mem.Valid()
    && map_.base <= mem.heapBase / SLICE_SIZE
    && map_.freeSet <= Usable(mem.granted, map_.UsableLimit())
  }

  /** The free (or zero) slices after the grants went from `granted` to `now`: exactly the usable part of
      what was granted is new. */
  ghost predicate Gained(free: set<int>, granted: set<int>, freeNow: set<int>, now: set<int>, limit: int) {
    granted <= now && freeNow == free + Usable(now - granted, limit)
  }

  /** Memory contents after grants: new grants are at or above the old end and zero, all else unchanged. */
  ghost predicate Grew(bytes: map<int, Byte>, granted: set<int>, size: int,
                       bytesNow: map<int, Byte>, now: set<int>, sizeNow: int)
  {
    && granted <= now && size <= sizeNow
    && (forall s :: s in now - granted ==> size <= s)
    && (forall x :: At(bytesNow, x) == if x / SLICE_SIZE in now - granted then 0 else At(bytes, x))
  }

  lemma GrewUp(bytes: map<int, Byte>, granted: set<int>, size: int,
               bytesNow: map<int, Byte>, now: set<int>, sizeNow: int)
    requires Grew(bytes, granted, size, bytesNow, now, sizeNow)
    ensures granted <= now && size <= sizeNow
  {
  }

  lemma GainedTwice(f0: set<int>, g0: set<int>, f1: set<int>, g1: set<int>, f2: set<int>, g2: set<int>, limit: int)
    requires Gained(f0, g0, f1, g1, limit) && Gained(f1, g1, f2, g2, limit)
    ensures Gained(f0, g0, f2, g2, limit)
  {
  }

  lemma GrewTwice(b0: map<int, Byte>, g0: set<int>, s0: int, b1: map<int, Byte>, g1: set<int>, s1: int,
                  b2: map<int, Byte>, g2: set<int>, s2: int)
    requires Grew(b0, g0, s0, b1, g1, s1) && Grew(b1, g1, s1, b2, g2, s2)
    ensures Grew(b0, g0, s0, b2, g2, s2)
  {
    hide At;
    forall s | s in g2 - g0 ensures s0 <= s { assert s in g2 - g1 || s in g1 - g0; }
    forall x ensures At(b2, x) == if x / SLICE_SIZE in g2 - g0 then 0 else At(b0, x) {
      assert x / SLICE_SIZE in g2 - g0 <==> x / SLICE_SIZE in g2 - g1 || x / SLICE_SIZE in g1 - g0;
    }
  }

  /** `add_region`: the usable part of a grant joins both the free and the zero set. */
  method AddRegion(map_: SliceMap, start: nat, count: nat)
    requires map_.Valid() && map_.base <= start && Range(start, count) !! map_.freeSet
    modifies map_, map_.free, map_.zero
    ensures map_.Valid() && map_.base == old(map_.base)
    ensures map_.freeSet == old(map_.freeSet) + Usable(Range(start, count), map_.UsableLimit())
    ensures map_.zeroSet == old(map_.zeroSet) + Usable(Range(start, count), map_.UsableLimit())
  {
    hide Represents, EmptyBelow;
    var end := Min(start + count, map_.UsableLimit());
    if start < end {
      assert Range(start, end - start) <= Range(start, count);
      assert Range(start, end - start) == Usable(Range(start, count), map_.UsableLimit());
      map_.AddFree(start, end - start, true);
    } else {
      assert Usable(Range(start, count), map_.UsableLimit()) == {};
    }
  }

  /** `end.wrapping_neg() & (align - 1)`: the slack from `end` to the next aligned slice. */
  function Pad(end: nat, align: nat): (p: nat)
    requires align >= 1
    ensures p < align && (end + p) % align == 0
  {
    var over := end % align;
    assert (end + (if over == 0 then 0 else align - over)) == RoundUp(end, align);
    if over == 0 then 0 else align - over
  }

  /** `end.saturating_sub(base)`. */
  function HeapSlices(base: nat, end: int): nat {
    if end < base then 0 else end - base
  }

  function GrowthStep(base: nat, end: nat, policy: GrowPolicy): nat {
    policy.Step(HeapSlices(base, end))
  }

  /** A granted region long enough for the slack of its own start serves the request. */
  lemma RegionFits(map_: SliceMap, start: nat, got: nat, count: nat, align: nat)
    requires map_.Valid() && count >= 1 && align >= 1
    requires Usable(Range(start, got), map_.UsableLimit()) <= map_.freeSet
    requires start + got <= map_.UsableLimit() && got >= Pad(start, align) + count
    ensures !NoFit(map_.freeSet, count, align)
  {
    hide Represents, EmptyBelow, Pad;
    var s := start + Pad(start, align);
    assert Fits(map_.freeSet, s, count, align) by {
      forall i | s <= i < s + count ensures i in map_.freeSet {
        assert i in Range(start, got);
      }
    }
  }

  /** A logged request: it asks for memory below `limit`, saw the pages `pages`, covers the slack at the end
      of memory, and if it was granted a region that covers its own slack below `limit`, it served. */
  ghost predicate EventOk(e: GrowEvent, limit: int, pages: map<int, Page>, count: nat, align: nat, served: bool)
    requires align >= 1
  {
    && e.end + e.want <= limit && e.pages == pages
    && e.want >= Pad(e.end, align) + count
    && ((e.start.Some? && e.start.value + e.want <= limit && e.want >= Pad(e.start.value, align) + count) ==> served)
  }

  /** A request that does not fit between the end of memory and the limit, so memory is not even asked. */
  ghost predicate PastLimit(end: int, limit: int, count: nat, align: nat)
    requires align >= 1
  {
    end >= 0 && Pad(end, align) + count > limit - end
  }

  /** Why a search that asked for memory found none, judged by the events from `from` on: nothing was asked and
      the request does not fit below the limit; or memory refused the bare request, the larger step before it
      notwithstanding; or what was granted lay elsewhere, and a request long enough for any start does not fit
      below the limit, or was refused, or lies past the limit itself. */
  ghost predicate Denied(log: seq<GrowEvent>, from: int, end: int, limit: int, count: nat, align: nat)
    requires align >= 1 && from >= 0
  {
    var n, worst := |log|, count + align - 1;
    if n <= from then PastLimit(end, limit, count, align)
    else if n >= from + 2 && log[n - 2].start.Some? then
      log[n - 1].want == worst && (log[n - 1].start.Some? ==> log[n - 1].start.value + worst > limit)
    else if log[n - 1].start.Some? then worst > limit - end || worst > USIZE_MAX
    else log[n - 1].end >= 0 && log[n - 1].want == Pad(log[n - 1].end, align) + count
  }

  /** The events of some suffix of the log explain a failure. */
  ghost predicate DeniedSince(log: seq<GrowEvent>, from: nat, end: int, limit: int, count: nat, align: nat)
    requires align >= 1
  {
    exists k: nat :: from <= k <= |log| && Denied(log, k, end, limit, count, align)
  }

  lemma DeniedOnce(log: seq<GrowEvent>, from: nat, end: int, limit: int, count: nat, align: nat)
    requires align >= 1 && from <= |log| && Denied(log, from, end, limit, count, align)
    ensures DeniedSince(log, from, end, limit, count, align)
  {
    hide Denied;
  }

  ghost predicate EventsOk(log: seq<GrowEvent>, from: int, limit: int, pages: map<int, Page>,
                           count: nat, align: nat, served: bool)
    requires align >= 1
  {
    forall k :: 0 <= from <= k < |log| ==> EventOk(log[k], limit, pages, count, align, served)
  }

  /** Grow by `want`, or by `needed` when the larger step is refused. */
  method GrowStep(mem: Memory, needed: nat, want: nat) returns (start: Option<nat>, got: nat)
    requires mem.Valid() && needed <= want
    modifies mem`size, mem`bytes, mem`granted, mem`log
    ensures mem.Valid() && Grew(old(mem.bytes), old(mem.granted), old(mem.size), mem.bytes, mem.granted, mem.size)
    ensures needed <= got <= want
    ensures match start
            case Some(s) => old(mem.size) <= s && s + got <= mem.size && mem.granted == old(mem.granted) + Range(s, got)
            case None => mem.granted == old(mem.granted)
    ensures old(mem.log) <= mem.log && |old(mem.log)| < |mem.log|
    ensures forall k :: |old(mem.log)| <= k < |mem.log| ==>
              StepEvent(mem.log[k], old(mem.size), needed, want, mem.pages, start, got)
    ensures LastStep(mem.log, |old(mem.log)|, old(mem.size), needed, start, got)
    ensures needed == want ==> |mem.log| == |old(mem.log)| + 1
    ensures StepLog(mem.log, |old(mem.log)|, old(mem.size), needed, want, start, got)
  {
    hide At;
    start := mem.Grow(want);
    got := want;
    if start.None? && want > needed {
      start := mem.Grow(needed);
      got := needed;
    }
  }

  /** The last event since `from` is the outcome, the only grant among them, and a refusal of the bare need if
      it is one. */
  ghost predicate LastStep(log: seq<GrowEvent>, from: nat, size: int, needed: nat, start: Option<nat>, got: nat) {
    && from < |log| && log[|log| - 1].end == size && log[|log| - 1].start == start && log[|log| - 1].want == got
    && (start.None? ==> got == needed)
    && forall k :: from <= k < |log| - 1 ==> log[k].start.None?
  }

  /** The events since `from`, all of them: the step is asked for first, and the bare need only after a refusal of
      a step that was larger. */
  ghost predicate StepLog(log: seq<GrowEvent>, from: nat, size: int, needed: nat, want: nat, start: Option<nat>,
                          got: nat)
  {
    && from < |log| && log[from].end == size && log[from].want == want
    && if log[from].start.Some? || want == needed then |log| == from + 1 && start == log[from].start && got == want
       else
         && |log| == from + 2 && log[from + 1].end == size && log[from + 1].want == needed == got
         && start == log[from + 1].start
  }

  /** How a search for an aligned run asks for memory: first for the slack and the run or the growth step, whichever
      is larger, cut off at the limit; then, only if that was more than the bare need and refused, for the bare
      need; then, only after a grant, for as much as fits a run at any start; and no more. */
  ghost predicate Asked(log: seq<GrowEvent>, from: nat, base: nat, limit: int, count: nat, align: nat, p: GrowPolicy)
    requires align >= 1
  {
    from < |log| ==>
      && log[from].end >= 0
      && var e, bare := log[from], Pad(log[from].end, align) + count;
         && FirstRequest(e, bare, base, limit, p)
         && if e.start.Some? then Retried(log, from + 1, count + align - 1)
            else if e.want == bare then |log| == from + 1
            else
              && |log| >= from + 2 && log[from + 1].end == e.end && log[from + 1].want == bare
              && if log[from + 1].start.Some? then Retried(log, from + 2, count + align - 1) else |log| == from + 2
  }

  /** A first request: the larger of the need and the step of the heap between `base` and the end of memory, cut
      off at the limit. */
  ghost predicate FirstRequest(e: GrowEvent, need: nat, base: nat, limit: int, p: GrowPolicy) {
    exists s: nat ::
      IsStep(p, HeapSlices(base, e.end), s) && e.want == Min(Max(need, s), limit - e.end)
  }

  ghost predicate Retried(log: seq<GrowEvent>, from: nat, worst: int) {
    |log| == from || (|log| == from + 1 && log[from].want == worst)
  }

  /** An event of `GrowStep`: asked at `size` for the step or the bare need, and granted only as the result. */
  ghost predicate StepEvent(e: GrowEvent, size: int, needed: nat, want: nat, pages: map<int, Page>,
                            start: Option<nat>, got: nat)
  {
    && e.end == size && needed <= e.want <= want && e.pages == pages
    && (e.start.Some? ==> start == e.start && got == e.want)
  }

  lemma GainRange(free: set<int>, granted: set<int>, start: nat, got: nat, limit: int)
    requires Range(start, got) !! granted
    ensures Gained(free, granted, free + Usable(Range(start, got), limit), granted + Range(start, got), limit)
  {
    assert granted + Range(start, got) - granted == Range(start, got);
  }

  lemma GainNothing(free: set<int>, granted: set<int>, limit: int)
    ensures Gained(free, granted, free, granted, limit)
  {
  }

  /** Grow by `want`, or by `needed` when the larger step is refused, and give the region to the map. */
  method StepRegion(map_: SliceMap, mem: Memory, needed: nat, want: nat) returns (start: Option<nat>, got: nat)
    requires Backed(map_, mem) && needed <= want
    modifies map_, map_.free, map_.zero, mem`size, mem`bytes, mem`granted, mem`log
    ensures Backed(map_, mem) && map_.base == old(map_.base)
    ensures Gained(old(map_.freeSet), old(mem.granted), map_.freeSet, mem.granted, map_.UsableLimit())
    ensures Gained(old(map_.zeroSet), old(mem.granted), map_.zeroSet, mem.granted, map_.UsableLimit())
    ensures Grew(old(mem.bytes), old(mem.granted), old(mem.size), mem.bytes, mem.granted, mem.size)
    ensures old(mem.log) <= mem.log && |old(mem.log)| < |mem.log|
    ensures forall k :: |old(mem.log)| <= k < |mem.log| ==>
              StepEvent(mem.log[k], old(mem.size), needed, want, mem.pages, start, got)
    ensures needed <= got <= want && LastStep(mem.log, |old(mem.log)|, old(mem.size), needed, start, got)
    ensures needed == want ==> |mem.log| == |old(mem.log)| + 1
    ensures StepLog(mem.log, |old(mem.log)|, old(mem.size), needed, want, start, got)
    ensures match start
            case Some(t) => map_.freeSet == old(map_.freeSet) + Usable(Range(t, got), map_.UsableLimit())
            case None => map_.freeSet == old(map_.freeSet) && map_.zeroSet == old(map_.zeroSet)
                         && mem.granted == old(mem.granted)
  {
    hide Represents, EmptyBelow, Gained, Grew, StepEvent, LastStep, StepLog, Range, Usable;
    ghost var limit, granted0, size0, free0 := map_.UsableLimit(), mem.granted, mem.size, map_.freeSet;
    start, got := GrowStep(mem, needed, want);
    if start.Some? {
      GrantApart(map_, granted0, size0, start.value, got);
      GainRange(map_.freeSet, granted0, start.value, got, limit);
      GainRange(map_.zeroSet, granted0, start.value, got, limit);
      AddRegion(map_, start.value, got);
      GainBacked(free0, granted0, map_.freeSet, mem.granted, limit);
    } else {
      GainNothing(map_.freeSet, mem.granted, limit);
      GainNothing(map_.zeroSet, mem.granted, limit);
    }
  }

  lemma GainBacked(free: set<int>, granted: set<int>, freeNow: set<int>, now: set<int>, limit: int)
    requires Gained(free, granted, freeNow, now, limit) && free <= Usable(granted, limit)
    ensures freeNow <= Usable(now, limit)
  {
  }

  /** A fresh grant meets neither the map's free slices nor earlier grants. */
  lemma GrantApart(map_: SliceMap, granted: set<int>, size: int, start: nat, got: nat)
    requires map_.Valid() && map_.freeSet <= Usable(granted, map_.UsableLimit())
    requires forall s :: s in granted ==> s < size
    requires size <= start
    ensures Range(start, got) !! map_.freeSet && Range(start, got) !! granted
  {
    hide Represents, EmptyBelow;
  }

  /** A region for an aligned run: grown from an end at which `needed` covers the slack. */
  method GrowRegion(map_: SliceMap, mem: Memory, needed: nat, want: nat, ghost count: nat, ghost align: nat)
    returns (start: Option<nat>, got: nat)
    requires Backed(map_, mem) && needed <= want && count >= 1 && align >= 1
    requires needed >= Pad(mem.size, align) + count && mem.size + want <= map_.UsableLimit()
    modifies map_, map_.free, map_.zero, mem`size, mem`bytes, mem`granted, mem`log
    ensures Backed(map_, mem) && map_.base == old(map_.base)
    ensures Gained(old(map_.freeSet), old(mem.granted), map_.freeSet, mem.granted, map_.UsableLimit())
    ensures Gained(old(map_.zeroSet), old(mem.granted), map_.zeroSet, mem.granted, map_.UsableLimit())
    ensures Grew(old(mem.bytes), old(mem.granted), old(mem.size), mem.bytes, mem.granted, mem.size)
    ensures old(mem.log) <= mem.log && |old(mem.log)| < |mem.log|
    ensures EventsOk(mem.log, |old(mem.log)|, map_.UsableLimit(), mem.pages, count, align,
                     !NoFit(map_.freeSet, count, align))
    ensures start.None? ==> map_.freeSet == old(map_.freeSet) && map_.zeroSet == old(map_.zeroSet)
                            && mem.granted == old(mem.granted)
    ensures needed <= got <= want && LastStep(mem.log, |old(mem.log)|, old(mem.size), needed, start, got)
    ensures needed == want ==> |mem.log| == |old(mem.log)| + 1
    ensures StepLog(mem.log, |old(mem.log)|, old(mem.size), needed, want, start, got)
    ensures start.Some? && NoFit(map_.freeSet, count, align) && got >= count + align - 1 ==>
              start.value + got > map_.UsableLimit()
  {
    hide Represents, EmptyBelow, NoFit, Gained, Grew, LastStep, StepLog, Range, Usable;
    start, got := StepRegion(map_, mem, needed, want);
    if start.Some? && start.value + got <= map_.UsableLimit() && got >= Pad(start.value, align) + count {
      RegionFits(map_, start.value, got, count, align);
    }
  }

  /** What the map had at `granted` plus what it gained since. */
  ghost function WithGain(slices: set<int>, granted: set<int>, now: set<int>, limit: int): set<int> {
    slices + Usable(now - granted, limit)
  }

  lemma NoGain(slices: set<int>, granted: set<int>, limit: int)
    ensures WithGain(slices, granted, granted, limit) == slices
  {
    assert granted - granted == {};
    assert Usable({}, limit) == {};
  }

  lemma GainedIs(free: set<int>, granted: set<int>, freeNow: set<int>, now: set<int>, limit: int)
    requires Gained(free, granted, freeNow, now, limit)
    ensures freeNow == WithGain(free, granted, now, limit)
  {
  }

  lemma ServedOrNot(r: Option<Run>, count: nat, align: nat, free: set<int>, zero: set<int>,
                    freeNow: set<int>, zeroNow: set<int>)
    requires align >= 1 && Served(r, count, align, free, zero, freeNow, zeroNow)
    ensures r.Some? <==> !NoFit(free, count, align)
    ensures r.None? ==> freeNow == free && zeroNow == zero
    ensures freeNow <= free
  {
  }

  lemma EventsAppend(log: seq<GrowEvent>, more: seq<GrowEvent>, from: nat, limit: int, pages: map<int, Page>,
                     count: nat, align: nat, served: bool)
    requires align >= 1 && log <= more && EventsOk(log, from, limit, pages, count, align, false)
    requires EventsOk(more, |log|, limit, pages, count, align, served)
    ensures EventsOk(more, from, limit, pages, count, align, served)
  {
    hide Pad;
    forall k | from <= k < |more|
      ensures EventOk(more[k], limit, pages, count, align, served)
    {
      if k < |log| { assert more[k] == log[k]; }
    }
  }

  lemma NoEvents(log: seq<GrowEvent>, limit: int, pages: map<int, Page>, count: nat, align: nat, served: bool)
    requires align >= 1
    ensures EventsOk(log, |log|, limit, pages, count, align, served)
  {
  }

  lemma GrewNothing(bytes: map<int, Byte>, granted: set<int>, size: int, sizeNow: int)
    requires size <= sizeNow
    ensures Grew(bytes, granted, size, bytes, granted, sizeNow)
  {
  }

  /** The lowest fitting run, growing memory only when the map has none. */
  method Acquire(map_: SliceMap, mem: Memory, count: nat, align: nat, policy: GrowPolicy) returns (r: Option<Run>)
    requires Backed(map_, mem) && count >= 1 && align >= 1
    modifies map_, map_.free, map_.zero, mem`size, mem`bytes, mem`granted, mem`log
    ensures Backed(map_, mem) && map_.base == old(map_.base)
    ensures Grew(old(mem.bytes), old(mem.granted), old(mem.size), mem.bytes, mem.granted, mem.size)
    ensures Served(r, count, align,
                   WithGain(old(map_.freeSet), old(mem.granted), mem.granted, map_.UsableLimit()),
                   WithGain(old(map_.zeroSet), old(mem.granted), mem.granted, map_.UsableLimit()),
                   map_.freeSet, map_.zeroSet)
    ensures old(mem.log) <= mem.log
    ensures EventsOk(mem.log, |old(mem.log)|, map_.UsableLimit(), mem.pages, count, align, r.Some?)
    ensures r.None? ==> Denied(mem.log, |old(mem.log)|, mem.size, map_.UsableLimit(), count, align)
    ensures Asked(mem.log, |old(mem.log)|, map_.base, map_.UsableLimit(), count, align, policy)
    ensures !old(NoFit(map_.freeSet, count, align)) ==> mem.log == old(mem.log) && mem.granted == old(mem.granted)
  {
    hide Represents, EmptyBelow, NoFit, Fits, WithGain, EventsOk, Served, Grew, Usable, Denied, FirstRequest;
    ghost var f0, z0 := map_.freeSet, map_.zeroSet;
    NoGain(f0, mem.granted, map_.UsableLimit());
    NoGain(z0, mem.granted, map_.UsableLimit());
    GrewNothing(mem.bytes, mem.granted, mem.size, mem.size);
    NoEvents(mem.log, map_.UsableLimit(), mem.pages, count, align, true);
    r := map_.Alloc(count, align);
    ServedOrNot(r, count, align, f0, z0, map_.freeSet, map_.zeroSet);
    if r.None? {
      r := GrowAndAlloc(map_, mem, count, align, policy);
    }
  }

  method GrowAndAlloc(map_: SliceMap, mem: Memory, count: nat, align: nat, policy: GrowPolicy) returns (r: Option<Run>)
    requires Backed(map_, mem) && count >= 1 && align >= 1 && NoFit(map_.freeSet, count, align)
    modifies map_, map_.free, map_.zero, mem`size, mem`bytes, mem`granted, mem`log
    ensures Backed(map_, mem) && map_.base == old(map_.base)
    ensures Grew(old(mem.bytes), old(mem.granted), old(mem.size), mem.bytes, mem.granted, mem.size)
    ensures Served(r, count, align,
                   WithGain(old(map_.freeSet), old(mem.granted), mem.granted, map_.UsableLimit()),
                   WithGain(old(map_.zeroSet), old(mem.granted), mem.granted, map_.UsableLimit()),
                   map_.freeSet, map_.zeroSet)
    ensures old(mem.log) <= mem.log
    ensures EventsOk(mem.log, |old(mem.log)|, map_.UsableLimit(), mem.pages, count, align, r.Some?)
    ensures r.None? ==> Denied(mem.log, |old(mem.log)|, mem.size, map_.UsableLimit(), count, align)
    ensures Asked(mem.log, |old(mem.log)|, map_.base, map_.UsableLimit(), count, align, policy)
  {
    hide Represents, EmptyBelow, NoFit, Fits, Pad, WithGain, EventsOk, Grew, Usable, Gained, Denied, LastStep, StepLog,
         Asked, FirstRequest;
    ghost var limit := map_.UsableLimit();
    ghost var f0, z0, g0, b0, s0, l0 := map_.freeSet, map_.zeroSet, mem.granted, mem.bytes, mem.size, mem.log;
    NoGain(f0, g0, limit);
    NoGain(z0, g0, limit);
    NoEvents(l0, limit, mem.pages, count, align, false);
    var end := mem.SizeSlices();
    ghost var s1 := mem.size;
    GrewNothing(b0, g0, s0, s1);
    var needed := Pad(end, align) + count;
    var room := if map_.UsableLimit() < end then 0 else map_.UsableLimit() - end;
    if needed > room {
      NotAsked(l0, end, limit, count, align);
      NothingAsked(l0, map_.base, limit, count, align, policy);
      return None;
    }
    var step := GrowthStep(map_.base, end, policy);
    var want := Min(if needed < step then step else needed, room);
    var start, got := GrowRegion(map_, mem, needed, want, count, align);
    ghost var f2, z2 := map_.freeSet, map_.zeroSet;
    GrewTwice(b0, g0, s0, b0, g0, s1, mem.bytes, mem.granted, mem.size);
    GainedIs(f0, g0, f2, mem.granted, limit);
    GainedIs(z0, g0, z2, mem.granted, limit);
    if start.None? {
      BareRefused(mem.log, |l0|, end, needed, start, got, mem.size, limit, count, align);
      AskedOnce(mem.log, mem.log, |l0|, map_.base, end, limit, needed, want, start, got, count, align, policy);
      return None;
    }
    GrantElsewhere(mem.log, |l0|, end, needed, start, got);
    ghost var l2 := mem.log;
    r := AllocOrRetry(map_, mem, count, align, f0, z0, g0, b0, s0, |l0|);
    AskedOnce(l2, mem.log, |l0|, map_.base, end, limit, needed, want, start, got, count, align, policy);
  }

  /** Serve the request from a fresh grant, or ask once more. */
  method AllocOrRetry(map_: SliceMap, mem: Memory, count: nat, align: nat, ghost f0: set<int>, ghost z0: set<int>,
                      ghost g0: set<int>, ghost b0: map<int, Byte>, ghost s0: int, ghost from: nat)
    returns (r: Option<Run>)
    requires Backed(map_, mem) && count >= 1 && align >= 1
    requires Gained(f0, g0, map_.freeSet, mem.granted, map_.UsableLimit())
    requires Gained(z0, g0, map_.zeroSet, mem.granted, map_.UsableLimit())
    requires Grew(b0, g0, s0, mem.bytes, mem.granted, mem.size)
    requires from < |mem.log| && mem.log[|mem.log| - 1].start.Some?
    requires |mem.log| >= from + 2 ==> mem.log[|mem.log| - 2].start.None?
    requires EventsOk(mem.log, from, map_.UsableLimit(), mem.pages, count, align, !NoFit(map_.freeSet, count, align))
    modifies map_, map_.free, map_.zero, mem`size, mem`bytes, mem`granted, mem`log
    ensures Backed(map_, mem) && map_.base == old(map_.base)
    ensures Grew(b0, g0, s0, mem.bytes, mem.granted, mem.size)
    ensures Served(r, count, align, WithGain(f0, g0, mem.granted, map_.UsableLimit()),
                   WithGain(z0, g0, mem.granted, map_.UsableLimit()), map_.freeSet, map_.zeroSet)
    ensures old(mem.log) <= mem.log
    ensures EventsOk(mem.log, from, map_.UsableLimit(), mem.pages, count, align, r.Some?)
    ensures r.None? ==> Denied(mem.log, from, mem.size, map_.UsableLimit(), count, align)
    ensures Retried(mem.log, |old(mem.log)|, count + align - 1)
  {
    hide Represents, EmptyBelow, NoFit, Fits, Pad, WithGain, EventsOk, Grew, Usable, Gained, Denied;
    ghost var limit, f2, z2, l2 := map_.UsableLimit(), map_.freeSet, map_.zeroSet, mem.log;
    GainedIs(f0, g0, f2, mem.granted, limit);
    GainedIs(z0, g0, z2, mem.granted, limit);
    r := map_.Alloc(count, align);
    ServedOrNot(r, count, align, f2, z2, map_.freeSet, map_.zeroSet);
    if r.Some? {
      return;
    }
    r := RetryAnywhere(map_, mem, count, align, f0, z0, g0, b0, s0);
    EventsAppend(l2, mem.log, from, limit, mem.pages, count, align, r.Some?);
    if r.None? { RetryDenied(l2, mem.log, from, mem.size, limit, count, align); }
  }

  lemma NothingAsked(log: seq<GrowEvent>, base: nat, limit: int, count: nat, align: nat, p: GrowPolicy)
    requires align >= 1
    ensures Asked(log, |log|, base, limit, count, align, p)
  {
  }

  /** A growth step and what followed it make the requests of a search. */
  lemma AskedOnce(log: seq<GrowEvent>, more: seq<GrowEvent>, from: nat, base: nat, end: nat, limit: nat, needed: nat,
                  want: nat, start: Option<nat>, got: nat, count: nat, align: nat, p: GrowPolicy)
    requires align >= 1 && needed == Pad(end, align) + count && end + needed <= limit
    requires want == Min(if needed < GrowthStep(base, end, p) then GrowthStep(base, end, p) else needed, limit - end)
    requires StepLog(log, from, end, needed, want, start, got) && log <= more
    requires if start.Some? then Retried(more, |log|, count + align - 1) else more == log
    ensures Asked(more, from, base, limit, count, align, p)
  {
    hide Pad, IsStep;
    StepIs(p, HeapSlices(base, end));
    assert IsStep(p, HeapSlices(base, end), GrowthStep(base, end, p));
    assert more[from] == log[from];
    assert FirstRequest(more[from], needed, base, limit, p);
    if |log| == from + 2 { assert more[from + 1] == log[from + 1]; }
  }

  lemma NotAsked(log: seq<GrowEvent>, end: nat, limit: nat, count: nat, align: nat)
    requires align >= 1 && Pad(end, align) + count > (if limit < end then 0 else limit - end)
    ensures Denied(log, |log|, end, limit, count, align)
  {
    hide Pad;
  }

  lemma BareRefused(log: seq<GrowEvent>, from: nat, size: nat, needed: nat, start: Option<nat>, got: nat,
                    end: int, limit: int, count: nat, align: nat)
    requires align >= 1 && needed == Pad(size, align) + count
    requires LastStep(log, from, size, needed, start, got) && start.None?
    ensures Denied(log, from, end, limit, count, align)
  {
    hide Pad;
  }

  lemma GrantElsewhere(log: seq<GrowEvent>, from: nat, size: nat, needed: nat, start: Option<nat>, got: nat)
    requires LastStep(log, from, size, needed, start, got)
    ensures from < |log| && log[|log| - 1].start == start
    ensures |log| >= from + 2 ==> log[|log| - 2].start.None?
  {
  }

  /** Why a retry failed: it found no room to ask, or its own request was refused or granted past the limit. */
  ghost predicate RetryFailed(more: seq<GrowEvent>, n: nat, end: int, limit: int, worst: int) {
    if |more| == n then worst > limit - end || worst > USIZE_MAX
    else |more| == n + 1 && more[n].want == worst && (more[n].start.Some? ==> more[n].start.value + worst > limit)
  }

  lemma RetryAsked(log: seq<GrowEvent>, from: nat, size: nat, end: int, limit: int, worst: nat, start: Option<nat>)
    requires LastStep(log, from, size, worst, start, worst) && |log| == from + 1
    requires start.Some? ==> start.value + worst > limit
    ensures RetryFailed(log, from, end, limit, worst)
  {
  }

  lemma RetryIs(log: seq<GrowEvent>, from: nat, size: nat, worst: nat, start: Option<nat>, got: nat)
    requires StepLog(log, from, size, worst, worst, start, got)
    ensures Retried(log, from, worst)
  {
  }

  lemma RetryDenied(log: seq<GrowEvent>, more: seq<GrowEvent>, from: nat, end: int, limit: int, count: nat, align: nat)
    requires align >= 1 && from < |log| && log <= more && log[|log| - 1].start.Some?
    requires |log| >= from + 2 ==> log[|log| - 2].start.None?
    requires RetryFailed(more, |log|, end, limit, count + align - 1)
    ensures Denied(more, from, end, limit, count, align)
  {
    hide Pad;
    assert more[|log| - 1] == log[|log| - 1];
    if |log| >= from + 2 { assert more[|log| - 2] == log[|log| - 2]; }
  }

  /** The second request of a search, made when the first grant began elsewhere than expected and still left
      no fit: long enough for an aligned run at any start. */
  method RetryAnywhere(map_: SliceMap, mem: Memory, count: nat, align: nat,
                       ghost f0: set<int>, ghost z0: set<int>, ghost g0: set<int>, ghost b0: map<int, Byte>,
                       ghost s0: int)
    returns (r: Option<Run>)
    requires Backed(map_, mem) && count >= 1 && align >= 1 && NoFit(map_.freeSet, count, align)
    requires Gained(f0, g0, map_.freeSet, mem.granted, map_.UsableLimit())
    requires Gained(z0, g0, map_.zeroSet, mem.granted, map_.UsableLimit())
    requires Grew(b0, g0, s0, mem.bytes, mem.granted, mem.size)
    modifies map_, map_.free, map_.zero, mem`size, mem`bytes, mem`granted, mem`log
    ensures Backed(map_, mem) && map_.base == old(map_.base)
    ensures Grew(b0, g0, s0, mem.bytes, mem.granted, mem.size)
    ensures Served(r, count, align, WithGain(f0, g0, mem.granted, map_.UsableLimit()),
                   WithGain(z0, g0, mem.granted, map_.UsableLimit()), map_.freeSet, map_.zeroSet)
    ensures old(mem.log) <= mem.log
    ensures EventsOk(mem.log, |old(mem.log)|, map_.UsableLimit(), mem.pages, count, align, r.Some?)
    ensures r.None? ==> RetryFailed(mem.log, |old(mem.log)|, mem.size, map_.UsableLimit(), count + align - 1)
    ensures Retried(mem.log, |old(mem.log)|, count + align - 1)
  {
    hide Represents, EmptyBelow, NoFit, Fits, Pad, WithGain, EventsOk, Grew, Usable, Gained, LastStep, StepLog;
    ghost var limit := map_.UsableLimit();
    ghost var f1, z1, g1, b1, s1, l0 := map_.freeSet, map_.zeroSet, mem.granted, mem.bytes, mem.size, mem.log;
    GainedIs(f0, g0, f1, g1, limit);
    GainedIs(z0, g0, z1, g1, limit);
    NoEvents(mem.log, limit, mem.pages, count, align, false);
    var worst := count + (align - 1);
    var now := mem.SizeSlices();
    ghost var s2 := mem.size;
    GrewNothing(b1, g1, s1, s2);
    GrewTwice(b0, g0, s0, b1, g1, s1, b1, g1, s2);
    if worst > USIZE_MAX || worst > (if map_.UsableLimit() < now then 0 else map_.UsableLimit() - now) {
      return None;
    }
    var again, all := GrowRegion(map_, mem, worst, worst, count, align);
    RetryIs(mem.log, |l0|, now, worst, again, all);
    ghost var f2, z2 := map_.freeSet, map_.zeroSet;
    GainedTwice(f0, g0, f1, g1, f2, mem.granted, limit);
    GainedTwice(z0, g0, z1, g1, z2, mem.granted, limit);
    GainedIs(f0, g0, f2, mem.granted, limit);
    GainedIs(z0, g0, z2, mem.granted, limit);
    GrewTwice(b0, g0, s0, b1, g1, s2, mem.bytes, mem.granted, mem.size);
    if again.None? {
      RetryAsked(mem.log, |l0|, now, mem.size, limit, worst, again);
      return None;
    }
    r := map_.Alloc(count, align);
    ServedOrNot(r, count, align, f2, z2, map_.freeSet, map_.zeroSet);
    if r.None? { RetryAsked(mem.log, |l0|, now, mem.size, limit, worst, again); }
  }

  /** A contiguous grant is always enough: `acquire` cannot fail after one, and after the retry's
      `count + align - 1` it cannot fail unless the region passes the usable limit. */
  lemma ContiguousGrantServes(e: GrowEvent, limit: int, pages: map<int, Page>, count: nat, align: nat, served: bool)
    requires align >= 1 && count >= 1 && EventOk(e, limit, pages, count, align, served) && e.start.Some?
    ensures e.start.value == e.end ==> served
    ensures e.want >= count + align - 1 && e.start.value + e.want <= limit ==> served
  {
    hide Pad;
    assert Pad(e.start.value, align) <= align - 1;
  }

  // ---------------------------------------------------------------------------------------------
  // Growing a run in place
  // ---------------------------------------------------------------------------------------------

  /** The outcome of extending a run whose end is `tail` by `extra`: exactly those slices claimed, or none. */
  ghost predicate Extended(r: Option<bool>, tail: int, extra: nat, free: set<int>, zero: set<int>,
                           freeNow: set<int>, zeroNow: set<int>)
  {
    match r
    case None => freeNow == free && zeroNow == zero
    case Some(zeroed) =>
      && Range(tail, extra) <= free
      && freeNow == free - Range(tail, extra)
      && zeroNow == zero - Range(tail, extra)
      && (zeroed <==> Range(tail, extra) <= zero)
  }

  /** A grow on behalf of a run: some slice the run needs was not free, all slices between the run and the end of
      memory were, the request stays below `limit`, and a grant starting where memory ended completes the run. */
  ghost predicate ExtendEvent(e: GrowEvent, limit: int, pages: map<int, Page>, tail: int, extra: nat,
                              free: set<int>, extended: bool)
  {
    && e.end + e.want <= limit && e.pages == pages
    && !(Range(tail, extra) <= free)
    && tail <= e.end && Range(tail, e.end - tail) <= free
    && (e.start == Some(e.end) ==> extended)
  }

  /** Growing memory would complete the run: everything from its end to the end of memory is free, something
      is missing, and it fits below the limit. */
  ghost predicate CanGrow(end: int, limit: int, tail: int, extra: int, free: set<int>) {
    && tail <= end <= limit && end - tail < extra && Range(tail, end - tail) <= free
    && extra - (end - tail) <= limit - end
  }

  /** How a run's extension asks for memory: for what is missing or the growth step, whichever is larger, cut off at
      the limit; then, only if that was more than what is missing and refused, for what is missing; and no more. */
  ghost predicate ExtendAsked(log: seq<GrowEvent>, from: nat, base: nat, limit: int, tail: int, extra: int,
                              p: GrowPolicy)
  {
    from < |log| ==>
      var e, need := log[from], extra - (log[from].end - tail);
      && need >= 0 && FirstRequest(e, need, base, limit, p)
      && if e.start.Some? || e.want == need then |log| == from + 1
         else |log| == from + 2 && log[from + 1].end == e.end && log[from + 1].want == need
  }

  lemma ExtendAskedOnce(log: seq<GrowEvent>, from: nat, base: nat, end: nat, limit: nat, need: nat, want: nat,
                        start: Option<nat>, got: nat, tail: int, extra: int, p: GrowPolicy)
    requires need == extra - (end - tail) && end + need <= limit
    requires want == Min(if need < GrowthStep(base, end, p) then GrowthStep(base, end, p) else need, limit - end)
    requires StepLog(log, from, end, need, want, start, got)
    ensures ExtendAsked(log, from, base, limit, tail, extra, p)
  {
    hide IsStep;
    StepIs(p, HeapSlices(base, end));
    assert IsStep(p, HeapSlices(base, end), GrowthStep(base, end, p));
    assert FirstRequest(log[from], need, base, limit, p);
  }

  /** Why a run was not extended: growing memory could not have completed it; or memory refused even the slices
      that were missing, a larger step before that included; or the grant lay elsewhere. */
  ghost predicate ExtendDenied(log: seq<GrowEvent>, from: int, end: int, limit: int, tail: int, extra: int,
                               free: set<int>)
    requires from >= 0
  {
    if |log| <= from then !CanGrow(end, limit, tail, extra, free)
    else
      var e := log[|log| - 1];
      if e.start.None? then e.want == extra - (e.end - tail) else e.start.value != e.end
  }

  lemma ExtendRefused(log: seq<GrowEvent>, from: nat, size: nat, need: nat, start: Option<nat>, got: nat,
                      end: int, limit: int, tail: int, extra: int, free: set<int>)
    requires LastStep(log, from, size, need, start, got) && need == extra - (size - tail) && start != Some(size)
    ensures ExtendDenied(log, from, end, limit, tail, extra, free)
  {
  }

  ghost predicate ExtendEvents(log: seq<GrowEvent>, from: int, limit: int, pages: map<int, Page>, tail: int,
                               extra: nat, free: set<int>, extended: bool)
  {
    forall k :: 0 <= from <= k < |log| ==> ExtendEvent(log[k], limit, pages, tail, extra, free, extended)
  }

  lemma NoExtendEvents(log: seq<GrowEvent>, limit: int, pages: map<int, Page>, tail: int, extra: nat,
                       free: set<int>, extended: bool)
    ensures ExtendEvents(log, |log|, limit, pages, tail, extra, free, extended)
  {
  }

  /** Lengthen a run in place: from the map when `extra` slices follow it, and otherwise by growing memory,
      which `ExtendEvents` confines to runs with nothing but free slices above them. */
  method ExtendWithGrowth(map_: SliceMap, mem: Memory, start: nat, count: nat, extra: nat, policy: GrowPolicy)
    returns (r: Option<bool>)
    requires Backed(map_, mem) && count >= 1 && extra >= 1
    requires map_.base <= start && start + count <= map_.Limit()
    modifies map_, map_.free, map_.zero, mem`size, mem`bytes, mem`granted, mem`log
    ensures Backed(map_, mem) && map_.base == old(map_.base)
    ensures Grew(old(mem.bytes), old(mem.granted), old(mem.size), mem.bytes, mem.granted, mem.size)
    ensures Extended(r, start + count, extra,
                     WithGain(old(map_.freeSet), old(mem.granted), mem.granted, map_.UsableLimit()),
                     WithGain(old(map_.zeroSet), old(mem.granted), mem.granted, map_.UsableLimit()),
                     map_.freeSet, map_.zeroSet)
    ensures old(mem.log) <= mem.log
    ensures ExtendEvents(mem.log, |old(mem.log)|, map_.UsableLimit(), mem.pages, start + count, extra,
                         old(map_.freeSet), r.Some?)
    ensures Range(start + count, extra) <= old(map_.freeSet) ==> r.Some? && mem.log == old(mem.log)
    ensures r.None? ==> ExtendDenied(mem.log, |old(mem.log)|, mem.size, map_.UsableLimit(), start + count, extra,
                                     old(map_.freeSet))
    ensures ExtendAsked(mem.log, |old(mem.log)|, map_.base, map_.UsableLimit(), start + count, extra, policy)
  {
    hide Represents, EmptyBelow, WithGain, ExtendEvents, Grew, Usable, Range, ExtendDenied, FirstRequest;
    ghost var f0, z0 := map_.freeSet, map_.zeroSet;
    NoGain(f0, mem.granted, map_.UsableLimit());
    NoGain(z0, mem.granted, map_.UsableLimit());
    GrewNothing(mem.bytes, mem.granted, mem.size, mem.size);
    NoExtendEvents(mem.log, map_.UsableLimit(), mem.pages, start + count, extra, f0, true);
    r := map_.TryExtend(start, count, extra);
    if r.None? {
      r := GrowAndExtend(map_, mem, start, count, extra, policy);
    }
  }

  method GrowAndExtend(map_: SliceMap, mem: Memory, start: nat, count: nat, extra: nat, policy: GrowPolicy)
    returns (r: Option<bool>)
    requires Backed(map_, mem) && count >= 1 && extra >= 1
    requires map_.base <= start && start + count <= map_.Limit()
    requires !(Range(start + count, extra) <= map_.freeSet)
    modifies map_, map_.free, map_.zero, mem`size, mem`bytes, mem`granted, mem`log
    ensures Backed(map_, mem) && map_.base == old(map_.base)
    ensures Grew(old(mem.bytes), old(mem.granted), old(mem.size), mem.bytes, mem.granted, mem.size)
    ensures Extended(r, start + count, extra,
                     WithGain(old(map_.freeSet), old(mem.granted), mem.granted, map_.UsableLimit()),
                     WithGain(old(map_.zeroSet), old(mem.granted), mem.granted, map_.UsableLimit()),
                     map_.freeSet, map_.zeroSet)
    ensures old(mem.log) <= mem.log
    ensures ExtendEvents(mem.log, |old(mem.log)|, map_.UsableLimit(), mem.pages, start + count, extra,
                         old(map_.freeSet), r.Some?)
    ensures r.None? ==> ExtendDenied(mem.log, |old(mem.log)|, mem.size, map_.UsableLimit(), start + count, extra,
                                     old(map_.freeSet))
    ensures ExtendAsked(mem.log, |old(mem.log)|, map_.base, map_.UsableLimit(), start + count, extra, policy)
  {
    hide Represents, EmptyBelow, WithGain, ExtendEvents, Grew, Usable, Gained, Range, LastStep,
         StepEvent, StepLog, FirstRequest;
    var tail := start + count;
    ghost var f0, z0, g0, b0, s0, l0 := map_.freeSet, map_.zeroSet, mem.granted, mem.bytes, mem.size, mem.log;
    ghost var limit := map_.UsableLimit();
    NoGain(f0, g0, limit);
    NoGain(z0, g0, limit);
    NoExtendEvents(l0, limit, mem.pages, tail, extra, f0, false);
    var end := mem.SizeSlices();
    ghost var s1 := mem.size;
    GrewNothing(b0, g0, s0, s1);
    if end < tail || end > map_.UsableLimit() {
      return None;
    }
    var have := end - tail;
    var free := map_.RunIsFree(tail, have);
    if have >= extra || !free {
      return None;
    }
    var need := extra - have;
    var room := map_.UsableLimit() - end;
    if need > room {
      return None;
    }
    var step := GrowthStep(map_.base, end, policy);
    var want := Min(if need < step then step else need, room);
    var region, got := StepRegion(map_, mem, need, want);
    ExtendAskedOnce(mem.log, |l0|, map_.base, end, limit, need, want, region, got, tail, extra, policy);
    GrewTwice(b0, g0, s0, b0, g0, s1, mem.bytes, mem.granted, mem.size);
    GainedIs(f0, g0, map_.freeSet, mem.granted, limit);
    GainedIs(z0, g0, map_.zeroSet, mem.granted, limit);
    StepEvents(l0, mem.log, end, need, want, mem.pages, region, got, limit, tail, extra, f0, region == Some(end));
    if region.None? {
      ExtendRefused(mem.log, |l0|, end, need, region, got, mem.size, limit, tail, extra, f0);
      return None;
    }
    if region.value != end {
      ExtendRefused(mem.log, |l0|, end, need, region, got, mem.size, limit, tail, extra, f0);
      return None;
    }
    TailCompleted(f0, map_.freeSet, tail, extra, end, got, limit);
    r := map_.TryExtend(start, count, extra);
  }

  lemma StepEvents(log: seq<GrowEvent>, more: seq<GrowEvent>, end: nat, need: nat, want: nat, pages: map<int, Page>,
                   start: Option<nat>, got: nat, limit: int, tail: int, extra: nat, free: set<int>, extended: bool)
    requires log <= more && end + want <= limit && tail <= end
    requires forall k :: |log| <= k < |more| ==> StepEvent(more[k], end, need, want, pages, start, got)
    requires !(Range(tail, extra) <= free) && Range(tail, end - tail) <= free
    requires start == Some(end) ==> extended
    ensures ExtendEvents(more, |log|, limit, pages, tail, extra, free, extended)
  {
    hide Range;
  }

  /** The tail up to the end of memory was free and the new region continues it. */
  lemma TailCompleted(free: set<int>, freeNow: set<int>, tail: int, extra: nat, end: nat, got: nat, limit: int)
    requires tail <= end && Range(tail, end - tail) <= free && end + got <= limit && end + got >= tail + extra
    requires freeNow == free + Usable(Range(end, got), limit)
    ensures Range(tail, extra) <= freeNow
  {
    forall s | s in Range(tail, extra) ensures s in freeNow {
      if s < end { assert s in Range(tail, end - tail); } else { assert s in Range(end, got); }
    }
  }
}
