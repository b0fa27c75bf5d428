/** The model tester driven against the heap: random operations, a table of live intervals that catches every
    overlap, and block contents that catch every lost or stray write. On this heap, over every stream of
    draws, the only failure it can report is that memory ran out, and the only panic it can end in is that of a
    resize to a size no Layout has. */
module Testers {
  import opened Arithmetic
  import opened Bins
  import opened SliceMaps
  import opened Backend
  import opened Pages
  import opened HeapStates
  import opened HeapSteps
  import opened HeapLemmas
  import Snaps
  import opened Heaps
  import opened HeapTheorems
  import opened Rng
  import opened Entropy
  import opened Patterns

  datatype Order = Random | Lifo | Fifo

  datatype Profile = Profile(ops: seq<nat>, sizes: seq<nat>, aligns: seq<nat>, sweepEvery: nat,
                             maxLiveBytes: nat, order: Order, batch: nat)

  datatype Block = Block(ptr: int, layout: Layout, seed: nat)

  datatype Op = AllocOp(layout: Layout, zeroed: bool) | DeallocOp | ReallocOp(index: nat, newSize: nat)

  /** How a run can fail: the six failures it reports, and `InvalidLayout` for the panic of a resize to a size no
      Layout has. */
  datatype FailureKind = Misaligned | Overlap | Corrupted | NotZeroed | ReallocLostBytes | AllocFailed | InvalidLayout

  const KIB := 1024
  const MIB := 1048576
  const SMALL_MAX := 10000
  const MAX_DRAWN_ALIGN := 65536

  /** What `validate` asks of a profile, with every field inside its machine type. */
  ghost predicate ProfileOk(p: Profile) {
    && |p.ops| == 4 && |p.sizes| == 4 && |p.aligns| == 7
    && p.ops[0] + p.ops[1] > 0 && Sum(p.ops) < U32
    && 1 <= Sum(p.sizes) < U32 && 1 <= Sum(p.aligns) < U32
    && 1 <= p.maxLiveBytes <= USIZE_MAX && p.batch <= USIZE_MAX
  }

  /** A Layout the tester may draw. */
  ghost predicate Drawn(l: Layout) {
    LayoutOk(l) && l.align <= MAX_DRAWN_ALIGN
  }

  /** The class a draw from `data` gives, with `left` allocations and `frees` frees to come in the batch: by the
      weights; in a batch, by the weights without frees, after the batch's length when a new one starts, and a
      free once its allocations are used up. */
  ghost predicate ClassDrawn(p: Profile, left: nat, frees: nat, data: seq<Byte>, c: nat, now: nat) {
    && |p.ops| == 4 && c < 4 &&
    var w := [p.ops[0], p.ops[1], 0, p.ops[3]];
    if p.batch == 0 then ByWeight(p.ops, data, c) && now == left
    else if left > 0 then ByWeight(w, data, c) && now == left
    else if frees > 0 then c == 2 && now == 0
    else |data| >= 4 && now == 1 + Scaled(LittleEndian(data), p.batch) && ByWeight(w, data[4..], c)
  }

  ghost predicate ByWeight(w: seq<nat>, data: seq<Byte>, c: nat) {
    |data| >= 4 && Sum(w) >= 1 && Picks(w, Scaled(LittleEndian(data), Sum(w)), c)
  }

  /** The resize a draw from `data` gives with `room` left below the cap: any block, and for the lower half of draws a
      size between half the old one and twice it, cut off at the room. */
  ghost predicate ResizeDrawn(live: seq<Block>, room: int, data: seq<Byte>, index: nat, newSize: nat) {
    && index < |live| && |data| >= 8 && index == Scaled(LittleEndian(data), |live|)
    && (Scaled(LittleEndian(data[4..]), 2) == 0 ==>
          |data| >= 12 && NearSize(live[index].layout.size, room, LittleEndian(data[8..]), newSize))
  }

  ghost predicate NearSize(size: nat, room: int, x: nat, newSize: nat)
    requires x < U32
  {
    var lo, hi := Max(size / 2, 1), Min(size * 2, USIZE_MAX);
    hi >= lo && newSize == Min(lo + Scaled(x, hi - lo + 1), room + size)
  }

  // ---------------------------------------------------------------------------------------------
  // The overlap oracle
  // ---------------------------------------------------------------------------------------------

  /** Live intervals `start -> end` are non-empty and disjoint. */
  ghost predicate IntervalsOk(m: map<int, int>) {
    (forall s :: s in m ==> s < m[s]) && forall s, t :: s in m && t in m && s < t ==> m[s] <= t
  }

  ghost predicate Overlaps(m: map<int, int>, start: int, end: int) {
    exists s :: s in m && s < end && start < m[s]
  }

  /** The last interval starting below `end`. */
  ghost predicate IsLastBelow(m: map<int, int>, end: int, last: Option<int>) {
    match last
    case None => forall s :: s in m ==> s >= end
    case Some(x) => x in m && x < end && forall s :: s in m && s < end ==> s <= x
  }

  /** One lookup is enough: of disjoint intervals, only the last below `end` can meet an interval ending there. */
  lemma LastIntervalDecides(m: map<int, int>, start: int, end: int, last: Option<int>)
    requires IntervalsOk(m) && start < end && IsLastBelow(m, end, last)
    ensures Overlaps(m, start, end) <==> last.Some? && m[last.value] > start
  {
    if Overlaps(m, start, end) {
      var s :| s in m && s < end && start < m[s];
      assert last.Some? && (s < last.value ==> m[s] <= last.value);
    }
  }

  lemma IntervalAdded(m: map<int, int>, start: int, end: int)
    requires IntervalsOk(m) && start < end && !Overlaps(m, start, end)
    ensures start !in m && IntervalsOk(m[start := end])
  {
    assert forall s :: s in m ==> s >= end || m[s] <= start;
  }

  lemma EmptySet(s: set<int>)
    ensures (forall k :: k !in s) ==> s == {}
  {
    if forall k :: k !in s { assert s == {}; }
  }

  lemma NonEmpty(s: set<int>)
    requires s != {}
    ensures exists k :: k in s
  {
    EmptySet(s);
  }

  /** The entry `BTreeMap::range(..end).next_back()` gives. */
  method LastBelow(m: map<int, int>, end: int) returns (last: Option<int>)
    ensures IsLastBelow(m, end, last)
  {
    last := None;
    var keys: set<int> := m.Keys;
    while keys != {}
      invariant keys <= m.Keys
      invariant last.None? ==> forall s :: s in m && s !in keys ==> s >= end
      invariant last.Some? ==> last.value in m && last.value < end
                               && forall s :: s in m && s !in keys && s < end ==> s <= last.value
      decreases |keys|
    {
      NonEmpty(keys);
      var k :| k in keys;
      if k < end && (last.None? || last.value < k) {
        last := Some(k);
      }
      keys := keys - {k};
    }
  }

  // ---------------------------------------------------------------------------------------------
  // The live table
  // ---------------------------------------------------------------------------------------------

  /** The blocks of the table are exactly the live blocks of the heap, each once. */
  ghost predicate TableOk(m: multiset<Block>, live: map<int, Layout>) {
    && (forall b :: b in m ==>
          m[b] == 1 && b.ptr in live && live[b.ptr] == b.layout && b.layout.align <= MAX_DRAWN_ALIGN)
    && (forall b, c :: b in m && c in m && b.ptr == c.ptr ==> b == c)
    && (forall a :: a in live ==> HasBlock(m, a))
  }

  ghost predicate HasBlock(m: multiset<Block>, a: int) {
    exists b :: b in m && b.ptr == a
  }

  ghost predicate AddressesOk(byAddr: map<int, int>, live: map<int, Layout>) {
    byAddr.Keys == live.Keys && forall a :: a in live ==> byAddr[a] == a + live[a].size
  }

  /** Every block holds its pattern. */
  ghost predicate ContentsOk(m: multiset<Block>, bytes: map<int, Byte>) {
    forall b :: b in m ==> Patterned(bytes, b.ptr, b.layout.size, b.layout.size, Some(b.seed))
  }

  function Total(blocks: seq<Block>): nat {
    if blocks == [] then 0 else Total(blocks[..|blocks| - 1]) + blocks[|blocks| - 1].layout.size
  }

  lemma {:induction false} TotalJoin(a: seq<Block>, b: seq<Block>)
    ensures Total(a + b) == Total(a) + Total(b)
  {
    if b == [] {
      assert a + b == a;
    } else {
      TotalJoin(a, b[..|b| - 1]);
      assert (a + b)[..|a + b| - 1] == a + b[..|b| - 1];
    }
  }

  lemma TotalOne(b: Block)
    ensures Total([b]) == b.layout.size
  {
    assert [b][..0] == [];
  }

  /** `VecDeque::swap_remove_back`. */
  function SwapRemoved(blocks: seq<Block>, i: nat): seq<Block>
    requires i < |blocks|
  {
    blocks[i := blocks[|blocks| - 1]][..|blocks| - 1]
  }

  lemma SwapRemovedIs(blocks: seq<Block>, i: nat)
    requires i < |blocks|
    ensures multiset(blocks) == multiset(SwapRemoved(blocks, i)) + multiset{blocks[i]}
    ensures Total(blocks) == Total(SwapRemoved(blocks, i)) + blocks[i].layout.size
  {
    hide Total, SwapRemoved;
    var n := |blocks| - 1;
    var last, b := blocks[n], blocks[i];
    SwapSplit(blocks, i);
    if i == n {
      BackAddedIs(blocks[..n], b);
    } else {
      SwappedTotal(blocks[..i], b, blocks[i + 1..n], last);
    }
  }

  lemma SwapSplit(blocks: seq<Block>, i: nat)
    requires i < |blocks|
    ensures var n := |blocks| - 1;
            if i == n then SwapRemoved(blocks, i) == blocks[..n] && blocks == blocks[..n] + [blocks[i]]
            else
              && blocks == blocks[..i] + [blocks[i]] + blocks[i + 1..n] + [blocks[n]]
              && SwapRemoved(blocks, i) == blocks[..i] + [blocks[n]] + blocks[i + 1..n]
  {
  }

  lemma SwappedTotal(x: seq<Block>, b: Block, y: seq<Block>, last: Block)
    ensures Total(x + [b] + y + [last]) == Total(x + [last] + y) + b.layout.size
    ensures multiset(x + [b] + y + [last]) == multiset(x + [last] + y) + multiset{b}
  {
    hide Total;
    BackAddedIs(x + [b] + y, last);
    BackAddedIs(x, b);
    BackAddedIs(x, last);
    TotalJoin(x + [b], y);
    TotalJoin(x + [last], y);
  }

  lemma FrontRemovedIs(blocks: seq<Block>)
    requires blocks != []
    ensures multiset(blocks) == multiset(blocks[1..]) + multiset{blocks[0]}
    ensures Total(blocks) == Total(blocks[1..]) + blocks[0].layout.size
  {
    assert blocks == [blocks[0]] + blocks[1..];
    TotalJoin([blocks[0]], blocks[1..]);
    TotalOne(blocks[0]);
  }

  lemma BackRemovedIs(blocks: seq<Block>)
    requires blocks != []
    ensures var n := |blocks| - 1;
            multiset(blocks) == multiset(blocks[..n]) + multiset{blocks[n]}
            && Total(blocks) == Total(blocks[..n]) + blocks[n].layout.size
  {
    assert blocks == blocks[..|blocks| - 1] + [blocks[|blocks| - 1]];
  }

  lemma BackAddedIs(blocks: seq<Block>, b: Block)
    ensures multiset(blocks + [b]) == multiset(blocks) + multiset{b}
    ensures Total(blocks + [b]) == Total(blocks) + b.layout.size
  {
    TotalJoin(blocks, [b]);
    TotalOne(b);
  }

  /** Every live block takes at least a byte, so the cap bounds their number. */
  lemma {:induction false} CountAtMost(blocks: seq<Block>)
    requires forall i :: 0 <= i < |blocks| ==> blocks[i].layout.size >= 1
    ensures |blocks| <= Total(blocks)
  {
    if blocks != [] { CountAtMost(blocks[..|blocks| - 1]); }
  }

  lemma TableAdded(m: multiset<Block>, live: map<int, Layout>, b: Block)
    requires TableOk(m, live) && b.ptr !in live && b.layout.align <= MAX_DRAWN_ALIGN
    ensures TableOk(m + multiset{b}, live[b.ptr := b.layout])
  {
    var n, after := m + multiset{b}, live[b.ptr := b.layout];
    forall c | c in n ensures n[c] == 1 && c.ptr in after && after[c.ptr] == c.layout {
      if c == b { assert b !in m; }
    }
    forall a | a in after ensures HasBlock(n, a) {
      if a == b.ptr {
        assert b in n;
      } else {
        assert HasBlock(m, a);
        var c :| c in m && c.ptr == a;
        assert c in n;
      }
    }
  }

  lemma TableDropped(m: multiset<Block>, live: map<int, Layout>, b: Block)
    requires TableOk(m + multiset{b}, live)
    ensures b.ptr in live && live[b.ptr] == b.layout && b !in m && TableOk(m, live - {b.ptr})
    ensures forall c :: c in m ==> c.ptr != b.ptr
  {
    var n, after := m + multiset{b}, live - {b.ptr};
    assert b in n && n[b] == m[b] + 1;
    forall c | c in m
      ensures m[c] == 1 && c.ptr in after && after[c.ptr] == c.layout && c.layout.align <= MAX_DRAWN_ALIGN
    {
      assert c in n && n[c] >= m[c];
    }
    forall a | a in after ensures HasBlock(m, a) {
      assert HasBlock(n, a);
      var c :| c in n && c.ptr == a;
      assert c in m;
    }
  }

  /** Blocks whose bytes did not change keep their pattern. */
  lemma ContentsKept(m: multiset<Block>, live: map<int, Layout>, before: map<int, Byte>, bytes: map<int, Byte>)
    requires ContentsOk(m, before) && Kept(live, before, bytes)
    requires forall b :: b in m ==> b.ptr in live && live[b.ptr] == b.layout
    ensures ContentsOk(m, bytes)
  {
    hide Patterned, At, Kept, Slice;
    forall b | b in m ensures Patterned(bytes, b.ptr, b.layout.size, b.layout.size, Some(b.seed)) {
      KeptSlice(live, b.ptr, before, bytes, b.layout.size);
      HoldsKept(before, bytes, b.ptr, b.ptr, b.layout.size, b.layout.size, Some(b.seed));
    }
  }

  /** The pattern moves with the bytes. */
  lemma HoldsKept(before: map<int, Byte>, bytes: map<int, Byte>, a: int, p: int, len: nat, limit: nat,
                  seed: Option<nat>)
    requires limit <= len && Patterned(before, a, len, limit, seed) && SameContents(before, a, bytes, p, limit)
    ensures Patterned(bytes, p, len, limit, seed)
  {
    hide Expected, At, OnStride;
    var x0, x1 := Slice(before, a, limit), Slice(bytes, p, limit);
    forall x: nat | Sampled(len, limit, x) ensures At(bytes, p + x) == Expected(seed, x) {
      assert At(before, a + x) == Expected(seed, x);
      assert x1[x] == At(bytes, p + x) && x0[x] == At(before, a + x);
    }
  }

  /** What the heap's safety means for the table: intervals of live blocks are disjoint and in the address
      space, and a block the heap handed out meets none of the others. */
  lemma HeapIntervals(h: Heap, byAddr: map<int, int>, p: int)
    requires h.Valid() && p in h.live && AddressesOk(byAddr, h.live - {p})
    ensures LayoutOk(h.live[p]) && h.live[p].align >= 1 && p % h.live[p].align == 0 && p + h.live[p].size <= USIZE_MAX
    ensures p >= 0
    ensures IntervalsOk(byAddr) && !Overlaps(byAddr, p, p + h.live[p].size)
  {
    hide h.Valid, Extent, LayoutOk, ApartFromPage;
    LiveBlocksAreSafe(h, p, p);
    LiveBelowEnd(h, p);
    forall s, t | s in h.live && t in h.live && s < t ensures s < s + h.live[s].size <= t {
      LiveBlocksAreSafe(h, s, t);
      LiveBlocksAreSafe(h, t, s);
      LayoutOkAlign(h.live[s]);
      LayoutOkAlign(h.live[t]);
    }
    forall s | s in h.live ensures h.live[s].size >= 1 {
      LiveBlocksAreSafe(h, s, s);
      LayoutOkAlign(h.live[s]);
    }
  }

  lemma LiveBelowEnd(h: Heap, p: int)
    requires h.Valid() && p in h.live
    ensures 0 <= p && p + h.live[p].size <= USIZE_MAX
  {
    hide h.QueuesValid, RetireBut, h.Base, Consistent, Extent;
    h.LiveExtent(p);
    LastByteOwned(h.Now(), p);
  }

  lemma LastByteOwned(s: State, p: int)
    requires Consistent(s) && p in s.live && s.live[p].align >= 1 && 1 <= s.live[p].size <= Extent(s, p)
    ensures 0 <= p && p + s.live[p].size <= USIZE_MAX
  {
    hide Extent, HomeOwner, Consistent;
    var last := p + s.live[p].size - 1;
    LiveBytesOwned(s, p, p);
    LiveBytesOwned(s, p, last);
    OwnedInRange(s, p / SLICE_SIZE);
    OwnedInRange(s, last / SLICE_SIZE);
  }

  lemma OwnedInRange(s: State, x: int)
    requires Consistent(s) && x in s.owner
    ensures 1 <= x < MAX_SLICE_INDEX
  {
  }

  // ---------------------------------------------------------------------------------------------
  // The tester
  // ---------------------------------------------------------------------------------------------

  class Tester {
    const heap: Heap
    const profile: Profile
    /** The table's blocks, oldest first; resizing counts as allocating anew. */
    var live: seq<Block>
    var byAddr: map<int, int>
    var liveBytes: nat
    var nextSeed: nat
    /** Batches alternate two phases; what remains of each. */
    var batchLeft: nat
    var freeLeft: nat
    /** The Layout of the last allocation or resize, and the grow events before it. */
    ghost var asked: Layout
    ghost var askedAt: seq<GrowEvent>

    constructor (heap: Heap, profile: Profile)
      requires heap.Valid() && heap.live == map[] && ProfileOk(profile)
      ensures Valid() && this.heap == heap && this.profile == profile && live == []
    {
      hide heap.Valid, ProfileOk, Patterned;
      this.heap, this.profile := heap, profile;
      live, byAddr, liveBytes, nextSeed, batchLeft, freeLeft := [], map[], 0, 0, 0, 0;
    }

    ghost function Footprint(): set<object> {
      {heap, heap.mem, heap.slices, heap.slices.free, heap.slices.zero}
    }

    /** The heap is valid and the table describes exactly its live blocks; `out` is held by the operation at
        hand, out of the `live` queue. */
    ghost predicate Tracks(out: multiset<Block>)
      reads this`live, this`byAddr, Footprint()
    {
      && heap.Valid() && ProfileOk(profile)
      && TableOk(multiset(live) + out, heap.live)
      && AddressesOk(byAddr, heap.live)
      && ContentsOk(multiset(live) + out, heap.mem.bytes)
    }

    /** Live bytes are the sum of the live sizes and within the cap; in batch mode, frees run exactly until
        nothing is live. */
    ghost predicate Counts()
      reads this`live, this`liveBytes, this`batchLeft, this`freeLeft
    {
      && liveBytes == Total(live) <= profile.maxLiveBytes
      && (profile.batch == 0 ==> batchLeft == 0 && freeLeft == 0)
      && (profile.batch > 0 ==> if batchLeft == 0 then freeLeft == |live| else freeLeft == 0)
    }

    ghost predicate Valid()
      reads this`live, this`byAddr, this`liveBytes, this`batchLeft, this`freeLeft, Footprint()
    {
      Tracks(multiset{}) && Counts()
    }

    /** Check a block an allocator returned, any address at all: rejected exactly when it is misaligned,
        wraps the address space or overlaps a live block; otherwise its interval is recorded. */
    method Admit(start: nat, layout: Layout) returns (r: Option<FailureKind>)
      requires IntervalsOk(byAddr) && layout.size >= 1 && layout.align >= 1
      modifies this`byAddr
      ensures r == Some(Misaligned) <==> start % layout.align != 0
      ensures r == Some(Overlap) <==>
                start % layout.align == 0
                && (start + layout.size > USIZE_MAX || Overlaps(old(byAddr), start, start + layout.size))
      ensures r.None? || r == Some(Misaligned) || r == Some(Overlap)
      ensures byAddr == if r.None? then old(byAddr)[start := start + layout.size] else old(byAddr)
      ensures IntervalsOk(byAddr)
    {
      if start % layout.align != 0 {
        return Some(Misaligned);
      }
      if start + layout.size > USIZE_MAX {
        return Some(Overlap);
      }
      var end := start + layout.size;
      var last := LastBelow(byAddr, end);
      LastIntervalDecides(byAddr, start, end, last);
      if last.Some? && byAddr[last.value] > start {
        return Some(Overlap);
      }
      IntervalAdded(byAddr, start, end);
      byAddr := byAddr[start := end];
      r := None;
    }

    /** The next block number, mixed. */
    method FreshSeed() returns (seed: nat)
      modifies this`nextSeed
      ensures nextSeed == old(nextSeed) + 1 && seed == Mix64(nextSeed)
    {
      nextSeed := nextSeed + 1;
      seed := Mix64(nextSeed);
    }

    /** Record a block the heap just handed out: it passes the overlap check. */
    method AdmitLive(p: int, layout: Layout) returns (r: Option<FailureKind>)
      requires heap.Valid() && p in heap.live && heap.live[p] == layout && AddressesOk(byAddr, heap.live - {p})
      modifies this`byAddr
      ensures r.None? && AddressesOk(byAddr, heap.live)
    {
      hide heap.Valid, LayoutOk, IntervalsOk, Overlaps;
      HeapIntervals(heap, byAddr, p);
      LayoutOkAlign(layout);
      r := Admit(p, layout);
    }

    /** Fill a block of the heap that is in the interval map with a fresh pattern and put it at the back of
        the queue. */
    method Record(p: int, layout: Layout)
      requires heap.Valid() && ProfileOk(profile) && p in heap.live && heap.live[p] == layout
      requires layout.align <= MAX_DRAWN_ALIGN
      requires AddressesOk(byAddr, heap.live) && TableOk(multiset(live), heap.live - {p})
      requires ContentsOk(multiset(live), heap.mem.bytes)
      modifies this`live, this`nextSeed, this`liveBytes, heap.mem`bytes
      ensures Tracks(multiset{}) && |live| == |old(live)| + 1 && live[..|old(live)|] == old(live)
      ensures liveBytes == old(liveBytes) + layout.size && Total(live) == Total(old(live)) + layout.size
    {
      hide heap.Valid, TableOk, ContentsOk, Patterned, Kept, Mix64, Total, ProfileOk;
      var seed := FreshSeed();
      ghost var bytes0 := heap.mem.bytes;
      Fill(heap, p, layout.size, seed);
      var b := Block(p, layout, seed);
      TableBlocks(multiset(live), heap.live - {p});
      ContentsKept(multiset(live), heap.live - {p}, bytes0, heap.mem.bytes);
      TableAdded(multiset(live), heap.live - {p}, b);
      assert (heap.live - {p})[p := layout] == heap.live;
      ContentsAdded(multiset(live), b, heap.mem.bytes);
      BackAddedIs(live, b);
      liveBytes := liveBytes + layout.size;
      live := live + [b];
      assert multiset(live) + multiset{} == multiset(live);
    }

    /** Allocate, check, fill and record a block. */
    method DoAlloc(layout: Layout, zeroed: bool) returns (r: Option<FailureKind>)
      requires Valid() && Drawn(layout) && liveBytes + layout.size <= profile.maxLiveBytes
      requires profile.batch > 0 ==> batchLeft > 0
      modifies this, Footprint()
      ensures Valid() && (r.None? || r == Some(AllocFailed)) && old(heap.mem.log) <= heap.mem.log
      ensures r == Some(AllocFailed) ==> heap.Exhausted(layout, old(heap.mem.log))
      ensures if r.None? then |live| == |old(live)| + 1 && live[..|old(live)|] == old(live) else live == old(live)
    {
      hide heap.Valid, TableOk, ContentsOk, Patterned, Kept, Total, ProfileOk, LayoutOk, ZeroAt, Allocated,
           AddressesOk, heap.Exhausted;
      assert multiset(live) + multiset{} == multiset(live);
      var block := Obtain(layout, zeroed);
      if block.None? {
        return Some(AllocFailed);
      }
      var p := block.value;
      r := AdmitLive(p, layout);
      if r.Some? {
        return;
      }
      if zeroed {
        ZeroPatterned(heap.mem.bytes, p, layout.size);
        var ok := Verify(heap.mem, p, layout.size, layout.size, None);
        if !ok {
          return Some(NotZeroed);
        }
      }
      Record(p, layout);
      if batchLeft > 0 {
        batchLeft := batchLeft - 1;
        if batchLeft == 0 {
          freeLeft := |live|;
        }
      }
    }

    /** Ask the heap for a block; those in the table keep their patterns. */
    method Obtain(layout: Layout, zeroed: bool) returns (block: Option<int>)
      requires heap.Valid() && LayoutOk(layout)
      requires TableOk(multiset(live), heap.live) && ContentsOk(multiset(live), heap.mem.bytes)
      modifies Footprint()
      ensures heap.Valid() && old(heap.mem.log) <= heap.mem.log && ContentsOk(multiset(live), heap.mem.bytes)
      ensures block.None? ==> heap.live == old(heap.live) && heap.Exhausted(layout, old(heap.mem.log))
      ensures block.Some? ==>
                && block.value in heap.live && heap.live[block.value] == layout
                && heap.live - {block.value} == old(heap.live)
                && (zeroed ==> ZeroAt(heap.mem.bytes, block.value, layout.size))
    {
      hide heap.Valid, TableOk, ContentsOk, Patterned, Kept, LayoutOk, ZeroAt, Allocated, heap.Exhausted,
           heap.HeadReady, heap.CameFrom;
      ghost var live0, bytes0 := heap.live, heap.mem.bytes;
      TableBlocks(multiset(live), live0);
      if zeroed {
        ghost var trail: Snaps.Trail;
        block, trail := heap.AllocZeroed(layout);
      } else {
        ghost var trail: Snaps.Trail;
        block, trail := heap.Alloc(layout);
      }
      ContentsKept(multiset(live), live0, bytes0, heap.mem.bytes);
      AllocatedIs(live0, heap.live, layout, block);
    }

    /** Verify a block that has left the queue, then free it. */
    method Release(block: Block) returns (r: Option<FailureKind>)
      requires Tracks(multiset{block}) && liveBytes == Total(live) + block.layout.size
      modifies this`byAddr, this`liveBytes, this`freeLeft, Footprint()
      ensures r.None? && Tracks(multiset{}) && liveBytes == Total(live) && heap.mem.log == old(heap.mem.log)
      ensures freeLeft == if old(freeLeft) == 0 then 0 else old(freeLeft) - 1
    {
      hide heap.Valid, TableOk, ContentsOk, Patterned, Kept, Total, ProfileOk, LayoutOk,
           Snaps.FreedWhere;
      var len := block.layout.size;
      ghost var rest := multiset(live);
      OutIsLive(rest, block, heap.live, heap.mem.bytes);
      var ok := Verify(heap.mem, block.ptr, len, len, Some(block.seed));
      if !ok {
        return Some(Corrupted);
      }
      byAddr := byAddr - {block.ptr};
      liveBytes := liveBytes - len;
      ghost var bytes0 := heap.mem.bytes;
      TableDropped(rest, heap.live, block);
      heap.Dealloc(block.ptr, block.layout);
      TableBlocks(rest, heap.live);
      ContentsKept(rest, heap.live, bytes0, heap.mem.bytes);
      assert multiset(live) + multiset{} == rest;
      freeLeft := if freeLeft == 0 then 0 else freeLeft - 1;
      r := None;
    }

    /** Free a block picked by the profile's order; false when the draws ran out. */
    method DoDealloc(e: ByteSource) returns (more: bool, r: Option<FailureKind>)
      requires Valid() && live != []
      modifies this, Footprint(), e
      ensures Valid() && r.None? && |live| == if more then |old(live)| - 1 else |old(live)|
      ensures heap.mem.log == old(heap.mem.log)
    {
      hide heap.Valid, TableOk, ContentsOk, AddressesOk, Total, ProfileOk;
      var victim := PickVictim(e);
      if victim.None? {
        return false, None;
      }
      r := Release(victim.value);
      more := true;
    }

    /** Take the victim of a free out of the queue. */
    method PickVictim(e: ByteSource) returns (victim: Option<Block>)
      requires Valid() && live != []
      modifies this`live, e
      ensures victim.None? ==> Valid() && live == old(live)
      ensures victim.Some? ==> Tracks(multiset{victim.value}) && |live| == |old(live)| - 1
                               && Total(old(live)) == Total(live) + victim.value.layout.size
    {
      hide heap.Valid, TableOk, ContentsOk, AddressesOk, Total, ProfileOk, LayoutOk, SwapRemoved, Scaled;
      LiveCount();
      ghost var live0 := live;
      match profile.order {
        case Random =>
          var i := e.Below(|live|);
          if i.None? {
            return None;
          }
          SwapRemovedIs(live, i.value);
          SwapRemovedCount(live, i.value);
          victim := Some(live[i.value]);
          live := SwapRemoved(live, i.value);
        case Lifo =>
          BackRemovedIs(live);
          victim := Some(live[|live| - 1]);
          live := live[..|live| - 1];
        case Fifo =>
          FrontRemovedIs(live);
          victim := Some(live[0]);
          live := live[1..];
      }
      assert multiset(live0) + multiset{} == multiset(live) + multiset{victim.value};
    }

    /** Never more live blocks than the cap has bytes. */
    lemma LiveCount()
      requires Valid()
      ensures |live| <= liveBytes <= profile.maxLiveBytes < U32
      ensures forall i :: 0 <= i < |live| ==>
                live[i].ptr in heap.live && heap.live[live[i].ptr] == live[i].layout && Drawn(live[i].layout)
                && 1 <= live[i].layout.size <= liveBytes
    {
      hide heap.Valid, TableOk, ContentsOk, Patterned, Total, LayoutOk, Extent;
      forall i | 0 <= i < |live|
        ensures live[i].ptr in heap.live && heap.live[live[i].ptr] == live[i].layout && Drawn(live[i].layout)
        ensures 1 <= live[i].layout.size <= liveBytes
      {
        TableEntry(multiset(live) + multiset{}, heap.live, live[i]);
        heap.LiveExtent(live[i].ptr);
        LayoutOkAlign(live[i].layout);
        SwapRemovedIs(live, i);
      }
      CountAtMost(live);
    }

    /** Resize a block: its kept prefix must survive. The new size panics exactly when no Layout has it. */
    method DoRealloc(index: nat, newSize: nat) returns (r: Option<FailureKind>)
      requires Valid() && index < |live| && newSize >= 1
      requires liveBytes - live[index].layout.size + newSize <= profile.maxLiveBytes
      modifies this, Footprint()
      ensures heap.Valid() && old(heap.mem.log) <= heap.mem.log
      ensures r == Some(InvalidLayout) <==> !LayoutOk(Layout(newSize, old(live)[index].layout.align))
      ensures r != Some(InvalidLayout) ==> Valid() && (r.None? || r == Some(AllocFailed)) && |live| == |old(live)|
      ensures r == Some(AllocFailed) ==>
                heap.Exhausted(Layout(newSize, old(live)[index].layout.align), old(heap.mem.log))
      ensures r.Some? ==> liveBytes == old(liveBytes)
    {
      hide heap.Valid, TableOk, ContentsOk, AddressesOk, Total, ProfileOk, LayoutOk, SwapRemoved, heap.Exhausted;
      LiveCount();
      SwapRemovedIs(live, index);
      SwapRemovedCount(live, index);
      assert multiset(live) + multiset{} == multiset(SwapRemoved(live, index)) + multiset{live[index]};
      var block := live[index];
      live := SwapRemoved(live, index);
      r := Resize(block, newSize);
    }

    /** Ask the heap to resize a block. */
    method Reobtain(block: Block, layout: Layout) returns (moved: Option<int>)
      requires heap.Valid() && block.ptr in heap.live && heap.live[block.ptr] == block.layout
      requires LayoutOk(layout) && layout.size >= 1 && layout.align == block.layout.align
      modifies Footprint()
      ensures heap.Valid() && Reallocated(old(heap.live), heap.live, block.ptr, block.layout, layout,
                                          old(heap.mem.bytes), heap.mem.bytes, moved)
      ensures old(heap.mem.log) <= heap.mem.log && (moved.None? ==> heap.Exhausted(layout, old(heap.mem.log)))
    {
      hide heap.Valid, LayoutOk, Reallocated, heap.Exhausted, heap.StaysPut, heap.GrowsInto, heap.PlacedSince,
           heap.HeadReady, EmptySlices, Classify, KindOfBin, BinSize;
      ghost var free: set<int>, end: nat;
      moved, free, end := heap.Realloc(block.ptr, block.layout, layout.size);
    }

    /** Resize a block that has left the queue and put it at the back. */
    method Resize(block: Block, newSize: nat) returns (r: Option<FailureKind>)
      requires Tracks(multiset{block}) && liveBytes == Total(live) + block.layout.size
      requires newSize >= 1
      modifies this`byAddr, this`live, this`liveBytes, this`nextSeed, Footprint()
      ensures heap.Valid() && old(heap.mem.log) <= heap.mem.log
      ensures r == Some(InvalidLayout) <==> !LayoutOk(Layout(newSize, block.layout.align))
      ensures r != Some(InvalidLayout) ==>
                Tracks(multiset{}) && |live| == |old(live)| + 1 && (r.None? || r == Some(AllocFailed))
                && liveBytes == Total(live)
      ensures r == Some(AllocFailed) ==> heap.Exhausted(Layout(newSize, block.layout.align), old(heap.mem.log))
      ensures liveBytes == if r.None? then old(liveBytes) - block.layout.size + newSize else old(liveBytes)
    {
      hide heap.Valid, TableOk, ContentsOk, Patterned, Kept, Total, ProfileOk, LayoutOk, Reallocated, AddressesOk,
           heap.Exhausted, RoundUp;
      ghost var rest := multiset(live);
      var len := block.layout.size;
      OutIsLive(rest, block, heap.live, heap.mem.bytes);
      var ok := Verify(heap.mem, block.ptr, len, len, Some(block.seed));
      if !ok {
        return Some(Corrupted);
      }
      ghost var byAddr0 := byAddr;
      byAddr := byAddr - {block.ptr};
      var layout := Layout(newSize, block.layout.align);
      LiveAlign(block.ptr);
      if RoundUp(newSize, layout.align) > ISIZE_MAX {
        TooBig(layout);
        return Some(InvalidLayout);
      }
      SmallEnough(layout);
      ghost var live0, bytes0 := heap.live, heap.mem.bytes;
      TableDropped(rest, heap.live, block);
      AddressDropped(byAddr0, heap.live, block.ptr);
      var moved := Reobtain(block, layout);
      ReallocatedIs(rest, block, live0, heap.live, layout, bytes0, heap.mem.bytes, moved);
      if moved.None? {
        byAddr := byAddr[block.ptr := block.ptr + len];
        BackAddedIs(live, block);
        live := live + [block];
        assert multiset(live) + multiset{} == rest + multiset{block};
        return Some(AllocFailed);
      }
      r := Accept(block, moved.value, layout);
    }

    /** Check and record a resized block at its new place, under the seed it was filled with. */
    method Accept(block: Block, p: int, layout: Layout) returns (r: Option<FailureKind>)
      requires heap.Valid() && ProfileOk(profile) && p in heap.live && heap.live[p] == layout
      requires layout.align <= MAX_DRAWN_ALIGN && AddressesOk(byAddr, heap.live - {p})
      requires TableOk(multiset(live), heap.live - {p}) && ContentsOk(multiset(live), heap.mem.bytes)
      requires Patterned(heap.mem.bytes, p, block.layout.size,
                         if block.layout.size < layout.size then block.layout.size else layout.size, Some(block.seed))
      requires liveBytes == Total(live) + block.layout.size
      modifies this`byAddr, this`live, this`liveBytes, this`nextSeed, heap.mem`bytes
      ensures r.None? && Tracks(multiset{}) && |live| == |old(live)| + 1 && liveBytes == Total(live)
      ensures liveBytes == old(liveBytes) - block.layout.size + layout.size
    {
      hide heap.Valid, TableOk, ContentsOk, Patterned, Kept, Total, ProfileOk, LayoutOk, AddressesOk;
      liveBytes := liveBytes - block.layout.size;
      r := AdmitLive(p, layout);
      if r.Some? {
        return;
      }
      var keep := if block.layout.size < layout.size then block.layout.size else layout.size;
      var ok := Verify(heap.mem, p, block.layout.size, keep, Some(block.seed));
      if !ok {
        return Some(ReallocLostBytes);
      }
      Record(p, layout);
      r := None;
    }

    lemma LiveAlign(p: int)
      requires heap.Valid() && p in heap.live
      ensures IsPow2(heap.live[p].align) && heap.live[p].align >= 1
    {
      hide heap.Valid, Extent;
      heap.LiveExtent(p);
      LayoutOkAlign(heap.live[p]);
    }

    /** Empty the table. Every block passes its check on the way out. */
    method Drain() returns (r: Option<FailureKind>)
      requires Valid()
      modifies this, Footprint()
      ensures Valid() && r.None? && live == [] && heap.mem.log == old(heap.mem.log)
    {
      hide heap.Valid, TableOk, ContentsOk, Patterned, Kept, Total, ProfileOk, LayoutOk, AddressesOk;
      r := None;
      while live != []
        invariant Valid() && r.None? && heap.mem.log == old(heap.mem.log)
        decreases |live|
      {
        var block: Block;
        ghost var live0 := live;
        if profile.order == Fifo {
          FrontRemovedIs(live);
          block := live[0];
          live := live[1..];
        } else {
          BackRemovedIs(live);
          block := live[|live| - 1];
          live := live[..|live| - 1];
        }
        assert multiset(live0) + multiset{} == multiset(live) + multiset{block};
        r := Release(block);
      }
    }

    // -------------------------------------------------------------------------------------------
    // Choosing operations
    // -------------------------------------------------------------------------------------------

    /** Draw a size, always between one byte and 64 MiB: the class first, by weight, then the size inside it. The
        smallest class is drawn by its binary logarithm. */
    method PickSize(e: ByteSource) returns (size: Option<nat>)
      requires ProfileOk(profile)
      modifies e
      ensures size.Some? ==> 1 <= size.value <= 64 * MIB
    {
      hide Scaled, Picks, Sum, LittleEndian;
      SumsOk(profile);
      var pick := e.Weighted(profile.sizes);
      if pick.None? {
        return None;
      }
      if pick.value == 0 {
        var k := e.Below(14);
        if k.None? {
          return None;
        }
        Doublings(k.value);
        var lo, top := Pow2(k.value), Pow2(k.value + 1) - 1;
        size := e.InRange(lo, if top < SMALL_MAX then top else SMALL_MAX);
      } else if pick.value == 1 {
        size := e.InRange(10 * KIB, 100 * KIB);
      } else if pick.value == 2 {
        size := e.InRange(100 * KIB, 4 * MIB);
      } else {
        size := e.InRange(4 * MIB, 64 * MIB);
      }
    }

    /** A Layout of an alignment class drawn by weight. */
    method PickLayout(e: ByteSource) returns (layout: Option<Layout>)
      requires ProfileOk(profile)
      modifies e
      ensures layout.Some? ==> Drawn(layout.value) && layout.value.size <= 64 * MIB
    {
      hide Scaled, Picks, Sum, LittleEndian, RoundUp;
      SumsOk(profile);
      SmallPowers();
      var pick := e.Weighted(profile.aligns);
      if pick.None? {
        return None;
      }
      if pick.value == 6 {
        DrawnLayout(1, 16);
        return Some(Layout(1, Pow2(16)));
      }
      var size := PickSize(e);
      if size.None? {
        return None;
      }
      var n := 12;
      match pick.value {
        case 0 =>
          var k := e.Below(4);
          if k.None? {
            return None;
          }
          n := k.value;
        case 1 => n := 4;
        case 2 => n := 5;
        case 3 => n := 6;
        case 4 => n := 12;
        case _ =>
          var k := e.InRange(13, 16);
          if k.None? {
            return None;
          }
          n := k.value;
      }
      DrawnLayout(size.value, n);
      layout := Some(Layout(size.value, Pow2(n)));
    }

    /** The kind of the next operation of a batch. Once the allocations of the batch are used up it is a free,
        and then there is a block to free. */
    method BatchClass(e: ByteSource) returns (pick: Option<nat>)
      requires Valid() && profile.batch > 0
      modifies this`batchLeft, e
      ensures Valid() && (pick.Some? ==> pick.value < 4 && (batchLeft == 0 ==> pick.value == 2 && live != []))
      ensures pick.Some? ==> ClassDrawn(profile, old(batchLeft), freeLeft, old(e.data), pick.value, batchLeft)
    {
      hide heap.Valid, TableOk, ContentsOk, AddressesOk, Total, Scaled, Picks, Sum, LittleEndian;
      if batchLeft == 0 && freeLeft == 0 {
        var n := e.InRange(1, profile.batch);
        if n.None? {
          return None;
        }
        batchLeft := n.value;
      }
      if batchLeft > 0 {
        BatchWeights(profile);
        pick := e.Weighted([profile.ops[0], profile.ops[1], 0, profile.ops[3]]);
        return;
      }
      pick := Some(2);
    }

    /** Draw the next operation, or nothing when the draws ran out: never a zero size, never past the cap,
        never a free or resize with nothing live. `c` is the class drawn by the weights and `drawn` the Layout, if
        one was; together they settle the operation. */
    method NextOp(e: ByteSource) returns (op: Option<Op>, ghost c: nat, ghost drawn: Layout)
      requires Valid()
      modifies this`batchLeft, e
      ensures Valid() && (op.Some? ==> OpOk(op.value))
      ensures op.Some? ==> ClassDrawn(profile, old(batchLeft), freeLeft, old(e.data), c, batchLeft)
      ensures op.Some? ==>
                if c >= 2 && live != [] then
                  if c == 2 then op == Some(DeallocOp) else op.value.ReallocOp?
                else
                  var room := profile.maxLiveBytes - liveBytes;
                  && Drawn(drawn) && drawn.size <= 64 * MIB
                  && op.value == if drawn.size > room && live != [] then DeallocOp
                                 else AllocOp(Layout(Min(drawn.size, Max(room, 1)), drawn.align), c == 1)
    {
      hide heap.Valid, TableOk, ContentsOk, AddressesOk, Total, Scaled, Picks, Sum, LittleEndian, LayoutOk, RoundUp;
      LiveCount();
      c, drawn := 0, Layout(1, 1);
      var pick: Option<nat>;
      if profile.batch > 0 {
        pick := BatchClass(e);
      } else {
        SumsOk(profile);
        pick := e.Weighted(profile.ops);
      }
      if pick.None? {
        return None, c, drawn;
      }
      c := pick.value;
      var kind := if pick.value >= 2 && live == [] then 0 else pick.value;
      if kind < 2 {
        var layout := PickLayout(e);
        if layout.None? {
          return None, c, drawn;
        }
        var l := layout.value;
        drawn := l;
        var room := profile.maxLiveBytes - liveBytes;
        if l.size > room {
          if live != [] {
            return Some(DeallocOp), c, drawn;
          }
          var clamped := if room < 1 then 1 else room;
          SmallerDrawn(l, clamped);
          NothingLive();
          l := Layout(clamped, l.align);
        }
        op := Some(AllocOp(l, kind == 1));
      } else if kind == 2 {
        op := Some(DeallocOp);
      } else {
        op := NextResize(e);
      }
    }

    /** Draw a block to resize and its new size: half the time near the old one, otherwise afresh. */
    method NextResize(e: ByteSource) returns (op: Option<Op>)
      requires Valid() && live != []
      modifies e
      ensures op.Some? ==> OpOk(op.value) && op.value.ReallocOp?
      ensures op.Some? ==>
                ResizeDrawn(live, profile.maxLiveBytes - liveBytes, old(e.data), op.value.index, op.value.newSize)
    {
      hide heap.Valid, TableOk, ContentsOk, AddressesOk, Total, Scaled, Picks, Sum, LittleEndian, LayoutOk, RoundUp;
      LiveCount();
      ghost var data := e.data;
      var index := e.Below(|live|);
      if index.None? {
        return None;
      }
      var size := live[index.value].layout.size;
      var near := e.Below(2);
      if near.None? {
        return None;
      }
      var drawn: Option<nat>;
      if near.value == 0 {
        drawn := e.InRange(if size / 2 < 1 then 1 else size / 2, if size * 2 > USIZE_MAX then USIZE_MAX else size * 2);
      } else {
        drawn := PickSize(e);
      }
      if drawn.None? {
        return None;
      }
      var room := profile.maxLiveBytes - liveBytes + size;
      var newSize := if drawn.value < room then drawn.value else room;
      op := Some(ReallocOp(index.value, newSize));
    }

    lemma NothingLive()
      requires Valid() && live == []
      ensures liveBytes == 0
    {
    }

    /** What an operation needs when it is drawn. */
    ghost predicate OpOk(op: Op)
      reads this`live, this`liveBytes, this`batchLeft
    {
      match op
      case AllocOp(l, _) =>
        Drawn(l) && liveBytes + l.size <= profile.maxLiveBytes && (profile.batch > 0 ==> batchLeft > 0)
      case DeallocOp => live != []
      case ReallocOp(i, n) =>
        i < |live| && n >= 1 && liveBytes - live[i].layout.size + n <= profile.maxLiveBytes
    }

    /** The Layout an operation asks the allocator for. */
    ghost function Asked(op: Op): Layout
      requires op.ReallocOp? ==> op.index < |live|
      requires !op.DeallocOp?
      reads this`live
    {
      match op
      case AllocOp(l, _) => l
      case ReallocOp(i, n) => Layout(n, live[i].layout.align)
    }

    /** One operation. It fails only when the heap is exhausted for what it asked, or when a resize asks for a
        size no Layout has. */
    method Step(op: Op, e: ByteSource) returns (more: bool, r: Option<FailureKind>)
      requires Valid() && OpOk(op)
      modifies this, Footprint(), e
      ensures heap.Valid() && old(heap.mem.log) <= heap.mem.log
      ensures r.None? || r == Some(AllocFailed) || r == Some(InvalidLayout)
      ensures r != Some(InvalidLayout) ==> Valid()
      ensures if op.DeallocOp? then r.None? else asked == old(Asked(op)) && askedAt == old(heap.mem.log)
      ensures r == Some(AllocFailed) ==> heap.Exhausted(asked, askedAt)
      ensures r == Some(InvalidLayout) <==> op.ReallocOp? && !LayoutOk(asked)
    {
      hide heap.Valid, Tracks, Counts, Drawn, heap.Exhausted, LayoutOk;
      HeapIsValid();
      ghost var log := heap.mem.log;
      more := true;
      match op
      case AllocOp(l, zeroed) =>
        r := DoAlloc(l, zeroed);
        HeapIsValid();
        asked, askedAt := l, log;
      case DeallocOp =>
        more, r := DoDealloc(e);
        HeapIsValid();
      case ReallocOp(index, newSize) =>
        ghost var l := Asked(op);
        r := DoRealloc(index, newSize);
        asked, askedAt := l, log;
    }

    lemma HeapIsValid()
      requires Valid()
      ensures heap.Valid()
    {
    }

    /** A resize within the cap has a Layout when the cap leaves room to round it up. */
    lemma ResizeFits(op: Op)
      requires Valid() && OpOk(op) && op.ReallocOp? && profile.maxLiveBytes <= ISIZE_MAX + 1 - MAX_DRAWN_ALIGN
      ensures LayoutOk(Asked(op))
    {
      hide heap.Valid, TableOk, ContentsOk, AddressesOk, Total, LayoutOk, RoundUp;
      LiveCount();
      CapDrawn(live[op.index].layout, op.newSize, profile.maxLiveBytes);
    }

    /** What an operation asks for has the alignment of a drawn Layout and a size within the cap. */
    lemma AskedWithin(op: Op)
      requires Valid() && OpOk(op) && !op.DeallocOp?
      ensures Asked(op).align <= MAX_DRAWN_ALIGN && Asked(op).size <= profile.maxLiveBytes
      ensures op.AllocOp? ==> LayoutOk(Asked(op))
    {
      hide heap.Valid, TableOk, ContentsOk, AddressesOk, Total, LayoutOk;
      LiveCount();
    }

    /** Run up to `ops` operations, sweeping when the profile says so, then free everything. Over every stream
        of draws the run passes, unless the heap was exhausted for the Layout last asked of it, a drawn one
        within the cap. A resize can panic only when the cap itself is within an alignment of `isize::MAX`. A
        run that passes leaves nothing live. */
    method Run(e: ByteSource, ops: nat) returns (r: Option<FailureKind>)
      requires Valid()
      modifies this, Footprint(), e
      ensures heap.Valid() && (r != Some(InvalidLayout) ==> Valid())
      ensures r.None? || r == Some(AllocFailed) || r == Some(InvalidLayout)
      ensures r == Some(AllocFailed) ==>
                && old(heap.mem.log) <= askedAt <= heap.mem.log && heap.Exhausted(asked, askedAt)
                && Drawn(asked) && asked.size <= profile.maxLiveBytes
      ensures r == Some(InvalidLayout) ==> profile.maxLiveBytes > ISIZE_MAX + 1 - MAX_DRAWN_ALIGN && !LayoutOk(asked)
      ensures r.None? ==> live == [] && heap.live == map[]
    {
      hide Valid, heap.Valid, Tracks, Counts, heap.Exhausted, LayoutOk;
      r := None;
      var i := 0;
      while i < ops
        invariant 0 <= i <= ops && Valid() && r.None? && old(heap.mem.log) <= heap.mem.log
      {
        var op: Option<Op>;
        ghost var c: nat, drawn: Layout;
        op, c, drawn := NextOp(e);
        if op.None? {
          break;
        }
        if op.value.ReallocOp? && profile.maxLiveBytes <= ISIZE_MAX + 1 - MAX_DRAWN_ALIGN { ResizeFits(op.value); }
        if !op.value.DeallocOp? { AskedWithin(op.value); }
        var more, failure := Step(op.value, e);
        if failure.Some? {
          return failure;
        }
        if !more {
          break;
        }
        if profile.sweepEvery > 0 && (i + 1) % profile.sweepEvery == 0 {
          r := Drain();
          if r.Some? {
            return;
          }
        }
        i := i + 1;
      }
      r := Drain();
      HeapIsValid();
      NothingHeld();
    }

    lemma NothingHeld()
      requires Valid() && live == []
      ensures heap.live == map[]
    {
      hide heap.Valid, ContentsOk, AddressesOk, TableOk;
      assert multiset(live) + multiset{} == multiset{};
      EmptyTable(heap.live);
    }
  }

  lemma EmptyTable(live: map<int, Layout>)
    requires TableOk(multiset{}, live)
    ensures live == map[]
  {
    assert forall a :: a in live ==> HasBlock(multiset{}, a);
    EmptySet(live.Keys);
  }

  lemma TableBlocks(m: multiset<Block>, live: map<int, Layout>)
    requires TableOk(m, live)
    ensures forall b :: b in m ==> b.ptr in live && live[b.ptr] == b.layout
  {
  }

  lemma ContentsAdded(m: multiset<Block>, b: Block, bytes: map<int, Byte>)
    requires ContentsOk(m, bytes) && Patterned(bytes, b.ptr, b.layout.size, b.layout.size, Some(b.seed))
    ensures ContentsOk(m + multiset{b}, bytes)
  {
    hide Patterned;
  }

  lemma AllocatedIs(before: map<int, Layout>, live: map<int, Layout>, l: Layout, block: Option<int>)
    requires Allocated(before, live, l, block)
    ensures block.None? ==> live == before
    ensures block.Some? ==> block.value in live && live[block.value] == l && live - {block.value} == before
  {
    if block.Some? { assert live - {block.value} == before; }
  }

  lemma ZeroPatterned(bytes: map<int, Byte>, p: int, len: nat)
    ensures ZeroAt(bytes, p, len) ==> Patterned(bytes, p, len, len, None)
  {
    hide At, OnStride;
  }

  /** A block out of the queue is still live, filled, and different from those in it. */
  lemma OutIsLive(rest: multiset<Block>, b: Block, live: map<int, Layout>, bytes: map<int, Byte>)
    requires TableOk(rest + multiset{b}, live) && ContentsOk(rest + multiset{b}, bytes)
    ensures b.ptr in live && live[b.ptr] == b.layout
    ensures Patterned(bytes, b.ptr, b.layout.size, b.layout.size, Some(b.seed))
    ensures ContentsOk(rest, bytes) && b.layout.align <= MAX_DRAWN_ALIGN
  {
    hide Patterned;
    assert b in rest + multiset{b};
    forall c | c in rest ensures c in rest + multiset{b} {}
  }

  lemma TableEntry(m: multiset<Block>, live: map<int, Layout>, b: Block)
    requires TableOk(m, live) && b in m
    ensures b.ptr in live && live[b.ptr] == b.layout && b.layout.align <= MAX_DRAWN_ALIGN
  {
  }

  lemma SwapRemovedCount(blocks: seq<Block>, i: nat)
    requires i < |blocks|
    ensures |SwapRemoved(blocks, i)| == |blocks| - 1
  {
  }

  /** What a resize means for the table: the other blocks keep their patterns, and the resized one its kept
      prefix. */
  lemma ReallocatedIs(rest: multiset<Block>, b: Block, live0: map<int, Layout>, live: map<int, Layout>, m: Layout,
                      bytes0: map<int, Byte>, bytes: map<int, Byte>, moved: Option<int>)
    requires Reallocated(live0, live, b.ptr, b.layout, m, bytes0, bytes, moved)
    requires b.ptr in live0 && live0[b.ptr] == b.layout && TableOk(rest, live0 - {b.ptr})
    requires ContentsOk(rest, bytes0) && Patterned(bytes0, b.ptr, b.layout.size, b.layout.size, Some(b.seed))
    ensures ContentsOk(rest, bytes)
    ensures moved.None? ==> live == live0 && ContentsOk(rest + multiset{b}, bytes)
    ensures moved.Some? ==>
              var p := moved.value;
              && p in live && live[p] == m && live - {p} == live0 - {b.ptr}
              && Patterned(bytes, p, b.layout.size, if b.layout.size < m.size then b.layout.size else m.size,
                           Some(b.seed))
  {
    hide Patterned, Kept, TableOk, ContentsOk;
    TableBlocks(rest, live0 - {b.ptr});
    match moved
    case None =>
      KeptFewer(live0, live0 - {b.ptr}, bytes0, bytes);
      ContentsKept(rest, live0 - {b.ptr}, bytes0, bytes);
      KeptPattern(live0, b, bytes0, bytes);
      ContentsAdded(rest, b, bytes);
    case Some(p) =>
      ContentsKept(rest, live0 - {b.ptr}, bytes0, bytes);
      assert live - {p} == live0 - {b.ptr};
      var keep := if b.layout.size < m.size then b.layout.size else m.size;
      PrefixPatterned(bytes0, b.ptr, b.layout.size, keep, Some(b.seed));
      HoldsKept(bytes0, bytes, b.ptr, p, b.layout.size, keep, Some(b.seed));
  }

  lemma KeptPattern(live: map<int, Layout>, b: Block, bytes0: map<int, Byte>, bytes: map<int, Byte>)
    requires b.ptr in live && live[b.ptr] == b.layout && Kept(live, bytes0, bytes)
    requires Patterned(bytes0, b.ptr, b.layout.size, b.layout.size, Some(b.seed))
    ensures Patterned(bytes, b.ptr, b.layout.size, b.layout.size, Some(b.seed))
  {
    hide Patterned, At, Kept, Slice;
    KeptSlice(live, b.ptr, bytes0, bytes, b.layout.size);
    HoldsKept(bytes0, bytes, b.ptr, b.ptr, b.layout.size, b.layout.size, Some(b.seed));
  }

  lemma AddressDropped(byAddr: map<int, int>, live: map<int, Layout>, p: int)
    requires AddressesOk(byAddr, live) && p in live
    ensures AddressesOk(byAddr - {p}, live - {p})
    ensures (byAddr - {p})[p := p + live[p].size] == byAddr
  {
  }

  // ---------------------------------------------------------------------------------------------
  // Facts about draws
  // ---------------------------------------------------------------------------------------------

  lemma SumsOk(p: Profile)
    requires ProfileOk(p)
    ensures 1 <= Sum(p.ops) < U32 && 1 <= Sum(p.sizes) < U32 && 1 <= Sum(p.aligns) < U32
    ensures |p.ops| == 4 && |p.sizes| == 4 && |p.aligns| == 7
  {
    SumOfFour(p.ops);
  }

  lemma SumOfFour(w: seq<nat>)
    requires |w| == 4
    ensures Sum(w) == w[0] + w[1] + w[2] + w[3]
  {
    hide Sum;
    SumStep(w, 0);
    SumStep(w, 1);
    SumStep(w, 2);
    SumStep(w, 3);
    assert w[..0] == [] && w[..4] == w;
    SumNone();
  }

  lemma SumNone()
    ensures Sum([]) == 0
  {
  }

  lemma BatchWeights(p: Profile)
    requires ProfileOk(p)
    ensures 1 <= Sum([p.ops[0], p.ops[1], 0, p.ops[3]]) < U32
  {
    SumOfFour(p.ops);
    SumOfFour([p.ops[0], p.ops[1], 0, p.ops[3]]);
  }

  lemma SmallPowers()
    ensures Pow2(4) == 16 && Pow2(5) == 32 && Pow2(6) == 64 && Pow2(12) == 4096 && Pow2(13) == 8192 && Pow2(16) == 65536
  {
    assert Pow2(4) == 16;
    assert Pow2(8) == 16 * Pow2(4);
    assert Pow2(12) == 16 * Pow2(8);
    assert Pow2(16) == 16 * Pow2(12);
  }

  lemma Doublings(k: nat)
    requires k < 14
    ensures 1 <= Pow2(k) <= SMALL_MAX && Pow2(k) <= Pow2(k + 1) - 1
  {
    SmallPowers();
    Pow2Mono(k, 13);
  }

  lemma DrawnLayout(size: nat, n: nat)
    requires 1 <= size <= 64 * MIB && n <= 16
    ensures Drawn(Layout(size, Pow2(n)))
  {
    SmallPowers();
    Pow2Mono(n, 16);
    Pow2IsPow2(n);
    hide Pow2, IsPow2;
  }

  lemma SmallerDrawn(l: Layout, size: nat)
    requires Drawn(l) && 1 <= size && size <= l.size
    ensures Drawn(Layout(size, l.align))
  {
    RoundUpLeast(size, l.align, RoundUp(l.size, l.align));
  }

  lemma CapDrawn(l: Layout, size: nat, cap: nat)
    requires Drawn(l) && 1 <= size <= cap <= ISIZE_MAX + 1 - MAX_DRAWN_ALIGN
    ensures LayoutOk(Layout(size, l.align))
  {
  }

  /** The caps under which no resize of a drawn block can ask for a size without a Layout: exactly those that leave
      room for the largest drawn alignment. */
  lemma CapLeavesRoom(cap: nat)
    requires cap >= 1
    ensures (forall l: Layout, n: nat :: Drawn(l) && 1 <= n <= cap ==> LayoutOk(Layout(n, l.align)))
            <==> cap <= ISIZE_MAX + 1 - MAX_DRAWN_ALIGN
  {
    if cap <= ISIZE_MAX + 1 - MAX_DRAWN_ALIGN {
      hide LayoutOk;
      forall l: Layout, n: nat | Drawn(l) && 1 <= n <= cap ensures LayoutOk(Layout(n, l.align)) { CapDrawn(l, n, cap); }
    } else {
      LargestAlign();
    }
  }

  /** The largest drawn alignment, with the least size that cannot be rounded up to it. */
  lemma LargestAlign()
    ensures Drawn(Layout(1, MAX_DRAWN_ALIGN))
    ensures !LayoutOk(Layout(ISIZE_MAX + 2 - MAX_DRAWN_ALIGN, MAX_DRAWN_ALIGN))
  {
    SmallPowers();
    DrawnLayout(1, 16);
    var n := ISIZE_MAX + 2 - MAX_DRAWN_ALIGN;
    assert n % MAX_DRAWN_ALIGN == 1;
  }

  /** A resize that panics: the tester holds one block of a gigabyte and its cap allows two. From the largest
      32-bit draw, the size near the old one is two gigabytes, and no Layout has it. */
  lemma ResizeCanPanic(t: Tester)
    requires t.Valid() && |t.live| == 1 && t.live[0].layout == Layout(0x4000_0000, 8)
    requires t.profile.maxLiveBytes >= 0x8000_0000
    ensures var op, old_ := ReallocOp(0, 0x8000_0000), t.live[0].layout.size;
            && t.OpOk(op) && !LayoutOk(t.Asked(op))
            && op.newSize == old_ / 2 + Scaled(U32 - 1, old_ * 2 - old_ / 2 + 1)
  {
    hide t.heap.Valid, TableOk, ContentsOk, AddressesOk;
    assert t.live == t.live[..0] + [t.live[0]];
    TotalOne(t.live[0]);
    assert t.live == [t.live[0]];
    assert IsPow2(8);
  }

  lemma TooBig(l: Layout)
    requires l.align >= 1 && RoundUp(l.size, l.align) > ISIZE_MAX
    ensures !LayoutOk(l)
  {
  }

  lemma SmallEnough(l: Layout)
    requires l.size >= 1 && IsPow2(l.align) && l.align >= 1 && RoundUp(l.size, l.align) <= ISIZE_MAX
    ensures LayoutOk(l)
  {
  }
}
