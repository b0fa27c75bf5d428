/** What the heap's larger operations do, stated from the state before to the state after: collection rounds,
    frees, the search for a page with room, and where what is new is placed. */
module Snaps {
  import opened Arithmetic
  import opened Bins
  import opened Words
  import opened SliceMaps
  import opened Backend
  import opened Growth
  import opened Pages
  import opened HeapStates
  import opened HeapSteps
  import opened SliceSteps
  import opened Queues
  import opened HeapLemmas
  import opened Supply

  /** What a collection round or a search can change: the queues, the headers and marks of pages, the retired range
      and the free slices. */
  datatype Snap = Snap(members: seq<seq<int>>, pages: map<int, Page>, links: map<int, Links>, lo: nat, hi: nat,
                       free: set<int>)

  // ---------------------------------------------------------------------------------------------
  // Collection rounds
  // ---------------------------------------------------------------------------------------------

  /** One collection round: the queues of the retired range are aged, the slices of the pages that went are free,
      and the new range runs from the first queue that keeps a countdown to the last. */
  ghost predicate Round(s: Snap, t: Snap) {
    var end := Max(s.lo, Min(s.hi, MAX_BIN) + 1);
    && Collected(s.lo, end, s.members, s.pages, s.links, t.members, t.pages, t.links)
    && SlicesFreed(s.pages, t.pages, s.free, t.free)
    && SubPages(s.pages, t.pages)
    && RangeKept(s.lo, end, s.members, s.pages, s.links, t.lo, t.hi)
  }

  /** The least range that holds every queue of `[lo, end)` with a countdown still running; empty if there is
      none. */
  ghost predicate RangeKept(lo: int, end: int, members: seq<seq<int>>, pages: map<int, Page>, links: map<int, Links>,
                            min: int, max: int)
  {
    && (forall q :: lo <= q < end && 0 <= q < |members| && KeepsIn(q, members, pages, links) ==> min <= q <= max)
    && if min == QUEUE_COUNT then max == 0
       else
         && lo <= min < end && 0 <= min < |members| && KeepsIn(min, members, pages, links)
         && lo <= max < end && 0 <= max < |members| && KeepsIn(max, members, pages, links)
  }

  ghost predicate KeepsIn(q: nat, members: seq<seq<int>>, pages: map<int, Page>, links: map<int, Links>)
    requires q < |members|
  {
    KeepsAging(members[q], Window(members[q]), pages, links)
  }

  /** A round's window facts. */
  lemma RoundAges(p: int, lo: nat, hi: nat, min: int, max: int, s: Snap, members: seq<seq<int>>, pages: map<int, Page>,
                  links: map<int, Links>)
    requires var end := Max(lo, Min(hi, MAX_BIN) + 1);
             && Collected(lo, end, s.members, s.pages, s.links, members, pages, links)
             && RangeKept(lo, end, s.members, s.pages, s.links, min, max)
    ensures WindowAged(p, lo, hi, min, max, s.members, s.pages, s.links, members, pages, links)
  {
    hide Collected, KeepsAging, WindowAged, Window;
    forall q | lo <= q <= Min(hi, MAX_BIN) && q < |s.members|
               && KeepsAging(s.members[q], Window(s.members[q]), s.pages, s.links)
      ensures min <= q <= max
    {
      assert KeepsIn(q, s.members, s.pages, s.links);
    }
    WindowReached(p, lo, hi, min, max, s.members, s.pages, s.links, members, pages, links);
  }

  lemma AgedSub(pages0: map<int, Page>, links0: map<int, Links>, pages: map<int, Page>, links: map<int, Links>, p: int)
    requires p in pages0 && p in links0 && AgedAt(pages0, links0, pages, links, p)
    requires pages == pages0 || pages == pages0 - {p}
    ensures SubPages(pages0, pages)
  {
  }

  // ---------------------------------------------------------------------------------------------
  // Frees
  // ---------------------------------------------------------------------------------------------

  /** A queue without page `x`. */
  function Erase(m: seq<int>, x: int): seq<int> {
    if m == [] then [] else if m[0] == x then m[1..] else [m[0]] + Erase(m[1..], x)
  }

  lemma {:induction false} EraseIs(m: seq<int>, at: nat, x: int)
    requires NoDup(m) && at < |m| && m[at] == x
    ensures Erase(m, x) == Without(m, at)
  {
    if at > 0 {
      assert m[0] != x;
      EraseIs(m[1..], at - 1, x);
      assert Without(m, at) == [m[0]] + Without(m[1..], at - 1);
    }
  }

  /** An empty page of a bin queue is settled. In a queue of one page, or of up to three with blocks below 1024
      bytes, it stays, counting down from 16, or from 4 with blocks above 10240, and the retired range reaches
      its bin. Otherwise it leaves the queue and its slices are free. */
  ghost predicate Retired(s: Snap, t: Snap, p: int) {
    && p in s.pages && 0 <= s.pages[p].bin < |s.members|
    && var h := s.pages[p];
       var queue := s.members[h.bin];
       && MarksBut(s.links, t.links, p)
       && if |queue| <= 3 && (|queue| == 1 || h.blockSize < 1024) then
            && t.pages == s.pages && t.members == s.members && t.free == s.free
            && p in t.links && !t.links[p].inFull
            && t.links[p].retireExpire == (if h.blockSize <= 10240 then 16 else 4)
            && t.lo == Min(s.lo, h.bin) && t.hi == Max(s.hi, h.bin)
          else
            && t.pages == s.pages - {p} && p !in t.links && t.members == s.members[h.bin := Erase(queue, p)]
            && t.free == s.free + Range(p / SLICE_SIZE, PageSlices(h.kind)) && t.lo == s.lo && t.hi == s.hi
  }

  /** The queues after a page that has room again left the full queue for the end of its bin queue. */
  ghost function Unfulled(members: seq<seq<int>>, bin: int, p: int): seq<seq<int>>
    requires FULL_QUEUE < |members| && 0 <= bin < |members|
  {
    members[FULL_QUEUE := Erase(members[FULL_QUEUE], p)][bin := members[bin] + [p]]
  }

  /** A page a block came back to, and which was flagged or is empty, is settled: a flagged page first goes to the
      end of its bin queue; an empty one is then retired or dropped; one in use keeps its countdown. */
  ghost predicate Transition(s: Snap, t: Snap, p: int) {
    && p in s.pages && p in s.links && 0 <= s.pages[p].bin < FULL_QUEUE < |s.members|
    && var h := s.pages[p];
       var u := if s.links[p].inFull then s.(members := Unfulled(s.members, h.bin, p)) else s;
       if h.used == 0 then Retired(u, t, p)
       else
         && t == u.(links := t.links) && MarksBut(s.links, t.links, p)
         && p in t.links && !t.links[p].inFull && t.links[p].retireExpire == s.links[p].retireExpire
  }

  ghost predicate LinkWritten(before: map<int, Byte>, bytes: map<int, Byte>, a: int, v: int) {
    0 <= v <= USIZE_MAX && bytes == WriteWord(before, a, v)
  }

  lemma FreeIsHead(s: State, p: int)
    requires Consistent(s) && p in s.pages && p in s.lists
    ensures s.pages[p].free == Head(s.lists[p])
  {
    hide Consistent, Geometry, NoDup, IsBlock, Chain, PageZero;
    PagesOkAt(s, p);
  }

  /** What a free does to the page of the block: the block is pushed; a page that was in the full queue or gave
      back its last block with no countdown running makes a transition; any other stays as it is, with the
      countdown it had. */
  ghost predicate PageFreed(s: Snap, t: Snap, p: int, a: int) {
    && p in s.pages && p in s.links
    && var u := s.(pages := s.pages[p := Pushed(s.pages[p], a)]);
       if s.links[p].inFull || (s.pages[p].used == 1 && s.links[p].retireExpire == 0) then Transition(u, t, p)
       else t == u
  }

  lemma PageFreedIs(s: Snap, u: Snap, t: Snap, p: int, a: int)
    requires p in s.pages && p in s.links && u == s.(pages := s.pages[p := Pushed(s.pages[p], a)])
    requires if s.links[p].inFull || (s.pages[p].used == 1 && s.links[p].retireExpire == 0) then Transition(u, t, p)
             else t == u
    ensures PageFreed(s, t, p, a)
  {
    hide Transition, Pushed;
  }

  lemma UnfullMarks(l0: map<int, Links>, l1: map<int, Links>, l2: map<int, Links>, l3: map<int, Links>, p: int)
    requires SameMarks(l0, l1) && Marked(l1, l2, p) && SameMarks(l2, l3)
    ensures MarksBut(l0, l3, p) && l3.Keys == l0.Keys
  {
  }

  /** A page that stays, and one that goes. */
  lemma RetiredIs(s: Snap, t: Snap, p: int, stays: bool)
    requires p in s.pages && 0 <= s.pages[p].bin < |s.members| && MarksBut(s.links, t.links, p)
    requires var h, n := s.pages[p], |s.members[s.pages[p].bin]|;
             && (stays <==> n <= 3 && (n == 1 || h.blockSize < 1024))
             && if stays then
                  && t == s.(links := t.links, lo := t.lo, hi := t.hi) && p in t.links && !t.links[p].inFull
                  && t.links[p].retireExpire == (if h.blockSize <= 10240 then 16 else 4)
                  && t.lo == Min(s.lo, h.bin) && t.hi == Max(s.hi, h.bin)
                else
                  && t.pages == s.pages - {p} && p !in t.links
                  && t.members == s.members[h.bin := Erase(s.members[h.bin], p)]
                  && t.free == s.free + Range(p / SLICE_SIZE, PageSlices(h.kind)) && t.lo == s.lo && t.hi == s.hi
    ensures Retired(s, t, p)
  {
    hide Erase, Range, PageSlices, MarksBut;
  }

  lemma RetiredMarks(s: Snap, u: Snap, t: Snap, p: int)
    requires Retired(u, t, p) && MarksBut(s.links, u.links, p)
    requires s.links.Keys == u.links.Keys
    ensures Retired(u.(links := s.links), t, p)
    ensures p in u.pages && (p in t.pages ==> t.pages[p] == u.pages[p])
  {
    hide Erase, Range;
    MarksButTrans(s.links, u.links, t.links, p);
  }

  /** What a free does: a run's slices go to the map and nothing else changes; a block goes back to the page its
      Layout recovers, its first word linking to the list's old head. */
  ghost predicate FreedWhere(a: int, l: Layout, s: Snap, t: Snap, before: map<int, Byte>, bytes: map<int, Byte>) {
    l.align >= 1 &&
    match Classify(l)
    case Huge => t == s.(free := s.free + Range(a / SLICE_SIZE, HugeSlices(l))) && bytes == before
    case Bin(b) =>
      var p := HeaderOf(KindOfBin(b), a);
      && BlockFreed(s.pages, t.pages, p, a) && PageFreed(s, t, p, a)
      && LinkWritten(before, bytes, a, s.pages[p].free)
  }

  // ---------------------------------------------------------------------------------------------
  // Searches
  // ---------------------------------------------------------------------------------------------

  /** The members of `m` in `s`, in order. */
  ghost function Those(m: seq<int>, s: set<int>): seq<int> {
    if m == [] then []
    else
      var front, x := Those(m[..|m| - 1], s), m[|m| - 1];
      if x in s then front + [x] else front
  }

  lemma ThoseStep(m: seq<int>, k: nat, s: set<int>)
    requires k < |m|
    ensures Those(m[..k + 1], s) == Those(m[..k], s) + (if m[k] in s then [m[k]] else [])
    ensures m[k..] == [m[k]] + m[k + 1..] && m[k..][1..] == m[k + 1..]
  {
    assert m[..k + 1][..k] == m[..k];
  }

  ghost function InUse(pages: map<int, Page>): set<int> {
    set p | p in pages && pages[p].used != 0
  }

  /** The bin queues without their empty pages. */
  ghost predicate Cleaned(members0: seq<seq<int>>, pages0: map<int, Page>, members: seq<seq<int>>) {
    && |members0| == QUEUE_COUNT == |members|
    && forall q :: 0 <= q < QUEUE_COUNT ==>
         members[q] == if 1 <= q <= MAX_BIN then Those(members0[q], InUse(pages0)) else members0[q]
  }

  lemma {:induction false} ThoseSame(m: seq<int>, s: set<int>, t: set<int>)
    requires forall x :: x in m ==> (x in s <==> x in t)
    ensures Those(m, s) == Those(m, t)
  {
    if m != [] {
      forall x | x in m[..|m| - 1] ensures x in m {}
      assert m[|m| - 1] in m;
      ThoseSame(m[..|m| - 1], s, t);
    }
  }

  lemma ThoseNone(m: seq<int>, s: set<int>)
    ensures m[..0] == [] && Those(m[..0], s) == [] && m[0..] == m
  {
  }

  lemma {:induction false} ThoseClean(m: seq<int>, pages: map<int, Page>, links: map<int, Links>)
    requires CleanSeq(m, pages, links)
    ensures Those(m, InUse(pages)) == m
  {
    if m != [] {
      var front := m[..|m| - 1];
      forall i | 0 <= i < |front| ensures front[i] in pages && front[i] in links { assert m[i] == front[i]; }
      assert CleanSeq(front, pages, links);
      ThoseClean(front, pages, links);
      assert m == front + [m[|m| - 1]];
    }
  }

  /** The queues whose bit of `pending` is clear are without their empty pages, the others as they were. */
  ghost predicate CleanedBut(members0: seq<seq<int>>, pages0: map<int, Page>, members: seq<seq<int>>, pending: bv64) {
    && |members0| == QUEUE_COUNT == |members|
    && forall q: nat :: q < QUEUE_COUNT ==>
         members[q] == if 1 <= q <= MAX_BIN && !Bit(pending, q) then Those(members0[q], InUse(pages0)) else members0[q]
  }

  lemma CleanedStart(members: seq<seq<int>>, pages: map<int, Page>, links: map<int, Links>, pending: bv64)
    requires |members| == QUEUE_COUNT
    requires forall q: nat | 1 <= q <= MAX_BIN :: !Bit(pending, q) ==> CleanSeq(members[q], pages, links)
    ensures CleanedBut(members, pages, members, pending)
  {
    hide Bit, InUse, CleanSeq;
    forall q: nat | 1 <= q <= MAX_BIN && !Bit(pending, q) ensures Those(members[q], InUse(pages)) == members[q] {
      ThoseClean(members[q], pages, links);
    }
  }

  lemma CleanedStep(m0: seq<seq<int>>, pages0: map<int, Page>, m1: seq<seq<int>>, pages1: map<int, Page>,
                    m2: seq<seq<int>>, pending1: bv64, pending2: bv64, qi: nat)
    requires CleanedBut(m0, pages0, m1, pending1) && SubPages(pages0, pages1) && OthersSame(m1, m2, qi)
    requires 1 <= qi <= MAX_BIN && Bit(pending1, qi) && m2[qi] == Those(m1[qi], InUse(pages1))
    requires forall q: nat | q < 64 :: Bit(pending2, q) == (Bit(pending1, q) && q != qi)
    ensures CleanedBut(m0, pages0, m2, pending2)
  {
    hide Bit, InUse, Those, SubPages;
    InUseSame(m0[qi], pages0, pages1);
  }

  lemma CleanedAll(m0: seq<seq<int>>, pages0: map<int, Page>, m1: seq<seq<int>>, pending: bv64)
    requires CleanedBut(m0, pages0, m1, pending) && forall q: nat | q < 64 :: !Bit(pending, q)
    ensures Cleaned(m0, pages0, m1)
  {
    hide Bit, InUse, Those;
  }

  lemma WalkHead(m: seq<int>, k: nat)
    requires k <= |m|
    ensures m[k..] != [] ==> k < |m| && Head(m[k..]) == m[k]
  {
  }

  lemma SubAt(pages0: map<int, Page>, pages: map<int, Page>, p: int)
    requires SubPages(pages0, pages) && p in pages
    ensures p in pages0 && pages[p] == pages0[p] && (p in InUse(pages0) <==> pages[p].used != 0)
  {
  }

  /** A release keeps the pages in use. */
  lemma InUseSame(m: seq<int>, pages0: map<int, Page>, pages: map<int, Page>)
    requires SubPages(pages0, pages)
    ensures Those(m, InUse(pages)) == Those(m, InUse(pages0))
  {
    ThoseSame(m, InUse(pages), InUse(pages0));
  }

  ghost function Roomy(pages: map<int, Page>): set<int> {
    set p | p in pages && !Roomless(pages[p])
  }

  ghost function Filled(pages: map<int, Page>): set<int> {
    set p | p in pages && Roomless(pages[p])
  }

  /** The search of queue `m` ends at its page `i`: one with a free block, or one with room at least four places
      after the first with room. */
  ghost predicate Stops(m: seq<int>, pages: map<int, Page>, i: int) {
    && 0 <= i < |m| && m[i] in pages && !Roomless(pages[m[i]])
    && (pages[m[i]].free != 0 || exists j :: 0 <= j <= i - 4 && m[j] in Roomy(pages))
  }

  /** The search has looked at the first `seen` pages of its queue and sent those without room to the full queue. */
  ghost predicate Walked(bin: nat, s: Snap, t: Snap, seen: nat) {
    && |s.members| == QUEUE_COUNT && bin < FULL_QUEUE && seen <= |s.members[bin]|
    && var m := s.members[bin];
       && (forall i :: 0 <= i < seen - 1 ==> !Stops(m, s.pages, i))
       && (seen == |m| || (seen >= 1 && Stops(m, s.pages, seen - 1)))
       && t == s.(members := Parking(s.members, bin, seen, s.pages), links := t.links)
       && ParkedMarks(s.links, t.links, Those(m[..seen], Filled(s.pages)))
  }

  ghost function Parking(members: seq<seq<int>>, bin: nat, seen: nat, pages: map<int, Page>): seq<seq<int>>
    requires |members| == QUEUE_COUNT && bin < FULL_QUEUE && seen <= |members[bin]|
  {
    var m := members[bin];
    members[bin := Those(m[..seen], Roomy(pages)) + m[seen..]]
           [FULL_QUEUE := members[FULL_QUEUE] + Those(m[..seen], Filled(pages))]
  }

  /** The pages of `parked` are flagged and do not count down, the others keep their marks. */
  ghost predicate ParkedMarks(links: map<int, Links>, after: map<int, Links>, parked: seq<int>) {
    && after.Keys == links.Keys
    && forall x :: x in links ==>
         if x in parked then after[x].inFull && after[x].retireExpire == 0
         else after[x].inFull == links[x].inFull && after[x].retireExpire == links[x].retireExpire
  }

  /** Of the pages with room among the first `seen`, the search takes the `k`th: the first of them, at `f`, unless
      a later one is at least as full as every one before it without being mostly used; of these the last. */
  ghost predicate Picks(m: seq<int>, pages: map<int, Page>, seen: nat, f: nat, k: nat) {
    && f <= k < seen <= |m| && m[f] in Roomy(pages) && m[k] in Roomy(pages)
    && (forall j :: 0 <= j < f ==> m[j] !in Roomy(pages))
    && (k > f ==> !MostlyUsed(pages[m[k]]) && pages[m[f]].used <= pages[m[k]].used)
    && (forall i :: f < i < seen && m[i] in Roomy(pages) && !MostlyUsed(pages[m[i]]) ==>
          if i <= k then pages[m[i]].used <= pages[m[k]].used else pages[m[i]].used < pages[m[k]].used)
  }

  ghost predicate Picked(m: seq<int>, pages: map<int, Page>, seen: nat, page: int) {
    exists f: nat, k: nat :: Picks(m, pages, seen, f, k) && m[k] == page
  }

  lemma {:induction false} ThoseHas(m: seq<int>, s: set<int>, k: nat)
    requires k < |m| && m[k] in s
    ensures m[k] in Those(m, s)
  {
    var n := |m| - 1;
    if k < n {
      ThoseHas(m[..n], s, k);
      assert m[..n][k] == m[k];
      if m[n] in s { assert forall x :: x in Those(m[..n], s) ==> x in Those(m[..n], s) + [m[n]]; }
    } else {
      assert m[n] in Those(m[..n], s) + [m[n]];
    }
  }

  lemma {:induction false} ThoseOnly(m: seq<int>, s: set<int>)
    ensures forall x :: x in Those(m, s) ==> x in m && x in s
  {
    if m != [] {
      var n := |m| - 1;
      ThoseOnly(m[..n], s);
      forall x | x in Those(m, s) ensures x in m && x in s {
        if x in Those(m[..n], s) { assert x in m[..n]; } else { assert x == m[n]; }
      }
    }
  }

  lemma {:induction false} ThoseEmpty(m: seq<int>, s: set<int>)
    requires forall j :: 0 <= j < |m| ==> m[j] !in s
    ensures Those(m, s) == []
  {
    if m != [] {
      var n := |m| - 1;
      forall j | 0 <= j < n ensures m[..n][j] !in s { assert m[..n][j] == m[j]; }
      ThoseEmpty(m[..n], s);
    }
  }

  /** A search starts with nothing seen. */
  lemma ParkingStart(members: seq<seq<int>>, bin: nat, pages: map<int, Page>, links: map<int, Links>)
    requires |members| == QUEUE_COUNT && bin < FULL_QUEUE
    ensures Parking(members, bin, 0, pages) == members
    ensures ParkedMarks(links, links, Those(members[bin][..0], Filled(pages)))
  {
    var m := members[bin];
    assert Those(m[..0], Roomy(pages)) + m[0..] == m;
    assert members[FULL_QUEUE] + Those(m[..0], Filled(pages)) == members[FULL_QUEUE];
  }

  /** A page with room is passed, one without is parked. */
  lemma ParkingStep(members: seq<seq<int>>, bin: nat, i: nat, pages: map<int, Page>)
    requires |members| == QUEUE_COUNT && bin < FULL_QUEUE && i < |members[bin]| && members[bin][i] in pages
    ensures var m := members[bin];
            var before, after := Parking(members, bin, i, pages), Parking(members, bin, i + 1, pages);
            var passed := Those(m[..i], Roomy(pages));
            && before[bin] == passed + m[i..] && m[i..] != [] && m[i..][0] == m[i] && m[i..][1..] == m[i + 1..]
            && if m[i] in Roomy(pages) then after == before && after[bin] == passed + [m[i]] + m[i + 1..]
               else after == before[bin := passed + m[i + 1..]][FULL_QUEUE := before[FULL_QUEUE] + [m[i]]]
    ensures members[bin][i] in Roomy(pages) <==> members[bin][i] !in Filled(pages)
  {
    hide Those;
    var m := members[bin];
    ThoseStep(m, i, Roomy(pages));
    ThoseStep(m, i, Filled(pages));
    var before, after := Parking(members, bin, i, pages), Parking(members, bin, i + 1, pages);
    var passed, full := Those(m[..i], Roomy(pages)), Those(m[..i], Filled(pages));
    if m[i] in Roomy(pages) {
      assert passed + m[i..] == (passed + [m[i]]) + m[i + 1..];
      assert full + [] == full;
    } else {
      assert passed + [] == passed;
      assert (members[FULL_QUEUE] + full) + [m[i]] == members[FULL_QUEUE] + (full + [m[i]]);
    }
  }

  lemma MarksStep(l0: map<int, Links>, l1: map<int, Links>, l2: map<int, Links>, m: seq<int>, i: nat,
                  pages: map<int, Page>)
    requires i < |m| && m[i] in l1 && ParkedMarks(l0, l1, Those(m[..i], Filled(pages)))
    requires if m[i] in Filled(pages) then
               MarksBut(l1, l2, m[i]) && l2.Keys == l1.Keys && l2[m[i]].inFull && l2[m[i]].retireExpire == 0
             else l2 == l1
    ensures ParkedMarks(l0, l2, Those(m[..i + 1], Filled(pages)))
  {
    hide Those;
    ThoseStep(m, i, Filled(pages));
    var front := Those(m[..i], Filled(pages));
    if m[i] in Filled(pages) {
      forall x ensures x in front + [m[i]] <==> x in front || x == m[i] {}
    } else {
      assert front + [] == front;
    }
  }

  lemma PickFirst(m: seq<int>, pages: map<int, Page>, i: nat)
    requires i < |m| && m[i] in Roomy(pages) && forall j :: 0 <= j < i ==> m[j] !in Roomy(pages)
    ensures Picks(m, pages, i + 1, i, i)
    ensures Stops(m, pages, i) <==> pages[m[i]].free != 0
  {
  }

  /** The page at `i` is passed over or becomes the candidate. */
  lemma PickNext(m: seq<int>, pages: map<int, Page>, i: nat, f: nat, k: nat)
    requires i < |m| && Picks(m, pages, i, f, k)
    ensures m[i] !in Roomy(pages) ==> Picks(m, pages, i + 1, f, k) && !Stops(m, pages, i)
    ensures m[i] in Roomy(pages) ==>
              var h, c := pages[m[i]], pages[m[k]];
              && Picks(m, pages, i + 1, f, if h.used >= c.used && !MostlyUsed(h) then i else k)
              && (Stops(m, pages, i) <==> h.free != 0 || f <= i - 4)
  {
    hide MostlyUsed;
    if m[i] in Roomy(pages) && f <= i - 4 { assert m[f] in Roomy(pages); }
  }

  /** Where slices for something new are taken: at the lowest fit of what is free, with nothing granted; without a
      fit, at the lowest fit of that, the empty pages' slices and what was granted. */
  ghost predicate PlacedFit(start: int, count: nat, align: nat, free: set<int>, pages: map<int, Page>,
                            granted: set<int>, now: set<int>, limit: int)
    requires align >= 1
  {
    if NoFit(free, count, align) then
      LowestFit(WithGain(free + EmptySlices(pages), granted, now, limit), start, count, align)
    else
      LowestFit(free, start, count, align) && now == granted
  }

  /** A page with a free block, linking blocks if it has none. */
  function Stocked(p: int, h: Page): Page {
    if h.free != 0 then h else ExtendedPage(p, h)
  }

  /** A search that found room: nothing was asked of memory, the page is the first of its queue without a countdown,
      with a free block, and nothing else has changed since the walk. */
  ghost predicate FoundRoom(bin: nat, p: int, s: Snap, t: Snap) {
    && p in s.pages && p in s.links && p in t.links && |s.members| == QUEUE_COUNT && bin < QUEUE_COUNT
    && t == s.(members := s.members[bin := [p] + Erase(s.members[bin], p)],
               pages := s.pages[p := Stocked(p, s.pages[p])], links := t.links)
    && MarksBut(s.links, t.links, p) && t.links[p].retireExpire == 0 && t.links[p].inFull == s.links[p].inFull
  }

  /** A new page: where its slices are, what it hands out first, and that it is alone in its queue. Nothing else
      has changed, or every empty page was released on the way. */
  ghost predicate Supplied(bin: nat, p: int, s: Snap, t: Snap, granted: set<int>, now: set<int>, limit: int)
    requires bin >= 1
  {
    var n := PageSlices(KindOfBin(bin));
    && p % SLICE_SIZE == 0 && PlacedFit(p / SLICE_SIZE, n, n, s.free, s.pages, granted, now, limit)
    && p in t.pages && t.pages[p].free == p + BlockStart(BinSize(bin))
    && bin < |t.members| && t.members[bin] == [p]
    && if NoFit(s.free, n, n) then
         && Cleaned(s.members, s.pages, t.members[bin := []]) && t.lo == QUEUE_COUNT && t.hi == 0
         && SubPages(s.pages, t.pages - {p}) && NoEmpty(t.pages - {p})
       else
         && bin < |s.members| && t.members == s.members[bin := [p]] && t.pages - {p} == s.pages
         && t.lo == s.lo && t.hi == s.hi
  }

  // ---------------------------------------------------------------------------------------------
  // Allocations
  // ---------------------------------------------------------------------------------------------

  /** The stations of an allocation that missed: with the heap open and `gap` free at first; when the search starts,
      a collection round later if one was due; after the walk; after the round an empty walk ends in; and with the
      page found. `granted` is what had been granted, and `end` the size of memory, when the heap was open. */
  datatype Trail = Trail(gap: set<int>, granted: set<int>, end: nat, start: Snap, parked: Snap, last: Snap, found: Snap,
                         seen: nat)

  /** The trail of a request that needed none. */
  ghost function NoTrail(): Trail {
    var s := Snap([], map[], map[], 0, 0, {});
    Trail({}, {}, 0, s, s, s, s, 0)
  }

  /** Whether the heap was open, how many misses it had counted since the last round, and what memory had logged and
      granted. */
  datatype Before = Before(live: bool, misses: nat, log: seq<GrowEvent>, granted: set<int>)

  /** A heap that is already open has no gap to take in; opening it frees the usable slices between the first whole
      one above the heap base and the end of memory. */
  ghost predicate TakesGap(live: bool, free: set<int>, granted: set<int>, t: Trail, heapBase: nat, limit: int) {
    if live then t.gap == free && t.granted == granted
    else
      var first := CeilDiv(heapBase, SLICE_SIZE);
      t.granted == Range(first, t.end - first) && t.gap == Usable(t.granted, limit)
  }

  /** The heap opens if this is its first allocation, and every thousandth miss ages the retired pages. */
  ghost predicate Housekept(s: Snap, live: bool, misses: nat, t: Trail) {
    var first := if live then s else s.(free := t.gap);
    if misses + 1 >= 1000 then Round(first, t.start) else t.start == first
  }

  /** Where the page of a miss comes from: the one picked of the queue when it has any with room, and a new one,
      after a collection round, when not. */
  ghost predicate Searched(bin: nat, page: Option<int>, t: Trail, now: set<int>, limit: int) {
    && 1 <= bin <= MAX_BIN && Walked(bin, t.start, t.parked, t.seen)
    && if SomeRoom(t.start.members[bin], t.start.pages) then
         && page.Some? && Picked(t.start.members[bin], t.start.pages, t.seen, page.value)
         && t.last == t.parked && FoundRoom(bin, page.value, t.parked, t.found) && now == t.granted
       else
         && Round(t.parked, t.last)
         && match page
            case Some(p) => Supplied(bin, p, t.last, t.found, t.granted, now, limit)
            case None =>
              NoFit(t.last.free + EmptySlices(t.last.pages), PageSlices(KindOfBin(bin)), PageSlices(KindOfBin(bin)))
  }

  /** The head of page `p`'s list is handed out, and nothing else happens. */
  ghost predicate HandsOut(s: Snap, t: Snap, p: int, block: int) {
    && p in s.pages && p in t.pages && block == s.pages[p].free
    && t == s.(pages := s.pages[p := Popped(s.pages[p], t.pages[p].free)])
  }

  /** With a free block in the first page of the queue, the first of them is the answer and nothing else happens. */
  ghost predicate HeadServes(bin: nat, block: Option<int>, s: Snap, t: Snap) {
    && block.Some? && bin < |s.members| && s.members[bin] != []
    && HandsOut(s, t, s.members[bin][0], block.value) && HeaderOf(KindOfBin(bin), block.value) == s.members[bin][0]
  }

  /** Where a run comes from: `count` slices at the place `PlacedFit` says, or nothing when not even the slices of
      empty pages have a fit. Those pages are let go only when nothing fits without them. */
  ghost predicate RunServed(count: nat, align: nat, block: Option<int>, s: Snap, granted: set<int>, t: Snap,
                            now: set<int>, limit: int)
    requires align >= 1
  {
    && (match block
        case None => NoFit(s.free + EmptySlices(s.pages), count, align)
        case Some(a) =>
          a % SLICE_SIZE == 0 && PlacedFit(a / SLICE_SIZE, count, align, s.free, s.pages, granted, now, limit))
    && if NoFit(s.free, count, align) then
         && Cleaned(s.members, s.pages, t.members) && t.lo == QUEUE_COUNT && t.hi == 0
         && SubPages(s.pages, t.pages) && NoEmpty(t.pages)
       else t == s.(free := t.free)
  }

  /** A miss for a request of `bin`: the housekeeping, the search, and the first free block of the page found. */
  ghost predicate MissServed(bin: nat, block: Option<int>, s: Snap, live: bool, misses: nat, t: Trail, now: set<int>,
                             limit: int, after: Snap)
  {
    && Housekept(s, live, misses, t)
    && match block
       case None => Searched(bin, None, t, now, limit)
       case Some(a) =>
         var p := HeaderOf(KindOfBin(bin), a);
         Searched(bin, Some(p), t, now, limit) && HandsOut(t.found, after, p, a)
  }

  /** A page with room that is still there when a search of its queue begins: one in use, or any if no collection
      round is due. */
  ghost predicate LastingRoom(m: seq<int>, pages: map<int, Page>, due: bool) {
    exists i :: 0 <= i < |m| && m[i] in pages && !Roomless(pages[m[i]]) && (pages[m[i]].used != 0 || !due)
  }

  /** The block is one of a page of the queue that serves `l`. */
  ghost predicate FromQueue(l: Layout, block: Option<int>, members: seq<seq<int>>) {
    && block.Some? && l.align >= 1 && Classify(l).Bin? && Classify(l).bin < |members|
    && HeaderOf(KindOfBin(Classify(l).bin), block.value) in members[Classify(l).bin]
  }

  /** The queue that serves `l` has lasting room. */
  ghost predicate RoomFor(l: Layout, s: Snap, misses: nat) {
    && l.align >= 1 && Classify(l).Bin? && Classify(l).bin < |s.members|
    && LastingRoom(s.members[Classify(l).bin], s.pages, misses + 1 >= 1000)
  }

  lemma {:induction false} SurvivorsHas(m: seq<int>, k: nat, pages: map<int, Page>, links: map<int, Links>)
    requires k < |m| && m[k] in pages && pages[m[k]].used != 0
    ensures m[k] in Survivors(m, pages, links)
  {
    var n := |m| - 1;
    var front := Survivors(m[..n], pages, links);
    if k < n {
      assert m[..n][k] == m[k];
      SurvivorsHas(m[..n], k, pages, links);
      assert forall x :: x in front ==> x in front + [m[n]];
    } else {
      assert m[n] in front + [m[n]];
    }
  }

  lemma {:induction false} SurvivorsOnly(m: seq<int>, pages: map<int, Page>, links: map<int, Links>)
    ensures forall x :: x in Survivors(m, pages, links) ==> x in m
  {
    if m != [] {
      var n := |m| - 1;
      SurvivorsOnly(m[..n], pages, links);
      forall x | x in Survivors(m, pages, links) ensures x in m {
        if x in Survivors(m[..n], pages, links) { assert x in m[..n]; } else { assert x == m[n]; }
      }
    }
  }

  /** A round keeps the pages in use in their queue and brings none in. */
  lemma RoundKeeps(s: Snap, t: Snap, bin: nat, k: nat)
    requires Round(s, t) && bin < QUEUE_COUNT && |s.members| == QUEUE_COUNT && k < |s.members[bin]|
    requires s.members[bin][k] in s.pages && s.pages[s.members[bin][k]].used != 0
    ensures |t.members| == QUEUE_COUNT
    ensures s.members[bin][k] in t.members[bin] && s.members[bin][k] in t.pages
    ensures t.pages[s.members[bin][k]] == s.pages[s.members[bin][k]]
  {
    var m := s.members[bin];
    var w := Window(m);
    hide Survivors, Window;
    if t.members[bin] != m {
      var front := Survivors(m[..w], s.pages, s.links);
      assert t.members[bin] == front + m[w..];
      if k < w {
        assert m[..w][k] == m[k];
        SurvivorsHas(m[..w], k, s.pages, s.links);
      } else {
        assert m[w..][k - w] == m[k];
      }
    } else {
      assert m[k] in m;
    }
  }

  lemma RoundOnly(s: Snap, t: Snap, bin: nat)
    requires Round(s, t) && bin < QUEUE_COUNT && |s.members| == QUEUE_COUNT
    ensures |t.members| == QUEUE_COUNT && forall x :: x in t.members[bin] ==> x in s.members[bin]
  {
    var m := s.members[bin];
    var w := Window(m);
    hide Survivors, Window, SubPages, SlicesFreed, RangeKept;
    SurvivorsOnly(m[..w], s.pages, s.links);
    if t.members[bin] != m {
      forall x | x in t.members[bin] ensures x in m {
        assert x in Survivors(m[..w], s.pages, s.links) + m[w..];
        if x in Survivors(m[..w], s.pages, s.links) { assert x in m[..w]; } else { assert x in m[w..]; }
      }
    }
  }

  /** A miss whose queue has lasting room is served from that queue, without memory. */
  lemma RoomLasts(bin: nat, block: Option<int>, s: Snap, live: bool, misses: nat, t: Trail, now: set<int>, limit: int,
                  after: Snap)
    requires MissServed(bin, block, s, live, misses, t, now, limit, after)
    requires |s.members| == QUEUE_COUNT && bin < QUEUE_COUNT
    requires LastingRoom(s.members[bin], s.pages, misses + 1 >= 1000)
    ensures |t.start.members| == QUEUE_COUNT && SomeRoom(t.start.members[bin], t.start.pages)
    ensures block.Some? && now == t.granted && HeaderOf(KindOfBin(bin), block.value) in s.members[bin]
  {
    hide Round, Picked, FoundRoom, Supplied, NoFit, EmptySlices, HeaderOf, KindOfBin, HandsOut, Roomless;
    var first := if live then s else s.(free := t.gap);
    var m := s.members[bin];
    var k :| 0 <= k < |m| && m[k] in s.pages && !Roomless(s.pages[m[k]])
             && (s.pages[m[k]].used != 0 || misses + 1 < 1000);
    if misses + 1 >= 1000 {
      RoundKeeps(first, t.start, bin, k);
      RoundOnly(first, t.start, bin);
      var j :| 0 <= j < |t.start.members[bin]| && t.start.members[bin][j] == m[k];
      assert SomeRoom(t.start.members[bin], t.start.pages);
    }
    PickedIn(t.start.members[bin], t.start.pages, t.seen, HeaderOf(KindOfBin(bin), block.value));
  }

  lemma MissIs(bin: nat, a: int, p: int, s: Snap, live: bool, misses: nat, t: Trail, now: set<int>, limit: int,
               after: Snap)
    requires Housekept(s, live, misses, t) && Searched(bin, Some(p), t, now, limit) && HandsOut(t.found, after, p, a)
    requires HeaderOf(KindOfBin(bin), a) == p
    ensures MissServed(bin, Some(a), s, live, misses, t, now, limit, after)
  {
    hide Housekept, Searched, HandsOut, HeaderOf, KindOfBin;
  }

  lemma MissNone(bin: nat, s: Snap, live: bool, misses: nat, t: Trail, now: set<int>, limit: int, after: Snap)
    requires Housekept(s, live, misses, t) && Searched(bin, None, t, now, limit)
    ensures MissServed(bin, None, s, live, misses, t, now, limit, after)
  {
    hide Housekept, Searched;
  }

  lemma HandsOutIs(s: Snap, t: Snap, p: int, next: int, block: int)
    requires p in s.pages && block == s.pages[p].free && t == s.(pages := s.pages[p := Popped(s.pages[p], next)])
    ensures HandsOut(s, t, p, block)
  {
  }

  /** The first free block of a page masks to the page. */
  lemma BlockHeader(s: State, p: int)
    requires Consistent(s) && p in s.pages && p in s.lists && s.lists[p] != []
    ensures HeaderOf(KindOfBin(s.pages[p].bin), s.lists[p][0]) == p
  {
    hide Consistent, IsBlock, Chain, PageZero, NoDup, HeaderOf, KindOfBin, BinSize, BlockStart, BlocksPerPage;
    PagesOkAt(s, p);
    BlockInPage(p, s.pages[p], s.pages[p].capacity, s.lists[p][0]);
  }

  lemma HousekeptIs(s: Snap, first: Snap, live: bool, misses: nat, t: Trail)
    requires first == s.(free := t.gap) && (live ==> first == s)
    requires if misses + 1 >= 1000 then Round(first, t.start) else t.start == first
    ensures Housekept(s, live, misses, t)
  {
    hide Round;
  }

  lemma SearchedIs(bin: nat, page: Option<int>, t: Trail, now: set<int>, limit: int)
    requires 1 <= bin <= MAX_BIN && |t.start.members| == QUEUE_COUNT && Walked(bin, t.start, t.parked, t.seen)
    requires SomeRoom(t.start.members[bin], t.start.pages) ==>
               page.Some? && Picked(t.start.members[bin], t.start.pages, t.seen, page.value)
               && t.last == t.parked && FoundRoom(bin, page.value, t.parked, t.found) && now == t.granted
    requires !SomeRoom(t.start.members[bin], t.start.pages) ==>
               && Round(t.parked, t.last)
               && match page
                  case Some(p) => Supplied(bin, p, t.last, t.found, t.granted, now, limit)
                  case None =>
                    NoFit(t.last.free + EmptySlices(t.last.pages), PageSlices(KindOfBin(bin)),
                          PageSlices(KindOfBin(bin)))
    ensures Searched(bin, page, t, now, limit)
  {
    hide Round, Walked, Picked, FoundRoom, Supplied, SomeRoom, NoFit, EmptySlices, PageSlices, KindOfBin;
  }

  /** An empty queue stays empty when the empty pages go. */
  lemma CleanedAt(members0: seq<seq<int>>, pages0: map<int, Page>, members: seq<seq<int>>, bin: nat)
    requires Cleaned(members0, pages0, members) && bin < |members| && bin < |members0| && members0[bin] == []
    ensures members[bin] == []
  {
  }

  lemma SuppliedIs(bin: nat, p: int, zeroed: bool, s: Snap, u: Snap, t: Snap, granted: set<int>, now: set<int>,
                   limit: int)
    requires 1 <= bin < |u.members| && p % SLICE_SIZE == 0 && p !in u.pages
    requires var n := PageSlices(KindOfBin(bin));
             && PlacedFit(p / SLICE_SIZE, n, n, s.free, s.pages, granted, now, limit)
             && if NoFit(s.free, n, n) then
                  && Cleaned(s.members, s.pages, u.members) && u.lo == QUEUE_COUNT && u.hi == 0
                  && SubPages(s.pages, u.pages) && NoEmpty(u.pages)
                else u == s.(free := u.free)
    requires bin < |s.members| && s.members[bin] == []
    requires t.pages == u.pages[p := ExtendedPage(p, FreshPage(KindOfBin(bin), bin, zeroed))]
    requires t.members == u.members[bin := [p] + u.members[bin]] && t.lo == u.lo && t.hi == u.hi
    ensures Supplied(bin, p, s, t, granted, now, limit)
  {
    hide PlacedFit, NoFit, SubPages, NoEmpty, PageSlices, Cleaned, KindOfBin, BinSize, BlockStart, BlocksPerPage,
         ExtendCount;
    assert t.pages - {p} == u.pages;
    if NoFit(s.free, PageSlices(KindOfBin(bin)), PageSlices(KindOfBin(bin))) {
      CleanedAt(s.members, s.pages, u.members, bin);
    }
    assert t.members[bin := []] == u.members;
  }

  lemma FoundRoomIs(bin: nat, p: int, s: Snap, t: Snap)
    requires p in s.pages && p in s.links && p in t.links && |s.members| == QUEUE_COUNT && bin < QUEUE_COUNT
    requires t == s.(members := s.members[bin := [p] + Erase(s.members[bin], p)], pages := t.pages, links := t.links)
    requires t.pages == if HasFree(s.pages[p]) then s.pages else s.pages[p := ExtendedPage(p, s.pages[p])]
    requires MarksBut(s.links, t.links, p) && t.links[p].retireExpire == 0 && t.links[p].inFull == s.links[p].inFull
    ensures FoundRoom(bin, p, s, t)
  {
    hide Erase, MarksBut, ExtendedPage;
    assert s.pages[p := s.pages[p]] == s.pages;
  }

  lemma FrontMarks(l0: map<int, Links>, l1: map<int, Links>, l2: map<int, Links>, p: int)
    requires SameMarks(l0, l1) && Marked(l1, l2, p)
    ensures MarksBut(l0, l2, p)
  {
  }

  lemma ParkMarks(l0: map<int, Links>, l1: map<int, Links>, l2: map<int, Links>, l3: map<int, Links>,
                  l4: map<int, Links>, p: int)
    requires Marked(l0, l1, p) && SameMarks(l1, l2) && Marked(l2, l3, p) && SameMarks(l3, l4)
    ensures MarksBut(l0, l4, p) && l4.Keys == l0.Keys
  {
  }

  lemma PickedIn(m: seq<int>, pages: map<int, Page>, seen: nat, p: int)
    requires Picked(m, pages, seen, p)
    ensures p in m
  {
  }

  /** A round leaves an empty queue empty. */
  lemma RoundEmpty(s: Snap, t: Snap, bin: nat)
    requires Round(s, t) && bin < |s.members| && s.members[bin] == [] && bin < QUEUE_COUNT
    ensures |t.members| == QUEUE_COUNT && t.members[bin] == []
  {
    EmptyStays(bin, s.members, s.pages, s.links, t.members, t.pages, t.links);
  }

  /** Room, as the search asks for it. */
  lemma RoomIs(h: Page)
    ensures Roomless(h) <==> !HasFree(h) && !IsExpandable(h)
    ensures HasFree(h) <==> h.free != 0
  {
  }
}
