/** Facts about the heap's value state, its page marks and its queue walks, each about one small change. */
module HeapLemmas {
  import opened Arithmetic
  import opened Bins
  import opened Words
  import opened SliceMaps
  import opened Backend
  import opened Pages
  import opened HeapStates
  import opened HeapSteps
  import opened SliceSteps
  import opened Queues

  /** Retirement, page by page: empty means counting down, flagged means every block is live. */
  ghost predicate PageState(h: Page, l: Links) {
    && (l.inFull ==> h.used == h.capacity == h.reserved && l.retireExpire == 0)
    && (!l.inFull && h.used == 0 ==> l.retireExpire != 0)
    && 0 <= l.retireExpire && 1 <= h.capacity
  }

  ghost predicate RetireBut(pages: map<int, Page>, links: map<int, Links>, p: int) {
    forall q :: q in pages && q in links && q != p ==> PageState(pages[q], links[q])
  }

  ghost predicate NoEmpty(pages: map<int, Page>) {
    forall p :: p in pages ==> pages[p].used != 0
  }

  /** Whenever memory was asked to grow, no page was empty. */
  ghost predicate LogOk(log: seq<GrowEvent>) {
    forall k :: 0 <= k < |log| ==> NoEmpty(log[k].pages)
  }

  lemma MarksTrans(a: map<int, Links>, b: map<int, Links>, c: map<int, Links>)
    requires SameMarks(a, b) && SameMarks(b, c)
    ensures SameMarks(a, c)
  {
  }

  lemma MarksSelf(a: map<int, Links>)
    ensures SameMarks(a, a)
  {
  }

  lemma LinkedWithout(q: PageQueue, m: seq<int>, links: map<int, Links>, i: nat)
    requires Linked(q, m, links) && i < |m|
    ensures forall x :: x in Without(m, i) <==> x in m && x != m[i]
  {
    WithoutElems(m, i);
  }

  /** What membership says about a page. */
  lemma MemberHome(members: seq<seq<int>>, pages: map<int, Page>, links: map<int, Links>, loose: int, qi: nat, p: int)
    requires Placed(members, pages, links, loose) && qi < QUEUE_COUNT && p in members[qi]
    ensures p in pages && p in links && p != loose && HomeQueue(pages, links, p) == qi && pages.Keys == links.Keys
  {
    var i :| 0 <= i < |members[qi]| && members[qi][i] == p;
    assert MemberOk(members, pages, links, loose, qi, i);
  }

  /** The queue's first page is the head of its sequence. */
  lemma HeadFirst(queues: seq<PageQueue>, members: seq<seq<int>>, links: map<int, Links>, qi: nat)
    requires QueuesOk(queues, members, links) && qi < QUEUE_COUNT
    ensures |queues| == QUEUE_COUNT && |members| == QUEUE_COUNT
    ensures queues[qi].first == Head(members[qi])
    ensures Head(members[qi]) == 0 <==> members[qi] == []
    ensures members[qi] != [] ==> members == members[qi := [members[qi][0]] + Without(members[qi], 0)]
    ensures queues[qi].count == |members[qi]|
  {
    assert Linked(queues[qi], members[qi], links);
    if members[qi] != [] { assert [members[qi][0]] + Without(members[qi], 0) == members[qi]; }
  }

  lemma LinkedCount(q: PageQueue, m: seq<int>, links: map<int, Links>)
    requires Linked(q, m, links)
    ensures q.count == 0 <==> m == []
  {
  }

  lemma Neighbours(q: PageQueue, m: seq<int>, links: map<int, Links>, i: int)
    requires Linked(q, m, links) && 0 <= i < |m|
    ensures m[i] in links
    ensures links[m[i]].prev == 0 || links[m[i]].prev in m
    ensures links[m[i]].next == 0 || links[m[i]].next in m
    ensures q.first != m[i] ==> RemovedQueue(q, m[i], links[m[i]]).first == q.first
  {
    assert LinkedAt(m, links, i);
  }

  lemma FirstIsMember(q: PageQueue, m: seq<int>, links: map<int, Links>)
    requires Linked(q, m, links)
    ensures q.first == 0 || q.first in m
    ensures q.last == 0 || q.last in m
    ensures q.first == 0 <==> m == []
    ensures q.count == |m|
  {
  }

  lemma OnlyAtMarks(links: map<int, Links>, after: map<int, Links>, p: int, a: int, b: int)
    requires LinksOnlyAt(links, after, p, a, b)
    ensures SameMarks(links, after)
  {
  }

  lemma NotMember(members: seq<seq<int>>, pages: map<int, Page>, links: map<int, Links>, loose: int, qi: int)
    requires Placed(members, pages, links, loose) && 0 <= qi < QUEUE_COUNT
    ensures loose !in members[qi]
  {
    forall i | 0 <= i < |members[qi]|
      ensures members[qi][i] != loose { assert MemberOk(members, pages, links, loose, qi, i); }
  }

  lemma TakenIs(s: State, p: int, l: Layout)
    requires p in s.pages && p in s.lists && s.lists[p] != []
    ensures var t := Taken(s, p, l);
            && t.pages == s.pages[p := Popped(s.pages[p], Head(s.lists[p][1..]))]
            && t.lists == s.lists[p := s.lists[p][1..]] && t.bytes == s.bytes && t.owner == s.owner
            && t.live == s.live[s.lists[p][0] := l] && t.free == s.free && t.zero == s.zero
  {
  }

  lemma TakenPages(pages: map<int, Page>, links: map<int, Links>, p: int, next: int)
    requires RetireBut(pages, links, p) && p in pages && p in links && !links[p].inFull
    requires pages[p].capacity >= 1 && pages[p].used >= 0 && links[p].retireExpire >= 0
    ensures RetireBut(pages[p := Popped(pages[p], next)], links, 0)
  {
  }

  lemma TakenPlaced(members: seq<seq<int>>, pages: map<int, Page>, links: map<int, Links>, p: int, next: int)
    requires Placed(members, pages, links, 0) && p in pages
    ensures Placed(members, pages[p := Popped(pages[p], next)], links, 0)
  {
    RepagedPlaced(members, pages, pages[p := Popped(pages[p], next)], links, 0);
  }

  lemma SentinelPoppable(mem: Memory)
    requires SENTINEL !in mem.pages
    ensures Poppable(mem, SENTINEL, [])
  {
  }

  lemma PoppableHere(mem: Memory, page: int, l: seq<int>, h: Page)
    requires page in mem.pages && mem.pages[page] == h && page != 0 && PageOk(page, h, l) && Chain(l, mem.bytes)
    ensures Poppable(mem, page, l)
  {
  }

  lemma CountsAt(s: State, p: int)
    requires Consistent(s) && p in s.pages
    ensures p in s.lists && p != 0 && 0 <= s.pages[p].used <= s.pages[p].capacity <= s.pages[p].reserved
    ensures |s.lists[p]| == s.pages[p].capacity - s.pages[p].used
    ensures HasFree(s.pages[p]) <==> s.lists[p] != []
    ensures 1 <= s.pages[p].bin <= MAX_BINNED_BIN && s.pages[p].kind == KindOfBin(s.pages[p].bin)
    ensures s.pages[p].blockSize == BinSize(s.pages[p].bin) && s.pages[p].reserved >= 6
  {
    PagesOkAt(s, p);
    hide Consistent, BinSize, BlockStart, BlocksPerPage, Chain, PageZero, IsBlock, NoDup;
    RoomlessIsFull(p, s.pages[p], s.lists[p]);
    AreaInPage(p, s.pages[p]);
  }

  /** Marks agree except perhaps on `p`, which may have gone. */
  ghost predicate MarksBut(links: map<int, Links>, after: map<int, Links>, p: int) {
    && after.Keys <= links.Keys && links.Keys <= after.Keys + {p}
    && forall x :: x in after && x != p ==>
         after[x].inFull == links[x].inFull && after[x].retireExpire == links[x].retireExpire
  }

  lemma PlacedKeys(members: seq<seq<int>>, pages: map<int, Page>, links: map<int, Links>, loose: int)
    requires Placed(members, pages, links, loose)
    ensures pages.Keys == links.Keys && |members| == QUEUE_COUNT
  {
  }

  lemma StateAt(pages: map<int, Page>, links: map<int, Links>, p: int, q: int)
    requires RetireBut(pages, links, p) && q in pages && q in links && q != p
    ensures PageState(pages[q], links[q])
  {
  }

  /** A block went back to its page; the page may have gone with its last block. */
  ghost predicate BlockFreed(pages0: map<int, Page>, pages: map<int, Page>, p: int, a: int) {
    && PagesBut(pages0, pages, p) && p in pages0
    && (p in pages ==> pages[p] == Pushed(pages0[p], a))
    && (p !in pages ==> pages0[p].used == 1)
  }

  lemma PushedFields(h: Page, a: int)
    ensures Pushed(h, a).used == h.used - 1
  {
  }

  lemma BinnedPage(s: State, a: int, page: int)
    requires Consistent(s) && Binned(s, a) && page == Home(a, s.live[a])
    ensures page in s.pages && page in s.lists && page != 0 && s.pages[page].used >= 1
    ensures PageOk(page, s.pages[page], s.lists[page]) && LiveBlock(page, s.pages[page], s.lists[page], a)
  {
    BinnedHome(s, a);
    CountsAt(s, page);
  }

  lemma ReturnedIs(s: State, a: int, page: int)
    requires Consistent(s) && Binned(s, a) && page == Home(a, s.live[a])
    ensures page in s.pages && page in s.lists && 0 <= Head(s.lists[page]) <= USIZE_MAX
    ensures var t := Returned(s, a);
            && t.pages == s.pages[page := Pushed(s.pages[page], a)]
            && t.lists == s.lists[page := [a] + s.lists[page]]
            && t.bytes == WriteWord(s.bytes, a, Head(s.lists[page])) && t.owner == s.owner
            && t.live == s.live - {a} && t.free == s.free && t.zero == s.zero
  {
    BinnedHome(s, a);
    hide Consistent;
  }

  lemma PushedPages(pages: map<int, Page>, links: map<int, Links>, p: int, a: int)
    requires RetireBut(pages, links, 0) && p in pages && 0 !in pages
    ensures RetireBut(pages[p := Pushed(pages[p], a)], links, p)
    ensures Pushed(pages[p], a).used == pages[p].used - 1 && Pushed(pages[p], a).capacity == pages[p].capacity
  {
    hide PageState;
    var after := pages[p := Pushed(pages[p], a)];
    forall q | q in after && q in links && q != p ensures PageState(after[q], links[q]) {
      assert PageState(pages[q], links[q]);
    }
  }

  lemma PushedPlaced(members: seq<seq<int>>, pages: map<int, Page>, links: map<int, Links>, p: int, a: int)
    requires Placed(members, pages, links, 0) && p in pages
    ensures Placed(members, pages[p := Pushed(pages[p], a)], links, 0)
  {
    RepagedPlaced(members, pages, pages[p := Pushed(pages[p], a)], links, 0);
  }

  lemma DroppedIs(s: State, p: int)
    requires p in s.pages
    ensures var t, lo, n := PageDropped(s, p), p / SLICE_SIZE, PageSlices(s.pages[p].kind);
            && t.pages == s.pages - {p} && t.lists == s.lists - {p} && t.bytes == s.bytes && t.live == s.live
            && t.owner == SetOwner(s.owner, lo, n, FreeSlice) && t.free == s.free + Range(lo, n) && t.zero == s.zero
  {
  }

  lemma DepartedRetire(pages: map<int, Page>, links: map<int, Links>, p: int)
    requires RetireBut(pages, links, p)
    ensures RetireBut(pages - {p}, links - {p}, 0)
  {
    forall q | q in pages - {p} && q in links - {p} ensures PageState((pages - {p})[q], (links - {p})[q]) {
      assert PageState(pages[q], links[q]);
    }
  }

  lemma RetireMarks(pages: map<int, Page>, links: map<int, Links>, after: map<int, Links>, p: int)
    requires RetireBut(pages, links, p) && SameMarks(links, after)
    ensures RetireBut(pages, after, p) && MarksBut(links, after, p)
  {
    forall q | q in pages && q in after && q != p ensures PageState(pages[q], after[q]) {
      assert PageState(pages[q], links[q]);
    }
  }

  lemma MarksButGone(links: map<int, Links>, after: map<int, Links>, p: int)
    requires SameMarks(links, after)
    ensures MarksBut(links, after - {p}, p)
  {
  }

  lemma FreeAreOwned(s: State)
    requires Consistent(s)
    ensures s.free <= s.owner.Keys
  {
    hide Consistent;
    Parts(s);
    forall x | x in s.free ensures x in s.owner.Keys {}
  }

  /** A page that is not flagged full is in the queue of its bin, a flagged one in the full queue. */
  lemma InBinQueue(members: seq<seq<int>>, pages: map<int, Page>, links: map<int, Links>, p: int, s: State)
    requires Placed(members, pages, links, 0) && p in pages && p in links && !links[p].inFull && p != 0
    requires Consistent(s) && s.pages == pages
    ensures 1 <= pages[p].bin <= MAX_BIN && |members| == QUEUE_COUNT && p in members[pages[p].bin]
  {
    PlacedAt(members, pages, links, p);
    CountsAt(s, p);
  }

  lemma PlacedAt(members: seq<seq<int>>, pages: map<int, Page>, links: map<int, Links>, p: int)
    requires Placed(members, pages, links, 0) && p in pages && p in links && p != 0
    ensures |members| == QUEUE_COUNT && 1 <= HomeQueue(pages, links, p) <= FULL_QUEUE
    ensures p in members[HomeQueue(pages, links, p)]
  {
    assert HasPlace(members, pages, links, p);
  }

  lemma InFullQueue(members: seq<seq<int>>, pages: map<int, Page>, links: map<int, Links>, p: int)
    requires Placed(members, pages, links, 0) && p in pages && p in links && links[p].inFull && p != 0
    ensures |members| == QUEUE_COUNT && p in members[FULL_QUEUE]
  {
    PlacedAt(members, pages, links, p);
  }

  lemma HomeIsBin(pages: map<int, Page>, links: map<int, Links>, p: int)
    requires p in pages && p in links && !links[p].inFull
    ensures HomeQueue(pages, links, p) == pages[p].bin
  {
  }

  lemma MarksAt(links: map<int, Links>, after: map<int, Links>, p: int)
    requires SameMarks(links, after) && p in links
    ensures p in after && after[p].inFull == links[p].inFull && after[p].retireExpire == links[p].retireExpire
  {
  }

  lemma RetireMarked(pages: map<int, Page>, links: map<int, Links>, after: map<int, Links>, p: int)
    requires RetireBut(pages, links, p) && Marked(links, after, p)
    requires p in pages && PageState(pages[p], after[p])
    ensures RetireBut(pages, after, 0)
  {
    hide PageState;
    forall q | q in pages && q in after ensures PageState(pages[q], after[q]) {
      assert q != p ==> PageState(pages[q], links[q]);
    }
  }

  lemma RetireMarkedBut(pages: map<int, Page>, links: map<int, Links>, after: map<int, Links>, p: int)
    requires RetireBut(pages, links, p) && Marked(links, after, p)
    ensures RetireBut(pages, after, p)
  {
    hide PageState;
  }

  lemma RetireDone(pages: map<int, Page>, links: map<int, Links>, p: int)
    requires RetireBut(pages, links, p) && p in pages && p in links && PageState(pages[p], links[p])
    ensures RetireBut(pages, links, 0)
  {
    hide PageState;
  }

  // ---------------------------------------------------------------------------------------------
  // Walking a queue
  // ---------------------------------------------------------------------------------------------

  /** No page of `m` is empty or carries a countdown. */
  ghost predicate CleanSeq(m: seq<int>, pages: map<int, Page>, links: map<int, Links>) {
    forall i :: 0 <= i < |m| ==>
      m[i] in pages && m[i] in links && pages[m[i]].used != 0 && links[m[i]].retireExpire == 0
  }

  ghost predicate OthersSame(before: seq<seq<int>>, members: seq<seq<int>>, qi: int) {
    |before| == |members| && forall qj :: 0 <= qj < |before| && qj != qi ==> members[qj] == before[qj]
  }

  /** Pages outside `m` are still there with the same header and marks. */
  ghost predicate OutsideSame(m: seq<int>, pages0: map<int, Page>, links0: map<int, Links>,
                              pages: map<int, Page>, links: map<int, Links>)
  {
    forall x :: x in pages0 && x in links0 && x !in m ==> SamePageAt(pages0, links0, pages, links, x)
  }

  ghost predicate SamePageAt(pages0: map<int, Page>, links0: map<int, Links>, pages: map<int, Page>,
                             links: map<int, Links>, x: int)
    requires x in pages0 && x in links0
  {
    && x in pages && x in links && pages[x] == pages0[x]
    && links[x].inFull == links0[x].inFull && links[x].retireExpire == links0[x].retireExpire
  }

  /** Empty pages may have gone; no page has changed or come. */
  ghost predicate SubPages(pages0: map<int, Page>, pages: map<int, Page>) {
    && (forall x :: x in pages ==> x in pages0 && pages[x] == pages0[x])
    && (forall x :: x in pages0 && pages0[x].used != 0 ==> x in pages)
  }

  /** No page but `p` has gone, come or changed. */
  ghost predicate PagesBut(pages0: map<int, Page>, pages: map<int, Page>, p: int) {
    && (forall q :: q in pages ==> q in pages0)
    && (forall q :: q in pages0 && q != p ==> q in pages && pages[q] == pages0[q])
  }

  lemma SubSelf(pages: map<int, Page>)
    ensures SubPages(pages, pages)
  {
  }

  lemma SubTrans(a: map<int, Page>, b: map<int, Page>, c: map<int, Page>)
    requires SubPages(a, b) && SubPages(b, c)
    ensures SubPages(a, c)
  {
  }

  lemma SubDropped(pages0: map<int, Page>, pages: map<int, Page>, p: int)
    requires SubPages(pages0, pages) && p in pages && pages[p].used == 0
    ensures SubPages(pages0, pages - {p})
  {
  }

  lemma WalkStart(members: seq<seq<int>>, qi: nat, pages: map<int, Page>, links: map<int, Links>)
    requires qi < |members|
    ensures members[qi] == [] + members[qi]
    ensures CleanSeq([], pages, links) && OthersSame(members, members, qi)
    ensures OutsideSame(members[qi], pages, links, pages, links) && SubPages(pages, pages)
  {
  }

  /** The page the walk stands at: a page of this bin queue, whose link is the next page of the walk. */
  lemma WalkAt(queues: seq<PageQueue>, members: seq<seq<int>>, pages: map<int, Page>, links: map<int, Links>,
               qi: nat, done: seq<int>, todo: seq<int>)
    requires QueuesOk(queues, members, links) && Placed(members, pages, links, 0) && 1 <= qi <= MAX_BIN && 0 !in pages
    requires members[qi] == done + todo && todo != []
    ensures var p := todo[0];
            && p in members[qi] && p in pages && p in links && p != 0 && !links[p].inFull && pages[p].bin == qi
            && links[p].next == Head(todo[1..]) && (Head(todo[1..]) == 0 <==> todo[1..] == [])
            && p !in done && p !in todo[1..]
    ensures NoDup(done + todo) && pages.Keys == links.Keys
  {
    var m := members[qi];
    var i := |done|;
    assert Linked(queues[qi], m, links);
    assert m[i] == todo[0];
    assert LinkedAt(m, links, i);
    assert MemberOk(members, pages, links, 0, qi, i);
    if i + 1 < |m| { assert m[i + 1] == todo[1..][0]; }
    forall j | 0 <= j < |done| ensures done[j] != todo[0] { assert m[j] == done[j]; }
    forall j | 0 <= j < |todo[1..]| ensures todo[1..][j] != todo[0] { assert m[i + 1 + j] == todo[1..][j]; }
  }

  lemma WalkDropped(m: seq<int>, done: seq<int>, todo: seq<int>, at: nat)
    requires m == done + todo && todo != [] && at < |m| && m[at] == todo[0] && NoDup(m)
    ensures Without(m, at) == done + todo[1..]
    ensures todo[0] !in done
  {
    assert m[|done|] == todo[0];
    assert at == |done|;
    assert m[..at] == done && m[at + 1..] == todo[1..];
    forall j | 0 <= j < |done| ensures done[j] != todo[0] { assert m[j] == done[j]; }
  }

  lemma CleanDropped(m: seq<int>, pages: map<int, Page>, links: map<int, Links>, pagesAfter: map<int, Page>,
                     linksAfter: map<int, Links>, p: int)
    requires CleanSeq(m, pages, links) && MarksBut(links, linksAfter, p) && p !in m && pagesAfter == pages - {p}
    requires linksAfter.Keys == links.Keys - {p}
    ensures CleanSeq(m, pagesAfter, linksAfter)
  {
    forall i | 0 <= i < |m|
      ensures m[i] in pagesAfter && m[i] in linksAfter && pagesAfter[m[i]].used != 0
      ensures linksAfter[m[i]].retireExpire == 0
    {
      assert m[i] in m;
      assert m[i] != p;
    }
  }

  lemma OutsideDropped(m: seq<int>, pages0: map<int, Page>, links0: map<int, Links>, pages: map<int, Page>,
                       links: map<int, Links>, pagesAfter: map<int, Page>, linksAfter: map<int, Links>, p: int)
    requires OutsideSame(m, pages0, links0, pages, links) && p in m
    requires MarksBut(links, linksAfter, p) && pagesAfter == pages - {p} && linksAfter.Keys == links.Keys - {p}
    ensures OutsideSame(m, pages0, links0, pagesAfter, linksAfter)
  {
    forall x | x in pages0 && x in links0 && x !in m ensures SamePageAt(pages0, links0, pagesAfter, linksAfter, x) {
      assert SamePageAt(pages0, links0, pages, links, x);
    }
  }

  lemma CleanKept(m: seq<int>, pages: map<int, Page>, links: map<int, Links>, after: map<int, Links>, p: int)
    requires CleanSeq(m, pages, links) && p in pages && p in after && pages[p].used != 0 && after[p].retireExpire == 0
    requires after == links || Marked(links, after, p)
    ensures CleanSeq(m + [p], pages, after)
  {
    var n := m + [p];
    forall i | 0 <= i < |n|
      ensures n[i] in pages && n[i] in after && pages[n[i]].used != 0 && after[n[i]].retireExpire == 0
    {
      if i < |m| { assert n[i] == m[i]; }
    }
  }

  lemma OutsideKept(m: seq<int>, pages0: map<int, Page>, links0: map<int, Links>, pages: map<int, Page>,
                    links: map<int, Links>, after: map<int, Links>, p: int)
    requires OutsideSame(m, pages0, links0, pages, links) && p in m
    requires after == links || Marked(links, after, p)
    ensures OutsideSame(m, pages0, links0, pages, after)
  {
    forall x | x in pages0 && x in links0 && x !in m ensures SamePageAt(pages0, links0, pages, after, x) {
      assert SamePageAt(pages0, links0, pages, links, x);
    }
  }

  lemma OthersStay(before: seq<seq<int>>, members: seq<seq<int>>, after: seq<seq<int>>, qi: nat)
    requires OthersSame(before, members, qi) && qi < |members|
    requires after == members || (|after| == |members| && after == members[qi := after[qi]])
    ensures OthersSame(before, after, qi)
  {
  }

  lemma RetireWeaken(pages: map<int, Page>, links: map<int, Links>, p: int)
    requires RetireBut(pages, links, 0) && 0 !in pages
    ensures RetireBut(pages, links, p)
  {
    hide PageState;
  }

  lemma UnretiredState(pages: map<int, Page>, links: map<int, Links>, after: map<int, Links>, p: int)
    requires RetireBut(pages, links, 0) && Marked(links, after, p) && 0 !in pages
    requires p in pages && pages[p].used != 0 && !links[p].inFull && !after[p].inFull && after[p].retireExpire == 0
    requires PageState(pages[p], links[p])
    ensures RetireBut(pages, after, 0)
  {
    RetireWeaken(pages, links, p);
    RetireMarked(pages, links, after, p);
  }

  /** Members of another queue: untouched by a walk of queue `qi`. */
  lemma CleanElsewhere(members0: seq<seq<int>>, members: seq<seq<int>>, pages0: map<int, Page>, links0: map<int, Links>,
                       pages: map<int, Page>, links: map<int, Links>, qi: nat, q: nat)
    requires Placed(members0, pages0, links0, 0) && qi < QUEUE_COUNT && q < QUEUE_COUNT && q != qi
    requires OthersSame(members0, members, qi) && OutsideSame(members0[qi], pages0, links0, pages, links)
    requires CleanSeq(members0[q], pages0, links0)
    ensures q < |members| && CleanSeq(members[q], pages, links)
  {
    PlacedKeys(members0, pages0, links0, 0);
    hide Placed;
    var m := members0[q];
    forall i | 0 <= i < |m|
      ensures m[i] in pages && m[i] in links && pages[m[i]].used != 0 && links[m[i]].retireExpire == 0
    {
      forall j | 0 <= j < |members0[qi]| ensures m[i] != members0[qi][j] {
        OtherQueue(members0, pages0, links0, 0, q, i, qi, j);
      }
      assert SamePageAt(pages0, links0, pages, links, m[i]);
    }
  }

  // ---------------------------------------------------------------------------------------------
  // The pending word of the release walk
  // ---------------------------------------------------------------------------------------------

  /** How many places are left at or above the lowest pending bit. */
  ghost function PendingBelow(w: bv64): int {
    if w == 0 then 0 else 64 - TrailingZeros(w)
  }

  lemma PendingStart(occupied: bv64, members: seq<seq<int>>, pages: map<int, Page>, links: map<int, Links>)
    requires OccupiedOk(occupied, members)
    ensures var w := AndW(occupied, Mask(1, BIN_COUNT - 1));
            && (forall q: nat | q < 64 :: Bit(w, q) ==> 1 <= q <= MAX_BIN)
            && (forall q: nat | 1 <= q <= MAX_BIN :: !Bit(w, q) ==> CleanSeq(members[q], pages, links))
            && PendingBelow(w) >= 0
    ensures |members| == QUEUE_COUNT
  {
    hide Bit, AndW, Mask;
    var w := AndW(occupied, Mask(1, BIN_COUNT - 1));
    forall q: nat | q < 64
      ensures Bit(w, q) == (Bit(occupied, q) && 1 <= q <= MAX_BIN)
    {
      And(occupied, Mask(1, BIN_COUNT - 1), q);
      MaskBit(1, BIN_COUNT - 1, q);
    }
  }

  /** Dropping the lowest pending bit leaves the others and makes progress. */
  lemma DroppedBits(w: bv64, qi: nat)
    requires w != 0 && qi == TrailingZeros(w)
    ensures forall q: nat | q < 64 :: Bit(DropLowest(w), q) == (Bit(w, q) && q != qi)
    ensures 0 <= PendingBelow(DropLowest(w)) < PendingBelow(w)
  {
    hide Bit, DropLowest;
    forall q: nat | q < 64 ensures Bit(DropLowest(w), q) == (Bit(w, q) && q != qi) {
      DropLowestBit(w, qi, q);
    }
    if DropLowest(w) != 0 {
      var t := TrailingZeros(DropLowest(w));
      assert Bit(DropLowest(w), t);
    }
  }

  /** Clean bin queues, and a full queue whose pages are full: no page is empty or retired. */
  lemma AllClean(members: seq<seq<int>>, pages: map<int, Page>, links: map<int, Links>, s: State)
    requires Placed(members, pages, links, 0) && RetireBut(pages, links, 0) && Consistent(s) && s.pages == pages
    requires 0 !in pages
    requires |members| == QUEUE_COUNT && forall q: nat | 1 <= q <= MAX_BIN :: CleanSeq(members[q], pages, links)
    ensures NoEmpty(pages)
    ensures forall p :: p in pages ==> p in links && links[p].retireExpire == 0
  {
    forall p | p in pages
      ensures pages[p].used != 0 && p in links && links[p].retireExpire == 0
    {
      CleanPage(members, pages, links, s, p);
    }
  }

  lemma CleanPage(members: seq<seq<int>>, pages: map<int, Page>, links: map<int, Links>, s: State, p: int)
    requires Placed(members, pages, links, 0) && RetireBut(pages, links, 0) && Consistent(s) && s.pages == pages
    requires 0 !in pages
    requires |members| == QUEUE_COUNT && forall q: nat | 1 <= q <= MAX_BIN :: CleanSeq(members[q], pages, links)
    requires p in pages
    ensures pages[p].used != 0 && p in links && links[p].retireExpire == 0
  {
    hide Consistent, Placed;
    PlacedKeys(members, pages, links, 0);
    PlacedAt(members, pages, links, p);
    StateAt(pages, links, 0, p);
    CountsAt(s, p);
    if !links[p].inFull {
      assert CleanSeq(members[pages[p].bin], pages, links);
    }
  }

  // ---------------------------------------------------------------------------------------------
  // Aging retired pages
  // ---------------------------------------------------------------------------------------------

  /** How many pages at the front of a queue a collection round looks at. */
  const RETIRE_MAX_PAGES := 3

  predicate Expires(h: Page, l: Links) {
    h.used == 0 && l.retireExpire == 1
  }

  /** The countdown after a collection round looked at the page. */
  function AgedExpire(h: Page, l: Links): int {
    if h.used == 0 && l.retireExpire != 0 then l.retireExpire - 1 else 0
  }

  /** The pages of `m` a round does not free, in order. */
  ghost function Survivors(m: seq<int>, pages: map<int, Page>, links: map<int, Links>): seq<int> {
    if m == [] then []
    else
      var x := m[|m| - 1];
      var front := Survivors(m[..|m| - 1], pages, links);
      if x in pages && x in links && Expires(pages[x], links[x]) then front else front + [x]
  }

  /** What a round does to one page it looks at. */
  ghost predicate AgedAt(pages0: map<int, Page>, links0: map<int, Links>, pages: map<int, Page>,
                         links: map<int, Links>, x: int)
    requires x in pages0 && x in links0
  {
    if Expires(pages0[x], links0[x]) then x !in pages && x !in links
    else
      && x in pages && x in links && pages[x] == pages0[x] && links[x].inFull == links0[x].inFull
      && links[x].retireExpire == AgedExpire(pages0[x], links0[x])
  }

  /** The first `n` pages of the queue `m` were looked at, the others were not. */
  ghost predicate AgedPrefix(m: seq<int>, n: int, pages0: map<int, Page>, links0: map<int, Links>,
                             pages: map<int, Page>, links: map<int, Links>)
  {
    forall i :: 0 <= i < |m| ==>
      m[i] in pages0 && m[i] in links0 &&
      if i < n then AgedAt(pages0, links0, pages, links, m[i]) else SamePageAt(pages0, links0, pages, links, m[i])
  }

  /** One of the first `n` pages of `m` stays retired, one round closer to its release. */
  ghost predicate KeepsAging(m: seq<int>, n: int, pages: map<int, Page>, links: map<int, Links>) {
    exists i :: 0 <= i < n && i < |m| && m[i] in pages && m[i] in links
                && pages[m[i]].used == 0 && links[m[i]].retireExpire > 1
  }

  function Window(m: seq<int>): (n: nat)
    ensures n <= |m| && n <= RETIRE_MAX_PAGES && (n == |m| || n == RETIRE_MAX_PAGES)
  {
    if |m| < RETIRE_MAX_PAGES then |m| else RETIRE_MAX_PAGES
  }

  /** The outcome of a round for one queue. */
  ghost predicate AgedQueue(m0: seq<int>, pages0: map<int, Page>, links0: map<int, Links>,
                            m: seq<int>, pages: map<int, Page>, links: map<int, Links>)
  {
    && m == Survivors(m0[..Window(m0)], pages0, links0) + m0[Window(m0)..]
    && AgedPrefix(m0, Window(m0), pages0, links0, pages, links)
  }

  /** A page still to look at is in the window. */
  lemma CollectHead(m: seq<int>, seen: nat)
    requires seen <= |m| && seen < RETIRE_MAX_PAGES
    ensures m[seen..] != [] ==> seen < Window(m) && Head(m[seen..]) == m[seen]
  {
  }

  lemma AgingStart(m: seq<int>, members: seq<seq<int>>, qi: nat, pages: map<int, Page>, links: map<int, Links>)
    requires Placed(members, pages, links, 0) && qi < QUEUE_COUNT && members[qi] == m
    ensures m == Survivors(m[..0], pages, links) + m[0..]
    ensures AgedPrefix(m, 0, pages, links, pages, links) && OthersSame(members, members, qi)
    ensures OutsideSame(m, pages, links, pages, links) && SubPages(pages, pages)
    ensures !KeepsAging(m, 0, pages, links)
    ensures pages.Keys == links.Keys && |members| == QUEUE_COUNT
  {
    forall i | 0 <= i < |m| ensures m[i] in pages && m[i] in links {
      assert MemberOk(members, pages, links, 0, qi, i);
    }
  }

  /** The round looked at `m[seen]` and did to it what a round does; nothing else changed. */
  lemma AgedStep(m: seq<int>, seen: nat, pages0: map<int, Page>, links0: map<int, Links>, pages: map<int, Page>,
                 links: map<int, Links>, pagesAfter: map<int, Page>, linksAfter: map<int, Links>)
    requires NoDup(m) && seen < |m| && AgedPrefix(m, seen, pages0, links0, pages, links)
    requires MarksBut(links, linksAfter, m[seen]) && (pagesAfter == pages || pagesAfter == pages - {m[seen]})
    requires m[seen] in pages && m[seen] in links && AgedAt(pages, links, pagesAfter, linksAfter, m[seen])
    requires OutsideSame(m, pages0, links0, pages, links) && SubPages(pages0, pages)
    ensures AgedPrefix(m, seen + 1, pages0, links0, pagesAfter, linksAfter)
    ensures OutsideSame(m, pages0, links0, pagesAfter, linksAfter) && SubPages(pages0, pagesAfter)
  {
    var p := m[seen];
    forall i | 0 <= i < |m| && i != seen
      ensures i < seen ==> AgedAt(pages0, links0, pagesAfter, linksAfter, m[i])
      ensures i > seen ==> SamePageAt(pages0, links0, pagesAfter, linksAfter, m[i])
    {
      assert m[i] != p;
    }
    forall x | x in pages0 && x in links0 && x !in m ensures SamePageAt(pages0, links0, pagesAfter, linksAfter, x) {
      assert SamePageAt(pages0, links0, pages, links, x);
    }
  }

  /** The queue after the round looked at one more page. */
  lemma SurvivorsStep(m: seq<int>, seen: nat, pages: map<int, Page>, links: map<int, Links>)
    requires seen < |m| && m[seen] in pages && m[seen] in links
    ensures m[seen..] == [m[seen]] + m[seen + 1..] && m[seen..][1..] == m[seen + 1..]
    ensures var s, next := Survivors(m[..seen], pages, links), Survivors(m[..seen + 1], pages, links);
            next == if Expires(pages[m[seen]], links[m[seen]]) then s else s + [m[seen]]
    ensures KeepsAging(m, seen + 1, pages, links)
            <==> KeepsAging(m, seen, pages, links) || (pages[m[seen]].used == 0 && links[m[seen]].retireExpire > 1)
  {
    assert m[..seen + 1][..seen] == m[..seen];
    assert m[..seen + 1][seen] == m[seen];
  }

  /** No survivor moves away from the front. */
  lemma {:induction false} SurvivorsForward(m: seq<int>, i: nat, pages: map<int, Page>, links: map<int, Links>)
    requires i < |m| && (m[i] in pages && m[i] in links ==> !Expires(pages[m[i]], links[m[i]]))
    ensures exists j :: 0 <= j <= i && j < |Survivors(m, pages, links)| && Survivors(m, pages, links)[j] == m[i]
    ensures |Survivors(m, pages, links)| <= |m|
  {
    SurvivorsAtMost(m, pages, links);
    var n := |m| - 1;
    var front := Survivors(m[..n], pages, links);
    SurvivorsAtMost(m[..n], pages, links);
    if i < n {
      SurvivorsForward(m[..n], i, pages, links);
      var j :| 0 <= j <= i && j < |front| && front[j] == m[..n][i];
      assert Survivors(m, pages, links)[j] == m[i];
    } else {
      assert Survivors(m, pages, links)[|front|] == m[i];
    }
  }

  lemma {:induction false} SurvivorsAtMost(m: seq<int>, pages: map<int, Page>, links: map<int, Links>)
    ensures |Survivors(m, pages, links)| <= |m|
  {
    if m != [] { SurvivorsAtMost(m[..|m| - 1], pages, links); }
  }

  lemma MarksButTrans(a: map<int, Links>, b: map<int, Links>, c: map<int, Links>, p: int)
    requires MarksBut(a, b, p) && MarksBut(b, c, p)
    ensures MarksBut(a, c, p)
  {
  }

  lemma MarkedMarks(links: map<int, Links>, after: map<int, Links>, p: int)
    requires Marked(links, after, p)
    ensures MarksBut(links, after, p)
  {
  }

  lemma MarksButSelf(links: map<int, Links>, p: int)
    ensures MarksBut(links, links, p)
  {
  }

  // ---------------------------------------------------------------------------------------------
  // A whole round
  // ---------------------------------------------------------------------------------------------

  /** A queue no page of which was touched. */
  ghost predicate SameQueue(m0: seq<int>, pages0: map<int, Page>, links0: map<int, Links>,
                            m: seq<int>, pages: map<int, Page>, links: map<int, Links>)
  {
    m == m0 && AgedPrefix(m0, 0, pages0, links0, pages, links)
  }

  /** The queues in `[lo, hi)` have been aged, the others are as they were. */
  ghost predicate Collected(lo: int, hi: int, before: seq<seq<int>>, pages0: map<int, Page>, links0: map<int, Links>,
                            members: seq<seq<int>>, pages: map<int, Page>, links: map<int, Links>)
  {
    && |before| == QUEUE_COUNT == |members|
    && forall q :: 0 <= q < QUEUE_COUNT ==>
         if lo <= q < hi then AgedQueue(before[q], pages0, links0, members[q], pages, links)
         else SameQueue(before[q], pages0, links0, members[q], pages, links)
  }

  lemma CollectedStart(lo: int, members: seq<seq<int>>, pages: map<int, Page>, links: map<int, Links>)
    requires Placed(members, pages, links, 0)
    ensures Collected(lo, lo, members, pages, links, members, pages, links) && SubPages(pages, pages)
  {
    forall q | 0 <= q < QUEUE_COUNT ensures SameQueue(members[q], pages, links, members[q], pages, links) {
      AgingStart(members[q], members, q, pages, links);
    }
  }

  /** Aging queue `qi` leaves the outcome for every other queue alone. */
  lemma CollectedStep(lo: int, qi: nat, before: seq<seq<int>>, pages0: map<int, Page>, links0: map<int, Links>,
                      m1: seq<seq<int>>, pages1: map<int, Page>, links1: map<int, Links>,
                      members: seq<seq<int>>, pages: map<int, Page>, links: map<int, Links>)
    requires Collected(lo, qi, before, pages0, links0, m1, pages1, links1) && lo <= qi < QUEUE_COUNT
    requires Placed(before, pages0, links0, 0) && |members| == QUEUE_COUNT
    requires AgedQueue(m1[qi], pages1, links1, members[qi], pages, links) && OthersSame(m1, members, qi)
    requires OutsideSame(m1[qi], pages1, links1, pages, links)
    requires SubPages(pages1, pages) && links.Keys == pages.Keys && links1.Keys == pages1.Keys
    ensures Collected(lo, qi + 1, before, pages0, links0, members, pages, links)
  {
    hide Survivors, AgedExpire, Expires, Placed;
    AgedAgain(before[qi], pages0, links0, pages1, links1, members[qi], pages, links);
    forall q | 0 <= q < QUEUE_COUNT && q != qi
      ensures if lo <= q < qi + 1 then AgedQueue(before[q], pages0, links0, members[q], pages, links)
              else SameQueue(before[q], pages0, links0, members[q], pages, links)
    {
      PrefixKept(lo, qi, q, before, pages0, links0, m1, pages1, links1, pages, links);
    }
  }

  lemma AgedAgain(m0: seq<int>, pages0: map<int, Page>, links0: map<int, Links>, pages1: map<int, Page>,
                  links1: map<int, Links>, m: seq<int>, pages: map<int, Page>, links: map<int, Links>)
    requires AgedPrefix(m0, 0, pages0, links0, pages1, links1) && AgedQueue(m0, pages1, links1, m, pages, links)
    ensures AgedQueue(m0, pages0, links0, m, pages, links)
  {
    var w := m0[..Window(m0)];
    forall i | 0 <= i < |w|
      ensures SamePageAt(pages0, links0, pages1, links1, w[i]) && w[i] in pages0 && w[i] in links0
    {
      assert w[i] == m0[i];
    }
    SurvivorsSame(w, pages0, links0, pages1, links1);
  }

  lemma {:induction false} SurvivorsSame(m: seq<int>, pages0: map<int, Page>, links0: map<int, Links>,
                                         pages: map<int, Page>, links: map<int, Links>)
    requires forall i :: 0 <= i < |m| ==>
              m[i] in pages0 && m[i] in links0 && SamePageAt(pages0, links0, pages, links, m[i])
    ensures Survivors(m, pages, links) == Survivors(m, pages0, links0)
  {
    if m != [] {
      SurvivorsSame(m[..|m| - 1], pages0, links0, pages, links);
    }
  }

  lemma PrefixKept(lo: int, qi: nat, q: nat, before: seq<seq<int>>, pages0: map<int, Page>, links0: map<int, Links>,
                   m1: seq<seq<int>>, pages1: map<int, Page>, links1: map<int, Links>,
                   pages: map<int, Page>, links: map<int, Links>)
    requires Collected(lo, qi, before, pages0, links0, m1, pages1, links1) && qi < QUEUE_COUNT && q < QUEUE_COUNT
    requires q != qi
    requires Placed(before, pages0, links0, 0) && OutsideSame(m1[qi], pages1, links1, pages, links)
    requires SubPages(pages1, pages) && links.Keys == pages.Keys && links1.Keys == pages1.Keys
    ensures lo <= q < qi ==> AgedPrefix(before[q], Window(before[q]), pages0, links0, pages, links)
    ensures !(lo <= q < qi) ==> AgedPrefix(before[q], 0, pages0, links0, pages, links)
  {
    hide Survivors, AgedExpire, Expires, Placed;
    var m := before[q];
    assert m1[qi] == before[qi];
    forall i | 0 <= i < |m|
      ensures m[i] in pages0 && m[i] in links0
      ensures AgedAt(pages0, links0, pages1, links1, m[i]) ==> AgedAt(pages0, links0, pages, links, m[i])
      ensures SamePageAt(pages0, links0, pages1, links1, m[i]) ==> SamePageAt(pages0, links0, pages, links, m[i])
    {
      forall j | 0 <= j < |before[qi]| ensures m[i] != before[qi][j] {
        OtherQueue(before, pages0, links0, 0, q, i, qi, j);
      }
      OtherQueue(before, pages0, links0, 0, q, i, q, i);
      assert m[i] !in m1[qi];
      assert m[i] in pages1 && m[i] in links1 ==> SamePageAt(pages1, links1, pages, links, m[i]);
    }
  }

  /** An empty page a collection round reaches: among the first pages of a queue in the retired range. */
  ghost predicate InWindow(p: int, lo: int, hi: int, members: seq<seq<int>>, pages: map<int, Page>,
                           links: map<int, Links>) {
    && |members| == QUEUE_COUNT && p in pages && p in links && pages[p].used == 0 && links[p].retireExpire >= 1
    && 0 <= pages[p].bin <= MAX_BIN && lo <= pages[p].bin <= hi
    && exists i :: 0 <= i < RETIRE_MAX_PAGES && i < |members[pages[p].bin]| && members[pages[p].bin][i] == p
  }

  /** A round frees a page in the window with countdown one, and otherwise leaves it in the window of the
      new range, one round closer. */
  ghost predicate WindowAged(p: int, lo: int, hi: int, min: int, max: int, before: seq<seq<int>>,
                             pages0: map<int, Page>,
                             links0: map<int, Links>, members: seq<seq<int>>, pages: map<int, Page>,
                             links: map<int, Links>)
  {
    InWindow(p, lo, hi, before, pages0, links0) ==>
      if links0[p].retireExpire == 1 then p !in pages
      else InWindow(p, min, max, members, pages, links) && links[p].retireExpire == links0[p].retireExpire - 1
  }

  lemma CollectedWindow(p: int, lo: int, hi: int, min: int, max: int, before: seq<seq<int>>, pages0: map<int, Page>,
                        links0: map<int, Links>, members: seq<seq<int>>, pages: map<int, Page>, links: map<int, Links>)
    requires InWindow(p, lo, hi, before, pages0, links0) && 0 <= lo
    requires Collected(lo, Min(hi, MAX_BIN) + 1, before, pages0, links0, members, pages, links)
    requires forall q :: lo <= q <= Min(hi, MAX_BIN) && q < |before|
                       && KeepsAging(before[q], Window(before[q]), pages0, links0)
               ==> min <= q <= max
    ensures WindowAged(p, lo, hi, min, max, before, pages0, links0, members, pages, links)
  {
    var q := pages0[p].bin;
    var m := before[q];
    var i :| 0 <= i < RETIRE_MAX_PAGES && i < |m| && m[i] == p;
    assert AgedAt(pages0, links0, pages, links, m[i]);
    if links0[p].retireExpire > 1 {
      assert KeepsAging(m, Window(m), pages0, links0);
      var w := m[..Window(m)];
      assert w[i] == p;
      SurvivorsForward(w, i, pages0, links0);
      var s := Survivors(w, pages0, links0);
      var j :| 0 <= j <= i && j < |s| && s[j] == w[i];
      assert members[q][j] == p;
    }
  }

  lemma WindowPage(p: int, lo: int, hi: int, members: seq<seq<int>>, pages: map<int, Page>, links: map<int, Links>)
    requires InWindow(p, lo, hi, members, pages, links)
    ensures p in pages && p in links && links[p].retireExpire >= 1
  {
  }

  lemma WindowReached(p: int, lo: int, hi: int, min: int, max: int, before: seq<seq<int>>, pages0: map<int, Page>,
                      links0: map<int, Links>, members: seq<seq<int>>, pages: map<int, Page>, links: map<int, Links>)
    requires 0 <= lo && (lo <= Min(hi, MAX_BIN) ==>
               && Collected(lo, Min(hi, MAX_BIN) + 1, before, pages0, links0, members, pages, links)
               && forall q :: lo <= q <= Min(hi, MAX_BIN) && q < |before|
                        && KeepsAging(before[q], Window(before[q]), pages0, links0)
                    ==> min <= q <= max)
    ensures WindowAged(p, lo, hi, min, max, before, pages0, links0, members, pages, links)
  {
    hide Collected, KeepsAging;
    if InWindow(p, lo, hi, before, pages0, links0) {
      CollectedWindow(p, lo, hi, min, max, before, pages0, links0, members, pages, links);
    }
  }

  lemma WindowNext(p: int, lo: int, hi: int, min: int, max: int, before: seq<seq<int>>, pages0: map<int, Page>,
                   links0: map<int, Links>, members: seq<seq<int>>, pages: map<int, Page>, links: map<int, Links>)
    requires InWindow(p, lo, hi, before, pages0, links0)
    requires WindowAged(p, lo, hi, min, max, before, pages0, links0, members, pages, links)
    ensures p in links0 && links0[p].retireExpire >= 1
    ensures links0[p].retireExpire == 1 ==> p !in pages
    ensures links0[p].retireExpire > 1 ==> InWindow(p, min, max, members, pages, links) && p in pages && p in links
                                           && links[p].retireExpire == links0[p].retireExpire - 1
  {
  }

  lemma SubGone(pages0: map<int, Page>, pages: map<int, Page>, p: int)
    requires SubPages(pages0, pages)
    ensures p !in pages0 ==> p !in pages
  {
  }

  /** A queue the round has not reached keeps its aging pages. */
  lemma CollectedKeeps(lo: int, qi: nat, before: seq<seq<int>>, pages0: map<int, Page>, links0: map<int, Links>,
                       m1: seq<seq<int>>, pages1: map<int, Page>, links1: map<int, Links>)
    requires Collected(lo, qi, before, pages0, links0, m1, pages1, links1) && qi < QUEUE_COUNT
    ensures m1[qi] == before[qi]
    ensures var w := Window(before[qi]);
            KeepsAging(before[qi], w, pages0, links0) <==> KeepsAging(before[qi], w, pages1, links1)
  {
    hide AgedQueue;
    var m := before[qi];
    assert SameQueue(m, pages0, links0, m1[qi], pages1, links1);
    forall i | 0 <= i < |m|
      ensures m[i] in pages0 && m[i] in links0 && SamePageAt(pages0, links0, pages1, links1, m[i]) {}
  }

  lemma QueueNoDup(queues: seq<PageQueue>, members: seq<seq<int>>, links: map<int, Links>, qi: nat)
    requires QueuesOk(queues, members, links) && qi < QUEUE_COUNT
    ensures NoDup(members[qi])
  {
  }

  /** The page a collection round stands at. */
  lemma AgingAt(queues: seq<PageQueue>, members: seq<seq<int>>, pages: map<int, Page>, links: map<int, Links>,
                qi: nat, done: seq<int>, todo: seq<int>, s: State)
    requires QueuesOk(queues, members, links) && Placed(members, pages, links, 0) && qi <= MAX_BIN && 0 !in pages
    requires members[qi] == done + todo && todo != [] && Consistent(s) && s.pages == pages
    ensures var p := todo[0];
            && p in members[qi] && p in pages && p in links && p != 0 && !links[p].inFull && 1 <= qi
            && links[p].next == Head(todo[1..]) && (Head(todo[1..]) == 0 <==> todo[1..] == [])
    ensures NoDup(members[qi])
  {
    hide Consistent;
    assert members[qi][|done|] == todo[0];
    MemberHome(members, pages, links, 0, qi, todo[0]);
    CountsAt(s, todo[0]);
    WalkAt(queues, members, pages, links, qi, done, todo);
  }

  lemma AgingSame(m: seq<int>, seen: nat, pages0: map<int, Page>, links0: map<int, Links>, pages: map<int, Page>,
                  links: map<int, Links>)
    requires AgedPrefix(m, seen, pages0, links0, pages, links) && seen < |m|
    ensures m[seen] in pages0 && m[seen] in links0 && SamePageAt(pages0, links0, pages, links, m[seen])
  {
  }

  lemma WalkSplit(members: seq<seq<int>>, qi: nat, done: seq<int>, todo: seq<int>)
    requires qi < |members| && members[qi] == done + todo && todo != []
    ensures members == members[qi := done + [todo[0]] + todo[1..]] && todo[0] in members[qi]
  {
    assert done + [todo[0]] + todo[1..] == done + todo;
    assert members[qi][|done|] == todo[0];
  }

  lemma EmptyQueues(queues: seq<PageQueue>, members: seq<seq<int>>, direct: seq<int>)
    requires |queues| == QUEUE_COUNT && |members| == QUEUE_COUNT && |direct| == DIRECT_ENTRIES
    requires forall i :: 0 <= i < QUEUE_COUNT ==> queues[i] == EMPTY_QUEUE && members[i] == []
    requires forall i :: 0 <= i < DIRECT_ENTRIES ==> direct[i] == SENTINEL
    ensures QueuesOk(queues, members, map[]) && Placed(members, map[], map[], 0)
    ensures OccupiedOk(0, members) && DirectOk(direct, queues)
  {
    ZeroWord(0);
    forall i | 0 <= i < DIRECT_ENTRIES ensures DirectAt(direct, queues, i) { DirectBins(i); }
  }

  lemma EmptyState(s: State)
    requires s == State(map[], map[], s.bytes, map[], map[], {}, {})
    ensures Consistent(s)
  {
  }

  lemma StretchedIs(s: State, p: int, bytes: map<int, Byte>)
    requires p in s.pages && p in s.lists && s.pages[p].capacity < s.pages[p].reserved
    ensures var t := Stretched(s, p, bytes);
            && t.pages == s.pages[p := ExtendedPage(p, s.pages[p])]
            && t.lists == s.lists[p := ExtendedList(p, s.pages[p], s.lists[p])]
            && t.bytes == bytes && t.owner == s.owner && t.live == s.live && t.free == s.free && t.zero == s.zero
    ensures ExtendedList(p, s.pages[p], s.lists[p]) != []
  {
    ExtendPositive(s.pages[p]);
  }

  lemma StretchedPages(members: seq<seq<int>>, pages: map<int, Page>, links: map<int, Links>, p: int)
    requires p in pages
    ensures Placed(members, pages, links, 0) ==> Placed(members, pages[p := ExtendedPage(p, pages[p])], links, 0)
    ensures RetireBut(pages, links, p) ==> RetireBut(pages[p := ExtendedPage(p, pages[p])], links, p)
  {
    hide Placed, PageState;
    var after := pages[p := ExtendedPage(p, pages[p])];
    if Placed(members, pages, links, 0) { RepagedPlaced(members, pages, after, links, 0); }
    if RetireBut(pages, links, p) {
      forall q | q in after && q in links && q != p ensures PageState(after[q], links[q]) {
        assert PageState(pages[q], links[q]);
      }
    }
  }

  lemma ArrivedRetire(pages: map<int, Page>, links: map<int, Links>, p: int, h: Page, l: Links)
    requires RetireBut(pages, links, 0) && 0 !in pages && p != 0
    ensures RetireBut(pages[p := h], links[p := l], p)
  {
    hide PageState;
    var after, linksAfter := pages[p := h], links[p := l];
    forall q | q in after && q in linksAfter && q != p ensures PageState(after[q], linksAfter[q]) {
      assert PageState(pages[q], links[q]);
    }
  }

  lemma FreshRoom(s: State, p: int)
    requires Consistent(s) && p in s.pages && s.pages[p].capacity == 0
    ensures IsExpandable(s.pages[p])
  {
    CountsAt(s, p);
  }

  // ---------------------------------------------------------------------------------------------
  // Searching a queue
  // ---------------------------------------------------------------------------------------------

  /** The blocks that are not live are no more than an eighth of all. */
  predicate MostlyUsed(h: Page) {
    h.used * 8 >= h.reserved * 7
  }

  predicate Roomless(h: Page) {
    !HasFree(h) && !IsExpandable(h)
  }

  ghost predicate SomeRoom(m: seq<int>, pages: map<int, Page>) {
    exists i :: 0 <= i < |m| && m[i] in pages && !Roomless(pages[m[i]])
  }

  ghost predicate CandidateOk(p: int, m: seq<int>, pages: map<int, Page>) {
    p != 0 && p in m && p in pages && !Roomless(pages[p]) && pages[p].capacity >= 1
    && (!HasFree(pages[p]) ==> pages[p].used == pages[p].capacity)
  }

  lemma EmptyStays(qi: nat, before: seq<seq<int>>, pages0: map<int, Page>, links0: map<int, Links>,
                   members: seq<seq<int>>, pages: map<int, Page>, links: map<int, Links>)
    requires qi < |before| && qi < QUEUE_COUNT && before[qi] == []
    ensures forall lo, hi :: Collected(lo, hi, before, pages0, links0, members, pages, links) ==>
              |members| == QUEUE_COUNT && members[qi] == []
  {
  }

  lemma FullHome(pages: map<int, Page>, links: map<int, Links>, p: int)
    requires p in pages && p in links && links[p].inFull
    ensures HomeQueue(pages, links, p) == FULL_QUEUE
  {
  }

  lemma RoomlessPage(s: State, p: int)
    requires Consistent(s) && p in s.pages && !HasFree(s.pages[p]) && !IsExpandable(s.pages[p])
    ensures s.pages[p].used == s.pages[p].capacity == s.pages[p].reserved >= 6
  {
    CountsAt(s, p);
  }

  lemma ExtendedBin(p: int, h: Page)
    ensures ExtendedPage(p, h).bin == h.bin
  {
  }

  // ---------------------------------------------------------------------------------------------
  // Outcomes of the operations
  // ---------------------------------------------------------------------------------------------

  ghost predicate ZeroAt(bytes: map<int, Byte>, a: int, n: int) {
    forall x :: a <= x < a + n ==> At(bytes, x) == 0
  }

  /** A new block at an address nobody held, or nothing. */
  ghost predicate Allocated(before: map<int, Layout>, live: map<int, Layout>, l: Layout, block: Option<int>) {
    match block
    case None => live == before
    case Some(a) => a !in before && live == before[a := l]
  }

  lemma KeptFewer(live: map<int, Layout>, fewer: map<int, Layout>, before: map<int, Byte>, bytes: map<int, Byte>)
    requires Kept(live, before, bytes) && forall a :: a in fewer ==> a in live && live[a] == fewer[a]
    ensures Kept(fewer, before, bytes)
  {
    hide At;
    forall a | a in fewer ensures Same(before, bytes, a, a + fewer[a].size) {
      assert Same(before, bytes, a, a + live[a].size);
    }
  }

  lemma ZeroFront(bytes: map<int, Byte>, a: int, n: int, m: int)
    requires ZeroAt(bytes, a, n) && m <= n
    ensures ZeroAt(bytes, a, m)
  {
  }

  lemma PoppedZero(pages: map<int, Page>, p: int, next: int)
    requires p in pages
    ensures Popped(pages[p], next).freeIsZero == pages[p].freeIsZero
  {
  }

  lemma BinIsNoRun(l: Layout)
    requires l.align >= 1 && Classify(l).Bin?
    ensures !IsRun(l)
  {
  }

  lemma ClassBounds(l: Layout)
    requires LayoutOk(l) && Classify(l).Bin?
    ensures 1 <= Classify(l).bin <= MAX_BINNED_BIN
  {
    ClassifyAligns(l);
  }

  lemma DroppedRunIs(s: State, a: int)
    requires a in s.live
    ensures var t, lo, n := RunDropped(s, a), a / SLICE_SIZE, HugeSlices(s.live[a]);
            && t.pages == s.pages && t.lists == s.lists && t.bytes == s.bytes && t.live == s.live - {a}
            && t.owner == SetOwner(s.owner, lo, n, FreeSlice) && t.free == s.free + Range(lo, n) && t.zero == s.zero
  {
  }

  lemma ResizedIs(s: State, a: int, l: Layout)
    requires a in s.live
    ensures var t, lo, n, m := RunResized(s, a, l), a / SLICE_SIZE, HugeSlices(s.live[a]), HugeSlices(l);
            && t.pages == s.pages && t.lists == s.lists && t.bytes == s.bytes && t.live == s.live[a := l]
            && (m <= n ==> t.owner == SetOwner(s.owner, lo + m, n - m, FreeSlice)
                           && t.free == s.free + Range(lo + m, n - m) && t.zero == s.zero)
            && (m > n ==> t.owner == SetOwner(s.owner, lo + n, m - n, RunSlice(a))
                          && t.free == s.free - Range(lo + n, m - n) && t.zero == s.zero - Range(lo + n, m - n))
  {
  }

  lemma SameLiveRun(s: State, t: State, a: int)
    requires LiveRun(s, a) && t.live == s.live
    ensures LiveRun(t, a)
  {
  }

  /** The first `n` bytes at `b` now are those that were at `a`. */
  ghost predicate SameContents(before: map<int, Byte>, a: int, bytes: map<int, Byte>, b: int, n: int) {
    n >= 0 && Slice(bytes, b, n) == Slice(before, a, n)
  }

  /** Contents that did not change read the same. */
  lemma SliceKept(before: map<int, Byte>, bytes: map<int, Byte>, a: int, size: int, n: nat)
    requires Same(before, bytes, a, a + size) && n <= size
    ensures Slice(bytes, a, n) == Slice(before, a, n)
  {
    hide At;
    var x, y := Slice(bytes, a, n), Slice(before, a, n);
    forall i | 0 <= i < n ensures x[i] == y[i] { assert At(bytes, a + i) == At(before, a + i); }
  }

  /** A copy reads back. */
  lemma SliceCopied(bytes: map<int, Byte>, b: int, value: seq<Byte>)
    ensures Slice(Overwritten(bytes, b, value), b, |value|) == value
  {
    hide At;
    var x := Slice(Overwritten(bytes, b, value), b, |value|);
    forall i | 0 <= i < |value| ensures x[i] == value[i] {}
  }

  /** The outcome of a resize: the old block still live and unchanged, or one block for the new Layout, in
      place or at a new address, whose first bytes are the old block's; nothing else has changed. */
  ghost predicate Reallocated(before: map<int, Layout>, live: map<int, Layout>, a: int, l: Layout, m: Layout,
                              bytes0: map<int, Byte>, bytes: map<int, Byte>, block: Option<int>)
  {
    match block
    case None => live == before && Kept(before, bytes0, bytes)
    case Some(b) =>
      && (b == a || b !in before)
      && live == (before - {a})[b := m]
      && Kept(before - {a}, bytes0, bytes)
      && SameContents(bytes0, a, bytes, b, if l.size < m.size then l.size else m.size)
  }

  lemma InPlace(live: map<int, Layout>, a: int, l: Layout, m: Layout, bytes0: map<int, Byte>, bytes: map<int, Byte>)
    requires a in live && live[a] == l && Kept(live, bytes0, bytes)
    ensures Reallocated(live, live[a := m], a, l, m, bytes0, bytes, Some(a))
  {
    hide At, Slice;
    assert Same(bytes0, bytes, a, a + l.size);
    SliceKept(bytes0, bytes, a, l.size, if l.size < m.size then l.size else m.size);
    assert live[a := m] == (live - {a})[a := m];
    hide Kept;
    KeptFewer(live, live - {a}, bytes0, bytes);
  }

  lemma NotMoved(live: map<int, Layout>, a: int, l: Layout, m: Layout, bytes0: map<int, Byte>, bytes: map<int, Byte>)
    requires Kept(live, bytes0, bytes)
    ensures Reallocated(live, live, a, l, m, bytes0, bytes, None)
  {
  }

  /** The steps of a move: allocate, copy, free. */
  lemma MovedContents(before: map<int, Layout>, live: map<int, Layout>, a: int, l: Layout, m: Layout, b: int, n: nat,
                      b0: map<int, Byte>, b1: map<int, Byte>, b2: map<int, Byte>, b3: map<int, Byte>)
    requires a in before && before[a] == l && b !in before && n == (if l.size < m.size then l.size else m.size)
    requires Kept(before, b0, b1) && b2 == Overwritten(b1, b, Slice(b1, a, n)) && Kept(before[b := m] - {b}, b1, b2)
    requires live == before[b := m] - {a} && Kept(live, b2, b3)
    ensures Reallocated(before, live, a, l, m, b0, b3, Some(b))
  {
    hide Kept, At, Slice, Overwritten;
    assert live == (before - {a})[b := m];
    KeptFewer(before, before - {a}, b0, b1);
    KeptFewer(before[b := m] - {b}, before - {a}, b1, b2);
    KeptFewer(live, before - {a}, b2, b3);
    KeptTwice(before - {a}, b0, b1, b2);
    KeptTwice(before - {a}, b0, b2, b3);
    KeptSlice(before, a, b0, b1, n);
    SliceCopied(b1, b, Slice(b1, a, n));
    KeptSlice(live, b, b2, b3, n);
  }

  lemma KeptSlice(live: map<int, Layout>, a: int, before: map<int, Byte>, bytes: map<int, Byte>, n: nat)
    requires Kept(live, before, bytes) && a in live && n <= live[a].size
    ensures Slice(bytes, a, n) == Slice(before, a, n)
  {
    hide At, Slice;
    assert Same(before, bytes, a, a + live[a].size);
    SliceKept(before, bytes, a, live[a].size, n);
  }

  /** A move after an attempt in place that changed no contents. */
  lemma MovedLater(before: map<int, Layout>, live: map<int, Layout>, a: int, l: Layout, m: Layout,
                   b0: map<int, Byte>, b1: map<int, Byte>, b2: map<int, Byte>, block: Option<int>)
    requires a in before && before[a] == l && Kept(before, b0, b1)
    requires Reallocated(before, live, a, l, m, b1, b2, block)
    ensures Reallocated(before, live, a, l, m, b0, b2, block)
  {
    hide Kept, At, Slice;
    match block
    case None => KeptTwice(before, b0, b1, b2);
    case Some(b) =>
      KeptFewer(before, before - {a}, b0, b1);
      KeptTwice(before - {a}, b0, b1, b2);
      KeptSlice(before, a, b0, b1, if l.size < m.size then l.size else m.size);
  }

  /** Rounding down to a bitmap word is monotone. */
  lemma LowestBaseIsLowest(a: nat, b: nat)
    requires a <= b
    ensures a - a % BITS <= b - b % BITS
  {
  }

  // ---------------------------------------------------------------------------------------------
  // The slices of released pages
  // ---------------------------------------------------------------------------------------------

  /** The slices of the pages that are empty. */
  ghost function EmptySlices(pages: map<int, Page>): set<int> {
    set p, s | p in pages && pages[p].used == 0 && s in Range(p / SLICE_SIZE, PageSlices(pages[p].kind)) :: s
  }

  /** The slices of the pages that have gone. */
  ghost function GoneSlices(pages0: map<int, Page>, pages: map<int, Page>): set<int> {
    set p, s | p in pages0 && p !in pages && s in Range(p / SLICE_SIZE, PageSlices(pages0[p].kind)) :: s
  }

  /** Exactly the slices of the pages that have gone became free. */
  ghost predicate SlicesFreed(pages0: map<int, Page>, pages: map<int, Page>, free0: set<int>, free: set<int>) {
    free == free0 + GoneSlices(pages0, pages)
  }

  lemma FreedNothing(pages: map<int, Page>, free: set<int>)
    ensures SlicesFreed(pages, pages, free, free)
  {
  }

  lemma FreedOne(pages0: map<int, Page>, pages: map<int, Page>, free0: set<int>, free: set<int>, p: int)
    requires SlicesFreed(pages0, pages, free0, free) && SubPages(pages0, pages) && p in pages
    ensures SlicesFreed(pages0, pages - {p}, free0, free + Range(p / SLICE_SIZE, PageSlices(pages[p].kind)))
  {
    hide Range;
    var own := Range(p / SLICE_SIZE, PageSlices(pages[p].kind));
    var now, before := GoneSlices(pages0, pages - {p}), GoneSlices(pages0, pages);
    forall s ensures s in now <==> s in before || s in own {
      if s in now {
        var q :| q in pages0 && q !in pages - {p} && s in Range(q / SLICE_SIZE, PageSlices(pages0[q].kind));
        assert q == p || q !in pages;
      }
    }
  }

  lemma FreedTwice(pages0: map<int, Page>, pages1: map<int, Page>, pages2: map<int, Page>,
                   free0: set<int>, free1: set<int>, free2: set<int>)
    requires SlicesFreed(pages0, pages1, free0, free1) && SlicesFreed(pages1, pages2, free1, free2)
    requires SubPages(pages0, pages1) && SubPages(pages1, pages2)
    ensures SlicesFreed(pages0, pages2, free0, free2)
  {
    hide Range;
    var a, b, c := GoneSlices(pages0, pages1), GoneSlices(pages1, pages2), GoneSlices(pages0, pages2);
    forall s ensures s in c <==> s in a || s in b {
      if s in c {
        var q :| q in pages0 && q !in pages2 && s in Range(q / SLICE_SIZE, PageSlices(pages0[q].kind));
        assert q in pages1 ==> s in b;
      }
    }
  }

  /** When only empty pages can have gone and none is left, the empty ones have gone. */
  lemma GoneAreEmpty(pages0: map<int, Page>, pages: map<int, Page>)
    requires SubPages(pages0, pages) && NoEmpty(pages)
    ensures GoneSlices(pages0, pages) == EmptySlices(pages0)
    ensures forall free0, free :: SlicesFreed(pages0, pages, free0, free) ==> free == free0 + EmptySlices(pages0)
  {
    hide Range;
    assert forall p :: p in pages0 ==> (p !in pages <==> pages0[p].used == 0);
  }

  lemma RunIsLive(s: State, a: int)
    requires a in s.live && IsRun(s.live[a])
    ensures LiveRun(s, a)
  {
  }
}
