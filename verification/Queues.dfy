/** Queues of pages: doubly linked lists threaded through the headers, one per bin and one for full pages,
    the occupancy word, and the direct table that caches the queue heads. */
module Queues {
  import opened Bins
  import opened Words
  import opened SliceMaps
  import opened Backend
  import opened Pages

  const FULL_QUEUE := 61
  const QUEUE_COUNT := 64

  /** The ends of a page list and how many pages it has; the links themselves are in memory. Address 0 stands
      for no page. */
  datatype PageQueue = PageQueue(first: int, last: int, count: int)

  const EMPTY_QUEUE := PageQueue(0, 0, 0)

  function Last(m: seq<int>): int {
    if m == [] then 0 else m[|m| - 1]
  }

  // ---------------------------------------------------------------------------------------------
  // One queue
  // ---------------------------------------------------------------------------------------------

  /** `m[i]` links to its neighbours in `m`. */
  ghost predicate LinkedAt(m: seq<int>, links: map<int, Links>, i: int)
    requires 0 <= i < |m|
  {
    && m[i] in links
    && links[m[i]].next == (if i + 1 < |m| then m[i + 1] else 0)
    && links[m[i]].prev == (if i > 0 then m[i - 1] else 0)
  }

  /** The header fields and `q` spell out the sequence `m` of distinct pages. */
  ghost predicate Linked(q: PageQueue, m: seq<int>, links: map<int, Links>) {
    && q.count == |m| && q.first == Head(m) && q.last == Last(m)
    && NoDup(m) && (forall i :: 0 <= i < |m| ==> m[i] != 0)
    && (forall i :: 0 <= i < |m| ==> LinkedAt(m, links, i))
  }

  lemma LinkedElsewhere(q: PageQueue, m: seq<int>, links: map<int, Links>, after: map<int, Links>)
    requires Linked(q, m, links)
    requires forall i :: 0 <= i < |m| ==> m[i] in links && m[i] in after
                                          && after[m[i]].next == links[m[i]].next
                                          && after[m[i]].prev == links[m[i]].prev
    ensures Linked(q, m, after)
  {
    hide NoDup;
    forall i | 0 <= i < |m| ensures LinkedAt(m, after, i) {
      assert LinkedAt(m, links, i);
    }
  }

  function SetNext(links: map<int, Links>, p: int, next: int): map<int, Links> {
    if p in links then links[p := links[p].(next := next)] else links
  }

  function SetPrev(links: map<int, Links>, p: int, prev: int): map<int, Links> {
    if p in links then links[p := links[p].(prev := prev)] else links
  }

  /** The heap-owned marks are the same; only the list links may differ. */
  ghost predicate SameMarks(links: map<int, Links>, after: map<int, Links>) {
    && after.Keys == links.Keys
    && forall p :: p in links ==> after[p].inFull == links[p].inFull && after[p].retireExpire == links[p].retireExpire
  }

  /** The links after `push_front`, `push_back` and `remove`. */
  function FrontLinks(links: map<int, Links>, p: int, first: int): map<int, Links> {
    var own := SetPrev(SetNext(links, p, first), p, 0);
    if first != 0 then SetPrev(own, first, p) else own
  }

  function BackLinks(links: map<int, Links>, p: int, last: int): map<int, Links> {
    var own := SetNext(SetPrev(links, p, last), p, 0);
    if last != 0 then SetNext(own, last, p) else own
  }

  function RemovedLinks(links: map<int, Links>, p: int): map<int, Links>
    requires p in links
  {
    var prev, next := links[p].prev, links[p].next;
    var one := if prev != 0 then SetNext(links, prev, next) else links;
    var two := if next != 0 then SetPrev(one, next, prev) else one;
    SetPrev(SetNext(two, p, 0), p, 0)
  }

  function FrontQueue(q: PageQueue, p: int): PageQueue {
    PageQueue(p, if q.first == 0 then p else q.last, q.count + 1)
  }

  function BackQueue(q: PageQueue, p: int): PageQueue {
    PageQueue(if q.first == 0 then p else q.first, p, q.count + 1)
  }

  function RemovedQueue(q: PageQueue, p: int, links: Links): PageQueue {
    PageQueue(if q.first == p then links.next else q.first, if q.last == p then links.prev else q.last, q.count - 1)
  }

  lemma FrontLinked(q: PageQueue, m: seq<int>, links: map<int, Links>, p: int)
    requires Linked(q, m, links) && p in links && p != 0 && p !in m
    ensures Linked(FrontQueue(q, p), [p] + m, FrontLinks(links, p, q.first))
  {
    var n, after := [p] + m, FrontLinks(links, p, q.first);
    forall i | 0 <= i < |n| ensures LinkedAt(n, after, i) {
      if i > 0 { assert LinkedAt(m, links, i - 1) && n[i] == m[i - 1]; }
      if i == 1 { assert n[1] == q.first; }
    }
  }

  lemma BackLinked(q: PageQueue, m: seq<int>, links: map<int, Links>, p: int)
    requires Linked(q, m, links) && p in links && p != 0 && p !in m
    ensures Linked(BackQueue(q, p), m + [p], BackLinks(links, p, q.last))
  {
    var n, after := m + [p], BackLinks(links, p, q.last);
    forall i | 0 <= i < |n| ensures LinkedAt(n, after, i) {
      if i < |m| { assert LinkedAt(m, links, i) && n[i] == m[i]; }
    }
  }

  function Without(m: seq<int>, i: int): seq<int>
    requires 0 <= i < |m|
  {
    m[..i] + m[i + 1..]
  }

  lemma RemoveLinked(q: PageQueue, m: seq<int>, links: map<int, Links>, i: int)
    requires Linked(q, m, links) && 0 <= i < |m|
    ensures m[i] in links && Linked(RemovedQueue(q, m[i], links[m[i]]), Without(m, i), RemovedLinks(links, m[i]))
    ensures m[i] !in Without(m, i)
  {
    var p, n := m[i], Without(m, i);
    assert LinkedAt(m, links, i);
    var after := RemovedLinks(links, p);
    WithoutAt(m, i);
    NeighboursInLinks(q, m, links, i);
    forall j | 0 <= j < |n| ensures LinkedAt(n, after, j) {
      RemoveLinkedAt(q, m, links, i, j);
    }
    forall a, b | 0 <= a < b < |n| ensures n[a] != n[b] {}
  }

  lemma WithoutElems(m: seq<int>, i: int)
    requires 0 <= i < |m| && NoDup(m)
    ensures forall x :: x in Without(m, i) <==> x in m && x != m[i]
  {
    WithoutAt(m, i);
    var n := Without(m, i);
    forall x | x in m && x != m[i] ensures x in n {
      var k :| 0 <= k < |m| && m[k] == x;
      assert n[if k < i then k else k - 1] == x;
    }
  }

  lemma WithoutAt(m: seq<int>, i: int)
    requires 0 <= i < |m|
    ensures |Without(m, i)| == |m| - 1
    ensures forall j :: 0 <= j < |m| - 1 ==> Without(m, i)[j] == m[if j < i then j else j + 1]
  {
  }

  lemma NeighboursInLinks(q: PageQueue, m: seq<int>, links: map<int, Links>, i: int)
    requires Linked(q, m, links) && 0 <= i < |m|
    ensures i > 0 ==> m[i - 1] in links && m[i - 1] != 0
    ensures i + 1 < |m| ==> m[i + 1] in links && m[i + 1] != 0
  {
    if i > 0 { assert LinkedAt(m, links, i - 1); }
    if i + 1 < |m| { assert LinkedAt(m, links, i + 1); }
  }

  lemma RemoveLinkedAt(q: PageQueue, m: seq<int>, links: map<int, Links>, i: int, j: int)
    requires Linked(q, m, links) && 0 <= i < |m| && 0 <= j < |m| - 1 && m[i] in links
    ensures LinkedAt(Without(m, i), RemovedLinks(links, m[i]), j)
  {
    WithoutAt(m, i);
    NeighboursInLinks(q, m, links, i);
    var k := if j < i then j else j + 1;
    assert LinkedAt(m, links, k) && LinkedAt(m, links, i);
    assert m[k] != m[i];
    assert i > 0 ==> (m[k] == m[i - 1] <==> k == i - 1);
    assert i + 1 < |m| ==> (m[k] == m[i + 1] <==> k == i + 1);
  }

  /** Only the links of `p` and of the pages `near` may differ. */
  ghost predicate LinksOnlyAt(links: map<int, Links>, after: map<int, Links>, p: int, a: int, b: int) {
    SameMarks(links, after) && forall x :: x in links && x != p && x != a && x != b ==> after[x] == links[x]
  }

  lemma SetMarks(links: map<int, Links>, p: int, x: int)
    ensures SameMarks(links, SetNext(links, p, x)) && SameMarks(links, SetPrev(links, p, x))
    ensures LinksOnlyAt(links, SetNext(links, p, x), p, p, p) && LinksOnlyAt(links, SetPrev(links, p, x), p, p, p)
  {
  }

  lemma FrontOnlyAt(links: map<int, Links>, p: int, first: int)
    ensures LinksOnlyAt(links, FrontLinks(links, p, first), p, first, p)
  {
    hide SetNext, SetPrev;
    SetMarks(links, p, first);
    SetMarks(SetNext(links, p, first), p, 0);
    SetMarks(SetPrev(SetNext(links, p, first), p, 0), first, p);
  }

  lemma BackOnlyAt(links: map<int, Links>, p: int, last: int)
    ensures LinksOnlyAt(links, BackLinks(links, p, last), p, last, p)
  {
    hide SetNext, SetPrev;
    SetMarks(links, p, last);
    SetMarks(SetPrev(links, p, last), p, 0);
    SetMarks(SetNext(SetPrev(links, p, last), p, 0), last, p);
  }

  lemma RemovedOnlyAt(links: map<int, Links>, p: int)
    requires p in links
    ensures LinksOnlyAt(links, RemovedLinks(links, p), p, links[p].prev, links[p].next)
  {
    hide SetNext, SetPrev;
    var prev, next := links[p].prev, links[p].next;
    SetMarks(links, prev, next);
    var one := if prev != 0 then SetNext(links, prev, next) else links;
    SetMarks(one, next, prev);
    var two := if next != 0 then SetPrev(one, next, prev) else one;
    SetMarks(two, p, 0);
    SetMarks(SetNext(two, p, 0), p, 0);
  }

  // ---------------------------------------------------------------------------------------------
  // All queues
  // ---------------------------------------------------------------------------------------------

  /** The queue a page belongs in. */
  function HomeQueue(pages: map<int, Page>, links: map<int, Links>, p: int): int
    requires p in pages && p in links
  {
    if links[p].inFull then FULL_QUEUE else pages[p].bin
  }

  ghost predicate QueuesOk(queues: seq<PageQueue>, members: seq<seq<int>>, links: map<int, Links>) {
    && |queues| == QUEUE_COUNT && |members| == QUEUE_COUNT
    && forall qi :: 0 <= qi < QUEUE_COUNT ==> Linked(queues[qi], members[qi], links)
  }

  /** Every page but `loose` is in exactly one queue, its own, and the queues hold nothing else. */
  ghost predicate Placed(members: seq<seq<int>>, pages: map<int, Page>, links: map<int, Links>, loose: int) {
    && |members| == QUEUE_COUNT && pages.Keys == links.Keys
    && (forall qi, i :: 0 <= qi < QUEUE_COUNT && 0 <= i < |members[qi]| ==>
          MemberOk(members, pages, links, loose, qi, i))
    && (forall p :: p in pages && p != loose ==> HasPlace(members, pages, links, p))
  }

  ghost predicate MemberOk(members: seq<seq<int>>, pages: map<int, Page>, links: map<int, Links>, loose: int,
                           qi: int, i: int)
    requires |members| == QUEUE_COUNT && 0 <= qi < QUEUE_COUNT && 0 <= i < |members[qi]| && pages.Keys == links.Keys
  {
    members[qi][i] in pages && members[qi][i] != loose && HomeQueue(pages, links, members[qi][i]) == qi
  }

  ghost predicate HasPlace(members: seq<seq<int>>, pages: map<int, Page>, links: map<int, Links>, p: int)
    requires |members| == QUEUE_COUNT && p in pages && pages.Keys == links.Keys
  {
    var home := HomeQueue(pages, links, p);
    1 <= home <= FULL_QUEUE && p in members[home]
  }

  /** Bit `q` of the occupancy word is set exactly when queue `q` holds a page. */
  ghost predicate OccupiedOk(occupied: bv64, members: seq<seq<int>>) {
    |members| == QUEUE_COUNT && forall qi: nat | qi < 64 :: Bit(occupied, qi) <==> members[qi] != []
  }

  /** The lookup table says for each `i` which page is at the head of the queue for `i` words. */
  ghost predicate DirectOk(direct: seq<int>, queues: seq<PageQueue>) {
    && |direct| == DIRECT_ENTRIES && |queues| == QUEUE_COUNT
    && forall i :: 0 <= i < DIRECT_ENTRIES ==> DirectAt(direct, queues, i)
  }

  ghost predicate DirectAt(direct: seq<int>, queues: seq<PageQueue>, i: nat)
    requires |direct| == DIRECT_ENTRIES && |queues| == QUEUE_COUNT && i < DIRECT_ENTRIES
  {
    BinOf(i * WORD) < QUEUE_COUNT && direct[i] == queues[BinOf(i * WORD)].first
  }

  /** Pages of different queues are different. */
  lemma OtherQueue(members: seq<seq<int>>, pages: map<int, Page>, links: map<int, Links>, loose: int,
                   qi: int, i: int, qj: int, j: int)
    requires Placed(members, pages, links, loose)
    requires 0 <= qi < QUEUE_COUNT && 0 <= i < |members[qi]| && 0 <= qj < QUEUE_COUNT && 0 <= j < |members[qj]|
    ensures members[qi][i] in pages && members[qi][i] in links && members[qi][i] != loose
    ensures HomeQueue(pages, links, members[qi][i]) == qi
    ensures qi != qj ==> members[qi][i] != members[qj][j]
  {
    assert MemberOk(members, pages, links, loose, qi, i) && MemberOk(members, pages, links, loose, qj, j);
  }

  /** Changing the links of `p` (in no queue but perhaps `qi`) and of members of `qi` leaves the other
      queues spelled out. */
  lemma OthersLinked(queues: seq<PageQueue>, members: seq<seq<int>>, pages: map<int, Page>, links: map<int, Links>,
                     after: map<int, Links>, loose: int, qi: int, p: int, a: int, b: int, qj: int)
    requires QueuesOk(queues, members, links) && Placed(members, pages, links, loose)
    requires LinksOnlyAt(links, after, p, a, b) && 0 <= qi < QUEUE_COUNT && 0 <= qj < QUEUE_COUNT && qi != qj
    requires p == loose || p in members[qi]
    requires a == 0 || a == p || a in members[qi]
    requires b == 0 || b == p || b in members[qi]
    ensures Linked(queues[qj], members[qj], after)
  {
    hide Placed, HomeQueue, NoDup, LinkedAt;
    var m := members[qj];
    forall j | 0 <= j < |m|
      ensures m[j] in links && m[j] in after && after[m[j]] == links[m[j]]
    {
      OtherQueue(members, pages, links, loose, qj, j, qj, j);
      forall i | 0 <= i < |members[qi]| ensures m[j] != members[qi][i] {
        OtherQueue(members, pages, links, loose, qj, j, qi, i);
      }
    }
    LinkedElsewhere(queues[qj], m, links, after);
  }

  /** Replacing queue `qi`: all queues are spelled out if it is and the others still are. */
  lemma ReplaceQueue(queues: seq<PageQueue>, members: seq<seq<int>>, after: map<int, Links>, qi: int, q: PageQueue,
                     m: seq<int>)
    requires |queues| == QUEUE_COUNT && |members| == QUEUE_COUNT && 0 <= qi < QUEUE_COUNT
    requires Linked(q, m, after)
    requires forall qj :: 0 <= qj < QUEUE_COUNT && qj != qi ==> Linked(queues[qj], members[qj], after)
    ensures QueuesOk(queues[qi := q], members[qi := m], after)
  {
    hide Linked;
  }

  // ---------------------------------------------------------------------------------------------
  // Placement
  // ---------------------------------------------------------------------------------------------

  lemma SameHomes(pages: map<int, Page>, links: map<int, Links>, after: map<int, Links>)
    requires pages.Keys == links.Keys && SameMarks(links, after)
    ensures pages.Keys == after.Keys
    ensures forall p :: p in pages ==> HomeQueue(pages, after, p) == HomeQueue(pages, links, p)
  {
  }

  /** A loose page joins its queue. */
  lemma PlacedJoin(members: seq<seq<int>>, pages: map<int, Page>, links: map<int, Links>, after: map<int, Links>,
                   p: int, m: seq<int>)
    requires Placed(members, pages, links, p) && p in pages && p in links && SameMarks(links, after) && 0 !in pages
    requires 1 <= HomeQueue(pages, links, p) <= FULL_QUEUE
    requires forall x :: x in m <==> x == p || x in members[HomeQueue(pages, links, p)]
    ensures Placed(members[HomeQueue(pages, links, p) := m], pages, after, 0)
  {
    SameHomes(pages, links, after);
    var qi := HomeQueue(pages, links, p);
    var n := members[qi := m];
    hide HomeQueue, SameMarks;
    forall qj, i | 0 <= qj < QUEUE_COUNT && 0 <= i < |n[qj]| ensures MemberOk(n, pages, after, 0, qj, i) {
      if qj == qi {
        assert m[i] in m;
        if m[i] != p {
          var k :| 0 <= k < |members[qi]| && members[qi][k] == m[i];
          assert MemberOk(members, pages, links, p, qi, k);
        }
      } else {
        assert MemberOk(members, pages, links, p, qj, i);
      }
    }
    forall x | x in pages && x != 0 ensures HasPlace(n, pages, after, x) {
      if x != p { assert HasPlace(members, pages, links, x); }
    }
  }

  /** A page leaves its queue and is loose. */
  lemma PlacedLeave(members: seq<seq<int>>, pages: map<int, Page>, links: map<int, Links>, after: map<int, Links>,
                    qi: int, p: int, m: seq<int>)
    requires Placed(members, pages, links, 0) && SameMarks(links, after) && 0 <= qi < QUEUE_COUNT && 0 !in pages
    requires p in members[qi]
    requires forall x :: x in m <==> x != p && x in members[qi]
    ensures p in pages && Placed(members[qi := m], pages, after, p)
  {
    SameHomes(pages, links, after);
    var n := members[qi := m];
    var at :| 0 <= at < |members[qi]| && members[qi][at] == p;
    assert MemberOk(members, pages, links, 0, qi, at);
    hide HomeQueue, SameMarks;
    forall qj, i | 0 <= qj < QUEUE_COUNT && 0 <= i < |n[qj]| ensures MemberOk(n, pages, after, p, qj, i) {
      if qj == qi {
        assert m[i] in m;
        var k :| 0 <= k < |members[qi]| && members[qi][k] == m[i];
        assert MemberOk(members, pages, links, 0, qi, k);
      } else {
        assert MemberOk(members, pages, links, 0, qj, i);
      }
    }
    forall x | x in pages && x != p ensures HasPlace(n, pages, after, x) {
      assert HasPlace(members, pages, links, x);
    }
  }

  // ---------------------------------------------------------------------------------------------
  // Occupancy and the direct table
  // ---------------------------------------------------------------------------------------------

  lemma OccupiedSet(occupied: bv64, members: seq<seq<int>>, qi: nat, m: seq<int>)
    requires OccupiedOk(occupied, members) && qi < QUEUE_COUNT && m != []
    ensures OccupiedOk(OrW(occupied, Mask(qi, 1)), members[qi := m])
  {
    hide Bit, OrW, Mask;
    OrMask(occupied, qi, 1);
  }

  lemma OccupiedClear(occupied: bv64, members: seq<seq<int>>, qi: nat)
    requires OccupiedOk(occupied, members) && qi < QUEUE_COUNT
    ensures OccupiedOk(AndW(occupied, NotW(Mask(qi, 1))), members[qi := []])
  {
    hide Bit, AndW, NotW, Mask;
    AndNotMask(occupied, qi, 1);
  }

  lemma OccupiedKept(occupied: bv64, members: seq<seq<int>>, qi: nat, m: seq<int>)
    requires OccupiedOk(occupied, members) && qi < QUEUE_COUNT && m != [] && members[qi] != []
    ensures OccupiedOk(occupied, members[qi := m])
  {
    hide Bit;
  }

  /** The direct table is right for every bin but `bin`. */
  ghost predicate DirectBut(direct: seq<int>, queues: seq<PageQueue>, bin: nat) {
    && |direct| == DIRECT_ENTRIES && |queues| == QUEUE_COUNT
    && forall i :: 0 <= i < DIRECT_ENTRIES && BinOf(i * WORD) != bin ==> DirectAt(direct, queues, i)
  }

  lemma DirectAfter(direct: seq<int>, queues: seq<PageQueue>, qi: nat, q: PageQueue)
    requires DirectOk(direct, queues) && qi < QUEUE_COUNT
    ensures DirectBut(direct, queues[qi := q], qi)
    ensures q.first == queues[qi].first ==> DirectOk(direct, queues[qi := q])
  {
    hide BinOf;
    forall i | 0 <= i < DIRECT_ENTRIES
      ensures BinOf(i * WORD) != qi || q.first == queues[qi].first ==> DirectAt(direct, queues[qi := q], i)
    {
      assert DirectAt(direct, queues, i);
    }
  }

  lemma DirectBins(i: nat)
    requires i < DIRECT_ENTRIES
    ensures 1 <= BinOf(i * WORD) <= DIRECT_MAX_BIN
  {
    DirectSlotIsBin(i * WORD);
  }

  /** A queue no direct entry serves cannot spoil the table. */
  lemma DirectUnserved(direct: seq<int>, queues: seq<PageQueue>, bin: nat)
    requires DirectBut(direct, queues, bin) && (bin == 0 || bin > MAX_BIN || DirectRange(bin).0 > DirectRange(bin).1)
    ensures DirectOk(direct, queues)
  {
    hide BinOf, DirectRange;
    forall i | 0 <= i < DIRECT_ENTRIES ensures DirectAt(direct, queues, i) {
      DirectBins(i);
      if 1 <= bin <= MAX_BIN { DirectRangeExact(bin, i); }
    }
  }

  // ---------------------------------------------------------------------------------------------
  // Changing a page's marks
  // ---------------------------------------------------------------------------------------------

  /** Only the marks of `p` differ: its links and everything about other pages are the same. */
  ghost predicate Marked(links: map<int, Links>, after: map<int, Links>, p: int) {
    && p in links && after.Keys == links.Keys
    && after[p].next == links[p].next && after[p].prev == links[p].prev
    && forall x :: x in links && x != p ==> after[x] == links[x]
  }

  lemma MarkedQueues(queues: seq<PageQueue>, members: seq<seq<int>>, links: map<int, Links>, after: map<int, Links>,
                     p: int)
    requires QueuesOk(queues, members, links) && Marked(links, after, p)
    ensures QueuesOk(queues, members, after)
  {
    hide Linked, NoDup;
    forall qi | 0 <= qi < QUEUE_COUNT ensures Linked(queues[qi], members[qi], after) {
      assert Linked(queues[qi], members[qi], links);
      MarkedLinked(queues[qi], members[qi], links, after, p);
    }
  }

  lemma MarkedLinked(q: PageQueue, m: seq<int>, links: map<int, Links>, after: map<int, Links>, p: int)
    requires Linked(q, m, links) && Marked(links, after, p)
    ensures Linked(q, m, after)
  {
    forall i | 0 <= i < |m| ensures m[i] in links { assert LinkedAt(m, links, i); }
    LinkedElsewhere(q, m, links, after);
  }

  /** Marks of a loose page, or marks other than the full flag, do not move anybody. */
  lemma MarkedPlaced(members: seq<seq<int>>, pages: map<int, Page>, links: map<int, Links>, after: map<int, Links>,
                     loose: int, p: int)
    requires Placed(members, pages, links, loose) && Marked(links, after, p)
    requires p == loose || after[p].inFull == links[p].inFull
    ensures Placed(members, pages, after, loose)
  {
    forall qi, i | 0 <= qi < QUEUE_COUNT && 0 <= i < |members[qi]|
      ensures MemberOk(members, pages, after, loose, qi, i)
    {
      assert MemberOk(members, pages, links, loose, qi, i);
    }
    forall x | x in pages && x != loose ensures HasPlace(members, pages, after, x) {
      assert HasPlace(members, pages, links, x);
    }
  }

  /** Page headers may change anything but the bin. */
  lemma RepagedPlaced(members: seq<seq<int>>, pages: map<int, Page>, after: map<int, Page>, links: map<int, Links>,
                      loose: int)
    requires Placed(members, pages, links, loose) && after.Keys == pages.Keys
    requires forall p :: p in pages ==> after[p].bin == pages[p].bin
    ensures Placed(members, after, links, loose)
  {
    forall qi, i | 0 <= qi < QUEUE_COUNT && 0 <= i < |members[qi]|
      ensures MemberOk(members, after, links, loose, qi, i)
    {
      assert MemberOk(members, pages, links, loose, qi, i);
    }
    forall x | x in after && x != loose ensures HasPlace(members, after, links, x) {
      assert HasPlace(members, pages, links, x);
    }
  }

  /** A page no queue knows arrives, or the loose page goes. */
  lemma ArrivedPlaced(members: seq<seq<int>>, pages: map<int, Page>, links: map<int, Links>, p: int,
                      after: map<int, Page>, linksAfter: map<int, Links>)
    requires Placed(members, pages, links, 0) && p !in pages && p != 0 && 0 !in pages
    requires after.Keys == pages.Keys + {p} && linksAfter.Keys == links.Keys + {p}
    requires forall x :: x in pages ==> after[x] == pages[x] && linksAfter[x] == links[x]
    ensures Placed(members, after, linksAfter, p)
  {
    forall qi, i | 0 <= qi < QUEUE_COUNT && 0 <= i < |members[qi]|
      ensures MemberOk(members, after, linksAfter, p, qi, i)
    {
      assert MemberOk(members, pages, links, 0, qi, i);
    }
    forall x | x in after && x != p ensures HasPlace(members, after, linksAfter, x) {
      assert HasPlace(members, pages, links, x);
    }
  }

  lemma ArrivedQueues(queues: seq<PageQueue>, members: seq<seq<int>>, links: map<int, Links>, p: int, l: Links)
    requires QueuesOk(queues, members, links) && p !in links
    ensures QueuesOk(queues, members, links[p := l])
  {
    hide NoDup;
    forall qi | 0 <= qi < QUEUE_COUNT ensures Linked(queues[qi], members[qi], links[p := l]) {
      var m := members[qi];
      assert Linked(queues[qi], m, links);
      forall i | 0 <= i < |m| ensures m[i] in links { assert LinkedAt(m, links, i); }
      LinkedElsewhere(queues[qi], m, links, links[p := l]);
    }
  }

  lemma DepartedPlaced(members: seq<seq<int>>, pages: map<int, Page>, links: map<int, Links>, p: int)
    requires Placed(members, pages, links, p) && 0 !in pages
    ensures Placed(members, pages - {p}, links - {p}, 0)
  {
    forall qi, i | 0 <= qi < QUEUE_COUNT && 0 <= i < |members[qi]|
      ensures MemberOk(members, pages - {p}, links - {p}, 0, qi, i)
    {
      assert MemberOk(members, pages, links, p, qi, i);
    }
    forall x | x in pages - {p} && x != 0 ensures HasPlace(members, pages - {p}, links - {p}, x) {
      assert HasPlace(members, pages, links, x);
    }
  }

  lemma DepartedQueues(queues: seq<PageQueue>, members: seq<seq<int>>, pages: map<int, Page>, links: map<int, Links>,
                       p: int)
    requires QueuesOk(queues, members, links) && Placed(members, pages, links, p)
    ensures QueuesOk(queues, members, links - {p})
  {
    hide NoDup;
    forall qi | 0 <= qi < QUEUE_COUNT ensures Linked(queues[qi], members[qi], links - {p}) {
      var m := members[qi];
      assert Linked(queues[qi], m, links);
      forall i | 0 <= i < |m| ensures m[i] in links && m[i] != p {
        assert LinkedAt(m, links, i);
        assert MemberOk(members, pages, links, p, qi, i);
      }
      LinkedElsewhere(queues[qi], m, links, links - {p});
    }
  }
}
