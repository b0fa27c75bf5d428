/** The in-band page: a header, equal blocks, and a LIFO free list threaded through the first word of
    every free block. Each operation changes the memory in place; the free list is tracked as the sequence
    of block addresses it visits. */
module Pages {
  import opened Arithmetic
  import opened Bins
  import opened SliceMaps
  import opened Backend

  const MAX_EXTEND_SIZE := 8192

  /** The address direct-table entries hold before their queue has a page, and the header found there. */
  const SENTINEL := 0
  const EMPTY_PAGE := Page(0, 0, 0, 0, 0, 0, false, 0, Small)

  // ---------------------------------------------------------------------------------------------
  // Blocks of a page
  // ---------------------------------------------------------------------------------------------

  /** `a` is block `i` of the page at `p` for some `i < n`. */
  predicate IsBlock(p: int, h: Page, n: int, a: int) {
    var offset := a - p - h.blockStart;
    h.blockSize >= 1 && offset >= 0 && offset % h.blockSize == 0 && offset / h.blockSize < n
  }

  function BlockAddr(p: int, h: Page, i: int): int {
    p + h.blockStart + i * h.blockSize
  }

  /** Invariants 1 and 2: alignment, and the geometry that follows from the bin. */
  ghost predicate Geometry(p: int, h: Page) {
    && 1 <= h.bin <= MAX_BINNED_BIN
    && h.kind == KindOfBin(h.bin)
    && h.blockSize == BinSize(h.bin)
    && h.blockStart == BlockStart(h.blockSize)
    && h.reserved == BlocksPerPage(h.kind, h.blockSize)
    && p > 0 && p % PageSize(h.kind) == 0
    && p + PageSize(h.kind) <= USIZE_MAX
  }

  ghost predicate NoDup(l: seq<int>) {
    forall i, j :: 0 <= i < j < |l| ==> l[i] != l[j]
  }

  function Head(l: seq<int>): int {
    if l == [] then 0 else l[0]
  }

  /** Invariants 3 and 4 of the header: the list `l` holds `capacity - used` distinct blocks below
      `capacity`. */
  ghost predicate ListOk(p: int, h: Page, l: seq<int>) {
    && 0 <= h.used <= h.capacity <= h.reserved
    && |l| == h.capacity - h.used
    && h.free == Head(l)
    && NoDup(l)
    && forall i :: 0 <= i < |l| ==> IsBlock(p, h, h.capacity, l[i])
  }

  ghost predicate PageOk(p: int, h: Page, l: seq<int>) {
    Geometry(p, h) && ListOk(p, h, l)
  }

  /** The links in memory spell out the list and end at zero. */
  ghost predicate Chain(l: seq<int>, bytes: map<int, Byte>) {
    forall i :: 0 <= i < |l| ==> ReadWord(bytes, l[i]) == Head(l[i + 1..])
  }

  /** A block handed out and not returned. */
  ghost predicate LiveBlock(p: int, h: Page, l: seq<int>, a: int) {
    IsBlock(p, h, h.capacity, a) && a !in l
  }

  /** Invariant 5: free blocks are zero but for their link word, unextended blocks are zero. */
  ghost predicate PageZero(p: int, h: Page, l: seq<int>, bytes: map<int, Byte>) {
    h.freeIsZero ==>
      && (forall i, x :: 0 <= i < |l| && l[i] + LINK <= x < l[i] + h.blockSize ==> At(bytes, x) == 0)
      && (forall x :: BlockAddr(p, h, h.capacity) <= x < BlockAddr(p, h, h.reserved) ==> At(bytes, x) == 0)
  }

  lemma BlockIndex(p: int, h: Page, n: int, a: int) returns (i: nat)
    requires IsBlock(p, h, n, a)
    ensures i < n && a == BlockAddr(p, h, i)
  {
    i := (a - p - h.blockStart) / h.blockSize;
  }

  lemma BlockAt(p: int, h: Page, n: int, i: nat)
    requires h.blockSize >= 1 && i < n
    ensures IsBlock(p, h, n, BlockAddr(p, h, i))
    ensures BlockAddr(p, h, i) + h.blockSize <= BlockAddr(p, h, n)
  {
    ModUnique(i, h.blockSize, 0);
    MulMono(i + 1, n, h.blockSize);
    assert (i + 1) * h.blockSize == i * h.blockSize + h.blockSize;
  }

  /** Distinct blocks of a page do not overlap. */
  lemma BlocksApart(p: int, h: Page, n: int, a: int, b: int)
    requires IsBlock(p, h, n, a) && IsBlock(p, h, n, b) && a != b
    ensures a + h.blockSize <= b || b + h.blockSize <= a
  {
    var i := BlockIndex(p, h, n, a);
    var j := BlockIndex(p, h, n, b);
    if i < j { BlockAt(p, h, j, i); } else if j < i { BlockAt(p, h, i, j); }
  }

  lemma BlockMono(p: int, h: Page, m: int, n: int, a: int)
    requires IsBlock(p, h, m, a) && m <= n
    ensures IsBlock(p, h, n, a)
    ensures p + h.blockStart <= a && a + h.blockSize <= BlockAddr(p, h, m) <= BlockAddr(p, h, n)
  {
    var i := BlockIndex(p, h, m, a);
    BlockAt(p, h, m, i);
    MulMono(m, n, h.blockSize);
  }

  /** A block or an unextended byte lies behind the header and inside the page. */
  lemma BlockInPage(p: int, h: Page, n: int, a: int)
    requires Geometry(p, h) && n <= h.reserved && IsBlock(p, h, n, a)
    ensures p + PAGE_HEADER_RESERVE <= a && a + h.blockSize <= p + PageSize(h.kind)
    ensures h.blockSize >= WORD && a <= USIZE_MAX
    ensures HeaderOf(h.kind, a) == p
  {
    AreaInPage(p, h);
    hide Geometry, IsBlock, BlockAddr;
    BlockMono(p, h, n, h.reserved, a);
    BytesMaskToHeader(p, h.kind, a);
  }

  lemma AreaInPage(p: int, h: Page)
    requires Geometry(p, h)
    ensures h.blockStart >= PAGE_HEADER_RESERVE && h.blockSize >= WORD && h.reserved >= 6
    ensures BlockAddr(p, h, h.reserved) <= p + PageSize(h.kind) <= USIZE_MAX
    ensures p % PageSize(h.kind) == 0 && p > 0
  {
    PageGeometry(h.bin);
    hide BinSize, BlockStart, BlocksPerPage;
  }

  // ---------------------------------------------------------------------------------------------
  // Counting
  // ---------------------------------------------------------------------------------------------

  /** Distinct numbers below `n`: at most `n` of them. */
  lemma {:induction false} AtMost(s: seq<int>, n: nat)
    requires NoDup(s) && forall i :: 0 <= i < |s| ==> 0 <= s[i] < n
    ensures |s| <= n
  {
    if n == 0 {
      assert s == [];
    } else if n - 1 in s {
      var k :| 0 <= k < |s| && s[k] == n - 1;
      var rest := s[..k] + s[k + 1..];
      forall i | 0 <= i < |rest| ensures 0 <= rest[i] < n - 1 {
        assert rest[i] == if i < k then s[i] else s[i + 1];
      }
      AtMost(rest, n - 1);
    } else {
      AtMost(s, n - 1);
    }
  }

  /** Distinct blocks below `n`: at most `n` of them. */
  lemma BlocksAtMost(p: int, h: Page, l: seq<int>, n: nat)
    requires NoDup(l) && forall i :: 0 <= i < |l| ==> IsBlock(p, h, n, l[i])
    ensures |l| <= n
  {
    if l != [] {
      assert IsBlock(p, h, n, l[0]);
      var size := h.blockSize;
      var index := seq(|l|, i requires 0 <= i < |l| => (l[i] - p - h.blockStart) / size);
      forall i, j | 0 <= i < j < |index| ensures index[i] != index[j] {
        var a := BlockIndex(p, h, n, l[i]);
        var b := BlockIndex(p, h, n, l[j]);
        ModUnique(a, size, 0);
        ModUnique(b, size, 0);
      }
      AtMost(index, n);
    }
  }

  /** A live block is counted by `used`. */
  lemma LiveIsUsed(p: int, h: Page, l: seq<int>, a: int)
    requires ListOk(p, h, l) && LiveBlock(p, h, l, a)
    ensures h.used >= 1
  {
    hide IsBlock;
    BlocksAtMost(p, h, [a] + l, h.capacity);
  }

  // ---------------------------------------------------------------------------------------------
  // Pop and push
  // ---------------------------------------------------------------------------------------------

  function HeaderAt(pages: map<int, Page>, page: int): Page {
    if page in pages then pages[page] else EMPTY_PAGE
  }

  /** What `pop` needs: the read-only sentinel, or a page in order with its list spelled out in memory. */
  ghost predicate Poppable(mem: Memory, page: int, l: seq<int>)
    reads mem`pages, mem`bytes
  {
    if page == SENTINEL then page !in mem.pages && l == []
    else page in mem.pages && PageOk(page, mem.pages[page], l) && Chain(l, mem.bytes)
  }

  function Popped(h: Page, next: int): Page {
    h.(free := next, used := h.used + 1)
  }

  /** Pop a block, or 0 when the list is empty. */
  method Pop(mem: Memory, page: int, ghost l: seq<int>) returns (block: int)
    requires Poppable(mem, page, l)
    modifies mem`pages
    ensures block == Head(l)
    ensures l == [] ==> block == 0 && mem.pages == old(mem.pages)
    ensures l != [] ==> block != 0 && page in old(mem.pages)
                        && mem.pages == old(mem.pages)[page := Popped(old(mem.pages)[page], Head(l[1..]))]
  {
    block := HeaderAt(mem.pages, page).free;
    EmptyListIsZero(mem, page, l);
    if block == 0 {
      return;
    }
    var next := ReadWord(mem.bytes, block);
    var h := mem.pages[page];
    mem.pages := mem.pages[page := h.(free := next, used := h.used + 1)];
  }

  lemma EmptyListIsZero(mem: Memory, page: int, l: seq<int>)
    requires Poppable(mem, page, l)
    ensures HeaderAt(mem.pages, page).free == Head(l)
    ensures Head(l) == 0 <==> l == []
    ensures l != [] ==> page in mem.pages && ReadWord(mem.bytes, l[0]) == Head(l[1..])
  {
    hide Geometry, IsBlock, ReadWord;
    if l != [] {
      BlockInPage(page, mem.pages[page], mem.pages[page].capacity, l[0]);
      AreaInPage(page, mem.pages[page]);
    }
  }

  /** After a pop the header describes the rest of the list. */
  lemma PopKeeps(p: int, h: Page, l: seq<int>, bytes: map<int, Byte>)
    requires PageOk(p, h, l) && Chain(l, bytes) && l != []
    ensures PageOk(p, Popped(h, Head(l[1..])), l[1..]) && Chain(l[1..], bytes)
    ensures LiveBlock(p, Popped(h, Head(l[1..])), l[1..], l[0])
    ensures PageZero(p, h, l, bytes) ==> PageZero(p, Popped(h, Head(l[1..])), l[1..], bytes)
  {
    SameBlocks(p, h, Popped(h, Head(l[1..])));
    hide ReadWord, IsBlock;
    var t := l[1..];
    forall i | 0 <= i < |t| ensures ReadWord(bytes, t[i]) == Head(t[i + 1..]) {
      assert t[i + 1..] == l[i + 2..];
    }
  }

  function Pushed(h: Page, block: int): Page {
    h.(free := block, used := h.used - 1, freeIsZero := false)
  }

  /** Push a live block back. */
  method Push(mem: Memory, page: int, block: int, ghost l: seq<int>)
    requires page in mem.pages && PageOk(page, mem.pages[page], l) && LiveBlock(page, mem.pages[page], l, block)
    modifies mem`pages, mem`bytes
    ensures mem.pages == old(mem.pages)[page := Pushed(old(mem.pages)[page], block)]
    ensures 0 <= Head(l) <= USIZE_MAX && mem.bytes == WriteWord(old(mem.bytes), block, Head(l))
  {
    var h := mem.pages[page];
    HeadIsAddress(page, h, l);
    hide Geometry, IsBlock, WriteWord, NoDup;
    var used := h.used - 1;
    mem.bytes := WriteWord(mem.bytes, block, h.free);
    mem.pages := mem.pages[page := h.(free := block, used := used, freeIsZero := false)];
  }

  lemma HeadIsAddress(p: int, h: Page, l: seq<int>)
    requires PageOk(p, h, l)
    ensures h.free == Head(l) && 0 <= Head(l) <= USIZE_MAX
  {
    hide Geometry, IsBlock;
    if l != [] {
      BlockInPage(p, h, h.capacity, l[0]);
      AreaInPage(p, h);
    }
  }

  /** Blocks depend on the geometry fields of the header only. */
  lemma SameBlocks(p: int, h: Page, g: Page)
    requires h.blockSize == g.blockSize && h.blockStart == g.blockStart
    ensures forall n, a :: IsBlock(p, h, n, a) <==> IsBlock(p, g, n, a)
  {
  }

  lemma PushKeeps(p: int, h: Page, l: seq<int>, bytes: map<int, Byte>, a: int)
    requires PageOk(p, h, l) && Chain(l, bytes) && LiveBlock(p, h, l, a)
    ensures 0 <= Head(l) <= USIZE_MAX
    ensures PageOk(p, Pushed(h, a), [a] + l)
    ensures Chain([a] + l, WriteWord(bytes, a, Head(l)))
  {
    HeadIsAddress(p, h, l);
    LiveIsUsed(p, h, l, a);
    PushedOk(p, h, l, a);
    PushedChain(p, h, l, bytes, a);
  }

  lemma PushedOk(p: int, h: Page, l: seq<int>, a: int)
    requires PageOk(p, h, l) && LiveBlock(p, h, l, a) && h.used >= 1
    ensures PageOk(p, Pushed(h, a), [a] + l)
  {
    SameBlocks(p, h, Pushed(h, a));
    hide IsBlock;
  }

  lemma PushedChain(p: int, h: Page, l: seq<int>, bytes: map<int, Byte>, a: int)
    requires PageOk(p, h, l) && Chain(l, bytes) && LiveBlock(p, h, l, a) && 0 <= Head(l) <= USIZE_MAX
    ensures Chain([a] + l, WriteWord(bytes, a, Head(l)))
  {
    hide ReadWord, Geometry, WriteWord, NoDup, IsBlock;
    var after := WriteWord(bytes, a, Head(l));
    var m := [a] + l;
    BlockInPage(p, h, h.capacity, a);
    forall i | 0 <= i < |m| ensures ReadWord(after, m[i]) == Head(m[i + 1..]) {
      if i == 0 {
        assert m[1..] == l;
      } else {
        assert m[i + 1..] == l[i..] && m[i] == l[i - 1];
        BlocksApart(p, h, h.capacity, a, l[i - 1]);
        ReadElsewhere(bytes, after, l[i - 1]);
      }
    }
  }

  /** `pop` undoes `push`: the same block comes back and the header differs only in what it knows about
      zeros. */
  lemma PopUndoesPush(p: int, h: Page, l: seq<int>, bytes: map<int, Byte>, a: int)
    requires PageOk(p, h, l) && Chain(l, bytes) && LiveBlock(p, h, l, a)
    ensures Head([a] + l) == a
    ensures Popped(Pushed(h, a), Head(([a] + l)[1..])) == h.(freeIsZero := false)
  {
    assert ([a] + l)[1..] == l;
  }

  // ---------------------------------------------------------------------------------------------
  // Extend
  // ---------------------------------------------------------------------------------------------

  /** How many blocks one `extend` links: at most 8 KiB worth, at least one, at most what is left. */
  function ExtendCount(h: Page): int {
    var max := MAX_EXTEND_SIZE / (if h.blockSize < 1 then 1 else h.blockSize);
    var atLeastOne := if max < 1 then 1 else max;
    if h.reserved - h.capacity < atLeastOne then h.reserved - h.capacity else atLeastOne
  }

  function ExtendedPage(p: int, h: Page): Page {
    h.(free := BlockAddr(p, h, h.capacity), capacity := h.capacity + ExtendCount(h))
  }

  /** A batch is all that is left, or as many blocks as fit 8192 bytes, or one that alone is larger. */
  lemma ExtendFits(h: Page)
    requires h.blockSize >= 1 && h.capacity < h.reserved
    ensures var n := ExtendCount(h);
            && 1 <= n <= h.reserved - h.capacity && (n * h.blockSize <= 8192 || n == 1)
            && (n == h.reserved - h.capacity || 8192 < (n + 1) * h.blockSize)
  {
    var max, n := MAX_EXTEND_SIZE / h.blockSize, ExtendCount(h);
    assert MAX_EXTEND_SIZE == max * h.blockSize + MAX_EXTEND_SIZE % h.blockSize;
    assert (max + 1) * h.blockSize == max * h.blockSize + h.blockSize;
    if max >= 1 {
      MulMono(n, max, h.blockSize);
    } else {
      assert h.blockSize > 8192;
      assert 2 * h.blockSize > 8192;
    }
  }

  /** The blocks `[from, to)` in address order. */
  function BlockSeq(p: int, h: Page, from: int, to: int): (s: seq<int>)
    requires from <= to
    ensures |s| == to - from && forall i :: 0 <= i < to - from ==> s[i] == BlockAddr(p, h, from + i)
  {
    seq(to - from, i => BlockAddr(p, h, from + i))
  }

  lemma BlockNext(p: int, h: Page, i: int)
    ensures BlockAddr(p, h, i + 1) == BlockAddr(p, h, i) + h.blockSize
  {
    assert (i + 1) * h.blockSize == i * h.blockSize + h.blockSize;
  }

  lemma BlockOrder(p: int, h: Page, i: int, j: int)
    requires i < j && h.blockSize >= 1
    ensures BlockAddr(p, h, i) + h.blockSize <= BlockAddr(p, h, j)
  {
    MulMono(i + 1, j, h.blockSize);
    BlockNext(p, h, i);
  }

  /** Two memories agree on `[lo, hi)`. */
  ghost predicate Same(before: map<int, Byte>, bytes: map<int, Byte>, lo: int, hi: int) {
    forall x :: lo <= x < hi ==> At(bytes, x) == At(before, x)
  }

  /** Nothing but the link words of the blocks `[from, to)` differs. */
  ghost predicate Untouched(p: int, h: Page, from: int, to: int, before: map<int, Byte>, bytes: map<int, Byte>) {
    && (forall x :: x < BlockAddr(p, h, from) || BlockAddr(p, h, to) <= x ==> At(bytes, x) == At(before, x))
    && (forall j {:trigger BlockAddr(p, h, j)} :: from <= j < to
          ==> Same(before, bytes, BlockAddr(p, h, j) + LINK, BlockAddr(p, h, j) + h.blockSize))
  }

  /** The blocks `[from, to)` link each to the next. */
  ghost predicate LinksTo(p: int, h: Page, from: int, to: int, bytes: map<int, Byte>) {
    forall j {:trigger ReadWord(bytes, BlockAddr(p, h, j))} :: from <= j < to
      ==> ReadWord(bytes, BlockAddr(p, h, j)) == BlockAddr(p, h, j + 1)
  }

  /** Writing a link into block `cur` behind linked blocks `[from, cur)`. */
  lemma LinkOne(p: int, h: Page, from: int, cur: int, v: int, before: map<int, Byte>, bytes: map<int, Byte>)
    requires from <= cur && h.blockSize >= WORD && 0 <= v <= USIZE_MAX
    requires Untouched(p, h, from, cur, before, bytes) && LinksTo(p, h, from, cur, bytes)
    ensures var after := WriteWord(bytes, BlockAddr(p, h, cur), v);
            && Untouched(p, h, from, cur + 1, before, after) && LinksTo(p, h, from, cur, after)
            && ReadWord(after, BlockAddr(p, h, cur)) == v
  {
    hide BlockAddr, ReadWord, At, WriteWord;
    var a := BlockAddr(p, h, cur);
    var after := WriteWord(bytes, a, v);
    BlockNext(p, h, cur);
    if from < cur { BlockOrder(p, h, from, cur); }
    forall j | from <= j < cur
      ensures BlockAddr(p, h, j) + h.blockSize <= a
      ensures ReadWord(after, BlockAddr(p, h, j)) == BlockAddr(p, h, j + 1)
    {
      BlockOrder(p, h, j, cur);
      ReadElsewhere(bytes, after, BlockAddr(p, h, j));
    }
  }

  /** Make the free list longer by a batch of blocks no one has used yet; false when there are none. */
  method Extend(mem: Memory, page: int, ghost l: seq<int>) returns (ok: bool)
    requires page in mem.pages && PageOk(page, mem.pages[page], l)
    modifies mem`pages, mem`bytes
    ensures ok <==> old(mem.pages)[page].capacity < old(mem.pages)[page].reserved
    ensures !ok ==> mem.pages == old(mem.pages) && mem.bytes == old(mem.bytes)
    ensures ok ==> var h := old(mem.pages)[page];
                   && mem.pages == old(mem.pages)[page := ExtendedPage(page, h)]
                   && LinksWritten(page, h, l, old(mem.bytes), mem.bytes)
    ensures ok ==> var h, n := old(mem.pages)[page], mem.pages[page].capacity - old(mem.pages)[page].capacity;
                   && 1 <= n <= h.reserved - h.capacity && (n * h.blockSize <= 8192 || n == 1)
                   && (n == h.reserved - h.capacity || 8192 < (n + 1) * h.blockSize)
  {
    hide Geometry, ListOk, BlockAddr, ExtendCount, WriteWord, ReadWord, Untouched, LinksTo, At;
    var h := mem.pages[page];
    if h.capacity >= h.reserved {
      return false;
    }
    AreaInPage(page, h);
    CapacityIsCount(page, h, l);
    HeadIsAddress(page, h, l);
    ExtendPositive(h);
    ExtendFits(h);
    var extend := ExtendCount(h);
    var first := BlockAddr(page, h, h.capacity);
    var last := BlockAddr(page, h, h.capacity + extend - 1);
    LinkBlocks(mem, page, h, first, last, h.capacity, h.capacity + extend - 1);
    LinkOne(page, h, h.capacity, h.capacity + extend - 1, Head(l), old(mem.bytes), mem.bytes);
    mem.bytes := WriteWord(mem.bytes, last, h.free);
    mem.pages := mem.pages[page := h.(free := first, capacity := h.capacity + extend)];
    return true;
  }

  lemma CapacityIsCount(p: int, h: Page, l: seq<int>)
    requires ListOk(p, h, l)
    ensures 0 <= h.used <= h.capacity <= h.reserved
  {
  }

  /** The loop of `extend`: each block from `first` up to but not including `last` links to the next. */
  method LinkBlocks(mem: Memory, page: int, h: Page, first: int, last: int, ghost from: int, ghost to: int)
    requires Geometry(page, h) && 0 <= from <= to < h.reserved
    requires first == BlockAddr(page, h, from) && last == BlockAddr(page, h, to)
    modifies mem`bytes
    ensures Untouched(page, h, from, to, old(mem.bytes), mem.bytes) && LinksTo(page, h, from, to, mem.bytes)
  {
    hide Geometry, BlockAddr, WriteWord, ReadWord, Untouched, LinksTo, At;
    AreaInPage(page, h);
    var block := first;
    ghost var cur := from;
    NothingLinked(page, h, cur, mem.bytes);
    while block < last
      invariant from <= cur <= to && block == BlockAddr(page, h, cur)
      invariant Untouched(page, h, from, cur, old(mem.bytes), mem.bytes)
      invariant LinksTo(page, h, from, cur, mem.bytes)
      decreases last - block
    {
      assert cur != to;
      AddressInPage(page, h, cur + 1);
      BlockNext(page, h, cur);
      LinkOne(page, h, from, cur, BlockAddr(page, h, cur + 1), old(mem.bytes), mem.bytes);
      LinkedFurther(page, h, from, cur, WriteWord(mem.bytes, block, BlockAddr(page, h, cur + 1)));
      var next := block + h.blockSize;
      mem.bytes := WriteWord(mem.bytes, block, next);
      block := next;
      cur := cur + 1;
    }
    if cur < to { BlockOrder(page, h, cur, to); }
  }

  lemma LinkedFurther(p: int, h: Page, from: int, cur: int, bytes: map<int, Byte>)
    requires LinksTo(p, h, from, cur, bytes) && ReadWord(bytes, BlockAddr(p, h, cur)) == BlockAddr(p, h, cur + 1)
    ensures LinksTo(p, h, from, cur + 1, bytes)
  {
    hide BlockAddr, ReadWord;
  }

  lemma ExtendPositive(h: Page)
    requires h.capacity < h.reserved
    ensures 1 <= ExtendCount(h) <= h.reserved - h.capacity
  {
  }

  lemma NothingLinked(p: int, h: Page, from: int, before: map<int, Byte>)
    ensures Untouched(p, h, from, from, before, before) && LinksTo(p, h, from, from, before)
  {
  }

  lemma AddressInPage(p: int, h: Page, i: int)
    requires Geometry(p, h) && 0 <= i <= h.reserved
    ensures p + h.blockStart <= BlockAddr(p, h, i) <= BlockAddr(p, h, h.reserved) <= USIZE_MAX && BlockAddr(p, h, i) > 0
  {
    AreaInPage(p, h);
    MulMono(i, h.reserved, h.blockSize);
    MulMono(0, i, h.blockSize);
  }

  /** What `extend` leaves in memory: nothing but the new blocks' link words changed, each of them links to
      the next and the last to the old list. */
  ghost predicate LinksWritten(p: int, h: Page, l: seq<int>, before: map<int, Byte>, bytes: map<int, Byte>) {
    var end := h.capacity + ExtendCount(h);
    && Untouched(p, h, h.capacity, end, before, bytes)
    && LinksTo(p, h, h.capacity, end - 1, bytes)
    && ReadWord(bytes, BlockAddr(p, h, end - 1)) == Head(l)
  }

  /** The list after an extend: the new blocks in front of the old list. */
  function ExtendedList(p: int, h: Page, l: seq<int>): seq<int>
    requires h.capacity < h.reserved
  {
    ExtendPositive(h);
    BlockSeq(p, h, h.capacity, h.capacity + ExtendCount(h)) + l
  }

  lemma ExtendedOk(p: int, h: Page, l: seq<int>)
    requires PageOk(p, h, l) && h.capacity < h.reserved
    ensures PageOk(p, ExtendedPage(p, h), ExtendedList(p, h, l))
  {
    var g := ExtendedPage(p, h);
    ExtendPositive(h);
    AreaInPage(p, h);
    SameBlocks(p, h, g);
    hide Geometry, ExtendCount, BlockAddr, IsBlock;
    var end := h.capacity + ExtendCount(h);
    var m := ExtendedList(p, h, l);
    var n := ExtendCount(h);
    forall i | 0 <= i < |m|
      ensures IsBlock(p, h, end, m[i])
      ensures i < n ==> m[i] == BlockAddr(p, h, h.capacity + i)
      ensures i >= n ==> m[i] == l[i - n] && m[i] < BlockAddr(p, h, h.capacity)
    {
      if i < n {
        BlockAt(p, h, end, h.capacity + i);
      } else {
        BlockMono(p, h, h.capacity, end, l[i - n]);
      }
    }
    forall i, j | 0 <= i < j < |m| ensures m[i] != m[j] {
      if j < n {
        BlockOrder(p, h, h.capacity + i, h.capacity + j);
      } else if i < n && i > 0 {
        BlockOrder(p, h, h.capacity, h.capacity + i);
      }
    }
  }

  lemma ExtendedChain(p: int, h: Page, l: seq<int>, before: map<int, Byte>, bytes: map<int, Byte>)
    requires PageOk(p, h, l) && h.capacity < h.reserved && Chain(l, before) && LinksWritten(p, h, l, before, bytes)
    ensures Chain(ExtendedList(p, h, l), bytes)
  {
    hide Geometry, ExtendCount, BlockAddr, IsBlock, ReadWord, At, NoDup, Same, ListOk;
    ExtendPositive(h);
    AreaInPage(p, h);
    var m := ExtendedList(p, h, l);
    var n := ExtendCount(h);
    forall i | 0 <= i < |m| ensures ReadWord(bytes, m[i]) == Head(m[i + 1..]) {
      if i < n - 1 {
        assert m[i] == BlockAddr(p, h, h.capacity + i);
        assert m[i + 1..][0] == m[i + 1] == BlockAddr(p, h, h.capacity + i + 1);
      } else if i == n - 1 {
        assert m[n..] == l;
      } else {
        OldLink(p, h, l, before, bytes, i - n);
        assert m[i + 1..] == l[i - n + 1..];
      }
    }
  }

  lemma OldLink(p: int, h: Page, l: seq<int>, before: map<int, Byte>, bytes: map<int, Byte>, i: nat)
    requires PageOk(p, h, l) && h.capacity < h.reserved && Chain(l, before) && LinksWritten(p, h, l, before, bytes)
    requires i < |l|
    ensures ReadWord(bytes, l[i]) == Head(l[i + 1..])
  {
    AreaInPage(p, h);
    hide Geometry, ExtendCount, BlockAddr, IsBlock, ReadWord, At, NoDup, LinksTo, Same;
    BlockMono(p, h, h.capacity, h.capacity, l[i]);
    ReadElsewhere(before, bytes, l[i]);
  }

  lemma ExtendedZero(p: int, h: Page, l: seq<int>, before: map<int, Byte>, bytes: map<int, Byte>)
    requires PageOk(p, h, l) && h.capacity < h.reserved && LinksWritten(p, h, l, before, bytes)
    requires PageZero(p, h, l, before)
    ensures PageZero(p, ExtendedPage(p, h), ExtendedList(p, h, l), bytes)
  {
    hide Geometry, ExtendCount, BlockAddr, IsBlock, At, LinksTo, NoDup, ReadWord;
    ExtendPositive(h);
    AreaInPage(p, h);
    SameAddrs(p, h, ExtendedPage(p, h));
    if h.freeIsZero {
      var m := ExtendedList(p, h, l);
      var n := ExtendCount(h);
      BlockOrder(p, h, h.capacity, h.capacity + n);
      forall i, x | 0 <= i < |m| && m[i] + LINK <= x < m[i] + h.blockSize ensures At(bytes, x) == 0 {
        if i < n {
          NewBlockZero(p, h, l, before, bytes, h.capacity + i, x);
        } else {
          assert m[i] == l[i - n];
          BlockMono(p, h, h.capacity, h.capacity, l[i - n]);
        }
      }
    }
  }

  lemma NewBlockListed(p: int, h: Page, l: seq<int>, i: int)
    requires h.capacity < h.reserved
    ensures h.capacity <= i < h.capacity + ExtendCount(h) ==> BlockAddr(p, h, i) in ExtendedList(p, h, l)
  {
    hide ExtendCount, BlockAddr;
    if h.capacity <= i < h.capacity + ExtendCount(h) {
      assert ExtendedList(p, h, l)[i - h.capacity] == BlockAddr(p, h, i);
    }
  }

  /** The blocks handed out are the same before and after an extend. */
  lemma StretchedBlocks(p: int, h: Page, l: seq<int>, x: int)
    requires PageOk(p, h, l) && h.capacity < h.reserved
    ensures LiveBlock(p, ExtendedPage(p, h), ExtendedList(p, h, l), x) <==> LiveBlock(p, h, l, x)
  {
    hide PageOk, LiveBlock, ExtendedPage, ExtendedList;
    if LiveBlock(p, h, l, x) { StretchedStays(p, h, l, x); }
    if LiveBlock(p, ExtendedPage(p, h), ExtendedList(p, h, l), x) { StretchedWas(p, h, l, x); }
  }

  lemma StretchedStays(p: int, h: Page, l: seq<int>, x: int)
    requires PageOk(p, h, l) && h.capacity < h.reserved && LiveBlock(p, h, l, x)
    ensures LiveBlock(p, ExtendedPage(p, h), ExtendedList(p, h, l), x)
  {
    hide Geometry, ExtendCount, BlockAddr, IsBlock, NoDup;
    var g, m, n := ExtendedPage(p, h), ExtendedList(p, h, l), ExtendCount(h);
    ExtendPositive(h);
    AreaInPage(p, h);
    SameBlocks(p, h, g);
    BlockMono(p, h, h.capacity, h.capacity + n, x);
    forall i | 0 <= i < n ensures m[i] != x {
      if i > 0 { BlockOrder(p, h, h.capacity, h.capacity + i); }
      BlockMono(p, h, h.capacity, h.capacity, x);
    }
    forall i | n <= i < |m| ensures m[i] != x { assert m[i] == l[i - n]; }
  }

  lemma StretchedWas(p: int, h: Page, l: seq<int>, x: int)
    requires PageOk(p, h, l) && h.capacity < h.reserved && LiveBlock(p, ExtendedPage(p, h), ExtendedList(p, h, l), x)
    ensures LiveBlock(p, h, l, x)
  {
    hide Geometry, ExtendCount, BlockAddr, IsBlock, NoDup;
    var g, m, n := ExtendedPage(p, h), ExtendedList(p, h, l), ExtendCount(h);
    ExtendPositive(h);
    AreaInPage(p, h);
    SameBlocks(p, h, g);
    var i := BlockIndex(p, h, h.capacity + n, x);
    NewBlockListed(p, h, l, i);
    BlockAt(p, h, h.capacity, i);
    forall j | 0 <= j < |l| ensures l[j] != x { assert m[j + n] == l[j]; }
  }

  lemma NewBlockZero(p: int, h: Page, l: seq<int>, before: map<int, Byte>, bytes: map<int, Byte>, j: int, x: int)
    requires PageOk(p, h, l) && h.capacity < h.reserved && LinksWritten(p, h, l, before, bytes)
    requires PageZero(p, h, l, before) && h.freeIsZero
    requires h.capacity <= j < h.capacity + ExtendCount(h)
    requires BlockAddr(p, h, j) + LINK <= x < BlockAddr(p, h, j) + h.blockSize
    ensures At(bytes, x) == 0
  {
    AreaInPage(p, h);
    ExtendPositive(h);
    hide Geometry, ExtendCount, BlockAddr, IsBlock, At, LinksTo, NoDup, ReadWord;
    if h.capacity < j { BlockOrder(p, h, h.capacity, j); }
    BlockOrder(p, h, j, h.reserved);
    assert Same(before, bytes, BlockAddr(p, h, j) + LINK, BlockAddr(p, h, j) + h.blockSize);
  }

  lemma SameAddrs(p: int, h: Page, g: Page)
    requires h.blockSize == g.blockSize && h.blockStart == g.blockStart
    ensures forall i :: BlockAddr(p, h, i) == BlockAddr(p, g, i)
  {
  }

  // ---------------------------------------------------------------------------------------------
  // Init and the state predicates
  // ---------------------------------------------------------------------------------------------

  function FreshPage(kind: PageKind, bin: nat, zeroed: bool): Page
    requires bin >= 1
  {
    var blockSize := BinSize(bin);
    Page(0, 0, 0, BlocksPerPage(kind, blockSize), blockSize, BlockStart(blockSize), zeroed, bin, kind)
  }

  /** Write a fresh header. */
  method Init(mem: Memory, page: int, kind: PageKind, bin: nat, zeroed: bool)
    requires 1 <= bin <= MAX_BINNED_BIN && kind == KindOfBin(bin) && page % PageSize(kind) == 0
    requires page > 0 && page + PageSize(kind) <= USIZE_MAX && page !in mem.pages
    modifies mem`pages, mem`links
    ensures mem.pages == old(mem.pages)[page := FreshPage(kind, bin, zeroed)]
    ensures mem.links == old(mem.links)[page := Links(0, 0, false, 0)]
  {
    mem.pages := mem.pages[page := FreshPage(kind, bin, zeroed)];
    mem.links := mem.links[page := Links(0, 0, false, 0)];
  }

  lemma InitOk(page: int, kind: PageKind, bin: nat, zeroed: bool, bytes: map<int, Byte>)
    requires 1 <= bin <= MAX_BINNED_BIN && kind == KindOfBin(bin) && page % PageSize(kind) == 0
    requires page > 0 && page + PageSize(kind) <= USIZE_MAX
    requires zeroed ==> forall x :: page <= x < page + PageSize(kind) ==> At(bytes, x) == 0
    ensures var h := FreshPage(kind, bin, zeroed);
            PageOk(page, h, []) && Chain([], bytes) && PageZero(page, h, [], bytes) && h.capacity < h.reserved
  {
    var h := FreshPage(kind, bin, zeroed);
    hide BinSize, BlockStart, BlocksPerPage;
    AreaInPage(page, h);
    assert BlockAddr(page, h, 0) == page + h.blockStart;
  }

  predicate HasFree(h: Page) { h.free != 0 }

  predicate IsExpandable(h: Page) { h.capacity < h.reserved }

  predicate AllFree(h: Page) { h.used == 0 }

  /** A page with neither free nor unextended blocks has every one of its blocks live. */
  lemma RoomlessIsFull(p: int, h: Page, l: seq<int>)
    requires PageOk(p, h, l)
    ensures HasFree(h) <==> l != []
    ensures !HasFree(h) && !IsExpandable(h) <==> h.used == h.capacity == h.reserved
    ensures !HasFree(h) && !IsExpandable(h) ==> forall a :: IsBlock(p, h, h.reserved, a) <==> LiveBlock(p, h, l, a)
  {
    hide Geometry, IsBlock;
    if l != [] {
      BlockInPage(p, h, h.capacity, l[0]);
      AreaInPage(p, h);
    }
  }

  // ---------------------------------------------------------------------------------------------
  // Handing out a whole page
  // ---------------------------------------------------------------------------------------------

  /** `blocks` are the live blocks of a page with free list `l`. */
  ghost predicate HandedOut(p: int, h: Page, l: seq<int>, blocks: seq<int>) {
    NoDup(blocks) && |blocks| == h.used && forall i :: 0 <= i < |blocks| ==> LiveBlock(p, h, l, blocks[i])
  }

  /** Pop, and extend whenever the list runs dry, until the page refuses: every one of its `reserved` blocks
      is handed out exactly once. */
  method HandOutAll(mem: Memory, page: int, ghost l0: seq<int>) returns (blocks: seq<int>)
    requires page in mem.pages && page != 0 && PageOk(page, mem.pages[page], l0) && Chain(l0, mem.bytes)
    requires mem.pages[page].used == 0
    modifies mem`pages, mem`bytes
    ensures page in mem.pages && mem.pages[page].used == mem.pages[page].capacity == mem.pages[page].reserved
    ensures mem.pages[page].reserved == old(mem.pages)[page].reserved
    ensures |blocks| == old(mem.pages)[page].reserved && NoDup(blocks)
    ensures forall i :: 0 <= i < |blocks| ==>
              IsBlock(page, old(mem.pages)[page], old(mem.pages)[page].reserved, blocks[i])
  {
    hide Geometry, IsBlock, NoDup, Chain, ListOk, Popped, ExtendedPage, ExtendedList, LinksWritten, Head;
    ghost var l, h0 := l0, mem.pages[page];
    blocks := [];
    NothingOut(page, h0, l);
    while true
      invariant page in mem.pages && PageOk(page, mem.pages[page], l) && Chain(l, mem.bytes)
      invariant SameArea(h0, mem.pages[page]) && HandedOut(page, mem.pages[page], l, blocks)
      decreases h0.reserved - mem.pages[page].capacity, |l|
    {
      ghost var h := mem.pages[page];
      PoppedStep(page, h, l, mem.bytes, blocks);
      StretchedHandout(page, h, l, blocks);
      RoomlessIsFull(page, h, l);
      var block := Pop(mem, page, l);
      if block != 0 {
        l := l[1..];
        blocks := blocks + [block];
      } else {
        ghost var bytes0 := mem.bytes;
        var ok := Extend(mem, page, l);
        if !ok {
          AllOut(page, h0, h, l, blocks);
          return;
        }
        ExtendedChain(page, h, l, bytes0, mem.bytes);
        l := ExtendedList(page, h, l);
      }
    }
  }

  predicate SameArea(h: Page, g: Page) {
    h.blockSize == g.blockSize && h.blockStart == g.blockStart && h.reserved == g.reserved
  }

  lemma NothingOut(p: int, h: Page, l: seq<int>)
    requires h.used == 0
    ensures HandedOut(p, h, l, [])
  {
  }

  /** Popping hands out one more block, different from those before. */
  lemma PoppedStep(p: int, h: Page, l: seq<int>, bytes: map<int, Byte>, blocks: seq<int>)
    requires PageOk(p, h, l) && Chain(l, bytes) && HandedOut(p, h, l, blocks)
    ensures l != [] ==>
              var g := Popped(h, Head(l[1..]));
              && Head(l) == l[0] && PageOk(p, g, l[1..]) && Chain(l[1..], bytes) && SameArea(h, g)
              && g.capacity == h.capacity
              && HandedOut(p, g, l[1..], blocks + [l[0]])
  {
    hide Geometry, IsBlock, ReadWord;
    if l != [] {
      PopKeeps(p, h, l, bytes);
      var g := Popped(h, Head(l[1..]));
      SameBlocks(p, h, g);
      var more := blocks + [l[0]];
      forall i | 0 <= i < |more| ensures LiveBlock(p, g, l[1..], more[i]) {
        if i < |blocks| { assert LiveBlock(p, h, l, blocks[i]); }
      }
    }
  }

  /** Extending hands out nothing and raises the capacity. */
  lemma StretchedHandout(p: int, h: Page, l: seq<int>, blocks: seq<int>)
    requires PageOk(p, h, l) && HandedOut(p, h, l, blocks)
    ensures h.capacity < h.reserved ==>
              var g := ExtendedPage(p, h);
              && PageOk(p, g, ExtendedList(p, h, l)) && SameArea(h, g) && h.capacity < g.capacity <= h.reserved
              && HandedOut(p, g, ExtendedList(p, h, l), blocks)
  {
    hide Geometry, IsBlock, NoDup, ExtendCount, BlockAddr, ListOk;
    if h.capacity < h.reserved {
      ExtendedOk(p, h, l);
      ExtendPositive(h);
      var g, m := ExtendedPage(p, h), ExtendedList(p, h, l);
      forall i | 0 <= i < |blocks| ensures LiveBlock(p, g, m, blocks[i]) {
        StretchedBlocks(p, h, l, blocks[i]);
      }
    }
  }

  lemma AllOut(p: int, h0: Page, h: Page, l: seq<int>, blocks: seq<int>)
    requires SameArea(h0, h) && HandedOut(p, h, l, blocks) && h.used == h.capacity == h.reserved
    ensures |blocks| == h0.reserved && NoDup(blocks)
    ensures forall i :: 0 <= i < |blocks| ==> IsBlock(p, h0, h0.reserved, blocks[i])
  {
    SameBlocks(p, h0, h);
    hide IsBlock;
  }
}
