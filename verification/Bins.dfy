/** The bin arithmetic: the function from Layouts to bins, and from bins to block sizes, page kinds and
    block addresses. Nothing here depends on a state. */
module Bins {
  import opened Arithmetic

  const WORD := 8
  const SLICE_SIZE := 65536
  const SMALL_MAX_OBJ_SIZE := 10240
  const MEDIUM_MAX_OBJ_SIZE := 40960
  const LARGE_MAX_OBJ_SIZE := 524288
  const MAX_BINNED_OBJ_SIZE := MEDIUM_MAX_OBJ_SIZE
  const MAX_NATURAL_ALIGN := 4096
  const PAGE_HEADER_RESERVE := 64
  const DIRECT_MAX_SIZE := 1024
  const DIRECT_ENTRIES := 129
  const MAX_BIN := 60
  const BIN_COUNT := 61
  const BIN_HUGE := 61
  const SMALL_MAX_BIN := 37
  const MEDIUM_MAX_BIN := 45
  const MAX_BINNED_BIN := MEDIUM_MAX_BIN
  const DIRECT_MAX_BIN := 24
  const ISIZE_MAX := 0x7FFF_FFFF

  datatype PageKind = Small | Medium | Large

  datatype Layout = Layout(size: nat, align: nat)

  datatype Class = Bin(bin: nat) | Huge

  /** What `GlobalAlloc` promises about a Layout: non-zero size, power-of-two alignment, and a rounded
      size that fits a 32-bit `isize`. */
  ghost predicate LayoutOk(l: Layout) {
    l.size >= 1 && IsPow2(l.align) && RoundUp(l.size, l.align) <= ISIZE_MAX
  }

  function PageSlices(kind: PageKind): (n: nat)
    ensures n >= 1
  {
    match kind
    case Small => 1
    case Medium => 4
    case Large => 64
  }

  function PageSize(kind: PageKind): nat {
    PageSlices(kind) * SLICE_SIZE
  }

  /** `BinOf(size)`: the bin serving a block of `size` bytes. */
  function BinOf(size: nat): (b: nat)
    ensures b >= 1
  {
    if size <= 8 * WORD then
      if size <= WORD then 1 else CeilDiv(size, WORD)
    else if size > LARGE_MAX_OBJ_SIZE then BIN_HUGE
    else
      var w := CeilDiv(size, WORD) - 1;
      var b := TopBit(w);
      TopBitAtLeast(w, 3);
      4 * b + (w / Pow2(b - 2)) % 4 - 3
  }

  /** Block size of a bin. */
  function BinSize(bin: nat): (s: nat)
    requires bin >= 1
    ensures s >= WORD && s % WORD == 0
  {
    if bin <= 8 then bin * WORD
    else
      var k := bin + 3;
      var b := k / 4;
      var m := k % 4;
      MulMono(1, Pow2(b - 2), 5 + m);
      (5 + m) * Pow2(b - 2) * WORD
  }

  function KindOfBin(bin: nat): PageKind {
    if bin <= SMALL_MAX_BIN then Small
    else if bin <= MEDIUM_MAX_BIN then Medium
    else Large
  }

  function DirectIndex(size: nat): nat {
    CeilDiv(size, WORD)
  }

  /** The size a request is binned by: rounded up to its alignment. */
  function Rounded(l: Layout): (s: nat)
    requires l.align >= 1
  {
    if l.align > WORD then RoundUp(l.size, l.align) else l.size
  }

  function Classify(l: Layout): Class
    requires l.align >= 1
  {
    if l.align > MAX_NATURAL_ALIGN then Huge
    else if Rounded(l) > MAX_BINNED_OBJ_SIZE then Huge
    else Bin(BinOf(Rounded(l)))
  }

  /** Offset of block 0 in a page of `blockSize`-byte blocks. */
  function BlockStart(blockSize: nat): nat
    requires blockSize >= 1
  {
    var natural := LowBit(blockSize);
    RoundUp(PAGE_HEADER_RESERVE, if natural > MAX_NATURAL_ALIGN then MAX_NATURAL_ALIGN else natural)
  }

  function BlocksPerPage(kind: PageKind, blockSize: nat): int
    requires blockSize >= 1
  {
    (PageSize(kind) - BlockStart(blockSize)) / blockSize
  }

  /** `header_of`: the page header address a block address masks to. */
  function HeaderOf(kind: PageKind, addr: int): int {
    addr - addr % PageSize(kind)
  }

  // ---------------------------------------------------------------------------------------------
  // The bins: least cover, bounded waste, tightness
  // ---------------------------------------------------------------------------------------------

  lemma {:induction false} TopBitAtLeast(w: nat, n: nat)
    requires w >= Pow2(n)
    ensures TopBit(w) >= n
  {
    if TopBit(w) < n {
      Pow2Mono(TopBit(w) + 1, n);
    }
  }

  /** The quarter-octave a size above 64 bytes falls in: with unit `u = 2^(b-2)` words, the size lies in
      `(4 + q, 5 + q]` units and its bin is `4b + q - 3`. */
  lemma Quarter(size: nat) returns (b: nat, q: nat, u: nat)
    requires 8 * WORD < size <= LARGE_MAX_OBJ_SIZE
    ensures b >= 3 && q < 4 && u == Pow2(b - 2)
    ensures BinOf(size) == 4 * b + q - 3
    ensures (4 + q) * u * WORD < size <= (5 + q) * u * WORD
  {
    hide BinOf, CeilDiv, TopBit, Pow2;
    BinOfLarge(size);
    var w := CeilDiv(size, WORD) - 1;
    b := TopBit(w);
    u := Pow2(b - 2);
    FourQuarters(b);
    QuotientBounds(w, u, 4, 8);
    q := w / u - 4;
    QuarterBounds(size, w, u, w / u, q);
  }

  lemma QuarterBounds(size: nat, w: nat, u: nat, t: nat, q: nat)
    requires t == 4 + q && t * u <= w < t * u + u && w * WORD < size <= (w + 1) * WORD
    ensures (4 + q) * u * WORD < size <= (5 + q) * u * WORD && (q < 4 ==> t % 4 == q)
  {
    assert (4 + q) * u == t * u;
    assert (5 + q) * u == t * u + u;
  }

  /** What the bin of a size above 64 bytes is computed from. */
  lemma BinOfLarge(size: nat)
    requires 8 * WORD < size <= LARGE_MAX_OBJ_SIZE
    ensures CeilDiv(size, WORD) >= 9
    ensures var w := CeilDiv(size, WORD) - 1;
            var b := TopBit(w);
            b >= 3 && Pow2(b) <= w < 2 * Pow2(b) && BinOf(size) == 4 * b + (w / Pow2(b - 2)) % 4 - 3
  {
    hide TopBit;
    assert Pow2(3) == 8;
    TopBitAtLeast(CeilDiv(size, WORD) - 1, 3);
  }

  lemma QuotientBounds(w: nat, u: nat, lo: nat, hi: nat)
    requires u >= 1 && lo * u <= w < hi * u
    ensures lo <= w / u < hi && (w / u) * u <= w < (w / u) * u + u
  {
    assert w == (w / u) * u + w % u;
    if w / u < lo { MulMono(w / u, lo - 1, u); }
    if w / u >= hi { MulMono(hi, w / u, u); }
  }

  lemma FourQuarters(b: nat)
    requires b >= 2
    ensures Pow2(b) == 4 * Pow2(b - 2)
  {
    assert Pow2(b) == 2 * Pow2(b - 1);
  }

  /** `n` units of `u` words, in bytes. */
  function Units(n: nat, u: nat): nat {
    n * u * WORD
  }

  /** Neighbouring bins in units of the octave: bin `4b + q - 3` has size `(5 + q)` units and the bin
      below it `(4 + q)` units, also across an octave. */
  lemma BinUnits(b: nat, q: nat)
    requires b >= 3 && q < 4
    ensures BinSize(4 * b + q - 3) == Units(5 + q, Pow2(b - 2))
    ensures BinSize(4 * b + q - 4) == Units(4 + q, Pow2(b - 2))
  {
    hide BinSize, Pow2, Units;
    OctaveBin(b, q);
    if q > 0 {
      OctaveBin(b, q - 1);
    } else if b > 3 {
      OctaveBin(b - 1, 3);
      Pow2Next(b - 3);
      HalfUnits(Pow2(b - 3));
    } else {
      EighthBin();
      Pow2Next(0);
    }
  }

  lemma HalfUnits(u: nat)
    ensures Units(8, u) == Units(4, 2 * u)
  {
  }

  lemma EighthBin()
    ensures BinSize(8) == Units(4, 2)
  {
  }

  /** Bin `4b + q - 3` by the formula. */
  lemma OctaveBin(b: nat, q: nat)
    requires b >= 3 && q < 4
    ensures BinSize(4 * b + q - 3) == Units(5 + q, Pow2(b - 2))
  {
    hide Pow2;
    assert (4 * b + q) / 4 == b && (4 * b + q) % 4 == q;
  }

  lemma BinSizeStep(bin: nat)
    requires bin >= 2
    ensures BinSize(bin - 1) < BinSize(bin)
  {
    if bin >= 9 {
      var b, q := (bin + 3) / 4, (bin + 3) % 4;
      hide BinSize;
      BinUnits(b, q);
      assert (5 + q) * Pow2(b - 2) == (4 + q) * Pow2(b - 2) + Pow2(b - 2);
    }
  }

  lemma {:induction false} BinSizeMono(a: nat, b: nat)
    requires 1 <= a < b
    ensures BinSize(a) < BinSize(b)
  {
    BinSizeStep(b);
    if a < b - 1 {
      BinSizeMono(a, b - 1);
    }
  }

  lemma LargestBins()
    ensures BinSize(MAX_BIN) == LARGE_MAX_OBJ_SIZE
    ensures BinSize(MEDIUM_MAX_BIN) == MEDIUM_MAX_OBJ_SIZE
    ensures BinSize(SMALL_MAX_BIN) == SMALL_MAX_OBJ_SIZE
    ensures BinSize(DIRECT_MAX_BIN) == DIRECT_MAX_SIZE
  {
    assert Pow2(4) == 16;
    assert Pow2(8) == 16 * Pow2(4);
    assert Pow2(13) == 32 * Pow2(8);
    assert Pow2(10) == 4 * Pow2(8);
  }

  /** `BinOf(size)` covers `size` and the bin below it does not. */
  lemma TightCover(size: nat)
    requires size <= LARGE_MAX_OBJ_SIZE
    ensures size <= BinSize(BinOf(size))
    ensures BinOf(size) > 1 ==> BinSize(BinOf(size) - 1) < size
  {
    if size > 8 * WORD {
      hide BinOf, BinSize;
      var b, q, u := Quarter(size);
      BinUnits(b, q);
    }
  }

  /** `BinOf(size)` is the least bin whose blocks cover `size`, and it is a real bin. */
  lemma LeastBin(size: nat, c: nat)
    requires size <= LARGE_MAX_OBJ_SIZE
    ensures 1 <= BinOf(size) <= MAX_BIN
    ensures size <= BinSize(BinOf(size))
    ensures c >= 1 ==> (BinSize(c) >= size <==> c >= BinOf(size))
  {
    hide BinOf, BinSize;
    TightCover(size);
    LeastBinFrom(size, BinOf(size), c);
    LeastBinFrom(size, BinOf(size), MAX_BIN);
    LargestBins();
  }

  lemma LeastBinFrom(size: nat, b: nat, c: nat)
    requires b >= 1 && size <= BinSize(b) && (b > 1 ==> BinSize(b - 1) < size)
    ensures c >= 1 ==> (BinSize(c) >= size <==> c >= b)
  {
    hide BinSize;
    if 1 <= c < b {
      if c < b - 1 { BinSizeMono(c, b - 1); }
    } else if c > b {
      BinSizeMono(b, c);
    }
  }

  /** Internal waste is at most 7 bytes or a quarter of the request. */
  lemma BoundedWaste(size: nat)
    requires 1 <= size <= LARGE_MAX_OBJ_SIZE
    ensures BinSize(BinOf(size)) <= size + (if size <= 64 then 7 else size / 4)
  {
    if size > 8 * WORD {
      hide BinOf, BinSize;
      var b, q, u := Quarter(size);
      BinUnits(b, q);
      assert (5 + q) * u * WORD == (4 + q) * u * WORD + u * WORD;
      MulMono(4, 4 + q, u);
    }
  }

  /** Bins are tight: a bin's own size maps back to it, and one byte more to the next bin. */
  lemma BinsAreTight(b: nat)
    requires 1 <= b <= MAX_BIN
    ensures BinSize(b) <= LARGE_MAX_OBJ_SIZE && BinOf(BinSize(b)) == b
    ensures b < MAX_BIN ==> BinOf(BinSize(b) + 1) == b + 1
  {
    LargestBins();
    if b < MAX_BIN { BinSizeMono(b, MAX_BIN); }
    LeastBin(BinSize(b), b);
    if BinOf(BinSize(b)) < b { BinSizeMono(BinOf(BinSize(b)), b); }
    if b < MAX_BIN {
      BinSizeStep(b + 1);
      LeastBin(BinSize(b) + 1, b + 1);
      LeastBin(BinSize(b) + 1, b);
    }
  }

  lemma BinMonotone(s: nat, t: nat)
    requires s <= t <= LARGE_MAX_OBJ_SIZE
    ensures BinOf(s) <= BinOf(t)
  {
    LeastBin(t, 1);
    LeastBin(s, BinOf(t));
  }

  /** A size class keeps every power-of-two divisor of the sizes it serves. */
  lemma AlignmentByConstruction(size: nat, a: nat)
    requires 1 <= size <= LARGE_MAX_OBJ_SIZE && IsPow2(a) && (size % a == 0 || a <= WORD)
    ensures BinSize(BinOf(size)) % a == 0
  {
    assert IsPow2(WORD) && a >= 1;
    hide IsPow2, BinOf, BinSize, Pow2;
    if a <= WORD {
      Pow2Divides(a, WORD);
      DividesTrans(BinSize(BinOf(size)), WORD, a);
    } else if size <= 8 * WORD {
      Pow2Divides(WORD, a);
      DividesTrans(size, a, WORD);
      ExactBin(size);
    } else {
      var b, q, u := Quarter(size);
      BinUnits(b, q);
      Pow2IsPow2(b - 2);
      UnitIsPow2(u);
      UnitsInWords(4 + q, u);
      UnitsInWords(5 + q, u);
      AlignedInUnits(size, a, u * WORD, q);
    }
  }

  lemma UnitsInWords(n: nat, u: nat)
    ensures n * u * WORD == n * (u * WORD)
  {
  }

  lemma ExactBin(size: nat)
    requires 1 <= size <= 8 * WORD && size % WORD == 0
    ensures BinSize(BinOf(size)) == size
  {
  }

  lemma UnitIsPow2(u: nat)
    requires IsPow2(u)
    ensures IsPow2(u * WORD)
  {
    assert IsPow2(2 * u) && IsPow2(4 * u);
  }

  lemma AlignedInUnits(size: nat, a: nat, unit: nat, q: nat)
    requires IsPow2(a) && IsPow2(unit) && size % a == 0
    requires (4 + q) * unit < size <= (5 + q) * unit
    ensures ((5 + q) * unit) % a == 0
  {
    assert a >= 1 && unit >= 1;
    hide IsPow2;
    var top := (5 + q) * unit;
    ModUnique(5 + q, unit, 0);
    if a <= unit {
      Pow2Divides(a, unit);
      DividesTrans(top, unit, a);
    } else {
      Pow2Divides(unit, a);
      DividesTrans(size, a, unit);
      DividesSum(top, size, unit);
      assert top == (4 + q) * unit + unit;
      ModUnique(0, unit, top - size);
    }
  }

  // ---------------------------------------------------------------------------------------------
  // Page geometry
  // ---------------------------------------------------------------------------------------------

  lemma BlockStartBounds(blockSize: nat)
    requires blockSize >= 1
    ensures PAGE_HEADER_RESERVE <= BlockStart(blockSize) <= MAX_NATURAL_ALIGN
  {
    LowBitDivides(blockSize);
    assert IsPow2(MAX_NATURAL_ALIGN);
    var natural := LowBit(blockSize);
    HeaderRoundedUp(if natural > MAX_NATURAL_ALIGN then MAX_NATURAL_ALIGN else natural);
  }

  lemma HeaderRoundedUp(align: nat)
    requires IsPow2(align) && align <= MAX_NATURAL_ALIGN
    ensures PAGE_HEADER_RESERVE <= RoundUp(PAGE_HEADER_RESERVE, align) <= MAX_NATURAL_ALIGN
  {
    Pow2IsPow2(6);
    assert Pow2(6) == 64;
    hide IsPow2, RoundUp;
    if align <= 64 {
      Pow2Divides(align, 64);
      RoundUpLeast(64, align, 64);
    } else {
      RoundUpLeast(64, align, align);
    }
  }

  /** The block area of every bin fits its page with room for at least six blocks. */
  lemma PageGeometry(bin: nat)
    requires 1 <= bin <= MAX_BIN
    ensures var bs := BinSize(bin);
            var kind := KindOfBin(bin);
            && BlocksPerPage(kind, bs) >= 6
            && PAGE_HEADER_RESERVE <= BlockStart(bs)
            && BlockStart(bs) + BlocksPerPage(kind, bs) * bs <= PageSize(kind)
            && PageSize(kind) < BlockStart(bs) + (BlocksPerPage(kind, bs) + 1) * bs
  {
    hide BinSize, KindOfBin, BlockStart, BlocksPerPage, PageSize;
    var bs, kind := BinSize(bin), KindOfBin(bin);
    BlockStartBounds(bs);
    BinFitsKind(bin);
    RoomForSix(PageSize(kind), BlockStart(bs), bs);
    assert BlocksPerPage(kind, bs) == (PageSize(kind) - BlockStart(bs)) / bs by { BlocksPerPageIs(kind, bs); }
  }

  /** Blocks start as close behind the header as their natural alignment, up to 4096, allows. */
  lemma BlockStartLeast(blockSize: nat, s: nat)
    requires blockSize >= 1 && s >= 64
    requires forall a: nat :: IsPow2(a) && a <= 4096 && blockSize % a == 0 ==> s % a == 0
    ensures BlockStart(blockSize) <= s
  {
    LowBitDivides(blockSize);
    var natural := LowBit(blockSize);
    assert IsPow2(4096);
    hide IsPow2, RoundUp;
    if natural > MAX_NATURAL_ALIGN {
      Pow2Divides(4096, natural);
      DividesTrans(blockSize, natural, 4096);
      RoundUpLeast(PAGE_HEADER_RESERVE, 4096, s);
    } else {
      RoundUpLeast(PAGE_HEADER_RESERVE, natural, s);
    }
  }

  lemma BlocksPerPageIs(kind: PageKind, bs: nat)
    requires bs >= 1
    ensures BlocksPerPage(kind, bs) == (PageSize(kind) - BlockStart(bs)) / bs
  {
  }

  lemma BinFitsKind(bin: nat)
    requires 1 <= bin <= MAX_BIN
    ensures 6 * BinSize(bin) + MAX_NATURAL_ALIGN <= PageSize(KindOfBin(bin))
  {
    hide BinSize, Pow2;
    LargestBins();
    var cap := if bin <= SMALL_MAX_BIN then SMALL_MAX_BIN
               else if bin <= MEDIUM_MAX_BIN then MEDIUM_MAX_BIN
               else MAX_BIN;
    if bin < cap { BinSizeMono(bin, cap); }
  }

  lemma RoomForSix(page: nat, start: nat, bs: nat)
    requires bs >= 1 && 6 * bs + start <= page
    ensures (page - start) / bs >= 6
    ensures start + ((page - start) / bs) * bs <= page < start + ((page - start) / bs + 1) * bs
  {
    var area := page - start;
    assert area == (area / bs) * bs + area % bs;
    if area / bs <= 5 { MulMono(area / bs, 5, bs); }
  }

  /** A binned request lands on aligned blocks: the block size and the first block's offset are
      multiples of the alignment and the block covers the rounded size. */
  lemma ClassifyAligns(l: Layout)
    requires LayoutOk(l) && Classify(l).Bin?
    ensures var b := Classify(l).bin;
            && 1 <= b <= MAX_BINNED_BIN
            && l.size <= Rounded(l) <= BinSize(b)
            && BinSize(b) % l.align == 0
            && BlockStart(BinSize(b)) % l.align == 0
  {
    var r := Rounded(l);
    var b := Classify(l).bin;
    LeastBin(r, MAX_BINNED_BIN);
    LargestBins();
    AlignmentByConstruction(r, l.align);
    var bs := BinSize(b);
    LowBitLargest(bs, l.align);
    LowBitDivides(bs);
    Pow2IsPow2(12);
    assert Pow2(12) == 4096 by { assert Pow2(6) == 64; assert Pow2(12) == 64 * Pow2(6); }
    if LowBit(bs) > MAX_NATURAL_ALIGN {
      Pow2Divides(l.align, MAX_NATURAL_ALIGN);
      DividesTrans(BlockStart(bs), MAX_NATURAL_ALIGN, l.align);
    } else {
      DividesTrans(BlockStart(bs), LowBit(bs), l.align);
    }
  }

  /** Every byte of every block of a page masks back to the page's header, and lies in the page. */
  lemma BytesMaskToHeader(page: int, kind: PageKind, x: int)
    requires page % PageSize(kind) == 0 && page <= x < page + PageSize(kind)
    ensures HeaderOf(kind, x) == page
    ensures page / SLICE_SIZE <= x / SLICE_SIZE < page / SLICE_SIZE + PageSlices(kind)
  {
    var n := PageSize(kind);
    var q, r := page / n, x - page;
    assert page == q * n;
    assert n == PageSlices(kind) * SLICE_SIZE;
    ModUnique(q, n, r);
    hide PageSlices, PageSize;
    SliceInPage(q, PageSlices(kind), r);
  }

  /** Slice arithmetic inside a page of `k` slices. */
  lemma SliceInPage(q: int, k: nat, r: nat)
    requires r < k * SLICE_SIZE
    ensures (q * (k * SLICE_SIZE)) / SLICE_SIZE == q * k
    ensures q * k <= (q * (k * SLICE_SIZE) + r) / SLICE_SIZE < q * k + k
  {
    assert q * (k * SLICE_SIZE) == (q * k) * SLICE_SIZE;
  }

  // ---------------------------------------------------------------------------------------------
  // The direct table and the fast-path tests
  // ---------------------------------------------------------------------------------------------

  /** Word-aligned requests with equal direct indices classify alike. */
  lemma DirectSlotIsBin(size: nat)
    requires size <= DIRECT_MAX_SIZE
    ensures DirectIndex(size) < DIRECT_ENTRIES
    ensures BinOf(size) == BinOf(DirectIndex(size) * WORD)
    ensures 1 <= BinOf(size) <= DIRECT_MAX_BIN
  {
    SameWords(size, DirectIndex(size) * WORD);
    LargestBins();
    LeastBin(size, DIRECT_MAX_BIN);
    hide BinOf, BinSize;
  }

  lemma SameWords(s: nat, t: nat)
    requires CeilDiv(s, WORD) == CeilDiv(t, WORD)
    ensures BinOf(s) == BinOf(t)
  {
    hide CeilDiv, TopBit, Pow2;
    WordsAtMost(s, 1);
    WordsAtMost(t, 1);
    WordsAtMost(s, 8);
    WordsAtMost(t, 8);
    WordsAtMost(s, 65536);
    WordsAtMost(t, 65536);
  }

  lemma WordsAtMost(s: nat, k: nat)
    ensures CeilDiv(s, WORD) <= k <==> s <= k * WORD
  {
  }

  /** `direct_range`: the direct entries bin `bin` serves. */
  function DirectRange(bin: nat): (nat, nat)
    requires bin >= 1
  {
    var lo := if bin == 1 then 0 else BinSize(bin - 1) / WORD + 1;
    var hi := BinSize(bin) / WORD;
    if hi >= DIRECT_ENTRIES then (lo, DIRECT_ENTRIES - 1) else (lo, hi)
  }

  /** `direct_range` is exact: entry `i` is in the range of `bin` iff `bin` serves `i` words. */
  lemma DirectRangeExact(bin: nat, i: nat)
    requires 1 <= bin <= MAX_BIN && i < DIRECT_ENTRIES
    ensures DirectRange(bin).0 <= i <= DirectRange(bin).1 <==> BinOf(i * WORD) == bin
  {
    LeastBin(i * WORD, bin);
    if bin > 1 {
      LeastBin(i * WORD, bin - 1);
    }
    assert BinSize(bin) == (BinSize(bin) / WORD) * WORD;
    if bin > 1 {
      assert BinSize(bin - 1) == (BinSize(bin - 1) / WORD) * WORD;
    }
  }

  /** `dealloc`'s test on the unrounded size: `size <= SMALL_MAX_OBJ_SIZE & -align` holds exactly when
      the request is binned on a small page. */
  function SmallLimit(align: nat): nat
    requires align >= 1
  {
    SMALL_MAX_OBJ_SIZE - SMALL_MAX_OBJ_SIZE % align
  }

  lemma SmallTestAgrees(l: Layout)
    requires LayoutOk(l)
    ensures (l.align <= MAX_NATURAL_ALIGN && l.size <= SmallLimit(l.align))
            <==> (Classify(l).Bin? && KindOfBin(Classify(l).bin) == Small)
  {
    if l.align <= MAX_NATURAL_ALIGN {
      var r := Rounded(l);
      var m := SmallLimit(l.align);
      assert SMALL_MAX_OBJ_SIZE == (SMALL_MAX_OBJ_SIZE / l.align) * l.align + SMALL_MAX_OBJ_SIZE % l.align;
      ModUnique(SMALL_MAX_OBJ_SIZE / l.align, l.align, 0);
      if l.align <= WORD {
        Pow2IsPow2(3);
        Pow2Divides(l.align, WORD);
        DividesTrans(SMALL_MAX_OBJ_SIZE, WORD, l.align);
      } else {
        RoundUpLeast(l.size, l.align, m);
        if r <= SMALL_MAX_OBJ_SIZE && r > m {
          DividesSum(r, m, l.align);
          assert r - m < l.align;
          ModUnique(0, l.align, r - m);
        }
      }
      assert r <= SMALL_MAX_OBJ_SIZE <==> l.size <= m;
      if r <= LARGE_MAX_OBJ_SIZE {
        LeastBin(r, SMALL_MAX_BIN);
        LargestBins();
      }
    }
  }

  /** Which requests are runs, and which pages serve the others: runs above 4096 bytes of alignment or 40960 bytes
      rounded, small pages up to 10240, medium ones between. */
  lemma ClassifyBySize(l: Layout)
    requires LayoutOk(l)
    ensures Classify(l).Huge? <==> l.align > 4096 || RoundUp(l.size, l.align) > 40960
    ensures Classify(l).Bin? ==>
              KindOfBin(Classify(l).bin) == if RoundUp(l.size, l.align) <= 10240 then Small else Medium
  {
    if l.align <= MAX_NATURAL_ALIGN {
      Pow2IsPow2(12);
      assert Pow2(12) == 4096 by { assert Pow2(6) == 64; assert Pow2(12) == 64 * Pow2(6); }
      Pow2Divides(l.align, 4096);
      hide IsPow2, Pow2, BinOf, BinSize, RoundUp;
      DividesTrans(40960, 4096, l.align);
      RoundUpLeast(l.size, l.align, 40960);
      if l.align <= WORD { WordAligned(l); }
      if Rounded(l) <= 40960 {
        LeastBin(Rounded(l), SMALL_MAX_BIN);
        LeastBin(Rounded(l), MEDIUM_MAX_BIN);
        LargestBins();
      }
    }
  }

  /** Rounding to a word-sized alignment or less does not cross a multiple of a word. */
  lemma WordAligned(l: Layout)
    requires IsPow2(l.align) && 1 <= l.align <= WORD
    ensures RoundUp(l.size, l.align) <= 10240 <==> l.size <= 10240
    ensures RoundUp(l.size, l.align) <= 40960 <==> l.size <= 40960
  {
    Pow2IsPow2(3);
    Pow2Divides(l.align, WORD);
    hide IsPow2, RoundUp;
    DividesTrans(10240, WORD, l.align);
    DividesTrans(40960, WORD, l.align);
    RoundUpLeast(l.size, l.align, 10240);
    RoundUpLeast(l.size, l.align, 40960);
  }

  /** `realloc`'s shortcut: two word-aligned sizes in the same direct slot classify alike. */
  lemma SameSlotSameClass(size: nat, newSize: nat, align: nat)
    requires 1 <= align <= WORD && size <= DIRECT_MAX_SIZE && newSize <= DIRECT_MAX_SIZE
    requires DirectIndex(size) == DirectIndex(newSize)
    ensures Classify(Layout(size, align)) == Classify(Layout(newSize, align)) == Bin(BinOf(size))
  {
    DirectSlotIsBin(size);
    DirectSlotIsBin(newSize);
  }

  /** The size the allocation fast path indexes the direct table with; nothing serves an alignment above
      `MAX_NATURAL_ALIGN` from a page. */
  function DirectSize(l: Layout): nat
    requires l.align >= 1
  {
    if l.align <= WORD then l.size
    else if l.align <= MAX_NATURAL_ALIGN then RoundUp(l.size, l.align)
    else USIZE_MAX
  }

  /** The fast path's size test and slot agree with `classify`. */
  lemma DirectAgrees(l: Layout)
    requires LayoutOk(l)
    ensures DirectSize(l) <= DIRECT_MAX_SIZE <==> Classify(l).Bin? && Classify(l).bin <= DIRECT_MAX_BIN
    ensures DirectSize(l) <= DIRECT_MAX_SIZE ==>
              DirectIndex(DirectSize(l)) < DIRECT_ENTRIES
              && Classify(l) == Bin(BinOf(DirectIndex(DirectSize(l)) * WORD))
  {
    if Classify(l).Bin? {
      LeastBin(Rounded(l), DIRECT_MAX_BIN);
      LargestBins();
      hide IsPow2, BinOf, BinSize;
      if Rounded(l) <= DIRECT_MAX_SIZE { DirectSlotIsBin(Rounded(l)); }
    }
  }

  /** The test for resizing a binned block by changing nothing but its Layout. */
  predicate FitsInPlace(oldBin: nat, newBin: nat, newSize: nat)
    requires oldBin >= 1
  {
    newBin == oldBin || (newBin < oldBin && KindOfBin(newBin) == KindOfBin(oldBin) && newSize >= BinSize(oldBin) / 2)
  }

  /** The in-place decision: kept are the requests of the same bin and those of a smaller one on the same kind of
      page that ask for at least half of the old bin. They fit the old bin, and a request that outgrew it is
      never among them. */
  lemma FitsInPlaceIsSafe(l: Layout, newSize: nat)
    requires LayoutOk(l) && LayoutOk(Layout(newSize, l.align))
    requires Classify(l).Bin? && Classify(Layout(newSize, l.align)).Bin?
    ensures var o, n := Classify(l).bin, Classify(Layout(newSize, l.align)).bin;
            && o >= 1
            && (FitsInPlace(o, n, newSize) <==>
                  n == o || (n < o && KindOfBin(n) == KindOfBin(o) && 2 * newSize >= BinSize(o)))
            && (FitsInPlace(o, n, newSize) ==> n <= o && KindOfBin(n) == KindOfBin(o) && newSize <= BinSize(o))
            && (Rounded(Layout(newSize, l.align)) > BinSize(o) ==> !FitsInPlace(o, n, newSize))
  {
    hide BinOf, BinSize, IsPow2, BlockStart, KindOfBin, RoundUp;
    var m := Layout(newSize, l.align);
    LeastBin(Rounded(l), 1);
    LeastBin(Rounded(m), Classify(l).bin);
    ClassifyAligns(m);
    HalfIs(BinSize(Classify(l).bin), newSize);
  }

  lemma HalfIs(b: nat, n: nat)
    requires b % WORD == 0
    ensures n >= b / 2 <==> 2 * n >= b
  {
  }
}
