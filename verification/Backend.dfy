/** Linear memory as the allocator sees it: bytes, page headers and an end that only moves up. */
module Backend {
  import opened Arithmetic
  import opened Bins
  import opened SliceMaps

  type Byte = b: int | 0 <= b < 256

  /** Bytes of a `usize`, the width of a free-list link. */
  const LINK := 4

  /** The part of a page header that page.rs owns. */
  datatype Page = Page(
    free: int, used: int, capacity: int, reserved: int, blockSize: int, blockStart: int,
    freeIsZero: bool, bin: int, kind: PageKind)

  /** The part of a page header that the heap owns: queue links, the full flag, the countdown. */
  datatype Links = Links(next: int, prev: int, inFull: bool, retireExpire: int)

  /** A grow event, for the log: where memory ended, how much was requested, where the grant began unless it
      was refused, and a snapshot of all page headers. */
  datatype GrowEvent = GrowEvent(end: nat, want: nat, start: Option<nat>, pages: map<int, Page>)

  // ---------------------------------------------------------------------------------------------
  // Contents
  // ---------------------------------------------------------------------------------------------

  /** The byte at address `x`; addresses never written hold zero. */
  function At(bytes: map<int, Byte>, x: int): Byte {
    if x in bytes then bytes[x] else 0
  }

  /** The bytes of `[a, a + n)` replaced by those of `value`. */
  function Overwritten(bytes: map<int, Byte>, a: int, value: seq<Byte>): (r: map<int, Byte>)
    ensures forall x :: At(r, x) == if a <= x < a + |value| then value[x - a] else At(bytes, x)
  {
    map x | x in bytes.Keys + Range(a, |value|) :: if a <= x < a + |value| then value[x - a] else bytes[x]
  }

  /** `[a, a + n)` zeroed. */
  function Zeroed(bytes: map<int, Byte>, a: int, n: nat): (r: map<int, Byte>)
    ensures forall x :: At(r, x) == if a <= x < a + n then 0 else At(bytes, x)
  {
    map x | x in bytes && !(a <= x < a + n) :: bytes[x]
  }

  /** The `n` bytes at `a`. */
  function Slice(bytes: map<int, Byte>, a: int, n: nat): (r: seq<Byte>)
    ensures |r| == n && forall i :: 0 <= i < n ==> r[i] == At(bytes, a + i)
  {
    seq<Byte>(n, i => At(bytes, a + i))
  }

  /** Little-endian encoding of a 32-bit address, and its inverse. */
  function Encode(v: int): seq<Byte>
    requires 0 <= v <= USIZE_MAX
  {
    [v % 256, v / 256 % 256, v / 256 / 256 % 256, v / 256 / 256 / 256]
  }

  function ReadWord(bytes: map<int, Byte>, a: int): int {
    At(bytes, a) + 256 * At(bytes, a + 1) + 65536 * At(bytes, a + 2) + 16777216 * At(bytes, a + 3)
  }

  function WriteWord(bytes: map<int, Byte>, a: int, v: int): (r: map<int, Byte>)
    requires 0 <= v <= USIZE_MAX
    ensures forall x :: x < a || a + LINK <= x ==> At(r, x) == At(bytes, x)
    ensures ReadWord(r, a) == v
    ensures v == 0 ==> forall x :: a <= x < a + LINK ==> At(r, x) == 0
  {
    var r := Overwritten(bytes, a, Encode(v));
    DecodeEncode(v);
    r
  }

  lemma DecodeEncode(v: int)
    requires 0 <= v <= USIZE_MAX
    ensures var e := Encode(v);
            (e[0] as int) + 256 * (e[1] as int) + 65536 * (e[2] as int) + 16777216 * (e[3] as int) == v
    ensures v == 0 ==> Encode(v) == [0, 0, 0, 0]
  {
    var a := v / 256;
    var b := a / 256;
    var c := b / 256;
    assert v == 256 * a + v % 256 && a == 256 * b + a % 256 && b == 256 * c + b % 256;
  }

  /** A word read depends on its own bytes only. */
  lemma ReadElsewhere(b: map<int, Byte>, c: map<int, Byte>, a: int)
    requires forall x :: a <= x < a + LINK ==> At(c, x) == At(b, x)
    ensures ReadWord(c, a) == ReadWord(b, a)
  {
  }

  // ---------------------------------------------------------------------------------------------
  // The memory
  // ---------------------------------------------------------------------------------------------

  /** The only promise a `Memory` makes: what lies above the heap base when that is first read, and fresh,
      zero-filled slices at or above the end for each `grow`, or a refusal. Other parties may grow the same
      memory at any time, so the end may move up between any two calls, the first one included. */
  class Memory {
    /** Least heap base, and greatest end, this memory can have when the base is first read. */
    const lowestBase: nat
    const openLimit: nat
    var heapBase: nat
    var size: nat
    var bytes: map<int, Byte>
    var pages: map<int, Page>
    var links: map<int, Links>
    /** Every slice that is the allocator's to use: the gap above the heap base and each grant. */
    ghost var granted: set<int>
    ghost var log: seq<GrowEvent>

    ghost predicate Valid()
      reads this`size, this`granted, this`heapBase
    {
      && size <= MAX_SLICE_INDEX + 1
      && lowestBase <= heapBase <= size * SLICE_SIZE && heapBase <= USIZE_MAX
      && forall s :: s in granted ==> CeilDiv(heapBase, SLICE_SIZE) <= s < size
    }

    constructor (lowestBase: nat, openLimit: nat, size: nat)
      requires size <= openLimit <= MAX_SLICE_INDEX + 1 && lowestBase <= size * SLICE_SIZE && lowestBase <= USIZE_MAX
      ensures Valid() && this.lowestBase == lowestBase && this.openLimit == openLimit && this.size == size
      ensures bytes == map[] && pages == map[] && links == map[] && log == [] && granted == {}
    {
      this.lowestBase := lowestBase;
      this.openLimit := openLimit;
      this.heapBase := lowestBase;
      this.size := size;
      bytes := map[];
      pages := map[];
      links := map[];
      log := [];
      granted := {};
    }

    /** The allocator reads the heap base, once. It may depend on the state of memory at that moment, and
        everything from it to the end of memory becomes the allocator's. */
    method Open() returns (base: nat, end: nat)
      requires Valid() && granted == {} && size <= openLimit <= MAX_SLICE_INDEX + 1
      modifies this`size, this`heapBase, this`granted
      ensures Valid() && base == heapBase && end == size && old(size) <= size <= openLimit
      ensures var first := CeilDiv(heapBase, SLICE_SIZE); granted == Range(first, size - first)
    {
      var other: nat :| size + other <= openLimit;
      size := size + other;
      var read: nat :| lowestBase <= read <= size * SLICE_SIZE && read <= USIZE_MAX;
      heapBase := read;
      var first := CeilDiv(heapBase, SLICE_SIZE);
      granted := Range(first, size - first);
      base, end := heapBase, size;
    }

    /** Current end of memory; someone else may have grown it. */
    method SizeSlices() returns (end: nat)
      requires Valid()
      modifies this`size
      ensures Valid() && end == size && size >= old(size)
    {
      var other: nat :| size + other <= MAX_SLICE_INDEX + 1;
      size := size + other;
      end := size;
    }

    /** Grow by `want` slices. */
    method Grow(want: nat) returns (start: Option<nat>)
      requires Valid()
      modifies this`size, this`bytes, this`granted, this`log
      ensures Valid() && size >= old(size)
      ensures log == old(log) + [GrowEvent(old(size), want, start, pages)]
      ensures start.None? ==> granted == old(granted) && bytes == old(bytes) && size == old(size)
      ensures start.Some? ==>
                && old(size) <= start.value && start.value + want == size
                && granted == old(granted) + Range(start.value, want)
                && forall x :: At(bytes, x) ==
                     if start.value * SLICE_SIZE <= x < size * SLICE_SIZE then 0 else At(old(bytes), x)
    {
      var other: nat, refuse: bool := *, *;
      if refuse || size + other + want > MAX_SLICE_INDEX + 1 {
        log := log + [GrowEvent(size, want, None, pages)];
        return None;
      }
      start := Some(size + other);
      log := log + [GrowEvent(size, want, start, pages)];
      size := size + other + want;
      granted := granted + Range(start.value, want);
      bytes := Zeroed(bytes, start.value * SLICE_SIZE, want * SLICE_SIZE);
    }
  }
}
