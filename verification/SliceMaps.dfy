/** The slice map. Two bitmaps stand for two sets of absolute slice indices, those free to hand out and those
    among them never written to; each word-level operation is proved to do to the sets what its name says. */
module SliceMaps {
  import opened Arithmetic
  import opened Words

  const MAX_SLICE_INDEX := 65535

  datatype Option<+T> = None | Some(value: T)

  /** A run of slices handed out; `zeroed` says all of it was still known zero. */
  datatype Run = Run(start: int, zeroed: bool)

  predicate Within(s: int, start: int, count: int) {
    start <= s < start + count
  }

  function Range(start: int, count: int): set<int> {
    set s | start <= s < start + count && Within(s, start, count)
  }

  /** `[start, start + count)` is free and starts at a multiple of `align`. */
  ghost predicate Fits(free: set<int>, start: int, count: nat, align: nat)
    requires align >= 1
  {
    start % align == 0 && forall s :: start <= s < start + count ==> s in free
  }

  /** `start` is the lowest-addressed fit. */
  ghost predicate LowestFit(free: set<int>, start: int, count: nat, align: nat)
    requires align >= 1
  {
    Fits(free, start, count, align) && forall t :: t < start ==> !Fits(free, t, count, align)
  }

  ghost predicate NoFit(free: set<int>, count: nat, align: nat)
    requires align >= 1
  {
    forall t :: !Fits(free, t, count, align)
  }

  /** The outcome of a request against the slices `free` and `zero`: the lowest-addressed aligned run, with
      only its bits gone, or nothing when there is none. */
  ghost predicate Served(r: Option<Run>, count: nat, align: nat, free: set<int>, zero: set<int>,
                         freeNow: set<int>, zeroNow: set<int>)
    requires align >= 1
  {
    match r
    case None => NoFit(free, count, align) && freeNow == free && zeroNow == zero
    case Some(run) =>
      && LowestFit(free, run.start, count, align)
      && freeNow == free - Range(run.start, count)
      && zeroNow == zero - Range(run.start, count)
      && (run.zeroed <==> Range(run.start, count) <= zero)
  }

  /** Bit `rel` of a bitmap is set; false outside it. */
  ghost predicate Holds(bits: array<bv64>, rel: int)
    reads bits
  {
    0 <= rel < bits.Length * BITS && Bit(bits[rel / BITS], rel % BITS)
  }

  /** The set bits of a bitmap, by index. */
  ghost function Held(bits: array<bv64>): set<int>
    reads bits
  {
    set i | 0 <= i < bits.Length * BITS && Holds(bits, i)
  }

  lemma HeldIs(bits: array<bv64>)
    ensures forall i :: i in Held(bits) <==> Holds(bits, i)
  {
    hide Bit;
  }

  // ---------------------------------------------------------------------------------------------
  // Range operations, one word at a time
  // ---------------------------------------------------------------------------------------------

  /** A word's masked bits are all set exactly when the range they stand for is. */
  lemma MaskedWord(bits: array<bv64>, w: nat, bit: nat, n: nat)
    requires w < bits.Length && n >= 1 && bit + n <= BITS
    ensures AndW(bits[w], Mask(bit, n)) == Mask(bit, n)
            <==> forall i :: w * BITS + bit <= i < w * BITS + bit + n ==> Holds(bits, i)
  {
    hide Mask, Bit, AndW;
    TestMask(bits[w], bit, n);
    if AndW(bits[w], Mask(bit, n)) != Mask(bit, n) {
      var k: nat :| bit <= k < bit + n && !Bit(bits[w], k);
      assert !Holds(bits, w * BITS + k);
    }
  }

  /** `bits[w] |= mask(bit, n)`. */
  method OrWord(bits: array<bv64>, w: nat, bit: nat, n: nat)
    requires w < bits.Length && n >= 1 && bit + n <= BITS
    modifies bits
    ensures forall i :: Holds(bits, i) <==> old(Holds(bits, i)) || w * BITS + bit <= i < w * BITS + bit + n
  {
    hide Mask, Bit, OrW;
    OrMask(bits[w], bit, n);
    bits[w] := OrW(bits[w], Mask(bit, n));
  }

  /** `bits[w] &= !mask(bit, n)`. */
  method AndNotWord(bits: array<bv64>, w: nat, bit: nat, n: nat)
    requires w < bits.Length && n >= 1 && bit + n <= BITS
    modifies bits
    ensures forall i :: Holds(bits, i) <==> old(Holds(bits, i)) && !(w * BITS + bit <= i < w * BITS + bit + n)
  {
    hide Mask, Bit, AndW, NotW;
    AndNotMask(bits[w], bit, n);
    bits[w] := AndW(bits[w], NotW(Mask(bit, n)));
  }

  /** How many bits of `[pos, end)` lie in the word of `pos`. */
  function InWord(pos: nat, end: nat): (n: nat)
    requires pos < end
    ensures n >= 1 && pos % BITS + n <= BITS && pos + n <= end
  {
    if BITS - pos % BITS < end - pos then BITS - pos % BITS else end - pos
  }

  /** Every bit of `[rel, rel + count)` is set; false for a range that leaves the bitmap. */
  method AllSet(bits: array<bv64>, rel: nat, count: nat) returns (r: bool)
    ensures r <==> forall i :: rel <= i < rel + count ==> Holds(bits, i)
  {
    hide Holds, Mask, AndW;
    var pos := rel;
    while pos < rel + count
      invariant rel <= pos <= rel + count
      invariant forall i :: rel <= i < pos ==> Holds(bits, i)
    {
      var w, bit, n := pos / BITS, pos % BITS, InWord(pos, rel + count);
      if w >= bits.Length {
        OutsideBitmap(bits, pos);
        return false;
      }
      MaskedWord(bits, w, bit, n);
      if AndW(bits[w], Mask(bit, n)) != Mask(bit, n) {
        return false;
      }
      pos := pos + n;
    }
    return true;
  }

  lemma OutsideBitmap(bits: array<bv64>, i: int)
    requires i / BITS >= bits.Length
    ensures !Holds(bits, i)
  {
  }

  /** Set every bit of `[rel, rel + count)`, which must lie inside the bitmap. */
  method SetRange(bits: array<bv64>, rel: nat, count: nat)
    requires rel + count <= bits.Length * BITS
    modifies bits
    ensures Held(bits) == old(Held(bits)) + Range(rel, count)
  {
    hide Holds;
    HeldIs(bits);
    var pos := rel;
    while pos < rel + count
      invariant rel <= pos <= rel + count
      invariant forall i :: Holds(bits, i) <==> old(Holds(bits, i)) || rel <= i < pos
    {
      var n := InWord(pos, rel + count);
      OrWord(bits, pos / BITS, pos % BITS, n);
      pos := pos + n;
    }
    HeldIs(bits);
    hide Held;
  }

  // ---------------------------------------------------------------------------------------------
  // Searches over relative indices
  // ---------------------------------------------------------------------------------------------

  /** The absolute index of `rel` is a multiple of `align`. */
  predicate Aligned(base: int, rel: int, align: nat)
    requires align >= 1
  {
    (base + rel) % align == 0
  }

  /** `[rel, rel + count)` is all set and its absolute start `base + rel` is a multiple of `align`. */
  ghost predicate FitsAt(bits: array<bv64>, base: int, rel: int, count: nat, align: nat)
    requires align >= 1
    reads bits
  {
    Aligned(base, rel, align) && forall i :: rel <= i < rel + count ==> Holds(bits, i)
  }

  /** What every search returns: the lowest fit, or nothing when there is none. */
  ghost predicate Lowest(bits: array<bv64>, base: int, r: Option<nat>, count: nat, align: nat)
    requires align >= 1
    reads bits
  {
    match r
    case Some(rel) => FitsAt(bits, base, rel, count, align)
                      && forall t :: t < rel ==> !FitsAt(bits, base, t, count, align)
    case None => forall t :: !FitsAt(bits, base, t, count, align)
  }

  /** No bit below `pos` is set. */
  ghost predicate EmptyBelow(bits: array<bv64>, pos: int)
    reads bits
  {
    forall i :: i in Held(bits) ==> pos <= i
  }

  lemma BitIsHeld(bits: array<bv64>, w: nat, k: nat)
    requires w < bits.Length && k < BITS
    ensures Holds(bits, w * BITS + k) <==> Bit(bits[w], k)
  {
    hide Bit;
    assert (w * BITS + k) / BITS == w && (w * BITS + k) % BITS == k;
  }

  lemma NibbleHit(bits: array<bv64>, w: nat, k: nat)
    requires w < bits.Length && k < BITS
    ensures Bit(FullNibbles(bits[w]), k)
            <==> k % 4 == 0 && forall i :: w * BITS + k <= i < w * BITS + k + 4 ==> Holds(bits, i)
  {
    hide Bit, FullNibbles, Holds;
    NibbleBit(bits[w], k);
    if k % 4 == 0 {
      BitIsHeld(bits, w, k); BitIsHeld(bits, w, k + 1); BitIsHeld(bits, w, k + 2); BitIsHeld(bits, w, k + 3);
    }
  }

  lemma ByteHit(bits: array<bv64>, w: nat, k: nat)
    requires w < bits.Length && k < BITS
    ensures Bit(FullBytes(bits[w]), k)
            <==> k % 8 == 0 && forall i :: w * BITS + k <= i < w * BITS + k + 8 ==> Holds(bits, i)
  {
    hide Bit, FullBytes, Holds;
    ByteBit(bits[w], k);
    if k % 8 == 0 {
      BitIsHeld(bits, w, k); BitIsHeld(bits, w, k + 1); BitIsHeld(bits, w, k + 2); BitIsHeld(bits, w, k + 3);
      BitIsHeld(bits, w, k + 4); BitIsHeld(bits, w, k + 5); BitIsHeld(bits, w, k + 6); BitIsHeld(bits, w, k + 7);
    }
  }

  lemma WordHit(bits: array<bv64>, w: nat)
    requires w < bits.Length
    ensures bits[w] == ALL_ONES <==> forall i :: w * BITS <= i < w * BITS + BITS ==> Holds(bits, i)
  {
    hide Bit;
    FullWord(bits[w]);
    if bits[w] != ALL_ONES {
      var k: nat :| k < 64 && !Bit(bits[w], k);
      BitIsHeld(bits, w, k);
      assert !Holds(bits, w * BITS + k);
    }
  }

  /** Extend "no fit below this word" past a word whose folded value is zero. */
  ghost predicate NoFitBelow(bits: array<bv64>, base: int, pos: int, n: nat)
    requires n >= 1
    reads bits
  {
    forall t :: FitsAt(bits, base, t, n, n) ==> pos <= t
  }

  lemma EmptyMeansNoFit(bits: array<bv64>, base: int, pos: int, n: nat)
    requires n >= 1 && EmptyBelow(bits, pos)
    ensures NoFitBelow(bits, base, pos, n)
  {
    hide Holds;
    HeldIs(bits);
    forall t | FitsAt(bits, base, t, n, n) ensures pos <= t { assert Holds(bits, t); }
  }

  /** `hits` has a bit for every fit starting in word `w`; none below `upto` means no fit there. */
  lemma WordWithoutHit(bits: array<bv64>, base: int, w: nat, n: nat, hits: bv64, upto: nat)
    requires base % BITS == 0 && n >= 1 && upto <= BITS && w < bits.Length
    requires NoFitBelow(bits, base, w * BITS, n)
    requires forall k: nat | k < BITS :: FitsAt(bits, base, w * BITS + k, n, n) ==> Bit(hits, k)
    requires forall k: nat | k < upto :: !Bit(hits, k)
    ensures NoFitBelow(bits, base, w * BITS + upto, n)
  {
    hide Holds, Bit, FitsAt;
    forall t
      ensures FitsAt(bits, base, t, n, n) ==> w * BITS + upto <= t
    {
      if w * BITS <= t < w * BITS + upto {
        var k := t - w * BITS;
        assert !Bit(hits, k);
        assert !FitsAt(bits, base, w * BITS + k, n, n);
      }
    }
  }

  /** Lowest free slice. */
  method FindSingle(bits: array<bv64>, base: nat, hint: nat) returns (r: Option<nat>)
    requires base % BITS == 0 && hint <= bits.Length && EmptyBelow(bits, hint * BITS)
    ensures Lowest(bits, base, r, 1, 1)
  {
    hide Bit, Holds, EmptyBelow, FitsAt;
    EmptyMeansNoFit(bits, base, hint * BITS, 1);
    var w := hint;
    while w < bits.Length
      invariant hint <= w <= bits.Length
      invariant NoFitBelow(bits, base, w * BITS, 1)
    {
      var b := bits[w];
      forall k: nat | k < BITS
        ensures FitsAt(bits, base, w * BITS + k, 1, 1) <==> Bit(b, k) { SingleHit(bits, base, w, k); }
      ZeroWord(b);
      if b != 0 {
        var k := TrailingZeros(b);
        WordWithoutHit(bits, base, w, 1, b, k);
        return Some(w * BITS + k);
      }
      WordWithoutHit(bits, base, w, 1, b, BITS);
      w := w + 1;
    }
    NoFitAbove(bits, base, 1);
    return None;
  }

  lemma SingleHit(bits: array<bv64>, base: nat, w: nat, k: nat)
    requires w < bits.Length && k < BITS
    ensures FitsAt(bits, base, w * BITS + k, 1, 1) <==> Bit(bits[w], k)
  {
    hide Bit, Holds;
    BitIsHeld(bits, w, k);
  }

  lemma NoFitAbove(bits: array<bv64>, base: nat, n: nat)
    requires n >= 1 && NoFitBelow(bits, base, bits.Length * BITS, n)
    ensures forall t :: !FitsAt(bits, base, t, n, n)
  {
    hide Bit;
    forall t ensures !FitsAt(bits, base, t, n, n) {
      assert t >= bits.Length * BITS ==> !Holds(bits, t);
    }
  }

  /** The search for four slices aligned to four, a word at a time. */
  method FindNibble(bits: array<bv64>, base: nat, hint: nat) returns (r: Option<nat>)
    requires base % BITS == 0 && hint <= bits.Length && EmptyBelow(bits, hint * BITS)
    ensures Lowest(bits, base, r, 4, 4)
  {
    hide Bit, Holds, EmptyBelow, FitsAt, FullNibbles;
    EmptyMeansNoFit(bits, base, hint * BITS, 4);
    var w := hint;
    while w < bits.Length
      invariant hint <= w <= bits.Length
      invariant NoFitBelow(bits, base, w * BITS, 4)
    {
      var x := FullNibbles(bits[w]);
      forall k: nat | k < BITS
        ensures FitsAt(bits, base, w * BITS + k, 4, 4) <==> Bit(x, k) { NibbleFit(bits, base, w, k); }
      ZeroWord(x);
      if x != 0 {
        var k := TrailingZeros(x);
        WordWithoutHit(bits, base, w, 4, x, k);
        return Some(w * BITS + k);
      }
      WordWithoutHit(bits, base, w, 4, x, BITS);
      w := w + 1;
    }
    NoFitAbove(bits, base, 4);
    return None;
  }

  lemma NibbleFit(bits: array<bv64>, base: nat, w: nat, k: nat)
    requires base % BITS == 0 && w < bits.Length && k < BITS
    ensures FitsAt(bits, base, w * BITS + k, 4, 4) <==> Bit(FullNibbles(bits[w]), k)
  {
    hide Bit, Holds, FullNibbles;
    NibbleHit(bits, w, k);
    assert (base + (w * BITS + k)) % 4 == k % 4;
  }

  /** The search for eight slices aligned to eight, a word at a time. */
  method FindByte(bits: array<bv64>, base: nat, hint: nat) returns (r: Option<nat>)
    requires base % BITS == 0 && hint <= bits.Length && EmptyBelow(bits, hint * BITS)
    ensures Lowest(bits, base, r, 8, 8)
  {
    hide Bit, Holds, EmptyBelow, FitsAt, FullBytes;
    EmptyMeansNoFit(bits, base, hint * BITS, 8);
    var w := hint;
    while w < bits.Length
      invariant hint <= w <= bits.Length
      invariant NoFitBelow(bits, base, w * BITS, 8)
    {
      var x := FullBytes(bits[w]);
      forall k: nat | k < BITS
        ensures FitsAt(bits, base, w * BITS + k, 8, 8) <==> Bit(x, k) { ByteFit(bits, base, w, k); }
      ZeroWord(x);
      if x != 0 {
        var k := TrailingZeros(x);
        WordWithoutHit(bits, base, w, 8, x, k);
        return Some(w * BITS + k);
      }
      WordWithoutHit(bits, base, w, 8, x, BITS);
      w := w + 1;
    }
    NoFitAbove(bits, base, 8);
    return None;
  }

  lemma ByteFit(bits: array<bv64>, base: nat, w: nat, k: nat)
    requires base % BITS == 0 && w < bits.Length && k < BITS
    ensures FitsAt(bits, base, w * BITS + k, 8, 8) <==> Bit(FullBytes(bits[w]), k)
  {
    hide Bit, Holds, FullBytes;
    ByteHit(bits, w, k);
    assert (base + (w * BITS + k)) % 8 == k % 8;
  }

  /** The search for sixty-four slices aligned to sixty-four. */
  method FindWord(bits: array<bv64>, base: nat, hint: nat) returns (r: Option<nat>)
    requires base % BITS == 0 && hint <= bits.Length && EmptyBelow(bits, hint * BITS)
    ensures Lowest(bits, base, r, 64, 64)
  {
    hide Bit, Holds, EmptyBelow;
    EmptyMeansNoFit(bits, base, hint * BITS, 64);
    var w := hint;
    while w < bits.Length
      invariant hint <= w <= bits.Length
      invariant NoFitBelow(bits, base, w * BITS, 64)
    {
      WordHit(bits, w);
      if bits[w] == ALL_ONES {
        return Some(w * BITS);
      }
      assert NoFitBelow(bits, base, (w + 1) * BITS, 64) by {
        forall t
          ensures FitsAt(bits, base, t, 64, 64) ==> (w + 1) * BITS <= t
        {
          if t == w * BITS { assert !FitsAt(bits, base, t, 64, 64); }
          if w * BITS < t < (w + 1) * BITS { assert (base + t) % 64 != 0; }
        }
      }
      w := w + 1;
    }
    NoFitAbove(bits, base, 64);
    return None;
  }

  // ---------------------------------------------------------------------------------------------
  // Runs: the next set bit, the next clear bit, the previous clear bit
  // ---------------------------------------------------------------------------------------------

  /** Lowest set bit at or above `pos`. */
  method NextSet(bits: array<bv64>, pos: nat) returns (r: Option<nat>)
    ensures match r
            case Some(i) => pos <= i && Holds(bits, i) && forall j :: pos <= j < i ==> !Holds(bits, j)
            case None => forall j :: pos <= j ==> !Holds(bits, j)
  {
    hide Bit, Shl, AndW, Holds;
    var w := pos / BITS;
    if w >= bits.Length {
      forall j | pos <= j ensures !Holds(bits, j) { OutsideBitmap(bits, j); }
      return None;
    }
    FromBit(bits[w], pos % BITS);
    var b := AndW(bits[w], Shl(ALL_ONES, pos % BITS));
    while true
      invariant w < bits.Length && pos <= w * BITS + 63
      invariant forall j :: pos <= j < w * BITS ==> !Holds(bits, j)
      invariant forall k: nat | k < 64 :: Bit(b, k) <==> Bit(bits[w], k) && pos <= w * BITS + k
      decreases bits.Length - w
    {
      ZeroWord(b);
      WordBits(bits, w);
      if b != 0 {
        r := Some(w * BITS + TrailingZeros(b));
        return;
      }
      assert forall j :: pos <= j < (w + 1) * BITS ==> !Holds(bits, j);
      w := w + 1;
      if w >= bits.Length {
        forall j | pos <= j ensures !Holds(bits, j) { if j >= w * BITS { OutsideBitmap(bits, j); } }
        return None;
      }
      b := bits[w];
    }
  }

  lemma WordBits(bits: array<bv64>, w: nat)
    requires w < bits.Length
    ensures forall j :: w * BITS <= j < w * BITS + BITS ==> (Holds(bits, j) <==> Bit(bits[w], j - w * BITS))
  {
    hide Bit, Holds;
    forall j | w * BITS <= j < w * BITS + BITS
      ensures Holds(bits, j) <==> Bit(bits[w], j - w * BITS)
    {
      BitIsHeld(bits, w, j - w * BITS);
    }
  }

  /** Lowest clear bit at or above `pos`, or the capacity. */
  method NextClear(bits: array<bv64>, pos: nat) returns (r: nat)
    requires pos <= bits.Length * BITS
    ensures pos <= r <= bits.Length * BITS && !Holds(bits, r)
    ensures forall j :: pos <= j < r ==> Holds(bits, j)
  {
    hide Bit, Shl, OrW, NotW, Holds;
    var w := pos / BITS;
    if w >= bits.Length {
      OutsideBitmap(bits, bits.Length * BITS);
      return bits.Length * BITS;
    }
    FilledBelow(bits[w], pos % BITS);
    var b := OrW(bits[w], NotW(Shl(ALL_ONES, pos % BITS)));
    while true
      invariant w < bits.Length && pos <= w * BITS + 63
      invariant forall j :: pos <= j < w * BITS ==> Holds(bits, j)
      invariant forall k: nat | k < 64 :: Bit(b, k) <==> Bit(bits[w], k) || w * BITS + k < pos
      decreases bits.Length - w
    {
      FullWord(b);
      WordBits(bits, w);
      if b != ALL_ONES {
        NotBits(b);
        ClearExists(b);
        r := w * BITS + TrailingZeros(NotW(b));
        assert !Bit(b, TrailingZeros(NotW(b)));
        forall j | pos <= j < r ensures Holds(bits, j) {
          if w * BITS <= j { assert !Bit(NotW(b), j - w * BITS); }
        }
        return;
      }
      assert forall j :: pos <= j < (w + 1) * BITS ==> Holds(bits, j);
      w := w + 1;
      if w >= bits.Length {
        OutsideBitmap(bits, bits.Length * BITS);
        return bits.Length * BITS;
      }
      b := bits[w];
    }
  }

  lemma ClearExists(b: bv64)
    requires b != ALL_ONES
    ensures NotW(b) != 0
  {
  }

  /** Highest clear bit strictly below `pos`. */
  method PrevClear(bits: array<bv64>, pos: nat) returns (r: Option<nat>)
    requires pos <= bits.Length * BITS
    ensures match r
            case Some(i) => i < pos && !Holds(bits, i) && forall j :: i < j < pos ==> Holds(bits, j)
            case None => forall j :: 0 <= j < pos ==> Holds(bits, j)
  {
    hide Bit, Shr, AndW, NotW, Holds;
    if pos == 0 {
      return None;
    }
    var w := (pos - 1) / BITS;
    ClearUpTo(bits[w], 63 - (pos - 1) % BITS);
    var b := AndW(NotW(bits[w]), Shr(ALL_ONES, 63 - (pos - 1) % BITS));
    while true
      invariant w < bits.Length && w * BITS < pos
      invariant forall j :: (w + 1) * BITS <= j < pos ==> Holds(bits, j)
      invariant forall k: nat | k < 64 :: Bit(b, k) <==> !Bit(bits[w], k) && w * BITS + k < pos
      decreases w
    {
      ZeroWord(b);
      WordBits(bits, w);
      if b != 0 {
        var k := HighestBit(b);
        forall j | w * BITS + k < j < pos ensures Holds(bits, j) {
          if j < (w + 1) * BITS { assert !Bit(b, j - w * BITS); }
        }
        return Some(w * BITS + k);
      }
      assert forall j :: w * BITS <= j < pos ==> Holds(bits, j) by {
        forall j | w * BITS <= j < pos ensures Holds(bits, j) {
          if j < (w + 1) * BITS { assert !Bit(b, j - w * BITS); }
        }
      }
      if w == 0 {
        return None;
      }
      w := w - 1;
      NotBits(bits[w]);
      b := NotW(bits[w]);
    }
  }

  // ---------------------------------------------------------------------------------------------
  // The general first-fit scan and the free tail
  // ---------------------------------------------------------------------------------------------

  /** The next aligned place, `rel` itself included, where alignment is judged on absolute indices. Nothing is
      returned only when that place is no `usize`. */
  function AlignUp(base: nat, rel: nat, align: nat): (r: Option<nat>)
    requires align >= 1
    ensures r.Some? ==> rel <= r.value && Aligned(base, r.value, align)
    ensures forall t :: rel <= t && Aligned(base, t, align)
              ==> t >= (if r.Some? then r.value else USIZE_MAX + 1)
  {
    var over := (base + rel) % align;
    NextMultiple(base, rel, align);
    if over == 0 then Some(rel)
    else if rel + (align - over) > USIZE_MAX then None
    else Some(rel + (align - over))
  }

  lemma NextMultiple(base: nat, rel: nat, align: nat)
    requires align >= 1
    ensures var over := (base + rel) % align;
            var up := if over == 0 then rel else rel + (align - over);
            && Aligned(base, up, align)
            && forall t :: rel <= t && Aligned(base, t, align) ==> up <= t
  {
    var up := RoundUp(base + rel, align) - base;
    forall t | rel <= t && Aligned(base, t, align)
      ensures up <= t
    {
      RoundUpLeast(base + rel, align, base + t);
    }
  }

  /** The search for any length and alignment, over maximal runs of set bits. */
  method FindGeneral(bits: array<bv64>, base: nat, hint: nat, count: nat, align: nat) returns (r: Option<nat>)
    requires hint <= bits.Length && EmptyBelow(bits, hint * BITS)
    requires count >= 1 && align >= 1 && bits.Length * BITS <= MAX_SLICE_INDEX + 1
    ensures Lowest(bits, base, r, count, align)
  {
    hide Bit, Holds, EmptyBelow, FitsAt, Aligned, AlignUp, NoStartBelow;
    if count > bits.Length * BITS {
      TooLong(bits, base, count, align);
      return None;
    }
    var pos := hint * BITS;
    EmptyMeansNoStart(bits, base, pos, count, align);
    while true
      invariant pos <= bits.Length * BITS
      invariant NoStartBelow(bits, base, pos, count, align)
      decreases bits.Length * BITS - pos
    {
      var next := NextSet(bits, pos);
      if next.None? {
        NoStartLeft(bits, base, pos, count, align);
        return None;
      }
      var lo := next.value;
      SetInside(bits, lo);
      var hi := NextClear(bits, lo);
      var start := AlignUp(base, lo, align);
      if start.None? {
        NoStartBefore(bits, base, pos, lo, USIZE_MAX + 1, count, align);
        forall j | USIZE_MAX + 1 <= j ensures !Holds(bits, j) { OutsideBitmap(bits, j); }
        NoStartLeft(bits, base, USIZE_MAX + 1, count, align);
        return None;
      }
      NoStartBefore(bits, base, pos, lo, start.value, count, align);
      if start.value <= hi && hi - start.value >= count {
        FoundLowest(bits, base, lo, hi, start.value, count, align);
        return Some(start.value);
      }
      NoStartInRun(bits, base, start.value, hi, count, align);
      pos := hi;
    }
  }

  lemma FoundLowest(bits: array<bv64>, base: nat, lo: nat, hi: nat, start: nat, count: nat, align: nat)
    requires align >= 1 && NoStartBelow(bits, base, start, count, align) && Aligned(base, start, align)
    requires lo <= start && start + count <= hi && forall j :: lo <= j < hi ==> Holds(bits, j)
    ensures Lowest(bits, base, Some(start), count, align)
  {
  }

  ghost predicate NoStartBelow(bits: array<bv64>, base: int, pos: int, count: nat, align: nat)
    requires align >= 1
    reads bits
  {
    forall t :: FitsAt(bits, base, t, count, align) ==> pos <= t
  }

  lemma SetInside(bits: array<bv64>, i: int)
    requires Holds(bits, i)
    ensures 0 <= i < bits.Length * BITS
  {
  }

  lemma EmptyMeansNoStart(bits: array<bv64>, base: int, pos: int, count: nat, align: nat)
    requires align >= 1 && count >= 1 && EmptyBelow(bits, pos)
    ensures NoStartBelow(bits, base, pos, count, align)
  {
    hide Holds;
    HeldIs(bits);
    forall t | FitsAt(bits, base, t, count, align) ensures pos <= t { assert Holds(bits, t); }
  }

  lemma TooLong(bits: array<bv64>, base: int, count: nat, align: nat)
    requires align >= 1 && count > bits.Length * BITS
    ensures forall t :: !FitsAt(bits, base, t, count, align)
  {
    hide Bit;
    forall t ensures !FitsAt(bits, base, t, count, align) {
      if t >= 0 { assert !Holds(bits, t + count - 1); } else { assert !Holds(bits, t); }
    }
  }

  /** Nothing starts in a stretch of clear bits, or before the first aligned index of a run. */
  lemma NoStartBefore(bits: array<bv64>, base: nat, pos: nat, lo: nat, start: nat, count: nat, align: nat)
    requires align >= 1 && count >= 1 && NoStartBelow(bits, base, pos, count, align)
    requires forall j :: pos <= j < lo ==> !Holds(bits, j)
    requires forall t :: lo <= t && Aligned(base, t, align) ==> t >= start
    ensures NoStartBelow(bits, base, start, count, align)
  {
    hide Holds;
    forall t
      ensures FitsAt(bits, base, t, count, align) ==> lo <= t && start <= t
    {
      assert pos <= t < lo ==> !Holds(bits, t);
      assert Aligned(base, t, align) && lo <= t ==> start <= t;
    }
  }

  /** A run too short from its first aligned start is too short from every later one. */
  lemma NoStartInRun(bits: array<bv64>, base: nat, start: nat, hi: nat, count: nat, align: nat)
    requires align >= 1 && count >= 1 && NoStartBelow(bits, base, start, count, align)
    requires !Holds(bits, hi) && start + count > hi
    ensures NoStartBelow(bits, base, hi, count, align)
  {
    hide Holds;
    forall t
      ensures FitsAt(bits, base, t, count, align) ==> hi <= t
    {
      assert t <= hi < t + count ==> !FitsAt(bits, base, t, count, align);
    }
  }

  lemma NoStartLeft(bits: array<bv64>, base: nat, pos: nat, count: nat, align: nat)
    requires align >= 1 && count >= 1 && NoStartBelow(bits, base, pos, count, align)
    requires forall j :: pos <= j ==> !Holds(bits, j)
    ensures forall t :: !FitsAt(bits, base, t, count, align)
  {
    hide Holds;
    forall t ensures !FitsAt(bits, base, t, count, align) {
      assert pos <= t ==> !Holds(bits, t);
    }
  }

  /** Where the maximal run of set bits ending at `end` starts; `end` when there is none. */
  ghost predicate TailStart(bits: array<bv64>, lo: int, end: int)
    reads bits
  {
    && 0 <= lo <= end
    && (forall j :: lo <= j < end ==> Holds(bits, j))
    && (lo > 0 ==> !Holds(bits, lo - 1))
  }

  /** Where in the free run that reaches `below` a range of `count` may start: the least aligned such place, or
      none when the run is too short for any. */
  method FindTail(bits: array<bv64>, base: nat, count: nat, align: nat, below: nat) returns (r: Option<nat>,
                  ghost lo: int)
    requires count >= 1 && align >= 1 && bits.Length * BITS <= MAX_SLICE_INDEX + 1
    ensures var end := TailEnd(bits, base, below);
            && TailStart(bits, lo, end)
            && (r.Some? ==> lo <= r.value && r.value + count <= end && Aligned(base, r.value, align)
                            && forall t :: lo <= t < r.value ==> !Aligned(base, t, align))
            && (r.None? ==> forall t :: lo <= t && t + count <= end ==> !Aligned(base, t, align))
  {
    hide Holds, Aligned, AlignUp, TailEnd;
    var end := TailEnd(bits, base, below);
    if end == 0 {
      return None, 0;
    }
    var taken := IsClear(bits, end - 1);
    if taken {
      return None, end;
    }
    var clear := PrevClear(bits, end - 1);
    var low := if clear.Some? then clear.value + 1 else 0;
    lo := low;
    var start := AlignUp(base, low, align);
    if start.None? {
      return None, low;
    }
    if start.value <= end && end - start.value >= count {
      return start, low;
    }
    return None, low;
  }

  /** `below.saturating_sub(base).min(CAPACITY)`. */
  function TailEnd(bits: array<bv64>, base: nat, below: nat): (e: nat)
    ensures e <= bits.Length * BITS
  {
    if below <= base then 0
    else if below - base < bits.Length * BITS then below - base
    else bits.Length * BITS
  }

  /** `!bit_is_free(rel)`. */
  method IsClear(bits: array<bv64>, rel: nat) returns (r: bool)
    ensures r <==> !Holds(bits, rel)
  {
    r := !(rel / BITS < bits.Length && Bit(bits[rel / BITS], rel % BITS));
  }

  // ---------------------------------------------------------------------------------------------
  // A bitmap as a set of absolute slice indices
  // ---------------------------------------------------------------------------------------------

  ghost predicate Represents(bits: array<bv64>, base: int, slices: set<int>)
    reads bits
  {
    slices == Shifted(Held(bits), base)
  }

  ghost function Shifted(held: set<int>, base: int): set<int> {
    set i | i in held :: base + i
  }

  lemma ShiftedMember(held: set<int>, base: int, s: int)
    ensures s in Shifted(held, base) <==> s - base in held
  {
    if s - base in held { assert base + (s - base) == s; }
  }

  lemma ShiftedMinus(held: set<int>, base: int, rel: int, count: nat)
    ensures Shifted(held - Range(rel, count), base) == Shifted(held, base) - Range(base + rel, count)
  {
    hide Shifted;
    forall s
      ensures s in Shifted(held - Range(rel, count), base) <==> s in Shifted(held, base) - Range(base + rel, count)
    {
      ShiftedMember(held - Range(rel, count), base, s);
      ShiftedMember(held, base, s);
    }
  }

  lemma ShiftedPlus(held: set<int>, base: int, rel: int, count: nat)
    ensures Shifted(held + Range(rel, count), base) == Shifted(held, base) + Range(base + rel, count)
  {
    hide Shifted;
    forall s
      ensures s in Shifted(held + Range(rel, count), base) <==> s in Shifted(held, base) + Range(base + rel, count)
    {
      ShiftedMember(held + Range(rel, count), base, s);
      ShiftedMember(held, base, s);
    }
  }

  lemma MemberHeld(bits: array<bv64>, base: int, slices: set<int>, i: int)
    requires Represents(bits, base, slices)
    ensures Holds(bits, i) <==> base + i in slices
    ensures Holds(bits, i) ==> 0 <= i < bits.Length * BITS
  {
    hide Bit, Shifted;
    ShiftedMember(Held(bits), base, base + i);
  }

  lemma RangeHeld(bits: array<bv64>, base: int, slices: set<int>, rel: nat, count: nat)
    requires Represents(bits, base, slices)
    ensures (forall i :: rel <= i < rel + count ==> Holds(bits, i)) <==> Range(base + rel, count) <= slices
  {
    hide Holds, Represents;
    if forall i :: rel <= i < rel + count ==> Holds(bits, i) {
      forall s | s in Range(base + rel, count) ensures s in slices {
        MemberHeld(bits, base, slices, s - base);
      }
    } else {
      var i :| rel <= i < rel + count && !Holds(bits, i);
      MemberHeld(bits, base, slices, i);
      assert base + i in Range(base + rel, count);
    }
  }

  /** The bitmap over `words * 64` consecutive slices starting at `base`, a multiple of 64. */
  class SliceMap {
    const words: nat
    const free: array<bv64>
    const zero: array<bv64>
    var base: nat
    /** A lower bound for searches: the words before it are zero. */
    var hint: nat
    /** The free slices and the free slices still known zero, by absolute index. */
    ghost var freeSet: set<int>
    ghost var zeroSet: set<int>

    ghost predicate Valid()
      reads this, free, zero
    {
      && words >= 1 && words * BITS <= MAX_SLICE_INDEX + 1
      && free.Length == words && zero.Length == words && free != zero
      && base % BITS == 0 && hint <= words
      && Represents(free, base, freeSet)
      && Represents(zero, base, zeroSet)
      && zeroSet <= freeSet
      && EmptyBelow(free, hint * BITS)
    }

    function Capacity(): nat {
      words * BITS
    }

    function Limit(): nat
      reads this
    {
      base + Capacity()
    }

    /** The exclusive bound on the free set: the map's end, or the last slice of the address space if that is lower. */
    function UsableLimit(): nat
      reads this
    {
      if base <= MAX_SLICE_INDEX then
        if Limit() < MAX_SLICE_INDEX then Limit() else MAX_SLICE_INDEX
      else Limit()
    }

    constructor (words: nat)
      requires words >= 1 && words * BITS <= MAX_SLICE_INDEX + 1
      ensures Valid() && this.words == words && base == 0 && freeSet == {} && fresh(free) && fresh(zero)
    {
      hide Bit;
      this.words := words;
      base := 0;
      hint := 0;
      free := new bv64[words](_ => 0);
      zero := new bv64[words](_ => 0);
      freeSet := {};
      zeroSet := {};
      new;
      ZeroWord(0);
    }

    /** Fix the base of an empty map at the multiple of 64 at or below `start`. */
    method Init(baseSlice: nat)
      requires Valid() && freeSet == {}
      modifies this
      ensures Valid() && freeSet == {} && zeroSet == {}
      ensures base % BITS == 0 && base <= baseSlice < base + BITS
    {
      hide Holds;
      HeldIs(free);
      HeldIs(zero);
      forall i ensures !Holds(free, i) && !Holds(zero, i) {
        MemberHeld(free, base, freeSet, i);
        MemberHeld(zero, base, zeroSet, i);
      }
      base := baseSlice - baseSlice % BITS;
      hint := words;
    }

    // -------------------------------------------------------------------------------------------
    // From relative bits to sets of slices
    // -------------------------------------------------------------------------------------------

    lemma FitsMeansFits(t: int, count: nat, align: nat)
      requires Valid() && align >= 1
      ensures FitsAt(free, base, t, count, align) <==> Fits(freeSet, base + t, count, align)
    {
      hide Bit, Holds, Represents, EmptyBelow;
      forall i ensures Holds(free, i) <==> base + i in freeSet { MemberHeld(free, base, freeSet, i); }
      if FitsAt(free, base, t, count, align) {
        forall s | base + t <= s < base + t + count ensures s in freeSet {
          assert Holds(free, s - base);
        }
      }
    }

    lemma LowestMeansLowest(r: Option<nat>, count: nat, align: nat)
      requires Valid() && align >= 1 && Lowest(free, base, r, count, align)
      ensures r.Some? ==> LowestFit(freeSet, base + r.value, count, align)
      ensures r.None? ==> NoFit(freeSet, count, align)
    {
      hide Bit, Holds, FitsAt, Fits;
      forall t
        ensures FitsAt(free, base, t - base, count, align) <==> Fits(freeSet, t, count, align)
      {
        FitsMeansFits(t - base, count, align);
      }
      if r.Some? {
        FitsMeansFits(r.value, count, align);
        forall t | t < base + r.value ensures !Fits(freeSet, t, count, align) {
          assert !FitsAt(free, base, t - base, count, align);
        }
      } else {
        forall t ensures !Fits(freeSet, t, count, align) {
          assert !FitsAt(free, base, t - base, count, align);
        }
      }
    }

    /** Every free slice lies inside the map. */
    lemma FreeInside()
      requires Valid()
      ensures forall s :: s in freeSet ==> base <= s < Limit()
    {
      hide Bit, Holds;
      forall s | s in freeSet ensures base <= s < Limit() { MemberHeld(free, base, freeSet, s - base); }
    }

    // -------------------------------------------------------------------------------------------
    // Operations
    // -------------------------------------------------------------------------------------------

    /** The one search specification all five scans meet: the answer is the least aligned fit, relative to the
        base, or none exists. Four lengths have a scan of their own. */
    method Find(count: nat, align: nat) returns (r: Option<nat>)
      requires Valid() && count >= 1 && align >= 1
      ensures Lowest(free, base, r, count, align)
    {
      hide Holds, Bit, Lowest, Represents, EmptyBelow;
      if count == align {
        if count == 1 {
          r := FindSingle(free, base, hint);
          return;
        }
        if count == 4 {
          r := FindNibble(free, base, hint);
          return;
        }
        if count == 8 {
          r := FindByte(free, base, hint);
          return;
        }
        if count == 64 {
          r := FindWord(free, base, hint);
          return;
        }
      }
      r := FindGeneral(free, base, hint, count, align);
    }

    /** Advance `hint` as far as words are empty; the sets do not change. */
    method AdvanceHint()
      requires Valid()
      modifies this`hint
      ensures Valid()
    {
      hide Bit, Holds, Represents, EmptyBelow;
      while hint < words && free[hint] == 0
        invariant hint <= words && EmptyBelow(free, hint * BITS)
        decreases words - hint
      {
        WordEmpty(free, hint);
        hint := hint + 1;
      }
    }

    /** The word loop of `claim`: both bitmaps lose the range, and `zeroed` tells whether `zero` held it whole. */
    method ClaimWords(rel: nat, count: nat) returns (zeroed: bool)
      requires free.Length == words && zero.Length == words && free != zero && rel + count <= words * BITS
      modifies free, zero
      ensures Held(free) == old(Held(free)) - Range(rel, count)
      ensures Held(zero) == old(Held(zero)) - Range(rel, count)
      ensures zeroed <==> forall i :: rel <= i < rel + count ==> old(Holds(zero, i))
    {
      hide Bit, Holds, Mask, AndW, Held;
      HeldIs(free);
      HeldIs(zero);
      zeroed := true;
      var pos := rel;
      while pos < rel + count
        invariant rel <= pos <= rel + count
        invariant forall i :: Holds(free, i) <==> old(Holds(free, i)) && !(rel <= i < pos)
        invariant forall i :: Holds(zero, i) <==> old(Holds(zero, i)) && !(rel <= i < pos)
        invariant zeroed <==> forall i :: rel <= i < pos ==> old(Holds(zero, i))
      {
        var w, bit, n := pos / BITS, pos % BITS, InWord(pos, rel + count);
        AndNotWord(free, w, bit, n);
        assert forall i :: pos <= i < pos + n ==> (Holds(zero, i) <==> old(Holds(zero, i)));
        MaskedWord(zero, w, bit, n);
        if AndW(zero[w], Mask(bit, n)) != Mask(bit, n) {
          zeroed := false;
        }
        AndNotWord(zero, w, bit, n);
        pos := pos + n;
      }
      HeldIs(free);
      HeldIs(zero);
      forall i ensures i in Held(free) <==> i in old(Held(free)) - Range(rel, count) {
        assert i in old(Held(free)) <==> old(Holds(free, i));
      }
      forall i ensures i in Held(zero) <==> i in old(Held(zero)) - Range(rel, count) {
        assert i in old(Held(zero)) <==> old(Holds(zero, i));
      }
    }

    /** Take a free range out of both sets; the answer says whether it was inside the zero set. */
    method Claim(rel: nat, count: nat) returns (zeroed: bool)
      requires Valid() && rel + count <= words * BITS
      requires forall i :: rel <= i < rel + count ==> Holds(free, i)
      modifies this, free, zero
      ensures Valid() && base == old(base)
      ensures freeSet == old(freeSet) - Range(base + rel, count)
      ensures zeroSet == old(zeroSet) - Range(base + rel, count)
      ensures zeroed <==> Range(base + rel, count) <= old(zeroSet)
    {
      hide Bit, Holds, Range, Held, Shifted, Fits;
      RangeHeld(zero, base, zeroSet, rel, count);
      ShiftedMinus(Held(free), base, rel, count);
      ShiftedMinus(Held(zero), base, rel, count);
      zeroed := ClaimWords(rel, count);
      freeSet := freeSet - Range(base + rel, count);
      zeroSet := zeroSet - Range(base + rel, count);
    }

    /** Put a range, none of it free, into the free set and not into the zero set. */
    method Release(rel: nat, count: nat)
      requires Valid() && count >= 1 && rel + count <= words * BITS
      requires Range(base + rel, count) !! freeSet
      modifies this, free
      ensures Valid() && base == old(base)
      ensures freeSet == old(freeSet) + Range(base + rel, count) && zeroSet == old(zeroSet)
    {
      hide Bit, Holds, Held, Shifted;
      ShiftedPlus(Held(free), base, rel, count);
      SetRange(free, rel, count);
      if rel / BITS < hint {
        hint := rel / BITS;
      }
      freeSet := freeSet + Range(base + rel, count);
    }

    /** Add a range to the free set, and to the zero set if it is `zeroed`, less the slice whose end is no `usize`. */
    method AddFree(start: nat, count: nat, zeroed: bool)
      requires Valid() && base <= start && start + count <= Limit()
      requires Range(start, count) !! freeSet
      modifies this, free, zero
      ensures Valid() && base == old(base)
      ensures var n := if start <= MAX_SLICE_INDEX && MAX_SLICE_INDEX - start < count then MAX_SLICE_INDEX - start
                       else count;
              && freeSet == old(freeSet) + Range(start, n)
              && zeroSet == if zeroed then old(zeroSet) + Range(start, n) else old(zeroSet)
    {
      hide Bit, Holds, Represents, EmptyBelow;
      var n := if start <= MAX_SLICE_INDEX && MAX_SLICE_INDEX - start < count then MAX_SLICE_INDEX - start else count;
      if n == 0 {
        return;
      }
      assert Range(start, n) <= Range(start, count);
      hide Range;
      Release(start - base, n);
      if zeroed {
        MarkZero(start - base, n);
      }
    }

    /** Mark free slices as known zero. */
    method MarkZero(rel: nat, count: nat)
      requires Valid() && rel + count <= words * BITS && Range(base + rel, count) <= freeSet
      modifies this, zero
      ensures Valid() && base == old(base)
      ensures freeSet == old(freeSet) && zeroSet == old(zeroSet) + Range(base + rel, count)
    {
      hide Bit, Holds, Held, Shifted, EmptyBelow, Range;
      ShiftedPlus(Held(zero), base, rel, count);
      SetRange(zero, rel, count);
      zeroSet := zeroSet + Range(base + rel, count);
    }

    /** Claim the least aligned fit, if there is one. */
    method Alloc(count: nat, align: nat) returns (r: Option<Run>)
      requires Valid() && count >= 1 && align >= 1
      modifies this, free, zero
      ensures Valid() && base == old(base)
      ensures Served(r, count, align, old(freeSet), old(zeroSet), freeSet, zeroSet)
    {
      hide Bit, Holds, Fits, LowestFit, NoFit, Represents, EmptyBelow, Range, Lowest;
      AdvanceHint();
      var rel := Find(count, align);
      LowestMeansLowest(rel, count, align);
      if rel.None? {
        return None;
      }
      FitInside(free, base, rel, count, align);
      var zeroed := Claim(rel.value, count);
      return Some(Run(base + rel.value, zeroed));
    }

    /** Claim the least aligned start in the free slices leading up to `below`, if enough of them follow it. */
    method AllocTail(count: nat, align: nat, below: nat) returns (r: Option<Run>)
      requires Valid() && count >= 1 && align >= 1
      modifies this, free, zero
      ensures Valid() && base == old(base)
      ensures r.None? ==> freeSet == old(freeSet) && zeroSet == old(zeroSet)
                          && NoTailFit(freeSet, count, align, Min(below, Limit()))
      ensures r.Some? ==>
                var run := r.value;
                && LowestTailFit(old(freeSet), run.start, count, align, Min(below, Limit()))
                && freeSet == old(freeSet) - Range(run.start, count)
                && zeroSet == old(zeroSet) - Range(run.start, count)
                && (run.zeroed <==> Range(run.start, count) <= old(zeroSet))
    {
      hide Bit, Holds, Represents, EmptyBelow, Range, TailFit, LowestTailFit, NoTailFit, TailEnd;
      var rel, lo := FindTail(free, base, count, align, below);
      TailMeansTail(rel, lo, count, align, below);
      if rel.None? {
        return None;
      }
      assert forall i :: rel.value <= i < rel.value + count ==> Holds(free, i);
      var zeroed := Claim(rel.value, count);
      return Some(Run(base + rel.value, zeroed));
    }

    lemma TailMeansTail(rel: Option<nat>, lo: int, count: nat, align: nat, below: nat)
      requires Valid() && count >= 1 && align >= 1
      requires TailStart(free, lo, TailEnd(free, base, below))
      requires rel.Some? ==> lo <= rel.value && rel.value + count <= TailEnd(free, base, below)
                             && Aligned(base, rel.value, align)
                             && forall t :: lo <= t < rel.value ==> !Aligned(base, t, align)
      requires rel.None? ==> forall t :: lo <= t && t + count <= TailEnd(free, base, below) ==> !Aligned(base, t, align)
      ensures rel.Some? ==> LowestTailFit(freeSet, base + rel.value, count, align, Min(below, Limit()))
      ensures rel.None? ==> NoTailFit(freeSet, count, align, Min(below, Limit()))
    {
      hide Bit, Holds, Represents, EmptyBelow, TailFit;
      forall t
        ensures TailFit(freeSet, t, count, align, Min(below, Limit()))
                <==> lo <= t - base && t - base + count <= TailEnd(free, base, below) && Aligned(base, t - base, align)
      {
        TailFitRel(lo, t - base, count, align, below);
      }
      if rel.None? {
        forall t ensures !TailFit(freeSet, t, count, align, Min(below, Limit())) {
          assert lo <= t - base && t - base + count <= TailEnd(free, base, below) ==> !Aligned(base, t - base, align);
        }
      } else {
        assert base + rel.value - base == rel.value;
        forall t | t < base + rel.value ensures !TailFit(freeSet, t, count, align, Min(below, Limit())) {
          assert lo <= t - base < rel.value ==> !Aligned(base, t - base, align);
        }
      }
    }

    lemma TailFitRel(lo: int, t: int, count: nat, align: nat, below: nat)
      requires Valid() && count >= 1 && align >= 1
      requires TailStart(free, lo, TailEnd(free, base, below))
      ensures TailFit(freeSet, base + t, count, align, Min(below, Limit()))
              <==> lo <= t && t + count <= TailEnd(free, base, below) && Aligned(base, t, align)
    {
      hide Bit, Holds, Represents, EmptyBelow;
      forall i ensures Holds(free, i) <==> base + i in freeSet { MemberHeld(free, base, freeSet, i); }
      FreeInside();
      var end := Min(below, Limit());
      if lo <= t && t + count <= TailEnd(free, base, below) && Aligned(base, t, align) {
        forall s | base + t <= s < end ensures s in freeSet {
          assert Holds(free, s - base);
        }
      } else if base <= base + t {
        assert 0 <= t < lo && t + count <= TailEnd(free, base, below) ==> base + (lo - 1) !in freeSet;
      } else {
        assert base + t !in freeSet;
      }
    }

    /** Return a handed-out run to the map. */
    method FreeRun(start: nat, count: nat)
      requires Valid() && count >= 1 && base <= start && start + count <= Limit()
      requires Range(start, count) !! freeSet
      modifies this, free
      ensures Valid() && base == old(base)
      ensures freeSet == old(freeSet) + Range(start, count) && zeroSet == old(zeroSet)
    {
      hide Bit, Holds, Represents, EmptyBelow, Range;
      Release(start - base, count);
    }

    /** Claim the `extra` slices that follow a run, which succeeds exactly when all of them are free. */
    method TryExtend(start: nat, count: nat, extra: nat) returns (r: Option<bool>)
      requires Valid() && count >= 1 && base <= start && start + count <= Limit()
      modifies this, free, zero
      ensures Valid() && base == old(base)
      ensures r.Some? <==> Range(start + count, extra) <= old(freeSet)
      ensures r.None? ==> freeSet == old(freeSet) && zeroSet == old(zeroSet)
      ensures r.Some? ==> freeSet == old(freeSet) - Range(start + count, extra)
                          && zeroSet == old(zeroSet) - Range(start + count, extra)
                          && (r.value <==> Range(start + count, extra) <= old(zeroSet))
    {
      FreeInside();
      hide Bit, Holds, Represents, EmptyBelow;
      var tail := start - base + count;
      if extra > Capacity() - tail {
        assert start + count + extra - 1 in Range(start + count, extra);
        return None;
      }
      var all := AllSet(free, tail, extra);
      RangeHeld(free, base, freeSet, tail, extra);
      if !all {
        return None;
      }
      hide Range;
      var zeroed := Claim(tail, extra);
      return Some(zeroed);
    }

    /** Free the tail of a handed-out run. */
    method Shrink(start: nat, count: nat, newCount: nat)
      requires Valid() && newCount <= count && base <= start && start + count <= Limit()
      requires Range(start, count) !! freeSet
      modifies this, free
      ensures Valid() && base == old(base)
      ensures freeSet == old(freeSet) + Range(start + newCount, count - newCount) && zeroSet == old(zeroSet)
    {
      hide Bit, Holds, Represents, EmptyBelow;
      if newCount < count {
        assert Range(start + newCount, count - newCount) <= Range(start, count);
        Release(start - base + newCount, count - newCount);
      }
    }

    /** Whether the range is inside the free set. */
    method RunIsFree(start: nat, count: nat) returns (r: bool)
      requires Valid() && base <= start
      ensures r <==> Range(start, count) <= freeSet
    {
      hide Bit, Holds, Represents, EmptyBelow, Range;
      r := AllSet(free, start - base, count);
      RangeHeld(free, base, freeSet, start - base, count);
    }
  }

  lemma WordEmpty(bits: array<bv64>, w: nat)
    requires w < bits.Length && bits[w] == 0 && EmptyBelow(bits, w * BITS)
    ensures EmptyBelow(bits, (w + 1) * BITS)
  {
    hide Bit;
    HeldIs(bits);
    ZeroWord(bits[w]);
  }

  lemma FitInside(bits: array<bv64>, base: int, r: Option<nat>, count: nat, align: nat)
    requires align >= 1 && count >= 1 && r.Some? && Lowest(bits, base, r, count, align)
    ensures r.value + count <= bits.Length * BITS
    ensures forall i :: r.value <= i < r.value + count ==> Holds(bits, i)
  {
    hide Bit;
    assert Holds(bits, r.value) && Holds(bits, r.value + count - 1);
  }

  /** A start from which `count` aligned slices, and all others up to `end`, are free. */
  ghost predicate TailFit(free: set<int>, start: int, count: nat, align: nat, end: int)
    requires align >= 1
  {
    start % align == 0 && start + count <= end && forall s :: start <= s < end ==> s in free
  }

  ghost predicate LowestTailFit(free: set<int>, start: int, count: nat, align: nat, end: int)
    requires align >= 1
  {
    TailFit(free, start, count, align, end) && forall t :: t < start ==> !TailFit(free, t, count, align, end)
  }

  ghost predicate NoTailFit(free: set<int>, count: nat, align: nat, end: int)
    requires align >= 1
  {
    forall t :: !TailFit(free, t, count, align, end)
  }
}
