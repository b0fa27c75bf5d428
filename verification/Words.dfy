/** 64-bit bitmap words: single bits, shifts, range masks, the nibble and byte folds, bit scans. */
module Words {

  const BITS := 64
  const ALL_ONES: bv64 := 0xFFFF_FFFF_FFFF_FFFF

  /** `x << n` and `x >> n`, one place at a time. */
  function Shl(x: bv64, n: nat): bv64 {
    if n == 0 then x else Shl(x, n - 1) << 1
  }

  function Shr(x: bv64, n: nat): bv64 {
    if n == 0 then x else Shr(x, n - 1) >> 1
  }

  /** The word operators `&`, `|` and `!`. */
  function AndW(a: bv64, b: bv64): bv64 { a & b }

  function OrW(a: bv64, b: bv64): bv64 { a | b }

  function NotW(a: bv64): bv64 { !a }

  /** A bit position, converted from `usize`. */
  function Position(k: nat): bv7 {
    if k == 0 then 0 else Position(k - 1) + 1
  }

  predicate BitAt(w: bv64, p: bv7)
    requires p < 64
  {
    (w >> p) & 1 == 1
  }

  /** Bit `k` of `w` is set. */
  predicate Bit(w: bv64, k: nat)
    requires k < 64
  {
    PositionIs(k);
    BitAt(w, Position(k))
  }

  lemma {:induction false} PositionValue(k: nat)
    requires k <= 64
    ensures Position(k) as nat == k
  {
    if k > 0 {
      PositionValue(k - 1);
    }
  }

  lemma {:induction false} PositionIs(k: nat)
    requires k < 64
    ensures Position(k) < 64 && (k == 0 <==> Position(k) == 0) && (k == 63 <==> Position(k) == 63)
  {
    PositionValue(k);
  }

  // ---------------------------------------------------------------------------------------------
  // Operators, bit by bit
  // ---------------------------------------------------------------------------------------------

  lemma AndAt(a: bv64, b: bv64, p: bv7)
    requires p < 64
    ensures BitAt(a & b, p) == (BitAt(a, p) && BitAt(b, p))
  {
  }

  lemma OrAt(a: bv64, b: bv64, p: bv7)
    requires p < 64
    ensures BitAt(a | b, p) == (BitAt(a, p) || BitAt(b, p))
  {
  }

  lemma NotAt(a: bv64, p: bv7)
    requires p < 64
    ensures BitAt(!a, p) == !BitAt(a, p)
  {
  }

  lemma ShlOneAt(x: bv64, p: bv7)
    requires p < 64
    ensures BitAt(x << 1, p) == (p >= 1 && BitAt(x, p - 1))
  {
  }

  lemma ShrOneAt(x: bv64, p: bv7)
    requires p < 64
    ensures BitAt(x >> 1, p) == (p < 63 && BitAt(x, p + 1))
  {
  }

  lemma ConstAt(p: bv7)
    requires p < 64
    ensures BitAt(ALL_ONES, p) && !BitAt(0, p)
  {
  }

  lemma LowBitAt(w: bv64)
    ensures BitAt(w, 0) == (w & 1 == 1)
  {
  }

  lemma And(a: bv64, b: bv64, k: nat)
    requires k < 64
    ensures Bit(AndW(a, b), k) == (Bit(a, k) && Bit(b, k))
  {
    hide BitAt;
    PositionIs(k);
    AndAt(a, b, Position(k));
  }

  lemma Or(a: bv64, b: bv64, k: nat)
    requires k < 64
    ensures Bit(OrW(a, b), k) == (Bit(a, k) || Bit(b, k))
  {
    hide BitAt;
    PositionIs(k);
    OrAt(a, b, Position(k));
  }

  lemma Not(a: bv64, k: nat)
    requires k < 64
    ensures Bit(NotW(a), k) == !Bit(a, k)
  {
    hide BitAt;
    PositionIs(k);
    NotAt(a, Position(k));
  }

  lemma Const(k: nat)
    requires k < 64
    ensures Bit(ALL_ONES, k) && !Bit(0, k)
  {
    PositionIs(k);
    ConstAt(Position(k));
  }

  lemma {:induction false} ShlBit(x: bv64, n: nat, k: nat)
    requires k < 64
    ensures Bit(Shl(x, n), k) == (k >= n && Bit(x, k - n))
  {
    hide BitAt;
    if n > 0 {
      PositionIs(k);
      ShlOneAt(Shl(x, n - 1), Position(k));
      if k >= 1 {
        ShlBit(x, n - 1, k - 1);
      }
    }
  }

  lemma {:induction false} ShrBit(x: bv64, n: nat, k: nat)
    requires k < 64
    ensures Bit(Shr(x, n), k) == (k + n < 64 && Bit(x, k + n))
  {
    hide Bit;
    if n > 0 {
      ShrOne(Shr(x, n - 1), k);
      if k < 63 {
        ShrBit(x, n - 1, k + 1);
      }
    }
  }

  lemma ShrOne(x: bv64, k: nat)
    requires k < 64
    ensures Bit(x >> 1, k) == (k < 63 && Bit(x, k + 1))
  {
    hide BitAt;
    PositionIs(k);
    ShrOneAt(x, Position(k));
  }

  // ---------------------------------------------------------------------------------------------
  // Masks and folds
  // ---------------------------------------------------------------------------------------------

  /** `mask(bit, n)`: the word whose set bits are `[bit, bit + n)`. */
  function Mask(bit: nat, n: nat): bv64
    requires n >= 1 && bit + n <= BITS
  {
    Shl(Shr(ALL_ONES, BITS - n), bit)
  }

  lemma MaskBit(bit: nat, n: nat, k: nat)
    requires n >= 1 && bit + n <= BITS && k < 64
    ensures Bit(Mask(bit, n), k) == (bit <= k < bit + n)
  {
    hide Bit;
    ShlBit(Shr(ALL_ONES, BITS - n), bit, k);
    if k >= bit {
      ShrBit(ALL_ONES, BITS - n, k - bit);
      if k - bit + (BITS - n) < 64 {
        Const(k - bit + (BITS - n));
      }
    }
  }

  /** `full_nibbles`, as a fold: a bit at a multiple of four stays if it and the three above it are all set. */
  function FullNibbles(b: bv64): bv64 {
    var x := b & (b >> 2);
    var x := x & (x >> 1);
    x & 0x1111_1111_1111_1111
  }

  /** `full_bytes`, the same fold one step further: a bit at a multiple of eight stays if eight bits are set. */
  function FullBytes(b: bv64): bv64 {
    var x := b & (b >> 4);
    var x := x & (x >> 2);
    var x := x & (x >> 1);
    x & 0x0101_0101_0101_0101
  }

  lemma NibbleAt(b: bv64, p: bv7)
    requires p < 64
    ensures BitAt(FullNibbles(b), p) ==
            (p & 3 == 0 && BitAt(b, p) && BitAt(b, p + 1) && BitAt(b, p + 2) && BitAt(b, p + 3))
  {
  }

  lemma ByteAt(b: bv64, p: bv7)
    requires p < 64
    ensures BitAt(FullBytes(b), p) ==
            (p & 7 == 0 && BitAt(b, p) && BitAt(b, p + 1) && BitAt(b, p + 2) && BitAt(b, p + 3)
             && BitAt(b, p + 4) && BitAt(b, p + 5) && BitAt(b, p + 6) && BitAt(b, p + 7))
  {
  }

  lemma {:induction false} PositionLow(k: nat)
    requires k < 64
    ensures (Position(k) & 7) as nat == k % 8 && (Position(k) & 3) as nat == k % 4
  {
    PositionIs(k);
    if k > 0 {
      PositionLow(k - 1);
      LowStep(Position(k - 1));
    }
  }

  lemma LowStep(p: bv7)
    requires p < 63
    ensures ((p + 1) & 7) as nat == (if (p & 7) as nat == 7 then 0 else (p & 7) as nat + 1)
    ensures ((p + 1) & 3) as nat == (if (p & 3) as nat == 3 then 0 else (p & 3) as nat + 1)
  {
  }

  lemma NibbleBit(b: bv64, k: nat)
    requires k < 64
    ensures Bit(FullNibbles(b), k) <==>
            (k % 4 == 0 && (forall j :: k <= j < k + 4 ==> Bit(b, j)))
  {
    hide BitAt, FullNibbles, Bit;
    BitIs(FullNibbles(b), k);
    NibbleAt(b, Position(k));
    PositionLow(k);
    if k % 4 == 0 {
      BitIs(b, k); BitIs(b, k + 1); BitIs(b, k + 2); BitIs(b, k + 3);
    }
  }

  lemma ByteBit(b: bv64, k: nat)
    requires k < 64
    ensures Bit(FullBytes(b), k) <==>
            (k % 8 == 0 && (forall j :: k <= j < k + 8 ==> Bit(b, j)))
  {
    hide BitAt, FullBytes, Bit;
    BitIs(FullBytes(b), k);
    ByteAt(b, Position(k));
    PositionLow(k);
    if k % 8 == 0 {
      BitIs(b, k); BitIs(b, k + 1); BitIs(b, k + 2); BitIs(b, k + 3);
      BitIs(b, k + 4); BitIs(b, k + 5); BitIs(b, k + 6); BitIs(b, k + 7);
    }
  }

  lemma BitIs(w: bv64, k: nat)
    requires k < 64
    ensures Position(k) < 64 && Bit(w, k) == BitAt(w, Position(k))
    ensures k > 0 ==> Position(k) == Position(k - 1) + 1
  {
    PositionIs(k);
  }

  // ---------------------------------------------------------------------------------------------
  // Bit scans
  // ---------------------------------------------------------------------------------------------

  lemma {:induction false} ShrAdd(x: bv64, m: nat, n: nat)
    ensures Shr(Shr(x, m), n) == Shr(x, m + n)
  {
    if n > 0 {
      ShrAdd(x, m, n - 1);
    }
  }

  lemma {:induction false} ShrTwo(x: bv64)
    ensures Shr(x, 2) == x >> 2
  {
    calc {
      Shr(x, 2);
      Shr(x, 1) >> 1;
      (x >> 1) >> 1;
      x >> 2;
    }
  }

  lemma ShrByte(x: bv64)
    ensures Shr(x, 8) == x >> 8
  {
    ShrTwo(x);
    ShrTwo(x >> 2);
    ShrTwo(x >> 4);
    ShrTwo(x >> 6);
    ShrAdd(x, 2, 2);
    ShrAdd(x, 4, 2);
    ShrAdd(x, 6, 2);
  }

  lemma {:induction false} ShrAll(x: bv64)
    ensures Shr(x, 64) == 0
  {
    hide Shr;
    ShrAdd(x, 8, 8); ShrAdd(x, 16, 8); ShrAdd(x, 24, 8); ShrAdd(x, 32, 8);
    ShrAdd(x, 40, 8); ShrAdd(x, 48, 8); ShrAdd(x, 56, 8);
    ShrByte(x); ShrByte(Shr(x, 8)); ShrByte(Shr(x, 16)); ShrByte(Shr(x, 24));
    ShrByte(Shr(x, 32)); ShrByte(Shr(x, 40)); ShrByte(Shr(x, 48)); ShrByte(Shr(x, 56));
    assert Shr(x, 16) == x >> 16;
    assert Shr(x, 32) == x >> 32;
    assert Shr(x, 48) == x >> 48;
    assert Shr(x, 56) == x >> 56;
  }

  /** `trailing_zeros`: the index of the lowest set bit. */
  function TrailingZeros(w: bv64): (k: nat)
    requires w != 0
    ensures k < 64 && Bit(w, k) && forall j: nat :: j < k ==> !Bit(w, j)
  {
    TrailingFrom(w, 0)
  }

  /** The lowest set bit at or above `k`, which exists when `w >> k` is not zero. */
  function TrailingFrom(w: bv64, k: nat): (r: nat)
    requires k <= 64 && Shr(w, k) != 0
    ensures k <= r < 64 && Bit(w, r) && forall j: nat :: k <= j < r ==> !Bit(w, j)
    decreases 64 - k
  {
    ShrAll(w);
    LowestOf(w, k);
    if Shr(w, k) & 1 == 1 then k else TrailingFrom(w, k + 1)
  }

  lemma LowestOf(w: bv64, k: nat)
    requires k < 64
    ensures Bit(w, k) == (Shr(w, k) & 1 == 1)
    ensures Shr(w, k) & 1 == 0 && Shr(w, k) != 0 ==> Shr(w, k + 1) != 0
  {
    ShrBit(w, k, 0);
    LowBitAt(Shr(w, k));
  }

  /** `BITS - 1 - leading_zeros`: the index of the highest set bit. */
  function HighestBit(w: bv64): (k: nat)
    requires w != 0
    ensures k < 64 && Bit(w, k) && forall j: nat :: k < j < 64 ==> !Bit(w, j)
  {
    ShrAll(w);
    HighestFrom(w, 0)
  }

  function HighestFrom(w: bv64, k: nat): (r: nat)
    requires k <= 64 && Shr(w, k) != 0
    ensures k <= r < 64 && Bit(w, r) && forall j: nat :: r < j < 64 ==> !Bit(w, j)
    decreases 64 - k
  {
    ShrAll(w);
    NoneAbove(w, k);
    if Shr(w, k + 1) == 0 then k else HighestFrom(w, k + 1)
  }

  lemma NoneAbove(w: bv64, k: nat)
    requires k < 64 && Shr(w, k) != 0
    ensures Shr(w, k + 1) == 0 ==> Bit(w, k) && forall j: nat :: k < j < 64 ==> !Bit(w, j)
  {
    LowestOf(w, k);
    if Shr(w, k + 1) == 0 {
    forall j: nat | k < j < 64
      ensures !Bit(w, j)
    {
      ShrBit(w, k + 1, j - k - 1);
      Const(j - k - 1);
    }
    }
  }

  /** A word without set bits is zero. */
  lemma ZeroWord(w: bv64)
    ensures w == 0 ==> forall k: nat | k < 64 :: !Bit(w, k)
    ensures w != 0 ==> exists k: nat | k < 64 :: Bit(w, k)
  {
    hide Bit;
    if w != 0 {
      var k := TrailingZeros(w);
    } else {
      forall k: nat | k < 64 ensures !Bit(w, k) { Const(k); }
    }
  }

  /** A word with every bit set is all ones. */
  lemma FullWord(w: bv64)
    ensures w == ALL_ONES ==> forall k: nat | k < 64 :: Bit(w, k)
    ensures w != ALL_ONES ==> exists k: nat | k < 64 :: !Bit(w, k)
  {
    hide Bit;
    if w != ALL_ONES {
      assert NotW(w) != 0;
      ZeroWord(NotW(w));
      var k: nat :| k < 64 && Bit(NotW(w), k);
      Not(w, k);
    } else {
      forall k: nat | k < 64 ensures Bit(w, k) { Const(k); }
    }
  }

  lemma AndNotEmpty(w: bv64, m: bv64)
    ensures AndW(w, m) == m <==> AndW(NotW(w), m) == 0
  {
    hide AndW, OrW, NotW;
    SplitByWord(w, m);
  }

  lemma SplitByWord(w: bv64, m: bv64)
    ensures OrW(AndW(w, m), AndW(NotW(w), m)) == m
    ensures AndW(NotW(w), AndW(w, m)) == 0
    ensures OrW(AndW(w, m), 0) == AndW(w, m)
  {
  }

  // ---------------------------------------------------------------------------------------------
  // Whole-word summaries
  // ---------------------------------------------------------------------------------------------

  /** `w & m == m`: every bit of the mask is a bit of `w`; `w & m == 0`: none is. */
  lemma TestMask(w: bv64, bit: nat, n: nat)
    requires n >= 1 && bit + n <= BITS
    ensures AndW(w, Mask(bit, n)) == Mask(bit, n) ==> forall k: nat | bit <= k < bit + n :: Bit(w, k)
    ensures AndW(w, Mask(bit, n)) != Mask(bit, n) ==> exists k: nat | bit <= k < bit + n :: !Bit(w, k)
  {
    hide Bit, Mask, AndW, NotW;
    var m := Mask(bit, n);
    var rest := AndW(NotW(w), m);
    ZeroWord(rest);
    AndNotEmpty(w, m);
    forall k: nat | k < 64
      ensures Bit(rest, k) == (!Bit(w, k) && bit <= k < bit + n)
    {
      And(NotW(w), m, k);
      Not(w, k);
      MaskBit(bit, n, k);
    }
    if rest != 0 {
      var k: nat :| k < 64 && Bit(rest, k);
      assert bit <= k < bit + n && !Bit(w, k);
    } else {
      forall k: nat | bit <= k < bit + n ensures Bit(w, k) { assert !Bit(rest, k); }
    }
  }

  /** `w |= mask(bit, n)` and `w &= !mask(bit, n)`, bit by bit. */
  lemma OrMask(w: bv64, bit: nat, n: nat)
    requires n >= 1 && bit + n <= BITS
    ensures forall k: nat | k < 64 :: Bit(OrW(w, Mask(bit, n)), k) == (Bit(w, k) || bit <= k < bit + n)
  {
    hide Bit, Mask, OrW;
    forall k: nat | k < 64
      ensures Bit(OrW(w, Mask(bit, n)), k) == (Bit(w, k) || bit <= k < bit + n)
    {
      Or(w, Mask(bit, n), k);
      MaskBit(bit, n, k);
    }
  }

  lemma AndNotMask(w: bv64, bit: nat, n: nat)
    requires n >= 1 && bit + n <= BITS
    ensures forall k: nat | k < 64 :: Bit(AndW(w, NotW(Mask(bit, n))), k) == (Bit(w, k) && !(bit <= k < bit + n))
  {
    hide Bit, Mask, AndW, NotW;
    forall k: nat | k < 64
      ensures Bit(AndW(w, NotW(Mask(bit, n))), k) == (Bit(w, k) && !(bit <= k < bit + n))
    {
      And(w, NotW(Mask(bit, n)), k);
      Not(Mask(bit, n), k);
      MaskBit(bit, n, k);
    }
  }

  lemma ShlOnes(n: nat, k: nat)
    requires k < 64
    ensures Bit(Shl(ALL_ONES, n), k) == (k >= n)
  {
    hide Bit;
    ShlBit(ALL_ONES, n, k);
    if k >= n { Const(k - n); }
  }

  /** `b & (MAX << n)`: the bits of `b` at or above position `n`. */
  lemma FromBit(b: bv64, n: nat)
    requires n < 64
    ensures forall k: nat | k < 64 :: Bit(AndW(b, Shl(ALL_ONES, n)), k) == (Bit(b, k) && k >= n)
  {
    hide Bit, Shl, AndW;
    forall k: nat | k < 64
      ensures Bit(AndW(b, Shl(ALL_ONES, n)), k) == (Bit(b, k) && k >= n)
    {
      And(b, Shl(ALL_ONES, n), k);
      ShlOnes(n, k);
    }
  }

  /** `b | !(MAX << n)`: the bits of `b` with those below position `n` set as well. */
  lemma FilledBelow(b: bv64, n: nat)
    requires n < 64
    ensures forall k: nat | k < 64 :: Bit(OrW(b, NotW(Shl(ALL_ONES, n))), k) == (Bit(b, k) || k < n)
  {
    hide Bit, Shl, OrW, NotW;
    forall k: nat | k < 64
      ensures Bit(OrW(b, NotW(Shl(ALL_ONES, n))), k) == (Bit(b, k) || k < n)
    {
      Or(b, NotW(Shl(ALL_ONES, n)), k);
      Not(Shl(ALL_ONES, n), k);
      ShlOnes(n, k);
    }
  }

  /** `!b & (MAX >> n)`: the clear bits of `b` at or below position `63 - n`. */
  lemma ClearUpTo(b: bv64, n: nat)
    requires n < 64
    ensures forall k: nat | k < 64 :: Bit(AndW(NotW(b), Shr(ALL_ONES, n)), k) == (!Bit(b, k) && k <= 63 - n)
  {
    hide Bit, Shr, AndW, NotW;
    forall k: nat | k < 64
      ensures Bit(AndW(NotW(b), Shr(ALL_ONES, n)), k) == (!Bit(b, k) && k <= 63 - n)
    {
      And(NotW(b), Shr(ALL_ONES, n), k);
      Not(b, k);
      ShrBit(ALL_ONES, n, k);
      if k + n < 64 { Const(k + n); }
    }
  }

  lemma NotBits(b: bv64)
    ensures forall k: nat | k < 64 :: Bit(NotW(b), k) == !Bit(b, k)
  {
    hide Bit, NotW;
    forall k: nat | k < 64
      ensures Bit(NotW(b), k) == !Bit(b, k)
    {
      Not(b, k);
    }
  }

  // ---------------------------------------------------------------------------------------------
  // Clearing the lowest set bit
  // ---------------------------------------------------------------------------------------------

  /** `w & (w - 1)`. */
  function DropLowest(w: bv64): bv64
    requires w != 0
  {
    w & (w - 1)
  }

  lemma DropOdd(w: bv64)
    requires w & 1 == 1
    ensures DropLowest(w) == w - 1 && DropLowest(w) >> 1 == w >> 1 && DropLowest(w) & 1 == 0
  {
  }

  lemma DropEven(w: bv64)
    requires w != 0 && w & 1 == 0
    ensures w >> 1 != 0 && DropLowest(w) >> 1 == DropLowest(w >> 1) && DropLowest(w) & 1 == 0
  {
  }

  lemma BitFromHalf(w: bv64, k: nat)
    requires k < 64
    ensures Bit(w, k) == if k == 0 then w & 1 == 1 else Bit(w >> 1, k - 1)
  {
    if k == 0 {
      LowBitAt(w);
    } else {
      ShrOne(w, k - 1);
    }
  }

  /** `w & (w - 1)` clears exactly the bit `t` that is the lowest set one. */
  lemma {:induction false} DropLowestBit(w: bv64, t: nat, k: nat)
    requires w != 0 && t < 64 && k < 64 && Bit(w, t) && forall j: nat :: j < t ==> !Bit(w, j)
    ensures Bit(DropLowest(w), k) == (Bit(w, k) && k != t)
    decreases t
  {
    hide Bit, DropLowest;
    BitFromHalf(w, t);
    BitFromHalf(w, 0);
    BitFromHalf(w, k);
    BitFromHalf(DropLowest(w), k);
    if t == 0 {
      DropOdd(w);
    } else {
      assert !Bit(w, 0);
      DropEven(w);
      var half := w >> 1;
      forall j: nat | j < t - 1 ensures !Bit(half, j) {
        BitFromHalf(w, j + 1);
        assert !Bit(w, j + 1);
      }
      if k > 0 {
        DropLowestBit(w >> 1, t - 1, k - 1);
      }
    }
  }
}
