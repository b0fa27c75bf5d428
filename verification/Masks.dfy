/** The masks of the source on a 32-bit `usize`, over binary digits, and the remainders this project writes
    for them: `x & (a - 1)` is `x % a` and `x & !(a - 1)` is `x - x % a` for every power of two `a`. */
module Masks {
  import opened Arithmetic
  import opened Bins

  const WORD_VALUES := 0x1_0000_0000

  function And(a: nat, b: nat): nat
    decreases a + b
  {
    if a == 0 || b == 0 then 0
    else (if a % 2 == 1 && b % 2 == 1 then 1 else 0) + 2 * And(a / 2, b / 2)
  }

  /** `!v` on 32 bits. */
  function Complement(v: nat): nat
    requires v < WORD_VALUES
  {
    WORD_VALUES - 1 - v
  }

  lemma AndDigit(a: nat, b: nat)
    ensures And(a, b) % 2 == (if a % 2 == 1 && b % 2 == 1 then 1 else 0) && And(a, b) / 2 == And(a / 2, b / 2)
  {
  }

  lemma AndZero(x: nat)
    ensures And(x, 0) == 0 && And(0, x) == 0
  {
  }

  /** The low `k` digits. */
  lemma {:induction false} AndLowMask(x: nat, k: nat)
    ensures And(x, Pow2(k) - 1) == x % Pow2(k)
  {
    hide And, Pow2;
    if k == 0 {
      Pow2Zero();
      AndZero(x);
    } else {
      Pow2Next(k - 1);
      AndLowMask(x / 2, k - 1);
      AndDigit(x, Pow2(k) - 1);
      LowDigits(x, k);
      SameDigits(And(x, Pow2(k) - 1), x % Pow2(k));
    }
  }

  /** All digits of an `n`-digit number but the low `k`. */
  lemma {:induction false} AndHighMask(x: nat, k: nat, n: nat)
    requires k <= n && x < Pow2(n)
    ensures HighMasked(x, Pow2(k), Pow2(n))
  {
    hide And, Pow2, HighMasked;
    if k == 0 {
      Pow2Zero();
      AndLowMask(x, n);
      WholeMask(x, Pow2(n));
    } else {
      Pow2Next(k - 1);
      Pow2Next(n - 1);
      AndHighMask(x / 2, k - 1, n - 1);
      HighMaskStep(x, Pow2(k - 1), Pow2(n - 1));
    }
  }

  predicate HighMasked(x: nat, p: nat, m: nat) {
    1 <= p <= m && And(x, m - p) == x - x % p
  }

  lemma WholeMask(x: nat, m: nat)
    requires x < m && And(x, m - 1) == x % m
    ensures HighMasked(x, 1, m)
  {
    hide And;
  }

  /** One more digit below the mask. */
  lemma HighMaskStep(x: nat, p: nat, m: nat)
    requires HighMasked(x / 2, p, m)
    ensures HighMasked(x, 2 * p, 2 * m)
  {
    hide And;
    DoubledModulus(x, p);
    HalfOfDifference(m, p);
    AndDigit(x, 2 * m - 2 * p);
    RemainderAtMost(x, 2 * p);
    FromHalves(x, x % (2 * p), And(x, 2 * m - 2 * p));
  }

  lemma HalfOfDifference(m: int, k: int)
    ensures (2 * m - 2 * k) % 2 == 0 && (2 * m - 2 * k) / 2 == m - k
  {
  }

  lemma RemainderAtMost(x: nat, d: nat)
    requires d >= 1
    ensures x % d <= x
  {
    if x >= d { assert x % d < d; }
  }

  lemma FromHalves(x: nat, r: nat, y: nat)
    requires r <= x && r % 2 == x % 2 && y % 2 == 0 && y / 2 == x / 2 - r / 2
    ensures y == x - r
  {
  }

  lemma {:induction false} Pow2Exponent(a: nat) returns (k: nat)
    requires IsPow2(a)
    ensures a == Pow2(k)
  {
    if a == 1 {
      k := 0;
    } else {
      k := Pow2Exponent(a / 2);
      k := k + 1;
    }
  }

  lemma Pow2Is32()
    ensures Pow2(32) == WORD_VALUES
  {
    hide Pow2;
    Pow2Is256();
    Pow2Sum(8, 8);
    Pow2Sum(16, 16);
  }

  /** `x & (a - 1)` and `x & !(a - 1)` for a power of two `a`. */
  lemma MaskIsRemainder(x: nat, a: nat)
    requires x < WORD_VALUES && IsPow2(a) && a < WORD_VALUES
    ensures And(x, a - 1) == x % a && And(x, Complement(a - 1)) == x - x % a
  {
    hide And, Pow2, IsPow2;
    var k := Pow2Exponent(a);
    Pow2Is32();
    if k > 32 { Pow2Mono(32, k); }
    AndLowMask(x, k);
    AndHighMask(x, k, 32);
  }

  /** The header mask of a page kind finds the page of every address. */
  lemma MaskIsRounding(kind: PageKind, x: nat)
    requires x <= USIZE_MAX
    ensures And(x, Complement(PageSize(kind) - 1)) == HeaderOf(kind, x)
  {
    PageSizeIsPow2(kind);
    hide And, IsPow2;
    MaskIsRemainder(x, PageSize(kind));
  }

  lemma SmallPow2s()
    ensures Pow2(2) == 4 && Pow2(6) == 64
  {
    assert Pow2(4) == 16;
  }

  lemma PageSizeIsPow2(kind: PageKind)
    ensures IsPow2(PageSize(kind)) && PageSize(kind) < WORD_VALUES
  {
    hide Pow2, IsPow2;
    Pow2IsPow2(16);
    Pow2IsPow2(18);
    Pow2IsPow2(22);
    Pow2Is256();
    SmallPow2s();
    Pow2Sum(8, 8);
    Pow2Sum(2, 16);
    Pow2Sum(6, 16);
  }

  /** `(size + align - 1) & !(align - 1)` rounds up. */
  lemma MaskRoundsUp(size: nat, align: nat)
    requires IsPow2(align) && size + align - 1 < WORD_VALUES && align < WORD_VALUES
    ensures And(size + align - 1, Complement(align - 1)) == RoundUp(size, align)
  {
    MaskIsRemainder(size + align - 1, align);
    hide And, IsPow2, RoundUp;
    LastMultiple(size + align - 1, RoundUp(size, align), align);
  }

  lemma LastMultiple(x: nat, r: nat, a: nat)
    requires a >= 1 && r % a == 0 && r <= x < r + a
    ensures x - x % a == r
  {
    var q := r / a;
    assert r == q * a;
    ModUnique(q, a, x - r);
  }

  /** `SMALL_MAX_OBJ_SIZE & align.wrapping_neg()` is the limit of the free path. */
  lemma MaskIsSmallLimit(align: nat)
    requires IsPow2(align) && align < WORD_VALUES
    ensures And(SMALL_MAX_OBJ_SIZE, WORD_VALUES - align) == SmallLimit(align)
  {
    MaskIsRemainder(SMALL_MAX_OBJ_SIZE, align);
  }
}
