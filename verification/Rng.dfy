/** The tester's randomness: the splitmix64 generator, its mixer, and the draws made from a stream of 32-bit
    values. A `u64` is a number below 2^64: xor is written out over binary digits, a right shift divides,
    and wrapping arithmetic reduces modulo 2^64. */
module Rng {
  import opened Arithmetic
  import opened SliceMaps
  import opened Backend

  const U64: nat := 0x1_0000_0000_0000_0000
  const U32: nat := 0x1_0000_0000
  const GOLDEN := 0x9E37_79B9_7F4A_7C15
  const GOLDEN_INVERSE := 0xF1DE_83E1_9937_733D
  const MIX_1 := 0xBF58_476D_1CE4_E5B9
  const MIX_1_INVERSE := 0x96DE_1B17_3F11_9089
  const MIX_2 := 0x94D0_49BB_1331_11EB
  const MIX_2_INVERSE := 0x3196_42B2_D24D_8EC3

  // ---------------------------------------------------------------------------------------------
  // Exclusive or
  // ---------------------------------------------------------------------------------------------

  function Xor(a: nat, b: nat): nat
    decreases a + b
  {
    if a == 0 && b == 0 then 0
    else (a % 2 + b % 2) % 2 + 2 * Xor(a / 2, b / 2)
  }

  lemma {:induction false} XorSelf(a: nat)
    ensures Xor(a, a) == 0
  {
    if a != 0 { XorSelf(a / 2); }
  }

  lemma {:induction false} XorZero(a: nat)
    ensures Xor(a, 0) == a && Xor(0, a) == a
  {
    if a != 0 { XorZero(a / 2); }
  }

  lemma {:induction false} XorAssoc(a: nat, b: nat, c: nat)
    ensures Xor(Xor(a, b), c) == Xor(a, Xor(b, c))
    decreases a + b + c
  {
    hide Xor;
    XorZero(0);
    if a + b + c != 0 {
      XorAssoc(a / 2, b / 2, c / 2);
      XorDigit(a, b);
      XorDigit(b, c);
      XorDigit(Xor(a, b), c);
      XorDigit(a, Xor(b, c));
      SameDigits(Xor(Xor(a, b), c), Xor(a, Xor(b, c)));
    }
  }

  lemma XorDigit(a: nat, b: nat)
    ensures Xor(a, b) % 2 == (a % 2 + b % 2) % 2 && Xor(a, b) / 2 == Xor(a / 2, b / 2)
  {
  }

  /** Xor undoes itself, and so is injective in each argument. */
  lemma XorUndo(a: nat, b: nat)
    ensures Xor(Xor(a, b), b) == a && Xor(b, Xor(b, a)) == a
  {
    XorAssoc(a, b, b);
    XorAssoc(b, b, a);
    XorSelf(b);
    XorZero(a);
  }

  lemma {:induction false} XorBelow(a: nat, b: nat, k: nat)
    requires a < Pow2(k) && b < Pow2(k)
    ensures Xor(a, b) < Pow2(k)
  {
    if k > 0 {
      XorBelow(a / 2, b / 2, k - 1);
      XorDigit(a, b);
    } else {
      assert a == 0 && b == 0;
    }
  }

  /** `z >> k`. */
  function Shr(z: nat, k: nat): nat {
    Smaller(z, Pow2(k));
    z / Pow2(k)
  }

  /** Shifting right distributes over xor. */
  lemma {:induction false} XorShifted(a: nat, b: nat, k: nat)
    ensures Shr(Xor(a, b), k) == Xor(Shr(a, k), Shr(b, k))
  {
    hide Xor, Shr;
    if k > 0 {
      XorShifted(a / 2, b / 2, k - 1);
      XorDigit(a, b);
      ShrStep(a, k);
      ShrStep(b, k);
      ShrStep(Xor(a, b), k);
    } else {
      ShrNone(a);
      ShrNone(b);
      ShrNone(Xor(a, b));
    }
  }

  lemma ShrNone(a: nat)
    ensures Shr(a, 0) == a
  {
  }

  lemma ShrStep(a: nat, k: nat)
    requires k > 0
    ensures Shr(a, k) == Shr(a / 2, k - 1)
  {
    DivDiv(a, 2, Pow2(k - 1));
  }

  lemma DivDiv(a: nat, m: nat, n: nat)
    requires m >= 1 && n >= 1
    ensures m * n >= 1 && a / (m * n) == (a / m) / n
  {
    MulMono(1, m, n);
    var q, r := a / m, a % m;
    var t, u := q / n, q % n;
    Regroup(a, m, n, q, r, t, u);
    BelowProduct(m, n, u, r);
    ModUnique(t, m * n, m * u + r);
  }

  lemma Regroup(a: int, m: int, n: int, q: int, r: int, t: int, u: int)
    requires a == m * q + r && q == n * t + u
    ensures a == t * (m * n) + (m * u + r)
  {
    assert m * (n * t + u) == t * (m * n) + m * u;
  }

  lemma BelowProduct(m: nat, n: nat, u: nat, r: nat)
    requires u < n && r < m
    ensures 0 <= m * u + r < m * n
  {
    MulMono(u, n - 1, m);
    MulMono(0, u, m);
  }

  // ---------------------------------------------------------------------------------------------
  // The mixer
  // ---------------------------------------------------------------------------------------------

  /** `z ^ (z >> k)`. */
  function Fold(z: nat, k: nat): nat {
    Xor(z, Shr(z, k))
  }

  /** `y ^ (y >> k) ^ (y >> 2k)`. */
  function Unfold(y: nat, k: nat): nat {
    Xor(Xor(y, Shr(y, k)), Shr(y, 2 * k))
  }

  /** For `3k >= 64`, folding a 64-bit word by `k` and unfolding it are inverse, both ways round. */
  lemma UnfoldFold(z: nat, k: nat)
    requires z < Pow2(64) && 3 * k >= 64
    ensures Unfold(Fold(z, k), k) == z && Fold(Unfold(z, k), k) == z
  {
    hide Xor, Pow2, Shr;
    var a, b := Shr(z, k), Shr(z, 2 * k);
    Shifts(z, k);
    // Unfold(Fold(z)): the pairs of `a` and of `b` cancel.
    XorShifted(z, a, k);
    XorShifted(z, a, 2 * k);
    XorZero(b);
    XorAssoc(Xor(z, a), Xor(a, b), b);
    XorAssoc(a, b, b);
    XorSelf(b);
    XorZero(a);
    XorUndo(z, a);
    // Fold(Unfold(z)).
    XorShifted(Xor(z, a), b, k);
    XorShifted(z, a, k);
    XorZero(Xor(a, b));
    XorAssoc(z, a, b);
    XorUndo(z, Xor(a, b));
  }

  /** Two shifts by `k` are one by `2k`; three shift everything out. */
  lemma Shifts(z: nat, k: nat)
    requires z < Pow2(64) && 3 * k >= 64
    ensures Shr(Shr(z, k), k) == Shr(z, 2 * k)
    ensures Shr(Shr(z, 2 * k), k) == 0 && Shr(Shr(z, k), 2 * k) == 0
  {
    hide Pow2;
    Pow2Sum(k, k);
    Pow2Sum(2 * k, k);
    Pow2Sum(k, 2 * k);
    DivDiv(z, Pow2(k), Pow2(k));
    DivDiv(z, Pow2(2 * k), Pow2(k));
    DivDiv(z, Pow2(k), Pow2(2 * k));
    Pow2Mono(64, 3 * k);
    SmallQuotient(z, Pow2(3 * k));
  }

  lemma SmallQuotient(z: nat, d: nat)
    requires z < d
    ensures z / d == 0
  {
  }

  /** `wrapping_mul`. */
  function Times(z: nat, c: nat): (r: nat)
    ensures r < U64
  {
    (z * c) % U64
  }

  /** Multiplication by an odd constant is undone by its inverse modulo 2^64. */
  lemma TimesInverse(z: nat, c: nat, d: nat)
    requires z < U64 && (c * d) % U64 == 1
    ensures Times(Times(z, c), d) == z
  {
    var q, k := (z * c) / U64, (c * d) / U64;
    assert z * c == q * U64 + Times(z, c);
    assert c * d == k * U64 + 1;
    var t := Times(z, c) * d;
    assert t == (z * k - q * d) * U64 + z by {
      assert t == (z * c - q * U64) * d;
      assert (z * c) * d == z * (c * d);
      assert z * (k * U64 + 1) == (z * k) * U64 + z;
      assert (q * U64) * d == (q * d) * U64;
      assert (z * k) * U64 - (q * d) * U64 == (z * k - q * d) * U64;
    }
    ModUnique(z * k - q * d, U64, z);
  }

  lemma Inverses()
    ensures (MIX_1 * MIX_1_INVERSE) % U64 == 1 && (MIX_2 * MIX_2_INVERSE) % U64 == 1
    ensures (MIX_1_INVERSE * MIX_1) % U64 == 1 && (MIX_2_INVERSE * MIX_2) % U64 == 1
    ensures (GOLDEN * GOLDEN_INVERSE) % U64 == 1 && (GOLDEN_INVERSE * GOLDEN) % U64 == 1
  {
  }

  /** splitmix64's output mixer. */
  function Mix64(z: nat): nat {
    Fold(Times(Fold(Times(Fold(z, 30), MIX_1), 27), MIX_2), 31)
  }

  function Unmix64(y: nat): nat {
    Unfold(Times(Unfold(Times(Unfold(y, 31), MIX_2_INVERSE), 27), MIX_1_INVERSE), 30)
  }

  lemma FoldBelow(z: nat, k: nat)
    requires z < U64
    ensures Fold(z, k) < U64 && Unfold(z, k) < U64
  {
    hide Xor, Pow2;
    Pow2Is64();
    Smaller(z, Pow2(k));
    Smaller(z, Pow2(2 * k));
    XorBelow(z, Shr(z, k), 64);
    XorBelow(Xor(z, Shr(z, k)), Shr(z, 2 * k), 64);
  }

  lemma Smaller(z: nat, d: nat)
    requires d >= 1
    ensures 0 <= z / d <= z
  {
  }

  lemma Pow2Is64()
    ensures Pow2(64) == U64
  {
    hide Pow2;
    Pow2Is256();
    Pow2Sum(8, 8);
    Pow2Sum(16, 16);
    Pow2Sum(32, 32);
  }

  /** `mix64` is a bijection on `u64`: `Unmix64` is its inverse on both sides. */
  lemma Mix64Bijective(z: nat)
    requires z < U64
    ensures Mix64(z) < U64 && Unmix64(Mix64(z)) == z
    ensures Unmix64(z) < U64 && Mix64(Unmix64(z)) == z
  {
    hide Fold, Unfold, Times, Pow2;
    Pow2Is64();
    Inverses();
    FoldBelow(z, 30);
    UnfoldFold(z, 30);
    var a := Fold(z, 30);
    TimesInverse(a, MIX_1, MIX_1_INVERSE);
    var b := Times(a, MIX_1);
    UnfoldFold(b, 27);
    FoldBelow(b, 27);
    var c := Times(Fold(b, 27), MIX_2);
    TimesInverse(Fold(b, 27), MIX_2, MIX_2_INVERSE);
    UnfoldFold(c, 31);
    FoldBelow(c, 31);
    UnfoldFold(z, 31);
    FoldBelow(z, 31);
    var d := Unfold(z, 31);
    TimesInverse(d, MIX_2_INVERSE, MIX_2);
    var e := Times(d, MIX_2_INVERSE);
    UnfoldFold(e, 27);
    FoldBelow(e, 27);
    TimesInverse(Unfold(e, 27), MIX_1_INVERSE, MIX_1);
    var f := Times(Unfold(e, 27), MIX_1_INVERSE);
    UnfoldFold(f, 30);
    FoldBelow(f, 30);
  }

  /** Distinct inputs give distinct outputs. */
  lemma Mix64Injective(y: nat, z: nat)
    requires y < U64 && z < U64 && Mix64(y) == Mix64(z)
    ensures y == z
  {
    hide Mix64, Unmix64;
    Mix64Bijective(y);
    Mix64Bijective(z);
  }

  // ---------------------------------------------------------------------------------------------
  // The generator
  // ---------------------------------------------------------------------------------------------

  /** The state after `n` draws. */
  function StateAfter(seed: nat, n: nat): nat {
    (seed + n * GOLDEN) % U64
  }

  class Generator {
    var state: nat

    constructor (seed: nat)
      requires seed < U64
      ensures state == seed
    {
      state := seed;
    }

    /** Next 64 random bits; `seed` and `n` say where in its sequence the generator stands. */
    method NextU64(ghost seed: nat, ghost n: nat) returns (r: nat)
      requires state == StateAfter(seed, n)
      modifies this
      ensures state == StateAfter(seed, n + 1) && r == Mix64(state)
    {
      StateStep(seed, n);
      state := (state + GOLDEN) % U64;
      r := Mix64(state);
    }
  }

  lemma StateStep(seed: nat, n: nat)
    ensures StateAfter(seed, n + 1) == (StateAfter(seed, n) + GOLDEN) % U64
  {
    var x := seed + n * GOLDEN;
    assert seed + (n + 1) * GOLDEN == x + GOLDEN;
    assert x == (x / U64) * U64 + x % U64;
    var y := x % U64 + GOLDEN;
    assert x + GOLDEN == (x / U64 + y / U64) * U64 + y % U64;
    ModUnique(x / U64 + y / U64, U64, y % U64);
  }

  /** The state walk has period exactly 2^64: two draws see the same state iff they are a multiple of 2^64
      apart, and so does the output, which is a bijection of the state. */
  lemma FullPeriod(seed: nat, i: nat, j: nat)
    ensures StateAfter(seed, i) == StateAfter(seed, j) <==> (i - j) % U64 == 0
    ensures Mix64(StateAfter(seed, i)) == Mix64(StateAfter(seed, j)) <==> (i - j) % U64 == 0
  {
    hide Mix64;
    var x, y := seed + i * GOLDEN, seed + j * GOLDEN;
    assert x - y == (i - j) * GOLDEN;
    SameResidue(x, y, U64);
    Inverses();
    MultipleOf(i - j, GOLDEN, GOLDEN_INVERSE, U64);
    if Mix64(StateAfter(seed, i)) == Mix64(StateAfter(seed, j)) {
      Mix64Injective(StateAfter(seed, i), StateAfter(seed, j));
    }
  }

  lemma SameResidue(x: int, y: int, m: int)
    requires m >= 1
    ensures x % m == y % m <==> (x - y) % m == 0
  {
    var p, q := x / m, y / m;
    assert x == p * m + x % m && y == q * m + y % m;
    if x % m == y % m {
      assert x - y == (p - q) * m + 0;
      ModUnique(p - q, m, 0);
    }
    if (x - y) % m == 0 {
      var k := (x - y) / m;
      assert x - y == k * m;
      assert x == (k + q) * m + y % m;
      ModUnique(k + q, m, y % m);
    }
  }

  /** A factor with an inverse modulo `m` can be cancelled. */
  lemma MultipleOf(n: int, c: int, d: int, m: int)
    requires m >= 1 && (c * d) % m == (if m == 1 then 0 else 1)
    ensures (n * c) % m == 0 <==> n % m == 0
  {
    if n % m == 0 {
      var k := n / m;
      assert n == k * m;
      assert (k * m) * c == (k * c) * m;
      ModUnique(k * c, m, 0);
    }
    if (n * c) % m == 0 && m > 1 {
      var k, q := (n * c) / m, (c * d) / m;
      assert n * c == k * m && c * d == q * m + 1;
      Cancelled(n, c, d, m, k, q);
      ModUnique(k * d - n * q, m, 0);
    }
  }

  lemma Cancelled(n: int, c: int, d: int, m: int, k: int, q: int)
    requires n * c == k * m && c * d == q * m + 1
    ensures n == (k * d - n * q) * m + 0
  {
    assert (n * c) * d == n * (c * d);
    assert (k * m) * d == (k * d) * m;
    assert n * (q * m + 1) == (n * q) * m + n;
  }
}
