/** Powers of two, rounding and division facts that the size classes and the slice arithmetic share.
    A machine shift `x << n` is `x * Pow2(n)`, `x >> n` is `x / Pow2(n)`, and for a power of two `a`
    the mask `x & (a - 1)` is `x % a`. */
module Arithmetic {

  /** The largest `usize` of wasm32. */
  const USIZE_MAX := 0xFFFF_FFFF

  function Pow2(n: nat): (p: nat)
    ensures p >= 1
  {
    if n == 0 then 1 else 2 * Pow2(n - 1)
  }

  function Min(a: int, b: int): int {
    if a < b then a else b
  }

  function Max(a: int, b: int): int {
    if a < b then b else a
  }

  /** `n.is_power_of_two()`. */
  predicate IsPow2(n: int) {
    n == 1 || (n > 1 && n % 2 == 0 && IsPow2(n / 2))
  }

  /** Index of the top set bit: `usize::BITS - 1 - w.leading_zeros()`. */
  function TopBit(w: nat): (b: nat)
    requires w >= 1
    ensures Pow2(b) <= w < 2 * Pow2(b)
  {
    if w == 1 then 0 else 1 + TopBit(w / 2)
  }

  function CeilDiv(x: nat, d: nat): (q: nat)
    requires d >= 1
    ensures (q - 1) * d < x <= q * d
  {
    CeilDivBounds(x, d);
    if x % d == 0 then x / d else x / d + 1
  }

  lemma CeilDivBounds(x: nat, d: nat)
    requires d >= 1
    ensures var q := if x % d == 0 then x / d else x / d + 1; (q - 1) * d < x <= q * d
  {
    assert x == (x / d) * d + x % d;
  }

  /** The largest power of two dividing `n`: `n & n.wrapping_neg()`. */
  function LowBit(n: nat): (p: nat)
    requires n >= 1
    ensures p >= 1
  {
    if n % 2 == 1 then 1 else 2 * LowBit(n / 2)
  }

  /** `round_up_pow2`. */
  function RoundUp(size: nat, align: nat): (r: nat)
    requires align >= 1
    ensures r % align == 0 && size <= r < size + align
  {
    var over := size % align;
    assert size == (size / align) * align + over;
    if over == 0 then size
    else
      ModUnique((size / align) + 1, align, 0);
      size + align - over
  }

  lemma MulMono(a: int, b: int, c: int)
    requires a <= b && 0 <= c
    ensures a * c <= b * c
  {
  }

  lemma ModUnique(q: int, d: int, r: int)
    requires 0 <= r < d
    ensures (q * d + r) % d == r && (q * d + r) / d == q
  {
    var x := q * d + r;
    assert x == (x / d) * d + x % d;
    assert (x / d - q) * d == r - x % d;
    if x / d > q {
      MulMono(1, x / d - q, d);
    } else if x / d < q {
      MulMono(x / d - q, -1, d);
    }
  }

  /** A multiple of `a` that is a multiple of `b`: divisibility is transitive. */
  lemma DividesTrans(x: int, b: int, a: int)
    requires a >= 1 && b >= 1 && x % b == 0 && b % a == 0
    ensures x % a == 0
  {
    var q, r := x / b, b / a;
    assert x == q * b && b == r * a;
    assert x == (q * r) * a;
    ModUnique(q * r, a, 0);
  }

  lemma DividesSum(x: int, y: int, a: int)
    requires a >= 1 && x % a == 0 && y % a == 0
    ensures (x + y) % a == 0 && (x - y) % a == 0
  {
    var q, r := x / a, y / a;
    assert x == q * a && y == r * a;
    assert x + y == (q + r) * a && x - y == (q - r) * a;
    ModUnique(q + r, a, 0);
    ModUnique(q - r, a, 0);
  }

  lemma DividesMul(x: int, y: int, a: int)
    requires a >= 1 && x % a == 0
    ensures (x * y) % a == 0 && (y * x) % a == 0
  {
    var q := x / a;
    assert x == q * a;
    assert x * y == (q * y) * a;
    ModUnique(q * y, a, 0);
  }

  lemma {:induction false} Pow2Mono(m: nat, n: nat)
    requires m <= n
    ensures Pow2(m) <= Pow2(n)
  {
    if m < n {
      Pow2Mono(m, n - 1);
    }
  }

  /** Of two powers of two the smaller divides the larger. */
  lemma {:induction false} Pow2Divides(a: int, b: int)
    requires IsPow2(a) && IsPow2(b) && a <= b
    ensures b % a == 0
  {
    if a == 1 {
    } else {
      Pow2Divides(a / 2, b / 2);
      var q := (b / 2) / (a / 2);
      assert b / 2 == q * (a / 2);
      assert b == q * a;
      ModUnique(q, a, 0);
    }
  }

  lemma {:induction false} Pow2IsPow2(n: nat)
    ensures IsPow2(Pow2(n))
  {
    if n > 0 {
      Pow2IsPow2(n - 1);
    }
  }

  lemma ScaleDivides(x: int, d: int)
    requires d >= 1
    ensures x % d == 0 <==> (2 * x) % (2 * d) == 0
  {
    var q, r := x / d, x % d;
    assert x == q * d + r;
    assert 2 * x == q * (2 * d) + 2 * r;
    ModUnique(q, 2 * d, 2 * r);
  }

  lemma {:induction false} LowBitDivides(n: nat)
    requires n >= 1
    ensures n % LowBit(n) == 0 && IsPow2(LowBit(n))
  {
    hide IsPow2, LowBit;
    LowBitStep(n);
    if n % 2 == 0 {
      LowBitDivides(n / 2);
      ScaleDivides(n / 2, LowBit(n / 2));
      DoubleIsPow2(LowBit(n / 2));
    }
  }

  lemma LowBitStep(n: nat)
    requires n >= 1
    ensures n % 2 == 1 ==> LowBit(n) == 1 && IsPow2(LowBit(n))
    ensures n % 2 == 0 ==> LowBit(n) == 2 * LowBit(n / 2)
  {
  }

  lemma DoubleIsPow2(n: nat)
    requires IsPow2(n)
    ensures IsPow2(2 * n)
  {
  }

  /** The low bit is the largest power of two dividing `n`: every other one divides it. */
  lemma {:induction false} LowBitLargest(n: nat, a: nat)
    requires n >= 1 && IsPow2(a) && n % a == 0
    ensures LowBit(n) % a == 0
    decreases n
  {
    if a != 1 {
      if n % 2 == 1 {
        DividesTrans(n, a, 2);
      } else {
        ScaleDivides(n / 2, a / 2);
        LowBitLargest(n / 2, a / 2);
        ScaleDivides(LowBit(n / 2), a / 2);
      }
    }
  }

  lemma RoundUpLeast(size: nat, align: nat, m: nat)
    requires align >= 1 && m % align == 0
    ensures RoundUp(size, align) <= m <==> size <= m
  {
    var r := RoundUp(size, align);
    if size <= m < r {
      var q, t := r / align, m / align;
      assert r == q * align && m == t * align;
      if t + 1 <= q { MulMono(t + 1, q, align); } else { MulMono(q, t, align); }
    }
  }

  // ---------------------------------------------------------------------------------------------
  // Binary digits
  // ---------------------------------------------------------------------------------------------

  lemma Pow2Next(n: nat)
    ensures Pow2(n + 1) == 2 * Pow2(n) && Pow2(0) == 1
  {
  }

  lemma SameDigits(x: nat, y: nat)
    requires x % 2 == y % 2 && x / 2 == y / 2
    ensures x == y
  {
  }

  lemma Pow2Zero()
    ensures Pow2(0) == 1
  {
  }

  lemma {:induction false} Pow2Sum(j: nat, k: nat)
    ensures Pow2(j + k) == Pow2(j) * Pow2(k)
  {
    if j > 0 {
      Pow2Sum(j - 1, k);
      assert Pow2(j) == 2 * Pow2(j - 1);
    }
  }

  lemma Pow2Is256()
    ensures Pow2(8) == 256
  {
    assert Pow2(4) == 16;
  }

  /** The remainder modulo a power of two, digit by digit. */
  lemma LowDigits(a: nat, k: nat)
    requires k > 0
    ensures (a % Pow2(k)) % 2 == a % 2 && (a % Pow2(k)) / 2 == (a / 2) % Pow2(k - 1)
  {
    DoubledModulus(a, Pow2(k - 1));
  }

  lemma DoubledModulus(a: nat, h: nat)
    requires h >= 1
    ensures (a % (2 * h)) % 2 == a % 2 && (a % (2 * h)) / 2 == (a / 2) % h
  {
    var half, bit := a / 2, a % 2;
    var q, r := half / h, half % h;
    assert half == q * h + r && a == 2 * half + bit;
    assert a == q * (2 * h) + (2 * r + bit);
    ModUnique(q, 2 * h, 2 * r + bit);
  }
}
