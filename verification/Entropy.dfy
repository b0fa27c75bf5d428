/** Bounded, ranged and weighted draws, each consuming four bytes of a finite byte string. */
module Entropy {
  import opened Arithmetic
  import opened SliceMaps
  import opened Backend
  import opened Rng

  /** The 32-bit value of four bytes, least significant first. */
  function LittleEndian(b: seq<Byte>): (v: nat)
    requires |b| >= 4
    ensures v < U32
  {
    (b[0] as int) + 256 * (b[1] as int) + 65536 * (b[2] as int) + 16777216 * (b[3] as int)
  }

  /** `(x * n) >> 32`. */
  function Scaled(x: nat, n: nat): (k: nat)
    requires x < U32 && n >= 1
    ensures k < n
  {
    ScaledBelow(x, n);
    (x * n) / U32
  }

  lemma ScaledBelow(x: nat, n: nat)
    requires x < U32 && n >= 1
    ensures (x * n) / U32 < n
  {
    MulMono(x, U32 - 1, n);
  }

  /** The draws that give `k` are exactly one interval of the 2^32 values, of length 2^32/n up to rounding;
      it is never empty. */
  lemma ScaledPreimage(x: nat, n: nat, k: nat)
    requires x < U32 && 1 <= n < U32 && k < n
    ensures Scaled(x, n) == k <==> CeilDiv(k * U32, n) <= x < CeilDiv((k + 1) * U32, n)
    ensures CeilDiv(k * U32, n) < U32 && Scaled(CeilDiv(k * U32, n), n) == k
    ensures U32 / n <= CeilDiv((k + 1) * U32, n) - CeilDiv(k * U32, n) <= U32 / n + 1
  {
    hide CeilDiv;
    CeilAtMost(k * U32, n, x);
    CeilAtMost((k + 1) * U32, n, x);
    QuotientIs(x * n, U32, k);
    MulMono(k + 1, n, U32);
    CeilAtMost(k * U32, n, U32 - 1);
    IntervalLength(k * U32, U32, n);
    var lo := CeilDiv(k * U32, n);
    CeilReached(k * U32, n);
    LastInterval(n, k);
    QuotientIs(lo * n, U32, k);
  }

  lemma CeilAtMost(y: nat, n: nat, x: nat)
    requires n >= 1
    ensures CeilDiv(y, n) <= x <==> y <= x * n
  {
    var q := CeilDiv(y, n);
    if q <= x { MulMono(q, x, n); }
    if x < q { MulMono(x, q - 1, n); }
  }

  lemma CeilReached(y: nat, n: nat)
    requires n >= 1
    ensures y <= CeilDiv(y, n) * n < y + n
  {
  }

  lemma QuotientIs(y: nat, d: nat, k: nat)
    requires d >= 1
    ensures y / d == k <==> k * d <= y < (k + 1) * d
  {
    var q := y / d;
    assert y == q * d + y % d;
    if q < k { MulMono(q + 1, k, d); }
    if k < q { MulMono(k + 1, q, d); }
  }

  lemma LastInterval(n: nat, k: nat)
    requires 1 <= n < U32 && k < n
    ensures k * U32 + n <= (k + 1) * U32 && k * U32 + (n - 1) < (k + 1) * U32 && k * U32 <= (U32 - 1) * n
  {
    MulMono(k, n - 1, U32);
    assert (n - 1) * U32 == n * U32 - U32;
    assert (U32 - 1) * n == n * U32 - n;
  }

  /** Rounding moves each end of an interval of length `d / n` by less than one. */
  lemma IntervalLength(y: nat, d: nat, n: nat)
    requires n >= 1
    ensures d / n <= CeilDiv(y + d, n) - CeilDiv(y, n) <= d / n + 1
  {
    var q, r := d / n, d % n;
    var lo := CeilDiv(y, n);
    assert d == q * n + r;
    CeilReached(y, n);
    assert (lo + q + 1) * n == lo * n + q * n + n;
    CeilAtMost(y + d, n, lo + q + 1);
    if lo + q >= 1 {
      assert (lo + q - 1) * n == lo * n + q * n - n;
      CeilAtMost(y + d, n, lo + q - 1);
    }
  }

  /** The sum of the weights. */
  function Sum(w: seq<nat>): nat {
    if w == [] then 0 else Sum(w[..|w| - 1]) + w[|w| - 1]
  }

  lemma SumStep(w: seq<nat>, i: nat)
    requires i < |w|
    ensures Sum(w[..i + 1]) == Sum(w[..i]) + w[i]
  {
    assert w[..i + 1][..i] == w[..i];
  }

  lemma {:induction false} SumMono(w: seq<nat>, i: nat, j: nat)
    requires i <= j <= |w|
    ensures Sum(w[..i]) <= Sum(w[..j])
  {
    if i < j {
      SumMono(w, i, j - 1);
      SumStep(w, j - 1);
    }
  }

  /** Entry `i` is what the value `x` below the total picks: the entry whose interval of the running sum
      holds `x`. */
  ghost predicate Picks(w: seq<nat>, x: nat, i: nat) {
    i < |w| && Sum(w[..i]) <= x < Sum(w[..i + 1])
  }

  /** The pick is unique, and of an entry with a weight. */
  lemma PicksOne(w: seq<nat>, x: nat, i: nat, j: nat)
    requires Picks(w, x, i)
    ensures w[i] > 0
    ensures Picks(w, x, j) ==> i == j
  {
    SumStep(w, i);
    if Picks(w, x, j) {
      if i < j { SumMono(w, i + 1, j); }
      if j < i { SumMono(w, j + 1, i); }
    }
  }

  /** 32-bit values read off a byte sequence, least significant byte first; any stream of values is one. */
  class ByteSource {
    var data: seq<Byte>

    constructor (data: seq<Byte>)
      ensures this.data == data
    {
      this.data := data;
    }

    method NextU32() returns (r: Option<nat>)
      modifies this
      ensures r.None? <==> |old(data)| < 4
      ensures r.None? ==> data == old(data)
      ensures r.Some? ==> r.value == LittleEndian(old(data)) < U32 && data == old(data)[4..]
    {
      if |data| < 4 {
        return None;
      }
      r := Some(LittleEndian(data));
      data := data[4..];
    }

    /** Uniform in `0..n`. */
    method Below(n: nat) returns (r: Option<nat>)
      requires 1 <= n < U32
      modifies this
      ensures r.None? <==> |old(data)| < 4
      ensures r.Some? ==> r.value == Scaled(LittleEndian(old(data)), n) < n && data == old(data)[4..]
    {
      var x := NextU32();
      if x.None? {
        return None;
      }
      r := Some(Scaled(x.value, n));
    }

    /** Uniform in `lo..=hi`. */
    method InRange(lo: nat, hi: nat) returns (r: Option<nat>)
      requires lo <= hi && hi - lo + 1 < U32
      modifies this
      ensures r.None? <==> |old(data)| < 4
      ensures r.Some? ==> lo <= r.value <= hi && data == old(data)[4..]
                          && r.value == lo + Scaled(LittleEndian(old(data)), hi - lo + 1)
    {
      var x := Below(hi - lo + 1);
      if x.None? {
        return None;
      }
      r := Some(lo + x.value);
    }

    /** An index picked with probability proportional to its weight; never one of weight zero. */
    method Weighted(weights: seq<nat>) returns (r: Option<nat>)
      requires 1 <= Sum(weights) < U32
      modifies this
      ensures r.None? <==> |old(data)| < 4
      ensures r.Some? ==> r.value < |weights| && weights[r.value] > 0 && data == old(data)[4..]
                          && Picks(weights, Scaled(LittleEndian(old(data)), Sum(weights)), r.value)
    {
      assert weights[..|weights|] == weights;
      var total := Sum(weights);
      var drawn := Below(total);
      if drawn.None? {
        return None;
      }
      var x := drawn.value;
      var i := 0;
      while i < |weights|
        invariant 0 <= i <= |weights| && 0 <= x && x + Sum(weights[..i]) == drawn.value
        invariant data == old(data)[4..]
      {
        SumStep(weights, i);
        if x < weights[i] {
          PicksOne(weights, drawn.value, i, i);
          return Some(i);
        }
        x := x - weights[i];
        i := i + 1;
      }
      assert false;
    }
  }
}
