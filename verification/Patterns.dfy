/** The contents the tester writes to blocks and checks: a word per eight bytes, computed from the block's
    seed and the position, over the spans a block of a given length is sampled at. */
module Patterns {
  import opened Arithmetic
  import opened SliceMaps
  import opened Backend
  import opened Rng
  import opened HeapSteps
  import opened HeapLemmas
  import opened Heaps

  const DENSE_PREFIX := 65536
  const STRIDE := 4096

  // ---------------------------------------------------------------------------------------------
  // The pattern
  // ---------------------------------------------------------------------------------------------

  /** The pattern word over bytes `8 * chunk .. 8 * chunk + 8`. */
  function Word(seed: nat, chunk: nat): nat {
    Xor(seed, Times(chunk, GOLDEN))
  }

  /** For a fixed seed the word is injective in the chunk, for a fixed chunk it is injective in the seed. */
  lemma WordInjective(s: nat, t: nat, c: nat, d: nat)
    requires c < U64 && d < U64
    ensures Word(s, c) == Word(s, d) ==> c == d
    ensures Word(s, c) == Word(t, c) ==> s == t
  {
    hide Xor, Times;
    XorUndo(Times(c, GOLDEN), s);
    XorUndo(Times(d, GOLDEN), s);
    XorUndo(s, Times(c, GOLDEN));
    XorUndo(t, Times(c, GOLDEN));
    Inverses();
    TimesInverse(c, GOLDEN, GOLDEN_INVERSE);
    TimesInverse(d, GOLDEN, GOLDEN_INVERSE);
  }

  /** Byte `i` of a word, least significant first. */
  function ByteOf(w: nat, i: nat): Byte {
    Shr(w, 8 * i) % 256
  }

  function WordBytes(w: nat): (b: seq<Byte>)
    ensures |b| == 8 && forall i :: 0 <= i < 8 ==> b[i] == ByteOf(w, i)
  {
    seq<Byte>(8, i requires 0 <= i < 8 => ByteOf(w, i))
  }

  /** Different 64-bit words differ in some byte. */
  lemma {:induction false} BytesDetermine(w: nat, v: nat, k: nat)
    requires w < Pow2(8 * k) && v < Pow2(8 * k) && forall i :: 0 <= i < k ==> ByteOf(w, i) == ByteOf(v, i)
    ensures w == v
  {
    hide Shr, Pow2;
    if k > 0 {
      ShrNone(w);
      ShrNone(v);
      assert ByteOf(w, 0) == ByteOf(v, 0);
      DropByte(w, k);
      DropByte(v, k);
      forall i | 0 <= i < k - 1 ensures ByteOf(w / 256, i) == ByteOf(v / 256, i) {
        NextByte(w, i);
        NextByte(v, i);
        assert ByteOf(w, i + 1) == ByteOf(v, i + 1);
      }
      BytesDetermine(w / 256, v / 256, k - 1);
    } else {
      Pow2Zero();
    }
  }

  lemma WordsBelow(seed: nat, chunk: nat)
    requires seed < U64
    ensures Word(seed, chunk) < Pow2(64)
  {
    hide Times, Xor, Pow2;
    Pow2Is64();
    XorBelow(seed, Times(chunk, GOLDEN), 64);
  }

  lemma DifferentByte(w: nat, v: nat) returns (k: nat)
    requires w < Pow2(64) && v < Pow2(64) && w != v
    ensures k < 8 && ByteOf(w, k) != ByteOf(v, k)
  {
    hide ByteOf, Pow2;
    if forall k :: 0 <= k < 8 ==> ByteOf(w, k) == ByteOf(v, k) { BytesDetermine(w, v, 8); }
    k :| k < 8 && ByteOf(w, k) != ByteOf(v, k);
  }

  /** Seeds come from a counter through the mixer, so the words of differently numbered blocks differ, in
      some byte. */
  lemma BlocksDiffer(i: nat, j: nat, chunk: nat)
    requires i < U64 && j < U64 && i != j && chunk < U64
    ensures Word(Mix64(i), chunk) != Word(Mix64(j), chunk)
    ensures exists k :: 0 <= k < 8 && ByteOf(Word(Mix64(i), chunk), k) != ByteOf(Word(Mix64(j), chunk), k)
  {
    hide Mix64, Times, Xor, ByteOf, Pow2;
    WordInjective(Mix64(i), Mix64(j), chunk, chunk);
    Mix64Bijective(i);
    Mix64Bijective(j);
    WordsBelow(Mix64(i), chunk);
    WordsBelow(Mix64(j), chunk);
    if Mix64(i) == Mix64(j) { Mix64Injective(i, j); }
    var k := DifferentByte(Word(Mix64(i), chunk), Word(Mix64(j), chunk));
  }

  lemma DropByte(w: nat, k: nat)
    requires k > 0 && w < Pow2(8 * k)
    ensures w / 256 < Pow2(8 * (k - 1))
  {
    hide Pow2;
    Pow2Sum(8, 8 * (k - 1));
    Pow2Is256();
    var p := Pow2(8 * (k - 1));
    if w / 256 >= p { MulMono(p, w / 256, 256); }
  }

  lemma NextByte(w: nat, i: nat)
    ensures ByteOf(w, i + 1) == ByteOf(w / 256, i)
  {
    hide Pow2;
    Pow2Sum(8, 8 * i);
    Pow2Is256();
    DivDiv(w, 256, Pow2(8 * i));
  }

  // ---------------------------------------------------------------------------------------------
  // When every byte of two words differs
  // ---------------------------------------------------------------------------------------------

  /** Bytes xor bytewise. */
  lemma ByteOfXor(a: nat, b: nat, k: nat)
    ensures ByteOf(Xor(a, b), k) == Xor(ByteOf(a, k), ByteOf(b, k))
  {
    hide Xor, Shr, Pow2;
    XorShifted(a, b, 8 * k);
    XorLow(Shr(a, 8 * k), Shr(b, 8 * k), 8);
    Pow2Is256();
  }

  /** The low digits of a xor come from the low digits. */
  lemma {:induction false} XorLow(a: nat, b: nat, k: nat)
    ensures Xor(a, b) % Pow2(k) == Xor(a % Pow2(k), b % Pow2(k))
  {
    hide Xor, Pow2;
    if k == 0 {
      Pow2Zero();
      XorZero(0);
    } else {
      XorLow(a / 2, b / 2, k - 1);
      LowDigits(a, k);
      LowDigits(b, k);
      LowDigits(Xor(a, b), k);
      XorDigit(a, b);
      XorDigit(a % Pow2(k), b % Pow2(k));
      SameDigits(Xor(a, b) % Pow2(k), Xor(a % Pow2(k), b % Pow2(k)));
    }
  }

  /** Whether the words of two chunks agree in a byte does not depend on the seed. */
  lemma SharingIsSeedless(seed: nat, c: nat, d: nat, k: nat)
    ensures ByteOf(Word(seed, c), k) == ByteOf(Word(seed, d), k)
            <==> ByteOf(Times(c, GOLDEN), k) == ByteOf(Times(d, GOLDEN), k)
  {
    hide ByteOf, Times, Xor;
    var x, y, s := ByteOf(Times(c, GOLDEN), k), ByteOf(Times(d, GOLDEN), k), ByteOf(seed, k);
    ByteOfXor(seed, Times(c, GOLDEN), k);
    ByteOfXor(seed, Times(d, GOLDEN), k);
    XorUndo(x, s);
    XorUndo(y, s);
  }

  /** With `p / q` and `p2 / q2` neighbouring approximations of `g / m` from opposite sides, no multiple of
      `g` by less than `q2` comes closer to a multiple of `m` than the one by `q`. */
  lemma BestApproximation(g: int, m: int, q: int, p: int, q2: int, p2: int, u: int, e: int, f: int)
    requires q >= 1 && (q * p2 - q2 * p == 1 || q * p2 - q2 * p == -1)
    requires var near, far := q * g - p * m, q2 * g - p2 * m;
             (near >= u && far <= 0) || (near <= -u && far >= 0)
    requires u >= 1 && 1 <= e < q2
    ensures e * g - f * m >= u || e * g - f * m <= -u
  {
    var near, far := q * g - p * m, q2 * g - p2 * m;
    var x, y := Unimodular(q, p, q2, p2, q * p2 - q2 * p, e, f);
    Recombined(g, m, q, p, q2, p2, x, y, e, f);
    SignsOpposite(q, q2, x, y, e);
    if x >= 1 { FarSum(near, far, x, y, u); } else { FarSum(near, far, -x, -y, u); }
  }

  lemma Unimodular(q: int, p: int, q2: int, p2: int, s: int, e: int, f: int) returns (x: int, y: int)
    requires s == q * p2 - q2 * p && (s == 1 || s == -1)
    ensures x * q + y * q2 == e && x * p + y * p2 == f
  {
    x, y := e * p2 - f * q2, q * f - p * e;
    assert x * q + y * q2 == e * (q * p2 - q2 * p);
    assert x * p + y * p2 == f * (q * p2 - q2 * p);
    if s == -1 { x, y := -x, -y; }
  }

  lemma Recombined(g: int, m: int, q: int, p: int, q2: int, p2: int, x: int, y: int, e: int, f: int)
    requires x * q + y * q2 == e && x * p + y * p2 == f
    ensures e * g - f * m == x * (q * g - p * m) + y * (q2 * g - p2 * m)
  {
    assert (x * q + y * q2) * g == x * (q * g) + y * (q2 * g);
    assert (x * p + y * p2) * m == x * (p * m) + y * (p2 * m);
  }

  lemma SignsOpposite(q: int, q2: int, x: int, y: int, e: int)
    requires q >= 1 && x * q + y * q2 == e && 1 <= e < q2
    ensures (x >= 1 && y <= 0) || (x <= -1 && y >= 1)
  {
    if x >= 1 {
      MulMono(1, x, q);
      if y >= 1 { MulMono(1, y, q2); }
    } else {
      MulMono(x, 0, q);
      if y <= 0 { MulMono(y, 0, q2); }
      if x == 0 { MulMono(1, y, q2); }
    }
  }

  lemma FarSum(near: int, far: int, x: int, y: int, u: int)
    requires x >= 1 && y <= 0 && ((near >= u && far <= 0) || (near <= -u && far >= 0)) && u >= 1
    ensures x * near + y * far >= u || x * near + y * far <= -u
  {
    if near >= u {
      MulMono(1, x, near);
      MulMono(0, -y, -far);
    } else {
      MulMono(1, x, -near);
      MulMono(0, -y, far);
    }
  }

  /** The multiples of the constant by less than 55 stay clear of the multiples of every `256^(k + 1)`. */
  lemma MultiplesStayClear(k: nat, e: int, f: int)
    requires k < 8 && 1 <= e < 55
    ensures var d := e * GOLDEN - f * (256 * Pow2(8 * k)); d >= Pow2(8 * k) || d + Pow2(8 * k) <= 0
  {
    hide Pow2;
    BytePowers();
    match k {
      case 0 => BestApproximation(GOLDEN, 0x100, 12, 0x76a99b4b1f77dd1, 61, 0x25b338013354bf91, 0x1, e, f);
      case 1 => BestApproximation(GOLDEN, 0x10000, 33, 0x146526b0e9689a, 196, 0x79227932057507, 0x100, e, f);
      case 2 => BestApproximation(GOLDEN, 0x1000000, 24, 0xed5336963ef, 55, 0x21fdeb26da59, 0x10000, e, f);
      case 3 => BestApproximation(GOLDEN, 0x100000000, 2, 0x13c6ef373, 179, 0x6ea0ca1cb4, 0x1000000, e, f);
      case 4 => BestApproximation(GOLDEN, 0x10000000000, 29, 0x11ec48ca, 69, 0x2aa4f3cf, 0x100000000, e, f);
      case 5 => BestApproximation(GOLDEN, 0x1000000000000, 21, 0xcfa8d, 61, 0x25b338, 0x10000000000, e, f);
      case 6 => BestApproximation(GOLDEN, 0x100000000000000, 23, 0xe37, 60, 0x2515, 0x1000000000000, e, f);
      case 7 => BestApproximation(GOLDEN, 0x10000000000000000, 34, 0x15, 55, 0x22, 0x100000000000000, e, f);
    }
  }

  lemma BytePowers()
    ensures Pow2(0) == 1 && Pow2(8) == 0x100 && Pow2(16) == 0x1_0000 && Pow2(24) == 0x100_0000
    ensures Pow2(32) == 0x1_0000_0000 && Pow2(40) == 0x100_0000_0000 && Pow2(48) == 0x1_0000_0000_0000
    ensures Pow2(56) == 0x100_0000_0000_0000 && Pow2(64) == U64
  {
    hide Pow2;
    Pow2Zero();
    Pow2Is256();
    Pow2Sum(8, 8);
    Pow2Sum(8, 16);
    Pow2Sum(8, 24);
    Pow2Sum(8, 32);
    Pow2Sum(8, 40);
    Pow2Sum(8, 48);
    Pow2Sum(8, 56);
  }

  /** A byte of a wrapped multiple is one of the multiple itself. */
  lemma TimesByte(z: nat, k: nat)
    requires k < 8
    ensures ByteOf(Times(z, GOLDEN), k) == (z * GOLDEN) / Pow2(8 * k) % 256
  {
    hide Pow2;
    var u, w := Pow2(8 * k), Pow2(8 * (7 - k));
    BytePowers();
    Pow2Sum(8 * k, 8 * (7 - k));
    WrappedQuotient(z * GOLDEN, u, w);
  }

  lemma WrappedQuotient(x: nat, u: nat, w: nat)
    requires u >= 1 && u * w * 256 == U64
    ensures (x % U64) / u % 256 == x / u % 256
  {
    var a, r := x / U64, x % U64;
    var t := a * w;
    assert x == a * (u * w * 256) + r;
    assert a * (u * w * 256) == (t * 256) * u;
    var q, v := r / u, r % u;
    assert x == (t * 256 + q) * u + v;
    ModUnique(t * 256 + q, u, v);
    assert t * 256 + q == (t + q / 256) * 256 + q % 256;
    ModUnique(t + q / 256, 256, q % 256);
  }

  /** Two chunks fewer than 55 apart, 440 bytes, differ in every byte of their words, whatever the seed. */
  lemma NearChunksDiffer(seed: nat, c: nat, d: nat, k: nat)
    requires c < d < c + 55 && k < 8
    ensures ByteOf(Word(seed, c), k) != ByteOf(Word(seed, d), k)
  {
    hide ByteOf, Word, Times, Pow2;
    SharingIsSeedless(seed, c, d, k);
    TimesByte(c, k);
    TimesByte(d, k);
    var x, y, u := c * GOLDEN, d * GOLDEN, Pow2(8 * k);
    if x / u % 256 == y / u % 256 {
      var f := CloseQuotients(x, y, u);
      assert y - x == (d - c) * GOLDEN;
      MultiplesStayClear(k, d - c, f);
    }
  }

  lemma CloseQuotients(x: nat, y: nat, u: nat) returns (f: int)
    requires u >= 1 && x / u % 256 == y / u % 256
    ensures 0 < y - x - f * (256 * u) + u < 2 * u
  {
    var a, b := x / u, y / u;
    f := b / 256 - a / 256;
    assert b - a == f * 256;
    assert x == a * u + x % u && y == b * u + y % u;
    assert b * u - a * u == (b - a) * u;
    assert (f * 256) * u == f * (256 * u);
  }

  /** Chunks 0 and 55 share their third byte, whatever the seed. */
  lemma ChunksShareByte(seed: nat)
    ensures ByteOf(Word(seed, 0), 2) == ByteOf(Word(seed, 55), 2)
  {
    hide ByteOf, Word, Times, Pow2;
    SharingIsSeedless(seed, 0, 55, 2);
    BytePowers();
    TimesByte(0, 2);
    TimesByte(55, 2);
  }

  /** Exactly when every chunk of a block differs from every other in every byte: up to 55 chunks, a block of
      at most 440 bytes. */
  lemma EveryByteDiffers(seed: nat, n: nat)
    ensures (forall c: nat, d: nat, k: nat :: c < d < n && k < 8 ==>
               ByteOf(Word(seed, c), k) != ByteOf(Word(seed, d), k))
            <==> n <= 55
  {
    hide ByteOf, Word;
    if n <= 55 {
      forall c: nat, d: nat, k: nat | c < d < n && k < 8
        ensures ByteOf(Word(seed, c), k) != ByteOf(Word(seed, d), k)
      {
        NearChunksDiffer(seed, c, d, k);
      }
    } else {
      ChunksShareByte(seed);
    }
  }

  /** In the tester's first block, whose seed is the first mixed, chunks 0 and 55 have different words that
      share a byte. */
  lemma WordsCanShareBytes()
    ensures Word(Mix64(1), 0) != Word(Mix64(1), 55) && ByteOf(Word(Mix64(1), 0), 2) == ByteOf(Word(Mix64(1), 55), 2)
  {
    hide ByteOf, Word, Mix64;
    WordInjective(Mix64(1), Mix64(1), 0, 55);
    ChunksShareByte(Mix64(1));
  }

  /** What byte `x` of a block is expected to hold: the pattern of a seed, or zero. */
  function Expected(seed: Option<nat>, x: nat): Byte {
    match seed
    case None => 0
    case Some(s) => ByteOf(Word(s, x / 8), x % 8)
  }

  /** The eight bytes expected at `8 * chunk`. */
  function ExpectedBytes(seed: Option<nat>, chunk: nat): (b: seq<Byte>)
    ensures |b| == 8 && forall x :: 8 * chunk <= x < 8 * chunk + 8 ==> b[x - 8 * chunk] == Expected(seed, x)
  {
    WordAt(chunk);
    match seed
    case None => [0, 0, 0, 0, 0, 0, 0, 0]
    case Some(s) => WordBytes(Word(s, chunk))
  }

  lemma WordAt(chunk: nat)
    ensures forall x :: 8 * chunk <= x < 8 * chunk + 8 ==> x / 8 == chunk && x % 8 == x - 8 * chunk
  {
  }

  // ---------------------------------------------------------------------------------------------
  // Spans
  // ---------------------------------------------------------------------------------------------

  datatype SpanState = Dense | Stride(start: nat) | Tail | Done

  /** The spans still to come for a block of `len` bytes of which the first `limit` are looked at. */
  function Rest(len: nat, limit: nat, state: SpanState): seq<(nat, nat)>
    decreases match state case Dense => 3 case Stride(_) => 2 case Tail => 1 case Done => 0,
              match state case Stride(s) => limit - s case _ => 0
  {
    match state
    case Dense =>
      var end := if limit < DENSE_PREFIX then limit else DENSE_PREFIX;
      (if end > 0 then [(0, end)] else []) + Rest(len, limit, Stride(DENSE_PREFIX))
    case Stride(s) =>
      if s + 8 <= limit then [(s, s + 8)] + Rest(len, limit, Stride(s + STRIDE)) else Rest(len, limit, Tail)
    case Tail =>
      if limit == len && len > DENSE_PREFIX then [((len - 1) / 8 * 8, len)] else []
    case Done => []
  }

  function SpansOf(len: nat, limit: nat): seq<(nat, nat)> {
    Rest(len, limit, Dense)
  }

  ghost predicate InSpans(spans: seq<(nat, nat)>, x: nat) {
    exists i :: 0 <= i < |spans| && spans[i].0 <= x < spans[i].1
  }

  /** Byte `x` is in one of the eight-byte words that start every `STRIDE` bytes from `from` on and end by
      `limit`. */
  ghost predicate OnStride(from: nat, limit: nat, x: nat) {
    x >= from && (x - from) % STRIDE < 8 && x - (x - from) % STRIDE + 8 <= limit
  }

  /** Which bytes of a block carry the pattern, when only its first `limit` are looked at: the dense prefix,
      one word every `STRIDE` bytes behind it, and the word of the last byte when nothing is cut off. */
  ghost predicate Sampled(len: nat, limit: nat, x: nat) {
    x < limit && (x < DENSE_PREFIX || OnStride(DENSE_PREFIX, limit, x) || (limit == len && (len - 1) / 8 * 8 <= x))
  }

  /** The first 64 KiB of a block are all sampled, and so is some byte of any 4089 in a row. */
  lemma LongChangesSeen(len: nat, x: nat) returns (y: nat)
    requires x < len && (x < 65536 || x + 4089 <= len)
    ensures x <= y < x + 4089 && Sampled(len, len, y) && (x < 65536 ==> y == x)
  {
    if x < DENSE_PREFIX { return x; }
    var r := (x - DENSE_PREFIX) % STRIDE;
    y := if r < 8 then x else x + (STRIDE - r);
    var q := (x - DENSE_PREFIX) / STRIDE;
    var k := if r < 8 then q else q + 1;
    StrideOrTail(len, k, y);
  }

  lemma StrideOrTail(len: nat, k: nat, y: nat)
    requires DENSE_PREFIX + k * STRIDE <= y < DENSE_PREFIX + k * STRIDE + 8 && y < len
    ensures Sampled(len, len, y)
  {
    assert (y - DENSE_PREFIX) % STRIDE == y - DENSE_PREFIX - k * STRIDE;
    var w := DENSE_PREFIX + k * STRIDE;
    if w + 8 > len { assert (len - 1) / 8 * 8 <= w; }
  }

  /** Fewer need not hold one: in every block that reaches past them, 4088 bytes in a row are not looked at. */
  lemma ShortChangesCanHide(len: nat, y: nat)
    requires len > 69632 && 69632 - 4088 <= y < 69632
    ensures !Sampled(len, len, y)
  {
    assert (y - DENSE_PREFIX) % STRIDE == y - DENSE_PREFIX;
  }

  /** The spans cover the sampled bytes, all of them and no others. */
  lemma SpansAreSampled(len: nat, limit: nat, x: nat)
    requires limit <= len
    ensures InSpans(SpansOf(len, limit), x) <==> Sampled(len, limit, x)
  {
    hide OnStride;
    var end := if limit < DENSE_PREFIX then limit else DENSE_PREFIX;
    RestCovers(len, limit, DENSE_PREFIX, x);
    if end > 0 { FirstSpan((0, end), Rest(len, limit, Stride(DENSE_PREFIX)), x); }
    StrideInside(DENSE_PREFIX, limit, x);
  }

  lemma StrideInside(from: nat, limit: nat, x: nat)
    ensures OnStride(from, limit, x) ==> from <= x < limit && from + 8 <= limit
  {
    if x >= from {
      var q := (x - from) / STRIDE;
      assert x - (x - from) % STRIDE == from + q * STRIDE;
    }
  }

  lemma FirstSpan(s: (nat, nat), rest: seq<(nat, nat)>, x: nat)
    ensures InSpans([s] + rest, x) <==> s.0 <= x < s.1 || InSpans(rest, x)
  {
    var spans := [s] + rest;
    if s.0 <= x < s.1 { assert spans[0] == s; }
    if InSpans(rest, x) {
      var i :| 0 <= i < |rest| && rest[i].0 <= x < rest[i].1;
      assert spans[i + 1] == rest[i];
    }
  }

  /** The spans from `from` on are the words on the stride from there, and the tail. */
  lemma {:induction false} RestCovers(len: nat, limit: nat, from: nat, x: nat)
    requires limit <= len
    ensures InSpans(Rest(len, limit, Stride(from)), x) <==>
              OnStride(from, limit, x) || (limit == len && len > DENSE_PREFIX && (len - 1) / 8 * 8 <= x < len)
    decreases limit - from
  {
    if from + 8 <= limit {
      RestCovers(len, limit, from + STRIDE, x);
      FirstSpan((from, from + 8), Rest(len, limit, Stride(from + STRIDE)), x);
      NextStride(from, limit, x);
    } else {
      StrideInside(from, limit, x);
      var tail := ((len - 1) / 8 * 8, len);
      if limit == len && len > DENSE_PREFIX { FirstSpan(tail, [], x); }
    }
  }

  lemma NextStride(from: nat, limit: nat, x: nat)
    requires from + 8 <= limit
    ensures OnStride(from, limit, x) <==> from <= x < from + 8 || OnStride(from + STRIDE, limit, x)
  {
    if x >= from + STRIDE { assert (x - from) % STRIDE == (x - from - STRIDE) % STRIDE; }
  }

  /** The iterator over a block's spans. */
  class Spans {
    const len: nat
    const limit: nat
    var state: SpanState

    constructor (len: nat, limit: nat)
      requires limit <= len
      ensures this.len == len && this.limit == limit && state == Dense
    {
      this.len, this.limit, this.state := len, limit, Dense;
    }

    method Next() returns (r: Option<(nat, nat)>)
      modifies this
      ensures r.None? <==> Rest(len, limit, old(state)) == []
      ensures r.Some? ==> Rest(len, limit, old(state)) == [r.value] + Rest(len, limit, state)
      ensures Steps(state, limit) <= Steps(old(state), limit)
      ensures r.Some? ==> Steps(state, limit) < Steps(old(state), limit)
    {
      while true
        invariant Rest(len, limit, state) == Rest(len, limit, old(state))
        invariant Steps(state, limit) <= Steps(old(state), limit)
        decreases Steps(state, limit)
      {
        match state
        case Dense =>
          state := Stride(DENSE_PREFIX);
          var end := if limit < DENSE_PREFIX then limit else DENSE_PREFIX;
          if end > 0 {
            return Some((0, end));
          }
        case Stride(start) =>
          if start + 8 <= limit {
            state := Stride(start + STRIDE);
            return Some((start, start + 8));
          }
          state := Tail;
        case Tail =>
          state := Done;
          if limit == len && len > DENSE_PREFIX {
            return Some(((len - 1) / 8 * 8, len));
          }
        case Done =>
          return None;
      }
    }
  }

  /** How many steps the iterator can still take. */
  ghost function Steps(state: SpanState, limit: nat): nat {
    match state
    case Dense => limit + 3
    case Stride(s) => if s <= limit then limit - s + 2 else 2
    case Tail => 1
    case Done => 0
  }

  /** Every span starts at a word and lies in the part looked at. */
  lemma {:induction false} SpansInside(len: nat, limit: nat, state: SpanState)
    requires limit <= len && (state.Stride? ==> state.start % 8 == 0)
    ensures forall i :: 0 <= i < |Rest(len, limit, state)| ==>
              var s := Rest(len, limit, state)[i]; s.0 % 8 == 0 && s.0 < s.1 <= limit
    decreases match state case Dense => 3 case Stride(_) => 2 case Tail => 1 case Done => 0,
              match state case Stride(s) => limit - s case _ => 0
  {
    match state
    case Dense => SpansInside(len, limit, Stride(DENSE_PREFIX));
    case Stride(s) =>
      if s + 8 <= limit { SpansInside(len, limit, Stride(s + STRIDE)); } else { SpansInside(len, limit, Tail); }
    case Tail =>
    case Done =>
  }

  // ---------------------------------------------------------------------------------------------
  // Writing and checking
  // ---------------------------------------------------------------------------------------------

  /** Bytes `[from, to)` of the block at `p` hold what is expected. */
  ghost predicate Matches(bytes: map<int, Byte>, p: int, seed: Option<nat>, from: nat, to: nat) {
    forall x: nat :: from <= x < to ==> At(bytes, p + x) == Expected(seed, x)
  }

  ghost predicate MatchesAll(bytes: map<int, Byte>, p: int, seed: Option<nat>, spans: seq<(nat, nat)>) {
    forall i :: 0 <= i < |spans| ==> Matches(bytes, p, seed, spans[i].0, spans[i].1)
  }

  /** Every sampled byte of the first `limit` of the `len` bytes at `p` is what is expected. */
  ghost predicate Patterned(bytes: map<int, Byte>, p: int, len: nat, limit: nat, seed: Option<nat>) {
    forall x: nat :: Sampled(len, limit, x) ==> At(bytes, p + x) == Expected(seed, x)
  }

  /** Matching span by span is matching at every sampled position. */
  lemma SpansArePattern(bytes: map<int, Byte>, p: int, len: nat, limit: nat, seed: Option<nat>)
    requires limit <= len
    ensures MatchesAll(bytes, p, seed, SpansOf(len, limit)) <==> Patterned(bytes, p, len, limit, seed)
  {
    hide Rest, Sampled, Expected, At;
    var spans := SpansOf(len, limit);
    forall x: nat ensures InSpans(spans, x) <==> Sampled(len, limit, x) { SpansAreSampled(len, limit, x); }
    if MatchesAll(bytes, p, seed, spans) {
      forall x: nat | Sampled(len, limit, x) ensures At(bytes, p + x) == Expected(seed, x) {
        var i :| 0 <= i < |spans| && spans[i].0 <= x < spans[i].1;
        assert Matches(bytes, p, seed, spans[i].0, spans[i].1);
      }
    }
    if Patterned(bytes, p, len, limit, seed) {
      forall i | 0 <= i < |spans| ensures Matches(bytes, p, seed, spans[i].0, spans[i].1) {
        forall x: nat | spans[i].0 <= x < spans[i].1 ensures At(bytes, p + x) == Expected(seed, x) {
          assert InSpans(spans, x);
        }
      }
    }
  }

  /** A kept prefix of a filled block holds the pattern wherever a check of that prefix looks. */
  lemma PrefixPatterned(bytes: map<int, Byte>, p: int, len: nat, keep: nat, seed: Option<nat>)
    requires keep <= len && Patterned(bytes, p, len, len, seed)
    ensures Patterned(bytes, p, len, keep, seed)
  {
    hide Expected, At;
    forall x: nat | Sampled(len, keep, x) ensures At(bytes, p + x) == Expected(seed, x) {
      assert Sampled(len, len, x);
    }
  }

  /** A block that holds the contents of another, however much of eight bytes or more of it is looked at, fails
      its check. */
  lemma ForeignContentsFail(bytes: map<int, Byte>, p: int, len: nat, limit: nat, i: nat, j: nat)
    requires i < U64 && j < U64 && i != j && 8 <= limit <= len
    requires Patterned(bytes, p, len, limit, Some(Mix64(i)))
    ensures !Patterned(bytes, p, len, limit, Some(Mix64(j)))
  {
    hide Mix64, Word, ByteOf, At, OnStride;
    BlocksDiffer(i, j, 0);
    var k :| 0 <= k < 8 && ByteOf(Word(Mix64(i), 0), k) != ByteOf(Word(Mix64(j), 0), k);
    var x: nat := k;
    assert Sampled(len, limit, x) && x / 8 == 0 && x % 8 == k;
  }

  /** So does a block that holds its own contents moved to the front by whole words. */
  lemma ShiftedContentsFail(bytes: map<int, Byte>, p: int, len: nat, limit: nat, seed: nat, shift: nat)
    requires seed < U64 && 1 <= shift < U64 && 8 <= limit <= len
    requires forall k :: 0 <= k < 8 ==> At(bytes, p + k) == ByteOf(Word(seed, shift), k)
    ensures !Patterned(bytes, p, len, limit, Some(seed))
  {
    hide Word, ByteOf, At, OnStride;
    WordInjective(seed, seed, 0, shift);
    WordsBelow(seed, 0);
    WordsBelow(seed, shift);
    var k := DifferentByte(Word(seed, 0), Word(seed, shift));
    var x: nat := k;
    assert Sampled(len, limit, x) && x / 8 == 0 && x % 8 == k;
  }

  /** Writing what is expected keeps every match. */
  lemma WriteMatches(bytes: map<int, Byte>, p: int, seed: Option<nat>, off: nat, value: seq<Byte>,
                     spans: seq<(nat, nat)>)
    requires forall x: nat :: off <= x < off + |value| ==> value[x - off] == Expected(seed, x)
    ensures var after := Overwritten(bytes, p + off, value);
            && (MatchesAll(bytes, p, seed, spans) ==> MatchesAll(after, p, seed, spans))
            && (forall from: nat, to: nat :: Matches(bytes, p, seed, from, to) ==> Matches(after, p, seed, from, to))
            && Matches(after, p, seed, off, off + |value|)
  {
    hide Expected, At;
    var after := Overwritten(bytes, p + off, value);
    forall from: nat, to: nat | Matches(bytes, p, seed, from, to) ensures Matches(after, p, seed, from, to) {
      forall x: nat | from <= x < to ensures At(after, p + x) == Expected(seed, x) {
        assert At(bytes, p + x) == Expected(seed, x);
      }
    }
    forall x: nat | off <= x < off + |value| ensures At(after, p + x) == Expected(seed, x) {}
  }

  lemma NoMatches(bytes: map<int, Byte>, p: int, seed: Option<nat>, at: nat)
    ensures MatchesAll(bytes, p, seed, []) && Matches(bytes, p, seed, at, at)
  {
  }

  lemma MatchesMore(bytes: map<int, Byte>, p: int, seed: Option<nat>, spans: seq<(nat, nat)>, s: (nat, nat))
    ensures MatchesAll(bytes, p, seed, spans + [s]) <==>
              MatchesAll(bytes, p, seed, spans) && Matches(bytes, p, seed, s.0, s.1)
  {
    hide Matches;
    var more := spans + [s];
    if MatchesAll(bytes, p, seed, more) {
      assert more[|spans|] == s;
      forall i | 0 <= i < |spans|
        ensures Matches(bytes, p, seed, spans[i].0, spans[i].1) { assert more[i] == spans[i]; }
    }
  }

  lemma MatchesOn(bytes: map<int, Byte>, p: int, seed: Option<nat>, from: nat, off: nat, to: nat)
    requires from <= off <= to
    ensures Matches(bytes, p, seed, from, to) <==>
              Matches(bytes, p, seed, from, off) && Matches(bytes, p, seed, off, to)
  {
  }

  /** The next span of the iterator, with what came before and after it. */
  lemma SpanAt(len: nat, limit: nat, done: seq<(nat, nat)>, state: SpanState, next: SpanState, s: (nat, nat))
    requires limit <= len && done + Rest(len, limit, state) == SpansOf(len, limit)
    requires Rest(len, limit, state) == [s] + Rest(len, limit, next)
    ensures done + [s] + Rest(len, limit, next) == SpansOf(len, limit)
    ensures s.0 % 8 == 0 && s.0 < s.1 <= limit
  {
    hide Rest;
    SpansInside(len, limit, Dense);
    assert SpansOf(len, limit)[|done|] == s;
  }

  /** Make every sampled byte of a live block the pattern's, touching no other block. */
  method Fill(h: Heap, p: int, len: nat, seed: nat)
    requires h.Valid() && p in h.live && h.live[p].size == len
    modifies h.mem`bytes
    ensures h.Valid() && Kept(h.live - {p}, old(h.mem.bytes), h.mem.bytes)
    ensures Patterned(h.mem.bytes, p, len, len, Some(seed))
  {
    hide h.Valid, Kept, Matches, MatchesAll, Rest, Expected, Patterned;
    var spans := new Spans(len, len);
    ghost var done: seq<(nat, nat)> := [];
    KeptSelf(h.live - {p}, h.mem.bytes);
    NoMatches(h.mem.bytes, p, Some(seed), 0);
    while true
      invariant fresh(spans) && spans.len == len && spans.limit == len
      invariant done + Rest(len, len, spans.state) == SpansOf(len, len)
      invariant h.Valid() && Kept(h.live - {p}, old(h.mem.bytes), h.mem.bytes)
      invariant MatchesAll(h.mem.bytes, p, Some(seed), done)
      decreases Steps(spans.state, len)
    {
      ghost var state0, bytes0 := spans.state, h.mem.bytes;
      var span := spans.Next();
      if span.None? {
        assert done == SpansOf(len, len);
        SpansArePattern(h.mem.bytes, p, len, len, Some(seed));
        break;
      }
      SpanAt(len, len, done, state0, spans.state, span.value);
      FillSpan(h, p, len, seed, span.value.0, span.value.1, done);
      KeptTwice(h.live - {p}, old(h.mem.bytes), bytes0, h.mem.bytes);
      MatchesMore(h.mem.bytes, p, Some(seed), done, span.value);
      done := done + [span.value];
    }
  }

  /** Write one span: whole words, then the clipped last one. */
  method FillSpan(h: Heap, p: int, len: nat, seed: nat, start: nat, end: nat, ghost done: seq<(nat, nat)>)
    requires h.Valid() && p in h.live && h.live[p].size == len && start % 8 == 0 && start < end <= len
    modifies h.mem`bytes
    ensures h.Valid() && Kept(h.live - {p}, old(h.mem.bytes), h.mem.bytes)
    ensures MatchesAll(old(h.mem.bytes), p, Some(seed), done) ==> MatchesAll(h.mem.bytes, p, Some(seed), done)
    ensures Matches(h.mem.bytes, p, Some(seed), start, end)
  {
    hide h.Valid, Kept, Matches, MatchesAll, Expected, Overwritten, ExpectedBytes;
    ghost var bytes0 := h.mem.bytes;
    KeptSelf(h.live - {p}, h.mem.bytes);
    NoMatches(h.mem.bytes, p, Some(seed), start);
    var off := start;
    while off + 8 <= end
      invariant start <= off <= end && off % 8 == 0
      invariant h.Valid() && Kept(h.live - {p}, old(h.mem.bytes), h.mem.bytes)
      invariant MatchesAll(old(h.mem.bytes), p, Some(seed), done) ==> MatchesAll(h.mem.bytes, p, Some(seed), done)
      invariant Matches(h.mem.bytes, p, Some(seed), start, off)
    {
      WriteWordAt(h, p, len, seed, off, 8, start, done, bytes0);
      off := off + 8;
    }
    if off < end {
      WriteWordAt(h, p, len, seed, off, end - off, start, done, bytes0);
    }
  }

  /** Write the first `n` bytes of the word at `off`. */
  method WriteWordAt(h: Heap, p: int, len: nat, seed: nat, off: nat, n: nat, ghost start: nat,
                     ghost done: seq<(nat, nat)>,
                     ghost bytes0: map<int, Byte>)
    requires Kept(h.live - {p}, bytes0, h.mem.bytes) && h.Valid() && p in h.live && h.live[p].size == len
    requires off % 8 == 0 && n <= 8 && off + n <= len && start <= off
    requires Matches(h.mem.bytes, p, Some(seed), start, off)
    modifies h.mem`bytes
    ensures h.Valid() && h.mem.bytes == Overwritten(old(h.mem.bytes), p + off, ExpectedBytes(Some(seed), off / 8)[..n])
    ensures Kept(h.live - {p}, bytes0, h.mem.bytes)
    ensures MatchesAll(old(h.mem.bytes), p, Some(seed), done) ==> MatchesAll(h.mem.bytes, p, Some(seed), done)
    ensures Matches(h.mem.bytes, p, Some(seed), start, off + n)
  {
    hide h.Valid, Kept, Matches, MatchesAll, Expected;
    ghost var bytes1 := h.mem.bytes;
    var value := ExpectedBytes(Some(seed), off / 8)[..n];
    WriteMatches(bytes1, p, Some(seed), off, value, done);
    h.Write(p, off, value);
    MatchesOn(h.mem.bytes, p, Some(seed), start, off, off + n);
    KeptTwice(h.live - {p}, bytes0, bytes1, h.mem.bytes);
  }

  /** True exactly when every sampled byte of the prefix is the one `Expected` names: the pattern's byte when
      there is a seed, zero when there is none. */
  method Verify(mem: Memory, p: int, len: nat, limit: nat, seed: Option<nat>) returns (ok: bool)
    requires limit <= len
    ensures ok <==> Patterned(mem.bytes, p, len, limit, seed)
  {
    hide Matches, MatchesAll, Rest, Expected, Patterned;
    var spans := new Spans(len, limit);
    ghost var done: seq<(nat, nat)> := [];
    NoMatches(mem.bytes, p, seed, 0);
    while true
      invariant fresh(spans) && spans.len == len && spans.limit == limit
      invariant done + Rest(len, limit, spans.state) == SpansOf(len, limit)
      invariant MatchesAll(mem.bytes, p, seed, done)
      decreases Steps(spans.state, limit)
    {
      ghost var state0 := spans.state;
      var span := spans.Next();
      if span.None? {
        assert done == SpansOf(len, limit);
        SpansArePattern(mem.bytes, p, len, limit, seed);
        return true;
      }
      SpanAt(len, limit, done, state0, spans.state, span.value);
      var good := VerifySpan(mem, p, seed, span.value.0, span.value.1);
      MatchesMore(mem.bytes, p, seed, done, span.value);
      done := done + [span.value];
      if !good {
        MatchesFront(mem.bytes, p, seed, SpansOf(len, limit), done, Rest(len, limit, spans.state));
        SpansArePattern(mem.bytes, p, len, limit, seed);
        return false;
      }
    }
  }

  lemma MatchesFront(bytes: map<int, Byte>, p: int, seed: Option<nat>, all: seq<(nat, nat)>, done: seq<(nat, nat)>,
                     rest: seq<(nat, nat)>)
    requires all == done + rest
    ensures MatchesAll(bytes, p, seed, all) ==> MatchesAll(bytes, p, seed, done)
  {
    hide Matches;
    if MatchesAll(bytes, p, seed, all) {
      forall i | 0 <= i < |done| ensures Matches(bytes, p, seed, done[i].0, done[i].1) { assert all[i] == done[i]; }
    }
  }

  method VerifySpan(mem: Memory, p: int, seed: Option<nat>, start: nat, end: nat) returns (ok: bool)
    requires start % 8 == 0 && start < end
    ensures ok <==> Matches(mem.bytes, p, seed, start, end)
  {
    hide Matches, Expected, ExpectedBytes, Slice, At, Word;
    NoMatches(mem.bytes, p, seed, start);
    var off := start;
    while off + 8 <= end
      invariant start <= off <= end && off % 8 == 0 && Matches(mem.bytes, p, seed, start, off)
    {
      WordMatches(mem.bytes, p, seed, off, 8);
      MatchesOn(mem.bytes, p, seed, start, off, off + 8);
      if Slice(mem.bytes, p + off, 8) != ExpectedBytes(seed, off / 8) {
        MatchesOn(mem.bytes, p, seed, start, off + 8, end);
        return false;
      }
      off := off + 8;
    }
    ok := true;
    if off < end {
      WordMatches(mem.bytes, p, seed, off, end - off);
      MatchesOn(mem.bytes, p, seed, start, off, end);
      ok := Slice(mem.bytes, p + off, end - off) == ExpectedBytes(seed, off / 8)[..end - off];
    }
  }

  lemma WordMatches(bytes: map<int, Byte>, p: int, seed: Option<nat>, off: nat, n: nat)
    requires off % 8 == 0 && n <= 8
    ensures Slice(bytes, p + off, n) == ExpectedBytes(seed, off / 8)[..n] <==> Matches(bytes, p, seed, off, off + n)
    ensures n == 8 ==> ExpectedBytes(seed, off / 8)[..n] == ExpectedBytes(seed, off / 8)
  {
    hide At, Expected, Word, ByteOf;
    var e, s := ExpectedBytes(seed, off / 8), Slice(bytes, p + off, n);
    if s == e[..n] {
      forall x: nat | off <= x < off + n ensures At(bytes, p + x) == Expected(seed, x) {
        assert s[x - off] == e[x - off];
      }
    }
    if Matches(bytes, p, seed, off, off + n) {
      forall i | 0 <= i < n ensures s[i] == e[i] {
        assert At(bytes, p + (off + i)) == Expected(seed, off + i);
      }
    }
  }
}
