/**
 fix_fft with the program's own 16-bit arithmetic: every assignment to an int16_t wraps,
 FIX_MPY rounds, and >>= 1 floors. For inputs and twiddle factors of bounded modulus no
 operation ever wraps.
 */
module FftRange {
  import opened Pow2s
  import opened FixFft
  import opened Words

  predicate Fits16(x: int) {
    -0x8000 <= x <= 0x7fff
  }

  predicate Fits32(x: int) {
    -0x8000_0000 <= x <= 0x7fff_ffff
  }

  lemma WrapFits(x: int)
    ensures Fits16(Wrap16(x))
    ensures Fits16(x) <==> Wrap16(x) == x
  {
  }

  /** FIX_MPY before its result is narrowed: the product scaled by 2^-15, rounding half up. */
  function FixMpy(a: int, b: int): int {
    var c := (a * b) / 0x4000;
    c / 2 + c % 2
  }

  /** The operations as the program performs them. */
  function Int16Arith(): Arith<int> {
    Arith((a: int, b: int) => Wrap16(a + b), (a: int, b: int) => Wrap16(a - b), (a: int) => Wrap16(-a),
          (a: int) => a / 2, (a: int, b: int) => Wrap16(FixMpy(a, b)))
  }

  /** The same operations on unbounded integers. */
  function IntArith(): Arith<int> {
    Arith((a: int, b: int) => a + b, (a: int, b: int) => a - b, (a: int) => -a,
          (a: int) => a / 2, (a: int, b: int) => FixMpy(a, b))
  }

  /** The point (x, y) is at most m from the origin. */
  ghost predicate NormAtMost(x: real, y: real, m: real) {
    m >= 0.0 && x * x + y * y <= m * m
  }

  ghost predicate PairAtMost(z: (int, int), m: int) {
    NormAtMost(z.0 as real, z.1 as real, m as real)
  }

  /** Entries a quarter period apart form points of modulus at most 32768; no entry is -32768. */
  ghost predicate BoundedTable(table: seq<int>, log2N: nat) {
    && TableSize(table, log2N)
    && (forall i :: 0 <= i < |table| ==> -0x7fff <= table[i] <= 0x7fff)
    && (forall j :: 0 <= j && j + Pow2(log2N) / 4 < |table| ==>
          PairAtMost((table[j + Pow2(log2N) / 4], table[j]), 0x8000))
  }

  // ---- norms

  lemma SquareMonotone(a: real, b: real)
    requires 0.0 <= a <= b
    ensures a * a <= b * b
  {
  }

  lemma PositiveProduct(a: real, b: real)
    requires a > 0.0 && b > 0.0
    ensures a * b > 0.0 && (-a) * (-b) == a * b
  {
  }

  lemma DifferenceOfSquares(a: real, b: real)
    ensures (a - b) * (a + b) == a * a - b * b
  {
  }

  lemma SquareReflects(a: real, b: real)
    requires b >= 0.0 && a * a <= b * b
    ensures -b <= a <= b
  {
    DifferenceOfSquares(a, b);
    if a > b {
      PositiveProduct(a - b, a + b);
    } else if a < -b {
      PositiveProduct(-(a - b), -(a + b));
    }
  }

  lemma ComponentAtMost(x: real, y: real, m: real)
    requires NormAtMost(x, y, m)
    ensures -m <= x <= m && -m <= y <= m
  {
    assert x * x >= 0.0 && y * y >= 0.0;
    SquareReflects(x, m);
    SquareReflects(y, m);
  }

  /** |z|^2 |w|^2 = |zw|^2, for the product used by the butterflies. */
  lemma ProductOfNorms(a: real, b: real, c: real, d: real)
    ensures (a * c - b * d) * (a * c - b * d) + (a * d + b * c) * (a * d + b * c) == (a * a + b * b) * (c * c + d * d)
  {
    var ac, bd, ad, bc := a * c, b * d, a * d, b * c;
    assert ac * bd == ad * bc by { FourFactors(a, c, b, d); }
    SquareOfDifference(ac, bd);
    SquareOfSum(ad, bc);
    SquareOfProduct(a, c); SquareOfProduct(b, d); SquareOfProduct(a, d); SquareOfProduct(b, c);
    ProductOfSums(a * a, b * b, c * c, d * d);
  }

  lemma FourFactors(a: real, c: real, b: real, d: real)
    ensures (a * c) * (b * d) == (a * d) * (b * c)
  {
    assert (a * c) * (b * d) == a * (c * (b * d));
    assert c * (b * d) == d * (b * c);
    assert a * (d * (b * c)) == (a * d) * (b * c);
  }

  lemma SquareOfDifference(x: real, y: real)
    ensures (x - y) * (x - y) == x * x - 2.0 * (x * y) + y * y
  {
  }

  lemma SquareOfSum(x: real, y: real)
    ensures (x + y) * (x + y) == x * x + 2.0 * (x * y) + y * y
  {
  }

  lemma SquareOfProduct(a: real, b: real)
    ensures (a * b) * (a * b) == (a * a) * (b * b)
  {
    FourFactors(a, b, a, b);
    FourFactors(a, a, b, b);
  }

  lemma ProductOfSums(a: real, b: real, c: real, d: real)
    ensures (a + b) * (c + d) == a * c + a * d + b * c + b * d
  {
  }

  lemma ProductAtMost(a: real, b: real, m: real, c: real, d: real, n: real)
    requires NormAtMost(a, b, m) && NormAtMost(c, d, n)
    ensures NormAtMost(a * c - b * d, a * d + b * c, m * n)
  {
    ProductOfNorms(a, b, c, d);
    SquareOfProduct(m, n);
    var p, q := a * a + b * b, c * c + d * d;
    assert p >= 0.0 && q >= 0.0;
    MulMonotone(p, m * m, q, n * n);
  }

  lemma MulMonotone(a: real, b: real, c: real, d: real)
    requires 0.0 <= a <= b && 0.0 <= c <= d
    ensures a * c <= b * d
  {
    assert a * c <= b * c;
    assert b * c <= b * d;
  }

  lemma InnerProductAtMost(a: real, b: real, m: real, c: real, d: real, n: real)
    requires NormAtMost(a, b, m) && NormAtMost(c, d, n)
    ensures a * c + b * d <= m * n
  {
    ProductAtMost(a, -b, m, c, d, n);
    ComponentAtMost(a * c - (-b) * d, a * d + (-b) * c, m * n);
    assert (-b) * d == -(b * d);
  }

  lemma Triangle(x: real, y: real, m: real, u: real, v: real, n: real)
    requires NormAtMost(x, y, m) && NormAtMost(u, v, n)
    ensures NormAtMost(x + u, y + v, m + n)
  {
    InnerProductAtMost(x, y, m, u, v, n);
    SquareOfSum(x, u);
    SquareOfSum(y, v);
    SquareOfSum(m, n);
  }

  lemma NormMonotone(x: real, y: real, m: real, n: real)
    requires NormAtMost(x, y, m) && m <= n
    ensures NormAtMost(x, y, n)
  {
    SquareMonotone(m, n);
  }

  lemma SmallBox(x: real, y: real)
    requires -1.0 <= x <= 1.0 && -1.0 <= y <= 1.0
    ensures NormAtMost(x, y, 1.415)
    ensures NormAtMost(x / 2.0, y / 2.0, 0.708)
  {
    assert x * x <= 1.0 && y * y <= 1.0 by { SquareAtMostOne(x); SquareAtMostOne(y); }
    assert 1.415 * 1.415 >= 2.0;
    assert (x / 2.0) * (x / 2.0) == (x * x) / 4.0;
    assert (y / 2.0) * (y / 2.0) == (y * y) / 4.0;
    assert 0.708 * 0.708 >= 0.5;
  }

  lemma SquareAtMostOne(x: real)
    requires -1.0 <= x <= 1.0
    ensures x * x <= 1.0
  {
    SquareMonotone(if x >= 0.0 then x else -x, 1.0);
  }

  lemma ScaledNorm(x: real, y: real, m: real, c: real)
    requires NormAtMost(x, y, m) && c >= 0.0
    ensures NormAtMost(c * x, c * y, c * m)
  {
    SquareOfProduct(c, x); SquareOfProduct(c, y); SquareOfProduct(c, m);
    MulMonotone(c * c, c * c, x * x + y * y, m * m);
  }

  // ---- one butterfly

  /** FIX_MPY is within one half of the scaled product. */
  lemma FixMpyError(a: int, b: int)
    ensures -0.5 <= FixMpy(a, b) as real - (a as real * b as real) / 32768.0 <= 0.5
  {
    FixMpyOfProduct(a * b);
    assert a as real * b as real == (a * b) as real;
  }

  lemma FixMpyOfProduct(p: int)
    ensures var c := p / 0x4000; -0.5 <= (c / 2 + c % 2) as real - p as real / 32768.0 <= 0.5
  {
    var c := p / 0x4000;
    var r := c / 2 + c % 2;
    assert 2 * r - 1 <= c <= 2 * r;
    assert 0x4000 * c <= p < 0x4000 * c + 0x4000;
    assert 0x8000 * r - 0x4000 <= p <= 0x8000 * r + 0x4000;
  }

  lemma HalfError(x: int)
    ensures -1.0 <= 2.0 * ((x / 2) as real - x as real / 2.0) <= 0.0
  {
  }

  /** The halved twiddle factor of a table pair. */
  lemma HalvedTwiddle(cosine: int, sine: int)
    requires PairAtMost((cosine, sine), 0x8000)
    ensures NormAtMost((cosine / 2) as real, (-sine / 2) as real, 16384.708)
  {
    var x, y := cosine as real, (-sine) as real;
    HalfError(cosine); HalfError(-sine);
    assert y * y == (sine as real) * (sine as real);
    ScaledNorm(x, y, 32768.0, 0.5);
    var d, e := 2.0 * ((cosine / 2) as real - x / 2.0), 2.0 * ((-sine / 2) as real - y / 2.0);
    SmallBox(d, e);
    Triangle(0.5 * x, 0.5 * y, 16384.0, d / 2.0, e / 2.0, 0.708);
    assert 0.5 * x + d / 2.0 == (cosine / 2) as real;
    assert 0.5 * y + e / 2.0 == (-sine / 2) as real;
  }

  /** An integer point within one of a point of modulus at most n in both coordinates. */
  lemma Perturbed(t: (int, int), x: real, y: real, n: real)
    requires NormAtMost(x, y, n)
    requires -1.0 <= t.0 as real - x <= 1.0 && -1.0 <= t.1 as real - y <= 1.0
    ensures NormAtMost(t.0 as real, t.1 as real, n + 1.415)
  {
    var e, f := t.0 as real - x, t.1 as real - y;
    SmallBox(e, f);
    Triangle(x, y, n, e, f, 1.415);
    assert x + e == t.0 as real && y + f == t.1 as real;
  }

  lemma ScaleDifference(a: real, b: real)
    ensures (1.0 / 32768.0) * (a - b) == a / 32768.0 - b / 32768.0
    ensures (1.0 / 32768.0) * (a + b) == a / 32768.0 + b / 32768.0
  {
  }

  lemma ProductError(w: (int, int), p: (int, int), a: real, b: real, c: real, d: real)
    requires a == w.0 as real && b == w.1 as real && c == p.0 as real && d == p.1 as real
    ensures var t := Product(IntArith(), w, p);
            && -1.0 <= t.0 as real - (1.0 / 32768.0) * (a * c - b * d) <= 1.0
            && -1.0 <= t.1 as real - (1.0 / 32768.0) * (a * d + b * c) <= 1.0
  {
    var t := Product(IntArith(), w, p);
    assert t.0 == FixMpy(w.0, p.0) - FixMpy(w.1, p.1);
    assert t.1 == FixMpy(w.0, p.1) + FixMpy(w.1, p.0);
    hide FixMpy;
    FixMpyError(w.0, p.0); FixMpyError(w.1, p.1); FixMpyError(w.0, p.1); FixMpyError(w.1, p.0);
    ScaleDifference(a * c, b * d);
    ScaleDifference(a * d, b * c);
  }

  /** The product t = w * p of a butterfly, rounding included. */
  lemma ProductRange(w: (int, int), p: (int, int), m: int)
    requires NormAtMost(w.0 as real, w.1 as real, 16384.708) && PairAtMost(p, m) && 0 <= m <= 0x8000
    ensures var t := Product(IntArith(), w, p);
            NormAtMost(t.0 as real, t.1 as real, m as real / 2.0 + 2.123)
  {
    var a, b, c, d := w.0 as real, w.1 as real, p.0 as real, p.1 as real;
    ProductAtMost(a, b, 16384.708, c, d, m as real);
    ProductError(w, p, a, b, c, d);
    RoundedProductRange(Product(IntArith(), w, p), a * c - b * d, a * d + b * c, m as real);
  }

  lemma RoundedProductRange(t: (int, int), x: real, y: real, m: real)
    requires 0.0 <= m <= 32768.0 && NormAtMost(x, y, 16384.708 * m)
    requires -1.0 <= t.0 as real - (1.0 / 32768.0) * x <= 1.0
    requires -1.0 <= t.1 as real - (1.0 / 32768.0) * y <= 1.0
    ensures NormAtMost(t.0 as real, t.1 as real, m / 2.0 + 2.123)
  {
    hide NormAtMost;
    var n := (1.0 / 32768.0) * (16384.708 * m);
    ScaledNorm(x, y, 16384.708 * m, 1.0 / 32768.0);
    Perturbed(t, (1.0 / 32768.0) * x, (1.0 / 32768.0) * y, n);
    WeaklyHalved(m);
    NormMonotone(t.0 as real, t.1 as real, n + 1.415, m / 2.0 + 2.123);
  }

  lemma WeaklyHalved(m: real)
    requires 0.0 <= m <= 32768.0
    ensures (1.0 / 32768.0) * (16384.708 * m) + 1.415 <= m / 2.0 + 2.123
  {
  }

  /** The halved upper input q. */
  lemma HalvedRange(q: (int, int), m: int)
    requires PairAtMost(q, m)
    ensures NormAtMost((q.0 / 2) as real, (q.1 / 2) as real, m as real / 2.0 + 0.708)
  {
    var x, y := q.0 as real, q.1 as real;
    HalfError(q.0); HalfError(q.1);
    ScaledNorm(x, y, m as real, 0.5);
    var d, e := 2.0 * ((q.0 / 2) as real - x / 2.0), 2.0 * ((q.1 / 2) as real - y / 2.0);
    SmallBox(d, e);
    Triangle(0.5 * x, 0.5 * y, 0.5 * m as real, d / 2.0, e / 2.0, 0.708);
    assert 0.5 * x + d / 2.0 == (q.0 / 2) as real;
    assert 0.5 * y + e / 2.0 == (q.1 / 2) as real;
  }

  /** Every value one butterfly computes, in the order of the program, fits its C type. */
  ghost predicate ButterflyFits(w: (int, int), q: (int, int), p: (int, int)) {
    var t := Product(IntArith(), w, p);
    && Fits16(w.0) && Fits16(w.1)
    && Fits32(w.0 * p.0) && Fits32(w.1 * p.1) && Fits32(w.0 * p.1) && Fits32(w.1 * p.0)
    && Fits16(FixMpy(w.0, p.0)) && Fits16(FixMpy(w.1, p.1)) && Fits16(FixMpy(w.0, p.1)) && Fits16(FixMpy(w.1, p.0))
    && Fits16(t.0) && Fits16(t.1)
    && Fits16(q.0 / 2) && Fits16(q.1 / 2)
    && Fits16(q.0 / 2 - t.0) && Fits16(q.1 / 2 - t.1)
    && Fits16(q.0 / 2 + t.0) && Fits16(q.1 / 2 + t.1)
  }

  lemma RealBound(x: int, m: int, slack: real)
    requires slack < 1.0 && -(m as real) - slack <= x as real <= m as real + slack
    ensures -m <= x <= m
  {
  }

  lemma BoundedProduct(a: int, b: int)
    requires -16385 <= a <= 16385 && -0x7fff <= b <= 0x7fff
    ensures -(16385 * 0x7fff) <= a * b <= 16385 * 0x7fff
  {
    var s, t := if a >= 0 then a else -a, if b >= 0 then b else -b;
    MulNonneg(16385 - s, t);
    MulNonneg(s, t);
    MulSub(t, 16385, s);
    assert s * t <= 16385 * t <= 16385 * 0x7fff;
    assert a * b == s * t || a * b == -(s * t);
  }

  lemma NarrowProduct(a: int, b: int)
    requires -16385 <= a <= 16385 && -0x7fff <= b <= 0x7fff
    ensures Fits32(a * b) && Fits16(FixMpy(a, b))
  {
    BoundedProduct(a, b);
    FixMpyOfProduct(a * b);
  }

  lemma NarrowFactors(w: (int, int), p: (int, int), m: int)
    requires NormAtMost(w.0 as real, w.1 as real, 16384.708) && PairAtMost(p, m) && m <= 0x7fff
    ensures -16385 <= w.0 <= 16385 && -16385 <= w.1 <= 16385
    ensures -0x7fff <= p.0 <= 0x7fff && -0x7fff <= p.1 <= 0x7fff
  {
    ComponentAtMost(w.0 as real, w.1 as real, 16384.708);
    ComponentAtMost(p.0 as real, p.1 as real, m as real);
    RealBound(w.0, 16384, 0.708); RealBound(w.1, 16384, 0.708);
    RealBound(p.0, m, 0.0); RealBound(p.1, m, 0.0);
  }

  /** One butterfly adds at most 3 to the largest modulus and computes nothing that does not fit. */
  lemma ButterflyRange(w: (int, int), q: (int, int), p: (int, int), m: int)
    requires NormAtMost(w.0 as real, w.1 as real, 16384.708)
    requires PairAtMost(q, m) && PairAtMost(p, m) && 0 <= m && m + 3 <= 0x7fff
    ensures PairAtMost(Upper(IntArith(), w, q, p), m + 3)
    ensures PairAtMost(Lower(IntArith(), w, q, p), m + 3)
    ensures ButterflyFits(w, q, p)
  {
    var t := Product(IntArith(), w, p);
    NarrowFactors(w, p, m);
    NarrowProduct(w.0, p.0); NarrowProduct(w.1, p.1); NarrowProduct(w.0, p.1); NarrowProduct(w.1, p.0);
    ProductRange(w, p, m);
    HalvedRange(q, m);
    SumRange(q, t, m);
  }

  lemma SumRange(q: (int, int), t: (int, int), m: int)
    requires 0 <= m && m + 3 <= 0x7fff
    requires NormAtMost((q.0 / 2) as real, (q.1 / 2) as real, m as real / 2.0 + 0.708)
    requires NormAtMost(t.0 as real, t.1 as real, m as real / 2.0 + 2.123)
    ensures PairAtMost((q.0 / 2 + t.0, q.1 / 2 + t.1), m + 3)
    ensures PairAtMost((q.0 / 2 - t.0, q.1 / 2 - t.1), m + 3)
    ensures Fits16(q.0 / 2) && Fits16(q.1 / 2) && Fits16(t.0) && Fits16(t.1)
    ensures Fits16(q.0 / 2 - t.0) && Fits16(q.1 / 2 - t.1) && Fits16(q.0 / 2 + t.0) && Fits16(q.1 / 2 + t.1)
  {
    var h := (q.0 / 2, q.1 / 2);
    SumAtMost(h, t, m);
    SumAtMost(h, (-t.0, -t.1), m);
    InRange(h, m as real / 2.0 + 0.708);
    InRange(t, m as real / 2.0 + 2.123);
    InRange((h.0 + t.0, h.1 + t.1), (m + 3) as real);
    InRange((h.0 - t.0, h.1 - t.1), (m + 3) as real);
  }

  lemma SumAtMost(h: (int, int), t: (int, int), m: int)
    requires 0 <= m
    requires NormAtMost(h.0 as real, h.1 as real, m as real / 2.0 + 0.708)
    requires NormAtMost(t.0 as real, t.1 as real, m as real / 2.0 + 2.123)
    ensures PairAtMost((h.0 + t.0, h.1 + t.1), m + 3)
  {
    hide NormAtMost;
    Triangle(h.0 as real, h.1 as real, m as real / 2.0 + 0.708, t.0 as real, t.1 as real, m as real / 2.0 + 2.123);
    NormMonotone((h.0 + t.0) as real, (h.1 + t.1) as real, m as real + 2.831, (m + 3) as real);
  }

  lemma InRange(z: (int, int), m: real)
    requires NormAtMost(z.0 as real, z.1 as real, m) && m <= 32767.0
    ensures Fits16(z.0) && Fits16(z.1)
  {
    ComponentAtMost(z.0 as real, z.1 as real, m);
  }

  /** When nothing has to wrap, the wrapping butterfly is the plain one. */
  lemma FittingButterfly(w: (int, int), q: (int, int), p: (int, int))
    requires ButterflyFits(w, q, p)
    ensures Upper(Int16Arith(), w, q, p) == Upper(IntArith(), w, q, p)
    ensures Lower(Int16Arith(), w, q, p) == Lower(IntArith(), w, q, p)
  {
    hide FixMpy, Wrap16;
    WrapFits(FixMpy(w.0, p.0)); WrapFits(FixMpy(w.1, p.1)); WrapFits(FixMpy(w.0, p.1)); WrapFits(FixMpy(w.1, p.0));
    var t, t' := Product(IntArith(), w, p), Product(Int16Arith(), w, p);
    WrapFits(t.0); WrapFits(t.1);
    assert t'.0 == t.0;
    assert t'.1 == t.1;
    WrapFits(q.0 / 2 - t.0); WrapFits(q.1 / 2 - t.1); WrapFits(q.0 / 2 + t.0); WrapFits(q.1 / 2 + t.1);
    assert Upper(Int16Arith(), w, q, p).0 == Upper(IntArith(), w, q, p).0;
    assert Upper(Int16Arith(), w, q, p).1 == Upper(IntArith(), w, q, p).1;
    assert Lower(Int16Arith(), w, q, p).0 == Lower(IntArith(), w, q, p).0;
    assert Lower(Int16Arith(), w, q, p).1 == Lower(IntArith(), w, q, p).1;
  }

  lemma TwiddleRange(table: seq<int>, log2N: nat, s: nat, m: nat)
    requires BoundedTable(table, log2N) && s < log2N && m < Pow2(s)
    ensures var w := Twiddle(IntArith(), table, log2N, s, m);
            && NormAtMost(w.0 as real, w.1 as real, 16384.708)
            && Twiddle(Int16Arith(), table, log2N, s, m) == w
  {
    hide NormAtMost, Pow2, TwiddleIndex;
    TwiddleInRange(log2N, s, m);
    var j := TwiddleIndex(log2N, s, m);
    var cosine, sine := table[j + Pow2(log2N) / 4], table[j];
    WrapFits(-sine);
    HalvedTwiddle(cosine, sine);
    var w, w' := Twiddle(IntArith(), table, log2N, s, m), Twiddle(Int16Arith(), table, log2N, s, m);
    assert w.0 == cosine / 2 == w'.0;
    assert w.1 == -sine / 2 == w'.1;
  }

  // ---- all stages

  /** The butterfly that writes position i of stage s, on the data x it reads. */
  ghost predicate PositionFits(table: seq<int>, log2N: nat, k: nat, s: nat, x: seq<(int, int)>, i: nat)
    requires TableSize(table, log2N) && s < k <= log2N && |x| == Pow2(k) && i < |x|
  {
    PartnerInRange(k, s, i);
    var l := Pow2(s);
    var w := Twiddle(IntArith(), table, log2N, s, i % l);
    if (i / l) % 2 == 0 then ButterflyFits(w, x[i], x[i + l]) else ButterflyFits(w, x[i - l], x[i])
  }

  lemma PositionRange(table: seq<int>, log2N: nat, k: nat, s: nat, x: seq<(int, int)>, m: int, i: nat)
    requires BoundedTable(table, log2N) && s < k <= log2N && |x| == Pow2(k) && i < |x|
    requires 0 <= m && m + 3 <= 0x7fff && forall i' :: 0 <= i' < |x| ==> PairAtMost(x[i'], m)
    ensures PositionFits(table, log2N, k, s, x, i)
    ensures PairAtMost(StageAt(IntArith(), table, log2N, k, s, x, i), m + 3)
    ensures StageAt(Int16Arith(), table, log2N, k, s, x, i) == StageAt(IntArith(), table, log2N, k, s, x, i)
  {
    hide PairAtMost, NormAtMost, ButterflyFits, Upper, Lower, Twiddle, BoundedTable;
    BoundedTableSize(table, log2N);
    PartnerInRange(k, s, i);
    var l := Pow2(s);
    TwiddleRange(table, log2N, s, i % l);
    var w := Twiddle(IntArith(), table, log2N, s, i % l);
    var hi, lo := if (i / l) % 2 == 0 then i else i - l, if (i / l) % 2 == 0 then i + l else i;
    ButterflyRange(w, x[hi], x[lo], m);
    FittingButterfly(w, x[hi], x[lo]);
  }

  lemma BoundedTableSize(table: seq<int>, log2N: nat)
    requires BoundedTable(table, log2N)
    ensures TableSize(table, log2N)
  {
  }

  /** Inputs of modulus at most m stay below m + 3 per stage, and no operation of any butterfly wraps. */
  lemma {:induction false} StagesRange(table: seq<int>, log2N: nat, k: nat, stages: nat, x: seq<(int, int)>, m: nat)
    requires BoundedTable(table, log2N) && stages <= k <= log2N && |x| == Pow2(k)
    requires m + 3 * stages <= 0x7fff && forall i :: 0 <= i < |x| ==> PairAtMost(x[i], m)
    ensures Stages(Int16Arith(), table, log2N, k, stages, x) == Stages(IntArith(), table, log2N, k, stages, x)
    ensures forall i :: 0 <= i < |x| ==> PairAtMost(Stages(IntArith(), table, log2N, k, stages, x)[i], m + 3 * stages)
    ensures forall s, i :: 0 <= s < stages && 0 <= i < |x| ==>
              PositionFits(table, log2N, k, s, Stages(Int16Arith(), table, log2N, k, s, x), i)
  {
    hide PairAtMost, PositionFits, StageAt, BoundedTable;
    BoundedTableSize(table, log2N);
    if stages == 0 {
    } else {
      StagesRange(table, log2N, k, stages - 1, x, m);
      var s := stages - 1;
      var y := Stages(IntArith(), table, log2N, k, s, x);
      var z, z' := Stage(IntArith(), table, log2N, k, s, y), Stage(Int16Arith(), table, log2N, k, s, y);
      forall i | 0 <= i < |x|
        ensures PositionFits(table, log2N, k, s, y, i)
      {
        PositionRange(table, log2N, k, s, y, m + 3 * s, i);
      }
      forall i | 0 <= i < |x|
        ensures PairAtMost(z[i], m + 3 * stages)
      {
        PositionRange(table, log2N, k, s, y, m + 3 * s, i);
      }
      forall i | 0 <= i < |x|
        ensures z'[i] == z[i]
      {
        PositionRange(table, log2N, k, s, y, m + 3 * s, i);
      }
      assert z' == z;
    }
  }

  /**
   Inputs of modulus at most m, and no more stages than m leaves room for: the 16-bit result is
   the result on unbounded integers, and no operation of any butterfly wraps.
   */
  lemma FftNeverWraps(table: seq<int>, log2N: nat, k: nat, x: seq<(int, int)>, m: nat)
    requires BoundedTable(table, log2N) && k <= log2N && |x| == Pow2(k) && m + 3 * k <= 0x7fff
    requires forall i :: 0 <= i < |x| ==> PairAtMost(x[i], m)
    ensures Fft(Int16Arith(), table, log2N, k, x) == Fft(IntArith(), table, log2N, k, x)
    ensures forall i :: 0 <= i < |x| ==> PairAtMost(Fft(Int16Arith(), table, log2N, k, x)[i], m + 3 * k)
    ensures forall s, i :: 0 <= s < k && 0 <= i < |x| ==>
              PositionFits(table, log2N, k, s, Stages(Int16Arith(), table, log2N, k, s, x), i)
  {
    hide PairAtMost, PositionFits, BoundedTable, TableSize, Stages, Pow2;
    BoundedTableSize(table, log2N);
    StagesRange(table, log2N, k, k, x, m);
  }

  /** The table of `N_WAVE` = 4. */
  lemma SmallTable()
    ensures BoundedTable([0, 32767, 0], 2) && TableSize([0, 32767, 0], 2)
  {
    var table := [0, 32767, 0];
    assert Pow2(2) == 4;
    forall j | 0 <= j && j + 1 < 3
      ensures PairAtMost((table[j + 1], table[j]), 0x8000)
    {
      assert j == 0 || j == 1;
    }
  }
}
