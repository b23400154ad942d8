/**
 How far the 16-bit result of fix_fft is from the exact transform: one bound per stage, from the
 roundings of a butterfly and from the distance of the sine table from the powers of the root.
 */
module FftError {
  import opened Pow2s
  import opened BitReversal
  import opened FixFft
  import opened FftMeaning
  import opened FftRange

  function ToCx(z: (int, int)): Cx {
    (z.0 as real, z.1 as real)
  }

  function AllToCx(x: seq<(int, int)>): (y: seq<Cx>)
    ensures |y| == |x|
  {
    seq(|x|, i requires 0 <= i < |x| => ToCx(x[i]))
  }

  ghost predicate Near(a: Cx, b: Cx, e: real) {
    NormAtMost(a.0 - b.0, a.1 - b.1, e)
  }

  /** Scaled to 32768, the table of the program is within d of the table of the powers of the root. */
  ghost predicate CloseTable(table: seq<int>, roots: seq<real>, log2N: nat, d: real)
    requires TableSize(table, log2N) && TableSize(roots, log2N)
  {
    d >= 0.0 && forall j :: 0 <= j && j + Pow2(log2N) / 4 < |table| ==>
      NormAtMost(table[j + Pow2(log2N) / 4] as real - 32768.0 * roots[j + Pow2(log2N) / 4],
                 table[j] as real - 32768.0 * roots[j], d)
  }

  // ---- distances

  lemma NearTrans(a: Cx, b: Cx, c: Cx, e: real, f: real)
    requires Near(a, b, e) && Near(b, c, f)
    ensures Near(a, c, e + f)
  {
    Triangle(a.0 - b.0, a.1 - b.1, e, b.0 - c.0, b.1 - c.1, f);
    assert (a.0 - b.0) + (b.0 - c.0) == a.0 - c.0 && (a.1 - b.1) + (b.1 - c.1) == a.1 - c.1;
  }

  lemma NearMonotone(a: Cx, b: Cx, e: real, f: real)
    requires Near(a, b, e) && e <= f
    ensures Near(a, b, f)
  {
    NormMonotone(a.0 - b.0, a.1 - b.1, e, f);
  }

  lemma NearSum(a: Cx, b: Cx, e: real, c: Cx, d: Cx, f: real)
    requires Near(a, b, e) && Near(c, d, f)
    ensures Near(CAdd(a, c), CAdd(b, d), e + f) && Near(CSub(a, c), CSub(b, d), e + f)
  {
    var x, y, u, v := a.0 - b.0, a.1 - b.1, c.0 - d.0, c.1 - d.1;
    Triangle(x, y, e, u, v, f);
    Negated(u, v, f);
    Triangle(x, y, e, -u, -v, f);
    assert x + u == CAdd(a, c).0 - CAdd(b, d).0 && y + v == CAdd(a, c).1 - CAdd(b, d).1;
    assert x + -u == CSub(a, c).0 - CSub(b, d).0 && y + -v == CSub(a, c).1 - CSub(b, d).1;
  }

  lemma Negated(x: real, y: real, m: real)
    requires NormAtMost(x, y, m)
    ensures NormAtMost(-x, -y, m)
  {
    assert (-x) * (-x) == x * x && (-y) * (-y) == y * y;
  }

  /** Factors that are near, times a factor of modulus at most n. */
  lemma NearProduct(a: Cx, b: Cx, e: real, p: Cx, n: real)
    requires Near(a, b, e) && NormAtMost(p.0, p.1, n)
    ensures Near(CMul(a, p), CMul(b, p), e * n)
  {
    ProductAtMost(a.0 - b.0, a.1 - b.1, e, p.0, p.1, n);
    Distribute(a.0, b.0, p.0); Distribute(a.1, b.1, p.1); Distribute(a.0, b.0, p.1); Distribute(a.1, b.1, p.0);
    var x := (a.0 - b.0) * p.0 - (a.1 - b.1) * p.1;
    var y := (a.0 - b.0) * p.1 + (a.1 - b.1) * p.0;
    assert x == CMul(a, p).0 - CMul(b, p).0;
    assert y == CMul(a, p).1 - CMul(b, p).1;
  }

  lemma Distribute(a: real, b: real, c: real)
    ensures (a - b) * c == a * c - b * c
  {
  }

  // ---- one butterfly

  /** Halving both, the integer with a floor. */
  lemma HalfNear(q: (int, int), v: Cx, e: real)
    requires Near(ToCx(q), v, e)
    ensures Near(ToCx((q.0 / 2, q.1 / 2)), CScale(0.5, v), 0.5 * e + 0.708)
  {
    HalfError(q.0); HalfError(q.1);
    var x, y := q.0 as real, q.1 as real;
    var f, g := 2.0 * ((q.0 / 2) as real - x / 2.0), 2.0 * ((q.1 / 2) as real - y / 2.0);
    SmallBox(f, g);
    ScaledNorm(x - v.0, y - v.1, e, 0.5);
    Triangle(0.5 * (x - v.0), 0.5 * (y - v.1), 0.5 * e, f / 2.0, g / 2.0, 0.708);
    assert 0.5 * (x - v.0) + f / 2.0 == (q.0 / 2) as real - 0.5 * v.0;
    assert 0.5 * (y - v.1) + g / 2.0 == (q.1 / 2) as real - 0.5 * v.1;
  }

  /** FIX_MPY on complex factors, against the product of the scaled twiddle. */
  lemma RoundingNear(w: (int, int), p: (int, int))
    ensures Near(ToCx(Product(IntArith(), w, p)), CMul(CScale(1.0 / 32768.0, ToCx(w)), ToCx(p)), 1.415)
  {
    var a, b, c, d := w.0 as real, w.1 as real, p.0 as real, p.1 as real;
    var t := Product(IntArith(), w, p);
    ProductError(w, p, a, b, c, d);
    hide Product, IntArith;
    var u := CMul(CScale(1.0 / 32768.0, ToCx(w)), ToCx(p));
    ScaledProduct(a, b, c, d);
    assert u.0 == (1.0 / 32768.0) * (a * c - b * d);
    assert u.1 == (1.0 / 32768.0) * (a * d + b * c);
    SmallBox(t.0 as real - u.0, t.1 as real - u.1);
  }

  lemma ScaledProduct(a: real, b: real, c: real, d: real)
    ensures var r := 1.0 / 32768.0;
            && (r * a) * c - (r * b) * d == r * (a * c - b * d)
            && (r * a) * d + (r * b) * c == r * (a * d + b * c)
  {
  }

  /** The products of a butterfly and of its exact counterpart. */
  lemma ProductNear(w: (int, int), p: (int, int), v: Cx, u: Cx, e: real, d: real)
    requires Near(CScale(1.0 / 32768.0, ToCx(w)), v, (0.5 * d + 0.708) / 32768.0) && NormAtMost(v.0, v.1, 0.5)
    requires PairAtMost(p, 0x8000) && Near(ToCx(p), u, e) && d >= 0.0
    ensures Near(ToCx(Product(IntArith(), w, p)), CMul(v, u), 0.5 * e + 0.5 * d + 2.123)
  {
    hide Near, NormAtMost, CMul, CScale, Product, IntArith;
    var w' := CScale(1.0 / 32768.0, ToCx(w));
    assert NormAtMost(ToCx(p).0, ToCx(p).1, 32768.0);
    RoundingNear(w, p);
    NearProduct(w', v, (0.5 * d + 0.708) / 32768.0, ToCx(p), 32768.0);
    NearTrans(ToCx(Product(IntArith(), w, p)), CMul(w', ToCx(p)), CMul(v, ToCx(p)), 1.415,
              ((0.5 * d + 0.708) / 32768.0) * 32768.0);
    NearProduct(ToCx(p), u, e, v, 0.5);
    CMulComm(ToCx(p), v);
    CMulComm(u, v);
    NearTrans(ToCx(Product(IntArith(), w, p)), CMul(v, ToCx(p)), CMul(v, u),
              1.415 + ((0.5 * d + 0.708) / 32768.0) * 32768.0, e * 0.5);
    NearMonotone(ToCx(Product(IntArith(), w, p)), CMul(v, u),
                 1.415 + ((0.5 * d + 0.708) / 32768.0) * 32768.0 + e * 0.5, 0.5 * e + 0.5 * d + 2.123);
  }

  lemma ExactUpper(v: Cx, a: Cx, b: Cx)
    ensures Upper(ExactArith(), v, a, b) == CAdd(CScale(0.5, a), CMul(v, b))
    ensures Lower(ExactArith(), v, a, b) == CSub(CScale(0.5, a), CMul(v, b))
  {
    var t := Product(ExactArith(), v, b);
    assert t == CMul(v, b);
  }

  lemma IntUpper(w: (int, int), q: (int, int), p: (int, int))
    ensures ToCx(Upper(IntArith(), w, q, p)) == CAdd(ToCx((q.0 / 2, q.1 / 2)), ToCx(Product(IntArith(), w, p)))
    ensures ToCx(Lower(IntArith(), w, q, p)) == CSub(ToCx((q.0 / 2, q.1 / 2)), ToCx(Product(IntArith(), w, p)))
  {
    hide Product;
  }

  /** A butterfly adds at most 3 + d/2 to the distance. */
  lemma ButterflyNear(w: (int, int), q: (int, int), p: (int, int), v: Cx, a: Cx, b: Cx, e: real, d: real)
    requires Near(CScale(1.0 / 32768.0, ToCx(w)), v, (0.5 * d + 0.708) / 32768.0) && NormAtMost(v.0, v.1, 0.5)
    requires PairAtMost(p, 0x8000) && Near(ToCx(q), a, e) && Near(ToCx(p), b, e) && d >= 0.0
    ensures Near(ToCx(Upper(IntArith(), w, q, p)), Upper(ExactArith(), v, a, b), e + 3.0 + 0.5 * d)
    ensures Near(ToCx(Lower(IntArith(), w, q, p)), Lower(ExactArith(), v, a, b), e + 3.0 + 0.5 * d)
  {
    hide *;
    var h, t := ToCx((q.0 / 2, q.1 / 2)), ToCx(Product(IntArith(), w, p));
    HalfNear(q, a, e);
    ProductNear(w, p, v, b, e, d);
    NearSum(h, CScale(0.5, a), 0.5 * e + 0.708, t, CMul(v, b), 0.5 * e + 0.5 * d + 2.123);
    ExactUpper(v, a, b);
    IntUpper(w, q, p);
    var sum := 0.5 * e + 0.708 + (0.5 * e + 0.5 * d + 2.123);
    NearMonotone(CAdd(h, t), CAdd(CScale(0.5, a), CMul(v, b)), sum, e + 3.0 + 0.5 * d);
    NearMonotone(CSub(h, t), CSub(CScale(0.5, a), CMul(v, b)), sum, e + 3.0 + 0.5 * d);
  }

  // ---- twiddle factors

  function NormSquared(a: Cx): real { a.0 * a.0 + a.1 * a.1 }

  lemma NormOfProduct(a: Cx, b: Cx)
    ensures NormSquared(CMul(a, b)) == NormSquared(a) * NormSquared(b)
  {
    ProductOfNorms(a.0, a.1, b.0, b.1);
  }

  function RPow(a: real, n: nat): real {
    if n == 0 then 1.0 else a * RPow(a, n - 1)
  }

  lemma {:induction false} NormOfPower(w: Cx, n: nat)
    ensures NormSquared(CPow(w, n)) == RPow(NormSquared(w), n)
  {
    hide CMul, NormSquared;
    if n == 0 {
      assert NormSquared(ONE) == 1.0 by { NormOfOne(); }
    } else {
      NormOfPower(w, n - 1);
      NormOfProduct(w, CPow(w, n - 1));
    }
  }

  lemma NormOfOne()
    ensures NormSquared(ONE) == 1.0 && NormSquared(MINUS_ONE) == 1.0
  {
  }

  lemma {:induction false} PowerAwayFromOne(a: real, n: nat)
    requires a >= 0.0
    ensures a < 1.0 ==> 0.0 <= RPow(a, n) <= 1.0 && (n > 0 ==> RPow(a, n) < 1.0)
    ensures a > 1.0 ==> RPow(a, n) >= 1.0 && (n > 0 ==> RPow(a, n) > 1.0)
    ensures a == 1.0 ==> RPow(a, n) == 1.0
  {
    if n > 0 {
      PowerAwayFromOne(a, n - 1);
      var r := RPow(a, n - 1);
      hide RPow;
      if a < 1.0 {
        MulMonotone(a, a, r, 1.0);
      } else {
        MulMonotone(a, a, 1.0, r);
      }
    }
  }

  /** The root of a table has modulus 1, and so have its powers. */
  lemma PowersAreUnits(roots: seq<real>, log2N: nat, w: Cx, n: nat)
    requires RootTable(roots, log2N, w)
    ensures NormSquared(CPow(w, n)) == 1.0
  {
    var h := Pow2(log2N - 1);
    assert CPow(w, h) == MINUS_ONE;
    hide RootTable, CPow, Pow2;
    NormOfOne();
    NormOfPower(w, h);
    assert NormSquared(w) >= 0.0;
    PowerAwayFromOne(NormSquared(w), h);
    NormOfPower(w, n);
    PowerAwayFromOne(NormSquared(w), n);
  }

  /** The scaled twiddle of the program against half a power of the root. */
  lemma TwiddleNear(table: seq<int>, roots: seq<real>, log2N: nat, w: Cx, d: real, s: nat, m: nat)
    requires TableSize(table, log2N) && RootTable(roots, log2N, w) && TableSize(roots, log2N)
    requires CloseTable(table, roots, log2N, d) && s < log2N && m < Pow2(s)
    ensures var t, v := Twiddle(IntArith(), table, log2N, s, m), Twiddle(ExactArith(), roots, log2N, s, m);
            Near(CScale(1.0 / 32768.0, ToCx(t)), v, (0.5 * d + 0.708) / 32768.0) && NormAtMost(v.0, v.1, 0.5)
  {
    hide *;
    var j := TwiddleIndex(log2N, s, m);
    ExactTwiddle(roots, log2N, s, m);
    IntTwiddle(table, log2N, s, m);
    EntriesNear(table, roots, log2N, d, j);
    RootTableEntry(roots, log2N, w, j);
    PowersAreUnits(roots, log2N, w, j);
    TableEntryIs(roots, log2N, j);
    HalfUnit(roots[j + Pow2(log2N) / 4], -roots[j], Twiddle(ExactArith(), roots, log2N, s, m));
    HalvedEntries(table[j + Pow2(log2N) / 4], table[j], roots[j + Pow2(log2N) / 4], roots[j], d);
  }

  lemma ExactTwiddle(roots: seq<real>, log2N: nat, s: nat, m: nat)
    requires TableSize(roots, log2N) && s < log2N && m < Pow2(s)
    ensures var j := TwiddleIndex(log2N, s, m);
            && j < Pow2(log2N - 1) && j + Pow2(log2N) / 4 < |roots|
            && Twiddle(ExactArith(), roots, log2N, s, m) == (roots[j + Pow2(log2N) / 4] / 2.0, -roots[j] / 2.0)
  {
    TwiddleInRange(log2N, s, m);
    hide TwiddleIndex, Pow2;
  }

  lemma IntTwiddle(table: seq<int>, log2N: nat, s: nat, m: nat)
    requires TableSize(table, log2N) && s < log2N && m < Pow2(s)
    ensures var j := TwiddleIndex(log2N, s, m);
            && j + Pow2(log2N) / 4 < |table|
            && Twiddle(IntArith(), table, log2N, s, m) == (table[j + Pow2(log2N) / 4] / 2, -table[j] / 2)
  {
    TwiddleInRange(log2N, s, m);
    hide TwiddleIndex, Pow2;
  }

  lemma EntriesNear(table: seq<int>, roots: seq<real>, log2N: nat, d: real, j: nat)
    requires TableSize(table, log2N) && TableSize(roots, log2N) && CloseTable(table, roots, log2N, d)
    requires j + Pow2(log2N) / 4 < |table|
    ensures d >= 0.0 && |roots| == |table|
    ensures NormAtMost(table[j + Pow2(log2N) / 4] as real - 32768.0 * roots[j + Pow2(log2N) / 4],
                       table[j] as real - 32768.0 * roots[j], d)
  {
    hide NormAtMost, Pow2;
  }

  lemma TableEntryIs(roots: seq<real>, log2N: nat, j: nat)
    requires log2N >= 1 && TableSize(roots, log2N) && j < Pow2(log2N - 1) && j + Pow2(log2N) / 4 < |roots|
    ensures TableEntry(roots, log2N, j) == (roots[j + Pow2(log2N) / 4], -roots[j])
  {
  }

  lemma HalfUnit(x: real, y: real, v: Cx)
    requires NormSquared((x, y)) == 1.0 && v == (x / 2.0, y / 2.0)
    ensures NormAtMost(v.0, v.1, 0.5)
  {
    assert v.0 * v.0 == x * x / 4.0 && v.1 * v.1 == y * y / 4.0;
  }

  lemma HalvedEntries(cosine: int, sine: int, c: real, s: real, d: real)
    requires NormAtMost(cosine as real - 32768.0 * c, sine as real - 32768.0 * s, d) && d >= 0.0
    ensures Near(CScale(1.0 / 32768.0, ToCx((cosine / 2, -sine / 2))), (c / 2.0, -s / 2.0), (0.5 * d + 0.708) / 32768.0)
  {
    var a: Cx := (32768.0 * c, -(32768.0 * s));
    FlippedNorm(cosine as real - 32768.0 * c, sine as real - 32768.0 * s, d);
    assert Near(ToCx((cosine, -sine)), a, d);
    HalfNear((cosine, -sine), a, d);
    var t: Cx := ToCx((cosine / 2, -sine / 2));
    var h := CScale(0.5, a);
    ScaledNorm(t.0 - h.0, t.1 - h.1, 0.5 * d + 0.708, 1.0 / 32768.0);
    assert (1.0 / 32768.0) * (t.0 - h.0) == (1.0 / 32768.0) * t.0 - c / 2.0;
    assert (1.0 / 32768.0) * (t.1 - h.1) == (1.0 / 32768.0) * t.1 - -s / 2.0;
    assert (1.0 / 32768.0) * (0.5 * d + 0.708) == (0.5 * d + 0.708) / 32768.0;
  }

  lemma FlippedNorm(x: real, y: real, m: real)
    requires NormAtMost(x, y, m)
    ensures NormAtMost(x, -y, m)
  {
    assert (-y) * (-y) == y * y;
  }

  // ---- all stages

  /** The bound after s stages. */
  function Distance(s: nat, d: real): real {
    s as real * (3.0 + 0.5 * d)
  }

  lemma PositionNear(table: seq<int>, roots: seq<real>, log2N: nat, w: Cx, d: real, k: nat, s: nat,
                     x: seq<(int, int)>, y: seq<Cx>, e: real, i: nat)
    requires TableSize(table, log2N) && RootTable(roots, log2N, w) && TableSize(roots, log2N)
    requires CloseTable(table, roots, log2N, d) && s < k <= log2N && |x| == |y| == Pow2(k) && i < |x|
    requires forall i' :: 0 <= i' < |x| ==> PairAtMost(x[i'], 0x8000) && Near(ToCx(x[i']), y[i'], e)
    ensures Near(ToCx(StageAt(IntArith(), table, log2N, k, s, x, i)), StageAt(ExactArith(), roots, log2N, k, s, y, i),
                 e + 3.0 + 0.5 * d)
  {
    hide PairAtMost, Near, Upper, Lower, Twiddle, RootTable, TableSize, Pow2, NormAtMost;
    PartnerInRange(k, s, i);
    var l := Pow2(s);
    TwiddleNear(table, roots, log2N, w, d, s, i % l);
    assert d >= 0.0;
    hide CloseTable;
    var t, v := Twiddle(IntArith(), table, log2N, s, i % l), Twiddle(ExactArith(), roots, log2N, s, i % l);
    var hi, lo := if (i / l) % 2 == 0 then i else i - l, if (i / l) % 2 == 0 then i + l else i;
    ButterflyNear(t, x[hi], x[lo], v, y[hi], y[lo], e, d);
  }

  ghost predicate AllNear(x: seq<(int, int)>, y: seq<Cx>, e: real) {
    |x| == |y| && forall i :: 0 <= i < |x| ==> Near(ToCx(x[i]), y[i], e)
  }

  ghost predicate AllAtMost(x: seq<(int, int)>, m: int) {
    forall i :: 0 <= i < |x| ==> PairAtMost(x[i], m)
  }

  lemma ReorderedNear(x: seq<(int, int)>, k: nat)
    requires |x| == Pow2(k)
    ensures AllNear(Reordered(x, k), Reordered(AllToCx(x), k), 0.0)
  {
    forall i | 0 <= i < |x|
      ensures ToCx(Reordered(x, k)[i]) == Reordered(AllToCx(x), k)[i]
    {
      BitRevInvolution(i, k);
      hide BitRev, Pow2;
    }
    hide Reordered, AllToCx, ToCx, Pow2;
  }

  lemma StageNear(table: seq<int>, roots: seq<real>, log2N: nat, w: Cx, d: real, k: nat, s: nat,
                  x: seq<(int, int)>, y: seq<Cx>, e: real)
    requires TableSize(table, log2N) && RootTable(roots, log2N, w) && TableSize(roots, log2N)
    requires CloseTable(table, roots, log2N, d) && s < k <= log2N && |x| == |y| == Pow2(k)
    requires AllAtMost(x, 0x8000) && AllNear(x, y, e)
    ensures AllNear(Stage(IntArith(), table, log2N, k, s, x), Stage(ExactArith(), roots, log2N, k, s, y),
                    e + 3.0 + 0.5 * d)
  {
    hide Near, PairAtMost, StageAt, RootTable, TableSize, CloseTable, Pow2;
    forall i | 0 <= i < |x|
      ensures Near(ToCx(StageAt(IntArith(), table, log2N, k, s, x, i)), StageAt(ExactArith(), roots, log2N, k, s, y, i),
                   e + 3.0 + 0.5 * d)
    {
      PositionNear(table, roots, log2N, w, d, k, s, x, y, e, i);
    }
  }

  lemma AllMonotone(x: seq<(int, int)>, m: int, n: int)
    requires AllAtMost(x, m) && m <= n
    ensures AllAtMost(x, n)
  {
    hide PairAtMost;
    forall i | 0 <= i < |x|
      ensures PairAtMost(x[i], n)
    {
      PairMonotone(x[i], m, n);
    }
  }

  lemma StagesAtMost(table: seq<int>, log2N: nat, k: nat, s: nat, x: seq<(int, int)>, m: nat)
    requires BoundedTable(table, log2N) && TableSize(table, log2N) && s <= k <= log2N && |x| == Pow2(k)
    requires m + 3 * s <= 0x7fff && AllAtMost(x, m)
    ensures AllAtMost(Stages(IntArith(), table, log2N, k, s, x), m + 3 * s)
    ensures Stages(Int16Arith(), table, log2N, k, s, x) == Stages(IntArith(), table, log2N, k, s, x)
  {
    hide PairAtMost, BoundedTable, TableSize, Stages, Pow2;
    StagesRange(table, log2N, k, s, x, m);
  }

  /** After s stages every value is within s * (3 + d/2) of the exact one. */
  lemma {:induction false} StagesNear(table: seq<int>, roots: seq<real>, log2N: nat, w: Cx, d: real, k: nat, s: nat,
                                      x: seq<(int, int)>, m: nat)
    requires BoundedTable(table, log2N) && TableSize(table, log2N)
    requires RootTable(roots, log2N, w) && TableSize(roots, log2N) && CloseTable(table, roots, log2N, d)
    requires s <= k <= log2N && |x| == Pow2(k) && m + 3 * s <= 0x7fff && AllAtMost(x, m)
    ensures AllNear(Stages(IntArith(), table, log2N, k, s, x), Stages(ExactArith(), roots, log2N, k, s, AllToCx(x)),
                    Distance(s, d))
  {
    hide *;
    NextDistance(s, d);
    StagesUnfold(IntArith(), table, log2N, k, s, x);
    StagesUnfold(ExactArith(), roots, log2N, k, s, AllToCx(x));
    if s == 0 {
      ReorderedNear(x, k);
    } else {
      StagesNear(table, roots, log2N, w, d, k, s - 1, x, m);
      StagesAtMost(table, log2N, k, s - 1, x, m);
      var z := Stages(IntArith(), table, log2N, k, s - 1, x);
      AllMonotone(z, m + 3 * (s - 1), 0x8000);
      var y := Stages(ExactArith(), roots, log2N, k, s - 1, AllToCx(x));
      StageNear(table, roots, log2N, w, d, k, s - 1, z, y, Distance(s - 1, d));
      NextDistance(s - 1, d);
    }
  }

  lemma StagesUnfold<T>(ar: Arith<T>, table: seq<T>, log2N: nat, k: nat, s: nat, x: seq<(T, T)>)
    requires TableSize(table, log2N) && s <= k <= log2N && |x| == Pow2(k)
    ensures Stages(ar, table, log2N, k, s, x) ==
              if s == 0 then Reordered(x, k)
              else Stage(ar, table, log2N, k, s - 1, Stages(ar, table, log2N, k, s - 1, x))
  {
    hide Stage, Reordered, TableSize, Pow2;
  }

  lemma PairMonotone(z: (int, int), m: int, n: int)
    requires PairAtMost(z, m) && m <= n
    ensures PairAtMost(z, n)
  {
    NormMonotone(z.0 as real, z.1 as real, m as real, n as real);
  }

  lemma NextDistance(s: nat, d: real)
    ensures Distance(s, d) + 3.0 + 0.5 * d == Distance(s + 1, d) && Distance(0, d) == 0.0
  {
  }

  /**
   The 16-bit result against the transform: with inputs of modulus at most m, no more stages
   than m leaves room for, and a table within d of the roots, output f is within k * (3 + d/2) of
   the discrete Fourier sum at f divided by the length.
   */
  lemma FftNearDft(table: seq<int>, roots: seq<real>, log2N: nat, w: Cx, d: real, k: nat,
                   x: seq<(int, int)>, m: nat, f: nat)
    requires BoundedTable(table, log2N) && TableSize(table, log2N)
    requires RootTable(roots, log2N, w) && TableSize(roots, log2N) && CloseTable(table, roots, log2N, d)
    requires k <= log2N && |x| == Pow2(k) && f < |x| && m + 3 * k <= 0x7fff && AllAtMost(x, m)
    ensures Near(ToCx(Fft(Int16Arith(), table, log2N, k, x)[f]),
                 CScale(1.0 / Pow2(k) as real, Dft(AllToCx(x), CPow(w, Pow2(log2N - k)), f)), Distance(k, d))
  {
    var z, y := Stages(IntArith(), table, log2N, k, k, x), Stages(ExactArith(), roots, log2N, k, k, AllToCx(x));
    assert Fft(Int16Arith(), table, log2N, k, x) == Stages(Int16Arith(), table, log2N, k, k, x);
    assert Fft(ExactArith(), roots, log2N, k, AllToCx(x)) == y;
    hide *;
    StagesAtMost(table, log2N, k, k, x, m);
    StagesNear(table, roots, log2N, w, d, k, k, x, m);
    FftIsDft(roots, log2N, w, k, AllToCx(x), f);
    OneNear(z, y, Distance(k, d), f);
  }

  lemma OneNear(x: seq<(int, int)>, y: seq<Cx>, e: real, i: nat)
    requires AllNear(x, y, e) && i < |x|
    ensures Near(ToCx(x[i]), y[i], e)
  {
  }

  // ---- the table of the program

  /** sine_table scales the sines by 32767 and rounds them to the nearest integer. */
  ghost predicate RoundedTable(table: seq<int>, roots: seq<real>) {
    |table| == |roots| && forall j :: 0 <= j < |table| ==> -0.5 <= table[j] as real - 32767.0 * roots[j] <= 0.5
  }

  /** So it is bounded, and within 1.708 of the roots. */
  lemma RoundedTableIsClose(table: seq<int>, roots: seq<real>, log2N: nat, w: Cx)
    requires RootTable(roots, log2N, w) && TableSize(roots, log2N) && RoundedTable(table, roots)
    ensures BoundedTable(table, log2N) && TableSize(table, log2N) && CloseTable(table, roots, log2N, 1.708)
  {
    QuarterAndHalf(log2N);
    SameSize(table, roots);
    hide RootTable, RoundedTable, Pow2, NormAtMost, PairAtMost;
    forall j | 0 <= j && j + Pow2(log2N) / 4 < |table|
      ensures PairAtMost((table[j + Pow2(log2N) / 4], table[j]), 0x8000)
      ensures NormAtMost(table[j + Pow2(log2N) / 4] as real - 32768.0 * roots[j + Pow2(log2N) / 4],
                         table[j] as real - 32768.0 * roots[j], 1.708)
    {
      EntriesRounded(table, roots, log2N, w, j);
    }
    forall i | 0 <= i < |table|
      ensures -0x7fff <= table[i] <= 0x7fff
    {
      EntriesRounded(table, roots, log2N, w, if i < Pow2(log2N) / 4 then i else i - Pow2(log2N) / 4);
    }
  }

  lemma EntriesRounded(table: seq<int>, roots: seq<real>, log2N: nat, w: Cx, j: nat)
    requires RootTable(roots, log2N, w) && TableSize(roots, log2N) && RoundedTable(table, roots)
    requires |table| == |roots| && log2N >= 1 && j < Pow2(log2N - 1) && j + Pow2(log2N) / 4 < |table|
    ensures var q := Pow2(log2N) / 4;
            && PairAtMost((table[j + q], table[j]), 0x8000)
            && NormAtMost(table[j + q] as real - 32768.0 * roots[j + q], table[j] as real - 32768.0 * roots[j], 1.708)
            && -0x7fff <= table[j] <= 0x7fff && -0x7fff <= table[j + q] <= 0x7fff
  {
    hide *;
    var q := Pow2(log2N) / 4;
    EntryRounded(table, roots, j);
    EntryRounded(table, roots, j + q);
    RootTableEntry(roots, log2N, w, j);
    PowersAreUnits(roots, log2N, w, j);
    TableEntryIs(roots, log2N, j);
    UnitEntry(roots[j + q], roots[j]);
    RoundedPair(table[j + q], table[j], roots[j + q], roots[j]);
  }

  lemma UnitEntry(x: real, y: real)
    ensures NormSquared((x, -y)) == x * x + y * y
  {
  }

  lemma SameSize(table: seq<int>, roots: seq<real>)
    requires RoundedTable(table, roots)
    ensures |table| == |roots|
  {
  }

  lemma EntryRounded(table: seq<int>, roots: seq<real>, j: nat)
    requires RoundedTable(table, roots) && j < |table|
    ensures |table| == |roots| && -0.5 <= table[j] as real - 32767.0 * roots[j] <= 0.5
  {
  }

  lemma QuarterAndHalf(log2N: nat)
    requires log2N >= 1
    ensures var n := Pow2(log2N); n * 3 / 4 - n / 4 == Pow2(log2N - 1) >= 1 && n / 4 <= Pow2(log2N - 1)
  {
    if log2N >= 2 { assert Pow2(log2N) == 4 * Pow2(log2N - 2); }
  }

  lemma RoundedPair(c: int, s: int, x: real, y: real)
    requires x * x + y * y == 1.0
    requires -0.5 <= c as real - 32767.0 * x <= 0.5 && -0.5 <= s as real - 32767.0 * y <= 0.5
    ensures PairAtMost((c, s), 0x8000)
    ensures NormAtMost(c as real - 32768.0 * x, s as real - 32768.0 * y, 1.708)
    ensures -0x7fff <= c <= 0x7fff && -0x7fff <= s <= 0x7fff
  {
    var d, e := 2.0 * (c as real - 32767.0 * x), 2.0 * (s as real - 32767.0 * y);
    assert NormAtMost(x, y, 1.0);
    ComponentAtMost(x, y, 1.0);
    SmallBox(d, e);
    Negated(x, y, 1.0);
    hide NormAtMost;
    ScaledNorm(x, y, 1.0, 32767.0);
    Triangle(32767.0 * x, 32767.0 * y, 32767.0, d / 2.0, e / 2.0, 0.708);
    assert 32767.0 * x + d / 2.0 == c as real && 32767.0 * y + e / 2.0 == s as real;
    NormMonotone(c as real, s as real, 32767.708, 32768.0);
    Triangle(d / 2.0, e / 2.0, 0.708, -x, -y, 1.0);
    assert d / 2.0 + -x == c as real - 32768.0 * x && e / 2.0 + -y == s as real - 32768.0 * y;
  }

  /** With the table of the program, output f is within 3.854 per stage. */
  lemma SineTableNearDft(table: seq<int>, roots: seq<real>, log2N: nat, w: Cx, k: nat, x: seq<(int, int)>,
                         m: nat, f: nat)
    requires RootTable(roots, log2N, w) && TableSize(roots, log2N) && RoundedTable(table, roots)
    requires k <= log2N && |x| == Pow2(k) && f < |x| && m + 3 * k <= 0x7fff && AllAtMost(x, m)
    ensures TableSize(table, log2N)
    ensures Near(ToCx(Fft(Int16Arith(), table, log2N, k, x)[f]),
                 CScale(1.0 / Pow2(k) as real, Dft(AllToCx(x), CPow(w, Pow2(log2N - k)), f)), k as real * 3.854)
  {
    hide *;
    RoundedDistance(k);
    RoundedTableIsClose(table, roots, log2N, w);
    FftNearDft(table, roots, log2N, w, 1.708, k, x, m, f);
  }

  lemma RoundedDistance(k: nat)
    ensures Distance(k, 1.708) == k as real * 3.854
  {
  }

  /** The tables of N_WAVE = 4 meet all of this, with a distance of 1. */
  lemma QuarterTableNear()
    ensures BoundedTable([0, 32767, 0], 2) && TableSize([0, 32767, 0], 2) && TableSize([0.0, 1.0, 0.0], 2)
    ensures RootTable([0.0, 1.0, 0.0], 2, (0.0, -1.0)) && CloseTable([0, 32767, 0], [0.0, 1.0, 0.0], 2, 1.0)
  {
    QuarterTable();
    SmallTable();
    hide BoundedTable, RootTable;
    var table, roots := [0, 32767, 0], [0.0, 1.0, 0.0];
    assert Pow2(2) == 4;
    forall j | 0 <= j && j + 1 < 3
      ensures NormAtMost(table[j + 1] as real - 32768.0 * roots[j + 1], table[j] as real - 32768.0 * roots[j], 1.0)
    {
      assert j == 0 || j == 1;
    }
  }
}
