/**
 fix_fft with its fixed-point operations read exactly: every right shift is a division by
 two and FIX_MPY is a product. The table is then any table of the powers of a number w with
 w^(N_WAVE/2) = -1, and the result is the discrete Fourier transform divided by its length.
 */
module FftMeaning {
  import opened Pow2s
  import opened BitReversal
  import opened FixFft

  type Cx = (real, real)

  function ExactArith(): Arith<real> {
    Arith((a: real, b: real) => a + b, (a: real, b: real) => a - b, (a: real) => -a,
          (a: real) => a / 2.0, (a: real, b: real) => a * b)
  }

  function CAdd(a: Cx, b: Cx): Cx { (a.0 + b.0, a.1 + b.1) }
  function CSub(a: Cx, b: Cx): Cx { (a.0 - b.0, a.1 - b.1) }
  function CMul(a: Cx, b: Cx): Cx { (a.0 * b.0 - a.1 * b.1, a.0 * b.1 + a.1 * b.0) }
  function CScale(c: real, a: Cx): Cx { (c * a.0, c * a.1) }

  const ZERO: Cx := (0.0, 0.0)
  const ONE: Cx := (1.0, 0.0)
  const MINUS_ONE: Cx := (-1.0, 0.0)

  function CPow(w: Cx, n: nat): Cx {
    if n == 0 then ONE else CMul(w, CPow(w, n - 1))
  }

  /** The textbook transform: the sum of x[t] * w^(f*t) over the first `terms` values of t. */
  function DftSum(x: seq<Cx>, w: Cx, f: nat, terms: nat): Cx
    requires terms <= |x|
  {
    if terms == 0 then ZERO
    else CAdd(DftSum(x, w, f, terms - 1), CMul(x[terms - 1], CPow(w, f * (terms - 1))))
  }

  function Dft(x: seq<Cx>, w: Cx, f: nat): Cx {
    DftSum(x, w, f, |x|)
  }

  /** Entry j read as the complex number cos - i sin. */
  function TableEntry(table: seq<real>, log2N: nat, j: nat): Cx
    requires log2N >= 1 && TableSize(table, log2N) && j < Pow2(log2N - 1)
  {
    assert log2N >= 2 ==> Pow2(log2N) == 4 * Pow2(log2N - 2);
    (table[j + Pow2(log2N) / 4], -table[j])
  }

  /** The table holds cosines a quarter period above sines, and they are the powers of w. */
  ghost predicate RootTable(table: seq<real>, log2N: nat, w: Cx) {
    && log2N >= 1
    && TableSize(table, log2N)
    && (forall j :: 0 <= j < Pow2(log2N - 1) ==> TableEntry(table, log2N, j) == CPow(w, j))
    && CPow(w, Pow2(log2N - 1)) == MINUS_ONE
  }

  // ---- algebra of complex numbers

  lemma RDist(a: real, b: real, c: real)
    ensures a * (b + c) == a * b + a * c
    ensures a * (b - c) == a * b - a * c
  {
  }

  lemma RAssoc(a: real, b: real, c: real)
    ensures (a * b) * c == a * (b * c)
  {
  }

  lemma CMulAssoc(a: Cx, b: Cx, c: Cx)
    ensures CMul(CMul(a, b), c) == CMul(a, CMul(b, c))
  {
    RealPart(a.0, a.1, b.0, b.1, c.0, c.1);
    ImagPart(a.0, a.1, b.0, b.1, c.0, c.1);
    assert (CMul(CMul(a, b), c)).0 == (CMul(a, CMul(b, c))).0;
    assert (CMul(CMul(a, b), c)).1 == (CMul(a, CMul(b, c))).1;
  }

  lemma RealPart(a: real, a': real, b: real, b': real, c: real, c': real)
    ensures (a * b - a' * b') * c - (a * b' + a' * b) * c' == a * (b * c - b' * c') - a' * (b * c' + b' * c)
  {
    RDist(c, a * b, a' * b'); RDist(c', a * b', a' * b);
    RDist(a, b * c, b' * c'); RDist(a', b * c', b' * c);
    RAssoc(a, b, c); RAssoc(a', b', c); RAssoc(a, b', c'); RAssoc(a', b, c');
  }

  lemma ImagPart(a: real, a': real, b: real, b': real, c: real, c': real)
    ensures (a * b - a' * b') * c' + (a * b' + a' * b) * c == a * (b * c' + b' * c) + a' * (b * c - b' * c')
  {
    RDist(c', a * b, a' * b'); RDist(c, a * b', a' * b);
    RDist(a, b * c', b' * c); RDist(a', b * c, b' * c');
    RAssoc(a, b, c'); RAssoc(a', b', c'); RAssoc(a, b', c); RAssoc(a', b, c);
  }

  lemma CMulComm(a: Cx, b: Cx)
    ensures CMul(a, b) == CMul(b, a)
  {
  }

  lemma CMulDistributes(a: Cx, b: Cx, c: Cx)
    ensures CMul(a, CAdd(b, c)) == CAdd(CMul(a, b), CMul(a, c))
  {
    RDist(a.0, b.0, c.0); RDist(a.1, b.1, c.1);
    RDist(a.0, b.1, c.1); RDist(a.1, b.0, c.0);
    assert (CMul(a, CAdd(b, c))).0 == (CAdd(CMul(a, b), CMul(a, c))).0;
    assert (CMul(a, CAdd(b, c))).1 == (CAdd(CMul(a, b), CMul(a, c))).1;
  }

  lemma CMulOne(a: Cx)
    ensures CMul(ONE, a) == a == CMul(a, ONE)
    ensures CMul(ZERO, a) == ZERO == CMul(a, ZERO)
  {
  }

  lemma CAddLaws(a: Cx, b: Cx, c: Cx)
    ensures CAdd(CAdd(a, b), c) == CAdd(a, CAdd(b, c))
    ensures CAdd(a, b) == CAdd(b, a)
    ensures CAdd(a, ZERO) == a == CAdd(ZERO, a)
  {
  }

  lemma {:induction false} CPowAdd(w: Cx, a: nat, b: nat)
    ensures CPow(w, a + b) == CMul(CPow(w, a), CPow(w, b))
  {
    hide CMul;
    if a == 0 {
      CMulOne(CPow(w, b));
    } else {
      CPowAdd(w, a - 1, b);
      CMulAssoc(w, CPow(w, a - 1), CPow(w, b));
    }
  }

  lemma {:induction false} CPowMul(w: Cx, a: nat, b: nat)
    ensures CPow(CPow(w, a), b) == CPow(w, a * b)
  {
    hide CMul;
    if b == 0 {
    } else {
      CPowMul(w, a, b - 1);
      assert a * b == a + a * (b - 1);
      CPowAdd(w, a, a * (b - 1));
    }
  }

  // ---- the transform as evaluation of a polynomial

  /** x[0] + x[1] z + x[2] z^2 + ... */
  function Horner(x: seq<Cx>, z: Cx): Cx {
    if x == [] then ZERO else CAdd(x[0], CMul(z, Horner(x[1..], z)))
  }

  lemma {:induction false} HornerSnoc(x: seq<Cx>, v: Cx, z: Cx)
    ensures Horner(x + [v], z) == CAdd(Horner(x, z), CMul(v, CPow(z, |x|)))
  {
    hide CMul, CAdd;
    if x == [] {
      assert (x + [v])[1..] == [];
      CMulOne(z); CMulOne(v);
      CAddLaws(v, ZERO, ZERO);
    } else {
      assert (x + [v])[1..] == x[1..] + [v];
      var h, p := Horner(x[1..], z), CPow(z, |x| - 1);
      HornerSnoc(x[1..], v, z);
      CMulDistributes(z, h, CMul(v, p));
      CMulAssoc(z, v, p); CMulComm(z, v); CMulAssoc(v, z, p);
      CAddLaws(x[0], CMul(z, h), CMul(v, CPow(z, |x|)));
    }
  }

  lemma {:induction false} DftSumIsHorner(x: seq<Cx>, w: Cx, f: nat, terms: nat)
    requires terms <= |x|
    ensures DftSum(x, w, f, terms) == Horner(x[..terms], CPow(w, f))
  {
    hide CMul, CAdd;
    if terms == 0 {
    } else {
      DftSumIsHorner(x, w, f, terms - 1);
      assert x[..terms] == x[..terms - 1] + [x[terms - 1]];
      HornerSnoc(x[..terms - 1], x[terms - 1], CPow(w, f));
      CPowMul(w, f, terms - 1);
    }
  }

  lemma DftIsHorner(x: seq<Cx>, w: Cx, f: nat)
    ensures Dft(x, w, f) == Horner(x, CPow(w, f))
  {
    DftSumIsHorner(x, w, f, |x|);
    assert x[..|x|] == x;
  }

  function Evens<T>(x: seq<T>): (y: seq<T>)
  {
    seq(|x| / 2, t requires 0 <= t < |x| / 2 => x[2 * t])
  }

  function Odds<T>(x: seq<T>): (y: seq<T>)
  {
    seq(|x| / 2, t requires 0 <= t < |x| / 2 => x[2 * t + 1])
  }

  /** A polynomial from its even and odd coefficients. */
  lemma {:induction false} HornerSplit(x: seq<Cx>, z: Cx)
    requires |x| % 2 == 0
    ensures Horner(x, z) == CAdd(Horner(Evens(x), CMul(z, z)), CMul(z, Horner(Odds(x), CMul(z, z))))
  {
    hide CMul, CAdd;
    if x == [] {
      CMulOne(z);
      CAddLaws(ZERO, ZERO, ZERO);
    } else {
      HornerSplit(x[2..], z);
      assert x[1..][1..] == x[2..];
      assert Evens(x)[1..] == Evens(x[2..]);
      assert Odds(x)[1..] == Odds(x[2..]);
      var zz := CMul(z, z);
      SplitAlgebra(x[0], x[1], z, Horner(Evens(x[2..]), zz), Horner(Odds(x[2..]), zz));
    }
  }

  lemma SplitAlgebra(a: Cx, b: Cx, z: Cx, e: Cx, o: Cx)
    ensures CAdd(a, CMul(z, CAdd(b, CMul(z, CAdd(e, CMul(z, o))))))
            == CAdd(CAdd(a, CMul(CMul(z, z), e)), CMul(z, CAdd(b, CMul(CMul(z, z), o))))
  {
    hide CMul, CAdd;
    var r := CAdd(e, CMul(z, o));
    var zz := CMul(z, z);
    CMulDistributes(z, b, CMul(z, r));
    CMulDistributes(z, e, CMul(z, o));
    CMulDistributes(z, CMul(z, e), CMul(z, CMul(z, o)));
    CMulAssoc(z, z, e);
    CMulAssoc(z, z, o);
    CMulDistributes(z, b, CMul(zz, o));
    var zb, ze, zzo := CMul(z, b), CMul(zz, e), CMul(z, CMul(zz, o));
    CAddLaws(zb, ze, zzo);
    CAddLaws(ze, zb, zzo);
    CAddLaws(a, ze, CAdd(zb, zzo));
  }

  // ---- what a block holds

  /** The subsequence that block b of length |x| / 2^d transforms. */
  function Decimated<T>(x: seq<T>, b: nat, d: nat): (y: seq<T>)
  {
    if d == 0 then x
    else if b % 2 == 0 then Evens(Decimated(x, b / 2, d - 1))
    else Odds(Decimated(x, b / 2, d - 1))
  }

  lemma {:induction false} DecimatedLength<T>(x: seq<T>, k: nat, b: nat, d: nat)
    requires |x| == Pow2(k) && d <= k
    ensures |Decimated(x, b, d)| == Pow2(k - d)
  {
    if d == 0 {
    } else {
      DecimatedLength(x, k, b / 2, d - 1);
    }
  }

  lemma StrideIndex(t: nat, p: nat)
    ensures (2 * t) * p == t * (2 * p) && (2 * t + 1) * p == t * (2 * p) + p
  {
  }

  lemma StrideInRange(r: nat, t: nat, p: nat, q: nat)
    requires r < p && t < q
    ensures r + t * p < q * p
  {
    MulNonneg(q - 1 - t, p);
    MulSub(p, q, 1);
    MulSub(p, q - 1, t);
  }

  /** It consists of the elements whose index ends in the reversed bits of b. */
  lemma {:induction false} DecimatedAt<T>(x: seq<T>, k: nat, b: nat, d: nat, t: nat)
    requires |x| == Pow2(k) && d <= k && t < Pow2(k - d)
    ensures BitRev(b, d) + t * Pow2(d) < |x|
    ensures |Decimated(x, b, d)| == Pow2(k - d)
    ensures Decimated(x, b, d)[t] == x[BitRev(b, d) + t * Pow2(d)]
  {
    hide Pow2, BitRev, Decimated;
    Pow2Add(k - d, d);
    StrideInRange(BitRev(b, d), t, Pow2(d), Pow2(k - d));
    if d == 0 {
      DecimatedBase(x, b, t);
    } else {
      var t' := DecimatedStep(x, k, b, d, t);
      DecimatedAt(x, k, b / 2, d - 1, t');
      SameIndex(b, d, t, t');
    }
  }

  lemma DecimatedBase<T>(x: seq<T>, b: nat, t: nat)
    ensures Decimated(x, b, 0) == x && BitRev(b, 0) + t * Pow2(0) == t
  {
  }

  lemma DecimatedStep<T>(x: seq<T>, k: nat, b: nat, d: nat, t: nat) returns (t': nat)
    requires |x| == Pow2(k) && 0 < d <= k && t < Pow2(k - d)
    ensures t' == (if b % 2 == 0 then 2 * t else 2 * t + 1) && t' < Pow2(k - (d - 1))
    ensures |Decimated(x, b, d)| == Pow2(k - d) && |Decimated(x, b / 2, d - 1)| == Pow2(k - (d - 1))
    ensures Decimated(x, b, d)[t] == Decimated(x, b / 2, d - 1)[t']
  {
    DecimatedLength(x, k, b, d);
    DecimatedLength(x, k, b / 2, d - 1);
    t' := if b % 2 == 0 then 2 * t else 2 * t + 1;
    assert Pow2(k - (d - 1)) == 2 * Pow2(k - d);
  }

  lemma SameIndex(b: nat, d: nat, t: nat, t': nat)
    requires d > 0 && t' == (if b % 2 == 0 then 2 * t else 2 * t + 1)
    ensures BitRev(b / 2, d - 1) + t' * Pow2(d - 1) == BitRev(b, d) + t * Pow2(d)
  {
    var p := Pow2(d - 1);
    assert Pow2(d) == 2 * p;
    assert BitRev(b, d) == (if b % 2 == 1 then p else 0) + BitRev(b / 2, d - 1);
    StrideIndex(t, p);
  }

  /** The root of unity of the blocks of length 2^s. */
  function BlockRoot(w: Cx, log2N: nat, s: nat): Cx
    requires s <= log2N
  {
    CPow(w, Pow2(log2N - s))
  }

  ghost predicate HoldsAt(v: Cx, x: seq<Cx>, w: Cx, log2N: nat, k: nat, s: nat, b: nat, f: nat)
    requires s <= k <= log2N
  {
    CScale(Pow2(s) as real, v) == Horner(Decimated(x, b, k - s), CPow(BlockRoot(w, log2N, s), f))
  }

  /** Position i of y holds 1/2^s times its block's transform at its offset. */
  ghost predicate HoldsTransform(y: seq<Cx>, x: seq<Cx>, w: Cx, log2N: nat, k: nat, s: nat, i: nat)
    requires s <= k <= log2N && i < |y|
  {
    HoldsAt(y[i], x, w, log2N, k, s, Quotient(i, Pow2(s)), Remainder(i, Pow2(s)))
  }

  lemma ReorderedHolds(x: seq<Cx>, w: Cx, log2N: nat, k: nat, i: nat)
    requires k <= log2N && |x| == Pow2(k) && i < |x|
    ensures HoldsTransform(Reordered(x, k), x, w, log2N, k, 0, i)
  {
    DecimatedAt(x, k, i, k, 0);
    var d := Decimated(x, i, k);
    assert d == [x[BitRev(i, k)]];
    assert d[1..] == [];
    assert i / 1 == i && i % 1 == 0;
    var z := CPow(BlockRoot(w, log2N, 0), 0);
    CMulOne(z);
    CAddLaws(d[0], ZERO, ZERO);
  }

  // ---- one butterfly

  lemma TwiddleIsHalfEntry(table: seq<real>, log2N: nat, s: nat, m: nat)
    requires TableSize(table, log2N) && s < log2N && m < Pow2(s)
    ensures TwiddleIndex(log2N, s, m) < Pow2(log2N - 1)
    ensures CScale(2.0, Twiddle(ExactArith(), table, log2N, s, m)) ==
            TableEntry(table, log2N, TwiddleIndex(log2N, s, m))
  {
    hide TableSize, TwiddleIndex;
    TwiddleInRange(log2N, s, m);
    var v := Twiddle(ExactArith(), table, log2N, s, m);
    var e := TableEntry(table, log2N, TwiddleIndex(log2N, s, m));
    assert v.0 == e.0 / 2.0;
    assert v.1 == e.1 / 2.0;
  }

  lemma TwiddleIsHalfRoot(table: seq<real>, log2N: nat, w: Cx, s: nat, m: nat)
    requires RootTable(table, log2N, w) && s < log2N && m < Pow2(s)
    ensures CScale(2.0, Twiddle(ExactArith(), table, log2N, s, m)) == CPow(BlockRoot(w, log2N, s + 1), m)
  {
    TableOfRoots(table, log2N, w);
    hide CMul, Twiddle, CScale, TableEntry, RootTable, Pow2, CPow, TableSize;
    TwiddleIsHalfEntry(table, log2N, s, m);
    RootTableEntry(table, log2N, w, TwiddleIndex(log2N, s, m));
    CPowMul(w, Pow2(log2N - 1 - s), m);
    MulComm(Pow2(log2N - 1 - s), m);
  }

  lemma RootTableEntry(table: seq<real>, log2N: nat, w: Cx, j: nat)
    requires RootTable(table, log2N, w) && j < Pow2(log2N - 1)
    ensures TableEntry(table, log2N, j) == CPow(w, j)
  {
  }

  lemma RootSquared(w: Cx, log2N: nat, s: nat, f: nat)
    requires s < log2N
    ensures var u := CPow(BlockRoot(w, log2N, s + 1), f);
            CPow(BlockRoot(w, log2N, s), f) == CMul(u, u)
  {
    hide CMul;
    var p := Pow2(log2N - s - 1);
    CPowMul(w, p, f);
    CPowMul(w, 2 * p, f);
    CPowAdd(w, p * f, p * f);
    assert (2 * p) * f == p * f + p * f;
  }

  lemma RootHalfTurn(w: Cx, log2N: nat, s: nat, f: nat)
    requires s < log2N && CPow(w, Pow2(log2N - 1)) == MINUS_ONE
    ensures var r := BlockRoot(w, log2N, s + 1);
            CPow(r, f + Pow2(s)) == CMul(MINUS_ONE, CPow(r, f))
  {
    hide CMul;
    var r := BlockRoot(w, log2N, s + 1);
    CPowAdd(r, f, Pow2(s));
    CPowMul(w, Pow2(log2N - s - 1), Pow2(s));
    Pow2Add(log2N - s - 1, s);
    CMulComm(CPow(r, f), CPow(r, Pow2(s)));
  }

  lemma UpperExact(w: Cx, q: Cx, p: Cx, c: real)
    ensures CScale(2.0 * c, Upper(ExactArith(), w, q, p)) == CAdd(CScale(c, q), CMul(CScale(2.0, w), CScale(c, p)))
  {
    hide CMul;
    var t := Product(ExactArith(), w, p);
    var v := Upper(ExactArith(), w, q, p);
    assert v.0 == q.0 / 2.0 + t.0;
    assert v.1 == q.1 / 2.0 + t.1;
    ProductExact(w, p, c);
    SumScaled(c, q.0, t.0);
    SumScaled(c, q.1, t.1);
    var m := CMul(CScale(2.0, w), CScale(c, p));
    assert CScale(2.0 * c, v).0 == CAdd(CScale(c, q), m).0;
    assert CScale(2.0 * c, v).1 == CAdd(CScale(c, q), m).1;
  }

  lemma LowerExact(w: Cx, q: Cx, p: Cx, c: real)
    ensures CScale(2.0 * c, Lower(ExactArith(), w, q, p)) == CSub(CScale(c, q), CMul(CScale(2.0, w), CScale(c, p)))
  {
    hide CMul;
    var t := Product(ExactArith(), w, p);
    var v := Lower(ExactArith(), w, q, p);
    assert v.0 == q.0 / 2.0 - t.0;
    assert v.1 == q.1 / 2.0 - t.1;
    ProductExact(w, p, c);
    SumScaled(c, q.0, t.0);
    SumScaled(c, q.1, t.1);
    var m := CMul(CScale(2.0, w), CScale(c, p));
    assert CScale(2.0 * c, v).0 == CSub(CScale(c, q), m).0;
    assert CScale(2.0 * c, v).1 == CSub(CScale(c, q), m).1;
  }

  lemma SumScaled(c: real, q: real, t: real)
    ensures (2.0 * c) * (q / 2.0 + t) == c * q + (2.0 * c) * t
    ensures (2.0 * c) * (q / 2.0 - t) == c * q - (2.0 * c) * t
  {
    RDist(2.0 * c, q / 2.0, t);
    RAssoc(2.0, c, q / 2.0);
  }

  lemma ProductScaled(c: real, a: real, b: real, a': real, b': real)
    ensures (2.0 * c) * (a * b - a' * b') == (2.0 * a) * (c * b) - (2.0 * a') * (c * b')
    ensures (2.0 * c) * (a * b + a' * b') == (2.0 * a) * (c * b) + (2.0 * a') * (c * b')
  {
    RDist(2.0 * c, a * b, a' * b');
    RAssoc(2.0, c, a * b); RAssoc(c, a, b); RAssoc(a, c, b); RAssoc(2.0, a, c * b);
    RAssoc(2.0, c, a' * b'); RAssoc(c, a', b'); RAssoc(a', c, b'); RAssoc(2.0, a', c * b');
  }

  lemma ProductExact(w: Cx, p: Cx, c: real)
    ensures CScale(2.0 * c, Product(ExactArith(), w, p)) == CMul(CScale(2.0, w), CScale(c, p))
  {
    var t, m := Product(ExactArith(), w, p), CMul(CScale(2.0, w), CScale(c, p));
    assert t.0 == w.0 * p.0 - w.1 * p.1;
    assert t.1 == w.0 * p.1 + w.1 * p.0;
    ProductScaled(c, w.0, p.0, w.1, p.1);
    ProductScaled(c, w.0, p.1, w.1, p.0);
    assert CScale(2.0 * c, t).0 == m.0;
    assert CScale(2.0 * c, t).1 == m.1;
  }

  lemma Negated(u: Cx)
    ensures CMul(MINUS_ONE, u) == (-u.0, -u.1)
  {
  }

  lemma NegatedProduct(u: Cx, o: Cx)
    ensures CMul((-u.0, -u.1), o) == (-CMul(u, o).0, -CMul(u, o).1)
  {
    var m := CMul((-u.0, -u.1), o);
    assert m.0 == -CMul(u, o).0;
    assert m.1 == -CMul(u, o).1;
  }

  lemma Negation(a: Cx, u: Cx, o: Cx)
    ensures CSub(a, CMul(u, o)) == CAdd(a, CMul(CMul(MINUS_ONE, u), o))
    ensures CMul(CMul(MINUS_ONE, u), CMul(MINUS_ONE, u)) == CMul(u, u)
  {
    Negated(u);
    NegatedProduct(u, o);
    NegatedProduct(u, (-u.0, -u.1));
    CMulComm(u, (-u.0, -u.1));
    NegatedProduct(u, u);
  }

  // ---- one stage

  lemma ButterflyAlgebra(t: Cx, u: Cx, q: Cx, p: Cx, c: real)
    requires CScale(2.0, t) == u
    ensures CScale(2.0 * c, Upper(ExactArith(), t, q, p)) == CAdd(CScale(c, q), CMul(u, CScale(c, p)))
    ensures CScale(2.0 * c, Lower(ExactArith(), t, q, p)) == CAdd(CScale(c, q), CMul(CMul(MINUS_ONE, u), CScale(c, p)))
  {
    hide CMul, CAdd, CSub, CScale, Upper, Lower;
    UpperExact(t, q, p, c);
    LowerExact(t, q, p, c);
    Negation(CScale(c, q), u, CScale(c, p));
  }

  /** A block's transform at offset f and half a block later, from its even and odd half-blocks. */
  lemma BlockFromHalves(log2N: nat, w: Cx, k: nat, s: nat, x: seq<Cx>, b: nat, f: nat)
    requires s < k <= log2N && |x| == Pow2(k) && CPow(w, Pow2(log2N - 1)) == MINUS_ONE
    ensures var r, d := BlockRoot(w, log2N, s + 1), Decimated(x, b, k - s - 1);
            var u, z := CPow(r, f), CPow(BlockRoot(w, log2N, s), f);
            var e, o := Horner(Decimated(x, 2 * b, k - s), z), Horner(Decimated(x, 2 * b + 1, k - s), z);
            && Horner(d, u) == CAdd(e, CMul(u, o))
            && Horner(d, CPow(r, f + Pow2(s))) == CAdd(e, CMul(CMul(MINUS_ONE, u), o))
  {
    hide CMul, CAdd, BlockRoot, Horner, CPow;
    var d := Decimated(x, b, k - s - 1);
    var u := CPow(BlockRoot(w, log2N, s + 1), f);
    assert Decimated(x, 2 * b, k - s) == Evens(d) && Decimated(x, 2 * b + 1, k - s) == Odds(d);
    DecimatedLength(x, k, b, k - s - 1);
    RootSquared(w, log2N, s, f);
    RootHalfTurn(w, log2N, s, f);
    HornerSplit(d, u);
    HornerSplit(d, CMul(MINUS_ONE, u));
    Negation(ZERO, u, ZERO);
  }

  /** The two halves of a block of length 2l, computed from its even and its odd half-blocks. */
  lemma ButterflyHolds(table: seq<real>, log2N: nat, w: Cx, k: nat, s: nat, x: seq<Cx>, b: nat, f: nat, q: Cx, p: Cx)
    requires RootTable(table, log2N, w) && s < k <= log2N && f < Pow2(s) && |x| == Pow2(k)
    requires HoldsAt(q, x, w, log2N, k, s, 2 * b, f)
    requires HoldsAt(p, x, w, log2N, k, s, 2 * b + 1, f)
    ensures var t := Twiddle(ExactArith(), table, log2N, s, f);
            && HoldsAt(Upper(ExactArith(), t, q, p), x, w, log2N, k, s + 1, b, f)
            && HoldsAt(Lower(ExactArith(), t, q, p), x, w, log2N, k, s + 1, b, f + Pow2(s))
  {
    hide CMul, CAdd, CScale, Twiddle, Upper, Lower, RootTable, BlockRoot, Horner, CPow, Decimated;
    TableOfRoots(table, log2N, w);
    RootTableHalfTurn(table, log2N, w);
    TwiddleIsHalfRoot(table, log2N, w, s, f);
    BlockFromHalves(log2N, w, k, s, x, b, f);
    ButterflyAlgebra(Twiddle(ExactArith(), table, log2N, s, f), CPow(BlockRoot(w, log2N, s + 1), f), q, p,
                     Pow2(s) as real);
  }

  lemma RootTableHalfTurn(table: seq<real>, log2N: nat, w: Cx)
    requires RootTable(table, log2N, w)
    ensures CPow(w, Pow2(log2N - 1)) == MINUS_ONE
  {
  }

  lemma HalvesOfBlock(i: nat, l: nat)
    requires l > 0
    ensures var b, f := Quotient(i, 2 * l), Remainder(i, l);
            && f < l && Remainder(i, 2 * l) == (if Quotient(i, l) % 2 == 0 then f else f + l)
            && Quotient(i, l) == (if Quotient(i, l) % 2 == 0 then 2 * b else 2 * b + 1)
  {
    var q, f := i / l, i % l;
    DivModDef(i, l);
    MulAdd(l, 2 * (q / 2), q % 2);
    assert i == (q / 2) * (2 * l) + (if q % 2 == 0 then f else f + l) by {
      assert (2 * (q / 2)) * l == (q / 2) * (2 * l);
    }
    DivModUnique(i, 2 * l, q / 2, if q % 2 == 0 then f else f + l);
  }

  lemma PartnerBlock(i: nat, l: nat)
    requires l > 0
    ensures Quotient(i + l, l) == Quotient(i, l) + 1 && Remainder(i + l, l) == Remainder(i, l)
  {
    DivModDef(i, l);
    MulAdd(l, i / l, 1);
    DivModUnique(i + l, l, i / l + 1, i % l);
  }

  lemma StageHolds(table: seq<real>, log2N: nat, w: Cx, k: nat, s: nat, x: seq<Cx>, y: seq<Cx>, i: nat)
    requires RootTable(table, log2N, w) && s < k <= log2N && |x| == |y| == Pow2(k) && i < |x|
    requires forall i' :: 0 <= i' < |y| ==> HoldsTransform(y, x, w, log2N, k, s, i')
    ensures HoldsTransform(Stage(ExactArith(), table, log2N, k, s, y), x, w, log2N, k, s + 1, i)
  {
    hide HoldsAt, Twiddle, Upper, Lower, RootTable, ExactArith;
    var l := Pow2(s);
    TableOfRoots(table, log2N, w);
    PartnerInRange(k, s, i);
    HalvesOfBlock(i, l);
    var b, f := Quotient(i, 2 * l), Remainder(i, l);
    assert HoldsTransform(y, x, w, log2N, k, s, i);
    if Quotient(i, l) % 2 == 0 {
      PartnerBlock(i, l);
      assert HoldsTransform(y, x, w, log2N, k, s, i + l);
      ButterflyHolds(table, log2N, w, k, s, x, b, f, y[i], y[i + l]);
    } else {
      PartnerBlock(i - l, l);
      assert HoldsTransform(y, x, w, log2N, k, s, i - l);
      ButterflyHolds(table, log2N, w, k, s, x, b, f, y[i - l], y[i]);
    }
  }

  lemma TableOfRoots(table: seq<real>, log2N: nat, w: Cx)
    requires RootTable(table, log2N, w)
    ensures TableSize(table, log2N)
  {
  }

  /** After s stages every block of length 2^s holds the transform of its bit-reversed subsequence. */
  lemma {:induction false} StagesHold(table: seq<real>, log2N: nat, w: Cx, k: nat, s: nat, x: seq<Cx>)
    requires RootTable(table, log2N, w) && s <= k <= log2N && |x| == Pow2(k)
    ensures forall i :: 0 <= i < |x| ==>
              HoldsTransform(Stages(ExactArith(), table, log2N, k, s, x), x, w, log2N, k, s, i)
  {
    hide HoldsAt, HoldsTransform, ExactArith, Stage;
    var z := Stages(ExactArith(), table, log2N, k, s, x);
    if s == 0 {
      forall i | 0 <= i < |x|
        ensures HoldsTransform(z, x, w, log2N, k, s, i)
      {
        ReorderedHolds(x, w, log2N, k, i);
      }
    } else {
      var y := Stages(ExactArith(), table, log2N, k, s - 1, x);
      StagesHold(table, log2N, w, k, s - 1, x);
      forall i | 0 <= i < |x|
        ensures HoldsTransform(z, x, w, log2N, k, s, i)
      {
        StageHolds(table, log2N, w, k, s - 1, x, y, i);
      }
    }
  }

  /** fix_fft leaves the discrete Fourier transform of its input divided by its length. */
  lemma FftIsDft(table: seq<real>, log2N: nat, w: Cx, k: nat, x: seq<Cx>, f: nat)
    requires RootTable(table, log2N, w) && k <= log2N && |x| == Pow2(k) && f < |x|
    ensures Fft(ExactArith(), table, log2N, k, x)[f]
            == CScale(1.0 / Pow2(k) as real, Dft(x, CPow(w, Pow2(log2N - k)), f))
  {
    StagesHold(table, log2N, w, k, k, x);
    var y := Fft(ExactArith(), table, log2N, k, x)[f];
    assert HoldsTransform(Fft(ExactArith(), table, log2N, k, x), x, w, log2N, k, k, f);
    DivModUnique(f, Pow2(k), 0, f);
    DftIsHorner(x, CPow(w, Pow2(log2N - k)), f);
    Unscaled(Pow2(k) as real, y);
  }

  lemma Unscaled(c: real, v: Cx)
    requires c != 0.0
    ensures CScale(1.0 / c, CScale(c, v)) == v
  {
    RAssoc(1.0 / c, c, v.0);
    RAssoc(1.0 / c, c, v.1);
    assert (1.0 / c) * c == 1.0;
    assert CScale(1.0 / c, CScale(c, v)).0 == v.0;
    assert CScale(1.0 / c, CScale(c, v)).1 == v.1;
  }

  /** Such tables exist: the one of N_WAVE = 4, with w = -i. */
  lemma QuarterTable()
    ensures RootTable([0.0, 1.0, 0.0], 2, (0.0, -1.0))
  {
    var w: Cx := (0.0, -1.0);
    CMulOne(w);
    assert CPow(w, 0) == ONE && CPow(w, 1) == CMul(w, ONE) && CPow(w, 2) == CMul(w, CPow(w, 1));
    assert CMul(w, w) == MINUS_ONE;
    hide CPow, CMul;
    var table := [0.0, 1.0, 0.0];
    assert TableEntry(table, 2, 0) == (1.0, 0.0) && TableEntry(table, 2, 1) == (0.0, -1.0);
  }

  /** None has N_WAVE = 2: its only entry would have to be a sine of 0 and a cosine of 0. */
  lemma NoSmallestRootTable(table: seq<real>, w: Cx)
    ensures !RootTable(table, 1, w)
  {
    assert CPow(w, 0) == ONE && Pow2(0) == 1;
    if TableSize(table, 1) { assert TableEntry(table, 1, 0) == (table[0], -table[0]); }
  }

  /**
   The smallest table, N_WAVE = 2, has one entry, a sine of 0: N_WAVE/4 truncates to 0, so
   the same entry is also read as the cosine of 0. Both results are then half of the first
   input, and they are the transform exactly when the second input is zero.
   */
  lemma SmallestTable(x: seq<Cx>)
    requires |x| == 2
    ensures TableSize([0.0], 1)
    ensures Fft(ExactArith(), [0.0], 1, 1, x) == [CScale(0.5, x[0]), CScale(0.5, x[0])]
    ensures (forall f | 0 <= f < 2 :: Fft(ExactArith(), [0.0], 1, 1, x)[f] == CScale(0.5, Dft(x, MINUS_ONE, f)))
            <==> x[1] == ZERO
  {
    hide Dft, Stage, CAdd, CSub, CScale;
    SmallestStage(x);
    var ar := ExactArith();
    assert Stages(ar, [0.0], 1, 1, 0, x) == Reordered(x, 1);
    ShortDft(x);
    HalfOfSum(x[0], x[1]);
  }

  lemma HalfOfSum(a: Cx, b: Cx)
    ensures CScale(0.5, a) == CScale(0.5, CAdd(a, b)) && CScale(0.5, a) == CScale(0.5, CSub(a, b)) <==> b == ZERO
  {
    if b == ZERO {
      assert CAdd(a, b).0 == a.0 && CAdd(a, b).1 == a.1;
      assert CSub(a, b).0 == a.0 && CSub(a, b).1 == a.1;
    } else {
      assert CScale(0.5, CAdd(a, b)).0 == 0.5 * (a.0 + b.0);
      assert CScale(0.5, CAdd(a, b)).1 == 0.5 * (a.1 + b.1);
    }
  }

  lemma SmallestStage(x: seq<Cx>)
    requires |x| == 2
    ensures Stage(ExactArith(), [0.0], 1, 1, 0, Reordered(x, 1)) == [CScale(0.5, x[0]), CScale(0.5, x[0])]
  {
    hide Upper, Lower, Twiddle;
    var ar, y := ExactArith(), Reordered(x, 1);
    assert BitRev(0, 1) == 0 && BitRev(1, 1) == 1;
    assert y == x;
    ZeroTwiddle(x[0], x[1]);
    assert StageAt(ar, [0.0], 1, 1, 0, y, 0) == Upper(ar, Twiddle(ar, [0.0], 1, 0, 0), x[0], x[1]);
    assert StageAt(ar, [0.0], 1, 1, 0, y, 1) == Lower(ar, Twiddle(ar, [0.0], 1, 0, 0), x[0], x[1]);
  }

  lemma ZeroTwiddle(q: Cx, p: Cx)
    ensures var t := Twiddle(ExactArith(), [0.0], 1, 0, 0);
            && Upper(ExactArith(), t, q, p) == CScale(0.5, q)
            && Lower(ExactArith(), t, q, p) == CScale(0.5, q)
  {
    hide Twiddle;
    var t := Twiddle(ExactArith(), [0.0], 1, 0, 0);
    TwiddleIsHalfEntry([0.0], 1, 0, 0);
    assert 2.0 * t.0 == 0.0 && 2.0 * t.1 == 0.0;
    ZeroProduct(t, p);
    var u, l := Upper(ExactArith(), t, q, p), Lower(ExactArith(), t, q, p);
    assert u.0 == q.0 / 2.0 == l.0;
    assert u.1 == q.1 / 2.0 == l.1;
  }

  lemma ZeroProduct(t: Cx, p: Cx)
    requires t.0 == 0.0 && t.1 == 0.0
    ensures Product(ExactArith(), t, p) == ZERO
  {
    var m := Product(ExactArith(), t, p);
    assert m.0 == t.0 * p.0 - t.1 * p.1;
    assert m.1 == t.0 * p.1 + t.1 * p.0;
  }

  lemma ShortDft(x: seq<Cx>)
    requires |x| == 2
    ensures Dft(x, MINUS_ONE, 0) == CAdd(x[0], x[1])
    ensures Dft(x, MINUS_ONE, 1) == CSub(x[0], x[1])
  {
    hide CMul, CAdd;
    var p0, p1 := CPow(MINUS_ONE, 0), CPow(MINUS_ONE, 1);
    forall f: nat | f < 2
      ensures Dft(x, MINUS_ONE, f) == CAdd(x[0], CMul(x[1], CPow(MINUS_ONE, f)))
    {
      assert DftSum(x, MINUS_ONE, f, 1) == CAdd(DftSum(x, MINUS_ONE, f, 0), CMul(x[0], CPow(MINUS_ONE, 0)));
      CMulOne(x[0]);
      CAddLaws(x[0], ZERO, ZERO);
    }
    CMulOne(x[1]);
    CMulOne(MINUS_ONE);
    Negation(x[0], ONE, x[1]);
    CMulComm(x[1], MINUS_ONE);
  }
}
