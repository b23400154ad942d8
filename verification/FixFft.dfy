/**
 The in-place FFT of src/rtl_power.c. The loops are those of `fix_fft`; the arithmetic they
 use is a parameter, so that the same loops can be read with the 16-bit fixed-point
 operations of the program (FftRange.dfy) or with exact arithmetic (FftMeaning.dfy).
 */
module FixFft {
  import opened Pow2s
  import opened BitReversal

  /** The operations the butterflies use on one component of an I/Q pair. */
  datatype Arith<!T> = Arith(
    add: (T, T) -> T, sub: (T, T) -> T, neg: T -> T, half: T -> T, mpy: (T, T) -> T)

  /** The complex values held by the interleaved array from position `off`. */
  function Pairs<T>(s: seq<T>, off: nat, n: nat): (z: seq<(T, T)>)
    requires off + 2 * n <= |s|
    ensures |z| == n
  {
    seq(n, i requires 0 <= i < n => (s[off + 2 * i], s[off + 2 * i + 1]))
  }

  /** s and t agree outside the 2n positions from `off`. */
  ghost predicate SameOutside<T>(s: seq<T>, t: seq<T>, off: nat, n: nat) {
    |s| == |t| && forall p :: 0 <= p < |s| && !(off <= p < off + 2 * n) ==> s[p] == t[p]
  }

  /** The table of `sine_table` has three quarters of a period. */
  ghost predicate TableSize<T>(table: seq<T>, log2N: nat) {
    |table| == Pow2(log2N) * 3 / 4
  }

  /** Position of a twiddle factor: offset m of a block of half-length 2^s. */
  function TwiddleIndex(log2N: nat, s: nat, m: nat): nat
    requires s < log2N
  {
    m * Pow2(log2N - 1 - s)
  }

  lemma TwiddleInRange(log2N: nat, s: nat, m: nat)
    requires s < log2N && m < Pow2(s)
    ensures TwiddleIndex(log2N, s, m) < Pow2(log2N - 1)
    ensures TwiddleIndex(log2N, s, m) + Pow2(log2N) / 4 < Pow2(log2N) * 3 / 4
  {
    var a := Pow2(log2N - 1 - s);
    Pow2Add(s, log2N - 1 - s);
    MulNonneg(Pow2(s) - 1 - m, a);
    MulAdd(a, m, Pow2(s) - 1 - m);
    MulSub(a, Pow2(s), 1);
    assert m * a <= Pow2(log2N - 1) - a;
    if log2N >= 2 { assert Pow2(log2N) == 4 * Pow2(log2N - 2); }
  }

  /** wr >>= 1 and wi >>= 1 of the table entries Sinewave[j+N_WAVE/4] and -Sinewave[j]. */
  function Twiddle<T>(ar: Arith<T>, table: seq<T>, log2N: nat, s: nat, m: nat): (T, T)
    requires TableSize(table, log2N) && s < log2N && m < Pow2(s)
  {
    TwiddleInRange(log2N, s, m);
    var j := TwiddleIndex(log2N, s, m);
    (ar.half(table[j + Pow2(log2N) / 4]), ar.half(ar.neg(table[j])))
  }

  function Product<T>(ar: Arith<T>, w: (T, T), p: (T, T)): (T, T) {
    (ar.sub(ar.mpy(w.0, p.0), ar.mpy(w.1, p.1)), ar.add(ar.mpy(w.0, p.1), ar.mpy(w.1, p.0)))
  }

  /** What a butterfly leaves at its upper position i and at its lower position i+l. */
  function Upper<T>(ar: Arith<T>, w: (T, T), q: (T, T), p: (T, T)): (T, T) {
    var t := Product(ar, w, p);
    (ar.add(ar.half(q.0), t.0), ar.add(ar.half(q.1), t.1))
  }

  function Lower<T>(ar: Arith<T>, w: (T, T), q: (T, T), p: (T, T)): (T, T) {
    var t := Product(ar, w, p);
    (ar.sub(ar.half(q.0), t.0), ar.sub(ar.half(q.1), t.1))
  }

  lemma PartnerInRange(k: nat, s: nat, i: nat)
    requires s < k && i < Pow2(k)
    ensures i % Pow2(s) < Pow2(s)
    ensures (i / Pow2(s)) % 2 == 0 ==> i + Pow2(s) < Pow2(k)
    ensures (i / Pow2(s)) % 2 == 1 ==> i >= Pow2(s)
  {
    hide Pow2;
    Pow2Add(k - s, s);
    Pow2Even(k - s);
    IndexPartner(i, Pow2(s), Pow2(k - s));
  }

  lemma IndexPartner(i: nat, l: nat, blocks: nat)
    requires l > 0 && i < blocks * l && blocks % 2 == 0
    ensures i % l < l
    ensures (i / l) % 2 == 0 ==> i + l < blocks * l
    ensures (i / l) % 2 == 1 ==> i >= l
  {
    DivModDef(i, l);
    BlockPartner(i, l, i / l, i % l, blocks);
  }

  lemma BlockPartner(i: nat, l: nat, b: nat, r: nat, blocks: nat)
    requires r < l && i == b * l + r && i < blocks * l && blocks % 2 == 0
    ensures b % 2 == 0 ==> i + l < blocks * l
    ensures b % 2 == 1 ==> i >= l
  {
    BlockBelow(b, blocks, l, i);
    if b % 2 == 0 {
      NextBlockFits(b, blocks, l, i);
    } else {
      MulNonneg(b - 1, l);
      MulSub(l, b, 1);
    }
  }

  lemma NextBlockFits(b: nat, blocks: nat, l: nat, i: nat)
    requires b + 2 <= blocks && i < b * l + l
    ensures i + l < blocks * l
  {
    MulNonneg(blocks - 2 - b, l);
    MulSub(l, blocks - 2, b);
    MulSub(l, blocks, 2);
  }

  /** The value at index i after the butterfly stage with half-length 2^s. */
  function StageAt<T>(ar: Arith<T>, table: seq<T>, log2N: nat, k: nat, s: nat, x: seq<(T, T)>, i: nat): (T, T)
    requires TableSize(table, log2N) && s < k <= log2N && |x| == Pow2(k) && i < |x|
  {
    PartnerInRange(k, s, i);
    var l := Pow2(s);
    var w := Twiddle(ar, table, log2N, s, i % l);
    if (i / l) % 2 == 0 then Upper(ar, w, x[i], x[i + l]) else Lower(ar, w, x[i - l], x[i])
  }

  function Stage<T>(ar: Arith<T>, table: seq<T>, log2N: nat, k: nat, s: nat, x: seq<(T, T)>): (y: seq<(T, T)>)
    requires TableSize(table, log2N) && s < k <= log2N && |x| == Pow2(k)
    ensures |y| == |x|
  {
    seq(|x|, i requires 0 <= i < |x| => StageAt(ar, table, log2N, k, s, x, i))
  }

  /** The first `stages` butterfly stages on bit-reversed data. */
  function Stages<T>(ar: Arith<T>, table: seq<T>, log2N: nat, k: nat, stages: nat, x: seq<(T, T)>): (y: seq<(T, T)>)
    requires TableSize(table, log2N) && stages <= k <= log2N && |x| == Pow2(k)
    ensures |y| == |x|
  {
    if stages == 0 then Reordered(x, k)
    else Stage(ar, table, log2N, k, stages - 1, Stages(ar, table, log2N, k, stages - 1, x))
  }

  function Fft<T>(ar: Arith<T>, table: seq<T>, log2N: nat, k: nat, x: seq<(T, T)>): (y: seq<(T, T)>)
    requires TableSize(table, log2N) && k <= log2N && |x| == Pow2(k)
    ensures |y| == |x|
  {
    Stages(ar, table, log2N, k, k, x)
  }

  /** Exchanges the complex values m and mr. */
  method SwapPairs<T>(iq: array<T>, off: nat, n: nat, m: nat, mr: nat)
    requires off + 2 * n <= iq.Length && m < mr < n
    modifies iq
    ensures var z := old(Pairs(iq[..], off, n)); Pairs(iq[..], off, n) == z[m := z[mr]][mr := z[m]]
    ensures SameOutside(old(iq[..]), iq[..], off, n)
  {
    var tr := iq[off + 2 * m];
    iq[off + 2 * m] := iq[off + 2 * mr];
    iq[off + 2 * mr] := tr;
    var ti := iq[off + 2 * m + 1];
    iq[off + 2 * m + 1] := iq[off + 2 * mr + 1];
    iq[off + 2 * mr + 1] := ti;
  }

  lemma HalfPow2(j: nat)
    ensures if j == 0 then Pow2(j) == 1 else Pow2(j) / 2 == Pow2(j - 1)
  {
  }

  /** The reversed carry: the next value of mr, by the halving loop. */
  method NextReversed(k: nat, m: nat, mr: nat) returns (next: nat)
    requires 1 <= m < Pow2(k) && mr == BitRev(m - 1, k)
    ensures next == BitRev(m, k)
  {
    var nn := Pow2(k) - 1;
    if mr == nn {
      BitRevOnes(k);
      BitRevInjective(m - 1, nn, k);
      assert false;
    }
    ghost var j := k - 1;
    var l := Pow2(k);
    HalfPow2(k);
    hide Pow2, BitRev;
    l := l / 2;
    while mr + l > nn
      invariant 0 <= j < k && l == Pow2(j)
      invariant j + 1 < k ==> mr + Pow2(j + 1) >= Pow2(k)
      decreases l
    {
      HalfPow2(j);
      l := l / 2;
      j := j - 1;
    }
    ReversedIncrement(m - 1, k, j);
    // l is a power of two, so masking with l-1 is the remainder modulo l
    next := mr % l + l;
  }

  /** Values below m or with a partner below m have been put in their bit-reversed places. */
  function PartlyReordered<T>(x: seq<(T, T)>, k: nat, m: nat): (y: seq<(T, T)>)
    requires |x| == Pow2(k)
    ensures |y| == |x|
  {
    seq(|x|, i requires 0 <= i < |x| => if i < m || BitRev(i, k) < m then x[BitRev(i, k)] else x[i])
  }

  lemma PartlyReorderedStep<T>(x: seq<(T, T)>, k: nat, m: nat)
    requires |x| == Pow2(k) && m < Pow2(k)
    ensures var mr := BitRev(m, k); var y := PartlyReordered(x, k, m);
            PartlyReordered(x, k, m + 1) == if mr <= m then y else y[m := y[mr]][mr := y[m]]
  {
    var mr := BitRev(m, k);
    BitRevInvolution(m, k);
    var y, z := PartlyReordered(x, k, m), PartlyReordered(x, k, m + 1);
    forall i | 0 <= i < |x|
      ensures z[i] == (if mr <= m then y else y[m := y[mr]][mr := y[m]])[i]
    {
      BitRevInvolution(i, k);
    }
  }

  /** Decimation in time: the reorder loop. */
  method Reorder<T>(iq: array<T>, off: nat, k: nat)
    requires off + 2 * Pow2(k) <= iq.Length
    modifies iq
    ensures Pairs(iq[..], off, Pow2(k)) == Reordered(old(Pairs(iq[..], off, Pow2(k))), k)
    ensures SameOutside(old(iq[..]), iq[..], off, Pow2(k))
  {
    var n := Pow2(k);
    ghost var x := Pairs(iq[..], off, n);
    var mr := 0;
    BitRevZero(k);
    PartlyReorderedStep(x, k, 0);
    var m := 1;
    assert PartlyReordered(x, k, 0) == x;
    while m <= n - 1
      invariant 1 <= m <= n && mr == BitRev(m - 1, k)
      invariant Pairs(iq[..], off, n) == PartlyReordered(x, k, m)
      invariant SameOutside(old(iq[..]), iq[..], off, n)
    {
      mr := NextReversed(k, m, mr);
      PartlyReorderedStep(x, k, m);
      if mr > m {
        SwapPairs(iq, off, n, m, mr);
      }
      m := m + 1;
    }
    assert PartlyReordered(x, k, n) == Reordered(x, k);
  }

  lemma {:induction false} BitRevZero(k: nat)
    ensures BitRev(0, k) == 0
  {
    if k > 0 { BitRevZero(k - 1); }
  }

  /** One butterfly on positions i and i+l, with twiddle factor w already halved. */
  method Butterfly<T>(ar: Arith<T>, iq: array<T>, off: nat, n: nat, i: nat, l: nat, wr: T, wi: T)
    requires off + 2 * n <= iq.Length && 0 < l && i + l < n
    modifies iq
    ensures var x := old(Pairs(iq[..], off, n));
            Pairs(iq[..], off, n) ==
            x[i := Upper(ar, (wr, wi), x[i], x[i + l])][i + l := Lower(ar, (wr, wi), x[i], x[i + l])]
    ensures SameOutside(old(iq[..]), iq[..], off, n)
  {
    ghost var s, x := iq[..], Pairs(iq[..], off, n);
    PairAt(s, off, n, i);
    PairAt(s, off, n, i + l);
    var j := i + l;
    var tr := ar.sub(ar.mpy(wr, iq[off + 2 * j]), ar.mpy(wi, iq[off + 2 * j + 1]));
    var ti := ar.add(ar.mpy(wr, iq[off + 2 * j + 1]), ar.mpy(wi, iq[off + 2 * j]));
    var qr := ar.half(iq[off + 2 * i]);
    var qi := ar.half(iq[off + 2 * i + 1]);
    assert (tr, ti) == Product(ar, (wr, wi), x[j]);
    assert (ar.add(qr, tr), ar.add(qi, ti)) == Upper(ar, (wr, wi), x[i], x[j]);
    assert (ar.sub(qr, tr), ar.sub(qi, ti)) == Lower(ar, (wr, wi), x[i], x[j]);
    hide *;
    iq[off + 2 * j] := ar.sub(qr, tr);
    iq[off + 2 * j + 1] := ar.sub(qi, ti);
    iq[off + 2 * i] := ar.add(qr, tr);
    iq[off + 2 * i + 1] := ar.add(qi, ti);
    assert iq[..] == s[off + 2 * j := ar.sub(qr, tr)][off + 2 * j + 1 := ar.sub(qi, ti)]
                      [off + 2 * i := ar.add(qr, tr)][off + 2 * i + 1 := ar.add(qi, ti)];
    TwoPairsSet(s, off, n, i, j, (ar.add(qr, tr), ar.add(qi, ti)), (ar.sub(qr, tr), ar.sub(qi, ti)));
  }

  lemma PairAt<T>(s: seq<T>, off: nat, n: nat, i: nat)
    requires off + 2 * n <= |s| && i < n
    ensures Pairs(s, off, n)[i] == (s[off + 2 * i], s[off + 2 * i + 1])
  {
  }

  lemma TwoPairsSet<T>(s: seq<T>, off: nat, n: nat, i: nat, j: nat, u: (T, T), v: (T, T))
    requires off + 2 * n <= |s| && i < j < n
    ensures var t := s[off + 2 * j := v.0][off + 2 * j + 1 := v.1][off + 2 * i := u.0][off + 2 * i + 1 := u.1];
            Pairs(t, off, n) == Pairs(s, off, n)[i := u][j := v] && SameOutside(s, t, off, n)
  {
  }

  /** The butterflies done when offset m of every block is in progress and b blocks of it are finished. */
  predicate Done(l: nat, m: nat, b: nat, i: nat)
    requires l > 0
  {
    i % l < m || (i % l == m && (i / l) / 2 < b)
  }

  function PartlyStaged<T>(ar: Arith<T>, table: seq<T>, log2N: nat, k: nat, s: nat, x: seq<(T, T)>, m: nat,
                           b: nat): (y: seq<(T, T)>)
    requires TableSize(table, log2N) && s < k <= log2N && |x| == Pow2(k)
    ensures |y| == |x|
  {
    seq(|x|, i requires 0 <= i < |x| => if Done(Pow2(s), m, b, i) then StageAt(ar, table, log2N, k, s, x, i) else x[i])
  }

  lemma ButterflyPositions(l: nat, m: nat, b: nat, i: nat)
    requires m < l && i == m + b * (2 * l)
    ensures i % l == m && i / l == 2 * b
    ensures (i + l) % l == m && (i + l) / l == 2 * b + 1
    ensures !Done(l, m, b, i) && !Done(l, m, b, i + l)
  {
    MulDouble(b, l);
    DivModUnique(i, l, 2 * b, m);
    DivModUnique(i + l, l, 2 * b + 1, m);
  }

  lemma DoneStep(l: nat, m: nat, b: nat, i: nat, p: nat)
    requires m < l && i == m + b * (2 * l)
    ensures Done(l, m, b + 1, p) == (Done(l, m, b, p) || p == i || p == i + l)
  {
    ButterflyPositions(l, m, b, i);
    DivModDef(p, l);
    DivModDef(i, l);
    DivModDef(i + l, l);
  }

  lemma StageAtPositions<T>(ar: Arith<T>, table: seq<T>, log2N: nat, k: nat, s: nat, x: seq<(T, T)>, m: nat, b: nat,
                            i: nat)
    requires TableSize(table, log2N) && s < k <= log2N && |x| == Pow2(k)
    requires m < Pow2(s) && i == m + b * (2 * Pow2(s)) && i + Pow2(s) < |x|
    ensures var l, w := Pow2(s), Twiddle(ar, table, log2N, s, m);
            && StageAt(ar, table, log2N, k, s, x, i) == Upper(ar, w, x[i], x[i + l])
            && StageAt(ar, table, log2N, k, s, x, i + l) == Lower(ar, w, x[i], x[i + l])
  {
    hide Upper, Lower, Twiddle, Pow2;
    ButterflyPositions(Pow2(s), m, b, i);
  }

  lemma PartlyStagedStep<T>(ar: Arith<T>, table: seq<T>, log2N: nat, k: nat, s: nat, x: seq<(T, T)>, m: nat, b: nat,
                            i: nat)
    requires TableSize(table, log2N) && s < k <= log2N && |x| == Pow2(k)
    requires m < Pow2(s) && i == m + b * (2 * Pow2(s)) && i + Pow2(s) < |x|
    ensures var y, l, w := PartlyStaged(ar, table, log2N, k, s, x, m, b), Pow2(s), Twiddle(ar, table, log2N, s, m);
            PartlyStaged(ar, table, log2N, k, s, x, m, b + 1)
            == y[i := Upper(ar, w, y[i], y[i + l])][i + l := Lower(ar, w, y[i], y[i + l])]
  {
    hide Upper, Lower, Twiddle, Pow2, StageAt, Done;
    var y, l, w := PartlyStaged(ar, table, log2N, k, s, x, m, b), Pow2(s), Twiddle(ar, table, log2N, s, m);
    var z := PartlyStaged(ar, table, log2N, k, s, x, m, b + 1);
    ButterflyPositions(l, m, b, i);
    StageAtPositions(ar, table, log2N, k, s, x, m, b, i);
    forall p | 0 <= p < |x|
      ensures z[p] == y[i := Upper(ar, w, y[i], y[i + l])][i + l := Lower(ar, w, y[i], y[i + l])][p]
    {
      DoneStep(l, m, b, i, p);
    }
  }

  /** The twiddle factor of offset m, read from the table and halved. */
  method LoadTwiddle<T>(ar: Arith<T>, table: seq<T>, log2N: nat, ghost s: nat, m: nat, shiftK: nat)
      returns (wr: T, wi: T)
    requires TableSize(table, log2N) && s < log2N && m < Pow2(s) && shiftK == log2N - 1 - s
    ensures (wr, wi) == Twiddle(ar, table, log2N, s, m)
  {
    TwiddleInRange(log2N, s, m);
    var j := m * Pow2(shiftK);
    wr := ar.half(table[j + Pow2(log2N) / 4]);
    wi := ar.half(ar.neg(table[j]));
  }

  /** The butterflies of offset m: i runs over m, m + 2l, m + 4l, ... below n. */
  method ButterflyRow<T>(ar: Arith<T>, iq: array<T>, off: nat, k: nat, ghost table: seq<T>, ghost log2N: nat,
                         ghost s: nat, ghost x: seq<(T, T)>, m: nat, l: nat, wr: T, wi: T)
    requires TableSize(table, log2N) && s < k <= log2N && |x| == Pow2(k)
    requires l == Pow2(s) && m < l && (wr, wi) == Twiddle(ar, table, log2N, s, m)
    requires off + 2 * Pow2(k) <= iq.Length
    requires Pairs(iq[..], off, Pow2(k)) == PartlyStaged(ar, table, log2N, k, s, x, m, 0)
    modifies iq
    ensures Pairs(iq[..], off, Pow2(k)) == PartlyStaged(ar, table, log2N, k, s, x, m + 1, 0)
    ensures SameOutside(old(iq[..]), iq[..], off, Pow2(k))
  {
    hide Upper, Lower, Twiddle, Pow2, PartlyStaged, Pairs, TableSize;
    var n, istep := Pow2(k), 2 * l;
    ghost var b := 0;
    var i := m;
    while i < n
      invariant i == m + b * istep
      invariant Pairs(iq[..], off, n) == PartlyStaged(ar, table, log2N, k, s, x, m, b)
      invariant SameOutside(old(iq[..]), iq[..], off, n)
      decreases n - i
    {
      ButterflyPositions(l, m, b, i);
      PartnerInRange(k, s, i);
      PartlyStagedStep(ar, table, log2N, k, s, x, m, b, i);
      Butterfly(ar, iq, off, n, i, l, wr, wi);
      MulAdd(istep, b, 1);
      b := b + 1;
      i := i + istep;
    }
    RowFinished(ar, table, log2N, k, s, x, m, b);
  }

  lemma RowFinished<T>(ar: Arith<T>, table: seq<T>, log2N: nat, k: nat, s: nat, x: seq<(T, T)>, m: nat, b: nat)
    requires TableSize(table, log2N) && s < k <= log2N && |x| == Pow2(k)
    requires m < Pow2(s) && m + b * (2 * Pow2(s)) >= |x|
    ensures PartlyStaged(ar, table, log2N, k, s, x, m, b) == PartlyStaged(ar, table, log2N, k, s, x, m + 1, 0)
  {
    var l := Pow2(s);
    forall i | 0 <= i < |x|
      ensures Done(l, m, b, i) == Done(l, m + 1, 0, i)
    {
      AllRowsBelow(l, m, b, i);
    }
  }

  lemma AllRowsBelow(l: nat, m: nat, b: nat, i: nat)
    requires m < l && i < m + b * (2 * l)
    ensures Done(l, m, b, i) == Done(l, m + 1, 0, i)
  {
    DivModDef(i, l);
    MulDouble(b, l);
    if i % l == m {
      BlockBelow(i / l, 2 * b, l, i - m);
    }
  }

  lemma StageStart<T>(ar: Arith<T>, table: seq<T>, log2N: nat, k: nat, s: nat, x: seq<(T, T)>)
    requires TableSize(table, log2N) && s < k <= log2N && |x| == Pow2(k)
    ensures PartlyStaged(ar, table, log2N, k, s, x, 0, 0) == x
    ensures PartlyStaged(ar, table, log2N, k, s, x, Pow2(s), 0) == Stage(ar, table, log2N, k, s, x)
  {
    hide StageAt;
    assert forall i | 0 <= i < |x| :: i % Pow2(s) < Pow2(s);
  }

  /** One stage: offsets m = 0, ..., l-1. */
  method ButterflyStage<T>(ar: Arith<T>, iq: array<T>, off: nat, k: nat, table: seq<T>, log2N: nat, ghost s: nat,
                           ghost x: seq<(T, T)>, l: nat, shiftK: nat)
    requires TableSize(table, log2N) && s < k <= log2N && |x| == Pow2(k)
    requires l == Pow2(s) && shiftK == log2N - 1 - s
    requires off + 2 * Pow2(k) <= iq.Length
    requires Pairs(iq[..], off, Pow2(k)) == x
    modifies iq
    ensures Pairs(iq[..], off, Pow2(k)) == Stage(ar, table, log2N, k, s, x)
    ensures SameOutside(old(iq[..]), iq[..], off, Pow2(k))
  {
    hide Twiddle, Pow2, PartlyStaged, Pairs, TableSize, Stage;
    StageStart(ar, table, log2N, k, s, x);
    var m := 0;
    while m < l
      invariant 0 <= m <= l
      invariant Pairs(iq[..], off, Pow2(k)) == PartlyStaged(ar, table, log2N, k, s, x, m, 0)
      invariant SameOutside(old(iq[..]), iq[..], off, Pow2(k))
    {
      var wr, wi := LoadTwiddle(ar, table, log2N, s, m, shiftK);
      ButterflyRow(ar, iq, off, k, table, log2N, s, x, m, l, wr, wi);
      m := m + 1;
    }
  }

  /** The butterfly loops, stage by stage. */
  method ButterflyStages<T>(ar: Arith<T>, iq: array<T>, off: nat, k: nat, table: seq<T>, log2N: nat,
                            ghost x: seq<(T, T)>)
    requires TableSize(table, log2N) && k <= log2N && |x| == Pow2(k)
    requires off + 2 * Pow2(k) <= iq.Length
    requires Pairs(iq[..], off, Pow2(k)) == Reordered(x, k)
    modifies iq
    ensures Pairs(iq[..], off, Pow2(k)) == Fft(ar, table, log2N, k, x)
    ensures SameOutside(old(iq[..]), iq[..], off, Pow2(k))
  {
    hide Pairs, Stage, Reordered, TableSize;
    var n := Pow2(k);
    var l, shiftK := 1, log2N - 1;
    ghost var s := 0;
    while l < n
      invariant s <= k && l == Pow2(s) && shiftK == log2N - 1 - s
      invariant Pairs(iq[..], off, n) == Stages(ar, table, log2N, k, s, x)
      invariant SameOutside(old(iq[..]), iq[..], off, n)
      decreases k - s
    {
      if s == k { assert false; }
      var istep := 2 * l;
      ButterflyStage(ar, iq, off, k, table, log2N, s, Stages(ar, table, log2N, k, s, x), l, shiftK);
      shiftK := shiftK - 1;
      l := istep;
      s := s + 1;
    }
    if s < k { Pow2StrictlyMonotone(s, k); }
  }

  /** fix_fft: in place on the 2^m complex values from iq[off], or -1 when the table is too small. */
  method FixFft<T>(ar: Arith<T>, iq: array<T>, off: nat, m: nat, table: seq<T>, log2N: nat) returns (r: int)
    requires TableSize(table, log2N)
    requires m <= log2N ==> off + 2 * Pow2(m) <= iq.Length
    modifies iq
    ensures m > log2N ==> r == -1 && iq[..] == old(iq[..])
    ensures m <= log2N ==>
              && r == 0
              && Pairs(iq[..], off, Pow2(m)) == Fft(ar, table, log2N, m, old(Pairs(iq[..], off, Pow2(m))))
              && SameOutside(old(iq[..]), iq[..], off, Pow2(m))
  {
    var n := Pow2(m);
    if n > Pow2(log2N) {
      if m <= log2N { Pow2Monotone(m, log2N); }
      return -1;
    }
    if m > log2N { Pow2StrictlyMonotone(log2N, m); }
    ghost var x := Pairs(iq[..], off, n);
    Reorder(iq, off, m);
    ButterflyStages(ar, iq, off, m, table, log2N, x);
    return 0;
  }
}
