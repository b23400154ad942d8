/**
 What `scanner` of src/rtl_power.c feeds to fix_fft: sample pairs centred on zero, as decimation
 and the removal of the mean leave them, multiplied by a window coefficient of at most 256 in 16
 bits.
 */
module FftInput {
  import opened Pow2s
  import opened BitReversal
  import opened FixFft
  import opened FftMeaning
  import opened FftRange
  import opened FftError
  import opened Words

  /** The multiplication by the window, narrowed to 16 bits. */
  function Windowed(p: (int, int), w: int): (int, int) {
    (Wrap16(p.0 * w), Wrap16(p.1 * w))
  }

  function AllWindowed(x: seq<(int, int)>, window: seq<int>): (y: seq<(int, int)>)
    requires |x| == |window|
    ensures |y| == |x|
  {
    seq(|x|, i requires 0 <= i < |x| => Windowed(x[i], window[i]))
  }

  predicate WithinRadius(p: (int, int), radius: nat) {
    p.0 * p.0 + p.1 * p.1 <= radius * radius
  }

  /** Neither the window nor any operation of the transform wraps. */
  ghost predicate NeverWraps(table: seq<int>, log2N: nat, k: nat, x: seq<(int, int)>, window: seq<int>)
    requires BoundedTable(table, log2N) && TableSize(table, log2N) && k <= log2N && |x| == |window| == Pow2(k)
  {
    && (forall i :: 0 <= i < |x| ==> Fits16(x[i].0 * window[i]) && Fits16(x[i].1 * window[i]))
    && Fft(Int16Arith(), table, log2N, k, AllWindowed(x, window)) ==
       Fft(IntArith(), table, log2N, k, AllWindowed(x, window))
    && forall s, i :: 0 <= s < k && 0 <= i < |x| ==>
         PositionFits(table, log2N, k, s, Stages(Int16Arith(), table, log2N, k, s, AllWindowed(x, window)), i)
  }

  ghost predicate IsInput(table: seq<int>, log2N: nat, k: nat, x: seq<(int, int)>, window: seq<int>, radius: nat) {
    && BoundedTable(table, log2N) && TableSize(table, log2N) && k <= log2N && k <= 21 && |x| == |window| == Pow2(k)
    && (forall i :: 0 <= i < |x| ==> WithinRadius(x[i], radius))
    && forall i :: 0 <= i < |window| ==> -256 <= window[i] <= 256
  }

  lemma WindowedPair(p: (int, int), w: int, radius: nat)
    requires WithinRadius(p, radius) && radius <= 127 && -256 <= w <= 256
    ensures Fits16(p.0 * w) && Fits16(p.1 * w) && PairAtMost(Windowed(p, w), 32512)
  {
    MulAtMost(radius, 127, radius);
    MulAtMost(radius, 127, 127);
    RealNorm(p);
    hide WithinRadius;
    ScaledByWindow(p.0 as real, p.1 as real, w as real);
    RealProduct(p.0, w);
    RealProduct(p.1, w);
    ComponentAtMost((p.0 * w) as real, (p.1 * w) as real, 32512.0);
    WrapFits(p.0 * w);
    WrapFits(p.1 * w);
  }

  lemma RealNorm(p: (int, int))
    requires p.0 * p.0 + p.1 * p.1 <= 127 * 127
    ensures NormAtMost(p.0 as real, p.1 as real, 127.0)
  {
    RealProduct(p.0, p.0);
    RealProduct(p.1, p.1);
  }

  lemma RealProduct(a: int, b: int)
    ensures (a * b) as real == b as real * a as real == a as real * b as real
  {
  }

  lemma ScaledByWindow(a: real, b: real, c: real)
    requires NormAtMost(a, b, 127.0) && -256.0 <= c <= 256.0
    ensures NormAtMost(c * a, c * b, 32512.0)
  {
    hide NormAtMost;
    if c >= 0.0 {
      ScaledNorm(a, b, 127.0, c);
      NormMonotone(c * a, c * b, c * 127.0, 32512.0);
    } else {
      ScaledNorm(a, b, 127.0, -c);
      NormMonotone(-c * a, -c * b, -c * 127.0, 32512.0);
      BothNegated(c * a, c * b, 32512.0);
    }
  }

  lemma BothNegated(x: real, y: real, m: real)
    ensures NormAtMost(-x, -y, m) <==> NormAtMost(x, y, m)
  {
    assert (-x) * (-x) == x * x && (-y) * (-y) == y * y;
  }

  /** Pairs of modulus at most 127 are windowed and transformed without wrapping. */
  lemma SmallInputNeverWraps(table: seq<int>, log2N: nat, k: nat, x: seq<(int, int)>, window: seq<int>, radius: nat)
    requires IsInput(table, log2N, k, x, window, radius) && radius <= 127
    ensures NeverWraps(table, log2N, k, x, window)
  {
    SmallInputWindowed(table, log2N, k, x, window, radius);
    hide Windowed, PairAtMost, WithinRadius, Fits16, BoundedTable, TableSize, PositionFits, Fft, Stages, Pow2,
         Int16Arith, IntArith;
    FftNeverWraps(table, log2N, k, AllWindowed(x, window), 32512);
  }

  /** The samples times the window, exactly. */
  function ExactlyWindowed(x: seq<(int, int)>, window: seq<int>): (y: seq<Cx>)
    requires |x| == |window|
    ensures |y| == |x|
  {
    seq(|x|, i requires 0 <= i < |x| => ((x[i].0 * window[i]) as real, (x[i].1 * window[i]) as real))
  }

  /** So with its own table the program transforms the windowed samples up to the error of the roundings. */
  lemma SmallInputNearDft(table: seq<int>, roots: seq<real>, log2N: nat, w: Cx, k: nat,
                          x: seq<(int, int)>, window: seq<int>, radius: nat, f: nat)
    requires IsInput(table, log2N, k, x, window, radius) && radius <= 127 && f < |x|
    requires TableSize(roots, log2N) && RootTable(roots, log2N, w) && RoundedTable(table, roots)
    ensures Near(ToCx(Fft(Int16Arith(), table, log2N, k, AllWindowed(x, window))[f]),
                 CScale(1.0 / Pow2(k) as real, Dft(ExactlyWindowed(x, window), CPow(w, Pow2(log2N - k)), f)),
                 k as real * 3.854)
  {
    hide *;
    SmallInputWindowed(table, log2N, k, x, window, radius);
    SineTableNearDft(table, roots, log2N, w, k, AllWindowed(x, window), 32512, f);
  }

  lemma SmallInputWindowed(table: seq<int>, log2N: nat, k: nat, x: seq<(int, int)>, window: seq<int>, radius: nat)
    requires IsInput(table, log2N, k, x, window, radius) && radius <= 127
    ensures BoundedTable(table, log2N) && TableSize(table, log2N) && k <= log2N && k <= 21 && |x| == |window| == Pow2(k)
    ensures forall i :: 0 <= i < |x| ==> Fits16(x[i].0 * window[i]) && Fits16(x[i].1 * window[i])
    ensures AllAtMost(AllWindowed(x, window), 32512)
    ensures AllToCx(AllWindowed(x, window)) == ExactlyWindowed(x, window)
  {
    hide PairAtMost, WithinRadius, Fits16, BoundedTable, TableSize, Pow2, Wrap16;
    forall i | 0 <= i < |x|
      ensures Fits16(x[i].0 * window[i]) && Fits16(x[i].1 * window[i])
      ensures PairAtMost(AllWindowed(x, window)[i], 32512)
      ensures AllToCx(AllWindowed(x, window))[i] == ExactlyWindowed(x, window)[i]
    {
      WindowedPair(x[i], window[i], radius);
      WrapFits(x[i].0 * window[i]);
      WrapFits(x[i].1 * window[i]);
    }
  }

  /** No input of this modulus wraps, whatever table, length up to 2^21 and window. */
  ghost predicate Safe(radius: nat) {
    forall table: seq<int>, log2N: nat, k: nat, x: seq<(int, int)>, window: seq<int> ::
      IsInput(table, log2N, k, x, window, radius) ==> NeverWraps(table, log2N, k, x, window)
  }

  /** The largest safe modulus of a pair is 127: (128, 0) already leaves 16 bits at the window. */
  lemma SafeExactly(radius: nat)
    ensures Safe(radius) <==> radius <= 127
  {
    if radius <= 127 {
      forall table: seq<int>, log2N: nat, k: nat, x: seq<(int, int)>, window: seq<int> |
          IsInput(table, log2N, k, x, window, radius)
        ensures NeverWraps(table, log2N, k, x, window)
      {
        SmallInputNeverWraps(table, log2N, k, x, window, radius);
      }
    } else {
      LargestSample(radius);
    }
  }

  lemma LargestSample(radius: nat)
    requires radius >= 128
    ensures IsInput([0, 32767, 0], 2, 1, [(128, 0), (0, 0)], [256, 256], radius)
    ensures !NeverWraps([0, 32767, 0], 2, 1, [(128, 0), (0, 0)], [256, 256])
  {
    SmallTable();
    MulAtMost(128, radius, 128);
    MulAtMost(128, radius, radius);
    var x, window := [(128, 0), (0, 0)], [256, 256];
    assert Pow2(1) == 2;
    assert x[0].0 * window[0] == 32768;
  }

  // ---- an input that wraps inside the transform

  const TABLE8: seq<int> := [0, 23170, 32767, 23170, 0, -23170]

  /** Output 1 of a transform of eight values, butterfly by butterfly. */
  function OutputOne<T>(ar: Arith<T>, table: seq<T>, x: seq<(T, T)>): (T, T)
    requires |table| == 6 && |x| == 8
  {
    var t0 := (ar.half(table[2]), ar.half(ar.neg(table[0])));
    var t1 := (ar.half(table[4]), ar.half(ar.neg(table[2])));
    var t2 := (ar.half(table[3]), ar.half(ar.neg(table[1])));
    Upper(ar, t2, Upper(ar, t1, Lower(ar, t0, x[0], x[4]), Lower(ar, t0, x[2], x[6])),
                  Upper(ar, t1, Lower(ar, t0, x[1], x[5]), Lower(ar, t0, x[3], x[7])))
  }

  lemma Twiddles<T>(ar: Arith<T>, table: seq<T>)
    requires |table| == 6
    ensures TableSize(table, 3) && Pow2(0) == 1 && Pow2(1) == 2 && Pow2(2) == 4 && Pow2(3) == 8
    ensures Twiddle(ar, table, 3, 0, 0) == (ar.half(table[2]), ar.half(ar.neg(table[0])))
    ensures Twiddle(ar, table, 3, 1, 1) == (ar.half(table[4]), ar.half(ar.neg(table[2])))
    ensures Twiddle(ar, table, 3, 2, 1) == (ar.half(table[3]), ar.half(ar.neg(table[1])))
  {
    assert Pow2(3) == 8 && Pow2(2) == 4;
    assert TwiddleIndex(3, 0, 0) == 0 && TwiddleIndex(3, 1, 1) == 2 && TwiddleIndex(3, 2, 1) == 1;
  }

  lemma StageUpper<T>(ar: Arith<T>, table: seq<T>, s: nat, y: seq<(T, T)>, i: nat, l: nat, m: nat)
    requires TableSize(table, 3) && |y| == Pow2(3) == 8 && s < 3 && l == Pow2(s) && i + l < 8
    requires i / l % 2 == 0 && i % l == m
    ensures Stage(ar, table, 3, 3, s, y)[i] == Upper(ar, Twiddle(ar, table, 3, s, m), y[i], y[i + l])
  {
    hide Twiddle, Upper, Lower, TableSize, Pow2;
    assert Stage(ar, table, 3, 3, s, y)[i] == StageAt(ar, table, 3, 3, s, y, i);
  }

  lemma StageLower<T>(ar: Arith<T>, table: seq<T>, s: nat, y: seq<(T, T)>, i: nat, l: nat, m: nat)
    requires TableSize(table, 3) && |y| == Pow2(3) == 8 && s < 3 && l == Pow2(s) && l <= i < 8
    requires i / l % 2 == 1 && i % l == m
    ensures Stage(ar, table, 3, 3, s, y)[i] == Lower(ar, Twiddle(ar, table, 3, s, m), y[i - l], y[i])
  {
    hide Twiddle, Upper, Lower, TableSize, Pow2;
    assert Stage(ar, table, 3, 3, s, y)[i] == StageAt(ar, table, 3, 3, s, y, i);
  }

  lemma FftOutputOne<T>(ar: Arith<T>, table: seq<T>, x: seq<(T, T)>)
    requires |table| == 6 && |x| == 8
    ensures TableSize(table, 3) && Pow2(3) == 8
    ensures Fft(ar, table, 3, 3, x)[1] == OutputOne(ar, table, x)
  {
    Twiddles(ar, table);
    ReversedThreeBits();
    hide Stage, Twiddle, Upper, Lower, TableSize, Pow2, BitRev;
    assert OutputOne(ar, table, x) ==
      Upper(ar, Twiddle(ar, table, 3, 2, 1),
            Upper(ar, Twiddle(ar, table, 3, 1, 1),
                  Lower(ar, Twiddle(ar, table, 3, 0, 0), x[0], x[4]),
                  Lower(ar, Twiddle(ar, table, 3, 0, 0), x[2], x[6])),
            Upper(ar, Twiddle(ar, table, 3, 1, 1),
                  Lower(ar, Twiddle(ar, table, 3, 0, 0), x[1], x[5]),
                  Lower(ar, Twiddle(ar, table, 3, 0, 0), x[3], x[7])));
    var y := Reordered(x, 3);
    assert y == [x[0], x[4], x[2], x[6], x[1], x[5], x[3], x[7]];
    var z1 := Stages(ar, table, 3, 3, 1, x);
    var z2 := Stages(ar, table, 3, 3, 2, x);
    assert Stages(ar, table, 3, 3, 0, x) == y;
    assert z1 == Stage(ar, table, 3, 3, 0, y) && z2 == Stage(ar, table, 3, 3, 1, z1);
    assert Fft(ar, table, 3, 3, x) == Stage(ar, table, 3, 3, 2, z2);
    hide *;
    StageLower(ar, table, 0, y, 1, 1, 0);
    StageLower(ar, table, 0, y, 3, 1, 0);
    StageLower(ar, table, 0, y, 5, 1, 0);
    StageLower(ar, table, 0, y, 7, 1, 0);
    StageUpper(ar, table, 1, z1, 1, 2, 1);
    StageUpper(ar, table, 1, z1, 5, 2, 1);
    StageUpper(ar, table, 2, z2, 1, 4, 1);
  }

  lemma ReversedThreeBits()
    ensures BitRev(0, 3) == 0 && BitRev(1, 3) == 4 && BitRev(2, 3) == 2 && BitRev(3, 3) == 6
    ensures BitRev(4, 3) == 1 && BitRev(5, 3) == 5 && BitRev(6, 3) == 3 && BitRev(7, 3) == 7
  {
    ReversedTwoBits();
    assert Pow2(2) == 4;
    hide Pow2;
  }

  lemma ReversedTwoBits()
    ensures BitRev(0, 2) == 0 && BitRev(1, 2) == 2 && BitRev(2, 2) == 1 && BitRev(3, 2) == 3
  {
    assert BitRev(0, 1) == 0 && BitRev(1, 1) == 1;
  }

  /** Sample pairs at the corners of the range: (254, 254) twice, (0, 254) twice, (0, 0) twice, (254, 0) twice. */
  const CORNERS: seq<(int, int)> :=
    [(127, 127), (127, 127), (-127, 127), (-127, 127), (-127, -127), (-127, -127), (127, -127), (127, -127)]

  /**
   With a window of 256 nothing of this input wraps before the transform, but its output 1 is
   39243 and comes out as -26293.
   */
  lemma CornersWrap()
    ensures var x := AllWindowed(CORNERS, seq(8, _ => 256));
            && (forall i :: 0 <= i < 8 ==> Fits16(CORNERS[i].0 * 256) && Fits16(CORNERS[i].1 * 256))
            && |TABLE8| == 6 && TableSize(TABLE8, 3) && Pow2(3) == 8
            && Fft(IntArith(), TABLE8, 3, 3, x)[1] == (39243, 16255)
            && Fft(Int16Arith(), TABLE8, 3, 3, x)[1] == (-26293, 16255)
  {
    hide *;
    WindowedCorners();
    var x := AllWindowed(CORNERS, seq(8, _ => 256));
    FftOutputOne(IntArith(), TABLE8, x);
    FftOutputOne(Int16Arith(), TABLE8, x);
    OutputOneOfCorners(IntArith(), (39243, 16255));
    OutputOneOfCorners(Int16Arith(), (-26293, 16255));
  }

  const WINDOWED: seq<(int, int)> :=
    [(32512, 32512), (32512, 32512), (-32512, 32512), (-32512, 32512),
     (-32512, -32512), (-32512, -32512), (32512, -32512), (32512, -32512)]

  lemma WindowedCorners()
    ensures |TABLE8| == 6 && |CORNERS| == 8 && AllWindowed(CORNERS, seq(8, _ => 256)) == WINDOWED
    ensures forall i :: 0 <= i < 8 ==> Fits16(CORNERS[i].0 * 256) && Fits16(CORNERS[i].1 * 256)
  {
  }

  lemma OutputOneOfCorners(ar: Arith<int>, z: (int, int))
    requires (ar == IntArith() && z == (39243, 16255)) || (ar == Int16Arith() && z == (-26293, 16255))
    ensures |TABLE8| == 6 && |WINDOWED| == 8 && OutputOne(ar, TABLE8, WINDOWED) == z
  {
    hide *;
    ButterfliesOfCorners(ar);
    FirstSum(ar);
    SecondSum(ar);
    HalfTransform(ar);
    LastSum(ar, z);
  }

  lemma ButterfliesOfCorners(ar: Arith<int>)
    requires ar == IntArith() || ar == Int16Arith()
    ensures |TABLE8| == 6 && |WINDOWED| == 8
    ensures var first := Lower(ar, (16383, 0), (32512, 32512), (-32512, -32512));
            var second := Lower(ar, (16383, 0), (-32512, 32512), (32512, -32512));
            var half := Upper(ar, (0, -16384), first, second);
            OutputOne(ar, TABLE8, WINDOWED) == Upper(ar, (11585, -11585), half, half)
  {
    Halves(ar);
    hide IntArith, Int16Arith, Upper, Lower;
  }

  lemma Halves(ar: Arith<int>)
    requires ar == IntArith() || ar == Int16Arith()
    ensures ar.half(32767) == 16383 && ar.half(ar.neg(0)) == 0 && ar.half(0) == 0
    ensures ar.half(ar.neg(32767)) == -16384 && ar.half(23170) == 11585 && ar.half(ar.neg(23170)) == -11585
  {
  }

  /** A butterfly whose product is t, with all parts of the product in range. */
  lemma Evaluated(w: (int, int), q: (int, int), p: (int, int), t: (int, int))
    requires Fits16(FixMpy(w.0, p.0)) && Fits16(FixMpy(w.1, p.1)) && Fits16(FixMpy(w.0, p.1)) &&
             Fits16(FixMpy(w.1, p.0))
    requires t == (FixMpy(w.0, p.0) - FixMpy(w.1, p.1), FixMpy(w.0, p.1) + FixMpy(w.1, p.0))
    requires Fits16(t.0) && Fits16(t.1)
    ensures Upper(IntArith(), w, q, p) == (q.0 / 2 + t.0, q.1 / 2 + t.1)
    ensures Lower(IntArith(), w, q, p) == (q.0 / 2 - t.0, q.1 / 2 - t.1)
    ensures Upper(Int16Arith(), w, q, p) == (Wrap16(q.0 / 2 + t.0), Wrap16(q.1 / 2 + t.1))
    ensures Lower(Int16Arith(), w, q, p) == (Wrap16(q.0 / 2 - t.0), Wrap16(q.1 / 2 - t.1))
  {
    hide FixMpy, Wrap16;
    WrapFits(FixMpy(w.0, p.0)); WrapFits(FixMpy(w.1, p.1)); WrapFits(FixMpy(w.0, p.1)); WrapFits(FixMpy(w.1, p.0));
    WrapFits(t.0); WrapFits(t.1);
    assert Product(IntArith(), w, p) == t;
    assert Product(Int16Arith(), w, p) == t;
  }

  lemma FirstSum(ar: Arith<int>)
    requires ar == IntArith() || ar == Int16Arith()
    ensures Lower(ar, (16383, 0), (32512, 32512), (-32512, -32512)) == (32511, 32511)
  {
    Multiplications();
    SmallWords();
    hide FixMpy, Wrap16, IntArith, Int16Arith, Lower;
    Evaluated((16383, 0), (32512, 32512), (-32512, -32512), (-16255, -16255));
  }

  lemma SecondSum(ar: Arith<int>)
    requires ar == IntArith() || ar == Int16Arith()
    ensures Lower(ar, (16383, 0), (-32512, 32512), (32512, -32512)) == (-32511, 32511)
  {
    Multiplications();
    SmallWords();
    hide FixMpy, Wrap16, IntArith, Int16Arith, Lower;
    Evaluated((16383, 0), (-32512, 32512), (32512, -32512), (16255, -16255));
  }

  lemma HalfTransform(ar: Arith<int>)
    requires ar == IntArith() || ar == Int16Arith()
    ensures Upper(ar, (0, -16384), (32511, 32511), (-32511, 32511)) == (32510, 32511)
  {
    Multiplications();
    SmallWords();
    hide FixMpy, Wrap16, IntArith, Int16Arith, Upper;
    Evaluated((0, -16384), (32511, 32511), (-32511, 32511), (16255, 16256));
  }

  lemma LastSum(ar: Arith<int>, z: (int, int))
    requires (ar == IntArith() && z == (39243, 16255)) || (ar == Int16Arith() && z == (-26293, 16255))
    ensures Upper(ar, (11585, -11585), (32510, 32511), (32510, 32511)) == z
  {
    Multiplications();
    assert Wrap16(39243) == -26293 && Wrap16(16255) == 16255;
    hide FixMpy, Wrap16, IntArith, Int16Arith, Upper;
    Evaluated((11585, -11585), (32510, 32511), (32510, 32511), (22988, 0));
  }

  /** The products of these butterflies. */
  lemma Multiplications()
    ensures FixMpy(16383, 32512) == 16255 && FixMpy(16383, -32512) == -16255
    ensures forall b :: FixMpy(0, b) == 0
    ensures FixMpy(-16384, 32511) == -16255 && FixMpy(-16384, -32511) == 16256
    ensures FixMpy(11585, 32510) == 11494 && FixMpy(11585, 32511) == 11494
    ensures FixMpy(-11585, 32510) == -11494 && FixMpy(-11585, 32511) == -11494
  {
  }

  lemma SmallWords()
    ensures Wrap16(32511) == 32511 && Wrap16(-32511) == -32511 && Wrap16(32510) == 32510
  {
  }
}
