/**
 The decimators and the FIR filter of src/rtl_fm.c. They rewrite their buffer in place and
 carry a little state from call to call; each is shown to treat a stream the same however it
 is cut into blocks. Sums are unbounded; values stored in the 16-bit buffers wrap.
 */
module RtlFm {
  import opened Collections
  import opened Pow2s
  import opened Words

  // ---- low_pass: boxcar decimation of I/Q pairs

  /** now_r, now_j and prev_index. */
  datatype LpState = LpState(r: int, j: int, index: int)

  /** One pair: the new state, and the pair put out if enough have been summed. */
  function LowPassStep(st: LpState, a: int, b: int, downsample: int): (LpState, seq<int>) {
    var r, j, index := st.r + a, st.j + b, st.index + 1;
    if index < downsample then (LpState(r, j, index), []) else (LpState(0, 0, 0), [Wrap16(r), Wrap16(j)])
  }

  /** State and output after a stream of pairs. */
  function LowPass(st: LpState, x: seq<int>, downsample: int): (p: (LpState, seq<int>))
    requires |x| % 2 == 0
    ensures |p.1| <= |x| && |p.1| % 2 == 0
  {
    if x == [] then (st, [])
    else
      var n := |x| - 2;
      var before := LowPass(st, x[..n], downsample);
      var step := LowPassStep(before.0, x[n], x[n + 1], downsample);
      (step.0, before.1 + step.1)
  }

  lemma LowPassNone(st: LpState, x: seq<int>, downsample: int)
    ensures LowPass(st, x[..0], downsample) == (st, [])
  {
  }

  lemma LowPassPair(st: LpState, x: seq<int>, i: nat, downsample: int)
    requires i + 2 <= |x| && i % 2 == 0
    ensures var before := LowPass(st, x[..i], downsample);
            var step := LowPassStep(before.0, x[i], x[i + 1], downsample);
            LowPass(st, x[..i + 2], downsample) == (step.0, before.1 + step.1)
  {
    assert x[..i + 2][..i] == x[..i];
  }

  /** A stream may be cut after any pair. */
  lemma {:induction false} LowPassSplits(st: LpState, x: seq<int>, y: seq<int>, downsample: int)
    requires |x| % 2 == 0 && |y| % 2 == 0
    ensures var first := LowPass(st, x, downsample);
            var second := LowPass(first.0, y, downsample);
            LowPass(st, x + y, downsample) == (second.0, first.1 + second.1)
  {
    if y == [] {
      assert x + y == x;
      assert LowPass(st, x, downsample).1 + [] == LowPass(st, x, downsample).1;
    } else {
      var n := |y| - 2;
      LowPassSplits(st, x, y[..n], downsample);
      assert (x + y)[..|x| + n] == x + y[..n];
      assert (x + y)[|x| + n] == y[n] && (x + y)[|x| + n + 1] == y[n + 1];
      var first := LowPass(st, x, downsample);
      var before := LowPass(first.0, y[..n], downsample);
      Reassociate(first.1, before.1, LowPassStep(before.0, y[n], y[n + 1], downsample).1);
    }
  }

  /** The sum of one component over the pairs from `first` up to `last`. */
  function PairSum(x: seq<int>, component: nat, first: int, last: int): int
    requires component < 2 && 0 <= first && 2 * last <= |x|
    decreases last
  {
    if last <= first then 0 else PairSum(x, component, first, last - 1) + x[2 * (last - 1) + component]
  }

  /** The pair at which the sum for output k starts, when `index` pairs were summed before the block. */
  function FirstPair(index: int, k: nat, downsample: nat): int {
    if k == 0 then 0 else k * downsample - index
  }

  /** The first sum goes on with what was carried in. */
  function CarriedIn(st: LpState, component: nat, k: nat): int {
    if k > 0 then 0 else if component == 0 then st.r else st.j
  }

  /** What has been put out, and what is summed, after `pairs` pairs and `count` outputs. */
  ghost predicate PairsSummed(st: LpState, x: seq<int>, downsample: nat, p: (LpState, seq<int>), pairs: nat, count: nat)
    requires 2 * pairs <= |x|
  {
    && 0 <= st.index < downsample && 0 <= p.0.index < downsample
    && count * downsample + p.0.index == st.index + pairs
    && 0 <= FirstPair(st.index, count, downsample) <= pairs && |p.1| == 2 * count
    && p.0.r == CarriedIn(st, 0, count) + PairSum(x, 0, FirstPair(st.index, count, downsample), pairs)
    && p.0.j == CarriedIn(st, 1, count) + PairSum(x, 1, FirstPair(st.index, count, downsample), pairs)
    && forall k: nat :: k < count ==> OutputAt(st, x, downsample, p, pairs, k)
  }

  /** Output k is the wrapped sum over its own downsample pairs. */
  ghost predicate OutputAt(st: LpState, x: seq<int>, downsample: nat, p: (LpState, seq<int>), pairs: nat, k: nat)
    requires 2 * pairs <= |x| && 2 * k + 1 < |p.1|
  {
    var first, last := FirstPair(st.index, k, downsample), FirstPair(st.index, k + 1, downsample);
    && 0 <= first <= last <= pairs
    && p.1[2 * k] == Wrap16(CarriedIn(st, 0, k) + PairSum(x, 0, first, last))
    && p.1[2 * k + 1] == Wrap16(CarriedIn(st, 1, k) + PairSum(x, 1, first, last))
  }

  /**
   Output k is the sum of the pairs from k*downsample - index up to (k+1)*downsample - index, the
   first from 0 on and with the sums carried in; the pairs behind the last output are carried on.
   */
  lemma PairsAreSummed(st: LpState, x: seq<int>, downsample: nat)
    requires |x| % 2 == 0 && 0 <= st.index < downsample
    ensures PairsSummed(st, x, downsample, LowPass(st, x, downsample), |x| / 2, (st.index + |x| / 2) / downsample)
  {
    var count := PairsSummedUpTo(st, x, downsample, |x| / 2);
    assert x[..2 * (|x| / 2)] == x;
    var total := st.index + |x| / 2;
    DivModUnique(total, downsample, count, LowPass(st, x, downsample).0.index);
  }

  lemma {:induction false} PairsSummedUpTo(st: LpState, x: seq<int>, downsample: nat, pairs: nat) returns (count: nat)
    requires 2 * pairs <= |x| && 0 <= st.index < downsample
    ensures PairsSummed(st, x, downsample, LowPass(st, x[..2 * pairs], downsample), pairs, count)
  {
    if pairs == 0 {
      count := 0;
      LowPassNone(st, x, downsample);
      ZeroTimes(0, downsample);
    } else {
      var i := pairs - 1;
      count := PairsSummedUpTo(st, x, downsample, i);
      LowPassPair(st, x, 2 * i, downsample);
      hide LowPass;
      count := OneMorePair(st, x, downsample, LowPass(st, x[..2 * i], downsample), i, count);
    }
  }

  lemma OneMorePair(st: LpState, x: seq<int>, downsample: nat, p: (LpState, seq<int>), pairs: nat, count: nat)
    returns (next: nat)
    requires 2 * pairs + 2 <= |x| && PairsSummed(st, x, downsample, p, pairs, count)
    ensures var step := LowPassStep(p.0, x[2 * pairs], x[2 * pairs + 1], downsample);
            PairsSummed(st, x, downsample, (step.0, p.1 + step.1), pairs + 1, next)
  {
    var step := LowPassStep(p.0, x[2 * pairs], x[2 * pairs + 1], downsample);
    var q := (step.0, p.1 + step.1);
    MulAdd(downsample, count, 1);
    next := if p.0.index + 1 < downsample then count else count + 1;
    hide Wrap16;
    var all := pairs + 1;
    forall k: nat | k < count
      ensures OutputAt(st, x, downsample, q, all, k)
    {
      assert OutputAt(st, x, downsample, p, pairs, k);
    }
    assert next > count ==> OutputAt(st, x, downsample, q, all, count);
    hide OutputAt;
  }

  // ---- low_pass_real: boxcar resampling of real samples by slow/fast

  /** now_lpr and prev_lpr_index. */
  datatype LprState = LprState(now: int, index: int)

  /** C division, toward zero. */
  function Truncated(a: int, b: int): int
    requires b > 0
  {
    if a >= 0 then a / b else -((-a) / b)
  }

  /** The quotient whose remainder is below the divisor and has the sign of the dividend. */
  lemma TruncatedMeans(a: int, b: int)
    requires b > 0
    ensures var q := Truncated(a, b);
            if a >= 0 then q * b <= a < q * b + b else q * b - b < a <= q * b
  {
    if a >= 0 {
      DivModDef(a, b);
    } else {
      DivModDef(-a, b);
      MulSub(b, 0, (-a) / b);
    }
  }

  predicate Rates(fast: nat, slow: nat) {
    0 < slow <= fast
  }

  function Gain(fast: nat, slow: nat): (g: nat)
    requires Rates(fast, slow)
    ensures g >= 1
  {
    DivModDef(fast, slow);
    GainAtLeastOne(fast, slow);
    Quotient(fast, slow)
  }

  lemma GainAtLeastOne(fast: nat, slow: nat)
    requires Rates(fast, slow)
    ensures Quotient(fast, slow) >= 1
  {
    DivModDef(fast, slow);
    ZeroTimes(fast / slow, slow);
  }

  /** The divisor is zero exactly for a slow rate above the fast one. */
  lemma GainIsZero(fast: nat, slow: nat)
    requires 0 < slow
    ensures Quotient(fast, slow) == 0 <==> !Rates(fast, slow)
  {
    if slow <= fast {
      GainAtLeastOne(fast, slow);
    } else {
      SmallMod(fast, slow);
    }
  }

  /** The gain is the whole number of slow samples in a fast one. */
  lemma GainIsFloor(fast: nat, slow: nat)
    requires Rates(fast, slow)
    ensures Gain(fast, slow) * slow <= fast < Gain(fast, slow) * slow + slow
  {
    DivModDef(fast, slow);
  }

  lemma ZeroTimes(q: int, d: int)
    ensures q == 0 ==> q * d == 0
  {
  }

  function LowPassRealStep(st: LprState, a: int, fast: nat, slow: nat): (LprState, seq<int>)
    requires Rates(fast, slow)
  {
    var now, index := st.now + a, st.index + slow;
    if index < fast then (LprState(now, index), [])
    else (LprState(0, index - fast), [Wrap16(Truncated(now, Gain(fast, slow)))])
  }

  function LowPassReal(st: LprState, x: seq<int>, fast: nat, slow: nat): (p: (LprState, seq<int>))
    requires Rates(fast, slow)
    ensures |p.1| <= |x|
  {
    if x == [] then (st, [])
    else
      var n := |x| - 1;
      var before := LowPassReal(st, x[..n], fast, slow);
      var step := LowPassRealStep(before.0, x[n], fast, slow);
      (step.0, before.1 + step.1)
  }

  lemma LowPassRealNext(st: LprState, x: seq<int>, i: nat, fast: nat, slow: nat)
    requires Rates(fast, slow) && i < |x|
    ensures var before := LowPassReal(st, x[..i], fast, slow);
            var step := LowPassRealStep(before.0, x[i], fast, slow);
            LowPassReal(st, x[..i + 1], fast, slow) == (step.0, before.1 + step.1)
  {
    assert x[..i + 1][..i] == x[..i];
    hide LowPassRealStep;
  }

  /** A stream may be cut anywhere. */
  lemma {:induction false} LowPassRealSplits(st: LprState, x: seq<int>, y: seq<int>, fast: nat, slow: nat)
    requires Rates(fast, slow)
    ensures var first := LowPassReal(st, x, fast, slow);
            var second := LowPassReal(first.0, y, fast, slow);
            LowPassReal(st, x + y, fast, slow) == (second.0, first.1 + second.1)
  {
    hide LowPassRealStep;
    if y == [] {
      assert x + y == x;
      assert LowPassReal(st, x, fast, slow).1 + [] == LowPassReal(st, x, fast, slow).1;
    } else {
      var n := |y| - 1;
      LowPassRealSplits(st, x, y[..n], fast, slow);
      assert (x + y)[..|x| + n] == x + y[..n];
      assert (x + y)[|x| + n] == y[n];
      var first := LowPassReal(st, x, fast, slow);
      var before := LowPassReal(first.0, y[..n], fast, slow);
      Reassociate(first.1, before.1, LowPassRealStep(before.0, y[n], fast, slow).1);
    }
  }

  /** The inputs behind each output, and those still being summed. */
  function Groups(index: int, x: seq<int>, fast: nat, slow: nat): (g: (seq<seq<int>>, seq<int>, int))
    requires Rates(fast, slow)
  {
    if x == [] then ([], [], index)
    else
      var n := |x| - 1;
      var before := Groups(index, x[..n], fast, slow);
      var rest, next := before.1 + [x[n]], before.2 + slow;
      if next < fast then (before.0, rest, next) else (before.0 + [rest], [], next - fast)
  }

  function Sum(x: seq<int>): int {
    if x == [] then 0 else Sum(x[..|x| - 1]) + x[|x| - 1]
  }

  /** What is put out for group k: its sum, the first together with the sum carried in, over fast/slow. */
  function GroupOutput(now: int, groups: seq<seq<int>>, k: nat, fast: nat, slow: nat): int
    requires Rates(fast, slow) && k < |groups|
  {
    Wrap16(Truncated((if k == 0 then now else 0) + Sum(groups[k]), Gain(fast, slow)))
  }

  ghost predicate Grouped(st: LprState, x: seq<int>, g: (seq<seq<int>>, seq<int>, int), p: (LprState, seq<int>),
                          fast: nat, slow: nat)
    requires Rates(fast, slow)
  {
    && Concat(g.0) + g.1 == x
    && |p.1| == |g.0| && p.0.index == g.2
    && p.0.now == (if g.0 == [] then st.now else 0) + Sum(g.1)
    && forall k :: 0 <= k < |g.0| ==> p.1[k] == GroupOutput(st.now, g.0, k, fast, slow)
  }

  /** Every input lands in exactly one group, in order; each group gives one output, in order. */
  lemma {:induction false} InputsAreGrouped(st: LprState, x: seq<int>, fast: nat, slow: nat)
    requires Rates(fast, slow)
    ensures Grouped(st, x, Groups(st.index, x, fast, slow), LowPassReal(st, x, fast, slow), fast, slow)
  {
    if x != [] {
      var n := |x| - 1;
      InputsAreGrouped(st, x[..n], fast, slow);
      hide Grouped, Wrap16, Truncated, Gain;
      OneMoreGrouped(st, x[..n], x[n], Groups(st.index, x[..n], fast, slow), LowPassReal(st, x[..n], fast, slow),
                     fast, slow);
      assert x == x[..n] + [x[n]];
    }
  }

  lemma SumAppend(x: seq<int>, a: int)
    ensures Sum(x + [a]) == Sum(x) + a
  {
    assert (x + [a])[..|x|] == x;
  }

  lemma OneMoreGrouped(st: LprState, x: seq<int>, a: int, g: (seq<seq<int>>, seq<int>, int), p: (LprState, seq<int>),
                       fast: nat, slow: nat)
    requires Rates(fast, slow) && Grouped(st, x, g, p, fast, slow)
    ensures var rest, next, step := g.1 + [a], g.2 + slow, LowPassRealStep(p.0, a, fast, slow);
            Grouped(st, x + [a], if next < fast then (g.0, rest, next) else (g.0 + [rest], [], next - fast),
                    (step.0, p.1 + step.1), fast, slow)
  {
    hide Wrap16, Truncated, Gain, Sum, Concat;
    var rest := g.1 + [a];
    var out := p.1 + LowPassRealStep(p.0, a, fast, slow).1;
    SumAppend(g.1, a);
    ConcatOne(g.0, rest);
    Reassociate(Concat(g.0), g.1, [a]);
    assert (x + [a]) + [] == x + [a];
    SumOfNone();
    if g.2 + slow >= fast {
      var groups := g.0 + [rest];
      forall k | 0 <= k < |groups|
        ensures out[k] == GroupOutput(st.now, groups, k, fast, slow)
      {
        if k < |g.0| { assert GroupOutput(st.now, groups, k, fast, slow) == GroupOutput(st.now, g.0, k, fast, slow); }
      }
    }
  }

  lemma SumOfNone()
    ensures Sum([]) == 0
  {
  }

  /** Exactly floor((prev + n * slow) / fast) samples come out. */
  lemma OutputCount(st: LprState, x: seq<int>, fast: nat, slow: nat)
    requires Rates(fast, slow) && 0 <= st.index < fast
    ensures var p := LowPassReal(st, x, fast, slow);
            0 <= p.0.index < fast && st.index + |x| * slow >= 0 && |p.1| == Quotient(st.index + |x| * slow, fast)
  {
    var p := LowPassReal(st, x, fast, slow);
    IndexBalance(st, x, fast, slow);
    MulNonneg(|x|, slow);
    hide LowPassReal;
    CountIsQuotient(st.index + |x| * slow, |p.1|, fast, p.0.index);
  }

  lemma {:induction false} IndexBalance(st: LprState, x: seq<int>, fast: nat, slow: nat)
    requires Rates(fast, slow) && 0 <= st.index < fast
    ensures var p := LowPassReal(st, x, fast, slow);
            0 <= p.0.index < fast && st.index + |x| * slow == |p.1| * fast + p.0.index
  {
    hide Gain, Truncated, Wrap16, LowPassRealStep;
    if x != [] {
      var n := |x| - 1;
      IndexBalance(st, x[..n], fast, slow);
      var before := LowPassReal(st, x[..n], fast, slow);
      OneMoreInput(before.0, |before.1|, x[n], fast, slow);
      MulSub(slow, n + 1, 1);
    } else {
      ZeroTimes(0, slow);
      ZeroTimes(0, fast);
    }
  }

  lemma OneMoreInput(st: LprState, count: nat, a: int, fast: nat, slow: nat)
    requires Rates(fast, slow) && 0 <= st.index < fast
    ensures var step := LowPassRealStep(st, a, fast, slow);
            && 0 <= step.0.index < fast
            && count * fast + st.index + slow == (count + |step.1|) * fast + step.0.index
  {
    hide Gain, Truncated, Wrap16;
    MulAdd(fast, count, 1);
  }

  lemma CountIsQuotient(total: nat, count: nat, fast: nat, index: int)
    requires 0 <= index < fast && total == count * fast + index
    ensures count == Quotient(total, fast)
  {
    DivModUnique(total, fast, count, index);
  }

  // ---- generic_fir: nine taps on every other sample

  /** The folded sum, with fir[0] the length and fir[1..] the coefficients. */
  function Folded(hist: seq<int>, fir: seq<int>): int
    requires |hist| == 9 && |fir| == 10
  {
    (hist[0] + hist[8]) * fir[1] + (hist[1] + hist[7]) * fir[2] +
    (hist[2] + hist[6]) * fir[3] + (hist[3] + hist[5]) * fir[4]
    + hist[4] * fir[5]
  }

  /** The plain sum of products over the first n taps. */
  function Direct(hist: seq<int>, fir: seq<int>, n: nat): int
    requires |hist| == 9 && |fir| == 10 && n <= 9
  {
    if n == 0 then 0 else Direct(hist, fir, n - 1) + hist[n - 1] * fir[n]
  }

  predicate Palindromic(fir: seq<int>)
    requires |fir| == 10
  {
    fir[1] == fir[9] && fir[2] == fir[8] && fir[3] == fir[7] && fir[4] == fir[6]
  }

  lemma FoldedParts(hist: seq<int>, fir: seq<int>)
    requires |hist| == 9 && |fir| == 10
    ensures Folded(hist, fir) == hist[0] * fir[1] + hist[8] * fir[1] + hist[1] * fir[2] + hist[7] * fir[2]
                                 + hist[2] * fir[3] + hist[6] * fir[3] + hist[3] * fir[4] + hist[5] * fir[4]
                                 + hist[4] * fir[5]
  {
    MulAdd(fir[1], hist[0], hist[8]); MulAdd(fir[2], hist[1], hist[7]);
    MulAdd(fir[3], hist[2], hist[6]); MulAdd(fir[4], hist[3], hist[5]);
  }

  lemma DirectParts(hist: seq<int>, fir: seq<int>)
    requires |hist| == 9 && |fir| == 10
    ensures Direct(hist, fir, 9) ==
            hist[0] * fir[1] + hist[1] * fir[2] + hist[2] * fir[3] + hist[3] * fir[4] + hist[4] * fir[5]
                                    + hist[5] * fir[6] + hist[6] * fir[7] + hist[7] * fir[8] + hist[8] * fir[9]
  {
    assert Direct(hist, fir, 1) == hist[0] * fir[1];
    assert Direct(hist, fir, 2) == Direct(hist, fir, 1) + hist[1] * fir[2];
    assert Direct(hist, fir, 3) == Direct(hist, fir, 2) + hist[2] * fir[3];
    assert Direct(hist, fir, 4) == Direct(hist, fir, 3) + hist[3] * fir[4];
    assert Direct(hist, fir, 5) == Direct(hist, fir, 4) + hist[4] * fir[5];
    assert Direct(hist, fir, 6) == Direct(hist, fir, 5) + hist[5] * fir[6];
    assert Direct(hist, fir, 7) == Direct(hist, fir, 6) + hist[6] * fir[7];
    assert Direct(hist, fir, 8) == Direct(hist, fir, 7) + hist[7] * fir[8];
  }

  /** Folding is the nine-tap filter, for every history, exactly when the table is palindromic. */
  lemma FoldedIsDirect(fir: seq<int>)
    requires |fir| == 10
    ensures (forall hist: seq<int> | |hist| == 9 :: Folded(hist, fir) == Direct(hist, fir, 9)) <==> Palindromic(fir)
  {
    if Palindromic(fir) {
      forall hist: seq<int> | |hist| == 9
        ensures Folded(hist, fir) == Direct(hist, fir, 9)
      {
        FoldedParts(hist, fir);
        DirectParts(hist, fir);
      }
    } else {
      var k := if fir[1] != fir[9] then 8 else if fir[2] != fir[8] then 7 else if fir[3] != fir[7] then 6 else 5;
      var hist := seq(9, i => if i == k then 1 else 0);
      FoldedParts(hist, fir);
      DirectParts(hist, fir);
      assert Folded(hist, fir) != Direct(hist, fir, 9);
    }
  }

  /** History and output after a stream of samples; each output uses the nine samples before it. */
  function Filter(hist: seq<int>, x: seq<int>, fir: seq<int>): (p: (seq<int>, seq<int>))
    requires |hist| == 9 && |fir| == 10
    ensures |p.0| == 9 && |p.1| == |x|
  {
    if x == [] then (hist, [])
    else
      var n := |x| - 1;
      var before := Filter(hist, x[..n], fir);
      (before.0[1..] + [x[n]], before.1 + [Wrap16(Folded(before.0, fir) / 0x8000)])
  }

  /** A stream may be cut anywhere. */
  lemma {:induction false} FilterSplits(hist: seq<int>, x: seq<int>, y: seq<int>, fir: seq<int>)
    requires |hist| == 9 && |fir| == 10
    ensures var first := Filter(hist, x, fir);
            var second := Filter(first.0, y, fir);
            Filter(hist, x + y, fir) == (second.0, first.1 + second.1)
  {
    hide Folded, Wrap16;
    if y == [] {
      assert x + y == x;
      assert Filter(hist, x, fir).1 + [] == Filter(hist, x, fir).1;
    } else {
      var n := |y| - 1;
      FilterSplits(hist, x, y[..n], fir);
      assert (x + y)[..|x| + n] == x + y[..n];
      assert (x + y)[|x| + n] == y[n];
      var first := Filter(hist, x, fir);
      var before := Filter(first.0, y[..n], fir);
      Reassociate(first.1, before.1, [Wrap16(Folded(before.0, fir) / 0x8000)]);
    }
  }

  /** The history is the last nine samples seen. */
  lemma {:induction false} HistoryIsRecent(hist: seq<int>, x: seq<int>, fir: seq<int>)
    requires |hist| == 9 && |fir| == 10
    ensures Filter(hist, x, fir).0 == (hist + x)[|x|..]
  {
    hide Folded, Wrap16;
    if x != [] {
      var n := |x| - 1;
      HistoryIsRecent(hist, x[..n], fir);
      assert hist + x == (hist + x[..n]) + [x[n]];
    }
  }

  /** Output n is the sum over the nine samples before input n, the history standing before the first. */
  lemma {:induction false} OutputUsesRecent(hist: seq<int>, x: seq<int>, fir: seq<int>, n: nat)
    requires |hist| == 9 && |fir| == 10 && n < |x|
    ensures Filter(hist, x, fir).1[n] == Wrap16(Folded((hist + x)[n..n + 9], fir) / 0x8000)
    decreases |x|
  {
    hide Folded, Wrap16;
    var m := |x| - 1;
    HistoryIsRecent(hist, x[..m], fir);
    assert (hist + x[..m])[m..] == (hist + x)[m..m + 9];
    if n < m {
      OutputUsesRecent(hist, x[..m], fir, n);
      assert (hist + x[..m])[n..n + 9] == (hist + x)[n..n + 9];
    }
  }

  /** Every other sample from the start. */
  function EveryOther(s: seq<int>, n: nat): (r: seq<int>)
    requires 2 * n <= |s| + 1
    ensures |r| == n
  {
    if n == 0 then [] else EveryOther(s, n - 1) + [s[2 * (n - 1)]]
  }

  lemma {:induction false} EveryOtherAt(s: seq<int>, n: nat, k: nat)
    requires 2 * n <= |s| + 1 && k < n
    ensures EveryOther(s, n)[k] == s[2 * k]
  {
    if k < n - 1 { EveryOtherAt(s, n - 1, k); }
  }

  // ---- the program's loops

  class Demodulator {
    const lowpassed: array<int>
    var lpLen: nat
    var nowR: int
    var nowJ: int
    var prevIndex: int
    const downsample: int
    const result: array<int>
    var resultLen: nat
    var nowLpr: int
    var prevLprIndex: int
    const rateOut: nat
    const rateOut2: nat

    constructor (size: nat, downsample: int, rateOut: nat, rateOut2: nat)
      ensures lowpassed.Length == result.Length == size && fresh(lowpassed) && fresh(result)
      ensures this.downsample == downsample && this.rateOut == rateOut && this.rateOut2 == rateOut2
      ensures Lp() == LpState(0, 0, 0) && Lpr() == LprState(0, 0)
    {
      lowpassed, result := new int[size], new int[size];
      this.downsample, this.rateOut, this.rateOut2 := downsample, rateOut, rateOut2;
      lpLen, resultLen := 0, 0;
      nowR, nowJ, prevIndex, nowLpr, prevLprIndex := 0, 0, 0, 0, 0;
    }

    function Lp(): LpState
      reads this
    {
      LpState(nowR, nowJ, prevIndex)
    }

    function Lpr(): LprState
      reads this
    {
      LprState(nowLpr, prevLprIndex)
    }

    /** low_pass: the output overwrites the front of the block it comes from. */
    method LowPassInPlace()
      requires lpLen <= lowpassed.Length && lpLen % 2 == 0
      modifies lowpassed, `lpLen, `nowR, `nowJ, `prevIndex
      ensures var p := LowPass(old(Lp()), old(lowpassed[..lpLen]), downsample);
              Lp() == p.0 && lpLen == |p.1| <= lowpassed.Length && lowpassed[..lpLen] == p.1
    {
      hide LowPassStep, LowPass;
      ghost var all, st, len := lowpassed[..], Lp(), lpLen;
      ghost var x := all[..len];
      LowPassNone(st, x, downsample);
      var i, i2 := 0, 0;
      while i < lpLen
        invariant 0 <= i2 <= i <= lpLen && i % 2 == 0 && lpLen == len <= lowpassed.Length
        invariant lowpassed[i..] == all[i..]
        invariant Lp() == LowPass(st, x[..i], downsample).0 && lowpassed[..i2] == LowPass(st, x[..i], downsample).1
      {
        LowPassPair(st, x, i, downsample);
        assert lowpassed[i] == lowpassed[i..][0] == all[i] == x[i];
        assert lowpassed[i + 1] == lowpassed[i..][1] == all[i + 1] == x[i + 1];
        assert lowpassed[i + 2..] == lowpassed[i..][2..] == all[i + 2..];
        i2 := SumPair(i, i2);
        i := i + 2;
      }
      assert x[..lpLen] == x;
      lpLen := i2;
    }

    /** The body of its loop: sums the pair at i, and stores the sums at i2 when there are enough. */
    method SumPair(i: nat, i2: nat) returns (next: nat)
      requires i2 <= i && i + 2 <= lowpassed.Length
      modifies lowpassed, `nowR, `nowJ, `prevIndex
      ensures var step := LowPassStep(old(Lp()), old(lowpassed[i]), old(lowpassed[i + 1]), downsample);
              Lp() == step.0 && next == i2 + |step.1| <= i + 2 && lowpassed[..next] == old(lowpassed[..i2]) + step.1
      ensures lowpassed[i + 2..] == old(lowpassed[i + 2..])
    {
      nowR := nowR + lowpassed[i];
      nowJ := nowJ + lowpassed[i + 1];
      prevIndex := prevIndex + 1;
      if prevIndex < downsample { return i2; }
      lowpassed[i2] := Wrap16(nowR);
      lowpassed[i2 + 1] := Wrap16(nowJ);
      prevIndex := 0;
      nowR := 0;
      nowJ := 0;
      next := i2 + 2;
    }

    /**
     low_pass_real, for 0 < rate_out2, which its caller checks. It divides by zero on its first
     sample exactly when rate_out2 is above rate_out.
     */
    method LowPassRealInPlace() returns (dividesByZero: bool)
      requires resultLen <= result.Length && 0 < rateOut2
      modifies result, `resultLen, `nowLpr, `prevLprIndex
      ensures Rates(rateOut, rateOut2) ==> !dividesByZero
      ensures Rates(rateOut, rateOut2) ==>
                var p := LowPassReal(old(Lpr()), old(result[..resultLen]), rateOut, rateOut2);
                Lpr() == p.0 && resultLen == |p.1| <= result.Length && result[..resultLen] == p.1
      ensures !Rates(rateOut, rateOut2) && old(prevLprIndex) >= 0 && old(resultLen) > 0 ==> dividesByZero
    {
      ghost var x, st, len := result[..resultLen], Lpr(), resultLen;
      ghost var rates := Rates(rateOut, rateOut2);
      assert x[..0] == [] && (rates ==> LowPassReal(st, [], rateOut, rateOut2) == (st, []));
      hide *;
      dividesByZero := false;
      var i, i2 := 0, 0;
      while i < resultLen
        invariant 0 <= i2 <= i <= resultLen && resultLen == len == |x| <= result.Length
        invariant result[i..resultLen] == x[i..]
        invariant rates ==> (Lpr(), result[..i2]) == LowPassReal(st, x[..i], rateOut, rateOut2)
        invariant !rates && st.index >= 0 ==> i == 0 && prevLprIndex == st.index
      {
        assert result[i] == result[i..resultLen][0] == x[i];
        assert x[i + 1..] == x[i..][1..] == result[i + 1..resultLen];
        if rates { LowPassRealNext(st, x, i, rateOut, rateOut2); }
        i2, dividesByZero := SumSample(i, i2);
        if dividesByZero { return; }
        i := i + 1;
      }
      assert x[..resultLen] == x;
      resultLen := i2;
    }

    /** The body of its loop: sums sample i, and stores the scaled sum at i2 when it is due. */
    method SumSample(i: nat, i2: nat) returns (next: nat, dividesByZero: bool)
      requires i2 <= i < resultLen <= result.Length && 0 < rateOut2
      modifies result, `nowLpr, `prevLprIndex
      ensures i2 <= next <= i + 1 && result[i + 1..resultLen] == old(result[i + 1..resultLen])
      ensures Rates(rateOut, rateOut2) ==> !dividesByZero
      ensures Rates(rateOut, rateOut2) ==>
                var step := LowPassRealStep(old(Lpr()), old(result[i]), rateOut, rateOut2);
                Lpr() == step.0 && next == i2 + |step.1| <= i + 1 && result[..next] == old(result[..i2]) + step.1
      ensures !Rates(rateOut, rateOut2) && old(prevLprIndex) >= 0 ==> dividesByZero
    {
      GainIsZero(rateOut, rateOut2);
      hide Wrap16, Truncated, Quotient;
      nowLpr := nowLpr + result[i];
      prevLprIndex := prevLprIndex + rateOut2;
      if prevLprIndex < rateOut { return i2, false; }
      var gain := Quotient(rateOut, rateOut2);
      if gain == 0 { return i2, true; }
      result[i2] := Wrap16(Truncated(nowLpr, gain));
      prevLprIndex := prevLprIndex - rateOut;
      nowLpr := 0;
      return i2 + 1, false;
    }
  }

  /** generic_fir: every other sample of data is replaced, the history shifted along. */
  method GenericFir(data: array<int>, length: nat, fir: seq<int>, hist: array<int>)
    requires data != hist && length <= data.Length && |fir| == 10 && hist.Length == 9
    modifies data, hist
    ensures var n := (length + 1) / 2;
            var p := Filter(old(hist[..]), EveryOther(old(data[..length]), n), fir);
            && hist[..] == p.0 && EveryOther(data[..length], n) == p.1
    ensures forall q :: 0 <= q < data.Length && (q % 2 == 1 || q >= length) ==> data[q] == old(data[q])
  {
    hide Wrap16, Folded, Filter, EveryOther;
    ghost var s, h := data[..length], hist[..];
    FilterNone(h, s, fir);
    var d := 0;
    while d < length
      invariant 0 <= d <= length + 1 && d % 2 == 0
      invariant hist[..] == Filter(h, EveryOther(s, d / 2), fir).0
      invariant forall k :: 0 <= k < d / 2 ==> data[2 * k] == Filter(h, EveryOther(s, d / 2), fir).1[k]
      invariant forall q :: 0 <= q < data.Length && (q % 2 == 1 || q >= d) ==> data[q] == old(data[q])
    {
      ghost var k := d / 2;
      FilterOne(h, s, fir, k);
      FirStep(data, d, fir, hist);
      d := d + 2;
      assert d / 2 == k + 1;
    }
    assert d / 2 == (length + 1) / 2;
    EveryOtherIs(data[..length], (length + 1) / 2, Filter(h, EveryOther(s, d / 2), fir).1);
  }

  method FirStep(data: array<int>, d: nat, fir: seq<int>, hist: array<int>)
    requires data != hist && d < data.Length && |fir| == 10 && hist.Length == 9
    modifies data, hist
    ensures hist[..] == old(hist[1..]) + [old(data[d])]
    ensures data[..] == old(data[..])[d := Wrap16(Folded(old(hist[..]), fir) / 0x8000)]
  {
    var temp := data[d];
    var sum := FirSum(fir, hist);
    data[d] := Wrap16(sum / 0x8000);
    ShiftHistory(hist, temp);
  }

  lemma EveryOtherIs(s: seq<int>, n: nat, out: seq<int>)
    requires 2 * n <= |s| + 1 && |out| == n && forall k :: 0 <= k < n ==> s[2 * k] == out[k]
    ensures EveryOther(s, n) == out
  {
    forall k | 0 <= k < n
      ensures EveryOther(s, n)[k] == out[k]
    {
      EveryOtherAt(s, n, k);
    }
  }

  lemma FilterNone(h: seq<int>, s: seq<int>, fir: seq<int>)
    requires |h| == 9 && |fir| == 10
    ensures Filter(h, EveryOther(s, 0), fir) == (h, [])
  {
  }

  lemma FilterOne(h: seq<int>, s: seq<int>, fir: seq<int>, k: nat)
    requires |h| == 9 && |fir| == 10 && 2 * k < |s|
    ensures var before := Filter(h, EveryOther(s, k), fir);
            Filter(h, EveryOther(s, k + 1), fir) ==
            (before.0[1..] + [s[2 * k]], before.1 + [Wrap16(Folded(before.0, fir) / 0x8000)])
  {
    hide Wrap16, Folded;
    var x := EveryOther(s, k + 1);
    assert x[..|x| - 1] == EveryOther(s, k);
  }

  method FirSum(fir: seq<int>, hist: array<int>) returns (sum: int)
    requires |fir| == 10 && hist.Length == 9
    ensures sum == Folded(hist[..], fir)
  {
    sum := 0;
    sum := sum + (hist[0] + hist[8]) * fir[1];
    sum := sum + (hist[1] + hist[7]) * fir[2];
    sum := sum + (hist[2] + hist[6]) * fir[3];
    sum := sum + (hist[3] + hist[5]) * fir[4];
    sum := sum + hist[4] * fir[5];
  }

  method ShiftFour(hist: array<int>, i: nat)
    requires i + 4 < hist.Length
    modifies hist
    ensures hist[..] == old(hist[..i] + hist[i + 1..i + 5] + hist[i + 4..])
  {
    hide *;
    ghost var h := hist[..];
    hist[i], hist[i + 1], hist[i + 2], hist[i + 3] := hist[i + 1], hist[i + 2], hist[i + 3], hist[i + 4];
    ghost var shifted := h[..i] + h[i + 1..i + 5] + h[i + 4..];
    forall q | 0 <= q < |h|
      ensures hist[..][q] == shifted[q]
    {
      assert hist[q] == if i <= q < i + 4 then h[q + 1] else h[q];
    }
  }

  lemma ShiftedTwice(h: seq<int>)
    requires |h| == 9
    ensures var g := h[..0] + h[1..5] + h[4..]; (g[..4] + g[5..9] + g[8..])[..8] == h[1..]
  {
  }

  method ShiftHistory(hist: array<int>, temp: int)
    requires hist.Length == 9
    modifies hist
    ensures hist[..] == old(hist[1..]) + [temp]
  {
    hide *;
    ghost var h := hist[..];
    ShiftFour(hist, 0);
    ShiftFour(hist, 4);
    ghost var shifted := hist[..];
    ShiftedTwice(h);
    hist[8] := temp;
    assert hist[..] == shifted[..8] + [temp];
  }
}
