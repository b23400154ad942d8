/**
 The two-pass decimating filter of src/downsample.c and the sample accounting of the sending
 thread of src/rtl_hpsdr.c, which hands the filtered samples out in packets. Floats are
 reals; samples are interleaved I/Q values.
 */
module Downsample {
  import opened Collections
  import opened Pow2s

  const RTL_READ_COUNT := 16384
  const DOWNSAMPLE_192 := 8
  const FIRST_TAPS := 16
  const FINAL_HEAD := 64
  const IQ_SAMPLES_LEN := RTL_READ_COUNT + 126

  // ---- the filter

  /** The filter sum over the first `taps` pairs from position `at`, for component 0 (I) or 1 (Q). */
  function Fir(buf: seq<real>, at: nat, component: nat, coeff: seq<real>, taps: nat): real
    requires component < 2 && taps <= |coeff| && at + 2 * taps <= |buf|
  {
    if taps == 0 then 0.0
    else Fir(buf, at, component, coeff, taps - 1) + buf[at + 2 * (taps - 1) + component] * coeff[taps - 1]
  }

  /** The pair computed at position p, I and Q exchanged when `swap`. */
  function FirPair(buf: seq<real>, p: nat, coeff: seq<real>, swap: bool): (pair: seq<real>)
    requires 2 * p + 2 * |coeff| <= |buf|
    ensures |pair| == 2
  {
    var sum1, sum2 := Fir(buf, 2 * p, 0, coeff, |coeff|), Fir(buf, 2 * p, 1, coeff, |coeff|);
    if swap then [sum2, sum1] else [sum1, sum2]
  }

  /** A buffer of zeros but for a one at position q. */
  function Unit(length: nat, q: nat): (buf: seq<real>)
    ensures |buf| == length
  {
    seq(length, i => if i == q then 1.0 else 0.0)
  }

  /** The response to a single sample is the coefficient it meets, in its own component. */
  lemma {:induction false} FirOfUnit(length: nat, q: nat, at: nat, component: nat, coeff: seq<real>, taps: nat)
    requires component < 2 && taps <= |coeff| && at + 2 * taps <= length
    ensures var t := q - at - component;
            Fir(Unit(length, q), at, component, coeff, taps) ==
            if t >= 0 && t % 2 == 0 && t / 2 < taps then coeff[t / 2] else 0.0
  {
    if taps > 0 { FirOfUnit(length, q, at, component, coeff, taps - 1); }
  }

  /** a*x + b*y, sample by sample. */
  function Combination(a: real, x: seq<real>, b: real, y: seq<real>): (z: seq<real>)
    requires |x| == |y|
    ensures |z| == |x|
  {
    seq(|x|, i requires 0 <= i < |x| => a * x[i] + b * y[i])
  }

  /** The filter is linear, so its responses to single samples determine it. */
  lemma {:induction false} FirIsLinear(a: real, x: seq<real>, b: real, y: seq<real>, at: nat, component: nat,
                                       coeff: seq<real>, taps: nat)
    requires |x| == |y| && component < 2 && taps <= |coeff| && at + 2 * taps <= |x|
    ensures Fir(Combination(a, x, b, y), at, component, coeff, taps) ==
            a * Fir(x, at, component, coeff, taps) + b * Fir(y, at, component, coeff, taps)
  {
    if taps > 0 {
      FirIsLinear(a, x, b, y, at, component, coeff, taps - 1);
      var q := at + 2 * (taps - 1) + component;
      Distributes(a, x[q], b, y[q], coeff[taps - 1]);
      Distributes(Fir(x, at, component, coeff, taps - 1), a, x[q] * coeff[taps - 1], a, 1.0);
      Distributes(Fir(y, at, component, coeff, taps - 1), b, y[q] * coeff[taps - 1], b, 1.0);
    }
  }

  lemma Distributes(a: real, x: real, b: real, y: real, c: real)
    ensures (a * x + b * y) * c == a * (x * c) + b * (y * c)
    ensures a * x == x * a && b * y == y * b
  {
  }

  /** Of a sample t pairs behind position p, the pair holds the coefficient t: at the other place when swapped. */
  lemma PairOfUnit(length: nat, p: nat, t: nat, component: nat, coeff: seq<real>, swap: bool)
    requires 2 * p + 2 * |coeff| <= length && t < |coeff| && component < 2
    ensures var pair := FirPair(Unit(length, 2 * (p + t) + component), p, coeff, swap);
            var place := if swap then 1 - component else component;
            pair[place] == coeff[t] && pair[1 - place] == 0.0
  {
    FirOfUnit(length, 2 * (p + t) + component, 2 * p, component, coeff, |coeff|);
    FirOfUnit(length, 2 * (p + t) + component, 2 * p, 1 - component, coeff, |coeff|);
    hide Fir, Unit;
  }

  /** What the first p positions leave in the output: one pair for every dsample-th of them. */
  function Kept(buf: seq<real>, p: nat, coeff: seq<real>, swap: bool, dsample: nat): (out: seq<real>)
    requires dsample > 0 && 2 * p + 2 * |coeff| <= |buf| + 2
    ensures |out| == 2 * Quotient(p, dsample)
    decreases p
  {
    if p == 0 then QuotientOfZero(dsample); []
    else
      QuotientStep(p, dsample);
      Kept(buf, p - 1, coeff, swap, dsample) +
      if Remainder(p, dsample) == 0 then FirPair(buf, p - 1, coeff, swap) else []
  }

  lemma QuotientOfZero(d: nat)
    requires d > 0
    ensures Quotient(0, d) == 0
  {
  }

  lemma QuotientStep(p: nat, d: nat)
    requires d > 0 && p > 0
    ensures Quotient(p, d) == Quotient(p - 1, d) + (if Remainder(p, d) == 0 then 1 else 0)
  {
    DivModDef(p, d);
    var q, r := p / d, p % d;
    if r == 0 {
      MulSub(d, q, 1);
      DivModUnique(p - 1, d, q - 1, d - 1);
    } else {
      DivModUnique(p - 1, d, q, r - 1);
    }
  }

  /** Output pair n is the filter sum of the last of dsample positions: the others are thrown away. */
  lemma {:induction false} KeptAt(buf: seq<real>, p: nat, coeff: seq<real>, swap: bool, dsample: nat, n: nat)
    requires dsample > 0 && 2 * p + 2 * |coeff| <= |buf| + 2 && n < Quotient(p, dsample)
    ensures 0 < (n + 1) * dsample <= p
    ensures Kept(buf, p, coeff, swap, dsample)[2 * n..2 * n + 2] == FirPair(buf, (n + 1) * dsample - 1, coeff, swap)
    decreases p
  {
    hide FirPair, Quotient, Remainder;
    MultipleWithin(n, p, dsample);
    if p == 0 {
      QuotientOfZero(dsample);
    } else {
      QuotientStep(p, dsample);
      if n < Quotient(p - 1, dsample) {
        KeptAt(buf, p - 1, coeff, swap, dsample, n);
        var k := Kept(buf, p - 1, coeff, swap, dsample);
        assert Kept(buf, p, coeff, swap, dsample)[2 * n..2 * n + 2] == k[2 * n..2 * n + 2];
      }
    }
  }

  lemma MultipleWithin(n: nat, p: nat, d: nat)
    requires d > 0 && n < Quotient(p, d)
    ensures 0 < (n + 1) * d <= p
    ensures n + 1 == Quotient(p, d) && Remainder(p, d) == 0 ==> (n + 1) * d == p
  {
    var q := p / d;
    DivModDef(p, d);
    MulNonneg(q - (n + 1), d);
    MulSub(d, q, n + 1);
    MulNonneg(n, d);
    MulAdd(d, n, 1);
  }

  lemma OverlayStep(o: seq<real>, at: nat, k: seq<real>, x: real, y: real)
    requires at + |k| + 2 <= |o|
    ensures Overlay(o, at, k)[at + |k| := x][at + |k| + 1 := y] == Overlay(o, at, k + [x, y])
  {
  }

  /** The loop of down_loop: `count` floats of buf are filtered into out, and the tail of buf moved to its front. */
  method FilterLoop(buf: array<real>, out: array<real>, outStart: nat, count: nat, coeff: seq<real>, dsample: nat,
                    swap: bool)
    requires buf != out && dsample > 0 && count % 2 == 0
    requires 2 * |coeff| <= count <= buf.Length && count + 2 * |coeff| <= buf.Length + 2
    requires outStart + 2 * Quotient(count / 2, dsample) <= out.Length
    modifies buf, out
    ensures out[..] == Overlay(old(out[..]), outStart, Kept(old(buf[..]), count / 2, coeff, swap, dsample))
    ensures buf[..] == old(buf[count - 2 * |coeff|..count]) + old(buf[2 * |coeff|..])
  {
    hide Kept, Quotient, Remainder, Overlay, Fir;
    ghost var b, o := buf[..], out[..];
    var j, k := 0, 0;
    KeptNothing(b, o, outStart, coeff, swap, dsample);
    while j < count
      invariant 0 <= j <= count && j % 2 == 0
      invariant k == 2 * Quotient(j / 2, dsample) && k == |Kept(b, j / 2, coeff, swap, dsample)| &&
                outStart + k <= out.Length
      invariant buf[..] == b
      invariant out[..] == Overlay(o, outStart, Kept(b, j / 2, coeff, swap, dsample))
    {
      var sum1, sum2 := FilterSums(buf, j, coeff);
      ghost var p := j / 2 + 1;
      assert (j + 2) / 2 == p;
      KeptStep(b, p, coeff, swap, dsample);
      QuotientMonotone(p, count / 2, dsample);
      if Remainder((j + 2) / 2, dsample) == 0 {
        OverlayStep(o, outStart, Kept(b, j / 2, coeff, swap, dsample),
                    if swap then sum2 else sum1, if swap then sum1 else sum2);
        out[outStart + k] := if swap then sum2 else sum1;
        out[outStart + k + 1] := if swap then sum1 else sum2;
        k := k + 2;
      }
      j := j + 2;
      assert j / 2 == p;
    }
    MoveTail(buf, count, |coeff|);
  }

  lemma KeptNothing(b: seq<real>, o: seq<real>, at: nat, coeff: seq<real>, swap: bool, dsample: nat)
    requires dsample > 0 && 2 * |coeff| <= |b| + 2 && at <= |o|
    ensures Quotient(0, dsample) == 0 && Kept(b, 0, coeff, swap, dsample) == []
    ensures Overlay(o, at, []) == o
  {
    QuotientOfZero(dsample);
  }

  lemma KeptStep(b: seq<real>, p: nat, coeff: seq<real>, swap: bool, dsample: nat)
    requires dsample > 0 && p > 0 && 2 * p + 2 * |coeff| <= |b| + 2
    ensures Quotient(p, dsample) == Quotient(p - 1, dsample) + (if Remainder(p, dsample) == 0 then 1 else 0)
    ensures var sum1, sum2 := Fir(b, 2 * p - 2, 0, coeff, |coeff|), Fir(b, 2 * p - 2, 1, coeff, |coeff|);
            Kept(b, p, coeff, swap, dsample) ==
              if Remainder(p, dsample) != 0 then Kept(b, p - 1, coeff, swap, dsample)
              else Kept(b, p - 1, coeff, swap, dsample) + [if swap then sum2 else sum1, if swap then sum1 else sum2]
  {
    hide Fir;
    QuotientStep(p, dsample);
  }

  lemma QuotientMonotone(a: nat, b: nat, d: nat)
    requires a <= b && d > 0
    ensures Quotient(a, d) <= Quotient(b, d)
  {
    DivModDef(a, d);
    DivModDef(b, d);
    var qa, qb := a / d, b / d;
    if qa > qb {
      MulNonneg(qa - qb - 1, d);
      MulSub(d, qa, qb);
      MulSub(d, qa - qb, 1);
    }
  }

  method FilterSums(buf: array<real>, j: nat, coeff: seq<real>) returns (sum1: real, sum2: real)
    requires j + 2 * |coeff| <= buf.Length
    ensures sum1 == Fir(buf[..], j, 0, coeff, |coeff|) && sum2 == Fir(buf[..], j, 1, coeff, |coeff|)
  {
    sum1, sum2 := 0.0, 0.0;
    var src := j;
    for i := 0 to |coeff|
      invariant src == j + 2 * i
      invariant sum1 == Fir(buf[..], j, 0, coeff, i) && sum2 == Fir(buf[..], j, 1, coeff, i)
    {
      sum1 := sum1 + buf[src] * coeff[i];
      sum2 := sum2 + buf[src + 1] * coeff[i];
      src := src + 2;
    }
  }

  /** memmove of the last coeffLen pairs before `count` to the front. */
  method MoveTail(buf: array<real>, count: nat, coeffLen: nat)
    requires 2 * coeffLen <= count <= buf.Length
    modifies buf
    ensures buf[..] == old(buf[count - 2 * coeffLen..count]) + old(buf[2 * coeffLen..])
  {
    forall i | 0 <= i < 2 * coeffLen {
      buf[i] := buf[count - 2 * coeffLen + i];
    }
  }

  // ---- rates

  predicate KnownRate(rate: nat) {
    rate == 48000 || rate == 96000 || rate == 192000 || rate == 384000
  }

  /** dsample of the second pass. */
  function Decimation(rate: nat): nat
    requires KnownRate(rate)
  {
    if rate == 48000 then DOWNSAMPLE_192 * 2
    else if rate == 96000 then DOWNSAMPLE_192
    else if rate == 192000 then DOWNSAMPLE_192 / 2
    else DOWNSAMPLE_192 / 4
  }

  /** What the sending thread adds to iqSamples_remaining per block. */
  function SamplesAdded(rate: nat): nat
    requires KnownRate(rate)
  {
    if rate == 48000 then RTL_READ_COUNT / (DOWNSAMPLE_192 * 8)
    else if rate == 96000 then RTL_READ_COUNT / (DOWNSAMPLE_192 * 4)
    else if rate == 192000 then RTL_READ_COUNT / (DOWNSAMPLE_192 * 2)
    else RTL_READ_COUNT / DOWNSAMPLE_192
  }

  /** Both passes together make the rate out of the 192000 * DOWNSAMPLE_192 samples a second of the dongle. */
  lemma PassesGiveRate(rate: nat)
    requires KnownRate(rate)
    ensures rate * (2 * Decimation(rate)) == 192000 * DOWNSAMPLE_192
  {
  }

  lemma DecimatedCount(rate: nat)
    requires KnownRate(rate)
    ensures Quotient(RTL_READ_COUNT / 4, Decimation(rate)) == SamplesAdded(rate) <= 2048
  {
  }

  /** At every rate the filter writes exactly as many samples as the thread accounts for. */
  lemma WrittenIsAdded(rate: nat, buf: seq<real>, coeff: seq<real>)
    requires KnownRate(rate) && RTL_READ_COUNT / 2 + 2 * |coeff| <= |buf| + 2
    ensures |Kept(buf, RTL_READ_COUNT / 4, coeff, false, Decimation(rate))| == 2 * SamplesAdded(rate)
    ensures SamplesAdded(rate) <= 2048
  {
    DecimatedCount(rate);
  }

  // ---- packets

  /** The packets handed out of the pending samples while more than one packet is left. */
  function Dealt(pending: seq<real>, samps: nat): (packets: seq<seq<real>>)
    requires samps > 0
    ensures forall i :: 0 <= i < |packets| ==> |packets[i]| == 2 * samps
  {
    if |pending| <= 2 * samps then [] else [pending[..2 * samps]] + Dealt(pending[2 * samps..], samps)
  }

  function Left(pending: seq<real>, samps: nat): (rest: seq<real>)
    requires samps > 0
    ensures |rest| <= 2 * samps && (pending != [] ==> rest != [])
    ensures |pending| % 2 == 0 ==> |rest| % 2 == 0
  {
    if |pending| <= 2 * samps then pending else Left(pending[2 * samps..], samps)
  }

  lemma DealStep(pending: seq<real>, samps: nat)
    requires samps > 0 && |pending| > 2 * samps
    ensures Dealt(pending, samps) == [pending[..2 * samps]] + Dealt(pending[2 * samps..], samps)
    ensures Left(pending, samps) == Left(pending[2 * samps..], samps)
  {
  }

  lemma DealEnd(pending: seq<real>, samps: nat)
    requires samps > 0 && |pending| <= 2 * samps
    ensures Dealt(pending, samps) == [] && Left(pending, samps) == pending
  {
  }

  lemma {:induction false} DealtAndLeft(pending: seq<real>, samps: nat)
    requires samps > 0
    ensures Concat(Dealt(pending, samps)) + Left(pending, samps) == pending
  {
    if |pending| > 2 * samps {
      var d := Dealt(pending[2 * samps..], samps);
      DealtAndLeft(pending[2 * samps..], samps);
      assert ([pending[..2 * samps]] + d)[1..] == d;
      assert pending == pending[..2 * samps] + pending[2 * samps..];
    }
  }

  /** Packets of a whole run of blocks, and what is left at its end. */
  function RunPackets(blocks: seq<seq<real>>, samps: nat): seq<seq<real>>
    requires samps > 0
  {
    if blocks == [] then []
    else
      var n := |blocks| - 1;
      RunPackets(blocks[..n], samps) + Dealt(RunLeft(blocks[..n], samps) + blocks[n], samps)
  }

  function RunLeft(blocks: seq<seq<real>>, samps: nat): seq<real>
    requires samps > 0
  {
    if blocks == [] then []
    else
      var n := |blocks| - 1;
      Left(RunLeft(blocks[..n], samps) + blocks[n], samps)
  }

  /** Over any run nothing is lost, repeated or reordered. */
  lemma {:induction false} RunConserves(blocks: seq<seq<real>>, samps: nat)
    requires samps > 0
    ensures Concat(RunPackets(blocks, samps)) + RunLeft(blocks, samps) == Concat(blocks)
  {
    if blocks != [] {
      hide Dealt, Left;
      var n := |blocks| - 1;
      RunConserves(blocks[..n], samps);
      BlockConserves(RunPackets(blocks[..n], samps), RunLeft(blocks[..n], samps), Concat(blocks[..n]), blocks[n],
                     samps);
      ConcatOne(blocks[..n], blocks[n]);
      assert blocks[..n] + [blocks[n]] == blocks;
    }
  }

  lemma BlockConserves(packets: seq<seq<real>>, left: seq<real>, all: seq<real>, block: seq<real>, samps: nat)
    requires samps > 0 && Concat(packets) + left == all
    ensures Concat(packets + Dealt(left + block, samps)) + Left(left + block, samps) == all + block
  {
    hide Dealt, Left, Concat;
    DealtAndLeft(left + block, samps);
    ConcatAppend(packets, Dealt(left + block, samps));
    Reassociate(Concat(packets), Concat(Dealt(left + block, samps)), Left(left + block, samps));
    Reassociate(Concat(packets), left, block);
  }

  /** A receiver's buffers and counters. */
  class Receiver {
    const iqBuf: array<real>
    const iqBufFinal: array<real>
    const iqSamples: array<real>
    var iqSampleOffset: nat
    var iqSamplesRemaining: nat

    /** What holds between blocks, for packets of samps samples and a filter of lengthFir taps. */
    ghost predicate Valid(samps: nat, lengthFir: nat)
      reads this
    {
      && iqBuf != iqBufFinal && iqBufFinal != iqSamples && iqBuf != iqSamples
      && iqBuf.Length == RTL_READ_COUNT + 2 * FIRST_TAPS
      && iqBufFinal.Length == RTL_READ_COUNT / 2 + 2 * lengthFir
      && iqSamples.Length == IQ_SAMPLES_LEN
      && (lengthFir == 32 || lengthFir == 64) && 1 <= samps <= 126
      && iqSampleOffset == 0 && iqSamplesRemaining <= samps
    }

    /** Samples filtered but not yet handed out. */
    ghost function Pending(): seq<real>
      requires 2 * (iqSampleOffset + iqSamplesRemaining) <= iqSamples.Length
      reads this, iqSamples
    {
      iqSamples[2 * iqSampleOffset..2 * (iqSampleOffset + iqSamplesRemaining)]
    }

    constructor (lengthFir: nat, samps: nat)
      requires (lengthFir == 32 || lengthFir == 64) && 1 <= samps <= 126
      ensures Valid(samps, lengthFir) && Pending() == []
      ensures fresh(iqBuf) && fresh(iqBufFinal) && fresh(iqSamples)
    {
      iqBuf := new real[RTL_READ_COUNT + 2 * FIRST_TAPS];
      iqBufFinal := new real[RTL_READ_COUNT / 2 + 2 * lengthFir];
      iqSamples := new real[IQ_SAMPLES_LEN];
      iqSampleOffset, iqSamplesRemaining := 0, 0;
    }

    /** Both passes: fresh samples are appended to the pending ones. */
    method DownLoops(rate: nat, samps: nat, first: seq<real>, second: seq<real>) returns (ghost written: seq<real>)
      requires KnownRate(rate) && |first| == FIRST_TAPS && Valid(samps, |second|)
      modifies iqBuf, iqBufFinal, iqSamples
      ensures |written| == 2 * SamplesAdded(rate)
      ensures var halved := Kept(old(iqBuf[..]), RTL_READ_COUNT / 2, first, true, 2);
              && FINAL_HEAD + |halved| <= iqBufFinal.Length
              && written == Kept(Overlay(old(iqBufFinal[..]), FINAL_HEAD, halved), RTL_READ_COUNT / 4, second, false,
                                 Decimation(rate))
      ensures iqSamples[..2 * iqSamplesRemaining] == old(iqSamples[..2 * iqSamplesRemaining])
      ensures iqSamples[2 * iqSamplesRemaining..2 * (iqSamplesRemaining + SamplesAdded(rate))] == written
    {
      hide Kept;
      assert Quotient(RTL_READ_COUNT / 2, 2) == RTL_READ_COUNT / 4;
      DecimatedCount(rate);
      FilterLoop(iqBuf, iqBufFinal, FINAL_HEAD, RTL_READ_COUNT, first, 2, true);
      WrittenIsAdded(rate, iqBufFinal[..], second);
      written := Kept(iqBufFinal[..], RTL_READ_COUNT / 4, second, false, Decimation(rate));
      FilterLoop(iqBufFinal, iqSamples, 2 * iqSamplesRemaining, RTL_READ_COUNT / 2, second, Decimation(rate), false);
    }

    /** One turn of the sending thread: filter a block, hand out packets, keep the rest at the front. */
    method TakeBlock(rate: nat, samps: nat, first: seq<real>, second: seq<real>)
      returns (packets: seq<seq<real>>, ghost written: seq<real>)
      requires KnownRate(rate) && |first| == FIRST_TAPS && Valid(samps, |second|)
      modifies this, iqBuf, iqBufFinal, iqSamples
      ensures Valid(samps, |second|) && |written| == 2 * SamplesAdded(rate)
      ensures packets == Dealt(old(Pending()) + written, samps)
      ensures Pending() == Left(old(Pending()) + written, samps)
    {
      hide Dealt, Left, Kept;
      DecimatedCount(rate);
      hide SamplesAdded;
      written := DownLoops(rate, samps, first, second);
      ghost var pending := Pending() + written;
      iqSamplesRemaining := iqSamplesRemaining + SamplesAdded(rate);
      assert Pending() == pending;
      packets := HandOut(samps);
      Compact(samps);
    }

    /** The packets of one turn. */
    method HandOut(samps: nat) returns (packets: seq<seq<real>>)
      requires samps > 0 && iqSampleOffset == 0 && 0 < iqSamplesRemaining && 2 * iqSamplesRemaining <= iqSamples.Length
      modifies this
      ensures 2 * (iqSampleOffset + iqSamplesRemaining) <= iqSamples.Length && 0 < iqSamplesRemaining <= samps
      ensures iqSampleOffset > 0 ==> iqSampleOffset >= samps
      ensures packets == Dealt(old(Pending()), samps) && Pending() == Left(old(Pending()), samps)
    {
      hide Dealt, Left;
      ghost var pending := Pending();
      packets := [];
      assert packets + Dealt(pending, samps) == Dealt(pending, samps);
      while iqSamplesRemaining > samps
        invariant 2 * (iqSampleOffset + iqSamplesRemaining) <= iqSamples.Length
        invariant iqSamplesRemaining > 0 && (iqSampleOffset > 0 ==> iqSampleOffset >= samps)
        invariant packets + Dealt(Pending(), samps) == Dealt(pending, samps)
        invariant Left(Pending(), samps) == Left(pending, samps)
      {
        ghost var before, dealt := Pending(), packets;
        var packet := NextPacket(samps);
        packets := packets + [packet];
        DealStep(before, samps);
        Reassociate(dealt, [packet], Dealt(Pending(), samps));
      }
      DealEnd(Pending(), samps);
      assert packets + [] == packets;
    }

    /** load_packet takes one packet, and the counters move on. */
    method NextPacket(samps: nat) returns (packet: seq<real>)
      requires iqSamplesRemaining > samps && 2 * (iqSampleOffset + iqSamplesRemaining) <= iqSamples.Length
      modifies `iqSampleOffset, `iqSamplesRemaining
      ensures iqSampleOffset == old(iqSampleOffset) + samps && iqSamplesRemaining == old(iqSamplesRemaining) - samps
      ensures packet == old(Pending())[..2 * samps] && Pending() == old(Pending())[2 * samps..]
    {
      packet := iqSamples[2 * iqSampleOffset..2 * (iqSampleOffset + samps)];
      ghost var pending := Pending();
      assert packet == pending[..2 * samps];
      iqSamplesRemaining := iqSamplesRemaining - samps;
      iqSampleOffset := iqSampleOffset + samps;
      assert Pending() == pending[2 * samps..];
    }

    /** memcpy of the remaining samples to the front; its two regions never overlap. */
    method Compact(samps: nat)
      requires 2 * (iqSampleOffset + iqSamplesRemaining) <= iqSamples.Length && 0 < iqSamplesRemaining <= samps
      requires iqSampleOffset > 0 ==> iqSampleOffset >= samps
      modifies this, iqSamples
      ensures iqSampleOffset == 0 && iqSamplesRemaining == old(iqSamplesRemaining) &&
              2 * iqSamplesRemaining <= iqSamples.Length
      ensures Pending() == old(Pending())
    {
      if iqSampleOffset > 0 && iqSamplesRemaining > 0 {
        assert 2 * iqSamplesRemaining <= 2 * iqSampleOffset;
        forall i | 0 <= i < 2 * iqSamplesRemaining {
          iqSamples[i] := iqSamples[2 * iqSampleOffset + i];
        }
        iqSampleOffset := 0;
      }
    }
  }
}
