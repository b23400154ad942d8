/**
 Tuning and direct sampling in src/librtlsdr.c: `rtlsdr_set_center_freq` and
 `_rtlsdr_set_direct_sampling` call each other. Every access to the tuner or a register is an
 operation of the hardware with an arbitrary result; return codes are 32-bit words, because
 the program combines them with `|=`.
 */
module Tuning {

  type Code = bv32

  datatype TunerType = E4000 | FC0012 | FC0013 | FC2580 | R820T | R828D | Unknown

  /** The operations a tuner driver may offer. */
  datatype Driver = Driver(hasInit: bool, hasExit: bool, hasSetFreq: bool)

  const SWITCH_FREQ := 24000000

  /** Direct sampling mode 2 below 24 MHz, on an R820T only. */
  function Auto(tunerType: TunerType, freq: nat): int {
    if freq < SWITCH_FREQ && tunerType == R820T then 2 else 0
  }

  /** Tunes that can still be nested in one that starts in this state. */
  function NestedTunes(tunerType: TunerType, mode: int, directSampling: int, freq: nat): nat {
    if directSampling < 0 || mode != 0 || directSampling == Auto(tunerType, freq) then 0
    else if freq == 0 then 1
    else 2
  }

  // ---- what the calls do to the state

  /** What does not change: the tuner, its driver, and the result of the n-th hardware operation. */
  datatype Setup = Setup(tunerType: TunerType, tuner: Driver, hasTuner: bool, results: nat -> Code)

  datatype State = State(operations: nat, mode: int, directSampling: int, freq: nat)

  /** The results of `count` operations combined into r0. */
  function Combined(results: nat -> Code, from: nat, count: nat, r0: Code): Code {
    if count == 0 then r0 else Combined(results, from, count - 1, r0) | results(from + count - 1)
  }

  /** rtlsdr_set_center_freq: the new state, the return code, and the tunes nested, this one included. */
  function Tune(u: Setup, s: State, newFreq: nat): (State, Code, nat)
    decreases NestedTunes(u.tunerType, s.mode, s.directSampling, newFreq), 1
  {
    if !u.hasTuner then (s, 0xFFFF_FFFF, 1)
    else if s.directSampling < 0 then (s, 1, 1)
    else
      var ds := if s.mode == 0 then Auto(u.tunerType, newFreq) else s.directSampling;
      var tunes := ds != 0 || u.tuner.hasSetFreq;
      var r: Code := if tunes then u.results(s.operations + 1) else 0xFFFF_FFFF;
      var t := State(if tunes then s.operations + 2 else s.operations, s.mode, ds, if r == 0 then newFreq else 0);
      if ds == s.directSampling then (t, r, 1)
      else
        var nested := Sample(u, t, ds);
        (nested.0, nested.1, 1 + nested.2)
  }

  /** _rtlsdr_set_direct_sampling up to its tune. */
  function Switched(u: Setup, s: State, on: int): (State, Code) {
    var switches := u.hasTuner && (if on != 0 then u.tuner.hasExit else u.tuner.hasInit);
    var r0: Code := if switches then u.results(s.operations + 1) else 0;
    var n := if switches then s.operations + 3 else s.operations;
    var count := if on == 0 && (u.tunerType == R820T || u.tunerType == R828D) then 3 else 4;
    (s.(operations := n + count, directSampling := on), Combined(u.results, n, count, r0))
  }

  function Sample(u: Setup, s: State, on: int): (State, Code, nat)
    decreases NestedTunes(u.tunerType, s.mode, on, s.freq), 2
  {
    var switched := Switched(u, s, on);
    var tuned := Tune(u, switched.0, s.freq);
    (tuned.0, switched.1 | tuned.1, tuned.2)
  }

  /**
   An instance that needs all three: an R820T in sampling mode 2 is asked for 100 MHz, and only
   its first attempt to tune fails. The call returns 0 although the recorded frequency is 0.
   */
  lemma ThreeTunes()
    ensures var u := Setup(R820T, Driver(true, true, true), true, n => if n == 1 then 1 else 0);
            Tune(u, State(0, 0, 2, 50000000), 100000000) == (State(19, 0, 2, 0), 0, 3)
  {
    var u := Setup(R820T, Driver(true, true, true), true, n => if n == 1 then 1 else 0);
    AllSucceed(u.results, 13, 4, 0);
    AllSucceed(u.results, 5, 3, 0);
    hide Combined;
    assert Switched(u, State(10, 0, 2, 0), 2) == (State(17, 0, 2, 0), 0);
    assert Switched(u, State(2, 0, 0, 0), 0) == (State(8, 0, 0, 0), 0);
    hide Switched;
    assert Tune(u, State(17, 0, 2, 0), 0) == (State(19, 0, 2, 0), 0, 1);
    assert Sample(u, State(10, 0, 2, 0), 2) == (State(19, 0, 2, 0), 0, 1);
    assert Tune(u, State(8, 0, 0, 0), 0) == (State(19, 0, 2, 0), 0, 2);
    assert Sample(u, State(2, 0, 0, 0), 0) == (State(19, 0, 2, 0), 0, 2);
  }

  lemma {:induction false} AllSucceed(results: nat -> Code, from: nat, count: nat, r0: Code)
    requires forall i: nat :: from <= i < from + count ==> results(i) == 0
    ensures Combined(results, from, count, r0) == r0
  {
    if count > 0 { AllSucceed(results, from, count - 1, r0); }
  }

  /** Combined codes are 0 exactly when all of them are. */
  lemma {:induction false} CombinedIsZero(results: nat -> Code, from: nat, count: nat, r0: Code)
    ensures Combined(results, from, count, r0) == 0 <==>
            r0 == 0 && forall i: nat :: from <= i < from + count ==> results(i) == 0
  {
    if count > 0 {
      CombinedIsZero(results, from, count - 1, r0);
      BothZero(Combined(results, from, count - 1, r0), results(from + count - 1));
    }
  }

  lemma BothZero(r: Code, q: Code)
    ensures r | q == 0 <==> r == 0 && q == 0
  {
  }

  /** The operation of the tuner driver that a switch to this mode calls, between two of the repeater. */
  predicate CallsTuner(u: Setup, on: int) {
    u.hasTuner && (if on == 0 then u.tuner.hasInit else u.tuner.hasExit)
  }

  /** Four writes, but three for the R820T and R828D back to the tuner. */
  function WriteCount(u: Setup, on: int): nat {
    if on == 0 && u.tunerType in {R820T, R828D} then 3 else 4
  }

  /** The tuner's own call, every write of the switch, and the tune after it succeed. */
  predicate SampleSucceeds(u: Setup, s: State, on: int) {
    var n := s.operations + if CallsTuner(u, on) then 3 else 0;
    && (CallsTuner(u, on) ==> u.results(s.operations + 1) == 0)
    && (forall i: nat :: n <= i < n + WriteCount(u, on) ==> u.results(i) == 0)
    && Tune(u, State(n + WriteCount(u, on), s.mode, on, s.freq), s.freq).1 == 0
  }

  /** A switch of the sampling mode returns 0 exactly then: no failure is lost. */
  lemma SampleReturnsZero(u: Setup, s: State, on: int)
    ensures Sample(u, s, on).1 == 0 <==> SampleSucceeds(u, s, on)
  {
    var calls := CallsTuner(u, on);
    var r0: Code := if calls then u.results(s.operations + 1) else 0;
    var n := if calls then s.operations + 3 else s.operations;
    CombinedIsZero(u.results, n, WriteCount(u, on), r0);
    hide Combined, Tune;
    var switched := Switched(u, s, on);
    var t := State(n + WriteCount(u, on), s.mode, on, s.freq);
    assert switched == (t, Combined(u.results, n, WriteCount(u, on), r0));
    BothZero(switched.1, Tune(u, t, s.freq).1);
  }

  /**
   A tune without a change of the mode returns the code of its second operation, or -1 without
   one to call; with a change it returns that of the switch, which tunes to the frequency
   recorded by then.
   */
  lemma TuneReturns(u: Setup, s: State, newFreq: nat)
    requires u.hasTuner && s.directSampling >= 0
    ensures var ds := if s.mode != 0 then s.directSampling
                      else if newFreq < 24000000 && u.tunerType == R820T then 2 else 0;
            var tuned := (ds != 0 || u.tuner.hasSetFreq) && u.results(s.operations + 1) == 0;
            var t := State(s.operations + (if ds != 0 || u.tuner.hasSetFreq then 2 else 0), s.mode, ds,
                           if tuned then newFreq else 0);
            if ds == s.directSampling
            then Tune(u, s, newFreq).0 == t && (Tune(u, s, newFreq).1 == 0 <==> tuned)
            else Tune(u, s, newFreq).0 == Sample(u, t, ds).0 &&
                 (Tune(u, s, newFreq).1 == 0 <==> SampleSucceeds(u, t, ds))
  {
    var ds := if s.mode == 0 then Auto(u.tunerType, newFreq) else s.directSampling;
    var tuned := (ds != 0 || u.tuner.hasSetFreq) && u.results(s.operations + 1) == 0;
    var t := State(s.operations + (if ds != 0 || u.tuner.hasSetFreq then 2 else 0), s.mode, ds,
                   if tuned then newFreq else 0);
    SampleReturnsZero(u, t, ds);
    hide Sample, SampleSucceeds;
  }

  // ---- the calls

  class Device {
    const tunerType: TunerType
    const tuner: Driver
    const hasTuner: bool
    /** The result of the n-th hardware operation. */
    const results: nat -> Code
    var operations: nat
    var directSamplingMode: int
    var directSampling: int
    var freq: nat

    constructor (tunerType: TunerType, tuner: Driver, hasTuner: bool, results: nat -> Code)
      ensures this.tunerType == tunerType && this.tuner == tuner && this.hasTuner == hasTuner && this.results == results
      ensures operations == 0 && directSamplingMode == 0 && directSampling == 0 && freq == 0
    {
      this.tunerType, this.tuner, this.hasTuner, this.results := tunerType, tuner, hasTuner, results;
      operations, directSamplingMode, directSampling, freq := 0, 0, 0, 0;
    }

    function Setting(): Setup {
      Setup(tunerType, tuner, hasTuner, results)
    }

    function Now(): State
      reads this
    {
      State(operations, directSamplingMode, directSampling, freq)
    }

    method Hardware() returns (r: Code)
      modifies `operations
      ensures operations == old(operations) + 1 && r == results(old(operations))
    {
      r := results(operations);
      operations := operations + 1;
    }

    /** rtlsdr_set_center_freq; `tunes` counts the tunes, this one included. */
    method SetCenterFreq(newFreq: nat) returns (r: Code, ghost tunes: nat)
      modifies `operations, `directSampling, `freq
      decreases NestedTunes(tunerType, directSamplingMode, directSampling, newFreq), 1
      ensures (Now(), r, tunes) == Tune(Setting(), old(Now()), newFreq)
      ensures 1 <= tunes <= 1 + NestedTunes(tunerType, directSamplingMode, old(directSampling), newFreq) <= 3
      ensures !hasTuner || old(directSampling) < 0 ==>
                r != 0 && directSampling == old(directSampling) && freq == old(freq)
      ensures r == 0 && directSamplingMode == 0 ==> directSampling == Auto(tunerType, freq)
      ensures r == 0 ==>
                freq == newFreq ||
                (freq == 0 && NestedTunes(tunerType, directSamplingMode, old(directSampling), newFreq) > 0)
      ensures hasTuner && old(directSampling) >= 0 ==> freq == newFreq || freq == 0
      ensures directSamplingMode != 0 ==> directSampling == old(directSampling) && tunes == 1
      ensures hasTuner && directSamplingMode == 0 && old(directSampling) >= 0 ==>
                directSampling == Auto(tunerType, newFreq) || directSampling == Auto(tunerType, 0)
    {
      hide Sample, Switched, Combined;
      tunes := 1;
      if !hasTuner {
        return 0xFFFF_FFFF, tunes;
      }
      var lastDs := directSampling;
      if lastDs < 0 {
        return 1, tunes;
      }
      r := TuneOnce(newFreq);
      if lastDs != directSampling {
        ghost var nested;
        r, nested := ApplyDirectSampling(directSampling);
        tunes := tunes + nested;
      }
    }

    /** The choice of the sampling mode, and the attempt to tune. */
    method TuneOnce(newFreq: nat) returns (r: Code)
      modifies `operations, `directSampling, `freq
      ensures directSampling == if directSamplingMode == 0 then Auto(tunerType, newFreq) else old(directSampling)
      ensures var tunes := directSampling != 0 || tuner.hasSetFreq;
              && operations == old(operations) + (if tunes then 2 else 0)
              && r == if tunes then results(old(operations) + 1) else 0xFFFF_FFFF
      ensures freq == if r == 0 then newFreq else 0
    {
      r := 0xFFFF_FFFF;
      if directSamplingMode == 0 {
        directSampling := Auto(tunerType, newFreq);
      }
      if directSampling != 0 {
        var _ := Hardware();
        r := Hardware();
      } else if tuner.hasSetFreq {
        var _ := Hardware();
        r := Hardware();
      }
      freq := if r == 0 then newFreq else 0;
    }

    /** _rtlsdr_set_direct_sampling. */
    method ApplyDirectSampling(on: int) returns (r: Code, ghost tunes: nat)
      modifies `operations, `directSampling, `freq
      decreases NestedTunes(tunerType, directSamplingMode, on, freq), 2
      ensures (Now(), r, tunes) == Sample(Setting(), old(Now()), on)
      ensures r == 0 <==> SampleSucceeds(Setting(), old(Now()), on)
      ensures 1 <= tunes <= 1 + NestedTunes(tunerType, directSamplingMode, on, old(freq)) <= 3
      ensures !hasTuner || on < 0 ==> r != 0 && directSampling == on && freq == old(freq)
      ensures r == 0 && directSamplingMode == 0 ==> directSampling == Auto(tunerType, freq)
      ensures r == 0 ==>
                freq == old(freq) || (freq == 0 && NestedTunes(tunerType, directSamplingMode, on, old(freq)) > 0)
      ensures hasTuner && on >= 0 ==> freq == old(freq) || freq == 0
      ensures directSamplingMode != 0 ==> directSampling == on && tunes == 1
      ensures hasTuner && directSamplingMode == 0 && on >= 0 ==>
                directSampling == Auto(tunerType, old(freq)) || directSampling == Auto(tunerType, 0)
    {
      SampleReturnsZero(Setting(), Now(), on);
      hide Tune, Switched, SampleSucceeds;
      r := SwitchMode(on);
      ghost var r0 := r;
      var q;
      q, tunes := SetCenterFreq(freq);
      r := r | q;
      BothZero(r0, q);
    }

    /** One tuner call between opening and closing the I2C repeater. */
    method ThroughRepeater() returns (r: Code)
      modifies `operations
      ensures operations == old(operations) + 3 && r == results(old(operations) + 1)
    {
      var _ := Hardware();
      r := Hardware();
      var _ := Hardware();
    }

    /** The register writes of _rtlsdr_set_direct_sampling. */
    method SwitchMode(on: int) returns (r: Code)
      modifies `operations, `directSampling
      ensures (Now(), r) == Switched(Setting(), old(Now()), on)
      ensures directSampling == on
    {
      hide Combined;
      if on != 0 {
        r := StopTuner();
        r := RegisterWrites(4, r);
        directSampling := on;
      } else {
        r := StartTuner();
        // set_if_freq and the registers of the tuner family, then the ADC data path
        r := RegisterWrites(if tunerType == R820T || tunerType == R828D then 3 else 4, r);
        directSampling := 0;
      }
    }

    method StopTuner() returns (r: Code)
      modifies `operations
      ensures operations == old(operations) + (if hasTuner && tuner.hasExit then 3 else 0)
      ensures r == if hasTuner && tuner.hasExit then results(old(operations) + 1) else 0
    {
      r := 0;
      if hasTuner && tuner.hasExit { r := ThroughRepeater(); }
    }

    method StartTuner() returns (r: Code)
      modifies `operations
      ensures operations == old(operations) + (if hasTuner && tuner.hasInit then 3 else 0)
      ensures r == if hasTuner && tuner.hasInit then results(old(operations) + 1) else 0
    {
      r := 0;
      if hasTuner && tuner.hasInit {
        var q := ThroughRepeater();
        r := r | q;
      }
    }

    method RegisterWrites(count: nat, r0: Code) returns (r: Code)
      modifies `operations
      ensures operations == old(operations) + count && r == Combined(results, old(operations), count, r0)
      ensures r == 0 ==> r0 == 0
    {
      r := r0;
      for i := 0 to count
        invariant operations == old(operations) + i && r == Combined(results, old(operations), i, r0)
        invariant r == 0 ==> r0 == 0
      {
        var q := Hardware();
        r := r | q;
      }
    }

    /** rtlsdr_set_direct_sampling: the caller's choice is remembered, then applied. */
    method SetDirectSampling(on: int) returns (r: Code, ghost tunes: nat)
      modifies `operations, `directSampling, `freq, `directSamplingMode
      ensures directSamplingMode == on && 1 <= tunes <= 3
      ensures (Now(), r, tunes) == Sample(Setting(), old(Now()).(mode := on), on)
      ensures r == 0 <==> SampleSucceeds(Setting(), old(Now()).(mode := on), on)
      ensures r == 0 ==> directSampling == if on == 0 then Auto(tunerType, freq) else on
    {
      directSamplingMode := on;
      r, tunes := ApplyDirectSampling(on);
    }
  }
}
