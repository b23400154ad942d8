/**
 The ADS-B demodulator of src/rtl_adsb.c: `manchester` overwrites a buffer of magnitudes with
 decoded bits, `messages` collects them into frames. A reply is a preamble with pulses at
 samples 0, 2, 7 and 9 of 16, then one pulse per bit, in the first half for a 1 and in the
 second for a 0 (ICAO Annex 10 Volume IV, section 3.1.2.2).
 */
module Adsb {

  import opened Collections
  import opened Pow2s

  type U16 = x: int | 0 <= x < 0x1_0000
  type Byte = x: int | 0 <= x < 256

  const MESSAGEGO: U16 := 253
  const OVERWRITE: U16 := 254
  const BADSAMPLE: U16 := 255
  const PREAMBLE_LEN := 16
  const LONG_FRAME := 112
  const SHORT_FRAME := 56

  datatype Params = Params(quality: int, allowedErrors: int)

  // ---- manchester

  /** One bit from four consecutive samples, or BADSAMPLE. */
  function SingleManchester(quality: int, a: U16, b: U16, c: U16, d: U16): (bit: U16)
    ensures bit == 0 || bit == 1 || bit == BADSAMPLE
  {
    var bitP, bit := a > b, c > d;
    if quality == 0 then (if bit then 1 else 0)
    else if quality == 5 then
      if bit && bitP && b > c then BADSAMPLE
      else if !bit && !bitP && b < c then BADSAMPLE
      else if bit then 1 else 0
    else if quality == 10 then
      if bit && bitP && c > b then 1
      else if bit && !bitP && d < b then 1
      else if !bit && bitP && d > b then 0
      else if !bit && !bitP && c < b then 0
      else BADSAMPLE
    else
      if bit && bitP && c > b && d < a then 1
      else if bit && !bitP && c > a && d < b then 1
      else if !bit && bitP && c < a && d > b then 0
      else if !bit && !bitP && c < b && d > a then 0
      else BADSAMPLE
  }

  /**
   When a pair is a bad sample: at quality 5 if it lies wholly beyond the near sample of the pair
   before, in the same phase; at 10 if, in either phase, it does not reach across that sample; at
   the others if its higher sample is not above the lower one of the pair before, or its lower one
   not below the higher one. Otherwise its own two samples give the bit.
   */
  lemma BadSampleExactly(quality: int, a: U16, b: U16, c: U16, d: U16)
    ensures var high, low := if c > d then c else d, if c > d then d else c;
            var oldHigh, oldLow := if a > b then a else b, if a > b then b else a;
            var accepted := quality == 0
              || (quality == 5 && ((a > b <==> c > d) ==> if a > b then high >= oldLow else low <= oldHigh))
              || (quality == 10 && if a > b then high > oldLow else low < oldHigh)
              || (quality !in {0, 5, 10} && high > oldLow && low < oldHigh);
            SingleManchester(quality, a, b, c, d) == if !accepted then 255 else if c > d then 1 else 0
  {
  }

  predicate PulseInPreamble(k: nat) {
    k == 0 || k == 2 || k == 7 || k == 9
  }

  /** The preamble test from position k on, with the last pulse and non-pulse values seen. */
  predicate PreambleFrom(buf: seq<U16>, i: nat, k: nat, high: U16, low: U16)
    requires i + PREAMBLE_LEN <= |buf| && k <= PREAMBLE_LEN
    decreases PREAMBLE_LEN - k
  {
    if k == PREAMBLE_LEN then true
    else
      var high' := if PulseInPreamble(k) then buf[i + k] else high;
      var low' := if PulseInPreamble(k) then low else buf[i + k];
      high' > low' && PreambleFrom(buf, i, k + 1, high', low')
  }

  predicate PreambleAt(buf: seq<U16>, i: nat)
    requires i + PREAMBLE_LEN <= |buf|
  {
    PreambleFrom(buf, i, 0, 65535, 0)
  }

  /** The comparisons between neighbouring pulses and gaps that make a preamble. */
  lemma PreambleMeans(buf: seq<U16>, i: nat)
    requires i + 16 <= |buf|
    ensures PreambleAt(buf, i) <==>
            && buf[i] > buf[i + 1]
            && buf[i + 2] > buf[i + 1] && buf[i + 2] > buf[i + 3] && buf[i + 2] > buf[i + 4]
            && buf[i + 2] > buf[i + 5] && buf[i + 2] > buf[i + 6]
            && buf[i + 7] > buf[i + 6] && buf[i + 7] > buf[i + 8]
            && buf[i + 9] > buf[i + 8] && buf[i + 9] > buf[i + 10] && buf[i + 9] > buf[i + 11]
            && buf[i + 9] > buf[i + 12] && buf[i + 9] > buf[i + 13] && buf[i + 9] > buf[i + 14]
            && buf[i + 9] > buf[i + 15]
  {
    var x := buf[i..i + 16];
    assert PreambleAt(buf, i) == (x[0] > 0 && PreambleFrom(buf, i, 1, x[0], 0));
    assert PreambleFrom(buf, i, 1, x[0], 0) == (x[0] > x[1] && PreambleFrom(buf, i, 2, x[0], x[1]));
    assert PreambleFrom(buf, i, 2, x[0], x[1]) == (x[2] > x[1] && PreambleFrom(buf, i, 3, x[2], x[1]));
    GapFrom(buf, i, 3, 7, x[2], x[1]);
    assert PreambleFrom(buf, i, 7, x[2], x[6]) == (x[7] > x[6] && PreambleFrom(buf, i, 8, x[7], x[6]));
    GapFrom(buf, i, 8, 9, x[7], x[6]);
    assert PreambleFrom(buf, i, 9, x[7], x[8]) == (x[9] > x[8] && PreambleFrom(buf, i, 10, x[9], x[8]));
    GapFrom(buf, i, 10, 16, x[9], x[8]);
    assert PreambleFrom(buf, i, 16, x[9], x[15]);
    hide PreambleFrom, PreambleAt;
  }

  /** Samples k up to last without a pulse: all must be below the pulse before them. */
  lemma {:induction false} GapFrom(buf: seq<U16>, i: nat, k: nat, last: nat, high: U16, low: U16)
    requires i + 16 <= |buf| && k < last <= 16 && (k > 9 || (k > 7 && last <= 9) || (k > 2 && last <= 7))
    ensures PreambleFrom(buf, i, k, high, low) <==>
            && (forall j :: i + k <= j < i + last ==> high > buf[j])
            && PreambleFrom(buf, i, last, high, buf[i + last - 1])
    decreases last - k
  {
    if k + 1 < last { GapFrom(buf, i, k + 1, last, high, buf[i + k]); }
  }

  /** Pulses at 0, 2, 7 and 9 above a level, and no other sample above it. */
  lemma PulsesMakePreamble(buf: seq<U16>, i: nat, level: U16)
    requires i + 16 <= |buf| && buf[i] > level && buf[i + 2] > level && buf[i + 7] > level && buf[i + 9] > level
    requires forall q :: i <= q < i + 16 && q != i && q != i + 2 && q != i + 7 && q != i + 9 ==> buf[q] <= level
    ensures PreambleAt(buf, i)
  {
    PreambleMeans(buf, i);
  }

  method Preamble(buf: array<U16>, i: nat) returns (found: bool)
    requires i + PREAMBLE_LEN <= buf.Length
    ensures found == PreambleAt(buf[..], i)
  {
    var low: U16, high: U16 := 0, 65535;
    for k := 0 to PREAMBLE_LEN
      invariant PreambleAt(buf[..], i) == PreambleFrom(buf[..], i, k, high, low)
    {
      if PulseInPreamble(k) { high := buf[i + k]; } else { low := buf[i + k]; }
      if high <= low { return false; }
    }
    return true;
  }

  /** Where the search for a preamble that starts at i stops. */
  function SearchEnd(buf: seq<U16>, i: nat): (e: nat)
    ensures e >= i
    decreases |buf| - i
  {
    if i < |buf| - PREAMBLE_LEN && !PreambleAt(buf, i) then SearchEnd(buf, i + 1) else i
  }

  /** The state of `manchester` between turns of its outer loop. */
  datatype Scan = Scan(buf: seq<U16>, i: nat, a: U16, b: U16)

  /** Fills the preamble found at i with MESSAGEGO. */
  function Marked(buf: seq<U16>, i: nat): (r: seq<U16>)
    requires i + PREAMBLE_LEN <= |buf|
    ensures |r| == |buf|
  {
    buf[..i] + seq(PREAMBLE_LEN, _ => MESSAGEGO) + buf[i + PREAMBLE_LEN..]
  }

  /** After the search: behind a preamble, or where the search ended. */
  function Found(s: Scan): (t: Scan)
    ensures |t.buf| == |s.buf| && t.i >= s.i
  {
    var e := SearchEnd(s.buf, s.i);
    if e < |s.buf| - PREAMBLE_LEN then Scan(Marked(s.buf, e), e + PREAMBLE_LEN, s.buf[e], s.buf[e + 1])
    else s.(i := e)
  }

  /** The decoding loop: the bit of samples i and i+1 goes to position i2. */
  function DecodeFrom(p: Params, s: Scan, i2: nat, errors: nat): (t: Scan)
    requires i2 <= s.i
    ensures |t.buf| == |s.buf| && t.i >= s.i
    decreases |s.buf| - s.i
  {
    if s.i >= |s.buf| - 1 then s
    else
      var c, d := s.buf[s.i], s.buf[s.i + 1];
      var bit := SingleManchester(p.quality, s.a, s.b, c, d);
      if bit == BADSAMPLE && errors + 1 > p.allowedErrors then
        Scan(s.buf[i2 := BADSAMPLE], s.i, c, d)
      else
        var bad := bit == BADSAMPLE;
        var value: U16 := if bad then (if c > d then 1 else 0) else bit;
        var buf := s.buf[s.i := OVERWRITE][s.i + 1 := OVERWRITE][i2 := value];
        DecodeFrom(p, Scan(buf, s.i + 2, if bad then 0 else c, if bad then 65535 else d), i2 + 1,
                   if bad then errors + 1 else errors)
  }

  /** One turn of the outer loop. */
  function Turn(p: Params, s: Scan): (t: Scan)
    ensures |t.buf| == |s.buf| && t.i >= s.i
  {
    var f := Found(s);
    DecodeFrom(p, f, f.i, 0)
  }

  /** The outer loop has nothing left to do. */
  predicate AtEnd(s: Scan) {
    s.i >= |s.buf| - 1
  }

  /** The state after n turns; at the end a turn changes nothing. */
  function Turns(p: Params, s: Scan, n: nat): (t: Scan)
    ensures |t.buf| == |s.buf| && t.i >= s.i
  {
    if n == 0 then s else Turn(p, Turns(p, s, n - 1))
  }

  /** The outer loop ends. */
  ghost predicate Ends(p: Params, s: Scan) {
    exists n: nat :: AtEnd(Turns(p, s, n))
  }

  /** The parameters for which it ends on every buffer (see TerminatingEnds and ManchesterLoops). */
  predicate Terminating(p: Params) {
    p.allowedErrors >= 1 || p.quality == 0 || p.quality == 5
  }

  /**
   A state from which the outer loop does not move: too close to the end for a preamble, with
   a bad bit whose second sample is 255, so that the marks left in the buffer are bad again.
   */
  predicate Stuck(p: Params, s: Scan) {
    && !Terminating(p)
    && |s.buf| - PREAMBLE_LEN <= s.i < |s.buf| - 1
    && SingleManchester(p.quality, s.a, s.b, s.buf[s.i], s.buf[s.i + 1]) == BADSAMPLE
    && s.buf[s.i + 1] == BADSAMPLE
  }

  ghost predicate NeverStuck(p: Params, s: Scan) {
    forall n: nat :: !Stuck(p, Turns(p, s, n))
  }

  lemma {:induction false} TurnsFrom(p: Params, s: Scan, n: nat)
    ensures Turns(p, s, n + 1) == Turns(p, Turn(p, s), n)
  {
    hide Turn;
    if n > 0 { TurnsFrom(p, s, n - 1); } else { assert Turns(p, s, 0) == s; }
  }

  lemma {:induction false} TurnsAdd(p: Params, s: Scan, m: nat, n: nat)
    ensures Turns(p, Turns(p, s, m), n) == Turns(p, s, m + n)
  {
    hide Turn;
    if n > 0 { TurnsAdd(p, s, m, n - 1); }
  }

  /** A turn that finds no preamble and reads a bad bit, with no error allowed, only marks it. */
  lemma StalledTurn(p: Params, s: Scan)
    requires |s.buf| - PREAMBLE_LEN <= s.i < |s.buf| - 1 && p.allowedErrors < 1
    requires SingleManchester(p.quality, s.a, s.b, s.buf[s.i], s.buf[s.i + 1]) == BADSAMPLE
    ensures Turn(p, s) == Scan(s.buf[s.i := BADSAMPLE], s.i, s.buf[s.i], s.buf[s.i + 1])
  {
    hide SingleManchester;
    assert Found(s) == s;
  }

  /** Any other turn moves on. */
  lemma TurnMoves(p: Params, s: Scan)
    requires !AtEnd(s)
    requires s.i < |s.buf| - PREAMBLE_LEN || p.allowedErrors >= 1
             || SingleManchester(p.quality, s.a, s.b, s.buf[s.i], s.buf[s.i + 1]) != BADSAMPLE
    ensures Turn(p, s).i > s.i
  {
    hide SingleManchester, PreambleAt;
    var f := Found(s);
    if f.i == s.i {
      assert f == s;
    }
  }

  /** Reading again where a bad bit was marked: bad exactly when its second sample is 255. */
  lemma MarkedTwice(quality: int, a: U16, b: U16, c: U16, d: U16)
    requires quality != 0 && quality != 5
    ensures SingleManchester(quality, 255, d, 255, d) == BADSAMPLE <==> d == BADSAMPLE
    ensures SingleManchester(quality, c, 255, 255, 255) == BADSAMPLE
  {
  }

  /** What is stuck stays so: the scan never moves again. */
  lemma {:induction false} StuckForever(p: Params, s: Scan, n: nat)
    requires Stuck(p, s)
    ensures Stuck(p, Turns(p, s, n)) && Turns(p, s, n).i == s.i
  {
    hide SingleManchester, Turn;
    if n > 0 {
      StuckForever(p, s, n - 1);
      var t := Turns(p, s, n - 1);
      StalledTurn(p, t);
      MarkedTwice(p.quality, t.a, t.b, t.buf[t.i], 255);
    }
  }

  /** One that is not stuck moves on in at most three turns. */
  lemma MovesOn(p: Params, s: Scan)
    requires !AtEnd(s) && !Stuck(p, s)
    ensures Turns(p, s, 3).i > s.i
  {
    hide SingleManchester, Turn;
    var t := Turn(p, s);
    assert Turns(p, s, 0) == s && Turns(p, s, 1) == t && Turns(p, s, 2) == Turn(p, t);
    assert Turns(p, s, 3) == Turn(p, Turn(p, t));
    if s.i < |s.buf| - PREAMBLE_LEN || p.allowedErrors >= 1 ||
       SingleManchester(p.quality, s.a, s.b, s.buf[s.i], s.buf[s.i + 1]) != BADSAMPLE {
      TurnMoves(p, s);
    } else {
      StalledTurn(p, s);
      assert t == Scan(s.buf[s.i := BADSAMPLE], s.i, s.buf[s.i], s.buf[s.i + 1]);
      SecondReading(p, s, t);
    }
  }

  lemma SecondReading(p: Params, s: Scan, t: Scan)
    requires |s.buf| - PREAMBLE_LEN <= s.i < |s.buf| - 1 && p.allowedErrors < 1 && !Stuck(p, s)
    requires SingleManchester(p.quality, s.a, s.b, s.buf[s.i], s.buf[s.i + 1]) == BADSAMPLE
    requires t == Scan(s.buf[s.i := BADSAMPLE], s.i, s.buf[s.i], s.buf[s.i + 1])
    ensures Turn(p, Turn(p, t)).i > s.i
  {
    var c, d := s.buf[s.i], s.buf[s.i + 1];
    hide SingleManchester, Turn;
    LenientQuality(s.a, s.b, c, d);
    LenientQuality(c, d, c, d);
    assert t.buf[t.i] == 255 && t.buf[t.i + 1] == d && t.a == c && t.b == d;
    if SingleManchester(p.quality, c, d, 255, d) != BADSAMPLE {
      TurnMoves(p, t);
    } else {
      MarkedTwice(p.quality, s.a, s.b, c, d);
      StalledTurn(p, t);
      var u := Turn(p, t);
      assert u.buf[u.i] == 255 && u.buf[u.i + 1] == d && u.a == 255 && u.b == d;
      TurnMoves(p, u);
    }
  }

  /** At quality 0 no bit is bad, at quality 5 none that was marked. */
  lemma LenientQuality(a: U16, b: U16, c: U16, d: U16)
    ensures SingleManchester(0, a, b, c, d) != BADSAMPLE && SingleManchester(5, a, d, 255, d) != BADSAMPLE
  {
  }

  /** The outer loop ends on a buffer exactly when no turn leaves it stuck. */
  lemma EndsUnlessStuck(p: Params, s: Scan)
    ensures Ends(p, s) <==> NeverStuck(p, s)
  {
    if NeverStuck(p, s) {
      NeverStuckEnds(p, s);
    } else if Ends(p, s) {
      hide Turn, Stuck;
      var n: nat :| Stuck(p, Turns(p, s, n));
      var m: nat :| AtEnd(Turns(p, s, m));
      StuckNeverEnds(p, s, n, m);
    }
  }

  lemma StuckNeverEnds(p: Params, s: Scan, n: nat, m: nat)
    requires Stuck(p, Turns(p, s, n))
    ensures !AtEnd(Turns(p, s, m))
  {
    hide Turn;
    StuckForever(p, Turns(p, s, n), m);
    TurnsAdd(p, s, n, m);
    TurnsAdd(p, s, m, n);
  }

  lemma {:induction false} NeverStuckEnds(p: Params, s: Scan)
    requires NeverStuck(p, s)
    ensures Ends(p, s)
    decreases |s.buf| - s.i
  {
    hide Turn, Stuck;
    assert Turns(p, s, 0) == s;
    if !AtEnd(s) {
      MovesOn(p, s);
      var t := Turns(p, s, 3);
      forall n: nat
        ensures !Stuck(p, Turns(p, t, n))
      {
        TurnsAdd(p, s, 3, n);
      }
      NeverStuckEnds(p, t);
      var n: nat :| AtEnd(Turns(p, t, n));
      TurnsAdd(p, s, 3, n);
    }
  }

  /** With an error allowed, or at quality 0 or 5, it ends on every buffer. */
  lemma TerminatingEnds(p: Params, s: Scan)
    requires Terminating(p)
    ensures Ends(p, s)
  {
    EndsUnlessStuck(p, s);
  }

  /** With other parameters there is a buffer on which it does not. */
  lemma ManchesterLoops(p: Params)
    requires !Terminating(p)
    ensures !Ends(p, Scan([BADSAMPLE, BADSAMPLE], 0, 0, 0))
  {
    var s := Scan([BADSAMPLE, BADSAMPLE], 0, 0, 0);
    assert Stuck(p, Turns(p, s, 0));
    hide Turn, SingleManchester;
    EndsUnlessStuck(p, s);
  }

  /** So these parameters are exactly the ones for which it ends on every buffer. */
  lemma EndsOnEveryBuffer(p: Params)
    ensures (forall buf: seq<U16> :: Ends(p, Scan(buf, 0, 0, 0))) <==> Terminating(p)
  {
    hide Ends, Turn;
    if Terminating(p) {
      forall buf: seq<U16>
        ensures Ends(p, Scan(buf, 0, 0, 0))
      {
        TerminatingEnds(p, Scan(buf, 0, 0, 0));
      }
    } else {
      ManchesterLoops(p);
    }
  }

  /** No sample 255 ahead of the scan among those that a stuck scan could be reading. */
  predicate CleanTail(s: Scan) {
    forall q :: s.i < q < |s.buf| && q > |s.buf| - PREAMBLE_LEN ==> s.buf[q] != BADSAMPLE
  }

  /** With a clean tail, as every buffer of magnitudes has, it ends whatever the parameters. */
  lemma CleanTailEnds(p: Params, s: Scan)
    requires CleanTail(s)
    ensures Ends(p, s)
  {
    hide Turn, SingleManchester;
    forall n: nat
      ensures !Stuck(p, Turns(p, s, n))
    {
      TailStaysClean(p, s, n);
    }
    EndsUnlessStuck(p, s);
  }

  lemma {:induction false} TailStaysClean(p: Params, s: Scan, n: nat)
    requires CleanTail(s)
    ensures CleanTail(Turns(p, s, n))
  {
    hide Turn, CleanTail;
    if n > 0 {
      var t := Turns(p, s, n - 1);
      assert Turns(p, s, n) == Turn(p, t);
      hide *;
      TailStaysClean(p, s, n - 1);
      TurnAhead(p, t);
      TailOf(t, Turn(p, t));
    }
  }

  lemma TurnAhead(p: Params, s: Scan)
    ensures var t := Turn(p, s); forall q :: t.i < q < |s.buf| ==> t.buf[q] == s.buf[q]
  {
    var f := Found(s);
    FoundAhead(s);
    AheadUntouched(p, f, f.i, 0);
    hide Found, DecodeFrom;
  }

  /** So what lies ahead of the scan is as it was sent, after any number of turns. */
  lemma {:induction false} AheadIsSent(p: Params, s: Scan, n: nat)
    ensures var t := Turns(p, s, n); t.i >= s.i && forall q :: t.i < q < |s.buf| ==> t.buf[q] == s.buf[q]
  {
    hide Turn;
    if n > 0 {
      AheadIsSent(p, s, n - 1);
      TurnAhead(p, Turns(p, s, n - 1));
    }
  }

  lemma FoundAhead(s: Scan)
    ensures var f := Found(s); forall q :: f.i <= q < |s.buf| ==> f.buf[q] == s.buf[q]
  {
    hide PreambleAt;
  }

  lemma TailOf(s: Scan, t: Scan)
    requires CleanTail(s) && |t.buf| == |s.buf| && t.i >= s.i
    requires forall q :: t.i < q < |s.buf| ==> t.buf[q] == s.buf[q]
    ensures CleanTail(t)
  {
  }

  /** Decoding leaves everything beyond the sample it stops at. */
  lemma {:induction false} AheadUntouched(p: Params, s: Scan, i2: nat, errors: nat)
    requires i2 <= s.i
    ensures var t := DecodeFrom(p, s, i2, errors); forall q :: t.i < q < |s.buf| ==> t.buf[q] == s.buf[q]
    decreases |s.buf| - s.i
  {
    hide *;
    if s.i >= |s.buf| - 1 {
      DecodeDone(p, s, i2, errors);
    } else {
      var c, d := s.buf[s.i], s.buf[s.i + 1];
      var bit := SingleManchester(p.quality, s.a, s.b, c, d);
      var marked := s.buf[s.i := OVERWRITE][s.i + 1 := OVERWRITE];
      DecodeNext(p, s, i2, errors, bit);
      if bit != BADSAMPLE {
        AheadUntouched(p, Scan(marked[i2 := bit], s.i + 2, c, d), i2 + 1, errors);
      } else if errors + 1 <= p.allowedErrors {
        AheadUntouched(p, Scan(marked[i2 := if c > d then 1 else 0], s.i + 2, 0, 65535), i2 + 1, errors + 1);
      }
    }
  }

  // ---- magnitudes

  function Abs8(x: int): int {
    if x >= 127 then x - 127 else 127 - x
  }

  /** The magnitude of one I/Q pair: the sum of two squares. */
  function Magnitude(i: Byte, q: Byte): (m: U16)
    ensures m != BADSAMPLE && m == (i - 127) * (i - 127) + (q - 127) * (q - 127)
  {
    SquareOfByte(i);
    SquareOfByte(q);
    SquareOfAbs(i);
    SquareOfAbs(q);
    Abs8(i) * Abs8(i) + Abs8(q) * Abs8(q)
  }

  lemma SquareOfAbs(x: int)
    ensures Abs8(x) * Abs8(x) == (x - 127) * (x - 127)
  {
    assert (127 - x) * (127 - x) == (x - 127) * (x - 127);
  }

  /** A square is 0 or 1 modulo 4, so 255, which is 3, is not the sum of two. */
  lemma SquareOfByte(x: Byte)
    ensures var m := Abs8(x); 0 <= m * m <= 16384 && (m * m % 4 == 0 || m * m % 4 == 1)
  {
    var m := Abs8(x);
    var h, r := m / 2, m % 2;
    assert m * m == 4 * (h * h + h * r) + r * r by {
      assert m == 2 * h + r;
    }
    MulNonneg(m, m);
    MulAtMost(m, 128, m);
    MulAtMost(m, 128, 128);
  }

  /** What magnitute leaves in the buffer of the demodulator, for the bytes of the dongle. */
  function Magnitudes(iq: seq<Byte>): (buf: seq<U16>)
    ensures |buf| == |iq| / 2 && forall k :: 0 <= k < |buf| ==> buf[k] != BADSAMPLE
  {
    seq(|iq| / 2, k requires 0 <= k < |iq| / 2 => Magnitude(iq[2 * k], iq[2 * k + 1]))
  }

  /** On the samples of a dongle the outer loop ends whatever the parameters. */
  lemma MagnitudesEnd(p: Params, iq: seq<Byte>)
    ensures Ends(p, Scan(Magnitudes(iq), 0, 0, 0))
  {
    hide Ends;
    CleanTailEnds(p, Scan(Magnitudes(iq), 0, 0, 0));
  }

  // ---- the whole loop

  /** The turns until the end, n at most. */
  ghost function TurnsLeft(p: Params, s: Scan, n: nat): nat
    requires AtEnd(Turns(p, s, n))
    decreases n
  {
    hide Turn;
    if AtEnd(s) then 0
    else
      OneLess(p, s, n);
      1 + TurnsLeft(p, Turn(p, s), n - 1)
  }

  lemma OneLess(p: Params, s: Scan, n: nat)
    requires AtEnd(Turns(p, s, n)) && !AtEnd(s)
    ensures n > 0 && AtEnd(Turns(p, Turn(p, s), n - 1))
  {
    hide Turn;
    assert Turns(p, s, 0) == s;
    if n > 0 { TurnsFrom(p, s, n - 1); }
  }

  lemma {:induction false} TurnsLeftUnique(p: Params, s: Scan, m: nat, n: nat)
    requires AtEnd(Turns(p, s, m)) && AtEnd(Turns(p, s, n))
    ensures TurnsLeft(p, s, m) == TurnsLeft(p, s, n)
    decreases m
  {
    hide Turn;
    if !AtEnd(s) {
      OneLess(p, s, m);
      OneLess(p, s, n);
      TurnsLeftUnique(p, Turn(p, s), m - 1, n - 1);
    }
  }

  ghost function Remaining(p: Params, s: Scan): nat
    requires Ends(p, s)
  {
    var n: nat :| AtEnd(Turns(p, s, n));
    TurnsLeft(p, s, n)
  }

  /** After a turn of a loop that ends one turn less is left. */
  lemma ManchesterEnds(p: Params, s: Scan)
    requires Ends(p, s) && !AtEnd(s)
    ensures Ends(p, Turn(p, s)) && Remaining(p, Turn(p, s)) < Remaining(p, s)
  {
    hide Turn;
    var n: nat :| AtEnd(Turns(p, s, n)) && Remaining(p, s) == TurnsLeft(p, s, n);
    OneLess(p, s, n);
    assert TurnsLeft(p, s, n) == 1 + TurnsLeft(p, Turn(p, s), n - 1);
    var m: nat :| AtEnd(Turns(p, Turn(p, s), m)) && Remaining(p, Turn(p, s)) == TurnsLeft(p, Turn(p, s), m);
    TurnsLeftUnique(p, Turn(p, s), n - 1, m);
  }

  /** The state in which the whole loop ends. */
  ghost function Manchester(p: Params, s: Scan): (t: Scan)
    requires Ends(p, s)
    ensures |t.buf| == |s.buf|
    decreases Remaining(p, s)
  {
    if AtEnd(s) then s
    else
      ManchesterEnds(p, s);
      Manchester(p, Turn(p, s))
  }

  /** manchester, in place, on a buffer on which it ends. */
  method ManchesterInPlace(p: Params, buf: array<U16>)
    requires Ends(p, Scan(buf[..], 0, 0, 0))
    modifies buf
    ensures Ends(p, Scan(old(buf[..]), 0, 0, 0)) && buf[..] == Manchester(p, Scan(old(buf[..]), 0, 0, 0)).buf
  {
    hide Ends, Remaining, Turn;
    var a: U16, b: U16 := 0, 0;
    var len := buf.Length;
    var maximumI := len - 1;
    var i: nat := 0;
    ghost var start := Scan(buf[..], 0, 0, 0);
    while i < maximumI
      invariant Ends(p, start) && Ends(p, Scan(buf[..], i, a, b))
      invariant Manchester(p, start) == Manchester(p, Scan(buf[..], i, a, b))
      decreases Remaining(p, Scan(buf[..], i, a, b))
    {
      ghost var s := Scan(buf[..], i, a, b);
      ManchesterEnds(p, s);
      i, a, b := OneTurn(p, buf, i, a, b);
    }
  }

  method OneTurn(p: Params, buf: array<U16>, i0: nat, a0: U16, b0: U16) returns (i: nat, a: U16, b: U16)
    modifies buf
    ensures Scan(buf[..], i, a, b) == Turn(p, Scan(old(buf[..]), i0, a0, b0))
  {
    hide Found, DecodeFrom;
    i, a, b := FindPreamble(buf, i0, a0, b0);
    i, a, b := MarkBits(p, buf, i, a, b);
  }

  method FindPreamble(buf: array<U16>, i0: nat, a0: U16, b0: U16) returns (i: nat, a: U16, b: U16)
    modifies buf
    ensures Scan(buf[..], i, a, b) == Found(Scan(old(buf[..]), i0, a0, b0))
  {
    i, a, b := i0, a0, b0;
    while i < buf.Length - PREAMBLE_LEN
      invariant buf[..] == old(buf[..]) && SearchEnd(buf[..], i0) == SearchEnd(buf[..], i)
      decreases buf.Length - i
    {
      var found := Preamble(buf, i);
      if found {
        a, b := buf[i], buf[i + 1];
        forall k | 0 <= k < PREAMBLE_LEN { buf[i + k] := MESSAGEGO; }
        i := i + PREAMBLE_LEN;
        return;
      }
      i := i + 1;
    }
  }

  /** One turn of the decoding loop, bit by bit. */
  lemma DecodeNext(p: Params, s: Scan, i2: nat, errors: nat, bit: U16)
    requires i2 <= s.i < |s.buf| - 1 && bit == SingleManchester(p.quality, s.a, s.b, s.buf[s.i], s.buf[s.i + 1])
    ensures var c, d := s.buf[s.i], s.buf[s.i + 1];
            var marked := s.buf[s.i := OVERWRITE][s.i + 1 := OVERWRITE];
            DecodeFrom(p, s, i2, errors) ==
            if bit != BADSAMPLE then DecodeFrom(p, Scan(marked[i2 := bit], s.i + 2, c, d), i2 + 1, errors)
            else if errors + 1 > p.allowedErrors then Scan(s.buf[i2 := BADSAMPLE], s.i, c, d)
            else DecodeFrom(p, Scan(marked[i2 := if c > d then 1 else 0], s.i + 2, 0, 65535), i2 + 1, errors + 1)
  {
    hide SingleManchester;
  }

  lemma DecodeDone(p: Params, s: Scan, i2: nat, errors: nat)
    requires i2 <= s.i && s.i >= |s.buf| - 1
    ensures DecodeFrom(p, s, i2, errors) == s
  {
  }

  /** Marks bits until the encoding breaks. */
  method MarkBits(p: Params, buf: array<U16>, i0: nat, a0: U16, b0: U16) returns (i: nat, a: U16, b: U16)
    modifies buf
    ensures Scan(buf[..], i, a, b) == DecodeFrom(p, Scan(old(buf[..]), i0, a0, b0), i0, 0)
  {
    hide *;
    i, a, b := i0, a0, b0;
    var i2: nat := i;
    var errors: nat := 0;
    ghost var s := Scan(buf[..], i, a, b);
    while i < buf.Length - 1
      invariant i2 <= i
      invariant DecodeFrom(p, s, s.i, 0) == DecodeFrom(p, Scan(buf[..], i, a, b), i2, errors)
      decreases buf.Length - i
    {
      ghost var before: seq<U16> := buf[..];
      ghost var scan := Scan(before, i, a, b);
      var bit := SingleManchester(p.quality, a, b, buf[i], buf[i + 1]);
      DecodeNext(p, scan, i2, errors, bit);
      a, b := buf[i], buf[i + 1];
      if bit == BADSAMPLE {
        errors := errors + 1;
        if errors > p.allowedErrors {
          buf[i2] := BADSAMPLE;
          return;
        }
        bit := if a > b then 1 else 0;
        a, b := 0, 65535;
      }
      buf[i], buf[i + 1] := OVERWRITE, OVERWRITE;
      buf[i2] := bit;
      assert buf[..] == before[i := OVERWRITE][i + 1 := OVERWRITE][i2 := bit];
      i, i2 := i + 2, i2 + 1;
    }
    DecodeDone(p, Scan(buf[..], i, a, b), i2, errors);
  }

  // ---- messages

  type Bytes = seq<bv8>

  datatype Shown = Shown(frame: Bytes, len: nat)

  const BIT_VALUE: seq<bv8> := [0x80, 0x40, 0x20, 0x10, 0x08, 0x04, 0x02, 0x01]

  /** Most significant bit first: the n-th of a byte is 1 << (7 - n). */
  lemma BitWeights(n: nat)
    requires n < 8
    ensures BIT_VALUE[n] == (1 as bv8) << (7 - n)
  {
  }

  /** The state of the collecting loop: position, bits collected, frame, and its expected length. */
  datatype Collected = Collected(i: nat, dataI: nat, frame: Bytes, frameLen: nat)

  /** Bit dataI of the frame set when `bit` is not 0. */
  function WithBit(frame: Bytes, dataI: nat, bit: U16): (r: Bytes)
    requires |frame| == 14 && dataI < LONG_FRAME
    ensures |r| == 14
  {
    if bit != 0 then frame[dataI / 8 := frame[dataI / 8] | BIT_VALUE[dataI % 8]] else frame
  }

  function Collect(buf: seq<U16>, c: Collected): (r: Collected)
    requires |c.frame| == 14 && c.frameLen <= LONG_FRAME
    ensures |r.frame| == 14 && r.frameLen <= LONG_FRAME && r.i >= c.i
    decreases |buf| - c.i
  {
    if c.i < |buf| && buf[c.i] <= 1 && c.dataI < c.frameLen then
      var frame := WithBit(c.frame, c.dataI, buf[c.i]);
      if c.dataI == 7 && frame[0] == 0 then c.(frame := frame)
      else
        var frameLen := if c.dataI != 7 then c.frameLen else if frame[0] & 0x80 != 0 then LONG_FRAME else SHORT_FRAME;
        Collect(buf, Collected(c.i + 1, c.dataI + 1, frame, frameLen))
    else c
  }

  const ZERO_FRAME: Bytes := [0, 0, 0, 0, 0, 0, 0, 0, 0, 0, 0, 0, 0, 0]

  /** The frames displayed when scanning from position i. */
  function MessagesFrom(buf: seq<U16>, i: nat): seq<Shown>
    decreases |buf| - i
  {
    if i >= |buf| then []
    else if buf[i] > 1 then MessagesFrom(buf, i + 1)
    else
      var c := Collect(buf, Collected(i, 0, ZERO_FRAME, LONG_FRAME));
      (if c.dataI < c.frameLen - 1 then [] else [Shown(c.frame, c.frameLen)]) + MessagesFrom(buf, c.i + 1)
  }

  /** messages, with the frames passed to `display` as its result. */
  method Messages(buf: array<U16>) returns (shown: seq<Shown>)
    ensures shown == MessagesFrom(buf[..], 0)
  {
    shown := [];
    assert shown + MessagesFrom(buf[..], 0) == MessagesFrom(buf[..], 0);
    hide *;
    var i: nat := 0;
    while i < buf.Length
      invariant shown + MessagesFrom(buf[..], i) == MessagesFrom(buf[..], 0)
      decreases buf.Length - i
    {
      MessagesStep(buf[..], i);
      if buf[i] > 1 {
        i := i + 1;
        continue;
      }
      var c := CollectFrame(buf, i);
      i := c.i + 1;
      if c.dataI < c.frameLen - 1 { continue; }
      Reassociate(shown, [Shown(c.frame, c.frameLen)], MessagesFrom(buf[..], i));
      shown := shown + [Shown(c.frame, c.frameLen)];
    }
    MessagesEnd(buf[..], i);
  }

  lemma MessagesStep(buf: seq<U16>, i: nat)
    requires i < |buf|
    ensures buf[i] > 1 ==> MessagesFrom(buf, i) == MessagesFrom(buf, i + 1)
    ensures buf[i] <= 1 ==> var c := Collect(buf, Collected(i, 0, ZERO_FRAME, LONG_FRAME));
              MessagesFrom(buf, i) ==
                if c.dataI < c.frameLen - 1 then MessagesFrom(buf, c.i + 1)
                else [Shown(c.frame, c.frameLen)] + MessagesFrom(buf, c.i + 1)
  {
    hide Collect;
    if buf[i] <= 1 {
      var c := Collect(buf, Collected(i, 0, ZERO_FRAME, LONG_FRAME));
      assert [] + MessagesFrom(buf, c.i + 1) == MessagesFrom(buf, c.i + 1);
    }
  }

  lemma MessagesEnd(buf: seq<U16>, i: nat)
    requires i >= |buf|
    ensures MessagesFrom(buf, i) == []
  {
  }

  /** The loop that collects the bits of one frame. */
  method CollectFrame(buf: array<U16>, i0: nat) returns (c: Collected)
    ensures c == Collect(buf[..], Collected(i0, 0, ZERO_FRAME, LONG_FRAME))
  {
    hide WithBit;
    var i, frameLen: nat, dataI: nat, frame := i0, LONG_FRAME, 0, ZERO_FRAME;
    while i < buf.Length && buf[i] <= 1 && dataI < frameLen
      invariant |frame| == 14 && frameLen <= LONG_FRAME && i >= i0
      invariant Collect(buf[..], Collected(i0, 0, ZERO_FRAME, LONG_FRAME)) ==
                Collect(buf[..], Collected(i, dataI, frame, frameLen))
      decreases buf.Length - i
    {
      frame := WithBit(frame, dataI, buf[i]);
      if dataI == 7 {
        if frame[0] == 0 { break; }
        frameLen := if frame[0] & 0x80 != 0 then LONG_FRAME else SHORT_FRAME;
      }
      i, dataI := i + 1, dataI + 1;
    }
    c := Collected(i, dataI, frame, frameLen);
  }

  // ---- a transmitted frame is the first one shown

  /** Bit k of the bytes, most significant first. */
  function BitOf(bytes: Bytes, k: nat): U16
    requires k < 8 * |bytes|
  {
    if bytes[k / 8] & BIT_VALUE[k % 8] != 0 then 1 else 0
  }

  /** Sample q carries a pulse when `bytes` are sent from sample `start`. */
  predicate Pulse(bytes: Bytes, start: nat, q: nat)
    requires q < start + PREAMBLE_LEN + 16 * |bytes|
  {
    if q < start + 16 then q == start || q == start + 2 || q == start + 7 || q == start + 9
    else
      var k := (q - start - 16) / 2;
      (q - start) % 2 == (if BitOf(bytes, k) == 1 then 0 else 1)
  }

  /**
   The samples carry `bytes` from `start` on, after a constant background: every pulse sample
   is above some level, every other sample at most that level and at least 2. What follows
   the frame is arbitrary.
   */
  predicate Carries(buf: seq<U16>, bytes: Bytes, start: nat, level: U16) {
    && start + PREAMBLE_LEN + 16 * |bytes| <= |buf|
    && (forall q :: 0 <= q < start ==> buf[q] == buf[0])
    && (forall q :: 0 <= q < start + PREAMBLE_LEN + 16 * |bytes| ==>
          if Pulse(bytes, start, q) then buf[q] > level else 2 <= buf[q] <= level)
  }

  /** The bad pairs among the n from sample i on, after the pair a, b; behind a bad pair comes 0, 65535 in its place. */
  function BadPairs(quality: int, buf: seq<U16>, i: nat, a: U16, b: U16, n: nat): nat
    requires i + 2 * n <= |buf|
    decreases n
  {
    if n == 0 then 0
    else if SingleManchester(quality, a, b, buf[i], buf[i + 1]) == BADSAMPLE
    then 1 + BadPairs(quality, buf, i + 2, 0, 65535, n - 1)
    else BadPairs(quality, buf, i + 2, buf[i], buf[i + 1], n - 1)
  }

  /** With so many errors already, so many more are allowed. */
  predicate Tolerated(p: Params, errors: nat, more: nat) {
    more == 0 || errors + more <= p.allowedErrors
  }

  /** In each pair from sample i on the first sample is the higher one exactly for a 1. */
  predicate PairsGive(buf: seq<U16>, bytes: Bytes, i: nat) {
    i + 16 * |bytes| <= |buf|
    && forall k :: 0 <= k < 8 * |bytes| ==> (buf[i + 2 * k] > buf[i + 2 * k + 1] <==> BitOf(bytes, k) == 1)
  }

  /**
   The bytes arrive with the first preamble that a turn from s finds, their bits the right way
   round, and no more bad pairs among them than are allowed.
   */
  predicate Arrives(p: Params, s: Scan, bytes: Bytes, start: nat) {
    && |bytes| > 0 && s.i <= start && PairsGive(s.buf, bytes, start + PREAMBLE_LEN)
    && PreambleAt(s.buf, start)
    && (forall i :: s.i <= i < start ==> !PreambleAt(s.buf, i))
    && Tolerated(p, 0, BadPairs(p.quality, s.buf, start + PREAMBLE_LEN, s.buf[start], s.buf[start + 1], 8 * |bytes|))
  }

  /** A long frame starts with a 1; a short one with a 0, and its first byte is not 0. */
  predicate WellFormed(bytes: Bytes) {
    || (|bytes| == 14 && bytes[0] & 0x80 != 0)
    || (|bytes| == 7 && bytes[0] & 0x80 == 0 && bytes[0] != 0)
  }

  lemma NoEarlyPreamble(buf: seq<U16>, bytes: Bytes, start: nat, level: U16, i: nat)
    requires |bytes| > 0 && Carries(buf, bytes, start, level) && i < start
    ensures buf[i] > 1 && !PreambleAt(buf, i)
  {
    assert !Pulse(bytes, start, i);
    if i + 1 < start {
      assert buf[i + 1] == buf[0] == buf[i];
    } else {
      assert Pulse(bytes, start, i + 1);
    }
    PreambleMeans(buf, i);
  }

  lemma PreambleArrives(buf: seq<U16>, bytes: Bytes, start: nat, level: U16)
    requires |bytes| > 0 && Carries(buf, bytes, start, level)
    ensures PreambleAt(buf, start) && buf[start] > level >= buf[start + 1]
  {
    forall q | start <= q < start + 16
      ensures buf[q] > level <==> q == start || q == start + 2 || q == start + 7 || q == start + 9
    {
      assert Pulse(bytes, start, q) <==> q == start || q == start + 2 || q == start + 7 || q == start + 9;
    }
    hide Carries, PreambleAt;
    PulsesMakePreamble(buf, start, level);
  }

  /** Whatever the quality, a bit is read from two samples on either side of the level when the two before were. */
  lemma BitIsRead(quality: int, a: U16, b: U16, c: U16, d: U16, level: U16)
    requires a > level >= b || b > level >= a
    requires c > level >= d || d > level >= c
    ensures SingleManchester(quality, a, b, c, d) == if c > level then 1 else 0
  {
  }

  lemma PairOfBit(buf: seq<U16>, bytes: Bytes, start: nat, level: U16, k: nat)
    requires Carries(buf, bytes, start, level) && k < 8 * |bytes|
    ensures var q := start + PREAMBLE_LEN + 2 * k;
            if BitOf(bytes, k) == 1 then buf[q] > level >= buf[q + 1] else buf[q + 1] > level >= buf[q]
  {
    var q := start + PREAMBLE_LEN + 2 * k;
    assert (q - start - PREAMBLE_LEN) / 2 == k && (q + 1 - start - PREAMBLE_LEN) / 2 == k;
    assert (q - start) % 2 == 0 && (q + 1 - start) % 2 == 1;
    assert Pulse(bytes, start, q) <==> BitOf(bytes, k) == 1;
    assert Pulse(bytes, start, q + 1) <==> BitOf(bytes, k) != 1;
  }

  lemma {:induction false} NoBadPairs(quality: int, buf: seq<U16>, bytes: Bytes, start: nat, level: U16, a: U16, b: U16,
                                      k: nat)
    requires Carries(buf, bytes, start, level) && k <= 8 * |bytes|
    requires a > level >= b || b > level >= a
    ensures start + PREAMBLE_LEN + 16 * |bytes| <= |buf|
    ensures BadPairs(quality, buf, start + PREAMBLE_LEN + 2 * k, a, b, 8 * |bytes| - k) == 0
    decreases 8 * |bytes| - k
  {
    hide SingleManchester, BitOf, Carries;
    CarriesFits(buf, bytes, start, level);
    if k < 8 * |bytes| {
      PairOfBit(buf, bytes, start, level, k);
      var q := start + PREAMBLE_LEN + 2 * k;
      BitIsRead(quality, a, b, buf[q], buf[q + 1], level);
      NoBadPairs(quality, buf, bytes, start, level, buf[q], buf[q + 1], k + 1);
    }
  }

  /** A frame sent above a level arrives, whatever is tolerated. */
  lemma CarriedFrameArrives(p: Params, buf: seq<U16>, bytes: Bytes, start: nat, level: U16)
    requires |bytes| > 0 && Carries(buf, bytes, start, level)
    ensures Arrives(p, Scan(buf, 0, 0, 0), bytes, start)
    ensures forall q :: 0 <= q < start ==> buf[q] > 1
  {
    hide BitOf, Carries, PreambleAt, BadPairs;
    CarriesFits(buf, bytes, start, level);
    PreambleArrives(buf, bytes, start, level);
    NoBadPairs(p.quality, buf, bytes, start, level, buf[start], buf[start + 1], 0);
    forall i | 0 <= i < start
      ensures buf[i] > 1 && !PreambleAt(buf, i)
    {
      NoEarlyPreamble(buf, bytes, start, level, i);
    }
    forall k | 0 <= k < 8 * |bytes|
      ensures buf[start + PREAMBLE_LEN + 2 * k] > buf[start + PREAMBLE_LEN + 2 * k + 1] <==> BitOf(bytes, k) == 1
    {
      PairOfBit(buf, bytes, start, level, k);
    }
  }

  lemma {:induction false} SearchFindsStart(p: Params, s: Scan, bytes: Bytes, start: nat, i: nat)
    requires Arrives(p, s, bytes, start) && s.i <= i <= start
    ensures SearchEnd(s.buf, i) == start && start < |s.buf| - PREAMBLE_LEN
    decreases start - i
  {
    hide PreambleAt, BitOf, BadPairs;
    if i < start { SearchFindsStart(p, s, bytes, start, i + 1); }
  }

  /** Decoding leaves everything before the next position to write. */
  lemma {:induction false} DecodeKeepsEarlier(p: Params, s: Scan, i2: nat, errors: nat, q: nat)
    requires i2 <= s.i && q < i2 && q < |s.buf|
    ensures DecodeFrom(p, s, i2, errors).buf[q] == s.buf[q]
    decreases |s.buf| - s.i
  {
    hide SingleManchester;
    if s.i < |s.buf| - 1 {
      var c, d := s.buf[s.i], s.buf[s.i + 1];
      var bit := SingleManchester(p.quality, s.a, s.b, c, d);
      var bad := bit == BADSAMPLE;
      if !(bad && errors + 1 > p.allowedErrors) {
        var value: U16 := if bad then (if c > d then 1 else 0) else bit;
        var buf := s.buf[s.i := OVERWRITE][s.i + 1 := OVERWRITE][i2 := value];
        DecodeKeepsEarlier(p, Scan(buf, s.i + 2, if bad then 0 else c, if bad then 65535 else d), i2 + 1,
                           if bad then errors + 1 else errors, q);
      }
    }
  }

  /** So do all later turns. */
  lemma {:induction false} ManchesterKeepsEarlier(p: Params, s: Scan, q: nat)
    requires Ends(p, s) && q < s.i && q < |s.buf|
    ensures Manchester(p, s).buf[q] == s.buf[q]
    decreases Remaining(p, s)
  {
    hide Turn, Ends, Remaining;
    if s.i < |s.buf| - 1 {
      ManchesterEnds(p, s);
      assert Manchester(p, s) == Manchester(p, Turn(p, s));
      hide *;
      TurnKeepsEarlier(p, s, q);
      ManchesterKeepsEarlier(p, Turn(p, s), q);
    }
  }

  lemma TurnKeepsEarlier(p: Params, s: Scan, q: nat)
    requires q < s.i && q < |s.buf|
    ensures Turn(p, s).buf[q] == s.buf[q]
  {
    hide DecodeFrom, SearchEnd, PreambleAt;
    var f := Found(s);
    DecodeKeepsEarlier(p, f, f.i, 0, q);
  }

  /** The decoding loop after k bits of the frame: they are compacted, the samples ahead untouched. */
  predicate Midway(p: Params, sent: seq<U16>, s: Scan, bytes: Bytes, start: nat, k: nat, errors: nat) {
    && PairsGive(sent, bytes, start + PREAMBLE_LEN) && k <= 8 * |bytes| && Compacted(sent, s, bytes, start, k)
    && Tolerated(p, errors, BadPairs(p.quality, sent, s.i, s.a, s.b, 8 * |bytes| - k))
  }

  predicate Compacted(sent: seq<U16>, s: Scan, bytes: Bytes, start: nat, k: nat)
    requires k <= 8 * |bytes| && start + PREAMBLE_LEN + 16 * |bytes| <= |sent|
  {
    var data := start + PREAMBLE_LEN;
    && |s.buf| == |sent| && s.i == data + 2 * k
    && (forall q :: s.i <= q < |sent| ==> s.buf[q] == sent[q])
    && s.buf[data - 1] > 1
    && (forall j :: 0 <= j < k ==> s.buf[data + j] == BitOf(bytes, j))
  }

  /** The bits of the bytes from position data on, and no bit before them. */
  predicate Placed(buf: seq<U16>, bytes: Bytes, data: nat) {
    && data + 8 * |bytes| <= |buf|
    && data > 0 && buf[data - 1] > 1
    && (forall j :: 0 <= j < 8 * |bytes| ==> buf[data + j] == BitOf(bytes, j))
  }

  /** Decoding a frame leaves its bits behind the preamble and ends behind the frame. */
  lemma {:induction false} FrameIsDecoded(p: Params, sent: seq<U16>, s: Scan, bytes: Bytes, start: nat, k: nat,
                                          errors: nat)
    requires Midway(p, sent, s, bytes, start, k, errors) && k <= 8 * |bytes|
    requires start + PREAMBLE_LEN + k <= s.i
    ensures var t := DecodeFrom(p, s, start + PREAMBLE_LEN + k, errors);
            Placed(t.buf, bytes, start + PREAMBLE_LEN) && t.i >= start + PREAMBLE_LEN + 16 * |bytes|
    decreases 8 * |bytes| - k
  {
    hide *;
    if k == 8 * |bytes| {
      AllDecoded(p, sent, s, bytes, start, errors);
    } else {
      var next, more := NextMidway(p, sent, s, bytes, start, k, errors);
      FrameIsDecoded(p, sent, next, bytes, start, k + 1, more);
    }
  }

  lemma AllDecoded(p: Params, sent: seq<U16>, s: Scan, bytes: Bytes, start: nat, errors: nat)
    requires Midway(p, sent, s, bytes, start, 8 * |bytes|, errors) && start + PREAMBLE_LEN + 8 * |bytes| <= s.i
    ensures var t := DecodeFrom(p, s, start + PREAMBLE_LEN + 8 * |bytes|, errors);
            Placed(t.buf, bytes, start + PREAMBLE_LEN) && t.i >= start + PREAMBLE_LEN + 16 * |bytes|
  {
    hide DecodeFrom, BitOf, BadPairs;
    assert Placed(s.buf, bytes, start + PREAMBLE_LEN) && s.i == start + PREAMBLE_LEN + 16 * |bytes|;
    hide *;
    FrameStays(p, s, bytes, start + PREAMBLE_LEN, errors);
  }

  /** The rest of the decoding loop leaves a placed frame alone. */
  lemma FrameStays(p: Params, s: Scan, bytes: Bytes, data: nat, errors: nat)
    requires Placed(s.buf, bytes, data) && data + 8 * |bytes| <= s.i
    ensures Placed(DecodeFrom(p, s, data + 8 * |bytes|, errors).buf, bytes, data)
  {
    hide DecodeFrom, BitOf;
    var t := DecodeFrom(p, s, data + 8 * |bytes|, errors);
    forall q | 0 <= q < data + 8 * |bytes|
      ensures t.buf[q] == s.buf[q]
    {
      DecodeKeepsEarlier(p, s, data + 8 * |bytes|, errors, q);
    }
  }

  /** The state after one bit, with what the next pair is compared with. */
  function AfterBit(s: Scan, i2: nat, bit: U16, a: U16, b: U16): Scan
    requires i2 <= s.i < |s.buf| - 1
  {
    Scan(s.buf[s.i := OVERWRITE][s.i + 1 := OVERWRITE][i2 := bit], s.i + 2, a, b)
  }

  lemma NextMidway(p: Params, sent: seq<U16>, s: Scan, bytes: Bytes, start: nat, k: nat, errors: nat)
      returns (next: Scan, more: nat)
    requires Midway(p, sent, s, bytes, start, k, errors) && k < 8 * |bytes| && start + PREAMBLE_LEN + k <= s.i
    ensures Midway(p, sent, next, bytes, start, k + 1, more) && start + PREAMBLE_LEN + k + 1 <= next.i
    ensures DecodeFrom(p, s, start + PREAMBLE_LEN + k, errors) ==
            DecodeFrom(p, next, start + PREAMBLE_LEN + k + 1, more)
  {
    var c, d := s.buf[s.i], s.buf[s.i + 1];
    var i2 := start + PREAMBLE_LEN + k;
    assert c == sent[s.i] && d == sent[s.i + 1] && (c > d <==> BitOf(bytes, k) == 1);
    var bit := SingleManchester(p.quality, s.a, s.b, c, d);
    BadSampleExactly(p.quality, s.a, s.b, c, d);
    BitIsBinary(bytes, k);
    hide SingleManchester, BitOf, DecodeFrom, Compacted, PairsGive;
    DecodeNext(p, s, i2, errors, bit);
    if bit == BADSAMPLE {
      more := errors + 1;
      next := NextCompacted(sent, s, bytes, start, k, if c > d then 1 else 0, 0, 65535);
    } else {
      more := errors;
      next := NextCompacted(sent, s, bytes, start, k, bit, c, d);
    }
  }

  lemma NextCompacted(sent: seq<U16>, s: Scan, bytes: Bytes, start: nat, k: nat, bit: U16, a: U16, b: U16)
      returns (next: Scan)
    requires k < 8 * |bytes| && start + PREAMBLE_LEN + 16 * |bytes| <= |sent|
    requires Compacted(sent, s, bytes, start, k) && bit == BitOf(bytes, k)
    requires start + PREAMBLE_LEN + k <= s.i < |s.buf| - 1
    ensures next == AfterBit(s, start + PREAMBLE_LEN + k, bit, a, b) && Compacted(sent, next, bytes, start, k + 1)
  {
    hide BitOf;
    next := AfterBit(s, start + PREAMBLE_LEN + k, bit, a, b);
  }

  lemma BitIsBinary(bytes: Bytes, k: nat)
    requires k < 8 * |bytes|
    ensures BitOf(bytes, k) == 0 || BitOf(bytes, k) == 1
  {
  }

  lemma CarriesFits(sent: seq<U16>, bytes: Bytes, start: nat, level: U16)
    requires Carries(sent, bytes, start, level)
    ensures start + PREAMBLE_LEN + 16 * |bytes| <= |sent|
  {
  }

  lemma FoundIsMidway(p: Params, s: Scan, bytes: Bytes, start: nat)
    requires Arrives(p, s, bytes, start)
    ensures Midway(p, s.buf, Found(s), bytes, start, 0, 0)
    ensures forall q :: 0 <= q < start ==> Found(s).buf[q] == s.buf[q]
    ensures forall q :: start <= q < start + PREAMBLE_LEN ==> Found(s).buf[q] > 1
  {
    hide BitOf, SearchEnd, PreambleAt, BadPairs;
    SearchFindsStart(p, s, bytes, start, s.i);
    MarkedAt(s.buf, start);
    hide Marked;
  }

  lemma MarkedAt(buf: seq<U16>, i: nat)
    requires i + PREAMBLE_LEN <= |buf|
    ensures forall q :: 0 <= q < i ==> Marked(buf, i)[q] == buf[q]
    ensures forall q :: i <= q < i + PREAMBLE_LEN ==> Marked(buf, i)[q] == MESSAGEGO
    ensures forall q :: i + PREAMBLE_LEN <= q < |buf| ==> Marked(buf, i)[q] == buf[q]
  {
  }

  lemma FrameAfterTurn(p: Params, s: Scan, bytes: Bytes, start: nat)
    requires Arrives(p, s, bytes, start)
    ensures var t := Turn(p, s);
            Placed(t.buf, bytes, start + PREAMBLE_LEN) && t.i >= start + PREAMBLE_LEN + 16 * |bytes|
  {
    hide DecodeFrom, Found, Arrives, Placed, BadPairs;
    var f := Found(s);
    FoundIsMidway(p, s, bytes, start);
    assert f.i == start + PREAMBLE_LEN;
    hide Midway;
    FrameIsDecoded(p, s.buf, f, bytes, start, 0, 0);
  }

  lemma EarlierAfterTurn(p: Params, s: Scan, bytes: Bytes, start: nat)
    requires Arrives(p, s, bytes, start) && start + PREAMBLE_LEN <= |s.buf|
    ensures var t := Turn(p, s);
            && (forall q :: 0 <= q < start ==> t.buf[q] == s.buf[q])
            && forall q :: start <= q < start + PREAMBLE_LEN ==> t.buf[q] > 1
  {
    hide DecodeFrom, Found, Arrives, Placed, BadPairs;
    var f := Found(s);
    FoundIsMidway(p, s, bytes, start);
    assert f.i == start + PREAMBLE_LEN;
    hide Midway;
    forall q | 0 <= q < start + PREAMBLE_LEN
      ensures Turn(p, s).buf[q] == f.buf[q]
    {
      DecodeKeepsEarlier(p, f, f.i, 0, q);
    }
  }

  /** The frame is in the final buffer, and so is what stood before it. */
  lemma FrameAfterManchester(p: Params, s: Scan, bytes: Bytes, start: nat)
    requires Ends(p, s) && Arrives(p, s, bytes, start)
    ensures Placed(Manchester(p, s).buf, bytes, start + PREAMBLE_LEN)
    ensures forall q :: 0 <= q < start ==> Manchester(p, s).buf[q] == s.buf[q]
    ensures forall q :: start <= q < start + PREAMBLE_LEN ==> Manchester(p, s).buf[q] > 1
  {
    ArrivesInside(p, s, bytes, start);
    hide Ends, Turn, Arrives, Remaining, Placed;
    FrameAfterTurn(p, s, bytes, start);
    EarlierAfterTurn(p, s, bytes, start);
    ManchesterEnds(p, s);
    var t := Turn(p, s);
    assert Manchester(p, s) == Manchester(p, t);
    hide *;
    forall q | 0 <= q < start + PREAMBLE_LEN + 8 * |bytes|
      ensures Manchester(p, t).buf[q] == t.buf[q]
    {
      ManchesterKeepsEarlier(p, t, q);
    }
    PlacedAgain(t.buf, Manchester(p, t).buf, bytes, start + PREAMBLE_LEN);
  }

  lemma ArrivesInside(p: Params, s: Scan, bytes: Bytes, start: nat)
    requires Arrives(p, s, bytes, start)
    ensures |bytes| > 0 && s.i <= start && start + PREAMBLE_LEN + 16 * |bytes| <= |s.buf|
    ensures |Turn(p, s).buf| == |s.buf|
  {
    hide Turn;
  }

  lemma PlacedAgain(buf: seq<U16>, buf': seq<U16>, bytes: Bytes, data: nat)
    requires Placed(buf, bytes, data) && |buf'| == |buf|
    requires forall q :: 0 <= q < data + 8 * |bytes| ==> buf'[q] == buf[q]
    ensures Placed(buf', bytes, data)
  {
    hide BitOf;
  }

  /** The loop ends alike from every state that it passes through. */
  lemma {:induction false} ManchesterAfterTurns(p: Params, s: Scan, n: nat)
    requires Ends(p, s)
    ensures Ends(p, Turns(p, s, n)) && Manchester(p, Turns(p, s, n)) == Manchester(p, s)
  {
    hide Ends, Remaining;
    if n > 0 {
      var t := Turns(p, s, n - 1);
      ManchesterAfterTurns(p, s, n - 1);
      if AtEnd(t) {
        assert Turn(p, t) == t;
      } else {
        hide Turn;
        ManchesterEnds(p, t);
      }
    }
  }

  lemma {:induction false} MessagesSkip(buf: seq<U16>, i: nat, data: nat)
    requires i <= data <= |buf| && forall q :: i <= q < data ==> buf[q] > 1
    ensures MessagesFrom(buf, i) == MessagesFrom(buf, data)
    decreases data - i
  {
    if i < data { MessagesSkip(buf, i + 1, data); }
  }

  const TOP_BITS: seq<bv8> := [0x00, 0x80, 0xC0, 0xE0, 0xF0, 0xF8, 0xFC, 0xFE]

  /** The m most significant bits of v. */
  function TopBits(v: bv8, m: nat): bv8
    requires m < 8
  {
    v & TOP_BITS[m]
  }

  /** x with bit n set when it is set in v. */
  function AddBit(x: bv8, v: bv8, n: nat): bv8
    requires n < 8
  {
    if v & BIT_VALUE[n] != 0 then x | BIT_VALUE[n] else x
  }

  /** Byte n of a frame that holds the first k bits of the bytes. */
  function ByteAfter(bytes: Bytes, k: nat, n: nat): bv8 {
    if n >= |bytes| || k <= 8 * n then 0
    else if 8 * n + 8 <= k then bytes[n]
    else TopBits(bytes[n], k - 8 * n)
  }

  /** The first k bits of the bytes, in a frame of 14 bytes. */
  predicate HasBits(frame: Bytes, bytes: Bytes, k: nat) {
    |frame| == 14 && |bytes| <= 14 && k <= 8 * |bytes| && forall n :: 0 <= n < 14 ==> frame[n] == ByteAfter(bytes, k, n)
  }

  lemma NextBit(v: bv8, n: nat)
    requires n < 8
    ensures AddBit(TopBits(v, n), v, n) == if n == 7 then v else TopBits(v, n + 1)
    ensures TopBits(v, 0) == 0
  {
    MaskedBit(v, TOP_BITS[n], BIT_VALUE[n]);
    assert TOP_BITS[n] | BIT_VALUE[n] == if n == 7 then 0xff else TOP_BITS[n + 1];
  }

  lemma MaskedBit(v: bv8, top: bv8, bit: bv8)
    requires bit & (bit - 1) == 0
    ensures (if v & bit != 0 then (v & top) | bit else v & top) == v & (top | bit) && v & 0xff == v
  {
  }

  lemma WithNextBit(frame: Bytes, bytes: Bytes, k: nat)
    requires HasBits(frame, bytes, k) && k < 8 * |bytes|
    ensures HasBits(WithBit(frame, k, BitOf(bytes, k)), bytes, k + 1)
  {
    hide WithBit, BitOf, TopBits, AddBit;
    var n, m := k / 8, k % 8;
    assert k == 8 * n + m;
    NextBit(bytes[n], m);
    SetBit(frame, bytes, k);
    assert frame[n] == TopBits(bytes[n], m);
    var r := WithBit(frame, k, BitOf(bytes, k));
    assert r == frame[n := AddBit(frame[n], bytes[n], m)];
    forall n' | 0 <= n' < 14
      ensures r[n'] == ByteAfter(bytes, k + 1, n')
    {
      if n' != n { OtherBytes(bytes, k, n, n'); }
    }
  }

  lemma OtherBytes(bytes: Bytes, k: nat, n: nat, n': nat)
    requires 8 * n <= k < 8 * n + 8 && n' != n
    ensures ByteAfter(bytes, k + 1, n') == ByteAfter(bytes, k, n')
  {
  }

  lemma SetBit(frame: Bytes, bytes: Bytes, k: nat)
    requires |frame| == 14 && k < 8 * |bytes| && |bytes| <= 14
    ensures WithBit(frame, k, BitOf(bytes, k)) == frame[k / 8 := AddBit(frame[k / 8], bytes[k / 8], k % 8)]
    ensures TopBits(bytes[k / 8], 0) == 0
  {
  }

  /** The first n bits of a well-formed frame, with no more behind them or all of them, from position data on. */
  predicate BitsAt(buf: seq<U16>, bytes: Bytes, data: nat, n: nat) {
    && n <= 8 * |bytes| && data + n <= |buf|
    && (forall j :: 0 <= j < n ==> buf[data + j] == BitOf(bytes, j))
    && (n == 8 * |bytes| || data + n == |buf| || buf[data + n] > 1)
  }

  /** Collecting them stops exactly behind them. */
  lemma {:induction false} FrameIsCollected(buf: seq<U16>, bytes: Bytes, data: nat, n: nat, c: Collected)
    requires WellFormed(bytes) && BitsAt(buf, bytes, data, n)
    requires c.dataI <= n && c.i == data + c.dataI && HasBits(c.frame, bytes, c.dataI)
    requires c.frameLen == if c.dataI < 8 then LONG_FRAME else 8 * |bytes|
    ensures var r := Collect(buf, c);
            && r.dataI == n && r.i == data + n && HasBits(r.frame, bytes, n)
            && r.frameLen == if n < 8 then LONG_FRAME else 8 * |bytes|
    decreases n - c.dataI
  {
    hide BitOf, HasBits;
    if c.dataI < n {
      assert buf[data + c.dataI] == BitOf(bytes, c.dataI);
      var next := CollectOne(buf, bytes, data, c);
      hide *;
      FrameIsCollected(buf, bytes, data, n, next);
    }
  }

  lemma CollectOne(buf: seq<U16>, bytes: Bytes, data: nat, c: Collected) returns (next: Collected)
    requires WellFormed(bytes) && c.dataI < 8 * |bytes| && data + c.dataI < |buf|
    requires buf[data + c.dataI] == BitOf(bytes, c.dataI)
    requires c.i == data + c.dataI && HasBits(c.frame, bytes, c.dataI)
    requires c.frameLen == if c.dataI < 8 then LONG_FRAME else 8 * |bytes|
    ensures next.dataI == c.dataI + 1 && next.i == c.i + 1 && HasBits(next.frame, bytes, next.dataI)
    ensures next.frameLen == if next.dataI < 8 then LONG_FRAME else 8 * |bytes|
    ensures Collect(buf, c) == Collect(buf, next)
  {
    BitIsBinary(bytes, c.dataI);
    WithNextBit(c.frame, bytes, c.dataI);
    hide WithBit, BitOf;
    var frame := WithBit(c.frame, c.dataI, buf[c.i]);
    if c.dataI == 7 {
      assert frame[0] == bytes[0];
      TopBitNonzero(bytes[0]);
    }
    next := Collected(c.i + 1, c.dataI + 1, frame, if c.dataI == 7 then 8 * |bytes| else c.frameLen);
  }

  lemma TopBitNonzero(v: bv8)
    ensures v & 0x80 != 0 ==> v != 0
  {
  }

  /** The bytes as displayed: padded with zeros to 14. */
  function Padded(bytes: Bytes): Bytes
    requires |bytes| <= 14
  {
    bytes + seq(14 - |bytes|, _ => 0)
  }

  /**
   Every well-formed frame that arrives in some turn is displayed, at every quality setting and
   error allowance for which `manchester` ends.
   */
  lemma EveryFrameIsShown(p: Params, s: Scan, n: nat, bytes: Bytes, start: nat)
    requires Ends(p, s) && WellFormed(bytes) && Arrives(p, Turns(p, s, n), bytes, start)
    ensures Shown(Padded(bytes), 8 * |bytes|) in MessagesFrom(Manchester(p, s).buf, 0)
  {
    hide Ends, Arrives, Turns, Manchester, Placed, MessagesFrom, WellFormed;
    ManchesterAfterTurns(p, s, n);
    FrameAfterManchester(p, Turns(p, s, n), bytes, start);
    PlacedIsShown(Manchester(p, s).buf, bytes, start + PREAMBLE_LEN);
  }

  /** With no bit value before it in the buffer, one that arrives in the first turn is the first displayed. */
  lemma FrameIsShown(p: Params, sent: seq<U16>, bytes: Bytes, start: nat)
    requires Ends(p, Scan(sent, 0, 0, 0)) && WellFormed(bytes) && Arrives(p, Scan(sent, 0, 0, 0), bytes, start)
    requires start <= |sent| && forall q :: 0 <= q < start ==> sent[q] > 1
    ensures var shown := MessagesFrom(Manchester(p, Scan(sent, 0, 0, 0)).buf, 0);
            |shown| > 0 && shown[0] == Shown(Padded(bytes), 8 * |bytes|)
  {
    hide Ends, Arrives, Manchester, Placed, MessagesFrom, WellFormed;
    var buf := Manchester(p, Scan(sent, 0, 0, 0)).buf;
    FrameAfterManchester(p, Scan(sent, 0, 0, 0), bytes, start);
    PlacedInside(buf, bytes, start + PREAMBLE_LEN);
    MessagesSkip(buf, 0, start + PREAMBLE_LEN);
    PlacedIsFirst(buf, bytes, start + PREAMBLE_LEN);
  }

  /**
   On the samples of a dongle, one sent above a level after a constant background is, at every
   quality and with any number of errors allowed.
   */
  lemma ReceivedFrameIsShown(p: Params, iq: seq<Byte>, bytes: Bytes, start: nat, level: U16)
    requires WellFormed(bytes) && Carries(Magnitudes(iq), bytes, start, level)
    ensures Ends(p, Scan(Magnitudes(iq), 0, 0, 0))
    ensures var shown := MessagesFrom(Manchester(p, Scan(Magnitudes(iq), 0, 0, 0)).buf, 0);
            |shown| > 0 && shown[0] == Shown(Padded(bytes), 8 * |bytes|)
  {
    hide Ends, Carries, Manchester, MessagesFrom, Arrives;
    MagnitudesEnd(p, iq);
    assert |bytes| > 0;
    CarriesFits(Magnitudes(iq), bytes, start, level);
    CarriedFrameArrives(p, Magnitudes(iq), bytes, start, level);
    FrameIsShown(p, Magnitudes(iq), bytes, start);
  }

  /** The first n bits, in a frame of 14 bytes. */
  function FirstBits(bytes: Bytes, n: nat): (frame: Bytes)
    ensures |frame| == 14
  {
    seq(14, i requires 0 <= i < 14 => ByteAfter(bytes, n, i))
  }

  /**
   A run of bits at the start of a well-formed frame is displayed exactly when at most the last
   bit of the frame is missing, that bit then as 0.
   */
  lemma RunIsShown(buf: seq<U16>, bytes: Bytes, data: nat, n: nat)
    requires WellFormed(bytes) && BitsAt(buf, bytes, data, n) && n > 0
    ensures MessagesFrom(buf, data) ==
            (if n >= 8 * |bytes| - 1 then [Shown(FirstBits(bytes, n), 8 * |bytes|)] else []) +
            MessagesFrom(buf, data + n + 1)
  {
    hide BitOf, TopBits, Collect;
    assert buf[data + 0] == BitOf(bytes, 0);
    BitIsBinary(bytes, 0);
    EmptyFrame(bytes);
    var c := Collected(data, 0, ZERO_FRAME, LONG_FRAME);
    FrameIsCollected(buf, bytes, data, n, c);
    assert Collect(buf, c).frame == FirstBits(bytes, n);
    hide HasBits;
  }

  lemma PlacedInside(buf: seq<U16>, bytes: Bytes, data: nat)
    requires Placed(buf, bytes, data)
    ensures data + 8 * |bytes| <= |buf|
  {
  }

  lemma PlacedIsFirst(buf: seq<U16>, bytes: Bytes, data: nat)
    requires WellFormed(bytes) && Placed(buf, bytes, data)
    ensures MessagesFrom(buf, data) != [] && MessagesFrom(buf, data)[0] == Shown(Padded(bytes), 8 * |bytes|)
  {
    hide BitOf, ByteAfter, MessagesFrom;
    RunIsShown(buf, bytes, data, 8 * |bytes|);
    FullFrame(FirstBits(bytes, 8 * |bytes|), bytes);
  }

  lemma PlacedIsShown(buf: seq<U16>, bytes: Bytes, data: nat)
    requires WellFormed(bytes) && Placed(buf, bytes, data)
    ensures Shown(Padded(bytes), 8 * |bytes|) in MessagesFrom(buf, 0)
  {
    assert data <= |buf| && data > 0 && buf[data - 1] > 1;
    hide *;
    var before := ScanReaches(buf, 0, data);
    PlacedIsFirst(buf, bytes, data);
    assert MessagesFrom(buf, 0)[|before|] == MessagesFrom(buf, data)[0];
  }

  /** The scan comes to every position behind one that is no bit. */
  lemma {:induction false} ScanReaches(buf: seq<U16>, i: nat, data: nat) returns (before: seq<Shown>)
    requires i <= data <= |buf| && data > 0 && buf[data - 1] > 1
    ensures MessagesFrom(buf, i) == before + MessagesFrom(buf, data)
    decreases data - i
  {
    if i == data {
      before := [];
    } else {
      MessagesStep(buf, i);
      if buf[i] > 1 {
        before := ScanReaches(buf, i + 1, data);
      } else {
        var c := Collect(buf, Collected(i, 0, ZERO_FRAME, LONG_FRAME));
        CollectStops(buf, Collected(i, 0, ZERO_FRAME, LONG_FRAME), data - 1);
        hide *;
        before := ScanReaches(buf, c.i + 1, data);
        if c.dataI >= c.frameLen - 1 {
          Reassociate([Shown(c.frame, c.frameLen)], before, MessagesFrom(buf, data));
          before := [Shown(c.frame, c.frameLen)] + before;
        }
      }
    }
  }

  lemma {:induction false} CollectStops(buf: seq<U16>, c: Collected, q: nat)
    requires |c.frame| == 14 && c.frameLen <= LONG_FRAME && c.i <= q < |buf| && buf[q] > 1
    ensures Collect(buf, c).i <= q
    decreases |buf| - c.i
  {
    hide WithBit;
    if c.i < q && buf[c.i] <= 1 && c.dataI < c.frameLen {
      var frame := WithBit(c.frame, c.dataI, buf[c.i]);
      if c.dataI != 7 || frame[0] != 0 {
        var frameLen := if c.dataI != 7 then c.frameLen else if frame[0] & 0x80 != 0 then LONG_FRAME else SHORT_FRAME;
        CollectStops(buf, Collected(c.i + 1, c.dataI + 1, frame, frameLen), q);
      }
    }
  }

  /** Eight zeros are no frame: collecting stops on the last of them. */
  lemma ZeroByteIsSkipped(buf: seq<U16>, data: nat)
    requires data + 8 <= |buf| && forall q :: data <= q < data + 8 ==> buf[q] == 0
    ensures MessagesFrom(buf, data) == MessagesFrom(buf, data + 8)
  {
    ZerosCollected(buf, data, 0);
    assert buf[data + 0] == 0;
    hide Collect;
  }

  lemma {:induction false} ZerosCollected(buf: seq<U16>, data: nat, j: nat)
    requires data + 8 <= |buf| && (forall q :: data <= q < data + 8 ==> buf[q] == 0) && j < 8
    ensures Collect(buf, Collected(data + j, j, ZERO_FRAME, LONG_FRAME)) ==
            Collected(data + 7, 7, ZERO_FRAME, LONG_FRAME)
    decreases 8 - j
  {
    assert buf[data + j] == 0;
    if j < 7 { ZerosCollected(buf, data, j + 1); }
  }

  lemma EmptyFrame(bytes: Bytes)
    requires |bytes| <= 14
    ensures HasBits(ZERO_FRAME, bytes, 0)
  {
    assert forall n :: 0 <= n < 14 ==> ZERO_FRAME[n] == 0;
  }

  lemma FullFrame(frame: Bytes, bytes: Bytes)
    requires HasBits(frame, bytes, 8 * |bytes|)
    ensures frame == Padded(bytes)
  {
  }
}
