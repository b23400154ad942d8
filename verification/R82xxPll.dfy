/** PLL synthesis of src/tuner_r82xx.c: the arithmetic of `r82xx_set_pll`. */
module R82xxPll {
  import opened Collections
  import opened Pow2s

  const VCO_MIN := 1770000
  const VCO_MAX := 3540000

  predicate InVco(freqKhz: nat, mixDiv: nat) {
    VCO_MIN <= freqKhz * mixDiv < VCO_MAX
  }

  /** The k-th candidate divider, 2 to 64. */
  predicate IsDivider(mixDiv: nat, k: nat) {
    1 <= k <= 6 && mixDiv == Pow2(k)
  }

  /** The frequency has a divider that puts the VCO in its range. */
  ghost predicate Tunable(freqKhz: nat) {
    exists k: nat :: 1 <= k <= 6 && InVco(freqKhz, Pow2(k))
  }

  lemma DividerBelow(freqKhz: nat, j: nat, k: nat)
    requires j < k && freqKhz * Pow2(j) >= VCO_MIN
    ensures freqKhz * Pow2(k) >= VCO_MAX
  {
    Pow2StrictlyMonotone(j, k);
    Pow2Add(k - j, j);
    assert Pow2(k - j) >= 2 by { Pow2StrictlyMonotone(0, k - j); }
    var v := freqKhz * Pow2(j);
    assert freqKhz * Pow2(k) == Pow2(k - j) * v by {
      MulRearrange(freqKhz, Pow2(k - j), Pow2(j));
    }
    MulNonneg(Pow2(k - j) - 2, v);
    MulSub(v, Pow2(k - j), 2);
  }

  lemma MulRearrange(a: nat, b: nat, c: nat)
    ensures a * (b * c) == b * (a * c)
  {
  }

  /** The dividers cover all frequencies from 27.657 MHz up to 1770 MHz, octave by octave, and no others. */
  lemma TunableExactly(freqKhz: nat)
    ensures Tunable(freqKhz) <==> 27657 <= freqKhz < 1770000
  {
    assert Pow2(1) == 2 && Pow2(2) == 4 && Pow2(3) == 8;
    assert Pow2(4) == 16 && Pow2(5) == 32 && Pow2(6) == 64;
    if 27657 <= freqKhz < 1770000 {
      var k := if freqKhz >= 885000 then 1 else if freqKhz >= 442500 then 2 else if freqKhz >= 221250 then 3
               else if freqKhz >= 110625 then 4 else if freqKhz >= 55313 then 5 else 6;
      assert InVco(freqKhz, Pow2(k));
    }
  }

  /** At most one divider fits. */
  lemma DividerUnique(freqKhz: nat, j: nat, k: nat)
    requires InVco(freqKhz, Pow2(j)) && InVco(freqKhz, Pow2(k))
    ensures j == k
  {
    if j < k { DividerBelow(freqKhz, j, k); }
    if k < j { DividerBelow(freqKhz, k, j); }
  }

  /** The divider search: the only divider that fits and its number, or 128 and 0 when none does. */
  method FindDivider(freqKhz: nat) returns (mixDiv: nat, divNum: nat)
    ensures Tunable(freqKhz) ==> IsDivider(mixDiv, divNum + 1) && InVco(freqKhz, mixDiv)
    ensures !Tunable(freqKhz) ==> mixDiv == 128 && divNum == 0
  {
    mixDiv, divNum := 2, 0;
    ghost var k := 1;
    while mixDiv <= 64
      invariant 1 <= k <= 7 && mixDiv == Pow2(k) && divNum == 0
      invariant forall j: nat :: 1 <= j < k ==> !InVco(freqKhz, Pow2(j))
      decreases 128 - mixDiv
    {
      SmallPowers();
      if freqKhz * mixDiv >= VCO_MIN && freqKhz * mixDiv < VCO_MAX {
        divNum := DividerNumber(mixDiv, k);
        assert InVco(freqKhz, Pow2(k));
        return;
      }
      // an 8-bit shift; 64 becomes 128, which ends the loop
      mixDiv := (mixDiv * 2) % 256;
      k := k + 1;
    }
    SmallPowers();
  }

  lemma SmallPowers()
    ensures Pow2(0) == 1 && Pow2(1) == 2 && Pow2(2) == 4 && Pow2(3) == 8 && Pow2(4) == 16 && Pow2(5) == 32
    ensures Pow2(6) == 64 && Pow2(7) == 128
  {
    assert Pow2(3) == 8;
    assert Pow2(5) == 32;
  }

  method DividerNumber(mixDiv: nat, ghost k: nat) returns (divNum: nat)
    requires IsDivider(mixDiv, k)
    ensures divNum + 1 == k
  {
    var divBuf := mixDiv;
    divNum := 0;
    while divBuf > 2
      invariant divNum + 1 <= k && divBuf == Pow2(k - divNum)
    {
      divBuf := divBuf / 2;
      divNum := divNum + 1;
    }
    if divNum + 1 < k { Pow2StrictlyMonotone(1, k - divNum); }
  }

  // ---- the sigma-delta value

  /** Reference steps: 2 * pll_ref_khz / n at step n = 2^j. */
  function StepOf(d: nat, j: nat): nat {
    Quotient(d, Pow2(j))
  }

  lemma HalfStep(d: nat, j: nat)
    ensures StepOf(d, j) <= 2 * StepOf(d, j + 1) + 1
    ensures Pow2(j) * StepOf(d, j) <= d < Pow2(j) * StepOf(d, j) + Pow2(j)
    ensures StepOf(d, j) == Quotient(d, Pow2(j))
  {
    StepBounds(d, Pow2(j));
  }

  lemma StepBounds(d: nat, n: nat)
    requires n > 0
    ensures Quotient(d, n) <= 2 * Quotient(d, 2 * n) + 1
    ensures n * Quotient(d, n) <= d < n * Quotient(d, n) + n
  {
    var a, b := d / n, d / (2 * n);
    DivModDef(d, n);
    DivModDef(d, 2 * n);
    MulComm(a, n);
    if a > 2 * b + 1 {
      MulNonneg(a - (2 * b + 2), n);
      MulSub(n, a, 2 * b + 2);
      MulDouble(b, n);
    }
  }

  /** How the search ends: with a fraction, or with n_sdm shifted to 0 and used as a divisor. */
  datatype Search = Found(sdm: nat) | DividesByZero

  /** The search from step size 2^j on; d is twice the reference in kHz. */
  function SdmFrom(vcoFra: nat, d: nat, sdm: nat, j: nat): Search
    requires 1 <= j <= 16
    decreases 16 - j
  {
    if vcoFra <= 1 then Found(sdm)
    else if j == 16 then DividesByZero
    else if vcoFra <= StepOf(d, j) then SdmFrom(vcoFra, d, sdm, j + 1)
    else if j == 15 then Found(sdm + Pow2(16 - j))
    else SdmFrom(vcoFra - StepOf(d, j), d, sdm + Pow2(16 - j), j + 1)
  }

  /** How far the fraction may be missed, in kHz: 16 at most for references below 32768 kHz. */
  function Tolerance(pllRefKhz: nat): (t: nat)
    ensures pllRefKhz < 32768 ==> t <= 16
  {
    15 + 2 * pllRefKhz / 32768
  }

  predicate Meets(vcoFra: nat, pllRefKhz: nat, sdm: nat) {
    var t := Tolerance(pllRefKhz) * 65536;
    -t <= 65536 * vcoFra - 2 * pllRefKhz * sdm <= t
  }

  /**
   The bit-by-bit approximation. Its result fits 16 bits, and if at most twice the reference is
   wanted, the fraction is met within the tolerance.
   */
  method SigmaDelta(vcoFra0: nat, pllRefKhz: nat) returns (r: Search)
    ensures r == SdmFrom(vcoFra0, 2 * pllRefKhz, 0, 1)
    ensures r.Found? ==> r.sdm <= 65535 && (vcoFra0 <= 2 * pllRefKhz ==> Meets(vcoFra0, pllRefKhz, r.sdm))
  {
    hide *;
    var vcoFra: nat, nSdm: nat, sdm: nat := vcoFra0, 2, 0;
    ghost var j: nat, d: nat := 1, 2 * pllRefKhz;
    FirstStep(vcoFra0, pllRefKhz);
    while vcoFra > 1
      invariant 1 <= j <= 16 && nSdm == (if j == 16 then 0 else Pow2(j)) && Searching(vcoFra0, vcoFra, d, sdm, j)
      invariant SdmFrom(vcoFra, d, sdm, j) == SdmFrom(vcoFra0, d, 0, 1)
      decreases 16 - j
    {
      OneStep(vcoFra, d, sdm, j);
      if nSdm == 0 {
        if j < 16 { PowersTo15(j); }
        return DividesByZero;
      }
      PowersTo15(j);
      var step := Quotient(2 * pllRefKhz, nSdm);
      NextStep(vcoFra0, vcoFra, d, sdm, j);
      if vcoFra > step {
        sdm := sdm + 32768 / (nSdm / 2);
        vcoFra := vcoFra - step;
        if nSdm >= 0x8000 {
          FinalStep(vcoFra0, vcoFra, pllRefKhz, sdm);
          return Found(sdm);
        }
      }
      nSdm := (2 * nSdm) % 0x1_0000;
      j := j + 1;
    }
    LastStep(vcoFra, d, sdm, j);
    Bounded(vcoFra0, vcoFra, pllRefKhz, sdm, j);
    r := Found(sdm);
  }

  lemma OneStep(vcoFra: nat, d: nat, sdm: nat, j: nat)
    requires 1 <= j <= 16 && vcoFra > 1
    ensures SdmFrom(vcoFra, d, sdm, j) ==
              if j == 16 then DividesByZero
              else if vcoFra <= Quotient(d, Pow2(j)) then SdmFrom(vcoFra, d, sdm, j + 1)
              else if j == 15 then Found(sdm + Pow2(16 - j))
              else SdmFrom(vcoFra - Quotient(d, Pow2(j)), d, sdm + Pow2(16 - j), j + 1)
  {
    hide Quotient, Pow2;
  }

  lemma LastStep(vcoFra: nat, d: nat, sdm: nat, j: nat)
    requires 1 <= j <= 16 && vcoFra <= 1
    ensures SdmFrom(vcoFra, d, sdm, j) == Found(sdm)
  {
  }

  /** No fraction divides by zero exactly for references below 32768 kHz. */
  lemma NeverDividesByZero(pllRefKhz: nat)
    ensures (forall vcoFra: nat :: SdmFrom(vcoFra, 2 * pllRefKhz, 0, 1).Found?) <==> pllRefKhz < 32768
  {
    if pllRefKhz < 32768 {
      forall vcoFra: nat
        ensures SdmFrom(vcoFra, 2 * pllRefKhz, 0, 1).Found?
      {
        AlwaysFound(vcoFra, 2 * pllRefKhz, 0, 1);
      }
    } else {
      TwoKhzLeft(2 * pllRefKhz, 0, 1);
    }
  }

  /** At the last step size a remainder above 1 is taken, so n_sdm is not shifted to zero. */
  lemma {:induction false} AlwaysFound(vcoFra: nat, d: nat, sdm: nat, j: nat)
    requires d < 65536 && 1 <= j <= 15
    ensures SdmFrom(vcoFra, d, sdm, j).Found?
    decreases 16 - j
  {
    if j == 15 {
      LargePowers();
      assert StepOf(d, j) <= 1;
      hide StepOf, Pow2;
    } else if vcoFra > 1 {
      hide StepOf, Pow2;
      if vcoFra <= StepOf(d, j) {
        AlwaysFound(vcoFra, d, sdm, j + 1);
      } else {
        AlwaysFound(vcoFra - StepOf(d, j), d, sdm + Pow2(16 - j), j + 1);
      }
    }
  }

  /** With a larger reference every step is at least 2 kHz, and a fraction of 2 kHz is never taken. */
  lemma {:induction false} TwoKhzLeft(d: nat, sdm: nat, j: nat)
    requires d >= 65536 && 1 <= j <= 16
    ensures SdmFrom(2, d, sdm, j) == DividesByZero
    decreases 16 - j
  {
    if j < 16 {
      PowersTo15(j);
      HalfStep(d, j);
      if j < 15 { Pow2StrictlyMonotone(j, 15); }
      LargePowers();
      hide StepOf, Pow2;
      if StepOf(d, j) < 2 { MulAtMost(StepOf(d, j), 1, Pow2(j)); MulComm(StepOf(d, j), Pow2(j)); }
      TwoKhzLeft(d, sdm, j + 1);
    }
  }

  /** The state before step size 2^j: what is left fits the steps to come, and sdm their bits. */
  predicate Searching(vcoFra0: nat, vcoFra: nat, d: nat, sdm: nat, j: nat) {
    && 1 <= j <= 16 && sdm + 2 * Pow2(16 - j) <= 65536
    && (vcoFra0 <= d ==> vcoFra <= 2 * StepOf(d, j) + (j - 1))
    && Approximates(vcoFra0, vcoFra, d, sdm, j - 1)
  }

  lemma FirstStep(vcoFra0: nat, pllRefKhz: nat)
    ensures Searching(vcoFra0, vcoFra0, 2 * pllRefKhz, 0, 1) && Pow2(1) == 2
  {
    LargePowers();
    assert StepOf(2 * pllRefKhz, 1) == pllRefKhz;
  }

  /** After one step size, taken or not. */
  lemma NextStep(vcoFra0: nat, vcoFra: nat, d: nat, sdm: nat, j: nat)
    requires 1 <= j <= 15 && Searching(vcoFra0, vcoFra, d, sdm, j)
    ensures var step := Quotient(d, Pow2(j));
            if vcoFra <= step then Searching(vcoFra0, vcoFra, d, sdm, j + 1)
            else Searching(vcoFra0, vcoFra - step, d, sdm + Pow2(16 - j), j + 1)
  {
    var step := Quotient(d, Pow2(j));
    HalfStep(d, j);
    PowersTo15(j);
    hide Quotient, StepOf;
    if vcoFra <= step {
      StepSkipped(vcoFra0, vcoFra, d, sdm, j - 1);
    } else {
      StepTaken(vcoFra0, vcoFra, d, sdm, j);
    }
  }

  lemma FinalStep(vcoFra0: nat, vcoFra: nat, pllRefKhz: nat, sdm: nat)
    requires Searching(vcoFra0, vcoFra, 2 * pllRefKhz, sdm, 16)
    ensures sdm <= 65535 && (vcoFra0 <= 2 * pllRefKhz ==> Meets(vcoFra0, pllRefKhz, sdm))
  {
    var d := 2 * pllRefKhz;
    LargePowers();
    assert StepOf(d, 16) == d / 65536;
    assert 2 * (d / 65536) <= d / 32768;
    assert Pow2(0) == 1;
    hide StepOf, Pow2;
  }

  /** sdm stands for what was subtracted, up to one rounding per step. */
  predicate Approximates(vcoFra0: nat, vcoFra: nat, d: nat, sdm: nat, steps: nat) {
    && vcoFra <= vcoFra0
    && 65536 * (vcoFra0 - vcoFra) <= d * sdm <= 65536 * (vcoFra0 - vcoFra) + 65536 * steps
  }

  lemma PowersTo15(j: nat)
    requires 1 <= j <= 15
    ensures Pow2(16 - j) * Pow2(j) == 65536 && 32768 / (Pow2(j) / 2) == Pow2(16 - j)
    ensures Pow2(j) >= 2 && (Pow2(j) >= 0x8000 <==> j == 15)
    ensures 2 * Pow2(16 - (j + 1)) == Pow2(16 - j) && Pow2(j + 1) == 2 * Pow2(j)
  {
    LargePowers();
    Pow2Add(16 - j, j);
    Pow2Add(16 - j, j - 1);
    Pow2Even(j);
    Pow2Even(j + 1);
    Pow2Even(16 - j);
    if j < 15 { Pow2StrictlyMonotone(j, 15); }
    if j > 1 { Pow2StrictlyMonotone(1, j); }
    hide Pow2;
    DivModUnique(32768, Pow2(j - 1), Pow2(16 - j), 0);
  }

  lemma LargePowers()
    ensures Pow2(8) == 256 && Pow2(9) == 512 && Pow2(10) == 1024 && Pow2(11) == 2048 && Pow2(12) == 4096
    ensures Pow2(13) == 8192 && Pow2(14) == 16384 && Pow2(15) == 32768 && Pow2(16) == 65536
    ensures Pow2(1) == 2 && Pow2(2) == 4 && Pow2(3) == 8 && Pow2(4) == 16 && Pow2(5) == 32 && Pow2(6) == 64 &&
            Pow2(7) == 128
  {
    SmallPowers();
    assert Pow2(9) == 512;
    assert Pow2(11) == 2048;
    assert Pow2(13) == 8192;
    assert Pow2(15) == 32768;
  }

  lemma StepSkipped(vcoFra0: nat, vcoFra: nat, d: nat, sdm: nat, steps: nat)
    requires Approximates(vcoFra0, vcoFra, d, sdm, steps)
    ensures Approximates(vcoFra0, vcoFra, d, sdm, steps + 1) && vcoFra <= vcoFra0
  {
  }

  lemma StepTaken(vcoFra0: nat, vcoFra: nat, d: nat, sdm: nat, j: nat)
    requires 1 <= j <= 15 && StepOf(d, j) < vcoFra && Approximates(vcoFra0, vcoFra, d, sdm, j - 1)
    ensures Approximates(vcoFra0, vcoFra - StepOf(d, j), d, sdm + Pow2(16 - j), j)
  {
    PowersTo15(j);
    HalfStep(d, j);
    var p, q, n := Pow2(16 - j), StepOf(d, j), Pow2(j);
    MulAdd(d, sdm, p);
    RoundedProduct(p, n, q, d);
  }

  lemma RoundedProduct(p: nat, n: nat, q: nat, d: nat)
    requires p * n == 65536 && n * q <= d < n * q + n
    ensures 65536 * q <= d * p <= 65536 * q + 65536
  {
    MulNonneg(p, d - n * q);
    MulSub(p, d, n * q);
    MulNonneg(p, n * q + n - d);
    MulSub(p, n * q + n, d);
    MulAdd(p, n * q, n);
    assert p * (n * q) == (p * n) * q;
  }

  lemma Bounded(vcoFra0: nat, vcoFra: nat, pllRefKhz: nat, sdm: nat, j: nat)
    requires Searching(vcoFra0, vcoFra, 2 * pllRefKhz, sdm, j) && vcoFra <= 1
    ensures sdm <= 65535 && Meets(vcoFra0, pllRefKhz, sdm)
  {
    hide StepOf;
  }

  // ---- the whole synthesis

  datatype Chip = R820T | R828D

  /** The divider search and the values written to the tuner: register 0x14 and the fraction. */
  datatype Pll = Pll(mixDiv: nat, divNum: nat, nint: nat, reg14: nat, vcoFra: nat, sdm: nat)

  /** How r82xx_set_pll goes on: it refuses, divides by zero, or writes. */
  datatype Outcome = Refused | DividedByZero | Written(pll: Pll)

  const TWO31 := 0x8000_0000
  const TWO32 := 0x1_0000_0000

  function MaxNint(chip: Chip): nat {
    if chip == R828D then 127 else 63
  }

  /** The integer part that register 0x14 stands for: ni in its low six bits, si above. */
  function DecodedNint(reg14: nat): nat {
    13 + 4 * (reg14 % 64) + reg14 / 64
  }

  /** C division of a difference that may be negative. */
  function TruncatedQuarter(x: int): int {
    if x >= 0 then x / 4 else -((-x) / 4)
  }

  function FreqKhz(freq: nat): nat {
    ((freq + 500) % TWO32) / 1000
  }

  /** Rounded to the nearest kHz. */
  lemma NearestKhz(freq: nat)
    requires freq < TWO32 - 500
    ensures 1000 * FreqKhz(freq) - 500 <= freq < 1000 * FreqKhz(freq) + 500
  {
    SmallMod(freq + 500, TWO32);
  }

  /** What is above the limit: a VCO of 256 times the crystal on an R828D, of 128 times on the others. */
  lemma AboveTheLimit(vcoFreq: nat, xtal: nat, chip: Chip)
    requires 0 < xtal
    ensures Quotient(vcoFreq, 2 * xtal) > MaxNint(chip) <==> vcoFreq >= (if chip == R828D then 256 else 128) * xtal
  {
    var q := Quotient(vcoFreq, 2 * xtal);
    DivModDef(vcoFreq, 2 * xtal);
    hide Quotient;
    if q > MaxNint(chip) {
      MulAtMost(MaxNint(chip) + 1, q, 2 * xtal);
    } else {
      MulAtMost(q, MaxNint(chip), 2 * xtal);
    }
  }

  /** The VCO is in its range, and rounding the frequency to kHz does not overflow. */
  predicate InRange(freq: nat, mixDiv: nat) {
    freq < TWO32 - 500 && InVco(FreqKhz(freq), mixDiv)
  }

  /** The crystal is fast enough for an integer part of 8 bits. */
  predicate FitsByte(vcoFreq: nat, xtal: nat) {
    vcoFreq < 512 * xtal
  }

  /** The integer part as the program keeps it, in 8 bits. */
  function NarrowInteger(vcoFreq: nat, xtal: nat): (nint: nat)
    requires 0 < xtal
    ensures nint < 256
  {
    Quotient(vcoFreq, 2 * xtal) % 256
  }

  /** What is subtracted from the VCO frequency: a 32-bit product of the 8-bit integer part. */
  function WholeSteps(vcoFreq: nat, xtal: nat): nat
    requires 0 < xtal
  {
    (2 * xtal * NarrowInteger(vcoFreq, xtal)) % TWO32
  }

  /** The rest in kHz. */
  function FractionKhz(vcoFreq: nat, xtal: nat): nat
    requires 0 < xtal
  {
    WholeStepsBelow(vcoFreq, xtal);
    (vcoFreq - WholeSteps(vcoFreq, xtal)) / 1000 % TWO32
  }

  /** Twice the crystal, in 32 bits: right below 2^31 Hz, and a divisor of 0 at 2^31. */
  lemma TwiceTheCrystal(xtal: nat)
    requires 0 < xtal < TWO32
    ensures (2 * xtal) % TWO32 == 2 * xtal <==> xtal < TWO31
    ensures (2 * xtal) % TWO32 == 0 <==> xtal == TWO31
  {
  }

  /**
   The arithmetic of r82xx_set_pll. Its 8-bit integer part is the integer part of the VCO
   frequency over twice the reference exactly when that fits, and only then, or by chance, does
   it refuse exactly what is above the limit of the chip. With the VCO in range, register 0x14
   decodes to the integer part exactly when it is 13 at least and fits, and the fraction is met
   exactly when it fits. For crystals below 32768 kHz it is 27 at least, and nothing is divided
   by zero.
   */
  method SetPll(freq: nat, xtal: nat, chip: Chip) returns (mixDiv: nat, nint: nat, p: Outcome)
    requires freq < TWO32 && 0 < xtal < TWO31
    ensures Tunable(FreqKhz(freq)) ==> InVco(FreqKhz(freq), mixDiv) && exists k :: IsDivider(mixDiv, k)
    ensures nint == Quotient(freq * mixDiv, 2 * xtal) <==> FitsByte(freq * mixDiv, xtal)
    ensures (p.Refused? <==> Quotient(freq * mixDiv, 2 * xtal) > MaxNint(chip))
            <==> FitsByte(freq * mixDiv, xtal) || NarrowInteger(freq * mixDiv, xtal) > MaxNint(chip)
    ensures nint == NarrowInteger(freq * mixDiv, xtal) && (p.Refused? <==> nint > MaxNint(chip))
    ensures p.DividedByZero? <==>
            nint <= MaxNint(chip) && SdmFrom(FractionKhz(freq * mixDiv, xtal), 2 * FreqKhz(xtal), 0, 1).DividesByZero?
    ensures FreqKhz(xtal) < 32768 ==> !p.DividedByZero?
    ensures p.Written? ==> var v := p.pll;
              && v.mixDiv == mixDiv && v.nint == nint && v.sdm <= 65535
              && v.vcoFra == FractionKhz(freq * mixDiv, xtal)
              && (DecodedNint(v.reg14) == nint <==> nint >= 13)
              && (Tunable(FreqKhz(freq)) ==> IsDivider(mixDiv, v.divNum + 1))
    ensures p.Written? && InRange(freq, mixDiv) ==> var v, q := p.pll, Quotient(freq * mixDiv, 2 * xtal);
              && (DecodedNint(v.reg14) == q <==> q >= 13 && FitsByte(freq * mixDiv, xtal))
              && (Meets(v.vcoFra, FreqKhz(xtal), v.sdm) <==> FitsByte(freq * mixDiv, xtal))
    ensures InRange(freq, mixDiv) && FitsByte(freq * mixDiv, xtal) ==>
              && FractionKhz(freq * mixDiv, xtal) == (freq * mixDiv - 2 * xtal * nint) / 1000
              && (FreqKhz(xtal) < 32768 ==> nint >= 27)
  {
    var freqKhz, pllRefKhz := FreqKhz(freq), FreqKhz(xtal);
    var divNum;
    mixDiv, divNum := FindDivider(freqKhz);
    DividerRange(mixDiv, freqKhz, divNum);
    assert InRange(freq, mixDiv) ==> freq < TWO32 - 500 && InVco(FreqKhz(freq), mixDiv);
    hide *;
    var vcoFreq := freq * mixDiv;
    nint := NarrowInteger(vcoFreq, xtal);
    var vcoFra := FractionKhz(vcoFreq, xtal);
    LimitBelow128(chip);
    NarrowIsExact(vcoFreq, xtal, MaxNint(chip));
    NeverDividesByZero(pllRefKhz);
    if InRange(freq, mixDiv) {
      VcoBound(freq, mixDiv);
      if FitsByte(vcoFreq, xtal) { FittingInteger(vcoFreq, xtal); }
    }
    if nint > MaxNint(chip) { return mixDiv, nint, Refused; }
    var reg14 := IntegerRegister(nint);
    var search := SigmaDelta(vcoFra, pllRefKhz);
    if search.DividesByZero? { return mixDiv, nint, DividedByZero; }
    if InRange(freq, mixDiv) { RightExactlyWhenFitting(vcoFreq, xtal, search.sdm); }
    p := Written(Pll(mixDiv, divNum, nint, reg14, vcoFra, search.sdm));
  }

  lemma LimitBelow128(chip: Chip)
    ensures MaxNint(chip) <= 127
  {
  }

  /** The 8-bit integer part against the true one, for a limit below 128. */
  lemma NarrowIsExact(vcoFreq: nat, xtal: nat, limit: nat)
    requires 0 < xtal && limit < 128
    ensures var q, nint := Quotient(vcoFreq, 2 * xtal), NarrowInteger(vcoFreq, xtal);
            && (nint == q <==> FitsByte(vcoFreq, xtal))
            && (FitsByte(vcoFreq, xtal) <==> q < 256)
            && ((nint > limit <==> q > limit) <==> FitsByte(vcoFreq, xtal) || nint > limit)
  {
    var q := Quotient(vcoFreq, 2 * xtal);
    DivModDef(vcoFreq, 2 * xtal);
    hide Quotient;
    if FitsByte(vcoFreq, xtal) {
      BlockBelow(q, 256, 2 * xtal, vcoFreq);
    } else if q < 256 {
      MulAtMost(q, 255, 2 * xtal);
    }
  }

  /** What fits is computed without wrapping, and never small with the VCO in range and a crystal below 32768 kHz. */
  lemma FittingInteger(vcoFreq: nat, xtal: nat)
    requires 1000 * VCO_MIN - 500 * 128 <= vcoFreq < TWO32 && 0 < xtal < TWO31 && FitsByte(vcoFreq, xtal)
    ensures FreqKhz(xtal) < 32768 ==> NarrowInteger(vcoFreq, xtal) >= 27
    ensures vcoFreq - 2 * xtal * NarrowInteger(vcoFreq, xtal) >= 0
    ensures FractionKhz(vcoFreq, xtal) ==
            (vcoFreq - 2 * xtal * NarrowInteger(vcoFreq, xtal)) / 1000 <= 2 * FreqKhz(xtal)
  {
    NarrowIsExact(vcoFreq, xtal, 0);
    WholeStepsExact(vcoFreq, xtal);
    hide FreqKhz, NarrowInteger, WholeSteps, Quotient;
    if FreqKhz(xtal) < 32768 { LargeIntegerPart(vcoFreq, xtal); }
    FractionInKhz(vcoFreq - WholeSteps(vcoFreq, xtal), xtal);
  }

  /** One that does not fit leaves more than twice the reference and 16 kHz as fraction. */
  lemma FractionTooLarge(vcoFreq: nat, xtal: nat)
    requires 1000 * VCO_MIN - 500 * 128 <= vcoFreq < TWO32 && 0 < xtal < TWO31 && !FitsByte(vcoFreq, xtal)
    ensures FreqKhz(xtal) < 32768 && FractionKhz(vcoFreq, xtal) > 2 * FreqKhz(xtal) + 16
  {
    var q, nint := Quotient(vcoFreq, 2 * xtal), NarrowInteger(vcoFreq, xtal);
    NarrowIsExact(vcoFreq, xtal, 0);
    DivModDef(vcoFreq, 2 * xtal);
    WholeStepsBelow(vcoFreq, xtal);
    SmallerModulo(2 * xtal * nint, TWO32) by { MulNonneg(2 * xtal, nint); }
    hide Quotient, FreqKhz;
    MulComm(nint, 2 * xtal);
    MulAtMost(nint, 255, 2 * xtal);
    DivModDef(q, 256);
    assert q >= nint + 256;
    MulAtMost(nint + 256, q, 2 * xtal);
    MulAdd(2 * xtal, nint, 256);
    hide WholeSteps, NarrowInteger, FitsByte;
    LargeRest(vcoFreq - WholeSteps(vcoFreq, xtal), xtal);
  }

  lemma LargeRest(rest: nat, xtal: nat)
    requires 0 < xtal
    requires rest >= 512 * xtal && rest + 510 * xtal >= 1000 * VCO_MIN - 500 * 128 && rest < TWO32
    ensures FreqKhz(xtal) < 32768 && rest / 1000 % TWO32 > 2 * FreqKhz(xtal) + 16
  {
  }

  /** With the VCO in range, register and fraction are right exactly for an integer part that fits. */
  lemma RightExactlyWhenFitting(vcoFreq: nat, xtal: nat, sdm: nat)
    requires 1000 * VCO_MIN - 500 * 128 <= vcoFreq < TWO32 && 0 < xtal < TWO31
    requires NarrowInteger(vcoFreq, xtal) <= 127 && sdm <= 65535
    requires FractionKhz(vcoFreq, xtal) <= 2 * FreqKhz(xtal) ==> Meets(FractionKhz(vcoFreq, xtal), FreqKhz(xtal), sdm)
    ensures DecodedNint(IntegerRegister(NarrowInteger(vcoFreq, xtal))) == Quotient(vcoFreq, 2 * xtal) <==>
            Quotient(vcoFreq, 2 * xtal) >= 13 && FitsByte(vcoFreq, xtal)
    ensures Meets(FractionKhz(vcoFreq, xtal), FreqKhz(xtal), sdm) <==> FitsByte(vcoFreq, xtal)
  {
    hide FreqKhz, FractionKhz, WholeSteps, Quotient, FitsByte, DecodedNint, IntegerRegister, Meets;
    var q, nint := Quotient(vcoFreq, 2 * xtal), NarrowInteger(vcoFreq, xtal);
    assert q % 256 == nint;
    hide NarrowInteger;
    NarrowIsExact(vcoFreq, xtal, 0);
    if FitsByte(vcoFreq, xtal) {
      FittingInteger(vcoFreq, xtal);
    } else {
      NoLargeInteger(nint, q);
      FractionTooLarge(vcoFreq, xtal);
      Unmet(FractionKhz(vcoFreq, xtal), FreqKhz(xtal), sdm);
    }
  }

  /** Register 0x14 never decodes to an integer part of which only the low 8 bits were kept. */
  lemma NoLargeInteger(nint: nat, q: nat)
    requires nint <= 127 && q >= 256 && q % 256 == nint
    ensures DecodedNint(IntegerRegister(nint)) != q
  {
    if nint < 13 { SmallInteger(nint); }
  }

  /** What register 0x14 stands for when the subtraction of 13 wraps. */
  lemma SmallInteger(nint: nat)
    requires nint < 13
    ensures DecodedNint(IntegerRegister(nint)) == if nint < 10 then nint + 259 else nint + 4
  {
    var ni := TruncatedQuarter(nint - 13) % 256;
    var si := (nint - 4 * ni - 13) % 256;
    assert IntegerRegister(nint) == (ni + si * 64) % 256;
    assert DecodedNint(IntegerRegister(nint)) == 13 + 4 * (IntegerRegister(nint) % 64) + IntegerRegister(nint) / 64;
    hide *;
    WrappedQuarter(nint);
    WrappedRest(nint);
    Unpacked(ni, si);
    SmallParts(nint, ni, si);
  }

  lemma SmallParts(nint: nat, ni: nat, si: nat)
    requires nint < 13
    requires ni == if nint < 2 then 253 else if nint < 6 then 254 else if nint < 10 then 255 else 0
    requires si == if nint == 1 || nint == 5 || nint == 9 then 0
                   else if nint == 0 then 255 else if nint < 6 then nint + 251
                   else if nint < 10 then nint + 247 else nint + 243
    ensures 13 + 4 * (ni % 64) + (ni / 64 + si) % 4 == if nint < 10 then nint + 259 else nint + 4
  {
  }

  lemma WrappedQuarter(nint: nat)
    requires nint < 13
    ensures TruncatedQuarter(nint - 13) % 256 ==
            if nint < 2 then 253 else if nint < 6 then 254 else if nint < 10 then 255 else 0
  {
    var quarter := (13 - nint) / 4;
    assert TruncatedQuarter(nint - 13) == -quarter;
    assert quarter == if nint < 2 then 3 else if nint < 6 then 2 else if nint < 10 then 1 else 0;
  }

  lemma WrappedRest(nint: nat)
    requires nint < 13
    ensures var ni := if nint < 2 then 253 else if nint < 6 then 254 else if nint < 10 then 255 else 0;
            (nint - 4 * ni - 13) % 256 == if nint == 1 || nint == 5 || nint == 9 then 0
                                          else if nint == 0 then 255 else if nint < 6 then nint + 251
                                          else if nint < 10 then nint + 247 else nint + 243
  {
  }

  /** The two parts of register 0x14. */
  lemma Unpacked(ni: nat, si: nat)
    requires ni < 256 && si < 256
    ensures var reg14 := (ni + si * 64) % 256; reg14 % 64 == ni % 64 && reg14 / 64 == (ni / 64 + si) % 4
  {
    var t := ni / 64 + si;
    assert ni + si * 64 == 64 * t + ni % 64;
    assert t == 4 * (t / 4) + t % 4;
    DivModUnique(ni + si * 64, 256, t / 4, 64 * (t % 4) + ni % 64);
  }

  lemma Unmet(vcoFra: nat, pllRefKhz: nat, sdm: nat)
    requires pllRefKhz < 32768 && vcoFra > 2 * pllRefKhz + 16 && sdm <= 65535
    ensures !Meets(vcoFra, pllRefKhz, sdm)
  {
    MulNonneg(2 * pllRefKhz, 65536 - sdm);
    MulComm(2 * pllRefKhz, 65536 - sdm);
    MulSub(2 * pllRefKhz, 65536, sdm);
    MulComm(2 * pllRefKhz, sdm);
  }

  /**
   An instance: 48 MHz on a 3 MHz crystal. The VCO is in range at 3072 MHz, the integer part 512
   becomes 0 in 8 bits and is not refused, register 0x14 stands for 259, and the whole VCO
   frequency is left as fraction.
   */
  lemma SlowCrystal()
    ensures InRange(48000000, 64) && FreqKhz(3000000) == 3000
    ensures Quotient(48000000 * 64, 2 * 3000000) == 512 && NarrowInteger(48000000 * 64, 3000000) == 0
    ensures DecodedNint(IntegerRegister(0)) == 259
    ensures FractionKhz(48000000 * 64, 3000000) == 3072000
  {
    hide DecodedNint, IntegerRegister;
    SmallInteger(0);
  }

  /**
   An instance of a division by zero: 28672032 Hz on a 32.768 MHz crystal. The VCO is in range,
   the integer part 28, and the fraction of 2 kHz survives every step size.
   */
  lemma FastCrystal()
    ensures InRange(28672032, 64) && FreqKhz(32768000) == 32768
    ensures Quotient(28672032 * 64, 2 * 32768000) == 28 && NarrowInteger(28672032 * 64, 32768000) == 28
    ensures FractionKhz(28672032 * 64, 32768000) == 2
    ensures SdmFrom(2, 2 * 32768, 0, 1) == DividesByZero
  {
    hide SdmFrom;
    TwoKhzLeft(2 * 32768, 0, 1);
  }

  /** ni and si, all in 8 bits, packed into register 0x14. */
  function IntegerRegister(nint: nat): (reg14: nat)
    requires nint <= 127
    ensures DecodedNint(reg14) == nint <==> nint >= 13
  {
    var ni := TruncatedQuarter(nint - 13) % 256;
    var si := (nint - 4 * ni - 13) % 256;
    if nint >= 13 then RegisterParts(nint - 13); (ni + si * 64) % 256 else (ni + si * 64) % 256
  }

  lemma RegisterParts(a: nat)
    requires a <= 114
    ensures var ni, si := a / 4, a - 4 * (a / 4);
            && ni % 256 == ni <= 28 && si % 256 == si <= 3
            && (ni + si * 64) % 256 == ni + si * 64 && DecodedNint(ni + si * 64) == 13 + a
  {
    var ni, si := a / 4, a - 4 * (a / 4);
    assert 0 <= si <= 3 && a == 4 * ni + si;
    Unpacked(ni, si);
  }

  lemma DividerRange(mixDiv: nat, freqKhz: nat, divNum: nat)
    requires Tunable(freqKhz) ==> IsDivider(mixDiv, divNum + 1)
    requires !Tunable(freqKhz) ==> mixDiv == 128
    ensures 2 <= mixDiv <= 128 && (mixDiv == 128 ==> !Tunable(freqKhz))
    ensures Tunable(freqKhz) ==> exists k :: IsDivider(mixDiv, k)
  {
    LargePowers();
  }

  lemma WholeStepsBelow(vcoFreq: nat, xtal: nat)
    requires 0 < xtal
    ensures WholeSteps(vcoFreq, xtal) <= vcoFreq
  {
    var n, q := 2 * xtal, Quotient(vcoFreq, 2 * xtal);
    DivModDef(vcoFreq, n);
    MulComm(q, n);
    DivModDef(q, 256);
    MulNonneg(n, q % 256);
    MulNonneg(n, q - q % 256);
    MulSub(n, q, q % 256);
    SmallerModulo(n * (q % 256), TWO32);
  }

  /** Neither the 8-bit integer part nor the 32-bit product 2 * pll_ref * nint wraps when it fits. */
  lemma WholeStepsExact(vcoFreq: nat, xtal: nat)
    requires 0 < xtal && FitsByte(vcoFreq, xtal) && vcoFreq < TWO32
    ensures var n, q := 2 * xtal, Quotient(vcoFreq, 2 * xtal);
            q == NarrowInteger(vcoFreq, xtal) && WholeSteps(vcoFreq, xtal) == n * q <= vcoFreq < n * q + n
  {
    var n, q := 2 * xtal, Quotient(vcoFreq, 2 * xtal);
    NarrowIsExact(vcoFreq, xtal, 0);
    DivModDef(vcoFreq, n);
    MulComm(q, n);
    MulNonneg(n, q);
    SmallMod(n * q, TWO32);
  }

  lemma FractionInKhz(rest: nat, xtal: nat)
    requires rest < 2 * xtal && xtal < TWO31
    ensures rest / 1000 <= 2 * FreqKhz(xtal)
  {
  }

  lemma SmallerModulo(a: nat, m: nat)
    requires m > 0
    ensures 0 <= a % m <= a
  {
    DivModDef(a, m);
    MulNonneg(a / m, m);
  }

  lemma InHertz(f: nat, khz: nat, mixDiv: nat)
    requires 1000 * khz <= f <= 1000 * khz + 999
    ensures 1000 * (khz * mixDiv) <= f * mixDiv <= 1000 * (khz * mixDiv) + 999 * mixDiv
  {
    MulAtMost(1000 * khz, f, mixDiv);
    MulAtMost(f, 1000 * khz + 999, mixDiv);
    MulAdd(mixDiv, 1000 * khz, 999);
    assert (1000 * khz) * mixDiv == 1000 * (khz * mixDiv);
  }

  lemma VcoBound(freq: nat, mixDiv: nat)
    requires freq < TWO32 - 500 && InVco(FreqKhz(freq), mixDiv) && 2 <= mixDiv <= 128
    ensures 1000 * VCO_MIN - 500 * 128 <= freq * mixDiv < TWO32
  {
    var khz := FreqKhz(freq);
    assert 1000 * khz <= freq + 500 <= 1000 * khz + 999;
    assert VCO_MIN <= khz * mixDiv < VCO_MAX;
    hide *;
    InHertz(freq + 500, khz, mixDiv);
    MulAdd(mixDiv, freq, 500);
  }

  /** With a VCO in range and a crystal below 32768 kHz the integer part is never small. */
  lemma LargeIntegerPart(vcoFreq: nat, xtal: nat)
    requires vcoFreq >= 1000 * VCO_MIN - 500 * 128 && 0 < xtal < TWO31 && FreqKhz(xtal) < 32768
    ensures Quotient(vcoFreq, 2 * xtal) >= 27
  {
    var q := Quotient(vcoFreq, 2 * xtal);
    DivModDef(vcoFreq, 2 * xtal);
    assert xtal <= 32767499;
    if q < 27 { SmallMultiple(q, 2 * xtal); }
  }

  lemma SmallMultiple(q: nat, n: nat)
    requires q < 27
    ensures q * n <= 26 * n
  {
    MulNonneg(26 - q, n);
    MulSub(n, 26, q);
  }
}
