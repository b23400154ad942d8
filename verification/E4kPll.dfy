/** PLL synthesis of src/tuner_e4k.c: `e4k_compute_pll_params`, `compute_fvco`, `compute_flo`. */
module E4kPll {
  import opened Collections
  import opened Pow2s

  const PLL_Y := 65536
  const MINUS_EINVAL := 0x1_0000_0000 - 22

  datatype PllVar = PllVar(freq: nat, regSynth7: nat, mult: nat)

  const PLL_VARS: seq<PllVar> := [
    PllVar(72400000, 15, 48), PllVar(81200000, 14, 40), PllVar(108300000, 13, 32), PllVar(162500000, 12, 24),
    PllVar(216600000, 11, 16), PllVar(325000000, 10, 12), PllVar(350000000, 9, 8), PllVar(432000000, 3, 8),
    PllVar(667000000, 2, 6), PllVar(1200000000, 1, 4)]

  datatype Params = Params(flo: nat, r: nat, rIdx: nat, threePhase: bool, z: nat, x: nat)

  predicate FoscValid(fosc: nat) {
    16000000 <= fosc <= 30000000
  }

  /** The first table row above the target from row i on, or its length. */
  function RowFrom(target: nat, i: nat): (row: nat)
    requires i <= |PLL_VARS|
    ensures i <= row <= |PLL_VARS| && (row < |PLL_VARS| ==> target < PLL_VARS[row].freq)
    ensures forall j :: i <= j < row ==> PLL_VARS[j].freq <= target
    decreases |PLL_VARS| - i
  {
    if i == |PLL_VARS| || target < PLL_VARS[i].freq then i else RowFrom(target, i + 1)
  }

  function Multiplier(target: nat): (r: nat)
    ensures 2 <= r <= 48
  {
    var row := RowFrom(target, 0);
    if row == |PLL_VARS| then 2 else PLL_VARS[row].mult
  }

  /** Register SYNTH7 of the row, or 0 above the table. */
  function SynthIndex(target: nat): nat {
    var row := RowFrom(target, 0);
    if row == |PLL_VARS| then 0 else PLL_VARS[row].regSynth7
  }

  /** Fosc * (Z + X/Y) with Z a byte and X 16 bits, each part rounded down. */
  function ComputeFvco(fosc: nat, z: nat, x: nat): nat {
    fosc * (z % 0x100) + (fosc * (x % 0x1_0000)) / PLL_Y
  }

  /** The 32-bit frequency, or -EINVAL as one when Fvco comes out as 0. */
  function ComputeFlo(fosc: nat, z: nat, x: nat, r: nat): nat
    requires r > 0
  {
    var fvco := ComputeFvco(fosc, z, x);
    if fvco == 0 then MINUS_EINVAL else (fvco / r) % 0x1_0000_0000
  }

  /** What the parameters are worth: the target is missed from below, by less than this. */
  predicate WithinStep(target: nat, flo: nat, fosc: nat, r: nat) {
    flo <= target && (target - flo) * (r * PLL_Y) < fosc + PLL_Y + r * PLL_Y
  }

  /**
   e4k_compute_pll_params. The actual frequency is within (fosc/65536 + 1)/r + 1 Hz below the
   target exactly when the target is at least one step of the fraction and the quotient fits the
   8 bits in which it is kept.
   */
  method ComputePllParams(fosc: nat, target: nat) returns (p: Option<Params>)
    requires target < 0x1_0000_0000
    ensures p.None? <==> !FoscValid(fosc)
    ensures p.Some? ==>
              && p.value.r == Multiplier(target) && p.value.rIdx == SynthIndex(target)
              && p.value.threePhase == (target < 350000000)
              && p.value.x <= 65535
              && p.value.flo == ComputeFlo(fosc, p.value.z, p.value.x, p.value.r)
              && p.value.z == Quotient(target * p.value.r, fosc) % 256
              && (p.value.z == Quotient(target * p.value.r, fosc) <==> target * p.value.r < 256 * fosc)
              && (WithinStep(target, p.value.flo, fosc, p.value.r) <==>
                    target * p.value.r * PLL_Y >= fosc && target * p.value.r < 256 * fosc)
    ensures p.Some? && target * p.value.r * PLL_Y < fosc ==> p.value.flo == MINUS_EINVAL
  {
    if !FoscValid(fosc) { return None; }
    var r, rIdx, threePhase := FindRow(target);
    hide *;
    var intendedFvco := target * r;
    var z := Quotient(intendedFvco, fosc);
    Remaining(intendedFvco, fosc, z);
    var remainder := intendedFvco - fosc * z;
    var x := Quotient(remainder * PLL_Y, fosc);
    Fraction(intendedFvco, fosc, z, remainder, x);
    var flo := ComputeFlo(fosc, z, x, r);
    Synthesis(target, r, fosc, z, remainder, x);
    NarrowFlo(fosc, z, x, r);
    NarrowQuotient(z);
    MultiplierRange(target);
    if target * r * PLL_Y < fosc { TinyTarget(target, r, fosc, z, remainder, x); }
    p := Some(Params(flo, r, rIdx, threePhase, z % 256, x));
  }

  /** The search of the table. */
  method FindRow(target: nat) returns (r: nat, rIdx: nat, threePhase: bool)
    ensures r == Multiplier(target) && rIdx == SynthIndex(target) && threePhase == (target < 350000000)
  {
    r, rIdx, threePhase := 2, 0, false;
    var i := 0;
    while i < |PLL_VARS|
      invariant 0 <= i <= |PLL_VARS| && RowFrom(target, i) == RowFrom(target, 0) && r == 2 && rIdx == 0 && !threePhase
    {
      if target < PLL_VARS[i].freq {
        threePhase := (PLL_VARS[i].regSynth7 / 8) % 2 == 1;
        rIdx := PLL_VARS[i].regSynth7;
        r := PLL_VARS[i].mult;
        break;
      }
      i := i + 1;
    }
    ThreePhaseRows(target);
  }

  lemma NarrowQuotient(z: nat)
    ensures z % 256 == z <==> z <= 255
  {
  }

  lemma Remaining(v: nat, fosc: nat, z: nat)
    requires FoscValid(fosc) && z == Quotient(v, fosc)
    ensures 0 <= v - fosc * z < fosc
    ensures v < 256 * fosc <==> z <= 255
  {
    DivModDef(v, fosc);
    MulComm(z, fosc);
    if v < 256 * fosc {
      BlockBelow(z, 256, fosc, v);
    } else if z <= 255 {
      MulAtMost(z, 255, fosc);
    }
  }

  /** Only the low 8 bits of z are passed on. */
  lemma NarrowFlo(fosc: nat, z: nat, x: nat, r: nat)
    requires r > 0
    ensures ComputeFlo(fosc, z % 256, x, r) == ComputeFlo(fosc, z, x, r)
  {
  }

  lemma ThreePhaseRows(target: nat)
    ensures var row := RowFrom(target, 0);
            (row < |PLL_VARS| && (PLL_VARS[row].regSynth7 / 8) % 2 == 1) <==> target < 350000000
  {
  }

  /** x is the 16-bit fraction of the remainder, rounded down. */
  lemma Fraction(v: nat, fosc: nat, z: nat, remainder: nat, x: nat)
    requires FoscValid(fosc) && remainder == v - fosc * z && remainder < fosc && x == Quotient(remainder * PLL_Y, fosc)
    ensures x <= 65535
    ensures fosc * x <= remainder * PLL_Y < fosc * x + fosc
  {
    var y := remainder * PLL_Y;
    DivModDef(y, fosc);
    MulComm(x, fosc);
    BlockBelow(x, PLL_Y, fosc, y);
  }

  lemma Synthesis(target: nat, r: nat, fosc: nat, z: nat, remainder: nat, x: nat)
    requires FoscValid(fosc) && r == Multiplier(target) && z == Quotient(target * r, fosc) && x <= 65535
    requires target < 0x1_0000_0000 && target * r == fosc * z + remainder && remainder < fosc
    requires fosc * x <= remainder * PLL_Y < fosc * x + fosc
    ensures WithinStep(target, ComputeFlo(fosc, z, x, r), fosc, r) <==>
            target * r * PLL_Y >= fosc && target * r < 256 * fosc
  {
    MultiplierRange(target);
    hide *;
    Remaining(target * r, fosc, z);
    if z <= 255 {
      SmallQuotient(target, r, fosc, z, remainder, x);
    } else {
      LargeQuotient(target, r, fosc, z, remainder, x);
    }
  }

  /** A quotient that does not fit 8 bits: the frequency is short by at least 256 times the crystal over r. */
  lemma LargeQuotient(target: nat, r: nat, fosc: nat, z: nat, remainder: nat, x: nat)
    requires FoscValid(fosc) && r == Multiplier(target) && z >= 256 && x <= 65535 && target < 0x1_0000_0000
    requires target * r == fosc * z + remainder && remainder < fosc
    requires fosc * x <= remainder * PLL_Y < fosc * x + fosc
    ensures !WithinStep(target, ComputeFlo(fosc, z, x, r), fosc, r)
  {
    hide *;
    if ComputeFvco(fosc, z, x) == 0 {
      NeverTopQuotient(target, r, fosc, z, remainder, x);
      ErrorCode(target, fosc, z, x, r);
    } else {
      MultiplierRange(target);
      FloIs(fosc, z, x, r);
      FvcoShort(fosc, z, remainder, x);
      FarBelow(target, r, fosc, ComputeFvco(fosc, z, x), ComputeFlo(fosc, z, x, r));
    }
  }

  lemma MultiplierRange(target: nat)
    ensures 2 <= Multiplier(target) <= 48
  {
  }

  lemma ErrorCode(target: nat, fosc: nat, z: nat, x: nat, r: nat)
    requires r > 0 && ComputeFvco(fosc, z, x) == 0 && target < MINUS_EINVAL
    ensures !WithinStep(target, ComputeFlo(fosc, z, x, r), fosc, r)
  {
    hide ComputeFvco;
  }

  lemma FvcoShort(fosc: nat, z: nat, remainder: nat, x: nat)
    requires z >= 256 && x <= 65535 && fosc * x <= remainder * PLL_Y
    ensures ComputeFvco(fosc, z, x) + 256 * fosc <= fosc * z + remainder
  {
    FvcoParts(fosc, z, x, (fosc * x) / PLL_Y);
    hide ComputeFvco;
    MulAtMost(256, z - z % 256, fosc);
    MulComm(fosc, z - z % 256);
    MulSub(fosc, z, z % 256);
  }

  lemma FloIs(fosc: nat, z: nat, x: nat, r: nat)
    requires r > 0 && ComputeFvco(fosc, z, x) > 0
    ensures ComputeFlo(fosc, z, x, r) == Quotient(ComputeFvco(fosc, z, x), r) % 0x1_0000_0000
  {
  }

  lemma FarBelow(target: nat, r: nat, fosc: nat, fvco: nat, flo: nat)
    requires FoscValid(fosc) && 2 <= r <= 48 && fvco + 256 * fosc <= target * r
    requires flo == Quotient(fvco, r) % 0x1_0000_0000
    ensures !WithinStep(target, flo, fosc, r)
  {
    var q := Quotient(fvco, r);
    DivModDef(fvco, r);
    DivModDef(q, 0x1_0000_0000);
    hide Quotient;
    MulAtMost(flo, q, r);
    if flo <= target {
      MulSub(r, target, flo);
      assert (target - flo) * r >= 256 * fosc;
      assert (target - flo) * (r * PLL_Y) == ((target - flo) * r) * PLL_Y;
    }
  }

  /** No target lies above the error code with a quotient that is a multiple of 256 and no fraction. */
  lemma NeverTopQuotient(target: nat, r: nat, fosc: nat, z: nat, remainder: nat, x: nat)
    requires FoscValid(fosc) && r == Multiplier(target) && z >= 256 && target < 0x1_0000_0000
    requires target * r == fosc * z + remainder && remainder < fosc && remainder * PLL_Y < fosc * x + fosc
    requires ComputeFvco(fosc, z, x) == 0 && x <= 65535
    ensures target < MINUS_EINVAL
  {
    ZeroFvco(fosc, z, x);
    hide ComputeFvco, Multiplier, FoscValid;
    if target >= MINUS_EINVAL {
      MultiplierAtTop(target);
      TimesZero(fosc);
      TopQuotient(fosc, z, remainder, 2 * target);
    }
  }

  lemma ZeroFvco(fosc: nat, z: nat, x: nat)
    requires FoscValid(fosc) && ComputeFvco(fosc, z, x) == 0 && x <= 65535
    ensures z % 256 == 0 && x == 0
  {
    var part := (fosc * x) / PLL_Y;
    FvcoParts(fosc, z, x, part);
    MulNonneg(fosc, z % 256);
    NoFactor(fosc, z % 256);
    hide ComputeFvco;
    if x > 0 {
      MulAtMost(1, x, fosc);
      MulComm(x, fosc);
    }
  }

  lemma MultiplierAtTop(target: nat)
    requires target >= 1200000000
    ensures Multiplier(target) == 2
  {
  }

  lemma TopQuotient(fosc: nat, z: nat, remainder: nat, v: nat)
    requires FoscValid(fosc) && v == fosc * z + remainder && remainder < fosc && z >= 256
    requires 2 * MINUS_EINVAL <= v <= 2 * 0xffff_ffff && v % 2 == 0
    ensures z % 256 != 0 || remainder * PLL_Y >= fosc
  {
    if z == 512 {
      TwiceTheByte(fosc, remainder, v);
    } else if z >= 768 {
      MulAtMost(768, z, fosc);
      MulComm(z, fosc);
    }
  }

  lemma TwiceTheByte(fosc: nat, remainder: nat, v: nat)
    requires v == 512 * fosc + remainder && FoscValid(fosc)
    requires 2 * MINUS_EINVAL <= v <= 2 * 0xffff_ffff && v % 2 == 0
    ensures remainder * PLL_Y >= fosc
  {
  }

  lemma NoFactor(a: nat, b: nat)
    requires a > 0 && a * b == 0
    ensures b == 0
  {
    if b > 0 { MulAtMost(1, b, a); MulComm(a, b); }
  }

  lemma SmallQuotient(target: nat, r: nat, fosc: nat, z: nat, remainder: nat, x: nat)
    requires FoscValid(fosc) && 2 <= r <= 48 && z <= 255 && x <= 65535 && target < 0x1_0000_0000
    requires target * r == fosc * z + remainder && remainder < fosc
    requires fosc * x <= remainder * PLL_Y < fosc * x + fosc
    ensures WithinStep(target, ComputeFlo(fosc, z, x, r), fosc, r) <==> target * r * PLL_Y >= fosc
  {
    var part := (fosc * x) / PLL_Y;
    FvcoParts(fosc, z, x, part);
    var fvco := ComputeFvco(fosc, z, x);
    if target * r * PLL_Y < fosc {
      TinyTarget(target, r, fosc, z, remainder, x);
    } else {
      hide ComputeFvco, ComputeFlo, WithinStep;
      NonZeroFvco(target, r, fosc, z, remainder, x, part);
      Divided(target, r, fvco, fosc);
      FloIs(fosc, z, x, r);
      SmallMod(Quotient(fvco, r), 0x1_0000_0000);
    }
  }

  lemma FvcoParts(fosc: nat, z: nat, x: nat, part: nat)
    requires x <= 65535 && part == (fosc * x) / PLL_Y
    ensures ComputeFvco(fosc, z, x) == fosc * (z % 256) + part
    ensures z <= 255 ==> ComputeFvco(fosc, z, x) == fosc * z + part
    ensures part * PLL_Y <= fosc * x < part * PLL_Y + PLL_Y
  {
    assert x % 0x1_0000 == x;
  }

  lemma TinyTarget(target: nat, r: nat, fosc: nat, z: nat, remainder: nat, x: nat)
    requires FoscValid(fosc) && 2 <= r <= 48 && target < 0x1_0000_0000 && target * r * PLL_Y < fosc
    requires target * r == fosc * z + remainder && fosc * x <= remainder * PLL_Y
    ensures z == 0 && x == 0 && ComputeFlo(fosc, z, x, r) == MINUS_EINVAL && target < MINUS_EINVAL
  {
    if z > 0 {
      MulNonneg(fosc, z - 1);
      MulSub(fosc, z, 1);
    }
    if x > 0 {
      MulNonneg(fosc, x - 1);
      MulSub(fosc, x, 1);
    }
    assert fosc * 0 == 0;
    MulNonneg(target, r - 1);
    MulSub(target, r, 1);
  }

  lemma NonZeroFvco(target: nat, r: nat, fosc: nat, z: nat, remainder: nat, x: nat, part: nat)
    requires FoscValid(fosc) && target * r * PLL_Y >= fosc
    requires target * r == fosc * z + remainder && remainder * PLL_Y < fosc * x + fosc
    requires fosc * x < part * PLL_Y + PLL_Y
    ensures fosc * z + part > 0
  {
    if z > 0 {
      MulNonneg(fosc, z - 1);
      MulSub(fosc, z, 1);
    } else {
      TimesZero(fosc);
      assert fosc * x > 0;
      assert x != 0;
      MulNonneg(fosc, x - 1);
      MulSub(fosc, x, 1);
    }
  }

  lemma TimesZero(a: int)
    ensures a * 0 == 0
  {
  }

  lemma StepInHertz(short: nat, r: nat, missing: nat, fosc: nat)
    requires short * r < missing + r && missing * PLL_Y < fosc + PLL_Y
    ensures short * (r * PLL_Y) < fosc + PLL_Y + r * PLL_Y
  {
    assert short * (r * PLL_Y) == (short * r) * PLL_Y;
  }

  lemma Divided(target: nat, r: nat, fvco: nat, fosc: nat)
    requires 2 <= r <= 48 && target < 0x1_0000_0000 && FoscValid(fosc)
    requires fvco <= target * r && (target * r - fvco) * PLL_Y < fosc + PLL_Y
    ensures Quotient(fvco, r) < 0x1_0000_0000 && WithinStep(target, Quotient(fvco, r), fosc, r)
  {
    var q := Quotient(fvco, r);
    DivModDef(fvco, r);
    hide Quotient;
    QuotientBelow(target, q, r, fvco);
    MulSub(r, target, q);
    StepInHertz(target - q, r, target * r - fvco, fosc);
  }

  lemma QuotientBelow(target: nat, q: nat, r: nat, fvco: nat)
    requires r > 0 && q * r <= fvco <= target * r
    ensures q <= target
  {
    MulAdd(r, target, 1);
    BlockBelow(q, target + 1, r, q * r);
  }

  /** One hertz on a 28.8 MHz crystal: both parts are 0, and the frequency comes back above 4 GHz. */
  lemma OneHertz()
    ensures Multiplier(1) == 48
    ensures Quotient(48, 28800000) == 0 && Quotient(48 * PLL_Y, 28800000) == 0
    ensures ComputeFlo(28800000, 0, 0, 48) == MINUS_EINVAL && !WithinStep(1, MINUS_EINVAL, 28800000, 48)
  {
    assert RowFrom(1, 0) == 0;
  }

  /** 1.1 GHz on a 16 MHz crystal: the quotient 275 is kept as 19, and 76 MHz comes back. */
  lemma HighTarget()
    ensures Multiplier(1100000000) == 4 && Quotient(1100000000 * 4, 16000000) == 275 && 275 % 256 == 19
    ensures ComputeFlo(16000000, 275, 0, 4) == 76000000 && !WithinStep(1100000000, 76000000, 16000000, 4)
  {
    assert RowFrom(1100000000, 0) == 9;
  }
}
