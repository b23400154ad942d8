/** Bit reversal of k-bit numbers and the reorder loop of fix_fft that steps through it. */
module BitReversal {
  import opened Pow2s

  /** The number whose k low bits are those of x in reverse order. */
  function BitRev(x: nat, k: nat): (r: nat)
    ensures r < Pow2(k)
  {
    if k == 0 then 0 else (if x % 2 == 1 then Pow2(k - 1) else 0) + BitRev(x / 2, k - 1)
  }

  /** Peeling the top bit of x instead of its low bit. */
  lemma {:induction false} BitRevTop(x: nat, k: nat, top: bool)
    requires x < Pow2(k)
    ensures BitRev((if top then Pow2(k) else 0) + x, k + 1) == 2 * BitRev(x, k) + (if top then 1 else 0)
  {
    var y := (if top then Pow2(k) else 0) + x;
    if k == 0 {
      assert BitRev(y, 1) == (if y % 2 == 1 then Pow2(0) else 0) + BitRev(y / 2, 0);
    } else {
      var h := if top then Pow2(k - 1) else 0;
      assert y == 2 * h + x;
      assert y % 2 == x % 2 && y / 2 == h + x / 2;
      BitRevTop(x / 2, k - 1, top);
    }
  }

  lemma {:induction false} BitRevInvolution(x: nat, k: nat)
    requires x < Pow2(k)
    ensures BitRev(BitRev(x, k), k) == x
  {
    if k == 0 {
    } else {
      BitRevInvolution(x / 2, k - 1);
      BitRevTop(BitRev(x / 2, k - 1), k - 1, x % 2 == 1);
    }
  }

  lemma BitRevInjective(x: nat, y: nat, k: nat)
    requires x < Pow2(k) && y < Pow2(k) && BitRev(x, k) == BitRev(y, k)
    ensures x == y
  {
    BitRevInvolution(x, k);
    BitRevInvolution(y, k);
  }

  lemma {:induction false} BitRevOnes(k: nat)
    ensures BitRev(Pow2(k) - 1, k) == Pow2(k) - 1
  {
    if k == 0 {
    } else {
      BitRevOnes(k - 1);
      var x := Pow2(k) - 1;
      assert x % 2 == 1 && x / 2 == Pow2(k - 1) - 1;
    }
  }

  /** Halving steps that can still be taken before l is the largest power of two with r + l < 2^k. */
  predicate LargestFit(r: nat, k: nat, j: nat) {
    j < k && r + Pow2(j) < Pow2(k) && (j + 1 < k ==> r + Pow2(j + 1) >= Pow2(k))
  }

  lemma ModPow2Shift(r: nat, k: nat, j: nat)
    requires j <= k
    ensures (Pow2(k) + r) % Pow2(j) == r % Pow2(j)
  {
    var l, a := Pow2(j), Pow2(k - j);
    Pow2Add(k - j, j);
    ModAddMultiple(r, a, l);
  }

  lemma IncrementEven(x: nat, k: nat, j: nat)
    requires x + 1 < Pow2(k) && x % 2 == 0
    requires LargestFit(BitRev(x, k), k, j)
    ensures j == k - 1 && BitRev(x, k) < Pow2(j)
    ensures BitRev(x + 1, k) == BitRev(x, k) + Pow2(j)
  {
    assert BitRev(x, k) == BitRev(x / 2, k - 1) < Pow2(k - 1);
    if j < k - 1 {
      Pow2Monotone(j + 1, k - 1);
      assert false;
    }
    assert (x + 1) / 2 == x / 2;
  }

  lemma IncrementOdd(x: nat, k: nat, j: nat)
    requires x + 1 < Pow2(k) && x % 2 == 1
    requires LargestFit(BitRev(x, k), k, j)
    ensures k >= 1 && BitRev(x, k) == Pow2(k - 1) + BitRev(x / 2, k - 1)
    ensures x / 2 + 1 < Pow2(k - 1) && LargestFit(BitRev(x / 2, k - 1), k - 1, j)
    ensures BitRev(x + 1, k) == BitRev(x / 2 + 1, k - 1)
  {
    assert (x + 1) / 2 == x / 2 + 1 && (x + 1) % 2 == 0;
  }

  /** Adding one at the low end of x is a reversed carry at the high end of its reversal. */
  lemma {:induction false} ReversedIncrement(x: nat, k: nat, j: nat)
    requires x + 1 < Pow2(k)
    requires LargestFit(BitRev(x, k), k, j)
    ensures BitRev(x + 1, k) == BitRev(x, k) % Pow2(j) + Pow2(j)
  {
    hide Pow2, BitRev, LargestFit;
    if x % 2 == 0 {
      IncrementEven(x, k, j);
      SmallMod(BitRev(x, k), Pow2(j));
    } else {
      IncrementOdd(x, k, j);
      ReversedIncrement(x / 2, k - 1, j);
      ModPow2Shift(BitRev(x / 2, k - 1), k - 1, j);
    }
  }

  lemma Pow2Monotone(a: nat, b: nat)
    requires a <= b
    ensures Pow2(a) <= Pow2(b)
  {
    if a < b { Pow2StrictlyMonotone(a, b); }
  }

  /** The reordered sequence: element i comes from the bit-reversed index. */
  function Reordered<T>(x: seq<T>, k: nat): (y: seq<T>)
    requires |x| == Pow2(k)
  {
    seq(|x|, i requires 0 <= i < |x| => x[BitRev(i, k)])
  }

  lemma ReorderedTwice<T>(x: seq<T>, k: nat)
    requires |x| == Pow2(k)
    ensures Reordered(Reordered(x, k), k) == x
  {
    forall i | 0 <= i < |x|
      ensures Reordered(Reordered(x, k), k)[i] == x[i]
    {
      BitRevInvolution(i, k);
    }
  }
}
