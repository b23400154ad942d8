/** Powers of two and the index arithmetic that goes with them. */
module Pow2s {

  function Pow2(k: nat): (p: nat)
    ensures p >= 1
  {
    if k == 0 then 1 else 2 * Pow2(k - 1)
  }

  lemma {:induction false} Pow2Add(a: nat, b: nat)
    ensures Pow2(a + b) == Pow2(a) * Pow2(b)
  {
    if a == 0 {
    } else {
      Pow2Add(a - 1, b);
      assert Pow2(a + b) == 2 * Pow2(a - 1 + b);
      assert 2 * (Pow2(a - 1) * Pow2(b)) == (2 * Pow2(a - 1)) * Pow2(b);
    }
  }

  lemma Pow2Even(k: nat)
    requires k > 0
    ensures Pow2(k) == 2 * Pow2(k - 1)
    ensures Pow2(k) % 2 == 0
  {
    var p := Pow2(k - 1);
    assert Pow2(k) == 2 * p;
    EvenDouble(p);
  }

  lemma EvenDouble(p: nat)
    ensures (2 * p) % 2 == 0 && (2 * p) / 2 == p
  {
  }

  lemma {:induction false} Pow2StrictlyMonotone(a: nat, b: nat)
    requires a < b
    ensures Pow2(a) < Pow2(b)
  {
    if b == a + 1 {
    } else {
      Pow2StrictlyMonotone(a, b - 1);
    }
  }

  /** Quotient and remainder of an index split as block and offset. */
  lemma BlockOffset(block: nat, offset: nat, l: nat)
    requires offset < l
    ensures (block * l + offset) / l == block
    ensures (block * l + offset) % l == offset
  {
    DivModUnique(block * l + offset, l, block, offset);
  }

  lemma DivModUnique(i: int, l: int, q: int, r: int)
    requires 0 < l && 0 <= r < l && i == q * l + r
    ensures i / l == q && i % l == r
  {
    var d := i / l - q;
    assert l * d == r - i % l by {
      assert i == l * (i / l) + i % l;
      assert l * d == l * (i / l) - l * q;
    }
    if d != 0 {
      MagnitudeAtLeast(l, d);
    }
  }

  lemma ModAddMultiple(r: int, a: int, l: int)
    requires l > 0
    ensures (a * l + r) % l == r % l && (a * l + r) / l == a + r / l
  {
    var q, rem := r / l, r % l;
    assert r == q * l + rem;
    MulAdd(l, a, q);
    DivModUnique(a * l + r, l, a + q, rem);
  }

  lemma MulAdd(a: int, b: int, c: int)
    ensures a * (b + c) == a * b + a * c
    ensures (b + c) * a == b * a + c * a
  {
  }

  lemma DivModDef(i: nat, l: nat)
    requires l > 0
    ensures i == (i / l) * l + i % l && i % l < l
  {
  }

  function Quotient(i: nat, l: nat): nat
    requires l > 0
  {
    i / l
  }

  function Remainder(i: nat, l: nat): nat
    requires l > 0
  {
    i % l
  }

  lemma BlockBelow(b: nat, blocks: nat, l: nat, i: nat)
    requires b * l <= i < blocks * l
    ensures b < blocks
  {
    if b >= blocks {
      MulNonneg(b - blocks, l);
      MulSub(l, b, blocks);
    }
  }

  lemma MulAtMost(a: nat, b: nat, n: nat)
    requires a <= b
    ensures a * n <= b * n
  {
    MulNonneg(b - a, n);
    MulSub(n, b, a);
  }

  lemma SmallMod(a: nat, m: nat)
    requires a < m
    ensures a % m == a && a / m == 0
  {
    DivModUnique(a, m, 0, a);
  }

  lemma MulDouble(b: int, l: int)
    ensures b * (2 * l) == (2 * b) * l
    ensures (2 * b + 1) * l == (2 * b) * l + l
  {
  }

  lemma MulComm(a: int, b: int)
    ensures a * b == b * a
  {
  }

  lemma MulNonneg(a: int, b: int)
    requires a >= 0 && b >= 0
    ensures a * b >= 0
  {
  }

  lemma MulSub(a: int, b: int, c: int)
    ensures a * (b - c) == a * b - a * c
  {
  }

  lemma MagnitudeAtLeast(l: int, d: int)
    requires l > 0 && d != 0
    ensures l * d >= l || l * d <= -l
  {
    if d > 0 {
      MulNonneg(l, d - 1);
      MulSub(l, d, 1);
    } else {
      MulNonneg(l, -1 - d);
      MulSub(l, -1, d);
    }
  }
}
