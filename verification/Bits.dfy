/**
 Bitwise operators of the source on unbounded naturals, and the two facts its
 masks rest on: masking with `2^k - 1` is the remainder modulo `2^k`, and
 masking with `2^k * y` is masking the shifted-down value.
 */
module Bits {

  function And(x: nat, y: nat): (r: nat)
    ensures r <= x && r <= y
  {
    if x == 0 || y == 0 then 0 else (x % 2) * (y % 2) + 2 * And(x / 2, y / 2)
  }

  // Bits set in both operands are counted twice by the sum.
  function Or(x: nat, y: nat): nat {
    x + y - And(x, y)
  }

  function Pow2(k: nat): (r: nat)
    ensures r >= 1
  {
    if k == 0 then 1 else 2 * Pow2(k - 1)
  }

  lemma MulSucc(n: int, e: int)
    ensures n * e == n * (e - 1) + n
  {}

  lemma SmallMultiple(n: int, e: int)
    requires -n < n * e < n
    ensures e == 0
  {
    MulSucc(n, e);
    MulSucc(n, e + 1);
  }

  lemma DivModUnique(x: nat, n: nat, d: nat, r: nat)
    requires 0 < n && r < n && x == n * d + r
    ensures x / n == d && x % n == r
  {
    var q, m := x / n, x % n;
    assert n * q + m == n * d + r;
    assert n * (q - d) == n * q - n * d;
    SmallMultiple(n, q - d);
  }

  // One step of long division by an even number.
  lemma HalveDivMod(x: nat, q: nat)
    requires q >= 1
    ensures x / (2 * q) == (x / 2) / q
    ensures x % (2 * q) == x % 2 + 2 * ((x / 2) % q)
  {
    var d, r := (x / 2) / q, (x / 2) % q;
    assert x / 2 == q * d + r;
    assert x == (2 * q) * d + (x % 2 + 2 * r);
    DivModUnique(x, 2 * q, d, x % 2 + 2 * r);
  }

  lemma {:induction false} AndLowMask(x: nat, k: nat)
    ensures And(x, Pow2(k) - 1) == x % Pow2(k)
    decreases k
  {
    if k > 0 {
      AndLowMask(x / 2, k - 1);
      HalveDivMod(x, Pow2(k - 1));
      assert (Pow2(k) - 1) % 2 == 1 && (Pow2(k) - 1) / 2 == Pow2(k - 1) - 1;
      if x == 0 {
        DivModUnique(0, Pow2(k), 0, 0);
      }
    }
  }

  function ShiftL(y: nat, k: nat): (r: nat)
    ensures y == 0 ==> r == 0
  {
    if k == 0 then y else 2 * ShiftL(y, k - 1)
  }

  function ShiftR(x: nat, k: nat): (r: nat) {
    if k == 0 then x else ShiftR(x / 2, k - 1)
  }

  lemma AndEven(x: nat, y: nat)
    ensures And(x, 2 * y) == 2 * And(x / 2, y)
  {
    assert (2 * y) % 2 == 0 && (2 * y) / 2 == y;
  }

  // Masking with a shifted mask inspects the shifted-down value.
  lemma {:induction false} AndShifted(x: nat, y: nat, k: nat)
    ensures And(x, ShiftL(y, k)) == ShiftL(And(ShiftR(x, k), y), k)
    decreases k
  {
    if k > 0 {
      AndShifted(x / 2, y, k - 1);
      AndEven(x, ShiftL(y, k - 1));
    }
  }

  lemma {:induction false} ShiftRShiftR(x: nat, j: nat, k: nat)
    ensures ShiftR(ShiftR(x, j), k) == ShiftR(x, j + k)
    decreases j
  {
    if j > 0 {
      ShiftRShiftR(x / 2, j - 1, k);
    }
  }

  ghost predicate PowerOfTwo(a: nat) {
    exists k: nat :: a == Pow2(k)
  }

  // The alignments the collector is given: powers of two up to 256.
  predicate IsPow2(a: nat) {
    exists k: nat :: k <= 8 && a == Pow2(k)
  }

  lemma Pow2AtMost256(alignment: nat)
    requires IsPow2(alignment)
    ensures 0 < alignment <= 256 && PowerOfTwo(alignment)
  {
    var k: nat :| k <= 8 && alignment == Pow2(k);
    assert Pow2(0) == 1 && Pow2(1) == 2 && Pow2(2) == 4 && Pow2(3) == 8 && Pow2(4) == 16;
    assert Pow2(5) == 32 && Pow2(6) == 64 && Pow2(7) == 128 && Pow2(8) == 256;
  }
}
