/** Unsigned bit operations on naturals, for the places where the engine
    masks sizes and flags: powers of two, bitwise AND and OR, and the n-bit
    complement. */
module Bits {
  import opened Bytes

  function Pow2(n: nat): (r: nat)
    ensures r >= 1
  {
    if n == 0 then 1 else 2 * Pow2(n - 1)
  }

  lemma {:induction false} Pow2Monotone(k: nat, n: nat)
    requires k <= n
    ensures Pow2(k) <= Pow2(n)
  {
    if k < n {
      Pow2Monotone(k, n - 1);
    }
  }

  /** Bitwise AND of two naturals, lowest bit first. */
  function And(x: nat, y: nat): (r: nat)
    ensures r <= x && r <= y
  {
    if x == 0 || y == 0 then 0
    else 2 * And(x / 2, y / 2) + (if x % 2 == 1 && y % 2 == 1 then 1 else 0)
  }

  /** Bitwise OR of two naturals, lowest bit first. */
  function Or(x: nat, y: nat): (r: nat)
    ensures r >= x && r >= y
  {
    if x == 0 then y
    else if y == 0 then x
    else 2 * Or(x / 2, y / 2) + (if x % 2 == 1 || y % 2 == 1 then 1 else 0)
  }

  /** The n-bit complement `~v` of an n-bit value. */
  function Not(v: nat, n: nat): (r: nat)
    requires v < Pow2(n)
    ensures r < Pow2(n) && r + v == Pow2(n) - 1
  {
    Pow2(n) - 1 - v
  }

  /** ANDing with n one-bits keeps an n-bit value. */
  lemma {:induction false} AndOnes(v: nat, n: nat)
    requires v < Pow2(n)
    ensures And(v, Pow2(n) - 1) == v
  {
    if n > 0 && v > 0 {
      AndOnes(v / 2, n - 1);
    }
  }

  /** v modulo 2^k, split into its lowest bit and the rest. */
  lemma ModPow2Step(v: nat, k: nat)
    requires k > 0
    ensures v % Pow2(k) == v % 2 + 2 * ((v / 2) % Pow2(k - 1))
  {
    var p := Pow2(k - 1);
    var q := (v / 2) / p;
    var r := v % 2 + 2 * ((v / 2) % p);
    assert v / 2 == p * q + (v / 2) % p;
    assert v == 2 * (v / 2) + v % 2;
    assert v == (2 * p) * q + r;
    DivModUnique(v, Pow2(k), q, r);
  }

  /** The mask that clears the k lowest of n bits, halved, is the mask that
      clears the k-1 lowest of n-1 bits. */
  lemma MaskHalf(n: nat, k: nat)
    requires 0 < k < n
    ensures Pow2(k) < Pow2(n) && Pow2(k - 1) < Pow2(n - 1)
    ensures (Pow2(n) - Pow2(k)) % 2 == 0
    ensures (Pow2(n) - Pow2(k)) / 2 == Pow2(n - 1) - Pow2(k - 1)
  {
    Pow2Monotone(k, n - 1);
    Pow2Monotone(k - 1, n - 2);
    assert Pow2(n) == 2 * Pow2(n - 1) && Pow2(k) == 2 * Pow2(k - 1);
    assert Pow2(n - 1) == 2 * Pow2(n - 2);
    DivModUnique(Pow2(n) - Pow2(k), 2, Pow2(n - 1) - Pow2(k - 1), 0);
  }

  /** The step of `AndMask`: the mask on v is twice the mask on v / 2,
      which the (n-1)-bit case rounds down. */
  lemma {:induction false} AndMaskStep(v: nat, n: nat, k: nat)
    requires 0 < k < n && 0 < v < Pow2(n)
    ensures Pow2(k) <= Pow2(n)
    ensures And(v, Pow2(n) - Pow2(k)) == v - v % Pow2(k)
    decreases n, 0
  {
    HalfBelow(v, n);
    AndMask(v / 2, n - 1, k - 1);
    MaskHalf(n, k);
    var mask := Pow2(n) - Pow2(k);
    var h := v / 2;
    var lo := h % Pow2(k - 1);
    var half := Pow2(n - 1) - Pow2(k - 1);
    assert mask / 2 == half;
    assert And(h, half) == h - lo;
    assert And(v, mask) == 2 * And(h, half);
    ModPow2Step(v, k);
    assert v == 2 * h + v % 2;
  }

  /** ANDing an n-bit value with the mask that clears its k lowest bits
      rounds it down to a multiple of 2^k. */
  lemma {:induction false} AndMask(v: nat, n: nat, k: nat)
    requires k <= n && v < Pow2(n)
    ensures Pow2(k) <= Pow2(n)
    ensures And(v, Pow2(n) - Pow2(k)) == v - v % Pow2(k)
    decreases n, 1
  {
    if k == 0 {
      AndOnes(v, n);
    } else if k == n {
      AndNoBits(v, n);
    } else if v == 0 {
      Pow2Monotone(k, n);
    } else {
      AndMaskStep(v, n, k);
    }
  }

  /** The mask that clears all n bits clears an n-bit value. */
  lemma AndNoBits(v: nat, n: nat)
    requires v < Pow2(n)
    ensures And(v, Pow2(n) - Pow2(n)) == v - v % Pow2(n) == 0
  {
    DivModUnique(v, Pow2(n), 0, v);
  }

  /** Halving an n-bit value leaves an (n-1)-bit value. */
  lemma HalfBelow(v: nat, n: nat)
    requires n > 0 && v < Pow2(n)
    ensures v / 2 < Pow2(n - 1)
  {
    assert Pow2(n) == 2 * Pow2(n - 1);
  }
}
