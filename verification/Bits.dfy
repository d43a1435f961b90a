/** Bitwise operations on naturals, bit by bit from the low end. */
module Bits {
  function Pow2(n: nat): (p: nat)
    ensures p > 0
  {
    if n == 0 then 1 else 2 * Pow2(n - 1)
  }

  function And(x: nat, y: nat): (r: nat)
    ensures r <= x && r <= y
  {
    if x == 0 || y == 0 then 0 else 2 * And(x / 2, y / 2) + (if x % 2 == 1 && y % 2 == 1 then 1 else 0)
  }

  function Or(x: nat, y: nat): nat {
    if x == 0 then y else 2 * Or(x / 2, y / 2) + (if x % 2 == 1 || y % 2 == 1 then 1 else 0)
  }

  /** The complement of an n-bit number. */
  function Not(n: nat, x: nat): nat
    requires x < Pow2(n)
  {
    Pow2(n) - 1 - x
  }

  lemma AndStep(x: nat, y: nat)
    ensures And(x, y) / 2 == And(x / 2, y / 2)
    ensures And(x, y) % 2 == if x % 2 == 1 && y % 2 == 1 then 1 else 0
  {
  }

  predicate Bit(x: nat, k: nat) {
    if k == 0 then x % 2 == 1 else Bit(x / 2, k - 1)
  }

  /** A bit is set in the result when it is set in both numbers. */
  lemma {:induction false} AndBit(x: nat, y: nat, k: nat)
    ensures Bit(And(x, y), k) <==> Bit(x, k) && Bit(y, k)
    decreases k
  {
    AndStep(x, y);
    if k > 0 {
      AndBit(x / 2, y / 2, k - 1);
    }
  }

  lemma {:induction false} AndCommutes(x: nat, y: nat)
    ensures And(x, y) == And(y, x)
  {
    if x != 0 && y != 0 {
      AndCommutes(x / 2, y / 2);
    }
  }

  lemma {:induction false} AndAssociates(x: nat, y: nat, z: nat)
    ensures And(And(x, y), z) == And(x, And(y, z))
  {
    if x != 0 && y != 0 && z != 0 {
      AndStep(x, y);
      AndStep(y, z);
      AndStep(And(x, y), z);
      AndStep(x, And(y, z));
      AndAssociates(x / 2, y / 2, z / 2);
    }
  }

  /** Masking twice is masking once. */
  lemma {:induction false} AndIdempotent(x: nat, m: nat)
    ensures And(And(x, m), m) == And(x, m)
  {
    if x != 0 && m != 0 {
      AndStep(x, m);
      AndStep(And(x, m), m);
      AndIdempotent(x / 2, m / 2);
    }
  }

  lemma {:induction false} AndOnes(n: nat, x: nat)
    requires x < Pow2(n)
    ensures And(x, Pow2(n) - 1) == x
  {
    if x != 0 {
      AndOnes(n - 1, x / 2);
      assert (Pow2(n) - 1) / 2 == Pow2(n - 1) - 1;
    }
  }

  /** Host bits complete the masked bits without a carry. */
  lemma {:induction false} OrComplement(n: nat, x: nat, m: nat)
    requires m < Pow2(n)
    ensures Or(And(x, m), Not(n, m)) == And(x, m) + Not(n, m)
  {
    if And(x, m) != 0 {
      AndStep(x, m);
      OrComplement(n - 1, x / 2, m / 2);
      assert Not(n, m) / 2 == Not(n - 1, m / 2);
    }
  }
}
