/** Bit operations on natural numbers, bit by bit. */
module Bits {
  function Pow2(n: nat): (p: nat)
    ensures p > 0
  {
    if n == 0 then 1 else 2 * Pow2(n - 1)
  }

  /** x << n, without a width. */
  function ShiftLeft(x: nat, n: nat): nat {
    if n == 0 then x else 2 * ShiftLeft(x, n - 1)
  }

  /** x >> n */
  function ShiftRight(x: nat, n: nat): nat {
    if n == 0 then x else ShiftRight(x / 2, n - 1)
  }

  /** The lowest `n` bits of `x`, each flipped. */
  function Flip(x: nat, n: nat): nat {
    if n == 0 then 0 else 2 * Flip(x / 2, n - 1) + (1 - x % 2)
  }

  function And(x: nat, y: nat): nat {
    if x == 0 then 0 else 2 * And(x / 2, y / 2) + (if x % 2 == 1 && y % 2 == 1 then 1 else 0)
  }

  lemma {:induction false} FlipIsComplement(x: nat, n: nat)
    requires x < Pow2(n)
    ensures Flip(x, n) == Pow2(n) - 1 - x
  {
    if n > 0 {
      FlipIsComplement(x / 2, n - 1);
    }
  }

  lemma {:induction false} AndSelf(x: nat)
    ensures And(x, x) == x
  {
    if x > 0 {
      AndSelf(x / 2);
    }
  }

  lemma AndByte(x: nat)
    requires x < 256
    ensures And(x, 255) == x
  {
    AndOnes(x, 8);
    assert Pow2(4) == 16 && Pow2(8) == 16 * Pow2(4);
  }

  lemma {:induction false} AndOnes(x: nat, n: nat)
    requires x < Pow2(n)
    ensures And(x, Pow2(n) - 1) == x
  {
    if x > 0 {
      assert Pow2(n) == 2 * Pow2(n - 1);
      HalfOnes(Pow2(n - 1));
      AndOnes(x / 2, n - 1);
    }
  }

  lemma HalfOnes(p: nat)
    requires p > 0
    ensures (2 * p - 1) / 2 == p - 1 && (2 * p - 1) % 2 == 1
  {}

  /** A mask shifted left picks the shifted bits. */
  lemma {:induction false} AndShifted(x: nat, m: nat, n: nat)
    ensures And(x, ShiftLeft(m, n)) == ShiftLeft(And(ShiftRight(x, n), m), n)
  {
    if n > 0 {
      AndShifted(x / 2, m, n - 1);
      assert ShiftLeft(m, n) / 2 == ShiftLeft(m, n - 1) && ShiftLeft(m, n) % 2 == 0;
      if x == 0 {
        assert And(x, ShiftLeft(m, n)) == 0;
      }
    }
  }

  lemma {:induction false} ShiftLeftAdd(a: nat, b: nat, n: nat)
    ensures ShiftLeft(a + b, n) == ShiftLeft(a, n) + ShiftLeft(b, n)
  {
    if n > 0 {
      ShiftLeftAdd(a, b, n - 1);
    }
  }

  /** Shifting right drops what was added below the shifted number. */
  lemma {:induction false} ShiftBack(s: nat, a: nat, n: nat)
    requires a < ShiftLeft(1, n)
    ensures ShiftRight(ShiftLeft(s, n) + a, n) == s
  {
    if n > 0 {
      ShiftBack(s, a / 2, n - 1);
      assert (ShiftLeft(s, n) + a) / 2 == ShiftLeft(s, n - 1) + a / 2;
    }
  }

  /** Every number is its high bits, shifted, and a rest. */
  lemma {:induction false} ShiftSplit(x: nat, n: nat)
    ensures ShiftLeft(ShiftRight(x, n), n) <= x < ShiftLeft(ShiftRight(x, n), n) + ShiftLeft(1, n)
  {
    if n > 0 {
      ShiftSplit(x / 2, n - 1);
    }
  }

  lemma {:induction false} ShiftRightLess(x: nat, m: nat, n: nat)
    requires x < ShiftLeft(m, n)
    ensures ShiftRight(x, n) < m
  {
    if n > 0 {
      ShiftRightLess(x / 2, m, n - 1);
    }
  }

  lemma Pow2Is32()
    ensures Pow2(32) == 0x1_0000_0000
  {
    assert Pow2(8) == 256 && Pow2(16) == 256 * Pow2(8);
    assert Pow2(24) == 256 * Pow2(16) && Pow2(32) == 256 * Pow2(24);
  }
}
