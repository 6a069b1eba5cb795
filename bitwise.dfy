/** Bitwise operations on unsigned words, written over natural numbers:
    a left shift is a multiplication by a power of two, and OR is defined
    bit by bit from the least significant bit upwards. */
module Bitwise {

  function Pow2(k: nat): (p: nat)
    ensures p >= 1
  {
    if k == 0 then 1 else 2 * Pow2(k - 1)
  }

  /** The powers of two that name the byte fields and the word width. */
  lemma Pow2Values()
    ensures Pow2(8) == 0x100 && Pow2(16) == 0x1_0000 && Pow2(24) == 0x100_0000 && Pow2(32) == 0x1_0000_0000
  {
    assert Pow2(8) == 0x100;
    assert Pow2(16) == 0x1_0000;
    assert Pow2(24) == 0x100_0000;
  }

  /** `n << k` when no bit is shifted out. */
  function Shl(n: nat, k: nat): nat { n * Pow2(k) }

  /** Bit i of n. */
  predicate Bit(n: nat, i: nat) {
    if i == 0 then n % 2 == 1 else Bit(n / 2, i - 1)
  }

  /** `a | b`: bit 0 is set when it is set in either operand, the higher
      bits are the OR of the halves. The result is at least each operand
      and at most their sum. */
  function Or(a: nat, b: nat): (r: nat)
    ensures a <= r && b <= r && r <= a + b
    decreases a + b
  {
    if a == 0 && b == 0 then 0
    else 2 * Or(a / 2, b / 2) + (if a % 2 == 1 || b % 2 == 1 then 1 else 0)
  }

  /** The recursion step of Or, also when both operands are 0. */
  lemma OrStep(a: nat, b: nat)
    ensures Or(a, b) == 2 * Or(a / 2, b / 2) + (if a % 2 == 1 || b % 2 == 1 then 1 else 0)
  {
  }

  /** A bit of `a | b` is set exactly when it is set in a or in b. */
  lemma {:induction false} OrBit(a: nat, b: nat, i: nat)
    ensures Bit(Or(a, b), i) <==> Bit(a, i) || Bit(b, i)
  {
    OrStep(a, b);
    if i > 0 {
      OrBit(a / 2, b / 2, i - 1);
    }
  }

  lemma {:induction false} OrZero(a: nat)
    ensures Or(a, 0) == a && Or(0, a) == a
    decreases a
  {
    if a > 0 {
      OrZero(a / 2);
    }
  }

  lemma {:induction false} OrSelf(a: nat)
    ensures Or(a, a) == a
    decreases a
  {
    if a > 0 {
      OrSelf(a / 2);
    }
  }

  lemma {:induction false} OrComm(a: nat, b: nat)
    ensures Or(a, b) == Or(b, a)
    decreases a + b
  {
    if a + b > 0 {
      OrComm(a / 2, b / 2);
    }
  }

  lemma {:induction false} OrAssoc(a: nat, b: nat, c: nat)
    ensures Or(Or(a, b), c) == Or(a, Or(b, c))
    decreases a + b + c
  {
    if a + b + c > 0 {
      var ab, bc := Or(a, b), Or(b, c);
      OrStep(a, b);
      OrStep(b, c);
      OrStep(ab, c);
      OrStep(a, bc);
      assert ab / 2 == Or(a / 2, b / 2);
      assert bc / 2 == Or(b / 2, c / 2);
      OrAssoc(a / 2, b / 2, c / 2);
    }
  }

  /** OR of a shifted value and a value that fits below the shift is their sum. */
  lemma {:induction false} OrDisjoint(hi: nat, lo: nat, k: nat)
    requires lo < Pow2(k)
    ensures Or(Shl(hi, k), lo) == Shl(hi, k) + lo
    decreases k
  {
    if k == 0 {
      OrZero(hi);
    } else {
      var h := Shl(hi, k);
      assert h == 2 * Shl(hi, k - 1);
      OrStep(h, lo);
      OrDisjoint(hi, lo / 2, k - 1);
    }
  }

  /** OR never produces a bit above the width of its operands. */
  lemma {:induction false} OrBelow(a: nat, b: nat, k: nat)
    requires a < Pow2(k) && b < Pow2(k)
    ensures Or(a, b) < Pow2(k)
    decreases k
  {
    OrStep(a, b);
    if k > 0 {
      OrBelow(a / 2, b / 2, k - 1);
    }
  }
}
