/**
 * The PHP operators the `Security` class computes with: `^` and `|` on the
 * non-negative integers that `ord()` returns, and `^` on two byte strings.
 */
module Bitwise {

  /** A byte, as `ord()` returns it. */
  type Byte = x: int | 0 <= x < 0x100

  /** A byte string (PHP strings are byte strings). */
  type Bytes = seq<Byte>

  function Min(a: int, b: int): int { if a <= b then a else b }

  function Max(a: int, b: int): int { if a <= b then b else a }

  function Pow2(k: nat): nat
  {
    if k == 0 then 1 else 2 * Pow2(k - 1)
  }

  /** `a ^ b`, bit by bit from the least significant bit up. */
  function Xor(a: nat, b: nat): nat
    decreases a + b
  {
    if a == 0 then b
    else if b == 0 then a
    else 2 * Xor(a / 2, b / 2) + (if a % 2 == b % 2 then 0 else 1)
  }

  /** `a | b`, bit by bit from the least significant bit up. */
  function Or(a: nat, b: nat): nat
    decreases a + b
  {
    if a == 0 then b
    else if b == 0 then a
    else 2 * Or(a / 2, b / 2) + (if a % 2 == 1 || b % 2 == 1 then 1 else 0)
  }

  /** Two numbers have no differing bit exactly when they are equal. */
  lemma {:induction false} XorZeroIff(a: nat, b: nat)
    ensures Xor(a, b) == 0 <==> a == b
    decreases a + b
  {
    if a != 0 && b != 0 {
      XorZeroIff(a / 2, b / 2);
    }
  }

  lemma {:induction false} XorSymmetric(a: nat, b: nat)
    ensures Xor(a, b) == Xor(b, a)
    decreases a + b
  {
    if a != 0 && b != 0 {
      XorSymmetric(a / 2, b / 2);
    }
  }

  /** An OR has no bit set exactly when neither operand has. */
  lemma {:induction false} OrZeroIff(a: nat, b: nat)
    ensures Or(a, b) == 0 <==> a == 0 && b == 0
    decreases a + b
  {
    if a != 0 && b != 0 {
      OrZeroIff(a / 2, b / 2);
    }
  }

  /** XOR of two `k`-bit numbers is a `k`-bit number. */
  lemma {:induction false} XorBelow(a: nat, b: nat, k: nat)
    requires a < Pow2(k) && b < Pow2(k)
    ensures Xor(a, b) < Pow2(k)
    decreases a + b
  {
    if a != 0 && b != 0 {
      assert k > 0;
      XorBelow(a / 2, b / 2, k - 1);
    }
  }

  /** `^` on two bytes is a byte. */
  function XorByte(x: Byte, y: Byte): (r: Byte)
    ensures r == Xor(x, y)
  {
    XorBelow(x, y, 8);
    Xor(x, y)
  }

  /** PHP's `^` on two strings: the XOR of the bytes at each position, as
      long as the shorter operand. */
  function XorBytes(a: Bytes, b: Bytes): (r: Bytes)
    ensures |r| == Min(|a|, |b|)
  {
    seq(Min(|a|, |b|), k requires 0 <= k < Min(|a|, |b|) => XorByte(a[k], b[k]))
  }
}
