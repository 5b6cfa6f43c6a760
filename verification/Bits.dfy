/** C's bit operators on non-negative integers, bit by bit, and the identities the models need. */
module Bits {
  function And(a: nat, b: nat): nat
    decreases a + b
  {
    if a == 0 || b == 0 then 0
    else (if a % 2 == 1 && b % 2 == 1 then 1 else 0) + 2 * And(a / 2, b / 2)
  }

  function Or(a: nat, b: nat): nat
    decreases a + b
  {
    if a == 0 && b == 0 then 0
    else (if a % 2 == 1 || b % 2 == 1 then 1 else 0) + 2 * Or(a / 2, b / 2)
  }

  /** a << k, without a width: the models reduce the result where the C type does. */
  function Shl(a: nat, k: nat): nat
    decreases k
  {
    if k == 0 then a else 2 * Shl(a, k - 1)
  }

  /** a >> k */
  function Shr(a: nat, k: nat): nat
    decreases k
  {
    if k == 0 then a else Shr(a / 2, k - 1)
  }

  /** The low k bits of a. */
  function Low(a: nat, k: nat): nat
    decreases k
  {
    if k == 0 then 0 else a % 2 + 2 * Low(a / 2, k - 1)
  }

  lemma {:induction false} OrZero(a: nat)
    ensures Or(a, 0) == a && Or(0, a) == a
  {
    if a > 0 { OrZero(a / 2); }
  }

  lemma ShlHalf(a: nat, k: nat)
    requires k > 0
    ensures Shl(a, k) % 2 == 0 && Shl(a, k) / 2 == Shl(a, k - 1)
  {
  }

  lemma ShlMonotone(x: nat, j: nat, k: nat)
    requires j <= k
    ensures Shl(x, j) <= Shl(x, k)
    decreases k
  {
    if j < k { ShlMonotone(x, j, k - 1); }
  }

  /** Masking with 2^k - 1 keeps the low k bits. */
  lemma {:induction false} AndMask(a: nat, k: nat)
    ensures Shl(1, k) >= 1 && And(a, Shl(1, k) - 1) == Low(a, k)
  {
    if k > 0 {
      AndMask(a / 2, k - 1);
      assert (Shl(1, k) - 1) / 2 == Shl(1, k - 1) - 1;
      if a == 0 { LowZero(k); }
    }
  }

  lemma LowZero(k: nat)
    ensures Low(0, k) == 0
    decreases k
  {
  }

  /** A mask whose low k bits are clear sees only the high part. */
  lemma {:induction false} AndHigh(a: nat, b: nat, k: nat)
    ensures And(a, Shl(b, k)) == Shl(And(Shr(a, k), b), k)
    decreases k
  {
    if k > 0 {
      AndHigh(a / 2, b, k - 1);
      ShlHalf(b, k);
      if a == 0 { ShlZero(k); ShrZero(k); }
    }
  }

  lemma ShlZero(k: nat)
    ensures Shl(0, k) == 0
    decreases k
  {
  }

  lemma ShrZero(k: nat)
    ensures Shr(0, k) == 0
    decreases k
  {
  }

  /** Or of a value below 2^k with a multiple of 2^k is their sum. */
  lemma {:induction false} OrDisjoint(a: nat, b: nat, k: nat)
    requires a < Shl(1, k)
    ensures Or(a, Shl(b, k)) == a + Shl(b, k) == Or(Shl(b, k), a)
    decreases k
  {
    if k == 0 {
      OrZero(b);
    } else {
      OrDisjoint(a / 2, b, k - 1);
      ShlHalf(b, k);
    }
  }

  /** A number is its high part, shifted back, and its low bits. */
  lemma {:induction false} HighAndLow(x: nat, k: nat)
    ensures x == Shl(Shr(x, k), k) + Low(x, k) && Low(x, k) < Shl(1, k)
    decreases k
  {
    if k > 0 { HighAndLow(x / 2, k - 1); }
  }

  lemma Shl4(x: nat)
    ensures Shl(x, 4) == 16 * x
  {
  }

  /** The two halves of a byte. */
  lemma Nibbles(x: nat)
    ensures Shr(x, 4) == x / 16 && And(x, 0x0f) == x % 16
  {
    hide And, Low, Shl, Shr;
    Shl4(1);
    AndMask(x, 4);
    HighAndLow(x, 4);
    Shl4(Shr(x, 4));
  }
}
