/** Bit masks as natural numbers. The compiler's masks are `u32` (variable
    numbers, dependency masks, the delete-id bitmap) and `u64` (if-block
    context numbers); at run time they are JavaScript numbers combined with
    `|`, `&` and `^`. Bitwise operators are defined digit by digit, so that
    every bound (`< 2^32`, `< 2^64`) is a separate, proved fact. */
module Masks {

  function Pow2(k: nat): (r: nat)
    ensures r >= 1
  {
    if k == 0 then 1 else 2 * Pow2(k - 1)
  }

  /** `x >> i`. */
  function Shr(x: nat, i: nat): nat {
    if i == 0 then x else Shr(x / 2, i - 1)
  }

  /** Bit `i` of `x` is 1. */
  predicate BitSet(x: nat, i: nat) {
    Shr(x, i) % 2 == 1
  }

  /** `a | b`. */
  function Or(a: nat, b: nat): nat
    decreases a + b
  {
    if a == 0 && b == 0 then 0
    else 2 * Or(a / 2, b / 2) + (if a % 2 == 1 || b % 2 == 1 then 1 else 0)
  }

  /** `a & b`. */
  function And(a: nat, b: nat): nat
    decreases a + b
  {
    if a == 0 || b == 0 then 0
    else 2 * And(a / 2, b / 2) + (if a % 2 == 1 && b % 2 == 1 then 1 else 0)
  }

  /** `a ^ b`. */
  function Xor(a: nat, b: nat): nat
    decreases a + b
  {
    if a == 0 && b == 0 then 0
    else 2 * Xor(a / 2, b / 2) + (if (a % 2 == 1) != (b % 2 == 1) then 1 else 0)
  }

  /** The low `n` bits of `x`, that is `x` modulo `2^n`. */
  function LowBits(x: nat, n: nat): (r: nat)
    ensures r < Pow2(n)
  {
    if n == 0 then 0 else 2 * LowBits(x / 2, n - 1) + x % 2
  }

  /** The low 32 bits, as JavaScript's `ToUint32`/`ToInt32` keep them. */
  function Low32(x: nat): (r: nat)
    ensures r < Pow2(32)
  {
    LowBits(x, 32)
  }

  /** Cutting a number that fits changes nothing. */
  lemma {:induction false} LowBitsFit(x: nat, n: nat)
    requires x < Pow2(n)
    ensures LowBits(x, n) == x
    decreases n
  {
    if n > 0 {
      LowBitsFit(x / 2, n - 1);
    }
  }

  /** A power of two at or above `2^n` has no low `n` bits. */
  lemma {:induction false} LowBitsOfHighPow2(i: nat, n: nat)
    requires n <= i
    ensures LowBits(Pow2(i), n) == 0
    decreases n
  {
    if n > 0 {
      LowBitsOfHighPow2(i - 1, n - 1);
    }
  }

  lemma {:induction false} ShrZero(i: nat)
    ensures Shr(0, i) == 0
  {
    if i > 0 {
      ShrZero(i - 1);
    }
  }

  lemma ZeroBit(i: nat)
    ensures !BitSet(0, i)
  {
    ShrZero(i);
  }

  /** A mask with no bit set is 0. */
  lemma NoBitIsZero(x: nat)
    requires forall i: nat :: !BitSet(x, i)
    ensures x == 0
  {
    forall i: nat ensures BitSet(x, i) == BitSet(0, i) {
      ZeroBit(i);
    }
    BitsEqual(x, 0);
  }

  /** Two masks with the same bits are the same number. */
  lemma {:induction false} BitsEqual(x: nat, y: nat)
    requires forall i: nat :: BitSet(x, i) == BitSet(y, i)
    ensures x == y
    decreases x + y
  {
    if x != 0 || y != 0 {
      assert BitSet(x, 0) == BitSet(y, 0);
      forall i: nat ensures BitSet(x / 2, i) == BitSet(y / 2, i) {
        assert BitSet(x, i + 1) == BitSet(y, i + 1);
      }
      BitsEqual(x / 2, y / 2);
    }
  }

  /** Bit `i` of `x` is bit `i - 1` of `x / 2`. */
  lemma HalfBit(x: nat, i: nat)
    requires i > 0
    ensures BitSet(x, i) == BitSet(x / 2, i - 1)
  {
  }

  lemma {:induction false} OrBit(a: nat, b: nat, i: nat)
    ensures BitSet(Or(a, b), i) <==> BitSet(a, i) || BitSet(b, i)
    decreases i
  {
    if a == 0 && b == 0 {
      ZeroBit(i);
    } else if i > 0 {
      HalfBit(Or(a, b), i);
      HalfBit(a, i);
      HalfBit(b, i);
      assert Or(a, b) / 2 == Or(a / 2, b / 2);
      OrBit(a / 2, b / 2, i - 1);
    }
  }

  lemma {:induction false} AndBit(a: nat, b: nat, i: nat)
    ensures BitSet(And(a, b), i) <==> BitSet(a, i) && BitSet(b, i)
    decreases i
  {
    if a == 0 || b == 0 {
      ZeroBit(i);
    } else if i > 0 {
      HalfBit(And(a, b), i);
      HalfBit(a, i);
      HalfBit(b, i);
      assert And(a, b) / 2 == And(a / 2, b / 2);
      AndBit(a / 2, b / 2, i - 1);
    }
  }

  lemma {:induction false} XorBit(a: nat, b: nat, i: nat)
    ensures BitSet(Xor(a, b), i) <==> BitSet(a, i) != BitSet(b, i)
    decreases i
  {
    if a == 0 && b == 0 {
      ZeroBit(i);
    } else if i > 0 {
      HalfBit(Xor(a, b), i);
      HalfBit(a, i);
      HalfBit(b, i);
      assert Xor(a, b) / 2 == Xor(a / 2, b / 2);
      XorBit(a / 2, b / 2, i - 1);
    }
  }

  /** `1 << k` has exactly bit `k` set. */
  lemma {:induction false} Pow2Bit(k: nat, i: nat)
    ensures BitSet(Pow2(k), i) <==> i == k
    decreases k
  {
    if k == 0 {
      if i > 0 {
        ShrZero(i - 1);
      }
    } else if i > 0 {
      Pow2Bit(k - 1, i - 1);
    }
  }

  /** A number below `2^n` has no bit at or above `n`. */
  lemma {:induction false} HighBitsClear(x: nat, n: nat, i: nat)
    requires x < Pow2(n) && n <= i
    ensures !BitSet(x, i)
    decreases n
  {
    if n == 0 {
      ZeroBit(i);
    } else {
      HighBitsClear(x / 2, n - 1, i - 1);
    }
  }

  lemma {:induction false} OrBelow(a: nat, b: nat, n: nat)
    requires a < Pow2(n) && b < Pow2(n)
    ensures Or(a, b) < Pow2(n)
    decreases n
  {
    if n > 0 && (a != 0 || b != 0) {
      OrBelow(a / 2, b / 2, n - 1);
    }
  }

  lemma {:induction false} Pow2Monotone(j: nat, k: nat)
    requires j <= k
    ensures Pow2(j) <= Pow2(k)
    decreases k
  {
    if j < k {
      Pow2Monotone(j, k - 1);
    }
  }

  lemma OrZero(x: nat)
    ensures Or(x, 0) == x && Or(0, x) == x
  {
    forall i: nat ensures BitSet(Or(x, 0), i) == BitSet(x, i) && BitSet(Or(0, x), i) == BitSet(x, i) {
      OrBit(x, 0, i);
      OrBit(0, x, i);
      ZeroBit(i);
    }
    BitsEqual(Or(x, 0), x);
    BitsEqual(Or(0, x), x);
  }

  /** All bits of `m` are set in `r`. */
  ghost predicate Covers(r: nat, m: nat) {
    forall i: nat :: BitSet(m, i) ==> BitSet(r, i)
  }

  /** The emitted guard `!((r & m) ^ m)` is true exactly when every bit of
      `m` is set in `r`. */
  lemma GuardMeansCovers(r: nat, m: nat)
    ensures Xor(And(r, m), m) == 0 <==> Covers(r, m)
  {
    forall i: nat ensures BitSet(Xor(And(r, m), m), i) <==> BitSet(m, i) && !BitSet(r, i) {
      XorBit(And(r, m), m, i);
      AndBit(r, m, i);
    }
    if Xor(And(r, m), m) == 0 {
      forall i: nat | BitSet(m, i) ensures BitSet(r, i) {
        ZeroBit(i);
      }
    }
    if Covers(r, m) {
      NoBitIsZero(Xor(And(r, m), m));
    }
  }
}
