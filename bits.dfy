/**
 * Bitwise AND, OR and XOR on non-negative integers, with the meaning that
 * Python's `&`, `|` and `^` give them: the operation is applied to each pair
 * of binary digits. The operations are defined by recursion on the lowest
 * digit; `Bit` is the reference definition they are proved against.
 */
module Bits {

  /** 2 to the power k. */
  function Pow2(k: nat): (p: nat)
    ensures p >= 1
  {
    if k == 0 then 1 else 2 * Pow2(k - 1)
  }

  /** Binary digit i of n (digit 0 is the least significant). */
  function Bit(n: nat, i: nat): (b: nat)
    ensures b <= 1
  {
    if i == 0 then n % 2 else Bit(n / 2, i - 1)
  }

  function And(a: nat, b: nat): nat
    decreases a
  {
    if a == 0 || b == 0 then 0
    else 2 * And(a / 2, b / 2) + (if a % 2 == 1 && b % 2 == 1 then 1 else 0)
  }

  function Or(a: nat, b: nat): nat
    decreases a
  {
    if a == 0 then b
    else if b == 0 then a
    else 2 * Or(a / 2, b / 2) + (if a % 2 == 1 || b % 2 == 1 then 1 else 0)
  }

  function Xor(a: nat, b: nat): nat
    decreases a
  {
    if a == 0 then b
    else if b == 0 then a
    else 2 * Xor(a / 2, b / 2) + (a % 2 + b % 2) % 2
  }

  // ---------------------------------------------------------------------------
  // Digit-wise meaning of the three operations
  // ---------------------------------------------------------------------------

  lemma {:induction false} BitOfZero(i: nat)
    ensures Bit(0, i) == 0
  {
    if i > 0 {
      BitOfZero(i - 1);
    }
  }

  /** Digit i of a AND b is 1 exactly when digit i of both operands is 1. */
  lemma {:induction false} AndBit(a: nat, b: nat, i: nat)
    ensures Bit(And(a, b), i) == (if Bit(a, i) == 1 && Bit(b, i) == 1 then 1 else 0)
    decreases i
  {
    if a == 0 || b == 0 {
      BitOfZero(i);
    } else if i > 0 {
      AndBit(a / 2, b / 2, i - 1);
    }
  }

  /** Digit i of a OR b is 1 exactly when digit i of either operand is 1. */
  lemma {:induction false} OrBit(a: nat, b: nat, i: nat)
    ensures Bit(Or(a, b), i) == (if Bit(a, i) == 1 || Bit(b, i) == 1 then 1 else 0)
    decreases i
  {
    if a == 0 {
      BitOfZero(i);
    } else if b == 0 {
      BitOfZero(i);
    } else if i > 0 {
      OrBit(a / 2, b / 2, i - 1);
    }
  }

  /** Digit i of a XOR b is 1 exactly when the operands' digits i differ. */
  lemma {:induction false} XorBit(a: nat, b: nat, i: nat)
    ensures Bit(Xor(a, b), i) == (if Bit(a, i) != Bit(b, i) then 1 else 0)
    decreases i
  {
    if a == 0 {
      BitOfZero(i);
    } else if b == 0 {
      BitOfZero(i);
    } else {
      var low := (a % 2 + b % 2) % 2;
      assert Xor(a, b) == 2 * Xor(a / 2, b / 2) + low;
      assert Xor(a, b) % 2 == low && Xor(a, b) / 2 == Xor(a / 2, b / 2);
      if i > 0 {
        XorBit(a / 2, b / 2, i - 1);
      }
    }
  }

  /** Two naturals with the same binary digits are equal. */
  lemma {:induction false} BitsDetermine(a: nat, b: nat)
    requires forall i: nat :: Bit(a, i) == Bit(b, i)
    ensures a == b
    decreases a + b
  {
    if a != 0 || b != 0 {
      assert a % 2 == b % 2 by { assert Bit(a, 0) == Bit(b, 0); }
      forall i: nat
        ensures Bit(a / 2, i) == Bit(b / 2, i)
      {
        assert Bit(a, i + 1) == Bit(b, i + 1);
      }
      BitsDetermine(a / 2, b / 2);
    }
  }

  // ---------------------------------------------------------------------------
  // Algebra used by the colour operations
  // ---------------------------------------------------------------------------

  /** XOR with the same operand twice gives back the original value. */
  lemma {:induction false} XorCancel(a: nat, b: nat)
    ensures Xor(Xor(a, b), b) == a
  {
    forall i: nat
      ensures Bit(Xor(Xor(a, b), b), i) == Bit(a, i)
    {
      XorBit(Xor(a, b), b, i);
      XorBit(a, b, i);
    }
    BitsDetermine(Xor(Xor(a, b), b), a);
  }

  lemma {:induction false} AndCommutes(a: nat, b: nat)
    ensures And(a, b) == And(b, a)
  {
    forall i: nat
      ensures Bit(And(a, b), i) == Bit(And(b, a), i)
    {
      AndBit(a, b, i);
      AndBit(b, a, i);
    }
    BitsDetermine(And(a, b), And(b, a));
  }

  lemma {:induction false} OrCommutes(a: nat, b: nat)
    ensures Or(a, b) == Or(b, a)
  {
    forall i: nat
      ensures Bit(Or(a, b), i) == Bit(Or(b, a), i)
    {
      OrBit(a, b, i);
      OrBit(b, a, i);
    }
    BitsDetermine(Or(a, b), Or(b, a));
  }

  lemma {:induction false} XorCommutes(a: nat, b: nat)
    ensures Xor(a, b) == Xor(b, a)
  {
    forall i: nat
      ensures Bit(Xor(a, b), i) == Bit(Xor(b, a), i)
    {
      XorBit(a, b, i);
      XorBit(b, a, i);
    }
    BitsDetermine(Xor(a, b), Xor(b, a));
  }

  /** AND keeps only digits present in both operands, so it is at most either. */
  lemma {:induction false} AndAtMost(a: nat, b: nat)
    ensures And(a, b) <= a && And(a, b) <= b
    decreases a
  {
    if a != 0 && b != 0 {
      AndAtMost(a / 2, b / 2);
    }
  }

  /** OR adds no digit above the operands' width. */
  lemma {:induction false} OrBelow(a: nat, b: nat, k: nat)
    requires a < Pow2(k) && b < Pow2(k)
    ensures Or(a, b) < Pow2(k)
    decreases a
  {
    if a != 0 && b != 0 {
      OrBelow(a / 2, b / 2, k - 1);
    }
  }

  /** XOR adds no digit above the operands' width. */
  lemma {:induction false} XorBelow(a: nat, b: nat, k: nat)
    requires a < Pow2(k) && b < Pow2(k)
    ensures Xor(a, b) < Pow2(k)
    decreases a
  {
    if a != 0 && b != 0 {
      XorBelow(a / 2, b / 2, k - 1);
    }
  }

  /** OR is the sum of the shared digits (AND) and the differing digits (XOR). */
  lemma {:induction false} OrIsAndPlusXor(a: nat, b: nat)
    ensures Or(a, b) == And(a, b) + Xor(a, b)
    decreases a
  {
    if a != 0 && b != 0 {
      OrIsAndPlusXor(a / 2, b / 2);
    }
  }

  /** Masking with k one-digits keeps a number below 2^k unchanged. */
  lemma {:induction false} AndAllOnes(a: nat, k: nat)
    requires a < Pow2(k)
    ensures And(a, Pow2(k) - 1) == a
    decreases k
  {
    if a != 0 {
      var m := Pow2(k) - 1;
      assert m / 2 == Pow2(k - 1) - 1 && m % 2 == 1;
      assert And(a, m) == 2 * And(a / 2, m / 2) + a % 2;
      AndAllOnes(a / 2, k - 1);
    }
  }

  /** One unfolding of XOR against an odd operand, which flips the low digit. */
  lemma {:induction false} XorOfOdd(a: nat, m: nat)
    requires a != 0 && m % 2 == 1
    ensures Xor(a, m) == 2 * Xor(a / 2, m / 2) + (1 - a % 2)
  {
  }

  /** XOR with k one-digits complements a number below 2^k. */
  lemma {:induction false} XorAllOnes(a: nat, k: nat)
    requires a < Pow2(k)
    ensures Xor(a, Pow2(k) - 1) == Pow2(k) - 1 - a
    decreases k
  {
    if a != 0 {
      var h := Pow2(k - 1);
      assert Pow2(k) == 2 * h;
      var m := 2 * h - 1;
      assert m / 2 == h - 1 && m % 2 == 1;
      assert a / 2 < h;
      XorAllOnes(a / 2, k - 1);
      XorOfOdd(a, m);
      assert a == 2 * (a / 2) + a % 2;
    }
  }

  /** A number below 2^k shares no digit with its k-digit complement. */
  lemma {:induction false} AndComplementIsZero(a: nat, k: nat)
    requires a < Pow2(k)
    ensures And(a, Xor(a, Pow2(k) - 1)) == 0
    decreases k
  {
    if a != 0 {
      var m := Pow2(k) - 1;
      assert m / 2 == Pow2(k - 1) - 1 && m % 2 == 1;
      var x := Xor(a, m);
      assert x == 2 * Xor(a / 2, m / 2) + (1 - a % 2);
      assert x / 2 == Xor(a / 2, m / 2) && x % 2 == 1 - a % 2;
      AndComplementIsZero(a / 2, k - 1);
      if x != 0 {
        assert And(a, x) == 2 * And(a / 2, x / 2) + 0;
      }
    }
  }

  /** AND with 1 reads the lowest digit. */
  lemma AndOne(a: nat)
    ensures And(a, 1) == a % 2
  {
  }

  /** AND with 0xFE clears the lowest digit of a byte. */
  lemma ClearLowBit(a: nat)
    requires a < 256
    ensures And(a, 254) == a - a % 2
  {
    if a != 0 {
      assert Pow2(7) == 128;
      AndAllOnes(a / 2, 7);
    }
  }

  /** OR-ing 0 or 1 into an even number adds it. */
  lemma OrIntoEven(a: nat, bit: nat)
    requires a % 2 == 0 && bit <= 1
    ensures Or(a, bit) == a + bit
  {
    if a != 0 && bit == 1 {
      assert Or(a / 2, 0) == a / 2;
    }
  }
}
