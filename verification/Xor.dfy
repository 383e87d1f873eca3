/** Bytes and 32-bit words as the C code sees them; words stay ordinary numbers. */
module Words {
  newtype byte = x: int | 0 <= x < 256
  type u32 = x: int | 0 <= x < 0x1_0000_0000
}

/**
 Exclusive or on natural numbers of any size, with the laws the CRC proofs need.
 `x / 2` and `x % 2` are the C operators `x >> 1` and `x & 1`.
 */
module Bits {

  /** x << n */
  function Up(x: nat, n: nat): nat
    decreases n
  {
    if n == 0 then x else 2 * Up(x, n - 1)
  }

  function Xor(a: nat, b: nat): (r: nat)
    decreases a + b
  {
    if a == 0 && b == 0 then 0 else 2 * Xor(a / 2, b / 2) + (if a % 2 == b % 2 then 0 else 1)
  }

  lemma SplitOff(q: nat, bit: nat, x: nat)
    requires bit < 2 && x == 2 * q + bit
    ensures x / 2 == q && x % 2 == bit
  {
  }

  lemma Parity(a: nat, b: nat)
    ensures (a + b) % 2 == if a % 2 == b % 2 then 0 else 1
  {
  }

  lemma {:induction false} XorHalf(a: nat, b: nat)
    ensures Xor(a, b) / 2 == Xor(a / 2, b / 2)
    ensures Xor(a, b) % 2 == (a + b) % 2
  {
    Parity(a, b);
    SplitOff(Xor(a / 2, b / 2), (a + b) % 2, Xor(a, b));
  }

  lemma {:induction false} XorCommutes(a: nat, b: nat)
    ensures Xor(a, b) == Xor(b, a)
    decreases a + b
  {
    if a + b > 0 {
      XorCommutes(a / 2, b / 2);
    }
  }

  lemma {:induction false} XorZero(a: nat)
    ensures Xor(a, 0) == a == Xor(0, a)
  {
    if a > 0 {
      XorZero(a / 2);
    }
  }

  lemma {:induction false} XorSelf(a: nat)
    ensures Xor(a, a) == 0
  {
    if a > 0 {
      XorSelf(a / 2);
    }
  }

  lemma {:induction false} XorAssociates(a: nat, b: nat, c: nat)
    ensures Xor(Xor(a, b), c) == Xor(a, Xor(b, c))
    decreases a + b + c
  {
    if a + b + c > 0 {
      XorHalf(a, b);
      XorHalf(b, c);
      XorHalf(Xor(a, b), c);
      XorHalf(a, Xor(b, c));
      XorAssociates(a / 2, b / 2, c / 2);
    }
  }

  /** (a ^ b) ^ c == (a ^ c) ^ b */
  lemma XorSwap(a: nat, b: nat, c: nat)
    ensures Xor(Xor(a, b), c) == Xor(Xor(a, c), b)
  {
    XorAssociates(a, b, c);
    XorAssociates(a, c, b);
    XorCommutes(b, c);
  }

  lemma XorCancel(a: nat, b: nat)
    ensures Xor(Xor(a, b), b) == a
  {
    XorAssociates(a, b, b);
    XorSelf(b);
    XorZero(a);
  }

  /** Equal differences come from equal words. */
  lemma XorInjective(a: nat, b: nat)
    requires Xor(a, b) == 0
    ensures a == b
  {
    XorCancel(a, b);
    XorZero(b);
  }

  lemma {:induction false} XorBound(a: nat, b: nat, n: nat)
    requires a < Up(1, n) && b < Up(1, n)
    ensures Xor(a, b) < Up(1, n)
    decreases n
  {
    if n > 0 {
      XorBound(a / 2, b / 2, n - 1);
      XorHalf(a, b);
    }
  }

  lemma XorDouble(x: nat, y: nat)
    ensures Xor(2 * x, 2 * y) == 2 * Xor(x, y)
  {
    XorHalf(2 * x, 2 * y);
  }

  /** Words that do not overlap add up. */
  lemma {:induction false} XorDisjoint(lo: nat, hi: nat, n: nat)
    requires lo < Up(1, n)
    ensures Xor(lo, Up(hi, n)) == lo + Up(hi, n)
    decreases n
  {
    if n == 0 {
      XorZero(hi);
    } else {
      XorDisjoint(lo / 2, hi, n - 1);
      XorHalf(lo, 2 * Up(hi, n - 1));
    }
  }

  lemma {:induction false} UpUp(x: nat, m: nat, n: nat)
    ensures Up(x, m + n) == Up(Up(x, m), n)
    decreases n
  {
    if n > 0 {
      UpUp(x, m, n - 1);
    }
  }

  lemma {:induction false} UpGrows(x: nat, y: nat, n: nat)
    requires x <= y
    ensures Up(x, n) <= Up(y, n)
    ensures x <= Up(x, n)
    ensures x < y ==> Up(x, n) < Up(y, n)
    decreases n
  {
    if n > 0 {
      UpGrows(x, y, n - 1);
    }
  }

  /** One byte up. */
  lemma UpByte(x: nat)
    ensures Up(x, 8) == 256 * x
  {
    assert Up(x, 4) == 16 * x;
    UpUp(x, 4, 4);
    assert Up(16 * x, 4) == 256 * x;
  }

  lemma WordSize()
    ensures Up(1, 32) == 0x1_0000_0000
  {
    UpByte(1);
    UpByte(256);
    UpByte(0x1_0000);
    UpByte(0x100_0000);
    UpUp(1, 8, 8);
    UpUp(1, 16, 8);
    UpUp(1, 24, 8);
  }
}
