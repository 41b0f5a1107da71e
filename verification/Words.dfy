/**
  32-bit unsigned words as integers, with the operators the checksums use.

  `>> k` is division by 2^k, `& (2^k - 1)` the remainder by 2^k and `<< k` a product
  reduced modulo 2^32; exclusive-or is defined bit by bit.
 */
module Words {

  const LIMIT: nat := 0x1_0000_0000

  type Word = x: nat | x < LIMIT

  type Byte = x: nat | x < 256

  function Pow2(n: nat): (p: nat)
    ensures p >= 1
  {
    if n == 0 then 1 else 2 * Pow2(n - 1)
  }

  lemma {:induction false} Pow2Add(m: nat, n: nat)
    ensures Pow2(m + n) == Pow2(m) * Pow2(n)
  {
    if m > 0 {
      Pow2Add(m - 1, n);
      assert Pow2(m + n) == 2 * Pow2(m - 1 + n);
      assert 2 * (Pow2(m - 1) * Pow2(n)) == (2 * Pow2(m - 1)) * Pow2(n);
    }
  }

  /** Exclusive-or of integers of any width. */
  function XorNat(a: nat, b: nat): nat
    decreases a + b
  {
    if a == 0 then b else if b == 0 then a
    else 2 * XorNat(a / 2, b / 2) + (if a % 2 == b % 2 then 0 else 1)
  }

  /** The low bit is the sum of the low bits, and the rest the exclusive-or of the rests. */
  lemma XorSplit(a: nat, b: nat)
    ensures XorNat(a, b) / 2 == XorNat(a / 2, b / 2)
    ensures XorNat(a, b) % 2 == if a % 2 == b % 2 then 0 else 1
  {
  }

  lemma XorOfHalves(a: nat, b: nat, h: nat, r: nat)
    requires XorNat(a / 2, b / 2) == h && r == if a % 2 == b % 2 then 0 else 1
    ensures XorNat(a, b) == 2 * h + r
  {
    XorSplit(a, b);
  }

  lemma {:induction false} XorComm(a: nat, b: nat)
    ensures XorNat(a, b) == XorNat(b, a)
    decreases a + b
  {
    if a > 0 && b > 0 {
      XorComm(a / 2, b / 2);
    }
  }

  lemma {:induction false} XorAssoc(a: nat, b: nat, c: nat)
    ensures XorNat(XorNat(a, b), c) == XorNat(a, XorNat(b, c))
    decreases a + b + c
  {
    if a > 0 && b > 0 && c > 0 {
      XorSplit(a, b);
      XorSplit(b, c);
      XorSplit(XorNat(a, b), c);
      XorSplit(a, XorNat(b, c));
      XorAssoc(a / 2, b / 2, c / 2);
    }
  }

  lemma {:induction false} XorSelf(a: nat)
    ensures XorNat(a, a) == 0
  {
    if a > 0 {
      XorSelf(a / 2);
    }
  }

  lemma {:induction false} XorBound(a: nat, b: nat, n: nat)
    requires a < Pow2(n) && b < Pow2(n)
    ensures XorNat(a, b) < Pow2(n)
    decreases n
  {
    if a > 0 && b > 0 {
      XorBound(a / 2, b / 2, n - 1);
    }
  }

  /** Bits that do not overlap add. */
  lemma {:induction false} XorDisjoint(lo: nat, hi: nat, n: nat)
    requires lo < Pow2(n)
    ensures XorNat(lo, Pow2(n) * hi) == lo + Pow2(n) * hi
    decreases n
  {
    if n == 0 {
      OnceOf(hi);
    } else {
      XorDisjoint(lo / 2, hi, n - 1);
      TwiceOf(Pow2(n - 1), hi);
      XorEven(lo, Pow2(n - 1) * hi);
    }
  }

  lemma OnceOf(hi: nat)
    ensures Pow2(0) * hi == hi
  {
  }

  lemma TwiceOf(p: nat, hi: nat)
    ensures (2 * p) * hi == 2 * (p * hi)
  {
  }

  lemma XorEven(lo: nat, q: nat)
    requires XorNat(lo / 2, q) == lo / 2 + q
    ensures XorNat(lo, 2 * q) == lo + 2 * q
  {
    XorOfHalves(lo, 2 * q, lo / 2 + q, lo % 2);
  }

  lemma WordWidth()
    ensures Pow2(8) == 256 && Pow2(16) == 65536 && Pow2(24) == 0x100_0000 && Pow2(32) == LIMIT
  {
    Pow2Add(8, 8);
    Pow2Add(8, 16);
    Pow2Add(16, 16);
  }

  function Xor(a: Word, b: Word): (r: Word) {
    WordWidth();
    XorBound(a, b, 32);
    XorNat(a, b)
  }

  /** Bitwise complement. */
  function Not(a: Word): Word {
    LIMIT - 1 - a
  }
}
