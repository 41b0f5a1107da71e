/**
  CRC-32 as section 8 of RFC 1952 defines it: the message, read as a polynomial over
  GF(2), is divided by the generator polynomial.

  Three descriptions of one computation live here, each tied to the next by a lemma:
   - `LongDivision`: schoolbook division of a bit string by the 33-bit generator;
   - `FeedBits`: a 32-bit shift register that takes the message one bit at a time;
   - `FeedBytes`: the same register advanced eight bits at a time.
  A register holds the lowest power of x in its most significant bit, so multiplying by
  x is a right shift.
 */
module Crc32Spec {
  import opened Words

  /** The generator without its x^32 term, lowest power in the most significant bit. */
  const POLY: Word := 0xedb88320

  const ONES: Word := 0xffffffff

  // ---------------------------------------------------------------------------------
  // The shift register
  // ---------------------------------------------------------------------------------

  /** Multiplies the register by x modulo the generator: one zero bit is fed in. */
  function Step(c: Word): Word {
    if c % 2 == 1 then Xor(POLY, c / 2) else c / 2
  }

  /** Feeds n zero bits. */
  function Steps(c: Word, n: nat): Word
    decreases n, c
  {
    if n == 0 then c else Steps(Step(c), n - 1)
  }

  /** Feeds one message bit. */
  function BitStep(c: Word, bit: bool): Word {
    if (c % 2 == 1) != bit then Xor(POLY, c / 2) else c / 2
  }

  /** Feeds a bit string, first bit first. */
  function FeedBits(c: Word, bits: seq<bool>): Word
    decreases |bits|
  {
    if bits == [] then c else FeedBits(BitStep(c, bits[0]), bits[1..])
  }

  /** The n low bits of w, least significant first. */
  function LowBits(w: nat, n: nat): (bits: seq<bool>)
    ensures |bits| == n
    decreases n
  {
    if n == 0 then [] else [w % 2 == 1] + LowBits(w / 2, n - 1)
  }

  /** Bytes go over the wire least significant bit first. */
  function MessageBits(data: seq<Byte>): (bits: seq<bool>)
    ensures |bits| == 8 * |data|
  {
    if data == [] then [] else LowBits(data[0], 8) + MessageBits(data[1..])
  }

  /** The register after whole bytes. */
  function FeedBytes(c: Word, data: seq<Byte>): Word
    decreases |data|
  {
    if data == [] then c else FeedBytes(Steps(Xor(c, data[0]), 8), data[1..])
  }

  /** The checksum of `data` continued from `crc`; a fresh checksum continues from 0. */
  function Crc(crc: Word, data: seq<Byte>): Word {
    Not(FeedBits(Not(crc), MessageBits(data)))
  }

  // ---------------------------------------------------------------------------------
  // Exclusive-or on words
  // ---------------------------------------------------------------------------------

  lemma XorWords(a: Word, b: Word, c: Word)
    ensures Xor(a, b) == Xor(b, a)
    ensures Xor(Xor(a, b), c) == Xor(a, Xor(b, c))
    ensures Xor(b, Xor(a, c)) == Xor(a, Xor(b, c))
    ensures Xor(a, 0) == a && Xor(0, a) == a && Xor(a, a) == 0
  {
    XorComm(a, b);
    XorAssoc(a, b, c);
    XorAssoc(b, a, c);
    XorSelf(a);
  }

  lemma XorCancel(p: Word, a: Word, b: Word)
    ensures Xor(Xor(p, a), Xor(p, b)) == Xor(a, b)
  {
    XorWords(p, a, Xor(p, b));
    XorWords(p, p, Xor(a, b));
    XorWords(a, p, b);
    XorWords(Xor(a, b), 0, 0);
    XorAssoc(p, p, Xor(a, b));
  }

  lemma {:induction false} NotNat(a: nat, n: nat)
    requires a < Pow2(n)
    ensures XorNat(a, Pow2(n) - 1) == Pow2(n) - 1 - a
    decreases n
  {
    if n > 0 {
      NotNat(a / 2, n - 1);
      NotEven(a, Pow2(n) - 1, Pow2(n - 1));
    }
  }

  lemma NotEven(a: nat, ones: nat, p: nat)
    requires a < 2 * p && ones == 2 * p - 1 && XorNat(a / 2, p - 1) == p - 1 - a / 2
    ensures XorNat(a, ones) == ones - a
  {
    XorOfHalves(a, ones, p - 1 - a / 2, 1 - a % 2);
  }

  /** Complementing is adding the all-ones word. */
  lemma NotIsXor(a: Word)
    ensures Not(a) == Xor(a, ONES)
    ensures Not(Not(a)) == a
  {
    WordWidth();
    NotNat(a, 32);
  }

  // ---------------------------------------------------------------------------------
  // Linearity
  // ---------------------------------------------------------------------------------

  lemma HalfXor(a: Word, b: Word)
    ensures Xor(a, b) / 2 == Xor(a / 2, b / 2)
    ensures Xor(a, b) % 2 == if a % 2 == b % 2 then 0 else 1
  {
    XorSplit(a, b);
  }

  /** Feeding the sum of two bits to the sum of two registers. */
  lemma BitStepLinear(a: Word, p: bool, b: Word, q: bool)
    ensures BitStep(Xor(a, b), p != q) == Xor(BitStep(a, p), BitStep(b, q))
  {
    HalfXor(a, b);
    XorWords(POLY, a / 2, b / 2);
    XorWords(a / 2, POLY, b / 2);
    XorCancel(POLY, a / 2, b / 2);
  }

  lemma StepLinear(a: Word, b: Word)
    ensures Step(Xor(a, b)) == Xor(Step(a), Step(b))
  {
    BitStepLinear(a, false, b, false);
  }

  lemma {:induction false} StepsLinear(a: Word, b: Word, n: nat)
    ensures Steps(Xor(a, b), n) == Xor(Steps(a, n), Steps(b, n))
    decreases n
  {
    if n > 0 {
      StepLinear(a, b);
      StepsLinear(Step(a), Step(b), n - 1);
    }
  }

  lemma {:induction false} StepsAdd(c: Word, m: nat, n: nat)
    ensures Steps(Steps(c, m), n) == Steps(c, m + n)
    decreases m
  {
    if m > 0 {
      StepsAdd(Step(c), m - 1, n);
    }
  }

  /** While only zeros fall out of the register, feeding zeros is shifting. */
  lemma {:induction false} StepsShift(h: nat, n: nat)
    requires Pow2(n) * h < LIMIT
    ensures h <= Pow2(n) * h
    ensures Steps(Pow2(n) * h, n) == h
    decreases n
  {
    if n > 0 {
      var q := Pow2(n - 1) * h;
      assert Pow2(n) * h == 2 * q;
      StepsShift(h, n - 1);
    }
  }

  // ---------------------------------------------------------------------------------
  // Bits and bytes
  // ---------------------------------------------------------------------------------

  lemma {:induction false} FeedBitsConcat(c: Word, s: seq<bool>, t: seq<bool>)
    ensures FeedBits(c, s + t) == FeedBits(FeedBits(c, s), t)
    decreases |s|
  {
    if s == [] {
      assert s + t == t;
    } else {
      assert (s + t)[0] == s[0] && (s + t)[1..] == s[1..] + t;
      FeedBitsConcat(BitStep(c, s[0]), s[1..], t);
    }
  }

  /** Mixing n message bits into the low end at once, or one before each step, is the same. */
  lemma {:induction false} FeedLowBits(c: Word, w: Word, n: nat)
    requires w < Pow2(n)
    ensures FeedBits(c, LowBits(w, n)) == Steps(Xor(c, w), n)
    decreases n
  {
    if n == 0 {
      XorWords(c, 0, 0);
    } else {
      var bit := w % 2 == 1;
      assert LowBits(w, n)[1..] == LowBits(w / 2, n - 1);
      assert Step(Xor(c, w)) == Xor(BitStep(c, bit), w / 2) by {
        BitStepLinear(c, bit, w, bit);
      }
      FeedLowBits(BitStep(c, bit), w / 2, n - 1);
    }
  }

  lemma {:induction false} BytesAreBits(c: Word, data: seq<Byte>)
    ensures FeedBits(c, MessageBits(data)) == FeedBytes(c, data)
    decreases |data|
  {
    if data != [] {
      var w := data[0];
      FeedBitsConcat(c, LowBits(w, 8), MessageBits(data[1..]));
      WordWidth();
      FeedLowBits(c, w, 8);
      BytesAreBits(Steps(Xor(c, w), 8), data[1..]);
    }
  }

  lemma {:induction false} FeedBytesConcat(c: Word, s: seq<Byte>, t: seq<Byte>)
    ensures FeedBytes(c, s + t) == FeedBytes(FeedBytes(c, s), t)
    decreases |s|
  {
    if s == [] {
      assert s + t == t;
    } else {
      assert (s + t)[0] == s[0] && (s + t)[1..] == s[1..] + t;
      FeedBytesConcat(Steps(Xor(c, s[0]), 8), s[1..], t);
    }
  }

  /** A checksum may be taken in any number of pieces. */
  lemma CrcContinues(crc: Word, s: seq<Byte>, t: seq<Byte>)
    ensures Crc(crc, s + t) == Crc(Crc(crc, s), t)
  {
    BytesAreBits(Not(crc), s + t);
    BytesAreBits(Not(crc), s);
    FeedBytesConcat(Not(crc), s, t);
    BytesAreBits(FeedBytes(Not(crc), s), t);
  }

  /** What the register held on entry and what the message adds separate. */
  lemma {:induction false} FeedBytesAffine(a: Word, b: Word, data: seq<Byte>)
    ensures FeedBytes(Xor(a, b), data) == Xor(Steps(a, 8 * |data|), FeedBytes(b, data))
    decreases |data|
  {
    if data != [] {
      var w := data[0];
      XorWords(a, b, w);
      StepsLinear(a, Xor(b, w), 8);
      FeedBytesAffine(Steps(a, 8), Steps(Xor(b, w), 8), data[1..]);
      StepsAdd(a, 8, 8 * |data[1..]|);
    }
  }

  lemma CrcAffine(c: Word, t: seq<Byte>)
    ensures Crc(c, t) == Xor(Steps(c, 8 * |t|), Crc(0, t))
  {
    var ones := Not(0);
    var shifted, r := Steps(c, 8 * |t|), FeedBytes(ones, t);
    NotIsXor(c);
    FeedBytesAffine(c, ones, t);
    BytesAreBits(Not(c), t);
    BytesAreBits(ones, t);
    NotOfXor(shifted, r);
  }

  lemma NotOfXor(a: Word, b: Word)
    ensures Not(Xor(a, b)) == Xor(a, Not(b))
  {
    NotIsXor(b);
    NotIsXor(Xor(a, b));
    XorWords(a, b, ONES);
  }

  /** Appending `t` shifts the checksum of `s` by as many zero bits as `t` has. */
  lemma CrcConcat(s: seq<Byte>, t: seq<Byte>)
    ensures Crc(0, s + t) == Xor(Steps(Crc(0, s), 8 * |t|), Crc(0, t))
  {
    CrcContinues(0, s, t);
    CrcAffine(Crc(0, s), t);
  }

  // ---------------------------------------------------------------------------------
  // Polynomial division
  // ---------------------------------------------------------------------------------

  /** The powers of x in the generator, except x^32. */
  const TERMS: seq<nat> := [0, 1, 2, 4, 5, 7, 8, 10, 11, 12, 16, 22, 23, 26]

  /** Whether the generator has a term x^d. */
  predicate GeneratorTerm(d: nat) {
    d == 32 || d in TERMS
  }

  /** Subtracts the generator, aligned with the first coefficient; the powers fall. */
  function SubtractGenerator(d: seq<bool>): (r: seq<bool>)
    requires |d| > 32
    ensures |r| == |d|
  {
    seq(|d|, i requires 0 <= i < |d| => if i <= 32 then d[i] != GeneratorTerm(32 - i) else d[i])
  }

  /** The remainder of a polynomial, given highest power first, by the generator. */
  function LongDivision(d: seq<bool>): (r: seq<bool>)
    requires |d| >= 32
    ensures |r| == 32
    decreases |d|
  {
    if |d| == 32 then d
    else if d[0] then LongDivision(SubtractGenerator(d)[1..])
    else LongDivision(d[1..])
  }

  /** Adds `a` to the leading coefficients of `d`. */
  function AddLeading(d: seq<bool>, a: seq<bool>): (r: seq<bool>)
    requires |a| <= |d|
    ensures |r| == |d|
  {
    seq(|d|, i requires 0 <= i < |d| => if i < |a| then d[i] != a[i] else d[i])
  }

  function Zeros(n: nat): (z: seq<bool>)
    ensures |z| == n
  {
    seq(n, i => false)
  }

  /** Bit i of an integer. */
  predicate Bit(c: nat, i: nat)
    decreases i
  {
    if i == 0 then c % 2 == 1 else Bit(c / 2, i - 1)
  }

  /** A register as the coefficients of x^31 down to x^0. */
  function Coefficients(c: Word): (s: seq<bool>)
    ensures |s| == 32
  {
    seq(32, i requires 0 <= i => Bit(c, i))
  }

  lemma {:induction false} BitXor(a: nat, b: nat, i: nat)
    ensures Bit(XorNat(a, b), i) == (Bit(a, i) != Bit(b, i))
    decreases i
  {
    XorSplit(a, b);
    if i > 0 {
      BitXor(a / 2, b / 2, i - 1);
    }
  }

  lemma {:induction false} BitBeyond(c: nat, i: nat)
    requires c < Pow2(i)
    ensures !Bit(c, i)
    decreases i
  {
    if i > 0 {
      BitBeyond(c / 2, i - 1);
    }
  }

  lemma {:induction false} BitOfOnes(n: nat, i: nat)
    requires i < n
    ensures Bit(Pow2(n) - 1, i)
    decreases n
  {
    if i > 0 {
      BitOfOnes(n - 1, i - 1);
      assert (Pow2(n) - 1) / 2 == Pow2(n - 1) - 1;
    }
  }

  lemma BitSkip(c: nat, i: nat)
    requires i >= 4
    ensures Bit(c, i) == Bit(c / 16, i - 4)
  {
    assert Bit(c, i) == Bit(c / 2, i - 1) == Bit(c / 2 / 2, i - 2) == Bit(c / 2 / 2 / 2, i - 3);
    assert Bit(c / 2 / 2 / 2, i - 3) == Bit(c / 2 / 2 / 2 / 2, i - 4);
  }

  lemma PolyByte(b: Byte, power: nat, i: nat)
    requires i < 8
    requires (b, power) in {(0x20, 31), (0x83, 23), (0xb8, 15), (0xed, 7)}
    ensures Bit(b, i) == GeneratorTerm(power - i)
  {
    if i >= 4 { BitSkip(b, i); }
  }

  lemma BitSkipByte(c: nat, i: nat)
    requires i >= 8
    ensures Bit(c, i) == Bit(c / 256, i - 8)
  {
    BitSkip(c, i);
    BitSkip(c / 16, i - 4);
  }

  lemma {:induction false} BitOfLow(lo: nat, hi: nat, k: nat, i: nat)
    requires i < k
    ensures Bit(lo + Pow2(k) * hi, i) == Bit(lo, i)
    decreases k
  {
    var q := Pow2(k - 1) * hi;
    assert Pow2(k) * hi == 2 * q;
    assert (lo + 2 * q) / 2 == lo / 2 + q;
    if i > 0 {
      BitOfLow(lo / 2, hi, k - 1, i - 1);
    }
  }

  /** The exclusive-or pattern really is the generator. */
  lemma PolyIsGenerator(i: nat)
    requires i < 32
    ensures Bit(POLY, i) == GeneratorTerm(31 - i)
  {
    WordWidth();
    var c: nat := POLY;
    if i < 8 {
      BitOfLow(0x20, 0xedb883, 8, i);
      PolyByte(0x20, 31, i);
    } else if i < 16 {
      BitSkipByte(c, i);
      BitOfLow(0x83, 0xedb8, 8, i - 8);
      PolyByte(0x83, 23, i - 8);
    } else if i < 24 {
      BitSkipByte(c, i);
      BitSkipByte(0xedb883, i - 8);
      BitOfLow(0xb8, 0xed, 8, i - 16);
      PolyByte(0xb8, 15, i - 16);
    } else {
      BitSkipByte(c, i);
      BitSkipByte(0xedb883, i - 8);
      BitSkipByte(0xedb8, i - 16);
      PolyByte(0xed, 7, i - 24);
    }
  }

  lemma BitStepCoefficients(c: Word, bit: bool, i: nat)
    requires i < 32
    ensures var shifted := i < 31 && Bit(c, i + 1);
            Bit(BitStep(c, bit), i) ==
              if (c % 2 == 1) != bit then shifted != GeneratorTerm(31 - i) else shifted
  {
    WordWidth();
    assert Bit(c, i + 1) == Bit(c / 2, i);
    if i == 31 {
      BitBeyond(c, 32);
    }
    BitXor(POLY, c / 2, i);
    PolyIsGenerator(i);
  }

  /** One division step on a dividend whose leading part has absorbed the register. */
  lemma DivisionStep(c: Word, bits: seq<bool>)
    requires bits != []
    ensures var d := AddLeading(bits + Zeros(32), Coefficients(c));
            var d' := AddLeading(bits[1..] + Zeros(32), Coefficients(BitStep(c, bits[0])));
            LongDivision(d) == LongDivision(d')
  {
    var full, coeff := bits + Zeros(32), Coefficients(c);
    var d := AddLeading(full, coeff);
    var d' := AddLeading(bits[1..] + Zeros(32), Coefficients(BitStep(c, bits[0])));
    assert d[0] == (bits[0] != (c % 2 == 1));
    var next := if d[0] then SubtractGenerator(d)[1..] else d[1..];
    forall i | 0 <= i < |d'|
      ensures next[i] == d'[i]
    {
      assert (bits[1..] + Zeros(32))[i] == full[i + 1];
      if i < 32 {
        BitStepCoefficients(c, bits[0], i);
      }
    }
    assert next == d';
  }

  /** The register computes the remainder of the message times x^32. */
  lemma {:induction false} RegisterDivides(c: Word, bits: seq<bool>)
    ensures Coefficients(FeedBits(c, bits)) == LongDivision(AddLeading(bits + Zeros(32), Coefficients(c)))
    decreases |bits|
  {
    if bits == [] {
      assert AddLeading(bits + Zeros(32), Coefficients(c)) == Coefficients(c);
    } else {
      DivisionStep(c, bits);
      RegisterDivides(BitStep(c, bits[0]), bits[1..]);
    }
  }

  /** Flips the 32 leading coefficients. */
  function ComplementLeading(d: seq<bool>): (r: seq<bool>)
    requires |d| >= 32
    ensures |r| == |d|
  {
    seq(|d|, i requires 0 <= i < |d| => if i < 32 then !d[i] else d[i])
  }

  /**
    RFC 1952: flip the first 32 coefficients of the message times x^32, divide by the
    generator, and flip the remainder.
   */
  lemma CrcIsDivision(data: seq<Byte>)
    ensures Coefficients(Crc(0, data)) ==
            ComplementLeading(LongDivision(ComplementLeading(MessageBits(data) + Zeros(32))))
  {
    var ones := Not(0);
    var bits := MessageBits(data);
    var r := FeedBits(ones, bits);
    WordWidth();
    RegisterDivides(ones, bits);
    NotCoefficients(r);
    OnesCoefficients();
    AddOnes(bits + Zeros(32), Coefficients(ones));
  }

  lemma OnesCoefficients()
    ensures forall i :: 0 <= i < 32 ==> Coefficients(Not(0))[i]
  {
    WordWidth();
    forall i | 0 <= i < 32
      ensures Coefficients(Not(0))[i]
    {
      BitOfOnes(32, i);
    }
  }

  lemma NotCoefficients(r: Word)
    ensures Coefficients(Not(r)) == ComplementLeading(Coefficients(r))
  {
    WordWidth();
    NotNat(r, 32);
    forall i | 0 <= i < 32
      ensures Coefficients(Not(r))[i] == !Coefficients(r)[i]
    {
      BitOfOnes(32, i);
      BitXor(r, ONES, i);
    }
  }

  lemma AddOnes(d: seq<bool>, a: seq<bool>)
    requires |a| == 32 <= |d| && forall i :: 0 <= i < 32 ==> a[i]
    ensures AddLeading(d, a) == ComplementLeading(d)
  {
  }
}
