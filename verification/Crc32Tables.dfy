/**
  The eight 256-entry tables of crc32.c and the identities that let one table look-up
  replace eight register steps, and four look-ups thirty-two.
 */
module Crc32Tables {
  import opened Words
  import opened Crc32Spec

  // ---------------------------------------------------------------------------------
  // Words as four bytes
  // ---------------------------------------------------------------------------------

  /** The word with the given bytes, least significant first. */
  function Join(b0: Byte, b1: Byte, b2: Byte, b3: Byte): Word {
    b0 + 0x100 * b1 + 0x1_0000 * b2 + 0x100_0000 * b3
  }

  lemma SplitWord(c: Word)
    ensures c / 0x100_0000 < 256
    ensures c == Join(c % 256, c / 0x100 % 256, c / 0x1_0000 % 256, c / 0x100_0000)
  {
    NestedDivision(c);
    NestedDivision(c / 256);
    SplitByte(c);
    SplitByte(c / 256);
    SplitByte(c / 256 / 256);
  }

  lemma NestedDivision(c: nat)
    ensures c / 256 / 256 == c / 0x1_0000 && c / 256 / 0x1_0000 == c / 0x100_0000
  {
  }

  lemma SplitByte(c: nat)
    ensures c == c % 256 + 256 * (c / 256)
  {
  }

  lemma JoinParts(b0: Byte, b1: Byte, b2: Byte, b3: Byte)
    ensures var c := Join(b0, b1, b2, b3);
            c % 256 == b0 && c / 0x100 % 256 == b1 && c / 0x1_0000 % 256 == b2 && c / 0x100_0000 == b3
  {
    var c := Join(b0, b1, b2, b3);
    var c1, c2 := b1 + 0x100 * (b2 + 0x100 * b3), b2 + 0x100 * b3;
    assert c == b0 + 256 * c1 && c / 256 == c1;
    assert c1 == b1 + 256 * c2 && c / 0x1_0000 == c2;
    assert c / 0x100_0000 == b3;
  }

  /** ZSWAP32: the bytes in the opposite order. */
  function Swap(c: Word): Word {
    SplitWord(c);
    Join(c / 0x100_0000, c / 0x1_0000 % 256, c / 0x100 % 256, c % 256)
  }

  lemma SwapTwice(c: Word)
    ensures Swap(Swap(c)) == c
  {
    SplitWord(c);
    JoinParts(c / 0x100_0000, c / 0x1_0000 % 256, c / 0x100 % 256, c % 256);
  }

  lemma HalfBelow(a: nat, n: nat)
    requires a < Pow2(n) && n > 0
    ensures a / 2 < Pow2(n - 1) && Pow2(n) == 2 * Pow2(n - 1)
  {
  }

  lemma {:induction false} XorScaled(a: nat, b: nat, n: nat)
    ensures XorNat(Pow2(n) * a, Pow2(n) * b) == Pow2(n) * XorNat(a, b)
    decreases n
  {
    if n == 0 {
      OnceOf(a);
      OnceOf(b);
      OnceOf(XorNat(a, b));
    } else {
      XorScaled(a, b, n - 1);
      TwiceOf(Pow2(n - 1), a);
      TwiceOf(Pow2(n - 1), b);
      TwiceOf(Pow2(n - 1), XorNat(a, b));
      XorDoubled(Pow2(n - 1) * a, Pow2(n - 1) * b);
    }
  }

  lemma XorDoubled(h: nat, k: nat)
    ensures XorNat(2 * h, 2 * k) == 2 * XorNat(h, k)
  {
    XorOfHalves(2 * h, 2 * k, XorNat(h, k), 0);
  }

  lemma XorRegroup(a: nat, b: nat, c: nat, d: nat)
    ensures XorNat(XorNat(a, b), XorNat(c, d)) == XorNat(XorNat(a, c), XorNat(b, d))
  {
    XorAssoc(a, b, XorNat(c, d));
    XorAssoc(b, c, d);
    XorComm(b, c);
    XorAssoc(c, b, d);
    XorAssoc(a, c, XorNat(b, d));
  }

  lemma ByteAbove(lo: nat, hi: nat)
    requires lo < 256
    ensures XorNat(lo, 256 * hi) == lo + 256 * hi
  {
    WordWidth();
    XorDisjoint(lo, hi, 8);
  }

  lemma ScaledByByte(a: nat, b: nat)
    ensures XorNat(256 * a, 256 * b) == 256 * XorNat(a, b)
  {
    WordWidth();
    XorScaled(a, b, 8);
  }

  function XorByte(a: Byte, b: Byte): Byte {
    WordWidth();
    XorBound(a, b, 8);
    XorNat(a, b)
  }

  lemma XorJoin(a0: Byte, a1: Byte, a2: Byte, a3: Byte, b0: Byte, b1: Byte, b2: Byte, b3: Byte)
    ensures Xor(Join(a0, a1, a2, a3), Join(b0, b1, b2, b3)) ==
            Join(XorByte(a0, b0), XorByte(a1, b1), XorByte(a2, b2), XorByte(a3, b3))
  {
    var a12, b12 := a2 + 256 * a3, b2 + 256 * b3;
    XorAbove(a0, a1 + 256 * a12, b0, b1 + 256 * b12);
    XorAbove(a1, a12, b1, b12);
    XorAbove(a2, a3, b2, b3);
  }

  lemma XorAbove(a: Byte, a': nat, b: Byte, b': nat)
    ensures XorNat(a + 256 * a', b + 256 * b') == XorByte(a, b) + 256 * XorNat(a', b')
  {
    ByteAbove(a, a');
    ByteAbove(b, b');
    XorRegroup(a, 256 * a', b, 256 * b');
    ScaledByByte(a', b');
    ByteAbove(XorByte(a, b), XorNat(a', b'));
  }

  lemma SwapXor(a: Word, b: Word)
    ensures Swap(Xor(a, b)) == Xor(Swap(a), Swap(b))
  {
    var a0, a1, a2, a3 := a % 256, a / 0x100 % 256, a / 0x1_0000 % 256, a / 0x100_0000;
    var b0, b1, b2, b3 := b % 256, b / 0x100 % 256, b / 0x1_0000 % 256, b / 0x100_0000;
    SplitWord(a);
    SplitWord(b);
    XorJoin(a0, a1, a2, a3, b0, b1, b2, b3);
    XorJoin(a3, a2, a1, a0, b3, b2, b1, b0);
    JoinParts(XorByte(a0, b0), XorByte(a1, b1), XorByte(a2, b2), XorByte(a3, b3));
  }

  // ---------------------------------------------------------------------------------
  // Whole bytes at a time
  // ---------------------------------------------------------------------------------

  /** Only the n low bits need the generator; the rest just moves down. */
  lemma StepsSplit(lo: nat, hi: nat, n: nat)
    requires lo < Pow2(n) && lo + Pow2(n) * hi < LIMIT
    ensures Steps(lo + Pow2(n) * hi, n) == Xor(Steps(lo, n), hi)
  {
    XorDisjoint(lo, hi, n);
    StepsLinear(lo, Pow2(n) * hi, n);
    StepsShift(hi, n);
  }

  lemma XorLowByte(c: Word, b: Byte)
    ensures Xor(c, b) % 256 == XorByte(c % 256, b) && Xor(c, b) / 256 == c / 256
  {
    XorAbove(c % 256, c / 256, b, 0);
  }

  /** One byte of input: the low byte of the sum selects a table entry. */
  lemma ByteLookup(c: Word, b: Byte)
    ensures Steps(Xor(c, b), 8) == Xor(Steps(XorByte(c % 256, b), 8), c / 256)
  {
    var x := Xor(c, b);
    XorLowByte(c, b);
    WordWidth();
    StepsSplit(x % 256, x / 256, 8);
  }

  function LittleEndian(bytes: seq<Byte>): nat {
    if bytes == [] then 0 else bytes[0] + 256 * LittleEndian(bytes[1..])
  }

  lemma {:induction false} LittleEndianBound(bytes: seq<Byte>)
    requires |bytes| <= 4
    ensures LittleEndian(bytes) < Pow2(8 * |bytes|) <= LIMIT
    decreases |bytes|
  {
    WordWidth();
    if bytes != [] {
      LittleEndianBound(bytes[1..]);
    }
  }

  /** Up to four bytes may be mixed in at once. */
  lemma {:induction false} FeedLittleEndian(c: Word, bytes: seq<Byte>)
    requires |bytes| <= 4
    ensures LittleEndian(bytes) < LIMIT
    ensures FeedBytes(c, bytes) == Steps(Xor(c, LittleEndian(bytes)), 8 * |bytes|)
    decreases |bytes|
  {
    LittleEndianBound(bytes);
    if bytes == [] {
      XorWords(c, 0, 0);
    } else {
      LittleEndianBound(bytes[1..]);
      WordWidth();
      MixFirst(c, bytes[0], LittleEndian(bytes[1..]), 8);
      FeedLittleEndian(Steps(Xor(c, bytes[0]), 8), bytes[1..]);
      StepsAdd(Xor(c, LittleEndian(bytes)), 8, 8 * |bytes[1..]|);
    }
  }

  lemma MixFirst(c: Word, lo: nat, hi: nat, n: nat)
    requires lo < Pow2(n) && lo + Pow2(n) * hi < LIMIT
    ensures hi < LIMIT
    ensures Steps(Xor(c, lo + Pow2(n) * hi), n) == Xor(Steps(Xor(c, lo), n), hi)
  {
    XorDisjoint(lo, hi, n);
    StepsShift(hi, n);
    XorWords(c, lo, Pow2(n) * hi);
    StepsLinear(Xor(c, lo), Pow2(n) * hi, n);
  }

  lemma StepsOfHighPart(h: nat, k: nat, n: nat)
    requires Pow2(k) * h < LIMIT && k <= n
    ensures h < LIMIT
    ensures Steps(Pow2(k) * h, n) == Steps(h, n - k)
  {
    StepsShift(h, k);
    StepsAdd(Pow2(k) * h, k, n - k);
  }

  lemma XorOfJoin(b0: Byte, b1: Byte, b2: Byte, b3: Byte)
    ensures Join(b0, b1, b2, b3) ==
            Xor(Xor(Xor(b0, 0x100 * b1), 0x1_0000 * b2), 0x100_0000 * b3)
  {
    WordWidth();
    XorDisjoint(b0, b1, 8);
    XorDisjoint(b0 + 0x100 * b1, b2, 16);
    XorDisjoint(b0 + 0x100 * b1 + 0x1_0000 * b2, b3, 24);
  }

  /** Four bytes of input: each byte of the sum selects an entry of its own table. */
  lemma WordLookup(b0: Byte, b1: Byte, b2: Byte, b3: Byte)
    ensures Steps(Join(b0, b1, b2, b3), 32) ==
            Xor(Xor(Xor(Steps(b0, 32), Steps(b1, 24)), Steps(b2, 16)), Steps(b3, 8))
  {
    WordWidth();
    XorOfJoin(b0, b1, b2, b3);
    var low := Xor(b0, 0x100 * b1);
    StepsLinear(Xor(low, 0x1_0000 * b2), 0x100_0000 * b3, 32);
    StepsLinear(low, 0x1_0000 * b2, 32);
    StepsLinear(b0, 0x100 * b1, 32);
    StepsOfHighPart(b1, 8, 32);
    StepsOfHighPart(b2, 16, 32);
    StepsOfHighPart(b3, 24, 32);
  }

  // ---------------------------------------------------------------------------------
  // Table generation
  // ---------------------------------------------------------------------------------

  function ZeroBytes(k: nat): (z: seq<Byte>)
    ensures |z| == k
  {
    if k == 0 then [] else [0] + ZeroBytes(k - 1)
  }

  /** The register after byte n and then k zero bytes. */
  function Entry(k: nat, n: Byte): Word {
    FeedBytes(0, [n] + ZeroBytes(k))
  }

  lemma {:induction false} FeedZeroBytes(c: Word, k: nat)
    ensures FeedBytes(c, ZeroBytes(k)) == Steps(c, 8 * k)
    decreases k
  {
    if k > 0 {
      XorWords(c, 0, 0);
      FeedZeroBytes(Steps(c, 8), k - 1);
      StepsAdd(c, 8, 8 * (k - 1));
    }
  }

  lemma EntryIsSteps(k: nat, n: Byte)
    ensures Entry(k, n) == Steps(n, 8 * k + 8)
  {
    assert ([n] + ZeroBytes(k))[1..] == ZeroBytes(k);
    XorWords(n, 0, 0);
    FeedZeroBytes(Steps(n, 8), k);
    StepsAdd(n, 8, 8 * k);
  }

  /** Table k < 4 holds each byte followed by k zero bytes; tables 4 to 7 their byte swaps. */
  ghost predicate Tables(t: array2<Word>)
    reads t
  {
    && t.Length0 == 8 && t.Length1 == 256
    && (forall k, n :: 0 <= k < 4 && 0 <= n < 256 ==> t[k, n] == Entry(k, n))
    && (forall k, n :: 4 <= k < 8 && 0 <= n < 256 ==> t[k, n] == Swap(Entry(k - 4, n)))
  }

  /** `c | 1 << k`. */
  function SetBit(c: nat, k: nat): nat {
    if Bit(c, k) then c else c + Pow2(k)
  }

  lemma {:induction false} BitOfSum(c: nat, k: nat, i: nat)
    requires !Bit(c, k)
    ensures Bit(c + Pow2(k), i) == (i == k || Bit(c, i))
    decreases k
  {
    if k == 0 {
      assert (c + 1) / 2 == c / 2;
    } else {
      assert (c + Pow2(k)) / 2 == c / 2 + Pow2(k - 1);
      if i > 0 {
        BitOfSum(c / 2, k - 1, i - 1);
      }
    }
  }

  lemma {:induction false} SumBound(c: nat, k: nat, n: nat)
    requires c < Pow2(n) && k < n && !Bit(c, k)
    ensures c + Pow2(k) < Pow2(n)
    decreases n
  {
    if k > 0 {
      HalfBelow(c, n);
      SumBound(c / 2, k - 1, n - 1);
    } else {
      HalfBelow(c, n);
    }
  }

  /** Integers with the same bits are equal. */
  lemma {:induction false} SameBits(a: nat, b: nat, n: nat)
    requires a < Pow2(n) && b < Pow2(n)
    requires forall i :: 0 <= i < n ==> Bit(a, i) == Bit(b, i)
    ensures a == b
    decreases n
  {
    if n > 0 {
      assert Bit(a, 0) == Bit(b, 0);
      forall i | 0 <= i < n - 1
        ensures Bit(a / 2, i) == Bit(b / 2, i)
      {
        assert Bit(a, i + 1) == Bit(b, i + 1);
      }
      SameBits(a / 2, b / 2, n - 1);
    }
  }

  lemma SetBitBits(c: nat, k: nat)
    requires c < LIMIT && k < 32
    ensures SetBit(c, k) < LIMIT
    ensures forall i :: 0 <= i < 32 ==> Bit(SetBit(c, k), i) == (i == k || Bit(c, i))
  {
    WordWidth();
    if !Bit(c, k) {
      SumBound(c, k, 32);
      forall i | 0 <= i < 32
        ensures Bit(c + Pow2(k), i) == (i == k || Bit(c, i))
      {
        BitOfSum(c, k, i);
      }
    }
  }

  /** Builds the exclusive-or pattern from the list of the generator's terms. */
  method MakePolynomial() returns (poly: Word)
    ensures poly == POLY
  {
    var p := TERMS;
    poly := 0;
    forall i | 0 <= i < 32
      ensures !Bit(0, i)
    {
      BitBeyond(0, i);
    }
    for n := 0 to |p|
      invariant forall i :: 0 <= i < 32 ==> Bit(poly, i) == (31 - i in p[..n])
    {
      assert p[n] <= 26;
      SetBitBits(poly, 31 - p[n]);
      poly := SetBit(poly, 31 - p[n]);
      assert p[..n + 1] == p[..n] + [p[n]];
    }
    assert p[..|p|] == p;
    PolyFromBits(poly);
  }

  lemma PolyFromBits(poly: Word)
    requires forall i :: 0 <= i < 32 ==> Bit(poly, i) == (31 - i in TERMS)
    ensures poly == POLY
  {
    forall i | 0 <= i < 32
      ensures Bit(poly, i) == Bit(POLY, i)
    {
      PolyIsGenerator(i);
    }
    WordWidth();
    SameBits(poly, POLY, 32);
  }

  /** `c & 1 ? poly ^ (c >> 1) : c >> 1`, eight times. */
  method ShiftByte(poly: Word, n: Byte) returns (c: Word)
    requires poly == POLY
    ensures c == Entry(0, n)
  {
    c := n;
    for k := 0 to 8
      invariant c == Steps(n, k)
    {
      c := if c % 2 == 1 then Xor(poly, c / 2) else c / 2;
      StepsAdd(n, k, 1);
    }
    EntryIsSteps(0, n);
  }

  /** One more zero byte: the low byte of the register selects an entry of the first table. */
  lemma NextEntry(k: nat, n: Byte)
    ensures Entry(k + 1, n) == Xor(Entry(0, Entry(k, n) % 256), Entry(k, n) / 256)
  {
    var c := Entry(k, n);
    EntryIsSteps(k, n);
    EntryIsSteps(k + 1, n);
    StepsAdd(n, 8 * k + 8, 8);
    EntryIsSteps(0, c % 256);
    WordWidth();
    StepsSplit(c % 256, c / 256, 8);
  }

  /** The byte followed by one, two and three zeros, and the byte swaps of all four. */
  method FillColumn(t: array2<Word>, n: nat)
    requires t.Length0 == 8 && t.Length1 == 256 && n < 256
    requires forall m :: 0 <= m < 256 ==> t[0, m] == Entry(0, m)
    modifies t
    ensures forall j :: 0 <= j < 4 ==> t[j, n] == Entry(j, n)
    ensures forall j :: 4 <= j < 8 ==> t[j, n] == Swap(Entry(j - 4, n))
    ensures forall j, m :: 0 <= j < 8 && 0 <= m < 256 && m != n ==> t[j, m] == old(t[j, m])
  {
    var c := t[0, n];
    t[4, n] := Swap(c);
    for k := 1 to 4
      invariant c == Entry(k - 1, n)
      invariant forall m :: 0 <= m < 256 ==> t[0, m] == Entry(0, m)
      invariant forall j, m :: 0 <= j < 8 && 0 <= m < 256 && m != n ==> t[j, m] == old(t[j, m])
      invariant forall j :: 0 <= j < k ==> t[j, n] == Entry(j, n)
      invariant forall j :: 4 <= j < k + 4 ==> t[j, n] == Swap(Entry(j - 4, n))
    {
      NextEntry(k - 1, n);
      c := Xor(t[0, c % 256], c / 256);
      t[k, n] := c;
      t[k + 4, n] := Swap(c);
    }
  }

  method MakeCrcTable() returns (t: array2<Word>)
    ensures fresh(t) && Tables(t)
  {
    var poly := MakePolynomial();
    t := new Word[8, 256];
    for n := 0 to 256
      invariant forall m :: 0 <= m < n ==> t[0, m] == Entry(0, m)
    {
      var c := ShiftByte(poly, n);
      t[0, n] := c;
    }
    for n := 0 to 256
      invariant forall m :: 0 <= m < 256 ==> t[0, m] == Entry(0, m)
      invariant forall k, m :: 0 <= k < 4 && 0 <= m < n ==> t[k, m] == Entry(k, m)
      invariant forall k, m :: 4 <= k < 8 && 0 <= m < n ==> t[k, m] == Swap(Entry(k - 4, m))
    {
      FillColumn(t, n);
    }
  }
}
