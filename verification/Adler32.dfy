/**
  Adler-32, after sections 2.2 and 8.2 of RFC 1950: two running sums modulo 65521.

  `Adler` is the definition, reduced after every byte. The code in adler32.c defers the
  reductions, reduces without dividing and combines the checksums of two strings. All its
  variables are of type `Word`, so every sum and product below is also proved to fit in
  32 bits.
 */
module Adler32 {
  import opened Words

  /** The largest prime below 65536. */
  const BASE: nat := 65521

  const NMAX: nat := 5552

  datatype Sums = Sums(lo: nat, hi: nat)

  // ---------------------------------------------------------------------------------
  // Definitions
  // ---------------------------------------------------------------------------------

  function Reduce(s: Sums): Sums {
    Sums(s.lo % BASE, s.hi % BASE)
  }

  /** One byte, both sums reduced. */
  function AddByte(s: Sums, b: Byte): Sums {
    var lo := (s.lo + b) % BASE;
    Sums(lo, (s.hi + lo) % BASE)
  }

  function AddBytes(s: Sums, data: seq<Byte>): Sums
    decreases |data|
  {
    if data == [] then s else AddBytes(AddByte(s, data[0]), data[1..])
  }

  /** The checksum of `data` continued from `s`; a fresh one continues from (1, 0). */
  function Adler(s: Sums, data: seq<Byte>): Sums {
    AddBytes(Reduce(s), data)
  }

  const START: Sums := Sums(1, 0)

  /** The same sums, never reduced. */
  function RawSums(s: Sums, data: seq<Byte>): Sums
    decreases |data|
  {
    if data == [] then s
    else
      var lo := s.lo + data[0];
      RawSums(Sums(lo, s.hi + lo), data[1..])
  }

  function Unpack(a: Word): Sums {
    Sums(a % 65536, a / 65536)
  }

  /** `lo | (hi << 16)` for halves of 16 bits. */
  function Pack(s: Sums): Word
    requires s.lo < 65536 && s.hi < 65536
  {
    s.lo + 65536 * s.hi
  }

  predicate Reduced(s: Sums) {
    s.lo < BASE && s.hi < BASE
  }

  // ---------------------------------------------------------------------------------
  // Deferring the reductions
  // ---------------------------------------------------------------------------------

  lemma ModMultiple(a: int, k: int)
    ensures (a + BASE * k) % BASE == a % BASE
  {
    var q := a / BASE;
    assert a + BASE * k == BASE * (q + k) + a % BASE;
  }

  lemma ModSum(a: int, b: int)
    ensures (a % BASE + b) % BASE == (a + b) % BASE
    ensures (a + b % BASE) % BASE == (a + b) % BASE
  {
    ModMultiple(a % BASE + b, a / BASE);
    ModMultiple(a + b % BASE, b / BASE);
  }

  lemma ModOnce(x: nat)
    requires x < 2 * BASE
    ensures x % BASE == if x >= BASE then x - BASE else x
  {
    if x >= BASE {
      ModMultiple(x - BASE, 1);
    }
  }

  lemma UnpackPack(s: Sums)
    requires s.lo < 65536 && s.hi < 65536
    ensures Unpack(Pack(s)) == s
  {
  }

  lemma AddByteReduced(s: Sums, b: Byte)
    ensures AddByte(Reduce(s), b) == Reduce(Sums(s.lo + b, s.hi + s.lo + b))
  {
    ModSum(s.lo, b);
    ModSum(s.hi, (s.lo + b) % BASE);
    ModSum(s.hi, s.lo + b);
  }

  lemma {:induction false} DeferredReduction(s: Sums, data: seq<Byte>)
    ensures Adler(s, data) == Reduce(RawSums(s, data))
    decreases |data|
  {
    if data != [] {
      AddByteReduced(s, data[0]);
      DeferredReduction(Sums(s.lo + data[0], s.hi + s.lo + data[0]), data[1..]);
    }
  }

  lemma {:induction false} RawConcat(s: Sums, a: seq<Byte>, b: seq<Byte>)
    ensures RawSums(s, a + b) == RawSums(RawSums(s, a), b)
    decreases |a|
  {
    if a == [] {
      assert a + b == b;
    } else {
      assert (a + b)[0] == a[0] && (a + b)[1..] == a[1..] + b;
      RawConcat(Sums(s.lo + a[0], s.hi + s.lo + a[0]), a[1..], b);
    }
  }

  lemma AdlerReduced(s: Sums, data: seq<Byte>)
    ensures Reduced(Adler(s, data))
  {
    DeferredReduction(s, data);
  }

  /** Reducing between two parts, or not, makes no difference. */
  lemma AdlerContinues(s: Sums, a: seq<Byte>, b: seq<Byte>)
    ensures Adler(s, a + b) == Adler(Adler(s, a), b)
    ensures Adler(s, a + b) == Adler(RawSums(s, a), b)
  {
    DeferredReduction(s, a + b);
    RawConcat(s, a, b);
    DeferredReduction(s, a);
    DeferredReduction(RawSums(s, a), b);
    var r := RawSums(s, a);
    assert Reduce(Reduce(r)) == Reduce(r) by {
      ModSum(r.lo, 0);
      ModSum(r.hi, 0);
    }
  }

  /** What the sums held on entry adds to what the data contributes. */
  lemma {:induction false} RawShift(lo: nat, hi: nat, x: nat, y: nat, data: seq<Byte>)
    ensures var r := RawSums(Sums(lo, hi), data);
            RawSums(Sums(lo + x, hi + y), data) == Sums(r.lo + x, r.hi + y + |data| * x)
    decreases |data|
  {
    if data != [] {
      var d := data[0];
      RawShift(lo + d, hi + lo + d, x, y + x, data[1..]);
      assert |data| * x == |data[1..]| * x + x;
    }
  }

  // ---------------------------------------------------------------------------------
  // How far the sums can grow
  // ---------------------------------------------------------------------------------

  lemma ProductAtMost(a: nat, b: nat, c: nat, d: nat)
    requires a <= c && b <= d
    ensures a * b <= c * d
  {
    assert a * b <= c * b;
    assert c * b <= c * d;
  }

  /** Twice what n bytes of 255 add to sum2 by themselves. */
  function TwiceFull(n: nat): nat {
    255 * (n * (n + 1))
  }

  /** Twice the largest sum2 can be after n bytes when both sums start at `start`. */
  function TwiceWorst(start: nat, n: nat): nat {
    TwiceFull(n) + 2 * ((n + 1) * start)
  }

  lemma {:induction false} RawBound(s: Sums, data: seq<Byte>)
    ensures var r := RawSums(s, data);
            && s.lo <= r.lo <= s.lo + 255 * |data|
            && 2 * r.hi <= 2 * (s.hi + |data| * s.lo) + TwiceFull(|data|)
    decreases |data|
  {
    if data != [] {
      var d, n := data[0], |data[1..]|;
      RawBound(Sums(s.lo + d, s.hi + s.lo + d), data[1..]);
      BoundStep(s, d, n);
    }
  }

  lemma BoundStep(s: Sums, d: Byte, n: nat)
    ensures 2 * (s.hi + s.lo + d + n * (s.lo + d)) + TwiceFull(n) <=
            2 * (s.hi + (n + 1) * s.lo) + TwiceFull(n + 1)
  {
    assert n * (s.lo + d) == n * s.lo + n * d;
    ProductAtMost(n, d, n, 255);
    assert (n + 1) * (n + 2) == n * (n + 1) + 2 * n + 2;
    assert (n + 1) * s.lo == n * s.lo + s.lo;
  }

  /** The arithmetic of NMAX: 255n(n+1)/2 + (n+1)(BASE-1) is below 2^32. */
  lemma WorstIsTight(n: nat)
    ensures TwiceWorst(BASE - 1, n) < 2 * LIMIT <==> n <= NMAX
  {
    if n <= NMAX {
      ProductAtMost(n, n + 1, NMAX, NMAX + 1);
    } else {
      ProductAtMost(NMAX + 1, NMAX + 2, n, n + 1);
    }
  }

  /** The bytes added up. */
  function Total(data: seq<Byte>): nat {
    if data == [] then 0 else data[0] + Total(data[1..])
  }

  /** The bytes added up, each as many times as there are bytes from it on. */
  function Weighted(data: seq<Byte>): nat {
    if data == [] then 0 else |data| * data[0] + Weighted(data[1..])
  }

  /** Both sums in closed form, as section 8.2 of RFC 1950 defines them. */
  lemma {:induction false} RawClosed(s: Sums, data: seq<Byte>)
    ensures RawSums(s, data) == Sums(s.lo + Total(data), s.hi + |data| * s.lo + Weighted(data))
    decreases |data|
  {
    if data != [] {
      var lo, n := s.lo + data[0], |data[1..]|;
      RawClosed(Sums(lo, s.hi + lo), data[1..]);
      ClosedStep(s.lo, data[0], n);
    }
  }

  lemma ClosedStep(lo: nat, d: nat, n: nat)
    ensures (lo + d) + n * (lo + d) == (n + 1) * lo + (n + 1) * d
  {
  }

  function Full(n: nat): (r: seq<Byte>)
    ensures |r| == n
  {
    if n == 0 then [] else [255] + Full(n - 1)
  }

  /** Bytes of 255 reach the bound. */
  lemma {:induction false} RawFull(s: Sums, n: nat)
    ensures 2 * RawSums(s, Full(n)).hi == 2 * (s.hi + n * s.lo) + TwiceFull(n)
    decreases n
  {
    if n > 0 {
      assert Full(n)[1..] == Full(n - 1);
      RawFull(Sums(s.lo + 255, s.hi + s.lo + 255), n - 1);
      assert (n - 1) * (s.lo + 255) == (n - 1) * s.lo + (n - 1) * 255;
      assert n * (n + 1) == (n - 1) * n + 2 * n;
      assert n * s.lo == (n - 1) * s.lo + s.lo;
    }
  }

  /** sum2 fits 32 bits for all data of n bytes and all reduced sums to start with exactly when n is at most NMAX. */
  lemma NmaxIsTight(n: nat)
    ensures (forall s, data: seq<Byte> :: Reduced(s) && |data| == n ==> RawSums(s, data).hi < LIMIT) <==> n <= NMAX
  {
    WorstIsTight(n);
    if n <= NMAX {
      forall s, data: seq<Byte> | Reduced(s) && |data| == n
        ensures RawSums(s, data).hi < LIMIT
      {
        RawBound(s, data);
        ProductAtMost(n, s.lo, n, BASE - 1);
      }
    } else {
      var s := Sums(BASE - 1, BASE - 1);
      RawFull(s, n);
      assert Reduced(s) && |Full(n)| == n && RawSums(s, Full(n)).hi >= LIMIT;
    }
  }

  /** Even 16-bit values that were never reduced leave room for NMAX bytes. */
  lemma NmaxFits(s: Sums, data: seq<Byte>)
    requires s.lo < 65536 && s.hi < 65536 && |data| <= NMAX
    ensures RawSums(s, data).lo < LIMIT && RawSums(s, data).hi < LIMIT
  {
    var n := |data|;
    RawBound(s, data);
    ProductAtMost(n, s.lo, NMAX, 65535);
    ProductAtMost(n, n + 1, NMAX, NMAX + 1);
  }

  // ---------------------------------------------------------------------------------
  // Reduction without division
  // ---------------------------------------------------------------------------------

  /** CHOP, which MOD63 repeats on wider values: 65536 is 15 modulo BASE. */
  method Chop(a: nat) returns (r: nat)
    ensures r == a % 65536 + 15 * (a / 65536)
    ensures r % BASE == a % BASE
  {
    var tmp := a / 65536;
    r := a % 65536;
    r := r + (16 * tmp - tmp);
    ModMultiple(r, tmp);
  }

  /** MOD28, meant for values below 2^28: exact as long as one subtraction is enough. */
  method Mod28(a: Word) returns (r: Word)
    ensures r % BASE == a % BASE
    ensures r == a % BASE <==> a % 65536 + 15 * (a / 65536) < 2 * BASE
    ensures a < 0x1000_0000 ==> r == a % BASE
  {
    r := Chop(a);
    if r >= BASE {
      ModMultiple(r - BASE, 1);
      r := r - BASE;
    }
  }

  /** MOD, on every 32-bit value. */
  method Mod(a: Word) returns (r: Word)
    ensures r == a % BASE
  {
    r := Chop(a);
    r := Mod28(r);
  }

  /** MOD63, on every non-negative signed 64-bit value. */
  method Mod63(a: nat) returns (r: nat)
    requires a < 0x8000_0000_0000_0000
    ensures r == a % BASE
  {
    var tmp := a / LIMIT;
    r := a % LIMIT;
    r := r + (256 * tmp - 32 * tmp + tmp);
    ModMultiple(r, 65551 * tmp);
    r := Chop(r);
    r := Chop(r);
    ModOnce(r);
    if r >= BASE {
      r := r - BASE;
    }
  }

  // ---------------------------------------------------------------------------------
  // The checksum
  // ---------------------------------------------------------------------------------

  lemma RawOneMore(s: Sums, data: seq<Byte>, first: nat, i: nat)
    requires first <= i < |data|
    ensures var r := RawSums(s, data[first..i]);
            RawSums(s, data[first..i + 1]) == Sums(r.lo + data[i], r.hi + r.lo + data[i])
  {
    assert data[first..i + 1] == data[first..i] + [data[i]];
    RawConcat(s, data[first..i], [data[i]]);
  }

  /** DO16 `blocks` times; at most NMAX bytes. */
  method SumBlocks(start: Sums, buf: seq<Byte>, first: nat, blocks: nat) returns (adler: Word, sum2: Word)
    requires start.lo < 65536 && start.hi < 65536
    requires first + 16 * blocks <= |buf| && 16 * blocks <= NMAX
    ensures Sums(adler, sum2) == RawSums(start, buf[first..first + 16 * blocks])
  {
    adler, sum2 := start.lo, start.hi;
    var i := first;
    assert buf[first..first] == [];
    for n := 0 to blocks
      invariant i == first + 16 * n
      invariant Sums(adler, sum2) == RawSums(start, buf[first..i])
    {
      for k := 0 to 16
        invariant i == first + 16 * n + k
        invariant Sums(adler, sum2) == RawSums(start, buf[first..i])
      {
        RawOneMore(start, buf, first, i);
        NmaxFits(start, buf[first..i + 1]);
        adler := adler + buf[i];
        sum2 := sum2 + adler;
        i := i + 1;
      }
    }
  }

  /** `while (len--)`: the bytes left over. */
  method SumTail(ghost start: Sums, adler0: Word, sum20: Word, buf: seq<Byte>, ghost first: nat, from: nat)
    returns (adler: Word, sum2: Word)
    requires start.lo < 65536 && start.hi < 65536
    requires first <= from <= |buf| && |buf| - first <= NMAX
    requires Sums(adler0, sum20) == RawSums(start, buf[first..from])
    ensures Sums(adler, sum2) == RawSums(start, buf[first..])
  {
    adler, sum2 := adler0, sum20;
    for i := from to |buf|
      invariant Sums(adler, sum2) == RawSums(start, buf[first..i])
    {
      RawOneMore(start, buf, first, i);
      NmaxFits(start, buf[first..i + 1]);
      adler := adler + buf[i];
      sum2 := sum2 + adler;
    }
    assert buf[first..|buf|] == buf[first..];
  }

  /** Sixteen bytes or more: blocks of NMAX, then what remains. */
  method SumLong(start: Sums, buf: seq<Byte>) returns (adler: Word, sum2: Word)
    requires start.lo < 65536 && start.hi < 65536
    requires |buf| >= 16
    ensures Sums(adler, sum2) == Adler(start, buf)
  {
    adler, sum2 := start.lo, start.hi;
    var i := 0;
    assert buf[..0] == [];
    while |buf| - i >= NMAX
      invariant 0 <= i <= |buf|
      invariant adler < 65536 && sum2 < 65536
      invariant i == 0 ==> Sums(adler, sum2) == start
      invariant i > 0 ==> Sums(adler, sum2) == Adler(start, buf[..i])
    {
      ghost var before := Sums(adler, sum2);
      ghost var block := buf[i..i + NMAX];
      adler, sum2 := SumBlocks(Sums(adler, sum2), buf, i, NMAX / 16);
      adler := Mod(adler);
      sum2 := Mod(sum2);
      DeferredReduction(before, block);
      AdlerContinues(start, buf[..i], block);
      assert buf[..i + NMAX] == buf[..i] + block;
      assert i == 0 ==> buf[..i + NMAX] == block;
      i := i + NMAX;
    }
    if i < |buf| {
      ghost var before := Sums(adler, sum2);
      var blocks := (|buf| - i) / 16;
      adler, sum2 := SumBlocks(Sums(adler, sum2), buf, i, blocks);
      adler, sum2 := SumTail(before, adler, sum2, buf, i, i + 16 * blocks);
      adler := Mod(adler);
      sum2 := Mod(sum2);
      DeferredReduction(before, buf[i..]);
      AdlerContinues(start, buf[..i], buf[i..]);
      assert buf == buf[..i] + buf[i..];
      assert i == 0 ==> buf[i..] == buf;
    } else {
      assert buf[..i] == buf;
    }
  }

  lemma ShortBound(s: Sums, data: seq<Byte>)
    requires s.lo < 65536 && s.hi < 65536 && |data| < 16
    ensures RawSums(s, data).lo < 2 * BASE && RawSums(s, data).hi < 0x1000_0000
  {
    var n := |data|;
    RawBound(s, data);
    ProductAtMost(n, s.lo, 15, 65535);
    ProductAtMost(n, n + 1, 15, 16);
  }

  /** Fewer than sixteen bytes: one conditional subtraction and one short reduction. */
  method SumShort(start: Sums, buf: seq<Byte>) returns (adler: Word, sum2: Word)
    requires start.lo < 65536 && start.hi < 65536
    requires |buf| < 16
    ensures Sums(adler, sum2) == Adler(start, buf)
  {
    assert buf[0..0] == [] && buf[0..] == buf;
    adler, sum2 := SumTail(start, start.lo, start.hi, buf, 0, 0);
    ShortBound(start, buf);
    DeferredReduction(start, buf);
    ModOnce(adler);
    if adler >= BASE {
      adler := adler - BASE;
    }
    sum2 := Mod28(sum2);
  }

  /** The sums after a single byte when each is reduced by at most one subtraction. */
  function OneByte(s: Sums, b: Byte): Sums {
    var lo := (s.lo + b) % BASE;
    Sums(lo, if s.hi + lo >= BASE then s.hi + lo - BASE else s.hi + lo)
  }

  /** The path for a single byte. */
  method UpdateOne(start: Sums, b: Byte) returns (adler: Word, sum2: Word)
    requires start.lo < 65536 && start.hi < 65536
    ensures Sums(adler, sum2) == OneByte(start, b)
    ensures adler < 65536 && sum2 < 65536
  {
    adler := start.lo + b;
    ModOnce(adler);
    if adler >= BASE {
      adler := adler - BASE;
    }
    sum2 := start.hi + adler;
    if sum2 >= BASE {
      sum2 := sum2 - BASE;
    }
  }

  /**
    adler32. Equal to the definition for every starting value and length, with one exception:
    a single byte added to a value whose upper half was never reduced.
   */
  method Checksum(adler: Word, buf: array?<Byte>, len: nat) returns (r: Word)
    requires buf != null ==> len <= buf.Length
    requires len == 1 ==> buf != null
    ensures buf == null ==> Unpack(r) == START
    ensures buf != null && len != 1 ==> Unpack(r) == Adler(Unpack(adler), buf[..len])
    ensures buf != null && len == 1 ==> Unpack(r) == OneByte(Unpack(adler), buf[0])
  {
    var start := Unpack(adler);
    var lo, sum2;
    if len == 1 {
      lo, sum2 := UpdateOne(start, buf[0]);
    } else if buf == null {
      return 1;
    } else if len < 16 {
      lo, sum2 := SumShort(start, buf[..len]);
      AdlerReduced(start, buf[..len]);
    } else {
      lo, sum2 := SumLong(start, buf[..len]);
      AdlerReduced(start, buf[..len]);
    }
    UnpackPack(Sums(lo, sum2));
    r := Pack(Sums(lo, sum2));
  }

  /** The one-byte path meets the definition exactly when one subtraction reduces the upper half. */
  lemma OneByteExact(s: Sums, b: Byte)
    requires s.lo < 65536 && s.hi < 65536
    ensures OneByte(s, b) == Adler(s, [b]) <==> s.hi + (s.lo + b) % BASE < 2 * BASE
  {
    var lo := (s.lo + b) % BASE;
    assert Adler(s, [b]) == Sums(lo, (s.hi + lo) % BASE) by {
      AddByteReduced(s, b);
      ModSum(s.hi, s.lo + b);
      assert AddBytes(Reduce(s), [b]) == AddBytes(AddByte(Reduce(s), b), []);
    }
    if s.hi + lo < 2 * BASE {
      ModOnce(s.hi + lo);
    }
  }

  /** Reduced values, such as every checksum this file returns, are never the exception. */
  lemma OneByteReduced(s: Sums, b: Byte)
    requires Reduced(s)
    ensures OneByte(s, b) == Adler(s, [b])
  {
    OneByteExact(s, b);
  }

  /** The exception is real: 0xffff in the upper half survives a one-byte update unreduced. */
  lemma OneByteCanDiffer()
    ensures OneByte(Sums(65520, 65535), 0) != Adler(Sums(65520, 65535), [0])
  {
    OneByteExact(Sums(65520, 65535), 0);
  }

  // ---------------------------------------------------------------------------------
  // Combining two checksums
  // ---------------------------------------------------------------------------------

  /**
    When the subtractions reduce both sums: the lower halves do not add up to more than two
    moduli, and neither do the upper halves with what the length adds to more than three.
   */
  predicate Combines(s1: Sums, s2: Sums, rem: nat) {
    s1.lo + s2.lo <= 2 * BASE && (rem * s1.lo) % BASE + s1.hi + s2.hi < 3 * BASE + rem
  }

  /** The sums of a concatenation. */
  function CombinedSums(s1: Sums, s2: Sums, len2: nat): Sums {
    Sums((s1.lo + s2.lo - 1) % BASE, (len2 * s1.lo + s1.hi + s2.hi - len2) % BASE)
  }

  /** adler32_combine_, for the length of the second string as a signed 64-bit number; the low 32 bits. */
  method Combine(adler1: Word, adler2: Word, len2: int) returns (r: Word)
    requires -0x8000_0000_0000_0000 <= len2 < 0x8000_0000_0000_0000
    ensures len2 < 0 ==> r == 0xffffffff
    ensures len2 >= 0 ==>
      var s1, s2 := Unpack(adler1), Unpack(adler2);
      Unpack(r) == CombinedSums(s1, s2, len2) <==> Combines(s1, s2, len2 % BASE)
  {
    if len2 < 0 {
      return 0xffffffff;
    }
    var s1, s2 := Unpack(adler1), Unpack(adler2);
    var rem := Mod63(len2);
    var wide1, wide2 := WideSums(s1, s2, rem);
    CombineResidues(s1.lo, s1.hi, s2.lo, s2.hi, len2, wide1, wide2);
    var sum1, sum2 := SubtractMultiples(wide1, wide2);
    OrExactly(wide1, sum1, wide2, sum2);
    r := OrHalves(sum1, sum2);
  }

  /** Reduced checksums, such as all this file returns, always combine. */
  lemma CombinesReduced(s1: Sums, s2: Sums, rem: nat)
    requires Reduced(s1) && Reduced(s2)
    ensures Combines(s1, s2, rem)
  {
  }

  /** Others need not: a lower half of 0xffff twice leaves an unreduced sum behind. */
  lemma CombineCanFail()
    ensures !Combines(Sums(65535, 0), Sums(65535, 0), 0)
  {
  }

  /** `sum1 | (sum2 << 16)`, of which only sums of more than 16 bits overlap; the low 32 bits. */
  function OrHalves(sum1: nat, sum2: nat): Word
    requires sum1 < 2 * 65536
  {
    var hi := if sum1 >= 65536 && sum2 % 2 == 0 then sum2 + 1 else sum2;
    sum1 % 65536 + 65536 * (hi % 65536)
  }

  /** Both halves are the remainders exactly when both sums were reduced. */
  lemma OrExactly(wide1: nat, sum1: nat, wide2: nat, sum2: nat)
    requires sum1 < BASE + 28 && sum2 < BASE + 28
    requires (sum1 < BASE <==> wide1 < 3 * BASE) && wide1 % BASE == (if sum1 < BASE then sum1 else sum1 - BASE)
    requires (sum2 < BASE <==> wide2 < 4 * BASE) && wide2 % BASE == (if sum2 < BASE then sum2 else sum2 - BASE)
    ensures Unpack(OrHalves(sum1, sum2)) == Sums(wide1 % BASE, wide2 % BASE) <==> wide1 < 3 * BASE && wide2 < 4 * BASE
  {
    var hi := if sum1 >= 65536 && sum2 % 2 == 0 then sum2 + 1 else sum2;
    assert Unpack(OrHalves(sum1, sum2)) == Sums(sum1 % 65536, hi % 65536);
  }

  /** Both sums before the conditional subtractions. */
  method WideSums(s1: Sums, s2: Sums, rem: nat) returns (sum1: Word, sum2: Word)
    requires s1.lo < 65536 && s1.hi < 65536 && s2.lo < 65536 && s2.hi < 65536 && rem < BASE
    ensures sum1 == s1.lo + s2.lo + BASE - 1 < 3 * BASE + 28
    ensures sum2 == (rem * s1.lo) % BASE + s1.hi + s2.hi + BASE - rem < 4 * BASE + 28
  {
    sum1 := s1.lo;
    ProductAtMost(rem, sum1, 65520, 65535);
    sum2 := rem * sum1;
    sum2 := Mod(sum2);
    sum1 := sum1 + (s2.lo + BASE - 1);
    sum2 := sum2 + (s1.hi + s2.hi + BASE - rem);
  }

  /** The conditional subtractions keep the residues and reduce fully below three and four moduli. */
  method SubtractMultiples(wide1: Word, wide2: Word) returns (sum1: Word, sum2: Word)
    requires wide1 < 3 * BASE + 28 && wide2 < 4 * BASE + 28
    ensures sum1 < BASE + 28 && (sum1 < BASE <==> wide1 < 3 * BASE)
    ensures sum2 < BASE + 28 && (sum2 < BASE <==> wide2 < 4 * BASE)
    ensures wide1 % BASE == if sum1 < BASE then sum1 else sum1 - BASE
    ensures wide2 % BASE == if sum2 < BASE then sum2 else sum2 - BASE
  {
    sum1, sum2 := wide1, wide2;
    if sum1 >= BASE { sum1 := sum1 - BASE; }
    if sum1 >= BASE { sum1 := sum1 - BASE; }
    if sum2 >= 2 * BASE { sum2 := sum2 - 2 * BASE; }
    if sum2 >= BASE { sum2 := sum2 - BASE; }
    ModMultiple(sum1, (wide1 - sum1) / BASE);
    ModMultiple(sum2, (wide2 - sum2) / BASE);
    ModOnce(sum1);
    ModOnce(sum2);
  }

  lemma CombineResidues(lo1: nat, hi1: nat, lo2: nat, hi2: nat, len: nat, wide1: int, wide2: int)
    requires wide1 == lo1 + lo2 + BASE - 1
    requires wide2 == (len % BASE * lo1) % BASE + hi1 + hi2 + BASE - len % BASE
    ensures wide1 % BASE == (lo1 + lo2 - 1) % BASE
    ensures wide2 % BASE == (len * lo1 + hi1 + hi2 - len) % BASE
  {
    var q, rem := len / BASE, len % BASE;
    ModMultiple(lo1 + lo2 - 1, 1);
    ModSum(rem * lo1, hi1 + hi2 + BASE - rem);
    ModMultiple(rem * lo1 + hi1 + hi2 - rem, 1);
    assert len * lo1 == rem * lo1 + BASE * (q * lo1) by {
      assert len == BASE * q + rem;
      assert (BASE * q + rem) * lo1 == BASE * (q * lo1) + rem * lo1;
    }
    ModMultiple(rem * lo1 + hi1 + hi2 - rem, q * lo1 - q);
  }

  /** The checksum of `b` from any reduced start, given its checksum from (1, 0). */
  lemma AdlerFrom(s: Sums, b: seq<Byte>)
    requires Reduced(s)
    ensures Adler(s, b) == CombinedSums(s, Adler(START, b), |b|)
  {
    var raw, shift := RawSums(Sums(0, 0), b), |b| * s.lo;
    DeferredReduction(s, b);
    DeferredReduction(START, b);
    assert RawSums(START, b) == Sums(raw.lo + 1, raw.hi + |b|) by {
      RawShift(0, 0, 1, 0, b);
    }
    assert RawSums(s, b) == Sums(raw.lo + s.lo, raw.hi + s.hi + shift) by {
      RawShift(0, 0, s.lo, s.hi, b);
    }
    ShiftedResidues(s, raw, shift, |b|);
  }

  lemma ShiftedResidues(s: Sums, raw: Sums, shift: nat, n: nat)
    ensures (s.lo + (raw.lo + 1) % BASE - 1) % BASE == (s.lo + raw.lo) % BASE
    ensures (shift + s.hi + (raw.hi + n) % BASE - n) % BASE == (shift + s.hi + raw.hi) % BASE
  {
    ModSum(s.lo - 1, raw.lo + 1);
    ModSum(shift + s.hi - n, raw.hi + n);
  }

  /** The formula left to the reader: both sums of a concatenation. */
  lemma AdlerConcat(a: seq<Byte>, b: seq<Byte>)
    ensures Adler(START, a + b) == CombinedSums(Adler(START, a), Adler(START, b), |b|)
  {
    AdlerContinues(START, a, b);
    AdlerReduced(START, a);
    AdlerFrom(Adler(START, a), b);
  }

  /** The law adler32_combine exists for. */
  method CombineConcat(a: seq<Byte>, b: seq<Byte>) returns (r: Word)
    requires |b| < 0x8000_0000_0000_0000
    ensures Unpack(r) == Adler(START, a + b)
  {
    var s1, s2 := Adler(START, a), Adler(START, b);
    AdlerReduced(START, a);
    AdlerReduced(START, b);
    r := CombineReduced(s1, s2, |b|);
    AdlerConcat(a, b);
  }

  method CombineReduced(s1: Sums, s2: Sums, len2: nat) returns (r: Word)
    requires Reduced(s1) && Reduced(s2) && len2 < 0x8000_0000_0000_0000
    ensures Unpack(r) == CombinedSums(s1, s2, len2)
  {
    UnpackPack(s1);
    UnpackPack(s2);
    CombinesReduced(s1, s2, len2 % BASE);
    r := Combine(Pack(s1), Pack(s2), len2);
  }
}
