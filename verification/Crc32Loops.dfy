/**
  The three loops of crc32.c. Each computes the checksum `Crc32Spec.Crc` defines, for every
  buffer, starting value and address: one byte at a time, four bytes at a time in a
  little-endian word, and four bytes at a time with the register kept byte-swapped.
  Where the source repeats a statement by macro, a `for` loop stands for the repetition.
 */
module Crc32Loops {
  import opened Words
  import opened Crc32Spec
  import opened Crc32Tables

  /** How the file was compiled and what machine it runs on. */
  datatype Build = ByteWise | LittleEndianByFour | BigEndianByFour

  lemma FeedOneMore(c: Word, data: seq<Byte>, i: nat)
    requires i < |data|
    ensures FeedBytes(c, data[..i + 1]) == Steps(Xor(FeedBytes(c, data[..i]), data[i]), 8)
  {
    assert data[..i + 1] == data[..i] + [data[i]];
    FeedBytesConcat(c, data[..i], [data[i]]);
  }

  /** DO1. */
  method UpdateByte(t: array2<Word>, c: Word, b: Byte) returns (c': Word)
    requires Tables(t)
    ensures c' == Steps(Xor(c, b), 8)
  {
    XorLowByte(c, b);
    c' := Xor(t[0, Xor(c, b) % 256], c / 256);
    EntryIsSteps(0, Xor(c, b) % 256);
    ByteLookup(c, b);
  }

  method CrcByteWise(t: array2<Word>, crc: Word, buf: seq<Byte>) returns (r: Word)
    requires Tables(t)
    ensures r == Crc(crc, buf)
  {
    var c := Xor(crc, ONES);
    NotIsXor(crc);
    var i := 0;
    while |buf| - i >= 8
      invariant 0 <= i <= |buf|
      invariant c == FeedBytes(Not(crc), buf[..i])
    {
      var first := i;
      for k := 0 to 8
        invariant i == first + k
        invariant c == FeedBytes(Not(crc), buf[..i])
      {
        FeedOneMore(Not(crc), buf, i);
        c := UpdateByte(t, c, buf[i]);
        i := i + 1;
      }
    }
    while i < |buf|
      invariant 0 <= i <= |buf|
      invariant c == FeedBytes(Not(crc), buf[..i])
    {
      FeedOneMore(Not(crc), buf, i);
      c := UpdateByte(t, c, buf[i]);
      i := i + 1;
    }
    assert buf[..i] == buf;
    BytesAreBits(Not(crc), buf);
    NotIsXor(c);
    r := Xor(c, ONES);
  }

  // ---------------------------------------------------------------------------------
  // Four bytes at a time, little-endian
  // ---------------------------------------------------------------------------------

  /** A 32-bit load on a little-endian machine. */
  function LoadLittle(buf: seq<Byte>, i: nat): Word
    requires i + 4 <= |buf|
  {
    Join(buf[i], buf[i + 1], buf[i + 2], buf[i + 3])
  }

  lemma FeedFourMore(c: Word, data: seq<Byte>, i: nat)
    requires i + 4 <= |data|
    ensures FeedBytes(c, data[..i + 4]) == Steps(Xor(FeedBytes(c, data[..i]), LoadLittle(data, i)), 32)
  {
    var w := data[i..i + 4];
    assert data[..i + 4] == data[..i] + w;
    FeedBytesConcat(c, data[..i], w);
    FeedLittleEndian(FeedBytes(c, data[..i]), w);
    LittleEndianOfFour(w);
  }

  lemma LittleEndianOfFour(w: seq<Byte>)
    requires |w| == 4
    ensures LittleEndian(w) == Join(w[0], w[1], w[2], w[3])
  {
    assert LittleEndian(w) == w[0] + 256 * LittleEndian(w[1..]);
    assert LittleEndian(w[1..]) == w[1] + 256 * LittleEndian(w[2..]) by { assert w[1..][1..] == w[2..]; }
    assert LittleEndian(w[2..]) == w[2] + 256 * LittleEndian(w[3..]) by { assert w[2..][1..] == w[3..]; }
    assert LittleEndian(w[3..]) == w[3];
  }

  /** DOLIT4. */
  method UpdateWordLittle(t: array2<Word>, c: Word, w: Word) returns (c': Word)
    requires Tables(t)
    ensures c' == Steps(Xor(c, w), 32)
  {
    var x := Xor(c, w);
    SplitWord(x);
    var x0, x1, x2, x3 := x % 256, x / 0x100 % 256, x / 0x1_0000 % 256, x / 0x100_0000;
    c' := Xor(Xor(Xor(t[3, x0], t[2, x1]), t[1, x2]), t[0, x3]);
    EntryIsSteps(3, x0);
    EntryIsSteps(2, x1);
    EntryIsSteps(1, x2);
    EntryIsSteps(0, x3);
    WordLookup(x0, x1, x2, x3);
  }

  /** DOLIT32 while it fits, then DOLIT4: from the first aligned byte until fewer than four remain. */
  method WordsLittle(t: array2<Word>, ghost start: Word, c0: Word, buf: seq<Byte>, address: nat, first: nat)
    returns (c: Word, i: nat)
    requires Tables(t)
    requires first <= |buf| && c0 == FeedBytes(start, buf[..first])
    requires first < |buf| ==> (address + first) % 4 == 0
    ensures first <= i <= |buf| && |buf| - i < 4
    ensures c == FeedBytes(start, buf[..i])
  {
    c, i := c0, first;
    while |buf| - i >= 32
      invariant first <= i <= |buf|
      invariant c == FeedBytes(start, buf[..i])
    {
      var block := i;
      for k := 0 to 8
        invariant i == block + 4 * k
        invariant c == FeedBytes(start, buf[..i])
      {
        FeedFourMore(start, buf, i);
        c := UpdateWordLittle(t, c, LoadLittle(buf, i));
        i := i + 4;
      }
    }
    while |buf| - i >= 4
      invariant first <= i <= |buf|
      invariant c == FeedBytes(start, buf[..i])
    {
      FeedFourMore(start, buf, i);
      c := UpdateWordLittle(t, c, LoadLittle(buf, i));
      i := i + 4;
    }
  }

  /** crc32_little, for a buffer that starts at the given address. */
  method CrcLittle(t: array2<Word>, crc: Word, buf: seq<Byte>, address: nat) returns (r: Word)
    requires Tables(t)
    ensures r == Crc(crc, buf)
  {
    var c := Not(crc);
    var i := 0;
    while i < |buf| && (address + i) % 4 != 0
      invariant 0 <= i <= |buf|
      invariant c == FeedBytes(Not(crc), buf[..i])
    {
      FeedOneMore(Not(crc), buf, i);
      c := UpdateByte(t, c, buf[i]);
      i := i + 1;
    }
    c, i := WordsLittle(t, Not(crc), c, buf, address, i);
    while i < |buf|
      invariant 0 <= i <= |buf|
      invariant c == FeedBytes(Not(crc), buf[..i])
    {
      FeedOneMore(Not(crc), buf, i);
      c := UpdateByte(t, c, buf[i]);
      i := i + 1;
    }
    assert buf[..i] == buf;
    BytesAreBits(Not(crc), buf);
    r := Not(c);
  }

  // ---------------------------------------------------------------------------------
  // Four bytes at a time, big-endian
  // ---------------------------------------------------------------------------------

  /** A 32-bit load on a big-endian machine. */
  function LoadBig(buf: seq<Byte>, i: nat): Word
    requires i + 4 <= |buf|
  {
    Join(buf[i + 3], buf[i + 2], buf[i + 1], buf[i])
  }

  lemma LoadsAreSwapped(buf: seq<Byte>, i: nat)
    requires i + 4 <= |buf|
    ensures LoadBig(buf, i) == Swap(LoadLittle(buf, i))
  {
    JoinParts(buf[i], buf[i + 1], buf[i + 2], buf[i + 3]);
  }

  /** `c << 8` in 32 bits. */
  function ShiftLeft8(c: Word): Word {
    c % 0x100_0000 * 256
  }

  lemma SwapShift(r: Word)
    ensures Swap(r / 256) == ShiftLeft8(Swap(r))
  {
    SplitWord(r);
    JoinParts(r / 0x100_0000, r / 0x1_0000 % 256, r / 0x100 % 256, r % 256);
    assert r / 256 == Join(r / 0x100 % 256, r / 0x1_0000 % 256, r / 0x100_0000, 0);
    JoinParts(r / 0x100 % 256, r / 0x1_0000 % 256, r / 0x100_0000, 0);
  }

  lemma SwapBytes(r: Word)
    ensures Swap(r) / 0x100_0000 == r % 256
    ensures Swap(r) / 0x1_0000 % 256 == r / 0x100 % 256
    ensures Swap(r) / 0x100 % 256 == r / 0x1_0000 % 256
    ensures Swap(r) % 256 == r / 0x100_0000 < 256
  {
    SplitWord(r);
    JoinParts(r / 0x100_0000, r / 0x1_0000 % 256, r / 0x100 % 256, r % 256);
  }

  /** The single-byte step on a byte-swapped register. */
  method UpdateByteBig(t: array2<Word>, ghost r: Word, c: Word, b: Byte) returns (c': Word)
    requires Tables(t) && c == Swap(r)
    ensures c' == Swap(Steps(Xor(r, b), 8))
  {
    SplitWord(c);
    var n := XorByte(c / 0x100_0000, b);
    c' := Xor(t[4, n], ShiftLeft8(c));
    SwapBytes(r);
    SwapShift(r);
    SwapXor(Entry(0, n), r / 256);
    EntryIsSteps(0, n);
    ByteLookup(r, b);
  }

  /** DOBIG4. */
  method UpdateWordBig(t: array2<Word>, ghost r: Word, c: Word, ghost little: Word, w: Word) returns (c': Word)
    requires Tables(t) && c == Swap(r) && w == Swap(little)
    ensures c' == Swap(Steps(Xor(r, little), 32))
  {
    var x := Xor(c, w);
    SplitWord(x);
    c' := Xor(Xor(Xor(t[4, x % 256], t[5, x / 0x100 % 256]), t[6, x / 0x1_0000 % 256]), t[7, x / 0x100_0000]);
    ghost var y := Xor(r, little);
    SwapXor(r, little);
    SwapBytes(y);
    SwappedLookup(y);
  }

  lemma SwappedLookup(y: Word)
    ensures y / 0x100_0000 < 256
    ensures Swap(Steps(y, 32)) ==
            Xor(Xor(Xor(Swap(Entry(0, y / 0x100_0000)), Swap(Entry(1, y / 0x1_0000 % 256))),
                    Swap(Entry(2, y / 0x100 % 256))), Swap(Entry(3, y % 256)))
  {
    SplitWord(y);
    var y0, y1, y2, y3 := y % 256, y / 0x100 % 256, y / 0x1_0000 % 256, y / 0x100_0000;
    var e0, e1, e2, e3 := Entry(0, y3), Entry(1, y2), Entry(2, y1), Entry(3, y0);
    EntryIsSteps(3, y0);
    EntryIsSteps(2, y1);
    EntryIsSteps(1, y2);
    EntryIsSteps(0, y3);
    WordLookup(y0, y1, y2, y3);
    XorReversed(e3, e2, e1, e0);
    SwapXor(e0, e1);
    SwapXor(Xor(e0, e1), e2);
    SwapXor(Xor(Xor(e0, e1), e2), e3);
  }

  lemma XorReversed(a: Word, b: Word, c: Word, d: Word)
    ensures Xor(Xor(Xor(a, b), c), d) == Xor(Xor(Xor(d, c), b), a)
  {
    XorWords(Xor(Xor(a, b), c), d, 0);
    XorWords(Xor(a, b), c, 0);
    XorWords(a, b, 0);
    XorWords(d, c, Xor(b, a));
    XorWords(Xor(d, c), b, a);
  }

  /** DOBIG32 while it fits, then DOBIG4. */
  method WordsBig(t: array2<Word>, ghost start: Word, c0: Word, buf: seq<Byte>, address: nat, first: nat)
    returns (c: Word, i: nat)
    requires Tables(t)
    requires first <= |buf| && c0 == Swap(FeedBytes(start, buf[..first]))
    requires first < |buf| ==> (address + first) % 4 == 0
    ensures first <= i <= |buf| && |buf| - i < 4
    ensures c == Swap(FeedBytes(start, buf[..i]))
  {
    c, i := c0, first;
    while |buf| - i >= 32
      invariant first <= i <= |buf|
      invariant c == Swap(FeedBytes(start, buf[..i]))
    {
      var block := i;
      for k := 0 to 8
        invariant i == block + 4 * k
        invariant c == Swap(FeedBytes(start, buf[..i]))
      {
        c := WordBig(t, start, c, buf, i);
        i := i + 4;
      }
    }
    while |buf| - i >= 4
      invariant first <= i <= |buf|
      invariant c == Swap(FeedBytes(start, buf[..i]))
    {
      c := WordBig(t, start, c, buf, i);
      i := i + 4;
    }
  }

  method WordBig(t: array2<Word>, ghost start: Word, c: Word, buf: seq<Byte>, i: nat) returns (c': Word)
    requires Tables(t) && i + 4 <= |buf|
    requires c == Swap(FeedBytes(start, buf[..i]))
    ensures c' == Swap(FeedBytes(start, buf[..i + 4]))
  {
    FeedFourMore(start, buf, i);
    LoadsAreSwapped(buf, i);
    c' := UpdateWordBig(t, FeedBytes(start, buf[..i]), c, LoadLittle(buf, i), LoadBig(buf, i));
  }

  method ByteBig(t: array2<Word>, ghost start: Word, c: Word, buf: seq<Byte>, i: nat) returns (c': Word)
    requires Tables(t) && i < |buf|
    requires c == Swap(FeedBytes(start, buf[..i]))
    ensures c' == Swap(FeedBytes(start, buf[..i + 1]))
  {
    FeedOneMore(start, buf, i);
    c' := UpdateByteBig(t, FeedBytes(start, buf[..i]), c, buf[i]);
  }

  /** crc32_big, for a buffer that starts at the given address. */
  method CrcBig(t: array2<Word>, crc: Word, buf: seq<Byte>, address: nat) returns (r: Word)
    requires Tables(t)
    ensures r == Crc(crc, buf)
  {
    ghost var start := Not(crc);
    var c := Not(Swap(crc));
    SwapNot(crc);
    var i := 0;
    while i < |buf| && (address + i) % 4 != 0
      invariant 0 <= i <= |buf|
      invariant c == Swap(FeedBytes(start, buf[..i]))
    {
      c := ByteBig(t, start, c, buf, i);
      i := i + 1;
    }
    c, i := WordsBig(t, start, c, buf, address, i);
    while i < |buf|
      invariant 0 <= i <= |buf|
      invariant c == Swap(FeedBytes(start, buf[..i]))
    {
      c := ByteBig(t, start, c, buf, i);
      i := i + 1;
    }
    assert buf[..i] == buf;
    BytesAreBits(start, buf);
    SwapNot(FeedBytes(start, buf));
    SwapTwice(Not(FeedBytes(start, buf)));
    r := Swap(Not(c));
  }

  lemma SwapNot(c: Word)
    ensures Not(Swap(c)) == Swap(Not(c))
  {
    SplitWord(c);
    var c0, c1, c2, c3 := c % 256, c / 0x100 % 256, c / 0x1_0000 % 256, c / 0x100_0000;
    assert Not(c) == Join(255 - c0, 255 - c1, 255 - c2, 255 - c3);
    JoinParts(255 - c0, 255 - c1, 255 - c2, 255 - c3);
  }

  /** crc32: a null buffer asks for the initial value, whatever the starting one. */
  method Crc32(build: Build, t: array2<Word>, crc: Word, buf: array?<Byte>, len: nat, address: nat)
    returns (r: Word)
    requires Tables(t)
    requires buf != null ==> len <= buf.Length
    ensures buf == null ==> r == Crc(0, [])
    ensures buf != null ==> r == Crc(crc, buf[..len])
  {
    if buf == null {
      return 0;
    }
    match build
    case ByteWise => r := CrcByteWise(t, crc, buf[..len]);
    case LittleEndianByFour => r := CrcLittle(t, crc, buf[..len], address);
    case BigEndianByFour => r := CrcBig(t, crc, buf[..len], address);
  }
}
