/**
  crc32_combine: the checksum of a concatenation from the checksums of its parts. Zero bytes
  are appended to the first checksum by a 32x32 matrix over GF(2), squared once for every
  binary digit of the length.
 */
module Crc32Combine {
  import opened Words
  import opened Crc32Spec

  /** The first i columns left out: the matrix from column i on, applied to w. */
  function TimesFrom(mat: seq<Word>, i: nat, w: Word): Word
    requires |mat| == 32 && i <= 32 && w < Pow2(32 - i)
    decreases 32 - i, w
  {
    if i == 32 then 0
    else Xor(if w % 2 == 1 then mat[i] else 0, TimesFrom(mat, i + 1, w / 2))
  }

  /** The sum of the columns that the bits of v select. */
  function Times(mat: seq<Word>, v: Word): Word
    requires |mat| == 32
  {
    WordWidth();
    TimesFrom(mat, 0, v)
  }

  lemma {:induction false} TimesFromZero(mat: seq<Word>, i: nat)
    requires |mat| == 32 && i <= 32
    ensures TimesFrom(mat, i, 0) == 0
    decreases 32 - i
  {
    if i < 32 {
      TimesFromZero(mat, i + 1);
    }
  }

  lemma XorPairs(a: Word, b: Word, c: Word, d: Word)
    ensures Xor(Xor(a, b), Xor(c, d)) == Xor(Xor(a, c), Xor(b, d))
  {
    XorWords(a, b, Xor(c, d));
    XorWords(c, b, d);
    XorWords(a, c, Xor(b, d));
  }

  lemma {:induction false} TimesFromLinear(mat: seq<Word>, i: nat, v: Word, w: Word)
    requires |mat| == 32 && i <= 32 && v < Pow2(32 - i) && w < Pow2(32 - i)
    ensures Xor(v, w) < Pow2(32 - i)
    ensures TimesFrom(mat, i, Xor(v, w)) == Xor(TimesFrom(mat, i, v), TimesFrom(mat, i, w))
    decreases 32 - i
  {
    XorBound(v, w, 32 - i);
    if i < 32 {
      HalfXor(v, w);
      TimesFromLinear(mat, i + 1, v / 2, w / 2);
      var p, q := (if v % 2 == 1 then mat[i] else 0), if w % 2 == 1 then mat[i] else 0;
      XorPairs(p, TimesFrom(mat, i + 1, v / 2), q, TimesFrom(mat, i + 1, w / 2));
      XorWords(p, q, 0);
    }
  }

  lemma TimesLinear(mat: seq<Word>, v: Word, w: Word)
    requires |mat| == 32
    ensures Times(mat, Xor(v, w)) == Xor(Times(mat, v), Times(mat, w))
  {
    WordWidth();
    TimesFromLinear(mat, 0, v, w);
  }

  /** Every column of the square is the matrix applied to the matching column. */
  ghost predicate IsSquare(square: seq<Word>, mat: seq<Word>) {
    && |square| == |mat| == 32
    && forall n :: 0 <= n < 32 ==> square[n] == Times(mat, mat[n])
  }

  lemma {:induction false} SquareFrom(square: seq<Word>, mat: seq<Word>, i: nat, w: Word)
    requires IsSquare(square, mat) && i <= 32 && w < Pow2(32 - i)
    ensures TimesFrom(square, i, w) == Times(mat, TimesFrom(mat, i, w))
    decreases 32 - i
  {
    WordWidth();
    TimesFromZero(mat, 0);
    if i < 32 {
      SquareFrom(square, mat, i + 1, w / 2);
      TimesLinear(mat, if w % 2 == 1 then mat[i] else 0, TimesFrom(mat, i + 1, w / 2));
    }
  }

  /** Squaring composes the operator with itself. */
  lemma SquareComposes(square: seq<Word>, mat: seq<Word>, v: Word)
    requires IsSquare(square, mat)
    ensures Times(square, v) == Times(mat, Times(mat, v))
  {
    WordWidth();
    SquareFrom(square, mat, 0, v);
  }

  /** The matrix feeds n zero bits, whatever the register. */
  ghost predicate Feeds(mat: seq<Word>, n: nat) {
    |mat| == 32 && forall v: Word :: Times(mat, v) == Steps(v, n)
  }

  lemma SquareDoubles(square: seq<Word>, mat: seq<Word>, n: nat)
    requires Feeds(mat, n) && IsSquare(square, mat)
    ensures Feeds(square, 2 * n)
  {
    forall v: Word
      ensures Times(square, v) == Steps(v, 2 * n)
    {
      SquareComposes(square, mat, v);
      StepsAdd(v, n, n);
    }
  }

  /** The generator in the first column, shifted units in the others. */
  ghost predicate IsOneBit(mat: seq<Word>) {
    |mat| == 32 && mat[0] == POLY && forall n :: 1 <= n < 32 ==> mat[n] == Pow2(n - 1)
  }

  lemma {:induction false} UnitColumns(mat: seq<Word>, i: nat, w: Word)
    requires IsOneBit(mat) && 1 <= i <= 32 && w < Pow2(32 - i)
    ensures TimesFrom(mat, i, w) == Pow2(i - 1) * w
    decreases 32 - i
  {
    if i < 32 {
      UnitColumns(mat, i + 1, w / 2);
      Halve(Pow2(i - 1), w);
      XorDisjoint(if w % 2 == 1 then Pow2(i - 1) else 0, w / 2, i);
    }
  }

  lemma Halve(p: nat, w: nat)
    ensures p * w == (if w % 2 == 1 then p else 0) + (2 * p) * (w / 2)
  {
    assert w == 2 * (w / 2) + w % 2;
    assert p * w == p * (2 * (w / 2)) + p * (w % 2);
  }

  lemma OneBitFeeds(mat: seq<Word>)
    requires IsOneBit(mat)
    ensures Feeds(mat, 1)
  {
    forall v: Word
      ensures Times(mat, v) == Steps(v, 1)
    {
      WordWidth();
      UnitColumns(mat, 1, v / 2);
      XorWords(v / 2, 0, 0);
      assert Steps(v, 1) == Step(v);
    }
  }

  /** gf2_matrix_times. */
  method MatrixTimes(mat: array<Word>, vec: Word) returns (sum: Word)
    requires mat.Length == 32
    ensures sum == Times(mat[..], vec)
  {
    sum := 0;
    var v: Word, i := vec, 0;
    ghost var m := mat[..];
    WordWidth();
    XorWords(Times(m, vec), 0, 0);
    while v != 0
      invariant 0 <= i <= 32 && v < Pow2(32 - i)
      invariant Xor(sum, TimesFrom(m, i, v)) == Times(m, vec)
      decreases v
    {
      assert i < 32 by { assert Pow2(0) == 1; }
      XorWords(sum, if v % 2 == 1 then m[i] else 0, TimesFrom(m, i + 1, v / 2));
      XorWords(sum, 0, 0);
      if v % 2 == 1 {
        sum := Xor(sum, mat[i]);
      }
      v := v / 2;
      i := i + 1;
    }
    TimesFromZero(m, i);
    XorWords(sum, 0, 0);
  }

  /** gf2_matrix_square. */
  method MatrixSquare(square: array<Word>, mat: array<Word>)
    requires square.Length == mat.Length == 32 && square != mat
    modifies square
    ensures IsSquare(square[..], mat[..])
  {
    for n := 0 to 32
      invariant forall k :: 0 <= k < n ==> square[k] == Times(mat[..], mat[k])
    {
      square[n] := MatrixTimes(mat, mat[n]);
    }
  }

  method OneZeroBit(odd: array<Word>)
    requires odd.Length == 32
    modifies odd
    ensures IsOneBit(odd[..])
  {
    odd[0] := POLY;
    var row: nat := 1;
    for n := 1 to 32
      invariant row == Pow2(n - 1)
      invariant odd[0] == POLY && forall k :: 1 <= k < n ==> odd[k] == Pow2(k - 1)
    {
      Pow2Below(n - 1);
      odd[n] := row;
      row := 2 * row;
    }
  }

  lemma Pow2Below(n: nat)
    requires n < 32
    ensures Pow2(n) < LIMIT
  {
    WordWidth();
    Pow2Grows(n, 32);
  }

  lemma {:induction false} Pow2Grows(n: nat, m: nat)
    requires n < m
    ensures 2 * Pow2(n) <= Pow2(m)
    decreases m
  {
    if n < m - 1 {
      Pow2Grows(n, m - 1);
    }
  }

  /** The register once the zero bits still due, 2 * unit for each of `len`, are fed. */
  ghost function Pending(c: Word, unit: nat, len: nat): Word {
    Steps(c, 2 * unit * len)
  }

  lemma ApplyDigit(c: Word, unit: nat, len: nat)
    ensures Pending(c, unit, len) ==
            Pending(if len % 2 == 1 then Steps(c, 2 * unit) else c, 2 * unit, len / 2)
  {
    var half := len / 2;
    SplitLength(unit, half);
    if len % 2 == 1 {
      assert len == 2 * half + 1;
      StepsAdd(c, 2 * unit, 2 * (2 * unit) * half);
    } else {
      assert len == 2 * half;
    }
  }

  lemma SplitLength(unit: nat, half: nat)
    ensures 2 * unit * (2 * half) == 2 * (2 * unit) * half
    ensures 2 * unit * (2 * half + 1) == 2 * unit + 2 * (2 * unit) * half
  {
  }

  /** One turn of the doubling loop: `to` becomes the square of `from` and applies one digit. */
  method Turn(to: array<Word>, from: array<Word>, crc: Word, len: nat, ghost unit: nat)
    returns (crc': Word, len': nat)
    requires to.Length == from.Length == 32 && to != from
    requires Feeds(from[..], unit)
    modifies to
    ensures Feeds(to[..], 2 * unit)
    ensures len' == len / 2
    ensures Pending(crc', 2 * unit, len') == Pending(crc, unit, len)
  {
    MatrixSquare(to, from);
    SquareDoubles(to[..], from[..], unit);
    ApplyDigit(crc, unit, len);
    crc' := crc;
    if len % 2 == 1 {
      crc' := MatrixTimes(to, crc);
    }
    len' := len / 2;
  }

  /** The do-while loop, entered with the operator for four zero bits in `odd`. */
  method AppendZeros(odd: array<Word>, even: array<Word>, crc1: Word, len2: nat) returns (crc: Word)
    requires odd.Length == even.Length == 32 && odd != even
    requires len2 > 0 && Feeds(odd[..], 4)
    modifies odd, even
    ensures crc == Steps(crc1, 8 * len2)
  {
    var len := len2;
    crc := crc1;
    ghost var unit: nat := 4;
    while true
      invariant len > 0
      invariant Feeds(odd[..], unit)
      invariant Pending(crc, unit, len) == Pending(crc1, 4, len2)
      decreases len
    {
      crc, len := Turn(even, odd, crc, len, unit);
      unit := 2 * unit;
      if len == 0 {
        break;
      }
      crc, len := Turn(odd, even, crc, len, unit);
      unit := 2 * unit;
      if len == 0 {
        break;
      }
    }
    assert Pending(crc, unit, 0) == crc;
  }

  /** crc32_combine_. Lengths that are not positive give back the first checksum. */
  method Combine(crc1: Word, crc2: Word, len2: int) returns (r: Word)
    ensures len2 <= 0 ==> r == crc1
    ensures len2 > 0 ==> r == Xor(Steps(crc1, 8 * len2), crc2)
  {
    if len2 <= 0 {
      return crc1;
    }
    var odd, even := new Word[32], new Word[32];
    OneZeroBit(odd);
    OneBitFeeds(odd[..]);
    MatrixSquare(even, odd);
    SquareDoubles(even[..], odd[..], 1);
    MatrixSquare(odd, even);
    SquareDoubles(odd[..], even[..], 2);
    var crc := AppendZeros(odd, even, crc1, len2);
    r := Xor(crc, crc2);
  }

  /** The law crc32_combine exists for. */
  method CombineConcat(a: seq<Byte>, b: seq<Byte>) returns (r: Word)
    ensures r == Crc(0, a + b)
  {
    r := Combine(Crc(0, a), Crc(0, b), |b|);
    CrcConcat(a, b);
    if b == [] {
      assert a + b == a;
    }
  }
}
