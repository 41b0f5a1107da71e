/**
  Character data in TinyXML, in its byte-wise (non-UTF-8) encoding: escaping on output,
  entity expansion and white space on input.

  A C string pointer is the text from that point to its end: `None` is the null pointer and
  the empty string a pointer to the terminator. Characters are bytes, none of them NUL
  inside a text.
 */
module XmlText {

  datatype Ptr = None | At(text: string) {
    /** `p && *p` */
    predicate Live() {
      At? && text != ""
    }
  }

  // ---------------------------------------------------------------------------------
  // Character classes
  // ---------------------------------------------------------------------------------

  predicate IsWhiteSpace(c: char) {
    c == ' ' || '\t' <= c <= '\r'
  }

  predicate IsBlank(s: string) {
    forall i :: 0 <= i < |s| ==> IsWhiteSpace(s[i])
  }

  predicate IsDigit(c: char) {
    '0' <= c <= '9'
  }

  /** Letters, and every byte from 127 on. */
  predicate IsAlpha(c: char) {
    'a' <= c <= 'z' || 'A' <= c <= 'Z' || c as int >= 127
  }

  predicate IsNameStart(c: char) {
    IsAlpha(c) || c == '_'
  }

  predicate IsNameChar(c: char) {
    IsAlpha(c) || IsDigit(c) || c == '_' || c == '-' || c == '.' || c == ':'
  }

  /** What a string holds for code that takes it as a C string: it ends at its first NUL. */
  function CString(v: string): string {
    if v == "" || v[0] == '\0' then "" else [v[0]] + CString(v[1..])
  }

  lemma {:induction false} CStringIsWhole(v: string)
    ensures CString(v) == v <==> '\0' !in v
    decreases |v|
  {
    if v != "" {
      assert v == [v[0]] + v[1..];
      CStringIsWhole(v[1..]);
      if v[0] != '\0' {
        assert CString(v)[1..] == CString(v[1..]);
      }
    }
  }

  // ---------------------------------------------------------------------------------
  // Escaping
  // ---------------------------------------------------------------------------------

  const HEX_DIGITS: string := "0123456789ABCDEF"

  /** A hexadecimal reference starts here: such text is written as it is. */
  predicate HexReference(s: string) {
    |s| > 2 && s[0] == '&' && s[1] == '#' && s[2] == 'x'
  }

  /** The output for a single character. */
  function Escape(c: char): (e: string)
    ensures e != ""
  {
    if c == '&' then "&amp;"
    else if c == '<' then "&lt;"
    else if c == '>' then "&gt;"
    else if c == '\"' then "&quot;"
    else if c == '\'' then "&apos;"
    else if c as int < 32 then "&#x" + [HEX_DIGITS[c as int / 16], HEX_DIGITS[c as int % 16]] + ";"
    else [c]
  }

  /** How many characters of a hexadecimal reference are copied: up to its semicolon or to the last character. */
  function CopyLength(s: string, i: nat): (n: nat)
    requires i < |s|
    ensures i <= n < |s|
    decreases |s| - i
  {
    if i + 1 >= |s| then i
    else if s[i + 1] == ';' then i + 1
    else CopyLength(s, i + 1)
  }

  function Encode(s: string): string
    decreases |s|
  {
    if s == "" then ""
    else if HexReference(s) then
      var n := CopyLength(s, 0);
      assert n >= 1;
      s[..n] + Encode(s[n..])
    else Escape(s[0]) + Encode(s[1..])
  }

  lemma EncodeStep(s: string)
    requires s != ""
    ensures HexReference(s) ==> CopyLength(s, 0) >= 1
    ensures HexReference(s) ==> Encode(s) == s[..CopyLength(s, 0)] + Encode(s[CopyLength(s, 0)..])
    ensures !HexReference(s) ==> Encode(s) == Escape(s[0]) + Encode(s[1..])
  {
  }

  /** Copies a hexadecimal reference up to its semicolon, or all but the last character without one. */
  method CopyReference(str: string, first: nat) returns (copied: string, i: nat)
    requires first < |str| - 1
    ensures i == first + CopyLength(str[first..], 0) < |str|
    ensures copied == str[first..i]
  {
    ghost var s := str[first..];
    copied, i := "", first;
    while i < |str| - 1
      invariant first <= i < |str|
      invariant copied == str[first..i]
      invariant CopyLength(s, i - first) == CopyLength(s, 0)
    {
      copied := copied + [str[i]];
      i := i + 1;
      if str[i] == ';' {
        break;
      }
    }
  }

  lemma Sliced(s: string, i: nat, j: nat)
    requires i <= j <= |s|
    ensures s[i..][..j - i] == s[i..j] && s[i..][j - i..] == s[j..]
  {
  }

  lemma Appended(a: string, b: string, c: string)
    ensures (a + b) + c == a + (b + c)
  {
  }

  /** One turn of the loop: a reference that is copied, or an escaped character. */
  method EncodePiece(str: string, i: nat) returns (piece: string, next: nat)
    requires i < |str|
    ensures i < next <= |str| && piece + Encode(str[next..]) == Encode(str[i..])
  {
    EncodeStep(str[i..]);
    if str[i] == '&' && i < |str| - 2 && str[i + 1] == '#' && str[i + 2] == 'x' {
      piece, next := CopyReference(str, i);
    } else {
      piece, next := Escape(str[i]), i + 1;
    }
    Sliced(str, i, next);
  }

  /** EncodeString. */
  method EncodeString(str: string) returns (out: string)
    ensures out == Encode(str)
  {
    out := "";
    var i := 0;
    assert str[0..] == str;
    while i < |str|
      invariant 0 <= i <= |str|
      invariant out + Encode(str[i..]) == Encode(str)
      decreases |str| - i
    {
      var piece, next := EncodePiece(str, i);
      Appended(out, piece, Encode(str[next..]));
      out, i := out + piece, next;
    }
  }

  // ---------------------------------------------------------------------------------
  // Entities
  // ---------------------------------------------------------------------------------

  /** The first position at or after `from` that holds c, or -1. */
  function Find(s: string, c: char, from: nat): (k: int)
    requires from <= |s|
    ensures -1 <= k < |s| && (k >= 0 ==> from <= k && s[k] == c)
    decreases |s| - from
  {
    if from == |s| then -1 else if s[from] == c then from else Find(s, c, from + 1)
  }

  /** The last position below `to` that holds c, or -1. */
  function FindBack(s: string, c: char, to: nat): (k: int)
    requires to <= |s|
    ensures -1 <= k < to
  {
    if to == 0 then -1 else if s[to - 1] == c then to - 1 else FindBack(s, c, to - 1)
  }

  /** The value of a digit in the given base, or -1. */
  function Digit(c: char, base: nat): int {
    if '0' <= c <= '9' then c as int - '0' as int
    else if base == 16 && 'a' <= c <= 'f' then c as int - 'a' as int + 10
    else if base == 16 && 'A' <= c <= 'F' then c as int - 'A' as int + 10
    else -1
  }

  predicate AllDigits(s: string, base: nat) {
    forall i :: 0 <= i < |s| ==> Digit(s[i], base) >= 0
  }

  /** The number digits stand for; anything else counts as zero. */
  function Number(s: string, base: nat): nat {
    if s == "" then 0
    else
      var d := Digit(s[|s| - 1], base);
      Number(s[..|s| - 1], base) * base + if d < 0 then 0 else d
  }

  /** A pointer moved on and the characters found on the way. */
  datatype Read = Read(next: Ptr, text: string)

  /**
    A numeric reference that ends at position k: the digits are those after the last `stop`,
    and the low byte of their value is the character.
   */
  function NumericEntity(s: string, k: nat, stop: char, base: nat): Read
    requires k < |s|
  {
    var digits := s[FindBack(s, stop, k) + 1..k];
    if AllDigits(digits, base) then Read(At(s[k + 1..]), [(Number(digits, base) % 256) as char])
    else Read(None, "")
  }

  /** An entity at an ampersand. An unknown one loses its ampersand. */
  function Entity(s: string): (r: Read)
    requires s != "" && s[0] == '&'
    ensures r.next.At? ==> |r.next.text| < |s|
  {
    if |s| > 2 && s[1] == '#' then
      if s[2] == 'x' then
        var k := if |s| > 3 then Find(s, ';', 3) else -1;
        if k < 0 then Read(None, "") else NumericEntity(s, k, 'x', 16)
      else
        var k := Find(s, ';', 2);
        if k < 0 then Read(None, "") else NumericEntity(s, k, '#', 10)
    else NamedEntity(s)
  }

  function NamedEntity(s: string): (r: Read)
    requires s != ""
    ensures r.next.At? ==> |r.next.text| < |s|
  {
    if "&amp;" <= s then Read(At(s[5..]), "&")
    else if "&lt;" <= s then Read(At(s[4..]), "<")
    else if "&gt;" <= s then Read(At(s[4..]), ">")
    else if "&quot;" <= s then Read(At(s[6..]), "\"")
    else if "&apos;" <= s then Read(At(s[6..]), "\'")
    else Read(At(s[1..]), "")
  }

  function GetChar(s: string): (r: Read)
    requires s != ""
    ensures r.next.At? ==> |r.next.text| < |s|
  {
    if s[0] == '&' then Entity(s) else Read(At(s[1..]), [s[0]])
  }

  lemma TwoHexDigits(h: char, l: char)
    requires Digit(h, 16) >= 0 && Digit(l, 16) >= 0
    ensures AllDigits([h, l], 16) && Number([h, l], 16) == Digit(h, 16) * 16 + Digit(l, 16)
  {
    assert [h, l][..1] == [h] && [h][..0] == "";
    assert Number([h], 16) == Number("", 16) * 16 + Digit(h, 16);
  }

  lemma TwoDigitReference(h: char, l: char, rest: string)
    requires Digit(h, 16) >= 0 && Digit(l, 16) >= 0
    ensures Entity(['&', '#', 'x', h, l, ';'] + rest) ==
            Read(At(rest), [((Digit(h, 16) * 16 + Digit(l, 16)) % 256) as char])
  {
    var s := ['&', '#', 'x', h, l, ';'] + rest;
    assert Find(s, ';', 3) == Find(s, ';', 4) == Find(s, ';', 5) == 5;
    assert FindBack(s, 'x', 5) == FindBack(s, 'x', 4) == FindBack(s, 'x', 3) == 2;
    assert s[3..5] == [h, l];
    TwoHexDigits(h, l);
    assert s[6..] == rest;
  }

  lemma HexDigitValue(d: nat)
    requires d < 16
    ensures Digit(HEX_DIGITS[d], 16) == d
  {
  }

  lemma NamedAmp(rest: string)
    ensures Entity("&amp;" + rest) == Read(At(rest), "&")
  {
    assert ("&amp;" + rest)[5..] == rest;
  }

  lemma NamedLt(rest: string)
    ensures Entity("&lt;" + rest) == Read(At(rest), "<")
  {
    var s := "&lt;" + rest;
    assert s[1] == 'l' && s[4..] == rest;
  }

  lemma NamedGt(rest: string)
    ensures Entity("&gt;" + rest) == Read(At(rest), ">")
  {
    var s := "&gt;" + rest;
    assert s[1] == 'g' && s[4..] == rest;
  }

  lemma NamedQuot(rest: string)
    ensures Entity("&quot;" + rest) == Read(At(rest), "\"")
  {
    var s := "&quot;" + rest;
    assert s[1] == 'q' && s[6..] == rest;
  }

  lemma NamedApos(rest: string)
    ensures Entity("&apos;" + rest) == Read(At(rest), "\'")
  {
    var s := "&apos;" + rest;
    assert s[1] == 'a' && s[2] == 'p' && s[6..] == rest;
  }

  lemma ControlEscape(c: char)
    requires c as int < 32
    ensures Escape(c) == ['&', '#', 'x', HEX_DIGITS[c as int / 16], HEX_DIGITS[c as int % 16], ';']
  {
  }

  lemma TwoDigitValue(c: char)
    requires c as int < 32
    ensures ((c as int / 16 * 16 + c as int % 16) % 256) as char == c
  {
  }

  lemma ReferenceTo(h: char, l: char, c: char, rest: string)
    requires Digit(h, 16) >= 0 && Digit(l, 16) >= 0 && ((Digit(h, 16) * 16 + Digit(l, 16)) % 256) as char == c
    ensures Entity(['&', '#', 'x', h, l, ';'] + rest) == Read(At(rest), [c])
  {
    TwoDigitReference(h, l, rest);
  }

  lemma ControlReference(c: char, rest: string)
    requires c as int < 32
    ensures Entity(Escape(c) + rest) == Read(At(rest), [c])
  {
    var h, l := HEX_DIGITS[c as int / 16], HEX_DIGITS[c as int % 16];
    HexDigitValue(c as int / 16);
    HexDigitValue(c as int % 16);
    TwoDigitValue(c);
    ReferenceTo(h, l, c, rest);
    ControlEscape(c);
  }

  /** Reading undoes escaping, whatever the character and whatever follows. */
  lemma GetEscaped(c: char, rest: string)
    ensures GetChar(Escape(c) + rest) == Read(At(rest), [c])
  {
    var s := Escape(c) + rest;
    assert s[0] == Escape(c)[0];
    if c == '&' {
      NamedAmp(rest);
    } else if c == '<' {
      NamedLt(rest);
    } else if c == '>' {
      NamedGt(rest);
    } else if c == '\"' {
      NamedQuot(rest);
    } else if c == '\'' {
      NamedApos(rest);
    } else if c as int < 32 {
      ControlReference(c, rest);
    } else {
      assert s[1..] == rest;
    }
  }

  // ---------------------------------------------------------------------------------
  // The loops of GetEntity
  // ---------------------------------------------------------------------------------

  lemma {:induction false} FindBackAtLeast(s: string, c: char, limit: nat, i: nat)
    requires i < limit <= |s| && s[i] == c
    ensures i <= FindBack(s, c, limit) && s[FindBack(s, c, limit)] == c
    decreases limit
  {
    if s[limit - 1] != c {
      FindBackAtLeast(s, c, limit - 1, i);
    }
  }

  lemma Expand(a: nat, base: nat, d: nat, mult: nat, u: nat)
    ensures (a * base + d) * mult + u == a * (mult * base) + (u + mult * d)
  {
    assert (a * base + d) * mult == (a * base) * mult + d * mult;
    assert (a * base) * mult == a * (mult * base);
  }

  /** The sum of the first n digits, taken from the last one back, the last at weight `mult`. */
  function Backward(digits: string, base: nat, n: nat, mult: nat, ucs: nat): nat
    requires n <= |digits|
    decreases n
  {
    if n == 0 then ucs
    else
      var d := Digit(digits[n - 1], base);
      Backward(digits, base, n - 1, mult * base, ucs + mult * if d < 0 then 0 else d)
  }

  lemma {:induction false} BackwardIsNumber(digits: string, base: nat, n: nat, mult: nat, ucs: nat)
    requires n <= |digits|
    ensures Backward(digits, base, n, mult, ucs) == Number(digits[..n], base) * mult + ucs
    decreases n
  {
    if n == 0 {
      assert digits[..0] == "";
    } else {
      var c := Digit(digits[n - 1], base);
      var d := if c < 0 then 0 else c;
      assert digits[..n][..n - 1] == digits[..n - 1];
      BackwardIsNumber(digits, base, n - 1, mult * base, ucs + mult * d);
      Expand(Number(digits[..n - 1], base), base, d, mult, ucs);
    }
  }

  /** Sums the digits, last one first; fails at the first character that is none. */
  method SumDigits(digits: string, base: nat) returns (ok: bool, low: nat)
    ensures ok == AllDigits(digits, base)
    ensures ok ==> low == Number(digits, base) % 256
  {
    var n, ucs: nat, mult: nat := |digits|, 0, 1;
    while n > 0
      invariant 0 <= n <= |digits|
      invariant forall i :: n <= i < |digits| ==> Digit(digits[i], base) >= 0
      invariant Backward(digits, base, n, mult, ucs) == Backward(digits, base, |digits|, 1, 0)
    {
      var d := Digit(digits[n - 1], base);
      if d < 0 {
        return false, 0;
      }
      ucs := ucs + mult * d;
      mult := mult * base;
      n := n - 1;
    }
    BackwardIsNumber(digits, base, |digits|, 1, 0);
    assert digits[..|digits|] == digits;
    return true, ucs % 256;
  }

  /**
    A numeric reference read backwards from its semicolon to `stop`; the low byte of its value
    is the character.
   */
  method ReadNumber(s: string, k: nat, stop: char, base: nat) returns (r: Read)
    requires k < |s| && FindBack(s, stop, k) >= 0
    ensures r == NumericEntity(s, k, stop, base)
  {
    var n := k;
    while s[n - 1] != stop
      invariant 0 < n <= k
      invariant FindBack(s, stop, n) == FindBack(s, stop, k)
      decreases n
    {
      n := n - 1;
    }
    var ok, low := SumDigits(s[n..k], base);
    return if ok then Read(At(s[k + 1..]), [low as char]) else Read(None, "");
  }

  /** GetEntity. */
  method GetEntity(s: string) returns (r: Read)
    requires s != "" && s[0] == '&'
    ensures r == Entity(s)
  {
    if |s| > 2 && s[1] == '#' {
      if s[2] == 'x' {
        if |s| <= 3 {
          return Read(None, "");
        }
        var k := StrChr(s, ';', 3);
        if k < 0 {
          return Read(None, "");
        }
        FindBackAtLeast(s, 'x', k, 2);
        r := ReadNumber(s, k, 'x', 16);
      } else {
        var k := StrChr(s, ';', 2);
        if k < 0 {
          return Read(None, "");
        }
        FindBackAtLeast(s, '#', k, 1);
        r := ReadNumber(s, k, '#', 10);
      }
    } else {
      r := MatchEntity(s);
    }
  }

  const ENTITIES: seq<(string, char)> :=
    [("&amp;", '&'), ("&lt;", '<'), ("&gt;", '>'), ("&quot;", '\"'), ("&apos;", '\'')]

  /** The loop over the table of named entities. */
  method MatchEntity(s: string) returns (r: Read)
    requires s != ""
    ensures r == NamedEntity(s)
  {
    FirstInTable(s);
    for i := 0 to |ENTITIES|
      invariant EntityFrom(s, i) == NamedEntity(s)
    {
      if ENTITIES[i].0 <= s {
        return Read(At(s[|ENTITIES[i].0|..]), [ENTITIES[i].1]);
      }
    }
    return Read(At(s[1..]), "");
  }

  /** The first entity of the table from i on that starts the text. */
  function EntityFrom(s: string, i: nat): Read
    requires s != "" && i <= |ENTITIES|
    decreases |ENTITIES| - i
  {
    if i == |ENTITIES| then Read(At(s[1..]), "")
    else if ENTITIES[i].0 <= s then Read(At(s[|ENTITIES[i].0|..]), [ENTITIES[i].1])
    else EntityFrom(s, i + 1)
  }

  lemma FirstInTable(s: string)
    requires s != ""
    ensures EntityFrom(s, 0) == NamedEntity(s)
  {
    assert EntityFrom(s, 5) == Read(At(s[1..]), "");
    assert EntityFrom(s, 4) == if "&apos;" <= s then Read(At(s[6..]), "\'") else EntityFrom(s, 5);
    assert EntityFrom(s, 3) == if "&quot;" <= s then Read(At(s[6..]), "\"") else EntityFrom(s, 4);
    assert EntityFrom(s, 2) == if "&gt;" <= s then Read(At(s[4..]), ">") else EntityFrom(s, 3);
    assert EntityFrom(s, 1) == if "&lt;" <= s then Read(At(s[4..]), "<") else EntityFrom(s, 2);
  }

  method StrChr(s: string, c: char, from: nat) returns (k: int)
    requires from <= |s|
    ensures k == Find(s, c, from)
  {
    var i := from;
    while i < |s|
      invariant from <= i <= |s|
      invariant Find(s, c, from) == Find(s, c, i)
    {
      if s[i] == c {
        return i;
      }
      i := i + 1;
    }
    return -1;
  }
}
