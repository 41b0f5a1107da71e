/**
  UTF-8 (section 3 of RFC 3629) as Gumbo reads and writes it.

  The decoder follows the HTML rules: a malformed sequence is consumed up to its first byte
  that is not a continuation and read as U+FFFD, so are the code points HTML forbids, and a
  carriage return, with or without a line feed after it, is read as one line feed. It accepts
  surrogates and some overlong forms, so decoding inverts encoding but not the other way round.
 */
module Utf8 {
  import opened Words

  const REPLACEMENT: nat := 0xFFFD
  const CR: nat := 0xD
  const LF: nat := 0xA

  type CodePoint = c: nat | c <= 0x10FFFF

  // ---------------------------------------------------------------------------------
  // Encoding
  // ---------------------------------------------------------------------------------

  function Encode(c: CodePoint): (bytes: seq<Byte>)
    ensures 1 <= |bytes| <= 4
  {
    if c <= 0x7F then [c]
    else if c <= 0x7FF then [0xC0 + c / 64, 0x80 + c % 64]
    else if c <= 0xFFFF then [0xE0 + c / 4096, 0x80 + c / 64 % 64, 0x80 + c % 64]
    else [0xF0 + c / 262144, 0x80 + c / 4096 % 64, 0x80 + c / 64 % 64, 0x80 + c % 64]
  }

  function EncodeAll(cs: seq<CodePoint>): seq<Byte> {
    if cs == [] then [] else Encode(cs[0]) + EncodeAll(cs[1..])
  }

  // ---------------------------------------------------------------------------------
  // Decoding one character
  // ---------------------------------------------------------------------------------

  /** utf8_is_invalid_code_point: what HTML forbids. */
  predicate Forbidden(c: nat) {
    || 0x1 <= c <= 0x8 || c == 0xB || 0xE <= c <= 0x1F || 0x7F <= c <= 0x9F
    || 0xFDD0 <= c <= 0xFDEF || c % 0x10000 == 0xFFFE || c % 0x10000 == 0xFFFF
  }

  /** What the first byte announces: a length, the bits it carries, and whether it is an error already. */
  datatype Lead = Lead(width: nat, bits: nat, bad: bool)

  function LeadOf(b: Byte): (l: Lead)
    ensures 1 <= l.width <= 7
  {
    if b < 0x80 then Lead(1, b, false)
    else if b < 0xC0 then Lead(1, 0, true)
    else if b < 0xE0 then Lead(2, b - 0xC0, b < 0xC2)
    else if b < 0xF0 then Lead(3, b - 0xE0, false)
    else if b < 0xF5 then Lead(4, b - 0xF0, false)
    else if b < 0xF8 then Lead(5, 0, true)
    else if b < 0xFC then Lead(6, 0, true)
    else if b < 0xFE then Lead(7, 0, true)
    else Lead(1, 0, true)
  }

  predicate Continuation(b: Byte) {
    0x80 <= b <= 0xBF
  }

  /** A character read from the input: its code point and how many bytes it took. */
  datatype Char = Char(point: nat, width: nat)

  /** Takes continuation bytes from position i on until the sequence is complete or broken off. */
  function Scan(s: seq<Byte>, i: nat, lead: Lead, bits: nat): (c: Char)
    requires 1 <= i <= |s| && i <= lead.width
    ensures i <= c.width <= |s|
    decreases |s| - i
  {
    if i < lead.width && i < |s| && Continuation(s[i]) then Scan(s, i + 1, lead, bits * 64 + (s[i] - 0x80))
    else if lead.bad || i < lead.width || bits > 0x10FFFF || Forbidden(bits) then Char(REPLACEMENT, i)
    else Char(bits, i)
  }

  /** The character at the front of a non-empty input, before line ends are folded. */
  function Head(s: seq<Byte>): (c: Char)
    requires s != []
    ensures 1 <= c.width <= |s|
  {
    var lead := LeadOf(s[0]);
    Scan(s, 1, lead, lead.bits)
  }

  lemma {:induction false} ScanContinues(s: seq<Byte>, i: nat, lead: Lead, bits: nat, k: nat)
    requires 1 <= i <= |s| && i <= lead.width
    requires i <= k < Scan(s, i, lead, bits).width
    ensures Continuation(s[k])
    decreases |s| - i
  {
    if i < k {
      ScanContinues(s, i + 1, lead, bits * 64 + (s[i] - 0x80), k);
    }
  }

  lemma {:induction false} ScanComplete(s: seq<Byte>, i: nat, lead: Lead, bits: nat)
    requires 1 <= i <= |s| && i <= lead.width
    requires Scan(s, i, lead, bits).point != REPLACEMENT
    ensures Scan(s, i, lead, bits).width == lead.width && !lead.bad
    decreases |s| - i
  {
    if i < lead.width && i < |s| && Continuation(s[i]) {
      ScanComplete(s, i + 1, lead, bits * 64 + (s[i] - 0x80));
    }
  }

  lemma Gather2(b0: Byte, b1: Byte, rest: seq<Byte>)
    requires 0xC2 <= b0 < 0xE0 && Continuation(b1)
    ensures Head([b0, b1] + rest) == Accept((b0 - 0xC0) * 64 + (b1 - 0x80), 2)
  {
    var s := [b0, b1] + rest;
    var lead := LeadOf(b0);
    assert Scan(s, 1, lead, lead.bits) == Scan(s, 2, lead, lead.bits * 64 + (b1 - 0x80));
  }

  lemma Gather3(b0: Byte, b1: Byte, b2: Byte, rest: seq<Byte>)
    requires 0xE0 <= b0 < 0xF0 && Continuation(b1) && Continuation(b2)
    ensures Head([b0, b1, b2] + rest) == Accept(((b0 - 0xE0) * 64 + (b1 - 0x80)) * 64 + (b2 - 0x80), 3)
  {
    var s := [b0, b1, b2] + rest;
    var lead := LeadOf(b0);
    var p := lead.bits * 64 + (b1 - 0x80);
    assert Scan(s, 1, lead, lead.bits) == Scan(s, 2, lead, p) == Scan(s, 3, lead, p * 64 + (b2 - 0x80));
  }

  lemma Gather4(b0: Byte, b1: Byte, b2: Byte, b3: Byte, rest: seq<Byte>)
    requires 0xF0 <= b0 < 0xF5 && Continuation(b1) && Continuation(b2) && Continuation(b3)
    ensures Head([b0, b1, b2, b3] + rest) ==
            Accept((((b0 - 0xF0) * 64 + (b1 - 0x80)) * 64 + (b2 - 0x80)) * 64 + (b3 - 0x80), 4)
  {
    var s := [b0, b1, b2, b3] + rest;
    var lead := LeadOf(b0);
    var p := lead.bits * 64 + (b1 - 0x80);
    var q := p * 64 + (b2 - 0x80);
    assert Scan(s, 1, lead, lead.bits) == Scan(s, 2, lead, p) == Scan(s, 3, lead, q)
           == Scan(s, 4, lead, q * 64 + (b3 - 0x80));
  }

  /** A well-formed sequence gives its code point unless that is too large or forbidden. */
  function Accept(point: nat, width: nat): Char {
    Char(if point > 0x10FFFF then REPLACEMENT else Shown(point), width)
  }

  /** The code point an HTML parser sees for a well-encoded one. */
  function Shown(c: nat): nat {
    if Forbidden(c) then REPLACEMENT else c
  }

  lemma Head2(c: CodePoint, rest: seq<Byte>)
    requires 0x80 <= c <= 0x7FF
    ensures Head(Encode(c) + rest) == Char(Shown(c), 2)
  {
    Gather2(0xC0 + c / 64, 0x80 + c % 64, rest);
  }

  lemma Recompose(c: nat)
    ensures c == c / 64 * 64 + c % 64
    ensures c / 64 == c / 4096 * 64 + c / 64 % 64
    ensures c / 4096 == c / 262144 * 64 + c / 4096 % 64
  {
    assert c / 64 / 64 == c / 4096;
    assert c / 4096 / 64 == c / 262144;
  }

  lemma Head3(c: CodePoint, rest: seq<Byte>)
    requires 0x800 <= c <= 0xFFFF
    ensures Head(Encode(c) + rest) == Char(Shown(c), 3)
  {
    Recompose(c);
    Gather3(0xE0 + c / 4096, 0x80 + c / 64 % 64, 0x80 + c % 64, rest);
  }

  lemma Head4(c: CodePoint, rest: seq<Byte>)
    requires 0x10000 <= c
    ensures Head(Encode(c) + rest) == Char(Shown(c), 4)
  {
    Recompose(c);
    Gather4(0xF0 + c / 262144, 0x80 + c / 4096 % 64, 0x80 + c / 64 % 64, 0x80 + c % 64, rest);
  }

  /** Decoding inverts encoding, whatever follows. */
  lemma HeadOfEncoded(c: CodePoint, rest: seq<Byte>)
    ensures Head(Encode(c) + rest) == Char(Shown(c), |Encode(c)|)
  {
    if c <= 0x7F {
      assert ([c] + rest)[0] == c;
    } else if c <= 0x7FF {
      Head2(c, rest);
    } else if c <= 0xFFFF {
      Head3(c, rest);
    } else {
      Head4(c, rest);
    }
  }

  // ---------------------------------------------------------------------------------
  // Malformed input
  // ---------------------------------------------------------------------------------

  /** The first byte of a sequence of w bytes, the ones that are errors from the start included. */
  predicate Announces(b: Byte, w: nat) {
    || (0xC0 <= b <= 0xDF && w == 2) || (0xE0 <= b <= 0xEF && w == 3) || (0xF0 <= b <= 0xF4 && w == 4)
    || (0xF5 <= b <= 0xF7 && w == 5) || (0xF8 <= b <= 0xFB && w == 6) || (0xFC <= b <= 0xFD && w == 7)
  }

  /** After k bytes with their continuations the scan has come to byte k. */
  lemma {:induction false} ScanReaches(s: seq<Byte>, i: nat, lead: Lead, bits: nat, k: nat) returns (more: nat)
    requires 1 <= i <= k <= |s| && k <= lead.width && forall j :: i <= j < k ==> 0x80 <= s[j] <= 0xBF
    ensures Scan(s, i, lead, bits) == Scan(s, k, lead, more)
    decreases k - i
  {
    more := bits;
    if i < k {
      more := ScanReaches(s, i + 1, lead, bits * 64 + (s[i] - 0x80), k);
    }
  }

  /** A sequence that breaks off after k bytes is consumed that far, and no further, as one U+FFFD. */
  lemma HeadBrokenOff(s: seq<Byte>, w: nat, k: nat)
    requires 1 <= k <= |s| && k < w && Announces(s[0], w) && forall i :: 1 <= i < k ==> 0x80 <= s[i] <= 0xBF
    requires k == |s| || s[k] < 0x80 || s[k] > 0xBF
    ensures Head(s) == Char(0xFFFD, k)
  {
    var lead := LeadOf(s[0]);
    var bits := ScanReaches(s, 1, lead, lead.bits, k);
  }

  /** A complete sequence whose first byte is an error already is consumed in full as one U+FFFD. */
  lemma HeadOfBadLead(s: seq<Byte>, w: nat)
    requires w <= |s| && s != [] && Announces(s[0], w) && (s[0] <= 0xC1 || s[0] >= 0xF5)
    requires forall i :: 1 <= i < w ==> 0x80 <= s[i] <= 0xBF
    ensures Head(s) == Char(0xFFFD, w)
  {
    var lead := LeadOf(s[0]);
    var bits := ScanReaches(s, 1, lead, lead.bits, w);
  }

  /** A byte that can start nothing is one U+FFFD. */
  lemma HeadOfStray(s: seq<Byte>)
    requires s != [] && (0x80 <= s[0] <= 0xBF || s[0] >= 0xFE)
    ensures Head(s) == Char(0xFFFD, 1)
  {
  }

  /** Exactly these code points are replaced. */
  lemma ForbiddenPoints(c: CodePoint, rest: seq<Byte>)
    ensures Head(Encode(c) + rest).point == 0xFFFD <==>
            || c in {0x1, 0x2, 0x3, 0x4, 0x5, 0x6, 0x7, 0x8, 0xB} || 0xE <= c <= 0x1F || 0x7F <= c <= 0x9F
            || 0xFDD0 <= c <= 0xFDEF || c == 0xFFFD
            || (exists plane :: 0 <= plane <= 16 && 0 <= c - 0x10000 * plane - 0xFFFE <= 1)
    ensures Head(Encode(c) + rest).point in {c, 0xFFFD}
  {
    HeadOfEncoded(c, rest);
    assert c == 0x10000 * (c / 0x10000) + c % 0x10000;
  }

  // ---------------------------------------------------------------------------------
  // Decoding a whole input
  // ---------------------------------------------------------------------------------

  /** Whether the input starts with a carriage return that a line feed follows: they read as one line feed. */
  predicate CrLf(s: seq<Byte>) {
    s != [] && Head(s).point == CR && Head(s).width < |s| && s[Head(s).width] == LF
  }

  /** A carriage return on its own reads as a line feed too. */
  function FoldCr(c: nat): nat {
    if c == CR then LF else c
  }

  /** Every code point delivered for an input. */
  function Deliver(s: seq<Byte>): seq<nat>
    decreases |s|
  {
    if s == [] then []
    else
      var c := Head(s);
      [FoldCr(c.point)] + Deliver(s[c.width + (if CrLf(s) then 1 else 0)..])
  }

  /** What should be delivered for a list of code points. */
  function Expected(cs: seq<CodePoint>): seq<nat>
    decreases |cs|
  {
    if cs == [] then []
    else if |cs| >= 2 && cs[0] == 0xD && cs[1] == 0xA then [0xA] + Expected(cs[2..])
    else [if cs[0] == 0xD then 0xA else Shown(cs[0])] + Expected(cs[1..])
  }

  lemma FirstIsLineFeed(cs: seq<CodePoint>)
    ensures EncodeAll(cs) != [] && EncodeAll(cs)[0] == LF <==> cs != [] && cs[0] == LF
  {
  }

  lemma EncodeAllCons(cs: seq<CodePoint>)
    requires cs != []
    ensures EncodeAll(cs)[|Encode(cs[0])|..] == EncodeAll(cs[1..])
  {
  }

  lemma ShownCr(c: CodePoint)
    ensures Shown(c) == CR <==> c == CR
    ensures c == CR ==> Encode(c) == [CR]
  {
  }

  lemma CrLfEncoded(c: CodePoint, tail: seq<Byte>)
    ensures CrLf(Encode(c) + tail) <==> c == CR && tail != [] && tail[0] == LF
  {
    var e := Encode(c);
    var s := e + tail;
    HeadOfEncoded(c, tail);
    ShownCr(c);
    assert |e| < |s| ==> s[|e|] == tail[0];
  }

  /** Reading back an encoded list delivers it, as HTML shows it. */
  lemma {:induction false} RoundTrip(cs: seq<CodePoint>)
    ensures Deliver(EncodeAll(cs)) == Expected(cs)
    decreases |cs|
  {
    if cs != [] {
      var c, tail := cs[0], EncodeAll(cs[1..]);
      var s := Encode(c) + tail;
      EncodeAllCons(cs);
      CrLfEncoded(c, tail);
      FirstIsLineFeed(cs[1..]);
      HeadOfEncoded(c, tail);
      ShownCr(c);
      if CrLf(s) {
        EncodeAllCons(cs[1..]);
        assert s[2..] == tail[1..] == EncodeAll(cs[1..][1..]);
        assert cs[1..][1..] == cs[2..];
        RoundTrip(cs[2..]);
      } else {
        RoundTrip(cs[1..]);
      }
    }
  }

  /** Text without carriage returns or forbidden characters comes back as it was. */
  lemma {:induction false} RoundTripPlain(cs: seq<CodePoint>)
    requires forall i :: 0 <= i < |cs| ==> cs[i] != CR && !Forbidden(cs[i])
    ensures Deliver(EncodeAll(cs)) == cs
  {
    RoundTrip(cs);
    ExpectedPlain(cs);
  }

  lemma {:induction false} ExpectedPlain(cs: seq<CodePoint>)
    requires forall i :: 0 <= i < |cs| ==> cs[i] != CR && !Forbidden(cs[i])
    ensures Expected(cs) == cs
    decreases |cs|
  {
    if cs != [] {
      ExpectedPlain(cs[1..]);
    }
  }

  // ---------------------------------------------------------------------------------
  // Encoding what was decoded
  // ---------------------------------------------------------------------------------

  /** A three- or four-byte form of a code point that fits in fewer bytes; only the shorter ones are rejected. */
  predicate Overlong(s: seq<Byte>) {
    |s| >= 2 && ((s[0] == 0xE0 && s[1] < 0xA0) || (s[0] == 0xF0 && s[1] < 0x90))
  }

  /** A character that was not replaced is encoded as it was read exactly when it was not overlong. */
  lemma EncodeOfHead(s: seq<Byte>)
    requires s != [] && Head(s).point != REPLACEMENT
    ensures Head(s).point <= 0x10FFFF
    ensures Encode(Head(s).point) == s[..Head(s).width] <==> !Overlong(s)
  {
    var w := Head(s).width;
    var lead := LeadOf(s[0]);
    ScanComplete(s, 1, lead, lead.bits);
    forall k | 1 <= k < w
      ensures Continuation(s[k])
    {
      ScanContinues(s, 1, lead, lead.bits, k);
    }
    if w == 1 {
      assert s[..1] == [s[0]];
    } else if w == 2 {
      assert Continuation(s[1]);
      assert s == [s[0], s[1]] + s[2..];
      Gather2(s[0], s[1], s[2..]);
    } else if w == 3 {
      assert Continuation(s[1]) && Continuation(s[2]);
      Encode3(s[0], s[1], s[2], s[3..]);
      assert s == [s[0], s[1], s[2]] + s[3..] && s[..3] == [s[0], s[1], s[2]];
    } else {
      assert Continuation(s[1]) && Continuation(s[2]) && Continuation(s[3]);
      Encode4(s[0], s[1], s[2], s[3], s[4..]);
      assert s == [s[0], s[1], s[2], s[3]] + s[4..] && s[..4] == [s[0], s[1], s[2], s[3]];
    }
  }

  lemma Encode3(b0: Byte, b1: Byte, b2: Byte, rest: seq<Byte>)
    requires 0xE0 <= b0 < 0xF0 && Continuation(b1) && Continuation(b2)
    ensures var p := Head([b0, b1, b2] + rest).point;
            p <= 0x10FFFF &&
            (p != REPLACEMENT ==> (Encode(p) == [b0, b1, b2] <==> !(b0 == 0xE0 && b1 < 0xA0)))
  {
    Gather3(b0, b1, b2, rest);
    Digits3(((b0 - 0xE0) * 64 + (b1 - 0x80)) * 64 + (b2 - 0x80), b0 - 0xE0, b1 - 0x80, b2 - 0x80);
  }

  lemma Encode4(b0: Byte, b1: Byte, b2: Byte, b3: Byte, rest: seq<Byte>)
    requires 0xF0 <= b0 < 0xF5 && Continuation(b1) && Continuation(b2) && Continuation(b3)
    ensures var p := Head([b0, b1, b2, b3] + rest).point;
            p <= 0x10FFFF &&
            (p != REPLACEMENT ==> (Encode(p) == [b0, b1, b2, b3] <==> !(b0 == 0xF0 && b1 < 0x90)))
  {
    Gather4(b0, b1, b2, b3, rest);
    Digits4((((b0 - 0xF0) * 64 + (b1 - 0x80)) * 64 + (b2 - 0x80)) * 64 + (b3 - 0x80),
            b0 - 0xF0, b1 - 0x80, b2 - 0x80, b3 - 0x80);
  }

  lemma Digits3(p: nat, d0: nat, d1: nat, d2: nat)
    requires d0 < 16 && d1 < 64 && d2 < 64
    requires p == (d0 * 64 + d1) * 64 + d2
    ensures p <= 0xFFFF
    ensures d0 == 0 && d1 < 0x20 ==> |Encode(p)| < 3
    ensures d0 > 0 || d1 >= 0x20 ==> Encode(p) == [0xE0 + d0, 0x80 + d1, 0x80 + d2]
  {
    assert p / 64 == d0 * 64 + d1 && p / 4096 == d0;
  }

  lemma Digits4(p: nat, d0: nat, d1: nat, d2: nat, d3: nat)
    requires d0 < 8 && d1 < 64 && d2 < 64 && d3 < 64
    requires p == ((d0 * 64 + d1) * 64 + d2) * 64 + d3
    ensures p <= 0x10FFFF && d0 == 0 && d1 < 0x10 ==> |Encode(p)| < 4
    ensures p <= 0x10FFFF && (d0 > 0 || d1 >= 0x10) ==> Encode(p) == [0xF0 + d0, 0x80 + d1, 0x80 + d2, 0x80 + d3]
  {
    var q := d0 * 64 + d1;
    assert p / 64 == q * 64 + d2;
    assert p / 4096 == q && p / 262144 == d0;
  }

  // ---------------------------------------------------------------------------------
  // TinyXML's encoder
  // ---------------------------------------------------------------------------------

  /** Four groups of six bits, the highest first. */
  function Recomposed(a: nat, b: nat, c: nat, d: nat): nat {
    ((a * 64 + b) * 64 + c) * 64 + d
  }

  lemma RecomposedGroups(p: nat)
    ensures p / 64 / 64 == p / 4096 && p / 4096 / 64 == p / 262144
    ensures Recomposed(p / 262144, p / 4096 % 64, p / 64 % 64, p % 64) == p
  {
    var q := p / 64;
    assert p == q * 64 + p % 64;
    assert q == q / 64 * 64 + q % 64;
  }

  /**
    TiXmlBase::ConvertUTF32ToUTF8: fills the bytes from the last one back, six bits at a time;
    gives up, with no bytes at all, above 21 bits.
   */
  method ConvertUtf32ToUtf8(input: nat) returns (output: seq<Byte>)
    ensures input >= 0x200000 ==> output == []
    ensures input <= 0x10FFFF ==> output == Encode(input)
    ensures 0x10000 <= input < 0x200000 ==>
      && |output| == 4 && output[0] >= 0xF0 && (forall i :: 1 <= i < 4 ==> 0x80 <= output[i] < 0xC0)
      && Recomposed(output[0] - 0xF0, output[1] - 0x80, output[2] - 0x80, output[3] - 0x80) == input
  {
    var length;
    if input < 0x80 {
      length := 1;
    } else if input < 0x800 {
      length := 2;
    } else if input < 0x10000 {
      length := 3;
    } else if input < 0x200000 {
      length := 4;
    } else {
      return [];
    }
    RecomposedGroups(input);
    var rest := input;
    output := [];
    if length == 4 {
      output := [0x80 + rest % 64] + output;
      rest := rest / 64;
    }
    if length >= 3 {
      output := [0x80 + rest % 64] + output;
      rest := rest / 64;
    }
    if length >= 2 {
      output := [0x80 + rest % 64] + output;
      rest := rest / 64;
    }
    assert rest == if length == 1 then input else if length == 2 then input / 64
      else if length == 3 then input / 4096 else input / 262144;
    var mark := [0x00, 0x00, 0xC0, 0xE0, 0xF0][length];
    output := [mark + rest] + output;
  }
}
