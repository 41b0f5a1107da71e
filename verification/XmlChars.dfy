/**
  What TinyXML makes of single characters, written out: what is escaped and how, what each
  kind of reference stands for and which fail, what white space is and what a name.
 */
module XmlChars {
  import opened XmlText
  import opened XmlRead

  // ---------------------------------------------------------------------------------
  // Numeric references
  // ---------------------------------------------------------------------------------

  function Power(base: nat, n: nat): nat {
    if n == 0 then 1 else base * Power(base, n - 1)
  }

  /** The number that digits of these values stand for, the first with the highest weight. */
  function Positional(ds: seq<nat>, base: nat): nat {
    if ds == [] then 0 else ds[0] * Power(base, |ds| - 1) + Positional(ds[1..], base)
  }

  lemma {:induction false} PositionalLast(ds: seq<nat>, base: nat)
    requires ds != []
    ensures Positional(ds, base) == Positional(ds[..|ds| - 1], base) * base + ds[|ds| - 1]
    decreases |ds|
  {
    var n := |ds| - 1;
    if n == 0 {
      assert Positional(ds[1..], base) == 0 && ds[..0] == [];
    } else {
      PositionalLast(ds[1..], base);
      assert ds[1..][..n - 1] == ds[..n][1..];
      var high, low := ds[0] * Power(base, n - 1), Positional(ds[..n][1..], base);
      assert ds[0] * Power(base, n) == high * base;
      assert (high + low) * base == high * base + low * base;
    }
  }

  /** The characters are digits with these values: 0 to 9, or 0 to 9 and a to f in either case. */
  predicate Decimals(d: string, ds: seq<nat>) {
    |d| == |ds| && forall i :: 0 <= i < |d| ==> ds[i] < 10 && d[i] == "0123456789"[ds[i]]
  }

  predicate Hexadecimals(d: string, ds: seq<nat>) {
    && |d| == |ds|
    && forall i :: 0 <= i < |d| ==> ds[i] < 16 && d[i] in ["0123456789abcdef"[ds[i]], "0123456789ABCDEF"[ds[i]]]
  }

  lemma DecimalIs(c: char, v: nat)
    requires v < 10 && c == "0123456789"[v]
    ensures Digit(c, 10) == v && c != ';' && c != '#' && c != 'x'
  {
  }

  lemma HexadecimalIs(c: char, v: nat)
    requires v < 16 && c in ["0123456789abcdef"[v], "0123456789ABCDEF"[v]]
    ensures Digit(c, 16) == v && c != ';' && c != 'x'
  {
    if v < 10 {
      assert c == "0123456789"[v];
    } else {
      assert c == "abcdef"[v - 10] || c == "ABCDEF"[v - 10];
    }
  }

  lemma {:induction false} NumberIsPositional(d: string, ds: seq<nat>, base: nat)
    requires |d| == |ds| && forall i :: 0 <= i < |d| ==> Digit(d[i], base) == ds[i]
    ensures AllDigits(d, base) && Number(d, base) == Positional(ds, base)
    decreases |d|
  {
    if d != "" {
      var n := |d| - 1;
      NumberIsPositional(d[..n], ds[..n], base);
      PositionalLast(ds, base);
    }
  }

  lemma {:induction false} FindsFirst(s: string, c: char, from: nat, k: nat)
    requires from <= k < |s| && s[k] == c && forall i :: from <= i < k ==> s[i] != c
    ensures Find(s, c, from) == k
    decreases k - from
  {
    if from < k {
      FindsFirst(s, c, from + 1, k);
    }
  }

  lemma {:induction false} FindsNone(s: string, c: char, from: nat)
    requires from <= |s| && forall i :: from <= i < |s| ==> s[i] != c
    ensures Find(s, c, from) == -1
    decreases |s| - from
  {
    if from < |s| {
      FindsNone(s, c, from + 1);
    }
  }

  lemma {:induction false} FindsLast(s: string, c: char, limit: nat, k: nat)
    requires k < limit <= |s| && s[k] == c && forall i :: k < i < limit ==> s[i] != c
    ensures FindBack(s, c, limit) == k
    decreases limit
  {
    if k < limit - 1 {
      FindsLast(s, c, limit - 1, k);
    }
  }

  lemma Pieces(start: string, d: string, rest: string)
    ensures var s, k := start + (d + (";" + rest)), |start| + |d|;
            && |s| > k && s[k] == ';' && s[|start|..k] == d && s[k + 1..] == rest && s[..|start|] == start
            && forall i :: |start| <= i < k ==> s[i] in d
  {
    var s, k := start + (d + (";" + rest)), |start| + |d|;
    assert s[|start|..] == d + (";" + rest);
    assert s[k..] == ";" + rest;
    forall i | |start| <= i < k
      ensures s[i] in d
    {
      assert s[i] == d[i - |start|];
    }
  }

  /** What is between the start of a reference and its semicolon. */
  lemma ReferenceParts(start: string, stop: char, d: string, rest: string)
    requires start != "" && start[|start| - 1] == stop && ';' !in d && stop !in d
    ensures var s, k := start + (d + (";" + rest)), |start| + |d|;
            && |s| > k && Find(s, ';', |start|) == k && FindBack(s, stop, k) == |start| - 1
            && s[|start|..k] == d && s[k + 1..] == rest && s[..|start|] == start
  {
    var s, k := start + (d + (";" + rest)), |start| + |d|;
    Pieces(start, d, rest);
    FindsFirst(s, ';', |start|, k);
    assert s[|start| - 1] == start[|start| - 1];
    FindsLast(s, stop, k, |start| - 1);
  }

  /** A decimal reference is the character of its value, of which the low byte counts. */
  lemma DecimalReference(d: string, ds: seq<nat>, rest: string)
    requires Decimals(d, ds)
    ensures Entity("&#" + (d + (";" + rest))) == Read(At(rest), [(Positional(ds, 10) % 256) as char])
  {
    var s := "&#" + (d + (";" + rest));
    forall i | 0 <= i < |d|
      ensures Digit(d[i], 10) == ds[i] && d[i] != ';' && d[i] != '#' && d[i] != 'x'
    {
      DecimalIs(d[i], ds[i]);
    }
    ReferenceParts("&#", '#', d, rest);
    assert s[2] == if d == "" then ';' else d[0];
    NumberIsPositional(d, ds, 10);
  }

  /** So is a hexadecimal one. */
  lemma HexadecimalReference(d: string, ds: seq<nat>, rest: string)
    requires Hexadecimals(d, ds)
    ensures Entity("&#x" + (d + (";" + rest))) == Read(At(rest), [(Positional(ds, 16) % 256) as char])
  {
    forall i | 0 <= i < |d|
      ensures Digit(d[i], 16) == ds[i] && d[i] != ';' && d[i] != 'x'
    {
      HexadecimalIs(d[i], ds[i]);
    }
    ReferenceParts("&#x", 'x', d, rest);
    NumberIsPositional(d, ds, 16);
  }

  /** Any other character among the digits makes the reference fail, and reading with it. */
  lemma NotDecimal(d: string, i: nat, rest: string)
    requires i < |d| && d[i] !in "0123456789" && d[0] != 'x' && ';' !in d && '#' !in d
    ensures Entity("&#" + (d + (";" + rest))) == Read(None, "")
  {
    var s := "&#" + (d + (";" + rest));
    ReferenceParts("&#", '#', d, rest);
    assert s[2] == d[0];
    assert Digit(d[i], 10) < 0;
  }

  lemma NotHexadecimal(d: string, i: nat, rest: string)
    requires i < |d| && d[i] !in "0123456789abcdefABCDEF" && ';' !in d && 'x' !in d
    ensures Entity("&#x" + (d + (";" + rest))) == Read(None, "")
  {
    ReferenceParts("&#x", 'x', d, rest);
    assert Digit(d[i], 16) < 0;
  }

  /** So does a missing semicolon. */
  lemma NoSemicolon(d: string)
    requires d != "" && ';' !in d
    ensures Entity("&#" + d) == Read(None, "")
  {
    var s := "&#" + d;
    assert forall i :: 2 <= i < |s| ==> s[i] == d[i - 2] && d[i - 2] in d;
    FindsNone(s, ';', 2);
    if |s| > 3 {
      FindsNone(s, ';', 3);
    }
  }

  /** An entity of no known name loses its ampersand, and what follows is read as text. */
  lemma UnknownEntity(s: string)
    requires s == "" || s[0] != '#'
    requires !("amp;" <= s) && !("lt;" <= s) && !("gt;" <= s) && !("quot;" <= s) && !("apos;" <= s)
    ensures Entity("&" + s) == Read(At(s), "")
  {
    var t := "&" + s;
    assert t[1..] == s;
    NotNamed(s, "amp;");
    NotNamed(s, "lt;");
    NotNamed(s, "gt;");
    NotNamed(s, "quot;");
    NotNamed(s, "apos;");
  }

  lemma NotNamed(s: string, e: string)
    requires !(e <= s)
    ensures !("&" + e <= "&" + s)
  {
    assert ("&" + e)[1..] == e && ("&" + s)[1..] == s;
  }

  // ---------------------------------------------------------------------------------
  // Escaping
  // ---------------------------------------------------------------------------------

  predicate PlainSign(c: char) {
    c >= ' ' && c != '&' && c != '<' && c != '>' && c != '\"' && c != '\''
  }

  lemma EncodeSign(c: char, rest: string)
    requires PlainSign(c)
    ensures Encode([c] + rest) == [c] + Encode(rest)
  {
    assert ([c] + rest)[1..] == rest;
    assert Escape(c) == [c];
  }

  lemma JoinFirst(v: string, rest: string)
    requires v != ""
    ensures v + rest == [v[0]] + (v[1..] + rest)
  {
  }

  /** Everything else is written as it is. */
  lemma {:induction false} EncodePlain(v: string, rest: string)
    requires forall i :: 0 <= i < |v| ==> PlainSign(v[i])
    ensures Encode(v + rest) == v + Encode(rest)
    decreases |v|
  {
    if v == "" {
      assert v + rest == rest;
    } else {
      EncodePlain(v[1..], rest);
      JoinFirst(v, rest);
      EncodeSign(v[0], v[1..] + rest);
      JoinFirst(v, Encode(rest));
    }
  }

  /** The five characters with names, an ampersand unless it starts a hexadecimal reference. */
  lemma EncodeNamed(rest: string)
    ensures !("#x" <= rest) ==> Encode("&" + rest) == "&amp;" + Encode(rest)
    ensures Encode("<" + rest) == "&lt;" + Encode(rest)
    ensures Encode(">" + rest) == "&gt;" + Encode(rest)
    ensures Encode("\"" + rest) == "&quot;" + Encode(rest)
    ensures Encode("'" + rest) == "&apos;" + Encode(rest)
  {
    assert ("&" + rest)[1..] == rest && ("<" + rest)[1..] == rest && (">" + rest)[1..] == rest;
    assert ("\"" + rest)[1..] == rest && ("'" + rest)[1..] == rest;
    if HexReference("&" + rest) {
      assert rest[..2] == "#x";
    }
  }

  /** Control characters as references of two upper-case digits. */
  lemma EncodeControl(c: char, rest: string)
    requires c < ' '
    ensures var h, l := "0123456789ABCDEF"[c as int / 16], "0123456789ABCDEF"[c as int % 16];
            Encode([c] + rest) == ['&', '#', 'x', h, l, ';'] + Encode(rest)
  {
    assert ([c] + rest)[1..] == rest;
    ControlEscape(c);
  }

  /** A hexadecimal reference with its semicolon is written as it is, whatever is in it. */
  lemma EncodeReference(d: string, rest: string)
    requires ';' !in d
    ensures Encode("&#x" + d + ";" + rest) == "&#x" + d + ";" + Encode(rest)
  {
    var s, n := "&#x" + d + ";" + rest, 3 + |d|;
    assert forall i :: 0 <= i < |d| ==> s[3 + i] == d[i] && d[i] in d;
    CopiesTo(s, 0, n);
    assert s[..n] == "&#x" + d && s[n..] == ";" + rest;
    EncodePlain(";", rest);
    Reassociate("&#x" + d, ";", Encode(rest));
  }

  /** Without a semicolon everything but the last character is. */
  lemma EncodeOpenReference(d: string)
    requires ';' !in d
    ensures var s := "&#x" + d; Encode(s) == s[..|s| - 1] + Encode(s[|s| - 1..])
  {
    var s := "&#x" + d;
    assert forall i :: 0 <= i < |d| ==> s[3 + i] == d[i] && d[i] in d;
    CopiesAll(s, 0);
  }

  lemma {:induction false} CopiesAll(s: string, i: nat)
    requires i < |s| && forall j :: i < j < |s| ==> s[j] != ';'
    ensures CopyLength(s, i) == |s| - 1
    decreases |s| - i
  {
    if i + 1 < |s| {
      CopiesAll(s, i + 1);
    }
  }

  lemma {:induction false} CopiesTo(s: string, i: nat, n: nat)
    requires i < n < |s| && s[n] == ';' && forall j :: i < j < n ==> s[j] != ';'
    ensures CopyLength(s, i) == n
    decreases n - i
  {
    if i + 1 < n {
      CopiesTo(s, i + 1, n);
    }
  }

  // ---------------------------------------------------------------------------------
  // White space and names
  // ---------------------------------------------------------------------------------

  /** Tabs, line feeds, vertical tabs, form feeds, carriage returns and spaces. */
  predicate Spaces(w: string) {
    forall i :: 0 <= i < |w| ==> w[i] as int in {9, 10, 11, 12, 13, 32}
  }

  /** Exactly these are skipped. */
  lemma SkipsSpaces(w: string, c: char, rest: string)
    requires Spaces(w) && c as int !in {9, 10, 11, 12, 13, 32}
    ensures SkipSpace(At(w + ([c] + rest))) == At([c] + rest)
    ensures SkipSpace(At(w)) == if w == "" then None else At("")
  {
    DropBlank(w, [c] + rest);
    DropBlank(w, "");
    assert w + "" == w;
  }

  /** Letters, digits, the four signs, and every byte from 127 on. */
  predicate NameSign(c: char) {
    'a' <= c <= 'z' || 'A' <= c <= 'Z' || '0' <= c <= '9' || c in "_-.:" || c as int >= 127
  }

  /** A name starts with none of the digits and signs but the underscore, and is read to its end. */
  lemma ReadsSigns(name: string, rest: string)
    requires name != "" && (forall i :: 0 <= i < |name| ==> NameSign(name[i])) && (rest != "" ==> !NameSign(rest[0]))
    ensures Name(At(name + rest)) == if name[0] in "0123456789-.:" then Read(None, "") else Read(At(rest), name)
  {
    assert (name + rest)[0] == name[0];
    if name[0] !in "0123456789-.:" {
      ReadsName(name, rest);
    }
  }
}
