/**
  The scanning functions of tinyxmlparser.cpp: white space, names, and text up to an end
  marker. Each loop is proved equal to a recursive description of what it reads, and reading
  is proved to undo `XmlText.Encode`.
 */
module XmlRead {
  import opened XmlText

  // ---------------------------------------------------------------------------------
  // White space and names
  // ---------------------------------------------------------------------------------

  function DropSpace(s: string): (r: string)
    ensures |r| <= |s|
    ensures r != "" ==> !IsWhiteSpace(r[0])
  {
    if s != "" && IsWhiteSpace(s[0]) then DropSpace(s[1..]) else s
  }

  /** A null pointer, or one at the end of the text, gives a null pointer. */
  function SkipSpace(p: Ptr): (r: Ptr)
    ensures r.At? ==> p.At? && |r.text| <= |p.text|
    ensures r.Live() ==> !IsWhiteSpace(r.text[0])
  {
    if p.Live() then At(DropSpace(p.text)) else None
  }

  /** SkipWhiteSpace. */
  method SkipWhiteSpace(p: Ptr) returns (r: Ptr)
    ensures r == SkipSpace(p)
  {
    if !p.Live() {
      return None;
    }
    var s := p.text;
    while s != "" && IsWhiteSpace(s[0])
      invariant DropSpace(s) == DropSpace(p.text)
      decreases |s|
    {
      s := s[1..];
    }
    return At(s);
  }

  /** The longest run of name characters at the front. */
  function NameLength(s: string): (n: nat)
    ensures n <= |s|
    ensures forall i :: 0 <= i < n ==> IsNameChar(s[i])
    ensures n < |s| ==> !IsNameChar(s[n])
  {
    if s != "" && IsNameChar(s[0]) then 1 + NameLength(s[1..]) else 0
  }

  function Name(p: Ptr): (r: Read)
    ensures r.next.At? ==> p.At? && |r.next.text| < |p.text|
  {
    if p.Live() && IsNameStart(p.text[0]) then
      var n := NameLength(p.text);
      Read(At(p.text[n..]), p.text[..n])
    else Read(None, "")
  }

  /** ReadName. */
  method ReadName(p: Ptr) returns (r: Read)
    ensures r == Name(p)
  {
    if p.Live() && IsNameStart(p.text[0]) {
      var n := 0;
      while n < |p.text| && IsNameChar(p.text[n])
        invariant 0 <= n <= |p.text|
        invariant NameLength(p.text) == n + NameLength(p.text[n..])
      {
        assert p.text[n..][1..] == p.text[n + 1..];
        n := n + 1;
      }
      return Read(At(p.text[n..]), p.text[..n]);
    }
    return Read(None, "");
  }

  predicate ValidName(name: string) {
    name != "" && IsNameStart(name[0]) && forall i :: 0 <= i < |name| ==> IsNameChar(name[i])
  }

  lemma {:induction false} NameLengthOf(name: string, rest: string)
    requires forall i :: 0 <= i < |name| ==> IsNameChar(name[i])
    requires rest != "" ==> !IsNameChar(rest[0])
    ensures NameLength(name + rest) == |name|
    decreases |name|
  {
    var s := name + rest;
    if name != "" {
      assert s[1..] == name[1..] + rest;
      NameLengthOf(name[1..], rest);
    } else {
      assert s == rest;
    }
  }

  /** A valid name is read back in full. */
  lemma ReadsName(name: string, rest: string)
    requires ValidName(name)
    requires rest != "" ==> !IsNameChar(rest[0])
    ensures Name(At(name + rest)) == Read(At(rest), name)
  {
    NameLengthOf(name, rest);
    assert (name + rest)[|name|..] == rest && (name + rest)[..|name|] == name;
  }

  lemma {:induction false} EncodeName(name: string)
    requires forall i :: 0 <= i < |name| ==> IsNameChar(name[i])
    ensures Encode(name) == name
    decreases |name|
  {
    if name != "" {
      EncodeName(name[1..]);
      assert Escape(name[0]) == [name[0]];
      assert name == [name[0]] + name[1..];
    }
  }

  // ---------------------------------------------------------------------------------
  // Text
  // ---------------------------------------------------------------------------------

  function Size(p: Ptr): nat {
    if p.None? then 0 else 1 + |p.text|
  }

  /** The characters up to the end marker, entities expanded, white space kept. */
  function Keep(p: Ptr, end: string): (r: Read)
    ensures r.next.At? ==> p.At? && |r.next.text| <= |p.text|
    ensures r.next.Live() ==> end <= r.next.text
    decreases Size(p)
  {
    if !p.Live() || end <= p.text then Read(p, "")
    else
      var c := GetChar(p.text);
      var r := Keep(c.next, end);
      Read(r.next, c.text + r.text)
  }

  /** The same with every run of white space read as one space, and none at the end. */
  function Condense(p: Ptr, end: string, space: bool): (r: Read)
    ensures r.next.At? ==> p.At? && |r.next.text| <= |p.text|
    ensures r.next.Live() ==> end <= r.next.text
    decreases Size(p)
  {
    if !p.Live() || end <= p.text then Read(p, "")
    else if IsWhiteSpace(p.text[0]) then Condense(At(p.text[1..]), end, true)
    else
      var c := GetChar(p.text);
      var r := Condense(c.next, end, false);
      Read(r.next, (if space then " " else "") + c.text + r.text)
  }

  /** Steps over the end marker; a pointer to the end of the text becomes a null pointer. */
  function StepOver(p: Ptr, end: string): (r: Ptr)
    requires p.Live() ==> end <= p.text
    ensures r.At? ==> p.At? && |r.text| + |end| == |p.text|
  {
    if p.Live() && p.text[|end|..] != "" then At(p.text[|end|..]) else None
  }

  function TextTo(p: Ptr, trim: bool, end: string): (r: Read)
    ensures r.next.At? ==> r.next.Live() && p.At? && |r.next.text| + |end| <= |p.text|
  {
    var r := if trim then Condense(SkipSpace(p), end, false) else Keep(p, end);
    Read(StepOver(r.next, end), r.text)
  }

  /** What is read after `text` has been. */
  function After(text: string, r: Read): Read {
    Read(r.next, text + r.text)
  }

  lemma KeepStep(text: string, p: Ptr, end: string)
    requires p.Live() && !(end <= p.text)
    ensures var c := GetChar(p.text);
            After(text, Keep(p, end)) == After(text + c.text, Keep(c.next, end))
  {
  }

  lemma CondenseSkip(text: string, p: Ptr, end: string, space: bool)
    requires p.Live() && !(end <= p.text) && IsWhiteSpace(p.text[0])
    ensures After(text, Condense(p, end, space)) == After(text, Condense(At(p.text[1..]), end, true))
  {
  }

  lemma CondenseStep(text: string, p: Ptr, end: string, space: bool)
    requires p.Live() && !(end <= p.text) && !IsWhiteSpace(p.text[0])
    ensures var c := GetChar(p.text);
            After(text, Condense(p, end, space)) ==
            After(text + (if space then " " else "") + c.text, Condense(c.next, end, false))
  {
    var c := GetChar(p.text);
    var gap, r := (if space then " " else ""), Condense(c.next, end, false);
    assert Condense(p, end, space) == Read(r.next, gap + c.text + r.text);
    assert text + (gap + c.text + r.text) == text + gap + c.text + r.text;
  }

  /** GetChar, outside UTF-8. */
  method NextChar(s: string) returns (r: Read)
    requires s != ""
    ensures r == GetChar(s)
  {
    if s[0] == '&' {
      r := GetEntity(s);
    } else {
      r := Read(At(s[1..]), [s[0]]);
    }
  }

  /** ReadText, while white space is condensed (the default). */
  method ReadText(p: Ptr, trim: bool, end: string) returns (r: Read)
    ensures r == TextTo(p, trim, end)
  {
    if trim {
      var q := SkipWhiteSpace(p);
      r := ReadCondensed(q, end);
    } else {
      r := ReadKept(p, end);
    }
    return Read(StepOver(r.next, end), r.text);
  }

  method ReadKept(p: Ptr, end: string) returns (r: Read)
    ensures r == Keep(p, end)
  {
    var q, text := p, "";
    while q.Live() && !(end <= q.text)
      invariant After(text, Keep(q, end)) == Keep(p, end)
      decreases Size(q)
    {
      KeepStep(text, q, end);
      var c := NextChar(q.text);
      q, text := c.next, text + c.text;
    }
    return Read(q, text);
  }

  method ReadCondensed(p: Ptr, end: string) returns (r: Read)
    ensures r == Condense(p, end, false)
  {
    var q, text, space := p, "", false;
    while q.Live() && !(end <= q.text)
      invariant After(text, Condense(q, end, space)) == Condense(p, end, false)
      decreases Size(q)
    {
      if IsWhiteSpace(q.text[0]) {
        CondenseSkip(text, q, end, space);
        space := true;
        q := At(q.text[1..]);
      } else {
        CondenseStep(text, q, end, space);
        if space {
          text := text + " ";
          space := false;
        } else {
          assert text + "" == text;
        }
        var c := NextChar(q.text);
        q, text := c.next, text + c.text;
      }
    }
    return Read(q, text);
  }

  // ---------------------------------------------------------------------------------
  // Reading what was written
  // ---------------------------------------------------------------------------------

  /** No hexadecimal reference anywhere: the only text `Encode` passes through unescaped. */
  predicate NoReference(s: string) {
    forall i :: 0 <= i <= |s| ==> !HexReference(s[i..])
  }

  lemma NoReferenceTail(s: string)
    requires s != "" && NoReference(s)
    ensures NoReference(s[1..]) && !HexReference(s)
  {
    assert s[0..] == s;
    forall i | 0 <= i <= |s[1..]|
      ensures !HexReference(s[1..][i..])
    {
      assert s[1..][i..] == s[i + 1..];
    }
  }

  lemma EscapeFirst(c: char)
    ensures Escape(c)[0] == '&' || (Escape(c) == [c] && c !in "&<>\"'")
  {
  }

  lemma EncodeFirst(s: string)
    requires s != "" && !HexReference(s)
    ensures Encode(s) == Escape(s[0]) + Encode(s[1..])
  {
  }

  lemma EncodeCons(s: string, rest: string)
    requires s != "" && NoReference(s)
    ensures Encode(s) + rest == Escape(s[0]) + (Encode(s[1..]) + rest)
  {
    NoReferenceTail(s);
    EncodeFirst(s);
    Reassociate(Escape(s[0]), Encode(s[1..]), rest);
  }

  lemma Reassociate(a: string, b: string, c: string)
    ensures (a + b) + c == a + (b + c)
  {
  }

  /** An attribute value, written and read back up to its quote, is unchanged. */
  lemma {:induction false} KeepEncoded(v: string, quote: char, rest: string)
    requires NoReference(v) && quote in "\"'"
    ensures Keep(At(Encode(v) + ([quote] + rest)), [quote]) == Read(At([quote] + rest), v)
    decreases |v|
  {
    var tail := [quote] + rest;
    if v == "" {
      assert Encode(v) + tail == tail;
    } else {
      var after := Encode(v[1..]) + tail;
      EncodeCons(v, tail);
      NoReferenceTail(v);
      EscapeFirst(v[0]);
      GetEscaped(v[0], after);
      KeepEncoded(v[1..], quote, rest);
      var s := Escape(v[0]) + after;
      assert s[0] == Escape(v[0])[0];
      KeepStep("", At(s), [quote]);
      assert v == [v[0]] + v[1..];
    }
  }

  /** ReadText in whitespace-keeping mode gives back any value and stops right after the quote. */
  lemma ReadsValue(v: string, quote: char, rest: string)
    requires NoReference(v) && quote in "\"'"
    ensures TextTo(At(Encode(v) + ([quote] + rest)), false, [quote]) ==
            Read(if rest == "" then None else At(rest), v)
  {
    KeepEncoded(v, quote, rest);
    assert ([quote] + rest)[1..] == rest;
  }

  lemma {:induction false} CopyStops(s: string, i: nat)
    requires i < |s|
    ensures var n := CopyLength(s, i);
            && (forall j :: i < j < n ==> s[j] != ';')
            && (n == |s| - 1 || (n > i && s[n] == ';'))
    decreases |s| - i
  {
    if i + 1 < |s| && s[i + 1] != ';' {
      CopyStops(s, i + 1);
    }
  }

  lemma {:induction false} FindFirst(s: string, c: char, from: nat, k: nat)
    requires from <= k < |s| && s[k] == c && forall j :: from <= j < k ==> s[j] != c
    ensures Find(s, c, from) == k
    decreases k - from
  {
    if from < k {
      FindFirst(s, c, from + 1, k);
    }
  }

  /** Whatever is read at a reference up to its first semicolon. */
  lemma EntityAt(front: string, more: string)
    requires HexReference(front) && ';' !in front
    ensures var r := Entity(front + (";" + more)); |r.text| <= 1 && (r.next.None? || r.next == At(more))
  {
    var s, k := front + (";" + more), |front|;
    assert forall j :: 0 <= j < k ==> s[j] == front[j];
    FindFirst(s, ';', 3, k);
    assert s[k + 1..] == more;
  }

  lemma NotInFront(v: string, n: nat, c: char)
    requires n <= |v| && forall j :: 0 <= j < n ==> v[j] != c
    ensures c !in v[..n]
  {
  }

  /** What is copied of a reference holds no semicolon. */
  lemma CopiedPart(v: string, n: nat)
    requires HexReference(v) && n == CopyLength(v, 0)
    ensures n == |v| - 1 || v[n] == ';'
    ensures n >= 2 && (v[n] == ';' ==> n >= 3) && ';' !in v[..n]
  {
    CopyStops(v, 0);
    NotInFront(v, n, ';');
  }

  lemma EncodeCopied(v: string, n: nat)
    requires HexReference(v) && n == CopyLength(v, 0) && n > 0
    ensures Encode(v) == v[..n] + Encode(v[n..])
  {
  }

  /** A reference with a semicolon. */
  lemma ReadsTerminated(v: string, n: nat, tail: string)
    requires HexReference(v) && n == CopyLength(v, 0) && v[n] == ';'
    ensures n >= 3
    ensures var r := Entity(Encode(v) + tail);
            |r.text| <= 1 && (r.next.None? || r.next == At(Encode(v[n + 1..]) + tail))
  {
    var more := Encode(v[n + 1..]);
    CopiedPart(v, n);
    EncodeTerminated(v, n);
    Reassociate(v[..n], ";" + more, tail);
    Reassociate(";", more, tail);
    EntityAt(v[..n], more + tail);
  }

  lemma EncodeTerminated(v: string, n: nat)
    requires HexReference(v) && n == CopyLength(v, 0) && 0 < n < |v| && v[n] == ';'
    ensures Encode(v) == v[..n] + (";" + Encode(v[n + 1..]))
  {
    EncodeCopied(v, n);
    EncodeSemicolon(v[n..]);
    TailOfTail(v, n);
  }

  lemma EncodeSemicolon(w: string)
    requires w != "" && w[0] == ';'
    ensures Encode(w) == ";" + Encode(w[1..])
  {
  }

  lemma TailOfTail(v: string, n: nat)
    requires n < |v|
    ensures v[n..][1..] == v[n + 1..]
  {
  }

  /** An escaped character is the character or ends in its only semicolon. */
  lemma EscapeEnds(c: char) returns (front: string)
    requires c != ';'
    ensures ';' !in front && Escape(c) == if |Escape(c)| == 1 then front else front + ";"
    ensures |Escape(c)| == 1 ==> front == [c]
  {
    var e := Escape(c);
    if |e| == 1 {
      front := e;
    } else {
      front := e[..|e| - 1];
      assert e[|e| - 1] == ';';
      NotInFront(e, |e| - 1, ';');
    }
  }

  /** The last character of a reference without one, escaped. */
  lemma EncodeOpen(v: string, n: nat)
    requires HexReference(v) && n == CopyLength(v, 0) && v[n] != ';'
    ensures n == |v| - 1 && n >= 2 && ';' !in v && Encode(v) == v[..n] + Escape(v[n])
    ensures |Escape(v[n])| > 1 ==> n >= 3
  {
    CopiedPart(v, n);
    EncodeCopied(v, n);
    EncodeFirst(v[n..]);
    assert v[n..][1..] == "" && Encode("") == "";
    assert v == v[..n] + [v[n]];
  }

  lemma JoinOpen(a: string, front: string, tail: string)
    ensures (a + (front + ";")) + tail == (a + front) + (";" + tail)
  {
  }

  /** A reference that the text does not end is read up to a semicolon behind what follows it, or not at all. */
  lemma EntityBeyond(v: string, front: string, rest: string)
    requires HexReference(v) && ';' !in v && ';' !in front
    ensures var r := Entity(v + (front + rest));
            |r.text| <= 1 && (r.next.At? ==> |r.next.text| < |rest|)
  {
    var s, n := v + (front + rest), |v| + |front|;
    assert forall i :: 0 <= i < n ==> s[i] != ';' by {
      assert forall i :: 0 <= i < |v| ==> s[i] == v[i];
      assert forall i :: |v| <= i < n ==> s[i] == front[i - |v|];
    }
    FindBehind(s, 3, n);
  }

  lemma {:induction false} FindBehind(s: string, from: nat, n: nat)
    requires from <= |s| && n <= |s| && forall i :: from <= i < n ==> s[i] != ';'
    ensures var k := Find(s, ';', from); k == -1 || k >= n
    decreases |s| - from
  {
    if from < n {
      FindBehind(s, from + 1, n);
    }
  }

  /**
    A reference without a semicolon at the end of a text: its last character brings one, or the
    reading goes on behind what follows the text.
   */
  lemma ReadsOpen(v: string, n: nat, front: string, rest: string)
    requires HexReference(v) && n == CopyLength(v, 0) && v[n] != ';' && ';' !in front
    ensures var r := Entity(Encode(v) + (front + rest));
            |r.text| <= 1 && (r.next.None? || r.next == At(front + rest) || |r.next.text| < |rest|)
  {
    EncodeOpen(v, n);
    var last := EscapeEnds(v[n]);
    if |Escape(v[n])| == 1 {
      assert v[..n] + last == v;
      EntityBeyond(v, front, rest);
    } else {
      JoinOpen(v[..n], last, front + rest);
      EntityAt(v[..n] + last, front + rest);
    }
  }

  /** A reading that stops behind what follows the text, or nowhere. */
  predicate GoesPast(r: Read, rest: string) {
    rest != "" && (r.next.None? || |r.next.text| <= |rest|)
  }

  /**
    A value is read past the quote that ends it, or it comes back no longer, and with a
    reference in it shorter.
   */
  lemma {:induction false} KeepLength(v: string, quote: char, rest: string)
    requires quote in "\"'"
    ensures var r := Keep(At(Encode(v) + ([quote] + rest)), [quote]);
            GoesPast(r, rest) || (|r.text| <= |v| && (!NoReference(v) ==> |r.text| < |v|))
    decreases |v|
  {
    var tail := [quote] + rest;
    var s := Encode(v) + tail;
    if v == "" {
      assert s == tail;
    } else if HexReference(v) {
      var n := CopyLength(v, 0);
      EncodeStep(v);
      assert s[0] == '&' && !([quote] <= s);
      KeepStep("", At(s), [quote]);
      if v[n] == ';' {
        ReadsTerminated(v, n, tail);
        KeepLength(v[n + 1..], quote, rest);
      } else {
        ReadsOpen(v, n, [quote], rest);
      }
    } else {
      KeepFirst(v, quote, tail);
      KeepLength(v[1..], quote, rest);
      if NoReference(v[1..]) {
        NoReferenceCons(v);
      }
    }
  }

  lemma NoReferenceCons(v: string)
    requires v != "" && !HexReference(v) && NoReference(v[1..])
    ensures NoReference(v)
  {
    forall i | 0 <= i <= |v|
      ensures !HexReference(v[i..])
    {
      if i == 0 {
        assert v[0..] == v;
      } else {
        assert v[i..] == v[1..][i - 1..];
      }
    }
  }

  lemma KeepFirst(v: string, quote: char, tail: string)
    requires v != "" && !HexReference(v) && quote in "\"'"
    ensures var r := Keep(At(Encode(v[1..]) + tail), [quote]);
            Keep(At(Encode(v) + tail), [quote]) == Read(r.next, [v[0]] + r.text)
  {
    var after := Encode(v[1..]) + tail;
    var s := Escape(v[0]) + after;
    EncodeFirst(v);
    Reassociate(Escape(v[0]), Encode(v[1..]), tail);
    EscapeFirst(v[0]);
    GetEscaped(v[0], after);
    assert s[0] == Escape(v[0])[0];
  }

  /** A value written, then read up to its quote, comes back whole and the reading stops right after the quote. */
  predicate ReadsBack(v: string, quote: char, rest: string) {
    TextTo(At(Encode(v) + ([quote] + rest)), false, [quote]) == Read(if rest == "" then None else At(rest), v)
  }

  /** A value comes back, whatever follows it, exactly when it holds no hexadecimal reference. */
  lemma ReadsValueExactly(v: string, quote: char, rest: string)
    requires quote in "\"'"
    ensures ReadsBack(v, quote, rest) <==> NoReference(v)
  {
    if NoReference(v) {
      ReadsValue(v, quote, rest);
    } else {
      KeepLength(v, quote, rest);
    }
  }

  lemma ReferenceIsExpanded()
    ensures !ReadsBack("&#x41;", '\"', "")
  {
    var v := "&#x41;";
    assert HexReference(v[0..]);
    ReadsValueExactly(v, '\"', "");
  }

  // ---------------------------------------------------------------------------------
  // Text between tags
  // ---------------------------------------------------------------------------------

  /** What is left of a text when runs of spaces shrink to one and the last one goes. */
  function Squeeze(v: string, space: bool): string {
    if v == "" then ""
    else if v[0] == ' ' then Squeeze(v[1..], true)
    else (if space then " " else "") + [v[0]] + Squeeze(v[1..], false)
  }

  function DropBlanks(v: string): string {
    if v != "" && v[0] == ' ' then DropBlanks(v[1..]) else v
  }

  function Condensed(v: string): string {
    Squeeze(DropBlanks(v), false)
  }

  lemma {:induction false} CondenseBlank(w: string, space: bool, rest: string)
    requires IsBlank(w)
    ensures Condense(At(w + ("<" + rest)), "<", space) == Read(At("<" + rest), "")
    decreases |w|
  {
    var s := w + ("<" + rest);
    if w == "" {
      assert s == "<" + rest;
    } else {
      assert s[1..] == w[1..] + ("<" + rest);
      assert s[0] == w[0] && !("<" <= s);
      CondenseBlank(w[1..], true, rest);
    }
  }

  /** One escaped character that is no space, read in condensing mode. */
  lemma CondenseEscaped(c: char, after: string, space: bool)
    requires c != ' '
    ensures var r := Condense(At(after), "<", false);
            Condense(At(Escape(c) + after), "<", space) == Read(r.next, (if space then " " else "") + [c] + r.text)
  {
    var s := Escape(c) + after;
    EscapeFirst(c);
    assert s[0] == Escape(c)[0] && !("<" <= s);
    assert !IsWhiteSpace(s[0]);
    GetEscaped(c, after);
  }

  lemma CondenseSpace(after: string, space: bool)
    ensures Condense(At(Escape(' ') + after), "<", space) == Condense(At(after), "<", true)
  {
    var s := Escape(' ') + after;
    assert s[0] == ' ' && s[1..] == after && !("<" <= s);
  }

  lemma {:induction false} CondenseEncoded(v: string, space: bool, w: string, rest: string)
    requires NoReference(v) && IsBlank(w)
    ensures Condense(At(Encode(v) + (w + ("<" + rest))), "<", space) == Read(At("<" + rest), Squeeze(v, space))
    decreases |v|
  {
    var tail := w + ("<" + rest);
    if v == "" {
      assert Encode(v) + tail == tail;
      CondenseBlank(w, space, rest);
    } else {
      var after := Encode(v[1..]) + tail;
      EncodeCons(v, tail);
      NoReferenceTail(v);
      CondenseEncoded(v[1..], v[0] == ' ', w, rest);
      if v[0] == ' ' {
        CondenseSpace(after, space);
      } else {
        CondenseEscaped(v[0], after, space);
      }
    }
  }

  /** White space in front is skipped up to anything that is not. */
  lemma {:induction false} DropBlank(w: string, s: string)
    requires IsBlank(w)
    ensures DropSpace(w + s) == DropSpace(s)
    decreases |w|
  {
    if w == "" {
      assert w + s == s;
    } else {
      assert (w + s)[1..] == w[1..] + s;
      DropBlank(w[1..], s);
    }
  }

  lemma {:induction false} DropSpaceEncoded(v: string, w: string, rest: string)
    requires IsBlank(w)
    ensures var d := DropBlanks(v);
            && (NoReference(d) <==> NoReference(v))
            && DropSpace(Encode(v) + (w + ("<" + rest)))
               == if d == "" then "<" + rest else Encode(d) + (w + ("<" + rest))
    decreases |v|
  {
    var tail := w + ("<" + rest);
    if v == "" {
      assert Encode(v) + tail == tail;
      DropBlank(w, "<" + rest);
    } else if v[0] == ' ' {
      EncodeFirst(v);
      DropBlank(" ", Encode(v[1..]) + tail);
      Reassociate(" ", Encode(v[1..]), tail);
      DropSpaceEncoded(v[1..], w, rest);
      if NoReference(v[1..]) {
        NoReferenceCons(v);
      } else {
        assert !NoReference(v) by {
          if NoReference(v) {
            NoReferenceTail(v);
          }
        }
      }
    } else {
      FirstIsNoSpace(v, tail);
    }
  }

  lemma FirstIsNoSpace(v: string, tail: string)
    requires v != "" && v[0] != ' '
    ensures DropSpace(Encode(v) + tail) == Encode(v) + tail
  {
    EncodeStep(v);
    EscapeFirst(v[0]);
    assert (Encode(v) + tail)[0] == Encode(v)[0];
  }

  /** Text between tags comes back condensed, whatever white space follows it. */
  lemma ReadsText(v: string, w: string, rest: string)
    requires NoReference(v) && IsBlank(w)
    ensures TextTo(At(Encode(v) + (w + ("<" + rest))), true, "<") ==
            Read(if rest == "" then None else At(rest), Condensed(v))
  {
    var d := DropBlanks(v);
    DropSpaceEncoded(v, w, rest);
    if d == "" {
      CondenseBlank("", false, rest);
      assert "" + ("<" + rest) == "<" + rest;
    } else {
      CondenseEncoded(d, false, w, rest);
    }
    assert ("<" + rest)[1..] == rest;
  }

  /** No space at the end and no two in a row, after `space` when one was just passed. */
  predicate Tidy(v: string, space: bool) {
    if v == "" then !space
    else if v[0] == ' ' then !space && Tidy(v[1..], true)
    else Tidy(v[1..], false)
  }

  lemma {:induction false} SqueezeLength(v: string, space: bool)
    ensures |Squeeze(v, space)| <= |v| + 1
    ensures !space ==> |Squeeze(v, space)| <= |v|
    decreases |v|
  {
    if v != "" {
      SqueezeLength(v[1..], v[0] == ' ');
    }
  }

  lemma {:induction false} SqueezeTidy(v: string, space: bool)
    ensures Squeeze(v, space) == (if space then " " else "") + v <==> Tidy(v, space)
    decreases |v|
  {
    if v != "" {
      var w, gap := v[1..], if space then " " else "";
      assert v == [v[0]] + w;
      if v[0] == ' ' {
        SqueezeTidy(w, true);
        SqueezeLength(w, true);
        if space {
          assert |gap + v| > |Squeeze(v, space)|;
        }
      } else {
        SqueezeTidy(w, false);
        var t := Squeeze(w, false);
        assert Squeeze(v, space) == gap + ([v[0]] + t);
        assert Squeeze(v, space) == gap + v ==> t == w by {
          if gap + ([v[0]] + t) == gap + ([v[0]] + w) {
            SameTail(gap + [v[0]], t, w);
          }
        }
      }
    }
  }

  lemma SameTail(a: string, t: string, w: string)
    requires a + t == a + w
    ensures t == w
  {
    assert (a + t)[|a|..] == t && (a + w)[|a|..] == w;
  }

  /** No space at either end and no two in a row. */
  predicate IsCondensed(v: string) {
    && (v != "" ==> v[0] != ' ' && v[|v| - 1] != ' ')
    && forall i :: 0 <= i < |v| - 1 ==> !(v[i] == ' ' && v[i + 1] == ' ')
  }

  lemma {:induction false} TidyMeans(v: string, space: bool)
    ensures Tidy(v, space) <==>
            && !(space && (v == "" || v[0] == ' '))
            && (v != "" ==> v[|v| - 1] != ' ')
            && forall i :: 0 <= i < |v| - 1 ==> !(v[i] == ' ' && v[i + 1] == ' ')
    decreases |v|
  {
    if v != "" {
      var w := v[1..];
      TidyMeans(w, v[0] == ' ');
      if w != "" {
        assert w[|w| - 1] == v[|v| - 1];
        assert w[0] == v[1];
      }
      if forall i :: 0 <= i < |w| - 1 ==> !(w[i] == ' ' && w[i + 1] == ' ') {
        forall i | 1 <= i < |v| - 1
          ensures !(v[i] == ' ' && v[i + 1] == ' ')
        {
          assert w[i - 1] == v[i] && w[i] == v[i + 1];
        }
      }
    }
  }

  /** Text comes back unchanged exactly when it is condensed. */
  lemma CondensedExactly(v: string)
    ensures Condensed(v) == v <==> IsCondensed(v)
  {
    SqueezeTidy(v, false);
    TidyMeans(v, false);
    if v != "" && v[0] == ' ' {
      DropBlanksShrinks(v);
      SqueezeLength(DropBlanks(v), false);
    } else {
      assert "" + v == v;
    }
  }

  // ---------------------------------------------------------------------------------
  // Text with references in it
  // ---------------------------------------------------------------------------------

  /** Read past what follows the text, or no longer than n, and shorter if so asked. */
  predicate ComesShort(r: Read, n: nat, shorter: bool, rest: string) {
    GoesPast(r, rest) || (|r.text| <= n && (shorter ==> |r.text| < n))
  }

  function Gap(space: bool): nat {
    if space then 1 else 0
  }

  function CondenseTail(v: string, space: bool, tail: string): Read {
    Condense(At(Encode(v) + tail), "<", space)
  }

  /**
    A text is read past the bracket behind it, or it comes back no longer, and with a reference
    in it shorter.
   */
  lemma {:induction false} CondenseLength(v: string, space: bool, w: string, rest: string)
    requires IsBlank(w)
    ensures ComesShort(CondenseTail(v, space, w + ("<" + rest)), |v| + Gap(space), !NoReference(v), rest)
    decreases |v|
  {
    if v == "" {
      EmptyShort(space, w, rest);
    } else if HexReference(v) {
      var n := CopyLength(v, 0);
      if v[n] == ';' {
        CondenseLength(v[n + 1..], false, w, rest);
      }
      ReferenceShort(v, n, space, w, rest);
    } else {
      CondenseLength(v[1..], v[0] == ' ', w, rest);
      FirstShort(v, space, w, rest);
    }
  }

  lemma EmptyShort(space: bool, w: string, rest: string)
    requires IsBlank(w)
    ensures ComesShort(CondenseTail("", space, w + ("<" + rest)), Gap(space), !NoReference(""), rest)
  {
    assert Encode("") + (w + ("<" + rest)) == w + ("<" + rest);
    CondenseBlank(w, space, rest);
  }

  /** An entity in condensing mode, and what is read behind it. */
  lemma CondenseEntity(s: string, space: bool, more: Read)
    requires s != "" && s[0] == '&' && more == Condense(Entity(s).next, "<", false)
    ensures var r := Condense(At(s), "<", space);
            r.next == more.next && |r.text| == Gap(space) + |Entity(s).text| + |more.text|
  {
  }

  lemma ReferenceShort(v: string, n: nat, space: bool, w: string, rest: string)
    requires HexReference(v) && IsBlank(w) && n == CopyLength(v, 0)
    requires v[n] == ';' ==> ComesShort(CondenseTail(v[n + 1..], false, w + ("<" + rest)), |v| - n - 1, false, rest)
    ensures ComesShort(CondenseTail(v, space, w + ("<" + rest)), |v| + Gap(space), true, rest)
  {
    var tail := w + ("<" + rest);
    EncodeStep(v);
    var s := Encode(v) + tail;
    assert s[0] == '&';
    var e := Entity(s);
    var more := Condense(e.next, "<", false);
    CondenseEntity(s, space, more);
    if v[n] == ';' {
      ReadsTerminated(v, n, tail);
    } else {
      RegroupTail(w, rest);
      ReadsOpen(v, n, w + "<", rest);
    }
    BehindShort(e, more, if v[n] == ';' then At(Encode(v[n + 1..]) + tail) else At(tail), w, rest);
  }

  lemma BehindShort(e: Read, more: Read, p: Ptr, w: string, rest: string)
    requires more == Condense(e.next, "<", false) && (e.next.None? || e.next == p || |e.next.text| < |rest|)
    requires IsBlank(w)
    ensures more == Read(None, "") || more == Condense(p, "<", false) || GoesPast(more, rest)
    ensures p == At(w + ("<" + rest)) ==> Condense(p, "<", false).text == ""
  {
    CondenseBlank(w, false, rest);
  }

  lemma FirstShort(v: string, space: bool, w: string, rest: string)
    requires v != "" && !HexReference(v)
    requires ComesShort(CondenseTail(v[1..], v[0] == ' ', w + ("<" + rest)), |v| - 1 + Gap(v[0] == ' '),
                        !NoReference(v[1..]), rest)
    ensures ComesShort(CondenseTail(v, space, w + ("<" + rest)), |v| + Gap(space), !NoReference(v), rest)
  {
    CondenseFirst(v, space, w + ("<" + rest));
    if NoReference(v[1..]) {
      NoReferenceCons(v);
    }
  }

  lemma CondenseFirst(v: string, space: bool, tail: string)
    requires v != "" && !HexReference(v)
    ensures var r := Condense(At(Encode(v) + tail), "<", space);
            var more := Condense(At(Encode(v[1..]) + tail), "<", v[0] == ' ');
            r.next == more.next && |r.text| == |more.text| + if v[0] == ' ' then 0 else if space then 2 else 1
  {
    EncodeFirst(v);
    Reassociate(Escape(v[0]), Encode(v[1..]), tail);
    if v[0] == ' ' {
      CondenseSpace(Encode(v[1..]) + tail, space);
    } else {
      CondenseEscaped(v[0], Encode(v[1..]) + tail, space);
    }
  }

  lemma RegroupTail(w: string, rest: string)
    requires IsBlank(w)
    ensures w + ("<" + rest) == (w + "<") + rest && ';' !in w + "<"
  {
  }

  /** A text written between tags, then read, comes back whole and the reading stops right after the bracket. */
  predicate ReadsTextBack(v: string, w: string, rest: string) {
    TextTo(At(Encode(v) + (w + ("<" + rest))), true, "<") == Read(if rest == "" then None else At(rest), v)
  }

  /** Text comes back, whatever white space and whatever else follows, exactly when condensed and without references. */
  lemma ReadsTextExactly(v: string, w: string, rest: string)
    requires IsBlank(w)
    ensures ReadsTextBack(v, w, rest) <==> NoReference(v) && IsCondensed(v)
  {
    if NoReference(v) {
      ReadsText(v, w, rest);
      CondensedExactly(v);
    } else {
      var d := DropBlanks(v);
      DropSpaceEncoded(v, w, rest);
      DropBlanksShrinks(v);
      CondenseLength(d, false, w, rest);
      assert d != "";
    }
  }

  /** Condensed text with a reference in it does not. */
  lemma TextReferenceIsExpanded()
    ensures IsCondensed("&#x41;") && !ReadsTextBack("&#x41;", "", "/a>")
  {
    var v := "&#x41;";
    assert HexReference(v[0..]);
    ReadsTextExactly(v, "", "/a>");
  }

  lemma {:induction false} DropBlanksShrinks(v: string)
    ensures |DropBlanks(v)| <= |v|
    ensures v != "" && v[0] == ' ' ==> |DropBlanks(v)| < |v|
    decreases |v|
  {
    if v != "" && v[0] == ' ' {
      DropBlanksShrinks(v[1..]);
    }
  }
}
