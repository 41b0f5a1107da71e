/**
  What the parser makes of text that the printer does not write: white space in tags, values
  in either quotes or in none, attributes that are broken or come twice, tags that do not end
  or end wrongly, and nodes that run into the end of the text.
 */
module XmlSurface {
  import opened XmlText
  import opened XmlRead
  import opened XmlPrint
  import opened XmlParse
  import opened XmlRoundTrip
  import opened XmlChars

  // ---------------------------------------------------------------------------------
  // Names, equals signs and values
  // ---------------------------------------------------------------------------------

  predicate Space(c: char) {
    c as int in {9, 10, 11, 12, 13, 32}
  }

  /** Letters, digits, underscores, hyphens, dots, colons and bytes from 127 on, not starting with a digit or -.: */
  predicate Named(name: string) {
    name != "" && name[0] !in "0123456789-.:" && forall i :: 0 <= i < |name| ==> NameSign(name[i])
  }

  lemma NamedIsValid(name: string)
    requires Named(name)
    ensures ValidName(name) && !Space(name[0]) && name[0] != '/' && name[0] != '>' && name[0] != '<' && name[0] != '='
  {
  }

  lemma SkipsTo(w: string, s: string)
    requires Spaces(w) && s != "" && !Space(s[0])
    ensures SkipSpace(At(w + s)) == At(s)
  {
    SkipsSpaces(w, s[0], s[1..]);
    assert s == [s[0]] + s[1..];
  }

  lemma SpaceIsNoSign(c: char)
    requires Space(c) || c == '=' || c == '/' || c == '>'
    ensures !NameSign(c) && !IsNameChar(c)
  {
  }

  /** A name with white space behind it. */
  lemma NameThen(key: string, w: string, rest: string)
    requires Named(key) && Spaces(w) && (w == "" && rest != "" ==> !NameSign(rest[0]))
    ensures SkipSpace(At(key + (w + rest))) == At(key + (w + rest))
    ensures Name(At(key + (w + rest))) == Read(At(w + rest), key)
  {
    NamedIsValid(key);
    assert "" + (key + (w + rest)) == key + (w + rest) && (key + (w + rest))[0] == key[0];
    SkipsTo("", key + (w + rest));
    if w != "" {
      assert (w + rest)[0] == w[0];
      SpaceIsNoSign(w[0]);
    } else {
      assert w + rest == rest;
    }
    ReadsSigns(key, w + rest);
  }

  /** White space around the equals sign means nothing. */
  lemma PairAt(key: string, left: string, right: string, value: string)
    requires Named(key) && Spaces(left) && Spaces(right) && value != "" && !Space(value[0])
    ensures var r := AttributeValue(value);
            AttributeAt(At(key + (left + ("=" + (right + value))))) == Parsed(r.next, Attribute(key, r.value), r.error)
  {
    var tail := "=" + (right + value);
    SpaceIsNoSign('=');
    NameThen(key, left, tail);
    SkipsTo(left, tail);
    assert tail[1..] == right + value;
    SkipsTo(right, value);
  }

  // ---------------------------------------------------------------------------------
  // Values
  // ---------------------------------------------------------------------------------

  /** What a value without quotes may hold. */
  predicate BareSign(c: char) {
    !Space(c) && c != '/' && c != '>' && c != '\'' && c != '\"'
  }

  /** What ends one. */
  predicate AfterBare(rest: string) {
    rest == "" || Space(rest[0]) || rest[0] == '/' || rest[0] == '>'
  }

  lemma BareStep(c: char, s: string)
    requires BareSign(c)
    ensures var r := Unquoted(s); Unquoted([c] + s) == r.(value := [c] + r.value)
  {
    assert ([c] + s)[1..] == s;
  }

  /** A value without quotes goes up to white space, a slash or a closing bracket, and not into them. */
  lemma {:induction false} BareValue(v: string, rest: string)
    requires (forall i :: 0 <= i < |v| ==> BareSign(v[i])) && AfterBare(rest)
    ensures Unquoted(v + rest) == Parsed(At(rest), v, NoError)
    decreases |v|
  {
    if v == "" {
      assert v + rest == rest;
    } else {
      BareValue(v[1..], rest);
      JoinFirst(v, rest);
      BareStep(v[0], v[1..] + rest);
      assert [v[0]] + v[1..] == v;
    }
  }

  /** A quote in it is an error. */
  lemma {:induction false} BareQuote(v: string, quote: char, rest: string)
    requires (forall i :: 0 <= i < |v| ==> BareSign(v[i])) && (quote == '\'' || quote == '\"')
    ensures Unquoted(v + ([quote] + rest)) == Parsed(None, v, ReadingAttributes)
    decreases |v|
  {
    if v == "" {
      assert v + ([quote] + rest) == [quote] + rest;
    } else {
      BareQuote(v[1..], quote, rest);
      JoinFirst(v, [quote] + rest);
      BareStep(v[0], v[1..] + ([quote] + rest));
      assert [v[0]] + v[1..] == v;
    }
  }

  /** So an attribute without quotes, at the end of the text too. */
  lemma BareAttribute(key: string, left: string, right: string, v: string, rest: string)
    requires Named(key) && Spaces(left) && Spaces(right) && v != "" && AfterBare(rest)
    requires forall i :: 0 <= i < |v| ==> BareSign(v[i])
    ensures AttributeAt(At(key + (left + ("=" + (right + (v + rest)))))) == Parsed(At(rest), Attribute(key, v), NoError)
  {
    assert (v + rest)[0] == v[0];
    BareValue(v, rest);
    PairAt(key, left, right, v + rest);
  }

  lemma KeepSign(c: char, s: string, quote: char)
    requires c != quote && c != '&'
    ensures var r := Keep(At(s), [quote]); Keep(At([c] + s), [quote]) == Read(r.next, [c] + r.text)
  {
    assert ([c] + s)[1..] == s;
    assert ([c] + s)[0] == c && !([quote] <= [c] + s);
  }

  /** Between quotes everything else is taken as it is, the other quote, brackets and white space too. */
  lemma {:induction false} KeepVerbatim(v: string, quote: char, rest: string)
    requires forall i :: 0 <= i < |v| ==> v[i] != quote && v[i] != '&'
    ensures Keep(At(v + ([quote] + rest)), [quote]) == Read(At([quote] + rest), v)
    decreases |v|
  {
    if v == "" {
      assert v + ([quote] + rest) == [quote] + rest;
      assert [quote] <= [quote] + rest;
    } else {
      KeepVerbatim(v[1..], quote, rest);
      JoinFirst(v, [quote] + rest);
      KeepSign(v[0], v[1..] + ([quote] + rest), quote);
      assert [v[0]] + v[1..] == v;
    }
  }

  lemma QuotedValue(v: string, quote: char, rest: string)
    requires (quote == '\'' || quote == '\"') && forall i :: 0 <= i < |v| ==> v[i] != quote && v[i] != '&'
    ensures AttributeValue([quote] + (v + ([quote] + rest))) ==
            Parsed(if rest == "" then None else At(rest), v, NoError)
  {
    assert ([quote] + (v + ([quote] + rest)))[1..] == v + ([quote] + rest);
    KeepVerbatim(v, quote, rest);
    assert ([quote] + rest)[1..] == rest;
  }

  // ---------------------------------------------------------------------------------
  // Attributes as they may be written
  // ---------------------------------------------------------------------------------

  /** An attribute with the white space before it and around its equals sign, and its quotes, if any. */
  datatype Written = Written(gap: string, name: string, left: string, right: string, quote: string, value: string) {
    predicate Ok() {
      && gap != "" && Spaces(gap) && Named(name) && Spaces(left) && Spaces(right)
      && if quote == "" then value != "" && forall i :: 0 <= i < |value| ==> BareSign(value[i])
         else
           && (quote == "'" || quote == "\"")
           && forall i :: 0 <= i < |value| ==> value[i] != quote[0] && value[i] != '&'
    }

    function Text(rest: string): string {
      gap + (name + (left + ("=" + (right + (quote + (value + (quote + rest)))))))
    }
  }

  function TextOf(ws: seq<Written>, rest: string): string {
    if ws == [] then rest else ws[0].Text(TextOf(ws[1..], rest))
  }

  function Attributes(ws: seq<Written>): (r: seq<Attribute>)
    ensures |r| == |ws| && forall i :: 0 <= i < |ws| ==> r[i] == Attribute(ws[i].name, ws[i].value)
  {
    if ws == [] then [] else [Attribute(ws[0].name, ws[0].value)] + Attributes(ws[1..])
  }

  lemma ValueOf(w: Written, rest: string)
    requires w.Ok() && rest != "" && AfterBare(rest)
    ensures var s := w.quote + (w.value + (w.quote + rest));
            s != "" && !Space(s[0]) && AttributeValue(s) == Parsed(At(rest), w.value, NoError)
  {
    var s := w.quote + (w.value + (w.quote + rest));
    if w.quote == "" {
      assert s == w.value + rest && s[0] == w.value[0];
      BareValue(w.value, rest);
    } else {
      var q := w.quote[0];
      assert w.quote == [q];
      QuotedValue(w.value, q, rest);
    }
  }

  /** However it is written, the attribute is read. */
  lemma WrittenAttribute(w: Written, rest: string)
    requires w.Ok() && rest != "" && AfterBare(rest)
    ensures var s := w.name + (w.left + ("=" + (w.right + (w.quote + (w.value + (w.quote + rest))))));
            && s != "" && s[0] == w.name[0] && w.Text(rest) == w.gap + s
            && AttributeAt(At(s)) == Parsed(At(rest), Attribute(w.name, w.value), NoError)
  {
    ValueOf(w, rest);
    PairAt(w.name, w.left, w.right, w.quote + (w.value + (w.quote + rest)));
  }

  lemma OneWritten(done: seq<Attribute>, w: Written, name: string, rest: string)
    requires w.Ok() && rest != "" && AfterBare(rest) && forall i :: 0 <= i < |done| ==> done[i].name != w.name
    ensures w.Text(rest) != "" && AfterBare(w.Text(rest))
    ensures AttributesAt(w.Text(rest), name, done) == AttributesAt(rest, name, done + [Attribute(w.name, w.value)])
  {
    var s := w.name + (w.left + ("=" + (w.right + (w.quote + (w.value + (w.quote + rest))))));
    WrittenAttribute(w, rest);
    NamedIsValid(w.name);
    SkipsTo(w.gap, s);
    assert (w.gap + s)[0] == w.gap[0];
    assert !HasName(done, w.name);
  }

  /** A name that was there already ends the parse; the attributes before it are kept. */
  lemma RepeatedName(done: seq<Attribute>, w: Written, name: string, rest: string, i: nat)
    requires w.Ok() && rest != "" && AfterBare(rest) && i < |done| && done[i].name == w.name
    ensures w.Text(rest) != ""
    ensures AttributesAt(w.Text(rest), name, done) == Parsed(None, Element(name, done, []), ParsingElement)
  {
    var s := w.name + (w.left + ("=" + (w.right + (w.quote + (w.value + (w.quote + rest))))));
    WrittenAttribute(w, rest);
    NamedIsValid(w.name);
    SkipsTo(w.gap, s);
    assert HasName(done, w.name);
  }

  predicate AllOk(ws: seq<Written>) {
    forall i :: 0 <= i < |ws| ==> ws[i].Ok()
  }

  predicate Different(names: seq<Attribute>) {
    forall i, j :: 0 <= i < j < |names| ==> names[i].name != names[j].name
  }

  lemma {:induction false} TextAfter(ws: seq<Written>, close: string)
    requires AllOk(ws) && close != "" && AfterBare(close)
    ensures TextOf(ws, close) != "" && AfterBare(TextOf(ws, close))
  {
    if ws != [] {
      assert TextOf(ws, close)[0] == ws[0].gap[0];
    }
  }

  lemma FirstNew(done: seq<Attribute>, a: Attribute, more: seq<Attribute>)
    requires Different(done + ([a] + more))
    ensures (forall i :: 0 <= i < |done| ==> done[i].name != a.name) && (done + [a]) + more == done + ([a] + more)
  {
    var all := done + ([a] + more);
    assert all[|done|] == a && forall i :: 0 <= i < |done| ==> all[i] == done[i];
  }

  /** All the attributes of a tag, however they are written. */
  lemma {:induction false} WrittenAttributes(done: seq<Attribute>, ws: seq<Written>, name: string, close: string)
    requires AllOk(ws) && Different(done + Attributes(ws)) && close != "" && AfterBare(close)
    ensures TextOf(ws, close) != ""
    ensures AttributesAt(TextOf(ws, close), name, done) == AttributesAt(close, name, done + Attributes(ws))
    decreases |ws|
  {
    TextAfter(ws, close);
    if ws == [] {
      assert done + Attributes(ws) == done;
    } else {
      var a := Attribute(ws[0].name, ws[0].value);
      TextAfter(ws[1..], close);
      FirstNew(done, a, Attributes(ws[1..]));
      OneWritten(done, ws[0], name, TextOf(ws[1..], close));
      WrittenAttributes(done + [a], ws[1..], name, close);
    }
  }

  // ---------------------------------------------------------------------------------
  // Broken attributes
  // ---------------------------------------------------------------------------------

  /** A value without quotes and one in it. */
  lemma QuoteInside(key: string, left: string, right: string, v: string, quote: char, rest: string)
    requires Named(key) && Spaces(left) && Spaces(right) && v != "" && (quote == '\'' || quote == '\"')
    requires forall i :: 0 <= i < |v| ==> BareSign(v[i])
    ensures AttributeAt(At(key + (left + ("=" + (right + (v + ([quote] + rest))))))) ==
            Parsed(None, Attribute(key, v), ReadingAttributes)
  {
    assert (v + ([quote] + rest))[0] == v[0];
    BareQuote(v, quote, rest);
    PairAt(key, left, right, v + ([quote] + rest));
  }

  /** A name without an equals sign. */
  lemma NoEquals(key: string, w: string, rest: string)
    requires Named(key) && Spaces(w) && (rest != "" ==> rest[0] != '=' && !Space(rest[0]))
    requires w == "" && rest != "" ==> !NameSign(rest[0])
    ensures AttributeAt(At(key + (w + rest))) == Parsed(None, Attribute(key, ""), ReadingAttributes)
  {
    NameThen(key, w, rest);
    if rest == "" {
      SkipsSpaces(w, 'x', "");
      assert w + rest == w;
    } else {
      SkipsTo(w, rest);
    }
  }

  /** An equals sign without a value. */
  lemma NoValue(key: string, left: string, right: string)
    requires Named(key) && Spaces(left) && Spaces(right)
    ensures AttributeAt(At(key + (left + ("=" + right)))) == Parsed(None, Attribute(key, ""), ReadingAttributes)
  {
    SpaceIsNoSign('=');
    NameThen(key, left, "=" + right);
    SkipsTo(left, "=" + right);
    assert ("=" + right)[1..] == right;
    SkipsSpaces(right, 'x', "");
  }

  /** Something that is no name. */
  lemma NoName(c: char, rest: string)
    requires !Space(c) && (!NameSign(c) || c in "0123456789-.:")
    ensures AttributeAt(At([c] + rest)) == Parsed(None, Attribute("", ""), ReadingAttributes)
  {
    assert "" + ([c] + rest) == [c] + rest;
    SkipsTo("", [c] + rest);
    assert !IsNameStart(c);
  }

  /** In a tag each of these ends the parse with that error; the attributes before it are kept. */
  lemma BrokenInTag(gap: string, s: string, name: string, done: seq<Attribute>)
    requires Spaces(gap) && s != "" && !Space(s[0]) && s[0] != '/' && s[0] != '>'
    requires AttributeAt(At(s)).next.None? && AttributeAt(At(s)).error == ReadingAttributes
    ensures AttributesAt(gap + s, name, done) == Parsed(None, Element(name, done, []), ReadingAttributes)
  {
    SkipsTo(gap, s);
  }

  /** An attribute that is complete but that nothing follows. */
  lemma AttributeCutOff(w: Written, name: string, done: seq<Attribute>)
    requires w.Ok()
    ensures AttributesAt(w.Text(""), name, done) == Parsed(None, Element(name, done, []), ParsingElement)
  {
    var value := w.quote + (w.value + (w.quote + ""));
    var s := w.name + (w.left + ("=" + (w.right + value)));
    NamedIsValid(w.name);
    SkipsTo(w.gap, s);
    ValueCutOff(w);
    PairAt(w.name, w.left, w.right, value);
  }

  lemma ValueCutOff(w: Written)
    requires w.Ok()
    ensures var s := w.quote + (w.value + (w.quote + ""));
            s != "" && !Space(s[0]) && !AttributeValue(s).next.Live() && AttributeValue(s).error == NoError
  {
    var s := w.quote + (w.value + (w.quote + ""));
    if w.quote == "" {
      assert s == w.value + "" && s[0] == w.value[0];
      BareValue(w.value, "");
    } else {
      var q := w.quote[0];
      assert w.quote == [q] && w.quote + "" == [q] + "";
      QuotedValue(w.value, q, "");
    }
  }

  // ---------------------------------------------------------------------------------
  // The ends of tags
  // ---------------------------------------------------------------------------------

  lemma EmptyTag(w: string, rest: string, name: string, done: seq<Attribute>)
    requires Spaces(w)
    ensures AttributesAt(w + ("/>" + rest), name, done) == Parsed(At(rest), Element(name, done, []), NoError)
  {
    SkipsTo(w, "/>" + rest);
    assert ("/>" + rest)[2..] == rest;
  }

  /** A slash with anything else behind it. */
  lemma BrokenEmptyTag(w: string, rest: string, name: string, done: seq<Attribute>)
    requires Spaces(w) && (rest == "" || rest[0] != '>')
    ensures AttributesAt(w + ("/" + rest), name, done) == Parsed(None, Element(name, done, []), ParsingEmpty)
  {
    SkipsTo(w, "/" + rest);
    assert rest != "" ==> ("/" + rest)[1] == rest[0];
  }

  /** The text ends inside the tag. */
  lemma TagCutOff(w: string, name: string, done: seq<Attribute>)
    requires Spaces(w) && w != ""
    ensures AttributesAt(w, name, done) == Parsed(None, Element(name, done, []), ReadingAttributes)
  {
    SkipsSpaces(w, 'x', "");
  }

  /** An element without content, with its attributes written in any of these ways. */
  lemma WrittenElement(name: string, ws: seq<Written>, w: string, rest: string)
    requires Named(name) && AllOk(ws) && Different(Attributes(ws)) && Spaces(w)
    ensures var s := "<" + (name + TextOf(ws, w + ("/>" + rest)));
            NodeAt(s) == Parsed(At(rest), Element(name, Attributes(ws), []), NoError)
  {
    var close := w + ("/>" + rest);
    var s, after := "<" + (name + TextOf(ws, close)), TextOf(ws, close);
    assert close[0] == if w == "" then '/' else w[0];
    NameAfterBracket(name, ws, close);
    assert [] + Attributes(ws) == Attributes(ws);
    WrittenAttributes([], ws, name, close);
    EmptyTag(w, rest, name, Attributes(ws));
  }

  lemma ElementHere(s: string)
    requires s != "" && s[0] == '<' && Identify(s) == IsElement
    ensures NodeAt(s) == ElementAt(s)
  {
  }

  /** What follows the name of an element. */
  lemma AfterName(name: string, after: string)
    requires Named(name) && after != "" && AfterBare(after)
    ensures NodeAt("<" + (name + after)) == AttributesAt(after, name, [])
  {
    var s := "<" + (name + after);
    SpaceIsNoSign(after[0]);
    assert "" + after == after;
    NameThen(name, "", after);
    ElementStarts(name, after);
    assert s[1..] == name + after;
    ElementHere(s);
  }

  lemma NameAfterBracket(name: string, ws: seq<Written>, close: string)
    requires Named(name) && AllOk(ws) && close != "" && AfterBare(close)
    ensures var after := TextOf(ws, close); after != "" && NodeAt("<" + (name + after)) == AttributesAt(after, name, [])
  {
    TextAfter(ws, close);
    AfterName(name, TextOf(ws, close));
  }

  lemma ElementStarts(name: string, after: string)
    requires Named(name)
    ensures Identify("<" + (name + after)) == IsElement
  {
    var s := "<" + (name + after);
    assert s[1] == name[0];
    assert name[0] != '?' && name[0] != '!' && IsNameStart(name[0]);
    assert Lower(s[1]) != Lower("<?xml"[1]);
  }

  /** The text ends in the name. */
  lemma NameCutOff(name: string)
    requires Named(name)
    ensures NodeAt("<" + name) == Parsed(None, Element(name, [], []), FailedToReadElementName)
  {
    assert name + ("" + "") == name && "<" + (name + "") == "<" + name;
    NameThen(name, "", "");
    ElementStarts(name, "");
    assert ("<" + name)[1..] == name;
  }

  // ---------------------------------------------------------------------------------
  // End tags
  // ---------------------------------------------------------------------------------

  /** White space in front of the closing bracket means nothing. */
  lemma EndTagRead(name: string, w: string, rest: string)
    requires Spaces(w)
    ensures EndTagAt(At("</" + name + (w + (">" + rest))), name) == Parsed(At(rest), (), NoError)
  {
    var s := "</" + name + (w + (">" + rest));
    assert s[2 + |name|..] == w + (">" + rest) && "</" + name <= s;
    SkipsTo(w, ">" + rest);
    assert (">" + rest)[1..] == rest;
  }

  /** Anything else there, a longer name with it. */
  lemma EndTagBroken(name: string, w: string, rest: string)
    requires Spaces(w) && (rest == "" || (!Space(rest[0]) && rest[0] != '>'))
    ensures EndTagAt(At("</" + name + (w + rest)), name) == Parsed(None, (), ReadingEndTag)
  {
    var s := "</" + name + (w + rest);
    assert s[2 + |name|..] == w + rest && "</" + name <= s;
    if rest == "" {
      assert w + rest == w;
      SkipsSpaces(w, 'x', "");
    } else {
      SkipsTo(w, rest);
    }
  }

  /** Another name, or none. */
  lemma EndTagOther(s: string, name: string)
    requires !("</" + name <= s)
    ensures EndTagAt(At(s), name) == Parsed(None, (), ReadingEndTag)
  {
  }

  lemma NoSuchEnd(name: string, tail: string)
    requires !(name <= tail)
    ensures !("</" + name <= "</" + tail)
  {
    assert ("</" + name)[2..] == name && ("</" + tail)[2..] == tail;
  }
}
