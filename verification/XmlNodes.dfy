/**
  What the parser makes of texts between tags, of declarations and other tags in all their
  spellings, of nodes that the text ends in, and of whole documents that are none.
 */
module XmlNodes {
  import opened XmlText
  import opened XmlRead
  import opened XmlPrint
  import opened XmlParse
  import opened XmlRoundTrip
  import opened XmlChars
  import opened XmlSurface

  // ---------------------------------------------------------------------------------
  // Words
  // ---------------------------------------------------------------------------------

  predicate WordSign(c: char) {
    !Space(c) && c != '&' && c != '<'
  }

  predicate IsWord(v: string) {
    v != "" && forall i :: 0 <= i < |v| ==> WordSign(v[i])
  }

  /** Words with white space in front of each of them. */
  function Spread(words: seq<string>, gaps: seq<string>, tail: string): string
    requires |words| == |gaps|
  {
    if words == [] then tail else gaps[0] + (words[0] + Spread(words[1..], gaps[1..], tail))
  }

  /** Words with one space between them. */
  function Joined(words: seq<string>): string {
    if words == [] then "" else if |words| == 1 then words[0] else words[0] + (" " + Joined(words[1..]))
  }

  /** White space between words, none needed in front of the first. */
  predicate Gaps(gaps: seq<string>) {
    forall i :: 0 <= i < |gaps| ==> Spaces(gaps[i]) && (i > 0 ==> gaps[i] != "")
  }

  lemma CondenseGap(c: char, s: string, space: bool)
    requires Space(c)
    ensures Condense(At([c] + s), "<", space) == Condense(At(s), "<", true)
  {
    assert ([c] + s)[1..] == s && ([c] + s)[0] == c;
    assert !("<" <= [c] + s);
  }

  lemma CondenseSign(c: char, s: string, space: bool)
    requires WordSign(c)
    ensures var r := Condense(At(s), "<", false);
            Condense(At([c] + s), "<", space) == Read(r.next, (if space then " " else "") + [c] + r.text)
  {
    assert ([c] + s)[1..] == s && ([c] + s)[0] == c;
    assert !("<" <= [c] + s);
  }

  lemma {:induction false} CondenseGaps(w: string, s: string, space: bool)
    requires Spaces(w)
    ensures Condense(At(w + s), "<", space) == Condense(At(s), "<", space || w != "")
    decreases |w|
  {
    if w == "" {
      assert w + s == s;
    } else {
      JoinFirst(w, s);
      CondenseGap(w[0], w[1..] + s, space);
      CondenseGaps(w[1..], s, true);
    }
  }

  lemma JoinGap(gap: string, v: string, t: string)
    requires v != ""
    ensures gap + [v[0]] + (v[1..] + t) == gap + (v + t) && "" + (v[1..] + t) == v[1..] + t
  {
  }

  lemma {:induction false} CondenseWord(v: string, s: string, space: bool)
    requires IsWord(v)
    ensures var r := Condense(At(s), "<", false);
            Condense(At(v + s), "<", space) == Read(r.next, (if space then " " else "") + (v + r.text))
    decreases |v|
  {
    var r := Condense(At(s), "<", false);
    JoinFirst(v, s);
    CondenseSign(v[0], v[1..] + s, space);
    JoinGap(if space then " " else "", v, r.text);
    if |v| == 1 {
      assert v[1..] + s == s && v[1..] + r.text == r.text;
    } else {
      CondenseWord(v[1..], s, false);
    }
  }

  /** White space between words is one space, and none is left at the ends. */
  lemma {:induction false} CondenseWords(words: seq<string>, gaps: seq<string>, trail: string, rest: string,
                                         space: bool)
    requires |words| == |gaps| && Gaps(gaps) && (forall i :: 0 <= i < |words| ==> IsWord(words[i])) && Spaces(trail)
    requires words != []
    ensures Condense(At(Spread(words, gaps, trail + ("<" + rest))), "<", space) ==
            Read(At("<" + rest), (if space || gaps[0] != "" then " " else "") + Joined(words))
    decreases |words|
  {
    var tail := Spread(words[1..], gaps[1..], trail + ("<" + rest));
    CondenseGaps(gaps[0], words[0] + tail, space);
    CondenseWord(words[0], tail, space || gaps[0] != "");
    if |words| == 1 {
      CondenseGaps(trail, "<" + rest, false);
      assert "<" <= "<" + rest;
      assert words[0] + "" == words[0];
    } else {
      CondenseWords(words[1..], gaps[1..], trail, rest, false);
    }
  }

  lemma {:induction false} SpreadStarts(words: seq<string>, gaps: seq<string>, tail: string)
    requires |words| == |gaps| && Gaps(gaps) && (forall i :: 0 <= i < |words| ==> IsWord(words[i])) && words != []
    ensures SkipSpace(At(Spread(words, gaps, tail))) == At(Spread(words, [""] + gaps[1..], tail))
    ensures var s := Spread(words, [""] + gaps[1..], tail); words[0] != "" && s != "" && s[0] == words[0][0]
  {
    var s := words[0] + Spread(words[1..], gaps[1..], tail);
    assert s[0] == words[0][0];
    SkipsTo(gaps[0], s);
    assert ([""] + gaps[1..])[1..] == gaps[1..] && "" + s == s;
  }

  /** So is text up to a bracket read, after which the cursor stands. */
  lemma ReadsWords(words: seq<string>, gaps: seq<string>, trail: string, rest: string)
    requires |words| == |gaps| && Gaps(gaps) && (forall i :: 0 <= i < |words| ==> IsWord(words[i])) && Spaces(trail)
    requires words != []
    ensures TextTo(At(Spread(words, gaps, trail + ("<" + rest))), true, "<") ==
            Read(if rest == "" then None else At(rest), Joined(words))
  {
    var tail := trail + ("<" + rest);
    SpreadStarts(words, gaps, tail);
    CondenseWords(words, [""] + gaps[1..], trail, rest, false);
    assert "" + Joined(words) == Joined(words) && ("<" + rest)[1..] == rest;
  }

  // ---------------------------------------------------------------------------------
  // Nodes that the text ends in
  // ---------------------------------------------------------------------------------

  lemma {:induction false} RawToEnd(v: string, end: string)
    requires !Contains(v, end) && end != ""
    ensures Raw(v, end) == Read(At(""), v)
    decreases |v|
  {
    if v != "" {
      ContainsTail(v, end);
      RawToEnd(v[1..], end);
      assert v == [v[0]] + v[1..];
    }
  }

  /** A comment without its end holds the rest of the text, and is no error. */
  lemma CommentCutOff(v: string)
    requires !Contains(v, "-->")
    ensures NodeAt("<!--" + v) == Parsed(At(""), Comment(v), NoError)
  {
    var s := "<!--" + v;
    assert s[1] == '!' && "<!--" <= s && s[4..] == v;
    assert Identify(s) == IsComment;
    RawToEnd(v, "-->");
  }

  lemma CDataCutOff(v: string)
    requires !Contains(v, "]]>")
    ensures NodeAt("<![CDATA[" + v) == Parsed(None, Text(v, true), NoError)
  {
    var s := "<![CDATA[" + v;
    assert s[1] == '!' && s[2] == '[' && "<![CDATA[" <= s && s[9..] == v;
    assert Identify(s) == IsCData;
    RawToEnd(v, "]]>");
  }

  /** A tag that starts like no other, such as a document type, is taken as it is. */
  lemma OtherTag(c: char, v: string, rest: string)
    requires c !in "!?" && (!NameSign(c) || c in "0123456789-.:") && c != '>' && '>' !in v
    ensures NodeAt("<" + (([c] + v) + (">" + rest))) == Parsed(At(rest), Unknown([c] + v), NoError)
  {
    var s := "<" + (([c] + v) + (">" + rest));
    assert s[1] == c && !IsNameStart(c);
    assert Lower(s[1]) != Lower("<?xml"[1]);
    UnknownOf(s, [c] + v, rest);
  }

  lemma ExclamationIs(v: string, rest: string)
    requires '>' !in v && !("--" <= v) && !("[CDATA[" <= v)
    ensures Identify("<!" + (v + (">" + rest))) == IsUnknown
  {
    var s := "<!" + (v + (">" + rest));
    assert s[1] == '!' && s[2..] == v + (">" + rest);
    NotBefore(v, "--", rest);
    NotBefore(v, "[CDATA[", rest);
    NotBehind("--", s);
    NotBehind("[CDATA[", s);
    assert Lower(s[1]) != Lower("<?xml"[1]);
    assert "<!" <= s;
  }

  lemma NotBehind(tag: string, s: string)
    requires |s| >= 2 && !(tag <= s[2..])
    ensures !("<!" + tag <= s)
  {
    assert ("<!" + tag)[2..] == tag;
  }

  lemma UnknownRead(u: string, rest: string)
    requires '>' !in u
    ensures UnknownAt("<" + (u + (">" + rest))) == Parsed(At(rest), Unknown(u), NoError)
  {
    assert ("<" + (u + (">" + rest)))[1..] == u + (['>'] + rest);
    SingleRaw(u, '>', rest);
    assert (">" + rest)[1..] == rest;
  }

  lemma UnknownOf(s: string, u: string, rest: string)
    requires '>' !in u && s == "<" + (u + (">" + rest)) && Identify(s) == IsUnknown
    ensures NodeAt(s) == Parsed(At(rest), Unknown(u), NoError)
  {
    UnknownNode(s);
    UnknownRead(u, rest);
  }

  lemma Exclaimed(v: string, tail: string)
    ensures "<!" + (v + tail) == "<" + (("!" + v) + tail)
  {
  }

  lemma ExclamationTag(v: string, rest: string)
    requires '>' !in v && !("--" <= v) && !("[CDATA[" <= v)
    ensures NodeAt("<!" + (v + (">" + rest))) == Parsed(At(rest), Unknown("!" + v), NoError)
  {
    ExclamationIs(v, rest);
    Exclaimed(v, ">" + rest);
    UnknownOf("<!" + (v + (">" + rest)), "!" + v, rest);
  }

  /** A question mark without xml behind it. */
  lemma QuestionTag(v: string, rest: string)
    requires '>' !in v && !(|v| >= 3 && v[0] in "xX" && v[1] in "mM" && v[2] in "lL")
    ensures NodeAt("<" + (("?" + v) + (">" + rest))) == Parsed(At(rest), Unknown("?" + v), NoError)
  {
    var s := "<" + (("?" + v) + (">" + rest));
    NotXml(v, rest);
    assert s[1] == '?';
    UnknownOf(s, "?" + v, rest);
  }

  lemma LikeXml(s: string)
    requires StartsLike(s, "<?xml")
    ensures |s| >= 5 && s[2] in "xX" && s[3] in "mM" && s[4] in "lL"
  {
    assert Lower(s[2]) == 'x' && Lower(s[3]) == 'm' && Lower(s[4]) == 'l';
  }

  lemma NotXml(v: string, rest: string)
    requires '>' !in v && !(|v| >= 3 && v[0] in "xX" && v[1] in "mM" && v[2] in "lL")
    ensures !StartsLike("<" + (("?" + v) + (">" + rest)), "<?xml")
  {
    var s := "<" + (("?" + v) + (">" + rest));
    assert forall i :: 0 <= i < |v| ==> s[2 + i] == v[i];
    assert s[2 + |v|] == '>';
    if StartsLike(s, "<?xml") {
      LikeXml(s);
      assert false;
    }
  }

  lemma NotBefore(v: string, tag: string, rest: string)
    requires '>' !in v && '>' !in tag && !(tag <= v)
    ensures !(tag <= v + (">" + rest))
  {
    var t := v + ">";
    PrefixStops(tag, t, rest);
    assert t + rest == v + (">" + rest);
    if |tag| <= |v| {
      assert t[..|tag|] == v[..|tag|];
    }
  }

  // ---------------------------------------------------------------------------------
  // Elements that the text ends in
  // ---------------------------------------------------------------------------------

  lemma TagOpens(w: string, content: string, name: string, attributes: seq<Attribute>)
    requires Spaces(w)
    ensures var r := ValueAt(At(content), []);
            var e := EndTagAt(r.next, name);
            AttributesAt(w + (">" + content), name, attributes) ==
            Parsed(e.next, Element(name, attributes, r.value), First(r.error, e.error))
  {
    SkipsTo(w, ">" + content);
    assert (">" + content)[1..] == content;
  }

  /** A start tag, however it is written, then content and an end tag. */
  lemma OpenTag(name: string, ws: seq<Written>, w: string, content: string)
    requires Named(name) && AllOk(ws) && Different(Attributes(ws)) && Spaces(w)
    ensures var r := ValueAt(At(content), []);
            var e := EndTagAt(r.next, name);
            NodeAt("<" + (name + TextOf(ws, w + (">" + content)))) ==
            Parsed(e.next, Element(name, Attributes(ws), r.value), First(r.error, e.error))
  {
    var close := w + (">" + content);
    assert close[0] == if w == "" then '>' else w[0];
    NameAfterBracket(name, ws, close);
    assert [] + Attributes(ws) == Attributes(ws);
    WrittenAttributes([], ws, name, close);
    TagOpens(w, content, name, Attributes(ws));
  }

  lemma ValueAtEndTag(tail: string)
    ensures ValueAt(At("</" + tail), []) == Parsed(At("</" + tail), [], NoError)
  {
    assert "" + ("</" + tail) == "</" + tail;
    SkipsTo("", "</" + tail);
    assert "</" <= "</" + tail;
  }

  /** An element that the end tag of another one closes. */
  lemma WrongEndTag(name: string, ws: seq<Written>, w: string, other: string, rest: string)
    requires Named(name) && AllOk(ws) && Different(Attributes(ws)) && Spaces(w) && !(name <= other + (">" + rest))
    ensures NodeAt("<" + (name + TextOf(ws, w + (">" + ("</" + (other + (">" + rest))))))) ==
            Parsed(None, Element(name, Attributes(ws), []), ReadingEndTag)
  {
    var tail := other + (">" + rest);
    OpenTag(name, ws, w, "</" + tail);
    ValueAtEndTag(tail);
    NoSuchEnd(name, tail);
    EndTagOther("</" + tail, name);
  }

  /** Nothing behind the start tag, and nothing but white space. */
  lemma ContentMissing(name: string, ws: seq<Written>, w: string, blank: string)
    requires Named(name) && AllOk(ws) && Different(Attributes(ws)) && Spaces(w) && Spaces(blank)
    ensures NodeAt("<" + (name + TextOf(ws, w + (">" + blank)))) ==
            Parsed(None, Element(name, Attributes(ws), []), if blank == "" then ReadingElementValue else ReadingEndTag)
  {
    OpenTag(name, ws, w, blank);
    SkipsSpaces(blank, 'x', "");
  }

  lemma CDataToEnd(v: string)
    requires !Contains(v, "]]>")
    ensures ValueAt(At("<![CDATA[" + v), []) == Parsed(None, [Text(v, true)], ReadingElementValue)
  {
    var s := "<![CDATA[" + v;
    assert "" + s == s && s[1] == '!';
    SkipsTo("", s);
    CDataCutOff(v);
    assert [] + [Text(v, true)] == [Text(v, true)];
  }

  /** A child that breaks off without an error of its own makes one for the element. */
  lemma ChildCutOff(name: string, ws: seq<Written>, w: string, v: string)
    requires Named(name) && AllOk(ws) && Different(Attributes(ws)) && Spaces(w) && !Contains(v, "]]>")
    ensures NodeAt("<" + (name + TextOf(ws, w + (">" + ("<![CDATA[" + v))))) ==
            Parsed(None, Element(name, Attributes(ws), [Text(v, true)]), ReadingElementValue)
  {
    OpenTag(name, ws, w, "<![CDATA[" + v);
    CDataToEnd(v);
  }

  lemma WordToEnd(word: string)
    requires IsWord(word)
    ensures ValueAt(At(word), []) == Parsed(None, [Text(word, false)], ReadingElementValue)
  {
    assert "" + word == word && word + "" == word;
    SkipsTo("", word);
    CondenseWord(word, "", false);
    assert "" + (word + "") == word;
    assert TextTo(At(word), true, "<") == Read(None, word);
    assert !IsWhiteSpace(word[0]) && [] + [Text(word, false)] == [Text(word, false)];
  }

  /** Text that no bracket follows is kept, and the error is that of a value. */
  lemma TextCutOff(name: string, ws: seq<Written>, w: string, word: string)
    requires Named(name) && AllOk(ws) && Different(Attributes(ws)) && Spaces(w) && IsWord(word)
    ensures NodeAt("<" + (name + TextOf(ws, w + (">" + word)))) ==
            Parsed(None, Element(name, Attributes(ws), [Text(word, false)]), ReadingElementValue)
  {
    OpenTag(name, ws, w, word);
    WordToEnd(word);
  }

  lemma SpaceReference(end: string)
    ensures GetChar("&#x20;" + end) == Read(At(end), " ")
  {
    TwoDigitReference('2', '0', end);
    assert "&#x20;" + end == ['&', '#', 'x', '2', '0', ';'] + end;
  }

  lemma SpaceText(tail: string)
    ensures TextTo(At("&#x20;" + ("<" + tail)), true, "<") == Read(if tail == "" then None else At(tail), " ")
  {
    var s, end := "&#x20;" + ("<" + tail), "<" + tail;
    assert "" + s == s;
    SkipsTo("", s);
    SpaceReference(end);
    assert "<" <= end && Condense(At(end), "<", false) == Read(At(end), "");
    assert !("<" <= s) && !IsWhiteSpace(s[0]);
    assert end[1..] == tail && "" + " " + "" == " ";
  }

  lemma ValueBehindText(s: string, t: Ptr, v: string, children: seq<Node>)
    requires s != "" && s[0] != '<' && SkipSpace(At(s)) == At(s)
    requires TextAt(s) == Parsed(t, v, NoError) && t.At? && IsBlank(v)
    ensures ValueAt(At(s), children) == ValueAt(t, children)
  {
  }

  lemma ValueStopsAt(s: string, children: seq<Node>)
    requires "</" <= s && SkipSpace(At(s)) == At(s)
    ensures ValueAt(At(s), children) == Parsed(At(s), children, NoError)
  {
  }

  /** A text that comes out blank is dropped: the reference is read as a space. */
  lemma BlankText(tail: string, children: seq<Node>)
    ensures ValueAt(At("&#x20;" + ("<" + ("/" + tail))), children) == Parsed(At("<" + ("/" + tail)), children, NoError)
  {
    var s, end := "&#x20;" + ("<" + ("/" + tail)), "<" + ("/" + tail);
    assert "" + s == s && "" + end == end;
    SkipsTo("", s);
    SkipsTo("", end);
    SpaceText("/" + tail);
    assert "</" <= end;
    ValueStopsAt(end, children);
    ValueBehindText(s, At(end), " ", children);
  }

  // ---------------------------------------------------------------------------------
  // Declarations
  // ---------------------------------------------------------------------------------

  /** The word in small or capital letters, or both. */
  predicate Spells(s: string, small: string, capital: string) {
    |s| == |small| == |capital| && forall i :: 0 <= i < |s| ==> s[i] == small[i] || s[i] == capital[i]
  }

  lemma LikeSpelled(s: string, small: string, capital: string, rest: string)
    requires Spells(s, small, capital)
    requires forall i :: 0 <= i < |small| ==> Lower(small[i]) == small[i] == Lower(capital[i])
    ensures StartsLike(s + rest, small)
  {
  }

  /** A declaration starts with "<?xml" in any case. */
  lemma DeclarationHead(x: string, rest: string)
    requires Spells(x, "xml", "XML")
    ensures NodeAt("<?" + (x + rest)) == DeclarationParts(At(rest), Declaration("", "", ""))
  {
    var s := "<?" + (x + rest);
    assert s[..5] == "<?" + x && s[5..] == rest;
    assert s[2] == x[0] && s[3] == x[1] && s[4] == x[2];
    assert StartsLike(s, "<?xml");
  }

  /** What the first word of a part decides. */
  lemma PartStep(s: string, q: string, d: Node)
    requires d.Declaration? && s != "" && s[0] != '>' && SkipSpace(At(s)) == At(q) && q != ""
    ensures var a, v, e := AttributeAt(At(q)), StartsLike(q, "version"), StartsLike(q, "encoding");
            && (v ==> DeclarationParts(At(s), d) == DeclarationParts(a.next, d.(version := a.value.value)))
            && (!v && e ==> DeclarationParts(At(s), d) == DeclarationParts(a.next, d.(encoding := a.value.value)))
            && (!v && !e && StartsLike(q, "standalone") ==>
                  DeclarationParts(At(s), d) == DeclarationParts(a.next, d.(standalone := a.value.value)))
  {
  }

  /** Each part, whichever its case and its quotes, replaces what that part was before. */
  lemma VersionPart(gap: string, p: Written, rest: string, d: Node)
    requires Spaces(gap) && Spells(p.name, "version", "VERSION") && p.(gap := " ").Ok() && d.Declaration?
    requires rest != "" && AfterBare(rest)
    ensures DeclarationParts(At(p.(gap := gap).Text(rest)), d) == DeclarationParts(At(rest), d.(version := p.value))
  {
    PartAt(gap, p, rest);
    LikeSpelled(p.name, "version", "VERSION", PartTail(p, rest));
    PartStep(p.(gap := gap).Text(rest), p.name + PartTail(p, rest), d);
  }

  lemma EncodingKey(key: string, tail: string)
    requires Spells(key, "encoding", "ENCODING")
    ensures StartsLike(key + tail, "encoding") && !StartsLike(key + tail, "version")
  {
    LikeSpelled(key, "encoding", "ENCODING", tail);
    assert (key + tail)[0] == 'e' || (key + tail)[0] == 'E';
    NotLike(key + tail, "version");
  }

  lemma EncodingPart(gap: string, p: Written, rest: string, d: Node)
    requires Spaces(gap) && Spells(p.name, "encoding", "ENCODING") && p.(gap := " ").Ok() && d.Declaration?
    requires rest != "" && AfterBare(rest)
    ensures DeclarationParts(At(p.(gap := gap).Text(rest)), d) == DeclarationParts(At(rest), d.(encoding := p.value))
  {
    PartAt(gap, p, rest);
    EncodingKey(p.name, PartTail(p, rest));
    PartStep(p.(gap := gap).Text(rest), p.name + PartTail(p, rest), d);
  }

  lemma StandaloneKey(key: string, tail: string)
    requires Spells(key, "standalone", "STANDALONE")
    ensures StartsLike(key + tail, "standalone")
    ensures !StartsLike(key + tail, "version") && !StartsLike(key + tail, "encoding")
  {
    LikeSpelled(key, "standalone", "STANDALONE", tail);
    assert (key + tail)[0] == 's' || (key + tail)[0] == 'S';
    NotLike(key + tail, "version");
    NotLike(key + tail, "encoding");
  }

  lemma StandalonePart(gap: string, p: Written, rest: string, d: Node)
    requires Spaces(gap) && Spells(p.name, "standalone", "STANDALONE") && p.(gap := " ").Ok() && d.Declaration?
    requires rest != "" && AfterBare(rest)
    ensures DeclarationParts(At(p.(gap := gap).Text(rest)), d) == DeclarationParts(At(rest), d.(standalone := p.value))
  {
    PartAt(gap, p, rest);
    StandaloneKey(p.name, PartTail(p, rest));
    PartStep(p.(gap := gap).Text(rest), p.name + PartTail(p, rest), d);
  }

  function PartTail(p: Written, rest: string): string {
    p.left + ("=" + (p.right + (p.quote + (p.value + (p.quote + rest)))))
  }

  lemma PartAt(gap: string, p: Written, rest: string)
    requires Spaces(gap) && p.(gap := " ").Ok() && rest != "" && AfterBare(rest)
    ensures var s, q := p.(gap := gap).Text(rest), p.name + PartTail(p, rest);
            && q != "" && q[0] == p.name[0] && s != "" && s[0] != '>' && SkipSpace(At(s)) == At(q)
            && AttributeAt(At(q)) == Parsed(At(rest), Attribute(p.name, p.value), NoError)
  {
    var q := p.name + PartTail(p, rest);
    WrittenAttribute(p.(gap := " "), rest);
    NamedIsValid(p.name);
    SkipsTo(gap, q);
    assert (gap + q)[0] == if gap == "" then q[0] else gap[0];
  }

  /** A word that means nothing is skipped, and no more than that. */
  lemma OtherWord(gap: string, word: string, rest: string, d: Node)
    requires Spaces(gap) && word != "" && (forall i :: 0 <= i < |word| ==> !Space(word[i]) && word[i] != '>')
    requires d.Declaration? && (rest == "" || Space(rest[0]) || rest[0] == '>')
    requires word[0] !in "vVeEsS"
    ensures DeclarationParts(At(gap + (word + rest)), d) == DeclarationParts(At(rest), d)
  {
    var q := word + rest;
    assert q[0] == word[0];
    SkipsTo(gap, q);
    assert (gap + q)[0] == if gap == "" then word[0] else gap[0];
    NotLike(q, "version");
    NotLike(q, "encoding");
    NotLike(q, "standalone");
    SkipsWord(word, rest);
  }

  lemma {:induction false} SkipsWord(word: string, rest: string)
    requires forall i :: 0 <= i < |word| ==> !Space(word[i]) && word[i] != '>'
    requires rest == "" || Space(rest[0]) || rest[0] == '>'
    ensures SkipWord(word + rest) == rest
    decreases |word|
  {
    if word == "" {
      assert word + rest == rest;
    } else {
      assert (word + rest)[1..] == word[1..] + rest;
      SkipsWord(word[1..], rest);
    }
  }

  /** A closing bracket ends a declaration, the end of the text breaks it off; neither is an error. */
  lemma DeclarationEnds(gap: string, rest: string, d: Node)
    requires Spaces(gap) && d.Declaration?
    ensures DeclarationParts(At(gap + (">" + rest)), d) == Parsed(At(rest), d, NoError)
    ensures DeclarationParts(At(""), d) == Parsed(None, d, NoError)
  {
    var s := ">" + rest;
    assert s[1..] == rest;
    if gap == "" {
      assert gap + s == s;
    } else {
      SkipsTo(gap, s);
      assert (gap + s)[0] == gap[0];
      NotLike(s, "version");
      NotLike(s, "encoding");
      NotLike(s, "standalone");
      assert SkipWord(s) == s;
    }
  }

  // ---------------------------------------------------------------------------------
  // Documents
  // ---------------------------------------------------------------------------------

  /** Text where a tag should be ends the document: an error when there is no node yet, and left alone otherwise. */
  lemma TextAtTop(w: string, c: char, rest: string, nodes: seq<Node>)
    requires Spaces(w) && !Space(c) && c != '<'
    ensures DocumentAfter(w + ([c] + rest), nodes) ==
            if nodes == [] then Parsed(None, [], DocumentEmpty) else Parsed(At([c] + rest), nodes, NoError)
  {
    SkipsTo(w, [c] + rest);
    assert w + ([c] + rest) != "";
  }

  /** So does white space to the end; a text without a character is always an error. */
  lemma BlankAtTop(w: string, nodes: seq<Node>)
    requires Spaces(w)
    ensures DocumentAfter(w, nodes) ==
            if w == "" then Parsed(None, nodes, DocumentEmpty)
            else if nodes == [] then Parsed(None, [], DocumentEmpty)
            else Parsed(At(""), nodes, NoError)
  {
    SkipsSpaces(w, 'x', "");
  }

  /** A node that breaks off ends the document, which keeps what there is of it, with its error. */
  lemma BrokenAtTop(w: string, s: string, nodes: seq<Node>)
    requires Spaces(w) && s != "" && s[0] == '<' && NodeAt(s).next.None?
    ensures DocumentAfter(w + s, nodes) == Parsed(None, nodes + [NodeAt(s).value], NodeAt(s).error)
  {
    SkipsTo(w, s);
  }

  /** A node that does not goes on with the rest, and its error, if any, is the first. */
  lemma NodeAtTop(w: string, s: string, nodes: seq<Node>)
    requires Spaces(w) && s != "" && s[0] == '<' && NodeAt(s).next.At?
    ensures var n := NodeAt(s);
            var r := DocumentAt(n.next, nodes + [n.value]);
            DocumentAfter(w + s, nodes) == Parsed(r.next, r.value, if n.error == NoError then r.error else n.error)
  {
    SkipsTo(w, s);
  }
}
