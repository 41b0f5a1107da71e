/**
  Parsing undoes printing. For every layout made of white space, streaming included, the parser
  reads the printed form of a document back as the same document. What a document must satisfy
  is what XML asks of names, attributes and comments, plus what TinyXML cannot print: texts must
  be condensed, not blank and not next to each other, and hold no hexadecimal reference.
 */
module XmlRoundTrip {
  import opened XmlText
  import opened XmlRead
  import opened XmlPrint
  import opened XmlParse

  // ---------------------------------------------------------------------------------
  // Printable documents
  // ---------------------------------------------------------------------------------

  predicate ValidLayout(l: Layout) {
    IsBlank(l.indent) && IsBlank(l.lineBreak)
  }

  predicate ValidAttributes(attributes: seq<Attribute>) {
    && (forall i :: 0 <= i < |attributes| ==> ValidName(attributes[i].name) && NoReference(attributes[i].value))
    && (forall i, j :: 0 <= i < j < |attributes| ==> attributes[i].name != attributes[j].name)
  }

  predicate Contains(s: string, part: string) {
    exists i :: 0 <= i <= |s| && part <= s[i..]
  }

  predicate ValidPart(value: string) {
    '\"' !in value && '&' !in value && '\0' !in value
  }

  predicate PlainText(n: Node) {
    n.Text? && !n.cdata
  }

  predicate Valid(n: Node)
    decreases n, 1
  {
    match n
    case Element(name, attributes, children) => ValidName(name) && ValidAttributes(attributes) && ValidAll(children)
    case Text(value, cdata) =>
      if cdata then '\0' !in value && !Contains(value, "]]>")
      else NoReference(value) && IsCondensed(value) && !IsBlank(value)
    case Comment(value) => '\0' !in value && !Contains(value, "-->")
    case Unknown(value) =>
      '\0' !in value && '>' !in value && Identify("<" + value + ">") == IsUnknown && !("/" <= value)
    case Declaration(version, encoding, standalone) =>
      ValidPart(version) && ValidPart(encoding) && ValidPart(standalone)
  }

  predicate ValidAll(ns: seq<Node>)
    decreases ns, 0
  {
    ns != [] ==>
      && Valid(ns[0]) && ValidAll(ns[1..])
      && (|ns| > 1 ==> !(PlainText(ns[0]) && PlainText(ns[1])))
  }

  // ---------------------------------------------------------------------------------
  // White space in front
  // ---------------------------------------------------------------------------------

  lemma BlankConcat(v: string, w: string)
    requires IsBlank(v) && IsBlank(w)
    ensures IsBlank(v + w)
  {
  }

  lemma {:induction false} PadBlank(l: Layout, depth: nat)
    requires ValidLayout(l)
    ensures IsBlank(Pad(l, depth))
  {
    if depth > 0 {
      PadBlank(l, depth - 1);
      BlankConcat(Pad(l, depth - 1), l.indent);
    }
  }

  /** White space is skipped up to anything that is not. */
  lemma SkipBlank(w: string, s: string)
    requires IsBlank(w) && s != "" && !IsWhiteSpace(s[0])
    ensures SkipSpace(At(w + s)) == At(s)
  {
    DropBlank(w, s);
  }

  lemma ValueBlank(w: string, s: string, children: seq<Node>)
    requires IsBlank(w) && s != ""
    ensures ValueAt(At(w + s), children) == ValueAt(At(s), children)
  {
    DropBlank(w, s);
    assert SkipSpace(At(w + s)) == SkipSpace(At(s));
  }

  // ---------------------------------------------------------------------------------
  // Attributes
  // ---------------------------------------------------------------------------------

  lemma ReadsAttribute(a: Attribute, rest: string)
    requires ValidName(a.name) && NoReference(a.value) && rest != ""
    ensures AttributeAt(At(RenderAttribute(a) + rest)) == Parsed(At(rest), a, NoError)
  {
    var q := QuoteFor(a.value);
    EncodeName(a.name);
    var value := [q] + (Encode(a.value) + ([q] + rest));
    assert RenderAttribute(a) + rest == a.name + ("=" + value);
    ReadsValue(a.value, q, rest);
    assert value[1..] == Encode(a.value) + ([q] + rest);
    ReadsPair(a.name, value);
  }

  lemma SkipHere(s: string)
    requires s != "" && !IsWhiteSpace(s[0])
    ensures SkipSpace(At(s)) == At(s)
  {
  }

  lemma NameNotSpace(name: string)
    requires ValidName(name)
    ensures !IsWhiteSpace(name[0]) && name[0] != '/' && name[0] != '>' && name[0] != '<'
  {
  }

  lemma AttributeStart(a: Attribute)
    requires ValidName(a.name)
    ensures RenderAttribute(a) != "" && RenderAttribute(a)[0] == a.name[0]
  {
    EncodeName(a.name);
  }

  /** One more attribute with a new name. */
  lemma ReadsOneAttribute(done: seq<Attribute>, a: Attribute, name: string, rest: string)
    requires ValidName(a.name) && NoReference(a.value) && !HasName(done, a.name) && rest != ""
    ensures AttributesAt(" " + (RenderAttribute(a) + rest), name, done) == AttributesAt(rest, name, done + [a])
  {
    AttributeStart(a);
    NameNotSpace(a.name);
    SkipBlank(" ", RenderAttribute(a) + rest);
    ReadsAttribute(a, rest);
  }

  lemma Regroup(a: string, b: string, c: string, d: string)
    ensures (a + b + c) + d == a + (b + (c + d))
  {
  }

  /** The first of what is to do joins what is done. */
  lemma Shift<T>(done: seq<T>, todo: seq<T>)
    requires todo != []
    ensures done + todo == (done + [todo[0]]) + todo[1..]
  {
  }

  lemma RenderAttributesCons(todo: seq<Attribute>, close: string)
    requires todo != []
    ensures RenderAttributes(todo) + close == " " + (RenderAttribute(todo[0]) + (RenderAttributes(todo[1..]) + close))
  {
    Regroup(" ", RenderAttribute(todo[0]), RenderAttributes(todo[1..]), close);
  }

  lemma FreshName(done: seq<Attribute>, todo: seq<Attribute>)
    requires todo != [] && ValidAttributes(done + todo)
    ensures ValidName(todo[0].name) && NoReference(todo[0].value) && !HasName(done, todo[0].name)
  {
    var all := done + todo;
    assert all[|done|] == todo[0];
    assert forall i :: 0 <= i < |done| ==> all[i] == done[i];
  }

  /** All attributes, after those already read, up to whatever closes the tag. */
  lemma {:induction false} ReadsAttributes(done: seq<Attribute>, todo: seq<Attribute>, name: string, close: string)
    requires ValidAttributes(done + todo) && close != ""
    ensures AttributesAt(RenderAttributes(todo) + close, name, done) == AttributesAt(close, name, done + todo)
    decreases |todo|
  {
    if todo == [] {
      assert RenderAttributes(todo) + close == close && done + todo == done;
    } else {
      FreshName(done, todo);
      RenderAttributesCons(todo, close);
      ReadsOneAttribute(done, todo[0], name, RenderAttributes(todo[1..]) + close);
      Shift(done, todo);
      ReadsAttributes(done + [todo[0]], todo[1..], name, close);
    }
  }

  // ---------------------------------------------------------------------------------
  // Leaves
  // ---------------------------------------------------------------------------------

  lemma ContainsTail(v: string, part: string)
    requires v != "" && !Contains(v, part)
    ensures !(part <= v) && !Contains(v[1..], part)
  {
    assert v[0..] == v;
    forall i | 0 <= i <= |v[1..]|
      ensures !(part <= v[1..][i..])
    {
      assert v[1..][i..] == v[i + 1..];
    }
  }

  /** An end marker that ends in a character it holds nowhere else cannot start inside the value. */
  lemma {:induction false} ReadsRaw(v: string, end: string, rest: string)
    requires !Contains(v, end) && end != ""
    requires forall i :: 0 <= i < |end| - 1 ==> end[i] != end[|end| - 1]
    ensures Raw(v + (end + rest), end) == Read(At(end + rest), v)
    decreases |v|
  {
    var s := v + (end + rest);
    if v == "" {
      assert s == end + rest;
      assert end <= s;
    } else {
      ContainsTail(v, end);
      assert s[1..] == v[1..] + (end + rest);
      ReadsRaw(v[1..], end, rest);
      NoStraddle(v, end, rest);
      assert v == [v[0]] + v[1..];
    }
  }

  lemma NoStraddle(v: string, end: string, rest: string)
    requires v != "" && end != "" && !(end <= v)
    requires forall i :: 0 <= i < |end| - 1 ==> end[i] != end[|end| - 1]
    ensures !(end <= v + (end + rest))
  {
    var s, last := v + (end + rest), |end| - 1;
    if |end| <= |v| {
      assert s[..|end|] == v[..|end|];
    } else {
      assert s[last] == end[last - |v|] != end[last];
    }
  }

  lemma SingleRaw(v: string, c: char, rest: string)
    requires c !in v
    ensures Raw(v + ([c] + rest), [c]) == Read(At([c] + rest), v)
  {
    forall i | 0 <= i <= |v|
      ensures !([c] <= v[i..])
    {
      assert i < |v| ==> v[i..][0] == v[i] != c;
    }
    ReadsRaw(v, [c], rest);
  }

  lemma ReadsComment(v: string, rest: string)
    requires !Contains(v, "-->")
    ensures NodeAt(("<!--" + v + "-->") + rest) == Parsed(At(rest), Comment(v), NoError)
  {
    var s := ("<!--" + v + "-->") + rest;
    assert s == "<!--" + (v + ("-->" + rest));
    assert s[1] == '!' && "<!--" <= s;
    assert Identify(s) == IsComment;
    assert s[4..] == v + ("-->" + rest);
    ReadsRaw(v, "-->", rest);
    assert ("-->" + rest)[3..] == rest;
  }

  lemma ReadsCData(v: string, rest: string)
    requires !Contains(v, "]]>") && rest != ""
    ensures NodeAt(("<![CDATA[" + v + "]]>") + rest) == Parsed(At(rest), Text(v, true), NoError)
  {
    var s := ("<![CDATA[" + v + "]]>") + rest;
    assert s == "<![CDATA[" + (v + ("]]>" + rest));
    assert s[1] == '!' && s[2] == '[' && "<![CDATA[" <= s;
    assert Identify(s) == IsCData;
    assert s[9..] == v + ("]]>" + rest);
    ReadsRaw(v, "]]>", rest);
    var t := "]]>" + rest;
    assert "]]>" <= t && t[3..] == rest;
    assert Keep(At(t), "]]>") == Read(At(t), "");
  }

  /** None of the patterns that tell tags apart holds a closing bracket, so what follows one is not looked at. */
  lemma IdentifyUnknown(v: string, rest: string)
    requires '>' !in v && Identify("<" + v + ">") == IsUnknown
    ensures Identify(("<" + v + ">") + rest) == IsUnknown
  {
    var t := "<" + v + ">";
    PrefixStops("<!--", t, rest);
    PrefixStops("<![CDATA[", t, rest);
    PrefixStops("<!", t, rest);
    LikeStops(t, rest);
    assert |t| > 1 && (t + rest)[1] == t[1];
  }

  lemma PrefixStops(tag: string, t: string, rest: string)
    requires t != "" && t[|t| - 1] == '>' && '>' !in tag
    ensures tag <= t + rest <==> tag <= t
  {
    var s := t + rest;
    if |tag| < |t| {
      assert s[..|tag|] == t[..|tag|];
    } else {
      assert s[|t| - 1] == '>' != tag[|t| - 1];
    }
  }

  lemma LikeStops(t: string, rest: string)
    requires t != "" && t[|t| - 1] == '>'
    ensures StartsLike(t + rest, "<?xml") <==> StartsLike(t, "<?xml")
  {
    var s := t + rest;
    assert forall i :: 0 <= i < |t| ==> s[i] == t[i];
    if |t| < 5 {
      assert Lower(s[|t| - 1]) == '>' != Lower("<?xml"[|t| - 1]);
    }
  }

  lemma ReadsUnknown(v: string, rest: string)
    requires '>' !in v && Identify("<" + v + ">") == IsUnknown
    ensures NodeAt(("<" + v + ">") + rest) == Parsed(At(rest), Unknown(v), NoError)
  {
    var s := ("<" + v + ">") + rest;
    IdentifyUnknown(v, rest);
    assert s[1..] == v + (">" + rest);
    SingleRaw(v, '>', rest);
    assert (">" + rest)[1..] == rest;
    UnknownNode(s);
  }

  lemma UnknownNode(s: string)
    requires s != "" && s[0] == '<' && Identify(s) == IsUnknown
    ensures NodeAt(s) == UnknownAt(s)
  {
  }

  // ---------------------------------------------------------------------------------
  // Declarations
  // ---------------------------------------------------------------------------------

  lemma {:induction false} KeepPlain(v: string, rest: string)
    requires ValidPart(v)
    ensures Keep(At(v + ("\"" + rest)), "\"") == Read(At("\"" + rest), v)
    decreases |v|
  {
    var s := v + ("\"" + rest);
    if v == "" {
      assert s == "\"" + rest;
    } else {
      assert s[0] == v[0] && s[1..] == v[1..] + ("\"" + rest);
      assert v[0] in v && forall c :: c in v[1..] ==> c in v;
      KeepPlain(v[1..], rest);
      assert !("\"" <= s);
      assert v == [v[0]] + v[1..];
    }
  }

  lemma QuotedPart(value: string, rest: string)
    requires ValidPart(value) && rest != ""
    ensures AttributeValue("\"" + (value + ("\"" + rest))) == Parsed(At(rest), value, NoError)
  {
    var quoted := "\"" + (value + ("\"" + rest));
    assert quoted[1..] == value + ("\"" + rest);
    KeepPlain(value, rest);
    assert ("\"" + rest)[1..] == rest;
  }

  /** One part of a declaration, read as an attribute. */
  lemma ReadsPart(key: string, value: string, rest: string)
    requires ValidName(key) && ValidPart(value) && rest != ""
    ensures AttributeAt(At(key + ("=\"" + (value + ("\"" + rest))))) == Parsed(At(rest), Attribute(key, value), NoError)
  {
    var quoted := "\"" + (value + ("\"" + rest));
    QuotedPart(value, rest);
    Reassociate("=", "\"", value + ("\"" + rest));
    assert "=" + "\"" == "=\"";
    ReadsPair(key, quoted);
  }

  /** A name, an equals sign and whatever the value is. */
  lemma ReadsPair(key: string, value: string)
    requires ValidName(key) && value != "" && !IsWhiteSpace(value[0])
    ensures var r := AttributeValue(value);
            AttributeAt(At(key + ("=" + value))) == Parsed(r.next, Attribute(key, r.value), r.error)
  {
    var s := key + ("=" + value);
    NameNotSpace(key);
    assert s[0] == key[0];
    SkipHere(s);
    ReadsName(key, "=" + value);
    SkipHere("=" + value);
    assert ("=" + value)[1..] == value;
    SkipHere(value);
  }

  lemma PartText(key: string, value: string, more: string)
    requires value != ""
    ensures " " + (RenderPart(key, value) + more) == " " + (key + ("=\"" + (value + ("\"" + (" " + more)))))
  {
    assert RenderPart(key, value) + more == key + ("=\"" + (value + ("\"" + (" " + more)))) by {
      Regroup(key + "=\"", value, "\" ", more);
      assert "\" " + more == "\"" + (" " + more);
    }
  }

  /** A part that is not empty is found past the space before it. */
  lemma PartStart(key: string, value: string, more: string) returns (q: string)
    requires ValidName(key) && ValidPart(value) && value != ""
    ensures SkipSpace(At(" " + (RenderPart(key, value) + more))) == At(q)
    ensures StartsLike(q, key) && q != "" && q[0] == key[0]
    ensures AttributeAt(At(q)) == Parsed(At(" " + more), Attribute(key, value), NoError)
  {
    var tail := "=\"" + (value + ("\"" + (" " + more)));
    q := key + tail;
    PartText(key, value, more);
    NameNotSpace(key);
    SkipBlank(" ", q);
    ReadsPart(key, value, " " + more);
  }

  lemma NotLike(s: string, other: string)
    requires s != "" && other != "" && Lower(s[0]) != Lower(other[0])
    ensures !StartsLike(s, other)
  {
  }

  lemma ReadsVersion(value: string, more: string, d: Node)
    requires ValidPart(value) && d.Declaration? && d.version == ""
    ensures DeclarationParts(At(" " + (RenderPart("version", value) + more)), d) ==
            DeclarationParts(At(" " + more), d.(version := value))
  {
    if value == "" {
      assert RenderPart("version", value) + more == more;
    } else {
      var q := PartStart("version", value, more);
    }
  }

  lemma ReadsEncoding(value: string, more: string, d: Node)
    requires ValidPart(value) && d.Declaration? && d.encoding == ""
    ensures DeclarationParts(At(" " + (RenderPart("encoding", value) + more)), d) ==
            DeclarationParts(At(" " + more), d.(encoding := value))
  {
    if value == "" {
      assert RenderPart("encoding", value) + more == more;
    } else {
      var q := PartStart("encoding", value, more);
      NotLike(q, "version");
    }
  }

  lemma ReadsStandalone(value: string, more: string, d: Node)
    requires ValidPart(value) && d.Declaration? && d.standalone == ""
    ensures DeclarationParts(At(" " + (RenderPart("standalone", value) + more)), d) ==
            DeclarationParts(At(" " + more), d.(standalone := value))
  {
    if value == "" {
      assert RenderPart("standalone", value) + more == more;
    } else {
      var q := PartStart("standalone", value, more);
      NotLike(q, "version");
      NotLike(q, "encoding");
    }
  }

  lemma ReadsDeclarationEnd(rest: string, d: Node)
    requires d.Declaration?
    ensures DeclarationParts(At(" " + ("?>" + rest)), d) == Parsed(At(rest), d, NoError)
  {
    var s := "?>" + rest;
    SkipBlank(" ", s);
    NotLike(s, "version");
    NotLike(s, "encoding");
    NotLike(s, "standalone");
    assert s[1..] == ">" + rest && SkipWord(s) == SkipWord(s[1..]) == ">" + rest;
    assert (">" + rest)[1..] == rest;
  }

  lemma ReadsDeclaration(d: Node, l: Layout, depth: nat, rest: string)
    requires d.Declaration? && Valid(d)
    ensures NodeAt(RenderBody(l, d, depth) + rest) == Parsed(At(rest), d, NoError)
  {
    var r1, r2 := RenderPart("version", d.version), RenderPart("encoding", d.encoding);
    var r3 := RenderPart("standalone", d.standalone);
    var s := RenderBody(l, d, depth) + rest;
    var end := "?>" + rest;
    assert s == "<?xml" + (" " + (r1 + (r2 + (r3 + end))));
    assert s[5..] == " " + (r1 + (r2 + (r3 + end)));
    assert StartsLike(s, "<?xml");
    var d0 := Declaration("", "", "");
    ReadsVersion(d.version, r2 + (r3 + end), d0);
    var d1 := d0.(version := d.version);
    ReadsEncoding(d.encoding, r3 + end, d1);
    var d2 := d1.(encoding := d.encoding);
    ReadsStandalone(d.standalone, end, d2);
    ReadsDeclarationEnd(rest, d);
  }

  // ---------------------------------------------------------------------------------
  // Elements
  // ---------------------------------------------------------------------------------

  /** Everything but plain text starts with a bracket and is no end tag. */
  lemma BodyStart(l: Layout, n: Node, depth: nat)
    requires Valid(n) && !PlainText(n)
    ensures var b := RenderBody(l, n, depth); |b| >= 2 && b[0] == '<' && b[1] != '/'
  {
    if n.Element? {
      ElementText(l, n, depth);
      NameNotSpace(n.name);
    } else if n.Unknown? {
      CStringIsWhole(n.value);
    }
  }

  /** The text of an element after its attributes. */
  function Closing(l: Layout, e: Node, depth: nat): string
    requires e.Element?
  {
    if e.children == [] then " />"
    else if IsSimple(e.children) then ">" + Encode(e.children[0].value) + EndTag(e.name)
    else ">" + l.lineBreak + RenderAll(l, e.children, depth + 1) + Pad(l, depth) + EndTag(e.name)
  }

  lemma ElementText(l: Layout, e: Node, depth: nat)
    requires e.Element?
    ensures RenderBody(l, e, depth) == "<" + (e.name + (RenderAttributes(e.attributes) + Closing(l, e, depth)))
  {
    var name, attrs := e.name, RenderAttributes(e.attributes);
    if e.children == [] {
      GroupTag(name, attrs, " />");
    } else if IsSimple(e.children) {
      GroupSimple(name, attrs, Encode(e.children[0].value), EndTag(name));
    } else {
      GroupFull(name, attrs, l.lineBreak, RenderAll(l, e.children, depth + 1), Pad(l, depth), EndTag(name));
    }
  }

  lemma GroupSimple(name: string, attrs: string, text: string, end: string)
    ensures "<" + name + attrs + ">" + text + end == "<" + (name + (attrs + (">" + text + end)))
  {
    GroupTag(name, attrs, ">" + text + end);
  }

  lemma GroupFull(name: string, attrs: string, br: string, all: string, pad: string, end: string)
    ensures "<" + name + attrs + ">" + br + all + pad + end == "<" + (name + (attrs + (">" + br + all + pad + end)))
  {
    var start := "<" + name + attrs;
    assert start + ">" + br + all + pad + end == start + (">" + br + all + pad + end);
    GroupTag(name, attrs, ">" + br + all + pad + end);
  }

  lemma GroupTag(name: string, attrs: string, close: string)
    ensures ("<" + name + attrs) + close == "<" + (name + (attrs + close))
  {
  }

  lemma AfterName(attributes: seq<Attribute>, close: string)
    requires close != "" && (close[0] == ' ' || close[0] == '>')
    ensures var after := RenderAttributes(attributes) + close;
            after != "" && !IsNameChar(after[0])
  {
    if attributes != [] {
      RenderAttributesCons(attributes, close);
    } else {
      assert RenderAttributes(attributes) + close == close;
    }
  }

  lemma ReadsElementName(name: string, after: string)
    requires ValidName(name) && after != "" && !IsNameChar(after[0])
    ensures NodeAt("<" + (name + after)) == AttributesAt(after, name, [])
  {
    var s := "<" + (name + after);
    assert s[1..] == name + after && s[1] == name[0];
    IdentifyElement(s);
    NameNotSpace(name);
    SkipHere(name + after);
    ReadsName(name, after);
  }

  /** An element is read as its name, its attributes and then its closing part. */
  lemma ReadsTag(e: Node, close: string)
    requires e.Element? && Valid(e) && close != "" && (close[0] == ' ' || close[0] == '>')
    ensures NodeAt("<" + (e.name + (RenderAttributes(e.attributes) + close)))
            == AttributesAt(close, e.name, e.attributes)
  {
    AfterName(e.attributes, close);
    ReadsElementName(e.name, RenderAttributes(e.attributes) + close);
    assert [] + e.attributes == e.attributes;
    ReadsAttributes([], e.attributes, e.name, close);
  }

  lemma IdentifyElement(s: string)
    requires |s| > 1 && s[0] == '<' && IsNameStart(s[1])
    ensures Identify(s) == IsElement
  {
    assert Lower(s[1]) != Lower("<?xml"[1]);
  }

  lemma ReadsEndTag(name: string, rest: string)
    ensures "</" <= EndTag(name) + rest
    ensures EndTagAt(At(EndTag(name) + rest), name) == Parsed(At(rest), (), NoError)
  {
    var s := EndTag(name) + rest;
    assert s == ("</" + name) + (">" + rest);
    assert "</" + name <= s && s[2 + |name|..] == ">" + rest;
    SkipHere(">" + rest);
    assert (">" + rest)[1..] == rest;
  }

  /** A closing part with content: the content, then the end tag. */
  lemma ReadsContent(content: string, children: seq<Node>, name: string, attributes: seq<Attribute>, rest: string)
    requires ValueAt(At(content + (EndTag(name) + rest)), []) == Parsed(At(EndTag(name) + rest), children, NoError)
    ensures AttributesAt(">" + (content + (EndTag(name) + rest)), name, attributes) ==
            Parsed(At(rest), Element(name, attributes, children), NoError)
  {
    var s := ">" + (content + (EndTag(name) + rest));
    SkipHere(s);
    assert s[1..] == content + (EndTag(name) + rest);
    ReadsEndTag(name, rest);
  }

  lemma Bracket(s: string)
    requires s != "" && s[0] == '<'
    ensures s == "<" + s[1..]
  {
  }

  /** After the children of a list there is, past white space, a bracket. */
  lemma NextBracket(l: Layout, ns: seq<Node>, depth: nat, w: string, t: string) returns (blank: string, z: string)
    requires ValidLayout(l) && ValidAll(ns) && (ns != [] ==> !PlainText(ns[0]))
    requires IsBlank(w) && "</" <= t
    ensures IsBlank(blank) && z != ""
    ensures RenderAll(l, ns, depth) + (w + t) == blank + ("<" + z)
  {
    if ns == [] {
      blank, z := w, t[1..];
      Bracket(t);
      assert RenderAll(l, ns, depth) + (w + t) == w + t;
    } else {
      var b := RenderBody(l, ns[0], depth);
      BodyStart(l, ns[0], depth);
      PadBlank(l, depth);
      var more := l.lineBreak + (RenderAll(l, ns[1..], depth) + (w + t));
      blank, z := Pad(l, depth), (b + more)[1..];
      RenderAllCons(l, ns, depth, w + t);
      Bracket(b + more);
    }
  }

  lemma RenderAllCons(l: Layout, ns: seq<Node>, depth: nat, tail: string)
    requires ns != []
    ensures RenderAll(l, ns, depth) + tail ==
            Pad(l, depth) + (RenderBody(l, ns[0], depth) + (l.lineBreak + (RenderAll(l, ns[1..], depth) + tail)))
  {
    Join5(Pad(l, depth), RenderBody(l, ns[0], depth), l.lineBreak, RenderAll(l, ns[1..], depth), tail);
  }

  lemma Join5(a: string, b: string, c: string, d: string, e: string)
    ensures ((a + b + c) + d) + e == a + (b + (c + (d + e)))
  {
  }

  lemma TextStart(v: string, more: string)
    requires NoReference(v) && IsCondensed(v) && v != ""
    ensures var s := Encode(v) + more; s != "" && !IsWhiteSpace(s[0]) && s[0] != '<'
  {
    EncodeCons(v, more);
    EscapeFirst(v[0]);
    assert (Escape(v[0]) + (Encode(v[1..]) + more))[0] == Escape(v[0])[0];
  }

  /** A plain text in front of a bracket becomes a text node. */
  lemma ReadsTextNode(v: string, blank: string, z: string, done: seq<Node>)
    requires Valid(Text(v, false)) && IsBlank(blank) && z != ""
    ensures ValueAt(At(Encode(v) + (blank + ("<" + z))), done) == ValueAt(At("<" + z), done + [Text(v, false)])
  {
    var s := Encode(v) + (blank + ("<" + z));
    TextStart(v, blank + ("<" + z));
    SkipHere(s);
    ReadsText(v, blank, z);
    CondensedExactly(v);
    assert TextAt(s) == Parsed(At("<" + z), v, NoError);
  }

  /** Any other child is read by its kind. */
  lemma ReadsOtherNode(n: Node, body: string, more: string, done: seq<Node>)
    requires |body| >= 2 && body[0] == '<' && body[1] != '/'
    requires NodeAt(body + more) == Parsed(At(more), n, NoError)
    ensures ValueAt(At(body + more), done) == ValueAt(At(more), done + [n])
  {
    var s := body + more;
    SkipHere(s);
    assert s[1] == body[1] && !("</" <= s);
  }

  lemma {:induction false} ReadsNode(l: Layout, n: Node, depth: nat, rest: string)
    requires ValidLayout(l) && Valid(n) && !PlainText(n) && (n.Text? ==> rest != "")
    ensures NodeAt(RenderBody(l, n, depth) + rest) == Parsed(At(rest), n, NoError)
    decreases n, 3
  {
    match n
    case Comment(value) =>
      CStringIsWhole(value);
      ReadsComment(value, rest);
    case Text(value, _) =>
      CStringIsWhole(value);
      ReadsCData(value, rest);
    case Unknown(value) =>
      CStringIsWhole(value);
      ReadsUnknown(value, rest);
    case Declaration(_, _, _) => ReadsDeclaration(n, l, depth, rest);
    case Element(_, _, _) => ReadsElement(l, n, depth, rest);
  }

  lemma {:induction false} ReadsElement(l: Layout, e: Node, depth: nat, rest: string)
    requires ValidLayout(l) && e.Element? && Valid(e)
    ensures NodeAt(RenderBody(l, e, depth) + rest) == Parsed(At(rest), e, NoError)
    decreases e, 2
  {
    var close := Closing(l, e, depth);
    ElementText(l, e, depth);
    GroupRest(e.name, RenderAttributes(e.attributes), close, rest);
    ReadsTag(e, close + rest);
    ReadsClosing(l, e, depth, rest);
  }

  lemma ReadsEmpty(name: string, attributes: seq<Attribute>, rest: string)
    ensures AttributesAt(" />" + rest, name, attributes) == Parsed(At(rest), Element(name, attributes, []), NoError)
  {
    SkipBlank(" ", "/>" + rest);
    assert " />" + rest == " " + ("/>" + rest);
    assert ("/>" + rest)[2..] == rest;
  }

  lemma GroupRest(name: string, attrs: string, close: string, rest: string)
    ensures ("<" + (name + (attrs + close))) + rest == "<" + (name + (attrs + (close + rest)))
  {
  }

  lemma ValueEnds(t: string, children: seq<Node>)
    requires "</" <= t
    ensures ValueAt(At(t), children) == Parsed(At(t), children, NoError)
  {
    SkipHere(t);
  }

  /** An element that holds a single text. */
  lemma ReadsSimple(name: string, attributes: seq<Attribute>, text: Node, rest: string)
    requires PlainText(text) && Valid(text)
    ensures AttributesAt((">" + Encode(text.value) + EndTag(name)) + rest, name, attributes) ==
            Parsed(At(rest), Element(name, attributes, [text]), NoError)
  {
    var v, end := text.value, EndTag(name) + rest;
    ReadsEndTag(name, rest);
    Bracket(end);
    ReadsTextNode(v, "", end[1..], []);
    assert "" + end == end && [] + [text] == [text];
    ValueEnds(end, [text]);
    ReadsContent(Encode(v), [text], name, attributes, rest);
    Regroup(">", Encode(v), EndTag(name), rest);
  }

  lemma GroupContent(br: string, all: string, pad: string, end: string, rest: string)
    ensures (">" + br + all + pad + end) + rest == ">" + ((br + all + pad) + (end + rest))
    ensures (br + all + pad) + (end + rest) == br + (all + (pad + (end + rest)))
  {
  }

  lemma {:induction false} ReadsClosing(l: Layout, e: Node, depth: nat, rest: string)
    requires ValidLayout(l) && e.Element? && Valid(e)
    ensures AttributesAt(Closing(l, e, depth) + rest, e.name, e.attributes) == Parsed(At(rest), e, NoError)
    decreases e, 1
  {
    if e.children == [] {
      ReadsEmpty(e.name, e.attributes, rest);
    } else if IsSimple(e.children) {
      ReadsSimple(e.name, e.attributes, e.children[0], rest);
      assert [e.children[0]] == e.children;
    } else {
      ReadsFull(l, e, depth, rest);
    }
  }

  /** Content between the line breaks and the padding of its element. */
  lemma ReadsBetween(br: string, all: string, pad: string, children: seq<Node>, name: string,
                     attributes: seq<Attribute>, rest: string)
    requires IsBlank(br)
    requires ValueAt(At(all + (pad + (EndTag(name) + rest))), []) == Parsed(At(EndTag(name) + rest), children, NoError)
    ensures AttributesAt((">" + br + all + pad + EndTag(name)) + rest, name, attributes) ==
            Parsed(At(rest), Element(name, attributes, children), NoError)
  {
    GroupContent(br, all, pad, EndTag(name), rest);
    ValueBlank(br, all + (pad + (EndTag(name) + rest)), []);
    ReadsContent(br + all + pad, children, name, attributes, rest);
  }

  lemma {:induction false} ReadsFull(l: Layout, e: Node, depth: nat, rest: string)
    requires ValidLayout(l) && e.Element? && Valid(e) && e.children != [] && !IsSimple(e.children)
    ensures AttributesAt(Closing(l, e, depth) + rest, e.name, e.attributes) == Parsed(At(rest), e, NoError)
    decreases e, 0
  {
    var all, pad := RenderAll(l, e.children, depth + 1), Pad(l, depth);
    PadBlank(l, depth);
    ReadsEndTag(e.name, rest);
    ReadsAll(l, [], e.children, depth + 1, pad, EndTag(e.name) + rest);
    assert [] + e.children == e.children;
    ReadsBetween(l.lineBreak, all, pad, e.children, e.name, e.attributes, rest);
  }

  /** A plain text among children: the white space after it is dropped. */
  lemma ReadsPlainChild(l: Layout, n: Node, todo: seq<Node>, depth: nat, w: string, t: string, done: seq<Node>)
    requires ValidLayout(l) && PlainText(n) && Valid(n)
    requires ValidAll(todo) && (todo != [] ==> !PlainText(todo[0])) && IsBlank(w) && "</" <= t
    ensures var rest := l.lineBreak + (RenderAll(l, todo, depth) + (w + t));
            ValueAt(At(Encode(n.value) + rest), done) == ValueAt(At(rest), done + [n])
  {
    var blank, z := NextBracket(l, todo, depth, w, t);
    BlankConcat(l.lineBreak, blank);
    Reassociate(l.lineBreak, blank, "<" + z);
    ReadsTextNode(n.value, l.lineBreak + blank, z, done);
    ValueBlank(l.lineBreak + blank, "<" + z, done + [n]);
  }

  lemma {:induction false} ReadsAll(l: Layout, done: seq<Node>, todo: seq<Node>, depth: nat, w: string, t: string)
    requires ValidLayout(l) && ValidAll(todo) && IsBlank(w) && "</" <= t
    ensures ValueAt(At(RenderAll(l, todo, depth) + (w + t)), done) == Parsed(At(t), done + todo, NoError)
    decreases todo, 2
  {
    if todo == [] {
      assert RenderAll(l, todo, depth) + (w + t) == w + t && done + todo == done;
      ValueBlank(w, t, done);
      ValueEnds(t, done);
    } else {
      ReadsFirst(l, done, todo, depth, w, t);
      ReadsAll(l, done + [todo[0]], todo[1..], depth, w, t);
      Shift(done, todo);
    }
  }

  /** The first child of a list is read and the rest is left. */
  lemma {:induction false} ReadsFirst(l: Layout, done: seq<Node>, todo: seq<Node>, depth: nat, w: string, t: string)
    requires ValidLayout(l) && todo != [] && ValidAll(todo) && IsBlank(w) && "</" <= t
    ensures ValueAt(At(RenderAll(l, todo, depth) + (w + t)), done) ==
            ValueAt(At(RenderAll(l, todo[1..], depth) + (w + t)), done + [todo[0]])
    decreases todo, 1
  {
    var n, body := todo[0], RenderBody(l, todo[0], depth);
    var rest := RenderAll(l, todo[1..], depth) + (w + t);
    RenderAllCons(l, todo, depth, w + t);
    PadBlank(l, depth);
    ValueBlank(Pad(l, depth), body + (l.lineBreak + rest), done);
    ValueBlank(l.lineBreak, rest, done + [n]);
    if PlainText(n) {
      ReadsPlainChild(l, n, todo[1..], depth, w, t, done);
    } else {
      BodyStart(l, n, depth);
      ReadsNode(l, n, depth, l.lineBreak + rest);
      ReadsOtherNode(n, body, l.lineBreak + rest, done);
    }
  }

  // ---------------------------------------------------------------------------------
  // Documents
  // ---------------------------------------------------------------------------------

  /** A document holds at least one node, and no text at the top. */
  predicate ValidDocument(nodes: seq<Node>) {
    nodes != [] && ValidAll(nodes) && NoText(nodes)
  }

  predicate NoText(nodes: seq<Node>) {
    forall i :: 0 <= i < |nodes| ==> !nodes[i].Text?
  }

  lemma DocumentBlank(w: string, s: string, nodes: seq<Node>)
    requires IsBlank(w) && nodes != []
    ensures DocumentAt(At(w + s), nodes).value == DocumentAt(At(s), nodes).value
    ensures DocumentAt(At(w + s), nodes).error == DocumentAt(At(s), nodes).error
  {
    if s == "" {
      SkipAllBlank(w);
      assert w + s == w;
    } else {
      DropBlank(w, s);
      assert SkipSpace(At(w + s)) == SkipSpace(At(s));
    }
  }

  lemma {:induction false} SkipAllBlank(w: string)
    requires IsBlank(w)
    ensures DropSpace(w) == ""
  {
    if w != "" {
      SkipAllBlank(w[1..]);
    }
  }

  /** A node at the top is read and what follows it is left. */
  lemma ReadsTopNode(n: Node, body: string, more: string, done: seq<Node>)
    requires body != "" && body[0] == '<'
    requires NodeAt(body + more) == Parsed(At(more), n, NoError)
    ensures DocumentAt(At(body + more), done) == DocumentAt(At(more), done + [n])
  {
    SkipHere(body + more);
  }

  lemma {:induction false} ReadsNodes(l: Layout, done: seq<Node>, todo: seq<Node>)
    requires ValidLayout(l) && ValidAll(todo) && NoText(todo) && done + todo != []
    ensures var r := DocumentAt(At(RenderAll(l, todo, 0)), done); r.value == done + todo && r.error == NoError
    decreases |todo|
  {
    if todo == [] {
      assert done + todo == done;
    } else {
      var n, body, rest := todo[0], RenderBody(l, todo[0], 0), RenderAll(l, todo[1..], 0);
      assert todo[1..] != [] ==> NoText(todo[1..]);
      RenderAllCons(l, todo, 0, "");
      assert RenderAll(l, todo, 0) + "" == RenderAll(l, todo, 0) && rest + "" == rest;
      assert Pad(l, 0) + (body + (l.lineBreak + rest)) == body + (l.lineBreak + rest);
      BodyStart(l, n, 0);
      ReadsNode(l, n, 0, l.lineBreak + rest);
      ReadsTopNode(n, body, l.lineBreak + rest, done);
      DocumentBlank(l.lineBreak, rest, done + [n]);
      Shift(done, todo);
      ReadsNodes(l, done + [n], todo[1..]);
    }
  }

  /** Printing a document in any layout and parsing it gives the document back, without an error. */
  lemma RoundTrip(l: Layout, nodes: seq<Node>)
    requires ValidLayout(l) && ValidDocument(nodes)
    ensures var r := Document(RenderAll(l, nodes, 0)); r.value == nodes && r.error == NoError
  {
    assert [] + nodes == nodes;
    ReadsNodes(l, [], nodes);
  }
}
