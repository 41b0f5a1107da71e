/**
  The parser as TinyXML runs it: a cursor that moves through the text in loops and a document
  that keeps the first error. Each method is proved to compute what `XmlParse` describes, so
  printing a document and parsing the result is proved to give the document back.
 */
module XmlParser {
  import opened XmlText
  import opened XmlRead
  import opened XmlPrint
  import opened XmlParse
  import opened XmlRoundTrip

  // ---------------------------------------------------------------------------------
  // Comparing and scanning
  // ---------------------------------------------------------------------------------

  /** StringEqual: whether the text starts with the tag. */
  method StringEqual(s: string, tag: string, ignoreCase: bool) returns (r: bool)
    ensures r == if ignoreCase then StartsLike(s, tag) else tag <= s
  {
    var i := 0;
    if ignoreCase {
      while i < |s| && i < |tag| && Lower(s[i]) == Lower(tag[i])
        invariant i <= |s| && i <= |tag|
        invariant forall j :: 0 <= j < i ==> Lower(s[j]) == Lower(tag[j])
      {
        i := i + 1;
      }
    } else {
      while i < |s| && i < |tag| && s[i] == tag[i]
        invariant i <= |s| && i <= |tag|
        invariant forall j :: 0 <= j < i ==> s[j] == tag[j]
      {
        i := i + 1;
      }
      if i == |tag| {
        assert s[..i] == tag;
      }
    }
    return i == |tag|;
  }

  /** Identify, without making the node. */
  method IdentifyTag(s: string) returns (k: Kind)
    requires s != "" && s[0] == '<'
    ensures k == Identify(s)
  {
    var same := StringEqual(s, "<?xml", true);
    if same { return IsDeclaration; }
    same := StringEqual(s, "<!--", false);
    if same { return IsComment; }
    same := StringEqual(s, "<![CDATA[", false);
    if same { return IsCData; }
    same := StringEqual(s, "<!", false);
    if same { return IsUnknown; }
    return if |s| > 1 && IsNameStart(s[1]) then IsElement else IsUnknown;
  }

  lemma RawStep(text: string, s: string, end: string)
    requires s != "" && !(end <= s)
    ensures After(text, Raw(s, end)) == After(text + [s[0]], Raw(s[1..], end))
  {
  }

  /** The loops of comments, CDATA and unknown tags, which differ in their end marker. */
  method ReadRaw(s: string, end: string) returns (r: Read)
    ensures r == Raw(s, end)
  {
    var q, text := s, "";
    while q != "" && !(end <= q)
      invariant After(text, Raw(q, end)) == Raw(s, end)
      decreases |q|
    {
      RawStep(text, q, end);
      text, q := text + [q[0]], q[1..];
    }
    return Read(At(q), text);
  }

  method ReadWord(s: string) returns (r: string)
    ensures r == SkipWord(s)
  {
    r := s;
    while r != "" && r[0] != '>' && !IsWhiteSpace(r[0])
      invariant SkipWord(r) == SkipWord(s)
      decreases |r|
    {
      r := r[1..];
    }
  }

  /** What an unquoted value is after `text` of it has been read. */
  function Unread(text: string, r: Parsed<string>): Parsed<string> {
    r.(value := text + r.value)
  }

  lemma UnquotedStep(text: string, s: string)
    requires s != "" && !EndsUnquoted(s[0]) && s[0] != '\'' && s[0] != '\"'
    ensures Unread(text, Unquoted(s)) == Unread(text + [s[0]], Unquoted(s[1..]))
  {
    Reassociate(text, [s[0]], Unquoted(s[1..]).value);
  }

  method ReadUnquoted(s: string) returns (r: Parsed<string>)
    ensures r == Unquoted(s)
  {
    var q, text := s, "";
    assert "" + Unquoted(s).value == Unquoted(s).value;
    while q != "" && !EndsUnquoted(q[0])
      invariant Unread(text, Unquoted(q)) == Unquoted(s)
      decreases |q|
    {
      if q[0] == '\'' || q[0] == '\"' {
        assert text + "" == text;
        return Parsed(None, text, ReadingAttributes);
      }
      UnquotedStep(text, q);
      text, q := text + [q[0]], q[1..];
    }
    assert text + "" == text;
    return Parsed(At(q), text, NoError);
  }

  /** TiXmlAttributeSet::Find, over the attributes in order. */
  method FindAttribute(attributes: seq<Attribute>, name: string) returns (found: bool)
    ensures found == HasName(attributes, name)
  {
    for i := 0 to |attributes|
      invariant forall j :: 0 <= j < i ==> attributes[j].name != name
    {
      if attributes[i].name == name {
        return true;
      }
    }
    return false;
  }

  /** TiXmlText::Blank. */
  method Blank(value: string) returns (r: bool)
    ensures r == IsBlank(value)
  {
    for i := 0 to |value|
      invariant forall j :: 0 <= j < i ==> IsWhiteSpace(value[j])
    {
      if !IsWhiteSpace(value[i]) {
        return false;
      }
    }
    return true;
  }

  // ---------------------------------------------------------------------------------
  // Steps of the loops over attributes, children and top nodes
  // ---------------------------------------------------------------------------------

  lemma AttributeStep(s: string, name: string, attributes: seq<Attribute>, p: Ptr, a: Parsed<Attribute>)
    requires s != "" && p == SkipSpace(At(s)) && p.Live() && p.text[0] != '/' && p.text[0] != '>'
    requires a == AttributeAt(p) && a.next.Live() && !HasName(attributes, a.value.name)
    ensures AttributesAt(s, name, attributes) == AttributesAt(a.next.text, name, attributes + [a.value])
  {
  }

  lemma BadAttribute(s: string, name: string, attributes: seq<Attribute>, p: Ptr, a: Parsed<Attribute>)
    requires s != "" && p == SkipSpace(At(s)) && p.Live() && p.text[0] != '/' && p.text[0] != '>'
    requires a == AttributeAt(p) && (!a.next.Live() || HasName(attributes, a.value.name))
    ensures var r := AttributesAt(s, name, attributes);
            r == Parsed(None, Element(name, attributes, []), First(a.error, ParsingElement))
  {
  }

  lemma TextStep(p: Ptr, children: seq<Node>, q: Ptr, t: Parsed<string>)
    requires q == SkipSpace(p) && q.Live() && q.text[0] != '<' && t == TextAt(q.text)
    ensures ValueAt(p, children) ==
            if t.next.None? then Parsed(None, WithText(children, t.value), ReadingElementValue)
            else ValueAt(t.next, WithText(children, t.value))
  {
  }

  lemma NodeStep(p: Ptr, children: seq<Node>, q: Ptr, n: Parsed<Node>)
    requires q == SkipSpace(p) && q.Live() && q.text[0] == '<' && !("</" <= q.text) && n == NodeAt(q.text)
    ensures var r := ValueAt(n.next, children + [n.value]);
            ValueAt(p, children) == r.(error := First(n.error, r.error))
  {
  }

  lemma TopStep(p: Ptr, nodes: seq<Node>, q: Ptr, n: Parsed<Node>)
    requires q == SkipSpace(p) && q.Live() && q.text[0] == '<' && n == NodeAt(q.text)
    ensures var r := DocumentAt(n.next, nodes + [n.value]);
            DocumentAt(p, nodes) == r.(error := First(n.error, r.error))
  {
  }

  // ---------------------------------------------------------------------------------
  // The document
  // ---------------------------------------------------------------------------------

  class XmlDocument {
    var children: seq<Node>
    var error: Error

    constructor ()
      ensures children == [] && error == NoError
    {
      children, error := [], NoError;
    }

    method SetError(e: Error)
      modifies this`error
      ensures error == First(old(error), e)
      ensures error == if old(error) == NoError then e else old(error)
    {
      if error == NoError {
        error := e;
      }
    }

    /** TiXmlAttribute::Parse; an attribute that belongs to no document reports no error. */
    method ParseAttribute(p: Ptr, reports: bool) returns (next: Ptr, a: Attribute)
      modifies this`error
      ensures next == AttributeAt(p).next && a == AttributeAt(p).value
      ensures error == if reports then First(old(error), AttributeAt(p).error) else old(error)
    {
      var q := SkipWhiteSpace(p);
      if !q.Live() {
        return None, Attribute("", "");
      }
      var name := ReadName(q);
      var equals := SkipWhiteSpace(name.next);
      if !name.next.Live() || !equals.Live() || equals.text[0] != '=' {
        if reports { SetError(ReadingAttributes); }
        return None, Attribute(name.text, "");
      }
      var start := SkipWhiteSpace(At(equals.text[1..]));
      if !start.Live() {
        if reports { SetError(ReadingAttributes); }
        return None, Attribute(name.text, "");
      }
      var s := start.text;
      if s[0] == '\'' || s[0] == '\"' {
        var r := ReadText(At(s[1..]), false, [s[0]]);
        return r.next, Attribute(name.text, r.text);
      }
      var r := ReadUnquoted(s);
      if reports { SetError(r.error); }
      return r.next, Attribute(name.text, r.value);
    }

    /** TiXmlComment::Parse. */
    method ParseComment(s: string) returns (next: Ptr, n: Node)
      requires "<!--" <= s
      ensures next == CommentAt(s).next && n == CommentAt(s).value
    {
      var r := ReadRaw(s[4..], "-->");
      return if r.next.Live() then At(r.next.text[3..]) else r.next, Comment(r.text);
    }

    /** TiXmlUnknown::Parse. */
    method ParseUnknown(s: string) returns (next: Ptr, n: Node)
      requires s != ""
      ensures next == UnknownAt(s).next && n == UnknownAt(s).value
    {
      var r := ReadRaw(s[1..], ">");
      return if r.next.Live() then At(r.next.text[1..]) else r.next, Unknown(r.text);
    }

    /** TiXmlText::Parse, for CDATA: the end marker is stepped over by reading text up to it. */
    method ParseCData(s: string) returns (next: Ptr, n: Node)
      requires "<![CDATA[" <= s
      ensures next == CDataAt(s).next && n == CDataAt(s).value
    {
      var r := ReadRaw(s[9..], "]]>");
      var t := ReadText(r.next, false, "]]>");
      return t.next, Text(r.text, true);
    }

    /** TiXmlText::Parse, for plain text. */
    method ParseText(s: string) returns (next: Ptr, value: string)
      requires s != "" && s[0] != '<'
      ensures next == TextAt(s).next && value == TextAt(s).value
    {
      var r := ReadText(At(s), true, "<");
      return if r.next.At? then At("<" + r.next.text) else None, r.text;
    }

    /** TiXmlDeclaration::Parse. */
    method ParseDeclaration(s: string) returns (next: Ptr, n: Node)
      requires StartsLike(s, "<?xml")
      modifies this`error
      ensures next == DeclarationAt(s).next && n == DeclarationAt(s).value && error == old(error)
    {
      var p: Ptr := At(s[5..]);
      n := Declaration("", "", "");
      while p.Live()
        invariant n.Declaration? && error == old(error)
        invariant DeclarationParts(p, n) == DeclarationAt(s)
        decreases Size(p)
      {
        if p.text[0] == '>' {
          return At(p.text[1..]), n;
        }
        Shrinks(p);
        p, n := ParsePart(p, n);
      }
      return None, n;
    }

    /** One turn of the loop over the parts of a declaration. */
    method ParsePart(p: Ptr, d: Node) returns (next: Ptr, n: Node)
      requires p.Live() && p.text[0] != '>' && d.Declaration?
      modifies this`error
      ensures n.Declaration? && error == old(error)
      ensures Size(next) < Size(p)
      ensures DeclarationParts(next, n) == DeclarationParts(p, d)
    {
      Shrinks(p);
      var q := SkipWhiteSpace(p);
      if q.text == "" {
        return q, d;
      }
      var same := StringEqual(q.text, "version", true);
      var a;
      if same {
        next, a := ParseAttribute(q, false);
        return next, d.(version := a.value);
      }
      same := StringEqual(q.text, "encoding", true);
      if same {
        next, a := ParseAttribute(q, false);
        return next, d.(encoding := a.value);
      }
      same := StringEqual(q.text, "standalone", true);
      if same {
        next, a := ParseAttribute(q, false);
        return next, d.(standalone := a.value);
      }
      var rest := ReadWord(q.text);
      return At(rest), d;
    }

    /** Parse, for whatever node Identify finds. */
    method ParseNode(s: string) returns (next: Ptr, n: Node)
      requires s != "" && s[0] == '<'
      modifies this`error
      ensures next == NodeAt(s).next && n == NodeAt(s).value && error == First(old(error), NodeAt(s).error)
      decreases |s|, 2
    {
      var k := IdentifyTag(s);
      match k
      case IsDeclaration => next, n := ParseDeclaration(s);
      case IsComment => next, n := ParseComment(s);
      case IsCData => next, n := ParseCData(s);
      case IsUnknown => next, n := ParseUnknown(s);
      case IsElement => next, n := ParseElement(s);
    }

    /** TiXmlElement::Parse. */
    method ParseElement(s: string) returns (next: Ptr, n: Node)
      requires s != "" && s[0] == '<'
      modifies this`error
      ensures next == ElementAt(s).next && n == ElementAt(s).value && error == First(old(error), ElementAt(s).error)
      decreases |s|, 1
    {
      var start := SkipWhiteSpace(At(s[1..]));
      var name := ReadName(start);
      if !name.next.Live() {
        SetError(FailedToReadElementName);
        return None, Element(name.text, [], []);
      }
      next, n := ParseAttributes(name.next.text, name.text);
    }

    /** The loop over attributes. */
    method ParseAttributes(s: string, name: string) returns (next: Ptr, n: Node)
      requires s != ""
      modifies this`error
      ensures var r := AttributesAt(s, name, []);
              next == r.next && n == r.value && error == First(old(error), r.error)
      decreases |s|, 0, 1
    {
      var q, attributes := s, [];
      while true
        invariant q != "" && |q| <= |s| && error == old(error)
        invariant AttributesAt(q, name, attributes) == AttributesAt(s, name, [])
        decreases |q|
      {
        var p := SkipWhiteSpace(At(q));
        if !p.Live() || p.text[0] == '/' || p.text[0] == '>' {
          next, n := ParseTagEnd(q, p, name, attributes);
          return;
        }
        var more, a := ParseAttribute(p, true);
        var double := FindAttribute(attributes, a.name);
        if !more.Live() || double {
          BadAttribute(q, name, attributes, p, AttributeAt(p));
          SetError(ParsingElement);
          return None, Element(name, attributes, []);
        }
        AttributeStep(q, name, attributes, p, AttributeAt(p));
        q, attributes := more.text, attributes + [a];
      }
    }

    /** What ends the loop over attributes: the end of the text, an empty tag, or content and an end tag. */
    method ParseTagEnd(s: string, p: Ptr, name: string, attributes: seq<Attribute>) returns (next: Ptr, n: Node)
      requires s != "" && p == SkipSpace(At(s)) && (p.Live() ==> p.text[0] == '/' || p.text[0] == '>')
      modifies this`error
      ensures var r := AttributesAt(s, name, attributes);
              next == r.next && n == r.value && error == First(old(error), r.error)
      decreases |s|, 0, 0
    {
      if !p.Live() {
        SetError(ReadingAttributes);
        return None, Element(name, attributes, []);
      } else if p.text[0] == '/' {
        var same := StringEqual(p.text, "/>", false);
        if same {
          return At(p.text[2..]), Element(name, attributes, []);
        }
        SetError(ParsingEmpty);
        return None, Element(name, attributes, []);
      }
      var content;
      next, content := ReadValue(At(p.text[1..]));
      next := ParseEndTag(next, name);
      return next, Element(name, attributes, content);
    }

    method ParseEndTag(p: Ptr, name: string) returns (next: Ptr)
      modifies this`error
      ensures next == EndTagAt(p, name).next && error == First(old(error), EndTagAt(p, name).error)
    {
      if p.Live() {
        var same := StringEqual(p.text, "</" + name, false);
        if same {
          var q := SkipWhiteSpace(At(p.text[2 + |name|..]));
          if q.Live() && q.text[0] == '>' {
            return At(q.text[1..]);
          }
        }
      }
      SetError(ReadingEndTag);
      return None;
    }

    /** TiXmlElement::ReadValue. */
    method ReadValue(start: Ptr) returns (next: Ptr, content: seq<Node>)
      modifies this`error
      ensures var r := ValueAt(start, []);
              next == r.next && content == r.value && error == First(old(error), r.error)
      decreases if start.At? then |start.text| else 0, 3
    {
      ghost var p := start;
      content := [];
      next := SkipWhiteSpace(start);
      while next.Live()
        invariant p.At? ==> start.At? && |p.text| <= |start.text|
        invariant next == SkipSpace(p)
        invariant ValueAt(p, content).next == ValueAt(start, []).next
        invariant ValueAt(p, content).value == ValueAt(start, []).value
        invariant First(error, ValueAt(p, content).error) == First(old(error), ValueAt(start, []).error)
        decreases Size(next)
      {
        var s := next.text;
        if s[0] != '<' {
          TextStep(p, content, next, TextAt(s));
          var value;
          next, value := ParseText(s);
          var blank := Blank(value);
          if !blank {
            content := content + [Text(value, false)];
          }
        } else {
          var same := StringEqual(s, "</", false);
          if same {
            return;
          }
          NodeStep(p, content, next, NodeAt(s));
          var n;
          next, n := ParseNode(s);
          content := content + [n];
        }
        p := next;
        next := SkipWhiteSpace(next);
      }
      if next.None? {
        SetError(ReadingElementValue);
      }
    }

    /** TiXmlDocument::Parse: the error of an earlier parse is cleared, its nodes are not. */
    method Parse(text: string) returns (next: Ptr)
      modifies this
      ensures var r := DocumentAfter(text, old(children)); next == r.next && children == r.value && error == r.error
    {
      error := NoError;
      if text == "" {
        SetError(DocumentEmpty);
        return None;
      }
      ghost var r := DocumentAt(At(text), children);
      ghost var p: Ptr := At(text);
      next := SkipWhiteSpace(At(text));
      while next.Live()
        invariant next == SkipSpace(p)
        invariant DocumentAt(p, children).next == r.next && DocumentAt(p, children).value == r.value
        invariant First(error, DocumentAt(p, children).error) == r.error
        decreases Size(next)
      {
        if next.text[0] != '<' {
          break;
        }
        TopStep(p, children, next, NodeAt(next.text));
        var n;
        next, n := ParseNode(next.text);
        children := children + [n];
        p := next;
        next := SkipWhiteSpace(next);
      }
      if children == [] {
        SetError(DocumentEmpty);
        next := None;
      }
    }
  }

  /** Printing a document in any layout and parsing the text into a new one. */
  method PrintThenParse(l: Layout, nodes: seq<Node>) returns (text: string, document: XmlDocument)
    requires ValidLayout(l) && ValidDocument(nodes)
    ensures text == RenderAll(l, nodes, 0)
    ensures document.children == nodes && document.error == NoError
  {
    var printer := new Printer();
    printer.SetLayout(l);
    printer.AcceptAll(nodes);
    text := printer.buffer;
    document := new XmlDocument();
    RoundTrip(l, nodes);
    var _ := document.Parse(text);
  }
}
