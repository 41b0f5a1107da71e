/**
  TinyXML's recursive-descent parser, in the byte-wise encoding and with white space condensed
  (the default). Functions describe what is parsed from a text; methods with the loops of the
  source are proved to compute them. The first error met stays, and what was read before it is
  kept in the tree.
 */
module XmlParse {
  import opened XmlText
  import opened XmlRead
  import opened XmlPrint

  datatype Error =
    | NoError | ParsingElement | FailedToReadElementName | ReadingElementValue | ReadingAttributes
    | ParsingEmpty | ReadingEndTag | DocumentEmpty

  /** TiXmlDocument::SetError: the first error in a chain is the more accurate one. */
  function First(e: Error, f: Error): Error {
    if e == NoError then f else e
  }

  datatype Parsed<+T> = Parsed(next: Ptr, value: T, error: Error)

  // ---------------------------------------------------------------------------------
  // Attributes
  // ---------------------------------------------------------------------------------

  predicate EndsUnquoted(c: char) {
    IsWhiteSpace(c) || c == '/' || c == '>'
  }

  /** A value without quotes: up to white space or the end of the tag; a quote in it is an error. */
  function Unquoted(s: string): (r: Parsed<string>)
    ensures r.next.At? ==> |r.next.text| <= |s| && r.error == NoError
  {
    if s == "" || EndsUnquoted(s[0]) then Parsed(At(s), "", NoError)
    else if s[0] == '\'' || s[0] == '\"' then Parsed(None, "", ReadingAttributes)
    else
      var r := Unquoted(s[1..]);
      r.(value := [s[0]] + r.value)
  }

  /** The value after the equals sign, at its first character. */
  function AttributeValue(s: string): (r: Parsed<string>)
    requires s != ""
    ensures r.next.At? ==> |r.next.text| <= |s| && r.error == NoError
  {
    if s[0] == '\'' || s[0] == '\"' then
      var r := TextTo(At(s[1..]), false, [s[0]]);
      Parsed(r.next, r.text, NoError)
    else Unquoted(s)
  }

  /** TiXmlAttribute::Parse: name, equals sign, value. */
  function AttributeAt(p: Ptr): (r: Parsed<Attribute>)
    ensures r.next.At? ==> p.At? && |r.next.text| < |p.text| && r.error == NoError
  {
    var start := SkipSpace(p);
    if !start.Live() then Parsed(None, Attribute("", ""), NoError)
    else
      var name := Name(start);
      var equals := SkipSpace(name.next);
      if !name.next.Live() || !equals.Live() || equals.text[0] != '=' then
        Parsed(None, Attribute(name.text, ""), ReadingAttributes)
      else
        var value := SkipSpace(At(equals.text[1..]));
        if !value.Live() then Parsed(None, Attribute(name.text, ""), ReadingAttributes)
        else
          var r := AttributeValue(value.text);
          Parsed(r.next, Attribute(name.text, r.value), r.error)
  }

  predicate HasName(attributes: seq<Attribute>, name: string) {
    exists i :: 0 <= i < |attributes| && attributes[i].name == name
  }

  // ---------------------------------------------------------------------------------
  // What a tag is
  // ---------------------------------------------------------------------------------

  function Lower(c: char): char {
    if 'A' <= c <= 'Z' then (c as int + 32) as char else c
  }

  /** StringEqual, ignoring case. */
  predicate StartsLike(s: string, tag: string) {
    |tag| <= |s| && forall i :: 0 <= i < |tag| ==> Lower(s[i]) == Lower(tag[i])
  }

  datatype Kind = IsDeclaration | IsComment | IsCData | IsUnknown | IsElement

  /** Identify, at an opening bracket. */
  function Identify(s: string): Kind
    requires s != "" && s[0] == '<'
  {
    if StartsLike(s, "<?xml") then IsDeclaration
    else if "<!--" <= s then IsComment
    else if "<![CDATA[" <= s then IsCData
    else if "<!" <= s then IsUnknown
    else if |s| > 1 && IsNameStart(s[1]) then IsElement
    else IsUnknown
  }

  // ---------------------------------------------------------------------------------
  // Leaves
  // ---------------------------------------------------------------------------------

  /** The characters before the end marker, taken as they are. */
  function Raw(s: string, end: string): (r: Read)
    ensures r.next.At? && |r.next.text| <= |s|
    ensures r.next.Live() ==> end <= r.next.text
  {
    if s == "" || end <= s then Read(At(s), "")
    else
      var r := Raw(s[1..], end);
      Read(r.next, [s[0]] + r.text)
  }

  function CommentAt(s: string): (r: Parsed<Node>)
    requires "<!--" <= s
    ensures r.next.At? ==> |r.next.text| < |s|
  {
    var r := Raw(s[4..], "-->");
    Parsed(if r.next.Live() then At(r.next.text[3..]) else r.next, Comment(r.text), NoError)
  }

  function CDataAt(s: string): (r: Parsed<Node>)
    requires "<![CDATA[" <= s
    ensures r.next.At? ==> |r.next.text| < |s|
  {
    var r := Raw(s[9..], "]]>");
    Parsed(TextTo(r.next, false, "]]>").next, Text(r.text, true), NoError)
  }

  function UnknownAt(s: string): (r: Parsed<Node>)
    requires s != ""
    ensures r.next.At? ==> |r.next.text| < |s|
  {
    var r := Raw(s[1..], ">");
    Parsed(if r.next.Live() then At(r.next.text[1..]) else r.next, Unknown(r.text), NoError)
  }

  /** What follows a word that means nothing in a declaration. */
  function SkipWord(s: string): (r: string)
    ensures |r| <= |s|
    ensures s != "" && s[0] != '>' && !IsWhiteSpace(s[0]) ==> |r| < |s|
  {
    if s == "" || s[0] == '>' || IsWhiteSpace(s[0]) then s else SkipWord(s[1..])
  }

  /** The parts of a declaration in any order, up to the closing bracket. */
  function DeclarationParts(p: Ptr, d: Node): (r: Parsed<Node>)
    requires d.Declaration?
    ensures r.next.At? ==> p.At? && |r.next.text| < |p.text|
    ensures r.error == NoError
    decreases Size(p)
  {
    if !p.Live() then Parsed(None, d, NoError)
    else if p.text[0] == '>' then Parsed(At(p.text[1..]), d, NoError)
    else
      var q := SkipSpace(p);
      if q.Live() && StartsLike(q.text, "version") then
        DeclarationParts(AttributeAt(q).next, d.(version := AttributeAt(q).value.value))
      else if q.Live() && StartsLike(q.text, "encoding") then
        DeclarationParts(AttributeAt(q).next, d.(encoding := AttributeAt(q).value.value))
      else if q.Live() && StartsLike(q.text, "standalone") then
        DeclarationParts(AttributeAt(q).next, d.(standalone := AttributeAt(q).value.value))
      else
        Shrinks(p);
        DeclarationParts(At(SkipWord(q.text)), d)
  }

  /** Skipping space or a word makes progress. */
  lemma Shrinks(p: Ptr)
    requires p.Live() && p.text[0] != '>'
    ensures SkipSpace(p).At? && |SkipWord(SkipSpace(p).text)| < |p.text|
  {
  }

  function DeclarationAt(s: string): (r: Parsed<Node>)
    requires StartsLike(s, "<?xml")
    ensures r.next.At? ==> |r.next.text| < |s|
    ensures r.error == NoError
  {
    DeclarationParts(At(s[5..]), Declaration("", "", ""))
  }

  /** TiXmlText::Parse, away from CDATA: condensed text up to the next bracket, which stays. */
  function TextAt(s: string): (r: Parsed<string>)
    requires s != "" && s[0] != '<'
    ensures r.next.At? ==> |r.next.text| < |s|
  {
    var r := TextTo(At(s), true, "<");
    TextProgress(s);
    Parsed(if r.next.At? then At("<" + r.next.text) else None, r.text, NoError)
  }

  lemma TextProgress(s: string)
    requires s != "" && s[0] != '<'
    ensures var r := TextTo(At(s), true, "<").next; r.At? ==> |r.text| + 1 < |s|
  {
    var q := SkipSpace(At(s));
    if q.Live() && q.text == s {
      var c := GetChar(s);
      assert !("<" <= s);
    } else if q.Live() {
      assert |q.text| < |s|;
    }
  }

  // ---------------------------------------------------------------------------------
  // Elements
  // ---------------------------------------------------------------------------------

  /** The node at an opening bracket. */
  function NodeAt(s: string): (r: Parsed<Node>)
    requires s != "" && s[0] == '<'
    ensures r.next.At? ==> |r.next.text| < |s|
    decreases |s|, 2
  {
    match Identify(s)
    case IsDeclaration => DeclarationAt(s)
    case IsComment => CommentAt(s)
    case IsCData => CDataAt(s)
    case IsUnknown => UnknownAt(s)
    case IsElement => ElementAt(s)
  }

  /** TiXmlElement::Parse, at an opening bracket. */
  function ElementAt(s: string): (r: Parsed<Node>)
    requires s != "" && s[0] == '<'
    ensures r.next.At? ==> |r.next.text| < |s|
    decreases |s|, 1
  {
    var name := Name(SkipSpace(At(s[1..])));
    if !name.next.Live() then Parsed(None, Element(name.text, [], []), FailedToReadElementName)
    else AttributesAt(name.next.text, name.text, [])
  }

  /** The rest of a tag after its name and some attributes, then the content and the end tag. */
  function AttributesAt(s: string, name: string, attributes: seq<Attribute>): (r: Parsed<Node>)
    requires s != ""
    ensures r.next.At? ==> |r.next.text| < |s|
    decreases |s|, 0
  {
    var p := SkipSpace(At(s));
    if !p.Live() then Parsed(None, Element(name, attributes, []), ReadingAttributes)
    else if p.text[0] == '/' then
      if "/>" <= p.text then Parsed(At(p.text[2..]), Element(name, attributes, []), NoError)
      else Parsed(None, Element(name, attributes, []), ParsingEmpty)
    else if p.text[0] == '>' then
      var content := ValueAt(At(p.text[1..]), []);
      var end := EndTagAt(content.next, name);
      Parsed(end.next, Element(name, attributes, content.value), First(content.error, end.error))
    else
      var a := AttributeAt(p);
      if !a.next.Live() then Parsed(None, Element(name, attributes, []), First(a.error, ParsingElement))
      else if HasName(attributes, a.value.name) then Parsed(None, Element(name, attributes, []), ParsingElement)
      else AttributesAt(a.next.text, name, attributes + [a.value])
  }

  function EndTagAt(p: Ptr, name: string): (r: Parsed<()>)
    ensures r.next.At? ==> p.At? && |r.next.text| < |p.text|
  {
    if p.Live() && "</" + name <= p.text then
      var q := SkipSpace(At(p.text[2 + |name|..]));
      if q.Live() && q.text[0] == '>' then Parsed(At(q.text[1..]), (), NoError) else Parsed(None, (), ReadingEndTag)
    else Parsed(None, (), ReadingEndTag)
  }

  /** TiXmlElement::ReadValue: texts and nodes up to an end tag, after those already read. */
  function ValueAt(p: Ptr, children: seq<Node>): (r: Parsed<seq<Node>>)
    ensures r.next.At? ==> p.At? && |r.next.text| <= |p.text|
    decreases if p.At? then |p.text| else 0, 3
  {
    var q := SkipSpace(p);
    if q.None? then Parsed(None, children, ReadingElementValue)
    else if q.text == "" then Parsed(q, children, NoError)
    else if q.text[0] != '<' then
      var t := TextAt(q.text);
      if t.next.None? then Parsed(None, WithText(children, t.value), ReadingElementValue)
      else ValueAt(t.next, WithText(children, t.value))
    else if "</" <= q.text then Parsed(q, children, NoError)
    else
      var n := NodeAt(q.text);
      if n.next.None? then Parsed(None, children + [n.value], First(n.error, ReadingElementValue))
      else
        var r := ValueAt(n.next, children + [n.value]);
        r.(error := First(n.error, r.error))
  }

  /** Blank text is dropped. */
  function WithText(children: seq<Node>, value: string): seq<Node> {
    if IsBlank(value) then children else children + [Text(value, false)]
  }

  /** The nodes at the top, after those already there. */
  function DocumentAt(p: Ptr, nodes: seq<Node>): (r: Parsed<seq<Node>>)
    decreases if p.At? then |p.text| else 0
  {
    var q := SkipSpace(p);
    if !q.Live() || q.text[0] != '<' then
      if nodes == [] then Parsed(None, [], DocumentEmpty) else Parsed(q, nodes, NoError)
    else
      var n := NodeAt(q.text);
      if n.next.None? then Parsed(None, nodes + [n.value], n.error)
      else
        var r := DocumentAt(n.next, nodes + [n.value]);
        r.(error := First(n.error, r.error))
  }

  /** TiXmlDocument::Parse: a text that is empty from the start is an error even behind earlier nodes. */
  function DocumentAfter(text: string, nodes: seq<Node>): Parsed<seq<Node>> {
    if text == "" then Parsed(None, nodes, DocumentEmpty) else DocumentAt(At(text), nodes)
  }

  function Document(text: string): Parsed<seq<Node>> {
    DocumentAfter(text, [])
  }
}
