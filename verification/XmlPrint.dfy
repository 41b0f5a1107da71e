/**
  TinyXML documents and the printer that visits them. `Render` is what a document looks like
  in a given layout; the printer object appends exactly that to its buffer.
 */
module XmlPrint {
  import opened XmlText

  datatype Attribute = Attribute(name: string, value: string)

  datatype Node =
    | Element(name: string, attributes: seq<Attribute>, children: seq<Node>)
    | Text(value: string, cdata: bool)
    | Comment(value: string)
    | Unknown(value: string)
    | Declaration(version: string, encoding: string, standalone: string)

  /** What is put in front of a line, once per level, and after it. Both are empty when streaming. */
  datatype Layout = Layout(indent: string, lineBreak: string)

  const PRETTY: Layout := Layout("    ", "\n")

  function Pad(l: Layout, depth: nat): string {
    if depth == 0 then "" else Pad(l, depth - 1) + l.indent
  }

  /** A value goes between double quotes unless it contains one. */
  function QuoteFor(value: string): char {
    if '\"' in value then '\'' else '\"'
  }

  function RenderAttribute(a: Attribute): string {
    Encode(a.name) + "=" + [QuoteFor(a.value)] + Encode(a.value) + [QuoteFor(a.value)]
  }

  function RenderAttributes(attributes: seq<Attribute>): string {
    if attributes == [] then "" else " " + RenderAttribute(attributes[0]) + RenderAttributes(attributes[1..])
  }

  /** A single text that is not CDATA is kept on the line of its element. */
  predicate IsSimple(children: seq<Node>) {
    |children| == 1 && children[0].Text? && !children[0].cdata
  }

  function RenderPart(key: string, value: string): string {
    if value == "" then "" else key + "=\"" + value + "\" "
  }

  function StartTag(name: string, attributes: seq<Attribute>): string {
    "<" + name + RenderAttributes(attributes)
  }

  function EndTag(name: string): string {
    "</" + name + ">"
  }

  function Render(l: Layout, n: Node, depth: nat): string
    decreases n, 1
  {
    Pad(l, depth) + RenderBody(l, n, depth) + l.lineBreak
  }

  /** A node without the padding and the line break around it. */
  function RenderBody(l: Layout, n: Node, depth: nat): string
    decreases n, 0
  {
    match n
    case Element(name, attributes, children) =>
      if children == [] then StartTag(name, attributes) + " />"
      else if IsSimple(children) then StartTag(name, attributes) + ">" + Encode(children[0].value) + EndTag(name)
      else StartTag(name, attributes) + ">" + l.lineBreak + RenderAll(l, children, depth + 1)
           + Pad(l, depth) + EndTag(name)
    case Text(value, cdata) => if cdata then "<![CDATA[" + CString(value) + "]]>" else Encode(value)
    case Comment(value) => "<!--" + CString(value) + "-->"
    case Unknown(value) => "<" + CString(value) + ">"
    case Declaration(version, encoding, standalone) =>
      "<?xml " + RenderPart("version", version) + RenderPart("encoding", encoding) +
      RenderPart("standalone", standalone) + "?>"
  }

  function RenderAll(l: Layout, ns: seq<Node>, depth: nat): string
    decreases ns
  {
    if ns == [] then "" else Render(l, ns[0], depth) + RenderAll(l, ns[1..], depth)
  }

  // ---------------------------------------------------------------------------------
  // What each visit appends
  // ---------------------------------------------------------------------------------

  function Entering(l: Layout, e: Node, depth: nat): string
    requires e.Element?
  {
    Pad(l, depth) + StartTag(e.name, e.attributes) +
    (if e.children == [] then " />" + l.lineBreak else if IsSimple(e.children) then ">" else ">" + l.lineBreak)
  }

  function Inside(l: Layout, e: Node, depth: nat): string
    requires e.Element?
  {
    if e.children == [] then ""
    else if IsSimple(e.children) then Encode(e.children[0].value)
    else RenderAll(l, e.children, depth + 1)
  }

  function Leaving(l: Layout, e: Node, depth: nat): string
    requires e.Element?
  {
    if e.children == [] then ""
    else (if IsSimple(e.children) then "" else Pad(l, depth)) + EndTag(e.name) + l.lineBreak
  }

  lemma JoinEmpty(before: string, pad: string, start: string, close: string, br: string)
    ensures before + (pad + start + (close + br)) + "" + "" == before + (pad + (start + close) + br)
  {
  }

  lemma JoinSimple(before: string, pad: string, start: string, close: string, text: string, end: string, br: string)
    ensures before + (pad + start + close) + text + ("" + end + br) ==
            before + (pad + (start + close + text + end) + br)
  {
  }

  lemma JoinFull(before: string, pad: string, start: string, close: string, all: string, end: string, br: string)
    ensures before + (pad + start + (close + br)) + all + (pad + end + br) ==
            before + (pad + (start + close + br + all + pad + end) + br)
  {
  }

  lemma VisitsRender(l: Layout, e: Node, depth: nat, before: string)
    requires e.Element?
    ensures before + Entering(l, e, depth) + Inside(l, e, depth) + Leaving(l, e, depth) == before + Render(l, e, depth)
  {
    var pad, start, end, br := Pad(l, depth), StartTag(e.name, e.attributes), EndTag(e.name), l.lineBreak;
    if e.children == [] {
      JoinEmpty(before, pad, start, " />", br);
    } else if IsSimple(e.children) {
      JoinSimple(before, pad, start, ">", Encode(e.children[0].value), end, br);
    } else {
      JoinFull(before, pad, start, ">", RenderAll(l, e.children, depth + 1), end, br);
    }
  }

  lemma JoinTag(before: string, pad: string, start: string, close: string)
    ensures (before + pad) + (start + close) == before + (pad + start + close)
  {
  }

  lemma RenderAllStep(l: Layout, ns: seq<Node>, i: nat, depth: nat, text: string)
    requires i < |ns|
    ensures text + RenderAll(l, ns[i..], depth) == (text + Render(l, ns[i], depth)) + RenderAll(l, ns[i + 1..], depth)
  {
    assert ns[i..][0] == ns[i] && ns[i..][1..] == ns[i + 1..];
  }

  /** The tag of an element as far as its attributes go. */
  method PrintStartTag(e: Node) returns (text: string)
    requires e.Element?
    ensures text == StartTag(e.name, e.attributes)
  {
    text := "<" + e.name;
    ghost var whole := StartTag(e.name, e.attributes);
    assert e.attributes[0..] == e.attributes;
    for i := 0 to |e.attributes|
      invariant text + RenderAttributes(e.attributes[i..]) == whole
    {
      AttributesStep(e.attributes, i, text);
      var a := PrintAttribute(e.attributes[i]);
      text := text + " " + a;
    }
  }

  lemma AttributesStep(attributes: seq<Attribute>, i: nat, text: string)
    requires i < |attributes|
    ensures text + RenderAttributes(attributes[i..]) ==
            (text + " " + RenderAttribute(attributes[i])) + RenderAttributes(attributes[i + 1..])
  {
    assert attributes[i..][0] == attributes[i] && attributes[i..][1..] == attributes[i + 1..];
  }

  /** TiXmlAttribute::Print. */
  method PrintAttribute(a: Attribute) returns (text: string)
    ensures text == RenderAttribute(a)
  {
    var n := EncodeString(a.name);
    var v := EncodeString(a.value);
    if '\"' !in a.value {
      text := n + "=\"" + v + "\"";
    } else {
      text := n + "='" + v + "'";
    }
  }

  lemma OnOwnLine(before: string, pad: string, text: string, lineBreak: string)
    ensures (before + pad) + (text + lineBreak) == before + (pad + text + lineBreak)
  {
  }

  /** What is printed for anything but an element. */
  method PrintLeaf(l: Layout, n: Node, depth: nat) returns (text: string)
    requires !n.Element?
    ensures text == RenderBody(l, n, depth)
  {
    match n {
      case Text(value, cdata) =>
        if cdata {
          text := "<![CDATA[" + CString(value) + "]]>";
        } else {
          text := EncodeString(value);
        }
      case Comment(value) =>
        text := "<!--" + CString(value) + "-->";
      case Unknown(value) =>
        text := "<" + CString(value) + ">";
      case Declaration(version, encoding, standalone) =>
        text := "<?xml ";
        text := text + RenderPart("version", version);
        text := text + RenderPart("encoding", encoding);
        text := text + RenderPart("standalone", standalone) + "?>";
    }
  }

  class Printer {
    var depth: nat
    var simpleTextPrint: bool
    var buffer: string
    var layout: Layout

    constructor ()
      ensures depth == 0 && !simpleTextPrint && buffer == "" && layout == PRETTY
    {
      depth, simpleTextPrint, buffer, layout := 0, false, "", PRETTY;
    }

    /** SetIndent and SetLineBreak; SetStreamPrinting is the empty layout. */
    method SetLayout(l: Layout)
      modifies this`layout
      ensures layout == l
    {
      layout := l;
    }

    method DoIndent()
      modifies this`buffer
      ensures buffer == old(buffer) + Pad(layout, depth)
    {
      for i := 0 to depth
        invariant buffer == old(buffer) + Pad(layout, i)
      {
        buffer := buffer + layout.indent;
      }
    }

    /** VisitEnter, for an element. */
    method EnterElement(e: Node)
      requires e.Element? && !simpleTextPrint
      modifies this
      ensures layout == old(layout) && depth == old(depth) + 1
      ensures simpleTextPrint == IsSimple(e.children)
      ensures buffer == old(buffer) + Entering(layout, e, old(depth))
    {
      DoIndent();
      var tag := PrintStartTag(e);
      var close;
      if e.children == [] {
        close := " />" + layout.lineBreak;
      } else if IsSimple(e.children) {
        close := ">";
        simpleTextPrint := true;
      } else {
        close := ">" + layout.lineBreak;
      }
      JoinTag(old(buffer), Pad(layout, depth), tag, close);
      buffer := buffer + (tag + close);
      depth := depth + 1;
    }

    /** VisitExit, for an element. */
    method ExitElement(e: Node)
      requires e.Element? && depth > 0 && simpleTextPrint == IsSimple(e.children)
      modifies this
      ensures layout == old(layout) && depth == old(depth) - 1 && !simpleTextPrint
      ensures buffer == old(buffer) + Leaving(layout, e, depth)
    {
      depth := depth - 1;
      if e.children != [] {
        if simpleTextPrint {
          simpleTextPrint := false;
        } else {
          DoIndent();
        }
        buffer := buffer + (EndTag(e.name) + layout.lineBreak);
      }
    }

    /** Visit, for everything that is not an element. */
    method VisitLeaf(n: Node)
      requires !n.Element? && (simpleTextPrint ==> n.Text? && !n.cdata)
      modifies this`buffer
      ensures buffer == old(buffer) + if simpleTextPrint then RenderBody(layout, n, depth) else Render(layout, n, depth)
    {
      var text := PrintLeaf(layout, n, depth);
      if simpleTextPrint {
        buffer := buffer + text;
      } else {
        OnOwnLine(buffer, Pad(layout, depth), text, layout.lineBreak);
        DoIndent();
        buffer := buffer + (text + layout.lineBreak);
      }
    }

    /** Accept: the printer visits a node and, between entering and leaving it, its children. */
    method Accept(n: Node)
      requires !simpleTextPrint
      modifies this
      ensures layout == old(layout) && depth == old(depth) && !simpleTextPrint
      ensures buffer == old(buffer) + Render(layout, n, depth)
      decreases n, 1
    {
      if n.Element? {
        EnterElement(n);
        if simpleTextPrint {
          VisitLeaf(n.children[0]);
        } else {
          AcceptAll(n.children);
        }
        ExitElement(n);
        VisitsRender(layout, n, depth, old(buffer));
      } else {
        VisitLeaf(n);
      }
    }

    method AcceptAll(ns: seq<Node>)
      requires !simpleTextPrint
      modifies this
      ensures layout == old(layout) && depth == old(depth) && !simpleTextPrint
      ensures buffer == old(buffer) + RenderAll(layout, ns, depth)
      decreases ns, 0
    {
      assert ns[0..] == ns;
      for i := 0 to |ns|
        invariant layout == old(layout) && depth == old(depth) && !simpleTextPrint
        invariant buffer + RenderAll(layout, ns[i..], depth) == old(buffer) + RenderAll(layout, ns, depth)
      {
        RenderAllStep(layout, ns, i, depth, buffer);
        Accept(ns[i]);
      }
    }
  }
}
