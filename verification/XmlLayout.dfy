/**
  What printed XML looks like, written out on the nodes: which elements stay on one line, how
  lines are indented, which quotes a value gets, and how every kind of node is spelled.
 */
module XmlLayout {
  import opened XmlText
  import opened XmlPrint

  /** The i-th of the pieces of length n of a text; empty past its end. */
  function Piece(s: string, n: nat, i: nat): string {
    if i * n + n <= |s| then s[i * n..i * n + n] else ""
  }

  lemma {:induction false} PieceEnds(n: nat, i: nat, depth: nat)
    requires i < depth
    ensures i * n + n <= depth * n
    decreases depth
  {
    assert depth * n == (depth - 1) * n + n;
    if i < depth - 1 {
      PieceEnds(n, i, depth - 1);
    }
  }

  lemma PieceFront(s: string, t: string, n: nat, i: nat)
    requires i * n + n <= |s|
    ensures Piece(s + t, n, i) == Piece(s, n, i)
  {
    assert (s + t)[i * n..i * n + n] == s[i * n..i * n + n];
  }

  lemma PieceLast(s: string, t: string, i: nat)
    requires |s| == i * |t|
    ensures Piece(s + t, |t|, i) == t
  {
    assert (s + t)[|s|..|s| + |t|] == t;
  }

  lemma {:induction false} PadLength(l: Layout, depth: nat)
    ensures |Pad(l, depth)| == depth * |l.indent|
    decreases depth
  {
    if depth > 0 {
      PadLength(l, depth - 1);
      assert depth * |l.indent| == (depth - 1) * |l.indent| + |l.indent|;
    }
  }

  /** The padding is the indent, once for each level. */
  lemma {:induction false} PadIs(l: Layout, depth: nat, i: nat)
    requires i < depth
    ensures |Pad(l, depth)| == depth * |l.indent| && Piece(Pad(l, depth), |l.indent|, i) == l.indent
    decreases depth
  {
    PadLength(l, depth);
    PadLength(l, depth - 1);
    if i < depth - 1 {
      PadIs(l, depth - 1, i);
      PieceEnds(|l.indent|, i, depth - 1);
      PieceFront(Pad(l, depth - 1), l.indent, |l.indent|, i);
    } else {
      PieceLast(Pad(l, depth - 1), l.indent, i);
    }
  }

  /** An element without children is an empty tag on a line of its own. */
  lemma EmptyElement(l: Layout, name: string, attributes: seq<Attribute>, depth: nat)
    ensures Render(l, Element(name, attributes, []), depth) ==
            Pad(l, depth) + ("<" + name + RenderAttributes(attributes) + " />") + l.lineBreak
  {
  }

  /** An element with one text and nothing else is on one line, tags and all. */
  lemma TextElement(l: Layout, name: string, attributes: seq<Attribute>, v: string, depth: nat)
    ensures Render(l, Element(name, attributes, [Text(v, false)]), depth) ==
            Pad(l, depth) + ("<" + name + RenderAttributes(attributes) + ">" + Encode(v) + ("</" + name + ">")) +
            l.lineBreak
  {
  }

  /** Any other element has its children on lines of their own, one level deeper, between those of its tags. */
  lemma FullElement(l: Layout, name: string, attributes: seq<Attribute>, children: seq<Node>, depth: nat)
    requires |children| > 1 || (|children| == 1 && (!children[0].Text? || children[0].cdata))
    ensures Render(l, Element(name, attributes, children), depth) ==
            Pad(l, depth) +
            ("<" + name + RenderAttributes(attributes) + ">" + l.lineBreak + RenderAll(l, children, depth + 1) +
             Pad(l, depth) + ("</" + name + ">")) +
            l.lineBreak
  {
  }

  /** The children are printed in order, each as it is printed alone. */
  lemma {:induction false} InOrder(l: Layout, before: seq<Node>, n: Node, after: seq<Node>, depth: nat)
    ensures RenderAll(l, before + [n] + after, depth) ==
            RenderAll(l, before, depth) + (Render(l, n, depth) + RenderAll(l, after, depth))
    decreases |before|
  {
    var all := before + [n] + after;
    if before == [] {
      assert all[0] == n && all[1..] == after;
      assert "" + (Render(l, n, depth) + RenderAll(l, after, depth)) == RenderAll(l, all, depth);
    } else {
      assert all[0] == before[0] && all[1..] == before[1..] + [n] + after;
      InOrder(l, before[1..], n, after, depth);
      var first, rest := Render(l, before[0], depth), RenderAll(l, before[1..], depth);
      var tail := Render(l, n, depth) + RenderAll(l, after, depth);
      assert (first + rest) + tail == first + (rest + tail);
    }
  }

  /** Text, CDATA, comments and unknown tags, each on its line. */
  lemma Leaf(l: Layout, v: string, depth: nat)
    ensures Render(l, Text(v, false), depth) == Pad(l, depth) + Encode(v) + l.lineBreak
    ensures Render(l, Text(v, true), depth) == Pad(l, depth) + ("<![CDATA[" + CString(v) + "]]>") + l.lineBreak
    ensures Render(l, Comment(v), depth) == Pad(l, depth) + ("<!--" + CString(v) + "-->") + l.lineBreak
    ensures Render(l, Unknown(v), depth) == Pad(l, depth) + ("<" + CString(v) + ">") + l.lineBreak
  {
  }

  /** A declaration has its three parts in this order. */
  lemma DeclarationLine(l: Layout, version: string, encoding: string, standalone: string, depth: nat)
    ensures Render(l, Declaration(version, encoding, standalone), depth) ==
            Pad(l, depth) +
            ("<?xml " + RenderPart("version", version) + RenderPart("encoding", encoding) +
             RenderPart("standalone", standalone) + "?>") +
            l.lineBreak
  {
  }

  /** A part that is empty is left out; any other is between double quotes with a space behind. */
  lemma DeclarationPart(key: string, value: string)
    ensures RenderPart(key, value) == if value == "" then "" else key + "=" + "\"" + value + "\"" + " "
  {
    assert key + "=\"" + value + "\" " == key + "=" + "\"" + value + "\"" + " ";
  }

  /** A value with a double quote in it goes between single quotes, any other between double ones. */
  lemma Quotes(name: string, value: string)
    ensures '\"' in value ==> RenderAttribute(Attribute(name, value)) == Encode(name) + "=" + "'" + Encode(value) + "'"
    ensures '\"' !in value ==>
      RenderAttribute(Attribute(name, value)) == Encode(name) + "=" + "\"" + Encode(value) + "\""
  {
  }

  /** Attributes come in order, each behind a space. */
  lemma AttributeList(a: Attribute, rest: seq<Attribute>)
    ensures RenderAttributes([]) == ""
    ensures RenderAttributes([a] + rest) == " " + RenderAttribute(a) + RenderAttributes(rest)
  {
    assert ([a] + rest)[1..] == rest;
  }
}
