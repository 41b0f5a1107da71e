/** The tags, namespaces and attributes of HTML elements, as far as the tree builder tells them apart. */
module GumboTags {

  /** A tag is a number; the tags named here are those some rule of the tree builder mentions. */
  type Tag = int

  const HTML: Tag := 0
  const HEAD: Tag := 1
  const TITLE: Tag := 2
  const BASE: Tag := 3
  const LINK: Tag := 4
  const META: Tag := 5
  const STYLE: Tag := 6
  const SCRIPT: Tag := 7
  const NOSCRIPT: Tag := 8
  const BODY: Tag := 10
  const ARTICLE: Tag := 11
  const SECTION: Tag := 12
  const NAV: Tag := 13
  const ASIDE: Tag := 14
  const H1: Tag := 15
  const H2: Tag := 16
  const H3: Tag := 17
  const H4: Tag := 18
  const H5: Tag := 19
  const H6: Tag := 20
  const HGROUP: Tag := 21
  const HEADER: Tag := 22
  const FOOTER: Tag := 23
  const ADDRESS: Tag := 24
  const P: Tag := 25
  const HR: Tag := 26
  const PRE: Tag := 27
  const BLOCKQUOTE: Tag := 28
  const OL: Tag := 29
  const UL: Tag := 30
  const LI: Tag := 31
  const DL: Tag := 32
  const DT: Tag := 33
  const DD: Tag := 34
  const FIGURE: Tag := 35
  const FIGCAPTION: Tag := 36
  const DIV: Tag := 38
  const A: Tag := 39
  const EM: Tag := 40
  const STRONG: Tag := 41
  const SMALL: Tag := 42
  const S: Tag := 43
  const CODE: Tag := 50
  const I: Tag := 56
  const B: Tag := 57
  const U: Tag := 58
  const RT: Tag := 61
  const RP: Tag := 62
  const SPAN: Tag := 65
  const BR: Tag := 66
  const WBR: Tag := 67
  const IMG: Tag := 71
  const IFRAME: Tag := 72
  const EMBED: Tag := 73
  const OBJECT: Tag := 74
  const PARAM: Tag := 75
  const AREA: Tag := 82
  const MI: Tag := 84
  const MO: Tag := 85
  const MN: Tag := 86
  const MS: Tag := 87
  const MTEXT: Tag := 88
  const ANNOTATION_XML: Tag := 91
  const FOREIGNOBJECT: Tag := 93
  const DESC: Tag := 94
  const TABLE: Tag := 95
  const CAPTION: Tag := 96
  const COLGROUP: Tag := 97
  const COL: Tag := 98
  const TBODY: Tag := 99
  const THEAD: Tag := 100
  const TFOOT: Tag := 101
  const TR: Tag := 102
  const TD: Tag := 103
  const TH: Tag := 104
  const FORM: Tag := 105
  const FIELDSET: Tag := 106
  const INPUT: Tag := 109
  const BUTTON: Tag := 110
  const SELECT: Tag := 111
  const OPTGROUP: Tag := 113
  const OPTION: Tag := 114
  const TEXTAREA: Tag := 115
  const DETAILS: Tag := 120
  const SUMMARY: Tag := 121
  const MENU: Tag := 122
  const MENUITEM: Tag := 123
  const APPLET: Tag := 124
  const BGSOUND: Tag := 126
  const DIR: Tag := 127
  const FRAME: Tag := 128
  const FRAMESET: Tag := 129
  const NOFRAMES: Tag := 130
  const ISINDEX: Tag := 131
  const LISTING: Tag := 132
  const XMP: Tag := 133
  const NOEMBED: Tag := 135
  const PLAINTEXT: Tag := 136
  const STRIKE: Tag := 138
  const BASEFONT: Tag := 139
  const BIG: Tag := 140
  const CENTER: Tag := 142
  const FONT: Tag := 143
  const MARQUEE: Tag := 144
  const NOBR: Tag := 146
  const TT: Tag := 148

  datatype Namespace = HTML_NS | SVG_NS | MATHML_NS

  datatype Attribute = Attribute(name: string, value: string)

  /** The parts of a table that text and elements cannot be put into. */
  predicate IsTablePart(tag: Tag) {
    tag == TABLE || tag == TBODY || tag == TFOOT || tag == THEAD || tag == TR
  }

  predicate IsFormatting(tag: Tag) {
    tag == A || tag == B || tag == BIG || tag == CODE || tag == EM || tag == FONT || tag == I || tag == NOBR ||
    tag == S || tag == SMALL || tag == STRIKE || tag == STRONG || tag == TT || tag == U
  }

  lemma FormattingTag(tag: Tag)
    requires IsFormatting(tag)
    ensures tag != HTML && !IsTablePart(tag) && forall ns :: !Special(ns, tag)
  {
  }

  /** The elements whose end tag may be implied. */
  predicate IsImplied(tag: Tag) {
    tag == DD || tag == DT || tag == LI || tag == OPTION || tag == OPTGROUP || tag == P || tag == RP ||
    tag == RT
  }

  /** The elements a search for an element in scope does not look past. */
  predicate EndsScope(tag: Tag) {
    tag == APPLET || tag == CAPTION || tag == HTML || tag == TABLE || tag == TD || tag == TH ||
    tag == MARQUEE || tag == OBJECT || tag == MI || tag == MO || tag == MN || tag == MS || tag == MTEXT ||
    tag == ANNOTATION_XML || tag == FOREIGNOBJECT || tag == DESC || tag == TITLE
  }

  predicate EndsButtonScope(tag: Tag) {
    EndsScope(tag) || tag == BUTTON
  }

  predicate EndsTableScope(tag: Tag) {
    tag == HTML || tag == TABLE
  }

  /** In select scope everything else ends the search. */
  predicate InsideSelect(tag: Tag) {
    tag == OPTGROUP || tag == OPTION
  }

  predicate Special(ns: Namespace, tag: Tag) {
    match ns
    case HTML_NS =>
      tag == ADDRESS || tag == APPLET || tag == AREA || tag == ARTICLE || tag == ASIDE || tag == BASE ||
      tag == BASEFONT || tag == BGSOUND || tag == BLOCKQUOTE || tag == BODY || tag == BR || tag == BUTTON ||
      tag == CAPTION || tag == CENTER || tag == COL || tag == COLGROUP || tag == MENUITEM || tag == DD ||
      tag == DETAILS || tag == DIR || tag == DIV || tag == DL || tag == DT || tag == EMBED ||
      tag == FIELDSET || tag == FIGCAPTION || tag == FIGURE || tag == FOOTER || tag == FORM || tag == FRAME ||
      tag == FRAMESET || tag == H1 || tag == H2 || tag == H3 || tag == H4 || tag == H5 || tag == H6 ||
      tag == HEAD || tag == HEADER || tag == HGROUP || tag == HR || tag == HTML || tag == IFRAME ||
      tag == IMG || tag == INPUT || tag == ISINDEX || tag == LI || tag == LINK || tag == LISTING ||
      tag == MARQUEE || tag == MENU || tag == META || tag == NAV || tag == NOEMBED || tag == NOFRAMES ||
      tag == NOSCRIPT || tag == OBJECT || tag == OL || tag == P || tag == PARAM || tag == PLAINTEXT ||
      tag == PRE || tag == SCRIPT || tag == SECTION || tag == SELECT || tag == STYLE || tag == SUMMARY ||
      tag == TABLE || tag == TBODY || tag == TD || tag == TEXTAREA || tag == TFOOT || tag == TH ||
      tag == THEAD || tag == TITLE || tag == TR || tag == UL || tag == WBR || tag == XMP
    case MATHML_NS => tag == MI || tag == MO || tag == MN || tag == MS || tag == MTEXT || tag == ANNOTATION_XML
    case SVG_NS => tag == FOREIGNOBJECT || tag == DESC
  }

  datatype Mode =
    | Initial | BeforeHead | InBody | InSelect | InCell | InRow | InTableBody | InCaption | InColumnGroup
    | InTable | InFrameset

  /** get_appropriate_insertion_mode; Initial says that the element decides nothing. */
  function Appropriate(tag: Tag, last: bool): (m: Mode)
    ensures last ==> m != Initial
  {
    if tag == SELECT then InSelect
    else if tag == TD || tag == TH then if last then InBody else InCell
    else if tag == TR then InRow
    else if tag == TBODY || tag == THEAD || tag == TFOOT then InTableBody
    else if tag == CAPTION then InCaption
    else if tag == COLGROUP then InColumnGroup
    else if tag == TABLE then InTable
    else if tag == HEAD || tag == BODY then InBody
    else if tag == FRAMESET then InFrameset
    else if tag == HTML then BeforeHead
    else if last then InBody
    else Initial
  }
}
