/**
  What the tables and searches of the tree builder come to, written out: which tags end which
  scope, which have implied end tags, which decide the insertion mode, which hide a list item,
  when two entries of the list agree, and where fostered nodes and the clones of a round are put.
 */
module GumboLaws {
  import opened GumboTags
  import opened GumboTree
  import opened GumboStack
  import opened GumboActive
  import opened GumboAdoption
  import opened GumboRound
  import opened GumboParser

  // ---------------------------------------------------------------------------------
  // Scopes
  // ---------------------------------------------------------------------------------

  lemma ScopeGoesOn(open: seq<Node>, x: Node, tag: Tag, negate: bool, stops: Tag -> bool)
    requires stops(x.tag) == negate && InScope(open, [tag], negate, stops)
    ensures InScope(open + [x], [tag], negate, stops)
  {
    var all := open + [x];
    var k :| 0 <= k < |open| && open[k].tag in [tag] && forall j :: k < j < |open| ==> stops(open[j].tag) == negate;
    assert all[k].tag in [tag] && forall j :: k < j < |all| ==> stops(all[j].tag) == negate;
  }

  lemma ScopeBelow(open: seq<Node>, x: Node, tag: Tag, negate: bool, stops: Tag -> bool)
    requires x.tag != tag && InScope(open + [x], [tag], negate, stops)
    ensures stops(x.tag) == negate && InScope(open, [tag], negate, stops)
  {
    var all := open + [x];
    var k :| 0 <= k < |all| && all[k].tag in [tag] && forall j :: k < j < |all| ==> stops(all[j].tag) == negate;
    assert k < |open| && all[|open|] == x && forall j :: k < j < |open| ==> all[j] == open[j];
  }

  /** One more element on top: it is the one sought, or it does not stop the search and that goes on below. */
  lemma ScopeStep(open: seq<Node>, x: Node, tag: Tag, negate: bool, stops: Tag -> bool)
    ensures InScope(open + [x], [tag], negate, stops) <==>
            x.tag == tag || (stops(x.tag) == negate && InScope(open, [tag], negate, stops))
    ensures !InScope([], [tag], negate, stops)
  {
    if x.tag == tag {
      assert (open + [x])[|open|].tag in [tag];
    } else {
      if InScope(open + [x], [tag], negate, stops) {
        ScopeBelow(open, x, tag, negate, stops);
      }
      if stops(x.tag) == negate && InScope(open, [tag], negate, stops) {
        ScopeGoesOn(open, x, tag, negate, stops);
      }
    }
  }

  /** What stops the search for an element in scope. */
  lemma ScopeLaw(open: seq<Node>, x: Node, tag: Tag)
    requires x.tag != tag
    ensures InScope(open + [x], [tag], false, EndsScope) <==>
            && InScope(open, [tag], false, EndsScope)
            && x.tag !in [APPLET, CAPTION, HTML, TABLE, TD, TH, MARQUEE, OBJECT, MI, MO, MN, MS, MTEXT, ANNOTATION_XML,
                          FOREIGNOBJECT, DESC, TITLE]
  {
    ScopeStep(open, x, tag, false, EndsScope);
  }

  /** In button scope a button too. */
  lemma ButtonScopeLaw(open: seq<Node>, x: Node, tag: Tag)
    requires x.tag != tag
    ensures InScope(open + [x], [tag], false, EndsButtonScope) <==>
            && InScope(open, [tag], false, EndsButtonScope)
            && x.tag !in [APPLET, CAPTION, HTML, TABLE, TD, TH, MARQUEE, OBJECT, MI, MO, MN, MS, MTEXT, ANNOTATION_XML,
                          FOREIGNOBJECT, DESC, TITLE, BUTTON]
  {
    ScopeStep(open, x, tag, false, EndsButtonScope);
  }

  lemma TableScopeLaw(open: seq<Node>, x: Node, tag: Tag)
    requires x.tag != tag
    ensures InScope(open + [x], [tag], false, EndsTableScope) <==>
            InScope(open, [tag], false, EndsTableScope) && x.tag !in [HTML, TABLE]
  {
    ScopeStep(open, x, tag, false, EndsTableScope);
  }

  /** In select scope everything but options and their groups. */
  lemma SelectScopeLaw(open: seq<Node>, x: Node, tag: Tag)
    requires x.tag != tag
    ensures InScope(open + [x], [tag], true, InsideSelect) <==>
            InScope(open, [tag], true, InsideSelect) && x.tag in [OPTGROUP, OPTION]
  {
    ScopeStep(open, x, tag, true, InsideSelect);
  }

  // ---------------------------------------------------------------------------------
  // Tags
  // ---------------------------------------------------------------------------------

  lemma ImpliedEndTags(tag: Tag)
    ensures IsImplied(tag) <==> tag in [DD, DT, LI, OPTION, OPTGROUP, P, RP, RT]
  {
  }

  lemma FosteringTags(tag: Tag)
    ensures IsTablePart(tag) <==> tag in [TABLE, TBODY, TFOOT, THEAD, TR]
  {
  }

  lemma FormattingTags(tag: Tag)
    ensures IsFormatting(tag) <==> tag in [A, B, BIG, CODE, EM, FONT, I, NOBR, S, SMALL, STRIKE, STRONG, TT, U]
  {
  }

  /** The special elements, in the three namespaces. */
  lemma SpecialTags(tag: Tag)
    ensures Special(HTML_NS, tag) <==>
            || tag in [ADDRESS, APPLET, AREA, ARTICLE, ASIDE, BASE, BASEFONT, BGSOUND, BLOCKQUOTE, BODY, BR, BUTTON]
            || tag in [CAPTION, CENTER, COL, COLGROUP, MENUITEM, DD, DETAILS, DIR, DIV, DL, DT, EMBED, FIELDSET]
            || tag in [FIGCAPTION, FIGURE, FOOTER, FORM, FRAME, FRAMESET, H1, H2, H3, H4, H5, H6, HEAD, HEADER]
            || tag in [HGROUP, HR, HTML, IFRAME, IMG, INPUT, ISINDEX, LI, LINK, LISTING, MARQUEE, MENU, META, NAV]
            || tag in [NOEMBED, NOFRAMES, NOSCRIPT, OBJECT, OL, P, PARAM, PLAINTEXT, PRE, SCRIPT, SECTION, SELECT]
            || tag in [STYLE, SUMMARY, TABLE, TBODY, TD, TEXTAREA, TFOOT, TH, THEAD, TITLE, TR, UL, WBR, XMP]
    ensures Special(MATHML_NS, tag) <==> tag in [MI, MO, MN, MS, MTEXT, ANNOTATION_XML]
    ensures Special(SVG_NS, tag) <==> tag in [FOREIGNOBJECT, DESC]
  {
  }

  // ---------------------------------------------------------------------------------
  // The insertion mode and list items
  // ---------------------------------------------------------------------------------

  /** A node put where it is fostered stands right in front of the table. */
  lemma FosteredInFront(parser: Parser, k: int, node: Node)
    requires parser.Valid() && IsTableAt(parser.open, k) && k >= 0
    requires parser.open[k].parent != null && parser.open[k].parent.kind == Element
    ensures var table, kids := parser.open[k], Kids(parser.nodes);
            var p, r := table.parent, InsertAt(kids, parser.FosterPlace(k), node);
            && p in kids && r == kids[p := r[p]] && 0 <= table.index < |kids[p]| && kids[p][table.index] == table
            && r[p] == kids[p][..table.index] + [node, table] + kids[p][table.index + 1..]
  {
    var table := parser.open[k];
    var s, i := table.parent.children, table.index;
    assert s[i..] == [table] + s[i + 1..];
    assert [node] + ([table] + s[i + 1..]) == [node, table] + s[i + 1..];
  }

  /** Without a table it is the last child of html, and with one that is not under an element of what is open below. */
  lemma FosteredAtEnd(parser: Parser, k: int, node: Node)
    requires parser.Valid() && IsTableAt(parser.open, k)
    requires k >= 0 ==> parser.open[k].parent == null || parser.open[k].parent.kind != Element
    ensures var p, kids := parser.open[if k == -1 then 0 else k - 1], Kids(parser.nodes);
            p in kids && InsertAt(kids, parser.FosterPlace(k), node) == kids[p := kids[p] + [node]]
  {
    var p := parser.open[if k == -1 then 0 else k - 1];
    assert p.children[..|p.children|] + [node] + p.children[|p.children|..] == p.children + [node];
  }

  /** The mode with one more element on top: what that decides, or the mode without it. */
  lemma ModeLaw(open: seq<Node>, x: Node)
    requires open != []
    ensures ModeOf(open + [x]) ==
            if x.tag == SELECT then InSelect
            else if x.tag in [TD, TH] then InCell
            else if x.tag == TR then InRow
            else if x.tag in [TBODY, THEAD, TFOOT] then InTableBody
            else if x.tag == CAPTION then InCaption
            else if x.tag == COLGROUP then InColumnGroup
            else if x.tag == TABLE then InTable
            else if x.tag in [HEAD, BODY] then InBody
            else if x.tag == FRAMESET then InFrameset
            else if x.tag == HTML then BeforeHead
            else ModeOf(open)
    ensures x.tag == HTML ==> ModeOf([x]) == BeforeHead
  {
    assert (open + [x])[..|open|] == open;
  }

  /** The list item with one more element on top: that element, none if it hides what is below, or what there was. */
  lemma ListItemLaw(open: seq<Node>, x: Node, isLi: bool)
    ensures ListItemAt(open + [x], isLi) ==
            if x.tag in (if isLi then [LI] else [DD, DT]) then |open|
            else if Special(x.ns, x.tag) && x.tag !in [ADDRESS, DIV, P] then -1
            else ListItemAt(open, isLi)
    ensures ListItemAt([], isLi) == -1
  {
    assert (open + [x])[..|open|] == open;
  }

  // ---------------------------------------------------------------------------------
  // Entries that agree
  // ---------------------------------------------------------------------------------

  /** Entries agree when tag, namespace and attributes do, names of attributes in any case and any order. */
  lemma KeyLaw(a: Node, b: Node)
    ensures KeyOf(a) == KeyOf(b) <==>
            && a.tag == b.tag && a.ns == b.ns
            && (forall i :: 0 <= i < |a.attributes| ==> Among(a.attributes[i], b.attributes))
            && (forall i :: 0 <= i < |b.attributes| ==> Among(b.attributes[i], a.attributes))
  {
    PairsLaw(a.attributes, b.attributes);
  }

  /** The same value under the same name but for case. */
  predicate Among(x: Attribute, s: seq<Attribute>) {
    exists j :: 0 <= j < |s| && s[j].value == x.value && SameName(s[j].name, x.name)
  }

  predicate SameName(m: string, n: string) {
    |m| == |n| && forall i :: 0 <= i < |m| ==> SameLetter(m[i], n[i])
  }

  predicate SameLetter(c: char, d: char) {
    c == d || ('A' <= c <= 'Z' && d as int == c as int + 32) || ('A' <= d <= 'Z' && c as int == d as int + 32)
  }

  lemma NameLaw(m: string, n: string)
    ensures LowerCase(m) == LowerCase(n) <==> SameName(m, n)
  {
    var l, k := LowerCase(m), LowerCase(n);
    if SameName(m, n) {
      assert forall i :: 0 <= i < |m| ==> SameLetter(m[i], n[i]) && l[i] == k[i];
    } else if l == k {
      forall i | 0 <= i < |m|
        ensures SameLetter(m[i], n[i])
      {
        assert l[i] == k[i];
      }
    }
  }

  lemma AmongPairs(x: Attribute, s: seq<Attribute>)
    ensures Among(x, s) <==> Pair(x) in Pairs(s)
  {
    if Among(x, s) {
      var j :| 0 <= j < |s| && s[j].value == x.value && SameName(s[j].name, x.name);
      NameLaw(s[j].name, x.name);
      assert s[j] in s;
    } else if Pair(x) in Pairs(s) {
      var a :| a in s && (LowerCase(a.name), a.value) == Pair(x);
      var j :| 0 <= j < |s| && s[j] == a;
      NameLaw(s[j].name, x.name);
    }
  }

  lemma PairsWithin(a: seq<Attribute>, b: seq<Attribute>)
    ensures Pairs(a) <= Pairs(b) <==> forall i :: 0 <= i < |a| ==> Among(a[i], b)
  {
    forall i | 0 <= i < |a|
      ensures (Among(a[i], b) <==> Pair(a[i]) in Pairs(b)) && Pair(a[i]) in Pairs(a)
    {
      AmongPairs(a[i], b);
      assert a[i] in a;
    }
    if forall i :: 0 <= i < |a| ==> Among(a[i], b) {
      forall p | p in Pairs(a)
        ensures p in Pairs(b)
      {
        var x :| x in a && (LowerCase(x.name), x.value) == p;
        var i :| 0 <= i < |a| && a[i] == x;
      }
    }
  }

  lemma PairsLaw(a: seq<Attribute>, b: seq<Attribute>)
    ensures Pairs(a) == Pairs(b) <==>
            && (forall i :: 0 <= i < |a| ==> Among(a[i], b))
            && (forall i :: 0 <= i < |b| ==> Among(b[i], a))
  {
    PairsWithin(a, b);
    PairsWithin(b, a);
    assert Pairs(a) == Pairs(b) <==> Pairs(a) <= Pairs(b) <= Pairs(a);
  }

  /** The positions in a stretch of the list whose entries have a key. */
  function Positions(list: seq<Node>, key: Key): set<nat> {
    set i: nat | i < |list| && KeyOf(list[i]) == key
  }

  /** Counting counts positions. */
  lemma {:induction false} CountLaw(list: seq<Node>, key: Key)
    ensures Count(list, key) == |Positions(list, key)|
    decreases |list|
  {
    if list == [] {
      assert Positions(list, key) == {};
    } else {
      var n := |list| - 1;
      CountLaw(list[..n], key);
      assert Positions(list, key) ==
             Positions(list[..n], key) + if KeyOf(list[n]) == key then {n} else {};
    }
  }

  lemma JoinLast(a: seq<Node>, b: seq<Node>)
    requires b != []
    ensures var all, n := a + b, |b| - 1;
            && all != [] && all[|all| - 1] == b[n] && all[..|all| - 1] == a + b[..n]
  {
  }

  lemma {:induction false} TailOf(a: seq<Node>, b: seq<Node>, marker: Node, key: Key)
    requires marker !in b && (a == [] || a[|a| - 1] == marker)
    ensures TailCount(a + b, marker, key) == Count(b, key)
    decreases |b|
  {
    if b == [] {
      assert a + b == a;
    } else {
      JoinLast(a, b);
      assert b[|b| - 1] in b;
      TailOf(a, b[..|b| - 1], marker, key);
    }
  }

  lemma SplitBehindMarker(list: seq<Node>, marker: Node) returns (front: seq<Node>, back: seq<Node>)
    ensures list == front + back && back == list[LastMarker(list, marker) + 1..]
    ensures marker !in back && (front == [] || front[|front| - 1] == marker)
  {
    var k: nat := LastMarker(list, marker) + 1;
    front, back := list[..k], list[k..];
    forall i | 0 <= i < |back|
      ensures back[i] != marker
    {
      assert back[i] == list[k + i];
    }
  }

  /** What is counted before an entry is added are the entries behind the last marker. */
  lemma TailLaw(list: seq<Node>, marker: Node, key: Key)
    ensures TailCount(list, marker, key) == Count(list[LastMarker(list, marker) + 1..], key)
  {
    var front, back := SplitBehindMarker(list, marker);
    TailOf(front, back, marker, key);
  }

  // ---------------------------------------------------------------------------------
  // The bookmark
  // ---------------------------------------------------------------------------------

  lemma {:induction false} TopIsLast(made: seq<Node?>)
    ensures Top(made) == if Some(made) == [] then null else Some(made)[|Some(made)| - 1]
  {
    if made != [] {
      TopIsLast(made[1..]);
    }
  }

  lemma PutInPlace(list: seq<Node>, k: nat, nf: Node)
    requires k < |list|
    ensures var l := Without(list, k); l[..k] + [nf] + l[k..] == list[k := nf]
  {
    assert Without(list, k)[..k] == list[..k] && Without(list, k)[k..] == list[k + 1..];
  }

  lemma PutBehindClone(list: seq<Node>, k: nat, mark: nat, nf: Node)
    requires k < |list| && 0 < mark <= |list| && k != mark - 1
    ensures var l, m := Without(list, k), if k < mark then mark - 1 else mark;
            var r := l[..m] + [nf] + l[m..];
            0 < m < |r| && r[m - 1] == list[mark - 1] && r[m] == nf
  {
  }

  /** In the place of the formatting element, or right behind the first clone. */
  lemma FinalPlace(list: seq<Node>, f: Node, made: seq<Node?>, mark: int, nf: Node)
    requires Marked(list, f, made, mark) && f in list && f !in made && f != Top(made)
    requires forall i, j :: 0 <= i < j < |list| && list[i] == f ==> list[j] != f
    ensures var r := ListFinal(list, f, mark, nf);
            if Top(made) == null then r == list[IndexIn(list, f) := nf]
            else exists i :: 0 < i < |r| && r[i - 1] == Top(made) && r[i] == nf
  {
    var k := IndexIn(list, f);
    if Top(made) == null {
      assert k == mark;
      PutInPlace(list, k, nf);
    } else {
      PutBehindClone(list, k, mark, nf);
      var m, r := if k < mark then mark - 1 else mark, ListFinal(list, f, mark, nf);
      assert r[m - 1] == Top(made) && r[m] == nf;
    }
  }

  lemma {:induction false} SwapNone(x: Node, xs: seq<Node>, made: seq<Node?>)
    requires |xs| == |made| && Some(made) == []
    ensures Swap(x, xs, made) == x
  {
    if made != [] {
      SwapNone(x, xs[1..], made[1..]);
    }
  }

  lemma StillOnce(list: seq<Node>, marker: Node, f: Node, xs: seq<Node>, made: seq<Node?>)
    requires |xs| == |made| && ListDistinct(list, marker) && f != marker && f !in xs && f !in made
    ensures var l := SwapAll(list, xs, made); forall i, j :: 0 <= i < j < |l| && l[i] == f ==> l[j] != f
  {
    var l := SwapAll(list, xs, made);
    forall i | 0 <= i < |l|
      ensures l[i] == f ==> list[i] == f
    {
      SwapIs(list[i], xs, made);
    }
  }

  /**
    After a round the clone of the formatting element is on the list where that was, or, when
    clones were made, right behind the first of them.
   */
  lemma RoundMark(s: State, marker: Node, fi: nat, bi: nat, t: Trace)
    requires Proper(s) && Fits(s, fi, bi, t) && ListDistinct(s.list, marker) && marker !in s.kids
    requires forall x :: x in s.list ==> x == marker || x in s.kids
    requires marker !in t.made && s.open[fi] in s.list
    ensures var r, cs := Round(s, fi, bi, t).list, Some(t.made);
            if cs == [] then r == s.list[IndexIn(s.list, s.open[fi]) := t.nf]
            else exists i :: 0 < i < |r| && r[i - 1] == cs[|cs| - 1] && r[i] == t.nf
  {
    var f, xs := s.open[fi], s.open[t.lo..bi];
    var l := SwapAll(s.list, xs, t.made);
    RoundApart(s, marker, fi, bi, t);
    ListAfterIs(s.list, marker, xs, t.made);
    MadeAreNew(s, t.lo, t.made, f);
    assert f !in xs;
    SwapAllIndex(s.list, f, xs, t.made);
    StillOnce(s.list, marker, f, xs, t.made);
    TopIsLast(t.made);
    TopIsMade(t.made, f);
    FinalPlace(l, f, t.made, t.mark, t.nf);
    if Some(t.made) == [] {
      forall i | 0 <= i < |l|
        ensures l[i] == s.list[i]
      {
        SwapNone(s.list[i], xs, t.made);
      }
      assert l == s.list;
    }
  }
}
