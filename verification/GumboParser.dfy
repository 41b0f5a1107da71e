/**
  The state of Gumbo's tree builder and the operations on it: foster parenting, popping and
  closing elements, and the list of active formatting elements with its reconstruction.
 */
module GumboParser {
  import opened GumboTags
  import opened GumboTree
  import opened GumboStack
  import opened GumboActive

  /** The table nearest to the top of the stack, from the third element on; -1 without one. */
  predicate IsTableAt(open: seq<Node>, k: int) {
    && (k == -1 || (2 <= k < |open| && open[k].Is(TABLE)))
    && forall i :: 2 <= i < |open| && k < i ==> !open[i].Is(TABLE)
  }

  /** A slot among the children of a node. */
  datatype Place = Place(parent: Node, at: nat)

  /** The tree with a node put at a place. */
  ghost function InsertAt(kids: map<Node, seq<Node>>, place: Place, node: Node): map<Node, seq<Node>>
    requires place.parent in kids && place.at <= |kids[place.parent]|
  {
    var s := kids[place.parent];
    kids[place.parent := s[..place.at] + [node] + s[place.at..]]
  }

  /** An entry is replaced by a clone, which is put at a place and pushed, twice if the place is not before a table. */
  ghost function FosteredNext(s: State, i: nat, c: Node, place: Place, placed: bool): (r: State)
    requires i < |s.list| && s.Ok() && c !in s.kids && place.parent in s.kids && place.at <= |s.kids[place.parent]|
    ensures r.Ok() && r.Current() == c && |r.list| == |s.list|
  {
    State(s.list[i := c], s.open + (if placed then [c] else [c, c]), InsertAt(s.kids[c := []], place, c))
  }

  /** The list after a fostered clone and the others. */
  lemma FosteredRest(s: State, start: nat, c: Node, place: Place, placed: bool, rest: seq<Node>)
    requires start < |s.list| && s.Ok() && c !in s.kids && place.parent in s.kids
    requires place.at <= |s.kids[place.parent]| && start + 1 + |rest| <= |s.list| && IsClone(c, s.list[start])
    requires NewClones(FosteredNext(s, start, c, place, placed), start + 1, rest)
    ensures var r := Reconstructed(FosteredNext(s, start, c, place, placed), start + 1, rest);
            r.list == Splice(s.list, start, [c] + rest) && |r.open| >= |s.open|
    ensures AreClones([c] + rest, s.list, start)
  {
    var u := FosteredNext(s, start, c, place, placed);
    NewClonesAre(u, start + 1, rest);
    ReconstructedLists(u, start + 1, rest);
    SpliceFirst(s.list, start, c, rest);
    forall j | 0 <= j < |[c] + rest|
      ensures IsClone(([c] + rest)[j], s.list[start + j])
    {
      if j > 0 {
        assert IsClone(rest[j - 1], u.list[start + 1 + (j - 1)]);
      }
    }
  }

  lemma AppendIsInsert(kids: map<Node, seq<Node>>, p: Node, node: Node)
    requires p in kids
    ensures InsertAt(kids, Place(p, |kids[p]|), node) == kids[p := kids[p] + [node]]
  {
    var s := kids[p];
    assert s[..|s|] + [node] + s[|s|..] == s + [node];
  }

  class Parser {
    /** The scope marker of the list, a node with every field zero. */
    const marker: Node
    var open: seq<Node>
    var active: seq<Node>
    var mode: Mode
    var fosterParent: bool
    ghost var nodes: set<Node>

    /** The state once the root, html, has been inserted under the document. */
    constructor ()
      ensures Valid() && ListValid() && fresh(nodes) && fresh(marker)
      ensures |open| == 1 && open[0].children == [] && active == [] && !fosterParent && mode == BeforeHead
      ensures open[0].parent != null && open[0].parent.kind == Document
    {
      marker := new Node(Document, HTML, HTML_NS, [], "");
      var document := new Node(Document, HTML, HTML_NS, [], "");
      var html := new Node(Element, HTML, HTML_NS, [], "");
      open, active, mode, fosterParent := [html], [], BeforeHead, false;
      nodes := {document, html};
      new;
      AppendNode(document, html, nodes);
    }

    /** The tree is coherent and the open elements, html first, are in it. */
    ghost predicate Valid()
      reads this, nodes
    {
      Coherent(nodes) && Stack(open) && (forall i :: 0 <= i < |open| ==> open[i] in nodes)
    }

    /** The list holds markers and formatting elements of the tree. */
    ghost predicate ListValid()
      reads this
    {
      && marker !in nodes && marker.kind == Document && marker.tag == HTML && marker.attributes == []
      && forall i :: 0 <= i < |active| ==> active[i] == marker || Formats(active[i])
    }

    /** An element that may be put on the list. */
    ghost predicate Formats(n: Node)
      reads this
    {
      n in nodes && n.kind == Element && IsFormatting(n.tag)
    }

    /** Whether the table at a position of the stack, if there is one, has an element above it in the tree. */
    ghost predicate HasPlace(k: int)
      reads this, nodes
      requires Valid() && k < |open|
    {
      k >= 0 && open[k].parent != null && open[k].parent.kind == Element
    }

    /** Where a node goes that may not stand in the table at a position of the stack. */
    ghost function FosterPlace(k: int): (place: Place)
      reads this, nodes
      requires Valid() && IsTableAt(open, k)
      ensures place.parent in nodes && place.parent.kind == Element && place.at <= |place.parent.children|
    {
      if HasPlace(k) then Place(open[k].parent, open[k].index)
      else
        var p := if k == -1 then open[0] else open[k - 1];
        Place(p, |p.children|)
    }

    /** The search of foster_parent_element, from the top down to the third element. */
    method FindTable() returns (k: int)
      requires open != []
      ensures IsTableAt(open, k)
    {
      k := |open| - 1;
      while k > 1
        invariant 0 <= k < |open|
        invariant forall j :: k < j < |open| ==> !open[j].Is(TABLE)
        decreases k
      {
        if open[k].Is(TABLE) {
          return;
        }
        k := k - 1;
      }
      return -1;
    }

    /** The end of foster_parent_element, when no place was found in front of a table. */
    method FosterLast(foster: Node, node: Node)
      requires Valid() && foster in open && node in nodes && node.parent == null
      modifies this`open, nodes`parent, nodes`index, nodes`children
      ensures Valid() && node.parent == foster
      ensures open == old(open) + if node.kind != Element then [] else [node]
      ensures Kids(nodes) == old(Kids(nodes))[foster := old(foster.children) + [node]]
    {
      AppendNode(foster, node, nodes);
      if node.kind == Element {
        open := open + [node];
      }
    }

    /**
      foster_parent_element. Without a place in front of a table, an element is also pushed. That three elements
      are open, as the code asserts, is not needed.
     */
    method FosterParent(node: Node) returns (ghost k: int)
      requires Valid() && node in nodes && node.parent == null
      modifies this`open, nodes`parent, nodes`index, nodes`children
      ensures Valid() && node.parent != null && node.parent.kind == Element
      ensures IsTableAt(old(open), k)
      ensures open == old(open) + if old(HasPlace(k)) || node.kind != Element then [] else [node]
      ensures Kids(nodes) == InsertAt(old(Kids(nodes)), old(FosterPlace(k)), node)
    {
      var foster := open[0];
      var i := FindTable();
      k := i;
      if i != -1 {
        var table := open[i];
        var parent := table.parent;
        if parent != null && parent.kind == Element {
          InsertNode(parent, table.index, node, nodes);
          return;
        }
        foster := open[i - 1];
      }
      AppendIsInsert(Kids(nodes), foster, node);
      FosterLast(foster, node);
    }

    /** Insertions go to a foster parent: the flag is set and the current node is part of a table. */
    predicate Fosters()
      reads this
      requires open != []
    {
      fosterParent && IsTablePart(Current().tag)
    }

    /** The node that insertions go to, fostering aside. */
    function Current(): Node
      reads this
      requires open != []
    {
      open[|open| - 1]
    }

    /** insert_element while fostering: without a place in front of a table the node is pushed twice. */
    method InsertFostered(node: Node) returns (ghost k: int)
      requires Valid() && node in nodes && node.parent == null && node.kind == Element
      modifies this`open, nodes`parent, nodes`index, nodes`children
      ensures Valid() && node.parent != null && node.parent.kind == Element
      ensures IsTableAt(old(open), k)
      ensures open == old(open) + if old(HasPlace(k)) then [node] else [node, node]
      ensures Kids(nodes) == InsertAt(old(Kids(nodes)), old(FosterPlace(k)), node)
    {
      k := FosterParent(node);
      open := open + [node];
    }

    /** insert_element otherwise: the node becomes the last child of the current node and is pushed. */
    method InsertHere(node: Node)
      requires Valid() && node in nodes && node.parent == null && node.kind == Element
      modifies this`open, nodes`parent, nodes`index, nodes`children
      ensures Valid() && node.parent == old(Current())
      ensures open == old(open) + [node]
      ensures Kids(nodes) == old(Kids(nodes))[old(Current()) := old(Current().children) + [node]]
    {
      AppendNode(Current(), node, nodes);
      open := open + [node];
    }

    /** insert_element. */
    method InsertElement(node: Node) returns (ghost k: int)
      requires Valid() && node in nodes && node.parent == null && node.kind == Element
      modifies this`open, nodes`parent, nodes`index, nodes`children
      ensures Valid() && node.parent != null && node.parent.kind == Element
      ensures old(Fosters()) <==> fosterParent && old(Current().tag) in [TABLE, TBODY, TFOOT, THEAD, TR]
      ensures old(Fosters()) ==>
        && IsTableAt(old(open), k)
        && open == old(open) + (if old(HasPlace(k)) then [node] else [node, node])
        && Kids(nodes) == InsertAt(old(Kids(nodes)), old(FosterPlace(k)), node)
      ensures !old(Fosters()) ==>
        && open == old(open) + [node]
        && Kids(nodes) == old(Kids(nodes))[old(Current()) := old(Current().children) + [node]]
    {
      k := -1;
      if Fosters() {
        k := InsertFostered(node);
      } else {
        InsertHere(node);
      }
    }

    /** A new element that is in no children vector yet. */
    method NewElement(tag: Tag, ns: Namespace, attributes: seq<Attribute>) returns (n: Node)
      requires Valid()
      modifies this`nodes
      ensures Valid() && fresh(n) && nodes == old(nodes) + {n} && n.parent == null
      ensures n.kind == Element && n.tag == tag && n.ns == ns && n.attributes == attributes
      ensures Kids(nodes) == old(Kids(nodes))[n := []]
    {
      n := new Node(Element, tag, ns, attributes, "");
      Added(n, nodes);
      nodes := nodes + {n};
    }

    /** A new element is inserted where insertions are fostered. */
    method OpenFostered(tag: Tag, ns: Namespace, attributes: seq<Attribute>) returns (n: Node, ghost k: int)
      requires Valid() && ListValid() && Fosters()
      modifies this`open, this`nodes, nodes`parent, nodes`index, nodes`children
      ensures Valid() && ListValid() && fresh(n) && nodes == old(nodes) + {n}
      ensures n.kind == Element && n.tag == tag && n.ns == ns && n.attributes == attributes
      ensures IsTableAt(old(open), k) && open == old(open) + if old(HasPlace(k)) then [n] else [n, n]
      ensures Kids(nodes) == InsertAt(old(Kids(nodes))[n := []], old(FosterPlace(k)), n)
    {
      n := NewElement(tag, ns, attributes);
      k := InsertElement(n);
    }

    /** A new element is inserted under the current node. */
    method OpenHere(tag: Tag, ns: Namespace, attributes: seq<Attribute>) returns (n: Node)
      requires Valid() && ListValid() && !Fosters()
      modifies this`open, this`nodes, nodes`parent, nodes`index, nodes`children
      ensures Valid() && ListValid() && fresh(n) && nodes == old(nodes) + {n}
      ensures n.kind == Element && n.tag == tag && n.ns == ns && n.attributes == attributes
      ensures open == old(open) + [n] && Kids(nodes) == WithLastChild(old(Kids(nodes)), old(Current()), n)
    {
      assert Current().children == Kids(nodes)[Current()];
      n := NewElement(tag, ns, attributes);
      ghost var k := InsertElement(n);
    }

    // -------------------------------------------------------------------------------
    // Closing elements
    // -------------------------------------------------------------------------------

    /** pop_current_node; null when nothing is open. */
    method Pop() returns (r: Node?)
      modifies this`open
      ensures r == if old(open) == [] then null else old(open)[|old(open)| - 1]
      ensures open == if old(open) == [] then [] else old(open)[..|old(open)| - 1]
    {
      if open == [] {
        return null;
      }
      r := open[|open| - 1];
      open := open[..|open| - 1];
    }

    /** reset_insertion_mode_appropriately; the end of its loop is never reached. */
    method ResetMode()
      requires Stack(open)
      modifies this`mode
      ensures mode == ModeOf(open)
    {
      var i := |open|;
      assert open[..i] == open;
      while i > 0
        invariant 0 < i <= |open| && ModeOf(open[..i]) == ModeOf(open)
      {
        i := i - 1;
        assert open[..i + 1][..i] == open[..i];
        var m := Appropriate(open[i].tag, i == 0);
        if m != Initial {
          mode := m;
          return;
        }
      }
      assert false;
    }

    /** generate_implied_end_tags, but for one tag, or for none when the exception is no implied tag. */
    method GenerateImpliedEndTags(exception: Tag)
      requires Stack(open)
      modifies this`open
      ensures Stack(open) && |open| <= |old(open)| && open == old(open)[..|open|]
      ensures !IsImplied(Current().tag) || Current().tag == exception
      ensures forall i :: |open| <= i < |old(open)| ==> IsImplied(old(open)[i].tag) && old(open)[i].tag != exception
    {
      while IsImplied(Current().tag) && Current().tag != exception
        invariant Stack(open) && |open| <= |old(open)| && open == old(open)[..|open|]
        invariant forall i :: |open| <= i < |old(open)| ==> IsImplied(old(open)[i].tag) && old(open)[i].tag != exception
        decreases |open|
      {
        var _ := Pop();
      }
    }

    /** The loop of every closer: pop until an element with the tag has been popped. */
    method PopThrough(tag: Tag)
      requires Stack(open) && Topmost(open, tag) > 0
      modifies this`open
      ensures Stack(open) && open == old(open)[..Topmost(old(open), tag)]
    {
      ghost var k := Topmost(open, tag);
      var node := Pop();
      while !node.Is(tag)
        invariant k <= |open| < |old(open)| && open == old(open)[..|open|] && node == old(open)[|open|]
        decreases |open|
      {
        node := Pop();
      }
    }

    /** close_table. */
    method CloseTable() returns (r: bool)
      requires Stack(open)
      modifies this`open, this`mode
      ensures Stack(open) && r == InScope(old(open), [TABLE], false, EndsTableScope)
      ensures r ==> open == old(open)[..Topmost(old(open), TABLE)] && mode == ModeOf(open)
      ensures !r ==> open == old(open) && mode == old(mode)
    {
      r := HasElementInScope(open, [TABLE], false, EndsTableScope);
      if r {
        InScopeIsOpen(open, TABLE, false, EndsTableScope);
        PopThrough(TABLE);
        ResetMode();
      }
    }

    /** close_table_cell: the answer says whether only elements with implied end tags were above the cell. */
    method CloseTableCell(cell: Tag) returns (r: bool)
      requires Stack(open) && ListValid() && Entries(active, marker) && Ark(active, marker)
      requires (cell == TD || cell == TH) && Topmost(open, cell) > 0
      modifies this`open, this`mode, this`active
      ensures Stack(open) && open == old(open)[..Topmost(old(open), cell)]
      ensures r <==> forall i :: Topmost(old(open), cell) < i < |old(open)| ==> IsImplied(old(open)[i].tag)
      ensures mode == InRow && active == old(ClearedList())
      ensures ListValid() && Entries(active, marker) && Ark(active, marker)
    {
      r := CloseThrough(cell, HTML);
      ClearToMarker();
      mode := InRow;
    }

    /** Implied end tags, a check that the element is then on top, and pops up to and with it. */
    method CloseThrough(tag: Tag, exception: Tag) returns (r: bool)
      requires Stack(open) && Topmost(open, tag) > 0 && (IsImplied(tag) ==> exception == tag)
      requires exception == tag || !IsImplied(exception)
      modifies this`open
      ensures Stack(open) && open == old(open)[..Topmost(old(open), tag)]
      ensures r <==> forall i :: Topmost(old(open), tag) < i < |old(open)| ==> IsImplied(old(open)[i].tag)
    {
      ghost var k := Topmost(open, tag);
      GenerateImpliedEndTags(exception);
      assert |open| > k by {
        assert old(open)[k].tag == tag;
      }
      TopmostIs(open, tag, k);
      r := Current().Is(tag);
      if !r {
        assert Current() == old(open)[|open| - 1];
      }
      PopThrough(tag);
    }

    /** close_current_cell: the cell in table scope is a td or, failing that, a th. */
    method CloseCurrentCell() returns (r: bool)
      requires Stack(open) && ListValid() && Entries(active, marker) && Ark(active, marker)
      requires InScope(open, [TD], false, EndsTableScope) != InScope(open, [TH], false, EndsTableScope)
      modifies this`open, this`mode, this`active
      ensures Stack(open) && mode == InRow && active == old(ClearedList())
      ensures ListValid() && Entries(active, marker) && Ark(active, marker)
      ensures var cell := if old(InScope(open, [TD], false, EndsTableScope)) then TD else TH;
              && open == old(open)[..Topmost(old(open), cell)]
              && (r <==> forall i :: Topmost(old(open), cell) < i < |old(open)| ==> IsImplied(old(open)[i].tag))
    {
      var td := HasElementInScope(open, [TD], false, EndsTableScope);
      if td {
        InScopeIsOpen(open, TD, false, EndsTableScope);
        r := CloseTableCell(TD);
      } else {
        InScopeIsOpen(open, TH, false, EndsTableScope);
        r := CloseTableCell(TH);
      }
    }

    /** close_current_select, where a select is in select scope. */
    method CloseCurrentSelect()
      requires Stack(open) && InScope(open, [SELECT], true, InsideSelect)
      modifies this`open, this`mode
      ensures Stack(open) && open == old(open)[..Topmost(old(open), SELECT)] && mode == ModeOf(open)
    {
      InScopeIsOpen(open, SELECT, true, InsideSelect);
      PopThrough(SELECT);
      ResetMode();
    }

    /** implicitly_close_tags. */
    method ImplicitlyCloseTags(target: Tag) returns (r: bool)
      requires Stack(open) && Topmost(open, target) > 0
      modifies this`open
      ensures Stack(open) && open == old(open)[..Topmost(old(open), target)]
      ensures r <==> forall i :: Topmost(old(open), target) < i < |old(open)| ==> IsImplied(old(open)[i].tag)
    {
      r := CloseThrough(target, target);
    }

    /** maybe_implicitly_close_p_tag. */
    method MaybeCloseP() returns (r: bool)
      requires Stack(open)
      modifies this`open
      ensures Stack(open)
      ensures open == if old(InScope(open, [P], false, EndsButtonScope))
                      then old(open)[..Topmost(old(open), P)] else old(open)
      ensures r <==> old(InScope(open, [P], false, EndsButtonScope)) ==>
        forall i :: Topmost(old(open), P) < i < |old(open)| ==> IsImplied(old(open)[i].tag)
    {
      var inScope := HasElementInScope(open, [P], false, EndsButtonScope);
      if inScope {
        InScopeIsOpen(open, P, false, EndsButtonScope);
        r := ImplicitlyCloseTags(P);
      } else {
        r := true;
      }
    }

    /** maybe_implicitly_close_list_tag: the nearest list item is closed unless a special element is nearer. */
    method MaybeCloseListItem(isLi: bool)
      requires Stack(open)
      modifies this`open
      ensures Stack(open)
      ensures var k := ListItemAt(old(open), isLi); open == if k == -1 then old(open) else old(open)[..k]
    {
      var i := |open|;
      assert open[..i] == open;
      while i > 0
        invariant 0 <= i <= |open| && open == old(open) && ListItemAt(open[..i], isLi) == ListItemAt(open, isLi)
        invariant forall j :: i <= j < |open| ==> !IsListItem(open[j].tag, isLi)
      {
        i := i - 1;
        assert open[..i + 1][..i] == open[..i];
        if IsListItem(open[i].tag, isLi) {
          TopmostIs(open, open[i].tag, i);
          var _ := ImplicitlyCloseTags(open[i].tag);
          return;
        }
        if EndsListSearch(open[i]) {
          return;
        }
      }
    }

    // -------------------------------------------------------------------------------
    // The list of active formatting elements
    // -------------------------------------------------------------------------------

    /** add_formatting_element. */
    method AddFormatting(node: Node) returns (ghost gone: int)
      requires ListValid() && (node == marker || Formats(node))
      requires Entries(active, marker) && Unique(node.attributes) && Ark(active, marker)
      modifies this`active
      ensures ListValid() && Entries(active, marker) && Ark(active, marker)
      ensures IsAdded(old(active), marker, node, gone, active)
    {
      active, gone := AddEntry(active, marker, node);
    }

    /** The list up to its last marker, or nothing without one. */
    ghost function ClearedList(): seq<Node>
      reads this
    {
      var k := LastMarker(active, marker);
      if k < 0 then [] else active[..k]
    }

    /** clear_active_formatting_elements: up to and with the last marker. */
    method ClearToMarker()
      requires ListValid() && Entries(active, marker) && Ark(active, marker)
      modifies this`active
      ensures ListValid() && Entries(active, marker) && Ark(active, marker)
      ensures active == old(ClearedList())
    {
      var done := false;
      while active != [] && !done
        invariant |active| <= |old(active)| && active == old(active)[..|active|]
        invariant done ==> |active| == LastMarker(old(active), marker)
        invariant !done ==> LastMarker(old(active), marker) < |active|
        decreases |active|
      {
        done := active[|active| - 1] == marker;
        active := active[..|active| - 1];
      }
      ArkPrefix(old(active), marker, |active|);
    }

    /** is_open_element. */
    method IsOpen(node: Node) returns (r: bool)
      ensures r <==> node in open
    {
      for i := 0 to |open|
        invariant node !in open[..i]
      {
        if open[i] == node {
          return true;
        }
      }
      return false;
    }

    /** clone_node: a new element with the same tag and attributes, without children and without a parent. */
    method CloneNode(node: Node) returns (clone: Node)
      requires Valid() && ListValid() && node.kind == Element
      modifies this`nodes
      ensures Valid() && ListValid() && fresh(clone) && nodes == old(nodes) + {clone} && clone.parent == null
      ensures IsClone(clone, node) && Kids(nodes) == old(Kids(nodes))[clone := []]
      ensures clone.kind == Element && clone.tag == node.tag && clone.ns == node.ns
      ensures clone.attributes == node.attributes
    {
      clone := NewElement(node.tag, node.ns, node.attributes);
    }

    /** Steps 1 to 6 of reconstruction: the first entry after the last that is a marker or open. */
    method FirstToReconstruct() returns (i: int)
      ensures i == LastKept(active, open, marker) + 1
    {
      i := |active|;
      assert active[..i] == active;
      while i > 0
        invariant 0 <= i <= |active| && LastKept(active[..i], open, marker) == LastKept(active, open, marker)
      {
        assert active[..i][..i - 1] == active[..i - 1];
        var isOpen := IsOpen(active[i - 1]);
        if active[i - 1] == marker || isOpen {
          return;
        }
        i := i - 1;
      }
    }

    ghost function ListState(): State
      reads this, nodes
    {
      State(active, open, Kids(nodes))
    }

    /** Puts a clone in the place of an entry. */
    method SetEntry(i: nat, clone: Node)
      requires ListValid() && i < |active| && active[i] != marker && clone in nodes && IsClone(clone, active[i])
      modifies this`active
      ensures ListValid() && active == old(active)[i := clone]
    {
      assert Formats(active[i]);
      active := active[i := clone];
    }

    /** Steps 7 to 10, for one entry, where insertions are not fostered. */
    method ReconstructHere(i: nat) returns (clone: Node)
      requires Valid() && ListValid() && i < |active| && active[i] != marker && !Fosters()
      modifies this`open, this`active, this`nodes, nodes`parent, nodes`index, nodes`children
      ensures Valid() && ListValid() && !Fosters()
      ensures fresh(clone) && nodes == old(nodes) + {clone} && IsClone(clone, old(active)[i])
      ensures ListState() == Next(old(ListState()), i, clone)
    {
      assert Formats(active[i]);
      clone := CloneNode(active[i]);
      assert Current().children == old(Kids(nodes))[Current()];
      InsertHere(clone);
      assert Kids(nodes) == WithLastChild(old(Kids(nodes)), old(Current()), clone);
      SetEntry(i, clone);
      FormattingTag(clone.tag);
    }

    /** One more turn of the loop, after the clones made so far. */
    method ReconstructNext(start: nat, i: nat, ghost s: State, ghost clones: seq<Node>) returns (ghost more: seq<Node>)
      requires Valid() && ListValid() && !Fosters()
      requires start <= i < |s.list| && |clones| == i - start && s.Ok() && s.list[i] != marker
      requires NewClones(s, start, clones) && ListState() == Reconstructed(s, start, clones) && s.kids.Keys <= nodes
      modifies this`open, this`active, this`nodes, nodes`parent, nodes`index, nodes`children
      ensures Valid() && ListValid() && !Fosters() && |more| == |clones| + 1
      ensures old(nodes) <= nodes && fresh(nodes - old(nodes))
      ensures NewClones(s, start, more) && ListState() == Reconstructed(s, start, more)
    {
      ReconstructedRest(s, start, clones, i);
      var clone := ReconstructHere(i);
      if clone in clones {
        ClonesInTree(s, start, clones, clone);
      }
      NewClonesStep(s, start, clones, clone);
      ReconstructedStep(s, start, clones, clone);
      more := clones + [clone];
    }

    /** Steps 7 to 10 for all entries from `start` on, where insertions are not fostered. */
    method ReconstructFrom(start: nat) returns (ghost clones: seq<Node>)
      requires Valid() && ListValid() && !Fosters() && start <= |active|
      requires forall j :: start <= j < |active| ==> active[j] != marker
      modifies this`open, this`active, this`nodes, nodes`parent, nodes`index, nodes`children
      ensures Valid() && ListValid() && start + |clones| == |old(active)|
      ensures old(nodes) <= nodes && fresh(nodes - old(nodes)) && marker !in clones
      ensures NewClones(old(ListState()), start, clones)
      ensures ListState() == Reconstructed(old(ListState()), start, clones)
    {
      ghost var s := ListState();
      var i := start;
      clones := [];
      while i < |active|
        invariant start <= i <= |active| == |s.list| && |clones| == i - start
        invariant Valid() && ListValid() && !Fosters()
        invariant old(nodes) <= nodes && fresh(nodes - old(nodes))
        invariant NewClones(s, start, clones) && ListState() == Reconstructed(s, start, clones)
      {
        clones := ReconstructNext(start, i, s, clones);
        i := i + 1;
      }
      if marker in clones {
        ClonesInTree(s, start, clones, marker);
      }
    }

    /** Steps 7 to 10, for one entry, where insertions are fostered; afterwards they are not. */
    method ReconstructFostered(i: nat) returns (clone: Node, ghost k: int)
      requires Valid() && ListValid() && i < |active| && active[i] != marker
      modifies this`open, this`active, this`nodes, nodes`parent, nodes`index, nodes`children
      ensures Valid() && ListValid() && !Fosters()
      ensures fresh(clone) && nodes == old(nodes) + {clone} && IsClone(clone, old(active)[i])
      ensures IsTableAt(old(open), k)
      ensures ListState() == FosteredNext(old(ListState()), i, clone, old(FosterPlace(k)), old(HasPlace(k)))
    {
      assert Formats(active[i]);
      clone := CloneNode(active[i]);
      k := InsertFostered(clone);
      assert Current() == clone;
      SetEntry(i, clone);
      FormattingTag(clone.tag);
    }

    /** Reconstruction where insertions are fostered: the first clone is, the others follow it. */
    method ReconstructWithFoster(start: nat) returns (ghost clones: seq<Node>, ghost k: int)
      requires Valid() && ListValid() && start < |active|
      requires forall j :: start <= j < |active| ==> active[j] != marker
      modifies this`open, this`active, this`nodes, nodes`parent, nodes`index, nodes`children
      ensures Valid() && ListValid() && start + |clones| == |old(active)|
      ensures old(nodes) <= nodes && fresh(nodes - old(nodes)) && |open| >= |old(open)|
      ensures marker !in clones && AreClones(clones, old(active), start)
      ensures active == Splice(old(active), start, clones)
      ensures IsTableAt(old(open), k) && clones != [] && clones[0] !in old(nodes)
      ensures var s := FosteredNext(old(ListState()), start, clones[0], old(FosterPlace(k)), old(HasPlace(k)));
              ListState() == Reconstructed(s, start + 1, clones[1..]) && NewClones(s, start + 1, clones[1..])
    {
      var clone;
      clone, k := ReconstructFostered(start);
      ghost var s := ListState();
      ghost var rest := ReconstructFrom(start + 1);
      FosteredRest(old(ListState()), start, clone, old(FosterPlace(k)), old(HasPlace(k)), rest);
      clones := [clone] + rest;
      assert clones[1..] == rest;
    }

    /** Reconstruction from a position on. */
    method Rebuild(start: nat) returns (ghost clones: seq<Node>, ghost k: int)
      requires Valid() && ListValid() && start <= |active|
      requires forall j :: start <= j < |active| ==> active[j] != marker
      modifies this`open, this`active, this`nodes, nodes`parent, nodes`index, nodes`children
      ensures Valid() && ListValid() && start + |clones| == |old(active)|
      ensures old(nodes) <= nodes && fresh(nodes - old(nodes)) && |open| >= |old(open)|
      ensures marker !in clones && AreClones(clones, old(active), start)
      ensures active == Splice(old(active), start, clones)
      ensures clones == [] ==> ListState() == old(ListState())
      ensures !old(Fosters()) ==>
        ListState() == Reconstructed(old(ListState()), start, clones) && NewClones(old(ListState()), start, clones)
      ensures old(Fosters()) && clones != [] ==>
        && IsTableAt(old(open), k) && clones[0] !in old(nodes)
        && var s := FosteredNext(old(ListState()), start, clones[0], old(FosterPlace(k)), old(HasPlace(k)));
        ListState() == Reconstructed(s, start + 1, clones[1..]) && NewClones(s, start + 1, clones[1..])
    {
      k := -1;
      if !Fosters() {
        clones := ReconstructFrom(start);
        NewClonesAre(old(ListState()), start, clones);
        ReconstructedLists(old(ListState()), start, clones);
      } else if start < |active| {
        clones, k := ReconstructWithFoster(start);
      } else {
        clones := [];
        assert active == Splice(active, start, clones);
      }
    }

    /** reconstruct_active_formatting_elements. */
    method Reconstruct() returns (ghost start: nat, ghost clones: seq<Node>, ghost k: int)
      requires Valid() && ListValid()
      requires Entries(active, marker) && Ark(active, marker)
      modifies this`open, this`active, this`nodes, nodes`parent, nodes`index, nodes`children
      ensures Valid() && ListValid() && Entries(active, marker) && Ark(active, marker)
      ensures old(nodes) <= nodes && fresh(nodes - old(nodes)) && |open| >= |old(open)|
      ensures start == LastKept(old(active), old(open), marker) + 1 && start + |clones| == |old(active)|
      ensures AreClones(clones, old(active), start) && active == Splice(old(active), start, clones)
      ensures clones == [] ==> ListState() == old(ListState())
      ensures !old(Fosters()) ==>
        ListState() == Reconstructed(old(ListState()), start, clones) && NewClones(old(ListState()), start, clones)
      ensures old(Fosters()) && clones != [] ==>
        && IsTableAt(old(open), k) && clones[0] !in old(nodes)
        && var s := FosteredNext(old(ListState()), start, clones[0], old(FosterPlace(k)), old(HasPlace(k)));
        ListState() == Reconstructed(s, start + 1, clones[1..]) && NewClones(s, start + 1, clones[1..])
    {
      var i := FirstToReconstruct();
      start := i;
      clones, k := Rebuild(i);
      SpliceKinds(old(active), start, clones, marker);
      ArkSameKinds(old(active), active, marker);
    }
  }
}
