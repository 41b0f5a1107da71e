/**
  Gumbo's node tree. A node names its parent and its slot among the parent's children, and
  the tree is coherent when those names agree with the children vectors. Every piece of tree
  surgery in the parser keeps a tree coherent and is described by what it does to the map
  from nodes to their children.
 */
module GumboTree {
  import opened GumboTags

  datatype Kind = Document | Element | Text | Whitespace | Comment

  class Node {
    const kind: Kind
    const tag: Tag
    const ns: Namespace
    const attributes: seq<Attribute>
    const text: string
    var parent: Node?
    var index: int
    var children: seq<Node>

    constructor (kind: Kind, tag: Tag, ns: Namespace, attributes: seq<Attribute>, text: string)
      ensures this.kind == kind && this.tag == tag && this.ns == ns
      ensures this.attributes == attributes && this.text == text
      ensures parent == null && index == -1 && children == []
    {
      this.kind, this.tag, this.ns, this.attributes, this.text := kind, tag, ns, attributes, text;
      parent, index, children := null, -1, [];
    }

    predicate CanHold() {
      kind == Element || kind == Document
    }

    predicate Is(t: Tag) {
      kind == Element && tag == t
    }
  }

  // ---------------------------------------------------------------------------------
  // Coherence
  // ---------------------------------------------------------------------------------

  /** Every child knows its parent and its slot. */
  ghost predicate ChildrenPlaced(nodes: set<Node>)
    reads nodes
  {
    forall p, i :: p in nodes && 0 <= i < |p.children| ==>
      p.children[i] in nodes && p.children[i].parent == p && p.children[i].index == i
  }

  /** A node without a parent has no slot; any other is where it says. */
  ghost predicate ParentsKnown(nodes: set<Node>)
    reads nodes
  {
    forall c :: c in nodes ==>
      if c.parent == null then c.index == -1
      else c.parent in nodes && 0 <= c.index < |c.parent.children| && c.parent.children[c.index] == c
  }

  /** Each node sits in at most one children vector, at its slot, under its parent. */
  ghost predicate Coherent(nodes: set<Node>)
    reads nodes
  {
    && ChildrenPlaced(nodes) && ParentsKnown(nodes)
    && forall p :: p in nodes && p.children != [] ==> p.CanHold()
  }

  /** What the tree looks like from above. */
  ghost function Kids(nodes: set<Node>): map<Node, seq<Node>>
    reads nodes
  {
    map n | n in nodes :: n.children
  }

  /**
    A changed children vector leaves the tree coherent when those in it are placed, those that
    left it have no parent, and those that entered it had none.
   */
  twostate lemma Rebuilt(new p: Node, nodes: set<Node>)
    requires old(Coherent(nodes)) && p in nodes && p.CanHold()
    requires forall q :: q in nodes && q != p ==> q.children == old(q.children)
    requires forall i :: 0 <= i < |p.children| ==>
      p.children[i] in nodes && p.children[i].parent == p && p.children[i].index == i
    requires forall c :: c in nodes && c in p.children ==> old(c.parent) == null || old(c.parent) == p
    requires forall c :: c in nodes && c !in p.children ==>
      if c in old(p.children) then c.parent == null && c.index == -1
      else c.parent == old(c.parent) && c.index == old(c.index)
    ensures Coherent(nodes) && Kids(nodes) == old(Kids(nodes))[p := p.children]
  {
    forall q, i | q in nodes && q != p && 0 <= i < |q.children|
      ensures q.children[i] in nodes && q.children[i].parent == q && q.children[i].index == i
    {
      var c := q.children[i];
      assert old(c.parent) == q;
      assert c !in p.children && c !in old(p.children);
    }
    assert ChildrenPlaced(nodes);
    forall c | c in nodes && c !in p.children
      ensures if c.parent == null then c.index == -1
              else c.parent in nodes && 0 <= c.index < |c.parent.children| && c.parent.children[c.index] == c
    {
    }
  }

  /** A node of its own joins the tree. */
  lemma Added(n: Node, nodes: set<Node>)
    requires Coherent(nodes) && n !in nodes && n.parent == null && n.index == -1 && n.children == []
    ensures Coherent(nodes + {n}) && Kids(nodes + {n}) == Kids(nodes)[n := []]
  {
  }

  /** append_node. */
  method AppendNode(parent: Node, node: Node, ghost nodes: set<Node>)
    requires Coherent(nodes) && parent in nodes && node in nodes && node.parent == null && parent.CanHold()
    modifies parent`children, node`parent, node`index
    ensures Coherent(nodes) && node.parent == parent
    ensures Kids(nodes) == old(Kids(nodes))[parent := old(parent.children) + [node]]
  {
    node.parent := parent;
    node.index := |parent.children|;
    parent.children := parent.children + [node];
    Rebuilt(parent, nodes);
  }

  predicate Distinct(s: seq<Node>) {
    forall i, j :: 0 <= i < j < |s| ==> s[i] != s[j]
  }

  lemma ChildrenDistinct(p: Node, nodes: set<Node>)
    requires Coherent(nodes) && p in nodes
    ensures Distinct(p.children)
  {
  }

  lemma Inserted(s: seq<Node>, at: nat, node: Node)
    requires Distinct(s) && node !in s && at <= |s|
    ensures var t := s[..at] + [node] + s[at..];
            && |t| == |s| + 1 && Distinct(t) && t[at] == node
            && (forall j :: 0 <= j < at ==> t[j] == s[j])
            && (forall j :: at < j < |t| ==> t[j] == s[j - 1])
            && (forall c :: c in s ==> c in t)
  {
    var t := s[..at] + [node] + s[at..];
    forall c | c in s
      ensures c in t
    {
      var i :| 0 <= i < |s| && s[i] == c;
      assert t[if i < at then i else i + 1] == c;
    }
  }

  lemma Removed(s: seq<Node>, at: nat)
    requires Distinct(s) && at < |s|
    ensures var t := s[..at] + s[at + 1..];
            && |t| == |s| - 1 && Distinct(t) && s[at] !in t
            && (forall j :: 0 <= j < at ==> t[j] == s[j])
            && (forall j :: at <= j < |t| ==> t[j] == s[j + 1])
            && (forall c :: c in s && c != s[at] ==> c in t)
  {
    var t := s[..at] + s[at + 1..];
    forall c | c in s && c != s[at]
      ensures c in t
    {
      var i :| 0 <= i < |s| && s[i] == c;
      assert t[if i < at then i else i - 1] == c;
    }
  }

  /** The loop over the siblings behind an inserted or removed node. */
  method Renumber(children: seq<Node>, from: nat)
    requires Distinct(children)
    modifies children`index
    ensures forall i :: 0 <= i < |children| ==> children[i].index == if i < from then old(children[i].index) else i
  {
    var i := from;
    while i < |children|
      invariant i >= from
      invariant forall j :: 0 <= j < |children| ==>
        children[j].index == if from <= j < i then j else old(children[j].index)
    {
      children[i].index := i;
      i := i + 1;
    }
  }

  /** insert_node. */
  method InsertNode(parent: Node, at: nat, node: Node, ghost nodes: set<Node>)
    requires Coherent(nodes) && parent in nodes && node in nodes && node.parent == null
    requires parent.kind == Element && at < |parent.children|
    modifies parent`children, node`parent, parent.children`index, node`index
    ensures Coherent(nodes) && node.parent == parent
    ensures Kids(nodes) == old(Kids(nodes))[parent := old(parent.children)[..at] + [node] + old(parent.children)[at..]]
  {
    ChildrenDistinct(parent, nodes);
    Inserted(parent.children, at, node);
    node.parent := parent;
    node.index := at;
    parent.children := parent.children[..at] + [node] + parent.children[at..];
    Renumber(parent.children, at + 1);
    Rebuilt(parent, nodes);
  }

  /** gumbo_vector_index_of. */
  method IndexOf(s: seq<Node>, node: Node) returns (k: int)
    ensures k == -1 ==> node !in s
    ensures k != -1 ==> 0 <= k < |s| && s[k] == node && node !in s[..k]
  {
    for i := 0 to |s|
      invariant node !in s[..i]
    {
      if s[i] == node {
        return i;
      }
    }
    return -1;
  }

  /** The part of remove_from_parent for a node that has a parent. */
  method TakeOut(parent: Node, at: nat, node: Node, ghost nodes: set<Node>)
    requires Coherent(nodes) && parent in nodes && at < |parent.children| && parent.children[at] == node
    modifies parent`children, node`parent, parent.children`index
    ensures Coherent(nodes) && node.parent == null
    ensures Kids(nodes) == old(Kids(nodes))[parent := old(parent.children)[..at] + old(parent.children)[at + 1..]]
  {
    ChildrenDistinct(parent, nodes);
    Removed(parent.children, at);
    parent.children := parent.children[..at] + parent.children[at + 1..];
    node.parent := null;
    node.index := -1;
    Renumber(parent.children, at);
    Rebuilt(parent, nodes);
  }

  /** remove_from_parent. */
  method RemoveFromParent(node: Node, ghost nodes: set<Node>)
    requires Coherent(nodes) && node in nodes
    requires node.parent != null ==> node.parent.kind == Element
    modifies node`parent, nodes`index, nodes`children
    ensures Coherent(nodes) && node.parent == null
    ensures Kids(nodes) == Detached(old(Kids(nodes)), old(node.parent), old(node.index))
  {
    var parent := node.parent;
    if parent == null {
      return;
    }
    var at := IndexOf(parent.children, node);
    ChildrenDistinct(parent, nodes);
    TakeOut(parent, at, node, nodes);
  }

  /** The tree without the child at a slot. */
  ghost function Detached(kids: map<Node, seq<Node>>, p: Node?, at: int): map<Node, seq<Node>>
    requires p != null ==> p in kids && 0 <= at < |kids[p]|
  {
    if p == null then kids else kids[p := kids[p][..at] + kids[p][at + 1..]]
  }

  /** Step 12 of the adoption agency: the children vectors change hands, then the parents are set. */
  method SwapChildren(from: Node, into: Node, ghost nodes: set<Node>)
    requires Coherent(nodes) && from in nodes && into in nodes && from != into
    requires into.children == [] && into.CanHold()
    modifies from`children, into`children, from.children`parent
    ensures Coherent(nodes)
    ensures Kids(nodes) == old(Kids(nodes))[into := old(from.children)][from := []]
  {
    ChildrenDistinct(from, nodes);
    var temp := into.children;
    into.children := from.children;
    from.children := temp;
    temp := into.children;
    for i := 0 to |temp|
      invariant from.children == [] && into.children == temp
      invariant forall j :: 0 <= j < |temp| ==> temp[j].parent == if j < i then into else old(temp[j].parent)
    {
      temp[i].parent := into;
    }
    Swapped(from, into, nodes);
  }

  twostate lemma Swapped(new from: Node, new into: Node, nodes: set<Node>)
    requires old(Coherent(nodes)) && from in nodes && into in nodes && from != into
    requires old(into.children) == [] && into.CanHold()
    requires into.children == old(from.children) && from.children == []
    requires forall q :: q in nodes && q != from && q != into ==> q.children == old(q.children)
    requires forall c :: c in nodes ==> c.index == old(c.index)
    requires forall c :: c in nodes ==> c.parent == if c in into.children then into else old(c.parent)
    ensures Coherent(nodes) && Kids(nodes) == old(Kids(nodes))[into := old(from.children)][from := []]
  {
    forall q, i | q in nodes && q != from && q != into && 0 <= i < |q.children|
      ensures q.children[i] in nodes && q.children[i].parent == q && q.children[i].index == i
    {
      var c := q.children[i];
      assert old(c.parent) == q;
      assert c !in into.children;
    }
    assert ChildrenPlaced(nodes);
    forall c | c in nodes
      ensures if c.parent == null then c.index == -1
              else c.parent in nodes && 0 <= c.index < |c.parent.children| && c.parent.children[c.index] == c
    {
      if c !in into.children && c.parent != null {
        assert old(c.parent) != from && old(c.parent) != into;
      }
    }
  }
}
