/**
  The links of TinyXML's tree. Every node knows its parent, its first and last child and its
  neighbours; the ghost sequence `kids` is the list those pointers stand for. Each edit of the
  pointers is proved to be the edit of the sequence, and to leave every other list of the tree
  alone.
 */
module XmlLinks {

  /** The neighbour at a position of a list, null on either side of it. */
  function Slot(s: seq<Node>, i: int): Node? {
    if 0 <= i < |s| then s[i] else null
  }

  predicate Distinct(s: seq<Node>) {
    forall i, j :: 0 <= i < j < |s| ==> s[i] != s[j]
  }

  lemma Inserted(s: seq<Node>, i: nat, node: Node)
    requires Distinct(s) && node !in s && i <= |s|
    ensures var t := s[..i] + [node] + s[i..];
            && |t| == |s| + 1 && Distinct(t) && t[i] == node
            && (forall j :: 0 <= j < i ==> t[j] == s[j])
            && (forall j :: i < j < |t| ==> t[j] == s[j - 1])
  {
  }

  lemma Removed(s: seq<Node>, i: nat)
    requires Distinct(s) && i < |s|
    ensures var t := s[..i] + s[i + 1..];
            && |t| == |s| - 1 && Distinct(t)
            && (forall j :: 0 <= j < i ==> t[j] == s[j])
            && (forall j :: i <= j < |t| ==> t[j] == s[j + 1])
  {
  }

  class Node {
    const isDocument: bool
    const value: string
    var parent: Node?
    var prev: Node?
    var next: Node?
    var firstChild: Node?
    var lastChild: Node?
    ghost var kids: seq<Node>

    constructor (isDocument: bool, value: string)
      ensures this.isDocument == isDocument && this.value == value
      ensures parent == null && kids == [] && Links()
    {
      this.isDocument, this.value := isDocument, value;
      parent, prev, next, firstChild, lastChild, kids := null, null, null, null, null, [];
    }

    /** The child at position i sits between its neighbours and names this node as its parent. */
    ghost predicate Placed(i: nat)
      requires i < |kids|
      reads this, kids
    {
      kids[i].parent == this && kids[i].prev == Slot(kids, i - 1) && kids[i].next == Slot(kids, i + 1)
    }

    /** The pointers form the doubly linked list of the children. */
    ghost predicate Links()
      reads this, kids
    {
      && Distinct(kids)
      && firstChild == Slot(kids, 0)
      && lastChild == Slot(kids, |kids| - 1)
      && forall i :: 0 <= i < |kids| ==> Placed(i)
    }

    /** Putting a node at position i takes three places to change: the node and its two neighbours. */
    twostate lemma InsertedAt(i: nat, new node: Node)
      requires old(Links()) && node !in old(kids) && i <= |old(kids)|
      requires kids == old(kids)[..i] + [node] + old(kids)[i..]
      requires node.parent == this && node.prev == Slot(old(kids), i - 1) && node.next == Slot(old(kids), i)
      requires firstChild == (if i == 0 then node else old(firstChild))
      requires lastChild == (if i == |old(kids)| then node else old(lastChild))
      requires forall j :: 0 <= j < |old(kids)| ==>
        && old(kids)[j].parent == old(kids[j].parent)
        && old(kids)[j].prev == (if j == i then node else old(kids[j].prev))
        && old(kids)[j].next == (if j == i - 1 then node else old(kids[j].next))
      ensures Links()
    {
      Inserted(old(kids), i, node);
      forall j | 0 <= j < |kids|
        ensures Placed(j)
      {
        if j < i {
          assert old(Placed(j));
        } else if j > i {
          assert old(Placed(j - 1));
        }
      }
    }

    /** LinkEndChild. */
    method LinkEndChild(node: Node) returns (r: Node?)
      requires Links() && node !in kids
      modifies this`firstChild, this`lastChild, this`kids, kids`next, node`parent, node`prev, node`next
      ensures Links()
      ensures r == (if node.isDocument then null else node)
      ensures kids == if r == null then old(kids) else old(kids) + [node]
    {
      if node.isDocument {
        return null;
      }
      ghost var n := |kids|;
      node.parent := this;
      node.prev := lastChild;
      node.next := null;
      if lastChild != null {
        lastChild.next := node;
      } else {
        firstChild := node;
      }
      lastChild := node;
      kids := kids + [node];
      assert kids == old(kids)[..n] + [node] + old(kids)[n..];
      InsertedAt(n, node);
      return node;
    }

    /** InsertBeforeChild, with the copy it makes of the node to add. */
    method InsertBeforeChild(beforeThis: Node?, node: Node) returns (r: Node?, ghost i: int)
      requires Links() && node !in kids
      requires beforeThis != null && beforeThis.parent == this ==> beforeThis in kids
      modifies this`firstChild, this`kids, kids`next, kids`prev, node`parent, node`prev, node`next
      ensures Links()
      ensures r == if beforeThis != null && old(beforeThis.parent) == this && !node.isDocument then node else null
      ensures r != null ==> 0 <= i < |old(kids)| && old(kids)[i] == beforeThis
      ensures kids == if r == null then old(kids) else old(kids)[..i] + [node] + old(kids)[i..]
    {
      i := -1;
      if beforeThis == null || beforeThis.parent != this || node.isDocument {
        return null, i;
      }
      i :| 0 <= i < |kids| && kids[i] == beforeThis;
      assert Placed(i);
      node.parent := this;
      node.next := beforeThis;
      node.prev := beforeThis.prev;
      if beforeThis.prev != null {
        beforeThis.prev.next := node;
      } else {
        firstChild := node;
      }
      beforeThis.prev := node;
      kids := kids[..i] + [node] + kids[i..];
      InsertedAt(i, node);
      return node, i;
    }

    /** InsertAfterChild, with the copy it makes of the node to add. */
    method InsertAfterChild(afterThis: Node?, node: Node) returns (r: Node?, ghost i: int)
      requires Links() && node !in kids
      requires afterThis != null && afterThis.parent == this ==> afterThis in kids
      modifies this`lastChild, this`kids, kids`next, kids`prev, node`parent, node`prev, node`next
      ensures Links()
      ensures r == if afterThis != null && old(afterThis.parent) == this && !node.isDocument then node else null
      ensures r != null ==> 0 <= i < |old(kids)| && old(kids)[i] == afterThis
      ensures kids == if r == null then old(kids) else old(kids)[..i + 1] + [node] + old(kids)[i + 1..]
    {
      i := -1;
      if afterThis == null || afterThis.parent != this || node.isDocument {
        return null, i;
      }
      i :| 0 <= i < |kids| && kids[i] == afterThis;
      assert Placed(i);
      node.parent := this;
      node.prev := afterThis;
      node.next := afterThis.next;
      if afterThis.next != null {
        afterThis.next.prev := node;
      } else {
        lastChild := node;
      }
      afterThis.next := node;
      kids := kids[..i + 1] + [node] + kids[i + 1..];
      InsertedAt(i + 1, node);
      return node, i;
    }

    /** Putting a node in the place of another. */
    twostate lemma ReplacedAt(i: nat, new node: Node)
      requires old(Links()) && node !in old(kids) && i < |old(kids)| && kids == old(kids)[i := node]
      requires node.parent == this && node.prev == Slot(old(kids), i - 1) && node.next == Slot(old(kids), i + 1)
      requires firstChild == (if i == 0 then node else old(firstChild))
      requires lastChild == (if i == |old(kids)| - 1 then node else old(lastChild))
      requires forall j :: 0 <= j < |old(kids)| ==>
        && old(kids)[j].parent == old(kids[j].parent)
        && old(kids)[j].prev == (if j == i + 1 then node else old(kids[j].prev))
        && old(kids)[j].next == (if j == i - 1 then node else old(kids[j].next))
      ensures Links()
    {
      forall j | 0 <= j < |kids|
        ensures Placed(j)
      {
        if j != i {
          assert old(Placed(j));
        }
      }
    }

    /** ReplaceChild, with the copy it makes of the node to put there. */
    method ReplaceChild(replaceThis: Node?, node: Node) returns (r: Node?, ghost i: int)
      requires Links() && node !in kids
      requires replaceThis != null && replaceThis.parent == this ==> replaceThis in kids
      modifies this`firstChild, this`lastChild, this`kids, kids`next, kids`prev, node`parent, node`prev, node`next
      ensures Links()
      ensures r == if replaceThis != null && old(replaceThis.parent) == this && !node.isDocument then node else null
      ensures r != null ==> 0 <= i < |old(kids)| && old(kids)[i] == replaceThis
      ensures kids == if r == null then old(kids) else old(kids)[i := node]
    {
      i := -1;
      if replaceThis == null || replaceThis.parent != this || node.isDocument {
        return null, i;
      }
      i :| 0 <= i < |kids| && kids[i] == replaceThis;
      assert Placed(i);
      node.next := replaceThis.next;
      node.prev := replaceThis.prev;
      if replaceThis.next != null {
        replaceThis.next.prev := node;
      } else {
        lastChild := node;
      }
      if replaceThis.prev != null {
        replaceThis.prev.next := node;
      } else {
        firstChild := node;
      }
      node.parent := this;
      kids := kids[i := node];
      ReplacedAt(i, node);
      return node, i;
    }

    /** Taking a node out joins its neighbours. */
    twostate lemma RemovedAt(i: nat)
      requires old(Links()) && i < |old(kids)| && kids == old(kids)[..i] + old(kids)[i + 1..]
      requires firstChild == (if i == 0 then Slot(old(kids), 1) else old(firstChild))
      requires lastChild == (if i == |old(kids)| - 1 then Slot(old(kids), i - 1) else old(lastChild))
      requires forall j :: 0 <= j < |old(kids)| ==>
        && old(kids)[j].parent == old(kids[j].parent)
        && old(kids)[j].prev == (if j == i + 1 then Slot(old(kids), i - 1) else old(kids[j].prev))
        && old(kids)[j].next == (if j == i - 1 then Slot(old(kids), i + 1) else old(kids[j].next))
      ensures Links()
    {
      Removed(old(kids), i);
      forall j | 0 <= j < |kids|
        ensures Placed(j)
      {
        if j < i {
          assert old(Placed(j));
        } else {
          assert old(Placed(j + 1));
        }
      }
    }

    /** RemoveChild. */
    method RemoveChild(removeThis: Node?) returns (r: bool, ghost i: int)
      requires Links()
      requires removeThis != null && removeThis.parent == this ==> removeThis in kids
      modifies this`firstChild, this`lastChild, this`kids, kids`next, kids`prev
      ensures Links()
      ensures r <==> removeThis != null && old(removeThis.parent) == this
      ensures r ==> 0 <= i < |old(kids)| && old(kids)[i] == removeThis
      ensures kids == if !r then old(kids) else old(kids)[..i] + old(kids)[i + 1..]
    {
      i := -1;
      if removeThis == null || removeThis.parent != this {
        return false, i;
      }
      i :| 0 <= i < |kids| && kids[i] == removeThis;
      assert Placed(i);
      if removeThis.next != null {
        removeThis.next.prev := removeThis.prev;
      } else {
        lastChild := removeThis.prev;
      }
      if removeThis.prev != null {
        removeThis.prev.next := removeThis.next;
      } else {
        firstChild := removeThis.next;
      }
      kids := kids[..i] + kids[i + 1..];
      RemovedAt(i);
      return true, i;
    }

    /** The child at a position, found by following `next`; null past the end. */
    method Child(i: nat) returns (c: Node?)
      requires Links()
      ensures c == Slot(kids, i) && (c != null ==> c.parent == this)
    {
      c := firstChild;
      var k := 0;
      while k < i && c != null
        invariant k <= i && c == Slot(kids, k)
      {
        assert Placed(k);
        c, k := c.next, k + 1;
      }
      assert c != null ==> Placed(i);
    }

    /** Following `next` from the first child visits the children in order. */
    method Forward() returns (s: seq<Node>)
      requires Links()
      ensures s == kids
    {
      s := [];
      var c := firstChild;
      while c != null
        invariant |s| <= |kids| && s == kids[..|s|] && c == Slot(kids, |s|)
        decreases |kids| - |s|
      {
        assert Placed(|s|);
        s, c := s + [c], c.next;
      }
    }

    /** Following `prev` from the last child visits them backwards. */
    method Backward() returns (s: seq<Node>)
      requires Links()
      ensures s == kids
    {
      s := [];
      var c := lastChild;
      while c != null
        invariant |s| <= |kids| && s == kids[|kids| - |s|..] && c == Slot(kids, |kids| - |s| - 1)
        decreases |kids| - |s|
      {
        assert Placed(|kids| - |s| - 1);
        s, c := [c] + s, c.prev;
      }
    }
  }

  // ---------------------------------------------------------------------------------
  // Runs on one list
  // ---------------------------------------------------------------------------------

  /** An edit of a list of values; a position past the end finds no child. */
  datatype Edit =
    | LinkEnd(value: string)
    | InsertBefore(i: nat, value: string)
    | InsertAfter(i: nat, value: string)
    | Replace(i: nat, value: string)
    | Remove(i: nat)

  function Edited(s: seq<string>, e: Edit): seq<string> {
    match e
    case LinkEnd(v) => s + [v]
    case InsertBefore(i, v) => if i < |s| then s[..i] + [v] + s[i..] else s
    case InsertAfter(i, v) => if i < |s| then s[..i + 1] + [v] + s[i + 1..] else s
    case Replace(i, v) => if i < |s| then s[i := v] else s
    case Remove(i) => if i < |s| then s[..i] + s[i + 1..] else s
  }

  function EditedAll(s: seq<string>, edits: seq<Edit>): seq<string>
    decreases |edits|
  {
    if edits == [] then s else EditedAll(Edited(s, edits[0]), edits[1..])
  }

  lemma EditedAllStep(s: seq<string>, edits: seq<Edit>, n: nat)
    requires n < |edits|
    ensures EditedAll(s, edits[n..]) == EditedAll(Edited(s, edits[n]), edits[n + 1..])
  {
    assert edits[n..][1..] == edits[n + 1..];
  }

  function Values(s: seq<Node>): seq<string> {
    seq(|s|, i requires 0 <= i < |s| => s[i].value)
  }

  lemma ValuesInserted(s: seq<Node>, i: nat, node: Node)
    requires i <= |s|
    ensures Values(s[..i] + [node] + s[i..]) == Values(s)[..i] + [node.value] + Values(s)[i..]
  {
  }

  lemma ValuesRemoved(s: seq<Node>, i: nat)
    requires i < |s|
    ensures Values(s[..i] + s[i + 1..]) == Values(s)[..i] + Values(s)[i + 1..]
  {
  }

  /** The nodes a list can hold after an edit. */
  twostate predicate Grown(root: Node)
    reads root
  {
    forall i :: 0 <= i < |root.kids| ==> root.kids[i] in old(root.kids) || fresh(root.kids[i])
  }

  method AddLast(root: Node, v: string)
    requires root.Links()
    modifies root, root.kids
    ensures root.Links() && Grown(root) && Values(root.kids) == old(Values(root.kids)) + [v]
  {
    var node := new Node(false, v);
    var _ := root.LinkEndChild(node);
  }

  method AddBefore(root: Node, i: nat, v: string)
    requires root.Links()
    modifies root, root.kids
    ensures root.Links() && Grown(root) && Values(root.kids) == Edited(old(Values(root.kids)), InsertBefore(i, v))
  {
    var child := root.Child(i);
    var node := new Node(false, v);
    var r, k := root.InsertBeforeChild(child, node);
    if r != null {
      assert k == i;
      ValuesInserted(old(root.kids), i, node);
    }
  }

  method AddAfter(root: Node, i: nat, v: string)
    requires root.Links()
    modifies root, root.kids
    ensures root.Links() && Grown(root) && Values(root.kids) == Edited(old(Values(root.kids)), InsertAfter(i, v))
  {
    var child := root.Child(i);
    var node := new Node(false, v);
    var r, k := root.InsertAfterChild(child, node);
    if r != null {
      assert k == i;
      ValuesInserted(old(root.kids), i + 1, node);
    }
  }

  method PutAt(root: Node, i: nat, v: string)
    requires root.Links()
    modifies root, root.kids
    ensures root.Links() && Grown(root) && Values(root.kids) == Edited(old(Values(root.kids)), Replace(i, v))
  {
    var child := root.Child(i);
    var node := new Node(false, v);
    var _, _ := root.ReplaceChild(child, node);
  }

  method TakeOut(root: Node, i: nat)
    requires root.Links()
    modifies root, root.kids
    ensures root.Links() && Grown(root) && Values(root.kids) == Edited(old(Values(root.kids)), Remove(i))
  {
    var child := root.Child(i);
    var r, _ := root.RemoveChild(child);
    if r {
      ValuesRemoved(old(root.kids), i);
    }
  }

  /** One edit, on the child found at its position. */
  method Apply(root: Node, e: Edit)
    requires root.Links()
    modifies root, root.kids
    ensures root.Links() && Grown(root) && Values(root.kids) == Edited(old(Values(root.kids)), e)
  {
    match e
    case LinkEnd(v) => AddLast(root, v);
    case InsertBefore(i, v) => AddBefore(root, i, v);
    case InsertAfter(i, v) => AddAfter(root, i, v);
    case Replace(i, v) => PutAt(root, i, v);
    case Remove(i) => TakeOut(root, i);
  }

  /** Every run of edits leaves a well-formed list of what the same edits make of a sequence. */
  method Run(root: Node, edits: seq<Edit>)
    requires root.Links()
    modifies root, root.kids
    ensures root.Links() && Values(root.kids) == EditedAll(old(Values(root.kids)), edits)
  {
    assert edits[0..] == edits;
    for n := 0 to |edits|
      invariant root.Links()
      invariant Grown(root)
      invariant EditedAll(Values(root.kids), edits[n..]) == EditedAll(old(Values(root.kids)), edits)
    {
      EditedAllStep(Values(root.kids), edits, n);
      Apply(root, edits[n]);
    }
  }

  // ---------------------------------------------------------------------------------
  // The whole tree
  // ---------------------------------------------------------------------------------

  /** The nodes of a tree, and among them those that are in no list. */
  datatype Forest = Forest(all: set<Node>, loose: set<Node>)

  /** Every node is linked to its children, and every node with a parent is in its list unless it is loose. */
  ghost predicate Coherent(f: Forest)
    reads f.all
  {
    && f.loose <= f.all
    && (forall p, i :: p in f.all && 0 <= i < |p.kids| ==> p.kids[i] in f.all - f.loose)
    && (forall p :: p in f.all ==> p.Links())
    && (forall c :: c in f.all - f.loose && c.parent != null ==> c.parent in f.all && c in c.parent.kids)
  }

  /** Those that left a list are loose afterwards, those that entered it are not. */
  function Freed(f: Forest, before: seq<Node>, after: seq<Node>): Forest {
    Forest(f.all, (f.loose - (set c | c in after)) + (set c | c in before && c !in after))
  }

  /** A change of one list, made of its own nodes and loose ones, does not reach any other list. */
  twostate lemma StaysCoherent(new p: Node, f: Forest)
    requires old(Coherent(f)) && p in f.all
    requires p.Links() && forall i :: 0 <= i < |p.kids| ==> p.kids[i] in old(p.kids) || p.kids[i] in f.loose
    requires forall q :: q in f.all && q != p ==>
      q.kids == old(q.kids) && q.firstChild == old(q.firstChild) && q.lastChild == old(q.lastChild)
    requires forall c :: c in f.all - f.loose ==> c.parent == old(c.parent)
    requires forall c :: c in f.all - f.loose && c !in old(p.kids) ==> c.prev == old(c.prev) && c.next == old(c.next)
    ensures Coherent(Freed(f, old(p.kids), p.kids))
  {
    var g := Freed(f, old(p.kids), p.kids);
    assert old(p.Links());
    forall i | 0 <= i < |p.kids|
      ensures p.kids[i].parent == p
    {
      assert p.Placed(i);
    }
    forall q | q in f.all && q != p
      ensures q.Links() && forall i :: 0 <= i < |q.kids| ==> q.kids[i] in g.all - g.loose
    {
      assert old(q.Links());
      forall i | 0 <= i < |q.kids|
        ensures q.Placed(i) && q.kids[i] in g.all - g.loose
      {
        assert old(q.Placed(i));
        forall j | 0 <= j < |old(p.kids)|
          ensures old(p.kids)[j] != q.kids[i]
        {
          assert old(p.Placed(j));
        }
      }
    }
    forall c | c in g.all - g.loose && c.parent != null
      ensures c.parent in g.all && c in c.parent.kids
    {
      if c !in p.kids {
        assert c in f.all - f.loose && c !in old(p.kids);
      }
    }
  }

  twostate predicate OthersKept(p: Node, f: Forest)
    reads f.all
  {
    forall q :: q in f.all && q != p ==> q.kids == old(q.kids)
  }

  // Each edit of any node's children keeps every list of the tree. The nodes to add are in no list yet.

  method LinkInTree(p: Node, node: Node, ghost f: Forest)
    requires Coherent(f) && p in f.all && node in f.loose
    modifies f.all
    ensures Coherent(Freed(f, old(p.kids), p.kids)) && OthersKept(p, f)
    ensures p.kids == if node.isDocument then old(p.kids) else old(p.kids) + [node]
  {
    var _ := p.LinkEndChild(node);
    StaysCoherent(p, f);
  }

  method InsertBeforeInTree(p: Node, child: Node?, node: Node, ghost f: Forest) returns (r: Node?, ghost i: int)
    requires Coherent(f) && p in f.all && node in f.loose
    requires child != null ==> child in f.all - f.loose
    modifies f.all
    ensures Coherent(Freed(f, old(p.kids), p.kids)) && OthersKept(p, f)
    ensures r == if child != null && old(child.parent) == p && !node.isDocument then node else null
    ensures r != null ==> 0 <= i < |old(p.kids)| && old(p.kids)[i] == child
    ensures p.kids == if r == null then old(p.kids) else old(p.kids)[..i] + [node] + old(p.kids)[i..]
  {
    r, i := p.InsertBeforeChild(child, node);
    StaysCoherent(p, f);
  }

  method InsertAfterInTree(p: Node, child: Node?, node: Node, ghost f: Forest) returns (r: Node?, ghost i: int)
    requires Coherent(f) && p in f.all && node in f.loose
    requires child != null ==> child in f.all - f.loose
    modifies f.all
    ensures Coherent(Freed(f, old(p.kids), p.kids)) && OthersKept(p, f)
    ensures r == if child != null && old(child.parent) == p && !node.isDocument then node else null
    ensures r != null ==> 0 <= i < |old(p.kids)| && old(p.kids)[i] == child
    ensures p.kids == if r == null then old(p.kids) else old(p.kids)[..i + 1] + [node] + old(p.kids)[i + 1..]
  {
    r, i := p.InsertAfterChild(child, node);
    StaysCoherent(p, f);
  }

  method ReplaceInTree(p: Node, child: Node?, node: Node, ghost f: Forest) returns (r: Node?, ghost i: int)
    requires Coherent(f) && p in f.all && node in f.loose
    requires child != null ==> child in f.all - f.loose
    modifies f.all
    ensures Coherent(Freed(f, old(p.kids), p.kids)) && OthersKept(p, f)
    ensures r == if child != null && old(child.parent) == p && !node.isDocument then node else null
    ensures r != null ==> 0 <= i < |old(p.kids)| && old(p.kids)[i] == child
    ensures p.kids == if r == null then old(p.kids) else old(p.kids)[i := node]
  {
    r, i := p.ReplaceChild(child, node);
    StaysCoherent(p, f);
  }

  method RemoveInTree(p: Node, child: Node?, ghost f: Forest) returns (r: bool, ghost i: int)
    requires Coherent(f) && p in f.all
    requires child != null ==> child in f.all - f.loose
    modifies f.all
    ensures Coherent(Freed(f, old(p.kids), p.kids)) && OthersKept(p, f)
    ensures r <==> child != null && old(child.parent) == p
    ensures r ==> 0 <= i < |old(p.kids)| && old(p.kids)[i] == child
    ensures p.kids == if !r then old(p.kids) else old(p.kids)[..i] + old(p.kids)[i + 1..]
  {
    r, i := p.RemoveChild(child);
    StaysCoherent(p, f);
  }
}
