/**
  Trees as values. A map from nodes to children has the shape of a tree when unfolding it
  from a root gives that tree; its leaves are the nodes that are no elements, from left to
  right. Cutting a subtree off the rightmost path and grafting one onto it are described by
  what they do to the leaves and to the path.
 */
module GumboLeaves {
  import opened GumboTree

  datatype Tree = Tree(root: Node, kids: seq<Tree>)

  // ---------------------------------------------------------------------------------
  // Trees and maps
  // ---------------------------------------------------------------------------------

  function Roots(ts: seq<Tree>): (r: seq<Node>)
    ensures |r| == |ts| && forall i :: 0 <= i < |ts| ==> r[i] == ts[i].root
  {
    if ts == [] then [] else Roots(ts[..|ts| - 1]) + [ts[|ts| - 1].root]
  }

  /** Unfolding the map from the root of the tree gives the tree. */
  predicate Shape(kids: map<Node, seq<Node>>, t: Tree)
    decreases t, 0
  {
    t.root in kids && kids[t.root] == Roots(t.kids) && ShapeAll(kids, t.kids)
  }

  predicate ShapeAll(kids: map<Node, seq<Node>>, ts: seq<Tree>)
    decreases ts, 1
  {
    ts == [] || (ShapeAll(kids, ts[..|ts| - 1]) && Shape(kids, ts[|ts| - 1]))
  }

  function Nodes(t: Tree): set<Node>
    decreases t, 0
  {
    {t.root} + NodesAll(t.kids)
  }

  function NodesAll(ts: seq<Tree>): set<Node>
    decreases ts, 1
  {
    if ts == [] then {} else NodesAll(ts[..|ts| - 1]) + Nodes(ts[|ts| - 1])
  }

  /** No node is in the tree twice. */
  predicate Plain(t: Tree)
    decreases t, 0
  {
    t.root !in NodesAll(t.kids) && PlainAll(t.kids)
  }

  predicate PlainAll(ts: seq<Tree>)
    decreases ts, 1
  {
    ts == [] ||
    (PlainAll(ts[..|ts| - 1]) && Plain(ts[|ts| - 1]) && NodesAll(ts[..|ts| - 1]) !! Nodes(ts[|ts| - 1]))
  }

  /** The nodes that are no elements, from left to right. */
  function Leaves(t: Tree): seq<Node>
    decreases t, 0
  {
    (if t.root.kind == Element || t.root.kind == Document then [] else [t.root]) + LeavesAll(t.kids)
  }

  function LeavesAll(ts: seq<Tree>): seq<Node>
    decreases ts, 1
  {
    if ts == [] then [] else LeavesAll(ts[..|ts| - 1]) + Leaves(ts[|ts| - 1])
  }

  /** The rightmost path: from the root always to the last child. */
  function Path(t: Tree): (p: seq<Node>)
    ensures p != [] && p[0] == t.root
    decreases t
  {
    if t.kids == [] then [t.root] else [t.root] + Path(t.kids[|t.kids| - 1])
  }

  // ---------------------------------------------------------------------------------
  // Cutting and grafting on the rightmost path
  // ---------------------------------------------------------------------------------

  function Last(t: Tree): Tree
    requires t.kids != []
  {
    t.kids[|t.kids| - 1]
  }

  /** The tree with another last child. */
  function WithLast(t: Tree, x: Tree): Tree
    requires t.kids != []
  {
    Tree(t.root, t.kids[..|t.kids| - 1] + [x])
  }

  /** The subtree at position i of the rightmost path. */
  function Sub(t: Tree, i: nat): Tree
    requires i < |Path(t)|
    decreases t
  {
    if i == 0 then t else Sub(Last(t), i - 1)
  }

  /** The tree without that subtree. */
  function CutOff(t: Tree, i: nat): Tree
    requires 0 < i < |Path(t)|
    decreases t
  {
    if i == 1 then Tree(t.root, t.kids[..|t.kids| - 1]) else WithLast(t, CutOff(Last(t), i - 1))
  }

  /** The tree with one more last child of the node at position i of the rightmost path. */
  function Graft(t: Tree, i: nat, x: Tree): Tree
    requires i < |Path(t)|
    decreases t
  {
    if i == 0 then Tree(t.root, t.kids + [x]) else WithLast(t, Graft(Last(t), i - 1, x))
  }

  lemma LeavesWithLast(t: Tree, x: Tree)
    requires t.kids != []
    ensures var front := Leaves(Tree(t.root, t.kids[..|t.kids| - 1]));
            Leaves(t) == front + Leaves(Last(t)) && Leaves(WithLast(t, x)) == front + Leaves(x)
  {
    var n := |t.kids| - 1;
    assert WithLast(t, x).kids[..n] == t.kids[..n];
  }

  lemma Assoc(a: seq<Node>, b: seq<Node>, c: seq<Node>)
    ensures (a + b) + c == a + (b + c)
  {
  }

  lemma LeavesAppend(t: Tree, x: Tree)
    ensures Leaves(Tree(t.root, t.kids + [x])) == Leaves(t) + Leaves(x)
  {
    assert (t.kids + [x])[..|t.kids|] == t.kids;
    Assoc(if t.root.kind == Element || t.root.kind == Document then [] else [t.root], LeavesAll(t.kids), Leaves(x));
  }

  /** What is cut off are the last leaves. */
  lemma {:induction false} LeavesCutOff(t: Tree, i: nat)
    requires 0 < i < |Path(t)|
    ensures Leaves(t) == Leaves(CutOff(t, i)) + Leaves(Sub(t, i))
    decreases t
  {
    if i == 1 {
      LeavesWithLast(t, t);
    } else {
      var c := CutOff(Last(t), i - 1);
      LeavesCutOff(Last(t), i - 1);
      LeavesWithLast(t, c);
      Assoc(Leaves(Tree(t.root, t.kids[..|t.kids| - 1])), Leaves(c), Leaves(Sub(Last(t), i - 1)));
    }
  }

  /** What is grafted becomes the last leaves. */
  lemma {:induction false} LeavesGraft(t: Tree, i: nat, x: Tree)
    requires i < |Path(t)|
    ensures Leaves(Graft(t, i, x)) == Leaves(t) + Leaves(x)
    decreases t
  {
    if i == 0 {
      LeavesAppend(t, x);
    } else {
      LeavesGraft(Last(t), i - 1, x);
      LeavesWithLast(t, Graft(Last(t), i - 1, x));
      Assoc(Leaves(Tree(t.root, t.kids[..|t.kids| - 1])), Leaves(Last(t)), Leaves(x));
    }
  }

  lemma {:induction false} PathSub(t: Tree, i: nat)
    requires i < |Path(t)|
    ensures Path(Sub(t, i)) == Path(t)[i..] && Sub(t, i).root == Path(t)[i]
    decreases t
  {
    if i > 0 {
      PathSub(Last(t), i - 1);
    }
  }

  /** Above the cut the rightmost path stays. */
  lemma {:induction false} PathCutOff(t: Tree, i: nat)
    requires 0 < i < |Path(t)|
    ensures |Path(CutOff(t, i))| >= i && Path(CutOff(t, i))[..i] == Path(t)[..i]
    decreases t
  {
    if i > 1 {
      var l := Last(t);
      PathCutOff(l, i - 1);
      var c := CutOff(l, i - 1);
      assert Last(WithLast(t, c)) == c;
      assert Path(WithLast(t, c)) == [t.root] + Path(c);
      assert Path(t)[..i] == [t.root] + Path(l)[..i - 1];
    }
  }

  /** From the graft on the rightmost path goes through the new subtree. */
  lemma {:induction false} PathGraft(t: Tree, i: nat, x: Tree)
    requires i < |Path(t)|
    ensures Path(Graft(t, i, x)) == Path(t)[..i + 1] + Path(x)
    decreases t
  {
    if i == 0 {
      assert Path(t)[..1] == [t.root];
    } else {
      var l := Last(t);
      PathGraft(l, i - 1, x);
      assert Last(WithLast(t, Graft(l, i - 1, x))) == Graft(l, i - 1, x);
      assert Path(t)[..i + 1] == [t.root] + Path(l)[..i];
    }
  }

  // ---------------------------------------------------------------------------------
  // Nodes
  // ---------------------------------------------------------------------------------

  lemma NodesWithLast(t: Tree, x: Tree)
    requires t.kids != []
    ensures var front := NodesAll(t.kids[..|t.kids| - 1]);
            Nodes(t) == {t.root} + front + Nodes(Last(t)) && Nodes(WithLast(t, x)) == {t.root} + front + Nodes(x)
  {
    assert WithLast(t, x).kids[..|t.kids| - 1] == t.kids[..|t.kids| - 1];
  }

  lemma PlainWithLast(t: Tree, x: Tree)
    requires t.kids != [] && Plain(t) && Plain(x)
    requires Nodes(x) !! {t.root} && Nodes(x) !! NodesAll(t.kids[..|t.kids| - 1])
    ensures Plain(WithLast(t, x))
  {
    assert WithLast(t, x).kids[..|t.kids| - 1] == t.kids[..|t.kids| - 1];
  }

  lemma {:induction false} PathInTree(t: Tree, i: nat)
    requires i < |Path(t)|
    ensures Path(t)[i] in Nodes(t)
    decreases t
  {
    if i > 0 {
      PathInTree(Last(t), i - 1);
      NodesWithLast(t, t);
    }
  }

  /** A cut splits the nodes in two. */
  lemma {:induction false} NodesCutOff(t: Tree, i: nat)
    requires 0 < i < |Path(t)| && Plain(t)
    ensures Nodes(t) == Nodes(CutOff(t, i)) + Nodes(Sub(t, i)) && Nodes(CutOff(t, i)) !! Nodes(Sub(t, i))
    ensures Plain(CutOff(t, i)) && Plain(Sub(t, i))
    decreases t
  {
    NodesWithLast(t, t);
    if i > 1 {
      var c := CutOff(Last(t), i - 1);
      NodesCutOff(Last(t), i - 1);
      NodesWithLast(t, c);
      PlainWithLast(t, c);
    }
  }

  lemma NodesAppend(t: Tree, x: Tree)
    requires Plain(t) && Plain(x) && Nodes(t) !! Nodes(x)
    ensures var g := Tree(t.root, t.kids + [x]); Nodes(g) == Nodes(t) + Nodes(x) && Plain(g)
  {
    assert (t.kids + [x])[..|t.kids|] == t.kids;
  }

  /** A graft joins the nodes. */
  lemma {:induction false} NodesGraft(t: Tree, i: nat, x: Tree)
    requires i < |Path(t)| && Plain(t) && Plain(x) && Nodes(t) !! Nodes(x)
    ensures Nodes(Graft(t, i, x)) == Nodes(t) + Nodes(x) && Plain(Graft(t, i, x))
    decreases t
  {
    if i == 0 {
      NodesAppend(t, x);
    } else {
      var g := Graft(Last(t), i - 1, x);
      NodesWithLast(t, g);
      NodesGraft(Last(t), i - 1, x);
      PlainWithLast(t, g);
    }
  }

  // ---------------------------------------------------------------------------------
  // Shapes
  // ---------------------------------------------------------------------------------

  /** Two maps give the same children to some nodes. */
  ghost predicate Agree(k: map<Node, seq<Node>>, l: map<Node, seq<Node>>, ns: set<Node>) {
    forall n :: n in ns ==> n in l && (n in k ==> l[n] == k[n])
  }

  /** Only the children of the nodes of a tree matter for its shape. */
  lemma {:induction false} ShapeFrame(k: map<Node, seq<Node>>, l: map<Node, seq<Node>>, t: Tree)
    requires Shape(k, t) && Agree(k, l, Nodes(t))
    ensures Shape(l, t)
    decreases t, 0
  {
    ShapeFrameAll(k, l, t.kids);
  }

  lemma {:induction false} ShapeFrameAll(k: map<Node, seq<Node>>, l: map<Node, seq<Node>>, ts: seq<Tree>)
    requires ShapeAll(k, ts) && Agree(k, l, NodesAll(ts))
    ensures ShapeAll(l, ts)
    decreases ts, 1
  {
    if ts != [] {
      ShapeFrameAll(k, l, ts[..|ts| - 1]);
      ShapeFrame(k, l, ts[|ts| - 1]);
    }
  }

  lemma {:induction false} ShapeInMap(k: map<Node, seq<Node>>, t: Tree)
    requires Shape(k, t)
    ensures Nodes(t) <= k.Keys
    decreases t, 0
  {
    ShapeInMapAll(k, t.kids);
  }

  lemma {:induction false} ShapeInMapAll(k: map<Node, seq<Node>>, ts: seq<Tree>)
    requires ShapeAll(k, ts)
    ensures NodesAll(ts) <= k.Keys
    decreases ts, 1
  {
    if ts != [] {
      ShapeInMapAll(k, ts[..|ts| - 1]);
      ShapeInMap(k, ts[|ts| - 1]);
    }
  }

  /** Another last child with the same root. */
  lemma ShapeWithLast(k: map<Node, seq<Node>>, l: map<Node, seq<Node>>, t: Tree, x: Tree)
    requires t.kids != [] && Shape(k, t) && Shape(l, x) && x.root == Last(t).root
    requires t.root in l && l[t.root] == k[t.root]
    requires Agree(k, l, NodesAll(t.kids[..|t.kids| - 1]))
    ensures Shape(l, WithLast(t, x))
  {
    var front := t.kids[..|t.kids| - 1];
    ShapeFrameAll(k, l, front);
    assert WithLast(t, x).kids[..|front|] == front;
    assert Roots(WithLast(t, x).kids) == Roots(t.kids);
  }

  /** The parts of a tree with the node c in its last child. */
  lemma AgreeParts(k: map<Node, seq<Node>>, l: map<Node, seq<Node>>, t: Tree, c: Node)
    requires t.kids != [] && Plain(t) && c in Nodes(Last(t)) && Shape(k, t) && Agree(k, l, Nodes(t) - {c})
    ensures t.root in l && l[t.root] == k[t.root]
    ensures Agree(k, l, NodesAll(t.kids[..|t.kids| - 1])) && Agree(k, l, Nodes(Last(t)) - {c})
  {
    NodesWithLast(t, t);
  }

  /** Each node of the rightmost path is the last child of the one before. */
  lemma {:induction false} PathChild(k: map<Node, seq<Node>>, t: Tree, i: nat)
    requires 0 < i < |Path(t)| && Shape(k, t)
    ensures var p := Path(t)[i - 1]; p in k && k[p] != [] && k[p][|k[p]| - 1] == Path(t)[i]
    decreases t
  {
    if i > 1 {
      PathChild(k, Last(t), i - 1);
    }
  }

  lemma ShapeDropLast(k: map<Node, seq<Node>>, l: map<Node, seq<Node>>, t: Tree)
    requires t.kids != [] && Plain(t) && Shape(k, t)
    requires t.root in l && l[t.root] == k[t.root][..|k[t.root]| - 1] && Agree(k, l, Nodes(t) - {t.root})
    ensures Shape(l, Tree(t.root, t.kids[..|t.kids| - 1]))
  {
    var front := t.kids[..|t.kids| - 1];
    NodesWithLast(t, t);
    assert Roots(front) == Roots(t.kids)[..|front|];
    ShapeFrameAll(k, l, front);
  }

  lemma {:induction false} ShapeCutOff(k: map<Node, seq<Node>>, l: map<Node, seq<Node>>, t: Tree, i: nat)
    requires 0 < i < |Path(t)| && Plain(t) && Shape(k, t)
    requires var p := Path(t)[i - 1];
             p in k && k[p] != [] && p in l && l[p] == k[p][..|k[p]| - 1] && Agree(k, l, Nodes(t) - {p})
    ensures Shape(l, CutOff(t, i))
    decreases t
  {
    if i == 1 {
      ShapeDropLast(k, l, t);
    } else {
      PathInTree(Last(t), i - 2);
      AgreeParts(k, l, t, Path(t)[i - 1]);
      ShapeCutOff(k, l, Last(t), i - 1);
      ShapeWithLast(k, l, t, CutOff(Last(t), i - 1));
    }
  }

  lemma ShapeAppend(k: map<Node, seq<Node>>, l: map<Node, seq<Node>>, t: Tree, x: Tree)
    requires Shape(k, t) && Shape(l, x) && t.root in l && l[t.root] == k[t.root] + [x.root]
    requires Agree(k, l, NodesAll(t.kids))
    ensures Shape(l, Tree(t.root, t.kids + [x]))
  {
    ShapeFrameAll(k, l, t.kids);
    assert (t.kids + [x])[..|t.kids|] == t.kids;
  }

  lemma {:induction false} ShapeGraft(k: map<Node, seq<Node>>, l: map<Node, seq<Node>>, t: Tree, i: nat, x: Tree)
    requires i < |Path(t)| && Plain(t) && Shape(k, t) && Shape(l, x)
    requires var c := Path(t)[i]; Agree(k, l, Nodes(t) - {c}) && c in l && (c in k ==> l[c] == k[c] + [x.root])
    ensures Shape(l, Graft(t, i, x))
    decreases t
  {
    if i == 0 {
      assert Agree(k, l, NodesAll(t.kids));
      ShapeAppend(k, l, t, x);
    } else {
      PathInTree(Last(t), i - 1);
      AgreeParts(k, l, t, Path(t)[i]);
      ShapeGraft(k, l, Last(t), i - 1, x);
      ShapeWithLast(k, l, t, Graft(Last(t), i - 1, x));
    }
  }

  lemma {:induction false} ShapeSub(k: map<Node, seq<Node>>, t: Tree, i: nat)
    requires i < |Path(t)| && Shape(k, t)
    ensures Shape(k, Sub(t, i))
    decreases t
  {
    if i > 0 {
      ShapeSub(k, Last(t), i - 1);
    }
  }
}
