/**
  A round of the adoption agency on a tree. When the open elements lie in order on the
  rightmost path, a round loses no node, adds only clones, and keeps the leaves in their
  order; the open elements lie on the rightmost path again exactly when every element
  between F and B has been visited, which at most three are.
 */
module GumboOrder {
  import opened GumboTree
  import opened GumboActive
  import opened GumboAdoption
  import opened GumboRound
  import opened GumboLeaves

  // ---------------------------------------------------------------------------------
  // The chain of clones
  // ---------------------------------------------------------------------------------

  /** Each clone has the next one as its only child, the highest has B. */
  predicate Links(cs: seq<Node>, b: Node, k: map<Node, seq<Node>>) {
    cs == [] || (cs[0] in k && k[cs[0]] == [(cs[1..] + [b])[0]] && Links(cs[1..], b, k))
  }

  lemma {:induction false} LinksFrame(cs: seq<Node>, b: Node, k: map<Node, seq<Node>>, l: map<Node, seq<Node>>)
    requires Links(cs, b, k) && forall c :: c in cs && c in k ==> c in l && l[c] == k[c]
    ensures Links(cs, b, l)
  {
    if cs != [] {
      LinksFrame(cs[1..], b, k, l);
    }
  }

  /** The tree once the last node has been taken from where it was. */
  function Loose(kids: map<Node, seq<Node>>, made: seq<Node?>, b: Node, spot: Spot): map<Node, seq<Node>> {
    Loosened(KidsAfter(kids, made, b, spot), b, spot, LastNode(made, b))
  }

  /** Adding a clone to the chain adds one entry to the map. */
  lemma LooseStep(kids: map<Node, seq<Node>>, made: seq<Node?>, b: Node, spot: Spot)
    requires made != [] && made[0] != b
    ensures Loose(kids, made, b, spot) ==
            var k := Loose(kids, made[1..], b, spot);
            if made[0] == null then k else k[made[0] := [LastNode(made[1..], b)]]
  {
  }

  lemma {:induction false} LastIsHead(made: seq<Node?>, b: Node)
    ensures LastNode(made, b) == (Some(made) + [b])[0]
  {
    if made != [] {
      LastIsHead(made[1..], b);
    }
  }

  /** Every other node has the children it had, but for B being cut off. */
  lemma {:induction false} LooseOld(s: State, lo: nat, made: seq<Node?>, b: Node, spot: Spot, x: Node)
    requires MadeFor(s, lo, made) && b in s.kids && x in s.kids
    ensures x in Loose(s.kids, made, b, spot) && Loose(s.kids, made, b, spot)[x] == Cut(s.kids, spot)[x]
    decreases |made|
  {
    if made != [] {
      MadeAt(s, lo, made, 0);
      LooseStep(s.kids, made, b, spot);
      LooseOld(s, lo + 1, made[1..], b, spot, x);
    }
  }

  /** The clones form a chain down to B. */
  lemma {:induction false} LooseChain(s: State, lo: nat, made: seq<Node?>, b: Node, spot: Spot)
    requires MadeFor(s, lo, made) && b in s.kids
    ensures Links(Some(made), b, Loose(s.kids, made, b, spot))
    decreases |made|
  {
    if made != [] {
      MadeAt(s, lo, made, 0);
      LooseStep(s.kids, made, b, spot);
      LooseChain(s, lo + 1, made[1..], b, spot);
      if made[0] != null {
        var k := Loose(s.kids, made[1..], b, spot);
        SomeMembers(made[1..], made[0]);
        LinksFrame(Some(made[1..]), b, k, k[made[0] := [LastNode(made[1..], b)]]);
        LastIsHead(made[1..], b);
        assert Some(made)[1..] == Some(made[1..]);
      } else {
        assert Some(made) == Some(made[1..]);
      }
    }
  }

  /** A chain of nodes above a tree. */
  function Wrap(cs: seq<Node>, x: Tree): Tree {
    if cs == [] then x else Tree(cs[0], [Wrap(cs[1..], x)])
  }

  lemma {:induction false} WrapIs(cs: seq<Node>, x: Tree)
    requires forall c :: c in cs ==> c.kind == Element
    ensures Wrap(cs, x).root == (cs + [x.root])[0]
    ensures Leaves(Wrap(cs, x)) == Leaves(x)
    ensures Path(Wrap(cs, x)) == cs + Path(x)
  {
    if cs != [] {
      var y := Wrap(cs[1..], x);
      WrapIs(cs[1..], x);
      assert [y][..0] == [] && LeavesAll([y]) == LeavesAll([]) + Leaves(y) == Leaves(y);
      assert cs == [cs[0]] + cs[1..];
    }
  }

  lemma {:induction false} WrapNodes(cs: seq<Node>, x: Tree)
    requires Distinct(cs) && Plain(x) && forall c :: c in cs ==> c !in Nodes(x)
    ensures Nodes(Wrap(cs, x)) == Members(cs) + Nodes(x) && Plain(Wrap(cs, x))
  {
    if cs != [] {
      var y := Wrap(cs[1..], x);
      WrapNodes(cs[1..], x);
      assert [y][..0] == [] && NodesAll([y]) == NodesAll([]) + Nodes(y);
      assert cs == [cs[0]] + cs[1..];
      assert Members(cs) == {cs[0]} + Members(cs[1..]);
      assert cs[0] !in Members(cs[1..]);
    }
  }

  lemma {:induction false} WrapShape(k: map<Node, seq<Node>>, cs: seq<Node>, x: Tree)
    requires Links(cs, x.root, k) && Shape(k, x)
    ensures Shape(k, Wrap(cs, x)) && Wrap(cs, x).root == (cs + [x.root])[0]
  {
    if cs != [] {
      var y := Wrap(cs[1..], x);
      WrapShape(k, cs[1..], x);
      assert [y][..0] == [];
    }
  }

  // ---------------------------------------------------------------------------------
  // The furthest block
  // ---------------------------------------------------------------------------------

  /** B with the clone of F between it and its children. */
  function Block(sub: Tree, nf: Node): Tree {
    Tree(sub.root, [Tree(nf, sub.kids)])
  }

  lemma BlockLeaves(sub: Tree, nf: Node)
    requires sub.root.kind == Element && nf.kind == Element
    ensures Leaves(Block(sub, nf)) == Leaves(sub)
  {
    var inner := Tree(nf, sub.kids);
    assert [inner][..0] == [] && LeavesAll([inner]) == LeavesAll([]) + Leaves(inner) == Leaves(inner);
  }

  lemma BlockPath(sub: Tree, nf: Node)
    ensures Path(Block(sub, nf)) == [sub.root, nf] + Path(sub)[1..]
  {
    var inner := Tree(nf, sub.kids);
    assert Path(inner)[1..] == Path(sub)[1..];
    assert Path(inner) == [nf] + Path(sub)[1..];
  }

  lemma BlockNodes(sub: Tree, nf: Node)
    requires Plain(sub) && nf !in Nodes(sub)
    ensures Nodes(Block(sub, nf)) == Nodes(sub) + {nf} && Plain(Block(sub, nf))
  {
    var inner := Tree(nf, sub.kids);
    assert [inner][..0] == [] && NodesAll([inner]) == NodesAll([]) + Nodes(inner);
  }

  lemma BlockShape(k: map<Node, seq<Node>>, l: map<Node, seq<Node>>, sub: Tree, nf: Node)
    requires Shape(k, sub) && Agree(k, l, NodesAll(sub.kids))
    requires sub.root in l && l[sub.root] == [nf] && nf in l && l[nf] == k[sub.root]
    ensures Shape(l, Block(sub, nf))
  {
    var inner := Tree(nf, sub.kids);
    ShapeFrameAll(k, l, sub.kids);
    assert [inner][..0] == [] && Roots([inner]) == [nf];
  }

  // ---------------------------------------------------------------------------------
  // The tree after a round
  // ---------------------------------------------------------------------------------

  /** The sequence lies in order on a path, at these positions. */
  predicate LiesAt(open: seq<Node>, path: seq<Node>, pos: seq<nat>) {
    && |pos| == |open| && (forall i :: 0 <= i < |pos| ==> pos[i] < |path| && path[pos[i]] == open[i])
    && forall i, j :: 0 <= i < j < |pos| ==> pos[i] < pos[j]
  }

  /** The state is a tree, none of it twice, with the open elements in order on its rightmost path. */
  ghost predicate OnTree(s: State, tree: Tree, pos: seq<nat>) {
    Proper(s) && Shape(s.kids, tree) && Plain(tree) && LiesAt(s.open, Path(tree), pos)
  }

  /** B is cut off, gets the clone of F, is wrapped in the clones, and hangs from the common ancestor. */
  function RoundTree(tree: Tree, c: nat, b: nat, t: Trace): Tree
    requires c < b < |Path(tree)|
  {
    PathCutOff(tree, b);
    Graft(CutOff(tree, b), c, Wrap(Some(t.made), Block(Sub(tree, b), t.nf)))
  }

  lemma {:induction false} ClonesAreElements(s: State, lo: nat, made: seq<Node?>, c: Node)
    requires MadeFor(s, lo, made) && c in Some(made) && forall i :: 0 <= i < |s.open| ==> s.open[i].kind == Element
    ensures c.kind == Element && c !in s.kids
    decreases |made|
  {
    if c == made[0] {
      MadeAt(s, lo, made, 0);
    } else {
      ClonesAreElements(s, lo + 1, made[1..], c);
    }
  }

  /** The rightmost path after a round, from the one before. */
  function RoundPath(path: seq<Node>, c: nat, b: nat, block: Node, t: Trace): seq<Node>
    requires c < b < |path|
  {
    path[..c + 1] + (Some(t.made) + ([block, t.nf] + path[b + 1..]))
  }

  /** The subtree of B in its chain of clones. */
  lemma WrappedIs(s: State, fi: nat, bi: nat, t: Trace, tree: Tree, b: nat)
    requires Fits(s, fi, bi, t) && forall i :: 0 <= i < |s.open| ==> s.open[i].kind == Element
    requires b < |Path(tree)| && Path(tree)[b] == s.open[bi]
    ensures var x := Wrap(Some(t.made), Block(Sub(tree, b), t.nf));
            && Leaves(x) == Leaves(Sub(tree, b))
            && Path(x) == Some(t.made) + ([s.open[bi], t.nf] + Path(tree)[b + 1..])
  {
    var sub := Sub(tree, b);
    PathSub(tree, b);
    BlockLeaves(sub, t.nf);
    BlockPath(sub, t.nf);
    assert Path(sub)[1..] == Path(tree)[b + 1..];
    forall x | x in Some(t.made)
      ensures x.kind == Element
    {
      ClonesAreElements(s, t.lo, t.made, x);
    }
    WrapIs(Some(t.made), Block(sub, t.nf));
  }

  /** The leaves stay in their order. */
  lemma RoundLeaves(s: State, fi: nat, bi: nat, t: Trace, tree: Tree, c: nat, b: nat)
    requires Fits(s, fi, bi, t) && forall i :: 0 <= i < |s.open| ==> s.open[i].kind == Element
    requires c < b < |Path(tree)| && Path(tree)[b] == s.open[bi]
    ensures Leaves(RoundTree(tree, c, b, t)) == Leaves(tree)
  {
    WrappedIs(s, fi, bi, t, tree, b);
    PathCutOff(tree, b);
    LeavesCutOff(tree, b);
    LeavesGraft(CutOff(tree, b), c, Wrap(Some(t.made), Block(Sub(tree, b), t.nf)));
  }

  /** Something else in place of what was cut off, further up. */
  lemma PathRegraft(tree: Tree, c: nat, b: nat, x: Tree)
    requires c < b < |Path(tree)|
    ensures c < |Path(CutOff(tree, b))| && Path(Graft(CutOff(tree, b), c, x)) == Path(tree)[..c + 1] + Path(x)
  {
    var d := CutOff(tree, b);
    PathCutOff(tree, b);
    PathGraft(d, c, x);
    SamePrefix(Path(d), Path(tree), b, c + 1);
  }

  /** The rightmost path goes through the clones. */
  lemma RoundTreePath(s: State, fi: nat, bi: nat, t: Trace, tree: Tree, c: nat, b: nat)
    requires Fits(s, fi, bi, t) && forall i :: 0 <= i < |s.open| ==> s.open[i].kind == Element
    requires c < b < |Path(tree)| && Path(tree)[b] == s.open[bi]
    ensures Path(RoundTree(tree, c, b, t)) == RoundPath(Path(tree), c, b, s.open[bi], t)
  {
    WrappedIs(s, fi, bi, t, tree, b);
    PathRegraft(tree, c, b, Wrap(Some(t.made), Block(Sub(tree, b), t.nf)));
  }

  lemma SamePrefix(p: seq<Node>, q: seq<Node>, i: nat, j: nat)
    requires j <= i <= |p| && i <= |q| && p[..i] == q[..i]
    ensures p[..j] == q[..j]
  {
    assert p[..j] == p[..i][..j] && q[..j] == q[..i][..j];
  }

  /** The clones, seen from a tree of the state. */
  lemma ClonesApart(s: State, fi: nat, bi: nat, t: Trace, tree: Tree)
    requires Fits(s, fi, bi, t) && Shape(s.kids, tree) && forall i :: 0 <= i < |s.open| ==> s.open[i].kind == Element
    ensures Distinct(Some(t.made)) && Members(Some(t.made)) !! s.kids.Keys && t.nf !in Some(t.made)
    ensures Nodes(tree) <= s.kids.Keys
  {
    ClonesDistinct(s, t.lo, t.made);
    SomeMembers(t.made, t.nf);
    ShapeInMap(s.kids, tree);
    forall x | x in Some(t.made)
      ensures x !in s.kids
    {
      ClonesAreElements(s, t.lo, t.made, x);
    }
  }

  /** The nodes of B's subtree in its chain of clones. */
  lemma WrappedNodes(sub: Tree, cs: seq<Node>, nf: Node, keys: set<Node>)
    requires Plain(sub) && Nodes(sub) <= keys && nf !in keys && Distinct(cs) && Members(cs) !! keys && nf !in cs
    ensures var x := Wrap(cs, Block(sub, nf)); Plain(x) && Nodes(x) == Nodes(sub) + Members(cs) + {nf}
  {
    BlockNodes(sub, nf);
    assert forall x :: x in cs ==> x in Members(cs);
    WrapNodes(cs, Block(sub, nf));
  }

  /** No node is lost and only clones are new. */
  lemma RoundNodes(s: State, fi: nat, bi: nat, t: Trace, tree: Tree, c: nat, b: nat)
    requires Fits(s, fi, bi, t) && Shape(s.kids, tree) && Plain(tree) && c < b < |Path(tree)|
    requires forall i :: 0 <= i < |s.open| ==> s.open[i].kind == Element
    ensures Plain(RoundTree(tree, c, b, t))
    ensures Nodes(RoundTree(tree, c, b, t)) == Nodes(tree) + Members(Some(t.made)) + {t.nf}
  {
    var d, sub, cs := CutOff(tree, b), Sub(tree, b), Some(t.made);
    ClonesApart(s, fi, bi, t, tree);
    NodesCutOff(tree, b);
    WrappedNodes(sub, cs, t.nf, s.kids.Keys);
    PathCutOff(tree, b);
    NodesTogether(Nodes(d), Nodes(sub), Members(cs), t.nf, s.kids.Keys);
    NodesGraft(d, c, Wrap(cs, Block(sub, t.nf)));
  }

  lemma NodesTogether(d: set<Node>, sub: set<Node>, cs: set<Node>, nf: Node, keys: set<Node>)
    requires d + sub <= keys && d !! sub && cs !! keys && nf !in keys
    ensures d !! sub + cs + {nf} && d + (sub + cs + {nf}) == d + sub + cs + {nf}
  {
  }

  /** The children of each node after a round. */
  lemma RoundKids(s: State, fi: nat, bi: nat, t: Trace, x: Node)
    requires Proper(s) && Fits(s, fi, bi, t) && x in s.kids
    ensures var b, ancestor, kids := s.open[bi], s.open[fi - 1], Round(s, fi, bi, t).kids;
            && x in kids && t.nf in kids && kids[t.nf] == Cut(s.kids, t.spot)[b]
            && kids[x] == (if x == b then [t.nf]
                           else Cut(s.kids, t.spot)[x] + if x == ancestor then [LastNode(t.made, b)] else [])
  {
    var b, ancestor := s.open[bi], s.open[fi - 1];
    LooseOld(s, t.lo, t.made, b, t.spot, x);
    LooseOld(s, t.lo, t.made, b, t.spot, b);
    LooseOld(s, t.lo, t.made, b, t.spot, ancestor);
  }

  lemma FinalOther(k: map<Node, seq<Node>>, ancestor: Node, last: Node, b: Node, nf: Node, c: Node)
    requires ancestor in k && b in k && c in k && c != ancestor && c != b && c != nf
    ensures var l := Adopt(k[ancestor := k[ancestor] + [last]], b, nf); c in l && l[c] == k[c]
  {
  }

  /** The clones stay a chain down to B. */
  lemma RoundChain(s: State, fi: nat, bi: nat, t: Trace)
    requires Proper(s) && Fits(s, fi, bi, t)
    ensures Links(Some(t.made), s.open[bi], Round(s, fi, bi, t).kids)
  {
    var b, ancestor, kids := s.open[bi], s.open[fi - 1], Round(s, fi, bi, t).kids;
    var k := Loose(s.kids, t.made, b, t.spot);
    LooseChain(s, t.lo, t.made, b, t.spot);
    LooseOld(s, t.lo, t.made, b, t.spot, ancestor);
    LooseOld(s, t.lo, t.made, b, t.spot, b);
    forall c | c in Some(t.made) && c in k
      ensures c in kids && kids[c] == k[c]
    {
      SomeMembers(t.made, c);
      MadeAreNew(s, t.lo, t.made, ancestor);
      MadeAreNew(s, t.lo, t.made, b);
      FinalOther(k, ancestor, LastNode(t.made, b), b, t.nf, c);
    }
    LinksFrame(Some(t.made), b, k, kids);
  }

  /** B is the last child of the node before it on the rightmost path. */
  ghost predicate AtEnd(s: State, tree: Tree, b: nat, spot: Spot) {
    0 < b < |Path(tree)| && spot.p == Path(tree)[b - 1] && spot.p in s.kids && spot.at == |s.kids[spot.p]| - 1
  }

  /** What is cut off B's parent. */
  lemma CutLast(kids: map<Node, seq<Node>>, spot: Spot, x: Node)
    requires spot.p in kids && spot.at == |kids[spot.p]| - 1 && x in kids
    ensures x in Cut(kids, spot)
    ensures Cut(kids, spot)[x] == if x == spot.p then kids[x][..|kids[x]| - 1] else kids[x]
  {
  }

  /** The part above the cut has the shape of the map without B. */
  lemma CutShape(s: State, tree: Tree, b: nat, spot: Spot)
    requires Shape(s.kids, tree) && Plain(tree) && AtEnd(s, tree, b, spot)
    ensures Shape(Cut(s.kids, spot), CutOff(tree, b))
  {
    PathChild(s.kids, tree, b);
    ShapeInMap(s.kids, tree);
    forall x | x in Nodes(tree)
      ensures x in s.kids && x in Cut(s.kids, spot)
      ensures Cut(s.kids, spot)[x] == if x == spot.p then s.kids[x][..|s.kids[x]| - 1] else s.kids[x]
    {
      CutLast(s.kids, spot, x);
    }
    PathInTree(tree, b - 1);
    ShapeCutOff(s.kids, Cut(s.kids, spot), tree, b);
  }

  /** Where the nodes that change are. */
  lemma Sides(tree: Tree, c: nat, b: nat)
    requires Plain(tree) && c < b < |Path(tree)|
    ensures var d, sub, path := CutOff(tree, b), Sub(tree, b), Path(tree);
            && c < |Path(d)| && Path(d)[c] == path[c]
            && path[c] in Nodes(d) && path[b - 1] in Nodes(d) && path[b] == sub.root
            && Nodes(d) !! Nodes(sub) && Nodes(tree) == Nodes(d) + Nodes(sub) && Plain(d) && Plain(sub)
  {
    var d := CutOff(tree, b);
    PathSub(tree, b);
    NodesCutOff(tree, b);
    PathCutOff(tree, b);
    assert Path(d)[..b][c] == Path(tree)[..b][c] && Path(d)[..b][b - 1] == Path(tree)[..b][b - 1];
    PathInTree(d, c);
    PathInTree(d, b - 1);
  }

  /** B's subtree, with the clone of F in it, has the shape of the map after a round. */
  lemma RoundBlock(s: State, fi: nat, bi: nat, t: Trace, tree: Tree, c: nat, b: nat)
    requires Proper(s) && Fits(s, fi, bi, t) && Shape(s.kids, tree) && Plain(tree) && AtEnd(s, tree, b, t.spot)
    requires c < b && Path(tree)[c] == s.open[fi - 1] && Path(tree)[b] == s.open[bi]
    ensures Shape(Round(s, fi, bi, t).kids, Block(Sub(tree, b), t.nf))
  {
    var sub, kids := Sub(tree, b), Round(s, fi, bi, t).kids;
    Sides(tree, c, b);
    ShapeSub(s.kids, tree, b);
    ShapeInMap(s.kids, sub);
    forall x | x in Nodes(sub)
      ensures x in kids && (x != sub.root ==> kids[x] == s.kids[x])
    {
      RoundKids(s, fi, bi, t, x);
      CutLast(s.kids, t.spot, x);
    }
    RoundKids(s, fi, bi, t, sub.root);
    CutLast(s.kids, t.spot, sub.root);
    BlockShape(s.kids, kids, sub, t.nf);
  }

  /** The map after a round has the shape of the tree after it. */
  lemma RoundShape(s: State, fi: nat, bi: nat, t: Trace, tree: Tree, c: nat, b: nat)
    requires Proper(s) && Fits(s, fi, bi, t) && Shape(s.kids, tree) && Plain(tree) && AtEnd(s, tree, b, t.spot)
    requires c < b && Path(tree)[c] == s.open[fi - 1] && Path(tree)[b] == s.open[bi]
    ensures Shape(Round(s, fi, bi, t).kids, RoundTree(tree, c, b, t))
  {
    var d, cs, block := CutOff(tree, b), Some(t.made), Block(Sub(tree, b), t.nf);
    var k, kids := Cut(s.kids, t.spot), Round(s, fi, bi, t).kids;
    RoundBlock(s, fi, bi, t, tree, c, b);
    RoundChain(s, fi, bi, t);
    Sides(tree, c, b);
    WrapShape(kids, cs, block);
    LastIsHead(t.made, s.open[bi]);
    CutShape(s, tree, b, t.spot);
    RoundAbove(s, fi, bi, t, tree, c, b);
    ShapeGraft(k, kids, d, c, Wrap(cs, block));
  }

  /** Above the cut only the common ancestor gets a child. */
  lemma RoundAbove(s: State, fi: nat, bi: nat, t: Trace, tree: Tree, c: nat, b: nat)
    requires Proper(s) && Fits(s, fi, bi, t) && Shape(s.kids, tree) && Plain(tree)
    requires c < b < |Path(tree)| && Path(tree)[c] == s.open[fi - 1] && Path(tree)[b] == s.open[bi]
    ensures var k, kids, p := Cut(s.kids, t.spot), Round(s, fi, bi, t).kids, s.open[fi - 1];
            && Agree(k, kids, Nodes(CutOff(tree, b)) - {p}) && p in kids
            && (p in k ==> kids[p] == k[p] + [LastNode(t.made, s.open[bi])])
  {
    var k, kids := Cut(s.kids, t.spot), Round(s, fi, bi, t).kids;
    Sides(tree, c, b);
    ShapeInMap(s.kids, tree);
    forall x | x in Nodes(CutOff(tree, b))
      ensures x in kids
      ensures x in k ==> kids[x] == k[x] + if x == s.open[fi - 1] then [LastNode(t.made, s.open[bi])] else []
    {
      RoundKids(s, fi, bi, t, x);
    }
  }

  /**
    A round on a tree with the open elements on its rightmost path: the map afterwards is again
    a tree, with every node of the old one, the clones and nothing else, and the leaves are the
    same in the same order.
   */
  lemma RoundKeepsOrder(s: State, fi: nat, bi: nat, t: Trace, tree: Tree, pos: seq<nat>)
    requires OnTree(s, tree, pos) && Fits(s, fi, bi, t) && AtEnd(s, tree, pos[bi], t.spot)
    requires forall i :: 0 <= i < |s.open| ==> s.open[i].kind == Element
    ensures var r := RoundTree(tree, pos[fi - 1], pos[bi], t);
            && Shape(Round(s, fi, bi, t).kids, r) && Plain(r)
            && Nodes(r) == Nodes(tree) + Members(Some(t.made)) + {t.nf}
            && Leaves(r) == Leaves(tree)
  {
    RoundShape(s, fi, bi, t, tree, pos[fi - 1], pos[bi]);
    RoundNodes(s, fi, bi, t, tree, pos[fi - 1], pos[bi]);
    RoundLeaves(s, fi, bi, t, tree, pos[fi - 1], pos[bi]);
  }

  // ---------------------------------------------------------------------------------
  // The rightmost path after a round
  // ---------------------------------------------------------------------------------

  ghost predicate Lies(open: seq<Node>, path: seq<Node>) {
    exists pos: seq<nat> :: LiesAt(open, path, pos)
  }

  lemma LiesWhole(path: seq<Node>)
    ensures Lies(path, path)
  {
    var pos := seq(|path|, i requires 0 <= i < |path| => i);
    assert LiesAt(path, path, pos);
  }

  lemma LiesJoin(a: seq<Node>, p: seq<Node>, b: seq<Node>, q: seq<Node>)
    requires Lies(a, p) && Lies(b, q)
    ensures Lies(a + b, p + q)
  {
    var m: seq<nat> :| LiesAt(a, p, m);
    var n: seq<nat> :| LiesAt(b, q, n);
    var shifted := seq(|n|, i requires 0 <= i < |n| => n[i] + |p|);
    assert LiesAt(a + b, p + q, m + shifted);
  }

  lemma LiesBelow(open: seq<Node>, path: seq<Node>, pos: seq<nat>, i: nat)
    requires LiesAt(open, path, pos) && 0 < i <= |open|
    ensures Lies(open[..i], path[..pos[i - 1] + 1])
  {
    assert LiesAt(open[..i], path[..pos[i - 1] + 1], pos[..i]);
  }

  lemma LiesAbove(open: seq<Node>, path: seq<Node>, pos: seq<nat>, i: nat)
    requires LiesAt(open, path, pos) && i < |open|
    ensures Lies(open[i + 1..], path[pos[i] + 1..])
  {
    var above := pos[i + 1..];
    var shifted := seq(|above|, j requires 0 <= j < |above| => above[j] - (pos[i] + 1));
    assert LiesAt(open[i + 1..], path[pos[i] + 1..], shifted);
  }

  lemma {:induction false} PathDistinct(t: Tree)
    requires Plain(t)
    ensures Distinct(Path(t))
    decreases t
  {
    if t.kids != [] {
      PathDistinct(Last(t));
      NodesWithLast(t, t);
      forall i | 0 <= i < |Path(Last(t))|
        ensures Path(Last(t))[i] != t.root
      {
        PathInTree(Last(t), i);
      }
    }
  }

  /** An element between the ancestor and B on the old path is on the new one no more. */
  lemma LeftBehind(s: State, fi: nat, bi: nat, t: Trace, path: seq<Node>, pos: seq<nat>, k: nat)
    requires Proper(s) && Fits(s, fi, bi, t) && Distinct(path) && LiesAt(s.open, path, pos) && fi <= k < bi
    ensures s.open[k] !in path[..pos[fi - 1] + 1] + (Some(t.made) + ([s.open[bi], t.nf] + path[pos[bi] + 1..]))
  {
    var x := s.open[k];
    MadeAreNew(s, t.lo, t.made, x);
    SomeMembers(t.made, x);
    assert x == path[pos[k]] && pos[fi - 1] < pos[k] < pos[bi];
    assert x !in path[..pos[fi - 1] + 1] && x !in path[pos[bi] + 1..];
  }

  /** With nothing left between F and B the stack is the old one below F, the clones, B, F's clone and the rest. */
  lemma StackParts(open: seq<Node>, fi: nat, bi: nat, t: Trace)
    requires t.lo == fi + 1 <= bi < |open|
    ensures RoundStack(open, fi, bi, t) == open[..fi] + (Some(t.made) + ([open[bi], t.nf] + open[bi + 1..]))
  {
    assert open[fi + 1..t.lo] == [];
    JoinRight(open[..fi], Some(t.made), [open[bi], t.nf], open[bi + 1..]);
  }

  lemma JoinRight(a: seq<Node>, b: seq<Node>, c: seq<Node>, d: seq<Node>)
    ensures a + ([] + b) + c + d == a + (b + (c + d))
  {
    assert [] + b == b;
  }

  lemma LiesAgain(open: seq<Node>, path: seq<Node>, pos: seq<nat>, fi: nat, bi: nat, t: Trace)
    requires LiesAt(open, path, pos) && 0 < fi && t.lo == fi + 1 <= bi < |open|
    ensures Lies(RoundStack(open, fi, bi, t), RoundPath(path, pos[fi - 1], pos[bi], open[bi], t))
  {
    var cs, c, b, mid := Some(t.made), pos[fi - 1], pos[bi], [open[bi], t.nf];
    StackParts(open, fi, bi, t);
    LiesAbove(open, path, pos, bi);
    LiesWhole(mid);
    LiesJoin(mid, mid, open[bi + 1..], path[b + 1..]);
    LiesWhole(cs);
    LiesJoin(cs, cs, mid + open[bi + 1..], mid + path[b + 1..]);
    LiesBelow(open, path, pos, fi);
    LiesJoin(open[..fi], path[..c + 1], cs + (mid + open[bi + 1..]), cs + (mid + path[b + 1..]));
  }

  lemma NotOnPath(open: seq<Node>, path: seq<Node>, i: nat)
    requires i < |open| && open[i] !in path
    ensures !Lies(open, path)
  {
  }

  lemma LiesNoMore(s: State, path: seq<Node>, pos: seq<nat>, fi: nat, bi: nat, t: Trace)
    requires Proper(s) && Fits(s, fi, bi, t) && Distinct(path) && LiesAt(s.open, path, pos) && t.lo > fi + 1
    ensures !Lies(RoundStack(s.open, fi, bi, t), RoundPath(path, pos[fi - 1], pos[bi], s.open[bi], t))
  {
    LeftBehind(s, fi, bi, t, path, pos, fi + 1);
    assert s.open[fi + 1..t.lo][0] == s.open[fi + 1];
    NotOnPath(RoundStack(s.open, fi, bi, t), RoundPath(path, pos[fi - 1], pos[bi], s.open[bi], t), fi);
  }

  lemma LiesExactly(s: State, path: seq<Node>, pos: seq<nat>, fi: nat, bi: nat, t: Trace)
    requires Proper(s) && Fits(s, fi, bi, t) && Distinct(path) && LiesAt(s.open, path, pos)
    ensures Lies(RoundStack(s.open, fi, bi, t), RoundPath(path, pos[fi - 1], pos[bi], s.open[bi], t)) <==>
            t.lo == fi + 1
  {
    if t.lo == fi + 1 {
      LiesAgain(s.open, path, pos, fi, bi, t);
    } else {
      LiesNoMore(s, path, pos, fi, bi, t);
    }
  }

  /**
    The open elements lie on the rightmost path again exactly when B is at most four positions
    above F, so that every element between them is visited.
   */
  lemma RoundOnPath(s: State, fi: nat, bi: nat, t: Trace, tree: Tree, pos: seq<nat>)
    requires OnTree(s, tree, pos) && Fits(s, fi, bi, t)
    requires forall i :: 0 <= i < |s.open| ==> s.open[i].kind == Element
    ensures Lies(Round(s, fi, bi, t).open, Path(RoundTree(tree, pos[fi - 1], pos[bi], t))) <==> bi - fi <= 4
  {
    RoundOpen(s, fi, bi, t);
    RoundTreePath(s, fi, bi, t, tree, pos[fi - 1], pos[bi]);
    PathDistinct(tree);
    LiesExactly(s, Path(tree), pos, fi, bi, t);
  }
}
