/**
  A fostered round of the adoption agency on a tree. With the topmost table open below B, B
  leaves its place and goes, in its chain of clones, in front of that table: no node is lost,
  only clones are new, and B's leaves come right before those of the table. A round that pushes
  puts B at the end of an open element, and the leaves stay in their order.
 */
module GumboFosterTree {
  import opened GumboTags
  import opened GumboTree
  import opened GumboStack
  import opened GumboActive
  import opened GumboParser
  import opened GumboAdoption
  import opened GumboRound
  import opened GumboLeaves
  import opened GumboOrder
  import opened GumboReady
  import opened GumboFoster
  import opened GumboOutcome
  import opened GumboTreeRuns

  // ---------------------------------------------------------------------------------
  // In front of the last child
  // ---------------------------------------------------------------------------------

  /** The tree with x right before the last child of the node at position i of the rightmost path. */
  function GraftBefore(t: Tree, i: nat, x: Tree): Tree
    requires i + 1 < |Path(t)|
    decreases t
  {
    if i == 0 then Tree(t.root, t.kids[..|t.kids| - 1] + [x] + [Last(t)])
    else WithLast(t, GraftBefore(Last(t), i - 1, x))
  }

  lemma {:induction false} LeavesBefore(t: Tree, i: nat, x: Tree)
    requires i + 1 < |Path(t)|
    ensures Leaves(GraftBefore(t, i, x)) == Leaves(CutOff(t, i + 1)) + Leaves(x) + Leaves(Sub(t, i + 1))
    decreases t
  {
    if i == 0 {
      var front := Tree(t.root, t.kids[..|t.kids| - 1]);
      LeavesAppend(front, x);
      LeavesAppend(Tree(t.root, front.kids + [x]), Last(t));
    } else {
      var l := Last(t);
      var c, g := CutOff(l, i), GraftBefore(l, i - 1, x);
      var front := Leaves(Tree(t.root, t.kids[..|t.kids| - 1]));
      LeavesBefore(l, i - 1, x);
      LeavesWithLast(t, c);
      LeavesWithLast(t, g);
      Assoc(front, Leaves(c) + Leaves(x), Leaves(Sub(l, i)));
      Assoc(front, Leaves(c), Leaves(x));
    }
  }

  lemma NodesBeforeLast(t: Tree, x: Tree)
    requires t.kids != [] && Plain(t) && Plain(x) && Nodes(t) !! Nodes(x)
    ensures var g := Tree(t.root, t.kids[..|t.kids| - 1] + [x] + [Last(t)]); Nodes(g) == Nodes(t) + Nodes(x) && Plain(g)
  {
    var front := Tree(t.root, t.kids[..|t.kids| - 1]);
    NodesWithLast(t, t);
    NodesAppend(front, x);
    NodesAppend(Tree(t.root, front.kids + [x]), Last(t));
  }

  lemma {:induction false} NodesBefore(t: Tree, i: nat, x: Tree)
    requires i + 1 < |Path(t)| && Plain(t) && Plain(x) && Nodes(t) !! Nodes(x)
    ensures Nodes(GraftBefore(t, i, x)) == Nodes(t) + Nodes(x) && Plain(GraftBefore(t, i, x))
    decreases t
  {
    if i == 0 {
      NodesBeforeLast(t, x);
    } else {
      var g := GraftBefore(Last(t), i - 1, x);
      NodesWithLast(t, g);
      NodesBefore(Last(t), i - 1, x);
      PlainWithLast(t, g);
    }
  }

  lemma RootsBefore(ts: seq<Tree>, x: Tree)
    requires ts != []
    ensures var n := |ts| - 1; Roots(ts[..n] + [x] + [ts[n]]) == Roots(ts)[..n] + [x.root] + [Roots(ts)[n]]
  {
    var n := |ts| - 1;
    assert (ts[..n] + [x] + [ts[n]])[..n + 1] == ts[..n] + [x] && (ts[..n] + [x])[..n] == ts[..n];
  }

  /** One more child right before the last. */
  ghost predicate GainsBefore(k: map<Node, seq<Node>>, l: map<Node, seq<Node>>, c: Node, x: Node) {
    c in k && c in l && k[c] != [] && l[c] == k[c][..|k[c]| - 1] + [x] + [k[c][|k[c]| - 1]]
  }

  lemma ShapeBeforeLast(k: map<Node, seq<Node>>, l: map<Node, seq<Node>>, t: Tree, x: Tree)
    requires t.kids != [] && Shape(k, t) && Shape(l, x) && Agree(k, l, NodesAll(t.kids))
    requires GainsBefore(k, l, t.root, x.root)
    ensures Shape(l, Tree(t.root, t.kids[..|t.kids| - 1] + [x] + [Last(t)]))
  {
    var n := |t.kids| - 1;
    var front := t.kids[..n];
    ShapeFrameAll(k, l, t.kids);
    RootsBefore(t.kids, x);
    assert (front + [x] + [Last(t)])[..n + 1] == front + [x] && (front + [x])[..n] == front;
  }

  lemma {:induction false} ShapeBefore(k: map<Node, seq<Node>>, l: map<Node, seq<Node>>, t: Tree, i: nat, x: Tree)
    requires i + 1 < |Path(t)| && Plain(t) && Shape(k, t) && Shape(l, x)
    requires Agree(k, l, Nodes(t) - {Path(t)[i]}) && GainsBefore(k, l, Path(t)[i], x.root)
    ensures Shape(l, GraftBefore(t, i, x))
    decreases t
  {
    if i == 0 {
      assert Agree(k, l, NodesAll(t.kids));
      ShapeBeforeLast(k, l, t, x);
    } else {
      PathInTree(Last(t), i - 1);
      AgreeParts(k, l, t, Path(t)[i]);
      ShapeBefore(k, l, Last(t), i - 1, x);
      ShapeWithLast(k, l, t, GraftBefore(Last(t), i - 1, x));
    }
  }

  // ---------------------------------------------------------------------------------
  // The round
  // ---------------------------------------------------------------------------------

  /** Every node is the child of one node only, once. */
  ghost predicate Single(kids: map<Node, seq<Node>>) {
    forall p, q, i, j :: p in kids && q in kids && 0 <= i < |kids[p]| && 0 <= j < |kids[q]| ==>
      kids[p][i] == kids[q][j] ==> p == q && i == j
  }

  /** As in every coherent tree. */
  lemma CoherentIsSingle(nodes: set<Node>)
    requires Coherent(nodes)
    ensures Single(Kids(nodes))
  {
  }

  /** The children of each node after a round that puts the last node at a place. */
  lemma PutKidsAt(s: State, fi: nat, bi: nat, t: Trace, place: Place, x: Node)
    requires Proper(s) && Fits(s, fi, bi, t) && x in s.kids && PlaceIn(LooseKids(s, bi, t), place)
    requires place.parent in s.kids && place.parent != s.open[bi]
    ensures var b, k := s.open[bi], Cut(s.kids, t.spot);
            && x in PutKids(s, bi, t, place) && t.nf in PutKids(s, bi, t, place) && x in k && b in k
            && PutKids(s, bi, t, place)[t.nf] == k[b]
            && (x == b ==> PutKids(s, bi, t, place)[x] == [t.nf])
            && (x != b && x != place.parent ==> PutKids(s, bi, t, place)[x] == k[x])
            && place.parent in k && place.at <= |k[place.parent]|
            && var above := k[place.parent];
            x == place.parent ==>
              PutKids(s, bi, t, place)[x] == above[..place.at] + [LastNode(t.made, b)] + above[place.at..]
  {
    var b := s.open[bi];
    LooseOld(s, t.lo, t.made, b, t.spot, x);
    LooseOld(s, t.lo, t.made, b, t.spot, b);
    LooseOld(s, t.lo, t.made, b, t.spot, place.parent);
  }

  /** The table that the last node goes in front of, unless it is B, is where it was before the round. */
  lemma PlaceParent(s: State, fi: nat, bi: nat, t: Trace, g: Foster, tree: Tree, pos: seq<nat>, j: nat)
    requires OnTree(s, tree, pos) && Single(s.kids) && Formatted(s)
    requires forall i :: 0 <= i < |s.open| ==> s.open[i].kind == Element
    requires Fits(s, fi, bi, t) && FitsFoster(s, bi, t, g) && !g.pushed
    requires 2 <= j != bi && TopTable(s.open, t.lo, bi, j)
    ensures 0 < pos[j] && g.place.parent == Path(tree)[pos[j] - 1] && g.place.parent in s.kids
    ensures s.open[j] in Cut(s.kids, t.spot)[g.place.parent]
    ensures var c := Cut(s.kids, t.spot)[g.place.parent]; g.place.at < |c| && c[g.place.at] == s.open[j]
  {
    var x, b, k := s.open[j], s.open[bi], LooseKids(s, bi, t);
    var p := g.place.parent;
    assert pos[0] < pos[j];
    TableStays(s, t.lo, bi, t.made, g.k);
    OnlyTable(s.open, t.lo, bi, j, Origin(t.lo, bi, |Some(t.made)|, g.k));
    assert x in k[p];
    LooseDomain(s, fi, bi, t, p);
    if p !in s.kids {
      LooseChain(s, t.lo, t.made, b, t.spot);
      LinkedKid(Some(t.made), b, k, p, x);
      ClonesAreElements(s, t.lo, t.made, x);
    }
    LooseOld(s, t.lo, t.made, b, t.spot, p);
    PathChild(s.kids, tree, pos[j]);
    CutMembers(s.kids, t.spot, p, x);
    var i :| 0 <= i < |s.kids[p]| && s.kids[p][i] == x;
    assert p == Path(tree)[pos[j] - 1];
  }

  /** Below B it is the last child of the node before it on the path. */
  lemma PlaceOnPath(s: State, fi: nat, bi: nat, t: Trace, g: Foster, tree: Tree, pos: seq<nat>, j: nat)
    requires OnTree(s, tree, pos) && Single(s.kids) && Formatted(s)
    requires forall i :: 0 <= i < |s.open| ==> s.open[i].kind == Element
    requires Fits(s, fi, bi, t) && FitsFoster(s, bi, t, g) && !g.pushed && Spotted(s.kids, s.open[bi], t.spot)
    requires 2 <= j < bi && TopTable(s.open, t.lo, bi, j)
    ensures 0 < pos[j] < pos[bi]
    ensures var q := Path(tree)[pos[j] - 1]; g.place.parent == q && q in s.kids && g.place.at == |s.kids[q]| - 1
    ensures var q := Path(tree)[pos[j] - 1]; q in Cut(s.kids, t.spot) && Cut(s.kids, t.spot)[q] == s.kids[q]
  {
    PlaceParent(s, fi, bi, t, g, tree, pos, j);
    PathChild(s.kids, tree, pos[j]);
    SpottedAtEnd(s, tree, pos, bi, t.spot);
    PathDistinct(tree);
  }

  /** B is cut off, gets the clone of F, is wrapped in the clones, and goes in front of the table at j. */
  function FosterTree(tree: Tree, j: nat, b: nat, t: Trace): Tree
    requires 0 < j < b < |Path(tree)|
  {
    PathCutOff(tree, b);
    GraftBefore(CutOff(tree, b), j - 1, Wrap(Some(t.made), Block(Sub(tree, b), t.nf)))
  }

  /** A node that is the parent in neither of two places has the same children either way. */
  lemma PutEither(s: State, bi: nat, t: Trace, p: Place, q: Place, x: Node)
    requires bi < |s.open| && PlaceIn(LooseKids(s, bi, t), p) && PlaceIn(LooseKids(s, bi, t), q)
    requires x != p.parent && x != q.parent && s.open[bi] != p.parent && s.open[bi] != q.parent
    ensures x in PutKids(s, bi, t, p) <==> x in PutKids(s, bi, t, q)
    ensures x in PutKids(s, bi, t, p) ==> PutKids(s, bi, t, q)[x] == PutKids(s, bi, t, p)[x]
  {
  }

  /** B's subtree in its chain of clones has the shape of the map after the round, wherever it goes above B. */
  lemma WrappedShape(s: State, fi: nat, bi: nat, t: Trace, tree: Tree, pos: seq<nat>, place: Place)
    requires OnTree(s, tree, pos) && Fits(s, fi, bi, t) && AtEnd(s, tree, pos[bi], t.spot)
    requires forall i :: 0 <= i < |s.open| ==> s.open[i].kind == Element
    requires PlaceIn(LooseKids(s, bi, t), place) && place.parent in Nodes(CutOff(tree, pos[bi]))
    ensures var x := Wrap(Some(t.made), Block(Sub(tree, pos[bi]), t.nf));
            Shape(PutKids(s, bi, t, place), x) && x.root == LastNode(t.made, s.open[bi])
  {
    var c, b := pos[fi - 1], pos[bi];
    var sub, cs, kids := Sub(tree, b), Some(t.made), Round(s, fi, bi, t).kids;
    var x := Wrap(cs, Block(sub, t.nf));
    RoundBlock(s, fi, bi, t, tree, c, b);
    RoundChain(s, fi, bi, t);
    Sides(tree, c, b);
    WrapShape(kids, cs, Block(sub, t.nf));
    LastIsHead(t.made, s.open[bi]);
    ClonesApart(s, fi, bi, t, tree);
    WrappedNodes(sub, cs, t.nf, s.kids.Keys);
    RoundIsPut(s, fi, bi, t);
    var at := Place(s.open[fi - 1], |LooseKids(s, bi, t)[s.open[fi - 1]]|);
    assert place.parent in Nodes(tree) && at.parent in Nodes(tree) && sub.root in Nodes(sub);
    forall y | y in Nodes(x)
      ensures y !in kids || (y in PutKids(s, bi, t, place) && PutKids(s, bi, t, place)[y] == kids[y])
    {
      PutEither(s, bi, t, at, place, y);
    }
    ShapeInMap(kids, x);
    ShapeFrame(kids, PutKids(s, bi, t, place), x);
  }

  /** Above the cut only the parent of the table gets a child. */
  lemma FosterAbove(s: State, fi: nat, bi: nat, t: Trace, tree: Tree, pos: seq<nat>, place: Place)
    requires OnTree(s, tree, pos) && Fits(s, fi, bi, t)
    requires PlaceIn(LooseKids(s, bi, t), place) && place.parent in Nodes(CutOff(tree, pos[bi]))
    ensures Agree(Cut(s.kids, t.spot), PutKids(s, bi, t, place), Nodes(CutOff(tree, pos[bi])) - {place.parent})
  {
    Sides(tree, pos[fi - 1], pos[bi]);
    ShapeInMap(s.kids, tree);
    assert place.parent in s.kids && s.open[bi] in Nodes(Sub(tree, pos[bi]));
    forall x | x in Nodes(CutOff(tree, pos[bi])) - {place.parent}
      ensures x in PutKids(s, bi, t, place) && x in Cut(s.kids, t.spot)
      ensures PutKids(s, bi, t, place)[x] == Cut(s.kids, t.spot)[x]
    {
      PutKidsAt(s, fi, bi, t, place, x);
    }
  }

  /** The parent of the table gets the last node right before the table. */
  lemma FosterGains(s: State, fi: nat, bi: nat, t: Trace, tree: Tree, pos: seq<nat>, place: Place)
    requires OnTree(s, tree, pos) && Fits(s, fi, bi, t)
    requires PlaceIn(LooseKids(s, bi, t), place) && place.parent in Nodes(CutOff(tree, pos[bi]))
    requires place.parent in Cut(s.kids, t.spot) && |Cut(s.kids, t.spot)[place.parent]| == place.at + 1
    ensures GainsBefore(Cut(s.kids, t.spot), PutKids(s, bi, t, place), place.parent, LastNode(t.made, s.open[bi]))
  {
    var k := Cut(s.kids, t.spot)[place.parent];
    Sides(tree, pos[fi - 1], pos[bi]);
    ShapeInMap(s.kids, tree);
    assert s.open[bi] in Nodes(Sub(tree, pos[bi]));
    PutKidsAt(s, fi, bi, t, place, place.parent);
    assert k[|k| - 1..] == [k[|k| - 1]];
  }

  /** The map after the round has the shape of the tree after it. */
  lemma FosterShape(s: State, fi: nat, bi: nat, t: Trace, g: Foster, tree: Tree, pos: seq<nat>, j: nat)
    requires OnTree(s, tree, pos) && Single(s.kids) && Formatted(s)
    requires forall i :: 0 <= i < |s.open| ==> s.open[i].kind == Element
    requires Fits(s, fi, bi, t) && FitsFoster(s, bi, t, g) && !g.pushed && Spotted(s.kids, s.open[bi], t.spot)
    requires 2 <= j < bi && TopTable(s.open, t.lo, bi, j)
    ensures 0 < pos[j] < pos[bi] && Shape(PutKids(s, bi, t, g.place), FosterTree(tree, pos[j], pos[bi], t))
  {
    PlaceOnPath(s, fi, bi, t, g, tree, pos, j);
    var b, i := pos[bi], pos[j] - 1;
    SpottedAtEnd(s, tree, pos, bi, t.spot);
    Sides(tree, i, b);
    CutShape(s, tree, b, t.spot);
    WrappedShape(s, fi, bi, t, tree, pos, g.place);
    FosterAbove(s, fi, bi, t, tree, pos, g.place);
    FosterGains(s, fi, bi, t, tree, pos, g.place);
    PathCutOff(tree, b);
    var x := Wrap(Some(t.made), Block(Sub(tree, b), t.nf));
    ShapeBefore(Cut(s.kids, t.spot), PutKids(s, bi, t, g.place), CutOff(tree, b), i, x);
  }

  /** A tree of the old nodes, the clones and the clone of F. */
  ghost predicate Gained(r: Tree, all: set<Node>, cs: set<Node>, nf: Node) {
    Plain(r) && Nodes(r) == all + cs + {nf}
  }

  lemma TogetherBefore(d: Tree, i: nat, x: Tree, sub: set<Node>, cs: set<Node>, nf: Node, all: set<Node>)
    requires i + 1 < |Path(d)| && Plain(d) && Plain(x) && Nodes(x) == sub + cs + {nf}
    requires Nodes(d) + sub == all && Nodes(d) !! sub && cs !! all && nf !in all
    ensures Plain(GraftBefore(d, i, x)) && Nodes(GraftBefore(d, i, x)) == all + cs + {nf}
  {
    NodesTogether(Nodes(d), sub, cs, nf, all);
    NodesBefore(d, i, x);
  }

  lemma WrappedBefore(d: Tree, i: nat, sub: Tree, cs: seq<Node>, nf: Node, all: set<Node>)
    requires i + 1 < |Path(d)| && Plain(d) && Plain(sub) && Nodes(d) + Nodes(sub) == all && Nodes(d) !! Nodes(sub)
    requires Distinct(cs) && Members(cs) !! all && nf !in all && nf !in cs
    ensures Gained(GraftBefore(d, i, Wrap(cs, Block(sub, nf))), all, Members(cs), nf)
  {
    WrappedNodes(sub, cs, nf, all);
    TogetherBefore(d, i, Wrap(cs, Block(sub, nf)), Nodes(sub), Members(cs), nf, all);
  }

  lemma {:induction false} NodesMoved(tree: Tree, j: nat, b: nat, cs: seq<Node>, nf: Node)
    requires Plain(tree) && 0 < j < b < |Path(tree)| && j < |Path(CutOff(tree, b))|
    requires Distinct(cs) && Members(cs) !! Nodes(tree) && nf !in Nodes(tree) && nf !in cs
    ensures Gained(GraftBefore(CutOff(tree, b), j - 1, Wrap(cs, Block(Sub(tree, b), nf))), Nodes(tree), Members(cs), nf)
  {
    NodesCutOff(tree, b);
    WrappedBefore(CutOff(tree, b), j - 1, Sub(tree, b), cs, nf, Nodes(tree));
  }

  /** No node is lost and only clones are new. */
  lemma FosterNodes(s: State, fi: nat, bi: nat, t: Trace, tree: Tree, j: nat, b: nat)
    requires Fits(s, fi, bi, t) && Shape(s.kids, tree) && Plain(tree) && 0 < j < b < |Path(tree)|
    requires forall i :: 0 <= i < |s.open| ==> s.open[i].kind == Element
    ensures Gained(FosterTree(tree, j, b, t), Nodes(tree), Members(Some(t.made)), t.nf)
  {
    ClonesApart(s, fi, bi, t, tree);
    PathCutOff(tree, b);
    NodesMoved(tree, j, b, Some(t.made), t.nf);
  }

  /** The leaves before the table, from it on, and under B: the last two change places. */
  lemma FosterLeaves(s: State, fi: nat, bi: nat, t: Trace, tree: Tree, j: nat, b: nat)
    requires Fits(s, fi, bi, t) && forall i :: 0 <= i < |s.open| ==> s.open[i].kind == Element
    requires 0 < j < b < |Path(tree)| && Path(tree)[b] == s.open[bi]
    ensures j < |Path(CutOff(tree, b))| && LeavesMoved(tree, FosterTree(tree, j, b, t), j, b)
  {
    WrappedIs(s, fi, bi, t, tree, b);
    PathCutOff(tree, b);
    LeavesCutOff(tree, b);
    LeavesCutOff(CutOff(tree, b), j);
    LeavesBefore(CutOff(tree, b), j - 1, Wrap(Some(t.made), Block(Sub(tree, b), t.nf)));
  }

  /** The leaves under position b of the path have moved in front of what else is under position j. */
  predicate LeavesMoved(tree: Tree, r: Tree, j: nat, b: nat)
    requires 0 < j < b < |Path(tree)| && j < |Path(CutOff(tree, b))|
  {
    var d, moved := CutOff(tree, b), Leaves(Sub(tree, b));
    && Leaves(tree) == Leaves(CutOff(d, j)) + Leaves(Sub(d, j)) + moved
    && Leaves(r) == Leaves(CutOff(d, j)) + moved + Leaves(Sub(d, j))
  }

  /**
    A fostered round on a tree with the open elements on its rightmost path, with the topmost
    table open below B: the map afterwards is again a tree, with every node of the old one, the clones and
    nothing else, and the leaves are the same but for those of B, which come before the table's.
   */
  lemma FosterOnTree(s: State, fi: nat, bi: nat, t: Trace, g: Foster, tree: Tree, pos: seq<nat>, j: nat)
    requires OnTree(s, tree, pos) && Single(s.kids) && Formatted(s)
    requires forall i :: 0 <= i < |s.open| ==> s.open[i].kind == Element
    requires Fits(s, fi, bi, t) && FitsFoster(s, bi, t, g) && !g.pushed && Spotted(s.kids, s.open[bi], t.spot)
    requires 2 <= j < bi && TopTable(s.open, t.lo, bi, j)
    ensures 0 < pos[j] < pos[bi] && pos[j] < |Path(CutOff(tree, pos[bi]))|
    ensures var r := FosterTree(tree, pos[j], pos[bi], t);
            && Shape(FosterState(s, fi, bi, t, g).kids, r) && Gained(r, Nodes(tree), Members(Some(t.made)), t.nf)
            && LeavesMoved(tree, r, pos[j], pos[bi])
  {
    FosterShape(s, fi, bi, t, g, tree, pos, j);
    FosterNodes(s, fi, bi, t, tree, pos[j], pos[bi]);
    FosterLeaves(s, fi, bi, t, tree, pos[j], pos[bi]);
  }

  // ---------------------------------------------------------------------------------
  // Rounds that push
  // ---------------------------------------------------------------------------------

  /** The last node at the end of an open element below B. */
  lemma AppendedShape(s: State, fi: nat, bi: nat, t: Trace, tree: Tree, pos: seq<nat>, c: nat, place: Place)
    requires OnTree(s, tree, pos) && Fits(s, fi, bi, t) && AtEnd(s, tree, pos[bi], t.spot) && c < bi
    requires forall i :: 0 <= i < |s.open| ==> s.open[i].kind == Element
    requires PlaceIn(LooseKids(s, bi, t), place) && place.parent == s.open[c]
    requires place.at == |LooseKids(s, bi, t)[place.parent]|
    ensures Shape(PutKids(s, bi, t, place), RoundTree(tree, pos[c], pos[bi], t))
  {
    var b, k := pos[bi], Cut(s.kids, t.spot);
    Sides(tree, pos[c], b);
    ShapeInMap(s.kids, tree);
    CutShape(s, tree, b, t.spot);
    WrappedShape(s, fi, bi, t, tree, pos, place);
    FosterAbove(s, fi, bi, t, tree, pos, place);
    LooseOld(s, t.lo, t.made, s.open[bi], t.spot, place.parent);
    PutKidsAt(s, fi, bi, t, place, place.parent);
    assert k[place.parent][..place.at] == k[place.parent] && k[place.parent][place.at..] == [];
    PathCutOff(tree, b);
    var x := Wrap(Some(t.made), Block(Sub(tree, b), t.nf));
    ShapeGraft(k, PutKids(s, bi, t, place), CutOff(tree, b), pos[c], x);
  }

  /** Where the last node goes that is pushed: the end of html, or of the element below B. */
  lemma PushedPlace(s: State, fi: nat, bi: nat, t: Trace, g: Foster) returns (c: nat)
    requires Ready(s) && Formatted(s) && Fits(s, fi, bi, t) && FitsFoster(s, bi, t, g) && g.pushed
    requires Spotted(s.kids, s.open[bi], t.spot)
    ensures c < bi && g.place.parent == s.open[c] && g.place.at == |LooseKids(s, bi, t)[s.open[c]]|
  {
    ReadyIs(s);
    assert forall i :: 0 <= i < |s.open| ==> Placed(s.kids, s.open[i], i);
    c := if g.k == -1 then 0 else t.lo - 1;
    if g.k >= 0 {
      TableStays(s, t.lo, bi, t.made, g.k);
      var j := Origin(t.lo, bi, |Some(t.made)|, g.k);
      if j != bi {
        OtherParent(s, fi, bi, t, s.open[j]);
      }
      BlockParent(s, fi, bi, t);
      assert j == bi && Some(t.made) == [];
    }
  }

  /** A round that pushes keeps the nodes of the tree and the order of the leaves. */
  lemma PushedOnTree(s: State, fi: nat, bi: nat, t: Trace, g: Foster, tree: Tree, pos: seq<nat>) returns (r: Tree)
    requires Ready(s) && OnTree(s, tree, pos) && Formatted(s)
    requires Fits(s, fi, bi, t) && FitsFoster(s, bi, t, g) && g.pushed && Spotted(s.kids, s.open[bi], t.spot)
    ensures Shape(FosterState(s, fi, bi, t, g).kids, r) && Gained(r, Nodes(tree), Members(Some(t.made)), t.nf)
    ensures Leaves(r) == Leaves(tree)
  {
    ReadyIs(s);
    assert forall i :: 0 <= i < |s.open| ==> Placed(s.kids, s.open[i], i);
    var c := PushedPlace(s, fi, bi, t, g);
    assert pos[c] < pos[bi];
    SpottedAtEnd(s, tree, pos, bi, t.spot);
    AppendedShape(s, fi, bi, t, tree, pos, c, g.place);
    RoundNodes(s, fi, bi, t, tree, pos[c], pos[bi]);
    RoundLeaves(s, fi, bi, t, tree, pos[c], pos[bi]);
    r := RoundTree(tree, pos[c], pos[bi], t);
  }
}
