/**
  Fostered rounds of the adoption agency that leave no tree. When the topmost table is the
  furthest block itself, or is open above it, the last node goes in front of a table that is
  below it in the tree: it becomes its own descendant, and no finite tree holds it.
 */
module GumboCycles {
  import opened GumboTags
  import opened GumboTree
  import opened GumboStack
  import opened GumboActive
  import opened GumboParser
  import opened GumboAdoption
  import opened GumboRound
  import opened GumboLeaves
  import opened GumboOrder
  import opened GumboReady
  import opened GumboFoster
  import opened GumboOutcome
  import opened GumboTreeRuns
  import opened GumboFosterTree
  import opened GumboAgency

  // ---------------------------------------------------------------------------------
  // Down a tree
  // ---------------------------------------------------------------------------------

  function Size(t: Tree): nat
    decreases t, 0
  {
    1 + SizeAll(t.kids)
  }

  function SizeAll(ts: seq<Tree>): nat
    decreases ts, 1
  {
    if ts == [] then 0 else SizeAll(ts[..|ts| - 1]) + Size(ts[|ts| - 1])
  }

  lemma {:induction false} OneOf(k: map<Node, seq<Node>>, ts: seq<Tree>, i: nat)
    requires ShapeAll(k, ts) && i < |ts|
    ensures Shape(k, ts[i]) && Size(ts[i]) <= SizeAll(ts)
    decreases |ts|
  {
    if i < |ts| - 1 {
      OneOf(k, ts[..|ts| - 1], i);
    }
  }

  /** A child has a smaller tree. */
  lemma ChildTree(k: map<Node, seq<Node>>, t: Tree, y: Node) returns (u: Tree)
    requires Shape(k, t) && y in k[t.root]
    ensures Shape(k, u) && u.root == y && Size(u) < Size(t)
  {
    var i :| 0 <= i < |k[t.root]| && k[t.root][i] == y;
    OneOf(k, t.kids, i);
    u := t.kids[i];
  }

  /** Every node of a tree has one that is not larger. */
  lemma {:induction false} TreeOf(k: map<Node, seq<Node>>, t: Tree, x: Node) returns (u: Tree)
    requires Shape(k, t) && x in Nodes(t)
    ensures Shape(k, u) && u.root == x && Size(u) <= Size(t)
    decreases t, 0
  {
    if x == t.root {
      u := t;
    } else {
      u := TreeAmong(k, t.kids, x);
    }
  }

  lemma {:induction false} TreeAmong(k: map<Node, seq<Node>>, ts: seq<Tree>, x: Node) returns (u: Tree)
    requires ShapeAll(k, ts) && x in NodesAll(ts)
    ensures Shape(k, u) && u.root == x && Size(u) <= SizeAll(ts)
    decreases ts, 1
  {
    var n := |ts| - 1;
    if x in Nodes(ts[n]) {
      u := TreeOf(k, ts[n], x);
    } else {
      u := TreeAmong(k, ts[..n], x);
    }
  }

  /** Each of a chain has the next among its children, the last one b. */
  predicate Chained(cs: seq<Node>, b: Node, k: map<Node, seq<Node>>) {
    cs == [] || (cs[0] in k && (cs[1..] + [b])[0] in k[cs[0]] && Chained(cs[1..], b, k))
  }

  lemma {:induction false} LinksAreChained(cs: seq<Node>, b: Node, k: map<Node, seq<Node>>, l: map<Node, seq<Node>>)
    requires Links(cs, b, k) && forall c, x :: c in cs && c in k && x in k[c] ==> c in l && x in l[c]
    ensures Chained(cs, b, l)
  {
    if cs != [] {
      assert (cs[1..] + [b])[0] in k[cs[0]];
      LinksAreChained(cs[1..], b, k, l);
    }
  }

  /** Down a chain to any of its nodes. */
  lemma {:induction false} DownChain(k: map<Node, seq<Node>>, cs: seq<Node>, b: Node, t: Tree, p: Node)
    returns (u: Tree)
    requires Chained(cs, b, k) && Shape(k, t) && t.root == (cs + [b])[0] && p in cs + [b]
    ensures Shape(k, u) && u.root == p && Size(u) <= Size(t)
  {
    if p == t.root {
      u := t;
    } else {
      var v := ChildTree(k, t, (cs[1..] + [b])[0]);
      assert cs + [b] == [cs[0]] + (cs[1..] + [b]);
      u := DownChain(k, cs[1..], b, v, p);
    }
  }

  /** Down a path from one position to another. */
  lemma {:induction false} DownPath(k: map<Node, seq<Node>>, path: seq<Node>, m: nat, n: nat, t: Tree)
    returns (u: Tree)
    requires m <= n < |path| && Shape(k, t) && t.root == path[m]
    requires forall i :: m <= i < n ==> path[i] in k && path[i + 1] in k[path[i]]
    ensures Shape(k, u) && u.root == path[n] && Size(u) <= Size(t)
    decreases n - m
  {
    if m == n {
      u := t;
    } else {
      var v := ChildTree(k, t, path[m + 1]);
      u := DownPath(k, path, m + 1, n, v);
    }
  }

  // ---------------------------------------------------------------------------------
  // Around the cycle
  // ---------------------------------------------------------------------------------

  /** Who has what children after a round that puts the last node at a place: those of B are the clone's of F. */
  lemma PutEdge(s: State, bi: nat, t: Trace, place: Place, q: Node, x: Node)
    requires bi < |s.open| && PlaceIn(LooseKids(s, bi, t), place) && t.nf !in LooseKids(s, bi, t)
    requires q in LooseKids(s, bi, t) && x in LooseKids(s, bi, t)[q]
    ensures var l, b := PutKids(s, bi, t, place), s.open[bi];
            var p := if q == b then t.nf else q; p in l && x in l[p]
  {
    InsertMembers(LooseKids(s, bi, t), place, LastNode(t.made, s.open[bi]), q, x);
  }

  lemma PutLast(s: State, bi: nat, t: Trace, place: Place)
    requires bi < |s.open| && PlaceIn(LooseKids(s, bi, t), place) && t.nf !in LooseKids(s, bi, t)
    requires s.open[bi] in LooseKids(s, bi, t)
    ensures var l, b := PutKids(s, bi, t, place), s.open[bi];
            && b in l && l[b] == [t.nf]
            && var p := if place.parent == b then t.nf else place.parent; p in l && LastNode(t.made, b) in l[p]
  {
    InsertKeeps(LooseKids(s, bi, t)[place.parent], place.at, LastNode(t.made, s.open[bi]));
  }

  /** The clones are a chain down to B after the round too. */
  lemma PutChained(s: State, fi: nat, bi: nat, t: Trace, place: Place)
    requires Proper(s) && Fits(s, fi, bi, t) && PlaceIn(LooseKids(s, bi, t), place)
    requires forall i :: 0 <= i < |s.open| ==> s.open[i].kind == Element
    ensures t.nf !in LooseKids(s, bi, t) && s.open[bi] in LooseKids(s, bi, t)
    ensures Chained(Some(t.made), s.open[bi], PutKids(s, bi, t, place))
  {
    var b, k, l := s.open[bi], LooseKids(s, bi, t), PutKids(s, bi, t, place);
    LooseDomain(s, fi, bi, t, t.nf);
    LooseDomain(s, fi, bi, t, b);
    SomeMembers(t.made, t.nf);
    LooseChain(s, t.lo, t.made, b, t.spot);
    forall c, x | c in Some(t.made) && c in k && x in k[c]
      ensures c in l && x in l[c]
    {
      ClonesAreElements(s, t.lo, t.made, c);
      PutEdge(s, bi, t, place, c, x);
    }
    LinksAreChained(Some(t.made), b, k, l);
  }

  /** The edges of the path below B, after the round. */
  lemma PathEdge(s: State, fi: nat, bi: nat, t: Trace, place: Place, tree: Tree, pos: seq<nat>, i: nat)
    requires OnTree(s, tree, pos) && Fits(s, fi, bi, t) && AtEnd(s, tree, pos[bi], t.spot)
    requires PlaceIn(LooseKids(s, bi, t), place) && t.nf !in LooseKids(s, bi, t) && pos[bi] <= i < |Path(tree)| - 1
    ensures var l, p := PutKids(s, bi, t, place), if i == pos[bi] then t.nf else Path(tree)[i];
            p in l && Path(tree)[i + 1] in l[p]
  {
    var b, q := s.open[bi], Path(tree)[i];
    PathChild(s.kids, tree, i + 1);
    PathDistinct(tree);
    LooseOld(s, t.lo, t.made, b, t.spot, q);
    CutLast(s.kids, t.spot, q);
    PutEdge(s, bi, t, place, q, Path(tree)[i + 1]);
  }

  /** From the clone of F, which stands for B, down the path. */
  lemma DownToPlace(s: State, fi: nat, bi: nat, t: Trace, place: Place, tree: Tree, pos: seq<nat>, n: nat, u: Tree)
    returns (v: Tree)
    requires OnTree(s, tree, pos) && Fits(s, fi, bi, t) && AtEnd(s, tree, pos[bi], t.spot)
    requires PlaceIn(LooseKids(s, bi, t), place) && t.nf !in LooseKids(s, bi, t)
    requires pos[bi] <= n < |Path(tree)| && Shape(PutKids(s, bi, t, place), u) && u.root == t.nf
    ensures Shape(PutKids(s, bi, t, place), v) && Size(v) <= Size(u)
    ensures v.root == if Path(tree)[n] == s.open[bi] then t.nf else Path(tree)[n]
  {
    var l, path, m := PutKids(s, bi, t, place), Path(tree), pos[bi] + 1;
    PathDistinct(tree);
    if n == pos[bi] {
      v := u;
    } else {
      PathEdge(s, fi, bi, t, place, tree, pos, pos[bi]);
      var c := ChildTree(l, u, path[m]);
      forall i | m <= i < n
        ensures path[i] in l && path[i + 1] in l[path[i]]
      {
        PathEdge(s, fi, bi, t, place, tree, pos, i);
      }
      v := DownPath(l, path, m, n, c);
    }
  }

  /** From the last node down to the clone of F. */
  lemma DownToClone(s: State, fi: nat, bi: nat, t: Trace, place: Place, u: Tree) returns (v: Tree)
    requires Proper(s) && Fits(s, fi, bi, t) && PlaceIn(LooseKids(s, bi, t), place)
    requires forall i :: 0 <= i < |s.open| ==> s.open[i].kind == Element
    requires Shape(PutKids(s, bi, t, place), u) && u.root == LastNode(t.made, s.open[bi])
    ensures t.nf !in LooseKids(s, bi, t)
    ensures Shape(PutKids(s, bi, t, place), v) && v.root == t.nf && Size(v) < Size(u)
  {
    var l, b := PutKids(s, bi, t, place), s.open[bi];
    PutChained(s, fi, bi, t, place);
    PutLast(s, bi, t, place);
    LastIsHead(t.made, b);
    var w := DownChain(l, Some(t.made), b, u, b);
    v := ChildTree(l, w, t.nf);
  }

  /** The table is above B: from the clone of F on to the parent of the table, and to the last node again. */
  lemma TurnAbove(s: State, fi: nat, bi: nat, t: Trace, g: Foster, tree: Tree, pos: seq<nat>, j: nat, u: Tree)
    returns (v: Tree)
    requires OnTree(s, tree, pos) && Single(s.kids) && Formatted(s)
    requires forall i :: 0 <= i < |s.open| ==> s.open[i].kind == Element
    requires Fits(s, fi, bi, t) && FitsFoster(s, bi, t, g) && !g.pushed && Spotted(s.kids, s.open[bi], t.spot)
    requires bi < j && TopTable(s.open, t.lo, bi, j)
    requires Shape(PutKids(s, bi, t, g.place), u) && u.root == LastNode(t.made, s.open[bi])
    ensures Shape(PutKids(s, bi, t, g.place), v) && v.root == u.root && Size(v) < Size(u)
  {
    var n := DownToClone(s, fi, bi, t, g.place, u);
    LooseDomain(s, fi, bi, t, s.open[bi]);
    PutLast(s, bi, t, g.place);
    PlaceParent(s, fi, bi, t, g, tree, pos, j);
    SpottedAtEnd(s, tree, pos, bi, t.spot);
    assert pos[bi] < pos[j];
    n := DownToPlace(s, fi, bi, t, g.place, tree, pos, pos[j] - 1, n);
    v := ChildTree(PutKids(s, bi, t, g.place), n, u.root);
  }

  /** The table is B: from the last node down to the clone above B, and to the last node again. */
  lemma TurnAtBlock(s: State, fi: nat, bi: nat, t: Trace, g: Foster, u: Tree) returns (v: Tree)
    requires Proper(s) && Formatted(s) && forall i :: 0 <= i < |s.open| ==> s.open[i].kind == Element
    requires Fits(s, fi, bi, t) && FitsFoster(s, bi, t, g) && !g.pushed && Spotted(s.kids, s.open[bi], t.spot)
    requires TopTable(s.open, t.lo, bi, bi)
    requires Shape(PutKids(s, bi, t, g.place), u) && u.root == LastNode(t.made, s.open[bi])
    ensures Shape(PutKids(s, bi, t, g.place), v) && v.root == u.root && Size(v) < Size(u)
  {
    var l, b, p := PutKids(s, bi, t, g.place), s.open[bi], g.place.parent;
    PutChained(s, fi, bi, t, g.place);
    PutLast(s, bi, t, g.place);
    LastIsHead(t.made, b);
    TableStays(s, t.lo, bi, t.made, g.k);
    OnlyTable(s.open, t.lo, bi, bi, Origin(t.lo, bi, |Some(t.made)|, g.k));
    assert b in LooseKids(s, bi, t)[p];
    LooseDomain(s, fi, bi, t, p);
    if p in s.kids {
      LooseOld(s, t.lo, t.made, b, t.spot, p);
      CutGone(s.kids, b, t.spot, p);
    }
    var w := DownChain(l, Some(t.made), b, u, p);
    v := ChildTree(l, w, u.root);
  }

  /** No tree holds the last node afterwards. */
  lemma {:induction false} LastIsLost(s: State, fi: nat, bi: nat, t: Trace, g: Foster,
                                      tree: Tree, pos: seq<nat>, j: nat, r: Tree)
    requires OnTree(s, tree, pos) && Single(s.kids) && Formatted(s)
    requires forall i :: 0 <= i < |s.open| ==> s.open[i].kind == Element
    requires Fits(s, fi, bi, t) && FitsFoster(s, bi, t, g) && !g.pushed && Spotted(s.kids, s.open[bi], t.spot)
    requires bi <= j && TopTable(s.open, t.lo, bi, j) && Shape(PutKids(s, bi, t, g.place), r)
    ensures LastNode(t.made, s.open[bi]) !in Nodes(r)
    decreases Size(r)
  {
    if LastNode(t.made, s.open[bi]) in Nodes(r) {
      var u := TreeOf(PutKids(s, bi, t, g.place), r, LastNode(t.made, s.open[bi]));
      var v;
      if j == bi {
        v := TurnAtBlock(s, fi, bi, t, g, u);
      } else {
        v := TurnAbove(s, fi, bi, t, g, tree, pos, j, u);
      }
      LastIsLost(s, fi, bi, t, g, tree, pos, j, v);
    }
  }

  /** The last node is B or a clone. */
  lemma LastGained(r: Tree, all: set<Node>, t: Trace, b: Node)
    requires Gained(r, all, Members(Some(t.made)), t.nf) && b in all
    ensures LastNode(t.made, b) in Nodes(r)
  {
    LastIsHead(t.made, b);
    assert (Some(t.made) + [b])[0] in Some(t.made) || (Some(t.made) + [b])[0] == b;
  }

  /** What a fostered round makes of the tree, from the place of the topmost table. */
  ghost predicate FosteredOn(kids: map<Node, seq<Node>>, tree: Tree, pos: seq<nat>, t: Trace, pushed: bool,
                             bi: nat, j: int, r: Tree) {
    && Shape(kids, r) && Gained(r, Nodes(tree), Members(Some(t.made)), t.nf)
    && (pushed ==> Leaves(r) == Leaves(tree))
    && (!pushed ==>
          && 0 <= j < bi < |pos| && 0 < pos[j] < pos[bi] < |Path(tree)| && pos[j] < |Path(CutOff(tree, pos[bi]))|
          && LeavesMoved(tree, r, pos[j], pos[bi]))
  }

  lemma FosterOutcome(s: State, fi: nat, bi: nat, t: Trace, g: Foster, tree: Tree, pos: seq<nat>, j: int)
    returns (r: Tree)
    requires Ready(s) && OnTree(s, tree, pos) && Single(s.kids) && Formatted(s)
    requires Fits(s, fi, bi, t) && FitsFoster(s, bi, t, g) && Spotted(s.kids, s.open[bi], t.spot)
    requires TopTable(s.open, t.lo, bi, j)
    ensures g.pushed || j < bi ==> FosteredOn(FosterState(s, fi, bi, t, g).kids, tree, pos, t, g.pushed, bi, j, r)
  {
    ReadyIs(s);
    assert forall i :: 0 <= i < |s.open| ==> Placed(s.kids, s.open[i], i);
    r := tree;
    if g.pushed {
      r := PushedOnTree(s, fi, bi, t, g, tree, pos);
    } else if j < bi {
      TableStays(s, t.lo, bi, t.made, g.k);
      OnlyTable(s.open, t.lo, bi, j, Origin(t.lo, bi, |Some(t.made)|, g.k));
      FosterOnTree(s, fi, bi, t, g, tree, pos, j);
      r := FosterTree(tree, pos[j], pos[bi], t);
    }
  }

  /** A fostered round leaves the last node in a tree exactly when it is pushed or the topmost table is below B. */
  lemma TreeExactly(s: State, fi: nat, bi: nat, t: Trace, g: Foster, tree: Tree, pos: seq<nat>, j: int)
    requires Ready(s) && OnTree(s, tree, pos) && Single(s.kids) && Formatted(s)
    requires Fits(s, fi, bi, t) && FitsFoster(s, bi, t, g) && Spotted(s.kids, s.open[bi], t.spot)
    requires TopTable(s.open, t.lo, bi, j)
    ensures (exists r :: Shape(FosterState(s, fi, bi, t, g).kids, r) && LastNode(t.made, s.open[bi]) in Nodes(r)) <==>
            g.pushed || j < bi
  {
    ReadyIs(s);
    assert forall i :: 0 <= i < |s.open| ==> Placed(s.kids, s.open[i], i);
    if g.pushed || j < bi {
      var r := FosterOutcome(s, fi, bi, t, g, tree, pos, j);
      PathInTree(tree, pos[bi]);
      LastGained(r, Nodes(tree), t, s.open[bi]);
    } else {
      forall r | Shape(FosterState(s, fi, bi, t, g).kids, r)
        ensures LastNode(t.made, s.open[bi]) !in Nodes(r)
      {
        LastIsLost(s, fi, bi, t, g, tree, pos, j, r);
      }
    }
  }

  /** A fostered round, run on a tree whose open elements lie on its rightmost path. */
  method FosterRoundOnTree(parser: Parser, f: Node, fi: nat, bi: nat, ghost tree: Tree, ghost pos: seq<nat>,
                           ghost j: int)
    returns (pushed: bool, ghost t: Trace, ghost g: Foster, ghost r: Tree)
    requires RoundStart(parser) && OnTree(parser.ListState(), tree, pos)
    requires 0 < fi < bi < |parser.open| && parser.open[fi] == f && f in parser.active
    requires IsTablePart(parser.open[fi - 1].tag) && TopTable(parser.open, Lowest(fi, bi), bi, j)
    modifies parser`nodes, parser`active, parser`open, parser.nodes`parent, parser.nodes`index, parser.nodes`children
    ensures parser.Valid() && parser.ListValid() && (Ready(parser.ListState()) <==> !pushed)
    ensures Fits(old(parser.ListState()), fi, bi, t) && FitsFoster(old(parser.ListState()), bi, t, g)
    ensures parser.ListState() == FosterState(old(parser.ListState()), fi, bi, t, g)
    ensures pushed <==> Pushes(old(parser.ListState()), Lowest(fi, bi), bi)
    ensures pushed || j < bi ==> FosteredOn(Kids(parser.nodes), tree, pos, t, pushed, bi, j, r)
    ensures (exists u :: Shape(Kids(parser.nodes), u) && LastNode(t.made, old(parser.open)[bi]) in Nodes(u)) <==>
            pushed || j < bi
  {
    ghost var s := parser.ListState();
    CoherentIsSingle(parser.nodes);
    assert Formatted(s);
    pushed, t, g := ReadyFoster(parser, f, fi, bi);
    LowestIs(s, fi, bi, t);
    r := FosterOutcome(s, fi, bi, t, g, tree, pos, j);
    TreeExactly(s, fi, bi, t, g, tree, pos, j);
  }
}
