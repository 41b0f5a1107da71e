/**
  The tree over whole runs of the adoption agency. While every furthest block is at most four
  positions above its formatting element and no round is in a table, the open elements stay on
  the rightmost path, no node is lost, and the leaves keep their order.
 */
module GumboTreeRuns {
  import opened GumboTags
  import opened GumboTree
  import opened GumboActive
  import opened GumboAdoption
  import opened GumboRound
  import opened GumboLeaves
  import opened GumboOrder
  import opened GumboReady
  import opened GumboFoster
  import opened GumboOutcome

  /** A block that is nowhere else than at its spot is the last child of the node before it on the path. */
  lemma SpottedAtEnd(s: State, tree: Tree, pos: seq<nat>, bi: nat, spot: Spot)
    requires OnTree(s, tree, pos) && 0 < bi < |s.open| && Spotted(s.kids, s.open[bi], spot)
    ensures AtEnd(s, tree, pos[bi], spot)
  {
    assert pos[0] < pos[bi];
    PathChild(s.kids, tree, pos[bi]);
  }

  /** An adoption whose round visits everything between F and B, outside tables; or the end of a run. */
  predicate Near(o: Outcome) {
    !o.Fostered? && (o.Adopted? ==> o.bi - o.fi <= 4)
  }

  lemma AdoptedOnTree(s: State, fi: nat, bi: nat, t: Trace, tree: Tree, pos: seq<nat>) returns (r: Tree, at: seq<nat>)
    requires Ready(s) && OnTree(s, tree, pos) && Fits(s, fi, bi, t) && Spotted(s.kids, s.open[bi], t.spot)
    requires bi - fi <= 4
    ensures OnTree(Round(s, fi, bi, t), r, at) && Leaves(r) == Leaves(tree) && Nodes(tree) <= Nodes(r)
  {
    ReadyIs(s);
    assert forall i :: 0 <= i < |s.open| ==> Placed(s.kids, s.open[i], i);
    SpottedAtEnd(s, tree, pos, bi, t.spot);
    RoundKeepsOrder(s, fi, bi, t, tree, pos);
    RoundOnPath(s, fi, bi, t, tree, pos);
    RoundReady(s, fi, bi, t);
    ReadyIs(Round(s, fi, bi, t));
    r := RoundTree(tree, pos[fi - 1], pos[bi], t);
    at :| LiesAt(Round(s, fi, bi, t).open, Path(r), at);
  }

  lemma FollowsOnTree(s: State, marker: Node, tag: Tag, o: Outcome, u: State, tree: Tree, pos: seq<nat>)
    returns (r: Tree, at: seq<nat>)
    requires Ready(s) && OnTree(s, tree, pos) && Follows(s, marker, tag, o, u) && Near(o)
    ensures Ready(u) && OnTree(u, r, at) && Leaves(r) == Leaves(tree) && Nodes(tree) <= Nodes(r)
  {
    FollowsReady(s, marker, tag, o, u);
    r, at := tree, pos;
    if o.Adopted? {
      r, at := AdoptedOnTree(s, o.fi, o.bi, o.t, tree, pos);
    } else if o.Closed? {
      at := pos[..o.fi];
    }
  }

  /** The last round of a run. */
  lemma RunsLast(run: seq<State>, os: seq<Outcome>, marker: Node, tag: Tag)
    requires Runs(run, os, marker, tag) && os != []
    ensures var n := |os| - 1;
            && Runs(run[..n + 1], os[..n], marker, tag) && run[..n + 1][0] == run[0] && Reached(run[..n + 1]) == run[n]
            && Follows(run[n], marker, tag, os[n], Reached(run))
  {
  }

  /** Over a whole run. */
  lemma {:induction false} RunsOnTree(run: seq<State>, os: seq<Outcome>, marker: Node, tag: Tag,
                                      tree: Tree, pos: seq<nat>)
    returns (r: Tree, at: seq<nat>)
    requires Runs(run, os, marker, tag) && Ready(run[0]) && OnTree(run[0], tree, pos)
    requires forall i :: 0 <= i < |os| ==> Near(os[i])
    ensures Ready(Reached(run)) && OnTree(Reached(run), r, at) && Leaves(r) == Leaves(tree) && Nodes(tree) <= Nodes(r)
    decreases |os|
  {
    if os == [] {
      r, at := tree, pos;
    } else {
      var n := |os| - 1;
      RunsLast(run, os, marker, tag);
      assert Near(os[n]);
      var q, p := RunsOnTree(run[..n + 1], os[..n], marker, tag, tree, pos);
      r, at := FollowsOnTree(run[n], marker, tag, os[n], Reached(run), q, p);
    }
  }

  // ---------------------------------------------------------------------------------
  // Insertion
  // ---------------------------------------------------------------------------------

  lemma LiesLonger(open: seq<Node>, path: seq<Node>, pos: seq<nat>, x: Node)
    requires open != [] && LiesAt(open, path, pos)
    ensures var p := pos[|open| - 1]; LiesAt(open + [x], path[..p + 1] + [x], pos + [p + 1])
  {
    var n := |open| - 1;
    var p := pos[n];
    forall i | 0 <= i <= n + 1
      ensures (pos + [p + 1])[i] < |path[..p + 1] + [x]|
      ensures (path[..p + 1] + [x])[(pos + [p + 1])[i]] == (open + [x])[i]
    {
      assert i < n ==> pos[i] < p;
    }
  }

  /** A new element under the current node keeps the open elements on the rightmost path. */
  lemma InsertOnTree(s: State, tree: Tree, pos: seq<nat>, x: Node, list: seq<Node>) returns (r: Tree, at: seq<nat>)
    requires OnTree(s, tree, pos) && s.open != [] && x in s.kids && s.kids[x] == [] && x !in Nodes(tree) && x !in s.open
    ensures var c := s.open[|s.open| - 1]; OnTree(State(list, s.open + [x], s.kids[c := s.kids[c] + [x]]), r, at)
    ensures Nodes(r) == Nodes(tree) + {x} && Leaves(r) == Leaves(tree) + Leaves(Tree(x, []))
  {
    var n := |s.open| - 1;
    var c, leaf := s.open[n], Tree(x, []);
    PathInTree(tree, pos[n]);
    ShapeInMap(s.kids, tree);
    ShapeGraft(s.kids, s.kids[c := s.kids[c] + [x]], tree, pos[n], leaf);
    assert Nodes(leaf) == {x};
    NodesGraft(tree, pos[n], leaf);
    LeavesGraft(tree, pos[n], leaf);
    PathGraft(tree, pos[n], leaf);
    LiesLonger(s.open, Path(tree), pos, x);
    r, at := Graft(tree, pos[n], leaf), pos + [pos[n] + 1];
  }
}
