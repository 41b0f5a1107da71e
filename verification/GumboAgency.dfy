/**
  The adoption agency algorithm as the parser runs it. Every round is proved to do to the
  stack, the list and the tree what `GumboAdoption` describes.
 */
module GumboAgency {
  import opened GumboTags
  import opened GumboTree
  import opened GumboStack
  import opened GumboActive
  import opened GumboParser
  import opened GumboAdoption
  import opened GumboRound
  import opened GumboLeaves
  import opened GumboOrder
  import opened GumboReady
  import opened GumboFoster
  import opened GumboOutcome

  /** Where B is while it is the last node; any clone is nowhere before it gets its parent. */
  ghost predicate At(last: Node, b: Node, spot: Spot)
    reads last
  {
    if last == b then last.parent == spot.p && last.index == spot.at && spot.p.kind == Element else last.parent == null
  }

  /** remove_from_parent on the last node. */
  method TakeLast(parser: Parser, last: Node, ghost b: Node, ghost spot: Spot)
    requires parser.Valid() && last in parser.nodes && At(last, b, spot)
    modifies last`parent, parser.nodes`index, parser.nodes`children
    ensures parser.Valid() && last.parent == null
    ensures Kids(parser.nodes) == Loosened(old(Kids(parser.nodes)), b, spot, last)
  {
    RemoveFromParent(last, parser.nodes);
  }

  /** Step 9.7: a clone takes the place of the element at i, on the stack and on the list. */
  method CloneInPlace(parser: Parser, i: nat) returns (clone: Node)
    requires parser.Valid() && parser.ListValid() && 0 < i < |parser.open| && parser.open[i] in parser.active
    modifies parser`active, parser`open, parser`nodes
    ensures parser.Valid() && parser.ListValid()
    ensures fresh(clone) && parser.nodes == old(parser.nodes) + {clone} && IsClone(clone, old(parser.open)[i])
    ensures clone.parent == null && Kids(parser.nodes) == old(Kids(parser.nodes))[clone := []]
    ensures parser.open == old(parser.open)[i := clone]
    ensures parser.active == Replaced(old(parser.active), old(parser.open)[i], clone)
  {
    var node := parser.open[i];
    var at := IndexOf(parser.active, node);
    clone := parser.CloneNode(node);
    parser.SetEntry(at, clone);
    parser.open := parser.open[i := clone];
  }

  /** Steps 9.7 to 9.10: the clone becomes the parent of the last node. */
  method CloneStep(parser: Parser, i: nat, last: Node, ghost b: Node, ghost spot: Spot) returns (clone: Node)
    requires parser.Valid() && parser.ListValid() && 0 < i < |parser.open| && parser.open[i] in parser.active
    requires last in parser.nodes && At(last, b, spot)
    modifies parser`active, parser`open, parser`nodes
    modifies last`parent, parser.nodes`index, parser.nodes`children
    ensures parser.Valid() && parser.ListValid()
    ensures fresh(clone) && parser.nodes == old(parser.nodes) + {clone} && IsClone(clone, old(parser.open)[i])
    ensures clone.parent == null && last.parent == clone
    ensures parser.open == old(parser.open)[i := clone]
    ensures parser.active == Replaced(old(parser.active), old(parser.open)[i], clone)
    ensures Kids(parser.nodes) == Loosened(old(Kids(parser.nodes)), b, spot, last)[clone := [last]]
  {
    clone := CloneInPlace(parser, i);
    HangNew(old(Kids(parser.nodes)), b, spot, last, clone);
    TakeLast(parser, last, b, spot);
    assert clone.children == Kids(parser.nodes)[clone];
    AppendNode(clone, last, parser.nodes);
  }

  /** The inner loop has visited the elements between positions lo and bi of the stack it started with. */
  ghost predicate Visited(parser: Parser, s: State, lo: nat, bi: nat, made: seq<Node?>, spot: Spot)
    reads parser, parser.nodes
  {
    && parser.Valid() && parser.ListValid() && s.kids.Keys <= parser.nodes
    && 0 < lo <= bi < |s.open| && |made| == bi - lo && MadeFor(s, lo, made)
    && parser.ListState() == After(s, lo, bi, made, spot)
  }

  /** Step 9.5: an element that is not on the list leaves the stack. */
  method VisitDrop(parser: Parser, i: nat, ghost s: State, ghost bi: nat, ghost made: seq<Node?>, ghost spot: Spot)
    requires 0 < i && Visited(parser, s, i + 1, bi, made, spot) && Proper(s) && s.open[i] !in s.list
    modifies parser`open
    ensures Visited(parser, s, i, bi, [null] + made, spot)
  {
    NextToVisit(s, i, bi, made);
    OpenStep(s.open, i + 1, made, null);
    MadeStep(s, i + 1, made, null);
    ListStep(s.list, s.open[i + 1..bi], made, s.open[i], null);
    KidsStep(s.kids, made, s.open[bi], spot, null);
    parser.open := parser.open[..i] + parser.open[i + 1..];
  }

  /** Steps 9.7 to 9.10: an element on the list is cloned. */
  method VisitClone(parser: Parser, i: nat, last: Node, ghost s: State, ghost bi: nat, ghost made: seq<Node?>,
                    ghost spot: Spot)
    returns (clone: Node)
    requires 0 < i && Visited(parser, s, i + 1, bi, made, spot) && Proper(s) && s.open[i] in s.list
    requires last == LastNode(made, s.open[bi]) && last in parser.nodes && At(last, s.open[bi], spot)
    modifies parser`active, parser`open, parser`nodes
    modifies last`parent, parser.nodes`index, parser.nodes`children
    ensures Visited(parser, s, i, bi, [clone] + made, spot)
    ensures fresh(clone) && parser.nodes == old(parser.nodes) + {clone}
    ensures clone.parent == null && last.parent == clone
    ensures parser.active == Replaced(old(parser.active), s.open[i], clone)
  {
    NextToVisit(s, i, bi, made);
    ghost var nodes := parser.nodes;
    clone := CloneStep(parser, i, last, s.open[bi], spot);
    assert clone !in nodes;
    MadeInTree(s.kids, made, s.open[bi], spot, clone);
    OpenStep(s.open, i + 1, made, clone);
    MadeStep(s, i + 1, made, clone);
    ListStep(s.list, s.open[i + 1..bi], made, s.open[i], clone);
    KidsStep(s.kids, made, s.open[bi], spot, clone);
  }

  /** The search for the next element to visit: below the one visited last, whether or not it is still there. */
  method NextIndex(parser: Parser, node: Node, saved: nat, ghost s: State, ghost bi: nat, ghost made: seq<Node?>,
                   ghost spot: Spot)
    returns (i: int)
    requires Visited(parser, s, saved, bi, made, spot) && Proper(s) && node == VisitedLast(s, saved, bi, made)
    ensures i == saved - 1
    ensures i < |parser.open| && parser.open[i] == s.open[i] && (s.open[i] in parser.active <==> s.open[i] in s.list)
  {
    WhereVisited(s, saved, bi, made);
    i := IndexOf(parser.open, node);
    if i == -1 {
      i := saved;
    }
    i := i - 1;
    NextToVisit(s, i, bi, made);
  }

  /** What the inner loop keeps: besides the visits, the last node and the bookmark. */
  ghost predicate Looping(parser: Parser, s: State, lo: nat, bi: nat, made: seq<Node?>, spot: Spot, f: Node,
                          last: Node, mark: int)
    reads parser, parser.nodes, last
  {
    && Visited(parser, s, lo, bi, made, spot)
    && last == LastNode(made, s.open[bi]) && last in parser.nodes && At(last, s.open[bi], spot)
    && Marked(parser.active, f, made, mark)
  }

  /** A turn of the inner loop at an element that is not on the list. */
  method TurnDrop(parser: Parser, i: nat, last: Node, mark: int, ghost f: Node, ghost s: State, ghost bi: nat,
                  ghost made: seq<Node?>,
                  ghost spot: Spot)
    requires 0 < i && Looping(parser, s, i + 1, bi, made, spot, f, last, mark) && Proper(s) && s.open[i] !in s.list
    modifies parser`open
    ensures Looping(parser, s, i, bi, [null] + made, spot, f, last, mark)
  {
    VisitDrop(parser, i, s, bi, made, spot);
    TopStep(made, null);
    KidsStep(s.kids, made, s.open[bi], spot, null);
  }

  /** A turn of the inner loop at any other than the formatting element. */
  method TurnClone(parser: Parser, i: nat, last: Node, mark: int, ghost f: Node, b: Node, ghost s: State, ghost bi: nat,
                   ghost made: seq<Node?>, ghost spot: Spot)
    returns (clone: Node, bookmark: int)
    requires 0 < i && Looping(parser, s, i + 1, bi, made, spot, f, last, mark) && Proper(s) && s.open[i] in s.list
    requires b == s.open[bi] && s.open[i] != f
    modifies parser`active, parser`open, parser`nodes
    modifies last`parent, parser.nodes`index, parser.nodes`children
    ensures Looping(parser, s, i, bi, [clone] + made, spot, f, clone, bookmark)
    ensures fresh(clone) && parser.nodes == old(parser.nodes) + {clone}
  {
    NextToVisit(s, i, bi, made);
    MadeAreNew(s, i + 1, made, s.open[i]);
    MadeAreNew(s, i + 1, made, b);
    LastIsB(made, b);
    var at := IndexOf(parser.active, parser.open[i]);
    ghost var list := parser.active;
    clone := VisitClone(parser, i, last, s, bi, made, spot);
    MarkStep(list, f, made, mark, s.open[i], clone);
    KidsStep(s.kids, made, b, spot, clone);
    bookmark := if last == b then at + 1 else mark;
  }

  /** A turn of the inner loop at an element other than the formatting element. */
  method Turn(parser: Parser, i: nat, last: Node, mark: int, ghost f: Node, b: Node, ghost s: State, ghost bi: nat,
              ghost made: seq<Node?>, ghost spot: Spot)
    returns (node: Node, next: Node, bookmark: int, ghost c: Node?)
    requires 0 < i && Looping(parser, s, i + 1, bi, made, spot, f, last, mark) && Proper(s)
    requires b == s.open[bi] && s.open[i] != f
    modifies parser`active, parser`open, parser`nodes
    modifies last`parent, parser.nodes`index, parser.nodes`children
    ensures Looping(parser, s, i, bi, [c] + made, spot, f, next, bookmark)
    ensures node == VisitedLast(s, i, bi, [c] + made) && (next == last || next !in old(parser.nodes))
    ensures old(parser.nodes) <= parser.nodes && fresh(parser.nodes - old(parser.nodes))
  {
    NextToVisit(s, i, bi, made);
    node := parser.open[i];
    if node !in parser.active {
      TurnDrop(parser, i, last, mark, f, s, bi, made, spot);
      next, bookmark, c := last, mark, null;
    } else {
      next, bookmark := TurnClone(parser, i, last, mark, f, b, s, bi, made, spot);
      node, c := next, next;
    }
  }

  /** One turn of the inner loop, from the search for the next element on; it ends at the formatting element. */
  method Step(parser: Parser, prev: Node, saved: nat, last: Node, mark: int, f: Node, b: Node, ghost fi: nat,
              ghost s: State, ghost bi: nat, ghost made: seq<Node?>, ghost spot: Spot)
    returns (done: bool, node: Node, i: int, next: Node, bookmark: int, ghost c: Node?)
    requires Looping(parser, s, saved, bi, made, spot, f, last, mark) && Proper(s)
    requires prev == VisitedLast(s, saved, bi, made)
    requires 0 < fi < saved && s.open[fi] == f && s.open[bi] == b && s.open[saved - 1].parent != null
    modifies parser`active, parser`open, parser`nodes
    modifies last`parent, parser.nodes`index, parser.nodes`children
    ensures done ==> fi == saved - 1 && i == saved && Looping(parser, s, i, bi, made, spot, f, next, bookmark)
    ensures !done ==> fi < i == saved - 1 && Looping(parser, s, i, bi, [c] + made, spot, f, next, bookmark)
    ensures !done ==> node == VisitedLast(s, i, bi, [c] + made)
    ensures next == last || next !in old(parser.nodes)
    ensures old(parser.nodes) <= parser.nodes && fresh(parser.nodes - old(parser.nodes))
  {
    i := NextIndex(parser, prev, saved, s, bi, made, spot);
    node, next, bookmark, c := parser.open[i], last, mark, null;
    assert node.parent != null;
    done := node == f;
    if done {
      i := saved;
    } else {
      node, next, bookmark, c := Turn(parser, i, last, mark, f, b, s, bi, made, spot);
    }
  }

  /** Steps 9.1 to 9.11. */
  method InnerLoop(parser: Parser, f: Node, b: Node, bi: nat, mark: nat, ghost fi: nat, ghost s: State,
                   ghost spot: Spot)
    returns (last: Node, bookmark: int, ghost lo: nat, ghost made: seq<Node?>)
    requires Looping(parser, s, bi, bi, [], spot, f, b, mark) && Proper(s)
    requires 0 < fi < bi && s.open[fi] == f && s.open[bi] == b
    requires forall k :: fi <= k < bi ==> s.open[k].parent != null
    modifies parser`active, parser`open, parser`nodes
    modifies b`parent, parser.nodes`index, parser.nodes`children
    ensures |made| <= 3 && |made| < bi - fi && (|made| == 3 || fi == lo - 1) && lo == bi - |made|
    ensures Looping(parser, s, lo, bi, made, spot, f, last, bookmark)
    ensures old(parser.nodes) <= parser.nodes && fresh(parser.nodes - old(parser.nodes))
  {
    var node, saved, j, done := b, bi, 0, false;
    last, bookmark, made := b, mark, [];
    while j < 3 && !done
      invariant 0 <= j <= 3 && |made| == j && saved == bi - j && fi < saved && (done ==> fi == saved - 1)
      invariant Looping(parser, s, saved, bi, made, spot, f, last, bookmark)
      invariant !done ==> node == VisitedLast(s, saved, bi, made)
      invariant last == b || last !in old(parser.nodes)
      invariant old(parser.nodes) <= parser.nodes && fresh(parser.nodes - old(parser.nodes))
      decreases 3 - j, !done
    {
      ghost var c;
      done, node, saved, last, bookmark, c := Step(parser, node, saved, last, bookmark, f, b, fi, s, bi, made, spot);
      if !done {
        j, made := j + 1, [c] + made;
      }
    }
    lo := saved;
  }

  /** Step 10 where the common ancestor is no part of a table. */
  method MoveToAncestor(parser: Parser, last: Node, ancestor: Node, ghost b: Node, ghost spot: Spot)
    requires parser.Valid() && last in parser.nodes && At(last, b, spot) && ancestor in parser.open
    modifies last`parent, parser.nodes`index, parser.nodes`children
    ensures parser.Valid() && last.parent == ancestor
    ensures Kids(parser.nodes) == Joined(old(Kids(parser.nodes)), b, spot, last, ancestor)
  {
    TakeLast(parser, last, b, spot);
    assert ancestor.children == Kids(parser.nodes)[ancestor];
    AppendNode(ancestor, last, parser.nodes);
  }

  /** Step 10 where it is: without a table to go in front of, the last node is also pushed. */
  method MoveToFosterParent(parser: Parser, last: Node, ghost b: Node, ghost spot: Spot)
    returns (pushed: bool, ghost k: int, ghost place: Place)
    requires parser.Valid() && last in parser.nodes && last.kind == Element && At(last, b, spot) && |parser.open| > 2
    modifies parser`open, parser.nodes`parent, parser.nodes`index, parser.nodes`children
    ensures parser.Valid()
    ensures var kids := Loosened(old(Kids(parser.nodes)), b, spot, last);
            && IsFosterPlace(kids, old(parser.open), k, place)
            && Kids(parser.nodes) == InsertAt(kids, place, last)
            && pushed == !InFrontOf(kids, old(parser.open), k)
            && parser.open == old(parser.open) + if pushed then [last] else []
  {
    TakeLast(parser, last, b, spot);
    forall i | IsTableAt(parser.open, i)
      ensures IsFosterPlace(Kids(parser.nodes), parser.open, i, parser.FosterPlace(i))
      ensures parser.HasPlace(i) <==> InFrontOf(Kids(parser.nodes), parser.open, i)
    {
      FosterPlaceIs(parser, i);
    }
    label Taken:
    var n := |parser.open|;
    k := parser.FosterParent(last);
    place := old@Taken(parser.FosterPlace(k));
    pushed := |parser.open| > n;
  }

  /** Steps 11 to 13. */
  method NewFormatting(parser: Parser, f: Node, b: Node) returns (nf: Node)
    requires parser.Valid() && parser.ListValid() && f in parser.nodes && f.kind == Element && b in parser.open
    modifies parser`nodes, parser.nodes`parent, parser.nodes`index, parser.nodes`children
    ensures parser.Valid() && parser.ListValid() && fresh(nf) && parser.nodes == old(parser.nodes) + {nf}
    ensures IsClone(nf, f) && Kids(parser.nodes) == Adopt(old(Kids(parser.nodes)), b, nf)
  {
    nf := parser.CloneNode(f);
    AdoptSteps(old(Kids(parser.nodes)), b, nf);
    assert b.children == old(Kids(parser.nodes))[b] && nf.children == Kids(parser.nodes)[nf];
    SwapChildren(b, nf, parser.nodes);
    assert b.children == Kids(parser.nodes)[b];
    AppendNode(b, nf, parser.nodes);
  }

  /** Step 14 on a list of its own. */
  method MoveToBookmark(list: seq<Node>, f: Node, nf: Node, mark: int) returns (r: seq<Node>)
    requires f in list && 0 <= mark <= |list|
    ensures r == ListFinal(list, f, mark, nf)
  {
    var bookmark := mark;
    var k := IndexOf(list, f);
    if k < bookmark {
      bookmark := bookmark - 1;
    }
    r := list[..k] + list[k + 1..];
    assert r == Without(list, IndexIn(list, f));
    r := r[..bookmark] + [nf] + r[bookmark..];
  }

  /** Step 14. */
  method FinishList(parser: Parser, f: Node, nf: Node, mark: int)
    requires parser.ListValid() && nf in parser.nodes && IsClone(nf, f)
    requires f in parser.active && f != parser.marker && 0 <= mark <= |parser.active|
    modifies parser`active
    ensures parser.ListValid() && parser.active == ListFinal(old(parser.active), f, mark, nf)
  {
    assert parser.Formats(nf);
    ListFinalMembers(parser.active, f, mark, nf);
    parser.active := MoveToBookmark(parser.active, f, nf, mark);
  }

  /** Step 15 on a stack of its own. */
  method MoveAbove(open: seq<Node>, f: Node, b: Node, nf: Node) returns (r: seq<Node>)
    requires f in open && b in open && f != b
    ensures r == OpenFinal(open, f, b, nf)
  {
    OtherStays(open, f, b);
    var k := IndexOf(open, f);
    r := open[..k] + open[k + 1..];
    assert r == Without(open, IndexIn(open, f));
    k := IndexOf(r, b);
    r := r[..k + 1] + [nf] + r[k + 1..];
  }

  /** Step 15. */
  method FinishOpen(parser: Parser, f: Node, b: Node, nf: Node)
    requires parser.Valid() && nf in parser.nodes && nf.kind == Element && f != b
    requires f in parser.open && parser.open[0] != f && b in parser.open
    modifies parser`open
    ensures parser.Valid() && parser.open == OpenFinal(old(parser.open), f, b, nf)
  {
    OpenFinalShape(parser.open, f, b, nf);
    parser.open := MoveAbove(parser.open, f, b, nf);
  }

  /** Steps 11 to 15. */
  method Complete(parser: Parser, f: Node, b: Node, mark: int) returns (nf: Node)
    requires parser.Valid() && parser.ListValid() && f != b && 0 <= mark <= |parser.active|
    requires f in parser.active && f in parser.open && parser.open[0] != f && b in parser.open
    modifies parser`nodes, parser`active, parser`open, parser.nodes`parent, parser.nodes`index, parser.nodes`children
    ensures parser.Valid() && parser.ListValid() && fresh(nf) && parser.nodes == old(parser.nodes) + {nf}
    ensures IsClone(nf, f)
    ensures parser.ListState() ==
            State(ListFinal(old(parser.active), f, mark, nf), OpenFinal(old(parser.open), f, b, nf),
                  Adopt(old(Kids(parser.nodes)), b, nf))
  {
    ghost var open := parser.open;
    nf := NewFormatting(parser, f, b);
    ghost var kids := Kids(parser.nodes);
    FinishList(parser, f, nf, mark);
    ghost var finished := parser.active;
    FinishOpen(parser, f, b, nf);
    assert parser.ListState() == State(finished, OpenFinal(open, f, b, nf), kids);
  }

  /** Steps 7 to 9: the bookmark and the inner loop. */
  method StartRound(parser: Parser, f: Node, b: Node, fi: nat, bi: nat, ghost s: State, ghost spot: Spot)
    returns (last: Node, bookmark: int, ghost lo: nat, ghost made: seq<Node?>)
    requires parser.Valid() && parser.ListValid() && s == parser.ListState() && Proper(s)
    requires 0 < fi < bi < |s.open| && s.open[fi] == f && s.open[bi] == b && f in s.list && At(b, b, spot)
    requires forall k :: fi <= k < bi ==> s.open[k].parent != null
    modifies parser`active, parser`open, parser`nodes
    modifies b`parent, parser.nodes`index, parser.nodes`children
    ensures |made| <= 3 && |made| < bi - fi && (|made| == 3 || fi == lo - 1) && lo == bi - |made|
    ensures Looping(parser, s, lo, bi, made, spot, f, last, bookmark)
    ensures old(parser.nodes) <= parser.nodes && fresh(parser.nodes - old(parser.nodes))
  {
    var mark := IndexOf(parser.active, f);
    NothingVisited(s, bi, spot);
    last, bookmark, lo, made := InnerLoop(parser, f, b, bi, mark, fi, s, spot);
  }

  /** Steps 10 to 15, where the common ancestor is no part of a table. */
  method EndRound(parser: Parser, f: Node, b: Node, ancestor: Node, last: Node, bookmark: int, ghost fi: nat,
                  ghost bi: nat,
                  ghost lo: nat, ghost made: seq<Node?>, ghost s: State, ghost spot: Spot)
    returns (ghost t: Trace)
    requires Looping(parser, s, lo, bi, made, spot, f, last, bookmark) && Proper(s) && 0 < fi < lo
    requires s.open[fi - 1] == ancestor && s.open[fi] == f && s.open[bi] == b && f in s.list
    modifies parser`nodes, parser`active, parser`open, parser.nodes`parent, parser.nodes`index, parser.nodes`children
    ensures parser.Valid() && parser.ListValid()
    ensures parser.nodes == old(parser.nodes) + {t.nf} && fresh(t.nf)
    ensures t.lo == lo && t.made == made && t.spot == spot && t.mark == bookmark
    ensures t.nf !in s.kids && t.nf !in t.made && IsClone(t.nf, f)
    ensures parser.ListState() == Round(s, fi, bi, t)
  {
    InnerKeeps(s, fi, bi, lo, made);
    MoveToAncestor(parser, last, ancestor, b, spot);
    ghost var nodes := parser.nodes;
    var nf := Complete(parser, f, b, bookmark);
    assert nf !in nodes;
    MadeInTree(s.kids, made, b, spot, nf);
    t := Trace(lo, made, spot, bookmark, nf);
  }

  /** Steps 7 to 15, where the common ancestor is no part of a table. */
  method RunRound(parser: Parser, f: Node, b: Node, fi: nat, bi: nat) returns (ghost t: Trace)
    requires parser.Valid() && parser.ListValid() && Proper(parser.ListState())
    requires 0 < fi < bi < |parser.open| && parser.open[fi] == f && parser.open[bi] == b && f in parser.active
    requires !IsTablePart(parser.open[fi - 1].tag)
    requires b.parent != null && b.parent.kind == Element && forall k :: fi <= k < bi ==> parser.open[k].parent != null
    modifies parser`nodes, parser`active, parser`open, parser.nodes`parent, parser.nodes`index, parser.nodes`children
    ensures parser.Valid() && parser.ListValid()
    ensures old(parser.nodes) <= parser.nodes && fresh(parser.nodes - old(parser.nodes))
    ensures t.spot == Spot(old(b.parent), old(b.index)) && Fits(old(parser.ListState()), fi, bi, t)
    ensures parser.ListState() == Round(old(parser.ListState()), fi, bi, t)
  {
    ghost var s, spot := parser.ListState(), Spot(b.parent, b.index);
    var ancestor := parser.open[fi - 1];
    var last, bookmark, lo, made := StartRound(parser, f, b, fi, bi, s, spot);
    t := EndRound(parser, f, b, ancestor, last, bookmark, fi, bi, lo, made, s, spot);
  }

  // ---------------------------------------------------------------------------------
  // A round on a tree, and a round in a table
  // ---------------------------------------------------------------------------------

  /** A node of the rightmost path is the last child of the one before it. */
  lemma SpotOnPath(nodes: set<Node>, tree: Tree, i: nat)
    requires Coherent(nodes) && Shape(Kids(nodes), tree) && 0 < i < |Path(tree)|
    ensures var x, p := Path(tree)[i], Path(tree)[i - 1]; p in nodes && x.parent == p && x.index == |p.children| - 1
  {
    PathChild(Kids(nodes), tree, i);
  }

  /** What the tree says about the elements a round works on. */
  lemma OnTreeFacts(parser: Parser, tree: Tree, pos: seq<nat>, fi: nat, bi: nat)
    requires parser.Valid() && OnTree(parser.ListState(), tree, pos) && 0 < fi < bi < |parser.open|
    ensures forall k :: fi <= k <= bi ==> parser.open[k].parent != null
    ensures var b := parser.open[bi];
            b.parent != null && b.index >= 0 && AtEnd(parser.ListState(), tree, pos[bi], Spot(b.parent, b.index))
  {
    forall k | fi <= k <= bi
      ensures parser.open[k].parent != null
    {
      SpotOnPath(parser.nodes, tree, pos[k]);
    }
    SpotOnPath(parser.nodes, tree, pos[bi]);
  }

  /**
    A round with the open elements on the rightmost path of a tree: the tree afterwards has the
    same leaves in the same order, all the old nodes and none but clones besides, and the open
    elements lie on its rightmost path exactly when B is at most four positions above F.
   */
  method RoundOnTree(parser: Parser, f: Node, b: Node, fi: nat, bi: nat, ghost tree: Tree, ghost pos: seq<nat>)
    returns (ghost t: Trace, ghost r: Tree)
    requires parser.Valid() && parser.ListValid() && OnTree(parser.ListState(), tree, pos)
    requires 0 < fi < bi < |parser.open| && parser.open[fi] == f && parser.open[bi] == b && f in parser.active
    requires !IsTablePart(parser.open[fi - 1].tag) && (b.parent != null ==> b.parent.kind == Element)
    modifies parser`nodes, parser`active, parser`open, parser.nodes`parent, parser.nodes`index, parser.nodes`children
    ensures parser.Valid() && parser.ListValid()
    ensures Fits(old(parser.ListState()), fi, bi, t) && parser.ListState() == Round(old(parser.ListState()), fi, bi, t)
    ensures Shape(Kids(parser.nodes), r) && Plain(r) && Leaves(r) == Leaves(tree)
    ensures Nodes(r) == Nodes(tree) + Members(Some(t.made)) + {t.nf}
    ensures Lies(parser.open, Path(r)) <==> bi - fi <= 4
  {
    OnTreeFacts(parser, tree, pos, fi, bi);
    ghost var s := parser.ListState();
    t := RunRound(parser, f, b, fi, bi);
    r := RoundTree(tree, pos[fi - 1], pos[bi], t);
    RoundKeepsOrder(s, fi, bi, t, tree, pos);
    RoundOnPath(s, fi, bi, t, tree, pos);
  }

  lemma StayOpen(open: seq<Node>, tail: seq<Node>, f: Node, b: Node)
    requires open != [] && open[0] != f && f in open && b in open
    ensures (open + tail)[0] != f && f in open + tail && b in open + tail
  {
  }

  /** Steps 10 to 15, where the common ancestor is part of a table, from any state. */
  method FosterAndComplete(parser: Parser, f: Node, b: Node, last: Node, mark: int, ghost spot: Spot)
    returns (pushed: bool, nf: Node, ghost k: int, ghost place: Place)
    requires parser.Valid() && parser.ListValid() && f != b && 0 <= mark <= |parser.active| && |parser.open| > 2
    requires f in parser.active && f in parser.open && parser.open[0] != f && b in parser.open
    requires last in parser.nodes && last.kind == Element && At(last, b, spot)
    modifies parser`nodes, parser`active, parser`open, parser.nodes`parent, parser.nodes`index, parser.nodes`children
    ensures parser.Valid() && parser.ListValid() && fresh(nf) && IsClone(nf, f)
    ensures old(parser.nodes) <= parser.nodes && forall x :: x in parser.nodes ==> x in old(parser.nodes) || fresh(x)
    ensures var kids := Loosened(old(Kids(parser.nodes)), b, spot, last);
            && IsFosterPlace(kids, old(parser.open), k, place) && pushed == !InFrontOf(kids, old(parser.open), k)
            && parser.ListState() ==
               State(ListFinal(old(parser.active), f, mark, nf),
                     OpenFinal(old(parser.open) + (if pushed then [last] else []), f, b, nf),
                     Adopt(InsertAt(kids, place, last), b, nf))
  {
    ghost var open := parser.open;
    pushed, k, place := MoveToFosterParent(parser, last, b, spot);
    StayOpen(open, if pushed then [last] else [], f, b);
    nf := Complete(parser, f, b, mark);
  }

  /** Steps 10 to 15, where the common ancestor is part of a table. */
  method EndFosterRound(parser: Parser, f: Node, b: Node, last: Node, bookmark: int, ghost fi: nat, ghost bi: nat,
                        ghost lo: nat, ghost made: seq<Node?>, ghost s: State, ghost spot: Spot)
    returns (pushed: bool, ghost t: Trace, ghost g: Foster)
    requires Looping(parser, s, lo, bi, made, spot, f, last, bookmark) && Proper(s) && 0 < fi < lo
    requires |made| <= 3 && (|made| == 3 || fi == lo - 1)
    requires s.open[fi] == f && s.open[bi] == b && f in s.list && last.kind == Element
    modifies parser`nodes, parser`active, parser`open, parser.nodes`parent, parser.nodes`index, parser.nodes`children
    ensures parser.Valid() && parser.ListValid()
    ensures old(parser.nodes) <= parser.nodes && forall x :: x in parser.nodes ==> x in old(parser.nodes) || fresh(x)
    ensures t.spot == spot && Fits(s, fi, bi, t)
    ensures FitsFoster(s, bi, t, g) && g.pushed == pushed
    ensures parser.ListState() == FosterSteps(s, fi, bi, t, g)
  {
    InnerKeeps(s, fi, bi, lo, made);
    ghost var nodes := parser.nodes;
    ghost var k, place;
    var nf;
    pushed, nf, k, place := FosterAndComplete(parser, f, b, last, bookmark, spot);
    assert nf !in nodes;
    MadeInTree(s.kids, made, b, spot, nf);
    g, t := Foster(k, place, pushed), Trace(lo, made, spot, bookmark, nf);
  }

  /** Steps 7 to 15, where the common ancestor is part of a table. */
  method RunFoster(parser: Parser, f: Node, b: Node, fi: nat, bi: nat, ghost s: State, ghost spot: Spot)
    returns (pushed: bool, ghost t: Trace, ghost g: Foster)
    requires parser.Valid() && parser.ListValid() && s == parser.ListState() && Proper(s)
    requires 0 < fi < bi < |s.open| && s.open[fi] == f && s.open[bi] == b && f in s.list && At(b, b, spot)
    requires forall k :: fi <= k < bi ==> s.open[k].parent != null
    modifies parser`nodes, parser`active, parser`open, parser.nodes`parent, parser.nodes`index, parser.nodes`children
    ensures parser.Valid() && parser.ListValid()
    ensures old(parser.nodes) <= parser.nodes && fresh(parser.nodes - old(parser.nodes))
    ensures t.spot == spot && Fits(s, fi, bi, t) && FitsFoster(s, bi, t, g) && g.pushed == pushed
    ensures parser.ListState() == FosterSteps(s, fi, bi, t, g)
  {
    var last, bookmark, lo, made := StartRound(parser, f, b, fi, bi, s, spot);
    LastIsElement(s, lo, bi, made);
    pushed, t, g := EndFosterRound(parser, f, b, last, bookmark, fi, bi, lo, made, s, spot);
  }

  /**
    The same round: the list and the stack end as in any round, but for the last node being
    pushed; the tree differs in where the last node goes.
   */
  method FosterRound(parser: Parser, f: Node, b: Node, fi: nat, bi: nat)
    returns (pushed: bool, ghost t: Trace, ghost g: Foster)
    requires parser.Valid() && parser.ListValid() && Proper(parser.ListState())
    requires 0 < fi < bi < |parser.open| && parser.open[fi] == f && parser.open[bi] == b && f in parser.active
    requires IsTablePart(parser.open[fi - 1].tag)
    requires b.parent != null && b.parent.kind == Element && forall k :: fi <= k < bi ==> parser.open[k].parent != null
    modifies parser`nodes, parser`active, parser`open, parser.nodes`parent, parser.nodes`index, parser.nodes`children
    ensures parser.Valid() && parser.ListValid()
    ensures old(parser.nodes) <= parser.nodes && fresh(parser.nodes - old(parser.nodes))
    ensures t.spot == Spot(old(b.parent), old(b.index)) && Fits(old(parser.ListState()), fi, bi, t)
    ensures FitsFoster(old(parser.ListState()), bi, t, g) && g.pushed == pushed
    ensures parser.ListState() == FosterState(old(parser.ListState()), fi, bi, t, g)
    ensures pushed <==> Pushes(old(parser.ListState()), Lowest(fi, bi), bi)
    ensures Distinct(parser.open) <==> !pushed
  {
    ghost var s, spot := parser.ListState(), Spot(b.parent, b.index);
    SpotFacts(parser, b);
    pushed, t, g := RunFoster(parser, f, b, fi, bi, s, spot);
    FosterStepsLead(s, fi, bi, t, g);
    FosterRepeats(s, fi, bi, t, pushed);
    PushesExactly(s, fi, bi, t, g);
  }

  /** What the heap says about where B is, and that the list is formatting. */
  lemma SpotFacts(parser: Parser, b: Node)
    requires parser.Valid() && parser.ListValid() && b in parser.nodes && b.parent != null
    ensures b.index >= 0 && Spotted(parser.ListState().kids, b, Spot(b.parent, b.index))
    ensures Formatted(parser.ListState())
  {
    forall i | 0 <= i < |parser.open| && parser.open[i] in parser.active
      ensures IsFormatting(parser.open[i].tag)
    {
      var j :| 0 <= j < |parser.active| && parser.active[j] == parser.open[i];
    }
  }

  lemma LastIsElement(s: State, lo: nat, bi: nat, made: seq<Node?>)
    requires bi < |s.open| && MadeFor(s, lo, made) && forall i :: 0 <= i < |s.open| ==> s.open[i].kind == Element
    ensures LastNode(made, s.open[bi]).kind == Element
  {
    LastIsVisited(made, s.open[bi]);
    if LastNode(made, s.open[bi]) in Some(made) {
      ClonesAreElements(s, lo, made, LastNode(made, s.open[bi]));
    }
  }

  // ---------------------------------------------------------------------------------
  // The whole algorithm
  // ---------------------------------------------------------------------------------

  /** Step 4: the search for the formatting element. */
  method FindEntry(list: seq<Node>, marker: Node, tag: Tag) returns (k: int)
    ensures k == EntryOf(list, marker, tag) && -1 <= k < |list|
    ensures k == -1 <==> forall i :: 0 <= i < |list| && list[i] != marker && list[i].Is(tag) ==> marker in list[i..]
    ensures k >= 0 ==> list[k].Is(tag) && list[k] != marker && marker !in list[k..]
    ensures k >= 0 ==> forall i :: k < i < |list| ==> !list[i].Is(tag)
  {
    k := |list|;
    assert list[..k] == list;
    while k > 0
      invariant 0 <= k <= |list| && EntryOf(list[..k], marker, tag) == EntryOf(list, marker, tag)
    {
      k := k - 1;
      assert list[..k + 1][..k] == list[..k];
      if list[k] == marker {
        return -1;
      }
      if list[k].Is(tag) {
        return k;
      }
    }
    return -1;
  }

  /** Step 5: the furthest block is the lowest special element from F upward; -1 without one. */
  method FindBlock(open: seq<Node>, fi: nat) returns (bi: int)
    requires fi < |open|
    ensures bi == -1 ==> forall i :: fi <= i < |open| ==> !Special(open[i].ns, open[i].tag)
    ensures bi != -1 ==> fi <= bi < |open| && Special(open[bi].ns, open[bi].tag)
    ensures bi != -1 ==> forall i :: fi <= i < bi ==> !Special(open[i].ns, open[i].tag)
  {
    for i := fi to |open|
      invariant forall j :: fi <= j < i ==> !Special(open[j].ns, open[j].tag)
    {
      if Special(open[i].ns, open[i].tag) {
        return i;
      }
    }
    return -1;
  }

  /** gumbo_vector_remove on the list. */
  method RemoveEntry(parser: Parser, f: Node)
    requires parser.ListValid() && f in parser.active
    modifies parser`active
    ensures parser.ListValid() && parser.active == Without(old(parser.active), IndexIn(old(parser.active), f))
  {
    var k := IndexOf(parser.active, f);
    WithoutShape(parser.active, k);
    parser.active := parser.active[..k] + parser.active[k + 1..];
  }

  /** Step 6: without a block everything up to and with F is popped, and F leaves the list. */
  method CloseFormatting(parser: Parser, f: Node, ghost fi: nat)
    requires parser.Valid() && parser.ListValid() && f in parser.active
    requires Distinct(parser.open) && 0 < fi < |parser.open| && parser.open[fi] == f
    modifies parser`active, parser`open
    ensures parser.Valid() && parser.ListValid() && parser.open == old(parser.open)[..fi]
    ensures parser.active == Without(old(parser.active), IndexIn(old(parser.active), f))
  {
    while parser.Current() != f
      invariant fi < |parser.open| <= |old(parser.open)| && parser.open == old(parser.open)[..|parser.open|]
      invariant parser.Valid()
      decreases |parser.open|
      modifies parser`open
    {
      var _ := parser.Pop();
    }
    assert |parser.open| == fi + 1;
    var _ := parser.Pop();
    RemoveEntry(parser, f);
  }

  /** Every round starts from a coherent tree, a list of formatting elements and a stack that is ready. */
  ghost predicate RoundStart(parser: Parser)
    reads parser, parser.nodes
  {
    parser.Valid() && parser.ListValid() && Ready(parser.ListState())
  }

  /** What the heap says about the elements a round works on. */
  lemma RoundFacts(parser: Parser, fi: nat, bi: nat)
    requires RoundStart(parser) && 0 < fi < bi < |parser.open|
    ensures forall k :: fi <= k <= bi ==> parser.open[k].parent != null && parser.open[k].parent.kind == Element
    ensures var b := parser.open[bi];
            b.parent != null && b.index >= 0 && Spotted(parser.ListState().kids, b, Spot(b.parent, b.index))
  {
    ghost var s := parser.ListState();
    forall k | fi <= k <= bi
      ensures parser.open[k].parent != null && parser.open[k].parent.kind == Element
    {
      PlacedAt(s.kids, s.open, k);
      ParentIs(parser.nodes, parser.open[k]);
    }
    SpotFacts(parser, parser.open[bi]);
  }

  /** Steps 7 to 15 outside tables, from a stack that is ready to one that is. */
  method ReadyRound(parser: Parser, f: Node, fi: nat, bi: nat) returns (ghost t: Trace)
    requires RoundStart(parser) && 0 < fi < bi < |parser.open| && parser.open[fi] == f && f in parser.active
    requires !IsTablePart(parser.open[fi - 1].tag)
    modifies parser`nodes, parser`active, parser`open, parser.nodes`parent, parser.nodes`index, parser.nodes`children
    ensures RoundStart(parser)
    ensures old(parser.nodes) <= parser.nodes && fresh(parser.nodes - old(parser.nodes))
    ensures Fits(old(parser.ListState()), fi, bi, t) && parser.ListState() == Round(old(parser.ListState()), fi, bi, t)
    ensures Spotted(old(parser.ListState()).kids, old(parser.open)[bi], t.spot)
  {
    RoundFacts(parser, fi, bi);
    ghost var s := parser.ListState();
    ReadyIs(s);
    t := RunRound(parser, f, parser.open[bi], fi, bi);
    RoundReady(s, fi, bi, t);
  }

  /** Steps 7 to 15 in a table: the stack stays ready exactly when the last node is not pushed. */
  method ReadyFoster(parser: Parser, f: Node, fi: nat, bi: nat) returns (pushed: bool, ghost t: Trace, ghost g: Foster)
    requires RoundStart(parser) && 0 < fi < bi < |parser.open| && parser.open[fi] == f && f in parser.active
    requires IsTablePart(parser.open[fi - 1].tag)
    modifies parser`nodes, parser`active, parser`open, parser.nodes`parent, parser.nodes`index, parser.nodes`children
    ensures parser.Valid() && parser.ListValid() && (Ready(parser.ListState()) <==> !pushed)
    ensures old(parser.nodes) <= parser.nodes && fresh(parser.nodes - old(parser.nodes))
    ensures Fits(old(parser.ListState()), fi, bi, t)
    ensures FitsFoster(old(parser.ListState()), bi, t, g) && g.pushed == pushed
    ensures parser.ListState() == FosterState(old(parser.ListState()), fi, bi, t, g)
    ensures pushed <==> Pushes(old(parser.ListState()), Lowest(fi, bi), bi)
    ensures Spotted(old(parser.ListState()).kids, old(parser.open)[bi], t.spot)
  {
    RoundFacts(parser, fi, bi);
    ghost var s := parser.ListState();
    ReadyIs(s);
    pushed, t, g := FosterRound(parser, f, parser.open[bi], fi, bi);
    FosterReady(s, fi, bi, t, g);
  }

  // ---------------------------------------------------------------------------------
  // Eight rounds
  // ---------------------------------------------------------------------------------

  /** After the rounds of a run; the stack is ready for another one unless the last one pushed a node. */
  ghost predicate InRun(parser: Parser, tag: Tag, run: seq<State>, os: seq<Outcome>)
    reads parser, parser.nodes
  {
    && parser.Valid() && parser.ListValid() && Runs(run, os, parser.marker, tag) && Reached(run) == parser.ListState()
    && (Ready(parser.ListState()) <==> !Lost(os))
  }

  /** The entry found and its position on the stack. */
  ghost predicate Found(parser: Parser, tag: Tag, f: Node, fi: nat)
    reads parser
  {
    var k := EntryOf(parser.active, parser.marker, tag);
    k >= 0 && parser.active[k] == f && fi < |parser.open| && parser.open[fi] == f
  }

  /** Step 6: without a block F is closed. */
  method CloseRound(parser: Parser, f: Node, ghost fi: nat, ghost tag: Tag, ghost run: seq<State>,
                    ghost os: seq<Outcome>)
    requires InRun(parser, tag, run, os) && GoesOn(os) && Found(parser, tag, f, fi) && 0 < fi
    requires InScope(parser.open, [tag], false, EndsScope)
    requires forall i :: fi <= i < |parser.open| ==> !Special(parser.open[i].ns, parser.open[i].tag)
    modifies parser`active, parser`open
    ensures InRun(parser, tag, run + [parser.ListState()], os + [Closed(fi)])
  {
    ghost var r := ClosedState(parser.ListState(), f, fi);
    EndsClosed(run, os, parser.marker, tag, f, fi);
    CloseFormatting(parser, f, fi);
    assert parser.ListState() == r;
  }

  /** Steps 7 to 15: with a block F is adopted. */
  method AdoptRound(parser: Parser, f: Node, fi: nat, bi: nat, ghost tag: Tag, ghost run: seq<State>,
                    ghost os: seq<Outcome>)
    returns (ghost t: Trace)
    requires InRun(parser, tag, run, os) && GoesOn(os) && Found(parser, tag, f, fi) && 0 < fi
    requires InScope(parser.open, [tag], false, EndsScope) && !IsTablePart(parser.open[fi - 1].tag)
    requires IsBlock(parser.open, fi, bi) && fi < bi
    modifies parser`nodes, parser`active, parser`open, parser.nodes`parent, parser.nodes`index, parser.nodes`children
    ensures InRun(parser, tag, run + [parser.ListState()], os + [Adopted(fi, bi, t)])
    ensures old(parser.nodes) <= parser.nodes && fresh(parser.nodes - old(parser.nodes))
  {
    t := ReadyRound(parser, f, fi, bi);
    EndsAdopted(run, os, parser.marker, tag, f, fi, bi, t);
  }

  /** The same in a table. */
  method AdoptInTable(parser: Parser, f: Node, fi: nat, bi: nat, ghost tag: Tag, ghost run: seq<State>,
                      ghost os: seq<Outcome>)
    returns (pushed: bool, ghost t: Trace, ghost g: Foster)
    requires InRun(parser, tag, run, os) && GoesOn(os) && Found(parser, tag, f, fi) && 0 < fi
    requires InScope(parser.open, [tag], false, EndsScope) && IsTablePart(parser.open[fi - 1].tag)
    requires IsBlock(parser.open, fi, bi) && fi < bi
    modifies parser`nodes, parser`active, parser`open, parser.nodes`parent, parser.nodes`index, parser.nodes`children
    ensures InRun(parser, tag, run + [parser.ListState()], os + [Fostered(fi, bi, t, g)]) && g.pushed == pushed
    ensures old(parser.nodes) <= parser.nodes && fresh(parser.nodes - old(parser.nodes))
  {
    pushed, t, g := ReadyFoster(parser, f, fi, bi);
    EndsFostered(run, os, parser.marker, tag, f, fi, bi, t, g);
  }

  /** Steps 7 to 15, by the common ancestor. */
  method AdoptEither(parser: Parser, f: Node, fi: nat, bi: nat, ghost tag: Tag, ghost run: seq<State>,
                     ghost os: seq<Outcome>)
    returns (next: Sequel, ghost o: Outcome)
    requires InRun(parser, tag, run, os) && GoesOn(os) && Found(parser, tag, f, fi) && 0 < fi
    requires InScope(parser.open, [tag], false, EndsScope) && IsBlock(parser.open, fi, bi) && fi < bi
    modifies parser`nodes, parser`active, parser`open, parser.nodes`parent, parser.nodes`index, parser.nodes`children
    ensures InRun(parser, tag, run + [parser.ListState()], os + [o]) && next == SequelOf(o)
    ensures old(parser.nodes) <= parser.nodes && fresh(parser.nodes - old(parser.nodes))
  {
    if IsTablePart(parser.open[fi - 1].tag) {
      var pushed;
      ghost var t, g;
      pushed, t, g := AdoptInTable(parser, f, fi, bi, tag, run, os);
      next, o := if pushed then Broken else Another, Fostered(fi, bi, t, g);
    } else {
      ghost var t := AdoptRound(parser, f, fi, bi, tag, run, os);
      next, o := Another, Adopted(fi, bi, t);
    }
  }

  /** Steps 5 to 15: F is open and in scope. */
  method CloseOrAdopt(parser: Parser, f: Node, fi: nat, ghost tag: Tag, ghost run: seq<State>, ghost os: seq<Outcome>)
    returns (next: Sequel, ghost o: Outcome)
    requires InRun(parser, tag, run, os) && GoesOn(os) && Found(parser, tag, f, fi) && 0 < fi
    requires InScope(parser.open, [tag], false, EndsScope) && IsFormatting(f.tag)
    modifies parser`nodes, parser`active, parser`open, parser.nodes`parent, parser.nodes`index, parser.nodes`children
    ensures InRun(parser, tag, run + [parser.ListState()], os + [o]) && next == SequelOf(o)
    ensures old(parser.nodes) <= parser.nodes && fresh(parser.nodes - old(parser.nodes))
  {
    var bi := FindBlock(parser.open, fi);
    FormattingTag(f.tag);
    if bi == -1 {
      CloseRound(parser, f, fi, tag, run, os);
      next, o := Done, Closed(fi);
    } else {
      next, o := AdoptEither(parser, f, fi, bi, tag, run, os);
    }
  }

  /** A round that finds F on the list but not on the stack. */
  method ForgetEntry(parser: Parser, f: Node, ghost tag: Tag, ghost run: seq<State>, ghost os: seq<Outcome>)
    requires InRun(parser, tag, run, os) && GoesOn(os) && f !in parser.open
    requires var k := EntryOf(parser.active, parser.marker, tag); k >= 0 && parser.active[k] == f
    modifies parser`active
    ensures InRun(parser, tag, run + [parser.ListState()], os + [NotOpen])
  {
    EndsNotOpen(run, os, parser.marker, tag, f);
    RemoveEntry(parser, f);
  }

  /** The rest of a round, with F on the stack. */
  method RoundWith(parser: Parser, f: Node, fi: nat, tag: Tag, ghost run: seq<State>, ghost os: seq<Outcome>)
    returns (next: Sequel, ghost o: Outcome)
    requires InRun(parser, tag, run, os) && GoesOn(os) && Found(parser, tag, f, fi)
    modifies parser`nodes, parser`active, parser`open, parser.nodes`parent, parser.nodes`index, parser.nodes`children
    ensures InRun(parser, tag, run + [parser.ListState()], os + [o]) && next == SequelOf(o)
    ensures old(parser.nodes) <= parser.nodes && fresh(parser.nodes - old(parser.nodes))
  {
    var inScope := HasElementInScope(parser.open, [f.tag], false, EndsScope);
    FormattingTag(f.tag);
    if inScope {
      next, o := CloseOrAdopt(parser, f, fi, tag, run, os);
    } else {
      EndsNotInScope(run, os, parser.marker, tag, f);
      next, o := Done, NotInScope;
    }
  }

  /** The rest of a round, with F on the list. */
  method RoundFor(parser: Parser, f: Node, tag: Tag, ghost run: seq<State>, ghost os: seq<Outcome>)
    returns (next: Sequel, ghost o: Outcome)
    requires InRun(parser, tag, run, os) && GoesOn(os)
    requires var k := EntryOf(parser.active, parser.marker, tag); k >= 0 && parser.active[k] == f
    modifies parser`nodes, parser`active, parser`open, parser.nodes`parent, parser.nodes`index, parser.nodes`children
    ensures InRun(parser, tag, run + [parser.ListState()], os + [o]) && next == SequelOf(o)
    ensures old(parser.nodes) <= parser.nodes && fresh(parser.nodes - old(parser.nodes))
  {
    var fi := IndexOf(parser.open, f);
    if fi == -1 {
      ForgetEntry(parser, f, tag, run, os);
      next, o := Done, NotOpen;
    } else {
      next, o := RoundWith(parser, f, fi, tag, run, os);
    }
  }

  /** One round: steps 4 to 15. */
  method OneRound(parser: Parser, tag: Tag, ghost run: seq<State>, ghost os: seq<Outcome>)
    returns (next: Sequel, ghost o: Outcome)
    requires InRun(parser, tag, run, os) && GoesOn(os)
    modifies parser`nodes, parser`active, parser`open, parser.nodes`parent, parser.nodes`index, parser.nodes`children
    ensures InRun(parser, tag, run + [parser.ListState()], os + [o]) && next == SequelOf(o)
    ensures old(parser.nodes) <= parser.nodes && fresh(parser.nodes - old(parser.nodes))
  {
    var k := FindEntry(parser.active, parser.marker, tag);
    if k == -1 {
      EndsNoEntry(run, os, parser.marker, tag);
      next, o := Done, NoEntry;
    } else {
      next, o := RoundFor(parser, parser.active[k], tag, run, os);
    }
  }

  /** One more round of a run. */
  method Extend(parser: Parser, tag: Tag, ghost run: seq<State>, ghost os: seq<Outcome>)
    returns (next: Sequel, ghost more: seq<State>, ghost all: seq<Outcome>)
    requires InRun(parser, tag, run, os) && GoesOn(os)
    modifies parser`nodes, parser`active, parser`open, parser.nodes`parent, parser.nodes`index, parser.nodes`children
    ensures InRun(parser, tag, more, all) && |all| == |os| + 1 && more[0] == run[0]
    ensures (next == Another <==> GoesOn(all)) && (next == Broken <==> Lost(all))
    ensures old(parser.nodes) <= parser.nodes && fresh(parser.nodes - old(parser.nodes))
  {
    ghost var o;
    next, o := OneRound(parser, tag, run, os);
    more, all := run + [parser.ListState()], os + [o];
  }

  /** The loop of adoption_agency_algorithm. */
  method Rounds(parser: Parser, tag: Tag)
    returns (r: bool, lost: bool, ghost run: seq<State>, ghost os: seq<Outcome>)
    requires RoundStart(parser)
    modifies parser`nodes, parser`active, parser`open, parser.nodes`parent, parser.nodes`index, parser.nodes`children
    ensures parser.Valid() && parser.ListValid() && (RoundStart(parser) <==> !lost) && (lost <==> Lost(os))
    ensures old(parser.nodes) <= parser.nodes && fresh(parser.nodes - old(parser.nodes))
    ensures Runs(run, os, parser.marker, tag) && 0 < |os| <= 8
    ensures run[0] == old(parser.ListState()) && Reached(run) == parser.ListState()
    ensures (r <==> |os| == 8 && GoesOn(os)) && (|os| < 8 ==> !GoesOn(os))
  {
    run, os := [parser.ListState()], [];
    for i := 0 to 8
      invariant InRun(parser, tag, run, os) && GoesOn(os)
      invariant old(parser.nodes) <= parser.nodes && fresh(parser.nodes - old(parser.nodes))
      invariant |os| == i && run[0] == old(parser.ListState())
    {
      var next;
      next, run, os := Extend(parser, tag, run, os);
      if next != Another {
        return false, next == Broken, run, os;
      }
    }
    return true, false, run, os;
  }

  /**
    adoption_agency_algorithm: at most eight rounds, each of which does what `Follows` says. The stack is ready
    again afterwards unless a round pushed a node that is open already; with such a round the run ends here.
   */
  method AdoptionAgency(parser: Parser, tag: Tag)
    returns (r: bool, lost: bool, ghost run: seq<State>, ghost os: seq<Outcome>)
    requires RoundStart(parser)
    modifies parser`nodes, parser`active, parser`open, parser.nodes`parent, parser.nodes`index, parser.nodes`children
    ensures parser.Valid() && parser.ListValid() && (RoundStart(parser) <==> !lost) && (lost <==> Lost(os))
    ensures old(parser.nodes) <= parser.nodes && fresh(parser.nodes - old(parser.nodes))
    ensures Runs(run, os, parser.marker, tag) && 0 < |os| <= 8
    ensures run[0] == old(parser.ListState()) && Reached(run) == parser.ListState()
    ensures (r <==> |os| == 8 && GoesOn(os)) && (|os| < 8 ==> !GoesOn(os))
    ensures GoesOn(os) <==> var o := os[|os| - 1]; o.Adopted? || (o.Fostered? && !o.g.pushed)
    ensures os[0].NoEntry? <==> NoneSince(old(parser.active), parser.marker, tag)
    ensures os[0].NoEntry? ==> parser.ListState() == old(parser.ListState())
  {
    r, lost, run, os := Rounds(parser, tag);
    FirstRound(run, os, parser.marker, tag);
  }
}
