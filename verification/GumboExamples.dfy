/**
  States, built by the operations themselves, where a round of the adoption agency does what
  one might not expect.
 */
module GumboExamples {
  import opened GumboTags
  import opened GumboTree
  import opened GumboActive
  import opened GumboParser
  import opened GumboAdoption
  import opened GumboLeaves
  import opened GumboOrder
  import opened GumboReady
  import opened GumboFoster
  import opened GumboMarkers
  import opened GumboAgency
  import opened GumboTreeRuns
  import opened GumboRuns
  import opened GumboCycles

  /** A parser outside tables with the open elements on the rightmost path of a tree. */
  ghost predicate Growing(parser: Parser, tree: Tree, pos: seq<nat>)
    reads parser, parser.nodes
  {
    && parser.Valid() && parser.ListValid() && !parser.fosterParent && Ready(parser.ListState())
    && OnTree(parser.ListState(), tree, pos)
  }

  lemma StartGrowing(parser: Parser) returns (tree: Tree)
    requires parser.Valid() && parser.ListValid() && |parser.open| == 1 && !parser.fosterParent
    requires parser.active == [] && parser.open[0].children == []
    ensures Growing(parser, tree, [0])
  {
    StartIsReady(parser);
    tree := Tree(parser.open[0], []);
    ReadyIs(parser.ListState());
    assert Shape(Kids(parser.nodes), tree) && Plain(tree);
    assert LiesAt(parser.open, Path(tree), [0]);
  }

  /** One more element under the current node. */
  method Grow(parser: Parser, tag: Tag, ghost tree: Tree, ghost pos: seq<nat>)
    returns (node: Node, ghost r: Tree, ghost at: seq<nat>)
    requires Growing(parser, tree, pos)
    modifies parser`open, parser`nodes, parser.nodes`parent, parser.nodes`index, parser.nodes`children
    ensures Growing(parser, r, at) && parser.open == old(parser.open) + [node]
    ensures fresh(node) && parser.nodes == old(parser.nodes) + {node}
    ensures node.kind == Element && node.tag == tag && node.attributes == []
  {
    ghost var s := parser.ListState();
    assert parser.open[..|parser.open|] == parser.open;
    node := OpenUnder(parser, tag, HTML_NS, [], |parser.open|);
    FitIsReady(parser.ListState(), |parser.open|);
    ghost var u := State(s.list, s.open, s.kids[node := []]);
    WithNewNode(s, u, tree, pos, node);
    r, at := InsertOnTree(u, tree, pos, node, parser.active);
  }

  lemma WithNewNode(s: State, u: State, tree: Tree, pos: seq<nat>, x: Node)
    requires OnTree(s, tree, pos) && x !in s.kids && u == State(s.list, s.open, s.kids[x := []])
    ensures OnTree(u, tree, pos) && x !in Nodes(tree) && x !in s.open
  {
    ShapeInMap(s.kids, tree);
    ShapeFrame(s.kids, u.kids, tree);
  }

  /** The elements of a stack that a round works on have elements above them. */
  lemma ReadyParents(parser: Parser, i: nat)
    requires parser.Valid() && Ready(parser.ListState()) && 0 < i < |parser.open|
    ensures parser.open[i].parent != null && parser.open[i].parent.kind == Element
  {
    PlacedAt(Kids(parser.nodes), parser.open, i);
    ParentIs(parser.nodes, parser.open[i]);
  }

  /** A new parser with these elements open, one in the other, and the b at a position on the list. */
  method Build(tags: seq<Tag>, at: nat) returns (parser: Parser, ghost tree: Tree, ghost pos: seq<nat>)
    requires at < |tags| ==> tags[at] == B
    ensures fresh(parser) && fresh(parser.nodes) && Growing(parser, tree, pos)
    ensures TagsOf(parser.open) == [HTML] + tags && Listing(parser.open, parser.active, at)
    decreases |tags|
  {
    if tags == [] {
      parser, tree := Start();
      pos := [0];
    } else {
      var n := |tags| - 1;
      parser, tree, pos := Build(tags[..n], at);
      tree, pos := GrowTag(parser, tags, n, at, tree, pos);
    }
  }

  method GrowTag(parser: Parser, tags: seq<Tag>, n: nat, at: nat, ghost tree: Tree, ghost pos: seq<nat>)
    returns (ghost r: Tree, ghost p: seq<nat>)
    requires Growing(parser, tree, pos) && n == |tags| - 1 && (n == at ==> tags[n] == B)
    requires TagsOf(parser.open) == [HTML] + tags[..n] && Listing(parser.open, parser.active, at)
    modifies parser`open, parser`active, parser`nodes, parser.nodes`parent, parser.nodes`index, parser.nodes`children
    ensures Growing(parser, r, p) && forall x :: x in parser.nodes ==> x in old(parser.nodes) || fresh(x)
    ensures TagsOf(parser.open) == [HTML] + tags && Listing(parser.open, parser.active, at)
  {
    ghost var open := parser.open;
    OneMoreTag(TagsOf(open), tags, n);
    r, p := GrowOne(parser, tags[n], n == at, tree, pos);
    ListingStep(open, parser.open, at);
  }

  /** The element above position `at` is the only one listed, once it is open. */
  predicate Listing(open: seq<Node>, list: seq<Node>, at: nat) {
    list == if |open| <= at + 1 then [] else [open[at + 1]]
  }

  lemma ListingStep(open: seq<Node>, more: seq<Node>, at: nat)
    requires |more| == |open| + 1 && more[..|open|] == open
    ensures Listing(open, [], at) && |open| == at + 1 ==> Listing(more, [more[at + 1]], at)
    ensures forall list :: Listing(open, list, at) && |open| != at + 1 ==> Listing(more, list, at)
  {
    if |open| > at + 1 {
      assert more[..|open|][at + 1] == more[at + 1];
    }
  }

  lemma OneMoreTag(open: seq<Tag>, tags: seq<Tag>, n: nat)
    requires n == |tags| - 1 && open == [HTML] + tags[..n]
    ensures open + [tags[n]] == [HTML] + tags
  {
  }

  function TagsOf(open: seq<Node>): (r: seq<Tag>)
    ensures |r| == |open| && forall i :: 0 <= i < |open| ==> r[i] == open[i].tag
  {
    if open == [] then [] else TagsOf(open[..|open| - 1]) + [open[|open| - 1].tag]
  }

  /** One more element, the first to be listed if so asked. */
  method GrowOne(parser: Parser, tag: Tag, listed: bool, ghost tree: Tree, ghost pos: seq<nat>)
    returns (ghost r: Tree, ghost at: seq<nat>)
    requires Growing(parser, tree, pos) && (listed ==> tag == B && parser.active == [])
    modifies parser`open, parser`active, parser`nodes, parser.nodes`parent, parser.nodes`index, parser.nodes`children
    ensures Growing(parser, r, at) && old(parser.nodes) <= parser.nodes && fresh(parser.nodes - old(parser.nodes))
    ensures |parser.open| == |old(parser.open)| + 1 && parser.open[..|old(parser.open)|] == old(parser.open)
    ensures TagsOf(parser.open) == TagsOf(old(parser.open)) + [tag]
    ensures parser.active == if listed then [parser.open[|old(parser.open)|]] else old(parser.active)
  {
    var node;
    node, r, at := Grow(parser, tag, tree, pos);
    if listed {
      ListFirst(parser, node, r, at);
    }
  }

  method Start() returns (parser: Parser, ghost tree: Tree)
    ensures fresh(parser) && fresh(parser.nodes) && Growing(parser, tree, [0])
    ensures |parser.open| == 1 && parser.active == [] && TagsOf(parser.open) == [HTML] + []
  {
    parser := new Parser();
    tree := StartGrowing(parser);
  }

  method ListFirst(parser: Parser, node: Node, ghost tree: Tree, ghost pos: seq<nat>)
    requires Growing(parser, tree, pos) && parser.active == [] && node in parser.nodes
    requires node.kind == Element && node.tag == B && node.attributes == []
    modifies parser`active
    ensures Growing(parser, tree, pos) && parser.active == [node]
  {
    StartList(parser);
    ghost var gone := parser.AddFormatting(node);
  }

  lemma StartList(parser: Parser)
    requires parser.active == []
    ensures Entries(parser.active, parser.marker) && Ark(parser.active, parser.marker)
  {
    forall n, key | 0 <= n <= |parser.active|
      ensures TailCount(parser.active[..n], parser.marker, key) <= 3
    {
    }
  }

  /**
    A b, four spans and a p: three of the spans leave the stack, and the one that stays is no
    longer on the rightmost path.
   */
  method DeepBlock()
    returns (parser: Parser, ghost s: State, ghost tree: Tree, ghost pos: seq<nat>, ghost t: Trace, ghost r: Tree)
    ensures parser.Valid() && parser.ListValid() && OnTree(s, tree, pos) && Fits(s, 1, 6, t)
    ensures parser.ListState() == Round(s, 1, 6, t) && Shape(parser.ListState().kids, r) && !Lies(parser.open, Path(r))
  {
    parser, tree, pos := Build([B, SPAN, SPAN, SPAN, SPAN, P], 0);
    assert parser.open[0].tag == TagsOf(parser.open)[0] == HTML;
    s := parser.ListState();
    ReadyParents(parser, 6);
    t, r := RoundOnTree(parser, parser.open[1], parser.open[6], 1, 6, tree, pos);
  }

  /**
    A tr without a table, a b and a p: the p is fostered under html and pushed, and is open twice. The insertion
    modes open no tr outside a table; `GumboTables.RunsInTables` says that this does not happen where they hold.
   */
  method PushedBlock() returns (parser: Parser, ghost s: State, ghost t: Trace, ghost g: Foster)
    ensures parser.Valid() && parser.ListValid() && Ready(s) && Fits(s, 2, 3, t) && FitsFoster(s, 3, t, g)
    ensures parser.ListState() == FosterState(s, 2, 3, t, g) && Pushes(s, Lowest(2, 3), 3) && !Distinct(parser.open)
  {
    ghost var tree, pos;
    parser, tree, pos := Build([TR, B, P], 1);
    assert TagsOf(parser.open) == [HTML, TR, B, P];
    s := parser.ListState();
    NoTable(s, parser.open);
    ReadyParents(parser, 2);
    ReadyParents(parser, 3);
    var pushed;
    pushed, t, g := FosterRound(parser, parser.open[2], parser.open[3], 2, 3);
  }

  lemma NoTable(s: State, open: seq<Node>)
    requires Ready(s) && s.open == open && |open| == 4 && open[2].tag == B && open[3].tag == P
    ensures Pushes(s, Lowest(2, 3), 3) && Proper(s)
  {
    ReadyIs(s);
    PushesWhenReady(s, 3, 3);
  }

  /**
    A tr, a b, a p and a table in it: the p is put in front of the table, under itself, and no tree holds it. With
    the table above it the b is not in scope, so that the adoption agency itself runs no such round.
   */
  method LostBlock() returns (parser: Parser, ghost s: State, ghost t: Trace, ghost g: Foster)
    ensures parser.Valid() && parser.ListValid() && Ready(s) && Fits(s, 2, 3, t) && FitsFoster(s, 3, t, g)
    ensures parser.ListState() == FosterState(s, 2, 3, t, g)
    ensures forall r :: Shape(parser.ListState().kids, r) ==> s.open[3] !in Nodes(r)
  {
    ghost var tree, pos;
    parser, tree, pos := Build([TR, B, P, TABLE], 1);
    assert TagsOf(parser.open) == [HTML, TR, B, P, TABLE];
    s := parser.ListState();
    ReadyIs(s);
    TableOnTop(s);
    var pushed;
    ghost var r;
    pushed, t, g, r := FosterRoundOnTree(parser, parser.open[2], 2, 3, tree, pos, 4);
    assert t.made == [];
  }

  lemma TableOnTop(s: State)
    requires Ready(s) && |s.open| == 5 && s.open[4].tag == TABLE
    ensures TopTable(s.open, Lowest(2, 3), 3, 4) && !Pushes(s, Lowest(2, 3), 3)
  {
    ReadyIs(s);
    assert Placed(s.kids, s.open[4], 4);
    PushesWhenReady(s, 3, 3);
  }
}
