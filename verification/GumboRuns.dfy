/**
  Runs of the tree builder's operations on the stack and the list: elements are opened and
  closed, formatting elements and markers are listed, the list is reconstructed and cleared,
  foster parenting is switched on and off, and the adoption agency runs. Over every run the
  list keeps its bound of three, and it is known how much of the stack the adoption agency
  could work on.
 */
module GumboRuns {
  import opened GumboTags
  import opened GumboTree
  import opened GumboStack
  import opened GumboActive
  import opened GumboParser
  import opened GumboAdoption
  import opened GumboRound
  import opened GumboReady
  import opened GumboFoster
  import opened GumboOutcome
  import opened GumboMarkers
  import opened GumboAgency

  // ---------------------------------------------------------------------------------
  // The stretches of list and stack
  // ---------------------------------------------------------------------------------

  /** A node pushed any number of times and listed at the end, or not open and the marker. */
  lemma StretchesAdd(list: seq<Node>, open: seq<Node>, marker: Node, node: Node, tail: seq<Node>)
    requires Stretches(list, open, marker) && node !in open && marker !in open && (node == marker || node !in list)
    requires forall x :: x in tail ==> x == node != marker
    ensures Stretches(list + [node], open + tail, marker)
  {
    var l, o := list + [node], open + tail;
    forall i: nat, j: nat, a: nat, b: nat, p: nat | i < j < |o| && Splits(l, o, marker, i, j, a, b, p)
      ensures p < b
    {
      if j < |open| {
        assert Splits(list, open, marker, i, j, a, b, p);
      } else {
        assert o[j] in tail;
      }
    }
  }

  /** Nodes pushed that are not listed. */
  lemma StretchesOpen(list: seq<Node>, open: seq<Node>, marker: Node, tail: seq<Node>)
    requires Stretches(list, open, marker) && forall x :: x in tail ==> x !in list
    ensures Stretches(list, open + tail, marker)
  {
    var o := open + tail;
    DifferentMembers(tail, list);
    assert forall j :: |open| <= j < |o| ==> o[j] == tail[j - |open|];
    forall i: nat, j: nat, a: nat, b: nat, p: nat | i < j < |o| && Splits(list, o, marker, i, j, a, b, p)
      ensures p < b
    {
      if j < |open| {
        assert Splits(list, open, marker, i, j, a, b, p);
      }
    }
  }

  lemma DifferentMembers(xs: seq<Node>, ys: seq<Node>)
    requires forall x :: x in xs ==> x !in ys
    ensures forall m, n :: 0 <= m < |xs| && 0 <= n < |ys| ==> xs[m] != ys[n]
  {
    forall m, n | 0 <= m < |xs| && 0 <= n < |ys|
      ensures xs[m] != ys[n]
    {
      assert xs[m] in xs;
    }
  }

  /** Clones in place of the entries behind a position, pushed in any number. */
  lemma StretchesSplice(list: seq<Node>, open: seq<Node>, marker: Node, start: nat, clones: seq<Node>, tail: seq<Node>)
    requires Stretches(list, open, marker) && start + |clones| == |list| && marker !in clones
    requires forall x :: x in clones ==> x !in list && x !in open
    requires forall x :: x in tail ==> x in clones
    ensures Stretches(Splice(list, start, clones), open + tail, marker)
  {
    var l, o := Splice(list, start, clones), open + tail;
    assert l == list[..start] + clones;
    DifferentMembers(clones, open);
    DifferentMembers(tail, list);
    assert forall m :: 0 <= m < start ==> l[m] == list[m];
    assert forall m :: start <= m < |l| ==> l[m] == clones[m - start];
    forall i: nat, j: nat, a: nat, b: nat, p: nat | i < j < |o| && Splits(l, o, marker, i, j, a, b, p)
      ensures p < b
    {
      if j < |open| {
        assert Splits(list, open, marker, i, j, a, b, p);
      } else {
        assert o[j] == tail[j - |open|];
      }
    }
  }

  lemma StretchesFront(list: seq<Node>, open: seq<Node>, marker: Node, n: nat)
    requires Stretches(list, open, marker) && n <= |list|
    ensures Stretches(list[..n], open, marker)
  {
    forall i: nat, j: nat, a: nat, b: nat, p: nat | i < j < |open| && Splits(list[..n], open, marker, i, j, a, b, p)
      ensures p < b
    {
      assert Splits(list, open, marker, i, j, a, b, p);
    }
  }

  // ---------------------------------------------------------------------------------
  // The stack
  // ---------------------------------------------------------------------------------

  /** Every node keeps its children, and may get more. */
  ghost predicate Grows(k: map<Node, seq<Node>>, l: map<Node, seq<Node>>) {
    forall q :: q in k ==> q in l && forall x :: x in k[q] ==> x in l[q]
  }

  lemma {:induction false} PlacedGrows(k: map<Node, seq<Node>>, l: map<Node, seq<Node>>, open: seq<Node>)
    requires PlacedAll(k, open) && Grows(k, l)
    ensures PlacedAll(l, open)
    decreases |open|
  {
    if open != [] {
      var n := |open| - 1;
      PlacedGrows(k, l, open[..n]);
      if n > 0 {
        var q :| q in k && q.kind == Element && open[n] in k[q];
        assert open[n] in l[q];
      }
    }
  }

  /** A new element under the current node keeps the stack ready. */
  lemma ReadyInsert(kids: map<Node, seq<Node>>, open: seq<Node>, x: Node)
    requires open != [] && PlacedAll(kids, open) && open[|open| - 1] in kids
    requires x.kind == Element && x !in open && x !in kids
    ensures PlacedAll(WithLastChild(kids, open[|open| - 1], x), open + [x])
  {
    var n := |open| - 1;
    PlacedAt(kids, open, n);
    var l := WithLastChild(kids, open[n], x);
    PlacedGrows(kids, l, open);
    assert (open + [x])[..n + 1] == open;
    assert l[open[n]][|kids[open[n]]|] == x;
  }

  lemma LastGrows(kids: map<Node, seq<Node>>, q: Node, x: Node)
    requires q in kids && x !in kids
    ensures var l := WithLastChild(kids, q, x); Grows(kids, l) && x in l && (q.kind == Element ==> HasParent(l, x))
  {
    assert (kids[q] + [x])[|kids[q]|] == x;
  }

  lemma LastMember(xs: seq<Node>)
    requires xs != []
    ensures Members(xs) == Members(xs[..|xs| - 1]) + {xs[|xs| - 1]}
  {
    var n := |xs| - 1;
    assert xs == xs[..n] + [xs[n]];
  }

  /** Reconstruction adds the clones to the tree and takes no child from anywhere. */
  lemma {:induction false} ReconstructedGrows(s: State, start: nat, clones: seq<Node>)
    requires s.Ok() && start + |clones| <= |s.list| && NewClones(s, start, clones)
    ensures var kids := Reconstructed(s, start, clones).kids;
            Grows(s.kids, kids) && kids.Keys == s.kids.Keys + Members(clones)
    decreases |clones|
  {
    if clones == [] {
      assert Members(clones) == {};
    } else {
      var n := |clones| - 1;
      ReconstructedGrows(s, start, clones[..n]);
      LastMember(clones);
      var r := Reconstructed(s, start, clones[..n]);
      LastGrows(r.kids, r.Current(), clones[n]);
    }
  }

  lemma {:induction false} ReadyReconstructed(s: State, start: nat, clones: seq<Node>)
    requires Ready(s) && s.Ok() && start + |clones| <= |s.list| && NewClones(s, start, clones)
    requires forall c :: c in clones ==> c.kind == Element
    ensures Ready(Reconstructed(s, start, clones))
    decreases |clones|
  {
    if clones != [] {
      var n := |clones| - 1;
      ReadyReconstructed(s, start, clones[..n]);
      ReconstructedGrows(s, start, clones[..n]);
      ReadyNext(Reconstructed(s, start, clones[..n]), start + n, clones[n]);
    }
  }

  lemma ReadyNext(r: State, i: nat, c: Node)
    requires Ready(r) && r.Ok() && i < |r.list| && c.kind == Element && c !in r.kids
    ensures Ready(Next(r, i, c))
  {
    ReadyIs(r);
    ReadyInsert(r.kids, r.open, c);
  }

  /**
    How far up the stack is fit for the adoption agency: the elements below a height are all
    different and under elements, and the one there, if it is not the top, is open below it already.
   */
  ghost predicate FitTo(kids: map<Node, seq<Node>>, open: seq<Node>, n: nat) {
    0 < n <= |open| && PlacedAll(kids, open[..n]) && (n < |open| ==> open[n] in open[..n])
  }

  /** The stack is ready exactly when all of it is fit. */
  lemma FitIsReady(s: State, n: nat)
    requires FitTo(s.kids, s.open, n)
    ensures Ready(s) <==> n == |s.open|
  {
    if n == |s.open| {
      assert s.open[..n] == s.open;
    } else if Ready(s) {
      PlacedAt(s.kids, s.open, n);
      assert false;
    }
  }

  /** A stack that is fit in part stays so while nodes get children and elements are pushed. */
  lemma FitStays(k: map<Node, seq<Node>>, l: map<Node, seq<Node>>, open: seq<Node>, n: nat, tail: seq<Node>)
    requires FitTo(k, open, n) && Grows(k, l) && n < |open|
    ensures FitTo(l, open + tail, n)
  {
    PlacedGrows(k, l, open[..n]);
    assert (open + tail)[..n] == open[..n];
  }

  /** A new element, pushed once or twice. */
  lemma FitPush(k: map<Node, seq<Node>>, l: map<Node, seq<Node>>, open: seq<Node>, n: nat, x: Node, twice: bool)
    requires FitTo(k, open, n) && Grows(k, l) && x.kind == Element && x in l && HasParent(l, x) && x !in open
    ensures FitTo(l, open + (if twice then [x, x] else [x]), if n == |open| then n + 1 else n)
  {
    var all := open + if twice then [x, x] else [x];
    if n < |open| {
      FitStays(k, l, open, n, if twice then [x, x] else [x]);
    } else {
      assert open[..n] == open;
      PlacedGrows(k, l, open);
      assert all[..n + 1] == open + [x] && (open + [x])[..n] == open;
      assert all[..n + 1][n] == x;
    }
  }

  /** An element put at a place among the children of another. */
  lemma PutGrows(kids: map<Node, seq<Node>>, x: Node, place: Place)
    requires x !in kids && place.parent in kids && place.parent.kind == Element && place.at <= |kids[place.parent]|
    ensures var l := InsertAt(kids[x := []], place, x); Grows(kids, l) && x in l && HasParent(l, x)
  {
    var l := InsertAt(kids[x := []], place, x);
    InsertKeeps(kids[place.parent], place.at, x);
    assert l[place.parent] == kids[place.parent][..place.at] + [x] + kids[place.parent][place.at..];
    assert forall q :: q in kids && q != place.parent ==> l[q] == kids[q];
  }

  /** How far the stack is fit after a reconstruction. */
  lemma FitReconstructed(s: State, start: nat, clones: seq<Node>, n: nat)
    requires FitTo(s.kids, s.open, n) && s.Ok() && start + |clones| <= |s.list| && NewClones(s, start, clones)
    requires forall c :: c in clones ==> c.kind == Element
    ensures var r := Reconstructed(s, start, clones);
            r.open == s.open + clones && FitTo(r.kids, r.open, if n == |s.open| then |r.open| else n)
  {
    ReconstructedLists(s, start, clones);
    if n < |s.open| {
      ReconstructedGrows(s, start, clones);
      FitStays(s.kids, Reconstructed(s, start, clones).kids, s.open, n, clones);
    } else {
      FitIsReady(s, n);
      ReadyReconstructed(s, start, clones);
      var r := Reconstructed(s, start, clones);
      assert r.open[..|r.open|] == r.open;
    }
  }

  // ---------------------------------------------------------------------------------
  // Edits
  // ---------------------------------------------------------------------------------

  /** What the insertion modes do to the stack and the list. */
  datatype ListEdit =
    | Open(tag: Tag, ns: Namespace, attributes: seq<Attribute>)
    | AddElement(tag: Tag, ns: Namespace, attributes: seq<Attribute>)
    | AddMarker
    | Rebuild
    | Clear
    | Close(n: nat)
    | Foster(on: bool)
    | Adopt(tag: Tag)

  /** What is listed is formatting, with the attributes of a token; html stays open. */
  predicate CanRun(e: ListEdit) {
    match e
    case AddElement(tag, ns, attributes) => IsFormatting(tag) && Unique(attributes)
    case Close(n) => n > 0
    case _ => true
  }

  /** The list is orderly next to the stack, which is fit up to a height. */
  ghost predicate ListReady(parser: Parser, fit: nat)
    reads parser, parser.nodes
  {
    && parser.Valid() && parser.ListValid() && Orderly(parser.active, parser.open, parser.marker)
    && FitTo(Kids(parser.nodes), parser.open, fit)
  }

  lemma OpenIsNoMarker(parser: Parser)
    requires parser.Valid() && parser.ListValid()
    ensures parser.marker !in parser.open && Listed(parser.ListState(), parser.marker)
  {
  }

  /** Insertions are fostered and there is no table to insert before. */
  ghost predicate NoPlace(parser: Parser)
    reads parser
    requires parser.open != []
  {
    parser.Fosters() && IsTableAt(parser.open, -1)
  }

  /** On a stack that is ready every table has a place in front of it. */
  lemma TableHasPlace(parser: Parser, k: int)
    requires parser.Valid() && Ready(parser.ListState()) && IsTableAt(parser.open, k)
    ensures parser.HasPlace(k) <==> k != -1
    ensures IsTableAt(parser.open, -1) <==> k == -1
  {
    if k >= 0 {
      PlacedAt(Kids(parser.nodes), parser.open, k);
      ParentIs(parser.nodes, parser.open[k]);
    }
  }

  lemma FitTable(parser: Parser, fit: nat, k: int)
    requires ListReady(parser, fit) && IsTableAt(parser.open, k)
    ensures fit == |parser.open| ==> (parser.HasPlace(k) <==> k != -1) && (IsTableAt(parser.open, -1) <==> k == -1)
  {
    FitIsReady(parser.ListState(), fit);
    if fit == |parser.open| {
      TableHasPlace(parser, k);
    }
  }

  lemma FitTables(parser: Parser, fit: nat)
    requires ListReady(parser, fit)
    ensures fit == |parser.open| ==> forall k :: IsTableAt(parser.open, k) ==>
      (parser.HasPlace(k) <==> k != -1) && (IsTableAt(parser.open, -1) <==> k == -1)
  {
    forall k | IsTableAt(parser.open, k) && fit == |parser.open|
      ensures (parser.HasPlace(k) <==> k != -1) && (IsTableAt(parser.open, -1) <==> k == -1)
    {
      FitTable(parser, fit, k);
    }
  }

  /** What is fit of the stack after a new element was pushed. */
  function FitWith(fit: nat, height: nat): nat {
    if fit == height then fit + 1 else fit
  }

  method OpenFostered(parser: Parser, tag: Tag, ns: Namespace, attributes: seq<Attribute>, ghost fit: nat)
    returns (node: Node, ghost twice: bool)
    requires ListReady(parser, fit) && parser.Fosters()
    modifies parser`open, parser`nodes, parser.nodes`parent, parser.nodes`index, parser.nodes`children
    ensures parser.Valid() && parser.ListValid() && fresh(node) && parser.nodes == old(parser.nodes) + {node}
    ensures node.kind == Element && node.tag == tag && node.ns == ns && node.attributes == attributes
    ensures parser.open == old(parser.open) + if twice then [node, node] else [node]
    ensures FitTo(Kids(parser.nodes), parser.open, FitWith(fit, |old(parser.open)|))
    ensures fit == |old(parser.open)| ==> (twice <==> IsTableAt(old(parser.open), -1))
  {
    ghost var kids := Kids(parser.nodes);
    FitTables(parser, fit);
    ghost var k;
    node, k := parser.OpenFostered(tag, ns, attributes);
    twice := !old(parser.HasPlace(k));
    PutGrows(kids, node, old(parser.FosterPlace(k)));
    FitPush(kids, Kids(parser.nodes), old(parser.open), fit, node, twice);
  }

  method OpenUnder(parser: Parser, tag: Tag, ns: Namespace, attributes: seq<Attribute>, ghost fit: nat)
    returns (node: Node)
    requires parser.Valid() && parser.ListValid() && FitTo(Kids(parser.nodes), parser.open, fit) && !parser.Fosters()
    modifies parser`open, parser`nodes, parser.nodes`parent, parser.nodes`index, parser.nodes`children
    ensures parser.Valid() && parser.ListValid() && fresh(node) && parser.nodes == old(parser.nodes) + {node}
    ensures node.kind == Element && node.tag == tag && node.ns == ns && node.attributes == attributes
    ensures parser.open == old(parser.open) + [node]
    ensures Kids(parser.nodes) == WithLastChild(old(Kids(parser.nodes)), old(parser.Current()), node)
    ensures FitTo(Kids(parser.nodes), parser.open, FitWith(fit, |old(parser.open)|))
  {
    ghost var kids, open := Kids(parser.nodes), parser.open;
    node := parser.OpenHere(tag, ns, attributes);
    LastGrows(kids, open[|open| - 1], node);
    FitPush(kids, Kids(parser.nodes), open, fit, node, false);
  }

  /** A new element is inserted; from a ready stack it is open twice exactly when it is fostered without a table. */
  method OpenNew(parser: Parser, tag: Tag, ns: Namespace, attributes: seq<Attribute>, ghost fit: nat)
    returns (node: Node, ghost twice: bool)
    requires ListReady(parser, fit)
    modifies parser`open, parser`nodes, parser.nodes`parent, parser.nodes`index, parser.nodes`children
    ensures parser.Valid() && parser.ListValid() && fresh(node) && parser.nodes == old(parser.nodes) + {node}
    ensures node.kind == Element && node.tag == tag && node.ns == ns && node.attributes == attributes
    ensures parser.open == old(parser.open) + if twice then [node, node] else [node]
    ensures FitTo(Kids(parser.nodes), parser.open, FitWith(fit, |old(parser.open)|))
    ensures (twice ==> old(parser.Fosters())) && (fit == |old(parser.open)| ==> (twice <==> old(NoPlace(parser))))
  {
    if parser.Fosters() {
      node, twice := OpenFostered(parser, tag, ns, attributes, fit);
    } else {
      twice := false;
      node := OpenUnder(parser, tag, ns, attributes, fit);
    }
  }

  /** The stack with a new element on it. */
  predicate IsOpened(s: State, r: State, node: Node, twice: bool) {
    && node !in s.kids && r.kids.Keys == s.kids.Keys + {node}
    && r.open == s.open + if twice then [node, node] else [node]
  }

  method OpenElement(parser: Parser, tag: Tag, ns: Namespace, attributes: seq<Attribute>, fit: nat)
    returns (r: nat, node: Node, ghost twice: bool)
    requires ListReady(parser, fit)
    modifies parser`open, parser`nodes, parser.nodes`parent, parser.nodes`index, parser.nodes`children
    ensures ListReady(parser, r) && r == FitWith(fit, |old(parser.open)|)
    ensures fit == |old(parser.open)| ==> (r == |parser.open| <==> !old(NoPlace(parser)))
    ensures old(parser.nodes) <= parser.nodes && fresh(parser.nodes - old(parser.nodes))
    ensures IsOpened(old(parser.ListState()), parser.ListState(), node, twice) && (twice ==> old(parser.Fosters()))
    ensures node.tag == tag && node.ns == ns && node.attributes == attributes
  {
    r := FitWith(fit, |parser.open|);
    ghost var open := parser.open;
    node, twice := OpenNew(parser, tag, ns, attributes, fit);
    assert node !in parser.active;
    StretchesOpen(parser.active, open, parser.marker, if twice then [node, node] else [node]);
  }

  /** A new formatting element is inserted and put on the list. */
  method AddNew(parser: Parser, tag: Tag, ns: Namespace, attributes: seq<Attribute>, fit: nat)
    returns (r: nat, node: Node, ghost twice: bool, ghost gone: int)
    requires ListReady(parser, fit) && IsFormatting(tag) && Unique(attributes)
    modifies parser`open, parser`active, parser`nodes, parser.nodes`parent, parser.nodes`index, parser.nodes`children
    ensures ListReady(parser, r) && r == FitWith(fit, |old(parser.open)|)
    ensures fit == |old(parser.open)| ==> (r == |parser.open| <==> !old(NoPlace(parser)))
    ensures old(parser.nodes) <= parser.nodes && fresh(parser.nodes - old(parser.nodes))
    ensures IsOpened(old(parser.ListState()), parser.ListState(), node, twice) && (twice ==> old(parser.Fosters()))
    ensures node.tag == tag && node.ns == ns && node.attributes == attributes
    ensures IsAdded(old(parser.active), parser.marker, node, gone, parser.active)
  {
    OpenIsNoMarker(parser);
    r := FitWith(fit, |parser.open|);
    ghost var list, open := parser.active, parser.open;
    node, twice := OpenNew(parser, tag, ns, attributes, fit);
    gone := parser.AddFormatting(node);
    AddedOrderly(list, open, parser.marker, node, gone, parser.active, if twice then [node, node] else [node]);
  }

  /** What is added to an orderly list. */
  lemma AddedOrderly(list: seq<Node>, open: seq<Node>, marker: Node, node: Node,
                     gone: int, after: seq<Node>, tail: seq<Node>)
    requires Orderly(list, open, marker) && IsAdded(list, marker, node, gone, after)
    requires Entries(after, marker) && Ark(after, marker)
    requires node !in open && marker !in open && (node == marker || node !in list)
    requires forall x :: x in tail ==> x == node != marker
    ensures Orderly(after, open + tail, marker)
  {
    var base := if gone == -1 then list else Without(list, gone);
    if gone != -1 {
      StretchesWithout(list, open, marker, gone);
      WithoutDistinct(list, marker, gone);
      WithoutShape(list, gone);
    }
    StretchesAdd(base, open, marker, node, tail);
  }

  method AddMark(parser: Parser, ghost fit: nat) returns (ghost gone: int)
    requires ListReady(parser, fit)
    modifies parser`active
    ensures ListReady(parser, fit) && IsAdded(old(parser.active), parser.marker, parser.marker, gone, parser.active)
  {
    OpenIsNoMarker(parser);
    ghost var list := parser.active;
    gone := parser.AddFormatting(parser.marker);
    AddedOrderly(list, parser.open, parser.marker, parser.marker, gone, parser.active, []);
    assert parser.open + [] == parser.open;
  }

  method ClearList(parser: Parser, ghost fit: nat)
    requires ListReady(parser, fit)
    modifies parser`active
    ensures ListReady(parser, fit) && parser.active == old(parser.ClearedList())
  {
    var k := LastMarker(parser.active, parser.marker);
    StretchesFront(parser.active, parser.open, parser.marker, if k < 0 then 0 else k);
    parser.ClearToMarker();
  }

  /** Popping can make a stack fit again. */
  method CloseTo(parser: Parser, n: nat, fit: nat) returns (r: nat)
    requires ListReady(parser, fit) && n > 0
    modifies parser`open
    ensures ListReady(parser, r) && r == if n < fit then n else fit
    ensures parser.open == if n < |old(parser.open)| then old(parser.open)[..n] else old(parser.open)
  {
    ghost var open := parser.open;
    while |parser.open| > n
      invariant |parser.open| <= |open| && parser.open == open[..|parser.open|]
      invariant |open| > n ==> |parser.open| >= n
      invariant |open| <= n ==> parser.open == open
      decreases |parser.open|
      modifies parser`open
    {
      var _ := parser.Pop();
    }
    r := if n < fit then n else fit;
    StretchesPrefix(parser.active, open, parser.marker, |parser.open|);
    FitPrefix(Kids(parser.nodes), open, fit, |parser.open|);
  }

  lemma FitPrefix(kids: map<Node, seq<Node>>, open: seq<Node>, fit: nat, h: nat)
    requires FitTo(kids, open, fit) && 0 < h <= |open|
    ensures FitTo(kids, open[..h], if h < fit then h else fit)
  {
    var n := if h < fit then h else fit;
    PlacedPrefix(kids, open[..fit], n);
    assert open[..h][..n] == open[..n] == open[..fit][..n];
  }

  lemma DistinctSplice(list: seq<Node>, marker: Node, start: nat, clones: seq<Node>)
    requires ListDistinct(list, marker) && start + |clones| == |list| && Distinct(clones)
    requires forall x :: x in clones ==> x !in list
    ensures ListDistinct(Splice(list, start, clones), marker)
  {
    var l := Splice(list, start, clones);
    DifferentMembers(clones, list);
    assert forall m :: start <= m < |l| ==> l[m] == clones[m - start];
    assert forall m :: 0 <= m < start ==> l[m] == list[m];
  }

  /** What reconstruction leaves of an orderly list, whatever number of clones is pushed. */
  lemma RebuiltOrderly(s: State, marker: Node, start: nat, clones: seq<Node>, tail: seq<Node>)
    requires Listed(s, marker) && Orderly(s.list, s.open, marker) && start + |clones| == |s.list|
    requires AreClones(clones, s.list, start) && (forall j :: start <= j < |s.list| ==> s.list[j] != marker)
    requires Distinct(clones) && (forall c :: c in clones ==> c !in s.kids) && forall x :: x in s.open ==> x in s.kids
    requires forall x :: x in tail ==> x in clones
    ensures ListDistinct(Splice(s.list, start, clones), marker)
    ensures Stretches(Splice(s.list, start, clones), s.open + tail, marker)
  {
    forall j | 0 <= j < |clones|
      ensures clones[j] != marker && clones[j] !in s.list && clones[j] !in s.open
    {
      assert s.list[start + j] in s.list && clones[j] in clones;
    }
    DistinctSplice(s.list, marker, start, clones);
    StretchesSplice(s.list, s.open, marker, start, clones, tail);
  }

  /** What a reconstruction pushes whose first clone was fostered. */
  function FosteredTail(clones: seq<Node>, placed: bool): seq<Node>
    requires clones != []
  {
    (if placed then [] else [clones[0]]) + clones
  }

  lemma FosteredOpen(u: State, open: seq<Node>, start: nat, clones: seq<Node>, placed: bool)
    requires u.Ok() && clones != [] && start + |clones| <= |u.list|
    requires u.open == open + if placed then [clones[0]] else [clones[0], clones[0]]
    ensures Reconstructed(u, start + 1, clones[1..]).open == open + FosteredTail(clones, placed)
  {
    ReconstructedLists(u, start + 1, clones[1..]);
    assert clones == [clones[0]] + clones[1..];
  }

  /** The clones of such a reconstruction are new and different from each other. */
  lemma FosteredClones(s: State, start: nat, clones: seq<Node>, place: Place, placed: bool)
    requires s.Ok() && clones != [] && start + |clones| == |s.list| && clones[0] !in s.kids
    requires place.parent in s.kids && place.at <= |s.kids[place.parent]|
    requires NewClones(FosteredNext(s, start, clones[0], place, placed), start + 1, clones[1..])
    ensures Distinct(clones) && forall c :: c in clones ==> c !in s.kids
  {
    var u := FosteredNext(s, start, clones[0], place, placed);
    NewClonesAre(u, start + 1, clones[1..]);
    DistinctCons(clones, s.kids, u.kids);
  }

  lemma DistinctCons(clones: seq<Node>, kids: map<Node, seq<Node>>, more: map<Node, seq<Node>>)
    requires clones != [] && clones[0] !in kids && more.Keys == kids.Keys + {clones[0]} && Distinct(clones[1..])
    requires forall c :: c in clones[1..] ==> c !in more
    ensures Distinct(clones) && forall c :: c in clones ==> c !in kids
  {
    assert clones == [clones[0]] + clones[1..];
    assert forall i :: 0 < i < |clones| ==> clones[i] == clones[1..][i - 1];
  }

  /** Whether reconstruction has anything to do. */
  ghost predicate Rebuilds(parser: Parser)
    reads parser
  {
    LastKept(parser.active, parser.open, parser.marker) + 1 < |parser.active|
  }

  /** The clones of a fostered reconstruction, and how far the stack is fit after it. */
  lemma FosteredFit(s: State, start: nat, clones: seq<Node>, place: Place, placed: bool, fit: nat)
    requires s.Ok() && clones != [] && start + |clones| == |s.list| && clones[0] !in s.kids
    requires place.parent in s.kids && place.parent.kind == Element && place.at <= |s.kids[place.parent]|
    requires NewClones(FosteredNext(s, start, clones[0], place, placed), start + 1, clones[1..])
    requires FitTo(s.kids, s.open, fit) && clones[0] !in s.open && forall c :: c in clones ==> c.kind == Element
    ensures var r := Reconstructed(FosteredNext(s, start, clones[0], place, placed), start + 1, clones[1..]);
            && r.open == s.open + FosteredTail(clones, placed)
            && FitTo(r.kids, r.open, if fit < |s.open| then fit else if placed then |r.open| else fit + 1)
  {
    var u := FosteredNext(s, start, clones[0], place, placed);
    PutGrows(s.kids, clones[0], place);
    FitPush(s.kids, u.kids, s.open, fit, clones[0], !placed);
    FosteredOpen(u, s.open, start, clones, placed);
    assert forall c :: c in clones[1..] ==> c in clones;
    FitReconstructed(u, start + 1, clones[1..], FitWith(fit, |s.open|));
  }

  /** The last parts of what a list keeps, after a fostered reconstruction. */
  lemma FosteredOrderly(s: State, marker: Node, start: nat, clones: seq<Node>, place: Place, placed: bool)
    requires s.Ok() && clones != [] && start + |clones| == |s.list| && clones[0] !in s.kids
    requires place.parent in s.kids && place.at <= |s.kids[place.parent]|
    requires NewClones(FosteredNext(s, start, clones[0], place, placed), start + 1, clones[1..])
    requires Listed(s, marker) && Orderly(s.list, s.open, marker) && AreClones(clones, s.list, start)
    requires (forall j :: start <= j < |s.list| ==> s.list[j] != marker) && forall x :: x in s.open ==> x in s.kids
    ensures ListDistinct(Splice(s.list, start, clones), marker)
    ensures Stretches(Splice(s.list, start, clones), s.open + FosteredTail(clones, placed), marker)
  {
    FosteredClones(s, start, clones, place, placed);
    RebuiltOrderly(s, marker, start, clones, FosteredTail(clones, placed));
  }

  /** Clones in the place of the entries that are not open, pushed in their order; the first one perhaps twice. */
  predicate IsRebuilt(s: State, r: State, marker: Node, start: nat, clones: seq<Node>, twice: bool) {
    && start == LastKept(s.list, s.open, marker) + 1 && start + |clones| == |s.list|
    && AreClones(clones, s.list, start) && Distinct(clones) && (forall c :: c in clones ==> c !in s.kids)
    && r.list == Splice(s.list, start, clones)
    && r.open == s.open + if clones == [] then [] else FosteredTail(clones, !twice)
  }

  /** What a reconstruction that is not fostered keeps. */
  lemma RebuiltWell(s: State, marker: Node, start: nat, clones: seq<Node>, fit: nat, u: State)
    requires s.Ok() && start == LastKept(s.list, s.open, marker) + 1 && start + |clones| == |s.list|
    requires NewClones(s, start, clones) && u == Reconstructed(s, start, clones)
    requires Listed(s, marker) && Orderly(s.list, s.open, marker) && AreClones(clones, s.list, start)
    requires (forall x :: x in s.open ==> x in s.kids) && FitTo(s.kids, s.open, fit)
    requires forall c :: c in clones ==> c.kind == Element
    requires u.list == Splice(s.list, start, clones) && Entries(u.list, marker) && Ark(u.list, marker)
    ensures Orderly(u.list, u.open, marker) && IsRebuilt(s, u, marker, start, clones, false)
    ensures FitTo(u.kids, u.open, if fit < |s.open| then fit else |u.open|)
  {
    NewClonesAre(s, start, clones);
    FitReconstructed(s, start, clones, fit);
    RebuiltOrderly(s, marker, start, clones, clones);
    ReconstructedLists(s, start, clones);
    assert [] + clones == clones && s.open + [] == s.open;
  }

  method RebuildHere(parser: Parser, fit: nat) returns (r: nat, ghost start: nat, ghost clones: seq<Node>)
    requires ListReady(parser, fit) && !parser.Fosters()
    modifies parser`open, parser`active, parser`nodes, parser.nodes`parent, parser.nodes`index, parser.nodes`children
    ensures ListReady(parser, r) && r == if fit < |old(parser.open)| then fit else |parser.open|
    ensures old(parser.nodes) <= parser.nodes && fresh(parser.nodes - old(parser.nodes))
    ensures IsRebuilt(old(parser.ListState()), parser.ListState(), parser.marker, start, clones, false)
  {
    var h := |parser.open|;
    ghost var s := parser.ListState();
    OpenIsNoMarker(parser);
    ghost var k;
    start, clones, k := parser.Reconstruct();
    r := if fit < h then fit else |parser.open|;
    RebuiltWell(s, parser.marker, start, clones, fit, parser.ListState());
  }

  /** What a fostered reconstruction keeps. */
  lemma FosteredWell(s: State, marker: Node, start: nat, clones: seq<Node>, place: Place, placed: bool, fit: nat,
                     u: State)
    requires s.Ok() && clones != [] && start + |clones| == |s.list| && clones[0] !in s.kids
    requires place.parent in s.kids && place.parent.kind == Element && place.at <= |s.kids[place.parent]|
    requires NewClones(FosteredNext(s, start, clones[0], place, placed), start + 1, clones[1..])
    requires Listed(s, marker) && Orderly(s.list, s.open, marker) && AreClones(clones, s.list, start)
    requires (forall j :: start <= j < |s.list| ==> s.list[j] != marker) && forall x :: x in s.open ==> x in s.kids
    requires FitTo(s.kids, s.open, fit) && forall c :: c in clones ==> c.kind == Element
    requires u == Reconstructed(FosteredNext(s, start, clones[0], place, placed), start + 1, clones[1..])
    requires u.list == Splice(s.list, start, clones) && Entries(u.list, marker) && Ark(u.list, marker)
    ensures Orderly(u.list, u.open, marker) && u.open == s.open + FosteredTail(clones, placed)
    ensures Distinct(clones) && forall c :: c in clones ==> c !in s.kids
    ensures FitTo(u.kids, u.open, if fit < |s.open| then fit else if placed then |u.open| else fit + 1)
    ensures |u.open| > |s.open| && (!placed ==> |u.open| > |s.open| + 1)
  {
    FosteredClones(s, start, clones, place, placed);
    FosteredOrderly(s, marker, start, clones, place, placed);
    FosteredFit(s, start, clones, place, placed, fit);
  }

  lemma OneTable(open: seq<Node>, j: int, k: int)
    requires IsTableAt(open, j) && IsTableAt(open, k)
    ensures j == k
  {
  }

  /** Reconstruction in front of the table found, if it has a place there. */
  method RebuildAt(parser: Parser, ghost fit: nat, ghost table: int)
    returns (ghost start: nat, ghost clones: seq<Node>, ghost twice: bool)
    requires ListReady(parser, fit) && parser.Fosters() && IsTableAt(parser.open, table)
    modifies parser`open, parser`active, parser`nodes, parser.nodes`parent, parser.nodes`index, parser.nodes`children
    ensures parser.Valid() && parser.ListValid() && Orderly(parser.active, parser.open, parser.marker)
    ensures old(parser.nodes) <= parser.nodes && fresh(parser.nodes - old(parser.nodes))
    ensures if old(Rebuilds(parser)) then |parser.open| > |old(parser.open)| else parser.open == old(parser.open)
    ensures IsRebuilt(old(parser.ListState()), parser.ListState(), parser.marker, start, clones, twice)
    ensures twice <==> old(Rebuilds(parser)) && !old(parser.HasPlace(table))
    ensures var h := |old(parser.open)|;
            && (twice ==> |parser.open| > h + 1)
            && FitTo(Kids(parser.nodes), parser.open, if fit < h then fit else if twice then h + 1 else |parser.open|)
  {
    ghost var s := parser.ListState();
    OpenIsNoMarker(parser);
    ghost var k;
    start, clones, k := parser.Reconstruct();
    twice := clones != [] && !old(parser.HasPlace(table));
    if clones != [] {
      OneTable(s.open, k, table);
      FosteredWell(s, parser.marker, start, clones, old(parser.FosterPlace(table)), old(parser.HasPlace(table)), fit,
                   parser.ListState());
    }
  }

  method RebuildFostered(parser: Parser, fit: nat)
    returns (r: nat, ghost start: nat, ghost clones: seq<Node>, ghost twice: bool)
    requires ListReady(parser, fit) && parser.Fosters()
    modifies parser`open, parser`active, parser`nodes, parser.nodes`parent, parser.nodes`index, parser.nodes`children
    ensures ListReady(parser, r) && (fit < |old(parser.open)| ==> r == fit)
    ensures fit == |old(parser.open)| ==>
      (r == |parser.open| <==> !(IsTableAt(old(parser.open), -1) && old(Rebuilds(parser))))
    ensures IsRebuilt(old(parser.ListState()), parser.ListState(), parser.marker, start, clones, twice)
    ensures old(parser.nodes) <= parser.nodes && fresh(parser.nodes - old(parser.nodes))
  {
    var h := |parser.open|;
    var table := parser.FindTable();
    FitTable(parser, fit, table);
    start, clones, twice := RebuildAt(parser, fit, table);
    r := if fit < h then fit else if table == -1 && |parser.open| > h then h + 1 else |parser.open|;
  }

  /**
    Reconstruction. From a ready stack it leaves an element open twice exactly when it has something
    to do and is fostered without a table.
   */
  method RebuildList(parser: Parser, fit: nat)
    returns (r: nat, ghost start: nat, ghost clones: seq<Node>, ghost twice: bool)
    requires ListReady(parser, fit)
    modifies parser`open, parser`active, parser`nodes, parser.nodes`parent, parser.nodes`index, parser.nodes`children
    ensures ListReady(parser, r) && (fit < |old(parser.open)| ==> r == fit)
    ensures fit == |old(parser.open)| ==> (r == |parser.open| <==> !(old(NoPlace(parser)) && old(Rebuilds(parser))))
    ensures IsRebuilt(old(parser.ListState()), parser.ListState(), parser.marker, start, clones, twice)
    ensures twice ==> old(parser.Fosters())
    ensures old(parser.nodes) <= parser.nodes && fresh(parser.nodes - old(parser.nodes))
  {
    if parser.Fosters() {
      r, start, clones, twice := RebuildFostered(parser, fit);
    } else {
      r, start, clones := RebuildHere(parser, fit);
      twice := false;
    }
  }

  /** A round that pushes leaves a stack that is fit up to its top. */
  lemma PushedFit(s: State, fi: nat, bi: nat, t: Trace, g: Foster)
    requires Ready(s) && Fits(s, fi, bi, t) && FitsFoster(s, bi, t, g) && SpotOf(s.kids, s.open[bi], t.spot) && g.pushed
    ensures var r := FosterState(s, fi, bi, t, g); |r.open| > 0 && FitTo(r.kids, r.open, |r.open| - 1)
  {
    var r, stack, last := FosterState(s, fi, bi, t, g), RoundStack(s.open, fi, bi, t), LastNode(t.made, s.open[bi]);
    ReadyIs(s);
    PutReady(s, fi, bi, t, g.place);
    RoundDistinct(s, fi, bi, t);
    FosterRepeats(s, fi, bi, t, true);
    assert r.open == stack + [last] && r.open[..|stack|] == stack;
    assert last !in stack ==> Distinct(stack + [last]);
  }

  lemma RunFit(run: seq<State>, os: seq<Outcome>, marker: Node, tag: Tag)
    requires Runs(run, os, marker, tag) && Kept(run[0], marker)
    ensures var r := Reached(run); FitTo(r.kids, r.open, if Lost(os) then |r.open| - 1 else |r.open|)
  {
    var r := Reached(run);
    RunsKept(run, os, marker, tag);
    if Lost(os) {
      var n := |os| - 1;
      RunsKept(run[..n + 1], os[..n], marker, tag);
      var o := os[n];
      PushedFit(run[n], o.fi, o.bi, o.t, o.g);
    } else {
      assert r.open[..|r.open|] == r.open;
    }
  }

  /** The rounds of an adoption agency: as many as it goes on for, and no more than eight. */
  ghost predicate IsAdopted(s: State, r: State, marker: Node, tag: Tag, run: seq<State>, os: seq<Outcome>) {
    && Runs(run, os, marker, tag) && run[0] == s && Reached(run) == r
    && 0 < |os| <= 8 && (|os| < 8 ==> !GoesOn(os))
  }

  /** The adoption agency, on a fit stack; the answer says whether a round pushed a node that is open already. */
  method AdoptTag(parser: Parser, tag: Tag) returns (lost: bool, ghost run: seq<State>, ghost os: seq<Outcome>)
    requires ListReady(parser, |parser.open|)
    modifies parser`open, parser`active, parser`nodes, parser.nodes`parent, parser.nodes`index, parser.nodes`children
    ensures parser.open != [] && ListReady(parser, if lost then |parser.open| - 1 else |parser.open|)
    ensures IsAdopted(old(parser.ListState()), parser.ListState(), parser.marker, tag, run, os) && (lost <==> Lost(os))
    ensures old(parser.nodes) <= parser.nodes && fresh(parser.nodes - old(parser.nodes))
  {
    OpenIsNoMarker(parser);
    FitIsReady(parser.ListState(), |parser.open|);
    var r;
    r, lost, run, os := AdoptionAgency(parser, tag);
    RunsKept(run, os, parser.marker, tag);
    RunFit(run, os, parser.marker, tag);
  }

  // ---------------------------------------------------------------------------------
  // Runs
  // ---------------------------------------------------------------------------------

  /**
    How a run ends: with its last edit, with an adoption that pushed a node that is open already, or
    before an adoption on a stack that is not fit.
   */
  datatype Ending = Completed | Pushed | Unfit

  /** The lists, the tree and the flag at one moment. */
  datatype Moment = Moment(state: State, fosters: bool)

  ghost function Now(parser: Parser): Moment
    reads parser, parser.nodes
  {
    Moment(parser.ListState(), parser.fosterParent)
  }

  /** What an edit made on the way: a node and the entry that made room for it, clones, rounds. */
  datatype Effect =
    | Made(node: Node, twice: bool, gone: int)
    | Cloned(start: nat, clones: seq<Node>, again: bool)
    | Went(run: seq<State>, os: seq<Outcome>)
    | Nothing

  predicate IsMade(e: ListEdit, s: State, r: State, x: Effect)
    requires e.Open? || e.AddElement?
  {
    && x.Made? && IsOpened(s, r, x.node, x.twice)
    && x.node.tag == e.tag && x.node.ns == e.ns && x.node.attributes == e.attributes
  }

  /** An element is open twice only where insertions are fostered. */
  predicate MayRepeat(m: Moment, x: Effect) {
    (x.Made? && x.twice) || (x.Cloned? && x.again) ==>
      m.fosters && m.state.open != [] && IsTablePart(m.state.open[|m.state.open| - 1].tag)
  }

  /** What each edit does to the list, the stack and the flag. */
  ghost predicate Edits(m: Moment, n: Moment, marker: Node, e: ListEdit, x: Effect) {
    var s, r := m.state, n.state;
    MayRepeat(m, x) && n.fosters == (if e.Foster? then e.on else m.fosters) &&
    match e
    case Open(_, _, _) => IsMade(e, s, r, x) && r.list == s.list
    case AddElement(_, _, _) => IsMade(e, s, r, x) && IsAdded(s.list, marker, x.node, x.gone, r.list)
    case AddMarker => x.Made? && r == s.(list := r.list) && IsAdded(s.list, marker, marker, x.gone, r.list)
    case Rebuild => x.Cloned? && IsRebuilt(s, r, marker, x.start, x.clones, x.again)
    case Clear => r == s.(list := var k := LastMarker(s.list, marker); if k < 0 then [] else s.list[..k])
    case Close(h) => r == s.(open := if h < |s.open| then s.open[..h] else s.open)
    case Foster(_) => r == s
    case Adopt(tag) => x.Went? && IsAdopted(s, r, marker, tag, x.run, x.os)
  }

  method ApplyOpen(parser: Parser, e: ListEdit, fit: nat) returns (r: nat, ghost x: Effect)
    requires ListReady(parser, fit) && CanRun(e) && (e.Open? || e.AddElement?)
    modifies parser`open, parser`active, parser`nodes, parser.nodes`parent, parser.nodes`index, parser.nodes`children
    ensures ListReady(parser, r) && old(parser.nodes) <= parser.nodes && fresh(parser.nodes - old(parser.nodes))
    ensures Edits(old(Now(parser)), Now(parser), parser.marker, e, x)
  {
    var node;
    ghost var twice, gone := false, -1;
    match e {
      case Open(tag, ns, attributes) => r, node, twice := OpenElement(parser, tag, ns, attributes, fit);
      case AddElement(tag, ns, attributes) => r, node, twice, gone := AddNew(parser, tag, ns, attributes, fit);
    }
    x := Made(node, twice, gone);
  }

  method ApplyToList(parser: Parser, e: ListEdit, ghost fit: nat) returns (ghost x: Effect)
    requires ListReady(parser, fit) && (e.AddMarker? || e.Clear?)
    modifies parser`active
    ensures ListReady(parser, fit) && Edits(old(Now(parser)), Now(parser), parser.marker, e, x)
  {
    if e.AddMarker? {
      ghost var gone := AddMark(parser, fit);
      x := Made(parser.marker, false, gone);
    } else {
      x := Nothing;
      ClearList(parser, fit);
    }
  }

  lemma EditsRebuild(m: Moment, n: Moment, marker: Node, start: nat, clones: seq<Node>, again: bool)
    requires IsRebuilt(m.state, n.state, marker, start, clones, again) && n.fosters == m.fosters
    requires MayRepeat(m, Cloned(start, clones, again))
    ensures Edits(m, n, marker, Rebuild, Cloned(start, clones, again))
  {
  }

  method ApplyRebuild(parser: Parser, fit: nat) returns (r: nat, ghost x: Effect)
    requires ListReady(parser, fit)
    modifies parser`open, parser`active, parser`nodes, parser.nodes`parent, parser.nodes`index, parser.nodes`children
    ensures ListReady(parser, r) && old(parser.nodes) <= parser.nodes && fresh(parser.nodes - old(parser.nodes))
    ensures Edits(old(Now(parser)), Now(parser), parser.marker, Rebuild, x)
  {
    ghost var start, clones, twice;
    r, start, clones, twice := RebuildList(parser, fit);
    x := Cloned(start, clones, twice);
    EditsRebuild(old(Now(parser)), Now(parser), parser.marker, start, clones, twice);
  }

  method ApplyEdit(parser: Parser, e: ListEdit, fit: nat) returns (r: nat, end: Ending, ghost x: Effect)
    requires ListReady(parser, fit) && CanRun(e)
    modifies parser`open, parser`active, parser`nodes, parser`fosterParent
    modifies parser.nodes`parent, parser.nodes`index, parser.nodes`children
    ensures ListReady(parser, r) && old(parser.nodes) <= parser.nodes && fresh(parser.nodes - old(parser.nodes))
    ensures end == Unfit <==> e.Adopt? && fit < |old(parser.open)|
    ensures end == Unfit ==> r == fit && Now(parser) == old(Now(parser))
    ensures end == Pushed ==> e.Adopt? && r == |parser.open| - 1
    ensures end != Unfit ==> Edits(old(Now(parser)), Now(parser), parser.marker, e, x)
  {
    r, end, x := fit, Completed, Nothing;
    match e
    case Open(_, _, _) => r, x := ApplyOpen(parser, e, fit);
    case AddElement(_, _, _) => r, x := ApplyOpen(parser, e, fit);
    case Close(n) => r := CloseTo(parser, n, fit);
    case Foster(on) => parser.fosterParent := on;
    case Adopt(tag) => r, end, x := AdoptIfFit(parser, tag, fit);
    case Rebuild => r, x := ApplyRebuild(parser, fit);
    case _ => x := ApplyToList(parser, e, fit);
  }

  method AdoptIfFit(parser: Parser, tag: Tag, fit: nat) returns (r: nat, end: Ending, ghost x: Effect)
    requires ListReady(parser, fit)
    modifies parser`open, parser`active, parser`nodes, parser.nodes`parent, parser.nodes`index, parser.nodes`children
    ensures ListReady(parser, r) && old(parser.nodes) <= parser.nodes && fresh(parser.nodes - old(parser.nodes))
    ensures end == Unfit <==> fit < |old(parser.open)|
    ensures end == Unfit ==> r == fit && parser.ListState() == old(parser.ListState())
    ensures end == Pushed ==> r == |parser.open| - 1
    ensures end != Unfit ==>
      x.Went? && IsAdopted(old(parser.ListState()), parser.ListState(), parser.marker, tag, x.run, x.os)
  {
    if fit < |parser.open| {
      return fit, Unfit, Nothing;
    }
    ghost var run, os;
    var lost;
    lost, run, os := AdoptTag(parser, tag);
    x := Went(run, os);
    if lost {
      return |parser.open| - 1, Pushed, x;
    }
    return |parser.open|, Completed, x;
  }

  /** A run: what one edit leaves is where the next begins. */
  ghost predicate IsRun(run: seq<Moment>, xs: seq<Effect>, marker: Node, edits: seq<ListEdit>) {
    && |run| == |xs| + 1 && |xs| <= |edits|
    && forall i :: 0 <= i < |xs| ==> Edits(run[i], run[i + 1], marker, edits[i], xs[i])
  }

  lemma RunGoesOn(run: seq<Moment>, xs: seq<Effect>, marker: Node, edits: seq<ListEdit>, m: Moment, x: Effect)
    requires IsRun(run, xs, marker, edits) && |xs| < |edits| && Edits(run[|xs|], m, marker, edits[|xs|], x)
    ensures IsRun(run + [m], xs + [x], marker, edits)
  {
    var more, ys := run + [m], xs + [x];
    forall i | 0 <= i < |ys|
      ensures Edits(more[i], more[i + 1], marker, edits[i], ys[i])
    {
      if i < |xs| {
        assert more[i] == run[i] && more[i + 1] == run[i + 1] && ys[i] == xs[i];
      }
    }
  }

  lemma ArkEverywhere(list: seq<Node>, marker: Node)
    requires Ark(list, marker)
    ensures forall key, i, j :: 0 <= i <= j <= |list| && marker !in list[i..j] ==> Count(list[i..j], key) <= 3
  {
    forall key, i, j | 0 <= i <= j <= |list| && marker !in list[i..j]
      ensures Count(list[i..j], key) <= 3
    {
      ArkSegments(list, marker, key, i, j);
    }
  }

  /** One more edit at the end of a run. */
  method EditNext(parser: Parser, edits: seq<ListEdit>, done: nat, fit: nat,
                  ghost run: seq<Moment>, ghost xs: seq<Effect>)
    returns (r: nat, end: Ending, ghost more: seq<Moment>, ghost ys: seq<Effect>)
    requires ListReady(parser, fit) && done < |edits| && CanRun(edits[done])
    requires |xs| == done && IsRun(run, xs, parser.marker, edits) && run[done] == Now(parser)
    modifies parser`open, parser`active, parser`nodes, parser`fosterParent
    modifies parser.nodes`parent, parser.nodes`index, parser.nodes`children
    ensures ListReady(parser, r) && old(parser.nodes) <= parser.nodes && fresh(parser.nodes - old(parser.nodes))
    ensures |ys| == (if end == Unfit then done else done + 1) && IsRun(more, ys, parser.marker, edits)
    ensures more[0] == run[0] && more[|ys|] == Now(parser)
    ensures end != Completed ==> edits[done].Adopt? && r < |parser.open|
  {
    ghost var x;
    r, end, x := ApplyEdit(parser, edits[done], fit);
    more, ys := run, xs;
    if end != Unfit {
      RunGoesOn(run, xs, parser.marker, edits, Now(parser), x);
      more, ys := run + [Now(parser)], xs + [x];
    }
  }

  /** The edits one after the other, as far as they go. */
  method RunEdits(parser: Parser, edits: seq<ListEdit>, fit: nat)
    returns (r: nat, end: Ending, ghost run: seq<Moment>, ghost xs: seq<Effect>)
    requires ListReady(parser, fit) && forall i :: 0 <= i < |edits| ==> CanRun(edits[i])
    modifies parser`open, parser`active, parser`nodes, parser`fosterParent
    modifies parser.nodes`parent, parser.nodes`index, parser.nodes`children
    ensures ListReady(parser, r)
    ensures IsRun(run, xs, parser.marker, edits) && run[0] == old(Now(parser)) && run[|xs|] == Now(parser)
    ensures end == Completed ==> |xs| == |edits|
    ensures end == Pushed ==> 0 < |xs| && edits[|xs| - 1].Adopt? && r < |parser.open|
    ensures end == Unfit ==> |xs| < |edits| && edits[|xs|].Adopt? && r < |parser.open|
  {
    var done := 0;
    r, end, run, xs := fit, Completed, [Now(parser)], [];
    while done < |edits| && end == Completed
      invariant |xs| <= done <= |edits| && IsRun(run, xs, parser.marker, edits)
      invariant run[0] == old(Now(parser)) && run[|xs|] == Now(parser) && ListReady(parser, r)
      invariant |xs| == if end == Unfit then done - 1 else done
      invariant end != Completed ==> done > 0 && edits[done - 1].Adopt? && r < |parser.open|
      invariant old(parser.nodes) <= parser.nodes && fresh(parser.nodes - old(parser.nodes))
    {
      r, end, run, xs := EditNext(parser, edits, done, r, run, xs);
      done := done + 1;
    }
  }

  /**
    Over every run no stretch of the list without a marker holds four entries that agree, and it is
    known how far the stack is fit. A run ends early only at an adoption that pushes a node that is
    open already, or before one on a stack that is not fit.
   */
  method RunList(parser: Parser, edits: seq<ListEdit>, fit: nat)
    returns (r: nat, end: Ending, ghost run: seq<Moment>, ghost xs: seq<Effect>)
    requires ListReady(parser, fit) && forall i :: 0 <= i < |edits| ==> CanRun(edits[i])
    modifies parser`open, parser`active, parser`nodes, parser`fosterParent
    modifies parser.nodes`parent, parser.nodes`index, parser.nodes`children
    ensures IsRun(run, xs, parser.marker, edits) && run[0] == old(Now(parser)) && run[|xs|] == Now(parser)
    ensures ListReady(parser, r) && (Ready(parser.ListState()) <==> r == |parser.open|)
    ensures end == Completed ==> |xs| == |edits|
    ensures end == Pushed ==> 0 < |xs| && edits[|xs| - 1].Adopt? && r < |parser.open|
    ensures end == Unfit ==> |xs| < |edits| && edits[|xs|].Adopt? && r < |parser.open|
    ensures forall key, i, j :: 0 <= i <= j <= |parser.active| && parser.marker !in parser.active[i..j] ==>
      Count(parser.active[i..j], key) <= 3
  {
    r, end, run, xs := RunEdits(parser, edits, fit);
    FitIsReady(parser.ListState(), r);
    ArkEverywhere(parser.active, parser.marker);
  }

  /** From a new parser on. */
  method RunFromStart(edits: seq<ListEdit>)
    returns (parser: Parser, r: nat, end: Ending, ghost run: seq<Moment>, ghost xs: seq<Effect>)
    requires forall i :: 0 <= i < |edits| ==> CanRun(edits[i])
    ensures IsRun(run, xs, parser.marker, edits) && run[|xs|] == Now(parser)
    ensures run[0].state.list == [] && |run[0].state.open| == 1 && !run[0].fosters
    ensures ListReady(parser, r) && (Ready(parser.ListState()) <==> r == |parser.open|)
    ensures end == Completed ==> |xs| == |edits|
    ensures end == Pushed ==> 0 < |xs| && edits[|xs| - 1].Adopt? && r < |parser.open|
    ensures end == Unfit ==> |xs| < |edits| && edits[|xs|].Adopt? && r < |parser.open|
    ensures forall key, i, j :: 0 <= i <= j <= |parser.active| && parser.marker !in parser.active[i..j] ==>
      Count(parser.active[i..j], key) <= 3
  {
    parser := new Parser();
    StartIsReady(parser);
    r, end, run, xs := RunList(parser, edits, 1);
  }

  lemma StartIsReady(parser: Parser)
    requires parser.Valid() && parser.ListValid() && |parser.open| == 1 && parser.active == []
    ensures Orderly(parser.active, parser.open, parser.marker) && Ready(parser.ListState())
    ensures FitTo(Kids(parser.nodes), parser.open, 1)
  {
    assert PlacedAll(Kids(parser.nodes), parser.open[..0]);
    assert parser.open[..1] == parser.open;
    forall n, key | 0 <= n <= |parser.active|
      ensures TailCount(parser.active[..n], parser.marker, key) <= 3
    {
    }
  }
}
