/**
  What every round of the adoption agency needs and keeps: a stack without repetition, all of
  it in the tree, and every element above html under an element. A round puts the last node
  at some place under an element; wherever that is, the stack afterwards is as good.
 */
module GumboReady {
  import opened GumboTags
  import opened GumboTree
  import opened GumboActive
  import opened GumboParser
  import opened GumboAdoption
  import opened GumboRound
  import opened GumboOrder

  /** A node is the child of an element. */
  ghost predicate HasParent(kids: map<Node, seq<Node>>, x: Node) {
    exists q :: q in kids && q.kind == Element && x in kids[q]
  }

  /** In a coherent tree that is what the parent fields say. */
  lemma ParentIs(nodes: set<Node>, x: Node)
    requires Coherent(nodes) && x in nodes
    ensures HasParent(Kids(nodes), x) <==> x.parent != null && x.parent.kind == Element
  {
    var kids := Kids(nodes);
    if x.parent != null && x.parent.kind == Element {
      assert x.parent in kids && x in kids[x.parent];
    }
  }

  /** An element at position i of the stack: in the tree, and above html under an element. */
  ghost predicate Placed(kids: map<Node, seq<Node>>, x: Node, i: nat) {
    x.kind == Element && x in kids && (i > 0 ==> HasParent(kids, x))
  }

  /** The elements of a stack are placed, and none is there twice. */
  ghost predicate PlacedAll(kids: map<Node, seq<Node>>, open: seq<Node>)
    decreases |open|
  {
    open == [] ||
    var n := |open| - 1;
    PlacedAll(kids, open[..n]) && open[n] !in open[..n] && Placed(kids, open[n], n)
  }

  ghost predicate Ready(s: State) {
    s.open != [] && PlacedAll(s.kids, s.open)
  }

  lemma {:induction false} PlacedAt(kids: map<Node, seq<Node>>, open: seq<Node>, i: nat)
    requires PlacedAll(kids, open) && i < |open|
    ensures Placed(kids, open[i], i) && open[i] !in open[..i]
    decreases |open|
  {
    var n := |open| - 1;
    if i < n {
      PlacedAt(kids, open[..n], i);
      assert open[..n][..i] == open[..i];
    }
  }

  lemma {:induction false} PlaceAll(kids: map<Node, seq<Node>>, open: seq<Node>)
    requires Distinct(open) && forall i :: 0 <= i < |open| ==> Placed(kids, open[i], i)
    ensures PlacedAll(kids, open)
    decreases |open|
  {
    if open != [] {
      PlaceAll(kids, open[..|open| - 1]);
    }
  }

  /** What a round needs of a stack that is ready. */
  lemma ReadyIs(s: State)
    requires Ready(s)
    ensures Proper(s) && forall i :: 0 <= i < |s.open| ==> Placed(s.kids, s.open[i], i)
  {
    forall i | 0 <= i < |s.open|
      ensures Placed(s.kids, s.open[i], i) && s.open[i] !in s.open[..i]
    {
      PlacedAt(s.kids, s.open, i);
    }
    forall i, j | 0 <= i < j < |s.open|
      ensures s.open[i] != s.open[j]
    {
      assert s.open[i] in s.open[..j];
    }
  }

  /** Closing elements keeps a stack ready. */
  lemma {:induction false} PlacedPrefix(kids: map<Node, seq<Node>>, open: seq<Node>, n: nat)
    requires PlacedAll(kids, open) && n <= |open|
    ensures PlacedAll(kids, open[..n])
    decreases |open|
  {
    if n < |open| {
      PlacedPrefix(kids, open[..|open| - 1], n);
      assert open[..|open| - 1][..n] == open[..n];
    } else {
      assert open[..n] == open;
    }
  }

  // ---------------------------------------------------------------------------------
  // A round with the last node at some place
  // ---------------------------------------------------------------------------------

  /** B is where its spot says. */
  ghost predicate SpotOf(kids: map<Node, seq<Node>>, b: Node, spot: Spot) {
    spot.p in kids && spot.at < |kids[spot.p]| && kids[spot.p][spot.at] == b
  }

  /** A place under an element. */
  ghost predicate PlaceIn(kids: map<Node, seq<Node>>, place: Place) {
    place.parent in kids && place.parent.kind == Element && place.at <= |kids[place.parent]|
  }

  /** The tree after the inner loop, with the last node taken out. */
  ghost function LooseKids(s: State, bi: nat, t: Trace): map<Node, seq<Node>>
    requires bi < |s.open|
  {
    Loose(s.kids, t.made, s.open[bi], t.spot)
  }

  /** The tree after a round that put the last node at a place. */
  ghost function PutKids(s: State, bi: nat, t: Trace, place: Place): map<Node, seq<Node>>
    requires bi < |s.open| && PlaceIn(LooseKids(s, bi, t), place)
  {
    var b := s.open[bi];
    Adopt(InsertAt(LooseKids(s, bi, t), place, LastNode(t.made, b)), b, t.nf)
  }

  /** A round outside tables puts it behind the other children of the common ancestor. */
  lemma RoundIsPut(s: State, fi: nat, bi: nat, t: Trace)
    requires Proper(s) && Fits(s, fi, bi, t) && s.open[fi - 1].kind == Element
    ensures var k, p := LooseKids(s, bi, t), s.open[fi - 1];
            && p in k && PlaceIn(k, Place(p, |k[p]|))
            && Round(s, fi, bi, t).kids == PutKids(s, bi, t, Place(p, |k[p]|))
  {
    var k, p := LooseKids(s, bi, t), s.open[fi - 1];
    LooseOld(s, t.lo, t.made, s.open[bi], t.spot, p);
    AppendIsInsert(k, p, LastNode(t.made, s.open[bi]));
  }

  lemma CutKeeps(kids: map<Node, seq<Node>>, b: Node, spot: Spot, q: Node, x: Node)
    requires SpotOf(kids, b, spot) && q in kids && x in kids[q] && x != b
    ensures q in Cut(kids, spot) && x in Cut(kids, spot)[q]
  {
    if q == spot.p {
      var i :| 0 <= i < |kids[q]| && kids[q][i] == x;
      assert Cut(kids, spot)[q][if i < spot.at then i else i - 1] == x;
    }
  }

  lemma InsertKeeps(s: seq<Node>, at: nat, x: Node)
    requires at <= |s|
    ensures var r := s[..at] + [x] + s[at..]; x in r && forall y :: y in s ==> y in r
  {
    var r := s[..at] + [x] + s[at..];
    assert r[at] == x;
    forall y | y in s
      ensures y in r
    {
      var i :| 0 <= i < |s| && s[i] == y;
      assert r[if i < at then i else i + 1] == y;
    }
  }

  lemma InsertMembers(kids: map<Node, seq<Node>>, place: Place, last: Node, q: Node, x: Node)
    requires PlaceIn(kids, place) && q in kids && x in kids[q]
    ensures var k := InsertAt(kids, place, last); q in k && x in k[q] && last in k[place.parent]
  {
    InsertKeeps(kids[place.parent], place.at, last);
  }

  /** What has an element above it keeps one when the last node is put and F's clone takes B's children. */
  lemma AdoptedParent(kids: map<Node, seq<Node>>, b: Node, nf: Node, q: Node, x: Node)
    requires q in kids && q.kind == Element && x in kids[q] && nf !in kids && nf.kind == Element
    ensures HasParent(Adopt(kids, b, nf), x)
  {
    var k := Adopt(kids, b, nf);
    if q == b {
      assert x in k[nf];
    } else {
      assert x in k[q];
    }
  }

  lemma PutParent(kids: map<Node, seq<Node>>, place: Place, last: Node, b: Node, nf: Node, x: Node)
    requires PlaceIn(kids, place) && nf !in kids && nf.kind == Element && (x == last || HasParent(kids, x))
    ensures HasParent(Adopt(InsertAt(kids, place, last), b, nf), x)
  {
    var k := InsertAt(kids, place, last);
    if x == last {
      var s := kids[place.parent];
      assert (s[..place.at] + [last] + s[place.at..])[place.at] == last;
      AdoptedParent(k, b, nf, place.parent, x);
    } else {
      var q :| q in kids && q.kind == Element && x in kids[q];
      InsertMembers(kids, place, last, q, x);
      AdoptedParent(k, b, nf, q, x);
    }
  }

  /** After the inner loop an element other than B still has an element above it. */
  lemma LooseParent(s: State, fi: nat, bi: nat, t: Trace, x: Node)
    requires Proper(s) && Fits(s, fi, bi, t) && SpotOf(s.kids, s.open[bi], t.spot)
    requires x != s.open[bi] && HasParent(s.kids, x)
    ensures HasParent(LooseKids(s, bi, t), x)
  {
    var b := s.open[bi];
    var q :| q in s.kids && q.kind == Element && x in s.kids[q];
    CutKeeps(s.kids, b, t.spot, q, x);
    LooseOld(s, t.lo, t.made, b, t.spot, q);
    assert x in LooseKids(s, bi, t)[q];
  }

  lemma {:induction false} ChainParent(cs: seq<Node>, b: Node, k: map<Node, seq<Node>>, i: nat)
    requires Links(cs, b, k) && i < |cs| && forall c :: c in cs ==> c.kind == Element
    ensures HasParent(k, (cs + [b])[i + 1])
    decreases i
  {
    if i == 0 {
      assert (cs[1..] + [b])[0] == (cs + [b])[1];
      assert (cs + [b])[1] in k[cs[0]];
    } else {
      ChainParent(cs[1..], b, k, i - 1);
      assert (cs[1..] + [b])[i] == (cs + [b])[i + 1];
    }
  }

  lemma ChainParents(cs: seq<Node>, b: Node, k: map<Node, seq<Node>>, x: Node)
    requires Links(cs, b, k) && (forall c :: c in cs ==> c.kind == Element) && x in cs + [b]
    ensures x == (cs + [b])[0] || HasParent(k, x)
  {
    var all := cs + [b];
    var i :| 0 <= i < |all| && all[i] == x;
    if i > 0 {
      ChainParent(cs, b, k, i - 1);
    }
  }

  /** The clones and B hang under each other, but for the last node. */
  lemma CloneParent(s: State, fi: nat, bi: nat, t: Trace, x: Node)
    requires Proper(s) && Fits(s, fi, bi, t) && (forall i :: 0 <= i < |s.open| ==> s.open[i].kind == Element)
    requires x in Some(t.made) || x == s.open[bi]
    ensures x == LastNode(t.made, s.open[bi]) || HasParent(LooseKids(s, bi, t), x)
  {
    var b, cs := s.open[bi], Some(t.made);
    forall c | c in cs
      ensures c.kind == Element
    {
      ClonesAreElements(s, t.lo, t.made, c);
    }
    LastIsHead(t.made, b);
    LooseChain(s, t.lo, t.made, b, t.spot);
    assert x in cs + [b];
    ChainParents(cs, b, LooseKids(s, bi, t), x);
  }

  /** Which nodes there are after the inner loop. */
  lemma LooseDomain(s: State, fi: nat, bi: nat, t: Trace, x: Node)
    requires Proper(s) && Fits(s, fi, bi, t)
    ensures x in LooseKids(s, bi, t) <==> x in s.kids || x in Some(t.made)
  {
    MadeInTree(s.kids, t.made, s.open[bi], t.spot, x);
    SomeMembers(t.made, x);
  }

  /** Everything a round has on the stack above html is in the tree, under an element. */
  lemma PutStands(s: State, fi: nat, bi: nat, t: Trace, place: Place, x: Node)
    requires Ready(s) && Fits(s, fi, bi, t) && SpotOf(s.kids, s.open[bi], t.spot) && PlaceIn(LooseKids(s, bi, t), place)
    requires x == t.nf || x in Some(t.made) || x in s.open[1..]
    ensures Placed(PutKids(s, bi, t, place), x, 1)
  {
    var b, k := s.open[bi], LooseKids(s, bi, t);
    ReadyIs(s);
    assert Placed(s.kids, s.open[fi], fi) && Placed(s.kids, b, bi);
    LooseDomain(s, fi, bi, t, x);
    LooseDomain(s, fi, bi, t, t.nf);
    LooseDomain(s, fi, bi, t, b);
    SomeMembers(t.made, t.nf);
    if x == t.nf {
      assert t.nf in PutKids(s, bi, t, place)[b];
    } else {
      if x in Some(t.made) || x == b {
        CloneParent(s, fi, bi, t, x);
        if x in Some(t.made) {
          ClonesAreElements(s, t.lo, t.made, x);
        }
      } else {
        var i :| 0 < i < |s.open| && s.open[i] == x;
        assert Placed(s.kids, s.open[i], i);
        LooseParent(s, fi, bi, t, x);
      }
      PutParent(k, place, LastNode(t.made, b), b, t.nf, x);
    }
  }

  /** The stack after a round: its bottom, and above it elements from above it and clones. */
  lemma RoundStackAt(open: seq<Node>, fi: nat, bi: nat, t: Trace, i: nat)
    requires 0 < fi < t.lo <= bi < |open| && i < |RoundStack(open, fi, bi, t)|
    ensures var x := RoundStack(open, fi, bi, t)[i];
            if i == 0 then x == open[0] else x == t.nf || x in Some(t.made) || x in open[1..]
  {
    var kept, r := open[fi + 1..t.lo] + Some(t.made), RoundStack(open, fi, bi, t);
    var n := fi + |kept|;
    if 0 < i < fi {
      assert r[i] == open[1..][i - 1];
    } else if fi <= i < n {
      assert r[i] == kept[i - fi];
      if i - fi < t.lo - fi - 1 {
        assert kept[i - fi] == open[1..][i];
      }
    } else if i == n {
      assert r[i] == open[1..][bi - 1];
    } else if i >= n + 2 {
      assert r[i] == open[bi + 1..][i - n - 2] == open[1..][bi + i - n - 2];
    }
  }

  /** Wherever under an element a round puts the last node, the stack it leaves is ready for the next one. */
  lemma PutReady(s: State, fi: nat, bi: nat, t: Trace, place: Place)
    requires Ready(s) && Fits(s, fi, bi, t) && SpotOf(s.kids, s.open[bi], t.spot) && PlaceIn(LooseKids(s, bi, t), place)
    ensures PlacedAll(PutKids(s, bi, t, place), RoundStack(s.open, fi, bi, t))
  {
    var kids, open := PutKids(s, bi, t, place), RoundStack(s.open, fi, bi, t);
    ReadyIs(s);
    RoundDistinct(s, fi, bi, t);
    forall i | 0 <= i < |open|
      ensures Placed(kids, open[i], i)
    {
      RoundStackAt(s.open, fi, bi, t, i);
      if i == 0 {
        assert Placed(s.kids, s.open[0], 0);
        LooseDomain(s, fi, bi, t, s.open[0]);
      } else {
        PutStands(s, fi, bi, t, place, open[i]);
      }
    }
    PlaceAll(kids, open);
  }

  /** A round outside tables leaves a stack that is ready. */
  lemma RoundReady(s: State, fi: nat, bi: nat, t: Trace)
    requires Ready(s) && Fits(s, fi, bi, t) && SpotOf(s.kids, s.open[bi], t.spot)
    ensures Ready(Round(s, fi, bi, t))
  {
    var k, p := LooseKids(s, bi, t), s.open[fi - 1];
    ReadyIs(s);
    assert Placed(s.kids, p, fi - 1);
    RoundIsPut(s, fi, bi, t);
    PutReady(s, fi, bi, t, Place(p, |k[p]|));
    RoundOpen(s, fi, bi, t);
  }
}
