/**
  A round of the adoption agency whose common ancestor is part of a table, on values. The last
  node goes in front of a table or, without one, under an element below; then it is pushed
  as well, and the stack holds it twice. When that happens is said of the state before the
  round.
 */
module GumboFoster {
  import opened GumboTags
  import opened GumboTree
  import opened GumboStack
  import opened GumboActive
  import opened GumboParser
  import opened GumboAdoption
  import opened GumboRound
  import opened GumboOrder
  import opened GumboReady

  // ---------------------------------------------------------------------------------
  // The place
  // ---------------------------------------------------------------------------------

  /** Whether the table found on the stack, if there is one, is the child of an element. */
  ghost predicate InFrontOf(kids: map<Node, seq<Node>>, open: seq<Node>, k: int)
    requires k < |open|
  {
    k >= 0 && HasParent(kids, open[k])
  }

  /** Where a fostered node goes: in front of that table, or else last under the element below it, or under html. */
  ghost predicate IsFosterPlace(kids: map<Node, seq<Node>>, open: seq<Node>, k: int, place: Place) {
    && IsTableAt(open, k) && open != [] && k < |open| && PlaceIn(kids, place)
    && if InFrontOf(kids, open, k)
       then place.at < |kids[place.parent]| && kids[place.parent][place.at] == open[k]
       else place.parent == open[if k == -1 then 0 else k - 1] && place.at == |kids[place.parent]|
  }

  lemma FosterPlaceIs(parser: Parser, k: int)
    requires parser.Valid() && IsTableAt(parser.open, k)
    ensures IsFosterPlace(Kids(parser.nodes), parser.open, k, parser.FosterPlace(k))
    ensures parser.HasPlace(k) <==> InFrontOf(Kids(parser.nodes), parser.open, k)
  {
    if k >= 0 {
      ParentIs(parser.nodes, parser.open[k]);
    }
  }

  /** How the last node was fostered: the table found, the place, and whether the node was pushed. */
  datatype Foster = Foster(k: int, place: Place, pushed: bool)

  /** The place is the one for the tree and the stack after the inner loop; the node is pushed without a table. */
  ghost predicate FitsFoster(s: State, bi: nat, t: Trace, g: Foster) {
    && t.lo <= bi < |s.open| && |t.made| == bi - t.lo
    && var kids, open := LooseKids(s, bi, t), OpenAfter(s.open, t.lo, t.made);
    IsFosterPlace(kids, open, g.k, g.place) && g.pushed == !InFrontOf(kids, open, g.k)
  }

  /** What is pushed on top of the stack. */
  function Pushed(s: State, bi: nat, t: Trace, g: Foster): seq<Node>
    requires bi < |s.open|
  {
    if g.pushed then [LastNode(t.made, s.open[bi])] else []
  }

  /** The state after a round whose last node was fostered. */
  ghost function FosterState(s: State, fi: nat, bi: nat, t: Trace, g: Foster): State
    requires Fits(s, fi, bi, t) && FitsFoster(s, bi, t, g)
  {
    State(Round(s, fi, bi, t).list, RoundStack(s.open, fi, bi, t) + Pushed(s, bi, t, g), PutKids(s, bi, t, g.place))
  }

  /** That state from the steps that end the round. */
  ghost function FosterSteps(s: State, fi: nat, bi: nat, t: Trace, g: Foster): State
    requires Fits(s, fi, bi, t) && FitsFoster(s, bi, t, g)
  {
    var f, b := s.open[fi], s.open[bi];
    State(ListFinal(ListAfter(s.list, s.open[t.lo..bi], t.made), f, t.mark, t.nf),
          OpenFinal(OpenAfter(s.open, t.lo, t.made) + Pushed(s, bi, t, g), f, b, t.nf), PutKids(s, bi, t, g.place))
  }

  lemma FosterStepsLead(s: State, fi: nat, bi: nat, t: Trace, g: Foster)
    requires Proper(s) && Fits(s, fi, bi, t) && FitsFoster(s, bi, t, g)
    ensures FosterSteps(s, fi, bi, t, g) == FosterState(s, fi, bi, t, g)
  {
    FosterOpen(s, fi, bi, t, Pushed(s, bi, t, g));
  }

  /** Unless it was pushed, the stack is ready for the next round. */
  lemma FosterReady(s: State, fi: nat, bi: nat, t: Trace, g: Foster)
    requires Ready(s) && Fits(s, fi, bi, t) && FitsFoster(s, bi, t, g) && SpotOf(s.kids, s.open[bi], t.spot)
    ensures Ready(FosterState(s, fi, bi, t, g)) <==> !g.pushed
  {
    ReadyIs(s);
    if g.pushed {
      FosterRepeats(s, fi, bi, t, true);
      var r := FosterState(s, fi, bi, t, g);
      if Ready(r) {
        ReadyIs(r);
        assert false;
      }
    } else {
      PutReady(s, fi, bi, t, g.place);
      assert FosterState(s, fi, bi, t, g).open == RoundStack(s.open, fi, bi, t);
    }
  }

  // ---------------------------------------------------------------------------------
  // Parents after the inner loop
  // ---------------------------------------------------------------------------------

  /** B is the child of one node only, once. */
  ghost predicate Once(kids: map<Node, seq<Node>>, b: Node, spot: Spot) {
    forall q, i :: q in kids && 0 <= i < |kids[q]| && kids[q][i] == b ==> q == spot.p && i == spot.at
  }

  /** What may be on the list is formatting. */
  ghost predicate Formatted(s: State) {
    forall i :: 0 <= i < |s.open| && s.open[i] in s.list ==> IsFormatting(s.open[i].tag)
  }

  lemma CutMembers(kids: map<Node, seq<Node>>, spot: Spot, q: Node, x: Node)
    requires q in Cut(kids, spot) && x in Cut(kids, spot)[q]
    ensures q in kids && x in kids[q]
  {
    var i :| 0 <= i < |Cut(kids, spot)[q]| && Cut(kids, spot)[q][i] == x;
    assert x == kids[q][if q == spot.p && i >= spot.at && spot.at < |kids[q]| then i + 1 else i];
  }

  lemma CutGone(kids: map<Node, seq<Node>>, b: Node, spot: Spot, q: Node)
    requires Once(kids, b, spot) && SpotOf(kids, b, spot) && q in Cut(kids, spot)
    ensures b !in Cut(kids, spot)[q]
  {
    var r := Cut(kids, spot)[q];
    forall i | 0 <= i < |r|
      ensures r[i] != b
    {
      assert r[i] == kids[q][if q == spot.p && i >= spot.at then i + 1 else i];
    }
  }

  lemma {:induction false} LinkedKid(cs: seq<Node>, b: Node, k: map<Node, seq<Node>>, c: Node, x: Node)
    requires Links(cs, b, k) && c in cs && c in k && x in k[c]
    ensures x == b || x in cs
  {
    if c != cs[0] {
      LinkedKid(cs[1..], b, k, c, x);
    } else {
      assert x == (cs[1..] + [b])[0];
    }
  }

  /** After the inner loop B is under an element exactly when a clone was made. */
  lemma BlockParent(s: State, fi: nat, bi: nat, t: Trace)
    requires Proper(s) && Fits(s, fi, bi, t) && (forall i :: 0 <= i < |s.open| ==> s.open[i].kind == Element)
    requires SpotOf(s.kids, s.open[bi], t.spot) && Once(s.kids, s.open[bi], t.spot)
    ensures HasParent(LooseKids(s, bi, t), s.open[bi]) <==> Some(t.made) != []
  {
    var b, k, cs := s.open[bi], LooseKids(s, bi, t), Some(t.made);
    if cs != [] {
      CloneParent(s, fi, bi, t, b);
      LastIsHead(t.made, b);
      ClonesAreElements(s, t.lo, t.made, cs[0]);
      assert cs[0] != b;
    } else if HasParent(k, b) {
      var q :| q in k && q.kind == Element && b in k[q];
      LooseDomain(s, fi, bi, t, q);
      LooseOld(s, t.lo, t.made, b, t.spot, q);
      CutGone(s.kids, b, t.spot, q);
      assert false;
    }
  }

  /** Any other element of the stack is exactly when it was before. */
  lemma OtherParent(s: State, fi: nat, bi: nat, t: Trace, x: Node)
    requires Proper(s) && Fits(s, fi, bi, t) && (forall i :: 0 <= i < |s.open| ==> s.open[i].kind == Element)
    requires SpotOf(s.kids, s.open[bi], t.spot) && x in s.kids && x != s.open[bi]
    ensures HasParent(LooseKids(s, bi, t), x) <==> HasParent(s.kids, x)
  {
    var b, k := s.open[bi], LooseKids(s, bi, t);
    if HasParent(s.kids, x) {
      LooseParent(s, fi, bi, t, x);
    }
    if HasParent(k, x) {
      var q :| q in k && q.kind == Element && x in k[q];
      LooseDomain(s, fi, bi, t, q);
      if q in s.kids {
        LooseOld(s, t.lo, t.made, b, t.spot, q);
        CutMembers(s.kids, t.spot, q, x);
        assert HasParent(s.kids, x);
      } else {
        LooseChain(s, t.lo, t.made, b, t.spot);
        LinkedKid(Some(t.made), b, k, q, x);
        ClonesAreElements(s, t.lo, t.made, x);
      }
    }
  }

  // ---------------------------------------------------------------------------------
  // The table
  // ---------------------------------------------------------------------------------

  /** The lowest position an inner loop visits between F and B. */
  function Lowest(fi: nat, bi: nat): nat {
    if bi - fi <= 4 then fi + 1 else bi - 3
  }

  lemma LowestIs(s: State, fi: nat, bi: nat, t: Trace)
    requires Fits(s, fi, bi, t)
    ensures t.lo == Lowest(fi, bi) && (t.lo == fi + 1 <==> bi - fi <= 4)
  {
  }

  /** The topmost table from the third position on that is not visited; -1 without one. */
  ghost predicate TopTable(open: seq<Node>, lo: nat, hi: nat, k: int) {
    && (k == -1 || (2 <= k < |open| && !(lo <= k < hi) && open[k].Is(TABLE)))
    && forall i :: 2 <= i < |open| && k < i && !(lo <= i < hi) ==> !open[i].Is(TABLE)
  }

  /**
    The last node is pushed: no table is open from the third position on, none of the visited
    elements counting, or the topmost one is not under an element, or it is B and no visited
    element is on the list.
   */
  ghost predicate Pushes(s: State, lo: nat, bi: nat) {
    !exists k :: && TopTable(s.open, lo, bi, k) && 0 <= k < |s.open| && HasParent(s.kids, s.open[k])
                 && (k == bi ==> exists i :: lo <= i < bi && i < |s.open| && s.open[i] in s.list)
  }

  lemma {:induction false} SomeEmpty(s: State, lo: nat, made: seq<Node?>)
    requires MadeFor(s, lo, made) && lo + |made| <= |s.open|
    ensures Some(made) == [] <==> forall i :: lo <= i < lo + |made| ==> s.open[i] !in s.list
    decreases |made|
  {
    if made != [] {
      SomeEmpty(s, lo + 1, made[1..]);
      if made[0] == null {
        assert Some(made) == Some(made[1..]);
      }
    }
  }

  lemma {:induction false} CloneIsNoTable(s: State, lo: nat, made: seq<Node?>, c: Node)
    requires MadeFor(s, lo, made) && Formatted(s) && c in Some(made)
    ensures !c.Is(TABLE)
    decreases |made|
  {
    if c == made[0] {
      MadeAt(s, lo, made, 0);
      FormattingTag(s.open[lo].tag);
    } else {
      CloneIsNoTable(s, lo + 1, made[1..], c);
    }
  }

  /** Where an element of the stack after the inner loop was before. */
  function Origin(lo: nat, hi: nat, clones: nat, k: int): int {
    if k < lo then k else k - clones + (hi - lo)
  }

  lemma OriginIs(open: seq<Node>, lo: nat, made: seq<Node?>, k: nat)
    requires lo + |made| <= |open| && k < |OpenAfter(open, lo, made)|
    ensures var r, c, hi := OpenAfter(open, lo, made), |Some(made)|, lo + |made|;
            if lo <= k < lo + c then r[k] in Some(made)
            else
              var j := Origin(lo, hi, c, k);
              0 <= j < |open| && !(lo <= j < hi) && r[k] == open[j]
  {
    var r, c := OpenAfter(open, lo, made), Some(made);
    if lo <= k < lo + |c| {
      assert r[k] == c[k - lo];
    }
  }

  /** The stack after the inner loop has its topmost table where it was, the visited elements aside. */
  lemma TableStays(s: State, lo: nat, bi: nat, made: seq<Node?>, k: int)
    requires 2 <= lo <= bi < |s.open| && |made| == bi - lo && MadeFor(s, lo, made) && Formatted(s)
    requires IsTableAt(OpenAfter(s.open, lo, made), k)
    ensures var j := Origin(lo, bi, |Some(made)|, k);
            && TopTable(s.open, lo, bi, j) && (j == -1 <==> k == -1)
            && (k >= 0 ==> j < |s.open| && OpenAfter(s.open, lo, made)[k] == s.open[j])
  {
    var r, c := OpenAfter(s.open, lo, made), |Some(made)|;
    var j := Origin(lo, bi, c, k);
    if k >= 0 {
      OriginIs(s.open, lo, made, k);
      if lo <= k < lo + c {
        CloneIsNoTable(s, lo, made, r[k]);
      }
    }
    forall i | 2 <= i < |s.open| && j < i && !(lo <= i < bi)
      ensures !s.open[i].Is(TABLE)
    {
      var m := if i < lo then i else i - (bi - lo) + c;
      assert r[m] == s.open[i];
    }
  }

  lemma OnlyTable(open: seq<Node>, lo: nat, hi: nat, j: int, k: int)
    requires TopTable(open, lo, hi, j) && TopTable(open, lo, hi, k)
    ensures j == k
  {
  }

  /** When the last node is pushed, in terms of the state before the round. */
  lemma PushesExactly(s: State, fi: nat, bi: nat, t: Trace, g: Foster)
    requires Proper(s) && Formatted(s) && (forall i :: 0 <= i < |s.open| ==> s.open[i].kind == Element)
    requires Fits(s, fi, bi, t) && FitsFoster(s, bi, t, g)
    requires SpotOf(s.kids, s.open[bi], t.spot) && Once(s.kids, s.open[bi], t.spot) && t.spot.p.kind == Element
    ensures g.pushed <==> Pushes(s, Lowest(fi, bi), bi)
  {
    LowestIs(s, fi, bi, t);
    TableStays(s, t.lo, bi, t.made, g.k);
    var j := Origin(t.lo, bi, |Some(t.made)|, g.k);
    forall k | TopTable(s.open, t.lo, bi, k)
      ensures k == j
    {
      OnlyTable(s.open, t.lo, bi, j, k);
    }
    SomeEmpty(s, t.lo, t.made);
    if j >= 0 {
      if s.open[j] == s.open[bi] {
        BlockParent(s, fi, bi, t);
        assert s.open[bi] in s.kids[t.spot.p];
      } else {
        OtherParent(s, fi, bi, t, s.open[j]);
      }
    }
  }

  /** On a stack that is ready: no table is open, or the topmost one is B and no visited element is on the list. */
  lemma PushesWhenReady(s: State, lo: nat, bi: nat)
    requires Ready(s) && 2 <= lo <= bi < |s.open|
    ensures Pushes(s, lo, bi) <==>
            || TopTable(s.open, lo, bi, -1)
            || (TopTable(s.open, lo, bi, bi) && forall i :: lo <= i < bi ==> s.open[i] !in s.list)
  {
    ReadyIs(s);
    var k := FindTop(s.open, lo, bi, |s.open|);
    forall j | TopTable(s.open, lo, bi, j)
      ensures j == k
    {
      OnlyTable(s.open, lo, bi, j, k);
    }
    if k >= 0 {
      assert Placed(s.kids, s.open[k], k);
    }
  }

  lemma {:induction false} FindTop(open: seq<Node>, lo: nat, hi: nat, n: nat) returns (k: int)
    requires n <= |open| && forall i :: 2 <= i && n <= i < |open| && !(lo <= i < hi) ==> !open[i].Is(TABLE)
    ensures TopTable(open, lo, hi, k)
    decreases n
  {
    if n <= 2 {
      k := -1;
    } else if !(lo <= n - 1 < hi) && open[n - 1].Is(TABLE) {
      k := n - 1;
    } else {
      k := FindTop(open, lo, hi, n - 1);
    }
  }

  /** A table ends the scope, so it is the furthest block only if the tag of F is open again above it. */
  lemma TableBlockNeedsTwin(open: seq<Node>, tag: Tag, fi: nat, bi: nat)
    requires InScope(open, [tag], false, EndsScope) && fi < bi < |open| && open[bi].Is(TABLE)
    ensures exists k :: bi <= k < |open| && open[k].tag == tag
  {
    var k :| 0 <= k < |open| && open[k].tag in [tag] && forall j :: k < j < |open| ==> EndsScope(open[j].tag) == false;
    assert k >= bi;
  }
}
