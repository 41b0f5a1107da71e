/**
  The adoption agency algorithm on values. A round finds a formatting element F and, above it
  on the stack, a special element B (the furthest block). Going down the stack from B, up to
  three elements between them are visited: one that is on the list is replaced by a clone in
  the stack and in the list and becomes the parent of what was visited before it, any other
  is dropped from the stack. `made` holds, for the visited elements from the lowest to the
  highest, the clone made of it, or null.
 */
module GumboAdoption {
  import opened GumboTags
  import opened GumboTree
  import opened GumboActive

  /** The clones, lowest first. */
  function Some(made: seq<Node?>): seq<Node> {
    if made == [] then [] else (if made[0] == null then [] else [made[0]]) + Some(made[1..])
  }

  /** What hangs at the bottom of the chain of clones: the lowest clone, or B without one. */
  function LastNode(made: seq<Node?>, b: Node): Node {
    if made == [] then b else if made[0] != null then made[0] else LastNode(made[1..], b)
  }

  /** The first position of a node in a list. */
  function IndexIn(s: seq<Node>, x: Node): (k: nat)
    requires x in s
    ensures k < |s| && s[k] == x && forall i :: 0 <= i < k ==> s[i] != x
  {
    if s[0] == x then 0 else 1 + IndexIn(s[1..], x)
  }

  // ---------------------------------------------------------------------------------
  // The inner loop
  // ---------------------------------------------------------------------------------

  /** The stack after the elements from `lo` on have been visited. */
  function OpenAfter(open: seq<Node>, lo: nat, made: seq<Node?>): seq<Node>
    requires lo + |made| <= |open|
  {
    open[..lo] + Some(made) + open[lo + |made|..]
  }

  function Replaced(list: seq<Node>, x: Node, c: Node?): (r: seq<Node>)
    ensures |r| == |list|
  {
    if c != null && x in list then list[IndexIn(list, x) := c] else list
  }

  /** The list after them. */
  function ListAfter(list: seq<Node>, xs: seq<Node>, made: seq<Node?>): (r: seq<Node>)
    requires |xs| == |made|
    ensures |r| == |list|
  {
    if made == [] then list else Replaced(ListAfter(list, xs[1..], made[1..]), xs[0], made[0])
  }

  /** A slot that B has among the children of its parent. */
  datatype Spot = Spot(p: Node, at: nat)

  /** The tree without the child at a slot. */
  function Cut(kids: map<Node, seq<Node>>, spot: Spot): map<Node, seq<Node>> {
    if spot.p in kids && spot.at < |kids[spot.p]|
    then kids[spot.p := kids[spot.p][..spot.at] + kids[spot.p][spot.at + 1..]]
    else kids
  }

  /** The tree when `last` is taken from where it is; only B is anywhere. */
  function Loosened(kids: map<Node, seq<Node>>, b: Node, spot: Spot, last: Node): map<Node, seq<Node>> {
    if last == b then Cut(kids, spot) else kids
  }

  /** The tree after the visited elements. */
  function KidsAfter(kids: map<Node, seq<Node>>, made: seq<Node?>, b: Node, spot: Spot): map<Node, seq<Node>> {
    if made == [] then kids
    else
      var k := KidsAfter(kids, made[1..], b, spot);
      if made[0] == null then k
      else
        var last := LastNode(made[1..], b);
        Loosened(k, b, spot, last)[made[0] := [last]]
  }

  lemma SomeStep(made: seq<Node?>, c: Node?)
    ensures Some([c] + made) == (if c == null then [] else [c]) + Some(made)
  {
    assert ([c] + made)[1..] == made;
  }

  /** Dropping or replacing the last element before a point of a sequence. */
  lemma BeforePoint(front: seq<Node>, x: Node, mid: seq<Node>, back: seq<Node>, c: Node)
    ensures var s, n := (front + [x]) + mid + back, |front|;
            && s[..n] + s[n + 1..] == front + ([] + mid) + back
            && s[n := c] == front + ([c] + mid) + back
  {
    var s, n := (front + [x]) + mid + back, |front|;
    assert s[..n] == front && s[n + 1..] == mid + back;
  }

  /** One more element is visited. */
  lemma OpenStep(open: seq<Node>, lo: nat, made: seq<Node?>, c: Node?)
    requires 0 < lo && lo + |made| <= |open|
    ensures var s := OpenAfter(open, lo, made);
            && lo <= |s| && s[lo - 1] == open[lo - 1]
            && OpenAfter(open, lo - 1, [c] + made) == if c == null then s[..lo - 1] + s[lo..] else s[lo - 1 := c]
  {
    var x := open[lo - 1];
    assert open[..lo] == open[..lo - 1] + [x];
    assert lo - 1 + |[c] + made| == lo + |made|;
    SomeStep(made, c);
    BeforePoint(open[..lo - 1], x, Some(made), open[lo + |made|..], if c == null then x else c);
  }

  lemma ListStep(list: seq<Node>, xs: seq<Node>, made: seq<Node?>, x: Node, c: Node?)
    requires |xs| == |made|
    ensures ListAfter(list, [x] + xs, [c] + made) == Replaced(ListAfter(list, xs, made), x, c)
  {
    assert ([x] + xs)[1..] == xs && ([c] + made)[1..] == made;
  }

  lemma KidsStep(kids: map<Node, seq<Node>>, made: seq<Node?>, b: Node, spot: Spot, c: Node?)
    ensures var k, last := KidsAfter(kids, made, b, spot), LastNode(made, b);
            KidsAfter(kids, [c] + made, b, spot) == if c == null then k else Loosened(k, b, spot, last)[c := [last]]
    ensures LastNode([c] + made, b) == if c == null then LastNode(made, b) else c
  {
    assert ([c] + made)[1..] == made;
  }

  /** Hanging the last node from a node that is new. */
  lemma HangNew(kids: map<Node, seq<Node>>, b: Node, spot: Spot, last: Node, c: Node)
    requires c !in kids && (last == b ==> spot.p != c)
    ensures var k := Loosened(kids[c := []], b, spot, last);
            c in k && k[c] == [] && k[c := [] + [last]] == Loosened(kids, b, spot, last)[c := [last]]
  {
    assert [] + [last] == [last];
  }

  /** The whole state after the elements between positions lo and bi have been visited. */
  function After(s: State, lo: nat, bi: nat, made: seq<Node?>, spot: Spot): State
    requires lo <= bi < |s.open| && |made| == bi - lo
  {
    State(ListAfter(s.list, s.open[lo..bi], made), OpenAfter(s.open, lo, made),
          KidsAfter(s.kids, made, s.open[bi], spot))
  }

  /** A stack without repetition, all of it in the tree. */
  ghost predicate Proper(s: State) {
    Distinct(s.open) && forall i :: 0 <= i < |s.open| ==> s.open[i] in s.kids
  }

  /** The visited elements from `lo` on: exactly those on the list have a clone. */
  ghost predicate MadeFor(s: State, lo: nat, made: seq<Node?>)
    decreases |made|
  {
    made == [] ||
    (&& lo < |s.open| && MadeFor(s, lo + 1, made[1..])
     && (made[0] == null <==> s.open[lo] !in s.list)
     && (made[0] != null ==> made[0] !in s.kids && made[0] !in made[1..] && IsClone(made[0], s.open[lo])))
  }

  lemma MadeStep(s: State, lo: nat, made: seq<Node?>, c: Node?)
    requires 0 < lo <= |s.open| && MadeFor(s, lo, made)
    requires c == null <==> s.open[lo - 1] !in s.list
    requires c != null ==> c !in s.kids && c !in made && IsClone(c, s.open[lo - 1])
    ensures MadeFor(s, lo - 1, [c] + made)
  {
    assert ([c] + made)[1..] == made;
  }

  lemma {:induction false} MadeAt(s: State, lo: nat, made: seq<Node?>, k: nat)
    requires MadeFor(s, lo, made) && k < |made|
    ensures lo + k < |s.open| && (made[k] == null <==> s.open[lo + k] !in s.list)
    ensures made[k] != null ==> made[k] !in s.kids && IsClone(made[k], s.open[lo + k])
    decreases k
  {
    if k > 0 {
      MadeAt(s, lo + 1, made[1..], k - 1);
    }
  }

  /** Every clone is in the tree. */
  lemma {:induction false} MadeInTree(kids: map<Node, seq<Node>>, made: seq<Node?>, b: Node, spot: Spot, x: Node)
    ensures x in kids || x in made ==> x in KidsAfter(kids, made, b, spot)
    ensures x !in kids && x !in made ==> x !in KidsAfter(kids, made, b, spot)
  {
    if made != [] {
      MadeInTree(kids, made[1..], b, spot, x);
    }
  }

  /** Clones are new. */
  lemma MadeAreNew(s: State, lo: nat, made: seq<Node?>, x: Node)
    requires MadeFor(s, lo, made) && x in s.kids
    ensures x !in made
  {
    forall k | 0 <= k < |made|
      ensures made[k] != x
    {
      MadeAt(s, lo, made, k);
    }
  }

  /** An element that was not visited, or a marker, is on the list as before. */
  lemma {:induction false} StillListed(list: seq<Node>, xs: seq<Node>, made: seq<Node?>, x: Node)
    requires |xs| == |made| && x !in xs && x !in made
    ensures x in ListAfter(list, xs, made) <==> x in list
    decreases |made|
  {
    if made != [] {
      StillListed(list, xs[1..], made[1..], x);
      var l := ListAfter(list, xs[1..], made[1..]);
      if made[0] != null && xs[0] in l {
        ReplacedMember(l, xs[0], made[0], x);
      }
    }
  }

  lemma ReplacedMember(l: seq<Node>, y: Node, c: Node, x: Node)
    requires y in l && x != y && x != c
    ensures x in Replaced(l, y, c) <==> x in l
  {
    var r, k := Replaced(l, y, c), IndexIn(l, y);
    if x in l {
      var i :| 0 <= i < |l| && l[i] == x;
      assert r[i] == x;
    }
  }

  lemma SliceHead(s: seq<Node>, i: nat, j: nat)
    requires i < j <= |s|
    ensures s[i..j] == [s[i]] + s[i + 1..j]
  {
  }

  /** The next element to visit is still where it was, on the stack and, if it was there, on the list. */
  lemma NextToVisit(s: State, i: nat, bi: nat, made: seq<Node?>)
    requires Proper(s) && i + 1 <= bi <= |s.open| && |made| == bi - i - 1 && MadeFor(s, i + 1, made)
    ensures var open := OpenAfter(s.open, i + 1, made); i < |open| && open[i] == s.open[i]
    ensures s.open[i] in ListAfter(s.list, s.open[i + 1..bi], made) <==> s.open[i] in s.list
    ensures s.open[i..bi] == [s.open[i]] + s.open[i + 1..bi]
  {
    SliceHead(s.open, i, bi);
    OpenStep(s.open, i + 1, made, null);
    MadeAreNew(s, i + 1, made, s.open[i]);
    StillListed(s.list, s.open[i + 1..bi], made, s.open[i]);
  }

  /** The element visited last: its clone, the element itself if it was dropped, or B before the first visit. */
  function VisitedLast(s: State, lo: nat, bi: nat, made: seq<Node?>): Node
    requires lo <= bi < |s.open|
  {
    if made == [] then s.open[bi] else if made[0] != null then made[0] else s.open[lo]
  }

  /** Where it is now: at `lo` on the stack, or gone from it. */
  lemma WhereVisited(s: State, lo: nat, bi: nat, made: seq<Node?>)
    requires Proper(s) && lo <= bi < |s.open| && |made| == bi - lo && MadeFor(s, lo, made)
    ensures var open, x := OpenAfter(s.open, lo, made), VisitedLast(s, lo, bi, made);
            if made != [] && made[0] == null then x !in open else lo < |open| && open[lo] == x && x !in open[..lo]
  {
    var open := OpenAfter(s.open, lo, made);
    assert open[..lo] == s.open[..lo];
    if made != [] && made[0] == null {
      MadeAreNew(s, lo, made, s.open[lo]);
      SomeMembers(made, s.open[lo]);
      assert s.open[lo] !in s.open[..lo] && s.open[lo] !in s.open[bi..];
    } else if made != [] {
      MadeAt(s, lo, made, 0);
    }
  }

  lemma {:induction false} SomeMembers(made: seq<Node?>, x: Node)
    ensures x in Some(made) <==> x in made
  {
    if made != [] {
      SomeMembers(made[1..], x);
    }
  }

  // ---------------------------------------------------------------------------------
  // The bookmark
  // ---------------------------------------------------------------------------------

  /** The highest clone, or null. */
  function Top(made: seq<Node?>): Node? {
    if made == [] then null
    else if Top(made[1..]) != null then Top(made[1..])
    else made[0]
  }

  /** The bookmark is at the formatting element, or right after the first clone that was made. */
  predicate Marked(list: seq<Node>, f: Node, made: seq<Node?>, mark: int) {
    if Top(made) == null then 0 <= mark < |list| && list[mark] == f
    else 0 < mark <= |list| && list[mark - 1] == Top(made)
  }

  lemma {:induction false} LastIsB(made: seq<Node?>, b: Node)
    requires b !in made
    ensures LastNode(made, b) == b <==> Top(made) == null
  {
    if made != [] {
      LastIsB(made[1..], b);
    }
  }

  lemma TopStep(made: seq<Node?>, c: Node?)
    ensures Top([c] + made) == if Top(made) != null then Top(made) else c
  {
    assert ([c] + made)[1..] == made;
  }

  lemma {:induction false} TopIsMade(made: seq<Node?>, x: Node)
    requires x !in made
    ensures Top(made) != x
  {
    if made != [] {
      TopIsMade(made[1..], x);
    }
  }

  /** Dropping an element leaves the bookmark; cloning one moves it the first time only. */
  lemma MarkStep(list: seq<Node>, f: Node, made: seq<Node?>, mark: int, x: Node, c: Node)
    requires Marked(list, f, made, mark) && x in list && x != f && x !in made
    ensures Marked(Replaced(list, x, c), f, [c] + made, if Top(made) == null then IndexIn(list, x) + 1 else mark)
  {
    TopStep(made, c);
    TopIsMade(made, x);
  }

  // ---------------------------------------------------------------------------------
  // The rest of a round
  // ---------------------------------------------------------------------------------

  /** Step 10: the last node becomes the last child of the common ancestor. */
  function Joined(kids: map<Node, seq<Node>>, b: Node, spot: Spot, last: Node, ancestor: Node): map<Node, seq<Node>> {
    var k := Loosened(kids, b, spot, last);
    if ancestor in k then k[ancestor := k[ancestor] + [last]] else k
  }

  /** Steps 11 to 13: a clone of F takes over the children of B and becomes its only child. */
  function Adopt(kids: map<Node, seq<Node>>, b: Node, nf: Node): map<Node, seq<Node>> {
    if b in kids then kids[nf := kids[b]][b := [nf]] else kids
  }

  /** Step 14: F leaves the list, its clone goes to the bookmark. */
  function ListFinal(list: seq<Node>, f: Node, mark: int, nf: Node): (r: seq<Node>)
    ensures |r| == |list|
  {
    if f in list && 0 <= mark <= |list| then
      var k := IndexIn(list, f);
      var m := if k < mark then mark - 1 else mark;
      var l := Without(list, k);
      l[..m] + [nf] + l[m..]
    else list
  }

  /** Step 15: F leaves the stack, its clone goes right above B. */
  function OpenFinal(open: seq<Node>, f: Node, b: Node, nf: Node): seq<Node> {
    var o := if f in open then Without(open, IndexIn(open, f)) else open;
    if b in o then o[..IndexIn(o, b) + 1] + [nf] + o[IndexIn(o, b) + 1..] else o
  }

  /** What a round depends on besides its start: the visits, where B was, the bookmark, the clone of F. */
  datatype Trace = Trace(lo: nat, made: seq<Node?>, spot: Spot, mark: int, nf: Node)

  /** The state after a round with F at fi and B at bi whose common ancestor is no part of a table. */
  function Round(s: State, fi: nat, bi: nat, t: Trace): State
    requires 0 < fi < t.lo <= bi < |s.open| && |t.made| == bi - t.lo
  {
    var f, b, ancestor := s.open[fi], s.open[bi], s.open[fi - 1];
    var u := After(s, t.lo, bi, t.made, t.spot);
    State(ListFinal(u.list, f, t.mark, t.nf), OpenFinal(u.open, f, b, t.nf),
          Adopt(Joined(u.kids, b, t.spot, LastNode(t.made, b), ancestor), b, t.nf))
  }

  /** A trace that fits: at most three visits, fewer only down to F, new clones, and the bookmark in place. */
  ghost predicate Fits(s: State, fi: nat, bi: nat, t: Trace)
  {
    && 0 < fi < t.lo <= bi < |s.open| && |t.made| == bi - t.lo <= 3 && (|t.made| == 3 || fi == t.lo - 1)
    && MadeFor(s, t.lo, t.made)
    && Marked(ListAfter(s.list, s.open[t.lo..bi], t.made), s.open[fi], t.made, t.mark)
    && t.nf !in s.kids && t.nf !in t.made && IsClone(t.nf, s.open[fi])
  }

  /** The steps of adoption one by one: an empty clone, the children moved, the clone appended. */
  lemma AdoptSteps(kids: map<Node, seq<Node>>, b: Node, nf: Node)
    requires b in kids && nf !in kids
    ensures kids[nf := []][nf := kids[b]][b := []][b := [] + [nf]] == Adopt(kids, b, nf)
  {
    assert [] + [nf] == [nf];
  }

  lemma WithoutShape(s: seq<Node>, k: nat)
    requires k < |s|
    ensures var r := Without(s, k);
            (k > 0 ==> r != [] && r[0] == s[0]) && forall i :: 0 <= i < |r| ==> r[i] in s
  {
    var r := Without(s, k);
    forall i | 0 <= i < |r|
      ensures r[i] in s
    {
      assert r[i] == s[if i < k then i else i + 1];
    }
  }

  lemma InsertShape(s: seq<Node>, at: nat, x: Node)
    requires at <= |s|
    ensures var r := s[..at] + [x] + s[at..];
            (at > 0 ==> r[0] == s[0]) && forall i :: 0 <= i < |r| ==> r[i] in s || r[i] == x
  {
    var r := s[..at] + [x] + s[at..];
    forall i | 0 <= i < |r|
      ensures r[i] in s || r[i] == x
    {
      assert r[i] == if i < at then s[i] else if i == at then x else s[i - 1];
    }
  }

  /** The stack keeps its bottom and gets no element but the clone. */
  lemma OpenFinalShape(open: seq<Node>, f: Node, b: Node, nf: Node)
    requires open != [] && open[0] != f
    ensures var r := OpenFinal(open, f, b, nf);
            r != [] && r[0] == open[0] && forall i :: 0 <= i < |r| ==> r[i] in open || r[i] == nf
  {
    var o := if f in open then Without(open, IndexIn(open, f)) else open;
    if f in open {
      WithoutShape(open, IndexIn(open, f));
    }
    if b in o {
      InsertShape(o, IndexIn(o, b) + 1, nf);
    }
  }

  /** Taking F out leaves everything else. */
  lemma OtherStays(open: seq<Node>, f: Node, b: Node)
    requires f in open && b in open && b != f
    ensures b in Without(open, IndexIn(open, f))
  {
    var k, i := IndexIn(open, f), IndexIn(open, b);
    assert Without(open, k)[if i < k then i else i - 1] == b;
  }

  /** The inner loop leaves F, B and everything below F on the stack, and F on the list. */
  lemma InnerKeeps(s: State, fi: nat, bi: nat, lo: nat, made: seq<Node?>)
    requires Proper(s) && 0 < fi < lo <= bi < |s.open| && |made| == bi - lo && MadeFor(s, lo, made)
    ensures var open := OpenAfter(s.open, lo, made);
            && |open| > 2 && open[0] == s.open[0] != s.open[fi]
            && s.open[fi - 1] in open && s.open[fi] in open && s.open[bi] in open
    ensures s.open[fi] in ListAfter(s.list, s.open[lo..bi], made) <==> s.open[fi] in s.list
  {
    var open := OpenAfter(s.open, lo, made);
    assert open[fi - 1] == s.open[fi - 1] && open[fi] == s.open[fi] && open[lo + |Some(made)|] == s.open[bi];
    MadeAreNew(s, lo, made, s.open[fi]);
    StillListed(s.list, s.open[lo..bi], made, s.open[fi]);
  }

  lemma NothingVisited(s: State, bi: nat, spot: Spot)
    requires bi < |s.open|
    ensures After(s, bi, bi, [], spot) == s && MadeFor(s, bi, [])
  {
    assert s.open[..bi] + [] + s.open[bi..] == s.open;
  }

  lemma ListFinalMembers(list: seq<Node>, f: Node, mark: int, nf: Node)
    ensures var r := ListFinal(list, f, mark, nf); forall i :: 0 <= i < |r| ==> r[i] in list || r[i] == nf
  {
    if f in list && 0 <= mark <= |list| {
      var l := Without(list, IndexIn(list, f));
      assert forall i :: 0 <= i < |l| ==> l[i] in list;
    }
  }
}
