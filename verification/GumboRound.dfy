/**
  What a round of the adoption agency does to the stack and to the list, said without the
  steps: which elements stay, which are replaced, where the clone of the formatting element
  ends up.
 */
module GumboRound {
  import opened GumboTags
  import opened GumboTree
  import opened GumboActive
  import opened GumboAdoption

  // ---------------------------------------------------------------------------------
  // The stack
  // ---------------------------------------------------------------------------------

  lemma IndexIs(s: seq<Node>, x: Node, k: nat)
    requires k < |s| && s[k] == x && x !in s[..k]
    ensures x in s && IndexIn(s, x) == k
  {
    var i := IndexIn(s, x);
    assert i >= k by {
      assert forall j :: 0 <= j < k ==> s[..k][j] == s[j];
    }
  }

  /** Taking x out of front + [x] + back, and putting y behind b in front + [b] + back. */
  lemma TakeOutMiddle(front: seq<Node>, x: Node, back: seq<Node>)
    requires x !in front
    ensures var s := front + [x] + back; x in s && Without(s, IndexIn(s, x)) == front + back
  {
    var s := front + [x] + back;
    assert s[..|front|] == front;
    IndexIs(s, x, |front|);
  }

  lemma PutBehind(front: seq<Node>, b: Node, back: seq<Node>, y: Node)
    requires b !in front
    ensures var s := front + [b] + back;
            b in s && s[..IndexIn(s, b) + 1] + [y] + s[IndexIn(s, b) + 1..] == front + [b, y] + back
  {
    var s := front + [b] + back;
    assert s[..|front|] == front;
    IndexIs(s, b, |front|);
    assert s[..|front| + 1] == front + [b] && s[|front| + 1..] == back;
  }

  lemma JoinLeft<T>(a: seq<T>, b: seq<T>, c: seq<T>, d: seq<T>)
    ensures a + (b + c + d) == (a + b) + c + d
  {
  }

  lemma JoinParts<T>(a: seq<T>, f: seq<T>, m: seq<T>, s: seq<T>, b: seq<T>, r: seq<T>)
    ensures (a + f + m) + s + (b + r) == a + f + ((m + s) + b + r)
  {
    assert (a + f + m) + s == a + f + (m + s);
    JoinLeft(a + f, m + s, b, r);
  }

  /** The two edits of the stack together. */
  lemma OpenFinalIs(front: seq<Node>, f: Node, mid: seq<Node>, b: Node, back: seq<Node>, nf: Node)
    requires f !in front && b !in front && b !in mid && f != b
    ensures OpenFinal(front + [f] + (mid + [b] + back), f, b, nf) == front + mid + [b, nf] + back
  {
    TakeOutMiddle(front, f, mid + [b] + back);
    JoinLeft(front, mid, [b], back);
    PutBehind(front + mid, b, back, nf);
  }

  lemma CutAt<T>(s: seq<T>, i: nat, j: nat)
    requires i < j <= |s|
    ensures s[..j] == s[..i] + [s[i]] + s[i + 1..j]
  {
  }

  lemma CutFirst<T>(s: seq<T>, i: nat)
    requires i < |s|
    ensures s[i..] == [s[i]] + s[i + 1..]
  {
  }

  /** The stack of the inner loop, cut at F and B. */
  lemma InnerParts(open: seq<Node>, fi: nat, bi: nat, lo: nat, made: seq<Node?>)
    requires fi < lo <= bi < |open| && |made| == bi - lo
    ensures OpenAfter(open, lo, made) ==
            open[..fi] + [open[fi]] + ((open[fi + 1..lo] + Some(made)) + [open[bi]] + open[bi + 1..])
  {
    CutAt(open, fi, lo);
    assert lo + |made| == bi;
    CutFirst(open, bi);
    JoinParts(open[..fi], [open[fi]], open[fi + 1..lo], Some(made), [open[bi]], open[bi + 1..]);
  }

  /** The stack after a round: F is gone, the visited elements are their clones, F's clone is right above B. */
  function RoundStack(open: seq<Node>, fi: nat, bi: nat, t: Trace): seq<Node>
    requires fi < t.lo <= bi < |open|
  {
    open[..fi] + (open[fi + 1..t.lo] + Some(t.made)) + [open[bi], t.nf] + open[bi + 1..]
  }

  lemma RoundOpen(s: State, fi: nat, bi: nat, t: Trace)
    requires Proper(s) && Fits(s, fi, bi, t)
    ensures Round(s, fi, bi, t).open == RoundStack(s.open, fi, bi, t)
  {
    var f, b := s.open[fi], s.open[bi];
    InnerParts(s.open, fi, bi, t.lo, t.made);
    MadeAreNew(s, t.lo, t.made, b);
    SomeMembers(t.made, b);
    assert f !in s.open[..fi] && b !in s.open[..fi] && b !in s.open[fi + 1..t.lo];
    OpenFinalIs(s.open[..fi], f, s.open[fi + 1..t.lo] + Some(t.made), b, s.open[bi + 1..], t.nf);
  }

  // ---------------------------------------------------------------------------------
  // No repetition
  // ---------------------------------------------------------------------------------

  lemma {:induction false} ClonesDistinct(s: State, lo: nat, made: seq<Node?>)
    requires MadeFor(s, lo, made)
    ensures Distinct(Some(made))
    decreases |made|
  {
    if made != [] {
      ClonesDistinct(s, lo + 1, made[1..]);
      if made[0] != null {
        SomeMembers(made[1..], made[0]);
      }
    }
  }

  lemma DistinctJoin(a: seq<Node>, b: seq<Node>)
    requires Distinct(a) && Distinct(b) && forall x :: x in a ==> x !in b
    ensures Distinct(a + b)
  {
    forall i, j | 0 <= i < j < |a + b|
      ensures (a + b)[i] != (a + b)[j]
    {
      if i < |a| <= j {
        assert a[i] in a && b[j - |a|] in b;
      }
    }
  }

  lemma SlicesApart(s: seq<Node>, i: nat, j: nat, k: nat, l: nat)
    requires Distinct(s) && i <= j <= k <= l <= |s|
    ensures Distinct(s[i..j]) && forall x :: x in s[i..j] ==> x in s && x !in s[k..l]
  {
  }

  /** New elements in place of some, and one new element behind another. */
  lemma StackDistinct(open: seq<Node>, fi: nat, lo: nat, bi: nat, clones: seq<Node>, nf: Node)
    requires Distinct(open) && fi < lo <= bi < |open| && Distinct(clones)
    requires nf !in open && nf !in clones && forall x :: x in clones ==> x !in open
    ensures Distinct(open[..fi] + (open[fi + 1..lo] + clones) + [open[bi], nf] + open[bi + 1..])
  {
    var front, kept, back, b := open[0..fi], open[fi + 1..lo], open[bi + 1..|open|], open[bi];
    SlicesApart(open, 0, fi, fi + 1, lo);
    SlicesApart(open, 0, fi, bi, |open|);
    SlicesApart(open, fi + 1, lo, bi, |open|);
    SlicesApart(open, bi + 1, |open|, |open|, |open|);
    assert b in open[bi..|open|] && forall x :: x in back ==> x in open[bi..|open|];
    DistinctJoin(kept, clones);
    DistinctJoin(front, kept + clones);
    DistinctJoin(front + (kept + clones), [b, nf]);
    assert b !in back;
    DistinctJoin(front + (kept + clones) + [b, nf], back);
    assert front == open[..fi] && back == open[bi + 1..];
  }

  /** The stack after a round holds no element twice either. */
  lemma RoundDistinct(s: State, fi: nat, bi: nat, t: Trace)
    requires Proper(s) && Fits(s, fi, bi, t)
    ensures Distinct(RoundStack(s.open, fi, bi, t))
  {
    ClonesDistinct(s, t.lo, t.made);
    SomeMembers(t.made, t.nf);
    forall x | x in Some(t.made)
      ensures x !in s.open
    {
      SomeMembers(t.made, x);
      if x in s.kids {
        MadeAreNew(s, t.lo, t.made, x);
      }
    }
    StackDistinct(s.open, fi, t.lo, bi, Some(t.made), t.nf);
  }

  // ---------------------------------------------------------------------------------
  // A round in a table
  // ---------------------------------------------------------------------------------

  lemma IndexInFront(s: seq<Node>, tail: seq<Node>, x: Node)
    requires x in s
    ensures x in s + tail && IndexIn(s + tail, x) == IndexIn(s, x)
  {
    var k := IndexIn(s, x);
    assert (s + tail)[..k] == s[..k];
    IndexIs(s + tail, x, k);
  }

  /** What is pushed on top stays there while F leaves and its clone comes. */
  lemma OpenFinalTail(open: seq<Node>, tail: seq<Node>, f: Node, b: Node, nf: Node)
    requires f in open && b in open && f != b
    ensures OpenFinal(open + tail, f, b, nf) == OpenFinal(open, f, b, nf) + tail
  {
    var k := IndexIn(open, f);
    var o := Without(open, k);
    IndexInFront(open, tail, f);
    WithoutTail(open, tail, k);
    OtherStays(open, f, b);
    IndexInFront(o, tail, b);
    var n := IndexIn(o, b) + 1;
    OpenFinalAt(open, f, b, nf, o, n);
    OpenFinalAt(open + tail, f, b, nf, o + tail, n);
    TailStays(o, tail, n, nf);
  }

  lemma OpenFinalAt(open: seq<Node>, f: Node, b: Node, nf: Node, o: seq<Node>, n: nat)
    requires f in open && o == Without(open, IndexIn(open, f)) && b in o && n == IndexIn(o, b) + 1
    ensures OpenFinal(open, f, b, nf) == o[..n] + [nf] + o[n..]
  {
  }

  lemma WithoutTail(s: seq<Node>, tail: seq<Node>, k: nat)
    requires k < |s|
    ensures Without(s + tail, k) == Without(s, k) + tail
  {
    assert (s + tail)[..k] == s[..k] && (s + tail)[k + 1..] == s[k + 1..] + tail;
  }

  lemma TailStays(o: seq<Node>, tail: seq<Node>, n: nat, nf: Node)
    requires n <= |o|
    ensures (o + tail)[..n] + [nf] + (o + tail)[n..] == (o[..n] + [nf] + o[n..]) + tail
  {
    assert (o + tail)[..n] == o[..n] && (o + tail)[n..] == o[n..] + tail;
  }

  /** The stack when the last node was fostered, and pushed if there was no table to put it in front of. */
  lemma FosterOpen(s: State, fi: nat, bi: nat, t: Trace, tail: seq<Node>)
    requires Proper(s) && Fits(s, fi, bi, t)
    ensures OpenFinal(OpenAfter(s.open, t.lo, t.made) + tail, s.open[fi], s.open[bi], t.nf) ==
            RoundStack(s.open, fi, bi, t) + tail
  {
    InnerKeeps(s, fi, bi, t.lo, t.made);
    RoundOpen(s, fi, bi, t);
    OpenFinalTail(OpenAfter(s.open, t.lo, t.made), tail, s.open[fi], s.open[bi], t.nf);
  }

  lemma {:induction false} LastIsVisited(made: seq<Node?>, b: Node)
    ensures LastNode(made, b) == b || LastNode(made, b) in Some(made)
  {
    if made != [] {
      LastIsVisited(made[1..], b);
    }
  }

  /** Pushing the last node, which is on the stack already, puts it there twice. */
  lemma FosterRepeats(s: State, fi: nat, bi: nat, t: Trace, pushed: bool)
    requires Proper(s) && Fits(s, fi, bi, t)
    ensures Distinct(RoundStack(s.open, fi, bi, t) + if pushed then [LastNode(t.made, s.open[bi])] else []) <==> !pushed
  {
    var stack, last := RoundStack(s.open, fi, bi, t), LastNode(t.made, s.open[bi]);
    RoundDistinct(s, fi, bi, t);
    LastIsVisited(t.made, s.open[bi]);
    if pushed {
      assert last in stack by {
        assert stack[fi + |s.open[fi + 1..t.lo] + Some(t.made)|] == s.open[bi];
      }
      var i :| 0 <= i < |stack| && stack[i] == last;
      assert (stack + [last])[i] == (stack + [last])[|stack|];
    } else {
      assert stack + [] == stack;
    }
  }

  // ---------------------------------------------------------------------------------
  // The list
  // ---------------------------------------------------------------------------------

  /** The clone an element was replaced by, or the element. */
  function Swap(x: Node, xs: seq<Node>, made: seq<Node?>): Node
    requires |xs| == |made|
  {
    if xs == [] then x
    else if xs[0] == x && made[0] != null then made[0]
    else Swap(x, xs[1..], made[1..])
  }

  /** A list with every replaced element in its place. */
  function SwapAll(list: seq<Node>, xs: seq<Node>, made: seq<Node?>): seq<Node>
    requires |xs| == |made|
  {
    seq(|list|, i requires 0 <= i < |list| => Swap(list[i], xs, made))
  }

  /** Only the marker may be on the list more than once. */
  predicate ListDistinct(list: seq<Node>, marker: Node) {
    forall i, j :: 0 <= i < j < |list| ==> list[i] != list[j] || list[i] == marker
  }

  /** The elements to replace and their clones keep apart. */
  ghost predicate Apart(list: seq<Node>, marker: Node, xs: seq<Node>, made: seq<Node?>) {
    && |xs| == |made| && ListDistinct(list, marker) && marker !in xs && Distinct(xs)
    && forall k :: 0 <= k < |made| && made[k] != null ==> made[k] !in list && made[k] !in xs
  }

  lemma {:induction false} SwapKeeps(x: Node, xs: seq<Node>, made: seq<Node?>)
    requires |xs| == |made| && x !in xs
    ensures Swap(x, xs, made) == x
  {
    if xs != [] {
      SwapKeeps(x, xs[1..], made[1..]);
    }
  }

  lemma {:induction false} SwapIs(x: Node, xs: seq<Node>, made: seq<Node?>)
    requires |xs| == |made|
    ensures Swap(x, xs, made) == x || Swap(x, xs, made) in made
  {
    if xs != [] {
      SwapIs(x, xs[1..], made[1..]);
    }
  }

  /** Replacing the first element of xs as well. */
  lemma ReplacedIs(list: seq<Node>, marker: Node, xs: seq<Node>, made: seq<Node?>)
    requires xs != [] && Apart(list, marker, xs, made)
    ensures Replaced(SwapAll(list, xs[1..], made[1..]), xs[0], made[0]) == SwapAll(list, xs, made)
  {
    var x, l := xs[0], SwapAll(list, xs[1..], made[1..]);
    var r := Replaced(l, x, made[0]);
    forall i | 0 <= i < |list|
      ensures l[i] == x <==> list[i] == x
    {
      SwapIs(list[i], xs[1..], made[1..]);
      if list[i] == x {
        SwapKeeps(x, xs[1..], made[1..]);
      }
    }
    forall i | 0 <= i < |list|
      ensures r[i] == Swap(list[i], xs, made)
    {
      if list[i] == x {
        assert l[i] in l;
      }
    }
  }

  /** The visits replace elements in place, all at once. */
  lemma {:induction false} ListAfterIs(list: seq<Node>, marker: Node, xs: seq<Node>, made: seq<Node?>)
    requires Apart(list, marker, xs, made)
    ensures ListAfter(list, xs, made) == SwapAll(list, xs, made)
    decreases |xs|
  {
    if xs != [] {
      ListAfterIs(list, marker, xs[1..], made[1..]);
      ReplacedIs(list, marker, xs, made);
    } else {
      assert SwapAll(list, xs, made) == list;
    }
  }

  /** Where the clone of F goes, once F is gone from the list. */
  function MarkAt(list: seq<Node>, f: Node, mark: int): int
    requires f in list
  {
    if IndexIn(list, f) < mark then mark - 1 else mark
  }

  lemma SwapAllIndex(list: seq<Node>, f: Node, xs: seq<Node>, made: seq<Node?>)
    requires |xs| == |made| && f in list && f !in xs && f !in made
    ensures f in SwapAll(list, xs, made) && IndexIn(SwapAll(list, xs, made), f) == IndexIn(list, f)
  {
    var l, k := SwapAll(list, xs, made), IndexIn(list, f);
    SwapKeeps(f, xs, made);
    assert l[k] == f;
    forall i | 0 <= i < k
      ensures l[i] != f
    {
      SwapIs(list[i], xs, made);
    }
    assert f !in l[..k];
    IndexIs(l, f, k);
  }

  lemma SwapAllWithout(list: seq<Node>, k: nat, xs: seq<Node>, made: seq<Node?>)
    requires |xs| == |made| && k < |list|
    ensures Without(SwapAll(list, xs, made), k) == SwapAll(Without(list, k), xs, made)
  {
  }

  /** The visited elements and their clones keep apart from everything on the list. */
  lemma RoundApart(s: State, marker: Node, fi: nat, bi: nat, t: Trace)
    requires Proper(s) && Fits(s, fi, bi, t) && ListDistinct(s.list, marker) && marker !in s.kids
    requires forall x :: x in s.list ==> x == marker || x in s.kids
    requires marker !in t.made
    ensures Apart(s.list, marker, s.open[t.lo..bi], t.made)
  {
    forall k | 0 <= k < |t.made| && t.made[k] != null
      ensures t.made[k] !in s.list && t.made[k] !in s.open[t.lo..bi]
    {
      MadeAt(s, t.lo, t.made, k);
    }
  }

  /**
    The list after a round: F is gone, every visited element is replaced in its place, the
    others keep their order, and the clone of F is put at the bookmark.
   */
  lemma RoundList(s: State, marker: Node, fi: nat, bi: nat, t: Trace)
    requires Proper(s) && Fits(s, fi, bi, t) && ListDistinct(s.list, marker) && marker !in s.kids
    requires forall x :: x in s.list ==> x == marker || x in s.kids
    requires marker !in t.made && s.open[fi] in s.list
    ensures var f, xs := s.open[fi], s.open[t.lo..bi];
            var rest, m := SwapAll(Without(s.list, IndexIn(s.list, f)), xs, t.made), MarkAt(s.list, f, t.mark);
            0 <= m <= |rest| == |s.list| - 1 && Round(s, fi, bi, t).list == rest[..m] + [t.nf] + rest[m..]
  {
    var f, xs := s.open[fi], s.open[t.lo..bi];
    RoundApart(s, marker, fi, bi, t);
    ListAfterIs(s.list, marker, xs, t.made);
    MadeAreNew(s, t.lo, t.made, f);
    SwapAllIndex(s.list, f, xs, t.made);
    SwapAllWithout(s.list, IndexIn(s.list, f), xs, t.made);
  }

  /** A replaced element was at the position of its clone. */
  lemma {:induction false} SwapWhere(x: Node, xs: seq<Node>, made: seq<Node?>) returns (k: int)
    requires |xs| == |made|
    ensures k == -1 ==> Swap(x, xs, made) == x
    ensures k != -1 ==> 0 <= k < |xs| && xs[k] == x && made[k] == Swap(x, xs, made)
  {
    if xs == [] {
      k := -1;
    } else if xs[0] == x && made[0] != null {
      k := 0;
    } else {
      k := SwapWhere(x, xs[1..], made[1..]);
      k := if k == -1 then -1 else k + 1;
    }
  }

  lemma {:induction false} MadeDistinct(s: State, lo: nat, made: seq<Node?>, i: nat, j: nat)
    requires MadeFor(s, lo, made) && i < j < |made| && made[i] != null
    ensures made[i] != made[j]
    decreases i
  {
    if i == 0 {
      assert made[j] == made[1..][j - 1];
    } else {
      MadeDistinct(s, lo + 1, made[1..], i - 1, j - 1);
    }
  }

  /** Different entries stay different. */
  lemma SwapApart(s: State, marker: Node, fi: nat, bi: nat, t: Trace, x: Node, y: Node)
    requires Fits(s, fi, bi, t) && Apart(s.list, marker, s.open[t.lo..bi], t.made)
    requires x in s.list && y in s.list && x != y
    ensures var xs := s.open[t.lo..bi]; Swap(x, xs, t.made) != Swap(y, xs, t.made)
  {
    var xs := s.open[t.lo..bi];
    var i := SwapWhere(x, xs, t.made);
    var j := SwapWhere(y, xs, t.made);
    if i != -1 && j != -1 {
      if i < j {
        MadeDistinct(s, t.lo, t.made, i, j);
      } else {
        MadeDistinct(s, t.lo, t.made, j, i);
      }
    }
  }

  lemma WithoutDistinct(list: seq<Node>, marker: Node, k: nat)
    requires ListDistinct(list, marker) && k < |list|
    ensures ListDistinct(Without(list, k), marker)
  {
  }

  lemma InsertDistinct(list: seq<Node>, marker: Node, m: nat, x: Node)
    requires ListDistinct(list, marker) && m <= |list| && x !in list
    ensures ListDistinct(list[..m] + [x] + list[m..], marker)
  {
    var r := list[..m] + [x] + list[m..];
    assert forall i :: 0 <= i < |r| ==> r[i] == if i < m then list[i] else if i == m then x else list[i - 1];
  }

  /** The list after a round holds nothing but markers twice either. */
  lemma RoundListDistinct(s: State, marker: Node, fi: nat, bi: nat, t: Trace)
    requires Proper(s) && Fits(s, fi, bi, t) && ListDistinct(s.list, marker) && marker !in s.kids
    requires forall x :: x in s.list ==> x == marker || x in s.kids
    requires marker !in t.made && marker != t.nf && s.open[fi] in s.list
    ensures ListDistinct(Round(s, fi, bi, t).list, marker)
  {
    var f, xs := s.open[fi], s.open[t.lo..bi];
    var others := Without(s.list, IndexIn(s.list, f));
    var rest := SwapAll(others, xs, t.made);
    RoundApart(s, marker, fi, bi, t);
    RoundList(s, marker, fi, bi, t);
    WithoutDistinct(s.list, marker, IndexIn(s.list, f));
    WithoutShape(s.list, IndexIn(s.list, f));
    SwapKeeps(marker, xs, t.made);
    forall i, j | 0 <= i < j < |rest|
      ensures rest[i] != rest[j] || rest[i] == marker
    {
      if others[i] != others[j] {
        SwapApart(s, marker, fi, bi, t, others[i], others[j]);
      }
    }
    forall i | 0 <= i < |rest|
      ensures rest[i] != t.nf
    {
      SwapIs(others[i], xs, t.made);
    }
    InsertDistinct(rest, marker, MarkAt(s.list, f, t.mark), t.nf);
  }
}
