/**
  What the list of active formatting elements keeps over every run: at most three entries of a
  kind between markers, nothing but markers twice, and an order that agrees with the stack as
  far as markers go. An open element behind a marker on the list has every higher open element
  that is listed behind that marker as well.
 */
module GumboMarkers {
  import opened GumboTags
  import opened GumboTree
  import opened GumboStack
  import opened GumboActive
  import opened GumboParser
  import opened GumboAdoption
  import opened GumboRound
  import opened GumboOrder
  import opened GumboReady
  import opened GumboFoster
  import opened GumboOutcome

  /** The stretches between markers that the listed elements of the stack lie in never fall going up. */
  ghost predicate Stretches(list: seq<Node>, open: seq<Node>, marker: Node) {
    forall i: nat, j: nat, a: nat, b: nat, p: nat ::
      i < j < |open| && Splits(list, open, marker, i, j, a, b, p) ==> p < b
  }

  /** The element at i is on the list behind the marker at p, the one at j is at b. */
  predicate Splits(list: seq<Node>, open: seq<Node>, marker: Node, i: nat, j: nat, a: nat, b: nat, p: nat)
    requires i < |open| && j < |open|
  {
    p < a < |list| && b < |list| && list[p] == marker && list[a] == open[i] && list[b] == open[j]
  }

  /** The list as it should be, next to a stack. */
  ghost predicate Orderly(list: seq<Node>, open: seq<Node>, marker: Node) {
    Entries(list, marker) && Ark(list, marker) && ListDistinct(list, marker) && Stretches(list, open, marker)
  }

  /** The marker is no element, and everything else on the list is in the tree. */
  ghost predicate Listed(s: State, marker: Node) {
    marker.kind != Element && marker !in s.kids && forall x :: x in s.list ==> x == marker || x in s.kids
  }

  // ---------------------------------------------------------------------------------
  // Moving an entry behind the last marker
  // ---------------------------------------------------------------------------------

  /** The entry at k is taken out, and x is put at m. */
  function Moved(list: seq<Node>, k: nat, m: nat, x: Node): seq<Node>
    requires k < |list| && m < |list|
  {
    Without(list, k)[..m] + [x] + Without(list, k)[m..]
  }

  /** Where an entry of the new list was. */
  function Was(k: nat, m: nat, a: nat): nat {
    var i := if a <= m then a else a - 1;
    if i < k then i else i + 1
  }

  lemma MovedAt(list: seq<Node>, k: nat, m: nat, x: Node, a: nat)
    requires k < |list| && m < |list| && a < |list|
    ensures |Moved(list, k, m, x)| == |list|
    ensures a == m ==> Moved(list, k, m, x)[a] == x
    ensures a != m ==> Was(k, m, a) < |list| && Moved(list, k, m, x)[a] == list[Was(k, m, a)]
  {
  }

  lemma {:induction false} TailGrows(list: seq<Node>, marker: Node, key: Key, n: nat)
    requires n <= |list| && marker !in list[n..]
    ensures TailCount(list[..n], marker, key) <= TailCount(list, marker, key)
    decreases |list|
  {
    if n == |list| {
      assert list[..n] == list;
    } else {
      var l := list[..|list| - 1];
      assert list[n..][|list| - 1 - n] == list[|list| - 1];
      assert l[..n] == list[..n] && forall x :: x in l[n..] ==> x in list[n..];
      TailGrows(l, marker, key, n);
    }
  }

  /** An entry put behind the last marker adds itself to every count from there on. */
  lemma {:induction false} InsertCount(list: seq<Node>, marker: Node, key: Key, m: nat, x: Node)
    requires m <= |list| && marker !in list[m..] && x != marker
    ensures TailCount(list[..m] + [x] + list[m..], marker, key) ==
            TailCount(list, marker, key) + if KeyOf(x) == key then 1 else 0
    decreases |list|
  {
    var r := list[..m] + [x] + list[m..];
    if m == |list| {
      assert r == list + [x] && r[..|list|] == list && list[..m] == list;
    } else {
      var n := |list| - 1;
      var l := list[..n];
      assert list[m..][n - m] == list[n];
      assert r[..n + 1] == l[..m] + [x] + l[m..] && r[n + 1] == list[n];
      assert forall y :: y in l[m..] ==> y in list[m..];
      InsertCount(l, marker, key, m, x);
    }
  }

  lemma PrefixOfInsert(list: seq<Node>, m: nat, x: Node, n: nat)
    requires m <= |list| && n <= |list| + 1
    ensures var r := list[..m] + [x] + list[m..];
            if n <= m then r[..n] == list[..n]
            else r[..n] == list[..n - 1][..m] + [x] + list[..n - 1][m..]
  {
  }

  /** An entry moved behind the last marker, and replaced by one of its kind, keeps the bound of three. */
  lemma ArkMoved(list: seq<Node>, marker: Node, k: nat, m: nat, x: Node)
    requires Ark(list, marker) && k < |list| && m < |list| && x != marker && KeyOf(x) == KeyOf(list[k])
    requires marker !in list[k..] && marker !in list[m..]
    ensures Ark(Moved(list, k, m, x), marker)
  {
    var w := Without(list, k);
    ArkWithout(list, marker, k);
    NoMarkerBehind(list, marker, k, m);
    forall key
      ensures TailCount(w, marker, key) + (if KeyOf(x) == key then 1 else 0) <= 3
    {
      WithoutCount(list, marker, key, k);
      assert list[..|list|] == list && w[..|w|] == w;
    }
    ArkInsert(w, marker, m, x);
  }

  lemma NoMarkerBehind(list: seq<Node>, marker: Node, k: nat, m: nat)
    requires k < |list| && m < |list| && marker !in list[k..] && marker !in list[m..]
    ensures marker !in Without(list, k)[m..]
  {
    var w := Without(list, k);
    forall i | m <= i < |w|
      ensures w[i] != marker
    {
      if i < k {
        assert list[m..][i - m] == w[i];
      } else {
        assert list[k..][i + 1 - k] == w[i];
      }
    }
  }

  lemma ArkInsert(w: seq<Node>, marker: Node, m: nat, x: Node)
    requires Ark(w, marker) && m <= |w| && x != marker && marker !in w[m..]
    requires forall key :: TailCount(w, marker, key) + (if KeyOf(x) == key then 1 else 0) <= 3
    ensures Ark(w[..m] + [x] + w[m..], marker)
  {
    var r := w[..m] + [x] + w[m..];
    forall n, key | 0 <= n <= |r|
      ensures TailCount(r[..n], marker, key) <= 3
    {
      PrefixOfInsert(w, m, x, n);
      if n > m {
        InsertedPrefix(w, marker, key, m, x, n - 1);
      }
    }
  }

  lemma InsertedPrefix(w: seq<Node>, marker: Node, key: Key, m: nat, x: Node, n: nat)
    requires m <= n <= |w| && marker !in w[m..] && x != marker
    ensures TailCount(w[..n][..m] + [x] + w[..n][m..], marker, key) <=
            TailCount(w, marker, key) + if KeyOf(x) == key then 1 else 0
  {
    var l := w[..n];
    assert forall y :: y in l[m..] ==> y in w[m..];
    assert forall y :: y in w[n..] ==> y in w[m..];
    InsertCount(l, marker, key, m, x);
    TailGrows(w, marker, key, n);
  }

  // ---------------------------------------------------------------------------------
  // A round
  // ---------------------------------------------------------------------------------

  /** What is listed above F on the stack is behind every marker that F is behind. */
  lemma AboveIsBehind(list: seq<Node>, open: seq<Node>, marker: Node, fi: nat, k: nat, q: nat, j: nat, b: nat)
    requires Stretches(list, open, marker) && fi < j < |open| && k < |list| && list[k] == open[fi]
    requires q <= k && (q > 0 ==> list[q - 1] == marker) && b < |list| && list[b] == open[j]
    ensures b >= q
  {
    if q > 0 {
      assert Splits(list, open, marker, fi, j, k, b, q - 1);
    }
  }

  lemma NoneAbove(list: seq<Node>, open: seq<Node>, marker: Node, fi: nat, k: nat, q: nat, b: nat)
    requires Stretches(list, open, marker) && fi < |open| && k < |list| && list[k] == open[fi]
    requires 0 < q <= k && list[q - 1] == marker && b < q
    ensures forall j :: fi < j < |open| ==> open[j] != list[b]
  {
    forall j | fi < j < |open|
      ensures open[j] != list[b]
    {
      if open[j] == list[b] {
        AboveIsBehind(list, open, marker, fi, k, q, j, b);
      }
    }
  }

  /** An element listed in front of a marker has none below it that is listed behind. */
  lemma BehindTogether(list: seq<Node>, open: seq<Node>, marker: Node, q: nat, i: nat, j: nat, b: nat)
    requires Stretches(list, open, marker) && i < j < |open| && b < q <= |list| && list[q - 1] == marker
    requires list[b] == open[j]
    ensures forall c :: q <= c < |list| ==> list[c] != open[i]
  {
    forall c | q <= c < |list|
      ensures list[c] != open[i]
    {
      if list[c] == open[i] {
        AboveIsBehind(list, open, marker, i, c, q, j, b);
      }
    }
  }

  /** The list once the visits have been made, entry by entry of the same kind. */
  lemma VisitsKeepKinds(s: State, marker: Node, fi: nat, bi: nat, t: Trace)
    requires Proper(s) && Fits(s, fi, bi, t) && ListDistinct(s.list, marker) && Listed(s, marker) && marker !in t.made
    ensures var l := SwapAll(s.list, s.open[t.lo..bi], t.made);
            ListAfter(s.list, s.open[t.lo..bi], t.made) == l && SameKinds(s.list, l, marker)
    ensures Entries(s.list, marker) ==> Entries(ListAfter(s.list, s.open[t.lo..bi], t.made), marker)
  {
    var xs := s.open[t.lo..bi];
    RoundApart(s, marker, fi, bi, t);
    ListAfterIs(s.list, marker, xs, t.made);
    var l := SwapAll(s.list, xs, t.made);
    forall i | 0 <= i < |l|
      ensures (s.list[i] == marker <==> l[i] == marker) && KeyOf(s.list[i]) == KeyOf(l[i])
      ensures l[i].kind == s.list[i].kind && l[i].attributes == s.list[i].attributes
    {
      var n := SwapWhere(s.list[i], xs, t.made);
      if n != -1 {
        MadeAt(s, t.lo, t.made, n);
      }
    }
  }

  lemma SwapFront(list: seq<Node>, xs: seq<Node>, made: seq<Node?>, a: nat)
    requires |xs| == |made| && a < |list| && list[a] !in xs
    ensures SwapAll(list, xs, made)[a] == list[a]
  {
    SwapKeeps(list[a], xs, made);
  }

  lemma {:induction false} TopAmong(made: seq<Node?>)
    ensures Top(made) != null ==> Top(made) in made
  {
    if made != [] {
      TopAmong(made[1..]);
    }
  }

  /** Where the entry of F is and where its clone goes. */
  ghost predicate Moves(s: State, marker: Node, fi: nat, bi: nat, t: Trace, q: nat, k: nat, m: nat) {
    && 0 < fi < t.lo <= bi < |s.open| && |t.made| == bi - t.lo
    && q <= k < |s.list| && q <= m < |s.list| && s.list[k] == s.open[fi]
    && (q > 0 ==> s.list[q - 1] == marker) && (forall a :: q <= a < |s.list| ==> s.list[a] != marker)
    && (forall a :: 0 <= a < q ==> s.list[a] !in s.open[t.lo..bi])
    && Round(s, fi, bi, t).list == Moved(ListAfter(s.list, s.open[t.lo..bi], t.made), k, m, t.nf)
  }

  /** Both behind the last marker. */
  lemma MovesBehind(s: State, marker: Node, fi: nat, bi: nat, t: Trace, q: nat, k: nat) returns (m: nat)
    requires Proper(s) && Fits(s, fi, bi, t) && ListDistinct(s.list, marker) && Listed(s, marker) && marker !in t.made
    requires Stretches(s.list, s.open, marker) && q <= k < |s.list| && s.list[k] == s.open[fi] != marker
    requires (q > 0 ==> s.list[q - 1] == marker) && forall a :: q <= a < |s.list| ==> s.list[a] != marker
    ensures Moves(s, marker, fi, bi, t, q, k, m)
  {
    var f, xs := s.open[fi], s.open[t.lo..bi];
    var l := ListAfter(s.list, xs, t.made);
    VisitsKeepKinds(s, marker, fi, bi, t);
    FrontNotVisited(s, marker, fi, bi, t, q, k);
    MadeAreNew(s, t.lo, t.made, f);
    SwapAllIndex(s.list, f, xs, t.made);
    assert IndexIn(s.list, f) == k;
    BookmarkBehind(s, marker, fi, bi, t, q, k);
    m := if k < t.mark then t.mark - 1 else t.mark;
    assert ListFinal(l, f, t.mark, t.nf) == Moved(l, k, m, t.nf);
  }

  /** What is visited is not in front of the last marker. */
  lemma FrontNotVisited(s: State, marker: Node, fi: nat, bi: nat, t: Trace, q: nat, k: nat)
    requires Fits(s, fi, bi, t) && Stretches(s.list, s.open, marker) && q <= k < |s.list| && s.list[k] == s.open[fi]
    requires q > 0 ==> s.list[q - 1] == marker
    ensures forall a :: 0 <= a < q ==> s.list[a] !in s.open[t.lo..bi]
  {
    forall a | 0 <= a < q
      ensures s.list[a] !in s.open[t.lo..bi]
    {
      NoneAbove(s.list, s.open, marker, fi, k, q, a);
    }
  }

  /** The bookmark is at F or behind a clone, behind the last marker. */
  lemma BookmarkBehind(s: State, marker: Node, fi: nat, bi: nat, t: Trace, q: nat, k: nat)
    requires Proper(s) && Fits(s, fi, bi, t) && ListDistinct(s.list, marker) && Listed(s, marker) && marker !in t.made
    requires q <= k < |s.list| && s.list[k] == s.open[fi] != marker
    requires forall a :: 0 <= a < q ==> s.list[a] !in s.open[t.lo..bi]
    ensures t.mark == k || q < t.mark <= |s.list|
  {
    var l := ListAfter(s.list, s.open[t.lo..bi], t.made);
    VisitsKeepKinds(s, marker, fi, bi, t);
    if Top(t.made) == null {
      OnlyAt(s, marker, fi, bi, t, k, t.mark);
    } else if t.mark - 1 < q {
      TopAmong(t.made);
      var n :| 0 <= n < |t.made| && t.made[n] == Top(t.made);
      MadeAt(s, t.lo, t.made, n);
      SwapFront(s.list, s.open[t.lo..bi], t.made, t.mark - 1);
    }
  }

  lemma OnlyAt(s: State, marker: Node, fi: nat, bi: nat, t: Trace, k: nat, i: nat)
    requires Fits(s, fi, bi, t) && ListDistinct(s.list, marker) && k < |s.list| && i < |s.list|
    requires s.list[k] == s.open[fi] != marker && s.open[fi] in s.kids
    requires SwapAll(s.list, s.open[t.lo..bi], t.made)[i] == s.open[fi]
    ensures i == k
  {
    SwapIs(s.list[i], s.open[t.lo..bi], t.made);
    MadeAreNew(s, t.lo, t.made, s.open[fi]);
    assert s.list[i] == s.list[k];
  }

  /** An entry of the new list is as before in front, and behind it is new or was behind. */
  lemma NewEntry(s: State, marker: Node, fi: nat, bi: nat, t: Trace, q: nat, k: nat, m: nat, a: nat)
    requires Proper(s) && Fits(s, fi, bi, t) && ListDistinct(s.list, marker) && Listed(s, marker) && marker !in t.made
    requires Moves(s, marker, fi, bi, t, q, k, m) && a < |s.list|
    ensures |Round(s, fi, bi, t).list| == |s.list|
    ensures var x := Round(s, fi, bi, t).list[a];
            if a < q then x == s.list[a]
            else x == t.nf || x in t.made || exists c :: q <= c < |s.list| && s.list[c] == x
  {
    var xs := s.open[t.lo..bi];
    var l := ListAfter(s.list, xs, t.made);
    VisitsKeepKinds(s, marker, fi, bi, t);
    MovedAt(l, k, m, t.nf, a);
    if a != m {
      var c := Was(k, m, a);
      SwapIs(s.list[c], xs, t.made);
      if a < q {
        SwapFront(s.list, xs, t.made, a);
      } else {
        assert c >= q;
      }
    }
  }

  /** An element of the stack after a round: below F as before, from there on new or from above F. */
  lemma StackAbove(open: seq<Node>, fi: nat, bi: nat, t: Trace, tail: seq<Node>, j: nat)
    requires 0 < fi < t.lo <= bi < |open| && j < |RoundStack(open, fi, bi, t) + tail|
    requires forall x :: x in tail ==> x in Some(t.made) || x == open[bi]
    ensures var x := (RoundStack(open, fi, bi, t) + tail)[j];
            if j < fi then x == open[j]
            else x == t.nf || x in Some(t.made) || exists i :: fi < i < |open| && open[i] == x
  {
    var kept, r := open[fi + 1..t.lo] + Some(t.made), RoundStack(open, fi, bi, t);
    var n := fi + |kept|;
    if j >= |r| {
      assert (r + tail)[j] == tail[j - |r|];
    } else if fi <= j < n {
      assert r[j] == kept[j - fi];
      if j - fi < t.lo - fi - 1 {
        assert kept[j - fi] == open[j + 1];
      }
    } else if j == n {
      assert r[j] == open[bi];
    } else if j >= n + 2 {
      assert r[j] == open[bi + 1 + (j - n - 2)];
    }
  }

  /** The stretches of list and stack agree after a round as well. */
  lemma RoundStretches(s: State, marker: Node, fi: nat, bi: nat, t: Trace, q: nat, k: nat, m: nat, tail: seq<Node>)
    requires Proper(s) && Fits(s, fi, bi, t) && ListDistinct(s.list, marker) && Listed(s, marker)
    requires marker !in t.made && marker != t.nf && Stretches(s.list, s.open, marker)
    requires Moves(s, marker, fi, bi, t, q, k, m)
    requires forall x :: x in tail ==> x in Some(t.made) || x == s.open[bi]
    ensures Stretches(Round(s, fi, bi, t).list, RoundStack(s.open, fi, bi, t) + tail, marker)
  {
    var list, open := Round(s, fi, bi, t).list, RoundStack(s.open, fi, bi, t) + tail;
    forall i: nat, j: nat, a: nat, b: nat, p: nat | i < j < |open| && Splits(list, open, marker, i, j, a, b, p)
      ensures p < b
    {
      SplitStays(s, marker, fi, bi, t, q, k, m, tail, list, open, i, j, a, b, p);
    }
  }

  lemma SplitStays(s: State, marker: Node, fi: nat, bi: nat, t: Trace, q: nat, k: nat, m: nat, tail: seq<Node>,
                   list: seq<Node>, open: seq<Node>, i: nat, j: nat, a: nat, b: nat, p: nat)
    requires Proper(s) && Fits(s, fi, bi, t) && ListDistinct(s.list, marker) && Listed(s, marker)
    requires marker !in t.made && marker != t.nf && Stretches(s.list, s.open, marker)
    requires Moves(s, marker, fi, bi, t, q, k, m)
    requires forall x :: x in tail ==> x in Some(t.made) || x == s.open[bi]
    requires list == Round(s, fi, bi, t).list && open == RoundStack(s.open, fi, bi, t) + tail
    requires i < j < |open| && Splits(list, open, marker, i, j, a, b, p)
    ensures p < b
  {
    NewEntry(s, marker, fi, bi, t, q, k, m, 0);
    NewEntry(s, marker, fi, bi, t, q, k, m, p);
    assert p < q;
    if b < q {
      NewEntry(s, marker, fi, bi, t, q, k, m, b);
      BelowStays(s, marker, fi, bi, t, q, k, m, tail, j, b);
      StackAbove(s.open, fi, bi, t, tail, i);
      FrontStays(s, marker, fi, bi, t, q, k, m, i, j, a, b);
      assert Splits(s.list, s.open, marker, i, j, a, b, p);
    }
  }

  /** What is listed below such an element was and is in front of the last marker too. */
  lemma FrontStays(s: State, marker: Node, fi: nat, bi: nat, t: Trace,
                   q: nat, k: nat, m: nat, i: nat, j: nat, a: nat, b: nat)
    requires Proper(s) && Fits(s, fi, bi, t) && ListDistinct(s.list, marker) && Listed(s, marker) && marker !in t.made
    requires Stretches(s.list, s.open, marker) && Moves(s, marker, fi, bi, t, q, k, m)
    requires i < j < |s.open| && b < q && s.list[b] == s.open[j]
    requires a < |s.list| == |Round(s, fi, bi, t).list| && Round(s, fi, bi, t).list[a] == s.open[i]
    ensures a < q && s.list[a] == s.open[i]
  {
    NewEntry(s, marker, fi, bi, t, q, k, m, a);
    MadeAreNew(s, t.lo, t.made, s.open[i]);
    BehindTogether(s.list, s.open, marker, q, i, j, b);
  }

  /** An element listed in front of the last marker was below F and is there still. */
  lemma BelowStays(s: State, marker: Node, fi: nat, bi: nat, t: Trace,
                   q: nat, k: nat, m: nat, tail: seq<Node>, j: nat, b: nat)
    requires Proper(s) && Fits(s, fi, bi, t) && Listed(s, marker) && Stretches(s.list, s.open, marker)
    requires marker !in t.made && marker != t.nf && Moves(s, marker, fi, bi, t, q, k, m)
    requires forall x :: x in tail ==> x in Some(t.made) || x == s.open[bi]
    requires j < |RoundStack(s.open, fi, bi, t) + tail| && b < q
    requires s.list[b] == (RoundStack(s.open, fi, bi, t) + tail)[j]
    ensures j < fi && s.list[b] == s.open[j]
  {
    var x := s.list[b];
    StackAbove(s.open, fi, bi, t, tail, j);
    assert x in s.list;
    if j >= fi {
      if x in s.kids {
        MadeAreNew(s, t.lo, t.made, x);
      }
      SomeMembers(t.made, x);
      NoneAbove(s.list, s.open, marker, fi, k, q, b);
    }
  }

  /** Clones are elements, so the marker is none of them. */
  lemma MarkerIsNoClone(s: State, marker: Node, fi: nat, bi: nat, t: Trace)
    requires Fits(s, fi, bi, t) && marker.kind != Element && forall i :: 0 <= i < |s.open| ==> s.open[i].kind == Element
    ensures marker !in t.made && marker != t.nf
  {
    SomeMembers(t.made, marker);
    if marker in t.made {
      ClonesAreElements(s, t.lo, t.made, marker);
    }
  }

  lemma EntriesMoved(list: seq<Node>, marker: Node, k: nat, m: nat, x: Node)
    requires Entries(list, marker) && k < |list| && m < |list| && list[k] != marker
    requires x.kind == list[k].kind && x.attributes == list[k].attributes
    ensures Entries(Moved(list, k, m, x), marker)
  {
    var r := Moved(list, k, m, x);
    forall a | 0 <= a < |r| && r[a] != marker
      ensures r[a].kind == Element && Unique(r[a].attributes)
    {
      MovedAt(list, k, m, x, a);
    }
  }

  /** The bound of three after a round. */
  lemma RoundArk(s: State, marker: Node, fi: nat, bi: nat, t: Trace, q: nat, k: nat, m: nat)
    requires Proper(s) && Fits(s, fi, bi, t) && ListDistinct(s.list, marker) && Listed(s, marker)
    requires marker !in t.made && marker != t.nf && Moves(s, marker, fi, bi, t, q, k, m)
    requires Entries(s.list, marker) && Ark(s.list, marker)
    ensures Entries(Round(s, fi, bi, t).list, marker) && Ark(Round(s, fi, bi, t).list, marker)
  {
    var l := ListAfter(s.list, s.open[t.lo..bi], t.made);
    VisitsKeepKinds(s, marker, fi, bi, t);
    FStays(s, fi, bi, t, k);
    ArkOfMove(s.list, l, marker, q, k, m, t.nf);
  }

  lemma NotBehind(list: seq<Node>, marker: Node, k: nat, q: nat)
    requires k < |list| && marker !in list[k..] && q <= |list| && (q > 0 ==> list[q - 1] == marker)
    ensures q <= k
  {
    assert forall i :: k <= i < |list| ==> list[k..][i - k] == list[i];
  }

  lemma ArkOfMove(list: seq<Node>, l: seq<Node>, marker: Node, q: nat, k: nat, m: nat, x: Node)
    requires SameKinds(list, l, marker) && Ark(list, marker) && Entries(l, marker) && x != marker
    requires q <= k < |list| && q <= m < |list| && (forall a :: q <= a < |list| ==> list[a] != marker)
    requires IsClone(x, l[k])
    ensures Ark(Moved(l, k, m, x), marker) && Entries(Moved(l, k, m, x), marker)
  {
    ArkSameKinds(list, l, marker);
    ArkMoved(l, marker, k, m, x);
    EntriesMoved(l, marker, k, m, x);
  }

  lemma FStays(s: State, fi: nat, bi: nat, t: Trace, k: nat)
    requires Proper(s) && Fits(s, fi, bi, t) && k < |s.list| && s.list[k] == s.open[fi]
    ensures SwapAll(s.list, s.open[t.lo..bi], t.made)[k] == s.open[fi]
  {
    assert s.open[fi] !in s.open[t.lo..bi];
    SwapKeeps(s.open[fi], s.open[t.lo..bi], t.made);
  }

  /**
    A round keeps the list as it should be, next to the stack after it, whatever of the last
    node is on top of that.
   */
  lemma RoundOrderly(s: State, marker: Node, fi: nat, bi: nat, t: Trace, k: nat, tail: seq<Node>)
    requires Proper(s) && Fits(s, fi, bi, t) && Listed(s, marker) && Orderly(s.list, s.open, marker)
    requires forall i :: 0 <= i < |s.open| ==> s.open[i].kind == Element
    requires k < |s.list| && s.list[k] == s.open[fi] && marker !in s.list[k..]
    requires forall x :: x in tail ==> x in Some(t.made) || x == s.open[bi]
    ensures Orderly(Round(s, fi, bi, t).list, RoundStack(s.open, fi, bi, t) + tail, marker)
  {
    MarkerIsNoClone(s, marker, fi, bi, t);
    var q := LastMarker(s.list, marker) + 1;
    assert s.list[k..][0] == s.list[k];
    NotBehind(s.list, marker, k, q);
    var m := MovesBehind(s, marker, fi, bi, t, q, k);
    RoundArk(s, marker, fi, bi, t, q, k, m);
    RoundStretches(s, marker, fi, bi, t, q, k, m, tail);
    assert s.open[fi] in s.list;
    RoundListDistinct(s, marker, fi, bi, t);
  }

  // ---------------------------------------------------------------------------------
  // Runs of the adoption agency
  // ---------------------------------------------------------------------------------

  lemma StretchesWithout(list: seq<Node>, open: seq<Node>, marker: Node, e: nat)
    requires Stretches(list, open, marker) && e < |list|
    ensures Stretches(Without(list, e), open, marker)
  {
    var r := Without(list, e);
    forall i: nat, j: nat, a: nat, b: nat, p: nat | i < j < |open| && Splits(r, open, marker, i, j, a, b, p)
      ensures p < b
    {
      assert Splits(list, open, marker, i, j,
                    if a < e then a else a + 1, if b < e then b else b + 1, if p < e then p else p + 1);
    }
  }

  lemma StretchesPrefix(list: seq<Node>, open: seq<Node>, marker: Node, n: nat)
    requires Stretches(list, open, marker) && n <= |open|
    ensures Stretches(list, open[..n], marker)
  {
    forall i: nat, j: nat, a: nat, b: nat, p: nat | i < j < n && Splits(list, open[..n], marker, i, j, a, b, p)
      ensures p < b
    {
      assert Splits(list, open, marker, i, j, a, b, p);
    }
  }

  /** An entry behind the last marker may go. */
  lemma OrderlyWithout(list: seq<Node>, open: seq<Node>, marker: Node, e: nat)
    requires Orderly(list, open, marker) && e < |list| && marker !in list[e..]
    ensures Orderly(Without(list, e), open, marker)
  {
    ArkWithout(list, marker, e);
    StretchesWithout(list, open, marker, e);
    WithoutDistinct(list, marker, e);
  }

  /** The entry of the list that a round works on. */
  lemma EntryBehind(list: seq<Node>, marker: Node, tag: Tag)
    requires ListDistinct(list, marker) && EntryOf(list, marker, tag) >= 0
    ensures var k := EntryOf(list, marker, tag); marker !in list[k..] && IndexIn(list, list[k]) == k
  {
  }

  lemma PutDomain(s: State, fi: nat, bi: nat, t: Trace, place: Place, x: Node)
    requires Proper(s) && Fits(s, fi, bi, t) && PlaceIn(LooseKids(s, bi, t), place)
    ensures x in PutKids(s, bi, t, place) <==> x in s.kids || x in Some(t.made) || x == t.nf
  {
    LooseDomain(s, fi, bi, t, x);
    LooseDomain(s, fi, bi, t, s.open[bi]);
  }

  /** Everything on the list after a round is in the tree after it. */
  lemma RoundListed(s: State, marker: Node, fi: nat, bi: nat, t: Trace, place: Place)
    requires Proper(s) && Fits(s, fi, bi, t) && Listed(s, marker) && ListDistinct(s.list, marker)
    requires PlaceIn(LooseKids(s, bi, t), place) && forall i :: 0 <= i < |s.open| ==> s.open[i].kind == Element
    ensures Listed(State(Round(s, fi, bi, t).list, RoundStack(s.open, fi, bi, t), PutKids(s, bi, t, place)), marker)
  {
    var xs := s.open[t.lo..bi];
    var l := ListAfter(s.list, xs, t.made);
    MarkerIsNoClone(s, marker, fi, bi, t);
    VisitsKeepKinds(s, marker, fi, bi, t);
    PutDomain(s, fi, bi, t, place, marker);
    SomeMembers(t.made, marker);
    ListFinalMembers(l, s.open[fi], t.mark, t.nf);
    forall x | x in Round(s, fi, bi, t).list
      ensures x == marker || x in PutKids(s, bi, t, place)
    {
      PutDomain(s, fi, bi, t, place, x);
      SomeMembers(t.made, x);
      if x != t.nf {
        var i :| 0 <= i < |l| && l[i] == x;
        SwapIs(s.list[i], xs, t.made);
        assert s.list[i] in s.list;
      }
    }
  }

  /** What a run keeps of its states: a stack that is ready and an orderly list. */
  ghost predicate Kept(s: State, marker: Node) {
    Ready(s) && Listed(s, marker) && Orderly(s.list, s.open, marker)
  }

  /** The same but for the stack. */
  ghost predicate ListKept(s: State, marker: Node) {
    Listed(s, marker) && Orderly(s.list, s.open, marker)
  }

  lemma AdoptedKept(s: State, marker: Node, tag: Tag, fi: nat, bi: nat, t: Trace, r: State)
    requires Kept(s, marker) && Follows(s, marker, tag, Adopted(fi, bi, t), r)
    ensures Kept(r, marker)
  {
    var k, kids, p := EntryOf(s.list, marker, tag), LooseKids(s, bi, t), s.open[fi - 1];
    ReadyIs(s);
    EntryBehind(s.list, marker, tag);
    assert Placed(s.kids, p, fi - 1);
    RoundReady(s, fi, bi, t);
    RoundOpen(s, fi, bi, t);
    RoundIsPut(s, fi, bi, t);
    assert RoundStack(s.open, fi, bi, t) + [] == RoundStack(s.open, fi, bi, t);
    RoundOrderly(s, marker, fi, bi, t, k, []);
    RoundListed(s, marker, fi, bi, t, Place(p, |kids[p]|));
  }

  lemma FosteredKept(s: State, marker: Node, tag: Tag, fi: nat, bi: nat, t: Trace, g: Foster, r: State)
    requires Kept(s, marker) && Follows(s, marker, tag, Fostered(fi, bi, t, g), r)
    ensures ListKept(r, marker) && (Ready(r) <==> !g.pushed)
  {
    var k := EntryOf(s.list, marker, tag);
    ReadyIs(s);
    EntryBehind(s.list, marker, tag);
    FosterReady(s, fi, bi, t, g);
    LastIsVisited(t.made, s.open[bi]);
    RoundOrderly(s, marker, fi, bi, t, k, Pushed(s, bi, t, g));
    RoundListed(s, marker, fi, bi, t, g.place);
  }

  lemma ClosedKept(s: State, marker: Node, tag: Tag, n: nat)
    requires Kept(s, marker) && EntryOf(s.list, marker, tag) >= 0 && 0 < n <= |s.open|
    ensures var f := s.list[EntryOf(s.list, marker, tag)];
            Kept(State(Without(s.list, IndexIn(s.list, f)), s.open[..n], s.kids), marker)
  {
    var k := EntryOf(s.list, marker, tag);
    EntryBehind(s.list, marker, tag);
    OrderlyWithout(s.list, s.open, marker, k);
    StretchesPrefix(Without(s.list, k), s.open, marker, n);
    PlacedPrefix(s.kids, s.open, n);
    WithoutShape(s.list, k);
  }

  /** Every round keeps the list orderly, and the stack ready unless it pushes a node that is open already. */
  lemma FollowsKept(s: State, marker: Node, tag: Tag, o: Outcome, r: State)
    requires Kept(s, marker) && Follows(s, marker, tag, o, r)
    ensures ListKept(r, marker) && (Ready(r) <==> !(o.Fostered? && o.g.pushed))
  {
    match o
    case NoEntry =>
    case NotOpen =>
      assert s.open[..|s.open|] == s.open;
      ClosedKept(s, marker, tag, |s.open|);
    case NotInScope =>
    case Closed(fi) => ClosedKept(s, marker, tag, fi);
    case Adopted(fi, bi, t) => AdoptedKept(s, marker, tag, fi, bi, t, r);
    case Fostered(fi, bi, t, g) => FosteredKept(s, marker, tag, fi, bi, t, g, r);
  }

  /** So does every run. */
  lemma {:induction false} RunsKept(run: seq<State>, os: seq<Outcome>, marker: Node, tag: Tag)
    requires Runs(run, os, marker, tag) && Kept(run[0], marker)
    ensures ListKept(Reached(run), marker) && (Ready(Reached(run)) <==> !Lost(os))
    decreases |os|
  {
    if os != [] {
      var n := |os| - 1;
      RunsKept(run[..n + 1], os[..n], marker, tag);
      FollowsKept(run[n], marker, tag, os[n], run[n + 1]);
    }
  }
}
