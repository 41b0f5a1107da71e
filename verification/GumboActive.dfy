/**
  The list of active formatting elements. Entries agree when they have the same tag, the same
  namespace and the same attributes in any order; between two scope markers at most three
  entries may agree (the Noah's Ark clause).
 */
module GumboActive {
  import opened GumboTags
  import opened GumboTree

  // ---------------------------------------------------------------------------------
  // Attributes
  // ---------------------------------------------------------------------------------

  function Lower(c: char): char {
    if 'A' <= c <= 'Z' then (c as int + 32) as char else c
  }

  function LowerCase(s: string): string {
    seq(|s|, i requires 0 <= i < |s| => Lower(s[i]))
  }

  /** The position of the first attribute with the name in any case, or -1. */
  function AttributeAt(attributes: seq<Attribute>, name: string): (k: int)
    ensures -1 <= k < |attributes|
    ensures k >= 0 ==> LowerCase(attributes[k].name) == LowerCase(name)
    ensures forall i :: 0 <= i < (if k < 0 then |attributes| else k) ==>
      LowerCase(attributes[i].name) != LowerCase(name)
  {
    if attributes == [] then -1
    else if LowerCase(attributes[0].name) == LowerCase(name) then 0
    else
      var k := AttributeAt(attributes[1..], name);
      if k < 0 then -1 else k + 1
  }

  predicate HasAttribute(attributes: seq<Attribute>, a: Attribute) {
    var k := AttributeAt(attributes, a.name);
    k >= 0 && attributes[k].value == a.value
  }

  /** all_attributes_match. */
  method AllAttributesMatch(a: seq<Attribute>, b: seq<Attribute>) returns (r: bool)
    ensures r == (|a| == |b| && forall i :: 0 <= i < |a| ==> HasAttribute(b, a[i]))
  {
    var unmatched: int := |b|;
    for i := 0 to |a|
      invariant unmatched == |b| - i
      invariant forall j :: 0 <= j < i ==> HasAttribute(b, a[j])
    {
      if HasAttribute(b, a[i]) {
        unmatched := unmatched - 1;
      } else {
        return false;
      }
    }
    return unmatched == 0;
  }

  /** No name twice, in any case. */
  predicate Unique(attributes: seq<Attribute>) {
    forall i, j :: 0 <= i < j < |attributes| ==> LowerCase(attributes[i].name) != LowerCase(attributes[j].name)
  }

  /** The attributes as a set, names in lower case. */
  function Pairs(attributes: seq<Attribute>): set<(string, string)> {
    set a | a in attributes :: (LowerCase(a.name), a.value)
  }

  function Pair(a: Attribute): (string, string) {
    (LowerCase(a.name), a.value)
  }

  lemma {:induction false} PairsCount(s: seq<Attribute>)
    requires Unique(s)
    ensures |Pairs(s)| == |s|
  {
    if s != [] {
      var n := |s| - 1;
      PairsCount(s[..n]);
      assert Pair(s[n]) !in Pairs(s[..n]);
      PairsLast(s);
    }
  }

  lemma PairsLast(s: seq<Attribute>)
    requires s != []
    ensures Pairs(s) == Pairs(s[..|s| - 1]) + {Pair(s[|s| - 1])}
  {
    var n := |s| - 1;
    assert s == s[..n] + [s[n]];
  }

  /** A subset of the same size is the whole set. */
  lemma SubsetOfSize<T>(a: set<T>, b: set<T>)
    requires a <= b && |a| == |b|
    ensures a == b
  {
    if x :| x in b && x !in a {
      assert a <= b - {x};
      SubsetSmaller(a, b - {x});
    }
  }

  lemma {:induction false} SubsetSmaller<T>(a: set<T>, b: set<T>)
    requires a <= b
    ensures |a| <= |b|
    decreases a
  {
    if a != {} {
      var x :| x in a;
      SubsetSmaller(a - {x}, b - {x});
    }
  }

  lemma HasAttributePair(s: seq<Attribute>, a: Attribute)
    requires Unique(s)
    ensures HasAttribute(s, a) <==> Pair(a) in Pairs(s)
  {
    if Pair(a) in Pairs(s) {
      var b :| b in s && Pair(b) == Pair(a);
      var i :| 0 <= i < |s| && s[i] == b;
      assert Pair(b).0 == Pair(a).0;
      var k := AttributeAt(s, a.name);
      assert k >= 0 && !(k < i) && !(i < k);
    }
  }

  /** With unique names, matching is having the same attributes: reflexive, symmetric and transitive. */
  lemma MatchIsSamePairs(a: seq<Attribute>, b: seq<Attribute>)
    requires Unique(a) && Unique(b)
    ensures (|a| == |b| && forall i :: 0 <= i < |a| ==> HasAttribute(b, a[i])) <==> Pairs(a) == Pairs(b)
  {
    PairsCount(a);
    PairsCount(b);
    forall i | 0 <= i < |a|
      ensures HasAttribute(b, a[i]) <==> Pair(a[i]) in Pairs(b)
    {
      HasAttributePair(b, a[i]);
    }
    if |a| == |b| && forall i :: 0 <= i < |a| ==> HasAttribute(b, a[i]) {
      forall p | p in Pairs(a)
        ensures p in Pairs(b)
      {
        var x :| x in a && Pair(x) == p;
        var i :| 0 <= i < |a| && a[i] == x;
      }
      SubsetOfSize(Pairs(a), Pairs(b));
    } else if Pairs(a) == Pairs(b) {
      forall i | 0 <= i < |a|
        ensures HasAttribute(b, a[i])
      {
        assert a[i] in a;
        assert Pair(a[i]) in Pairs(a);
      }
    }
  }

  /** Without unique names matching is not even symmetric. */
  lemma MatchNeedsUnique()
    ensures var x, y := Attribute("x", "1"), Attribute("y", "2");
            var a, b := [x, x], [x, y];
            && (forall i :: 0 <= i < |a| ==> HasAttribute(b, a[i]))
            && !(forall i :: 0 <= i < |b| ==> HasAttribute(a, b[i]))
  {
    var x, y := Attribute("x", "1"), Attribute("y", "2");
    assert LowerCase("y")[0] != LowerCase("x")[0];
    assert !HasAttribute([x, x], [x, y][1]);
  }

  // ---------------------------------------------------------------------------------
  // Agreeing entries
  // ---------------------------------------------------------------------------------

  datatype Key = Key(tag: Tag, ns: Namespace, attributes: set<(string, string)>)

  function KeyOf(n: Node): Key {
    Key(n.tag, n.ns, Pairs(n.attributes))
  }

  /** How many entries after the last marker have the key. */
  function TailCount(list: seq<Node>, marker: Node, key: Key): nat {
    if list == [] || list[|list| - 1] == marker then 0
    else
      var n := |list| - 1;
      TailCount(list[..n], marker, key) + if KeyOf(list[n]) == key then 1 else 0
  }

  /** Noah's Ark: up to every point of the list, at most three of a kind since the marker before it. */
  ghost predicate Ark(list: seq<Node>, marker: Node) {
    forall n, key :: 0 <= n <= |list| ==> TailCount(list[..n], marker, key) <= 3
  }

  /** How many entries have the key. */
  function Count(list: seq<Node>, key: Key): nat {
    if list == [] then 0
    else
      var n := |list| - 1;
      Count(list[..n], key) + if KeyOf(list[n]) == key then 1 else 0
  }

  lemma {:induction false} SegmentCount(list: seq<Node>, marker: Node, key: Key, i: nat, j: nat)
    requires i <= j <= |list| && marker !in list[i..j]
    ensures Count(list[i..j], key) <= TailCount(list[..j], marker, key)
    decreases j
  {
    if i < j {
      var n := j - 1;
      assert list[i..j][j - i - 1] == list[n];
      assert list[i..j][..j - i - 1] == list[i..n] && list[..j][..n] == list[..n];
      assert marker !in list[i..n];
      SegmentCount(list, marker, key, i, n);
    }
  }

  /** No stretch of the list without a marker holds four entries that agree. */
  lemma ArkSegments(list: seq<Node>, marker: Node, key: Key, i: nat, j: nat)
    requires Ark(list, marker) && i <= j <= |list| && marker !in list[i..j]
    ensures Count(list[i..j], key) <= 3
  {
    SegmentCount(list, marker, key, i, j);
  }

  // ---------------------------------------------------------------------------------
  // Adding, replacing and clearing
  // ---------------------------------------------------------------------------------

  /** The list without its entry at e. */
  function Without(list: seq<Node>, e: nat): seq<Node>
    requires e < |list|
  {
    list[..e] + list[e + 1..]
  }

  lemma WithoutLast(list: seq<Node>, e: nat, marker: Node)
    requires e < |list| - 1 && marker !in list[e..]
    ensures var n, r := |list| - 1, Without(list, e);
            |r| == n && r[n - 1] == list[n] && list[n] != marker && r[..n - 1] == Without(list[..n], e)
    ensures marker !in list[..|list| - 1][e..]
  {
    var n := |list| - 1;
    assert list[e..][n - e] == list[n];
    assert forall x :: x in list[..n][e..] ==> x in list[e..];
  }

  lemma {:induction false} WithoutCount(list: seq<Node>, marker: Node, key: Key, e: nat)
    requires e < |list| && marker !in list[e..]
    ensures TailCount(Without(list, e), marker, key) ==
            TailCount(list, marker, key) - if KeyOf(list[e]) == key then 1 else 0
    decreases |list|
  {
    var n := |list| - 1;
    if e < n {
      WithoutLast(list, e, marker);
      WithoutCount(list[..n], marker, key, e);
    } else {
      assert Without(list, e) == list[..n];
    }
  }

  lemma ArkPrefix(list: seq<Node>, marker: Node, n: nat)
    requires Ark(list, marker) && n <= |list|
    ensures Ark(list[..n], marker)
  {
    forall m, key | 0 <= m <= n
      ensures TailCount(list[..n][..m], marker, key) <= 3
    {
      assert list[..n][..m] == list[..m];
    }
  }

  lemma ArkWithout(list: seq<Node>, marker: Node, e: nat)
    requires Ark(list, marker) && e < |list| && marker !in list[e..]
    ensures Ark(Without(list, e), marker)
  {
    var s := Without(list, e);
    forall m, key | 0 <= m <= |s|
      ensures TailCount(s[..m], marker, key) <= 3
    {
      if m <= e {
        assert s[..m] == list[..m];
      } else {
        assert s[..m] == Without(list[..m + 1], e);
        assert forall x :: x in list[..m + 1][e..] ==> x in list[e..];
        WithoutCount(list[..m + 1], marker, key, e);
      }
    }
  }

  lemma ArkAppend(list: seq<Node>, marker: Node, node: Node)
    requires Ark(list, marker) && (node == marker || TailCount(list, marker, KeyOf(node)) < 3)
    ensures Ark(list + [node], marker)
  {
    var s := list + [node];
    forall m, key | 0 <= m <= |s|
      ensures TailCount(s[..m], marker, key) <= 3
    {
      assert list[..|list|] == list;
      if m <= |list| {
        assert s[..m] == list[..m];
      } else {
        assert s[..m] == s && s[..|list|] == list;
      }
    }
  }

  /** Entries replaced by others with the same key, markers by markers. */
  predicate SameKinds(a: seq<Node>, b: seq<Node>, marker: Node) {
    |a| == |b| && forall i :: 0 <= i < |a| ==> (a[i] == marker <==> b[i] == marker) && KeyOf(a[i]) == KeyOf(b[i])
  }

  lemma {:induction false} SameKindsCount(a: seq<Node>, b: seq<Node>, marker: Node, key: Key)
    requires SameKinds(a, b, marker)
    ensures TailCount(a, marker, key) == TailCount(b, marker, key)
    decreases |a|
  {
    if a != [] {
      var n := |a| - 1;
      SameKindsCount(a[..n], b[..n], marker, key);
    }
  }

  /** Replacing entries by clones changes no count. */
  lemma ArkSameKinds(a: seq<Node>, b: seq<Node>, marker: Node)
    requires Ark(a, marker) && SameKinds(a, b, marker)
    ensures Ark(b, marker)
  {
    forall m, key | 0 <= m <= |b|
      ensures TailCount(b[..m], marker, key) <= 3
    {
      SameKindsCount(a[..m], b[..m], marker, key);
    }
  }

  /** Elements whose attribute names are unique, between markers. */
  predicate Entries(list: seq<Node>, marker: Node) {
    forall i :: 0 <= i < |list| && list[i] != marker ==> list[i].kind == Element && Unique(list[i].attributes)
  }

  method Agrees(entry: Node, node: Node) returns (r: bool)
    requires entry.kind == Element && Unique(entry.attributes) && Unique(node.attributes)
    ensures r <==> KeyOf(entry) == KeyOf(node)
  {
    MatchIsSamePairs(entry.attributes, node.attributes);
    var same := AllAttributesMatch(entry.attributes, node.attributes);
    return entry.Is(node.tag) && entry.ns == node.ns && same;
  }

  /** The first of the entries since the last marker that have the key. */
  ghost predicate IsEarliest(list: seq<Node>, marker: Node, key: Key, e: int) {
    && 0 <= e < |list| && marker !in list[e..] && KeyOf(list[e]) == key
    && TailCount(list[..e], marker, key) == 0
  }

  /** count_formatting_elements_of_tag: how many entries since the last marker agree, and the first of them. */
  method CountAgreeing(list: seq<Node>, marker: Node, node: Node) returns (count: nat, earliest: int)
    requires Entries(list, marker) && Unique(node.attributes)
    ensures count == TailCount(list, marker, KeyOf(node))
    ensures count > 0 ==> IsEarliest(list, marker, KeyOf(node), earliest)
  {
    ghost var key := KeyOf(node);
    count, earliest := 0, |list|;
    var i := |list|;
    assert list[..i] == list;
    while i > 0
      invariant 0 <= i <= |list| && marker !in list[i..]
      invariant TailCount(list, marker, key) == TailCount(list[..i], marker, key) + count
      invariant count > 0 ==> i <= earliest < |list| && KeyOf(list[earliest]) == key
      invariant count > 0 ==> TailCount(list[..earliest], marker, key) == TailCount(list[..i], marker, key)
    {
      i := i - 1;
      assert list[..i + 1][..i] == list[..i];
      if list[i] == marker {
        break;
      }
      var same := Agrees(list[i], node);
      if same {
        count, earliest := count + 1, i;
      }
    }
  }

  /** The list with a node added, the earliest of three that agree making room for it. */
  ghost predicate IsAdded(before: seq<Node>, marker: Node, node: Node, gone: int, after: seq<Node>) {
    if TailCount(before, marker, KeyOf(node)) < 3 then gone == -1 && after == before + [node]
    else IsEarliest(before, marker, KeyOf(node), gone) && after == Without(before, gone) + [node]
  }

  lemma ArkFull(list: seq<Node>, marker: Node, key: Key)
    requires Ark(list, marker)
    ensures TailCount(list, marker, key) <= 3
  {
    assert list[..|list|] == list;
  }

  /** add_formatting_element. */
  method AddEntry(list: seq<Node>, marker: Node, node: Node) returns (r: seq<Node>, ghost gone: int)
    requires Entries(list, marker) && Unique(node.attributes) && Ark(list, marker)
    ensures IsAdded(list, marker, node, gone, r) && Ark(r, marker)
    ensures node == marker || node.kind == Element ==> Entries(r, marker)
    ensures forall i :: 0 <= i < |r| ==> r[i] in list || r[i] == node
  {
    r, gone := list, -1;
    var count, earliest := CountAgreeing(list, marker, node);
    if count >= 3 {
      ArkFull(list, marker, KeyOf(node));
      ArkWithout(list, marker, earliest);
      WithoutCount(list, marker, KeyOf(node), earliest);
      r, gone := list[..earliest] + list[earliest + 1..], earliest;
    }
    ArkAppend(r, marker, node);
    r := r + [node];
  }

  // ---------------------------------------------------------------------------------
  // What reconstruction keeps
  // ---------------------------------------------------------------------------------

  /** The last entry that is a marker or open, or -1. */
  function LastKept(list: seq<Node>, open: seq<Node>, marker: Node): (k: int)
    ensures -1 <= k < |list|
    ensures k >= 0 ==> list[k] == marker || list[k] in open
    ensures forall i :: k < i < |list| ==> list[i] != marker && list[i] !in open
  {
    if list == [] then -1
    else
      var n := |list| - 1;
      if list[n] == marker || list[n] in open then n else LastKept(list[..n], open, marker)
  }

  /** The last marker, or -1. */
  function LastMarker(list: seq<Node>, marker: Node): (k: int)
    ensures -1 <= k < |list|
    ensures k >= 0 ==> list[k] == marker
    ensures forall i :: k < i < |list| ==> list[i] != marker
  {
    LastKept(list, [], marker)
  }

  predicate IsClone(c: Node, n: Node) {
    c.kind == n.kind && c.tag == n.tag && c.ns == n.ns && c.attributes == n.attributes
  }

  /** The list with part of it, from `start` on, replaced by new nodes. */
  function Splice(list: seq<Node>, start: nat, clones: seq<Node>): seq<Node>
    requires start + |clones| <= |list|
  {
    list[..start] + clones + list[start + |clones|..]
  }

  lemma SpliceStep(list: seq<Node>, start: nat, clones: seq<Node>, c: Node)
    requires start + |clones| < |list|
    ensures Splice(list, start, clones)[start + |clones| := c] == Splice(list, start, clones + [c])
  {
  }

  /** Clones of the entries from `start` on, in order. */
  predicate AreClones(clones: seq<Node>, list: seq<Node>, start: nat) {
    start + |clones| <= |list| && forall j :: 0 <= j < |clones| ==> IsClone(clones[j], list[start + j])
  }

  lemma ClonesStep(clones: seq<Node>, list: seq<Node>, start: nat, c: Node)
    requires AreClones(clones, list, start) && Distinct(clones) && c !in clones
    requires start + |clones| < |list| && IsClone(c, list[start + |clones|])
    ensures AreClones(clones + [c], list, start) && Distinct(clones + [c])
  {
  }

  lemma SpliceFirst(list: seq<Node>, start: nat, c: Node, rest: seq<Node>)
    requires start + 1 + |rest| <= |list| && IsClone(c, list[start]) && AreClones(rest, list[start := c], start + 1)
    ensures AreClones([c] + rest, list, start)
    ensures Splice(list[start := c], start + 1, rest) == Splice(list, start, [c] + rest)
  {
    assert list[start := c][..start + 1] == list[..start] + [c];
    assert list[start := c][start + 1 + |rest|..] == list[start + 1 + |rest|..];
  }

  lemma SpliceKinds(list: seq<Node>, start: nat, clones: seq<Node>, marker: Node)
    requires AreClones(clones, list, start) && marker !in clones
    requires forall j :: start <= j < start + |clones| ==> list[j] != marker
    ensures SameKinds(list, Splice(list, start, clones), marker)
    ensures Entries(list, marker) ==> Entries(Splice(list, start, clones), marker)
  {
    var after := Splice(list, start, clones);
    forall i | 0 <= i < |list|
      ensures (list[i] == marker <==> after[i] == marker) && KeyOf(list[i]) == KeyOf(after[i])
    {
      if start <= i < start + |clones| {
        assert after[i] == clones[i - start] && IsClone(clones[i - start], list[i]);
      }
    }
    forall i | 0 <= i < |list| && after[i] != marker && Entries(list, marker)
      ensures after[i].kind == Element && Unique(after[i].attributes)
    {
      if start <= i < start + |clones| {
        assert after[i] == clones[i - start] && IsClone(clones[i - start], list[i]);
      }
    }
  }

  function Members(s: seq<Node>): set<Node> {
    set n | n in s
  }

  lemma MembersStep(s: seq<Node>, n: Node)
    ensures Members(s + [n]) == Members(s) + {n}
  {
  }

  /** The end of a chain that hangs from p. */
  function ChainEnd(p: Node, chain: seq<Node>): Node {
    if chain == [] then p else chain[|chain| - 1]
  }

  /** The tree after a chain of new nodes has been hung from p, each the only child of the one before. */
  ghost predicate IsChained(kids: map<Node, seq<Node>>, p: Node, chain: seq<Node>, r: map<Node, seq<Node>>)
    requires p in kids
  {
    && r.Keys == kids.Keys + Members(chain)
    && (forall x :: x in kids ==> r[x] == if x == p && chain != [] then kids[p] + [chain[0]] else kids[x])
    && (forall i :: 0 <= i < |chain| - 1 ==> r[chain[i]] == [chain[i + 1]])
    && (chain != [] ==> r[chain[|chain| - 1]] == [])
  }

  /** The tree with a new node as the last child of q. */
  function WithLastChild(kids: map<Node, seq<Node>>, q: Node, c: Node): map<Node, seq<Node>>
    requires q in kids
  {
    kids[c := []][q := kids[q] + [c]]
  }

  lemma ChainLinks(chain: seq<Node>, r: map<Node, seq<Node>>, q: Node, c: Node, i: nat)
    requires forall n :: n in chain ==> n in r
    requires q in r && c !in r && Distinct(chain) && i < |chain| && q == chain[|chain| - 1] && r[q] == []
    requires i < |chain| - 1 ==> r[chain[i]] == [chain[i + 1]]
    ensures WithLastChild(r, q, c)[chain[i]] == [(chain + [c])[i + 1]]
  {
    assert chain[i] in chain;
    if i == |chain| - 1 {
      assert r[q] + [c] == [c];
    } else {
      assert chain[i] != q;
    }
  }

  lemma ChainGrows(kids: map<Node, seq<Node>>, p: Node, chain: seq<Node>, r: map<Node, seq<Node>>, c: Node)
    requires p in kids && IsChained(kids, p, chain, r)
    requires c !in r && Distinct(chain) && forall x :: x in chain ==> x !in kids
    ensures ChainEnd(p, chain) in r && IsChained(kids, p, chain + [c], WithLastChild(r, ChainEnd(p, chain), c))
  {
    var n, q, longer := |chain|, ChainEnd(p, chain), chain + [c];
    MembersStep(chain, c);
    assert longer[0] == if chain == [] then c else chain[0];
    forall i | 0 <= i < n
      ensures WithLastChild(r, q, c)[longer[i]] == [longer[i + 1]]
    {
      ChainLinks(chain, r, q, c, i);
    }
  }

  // ---------------------------------------------------------------------------------
  // Reconstruction
  // ---------------------------------------------------------------------------------

  /** What reconstruction works on: the list, the stack and the tree. */
  datatype State = State(list: seq<Node>, open: seq<Node>, kids: map<Node, seq<Node>>) {
    predicate Ok() {
      open != [] && Current() in kids
    }

    function Current(): Node
      requires open != []
    {
      open[|open| - 1]
    }
  }

  /** An entry is replaced by a clone, which is pushed as the last child of the current node. */
  function Next(t: State, i: nat, c: Node): (r: State)
    requires i < |t.list| && t.Ok()
    ensures r.Ok() && r.Current() == c && |r.list| == |t.list|
  {
    State(t.list[i := c], t.open + [c], WithLastChild(t.kids, t.Current(), c))
  }

  /** That for all entries from `start` on that have a clone, one after the other. */
  function Reconstructed(s: State, start: nat, clones: seq<Node>): (r: State)
    requires start + |clones| <= |s.list| && s.Ok()
    ensures r.Ok() && |r.list| == |s.list|
  {
    if clones == [] then s
    else
      var n := |clones| - 1;
      Next(Reconstructed(s, start, clones[..n]), start + n, clones[n])
  }

  lemma ReconstructedStep(s: State, start: nat, clones: seq<Node>, c: Node)
    requires start + |clones| < |s.list| && s.Ok()
    ensures Reconstructed(s, start, clones + [c]) == Next(Reconstructed(s, start, clones), start + |clones|, c)
  {
    assert (clones + [c])[..|clones|] == clones;
  }

  /** The clones are new, none of them is there twice, and each is one of its entry. */
  ghost predicate NewClones(s: State, start: nat, clones: seq<Node>)
    decreases |clones|
  {
    clones == [] ||
    var n := |clones| - 1;
    && NewClones(s, start, clones[..n]) && clones[n] !in clones[..n] && clones[n] !in s.kids
    && start + n < |s.list| && IsClone(clones[n], s.list[start + n])
  }

  lemma NewClonesStep(s: State, start: nat, clones: seq<Node>, c: Node)
    requires NewClones(s, start, clones) && c !in clones && c !in s.kids
    requires start + |clones| < |s.list| && IsClone(c, s.list[start + |clones|])
    ensures NewClones(s, start, clones + [c])
  {
    assert (clones + [c])[..|clones|] == clones;
  }

  lemma {:induction false} NewClonesAre(s: State, start: nat, clones: seq<Node>)
    requires NewClones(s, start, clones) && start <= |s.list|
    ensures AreClones(clones, s.list, start) && Distinct(clones) && forall c :: c in clones ==> c !in s.kids
    decreases |clones|
  {
    if clones != [] {
      var n := |clones| - 1;
      NewClonesAre(s, start, clones[..n]);
      ClonesStep(clones[..n], s.list, start, clones[n]);
      assert clones[..n] + [clones[n]] == clones;
    }
  }

  /** Every clone is in the tree. */
  lemma {:induction false} ClonesInTree(s: State, start: nat, clones: seq<Node>, c: Node)
    requires start + |clones| <= |s.list| && s.Ok() && (c in s.kids || c in clones)
    ensures c in Reconstructed(s, start, clones).kids
    decreases |clones|
  {
    if clones != [] {
      var n := |clones| - 1;
      if c in s.kids || c in clones[..n] {
        ClonesInTree(s, start, clones[..n], c);
      }
    }
  }

  /** Entries without a clone yet are as they were. */
  lemma {:induction false} ReconstructedRest(s: State, start: nat, clones: seq<Node>, i: nat)
    requires start + |clones| <= i < |s.list| && s.Ok()
    ensures Reconstructed(s, start, clones).list[i] == s.list[i]
    decreases |clones|
  {
    if clones != [] {
      ReconstructedRest(s, start, clones[..|clones| - 1], i);
    }
  }

  /** The list keeps its front and gets the clones, the stack is extended by them. */
  lemma {:induction false} ReconstructedLists(s: State, start: nat, clones: seq<Node>)
    requires start + |clones| <= |s.list| && s.Ok()
    ensures Reconstructed(s, start, clones).list == Splice(s.list, start, clones)
    ensures Reconstructed(s, start, clones).open == s.open + clones
    decreases |clones|
  {
    if clones != [] {
      var n := |clones| - 1;
      ReconstructedLists(s, start, clones[..n]);
      SpliceStep(s.list, start, clones[..n], clones[n]);
      assert clones[..n] + [clones[n]] == clones;
    }
  }

  /** Each clone is the only child of the one before, and the first the last child of the current node. */
  lemma {:induction false} ReconstructedKids(s: State, start: nat, clones: seq<Node>)
    requires start + |clones| <= |s.list| && s.Ok() && Distinct(clones)
    requires forall c :: c in clones ==> c !in s.kids
    ensures IsChained(s.kids, s.Current(), clones, Reconstructed(s, start, clones).kids)
    decreases |clones|
  {
    if clones != [] {
      var n := |clones| - 1;
      var front, c := clones[..n], clones[n];
      var t := Reconstructed(s, start, front);
      ReconstructedKids(s, start, front);
      ReconstructedLists(s, start, front);
      assert c in clones && c !in front && c !in t.kids;
      assert t.Current() == ChainEnd(s.Current(), front);
      ChainGrows(s.kids, s.Current(), front, t.kids, c);
      assert front + [c] == clones;
    }
  }
}
