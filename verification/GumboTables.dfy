/**
  Documents whose open parts of tables stand in tables. There an insertion always finds its
  table, and the adoption agency never pushes a node that is open already, unless a table
  itself is the furthest block.
 */
module GumboTables {
  import opened GumboTags
  import opened GumboTree
  import opened GumboStack
  import opened GumboActive
  import opened GumboParser
  import opened GumboAdoption
  import opened GumboRound
  import opened GumboReady
  import opened GumboFoster
  import opened GumboOutcome
  import opened GumboMarkers
  import opened GumboTreeRuns

  predicate IsTable(x: Node) {
    x.Is(TABLE) && Special(x.ns, x.tag)
  }

  /**
    Every part of a table on the stack has a table of HTML at or below it, from the third position
    on, and the second element, such as body, is a special one.
   */
  ghost predicate Tabled(open: seq<Node>) {
    && (|open| > 1 ==> Special(open[1].ns, open[1].tag))
    && forall i :: 0 <= i < |open| && IsTablePart(open[i].tag) ==> InTable(open, i)
  }

  ghost predicate InTable(open: seq<Node>, i: nat)
    requires i < |open|
  {
    exists k :: 2 <= k <= i && IsTable(open[k])
  }

  /** A fostered insertion has a table to go in front of. */
  lemma TabledHasTable(open: seq<Node>)
    requires Tabled(open) && open != [] && IsTablePart(open[|open| - 1].tag)
    ensures !IsTableAt(open, -1)
  {
    assert InTable(open, |open| - 1);
  }

  /** A fostered round pushes exactly when the block is the topmost table and no visited element is listed. */
  lemma PushesWhenTabled(s: State, fi: nat, bi: nat)
    requires Ready(s) && Tabled(s.open) && 0 < fi < bi < |s.open| && IsTablePart(s.open[fi - 1].tag)
    ensures Pushes(s, Lowest(fi, bi), bi) <==>
            TopTable(s.open, Lowest(fi, bi), bi, bi) && forall i :: Lowest(fi, bi) <= i < bi ==> s.open[i] !in s.list
  {
    assert InTable(s.open, fi - 1);
    PushesWhenReady(s, Lowest(fi, bi), bi);
  }

  // ---------------------------------------------------------------------------------
  // Rounds
  // ---------------------------------------------------------------------------------

  lemma StackAt(open: seq<Node>, fi: nat, bi: nat, t: Trace, i: nat)
    requires 0 < fi < t.lo <= bi < |open| && i < |RoundStack(open, fi, bi, t)|
    ensures var b := t.lo - 1 + |Some(t.made)|;
            RoundStack(open, fi, bi, t)[i] ==
            if i < fi then open[i] else if i < t.lo - 1 then open[i + 1] else if i < b then Some(t.made)[i - (t.lo - 1)]
            else if i == b then open[bi] else if i == b + 1 then t.nf else open[i + bi - b - 1]
  {
  }

  lemma {:induction false} CloneOf(s: State, lo: nat, made: seq<Node?>, c: Node) returns (x: nat)
    requires MadeFor(s, lo, made) && c in Some(made)
    ensures lo <= x < lo + |made| && x < |s.open| && IsClone(c, s.open[x])
    decreases |made|
  {
    if c == made[0] {
      x := lo;
    } else {
      x := CloneOf(s, lo + 1, made[1..], c);
    }
  }

  /** The table of a part of a table below the block is below F. */
  lemma TableBelow(open: seq<Node>, fi: nat, bi: nat, x: nat)
    requires Tabled(open) && IsBlock(open, fi, bi) && x < bi && IsTablePart(open[x].tag)
    ensures exists k :: 2 <= k < fi && k <= x && IsTable(open[k])
  {
    assert InTable(open, x);
    var k :| 2 <= k <= x && IsTable(open[k]);
    assert k < fi;
  }

  /** The same for what a round leaves below the block, and for the clone of F. */
  lemma TableBelowClone(s: State, fi: nat, bi: nat, t: Trace, i: nat)
    requires Tabled(s.open) && Fits(s, fi, bi, t) && IsBlock(s.open, fi, bi)
    requires i < |RoundStack(s.open, fi, bi, t)| && IsTablePart(RoundStack(s.open, fi, bi, t)[i].tag)
    requires var b := t.lo - 1 + |Some(t.made)|; i < b || i == b + 1
    ensures exists k :: 2 <= k < fi && k <= i && IsTable(s.open[k])
  {
    var b := t.lo - 1 + |Some(t.made)|;
    StackAt(s.open, fi, bi, t, i);
    var x := if i < fi then i else if i < t.lo - 1 then i + 1 else fi;
    if t.lo - 1 <= i < b {
      x := CloneOf(s, t.lo, t.made, Some(t.made)[i - (t.lo - 1)]);
    }
    TableBelow(s.open, fi, bi, x);
  }

  /** Where a table is after a round. */
  lemma TableAfter(open: seq<Node>, fi: nat, bi: nat, t: Trace, k: nat) returns (n: nat)
    requires 2 <= fi < t.lo <= bi < |open| && 2 <= k < |open| && IsTable(open[k]) && (k < fi || bi <= k)
    ensures n == if k < fi then k else if k == bi then t.lo - 1 + |Some(t.made)| else k + t.lo + |Some(t.made)| - bi
    ensures 2 <= n < |RoundStack(open, fi, bi, t)| && IsTable(RoundStack(open, fi, bi, t)[n])
  {
    n := if k < fi then k else if k == bi then t.lo - 1 + |Some(t.made)| else k + t.lo + |Some(t.made)| - bi;
    StackAt(open, fi, bi, t, n);
  }

  /** The block and what is above it. */
  lemma TableAbove(open: seq<Node>, fi: nat, bi: nat, t: Trace, i: nat)
    requires Tabled(open) && 2 <= fi < t.lo <= bi < |open| && IsBlock(open, fi, bi)
    requires var b := t.lo - 1 + |Some(t.made)|; i >= b && i != b + 1
    requires i < |RoundStack(open, fi, bi, t)| && IsTablePart(RoundStack(open, fi, bi, t)[i].tag)
    ensures InTable(RoundStack(open, fi, bi, t), i)
  {
    var b := t.lo - 1 + |Some(t.made)|;
    StackAt(open, fi, bi, t, i);
    var j := if i == b then bi else i + bi - b - 1;
    assert InTable(open, j);
    var k :| 2 <= k <= j && IsTable(open[k]);
    var n := TableAfter(open, fi, bi, t, k);
    assert n <= i;
  }

  lemma RoundInTable(s: State, fi: nat, bi: nat, t: Trace, i: nat)
    requires Tabled(s.open) && Fits(s, fi, bi, t) && IsBlock(s.open, fi, bi) && 2 <= fi
    requires i < |RoundStack(s.open, fi, bi, t)| && IsTablePart(RoundStack(s.open, fi, bi, t)[i].tag)
    ensures InTable(RoundStack(s.open, fi, bi, t), i)
  {
    var b := t.lo - 1 + |Some(t.made)|;
    if i < b || i == b + 1 {
      TableBelowClone(s, fi, bi, t, i);
      var k :| 2 <= k < fi && k <= i && IsTable(s.open[k]);
      var n := TableAfter(s.open, fi, bi, t, k);
    } else {
      TableAbove(s.open, fi, bi, t, i);
    }
  }

  /** Tables stay where they are, or move down with the block; nothing else is put in that has no table below. */
  lemma RoundTabled(s: State, fi: nat, bi: nat, t: Trace)
    requires Tabled(s.open) && Fits(s, fi, bi, t) && IsBlock(s.open, fi, bi)
    ensures Tabled(RoundStack(s.open, fi, bi, t))
  {
    var r := RoundStack(s.open, fi, bi, t);
    assert 2 <= fi;
    StackAt(s.open, fi, bi, t, 1);
    forall i | 0 <= i < |r| && IsTablePart(r[i].tag)
      ensures InTable(r, i)
    {
      RoundInTable(s, fi, bi, t, i);
    }
  }

  /** What is listed is formatting. */
  predicate Formatting(list: seq<Node>, marker: Node) {
    forall i :: 0 <= i < |list| ==> list[i] == marker || IsFormatting(list[i].tag)
  }

  lemma RoundFormatting(s: State, marker: Node, fi: nat, bi: nat, t: Trace)
    requires Kept(s, marker) && Fits(s, fi, bi, t) && Formatting(s.list, marker) && s.open[fi] in s.list
    ensures Formatting(Round(s, fi, bi, t).list, marker)
  {
    var l := ListAfter(s.list, s.open[t.lo..bi], t.made);
    ReadyIs(s);
    MarkerIsNoClone(s, marker, fi, bi, t);
    VisitsKeepKinds(s, marker, fi, bi, t);
    ListFinalMembers(l, s.open[fi], t.mark, t.nf);
    assert forall i :: 0 <= i < |l| ==> KeyOf(l[i]) == KeyOf(s.list[i]);
    assert Formatting(l, marker);
    assert Placed(s.kids, s.open[fi], fi);
    assert IsFormatting(t.nf.tag);
  }

  // ---------------------------------------------------------------------------------
  // Runs
  // ---------------------------------------------------------------------------------

  /** What a run keeps where parts of tables stand in tables. */
  ghost predicate KeptInTables(s: State, marker: Node) {
    Kept(s, marker) && Tabled(s.open) && Formatting(s.list, marker)
  }

  /** The block of a fostered round is no table. */
  predicate BlockIsNoTable(s: State, o: Outcome) {
    o.Fostered? ==> o.bi < |s.open| && !s.open[o.bi].Is(TABLE)
  }

  lemma TabledPrefix(open: seq<Node>, n: nat)
    requires Tabled(open) && n <= |open|
    ensures Tabled(open[..n])
  {
    forall i | 0 <= i < n && IsTablePart(open[i].tag)
      ensures InTable(open[..n], i)
    {
      assert InTable(open, i);
      var k :| 2 <= k <= i && IsTable(open[k]);
      assert IsTable(open[..n][k]);
    }
  }

  lemma FormattingWithout(list: seq<Node>, marker: Node, e: nat)
    requires Formatting(list, marker) && e < |list|
    ensures Formatting(Without(list, e), marker)
  {
  }

  lemma FosteredStays(s: State, marker: Node, fi: nat, bi: nat, t: Trace, g: Foster)
    requires KeptInTables(s, marker) && Fits(s, fi, bi, t) && FitsFoster(s, bi, t, g) && !s.open[bi].Is(TABLE)
    requires Spotted(s.kids, s.open[bi], t.spot) && IsTablePart(s.open[fi - 1].tag)
    ensures !g.pushed
  {
    ReadyIs(s);
    assert forall i :: 0 <= i < |s.open| ==> Placed(s.kids, s.open[i], i);
    assert Formatted(s);
    PushesWhenTabled(s, fi, bi);
    PushesExactly(s, fi, bi, t, g);
  }

  lemma FosteredInTables(s: State, marker: Node, tag: Tag, fi: nat, bi: nat, t: Trace, g: Foster, r: State)
    requires KeptInTables(s, marker) && Follows(s, marker, tag, Fostered(fi, bi, t, g), r) && !s.open[bi].Is(TABLE)
    ensures !g.pushed && KeptInTables(r, marker)
  {
    FosteredStays(s, marker, fi, bi, t, g);
    FollowsKept(s, marker, tag, Fostered(fi, bi, t, g), r);
    RoundTabled(s, fi, bi, t);
    RoundFormatting(s, marker, fi, bi, t);
    assert r.open == RoundStack(s.open, fi, bi, t);
  }

  /** No outcome loses this but a fostered round with a table as its block. */
  lemma FollowsInTables(s: State, marker: Node, tag: Tag, o: Outcome, r: State)
    requires KeptInTables(s, marker) && Follows(s, marker, tag, o, r) && BlockIsNoTable(s, o)
    ensures KeptInTables(r, marker) && !(o.Fostered? && o.g.pushed)
  {
    FollowsKept(s, marker, tag, o, r);
    match o
    case NoEntry =>
    case NotInScope =>
    case NotOpen => FormattingWithout(s.list, marker, IndexIn(s.list, s.list[EntryOf(s.list, marker, tag)]));
    case Closed(fi) =>
      TabledPrefix(s.open, fi);
      FormattingWithout(s.list, marker, IndexIn(s.list, s.list[EntryOf(s.list, marker, tag)]));
    case Adopted(fi, bi, t) =>
      ReadyIs(s);
      RoundOpen(s, fi, bi, t);
      RoundTabled(s, fi, bi, t);
      RoundFormatting(s, marker, fi, bi, t);
    case Fostered(fi, bi, t, g) => FosteredInTables(s, marker, tag, fi, bi, t, g, r);
  }

  /** So no run of the adoption agency does, and none pushes a node that is open already. */
  lemma {:induction false} RunsInTables(run: seq<State>, os: seq<Outcome>, marker: Node, tag: Tag)
    requires Runs(run, os, marker, tag) && KeptInTables(run[0], marker)
    requires forall i :: 0 <= i < |os| ==> BlockIsNoTable(run[i], os[i])
    ensures KeptInTables(Reached(run), marker) && !Lost(os)
    decreases |os|
  {
    if os != [] {
      var n := |os| - 1;
      RunsLast(run, os, marker, tag);
      assert forall i :: 0 <= i < n ==> run[..n + 1][i] == run[i] && os[..n][i] == os[i];
      RunsInTables(run[..n + 1], os[..n], marker, tag);
      assert BlockIsNoTable(run[n], os[n]);
      FollowsInTables(run[n], marker, tag, os[n], Reached(run));
    }
  }
}
