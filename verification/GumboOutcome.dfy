/**
  The rounds of the adoption agency as a state machine on values: how each round ends, what
  that means for the state, and what holds over every run.
 */
module GumboOutcome {
  import opened GumboTags
  import opened GumboTree
  import opened GumboStack
  import opened GumboActive
  import opened GumboAdoption
  import opened GumboRound
  import opened GumboReady
  import opened GumboFoster

  /** Every entry with the tag has a marker behind it. */
  predicate NoneSince(list: seq<Node>, marker: Node, tag: Tag) {
    forall i :: 0 <= i < |list| && list[i] != marker && list[i].Is(tag) ==> marker in list[i..]
  }

  /** The last entry since the last marker with the tag, or -1. */
  function EntryOf(list: seq<Node>, marker: Node, tag: Tag): (k: int)
    ensures -1 <= k < |list|
    ensures k >= 0 ==> list[k] != marker && list[k].Is(tag)
    ensures k >= 0 ==> forall i :: k < i < |list| ==> list[i] != marker && !list[i].Is(tag)
    ensures k == -1 <==> NoneSince(list, marker, tag)
  {
    assert list != [] ==> forall i :: 0 <= i < |list| - 1 ==> list[i..] == list[..|list| - 1][i..] + [list[|list| - 1]];
    if list == [] then -1
    else
      var n := |list| - 1;
      if list[n] == marker then -1
      else if list[n].Is(tag) then n
      else EntryOf(list[..n], marker, tag)
  }

  /** The furthest block: the lowest special element from F upward. */
  predicate IsBlock(open: seq<Node>, fi: nat, bi: nat) {
    && fi <= bi < |open| && Special(open[bi].ns, open[bi].tag)
    && forall i :: fi <= i < bi ==> !Special(open[i].ns, open[i].tag)
  }

  /** B is where its spot says and nowhere else. */
  ghost predicate Spotted(kids: map<Node, seq<Node>>, b: Node, spot: Spot) {
    SpotOf(kids, b, spot) && Once(kids, b, spot)
  }

  /** How a round ends; only the last two ways lead to another round. */
  datatype Outcome =
    | NoEntry
    | NotOpen
    | NotInScope
    | Closed(fi: nat)
    | Adopted(fi: nat, bi: nat, t: Trace)
    | Fostered(fi: nat, bi: nat, t: Trace, g: Foster)

  /** What each outcome means for the state. */
  ghost predicate Follows(s: State, marker: Node, tag: Tag, o: Outcome, r: State) {
    var k := EntryOf(s.list, marker, tag);
    if o.NoEntry? then k == -1 && r == s
    else
      k >= 0 &&
      var f := s.list[k];
      var rest := Without(s.list, IndexIn(s.list, f));
      var inScope := InScope(s.open, [tag], false, EndsScope);
      match o
      case NotOpen => f !in s.open && r == s.(list := rest)
      case NotInScope => f in s.open && !inScope && r == s
      case Closed(fi) =>
        && inScope && 0 < fi < |s.open| && s.open[fi] == f && r == State(rest, s.open[..fi], s.kids)
        && forall i :: fi <= i < |s.open| ==> !Special(s.open[i].ns, s.open[i].tag)
      case Adopted(fi, bi, t) =>
        && inScope && Fits(s, fi, bi, t) && s.open[fi] == f && IsBlock(s.open, fi, bi)
        && Spotted(s.kids, s.open[bi], t.spot) && !IsTablePart(s.open[fi - 1].tag) && r == Round(s, fi, bi, t)
      case Fostered(fi, bi, t, g) =>
        && inScope && Fits(s, fi, bi, t) && s.open[fi] == f && IsBlock(s.open, fi, bi)
        && Spotted(s.kids, s.open[bi], t.spot) && IsTablePart(s.open[fi - 1].tag)
        && FitsFoster(s, bi, t, g) && r == FosterState(s, fi, bi, t, g)
  }

  /** The same outcome at the same positions. */
  predicate Alike(o: Outcome, p: Outcome) {
    match o
    case NoEntry => p.NoEntry?
    case NotOpen => p.NotOpen?
    case NotInScope => p.NotInScope?
    case Closed(fi) => p.Closed? && p.fi == fi
    case Adopted(fi, bi, t) => p.Adopted? && p.fi == fi && p.bi == bi && p.t.lo == t.lo
    case Fostered(fi, bi, t, g) => p.Fostered? && p.fi == fi && p.bi == bi && p.t.lo == t.lo
  }

  /** What an outcome says about where F is, whether its tag is in scope and where the block is. */
  ghost predicate Tells(s: State, f: Node, tag: Tag, o: Outcome) {
    match o
    case NoEntry => false
    case NotOpen => f !in s.open
    case NotInScope => f in s.open && !InScope(s.open, [tag], false, EndsScope)
    case Closed(fi) =>
      && InScope(s.open, [tag], false, EndsScope) && fi < |s.open| && s.open[fi] == f
      && forall i :: fi <= i < |s.open| ==> !Special(s.open[i].ns, s.open[i].tag)
    case Adopted(fi, bi, t) =>
      && InScope(s.open, [tag], false, EndsScope) && 0 < fi < |s.open| && s.open[fi] == f && IsBlock(s.open, fi, bi)
      && t.lo == Lowest(fi, bi) && !IsTablePart(s.open[fi - 1].tag)
    case Fostered(fi, bi, t, g) =>
      && InScope(s.open, [tag], false, EndsScope) && 0 < fi < |s.open| && s.open[fi] == f && IsBlock(s.open, fi, bi)
      && t.lo == Lowest(fi, bi) && IsTablePart(s.open[fi - 1].tag)
  }

  lemma FollowsTells(s: State, marker: Node, tag: Tag, o: Outcome, r: State)
    requires Follows(s, marker, tag, o, r)
    ensures var k := EntryOf(s.list, marker, tag); if k == -1 then o.NoEntry? else k >= 0 && Tells(s, s.list[k], tag, o)
  {
  }

  lemma TellsOne(s: State, f: Node, tag: Tag, o: Outcome, p: Outcome)
    requires Distinct(s.open) && Tells(s, f, tag, o) && Tells(s, f, tag, p)
    ensures Alike(o, p)
  {
  }

  /** No two outcomes follow from one state. */
  lemma OneOutcome(s: State, marker: Node, tag: Tag, o: Outcome, r: State, p: Outcome, q: State)
    requires Distinct(s.open) && Follows(s, marker, tag, o, r) && Follows(s, marker, tag, p, q)
    ensures Alike(o, p)
  {
    FollowsTells(s, marker, tag, o, r);
    FollowsTells(s, marker, tag, p, q);
    var k := EntryOf(s.list, marker, tag);
    if k >= 0 {
      TellsOne(s, s.list[k], tag, o, p);
    }
  }

  /** A round keeps the stack ready unless it pushes a node that is open already. */
  lemma FollowsReady(s: State, marker: Node, tag: Tag, o: Outcome, r: State)
    requires Ready(s) && Follows(s, marker, tag, o, r)
    ensures Ready(r) <==> !(o.Fostered? && o.g.pushed)
  {
    match o
    case NoEntry =>
    case NotOpen =>
    case NotInScope =>
    case Closed(fi) => PlacedPrefix(s.kids, s.open, fi);
    case Adopted(fi, bi, t) => RoundReady(s, fi, bi, t);
    case Fostered(fi, bi, t, g) => FosterReady(s, fi, bi, t, g);
  }

  // ---------------------------------------------------------------------------------
  // Runs
  // ---------------------------------------------------------------------------------

  /** An adoption that leaves a stack for another round. */
  predicate Again(o: Outcome) {
    o.Adopted? || (o.Fostered? && !o.g.pushed)
  }

  /** What comes after a round: another one, the end, or a stack that holds a node twice. */
  datatype Sequel = Another | Done | Broken

  function SequelOf(o: Outcome): Sequel {
    if Again(o) then Another else if o.Fostered? then Broken else Done
  }

  /** Whether there is another round after these. */
  predicate GoesOn(os: seq<Outcome>) {
    os == [] || Again(os[|os| - 1])
  }

  /** The last round pushed a node that is open already. */
  predicate Lost(os: seq<Outcome>) {
    os != [] && os[|os| - 1].Fostered? && os[|os| - 1].g.pushed
  }

  /** A run: each state follows from the one before, and only an adoption is followed by anything. */
  ghost predicate Runs(run: seq<State>, os: seq<Outcome>, marker: Node, tag: Tag)
    decreases |os|
  {
    && |run| == |os| + 1
    && (os == [] ||
        var n := |os| - 1;
        Runs(run[..n + 1], os[..n], marker, tag) && GoesOn(os[..n]) && Follows(run[n], marker, tag, os[n], run[n + 1]))
  }

  lemma RunsStep(run: seq<State>, os: seq<Outcome>, marker: Node, tag: Tag, o: Outcome, r: State)
    requires Runs(run, os, marker, tag) && GoesOn(os) && Follows(run[|os|], marker, tag, o, r)
    ensures Runs(run + [r], os + [o], marker, tag)
  {
    assert (run + [r])[..|os| + 1] == run && (os + [o])[..|os|] == os;
  }

  /** The state a run has reached. */
  function Reached(run: seq<State>): State
    requires run != []
  {
    run[|run| - 1]
  }

  lemma NoEntryMeans(s: State, marker: Node, tag: Tag, o: Outcome, r: State)
    requires Follows(s, marker, tag, o, r)
    ensures (o.NoEntry? <==> NoneSince(s.list, marker, tag)) && (o.NoEntry? ==> r == s)
  {
  }

  lemma {:induction false} RunsHead(run: seq<State>, os: seq<Outcome>, marker: Node, tag: Tag)
    requires Runs(run, os, marker, tag) && os != []
    ensures Follows(run[0], marker, tag, os[0], run[1]) && (|os| > 1 ==> Again(os[0]))
    decreases |os|
  {
    var n := |os| - 1;
    if n > 0 {
      RunsHead(run[..n + 1], os[..n], marker, tag);
    }
  }

  /** The first round finds nothing exactly when every entry with the tag has a marker behind it. */
  lemma FirstRound(run: seq<State>, os: seq<Outcome>, marker: Node, tag: Tag)
    requires Runs(run, os, marker, tag) && os != []
    ensures os[0].NoEntry? <==> NoneSince(run[0].list, marker, tag)
    ensures os[0].NoEntry? ==> Reached(run) == run[0]
  {
    RunsHead(run, os, marker, tag);
    NoEntryMeans(run[0], marker, tag, os[0], run[1]);
  }

  /** The entry found in a state. */
  ghost predicate Finds(s: State, marker: Node, tag: Tag, f: Node) {
    EntryOf(s.list, marker, tag) >= 0 && s.list[EntryOf(s.list, marker, tag)] == f
  }

  lemma EndsNoEntry(run: seq<State>, os: seq<Outcome>, marker: Node, tag: Tag)
    requires Runs(run, os, marker, tag) && GoesOn(os) && EntryOf(Reached(run).list, marker, tag) == -1
    ensures Runs(run + [Reached(run)], os + [NoEntry], marker, tag)
  {
    RunsStep(run, os, marker, tag, NoEntry, Reached(run));
  }

  lemma EndsNotOpen(run: seq<State>, os: seq<Outcome>, marker: Node, tag: Tag, f: Node)
    requires Runs(run, os, marker, tag) && GoesOn(os) && Finds(Reached(run), marker, tag, f) && f !in Reached(run).open
    ensures var s := Reached(run);
            Runs(run + [s.(list := Without(s.list, IndexIn(s.list, f)))], os + [NotOpen], marker, tag)
  {
    var s := Reached(run);
    RunsStep(run, os, marker, tag, NotOpen, s.(list := Without(s.list, IndexIn(s.list, f))));
  }

  lemma EndsNotInScope(run: seq<State>, os: seq<Outcome>, marker: Node, tag: Tag, f: Node)
    requires Runs(run, os, marker, tag) && GoesOn(os) && Finds(Reached(run), marker, tag, f) && f in Reached(run).open
    requires !InScope(Reached(run).open, [tag], false, EndsScope)
    ensures Runs(run + [Reached(run)], os + [NotInScope], marker, tag)
  {
    RunsStep(run, os, marker, tag, NotInScope, Reached(run));
  }

  /** The state after everything down to F was popped. */
  function ClosedState(s: State, f: Node, fi: nat): State
    requires fi <= |s.open| && f in s.list
  {
    State(Without(s.list, IndexIn(s.list, f)), s.open[..fi], s.kids)
  }

  lemma EndsClosed(run: seq<State>, os: seq<Outcome>, marker: Node, tag: Tag, f: Node, fi: nat)
    requires Runs(run, os, marker, tag) && GoesOn(os) && Finds(Reached(run), marker, tag, f) && Ready(Reached(run))
    requires InScope(Reached(run).open, [tag], false, EndsScope)
    requires 0 < fi < |Reached(run).open| && Reached(run).open[fi] == f
    requires var open := Reached(run).open; forall i :: fi <= i < |open| ==> !Special(open[i].ns, open[i].tag)
    ensures Distinct(Reached(run).open) && f in Reached(run).list
    ensures var r := ClosedState(Reached(run), f, fi);
            Runs(run + [r], os + [Closed(fi)], marker, tag) && Ready(r) && !Lost(os + [Closed(fi)])
  {
    var s := Reached(run);
    ReadyIs(s);
    PlacedPrefix(s.kids, s.open, fi);
    RunsStep(run, os, marker, tag, Closed(fi), ClosedState(s, f, fi));
  }

  lemma EndsAdopted(run: seq<State>, os: seq<Outcome>, marker: Node, tag: Tag, f: Node, fi: nat, bi: nat, t: Trace)
    requires Runs(run, os, marker, tag) && GoesOn(os) && Finds(Reached(run), marker, tag, f)
    requires InScope(Reached(run).open, [tag], false, EndsScope)
    requires Fits(Reached(run), fi, bi, t) && Reached(run).open[fi] == f && IsBlock(Reached(run).open, fi, bi)
    requires Spotted(Reached(run).kids, Reached(run).open[bi], t.spot) && !IsTablePart(Reached(run).open[fi - 1].tag)
    ensures Runs(run + [Round(Reached(run), fi, bi, t)], os + [Adopted(fi, bi, t)], marker, tag)
  {
    RunsStep(run, os, marker, tag, Adopted(fi, bi, t), Round(Reached(run), fi, bi, t));
  }

  lemma EndsFostered(run: seq<State>, os: seq<Outcome>, marker: Node, tag: Tag, f: Node, fi: nat, bi: nat, t: Trace,
                     g: Foster)
    requires Runs(run, os, marker, tag) && GoesOn(os) && Finds(Reached(run), marker, tag, f)
    requires InScope(Reached(run).open, [tag], false, EndsScope)
    requires Fits(Reached(run), fi, bi, t) && Reached(run).open[fi] == f && IsBlock(Reached(run).open, fi, bi)
    requires Spotted(Reached(run).kids, Reached(run).open[bi], t.spot) && IsTablePart(Reached(run).open[fi - 1].tag)
    requires FitsFoster(Reached(run), bi, t, g)
    ensures Runs(run + [FosterState(Reached(run), fi, bi, t, g)], os + [Fostered(fi, bi, t, g)], marker, tag)
  {
    RunsStep(run, os, marker, tag, Fostered(fi, bi, t, g), FosterState(Reached(run), fi, bi, t, g));
  }
}
