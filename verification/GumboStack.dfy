/**
  The stack of open elements: questions about what is in scope, the search for a list item to
  close, and the insertion mode that follows from what is open. What is in scope for a tag
  other than html is open above the bottom of the stack.
 */
module GumboStack {
  import opened GumboTags
  import opened GumboTree

  // ---------------------------------------------------------------------------------
  // Reading the stack
  // ---------------------------------------------------------------------------------

  /** Elements only, with html at the bottom. */
  predicate Stack(open: seq<Node>) {
    open != [] && open[0].Is(HTML) && forall i :: 0 <= i < |open| ==> open[i].kind == Element
  }

  /** The position of the topmost element with the tag, or -1. */
  function Topmost(open: seq<Node>, tag: Tag): (k: int)
    ensures -1 <= k < |open|
    ensures k >= 0 ==> open[k].Is(tag)
    ensures forall i :: k < i < |open| ==> !open[i].Is(tag)
  {
    if open == [] then -1
    else if open[|open| - 1].Is(tag) then |open| - 1
    else Topmost(open[..|open| - 1], tag)
  }

  lemma TopmostIs(open: seq<Node>, tag: Tag, k: nat)
    requires k < |open| && open[k].Is(tag) && forall i :: k < i < |open| ==> !open[i].Is(tag)
    ensures Topmost(open, tag) == k
  {
  }

  /**
    An element with one of the tags is open and nothing above it stops the search: elements
    from a list do, or, negated, all others.
   */
  predicate InScope(open: seq<Node>, tags: seq<Tag>, negate: bool, stops: Tag -> bool) {
    exists k :: 0 <= k < |open| && open[k].tag in tags &&
      forall j :: k < j < |open| ==> stops(open[j].tag) == negate
  }

  /** What is in scope is open, and, but for html, not at the bottom. */
  lemma InScopeIsOpen(open: seq<Node>, tag: Tag, negate: bool, stops: Tag -> bool)
    requires Stack(open) && tag != HTML && InScope(open, [tag], negate, stops)
    ensures Topmost(open, tag) > 0
  {
    var k :| 0 <= k < |open| && open[k].tag in [tag];
    assert open[k].Is(tag);
  }

  /** has_an_element_in_specific_scope. */
  method HasElementInScope(open: seq<Node>, expected: seq<Tag>, negate: bool, stops: Tag -> bool) returns (r: bool)
    ensures r == InScope(open, expected, negate, stops)
  {
    var i := |open|;
    while i > 0
      invariant 0 <= i <= |open|
      invariant forall j :: i <= j < |open| ==> open[j].tag !in expected && stops(open[j].tag) == negate
    {
      i := i - 1;
      var tag := open[i].tag;
      for j := 0 to |expected|
        invariant tag !in expected[..j]
      {
        if tag == expected[j] {
          return true;
        }
      }
      if negate != stops(tag) {
        return false;
      }
    }
    return false;
  }

  predicate IsListItem(tag: Tag, isLi: bool) {
    if isLi then tag == LI else tag == DD || tag == DT
  }

  predicate EndsListSearch(n: Node) {
    Special(n.ns, n.tag) && n.tag != ADDRESS && n.tag != DIV && n.tag != P
  }

  /** The topmost list item, unless a special element above it hides it; then -1. */
  function ListItemAt(open: seq<Node>, isLi: bool): (k: int)
    ensures -1 <= k < |open|
    ensures k >= 0 ==> IsListItem(open[k].tag, isLi)
    ensures k >= 0 ==> forall i :: k < i < |open| ==> !IsListItem(open[i].tag, isLi) && !EndsListSearch(open[i])
  {
    if open == [] then -1
    else
      var n := |open| - 1;
      if IsListItem(open[n].tag, isLi) then n
      else if EndsListSearch(open[n]) then -1
      else ListItemAt(open[..n], isLi)
  }

  /** That is the list item at k exactly when nothing above it is a list item or hides one. */
  lemma {:induction false} ListItemIs(open: seq<Node>, isLi: bool, k: nat)
    requires k < |open|
    ensures ListItemAt(open, isLi) == k <==>
            && IsListItem(open[k].tag, isLi)
            && forall i :: k < i < |open| ==> !IsListItem(open[i].tag, isLi) && !EndsListSearch(open[i])
    decreases |open|
  {
    var n := |open| - 1;
    if k < n {
      ListItemIs(open[..n], isLi, k);
    }
  }

  /** The insertion mode of the topmost element that decides one. */
  function ModeOf(open: seq<Node>): (m: Mode)
    requires open != []
    ensures m != Initial
  {
    var n := |open| - 1;
    var m := Appropriate(open[n].tag, n == 0);
    if m != Initial then m else ModeOf(open[..n])
  }

  lemma {:induction false} ModeIs(open: seq<Node>, k: nat)
    requires k < |open| && Appropriate(open[k].tag, k == 0) != Initial
    requires forall i :: k < i < |open| ==> Appropriate(open[i].tag, false) == Initial
    ensures ModeOf(open) == Appropriate(open[k].tag, k == 0)
    decreases |open|
  {
    var n := |open| - 1;
    if k < n {
      ModeIs(open[..n], k);
    }
  }
}
