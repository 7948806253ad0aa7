/**
 * Facts about the composite tree of menu elements and the picking among its leaves, as
 * Panel.findLeaves and Panel.getNodeClicked use them.
 */
module Composite {
  import opened Wrappers
  import opened Menu

  /**
   * The leaves findLeaves collects below `e` are exactly the elements of its subtree that
   * are not panels: no panel is ever collected, and no leaf below `e` is missed.
   */
  lemma {:induction false} LeavesAreTheNonPanels(e: MenuElement, rank: map<MenuElement, nat>)
    requires Ranked(rank) && e in rank
    ensures forall x :: x in Leaves(e, rank) <==> x in Subtree(e, rank) && !x.isPanel
    decreases rank[e], 1
  {
    if e.isPanel {
      LeavesOfAreTheNonPanels(e.menuElements, rank, rank[e]);
    }
  }

  lemma {:induction false} LeavesOfAreTheNonPanels(cs: seq<MenuElement>, rank: map<MenuElement, nat>, bound: nat)
    requires Ranked(rank) && forall c :: c in cs ==> c in rank && rank[c] < bound
    ensures forall x :: x in LeavesOf(cs, rank, bound) <==> x in SubtreesOf(cs, rank, bound) && !x.isPanel
    decreases bound, 0, |cs|
  {
    if cs != [] {
      LeavesOfAreTheNonPanels(cs[..|cs| - 1], rank, bound);
      LeavesAreTheNonPanels(cs[|cs| - 1], rank);
    }
  }

  /** A leaf collects exactly itself. */
  lemma LeafCollectsItself(e: MenuElement, rank: map<MenuElement, nat>)
    requires Ranked(rank) && e in rank && !e.isPanel
    ensures Leaves(e, rank) == [e]
    ensures Subtree(e, rank) == {e}
  {
  }

  /**
   * What a panel collects is what its children collect, child after child: the leaves of
   * the first `i` children are a prefix of the panel's leaves.
   */
  lemma {:induction false} ChildLeavesInOrder(p: MenuElement, rank: map<MenuElement, nat>, i: nat)
    requires Ranked(rank) && p in rank && p.isPanel && i <= |p.menuElements|
    ensures LeavesOf(p.menuElements[..i], rank, rank[p]) <= Leaves(p, rank)
    decreases |p.menuElements| - i
  {
    if i < |p.menuElements| {
      ChildLeavesInOrder(p, rank, i + 1);
      assert p.menuElements[..i + 1][..i] == p.menuElements[..i];
    } else {
      assert p.menuElements[..i] == p.menuElements;
    }
  }

  /** Picking is deterministic: at most one element is the first match of a collision. */
  lemma FirstMatchUnique(candidates: seq<MenuElement>, hit: Option<Hit>, n1: MenuElement?, n2: MenuElement?)
    requires IsFirstMatch(candidates, hit, n1) && IsFirstMatch(candidates, hit, n2)
    ensures n1 == n2
  {
    if hit.Some? && n1 != null && n2 != null {
      var h := hit.value;
      var i1 :| 0 <= i1 < |candidates| && candidates[i1] == n1 && Matches(h, n1) &&
        forall j :: 0 <= j < i1 ==> !Matches(h, candidates[j]);
      var i2 :| 0 <= i2 < |candidates| && candidates[i2] == n2 && Matches(h, n2) &&
        forall j :: 0 <= j < i2 ==> !Matches(h, candidates[j]);
      assert i1 == i2;
    }
  }

  /** A collision on any candidate always selects one: null is returned only when none matches. */
  lemma PickingSelectsWhenSomeMatch(candidates: seq<MenuElement>, h: Hit, node: MenuElement?, k: nat)
    requires IsFirstMatch(candidates, Some(h), node)
    requires k < |candidates| && Matches(h, candidates[k])
    ensures node != null && node in candidates[..k + 1]
  {
    if node != null {
      var i :| 0 <= i < |candidates| && candidates[i] == node && Matches(h, node) &&
        forall j :: 0 <= j < i ==> !Matches(h, candidates[j]);
      assert i <= k;
      assert candidates[..k + 1][i] == node;
    }
  }
}
