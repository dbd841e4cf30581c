/**
 Parent/child trees shared by projects and milestones. A tree is given by its
 parent links, each a pair (child, parent). The subtree of a node is the node
 together with everything whose chain of parent links leads to it; cascading
 deletion removes exactly that set.

 The subtree is computed with a visited set (the set accumulated so far), so
 the computation ends even when corrupted links form a cycle.
 */
module Hierarchy {

  /** A parent link: `(child, parent)`. */
  type Link = (nat, nat)

  /** Every id that is the child end of some link. */
  function ChildIds(links: set<Link>): set<nat> {
    set l | l in links :: l.0
  }

  /** The direct children of the members of `s`. */
  function ChildrenOf(links: set<Link>, s: set<nat>): (r: set<nat>)
    ensures r <= ChildIds(links)
    ensures forall l :: l in links && l.1 in s ==> l.0 in r
  {
    set l | l in links && l.1 in s :: l.0
  }

  /** Children of members are members. */
  ghost predicate ClosedUnderChildren(links: set<Link>, s: set<nat>) {
    forall l :: l in links && l.1 in s ==> l.0 in s
  }

  /** `path` walks parent links from `d` up to `r`. */
  ghost predicate IsChain(links: set<Link>, path: seq<nat>, d: nat, r: nat) {
    && 1 <= |path|
    && path[0] == d
    && path[|path| - 1] == r
    && forall i :: 0 <= i < |path| - 1 ==> (path[i], path[i + 1]) in links
  }

  /** `d` is `r` or one of its (transitive) descendants. */
  ghost predicate Descends(links: set<Link>, d: nat, r: nat) {
    exists path :: IsChain(links, path, d, r)
  }

  lemma StrictSubsetSmaller(a: set<nat>, b: set<nat>)
    requires a < b
    ensures |a| < |b|
  {
    assert !(b <= a);
    assert b == a + (b - a);
    assert a * (b - a) == {};
  }

  /**
   The least superset of `acc` closed under children, reached by adding one
   generation at a time until nothing new appears.
   */
  function Closure(links: set<Link>, acc: set<nat>): (r: set<nat>)
    ensures acc <= r <= acc + ChildIds(links)
    ensures ClosedUnderChildren(links, r)
    ensures forall s {:trigger ClosedUnderChildren(links, s)} ::
              acc <= s && ClosedUnderChildren(links, s) ==> r <= s
    decreases |ChildIds(links) - acc|
  {
    var next := acc + ChildrenOf(links, acc);
    if next == acc then acc
    else
      StrictSubsetSmaller(ChildIds(links) - next, ChildIds(links) - acc);
      Closure(links, next)
  }

  /** The subtree rooted at `root`: `root` and all its descendants. */
  function Subtree(links: set<Link>, root: nat): (r: set<nat>)
    ensures root in r
    ensures r <= {root} + ChildIds(links)
    ensures ClosedUnderChildren(links, r)
  {
    Closure(links, {root})
  }

  lemma {:induction false} ChainEndsInClosedSet(links: set<Link>, s: set<nat>, path: seq<nat>, d: nat, r: nat)
    requires IsChain(links, path, d, r)
    requires r in s && ClosedUnderChildren(links, s)
    ensures d in s
    decreases |path|
  {
    if |path| > 1 {
      ChainEndsInClosedSet(links, s, path[1..], path[1], r);
      assert (path[0], path[1]) in links;
    }
  }

  /** Membership in the subtree is exactly being the root or a descendant of it. */
  lemma SubtreeIsDescendants(links: set<Link>, root: nat, x: nat)
    ensures x in Subtree(links, root) <==> Descends(links, x, root)
  {
    var t := Subtree(links, root);
    if Descends(links, x, root) {
      var path :| IsChain(links, path, x, root);
      ChainEndsInClosedSet(links, t, path, x, root);
    }
    if x in t {
      var desc := set y | y in {root} + ChildIds(links) && Descends(links, y, root);
      assert IsChain(links, [root], root, root);
      forall l | l in links && l.1 in desc
        ensures l.0 in desc
      {
        var path :| IsChain(links, path, l.1, root);
        assert IsChain(links, [l.0] + path, l.0, root);
      }
      assert {root} <= desc && ClosedUnderChildren(links, desc);
    }
  }
}
