/** Overlap queries that prune on the cached hulls, and the structural self-check. */
module IntervalQueries {
  import opened IntervalNode
  import opened IntervalShape
  import opened IntervalOps
  import opened IntervalHeap

  /** The plain answer: every node of the sequence that meets [start, end], in order. */
  function Hits(s: seq<Node>, start: U64, end: U64): seq<Node> {
    if s == [] then []
    else (if Hit(s[0], start, end) then [s[0]] else []) + Hits(s[1..], start, end)
  }

  function PreOrder(t: Shape): seq<Node> {
    match t
    case Leaf => []
    case Branch(l, n, r) => [n] + PreOrder(l) + PreOrder(r)
  }

  lemma {:induction false} HitsConcat(a: seq<Node>, b: seq<Node>, start: U64, end: U64)
    ensures Hits(a + b, start, end) == Hits(a, start, end) + Hits(b, start, end)
  {
    if a == [] {
      assert a + b == b;
    } else {
      var s := a + b;
      var one := if Hit(a[0], start, end) then [a[0]] else [];
      HitsConcat(a[1..], b, start, end);
      assert s[0] == a[0] && s[1..] == a[1..] + b;
      assert one + (Hits(a[1..], start, end) + Hits(b, start, end))
          == one + Hits(a[1..], start, end) + Hits(b, start, end);
    }
  }

  lemma {:induction false} HitsMembers(s: seq<Node>, k: nat, start: U64, end: U64)
    requires k < |s| && Hit(s[k], start, end)
    ensures s[k] in Hits(s, start, end)
  {
    if k > 0 {
      HitsMembers(s[1..], k - 1, start, end);
    }
  }

  lemma {:induction false} HitsOnly(s: seq<Node>, start: U64, end: U64)
    ensures forall i :: 0 <= i < |Hits(s, start, end)| ==>
      Hits(s, start, end)[i] in s && Hit(Hits(s, start, end)[i], start, end)
  {
    if s != [] {
      HitsOnly(s[1..], start, end);
    }
  }

  /** Nothing outside the hull can be hit. */
  lemma {:induction false} PrunedHasNoHits(t: Shape, start: U64, end: U64)
    requires t.Branch? && !Overlaps(Lowest(t), Highest(t), start, end)
    ensures Hits(InOrder(t), start, end) == [] && Hits(PreOrder(t), start, end) == []
  {
    if Hits(InOrder(t), start, end) != [] {
      HitsOnly(InOrder(t), start, end);
      NodesAreInOrder(t);
      HullCovers(t, Hits(InOrder(t), start, end)[0]);
      assert false;
    }
    PreOrderHits(t, start, end);
    assert |Hits(PreOrder(t), start, end)| == |multiset(Hits(PreOrder(t), start, end))|;
  }

  lemma {:induction false} SplitHits(l: Shape, n: Node, r: Shape, start: U64, end: U64)
    ensures var one := Hits([n], start, end);
      && Hits(InOrder(Branch(l, n, r)), start, end) == Hits(InOrder(l), start, end) + one + Hits(InOrder(r), start, end)
      && Hits(PreOrder(Branch(l, n, r)), start, end)
         == one + Hits(PreOrder(l), start, end) + Hits(PreOrder(r), start, end)
  {
    HitsConcat(InOrder(l) + [n], InOrder(r), start, end);
    HitsConcat(InOrder(l), [n], start, end);
    HitsConcat([n] + PreOrder(l), PreOrder(r), start, end);
    HitsConcat([n], PreOrder(l), start, end);
  }

  /** The hits are the nodes that have a point in common with the query. */
  lemma {:induction false} HitsShareAPoint(s: seq<Node>, n: Node, start: U64, end: U64)
    requires start <= end && forall m :: m in s ==> m.lo <= m.hi
    ensures n in Hits(s, start, end) <==> n in s && exists x :: Within(x, n.lo, n.hi) && Within(x, start, end)
  {
    if n in s {
      OverlapsMeansCommonPoint(n.lo, n.hi, start, end);
      var i :| 0 <= i < |s| && s[i] == n;
      if Hit(n, start, end) {
        HitsMembers(s, i, start, end);
      }
    }
    HitsOnly(s, start, end);
  }

  lemma OneHit(n: Node, start: U64, end: U64)
    ensures Hits([n], start, end) == if Hit(n, start, end) then [n] else []
  {
  }

  lemma NoHit(start: U64, end: U64)
    ensures Hits([], start, end) == []
  {
  }

  /** Visiting parents first finds the same nodes, each as often. */
  lemma {:induction false} PreOrderHits(t: Shape, start: U64, end: U64)
    ensures multiset(Hits(PreOrder(t), start, end)) == multiset(Hits(InOrder(t), start, end))
  {
    if t.Branch? {
      PreOrderHits(t.left, start, end);
      PreOrderHits(t.right, start, end);
      SplitHits(t.left, t.node, t.right, start, end);
    }
  }

  /** A left search that is entered and fails rules out the whole right side. */
  lemma FailedLeftPrunesRight(t: Shape, start: U64, end: U64)
    requires t.Branch? && t.left.Branch? && t.right.Branch? && Sorted(InOrder(t))
    requires Overlaps(Lowest(t.left), Highest(t.left), start, end) && Hits(InOrder(t.left), start, end) == []
    ensures !Overlaps(Lowest(t.right), Highest(t.right), start, end)
  {
    var a, b := InOrder(t.left), InOrder(t.right);
    var _, last := HullIsTight(t.left);
    var first, _ := HullIsTight(t.right);
    NodesAreInOrder(t.left);
    NodesAreInOrder(t.right);
    var i :| 0 <= i < |a| && a[i] == last;
    var j :| 0 <= j < |b| && b[j] == first;
    if Hit(last, start, end) { HitsMembers(a, i, start, end); }
    SortedAround(a, t.node, b);
    assert last.lo <= t.node.lo <= first.lo;
  }

  lemma SortedSides(t: Shape)
    requires t.Branch? && Sorted(InOrder(t))
    ensures Sorted(InOrder(t.left)) && Sorted(InOrder(t.right))
  {
    SortedAround(InOrder(t.left), t.node, InOrder(t.right));
  }

  /** The search stops at t without descending. */
  predicate Pruned(t: Shape, start: U64, end: U64) {
    t.Branch? ==> !Overlaps(Lowest(t), Highest(t), start, end)
  }

  /** If the left side was searched in vain, at least one of the two sides was pruned at its root. */
  lemma OneSideIsPruned(t: Shape, start: U64, end: U64)
    requires t.Branch? && Sorted(InOrder(t)) && Hits(InOrder(t.left), start, end) == []
    ensures Pruned(t.left, start, end) || Pruned(t.right, start, end)
  {
    if !Pruned(t.left, start, end) && !Pruned(t.right, start, end) {
      FailedLeftPrunesRight(t, start, end);
    }
  }

  /** Search with early exit; at most two calls per level of a sorted tree. */
  method IvtOverlaps(x: Node?, start: U64, end: U64, ghost t: Shape) returns (found: bool, ghost calls: nat)
    requires x == Link(t) && Lies(t)
    ensures found <==> Hits(InOrder(t), start, end) != []
    ensures Sorted(InOrder(t)) ==> calls <= 2 * Height(t) + 1
    ensures Pruned(t, start, end) ==> calls == 1
    decreases t
  {
    calls := 1;
    if x == null {
      return false, calls;
    }
    if !Overlaps(x.min, x.max, start, end) {
      PrunedHasNoHits(t, start, end);
      return false, calls;
    }
    SplitHits(t.left, x, t.right, start, end);
    if Overlaps(x.lo, x.hi, start, end) {
      return true, calls;
    }
    assert allocated(Nodes(t.left)) && allocated(Nodes(t.right));
    ghost var inLeft, inRight;
    found, inLeft := IvtOverlaps(x.left, start, end, t.left);
    calls := calls + inLeft;
    if !found {
      found, inRight := IvtOverlaps(x.right, start, end, t.right);
      calls := calls + inRight;
      if Sorted(InOrder(t)) {
        OneSideIsPruned(t, start, end);
      }
    }
    if Sorted(InOrder(t)) { SortedSides(t); }
  }

  /** Report every overlapping node, parents before children. */
  method IvtForEach(x: Node?, start: U64, end: U64, ghost t: Shape) returns (visited: seq<Node>)
    requires x == Link(t) && Lies(t)
    ensures visited == Hits(PreOrder(t), start, end)
    decreases t
  {
    hide Hits;
    visited := [];
    if x == null {
      NoHit(start, end);
      return;
    }
    if !Overlaps(x.min, x.max, start, end) {
      PrunedHasNoHits(t, start, end);
      return;
    }
    OneHit(x, start, end);
    if Overlaps(x.lo, x.hi, start, end) {
      visited := [x];
    }
    assert allocated(Nodes(t.left)) && allocated(Nodes(t.right));
    var a := IvtForEach(x.left, start, end, t.left);
    var b := IvtForEach(x.right, start, end, t.right);
    SplitHits(t.left, x, t.right, start, end);
    visited := visited + a + b;
  }

  // ---- The self-check ----

  /** The links down the tree are those of t; nothing is said about any other field. */
  ghost predicate Linked(t: Shape)
    reads Nodes(t)
  {
    t.Branch? ==>
      && t.node.left == Link(t.left) && t.node.right == Link(t.right)
      && Linked(t.left) && Linked(t.right)
  }

  /** What the self-check looks at, node by node. */
  ghost predicate Passes(t: Shape, parent: Node?)
    requires Linked(t)
    reads Nodes(t)
  {
    t.Branch? ==>
      && Passes(t.left, t.node) && Passes(t.right, t.node)
      && t.node.parent == parent && t.node.min == IvtMin(t.node) && t.node.max == IvtMax(t.node)
      && -1 <= IvtBalance(t.node) <= 1
  }

  /** The self-check on any linked tree, intact or not; counts the nodes it saw. */
  method IvtValidate(x: Node?, parent: Node?, ghost t: Shape) returns (ok: bool, count: nat)
    requires x == Link(t) && Linked(t)
    ensures Linked(t) && (ok <==> Passes(t, parent))
    ensures count == |InOrder(t)|
    decreases t
  {
    if x == null {
      return true, 0;
    }
    assert allocated(Nodes(t.left)) && allocated(Nodes(t.right));
    var a, n := IvtValidate(x.left, x, t.left);
    var b, m := IvtValidate(x.right, x, t.right);
    var balance := IvtBalance(x);
    ok := a && b && x.parent == parent && x.min == IvtMin(x) && x.max == IvtMax(x) && -1 <= balance <= 1;
    count := n + m + 1;
  }

  ghost predicate ParentsAgree(t: Shape, parent: Node?)
    reads Nodes(t)
  {
    t.Branch? ==> t.node.parent == parent && ParentsAgree(t.left, t.node) && ParentsAgree(t.right, t.node)
  }

  /** Every cached hull is the hull of the intervals stored below. */
  ghost predicate HullsAreTrue(t: Shape)
    reads Nodes(t)
  {
    t.Branch? ==>
      t.node.min == Lowest(t) && t.node.max == Highest(t) && HullsAreTrue(t.left) && HullsAreTrue(t.right)
  }

  /** The heights that siblings claim to have differ by at most one. */
  ghost predicate ClaimsBalance(t: Shape)
    requires Linked(t)
    reads Nodes(t)
  {
    t.Branch? ==> -1 <= IvtBalance(t.node) <= 1 && ClaimsBalance(t.left) && ClaimsBalance(t.right)
  }

  /** Local checks with global meaning: the hulls are true throughout, but for heights only the claims are compared. */
  lemma {:induction false} PassesMeans(t: Shape, parent: Node?)
    requires Linked(t)
    ensures Passes(t, parent) <==> ParentsAgree(t, parent) && HullsAreTrue(t) && ClaimsBalance(t)
  {
    if t.Branch? {
      PassesMeans(t.left, t.node);
      PassesMeans(t.right, t.node);
    }
  }

  lemma {:induction false} IntactPasses(t: Shape, parent: Node?)
    requires Lies(t) && Avl(t) && (t.Branch? ==> t.node.parent == parent)
    ensures Linked(t) && Passes(t, parent)
  {
    if t.Branch? {
      IntactPasses(t.left, t.node);
      IntactPasses(t.right, t.node);
      RecomputedIsTrue(t);
    }
  }

  /** Every stored height is the height of the subtree below. */
  ghost predicate HeightsAreTrue(t: Shape)
    reads Nodes(t)
  {
    t.Branch? ==> t.node.height == Height(t) && HeightsAreTrue(t.left) && HeightsAreTrue(t.right)
  }

  /**
   * When passing amounts to being intact: exactly when the stored heights are true, and then the balance
   * holds as well. The key order is the one part of soundness that is left.
   */
  lemma {:induction false} PassingIsIntactIff(t: Shape, parent: Node?)
    requires Linked(t) && Passes(t, parent)
    ensures HeightsAreTrue(t) <==> Lies(t)
    ensures HeightsAreTrue(t) ==> Avl(t)
    ensures HeightsAreTrue(t) && Distinct(t) ==> (Sound(t) <==> Sorted(InOrder(t)))
  {
    if t.Branch? {
      PassesMeans(t, parent);
      PassesMeans(t.left, t.node);
      PassesMeans(t.right, t.node);
      if Distinct(t) {
        Pieces(t);
      }
      PassingIsIntactIff(t.left, t.node);
      PassingIsIntactIff(t.right, t.node);
    }
  }

  /** A wrong height goes unnoticed. */
  lemma HeightIsNotChecked(n: Node)
    requires n.left == null && n.right == null && n.min == n.lo && n.max == n.hi && n.height != 1
    ensures var t := Branch(Leaf, n, Leaf); Linked(t) && Passes(t, n.parent) && !Lies(t)
  {
    assert Height(Branch(Leaf, n, Leaf)) == 1;
  }

  /** So does a wrong order. */
  lemma OrderIsNotChecked(n: Node, m: Node)
    requires n.left == m && n.right == null && m.left == null && m.right == null && m.parent == n && m.lo > n.lo
    requires m.min == m.lo && m.max == m.hi && m.height == 1
    requires n.min == n.lo && n.max == (if m.hi > n.hi then m.hi else n.hi) && n.height == 2
    ensures var t := Branch(Branch(Leaf, m, Leaf), n, Leaf);
      Linked(t) && Passes(t, n.parent) && Lies(t) && !Sorted(InOrder(t))
  {
    var u := Branch(Leaf, m, Leaf);
    var t := Branch(u, n, Leaf);
    assert Height(u) == 1 && Lowest(u) == m.lo && Highest(u) == m.hi;
    assert Lies(u) && Fresh(t) && Joined(t);
    assert Avl(u) && Avl(t);
    IntactPasses(t, n.parent);
    assert InOrder(t)[0] == m && InOrder(t)[1] == n;
  }
}
