/** Stepping through the tree in order along its links, as the iterators do. */
module IntervalSteps {
  import opened IntervalNode
  import opened IntervalShape
  import opened IntervalPaths
  import opened IntervalHeap
  import opened IntervalWalk

  function FirstOf(s: seq<Node>): Node? {
    if s == [] then null else s[0]
  }

  function LastOf(s: seq<Node>): Node? {
    if s == [] then null else s[|s| - 1]
  }

  /** The leftmost node heads the order. */
  method IvtFirst(x: Node?, ghost t: Shape) returns (y: Node?)
    requires x == Link(t) && Lies(t)
    ensures y == FirstOf(InOrder(t))
  {
    ghost var u := t;
    y := x;
    while y != null && y.left != null
      invariant y == Link(u) && Lies(u)
      invariant FirstOf(InOrder(u)) == FirstOf(InOrder(t))
      decreases u
    {
      y := y.left;
      u := u.left;
    }
  }

  /** The rightmost node ends the order. */
  method IvtLast(x: Node?, ghost t: Shape) returns (y: Node?)
    requires x == Link(t) && Lies(t)
    ensures y == LastOf(InOrder(t))
    ensures t.Branch? ==> y == Rightmost(t).node
  {
    ghost var u := t;
    y := x;
    while y != null && y.right != null
      invariant y == Link(u) && Lies(u) && u.Branch? == t.Branch?
      invariant LastOf(InOrder(u)) == LastOf(InOrder(t))
      invariant t.Branch? ==> Rightmost(u) == Rightmost(t)
      decreases u
    {
      y := y.right;
      u := u.right;
    }
  }

  /** x heads s, which hangs in the cut of p. */
  ghost predicate Hangs(x: Node, p: Path, s: Shape)
    reads PathNodes(p), Nodes(s)
  {
    && s.Branch? && s.node == x && Lies(s) && PathLies(p) && Fits(p, s)
    && x.parent == ParentOf(p) && (p != Top ==> Down(p) == x)
  }

  /** A node in a cut is the child on that side only. */
  lemma CutSide(p: Path, x: Node)
    requires p != Top && PathLies(p) && Down(p) == x && x !in PathNodes(p)
    ensures p.LeftOf? <==> x != p.node.right
    ensures p.LeftOf? <==> x == p.node.left
  {
  }

  /** The in-order successor, or null after the last node. */
  method IvtNext(node: Node, ghost p: Path, ghost s: Shape) returns (y: Node?)
    requires Hangs(node, p, s)
    ensures y == FirstOf(InOrder(s.right) + After(p))
  {
    if node.right != null {
      y := IvtFirst(node.right, s.right);
      return;
    }
    ghost var q := p;
    var x: Node := node;
    if p != Top { CutSide(p, x); }
    while x.parent != null && x == x.parent.right
      invariant PathLies(q) && PathDistinct(q) && x.parent == ParentOf(q) && x !in PathNodes(q)
      invariant q != Top ==> Down(q) == x && (q.LeftOf? <==> x != q.node.right)
      invariant After(q) == After(p)
      decreases q
    {
      x := x.parent;
      q := q.up;
      if q != Top { CutSide(q, x); }
    }
    y := x.parent;
  }

  /** The in-order predecessor, or null before the first node. */
  method IvtPrev(node: Node, ghost p: Path, ghost s: Shape) returns (y: Node?)
    requires Hangs(node, p, s)
    ensures y == LastOf(Before(p) + InOrder(s.left))
    ensures s.left.Branch? ==> y == Rightmost(s.left).node
  {
    if node.left != null {
      y := IvtLast(node.left, s.left);
      return;
    }
    ghost var q := p;
    var x: Node := node;
    if p != Top { CutSide(p, x); }
    while x.parent != null && x == x.parent.left
      invariant PathLies(q) && PathDistinct(q) && x.parent == ParentOf(q) && x !in PathNodes(q)
      invariant q != Top ==> Down(q) == x && (q.LeftOf? <==> x == q.node.left)
      invariant Before(q) == Before(p)
      decreases q
    {
      x := x.parent;
      q := q.up;
      if q != Top { CutSide(q, x); }
    }
    y := x.parent;
  }

  /** Opening the tree at a stored node. */
  lemma {:induction false} LocateHangs(p: Path, t: Shape, head: Node?, n: Node)
    requires Plugged(p, t, head) && Fits(p, t) && n in Nodes(t)
    ensures var (q, s) := Locate(p, t, n);
      s.Branch? && s.node == n && Plugged(q, s, head) && Fits(q, s) && Hangs(n, q, s)
    decreases t
  {
    Pieces(t);
    if n == t.node {
    } else if n in Nodes(t.left) {
      LocateHangs(LeftOf(p, t.node, t.right), t.left, head, n);
    } else {
      LocateHangs(RightOf(p, t.left, t.node), t.right, head, n);
    }
  }
}
