/**
 * The tree on the heap. A parameter that refers to a link (the root, or a left or right field) is
 * passed in by value and handed back as the out-parameter that the caller stores in that link.
 */
module IntervalHeap {
  import opened IntervalNode
  import opened IntervalShape
  import opened IntervalPaths
  import opened IntervalOps

  // ---- How a shape lies on the heap ----

  function Link(t: Shape): Node? {
    if t.Leaf? then null else t.node
  }

  /** Below the root of t all links agree, and every cached field of t is up to date. */
  ghost predicate Lies(t: Shape)
    reads Nodes(t)
  {
    t.Branch? ==> Fresh(t) && Joined(t) && Lies(t.left) && Lies(t.right)
  }

  /** As Lies, but the root's own cache may be stale. */
  ghost predicate Hooked(t: Shape)
    requires t.Branch?
    reads Nodes(t)
  {
    Joined(t) && Lies(t.left) && Lies(t.right)
  }

  /** The root's cached fields equal their recomputed values. */
  ghost predicate Fresh(t: Shape)
    requires t.Branch?
    reads t.node
  {
    t.node.height == Height(t) && t.node.min == Lowest(t) && t.node.max == Highest(t)
  }

  /** The root and its children point at each other. */
  ghost predicate Joined(t: Shape)
    requires t.Branch?
    reads t.node, Link(t.left), Link(t.right)
  {
    && t.node.left == Link(t.left) && (t.left.Branch? ==> t.left.node.parent == t.node)
    && t.node.right == Link(t.right) && (t.right.Branch? ==> t.right.node.parent == t.node)
  }

  // ---- Reading the children's caches ----

  function IvtMin(x: Node): U64
    reads x, x.left, x.right
  {
    var m := x.lo;
    var m := if x.left != null && x.left.min < m then x.left.min else m;
    if x.right != null && x.right.min < m then x.right.min else m
  }

  function IvtMax(x: Node): U64
    reads x, x.left, x.right
  {
    var m := x.hi;
    var m := if x.left != null && x.left.max > m then x.left.max else m;
    if x.right != null && x.right.max > m then x.right.max else m
  }

  function IvtHeight(x: Node?): nat
    reads x, if x != null then {x.left, x.right} else {}
  {
    if x == null then 0 else
      1 + Max(if x.left != null then x.left.height else 0, if x.right != null then x.right.height else 0)
  }

  function IvtBalance(x: Node?): int
    reads x, if x != null then {x.left, x.right} else {}
  {
    if x == null then 0 else
      (if x.left != null then x.left.height else 0) - (if x.right != null then x.right.height else 0)
  }

  /** Under a hooked root the recomputed values are the true ones. */
  lemma RecomputedIsTrue(t: Shape)
    requires t.Branch? && Hooked(t)
    ensures IvtHeight(t.node) == Height(t) && IvtBalance(t.node) == Balance(t)
    ensures IvtMin(t.node) == Lowest(t) && IvtMax(t.node) == Highest(t)
  {
  }

  method IvtRefresh(x: Node?, ghost t: Shape)
    requires x != null ==> t.Branch? && t.node == x && Hooked(t) && x !in Nodes(t.left) && x !in Nodes(t.right)
    modifies (if x != null then {x} else {})`height
    modifies (if x != null then {x} else {})`min, (if x != null then {x} else {})`max
    ensures x != null ==> Lies(t)
  {
    if x != null {
      RecomputedIsTrue(t);
      x.height := IvtHeight(x);
      x.min := IvtMin(x);
      x.max := IvtMax(x);
    }
  }

  /** Hand back the subtree at x for storing in a link, pointing it at its new parent. */
  method IvtTransplant(x: Node?, p: Node?) returns (link: Node?)
    modifies (if x != null then {x} else {})`parent
    ensures link == x && (x != null ==> x.parent == p)
  {
    link := x;
    if x != null {
      x.parent := p;
    }
  }

  // ---- Framing ----

  /** Every field of n that the shape predicates look at, except the parent link. */
  twostate predicate SameBelow(n: Node)
    reads n
  {
    && n.left == old(n.left) && n.right == old(n.right)
    && n.height == old(n.height) && n.min == old(n.min) && n.max == old(n.max)
  }

  twostate predicate SameLinks(n: Node)
    reads n
  {
    SameBelow(n) && n.parent == old(n.parent)
  }

  /** Only the root's parent link may have been written: the subtree still lies as it did. */
  twostate lemma {:induction false} Undisturbed(t: Shape)
    requires Distinct(t) && old(allocated(Nodes(t))) && old(Lies(t))
    requires forall n :: n in Nodes(t) ==> old(allocated(n)) && (if n == t.node then SameBelow(n) else SameLinks(n))
    ensures Lies(t)
  {
    if t.Branch? {
      Pieces(t);
      assert t.left.Branch? ==> allocated(t.left.node) && SameLinks(t.left.node);
      assert t.right.Branch? ==> allocated(t.right.node) && SameLinks(t.right.node);
      Undisturbed(t.left);
      Undisturbed(t.right);
    }
  }

  // ---- Rotations ----

  /** The parts of a rotation share no node. */
  predicate Apart(a: Shape, x: Node, b: Shape, y: Node, c: Shape) {
    && x != y && {x, y} !! Nodes(a) && {x, y} !! Nodes(b) && {x, y} !! Nodes(c)
    && Nodes(a) !! Nodes(b) && Nodes(a) !! Nodes(c) && Nodes(b) !! Nodes(c)
  }

  lemma RotateLeftParts(t: Shape)
    requires t.Branch? && t.right.Branch? && Distinct(t)
    ensures var Branch(a, x, Branch(b, y, c)) := t;
      && Apart(a, x, b, y, c) && Distinct(a) && Distinct(b) && Distinct(c)
  {
    Pieces(t); Pieces(t.right);
  }

  method IvtRotateLeft(x: Node, ghost t: Shape) returns (y: Node)
    requires t.Branch? && t.right.Branch? && Distinct(t) && t.node == x && Hooked(t)
    modifies Nodes(t)`parent, Nodes(t)`left, Nodes(t)`right, Nodes(t)`height, Nodes(t)`min, Nodes(t)`max
    ensures y == Link(RotateLeft(t)) && y.parent == old(x.parent) && Lies(RotateLeft(t))
  {
    RotateLeftParts(t);
    ghost var Branch(a, _, Branch(b, _, c)) := t;
    assert allocated(Nodes(a)) && allocated(Nodes(b)) && allocated(Nodes(c)) && Lies(b) && Lies(c);
    var oldroot := x;
    var newroot := oldroot.right;
    var subtree := newroot.left;
    assert subtree == Link(b) && Nodes(b) <= Nodes(t);
    y := IvtTransplant(newroot, oldroot.parent);
    newroot.left := IvtTransplant(oldroot, newroot);
    oldroot.right := IvtTransplant(subtree, oldroot);
    forall n | n in Nodes(a) || n in Nodes(b) || n in Nodes(c)
      ensures n != oldroot && n != newroot && old(allocated(n))
      ensures SameBelow(n) && (n != subtree ==> n.parent == old(n.parent))
    {
    }
    Undisturbed(a);
    Undisturbed(b);
    Undisturbed(c);
    IvtRefresh(oldroot, RotateLeft(t).left);
    IvtRefresh(newroot, RotateLeft(t));
  }

  lemma RotateRightParts(t: Shape)
    requires t.Branch? && t.left.Branch? && Distinct(t)
    ensures var Branch(Branch(a, x, b), y, c) := t;
      && Apart(c, y, b, x, a) && Distinct(a) && Distinct(b) && Distinct(c)
  {
    Pieces(t);
    Pieces(t.left);
  }

  method IvtRotateRight(x: Node, ghost t: Shape) returns (y: Node)
    requires t.Branch? && t.left.Branch? && Distinct(t) && t.node == x && Hooked(t)
    modifies Nodes(t)`parent, Nodes(t)`left, Nodes(t)`right, Nodes(t)`height, Nodes(t)`min, Nodes(t)`max
    ensures y == Link(RotateRight(t)) && y.parent == old(x.parent) && Lies(RotateRight(t))
  {
    RotateRightParts(t);
    ghost var Branch(Branch(a, _, b), _, c) := t;
    assert allocated(Nodes(a)) && allocated(Nodes(b)) && allocated(Nodes(c)) && Lies(a) && Lies(b);
    var oldroot := x;
    var newroot := oldroot.left;
    var subtree := newroot.right;
    assert subtree == Link(b) && Nodes(b) <= Nodes(t);
    y := IvtTransplant(newroot, oldroot.parent);
    newroot.right := IvtTransplant(oldroot, newroot);
    oldroot.left := IvtTransplant(subtree, oldroot);
    forall n | n in Nodes(c) || n in Nodes(b) || n in Nodes(a)
      ensures n != oldroot && n != newroot && old(allocated(n))
      ensures SameBelow(n) && (n != subtree ==> n.parent == old(n.parent))
    {
    }
    Undisturbed(c);
    Undisturbed(b);
    Undisturbed(a);
    IvtRefresh(oldroot, RotateRight(t).right);
    IvtRefresh(newroot, RotateRight(t));
  }

  method IvtRotateLeftRight(x: Node, ghost t: Shape) returns (y: Node)
    requires t.Branch? && t.left.Branch? && t.left.right.Branch? && Distinct(t) && t.node == x && Hooked(t)
    modifies Nodes(t)`parent, Nodes(t)`left, Nodes(t)`right, Nodes(t)`height, Nodes(t)`min, Nodes(t)`max
    ensures y == Link(RotateLeftRight(t)) && y.parent == old(x.parent) && Lies(RotateLeftRight(t))
  {
    ghost var l := RotateLeft(t.left);
    Pieces(t);
    RotateLeftKeepsOrder(t.left);
    SameOrderSameNodes(t.left, l);
    Pieces(Branch(l, t.node, t.right));
    assert allocated(Nodes(t.left)) && allocated(Nodes(t.right));
    x.left := IvtRotateLeft(x.left, t.left);
    Undisturbed(t.right);
    y := IvtRotateRight(x, Branch(l, t.node, t.right));
  }

  method IvtRotateRightLeft(x: Node, ghost t: Shape) returns (y: Node)
    requires t.Branch? && t.right.Branch? && t.right.left.Branch? && Distinct(t) && t.node == x && Hooked(t)
    modifies Nodes(t)`parent, Nodes(t)`left, Nodes(t)`right, Nodes(t)`height, Nodes(t)`min, Nodes(t)`max
    ensures y == Link(RotateRightLeft(t)) && y.parent == old(x.parent) && Lies(RotateRightLeft(t))
  {
    ghost var r := RotateRight(t.right);
    Pieces(t);
    RotateRightKeepsOrder(t.right);
    SameOrderSameNodes(t.right, r);
    Pieces(Branch(t.left, t.node, r));
    assert allocated(Nodes(t.left)) && allocated(Nodes(t.right));
    x.right := IvtRotateRight(x.right, t.right);
    Undisturbed(t.left);
    y := IvtRotateLeft(x, Branch(t.left, t.node, r));
  }

  /** Refresh the root and repair an imbalance with the cached heights. */
  method IvtRebalance(x: Node?, ghost t: Shape) returns (y: Node?)
    requires x == Link(t) && (t.Branch? ==> Distinct(t) && Hooked(t))
    modifies Nodes(t)`parent, Nodes(t)`left, Nodes(t)`right, Nodes(t)`height, Nodes(t)`min, Nodes(t)`max
    ensures y == Link(Rebalance(t)) && Lies(Rebalance(t))
    ensures x != null ==> y != null && y.parent == old(x.parent)
  {
    if x == null {
      return null;
    }
    y := x;
    Pieces(t);
    assert allocated(Nodes(t.left)) && allocated(Nodes(t.right));
    IvtRefresh(x, t);
    RecomputedIsTrue(t);
    if t.left.Branch? { RecomputedIsTrue(t.left); }
    if t.right.Branch? { RecomputedIsTrue(t.right); }
    var balance := IvtBalance(x);
    if balance > 1 {
      if IvtBalance(x.left) < 0 {
        y := IvtRotateLeftRight(x, t);
      } else {
        y := IvtRotateRight(x, t);
      }
    }
    if balance < -1 {
      if IvtBalance(x.right) > 0 {
        y := IvtRotateRightLeft(x, t);
      } else {
        y := IvtRotateLeft(x, t);
      }
    }
  }

  /** Hang a new leaf into the tree at x and rebalance on the way back up: one call a level. */
  method IvtInsert(x: Node?, node: Node, parent: Node?, ghost t: Shape) returns (y: Node, ghost calls: nat)
    requires x == Link(t) && Lies(t) && Distinct(t) && node !in Nodes(t)
    requires x != null ==> x.parent == parent
    requires Lies(Branch(Leaf, node, Leaf))
    modifies Nodes(t)`parent, Nodes(t)`left, Nodes(t)`right, Nodes(t)`height, Nodes(t)`min, Nodes(t)`max
    modifies node`parent, node`left, node`right, node`height, node`min, node`max
    ensures y == Link(Insert(t, node)) && y.parent == parent && Lies(Insert(t, node))
    ensures calls <= Height(t) + 1
    decreases t, 1
  {
    if x == null {
      node.parent := parent;
      return node, 1;
    }
    if node.lo <= x.lo {
      ghost var u := Branch(Insert(t.left, node), t.node, t.right);
      calls := IvtInsertLeft(x, node, t, u);
      y := IvtRebalance(x, u);
    } else {
      ghost var u := Branch(t.left, t.node, Insert(t.right, node));
      calls := IvtInsertRight(x, node, t, u);
      y := IvtRebalance(x, u);
    }
  }

  method IvtInsertLeft(x: Node, node: Node, ghost t: Shape, ghost u: Shape) returns (ghost calls: nat)
    requires x == Link(t) && Lies(t) && Distinct(t) && node !in Nodes(t)
    requires Lies(Branch(Leaf, node, Leaf)) && u == Branch(Insert(t.left, node), t.node, t.right)
    modifies Nodes(t)`parent, Nodes(t)`left, Nodes(t)`right, Nodes(t)`height, Nodes(t)`min, Nodes(t)`max
    modifies node`parent, node`left, node`right, node`height, node`min, node`max
    ensures Hooked(u) && Distinct(u) && Nodes(u) == Nodes(t) + {node} && x.parent == old(x.parent)
    ensures calls <= Height(t) + 1
    decreases t, 0
  {
    Pieces(t);
    InsertedPieces(t.left, node);
    Pieces(u);
    assert allocated(Nodes(t.left)) && allocated(Nodes(t.right));
    x.left, calls := IvtInsert(x.left, node, x, t.left);
    calls := calls + 1;
    Undisturbed(t.right);
  }

  method IvtInsertRight(x: Node, node: Node, ghost t: Shape, ghost u: Shape) returns (ghost calls: nat)
    requires x == Link(t) && Lies(t) && Distinct(t) && node !in Nodes(t)
    requires Lies(Branch(Leaf, node, Leaf)) && u == Branch(t.left, t.node, Insert(t.right, node))
    modifies Nodes(t)`parent, Nodes(t)`left, Nodes(t)`right, Nodes(t)`height, Nodes(t)`min, Nodes(t)`max
    modifies node`parent, node`left, node`right, node`height, node`min, node`max
    ensures Hooked(u) && Distinct(u) && Nodes(u) == Nodes(t) + {node} && x.parent == old(x.parent)
    ensures calls <= Height(t) + 1
    decreases t, 0
  {
    Pieces(t);
    InsertedPieces(t.right, node);
    Pieces(u);
    assert allocated(Nodes(t.right)) && allocated(Nodes(t.left));
    x.right, calls := IvtInsert(x.right, node, x, t.right);
    calls := calls + 1;
    Undisturbed(t.left);
  }

  lemma {:induction false} InsertedPieces(t: Shape, n: Node)
    requires Distinct(t) && n !in Nodes(t)
    ensures Distinct(Insert(t, n)) && Nodes(Insert(t, n)) == Nodes(t) + {n}
  {
    if t.Branch? {
      var u;
      Pieces(t);
      if n.lo <= t.node.lo {
        InsertedPieces(t.left, n);
        u := Branch(Insert(t.left, n), t.node, t.right);
      } else {
        InsertedPieces(t.right, n);
        u := Branch(t.left, t.node, Insert(t.right, n));
      }
      Pieces(u);
      RebalanceKeepsOrder(u);
      SameOrderSameNodes(u, Rebalance(u));
    }
  }
}
