/** The mathematics of the tree, away from the heap: a Shape says which node hangs where. */
module IntervalShape {
  import opened IntervalNode

  datatype Shape = Leaf | Branch(left: Shape, node: Node, right: Shape)

  function InOrder(t: Shape): seq<Node> {
    match t
    case Leaf => []
    case Branch(l, n, r) => InOrder(l) + [n] + InOrder(r)
  }

  function Listed(s: seq<Node>): set<Node> {
    set n | n in s
  }

  /** The nodes of a tree. */
  function Nodes(t: Shape): (s: set<Node>)
    ensures t.Branch? ==> t.node in s
  {
    match t
    case Leaf => {}
    case Branch(l, n, r) => Nodes(l) + {n} + Nodes(r)
  }

  ghost predicate Unique(s: seq<Node>) {
    forall i, j :: 0 <= i < j < |s| ==> s[i] != s[j]
  }

  /** No node hangs in two places. */
  ghost predicate Distinct(t: Shape) {
    Unique(InOrder(t))
  }

  function Max(a: int, b: int): int { if a > b then a else b }

  function Height(t: Shape): nat {
    match t
    case Leaf => 0
    case Branch(l, _, r) => 1 + Max(Height(l), Height(r))
  }

  function Balance(t: Shape): int {
    match t
    case Leaf => 0
    case Branch(l, _, r) => Height(l) - Height(r)
  }

  predicate Avl(t: Shape) {
    match t
    case Leaf => true
    case Branch(l, _, r) => -1 <= Balance(t) <= 1 && Avl(l) && Avl(r)
  }

  /** The hull a node caches: least start and greatest end of its subtree. */
  function Lowest(t: Shape): U64
    requires t.Branch?
  {
    var m := t.node.lo;
    var m := if t.left.Branch? && Lowest(t.left) < m then Lowest(t.left) else m;
    if t.right.Branch? && Lowest(t.right) < m then Lowest(t.right) else m
  }

  function Highest(t: Shape): U64
    requires t.Branch?
  {
    var m := t.node.hi;
    var m := if t.left.Branch? && Highest(t.left) > m then Highest(t.left) else m;
    if t.right.Branch? && Highest(t.right) > m then Highest(t.right) else m
  }

  ghost predicate Sorted(s: seq<Node>) {
    forall i, j :: 0 <= i < j < |s| ==> s[i].lo <= s[j].lo
  }

  // ---- Rotations and rebalancing ----

  function RotateLeft(t: Shape): Shape
    requires t.Branch? && t.right.Branch?
  {
    Branch(Branch(t.left, t.node, t.right.left), t.right.node, t.right.right)
  }

  function RotateRight(t: Shape): Shape
    requires t.Branch? && t.left.Branch?
  {
    Branch(t.left.left, t.left.node, Branch(t.left.right, t.node, t.right))
  }

  function RotateLeftRight(t: Shape): Shape
    requires t.Branch? && t.left.Branch? && t.left.right.Branch?
  {
    RotateRight(Branch(RotateLeft(t.left), t.node, t.right))
  }

  function RotateRightLeft(t: Shape): Shape
    requires t.Branch? && t.right.Branch? && t.right.left.Branch?
  {
    RotateLeft(Branch(t.left, t.node, RotateRight(t.right)))
  }

  function Rebalance(t: Shape): Shape {
    if Balance(t) > 1 then
      if Balance(t.left) < 0 then RotateLeftRight(t) else RotateRight(t)
    else if Balance(t) < -1 then
      if Balance(t.right) > 0 then RotateRightLeft(t) else RotateLeft(t)
    else
      t
  }

  /** Rebalancing moves no node in the order, loses none and duplicates none. */
  lemma {:induction false} RebalanceKeepsOrder(t: Shape)
    ensures InOrder(Rebalance(t)) == InOrder(t)
  {
    if Balance(t) > 1 {
      if Balance(t.left) < 0 {
        RotateLeftKeepsOrder(t.left);
        RotateRightKeepsOrder(Branch(RotateLeft(t.left), t.node, t.right));
      } else {
        RotateRightKeepsOrder(t);
      }
    } else if Balance(t) < -1 {
      if Balance(t.right) > 0 {
        RotateRightKeepsOrder(t.right);
        RotateLeftKeepsOrder(Branch(t.left, t.node, RotateRight(t.right)));
      } else {
        RotateLeftKeepsOrder(t);
      }
    }
  }

  lemma {:induction false} RotateLeftKeepsOrder(t: Shape)
    requires t.Branch? && t.right.Branch?
    ensures InOrder(RotateLeft(t)) == InOrder(t)
  {
    var Branch(a, x, Branch(b, y, c)) := t;
    var inner := Branch(a, x, b);
    assert InOrder(inner) + [y] + InOrder(c) == InOrder(a) + [x] + (InOrder(b) + [y] + InOrder(c));
  }

  lemma {:induction false} RotateRightKeepsOrder(t: Shape)
    requires t.Branch? && t.left.Branch?
    ensures InOrder(RotateRight(t)) == InOrder(t)
  {
    var Branch(Branch(a, x, b), y, c) := t;
    var inner := Branch(b, y, c);
    assert InOrder(a) + [x] + InOrder(inner) == (InOrder(a) + [x] + InOrder(b)) + [y] + InOrder(c);
  }

  /** One rotation pair repairs an imbalance of two and costs at most one level. */
  lemma {:induction false} RebalanceRestoresAvl(t: Shape)
    requires t.Branch? && Avl(t.left) && Avl(t.right) && -2 <= Balance(t) <= 2
    ensures Avl(Rebalance(t))
    ensures Height(t) - 1 <= Height(Rebalance(t)) <= Height(t)
    ensures -1 <= Balance(t) <= 1 ==> Rebalance(t) == t
  {
    if Balance(t) > 1 {
      RightRotationsRestoreAvl(t);
    } else if Balance(t) < -1 {
      LeftRotationsRestoreAvl(t);
    }
  }

  lemma {:induction false} RightRotationsRestoreAvl(t: Shape)
    requires t.Branch? && Avl(t.left) && Avl(t.right) && Balance(t) == 2
    ensures var u := if Balance(t.left) < 0 then RotateLeftRight(t) else RotateRight(t);
      Avl(u) && Height(t) - 1 <= Height(u) <= Height(t)
  {
    var Branch(Branch(a, x, b), y, c) := t;
    if Balance(t.left) < 0 {
      var Branch(b0, z, b1) := b;
      var p, q := Branch(a, x, b0), Branch(b1, y, c);
      assert RotateLeftRight(t) == Branch(p, z, q);
      assert Avl(p) && Avl(q) && Height(p) == Height(q) == Height(b);
    } else {
      var q := Branch(b, y, c);
      assert Avl(q) && Height(b) <= Height(a) <= Height(q);
    }
  }

  lemma {:induction false} LeftRotationsRestoreAvl(t: Shape)
    requires t.Branch? && Avl(t.left) && Avl(t.right) && Balance(t) == -2
    ensures var u := if Balance(t.right) > 0 then RotateRightLeft(t) else RotateLeft(t);
      Avl(u) && Height(t) - 1 <= Height(u) <= Height(t)
  {
    var Branch(a, x, Branch(b, y, c)) := t;
    if Balance(t.right) > 0 {
      var Branch(b0, z, b1) := b;
      var p, q := Branch(a, x, b0), Branch(b1, y, c);
      assert RotateRightLeft(t) == Branch(p, z, q);
      assert Avl(p) && Avl(q) && Height(p) == Height(q) == Height(b);
    } else {
      var p := Branch(a, x, b);
      assert Avl(p) && Height(b) <= Height(c) <= Height(p);
    }
  }

  lemma {:induction false} NodesAreInOrder(t: Shape)
    ensures Nodes(t) == Listed(InOrder(t))
  {
    if t.Branch? {
      NodesAreInOrder(t.left);
      NodesAreInOrder(t.right);
    }
  }

  lemma SameOrderSameNodes(t: Shape, u: Shape)
    requires InOrder(t) == InOrder(u)
    ensures Nodes(t) == Nodes(u)
  {
    NodesAreInOrder(t);
    NodesAreInOrder(u);
  }

  /** Two sequences without a common element. */
  ghost predicate Separate(a: seq<Node>, b: seq<Node>) {
    forall i, j :: 0 <= i < |a| && 0 <= j < |b| ==> a[i] != b[j]
  }

  lemma SeparateIsDisjoint(a: seq<Node>, b: seq<Node>)
    ensures Separate(a, b) <==> Listed(a) !! Listed(b)
  {
    if Listed(a) !! Listed(b) {
      forall i, j | 0 <= i < |a| && 0 <= j < |b| ensures a[i] != b[j] {
        assert a[i] in Listed(a) && b[j] in Listed(b);
      }
    }
  }

  lemma {:induction false} Pieces(t: Shape)
    requires t.Branch?
    ensures Distinct(t) <==>
      && Distinct(t.left) && Distinct(t.right) && Nodes(t.left) !! Nodes(t.right)
      && t.node !in Nodes(t.left) && t.node !in Nodes(t.right)
  {
    var a, b := InOrder(t.left), InOrder(t.right);
    UniqueAround(a, t.node, b);
    SeparateIsDisjoint(a, b);
    NodesAreInOrder(t.left);
    NodesAreInOrder(t.right);
  }

  lemma UniqueAround(a: seq<Node>, n: Node, b: seq<Node>)
    ensures Unique(a + [n] + b) <==> Unique(a) && Unique(b) && n !in a && n !in b && Separate(a, b)
  {
    var s := a + [n] + b;
    assert s[|a|] == n;
    assert forall i :: 0 <= i < |a| ==> s[i] == a[i];
    assert forall i :: 0 <= i < |b| ==> s[|a| + 1 + i] == b[i];
    if Unique(a) && Unique(b) && n !in a && n !in b && Separate(a, b) {
      forall i, j | 0 <= i < j < |s| ensures s[i] != s[j] {
        if j > |a| { assert s[j] == b[j - |a| - 1]; }
        if i > |a| { assert s[i] == b[i - |a| - 1]; }
      }
    }
  }

  /** The cached hull bounds every stored interval. */
  lemma {:induction false} HullCovers(t: Shape, n: Node)
    requires n in Nodes(t)
    ensures Lowest(t) <= n.lo && n.hi <= Highest(t)
  {
    if n in Nodes(t.left) {
      HullCovers(t.left, n);
    } else if n in Nodes(t.right) {
      HullCovers(t.right, n);
    }
  }

  /** Both ends of the hull are reached by stored intervals. */
  lemma {:induction false} HullIsTight(t: Shape) returns (first: Node, last: Node)
    requires t.Branch?
    ensures first in Nodes(t) && first.lo == Lowest(t)
    ensures last in Nodes(t) && last.hi == Highest(t)
  {
    first, last := t.node, t.node;
    if t.left.Branch? {
      var a, b := HullIsTight(t.left);
      if a.lo < first.lo { first := a; }
      if b.hi > last.hi { last := b; }
    }
    if t.right.Branch? {
      var a, b := HullIsTight(t.right);
      if a.lo < first.lo { first := a; }
      if b.hi > last.hi { last := b; }
    }
  }
}
