/** Unlinking a node, splicing in its predecessor when it has two children, and rebalancing upwards. */
module IntervalRemoval {
  import opened IntervalNode
  import opened IntervalShape
  import opened IntervalPaths
  import opened IntervalOps
  import opened IntervalHeap
  import opened IntervalWalk
  import opened IntervalSteps

  /** Put x where node hangs; node keeps its own links. */
  method Replace(root: Node?, node: Node, x: Node?, ghost p: Path) returns (head: Node?)
    requires PathLies(p) && PathDistinct(p) && node !in PathNodes(p) && x !in PathNodes(p)
    requires node.parent == ParentOf(p) && (p != Top ==> Down(p) == node) && root == Head(p, node)
    modifies (if x != null then {x} else {})`parent
    modifies (if p.LeftOf? then {p.node} else {})`left, (if p.RightOf? then {p.node} else {})`right
    ensures PathLies(p) && (p != Top ==> Down(p) == x) && head == Head(p, x)
    ensures x != null ==> x.parent == ParentOf(p)
  {
    assert allocated(PathNodes(p));
    RefLeadsToCut(p, node);
    var ref := IvtRef(node);
    var link := IvtTransplant(x, node.parent);
    head := Store(root, ref, link);
    PathUndisturbed(p);
  }

  // ---- The right spine above the predecessor ----

  /** The nodes of t that are not below its rightmost node. */
  function SpineNodes(t: Shape): (s: set<Node>)
    ensures t.Branch? && t.right.Branch? ==> t.node in s
  {
    if t.Leaf? || t.right.Leaf? then {} else {t.node} + Nodes(t.left) + SpineNodes(t.right)
  }

  /** The parent of the rightmost node. */
  function SpineEnd(t: Shape): Node
    requires t.Branch? && t.right.Branch?
  {
    if t.right.right.Leaf? then t.node else SpineEnd(t.right)
  }

  lemma {:induction false} SpineParts(t: Shape)
    requires t.Branch? && Distinct(t)
    ensures Nodes(t) == SpineNodes(t) + Nodes(Rightmost(t)) && SpineNodes(t) !! Nodes(Rightmost(t))
    ensures Distinct(Rightmost(t)) && Rightmost(t).node !in Nodes(Rightmost(t).left) && Distinct(Rightmost(t).left)
    ensures t.right.Branch? ==> SpineEnd(t) in SpineNodes(t)
  {
    Pieces(t);
    if t.right.Branch? {
      SpineParts(t.right);
    }
  }

  /** The spine's links agree, apart from the one out of its end; its root's parent is left open. */
  ghost predicate SpineLies(t: Shape)
    requires t.Branch? && t.right.Branch?
    reads SpineNodes(t)
  {
    && t.node.left == Link(t.left) && (t.left.Branch? ==> t.left.node.parent == t.node) && Lies(t.left)
    && (t.right.right.Branch? ==>
          t.node.right == t.right.node && t.right.node.parent == t.node && SpineLies(t.right))
  }

  lemma {:induction false} SpineOf(t: Shape)
    requires t.Branch? && t.right.Branch? && Lies(t) && Distinct(t)
    ensures SpineLies(t) && SpineEnd(t).left != SpineEnd(t).right == Rightmost(t).node
    ensures Rightmost(t).node.parent == SpineEnd(t) && Lies(Rightmost(t))
  {
    Pieces(t);
    if t.right.right.Branch? {
      SpineOf(t.right);
    }
  }

  /** Back to a path: a spine hanging in the cut of p extends p. */
  lemma {:induction false} SpinePath(p: Path, t: Shape)
    requires t.Branch? && t.right.Branch? && p != Top && PathLies(p)
    requires Down(p) == t.node && t.node.parent == p.node && SpineLies(t)
    ensures PathLies(Spine(p, t)) && Spine(p, t).RightOf? && Spine(p, t).node == SpineEnd(t)
    decreases t
  {
    var q := RightOf(p, t.left, t.node);
    assert PathLies(q);
    if t.right.right.Branch? {
      SpinePath(q, t.right);
    }
  }

  /** Only the spine's way in and way out were written. */
  twostate lemma {:induction false} SpineUndisturbed(t: Shape)
    requires t.Branch? && t.right.Branch? && old(allocated(SpineNodes(t))) && old(SpineLies(t)) && Distinct(t)
    requires forall n :: n in SpineNodes(t) ==> old(allocated(n)) && n.left == old(n.left) && SameCache(n)
    requires forall n :: n in SpineNodes(t) && n != SpineEnd(t) ==> n.right == old(n.right)
    requires forall n :: n in SpineNodes(t) && n != t.node ==> n.parent == old(n.parent)
    ensures SpineLies(t)
  {
    Pieces(t);
    SpineParts(t);
    SpineParts(t.right);
    assert allocated(Nodes(t.left));
    assert t.left.Branch? ==> allocated(t.left.node);
    Undisturbed(t.left);
    if t.right.right.Branch? {
      assert allocated(SpineNodes(t.right));
      SpineUndisturbed(t.right);
    }
  }

  twostate predicate SameCache(n: Node)
    reads n
  {
    n.height == old(n.height) && n.min == old(n.min) && n.max == old(n.max)
  }

  // ---- Removal ----

  /** Cut prev, the rightmost node of l, out of its place and hang l below it. */
  method DetachPrev(root: Node?, node: Node, prev: Node, ghost l: Shape) returns (head: Node?, rebalance: Node)
    requires l.Branch? && l.right.Branch? && Distinct(l) && Lies(l)
    requires node !in Nodes(l) && node.left == l.node && prev == Rightmost(l).node
    modifies Nodes(l)`parent, Nodes(l)`left, Nodes(l)`right
    ensures head == root && rebalance == SpineEnd(l) && prev.left == l.node && l.node.parent == prev
    ensures SpineLies(l)
    ensures var u := Rightmost(l).left;
      SpineEnd(l).right == Link(u) && Lies(u) && (u.Branch? ==> u.node.parent == SpineEnd(l))
  {
    ghost var last := Rightmost(l);
    ghost var u := last.left;
    SpineParts(l);
    SpineOf(l);
    assert Nodes(u) <= Nodes(l) && last.node in Nodes(l) && SpineEnd(l) in Nodes(l);
    assert allocated(SpineNodes(l)) && allocated(Nodes(u)) && Lies(u);
    rebalance := prev.parent;
    var ref := IvtRef(prev);
    var link := IvtTransplant(prev.left, prev.parent);
    head := Store(root, ref, link);
    prev.left := node.left;
    prev.left.parent := prev;
    forall n | n in SpineNodes(l) || n in Nodes(u)
      ensures n != prev && old(allocated(n)) && n.left == old(n.left) && SameCache(n)
      ensures n != rebalance ==> n.right == old(n.right)
      ensures n != l.node && n != Link(u) ==> n.parent == old(n.parent)
    {
    }
    SpineUndisturbed(l);
    Undisturbed(u);
  }

  /** Put prev in the place of node, above node's right subtree r. */
  method TakeOver(root: Node?, node: Node, prev: Node, ghost p: Path, ghost r: Shape) returns (head: Node?)
    requires PathLies(p) && PathDistinct(p) && node !in PathNodes(p) && prev !in PathNodes(p)
    requires node.parent == ParentOf(p) && (p != Top ==> Down(p) == node) && root == Head(p, node)
    requires node.right == Link(r) && Lies(r) && Distinct(r) && node != prev
    requires node !in Nodes(r) && prev !in Nodes(r) && Nodes(r) !! PathNodes(p)
    modifies prev`parent, prev`right, Nodes(r)`parent
    modifies (if p.LeftOf? then {p.node} else {})`left, (if p.RightOf? then {p.node} else {})`right
    ensures PathLies(LeftOf(p, prev, r)) && head == Head(p, prev)
  {
    assert allocated(PathNodes(p)) && allocated(Nodes(r));
    head := Replace(root, node, prev, p);
    label Placed:
    prev.right := node.right;
    if prev.right != null {
      prev.right.parent := prev;
    }
    PathUndisturbed@Placed(p);
    Undisturbed(r);
  }

  lemma {:induction false} SpineHead(p: Path, t: Shape, x: Node?)
    requires t.Branch? && p != Top
    ensures Head(Spine(p, t), x) == Head(p, t.node)
    decreases t
  {
    if t.right.Branch? {
      SpineHead(RightOf(p, t.left, t.node), t.right, x);
    }
  }

  /** The path to the predecessor's old place once it stands in for the node of s. */
  function Spliced(p: Path, s: Shape): Path
    requires s.Branch? && s.left.Branch?
  {
    Spine(LeftOf(p, Rightmost(s.left).node, s.right), s.left)
  }

  lemma UniqueWithout(a: seq<Node>, n: Node, b: seq<Node>)
    requires Unique(a + [n] + b)
    ensures Unique(a + b)
  {
    var u := a + b;
    UniqueAround(a, n, b);
    forall i, j | 0 <= i < j < |u| ensures u[i] != u[j] {
      assert u[j] == if j < |a| then a[j] else b[j - |a|];
    }
  }

  lemma ListedWithout(a: seq<Node>, n: Node, b: seq<Node>)
    ensures Listed(a + [n] + b) == Listed(a + b) + {n}
  {
    ListedConcat(a + [n], b);
    ListedConcat(a, [n]);
    ListedConcat(a, b);
  }

  lemma ListedConcat(a: seq<Node>, b: seq<Node>)
    ensures Listed(a + b) == Listed(a) + Listed(b)
  {
  }

  /** Around the spliced predecessor every node still occurs once. */
  lemma SpliceFits(p: Path, s: Shape)
    requires s.Branch? && s.left.Branch? && Fits(p, s)
    ensures Fits(Spliced(p, s), Rightmost(s.left).left)
    ensures PathNodes(Spliced(p, s)) + Nodes(Rightmost(s.left).left) <= PathNodes(p) + Nodes(s)
  {
    var q, u := Spliced(p, s), Rightmost(s.left).left;
    var a, b := Before(p) + InOrder(s.left), InOrder(s.right) + After(p);
    PlugOrder(p, s);
    assert InOrder(Plug(p, s)) == a + [s.node] + b;
    SpliceOrder(LeftOf(p, Rightmost(s.left).node, s.right), s.left);
    PlugOrder(q, u);
    assert InOrder(Plug(q, u)) == a + b;
    FitsWithout(p, s, q, u, a, b);
  }

  lemma FitsWithout(p: Path, s: Shape, q: Path, u: Shape, a: seq<Node>, b: seq<Node>)
    requires s.Branch? && Fits(p, s)
    requires InOrder(Plug(p, s)) == a + [s.node] + b && InOrder(Plug(q, u)) == a + b
    ensures Fits(q, u) && PathNodes(q) + Nodes(u) <= PathNodes(p) + Nodes(s)
  {
    PlugDistinct(p, s);
    PlugDistinct(q, u);
    UniqueWithout(a, s.node, b);
    ListedWithout(a, s.node, b);
    NodesAreInOrder(Plug(p, s));
    NodesAreInOrder(Plug(q, u));
  }

  lemma RemoveParts(p: Path, s: Shape)
    requires s.Branch? && Fits(p, s)
    ensures Fits(p, s.left) && Fits(p, s.right) && s.node !in PathNodes(p)
    ensures s.node !in Nodes(s.left) && s.node !in Nodes(s.right) && Nodes(s.left) !! Nodes(s.right)
  {
    Pieces(s);
  }

  /** The predecessor hangs deeper in the left subtree. */
  method SpliceDeep(root: Node?, node: Node, prev: Node, ghost p: Path, ghost s: Shape)
    returns (head: Node?, rebalance: Node)
    requires s.Branch? && s.node == node && s.left.Branch? && s.left.right.Branch? && prev == Rightmost(s.left).node
    requires Plugged(p, s, root) && Fits(p, s)
    modifies PathNodes(p)`parent, PathNodes(p)`left, PathNodes(p)`right
    modifies PathNodes(p)`height, PathNodes(p)`min, PathNodes(p)`max
    modifies Nodes(s)`parent, Nodes(s)`left, Nodes(s)`right, Nodes(s)`height, Nodes(s)`min, Nodes(s)`max
    ensures Plugged(Spliced(p, s), Rightmost(s.left).left, head) && rebalance == Spliced(p, s).node
  {
    ghost var l, r := s.left, s.right;
    RemoveParts(p, s);
    SpineParts(l);
    assert allocated(PathNodes(p)) && allocated(Nodes(r));
    head, rebalance := DetachPrev(root, node, prev, l);
    PathUndisturbed(p);
    Undisturbed(r);
    head := TakeOverAbove(head, node, prev, p, l, r);
  }

  /** Put prev in the place of node, above node's right subtree r and the spine of l. */
  method TakeOverAbove(root: Node?, node: Node, prev: Node, ghost p: Path, ghost l: Shape, ghost r: Shape)
    returns (head: Node?)
    requires PathLies(p) && PathDistinct(p) && node !in PathNodes(p) && prev !in PathNodes(p)
    requires node.parent == ParentOf(p) && (p != Top ==> Down(p) == node) && root == Head(p, node)
    requires node.right == Link(r) && Lies(r) && Distinct(r) && node != prev
    requires node !in Nodes(r) && prev !in Nodes(r) && Nodes(r) !! PathNodes(p)
    requires l.Branch? && l.right.Branch? && Distinct(l) && SpineLies(l) && prev == Rightmost(l).node
    requires Nodes(l) !! PathNodes(p) && Nodes(l) !! Nodes(r) && prev.left == l.node && l.node.parent == prev
    requires var u := Rightmost(l).left;
      SpineEnd(l).right == Link(u) && Lies(u) && (u.Branch? ==> u.node.parent == SpineEnd(l))
    modifies prev`parent, prev`right, Nodes(r)`parent
    modifies (if p.LeftOf? then {p.node} else {})`left, (if p.RightOf? then {p.node} else {})`right
    ensures Plugged(Spine(LeftOf(p, prev, r), l), Rightmost(l).left, head)
    ensures Spine(LeftOf(p, prev, r), l).node == SpineEnd(l)
  {
    ghost var u := Rightmost(l).left;
    ghost var below := LeftOf(p, prev, r);
    SpineParts(l);
    assert allocated(SpineNodes(l)) && allocated(Nodes(u)) && allocated(Nodes(l));
    head := TakeOver(root, node, prev, p, r);
    SpineUndisturbed(l);
    Undisturbed(u);
    SpinePath(below, l);
    SpineHead(below, l, Link(u));
  }

  /** The predecessor is the left child itself. */
  method SpliceNear(root: Node?, node: Node, prev: Node, ghost p: Path, ghost s: Shape)
    returns (head: Node?, rebalance: Node)
    requires s.Branch? && s.node == node && s.left.Branch? && s.left.right.Leaf? && prev == s.left.node
    requires Plugged(p, s, root) && Fits(p, s)
    modifies PathNodes(p)`parent, PathNodes(p)`left, PathNodes(p)`right
    modifies PathNodes(p)`height, PathNodes(p)`min, PathNodes(p)`max
    modifies Nodes(s)`parent, Nodes(s)`left, Nodes(s)`right, Nodes(s)`height, Nodes(s)`min, Nodes(s)`max
    ensures Plugged(Spliced(p, s), s.left.left, head) && rebalance == Spliced(p, s).node
  {
    ghost var u := s.left.left;
    RemoveParts(p, s);
    Pieces(s.left);
    assert allocated(Nodes(u)) && Lies(s.left) && Lies(u);
    head := TakeOver(root, node, prev, p, s.right);
    Undisturbed(u);
    rebalance := prev;
  }

  lemma DeepPredecessor(l: Shape)
    requires l.Branch? && Distinct(l)
    ensures Rightmost(l).node != l.node <==> l.right.Branch?
  {
    SpineParts(l);
  }

  /** Splice the predecessor into the place of a node with two children. */
  method Splice(root: Node?, node: Node, ghost p: Path, ghost s: Shape) returns (head: Node?, rebalance: Node)
    requires s.Branch? && s.node == node && s.left.Branch? && Plugged(p, s, root) && Fits(p, s)
    modifies PathNodes(p)`parent, PathNodes(p)`left, PathNodes(p)`right
    modifies PathNodes(p)`height, PathNodes(p)`min, PathNodes(p)`max
    modifies Nodes(s)`parent, Nodes(s)`left, Nodes(s)`right, Nodes(s)`height, Nodes(s)`min, Nodes(s)`max
    ensures Plugged(Spliced(p, s), Rightmost(s.left).left, head) && rebalance == Spliced(p, s).node
  {
    Pieces(s);
    DeepPredecessor(s.left);
    assert allocated(PathNodes(p)) && allocated(Nodes(s));
    var prev := IvtPrev(node, p, s);
    if prev != node.left {
      head, rebalance := SpliceDeep(root, node, prev, p, s);
    } else {
      head, rebalance := SpliceNear(root, node, prev, p, s);
    }
  }

  /** The predecessor's old place lies no deeper than the tree is high. */
  lemma SplicedLength(p: Path, s: Shape)
    requires s.Branch? && s.left.Branch?
    ensures PathLength(Spliced(p, s)) <= Height(Plug(p, s))
  {
    var below := LeftOf(p, Rightmost(s.left).node, s.right);
    SpinePlug(below, s.left);
    PathFits(Spliced(p, s), Rightmost(s.left));
    PlugHeight(p, s, Hang(below, s.left));
  }

  /** Unlink a node and rebalance upwards: at most one step a level. */
  method IvtRemove(root: Node?, node: Node, ghost p: Path, ghost s: Shape) returns (head: Node?, ghost steps: nat)
    requires s.Branch? && s.node == node && Plugged(p, s, root) && Fits(p, s)
    modifies PathNodes(p)`parent, PathNodes(p)`left, PathNodes(p)`right
    modifies PathNodes(p)`height, PathNodes(p)`min, PathNodes(p)`max
    modifies Nodes(s)`parent, Nodes(s)`left, Nodes(s)`right, Nodes(s)`height, Nodes(s)`min, Nodes(s)`max
    ensures Plugged(Top, Remove(p, s), head) && steps <= Height(Plug(p, s))
  {
    RemoveParts(p, s);
    PathFits(p, s);
    assert allocated(Nodes(s.left)) && allocated(Nodes(s.right));
    if node.left == null {
      var rebalance := node.parent;
      head := Replace(root, node, node.right, p);
      Undisturbed(s.right);
      head, steps := WalkUp(head, rebalance, p, s.right);
    } else if node.right == null {
      var rebalance := node.parent;
      head := Replace(root, node, node.left, p);
      Undisturbed(s.left);
      head, steps := WalkUp(head, rebalance, p, s.left);
    } else {
      SpliceFits(p, s);
      SplicedLength(p, s);
      var rebalance;
      head, rebalance := Splice(root, node, p, s);
      head, steps := WalkUp(head, rebalance, Spliced(p, s), Rightmost(s.left).left);
    }
  }

  /** Removal from the whole tree, wherever the node hangs. */
  method RemoveStored(root: Node?, node: Node, ghost t: Shape) returns (head: Node?, ghost steps: nat)
    requires Plugged(Top, t, root) && Distinct(t) && node in Nodes(t)
    modifies Nodes(t)`parent, Nodes(t)`left, Nodes(t)`right, Nodes(t)`height, Nodes(t)`min, Nodes(t)`max
    ensures Plugged(Top, Delete(t, node), head) && steps <= Height(t)
  {
    ghost var (p, s) := Locate(Top, t, node);
    LocateHangs(Top, t, root, node);
    LocatePlugs(Top, t, node);
    PlugDistinct(p, s);
    head, steps := IvtRemove(root, node, p, s);
  }
}
