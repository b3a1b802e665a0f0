/** The part of the heap above a subtree, and the rebalancing walk up the parent links. */
module IntervalWalk {
  import opened IntervalNode
  import opened IntervalShape
  import opened IntervalPaths
  import opened IntervalHeap

  // ---- How a path lies on the heap ----

  /** The link that leads from the innermost path node down into the cut. */
  ghost function Down(p: Path): Node?
    requires p != Top
    reads p.node
  {
    if p.LeftOf? then p.node.left else p.node.right
  }

  /** The tree's root when x hangs in the cut. */
  function Head(p: Path, x: Node?): Node? {
    if p == Top then x else Head(p.up, p.node)
  }

  /** All links of the path agree, and the siblings lie as they should; the path's own caches may be stale. */
  ghost predicate PathLies(p: Path)
    reads PathNodes(p)
  {
    p != Top ==>
      && (if p.LeftOf? then p.node.right == Link(p.right) else p.node.left == Link(p.left))
      && (Side(p).Branch? ==> Side(p).node.parent == p.node)
      && Lies(Side(p))
      && p.node.parent == ParentOf(p.up)
      && (p.up != Top ==> Down(p.up) == p.node)
      && PathLies(p.up)
  }

  /** The link leading into the cut may have been written, nothing else of the path. */
  twostate lemma {:induction false} PathUndisturbed(p: Path)
    requires old(allocated(PathNodes(p))) && old(PathLies(p)) && PathDistinct(p)
    requires forall n :: n in PathNodes(p) && n != p.node ==> old(allocated(n)) && SameLinks(n)
    requires p != Top ==> old(allocated(p.node)) && p.node.parent == old(p.node.parent)
    requires p.LeftOf? ==> p.node.right == old(p.node.right)
    requires p.RightOf? ==> p.node.left == old(p.node.left)
    ensures PathLies(p)
  {
    if p != Top {
      assert allocated(Nodes(Side(p))) && allocated(PathNodes(p.up));
      assert Side(p).Branch? ==> allocated(Side(p).node) && SameLinks(Side(p).node);
      assert p.up != Top ==> allocated(p.up.node) && SameLinks(p.up.node);
      Undisturbed(Side(p));
      PathUndisturbed(p.up);
    }
  }

  // ---- References to links ----

  datatype Ref = RootRef | LeftRef(owner: Node) | RightRef(owner: Node)

  function IvtRef(x: Node): Ref
    reads x, x.parent
  {
    if x.parent == null then RootRef
    else if x == x.parent.left then LeftRef(x.parent)
    else RightRef(x.parent)
  }

  /** Write through a link reference; the root is handed back. */
  method Store(head: Node?, ref: Ref, x: Node?) returns (root: Node?)
    modifies (if ref.LeftRef? then {ref.owner} else {})`left
    modifies (if ref.RightRef? then {ref.owner} else {})`right
    ensures ref.LeftRef? ==> ref.owner.left == x
    ensures ref.RightRef? ==> ref.owner.right == x
    ensures root == if ref.RootRef? then x else head
  {
    root := head;
    match ref
    case RootRef => root := x;
    case LeftRef(n) => n.left := x;
    case RightRef(n) => n.right := x;
  }

  function RefOf(p: Path): Ref {
    match p
    case Top => RootRef
    case LeftOf(_, n, _) => LeftRef(n)
    case RightOf(_, _, n) => RightRef(n)
  }

  /** A node in the cut refers to the link that leads to it. */
  lemma RefLeadsToCut(p: Path, x: Node)
    requires PathLies(p) && x.parent == ParentOf(p) && x !in PathNodes(p) && (p != Top ==> Down(p) == x)
    ensures IvtRef(x) == RefOf(p)
  {
  }

  // ---- The walk ----

  lemma WalkParts(q: Path, u: Shape)
    requires q != Top && PathDistinct(q) && Distinct(u) && Nodes(u) !! PathNodes(q)
    ensures var s := Hang(q, u);
      && Distinct(s) && Distinct(Rebalance(s)) && Nodes(Rebalance(s)) == Nodes(s)
      && Nodes(s) == Nodes(u) + Nodes(Side(q)) + {q.node}
      && PathDistinct(q.up) && Nodes(s) !! PathNodes(q.up)
      && PathNodes(q) == PathNodes(q.up) + Nodes(Side(q)) + {q.node}
      && q.node !in Nodes(u) && q.node !in Nodes(Side(q)) && Nodes(u) !! Nodes(Side(q))
  {
    var s := Hang(q, u);
    Pieces(s);
    RebalanceKeepsOrder(s);
    SameOrderSameNodes(s, Rebalance(s));
  }

  /** u lies in the cut of q, below the root head. */
  ghost predicate Plugged(q: Path, u: Shape, head: Node?)
    reads PathNodes(q), Nodes(u)
  {
    && PathLies(q) && Lies(u) && (u.Branch? ==> u.node.parent == ParentOf(q))
    && (q != Top ==> Down(q) == Link(u)) && head == Head(q, Link(u))
  }

  ghost predicate Fits(q: Path, u: Shape) {
    PathDistinct(q) && Distinct(u) && Nodes(u) !! PathNodes(q)
  }

  /** Link x, the root of u, into the cut through its reference. */
  method StoreInCut(root: Node?, ref: Ref, x: Node?, ghost q: Path, ghost u: Shape) returns (head: Node?)
    requires ref == RefOf(q) && PathLies(q) && Fits(q, u) && x == Link(u) && Lies(u)
    requires u.Branch? ==> u.node.parent == ParentOf(q)
    requires q != Top ==> root == Head(q.up, q.node)
    modifies (if q.LeftOf? then {q.node} else {})`left, (if q.RightOf? then {q.node} else {})`right
    ensures Plugged(q, u, head)
  {
    assert allocated(PathNodes(q)) && allocated(Nodes(u));
    head := Store(root, ref, x);
    PathUndisturbed(q);
    Undisturbed(u);
  }

  /** One step of the walk: rebalance the node above the cut. */
  method WalkStep(root: Node?, cur: Node, ghost q: Path, ghost u: Shape) returns (head: Node?)
    requires q != Top && cur == q.node && Plugged(q, u, root) && Fits(q, u)
    modifies PathNodes(q)`parent, PathNodes(q)`left, PathNodes(q)`right
    modifies PathNodes(q)`height, PathNodes(q)`min, PathNodes(q)`max
    modifies Nodes(u)`parent, Nodes(u)`left, Nodes(u)`right, Nodes(u)`height, Nodes(u)`min, Nodes(u)`max
    ensures Plugged(q.up, Rebalance(Hang(q, u)), head)
  {
    ghost var s := Hang(q, u);
    WalkParts(q, u);
    assert allocated(PathNodes(q.up)) && allocated(Nodes(s));
    RefLeadsToCut(q.up, cur);
    assert root == Head(q.up, cur);
    var ref := IvtRef(cur);
    var y := IvtRebalance(cur, s);
    PathUndisturbed(q.up);
    head := StoreInCut(root, ref, y, q.up, Rebalance(s));
  }

  /** Rebalance every node from cur up to the root. */
  method WalkUp(root: Node?, cur: Node?, ghost q0: Path, ghost u0: Shape) returns (head: Node?, ghost steps: nat)
    requires cur == ParentOf(q0) && Plugged(q0, u0, root) && Fits(q0, u0)
    modifies PathNodes(q0)`parent, PathNodes(q0)`left, PathNodes(q0)`right
    modifies PathNodes(q0)`height, PathNodes(q0)`min, PathNodes(q0)`max
    modifies Nodes(u0)`parent, Nodes(u0)`left, Nodes(u0)`right, Nodes(u0)`height, Nodes(u0)`min, Nodes(u0)`max
    ensures Plugged(Top, Climb(q0, u0), head) && steps == PathLength(q0)
  {
    ghost var q, u := q0, u0;
    var rebalance := cur;
    head, steps := root, 0;
    while rebalance != null
      invariant rebalance == ParentOf(q) && Plugged(q, u, head) && Fits(q, u)
      invariant Climb(q, u) == Climb(q0, u0) && steps + PathLength(q) == PathLength(q0)
      invariant PathNodes(q) <= PathNodes(q0) && Nodes(u) <= PathNodes(q0) + Nodes(u0)
      decreases q
    {
      WalkParts(q, u);
      var parent := rebalance.parent;
      head := WalkStep(head, rebalance, q, u);
      rebalance := parent;
      q, u, steps := q.up, Rebalance(Hang(q, u)), steps + 1;
    }
  }
}
