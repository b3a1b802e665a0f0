/** Paths through a tree: the part above a subtree, and the rebalancing walk up along it. */
module IntervalPaths {
  import opened IntervalNode
  import opened IntervalShape

  /** A tree with one subtree cut out, read from the cut upwards. */
  datatype Path =
    | Top
    | LeftOf(up: Path, node: Node, right: Shape)
    | RightOf(up: Path, left: Shape, node: Node)

  /** The subtree one level up, with t in the cut. */
  function Hang(p: Path, t: Shape): Shape
    requires p != Top
  {
    if p.LeftOf? then Branch(t, p.node, p.right) else Branch(p.left, p.node, t)
  }

  /** The whole tree, with t in the cut. */
  function Plug(p: Path, t: Shape): Shape {
    if p == Top then t else Plug(p.up, Hang(p, t))
  }

  function ParentOf(p: Path): Node? {
    match p
    case Top => null
    case LeftOf(_, n, _) => n
    case RightOf(_, _, n) => n
  }

  /** The nodes in order before and after the cut. */
  function Before(p: Path): seq<Node> {
    match p
    case Top => []
    case LeftOf(up, _, _) => Before(up)
    case RightOf(up, l, n) => Before(up) + (InOrder(l) + [n])
  }

  function After(p: Path): seq<Node> {
    match p
    case Top => []
    case LeftOf(up, n, r) => [n] + InOrder(r) + After(up)
    case RightOf(up, _, _) => After(up)
  }

  /** The nodes outside the cut. */
  function PathNodes(p: Path): (s: set<Node>)
    ensures p != Top ==> p.node in s
  {
    match p
    case Top => {}
    case LeftOf(up, n, r) => {n} + Nodes(r) + PathNodes(up)
    case RightOf(up, l, n) => {n} + Nodes(l) + PathNodes(up)
  }

  ghost predicate PathDistinct(p: Path) {
    match p
    case Top => true
    case LeftOf(up, n, r) =>
      Distinct(r) && n !in Nodes(r) && n !in PathNodes(up) && Nodes(r) !! PathNodes(up) && PathDistinct(up)
    case RightOf(up, l, n) =>
      Distinct(l) && n !in Nodes(l) && n !in PathNodes(up) && Nodes(l) !! PathNodes(up) && PathDistinct(up)
  }

  lemma {:induction false} PlugOrder(p: Path, t: Shape)
    ensures InOrder(Plug(p, t)) == Before(p) + InOrder(t) + After(p)
  {
    if p != Top {
      PlugOrder(p.up, Hang(p, t));
      HangOrder(p, t);
    }
  }

  /** The order of the whole tree around the node that heads the cut subtree. */
  lemma PlugSplit(p: Path, s: Shape)
    requires s.Branch?
    ensures InOrder(Plug(p, s)) == (Before(p) + InOrder(s.left)) + [s.node] + (InOrder(s.right) + After(p))
  {
    PlugOrder(p, s);
    Regroup(Before(p), InOrder(s.left), s.node, InOrder(s.right), After(p));
  }

  lemma Regroup(a: seq<Node>, b: seq<Node>, n: Node, c: seq<Node>, d: seq<Node>)
    ensures a + (b + [n] + c) + d == (a + b) + [n] + (c + d)
  {
  }

  lemma {:induction false} PlugDistinct(p: Path, t: Shape)
    ensures Nodes(Plug(p, t)) == PathNodes(p) + Nodes(t)
    ensures Distinct(Plug(p, t)) <==> PathDistinct(p) && Distinct(t) && Nodes(t) !! PathNodes(p)
  {
    if p != Top {
      PlugDistinct(p.up, Hang(p, t));
      Pieces(Hang(p, t));
    }
  }

  /** The path down to a stored node, continuing p, and the subtree the node heads. */
  function Locate(p: Path, t: Shape, n: Node): (Path, Shape)
    requires n in Nodes(t)
    decreases t
  {
    Pieces(t);
    if n == t.node then (p, t)
    else if n in Nodes(t.left) then Locate(LeftOf(p, t.node, t.right), t.left, n)
    else Locate(RightOf(p, t.left, t.node), t.right, n)
  }

  /** Every stored node has a path: the tree is the node's subtree plugged into it. */
  lemma {:induction false} LocatePlugs(p: Path, t: Shape, n: Node)
    requires n in Nodes(t)
    ensures var (q, s) := Locate(p, t, n); Plug(q, s) == Plug(p, t) && s.Branch? && s.node == n
    decreases t
  {
    Pieces(t);
    if n == t.node {
    } else if n in Nodes(t.left) {
      LocatePlugs(LeftOf(p, t.node, t.right), t.left, n);
    } else {
      LocatePlugs(RightOf(p, t.left, t.node), t.right, n);
    }
  }

  // ---- The rebalancing walk ----

  /** Put t in the cut and rebalance every ancestor, innermost first. */
  function Climb(p: Path, t: Shape): Shape {
    if p == Top then t else Climb(p.up, Rebalance(Hang(p, t)))
  }

  lemma {:induction false} ClimbKeepsOrder(p: Path, t: Shape)
    ensures InOrder(Climb(p, t)) == Before(p) + InOrder(t) + After(p)
  {
    if p != Top {
      var u := Hang(p, t);
      RebalanceKeepsOrder(u);
      ClimbKeepsOrder(p.up, Rebalance(u));
      HangOrder(p, t);
    }
  }

  lemma {:induction false} HangOrder(p: Path, t: Shape)
    requires p != Top
    ensures Before(p.up) + InOrder(Hang(p, t)) + After(p.up) == Before(p) + InOrder(t) + After(p)
  {
  }

  /** The sibling of the cut. */
  function Side(p: Path): Shape
    requires p != Top
  {
    if p.LeftOf? then p.right else p.left
  }

  /** The path is balanced for a subtree of height h in the cut. */
  predicate PathAvl(p: Path, h: nat) {
    p == Top ||
    (Avl(Side(p)) && -1 <= h - Height(Side(p)) <= 1 && PathAvl(p.up, 1 + Max(h, Height(Side(p)))))
  }

  lemma {:induction false} HangHeight(p: Path, t: Shape)
    requires p != Top
    ensures Hang(p, t).Branch? && Height(Hang(p, t)) == 1 + Max(Height(t), Height(Side(p)))
    ensures var d := Height(t) - Height(Side(p)); Balance(Hang(p, t)) == d || Balance(Hang(p, t)) == -d
    ensures Avl(Hang(p, t).left) && Avl(Hang(p, t).right) <==> Avl(t) && Avl(Side(p))
  {
  }

  lemma {:induction false} PlugAvl(p: Path, t: Shape)
    ensures Avl(Plug(p, t)) <==> Avl(t) && PathAvl(p, Height(t))
  {
    if p != Top {
      HangHeight(p, t);
      PlugAvl(p.up, Hang(p, t));
    }
  }

  /** The number of ancestors of the cut. */
  function PathLength(p: Path): nat {
    if p == Top then 0 else 1 + PathLength(p.up)
  }

  /** Every ancestor adds a level. */
  lemma {:induction false} PathFits(p: Path, t: Shape)
    ensures PathLength(p) + Height(t) <= Height(Plug(p, t))
  {
    if p != Top {
      HangHeight(p, t);
      PathFits(p.up, Hang(p, t));
    }
  }

  lemma {:induction false} PlugHeight(p: Path, t: Shape, u: Shape)
    requires Height(t) == Height(u)
    ensures Height(Plug(p, t)) == Height(Plug(p, u))
  {
    if p != Top {
      HangHeight(p, t);
      HangHeight(p, u);
      PlugHeight(p.up, Hang(p, t), Hang(p, u));
    }
  }

  /** A subtree that changed by one level is absorbed by the walk. */
  lemma {:induction false} ClimbRestoresAvl(p: Path, h: nat, t: Shape)
    requires PathAvl(p, h) && Avl(t) && h - 1 <= Height(t) <= h + 1
    ensures Avl(Climb(p, t))
  {
    hide Height, Avl, Rebalance, Hang, Side;
    if p != Top {
      ClimbStepRestoresAvl(p, h, t);
      ClimbRestoresAvl(p.up, 1 + Max(h, Height(Side(p))), Rebalance(Hang(p, t)));
    }
  }

  lemma {:induction false} ClimbStepRestoresAvl(p: Path, h: nat, t: Shape)
    requires p != Top && PathAvl(p, h) && Avl(t) && h - 1 <= Height(t) <= h + 1
    ensures Avl(Rebalance(Hang(p, t)))
    ensures Max(h, Height(Side(p))) <= Height(Rebalance(Hang(p, t))) <= 2 + Max(h, Height(Side(p)))
  {
    HangHeight(p, t);
    RebalanceAbsorbs(Hang(p, t), Height(t), Height(Side(p)), h);
  }

  lemma {:induction false} RebalanceAbsorbs(u: Shape, now: nat, side: nat, was: nat)
    requires u.Branch? && Avl(u.left) && Avl(u.right)
    requires Height(u) == 1 + Max(now, side) && (Balance(u) == now - side || Balance(u) == side - now)
    requires -1 <= was - side <= 1 && was - 1 <= now <= was + 1
    ensures Avl(Rebalance(u)) && Max(was, side) <= Height(Rebalance(u)) <= 2 + Max(was, side)
  {
    RebalanceRestoresAvl(u);
  }

  // ---- The right spine, where a node's predecessor hangs ----

  /** The subtree at the right end of t. */
  function Rightmost(t: Shape): (r: Shape)
    requires t.Branch?
    ensures r.Branch? && r.right.Leaf?
  {
    if t.right.Leaf? then t else Rightmost(t.right)
  }

  /** The path to that subtree when t itself hangs below p. */
  function Spine(p: Path, t: Shape): (q: Path)
    requires t.Branch?
    ensures p != Top ==> q != Top
    decreases t
  {
    if t.right.Leaf? then p else Spine(RightOf(p, t.left, t.node), t.right)
  }

  lemma {:induction false} SpinePlug(p: Path, t: Shape)
    requires t.Branch?
    ensures Plug(Spine(p, t), Rightmost(t)) == Plug(p, t)
    ensures After(Spine(p, t)) == After(p)
    ensures Before(Spine(p, t)) + InOrder(Rightmost(t)) == Before(p) + InOrder(t)
    decreases t
  {
    if t.right.Branch? {
      SpinePlug(RightOf(p, t.left, t.node), t.right);
      assert Before(p) + InOrder(t) == Before(RightOf(p, t.left, t.node)) + InOrder(t.right);
    }
  }

  lemma {:induction false} SpineAvl(p: Path, t: Shape)
    requires t.Branch? && Avl(t) && PathAvl(p, Height(t))
    ensures Avl(Rightmost(t)) && PathAvl(Spine(p, t), Height(Rightmost(t)))
    decreases t
  {
    if t.right.Branch? {
      SpineAvl(RightOf(p, t.left, t.node), t.right);
    }
  }
}
