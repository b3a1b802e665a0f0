/** Insertion and removal as functions of the tree's shape, and what every run of them keeps. */
module IntervalOps {
  import opened IntervalNode
  import opened IntervalShape
  import opened IntervalPaths

  // ---- Insertion ----

  function Insert(t: Shape, n: Node): Shape {
    match t
    case Leaf => Branch(Leaf, n, Leaf)
    case Branch(l, m, r) =>
      Rebalance(if n.lo <= m.lo then Branch(Insert(l, n), m, r) else Branch(l, m, Insert(r, n)))
  }

  /** How many nodes of a sorted sequence start before lo. */
  function LowerBound(s: seq<Node>, lo: U64): (k: nat)
    ensures k <= |s|
    ensures forall i :: 0 <= i < k ==> s[i].lo < lo
    ensures k < |s| ==> lo <= s[k].lo
  {
    if s == [] || lo <= s[0].lo then 0 else 1 + LowerBound(s[1..], lo)
  }

  function InsertedAt(s: seq<Node>, k: nat, n: Node): seq<Node>
    requires k <= |s|
  {
    s[..k] + [n] + s[k..]
  }

  /** The new node lands directly before the first node that does not start earlier. */
  lemma {:induction false} InsertLandsAtLowerBound(t: Shape, n: Node)
    requires Sorted(InOrder(t))
    ensures InOrder(Insert(t, n)) == InsertedAt(InOrder(t), LowerBound(InOrder(t), n.lo), n)
  {
    match t
    case Leaf =>
    case Branch(l, m, r) =>
      var a, b := InOrder(l), InOrder(r);
      SortedAround(a, m, b);
      if n.lo <= m.lo {
        InsertLandsAtLowerBound(l, n);
        RebalanceKeepsOrder(Branch(Insert(l, n), m, r));
        BoundOnLeft(a, m, b, n);
      } else {
        InsertLandsAtLowerBound(r, n);
        RebalanceKeepsOrder(Branch(l, m, Insert(r, n)));
        BoundOnRight(a, m, b, n);
      }
  }

  lemma BoundOnLeft(a: seq<Node>, m: Node, b: seq<Node>, n: Node)
    requires n.lo <= m.lo
    ensures var s := a + [m] + b;
      InsertedAt(a, LowerBound(a, n.lo), n) + [m] + b == InsertedAt(s, LowerBound(s, n.lo), n)
  {
    LowerBoundStays(a, m, b, n.lo);
    var k := LowerBound(a, n.lo);
    var s := a + [m] + b;
    assert s[..k] == a[..k] && s[k..] == a[k..] + [m] + b;
  }

  lemma {:induction false} LowerBoundStays(a: seq<Node>, m: Node, b: seq<Node>, lo: U64)
    requires lo <= m.lo
    ensures LowerBound(a + [m] + b, lo) == LowerBound(a, lo)
  {
    var s := a + [m] + b;
    if a != [] && a[0].lo < lo {
      LowerBoundStays(a[1..], m, b, lo);
      assert s[0] == a[0] && s[1..] == a[1..] + [m] + b;
    } else {
      assert s[0] == if a == [] then m else a[0];
    }
  }

  lemma BoundOnRight(a: seq<Node>, m: Node, b: seq<Node>, n: Node)
    requires forall i :: 0 <= i < |a| ==> a[i].lo < n.lo
    requires m.lo < n.lo
    ensures var s := a + [m] + b;
      a + [m] + InsertedAt(b, LowerBound(b, n.lo), n) == InsertedAt(s, LowerBound(s, n.lo), n)
  {
    LowerBoundShifts(a, m, b, n.lo);
    var k := LowerBound(b, n.lo);
    var s := a + [m] + b;
    assert s[..|a| + 1 + k] == a + [m] + b[..k] && s[|a| + 1 + k..] == b[k..];
  }

  lemma {:induction false} LowerBoundShifts(a: seq<Node>, m: Node, b: seq<Node>, lo: U64)
    requires forall i :: 0 <= i < |a| ==> a[i].lo < lo
    requires m.lo < lo
    ensures LowerBound(a + [m] + b, lo) == |a| + 1 + LowerBound(b, lo)
  {
    var s := a + [m] + b;
    if a == [] {
      assert s[0] == m && s[1..] == b;
    } else {
      LowerBoundShifts(a[1..], m, b, lo);
      assert s[0] == a[0] && s[1..] == a[1..] + [m] + b;
    }
  }

  lemma SortedAround(a: seq<Node>, n: Node, b: seq<Node>)
    requires Sorted(a + [n] + b)
    ensures Sorted(a) && Sorted(b)
    ensures forall i :: 0 <= i < |a| ==> a[i].lo <= n.lo
    ensures forall i :: 0 <= i < |b| ==> n.lo <= b[i].lo
  {
    var s := a + [n] + b;
    forall i | 0 <= i < |a| ensures a[i].lo <= n.lo {
      assert s[i] == a[i] && s[|a|] == n;
    }
    forall i | 0 <= i < |b| ensures n.lo <= b[i].lo {
      assert s[|a| + 1 + i] == b[i] && s[|a|] == n;
    }
    forall i, j | 0 <= i < j < |a| ensures a[i].lo <= a[j].lo {
      assert s[i] == a[i] && s[j] == a[j];
    }
    forall i, j | 0 <= i < j < |b| ensures b[i].lo <= b[j].lo {
      assert s[|a| + 1 + i] == b[i] && s[|a| + 1 + j] == b[j];
    }
  }

  lemma InsertKeepsSorted(s: seq<Node>, n: Node)
    requires Sorted(s)
    ensures Sorted(InsertedAt(s, LowerBound(s, n.lo), n))
  {
  }

  lemma InsertKeepsUnique(s: seq<Node>, k: nat, n: Node)
    requires Unique(s) && k <= |s| && n !in s
    ensures Unique(InsertedAt(s, k, n))
  {
  }

  lemma InsertAddsOne(s: seq<Node>, k: nat, n: Node)
    requires k <= |s|
    ensures Listed(InsertedAt(s, k, n)) == Listed(s) + {n}
  {
    assert s == s[..k] + s[k..];
  }

  lemma {:induction false} InsertKeepsAvl(t: Shape, n: Node)
    requires Avl(t)
    ensures Avl(Insert(t, n)) && Height(t) <= Height(Insert(t, n)) <= Height(t) + 1
  {
    match t
    case Leaf =>
    case Branch(l, m, r) =>
      if n.lo <= m.lo {
        InsertKeepsAvl(l, n);
        RebalanceRestoresAvl(Branch(Insert(l, n), m, r));
      } else {
        InsertKeepsAvl(r, n);
        RebalanceRestoresAvl(Branch(l, m, Insert(r, n)));
      }
  }

  // ---- Removal ----

  /**
   * The tree after unlinking the node of t, which hangs below p. With two children its predecessor
   * takes its place, and the walk starts where the predecessor hung.
   */
  function Remove(p: Path, t: Shape): Shape
    requires t.Branch?
  {
    if t.left.Leaf? then Climb(p, t.right)
    else if t.right.Leaf? then Climb(p, t.left)
    else
      var prev := Rightmost(t.left);
      Climb(Spine(LeftOf(p, prev.node, t.right), t.left), prev.left)
  }

  /** Exactly the node of t disappears from the order. */
  lemma {:induction false} RemoveDropsOne(p: Path, t: Shape)
    requires t.Branch?
    ensures InOrder(Remove(p, t)) == Before(p) + InOrder(t.left) + InOrder(t.right) + After(p)
  {
    if t.left.Leaf? {
      ClimbKeepsOrder(p, t.right);
    } else if t.right.Leaf? {
      ClimbKeepsOrder(p, t.left);
    } else {
      PredecessorTakesOver(p, t);
    }
  }

  lemma {:induction false} PredecessorTakesOver(p: Path, t: Shape)
    requires t.Branch? && t.left.Branch?
    ensures var prev := Rightmost(t.left);
      InOrder(Climb(Spine(LeftOf(p, prev.node, t.right), t.left), prev.left))
      == Before(p) + InOrder(t.left) + InOrder(t.right) + After(p)
  {
    var prev := Rightmost(t.left);
    var below := LeftOf(p, prev.node, t.right);
    ClimbKeepsOrder(Spine(below, t.left), prev.left);
    SpliceOrder(below, t.left);
    Reassociate(Before(p), InOrder(t.left), InOrder(t.right), After(p));
  }

  lemma Reassociate(a: seq<Node>, b: seq<Node>, c: seq<Node>, d: seq<Node>)
    ensures a + b + (c + d) == a + b + c + d
  {
  }

  /** Cutting the last node out of t and hanging it right above t keeps the order. */
  lemma {:induction false} SpliceOrder(below: Path, t: Shape)
    requires below.LeftOf? && t.Branch? && below.node == Rightmost(t).node
    ensures Before(Spine(below, t)) + InOrder(Rightmost(t).left) + After(Spine(below, t))
         == Before(below.up) + InOrder(t) + (InOrder(below.right) + After(below.up))
  {
    var prev := Rightmost(t);
    var rest := InOrder(below.right) + After(below.up);
    SpinePlug(below, t);
    assert InOrder(prev) == InOrder(prev.left) + [prev.node];
    assert After(Spine(below, t)) == [prev.node] + rest;
    assert Before(Spine(below, t)) + InOrder(prev.left) + ([prev.node] + rest)
        == (Before(Spine(below, t)) + InOrder(prev)) + rest;
  }

  lemma {:induction false} RemoveKeepsAvl(p: Path, t: Shape)
    requires t.Branch? && Avl(Plug(p, t))
    ensures Avl(Remove(p, t))
  {
    PlugAvl(p, t);
    if t.left.Leaf? {
      ClimbRestoresAvl(p, Height(t), t.right);
    } else if t.right.Leaf? {
      ClimbRestoresAvl(p, Height(t), t.left);
    } else {
      var prev := Rightmost(t.left);
      var below := LeftOf(p, prev.node, t.right);
      SpinePlug(below, t.left);
      SpineAvl(below, t.left);
      ClimbRestoresAvl(Spine(below, t.left), Height(prev), prev.left);
    }
  }

  /** Unlinking a stored node, wherever it hangs. */
  function Delete(t: Shape, n: Node): Shape
    requires n in Nodes(t)
  {
    LocatePlugs(Top, t, n);
    var (p, s) := Locate(Top, t, n);
    Remove(p, s)
  }

  // ---- Every run ----

  /** One call on the tree; Drop names the node that the iterator points at. */
  datatype Op = Add(n: Node) | Drop(n: Node) | Clear

  /** Added nodes are newly allocated, dropped ones are stored. */
  predicate Allowed(t: Shape, op: Op) {
    match op
    case Add(n) => n !in Nodes(t)
    case Drop(n) => n in Nodes(t)
    case Clear => true
  }

  function Apply(t: Shape, op: Op): Shape
    requires Allowed(t, op)
  {
    match op
    case Add(n) => Insert(t, n)
    case Drop(n) => Delete(t, n)
    case Clear => Leaf
  }

  predicate Legal(t: Shape, ops: seq<Op>)
    decreases |ops|
  {
    ops == [] || (Allowed(t, ops[0]) && Legal(Apply(t, ops[0]), ops[1..]))
  }

  function Run(t: Shape, ops: seq<Op>): Shape
    requires Legal(t, ops)
    decreases |ops|
  {
    if ops == [] then t else Run(Apply(t, ops[0]), ops[1..])
  }

  ghost predicate Sound(t: Shape) {
    Avl(t) && Sorted(InOrder(t)) && Distinct(t)
  }

  lemma InsertKeepsSound(t: Shape, n: Node)
    requires Sound(t) && n !in Nodes(t)
    ensures Sound(Insert(t, n)) && Nodes(Insert(t, n)) == Nodes(t) + {n}
  {
    var s := InOrder(t);
    var k := LowerBound(s, n.lo);
    NodesAreInOrder(t);
    NodesAreInOrder(Insert(t, n));
    assert n !in s;
    InsertKeepsAvl(t, n);
    InsertLandsAtLowerBound(t, n);
    InsertKeepsSorted(s, n);
    InsertKeepsUnique(s, k, n);
    InsertAddsOne(s, k, n);
  }

  lemma DeleteKeepsSound(t: Shape, n: Node)
    requires Sound(t) && n in Nodes(t)
    ensures Sound(Delete(t, n)) && Nodes(Delete(t, n)) == Nodes(t) - {n}
  {
    DeleteKeepsAvl(t, n);
    DeleteDropsOne(t, n);
    var k := IndexOf(InOrder(t), n);
    DropKeepsSorted(InOrder(t), k);
    DropLosesOne(InOrder(t), k);
    NodesAreInOrder(t);
    NodesAreInOrder(Delete(t, n));
  }

  lemma DeleteKeepsAvl(t: Shape, n: Node)
    requires Avl(t) && n in Nodes(t)
    ensures Avl(Delete(t, n))
  {
    LocatePlugs(Top, t, n);
    var (p, s) := Locate(Top, t, n);
    RemoveKeepsAvl(p, s);
  }

  function DroppedAt(s: seq<Node>, k: nat): seq<Node>
    requires k < |s|
  {
    s[..k] + s[k + 1..]
  }

  function IndexOf(s: seq<Node>, n: Node): (k: nat)
    requires n in s
    ensures k < |s| && s[k] == n
  {
    if s[0] == n then 0 else 1 + IndexOf(s[1..], n)
  }

  /** In a sequence without duplicates a node has one index. */
  lemma IndexIs(s: seq<Node>, k: nat)
    requires Unique(s) && k < |s|
    ensures IndexOf(s, s[k]) == k
  {
  }

  /** Removal deletes exactly that node; the others keep their identity and order. */
  lemma DeleteDropsOne(t: Shape, n: Node)
    requires n in Nodes(t) && Distinct(t)
    ensures n in InOrder(t) && InOrder(Delete(t, n)) == DroppedAt(InOrder(t), IndexOf(InOrder(t), n))
  {
    NodesAreInOrder(t);
    LocatePlugs(Top, t, n);
    var (p, s) := Locate(Top, t, n);
    RemoveDropsOne(p, s);
    PlugOrder(p, s);
    DropMiddle(Before(p), InOrder(s.left), n, InOrder(s.right), After(p));
    IndexIs(InOrder(t), |Before(p) + InOrder(s.left)|);
  }

  lemma DropMiddle(a: seq<Node>, b: seq<Node>, n: Node, c: seq<Node>, d: seq<Node>)
    ensures var s := a + (b + [n] + c) + d;
      s[|a + b|] == n && DroppedAt(s, |a + b|) == a + b + c + d
  {
  }

  lemma DropKeepsSorted(s: seq<Node>, k: nat)
    requires k < |s| && Sorted(s) && Unique(s)
    ensures Sorted(DroppedAt(s, k)) && Unique(DroppedAt(s, k))
  {
    var u := DroppedAt(s, k);
    assert forall i :: 0 <= i < |u| ==> u[i] == if i < k then s[i] else s[i + 1];
  }

  lemma DropLosesOne(s: seq<Node>, k: nat)
    requires k < |s| && Unique(s)
    ensures Listed(DroppedAt(s, k)) == Listed(s) - {s[k]}
  {
    assert s == s[..k] + [s[k]] + s[k + 1..];
    UniqueAround(s[..k], s[k], s[k + 1..]);
  }

  /** Whatever is inserted, removed and cleared, the tree stays balanced, sorted and duplicate-free. */
  lemma {:induction false} EveryRunIsSound(t: Shape, ops: seq<Op>)
    requires Sound(t) && Legal(t, ops)
    ensures Sound(Run(t, ops))
    decreases |ops|
  {
    if ops != [] {
      match ops[0] {
        case Add(n) => InsertKeepsSound(t, n);
        case Drop(n) => DeleteKeepsSound(t, n);
        case Clear =>
      }
      EveryRunIsSound(Apply(t, ops[0]), ops[1..]);
    }
  }

  // ---- Height is logarithmic in size ----

  function Fib(n: nat): nat {
    if n < 2 then n else Fib(n - 1) + Fib(n - 2)
  }

  lemma {:induction false} FibMonotone(a: nat, b: nat)
    requires a <= b
    ensures Fib(a) <= Fib(b)
    decreases b
  {
    if a < b {
      FibMonotone(a, b - 1);
    }
  }

  /** An AVL tree of height h holds at least Fib(h + 2) - 1 nodes. */
  lemma {:induction false} SizeBoundsHeight(t: Shape)
    requires Avl(t)
    ensures |InOrder(t)| + 1 >= Fib(Height(t) + 2)
  {
    match t
    case Leaf =>
    case Branch(l, n, r) =>
      SizeBoundsHeight(l);
      SizeBoundsHeight(r);
      var h := Height(t);
      FibMonotone(h, Height(l) + 2);
      FibMonotone(h, Height(r) + 2);
  }

  /** Eight steps of the Fibonacci sequence at once. */
  lemma {:induction false} FibBlock(n: nat, a: nat, b: nat)
    requires Fib(n) == a && Fib(n + 1) == b
    ensures Fib(n + 8) == 13 * a + 21 * b && Fib(n + 9) == 21 * a + 34 * b
  {
    assert Fib(n + 2) == a + b && Fib(n + 3) == a + 2 * b;
    assert Fib(n + 4) == 2 * a + 3 * b && Fib(n + 5) == 3 * a + 5 * b;
    assert Fib(n + 6) == 5 * a + 8 * b && Fib(n + 7) == 8 * a + 13 * b;
  }

  /** The 94th Fibonacci number exceeds 2^64. The start z is a variable so that the numbers are built block by block. */
  lemma FibPast94(z: nat, n: nat)
    requires z == 6 && n >= z + 88
    ensures Fib(n) > 0x1_0000_0000_0000_0000
  {
    FibMonotone(z + 88, n);
    assert Fib(z) == 8 && Fib(z + 1) == 13;
    FibBlock(z + 0, 8, 13);
    FibBlock(z + 8, 377, 610);
    FibBlock(z + 16, 17711, 28657);
    FibBlock(z + 24, 832040, 1346269);
    FibBlock(z + 32, 39088169, 63245986);
    FibBlock(z + 40, 1836311903, 2971215073);
    FibBlock(z + 48, 86267571272, 139583862445);
    FibBlock(z + 56, 4052739537881, 6557470319842);
    FibBlock(z + 64, 190392490709135, 308061521170129);
    FibBlock(z + 72, 8944394323791464, 14472334024676221);
    FibBlock(z + 80, 420196140727489673, 679891637638612258);
  }

  lemma FibBound(size: nat, height: nat)
    requires size + 1 >= Fib(height + 2) && size < 0x1_0000_0000_0000_0000
    ensures height <= 91
  {
    if height >= 92 {
      FibPast94(6, height + 2);
    }
  }

  /** A balanced tree of fewer than 2^64 nodes is at most 91 levels deep. */
  lemma HeightIsLogarithmic(t: Shape)
    requires Avl(t) && |InOrder(t)| < 0x1_0000_0000_0000_0000
    ensures Height(t) <= 91
  {
    SizeBoundsHeight(t);
    FibBound(|InOrder(t)|, Height(t));
  }

  /** Any run of calls keeps the depth logarithmic in the size. */
  lemma RunHeightIsLogarithmic(t: Shape, ops: seq<Op>)
    requires Sound(t) && Legal(t, ops)
    ensures var u := Run(t, ops);
      && |InOrder(u)| + 1 >= Fib(Height(u) + 2)
      && (|InOrder(u)| < 0x1_0000_0000_0000_0000 ==> Height(u) <= 91)
  {
    EveryRunIsSound(t, ops);
    SizeBoundsHeight(Run(t, ops));
    if |InOrder(Run(t, ops))| < 0x1_0000_0000_0000_0000 {
      FibBound(|InOrder(Run(t, ops))|, Height(Run(t, ops)));
    }
  }

  // ---- What one call does to a sound tree ----

  /** An insertion keeps the tree sound and places one node at the lower bound. */
  lemma InsertEffect(t: Shape, n: Node)
    requires Sound(t) && n !in Nodes(t)
    ensures Sound(Insert(t, n)) && Nodes(Insert(t, n)) == Nodes(t) + {n}
    ensures InOrder(Insert(t, n)) == InsertedAt(InOrder(t), LowerBound(InOrder(t), n.lo), n)
    ensures |InOrder(Insert(t, n))| == |InOrder(t)| + 1
  {
    InsertKeepsSound(t, n);
    InsertLandsAtLowerBound(t, n);
  }

  /** A removal keeps the tree sound and drops one node. */
  lemma DeleteEffect(t: Shape, n: Node)
    requires Sound(t) && n in Nodes(t)
    ensures Sound(Delete(t, n)) && Nodes(Delete(t, n)) == Nodes(t) - {n} && n in InOrder(t)
    ensures InOrder(Delete(t, n)) == DroppedAt(InOrder(t), IndexOf(InOrder(t), n))
    ensures |InOrder(Delete(t, n))| == |InOrder(t)| - 1
  {
    DeleteKeepsSound(t, n);
    DeleteDropsOne(t, n);
  }

  lemma InsertedBag(s: seq<Node>, k: nat, n: Node)
    requires k <= |s|
    ensures multiset(InsertedAt(s, k, n)) == multiset(s) + multiset{n}
  {
    assert s == s[..k] + s[k..];
  }

  lemma DroppedBag(s: seq<Node>, n: Node)
    requires Unique(s) && n in s
    ensures var d := DroppedAt(s, IndexOf(s, n)); multiset(d) == multiset(s) - multiset{n} && n !in d
  {
    var k := IndexOf(s, n);
    assert s == s[..k] + [n] + s[k + 1..];
    assert forall i :: 0 <= i < |s| && i != k ==> s[i] != n;
  }

  /** Insertion adds the new node and nothing else, and what was sorted stays so. */
  lemma InsertAddsOnlyIt(t: Shape, n: Node)
    requires Sound(t) && n !in Nodes(t)
    ensures multiset(InOrder(Insert(t, n))) == multiset(InOrder(t)) + multiset{n} && Sorted(InOrder(Insert(t, n)))
  {
    hide Insert, InsertedAt, LowerBound, InOrder, Nodes;
    InsertEffect(t, n);
    InsertedBag(InOrder(t), LowerBound(InOrder(t), n.lo), n);
  }

  /** Removal takes the node away and nothing else. */
  lemma DeleteTakesOnlyIt(t: Shape, n: Node)
    requires Sound(t) && n in Nodes(t)
    ensures var s := InOrder(Delete(t, n)); multiset(s) == multiset(InOrder(t)) - multiset{n} && n !in s && Sorted(s)
  {
    hide Delete, DroppedAt, IndexOf, InOrder, Nodes;
    DeleteEffect(t, n);
    DroppedBag(InOrder(t), n);
  }
}
