/** The public interval tree: its contents are a sequence of nodes sorted by interval start. */
module IntervalTrees {
  import opened IntervalNode
  import opened IntervalShape
  import opened IntervalPaths
  import opened IntervalOps
  import opened IntervalHeap
  import opened IntervalWalk
  import opened IntervalSteps
  import opened IntervalRemoval
  import opened IntervalQueries

  /** A call either returns or stops the program with an error message. */
  datatype Checked<T> = Returned(value: T) | Aborted

  lemma NewLeafLies(n: Node)
    requires n.left == null && n.right == null && n.height == 1 && n.min == n.lo && n.max == n.hi
    ensures Lies(Branch(Leaf, n, Leaf))
  {
    var t := Branch(Leaf, n, Leaf);
    var first, last := HullIsTight(t);
    assert Nodes(t) == {n};
    assert Height(t) == 1 && first == n && last == n;
  }

  /** Allocate a node and insert it below root. */
  method InsertNew(root: Node?, start: U64, end: U64, data: Payload, ghost t: Shape)
    returns (node: Node, head: Node, ghost calls: nat)
    requires Plugged(Top, t, root) && Distinct(t)
    modifies Nodes(t)`parent, Nodes(t)`left, Nodes(t)`right, Nodes(t)`height, Nodes(t)`min, Nodes(t)`max
    ensures fresh(node) && node !in Nodes(t) && node.lo == start && node.hi == end && node.data == data
    ensures Plugged(Top, IntervalOps.Insert(t, node), head) && calls <= Height(t) + 1
  {
    assert allocated(Nodes(t));
    node := new Node(start, end, data);
    Undisturbed(t);
    NewLeafLies(node);
    head, calls := IvtInsert(root, node, null, t);
  }

  /** Unlink and drop every node, children first. */
  method IvtClear(x: Node?, ghost t: Shape) returns (link: Node?)
    requires x == Link(t) && Lies(t) && Distinct(t)
    modifies Nodes(t)`left, Nodes(t)`right
    ensures link == null && forall n :: n in Nodes(t) ==> n.left == null && n.right == null
    decreases t
  {
    if x != null {
      Pieces(t);
      assert allocated(Nodes(t.left)) && allocated(Nodes(t.right));
      x.left := IvtClear(x.left, t.left);
      Undisturbed(t.right);
      x.right := IvtClear(x.right, t.right);
    }
    link := null;
  }

  function NodeAt(s: seq<Node>, k: nat): Node? {
    if k < |s| then s[k] else null
  }

  /** What stands right before and right after a node of the order. */
  lemma NeighboursAt(a: seq<Node>, n: Node, b: seq<Node>, c: seq<Node>)
    requires c == a + [n] + b && Unique(c)
    ensures n in c && IndexOf(c, n) == |a| && FirstOf(b) == NodeAt(c, |a| + 1) && LastOf(a) == LastOf(c[..|a|])
  {
    assert c[|a|] == n && c[..|a|] == a;
  }

  lemma {:induction false} UniqueHits(s: seq<Node>, start: U64, end: U64)
    requires Unique(s)
    ensures Unique(Hits(s, start, end))
  {
    if s != [] {
      var rest := Hits(s[1..], start, end);
      UniqueHits(s[1..], start, end);
      HitsOnly(s[1..], start, end);
      assert forall i :: 0 <= i < |rest| ==> rest[i] in s[1..];
    }
  }

  lemma {:induction false} UniqueCountsOnce(s: seq<Node>, n: Node)
    requires Unique(s)
    ensures multiset(s)[n] <= 1
  {
    if s != [] {
      UniqueCountsOnce(s[1..], n);
      assert s == [s[0]] + s[1..];
    }
  }

  lemma {:induction false} TwiceCountsTwo(s: seq<Node>, i: nat, j: nat)
    requires i < j < |s| && s[i] == s[j]
    ensures multiset(s)[s[i]] >= 2
  {
    assert s == s[..j] + [s[j]] + s[j + 1..];
    assert s[i] in s[..j];
  }

  /** Freedom from duplicates is a property of the bag. */
  lemma SameBagUnique(a: seq<Node>, b: seq<Node>)
    requires multiset(a) == multiset(b) && Unique(a)
    ensures Unique(b)
  {
    forall i, j | 0 <= i < j < |b| ensures b[i] != b[j] {
      UniqueCountsOnce(a, b[i]);
      if b[i] == b[j] { TwiceCountsTwo(b, i, j); }
    }
  }

  lemma SameBagMembers(a: seq<Node>, b: seq<Node>, n: Node)
    requires multiset(a) == multiset(b)
    ensures n in a <==> n in b
  {
    assert n in a <==> n in multiset(a);
    assert n in b <==> n in multiset(b);
  }

  lemma AnyHitSharesAPoint(s: seq<Node>, start: U64, end: U64)
    requires start <= end && forall m :: m in s ==> m.lo <= m.hi
    ensures Hits(s, start, end) != [] <==>
      exists n, x :: n in s && Within(x, n.lo, n.hi) && Within(x, start, end)
  {
    if Hits(s, start, end) != [] {
      HitsShareAPoint(s, Hits(s, start, end)[0], start, end);
    }
    if n, x :| n in s && Within(x, n.lo, n.hi) && Within(x, start, end) {
      HitsShareAPoint(s, n, start, end);
    }
  }

  /** From the first node, k increments lead to the k-th node, and |s| of them to the end. */
  function Stepped(s: seq<Node>, k: nat): Node? {
    if k == 0 then FirstOf(s)
    else
      var it := Stepped(s, k - 1);
      if it == null || it !in s then null else NodeAt(s, IndexOf(s, it) + 1)
  }

  lemma {:induction false} IterationVisitsAll(s: seq<Node>, k: nat)
    requires Unique(s) && k <= |s|
    ensures Stepped(s, k) == NodeAt(s, k)
  {
    if k > 0 {
      IterationVisitsAll(s, k - 1);
    }
  }

  /** Stepping forward from n reaches m exactly when stepping back from m reaches n. */
  lemma NextAndPrevAreInverse(t: Shape, n: Node, m: Node)
    requires Distinct(t) && n in Nodes(t) && m in Nodes(t)
    ensures var (p, s) := Locate(Top, t, n);
      var (q, u) := Locate(Top, t, m);
      && s.Branch? && u.Branch?
      && (FirstOf(InOrder(s.right) + After(p)) == m <==> LastOf(Before(q) + InOrder(u.left)) == n)
  {
    var c := InOrder(t);
    LocatePlugs(Top, t, n);
    LocatePlugs(Top, t, m);
    var (p, s) := Locate(Top, t, n);
    var (q, u) := Locate(Top, t, m);
    PlugSplit(p, s);
    PlugSplit(q, u);
    var a, b := Before(p) + InOrder(s.left), InOrder(s.right) + After(p);
    var d, e := Before(q) + InOrder(u.left), InOrder(u.right) + After(q);
    assert c == a + [n] + b && c == d + [m] + e;
    hide *;
    Neighbours(c, a, n, b, d, m, e);
  }

  lemma Neighbours(c: seq<Node>, a: seq<Node>, n: Node, b: seq<Node>, d: seq<Node>, m: Node, e: seq<Node>)
    requires c == a + [n] + b && c == d + [m] + e && Unique(c)
    ensures FirstOf(b) == m <==> LastOf(d) == n
  {
    assert c[|a|] == n && c[|d|] == m;
    if FirstOf(b) == m {
      assert c[|a| + 1] == b[0];
      assert |d| == |a| + 1 && d == c[..|d|];
    }
    if LastOf(d) == n {
      assert c[|d| - 1] == d[|d| - 1] == n;
      assert |a| == |d| - 1 && b == c[|d|..];
    }
  }

  class IntervalTree {
    var root: Node?
    var size: nat
    ghost var shape: Shape

    ghost predicate Valid()
      reads this, Nodes(shape)
    {
      && Plugged(Top, shape, root) && Sound(shape) && size == |InOrder(shape)|
      && forall n :: n in InOrder(shape) ==> n.lo <= n.hi
    }

    ghost function Contents(): seq<Node>
      reads this
    {
      InOrder(shape)
    }

    constructor ()
      ensures Valid() && Contents() == []
    {
      root, size := null, 0;
      shape := Leaf;
    }

    /** Insert directly before the first node that does not start earlier; the recursion is as deep as the tree. */
    method Insert(start: U64, end: U64, data: Payload) returns (it: Checked<Node>, ghost calls: nat)
      requires Valid()
      modifies this
      modifies Nodes(shape)`parent, Nodes(shape)`left, Nodes(shape)`right
      modifies Nodes(shape)`height, Nodes(shape)`min, Nodes(shape)`max
      ensures Valid()
      ensures end < start ==>
        it == Aborted && unchanged(this) && (assert old(allocated(Nodes(shape))); unchanged(old(Nodes(shape))))
      ensures end >= start ==> it.Returned?
      ensures it.Returned? ==>
        && fresh(it.value) && it.value.lo == start && it.value.hi == end && it.value.data == data
        && shape == IntervalOps.Insert(old(shape), it.value)
        && Contents() == InsertedAt(old(Contents()), LowerBound(old(Contents()), start), it.value)
        && multiset(Contents()) == multiset(old(Contents())) + multiset{it.value}
      ensures calls <= Height(old(shape)) + 1
      ensures |old(Contents())| < 0x1_0000_0000_0000_0000 ==> calls <= 92
    {
      hide InOrder, Nodes, IntervalOps.Insert, LowerBound, Height, Distinct, Sorted, Avl;
      DepthIsLogarithmic();
      if end < start {
        return Aborted, 0;
      }
      ghost var t := shape;
      var node;
      node, root, calls := InsertNew(root, start, end, data, t);
      InsertEffect(t, node);
      InsertAddsOnlyIt(t, node);
      size := size + 1;
      shape := IntervalOps.Insert(t, node);
      it := Returned(node);
    }

    lemma DepthIsLogarithmic()
      requires Valid()
      ensures |Contents()| < 0x1_0000_0000_0000_0000 ==> Height(shape) <= 91
    {
      if |Contents()| < 0x1_0000_0000_0000_0000 {
        HeightIsLogarithmic(shape);
      }
    }

    /** Remove the node an iterator points at; the end is refused. The walk is at most as long as the tree is high. */
    method Remove(it: Node?) returns (removed: bool, ghost steps: nat)
      requires Valid() && (it != null ==> it in Nodes(shape))
      modifies this
      modifies Nodes(shape)`parent, Nodes(shape)`left, Nodes(shape)`right
      modifies Nodes(shape)`height, Nodes(shape)`min, Nodes(shape)`max
      ensures Valid() && removed == (it != null)
      ensures !removed ==>
        unchanged(this) && (assert old(allocated(Nodes(shape))); unchanged(old(Nodes(shape))))
      ensures removed ==>
        && shape == Delete(old(shape), it) && it in old(Contents())
        && Contents() == DroppedAt(old(Contents()), IndexOf(old(Contents()), it))
        && multiset(Contents()) == multiset(old(Contents())) - multiset{it} && it !in Contents()
      ensures steps <= Height(old(shape))
      ensures |old(Contents())| < 0x1_0000_0000_0000_0000 ==> steps <= 91
    {
      hide InOrder, Nodes, Delete, Height, Distinct, Sorted, Avl;
      DepthIsLogarithmic();
      if it == null {
        return false, 0;
      }
      ghost var t := shape;
      DeleteEffect(t, it);
      DeleteTakesOnlyIt(t, it);
      root, steps := RemoveStored(root, it, t);
      size := size - 1;
      shape := Delete(t, it);
      removed := true;
    }

    method Clear()
      requires Valid()
      modifies this, Nodes(shape)`left, Nodes(shape)`right
      ensures Valid() && Contents() == [] && size == 0
    {
      root := IvtClear(root, shape);
      size := 0;
      shape := Leaf;
    }

    method Empty() returns (b: bool)
      requires Valid()
      ensures b <==> Contents() == []
    {
      b := size == 0;
    }

    /** Does any stored interval meet [start, end]? The number of calls is linear in the height. */
    method AnyOverlap(start: U64, end: U64) returns (found: Checked<bool>, ghost calls: nat)
      requires Valid()
      ensures end < start <==> found == Aborted
      ensures found.Returned? ==> (found.value <==> Hits(Contents(), start, end) != [])
      ensures found.Returned? ==>
        (found.value <==> exists n, x :: n in Contents() && Within(x, n.lo, n.hi) && Within(x, start, end))
      ensures calls <= 2 * Height(shape) + 1
    {
      if end < start {
        return Aborted, 0;
      }
      var b;
      b, calls := IvtOverlaps(root, start, end, shape);
      AnyHitSharesAPoint(Contents(), start, end);
      found := Returned(b);
    }

    /** All stored intervals that meet [start, end], each exactly once. */
    method FindOverlaps(start: U64, end: U64) returns (result: Checked<seq<Node>>)
      requires Valid()
      ensures end < start <==> result == Aborted
      ensures result.Returned? ==> multiset(result.value) == multiset(Hits(Contents(), start, end))
      ensures result.Returned? ==> Unique(result.value)
      ensures result.Returned? ==>
        forall n :: n in result.value <==>
          n in Contents() && exists x :: Within(x, n.lo, n.hi) && Within(x, start, end)
    {
      if end < start {
        return Aborted;
      }
      var visited := IvtForEach(root, start, end, shape);
      PreOrderHits(shape, start, end);
      UniqueHits(Contents(), start, end);
      SameBagUnique(Hits(Contents(), start, end), visited);
      forall n: Node ensures n in visited <==>
        n in Contents() && exists x :: Within(x, n.lo, n.hi) && Within(x, start, end)
      {
        HitsShareAPoint(Contents(), n, start, end);
        SameBagMembers(Hits(Contents(), start, end), visited, n);
      }
      result := Returned(visited);
    }

    method Begin() returns (it: Node?)
      requires Valid()
      ensures it == FirstOf(Contents())
    {
      it := IvtFirst(root, shape);
    }

    /** Increment an iterator; the end iterator stays at the end. */
    method Next(it: Node?) returns (next: Node?)
      requires Valid() && (it != null ==> it in Nodes(shape))
      ensures it == null ==> next == null
      ensures it != null ==> it in Contents() && next == NodeAt(Contents(), IndexOf(Contents(), it) + 1)
    {
      if it == null {
        return null;
      }
      ghost var (p, s) := Locate(Top, shape, it);
      LocateHangs(Top, shape, root, it);
      LocatePlugs(Top, shape, it);
      PlugSplit(p, s);
      NeighboursAt(Before(p) + InOrder(s.left), it, InOrder(s.right) + After(p), Contents());
      next := IvtNext(it, p, s);
    }

    /** A loop from begin to end visits every node once, in order, with one increment for each. */
    method VisitAll() returns (visited: seq<Node>, ghost increments: nat)
      requires Valid()
      ensures visited == Contents() && increments == size
    {
      hide Plugged, Sound, IndexOf, InOrder, Nodes;
      ghost var s := Contents();
      SoundIndices();
      visited, increments := [], 0;
      assert allocated(Nodes(shape));
      var it := Begin();
      while it != null
        invariant Valid() && shape == old(shape)
        invariant increments == |visited| <= |s| && visited == s[..increments] && it == NodeAt(s, increments)
        decreases |s| - increments
      {
        assert it == s[increments] && allocated(Nodes(shape));
        visited := visited + [it];
        it := Next(it);
        increments := increments + 1;
      }
    }

    lemma SoundIndices()
      requires Valid()
      ensures forall k :: 0 <= k < |Contents()| ==>
        Contents()[k] in Nodes(shape) && IndexOf(Contents(), Contents()[k]) == k
    {
      NodesAreInOrder(shape);
      forall k | 0 <= k < |Contents()| ensures IndexOf(Contents(), Contents()[k]) == k {
        IndexIs(Contents(), k);
      }
    }

    /** On an intact tree the self-check passes and counts every node. */
    method Validate() returns (ok: bool)
      requires Valid()
      ensures ok
    {
      assert allocated(Nodes(shape));
      IntactPasses(shape, null);
      var sound, count := IvtValidate(root, null, shape);
      ok := sound && count == size;
    }
  }
}
