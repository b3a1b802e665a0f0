/** The heap record of the interval tree, and the closed-interval overlap test. */
module IntervalNode {
  type U64 = x: int | 0 <= x < 0x1_0000_0000_0000_0000

  /** What a node carries for its owner; the tree never looks inside. */
  type Payload

  class Node {
    const lo: U64
    const hi: U64
    var min: U64
    var max: U64
    var height: nat
    var parent: Node?
    var left: Node?
    var right: Node?
    var data: Payload

    constructor (start: U64, end: U64, item: Payload)
      ensures lo == min == start && hi == max == end && height == 1
      ensures parent == null && left == null && right == null && data == item
    {
      lo, hi, min, max, height := start, end, start, end, 1;
      parent, left, right := null, null, null;
      data := item;
    }
  }

  /** Closed intervals [s0, e0] and [s1, e1] meet. */
  predicate Overlaps(s0: U64, e0: U64, s1: U64, e1: U64) {
    s0 <= e1 && s1 <= e0
  }

  /** x is a point of the closed interval [lo, hi]. */
  predicate Within(x: int, lo: int, hi: int) {
    lo <= x <= hi
  }

  /** Two closed intervals that are not empty meet exactly when they have a point in common. */
  lemma OverlapsMeansCommonPoint(s0: U64, e0: U64, s1: U64, e1: U64)
    requires s0 <= e0 && s1 <= e1
    ensures Overlaps(s0, e0, s1, e1) <==> exists x :: Within(x, s0, e0) && Within(x, s1, e1)
  {
    if Overlaps(s0, e0, s1, e1) {
      var x := if s0 <= s1 then s1 else s0;
      assert Within(x, s0, e0) && Within(x, s1, e1);
    }
  }

  predicate Hit(n: Node, start: U64, end: U64) {
    Overlaps(n.lo, n.hi, start, end)
  }
}
