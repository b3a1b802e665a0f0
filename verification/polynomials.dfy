/**
 * Polynomials over the field with two elements and their long division, one message bit at a
 * time: what a cyclic redundancy check computes.
 */
module Polynomials {
  /** The coefficient of x^i is at index i; all further coefficients are zero. */
  type Poly = seq<bool>

  function Coef(p: Poly, i: int): bool {
    0 <= i < |p| && p[i]
  }

  ghost predicate Same(p: Poly, q: Poly) {
    forall i :: Coef(p, i) == Coef(q, i)
  }

  function Sum(p: Poly, q: Poly): Poly {
    seq(if |p| < |q| then |q| else |p|, i => Coef(p, i) != Coef(q, i))
  }

  /** x^n times p. */
  function Shifted(p: Poly, n: nat): Poly {
    seq(n, _ => false) + p
  }

  function Product(q: Poly, g: Poly): Poly {
    if q == [] then [] else Sum(if q[0] then g else [], Shifted(Product(q[1..], g), 1))
  }

  /** g has degree n and leading coefficient one. */
  predicate Generator(g: Poly, n: nat) {
    n > 0 && |g| == n + 1 && g[n]
  }

  lemma SumAt(p: Poly, q: Poly, i: int)
    ensures Coef(Sum(p, q), i) == (Coef(p, i) != Coef(q, i))
  {
  }

  lemma ShiftedAt(p: Poly, n: nat, i: int)
    ensures Coef(Shifted(p, n), i) == Coef(p, i - n)
  {
  }

  lemma BelowZero(p: Poly, i: int)
    ensures Coef(p, i) ==> 0 <= i < |p|
  {
  }

  lemma TailAt(p: Poly, i: int)
    requires p != []
    ensures Coef(p, i) == if i == 0 then p[0] else Coef(p[1..], i - 1)
  {
  }

  lemma ProductAt(q: Poly, g: Poly, i: int)
    requires q != []
    ensures Coef(Product(q, g), i) == ((q[0] && Coef(g, i)) != Coef(Product(q[1..], g), i - 1))
  {
    var own, rest := if q[0] then g else [], Product(q[1..], g);
    SumAt(own, Shifted(rest, 1), i);
    ShiftedAt(rest, 1, i);
  }

  // ---- The shift register ----

  /** The register r takes one message bit: x r plus the bit at x^n, less g when that reaches degree n. */
  function Feed(r: Poly, bit: bool, g: Poly): (s: Poly)
    requires Generator(g, |r|)
    ensures |s| == |r|
  {
    var taken := r[|r| - 1] != bit;
    seq(|r|, i => Coef(r, i - 1) != (taken && Coef(g, i)))
  }

  /** The register after a message, whose first bit is the last of the list. */
  function FeedAll(r: Poly, message: Poly, g: Poly): (s: Poly)
    requires Generator(g, |r|)
    ensures |s| == |r|
  {
    if message == [] then r else Feed(FeedAll(r, message[1..], g), message[0], g)
  }

  /** The multiples of g that were taken away, one for every bit of the message. */
  function Quotient(r: Poly, message: Poly, g: Poly): Poly
    requires Generator(g, |r|)
  {
    if message == [] then [] else
      [FeedAll(r, message[1..], g)[|r| - 1] != message[0]] + Quotient(r, message[1..], g)
  }

  /** What is divided: the message with as many zeros appended as the register is long, and the start value in front. */
  function Dividend(r: Poly, message: Poly): Poly {
    Sum(Shifted(message, |r|), Shifted(r, |message|))
  }

  lemma DividendAt(r: Poly, message: Poly, i: int)
    ensures Coef(Dividend(r, message), i) == (Coef(message, i - |r|) != Coef(r, i - |message|))
  {
    SumAt(Shifted(message, |r|), Shifted(r, |message|), i);
    ShiftedAt(message, |r|, i);
    ShiftedAt(r, |message|, i);
  }

  lemma FeedAt(r: Poly, bit: bool, g: Poly, i: int)
    requires Generator(g, |r|)
    ensures Coef(Feed(r, bit, g), i) == (0 <= i < |r| && (Coef(r, i - 1) != ((r[|r| - 1] != bit) && Coef(g, i))))
  {
  }

  /** Also at the top, where the bit and the generator cancel what is moved out. */
  lemma FeedMoves(r: Poly, bit: bool, g: Poly, i: int)
    requires Generator(g, |r|)
    ensures Coef(Feed(r, bit, g), i) ==
      ((Coef(r, i - 1) != ((r[|r| - 1] != bit) && Coef(g, i))) != (i == |r| && bit))
  {
    FeedAt(r, bit, g, i);
  }

  /** A register whose coefficients are moved up one place and, when the step takes g, have those of g added. */
  lemma IsFeed(r: Poly, bit: bool, g: Poly, s: Poly)
    requires Generator(g, |r|) && |s| == |r|
    requires s[0] == ((r[|r| - 1] != bit) && g[0])
    requires forall i :: 0 < i < |r| ==> s[i] == (r[i - 1] != ((r[|r| - 1] != bit) && g[i]))
    ensures s == Feed(r, bit, g)
  {
    var f := Feed(r, bit, g);
    forall i | 0 <= i < |r| ensures s[i] == f[i] {
      FeedAt(r, bit, g, i);
      assert Coef(f, i) == f[i];
    }
  }

  /** The register holds the remainder of the division by g. */
  lemma {:induction false} RegisterHoldsRemainder(r: Poly, message: Poly, g: Poly)
    requires Generator(g, |r|)
    ensures Same(Dividend(r, message), Sum(Product(Quotient(r, message, g), g), FeedAll(r, message, g)))
  {
    var quotient, now := Quotient(r, message, g), FeedAll(r, message, g);
    if message == [] {
      hide Dividend, Sum, Coef;
      forall i ensures Coef(Dividend(r, message), i) == Coef(Sum(Product(quotient, g), now), i) {
        DividendAt(r, message, i);
        SumAt([], r, i);
        BelowZero([], i);
        BelowZero([], i - |r|);
      }
    } else {
      var quotient', before := Quotient(r, message[1..], g), FeedAll(r, message[1..], g);
      RegisterHoldsRemainder(r, message[1..], g);
      assert quotient == [before[|r| - 1] != message[0]] + quotient';
      hide Dividend, Quotient, FeedAll, Product, Sum, Coef;
      forall i ensures Coef(Dividend(r, message), i) == Coef(Sum(Product(quotient, g), now), i) {
        assert Coef(Dividend(r, message[1..]), i - 1) == Coef(Sum(Product(quotient', g), before), i - 1);
        RemainderStep(r, message, g, quotient, quotient', before, i);
      }
    }
  }

  lemma RemainderStep(r: Poly, message: Poly, g: Poly, quotient: Poly, quotient': Poly, before: Poly, i: int)
    requires Generator(g, |r|) && message != [] && |before| == |r|
    requires quotient == [before[|r| - 1] != message[0]] + quotient'
    requires Coef(Dividend(r, message[1..]), i - 1) == Coef(Sum(Product(quotient', g), before), i - 1)
    ensures Coef(Dividend(r, message), i) == Coef(Sum(Product(quotient, g), Feed(before, message[0], g)), i)
  {
    var now := Feed(before, message[0], g);
    assert quotient[1..] == quotient';
    assert Generator(g, |before|);
    hide *;
    assert Coef(Dividend(r, message), i) == (Coef(Dividend(r, message[1..]), i - 1) != (i == |r| && message[0])) by {
      DividendAt(r, message, i);
      DividendAt(r, message[1..], i - 1);
      TailAt(message, i - |r|);
    }
    assert Coef(now, i) == ((Coef(before, i - 1) != (quotient[0] && Coef(g, i))) != (i == |r| && message[0])) by {
      FeedMoves(before, message[0], g, i);
    }
    ProductAt(quotient, g, i);
    SumAt(Product(quotient, g), now, i);
    SumAt(Product(quotient', g), before, i - 1);
  }

  /** Feeding a message and then another one is feeding both. */
  lemma {:induction false} FeedConcat(r: Poly, first: Poly, second: Poly, g: Poly)
    requires Generator(g, |r|)
    ensures FeedAll(r, second + first, g) == FeedAll(FeedAll(r, first, g), second, g)
  {
    if second == [] {
      assert second + first == first;
    } else {
      var message := second + first;
      assert message[1..] == second[1..] + first;
      FeedConcat(r, first, second[1..], g);
    }
  }

  /** For a generator that is a multiple of x, a register with lowest bit zero is the register without that bit. */
  lemma {:induction false} ShiftedRegister(r: Poly, message: Poly, g: Poly)
    requires Generator(g, |r|)
    ensures FeedAll([false] + r, message, [false] + g) == [false] + FeedAll(r, message, g)
  {
    if message != [] {
      ShiftedRegister(r, message[1..], g);
      var before := FeedAll(r, message[1..], g);
      hide FeedAll;
      var low, high := Feed([false] + before, message[0], [false] + g), Feed(before, message[0], g);
      forall i | 0 <= i < |low| ensures low[i] == ([false] + high)[i] {
        assert ([false] + before)[|r|] == before[|r| - 1];
        TailAt([false] + before, i - 1);
        TailAt([false] + g, i);
        assert ([false] + before)[1..] == before && ([false] + g)[1..] == g;
      }
    }
  }

  // ---- A register that takes several bits at once ----

  function ZeroBits(n: nat): (z: Poly)
    ensures |z| == n
  {
    seq(n, _ => false)
  }

  /** The sum of two polynomials of the same length. */
  function Plus(p: Poly, q: Poly): (s: Poly)
    requires |p| == |q|
    ensures |s| == |p|
  {
    seq(|p|, i requires 0 <= i < |p| => p[i] != q[i])
  }

  lemma IsPlus(p: Poly, q: Poly, s: Poly)
    requires |p| == |q| == |s| && forall i :: 0 <= i < |s| ==> s[i] == (p[i] != q[i])
    ensures s == Plus(p, q)
  {
  }

  lemma PlusZeros(p: Poly)
    ensures Plus(p, ZeroBits(|p|)) == p && Plus(ZeroBits(|p|), p) == p
  {
  }

  lemma PlusCommutes(p: Poly, q: Poly)
    requires |p| == |q|
    ensures Plus(p, q) == Plus(q, p)
  {
  }

  lemma PlusConcat(a: Poly, b: Poly, c: Poly, d: Poly)
    requires |a| == |c| && |b| == |d|
    ensures Plus(a + b, c + d) == Plus(a, c) + Plus(b, d)
  {
  }

  /** A zero fed to a register that had t added: t's top bit is fed, and the rest of t is added one place higher. */
  lemma FeedAbsorbs(r: Poly, t: Poly, g: Poly)
    requires Generator(g, |r|) && |t| == |r|
    ensures Feed(Plus(r, t), false, g) == Plus(Feed(r, t[|r| - 1], g), [false] + t[..|r| - 1])
  {
    var n := |r|;
    var f := Feed(r, t[n - 1], g);
    forall i | 0 <= i < n ensures f[i] == ((i > 0 && r[i - 1]) != ((r[n - 1] != t[n - 1]) && g[i])) {
      FeedAt(r, t[n - 1], g, i);
    }
    var s := Plus(f, [false] + t[..n - 1]);
    assert s[0] == f[0];
    forall i | 0 < i < n ensures s[i] == (f[i] != t[i - 1]) {
    }
    IsFeed(Plus(r, t), false, g, s);
  }

  lemma ZerosAbsorbStep(r: Poly, t: Poly, k: nat, g: Poly, top: Poly, rest: Poly)
    requires Generator(g, |r|) && |t| == |r| == |rest| && 0 < k && |top| > 0
    requires top[0] == rest[|r| - 1] && !ZeroBits(k)[0] && ZeroBits(k)[1..] == ZeroBits(k - 1)
    requires FeedAll(Plus(r, t), ZeroBits(k - 1), g) == Plus(FeedAll(r, top[1..], g), rest)
    ensures FeedAll(Plus(r, t), ZeroBits(k), g) == Plus(FeedAll(r, top, g), [false] + rest[..|r| - 1])
  {
    hide Feed, Plus, ZeroBits;
    FeedAbsorbs(FeedAll(r, top[1..], g), rest, g);
  }

  /** One more bit moved out at the top, and one more zero in at the bottom. */
  lemma MoveUp(t: Poly, k: nat)
    requires 0 < k <= |t|
    ensures var n := |t|;
      var top, rest := t[n - k..], ZeroBits(k - 1) + t[..n - k + 1];
      && top[1..] == t[n - k + 1..] && top[0] == rest[n - 1] && |rest| == n
      && !ZeroBits(k)[0] && ZeroBits(k)[1..] == ZeroBits(k - 1)
      && [false] + rest[..n - 1] == ZeroBits(k) + t[..n - k]
  {
  }

  /** k zeros fed to a register that had t added are the k highest bits of t fed to the register. */
  lemma {:induction false} ZerosAbsorb(r: Poly, t: Poly, k: nat, g: Poly)
    requires Generator(g, |r|) && |t| == |r| && k <= |r|
    ensures FeedAll(Plus(r, t), ZeroBits(k), g) == Plus(FeedAll(r, t[|r| - k..], g), ZeroBits(k) + t[..|r| - k])
  {
    var n := |r|;
    if k == 0 {
      assert ZeroBits(0) + t[..n] == t && t[n..] == [];
    } else {
      var top, rest := t[n - k..], ZeroBits(k - 1) + t[..n - k + 1];
      MoveUp(t, k);
      hide FeedAll, Plus, ZeroBits;
      ZerosAbsorb(r, t, k - 1, g);
      ZerosAbsorbStep(r, t, k, g, top, rest);
    }
  }

  // ---- There is only one remainder ----

  ghost predicate Zero(p: Poly) {
    forall i :: !Coef(p, i)
  }

  lemma TailIsZero(p: Poly)
    requires p != [] && Zero(p)
    ensures !p[0] && Zero(p[1..])
  {
    assert !Coef(p, 0);
    forall i ensures !Coef(p[1..], i) {
      assert Coef(p[1..], i) ==> Coef(p, i + 1);
    }
  }

  lemma {:induction false} ZeroProduct(q: Poly, g: Poly)
    requires Zero(q)
    ensures Zero(Product(q, g))
  {
    if q != [] {
      TailIsZero(q);
      ZeroProduct(q[1..], g);
      hide Product, Coef;
      forall i ensures !Coef(Product(q, g), i) {
        ProductAt(q, g, i);
      }
    }
  }

  lemma SameTails(p: Poly, q: Poly)
    requires p != [] && q != [] && Same(p, q)
    ensures p[0] == q[0] && Same(p[1..], q[1..])
  {
    assert Coef(p, 0) == Coef(q, 0);
    forall i ensures Coef(p[1..], i) == Coef(q[1..], i) {
      if i >= 0 {
        assert Coef(p, i + 1) == Coef(q, i + 1);
      }
    }
  }

  lemma {:induction false} SameProduct(p: Poly, q: Poly, g: Poly)
    requires Same(p, q)
    ensures Same(Product(p, g), Product(q, g))
    decreases |p| + |q|
  {
    if p == [] {
      forall i ensures !Coef(q, i) {
        assert Coef(p, i) == Coef(q, i);
      }
      ZeroProduct(q, g);
    } else if q == [] {
      forall i ensures !Coef(p, i) {
        assert Coef(p, i) == Coef(q, i);
      }
      ZeroProduct(p, g);
    } else {
      SameTails(p, q);
      SameProduct(p[1..], q[1..], g);
      hide Product, Coef;
      forall i ensures Coef(Product(p, g), i) == Coef(Product(q, g), i) {
        ProductAt(p, g, i);
        ProductAt(q, g, i);
      }
    }
  }

  lemma {:induction false} ProductOfSum(p: Poly, q: Poly, g: Poly)
    ensures Same(Product(Sum(p, q), g), Sum(Product(p, g), Product(q, g)))
  {
    if p == [] {
      assert Sum(p, q) == q;
      forall i ensures Coef(Product(q, g), i) == Coef(Sum([], Product(q, g)), i) {
        SumAt([], Product(q, g), i);
      }
    } else if q == [] {
      assert Sum(p, q) == p;
      forall i ensures Coef(Product(p, g), i) == Coef(Sum(Product(p, g), []), i) {
        SumAt(Product(p, g), [], i);
      }
    } else {
      var s := Sum(p, q);
      ProductOfSum(p[1..], q[1..], g);
      assert s[0] == (p[0] != q[0]) && s[1..] == Sum(p[1..], q[1..]);
      hide Product, Sum, Coef;
      forall i ensures Coef(Product(s, g), i) == Coef(Sum(Product(p, g), Product(q, g)), i) {
        ProductAt(s, g, i);
        ProductAt(p, g, i);
        ProductAt(q, g, i);
        SumAt(Product(p, g), Product(q, g), i);
        SumAt(Product(p[1..], g), Product(q[1..], g), i - 1);
      }
    }
  }

  /** The coefficient of x^k is one, and no higher one is. */
  ghost predicate HasDegree(q: Poly, k: int) {
    Coef(q, k) && forall i :: i > k ==> !Coef(q, i)
  }

  lemma TailDegree(q: Poly, k: int)
    requires HasDegree(q, k)
    ensures q != [] && (if k == 0 then Zero(q[1..]) else HasDegree(q[1..], k - 1))
  {
    forall i | i > k - 1 && i >= 0 ensures !Coef(q[1..], i) {
      assert !Coef(q, i + 1);
    }
  }

  /** The product with a generator of degree n has a coefficient n places above the degree. */
  lemma {:induction false} TopOfProduct(q: Poly, k: nat, g: Poly, n: nat)
    requires Generator(g, n) && HasDegree(q, k)
    ensures Coef(Product(q, g), k + n)
  {
    TailDegree(q, k);
    ProductAt(q, g, k + n);
    if k == 0 {
      ZeroProduct(q[1..], g);
      assert !Coef(Product(q[1..], g), n - 1);
    } else {
      TopOfProduct(q[1..], k - 1, g, n);
    }
  }

  lemma {:induction false} FindDegree(q: Poly, i: nat) returns (k: nat)
    requires Coef(q, i)
    ensures HasDegree(q, k)
  {
    if q[|q| - 1] {
      k := |q| - 1;
    } else {
      var p := q[..|q| - 1];
      k := FindDegree(p, i);
      forall j | j > k ensures !Coef(q, j) {
        assert !Coef(p, j);
      }
    }
  }

  /** Quotient and remainder of a division by a generator of degree n are determined. */
  lemma RemainderIsUnique(p: Poly, q: Poly, r: Poly, q': Poly, r': Poly, g: Poly)
    requires Generator(g, |r|) && |r'| == |r|
    requires Same(p, Sum(Product(q, g), r)) && Same(p, Sum(Product(q', g), r'))
    ensures r == r' && Same(q, q')
  {
    var d := Sum(q, q');
    hide Product, Sum;
    forall i ensures Coef(Product(d, g), i) == (Coef(r, i) != Coef(r', i)) {
      hide Coef;
      ProductOfSum(q, q', g);
      assert Coef(p, i) == Coef(Sum(Product(q, g), r), i) && Coef(p, i) == Coef(Sum(Product(q', g), r'), i);
      SumAt(Product(q, g), r, i);
      SumAt(Product(q', g), r', i);
      assert Coef(Product(d, g), i) == Coef(Sum(Product(q, g), Product(q', g)), i);
      SumAt(Product(q, g), Product(q', g), i);
    }
    if i: nat :| Coef(d, i) {
      var k := FindDegree(d, i);
      TopOfProduct(d, k, g, |r|);
      assert false;
    }
    ZeroProduct(d, g);
    forall i | 0 <= i < |r| ensures r[i] == r'[i] {
      assert !Coef(Product(d, g), i);
      assert r[i] == Coef(r, i) && r'[i] == Coef(r', i);
    }
    forall i ensures Coef(q, i) == Coef(q', i) {
      SumAt(q, q', i);
      assert !Coef(d, i);
    }
  }
}
