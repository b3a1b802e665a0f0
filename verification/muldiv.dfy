/** The product of two 64 bit words in 128 bits, put together from products of their halves. */
module MulDiv {
  const HALF: int := 0x1_0000_0000
  const FULL: int := 0x1_0000_0000_0000_0000

  /** Every operation on these is checked to stay in range; the ones that may leave it are written with a remainder. */
  newtype Word = x: int | 0 <= x < 0x1_0000_0000_0000_0000

  newtype SignedWord = x: int | -0x8000_0000_0000_0000 <= x < 0x8000_0000_0000_0000

  function LowDigit(x: Word): (r: Word)
    ensures r as int == x as int % HALF
  {
    x % 0x1_0000_0000
  }

  function HighDigit(x: Word): (r: Word)
    ensures r as int == x as int / HALF
  {
    x / 0x1_0000_0000
  }

  /** The product of two half words and a further half word fit in a word. */
  lemma HalfProductFits(x: int, y: int, z: int)
    requires 0 <= x < HALF && 0 <= y < HALF && 0 <= z < HALF
    ensures 0 <= x * y && x * y + z < FULL
  {
    ProductAtMost(x, y, HALF - 1, HALF - 1);
    assert (HALF - 1) * (HALF - 1) + HALF - 1 < FULL;
  }

  lemma ProductAtMost(x: int, y: int, m: int, n: int)
    requires 0 <= x <= m && 0 <= y <= n
    ensures 0 <= x * y <= m * n
  {
    assert x * y <= m * y;
    assert m * y <= m * n;
  }

  /** The four partial products of two numbers of two digits. */
  lemma Digits(ah: int, al: int, bh: int, bl: int)
    ensures (ah * HALF + al) * (bh * HALF + bl) == ah * bh * FULL + (ah * bl + al * bh) * HALF + al * bl
  {
    var p, q := ah * HALF, bh * HALF;
    assert (p + al) * (q + bl) == p * q + p * bl + al * q + al * bl;
    assert p * q == ah * bh * FULL;
    assert p * bl == ah * bl * HALF && al * q == al * bh * HALF;
  }

  /** No sum of a step leaves 64 bits, and the two words returned are the exact product. */
  method Umul64Slow(a: Word, b: Word) returns (hi: Word, lo: Word)
    ensures hi as int * FULL + lo as int == a as int * b as int
  {
    var u, v, c, d := LowDigit(a), LowDigit(b), HighDigit(a), HighDigit(b);
    ghost var al, bl, ah, bh := u as int, v as int, c as int, d as int;
    HalfProductFits(al, bl, 0);
    var t := u * v;
    var w3 := LowDigit(t);
    var k := HighDigit(t);
    ghost var t0, k0 := t as int, k as int;
    assert t0 == k0 * HALF + w3 as int;

    HalfProductFits(ah, bl, k0);
    t := c * v + k;
    k := LowDigit(t);
    var w1 := HighDigit(t);
    ghost var t1, k1 := t as int, k as int;
    assert t1 == w1 as int * HALF + k1;

    HalfProductFits(al, bh, k1);
    t := u * d + k;
    k := HighDigit(t);
    ghost var t2, k2 := t as int, k as int;
    assert t2 == k2 * HALF + LowDigit(t) as int;

    ghost var high, low := ah * bh + w1 as int + k2, LowDigit(t) as int * HALF + w3 as int;
    assert a as int == ah * HALF + al && b as int == bh * HALF + bl;
    Exact(ah, al, bh, bl, k0, w3 as int, k1, w1 as int, k2, LowDigit(t) as int);
    UpperWordFits(a as int, b as int, high, low);
    HalfProductFits(ah, bh, 0);
    hi := c * d + w1 + k;
    lo := LowDigit(t) * 0x1_0000_0000 + w3;
  }

  lemma Exact(ah: int, al: int, bh: int, bl: int, k0: int, w3: int, k1: int, w1: int, k2: int, w2: int)
    requires al * bl == k0 * HALF + w3
    requires ah * bl + k0 == w1 * HALF + k1
    requires al * bh + k1 == k2 * HALF + w2
    ensures (ah * bh + w1 + k2) * FULL + (w2 * HALF + w3) == (ah * HALF + al) * (bh * HALF + bl)
  {
    Digits(ah, al, bh, bl);
    assert FULL == HALF * HALF;
    assert (ah * bl + al * bh) * HALF + al * bl == (w1 + k2) * FULL + w2 * HALF + w3;
  }

  lemma UpperWordFits(a: int, b: int, high: int, low: int)
    requires 0 <= a < FULL && 0 <= b < FULL && 0 <= low && high * FULL + low == a * b
    ensures high < FULL
  {
    ProductAtMost(a, b, FULL - 1, FULL - 1);
  }

  /** The same bits as an unsigned and as a signed word. */
  function Unsigned(x: SignedWord): Word {
    (x as int % FULL) as Word
  }

  function Signed(x: Word): SignedWord {
    (if x as int < FULL / 2 then x as int else x as int - FULL) as SignedWord
  }

  /** Subtraction of unsigned words, which wraps around. */
  function Minus(x: Word, y: Word): Word {
    ((x as int - y as int) % FULL) as Word
  }

  lemma WordProduct(a: int, b: int, s: int, t: int)
    ensures (a + s * FULL) * (b + t * FULL) == a * b + (t * a + s * b + s * t * FULL) * FULL
  {
    var p, q := s * FULL, t * FULL;
    assert (a + p) * (b + q) == a * b + a * q + p * b + p * q;
    assert a * q == t * a * FULL && p * b == s * b * FULL && p * q == s * t * FULL * FULL;
  }

  lemma UnsignedIs(x: SignedWord)
    ensures Unsigned(x) as int == x as int + if x < 0 then FULL else 0
  {
  }

  /** The upper word of the unsigned product, corrected for the signs. */
  function Corrected(a: SignedWord, b: SignedWord, uhi: Word): int {
    uhi as int - (if b < 0 then a as int else 0) - (if a < 0 then b as int else 0) - if a < 0 && b < 0 then FULL else 0
  }

  lemma ProductInRange(a: int, b: int)
    requires -FULL / 2 <= a < FULL / 2 && -FULL / 2 <= b < FULL / 2
    ensures -(FULL / 2) * (FULL / 2) <= a * b <= (FULL / 2) * (FULL / 2)
  {
    ProductAtMost(if a < 0 then -a else a, if b < 0 then -b else b, FULL / 2, FULL / 2);
  }

  /** It is the upper word of the signed product. */
  lemma SignedUpperWord(a: SignedWord, b: SignedWord, uhi: Word, ulo: Word)
    requires uhi as int * FULL + ulo as int == Unsigned(a) as int * Unsigned(b) as int
    ensures Corrected(a, b, uhi) * FULL + ulo as int == a as int * b as int
    ensures -FULL / 2 <= Corrected(a, b, uhi) < FULL / 2
  {
    var s, t := if a < 0 then 1 else 0, if b < 0 then 1 else 0;
    var x, y, product := a as int, b as int, a as int * b as int;
    UnsignedIs(a);
    UnsignedIs(b);
    WordProduct(x, y, s, t);
    assert t * x == (if b < 0 then x else 0) && s * y == (if a < 0 then y else 0);
    assert s * t * FULL == if a < 0 && b < 0 then FULL else 0;
    ProductInRange(x, y);
  }

  lemma MinusWraps(x: Word, y: Word, h: int)
    requires x as int == h % FULL
    ensures Minus(x, y) as int == (h - y as int) % FULL
  {
    var q := h / FULL;
    assert h == q * FULL + x as int;
  }

  lemma SignedUndoesWrap(x: Word, h: int)
    requires -FULL / 2 <= h < FULL / 2 && x as int == h % FULL
    ensures Signed(x) as int == h
  {
    assert h % FULL == if h < 0 then h + FULL else h;
  }

  lemma UnsignedUndoesSigned(x: Word)
    ensures Unsigned(Signed(x)) == x
  {
  }

  lemma SameWrap(h: int, k: int)
    ensures (h - k * FULL) % FULL == h % FULL
  {
    assert h - k * FULL == (h / FULL - k) * FULL + h % FULL;
  }

  /** The two corrections wrap around to the true upper word. */
  lemma CorrectionsWrap(uhi: Word, a: Word, b: Word, high: int)
    requires high == uhi as int - a as int - b as int
    ensures Minus(Minus(uhi, a), b) as int == high % FULL
  {
    hide Minus;
    MinusWraps(uhi, a, uhi as int);
    MinusWraps(Minus(uhi, a), b, uhi as int - a as int);
  }

  lemma MinusZero(x: Word)
    ensures Minus(x, 0) == x
  {
  }

  /** What the code subtracts, in wrapping arithmetic, is the correction. */
  lemma CorrectionWraps(uhi: Word, a: SignedWord, b: SignedWord)
    ensures var once := if b < 0 then Minus(uhi, Unsigned(a)) else uhi;
      (if a < 0 then Minus(once, Unsigned(b)) else once) as int == Corrected(a, b, uhi) % FULL
  {
    UnsignedIs(a);
    UnsignedIs(b);
    var p: Word, q: Word := if b < 0 then Unsigned(a) else 0, if a < 0 then Unsigned(b) else 0;
    MinusZero(uhi);
    MinusZero(Minus(uhi, p));
    hide Minus, Unsigned;
    CorrectionsWrap(uhi, p, q, uhi as int - p as int - q as int);
    SameWrap(Corrected(a, b, uhi), if a < 0 && b < 0 then 1 else 0);
  }

  /** The lower word holds the product's lower 64 bits, so it is to be read as unsigned. */
  method Imul64Slow(a: SignedWord, b: SignedWord) returns (hi: SignedWord, lo: SignedWord)
    ensures hi as int * FULL + Unsigned(lo) as int == a as int * b as int
  {
    var uhi, ulo := Umul64Slow(Unsigned(a), Unsigned(b));
    ghost var high := Corrected(a, b, uhi);
    SignedUpperWord(a, b, uhi, ulo);
    CorrectionWraps(uhi, a, b);
    hide Minus, Signed, Unsigned, Corrected;
    if b < 0 {
      uhi := Minus(uhi, Unsigned(a));
    }
    if a < 0 {
      uhi := Minus(uhi, Unsigned(b));
    }
    hi := Signed(uhi);
    lo := Signed(ulo);
    SignedUndoesWrap(uhi, high);
    UnsignedUndoesSigned(ulo);
  }
}
