/** Machine words as lists of bits, lowest bit first, and the reversal of their bits. */
module WordBits {
  import opened BitTables
  import opened Polynomials

  predicate Bit8(x: bv8, i: int) {
    if i == 0 then x & 0x01 != 0
    else if i == 1 then x & 0x02 != 0
    else if i == 2 then x & 0x04 != 0
    else if i == 3 then x & 0x08 != 0
    else if i == 4 then x & 0x10 != 0
    else if i == 5 then x & 0x20 != 0
    else if i == 6 then x & 0x40 != 0
    else i == 7 && x & 0x80 != 0
  }

  function LowByte(x: bv16): bv8 {
    (x & 0xff) as bv8
  }

  function HighByte(x: bv16): bv8 {
    (x >> 8) as bv8
  }

  predicate Bit16(x: bv16, i: int) {
    if i < 8 then Bit8(LowByte(x), i) else Bit8(HighByte(x), i - 8)
  }

  function LowHalf(x: bv32): bv16 {
    (x & 0xffff) as bv16
  }

  function HighHalf(x: bv32): bv16 {
    (x >> 16) as bv16
  }

  predicate Bit32(x: bv32, i: int) {
    if i < 16 then Bit16(LowHalf(x), i) else Bit16(HighHalf(x), i - 16)
  }

  function Bits8(x: bv8): (b: Poly)
    ensures |b| == 8
  {
    seq(8, i => Bit8(x, i))
  }

  function Bits16(x: bv16): (b: Poly)
    ensures |b| == 16
  {
    seq(16, i => Bit16(x, i))
  }

  function Bits32(x: bv32): (b: Poly)
    ensures |b| == 32
  {
    seq(32, i => Bit32(x, i))
  }

  lemma Bits16Halves(x: bv16)
    ensures Bits16(x) == Bits8(LowByte(x)) + Bits8(HighByte(x))
  {
    hide Bit8, LowByte, HighByte;
  }

  lemma Bits32Halves(x: bv32)
    ensures Bits32(x) == Bits16(LowHalf(x)) + Bits16(HighHalf(x))
  {
    hide Bit16, LowHalf, HighHalf;
  }

  /** The bits determine the word. */
  lemma Bits8Injective(x: bv8, y: bv8)
    requires Bits8(x) == Bits8(y)
    ensures x == y
  {
    assert forall i :: 0 <= i < 8 ==> Bits8(x)[i] == Bits8(y)[i];
    assert Bit8(x, 0) == Bits8(x)[0] && Bit8(y, 0) == Bits8(y)[0];
    assert Bit8(x, 1) == Bits8(x)[1] && Bit8(y, 1) == Bits8(y)[1];
    assert Bit8(x, 2) == Bits8(x)[2] && Bit8(y, 2) == Bits8(y)[2];
    assert Bit8(x, 3) == Bits8(x)[3] && Bit8(y, 3) == Bits8(y)[3];
    assert Bit8(x, 4) == Bits8(x)[4] && Bit8(y, 4) == Bits8(y)[4];
    assert Bit8(x, 5) == Bits8(x)[5] && Bit8(y, 5) == Bits8(y)[5];
    assert Bit8(x, 6) == Bits8(x)[6] && Bit8(y, 6) == Bits8(y)[6];
    assert Bit8(x, 7) == Bits8(x)[7] && Bit8(y, 7) == Bits8(y)[7];
  }

  lemma Joined16(x: bv16)
    ensures x == (HighByte(x) as bv16 << 8) | LowByte(x) as bv16
  {
  }

  lemma Bits16Injective(x: bv16, y: bv16)
    requires Bits16(x) == Bits16(y)
    ensures x == y
  {
    hide *;
    Bits16Halves(x);
    Bits16Halves(y);
    SameHalves(Bits8(LowByte(x)), Bits8(HighByte(x)), Bits8(LowByte(y)), Bits8(HighByte(y)));
    Bits8Injective(LowByte(x), LowByte(y));
    Bits8Injective(HighByte(x), HighByte(y));
    Joined16(x);
    Joined16(y);
  }

  lemma Joined32(x: bv32)
    ensures x == (HighHalf(x) as bv32 << 16) | LowHalf(x) as bv32
  {
  }

  lemma Bits32Injective(x: bv32, y: bv32)
    requires Bits32(x) == Bits32(y)
    ensures x == y
  {
    hide *;
    Bits32Halves(x);
    Bits32Halves(y);
    SameHalves(Bits16(LowHalf(x)), Bits16(HighHalf(x)), Bits16(LowHalf(y)), Bits16(HighHalf(y)));
    Bits16Injective(LowHalf(x), LowHalf(y));
    Bits16Injective(HighHalf(x), HighHalf(y));
    Joined32(x);
    Joined32(y);
  }

  lemma SameHalves(a: Poly, b: Poly, c: Poly, d: Poly)
    requires a + b == c + d && |a| == |c|
    ensures a == c && b == d
  {
    assert a == (a + b)[..|a|] && c == (c + d)[..|c|];
    assert b == (a + b)[|a|..] && d == (c + d)[|c|..];
  }

  // ---- Sums and doublings ----

  lemma XorMasks(x: bv8, y: bv8)
    ensures ((x ^ y) & 0x01 != 0) == ((x & 0x01 != 0) != (y & 0x01 != 0))
    ensures ((x ^ y) & 0x02 != 0) == ((x & 0x02 != 0) != (y & 0x02 != 0))
    ensures ((x ^ y) & 0x04 != 0) == ((x & 0x04 != 0) != (y & 0x04 != 0))
    ensures ((x ^ y) & 0x08 != 0) == ((x & 0x08 != 0) != (y & 0x08 != 0))
    ensures ((x ^ y) & 0x10 != 0) == ((x & 0x10 != 0) != (y & 0x10 != 0))
    ensures ((x ^ y) & 0x20 != 0) == ((x & 0x20 != 0) != (y & 0x20 != 0))
    ensures ((x ^ y) & 0x40 != 0) == ((x & 0x40 != 0) != (y & 0x40 != 0))
    ensures ((x ^ y) & 0x80 != 0) == ((x & 0x80 != 0) != (y & 0x80 != 0))
  {
  }

  lemma Xor8At(x: bv8, y: bv8, i: int)
    ensures Bit8(x ^ y, i) == (Bit8(x, i) != Bit8(y, i))
  {
    XorMasks(x, y);
    var z := x ^ y;
    if i == 0 {
    } else if i == 1 {
    } else if i == 2 {
    } else if i == 3 {
    } else if i == 4 {
    } else if i == 5 {
    } else if i == 6 {
    } else if i == 7 {
    }
  }

  lemma Double8At(x: bv8, i: int)
    ensures Bit8(x << 1, i) == (i != 8 && Bit8(x, i - 1))
  {
  }

  lemma LowXor16(x: bv16, y: bv16)
    ensures LowByte(x ^ y) == LowByte(x) ^ LowByte(y)
  {
  }

  lemma HighXor16(x: bv16, y: bv16)
    ensures HighByte(x ^ y) == HighByte(x) ^ HighByte(y)
  {
  }

  lemma LowDouble16(x: bv16)
    ensures LowByte(x << 1) == LowByte(x) << 1
  {
  }

  lemma HighDouble16(x: bv16)
    ensures HighByte(x << 1) == (HighByte(x) << 1) ^ (LowByte(x) >> 7)
  {
  }

  lemma Xor16At(x: bv16, y: bv16, i: int)
    ensures Bit16(x ^ y, i) == (Bit16(x, i) != Bit16(y, i))
  {
    hide Bit8, LowByte, HighByte;
    LowXor16(x, y);
    HighXor16(x, y);
    Xor8At(LowByte(x), LowByte(y), i);
    Xor8At(HighByte(x), HighByte(y), i - 8);
  }

  lemma Carry8At(x: bv8, i: int)
    ensures Bit8(x >> 7, i) == (i == 0 && Bit8(x, 7))
  {
  }

  lemma Double16At(x: bv16, i: int)
    ensures Bit16(x << 1, i) == (i != 16 && Bit16(x, i - 1))
  {
    hide Bit8, LowByte, HighByte;
    LowDouble16(x);
    HighDouble16(x);
    Range8(LowByte(x), i);
    Range8(HighByte(x), i - 8);
    Double8At(LowByte(x), i);
    Double8At(HighByte(x), i - 8);
    Xor8At(HighByte(x) << 1, LowByte(x) >> 7, i - 8);
    Carry8At(LowByte(x), i - 8);
  }

  lemma Range8(x: bv8, i: int)
    ensures Bit8(x, i) ==> 0 <= i < 8
    ensures !Bit8(x, -1)
  {
  }

  lemma Range16(x: bv16, i: int)
    ensures Bit16(x, i) ==> 0 <= i < 16
    ensures !Bit16(x, -1)
  {
  }

  lemma LowXor32(x: bv32, y: bv32)
    ensures LowHalf(x ^ y) == LowHalf(x) ^ LowHalf(y)
  {
  }

  lemma HighXor32(x: bv32, y: bv32)
    ensures HighHalf(x ^ y) == HighHalf(x) ^ HighHalf(y)
  {
  }

  lemma LowDouble32(x: bv32)
    ensures LowHalf(x << 1) == LowHalf(x) << 1
  {
  }

  /** The three operations on halves that doubling a word of 32 bits comes down to. */
  function Sum16(x: bv16, y: bv16): bv16 {
    x ^ y
  }

  function Twice16(x: bv16): bv16 {
    x << 1
  }

  function Carry16(x: bv16): bv16 {
    x >> 15
  }

  lemma HighDouble32(x: bv32)
    ensures HighHalf(x << 1) == Sum16(Twice16(HighHalf(x)), Carry16(LowHalf(x)))
  {
  }

  lemma Xor32At(x: bv32, y: bv32, i: int)
    ensures Bit32(x ^ y, i) == (Bit32(x, i) != Bit32(y, i))
  {
    hide Bit16, LowHalf, HighHalf;
    LowXor32(x, y);
    HighXor32(x, y);
    Xor16At(LowHalf(x), LowHalf(y), i);
    Xor16At(HighHalf(x), HighHalf(y), i - 16);
  }

  lemma Sum16At(x: bv16, y: bv16, i: int)
    ensures Bit16(Sum16(x, y), i) == (Bit16(x, i) != Bit16(y, i))
  {
    hide Bit16;
    Xor16At(x, y, i);
  }

  lemma Twice16At(x: bv16, i: int)
    ensures Bit16(Twice16(x), i) == (i != 16 && Bit16(x, i - 1))
  {
    hide Bit16;
    Double16At(x, i);
  }

  lemma Carry16At(x: bv16, i: int)
    ensures Bit16(Carry16(x), i) == (i == 0 && Bit16(x, 15))
  {
  }

  lemma Double32At(x: bv32, i: int)
    ensures Bit32(x << 1, i) == (i != 32 && Bit32(x, i - 1))
  {
    var low, high := LowHalf(x), HighHalf(x);
    hide Bit16, LowHalf, HighHalf, Sum16, Twice16, Carry16;
    if i < 16 {
      LowDouble32(x);
      Double16At(low, i);
    } else {
      HighDouble32(x);
      Sum16At(Twice16(high), Carry16(low), i - 16);
      Twice16At(high, i - 16);
      Carry16At(low, i - 16);
      Range16(high, i - 17);
    }
  }

  lemma Range32(x: bv32, i: int)
    ensures Bit32(x, i) ==> 0 <= i < 32
    ensures !Bit32(x, -1)
  {
  }

  // ---- Bit reversal ----

  function Bitrev8(x: bv8): bv8 {
    BitrevEntry(x)
  }

  function Bitrev16(x: bv16): bv16 {
    (Bitrev8((x & 0xff) as bv8) as bv16 << 8) | Bitrev8((x >> 8) as bv8) as bv16
  }

  function Bitrev32(x: bv32): bv32 {
    (Bitrev16((x & 0xffff) as bv16) as bv32 << 16) | Bitrev16((x >> 16) as bv16) as bv32
  }

  function Reversed(p: Poly): (r: Poly)
    ensures |r| == |p|
  {
    seq(|p|, i requires 0 <= i < |p| => p[|p| - 1 - i])
  }

  lemma ReversedConcat(p: Poly, q: Poly)
    ensures Reversed(p + q) == Reversed(q) + Reversed(p)
  {
  }

  lemma ReversedTwice(p: Poly)
    ensures Reversed(Reversed(p)) == p
  {
  }

  lemma Mirror8At(x: bv8, i: int)
    ensures Bit8(Mirror8(x), i) == Bit8(x, 7 - i)
  {
  }

  /** bitrev puts bit i of the word at bit 7 - i, 15 - i, or 31 - i. */
  lemma Bitrev8Reverses(x: bv8)
    ensures Bits8(Bitrev8(x)) == Reversed(Bits8(x))
  {
    hide BitrevEntry, Mirror8, Bit8;
    BitrevTableIsMirror(x);
    forall i | 0 <= i < 8 ensures Bits8(Bitrev8(x))[i] == Bits8(x)[7 - i] {
      Mirror8At(x, i);
    }
  }

  lemma Bitrev16Reverses(x: bv16)
    ensures Bits16(Bitrev16(x)) == Reversed(Bits16(x))
  {
    var low, high, y := LowByte(x), HighByte(x), Bitrev16(x);
    assert LowByte(y) == Bitrev8(high) && HighByte(y) == Bitrev8(low) by {
      hide Bitrev8;
    }
    hide *;
    Bits16Halves(x);
    Bits16Halves(y);
    Bitrev8Reverses(low);
    Bitrev8Reverses(high);
    ReversedConcat(Bits8(low), Bits8(high));
  }

  lemma Bitrev32Reverses(x: bv32)
    ensures Bits32(Bitrev32(x)) == Reversed(Bits32(x))
  {
    var low, high, y := LowHalf(x), HighHalf(x), Bitrev32(x);
    assert LowHalf(y) == Bitrev16(high) && HighHalf(y) == Bitrev16(low) by {
      hide Bitrev16;
    }
    hide *;
    Bits32Halves(x);
    Bits32Halves(y);
    Bitrev16Reverses(low);
    Bitrev16Reverses(high);
    ReversedConcat(Bits16(low), Bits16(high));
  }

  /** Reversing the bits twice is no change. */
  lemma BitrevTwice(x: bv8, y: bv16, z: bv32)
    ensures Bitrev8(Bitrev8(x)) == x && Bitrev16(Bitrev16(y)) == y && Bitrev32(Bitrev32(z)) == z
  {
    hide *;
    Bitrev8Reverses(x);
    Bitrev8Reverses(Bitrev8(x));
    ReversedTwice(Bits8(x));
    Bits8Injective(Bitrev8(Bitrev8(x)), x);
    Bitrev16Reverses(y);
    Bitrev16Reverses(Bitrev16(y));
    ReversedTwice(Bits16(y));
    Bits16Injective(Bitrev16(Bitrev16(y)), y);
    Bitrev32Reverses(z);
    Bitrev32Reverses(Bitrev32(z));
    ReversedTwice(Bits32(z));
    Bits32Injective(Bitrev32(Bitrev32(z)), z);
  }
}
