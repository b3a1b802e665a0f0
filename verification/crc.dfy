/** The cyclic redundancy checks of 7, 16 and 32 bits. */
module Crc {
  import opened BitTables
  import opened Polynomials
  import opened WordBits

  /** x^8 + x^4 + x, which is x times x^7 + x^3 + 1. */
  const GENERATOR_7: Poly := [
    false, true, false, false, true, false, false, false, true
  ]

  /** x^16 + x^12 + x^5 + 1. */
  const GENERATOR_16: Poly := [
    true, false, false, false, false, true, false, false,
    false, false, false, false, true, false, false, false, true
  ]

  /** x^32 + x^26 + x^23 + x^22 + x^16 + x^12 + x^11 + x^10 + x^8 + x^7 + x^5 + x^4 + x^2 + x + 1. */
  const GENERATOR_32: Poly := [
    true, true, true, false, true, true, false, true,
    true, false, true, true, true, false, false, false,
    true, false, false, false, false, false, true, true,
    false, false, true, false, false, false, false, false, true
  ]

  /** The bits of a message, the last bit first; every byte sends its highest bit first. */
  function Message(buffer: seq<bv8>): Poly {
    if buffer == [] then [] else
      var n := |buffer| - 1;
      Bits8(buffer[n]) + Message(buffer[..n])
  }

  /** The same with every byte sending its lowest bit first. */
  function MirroredMessage(buffer: seq<bv8>): Poly {
    if buffer == [] then [] else
      var n := |buffer| - 1;
      Reversed(Bits8(buffer[n])) + MirroredMessage(buffer[..n])
  }

  lemma FeedByte(r: Poly, byte: Poly, g: Poly)
    requires Generator(g, |r|) && |byte| == 8
    ensures FeedAll(r, byte, g) ==
      Feed(Feed(Feed(Feed(Feed(Feed(Feed(Feed(r, byte[7], g), byte[6], g), byte[5], g), byte[4], g),
      byte[3], g), byte[2], g), byte[1], g), byte[0], g)
  {
    assert byte[1..][1..] == byte[2..];
    assert byte[2..][1..] == byte[3..];
    assert byte[3..][1..] == byte[4..];
    assert byte[4..][1..] == byte[5..];
    assert byte[5..][1..] == byte[6..];
    assert byte[6..][1..] == byte[7..];
    assert byte[7..][1..] == [];
    hide Feed;
    assert FeedAll(r, byte[7..], g) == Feed(r, byte[7], g);
    assert FeedAll(r, byte[6..], g) == Feed(FeedAll(r, byte[7..], g), byte[6], g);
    assert FeedAll(r, byte[5..], g) == Feed(FeedAll(r, byte[6..], g), byte[5], g);
    assert FeedAll(r, byte[4..], g) == Feed(FeedAll(r, byte[5..], g), byte[4], g);
    assert FeedAll(r, byte[3..], g) == Feed(FeedAll(r, byte[4..], g), byte[3], g);
    assert FeedAll(r, byte[2..], g) == Feed(FeedAll(r, byte[3..], g), byte[2], g);
    assert FeedAll(r, byte[1..], g) == Feed(FeedAll(r, byte[2..], g), byte[1], g);
  }

  // ---- crc7 ----

  /** The register of crc7 after one more byte. */
  function Crc7Next(crc: bv8, byte: bv8): bv8 {
    Crc7Entry(crc ^ byte)
  }

  function Crc7Of(buffer: seq<bv8>, crc: bv8): bv8 {
    if buffer == [] then crc else
      var n := |buffer| - 1;
      Crc7Next(Crc7Of(buffer[..n], crc), buffer[n])
  }

  method Crc7(buffer: array<bv8>, len: nat, crc: bv8) returns (r: bv8)
    requires len <= buffer.Length
    ensures r == Crc7Of(buffer[..len], crc)
  {
    hide Crc7Next;
    r := crc;
    var i := 0;
    while i < len
      invariant 0 <= i <= len && r == Crc7Of(buffer[..i], crc)
    {
      ghost var s := buffer[..i + 1];
      assert s[..i] == buffer[..i];
      r := Crc7Next(r, buffer[i]);
      i := i + 1;
    }
  }

  lemma Step7At(c: bv8, bit: bool, i: int)
    ensures Bit8(Step7(c, bit), i) ==
      ((i != 8 && Bit8(c, i - 1)) != (((c & 0x80 != 0) != bit) && Bit8(0x12, i)))
  {
    hide Bit8;
    Double8At(c, i);
    Xor8At(c << 1, 0x12, i);
  }

  lemma Generator7At(i: int)
    requires 0 <= i < 8
    ensures GENERATOR_7[i] == Bit8(0x12, i)
  {
  }

  lemma Top8(c: bv8)
    ensures Bits8(c)[7] == (c & 0x80 != 0)
  {
  }

  /** A step of the 8 bit register is a step of the division. */
  lemma Step7Feeds(c: bv8, bit: bool)
    ensures Bits8(Step7(c, bit)) == Feed(Bits8(c), bit, GENERATOR_7)
  {
    var r, s := Bits8(c), Bits8(Step7(c, bit));
    Top8(c);
    forall i | 0 <= i < 8
      ensures s[i] == ((i > 0 && r[i - 1]) != ((r[7] != bit) && GENERATOR_7[i]))
    {
      hide Bit8, Step7;
      Step7At(c, bit, i);
      Generator7At(i);
      Range8(c, i - 1);
    }
    hide Bits8, Step7, Feed;
    IsFeed(r, bit, GENERATOR_7, s);
  }

  lemma Zeros7Feed(c: bv8)
    ensures Bits8(Zeros7(c)) == FeedAll(Bits8(c), ZeroBits(8), GENERATOR_7)
  {
    FeedByte(Bits8(c), ZeroBits(8), GENERATOR_7);
    hide Step7, Feed, FeedAll, Bits8;
    var c1 := Step7(c, false);
    var c2 := Step7(c1, false);
    var c3 := Step7(c2, false);
    var c4 := Step7(c3, false);
    var c5 := Step7(c4, false);
    var c6 := Step7(c5, false);
    var c7 := Step7(c6, false);
    Step7Feeds(c, false);
    Step7Feeds(c1, false);
    Step7Feeds(c2, false);
    Step7Feeds(c3, false);
    Step7Feeds(c4, false);
    Step7Feeds(c5, false);
    Step7Feeds(c6, false);
    Step7Feeds(c7, false);
  }

  lemma Xor8(x: bv8, y: bv8)
    ensures Bits8(x ^ y) == Plus(Bits8(x), Bits8(y))
  {
    hide Bit8;
    forall i ensures Bit8(x ^ y, i) == (Bit8(x, i) != Bit8(y, i)) {
      Xor8At(x, y, i);
    }
    IsPlus(Bits8(x), Bits8(y), Bits8(x ^ y));
  }

  /** The table step feeds the eight bits of the byte. */
  lemma Crc7Byte(c: bv8, b: bv8)
    ensures Bits8(Crc7Next(c, b)) == FeedAll(Bits8(c), Bits8(b), GENERATOR_7)
  {
    assert |Bits8(c)| == 8 && |Bits8(b)| == 8 && Generator(GENERATOR_7, 8);
    assert Crc7Next(c, b) == Crc7Entry(c ^ b);
    hide *;
    Crc7TableIsSteps(c ^ b);
    Zeros7Feed(c ^ b);
    Xor8(c, b);
    ZerosAbsorb(Bits8(c), Bits8(b), 8, GENERATOR_7);
    PlusZeros(FeedAll(Bits8(c), Bits8(b), GENERATOR_7));
    assert Bits8(b)[0..] == Bits8(b);
    assert ZeroBits(8) + Bits8(b)[..0] == ZeroBits(8);
  }

  /** The check of a message in two parts. */
  lemma {:induction false} Crc7Chains(a: seq<bv8>, b: seq<bv8>, crc: bv8)
    ensures Crc7Of(a + b, crc) == Crc7Of(b, Crc7Of(a, crc))
  {
    hide Crc7Next;
    if b == [] {
      assert a + b == a;
    } else {
      var n, s := |b| - 1, a + b;
      assert s[..|s| - 1] == a + b[..n] && s[|s| - 1] == b[n];
      Crc7Chains(a, b[..n], crc);
    }
  }

  lemma {:induction false} Crc7Feeds(buffer: seq<bv8>, crc: bv8)
    ensures Bits8(Crc7Of(buffer, crc)) == FeedAll(Bits8(crc), Message(buffer), GENERATOR_7)
  {
    if buffer != [] {
      var n := |buffer| - 1;
      var before, byte := Crc7Of(buffer[..n], crc), buffer[n];
      Crc7Feeds(buffer[..n], crc);
      hide FeedAll, Bits8, Bits8, Crc7Next;
      Crc7Byte(before, byte);
      FeedConcat(Bits8(crc), Message(buffer[..n]), Bits8(byte), GENERATOR_7);
    }
  }

  /** What crc7 returns is the one remainder, below degree 8, of the dividend by x (x^7 + x^3 + 1). */
  lemma Crc7IsTheRemainder(buffer: seq<bv8>, crc: bv8)
    ensures var p := Dividend(Bits8(crc), Message(buffer));
      forall r: Poly :: |r| == 8 ==>
        ((exists q :: Same(p, Sum(Product(q, GENERATOR_7), r))) <==> r == Bits8(Crc7Of(buffer, crc)))
  {
    var p, start := Dividend(Bits8(crc), Message(buffer)), Bits8(crc);
    var q', r' := Quotient(start, Message(buffer), GENERATOR_7), Bits8(Crc7Of(buffer, crc));
    hide Dividend, Quotient, FeedAll, Same, Bits8, Crc7Of;
    Crc7Feeds(buffer, crc);
    RegisterHoldsRemainder(start, Message(buffer), GENERATOR_7);
    assert Same(p, Sum(Product(q', GENERATOR_7), r'));
    forall q: Poly, r: Poly | |r| == 8 && Same(p, Sum(Product(q, GENERATOR_7), r)) ensures r == r' {
      RemainderIsUnique(p, q, r, q', r', GENERATOR_7);
    }
  }

  /** x^7 + x^3 + 1. */
  const GENERATOR_7_BITS: Poly := [true, false, false, true, false, false, false, true]

  /** Started with a zero in the lowest bit, crc7 keeps it zero and holds a seven bit check in the bits above. */
  lemma Crc7UpperSevenBits(buffer: seq<bv8>, crc: bv8)
    requires crc & 0x01 == 0
    ensures Crc7Of(buffer, crc) & 0x01 == 0
    ensures Bits8(Crc7Of(buffer, crc))[1..] == FeedAll(Bits8(crc)[1..], Message(buffer), GENERATOR_7_BITS)
  {
    var r := Bits8(crc)[1..];
    assert [false] + r == Bits8(crc);
    assert [false] + GENERATOR_7_BITS == GENERATOR_7;
    assert (Crc7Of(buffer, crc) & 0x01 == 0) == !Bits8(Crc7Of(buffer, crc))[0];
    hide Bits8, Crc7Of, FeedAll;
    Crc7Feeds(buffer, crc);
    ShiftedRegister(r, Message(buffer), GENERATOR_7_BITS);
  }

  // ---- crc16 ----

  /** The register of crc16 after one more byte. */
  function Crc16Next(crc: bv16, byte: bv8): bv16 {
    (crc << 8) ^ Crc16Entry((((crc >> 8) ^ (byte as bv16)) & 0xff) as bv8)
  }

  function Crc16Of(buffer: seq<bv8>, crc: bv16): bv16 {
    if buffer == [] then crc else
      var n := |buffer| - 1;
      Crc16Next(Crc16Of(buffer[..n], crc), buffer[n])
  }

  method Crc16(buffer: array<bv8>, len: nat, crc: bv16) returns (r: bv16)
    requires len <= buffer.Length
    ensures r == Crc16Of(buffer[..len], crc)
  {
    hide Crc16Next;
    r := crc;
    var i := 0;
    while i < len
      invariant 0 <= i <= len && r == Crc16Of(buffer[..i], crc)
    {
      ghost var s := buffer[..i + 1];
      assert s[..i] == buffer[..i];
      r := Crc16Next(r, buffer[i]);
      i := i + 1;
    }
  }

  lemma Step16At(c: bv16, bit: bool, i: int)
    ensures Bit16(Step16(c, bit), i) ==
      ((i != 16 && Bit16(c, i - 1)) != (((c & 0x8000 != 0) != bit) && Bit16(0x1021, i)))
  {
    hide Bit16;
    Double16At(c, i);
    Xor16At(c << 1, 0x1021, i);
  }

  lemma Generator16At(i: int)
    requires 0 <= i < 16
    ensures GENERATOR_16[i] == Bit16(0x1021, i)
  {
  }

  lemma Top16(c: bv16)
    ensures Bits16(c)[15] == (c & 0x8000 != 0)
  {
  }

  /** A step of the 16 bit register is a step of the division. */
  lemma Step16Feeds(c: bv16, bit: bool)
    ensures Bits16(Step16(c, bit)) == Feed(Bits16(c), bit, GENERATOR_16)
  {
    var r, s := Bits16(c), Bits16(Step16(c, bit));
    Top16(c);
    forall i | 0 <= i < 16
      ensures s[i] == ((i > 0 && r[i - 1]) != ((r[15] != bit) && GENERATOR_16[i]))
    {
      hide Bit16, Step16;
      Step16At(c, bit, i);
      Generator16At(i);
      Range16(c, i - 1);
    }
    hide Bits16, Step16, Feed;
    IsFeed(r, bit, GENERATOR_16, s);
  }

  lemma Zeros16Feed(c: bv16)
    ensures Bits16(Zeros16(c)) == FeedAll(Bits16(c), ZeroBits(8), GENERATOR_16)
  {
    FeedByte(Bits16(c), ZeroBits(8), GENERATOR_16);
    hide Step16, Feed, FeedAll, Bits16;
    var c1 := Step16(c, false);
    var c2 := Step16(c1, false);
    var c3 := Step16(c2, false);
    var c4 := Step16(c3, false);
    var c5 := Step16(c4, false);
    var c6 := Step16(c5, false);
    var c7 := Step16(c6, false);
    Step16Feeds(c, false);
    Step16Feeds(c1, false);
    Step16Feeds(c2, false);
    Step16Feeds(c3, false);
    Step16Feeds(c4, false);
    Step16Feeds(c5, false);
    Step16Feeds(c6, false);
    Step16Feeds(c7, false);
  }

  lemma Xor16(x: bv16, y: bv16)
    ensures Bits16(x ^ y) == Plus(Bits16(x), Bits16(y))
  {
    hide Bit16;
    forall i ensures Bit16(x ^ y, i) == (Bit16(x, i) != Bit16(y, i)) {
      Xor16At(x, y, i);
    }
    IsPlus(Bits16(x), Bits16(y), Bits16(x ^ y));
  }

  lemma NoBits()
    ensures Bits8(0) == ZeroBits(8)
  {
  }

  lemma MovedUp(low: bv8, c: bv16)
    ensures Bits16((low as bv16) << 8) == ZeroBits(8) + Bits8(low)
    ensures Bits16(c << 8) == ZeroBits(8) + Bits8(LowByte(c))
  {
    assert LowByte((low as bv16) << 8) == 0 && HighByte((low as bv16) << 8) == low;
    assert LowByte(c << 8) == 0 && HighByte(c << 8) == LowByte(c);
    hide *;
    Bits16Halves((low as bv16) << 8);
    Bits16Halves(c << 8);
    NoBits();
  }

  /** The index into the table is computed in the width of the register and then cut to a byte. */
  lemma Crc16Index(crc: bv16, byte: bv8)
    ensures (((crc >> 8) ^ (byte as bv16)) & 0xff) as bv8 == HighByte(crc) ^ byte
  {
  }

  lemma Crc16NextIs(c: bv16, b: bv8)
    ensures Crc16Next(c, b) == (c << 8) ^ Crc16Entry(HighByte(c) ^ b)
  {
    hide HighByte, Crc16Entry;
    Crc16Index(c, b);
  }

  lemma Crc16NextBits(c: bv16, b: bv8)
    ensures Bits16(Crc16Next(c, b)) == Plus(ZeroBits(8) + Bits8(LowByte(c)), Bits16(Crc16Entry(HighByte(c) ^ b)))
  {
    hide *;
    Crc16NextIs(c, b);
    Xor16(c << 8, Crc16Entry(HighByte(c) ^ b));
    MovedUp(0, c);
  }

  lemma Crc16EntryBits(i: bv8)
    ensures Bits16(Crc16Entry(i)) == FeedAll(ZeroBits(8) + Bits8(i), ZeroBits(8), GENERATOR_16)
  {
    hide *;
    Crc16TableIsSteps(i);
    Zeros16Feed((i as bv16) << 8);
    MovedUp(i, 0);
  }

  /** The table step feeds the eight bits of the byte. */
  lemma Crc16Byte(c: bv16, b: bv8)
    ensures Bits16(Crc16Next(c, b)) == FeedAll(Bits16(c), Bits8(b), GENERATOR_16)
  {
    assert |Bits16(c)| == 16 && Generator(GENERATOR_16, 16);
    hide *;
    Crc16NextBits(c, b);
    Crc16EntryBits(HighByte(c) ^ b);
    Xor8(HighByte(c), b);
    Bits16Halves(c);
    Crc16ByteBits(Bits8(LowByte(c)), Bits8(HighByte(c)), Bits8(b));
  }

  /** The same on lists: the low byte moves up, and the sum of high byte and message byte goes through the register. */
  lemma Crc16ByteBits(low: Poly, high: Poly, byte: Poly)
    requires |low| == |high| == |byte| == 8
    ensures Plus(ZeroBits(8) + low, FeedAll(ZeroBits(8) + Plus(high, byte), ZeroBits(8), GENERATOR_16))
         == FeedAll(low + high, byte, GENERATOR_16)
  {
    var g, z := GENERATOR_16, ZeroBits(8);
    assert Generator(g, 16) && z + z == ZeroBits(16);
    hide *;
    var r, t, c, m := z + Plus(high, byte), low + z, low + high, z + byte;
    PlusZeros(low);
    PlusZeros(Plus(high, byte));
    PlusConcat(z, Plus(high, byte), low, z);
    PlusConcat(low, high, z, byte);
    assert Plus(r, t) == Plus(c, m);
    assert t[8..] == z && t[..8] == low && m[8..] == byte && m[..8] == z;
    ZerosAbsorb(r, t, 8, g);
    ZerosAbsorb(c, m, 8, g);
    PlusZeros(FeedAll(c, byte, g));
    PlusCommutes(FeedAll(r, z, g), z + low);
  }

  /** The check of a message in two parts. */
  lemma {:induction false} Crc16Chains(a: seq<bv8>, b: seq<bv8>, crc: bv16)
    ensures Crc16Of(a + b, crc) == Crc16Of(b, Crc16Of(a, crc))
  {
    hide Crc16Next;
    if b == [] {
      assert a + b == a;
    } else {
      var n, s := |b| - 1, a + b;
      assert s[..|s| - 1] == a + b[..n] && s[|s| - 1] == b[n];
      Crc16Chains(a, b[..n], crc);
    }
  }

  lemma {:induction false} Crc16Feeds(buffer: seq<bv8>, crc: bv16)
    ensures Bits16(Crc16Of(buffer, crc)) == FeedAll(Bits16(crc), Message(buffer), GENERATOR_16)
  {
    if buffer != [] {
      var n := |buffer| - 1;
      var before, byte := Crc16Of(buffer[..n], crc), buffer[n];
      Crc16Feeds(buffer[..n], crc);
      hide FeedAll, Bits16, Bits8, Crc16Next;
      Crc16Byte(before, byte);
      FeedConcat(Bits16(crc), Message(buffer[..n]), Bits8(byte), GENERATOR_16);
    }
  }

  /** What crc16 returns is the one remainder, below degree 16, of the dividend by its generator. */
  lemma Crc16IsTheRemainder(buffer: seq<bv8>, crc: bv16)
    ensures var p := Dividend(Bits16(crc), Message(buffer));
      forall r: Poly :: |r| == 16 ==>
        ((exists q :: Same(p, Sum(Product(q, GENERATOR_16), r))) <==> r == Bits16(Crc16Of(buffer, crc)))
  {
    var p, start := Dividend(Bits16(crc), Message(buffer)), Bits16(crc);
    var q', r' := Quotient(start, Message(buffer), GENERATOR_16), Bits16(Crc16Of(buffer, crc));
    hide Dividend, Quotient, FeedAll, Same, Bits16, Crc16Of;
    Crc16Feeds(buffer, crc);
    RegisterHoldsRemainder(start, Message(buffer), GENERATOR_16);
    assert Same(p, Sum(Product(q', GENERATOR_16), r'));
    forall q: Poly, r: Poly | |r| == 16 && Same(p, Sum(Product(q, GENERATOR_16), r)) ensures r == r' {
      RemainderIsUnique(p, q, r, q', r', GENERATOR_16);
    }
  }

  // ---- crc32 ----

  function Step32(crc: bv32, bit: bool): bv32 {
    if (crc & 0x80000000 != 0) != bit then (crc << 1) ^ 0x04c11db7 else crc << 1
  }

  /** n steps that take the bits of a byte, the lowest first. */
  function Steps32(crc: bv32, byte: bv8, n: nat): bv32
    decreases n
  {
    if n == 0 then crc else Steps32(Step32(crc, byte & 0x01 != 0), byte >> 1, n - 1)
  }

  function Crc32Next(crc: bv32, byte: bv8): bv32 {
    Steps32(crc, byte, 8)
  }

  function Crc32Of(buffer: seq<bv8>, crc: bv32): bv32 {
    if buffer == [] then crc else
      var n := |buffer| - 1;
      Crc32Next(Crc32Of(buffer[..n], crc), buffer[n])
  }

  lemma Crc32Test(crc: bv32, byte: bv8)
    ensures (((crc >> 31) ^ (byte as bv32)) & 1 != 0) == ((crc & 0x80000000 != 0) != (byte & 0x01 != 0))
  {
  }

  method Crc32(buffer: array<bv8>, len: nat, crc: bv32) returns (r: bv32)
    requires len <= buffer.Length
    ensures r == Crc32Of(buffer[..len], crc)
  {
    r := crc;
    for i := 0 to len
      invariant r == Crc32Of(buffer[..i], crc)
    {
      ghost var s := buffer[..i + 1];
      assert s[..i] == buffer[..i];
      var byte := buffer[i];
      ghost var before := r;
      for j := 0 to 8
        invariant Steps32(r, byte, 8 - j) == Steps32(before, buffer[i], 8)
      {
        Crc32Test(r, byte);
        if ((r >> 31) ^ (byte as bv32)) & 1 != 0 {
          r := (r << 1) ^ 0x04c11db7;
        } else {
          r := r << 1;
        }
        byte := byte >> 1;
      }
    }
  }

  lemma Step32At(c: bv32, bit: bool, i: int)
    ensures Bit32(Step32(c, bit), i) ==
      ((i != 32 && Bit32(c, i - 1)) != (((c & 0x80000000 != 0) != bit) && Bit32(0x04c11db7, i)))
  {
    hide Bit32;
    Double32At(c, i);
    Xor32At(c << 1, 0x04c11db7, i);
  }

  lemma Generator32At(i: int)
    requires 0 <= i < 32
    ensures GENERATOR_32[i] == Bit32(0x04c11db7, i)
  {
  }

  lemma Top32(c: bv32)
    ensures Bits32(c)[31] == (c & 0x80000000 != 0)
  {
  }

  /** A step of the 32 bit register is a step of the division. */
  lemma Step32Feeds(c: bv32, bit: bool)
    ensures Bits32(Step32(c, bit)) == Feed(Bits32(c), bit, GENERATOR_32)
  {
    var r, s := Bits32(c), Bits32(Step32(c, bit));
    Top32(c);
    forall i | 0 <= i < 32
      ensures s[i] == ((i > 0 && r[i - 1]) != ((r[31] != bit) && GENERATOR_32[i]))
    {
      hide Bit32, Step32;
      Step32At(c, bit, i);
      Generator32At(i);
      Range32(c, i - 1);
    }
    hide Bits32, Step32, Feed;
    IsFeed(r, bit, GENERATOR_32, s);
  }

  lemma HalvedAt(b: bv8, i: int)
    requires 0 <= i
    ensures Bit8(b >> 1, i) == Bit8(b, i + 1)
  {
  }

  lemma ReversedCons(bit: bool, p: Poly)
    ensures Reversed([bit] + p) == Reversed(p) + [bit]
  {
    ReversedConcat([bit], p);
    assert Reversed([bit]) == [bit];
  }

  lemma ReversedBits(b: bv8, n: nat)
    requires 0 < n <= 8
    ensures Reversed(Bits8(b)[..n]) == Reversed(Bits8(b >> 1)[..n - 1]) + [b & 0x01 != 0]
  {
    assert Bit8(b, 0) == (b & 0x01 != 0);
    hide Bit8;
    var p, q := Bits8(b)[..n], Bits8(b >> 1)[..n - 1];
    forall i | 0 <= i < n - 1 ensures q[i] == p[i + 1] {
      HalvedAt(b, i);
    }
    assert p == [b & 0x01 != 0] + q;
    ReversedCons(b & 0x01 != 0, q);
  }

  /** The inner loop feeds the bits of a byte, the lowest first. */
  lemma {:induction false} Steps32Feed(c: bv32, b: bv8, n: nat)
    requires n <= 8
    ensures Bits32(Steps32(c, b, n)) == FeedAll(Bits32(c), Reversed(Bits8(b)[..n]), GENERATOR_32)
    decreases n
  {
    if n == 0 {
      assert Reversed(Bits8(b)[..0]) == [];
    } else {
      var bit: Poly := [b & 0x01 != 0];
      var next, rest := Step32(c, bit[0]), Reversed(Bits8(b >> 1)[..n - 1]);
      assert Steps32(c, b, n) == Steps32(next, b >> 1, n - 1);
      assert bit[1..] == [];
      assert FeedAll(Bits32(c), bit, GENERATOR_32) == Feed(Bits32(c), bit[0], GENERATOR_32);
      hide Bits32, Bits8, FeedAll, Feed, Step32, Steps32, Reversed;
      Steps32Feed(next, b >> 1, n - 1);
      ReversedBits(b, n);
      Step32Feeds(c, bit[0]);
      FeedConcat(Bits32(c), bit, rest, GENERATOR_32);
    }
  }

  lemma Crc32Byte(c: bv32, b: bv8)
    ensures Bits32(Crc32Next(c, b)) == FeedAll(Bits32(c), Reversed(Bits8(b)), GENERATOR_32)
  {
    Steps32Feed(c, b, 8);
    assert Bits8(b)[..8] == Bits8(b);
  }

  /** The check of a message in two parts. */
  lemma {:induction false} Crc32Chains(a: seq<bv8>, b: seq<bv8>, crc: bv32)
    ensures Crc32Of(a + b, crc) == Crc32Of(b, Crc32Of(a, crc))
  {
    hide Crc32Next;
    if b == [] {
      assert a + b == a;
    } else {
      var n, s := |b| - 1, a + b;
      assert s[..|s| - 1] == a + b[..n] && s[|s| - 1] == b[n];
      Crc32Chains(a, b[..n], crc);
    }
  }

  lemma {:induction false} Crc32Feeds(buffer: seq<bv8>, crc: bv32)
    ensures Bits32(Crc32Of(buffer, crc)) == FeedAll(Bits32(crc), MirroredMessage(buffer), GENERATOR_32)
  {
    if buffer != [] {
      var n := |buffer| - 1;
      var before, byte := Crc32Of(buffer[..n], crc), buffer[n];
      Crc32Feeds(buffer[..n], crc);
      hide FeedAll, Bits32, Bits8, Crc32Next;
      Crc32Byte(before, byte);
      FeedConcat(Bits32(crc), MirroredMessage(buffer[..n]), Reversed(Bits8(byte)), GENERATOR_32);
    }
  }

  /** What crc32 returns is the one remainder, below degree 32, of the dividend by its generator. */
  lemma Crc32IsTheRemainder(buffer: seq<bv8>, crc: bv32)
    ensures var p := Dividend(Bits32(crc), MirroredMessage(buffer));
      forall r: Poly :: |r| == 32 ==>
        ((exists q :: Same(p, Sum(Product(q, GENERATOR_32), r))) <==> r == Bits32(Crc32Of(buffer, crc)))
  {
    var p, start := Dividend(Bits32(crc), MirroredMessage(buffer)), Bits32(crc);
    var q', r' := Quotient(start, MirroredMessage(buffer), GENERATOR_32), Bits32(Crc32Of(buffer, crc));
    hide Dividend, Quotient, FeedAll, Same, Bits32, Crc32Of;
    Crc32Feeds(buffer, crc);
    RegisterHoldsRemainder(start, MirroredMessage(buffer), GENERATOR_32);
    assert Same(p, Sum(Product(q', GENERATOR_32), r'));
    forall q: Poly, r: Poly | |r| == 32 && Same(p, Sum(Product(q, GENERATOR_32), r)) ensures r == r' {
      RemainderIsUnique(p, q, r, q', r', GENERATOR_32);
    }
  }

  // ---- The reflected form of crc32 ----

  /** A step of the register whose bits run the other way. */
  function MirrorStep(r: bv32, bit: bool): bv32 {
    if (r & 0x01 != 0) != bit then (r >> 1) ^ 0xedb88320 else r >> 1
  }

  function MirrorSteps(r: bv32, byte: bv8, n: nat): bv32
    decreases n
  {
    if n == 0 then r else MirrorSteps(MirrorStep(r, byte & 0x01 != 0), byte >> 1, n - 1)
  }

  function MirrorOf(buffer: seq<bv8>, r: bv32): bv32 {
    if buffer == [] then r else
      var n := |buffer| - 1;
      MirrorSteps(MirrorOf(buffer[..n], r), buffer[n], 8)
  }

  lemma LowestAt(x: bv32, i: int)
    ensures Bit32(x & 0x01, i) == (i == 0 && Bit32(x, 0))
  {
    assert x & 0x01 == 0 || x & 0x01 == 1;
    assert Bit32(x, 0) == (x & 0x01 != 0);
    if i != 0 {
      assert !Bit32(0, i) && !Bit32(1, i);
    }
  }

  lemma TopAfterHalving(x: bv32)
    ensures (x >> 1) << 1 == x ^ (x & 0x01) && !Bit32(x >> 1, 31)
  {
  }

  lemma Halve32At(x: bv32, i: int)
    requires 0 <= i < 32
    ensures Bit32(x >> 1, i) == Bit32(x, i + 1)
  {
    hide Bit32;
    TopAfterHalving(x);
    Range32(x, 32);
    if i < 31 {
      Double32At(x >> 1, i + 1);
      Xor32At(x, x & 0x01, i + 1);
      LowestAt(x, i + 1);
    }
  }

  lemma MirroredGenerator(i: int)
    requires 0 <= i < 32
    ensures Bit32(0xedb88320, i) == Bit32(0x04c11db7, 31 - i)
  {
  }

  lemma MirrorStepAt(r: bv32, bit: bool, i: int)
    requires 0 <= i < 32
    ensures Bit32(MirrorStep(r, bit), i) == (Bit32(r, i + 1) != ((Bit32(r, 0) != bit) && Bit32(0x04c11db7, 31 - i)))
  {
    assert Bit32(r, 0) == (r & 0x01 != 0);
    hide Bit32;
    Halve32At(r, i);
    Xor32At(r >> 1, 0xedb88320, i);
    MirroredGenerator(i);
  }

  lemma BitrevAt(x: bv32, i: int)
    ensures Bit32(Bitrev32(x), i) == Bit32(x, 31 - i)
  {
    hide Bit32, Bitrev32;
    Range32(Bitrev32(x), i);
    Range32(x, 31 - i);
    Bitrev32Reverses(x);
    if 0 <= i < 32 {
      assert Bits32(Bitrev32(x))[i] == Bits32(x)[31 - i];
    }
  }

  lemma Mirror32Step(c: bv32, bit: bool)
    ensures Bitrev32(Step32(c, bit)) == MirrorStep(Bitrev32(c), bit)
  {
    var x, y := Bitrev32(Step32(c, bit)), MirrorStep(Bitrev32(c), bit);
    assert (c & 0x80000000 != 0) == Bit32(c, 31);
    forall i | 0 <= i < 32 ensures Bit32(x, i) == Bit32(y, i) {
      hide Bit32, Step32, MirrorStep, Bitrev32;
      BitrevAt(Step32(c, bit), i);
      BitrevAt(c, i + 1);
      BitrevAt(c, 0);
      MirrorStepAt(Bitrev32(c), bit, i);
      Step32At(c, bit, 31 - i);
    }
    hide Bit32, Step32, MirrorStep, Bitrev32;
    assert Bits32(x) == Bits32(y);
    Bits32Injective(x, y);
  }

  lemma {:induction false} Mirror32Steps(c: bv32, b: bv8, n: nat)
    ensures Bitrev32(Steps32(c, b, n)) == MirrorSteps(Bitrev32(c), b, n)
    decreases n
  {
    hide Step32, MirrorStep, Bitrev32;
    if n > 0 {
      Mirror32Step(c, b & 0x01 != 0);
      Mirror32Steps(Step32(c, b & 0x01 != 0), b >> 1, n - 1);
    }
  }

  /** crc32 is the usual reflected check, read from and to the other end of the register. */
  lemma {:induction false} Crc32IsMirrored(buffer: seq<bv8>, crc: bv32)
    ensures Crc32Of(buffer, crc) == Bitrev32(MirrorOf(buffer, Bitrev32(crc)))
  {
    hide Steps32, MirrorSteps, Bitrev32;
    BitrevTwice(0, 0, crc);
    if buffer != [] {
      var n := |buffer| - 1;
      var before, byte := Crc32Of(buffer[..n], crc), buffer[n];
      Crc32IsMirrored(buffer[..n], crc);
      BitrevTwice(0, 0, MirrorOf(buffer[..n], Bitrev32(crc)));
      Mirror32Steps(before, byte, 8);
      BitrevTwice(0, 0, Steps32(before, byte, 8));
    }
  }

  // ---- Known values ----

  lemma Crc7StepsCommandZero()
    ensures Crc7Next(0x00, 0x40) == 0xc8
    ensures Crc7Next(0xc8, 0x00) == 0xda
    ensures Crc7Next(0xda, 0x00) == 0xcc
    ensures Crc7Next(0xcc, 0x00) == 0x92
    ensures Crc7Next(0x92, 0x00) == 0x94
  {
  }

  /** The check of the SD card command CMD0. */
  lemma Crc7OfCommandZero()
    ensures Crc7Of([0x40, 0x00, 0x00, 0x00, 0x00], 0x00) == 0x94
  {
    hide Crc7Next;
    Crc7StepsCommandZero();
    var s: seq<bv8> := [0x40, 0x00, 0x00, 0x00, 0x00];
    assert Crc7Of(s[..0], 0x00) == 0x00;
    assert s[..1][..0] == s[..0];
    assert Crc7Of(s[..1], 0x00) == 0xc8;
    assert s[..2][..1] == s[..1];
    assert Crc7Of(s[..2], 0x00) == 0xda;
    assert s[..3][..2] == s[..2];
    assert Crc7Of(s[..3], 0x00) == 0xcc;
    assert s[..4][..3] == s[..3];
    assert Crc7Of(s[..4], 0x00) == 0x92;
    assert s[..5][..4] == s[..4];
    assert Crc7Of(s[..5], 0x00) == 0x94;
    assert s[..5] == s;
  }

  lemma Crc16StepsDigitsFirst()
    ensures Crc16Next(0x0000, 0x31) == 0x2672
    ensures Crc16Next(0x2672, 0x32) == 0x20b5
    ensures Crc16Next(0x20b5, 0x33) == 0x9752
    ensures Crc16Next(0x9752, 0x34) == 0xd789
    ensures Crc16Next(0xd789, 0x35) == 0x546c
  {
  }

  lemma Crc16StepsDigitsLast()
    ensures Crc16Next(0x546c, 0x36) == 0x20e4
    ensures Crc16Next(0x20e4, 0x37) == 0x86d6
    ensures Crc16Next(0x86d6, 0x38) == 0x9015
    ensures Crc16Next(0x9015, 0x39) == 0x31c3
  {
  }

  /** The check of the digits 1 to 9. */
  lemma Crc16OfDigits()
    ensures Crc16Of([0x31, 0x32, 0x33, 0x34, 0x35, 0x36, 0x37, 0x38, 0x39], 0x0000) == 0x31c3
  {
    hide Crc16Next;
    Crc16StepsDigitsFirst();
    Crc16StepsDigitsLast();
    var s: seq<bv8> := [0x31, 0x32, 0x33, 0x34, 0x35, 0x36, 0x37, 0x38, 0x39];
    assert Crc16Of(s[..0], 0x0000) == 0x0000;
    assert s[..1][..0] == s[..0];
    assert Crc16Of(s[..1], 0x0000) == 0x2672;
    assert s[..2][..1] == s[..1];
    assert Crc16Of(s[..2], 0x0000) == 0x20b5;
    assert s[..3][..2] == s[..2];
    assert Crc16Of(s[..3], 0x0000) == 0x9752;
    assert s[..4][..3] == s[..3];
    assert Crc16Of(s[..4], 0x0000) == 0xd789;
    assert s[..5][..4] == s[..4];
    assert Crc16Of(s[..5], 0x0000) == 0x546c;
    assert s[..6][..5] == s[..5];
    assert Crc16Of(s[..6], 0x0000) == 0x20e4;
    assert s[..7][..6] == s[..6];
    assert Crc16Of(s[..7], 0x0000) == 0x86d6;
    assert s[..8][..7] == s[..7];
    assert Crc16Of(s[..8], 0x0000) == 0x9015;
    assert s[..9][..8] == s[..8];
    assert Crc16Of(s[..9], 0x0000) == 0x31c3;
    assert s[..9] == s;
  }

  lemma Crc32StepsDigitsFirst()
    ensures Crc32Next(0xffffffff, 0x31) == 0x1208c43e
    ensures Crc32Next(0x1208c43e, 0x32) == 0x4cdd350d
    ensures Crc32Next(0x4cdd350d, 0x33) == 0xb439edee
    ensures Crc32Next(0xb439edee, 0x34) == 0x3af83826
    ensures Crc32Next(0x3af83826, 0x35) == 0xc7a3502c
  {
  }

  lemma Crc32StepsDigitsLast()
    ensures Crc32Next(0xc7a3502c, 0x36) == 0x7934b16f
    ensures Crc32Next(0x7934b16f, 0x37) == 0x06693ff5
    ensures Crc32Next(0x06693ff5, 0x38) == 0x0aa4f8a6
    ensures Crc32Next(0x0aa4f8a6, 0x39) == 0x9b63d02c
  {
  }

  /** The check of the digits 1 to 9, as the tests of the repository expect it. */
  lemma Crc32OfDigits()
    ensures Crc32Of([0x31, 0x32, 0x33, 0x34, 0x35, 0x36, 0x37, 0x38, 0x39], 0xffffffff) == 0x9b63d02c
  {
    hide Crc32Next;
    Crc32StepsDigitsFirst();
    Crc32StepsDigitsLast();
    var s: seq<bv8> := [0x31, 0x32, 0x33, 0x34, 0x35, 0x36, 0x37, 0x38, 0x39];
    assert Crc32Of(s[..0], 0xffffffff) == 0xffffffff;
    assert s[..1][..0] == s[..0];
    assert Crc32Of(s[..1], 0xffffffff) == 0x1208c43e;
    assert s[..2][..1] == s[..1];
    assert Crc32Of(s[..2], 0xffffffff) == 0x4cdd350d;
    assert s[..3][..2] == s[..2];
    assert Crc32Of(s[..3], 0xffffffff) == 0xb439edee;
    assert s[..4][..3] == s[..3];
    assert Crc32Of(s[..4], 0xffffffff) == 0x3af83826;
    assert s[..5][..4] == s[..4];
    assert Crc32Of(s[..5], 0xffffffff) == 0xc7a3502c;
    assert s[..6][..5] == s[..5];
    assert Crc32Of(s[..6], 0xffffffff) == 0x7934b16f;
    assert s[..7][..6] == s[..6];
    assert Crc32Of(s[..7], 0xffffffff) == 0x06693ff5;
    assert s[..8][..7] == s[..7];
    assert Crc32Of(s[..8], 0xffffffff) == 0x0aa4f8a6;
    assert s[..9][..8] == s[..8];
    assert Crc32Of(s[..9], 0xffffffff) == 0x9b63d02c;
    assert s[..9] == s;
  }
}
