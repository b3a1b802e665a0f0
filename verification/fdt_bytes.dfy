/** Bytes, big-endian 32-bit words, padding and NUL-terminated strings. */
module FdtBytes {
  type Byte = x: int | 0 <= x < 256
  type Bytes = seq<Byte>
  type U32 = x: int | 0 <= x < 0x1_0000_0000

  /** Conversion to a 32-bit unsigned integer. */
  function Low32(x: nat): U32 {
    x % 0x1_0000_0000
  }

  lemma SmallLow32(x: nat)
    requires x < 0x1_0000_0000
    ensures Low32(x) == x
  {
  }

  function Be32(x: U32): (b: Bytes)
    ensures |b| == 4
  {
    [x / 0x100_0000, x / 0x1_0000 % 256, x / 256 % 256, x % 256]
  }

  function FromBe32(b: Bytes): U32
    requires |b| == 4
  {
    (b[0] as int) * 0x100_0000 + (b[1] as int) * 0x1_0000 + (b[2] as int) * 256 + b[3] as int
  }

  lemma Be32RoundTrip(x: U32)
    ensures FromBe32(Be32(x)) == x
  {
    assert x == x / 256 * 256 + x % 256;
    assert x / 256 == x / 0x1_0000 * 256 + x / 256 % 256;
    assert x / 0x1_0000 == x / 0x100_0000 * 256 + x / 0x1_0000 % 256;
  }

  lemma FromBe32RoundTrip(b: Bytes)
    requires |b| == 4
    ensures Be32(FromBe32(b)) == b
  {
    var x := FromBe32(b);
    assert x / 0x100_0000 == b[0];
    assert x / 0x1_0000 == (b[0] as int) * 256 + b[1] as int;
    assert x / 256 == (b[0] as int) * 0x1_0000 + (b[1] as int) * 256 + b[2] as int;
  }

  /** How many bytes are missing to the next multiple of four. */
  function Pad(n: nat): (k: nat)
    ensures k < 4 && (n + k) % 4 == 0
  {
    (4 - n % 4) % 4
  }

  lemma PadIsFirst(n: nat, m: nat)
    requires n <= m <= n + Pad(n) && m % 4 == 0
    ensures m == n + Pad(n)
  {
  }

  lemma SumAligned(a: int, b: int)
    requires a % 4 == 0 && b % 4 == 0
    ensures (a + b) % 4 == 0
  {
  }

  function Zeros(n: nat): (b: Bytes)
    ensures |b| == n
  {
    seq(n, _ => 0)
  }

  function Cstr(s: Bytes): Bytes {
    s + [0]
  }

  predicate NulFree(s: Bytes) {
    0 !in s
  }

  function Ascii(s: string): (b: Bytes)
    ensures |b| == |s|
  {
    seq(|s|, i requires 0 <= i < |s| => s[i] as int % 256)
  }
}
