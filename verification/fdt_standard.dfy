/**
 * The flattened form of a device tree as sections 5.2, 5.4 and 5.5 of the Devicetree Specification lay it
 * out, byte by byte. Neither the writer nor the reader is used to say so.
 */
module FdtStandard {
  import opened FdtBytes

  /** A property as the format sees it: a name and the bytes of its value. */
  datatype RawProp = RawProp(name: Bytes, value: Bytes)

  datatype Raw = Raw(name: Bytes, props: seq<RawProp>, children: seq<Raw>)

  /** The word at pos, most significant byte first. */
  function WordAt(buf: Bytes, pos: nat): nat
    requires pos + 4 <= |buf|
  {
    buf[pos] as int * 0x1000000 + buf[pos + 1] as int * 0x10000 + buf[pos + 2] as int * 0x100 + buf[pos + 3] as int
  }

  predicate WordIs(buf: Bytes, pos: nat, w: int) {
    pos + 4 <= |buf| && WordAt(buf, pos) == w
  }

  predicate BytesAre(buf: Bytes, pos: nat, d: Bytes) {
    pos + |d| <= |buf| && forall i :: 0 <= i < |d| ==> buf[pos + i] == d[i]
  }

  /** A string and the NUL that ends it. */
  predicate StringIs(buf: Bytes, pos: nat, s: Bytes) {
    BytesAre(buf, pos, s) && 0 !in s && pos + |s| < |buf| && buf[pos + |s|] == 0
  }

  predicate ZerosAre(buf: Bytes, pos: nat, n: nat) {
    pos + n <= |buf| && forall i :: pos <= i < pos + n ==> buf[i] == 0
  }

  /** The next multiple of four. */
  function Aligned(n: nat): nat {
    (n + 3) / 4 * 4
  }

  // ---- Section 5.4: the structure block ----

  function PropSpan(p: RawProp): nat {
    12 + Aligned(|p.value|)
  }

  function PropsSpan(ps: seq<RawProp>): nat {
    if ps == [] then 0 else PropSpan(ps[0]) + PropsSpan(ps[1..])
  }

  function HeadSpan(name: Bytes): nat {
    4 + Aligned(|name| + 1)
  }

  function NodeSpan(t: Raw): nat
    decreases t, 1
  {
    HeadSpan(t.name) + PropsSpan(t.props) + NodesSpan(t.children) + 4
  }

  function NodesSpan(ts: seq<Raw>): nat
    decreases ts, 0
  {
    if ts == [] then 0 else NodeSpan(ts[0]) + NodesSpan(ts[1..])
  }

  /** A property token, the length of the value, the place of the name in the strings block, the value. */
  predicate PropIs(buf: Bytes, pos: nat, strings: nat, p: RawProp) {
    && WordIs(buf, pos, 3) && WordIs(buf, pos + 4, |p.value|)
    && pos + 12 <= |buf| && StringIs(buf, strings + WordAt(buf, pos + 8), p.name)
    && BytesAre(buf, pos + 12, p.value) && ZerosAre(buf, pos + 12 + |p.value|, Aligned(|p.value|) - |p.value|)
  }

  predicate PropsAre(buf: Bytes, pos: nat, strings: nat, ps: seq<RawProp>)
    decreases |ps|
  {
    ps == [] || (PropIs(buf, pos, strings, ps[0]) && PropsAre(buf, pos + PropSpan(ps[0]), strings, ps[1..]))
  }

  predicate HeadIs(buf: Bytes, pos: nat, name: Bytes) {
    && WordIs(buf, pos, 1) && StringIs(buf, pos + 4, name)
    && ZerosAre(buf, pos + 4 + |name| + 1, Aligned(|name| + 1) - (|name| + 1))
  }

  /** A begin token, the name, all properties, all children, an end token. */
  predicate NodeIs(buf: Bytes, pos: nat, strings: nat, t: Raw)
    decreases t, 1
  {
    && HeadIs(buf, pos, t.name)
    && PropsAre(buf, pos + HeadSpan(t.name), strings, t.props)
    && NodesAre(buf, pos + HeadSpan(t.name) + PropsSpan(t.props), strings, t.children)
    && WordIs(buf, pos + HeadSpan(t.name) + PropsSpan(t.props) + NodesSpan(t.children), 2)
  }

  predicate NodesAre(buf: Bytes, pos: nat, strings: nat, ts: seq<Raw>)
    decreases ts, 0
  {
    ts == [] || (NodeIs(buf, pos, strings, ts[0]) && NodesAre(buf, pos + NodeSpan(ts[0]), strings, ts[1..]))
  }

  // ---- Section 5.2: the header ----

  /** Magic number, compatible version, and a structure block for t where the header says it is. */
  predicate BlobIs(buf: Bytes, t: Raw) {
    && 28 <= |buf| < 0x1_0000_0000 && buf[..4] == [0xd0, 0x0d, 0xfe, 0xed] && buf[24..28] == [0, 0, 0, 16]
    && var start, strings := WordAt(buf, 8), WordAt(buf, 12);
       NodeIs(buf, start, strings, t) && WordIs(buf, start + NodeSpan(t), 9)
  }

  /** The rest of a version 17 header in front of a blob of the given sizes, with no reserved memory. */
  predicate HeaderIs(buf: Bytes, structSize: nat, stringSize: nat) {
    && |buf| >= 56 && WordIs(buf, 4, 56 + structSize + stringSize)
    && WordIs(buf, 8, 56) && WordIs(buf, 12, 56 + structSize) && WordIs(buf, 16, 40)
    && WordIs(buf, 20, 17) && WordIs(buf, 28, 0) && WordIs(buf, 32, stringSize) && WordIs(buf, 36, structSize)
    && ZerosAre(buf, 40, 16)
  }
}
