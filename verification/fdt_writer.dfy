/** Compiling a device tree into a memory buffer. */
module FdtWriters {
  import opened FdtBytes
  import opened FdtTree
  import opened FdtNodes
  import opened FdtFormat
  import FdtDecoding
  import FdtRoundTrip
  import FdtStandard

  /** The number of bytes written, or a report that the buffer is full. */
  datatype Written = Wrote(len: nat) | Overflow {
    predicate IsFailure() { Overflow? }
    function PropagateFailure(): Written
      requires Overflow?
    {
      this
    }
    function Extract(): nat
      requires Wrote?
    {
      len
    }
  }

  function Overwrite(s: Bytes, p: nat, d: Bytes): (r: Bytes)
    requires p + |d| <= |s|
    ensures |r| == |s|
  {
    s[..p] + d + s[p + |d|..]
  }

  /** The buffer `was`, with d written at p, has become `now`, and the next byte goes to q. */
  predicate Emitted(was: Bytes, p: nat, d: Bytes, now: Bytes, q: nat) {
    p + |d| <= |was| && q == p + |d| && now == Overwrite(was, p, d)
  }

  lemma EmittedNothing(was: Bytes, p: nat)
    requires p <= |was|
    ensures Emitted(was, p, [], was, p)
  {
  }

  lemma EmittedThen(was: Bytes, p: nat, a: Bytes, mid: Bytes, q: nat, b: Bytes, now: Bytes, r: nat)
    requires Emitted(was, p, a, mid, q) && Emitted(mid, q, b, now, r)
    ensures Emitted(was, p, a + b, now, r)
  {
  }

  lemma EmittedWord(was: Bytes, p: nat, w: U32, now: Bytes, q: nat)
    requires Emitted(was, p, Be32(w), now, q)
    ensures q == p + 4 <= |now|
    ensures now[p] as int * 0x1000000 + now[p + 1] as int * 0x10000 + now[p + 2] as int * 0x100 + now[p + 3] as int == w
  {
    var d := Be32(w);
    Be32RoundTrip(w);
    assert forall i :: 0 <= i < 4 ==> now[p + i] == d[i];
    assert now[p + 0] == d[0];
  }

  lemma OverwriteFront(was: Bytes, d: Bytes)
    requires |d| <= |was|
    ensures Overwrite(was, 0, d) == d + was[|d|..]
  {
  }

  lemma StartsWithMagic(buf: Bytes, h: Bytes)
    requires h <= buf && FdtDecoding.At(h, 0, Be32(MAGIC))
    ensures |buf| >= 4 && buf[..4] == [0xd0, 0x0d, 0xfe, 0xed]
  {
    assert buf[..4] == h[0..4];
  }

  /** Every compiled tree starts with the magic number. */
  lemma EncodeStarts(t: Tree)
    ensures |Encode(t)| >= 4 && Encode(t)[..4] == [0xd0, 0x0d, 0xfe, 0xed]
  {
    var structSize, stringSize := |EncNode(t, [])| + 4, |StringBlock(t)|;
    hide *;
    FdtRoundTrip.BlobParts(t);
    FdtRoundTrip.HeaderFields(Header(structSize, stringSize), structSize, stringSize);
    StartsWithMagic(Encode(t), Header(structSize, stringSize));
  }

  /** Truncating while summing is truncating the sum. */
  lemma Low32Add(off: U32, n: nat, rest: nat)
    ensures Low32(Low32(off + Low32(n) + 1) + rest) == Low32(off + (n + 1 + rest))
  {
    var m := 0x1_0000_0000;
    var a, b := n / m, (off + Low32(n) + 1) / m;
    assert off + (n + 1 + rest) == Low32(off + Low32(n) + 1) + rest + (a + b) * m;
    Low32Wraps(Low32(off + Low32(n) + 1) + rest, a + b);
  }

  lemma Low32Wraps(x: nat, k: nat)
    ensures Low32(x + k * 0x1_0000_0000) == Low32(x)
  {
  }

  lemma {:induction false} WordsLength(ns: seq<U32>)
    ensures |Words(ns)| == 4 * |ns|
  {
    if ns != [] {
      WordsLength(ns[1..]);
    }
  }

  /** The size a property's constructor records. */
  function PropSize(p: Prop): nat {
    if p.numbers != [] then 4 * |p.numbers| else StringsSize(p.strings)
  }

  function StringsSize(ss: seq<Bytes>): nat {
    if ss == [] then 0 else |ss[0]| + 1 + StringsSize(ss[1..])
  }

  lemma {:induction false} StringsSizeIsLength(ss: seq<Bytes>)
    ensures StringsSize(ss) == |Cstrs(ss)|
  {
    if ss != [] {
      StringsSizeIsLength(ss[1..]);
    }
  }

  /** The recorded size is the number of value bytes that get written. */
  lemma PropSizeIsLength(p: Prop)
    requires OneKind(p)
    ensures PropSize(p) == |PropData(p)|
  {
    WordsLength(p.numbers);
    StringsSizeIsLength(p.strings);
  }

  const BLANK: seq<U32> := [MAGIC, 0, 56, 0, 40, VERSION, COMPAT, 0, 0, 0, 0, 0, 0, 0]

  function BlankHeader(): (h: Bytes)
    ensures |h| == HEADER_SIZE
  {
    HeaderOf(0, 0, 0, 0)
  }

  lemma WordsCons(w: U32, ns: seq<U32>)
    ensures Words([w] + ns) == Be32(w) + Words(ns)
  {
    assert ([w] + ns)[0] == w && ([w] + ns)[1..] == ns;
  }

  /** Four words at a time. */
  lemma WordsOfFour(a: U32, b: U32, c: U32, d: U32, ns: seq<U32>)
    ensures Words([a, b, c, d] + ns) == (Be32(a) + Be32(b) + Be32(c) + Be32(d)) + Words(ns)
  {
    hide Be32;
    WordsCons(d, ns);
    WordsCons(c, [d] + ns);
    WordsCons(b, [c] + ([d] + ns));
    WordsCons(a, [b] + ([c] + ([d] + ns)));
    assert [a, b, c, d] + ns == [a] + ([b] + ([c] + ([d] + ns)));
  }

  lemma WordsOfTwo(a: U32, b: U32)
    ensures Words([a, b]) == Be32(a) + Be32(b)
  {
    WordsCons(b, []);
    WordsCons(a, [b]);
    assert [a, b] == [a] + [b] && [b] == [b] + [];
  }

  lemma BlankHeaderWords()
    ensures Words(BLANK) == BlankHeader()
  {
    hide Words;
    WordsOfTwo(0, 0);
    WordsOfFour(0, 0, 0, 0, [0, 0]);
    WordsOfFour(40, VERSION, COMPAT, 0, [0, 0, 0, 0] + [0, 0]);
    WordsOfFour(MAGIC, 0, 56, 0, [40, VERSION, COMPAT, 0] + ([0, 0, 0, 0] + [0, 0]));
    assert BLANK == [MAGIC, 0, 56, 0] + ([40, VERSION, COMPAT, 0] + ([0, 0, 0, 0] + [0, 0]));
    assert Be32(0) == Zeros(4);
  }

  /** The four header fields that are filled in at the end. */
  function Patched(s: Bytes, total: nat, structSize: nat, stringSize: nat, stringOff: nat): Bytes
    requires |s| >= 40
  {
    Overwrite(Overwrite(Overwrite(Overwrite(s, 0x04, Be32(Low32(total))), 0x0c, Be32(Low32(stringOff))),
                        0x20, Be32(Low32(stringSize))), 0x24, Be32(Low32(structSize)))
  }

  lemma PatchFront(was: Bytes, h: Bytes, rest: Bytes, k: nat, w: Bytes)
    requires |h| + |rest| <= |was| && k + |w| <= |h|
    ensures Overwrite(Overwrite(was, 0, h + rest), k, w) == Overwrite(was, 0, Overwrite(h, k, w) + rest)
  {
  }

  lemma OverwriteMiddle(s: Bytes, a: Bytes, w: Bytes, b: Bytes, x: Bytes)
    requires s == a + w + b && |x| == |w|
    ensures Overwrite(s, |a|, x) == a + x + b
  {
  }

  /** Each patch fills in one field. */
  lemma PatchFields(total: U32, stringOff: U32, stringSize: U32, structSize: U32)
    ensures Overwrite(HeaderOf(0, 0, 0, 0), 0x04, Be32(total)) == HeaderOf(total, 0, 0, 0)
    ensures Overwrite(HeaderOf(total, 0, 0, 0), 0x0c, Be32(stringOff)) == HeaderOf(total, stringOff, 0, 0)
    ensures Overwrite(HeaderOf(total, stringOff, 0, 0), 0x20, Be32(stringSize))
         == HeaderOf(total, stringOff, stringSize, 0)
    ensures Overwrite(HeaderOf(total, stringOff, stringSize, 0), 0x24, Be32(structSize))
         == HeaderOf(total, stringOff, stringSize, structSize)
  {
    hide Overwrite, Be32;
    var m, o, z, tail := Be32(MAGIC), Be32(56), Be32(0), Zeros(16);
    var fixed := Be32(40) + Be32(VERSION) + Be32(COMPAT) + z;
    var t, so, ss := Be32(total), Be32(stringOff), Be32(stringSize);
    OverwriteMiddle(HeaderOf(0, 0, 0, 0), m, z, o + z + fixed + z + z + tail, t);
    OverwriteMiddle(HeaderOf(total, 0, 0, 0), m + t + o, z, fixed + z + z + tail, so);
    OverwriteMiddle(HeaderOf(total, stringOff, 0, 0), m + t + o + so + fixed, z, z + tail, ss);
    OverwriteMiddle(HeaderOf(total, stringOff, stringSize, 0), m + t + o + so + fixed + ss, z, tail, Be32(structSize));
  }

  lemma PatchedHeader(was: Bytes, rest: Bytes, structSize: nat, stringSize: nat)
    requires HEADER_SIZE + |rest| <= |was|
    ensures Patched(Overwrite(was, 0, BlankHeader() + rest), HEADER_SIZE + structSize + stringSize,
                    structSize, stringSize, HEADER_SIZE + structSize)
         == Overwrite(was, 0, Header(structSize, stringSize) + rest)
  {
    hide Overwrite;
    var h0 := BlankHeader();
    var h1 := Overwrite(h0, 0x04, Be32(Low32(HEADER_SIZE + structSize + stringSize)));
    var h2 := Overwrite(h1, 0x0c, Be32(Low32(HEADER_SIZE + structSize)));
    var h3 := Overwrite(h2, 0x20, Be32(Low32(stringSize)));
    PatchFront(was, h0, rest, 0x04, Be32(Low32(HEADER_SIZE + structSize + stringSize)));
    PatchFront(was, h1, rest, 0x0c, Be32(Low32(HEADER_SIZE + structSize)));
    PatchFront(was, h2, rest, 0x20, Be32(Low32(stringSize)));
    PatchFront(was, h3, rest, 0x24, Be32(Low32(structSize)));
    PatchFields(Low32(HEADER_SIZE + structSize + stringSize), Low32(HEADER_SIZE + structSize),
                Low32(stringSize), Low32(structSize));
  }

  lemma ZerosGrow(n: nat)
    ensures Zeros(0) == [] && Zeros(n + 1) == Zeros(n) + [0]
  {
  }

  lemma PadOfFour(n: nat)
    ensures Pad(4 + n) == Pad(n)
  {
  }

  lemma PadOfTwelve(n: nat)
    ensures Pad(12 + n) == Pad(n)
  {
  }

  /** A buffer that starts with a compiled tree holds it in standard form, with a complete and true header. */
  lemma CompiledIsStandard(was: Bytes, t: Tree)
    requires |Encode(t)| <= |was|
    ensures var now := Overwrite(was, 0, Encode(t));
      && 4 <= |now| && now[..4] == [0xd0, 0x0d, 0xfe, 0xed]
      && (FdtRoundTrip.Named(t) && |was| < 0x1_0000_0000 ==>
            && FdtStandard.BlobIs(now, FdtRoundTrip.RawOf(t))
            && FdtStandard.HeaderIs(now, FdtStandard.NodeSpan(FdtRoundTrip.RawOf(t)) + 4, |StringBlock(t)|))
  {
    hide *;
    var now := Overwrite(was, 0, Encode(t));
    OverwriteFront(was, Encode(t));
    EncodeStarts(t);
    assert now[..4] == Encode(t)[..4];
    if FdtRoundTrip.Named(t) && |was| < 0x1_0000_0000 {
      FdtRoundTrip.EncodeIsStandard(t, now);
    }
  }

  class FdtWriter {
    const buf: array<Byte>
    var ptr: nat
    var strings: seq<Bytes>
    ghost var bytes: Bytes

    constructor (buf: array<Byte>)
      ensures Valid() && this.buf == buf && bytes == buf[..] && ptr == 0 && strings == []
    {
      this.buf := buf;
      ptr, strings := 0, [];
      bytes := buf[..];
    }

    /** The ghost copy of the buffer is accurate, and the position is in or right behind it. */
    ghost predicate Valid()
      reads this, buf
    {
      bytes == buf[..] && ptr <= |bytes|
    }

    /** The bytes d went into the buffer at the old position, unless they do not fit. */
    twostate predicate Emits(d: Bytes, r: Written)
      reads this, buf
    {
      && Valid() && |bytes| == |old(bytes)|
      && (r.Overflow? <==> old(ptr) + |d| > |bytes|)
      && (r.Wrote? ==> r.len == |d| && Emitted(old(bytes), old(ptr), d, bytes, ptr))
    }

    method Seek(offset: U32) returns (r: Written)
      requires Valid()
      modifies this`ptr
      ensures if offset < |bytes| then r == Wrote(0) && ptr == offset && Valid() else r == Overflow
    {
      ptr := offset;
      if ptr >= buf.Length {
        return Overflow;
      }
      r := Wrote(0);
    }

    method Putc(b: Byte) returns (r: Written)
      requires Valid()
      modifies this`ptr, this`bytes, buf
      ensures Emits([b], r)
    {
      if ptr >= buf.Length {
        return Overflow;
      }
      buf[ptr] := b;
      ptr := ptr + 1;
      bytes := buf[..];
      r := Wrote(1);
    }

    method WriteWord(data: U32) returns (r: Written)
      requires Valid()
      modifies this`ptr, this`bytes, buf
      ensures Emits(Be32(data), r)
      ensures r.Wrote? ==>
        && ptr == old(ptr) + 4 <= buf.Length
        && buf[old(ptr)] as int * 0x1000000 + buf[old(ptr) + 1] as int * 0x10000
           + buf[old(ptr) + 2] as int * 0x100 + buf[old(ptr) + 3] as int == data
    {
      hide Overwrite;
      ghost var was, p, d := bytes, ptr, Be32(data);
      var _ :- Putc(data / 0x100_0000);
      ghost var b1, q1 := bytes, ptr;
      var _ :- Putc(data / 0x1_0000 % 256);
      EmittedThen(was, p, [d[0]], b1, q1, [d[1]], bytes, ptr);
      ghost var b2, q2 := bytes, ptr;
      var _ :- Putc(data / 256 % 256);
      EmittedThen(was, p, [d[0]] + [d[1]], b2, q2, [d[2]], bytes, ptr);
      ghost var b3, q3 := bytes, ptr;
      var _ :- Putc(data % 256);
      EmittedThen(was, p, [d[0]] + [d[1]] + [d[2]], b3, q3, [d[3]], bytes, ptr);
      assert [d[0]] + [d[1]] + [d[2]] + [d[3]] == d;
      EmittedWord(was, p, data, bytes, ptr);
      r := Wrote(4);
    }

    method WriteString(s: Bytes) returns (r: Written)
      requires Valid()
      modifies this`ptr, this`bytes, buf
      ensures Emits(Cstr(s), r)
    {
      ghost var was, p := bytes, ptr;
      EmittedNothing(was, p);
      for i := 0 to |s|
        invariant Valid() && |bytes| == |was| && Emitted(was, p, s[..i], bytes, ptr)
      {
        ghost var mid, q := bytes, ptr;
        var _ :- Putc(s[i]);
        EmittedThen(was, p, s[..i], mid, q, [s[i]], bytes, ptr);
        assert s[..i + 1] == s[..i] + [s[i]];
      }
      assert s[..|s|] == s;
      ghost var mid, q := bytes, ptr;
      var _ :- Putc(0);
      EmittedThen(was, p, s, mid, q, [0], bytes, ptr);
      r := Wrote(|s| + 1);
    }

    /** Write the offset of s in the string table, adding s at the end if it is new. */
    method Strtab(s: Bytes) returns (r: Written)
      requires Valid()
      modifies this`ptr, this`bytes, this`strings, buf
      ensures Emits(Be32(Low32(StrOff(old(strings), s))), r)
      ensures strings == Intern(old(strings), s)
    {
      var off: U32 := 0;
      for i := 0 to |strings|
        invariant strings == old(strings) && bytes == old(bytes) && ptr == old(ptr) && Valid()
        invariant s !in strings[..i]
        invariant Low32(off + StrOff(strings[i..], s)) == Low32(StrOff(strings, s))
      {
        assert strings[i..][0] == strings[i] && strings[i..][1..] == strings[i + 1..];
        if strings[i] == s {
          SmallLow32(off);
          r := WriteWord(off);
          return;
        }
        var next := Low32(off + Low32(|strings[i]|) + 1);
        Low32Add(off, |strings[i]|, StrOff(strings[i + 1..], s));
        off := next;
      }
      assert strings[..|strings|] == strings && strings[|strings|..] == [];
      SmallLow32(off);
      strings := strings + [s];
      r := WriteWord(off);
    }

    /** Zero bytes up to the next multiple of four. */
    method WritePadding(curlen: nat) returns (r: Written)
      requires Valid()
      modifies this`ptr, this`bytes, buf
      ensures Emits(Zeros(Pad(curlen)), r)
    {
      hide Overwrite, Pad, Zeros;
      ghost var was, p := bytes, ptr;
      EmittedNothing(was, p);
      var len := curlen;
      ZerosGrow(0);
      while len % 4 != 0
        invariant curlen <= len <= curlen + Pad(curlen) && Valid() && |bytes| == |was|
        invariant Emitted(was, p, Zeros(len - curlen), bytes, ptr)
        decreases curlen + Pad(curlen) - len
      {
        ghost var mid, q := bytes, ptr;
        var _ :- Putc(0);
        EmittedThen(was, p, Zeros(len - curlen), mid, q, [0], bytes, ptr);
        len := len + 1;
        ZerosGrow(len - 1 - curlen);
      }
      PadIsFirst(curlen, len);
      r := Wrote(len - curlen);
    }

    method WriteWords(ns: seq<U32>) returns (r: Written)
      requires Valid()
      modifies this`ptr, this`bytes, buf
      ensures Emits(Words(ns), r)
    {
      hide Overwrite;
      ghost var was, p, d := bytes, ptr, [];
      EmittedNothing(was, p);
      assert ns[0..] == ns;
      for i := 0 to |ns|
        invariant Valid() && |bytes| == |was| && Emitted(was, p, d, bytes, ptr)
        invariant d + Words(ns[i..]) == Words(ns)
      {
        ghost var mid, q := bytes, ptr;
        assert ns[i..][0] == ns[i] && ns[i..][1..] == ns[i + 1..];
        assert d + (Be32(ns[i]) + Words(ns[i + 1..])) == d + Be32(ns[i]) + Words(ns[i + 1..]);
        var _ :- WriteWord(ns[i]);
        EmittedThen(was, p, d, mid, q, Be32(ns[i]), bytes, ptr);
        d := d + Be32(ns[i]);
      }
      assert d + [] == d;
      r := Wrote(4 * |ns|);
      WordsLength(ns);
    }

    method WriteCstrs(ss: seq<Bytes>) returns (r: Written)
      requires Valid()
      modifies this`ptr, this`bytes, buf
      ensures Emits(Cstrs(ss), r)
    {
      hide Overwrite;
      var len := 0;
      ghost var was, p, d := bytes, ptr, [];
      EmittedNothing(was, p);
      assert ss[0..] == ss;
      for i := 0 to |ss|
        invariant Valid() && |bytes| == |was| && Emitted(was, p, d, bytes, ptr) && len == |d|
        invariant d + Cstrs(ss[i..]) == Cstrs(ss)
      {
        ghost var mid, q := bytes, ptr;
        assert ss[i..][0] == ss[i] && ss[i..][1..] == ss[i + 1..];
        assert d + (Cstr(ss[i]) + Cstrs(ss[i + 1..])) == d + Cstr(ss[i]) + Cstrs(ss[i + 1..]);
        var n :- WriteString(ss[i]);
        EmittedThen(was, p, d, mid, q, Cstr(ss[i]), bytes, ptr);
        len := len + n;
        d := d + Cstr(ss[i]);
      }
      assert d + [] == d;
      r := Wrote(len);
    }

    method WriteProp(prop: Prop) returns (r: Written)
      requires Valid() && OneKind(prop)
      modifies this`ptr, this`bytes, this`strings, buf
      ensures Emits(EncProp(prop, old(strings)), r)
      ensures r.Wrote? ==> strings == Intern(old(strings), prop.name)
    {
      hide Overwrite, FdtFormat.PropData, FdtFormat.StrOff, FdtFormat.Intern;
      hide FdtBytes.Be32, FdtBytes.Zeros, FdtBytes.Low32, FdtBytes.Pad;
      ghost var was, p, tab := bytes, ptr, strings;
      ghost var d := PropData(prop);
      ghost var head := Be32(PROP) + Be32(Low32(|d|));
      PropSizeIsLength(prop);
      var a :- WriteWord(PROP);
      ghost var b1, q1 := bytes, ptr;
      var b :- WriteWord(Low32(PropSize(prop)));
      EmittedThen(was, p, Be32(PROP), b1, q1, Be32(Low32(|d|)), bytes, ptr);
      ghost var b2, q2 := bytes, ptr;
      var c :- Strtab(prop.name);
      head := head + Be32(Low32(StrOff(tab, prop.name)));
      EmittedThen(was, p, Be32(PROP) + Be32(Low32(|d|)), b2, q2, Be32(Low32(StrOff(tab, prop.name))), bytes, ptr);
      ghost var b3, q3 := bytes, ptr;
      var e :- WriteData(prop);
      EmittedThen(was, p, head, b3, q3, d, bytes, ptr);
      ghost var b4, q4 := bytes, ptr;
      PadOfTwelve(|d|);
      var f :- WritePadding(a + b + c + e);
      EmittedThen(was, p, head + d, b4, q4, Zeros(Pad(|d|)), bytes, ptr);
      r := Wrote(a + b + c + e + f);
    }

    /** The numbers and then the strings of a property. */
    method WriteData(prop: Prop) returns (r: Written)
      requires Valid()
      modifies this`ptr, this`bytes, buf
      ensures Emits(PropData(prop), r)
    {
      hide Overwrite;
      ghost var was, p := bytes, ptr;
      var a :- WriteWords(prop.numbers);
      ghost var b1, q1 := bytes, ptr;
      var b :- WriteCstrs(prop.strings);
      EmittedThen(was, p, Words(prop.numbers), b1, q1, Cstrs(prop.strings), bytes, ptr);
      r := Wrote(a + b);
    }

    method WriteProps(props: seq<Prop>) returns (r: Written)
      requires Valid() && forall i :: 0 <= i < |props| ==> OneKind(props[i])
      modifies this`ptr, this`bytes, this`strings, buf
      ensures Emits(EncProps(props, old(strings)), r)
      ensures r.Wrote? ==> strings == TabProps(props, old(strings))
    {
      hide Overwrite, FdtFormat.EncProp, FdtFormat.Intern, OneKind;
      var len := 0;
      ghost var was, p, tab, d := bytes, ptr, strings, [];
      EmittedNothing(was, p);
      assert props[0..] == props;
      for i := 0 to |props|
        invariant Valid() && |bytes| == |was| && Emitted(was, p, d, bytes, ptr) && len == |d|
        invariant d + EncProps(props[i..], strings) == EncProps(props, tab)
        invariant TabProps(props[i..], strings) == TabProps(props, tab)
      {
        ghost var mid, q, e := bytes, ptr, EncProp(props[i], strings);
        ghost var rest := EncProps(props[i + 1..], Intern(strings, props[i].name));
        assert props[i..][0] == props[i] && props[i..][1..] == props[i + 1..];
        assert d + (e + rest) == d + e + rest;
        var n :- WriteProp(props[i]);
        EmittedThen(was, p, d, mid, q, e, bytes, ptr);
        len := len + n;
        d := d + e;
      }
      assert d + [] == d;
      r := Wrote(len);
    }

    method WriteNode(node: FdtNode, ghost t: Tree) returns (r: Written)
      requires Valid() && node.Holds(t) && OneKinds(t)
      modifies this`ptr, this`bytes, this`strings, buf
      ensures Emits(EncNode(t, old(strings)), r)
      ensures r.Wrote? ==> strings == TabNode(t, old(strings))
      decreases t, 1
    {
      hide Overwrite, FdtFormat.EncProps, FdtFormat.EncNodes, FdtFormat.TabProps, FdtFormat.TabNodes;
      ghost var was, p, tab, w := bytes, ptr, strings, WrittenName(t.name);
      ghost var ps, cs := EncProps(t.props, tab), EncNodes(t.children, TabProps(t.props, tab));
      var a :- WriteHead(node.name);
      ghost var b1, q1 := bytes, ptr;
      var b :- WriteProps(node.props);
      EmittedThen(was, p, NodeHead(t.name), b1, q1, ps, bytes, ptr);
      ghost var b2, q2 := bytes, ptr;
      var c :- WriteChildren(node, t);
      EmittedThen(was, p, NodeHead(t.name) + ps, b2, q2, cs, bytes, ptr);
      ghost var b3, q3 := bytes, ptr;
      var e :- WriteWord(END_NODE);
      EmittedThen(was, p, NodeHead(t.name) + ps + cs, b3, q3, Be32(END_NODE), bytes, ptr);
      assert NodeHead(t.name) + ps + cs + Be32(END_NODE) == NodeHead(t.name) + (ps + cs + Be32(END_NODE));
      r := Wrote(a + b + c + e);
    }

    /** The begin token and the padded name. */
    method WriteHead(name: Bytes) returns (r: Written)
      requires Valid()
      modifies this`ptr, this`bytes, buf
      ensures Emits(NodeHead(name), r)
    {
      hide Overwrite;
      ghost var was, p, s := bytes, ptr, Cstr(WrittenName(name));
      var a :- WriteWord(BEGIN_NODE);
      ghost var b1, q1 := bytes, ptr;
      var b :- WriteString(if name == Ascii("/") then [] else name);
      EmittedThen(was, p, Be32(BEGIN_NODE), b1, q1, s, bytes, ptr);
      ghost var b2, q2 := bytes, ptr;
      PadOfFour(|s|);
      var c :- WritePadding(a + b);
      EmittedThen(was, p, Be32(BEGIN_NODE) + s, b2, q2, Zeros(Pad(|s|)), bytes, ptr);
      r := Wrote(a + b + c);
    }

    method WriteChildren(node: FdtNode, ghost t: Tree) returns (r: Written)
      requires Valid() && node.Holds(t) && OneKinds(t)
      modifies this`ptr, this`bytes, this`strings, buf
      ensures Emits(EncNodes(t.children, old(strings)), r)
      ensures r.Wrote? ==> strings == TabNodes(t.children, old(strings))
      decreases t, 0
    {
      hide Overwrite, FdtFormat.EncNode, FdtFormat.TabNode;
      var len := 0;
      ghost var was, p, tab, d, ts := bytes, ptr, strings, [], t.children;
      EmittedNothing(was, p);
      assert ts[0..] == ts;
      for i := 0 to |node.children|
        invariant Valid() && |bytes| == |was| && Emitted(was, p, d, bytes, ptr) && len == |d|
        invariant node.Holds(t) && OneKindsAll(ts[i..])
        invariant d + EncNodes(ts[i..], strings) == EncNodes(ts, tab)
        invariant TabNodes(ts[i..], strings) == TabNodes(ts, tab)
      {
        ghost var mid, q, e := bytes, ptr, EncNode(ts[i], strings);
        ghost var rest := EncNodes(ts[i + 1..], TabNode(ts[i], strings));
        assert ts[i..][0] == ts[i] && ts[i..][1..] == ts[i + 1..];
        assert d + (e + rest) == d + e + rest;
        var n :- WriteNode(node.children[i], ts[i]);
        EmittedThen(was, p, d, mid, q, e, bytes, ptr);
        len := len + n;
        d := d + e;
      }
      assert d + [] == d;
      r := Wrote(len);
    }

    method WriteStrings() returns (r: Written)
      requires Valid()
      modifies this`ptr, this`bytes, buf
      ensures Emits(EncStrings(strings), r)
    {
      hide Overwrite;
      ghost var was, p := bytes, ptr;
      var a :- WriteCstrs(strings);
      ghost var b1, q1 := bytes, ptr;
      var b :- WritePadding(a);
      EmittedThen(was, p, Cstrs(strings), b1, q1, Zeros(Pad(|Cstrs(strings)|)), bytes, ptr);
      r := Wrote(a + b);
    }

    /** The header with its size and offset fields still zero, and the empty reservation block. */
    method WriteHeader() returns (r: Written)
      requires Valid()
      modifies this`ptr, this`bytes, buf
      ensures Emits(BlankHeader(), r)
    {
      BlankHeaderWords();
      r := WriteWords(BLANK);
    }

    method Patch(offset: U32, data: U32) returns (r: Written)
      requires Valid()
      modifies this`ptr, this`bytes, buf
      ensures |bytes| == |old(bytes)| && (r.Overflow? <==> offset + 4 > |bytes|)
      ensures r.Wrote? ==> Valid() && bytes == Overwrite(old(bytes), offset, Be32(data))
    {
      var _ :- Seek(offset);
      r := WriteWord(data);
    }

    method FinalizeHeader(total: nat, structSize: nat, stringSize: nat, stringOff: nat) returns (r: Written)
      requires Valid()
      modifies this`ptr, this`bytes, buf
      ensures |bytes| == |old(bytes)| && (r.Overflow? <==> 40 > |bytes|)
      ensures r.Wrote? ==> Valid() && bytes == Patched(old(bytes), total, structSize, stringSize, stringOff)
    {
      var _ :- Patch(0x04, Low32(total));
      var _ :- Patch(0x0c, Low32(stringOff));
      var _ :- Patch(0x20, Low32(stringSize));
      r := Patch(0x24, Low32(structSize));
    }

    /** A fresh writer turns the buffer's front into the compiled tree exactly when the buffer is large enough. */
    method Compile(root: FdtNode, ghost t: Tree) returns (r: Written)
      requires Valid() && ptr == 0 && strings == [] && root.Holds(t) && OneKinds(t)
      modifies this`ptr, this`bytes, this`strings, buf
      ensures r.Overflow? <==> |Encode(t)| > buf.Length
      ensures r.Wrote? ==> buf[..] == Overwrite(old(buf[..]), 0, Encode(t))
      ensures r.Wrote? ==>
        buf.Length >= 4 && buf[0] == 0xd0 && buf[1] == 0x0d && buf[2] == 0xfe && buf[3] == 0xed
      ensures r.Wrote? && FdtRoundTrip.Named(t) && buf.Length < 0x1_0000_0000 ==>
        && FdtStandard.BlobIs(buf[..], FdtRoundTrip.RawOf(t))
        && FdtStandard.HeaderIs(buf[..], FdtStandard.NodeSpan(FdtRoundTrip.RawOf(t)) + 4, |StringBlock(t)|)
    {
      hide *;
      r := WriteBlob(root, t);
      if r.Wrote? {
        CompiledIsStandard(old(buf[..]), t);
        assert buf[..4] == buf[..][..4];
      }
    }

    /** Header, structure block and strings block in a row, and then the four header fields that they decide. */
    method WriteBlob(root: FdtNode, ghost t: Tree) returns (r: Written)
      requires Valid() && ptr == 0 && strings == [] && root.Holds(t) && OneKinds(t)
      modifies this`ptr, this`bytes, this`strings, buf
      ensures r.Overflow? <==> |Encode(t)| > buf.Length
      ensures r.Wrote? ==> buf[..] == Overwrite(old(buf[..]), 0, Encode(t))
    {
      hide Overwrite, FdtFormat.EncNode, FdtFormat.TabNode, FdtFormat.EncStrings, FdtFormat.Header;
      hide BlankHeader, Patched;
      ghost var was, node, tab := bytes, EncNode(t, []), TabNode(t, []);
      ghost var h, end, strs := BlankHeader(), Be32(END), EncStrings(TabNode(t, []));
      var headerSize :- WriteHeader();
      ghost var b1, q1 := bytes, ptr;
      var a :- WriteNode(root, t);
      EmittedThen(was, 0, h, b1, q1, node, bytes, ptr);
      ghost var b2, q2 := bytes, ptr;
      var b :- WriteWord(END);
      EmittedThen(was, 0, h + node, b2, q2, end, bytes, ptr);
      var structSize := a + b;
      ghost var b3, q3 := bytes, ptr;
      var stringSize :- WriteStrings();
      EmittedThen(was, 0, h + node + end, b3, q3, strs, bytes, ptr);
      assert h + node + end + strs == h + ((node + end) + strs);
      PatchedHeader(was, (node + end) + strs, structSize, stringSize);
      assert Encode(t) == Header(structSize, stringSize) + (node + end) + strs;
      assert Header(structSize, stringSize) + (node + end) + strs
          == Header(structSize, stringSize) + ((node + end) + strs);
      r := FinalizeHeader(headerSize + structSize + stringSize, structSize, stringSize, headerSize + structSize);
    }
  }
}
