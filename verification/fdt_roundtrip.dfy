/** What compiling and decompiling a device tree gives back, exactly. */
module FdtRoundTrip {
  import opened FdtBytes
  import opened FdtTree
  import opened FdtFormat
  import opened FdtClassify
  import opened FdtParse
  import opened FdtStandard
  import opened FdtDecoding

  // ---- What the writer writes is in standard form ----

  /** A tree as the format sees it; "/" is written as the empty name. */
  function RawOf(t: Tree): Raw
    decreases t, 1
  {
    Raw(WrittenName(t.name), RawProps(t.props), RawNodes(t.children))
  }

  function RawProps(ps: seq<Prop>): (rs: seq<RawProp>)
    ensures |rs| == |ps|
  {
    if ps == [] then [] else [RawProp(ps[0].name, PropData(ps[0]))] + RawProps(ps[1..])
  }

  function RawNodes(ts: seq<Tree>): (rs: seq<Raw>)
    ensures |rs| == |ts|
    decreases ts, 0
  {
    if ts == [] then [] else [RawOf(ts[0])] + RawNodes(ts[1..])
  }

  /** Names do not hold a NUL. */
  predicate Named(t: Tree)
    decreases t, 1
  {
    NulFree(t.name) && (forall i :: 0 <= i < |t.props| ==> NulFree(t.props[i].name)) && NamedAll(t.children)
  }

  predicate NamedAll(ts: seq<Tree>)
    decreases ts, 0
  {
    ts == [] || (Named(ts[0]) && NamedAll(ts[1..]))
  }

  /** The strings block starts at dt, as the header says, and holds the table full. */
  predicate HasStrings(buf: Bytes, dt: U32, full: seq<Bytes>) {
    |buf| < 0x1_0000_0000 && At(buf, 12, Be32(dt)) && At(buf, dt, Cstrs(full))
  }

  lemma NameIs(buf: Bytes, tab: seq<Bytes>, s: Bytes, dt: U32, full: seq<Bytes>)
    requires HasStrings(buf, dt, full) && Intern(tab, s) <= full && NulFree(s)
    ensures var off := Low32(StrOff(tab, s)); off == StrOff(tab, s) && StringIs(buf, dt + off, s)
  {
    hide At, NulFree, StringIs, FdtFormat.StrOff, FdtFormat.Cstrs, FdtFormat.Intern, FdtBytes.Be32, FdtBytes.Low32;
    var off := StrOff(tab, s);
    NameAtOffset(tab, s, full);
    AtFits(buf, dt, Cstrs(full));
    AtInner(buf, dt, Cstrs(full), off, Cstr(s));
    StringIsAt(buf, dt + off, s);
    SmallLow32(off);
  }

  /** The parts of a written property. */
  lemma PropParts(buf: Bytes, pos: nat, p: Prop, tab: seq<Bytes>)
    requires At(buf, pos, EncProp(p, tab))
    ensures var d := PropData(p);
      && At(buf, pos, Be32(PROP)) && At(buf, pos + 4, Be32(Low32(|d|)))
      && At(buf, pos + 8, Be32(Low32(StrOff(tab, p.name))))
      && At(buf, pos + 12, d) && At(buf, pos + 12 + |d|, Zeros(Pad(|d|))) && pos + 12 + |d| <= |buf|
      && |EncProp(p, tab)| == 12 + |d| + Pad(|d|)
  {
    hide At, FdtFormat.PropData, FdtFormat.StrOff, FdtBytes.Low32, FdtBytes.Be32, FdtBytes.Zeros;
    var d := PropData(p);
    var len, off := Be32(Low32(|d|)), Be32(Low32(StrOff(tab, p.name)));
    AtSplit(buf, pos, Be32(PROP) + len + off + d, Zeros(Pad(|d|)));
    AtSplit(buf, pos, Be32(PROP) + len + off, d);
    AtSplit(buf, pos, Be32(PROP) + len, off);
    AtSplit(buf, pos, Be32(PROP), len);
    AtFits(buf, pos + 12, d);
  }

  lemma PropIsStandard(buf: Bytes, pos: nat, p: Prop, tab: seq<Bytes>, dt: U32, full: seq<Bytes>)
    requires HasStrings(buf, dt, full) && Intern(tab, p.name) <= full && NulFree(p.name)
    requires At(buf, pos, EncProp(p, tab))
    ensures PropIs(buf, pos, dt, RawProp(p.name, PropData(p)))
    ensures PropSpan(RawProp(p.name, PropData(p))) == |EncProp(p, tab)|
  {
    hide At, HasStrings, FdtFormat.EncProp, FdtFormat.PropData, FdtFormat.StrOff, FdtBytes.Low32, FdtBytes.Be32, WordAt;
    hide FdtFormat.Intern, StringIs, BytesAre, ZerosAre, FdtBytes.Zeros, NulFree, FdtBytes.Pad, Aligned;
    var d := PropData(p);
    PropParts(buf, pos, p, tab);
    AlignedIsPadded(|d|);
    SizeFits(buf, pos, d, dt, full);
    SmallLow32(|d|);
    WordIsAt(buf, pos, PROP);
    WordIsAt(buf, pos + 4, Low32(|d|));
    WordIsAt(buf, pos + 8, Low32(StrOff(tab, p.name)));
    NameIs(buf, tab, p.name, dt, full);
    BytesAreAt(buf, pos + 12, d);
    ZerosAreAt(buf, pos + 12 + |d|, Pad(|d|));
  }

  lemma SizeFits(buf: Bytes, pos: nat, d: Bytes, dt: U32, full: seq<Bytes>)
    requires HasStrings(buf, dt, full) && pos + 12 + |d| <= |buf|
    ensures |d| < 0x1_0000_0000
  {
  }

  lemma {:induction false} PropsAreStandard(
      buf: Bytes, pos: nat, ps: seq<Prop>, tab: seq<Bytes>, dt: U32, full: seq<Bytes>)
    requires HasStrings(buf, dt, full) && NoDuplicates(tab) && TabProps(ps, tab) <= full
    requires forall i :: 0 <= i < |ps| ==> NulFree(ps[i].name)
    requires At(buf, pos, EncProps(ps, tab))
    ensures PropsAre(buf, pos, dt, RawProps(ps)) && PropsSpan(RawProps(ps)) == |EncProps(ps, tab)|
    decreases |ps|
  {
    hide FdtFormat.EncProp, FdtFormat.Intern, At, HasStrings, PropIs, PropSpan, FdtFormat.PropData;
    if ps != [] {
      var p, rest, tab' := ps[0], ps[1..], Intern(tab, ps[0].name);
      InternKeepsNoDuplicates(tab, p.name);
      TabPropsGrows(rest, tab');
      AtSplit(buf, pos, EncProp(p, tab), EncProps(rest, tab'));
      PropIsStandard(buf, pos, p, tab, dt, full);
      PropsAreStandard(buf, pos + |EncProp(p, tab)|, rest, tab', dt, full);
      assert RawProps(ps)[1..] == RawProps(rest);
    }
  }

  lemma {:induction false} NodesAreStandard(
      buf: Bytes, pos: nat, ts: seq<Tree>, tab: seq<Bytes>, dt: U32, full: seq<Bytes>)
    requires HasStrings(buf, dt, full) && NoDuplicates(tab) && TabNodes(ts, tab) <= full && NamedAll(ts)
    requires At(buf, pos, EncNodes(ts, tab))
    ensures NodesAre(buf, pos, dt, RawNodes(ts)) && NodesSpan(RawNodes(ts)) == |EncNodes(ts, tab)|
    decreases ts, 0
  {
    hide FdtFormat.EncNode, FdtFormat.TabNode, At, HasStrings, NodeIs, NodeSpan, RawOf;
    if ts != [] {
      var t, rest, tab' := ts[0], ts[1..], TabNode(ts[0], tab);
      TabNodeGrows(t, tab);
      TabNodesGrows(rest, tab');
      AtSplit(buf, pos, EncNode(t, tab), EncNodes(rest, tab'));
      NodeIsStandard(buf, pos, t, tab, dt, full);
      NodesAreStandard(buf, pos + |EncNode(t, tab)|, rest, tab', dt, full);
      assert RawNodes(ts)[1..] == RawNodes(rest);
    }
  }

  /** A written node is in standard form. */
  lemma {:induction false} NodeIsStandard(buf: Bytes, pos: nat, t: Tree, tab: seq<Bytes>, dt: U32, full: seq<Bytes>)
    requires HasStrings(buf, dt, full) && NoDuplicates(tab) && TabNode(t, tab) <= full && Named(t)
    requires At(buf, pos, EncNode(t, tab))
    ensures NodeIs(buf, pos, dt, RawOf(t)) && NodeSpan(RawOf(t)) == |EncNode(t, tab)|
    decreases t, 1
  {
    hide At, HasStrings, NoDuplicates, FdtFormat.EncNode, FdtFormat.EncBody, FdtFormat.NodeHead, FdtFormat.TabNodes;
    hide FdtFormat.TabProps, FdtFormat.EncProps, FdtFormat.EncNodes, HeadIs, HeadSpan, PropsAre, NodesAre, WordIs;
    hide FdtBytes.Be32, PropsSpan, NodesSpan, RawProps, RawNodes;
    var tab' := TabProps(t.props, tab);
    var at := pos + |NodeHead(t.name)|;
    HeadParts(buf, pos, t, tab);
    BodyParts(buf, at, t, tab);
    TabPropsGrows(t.props, tab);
    TabNodesGrows(t.children, tab');
    HeadIsStandard(buf, pos, t.name);
    PropsAreStandard(buf, at, t.props, tab, dt, full);
    NodesAreStandard(buf, at + |EncProps(t.props, tab)|, t.children, tab', dt, full);
    WordIsAt(buf, at + |EncProps(t.props, tab)| + |EncNodes(t.children, tab')|, END_NODE);
  }

  lemma HeadIsStandard(buf: Bytes, pos: nat, name: Bytes)
    requires NulFree(name) && At(buf, pos, NodeHead(name))
    ensures HeadIs(buf, pos, WrittenName(name)) && HeadSpan(WrittenName(name)) == |NodeHead(name)|
  {
    var w := WrittenName(name);
    var n := |w| + 1;
    assert NulFree(w);
    assert NodeHead(name) == Be32(BEGIN_NODE) + (Cstr(w) + Zeros(Pad(n)));
    AlignedIsPadded(n);
    hide At, NulFree, FdtFormat.NodeHead, FdtFormat.WrittenName, FdtBytes.Be32, FdtBytes.Zeros;
    hide StringIs, ZerosAre, WordIs;
    AtSplit(buf, pos, Be32(BEGIN_NODE), Cstr(w) + Zeros(Pad(n)));
    AtSplit(buf, pos + 4, Cstr(w), Zeros(Pad(n)));
    WordIsAt(buf, pos, BEGIN_NODE);
    StringIsAt(buf, pos + 4, w);
    ZerosAreAt(buf, pos + 4 + n, Pad(n));
  }

  lemma BodyParts(buf: Bytes, pos: nat, t: Tree, tab: seq<Bytes>)
    requires At(buf, pos, EncBody(t, tab))
    ensures var tab' := TabProps(t.props, tab);
      var ps, cs := EncProps(t.props, tab), EncNodes(t.children, tab');
      && At(buf, pos, ps) && At(buf, pos + |ps|, cs) && At(buf, pos + |ps| + |cs|, Be32(END_NODE))
      && |EncBody(t, tab)| == |ps| + |cs| + 4
  {
    hide At, FdtFormat.EncProps, FdtFormat.EncNodes;
    var tab' := TabProps(t.props, tab);
    var ps, cs := EncProps(t.props, tab), EncNodes(t.children, tab');
    AtSplit(buf, pos, ps + cs, Be32(END_NODE));
    AtSplit(buf, pos, ps, cs);
  }

  lemma HeadParts(buf: Bytes, pos: nat, t: Tree, tab: seq<Bytes>)
    requires At(buf, pos, EncNode(t, tab))
    ensures var w := WrittenName(t.name);
      && At(buf, pos, NodeHead(t.name)) && At(buf, pos + |NodeHead(t.name)|, EncBody(t, tab))
      && |NodeHead(t.name)| == 4 + |w| + 1 + Pad(|w| + 1) && |EncNode(t, tab)| == |NodeHead(t.name)| + |EncBody(t, tab)|
  {
    hide At, FdtFormat.EncBody;
    var w, head := WrittenName(t.name), NodeHead(t.name);
    var s := Cstr(w) + Zeros(Pad(|w| + 1));
    assert head == Be32(BEGIN_NODE) + s;
    AtSplit(buf, pos, head, EncBody(t, tab));
    AtSplit(buf, pos, Be32(BEGIN_NODE), s);
  }

  // ---- The whole blob ----

  /** The header of a written blob, field by field. */
  lemma HeaderFields(h: Bytes, structSize: nat, stringSize: nat)
    requires h == Header(structSize, stringSize)
    ensures At(h, 0, Be32(MAGIC)) && At(h, 4, Be32(Low32(HEADER_SIZE + structSize + stringSize)))
    ensures At(h, 8, Be32(56)) && At(h, 12, Be32(Low32(HEADER_SIZE + structSize))) && At(h, 16, Be32(40))
    ensures At(h, 20, Be32(VERSION)) && At(h, 24, Be32(COMPAT)) && At(h, 28, Be32(0))
    ensures At(h, 32, Be32(Low32(stringSize))) && At(h, 36, Be32(Low32(structSize))) && At(h, 40, Zeros(16))
  {
  }

  lemma AtPrefix(buf: Bytes, a: Bytes, pos: nat, b: Bytes)
    requires a <= buf && At(a, pos, b)
    ensures At(buf, pos, b)
  {
    assert buf[pos..pos + |b|] == a[pos..pos + |b|];
  }

  lemma AtItself(buf: Bytes)
    ensures At(buf, 0, buf)
  {
  }

  /** Where the blocks of a written blob lie. */
  lemma BlobParts(t: Tree)
    ensures var buf, n := Encode(t), |EncNode(t, [])|;
      && |buf| == HEADER_SIZE + n + 4 + |StringBlock(t)|
      && Header(n + 4, |StringBlock(t)|) <= buf
      && At(buf, HEADER_SIZE, EncNode(t, [])) && At(buf, HEADER_SIZE + n, Be32(END))
      && At(buf, HEADER_SIZE + n + 4, Cstrs(TabNode(t, [])))
  {
    hide At, Header, FdtFormat.EncNode, FdtFormat.TabNode, FdtFormat.Cstrs;
    var h := Header(|StructBlock(t)|, |StringBlock(t)|);
    var buf := Encode(t);
    AtItself(buf);
    AtSplit(buf, 0, h + StructBlock(t), StringBlock(t));
    AtSplit(buf, 0, h, StructBlock(t));
    AtSplit(buf, HEADER_SIZE, EncNode(t, []), Be32(END));
    AtSplit(buf, HEADER_SIZE + |EncNode(t, [])| + 4, Cstrs(TabNode(t, [])), Zeros(Pad(|Cstrs(TabNode(t, []))|)));
  }

  /** The blob at the front of a buffer is in standard form, with a complete and true header. */
  lemma EncodeIsStandard(t: Tree, buf: Bytes)
    requires Named(t) && Encode(t) <= buf && |buf| < 0x1_0000_0000
    ensures BlobIs(buf, RawOf(t)) && HeaderIs(buf, |StructBlock(t)|, |StringBlock(t)|)
    ensures |Encode(t)| == 56 + |StructBlock(t)| + |StringBlock(t)| && |StructBlock(t)| == NodeSpan(RawOf(t)) + 4
    ensures |StructBlock(t)| % 4 == 0 && |StringBlock(t)| % 4 == 0
  {
    hide FdtFormat.Encode, FdtFormat.EncNode, FdtFormat.Header, FdtFormat.TabNode, FdtFormat.Cstrs;
    hide FdtFormat.EncStrings;
    hide At, FdtBytes.Be32, NodeIs, NodeSpan, RawOf;
    var n := |EncNode(t, [])|;
    var h, dt := Header(n + 4, |StringBlock(t)|), 56 + n + 4;
    BlobParts(t);
    HeaderFields(h, n + 4, |StringBlock(t)|);
    assert h <= buf;
    HeaderIsTrue(buf, h, n + 4, |StringBlock(t)|);
    SmallLow32(dt);
    AtPrefix(buf, h, 12, Be32(dt));
    AtPrefix(buf, Encode(t), 56, EncNode(t, []));
    AtPrefix(buf, Encode(t), 56 + n, Be32(END));
    AtPrefix(buf, Encode(t), dt, Cstrs(TabNode(t, [])));
    NodeIsStandard(buf, 56, t, [], dt, TabNode(t, []));
    WordIsAt(buf, 56 + n, END);
    EncNodeAligned(t, []);
    StringBlockAligned(TabNode(t, []));
    SumAligned(n, 4);
  }

  lemma MarksAre(buf: Bytes)
    requires At(buf, 0, Be32(MAGIC)) && At(buf, 24, Be32(COMPAT))
    ensures |buf| >= 28 && buf[..4] == [0xd0, 0x0d, 0xfe, 0xed] && buf[24..28] == [0, 0, 0, 16]
  {
    assert buf[..4] == buf[0..4];
  }

  lemma HeaderIsTrue(buf: Bytes, h: Bytes, structSize: nat, stringSize: nat)
    requires h == Header(structSize, stringSize) && h <= buf && 56 + structSize + stringSize < 0x1_0000_0000
    ensures HeaderIs(buf, structSize, stringSize)
    ensures |buf| >= 56 && buf[..4] == [0xd0, 0x0d, 0xfe, 0xed] && buf[24..28] == [0, 0, 0, 16]
  {
    hide At, WordIs, ZerosAre, FdtFormat.Header, FdtBytes.Be32, FdtBytes.Low32, FdtBytes.Zeros;
    HeaderFields(h, structSize, stringSize);
    SmallLow32(17);
    SmallLow32(40);
    SmallLow32(56);
    SmallLow32(0);
    HeaderWord(buf, h, 4, 56 + structSize + stringSize);
    HeaderWord(buf, h, 8, 56);
    HeaderWord(buf, h, 12, 56 + structSize);
    HeaderWord(buf, h, 16, 40);
    HeaderWord(buf, h, 20, 17);
    HeaderWord(buf, h, 28, 0);
    HeaderWord(buf, h, 32, stringSize);
    HeaderWord(buf, h, 36, structSize);
    AtPrefix(buf, h, 0, Be32(MAGIC));
    AtPrefix(buf, h, 24, Be32(COMPAT));
    AtPrefix(buf, h, 40, Zeros(16));
    ZerosAreAt(buf, 40, 16);
    MarksAre(buf);
  }

  lemma HeaderWord(buf: Bytes, h: Bytes, pos: nat, w: nat)
    requires h <= buf && w < 0x1_0000_0000 && At(h, pos, Be32(Low32(w)))
    ensures WordIs(buf, pos, w)
  {
    SmallLow32(w);
    AtPrefix(buf, h, pos, Be32(w));
    WordIsAt(buf, pos, w);
  }

  lemma StringBlockAligned(tab: seq<Bytes>)
    ensures |EncStrings(tab)| % 4 == 0
  {
  }

  /** The strings block holds every name once. */
  lemma NamesAreStoredOnce(t: Tree)
    ensures NoDuplicates(TabNode(t, [])) && Cstrs(TabNode(t, [])) <= StringBlock(t)
  {
    TabNodeGrows(t, []);
  }

  // ---- The values ----

  /** Where the i-th string starts in the value of a property. */
  function StringStart(ss: seq<Bytes>, i: nat): nat
    requires i <= |ss|
  {
    if i == 0 then 0 else |ss[0]| + 1 + StringStart(ss[1..], i - 1)
  }

  lemma {:induction false} WordsAre(ns: seq<U32>, i: nat)
    requires i < |ns|
    ensures |Words(ns)| == 4 * |ns| && WordIs(Words(ns), 4 * i, ns[i])
  {
    var d, rest := Words(ns), Words(ns[1..]);
    SplitOfWords(ns);
    WordIsAt(d, 0, ns[0]);
    assert At(d, 0, Be32(ns[0]));
    if i > 0 {
      WordsAre(ns[1..], i - 1);
      WordMoves(Be32(ns[0]), rest, 4 * i - 4, ns[i]);
    }
  }

  lemma WordMoves(a: Bytes, b: Bytes, pos: nat, w: int)
    requires WordIs(b, pos, w)
    ensures WordIs(a + b, |a| + pos, w)
  {
  }

  lemma StringMoves(a: Bytes, b: Bytes, pos: nat, s: Bytes)
    requires StringIs(b, pos, s)
    ensures StringIs(a + b, |a| + pos, s)
  {
    var d := a + b;
    forall i | 0 <= i < |s| ensures d[|a| + pos + i] == s[i] {
      assert d[|a| + pos + i] == b[pos + i];
    }
  }

  lemma FirstStringIs(s: Bytes, rest: Bytes)
    requires NulFree(s)
    ensures StringIs(Cstr(s) + rest, 0, s)
  {
  }

  lemma {:induction false} StringsAre(ss: seq<Bytes>, i: nat)
    requires i < |ss| && forall j :: 0 <= j < |ss| ==> NulFree(ss[j])
    ensures |Cstrs(ss)| == StringStart(ss, |ss|) && StringIs(Cstrs(ss), StringStart(ss, i), ss[i])
    decreases |ss|
  {
    hide StringIs;
    var rest := Cstrs(ss[1..]);
    FirstStringIs(ss[0], rest);
    if |ss| > 1 {
      StringsAre(ss[1..], if i == 0 then 0 else i - 1);
      if i > 0 {
        StringMoves(Cstr(ss[0]), rest, StringStart(ss[1..], i - 1), ss[i]);
      }
    }
  }

  /** A value holds exactly the numbers, one word each, or the strings, each with its NUL, one after the other. */
  lemma ValueIs(p: Prop)
    requires OneKind(p) && forall j :: 0 <= j < |p.strings| ==> NulFree(p.strings[j])
    ensures |PropData(p)| == 4 * |p.numbers| + StringStart(p.strings, |p.strings|)
    ensures forall i :: 0 <= i < |p.numbers| ==> WordIs(PropData(p), 4 * i, p.numbers[i])
    ensures forall i :: 0 <= i < |p.strings| ==> StringIs(PropData(p), StringStart(p.strings, i), p.strings[i])
  {
    if p.numbers != [] {
      assert PropData(p) == Words(p.numbers);
      forall i | 0 <= i < |p.numbers| ensures WordIs(PropData(p), 4 * i, p.numbers[i]) {
        WordsAre(p.numbers, i);
      }
      SplitOfWords(p.numbers);
    } else {
      assert PropData(p) == Cstrs(p.strings);
      forall i | 0 <= i < |p.strings| ensures StringIs(PropData(p), StringStart(p.strings, i), p.strings[i]) {
        StringsAre(p.strings, i);
      }
      if p.strings != [] {
        StringsAre(p.strings, 0);
      }
    }
  }

  /** What is guessed from the bytes d: their words, or their strings, all of them in order. */
  lemma GuessIs(name: Bytes, d: Bytes)
    requires Reread(name, d).Some?
    ensures var p := Reread(name, d).value;
      && p.name == name && OneKind(p) && |d| == 4 * |p.numbers| + StringStart(p.strings, |p.strings|)
      && (forall i :: 0 <= i < |p.numbers| ==> WordIs(d, 4 * i, p.numbers[i]))
      && (forall i :: 0 <= i < |p.strings| ==> StringIs(d, StringStart(p.strings, i), p.strings[i]))
  {
    var p := Reread(name, d).value;
    RereadKeepsBytes(name, d);
    if p.strings != [] {
      SplitCounts(d, []);
      CstrsOfSplit(d, []);
      assert Cstrs(p.strings) == d;
      CstrsCount(p.strings);
    }
    ValueIs(p);
  }

  // ---- Round trips ----

  /** The limits of the round trip: names end at a NUL, and a node holds fewer than a million entries. */
  predicate Bounded(t: Tree) {
    Named(t) && FdtDecoding.Bounded(RawOf(t))
  }

  /** The reader can make something of every property. */
  predicate Readable(t: Tree) {
    FdtDecoding.Readable(RawOf(t))
  }

  function NormalRoot(t: Tree): Tree
    requires Readable(t)
  {
    FdtDecoding.NormalRoot(RawOf(t))
  }

  /**
   * Decompiling a buffer that starts with a compiled tree gives the tree's normal form, or a report if
   * some property is unreadable; what follows in the buffer does not matter.
   */
  lemma DecodeOfEncode(t: Tree, tail: Bytes)
    requires Bounded(t) && |Encode(t) + tail| < 0x1_0000_0000
    ensures Decode(Encode(t) + tail) == if Readable(t) then Some(NormalRoot(t)) else None
  {
    hide FdtFormat.Encode, FdtParse.Decode, BlobIs, HeaderIs, RawOf, Named;
    EncodeIsStandard(t, Encode(t) + tail);
    DecodeOfStandard(Encode(t) + tail, RawOf(t));
  }

  // ---- Nothing is lost at byte level ----

  lemma {:induction false} GuessedKeepsBytes(ps: seq<Prop>, tab: seq<Bytes>)
    requires ReadableProps(RawProps(ps))
    ensures var qs := Guessed(RawProps(ps));
      EncProps(qs, tab) == EncProps(ps, tab) && TabProps(qs, tab) == TabProps(ps, tab)
  {
    if ps != [] {
      assert RawProps(ps)[1..] == RawProps(ps[1..]);
      RereadKeepsBytes(ps[0].name, PropData(ps[0]));
      GuessedKeepsBytes(ps[1..], Intern(tab, ps[0].name));
    }
  }

  lemma WrittenNameTwice(name: Bytes)
    ensures WrittenName(WrittenName(name)) == WrittenName(name)
    ensures WrittenName(RootName(WrittenName(name))) == WrittenName(name)
  {
  }

  lemma {:induction false} NormalKeepsBytes(t: Tree, tab: seq<Bytes>)
    requires Readable(t)
    ensures var u := Normal(RawOf(t));
      && EncBody(u, tab) == EncBody(t, tab) && EncNode(u, tab) == EncNode(t, tab)
      && TabNode(u, tab) == TabNode(t, tab)
    decreases t, 1
  {
    WrittenNameTwice(t.name);
    GuessedKeepsBytes(t.props, tab);
    NormalAllKeepsBytes(t.children, TabProps(t.props, tab));
  }

  lemma {:induction false} NormalAllKeepsBytes(ts: seq<Tree>, tab: seq<Bytes>)
    requires ReadableNodes(RawNodes(ts))
    ensures var us := NormalAll(RawNodes(ts));
      EncNodes(us, tab) == EncNodes(ts, tab) && TabNodes(us, tab) == TabNodes(ts, tab)
    decreases ts, 0
  {
    if ts != [] {
      assert RawNodes(ts)[1..] == RawNodes(ts[1..]);
      NormalKeepsBytes(ts[0], tab);
      NormalAllKeepsBytes(ts[1..], TabNode(ts[0], tab));
    }
  }

  lemma WritingUsesWrittenName(t: Tree, name: Bytes, tab: seq<Bytes>)
    requires WrittenName(name) == WrittenName(t.name)
    ensures EncNode(t.(name := name), tab) == EncNode(t, tab) && TabNode(t.(name := name), tab) == TabNode(t, tab)
  {
  }

  lemma SameBlocksSameBlob(t: Tree, u: Tree)
    requires EncNode(t, []) == EncNode(u, []) && TabNode(t, []) == TabNode(u, [])
    ensures Encode(t) == Encode(u)
  {
    hide FdtFormat.EncNode, FdtFormat.TabNode, FdtFormat.Header, FdtFormat.EncStrings;
  }

  lemma NormalRootKeepsBytes(t: Tree)
    requires Readable(t)
    ensures Encode(NormalRoot(t)) == Encode(t)
  {
    hide FdtFormat.EncNode, FdtFormat.TabNode, FdtFormat.Encode;
    NormalKeepsBytes(t, []);
    WrittenNameTwice(t.name);
    RootNameIs(WrittenName(t.name));
    WritingUsesWrittenName(Normal(RawOf(t)), RootName(WrittenName(t.name)), []);
    SameBlocksSameBlob(NormalRoot(t), t);
  }

  /** Compile, decompile, compile again: the same bytes, whichever way each property was guessed. */
  lemma ByteFixpoint(t: Tree, tail: Bytes)
    requires Bounded(t) && |Encode(t) + tail| < 0x1_0000_0000
    ensures Readable(t) <==> Decode(Encode(t) + tail).Some?
    ensures Readable(t) ==> Encode(Decode(Encode(t) + tail).value) == Encode(t)
  {
    hide *;
    DecodeOfEncode(t, tail);
    if Readable(t) {
      NormalRootKeepsBytes(t);
    }
  }

  // ---- When the tree itself comes back ----

  predicate OwnKinds(ps: seq<Prop>) {
    forall i :: 0 <= i < |ps| ==> OwnKind(ps[i])
  }

  /** Below the root: no node is named "/", and every property is guessed as its own kind. */
  predicate FaithfulAll(ts: seq<Tree>)
    decreases ts, 0
  {
    ts == [] || (ts[0].name != Ascii("/") && Faithful(ts[0]) && FaithfulAll(ts[1..]))
  }

  predicate Faithful(t: Tree)
    decreases t, 1
  {
    OwnKinds(t.props) && FaithfulAll(t.children)
  }

  lemma {:induction false} GuessedIsFaithful(ps: seq<Prop>)
    requires forall i :: 0 <= i < |ps| ==> OneKind(ps[i])
    ensures ReadableProps(RawProps(ps)) && Guessed(RawProps(ps)) == ps <==> OwnKinds(ps)
  {
    hide FdtClassify.Reread, FdtClassify.OwnKind;
    if ps != [] {
      RereadIsFaithful(ps[0]);
      GuessedIsFaithful(ps[1..]);
      assert RawProps(ps)[1..] == RawProps(ps[1..]);
      assert OwnKinds(ps) <==> OwnKind(ps[0]) && OwnKinds(ps[1..]) by {
        assert ps == [ps[0]] + ps[1..];
      }
      if ReadableProps(RawProps(ps)) {
        var qs := Guessed(RawProps(ps));
        assert qs[0] == Reread(ps[0].name, PropData(ps[0])).value && qs[1..] == Guessed(RawProps(ps[1..]));
      }
    }
  }

  lemma {:induction false} NormalIsFaithful(t: Tree)
    requires OneKinds(t)
    ensures Readable(t) && Normal(RawOf(t)).props == t.props && Normal(RawOf(t)).children == t.children <==> Faithful(t)
    decreases t, 1
  {
    GuessedIsFaithful(t.props);
    NormalAllIsFaithful(t.children);
  }

  /** A child comes back exactly if it is faithful and not named "/", which is written as the empty name. */
  lemma ChildIsFaithful(t: Tree)
    requires OneKinds(t)
    ensures Readable(t) && Normal(RawOf(t)) == t <==> t.name != Ascii("/") && Faithful(t)
    decreases t, 2
  {
    hide Faithful, FdtTree.OneKinds, Guessed, NormalAll, ReadableProps, ReadableNodes;
    NormalIsFaithful(t);
    NormalName(RawOf(t));
    assert Ascii("/") == [0x2f];
  }

  lemma {:induction false} NormalAllIsFaithful(ts: seq<Tree>)
    requires OneKindsAll(ts)
    ensures ReadableNodes(RawNodes(ts)) && NormalAll(RawNodes(ts)) == ts <==> FaithfulAll(ts)
    decreases ts, 0
  {
    hide Faithful, FdtTree.OneKinds, RawOf, Normal, FdtDecoding.Readable;
    if ts != [] {
      ChildIsFaithful(ts[0]);
      NormalAllIsFaithful(ts[1..]);
      assert RawNodes(ts)[1..] == RawNodes(ts[1..]);
      if ReadableNodes(RawNodes(ts)) {
        var us := NormalAll(RawNodes(ts));
        assert us[0] == Normal(RawOf(ts[0])) && us[1..] == NormalAll(RawNodes(ts[1..]));
        assert ts == [ts[0]] + ts[1..];
      }
    }
  }

  /** A tree survives exactly when its root is named, no other node is called "/", and every guess is right. */
  lemma TreeRoundTrip(t: Tree, tail: Bytes)
    requires OneKinds(t) && Bounded(t) && |Encode(t) + tail| < 0x1_0000_0000
    ensures Decode(Encode(t) + tail) == Some(t) <==> t.name != [] && Faithful(t)
  {
    hide FdtFormat.Encode, FdtParse.Decode, NormalAll, Guessed, Readable, Faithful, Bounded;
    DecodeOfEncode(t, tail);
    NormalIsFaithful(t);
    NormalName(RawOf(t));
    assert Ascii("/") == [0x2f];
  }

  function Empties(n: nat): (ss: seq<Bytes>)
    ensures |ss| == n
  {
    seq(n, _ => [])
  }

  lemma {:induction false} SplitZeros(n: nat)
    ensures SplitStrings(Zeros(n), []) == Some(Empties(n))
  {
    if n > 0 {
      SplitZeros(n - 1);
      assert Zeros(n)[1..] == Zeros(n - 1) && [[]] + Empties(n - 1) == Empties(n);
    }
  }

  lemma {:induction false} WordsOfZeros(n: nat)
    ensures Words(seq(n, _ => 0)) == Zeros(4 * n)
  {
    if n > 0 {
      var ns: seq<U32> := seq(n, _ => 0);
      WordsOfZeros(n - 1);
      assert ns[1..] == seq(n - 1, _ => 0) && Be32(0) == Zeros(4);
      assert Zeros(4) + Zeros(4 * n - 4) == Zeros(4 * n);
    }
  }

  /** The guess is lossy: under a name that is not known to hold integers, n zeros come back as 4n empty strings. */
  lemma ZerosBecomeStrings(name: Bytes, n: nat)
    requires !IsIntProperty(name)
    ensures var p := Prop(name, seq(n, _ => 0), []);
      Reread(name, PropData(p)) == Some(Prop(name, [], Empties(4 * n)))
  {
    WordsOfZeros(n);
    SplitZeros(4 * n);
    assert Zeros(4 * n) + [] == Zeros(4 * n);
  }
}
