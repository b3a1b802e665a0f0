/**
 * The flattened form of a device tree: header, structure block and strings block, as in sections 5.2,
 * 5.4 and 5.5 of the Devicetree Specification.
 */
module FdtFormat {
  import opened FdtBytes
  import opened FdtTree

  const MAGIC: U32 := 0xd00dfeed
  const VERSION: U32 := 17
  const COMPAT: U32 := 16
  const BEGIN_NODE: U32 := 1
  const END_NODE: U32 := 2
  const PROP: U32 := 3
  const NOP: U32 := 4
  const END: U32 := 9

  const HEADER_SIZE: nat := 56

  // ---- The string table ----

  /** Where s starts in the concatenation of the table; its end if s is not in it. */
  function StrOff(tab: seq<Bytes>, s: Bytes): nat {
    if tab == [] || tab[0] == s then 0 else |tab[0]| + 1 + StrOff(tab[1..], s)
  }

  function Intern(tab: seq<Bytes>, s: Bytes): seq<Bytes> {
    if s in tab then tab else tab + [s]
  }

  function Cstrs(ss: seq<Bytes>): Bytes {
    if ss == [] then [] else Cstr(ss[0]) + Cstrs(ss[1..])
  }

  function EncStrings(tab: seq<Bytes>): Bytes {
    Cstrs(tab) + Zeros(Pad(|Cstrs(tab)|))
  }

  // ---- Properties ----

  function Words(ns: seq<U32>): Bytes {
    if ns == [] then [] else Be32(ns[0]) + Words(ns[1..])
  }

  function PropData(p: Prop): Bytes {
    Words(p.numbers) + Cstrs(p.strings)
  }

  function EncProp(p: Prop, tab: seq<Bytes>): Bytes {
    var d := PropData(p);
    Be32(PROP) + Be32(Low32(|d|)) + Be32(Low32(StrOff(tab, p.name))) + d + Zeros(Pad(|d|))
  }

  function EncProps(ps: seq<Prop>, tab: seq<Bytes>): Bytes {
    if ps == [] then [] else EncProp(ps[0], tab) + EncProps(ps[1..], Intern(tab, ps[0].name))
  }

  function TabProps(ps: seq<Prop>, tab: seq<Bytes>): seq<Bytes> {
    if ps == [] then tab else TabProps(ps[1..], Intern(tab, ps[0].name))
  }

  // ---- Nodes ----

  function WrittenName(name: Bytes): Bytes {
    if name == Ascii("/") then [] else name
  }

  function NodeHead(name: Bytes): Bytes {
    var s := Cstr(WrittenName(name));
    Be32(BEGIN_NODE) + s + Zeros(Pad(|s|))
  }

  function TabNode(t: Tree, tab: seq<Bytes>): seq<Bytes>
    decreases t, 1
  {
    TabNodes(t.children, TabProps(t.props, tab))
  }

  function TabNodes(ts: seq<Tree>, tab: seq<Bytes>): seq<Bytes>
    decreases ts, 0
  {
    if ts == [] then tab else TabNodes(ts[1..], TabNode(ts[0], tab))
  }

  /** A node's entries: its properties and then its children, closed by the end token. */
  function EncBody(t: Tree, tab: seq<Bytes>): Bytes
    decreases t, 1
  {
    EncProps(t.props, tab) + EncNodes(t.children, TabProps(t.props, tab)) + Be32(END_NODE)
  }

  function EncNode(t: Tree, tab: seq<Bytes>): Bytes
    decreases t, 2
  {
    NodeHead(t.name) + EncBody(t, tab)
  }

  function EncNodes(ts: seq<Tree>, tab: seq<Bytes>): Bytes
    decreases ts, 0
  {
    if ts == [] then [] else EncNode(ts[0], tab) + EncNodes(ts[1..], TabNode(ts[0], tab))
  }

  // ---- The whole blob ----

  /** Header and empty memory reservation block around the four fields that depend on the tree. */
  function HeaderOf(total: U32, stringOff: U32, stringSize: U32, structSize: U32): (h: Bytes)
    ensures |h| == HEADER_SIZE
  {
    Be32(MAGIC) + Be32(total) + Be32(56) + Be32(stringOff) +
    (Be32(40) + Be32(VERSION) + Be32(COMPAT) + Be32(0)) +
    Be32(stringSize) + Be32(structSize) + Zeros(16)
  }

  function Header(structSize: nat, stringSize: nat): (h: Bytes)
    ensures |h| == HEADER_SIZE
  {
    HeaderOf(Low32(HEADER_SIZE + structSize + stringSize), Low32(HEADER_SIZE + structSize),
             Low32(stringSize), Low32(structSize))
  }

  function StructBlock(t: Tree): Bytes {
    EncNode(t, []) + Be32(END)
  }

  function StringBlock(t: Tree): Bytes {
    EncStrings(TabNode(t, []))
  }

  function Encode(t: Tree): Bytes {
    Header(|StructBlock(t)|, |StringBlock(t)|) + StructBlock(t) + StringBlock(t)
  }

  // ---- Layout ----

  predicate NoDuplicates(tab: seq<Bytes>) {
    forall i, j :: 0 <= i < j < |tab| ==> tab[i] != tab[j]
  }

  lemma InternKeepsNoDuplicates(tab: seq<Bytes>, s: Bytes)
    requires NoDuplicates(tab)
    ensures NoDuplicates(Intern(tab, s)) && tab <= Intern(tab, s) && s in Intern(tab, s)
  {
    assert (tab + [s])[|tab|] == s;
  }

  lemma {:induction false} TabPropsGrows(ps: seq<Prop>, tab: seq<Bytes>)
    requires NoDuplicates(tab)
    ensures NoDuplicates(TabProps(ps, tab)) && tab <= TabProps(ps, tab)
  {
    if ps != [] {
      InternKeepsNoDuplicates(tab, ps[0].name);
      TabPropsGrows(ps[1..], Intern(tab, ps[0].name));
    }
  }

  lemma {:induction false} TabNodeGrows(t: Tree, tab: seq<Bytes>)
    requires NoDuplicates(tab)
    ensures NoDuplicates(TabNode(t, tab)) && TabProps(t.props, tab) <= TabNode(t, tab) && tab <= TabNode(t, tab)
    decreases t, 1
  {
    TabPropsGrows(t.props, tab);
    TabNodesGrows(t.children, TabProps(t.props, tab));
  }

  lemma {:induction false} TabNodesGrows(ts: seq<Tree>, tab: seq<Bytes>)
    requires NoDuplicates(tab)
    ensures NoDuplicates(TabNodes(ts, tab)) && tab <= TabNodes(ts, tab)
    decreases ts, 0
  {
    if ts != [] {
      TabNodeGrows(ts[0], tab);
      TabNodesGrows(ts[1..], TabNode(ts[0], tab));
    }
  }

  /** A name's offset leads to a NUL-terminated copy of it in every later table. */
  lemma {:induction false} NameAtOffset(tab: seq<Bytes>, s: Bytes, full: seq<Bytes>)
    requires Intern(tab, s) <= full
    ensures var off := StrOff(tab, s); off + |s| + 1 <= |Cstrs(full)| && Cstrs(full)[off..off + |s| + 1] == Cstr(s)
  {
    if tab == [] || tab[0] == s {
      assert full[0] == s;
    } else {
      assert full[0] == tab[0];
      assert s in tab <==> s in tab[1..];
      assert Intern(tab[1..], s) <= full[1..];
      NameAtOffset(tab[1..], s, full[1..]);
      ShiftSlice(Cstr(tab[0]), Cstrs(full[1..]), StrOff(tab[1..], s), |s| + 1);
    }
  }

  lemma ShiftSlice(a: Bytes, b: Bytes, k: nat, n: nat)
    requires k + n <= |b|
    ensures (a + b)[|a| + k..|a| + k + n] == b[k..k + n]
  {
  }

  lemma EncPropAligned(p: Prop, tab: seq<Bytes>)
    ensures |EncProp(p, tab)| == 12 + |PropData(p)| + Pad(|PropData(p)|) && |EncProp(p, tab)| % 4 == 0
  {
    SumAligned(12, |PropData(p)| + Pad(|PropData(p)|));
  }

  lemma {:induction false} EncPropsAligned(ps: seq<Prop>, tab: seq<Bytes>)
    ensures |EncProps(ps, tab)| % 4 == 0
  {
    if ps != [] {
      EncPropAligned(ps[0], tab);
      EncPropsAligned(ps[1..], Intern(tab, ps[0].name));
      SumAligned(|EncProp(ps[0], tab)|, |EncProps(ps[1..], Intern(tab, ps[0].name))|);
    }
  }

  lemma NodeHeadAligned(name: Bytes)
    ensures |NodeHead(name)| % 4 == 0
  {
    var s := Cstr(WrittenName(name));
    SumAligned(4, |s| + Pad(|s|));
  }

  /** Every node starts and ends on a multiple of four. */
  lemma {:induction false} EncNodeAligned(t: Tree, tab: seq<Bytes>)
    ensures |EncBody(t, tab)| % 4 == 0 && |EncNode(t, tab)| % 4 == 0
    decreases t, 1
  {
    var ps, cs := EncProps(t.props, tab), EncNodes(t.children, TabProps(t.props, tab));
    NodeHeadAligned(t.name);
    EncPropsAligned(t.props, tab);
    EncNodesAligned(t.children, TabProps(t.props, tab));
    SumAligned(|ps|, |cs|);
    SumAligned(|ps + cs|, 4);
    SumAligned(|NodeHead(t.name)|, |EncBody(t, tab)|);
  }

  lemma {:induction false} EncNodesAligned(ts: seq<Tree>, tab: seq<Bytes>)
    ensures |EncNodes(ts, tab)| % 4 == 0
    decreases ts, 0
  {
    if ts != [] {
      EncNodeAligned(ts[0], tab);
      EncNodesAligned(ts[1..], TabNode(ts[0], tab));
      SumAligned(|EncNode(ts[0], tab)|, |EncNodes(ts[1..], TabNode(ts[0], tab))|);
    }
  }
}
