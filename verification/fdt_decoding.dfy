/** What the reader makes of blobs in the standard form, whoever wrote them. */
module FdtDecoding {
  import opened FdtBytes
  import opened FdtTree
  import opened FdtFormat
  import opened FdtClassify
  import opened FdtParse
  import opened FdtStandard

  // ---- Pieces of a buffer ----

  predicate At(buf: Bytes, pos: nat, b: Bytes) {
    pos + |b| <= |buf| && buf[pos..pos + |b|] == b
  }

  lemma AtFits(buf: Bytes, pos: nat, b: Bytes)
    requires At(buf, pos, b)
    ensures pos + |b| <= |buf|
  {
  }

  lemma AtSplit(buf: Bytes, pos: nat, a: Bytes, b: Bytes)
    ensures At(buf, pos, a + b) <==> At(buf, pos, a) && At(buf, pos + |a|, b)
  {
    if pos + |a| + |b| <= |buf| {
      var s := buf[pos..pos + |a| + |b|];
      assert s[..|a|] == buf[pos..pos + |a|] && s[|a|..] == buf[pos + |a|..pos + |a| + |b|];
      assert s == s[..|a|] + s[|a|..];
      assert (a + b)[..|a|] == a && (a + b)[|a|..] == b;
    }
  }

  lemma ReadWordAt(buf: Bytes, pos: nat, w: U32)
    requires At(buf, pos, Be32(w))
    ensures ReadWord(buf, pos) == Ok(w, pos + 4)
  {
    Be32RoundTrip(w);
  }

  lemma {:induction false} ReadCstrAt(buf: Bytes, pos: nat, s: Bytes)
    requires At(buf, pos, Cstr(s)) && NulFree(s)
    ensures ReadCstr(buf, pos) == Ok(s, pos + |s| + 1)
    decreases |s|
  {
    assert buf[pos..pos + |s| + 1] == Cstr(s);
    assert buf[pos] == Cstr(s)[0];
    if s != [] {
      assert s[0] in s && s == [s[0]] + s[1..];
      assert buf[pos + 1..pos + 1 + |s[1..]| + 1] == Cstr(s)[1..] == Cstr(s[1..]);
      ReadCstrAt(buf, pos + 1, s[1..]);
    }
  }

  /** A string read yields exactly the NUL-free bytes up to the next NUL, and ends right behind it. */
  lemma {:induction false} ReadCstrIff(buf: Bytes, pos: nat, s: Bytes, q: nat)
    ensures ReadCstr(buf, pos) == Ok(s, q) <==> At(buf, pos, Cstr(s)) && NulFree(s) && q == pos + |s| + 1
    decreases |s|
  {
    if At(buf, pos, Cstr(s)) && NulFree(s) {
      ReadCstrAt(buf, pos, s);
    }
    if ReadCstr(buf, pos) == Ok(s, q) && s != [] {
      ReadCstrIff(buf, pos + 1, s[1..], q);
      assert buf[pos..q] == [buf[pos]] + buf[pos + 1..q];
      assert Cstr(s) == [s[0]] + Cstr(s[1..]);
    }
  }

  lemma AtInner(buf: Bytes, pos: nat, b: Bytes, k: nat, part: Bytes)
    requires At(buf, pos, b) && k + |part| <= |b| && b[k..k + |part|] == part
    ensures At(buf, pos + k, part)
  {
    var c := buf[pos..pos + |b|];
    assert forall i :: 0 <= i < |part| ==> buf[pos + k + i] == c[k + i] == part[i];
  }

  // ---- Values ----

  lemma {:induction false} ReadWordsAt(buf: Bytes, pos: nat, d: Bytes)
    requires At(buf, pos, d) && |d| % 4 == 0
    ensures ReadWords(buf, pos, |d| / 4) == Ok(SplitWords(d), pos + |d|)
    decreases |d|
  {
    if d != [] {
      AtSplit(buf, pos, d[..4], d[4..]);
      assert d == d[..4] + d[4..];
      ReadWordsAt(buf, pos + 4, d[4..]);
    }
  }

  lemma {:induction false} ScanAt(buf: Bytes, pos: nat, d: Bytes, done: seq<Bytes>, cur: Bytes)
    requires At(buf, pos, d)
    ensures ScanStrings(buf, pos, |d|, done, cur) ==
      match SplitStrings(d, cur) case Some(v) => Got(done + v, pos + |d|) case None => Declined
    decreases |d|
  {
    if d == [] {
      assert done + [] == done;
    } else {
      AtSplit(buf, pos, [d[0]], d[1..]);
      assert d == [d[0]] + d[1..];
      assert buf[pos] == buf[pos..pos + 1][0] == d[0];
      if d[0] == 0 {
        ScanAt(buf, pos + 1, d[1..], done + [cur], []);
        if SplitStrings(d[1..], []).Some? {
          var v := SplitStrings(d[1..], []).value;
          assert done + [cur] + v == done + ([cur] + v);
        }
      } else if Printable(d[0]) {
        ScanAt(buf, pos + 1, d[1..], done, cur + [d[0]]);
      }
    }
  }

  lemma ReadIntDataAt(buf: Bytes, pos: nat, d: Bytes)
    requires At(buf, pos, d) && |buf| < 0x1_0000_0000
    ensures ReadIntData(buf, pos, Low32(|d|)) == if |d| % 4 == 0 then Got(SplitWords(d), pos + |d|) else Declined
  {
    SmallLow32(|d|);
    if |d| % 4 == 0 {
      ReadWordsAt(buf, pos, d);
    }
  }

  lemma ReadStrDataAt(buf: Bytes, pos: nat, d: Bytes)
    requires At(buf, pos, d) && pos < |buf| && pos + |d| + Pad(|d|) <= |buf| < 0x1_0000_0000
    ensures ReadStrData(buf, pos, Low32(|d|)) ==
      match SplitStrings(d, []) case Some(v) => Got(v, pos + |d| + Pad(|d|)) case None => Declined
  {
    SmallLow32(|d|);
    ScanAt(buf, pos, d, [], []);
    if SplitStrings(d, []).Some? {
      assert [] + SplitStrings(d, []).value == SplitStrings(d, []).value;
    }
  }

  lemma NoPad(n: nat)
    requires n % 4 == 0
    ensures Pad(n) == 0
  {
  }

  /** Reading a value makes exactly the guess of Reread, and skips the padding. */
  lemma ReadValueAt(buf: Bytes, pos: nat, name: Bytes, d: Bytes)
    requires At(buf, pos, d) && pos < |buf| && pos + |d| + Pad(|d|) <= |buf| < 0x1_0000_0000
    ensures ReadValue(buf, pos, Low32(|d|), name) ==
      match Reread(name, d) case Some(p) => Ok(p, pos + |d| + Pad(|d|)) case None => Report
  {
    ReadIntDataAt(buf, pos, d);
    ReadStrDataAt(buf, pos, d);
    if |d| % 4 == 0 {
      NoPad(|d|);
    }
  }

  // ---- From the standard to the parsing functions ----

  lemma WordIsAt(buf: Bytes, pos: nat, w: U32)
    ensures WordIs(buf, pos, w) <==> At(buf, pos, Be32(w))
  {
    if pos + 4 <= |buf| {
      var b := buf[pos..pos + 4];
      assert WordAt(buf, pos) == FromBe32(b);
      Be32RoundTrip(w);
      FromBe32RoundTrip(b);
    }
  }

  /** A word is read exactly as its four bytes say, and reported exactly when they are not there. */
  lemma ReadWordIs(buf: Bytes, pos: nat)
    ensures ReadWord(buf, pos) == if pos + 4 <= |buf| then Ok(WordAt(buf, pos), pos + 4) else Report
  {
    if pos + 4 <= |buf| {
      WordIsAt(buf, pos, WordAt(buf, pos));
      ReadWordAt(buf, pos, WordAt(buf, pos));
    }
  }

  lemma BytesAreAt(buf: Bytes, pos: nat, d: Bytes)
    ensures BytesAre(buf, pos, d) <==> At(buf, pos, d)
  {
    if At(buf, pos, d) {
      var b := buf[pos..pos + |d|];
      assert forall i :: 0 <= i < |d| ==> b[i] == buf[pos + i];
    }
  }

  lemma ZerosAreAt(buf: Bytes, pos: nat, n: nat)
    ensures ZerosAre(buf, pos, n) <==> At(buf, pos, Zeros(n))
  {
    BytesAreAt(buf, pos, Zeros(n));
    if BytesAre(buf, pos, Zeros(n)) {
      forall i | pos <= i < pos + n ensures buf[i] == 0 {
        assert buf[pos + (i - pos)] == Zeros(n)[i - pos];
      }
    }
  }

  lemma StringIsAt(buf: Bytes, pos: nat, s: Bytes)
    ensures StringIs(buf, pos, s) <==> At(buf, pos, Cstr(s)) && NulFree(s)
  {
    BytesAreAt(buf, pos, s);
    AtSplit(buf, pos, s, [0]);
    if pos + |s| < |buf| {
      assert buf[pos + |s|..pos + |s| + 1] == [buf[pos + |s|]];
    }
  }

  lemma AlignedIsPadded(n: nat)
    ensures Aligned(n) == n + Pad(n)
  {
  }

  lemma ReadHeadIs(buf: Bytes, pos: nat, name: Bytes)
    requires HeadIs(buf, pos, name)
    ensures ReadWord(buf, pos) == Ok(BEGIN_NODE, pos + 4)
    ensures ReadPadded(buf, pos + 4) == Ok(name, pos + HeadSpan(name))
  {
    ReadWordIs(buf, pos);
    StringIsAt(buf, pos + 4, name);
    AlignedIsPadded(|name| + 1);
    ReadCstrAt(buf, pos + 4, name);
  }

  /** The strings block starts at dt, as the header says. */
  predicate HasStringsAt(buf: Bytes, dt: nat) {
    |buf| < 0x1_0000_0000 && WordIs(buf, 12, dt)
  }

  lemma ReadNameIs(buf: Bytes, pos: nat, off: U32, dt: nat, s: Bytes)
    requires HasStringsAt(buf, dt) && StringIs(buf, dt + off, s) && pos < |buf|
    ensures ReadName(buf, pos, off) == Ok(s, pos)
  {
    hide FdtParse.ReadCstr, FdtParse.ReadWord, FdtBytes.Low32;
    ReadWordIs(buf, 12);
    StringIsAt(buf, dt + off, s);
    ReadCstrAt(buf, dt + off, s);
    SmallLow32(dt + off);
  }

  lemma ReadPropIs(buf: Bytes, pos: nat, dt: nat, p: RawProp)
    requires HasStringsAt(buf, dt) && PropIs(buf, pos, dt, p) && pos + PropSpan(p) < |buf|
    ensures ReadWord(buf, pos) == Ok(PROP, pos + 4)
    ensures ReadProp(buf, pos + 4) ==
      match Reread(p.name, p.value) case Some(q) => Ok(q, pos + PropSpan(p)) case None => Report
  {
    hide FdtParse.ReadName, FdtParse.ReadValue, FdtParse.ReadWord, FdtClassify.Reread, WordAt, StringIs;
    var d := p.value;
    AlignedIsPadded(|d|);
    ReadWordIs(buf, pos);
    ReadWordIs(buf, pos + 4);
    ReadWordIs(buf, pos + 8);
    ReadNameIs(buf, pos + 12, WordOf(buf, pos + 8), dt, p.name);
    BytesAreAt(buf, pos + 12, d);
    SmallLow32(|d|);
    ReadValueAt(buf, pos + 12, p.name, d);
  }

  function WordOf(buf: Bytes, pos: nat): (w: U32)
    requires pos + 4 <= |buf|
    ensures w == WordAt(buf, pos)
  {
    WordAt(buf, pos)
  }

  // ---- What the reader makes of a tree ----

  /** The reader can make something of every property. */
  predicate Readable(t: Raw)
    decreases t, 1
  {
    ReadableProps(t.props) && ReadableNodes(t.children)
  }

  predicate ReadableProps(ps: seq<RawProp>) {
    ps == [] || (Reread(ps[0].name, ps[0].value).Some? && ReadableProps(ps[1..]))
  }

  predicate ReadableNodes(ts: seq<Raw>)
    decreases ts, 0
  {
    ts == [] || (Readable(ts[0]) && ReadableNodes(ts[1..]))
  }

  function Guessed(ps: seq<RawProp>): seq<Prop>
    requires ReadableProps(ps)
  {
    if ps == [] then [] else [Reread(ps[0].name, ps[0].value).value] + Guessed(ps[1..])
  }

  /** A node as it is read: its name, its properties as guessed, its children. */
  function Normal(t: Raw): Tree
    requires Readable(t)
    decreases t, 1
  {
    Tree(t.name, Guessed(t.props), NormalAll(t.children))
  }

  function NormalAll(ts: seq<Raw>): seq<Tree>
    requires ReadableNodes(ts)
    decreases ts, 0
  {
    if ts == [] then [] else [Normal(ts[0])] + NormalAll(ts[1..])
  }

  /** A root without a name is called "/". */
  function NormalRoot(t: Raw): Tree
    requires Readable(t)
  {
    Normal(t).(name := if t.name == [] then [0x2f] else t.name)
  }

  /** The limit of the reader: a node holds fewer than a million entries. */
  predicate Bounded(t: Raw)
    decreases t, 1
  {
    |t.props| + |t.children| < 1000000 && BoundedAll(t.children)
  }

  predicate BoundedAll(ts: seq<Raw>)
    decreases ts, 0
  {
    ts == [] || (Bounded(ts[0]) && BoundedAll(ts[1..]))
  }

  // ---- Reading a tree ----

  lemma PrependProp(p: Prop, ps: seq<Prop>, r: Parsed<Body>)
    ensures Prepend(Body([p], []), Prepend(Body(ps, []), r)) == Prepend(Body([p] + ps, []), r)
  {
    if r.Ok? {
      var none: seq<Tree> := [];
      assert [p] + (ps + r.value.props) == [p] + ps + r.value.props;
      assert none + (none + r.value.children) == none + r.value.children;
    }
  }

  lemma PrependNode(t: Tree, ts: seq<Tree>, r: Parsed<Body>)
    ensures Prepend(Body([], [t]), Prepend(Body([], ts), r)) == Prepend(Body([], [t] + ts), r)
  {
    if r.Ok? {
      var none: seq<Prop> := [];
      assert [t] + (ts + r.value.children) == [t] + ts + r.value.children;
      assert none + (none + r.value.props) == none + r.value.props;
    }
  }

  lemma PrependToEnd(ps: seq<Prop>, ts: seq<Tree>, q: nat)
    ensures Prepend(Body(ps, []), Prepend(Body([], ts), Ok(Body([], []), q))) == Ok(Body(ps, ts), q)
  {
    var none: seq<Prop>, empty: seq<Tree> := [], [];
    assert ps + none == ps && ts + empty == ts && none + none == none && empty + ts == ts;
  }

  lemma TraverseOneProp(buf: Bytes, pos: nat, budget: nat, p: RawProp, dt: nat)
    requires HasStringsAt(buf, dt) && PropIs(buf, pos, dt, p) && pos + PropSpan(p) < |buf| && 0 < budget
    ensures Traverse(buf, pos, budget) ==
      match Reread(p.name, p.value)
      case Some(q) => Prepend(Body([q], []), Traverse(buf, pos + PropSpan(p), budget - 1))
      case None => Report
  {
    hide *;
    ReadPropIs(buf, pos, dt, p);
    TraverseProp(buf, pos, budget);
  }

  lemma {:induction false} TraverseProps(buf: Bytes, pos: nat, budget: nat, ps: seq<RawProp>, dt: nat)
    requires HasStringsAt(buf, dt) && PropsAre(buf, pos, dt, ps) && pos + PropsSpan(ps) < |buf| && |ps| <= budget
    ensures Traverse(buf, pos, budget) ==
      if ReadableProps(ps) then Prepend(Body(Guessed(ps), []), Traverse(buf, pos + PropsSpan(ps), budget - |ps|))
      else Report
    decreases |ps|
  {
    hide FdtParse.Traverse, FdtParse.Prepend, FdtClassify.Reread, HasStringsAt, PropIs, PropSpan;
    if ps == [] {
      PrependNothing(Traverse(buf, pos, budget));
    } else {
      var p, rest := ps[0], ps[1..];
      var q, after := pos + PropSpan(p), pos + PropsSpan(ps);
      TraverseOneProp(buf, pos, budget, p, dt);
      TraverseProps(buf, q, budget - 1, rest, dt);
      assert after == q + PropsSpan(rest) && budget - 1 - |rest| == budget - |ps|;
      var r := Traverse(buf, after, budget - |ps|);
      assert Traverse(buf, q, budget - 1) ==
        if ReadableProps(rest) then Prepend(Body(Guessed(rest), []), r) else Report;
      if ReadableProps(ps) {
        var p' := Reread(p.name, p.value).value;
        PrependProp(p', Guessed(rest), r);
        assert Guessed(ps) == [p'] + Guessed(rest);
      } else if Reread(p.name, p.value).Some? {
        PrependReport(Body([Reread(p.name, p.value).value], []));
      }
    }
  }

  lemma {:induction false} TraverseNodes(buf: Bytes, pos: nat, budget: nat, ts: seq<Raw>, dt: nat)
    requires HasStringsAt(buf, dt) && NodesAre(buf, pos, dt, ts) && BoundedAll(ts)
    requires pos + NodesSpan(ts) < |buf| && |ts| <= budget
    ensures Traverse(buf, pos, budget) ==
      if ReadableNodes(ts) then Prepend(Body([], NormalAll(ts)), Traverse(buf, pos + NodesSpan(ts), budget - |ts|))
      else Report
    decreases ts, 0
  {
    hide FdtParse.Traverse, FdtParse.Prepend, NodeIs, NodeSpan, Readable, Normal, HasStringsAt;
    if ts == [] {
      PrependNothing(Traverse(buf, pos, budget));
    } else {
      var t, rest := ts[0], ts[1..];
      var q, after := pos + NodeSpan(t), pos + NodesSpan(ts);
      TraverseOneNode(buf, pos, budget, t, dt);
      TraverseNodes(buf, q, budget - 1, rest, dt);
      assert after == q + NodesSpan(rest) && budget - 1 - |rest| == budget - |ts|;
      var r := Traverse(buf, after, budget - |ts|);
      assert Traverse(buf, q, budget - 1) ==
        if ReadableNodes(rest) then Prepend(Body([], NormalAll(rest)), r) else Report;
      if ReadableNodes(ts) {
        PrependNode(Normal(t), NormalAll(rest), r);
        assert NormalAll(ts) == [Normal(t)] + NormalAll(rest);
      } else if Readable(t) {
        PrependReport(Body([], [Normal(t)]));
      }
    }
  }

  lemma TraverseOneNode(buf: Bytes, pos: nat, budget: nat, t: Raw, dt: nat)
    requires HasStringsAt(buf, dt) && NodeIs(buf, pos, dt, t) && Bounded(t)
    requires pos + NodeSpan(t) < |buf| && 0 < budget
    ensures Traverse(buf, pos, budget) ==
      if Readable(t) then Prepend(Body([], [Normal(t)]), Traverse(buf, pos + NodeSpan(t), budget - 1))
      else Report
    decreases t, 2
  {
    hide *;
    ReadNodeIs(buf, pos, t, dt);
    TraverseChild(buf, pos, budget);
  }

  /** Reading a node in standard form gives its normal form, or a report if some property is unreadable. */
  lemma {:induction false} ReadNodeIs(buf: Bytes, pos: nat, t: Raw, dt: nat)
    requires HasStringsAt(buf, dt) && NodeIs(buf, pos, dt, t) && Bounded(t) && pos + NodeSpan(t) < |buf|
    ensures ReadWord(buf, pos) == Ok(BEGIN_NODE, pos + 4)
    ensures ReadNode(buf, pos + 4) == if Readable(t) then Ok(Normal(t), pos + NodeSpan(t)) else Report
    decreases t, 1
  {
    hide FdtParse.Traverse, FdtParse.ReadNode, FdtParse.ReadPadded, FdtParse.ReadWord;
    hide HasStringsAt, HeadIs, HeadSpan, PropsAre, NodesAre, WordIs, Guessed, NormalAll, ReadableProps, ReadableNodes;
    ReadHeadIs(buf, pos, t.name);
    TraverseBody(buf, pos + HeadSpan(t.name), t, dt);
    ReadNodeSteps(buf, pos + 4);
  }

  lemma TraverseBody(buf: Bytes, pos: nat, t: Raw, dt: nat)
    requires HasStringsAt(buf, dt) && Bounded(t)
    requires var q := pos + PropsSpan(t.props);
      && PropsAre(buf, pos, dt, t.props) && NodesAre(buf, q, dt, t.children)
      && WordIs(buf, q + NodesSpan(t.children), 2) && q + NodesSpan(t.children) + 4 < |buf|
    ensures Traverse(buf, pos, MAX_ENTRIES) ==
      if Readable(t) then
        Ok(Body(Guessed(t.props), NormalAll(t.children)), pos + PropsSpan(t.props) + NodesSpan(t.children) + 4)
      else Report
    decreases t, 0
  {
    hide FdtParse.Traverse, FdtParse.ReadWord, PropsAre, NodesAre, PropsSpan, NodesSpan, HasStringsAt;
    hide Guessed, NormalAll, ReadableProps, ReadableNodes;
    var q := pos + PropsSpan(t.props) + NodesSpan(t.children);
    TraverseProps(buf, pos, MAX_ENTRIES, t.props, dt);
    TraverseNodes(buf, pos + PropsSpan(t.props), MAX_ENTRIES - |t.props|, t.children, dt);
    ReadWordIs(buf, q);
    TraverseEnd(buf, q, MAX_ENTRIES - |t.props| - |t.children|);
    if Readable(t) {
      PrependToEnd(Guessed(t.props), NormalAll(t.children), q + 4);
    }
  }

  /** Between entries a word of value 4 is skipped, one of value 2 ends the node, and any other is an error. */
  lemma TokensBetweenEntries(buf: Bytes, pos: nat, budget: nat)
    requires pos <= |buf| && 0 < budget
    ensures WordIs(buf, pos, 4) ==> Traverse(buf, pos, budget) == Traverse(buf, pos + 4, budget - 1)
    ensures WordIs(buf, pos, 2) ==> Traverse(buf, pos, budget) == Ok(Body([], []), pos + 4)
    ensures (forall w :: 1 <= w <= 4 ==> !WordIs(buf, pos, w)) ==> Traverse(buf, pos, budget) == Report
  {
    hide FdtParse.Traverse, FdtParse.ReadWord, WordAt;
    ReadWordIs(buf, pos);
    if WordIs(buf, pos, 4) {
      TraverseNop(buf, pos, budget);
    }
    if WordIs(buf, pos, 2) {
      TraverseEnd(buf, pos, budget);
    }
    if forall w :: 1 <= w <= 4 ==> !WordIs(buf, pos, w) {
      assert !WordIs(buf, pos, BEGIN_NODE) && !WordIs(buf, pos, END_NODE);
      assert !WordIs(buf, pos, PROP) && !WordIs(buf, pos, NOP);
      TraverseBad(buf, pos, budget);
    }
  }

  /** A node is read as if it ended behind its millionth entry, whatever stands there. */
  lemma MillionthEntryIsTheLast(buf: Bytes, pos: nat, ps: seq<RawProp>, dt: nat)
    requires HasStringsAt(buf, dt) && PropsAre(buf, pos, dt, ps) && pos + PropsSpan(ps) < |buf|
    requires |ps| == 1000000 && ReadableProps(ps)
    ensures Traverse(buf, pos, MAX_ENTRIES) == Ok(Body(Guessed(ps), []), pos + PropsSpan(ps))
  {
    hide FdtParse.Traverse, FdtParse.Prepend, PropsAre, PropsSpan, Guessed, ReadableProps;
    TraverseProps(buf, pos, MAX_ENTRIES, ps, dt);
    TraverseSpent(buf, pos + PropsSpan(ps));
    PrependToDone(Body(Guessed(ps), []), pos + PropsSpan(ps));
  }

  // ---- The whole blob ----

  lemma NormalName(t: Raw)
    ensures Readable(t) ==> Normal(t).name == t.name
  {
  }

  lemma RootNameIs(name: Bytes)
    ensures RootName(name) == if name == [] then [0x2f] else name
  {
    assert Ascii("/") == [0x2f];
  }

  lemma NormalRootIs(t: Raw)
    requires Readable(t)
    ensures var n := Normal(t); NormalRoot(t) == Tree(RootName(n.name), n.props, n.children)
  {
    hide FdtParse.RootName, Normal, Readable;
    NormalName(t);
    RootNameIs(t.name);
  }

  lemma FourBytes(buf: Bytes, pos: nat)
    requires pos + 4 <= |buf|
    ensures FromBe32(buf[pos..pos + 4]) == WordAt(buf, pos)
  {
  }

  lemma HeaderWords(buf: Bytes)
    requires |buf| >= 28 && buf[..4] == [0xd0, 0x0d, 0xfe, 0xed] && buf[24..28] == [0, 0, 0, 16]
    ensures FromBe32(buf[0..4]) == MAGIC && FromBe32(buf[24..28]) == COMPAT && FromBe32(buf[8..12]) == WordAt(buf, 8)
  {
    assert buf[0..4] == buf[..4];
    FourBytes(buf, 8);
  }

  /** The steps of the decoder behind a header that it accepts. */
  lemma DecodeSteps(buf: Bytes, start: nat)
    requires |buf| >= 28 && FromBe32(buf[0..4]) == MAGIC && FromBe32(buf[24..28]) == COMPAT
    requires FromBe32(buf[8..12]) == start < |buf| && ReadWord(buf, start) == Ok(BEGIN_NODE, start + 4)
    ensures Decode(buf) ==
      match ReadNode(buf, start + 4)
      case Report => None
      case Ok(root, q) =>
        if ReadWord(buf, q) == Ok(END, q + 4) then Some(Tree(RootName(root.name), root.props, root.children)) else None
  {
    hide FdtParse.ReadNode, FdtParse.ReadWord, FdtBytes.FromBe32, FdtParse.RootName;
  }

  lemma StartsWithToken(buf: Bytes, pos: nat, dt: nat, t: Raw)
    requires NodeIs(buf, pos, dt, t)
    ensures WordIs(buf, pos, 1)
  {
    hide PropsAre, NodesAre, HeadSpan, PropsSpan, NodesSpan, WordAt;
  }

  /** A token in standard form is read as what it says. */
  lemma TokenIs(buf: Bytes, pos: nat, token: U32)
    requires WordIs(buf, pos, token)
    ensures ReadWord(buf, pos) == Ok(token, pos + 4) && pos + 4 <= |buf|
  {
    ReadWordIs(buf, pos);
  }

  /** What a blob in standard form offers to the reader. */
  lemma BlobHolds(buf: Bytes, t: Raw)
    requires BlobIs(buf, t)
    ensures |buf| >= 28 && FromBe32(buf[0..4]) == MAGIC && FromBe32(buf[24..28]) == COMPAT
    ensures var start, dt := WordAt(buf, 8), WordAt(buf, 12);
      && FromBe32(buf[8..12]) == start < |buf| && HasStringsAt(buf, dt) && NodeIs(buf, start, dt, t)
      && start + NodeSpan(t) < |buf|
      && ReadWord(buf, start) == Ok(BEGIN_NODE, start + 4)
      && ReadWord(buf, start + NodeSpan(t)) == Ok(END, start + NodeSpan(t) + 4)
  {
    var start, dt := WordAt(buf, 8), WordAt(buf, 12);
    HeaderWords(buf);
    hide FdtParse.ReadWord, FdtBytes.FromBe32, WordAt, NodeIs, NodeSpan;
    StartsWithToken(buf, start, dt, t);
    TokenIs(buf, start, BEGIN_NODE);
    TokenIs(buf, start + NodeSpan(t), END);
  }

  /**
   * Every blob in standard form is decompiled to its normal form, or to a report exactly if some property is
   * unreadable, wherever its structure and strings blocks lie and whatever else the buffer holds.
   */
  lemma DecodeOfStandard(buf: Bytes, t: Raw)
    requires BlobIs(buf, t) && Bounded(t)
    ensures Decode(buf) == if Readable(t) then Some(NormalRoot(t)) else None
  {
    var start, dt := WordAt(buf, 8), WordAt(buf, 12);
    hide *;
    BlobHolds(buf, t);
    ReadNodeIs(buf, start, t, dt);
    DecodeSteps(buf, start);
    if Readable(t) {
      NormalRootIs(t);
    }
  }

  /**
   * What is decompiled at all starts with the magic number, is compatible with version 16, and has a begin token
   * where the header says, a node behind it, and an end token behind that.
   */
  lemma DecodeNeeds(buf: Bytes)
    requires Decode(buf).Some?
    ensures |buf| >= 28 && buf[..4] == [0xd0, 0x0d, 0xfe, 0xed] && buf[24..28] == [0, 0, 0, 16]
    ensures var start := WordAt(buf, 8);
      && WordIs(buf, start, 1) && ReadNode(buf, start + 4).Ok? && WordIs(buf, ReadNode(buf, start + 4).pos, 9)
  {
    hide FdtParse.ReadNode, FdtParse.ReadWord, WordAt, FdtBytes.FromBe32, FdtBytes.Be32;
    var start: nat := FromBe32(buf[8..12]);
    FromBe32RoundTrip(buf[0..4]);
    FromBe32RoundTrip(buf[24..28]);
    MarksOf(buf);
    FourBytes(buf, 8);
    ReadWordIs(buf, start);
    ReadWordIs(buf, ReadNode(buf, start + 4).pos);
  }

  lemma MarksOf(buf: Bytes)
    requires |buf| >= 28 && buf[0..4] == Be32(MAGIC) && buf[24..28] == Be32(COMPAT)
    ensures buf[..4] == [0xd0, 0x0d, 0xfe, 0xed] && buf[24..28] == [0, 0, 0, 16]
  {
    assert buf[..4] == buf[0..4];
  }
}
