/** Decompiling a device tree from a memory buffer. */
module FdtReaders {
  import opened FdtBytes
  import opened FdtTree
  import opened FdtNodes
  import opened FdtFormat
  import opened FdtClassify
  import opened FdtParse
  import FdtDecoding
  import FdtStandard

  /** The result of a call that may report an error instead of returning. */
  datatype Reading<+T> = Read(value: T) | Raised {
    predicate IsFailure() { Raised? }
    function PropagateFailure<U>(): Reading<U>
      requires Raised?
    {
      Raised
    }
    function Extract(): T
      requires Read?
    {
      value
    }
  }

  /** What a method returned and where it left the position agree with the parsing function. */
  predicate Agrees<T(==)>(r: Reading<T>, ptr: nat, p: Parsed<T>) {
    match p
    case Ok(v, q) => r == Read(v) && ptr == q
    case Report => r.Raised?
  }

  predicate AgreesTried<T(==)>(r: Reading<Option<T>>, was: nat, ptr: nat, p: Tried<T>) {
    match p
    case Got(v, q) => r == Read(Some(v)) && ptr == q
    case Declined => r == Read(None) && ptr == was
    case Failed => r.Raised?
  }

  function Prefix(s: Bytes, r: Parsed<Bytes>): Parsed<Bytes> {
    match r
    case Ok(v, q) => Ok(s + v, q)
    case Report => Report
  }

  function PrefixWords(s: seq<U32>, r: Parsed<seq<U32>>): Parsed<seq<U32>> {
    match r
    case Ok(v, q) => Ok(s + v, q)
    case Report => Report
  }

  lemma PrefixNothing(r: Parsed<Bytes>)
    ensures Prefix([], r) == r
  {
    if r.Ok? { assert [] + r.value == r.value; }
  }

  lemma PrefixOne(s: Bytes, ch: Byte, r: Parsed<Bytes>)
    ensures Prefix(s, if r.Report? then Report else Ok([ch] + r.value, r.pos)) == Prefix(s + [ch], r)
  {
    if r.Ok? { assert s + ([ch] + r.value) == s + [ch] + r.value; }
  }

  lemma PrefixWordsNothing(r: Parsed<seq<U32>>)
    ensures PrefixWords([], r) == r
  {
    if r.Ok? { assert [] + r.value == r.value; }
  }

  lemma PrefixWordsOne(s: seq<U32>, w: U32, r: Parsed<seq<U32>>)
    ensures PrefixWords(s, if r.Report? then Report else Ok([w] + r.value, r.pos)) == PrefixWords(s + [w], r)
  {
    if r.Ok? { assert s + ([w] + r.value) == s + [w] + r.value; }
  }

  /** The decoder on a buffer, in terms of the standard. */
  lemma MeansOfDecode(buf: Bytes)
    ensures Decode(buf).Some? ==>
      |buf| >= 28 && buf[..4] == [0xd0, 0x0d, 0xfe, 0xed] && buf[24..28] == [0, 0, 0, 16]
    ensures forall t :: FdtStandard.BlobIs(buf, t) && FdtDecoding.Bounded(t) ==>
      Decode(buf) == if FdtDecoding.Readable(t) then Some(FdtDecoding.NormalRoot(t)) else None
  {
    hide *;
    if Decode(buf).Some? {
      FdtDecoding.DecodeNeeds(buf);
    }
    forall t | FdtStandard.BlobIs(buf, t) && FdtDecoding.Bounded(t)
      ensures Decode(buf) == if FdtDecoding.Readable(t) then Some(FdtDecoding.NormalRoot(t)) else None
    {
      FdtDecoding.DecodeOfStandard(buf, t);
    }
  }

  class FdtReader {
    const buf: Bytes
    var ptr: nat

    constructor (buf: Bytes)
      requires |buf| < 0x1_0000_0000
      ensures Valid() && this.buf == buf && ptr == 0
    {
      this.buf := buf;
      ptr := 0;
    }

    ghost predicate Valid()
      reads this
    {
      ptr <= |buf| < 0x1_0000_0000
    }

    /** Move to an offset inside the buffer; hands back the old position. */
    method Seek(offset: U32) returns (r: Reading<U32>)
      requires Valid()
      modifies this
      ensures if offset < |buf| then r == Read(old(ptr)) && ptr == offset else r.Raised?
    {
      var curoff := ptr;
      ptr := offset;
      if ptr >= |buf| {
        return Raised;
      }
      r := Read(curoff);
    }

    method Getc() returns (r: Reading<Byte>)
      requires Valid()
      modifies this
      ensures if old(ptr) < |buf| then r == Read(buf[old(ptr)]) && ptr == old(ptr) + 1 else r.Raised?
    {
      if ptr >= |buf| {
        return Raised;
      }
      r := Read(buf[ptr]);
      ptr := ptr + 1;
    }

    method ReadU32() returns (r: Reading<U32>)
      requires Valid()
      modifies this
      ensures Agrees(r, ptr, ReadWord(buf, old(ptr)))
      ensures r.Read? <==> old(ptr) + 4 <= |buf|
      ensures r.Read? ==>
        && ptr == old(ptr) + 4
        && r.value == buf[old(ptr)] as int * 0x1000000 + buf[old(ptr) + 1] as int * 0x10000
                      + buf[old(ptr) + 2] as int * 0x100 + buf[old(ptr) + 3] as int
    {
      var a :- Getc();
      var b :- Getc();
      var c :- Getc();
      var d :- Getc();
      var w := (a as int) * 0x100_0000 + (b as int) * 0x1_0000 + (c as int) * 256 + d as int;
      r := Read(w);
    }

    /** Bytes up to a NUL, and with align the padding behind it. */
    method ReadString(align: bool) returns (r: Reading<Bytes>)
      requires Valid()
      modifies this
      ensures Agrees(r, ptr, if align then ReadPadded(buf, old(ptr)) else ReadCstr(buf, old(ptr)))
    {
      ghost var p := ptr;
      var s: Bytes := [];
      var ch :- Getc();
      PrefixNothing(ReadCstr(buf, p));
      while ch != 0
        invariant 0 < ptr <= |buf| && buf[ptr - 1] == ch
        invariant ReadCstr(buf, p) == Prefix(s, ReadCstr(buf, ptr - 1))
        decreases |buf| - ptr
      {
        PrefixOne(s, ch, ReadCstr(buf, ptr));
        s := s + [ch];
        ch :- Getc();
      }
      assert s + [] == s;
      assert ReadCstr(buf, p) == Ok(s, ptr);
      var len := |s| + 1;
      ghost var end := ptr;
      while align && len % 4 != 0
        invariant !align ==> len == |s| + 1
        invariant |s| + 1 <= len <= |s| + 1 + Pad(|s| + 1) && ptr == end + len - (|s| + 1) <= |buf|
        decreases |s| + 1 + Pad(|s| + 1) - len
      {
        assert len < |s| + 1 + Pad(|s| + 1);
        var _ :- Getc();
        len := len + 1;
      }
      if align { PadIsFirst(|s| + 1, len); }
      r := Read(s);
    }

    method ReadStrtab(offset: U32) returns (r: Reading<Bytes>)
      requires Valid()
      modifies this
      ensures Agrees(r, ptr, ReadName(buf, old(ptr), offset))
    {
      var curoff :- Seek(12);
      var dtoff :- ReadU32();
      var _ :- Seek(Low32(dtoff + offset));
      var s :- ReadString(false);
      var _ :- Seek(curoff);
      r := Read(s);
    }

    method ReadInts(len: U32) returns (r: Reading<Option<seq<U32>>>)
      requires Valid()
      modifies this
      ensures AgreesTried(r, old(ptr), ptr, ReadIntData(buf, old(ptr), len))
    {
      if len % 4 != 0 {
        return Read(None);
      }
      ghost var p := ptr;
      var data: seq<U32> := [];
      var i := 0;
      PrefixWordsNothing(ReadWords(buf, p, len / 4));
      while i < len
        invariant 0 <= i <= len && i % 4 == 0 && Valid()
        invariant ReadWords(buf, p, len / 4) == PrefixWords(data, ReadWords(buf, ptr, (len - i) / 4))
        decreases len - i
      {
        assert (len - i) / 4 > 0 && (len - (i + 4)) / 4 == (len - i) / 4 - 1;
        var w :- ReadU32();
        PrefixWordsOne(data, w, ReadWords(buf, ptr, (len - (i + 4)) / 4));
        data := data + [w];
        i := i + 4;
      }
      assert data + [] == data;
      r := Read(Some(data));
    }

    method ReadStrs(len: U32) returns (r: Reading<Option<seq<Bytes>>>)
      requires Valid()
      modifies this
      ensures AgreesTried(r, old(ptr), ptr, ReadStrData(buf, old(ptr), len))
    {
      ghost var p := ptr;
      var curoff :- Seek(0);
      var _ :- Seek(curoff);
      var result: seq<Bytes> := [];
      var s: Bytes := [];
      for i := 0 to len
        invariant Valid() && ScanStrings(buf, p, len, [], []) == ScanStrings(buf, ptr, len - i, result, s)
      {
        var ch :- Getc();
        if ch == 0 {
          result := result + [s];
          s := [];
        } else if Printable(ch) {
          s := s + [ch];
        } else {
          var back := Seek(curoff);
          return Read(None);
        }
      }
      if s != [] {
        var back := Seek(curoff);
        return Read(None);
      }
      var n := len;
      ghost var end := ptr;
      while n % 4 != 0
        invariant len <= n <= len + Pad(len) && ptr == end + n - len <= |buf|
        decreases len + Pad(len) - n
      {
        var _ :- Getc();
        n := n + 1;
      }
      r := Read(Some(result));
    }

    /** A property's value, with the guess that its name suggests tried first. */
    method ReadPropValue(len: U32, name: Bytes) returns (r: Reading<Prop>)
      requires Valid()
      modifies this
      ensures Agrees(r, ptr, ReadValue(buf, old(ptr), len, name))
    {
      if IsIntProperty(name) {
        var v :- ReadInts(len);
        if v.Some? {
          return Read(Prop(name, v.value, []));
        }
      }
      if IsStrProperty(name) {
        var v :- ReadStrs(len);
        if v.Some? {
          return Read(Prop(name, [], v.value));
        }
      }
      var v :- ReadStrs(len);
      if v.Some? {
        return Read(Prop(name, [], v.value));
      }
      var w :- ReadInts(len);
      if w.Some? {
        return Read(Prop(name, w.value, []));
      }
      r := Raised;
    }

    method ReadProperty() returns (r: Reading<Prop>)
      requires Valid()
      modifies this
      ensures Agrees(r, ptr, ReadProp(buf, old(ptr)))
    {
      hide FdtParse.ReadValue, FdtParse.ReadName, FdtParse.ReadWord;
      var len :- ReadU32();
      var nameoff :- ReadU32();
      var name :- ReadStrtab(nameoff);
      r := ReadPropValue(len, name);
    }

    /** Fill parent with the entries up to its end token. */
    method TraverseInto(parent: FdtNode, ghost t: Tree) returns (r: Reading<()>)
      requires Valid() && parent.Holds(t)
      modifies this, parent
      ensures match Traverse(buf, old(ptr), MAX_ENTRIES)
        case Ok(b, q) =>
          && r == Read(()) && ptr == q && fresh(parent.repr - old(parent.repr))
          && parent.Holds(Tree(t.name, t.props + b.props, t.children + b.children))
        case Report => r.Raised?
      decreases |buf| - ptr, 0
    {
      hide FdtParse.ReadWord, FdtParse.ReadProp, FdtParse.ReadNode, FdtParse.Traverse, FdtParse.Prepend;
      ghost var p, b, now := ptr, Body([], []), t;
      PrependNothing(Traverse(buf, p, MAX_ENTRIES));
      for i := 0 to MAX_ENTRIES
        invariant p <= ptr && Valid() && parent.Holds(now) && fresh(parent.repr - old(parent.repr))
        invariant now == Tree(t.name, t.props + b.props, t.children + b.children)
        invariant Traverse(buf, p, MAX_ENTRIES) == Prepend(b, Traverse(buf, ptr, MAX_ENTRIES - i))
      {
        ghost var at, rest := ptr, MAX_ENTRIES - i - 1;
        PrependReport(b);
        if ReadWord(buf, at).Report? { TraverseBad(buf, at, rest + 1); }
        var token :- ReadU32();
        if token == BEGIN_NODE {
          TraverseChild(buf, at, rest + 1);
          ghost var c := ReadNode(buf, ptr);
          var _ :- ReadChild(parent, now);
          now := now.(children := now.children + [c.value]);
          PrependTwice(b, Body([], [c.value]), Traverse(buf, ptr, rest));
          b := Body(b.props + [], b.children + [c.value]);
        } else if token == PROP {
          TraverseProp(buf, at, rest + 1);
          var prop :- ReadProperty();
          parent.AddProperty(prop, now);
          now := now.(props := now.props + [prop]);
          PrependTwice(b, Body([prop], []), Traverse(buf, ptr, rest));
          b := Body(b.props + [prop], b.children + []);
        } else if token == NOP {
          TraverseNop(buf, at, rest + 1);
          continue;
        } else if token == END_NODE {
          TraverseEnd(buf, at, rest + 1);
          PrependToDone(b, ptr);
          return Read(());
        } else {
          TraverseBad(buf, at, rest + 1);
          return Raised;
        }
      }
      TraverseSpent(buf, ptr);
      PrependToDone(b, ptr);
      r := Read(());
    }

    /** Push the node behind a begin token onto parent. */
    method ReadChild(parent: FdtNode, ghost t: Tree) returns (r: Reading<()>)
      requires Valid() && parent.Holds(t)
      modifies this, parent
      ensures match ReadNode(buf, old(ptr))
        case Ok(c, q) =>
          && r == Read(()) && ptr == q && fresh(parent.repr - old(parent.repr))
          && parent.Holds(t.(children := t.children + [c]))
        case Report => r.Raised?
      decreases |buf| - ptr, 1
    {
      hide FdtParse.ReadPadded, FdtParse.Traverse;
      ghost var c := ReadNode(buf, ptr);
      var name :- ReadString(true);
      var child := parent.AddChild(name);
      var _ :- TraverseInto(child, Tree(name, [], []));
      assert child.Holds(c.value) by {
        assert [] + c.value.props == c.value.props && [] + c.value.children == c.value.children;
      }
      parent.repr := parent.repr + child.repr;
      r := Read(());
    }

    /** Check magic and version; yields the offset of the structure block. */
    method ReadHeader() returns (r: Reading<U32>)
      requires Valid() && ptr == 0
      modifies this
      ensures Valid() || r.Raised?
      ensures if |buf| < 28 || FromBe32(buf[0..4]) != MAGIC || FromBe32(buf[24..28]) != COMPAT then r.Raised?
              else r == Read(FromBe32(buf[8..12]))
    {
      var magic :- ReadU32();
      if magic != MAGIC {
        return Raised;
      }
      var _ :- Seek(24);
      var compat :- ReadU32();
      if compat != COMPAT {
        return Raised;
      }
      // Neither can fail: the buffer reaches beyond offset 24.
      var at := Seek(8);
      r := ReadU32();
    }

    /** The whole blob: the root node, or a report. */
    method Decompile() returns (r: Reading<FdtNode>)
      requires Valid() && ptr == 0
      modifies this
      ensures match Decode(buf)
        case Some(t) => r.Read? && fresh(r.value.repr) && r.value.Holds(t)
        case None => r.Raised?
      ensures r.Read? ==> |buf| >= 28 && buf[..4] == [0xd0, 0x0d, 0xfe, 0xed] && buf[24..28] == [0, 0, 0, 16]
      ensures forall t :: FdtStandard.BlobIs(buf, t) && FdtDecoding.Bounded(t) ==>
        if FdtDecoding.Readable(t) then r.Read? && r.value.Holds(FdtDecoding.NormalRoot(t)) else r.Raised?
    {
      MeansOfDecode(buf);
      r := ReadBlob();
    }

    /** The header, the root node behind its begin token, and the token that ends the structure block. */
    method ReadBlob() returns (r: Reading<FdtNode>)
      requires Valid() && ptr == 0
      modifies this
      ensures match Decode(buf)
        case Some(t) => r.Read? && fresh(r.value.repr) && r.value.Holds(t)
        case None => r.Raised?
    {
      hide FdtParse.ReadPadded, FdtParse.Traverse, FdtParse.ReadWord;
      var offset :- ReadHeader();
      var _ :- Seek(offset);
      var token :- ReadU32();
      if token != BEGIN_NODE {
        return Raised;
      }
      var name :- ReadString(true);
      var root := new FdtNode(RootName(name));
      var _ :- TraverseInto(root, Tree(RootName(name), [], []));
      token :- ReadU32();
      if token != END {
        return Raised;
      }
      r := Read(root);
    }
  }
}
