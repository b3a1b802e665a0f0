/** What the reader makes of a byte buffer, as functions of the buffer and a position in it. */
module FdtParse {
  import opened FdtBytes
  import opened FdtTree
  import opened FdtFormat
  import opened FdtClassify

  /** A read either yields a value and the next position or is reported as an error. */
  datatype Parsed<+T> = Ok(value: T, pos: nat) | Report

  /** A guess can also decline, leaving the position where it was. */
  datatype Tried<+T> = Got(value: T, pos: nat) | Declined | Failed

  const MAX_ENTRIES: nat := 1000000

  function ReadWord(buf: Bytes, pos: nat): (r: Parsed<U32>)
    ensures r.Ok? ==> r.pos == pos + 4 <= |buf|
  {
    if pos + 4 <= |buf| then Ok(FromBe32(buf[pos..pos + 4]), pos + 4) else Report
  }

  function ReadCstr(buf: Bytes, pos: nat): (r: Parsed<Bytes>)
    ensures r.Ok? ==> pos + |r.value| + 1 == r.pos <= |buf|
    decreases |buf| - pos
  {
    if pos >= |buf| then Report
    else if buf[pos] == 0 then Ok([], pos + 1)
    else
      var rest := ReadCstr(buf, pos + 1);
      if rest.Report? then Report else Ok([buf[pos]] + rest.value, rest.pos)
  }

  /** A string and the padding behind it. */
  function ReadPadded(buf: Bytes, pos: nat): (r: Parsed<Bytes>)
    ensures r.Ok? ==> pos < r.pos <= |buf|
  {
    var s := ReadCstr(buf, pos);
    if s.Report? || s.pos + Pad(|s.value| + 1) > |buf| then Report
    else Ok(s.value, s.pos + Pad(|s.value| + 1))
  }

  /** Jump into the strings block through the header and back to pos. */
  function ReadName(buf: Bytes, pos: nat, offset: U32): (r: Parsed<Bytes>)
    ensures r.Ok? ==> r.pos == pos < |buf|
  {
    if 12 >= |buf| then Report
    else
      var dt := ReadWord(buf, 12);
      if dt.Report? || Low32(dt.value + offset) >= |buf| then Report
      else
        var s := ReadCstr(buf, Low32(dt.value + offset));
        if s.Report? || pos >= |buf| then Report else Ok(s.value, pos)
  }

  function ReadWords(buf: Bytes, pos: nat, n: nat): (r: Parsed<seq<U32>>)
    requires pos <= |buf|
    ensures r.Ok? ==> r.pos == pos + 4 * n <= |buf|
    decreases n
  {
    if n == 0 then Ok([], pos)
    else
      var w := ReadWord(buf, pos);
      if w.Report? then Report
      else
        var rest := ReadWords(buf, w.pos, n - 1);
        if rest.Report? then Report else Ok([w.value] + rest.value, rest.pos)
  }

  function ReadIntData(buf: Bytes, pos: nat, len: U32): (r: Tried<seq<U32>>)
    requires pos <= |buf|
    ensures r.Got? ==> pos <= r.pos <= |buf|
  {
    if len % 4 != 0 then Declined
    else
      var ws := ReadWords(buf, pos, len / 4);
      if ws.Report? then Failed else Got(ws.value, ws.pos)
  }

  /** Scan n bytes for printable strings; done and cur are the strings so far and the unfinished one. */
  function ScanStrings(buf: Bytes, pos: nat, n: nat, done: seq<Bytes>, cur: Bytes): (r: Tried<seq<Bytes>>)
    requires pos <= |buf|
    ensures r.Got? ==> r.pos == pos + n <= |buf|
    decreases n
  {
    if n == 0 then if cur == [] then Got(done, pos) else Declined
    else if pos >= |buf| then Failed
    else if buf[pos] == 0 then ScanStrings(buf, pos + 1, n - 1, done + [cur], [])
    else if Printable(buf[pos]) then ScanStrings(buf, pos + 1, n - 1, done, cur + [buf[pos]])
    else Declined
  }

  /** The position is noted by seeking away and back, which fails at the end of the buffer. */
  function ReadStrData(buf: Bytes, pos: nat, len: U32): (r: Tried<seq<Bytes>>)
    requires pos <= |buf|
    ensures r.Got? ==> pos <= r.pos <= |buf|
  {
    if pos >= |buf| then Failed
    else
      var s := ScanStrings(buf, pos, len, [], []);
      if s.Got? && s.pos + Pad(len) > |buf| then Failed
      else if s.Got? then Got(s.value, s.pos + Pad(len))
      else s
  }

  /** Strings first, then integers. */
  function ReadUnknown(buf: Bytes, pos: nat, len: U32, name: Bytes): (r: Parsed<Prop>)
    requires pos <= |buf|
    ensures r.Ok? ==> pos <= r.pos <= |buf|
  {
    match ReadStrData(buf, pos, len)
    case Got(v, q) => Ok(Prop(name, [], v), q)
    case Failed => Report
    case Declined =>
      match ReadIntData(buf, pos, len)
      case Got(v, q) => Ok(Prop(name, v, []), q)
      case _ => Report
  }

  function ReadStrProp(buf: Bytes, pos: nat, len: U32, name: Bytes): (r: Parsed<Prop>)
    requires pos <= |buf|
    ensures r.Ok? ==> pos <= r.pos <= |buf|
  {
    if IsStrProperty(name) then
      match ReadStrData(buf, pos, len)
      case Got(v, q) => Ok(Prop(name, [], v), q)
      case Failed => Report
      case Declined => ReadUnknown(buf, pos, len, name)
    else ReadUnknown(buf, pos, len, name)
  }

  function ReadValue(buf: Bytes, pos: nat, len: U32, name: Bytes): (r: Parsed<Prop>)
    requires pos <= |buf|
    ensures r.Ok? ==> pos <= r.pos <= |buf|
  {
    if IsIntProperty(name) then
      match ReadIntData(buf, pos, len)
      case Got(v, q) => Ok(Prop(name, v, []), q)
      case Failed => Report
      case Declined => ReadStrProp(buf, pos, len, name)
    else ReadStrProp(buf, pos, len, name)
  }

  /** The list of names for strings is without effect: what it has tried first is tried next anyway. */
  lemma StringNamesDoNotMatter(buf: Bytes, pos: nat, len: U32, name: Bytes)
    requires pos <= |buf|
    ensures ReadStrProp(buf, pos, len, name) == ReadUnknown(buf, pos, len, name)
  {
  }

  /** The property behind a property token. */
  function ReadProp(buf: Bytes, pos: nat): (r: Parsed<Prop>)
    ensures r.Ok? ==> pos < r.pos <= |buf|
  {
    var len := ReadWord(buf, pos);
    if len.Report? then Report
    else
      var off := ReadWord(buf, len.pos);
      if off.Report? then Report
      else
        var name := ReadName(buf, off.pos, off.value);
        if name.Report? then Report else ReadValue(buf, name.pos, len.value, name.value)
  }

  datatype Body = Body(props: seq<Prop>, children: seq<Tree>)

  /** Entries in front of those that a later read yields. */
  function Prepend(b: Body, r: Parsed<Body>): Parsed<Body> {
    match r
    case Ok(c, q) => Ok(Body(b.props + c.props, b.children + c.children), q)
    case Report => Report
  }

  lemma PrependNothing(r: Parsed<Body>)
    ensures Prepend(Body([], []), r) == r
  {
    if r.Ok? {
      assert [] + r.value.props == r.value.props && [] + r.value.children == r.value.children;
    }
  }

  lemma PrependTwice(a: Body, b: Body, r: Parsed<Body>)
    ensures Prepend(a, Prepend(b, r)) == Prepend(Body(a.props + b.props, a.children + b.children), r)
  {
    if r.Ok? {
      assert a.props + (b.props + r.value.props) == a.props + b.props + r.value.props;
      assert a.children + (b.children + r.value.children) == a.children + b.children + r.value.children;
    }
  }

  lemma PrependToDone(b: Body, q: nat)
    ensures Prepend(b, Ok(Body([], []), q)) == Ok(b, q)
  {
    assert b.props + [] == b.props && b.children + [] == b.children;
  }

  lemma PrependReport(b: Body)
    ensures Prepend(b, Report) == Report
  {
  }

  /** The entries of a node up to its end token, or until the budget of tokens is used up. */
  function Traverse(buf: Bytes, pos: nat, budget: nat): (r: Parsed<Body>)
    requires pos <= |buf|
    ensures r.Ok? ==> pos <= r.pos <= |buf|
    decreases |buf| - pos
  {
    if budget == 0 then Ok(Body([], []), pos)
    else
      match ReadWord(buf, pos)
      case Report => Report
      case Ok(token, next) =>
        if token == BEGIN_NODE then
          match ReadNode(buf, next)
          case Report => Report
          case Ok(child, q) => Prepend(Body([], [child]), Traverse(buf, q, budget - 1))
        else if token == PROP then
          match ReadProp(buf, next)
          case Report => Report
          case Ok(prop, q) => Prepend(Body([prop], []), Traverse(buf, q, budget - 1))
        else if token == NOP then Traverse(buf, next, budget - 1)
        else if token == END_NODE then Ok(Body([], []), next)
        else Report
  }

  /** The node behind a begin token. */
  function ReadNode(buf: Bytes, pos: nat): (r: Parsed<Tree>)
    requires pos <= |buf|
    ensures r.Ok? ==> pos < r.pos <= |buf|
    decreases |buf| - pos
  {
    var name := ReadPadded(buf, pos);
    if name.Report? then Report
    else
      var body := Traverse(buf, name.pos, MAX_ENTRIES);
      if body.Report? then Report
      else Ok(Tree(name.value, body.value.props, body.value.children), body.pos)
  }

  // One token at a time.

  lemma TraverseProp(buf: Bytes, pos: nat, budget: nat)
    requires ReadWord(buf, pos) == Ok(PROP, pos + 4) && 0 < budget
    ensures Traverse(buf, pos, budget) ==
      match ReadProp(buf, pos + 4)
      case Ok(p, q) => Prepend(Body([p], []), Traverse(buf, q, budget - 1))
      case Report => Report
  {
  }

  lemma TraverseChild(buf: Bytes, pos: nat, budget: nat)
    requires ReadWord(buf, pos) == Ok(BEGIN_NODE, pos + 4) && 0 < budget
    ensures Traverse(buf, pos, budget) ==
      match ReadNode(buf, pos + 4)
      case Ok(t, q) => Prepend(Body([], [t]), Traverse(buf, q, budget - 1))
      case Report => Report
  {
  }

  lemma ReadNodeSteps(buf: Bytes, pos: nat)
    requires pos <= |buf| && ReadPadded(buf, pos).Ok?
    ensures var name := ReadPadded(buf, pos);
      ReadNode(buf, pos) ==
      match Traverse(buf, name.pos, MAX_ENTRIES)
      case Ok(b, q) => Ok(Tree(name.value, b.props, b.children), q)
      case Report => Report
  {
  }

  lemma TraverseSpent(buf: Bytes, pos: nat)
    requires pos <= |buf|
    ensures Traverse(buf, pos, 0) == Ok(Body([], []), pos)
  {
  }

  lemma TraverseNop(buf: Bytes, pos: nat, budget: nat)
    requires ReadWord(buf, pos) == Ok(NOP, pos + 4) && 0 < budget
    ensures Traverse(buf, pos, budget) == Traverse(buf, pos + 4, budget - 1)
  {
  }

  lemma TraverseBad(buf: Bytes, pos: nat, budget: nat)
    requires pos <= |buf| && 0 < budget
    requires ReadWord(buf, pos).Ok? ==> ReadWord(buf, pos).value !in {BEGIN_NODE, PROP, NOP, END_NODE}
    ensures Traverse(buf, pos, budget) == Report
  {
  }

  lemma TraverseEnd(buf: Bytes, pos: nat, budget: nat)
    requires ReadWord(buf, pos) == Ok(END_NODE, pos + 4) && 0 < budget
    ensures Traverse(buf, pos, budget) == Ok(Body([], []), pos + 4)
  {
  }

  function RootName(name: Bytes): Bytes {
    if name == [] then Ascii("/") else name
  }

  /** A whole blob: its root, or a report. */
  function Decode(buf: Bytes): Option<Tree> {
    if |buf| < 28 || FromBe32(buf[0..4]) != MAGIC || FromBe32(buf[24..28]) != COMPAT then None
    else
      var offset := FromBe32(buf[8..12]);
      if offset >= |buf| then None
      else
        var token := ReadWord(buf, offset);
        if token.Report? || token.value != BEGIN_NODE then None
        else
          var root := ReadNode(buf, token.pos);
          if root.Report? then None
          else
            var end := ReadWord(buf, root.pos);
            if end.Report? || end.value != END then None
            else Some(Tree(RootName(root.value.name), root.value.props, root.value.children))
  }
}
