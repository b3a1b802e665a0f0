/** How the reader guesses whether a property holds strings or integers. */
module FdtClassify {
  import opened FdtBytes
  import opened FdtTree
  import opened FdtFormat

  predicate OccursAt(s: Bytes, part: Bytes, k: nat) {
    k + |part| <= |s| && s[k..k + |part|] == part
  }

  predicate Contains(s: Bytes, part: Bytes) {
    exists k :: 0 <= k <= |s| && OccursAt(s, part, k)
  }

  predicate IsStrProperty(name: Bytes) {
    || name in {Ascii("compatible"), Ascii("aliases"), Ascii("stdout-path"), Ascii("bootargs")}
    || name in {Ascii("choosen"), Ascii("device-type"), Ascii("status"), Ascii("interrupt-names")}
    || Contains(name, Ascii("name"))
  }

  predicate IsIntProperty(name: Bytes) {
    || name in {Ascii("reg"), Ascii("interrupts"), Ascii("interrupt-parent")}
    || name in {Ascii("interrupt-map"), Ascii("iommu-map"), Ascii("phandle")}
    || Contains(name, Ascii("cells")) || Contains(name, Ascii("range"))
  }

  /** isprint in the C locale. */
  predicate Printable(ch: Byte) {
    0x20 <= ch <= 0x7e
  }

  datatype Option<+T> = None | Some(value: T)

  /** The NUL-terminated printable strings that make up d after the unfinished string cur, if it is such a list. */
  function SplitStrings(d: Bytes, cur: Bytes): Option<seq<Bytes>> {
    if d == [] then if cur == [] then Some([]) else None
    else if d[0] == 0 then
      var rest := SplitStrings(d[1..], []);
      if rest.None? then None else Some([cur] + rest.value)
    else if Printable(d[0]) then SplitStrings(d[1..], cur + [d[0]])
    else None
  }

  function SplitWords(d: Bytes): seq<U32>
    requires |d| % 4 == 0
  {
    if d == [] then [] else [FromBe32(d[..4])] + SplitWords(d[4..])
  }

  datatype Kind = Ints | Strs | Unreadable

  /** The guess depends on the name, the length and the bytes only. */
  function KindOf(name: Bytes, d: Bytes): Kind {
    if IsIntProperty(name) && |d| % 4 == 0 then Ints
    else if SplitStrings(d, []).Some? then Strs
    else if |d| % 4 == 0 then Ints
    else Unreadable
  }

  /** The property that the reader makes of a name and a value. */
  function Reread(name: Bytes, d: Bytes): Option<Prop> {
    match KindOf(name, d)
    case Ints => Some(Prop(name, SplitWords(d), []))
    case Strs => Some(Prop(name, [], SplitStrings(d, []).value))
    case Unreadable => None
  }

  // ---- Nothing is lost at byte level ----

  lemma {:induction false} WordsOfSplit(d: Bytes)
    requires |d| % 4 == 0
    ensures Words(SplitWords(d)) == d
    decreases |d|
  {
    if d != [] {
      FromBe32RoundTrip(d[..4]);
      WordsOfSplit(d[4..]);
      assert d == d[..4] + d[4..];
    }
  }

  lemma {:induction false} CstrsOfSplit(d: Bytes, cur: Bytes)
    requires SplitStrings(d, cur).Some?
    ensures Cstrs(SplitStrings(d, cur).value) == cur + d
    decreases |d|
  {
    if d != [] {
      assert d == [d[0]] + d[1..];
      if d[0] == 0 {
        CstrsOfSplit(d[1..], []);
        assert ([cur] + SplitStrings(d[1..], []).value)[1..] == SplitStrings(d[1..], []).value;
        assert cur + [0] + d[1..] == cur + d;
      } else {
        CstrsOfSplit(d[1..], cur + [d[0]]);
        assert cur + [d[0]] + d[1..] == cur + d;
      }
    }
  }

  /** Whatever the guess, the value writes back byte for byte. */
  lemma RereadKeepsBytes(name: Bytes, d: Bytes)
    requires Reread(name, d).Some?
    ensures var p := Reread(name, d).value; p.name == name && PropData(p) == d && OneKind(p)
  {
    if KindOf(name, d) == Ints {
      WordsOfSplit(d);
    } else {
      CstrsOfSplit(d, []);
    }
  }

  // ---- When the guess is right ----

  /** The caller's condition: strings without NUL, and a guess that agrees with what the property holds. */
  predicate OwnKind(p: Prop) {
    && (forall i :: 0 <= i < |p.strings| ==> NulFree(p.strings[i]))
    && (p.numbers != [] ==> KindOf(p.name, PropData(p)) == Ints)
    && (p.strings != [] ==> KindOf(p.name, PropData(p)) == Strs)
  }

  lemma {:induction false} SplitOfWords(ns: seq<U32>)
    ensures |Words(ns)| == 4 * |ns| && SplitWords(Words(ns)) == ns
  {
    if ns != [] {
      SplitOfWords(ns[1..]);
      Be32RoundTrip(ns[0]);
      assert Words(ns)[..4] == Be32(ns[0]) && Words(ns)[4..] == Words(ns[1..]);
    }
  }

  function CountNul(d: Bytes): nat {
    if d == [] then 0 else (if d[0] == 0 then 1 else 0) + CountNul(d[1..])
  }

  lemma {:induction false} CountNulConcat(a: Bytes, b: Bytes)
    ensures CountNul(a + b) == CountNul(a) + CountNul(b)
  {
    if a == [] {
      assert a + b == b;
    } else {
      CountNulConcat(a[1..], b);
      assert (a + b)[0] == a[0] && (a + b)[1..] == a[1..] + b;
    }
  }

  lemma {:induction false} NulFreeCounts(s: Bytes)
    ensures CountNul(s) == 0 <==> NulFree(s)
  {
    if s != [] {
      NulFreeCounts(s[1..]);
    }
  }

  lemma {:induction false} SplitCounts(d: Bytes, cur: Bytes)
    requires SplitStrings(d, cur).Some?
    ensures |SplitStrings(d, cur).value| == CountNul(d)
    decreases |d|
  {
    if d != [] {
      if d[0] == 0 { SplitCounts(d[1..], []); } else { SplitCounts(d[1..], cur + [d[0]]); }
    }
  }

  /** As many terminators as strings exactly when no string holds a NUL. */
  lemma {:induction false} CstrsCount(ss: seq<Bytes>)
    ensures CountNul(Cstrs(ss)) >= |ss|
    ensures CountNul(Cstrs(ss)) == |ss| <==> forall i :: 0 <= i < |ss| ==> NulFree(ss[i])
  {
    if ss != [] {
      CountNulConcat(Cstr(ss[0]), Cstrs(ss[1..]));
      CountNulConcat(ss[0], [0]);
      NulFreeCounts(ss[0]);
      CstrsCount(ss[1..]);
      assert CountNul([0]) == 1;
      assert (forall i :: 0 <= i < |ss| ==> NulFree(ss[i])) <==>
        NulFree(ss[0]) && forall i :: 0 <= i < |ss[1..]| ==> NulFree(ss[1..][i]);
    }
  }

  /** Splitting takes a NUL-free string off the front. */
  lemma {:induction false} SplitFirst(s: Bytes, rest: Bytes, cur: Bytes)
    requires NulFree(s) && SplitStrings(Cstr(s) + rest, cur).Some?
    ensures SplitStrings(rest, []).Some?
    ensures SplitStrings(Cstr(s) + rest, cur).value == [cur + s] + SplitStrings(rest, []).value
    decreases |s|
  {
    var d := Cstr(s) + rest;
    if s == [] {
      assert d[0] == 0 && d[1..] == rest && cur + s == cur;
    } else {
      assert d[0] == s[0] && d[1..] == Cstr(s[1..]) + rest;
      SplitFirst(s[1..], rest, cur + [s[0]]);
      assert cur + [s[0]] + s[1..] == cur + s;
    }
  }

  lemma {:induction false} SplitOfCstrs(ss: seq<Bytes>)
    requires forall i :: 0 <= i < |ss| ==> NulFree(ss[i])
    requires SplitStrings(Cstrs(ss), []).Some?
    ensures SplitStrings(Cstrs(ss), []).value == ss
  {
    if ss != [] {
      SplitFirst(ss[0], Cstrs(ss[1..]), []);
      SplitOfCstrs(ss[1..]);
      assert [] + ss[0] == ss[0];
    }
  }

  /** A property reads back as itself exactly when the guess hits its own kind. */
  lemma RereadIsFaithful(p: Prop)
    requires OneKind(p)
    ensures Reread(p.name, PropData(p)) == Some(p) <==> OwnKind(p)
  {
    var d := PropData(p);
    SplitOfWords(p.numbers);
    if p.numbers != [] {
      assert d == Words(p.numbers);
    } else if p.strings != [] {
      assert d == Cstrs(p.strings);
      CstrsCount(p.strings);
      if SplitStrings(d, []).Some? {
        SplitCounts(d, []);
        if forall i :: 0 <= i < |p.strings| ==> NulFree(p.strings[i]) { SplitOfCstrs(p.strings); }
      }
    } else {
      assert d == [];
    }
  }

  // ---- What the guess means ----

  /** Printable characters and NULs, and nothing left open at the end. */
  predicate StringLike(d: Bytes) {
    && (d == [] || d[|d| - 1] == 0)
    && forall i :: 0 <= i < |d| ==> d[i] == 0 || 0x20 <= d[i] <= 0x7e
  }

  lemma {:induction false} SplitIff(d: Bytes, cur: Bytes)
    ensures SplitStrings(d, cur).Some? <==> StringLike(d) && (d == [] ==> cur == [])
    decreases |d|
  {
    if d != [] {
      var rest := d[1..];
      assert d == [d[0]] + rest;
      assert StringLike(d) <==>
        (d[0] == 0 || Printable(d[0])) && StringLike(rest) && (rest == [] ==> d[0] == 0);
      SplitIff(rest, if d[0] == 0 then [] else cur + [d[0]]);
    }
  }

  /**
   * Numbers are read exactly from values of whole words that either stand under a name for numbers or are no
   * strings; strings from all others that are such; the rest is unreadable.
   */
  lemma KindIs(name: Bytes, d: Bytes)
    ensures KindOf(name, d) == Ints <==> |d| % 4 == 0 && (IsIntProperty(name) || !StringLike(d))
    ensures KindOf(name, d) == Strs <==> StringLike(d) && !(|d| % 4 == 0 && IsIntProperty(name))
    ensures KindOf(name, d) == Unreadable <==> |d| % 4 != 0 && !StringLike(d)
  {
    SplitIff(d, []);
  }

  /** One byte that is neither NUL nor printable keeps the whole value from being strings, under any name. */
  lemma UnprintableMeansNumbers(name: Bytes, d: Bytes, i: nat)
    requires i < |d| && d[i] != 0 && !(0x20 <= d[i] <= 0x7e)
    ensures Reread(name, d) == if |d| % 4 == 0 then Some(Prop(name, SplitWords(d), [])) else None
  {
    KindIs(name, d);
  }

  /** The bytes of b are the characters of s. */
  predicate Spells(b: Bytes, s: string) {
    |b| == |s| && forall i :: 0 <= i < |s| ==> b[i] == s[i] as int
  }

  predicate SpellsAt(b: Bytes, s: string, k: int) {
    0 <= k <= |b| - |s| && Spells(b[k..k + |s|], s)
  }

  ghost predicate HoldsWord(b: Bytes, s: string) {
    exists k :: SpellsAt(b, s, k)
  }

  predicate IsAscii(s: string) {
    forall i :: 0 <= i < |s| ==> s[i] as int < 128
  }

  lemma AsciiSpells(b: Bytes, s: string)
    requires IsAscii(s)
    ensures b == Ascii(s) <==> Spells(b, s)
  {
  }

  lemma ContainsWord(b: Bytes, s: string)
    requires IsAscii(s)
    ensures Contains(b, Ascii(s)) <==> HoldsWord(b, s)
  {
    forall k: nat ensures OccursAt(b, Ascii(s), k) <==> SpellsAt(b, s, k) {
      if k <= |b| - |s| {
        AsciiSpells(b[k..k + |s|], s);
      }
    }
  }

  /** A word of four zero bytes is one number under these names, and four empty strings under any other. */
  lemma ZeroWordIs(name: Bytes)
    ensures Reread(name, [0, 0, 0, 0]) ==
      if Spells(name, "reg") || Spells(name, "interrupts") || Spells(name, "interrupt-parent")
        || Spells(name, "interrupt-map") || Spells(name, "iommu-map") || Spells(name, "phandle")
        || HoldsWord(name, "cells") || HoldsWord(name, "range")
      then Some(Prop(name, [0], []))
      else Some(Prop(name, [], [[], [], [], []]))
  {
    hide Spells, HoldsWord, Contains;
    AsciiSpells(name, "reg");
    AsciiSpells(name, "interrupts");
    AsciiSpells(name, "interrupt-parent");
    AsciiSpells(name, "interrupt-map");
    AsciiSpells(name, "iommu-map");
    AsciiSpells(name, "phandle");
    ContainsWord(name, "cells");
    ContainsWord(name, "range");
    ZeroWordReads(name);
  }

  lemma ZeroWordReads(name: Bytes)
    ensures Reread(name, [0, 0, 0, 0]) ==
      if IsIntProperty(name) then Some(Prop(name, [0], [])) else Some(Prop(name, [], [[], [], [], []]))
  {
    hide IsIntProperty;
    var d: Bytes := [0, 0, 0, 0];
    assert SplitWords(d) == [0] by {
      assert d[..4] == d && d[4..] == [];
    }
    var three: Bytes, two: Bytes, one: Bytes := [0, 0, 0], [0, 0], [0];
    assert d[1..] == three && three[1..] == two && two[1..] == one && one[1..] == [];
    assert SplitStrings(one, []).Some? && SplitStrings(one, []).value == [[]];
    assert SplitStrings(two, []).value == [[], []] && SplitStrings(three, []).value == [[], [], []];
    assert SplitStrings(d, []).value == [[], [], [], []];
  }
}
