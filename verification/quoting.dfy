/** Escaping, unescaping, joining and splitting of strings. */
module Quoting {
  const BACKSLASH: char := '\\'
  const STANDARD: string := "\\\"'"

  // ---- Escape ----

  /** How often c occurs in s. */
  function Count(s: string, c: char): nat {
    if s == [] then 0 else (if s[0] == c then 1 else 0) + Count(s[1..], c)
  }

  function Slashes(n: nat): (s: string)
    ensures |s| == n && forall i :: 0 <= i < n ==> s[i] == BACKSLASH
  {
    seq(n, _ => BACKSLASH)
  }

  /** One backslash for every occurrence of the character in the set, then the character. */
  function EscapeChar(c: char, chars: string): string {
    Slashes(Count(chars + STANDARD, c)) + [c]
  }

  function Escaped(s: string, chars: string): string {
    if s == [] then [] else EscapeChar(s[0], chars) + Escaped(s[1..], chars)
  }

  lemma {:induction false} EscapedConcat(a: string, b: string, chars: string)
    ensures Escaped(a + b, chars) == Escaped(a, chars) + Escaped(b, chars)
  {
    if a == [] {
      assert a + b == b;
    } else {
      var s := a + b;
      EscapedConcat(a[1..], b, chars);
      assert s[0] == a[0] && s[1..] == a[1..] + b;
      var e := EscapeChar(a[0], chars);
      hide EscapeChar;
      assert e + (Escaped(a[1..], chars) + Escaped(b, chars)) == e + Escaped(a[1..], chars) + Escaped(b, chars);
    }
  }

  lemma {:induction false} CountConcat(a: string, b: string, c: char)
    ensures Count(a + b, c) == Count(a, c) + Count(b, c)
  {
    if a == [] {
      assert a + b == b;
    } else {
      CountConcat(a[1..], b, c);
      assert (a + b)[0] == a[0] && (a + b)[1..] == a[1..] + b;
    }
  }

  lemma SlashesNext(special: string, j: nat, c: char)
    requires j < |special|
    ensures Slashes(Count(special[..0], c)) == []
    ensures Slashes(Count(special[..j + 1], c)) ==
      Slashes(Count(special[..j], c)) + if c == special[j] then [BACKSLASH] else []
  {
    assert special[..j + 1] == special[..j] + [special[j]];
    CountConcat(special[..j], [special[j]], c);
  }

  lemma EscapedNext(s: string, i: nat, chars: string)
    requires i < |s|
    ensures Escaped(s[..0], chars) == []
    ensures Escaped(s[..i + 1], chars) == Escaped(s[..i], chars) + Slashes(Count(chars + STANDARD, s[i])) + [s[i]]
  {
    EscapedConcat(s[..i], [s[i]], chars);
    assert s[..i + 1] == s[..i] + [s[i]];
    assert Escaped([s[i]], chars) == EscapeChar(s[i], chars);
  }

  method Escape(s: string, chars: string) returns (r: string)
    ensures r == Escaped(s, chars)
  {
    r := "";
    var special := chars + STANDARD;
    assert s[..0] == "" && special[..0] == "" && special != [];
    for i := 0 to |s|
      invariant r == Escaped(s[..i], chars)
    {
      hide *;
      var c := s[i];
      ghost var before := r;
      SlashesNext(special, 0, c);
      for j := 0 to |special|
        invariant r == before + Slashes(Count(special[..j], c))
      {
        SlashesNext(special, j, c);
        if c == special[j] {
          r := r + [BACKSLASH];
        }
      }
      assert special[..|special|] == special;
      r := r + [c];
      EscapedNext(s, i, chars);
    }
    assert s[..|s|] == s;
  }

  // ---- Unescape ----

  predicate Special(c: char, chars: string) {
    c in chars + STANDARD
  }

  function Unescaped(s: string, chars: string): string {
    if s == [] then []
    else if s[0] == BACKSLASH && |s| > 1 && Special(s[1], chars) then [s[1]] + Unescaped(s[2..], chars)
    else [s[0]] + Unescaped(s[1..], chars)
  }

  lemma UnescapedFrom(s: string, i: nat, chars: string)
    requires i < |s|
    ensures Unescaped(s[i..], chars) ==
      if s[i] == BACKSLASH && i < |s| - 1 && Special(s[i + 1], chars)
      then [s[i + 1]] + Unescaped(s[i + 2..], chars)
      else [s[i]] + Unescaped(s[i + 1..], chars)
  {
    var t := s[i..];
    assert t[0] == s[i] && t[1..] == s[i + 1..];
    if |t| > 1 {
      assert t[1] == s[i + 1] && t[2..] == s[i + 2..];
    }
  }

  lemma Regroup(a: string, c: char, b: string)
    ensures a + ([c] + b) == a + [c] + b
  {
  }

  method Unescape(s: string, chars: string) returns (r: string)
    ensures r == Unescaped(s, chars)
  {
    r := "";
    var i := 0;
    ghost var rest := Unescaped(s, chars);
    assert s[0..] == s && Unescaped([], chars) == [];
    while i < |s|
      invariant 0 <= i <= |s| && rest == Unescaped(s[i..], chars)
      invariant Unescaped(s, chars) == r + rest
    {
      hide Unescaped, Special;
      UnescapedFrom(s, i, chars);
      if s[i] == BACKSLASH && i < |s| - 1 && Special(s[i + 1], chars) {
        i := i + 1;
      }
      rest := Unescaped(s[i + 1..], chars);
      Regroup(r, s[i], rest);
      r := r + [s[i]];
      i := i + 1;
    }
    assert s[|s|..] == [];
  }

  /** A string without backslashes stays as it is. */
  lemma {:induction false} PlainStays(s: string, chars: string)
    requires '\\' !in s
    ensures Unescaped(s, chars) == s
  {
    if s != [] {
      PlainStays(s[1..], chars);
    }
  }

  /** Plain text in front is kept, and the rest is read on its own. */
  lemma {:induction false} PlainInFront(a: string, w: string, chars: string)
    requires '\\' !in a
    ensures Unescaped(a + w, chars) == a + Unescaped(w, chars)
  {
    if a == [] {
      assert a + w == w && a + Unescaped(w, chars) == Unescaped(w, chars);
    } else {
      var s := a + w;
      assert s[0] == a[0] && s[1..] == a[1..] + w;
      PlainInFront(a[1..], w, chars);
      assert [a[0]] + (a[1..] + Unescaped(w, chars)) == a + Unescaped(w, chars);
    }
  }

  /**
   * Of two characters, the first a backslash, it is dropped exactly if the second is a backslash, a quote or
   * in the set; then both are done with. Otherwise the second is still to be read. A last backslash stays.
   */
  lemma BackslashRule(c: char, w: string, chars: string)
    ensures Unescaped(['\\', c] + w, chars) ==
      if c == '\\' || c == '"' || c == '\'' || c in chars then [c] + Unescaped(w, chars)
      else ['\\'] + Unescaped([c] + w, chars)
    ensures Unescaped(['\\'], chars) == ['\\']
  {
    var s := ['\\', c] + w;
    assert s[1..] == [c] + w && s[2..] == w && ['\\'][1..] == [];
    var all := chars + STANDARD;
    assert STANDARD == ['\\', '"', '\''];
    assert all[|chars|] == '\\' && all[|chars| + 1] == '"' && all[|chars| + 2] == '\'';
    assert c in all <==> c in chars || c in STANDARD;
  }

  // ---- When unescaping undoes escaping ----

  lemma CountMeansSpecial(c: char, chars: string)
    ensures Count(chars + STANDARD, c) > 0 <==> Special(c, chars)
  {
    CountMember(chars + STANDARD, c);
  }

  lemma {:induction false} CountMember(s: string, c: char)
    ensures Count(s, c) > 0 <==> c in s
  {
    if s != [] {
      CountMember(s[1..], c);
    }
  }

  lemma BackslashIsSpecial(chars: string)
    ensures Special(BACKSLASH, chars)
  {
    assert STANDARD[0] == BACKSLASH;
    assert (chars + STANDARD)[|chars|] == BACKSLASH;
  }

  /** Two backslashes in front become one. */
  lemma PairShrinks(w: string, chars: string)
    ensures Unescaped([BACKSLASH, BACKSLASH] + w, chars) == [BACKSLASH] + Unescaped(w, chars)
  {
    BackslashIsSpecial(chars);
    var s := [BACKSLASH, BACKSLASH] + w;
    assert s[2..] == w;
  }

  lemma SlashesSplit(n: nat, w: string)
    ensures Slashes(n + 1) + w == [BACKSLASH] + (Slashes(n) + w)
  {
    hide Slashes;
    assert Slashes(n + 1) == [BACKSLASH] + Slashes(n);
  }

  lemma {:induction false} SlashesShrink(n: nat, w: string, chars: string)
    ensures Unescaped(Slashes(2 * n) + w, chars) == Slashes(n) + Unescaped(w, chars)
    decreases n
  {
    hide Unescaped, Slashes;
    if n == 0 {
      assert Slashes(0) + w == w && Slashes(0) + Unescaped(w, chars) == Unescaped(w, chars);
    } else {
      SlashesShrink(n - 1, w, chars);
      var v := Slashes(2 * n - 2) + w;
      PairShrinks(v, chars);
      SlashesSplit(2 * n - 1, w);
      SlashesSplit(2 * n - 2, w);
      assert Slashes(2 * n) + w == [BACKSLASH, BACKSLASH] + v;
      SlashesSplit(n - 1, Unescaped(w, chars));
    }
  }

  /** What unescaping leaves of a run of n backslashes, the character c after them, and the rest w. */
  lemma RunLength(n: nat, c: char, w: string, chars: string)
    ensures |Unescaped(Slashes(n) + ([c] + w), chars)| ==
            if n % 2 == 1 && Special(c, chars) then n / 2 + 1 + |Unescaped(w, chars)|
            else if n % 2 == 1 then n / 2 + 2 + |Unescaped(w, chars)|
            else if c == BACKSLASH then n / 2 + |Unescaped([BACKSLASH] + w, chars)|
            else n / 2 + 1 + |Unescaped(w, chars)|
  {
    var v := [c] + w;
    assert v[1..] == w;
    if n % 2 == 0 {
      SlashesShrink(n / 2, v, chars);
    } else {
      var u := [BACKSLASH] + v;
      assert u[1..] == v && u[2..] == w;
      assert Slashes(n) + v == Slashes(2 * (n / 2)) + u;
      SlashesShrink(n / 2, u, chars);
      BackslashIsSpecial(chars);
    }
  }

  /** Every character of s gets at most one backslash: it stands at most once in the set that escape() scans. */
  predicate EscapedOnce(s: string, chars: string) {
    forall c :: c in s ==> Count(chars + STANDARD, c) <= 1
  }

  /** Unescaping never gives back less than was escaped, and more as soon as one character got two backslashes. */
  lemma {:induction false} ExtraSlashesStay(s: string, chars: string)
    ensures |Unescaped(Escaped(s, chars), chars)| >= |s| + (if EscapedOnce(s, chars) then 0 else 1)
    ensures |Unescaped([BACKSLASH] + Escaped(s, chars), chars)| >= |s| + 1
  {
    if s == [] {
      assert [BACKSLASH] + Escaped(s, chars) == [BACKSLASH];
      assert Unescaped([BACKSLASH], chars) == [BACKSLASH] + Unescaped([], chars);
    } else {
      var c, n, w := s[0], Count(chars + STANDARD, s[0]), Escaped(s[1..], chars);
      ExtraSlashesStay(s[1..], chars);
      assert Escaped(s, chars) == Slashes(n) + ([c] + w);
      SlashesSplit(n, [c] + w);
      CountMeansSpecial(c, chars);
      BackslashIsSpecial(chars);
      hide Unescaped, Escaped, Special, Count;
      RunLength(n, c, w, chars);
      RunLength(n + 1, c, w, chars);
      assert EscapedOnce(s[1..], chars) && n <= 1 ==> EscapedOnce(s, chars) by {
        assert forall x :: x in s ==> x == c || x in s[1..];
      }
    }
  }

  lemma {:induction false} EscapedOnceReturns(s: string, chars: string)
    requires EscapedOnce(s, chars)
    ensures Unescaped(Escaped(s, chars), chars) == s
  {
    if s != [] {
      var c, w := s[0], Escaped(s[1..], chars);
      EscapedOnceReturns(s[1..], chars);
      CountMeansSpecial(c, chars);
      BackslashIsSpecial(chars);
      assert c in s;
      if Count(chars + STANDARD, c) == 0 {
        var e := [c] + w;
        assert Escaped(s, chars) == e && e[1..] == w;
      } else {
        var e := [BACKSLASH, c] + w;
        assert Slashes(1) == [BACKSLASH];
        assert Escaped(s, chars) == e && e[2..] == w;
      }
    }
  }

  /** unescape undoes escape on exactly the strings none of whose characters stands twice in the set that is scanned. */
  lemma UnescapeUndoesEscapeIff(s: string, chars: string)
    ensures Unescaped(Escaped(s, chars), chars) == s <==> EscapedOnce(s, chars)
  {
    if EscapedOnce(s, chars) {
      EscapedOnceReturns(s, chars);
    } else {
      ExtraSlashesStay(s, chars);
    }
  }

  /**
   * So a set of one's own is good for every string exactly when it has no duplicates and
   * contains none of the three characters that are always escaped.
   */
  lemma GoodSetIff(chars: string)
    ensures (forall s :: Unescaped(Escaped(s, chars), chars) == s)
       <==> (forall c :: c in chars ==> Count(chars, c) == 1 && c !in STANDARD)
  {
    if c :| c in chars && !(Count(chars, c) == 1 && c !in STANDARD) {
      CountConcat(chars, STANDARD, c);
      CountMember(chars, c);
      CountMember(STANDARD, c);
      var s := [c];
      assert c in s && !EscapedOnce(s, chars);
      UnescapeUndoesEscapeIff(s, chars);
      assert Unescaped(Escaped(s, chars), chars) != s;
    } else {
      forall s ensures Unescaped(Escaped(s, chars), chars) == s {
        forall c | c in s ensures Count(chars + STANDARD, c) <= 1 {
          CountConcat(chars, STANDARD, c);
          CountMember(chars, c);
          CountMember(STANDARD, c);
          StandardHasNoDuplicates(c);
        }
        UnescapeUndoesEscapeIff(s, chars);
      }
    }
  }

  lemma StandardHasNoDuplicates(c: char)
    ensures Count(STANDARD, c) <= 1
  {
    var s := STANDARD;
    assert s == ['\\', '"', '\''];
    assert s[1..] == ['"', '\''];
    assert s[1..][1..] == ['\''];
    assert s[1..][1..][1..] == [];
    assert Count(s[1..][1..], c) == if c == '\'' then 1 else 0;
    assert Count(s[1..], c) == (if c == '"' then 1 else 0) + Count(s[1..][1..], c);
  }

  // ---- Split and join ----

  predicate Quote(c: char) {
    c == '"' || c == '\''
  }

  /** The tokens that split still produces when s is left to read, with its quote flag and its buffer as given. */
  function SplitRest(s: string, separator: char, flag: bool, buf: string): seq<string> {
    if s == [] then
      if buf == [] then [] else [buf]
    else if Quote(s[0]) then SplitRest(s[1..], separator, !flag, buf)
    else if s[0] == BACKSLASH && |s| > 1 then SplitRest(s[2..], separator, flag, buf + [s[1]])
    else if s[0] == separator && !flag then (if buf == [] then [] else [buf]) + SplitRest(s[1..], separator, flag, [])
    else SplitRest(s[1..], separator, flag, buf + [s[0]])
  }

  function SplitAt(s: string, separator: char): seq<string> {
    SplitRest(s, separator, false, [])
  }

  method Split(str: string, separator: char) returns (vec: seq<string>)
    ensures vec == SplitAt(str, separator)
  {
    var flag, buf, i := false, "", 0;
    vec := [];
    assert str[0..] == str;
    while i < |str|
      invariant 0 <= i <= |str| && SplitAt(str, separator) == vec + SplitRest(str[i..], separator, flag, buf)
    {
      ghost var t := str[i..];
      assert t[0] == str[i] && t[1..] == str[i + 1..];
      var ch := str[i];
      if ch == '"' || ch == '\'' {
        flag := !flag;
      } else if ch == '\\' && i < |str| - 1 {
        i := i + 1;
        assert t[1] == str[i] && t[2..] == str[i + 1..];
        buf := buf + [str[i]];
      } else if ch == separator && !flag {
        if buf != "" {
          vec := vec + [buf];
        }
        buf := "";
      } else {
        buf := buf + [ch];
      }
      i := i + 1;
    }
    if buf != "" {
      vec := vec + [buf];
    }
  }

  lemma SplitReadsPlain(c: char, rest: string, separator: char, buf: string)
    requires !Quote(c) && c != BACKSLASH && c != separator
    ensures SplitRest([c] + rest, separator, false, buf) == SplitRest(rest, separator, false, buf + [c])
  {
    var s := [c] + rest;
    assert s[1..] == rest;
  }

  lemma SplitReadsSlash(c: char, rest: string, separator: char, buf: string)
    ensures SplitRest([BACKSLASH, c] + rest, separator, false, buf) == SplitRest(rest, separator, false, buf + [c])
  {
    var s := [BACKSLASH, c] + rest;
    assert s[2..] == rest;
  }

  // ---- What split means ----

  predicate Plain(s: string) {
    '\\' !in s && '"' !in s && '\'' !in s
  }

  /** No backslash at the end is waiting for a character. */
  predicate Complete(s: string) {
    s == [] || (if s[0] == '\\' then |s| > 1 && Complete(s[2..]) else Complete(s[1..]))
  }

  /** An odd number of quotes in s are not behind a backslash. */
  predicate Open(s: string) {
    if s == [] then false
    else if s[0] == '\\' && |s| > 1 then Open(s[2..])
    else if s[0] == '"' || s[0] == '\'' then !Open(s[1..])
    else Open(s[1..])
  }

  /** s without its quotes, and with the backslashes dropped that stand before another character. */
  function Text(s: string): string {
    if s == [] then []
    else if s[0] == '\\' && |s| > 1 then [s[1]] + Text(s[2..])
    else if s[0] == '"' || s[0] == '\'' then Text(s[1..])
    else [s[0]] + Text(s[1..])
  }

  /** The separator stands at i, not behind a backslash, with an even number of quotes before it. */
  predicate EndsToken(s: string, separator: char, i: nat) {
    i < |s| && s[i] == separator && Complete(s[..i]) && !Open(s[..i])
  }

  lemma {:induction false} Behind(a: string, b: string)
    requires Complete(a)
    ensures Complete(a + b) <==> Complete(b)
    ensures Open(a + b) <==> Open(a) != Open(b)
    ensures Text(a + b) == Text(a) + Text(b)
    decreases |a|
  {
    var s := a + b;
    if a == [] {
      assert s == b;
    } else if a[0] == '\\' {
      Behind(a[2..], b);
      assert s[0] == a[0] && s[1] == a[1] && s[2..] == a[2..] + b;
      assert [a[1]] + (Text(a[2..]) + Text(b)) == Text(a) + Text(b);
    } else {
      Behind(a[1..], b);
      assert s[0] == a[0] && s[1..] == a[1..] + b;
      assert [a[0]] + (Text(a[1..]) + Text(b)) == [a[0]] + Text(a[1..]) + Text(b);
    }
  }

  /** With the flag as given at its start, no separator in s ends a token. */
  ghost predicate NoneEnds(s: string, separator: char, flag: bool) {
    forall i :: 0 <= i < |s| && s[i] == separator && Complete(s[..i]) ==> Open(s[..i]) != flag
  }

  /** The same, seen from k characters further on. */
  lemma NoneEndsAfter(a: string, k: nat, separator: char, flag: bool)
    requires k <= |a| && Complete(a[..k]) && NoneEnds(a, separator, flag)
    ensures NoneEnds(a[k..], separator, flag != Open(a[..k]))
  {
    var b := a[k..];
    forall i | 0 <= i < |b| && b[i] == separator && Complete(b[..i])
      ensures Open(b[..i]) != (flag != Open(a[..k]))
    {
      hide Complete, Open;
      assert a[..k + i] == a[..k] + b[..i];
      Behind(a[..k], b[..i]);
      assert a[k + i] == separator;
    }
  }

  lemma FirstUnit(a: string)
    requires a != [] && Complete(a)
    ensures a[0] == '\\' ==> |a| > 1 && Complete(a[..2]) && !Open(a[..2])
    ensures a[0] != '\\' ==> Complete(a[..1]) && (Open(a[..1]) <==> Quote(a[0]))
  {
    if a[0] == '\\' {
      assert a[..2][2..] == [];
    } else {
      assert a[..1][1..] == [];
    }
  }

  lemma StartIsOutside(a: string, separator: char, flag: bool)
    requires a != [] && NoneEnds(a, separator, flag) && a[0] == separator
    ensures flag
  {
    assert a[..0] == [];
  }

  /** Text that ends no token goes to the buffer, and its quotes turn the flag. */
  lemma {:induction false} SplitReads(a: string, w: string, separator: char, flag: bool, buf: string)
    requires Complete(a) && Plain([separator]) && NoneEnds(a, separator, flag)
    ensures SplitRest(a + w, separator, flag, buf) == SplitRest(w, separator, flag != Open(a), buf + Text(a))
    decreases |a|
  {
    var s := a + w;
    assert separator in [separator];
    hide NoneEnds;
    if a == [] {
      assert s == w && buf + Text(a) == buf;
    } else if a[0] == '\\' {
      FirstUnit(a);
      NoneEndsAfter(a, 2, separator, flag);
      assert s[2..] == a[2..] + w && buf + Text(a) == buf + [a[1]] + Text(a[2..]);
      SplitReads(a[2..], w, separator, flag, buf + [a[1]]);
    } else {
      FirstUnit(a);
      NoneEndsAfter(a, 1, separator, flag);
      assert s[1..] == a[1..] + w;
      if Quote(a[0]) {
        SplitReads(a[1..], w, separator, !flag, buf);
      } else {
        if a[0] == separator {
          StartIsOutside(a, separator, flag);
        }
        assert buf + Text(a) == buf + [a[0]] + Text(a[1..]);
        SplitReads(a[1..], w, separator, flag, buf + [a[0]]);
      }
    }
  }

  /** Only a last backslash makes a string incomplete; it counts as text. */
  lemma {:induction false} LastBackslash(s: string)
    requires !Complete(s)
    ensures s != [] && s[|s| - 1] == '\\' && Complete(s[..|s| - 1])
  {
    var n := |s| - 1;
    if s[0] == '\\' && |s| > 1 {
      LastBackslash(s[2..]);
      assert s[..n][2..] == s[2..][..n - 2];
    } else if s[0] != '\\' {
      LastBackslash(s[1..]);
      assert s[..n][1..] == s[1..][..n - 1];
    }
  }

  lemma LastApart(s: string)
    requires s != []
    ensures s == s[..|s| - 1] + [s[|s| - 1]]
  {
  }

  lemma BackslashReads(separator: char, flag: bool, buf: string)
    requires separator != '\\'
    ensures SplitRest(['\\'], separator, flag, buf) == [buf + ['\\']]
    ensures Text(['\\']) == ['\\']
  {
    assert ['\\'][1..] == [];
  }

  lemma CompleteIsOneToken(s: string, w: string, separator: char)
    requires Complete(s) && Plain([separator]) && NoneEnds(s, separator, false)
    ensures SplitRest(s + w, separator, false, []) == SplitRest(w, separator, Open(s), Text(s))
  {
    hide *;
    SplitReads(s, w, separator, false, []);
    assert [] + Text(s) == Text(s);
  }

  lemma PrefixEndsNone(s: string, n: nat, separator: char)
    requires n <= |s| && NoneEnds(s, separator, false)
    ensures NoneEnds(s[..n], separator, false)
  {
    var t := s[..n];
    hide Complete, Open;
    forall i | 0 <= i < |t| && t[i] == separator && Complete(t[..i]) ensures Open(t[..i]) {
      assert t[..i] == s[..i];
    }
  }

  /** A string in which nothing ends a token is one token, its text; or none if that is empty. */
  lemma OneToken(s: string, separator: char)
    requires Plain([separator]) && forall i :: 0 <= i < |s| ==> !EndsToken(s, separator, i)
    ensures SplitAt(s, separator) == if Text(s) == [] then [] else [Text(s)]
  {
    hide EndsToken;
    assert separator in [separator] && separator != '\\';
    CompleteNoneEnds(s, separator);
    var buf := Text(s);
    assert SplitRest([], separator, Open(s), buf) == if buf == [] then [] else [buf];
    if Complete(s) {
      hide Complete, Open, Text, SplitRest, NoneEnds, Plain;
      assert s + [] == s;
      CompleteIsOneToken(s, [], separator);
    } else {
      var t := s[..|s| - 1];
      LastBackslash(s);
      LastApart(s);
      hide Complete, Open, Text, SplitRest, NoneEnds, Plain;
      PrefixEndsNone(s, |s| - 1, separator);
      CompleteIsOneToken(t, ['\\'], separator);
      BackslashReads(separator, Open(t), Text(t));
      Behind(t, ['\\']);
    }
  }

  lemma CompleteNoneEnds(s: string, separator: char)
    requires forall i :: 0 <= i < |s| ==> !EndsToken(s, separator, i)
    ensures NoneEnds(s, separator, false)
  {
    hide Complete, Open;
    forall i | 0 <= i < |s| && s[i] == separator && Complete(s[..i]) ensures Open(s[..i]) {
      assert !EndsToken(s, separator, i);
    }
  }

  lemma {:induction false} SplitBreaks(a: string, b: string, separator: char, flag: bool, buf: string)
    requires Complete(a) && Open(a) == flag && Plain([separator])
    ensures SplitRest(a + [separator] + b, separator, flag, buf)
         == SplitRest(a, separator, flag, buf) + SplitRest(b, separator, false, [])
    decreases |a|
  {
    var s := a + [separator] + b;
    assert separator in [separator];
    if a == [] {
      assert s[1..] == b;
    } else if a[0] == '\\' {
      assert s[2..] == a[2..] + [separator] + b;
      SplitBreaks(a[2..], b, separator, flag, buf + [a[1]]);
    } else {
      assert s[1..] == a[1..] + [separator] + b;
      if Quote(a[0]) {
        SplitBreaks(a[1..], b, separator, !flag, buf);
      } else if a[0] == separator && !flag {
        SplitBreaks(a[1..], b, separator, false, []);
        var own: seq<string> := if buf == [] then [] else [buf];
        var x, y := SplitRest(a[1..], separator, false, []), SplitRest(b, separator, false, []);
        assert own + (x + y) == own + x + y;
      } else {
        SplitBreaks(a[1..], b, separator, flag, buf + [a[0]]);
      }
    }
  }

  /**
   * The law of split: each separator that is not behind a backslash and has an even number of quotes before
   * it separates, and nothing else does.
   */
  lemma SplitLaw(s: string, separator: char)
    requires Plain([separator])
    ensures forall i :: 0 <= i < |s| && EndsToken(s, separator, i) ==>
      SplitAt(s, separator) == SplitAt(s[..i], separator) + SplitAt(s[i + 1..], separator)
    ensures (forall i :: 0 <= i < |s| ==> !EndsToken(s, separator, i)) ==>
      SplitAt(s, separator) == if Text(s) == [] then [] else [Text(s)]
  {
    hide Complete, Open, Text, SplitAt;
    forall i | 0 <= i < |s| && EndsToken(s, separator, i)
      ensures SplitAt(s, separator) == SplitAt(s[..i], separator) + SplitAt(s[i + 1..], separator)
    {
      BreakAt(s, separator, i);
    }
    if forall i :: 0 <= i < |s| ==> !EndsToken(s, separator, i) {
      OneToken(s, separator);
    }
  }

  lemma BreakAt(s: string, separator: char, i: nat)
    requires Plain([separator]) && EndsToken(s, separator, i)
    ensures SplitAt(s, separator) == SplitAt(s[..i], separator) + SplitAt(s[i + 1..], separator)
  {
    hide SplitRest, Complete, Open;
    assert s == s[..i] + [separator] + s[i + 1..];
    SplitBreaks(s[..i], s[i + 1..], separator, false, []);
  }

  lemma {:induction false} PlainText(s: string)
    requires Plain(s)
    ensures Complete(s) && !Open(s) && Text(s) == s
  {
    if s != [] {
      PlainText(s[1..]);
    }
  }

  lemma PlainNoneEnds(s: string, separator: char, flag: bool)
    requires Plain(s) && (separator !in s || flag)
    ensures NoneEnds(s, separator, flag)
  {
    forall i | 0 <= i < |s| && s[i] == separator ensures Open(s[..i]) != flag {
      PlainText(s[..i]);
    }
  }

  /** Plain text goes to the buffer, inside quotes also with separators. */
  lemma PlainReads(a: string, w: string, separator: char, flag: bool, buf: string)
    requires Plain(a) && Plain([separator]) && (separator !in a || flag)
    ensures SplitRest(a + w, separator, flag, buf) == SplitRest(w, separator, flag, buf + a)
  {
    PlainText(a);
    PlainNoneEnds(a, separator, flag);
    hide SplitRest, NoneEnds;
    SplitReads(a, w, separator, flag, buf);
  }

  lemma QuoteReads(w: string, quote: char, separator: char, flag: bool, buf: string)
    requires quote == '"' || quote == '\''
    ensures SplitRest([quote] + w, separator, flag, buf) == SplitRest(w, separator, !flag, buf)
  {
    var s := [quote] + w;
    assert s[1..] == w;
  }

  /** A quoted part keeps its separators, and joins the plain text around it to one token. */
  lemma QuotedIsOneToken(a: string, s: string, b: string, quote: char, separator: char)
    requires Plain(a) && Plain(s) && Plain(b) && (quote == '"' || quote == '\'') && Plain([separator])
    requires separator !in a && separator !in b && a + s + b != []
    ensures SplitAt(a + [quote] + s + [quote] + b, separator) == [a + s + b]
  {
    var q := [quote] + (b + []);
    assert a + [quote] + s + [quote] + b == a + ([quote] + (s + q));
    assert [] + a == a && SplitRest([], separator, false, a + s + b) == [a + s + b];
    hide SplitRest, Plain;
    PlainReads(a, [quote] + (s + q), separator, false, []);
    QuoteReads(s + q, quote, separator, false, a);
    PlainReads(s, q, separator, true, a);
    QuoteReads(b + [], quote, separator, true, a + s);
    PlainReads(b, [], separator, false, a + s);
  }

  function Joined(v: seq<string>, separator: string): string {
    if v == [] then "" else if |v| == 1 then v[0] else v[0] + separator + Joined(v[1..], separator)
  }

  lemma {:induction false} JoinedSnoc(v: seq<string>, x: string, separator: string)
    requires v != []
    ensures Joined(v + [x], separator) == Joined(v, separator) + separator + x
  {
    var w := v + [x];
    assert w[0] == v[0] && w[1..] == v[1..] + [x];
    if |v| > 1 {
      JoinedSnoc(v[1..], x, separator);
    }
  }

  method Join(v: seq<string>, separator: string) returns (r: string)
    ensures r == Joined(v, separator)
  {
    if |v| == 0 {
      return "";
    }
    r := v[0];
    assert v[..1] == [v[0]];
    for i := 1 to |v|
      invariant r == Joined(v[..i], separator)
    {
      JoinedSnoc(v[..i], v[i], separator);
      assert v[..i + 1] == v[..i] + [v[i]];
      r := r + separator + v[i];
    }
    assert v[..|v|] == v;
  }

  /** Where the k-th string of a join starts. */
  function StartOf(v: seq<string>, separator: string, k: nat): nat
    requires k <= |v|
  {
    if k == 0 then 0 else StartOf(v, separator, k - 1) + |v[k - 1]| + |separator|
  }

  lemma {:induction false} StartOfTail(v: seq<string>, separator: string, k: nat)
    requires 0 < k <= |v|
    ensures StartOf(v, separator, k) == |v[0]| + |separator| + StartOf(v[1..], separator, k - 1)
  {
    if k > 1 {
      StartOfTail(v, separator, k - 1);
    }
  }

  predicate StandsAt(s: string, at: nat, part: string) {
    at + |part| <= |s| && s[at..at + |part|] == part
  }

  lemma StandsBehind(a: string, b: string, at: nat, part: string)
    requires StandsAt(b, at, part)
    ensures StandsAt(a + b, |a| + at, part)
  {
  }

  lemma StandsInFront(a: string, b: string, c: string)
    ensures StandsAt(a + b + c, 0, a) && StandsAt(a + b + c, |a|, b)
  {
  }

  /** The join holds exactly the strings, each at its place, with the separator between each two. */
  lemma {:induction false} JoinPlaces(v: seq<string>, separator: string, k: nat)
    requires k < |v|
    ensures |Joined(v, separator)| + |separator| == StartOf(v, separator, |v|)
    ensures StandsAt(Joined(v, separator), StartOf(v, separator, k), v[k])
    ensures k + 1 < |v| ==> StandsAt(Joined(v, separator), StartOf(v, separator, k) + |v[k]|, separator)
    decreases |v|
  {
    if |v| == 1 {
      assert StartOf(v, separator, 1) == |v[0]| + |separator| && v[0][0..|v[0]|] == v[0];
    } else {
      var rest, head := Joined(v[1..], separator), v[0] + separator;
      assert Joined(v, separator) == head + rest && StartOf(v, separator, 0) == 0;
      hide Joined, StartOf, StandsAt;
      StartOfTail(v, separator, |v|);
      if k == 0 {
        JoinPlaces(v[1..], separator, 0);
        StandsInFront(v[0], separator, rest);
      } else {
        JoinPlaces(v[1..], separator, k - 1);
        StartOfTail(v, separator, k);
        StandsBehind(head, rest, StartOf(v[1..], separator, k - 1), v[k]);
        if k + 1 < |v| {
          StandsBehind(head, rest, StartOf(v[1..], separator, k - 1) + |v[k]|, separator);
        }
      }
    }
  }

  /** Every string of the list escaped for use between separators. */
  function EscapedAll(v: seq<string>, separator: char): (r: seq<string>)
    ensures |r| == |v|
  {
    seq(|v|, i requires 0 <= i < |v| => Escaped(v[i], [separator]))
  }

  function NonEmpty(v: seq<string>): seq<string> {
    if v == [] then [] else (if v[0] == [] then [] else [v[0]]) + NonEmpty(v[1..])
  }

  lemma CountInSet(separator: char, c: char)
    requires separator !in STANDARD
    ensures Count([separator] + STANDARD, c) == if c == separator || c in STANDARD then 1 else 0
  {
    var own: string := [separator];
    assert own[1..] == [];
    CountConcat(own, STANDARD, c);
    CountMember(STANDARD, c);
    StandardHasNoDuplicates(c);
  }

  lemma EscapedByOne(c: char, separator: char)
    requires separator !in STANDARD
    ensures EscapeChar(c, [separator]) ==
      if c == separator || Quote(c) || c == BACKSLASH then [BACKSLASH, c] else [c]
  {
    CountInSet(separator, c);
    assert STANDARD == ['\\', '"', '\''];
    assert Slashes(0) == [] && Slashes(1) == [BACKSLASH];
  }

  /** split reads an escaped string into its buffer, whatever characters it has. */
  lemma {:induction false} SplitReadsEscaped(s: string, w: string, separator: char, buf: string)
    requires separator !in STANDARD
    ensures SplitRest(Escaped(s, [separator]) + w, separator, false, buf) == SplitRest(w, separator, false, buf + s)
    decreases |s|
  {
    hide SplitRest, EscapeChar;
    if s == [] {
      assert Escaped(s, [separator]) + w == w && buf + s == buf;
    } else {
      var c, rest := s[0], Escaped(s[1..], [separator]) + w;
      SplitReadsEscaped(s[1..], w, separator, buf + [c]);
      assert buf + s == buf + [c] + s[1..];
      assert Escaped(s, [separator]) + w == EscapeChar(c, [separator]) + rest;
      EscapedByOne(c, separator);
      if c == separator || Quote(c) || c == BACKSLASH {
        SplitReadsSlash(c, rest, separator, buf);
      } else {
        SplitReadsPlain(c, rest, separator, buf);
      }
    }
  }

  /** Splitting the join of the escaped strings gives back the list without its empty strings. */
  lemma {:induction false} SplitUndoesJoin(v: seq<string>, separator: char)
    requires separator !in STANDARD
    ensures SplitAt(Joined(EscapedAll(v, separator), [separator]), separator) == NonEmpty(v)
  {
    if v != [] {
      var all := EscapedAll(v, separator);
      var rest := all[1..];
      assert rest == EscapedAll(v[1..], separator);
      SplitUndoesJoin(v[1..], separator);
      assert STANDARD[0] == '\\' && STANDARD[1] == '"' && STANDARD[2] == '\'';
      assert [] + v[0] == v[0];
      if |v| == 1 {
        SplitReadsEscaped(v[0], [], separator, []);
        assert all[0] + [] == all[0];
        assert NonEmpty(v[1..]) == [];
      } else {
        var w := [separator] + Joined(rest, [separator]);
        assert w[1..] == Joined(rest, [separator]);
        SplitReadsEscaped(v[0], w, separator, []);
        assert all[0] + w == Joined(all, [separator]);
      }
    }
  }

  lemma {:induction false} NonEmptyKeepsIff(v: seq<string>)
    ensures |NonEmpty(v)| <= |v|
    ensures NonEmpty(v) == v <==> "" !in v
  {
    if v != [] {
      NonEmptyKeepsIff(v[1..]);
    }
  }

  /** A backslash or a quote between two letters does not split them. */
  lemma StandardDoesNotSplit(separator: char)
    requires separator in STANDARD
    ensures SplitAt(['a'] + [separator, 'b'], separator) == ["ab"]
  {
    assert STANDARD == ['\\', '"', '\''];
    SplitReadsPlain('a', [separator, 'b'], separator, []);
    assert [] + ['a'] == "a" && ['b'] + [] == ['b'] && "a" + ['b'] == "ab";
    if separator == BACKSLASH {
      SplitReadsSlash('b', [], separator, "a");
      assert [BACKSLASH, 'b'] + [] == [separator, 'b'];
    } else {
      assert [separator, 'b'][1..] == ['b'] && ['b'][1..] == [];
      assert SplitRest([], separator, true, "ab") == ["ab"];
    }
  }

  /** Quotes and backslashes between the strings are not seen as separators. */
  lemma BadSeparatorMerges(separator: char)
    requires separator in STANDARD
    ensures SplitAt(Joined(EscapedAll(["a", "b"], separator), [separator]), separator) == ["ab"]
  {
    StandardDoesNotSplit(separator);
    hide SplitAt;
    assert STANDARD == ['\\', '"', '\''];
    forall c | c in "ab" ensures Escaped([c], [separator]) == [c] {
      CountMember([separator] + STANDARD, c);
      var s := [c];
      assert s[1..] == [] && Slashes(0) == [];
    }
    assert 'a' in "ab" && 'b' in "ab";
    var all := EscapedAll(["a", "b"], separator);
    assert all == ["a", "b"] && all[1..] == ["b"];
    assert Joined(all, [separator]) == ['a'] + [separator, 'b'];
  }

  /**
   * The separators for which escape, join and split carry every list of non-empty strings
   * are all characters but the backslash and the two quotes.
   */
  lemma GoodSeparatorIff(separator: char)
    ensures (forall v: seq<string> :: "" !in v ==>
              SplitAt(Joined(EscapedAll(v, separator), [separator]), separator) == v)
       <==> separator !in STANDARD
  {
    if separator in STANDARD {
      var v := ["a", "b"];
      assert "" !in v;
      BadSeparatorMerges(separator);
      assert SplitAt(Joined(EscapedAll(v, separator), [separator]), separator) != v;
    } else {
      forall v: seq<string> | "" !in v
        ensures SplitAt(Joined(EscapedAll(v, separator), [separator]), separator) == v
      {
        SplitUndoesJoin(v, separator);
        NonEmptyKeepsIff(v);
      }
    }
  }
}
