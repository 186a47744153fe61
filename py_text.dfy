/**
 * The Python string operations the tree-automaton library is written with:
 * white space as `str.isspace` sees it, `str.split()` with and without a
 * separator, `strip`/`lstrip`/`rstrip` with and without a character set,
 * `str.join`, `str.isnumeric` and `int(str)`.
 */
module PyText {
  import opened Optional
  import Numerals
  import Seqs

  /** `c.isspace()`. */
  predicate IsSpace(c: char)
  {
    c == ' ' || '\t' <= c <= '\r' || '\U{1C}' <= c <= '\U{1F}' || c == '\U{85}' || c == '\U{A0}'
    || c == '\U{1680}' || '\U{2000}' <= c <= '\U{200A}' || c == '\U{2028}' || c == '\U{2029}'
    || c == '\U{202F}' || c == '\U{205F}' || c == '\U{3000}'
  }

  predicate NoSpace(w: string)
  {
    forall k :: 0 <= k < |w| ==> !IsSpace(w[k])
  }

  /** A word as `str.split()` produces it. */
  predicate IsWord(w: string)
  {
    w != [] && NoSpace(w)
  }

  predicate Avoids(s: string, c: char)
  {
    forall k :: 0 <= k < |s| ==> s[k] != c
  }

  /** `s.lstrip()`. */
  function LTrim(s: string): (r: string)
    ensures |r| <= |s|
    ensures r != [] ==> !IsSpace(r[0])
  {
    if s != [] && IsSpace(s[0]) then LTrim(s[1..]) else s
  }

  /** `s.rstrip()`. */
  function RTrim(s: string): (r: string)
    ensures |r| <= |s|
    ensures r != [] ==> !IsSpace(r[|r| - 1])
  {
    if s != [] && IsSpace(s[|s| - 1]) then RTrim(s[..|s| - 1]) else s
  }

  /** `s.strip()`. */
  function Strip(s: string): string
  {
    RTrim(LTrim(s))
  }

  /** `s.lstrip(chars)`: drops leading characters that belong to the set. */
  function LStripChars(s: string, chars: set<char>): (r: string)
    ensures r != [] ==> r[0] !in chars
  {
    if s != [] && s[0] in chars then LStripChars(s[1..], chars) else s
  }

  /** What `lstrip` leaves is a suffix of s, and everything it removed belongs to the set. */
  lemma {:induction false} LStripSuffix(s: string, chars: set<char>)
    ensures var r := LStripChars(s, chars);
      |r| <= |s| && r == s[|s| - |r|..]
      && forall i :: 0 <= i < |s| - |r| ==> s[i] in chars
    decreases |s|
  {
    if s != [] && s[0] in chars {
      LStripSuffix(s[1..], chars);
      var r := LStripChars(s, chars);
      forall i | 0 <= i < |s| - |r| ensures s[i] in chars {
        if i > 0 {
          assert s[i] == s[1..][i - 1];
        }
      }
    }
  }

  /** `s.rstrip(chars)`. */
  function RStripChars(s: string, chars: set<char>): (r: string)
    ensures |r| <= |s| && r == s[..|r|]
    ensures r != [] ==> r[|r| - 1] !in chars
  {
    if s != [] && s[|s| - 1] in chars then RStripChars(s[..|s| - 1], chars) else s
  }

  /** The characters of a string, as the set `lstrip` and `rstrip` read it as. */
  function CharSet(s: string): set<char>
  {
    set k | 0 <= k < |s| :: s[k]
  }

  /** Length of the longest prefix of s without white space. */
  function WordLength(s: string): (n: nat)
    ensures n <= |s| && NoSpace(s[..n])
    ensures n < |s| ==> IsSpace(s[n])
  {
    if s == [] || IsSpace(s[0]) then 0
    else
      var n := 1 + WordLength(s[1..]);
      assert s[..n] == [s[0]] + s[1..][..n - 1];
      n
  }

  /** `s.split()`: the maximal runs of non-space characters. */
  function Split(s: string): (r: seq<string>)
    ensures forall i :: 0 <= i < |r| ==> IsWord(r[i])
    decreases |s|
  {
    var t := LTrim(s);
    if t == [] then []
    else
      var n := WordLength(t);
      [t[..n]] + Split(t[n..])
  }

  /** Each word preceded by sep: `sep + w1 + sep + w2 + ...`. */
  function Prefixed(ws: seq<string>, sep: string): string
  {
    if ws == [] then "" else sep + ws[0] + Prefixed(ws[1..], sep)
  }

  /** `sep.join(ws)`. */
  function Join(ws: seq<string>, sep: string): string
  {
    if ws == [] then "" else ws[0] + Prefixed(ws[1..], sep)
  }

  /** `a < b` on Python strings: lexicographic by code point, a proper prefix first. */
  predicate StrLess(a: string, b: string)
    decreases |a|
  {
    b != [] && (a == [] || a[0] < b[0] || (a[0] == b[0] && StrLess(a[1..], b[1..])))
  }

  /** The order is strict: never both ways, and the empty string is below every other. */
  lemma {:induction false} StrLessAsymmetric(a: string, b: string)
    ensures StrLess(a, b) ==> !StrLess(b, a)
    ensures StrLess("", b) <==> b != ""
    decreases |a|
  {
    if a != [] && b != [] && a[0] == b[0] {
      StrLessAsymmetric(a[1..], b[1..]);
    }
  }

  /** Two different strings are ordered one way or the other. */
  lemma {:induction false} StrLessTotal(a: string, b: string)
    ensures a == b || StrLess(a, b) || StrLess(b, a)
    decreases |a|
  {
    if a != [] && b != [] && a[0] == b[0] {
      StrLessTotal(a[1..], b[1..]);
      if a[1..] == b[1..] {
        assert a == [a[0]] + a[1..] && b == [b[0]] + b[1..];
      }
    }
  }

  /** The order is transitive. */
  lemma {:induction false} StrLessTransitive(a: string, b: string, c: string)
    ensures StrLess(a, b) && StrLess(b, c) ==> StrLess(a, c)
    decreases |a|
  {
    if a != [] && b != [] && c != [] && a[0] == b[0] && b[0] == c[0] {
      StrLessTransitive(a[1..], b[1..], c[1..]);
    }
  }

  /** "Not smaller than" is transitive too: the order is total. */
  lemma StrNotLessTransitive(a: string, b: string, c: string)
    ensures !StrLess(b, a) && !StrLess(c, b) ==> !StrLess(c, a)
  {
    StrLessTotal(a, b);
    StrLessTotal(b, c);
    StrLessTransitive(a, b, c);
    StrLessAsymmetric(a, c);
  }

  /** Index of the first c in s, if any. */
  function Find(s: string, c: char): (r: Option<nat>)
    ensures r.None? <==> Avoids(s, c)
    ensures r.Some? ==> r.value < |s| && s[r.value] == c && Avoids(s[..r.value], c)
  {
    if s == [] then None
    else if s[0] == c then Some(0)
    else match Find(s[1..], c)
      case None => None
      case Some(i) =>
        assert s[..i + 1] == [s[0]] + s[1..][..i];
        Some(i + 1)
  }

  /** `s.split(c)` for a one-character separator: every piece, empty ones included. */
  function SplitOn(s: string, c: char): (r: seq<string>)
    ensures |r| >= 1 && forall i :: 0 <= i < |r| ==> Avoids(r[i], c)
    decreases |s|
  {
    match Find(s, c)
    case None => [s]
    case Some(i) => [s[..i]] + SplitOn(s[i + 1..], c)
  }

  /** Joining a non-empty tail after a first word. */
  lemma JoinCons(a: string, l: seq<string>, sep: string)
    requires l != []
    ensures Join([a] + l, sep) == a + sep + Join(l, sep)
  {
    assert ([a] + l)[1..] == l;
  }

  /** The pieces of `s.split(c)` joined back with c give s. */
  lemma {:induction false} JoinSplitOn(s: string, c: char)
    ensures Join(SplitOn(s, c), [c]) == s
    decreases |s|
  {
    var f := Find(s, c);
    if f.Some? {
      var i := f.value;
      var rest := s[i + 1..];
      JoinSplitOn(rest, c);
      JoinCons(s[..i], SplitOn(rest, c), [c]);
      assert s == s[..i] + [c] + rest;
    }
  }

  /** The first c of a + [c] + b, when a has none, is at |a|. */
  lemma FindAfter(a: string, b: string, c: char)
    requires Avoids(a, c)
    ensures var s := a + [c] + b; Find(s, c) == Some(|a|) && s[..|a|] == a && s[|a| + 1..] == b
  {
    var s := a + [c] + b;
    assert s[|a|] == c && s[..|a|] == a && s[|a| + 1..] == b;
    assert forall k :: 0 <= k < |a| ==> s[k] == a[k];
  }

  /** Joining pieces free of c with c and splitting there gives the pieces. */
  lemma {:induction false} SplitOnJoin(ws: seq<string>, c: char)
    requires ws != [] && forall i :: 0 <= i < |ws| ==> Avoids(ws[i], c)
    ensures SplitOn(Join(ws, [c]), c) == ws
  {
    if |ws| == 1 {
      assert Join(ws, [c]) == ws[0];
    } else {
      SplitOnJoin(ws[1..], c);
      JoinCons(ws[0], ws[1..], [c]);
      assert [ws[0]] + ws[1..] == ws;
      FindAfter(ws[0], Join(ws[1..], [c]), c);
    }
  }

  /** Splitting at the only separator of `a + c + b`. */
  lemma SplitOnPair(a: string, b: string, c: char)
    requires Avoids(a, c) && Avoids(b, c)
    ensures SplitOn(a + [c] + b, c) == [a, b]
  {
    var s := a + [c] + b;
    assert s[|a|] == c && s[..|a|] == a && s[|a| + 1..] == b;
    assert Find(s, c) == Some(|a|);
  }

  /** `s.isnumeric()`, for the ASCII digits. */
  predicate IsNumeric(s: string)
  {
    s != [] && Numerals.AllDigits(s)
  }

  /** The digits Python accepts in `int()`: digit groups joined by single underscores. */
  predicate DigitGroups(u: string)
    decreases |u|
  {
    u != [] && Numerals.IsDigit(u[0])
    && (|u| == 1 || DigitGroups(u[1..]) || (|u| >= 3 && u[1] == '_' && DigitGroups(u[2..])))
  }

  /** The digits of u, underscores dropped. */
  function Digits(u: string): (d: string)
    ensures Numerals.AllDigits(d)
  {
    if u == [] then [] else (if Numerals.IsDigit(u[0]) then [u[0]] else []) + Digits(u[1..])
  }

  /** The value of an unsigned numeral, if u is one. */
  function UnsignedValue(u: string): Option<int>
  {
    if DigitGroups(u) then Some(Numerals.Value(Digits(u)) as int) else None
  }

  /** The value of an optionally signed numeral, if t is one. */
  function SignedValue(t: string): Option<int>
  {
    if t != [] && t[0] == '-' then
      match UnsignedValue(t[1..]) case None => None case Some(v) => Some(-v)
    else if t != [] && t[0] == '+' then UnsignedValue(t[1..])
    else UnsignedValue(t)
  }

  /** Python `int(s)`; None stands for the ValueError. */
  function PyInt(s: string): Option<int>
  {
    SignedValue(Strip(s))
  }

  lemma {:induction false} DigitsPlain(u: string)
    requires Numerals.AllDigits(u)
    ensures Digits(u) == u
  {
    if u != [] {
      DigitsPlain(u[1..]);
      assert u == [u[0]] + u[1..];
    }
  }

  /** Strip leaves a string alone that neither starts nor ends with white space. */
  lemma StripPlain(s: string)
    requires s != [] && !IsSpace(s[0]) && !IsSpace(s[|s| - 1])
    ensures Strip(s) == s
  {
    assert LTrim(s) == s;
  }

  lemma {:induction false} DigitGroupsPlain(d: string)
    requires d != [] && Numerals.AllDigits(d)
    ensures DigitGroups(d) && Digits(d) == d
  {
    DigitsPlain(d);
    if |d| > 1 {
      DigitGroupsPlain(d[1..]);
    }
  }

  /** `int` reads a plain digit string. */
  lemma PyIntOfDigits(d: string)
    requires d != [] && Numerals.AllDigits(d)
    ensures PyInt(d) == Some(Numerals.Value(d) as int)
  {
    assert Numerals.IsDigit(d[0]) && Numerals.IsDigit(d[|d| - 1]);
    StripPlain(d);
    DigitGroupsPlain(d);
  }

  /** `int` reads a minus sign and a plain digit string. */
  lemma PyIntOfNegativeDigits(d: string)
    requires d != [] && Numerals.AllDigits(d)
    ensures PyInt("-" + d) == Some(-(Numerals.Value(d) as int))
  {
    NegativeStrip(d);
    PyIntStripped("-" + d);
    SignedNegative(d);
  }

  lemma PyIntStripped(s: string)
    requires Strip(s) == s
    ensures PyInt(s) == SignedValue(s)
  {
  }

  lemma SignedNegative(d: string)
    requires d != [] && Numerals.AllDigits(d)
    ensures SignedValue("-" + d) == Some(-(Numerals.Value(d) as int))
  {
    DigitGroupsPlain(d);
    var m := "-" + d;
    assert m[0] == '-' && m[1..] == d;
  }

  lemma NegativeStrip(d: string)
    requires d != [] && Numerals.AllDigits(d)
    ensures Strip("-" + d) == "-" + d
  {
    var m := "-" + d;
    assert Numerals.IsDigit(d[|d| - 1]);
    assert m[|m| - 1] == d[|d| - 1];
    StripPlain(m);
  }

  /** `int(str(i)) == i`. */
  lemma PyIntOfIntToString(i: int)
    ensures PyInt(Numerals.IntToString(i)) == Some(i)
  {
    var n: nat := if i < 0 then -i else i;
    Numerals.ValueOfNatToString(n);
    PyIntOfDigits(Numerals.NatToString(n));
    PyIntOfNegativeDigits(Numerals.NatToString(n));
  }

  /** A word's length is its run of non-space characters. */
  lemma {:induction false} WordLengthOf(w: string, rest: string)
    requires NoSpace(w) && (rest == [] || IsSpace(rest[0]))
    ensures WordLength(w + rest) == |w|
  {
    if w != [] {
      assert (w + rest)[1..] == w[1..] + rest;
      WordLengthOf(w[1..], rest);
    } else {
      assert w + rest == rest;
    }
  }

  /** A word followed by nothing or by white space splits off as the first word. */
  lemma SplitWord(w: string, rest: string)
    requires IsWord(w) && (rest == [] || IsSpace(rest[0]))
    ensures Split(w + rest) == [w] + Split(rest)
  {
    var s := w + rest;
    assert LTrim(s) == s;
    WordLengthOf(w, rest);
    assert s[..|w|] == w && s[|w|..] == rest;
  }

  lemma {:induction false} LTrimSpace(sp: string, rest: string)
    requires forall k :: 0 <= k < |sp| ==> IsSpace(sp[k])
    ensures LTrim(sp + rest) == LTrim(rest)
    decreases |sp|
  {
    if sp != [] {
      assert (sp + rest)[1..] == sp[1..] + rest;
      LTrimSpace(sp[1..], rest);
    } else {
      assert sp + rest == rest;
    }
  }

  /** Leading white space does not change the split. */
  lemma SplitSpace(sp: string, rest: string)
    requires forall k :: 0 <= k < |sp| ==> IsSpace(sp[k])
    ensures Split(sp + rest) == Split(rest)
  {
    LTrimSpace(sp, rest);
  }

  /** Splitting blank-separated words gives the words back. */
  lemma {:induction false} SplitSpaced(ws: seq<string>)
    requires forall i :: 0 <= i < |ws| ==> IsWord(ws[i])
    ensures Split(Prefixed(ws, " ")) == ws
  {
    if ws != [] {
      SplitSpaced(ws[1..]);
      var rest := Prefixed(ws[1..], " ");
      assert rest == [] || rest[0] == ' ';
      SplitWord(ws[0], rest);
      assert Prefixed(ws, " ") == " " + (ws[0] + rest);
      SplitSpace(" ", ws[0] + rest);
    }
  }

  /** A word written before blank-separated words splits into the word and the words. */
  lemma SplitHeaded(w: string, ws: seq<string>)
    requires IsWord(w) && forall i :: 0 <= i < |ws| ==> IsWord(ws[i])
    ensures Split(w + Prefixed(ws, " ")) == [w] + ws
  {
    SplitSpaced(ws);
    var rest := Prefixed(ws, " ");
    assert rest == [] || rest[0] == ' ';
    SplitWord(w, rest);
  }

  /** `w.startswith(p)`. */
  predicate StartsWith(w: string, p: string)
  {
    |p| <= |w| && w[..|p|] == p
  }

  /** Prefixing each word distributes over concatenation of word lists. */
  lemma {:induction false} PrefixedConcat(xs: seq<string>, ys: seq<string>, sep: string)
    ensures Prefixed(xs + ys, sep) == Prefixed(xs, sep) + Prefixed(ys, sep)
  {
    if xs == [] {
      assert xs + ys == ys;
    } else {
      assert (xs + ys)[1..] == xs[1..] + ys;
      PrefixedConcat(xs[1..], ys, sep);
    }
  }

  /** Splitting words joined by single blanks gives the words back. */
  lemma SplitJoin(ws: seq<string>)
    requires forall i :: 0 <= i < |ws| ==> IsWord(ws[i])
    ensures Split(Join(ws, " ")) == ws
  {
    if ws != [] {
      SplitHeaded(ws[0], ws[1..]);
    }
  }

  /** The last character of a non-empty join of non-empty words is the last word's last character. */
  lemma {:induction false} PrefixedLast(ws: seq<string>, sep: string)
    requires ws != [] && ws[|ws| - 1] != []
    ensures var p := Prefixed(ws, sep); p != [] && p[|p| - 1] == ws[|ws| - 1][|ws[|ws| - 1]| - 1]
  {
    if |ws| > 1 {
      PrefixedLast(ws[1..], sep);
    }
  }

  /** Trailing white space is what `rstrip` removes. */
  lemma {:induction false} RTrimSpaces(s: string, sp: string)
    requires s == [] || !IsSpace(s[|s| - 1])
    requires forall k :: 0 <= k < |sp| ==> IsSpace(sp[k])
    ensures RTrim(s + sp) == s
    decreases |sp|
  {
    if sp == [] {
      assert s + sp == s;
    } else {
      assert (s + sp)[..|s + sp| - 1] == s + sp[..|sp| - 1];
      RTrimSpaces(s, sp[..|sp| - 1]);
    }
  }

  /** A string starting with a non-blank and followed by blanks strips to itself without the blanks. */
  lemma StripTrailing(s: string, sp: string)
    requires s != [] && !IsSpace(s[0]) && !IsSpace(s[|s| - 1])
    requires forall k :: 0 <= k < |sp| ==> IsSpace(sp[k])
    ensures Strip(s + sp) == s
  {
    assert LTrim(s + sp) == s + sp;
    RTrimSpaces(s, sp);
  }

  /** Index of the first occurrence of a non-empty separator, if any. */
  function FindSep(s: string, sep: string): (r: Option<nat>)
    requires sep != []
    ensures r.Some? ==> r.value + |sep| <= |s| && s[r.value..r.value + |sep|] == sep
    decreases |s|
  {
    if |s| < |sep| then None
    else if s[..|sep|] == sep then Some(0)
    else match FindSep(s[1..], sep)
      case None => None
      case Some(i) =>
        assert s[i + 1..i + 1 + |sep|] == s[1..][i..i + |sep|];
        Some(i + 1)
  }

  /** `s.split(sep)` for a non-empty separator. */
  function SplitSep(s: string, sep: string): (r: seq<string>)
    requires sep != []
    ensures |r| >= 1
    decreases |s|
  {
    match FindSep(s, sep)
    case None => [s]
    case Some(i) => [s[..i]] + SplitSep(s[i + |sep|..], sep)
  }

  /** A string without the separator's first character holds no separator. */
  lemma {:induction false} FindSepAbsent(s: string, sep: string)
    requires sep != [] && Avoids(s, sep[0])
    ensures FindSep(s, sep) == None
    decreases |s|
  {
    if |s| >= |sep| {
      assert s[..|sep|][0] == s[0];
      FindSepAbsent(s[1..], sep);
    }
  }

  /** The first separator of a + sep + b, when a has none of its first character, is at |a|. */
  lemma {:induction false} FindSepAfter(a: string, sep: string, b: string)
    requires sep != [] && Avoids(a, sep[0])
    ensures FindSep(a + sep + b, sep) == Some(|a|)
    decreases |a|
  {
    var s := a + sep + b;
    if a == [] {
      assert s[..|sep|] == sep;
    } else {
      assert s[..|sep|][0] == a[0];
      assert s[1..] == a[1..] + sep + b;
      FindSepAfter(a[1..], sep, b);
    }
  }

  /** Splitting at the only separator of a + sep + b. */
  lemma SplitSepPair(a: string, sep: string, b: string)
    requires sep != [] && Avoids(a, sep[0]) && Avoids(b, sep[0])
    ensures SplitSep(a + sep + b, sep) == [a, b]
  {
    var s := a + sep + b;
    FindSepAfter(a, sep, b);
    assert s[..|a|] == a && s[|a| + |sep|..] == b;
    FindSepAbsent(b, sep);
  }

  /** White space alone splits into no words. */
  lemma SplitBlank(sp: string)
    requires forall k :: 0 <= k < |sp| ==> IsSpace(sp[k])
    ensures Split(sp) == []
  {
    LTrimSpace(sp, []);
    assert sp + [] == sp;
  }

  /** Blank-separated words followed by white space split into the words. */
  lemma {:induction false} SplitSpacedThen(ws: seq<string>, sp: string)
    requires forall i :: 0 <= i < |ws| ==> IsWord(ws[i])
    requires forall k :: 0 <= k < |sp| ==> IsSpace(sp[k])
    ensures Split(Prefixed(ws, " ") + sp) == ws
  {
    if ws == [] {
      assert Prefixed(ws, " ") + sp == sp;
      SplitBlank(sp);
    } else {
      SplitSpacedThen(ws[1..], sp);
      SplitSpacedStep(ws[0], Prefixed(ws[1..], " "), sp);
    }
  }

  lemma SplitSpacedStep(w: string, tail: string, sp: string)
    requires IsWord(w) && (tail == [] || tail[0] == ' ')
    requires forall k :: 0 <= k < |sp| ==> IsSpace(sp[k])
    ensures Split(" " + w + tail + sp) == [w] + Split(tail + sp)
  {
    var rest := tail + sp;
    assert rest == [] || IsSpace(rest[0]);
    SplitWord(w, rest);
    Seqs.Regroup(" ", w, tail, sp);
    SplitSpace(" ", w + rest);
  }

  /** A word list with one more word at the end joins to the join, the separator and the word. */
  lemma JoinSnoc(ws: seq<string>, x: string, sep: string)
    requires ws != []
    ensures Join(ws + [x], sep) == Join(ws, sep) + sep + x
  {
    assert (ws + [x])[0] == ws[0];
    assert (ws + [x])[1..] == ws[1..] + [x];
    PrefixedConcat(ws[1..], [x], sep);
  }

  /** Gluing two strings without white space gives one without. */
  lemma Glued(a: string, b: string)
    requires NoSpace(a) && NoSpace(b)
    ensures NoSpace(a + b)
  {
    forall k | 0 <= k < |a + b| ensures !IsSpace((a + b)[k]) {
      if k >= |a| {
        assert (a + b)[k] == b[k - |a|];
      }
    }
  }

  /** Joining pieces that avoid c with a separator that avoids c gives a string that avoids c. */
  lemma {:induction false} PrefixedAvoids(ws: seq<string>, sep: string, c: char)
    requires Avoids(sep, c) && forall i :: 0 <= i < |ws| ==> Avoids(ws[i], c)
    ensures Avoids(Prefixed(ws, sep), c)
    decreases |ws|
  {
    if ws != [] {
      PrefixedAvoids(ws[1..], sep, c);
      AvoidsConcat(sep + ws[0], Prefixed(ws[1..], sep), c);
      AvoidsConcat(sep, ws[0], c);
    }
  }

  lemma JoinAvoids(ws: seq<string>, sep: string, c: char)
    requires Avoids(sep, c) && forall i :: 0 <= i < |ws| ==> Avoids(ws[i], c)
    ensures Avoids(Join(ws, sep), c)
  {
    if ws != [] {
      PrefixedAvoids(ws[1..], sep, c);
      AvoidsConcat(ws[0], Prefixed(ws[1..], sep), c);
    }
  }

  lemma AvoidsConcat(a: string, b: string, c: char)
    requires Avoids(a, c) && Avoids(b, c)
    ensures Avoids(a + b, c)
  {
    forall k | 0 <= k < |a + b| ensures (a + b)[k] != c {
      if k >= |a| {
        assert (a + b)[k] == b[k - |a|];
      }
    }
  }
}
