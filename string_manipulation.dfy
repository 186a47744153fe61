/**
 * Helpers on state and variable names. A name is read as a non-numeric
 * prefix followed by a decimal number ("q10", "x3"); lists of such names are
 * sorted by the number, variable lists are generated and translated back to
 * their numbers, and pairs of names are written as tuple strings.
 */
module StringManipulation {
  import opened Optional
  import opened PyText
  import Numerals
  import Seqs

  /**
   * How many of the suffixes s[i..], 0 <= i < |s|, are not numeric: the
   * length of the name's prefix as the source counts it.
   */
  function NonNumericSuffixes(s: string): (n: nat)
    ensures n <= |s|
    decreases |s|
  {
    if s == [] then 0 else (if IsNumeric(s) then 0 else 1) + NonNumericSuffixes(s[1..])
  }

  /** The counting loop of `state_name_sort` / `get_var_prefix_from_list`. */
  method NamePrefixLength(s: string) returns (n: nat)
    ensures n == NonNumericSuffixes(s)
    ensures Numerals.AllDigits(s[n..]) && (n > 0 ==> !Numerals.IsDigit(s[n - 1]))
  {
    n := 0;
    for i := 0 to |s|
      invariant n + NonNumericSuffixes(s[i..]) == NonNumericSuffixes(s)
    {
      assert s[i..][1..] == s[i + 1..];
      if !IsNumeric(s[i..]) {
        n := n + 1;
      }
    }
    assert s[|s|..] == [];
    PrefixSplit(s);
  }

  lemma {:induction false} NumericHasNoPrefix(s: string)
    requires Numerals.AllDigits(s)
    ensures NonNumericSuffixes(s) == 0
    decreases |s|
  {
    if s != [] {
      NumericHasNoPrefix(s[1..]);
    }
  }

  /**
   * The counted prefix is the part before the longest all-digit suffix: what
   * follows it is all digits, and it is empty or ends in a non-digit.
   */
  lemma {:induction false} PrefixSplit(s: string)
    ensures var n := NonNumericSuffixes(s);
      Numerals.AllDigits(s[n..]) && (n > 0 ==> !Numerals.IsDigit(s[n - 1]))
    decreases |s|
  {
    if s != [] {
      if IsNumeric(s) {
        NumericHasNoPrefix(s);
      } else {
        PrefixSplit(s[1..]);
        var m := NonNumericSuffixes(s[1..]);
        assert s[m + 1..] == s[1..][m..];
        if m == 0 {
          assert s == [s[0]] + s[1..];
          assert !Numerals.IsDigit(s[0]);
        } else {
          assert s[m] == s[1..][m - 1];
        }
      }
    }
  }

  /** The non-numeric prefix of a name. */
  function NamePrefix(s: string): string
  {
    s[..NonNumericSuffixes(s)]
  }

  /** A prefix that does not end in a digit, followed by digits, is the name's prefix. */
  lemma {:induction false} NamePrefixOf(p: string, d: string)
    requires p == [] || !Numerals.IsDigit(p[|p| - 1])
    requires d != [] && Numerals.AllDigits(d)
    ensures NamePrefix(p + d) == p
    decreases |p|
  {
    if p == [] {
      assert p + d == d;
      NumericHasNoPrefix(d);
    } else {
      var s := p + d;
      assert s[|p| - 1] == p[|p| - 1];
      assert !IsNumeric(s);
      assert s[1..] == p[1..] + d;
      if |p| > 1 {
        assert p[1..][|p| - 2] == p[|p| - 1];
      }
      NamePrefixOf(p[1..], d);
      assert s[..|p|] == p;
    }
  }

  // ---------------------------------------------------------------------
  // Sorting by an integer key (Python's stable `sort`)
  // ---------------------------------------------------------------------

  predicate SortedBy<T>(s: seq<T>, key: T -> int)
  {
    forall i, j :: 0 <= i < j < |s| ==> key(s[i]) <= key(s[j])
  }

  /** Insert x before the first element with a larger or equal key. */
  function InsertBy<T>(x: T, s: seq<T>, key: T -> int): (r: seq<T>)
    requires SortedBy(s, key)
    ensures SortedBy(r, key) && multiset(r) == multiset(s) + multiset{x}
  {
    if s == [] then [x]
    else if key(x) <= key(s[0]) then [x] + s
    else
      var t := InsertBy(x, s[1..], key);
      assert s == [s[0]] + s[1..];
      assert forall i :: 0 <= i < |t| ==> key(s[0]) <= key(t[i]) by {
        forall i | 0 <= i < |t| ensures key(s[0]) <= key(t[i]) {
          assert t[i] in multiset(t);
          assert t[i] == x || t[i] in multiset(s[1..]);
        }
      }
      [s[0]] + t
  }

  /** A stable sort of s by key. */
  function SortBy<T>(s: seq<T>, key: T -> int): (r: seq<T>)
    ensures SortedBy(r, key) && multiset(r) == multiset(s)
  {
    if s == [] then []
    else
      assert s == [s[0]] + s[1..];
      InsertBy(s[0], SortBy(s[1..], key), key)
  }

  // ---------------------------------------------------------------------
  // state_name_sort
  // ---------------------------------------------------------------------

  /** `[int(i.lstrip(prefix)) for i in states]`; None stands for the ValueError. */
  function LStripValues(states: seq<string>, chars: set<char>): (r: Option<seq<int>>)
    ensures r.Some? ==> |r.value| == |states|
  {
    if states == [] then Some([])
    else match PyInt(LStripChars(states[0], chars))
      case None => None
      case Some(v) =>
        match LStripValues(states[1..], chars)
        case None => None
        case Some(vs) => Some([v] + vs)
  }

  function Identity(v: int): int
  {
    v
  }

  /** Every number written after the prefix. */
  function Renamed(prefix: string, vs: seq<int>): (r: seq<string>)
    ensures |r| == |vs|
  {
    if vs == [] then [] else [prefix + Numerals.IntToString(vs[0])] + Renamed(prefix, vs[1..])
  }

  /**
   * `state_name_sort` as written: the prefix of the first name is removed from
   * every name with `lstrip`, which drops any leading run of the prefix's
   * characters rather than the prefix itself, and the names are rebuilt from
   * the sorted numbers.
   */
  function StateNameSortAsWritten(states: seq<string>): seq<string>
  {
    if states == [] then []
    else
      var prefix := NamePrefix(states[0]);
      match LStripValues(states, CharSet(prefix))
      case None => states
      case Some(vs) => Renamed(prefix, SortBy(vs, Identity))
  }

  /** The number after `prefix` in a name, if the name starts with it and the rest reads as an int. */
  function SuffixValue(name: string, prefix: string): Option<int>
  {
    if |prefix| <= |name| && name[..|prefix|] == prefix then PyInt(name[|prefix|..]) else None
  }

  /** Every name has the prefix and a number after it. */
  predicate AllSuffixed(states: seq<string>, prefix: string)
  {
    forall i :: 0 <= i < |states| ==> SuffixValue(states[i], prefix).Some?
  }

  /** The sort key of a name: its number, or 0 if it has none. */
  function SuffixKey(prefix: string): string -> int
  {
    (name: string) => match SuffixValue(name, prefix) case Some(v) => v case None => 0
  }

  /**
   * `state_name_sort` as intended: when every name is the first name's prefix
   * followed by a number, the names themselves are sorted by that number;
   * otherwise the list is returned unchanged. The result is always a
   * permutation of the input.
   */
  function StateNameSort(states: seq<string>): (r: seq<string>)
    ensures multiset(r) == multiset(states) && |r| == |states|
    ensures states != [] && AllSuffixed(states, NamePrefix(states[0])) ==>
      SortedBy(r, SuffixKey(NamePrefix(states[0])))
    ensures (states == [] || !AllSuffixed(states, NamePrefix(states[0]))) ==> r == states
  {
    if states == [] then []
    else
      var prefix := NamePrefix(states[0]);
      if AllSuffixed(states, prefix) then
        var r := SortBy(states, SuffixKey(prefix));
        assert |r| == |multiset(r)| == |multiset(states)| == |states|;
        r
      else states
  }

  /** Two elements are swapped exactly when the second has the smaller key. */
  lemma SortPair<T>(a: T, b: T, key: T -> int)
    ensures SortBy([a, b], key) == if key(b) < key(a) then [b, a] else [a, b]
  {
    assert [a, b][1..] == [b] && [b][1..] == [];
    assert SortBy([b], key) == [b];
    assert [b][1..] == [];
  }

  lemma PrefixOfQ10()
    ensures NamePrefix("q10") == "q"
  {
    NamePrefixOf("q", "10");
    assert "q" + "10" == "q10";
  }

  lemma SuffixesOfQ()
    ensures SuffixValue("q10", "q") == Some(10) && SuffixValue("q2", "q") == Some(2)
  {
    assert "q10"[..1] == "q" && "q10"[1..] == "10";
    assert "q2"[..1] == "q" && "q2"[1..] == "2";
    PyIntOfDigits("10");
    PyIntOfDigits("2");
  }

  /** "q2" comes before "q10": names are ordered by their numbers, not as text. */
  lemma StateNameSortNumeric()
    ensures StateNameSort(["q10", "q2"]) == ["q2", "q10"]
  {
    var s := ["q10", "q2"];
    PrefixOfQ10();
    SuffixesOfQ();
    assert AllSuffixed(s, "q");
    var key := SuffixKey("q");
    assert key("q10") == 10 && key("q2") == 2;
    SortPair("q10", "q2", key);
  }

  lemma PrefixOfX12()
    ensures NamePrefix("x1_2") == "x1_"
  {
    NamePrefixOf("x1_", "2");
    assert "x1_" + "2" == "x1_2";
  }

  lemma CharSetOfX1()
    ensures CharSet("x1_") == {'x', '1', '_'}
  {
    var p := "x1_";
    assert p[0] == 'x' && p[1] == '1' && p[2] == '_';
  }

  lemma LStripCons(c: char, s: string, chars: set<char>)
    requires c in chars
    ensures LStripChars([c] + s, chars) == LStripChars(s, chars)
  {
    assert ([c] + s)[1..] == s;
  }

  lemma LStripOfX12()
    ensures LStripChars("x1_2", {'x', '1', '_'}) == "2"
  {
    var chars := {'x', '1', '_'};
    assert LStripChars("2", chars) == "2";
    LStripCons('_', "2", chars);
    LStripCons('1', "_2", chars);
    LStripCons('x', "1_2", chars);
    assert ['x'] + "1_2" == "x1_2" && ['1'] + "_2" == "1_2" && ['_'] + "2" == "_2";
  }

  lemma LStripOfX112()
    ensures LStripChars("x1_12", {'x', '1', '_'}) == "2"
  {
    var chars := {'x', '1', '_'};
    assert LStripChars("2", chars) == "2";
    LStripCons('1', "2", chars);
    LStripCons('_', "12", chars);
    LStripCons('1', "_12", chars);
    LStripCons('x', "1_12", chars);
    assert ['x'] + "1_12" == "x1_12" && ['1'] + "_12" == "1_12" && ['_'] + "12" == "_12" && ['1'] + "2" == "12";
  }

  lemma SuffixesOfX12()
    ensures SuffixValue("x1_2", "x1_") == Some(2) && SuffixValue("x1_12", "x1_") == Some(12)
  {
    assert "x1_2"[..3] == "x1_" && "x1_2"[3..] == "2";
    assert "x1_12"[..3] == "x1_" && "x1_12"[3..] == "12";
    PyIntOfDigits("2");
    PyIntOfDigits("12");
  }

  /**
   * The as-written sort loses a name: "x1_2" and "x1_12" share the prefix
   * "x1_", whose characters `lstrip` removes from "x1_12" up to the last '1',
   * so both names read as 2 and "x1_2" comes out twice.
   */
  lemma StateNameSortLosesName()
    ensures StateNameSortAsWritten(["x1_2", "x1_12"]) == ["x1_2", "x1_2"]
  {
    PrefixOfX12();
    LStripValuesOfX12();
    SortPair(2, 2, Identity);
    assert Numerals.IntToString(2) == "2";
    assert "x1_" + "2" == "x1_2";
  }

  lemma PyIntOfTwo()
    ensures PyInt("2") == Some(2)
  {
    PyIntOfDigits("2");
  }

  lemma LStripValuesCons(x: string, rest: seq<string>, chars: set<char>, v: int, vs: seq<int>)
    requires PyInt(LStripChars(x, chars)) == Some(v) && LStripValues(rest, chars) == Some(vs)
    ensures LStripValues([x] + rest, chars) == Some([v] + vs)
  {
    assert ([x] + rest)[1..] == rest;
  }

  lemma LStripValuesOfX12()
    ensures LStripValues(["x1_2", "x1_12"], CharSet("x1_")) == Some([2, 2])
  {
    var chars := {'x', '1', '_'};
    CharSetOfX1();
    LStripOfX12();
    LStripOfX112();
    PyIntOfTwo();
    LStripValuesCons("x1_12", [], chars, 2, []);
    assert ["x1_12"] + [] == ["x1_12"] && [2] + [] == [2];
    LStripValuesCons("x1_2", ["x1_12"], chars, 2, [2]);
    assert ["x1_2"] + ["x1_12"] == ["x1_2", "x1_12"];
    assert [2] + [2] == [2, 2];
  }

  /** The intended sort keeps both names, in the order of their numbers. */
  lemma StateNameSortKeepsNames()
    ensures StateNameSort(["x1_2", "x1_12"]) == ["x1_2", "x1_12"]
  {
    var s := ["x1_2", "x1_12"];
    PrefixOfX12();
    SuffixesOfX12();
    assert AllSuffixed(s, "x1_");
    var key := SuffixKey("x1_");
    assert key("x1_2") == 2 && key("x1_12") == 12;
    SortPair("x1_2", "x1_12", key);
  }

  // ---------------------------------------------------------------------
  // Variable lists
  // ---------------------------------------------------------------------

  /** `create_var_order_list(prefix, count, start)`: the names prefix+start, ..., prefix+(start+count-1). */
  function CreateVarOrderList(prefix: string, count: nat, start: int): (r: seq<string>)
  {
    seq(count, i => prefix + Numerals.IntToString(i + start))
  }

  lemma OrderListElement(prefix: string, count: nat, start: nat, i: nat)
    requires i < count
    ensures |CreateVarOrderList(prefix, count, start)| == count
    ensures CreateVarOrderList(prefix, count, start)[i] == prefix + Numerals.NatToString(i + start)
  {
    var r := CreateVarOrderList(prefix, count, start);
    assert r[i] == prefix + Numerals.IntToString(i + start);
    assert Numerals.IntToString(i + start) == Numerals.NatToString(i + start);
  }

  /** `get_var_prefix_from_list`: the prefix of the first name, "" for no names. */
  function VarPrefixFromList(vars: seq<string>): string
  {
    if vars == [] then "" else NamePrefix(vars[0])
  }

  /** `s[n:]` in Python: empty once n passes the end. */
  function Drop(s: string, n: nat): string
  {
    if n <= |s| then s[n..] else ""
  }

  /** The translation dictionary built name by name onto acc; None stands for the ValueError. */
  function TranslateFrom(vars: seq<string>, plen: nat, acc: map<string, int>): Option<map<string, int>>
  {
    if vars == [] then Some(acc)
    else match PyInt(Drop(vars[0], plen))
      case None => None
      case Some(v) => TranslateFrom(vars[1..], plen, acc[vars[0] := v])
  }

  /** `get_var_translate`: every name maps to the number after the first name's prefix. */
  function VarTranslate(vars: seq<string>): Option<map<string, int>>
  {
    TranslateFrom(vars, |VarPrefixFromList(vars)|, map[])
  }

  /** The translation of names that each read as their number gives exactly those numbers. */
  lemma {:induction false} TranslateFromValues(vars: seq<string>, plen: nat, acc: map<string, int>, vals: seq<int>)
    requires |vals| == |vars| && forall i :: 0 <= i < |vars| ==> PyInt(Drop(vars[i], plen)) == Some(vals[i])
    requires forall i, j :: 0 <= i < j < |vars| ==> vars[i] != vars[j]
    ensures TranslateFrom(vars, plen, acc).Some?
    ensures var m := TranslateFrom(vars, plen, acc).value;
      (forall k :: k in m <==> k in acc || k in vars)
      && (forall i :: 0 <= i < |vars| ==> m[vars[i]] == vals[i])
      && (forall k :: k in acc && k !in vars ==> m[k] == acc[k])
  {
    if vars != [] {
      assert PyInt(Drop(vars[0], plen)) == Some(vals[0]);
      var acc' := acc[vars[0] := vals[0]];
      TranslateFromValues(vars[1..], plen, acc', vals[1..]);
      var m := TranslateFrom(vars, plen, acc).value;
      assert vars == [vars[0]] + vars[1..];
      forall i | 0 <= i < |vars| ensures m[vars[i]] == vals[i] {
        if i > 0 {
          assert vars[1..][i - 1] == vars[i];
        } else {
          assert vars[0] !in vars[1..];
        }
      }
    }
  }

  /**
   * Generating a variable list and translating it back gives every variable
   * its number, provided the prefix does not itself end in a digit and the
   * numbers are not negative.
   */
  lemma VarTranslateOfOrderList(prefix: string, count: nat, start: nat)
    requires prefix == [] || !Numerals.IsDigit(prefix[|prefix| - 1])
    ensures var vars := CreateVarOrderList(prefix, count, start);
      var m := VarTranslate(vars);
      m.Some? && (forall k :: k in m.value <==> k in vars)
      && forall i :: 0 <= i < count ==> m.value[vars[i]] == i + start
  {
    var vars := CreateVarOrderList(prefix, count, start);
    OrderListReads(prefix, count, start);
    OrderListDistinct(prefix, count, start);
    assert count > 0 ==> VarPrefixFromList(vars) == prefix;
    TranslateNumbered(vars, |prefix|, start);
  }

  /** Names that read as consecutive numbers from start translate to exactly those numbers. */
  lemma TranslateNumbered(vars: seq<string>, plen: nat, start: int)
    requires forall i :: 0 <= i < |vars| ==> PyInt(Drop(vars[i], plen)) == Some(i + start)
    requires forall i, j :: 0 <= i < j < |vars| ==> vars[i] != vars[j]
    ensures var m := TranslateFrom(vars, plen, map[]);
      m.Some? && (forall k :: k in m.value <==> k in vars)
      && forall i :: 0 <= i < |vars| ==> m.value[vars[i]] == i + start
  {
    var vals := seq(|vars|, i => i + start);
    TranslateFromValues(vars, plen, map[], vals);
  }

  /** Each generated name has the prefix as its name prefix and reads back as its number. */
  lemma OrderListReads(prefix: string, count: nat, start: nat)
    requires prefix == [] || !Numerals.IsDigit(prefix[|prefix| - 1])
    ensures var vars := CreateVarOrderList(prefix, count, start);
      forall i :: 0 <= i < count ==>
        PyInt(Drop(vars[i], |prefix|)) == Some(i + start) && NamePrefix(vars[i]) == prefix
  {
    var vars := CreateVarOrderList(prefix, count, start);
    forall i | 0 <= i < count
      ensures PyInt(Drop(vars[i], |prefix|)) == Some(i + start)
      ensures NamePrefix(vars[i]) == prefix
    {
      var d := Numerals.NatToString(i + start);
      OrderListElement(prefix, count, start, i);
      assert vars[i][|prefix|..] == d;
      PyIntOfIntToString(i + start);
      NamePrefixOf(prefix, d);
    }
  }

  /** The generated names are pairwise distinct. */
  lemma OrderListDistinct(prefix: string, count: nat, start: nat)
    requires prefix == [] || !Numerals.IsDigit(prefix[|prefix| - 1])
    ensures var vars := CreateVarOrderList(prefix, count, start);
      forall i, j :: 0 <= i < j < count ==> vars[i] != vars[j]
  {
    var vars := CreateVarOrderList(prefix, count, start);
    OrderListReads(prefix, count, start);
    forall i, j | 0 <= i < j < count ensures vars[i] != vars[j] {
      assert PyInt(Drop(vars[i], |prefix|)) != PyInt(Drop(vars[j], |prefix|));
    }
  }

  // ---------------------------------------------------------------------
  // Name strings
  // ---------------------------------------------------------------------

  /** `create_string_from_name_set`: the sorted names between braces, comma separated. */
  function NameSetString(states: seq<string>): string
  {
    "{" + Join(StateNameSort(states), ",") + "}"
  }

  /** The names of a name-set string are those of the list, in sorted order. */
  lemma NameSetStringNames(states: seq<string>)
    requires states != [] && forall i :: 0 <= i < |states| ==> Avoids(states[i], ',')
    ensures var s := NameSetString(states);
      s[0] == '{' && s[|s| - 1] == '}'
      && SplitOn(s[1..|s| - 1], ',') == StateNameSort(states)
      && multiset(SplitOn(s[1..|s| - 1], ',')) == multiset(states)
  {
    var r := StateNameSort(states);
    forall i | 0 <= i < |r| ensures Avoids(r[i], ',') {
      assert r[i] in multiset(states);
    }
    SplitOnJoin(r, ',');
    var s := NameSetString(states);
    assert s[1..|s| - 1] == Join(r, ",");
  }

  /** `tuple_name((a, b))`. */
  function TupleName(a: string, b: string): string
  {
    "(" + a + "," + b + ")"
  }

  /** Index of the last c in s, if any. */
  function LastIndex(s: string, c: char): (r: Option<nat>)
    ensures r.None? <==> Avoids(s, c)
    ensures r.Some? ==> r.value < |s| && s[r.value] == c && Avoids(s[r.value + 1..], c)
  {
    if s == [] then None
    else if s[|s| - 1] == c then Some(|s| - 1)
    else
      var r := LastIndex(s[..|s| - 1], c);
      assert r.Some? ==> s[r.value + 1..] == s[..|s| - 1][r.value + 1..] + [s[|s| - 1]];
      r
  }

  /** The first line of s: everything before the first '\n'. */
  function FirstLine(s: string): (r: string)
    ensures |r| <= |s| && r == s[..|r|]
  {
    match Find(s, '\n') case None => s case Some(i) => s[..i]
  }

  /**
   * `get_first_name_from_tuple_str`: the regular expression `^\(.*,` matches
   * from an opening '(' at the start to the last ',' of the first line; the
   * name is what lies between them. None stands for the failed match (the
   * source then fails on `None.group`).
   */
  function FirstNameFromTupleString(s: string): (r: Option<string>)
  {
    var line := FirstLine(s);
    if line == [] || line[0] != '(' then None
    else match LastIndex(line, ',')
      case None => None
      case Some(q) => Some(line[1..q])
  }

  /** Where c first occurs in u + v when u has none: in v, shifted by |u|. */
  lemma {:induction false} FindShift(u: string, v: string, c: char)
    requires Avoids(u, c)
    ensures Find(u + v, c) == match Find(v, c) case None => None case Some(i) => Some(i + |u|)
    decreases |u|
  {
    if u != [] {
      assert (u + v)[1..] == u[1..] + v;
      FindShift(u[1..], v, c);
    } else {
      assert u + v == v;
    }
  }

  /** A first part without line breaks belongs to the first line. */
  lemma FirstLineShift(u: string, v: string)
    requires Avoids(u, '\n')
    ensures FirstLine(u + v) == u + FirstLine(v)
  {
    FindShift(u, v, '\n');
    match Find(v, '\n') {
      case None =>
      case Some(i) => assert (u + v)[..i + |u|] == u + v[..i];
    }
  }

  /** The last c of u + [c] + v, when v has none, is at |u|. */
  lemma {:induction false} LastIndexAt(u: string, v: string, c: char)
    requires Avoids(v, c)
    ensures LastIndex(u + [c] + v, c) == Some(|u|)
    decreases |v|
  {
    var s := u + [c] + v;
    if v != [] {
      assert s[|s| - 1] == v[|v| - 1];
      assert s[..|s| - 1] == u + [c] + v[..|v| - 1];
      LastIndexAt(u, v[..|v| - 1], c);
    }
  }

  /**
   * The first name comes back out of a tuple name whenever the first name has
   * no line break and the second has no comma.
   */
  lemma FirstNameOfTupleName(a: string, b: string)
    requires Avoids(a, '\n') && Avoids(b, ',')
    ensures FirstNameFromTupleString(TupleName(a, b)) == Some(a)
  {
    var l := TupleFirstLine(a, b);
    NameOfLine(a, l);
  }

  /** The first line of a tuple name: `(`, the first name, the comma and the first line of the rest. */
  lemma TupleFirstLine(a: string, b: string) returns (l: string)
    requires Avoids(a, '\n') && Avoids(b, ',')
    ensures FirstLine(TupleName(a, b)) == "(" + a + [','] + l && Avoids(l, ',')
  {
    var u := "(" + a;
    var tail := b + ")";
    assert TupleName(a, b) == (u + ",") + tail;
    FirstLineShift(u + ",", tail);
    l := FirstLine(tail);
    assert Avoids(l, ',') by {
      forall k | 0 <= k < |l| ensures l[k] != ',' {
        assert l[k] == tail[k];
      }
    }
  }

  /** A line `(a,l)` with no comma in l yields a. */
  lemma NameOfLine(a: string, l: string)
    requires Avoids(l, ',')
    ensures var line := "(" + a + [','] + l;
      line[0] == '(' && LastIndex(line, ',') == Some(|a| + 1) && line[1..|a| + 1] == a
  {
    LastIndexAt("(" + a, l, ',');
    assert "(" + a + [','] + l == "(" + a + ([','] + l);
    Seqs.MiddleOf("(", a, [','] + l);
  }

  /** A line break in the first name hides the separating comma from the match. */
  lemma FirstNameOfTupleNameWithNewline()
    ensures FirstNameFromTupleString(TupleName("p\nq", "r")) == None
  {
    var s := TupleName("p\nq", "r");
    assert s == "(p\nq,r)";
    assert s[2] == '\n' && s[0] != '\n' && s[1] != '\n';
    assert Find(s, '\n') == Some(2);
    assert FirstLine(s) == "(p";
    assert LastIndex("(p", ',') == None;
  }
}
