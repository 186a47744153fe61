/**
 * The VATA text format for tree automata. A file holds a preamble of
 * `%Root`, `%States` and `%Alphabet` lines and then one line per transition,
 * `src label <[box box] var> ( child child )`, where the part in angle
 * brackets is optional and `_` stands for a missing box. Each transition is
 * filed under the key `src-label-[c1,...,cn]`.
 */
module FormatVtf {
  import opened Optional
  import opened PyText
  import opened Transitions
  import Numerals
  import StringManipulation

  // ---------------------------------------------------------------------
  // Preamble lines
  // ---------------------------------------------------------------------

  /** The words of ws other than w, in order. */
  function Dropping(ws: seq<string>, w: string): (r: seq<string>)
    ensures |r| <= |ws|
    ensures forall i :: 0 <= i < |r| ==> r[i] != w && r[i] in ws
  {
    if ws == [] then [] else (if ws[0] == w then [] else [ws[0]]) + Dropping(ws[1..], w)
  }

  lemma {:induction false} DroppingAbsent(ws: seq<string>, w: string)
    requires forall i :: 0 <= i < |ws| ==> ws[i] != w
    ensures Dropping(ws, w) == ws
  {
    if ws != [] {
      DroppingAbsent(ws[1..], w);
    }
  }

  /** `load_roots_from_vtf`: the words of the line except the `%Root` marker. */
  function LoadRootsFromVtf(line: string): (r: seq<string>)
    ensures forall i :: 0 <= i < |r| ==> IsWord(r[i]) && r[i] != "%Root"
  {
    var ws := Split(Strip(line));
    var r := Dropping(ws, "%Root");
    assert forall i :: 0 <= i < |r| ==> r[i] in ws;
    r
  }

  /** `write_roots_vtf_str`. */
  function WriteRootsVtfStr(roots: seq<string>): string
  {
    "%Root" + Prefixed(roots, " ") + "\n"
  }

  /** The markers of the preamble are words, and line breaks are white space. */
  lemma Markers()
    ensures IsWord("%Root") && IsWord("%States") && IsWord("%Alphabet")
    ensures forall k :: 0 <= k < |"\n"| ==> IsSpace("\n"[k])
    ensures forall k :: 0 <= k < |"\n\n"| ==> IsSpace("\n\n"[k])
  {
  }

  /** A marker followed by blank-separated words, then line breaks, strips to the marker and the words. */
  lemma StripHeaded(head: string, ws: seq<string>, nl: string)
    requires IsWord(head) && forall i :: 0 <= i < |ws| ==> IsWord(ws[i])
    requires forall k :: 0 <= k < |nl| ==> IsSpace(nl[k])
    ensures Strip(head + Prefixed(ws, " ") + nl) == head + Prefixed(ws, " ")
    ensures Split(Strip(head + Prefixed(ws, " ") + nl)) == [head] + ws
  {
    var s := head + Prefixed(ws, " ");
    if ws != [] {
      PrefixedLast(ws, " ");
    }
    assert s[0] == head[0];
    StripTrailing(s, nl);
    SplitHeaded(head, ws);
  }

  /** Reading back the roots line gives the roots, for roots that are words other than the marker. */
  lemma RootsRoundTrip(roots: seq<string>)
    requires forall i :: 0 <= i < |roots| ==> IsWord(roots[i]) && roots[i] != "%Root"
    ensures LoadRootsFromVtf(WriteRootsVtfStr(roots)) == roots
  {
    Markers();
    StripHeaded("%Root", roots, "\n");
    DroppingAbsent(roots, "%Root");
  }

  /** The name part of a `name:n` word: what lies before the first colon, stripped. */
  function BeforeColon(w: string): string
  {
    Strip(SplitOn(w, ':')[0])
  }

  /** `load_states_from_vtf`: the words except `%States`, each without its `:n` suffix. */
  function LoadStatesFromVtf(line: string): (r: seq<string>)
    ensures |r| <= |Split(Strip(line))|
  {
    var ws := Dropping(Split(Strip(line)), "%States");
    seq(|ws|, i requires 0 <= i < |ws| => BeforeColon(ws[i]))
  }

  /** Each name followed by a suffix. */
  function Suffixed(ws: seq<string>, suffix: string): (r: seq<string>)
    ensures |r| == |ws|
  {
    seq(|ws|, i requires 0 <= i < |ws| => ws[i] + suffix)
  }

  /** `write_states_vtf_str`: every state written as `state:0`. */
  function WriteStatesVtfStr(states: seq<string>): string
  {
    "%States" + Prefixed(Suffixed(states, ":0"), " ") + "\n"
  }

  /** A state name without a colon comes back from `state:0`. */
  lemma BeforeColonOf(q: string, n: string)
    requires IsWord(q) && Avoids(q, ':') && Avoids(n, ':')
    ensures BeforeColon(q + ":" + n) == q
  {
    SplitOnPair(q, n, ':');
    StripPlain(q);
  }

  /** Reading back the states line gives the states, for words without a colon. */
  lemma StatesRoundTrip(states: seq<string>)
    requires forall i :: 0 <= i < |states| ==> IsWord(states[i]) && Avoids(states[i], ':')
    ensures LoadStatesFromVtf(WriteStatesVtfStr(states)) == states
  {
    var ws := Suffixed(states, ":0");
    var line := WriteStatesVtfStr(states);
    SuffixedWords(states);
    Markers();
    StripHeaded("%States", ws, "\n");
    LoadStatesOf(line, ws);
    forall i | 0 <= i < |states|
      ensures BeforeColon(ws[i]) == states[i]
    {
      assert ws[i] == states[i] + ":" + "0";
      BeforeColonOf(states[i], "0");
    }
  }

  lemma LoadStatesOf(line: string, ws: seq<string>)
    requires Split(Strip(line)) == ["%States"] + ws
    requires forall i :: 0 <= i < |ws| ==> ws[i] != "%States"
    ensures LoadStatesFromVtf(line) == seq(|ws|, i requires 0 <= i < |ws| => BeforeColon(ws[i]))
  {
    DroppingHead("%States", ws);
  }

  lemma SuffixedWords(states: seq<string>)
    requires forall i :: 0 <= i < |states| ==> IsWord(states[i])
    ensures var ws := Suffixed(states, ":0"); forall i :: 0 <= i < |ws| ==> IsWord(ws[i]) && ws[i] != "%States"
  {
    var ws := Suffixed(states, ":0");
    forall i | 0 <= i < |ws|
      ensures IsWord(ws[i]) && ws[i] != "%States"
    {
      var w := ws[i];
      assert w == states[i] + ":0";
      assert w[|w| - 1] == '0';
      assert NoSpace(w) by {
        forall k | 0 <= k < |w| ensures !IsSpace(w[k]) {
          if k < |states[i]| {
            assert w[k] == states[i][k];
          }
        }
      }
    }
  }

  /** Dropping a marker from the marker followed by words without it leaves the words. */
  lemma DroppingHead(head: string, ws: seq<string>)
    requires forall i :: 0 <= i < |ws| ==> ws[i] != head
    ensures Dropping([head] + ws, head) == ws
  {
    assert ([head] + ws)[1..] == ws;
    DroppingAbsent(ws, head);
  }

  /**
   * One `symbol:arity` word of an alphabet line: the symbol is what lies
   * before the first colon, the arity what lies after it up to the next;
   * None stands for the IndexError of a word without a colon and for the
   * ValueError of an arity that is no integer.
   */
  function ArityEntry(w: string): Option<(string, int)>
  {
    var items := SplitOn(w, ':');
    if |items| < 2 then None
    else match PyInt(Strip(items[1]))
      case None => None
      case Some(a) => Some((Strip(items[0]), a))
  }

  /**
   * The arity dictionary the words add to acc, word by word, a later entry
   * for a symbol replacing an earlier one; with skipHeader, words starting
   * with `%Alphabet` are passed over.
   */
  function AritiesFrom(acc: map<string, int>, ws: seq<string>, skipHeader: bool): Option<map<string, int>>
    decreases |ws|
  {
    if ws == [] then Some(acc)
    else if skipHeader && StartsWith(ws[0], "%Alphabet") then AritiesFrom(acc, ws[1..], skipHeader)
    else match ArityEntry(ws[0])
      case None => None
      case Some(e) => AritiesFrom(acc[e.0 := e.1], ws[1..], skipHeader)
  }

  /** `load_arity_from_vtf`. */
  method LoadArityFromVtf(line: string) returns (r: Option<map<string, int>>)
    ensures r == AritiesFrom(map[], Split(Strip(line)), true)
  {
    var words := Split(Strip(line));
    var result: map<string, int> := map[];
    var i := 0;
    while i < |words|
      invariant 0 <= i <= |words|
      invariant AritiesFrom(result, words[i..], true) == AritiesFrom(map[], words, true)
    {
      assert words[i..][1..] == words[i + 1..];
      if StartsWith(words[i], "%Alphabet") {
        i := i + 1;
        continue;
      }
      var items := SplitOn(words[i], ':');
      if |items| < 2 {
        return None;
      }
      var arity := PyInt(Strip(items[1]));
      if arity.None? {
        return None;
      }
      result := result[Strip(items[0]) := arity.value];
      i := i + 1;
    }
    return Some(result);
  }

  /** The dictionary that inserting the pairs in order builds. */
  function MapOf(acc: map<string, int>, pairs: seq<(string, int)>): map<string, int>
    decreases |pairs|
  {
    if pairs == [] then acc else MapOf(acc[pairs[0].0 := pairs[0].1], pairs[1..])
  }

  /** The `symbol:arity` words of an alphabet line. */
  function ArityWords(pairs: seq<(string, int)>): (r: seq<string>)
    ensures |r| == |pairs|
  {
    seq(|pairs|, i requires 0 <= i < |pairs| => pairs[i].0 + ":" + Numerals.IntToString(pairs[i].1))
  }

  /** `write_arities_vtf_str`, the dictionary given by its items in order. */
  function WriteAritiesVtfStr(pairs: seq<(string, int)>): string
  {
    "%Alphabet" + Prefixed(ArityWords(pairs), " ") + "\n\n"
  }

  /** A symbol an alphabet line can carry. */
  predicate SymbolName(s: string)
  {
    IsWord(s) && Avoids(s, ':') && !StartsWith(s, "%Alphabet")
  }

  /** A written integer has no colon and no white space. */
  lemma IntToStringPlain(a: int)
    ensures var t := Numerals.IntToString(a); t != [] && NoSpace(t) && Avoids(t, ':') && !IsSpace(t[0]) && !IsSpace(t[|t| - 1])
  {
    var d := Numerals.NatToString(if a < 0 then -a else a);
    assert forall k :: 0 <= k < |d| ==> Numerals.IsDigit(d[k]);
  }

  /** The entry word `symbol:arity` reads back as the pair. */
  lemma ArityEntryOf(s: string, a: int)
    requires SymbolName(s)
    ensures ArityEntry(s + ":" + Numerals.IntToString(a)) == Some((s, a))
  {
    var t := Numerals.IntToString(a);
    IntToStringPlain(a);
    SplitOnPair(s, t, ':');
    StripPlain(t);
    StripPlain(s);
    PyIntOfIntToString(a);
  }

  lemma {:induction false} AritiesFromWords(acc: map<string, int>, pairs: seq<(string, int)>, skipHeader: bool)
    requires forall i :: 0 <= i < |pairs| ==> SymbolName(pairs[i].0)
    ensures AritiesFrom(acc, ArityWords(pairs), skipHeader) == Some(MapOf(acc, pairs))
    decreases |pairs|
  {
    var ws := ArityWords(pairs);
    if pairs != [] {
      var s, a := pairs[0].0, pairs[0].1;
      var w := s + ":" + Numerals.IntToString(a);
      assert ws == [w] + ArityWords(pairs[1..]);
      ArityEntryOf(s, a);
      NotHeader(s, Numerals.IntToString(a));
      AritiesFromCons(acc, w, ArityWords(pairs[1..]), skipHeader, (s, a));
      AritiesFromWords(acc[s := a], pairs[1..], skipHeader);
    }
  }

  lemma AritiesFromCons(acc: map<string, int>, w: string, ws: seq<string>, skipHeader: bool, e: (string, int))
    requires ArityEntry(w) == Some(e) && !StartsWith(w, "%Alphabet")
    ensures AritiesFrom(acc, [w] + ws, skipHeader) == AritiesFrom(acc[e.0 := e.1], ws, skipHeader)
  {
    assert ([w] + ws)[0] == w && ([w] + ws)[1..] == ws;
  }

  /** An entry word starts with the header only if its symbol does. */
  lemma NotHeader(s: string, t: string)
    requires Avoids(s, ':') && !StartsWith(s, "%Alphabet")
    ensures !StartsWith(s + ":" + t, "%Alphabet")
  {
    var w := s + ":" + t;
    if |w| >= 9 {
      if |s| >= 9 {
        assert w[..9] == s[..9];
      } else {
        assert w[..9][|s|] == ':';
        assert "%Alphabet"[|s|] != ':';
      }
    }
  }

  /** Reading back the alphabet line gives the dictionary of the written items. */
  lemma AritiesRoundTrip(pairs: seq<(string, int)>)
    requires forall i :: 0 <= i < |pairs| ==> SymbolName(pairs[i].0)
    ensures AritiesFrom(map[], Split(Strip(WriteAritiesVtfStr(pairs))), true) == Some(MapOf(map[], pairs))
  {
    var ws := ArityWords(pairs);
    var line := WriteAritiesVtfStr(pairs);
    ArityWordsAreWords(pairs);
    HeaderLine(line, ws);
    AritiesFromWords(map[], pairs, true);
  }

  lemma HeaderLine(line: string, ws: seq<string>)
    requires line == "%Alphabet" + Prefixed(ws, " ") + "\n\n"
    requires forall i :: 0 <= i < |ws| ==> IsWord(ws[i])
    ensures AritiesFrom(map[], Split(Strip(line)), true) == AritiesFrom(map[], ws, true)
  {
    Markers();
    StripHeaded("%Alphabet", ws, "\n\n");
    HeaderSkipped(ws);
  }

  lemma ArityWordsAreWords(pairs: seq<(string, int)>)
    requires forall i :: 0 <= i < |pairs| ==> SymbolName(pairs[i].0)
    ensures forall i :: 0 <= i < |pairs| ==> IsWord(ArityWords(pairs)[i])
  {
    forall i | 0 <= i < |pairs|
      ensures IsWord(ArityWords(pairs)[i])
    {
      var s, t := pairs[i].0, Numerals.IntToString(pairs[i].1);
      IntToStringPlain(pairs[i].1);
      var w := s + ":" + t;
      assert ArityWords(pairs)[i] == w;
      forall k | 0 <= k < |w| ensures !IsSpace(w[k]) {
        if k < |s| {
          assert w[k] == s[k];
        } else if k > |s| {
          assert w[k] == t[k - |s| - 1];
        }
      }
    }
  }

  /** The header word is passed over. */
  lemma HeaderSkipped(ws: seq<string>)
    ensures AritiesFrom(map[], ["%Alphabet"] + ws, true) == AritiesFrom(map[], ws, true)
  {
    var l := ["%Alphabet"] + ws;
    assert StartsWith(l[0], "%Alphabet");
    assert l[1..] == ws;
  }

  // ---------------------------------------------------------------------
  // Transition lines
  // ---------------------------------------------------------------------

  /** Number of leading words that do not start with '(': the edge information. */
  function EdgeInfoLength(ws: seq<string>): (n: nat)
    ensures n <= |ws|
    ensures forall i :: 0 <= i < n ==> !StartsWith(ws[i], "(")
    ensures n < |ws| ==> StartsWith(ws[n], "(")
  {
    if ws == [] || StartsWith(ws[0], "(") then 0 else 1 + EdgeInfoLength(ws[1..])
  }

  /**
   * The span the regular expression `\[.*\]` matches: from the first '[' to
   * the last ']' after it (the text is one line, so `.` matches anything).
   */
  function BracketSpan(s: string): (r: Option<(nat, nat)>)
    ensures r.Some? ==> r.value.0 < r.value.1 < |s| && s[r.value.0] == '[' && s[r.value.1] == ']'
  {
    match Find(s, '[')
    case None => None
    case Some(i) =>
      match StringManipulation.LastIndex(s, ']')
      case None => None
      case Some(j) => if i < j then Some((i, j)) else None
  }

  /** A box name read from a box array; `_` is the missing box. */
  function BoxOption(w: string): Option<string>
  {
    if w == "_" then None else Some(w)
  }

  /**
   * `process_edge` on the joined edge words: strip the angle brackets and
   * blanks, take the bracketed span as the box array and the rest as the
   * variable. Removing the span stands for `replace(span, "")`: the span runs
   * from the first '[' to the last ']', so no other occurrence of it can
   * follow.
   */
  function ProcessEdgeText(s: string): (r: (seq<Option<string>>, string))
    ensures forall k :: 0 <= k < |r.0| ==> r.0[k] != Some("_")
  {
    var t := RTrim(RStripChars(LTrim(LStripChars(s, {'<'})), {'>'}));
    match BracketSpan(t)
    case None => ([], t)
    case Some((i, j)) =>
      var inner := RStripChars(LStripChars(t[i..j + 1], {'['}), {']'});
      var names := Split(Strip(inner));
      (seq(|names|, k requires 0 <= k < |names| => BoxOption(names[k])), Strip(t[..i] + t[j + 1..]))
  }

  /** `process_edge`: the box array and the variable of the edge words; nothing for no words. */
  function ProcessEdge(info: seq<string>): (r: (seq<Option<string>>, string))
    ensures info == [] ==> r == ([], "")
    ensures forall k :: 0 <= k < |r.0| ==> r.0[k] != Some("_")
  {
    if info == [] then ([], "") else ProcessEdgeText(Join(info, " "))
  }

  /** What a transition line holds: nothing, a transition, or too few words (an IndexError). */
  datatype Loaded = Blank | Parsed(t: Transition) | Malformed

  /**
   * `load_transition_from_vtf`: the source and the symbol are the first two
   * words, the edge information runs up to the first word starting with
   * '(', and the children are the words inside the parentheses. An LH
   * transition without boxes gets two missing boxes.
   */
  function LoadTransitionFromVtf(line: string): (r: Loaded)
    ensures r.Blank? <==> Strip(line) == []
    ensures r.Parsed? ==> IsWord(r.t.src) && IsWord(r.t.info.symbol)
    ensures r.Parsed? && r.t.info.symbol == "LH" ==> r.t.info.boxArray != []
  {
    var l := Strip(line);
    if l == [] then Blank
    else
      var words := Split(l);
      if |words| < 2 then Malformed
      else
        var rest := words[2..];
        var n := EdgeInfoLength(rest);
        var edge := ProcessEdge(rest[..n]);
        var tail := RStripChars(LStripChars(RTrim(Join(rest[n..], " ")), {'('}), {')'});
        var boxes := if edge.0 == [] && words[1] == "LH" then [None, None] else edge.0;
        Parsed(Transition(words[0], Edge(words[1], boxes, edge.1), Split(tail)))
  }

  /** How a box is written: its name, or `_` when it is missing. */
  function BoxName(b: Option<string>): string
  {
    match b
    case None => "_"
    case Some(n) => n
  }

  function BoxNames(bs: seq<Option<string>>): (r: seq<string>)
    ensures |r| == |bs|
  {
    seq(|bs|, i requires 0 <= i < |bs| => BoxName(bs[i]))
  }

  /** Some box is present. */
  predicate HasBox(bs: seq<Option<string>>)
  {
    exists i :: 0 <= i < |bs| && bs[i].Some?
  }

  /**
   * The edge part of a written transition line: `<[b1 b2] var> ` with the
   * bracket only when some box is present, and nothing when there are no
   * boxes and no variable.
   */
  function EdgeString(e: Edge): string
  {
    var boxStr := if HasBox(e.boxArray) then "[" + Join(BoxNames(e.boxArray), " ") + "]" else "";
    if e.boxArray != [] || e.variable != "" then "<" + boxStr + (if boxStr != "" then " " else "") + e.variable + "> "
    else ""
  }

  /** One line of `write_edges_vtf_file`. */
  function WriteEdgeLine(t: Transition): string
  {
    t.src + " " + t.info.symbol + " " + EdgeString(t.info) + "(" + Prefixed(t.children, " ") + " )\n"
  }

  /** One line of `write_edges_vtf_str`, which writes neither boxes nor variables. */
  function WriteEdgeStrLine(t: Transition): string
  {
    t.src + " " + t.info.symbol + " (" + Prefixed(t.children, " ") + " )\n"
  }

  function EdgeLines(es: seq<Transition>): string
  {
    if es == [] then "" else WriteEdgeStrLine(es[0]) + EdgeLines(es[1..])
  }

  /** `write_edges_vtf_str`, the transitions given in dictionary order. */
  function WriteEdgesVtfStr(es: seq<Transition>): string
  {
    "# Transitions\n\n" + EdgeLines(es)
  }

  /** The string writer's line is the file writer's line of the transition without boxes and variable. */
  lemma StrLineIsBare(t: Transition)
    ensures WriteEdgeStrLine(t) == WriteEdgeLine(t.(info := Edge(t.info.symbol, [], "")))
  {
  }

  /** A string without brackets, angle brackets or parentheses. */
  predicate Bracketless(w: string)
  {
    forall k :: 0 <= k < |w| ==> w[k] !in {'[', ']', '<', '>', '(', ')'}
  }

  /** Present boxes are words without brackets, other than `_`. */
  predicate BoxesPlain(bs: seq<Option<string>>)
  {
    forall i :: 0 <= i < |bs| && bs[i].Some? ==> IsWord(bs[i].value) && Bracketless(bs[i].value) && bs[i].value != "_"
  }

  /** A transition the line format can carry: words, plain boxes, and a variable without blanks or brackets. */
  predicate Writable(t: Transition)
  {
    && IsWord(t.src) && IsWord(t.info.symbol)
    && (forall i :: 0 <= i < |t.children| ==> IsWord(t.children[i]))
    && BoxesPlain(t.info.boxArray) && NoSpace(t.info.variable) && Bracketless(t.info.variable)
  }

  /** The transition a written line reads back as: missing boxes alone are not written, and an LH transition gets two again. */
  function Reloaded(t: Transition): Transition
  {
    var bs := t.info.boxArray;
    t.(info := t.info.(boxArray := if HasBox(bs) then bs else if t.info.symbol == "LH" then [None, None] else []))
  }

  /** Reading back a written transition line gives the transition, up to boxes that are all missing. */
  lemma TransitionRoundTrip(t: Transition)
    requires Writable(t)
    ensures LoadTransitionFromVtf(WriteEdgeLine(t)) == Parsed(Reloaded(t))
  {
    var e := t.info;
    var ew := EdgeWords(e);
    EdgeWordsShape(e);
    var tail := ["("] + t.children + [")"];
    LineWords(t, ew, tail);
    ProcessEdgeWords(e);
    ChildrenPart(t.children);
    LoadOfWords(WriteEdgeLine(t), t.src, e.symbol, ew, tail);
  }

  /** A transition whose boxes include a present one reads back exactly. */
  lemma BoxedRoundTrip(t: Transition)
    requires Writable(t) && HasBox(t.info.boxArray)
    ensures LoadTransitionFromVtf(WriteEdgeLine(t)) == Parsed(t)
  {
    TransitionRoundTrip(t);
  }

  /** A transition of a plain tree automaton (no boxes, no variable) reads back from the string writer's line. */
  lemma StrLineRoundTrip(t: Transition)
    requires IsWord(t.src) && IsWord(t.info.symbol) && t.info.symbol != "LH"
    requires forall i :: 0 <= i < |t.children| ==> IsWord(t.children[i])
    requires t.info.boxArray == [] && t.info.variable == ""
    ensures LoadTransitionFromVtf(WriteEdgeStrLine(t)) == Parsed(t)
  {
    StrLineIsBare(t);
    assert t.(info := Edge(t.info.symbol, [], "")) == t;
    TransitionRoundTrip(t);
  }

  /** How a line whose words are known loads. */
  lemma LoadOfWords(line: string, src: string, sym: string, ew: seq<string>, tail: seq<string>)
    requires Strip(line) != [] && Split(Strip(line)) == [src, sym] + ew + tail
    requires forall i :: 0 <= i < |ew| ==> !StartsWith(ew[i], "(")
    requires tail != [] && StartsWith(tail[0], "(")
    ensures var edge := ProcessEdge(ew);
      LoadTransitionFromVtf(line)
        == Parsed(Transition(src, Edge(sym, if edge.0 == [] && sym == "LH" then [None, None] else edge.0, edge.1),
                             Split(RStripChars(LStripChars(RTrim(Join(tail, " ")), {'('}), {')'}))))
  {
    var words := [src, sym] + ew + tail;
    assert words[2..] == ew + tail;
    EdgeInfoLengthConcat(ew, tail);
    assert (ew + tail)[..|ew|] == ew && (ew + tail)[|ew|..] == tail;
  }

  /** ws with p before its first word and q after its last. */
  function Wrap(ws: seq<string>, p: string, q: string): (r: seq<string>)
    requires ws != []
    ensures |r| == |ws|
  {
    if |ws| == 1 then [p + ws[0] + q] else [p + ws[0]] + ws[1..|ws| - 1] + [ws[|ws| - 1] + q]
  }

  lemma WrapJoin(ws: seq<string>, p: string, q: string)
    requires ws != []
    ensures Join(Wrap(ws, p, q), " ") == p + Join(ws, " ") + q
  {
    if |ws| > 1 {
      var first := [ws[0]] + ws[1..|ws| - 1];
      var last := ws[|ws| - 1];
      assert ws == first + [last];
      JoinSnoc(first, last, " ");
      var pfirst := [p + ws[0]] + ws[1..|ws| - 1];
      assert Wrap(ws, p, q) == pfirst + [last + q];
      JoinSnoc(pfirst, last + q, " ");
      assert pfirst[1..] == first[1..];
      var rest := Prefixed(first[1..], " ");
      assert Join(first, " ") == ws[0] + rest;
      assert Join(pfirst, " ") == p + ws[0] + rest;
      WrapShape(p, ws[0], rest, last, q);
    }
  }

  lemma WrapShape(p: string, a: string, rest: string, last: string, q: string)
    ensures p + a + rest + " " + (last + q) == p + (a + rest + " " + last) + q
  {
  }

  /** The words the edge part of a line splits into. */
  function EdgeWords(e: Edge): seq<string>
  {
    if HasBox(e.boxArray) then Wrap(BoxNames(e.boxArray), "<[", "]") + [e.variable + ">"]
    else if e.boxArray != [] || e.variable != "" then ["<" + e.variable + ">"]
    else []
  }

  lemma EdgeWordsShape(e: Edge)
    requires BoxesPlain(e.boxArray) && NoSpace(e.variable) && Bracketless(e.variable)
    ensures var ew := EdgeWords(e);
      && (ew == [] ==> EdgeString(e) == "")
      && (ew != [] ==> EdgeString(e) == Join(ew, " ") + " ")
      && (forall i :: 0 <= i < |ew| ==> IsWord(ew[i]) && !StartsWith(ew[i], "("))
  {
    if HasBox(e.boxArray) {
      var names := BoxNames(e.boxArray);
      BoxNamesPlain(e.boxArray);
      BoxedEdgeWords(names, e.variable);
      assert EdgeString(e) == "<" + ("[" + Join(names, " ") + "]") + " " + e.variable + "> ";
      BoxedShape(Join(names, " "), e.variable);
    } else if e.boxArray != [] || e.variable != "" {
      UnboxedEdgeWord(e.variable);
    }
  }

  /** The boxed edge string is the joined words and a blank. */
  lemma BoxedShape(j: string, v: string)
    ensures "<" + ("[" + j + "]") + " " + v + "> " == "<[" + j + "]" + " " + v + ">" + " "
  {
  }

  /** The box names are words without brackets. */
  lemma BoxNamesPlain(bs: seq<Option<string>>)
    requires BoxesPlain(bs)
    ensures forall i :: 0 <= i < |bs| ==> IsWord(BoxNames(bs)[i]) && Bracketless(BoxNames(bs)[i])
  {
  }

  /** A word of the form `<var>`. */
  lemma UnboxedEdgeWord(v: string)
    requires NoSpace(v) && Bracketless(v)
    ensures IsWord("<" + v + ">") && !StartsWith("<" + v + ">", "(")
    ensures Join(["<" + v + ">"], " ") == "<" + v + ">"
  {
    Glued("<", v);
    Glued("<" + v, ">");
    assert ("<" + v + ">")[0] == '<';
  }

  /** The words of `<[names] var>`. */
  lemma BoxedEdgeWords(names: seq<string>, v: string)
    requires names != [] && forall i :: 0 <= i < |names| ==> IsWord(names[i]) && Bracketless(names[i])
    requires NoSpace(v) && Bracketless(v)
    ensures var ew := Wrap(names, "<[", "]") + [v + ">"];
      && Join(ew, " ") == "<[" + Join(names, " ") + "]" + " " + v + ">"
      && forall i :: 0 <= i < |ew| ==> IsWord(ew[i]) && !StartsWith(ew[i], "(")
  {
    var w := Wrap(names, "<[", "]");
    WrapJoin(names, "<[", "]");
    JoinSnoc(w, v + ">", " ");
    WrapWords(names, "<[", "]");
    Glued(v, ">");
    assert v != [] ==> (v + ">")[0] == v[0];
  }

  lemma WrapWords(ws: seq<string>, p: string, q: string)
    requires ws != [] && forall i :: 0 <= i < |ws| ==> IsWord(ws[i]) && Bracketless(ws[i])
    requires NoSpace(p) && NoSpace(q) && p != [] && p[0] != '('
    ensures forall i :: 0 <= i < |Wrap(ws, p, q)| ==> IsWord(Wrap(ws, p, q)[i]) && !StartsWith(Wrap(ws, p, q)[i], "(")
  {
    var w := Wrap(ws, p, q);
    forall i | 0 <= i < |w|
      ensures IsWord(w[i]) && !StartsWith(w[i], "(")
    {
      var x := ws[i];
      assert x[0] != '(';
      if i == 0 && |ws| == 1 {
        Glued(p, x);
        Glued(p + x, q);
        assert w[i] == p + x + q;
      } else if i == 0 {
        Glued(p, x);
        assert w[i] == p + x;
      } else if i == |ws| - 1 {
        Glued(x, q);
        assert w[i] == x + q && w[i][0] == x[0];
      } else {
        assert w[i] == x;
      }
      assert w[i][0] != '(';
    }
  }

  lemma {:induction false} EdgeInfoLengthConcat(xs: seq<string>, ys: seq<string>)
    requires forall i :: 0 <= i < |xs| ==> !StartsWith(xs[i], "(")
    requires ys != [] && StartsWith(ys[0], "(")
    ensures EdgeInfoLength(xs + ys) == |xs|
  {
    if xs == [] {
      assert xs + ys == ys;
    } else {
      assert (xs + ys)[1..] == xs[1..] + ys;
      EdgeInfoLengthConcat(xs[1..], ys);
    }
  }

  /** The written line strips and splits into its words. */
  lemma LineWords(t: Transition, ew: seq<string>, tail: seq<string>)
    requires IsWord(t.src) && IsWord(t.info.symbol)
    requires forall i :: 0 <= i < |t.children| ==> IsWord(t.children[i])
    requires forall i :: 0 <= i < |ew| ==> IsWord(ew[i])
    requires ew == [] ==> EdgeString(t.info) == ""
    requires ew != [] ==> EdgeString(t.info) == Join(ew, " ") + " "
    requires tail == ["("] + t.children + [")"]
    ensures Strip(WriteEdgeLine(t)) != [] && Split(Strip(WriteEdgeLine(t))) == [t.src, t.info.symbol] + ew + tail
  {
    var rest := [t.info.symbol] + ew + tail;
    var all := [t.src] + rest;
    assert all == [t.src, t.info.symbol] + ew + tail;
    LineJoin(t, ew, tail);
    forall i | 0 <= i < |rest|
      ensures IsWord(rest[i])
    {
      if 1 + |ew| < i < |rest| - 1 {
        assert rest[i] == t.children[i - 2 - |ew|];
      }
    }
    PrefixedLast(rest, " ");
    StripHeaded(t.src, rest, "\n") by {
      Markers();
    }
  }

  /** The written line is its words joined by blanks, then a line break. */
  lemma LineJoin(t: Transition, ew: seq<string>, tail: seq<string>)
    requires ew == [] ==> EdgeString(t.info) == ""
    requires ew != [] ==> EdgeString(t.info) == Join(ew, " ") + " "
    requires tail == ["("] + t.children + [")"]
    ensures WriteEdgeLine(t) == t.src + Prefixed([t.info.symbol] + ew + tail, " ") + "\n"
  {
    var sym := t.info.symbol;
    var pe := Prefixed(ew, " ");
    var pt := Prefixed(tail, " ");
    var p := Prefixed(t.children, " ");
    EdgePart(EdgeString(t.info), ew);
    TailPrefixed(t.children);
    PrefixedConcat([sym] + ew, tail, " ");
    assert ([sym] + ew)[1..] == ew;
    assert Prefixed([sym] + ew, " ") == " " + sym + pe;
    Regroup(t.src, sym, EdgeString(t.info), pe, p);
  }

  lemma Regroup(src: string, sym: string, es: string, pe: string, p: string)
    requires " " + es == pe + " "
    ensures src + " " + sym + " " + es + "(" + p + " )\n" == src + (" " + sym + pe + (" (" + p + " )")) + "\n"
  {
    calc {
      src + " " + sym + " " + es + "(" + p + " )\n";
      src + " " + sym + (" " + es) + "(" + p + " )\n";
      src + " " + sym + (pe + " ") + "(" + p + " )\n";
      src + (" " + sym + pe + (" (" + p + " )")) + "\n";
    }
  }

  /** The edge part after a blank is its words, each after a blank, then a blank. */
  lemma EdgePart(x: string, ew: seq<string>)
    requires ew == [] ==> x == ""
    requires ew != [] ==> x == Join(ew, " ") + " "
    ensures " " + x == Prefixed(ew, " ") + " "
  {
    if ew != [] {
      var rest := Prefixed(ew[1..], " ");
      assert x == ew[0] + rest + " ";
      assert Prefixed(ew, " ") == " " + ew[0] + rest;
      BlankShape(ew[0], rest);
    }
  }

  lemma BlankShape(a: string, rest: string)
    ensures " " + (a + rest + " ") == " " + a + rest + " "
  {
  }

  lemma TailPrefixed(cs: seq<string>)
    ensures Prefixed(["("] + cs + [")"], " ") == " (" + Prefixed(cs, " ") + " )"
  {
    assert ["("] + cs + [")"] == ["("] + (cs + [")"]);
    PrefixedConcat(cs, [")"], " ");
  }

  /** The parenthesised children part reads back as the children. */
  lemma ChildrenPart(cs: seq<string>)
    requires forall i :: 0 <= i < |cs| ==> IsWord(cs[i])
    ensures Split(RStripChars(LStripChars(RTrim(Join(["("] + cs + [")"], " ")), {'('}), {')'})) == cs
  {
    JoinParens(cs);
    ParensStripped(Prefixed(cs, " "));
    SplitSpacedThen(cs, " ");
  }

  lemma JoinParens(cs: seq<string>)
    ensures Join(["("] + cs + [")"], " ") == "(" + Prefixed(cs, " ") + " )"
  {
    assert (["("] + cs + [")"])[1..] == cs + [")"];
    PrefixedConcat(cs, [")"], " ");
  }

  /** Stripping `(` and `)` from `(p )` leaves `p `. */
  lemma ParensStripped(p: string)
    requires p == [] || p[0] == ' '
    ensures RStripChars(LStripChars(RTrim("(" + p + " )"), {'('}), {')'}) == p + " "
  {
    var j := "(" + p + " )";
    assert RTrim(j) == j;
    ParensLeft(p);
    ParensRight(p);
  }

  lemma ParensLeft(p: string)
    requires p == [] || p[0] == ' '
    ensures LStripChars("(" + p + " )", {'('}) == p + " )"
  {
    var j := "(" + p + " )";
    var k := p + " )";
    assert j[1..] == k;
    assert k[0] == ' ';
  }

  lemma ParensRight(p: string)
    ensures RStripChars(p + " )", {')'}) == p + " "
  {
    var k := p + " )";
    assert k[..|k| - 1] == p + " ";
  }

  /** Processing the edge words gives the boxes (when some is present) and the variable. */
  lemma ProcessEdgeWords(e: Edge)
    requires BoxesPlain(e.boxArray) && NoSpace(e.variable) && Bracketless(e.variable)
    ensures ProcessEdge(EdgeWords(e)) == (if HasBox(e.boxArray) then e.boxArray else [], e.variable)
  {
    if HasBox(e.boxArray) {
      var names := BoxNames(e.boxArray);
      BoxNamesPlain(e.boxArray);
      BoxedEdgeWords(names, e.variable);
      ProcessBoxed(names, e.variable);
      BoxOptionsOfNames(e.boxArray);
    } else if e.boxArray != [] || e.variable != "" {
      UnboxedEdgeWord(e.variable);
      ProcessUnboxed(e.variable);
    }
  }

  lemma BoxOptionsOfNames(bs: seq<Option<string>>)
    requires BoxesPlain(bs)
    ensures var names := BoxNames(bs); seq(|names|, k requires 0 <= k < |names| => BoxOption(names[k])) == bs
  {
  }

  /** `process_edge` on `<[names] var>`. */
  lemma ProcessBoxed(names: seq<string>, v: string)
    requires names != [] && forall i :: 0 <= i < |names| ==> IsWord(names[i]) && Bracketless(names[i])
    requires NoSpace(v) && Bracketless(v)
    ensures ProcessEdgeText("<[" + Join(names, " ") + "]" + " " + v + ">")
              == (seq(|names|, k requires 0 <= k < |names| => BoxOption(names[k])), v)
  {
    var jn := Join(names, " ");
    JoinEnds(names);
    var tv := if v == "" then "" else " " + v;
    AnglesStripped(jn, v, tv);
    assert Avoids(tv, ']') by {
      assert forall k :: 0 <= k < |tv| ==> tv[k] == ' ' || tv[k] == v[k - 1];
    }
    ProcessBracketed("<[" + jn + "]" + " " + v + ">", jn, tv);
    SplitJoin(names);
    VariableOf(v, tv);
  }

  /** `process_edge` on a text that trims to `[jn]` and a bracket-free rest: the words of jn and the stripped rest. */
  lemma ProcessBracketed(s: string, jn: string, tv: string)
    requires RTrim(RStripChars(LTrim(LStripChars(s, {'<'})), {'>'})) == "[" + jn + "]" + tv
    requires Avoids(tv, ']')
    requires jn != [] && !IsSpace(jn[0]) && !IsSpace(jn[|jn| - 1]) && jn[0] != '[' && jn[|jn| - 1] != ']'
    ensures var names := Split(jn);
      ProcessEdgeText(s) == (seq(|names|, k requires 0 <= k < |names| => BoxOption(names[k])), Strip(tv))
  {
    var t := "[" + jn + "]" + tv;
    BracketSpanOf(jn, tv);
    assert t[0..|jn| + 2] == "[" + jn + "]";
    assert t[..0] + t[|jn| + 2..] == tv;
    InnerOf(jn);
    StripPlain(jn);
  }

  /** Stripping `<`, blanks and `>` from `<[jn] var>` leaves `[jn]` and the blank and variable, if any. */
  lemma AnglesStripped(jn: string, v: string, tv: string)
    requires NoSpace(v) && Bracketless(v)
    requires tv == if v == "" then "" else " " + v
    ensures RTrim(RStripChars(LTrim(LStripChars("<[" + jn + "]" + " " + v + ">", {'<'})), {'>'})) == "[" + jn + "]" + tv
  {
    AnglesLeft(jn, v);
    LastNotAngle(v);
    AnglesRight(jn, v);
    AnglesTrimmed(jn, v, tv);
  }

  lemma LastNotAngle(v: string)
    requires Bracketless(v)
    ensures v != [] ==> v[|v| - 1] != '>'
  {
    if v != [] {
      assert v[|v| - 1] !in {'[', ']', '<', '>', '(', ')'};
    }
  }

  /** The right trim removes the blank only when there is no variable. */
  lemma AnglesTrimmed(jn: string, v: string, tv: string)
    requires NoSpace(v)
    requires tv == if v == "" then "" else " " + v
    ensures RTrim("[" + jn + "]" + " " + v) == "[" + jn + "]" + tv
  {
    var u := "[" + jn + "]";
    var s3 := u + " " + v;
    if v == "" {
      assert s3 == u + " ";
      RTrimSpaces(u, " ");
    } else {
      assert s3 == u + tv && s3[|s3| - 1] == v[|v| - 1];
    }
  }

  /** The left strips remove just the `<`. */
  lemma AnglesLeft(jn: string, v: string)
    ensures LTrim(LStripChars("<[" + jn + "]" + " " + v + ">", {'<'})) == "[" + jn + "]" + " " + v + ">"
  {
    var s := "<[" + jn + "]" + " " + v + ">";
    var s1 := "[" + jn + "]" + " " + v + ">";
    assert s[1..] == s1;
    assert LStripChars(s, {'<'}) == s1;
  }

  /** The right strip removes just the `>` when v does not end in one. */
  lemma AnglesRight(jn: string, v: string)
    requires v != [] ==> v[|v| - 1] != '>'
    ensures RStripChars("[" + jn + "]" + " " + v + ">", {'>'}) == "[" + jn + "]" + " " + v
  {
    var s1 := "[" + jn + "]" + " " + v + ">";
    var s3 := "[" + jn + "]" + " " + v;
    assert s1[..|s1| - 1] == s3;
    assert v != [] ==> s3[|s3| - 1] == v[|v| - 1];
  }

  /** Stripping the square brackets from `[jn]` leaves jn. */
  lemma InnerOf(jn: string)
    requires jn != [] && jn[0] != '[' && jn[|jn| - 1] != ']'
    ensures RStripChars(LStripChars("[" + jn + "]", {'['}), {']'}) == jn
  {
    var u := "[" + jn + "]";
    assert u[1..] == jn + "]";
    assert LStripChars(u, {'['}) == jn + "]";
    assert (jn + "]")[..|jn|] == jn;
  }

  lemma VariableOf(v: string, tv: string)
    requires NoSpace(v)
    requires tv == if v == "" then "" else " " + v
    ensures Strip(tv) == v
  {
    if v != "" {
      LTrimSpace(" ", v);
      assert LTrim(v) == v;
    }
  }

  /** The first and last characters of blank-joined words without brackets are no brackets or blanks. */
  lemma JoinEnds(names: seq<string>)
    requires names != [] && forall i :: 0 <= i < |names| ==> IsWord(names[i]) && Bracketless(names[i])
    ensures var jn := Join(names, " ");
      && jn != [] && !IsSpace(jn[0]) && !IsSpace(jn[|jn| - 1])
      && jn[0] != '[' && jn[|jn| - 1] != ']'
  {
    var jn := Join(names, " ");
    var last := names[|names| - 1];
    if |names| > 1 {
      PrefixedLast(names[1..], " ");
      assert jn[|jn| - 1] == last[|last| - 1];
    } else {
      assert jn == names[0];
    }
  }

  /** The bracket span of `[jn]` followed by a tail without ']' is exactly `[jn]`. */
  lemma BracketSpanOf(jn: string, tv: string)
    requires Avoids(tv, ']')
    ensures BracketSpan("[" + jn + "]" + tv) == Some((0 as nat, (|jn| + 1) as nat))
  {
    var t := "[" + jn + "]" + tv;
    assert t == ("[" + jn) + [']'] + tv;
    StringManipulation.LastIndexAt("[" + jn, tv, ']');
  }

  /** `process_edge` on `<var>`. */
  lemma ProcessUnboxed(v: string)
    requires NoSpace(v) && Bracketless(v)
    ensures ProcessEdge(["<" + v + ">"]) == ([], v)
  {
    var s := "<" + v + ">";
    assert Join(["<" + v + ">"], " ") == s;
    assert s[1..] == v + ">";
    assert LStripChars(s, {'<'}) == v + ">";
    assert !IsSpace((v + ">")[0]) by {
      if v != [] {
        assert (v + ">")[0] == v[0];
      }
    }
    assert LTrim(v + ">") == v + ">";
    assert (v + ">")[..|v|] == v;
    assert RStripChars(v + ">", {'>'}) == v;
    assert RTrim(v) == v;
    assert Find(v, '[') == None;
  }

  // ---------------------------------------------------------------------
  // Keys and the consistency check
  // ---------------------------------------------------------------------

  /** `generate_key_from_edge`: `src-label-[c1,...,cn]`. */
  function GenerateKeyFromEdge(t: Transition): (r: string)
    ensures |r| > |t.src| + |t.info.symbol| + 2 && r[..|t.src|] == t.src && r[|t.src|] == '-'
    ensures r[|t.src| + 1..|t.src| + 1 + |t.info.symbol|] == t.info.symbol && r[|r| - 1] == ']'
  {
    t.src + "-" + t.info.symbol + "-[" + Join(t.children, ",") + "]"
  }

  /**
   * Two transitions get the same key exactly when they agree on source,
   * symbol and children, for names without '-' and non-empty children
   * without ','.
   */
  lemma KeyDeterminesEdge(t1: Transition, t2: Transition)
    requires Avoids(t1.src, '-') && Avoids(t1.info.symbol, '-') && Avoids(t2.src, '-') && Avoids(t2.info.symbol, '-')
    requires forall i :: 0 <= i < |t1.children| ==> t1.children[i] != [] && Avoids(t1.children[i], ',')
    requires forall i :: 0 <= i < |t2.children| ==> t2.children[i] != [] && Avoids(t2.children[i], ',')
    ensures (GenerateKeyFromEdge(t1) == GenerateKeyFromEdge(t2))
        <==> (t1.src == t2.src && t1.info.symbol == t2.info.symbol && t1.children == t2.children)
  {
    KeyParts(t1);
    KeyParts(t2);
  }

  /** A key split back into source, symbol and children: up to the first '-', up to the next '-', then the bracketed list. */
  function ParseKey(key: string): Option<(string, string, seq<string>)>
  {
    match Find(key, '-')
    case None => None
    case Some(i) =>
      var k2 := key[i + 1..];
      match Find(k2, '-')
      case None => None
      case Some(j) =>
        var k3 := k2[j + 1..];
        if |k3| < 2 then None else Some((key[..i], k2[..j], ChildrenOfKey(k3)))
  }

  /** The parts of a key come back out of it. */
  lemma KeyParts(t: Transition)
    requires Avoids(t.src, '-') && Avoids(t.info.symbol, '-')
    requires forall i :: 0 <= i < |t.children| ==> t.children[i] != [] && Avoids(t.children[i], ',')
    ensures ParseKey(GenerateKeyFromEdge(t)) == Some((t.src, t.info.symbol, t.children))
  {
    ParseKeyText(t.src, t.info.symbol, t.children);
  }

  /** The key text of a source, a symbol and children parses back into the three. */
  lemma ParseKeyText(src: string, symbol: string, children: seq<string>)
    requires Avoids(src, '-') && Avoids(symbol, '-')
    requires forall i :: 0 <= i < |children| ==> children[i] != [] && Avoids(children[i], ',')
    ensures ParseKey(src + "-" + symbol + "-[" + Join(children, ",") + "]") == Some((src, symbol, children))
  {
    var jc := Join(children, ",");
    var key := src + "-" + symbol + "-[" + jc + "]";
    var k2 := symbol + "-[" + jc + "]";
    assert key == src + ['-'] + k2;
    FindAfter(src, k2, '-');
    var k3 := "[" + jc + "]";
    assert k2 == symbol + ['-'] + k3;
    FindAfter(symbol, k3, '-');
    assert k3[1..|k3| - 1] == jc;
    if children != [] {
      SplitOnJoin(children, ',');
    } else {
      assert jc == "";
    }
  }

  /** The children listed between the brackets of a key's last part. */
  function ChildrenOfKey(k3: string): seq<string>
    requires |k3| >= 2
  {
    var inner := k3[1..|k3| - 1];
    if inner == "" then [] else SplitOn(inner, ',')
  }

  /** A transition agrees with the declared states and arities. */
  predicate EdgeConsistent(t: Transition, states: set<string>, arities: map<string, int>)
  {
    && t.src in states && t.info.symbol in arities && |t.children| == arities[t.info.symbol]
    && forall i :: 0 <= i < |t.children| ==> t.children[i] in states
  }

  /** Every key is a declared state and every transition is consistent. */
  predicate Consistent(m: map<string, seq<Transition>>, states: set<string>, arities: map<string, int>)
  {
    forall k :: k in m ==> k in states && forall t :: t in m[k] ==> EdgeConsistent(t, states, arities)
  }

  /** Every child is declared. */
  method ChildrenDeclared(cs: seq<string>, states: set<string>) returns (b: bool)
    ensures b <==> forall i :: 0 <= i < |cs| ==> cs[i] in states
  {
    var i := 0;
    while i < |cs|
      invariant 0 <= i <= |cs|
      invariant forall p :: 0 <= p < i ==> cs[p] in states
    {
      if cs[i] !in states {
        return false;
      }
      i := i + 1;
    }
    return true;
  }

  /** The transitions of one state are consistent. */
  method EdgesConsistent(ts: seq<Transition>, states: set<string>, arities: map<string, int>) returns (b: bool)
    ensures b <==> forall t :: t in ts ==> EdgeConsistent(t, states, arities)
  {
    var j := 0;
    while j < |ts|
      invariant 0 <= j <= |ts|
      invariant forall p :: 0 <= p < j ==> EdgeConsistent(ts[p], states, arities)
    {
      var t := ts[j];
      assert t in ts;
      if t.src !in states || t.info.symbol !in arities || |t.children| != arities[t.info.symbol] {
        return false;
      }
      var declared := ChildrenDeclared(t.children, states);
      if !declared {
        return false;
      }
      j := j + 1;
    }
    return true;
  }

  /**
   * `consistency_check_vtf` (and `consistency_check_tmb`, which performs the
   * same test): true exactly when every key and every source and child is a
   * declared state and every symbol is declared with the transition's number
   * of children. keys is the dictionary's key order.
   */
  method ConsistencyCheckVtf(keys: seq<string>, m: map<string, seq<Transition>>, states: set<string>, arities: map<string, int>)
    returns (b: bool)
    requires forall k :: k in keys <==> k in m
    ensures b <==> Consistent(m, states, arities)
  {
    var i := 0;
    while i < |keys|
      invariant 0 <= i <= |keys|
      invariant forall p :: 0 <= p < i ==> keys[p] in states && forall t :: t in m[keys[p]] ==> EdgeConsistent(t, states, arities)
    {
      if keys[i] !in states {
        return false;
      }
      var ok := EdgesConsistent(m[keys[i]], states, arities);
      if !ok {
        return false;
      }
      i := i + 1;
    }
    return true;
  }
}
