/**
 * Reading the Timbuk (TMB) text format of tree automata, one line at a time.
 * A transition line reads `label(c1,c2) -> q`; the alphabet line reads
 * `Ops a:2 b:0`. Transitions read from this format carry no boxes (one
 * missing box per child) and no variable.
 */
module FormatTmb {
  import opened Optional
  import opened PyText
  import opened Transitions
  import opened FormatVtf

  // ---------------------------------------------------------------------
  // Commas between the outer parentheses
  // ---------------------------------------------------------------------

  /** p before the text of o, or nothing when o is nothing. */
  function Then(p: string, o: Option<string>): (r: Option<string>)
    ensures r.Some? <==> o.Some?
  {
    if o.None? then None else Some(p + o.value)
  }

  lemma ThenThen(a: string, b: string, o: Option<string>)
    ensures Then(a, Then(b, o)) == Then(a + b, o)
  {
    if o.Some? {
      assert a + (b + o.value) == a + b + o.value;
    }
  }

  lemma ThenNothing(o: Option<string>)
    ensures Then("", o) == o
  {
    if o.Some? {
      assert "" + o.value == o.value;
    }
  }

  /**
   * What `replace_commas_in` produces from s when depth parentheses are
   * already open: the outermost parentheses are dropped, a comma directly
   * inside them becomes ';', and everything else is kept. None stands for
   * the exception raised by a ')' with nothing open or by parentheses left
   * open at the end.
   */
  function CommasFrom(s: string, depth: nat): Option<string>
    decreases |s|
  {
    if s == [] then (if depth == 0 then Some("") else None)
    else if s[0] == '(' then Then(if depth != 0 then "(" else "", CommasFrom(s[1..], depth + 1))
    else if s[0] == ')' then
      (if depth == 0 then None else Then(if depth - 1 != 0 then ")" else "", CommasFrom(s[1..], depth - 1)))
    else if s[0] == ',' && depth == 1 then Then(";", CommasFrom(s[1..], depth))
    else Then([s[0]], CommasFrom(s[1..], depth))
  }

  /** `replace_commas_in` as a function of the whole line. */
  function ReplaceCommas(s: string): Option<string>
  {
    CommasFrom(s, 0)
  }

  /**
   * `replace_commas_in`. The stack of the source only ever holds '(', so it
   * is kept as its height, depth.
   */
  method ReplaceCommasIn(line: string) returns (r: Option<string>)
    ensures r == ReplaceCommas(line)
  {
    var depth: nat := 0;
    var temp := "";
    var i := 0;
    assert line[0..] == line;
    ThenNothing(ReplaceCommas(line));
    while i < |line|
      invariant 0 <= i <= |line|
      invariant Then(temp, CommasFrom(line[i..], depth)) == ReplaceCommas(line)
    {
      var rest := line[i..];
      assert rest[0] == line[i] && rest[1..] == line[i + 1..];
      if line[i] == '(' {
        var out := if depth != 0 then "(" else "";
        ThenThen(temp, out, CommasFrom(line[i + 1..], depth + 1));
        temp := temp + out;
        depth := depth + 1;
      } else if line[i] == ')' {
        if depth == 0 {
          return None;
        }
        var out := if depth - 1 != 0 then ")" else "";
        ThenThen(temp, out, CommasFrom(line[i + 1..], depth - 1));
        depth := depth - 1;
        temp := temp + out;
      } else if line[i] == ',' && depth == 1 {
        ThenThen(temp, ";", CommasFrom(line[i + 1..], depth));
        temp := temp + ";";
      } else {
        ThenThen(temp, [line[i]], CommasFrom(line[i + 1..], depth));
        temp := temp + [line[i]];
      }
      i := i + 1;
    }
    if depth != 0 {
      return None;
    }
    assert line[i..] == [] && temp + "" == temp;
    return Some(temp);
  }

  /** Occurrences of c in s. */
  function Count(s: string, c: char): nat
  {
    multiset(s)[c]
  }

  /** When the replacement succeeds, every '(' of s and the depth already open are closed by a ')' of s. */
  lemma {:induction false} CommasBalanced(s: string, depth: nat)
    requires CommasFrom(s, depth).Some?
    ensures depth + Count(s, '(') == Count(s, ')')
    decreases |s|
  {
    if s != [] {
      assert s == [s[0]] + s[1..];
      assert multiset(s) == multiset([s[0]]) + multiset(s[1..]);
      if s[0] == '(' {
        CommasBalanced(s[1..], depth + 1);
      } else if s[0] == ')' {
        CommasBalanced(s[1..], depth - 1);
      } else {
        CommasBalanced(s[1..], depth);
      }
    }
  }

  /** A line with unequal numbers of '(' and ')' raises "unbalanced parentheses" (or fails its pop). */
  lemma UnbalancedFails(s: string)
    requires Count(s, '(') != Count(s, ')')
    ensures ReplaceCommas(s) == None
  {
    if ReplaceCommas(s).Some? {
      CommasBalanced(s, 0);
    }
  }

  /** A child name: not empty, and none of the characters the transition syntax uses. */
  predicate ChildName(w: string)
  {
    w != [] && forall k :: 0 <= k < |w| ==> w[k] !in {'(', ')', ',', ';', '-'}
  }

  /** The commas before each child turn into ';'. */
  lemma {:induction false} PrefixedCommas(cs: seq<string>, rest: string)
    requires forall i :: 0 <= i < |cs| ==> ChildName(cs[i])
    ensures CommasFrom(Prefixed(cs, ",") + rest, 1) == Then(Prefixed(cs, ";"), CommasFrom(rest, 1))
    decreases |cs|
  {
    if cs == [] {
      assert Prefixed(cs, ",") + rest == rest;
      ThenNothing(CommasFrom(rest, 1));
    } else {
      var tl := Prefixed(cs[1..], ",") + rest;
      var s := Prefixed(cs, ",") + rest;
      assert s == [','] + (cs[0] + tl);
      assert s[0] == ',' && s[1..] == cs[0] + tl;
      PlainAt(cs[0], tl, 1);
      PrefixedCommas(cs[1..], rest);
      ThenThen(cs[0], Prefixed(cs[1..], ";"), CommasFrom(rest, 1));
      ThenThen(";", cs[0] + Prefixed(cs[1..], ";"), CommasFrom(rest, 1));
      assert Prefixed(cs, ";") == ";" + (cs[0] + Prefixed(cs[1..], ";"));
    }
  }

  lemma ClosingParen()
    ensures CommasFrom(")", 1) == Some("")
  {
    assert ")"[1..] == "";
    ThenNothing(CommasFrom("", 0));
  }

  /** The children part as the writer writes it turns into the children joined by ';'. */
  lemma JoinCommas(cs: seq<string>)
    requires forall i :: 0 <= i < |cs| ==> ChildName(cs[i])
    ensures ReplaceCommas("(" + Join(cs, ",") + ")") == Some(Join(cs, ";"))
  {
    var j := Join(cs, ",");
    var s := "(" + j + ")";
    assert s[0] == '(' && s[1..] == j + ")";
    ThenNothing(CommasFrom(j + ")", 1));
    ClosingParen();
    if cs == [] {
      assert j + ")" == ")";
    } else {
      var tl := Prefixed(cs[1..], ",");
      assert j + ")" == cs[0] + (tl + ")");
      PlainAt(cs[0], tl + ")", 1);
      PrefixedCommas(cs[1..], ")");
      ThenThen(cs[0], Prefixed(cs[1..], ";"), CommasFrom(")", 1));
      assert Join(cs, ";") + "" == Join(cs, ";");
    }
  }

  /** Text without parentheses or commas. */
  predicate Unbracketed(x: string)
  {
    forall k :: 0 <= k < |x| ==> x[k] !in {'(', ')', ','}
  }

  /**
   * Inner parentheses and the commas inside them are kept: `(x(y,z),w)`
   * becomes `x(y,z);w`.
   */
  lemma NestedKept(x: string, y: string, z: string, w: string)
    requires Unbracketed(x) && Unbracketed(y) && Unbracketed(z) && Unbracketed(w)
    ensures ReplaceCommas("(" + x + "(" + y + "," + z + ")," + w + ")") == Some(x + "(" + y + "," + z + ");" + w)
  {
    var u := "(" + y + "," + z + ")," + w + ")";
    NestedInner(y, z, w);
    PlainAt(x, u, 1);
    Unfold('(', x + u, 0);
    ThenNothing(CommasFrom(x + u, 1));
    OuterShape(x, y, z, w);
  }

  lemma OuterShape(x: string, y: string, z: string, w: string)
    ensures ['('] + (x + ("(" + y + "," + z + ")," + w + ")")) == "(" + x + "(" + y + "," + z + ")," + w + ")"
    ensures x + ("(" + y + "," + z + ");" + w) == x + "(" + y + "," + z + ");" + w
  {
  }

  lemma NestedInner(y: string, z: string, w: string)
    requires Unbracketed(y) && Unbracketed(z) && Unbracketed(w)
    ensures CommasFrom("(" + y + "," + z + ")," + w + ")", 1) == Some("(" + y + "," + z + ");" + w)
  {
    var t1 := ")," + w + ")";
    NestedTail(w);
    var yz := y + "," + z;
    CommaPair(y, z);
    PlainAt(yz, t1, 2);
    Unfold('(', yz + t1, 1);
    InnerShape(y, z, w);
  }

  lemma InnerShape(y: string, z: string, w: string)
    ensures ['('] + ((y + "," + z) + (")," + w + ")")) == "(" + y + "," + z + ")," + w + ")"
    ensures "(" + ((y + "," + z) + (");" + w)) == "(" + y + "," + z + ");" + w
  {
  }

  /** `y,z` has no parentheses. */
  lemma CommaPair(y: string, z: string)
    requires Unbracketed(y) && Unbracketed(z)
    ensures forall k :: 0 <= k < |y + "," + z| ==> (y + "," + z)[k] !in {'(', ')'}
  {
    var yz := y + "," + z;
    forall k | 0 <= k < |yz| ensures yz[k] !in {'(', ')'} {
      if k < |y| {
        assert yz[k] == y[k];
      } else if k > |y| {
        assert yz[k] == z[k - |y| - 1];
      }
    }
  }

  lemma NestedTail(w: string)
    requires Unbracketed(w)
    ensures CommasFrom(")," + w + ")", 2) == Some(");" + w)
  {
    var t3 := w + ")";
    ClosingParen();
    PlainAt(w, ")", 1);
    assert w + "" == w;
    Unfold(',', t3, 1);
    Unfold(')', [','] + t3, 2);
    assert [')'] + ([','] + t3) == ")," + w + ")";
    assert ")" + (";" + w) == ");" + w;
  }

  /** Text without parentheses passes through unchanged, commas included unless directly inside the outermost pair. */
  lemma {:induction false} PlainAt(x: string, rest: string, depth: nat)
    requires forall k :: 0 <= k < |x| ==> x[k] !in {'(', ')'}
    requires depth == 1 ==> Unbracketed(x)
    ensures CommasFrom(x + rest, depth) == Then(x, CommasFrom(rest, depth))
    decreases |x|
  {
    if x != [] {
      var s := x + rest;
      assert s[0] == x[0] && s[1..] == x[1..] + rest;
      PlainAt(x[1..], rest, depth);
      ThenThen([x[0]], x[1..], CommasFrom(rest, depth));
      assert [x[0]] + x[1..] == x;
    } else {
      assert x + rest == rest;
      ThenNothing(CommasFrom(rest, depth));
    }
  }

  /** One step of the replacement, for a concrete character. */
  lemma Unfold(c: char, s: string, depth: nat)
    ensures CommasFrom([c] + s, depth)
      == if c == '(' then Then(if depth != 0 then "(" else "", CommasFrom(s, depth + 1))
         else if c == ')' then (if depth == 0 then None else Then(if depth - 1 != 0 then ")" else "", CommasFrom(s, depth - 1)))
         else if c == ',' && depth == 1 then Then(";", CommasFrom(s, depth))
         else Then([c], CommasFrom(s, depth))
  {
    assert ([c] + s)[0] == c && ([c] + s)[1..] == s;
  }

  // ---------------------------------------------------------------------
  // Transition lines
  // ---------------------------------------------------------------------

  /**
   * `load_symbol`: the text before the first '(' and the rest from it on;
   * when there is no '(' or it comes first, the whole stripped line and "".
   */
  function LoadSymbol(line: string): (r: (string, string))
    ensures r.1 != "" ==> r.0 + r.1 == line && r.0 != [] && Avoids(r.0, '(') && r.1[0] == '('
    ensures (r.1 == "") <==> (Avoids(line, '(') || line[0] == '(')
    ensures r.1 == "" ==> r.0 == Strip(line)
  {
    match Find(line, '(')
    case Some(i) => if i > 0 then (line[..i], line[i..]) else (Strip(line), "")
    case None => (Strip(line), "")
  }

  /** The non-empty strings of xs, in order. */
  function NonEmpty(xs: seq<string>): (r: seq<string>)
    ensures |r| <= |xs| && forall i :: 0 <= i < |r| ==> r[i] != [] && r[i] in xs
    ensures (forall i :: 0 <= i < |xs| ==> xs[i] != []) ==> r == xs
  {
    if xs == [] then []
    else if xs[0] == "" then NonEmpty(xs[1..])
    else [xs[0]] + NonEmpty(xs[1..])
  }

  /**
   * `load_transition_from_tmb`: `rest -> src`, the symbol before the first
   * '(' of rest, and the non-empty ';'-separated pieces of the replaced
   * children part as children, each with a missing box. None stands for the
   * IndexError of a line without `->` and for the exception of unbalanced
   * parentheses.
   */
  function LoadTransitionFromTmb(line: string): (r: Option<Transition>)
    ensures r.Some? ==> && |r.value.info.boxArray| == |r.value.children|
                        && (forall i :: 0 <= i < |r.value.children| ==> r.value.info.boxArray[i].None?)
                        && r.value.info.variable == ""
                        && forall i :: 0 <= i < |r.value.children| ==> r.value.children[i] != [] && Avoids(r.value.children[i], ';')
  {
    var parts := SplitSep(Strip(line), "->");
    if |parts| < 2 then None
    else
      var src := Strip(parts[1]);
      var (symbol, childrenStr) := LoadSymbol(Strip(parts[0]));
      match ReplaceCommas(Strip(childrenStr))
      case None => None
      case Some(cs) =>
        var children := NonEmpty(SplitOn(cs, ';'));
        Some(Transition(src, Edge(symbol, seq(|children|, _ => None), ""), children))
  }

  /** One line of `write_transitions_tmb_file`. */
  function WriteTransitionTmb(t: Transition): string
  {
    t.info.symbol + "(" + Join(t.children, ",") + ") -> " + t.src + "\n"
  }

  /** A transition the TMB format carries exactly: names the syntax cannot confuse, one missing box per child, no variable. */
  predicate TmbWritable(t: Transition)
  {
    && IsWord(t.info.symbol) && Avoids(t.info.symbol, '(') && Avoids(t.info.symbol, '-')
    && IsWord(t.src) && Avoids(t.src, '-')
    && (forall i :: 0 <= i < |t.children| ==> ChildName(t.children[i]))
    && t.info.boxArray == seq(|t.children|, _ => None) && t.info.variable == ""
  }

  /** Blank characters used by the writer. */
  lemma Blanks()
    ensures forall k :: 0 <= k < |" "| ==> IsSpace(" "[k])
    ensures forall k :: 0 <= k < |"\n"| ==> IsSpace("\n"[k])
    ensures forall k :: 0 <= k < |"\n\n"| ==> IsSpace("\n\n"[k])
    ensures IsWord("Ops")
  {
  }

  /** A written transition line reads back as the transition. */
  lemma TmbTransitionRoundTrip(t: Transition)
    requires TmbWritable(t)
    ensures LoadTransitionFromTmb(WriteTransitionTmb(t)) == Some(t)
  {
    var sym, src, cs := t.info.symbol, t.src, t.children;
    var j := Join(cs, ",");
    var paren := "(" + j + ")";
    LineParts(t, j, paren, sym + paren + " ", " " + src);
    SymbolOf(sym, j);
    JoinCommas(cs);
    ChildrenBack(cs);
  }

  /** The text before the arrow splits into the symbol and the parenthesised children. */
  lemma SymbolOf(sym: string, j: string)
    requires IsWord(sym) && Avoids(sym, '(')
    ensures LoadSymbol(sym + ("(" + j + ")")) == (sym, "(" + j + ")")
    ensures Strip("(" + j + ")") == "(" + j + ")"
  {
    ParenShape(sym, j);
    FindAfter(sym, j + ")", '(');
    StripPlain("(" + j + ")");
  }

  lemma ParenShape(sym: string, j: string)
    ensures sym + ("(" + j + ")") == sym + ['('] + (j + ")")
    ensures ("(" + j + ")")[0] == '(' && ("(" + j + ")")[|j| + 1] == ')'
  {
  }

  /** The written line, stripped and split at `->`, gives the text before and after the arrow. */
  lemma LineParts(t: Transition, j: string, paren: string, a: string, b: string)
    requires TmbWritable(t)
    requires j == Join(t.children, ",") && paren == "(" + j + ")"
    requires a == t.info.symbol + paren + " " && b == " " + t.src
    ensures SplitSep(Strip(WriteTransitionTmb(t)), "->") == [a, b]
    ensures Strip(a) == t.info.symbol + paren && Strip(b) == t.src
  {
    var sym, src := t.info.symbol, t.src;
    LineShape(sym, j, src);
    Blanks();
    StripTrailing(a + "->" + b, "\n");
    forall i | 0 <= i < |t.children| ensures Avoids(t.children[i], '-') {
    }
    JoinAvoids(t.children, ",", '-');
    ArrowFree(sym, j, src);
    SplitSepPair(a, "->", b);
    StripTrailing(sym + paren, " ");
    VariableOf(src, b);
  }

  lemma LineShape(sym: string, j: string, src: string)
    requires sym != [] && src != []
    ensures var a, b := sym + ("(" + j + ")") + " ", " " + src;
      && sym + "(" + j + ") -> " + src + "\n" == a + "->" + b + "\n"
      && (a + "->" + b)[0] == sym[0] && (a + "->" + b)[|a + "->" + b| - 1] == src[|src| - 1]
      && (sym + ("(" + j + ")"))[0] == sym[0]
  {
  }

  /** No '-' before or after the arrow. */
  lemma ArrowFree(sym: string, j: string, src: string)
    requires Avoids(sym, '-') && Avoids(j, '-') && Avoids(src, '-')
    ensures Avoids(sym + ("(" + j + ")") + " ", '-') && Avoids(" " + src, '-')
  {
    AvoidsConcat(sym, "(", '-');
    AvoidsConcat(sym + "(", j, '-');
    AvoidsConcat(sym + "(" + j, ")", '-');
    assert sym + ("(" + j + ")") == sym + "(" + j + ")";
    AvoidsConcat(sym + ("(" + j + ")"), " ", '-');
    AvoidsConcat(" ", src, '-');
  }

  /** The ';'-separated children, without empty pieces, are the children. */
  lemma ChildrenBack(cs: seq<string>)
    requires forall i :: 0 <= i < |cs| ==> ChildName(cs[i])
    ensures NonEmpty(SplitOn(Join(cs, ";"), ';')) == cs
  {
    if cs == [] {
      assert SplitOn("", ';') == [""];
    } else {
      SplitOnJoin(cs, ';');
    }
  }

  // ---------------------------------------------------------------------
  // The alphabet line
  // ---------------------------------------------------------------------

  /** `words[1:]`. */
  function Rest(ws: seq<string>): (r: seq<string>)
    ensures ws != [] ==> [ws[0]] + r == ws
    ensures ws == [] ==> r == []
  {
    if ws == [] then [] else ws[1..]
  }

  /** `load_arity_from_tmb`: the entries after the first word. */
  method LoadArityFromTmb(line: string) returns (r: Option<map<string, int>>)
    ensures r == AritiesFrom(map[], Rest(Split(Strip(line))), false)
  {
    var words := Rest(Split(Strip(line)));
    var result: map<string, int> := map[];
    var i := 0;
    while i < |words|
      invariant 0 <= i <= |words|
      invariant AritiesFrom(result, words[i..], false) == AritiesFrom(map[], words, false)
    {
      assert words[i..][1..] == words[i + 1..];
      var items := SplitOn(words[i], ':');
      if |items| < 2 {
        return None;
      }
      var arity := PyInt(Strip(items[1]));
      if arity.None? {
        return None;
      }
      result := result[Strip(items[0]) := arity.value];
      i := i + 1;
    }
    return Some(result);
  }

  /** `write_arities_tmb_file`, the dictionary given by its items in order. */
  function WriteAritiesTmb(pairs: seq<(string, int)>): string
  {
    "Ops" + Prefixed(ArityWords(pairs), " ") + "\n\n"
  }

  /** A written alphabet line reads back as the dictionary of its items. */
  lemma TmbAritiesRoundTrip(pairs: seq<(string, int)>)
    requires forall i :: 0 <= i < |pairs| ==> SymbolName(pairs[i].0)
    ensures AritiesFrom(map[], Rest(Split(Strip(WriteAritiesTmb(pairs)))), false) == Some(MapOf(map[], pairs))
  {
    var ws := ArityWords(pairs);
    ArityWordsAreWords(pairs);
    OpsLine(WriteAritiesTmb(pairs), ws);
    AritiesFromWords(map[], pairs, false);
  }

  lemma OpsLine(line: string, ws: seq<string>)
    requires line == "Ops" + Prefixed(ws, " ") + "\n\n"
    requires forall i :: 0 <= i < |ws| ==> IsWord(ws[i])
    ensures Rest(Split(Strip(line))) == ws
  {
    Blanks();
    StripHeaded("Ops", ws, "\n\n");
  }
}
