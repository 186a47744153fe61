/**
 * The DIMACS clause compiler: a `p cnf|dnf <vars> <clauses>` preamble, then
 * clauses of integer literals each ended by `0`, folded into one Boolean
 * function (a conjunction of disjunctions for CNF, a disjunction of
 * conjunctions for DNF).
 */
module Dimacs {
  import opened BoolEngine
  import opened Optional
  import Numerals

  /** Literal k denotes variable |k| - 1, negated when k is not positive. */
  function Literal(k: int): Bdd
  {
    var v := if k < 0 then -k - 1 else k - 1;
    if k > 0 then Var(v) else Not(Var(v))
  }

  predicate LiteralHolds(k: int, a: Assignment)
  {
    var v := if k < 0 then -k - 1 else k - 1;
    if k > 0 then a(v) else !a(v)
  }

  /**
   * The term one clause builds, folded from the initial term: literals are
   * OR-ed (CNF) or AND-ed (DNF) into it, first literal first.
   */
  function FoldClause(init: Bdd, lits: seq<int>, cnf: bool): Bdd
  {
    if lits == [] then init
    else
      var t := FoldClause(init, lits[..|lits| - 1], cnf);
      if cnf then Or(t, Literal(lits[|lits| - 1])) else And(t, Literal(lits[|lits| - 1]))
  }

  /** The clause term as written: the term starts at false in both modes. */
  function ClauseTermAsWritten(lits: seq<int>, cnf: bool): Bdd
  {
    FoldClause(False, lits, cnf)
  }

  /** The clause term as evidently intended: false for CNF, true for DNF. */
  function ClauseTerm(lits: seq<int>, cnf: bool): Bdd
  {
    FoldClause(if cnf then False else True, lits, cnf)
  }

  ghost predicate SomeLiteralHolds(lits: seq<int>, a: Assignment)
  {
    exists k :: 0 <= k < |lits| && LiteralHolds(lits[k], a)
  }

  ghost predicate AllLiteralsHold(lits: seq<int>, a: Assignment)
  {
    forall k :: 0 <= k < |lits| ==> LiteralHolds(lits[k], a)
  }

  lemma LiteralMeaning(k: int, a: Assignment)
    ensures Eval(Literal(k), a) == LiteralHolds(k, a)
  {
  }

  /** A CNF clause holds iff one of its literals does; a DNF term iff all do. */
  lemma {:induction false} ClauseTermMeaning(lits: seq<int>, cnf: bool, a: Assignment)
    ensures cnf ==> (Eval(ClauseTerm(lits, cnf), a) <==> SomeLiteralHolds(lits, a))
    ensures !cnf ==> (Eval(ClauseTerm(lits, cnf), a) <==> AllLiteralsHold(lits, a))
  {
    if lits != [] {
      var init := lits[..|lits| - 1];
      ClauseTermMeaning(init, cnf, a);
      LiteralMeaning(lits[|lits| - 1], a);
      if cnf {
        if SomeLiteralHolds(init, a) {
          var k :| 0 <= k < |init| && LiteralHolds(init[k], a);
          assert LiteralHolds(lits[k], a);
        }
        if SomeLiteralHolds(lits, a) {
          var k :| 0 <= k < |lits| && LiteralHolds(lits[k], a);
          if k < |init| { assert LiteralHolds(init[k], a); }
        }
      } else {
        if AllLiteralsHold(lits, a) {
          forall k | 0 <= k < |init| ensures LiteralHolds(init[k], a) {
            assert init[k] == lits[k];
          }
        }
      }
    }
  }

  /** As written, a DNF term is false under every assignment, whatever its literals. */
  lemma {:induction false} DnfTermAsWrittenIsFalse(lits: seq<int>, a: Assignment)
    ensures !Eval(ClauseTermAsWritten(lits, false), a)
  {
    if lits != [] {
      DnfTermAsWrittenIsFalse(lits[..|lits| - 1], a);
    }
  }

  /** The file `p dnf 1 1` / `1 0`: its only term should be x0, but is false. */
  lemma DnfTermAsWrittenCounterexample()
    ensures Eval(ClauseTerm([1], false), _ => true)
    ensures !Eval(ClauseTermAsWritten([1], false), _ => true)
  {
  }

  /** What the clauses folded since the preamble mean together. */
  ghost predicate Holds(cnf: bool, clauses: seq<seq<int>>, a: Assignment)
  {
    if cnf then forall c :: 0 <= c < |clauses| ==> SomeLiteralHolds(clauses[c], a)
    else exists c :: 0 <= c < |clauses| && AllLiteralsHold(clauses[c], a)
  }

  lemma HoldsAppend(cnf: bool, clauses: seq<seq<int>>, lits: seq<int>, a: Assignment)
    ensures Holds(cnf, clauses + [lits], a) ==
      (if cnf then Holds(cnf, clauses, a) && Eval(ClauseTerm(lits, cnf), a)
       else Holds(cnf, clauses, a) || Eval(ClauseTerm(lits, cnf), a))
  {
    ClauseTermMeaning(lits, cnf, a);
    var cs := clauses + [lits];
    if cnf {
      if Holds(cnf, clauses, a) && SomeLiteralHolds(lits, a) {
        forall c | 0 <= c < |cs| ensures SomeLiteralHolds(cs[c], a) {
          if c < |clauses| { assert cs[c] == clauses[c]; }
        }
      }
      if Holds(cnf, cs, a) {
        forall c | 0 <= c < |clauses| ensures SomeLiteralHolds(clauses[c], a) {
          assert cs[c] == clauses[c];
        }
        assert cs[|clauses|] == lits;
      }
    } else {
      if Holds(cnf, clauses, a) {
        var c :| 0 <= c < |clauses| && AllLiteralsHold(clauses[c], a);
        assert cs[c] == clauses[c];
      }
      if AllLiteralsHold(lits, a) {
        assert cs[|clauses|] == lits;
      }
      if Holds(cnf, cs, a) {
        var c :| 0 <= c < |cs| && AllLiteralsHold(cs[c], a);
        if c < |clauses| { assert cs[c] == clauses[c]; }
      }
    }
  }

  datatype Status = Running | Aborted

  /** `f` is the CNF (or DNF) function of the clauses. */
  ghost predicate Denotes(f: Bdd, cnf: bool, clauses: seq<seq<int>>)
  {
    forall a :: Eval(f, a) == Holds(cnf, clauses, a)
  }

  /** With no clauses, CNF means true (the empty conjunction) and DNF false (the empty disjunction). */
  lemma DenotesNoClauses(cnf: bool)
    ensures Denotes(if cnf then True else False, cnf, [])
  {
  }

  /** How a finished clause term joins the result: AND for CNF, OR for DNF. */
  function Combine(result: Bdd, term: Bdd, cnf: bool): Bdd
  {
    if cnf then And(result, term) else Or(result, term)
  }

  /** Folding one more clause term into the result keeps it the CNF/DNF of all clauses. */
  lemma FoldValid(cnf: bool, result: Bdd, clauses: seq<seq<int>>, lits: seq<int>)
    requires Denotes(result, cnf, clauses)
    ensures Denotes(Combine(result, ClauseTerm(lits, cnf), cnf), cnf, clauses + [lits])
  {
    forall a ensures Eval(Combine(result, ClauseTerm(lits, cnf), cnf), a) == Holds(cnf, clauses + [lits], a)
    {
      HoldsAppend(cnf, clauses, lits, a);
    }
  }

  /** What GetToken leaves after taking one token (nothing, from an empty list). */
  function Drop1(ts: seq<string>): seq<string>
  {
    if ts == [] then [] else ts[1..]
  }

  /** The token `get_token` returns: the front one, "" once the list is empty. */
  function Front(ts: seq<string>): string
  {
    if ts == [] then "" else ts[0]
  }

  /** What a preamble sets: the normal form and the two declared counts. */
  datatype Header = Header(cnf: bool, variables: int, clausules: int)

  /**
   * The preamble after `p`: the type token, then the variable and clause
   * counts, read in that order as `get_token` hands them out (so a missing
   * token reads as ""); None when the type is not cnf or dnf, or a count is
   * not a number or not positive.
   */
  function ReadPreamble(ts: seq<string>): Option<Header>
  {
    var kind := Front(ts);
    var vars := Numerals.Stoi(Front(Drop1(ts)));
    var count := Numerals.Stoi(Front(Drop1(Drop1(ts))));
    if kind != "dnf" && kind != "cnf" then None
    else if vars.None? || count.None? then None
    else if vars.value <= 0 || count.value <= 0 then None
    else Some(Header(kind == "cnf", vars.value, count.value))
  }

  /** A preamble is read exactly when three tokens are there: a known type and two positive counts. */
  lemma ReadPreambleMeaning(ts: seq<string>)
    ensures ReadPreamble(ts).Some? <==>
      |ts| >= 3 && (ts[0] == "cnf" || ts[0] == "dnf")
      && Numerals.Stoi(ts[1]).Some? && Numerals.Stoi(ts[1]).value > 0
      && Numerals.Stoi(ts[2]).Some? && Numerals.Stoi(ts[2]).value > 0
    ensures ReadPreamble(ts).Some? ==>
      ReadPreamble(ts).value == Header(ts[0] == "cnf", Numerals.Stoi(ts[1]).value, Numerals.Stoi(ts[2]).value)
  {
    Numerals.StoiEmpty();
  }

  /**
   * The clause starting at `current` followed by `rest`: its literals and the
   * tokens left after its `0` and the newline token; None when a literal is
   * not a number (including running out of tokens, which reads as "").
   */
  function ReadClause(current: string, rest: seq<string>): (r: Option<(seq<int>, seq<string>)>)
    ensures r.Some? ==> |r.value.1| < |rest| && |r.value.0| >= 1
    decreases |rest|
  {
    match Numerals.Stoi(current)
    case None => None
    case Some(k) =>
      if rest == [] then None
      else if rest[0] == "0" then Some(([k], Drop1(rest[1..])))
      else
        match ReadClause(rest[0], rest[1..])
        case None => None
        case Some((lits, left)) => Some(([k] + lits, left))
  }

  lemma ReadClauseStep(current: string, rest: seq<string>, k: int)
    requires Numerals.Stoi(current) == Some(k)
    ensures rest == [] ==> ReadClause(current, rest) == None
    ensures rest != [] && rest[0] == "0" ==> ReadClause(current, rest) == Some(([k], Drop1(rest[1..])))
    ensures rest != [] && rest[0] != "0" ==>
      ReadClause(current, rest) == PrependLits([k], ReadClause(rest[0], rest[1..]))
  {
  }

  lemma PrependTwice(lits: seq<int>, k: int, r: Option<(seq<int>, seq<string>)>)
    ensures PrependLits(lits, PrependLits([k], r)) == PrependLits(lits + [k], r)
  {
    match r {
      case None =>
      case Some((ls, left)) => assert lits + ([k] + ls) == (lits + [k]) + ls;
    }
  }

  function PrependLits(lits: seq<int>, r: Option<(seq<int>, seq<string>)>): Option<(seq<int>, seq<string>)>
  {
    match r
    case None => None
    case Some((ls, left)) => Some((lits + ls, left))
  }

  /** What `clausule` knows after the literals lits: their term, and the clause still to read. */
  ghost predicate ClauseInv(cnf: bool, current0: string, tokens0: seq<string>, lits: seq<int>,
                            current: string, tokens: seq<string>, term: Bdd)
  {
    term == ClauseTerm(lits, cnf)
    && PrependLits(lits, ReadClause(current, tokens)) == ReadClause(current0, tokens0)
  }

  lemma ClauseStart(cnf: bool, current: string, tokens: seq<string>)
    ensures ClauseInv(cnf, current, tokens, [], current, tokens, if cnf then False else True)
  {
    match ReadClause(current, tokens) {
      case None =>
      case Some((ls, left)) => assert [] + ls == ls;
    }
  }

  /** One literal k of `clausule`: either the clause ends at the next "0", or reading goes on. */
  lemma ClauseStep(cnf: bool, current0: string, tokens0: seq<string>, lits: seq<int>,
                   current: string, tokens: seq<string>, term: Bdd, k: int)
    requires ClauseInv(cnf, current0, tokens0, lits, current, tokens, term)
    requires Numerals.Stoi(current) == Some(k)
    ensures current != ""
    ensures var term' := if cnf then Or(term, Literal(k)) else And(term, Literal(k));
      if Front(tokens) == "0" then
        tokens != []
        && ReadClause(current0, tokens0) == Some((lits + [k], Drop1(Drop1(tokens))))
        && term' == ClauseTerm(lits + [k], cnf)
      else ClauseInv(cnf, current0, tokens0, lits + [k], Front(tokens), Drop1(tokens), term')
  {
    Numerals.StoiEmpty();
    ReadClauseStep(current, tokens, k);
    if tokens != [] && tokens[0] != "0" {
      PrependTwice(lits, k, ReadClause(tokens[0], tokens[1..]));
    }
    if tokens == [] {
      assert ReadClause("", []) == None;
    }
    assert (lits + [k])[..|lits|] == lits;
  }

  /** Taking the front token shortens what is left to read. */
  lemma FrontDrop1Measure(ts: seq<string>)
    ensures |Drop1(ts)| + (if Front(ts) == "" then 0 else 1) <= |ts|
  {
  }

  /**
   * The parser's state as the main loop sees it: the mode, the result, the
   * declared counts, the clauses read since the last preamble and the
   * tokens still to read.
   */
  datatype Run = Run(cnf: bool, result: Bdd, variables: int, clausules: int, processed: int,
                     clauses: seq<seq<int>>, tokens: seq<string>)

  /**
   * One round of the main loop: a `p` token starts a preamble, which resets
   * the result to the mode's start value; any other token starts a clause,
   * which is folded into the result and counted. None is an abort.
   */
  function ParseStep(r: Run): (n: Option<Run>)
    requires r.tokens != []
    ensures n.Some? ==> |n.value.tokens| < |r.tokens|
  {
    var t, rest := r.tokens[0], r.tokens[1..];
    if t == "p" then
      match ReadPreamble(rest)
      case None => None
      case Some(h) =>
        Some(r.(cnf := h.cnf, result := if h.cnf then True else False, variables := h.variables,
                clausules := h.clausules, clauses := [], tokens := Drop1(Drop1(Drop1(Drop1(rest))))))
    else
      match ReadClause(t, rest)
      case None => None
      case Some((lits, left)) =>
        Some(r.(result := Combine(r.result, ClauseTerm(lits, r.cnf), r.cnf), processed := r.processed + 1,
                clauses := r.clauses + [lits], tokens := left))
  }

  /** A preamble round, given what `preamble` read and left. */
  lemma PreambleRound(r: Run, n: Run)
    requires r.tokens != [] && r.tokens[0] == "p"
    requires ReadPreamble(r.tokens[1..]) == Some(Header(n.cnf, n.variables, n.clausules))
    requires n.result == (if n.cnf then True else False) && n.clauses == [] && n.processed == r.processed
    requires n.tokens == Drop1(Drop1(Drop1(Drop1(r.tokens[1..]))))
    ensures ParseStep(r) == Some(n)
  {
  }

  /** A clause round, given the clause `clausule` read. */
  lemma ClauseRound(r: Run, n: Run, lits: seq<int>)
    requires r.tokens != [] && r.tokens[0] != "p"
    requires ReadClause(r.tokens[0], r.tokens[1..]) == Some((lits, n.tokens))
    requires n.result == Combine(r.result, ClauseTerm(lits, r.cnf), r.cnf)
    requires n.cnf == r.cnf && n.variables == r.variables && n.clausules == r.clausules
    requires n.processed == r.processed + 1 && n.clauses == r.clauses + [lits]
    ensures ParseStep(r) == Some(n)
  {
  }

  /**
   * The main loop from state r: rounds until an abort (None), an empty token
   * list, or a round that leaves at most one token.
   */
  function ParseFrom(r: Run): Option<Run>
    decreases |r.tokens|
  {
    if r.tokens == [] then Some(r)
    else
      match ParseStep(r)
      case None => None
      case Some(n) => if |n.tokens| <= 1 then Some(n) else ParseFrom(n)
  }

  /**
   * Whatever the main loop reads, its result is the CNF (or DNF) function of
   * the clauses read since the last preamble, provided it was so at the start.
   */
  lemma {:induction false} ParseFromDenotes(r: Run)
    requires Denotes(r.result, r.cnf, r.clauses)
    ensures ParseFrom(r).Some? ==> Denotes(ParseFrom(r).value.result, ParseFrom(r).value.cnf, ParseFrom(r).value.clauses)
    decreases |r.tokens|
  {
    if r.tokens != [] && ParseStep(r).Some? {
      var n := ParseStep(r).value;
      if r.tokens[0] == "p" {
        DenotesNoClauses(n.cnf);
      } else {
        var lits := ReadClause(r.tokens[0], r.tokens[1..]).value.0;
        FoldValid(r.cnf, r.result, r.clauses, lits);
      }
      if |n.tokens| > 1 {
        ParseFromDenotes(n);
      }
    }
  }

  /**
   * The main loop ends where it runs out of tokens, or with at most one
   * token left (the trailing newline).
   */
  lemma {:induction false} ParseFromEnds(r: Run)
    ensures ParseFrom(r).Some? ==> |ParseFrom(r).value.tokens| <= 1
    decreases |r.tokens|
  {
    if r.tokens != [] && ParseStep(r).Some? && |ParseStep(r).value.tokens| > 1 {
      ParseFromEnds(ParseStep(r).value);
    }
  }

  class DimacsParser {
    var tokens: seq<string>
    var currentToken: string
    var cnf: bool
    var result: Bdd
    var currentBdd: Bdd
    var variablesCount: int
    var clausulesCount: int
    var processedClausules: int
    /** The clauses folded into `result` since the last preamble. */
    ghost var clauses: seq<seq<int>>

    /** `result` is the CNF/DNF function of the clauses read so far. */
    ghost predicate Valid()
      reads this
    {
      Denotes(result, cnf, clauses)
    }

    /** The state the main loop works on. */
    ghost function Snapshot(): Run
      reads this
    {
      Run(cnf, result, variablesCount, clausulesCount, processedClausules, clauses, tokens)
    }

    /** The parser after tokenizing; BuDDy's default `bdd` is false. */
    constructor (input: seq<string>)
      ensures tokens == input && currentToken == "" && !cnf && result == False
      ensures variablesCount == 0 && clausulesCount == 0 && processedClausules == 0
      ensures clauses == [] && Valid()
    {
      tokens := input;
      currentToken := "";
      cnf := false;
      result := False;
      currentBdd := False;
      variablesCount := 0;
      clausulesCount := 0;
      processedClausules := 0;
      clauses := [];
    }

    /** Takes the front token; on an empty list returns "" and changes nothing else. */
    method GetToken() returns (t: string)
      modifies this`tokens, this`currentToken
      ensures t == Front(old(tokens)) && tokens == Drop1(old(tokens))
      ensures currentToken == t
    {
      if |tokens| == 0 {
        currentToken := "";
        return "";
      }
      currentToken := tokens[0];
      tokens := tokens[1..];
      t := currentToken;
    }

    /**
     * `p <type> <vars> <clauses>` after the `p`: "cnf" starts from true,
     * "dnf" from false; another type, a count that is not a number, or a
     * count that is not positive aborts.
     */
    method Preamble() returns (status: Status)
      modifies this`tokens, this`currentToken, this`cnf, this`result, this`currentBdd,
        this`variablesCount, this`clausulesCount, this`clauses
      ensures status == Running <==> ReadPreamble(old(tokens)).Some?
      ensures status == Running ==>
        ReadPreamble(old(tokens)).value == Header(cnf, variablesCount, clausulesCount)
        && result == (if cnf then True else False)
        && tokens == Drop1(Drop1(Drop1(Drop1(old(tokens)))))
        && clauses == [] && Valid()
    {
      var kind := GetToken();
      if kind != "dnf" && kind != "cnf" {
        return Aborted;
      }
      var v := GetToken();
      var vars := Numerals.Stoi(v);
      if vars.None? { return Aborted; }
      var c := GetToken();
      var count := Numerals.Stoi(c);
      if count.None? { return Aborted; }
      if vars.value <= 0 || count.value <= 0 {
        return Aborted;
      }
      // an abort ends the program, so the fields are only set on success
      cnf := kind == "cnf";
      result := if cnf then True else False;
      currentBdd := if cnf then False else True;
      clauses := [];
      DenotesNoClauses(cnf);
      variablesCount := vars.value;
      clausulesCount := count.value;
      var _ := GetToken();
      status := Running;
    }

    /**
     * Reads one clause, starting at the current token, up to and including
     * its `0` and the newline after it, and folds it into `result`
     * (conjunction for CNF, disjunction for DNF). A literal that is not a
     * number aborts.
     */
    method Clausule() returns (status: Status)
      modifies this`tokens, this`currentToken, this`result, this`currentBdd
      ensures var read := ReadClause(old(currentToken), old(tokens));
        (status == Running <==> read.Some?)
        && (status == Running ==>
              result == Combine(old(result), ClauseTerm(read.value.0, cnf), cnf) && tokens == read.value.1)
    {
      currentBdd := if cnf then False else True;
      ghost var lits: seq<int> := [];
      ghost var c0, t0 := currentToken, tokens;
      ClauseStart(cnf, c0, t0);
      while true
        invariant ClauseInv(cnf, c0, t0, lits, currentToken, tokens, currentBdd)
        invariant result == old(result)
        decreases |tokens| + (if currentToken == "" then 0 else 1)
      {
        var literal := Numerals.Stoi(currentToken);
        if literal.None? {
          return Aborted;
        }
        var k := literal.value;
        ClauseStep(cnf, c0, t0, lits, currentToken, tokens, currentBdd, k);
        ghost var ts := tokens;
        FrontDrop1Measure(ts);
        // bdd_ithvar(|k| - 1), negated unless k > 0
        currentBdd := if cnf then Or(currentBdd, Literal(k)) else And(currentBdd, Literal(k));
        lits := lits + [k];
        var _ := GetToken();
        if currentToken == "0" {
          result := if cnf then And(result, currentBdd) else Or(result, currentBdd);
          var _ := GetToken();
          return Running;
        }
      }
    }

    /**
     * One pass of the main loop: takes a token, then reads a preamble after
     * `p` or a clause starting at any other token, and counts the clause.
     */
    method Round() returns (status: Status)
      requires tokens != [] && Valid()
      modifies this`tokens, this`currentToken, this`cnf, this`result, this`currentBdd,
        this`variablesCount, this`clausulesCount, this`processedClausules, this`clauses
      ensures var n := ParseStep(old(Snapshot()));
        && (status == Aborted <==> n.None?)
        && (status == Running ==> Snapshot() == n.value && Valid())
    {
      ghost var before := Snapshot();
      var _ := GetToken();
      if currentToken == "p" {
        status := Preamble();
        if status == Running {
          PreambleRound(before, Snapshot());
        }
      } else {
        ghost var read := ReadClause(currentToken, tokens);
        status := Clausule();
        if status == Running {
          FoldValid(cnf, before.result, clauses, read.value.0);
          clauses := clauses + [read.value.0];
          processedClausules := processedClausules + 1;
          ClauseRound(before, Snapshot(), read.value.0);
        }
      }
    }

    /**
     * Reads the token list: a `p` token starts a preamble, any other token
     * starts a clause; it stops on an abort or once at most one token is left.
     */
    method Parse() returns (status: Status)
      requires Valid()
      modifies this`tokens, this`currentToken, this`cnf, this`result, this`currentBdd,
        this`variablesCount, this`clausulesCount, this`processedClausules, this`clauses
      ensures var run := ParseFrom(old(Snapshot()));
        && (status == Aborted <==> run.None?)
        && (status == Running ==> Snapshot() == run.value && Valid())
    {
      ghost var run := ParseFrom(Snapshot());
      while |tokens| > 0
        invariant Valid() && ParseFrom(Snapshot()) == run
        decreases |tokens|
      {
        status := Round();
        if status == Aborted { return; }
        if |tokens| <= 1 {
          return Running;
        }
      }
      status := Running;
    }
  }
}
