/**
 * The BLIF netlist compiler: a parser object that consumes a token list
 * from the front, assigns ids to the netlist's names, records which gate
 * reads which names, and compiles each `.names` truth table into a Boolean
 * function, either as one characteristic relation of the whole netlist or
 * as one stored function per gate output.
 */
module Blif {
  import Seqs
  import opened BoolEngine
  import opened Optional
  import opened BlifSpec
  import BlifOrder

  /** The two compilation modes. */
  datatype Parsing = OutputFunction | CharacteristicFunction

  /** The parser's fields that statements change, as one value. */
  datatype Snapshot = Snapshot(
    name: string,
    inputs: seq<string>,
    outputs: seq<string>,
    names: seq<int>,
    namesMap: map<int, seq<int>>,
    varMap: map<string, int>,
    constructCounter: int,
    result: Bdd,
    currentBdd: Bdd,
    bddMap: map<int, (Bdd, bool)>)

  /** Every `.names` statement names at least its output. */
  predicate NamesHaveOutput(sts: seq<Statement>)
  {
    forall k :: 0 <= k < |sts| && sts[k].Names? ==> sts[k].nameWords != []
  }

  /** The name line `ws` of `.names`: its ids become `names`, and the output depends on the others. */
  function NamesLineStep(s: Snapshot, ws: seq<string>): Snapshot
    requires ws != []
  {
    var ids := Ids(s.varMap, ws);
    s.(names := ids, varMap := TouchAll(s.varMap, ws), namesMap := s.namesMap[ids[|ids| - 1] := ids[..|ids| - 1]])
  }

  /** `.names` with the name line `ws` and the truth table `rows`, in either mode. */
  function NamesStep(s: Snapshot, ws: seq<string>, rows: seq<Row>, mode: Parsing): Snapshot
    requires ws != []
  {
    var ids := Ids(s.varMap, ws);
    var out := ids[|ids| - 1];
    var t := NamesLineStep(s, ws);
    if mode == CharacteristicFunction then
      t.(result := And(GateRelation(InputVars(ids), rows, out), s.result), currentBdd := False,
         constructCounter := s.constructCounter + 1)
    else
      t.(bddMap := MarkRows(s.bddMap, ids[..|ids| - 1], rows)[out := (GateFunction(InputFunctions(s.bddMap, ids), rows), false)])
  }

  /** What one statement does to the parser. */
  function Step(s: Snapshot, st: Statement, mode: Parsing): Snapshot
    requires st.Names? ==> st.nameWords != []
  {
    match st
    case Model(n) => s.(name := n)
    case Inputs(ws) =>
      var ids := Ids(s.varMap, ws);
      s.(inputs := s.inputs + ws, varMap := TouchAll(s.varMap, ws),
         namesMap := ClearDependencies(s.namesMap, ids),
         bddMap := if mode == OutputFunction then SeedInputs(s.bddMap, ids) else s.bddMap)
    case Outputs(ws) => s.(outputs := s.outputs + ws)
    case Names(ws, rows) => NamesStep(s, ws, rows, mode)
    case Unsupported(_) => s
  }

  /** The statements run in order. */
  function Exec(s: Snapshot, sts: seq<Statement>, mode: Parsing): Snapshot
    requires NamesHaveOutput(sts)
    decreases |sts|
  {
    if sts == [] then s else Exec(Step(s, sts[0], mode), sts[1..], mode)
  }

  /** Every `.names` statement the token list holds names at least its output. */
  lemma {:induction false} StatementsHaveOutput(ts: seq<string>)
    ensures Statements(ts).Some? ==> NamesHaveOutput(Statements(ts).value.0)
    decreases |ts|
  {
    match NextStatement(ts) {
      case None =>
      case Some((None, rest)) =>
      case Some((Some(st), rest)) =>
        StatementsHaveOutput(rest);
        if Statements(rest).Some? {
          var sts := Statements(rest).value.0;
          assert forall k :: 1 <= k < |[st] + sts| ==> ([st] + sts)[k] == sts[k - 1];
        }
    }
  }

  /** `initial_parse`'s statement results added to what was collected before. */
  function AddDeclared(ns: set<string>, count: nat, r: Option<(set<string>, nat)>): Option<(set<string>, nat)>
  {
    match r
    case None => None
    case Some((more, c)) => Some((ns + more, count + c))
  }

  function AddNames(ns: set<string>, r: Option<(set<string>, seq<string>)>): Option<(set<string>, seq<string>)>
  {
    match r
    case None => None
    case Some((more, rest)) => Some((ns + more, rest))
  }

  /** One name of a statement line: a "\\" makes the token after it the name. */
  lemma StatementNamesStep(ts: seq<string>, p: nat, stmt: set<string>)
    requires p < |ts| && ts[p] != "\n"
    requires ts[p] == "\\" ==> p + 1 < |ts|
    ensures var q := if ts[p] == "\\" then p + 1 else p;
      AddNames(stmt, StatementNames(ts[p..])) == AddNames(stmt + {ts[q]}, StatementNames(ts[q + 1..]))
  {
    var q := if ts[p] == "\\" then p + 1 else p;
    assert ts[p..][1..] == ts[p + 1..];
    if ts[p] == "\\" {
      assert ts[p..][2..] == ts[q + 1..];
    }
    match StatementNames(ts[q + 1..]) {
      case None =>
      case Some((ns, rest)) => assert stmt + ({ts[q]} + ns) == (stmt + {ts[q]}) + ns;
    }
  }

  /** What `StatementWords` knows after scanning a statement line from `start` up to `i`. */
  ghost predicate ScanInv(ts: seq<string>, start: nat, i: nat, vars0: seq<string>, vars: seq<string>, stmt: set<string>)
  {
    start <= i <= |ts|
    && Seqs.Distinct(vars) && Seqs.Elems(vars) == Seqs.Elems(vars0) + stmt
    && StatementNames(ts[start..]) == AddNames(stmt, StatementNames(ts[i..]))
  }

  lemma ScanStart(ts: seq<string>, start: nat, vars0: seq<string>)
    requires start <= |ts| && Seqs.Distinct(vars0)
    ensures ScanInv(ts, start, start, vars0, vars0, {})
  {
    match StatementNames(ts[start..]) {
      case None =>
      case Some((ns, rest)) => assert {} + ns == ns;
    }
  }

  lemma ScanStep(ts: seq<string>, start: nat, i: nat, vars0: seq<string>, vars: seq<string>, stmt: set<string>)
    requires ScanInv(ts, start, i, vars0, vars, stmt)
    requires i < |ts| && ts[i] != "\n" && (ts[i] == "\\" ==> i + 1 < |ts|)
    ensures var q := if ts[i] == "\\" then i + 1 else i;
      ScanInv(ts, start, q + 1, vars0, if ts[q] !in vars then vars + [ts[q]] else vars, stmt + {ts[q]})
  {
    StatementNamesStep(ts, i, stmt);
    var q := if ts[i] == "\\" then i + 1 else i;
    assert Seqs.Elems(vars + [ts[q]]) == Seqs.Elems(vars) + {ts[q]};
  }

  /** One keyword statement of `initial_parse`'s scan, folded into what was collected before. */
  lemma DeclaredStep(ts: seq<string>, kw: nat, ns0: set<string>, count: nat, next: nat)
    requires kw < |ts| && ts[kw] in Keywords
    requires StatementNames(ts[kw + 1..]).Some? && next <= |ts| && ts[next..] == StatementNames(ts[kw + 1..]).value.1
    ensures AddDeclared(ns0, count, DeclaredNames(ts[kw..]))
      == AddDeclared(ns0 + StatementNames(ts[kw + 1..]).value.0, count + (if ts[kw] == ".names" then 1 else 0), DeclaredNames(ts[next..]))
  {
    assert ts[kw..][1..] == ts[kw + 1..];
    var ns := StatementNames(ts[kw + 1..]).value.0;
    match DeclaredNames(ts[next..]) {
      case None =>
      case Some((more, c)) => assert ns0 + (ns + more) == (ns0 + ns) + more;
    }
  }

  /** Touching the words of `a + b` is touching those of `a`, then those of `b`. */
  lemma {:induction false} TouchAllSplit(vm: map<string, int>, a: seq<string>, b: seq<string>)
    ensures TouchAll(vm, a + b) == TouchAll(TouchAll(vm, a), b)
    decreases |a|
  {
    if a != [] {
      assert (a + b)[0] == a[0] && (a + b)[1..] == a[1..] + b;
      TouchAllSplit(if a[0] in vm then vm else vm[a[0] := 0], a[1..], b);
    }
  }

  /** Touching one more input name: its id is the one the untouched map gives. */
  lemma InputIdStep(vm: map<string, int>, a: seq<string>, w: string)
    ensures TouchAll(vm, a + [w]) == TouchAll(TouchAll(vm, a), [w])
    ensures VarId(TouchAll(vm, a), w) == VarId(vm, w)
    ensures Seqs.Elems(Ids(vm, a + [w])) == Seqs.Elems(Ids(vm, a)) + {VarId(vm, w)}
  {
    TouchAllSplit(vm, a, [w]);
    assert Ids(vm, a + [w]) == Ids(vm, a) + [VarId(vm, w)];
  }

  /** Reading one more name of a list line: how the ids, touches and clears compose. */
  lemma ListStep(vm: map<string, int>, t: string, ws: seq<string>, nm: map<int, seq<int>>, bm: map<int, (Bdd, bool)>)
    ensures Ids(vm, [t] + ws) == [VarId(vm, t)] + Ids(TouchAll(vm, [t]), ws)
    ensures TouchAll(vm, [t] + ws) == TouchAll(TouchAll(vm, [t]), ws)
    ensures ClearDependencies(nm, Ids(vm, [t] + ws)) == ClearDependencies(nm[VarId(vm, t) := []], Ids(TouchAll(vm, [t]), ws))
    ensures SeedInputs(bm, Ids(vm, [t] + ws))
      == SeedInputs(bm[VarId(vm, t) := (Var(VarId(vm, t)), false)], Ids(TouchAll(vm, [t]), ws))
  {
    assert ([t] + ws)[1..] == ws;
    assert Ids(TouchAll(vm, [t]), ws) == Ids(vm, ws);
    assert Ids(vm, [t] + ws) == [VarId(vm, t)] + Ids(vm, ws);
    assert ([VarId(vm, t)] + Ids(vm, ws))[1..] == Ids(vm, ws);
  }

  /**
   * A list line that starts with a name: the line is that name followed by
   * the rest of the line, and what the list methods build composes accordingly.
   */
  lemma LineStep(ts: seq<string>, vm: map<string, int>, nm: map<int, seq<int>>, bm: map<int, (Bdd, bool)>,
                 words0: seq<string>, ids0: seq<int>)
    requires ts != [] && ts[0] != "\n" && Line(ts[1..]).Some?
    ensures Line(ts).Some? && Line(ts).value.1 == Line(ts[1..]).value.1
    ensures var (t, ws, line) := (ts[0], Line(ts[1..]).value.0, Line(ts).value.0);
      var (v, touched) := (VarId(vm, t), TouchAll(vm, [t]));
      words0 + [t] + ws == words0 + line
      && ids0 + [v] + Ids(touched, ws) == ids0 + Ids(vm, line)
      && TouchAll(touched, ws) == TouchAll(vm, line)
      && ClearDependencies(nm[v := []], Ids(touched, ws)) == ClearDependencies(nm, Ids(vm, line))
      && SeedInputs(bm[v := (Var(v), false)], Ids(touched, ws)) == SeedInputs(bm, Ids(vm, line))
  {
    var (t, ws) := (ts[0], Line(ts[1..]).value.0);
    assert Line(ts).value.0 == [t] + ws;
    ListStep(vm, t, ws, nm, bm);
    assert words0 + [t] + ws == words0 + ([t] + ws);
    assert ids0 + [VarId(vm, t)] + Ids(TouchAll(vm, [t]), ws) == ids0 + ([VarId(vm, t)] + Ids(TouchAll(vm, [t]), ws));
  }

  /** Reading one truth-table row: the rows of the rest, with this one in front. */
  lemma RowsStep(ts: seq<string>, rows: seq<Row>)
    requires |ts| >= 2 && ts[0] != ".names" && ts[0] != ".end"
    ensures SkipNewlines(ts[2..]).None? ==> ReadRows(ts).None?
    ensures SkipNewlines(ts[2..]).Some? ==>
      PrependRows(rows, ReadRows(ts)) == PrependRows(rows + [(ts[0], ts[1])], ReadRows(SkipNewlines(ts[2..]).value))
  {
    if SkipNewlines(ts[2..]).Some? {
      match ReadRows(SkipNewlines(ts[2..]).value) {
        case None =>
        case Some((more, rest)) => assert rows + ([(ts[0], ts[1])] + more) == rows + [(ts[0], ts[1])] + more;
      }
    }
  }

  /** What the row loops know: the cover and last output of the rows read so far, and the rows still to read. */
  ghost predicate RowsRead(fs: seq<Bdd>, tokens0: seq<string>, rows: seq<Row>, ts: seq<string>, paths: Bdd, output: string)
  {
    paths == Cover(fs, rows) && output == LastOutput(rows)
    && PrependRows(rows, ReadRows(ts)) == ReadRows(tokens0)
  }

  lemma RowsReadStart(fs: seq<Bdd>, tokens0: seq<string>)
    ensures RowsRead(fs, tokens0, [], tokens0, False, "")
  {
    match ReadRows(tokens0) {
      case None =>
      case Some((more, rest)) => assert [] + more == more;
    }
  }

  /** One row of the loop: the row is read, and the cover grows by its term. */
  lemma RowsReadStep(fs: seq<Bdd>, tokens0: seq<string>, rows: seq<Row>, ts: seq<string>, paths: Bdd, output: string)
    requires RowsRead(fs, tokens0, rows, ts, paths, output)
    requires |ts| >= 2 && ts[0] != ".names" && ts[0] != ".end"
    ensures SkipNewlines(ts[2..]).None? ==> ReadRows(tokens0).None?
    ensures SkipNewlines(ts[2..]).Some? ==>
      RowsRead(fs, tokens0, rows + [(ts[0], ts[1])], SkipNewlines(ts[2..]).value, Or(paths, RowTerm(RowLits(fs, ts[0]))), ts[1])
  {
    RowsStep(ts, rows);
    CoverStep(fs, rows, (ts[0], ts[1]));
  }

  /** The loop stops: at a `.names` or `.end` the rows are all read; a list that runs out is an error. */
  lemma RowsReadEnd(fs: seq<Bdd>, tokens0: seq<string>, rows: seq<Row>, ts: seq<string>, paths: Bdd, output: string)
    requires RowsRead(fs, tokens0, rows, ts, paths, output)
    requires ts == [] || ts[0] == ".names" || ts[0] == ".end" || |ts| < 2
    ensures ts != [] && (ts[0] == ".names" || ts[0] == ".end") ==> ReadRows(tokens0) == Some((rows, ts))
    ensures !(ts != [] && (ts[0] == ".names" || ts[0] == ".end")) ==> ReadRows(tokens0).None?
  {
    assert rows + [] == rows;
  }

  /** Skipping newline tokens one at a time. */
  lemma SkipStep(ts: seq<string>)
    requires ts != [] && ts[0] == "\n"
    ensures SkipNewlines(ts) == SkipNewlines(ts[1..])
  {
  }

  /** One more literal of a row term. */
  lemma RowTermStep(lits: seq<(Bdd, char)>, j: nat)
    requires j < |lits|
    ensures var (f, bit) := lits[j];
      var t := RowTerm(lits[..j]);
      RowTerm(lits[..j + 1]) == if bit == '-' then t else if bit == '1' then And(t, f) else And(t, Not(f))
  {
    assert lits[..j + 1][..j] == lits[..j];
  }

  /** One more row of a cover. */
  lemma CoverStep(fs: seq<Bdd>, rows: seq<Row>, r: Row)
    ensures Cover(fs, rows + [r]) == Or(Cover(fs, rows), RowTerm(RowLits(fs, r.0)))
    ensures LastOutput(rows + [r]) == r.1
  {
    assert (rows + [r])[..|rows|] == rows;
  }

  /** The gate relation from the accumulated cover and the last row's output. */
  lemma GateRelationStep(paths: Bdd, output: string, fs: seq<Bdd>, rows: seq<Row>, out: int)
    requires paths == Cover(fs, rows) && output == LastOutput(rows)
    ensures GateRelation(fs, rows, out) == if output == "1" then Xnor(paths, Var(out)) else Xor(paths, Var(out))
  {
  }

  /** The stored gate function from the accumulated cover and the last row's output. */
  lemma GateFunctionStep(paths: Bdd, output: string, fs: seq<Bdd>, rows: seq<Row>)
    requires paths == Cover(fs, rows) && output == LastOutput(rows)
    ensures GateFunction(fs, rows) == if output == "1" then paths else Not(paths)
  {
  }

  /** Flagging the inputs of one more row. */
  lemma MarkRowsStep(bddMap: map<int, (Bdd, bool)>, ins: seq<int>, rows: seq<Row>, r: Row)
    ensures MarkRows(bddMap, ins, rows + [r]) == MarkRow(MarkRows(bddMap, ins, rows), ins, r.0, |ins|)
  {
    assert (rows + [r])[..|rows|] == rows;
  }

  /** Running a statement list that starts with `st`. */
  lemma ExecCons(s: Snapshot, st: Statement, sts: seq<Statement>, mode: Parsing)
    requires NamesHaveOutput([st] + sts)
    ensures NamesHaveOutput(sts) && (st.Names? ==> st.nameWords != [])
    ensures Exec(s, [st] + sts, mode) == Exec(Step(s, st, mode), sts, mode)
  {
    assert ([st] + sts)[1..] == sts;
    assert ([st] + sts)[0] == st;
    forall k | 0 <= k < |sts| && sts[k].Names? ensures sts[k].nameWords != [] {
      assert ([st] + sts)[k + 1] == sts[k];
    }
  }

  /** Names numbered consecutively from start get distinct ids in [start, start + |vars|). */
  lemma Numbered(vars: seq<string>, start: int, varMap: map<string, int>)
    requires Seqs.Distinct(vars) && varMap.Keys == Seqs.Elems(vars)
    requires forall k :: 0 <= k < |vars| ==> varMap[vars[k]] == start + k
    ensures |varMap.Keys| == |vars|
    ensures forall w :: w in varMap ==> start <= varMap[w] < start + |vars|
    ensures forall w, x :: w in varMap && x in varMap && w != x ==> varMap[w] != varMap[x]
  {
    Seqs.DistinctCard(vars);
    forall w, x | w in varMap && x in varMap && w != x
      ensures varMap[w] != varMap[x]
    {
      var p :| 0 <= p < |vars| && vars[p] == w;
      var q :| 0 <= q < |vars| && vars[q] == x;
    }
    forall w | w in varMap
      ensures start <= varMap[w] < start + |vars|
    {
      var p :| 0 <= p < |vars| && vars[p] == w;
    }
  }

  class BlifParser {
    var name: string
    var tokens: seq<string>
    var currentToken: string
    var inputs: seq<string>
    var outputs: seq<string>
    var varOrder: seq<int>
    var names: seq<int>
    var namesMap: map<int, seq<int>>
    var varMap: map<string, int>
    var constructTotal: int
    var constructCounter: int
    var varCounter: int
    var result: Bdd
    var currentBdd: Bdd
    var bddMap: map<int, (Bdd, bool)>
    const parsing: Parsing

    function State(): Snapshot
      reads this
    {
      Snapshot(name, inputs, outputs, names, namesMap, varMap, constructCounter, result, currentBdd, bddMap)
    }

    /** A parser for the tokens of a netlist: result starts true and the gate function false. */
    constructor (input: seq<string>, mode: Parsing)
      ensures tokens == input && parsing == mode && currentToken == ""
      ensures State() == Snapshot("", [], [], [], map[], map[], 0, True, False, map[])
      ensures varOrder == [] && constructTotal == 0 && varCounter == 0
    {
      name := "";
      tokens := input;
      currentToken := "";
      inputs := [];
      outputs := [];
      varOrder := [];
      names := [];
      namesMap := map[];
      varMap := map[];
      constructTotal := 0;
      constructCounter := 0;
      varCounter := 0;
      result := True;
      currentBdd := False;
      bddMap := map[];
      parsing := mode;
    }

    /** Takes the front token (the list must not be empty). */
    method GetToken() returns (t: string)
      requires tokens != []
      modifies this`tokens, this`currentToken
      ensures t == currentToken == old(tokens)[0] && tokens == old(tokens)[1..]
    {
      currentToken := tokens[0];
      tokens := tokens[1..];
      t := currentToken;
    }

    /** `var_map[w]`: the id of w, inserting w with id 0 when absent. */
    method VarIdOf(w: string) returns (v: int)
      modifies this`varMap
      ensures v == VarId(old(varMap), w) && varMap == TouchAll(old(varMap), [w])
    {
      if w !in varMap {
        varMap := varMap[w := 0];
      }
      v := varMap[w];
    }

    /**
     * One statement line of `initial_parse`'s scan, from index `start` to its
     * "\n": adds its names to `vars` (once each) and returns the index after
     * the "\n"; fails when the line runs past the end of the list.
     */
    method StatementWords(start: nat, vars0: seq<string>) returns (ok: bool, next: nat, vars: seq<string>)
      requires start <= |tokens| && Seqs.Distinct(vars0)
      ensures ok <==> StatementNames(tokens[start..]).Some?
      ensures ok ==>
        var (ns, rest) := StatementNames(tokens[start..]).value;
        next <= |tokens| && tokens[next..] == rest
        && Seqs.Distinct(vars) && Seqs.Elems(vars) == Seqs.Elems(vars0) + ns
    {
      var ts := tokens;
      vars := vars0;
      var i := start;
      ghost var stmt: set<string> := {};
      ScanStart(ts, start, vars0);
      while true
        invariant ScanInv(ts, start, i, vars0, vars, stmt)
        decreases |ts| - i
      {
        if i >= |ts| {
          return false, i, vars;
        }
        if ts[i] == "\n" {
          break;
        }
        if ts[i] == "\\" && i + 1 >= |ts| {
          assert ts[i..] == [ts[i]];
          return false, i, vars;
        }
        ScanStep(ts, start, i, vars0, vars, stmt);
        var q := if ts[i] == "\\" then i + 1 else i;
        vars, stmt := if ts[q] !in vars then vars + [ts[q]] else vars, stmt + {ts[q]};
        i := q + 1;
      }
      assert ts[i..][1..] == ts[i + 1..];
      return true, i + 1, vars;
    }

    /**
     * The scan of `initial_parse`: collects every name after `.inputs`,
     * `.outputs` and `.names` (a "\\" token makes the next token a name),
     * once each, and counts the `.names` statements. Fails when a statement
     * runs past the end of the list.
     */
    method CollectNames() returns (ok: bool, vars: seq<string>)
      modifies this`constructTotal
      ensures ok <==> DeclaredNames(tokens).Some?
      ensures ok ==>
        Seqs.Distinct(vars) && Seqs.Elems(vars) == DeclaredNames(tokens).value.0
        && constructTotal == old(constructTotal) + DeclaredNames(tokens).value.1
    {
      // the unordered set of names, kept here in the order first met
      vars := [];
      var i := 0;
      assert tokens[i..] == tokens;
      assert Seqs.Elems(vars) == {};
      match DeclaredNames(tokens) {
        case None =>
        case Some((ns, c)) => assert {} + ns == ns;
      }
      while i < |tokens|
        invariant 0 <= i <= |tokens|
        invariant Seqs.Distinct(vars) && constructTotal >= old(constructTotal)
        invariant DeclaredNames(tokens)
          == AddDeclared(Seqs.Elems(vars), constructTotal - old(constructTotal), DeclaredNames(tokens[i..]))
      {
        if tokens[i] in Keywords {
          ghost var kw := i;
          ghost var e0, n0 := Seqs.Elems(vars), constructTotal - old(constructTotal);
          if tokens[i] == ".names" {
            constructTotal := constructTotal + 1;
          }
          i := i + 1;
          assert tokens[kw..][1..] == tokens[i..];
          var stated;
          stated, i, vars := StatementWords(i, vars);
          if !stated {
            return false, vars;
          }
          DeclaredStep(tokens, kw, e0, n0, i);
        } else {
          assert tokens[i..][1..] == tokens[i + 1..];
          i := i + 1;
        }
      }
      ok := true;
    }

    /**
     * Numbers the distinct names collected by the scan consecutively from
     * `var_counter`. Fails when a statement runs past the end of the list.
     */
    method InitialParse() returns (ok: bool)
      modifies this`varMap, this`varCounter, this`constructTotal
      ensures ok <==> DeclaredNames(tokens).Some?
      ensures ok ==>
        var (declared, count) := DeclaredNames(tokens).value;
        varMap.Keys == declared
        && varCounter == old(varCounter) + |declared|
        && constructTotal == old(constructTotal) + count
        && (forall w :: w in varMap ==> old(varCounter) <= varMap[w] < varCounter)
        && (forall w, x :: w in varMap && x in varMap && w != x ==> varMap[w] != varMap[x])
    {
      var vars;
      ok, vars := CollectNames();
      if !ok {
        return;
      }
      ghost var start := varCounter;
      ghost var total := constructTotal;
      varMap := map[];
      var j := 0;
      while j < |vars|
        invariant 0 <= j <= |vars|
        invariant varCounter == start + j && constructTotal == total
        invariant varMap.Keys == Seqs.Elems(vars[..j])
        invariant forall k :: 0 <= k < j ==> varMap[vars[k]] == start + k
      {
        varMap := varMap[vars[j] := varCounter];
        varCounter := varCounter + 1;
        j := j + 1;
      }
      assert vars[..j] == vars;
      Numbered(vars, start, varMap);
    }
  
    /** `.inputs` in characteristic mode: each name of the line is recorded as a netlist input with no dependencies. */
    method InputsList() returns (ok: bool)
      modifies this`tokens, this`currentToken, this`inputs, this`varMap, this`namesMap
      ensures ok <==> Line(old(tokens)).Some?
      ensures ok ==>
        var (ws, rest) := Line(old(tokens)).value;
        tokens == rest && currentToken == "\n" && inputs == old(inputs) + ws
        && varMap == TouchAll(old(varMap), ws)
        && namesMap == ClearDependencies(old(namesMap), Ids(old(varMap), ws))
      decreases |tokens|
    {
      if tokens == [] {
        return false;
      }
      var t := GetToken();
      if t == "\n" {
        return true;
      }
      inputs := inputs + [t];
      var v := VarIdOf(t);
      namesMap := namesMap[v := []];
      ghost var (vm0, nm0, in0) := (old(varMap), old(namesMap), old(inputs));
      ok := InputsList();
      if ok {
        LineStep(old(tokens), vm0, nm0, map[], in0, []);
      }
    }

    /** `.inputs` in output mode: as in characteristic mode, and each input's stored function is its own variable, not yet used. */
    method InputsListOutput() returns (ok: bool)
      modifies this`tokens, this`currentToken, this`inputs, this`varMap, this`namesMap, this`bddMap
      ensures ok <==> Line(old(tokens)).Some?
      ensures ok ==>
        var (ws, rest) := Line(old(tokens)).value;
        tokens == rest && currentToken == "\n" && inputs == old(inputs) + ws
        && varMap == TouchAll(old(varMap), ws)
        && namesMap == ClearDependencies(old(namesMap), Ids(old(varMap), ws))
        && bddMap == SeedInputs(old(bddMap), Ids(old(varMap), ws))
      decreases |tokens|
    {
      if tokens == [] {
        return false;
      }
      var t := GetToken();
      if t == "\n" {
        return true;
      }
      inputs := inputs + [t];
      var v := VarIdOf(t);
      bddMap := bddMap[v := (Var(v), false)];
      namesMap := namesMap[v := []];
      ghost var (vm0, nm0, bm0, in0) := (old(varMap), old(namesMap), old(bddMap), old(inputs));
      ok := InputsListOutput();
      if ok {
        LineStep(old(tokens), vm0, nm0, bm0, in0, []);
      }
    }

    /** `.outputs`: each name of the line is recorded as a netlist output. */
    method OutputsList() returns (ok: bool)
      modifies this`tokens, this`currentToken, this`outputs
      ensures ok <==> Line(old(tokens)).Some?
      ensures ok ==>
        var (ws, rest) := Line(old(tokens)).value;
        tokens == rest && currentToken == "\n" && outputs == old(outputs) + ws
      decreases |tokens|
    {
      if tokens == [] {
        return false;
      }
      var t := GetToken();
      if t == "\n" {
        return true;
      }
      outputs := outputs + [t];
      ghost var out0 := old(outputs);
      ok := OutputsList();
      if ok {
        LineStep(old(tokens), map[], map[], map[], out0, []);
      }
    }

    /** The name line of `.names`: the ids of its names are appended to `names`, the output's last. */
    method NamesList() returns (ok: bool)
      modifies this`tokens, this`currentToken, this`names, this`varMap
      ensures ok <==> Line(old(tokens)).Some?
      ensures ok ==>
        var (ws, rest) := Line(old(tokens)).value;
        tokens == rest && currentToken == "\n" && names == old(names) + Ids(old(varMap), ws)
        && varMap == TouchAll(old(varMap), ws)
      decreases |tokens|
    {
      if tokens == [] {
        return false;
      }
      var t := GetToken();
      if t == "\n" {
        return true;
      }
      var v := VarIdOf(t);
      names := names + [v];
      ghost var (vm0, n0) := (old(varMap), old(names));
      ok := NamesList();
      if ok {
        LineStep(old(tokens), vm0, map[], map[], [], n0);
      }
    }

    /** The gate's output (the last name) depends on all the other names, in order. */
    method BuildVarDependency()
      requires names != []
      modifies this`namesMap
      ensures namesMap == old(namesMap)[names[|names| - 1] := names[..|names| - 1]]
    {
      var output := names[|names| - 1];
      namesMap := namesMap[output := []];
      var i := 0;
      while i < |names| - 1
        invariant 0 <= i <= |names| - 1
        invariant namesMap == old(namesMap)[output := names[..i]]
      {
        assert names[..i + 1] == names[..i] + [names[i]];
        namesMap := namesMap[output := namesMap[output] + [names[i]]];
        i := i + 1;
      }
    }
  
    /** The term of one row in characteristic mode, over the input variables of `names`. */
    method CharacteristicRow(plane: string) returns (path: Bdd)
      requires names != []
      ensures path == RowTerm(RowLits(InputVars(names), plane))
    {
      ghost var fs := InputVars(names);
      path := True;
      var i := 0;
      while i < |names| - 1
        invariant 0 <= i <= |names| - 1
        invariant path == RowTerm(RowLits(fs, plane)[..i])
      {
        RowTermStep(RowLits(fs, plane), i);
        var bit := PlaneBit(plane, i);
        if bit != '-' {
          if bit == '1' {
            path := And(path, Var(names[i]));
          } else {
            path := And(path, Not(Var(names[i])));
          }
        }
        i := i + 1;
      }
      assert RowLits(fs, plane)[..i] == RowLits(fs, plane);
    }

    /** Skips "\n" tokens; fails when the list runs out first. */
    method SkipNewlineTokens() returns (ok: bool)
      modifies this`tokens, this`currentToken
      ensures ok <==> SkipNewlines(old(tokens)).Some?
      ensures ok ==> tokens == SkipNewlines(old(tokens)).value
    {
      while true
        invariant SkipNewlines(tokens) == SkipNewlines(old(tokens))
        decreases |tokens|
      {
        if tokens == [] {
          return false;
        }
        if tokens[0] != "\n" {
          return true;
        }
        SkipStep(tokens);
        var _ := GetToken();
      }
    }

    /**
     * The truth table of a `.names` statement in characteristic mode: each
     * row conjoins the input variables at its '1' positions and their
     * negations at the other non-'-' positions; the rows are disjoined, and
     * the gate becomes the XNOR (output "1") or XOR (otherwise) of that
     * disjunction with the output variable.
     */
    method NamesContentCharacteristic() returns (ok: bool)
      requires names != []
      modifies this`tokens, this`currentToken, this`currentBdd
      ensures ok <==> ReadRows(old(tokens)).Some?
      ensures ok ==>
        var (rows, rest) := ReadRows(old(tokens)).value;
        tokens == rest && currentBdd == GateRelation(InputVars(names), rows, names[|names| - 1])
    {
      var inputPaths := False;
      var output := "";
      ghost var fs := InputVars(names);
      ghost var rows: seq<Row> := [];
      ghost var tokens0 := tokens;
      RowsReadStart(fs, tokens0);
      while true
        invariant RowsRead(fs, tokens0, rows, tokens, inputPaths, output)
        decreases |tokens|
      {
        if tokens == [] || tokens[0] == ".names" || tokens[0] == ".end" || |tokens| < 2 {
          RowsReadEnd(fs, tokens0, rows, tokens, inputPaths, output);
          if tokens != [] && (tokens[0] == ".names" || tokens[0] == ".end") {
            break;
          }
          return false;
        }
        RowsReadStep(fs, tokens0, rows, tokens, inputPaths, output);
        ghost var at := tokens;
        var plane := GetToken();
        output := GetToken();
        assert tokens == at[2..];
        var path := CharacteristicRow(plane);
        inputPaths := Or(inputPaths, path);
        var more := SkipNewlineTokens();
        if !more {
          return false;
        }
        rows := rows + [(plane, output)];
      }
      assert ReadRows(tokens0).value == (rows, tokens);
      GateRelationStep(inputPaths, output, fs, rows, names[|names| - 1]);
      var outputVar := Var(names[|names| - 1]);
      if output == "1" {
        currentBdd := Xnor(inputPaths, outputVar);
      } else {
        currentBdd := Xor(inputPaths, outputVar);
      }
      ok := true;
    }
  
    /**
     * The term of one row in output mode: the stored functions of the inputs
     * the row cares about (`bdd_map[v].first`), each flagged as used.
     */
    method OutputRow(plane: string, ghost fs: seq<Bdd>) returns (path: Bdd)
      requires names != [] && fs == InputFunctions(bddMap, names)
      modifies this`bddMap
      ensures path == RowTerm(RowLits(fs, plane))
      ensures bddMap == MarkRow(old(bddMap), names[..|names| - 1], plane, |names| - 1)
      ensures forall v :: StoredFunction(bddMap, v) == StoredFunction(old(bddMap), v)
      ensures InputFunctions(bddMap, names) == fs
    {
      ghost var ins := names[..|names| - 1];
      path := True;
      var i := 0;
      while i < |names| - 1
        invariant 0 <= i <= |names| - 1
        invariant path == RowTerm(RowLits(fs, plane)[..i])
        invariant bddMap == MarkRow(old(bddMap), ins, plane, i)
        invariant forall v :: StoredFunction(bddMap, v) == StoredFunction(old(bddMap), v)
      {
        RowTermStep(RowLits(fs, plane), i);
        var bit := PlaneBit(plane, i);
        if bit != '-' {
          var v := names[i];
          var f := if v in bddMap then bddMap[v].0 else False;
          bddMap := bddMap[v := (f, true)];
          if bit == '1' {
            path := And(path, f);
          } else {
            path := And(path, Not(f));
          }
        }
        i := i + 1;
      }
      assert RowLits(fs, plane)[..i] == RowLits(fs, plane);
      assert InputFunctions(bddMap, names) == fs;
    }

    /**
     * The truth table of a `.names` statement in output mode: the rows'
     * terms over the inputs' stored functions are disjoined, every input a
     * row cares about is flagged as used, and the output's entry becomes the
     * disjunction (output "1") or its negation (otherwise), not yet used.
     */
    method NamesContentOutput() returns (ok: bool)
      requires names != []
      modifies this`tokens, this`currentToken, this`bddMap
      ensures ok <==> ReadRows(old(tokens)).Some?
      ensures ok ==>
        var (rows, rest) := ReadRows(old(tokens)).value;
        tokens == rest
        && bddMap == MarkRows(old(bddMap), names[..|names| - 1], rows)[names[|names| - 1] :=
             (GateFunction(InputFunctions(old(bddMap), names), rows), false)]
    {
      var inputPaths := False;
      var output := "";
      ghost var fs := InputFunctions(bddMap, names);
      ghost var ins := names[..|names| - 1];
      ghost var rows: seq<Row> := [];
      ghost var tokens0 := tokens;
      RowsReadStart(fs, tokens0);
      while true
        invariant RowsRead(fs, tokens0, rows, tokens, inputPaths, output)
        invariant bddMap == MarkRows(old(bddMap), ins, rows)
        invariant InputFunctions(bddMap, names) == fs
        decreases |tokens|
      {
        if tokens == [] || tokens[0] == ".names" || tokens[0] == ".end" || |tokens| < 2 {
          RowsReadEnd(fs, tokens0, rows, tokens, inputPaths, output);
          if tokens != [] && (tokens[0] == ".names" || tokens[0] == ".end") {
            break;
          }
          return false;
        }
        RowsReadStep(fs, tokens0, rows, tokens, inputPaths, output);
        ghost var at := tokens;
        var plane := GetToken();
        output := GetToken();
        assert tokens == at[2..];
        MarkRowsStep(old(bddMap), ins, rows, (plane, output));
        var path := OutputRow(plane, fs);
        inputPaths := Or(inputPaths, path);
        var more := SkipNewlineTokens();
        if !more {
          return false;
        }
        rows := rows + [(plane, output)];
      }
      assert ReadRows(tokens0).value == (rows, tokens);
      GateFunctionStep(inputPaths, output, fs, rows);
      if output == "1" {
        bddMap := bddMap[names[|names| - 1] := (inputPaths, false)];
      } else {
        bddMap := bddMap[names[|names| - 1] := (Not(inputPaths), false)];
      }
      ok := true;
    }
  
    /**
     * The name line of a `.names` statement: the ids of its names, the
     * output's last, and the output's dependencies. Fails on an empty line.
     */
    method NamesHeader() returns (ok: bool)
      modifies this`tokens, this`currentToken, this`names, this`namesMap, this`varMap
      ensures ok <==> Line(old(tokens)).Some? && Line(old(tokens)).value.0 != []
      ensures ok ==>
        var (ws, rest) := Line(old(tokens)).value;
        tokens == rest && names == Ids(old(varMap), ws) && varMap == TouchAll(old(varMap), ws)
        && namesMap == old(namesMap)[names[|names| - 1] := names[..|names| - 1]]
    {
      ghost var ts := tokens;
      names := [];
      ok := NamesList();
      if !ok {
        return;
      }
      ghost var ids := Ids(old(varMap), Line(ts).value.0);
      assert names == ids by {
        assert [] + ids == ids;
      }
      if names == [] {
        return false;
      }
      BuildVarDependency();
    }

    /**
     * A `.names` statement after its keyword: reads the name line, records
     * the output's dependencies and compiles the truth table, in
     * characteristic mode conjoining the gate relation into `result`, in
     * output mode storing the gate function.
     */
    method NamesStatement() returns (ok: bool)
      modifies this`tokens, this`currentToken, this`names, this`namesMap, this`varMap,
        this`constructCounter, this`result, this`currentBdd, this`bddMap
      ensures ok <==> NamesRead(old(tokens)).Some?
      ensures ok ==>
        var (ws, rows, rest) := NamesRead(old(tokens)).value;
        tokens == rest && State() == NamesStep(old(State()), ws, rows, parsing)
    {
      ghost var s0 := State();
      ok := NamesHeader();
      if !ok {
        return;
      }
      ghost var ws := Line(old(tokens)).value.0;
      assert State() == NamesLineStep(s0, ws);
      if parsing == CharacteristicFunction {
        ok := NamesTableCharacteristic(s0, ws);
      } else {
        ok := NamesTableOutput(s0, ws);
      }
    }

    /** The truth table of `.names` in characteristic mode, after its name line `ws`. */
    method NamesTableCharacteristic(ghost s0: Snapshot, ghost ws: seq<string>) returns (ok: bool)
      requires parsing == CharacteristicFunction && ws != [] && State() == NamesLineStep(s0, ws)
      modifies this`tokens, this`currentToken, this`constructCounter, this`result, this`currentBdd
      ensures ok <==> ReadRows(old(tokens)).Some?
      ensures ok ==>
        var (rows, rest) := ReadRows(old(tokens)).value;
        tokens == rest && State() == NamesStep(s0, ws, rows, parsing)
    {
      ok := NamesContentCharacteristic();
      if !ok {
        return;
      }
      result := And(currentBdd, result);
      currentBdd := False;
      constructCounter := constructCounter + 1;
    }

    /** The truth table of `.names` in output mode, after its name line `ws`. */
    method NamesTableOutput(ghost s0: Snapshot, ghost ws: seq<string>) returns (ok: bool)
      requires parsing == OutputFunction && ws != [] && State() == NamesLineStep(s0, ws)
      modifies this`tokens, this`currentToken, this`bddMap
      ensures ok <==> ReadRows(old(tokens)).Some?
      ensures ok ==>
        var (rows, rest) := ReadRows(old(tokens)).value;
        tokens == rest && State() == NamesStep(s0, ws, rows, parsing)
    {
      ok := NamesContentOutput();
    }

    /** `.inputs` after its keyword, in either mode. */
    method InputsStatement() returns (ok: bool)
      modifies this`tokens, this`currentToken, this`inputs, this`varMap, this`namesMap, this`bddMap
      ensures ok <==> Line(old(tokens)).Some?
      ensures ok ==>
        var (ws, rest) := Line(old(tokens)).value;
        tokens == rest && State() == Step(old(State()), Inputs(ws), parsing)
    {
      if parsing == CharacteristicFunction {
        ok := InputsList();
      } else {
        ok := InputsListOutput();
      }
    }

    /** `.outputs` after its keyword. */
    method OutputsStatement() returns (ok: bool)
      modifies this`tokens, this`currentToken, this`outputs
      ensures ok <==> Line(old(tokens)).Some?
      ensures ok ==>
        var (ws, rest) := Line(old(tokens)).value;
        tokens == rest && State() == Step(old(State()), Outputs(ws), parsing)
    {
      ok := OutputsList();
    }

    /**
     * One round of the dispatch in either mode: reads a keyword and its
     * statement; `.end` reads one more token and ends the statement list
     * (`done`); a token that starts no statement is reported and skipped.
     */
    method ParseStatement() returns (ok: bool, done: bool)
      modifies this`tokens, this`currentToken, this`name, this`inputs, this`outputs, this`names,
        this`namesMap, this`varMap, this`constructCounter, this`result, this`currentBdd, this`bddMap
      ensures ok <==> NextStatement(old(tokens)).Some?
      ensures ok ==>
        var (st, rest) := NextStatement(old(tokens)).value;
        tokens == rest && (done <==> st.None?)
        && State() == (if st.None? then old(State()) else Step(old(State()), st.value, parsing))
    {
      if tokens == [] {
        return false, false;
      }
      ghost var ts := tokens;
      var t := GetToken();
      assert ts == [t] + tokens;
      done := false;
      if t !in Directives {
        assert NextStatement(ts) == Some((Some(Unsupported(t)), tokens));
        ok := true;
      } else if t == ".end" {
        if tokens == [] {
          return false, false;
        }
        var _ := GetToken();
        return true, true;
      } else if t == ".model" {
        if |tokens| < 2 {
          return false, false;
        }
        ghost var more := tokens;
        name := GetToken();
        var _ := GetToken();
        assert NextStatement(ts) == Some((Some(Model(name)), more[2..]));
        ok := true;
      } else if t == ".names" {
        ok := NamesStatement();
      } else if t == ".inputs" {
        ok := InputsStatement();
      } else {
        ok := OutputsStatement();
      }
    }

    /**
     * `characteristic_function_parse`: runs the statements up to `.end` and
     * the token after it, conjoining each `.names` gate's relation into
     * `result`.
     */
    method CharacteristicFunctionParse() returns (ok: bool)
      requires parsing == CharacteristicFunction
      modifies this`tokens, this`currentToken, this`name, this`inputs, this`outputs, this`names,
        this`namesMap, this`varMap, this`constructCounter, this`result, this`currentBdd, this`bddMap
      ensures ok <==> Statements(old(tokens)).Some?
      ensures ok ==>
        var (sts, rest) := Statements(old(tokens)).value;
        NamesHaveOutput(sts) && tokens == rest && State() == Exec(old(State()), sts, CharacteristicFunction)
      decreases |tokens|
    {
      ghost var ts, s0 := tokens, State();
      StatementsHaveOutput(ts);
      var done;
      ok, done := ParseStatement();
      if !ok || done {
        return;
      }
      ghost var st := NextStatement(ts).value.0.value;
      ok := CharacteristicFunctionParse();
      if ok {
        ExecCons(s0, st, Statements(NextStatement(ts).value.1).value.0, CharacteristicFunction);
      }
    }

    /**
     * `output_function_parse`: runs the statements up to `.end` and the
     * token after it, storing each `.names` gate's function in `bdd_map`.
     */
    method OutputFunctionParse() returns (ok: bool)
      requires parsing == OutputFunction
      modifies this`tokens, this`currentToken, this`name, this`inputs, this`outputs, this`names,
        this`namesMap, this`varMap, this`constructCounter, this`result, this`currentBdd, this`bddMap
      ensures ok <==> Statements(old(tokens)).Some?
      ensures ok ==>
        var (sts, rest) := Statements(old(tokens)).value;
        NamesHaveOutput(sts) && tokens == rest && State() == Exec(old(State()), sts, OutputFunction)
      decreases |tokens|
    {
      ghost var ts, s0 := tokens, State();
      StatementsHaveOutput(ts);
      var done;
      ok, done := ParseStatement();
      if !ok || done {
        return;
      }
      ghost var st := NextStatement(ts).value.0.value;
      ok := OutputFunctionParse();
      if ok {
        ExecCons(s0, st, Statements(NextStatement(ts).value.1).value.0, OutputFunction);
      }
    }
  
    /**
     * `variable_order_dfs`: a depth-first pre-order walk of `names_map` from
     * every id no gate uses as an input (the map's keys visited in the order
     * `keys`); in output mode the walk is then filtered to the ids of the
     * declared inputs, each of which `var_map[name]` touches.
     */
    method VariableOrderDfs(keys: seq<int>) returns (ghost walk: seq<int>)
      requires Seqs.Elems(keys) == namesMap.Keys
      modifies this`varOrder, this`varMap
      ensures walk == BlifOrder.DfsWalk(namesMap, keys)
      ensures Seqs.Distinct(walk) && Seqs.Elems(walk) <= BlifOrder.Universe(namesMap)
      ensures BlifOrder.RootIds(namesMap) <= Seqs.Elems(walk)
      ensures BlifOrder.ChildrenIn(namesMap, Seqs.Elems(walk), Seqs.Elems(walk))
      ensures parsing == CharacteristicFunction ==> varOrder == walk && varMap == old(varMap)
      ensures parsing == OutputFunction ==>
        varMap == TouchAll(old(varMap), inputs)
        && varOrder == BlifOrder.Filter(walk, Seqs.Elems(Ids(old(varMap), inputs)))
    {
      varOrder := BlifOrder.DfsOrder(namesMap, keys);
      walk := varOrder;
      if parsing == CharacteristicFunction {
        return;
      }
      var used := InputIdSet();
      varOrder := BlifOrder.FilterToInputs(varOrder, used);
    }

    /** The ids `var_map[name]` gives the declared inputs, touching each name. */
    method InputIdSet() returns (used: set<int>)
      modifies this`varMap
      ensures varMap == TouchAll(old(varMap), inputs)
      ensures used == Seqs.Elems(Ids(old(varMap), inputs))
    {
      used := {};
      ghost var vm0 := varMap;
      for i := 0 to |inputs|
        invariant varMap == TouchAll(vm0, inputs[..i])
        invariant used == Seqs.Elems(Ids(vm0, inputs[..i]))
      {
        var v := VarIdOf(inputs[i]);
        InputIdStep(vm0, inputs[..i], inputs[i]);
        assert inputs[..i + 1] == inputs[..i] + [inputs[i]];
        used := used + {v};
      }
      assert inputs[..|inputs|] == inputs;
    }

    /**
     * `pick_result`: in characteristic mode the conjunction already built is
     * the result; in output mode the result becomes the unused stored
     * function with the most nodes, scanning in the map's iteration order
     * `keys`, which is a parameter here.
     * Fails when no unused stored function has a node, where the source
     * reads an uninitialised key.
     */
    method PickResult(keys: seq<int>, nodeCount: Bdd -> nat) returns (ok: bool)
      requires Seqs.Distinct(keys) && Seqs.Elems(keys) == bddMap.Keys
      modifies this`result
      ensures parsing == CharacteristicFunction ==> ok && result == old(result)
      ensures parsing == OutputFunction ==>
        (ok <==> exists v :: v in bddMap && !bddMap[v].1 && nodeCount(bddMap[v].0) > 0)
      ensures parsing == OutputFunction && ok ==>
        (exists b :: b in bddMap && !bddMap[b].1 && result == bddMap[b].0)
        && forall v :: v in bddMap && !bddMap[v].1 ==> nodeCount(bddMap[v].0) <= nodeCount(result)
      ensures parsing == OutputFunction && !ok ==> result == old(result)
    {
      if parsing == CharacteristicFunction {
        return true;
      }
      forall k | 0 <= k < |keys| ensures keys[k] in bddMap {
        assert keys[k] in Seqs.Elems(keys);
      }
      forall v | v in bddMap ensures v in keys {
        assert v in Seqs.Elems(keys);
      }
      var best, _ := BlifOrder.PickMax(keys, bddMap, nodeCount);
      if best.None? {
        assert forall v :: v in bddMap && !bddMap[v].1 ==> nodeCount(bddMap[v].0) == 0;
        return false;
      }
      result := bddMap[best.value].0;
      ok := true;
      assert best.value in bddMap && !bddMap[best.value].1 && nodeCount(bddMap[best.value].0) > 0;
    }
  }
}
