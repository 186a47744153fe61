/**
 * Reference definitions for the BLIF netlist compiler: how a token list
 * splits into statements, lines and truth-table rows, and which Boolean
 * function a `.names` truth table denotes.
 */
module BlifSpec {
  import opened BoolEngine
  import opened Optional

  const Keywords: set<string> := {".inputs", ".outputs", ".names"}

  /** `var_map[name]`: the id of a name; `operator[]` yields 0 for a name it does not hold. */
  function VarId(varMap: map<string, int>, name: string): int
  {
    if name in varMap then varMap[name] else 0
  }

  /**
   * The words of one statement line of `initial_parse`, up to its "\n"
   * token, and the tokens after that "\n". A "\\" token makes the next token
   * (even "\n") a name. None when the list ends first (an out-of-range read).
   */
  function StatementNames(ts: seq<string>): (r: Option<(set<string>, seq<string>)>)
    ensures r.Some? ==> |r.value.1| < |ts|
  {
    if ts == [] then None
    else if ts[0] == "\n" then Some(({}, ts[1..]))
    else if ts[0] == "\\" then
      if |ts| < 2 then None
      else
        match StatementNames(ts[2..])
        case None => None
        case Some((ns, rest)) => Some(({ts[1]} + ns, rest))
    else
      match StatementNames(ts[1..])
      case None => None
      case Some((ns, rest)) => Some(({ts[0]} + ns, rest))
  }

  /**
   * The names `initial_parse` collects from a token list and how many
   * `.names` statements it counts; None when a statement is cut off.
   */
  function DeclaredNames(ts: seq<string>): Option<(set<string>, nat)>
    decreases |ts|
  {
    if ts == [] then Some(({}, 0))
    else if ts[0] !in Keywords then DeclaredNames(ts[1..])
    else
      match StatementNames(ts[1..])
      case None => None
      case Some((ns, rest)) =>
        match DeclaredNames(rest)
        case None => None
        case Some((more, count)) => Some((ns + more, count + if ts[0] == ".names" then 1 else 0))
  }

  /** A collected name is always one of the tokens. */
  lemma {:induction false} StatementNamesAreTokens(ts: seq<string>)
    ensures StatementNames(ts).Some? ==>
      forall n :: n in StatementNames(ts).value.0 ==> n in ts
  {
    if ts != [] && ts[0] != "\n" {
      if ts[0] == "\\" {
        if |ts| >= 2 { StatementNamesAreTokens(ts[2..]); }
      } else {
        StatementNamesAreTokens(ts[1..]);
      }
    }
  }

  /** A statement's first word, when it is an ordinary word, is collected. */
  lemma DeclaredNamesHasFirstWord(ts: seq<string>)
    requires |ts| >= 2 && ts[0] in Keywords && ts[1] != "\n" && ts[1] != "\\"
    requires DeclaredNames(ts).Some?
    ensures ts[1] in DeclaredNames(ts).value.0
  {
  }

  lemma {:induction false} DeclaredNamesAreTokens(ts: seq<string>)
    ensures DeclaredNames(ts).Some? ==>
      forall n :: n in DeclaredNames(ts).value.0 ==> n in ts
    decreases |ts|
  {
    if ts != [] {
      if ts[0] !in Keywords {
        DeclaredNamesAreTokens(ts[1..]);
      } else {
        StatementNamesAreTokens(ts[1..]);
        match StatementNames(ts[1..]) {
          case None =>
          case Some((ns, rest)) =>
            DeclaredNamesAreTokens(rest);
            assert forall n :: n in rest ==> n in ts[1..] by {
              StatementRestIsSuffix(ts[1..]);
            }
        }
      }
    }
  }

  lemma {:induction false} StatementRestIsSuffix(ts: seq<string>)
    ensures StatementNames(ts).Some? ==>
      var rest := StatementNames(ts).value.1;
      rest == ts[|ts| - |rest|..]
  {
    if ts != [] && ts[0] != "\n" {
      if ts[0] == "\\" {
        if |ts| >= 2 { StatementRestIsSuffix(ts[2..]); }
      } else {
        StatementRestIsSuffix(ts[1..]);
      }
    }
  }

  /** The tokens of a list line up to its "\n", and what follows; None if no "\n" comes. */
  function Line(ts: seq<string>): (r: Option<(seq<string>, seq<string>)>)
    ensures r.Some? ==> |r.value.1| < |ts|
  {
    if ts == [] then None
    else if ts[0] == "\n" then Some(([], ts[1..]))
    else
      match Line(ts[1..])
      case None => None
      case Some((ws, rest)) => Some(([ts[0]] + ws, rest))
  }

  lemma {:induction false} LineHasNoNewline(ts: seq<string>)
    ensures Line(ts).Some? ==>
      var (ws, rest) := Line(ts).value;
      ts == ws + ["\n"] + rest && (forall k :: 0 <= k < |ws| ==> ws[k] != "\n")
  {
    if ts != [] && ts[0] != "\n" {
      LineHasNoNewline(ts[1..]);
      if Line(ts[1..]).Some? {
        var (ws, rest) := Line(ts[1..]).value;
        assert ts == [ts[0]] + ts[1..];
        assert [ts[0]] + ws + ["\n"] + rest == [ts[0]] + (ws + ["\n"] + rest);
      }
    }
  }

  /** Skipping "\n" tokens; None when the list runs out (a read past the end). */
  function SkipNewlines(ts: seq<string>): (r: Option<seq<string>>)
    ensures r.Some? ==> |r.value| <= |ts| && r.value != [] && r.value[0] != "\n"
  {
    if ts == [] then None
    else if ts[0] == "\n" then SkipNewlines(ts[1..])
    else Some(ts)
  }

  type Row = (string, string)

  /**
   * The truth-table rows of a `.names` statement, each an input plane and an
   * output token, up to the next `.names` or `.end`; None on running out.
   */
  function ReadRows(ts: seq<string>): (r: Option<(seq<Row>, seq<string>)>)
    ensures r.Some? ==> |r.value.1| <= |ts|
    decreases |ts|
  {
    if ts == [] then None
    else if ts[0] == ".names" || ts[0] == ".end" then Some(([], ts))
    else if |ts| < 2 then None
    else
      match SkipNewlines(ts[2..])
      case None => None
      case Some(next) =>
        match ReadRows(next)
        case None => None
        case Some((rows, rest)) => Some(([(ts[0], ts[1])] + rows, rest))
  }

  function PrependRows(rows: seq<Row>, r: Option<(seq<Row>, seq<string>)>): Option<(seq<Row>, seq<string>)>
  {
    match r
    case None => None
    case Some((more, rest)) => Some((rows + more, rest))
  }

  /** A row's bit for input i: past the end of the plane the string reads '\0'. */
  function PlaneBit(plane: string, i: nat): char
  {
    if i < |plane| then plane[i] else '\U{0}'
  }

  /** One literal of a row: '-' is a don't care, '1' the input, anything else its negation. */
  predicate LitHolds(f: Bdd, bit: char, a: Assignment)
  {
    bit == '-' || (Eval(f, a) <==> bit == '1')
  }

  /** The row term: the conjunction of the row's literals, first to last. */
  function RowTerm(lits: seq<(Bdd, char)>): Bdd
  {
    if lits == [] then True
    else
      var t := RowTerm(lits[..|lits| - 1]);
      var (f, bit) := lits[|lits| - 1];
      if bit == '-' then t else if bit == '1' then And(t, f) else And(t, Not(f))
  }

  /** The literals of a row: input function i paired with plane bit i. */
  function RowLits(fs: seq<Bdd>, plane: string): (r: seq<(Bdd, char)>)
    ensures |r| == |fs|
    ensures forall i :: 0 <= i < |fs| ==> r[i] == (fs[i], PlaneBit(plane, i))
  {
    seq(|fs|, i requires 0 <= i < |fs| => (fs[i], PlaneBit(plane, i)))
  }

  /** The disjunction of the row terms, first row first. */
  function Cover(fs: seq<Bdd>, rows: seq<Row>): Bdd
  {
    if rows == [] then False
    else Or(Cover(fs, rows[..|rows| - 1]), RowTerm(RowLits(fs, rows[|rows| - 1].0)))
  }

  /** The output token of the last row; "" when there is none. */
  function LastOutput(rows: seq<Row>): string
  {
    if rows == [] then "" else rows[|rows| - 1].1
  }

  /** A row term holds exactly when every literal does. */
  lemma {:induction false} RowTermMeaning(lits: seq<(Bdd, char)>, a: Assignment)
    ensures Eval(RowTerm(lits), a) <==> forall j :: 0 <= j < |lits| ==> LitHolds(lits[j].0, lits[j].1, a)
  {
    if lits != [] {
      var init := lits[..|lits| - 1];
      RowTermMeaning(init, a);
      assert forall j :: 0 <= j < |init| ==> init[j] == lits[j];
    }
  }

  /** Sorting a row's literals (as characteristic mode does) does not change its term. */
  lemma RowTermOrderFree(lits: seq<(Bdd, char)>, other: seq<(Bdd, char)>, a: Assignment)
    requires multiset(lits) == multiset(other)
    ensures Eval(RowTerm(lits), a) == Eval(RowTerm(other), a)
  {
    RowTermMeaning(lits, a);
    RowTermMeaning(other, a);
    forall j | 0 <= j < |other| ensures LitHolds(other[j].0, other[j].1, a) <== Eval(RowTerm(lits), a) {
      assert other[j] in multiset(lits);
      var k :| 0 <= k < |lits| && lits[k] == other[j];
    }
    forall j | 0 <= j < |lits| ensures LitHolds(lits[j].0, lits[j].1, a) <== Eval(RowTerm(other), a) {
      assert lits[j] in multiset(other);
      var k :| 0 <= k < |other| && other[k] == lits[j];
    }
  }

  /** A row matches an assignment when each of its cared-for bits agrees. */
  ghost predicate RowMatches(fs: seq<Bdd>, plane: string, a: Assignment)
  {
    forall i :: 0 <= i < |fs| ==> LitHolds(fs[i], PlaneBit(plane, i), a)
  }

  /** The cover holds exactly when some row matches. */
  lemma {:induction false} CoverMeaning(fs: seq<Bdd>, rows: seq<Row>, a: Assignment)
    ensures Eval(Cover(fs, rows), a) <==> exists r :: 0 <= r < |rows| && RowMatches(fs, rows[r].0, a)
  {
    if rows != [] {
      var init := rows[..|rows| - 1];
      CoverMeaning(fs, init, a);
      var last := rows[|rows| - 1].0;
      RowTermMeaning(RowLits(fs, last), a);
      if exists r :: 0 <= r < |rows| && RowMatches(fs, rows[r].0, a) {
        var r :| 0 <= r < |rows| && RowMatches(fs, rows[r].0, a);
        if r < |init| { assert init[r] == rows[r]; }
      }
      if exists r :: 0 <= r < |init| && RowMatches(fs, init[r].0, a) {
        var r :| 0 <= r < |init| && RowMatches(fs, init[r].0, a);
        assert init[r] == rows[r];
      }
    }
  }

  /**
   * The function a `.names` table stores in output mode: the cover when the
   * last row's output is "1", its negation otherwise (also with no rows).
   */
  function GateFunction(fs: seq<Bdd>, rows: seq<Row>): Bdd
  {
    if LastOutput(rows) == "1" then Cover(fs, rows) else Not(Cover(fs, rows))
  }

  /** The characteristic relation of a gate: XNOR or XOR of the cover and the output variable. */
  function GateRelation(fs: seq<Bdd>, rows: seq<Row>, out: int): Bdd
  {
    if LastOutput(rows) == "1" then Xnor(Cover(fs, rows), Var(out)) else Xor(Cover(fs, rows), Var(out))
  }

  /** The characteristic relation holds exactly when the output variable equals the gate function. */
  lemma GateRelationMeaning(fs: seq<Bdd>, rows: seq<Row>, out: int, a: Assignment)
    ensures Eval(GateRelation(fs, rows, out), a) <==> (a(out) == Eval(GateFunction(fs, rows), a))
  {
    var c := Cover(fs, rows);
    XnorMeaning(c, Var(out), a);
    XorMeaning(c, Var(out), a);
  }

  /** A table whose rows end in output "1" is on when some row matches, otherwise off when some row matches. */
  lemma GateFunctionMeaning(fs: seq<Bdd>, rows: seq<Row>, a: Assignment)
    ensures LastOutput(rows) == "1" ==>
      (Eval(GateFunction(fs, rows), a) <==> exists r :: 0 <= r < |rows| && RowMatches(fs, rows[r].0, a))
    ensures LastOutput(rows) != "1" ==>
      (Eval(GateFunction(fs, rows), a) <==> !exists r :: 0 <= r < |rows| && RowMatches(fs, rows[r].0, a))
  {
    CoverMeaning(fs, rows, a);
  }

  /** A `.names` statement with no rows compiles to constant true. */
  lemma EmptyTableIsTrue(fs: seq<Bdd>, a: Assignment)
    ensures Eval(GateFunction(fs, []), a)
  {
  }

  /** The input variables of a `.names` statement, as BDDs (characteristic mode). */
  function InputVars(names: seq<int>): (r: seq<Bdd>)
    requires |names| > 0
    ensures |r| == |names| - 1 && forall i :: 0 <= i < |r| ==> r[i] == Var(names[i])
  {
    seq(|names| - 1, i requires 0 <= i < |names| - 1 => Var(names[i]))
  }

  /** `bdd_map[v].first`, which is false for an id the map does not hold. */
  function StoredFunction(bddMap: map<int, (Bdd, bool)>, v: int): Bdd
  {
    if v in bddMap then bddMap[v].0 else False
  }

  /** The stored functions of a `.names` statement's inputs (output mode). */
  function InputFunctions(bddMap: map<int, (Bdd, bool)>, names: seq<int>): (r: seq<Bdd>)
    requires |names| > 0
    ensures |r| == |names| - 1 && forall i :: 0 <= i < |r| ==> r[i] == StoredFunction(bddMap, names[i])
  {
    seq(|names| - 1, i requires 0 <= i < |names| - 1 => StoredFunction(bddMap, names[i]))
  }

  /** Flags input id v as used, inserting (false, _) first when absent. */
  function MarkUsed(bddMap: map<int, (Bdd, bool)>, v: int): map<int, (Bdd, bool)>
  {
    bddMap[v := (StoredFunction(bddMap, v), true)]
  }

  /** Flags the inputs a row cares about (bit not '-'), among the first n inputs. */
  function MarkRow(bddMap: map<int, (Bdd, bool)>, inputs: seq<int>, plane: string, n: nat): map<int, (Bdd, bool)>
    requires n <= |inputs|
  {
    if n == 0 then bddMap
    else
      var m := MarkRow(bddMap, inputs, plane, n - 1);
      if PlaneBit(plane, n - 1) == '-' then m else MarkUsed(m, inputs[n - 1])
  }

  function MarkRows(bddMap: map<int, (Bdd, bool)>, inputs: seq<int>, rows: seq<Row>): map<int, (Bdd, bool)>
  {
    if rows == [] then bddMap
    else MarkRow(MarkRows(bddMap, inputs, rows[..|rows| - 1]), inputs, rows[|rows| - 1].0, |inputs|)
  }

  /** Flagging never changes a stored function. */
  lemma {:induction false} MarkRowKeepsFunctions(bddMap: map<int, (Bdd, bool)>, inputs: seq<int>, plane: string, n: nat)
    requires n <= |inputs|
    ensures forall v :: StoredFunction(MarkRow(bddMap, inputs, plane, n), v) == StoredFunction(bddMap, v)
  {
    if n > 0 { MarkRowKeepsFunctions(bddMap, inputs, plane, n - 1); }
  }

  lemma {:induction false} MarkRowsKeepsFunctions(bddMap: map<int, (Bdd, bool)>, inputs: seq<int>, rows: seq<Row>)
    ensures forall v :: StoredFunction(MarkRows(bddMap, inputs, rows), v) == StoredFunction(bddMap, v)
  {
    if rows != [] {
      MarkRowsKeepsFunctions(bddMap, inputs, rows[..|rows| - 1]);
      MarkRowKeepsFunctions(MarkRows(bddMap, inputs, rows[..|rows| - 1]), inputs, rows[|rows| - 1].0, |inputs|);
    }
  }

  /** Exactly the inputs some row cares about become flagged; other entries stay as they were. */
  lemma {:induction false} MarkRowFlags(bddMap: map<int, (Bdd, bool)>, inputs: seq<int>, plane: string, n: nat, v: int)
    requires n <= |inputs|
    ensures var m := MarkRow(bddMap, inputs, plane, n);
      if exists i :: 0 <= i < n && inputs[i] == v && PlaneBit(plane, i) != '-'
      then v in m && m[v].1
      else (v in m <==> v in bddMap) && (v in bddMap ==> m[v] == bddMap[v])
  {
    if n > 0 {
      MarkRowFlags(bddMap, inputs, plane, n - 1, v);
    }
  }
  /** Every statement keyword the dispatch loop recognises. */
  const Directives: set<string> := {".model", ".inputs", ".outputs", ".names", ".end"}

  /** One statement of a netlist, as the dispatch loop reads it. */
  datatype Statement =
    | Model(modelName: string)
    | Inputs(inputWords: seq<string>)
    | Outputs(outputWords: seq<string>)
    | Names(nameWords: seq<string>, rows: seq<Row>)
    | Unsupported(token: string)

  /** The name line and the truth table of a `.names` statement after its keyword; None when the line is empty. */
  function NamesRead(ts: seq<string>): (r: Option<(seq<string>, seq<Row>, seq<string>)>)
    ensures r.Some? ==> r.value.0 != [] && |r.value.2| < |ts|
  {
    match Line(ts)
    case None => None
    case Some((ws, rest)) =>
      if ws == [] then None
      else
        match ReadRows(rest)
        case None => None
        case Some((rows, after)) => Some((ws, rows, after))
  }

  /**
   * The next statement the dispatch loop reads and the tokens after it:
   * None inside when the statement is `.end` and the token after it; None
   * outside when a read runs past the end of the list or a `.names` line
   * names no variable.
   */
  function NextStatement(ts: seq<string>): (r: Option<(Option<Statement>, seq<string>)>)
    ensures r.Some? ==> |r.value.1| < |ts|
    ensures r.Some? && r.value.0.Some? && r.value.0.value.Names? ==> r.value.0.value.nameWords != []
  {
    if ts == [] then None
    else
      var t, more := ts[0], ts[1..];
      if t !in Directives then Some((Some(Unsupported(t)), more))
      else if t == ".end" then (if more == [] then None else Some((None, more[1..])))
      else if t == ".model" then (if |more| < 2 then None else Some((Some(Model(more[0])), more[2..])))
      else if t == ".names" then
        match NamesRead(more)
        case None => None
        case Some((ws, rows, after)) => Some((Some(Names(ws, rows)), after))
      else
        match Line(more)
        case None => None
        case Some((ws, rest)) =>
          if t == ".inputs" then Some((Some(Inputs(ws)), rest)) else Some((Some(Outputs(ws)), rest))
  }

  /**
   * The statements the dispatch loop reads up to `.end` and the token after
   * it, and the tokens left; None when a statement cannot be read.
   */
  function Statements(ts: seq<string>): (r: Option<(seq<Statement>, seq<string>)>)
    ensures r.Some? ==> |r.value.1| < |ts|
    decreases |ts|
  {
    match NextStatement(ts)
    case None => None
    case Some((None, rest)) => Some(([], rest))
    case Some((Some(st), rest)) =>
      match Statements(rest)
      case None => None
      case Some((sts, after)) => Some(([st] + sts, after))
  }

  /** `var_map[w]` for each word in turn: a word the map lacks is inserted with id 0. */
  function TouchAll(varMap: map<string, int>, ws: seq<string>): (r: map<string, int>)
    ensures forall w :: w in ws ==> w in r
    ensures forall w :: w in varMap ==> w in r && r[w] == varMap[w]
    ensures forall w :: w in r ==> w in varMap || w in ws
    ensures forall w :: w in r && w !in varMap ==> r[w] == 0
    decreases |ws|
  {
    if ws == [] then varMap
    else TouchAll(if ws[0] in varMap then varMap else varMap[ws[0] := 0], ws[1..])
  }

  /** The ids of the words. */
  function Ids(varMap: map<string, int>, ws: seq<string>): (r: seq<int>)
    ensures |r| == |ws| && forall i :: 0 <= i < |ws| ==> r[i] == VarId(varMap, ws[i])
  {
    seq(|ws|, i requires 0 <= i < |ws| => VarId(varMap, ws[i]))
  }

  /** `names_map[v] = {}` for each id in turn. */
  function ClearDependencies(namesMap: map<int, seq<int>>, ids: seq<int>): (r: map<int, seq<int>>)
    ensures r.Keys == namesMap.Keys + set v | v in ids
    ensures forall v :: v in ids ==> r[v] == []
    ensures forall v :: v in namesMap && v !in ids ==> r[v] == namesMap[v]
    decreases |ids|
  {
    if ids == [] then namesMap else ClearDependencies(namesMap[ids[0] := []], ids[1..])
  }

  /** `bdd_map[v] = (bdd_ithvar(v), false)` for each id in turn. */
  function SeedInputs(bddMap: map<int, (Bdd, bool)>, ids: seq<int>): (r: map<int, (Bdd, bool)>)
    ensures r.Keys == bddMap.Keys + set v | v in ids
    ensures forall v :: v in ids ==> r[v] == (Var(v), false)
    ensures forall v :: v in bddMap && v !in ids ==> r[v] == bddMap[v]
    decreases |ids|
  {
    if ids == [] then bddMap else SeedInputs(bddMap[ids[0] := (Var(ids[0]), false)], ids[1..])
  }
}
