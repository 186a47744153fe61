/**
 * What the two compilation modes of the BLIF parser build, over a whole
 * statement list: the characteristic relation holds exactly when every gate's
 * output variable equals its table's function of its input variables, and
 * under any such assignment every function the output mode stores evaluates
 * to the assignment's value of its id, so both modes describe one circuit.
 */
module BlifCircuit {
  import Seqs
  import opened BoolEngine
  import opened BlifSpec
  import opened Blif
  import BlifOrder

  /** The names a statement lists. */
  function Words(st: Statement): seq<string>
  {
    match st
    case Inputs(ws) => ws
    case Outputs(ws) => ws
    case Names(ws, _) => ws
    case _ => []
  }

  /** Every name the statements list already has an id, as after `initial_parse`. */
  ghost predicate Known(vm: map<string, int>, sts: seq<Statement>)
  {
    forall k, w :: 0 <= k < |sts| && w in Words(sts[k]) ==> w in vm
  }

  /** Touching names that already have ids leaves the map as it is. */
  lemma TouchAllKnown(vm: map<string, int>, ws: seq<string>)
    requires forall w :: w in ws ==> w in vm
    ensures TouchAll(vm, ws) == vm
  {
    var r := TouchAll(vm, ws);
    assert r.Keys == vm.Keys;
  }

  /** The known names of the first statement, and of the rest. */
  lemma KnownSplit(vm: map<string, int>, sts: seq<Statement>)
    requires sts != [] && Known(vm, sts)
    ensures (forall w :: w in Words(sts[0]) ==> w in vm) && Known(vm, sts[1..])
  {
    forall k, w | 0 <= k < |sts| - 1 && w in Words(sts[1..][k]) ensures w in vm {
      assert sts[1..][k] == sts[k + 1];
    }
  }

  /** The gate `ws`/`rows` holds under a: its output variable equals its table's function of its input variables. */
  ghost predicate GateHolds(vm: map<string, int>, ws: seq<string>, rows: seq<Row>, a: Assignment)
    requires ws != []
  {
    var ids := Ids(vm, ws);
    a(ids[|ids| - 1]) == Eval(GateFunction(InputVars(ids), rows), a)
  }

  /** Every gate of the statements holds under a. */
  ghost predicate GatesHold(vm: map<string, int>, sts: seq<Statement>, a: Assignment)
    requires NamesHaveOutput(sts)
  {
    forall k :: 0 <= k < |sts| && sts[k].Names? ==> GateHolds(vm, sts[k].nameWords, sts[k].rows, a)
  }

  /** The gates of a list are those of its first statement and those of the rest. */
  lemma GatesHoldSplit(vm: map<string, int>, sts: seq<Statement>, a: Assignment)
    requires sts != [] && NamesHaveOutput(sts)
    ensures NamesHaveOutput(sts[1..])
    ensures GatesHold(vm, sts, a) <==>
      (sts[0].Names? ==> GateHolds(vm, sts[0].nameWords, sts[0].rows, a)) && GatesHold(vm, sts[1..], a)
  {
    assert forall k :: 0 <= k < |sts| - 1 ==> sts[1..][k] == sts[k + 1];
    if GatesHold(vm, sts[1..], a) && (sts[0].Names? ==> GateHolds(vm, sts[0].nameWords, sts[0].rows, a)) {
      forall k | 0 <= k < |sts| && sts[k].Names? ensures GateHolds(vm, sts[k].nameWords, sts[k].rows, a) {
        if k > 0 {
          assert sts[1..][k - 1] == sts[k];
        }
      }
    }
  }

  /** One statement in characteristic mode: the ids stay, and a gate conjoins its relation. */
  lemma CharacteristicStep(s: Snapshot, st: Statement, a: Assignment)
    requires (st.Names? ==> st.nameWords != []) && forall w :: w in Words(st) ==> w in s.varMap
    ensures Step(s, st, CharacteristicFunction).varMap == s.varMap
    ensures Eval(Step(s, st, CharacteristicFunction).result, a) <==>
      Eval(s.result, a) && (st.Names? ==> GateHolds(s.varMap, st.nameWords, st.rows, a))
  {
    TouchAllKnown(s.varMap, Words(st));
    if st.Names? {
      var ids := Ids(s.varMap, st.nameWords);
      GateRelationMeaning(InputVars(ids), st.rows, ids[|ids| - 1], a);
    }
  }

  /**
   * Characteristic mode over a statement list whose names all have ids: the
   * ids stay as they are, and the result holds exactly when the starting
   * result holds and every gate holds.
   */
  lemma {:induction false} CharacteristicMeaning(s: Snapshot, sts: seq<Statement>, a: Assignment)
    requires NamesHaveOutput(sts) && Known(s.varMap, sts)
    ensures Exec(s, sts, CharacteristicFunction).varMap == s.varMap
    ensures Eval(Exec(s, sts, CharacteristicFunction).result, a) <==> Eval(s.result, a) && GatesHold(s.varMap, sts, a)
    decreases |sts|
  {
    if sts != [] {
      KnownSplit(s.varMap, sts);
      GatesHoldSplit(s.varMap, sts, a);
      CharacteristicStep(s, sts[0], a);
      CharacteristicMeaning(Step(s, sts[0], CharacteristicFunction), sts[1..], a);
    }
  }

  /** The stored function of every id in d evaluates under a to a's value of that id. */
  ghost predicate AgreesOn(bm: map<int, (Bdd, bool)>, d: set<int>, a: Assignment)
  {
    forall v :: v in d ==> Eval(StoredFunction(bm, v), a) == a(v)
  }

  /** The ids a statement gives a stored function in output mode. */
  function Defined(vm: map<string, int>, st: Statement): set<int>
  {
    match st
    case Inputs(ws) => Seqs.Elems(Ids(vm, ws))
    case Names(ws, _) => if ws == [] then {} else {VarId(vm, ws[|ws| - 1])}
    case _ => {}
  }

  /** The ids with a stored function after the statements, starting from d. */
  function DefinedAll(vm: map<string, int>, d: set<int>, sts: seq<Statement>): (r: set<int>)
    ensures d <= r
    decreases |sts|
  {
    if sts == [] then d else DefinedAll(vm, d + Defined(vm, sts[0]), sts[1..])
  }

  /** Every gate's inputs have a stored function before the gate is read. */
  ghost predicate InputsDefined(vm: map<string, int>, d: set<int>, sts: seq<Statement>)
    decreases |sts|
  {
    sts == [] ||
    ((sts[0].Names? ==> forall i :: 0 <= i < |sts[0].nameWords| - 1 ==> VarId(vm, sts[0].nameWords[i]) in d)
     && InputsDefined(vm, d + Defined(vm, sts[0]), sts[1..]))
  }

  /** Tables over inputs that evaluate alike evaluate alike. */
  lemma GateFunctionCongruence(fs: seq<Bdd>, gs: seq<Bdd>, rows: seq<Row>, a: Assignment)
    requires |fs| == |gs| && forall i :: 0 <= i < |fs| ==> Eval(fs[i], a) == Eval(gs[i], a)
    ensures Eval(GateFunction(fs, rows), a) == Eval(GateFunction(gs, rows), a)
  {
    GateFunctionMeaning(fs, rows, a);
    GateFunctionMeaning(gs, rows, a);
    forall r | 0 <= r < |rows| ensures RowMatches(fs, rows[r].0, a) <==> RowMatches(gs, rows[r].0, a) {
      assert forall i :: 0 <= i < |fs| ==>
        (LitHolds(fs[i], PlaneBit(rows[r].0, i), a) <==> LitHolds(gs[i], PlaneBit(rows[r].0, i), a));
    }
  }

  /** One gate in output mode keeps the agreement and extends it to the gate's output. */
  lemma NamesAgreement(t: Snapshot, ws: seq<string>, rows: seq<Row>, d: set<int>, a: Assignment)
    requires ws != [] && AgreesOn(t.bddMap, d, a) && GateHolds(t.varMap, ws, rows, a)
    requires forall i :: 0 <= i < |ws| - 1 ==> VarId(t.varMap, ws[i]) in d
    ensures AgreesOn(NamesStep(t, ws, rows, OutputFunction).bddMap, d + {VarId(t.varMap, ws[|ws| - 1])}, a)
  {
    var ids := Ids(t.varMap, ws);
    var out := ids[|ids| - 1];
    var marked := MarkRows(t.bddMap, ids[..|ids| - 1], rows);
    MarkRowsKeepsFunctions(t.bddMap, ids[..|ids| - 1], rows);
    var fs, gs := InputFunctions(t.bddMap, ids), InputVars(ids);
    forall i | 0 <= i < |fs| ensures Eval(fs[i], a) == Eval(gs[i], a) {
      assert ids[i] == VarId(t.varMap, ws[i]);
    }
    GateFunctionCongruence(fs, gs, rows, a);
    var bm := NamesStep(t, ws, rows, OutputFunction).bddMap;
    assert bm == marked[out := (GateFunction(fs, rows), false)];
    forall v | v in d + {out} ensures Eval(StoredFunction(bm, v), a) == a(v) {
      if v != out {
        assert StoredFunction(bm, v) == StoredFunction(marked, v) == StoredFunction(t.bddMap, v);
      }
    }
  }

  /**
   * Output mode over a statement list whose names all have ids, whose gates
   * hold under a and whose gates read only ids already stored: every stored
   * function, of an input or of a gate, evaluates under a to a's value.
   */
  lemma {:induction false} OutputAgreement(t: Snapshot, sts: seq<Statement>, d: set<int>, a: Assignment)
    requires NamesHaveOutput(sts) && Known(t.varMap, sts)
    requires InputsDefined(t.varMap, d, sts) && AgreesOn(t.bddMap, d, a) && GatesHold(t.varMap, sts, a)
    ensures Exec(t, sts, OutputFunction).varMap == t.varMap
    ensures AgreesOn(Exec(t, sts, OutputFunction).bddMap, DefinedAll(t.varMap, d, sts), a)
    decreases |sts|
  {
    if sts != [] {
      var st, vm := sts[0], t.varMap;
      KnownSplit(vm, sts);
      TouchAllKnown(vm, Words(st));
      GatesHoldSplit(vm, sts, a);
      var t1 := Step(t, st, OutputFunction);
      assert t1.varMap == vm;
      var d1 := d + Defined(vm, st);
      match st {
        case Inputs(ws) =>
          var ids := Ids(vm, ws);
          forall v | v in d1 ensures Eval(StoredFunction(t1.bddMap, v), a) == a(v) {
            if v in ids {
              assert t1.bddMap[v] == (Var(v), false);
            }
          }
        case Names(ws, rows) =>
          NamesAgreement(t, ws, rows, d, a);
        case _ =>
      }
      assert AgreesOn(t1.bddMap, d1, a);
      OutputAgreement(t1, sts[1..], d1, a);
    }
  }

  /**
   * The two modes describe one circuit: starting from the parser's initial
   * state with every name numbered, every assignment satisfying the
   * characteristic relation gives every stored function, of a declared input
   * or of a gate output, its own variable's value.
   */
  lemma ModesAgree(s: Snapshot, t: Snapshot, sts: seq<Statement>, a: Assignment)
    requires NamesHaveOutput(sts) && s.varMap == t.varMap && Known(t.varMap, sts)
    requires InputsDefined(t.varMap, {}, sts)
    requires Eval(Exec(s, sts, CharacteristicFunction).result, a)
    ensures AgreesOn(Exec(t, sts, OutputFunction).bddMap, DefinedAll(t.varMap, {}, sts), a)
  {
    CharacteristicMeaning(s, sts, a);
    OutputAgreement(t, sts, {}, a);
  }
}
