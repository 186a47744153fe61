/**
 * Materialization predicates: the relations between the variable of an
 * edge's source ("in"), the variable being materialized ("mat"), the leaf
 * level ("leaf") and the variables of the edge's targets ("out0", "out1",
 * ...). "1<" says the second variable is exactly one below the first, "<<"
 * that it is more than one below. A set of such predicates indexes the
 * materialization recipes of a box.
 */
module PatternGenerate {
  import opened Optional
  import opened Numerals

  const SUCC: string := "1<"
  const FAR: string := "<<"

  /** `VariablePredicate(var1, rel, var2)`. */
  datatype Predicate = Predicate(var1: string, rel: string, var2: string)

  /** The symbolic name of the i-th target variable. */
  function OutName(i: nat): (r: string)
    ensures |r| > 3 && r[..3] == "out"
  {
    "out" + NatToString(i)
  }

  lemma OutNameInjective(i: nat, j: nat)
    requires OutName(i) == OutName(j)
    ensures i == j
  {
    assert NatToString(i) == OutName(i)[3..];
    ValueOfNatToString(i);
    ValueOfNatToString(j);
  }

  // ---------------------------------------------------------------------
  // obtain_predicates
  // ---------------------------------------------------------------------

  /** A target of an edge: a leaf, or an inner node with its variable. */
  datatype Target = LeafNode | InnerNode(variable: int)

  /** The parts of a source node `obtain_predicates` reads. */
  datatype SourceNode = SourceNode(variable: int, low: seq<Target>, lowBox: Option<string>, high: seq<Target>, highBox: Option<string>)

  /** The variable of a target, leaves counting as one below the last variable. */
  function TargetVar(t: Target, variableCount: int): int
  {
    if t.LeafNode? then variableCount + 1 else t.variable
  }

  function TargetVars(ts: seq<Target>, variableCount: int): (r: seq<int>)
    ensures |r| == |ts| && forall i :: 0 <= i < |ts| ==> r[i] == TargetVar(ts[i], variableCount)
  {
    seq(|ts|, i requires 0 <= i < |ts| => TargetVar(ts[i], variableCount))
  }

  /** The edge examined: the root edge (source None) or the low/high edge of a node. */
  datatype EdgeView = EdgeView(invar: int, tgtVars: seq<int>, box: Option<string>)

  /**
   * How `obtain_predicates` picks the edge: the roots when the source is
   * None, otherwise the high targets when the direction is true and the low
   * ones when it is false or None; the box is the root rule when the
   * direction is None. None stands for the AttributeError of asking a
   * missing source node for its box.
   */
  function ViewOf(src: Option<SourceNode>, direction: Option<bool>, roots: seq<Target>, rootRule: Option<string>, variableCount: int): (r: Option<EdgeView>)
    ensures r.None? <==> src.None? && direction.Some?
    ensures r.Some? && src.None? ==> r.value.invar == 0 && r.value.box == rootRule && |r.value.tgtVars| == |roots|
  {
    if src.None? then
      if direction.Some? then None else Some(EdgeView(0, TargetVars(roots, variableCount), rootRule))
    else
      var n := src.value;
      var targets := if direction == Some(true) then n.high else n.low;
      var box := if direction.None? then rootRule else if direction.value then n.highBox else n.lowBox;
      Some(EdgeView(n.variable, TargetVars(targets, variableCount), box))
  }

  /** The early return: a short edge, or a materialization variable not strictly between the source and some target. */
  predicate NoMaterialization(invar: int, tgtVars: seq<int>, box: Option<string>, mat: int)
  {
    box.None? || mat <= invar || forall i :: 0 <= i < |tgtVars| ==> mat >= tgtVars[i]
  }

  /** The relation a smaller variable a has to a larger b, if any. */
  function RelBelow(a: int, b: int): Option<string>
  {
    if a + 1 == b then Some(SUCC) else if a + 1 < b then Some(FAR) else None
  }

  /** The predicates a relation gives: none or one. */
  function Relate(var1: string, rel: Option<string>, var2: string): set<Predicate>
  {
    if rel.Some? then {Predicate(var1, rel.value, var2)} else {}
  }

  predicate LeafBox(box: Option<string>)
  {
    box.Some? && box.value in {"L0", "L1", "H0", "H1"}
  }

  /** The predicates about the first n targets. */
  function OutPredicates(tgtVars: seq<int>, mat: int, n: nat): set<Predicate>
    requires n <= |tgtVars|
  {
    if n == 0 then {} else OutPredicates(tgtVars, mat, n - 1) + Relate("mat", RelBelow(mat, tgtVars[n - 1]), OutName(n - 1))
  }

  /** The predicates that are not about targets. */
  function FixedPredicates(invar: int, box: Option<string>, leafVar: int, mat: int): set<Predicate>
  {
    (if LeafBox(box) then Relate("mat", RelBelow(mat, leafVar), "leaf") else {})
    + Relate("in", RelBelow(invar, mat), "mat")
  }

  /** The predicate set `obtain_predicates` returns for an edge. */
  function Predicates(e: EdgeView, leafVar: int, mat: int): set<Predicate>
  {
    if NoMaterialization(e.invar, e.tgtVars, e.box, mat) then {}
    else FixedPredicates(e.invar, e.box, leafVar, mat) + OutPredicates(e.tgtVars, mat, |e.tgtVars|)
  }

  /**
   * `obtain_predicates`: the predicates that hold between the variables of
   * the chosen edge and the materialization variable.
   */
  method ObtainPredicates(src: Option<SourceNode>, direction: Option<bool>, roots: seq<Target>, rootRule: Option<string>,
                          variableCount: int, mat: int) returns (r: Option<set<Predicate>>)
    ensures r.None? <==> ViewOf(src, direction, roots, rootRule, variableCount).None?
    ensures r.Some? ==> r.value == Predicates(ViewOf(src, direction, roots, rootRule, variableCount).value, variableCount + 1, mat)
  {
    var view := ViewOf(src, direction, roots, rootRule, variableCount);
    if view.None? {
      return None;
    }
    var invar, tgtVars, box := view.value.invar, view.value.tgtVars, view.value.box;
    var leafVar := variableCount + 1;
    if box.None? || mat <= invar || forall i :: 0 <= i < |tgtVars| ==> mat >= tgtVars[i] {
      return Some({});
    }
    var result: set<Predicate> := {};
    if box.value in {"L0", "L1", "H0", "H1"} {
      result := result + Relate("mat", RelBelow(mat, leafVar), "leaf");
    }
    result := result + Relate("in", RelBelow(invar, mat), "mat");
    var idx := 0;
    while idx < |tgtVars|
      invariant idx <= |tgtVars|
      invariant result == FixedPredicates(invar, box, leafVar, mat) + OutPredicates(tgtVars, mat, idx)
    {
      result := result + Relate("mat", RelBelow(mat, tgtVars[idx]), OutName(idx));
      idx := idx + 1;
    }
    return Some(result);
  }

  /** The empty set is returned exactly on the early return. */
  lemma EmptyIffNoMaterialization(e: EdgeView, leafVar: int, mat: int)
    ensures Predicates(e, leafVar, mat) == {} <==> NoMaterialization(e.invar, e.tgtVars, e.box, mat)
  {
    if !NoMaterialization(e.invar, e.tgtVars, e.box, mat) {
      assert RelBelow(e.invar, mat).Some?;
      assert Predicate("in", RelBelow(e.invar, mat).value, "mat") in Predicates(e, leafVar, mat);
    }
  }

  lemma {:induction false} OutPredicatesShape(tgtVars: seq<int>, mat: int, n: nat, p: Predicate)
    requires n <= |tgtVars| && p in OutPredicates(tgtVars, mat, n)
    ensures p.var1 == "mat" && |p.var2| > 3 && p.var2[..3] == "out"
    ensures exists i :: 0 <= i < n && RelBelow(mat, tgtVars[i]).Some? && p == Predicate("mat", RelBelow(mat, tgtVars[i]).value, OutName(i))
  {
    if p !in Relate("mat", RelBelow(mat, tgtVars[n - 1]), OutName(n - 1)) {
      OutPredicatesShape(tgtVars, mat, n - 1, p);
    }
  }

  /**
   * Outside the early return the set has exactly one "in" predicate, and no
   * two predicates share their second variable: each target, the leaf and
   * the materialization variable are related at most once.
   */
  lemma PredicatesShape(e: EdgeView, leafVar: int, mat: int)
    requires !NoMaterialization(e.invar, e.tgtVars, e.box, mat)
    ensures (set p | p in Predicates(e, leafVar, mat) && p.var1 == "in") == {Predicate("in", if e.invar + 1 == mat then SUCC else FAR, "mat")}
    ensures forall p, q :: p in Predicates(e, leafVar, mat) && q in Predicates(e, leafVar, mat) && p.var2 == q.var2 ==> p == q
  {
    var r := Predicates(e, leafVar, mat);
    forall p | p in r && p.var1 == "in"
      ensures p == Predicate("in", if e.invar + 1 == mat then SUCC else FAR, "mat")
    {
      if p in OutPredicates(e.tgtVars, mat, |e.tgtVars|) {
        OutPredicatesShape(e.tgtVars, mat, |e.tgtVars|, p);
      }
    }
    forall p, q | p in r && q in r && p.var2 == q.var2
      ensures p == q
    {
      var outs := OutPredicates(e.tgtVars, mat, |e.tgtVars|);
      if p in outs {
        OutPredicatesShape(e.tgtVars, mat, |e.tgtVars|, p);
        var i :| 0 <= i < |e.tgtVars| && RelBelow(mat, e.tgtVars[i]).Some? && p == Predicate("mat", RelBelow(mat, e.tgtVars[i]).value, OutName(i));
        assert q in outs;
        OutPredicatesShape(e.tgtVars, mat, |e.tgtVars|, q);
        var j :| 0 <= j < |e.tgtVars| && RelBelow(mat, e.tgtVars[j]).Some? && q == Predicate("mat", RelBelow(mat, e.tgtVars[j]).value, OutName(j));
        OutNameInjective(i, j);
      } else if q in outs {
        OutPredicatesShape(e.tgtVars, mat, |e.tgtVars|, q);
      }
    }
  }

  /** A "leaf" predicate is produced only for the boxes L0, L1, H0 and H1. */
  lemma LeafOnlyForLeafBoxes(e: EdgeView, leafVar: int, mat: int, p: Predicate)
    requires p in Predicates(e, leafVar, mat) && p.var2 == "leaf"
    ensures LeafBox(e.box)
  {
    if p in OutPredicates(e.tgtVars, mat, |e.tgtVars|) {
      OutPredicatesShape(e.tgtVars, mat, |e.tgtVars|, p);
    }
  }

  // ---------------------------------------------------------------------
  // check_predicate_against_values
  // ---------------------------------------------------------------------

  /** Whether a predicate holds of two values; other relations impose nothing. */
  predicate Satisfied(rel: string, v1: int, v2: int)
  {
    (rel == SUCC ==> v1 + 1 == v2) && (rel == FAR ==> v1 + 1 < v2)
  }

  predicate Assigned(p: Predicate, assignment: map<string, int>)
  {
    p.var1 in assignment && p.var2 in assignment
  }

  /**
   * `check_predicate_against_values`, over the set's elements in the order
   * they are visited: None stands for the KeyError of a variable without a
   * value. Every predicate is looked up, so a missing variable raises
   * wherever it occurs.
   */
  method CheckPredicateAgainstValues(predicates: seq<Predicate>, assignment: map<string, int>) returns (r: Option<bool>)
    ensures r.None? <==> exists k :: 0 <= k < |predicates| && !Assigned(predicates[k], assignment)
    ensures r.Some? ==> (r.value <==> forall k :: 0 <= k < |predicates| ==>
                                        Satisfied(predicates[k].rel, assignment[predicates[k].var1], assignment[predicates[k].var2]))
  {
    var holds := true;
    var k := 0;
    while k < |predicates|
      invariant k <= |predicates|
      invariant forall j :: 0 <= j < k ==> Assigned(predicates[j], assignment)
      invariant holds <==> forall j :: 0 <= j < k ==> Satisfied(predicates[j].rel, assignment[predicates[j].var1], assignment[predicates[j].var2])
    {
      var pred := predicates[k];
      if pred.var1 !in assignment || pred.var2 !in assignment {
        return None;
      }
      var val1, val2 := assignment[pred.var1], assignment[pred.var2];
      if pred.rel == SUCC {
        holds := holds && val1 + 1 == val2;
      }
      if pred.rel == FAR {
        holds := holds && val1 + 1 < val2;
      }
      k := k + 1;
    }
    return Some(holds);
  }

  /** The values `obtain_predicates` compared: in, mat, leaf and out0 .. out(n-1). */
  function EdgeAssignment(e: EdgeView, leafVar: int, mat: int, n: nat): (a: map<string, int>)
    requires n <= |e.tgtVars|
    ensures "in" in a && a["in"] == e.invar && "mat" in a && a["mat"] == mat && "leaf" in a && a["leaf"] == leafVar
  {
    if n == 0 then map["in" := e.invar, "mat" := mat, "leaf" := leafVar]
    else EdgeAssignment(e, leafVar, mat, n - 1)[OutName(n - 1) := e.tgtVars[n - 1]]
  }

  lemma {:induction false} EdgeAssignmentOut(e: EdgeView, leafVar: int, mat: int, n: nat, i: nat)
    requires i < n <= |e.tgtVars|
    ensures OutName(i) in EdgeAssignment(e, leafVar, mat, n) && EdgeAssignment(e, leafVar, mat, n)[OutName(i)] == e.tgtVars[i]
  {
    if i < n - 1 {
      EdgeAssignmentOut(e, leafVar, mat, n - 1, i);
      if OutName(n - 1) == OutName(i) {
        OutNameInjective(n - 1, i);
      }
    }
  }

  /** The predicates obtained for an edge hold of the edge's own variables. */
  lemma ObtainedPredicatesHold(e: EdgeView, leafVar: int, mat: int, p: Predicate)
    requires p in Predicates(e, leafVar, mat)
    ensures var a := EdgeAssignment(e, leafVar, mat, |e.tgtVars|);
      Assigned(p, a) && Satisfied(p.rel, a[p.var1], a[p.var2])
  {
    if p in OutPredicates(e.tgtVars, mat, |e.tgtVars|) {
      OutPredicatesShape(e.tgtVars, mat, |e.tgtVars|, p);
      var i :| 0 <= i < |e.tgtVars| && RelBelow(mat, e.tgtVars[i]).Some? && p == Predicate("mat", RelBelow(mat, e.tgtVars[i]).value, OutName(i));
      EdgeAssignmentOut(e, leafVar, mat, |e.tgtVars|, i);
    }
  }

  // ---------------------------------------------------------------------
  // create_all_predicate_sets
  // ---------------------------------------------------------------------

  /**
   * One choice from the product of candidate predicates: the relation of
   * "in" to "mat", of "mat" to "leaf" (absent when the box has no leaf
   * key), and of "mat" to each port variable (None: no predicate).
   */
  datatype Selection = Selection(inRel: string, leafRel: Option<string>, outRels: seq<Option<string>>)

  /** `predicate_order`: None below "1<" below "<<". */
  function Rank(rel: Option<string>): nat
  {
    if rel == Some(FAR) then 2 else if rel == Some(SUCC) then 1 else 0
  }

  const OutChoices: seq<Option<string>> := [Some(SUCC), Some(FAR), None]

  /** Every row extended by one more choice. */
  function Extend(rows: seq<seq<Option<string>>>, c: Option<string>): (r: seq<seq<Option<string>>>)
    ensures |r| == |rows| && forall k :: 0 <= k < |rows| ==> r[k] == rows[k] + [c]
  {
    seq(|rows|, k requires 0 <= k < |rows| => rows[k] + [c])
  }

  /** All n-long choices for the port variables, each once. */
  function PortRows(n: nat): seq<seq<Option<string>>>
  {
    if n == 0 then [[]]
    else
      var rows := PortRows(n - 1);
      Extend(rows, Some(SUCC)) + Extend(rows, Some(FAR)) + Extend(rows, None)
  }

  predicate ChoiceRow(row: seq<Option<string>>)
  {
    forall i :: 0 <= i < |row| ==> row[i] in OutChoices
  }

  lemma ExtendMember(rows: seq<seq<Option<string>>>, c: Option<string>, row: seq<Option<string>>)
    ensures row in Extend(rows, c) <==> |row| > 0 && row[|row| - 1] == c && row[..|row| - 1] in rows
  {
    if row in Extend(rows, c) {
      var k :| 0 <= k < |rows| && Extend(rows, c)[k] == row;
      assert row[..|row| - 1] == rows[k];
    }
    if |row| > 0 && row[|row| - 1] == c && row[..|row| - 1] in rows {
      var k :| 0 <= k < |rows| && rows[k] == row[..|row| - 1];
      assert row == Extend(rows, c)[k];
    }
  }

  /** The rows are exactly the n-long sequences of choices. */
  lemma {:induction false} PortRowsMembers(n: nat, row: seq<Option<string>>)
    ensures row in PortRows(n) <==> |row| == n && ChoiceRow(row)
  {
    if n == 0 {
      assert row in PortRows(n) <==> row == [];
    } else {
      var rows := PortRows(n - 1);
      ExtendMember(rows, Some(SUCC), row);
      ExtendMember(rows, Some(FAR), row);
      ExtendMember(rows, None, row);
      if |row| > 0 {
        PortRowsMembers(n - 1, row[..|row| - 1]);
        assert ChoiceRow(row) <==> ChoiceRow(row[..|row| - 1]) && row[|row| - 1] in OutChoices;
      }
    }
  }

  /** Every row paired with one "in" relation and one leaf choice. */
  function Paired(inRel: string, leafRel: Option<string>, rows: seq<seq<Option<string>>>): (r: seq<Selection>)
    ensures |r| == |rows| && forall k :: 0 <= k < |rows| ==> r[k] == Selection(inRel, leafRel, rows[k])
  {
    seq(|rows|, k requires 0 <= k < |rows| => Selection(inRel, leafRel, rows[k]))
  }

  function LeafChoices(hasLeaf: bool): set<Option<string>>
  {
    if hasLeaf then {Some(SUCC), Some(FAR)} else {None}
  }

  /** A selection is well-formed for a box with n ports. */
  predicate Candidate(s: Selection, hasLeaf: bool, n: nat)
  {
    s.inRel in {SUCC, FAR} && s.leafRel in LeafChoices(hasLeaf) && |s.outRels| == n && ChoiceRow(s.outRels)
  }

  /** The product `itertools.product` enumerates, as selections. */
  function Selections(hasLeaf: bool, n: nat): seq<Selection>
  {
    var rows := PortRows(n);
    if hasLeaf then
      Paired(SUCC, Some(SUCC), rows) + Paired(SUCC, Some(FAR), rows) + Paired(FAR, Some(SUCC), rows) + Paired(FAR, Some(FAR), rows)
    else Paired(SUCC, None, rows) + Paired(FAR, None, rows)
  }

  lemma PairedMember(inRel: string, leafRel: Option<string>, rows: seq<seq<Option<string>>>, s: Selection)
    ensures s in Paired(inRel, leafRel, rows) <==> s.inRel == inRel && s.leafRel == leafRel && s.outRels in rows
  {
    if s.inRel == inRel && s.leafRel == leafRel && s.outRels in rows {
      var k :| 0 <= k < |rows| && rows[k] == s.outRels;
      assert s == Paired(inRel, leafRel, rows)[k];
    }
  }

  /** The selections are exactly the well-formed ones. */
  lemma SelectionsMembers(hasLeaf: bool, n: nat, s: Selection)
    ensures s in Selections(hasLeaf, n) <==> Candidate(s, hasLeaf, n)
  {
    var rows := PortRows(n);
    PortRowsMembers(n, s.outRels);
    PairedMember(SUCC, Some(SUCC), rows, s);
    PairedMember(SUCC, Some(FAR), rows, s);
    PairedMember(FAR, Some(SUCC), rows, s);
    PairedMember(FAR, Some(FAR), rows, s);
    PairedMember(SUCC, None, rows, s);
    PairedMember(FAR, None, rows, s);
  }

  /** The predicates in `lookup.values()` that are not None. */
  function PortPredicates(outs: seq<Option<string>>, n: nat): set<Predicate>
    requires n <= |outs|
  {
    if n == 0 then {} else PortPredicates(outs, n - 1) + Relate("mat", outs[n - 1], OutName(n - 1))
  }

  function PredicatesOf(s: Selection): set<Predicate>
  {
    {Predicate("in", s.inRel, "mat")} + Relate("mat", s.leafRel, "leaf") + PortPredicates(s.outRels, |s.outRels|)
  }

  /** The condition of `check_singleton_var` for port i. */
  predicate SingletonPasses(s: Selection, i: nat)
    requires i < |s.outRels|
  {
    var v := Rank(s.outRels[i]);
    v != 0 && !(Rank(Some(s.inRel)) == 1 && v == 0) && (s.leafRel.None? || v <= Rank(s.leafRel))
  }

  /** The condition of `check_pairwise_vars` for ports i and j of the given strengths. */
  predicate PairPasses(s: Selection, strengths: seq<int>, i: nat, j: nat)
    requires i < |s.outRels| && j < |s.outRels| && i < |strengths| && j < |strengths|
  {
    var smaller := if strengths[i] < strengths[j] then i else j;
    var larger := if strengths[i] < strengths[j] then j else i;
    Rank(s.outRels[larger]) >= Rank(s.outRels[smaller])
    && Rank(s.outRels[larger]) != 0
    && !(Rank(Some(s.inRel)) == 1 && Rank(s.outRels[smaller]) == 0)
    && (s.leafRel.None? || Rank(s.outRels[larger]) <= Rank(s.leafRel))
  }

  /** Some pair of ports, the first below bound, passes. */
  predicate SomePairBelow(s: Selection, strengths: seq<int>, bound: nat)
    requires |s.outRels| == |strengths|
  {
    exists i, j :: 0 <= i < j < |strengths| && i < bound && PairPasses(s, strengths, i, j)
  }

  /** Some port below bound passes alone. */
  predicate SomePortBelow(s: Selection, strengths: seq<int>, bound: nat)
    requires |s.outRels| == |strengths|
  {
    exists i :: 0 <= i < |strengths| && i < bound && SingletonPasses(s, i)
  }

  /** Whether the checks add the selection's predicates to the result. */
  predicate Accepted(s: Selection, strengths: seq<int>)
    requires |s.outRels| == |strengths|
  {
    if |strengths| > 1 then SomePairBelow(s, strengths, |strengths|) else SomePortBelow(s, strengths, |strengths|)
  }

  /** `check_singleton_var`: adds the selection's predicates once some port passes. */
  method CheckSingletonVar(result: set<set<Predicate>>, s: Selection, strengths: seq<int>) returns (r: set<set<Predicate>>)
    requires |s.outRels| == |strengths|
    ensures r == result + (if SomePortBelow(s, strengths, |strengths|) then {PredicatesOf(s)} else {})
  {
    r := result;
    var i := 0;
    while i < |strengths|
      invariant i <= |strengths|
      invariant r == result + (if SomePortBelow(s, strengths, i) then {PredicatesOf(s)} else {})
    {
      if SingletonPasses(s, i) {
        r := r + {PredicatesOf(s)};
      }
      i := i + 1;
    }
  }

  /** `check_pairwise_vars`: adds the selection's predicates once some pair of ports passes. */
  method CheckPairwiseVars(result: set<set<Predicate>>, s: Selection, strengths: seq<int>) returns (r: set<set<Predicate>>)
    requires |s.outRels| == |strengths|
    ensures r == result + (if SomePairBelow(s, strengths, |strengths|) then {PredicatesOf(s)} else {})
  {
    r := result;
    var i := 0;
    while i < |strengths|
      invariant i <= |strengths|
      invariant r == result + (if SomePairBelow(s, strengths, i) then {PredicatesOf(s)} else {})
    {
      var j := i + 1;
      while j < |strengths|
        invariant i < j <= |strengths| || j == i + 1
        invariant r == result + (if SomePairBelow(s, strengths, i) || (exists b :: i < b < j && b < |strengths| && PairPasses(s, strengths, i, b))
                                 then {PredicatesOf(s)} else {})
      {
        if PairPasses(s, strengths, i, j) {
          r := r + {PredicatesOf(s)};
        }
        j := j + 1;
      }
      i := i + 1;
    }
  }

  /**
   * For a box with one port, a selection is accepted exactly when it relates
   * the port at all and, for a box with a leaf, relates it no more strongly
   * than the leaf; the check on "in" never decides.
   */
  lemma SinglePortAccepted(s: Selection, strength: int)
    requires |s.outRels| == 1
    ensures Accepted(s, [strength]) <==> s.outRels[0].Some? && s.outRels[0].value in {SUCC, FAR}
                                          && (s.leafRel.None? || Rank(s.outRels[0]) <= Rank(s.leafRel))
  {
    if SomePortBelow(s, [strength], 1) {
      var i :| 0 <= i < 1 && i < 1 && SingletonPasses(s, i);
      assert i == 0;
    }
    if s.outRels[0].Some? && s.outRels[0].value in {SUCC, FAR} && (s.leafRel.None? || Rank(s.outRels[0]) <= Rank(s.leafRel)) {
      assert SingletonPasses(s, 0);
    }
  }

  /** A box name that mentions a terminal gets "leaf" predicates. */
  predicate MentionsTerminal(boxname: string)
  {
    '0' in boxname || '1' in boxname
  }

  /** The predicate sets of the accepted selections among sels. */
  function AcceptedIn(sels: seq<Selection>, strengths: seq<int>): set<set<Predicate>>
  {
    if sels == [] then {}
    else
      var s := sels[|sels| - 1];
      AcceptedIn(sels[..|sels| - 1], strengths) + (if |s.outRels| == |strengths| && Accepted(s, strengths) then {PredicatesOf(s)} else {})
  }

  /** The predicate sets `create_all_predicate_sets` returns. */
  function AcceptedSets(boxname: string, strengths: seq<int>): set<set<Predicate>>
  {
    AcceptedIn(Selections(MentionsTerminal(boxname), |strengths|), strengths)
  }

  lemma {:induction false} AcceptedInFrom(sels: seq<Selection>, strengths: seq<int>, ps: set<Predicate>)
    requires ps in AcceptedIn(sels, strengths)
    ensures exists s :: s in sels && |s.outRels| == |strengths| && Accepted(s, strengths) && ps == PredicatesOf(s)
  {
    var s := sels[|sels| - 1];
    if ps != PredicatesOf(s) || !(|s.outRels| == |strengths| && Accepted(s, strengths)) {
      AcceptedInFrom(sels[..|sels| - 1], strengths, ps);
      var t :| t in sels[..|sels| - 1] && |t.outRels| == |strengths| && Accepted(t, strengths) && ps == PredicatesOf(t);
      assert t in sels;
    }
  }

  /**
   * `create_all_predicate_sets`: every consistent choice of predicates for
   * a box, whose ports have the given strengths (2 for a port state that
   * can loop, 1 otherwise), in the box's port order.
   */
  method CreateAllPredicateSets(boxname: string, strengths: seq<int>) returns (r: set<set<Predicate>>)
    ensures r == AcceptedSets(boxname, strengths)
  {
    var lookups := Selections(MentionsTerminal(boxname), |strengths|);
    forall j | 0 <= j < |lookups|
      ensures |lookups[j].outRels| == |strengths|
    {
      SelectionsMembers(MentionsTerminal(boxname), |strengths|, lookups[j]);
    }
    r := {};
    var k := 0;
    while k < |lookups|
      invariant k <= |lookups|
      invariant forall j :: 0 <= j < |lookups| ==> |lookups[j].outRels| == |strengths|
      invariant r == AcceptedIn(lookups[..k], strengths)
    {
      var s := lookups[k];
      assert (lookups[..k + 1])[..k] == lookups[..k];
      if |strengths| > 1 {
        r := CheckPairwiseVars(r, s, strengths);
      } else {
        r := CheckSingletonVar(r, s, strengths);
      }
      assert lookups[..k + 1] == lookups[..k] + [s];
      k := k + 1;
    }
    assert lookups[..k] == lookups;
  }

  lemma {:induction false} PortPredicatesShape(outs: seq<Option<string>>, n: nat, p: Predicate)
    requires n <= |outs| && p in PortPredicates(outs, n)
    ensures p.var1 == "mat" && |p.var2| > 3 && p.var2[..3] == "out"
  {
    if p !in Relate("mat", outs[n - 1], OutName(n - 1)) {
      PortPredicatesShape(outs, n - 1, p);
    }
  }

  lemma InPredicateOf(s: Selection)
    ensures (set p | p in PredicatesOf(s) && p.var1 == "in") == {Predicate("in", s.inRel, "mat")}
  {
    forall p | p in PredicatesOf(s) && p.var1 == "in"
      ensures p == Predicate("in", s.inRel, "mat")
    {
      if p in PortPredicates(s.outRels, |s.outRels|) {
        PortPredicatesShape(s.outRels, |s.outRels|, p);
      }
    }
  }

  /** Every generated set has exactly one "in" predicate, "in 1< mat" or "in << mat". */
  lemma OneInPredicate(boxname: string, strengths: seq<int>, ps: set<Predicate>)
    requires ps in AcceptedSets(boxname, strengths)
    ensures (set p | p in ps && p.var1 == "in") == {Predicate("in", SUCC, "mat")}
         || (set p | p in ps && p.var1 == "in") == {Predicate("in", FAR, "mat")}
  {
    AcceptedInFrom(Selections(MentionsTerminal(boxname), |strengths|), strengths, ps);
    var s :| s in Selections(MentionsTerminal(boxname), |strengths|) && |s.outRels| == |strengths| && Accepted(s, strengths) && ps == PredicatesOf(s);
    SelectionsMembers(MentionsTerminal(boxname), |strengths|, s);
    InPredicateOf(s);
  }

  /** A box without ports yields no predicate set at all. */
  lemma {:induction false} NoPortsNoSets(sels: seq<Selection>)
    ensures AcceptedIn(sels, []) == {}
  {
    if sels != [] {
      NoPortsNoSets(sels[..|sels| - 1]);
    }
  }
}
