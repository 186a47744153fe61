/**
 * Short-circuit evaluation in ABDD apply: when one operand edge denotes a
 * constant function (all its targets are the same terminal and its box is
 * compatible with that terminal), the annihilation and absorption laws of the
 * operation decide the result without recursion. The decisions are a table
 * keyed by (constant of the first edge, operation, constant of the second
 * edge); terminals are combined leaf by leaf with Python's `and`/`or`/`not`
 * on the integers 0 and 1.
 */
module ShortCircuit {
  import opened Optional
  import opened ApplyTables

  /** `ShortCircuitEvaluation`: the constant 0 or 1, the first or second edge kept, or kept negated. */
  datatype ShortCircuitEvaluation = ZERO | ONE | FIRST | SECOND | NEG_FIRST | NEG_SECOND

  /** The terminal node a leaf-level apply produces. */
  datatype Terminal = Terminal0 | Terminal1

  /** The operations that have an operation table. */
  predicate Binary(op: BooleanOperation)
  {
    op != NOP && op != NOT
  }

  /**
   * `early_return_lookup`: None where the dictionary has no key. Exactly the
   * keys (0 or 1, op, None) and (None, op, 0 or 1) of the seven binary
   * operations are present.
   */
  function EarlyReturnLookup(v1: Option<int>, op: BooleanOperation, v2: Option<int>): (r: Option<ShortCircuitEvaluation>)
    ensures r.Some? <==> Binary(op) && ((v1 in {Some(0), Some(1)} && v2.None?) || (v1.None? && v2 in {Some(0), Some(1)}))
  {
    match (v1, op, v2)
    case (Some(0), AND, None) => Some(ZERO)
    case (Some(1), AND, None) => Some(SECOND)
    case (None, AND, Some(0)) => Some(ZERO)
    case (None, AND, Some(1)) => Some(FIRST)
    case (Some(0), OR, None) => Some(SECOND)
    case (Some(1), OR, None) => Some(ONE)
    case (None, OR, Some(0)) => Some(FIRST)
    case (None, OR, Some(1)) => Some(ONE)
    case (Some(0), XOR, None) => Some(SECOND)
    case (Some(1), XOR, None) => Some(NEG_SECOND)
    case (None, XOR, Some(0)) => Some(FIRST)
    case (None, XOR, Some(1)) => Some(NEG_FIRST)
    case (Some(0), IFF, None) => Some(NEG_SECOND)
    case (Some(1), IFF, None) => Some(SECOND)
    case (None, IFF, Some(0)) => Some(NEG_FIRST)
    case (None, IFF, Some(1)) => Some(FIRST)
    case (Some(0), NAND, None) => Some(ONE)
    case (Some(1), NAND, None) => Some(NEG_SECOND)
    case (None, NAND, Some(0)) => Some(ONE)
    case (None, NAND, Some(1)) => Some(NEG_FIRST)
    case (Some(0), NOR, None) => Some(NEG_SECOND)
    case (Some(1), NOR, None) => Some(ZERO)
    case (None, NOR, Some(0)) => Some(NEG_FIRST)
    case (None, NOR, Some(1)) => Some(ZERO)
    case (Some(0), IMPLY, None) => Some(ONE)
    case (Some(1), IMPLY, None) => Some(SECOND)
    case (None, IMPLY, Some(0)) => Some(NEG_FIRST)
    case (None, IMPLY, Some(1)) => Some(ONE)
    case _ => None
  }

  /** The decision with the roles of the two edges exchanged. */
  function Mirror(e: ShortCircuitEvaluation): ShortCircuitEvaluation
  {
    match e
    case FIRST => SECOND
    case SECOND => FIRST
    case NEG_FIRST => NEG_SECOND
    case NEG_SECOND => NEG_FIRST
    case _ => e
  }

  /** For a commutative operation, a constant first edge decides as a constant second edge does, mirrored. */
  lemma MirroredDecisions(op: BooleanOperation, v: int)
    requires Binary(op) && op != IMPLY && (v == 0 || v == 1)
    ensures EarlyReturnLookup(Some(v), op, None) == Some(Mirror(EarlyReturnLookup(None, op, Some(v)).value))
  {
  }

  /** The operation-table cell a decision corresponds to. */
  function AsCell(e: ShortCircuitEvaluation): Cell
  {
    match e
    case ZERO => Zero
    case ONE => One
    case FIRST => P1
    case SECOND => P2
    case NEG_FIRST => NegP1
    case NEG_SECOND => NegP2
  }

  /**
   * The decisions agree with the operation tables: a constant v against a
   * port is the table cell in row (or column) of terminal v and the port
   * column (or row).
   */
  lemma DecisionsFollowTables(op: BooleanOperation, v: int)
    requires Binary(op) && (v == 0 || v == 1)
    ensures AsCell(EarlyReturnLookup(Some(v), op, None).value) == OpLookup(op).value[1 + v][3]
    ensures AsCell(EarlyReturnLookup(None, op, Some(v)).value) == OpLookup(op).value[3][1 + v]
  {
  }

  // ---------------------------------------------------------------------
  // Leaf-level apply
  // ---------------------------------------------------------------------

  /** Python's `a and b` on integers. */
  function PyAnd(a: int, b: int): int { if a == 0 then a else b }

  /** Python's `a or b` on integers. */
  function PyOr(a: int, b: int): int { if a != 0 then a else b }

  /** Python's `not a`, with False and True read as 0 and 1. */
  function PyNot(a: int): int { if a == 0 then 1 else 0 }

  /** The value `op_translate` computes for an operation; -1 for NOP and NOT. */
  function Translate(v1: int, v2: int, op: BooleanOperation): int
  {
    match op
    case NOP => -1
    case AND => PyAnd(v1, v2)
    case OR => PyOr(v1, v2)
    case XOR => PyOr(PyAnd(v1, PyNot(v2)), PyAnd(PyNot(v1), v2))
    case IFF => PyOr(PyAnd(v1, v2), PyAnd(PyNot(v1), PyNot(v2)))
    case NAND => PyNot(PyAnd(v1, v2))
    case NOR => PyNot(PyOr(v1, v2))
    case IMPLY => PyOr(PyNot(v1), v2)
    case NOT => -1
  }

  /**
   * `produce_terminal`: the terminal the operation gives on two leaf values;
   * None stands for the ValueError raised for NOP and NOT (and for any value
   * that is neither 0 nor 1).
   */
  function ProduceTerminal(v1: int, v2: int, op: BooleanOperation): (r: Option<Terminal>)
    ensures (v1 == 0 || v1 == 1) && (v2 == 0 || v2 == 1) ==> (r.None? <==> !Binary(op))
  {
    var t := Translate(v1, v2, op);
    if t == 0 then Some(Terminal0) else if t == 1 then Some(Terminal1) else None
  }

  /** The terminal a table cell names. */
  function CellTerminal(c: Cell): Option<Terminal>
  {
    match c
    case Zero => Some(Terminal0)
    case One => Some(Terminal1)
    case _ => None
  }

  /** On the terminals 0 and 1, `produce_terminal` follows the operation's table. */
  lemma ProduceTerminalFollowsTable(v1: int, v2: int, op: BooleanOperation)
    requires (v1 == 0 || v1 == 1) && (v2 == 0 || v2 == 1) && Binary(op)
    ensures ProduceTerminal(v1, v2, op) == CellTerminal(OpLookup(op).value[1 + v1][1 + v2])
  {
  }

  /** The Boolean function an edge denotes once a short-circuit decision is taken, given the other edge's value x. */
  function Decided(e: ShortCircuitEvaluation, x: int): int
  {
    match e
    case ZERO => 0
    case ONE => 1
    case FIRST => x
    case SECOND => x
    case NEG_FIRST => 1 - x
    case NEG_SECOND => 1 - x
  }

  /**
   * The decisions are sound: when one edge is the constant v, combining it
   * with any terminal x of the other edge gives what the decision prescribes.
   */
  lemma DecisionsAreSound(op: BooleanOperation, v: int, x: int)
    requires Binary(op) && (v == 0 || v == 1) && (x == 0 || x == 1)
    ensures ProduceTerminal(v, x, op) == Some(if Decided(EarlyReturnLookup(Some(v), op, None).value, x) == 1 then Terminal1 else Terminal0)
    ensures ProduceTerminal(x, v, op) == Some(if Decided(EarlyReturnLookup(None, op, Some(v)).value, x) == 1 then Terminal1 else Terminal0)
  {
  }

  // ---------------------------------------------------------------------
  // Edge inspection
  // ---------------------------------------------------------------------

  const ZeroRules: set<string> := {"X", "L0", "H0", "LPort", "HPort"}
  const OneRules: set<string> := {"X", "L1", "H1", "LPort", "HPort"}

  /** Every target is a leaf with value v. */
  predicate AllLeaves(targets: seq<Option<int>>, v: int)
  {
    forall i :: 0 <= i < |targets| ==> targets[i] == Some(v)
  }

  /**
   * `get_shc_lookup`: the constant an edge denotes, from the leaf values of
   * its targets (None for an inner node) and its box; None when it is not
   * constant. An edge without targets counts as all-0 first.
   */
  function GetShcLookup(targets: seq<Option<int>>, rule: Option<string>): (r: Option<int>)
    ensures r == Some(0) <==> AllLeaves(targets, 0) && rule.Some? && rule.value in ZeroRules
    ensures r == Some(1) <==> !(AllLeaves(targets, 0) && rule.Some? && rule.value in ZeroRules)
                              && AllLeaves(targets, 1) && rule.Some? && rule.value in OneRules
    ensures r.Some? ==> r == Some(0) || r == Some(1)
  {
    if AllLeaves(targets, 0) && rule.Some? && rule.value in ZeroRules then Some(0)
    else if AllLeaves(targets, 1) && rule.Some? && rule.value in OneRules then Some(1)
    else None
  }

  /** An edge to terminals that is constant has a box compatible with that terminal. */
  lemma ConstantEdgeBox(targets: seq<Option<int>>, rule: Option<string>)
    requires targets != [] && GetShcLookup(targets, rule).Some?
    ensures var v := GetShcLookup(targets, rule).value;
      targets[0] == Some(v) && rule.Some? && rule.value !in (if v == 0 then {"L1", "H1"} else {"L0", "H0"})
  {
  }

  /** `node_var_compare`: both nodes absent, or both present with the same variable (nodes given by their variables). */
  predicate NodeVarCompare(var1: Option<int>, var2: Option<int>)
  {
    match (var1, var2)
    case (None, None) => true
    case (Some(a), Some(b)) => a == b
    case _ => false
  }

  /**
   * The decision step of `short_circuit_evaluation`: nothing when the source
   * nodes disagree; otherwise the table entry of the two edges' constants.
   */
  function ShortCircuitDecision(var1: Option<int>, var2: Option<int>, val1: Option<int>, op: BooleanOperation, val2: Option<int>): (r: Option<ShortCircuitEvaluation>)
    ensures r.Some? ==> NodeVarCompare(var1, var2) && Binary(op) && (val1.None? != val2.None?)
    ensures r.Some? && val1.Some? ==> r.value in {ZERO, ONE, SECOND, NEG_SECOND}
    ensures r.Some? && val2.Some? ==> r.value in {ZERO, ONE, FIRST, NEG_FIRST}
  {
    if !NodeVarCompare(var1, var2) then None else EarlyReturnLookup(val1, op, val2)
  }

  /**
   * `short_edge_corrector`: the one target a box keeps when it is replaced by
   * a short edge, the second for LPort and the first otherwise; None stands
   * for the IndexError of too few targets.
   */
  function ShortEdgeCorrector<T>(rule: Option<string>, targets: seq<T>): (r: Option<seq<T>>)
    ensures r.Some? <==> |targets| > (if rule == Some("LPort") then 1 else 0)
    ensures r.Some? ==> |r.value| == 1 && r.value[0] == targets[if rule == Some("LPort") then 1 else 0]
  {
    if rule == Some("LPort") then (if |targets| > 1 then Some([targets[1]]) else None)
    else if |targets| > 0 then Some([targets[0]]) else None
  }
}
