/**
 * Operation tables for the output symbols of boxes, in the manner of Cayley
 * tables: a row and a column are indexed by the kind of the first and the
 * second operand (0 = no target, 1 = the terminal 0, 2 = the terminal 1,
 * 3 = a port), and a cell says what the binary operation produces: "0" or
 * "1", "P1"/"P2" (the first/second port kept), "!P1"/"!P2" (kept negated),
 * "OP" (both ports, the operation is deferred) or "-" (not applicable).
 */
module ApplyTables {
  import opened Optional

  /** `BooleanOperation`, with the enumeration's numbering as `Code`. */
  datatype BooleanOperation = NOP | AND | OR | XOR | IFF | NAND | NOR | IMPLY | NOT
  {
    function Code(): (n: nat)
      ensures n <= 8
    {
      match this
      case NOP => 0
      case AND => 1
      case OR => 2
      case XOR => 3
      case IFF => 4
      case NAND => 5
      case NOR => 6
      case IMPLY => 7
      case NOT => 8
    }
  }

  /** A table cell; `Text` is the string the tables hold. */
  datatype Cell = NA | Zero | One | P1 | P2 | NegP1 | NegP2 | OP
  {
    function Text(): string
    {
      match this
      case NA => "-"
      case Zero => "0"
      case One => "1"
      case P1 => "P1"
      case P2 => "P2"
      case NegP1 => "!P1"
      case NegP2 => "!P2"
      case OP => "OP"
    }
  }

  type Table = seq<seq<Cell>>

  const AndTable: Table := [
    [NA, Zero, NA, NA],
    [Zero, Zero, Zero, Zero],
    [NA, Zero, One, P2],
    [NA, Zero, P1, OP]
  ]

  const OrTable: Table := [
    [NA, NA, One, NA],
    [NA, Zero, One, P2],
    [One, One, One, One],
    [NA, P1, One, OP]
  ]

  const XorTable: Table := [
    [NA, NA, NA, NA],
    [NA, Zero, One, P2],
    [NA, One, Zero, NegP2],
    [NA, P1, NegP1, OP]
  ]

  const IffTable: Table := [
    [NA, NA, NA, NA],
    [NA, One, Zero, NegP2],
    [NA, Zero, One, P2],
    [NA, NegP1, P1, OP]
  ]

  const ImplyTable: Table := [
    [NA, NA, One, NA],
    [One, One, One, One],
    [NA, Zero, One, P2],
    [NA, NegP1, One, OP]
  ]

  const NandTable: Table := [
    [NA, One, NA, NA],
    [One, One, One, One],
    [NA, One, Zero, NegP2],
    [NA, One, NegP1, OP]
  ]

  const NorTable: Table := [
    [NA, NA, Zero, NA],
    [NA, One, Zero, NegP2],
    [Zero, Zero, Zero, Zero],
    [NA, NegP1, Zero, OP]
  ]

  /** A 4x4 table. */
  predicate Square(t: Table)
  {
    |t| == 4 && forall i :: 0 <= i < 4 ==> |t[i]| == 4
  }

  /** `op_lookup`: the table of every binary operation; NOP and NOT have none. */
  function OpLookup(op: BooleanOperation): (r: Option<Table>)
    ensures r.None? <==> op == NOP || op == NOT
    ensures r.Some? ==> Square(r.value) && r.value[3][3] == OP
  {
    match op
    case AND => Some(AndTable)
    case OR => Some(OrTable)
    case XOR => Some(XorTable)
    case IFF => Some(IffTable)
    case NAND => Some(NandTable)
    case NOR => Some(NorTable)
    case IMPLY => Some(ImplyTable)
    case _ => None
  }

  /** A cell negated: 0 and 1 swap, a kept port becomes negated and back; "-" and "OP" stay. */
  function Complement(c: Cell): Cell
  {
    match c
    case Zero => One
    case One => Zero
    case P1 => NegP1
    case NegP1 => P1
    case P2 => NegP2
    case NegP2 => P2
    case _ => c
  }

  /** A cell with the roles of the two operands exchanged. */
  function SwapPorts(c: Cell): Cell
  {
    match c
    case P1 => P2
    case P2 => P1
    case NegP1 => NegP2
    case NegP2 => NegP1
    case _ => c
  }

  /** Each cell of u is the complement of the cell of t. */
  predicate Complementary(t: Table, u: Table)
    requires Square(t) && Square(u)
  {
    forall i, j :: 0 <= i < 4 && 0 <= j < 4 ==> u[i][j] == Complement(t[i][j])
  }

  /** Exchanging the operands transposes the table, with P1 and P2 exchanged. */
  predicate Symmetric(t: Table)
    requires Square(t)
  {
    forall i, j :: 0 <= i < 4 && 0 <= j < 4 ==> t[j][i] == SwapPorts(t[i][j])
  }

  /** Complementing is an involution on the cells the tables use. */
  lemma ComplementInvolution(c: Cell)
    ensures Complement(Complement(c)) == c
  {
  }

  /** The annihilators: a 0 operand of AND gives 0, a 1 operand of OR gives 1. */
  lemma Annihilators()
    ensures forall j :: 0 <= j < 4 ==> AndTable[1][j] == Zero
    ensures forall j :: 0 <= j < 4 ==> OrTable[2][j] == One
  {
  }

  /** NAND, NOR and IFF are AND, OR and XOR with every cell complemented. */
  lemma NegatedTables()
    ensures Square(AndTable) && Square(NandTable) && Complementary(AndTable, NandTable)
    ensures Square(OrTable) && Square(NorTable) && Complementary(OrTable, NorTable)
    ensures Square(XorTable) && Square(IffTable) && Complementary(XorTable, IffTable)
  {
  }

  /** Every table except IMPLY is symmetric in its operands. */
  lemma CommutativeTables(op: BooleanOperation)
    requires op != NOP && op != NOT && op != IMPLY
    ensures OpLookup(op).Some? && Symmetric(OpLookup(op).value)
  {
  }

  /** IMPLY is the one table that is not symmetric: a 0 first operand gives 1, a 0 second operand does not. */
  lemma ImplyNotSymmetric()
    ensures Square(ImplyTable) && !Symmetric(ImplyTable)
  {
    assert ImplyTable[0][1] != SwapPorts(ImplyTable[1][0]);
  }
}
