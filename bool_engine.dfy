/**
 * The BuDDy engine used by the netlist and clause compilers, seen only through
 * the semantics of the functions it builds: a Boolean function is a formula
 * over integer-indexed variables, and two BDDs are the same function when they
 * evaluate alike under every assignment.
 */
module BoolEngine {
  /** A truth assignment to the engine's variables (bdd_ithvar(i) reads a(i)). */
  type Assignment = int -> bool

  datatype Bdd =
    | False
    | True
    | Var(index: int)
    | Not(arg: Bdd)
    | And(left: Bdd, right: Bdd)
    | Or(left: Bdd, right: Bdd)

  /** The Boolean function a BDD denotes. */
  function Eval(f: Bdd, a: Assignment): bool
  {
    match f
    case False => false
    case True => true
    case Var(i) => a(i)
    case Not(g) => !Eval(g, a)
    case And(g, h) => Eval(g, a) && Eval(h, a)
    case Or(g, h) => Eval(g, a) || Eval(h, a)
  }

  /** `(f & g) | (!f & !g)`, spelled as the compiler spells it. */
  function Xnor(f: Bdd, g: Bdd): Bdd
  {
    Or(And(f, g), And(Not(f), Not(g)))
  }

  /** `(f & !g) | (!f & g)`, spelled as the compiler spells it. */
  function Xor(f: Bdd, g: Bdd): Bdd
  {
    Or(And(f, Not(g)), And(Not(f), g))
  }

  lemma XnorMeaning(f: Bdd, g: Bdd, a: Assignment)
    ensures Eval(Xnor(f, g), a) == (Eval(f, a) == Eval(g, a))
  {
    assert Eval(Not(f), a) == !Eval(f, a);
    assert Eval(Not(g), a) == !Eval(g, a);
  }

  lemma XorMeaning(f: Bdd, g: Bdd, a: Assignment)
    ensures Eval(Xor(f, g), a) == (Eval(f, a) != Eval(g, a))
  {
    assert Eval(Not(f), a) == !Eval(f, a);
    assert Eval(Not(g), a) == !Eval(g, a);
  }

  /** Every variable index a formula mentions. */
  function Support(f: Bdd): set<int>
  {
    match f
    case False => {}
    case True => {}
    case Var(i) => {i}
    case Not(g) => Support(g)
    case And(g, h) => Support(g) + Support(h)
    case Or(g, h) => Support(g) + Support(h)
  }

  /** A function depends only on the variables it mentions. */
  lemma {:induction false} EvalOnSupport(f: Bdd, a: Assignment, b: Assignment)
    requires forall i :: i in Support(f) ==> a(i) == b(i)
    ensures Eval(f, a) == Eval(f, b)
  {
    match f
    case False =>
    case True =>
    case Var(i) =>
    case Not(g) => EvalOnSupport(g, a, b);
    case And(g, h) => EvalOnSupport(g, a, b); EvalOnSupport(h, a, b);
    case Or(g, h) => EvalOnSupport(g, a, b); EvalOnSupport(h, a, b);
  }
}
