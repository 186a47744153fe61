/**
 * Reachable states of a tree automaton. Top-down: the states a run started
 * at the roots can visit, found with a work list of states whose transitions
 * have not been followed yet. Bottom-up: the states from which some finite
 * tree can be generated, starting from the states with an output transition
 * and adding the source of a transition once all its children are reachable.
 */
module Reachability {
  import opened Seqs
  import opened Transitions
  import opened Automaton

  // ---------------------------------------------------------------------
  // Top-down
  // ---------------------------------------------------------------------

  /** The entries of succ not in seen, each once, in order of first occurrence. */
  function NewIn(succ: seq<string>, seen: seq<string>): (r: seq<string>)
    ensures Distinct(r) && Elems(r) == Elems(succ) - Elems(seen)
  {
    if succ == [] then []
    else
      var p := NewIn(succ[..|succ| - 1], seen);
      var x := succ[|succ| - 1];
      assert Elems(succ) == Elems(succ[..|succ| - 1]) + {x} by {
        assert succ == succ[..|succ| - 1] + [x];
      }
      if x in seen || x in p then p
      else
        assert Elems(p + [x]) == Elems(p) + {x};
        p + [x]
  }

  /**
   * The inner loops of `reachable_top_down`: every child of every
   * transition of the popped state that is not in the result yet is
   * appended to both the result and the work list.
   */
  method PushChildren(succ: seq<string>, result: seq<string>, worklist: seq<string>) returns (result2: seq<string>, worklist2: seq<string>)
    ensures result2 == result + NewIn(succ, result) && worklist2 == worklist + NewIn(succ, result)
  {
    result2, worklist2 := result, worklist;
    for i := 0 to |succ|
      invariant result2 == result + NewIn(succ[..i], result) && worklist2 == worklist + NewIn(succ[..i], result)
    {
      assert succ[..i + 1][..i] == succ[..i];
      if succ[i] !in result2 {
        worklist2 := worklist2 + [succ[i]];
        result2 := result2 + [succ[i]];
      }
    }
    assert succ[..|succ|] == succ;
  }

  /** Every state known and no longer waiting has had its transitions followed. */
  ghost predicate ExploredTopDown(m: map<string, seq<Transition>>, roots: seq<string>, result: seq<string>, worklist: seq<string>)
  {
    forall v :: v in Elems(roots) + Elems(result) && v !in worklist && v in m ==> Elems(Successors(m, v)) <= Elems(result)
  }

  lemma ExploreTopDownStep(m: map<string, seq<Transition>>, roots: seq<string>, result: seq<string>, worklist: seq<string>, grown: seq<string>)
    requires worklist != [] && ExploredTopDown(m, roots, result, worklist)
    requires var state := worklist[|worklist| - 1]; state in m ==> Elems(Successors(m, state)) <= Elems(result + grown)
    ensures ExploredTopDown(m, roots, result + grown, worklist[..|worklist| - 1] + grown)
  {
    var rest := worklist[..|worklist| - 1];
    assert worklist == rest + [worklist[|worklist| - 1]];
    forall v | v in Elems(roots) + Elems(result + grown) && v !in rest + grown && v in m
      ensures Elems(Successors(m, v)) <= Elems(result + grown)
    {
      assert v in Elems(roots) + Elems(result);
    }
  }

  /** The top-down invariant of the work-list loop. */
  ghost predicate TopDownInv(m: map<string, seq<Transition>>, roots: seq<string>, countItself: bool, universe: set<string>,
                             result: seq<string>, worklist: seq<string>, added: seq<string>)
  {
    && result == (if countItself then roots else []) + added
    && Distinct(added) && Elems(added) <= universe
    && (forall x :: x in added ==> x !in (if countItself then roots else []))
    && Elems(worklist) <= Elems(roots) + Elems(result)
    && OnlyReachable(m, roots, Elems(result))
    && (!countItself ==> ChildrenOnly(m, roots, Elems(result)))
    && ExploredTopDown(m, roots, result, worklist)
  }

  /** Every state of X is a child of a transition of a root or of a state of X. */
  ghost predicate ChildrenOnly(m: map<string, seq<Transition>>, roots: seq<string>, X: set<string>)
  {
    X <= ChildStatesIn(Elems(roots) + X, m)
  }

  lemma ChildrenStep(m: map<string, seq<Transition>>, roots: seq<string>, X: set<string>, state: string, grown: seq<string>)
    requires ChildrenOnly(m, roots, X) && state in Elems(roots) + X && state in m
    requires Elems(grown) <= Elems(Successors(m, state))
    ensures ChildrenOnly(m, roots, X + Elems(grown))
  {
    var K := Elems(roots) + (X + Elems(grown));
    forall c | c in X + Elems(grown)
      ensures c in ChildStatesIn(K, m)
    {
      if c in X {
        var k, t :| k in Elems(roots) + X && k in m && t in m[k] && c in t.children;
        assert k in K;
      } else {
        assert c in Successors(m, state);
        SuccessorsAreChildren(m[state], c);
        var t :| t in m[state] && c in t.children;
        assert state in K;
      }
    }
  }

  /** x is a child of a transition of a reachable state: it is reachable in one or more steps. */
  ghost predicate ReachableInSteps(m: map<string, seq<Transition>>, roots: seq<string>, x: string)
  {
    exists k, t :: Reachable(m, roots, k) && k in m && t in m[k] && x in t.children
  }

  /**
   * The finished result holds exactly the reachable states when the roots
   * count themselves, and exactly the states reachable in one or more steps
   * otherwise.
   */
  lemma TopDownExact(m: map<string, seq<Transition>>, roots: seq<string>, countItself: bool, result: seq<string>)
    requires OnlyReachable(m, roots, Elems(result)) && ExploredTopDown(m, roots, result, [])
    requires countItself ==> Elems(roots) <= Elems(result)
    requires !countItself ==> ChildrenOnly(m, roots, Elems(result))
    ensures forall x :: x in result <==> if countItself then Reachable(m, roots, x) else ReachableInSteps(m, roots, x)
  {
    ClosedTopDown(m, roots, result);
    if countItself {
      ExactlyReachable(m, roots, result);
    } else {
      forall x | x in result
        ensures ReachableInSteps(m, roots, x)
      {
        assert x in Elems(result);
        var k, t :| k in Elems(roots) + Elems(result) && k in m && t in m[k] && x in t.children;
        forall S | ClosedAbove(m, roots, S)
          ensures k in S
        {
        }
        assert Reachable(m, roots, k);
      }
      forall x | ReachableInSteps(m, roots, x)
        ensures x in result
      {
        var k, t :| Reachable(m, roots, k) && k in m && t in m[k] && x in t.children;
        assert ClosedAbove(m, roots, Elems(roots) + Elems(result));
        assert k in Elems(roots) + Elems(result);
        assert Elems(Successors(m, k)) <= Elems(result);
        SuccessorsHold(m, k, t, x);
        assert x in Elems(Successors(m, k));
      }
    }
  }

  /** Appending states new to the result keeps the discovered states distinct, outside the initial part and inside the universe. */
  lemma AddedStep(init: seq<string>, added: seq<string>, result: seq<string>, universe: set<string>, grown: seq<string>)
    requires result == init + added && Distinct(added) && Elems(added) <= universe
    requires forall x :: x in added ==> x !in init
    requires Distinct(grown) && Elems(grown) <= universe && Elems(grown) !! Elems(result)
    ensures Distinct(added + grown) && Elems(added + grown) <= universe
    ensures forall x :: x in added + grown ==> x !in init
    ensures result + grown == init + (added + grown)
    ensures |added + grown| <= |universe|
  {
    forall x | x in grown
      ensures x !in added && x !in init
    {
      assert x in Elems(grown);
    }
    DistinctAppend(added, grown);
    assert Elems(added + grown) == Elems(added) + Elems(grown);
    OrderBound(added + grown, universe);
  }

  /** The popped state is known, and the shorter work list plus the new states holds only known states. */
  lemma WorklistStep(roots: seq<string>, result: seq<string>, worklist: seq<string>, grown: seq<string>)
    requires worklist != [] && Elems(worklist) <= Elems(roots) + Elems(result)
    ensures worklist[|worklist| - 1] in Elems(roots) + Elems(result)
    ensures Elems(worklist[..|worklist| - 1] + grown) <= Elems(roots) + Elems(result + grown)
  {
    var rest := worklist[..|worklist| - 1];
    assert worklist == rest + [worklist[|worklist| - 1]];
    assert Elems(result + grown) == Elems(result) + Elems(grown);
    assert Elems(rest + grown) == Elems(rest) + Elems(grown);
    assert Elems(worklist) == Elems(rest) + {worklist[|worklist| - 1]};
  }

  /** Following the transitions of a known state keeps the known states reachable (and children, when the roots do not count). */
  lemma ReachableStep(m: map<string, seq<Transition>>, roots: seq<string>, countItself: bool, universe: set<string>,
                      result: seq<string>, state: string, grown: seq<string>)
    requires universe == StatesOf(roots, m)
    requires state in Elems(roots) + Elems(result)
    requires OnlyReachable(m, roots, Elems(result)) && (!countItself ==> ChildrenOnly(m, roots, Elems(result)))
    requires grown == if state in m then NewIn(Successors(m, state), result) else []
    ensures Elems(grown) <= universe && Elems(grown) !! Elems(result) && Distinct(grown)
    ensures OnlyReachable(m, roots, Elems(result + grown))
    ensures !countItself ==> ChildrenOnly(m, roots, Elems(result + grown))
    ensures state in m ==> Elems(Successors(m, state)) <= Elems(result + grown)
  {
    assert Elems(result + grown) == Elems(result) + Elems(grown);
    if state in m {
      SuccessorsInUniverse(roots, m);
      assert SuccessorsWithin(m, state, universe);
      ReachStep(m, roots, Elems(result), state, grown);
      if !countItself {
        ChildrenStep(m, roots, Elems(result), state, grown);
      }
    }
  }

  /** One pop of the top-down work list keeps the loop invariant. */
  lemma TopDownStep(m: map<string, seq<Transition>>, roots: seq<string>, countItself: bool, universe: set<string>,
                    result: seq<string>, worklist: seq<string>, added: seq<string>, grown: seq<string>)
    requires universe == StatesOf(roots, m)
    requires worklist != [] && TopDownInv(m, roots, countItself, universe, result, worklist, added)
    requires var state := worklist[|worklist| - 1];
      grown == if state in m then NewIn(Successors(m, state), result) else []
    ensures TopDownInv(m, roots, countItself, universe, result + grown, worklist[..|worklist| - 1] + grown, added + grown)
    ensures |added + grown| <= |universe|
  {
    var state := worklist[|worklist| - 1];
    var init := if countItself then roots else [];
    assert result == init + added && Distinct(added) && Elems(added) <= universe;
    assert forall x :: x in added ==> x !in init;
    WorklistStep(roots, result, worklist, grown);
    ReachableStep(m, roots, countItself, universe, result, state, grown);
    AddedStep(init, added, result, universe, grown);
    ExploreTopDownStep(m, roots, result, worklist, grown);
  }

  /**
   * `reachable_top_down`: the roots first when `countItself` is set, then
   * every state reached through a transition, once each in order of
   * discovery. The result holds only reachable states, is closed under the
   * children of its states' transitions, and contains every child of a
   * root's transitions.
   */
  method ReachableTopDown(roots: seq<string>, m: map<string, seq<Transition>>, countItself: bool) returns (result: seq<string>)
    ensures countItself ==> |result| >= |roots| && result[..|roots|] == roots
    ensures !countItself ==> ChildrenOnly(m, roots, Elems(result))
    ensures forall x :: x in result <==> if countItself then Reachable(m, roots, x) else ReachableInSteps(m, roots, x)
    ensures (countItself ==> Distinct(roots)) ==> Distinct(result)
    ensures OnlyReachable(m, roots, Elems(result))
    ensures Closed(m, Elems(result)) && Closed(m, Elems(roots) + Elems(result))
  {
    ghost var universe := StatesOf(roots, m);
    var worklist := roots;
    result := if countItself then roots else [];
    ghost var added: seq<string> := [];
    TopDownInit(m, roots, countItself);
    while |worklist| > 0
      invariant TopDownInv(m, roots, countItself, universe, result, worklist, added)
      invariant |added| <= |universe|
      decreases |universe| - |added|, |worklist|
    {
      var state := worklist[|worklist| - 1];
      ghost var grown := if state in m then NewIn(Successors(m, state), result) else [];
      TopDownStep(m, roots, countItself, universe, result, worklist, added, grown);
      worklist := worklist[..|worklist| - 1];
      if state !in m {
        assert result + grown == result && worklist + grown == worklist && added + grown == added;
        continue;
      }
      result, worklist := PushChildren(Successors(m, state), result, worklist);
      added := added + grown;
    }
    TopDownDone(m, roots, countItself, universe, result, added);
  }

  lemma TopDownInit(m: map<string, seq<Transition>>, roots: seq<string>, countItself: bool)
    ensures TopDownInv(m, roots, countItself, StatesOf(roots, m), if countItself then roots else [], roots, [])
  {
    var result := if countItself then roots else [];
    assert result + [] == result;
    assert Elems(result) <= Elems(roots);
  }

  lemma TopDownDone(m: map<string, seq<Transition>>, roots: seq<string>, countItself: bool, universe: set<string>,
                    result: seq<string>, added: seq<string>)
    requires TopDownInv(m, roots, countItself, universe, result, [], added)
    ensures countItself ==> |result| >= |roots| && result[..|roots|] == roots
    ensures forall x :: x in result <==> if countItself then Reachable(m, roots, x) else ReachableInSteps(m, roots, x)
    ensures (countItself ==> Distinct(roots)) ==> Distinct(result)
    ensures Closed(m, Elems(result)) && Closed(m, Elems(roots) + Elems(result))
  {
    if countItself {
      assert result[..|roots|] == roots;
    }
    ClosedTopDown(m, roots, result);
    TopDownExact(m, roots, countItself, result);
    if (countItself ==> Distinct(roots)) {
      DistinctAppend(if countItself then roots else [], added);
    }
  }
  lemma ClosedTopDown(m: map<string, seq<Transition>>, roots: seq<string>, result: seq<string>)
    requires ExploredTopDown(m, roots, result, [])
    ensures Closed(m, Elems(result)) && Closed(m, Elems(roots) + Elems(result))
  {
    forall k, t, c | k in Elems(roots) + Elems(result) && k in m && t in m[k] && c in t.children
      ensures c in Elems(result)
    {
      SuccessorsHold(m, k, t, c);
    }
  }

  lemma DistinctAppend(a: seq<string>, b: seq<string>)
    requires Distinct(a) && Distinct(b) && forall x :: x in b ==> x !in a
    ensures Distinct(a + b)
  {
    forall i, j | 0 <= i < j < |a + b|
      ensures (a + b)[i] != (a + b)[j]
    {
      if j < |a| {
        assert (a + b)[i] == a[i] && (a + b)[j] == a[j];
      } else if i < |a| {
        assert (a + b)[j] == b[j - |a|] && b[j - |a|] in b;
        assert (a + b)[i] == a[i];
      } else {
        assert (a + b)[i] == b[i - |a|] && (a + b)[j] == b[j - |a|];
      }
    }
  }

  /**
   * `get_all_state_reachability`: for each state, the states top-down
   * reachable from it (itself included when `reflexive`), computed by
   * making that state the only root; the roots are put back at the end.
   */
  method GetAllStateReachability(ta: TreeAut, reflexive: bool) returns (r: map<string, set<string>>)
    requires ta.Valid()
    modifies ta`roots
    ensures ta.roots == old(ta.roots)
    ensures r.Keys == StatesOf(old(ta.roots), ta.transitions)
    ensures forall q :: q in r ==> OnlyReachable(ta.transitions, [q], r[q]) && Closed(ta.transitions, r[q])
    ensures forall q :: q in r ==> Closed(ta.transitions, {q} + r[q]) && (reflexive ==> q in r[q])
    ensures forall q, x :: q in r ==>
      (x in r[q] <==> if reflexive then Reachable(ta.transitions, [q], x) else ReachableInSteps(ta.transitions, [q], x))
  {
    var oldRoots := ta.roots;
    r := map[];
    var states := ta.GetStates();
    for k := 0 to |states|
      invariant ta.transitions == old(ta.transitions) && ta.keys == old(ta.keys) && ta.Valid()
      invariant r.Keys == Elems(states[..k])
      invariant forall q :: q in r ==> OnlyReachable(ta.transitions, [q], r[q]) && Closed(ta.transitions, r[q])
      invariant forall q :: q in r ==> Closed(ta.transitions, {q} + r[q]) && (reflexive ==> q in r[q])
      invariant forall q, x :: q in r ==>
        (x in r[q] <==> if reflexive then Reachable(ta.transitions, [q], x) else ReachableInSteps(ta.transitions, [q], x))
    {
      var q := states[k];
      ta.roots := [q];
      var found := ReachableTopDown(ta.roots, ta.transitions, reflexive);
      assert Elems([q]) == {q};
      if reflexive {
        assert found[..1] == [q];
        assert found[0] == q;
      }
      r := r[q := Elems(found)];
      assert states[..k + 1] == states[..k] + [q];
    }
    assert states[..|states|] == states;
    ta.roots := oldRoots;
  }

  // ---------------------------------------------------------------------
  // Bottom-up
  // ---------------------------------------------------------------------

  /**
   * `get_symbol_arity_dict` for one symbol: the box-array length of the
   * first transition carrying it, or its number of children when the box
   * array is empty (0 for a symbol no transition carries).
   */
  function SymbolArity(es: seq<Transition>, symbol: string): int
  {
    if es == [] then 0
    else if es[0].info.symbol == symbol then
      (if es[0].info.boxArray == [] then |es[0].children| else |es[0].info.boxArray|)
    else SymbolArity(es[1..], symbol)
  }

  /** A transition the bottom-up search follows: its symbol has a positive arity and it has children. */
  predicate Productive(es: seq<Transition>, e: Transition)
  {
    SymbolArity(es, e.info.symbol) > 0 && e.children != []
  }

  /** Every productive transition whose children all lie in S has its source in S. */
  ghost predicate UpClosed(es: seq<Transition>, S: set<string>)
  {
    forall e :: e in es && Productive(es, e) && Elems(e.children) <= S ==> e.src in S
  }

  /** X lies within every up-closed set containing the output states. */
  ghost predicate OnlyProductive(es: seq<Transition>, outputs: set<string>, X: set<string>)
  {
    forall S :: outputs <= S && UpClosed(es, S) ==> X <= S
  }

  /** x lies in every up-closed set containing the output states: some finite tree can be generated from x. */
  ghost predicate Generating(es: seq<Transition>, outputs: set<string>, x: string)
  {
    forall S :: outputs <= S && UpClosed(es, S) ==> x in S
  }

  /** A list holding the output states, up-closed and holding only generating states holds exactly the generating states. */
  lemma {:induction false} ExactlyGenerating(es: seq<Transition>, outputs: set<string>, result: seq<string>)
    requires outputs <= Elems(result) && UpClosed(es, Elems(result)) && OnlyProductive(es, outputs, Elems(result))
    ensures forall x :: x in result <==> Generating(es, outputs, x)
  {
    forall x
      ensures x in result <==> Generating(es, outputs, x)
    {
      if x in result {
        assert x in Elems(result);
      }
    }
  }

  function SrcSet(es: seq<Transition>): set<string>
  {
    set e | e in es :: e.src
  }

  /** The keys of `get_symbol_arity_dict`: each symbol once, in order of first occurrence. */
  function Symbols(es: seq<Transition>): (r: seq<string>)
    ensures Distinct(r) && forall e :: e in es ==> e.info.symbol in r
  {
    var labels := seq(|es|, i requires 0 <= i < |es| => es[i].info.symbol);
    var r := Dedup(labels);
    assert forall e :: e in es ==> e.info.symbol in Elems(labels) by {
      forall e | e in es
        ensures e.info.symbol in Elems(labels)
      {
        var i :| 0 <= i < |es| && es[i] == e;
        assert labels[i] == e.info.symbol;
      }
    }
    r
  }

  /**
   * The pass of one pop of `reachable_bottom_up` for one symbol of positive
   * arity: the tuples are built over the result as it stands when the pass
   * starts, and the source of every transition with that symbol whose
   * children form such a tuple joins the result and the work list. A tuple
   * of `generate_possible_children` contains the popped state, has one of
   * the lengths of the symbol's transitions around that state, and draws
   * every entry from the result; the test is stated by that meaning.
   */
  method FireSymbol(es: seq<Transition>, outputs: seq<string>, state: string, symbol: string, result: seq<string>)
    returns (result2: seq<string>, grown: seq<string>)
    requires OnlyProductive(es, Elems(outputs), Elems(result)) && Distinct(result) && SymbolArity(es, symbol) > 0
    ensures result2 == result + grown && Distinct(result2) && Elems(grown) <= SrcSet(es)
    ensures OnlyProductive(es, Elems(outputs), Elems(result2))
    ensures forall e :: e in es && e.info.symbol == symbol && state in e.children && Elems(e.children) <= Elems(result) ==> e.src in result2
  {
    var snapshot := result;
    result2, grown := result, [];
    for i := 0 to |es|
      invariant result2 == result + grown && Distinct(result2) && Elems(grown) <= SrcSet(es)
      invariant OnlyProductive(es, Elems(outputs), Elems(result2))
      invariant forall k :: 0 <= k < i && es[k].info.symbol == symbol && state in es[k].children && Elems(es[k].children) <= Elems(result) ==> es[k].src in result2
    {
      var e := es[i];
      if e.info.symbol == symbol && state in e.children && (forall c :: c in e.children ==> c in snapshot) {
        if e.src !in result2 {
          forall S | Elems(outputs) <= S && UpClosed(es, S)
            ensures Elems(result2 + [e.src]) <= S
          {
            assert Elems(result2 + [e.src]) == Elems(result2) + {e.src};
            assert Elems(result2) == Elems(result) + Elems(grown);
          }
          DistinctAppend(result2, [e.src]);
          result2, grown := result2 + [e.src], grown + [e.src];
        }
      } else if e.info.symbol == symbol && state in e.children && Elems(e.children) <= Elems(result) {
        forall c | c in e.children
          ensures c in snapshot
        {
          assert c in Elems(e.children);
        }
      }
    }
    forall e | e in es && e.info.symbol == symbol && state in e.children && Elems(e.children) <= Elems(result)
      ensures e.src in result2
    {
      var k :| 0 <= k < |es| && es[k] == e;
    }
  }

  /**
   * One pop of `reachable_bottom_up`: a pass per symbol of positive arity,
   * in the order of the arity dictionary. Afterwards the source of every
   * productive transition having the popped state among its children, all
   * of them in the result before the pop, is in the result.
   */
  method FireTransitions(es: seq<Transition>, outputs: seq<string>, state: string, result: seq<string>)
    returns (result2: seq<string>, grown: seq<string>)
    requires OnlyProductive(es, Elems(outputs), Elems(result)) && Distinct(result)
    ensures result2 == result + grown && Distinct(result2) && Elems(grown) <= SrcSet(es)
    ensures OnlyProductive(es, Elems(outputs), Elems(result2))
    ensures forall e :: e in es && Productive(es, e) && state in e.children && Elems(e.children) <= Elems(result) ==> e.src in result2
  {
    var symbols := Symbols(es);
    result2, grown := result, [];
    for j := 0 to |symbols|
      invariant result2 == result + grown && Distinct(result2) && Elems(grown) <= SrcSet(es)
      invariant OnlyProductive(es, Elems(outputs), Elems(result2))
      invariant forall e :: e in es && e.info.symbol in symbols[..j] && Productive(es, e) && state in e.children && Elems(e.children) <= Elems(result) ==> e.src in result2
    {
      if SymbolArity(es, symbols[j]) <= 0 {
        continue;
      }
      var more;
      ghost var before := result2;
      result2, more := FireSymbol(es, outputs, state, symbols[j], result2);
      assert Elems(result) <= Elems(before);
      grown := grown + more;
    }
    assert symbols[..|symbols|] == symbols;
  }

  /** Every productive transition whose children are all settled (in the result, no longer waiting) has its source in the result. */
  ghost predicate ExploredBottomUp(es: seq<Transition>, result: seq<string>, worklist: seq<string>)
  {
    forall e :: e in es && Productive(es, e) && Elems(e.children) <= Elems(result) && (forall c :: c in e.children ==> c !in worklist)
      ==> e.src in result
  }

  lemma ExploreBottomUpStep(es: seq<Transition>, result: seq<string>, worklist: seq<string>, result2: seq<string>, grown: seq<string>)
    requires worklist != [] && ExploredBottomUp(es, result, worklist)
    requires result2 == result + grown
    requires forall e :: e in es && Productive(es, e) && worklist[|worklist| - 1] in e.children && Elems(e.children) <= Elems(result) ==> e.src in result2
    ensures ExploredBottomUp(es, result2, worklist[..|worklist| - 1] + grown)
  {
    var state := worklist[|worklist| - 1];
    var rest := worklist[..|worklist| - 1];
    assert worklist == rest + [state];
    forall e | e in es && Productive(es, e) && Elems(e.children) <= Elems(result2) && (forall c :: c in e.children ==> c !in rest + grown)
      ensures e.src in result2
    {
      assert Elems(e.children) <= Elems(result) by {
        forall c | c in e.children
          ensures c in result
        {
          assert c in Elems(e.children);
          assert c in Elems(result2);
          assert c !in rest + grown;
        }
      }
    }
  }

  /** The bottom-up invariant of the work-list loop. */
  ghost predicate BottomUpInv(es: seq<Transition>, outputs: seq<string>, universe: set<string>, result: seq<string>, worklist: seq<string>)
  {
    && |result| >= |outputs| && result[..|outputs|] == outputs
    && Distinct(result) && Elems(result) <= universe
    && Elems(worklist) <= Elems(result)
    && OnlyProductive(es, Elems(outputs), Elems(result))
    && ExploredBottomUp(es, result, worklist)
  }

  /**
   * `reachable_bottom_up` over the transitions of an automaton in
   * dictionary order and its output states in the order the set yields
   * them: the output states first, then every state from which a tree can
   * be generated. The result holds only such states and is closed: a
   * productive transition whose children are all in it has its source in it.
   */
  method BottomUpFrom(es: seq<Transition>, outputs: seq<string>) returns (result: seq<string>)
    requires Distinct(outputs)
    ensures |result| >= |outputs| && result[..|outputs|] == outputs && Distinct(result)
    ensures OnlyProductive(es, Elems(outputs), Elems(result))
    ensures UpClosed(es, Elems(result))
  {
    ghost var universe := Elems(outputs) + SrcSet(es);
    var worklist := outputs;
    result := outputs;
    forall e | e in es && Productive(es, e) && Elems(e.children) <= Elems(result)
      ensures exists c :: c in e.children && c in worklist
    {
      assert e.children[0] in Elems(e.children);
    }
    while |worklist| > 0
      invariant BottomUpInv(es, outputs, universe, result, worklist)
      decreases |universe| - |result|, |worklist|
    {
      var state := worklist[|worklist| - 1];
      var result2, grown := FireTransitions(es, outputs, state, result);
      ExploreBottomUpStep(es, result, worklist, result2, grown);
      assert Elems(worklist[..|worklist| - 1] + grown) <= Elems(result2) by {
        assert worklist == worklist[..|worklist| - 1] + [state];
        assert Elems(worklist[..|worklist| - 1] + grown) == Elems(worklist[..|worklist| - 1]) + Elems(grown);
        assert Elems(result2) == Elems(result) + Elems(grown);
      }
      assert result2[..|outputs|] == result[..|outputs|];
      assert Elems(result2) == Elems(result) + Elems(grown);
      OrderBound(result2, universe);
      worklist := worklist[..|worklist| - 1] + grown;
      result := result2;
    }
    forall e | e in es && Productive(es, e) && Elems(e.children) <= Elems(result)
      ensures e.src in Elems(result)
    {
      assert forall c :: c in e.children ==> c !in worklist;
    }
  }

  /** The states of a set in the arbitrary order Python's set iteration yields them. */
  method ListOfSet(s: set<string>) returns (r: seq<string>)
    ensures Distinct(r) && Elems(r) == s
  {
    r := [];
    var rest := s;
    while rest != {}
      invariant Distinct(r) && Elems(r) + rest == s && Elems(r) !! rest
      decreases |rest|
    {
      var x :| x in rest;
      DistinctAppend(r, [x]);
      r := r + [x];
      rest := rest - {x};
    }
  }

  /**
   * `reachable_bottom_up` on an automaton: the output states (in set
   * order) seed the search over the transitions in dictionary order. The
   * result holds every output state, is closed bottom-up, and holds only
   * states every bottom-up closed set of output states contains.
   */
  method ReachableBottomUp(ta: TreeAut) returns (result: seq<string>)
    requires ta.Valid()
    ensures Distinct(result)
    ensures OutputStates(ta.transitions) <= Elems(result)
    ensures OnlyProductive(ta.Edges(), OutputStates(ta.transitions), Elems(result))
    ensures UpClosed(ta.Edges(), Elems(result))
  {
    var outputs := ta.GetOutputStates();
    var order := ListOfSet(outputs);
    result := BottomUpFrom(ta.Edges(), order);
    assert Elems(order) <= Elems(result) by {
      forall x | x in order
        ensures x in result
      {
        var i :| 0 <= i < |order| && order[i] == x;
        assert result[..|order|][i] == x;
      }
    }
  }

  /** The states with an output transition (`get_output_states`). */
  function OutputStates(m: map<string, seq<Transition>>): set<string>
  {
    set k | k in m && HasOutput(m[k])
  }
}
