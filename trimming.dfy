/**
 * Trimming a tree automaton: removing the states from which no finite tree
 * can be generated (bottom-up useless) and the states no run started at a
 * root visits (top-down useless). Every operation works on a copy.
 */
module Trimming {
  import opened Optional
  import opened Seqs
  import opened Transitions
  import opened Automaton
  import opened Reachability

  /** `copy.deepcopy` of an automaton: a fresh object with the same contents. */
  method Copy(ta: TreeAut) returns (w: TreeAut)
    requires ta.Valid()
    ensures fresh(w) && w.Valid()
    ensures w.roots == ta.roots && w.keys == ta.keys && w.transitions == ta.transitions
    ensures w.name == ta.name && w.portArity == ta.portArity
  {
    w := new TreeAut(ta.roots, ta.keys, ta.transitions, ta.name, ta.portArity);
    w.portArity := ta.portArity;
  }

  /** Every state and transition source of the automaton is top-down reachable and generating. */
  ghost predicate IsTrim(ta: TreeAut)
    reads ta
  {
    forall x :: x in ta.States() + SourcesIn(ta.transitions) ==>
      Reachable(ta.transitions, ta.roots, x) && Generating(ta.Edges(), OutputStates(ta.transitions), x)
  }

  /** Removing roots, keys and transitions never adds a state. */
  lemma StatesWithin(roots: seq<string>, m: map<string, seq<Transition>>, roots0: seq<string>, m0: map<string, seq<Transition>>)
    requires multiset(roots) <= multiset(roots0) && m.Keys <= m0.Keys
    requires forall k, t :: k in m && t in m[k] ==> t in m0[k]
    ensures StatesOf(roots, m) <= StatesOf(roots0, m0)
  {
    forall x | x in roots
      ensures x in roots0
    {
      assert x in multiset(roots);
    }
  }

  /** The states of an automaton from which no finite tree can be generated. */
  ghost function NotGenerating(roots: seq<string>, keys: seq<string>, m: map<string, seq<Transition>>): set<string>
  {
    set x | x in StatesOf(roots, m) + SourcesIn(m) && !Generating(EdgesIn(keys, m), OutputStates(m), x)
  }

  /** The states of an automaton that no run from a root visits. */
  ghost function NotReached(roots: seq<string>, m: map<string, seq<Transition>>): set<string>
  {
    set x | x in StatesOf(roots, m) + SourcesIn(m) && !Reachable(m, roots, x)
  }

  /**
   * `remove_useless_states`: on a copy, the states that are not bottom-up
   * reachable are removed, then those that are not top-down reachable in
   * what is left. The input is not changed. The result is exactly the input
   * with its non-generating states removed as `shrink_tree_aut` removes
   * them, and then the states unreachable in that automaton removed in the
   * same way; so it has no state the input lacks, keeps only transitions of
   * the input, keeps only states generating a tree in the input, and is the
   * input itself when the input is already trim.
   */
  method RemoveUselessStates(ta: TreeAut) returns (w: TreeAut)
    requires ta.Valid()
    ensures fresh(w) && w.Valid()
    ensures var g1 := NotGenerating(ta.roots, ta.keys, ta.transitions);
      var r1, k1, m1 := FirstsDropped(ta.roots, g1), KeysWithout(ta.keys, g1), PrunedBy(ta.transitions, g1);
      var g2 := NotReached(r1, m1);
      w.roots == FirstsDropped(r1, g2) && w.keys == KeysWithout(k1, g2) && w.transitions == PrunedBy(m1, g2)
    ensures w.transitions.Keys <= ta.transitions.Keys
    ensures forall k, t :: k in w.transitions && t in w.transitions[k] ==> t in ta.transitions[k]
    ensures multiset(w.roots) <= multiset(ta.roots)
    ensures w.States() <= ta.States()
    ensures forall k :: k in w.transitions ==> Generating(ta.Edges(), OutputStates(ta.transitions), k)
    ensures forall k, t, c :: k in w.transitions && t in w.transitions[k] && c in t.children ==>
      Generating(ta.Edges(), OutputStates(ta.transitions), c)
    ensures IsTrim(ta) ==> w.roots == ta.roots && w.keys == ta.keys && w.transitions == ta.transitions
  {
    w := Copy(ta);
    var bottomUp := ReachableBottomUp(w);
    ExactlyGenerating(ta.Edges(), OutputStates(ta.transitions), bottomUp);
    w.ShrinkTreeAut(Elems(bottomUp));
    ghost var r1, k1, m1 := w.roots, w.keys, w.transitions;
    var topDown := ReachableTopDown(w.roots, w.transitions, true);
    w.ShrinkTreeAut(Elems(topDown));
    TrimmedParts(ta.roots, ta.keys, ta.transitions, Elems(bottomUp), r1, k1, m1, Elems(topDown), w.roots, w.keys, w.transitions);
  }

  /**
   * The two shrinking passes of `remove_useless_states` over plain values:
   * B holds exactly the generating states of the input and T exactly the
   * reachable states after the first pass.
   */
  lemma TrimmedParts(roots: seq<string>, keys: seq<string>, m: map<string, seq<Transition>>, B: set<string>,
                     r1: seq<string>, k1: seq<string>, m1: map<string, seq<Transition>>, T: set<string>,
                     r2: seq<string>, k2: seq<string>, m2: map<string, seq<Transition>>)
    requires forall x :: x in B <==> Generating(EdgesIn(keys, m), OutputStates(m), x)
    requires var g := Removed(roots, m, B);
      r1 == FirstsDropped(roots, g) && k1 == KeysWithout(keys, g) && m1 == PrunedBy(m, g)
    requires forall x :: x in T <==> Reachable(m1, r1, x)
    requires var g := Removed(r1, m1, T);
      r2 == FirstsDropped(r1, g) && k2 == KeysWithout(k1, g) && m2 == PrunedBy(m1, g)
    ensures var g1 := NotGenerating(roots, keys, m);
      var g2 := NotReached(FirstsDropped(roots, g1), PrunedBy(m, g1));
      r2 == FirstsDropped(FirstsDropped(roots, g1), g2)
      && k2 == KeysWithout(KeysWithout(keys, g1), g2)
      && m2 == PrunedBy(PrunedBy(m, g1), g2)
    ensures m2.Keys <= m.Keys
    ensures forall k, t :: k in m2 && t in m2[k] ==> t in m[k]
    ensures multiset(r2) <= multiset(roots)
    ensures StatesOf(r2, m2) <= StatesOf(roots, m)
    ensures forall k :: k in m2 ==> Generating(EdgesIn(keys, m), OutputStates(m), k)
    ensures forall k, t, c :: k in m2 && t in m2[k] && c in t.children ==> Generating(EdgesIn(keys, m), OutputStates(m), c)
    ensures (forall x :: x in StatesOf(roots, m) + SourcesIn(m) ==> Reachable(m, roots, x) && Generating(EdgesIn(keys, m), OutputStates(m), x))
      ==> r2 == roots && k2 == keys && m2 == m
  {
    var g1 := Removed(roots, m, B);
    assert g1 == NotGenerating(roots, keys, m);
    var g2 := Removed(r1, m1, T);
    assert g2 == NotReached(r1, m1);
    forall k, t, c | k in m2 && t in m2[k] && c in t.children
      ensures Generating(EdgesIn(keys, m), OutputStates(m), c)
    {
      assert t in m1[k] && t in m[k] && Spares(t, g1);
      assert c in ChildStatesIn(m.Keys, m);
    }
    StatesWithin(r2, m2, roots, m);
    if forall x :: x in StatesOf(roots, m) + SourcesIn(m) ==> Reachable(m, roots, x) && Generating(EdgesIn(keys, m), OutputStates(m), x) {
      assert g1 == {};
      NothingDropped(roots, keys, m);
      assert g2 == {};
      NothingDropped(r1, k1, m1);
    }
  }

  /** The dictionary of an automaton restricted to its top-down reachable states. */
  ghost function ReachablePart(roots: seq<string>, m: map<string, seq<Transition>>): map<string, seq<Transition>>
  {
    map k | k in m && Reachable(m, roots, k) :: m[k]
  }

  /**
   * `shrink_to_top_down_reachable` as written: on a copy, every state of
   * `get_states` that is not top-down reachable is popped from the
   * dictionary. A state that is not a key makes `pop` raise KeyError
   * (None here); such a state exists exactly when some unreachable state
   * occurs only as a child.
   */
  method ShrinkToTopDownReachableAsWritten(ta: TreeAut) returns (r: Option<TreeAut>)
    requires ta.Valid()
    ensures r.None? <==> exists x :: x in ta.States() && !Reachable(ta.transitions, ta.roots, x) && x !in ta.transitions
    ensures r.Some? ==> fresh(r.value) && r.value.Valid()
    ensures r.Some? ==> r.value.roots == ta.roots && r.value.transitions == ReachablePart(ta.roots, ta.transitions)
  {
    var w, unreachable := ReachabilitySplit(ta);
    for j := 0 to |unreachable|
      invariant w.Valid() && w.roots == ta.roots
      invariant w.transitions == map k | k in ta.transitions && k !in unreachable[..j] :: ta.transitions[k]
      invariant forall x :: x in unreachable[..j] ==> x in ta.transitions
    {
      var x := unreachable[j];
      if x !in w.transitions {
        assert x !in unreachable[..j];
        return None;
      }
      w.keys := Without(w.keys, x);
      w.transitions := w.transitions - {x};
      assert unreachable[..j + 1] == unreachable[..j] + [x];
    }
    assert unreachable[..|unreachable|] == unreachable;
    return Some(w);
  }

  /**
   * The first half of both shrinking functions: a copy of the automaton
   * and its states that are not top-down reachable, in set order.
   */
  method ReachabilitySplit(ta: TreeAut) returns (w: TreeAut, unreachable: seq<string>)
    requires ta.Valid()
    ensures fresh(w) && w.Valid() && w.roots == ta.roots && w.keys == ta.keys && w.transitions == ta.transitions
    ensures Distinct(unreachable)
    ensures forall x :: x in unreachable <==> x in ta.States() && !Reachable(ta.transitions, ta.roots, x)
  {
    w := Copy(ta);
    var topDown := ReachableTopDown(w.roots, w.transitions, true);
    assert Elems(w.roots) <= Elems(topDown) by {
      forall x | x in w.roots
        ensures x in topDown
      {
        var i :| 0 <= i < |w.roots| && w.roots[i] == x;
        assert topDown[..|w.roots|][i] == x;
      }
    }
    ExactlyReachable(w.transitions, w.roots, topDown);
    var states := w.GetStates();
    unreachable := ListOfSet(set x | x in states && x !in topDown);
    assert forall x :: x in unreachable <==> x in Elems(unreachable);
  }

  /**
   * `shrink_to_top_down_reachable` with the dictionary entry of an
   * unreachable state removed only when there is one: the remaining
   * dictionary is the reachable part of the input, and it is closed under
   * children.
   */
  method ShrinkToTopDownReachable(ta: TreeAut) returns (w: TreeAut)
    requires ta.Valid()
    ensures fresh(w) && w.Valid()
    ensures w.roots == ta.roots && w.transitions == ReachablePart(ta.roots, ta.transitions)
  {
    var unreachable;
    w, unreachable := ReachabilitySplit(ta);
    for j := 0 to |unreachable|
      invariant w.Valid() && w.roots == ta.roots
      invariant w.transitions == map k | k in ta.transitions && k !in unreachable[..j] :: ta.transitions[k]
    {
      var x := unreachable[j];
      if x in w.transitions {
        w.keys := Without(w.keys, x);
        w.transitions := w.transitions - {x};
      }
      assert unreachable[..j + 1] == unreachable[..j] + [x];
    }
    assert unreachable[..|unreachable|] == unreachable;
  }

  /** Every key of the reachable part is reachable, and its transitions lead only to reachable states. */
  lemma {:induction false} ReachablePartClosed(roots: seq<string>, m: map<string, seq<Transition>>)
    ensures forall k :: k in ReachablePart(roots, m) ==> Reachable(m, roots, k)
    ensures forall k, t, c :: k in ReachablePart(roots, m) && t in ReachablePart(roots, m)[k] && c in t.children ==> Reachable(m, roots, c)
  {
    forall k, t, c | k in ReachablePart(roots, m) && t in ReachablePart(roots, m)[k] && c in t.children
      ensures Reachable(m, roots, c)
    {
      forall S | ClosedAbove(m, roots, S)
        ensures c in S
      {
        assert k in S;
      }
    }
  }

  /**
   * An automaton on which `shrink_to_top_down_reachable` raises KeyError:
   * the root q0 has only an output transition, and the unreachable q1 has a
   * transition to q2, which is no key.
   */
  lemma ShrinkKeyError()
    ensures var m := map["q0" := [], "q1" := [Transition("q1", Edge("a", [], ""), ["q2"])]];
      "q2" in StatesOf(["q0"], m) && !Reachable(m, ["q0"], "q2") && "q2" !in m
  {
    var m := map["q0" := [], "q1" := [Transition("q1", Edge("a", [], ""), ["q2"])]];
    var t := Transition("q1", Edge("a", [], ""), ["q2"]);
    assert t in m["q1"] && "q2" in t.children;
    assert "q2" in ChildStatesIn(m.Keys, m);
    assert Elems(["q0"]) == {"q0"};
    assert ClosedAbove(m, ["q0"], {"q0"});
  }
}
