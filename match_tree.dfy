/**
 * Matching a tree against a tree automaton, top-down from the root states
 * and bottom-up from the leaves. A tree is accepted when some root state
 * runs on it: a transition of that state carries the node's value as its
 * label and has one child state per child node, each child state running
 * on its child node.
 */
module MatchTree {
  import opened Optional
  import opened Seqs
  import opened Transitions
  import opened Automaton
  import opened TreeNodes

  // ---------------------------------------------------------------------
  // The reference definition
  // ---------------------------------------------------------------------

  /** State q runs on node: one of q's transitions fits the node. */
  predicate Runs(m: map<string, seq<Transition>>, node: Tree, q: string)
    decreases node, 1
  {
    q in m && exists t :: t in m[q] && Fits(m, node, t)
  }

  /** Transition t fits node: same label, same number of children, and each child state runs on its child. */
  predicate Fits(m: map<string, seq<Transition>>, node: Tree, t: Transition)
    decreases node, 0
  {
    && t.info.symbol == node.value
    && |t.children| == |node.children|
    && forall i :: 0 <= i < |node.children| ==> Runs(m, node.children[i], t.children[i])
  }

  // ---------------------------------------------------------------------
  // Top-down: a recursive search from a state
  // ---------------------------------------------------------------------

  /** The child tuples of the transitions of ts labelled symbol, in order (`child_tuples`). */
  function ChildTuples(ts: seq<Transition>, symbol: string): (r: seq<seq<string>>)
    ensures forall c :: c in r <==> exists t :: t in ts && t.info.symbol == symbol && t.children == c
  {
    if ts == [] then []
    else
      var rest := ChildTuples(ts[1..], symbol);
      assert forall t :: t in ts[1..] ==> t in ts;
      assert forall t :: t in ts ==> t == ts[0] || t in ts[1..];
      if ts[0].info.symbol == symbol then [ts[0].children] + rest else rest
  }

  /**
   * `match_top_down` with a child tuple whose length differs from the
   * node's number of children passed over. This is the search the
   * top-down matcher of this model uses.
   */
  function MatchState(m: map<string, seq<Transition>>, node: Tree, q: string): bool
    decreases node, 2
  {
    q in m && TryTuples(m, node, ChildTuples(m[q], node.value))
  }

  /** Some tuple of tuples has the node's arity and matches its children. */
  function TryTuples(m: map<string, seq<Transition>>, node: Tree, tuples: seq<seq<string>>): bool
    decreases node, 1, |tuples|
  {
    && tuples != []
    && ((|tuples[0]| == |node.children| && ChildrenMatch(m, node, tuples[0], 0)) || TryTuples(m, node, tuples[1..]))
  }

  /** The states of tuple from index i on match the node's children from i on. */
  function ChildrenMatch(m: map<string, seq<Transition>>, node: Tree, tuple: seq<string>, i: nat): bool
    requires |tuple| == |node.children| && i <= |tuple|
    decreases node, 0, |tuple| - i
  {
    i == |tuple| || (MatchState(m, node.children[i], tuple[i]) && ChildrenMatch(m, node, tuple, i + 1))
  }

  /**
   * `match_top_down` as written: the search over the child tuples ends,
   * failing, at the first tuple whose length differs from the node's number
   * of children, so later tuples are never tried.
   */
  function MatchStateAsWritten(m: map<string, seq<Transition>>, node: Tree, q: string): bool
    decreases node, 2
  {
    q in m && TryTuplesAsWritten(m, node, ChildTuples(m[q], node.value))
  }

  function TryTuplesAsWritten(m: map<string, seq<Transition>>, node: Tree, tuples: seq<seq<string>>): bool
    decreases node, 1, |tuples|
  {
    && tuples != []
    && |tuples[0]| == |node.children|
    && (ChildrenMatchAsWritten(m, node, tuples[0], 0) || TryTuplesAsWritten(m, node, tuples[1..]))
  }

  function ChildrenMatchAsWritten(m: map<string, seq<Transition>>, node: Tree, tuple: seq<string>, i: nat): bool
    requires |tuple| == |node.children| && i <= |tuple|
    decreases node, 0, |tuple| - i
  {
    i == |tuple| || (MatchStateAsWritten(m, node.children[i], tuple[i]) && ChildrenMatchAsWritten(m, node, tuple, i + 1))
  }

  /** The search succeeds from q exactly when q runs on the node. */
  lemma {:induction false} MatchStateRuns(m: map<string, seq<Transition>>, node: Tree, q: string)
    ensures MatchState(m, node, q) <==> Runs(m, node, q)
    decreases node, 2
  {
    if q in m {
      var tuples := ChildTuples(m[q], node.value);
      TryTuplesRuns(m, node, tuples);
      if MatchState(m, node, q) {
        var c :| c in tuples && |c| == |node.children| && forall i :: 0 <= i < |c| ==> Runs(m, node.children[i], c[i]);
        var t :| t in m[q] && t.info.symbol == node.value && t.children == c;
        assert Fits(m, node, t);
      }
      if Runs(m, node, q) {
        var t :| t in m[q] && Fits(m, node, t);
        assert t.children in tuples;
      }
    }
  }

  lemma {:induction false} TryTuplesRuns(m: map<string, seq<Transition>>, node: Tree, tuples: seq<seq<string>>)
    ensures TryTuples(m, node, tuples) <==>
      exists c :: c in tuples && |c| == |node.children| && forall i :: 0 <= i < |c| ==> Runs(m, node.children[i], c[i])
    decreases node, 1, |tuples|
  {
    if tuples != [] {
      var c := tuples[0];
      TryTuplesRuns(m, node, tuples[1..]);
      if |c| == |node.children| {
        ChildrenMatchRuns(m, node, c, 0);
      }
      assert forall d :: d in tuples <==> d == c || d in tuples[1..];
    }
  }

  lemma {:induction false} ChildrenMatchRuns(m: map<string, seq<Transition>>, node: Tree, tuple: seq<string>, i: nat)
    requires |tuple| == |node.children| && i <= |tuple|
    ensures ChildrenMatch(m, node, tuple, i) <==> forall j :: i <= j < |tuple| ==> Runs(m, node.children[j], tuple[j])
    decreases node, 0, |tuple| - i
  {
    if i < |tuple| {
      MatchStateRuns(m, node.children[i], tuple[i]);
      ChildrenMatchRuns(m, node, tuple, i + 1);
    }
  }

  /** What the search as written accepts, the corrected search accepts. */
  lemma {:induction false} AsWrittenSound(m: map<string, seq<Transition>>, node: Tree, q: string)
    ensures MatchStateAsWritten(m, node, q) ==> MatchState(m, node, q)
    decreases node, 2
  {
    if q in m {
      TuplesAsWrittenSound(m, node, ChildTuples(m[q], node.value));
    }
  }

  lemma {:induction false} TuplesAsWrittenSound(m: map<string, seq<Transition>>, node: Tree, tuples: seq<seq<string>>)
    ensures TryTuplesAsWritten(m, node, tuples) ==> TryTuples(m, node, tuples)
    decreases node, 1, |tuples|
  {
    if tuples != [] && |tuples[0]| == |node.children| {
      ChildrenAsWrittenSound(m, node, tuples[0], 0);
      TuplesAsWrittenSound(m, node, tuples[1..]);
    }
  }

  lemma {:induction false} ChildrenAsWrittenSound(m: map<string, seq<Transition>>, node: Tree, tuple: seq<string>, i: nat)
    requires |tuple| == |node.children| && i <= |tuple|
    ensures ChildrenMatchAsWritten(m, node, tuple, i) ==> ChildrenMatch(m, node, tuple, i)
    decreases node, 0, |tuple| - i
  {
    if i < |tuple| {
      AsWrittenSound(m, node.children[i], tuple[i]);
      ChildrenAsWrittenSound(m, node, tuple, i + 1);
    }
  }

  /**
   * State q has a leaf transition a and a transition a(p), and p a leaf
   * transition b: q runs on the tree a(b), yet the search as written tries
   * the first tuple, finds its length wrong and gives up.
   */
  lemma TopDownBreakMisses()
    ensures var m := map["q" := [Transition("q", Edge("a", [], ""), []), Transition("q", Edge("a", [], ""), ["p"])],
                         "p" := [Transition("p", Edge("b", [], ""), [])]];
            var tree := Node("a", [Node("b", [])]);
            Runs(m, tree, "q") && !MatchStateAsWritten(m, tree, "q")
  {
    var m := map["q" := [Transition("q", Edge("a", [], ""), []), Transition("q", Edge("a", [], ""), ["p"])],
                 "p" := [Transition("p", Edge("b", [], ""), [])]];
    var tree := Node("a", [Node("b", [])]);
    var leaf := Node("b", []);
    assert Fits(m, leaf, m["p"][0]);
    assert Runs(m, leaf, "p");
    assert tree.children[0] == leaf;
    assert Fits(m, tree, m["q"][1]);
    assert ChildTuples(m["q"], "a") == [[], ["p"]];
  }

  /**
   * `match_tree_top_down`: the roots are tried in order until one matches.
   * The tree is accepted exactly when some root state runs on it.
   */
  method MatchTreeTopDown(ta: TreeAut, root: Tree) returns (b: bool)
    ensures b <==> exists r :: r in ta.roots && Runs(ta.transitions, root, r)
  {
    for j := 0 to |ta.roots|
      invariant forall k :: 0 <= k < j ==> !Runs(ta.transitions, root, ta.roots[k])
    {
      MatchStateRuns(ta.transitions, root, ta.roots[j]);
      if MatchState(ta.transitions, root, ta.roots[j]) {
        return true;
      }
    }
    return false;
  }

  // ---------------------------------------------------------------------
  // Bottom-up: the states of every node, from the leaves up
  // ---------------------------------------------------------------------

  /** Transition t fits a node labelled symbol whose children have the state lists cs. */
  predicate FitsLists(t: Transition, symbol: string, cs: seq<seq<string>>)
  {
    t.info.symbol == symbol && |t.children| == |cs| && forall i :: 0 <= i < |cs| ==> t.children[i] in cs[i]
  }

  /**
   * The test of `match_bottom_up` as written at an inner node: the label
   * matches and each child state of t is in the list of its child, for as
   * many children as t has; a shorter t is accepted.
   */
  predicate LooseFitsLists(t: Transition, symbol: string, cs: seq<seq<string>>)
  {
    t.info.symbol == symbol && |t.children| <= |cs| && forall i :: 0 <= i < |t.children| ==> t.children[i] in cs[i]
  }

  /** A transition longer than the node's child list whose first states all match: the test then indexes past the list. */
  predicate Overlong(t: Transition, symbol: string, cs: seq<seq<string>>)
  {
    t.info.symbol == symbol && |t.children| > |cs| && forall i :: 0 <= i < |cs| ==> t.children[i] in cs[i]
  }

  /** The states computed as written: q has a transition that fits loosely. */
  predicate LooseRuns(m: map<string, seq<Transition>>, node: Tree, q: string)
    decreases node, 1
  {
    q in m && exists t :: t in m[q] && LooseFits(m, node, t)
  }

  /** A leaf takes leaf transitions; an inner node takes any transition no longer than its child list. */
  predicate LooseFits(m: map<string, seq<Transition>>, node: Tree, t: Transition)
    decreases node, 0
  {
    && t.info.symbol == node.value
    && (node.children == [] ==> t.children == [])
    && |t.children| <= |node.children|
    && forall i :: 0 <= i < |t.children| ==> LooseRuns(m, node.children[i], t.children[i])
  }

  /** The matcher as written raises IndexError on node: in a subtree, or at an overlong transition here. */
  predicate Raises(m: map<string, seq<Transition>>, node: Tree)
    decreases node, 1
  {
    || (exists i :: 0 <= i < |node.children| && Raises(m, node.children[i]))
    || (node.children != [] && exists k, t :: k in m && t in m[k] && Overreaches(m, node, t))
  }

  predicate Overreaches(m: map<string, seq<Transition>>, node: Tree, t: Transition)
    decreases node, 0
  {
    && t.info.symbol == node.value
    && |t.children| > |node.children|
    && forall i :: 0 <= i < |node.children| ==> LooseRuns(m, node.children[i], t.children[i])
  }

  /** The states with a leaf transition labelled symbol, each once, in key order (the leaf case of `match_bottom_up`). */
  method LeafStates(keys: seq<string>, m: map<string, seq<Transition>>, symbol: string) returns (r: seq<string>)
    requires KeyOrder(keys, m)
    ensures Distinct(r)
    ensures forall q :: q in r <==> q in m && exists t :: t in m[q] && t.info.symbol == symbol && t.children == []
  {
    r := [];
    for j := 0 to |keys|
      invariant Distinct(r)
      invariant forall q :: q in r <==> q in keys[..j] && exists t :: t in m[q] && t.info.symbol == symbol && t.children == []
    {
      var k := keys[j];
      var ts := m[k];
      assert k !in keys[..j];
      for l := 0 to |ts|
        invariant Distinct(r)
        invariant forall q :: q in r <==>
          (q in keys[..j] && exists t :: t in m[q] && t.info.symbol == symbol && t.children == [])
          || (q == k && exists t :: t in ts[..l] && t.info.symbol == symbol && t.children == [])
      {
        var t := ts[l];
        if t.info.symbol == symbol && t.children == [] && k !in r {
          r := r + [k];
        }
        assert ts[..l + 1] == ts[..l] + [t];
      }
      assert ts[..|ts|] == ts;
      assert keys[..j + 1] == keys[..j] + [k];
    }
    assert keys[..|keys|] == keys;
  }

  /** Whether t fits the child lists cs, checking states in order (the corrected test). */
  method TupleFits(t: Transition, symbol: string, cs: seq<seq<string>>) returns (x: bool)
    ensures x <==> FitsLists(t, symbol, cs)
  {
    if t.info.symbol != symbol || |t.children| != |cs| {
      return false;
    }
    for i := 0 to |t.children|
      invariant forall k :: 0 <= k < i ==> t.children[k] in cs[k]
    {
      if t.children[i] !in cs[i] {
        return false;
      }
    }
    return true;
  }

  /** The test as written: None is the IndexError of reading a child list past its end. */
  method TupleFitsAsWritten(t: Transition, symbol: string, cs: seq<seq<string>>) returns (x: Option<bool>)
    ensures x.None? <==> Overlong(t, symbol, cs)
    ensures x == Some(true) <==> LooseFitsLists(t, symbol, cs)
  {
    if t.info.symbol != symbol {
      return Some(false);
    }
    for i := 0 to |t.children|
      invariant i <= |cs|
      invariant forall k :: 0 <= k < i ==> t.children[k] in cs[k]
    {
      if i >= |cs| {
        return None;
      }
      if t.children[i] !in cs[i] {
        return Some(false);
      }
    }
    return Some(true);
  }

  /** The states with a transition fitting the child lists cs, in key order (the inner case, corrected). */
  method InnerStates(keys: seq<string>, m: map<string, seq<Transition>>, symbol: string, cs: seq<seq<string>>) returns (r: seq<string>)
    requires KeyOrder(keys, m)
    ensures forall q :: q in r <==> q in m && exists t :: t in m[q] && FitsLists(t, symbol, cs)
  {
    r := [];
    for j := 0 to |keys|
      invariant forall q :: q in r <==> q in keys[..j] && exists t :: t in m[q] && FitsLists(t, symbol, cs)
    {
      var k := keys[j];
      var ts := m[k];
      for l := 0 to |ts|
        invariant forall q :: q in r <==>
          (q in keys[..j] && exists t :: t in m[q] && FitsLists(t, symbol, cs))
          || (q == k && exists t :: t in ts[..l] && FitsLists(t, symbol, cs))
      {
        var t := ts[l];
        var x := TupleFits(t, symbol, cs);
        if x {
          r := r + [k];
        }
        assert ts[..l + 1] == ts[..l] + [t];
      }
      assert ts[..|ts|] == ts;
      assert keys[..j + 1] == keys[..j] + [k];
    }
    assert keys[..|keys|] == keys;
  }

  /**
   * The inner case of `match_bottom_up` as written: a state is added once
   * per loosely fitting transition, and an overlong transition raises
   * IndexError (None).
   */
  method InnerStatesAsWritten(keys: seq<string>, m: map<string, seq<Transition>>, symbol: string, cs: seq<seq<string>>)
    returns (r: Option<seq<string>>)
    requires KeyOrder(keys, m)
    ensures r.None? <==> exists k, t :: k in m && t in m[k] && Overlong(t, symbol, cs)
    ensures r.Some? ==> forall q :: q in r.value <==> q in m && exists t :: t in m[q] && LooseFitsLists(t, symbol, cs)
  {
    var found := [];
    for j := 0 to |keys|
      invariant forall k, t :: k in keys[..j] && t in m[k] ==> !Overlong(t, symbol, cs)
      invariant forall q :: q in found <==> q in keys[..j] && exists t :: t in m[q] && LooseFitsLists(t, symbol, cs)
    {
      var k := keys[j];
      var ts := m[k];
      for l := 0 to |ts|
        invariant forall k, t :: k in keys[..j] && t in m[k] ==> !Overlong(t, symbol, cs)
        invariant forall t :: t in ts[..l] ==> !Overlong(t, symbol, cs)
        invariant forall q :: q in found <==>
          (q in keys[..j] && exists t :: t in m[q] && LooseFitsLists(t, symbol, cs))
          || (q == k && exists t :: t in ts[..l] && LooseFitsLists(t, symbol, cs))
      {
        var t := ts[l];
        var x := TupleFitsAsWritten(t, symbol, cs);
        if x.None? {
          return None;
        }
        if x.value {
          found := found + [k];
        }
        assert ts[..l + 1] == ts[..l] + [t];
      }
      assert ts[..|ts|] == ts;
      assert keys[..j + 1] == keys[..j] + [k];
    }
    assert keys[..|keys|] == keys;
    return Some(found);
  }

  /** With the state lists of the children exact, the corrected test at a node is the reference one. */
  lemma ListsFit(m: map<string, seq<Transition>>, node: Tree, cs: seq<seq<string>>, t: Transition)
    requires |cs| == |node.children|
    requires forall i, q :: 0 <= i < |cs| ==> (q in cs[i] <==> Runs(m, node.children[i], q))
    ensures FitsLists(t, node.value, cs) <==> Fits(m, node, t)
  {
    if |t.children| == |cs| {
      assert (forall i :: 0 <= i < |cs| ==> t.children[i] in cs[i]) <==>
             (forall i :: 0 <= i < |cs| ==> Runs(m, node.children[i], t.children[i]));
    }
  }

  /** With the state lists of the children as computed as written, the loose test at an inner node is LooseFits. */
  lemma ListsFitLoosely(m: map<string, seq<Transition>>, node: Tree, cs: seq<seq<string>>, t: Transition)
    requires |cs| == |node.children| && node.children != []
    requires forall i, q :: 0 <= i < |cs| ==> (q in cs[i] <==> LooseRuns(m, node.children[i], q))
    ensures LooseFitsLists(t, node.value, cs) <==> LooseFits(m, node, t)
    ensures Overlong(t, node.value, cs) <==> Overreaches(m, node, t)
  {
    if |t.children| <= |cs| {
      assert (forall i :: 0 <= i < |t.children| ==> t.children[i] in cs[i]) <==>
             (forall i :: 0 <= i < |t.children| ==> LooseRuns(m, node.children[i], t.children[i]));
    } else {
      assert (forall i :: 0 <= i < |cs| ==> t.children[i] in cs[i]) <==>
             (forall i :: 0 <= i < |cs| ==> LooseRuns(m, node.children[i], t.children[i]));
    }
  }

  /**
   * `match_bottom_up` with the arity of a transition checked against the
   * node's: the states computed for a node are exactly those that run on
   * it.
   */
  method MatchBottomUp(keys: seq<string>, m: map<string, seq<Transition>>, node: Tree) returns (r: seq<string>)
    requires KeyOrder(keys, m)
    ensures forall q :: q in r <==> Runs(m, node, q)
    decreases node
  {
    if node.children == [] {
      r := LeafStates(keys, m, node.value);
      forall q
        ensures q in r <==> Runs(m, node, q)
      {
        if q in m {
          assert forall t :: t in m[q] ==> (Fits(m, node, t) <==> t.info.symbol == node.value && t.children == []);
        }
      }
      return;
    }
    var cs: seq<seq<string>> := [];
    for i := 0 to |node.children|
      invariant |cs| == i
      invariant forall k, q :: 0 <= k < i ==> (q in cs[k] <==> Runs(m, node.children[k], q))
    {
      var c := MatchBottomUp(keys, m, node.children[i]);
      cs := cs + [c];
    }
    r := InnerStates(keys, m, node.value, cs);
    forall q
      ensures q in r <==> Runs(m, node, q)
    {
      if q in m {
        forall t | t in m[q]
          ensures FitsLists(t, node.value, cs) <==> Fits(m, node, t)
        {
          ListsFit(m, node, cs, t);
        }
      }
    }
  }

  /**
   * `match_bottom_up` as written. At a leaf, the states with a leaf
   * transition of the node's label, each once. At an inner node, a state
   * for each transition of the label whose child states, as far as it has
   * any, are among the states of the node's children: a transition with
   * fewer children than the node fits, and one with more raises IndexError
   * (None) once its first states have matched.
   */
  method MatchBottomUpAsWritten(keys: seq<string>, m: map<string, seq<Transition>>, node: Tree) returns (r: Option<seq<string>>)
    requires KeyOrder(keys, m)
    ensures r.None? <==> Raises(m, node)
    ensures r.Some? ==> forall q :: q in r.value <==> LooseRuns(m, node, q)
    ensures r.Some? && node.children == [] ==> Distinct(r.value)
    decreases node
  {
    if node.children == [] {
      var leaf := LeafStates(keys, m, node.value);
      forall q
        ensures q in leaf <==> LooseRuns(m, node, q)
      {
        if q in m {
          assert forall t :: t in m[q] ==> (LooseFits(m, node, t) <==> t.info.symbol == node.value && t.children == []);
        }
      }
      return Some(leaf);
    }
    var cs: seq<seq<string>> := [];
    for i := 0 to |node.children|
      invariant |cs| == i
      invariant forall k :: 0 <= k < i ==> !Raises(m, node.children[k])
      invariant forall k, q :: 0 <= k < i ==> (q in cs[k] <==> LooseRuns(m, node.children[k], q))
    {
      var c := MatchBottomUpAsWritten(keys, m, node.children[i]);
      if c.None? {
        return None;
      }
      cs := cs + [c.value];
    }
    forall k, t | k in m && t in m[k]
      ensures LooseFitsLists(t, node.value, cs) <==> LooseFits(m, node, t)
      ensures Overlong(t, node.value, cs) <==> Overreaches(m, node, t)
    {
      ListsFitLoosely(m, node, cs, t);
    }
    r := InnerStatesAsWritten(keys, m, node.value, cs);
  }

  /**
   * `match_tree_bottom_up`: the states computed for the root that are root
   * states are collected. The tree is accepted exactly when some root state
   * runs on it, the same answer as `MatchTreeTopDown`.
   */
  method MatchTreeBottomUp(ta: TreeAut, root: Tree) returns (b: bool)
    requires ta.Valid()
    ensures b <==> exists r :: r in ta.roots && Runs(ta.transitions, root, r)
  {
    var result := MatchBottomUp(ta.keys, ta.transitions, root);
    var temp := [];
    for j := 0 to |result|
      invariant forall v :: v in temp <==> v in result[..j] && v in ta.roots
    {
      if result[j] in ta.roots {
        temp := temp + [result[j]];
      }
      assert result[..j + 1] == result[..j] + [result[j]];
    }
    assert result[..|result|] == result;
    if temp != [] {
      assert temp[0] in temp;
    }
    b := |temp| != 0;
  }

  /**
   * The matcher as written accepts a transition with fewer children than
   * the node: q with the leaf transition a is computed for the tree a(b),
   * which q does not run on, and nothing raises.
   */
  lemma BottomUpAcceptsShort()
    ensures var m := map["q" := [Transition("q", Edge("a", [], ""), [])]];
            var tree := Node("a", [Node("b", [])]);
            LooseRuns(m, tree, "q") && !Runs(m, tree, "q") && !Raises(m, tree)
  {
    var m := map["q" := [Transition("q", Edge("a", [], ""), [])]];
    var tree := Node("a", [Node("b", [])]);
    var leaf := Node("b", []);
    assert tree.children[0] == leaf;
    assert LooseFits(m, tree, m["q"][0]);
    assert !Raises(m, leaf);
    assert !LooseRuns(m, leaf, "q");
    assert forall k, t :: k in m && t in m[k] ==> t == m["q"][0];
  }

  /**
   * The matcher as written raises IndexError where the answer is "no
   * match": q has the transition a(p, p) and p the leaf transition b; on
   * the tree a(b) the first child state matches and the second is read
   * past the one child list.
   */
  lemma BottomUpIndexError()
    ensures var m := map["q" := [Transition("q", Edge("a", [], ""), ["p", "p"])], "p" := [Transition("p", Edge("b", [], ""), [])]];
            var tree := Node("a", [Node("b", [])]);
            Raises(m, tree) && !Runs(m, tree, "q") && !Runs(m, tree, "p")
  {
    var m := map["q" := [Transition("q", Edge("a", [], ""), ["p", "p"])], "p" := [Transition("p", Edge("b", [], ""), [])]];
    var tree := Node("a", [Node("b", [])]);
    var leaf := Node("b", []);
    assert tree.children[0] == leaf;
    assert LooseFits(m, leaf, m["p"][0]);
    assert Overreaches(m, tree, m["q"][0]);
  }
}
