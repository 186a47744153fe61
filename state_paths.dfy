/**
 * `get_shortest_state_paths_dict` of the tree automaton: a breadth-first
 * walk from the roots that labels every state it meets with a path, the
 * string of child positions leading to it (the roots get ""), keeping for
 * each state the smallest such string met, and finally lists the
 * (state, path) pairs sorted by path.
 */
module StatePaths {
  import opened Optional
  import opened Seqs
  import opened Transitions
  import opened Automaton
  import Numerals
  import PyText

  type Item = (string, string)

  /** The (position, child) pairs `enumerate` gives over one child list. */
  function Enumerated(cs: seq<string>): (r: seq<(nat, string)>)
    ensures |r| == |cs| && forall i :: 0 <= i < |r| ==> r[i] == (i, cs[i])
  {
    seq(|cs|, i requires 0 <= i < |cs| => (i as nat, cs[i]))
  }

  /** The (position, child) pairs of every transition, transition by transition. */
  function IndexedChildren(ts: seq<Transition>): seq<(nat, string)>
  {
    if ts == [] then [] else Enumerated(ts[0].children) + IndexedChildren(ts[1..])
  }

  /** The children named by the pairs are exactly the successors of the transitions. */
  lemma {:induction false} IndexedChildrenAre(ts: seq<Transition>)
    ensures forall j :: 0 <= j < |IndexedChildren(ts)| ==> IndexedChildren(ts)[j].1 in ChildList(ts)
    ensures forall c :: c in ChildList(ts) ==> exists j :: 0 <= j < |IndexedChildren(ts)| && IndexedChildren(ts)[j].1 == c
  {
    if ts != [] {
      IndexedChildrenAre(ts[1..]);
      var e := Enumerated(ts[0].children);
      var rest := IndexedChildren(ts[1..]);
      assert IndexedChildren(ts) == e + rest;
      forall c | c in ChildList(ts)
        ensures exists j :: 0 <= j < |IndexedChildren(ts)| && IndexedChildren(ts)[j].1 == c
      {
        if c in ts[0].children {
          var i :| 0 <= i < |ts[0].children| && ts[0].children[i] == c;
          assert IndexedChildren(ts)[i].1 == c;
        } else {
          var j :| 0 <= j < |rest| && rest[j].1 == c;
          assert IndexedChildren(ts)[|e| + j].1 == c;
        }
      }
    }
  }

  /** `f"{path}{i}"` for a child position i. */
  function Extend(path: string, i: nat): (r: string)
    ensures r != ""
  {
    path + Numerals.NatToString(i)
  }

  /**
   * From state s, following the child positions `steps`, each through some
   * transition of the state reached so far, one arrives at x.
   */
  ghost predicate Walk(m: map<string, seq<Transition>>, s: string, steps: seq<nat>, x: string)
    decreases |steps|
  {
    if steps == [] then s == x
    else s in m && exists t :: t in m[s] && steps[0] < |t.children| && Walk(m, t.children[steps[0]], steps[1..], x)
  }

  /** The path string of a list of child positions: their numerals, one after another. */
  function Spell(steps: seq<nat>): string
  {
    if steps == [] then "" else Spell(steps[..|steps| - 1]) + Numerals.NatToString(steps[|steps| - 1])
  }

  /** p spells the child positions of a walk from some root to x. */
  ghost predicate SpellsWalk(m: map<string, seq<Transition>>, roots: seq<string>, p: string, x: string)
  {
    exists r, steps :: r in roots && Walk(m, r, steps, x) && Spell(steps) == p
  }

  /** A walk to y followed by position i of a transition of y is a walk to that child. */
  lemma {:induction false} WalkSnoc(m: map<string, seq<Transition>>, s: string, steps: seq<nat>, y: string, t: Transition, i: nat)
    requires Walk(m, s, steps, y) && y in m && t in m[y] && i < |t.children|
    ensures Walk(m, s, steps + [i], t.children[i])
    decreases |steps|
  {
    if steps == [] {
      assert [] + [i] == [i] && [i][1..] == [];
      assert Walk(m, t.children[i], [], t.children[i]);
    } else {
      var t0 :| t0 in m[s] && steps[0] < |t0.children| && Walk(m, t0.children[steps[0]], steps[1..], y);
      WalkSnoc(m, t0.children[steps[0]], steps[1..], y, t, i);
      assert (steps + [i])[1..] == steps[1..] + [i];
    }
  }

  lemma SpellSnoc(steps: seq<nat>, i: nat)
    ensures Spell(steps + [i]) == Spell(steps) + Numerals.NatToString(i)
  {
    assert (steps + [i])[..|steps|] == steps;
  }

  /** Every root spells the empty walk. */
  lemma SpellsRoot(m: map<string, seq<Transition>>, roots: seq<string>, r: string)
    requires r in roots
    ensures SpellsWalk(m, roots, "", r)
  {
    assert Walk(m, r, [], r) && Spell([]) == "";
  }

  /** Extending the path of a state by a child position spells a walk to that child. */
  lemma SpellsExtend(m: map<string, seq<Transition>>, roots: seq<string>, p: string, y: string, t: Transition, i: nat)
    requires SpellsWalk(m, roots, p, y) && y in m && t in m[y] && i < |t.children|
    ensures SpellsWalk(m, roots, Extend(p, i), t.children[i])
  {
    var r, steps :| r in roots && Walk(m, r, steps, y) && Spell(steps) == p;
    WalkSnoc(m, r, steps, y, t, i);
    SpellSnoc(steps, i);
  }

  /** Every pair (i, child) names position i of one of the transitions. */
  lemma {:induction false} IndexedChildrenPositions(ts: seq<Transition>)
    ensures forall j :: 0 <= j < |IndexedChildren(ts)| ==>
      exists t :: t in ts && IndexedChildren(ts)[j].0 < |t.children| && t.children[IndexedChildren(ts)[j].0] == IndexedChildren(ts)[j].1
  {
    if ts != [] {
      IndexedChildrenPositions(ts[1..]);
      var e := Enumerated(ts[0].children);
      var rest := IndexedChildren(ts[1..]);
      assert IndexedChildren(ts) == e + rest;
      forall j | 0 <= j < |IndexedChildren(ts)|
        ensures exists t :: t in ts && IndexedChildren(ts)[j].0 < |t.children| && t.children[IndexedChildren(ts)[j].0] == IndexedChildren(ts)[j].1
      {
        if j < |e| {
          assert IndexedChildren(ts)[j] == (j, ts[0].children[j]);
          assert ts[0] in ts;
        } else {
          assert IndexedChildren(ts)[j] == rest[j - |e|];
          var t :| t in ts[1..] && rest[j - |e|].0 < |t.children| && t.children[rest[j - |e|].0] == rest[j - |e|].1;
          assert t in ts;
        }
      }
    } else {
      assert IndexedChildren(ts) == [];
    }
  }

  /** The states waiting in the queue. */
  function Waiting(queue: seq<Item>): set<string>
  {
    set k | 0 <= k < |queue| :: queue[k].0
  }

  lemma WaitingAppend(queue: seq<Item>, x: Item)
    ensures Waiting(queue + [x]) == Waiting(queue) + {x.0}
  {
    var q := queue + [x];
    assert q[|queue|] == x;
    forall s | s in Waiting(queue) ensures s in Waiting(q) {
      var k :| 0 <= k < |queue| && queue[k].0 == s;
      assert q[k] == queue[k];
    }
  }

  lemma WaitingTail(queue: seq<Item>)
    requires queue != []
    ensures Waiting(queue) == {queue[0].0} + Waiting(queue[1..])
  {
    forall s | s in Waiting(queue) ensures s in {queue[0].0} + Waiting(queue[1..]) {
      var k :| 0 <= k < |queue| && queue[k].0 == s;
      if k > 0 {
        assert queue[1..][k - 1] == queue[k];
      }
    }
    forall s | s in Waiting(queue[1..]) ensures s in Waiting(queue) {
      var k :| 0 <= k < |queue[1..]| && queue[1..][k].0 == s;
      assert queue[k + 1] == queue[1..][k];
    }
  }

  /** The children named by the first j pairs. */
  function NamedUpTo(ps: seq<(nat, string)>, j: nat): set<string>
    requires j <= |ps|
  {
    set k | 0 <= k < j :: ps[k].1
  }

  /**
   * The bookkeeping of one state's expansion, from the dictionary `result0`
   * (key order `keys0`) and queue `queue0` before it: the first j pairs have
   * been handled, every new key was queued once, and a path is "" only
   * where it was "" before.
   */
  ghost predicate Expanded(universe: set<string>, ps: seq<(nat, string)>, j: nat,
                           queue0: seq<Item>, result0: map<string, string>, keys0: seq<string>,
                           queue: seq<Item>, result: map<string, string>, keys: seq<string>)
    requires j <= |ps|
  {
    && Distinct(keys) && Elems(keys) == result.Keys && result.Keys <= universe
    && result.Keys == result0.Keys + NamedUpTo(ps, j)
    && |keys0| <= |keys| && |queue| == |queue0| + |keys| - |keys0|
    && Waiting(queue) == Waiting(queue0) + (result.Keys - result0.Keys)
    && (forall k :: k in result ==> (result[k] == "" <==> k in result0 && result0[k] == ""))
  }

  lemma ExpandStart(universe: set<string>, ps: seq<(nat, string)>,
                    queue0: seq<Item>, result0: map<string, string>, keys0: seq<string>)
    requires Distinct(keys0) && Elems(keys0) == result0.Keys && result0.Keys <= universe
    ensures Expanded(universe, ps, 0, queue0, result0, keys0, queue0, result0, keys0)
  {
  }

  /** One pair (i, child) with a new child: it is recorded and queued. */
  lemma ExpandNew(universe: set<string>, ps: seq<(nat, string)>, j: nat, newpath: string,
                  queue0: seq<Item>, result0: map<string, string>, keys0: seq<string>,
                  queue: seq<Item>, result: map<string, string>, keys: seq<string>)
    requires j < |ps| && ps[j].1 in universe && ps[j].1 !in result && newpath != ""
    requires Expanded(universe, ps, j, queue0, result0, keys0, queue, result, keys)
    ensures Expanded(universe, ps, j + 1, queue0, result0, keys0,
                     queue + [(ps[j].1, newpath)], result[ps[j].1 := newpath], keys + [ps[j].1])
  {
    var child := ps[j].1;
    assert NamedUpTo(ps, j + 1) == NamedUpTo(ps, j) + {child};
    assert Elems(keys + [child]) == Elems(keys) + {child};
    WaitingAppend(queue, (child, newpath));
  }

  /** One pair (i, child) with a known child: it keeps its key, perhaps with a new non-empty path. */
  lemma ExpandKnown(universe: set<string>, ps: seq<(nat, string)>, j: nat, newpath: string,
                    queue0: seq<Item>, result0: map<string, string>, keys0: seq<string>,
                    queue: seq<Item>, result: map<string, string>, keys: seq<string>)
    requires j < |ps| && ps[j].1 in result && newpath != ""
    requires Expanded(universe, ps, j, queue0, result0, keys0, queue, result, keys)
    ensures PyText.StrLess(newpath, result[ps[j].1]) ==>
      Expanded(universe, ps, j + 1, queue0, result0, keys0, queue, result[ps[j].1 := newpath], keys)
    ensures Expanded(universe, ps, j + 1, queue0, result0, keys0, queue, result, keys)
  {
    var child := ps[j].1;
    assert NamedUpTo(ps, j + 1) == NamedUpTo(ps, j) + {child};
    PyText.StrLessAsymmetric(newpath, result[child]);
  }

  /** Pair i < j offers k the path p: p is `f"{path}{i}"` for a pair naming k. */
  ghost predicate OfferedBy(path: string, ps: seq<(nat, string)>, j: nat, k: string, p: string)
    requires j <= |ps|
  {
    exists i :: 0 <= i < j && ps[i].1 == k && p == Extend(path, ps[i].0)
  }

  /** The first of the first j pairs that names k offers it the path p. */
  ghost predicate FirstOffer(path: string, ps: seq<(nat, string)>, j: nat, k: string, p: string)
    requires j <= |ps|
  {
    exists i :: 0 <= i < j && ps[i].1 == k && p == Extend(path, ps[i].0) && forall h :: 0 <= h < i ==> ps[h].1 != k
  }

  /**
   * The update rule after the first j pairs: a known state keeps its path
   * or gets a smaller one; every changed or new path is one the pairs
   * offered; no offered path is smaller than the one kept; and the states
   * newly queued are new, each with the first path offered to it.
   */
  ghost predicate Offers(path: string, ps: seq<(nat, string)>, j: nat,
                         queue0: seq<Item>, result0: map<string, string>, queue: seq<Item>, result: map<string, string>)
    requires j <= |ps|
  {
    && (forall k :: k in result0 ==> k in result && !PyText.StrLess(result0[k], result[k]))
    && (forall k :: k in result ==> (k in result0 && result[k] == result0[k]) || OfferedBy(path, ps, j, k, result[k]))
    && (forall i :: 0 <= i < j ==> ps[i].1 in result && !PyText.StrLess(Extend(path, ps[i].0), result[ps[i].1]))
    && |queue0| <= |queue| && queue[..|queue0|] == queue0
    && (forall n :: |queue0| <= n < |queue| ==> queue[n].0 !in result0 && FirstOffer(path, ps, j, queue[n].0, queue[n].1))
  }

  lemma OffersStart(path: string, ps: seq<(nat, string)>, queue0: seq<Item>, result0: map<string, string>)
    ensures Offers(path, ps, 0, queue0, result0, queue0, result0)
  {
    assert queue0[..|queue0|] == queue0;
    forall k | k in result0
      ensures !PyText.StrLess(result0[k], result0[k])
    {
      PyText.StrLessAsymmetric(result0[k], result0[k]);
    }
  }

  /** A pair whose child is new: the child gets the offered path and is queued with it. */
  lemma OffersNew(path: string, ps: seq<(nat, string)>, j: nat,
                  queue0: seq<Item>, result0: map<string, string>, queue: seq<Item>, result: map<string, string>)
    requires j < |ps| && ps[j].1 !in result
    requires Offers(path, ps, j, queue0, result0, queue, result)
    ensures var child, newpath := ps[j].1, Extend(path, ps[j].0);
      Offers(path, ps, j + 1, queue0, result0, queue + [(child, newpath)], result[child := newpath])
  {
    var child, newpath := ps[j].1, Extend(path, ps[j].0);
    var queue', result' := queue + [(child, newpath)], result[child := newpath];
    PyText.StrLessAsymmetric(newpath, newpath);
    forall k | k in result'
      ensures (k in result0 && result'[k] == result0[k]) || OfferedBy(path, ps, j + 1, k, result'[k])
    {
      if k != child && !(k in result0 && result'[k] == result0[k]) {
        var i :| 0 <= i < j && ps[i].1 == k && result[k] == Extend(path, ps[i].0);
      }
    }
    assert queue'[..|queue0|] == queue0;
    forall n | |queue0| <= n < |queue'|
      ensures queue'[n].0 !in result0 && FirstOffer(path, ps, j + 1, queue'[n].0, queue'[n].1)
    {
      if n < |queue| {
        assert queue'[n] == queue[n];
        FirstOfferGrows(path, ps, j, queue[n].0, queue[n].1);
      } else {
        assert queue'[n] == (child, newpath);
        assert forall h :: 0 <= h < j ==> ps[h].1 != child;
      }
    }
  }

  /** A pair whose child is known: it gets the offered path only when that is smaller. */
  lemma OffersKnown(path: string, ps: seq<(nat, string)>, j: nat,
                    queue0: seq<Item>, result0: map<string, string>, queue: seq<Item>, result: map<string, string>)
    requires j < |ps| && ps[j].1 in result
    requires Offers(path, ps, j, queue0, result0, queue, result)
    ensures var child, newpath := ps[j].1, Extend(path, ps[j].0);
      Offers(path, ps, j + 1, queue0, result0, queue,
             if PyText.StrLess(newpath, result[child]) then result[child := newpath] else result)
  {
    var child, newpath := ps[j].1, Extend(path, ps[j].0);
    var result' := if PyText.StrLess(newpath, result[child]) then result[child := newpath] else result;
    KnownKeeps(result0, result, child, newpath);
    KnownOffered(path, ps, j, result0, result);
    KnownLeast(path, ps, j, result);
    QueueOffersGrow(path, ps, j, queue0, result0, queue);
  }

  lemma QueueOffersGrow(path: string, ps: seq<(nat, string)>, j: nat, queue0: seq<Item>, result0: map<string, string>, queue: seq<Item>)
    requires j < |ps| && |queue0| <= |queue|
    requires forall n :: |queue0| <= n < |queue| ==> queue[n].0 !in result0 && FirstOffer(path, ps, j, queue[n].0, queue[n].1)
    ensures forall n :: |queue0| <= n < |queue| ==> queue[n].0 !in result0 && FirstOffer(path, ps, j + 1, queue[n].0, queue[n].1)
  {
    forall n | |queue0| <= n < |queue|
      ensures FirstOffer(path, ps, j + 1, queue[n].0, queue[n].1)
    {
      FirstOfferGrows(path, ps, j, queue[n].0, queue[n].1);
    }
  }

  lemma FirstOfferGrows(path: string, ps: seq<(nat, string)>, j: nat, k: string, p: string)
    requires j < |ps| && FirstOffer(path, ps, j, k, p)
    ensures FirstOffer(path, ps, j + 1, k, p)
  {
    var i :| 0 <= i < j && ps[i].1 == k && p == Extend(path, ps[i].0) && forall h :: 0 <= h < i ==> ps[h].1 != k;
  }

  /** Replacing a path only by a smaller one never makes a kept path larger. */
  lemma KnownKeeps(result0: map<string, string>, result: map<string, string>, child: string, newpath: string)
    requires child in result
    requires forall k :: k in result0 ==> k in result && !PyText.StrLess(result0[k], result[k])
    ensures var result' := if PyText.StrLess(newpath, result[child]) then result[child := newpath] else result;
      forall k :: k in result0 ==> k in result' && !PyText.StrLess(result0[k], result'[k])
  {
    var result' := if PyText.StrLess(newpath, result[child]) then result[child := newpath] else result;
    forall k | k in result0
      ensures k in result' && !PyText.StrLess(result0[k], result'[k])
    {
      PyText.StrLessTransitive(result0[k], newpath, result[k]);
    }
  }

  lemma KnownOffered(path: string, ps: seq<(nat, string)>, j: nat, result0: map<string, string>, result: map<string, string>)
    requires j < |ps| && ps[j].1 in result
    requires forall k :: k in result ==> (k in result0 && result[k] == result0[k]) || OfferedBy(path, ps, j, k, result[k])
    ensures var child, newpath := ps[j].1, Extend(path, ps[j].0);
      var result' := if PyText.StrLess(newpath, result[child]) then result[child := newpath] else result;
      forall k :: k in result' ==> (k in result0 && result'[k] == result0[k]) || OfferedBy(path, ps, j + 1, k, result'[k])
  {
    var child, newpath := ps[j].1, Extend(path, ps[j].0);
    var result' := if PyText.StrLess(newpath, result[child]) then result[child := newpath] else result;
    forall k | k in result'
      ensures (k in result0 && result'[k] == result0[k]) || OfferedBy(path, ps, j + 1, k, result'[k])
    {
      if result'[k] == result[k] && !(k in result0 && result'[k] == result0[k]) {
        var i :| 0 <= i < j && ps[i].1 == k && result[k] == Extend(path, ps[i].0);
      }
    }
  }

  lemma KnownLeast(path: string, ps: seq<(nat, string)>, j: nat, result: map<string, string>)
    requires j < |ps| && ps[j].1 in result
    requires forall i :: 0 <= i < j ==> ps[i].1 in result && !PyText.StrLess(Extend(path, ps[i].0), result[ps[i].1])
    ensures var child, newpath := ps[j].1, Extend(path, ps[j].0);
      var result' := if PyText.StrLess(newpath, result[child]) then result[child := newpath] else result;
      forall i :: 0 <= i < j + 1 ==> ps[i].1 in result' && !PyText.StrLess(Extend(path, ps[i].0), result'[ps[i].1])
  {
    var child, newpath := ps[j].1, Extend(path, ps[j].0);
    var result' := if PyText.StrLess(newpath, result[child]) then result[child := newpath] else result;
    PyText.StrLessAsymmetric(newpath, newpath);
    forall i | 0 <= i < j + 1
      ensures ps[i].1 in result' && !PyText.StrLess(Extend(path, ps[i].0), result'[ps[i].1])
    {
      PyText.StrLessTransitive(Extend(path, ps[i].0), newpath, result[child]);
    }
  }

  /**
   * The inner loops over one dequeued state: for every transition and every
   * child position i, a child not met yet gets the path `f"{path}{i}"` and
   * is queued; one met already gets it when it is smaller as a string.
   */
  method ExpandState(path: string, ps: seq<(nat, string)>, ghost universe: set<string>,
                     queue0: seq<Item>, result0: map<string, string>, keys0: seq<string>)
    returns (queue: seq<Item>, result: map<string, string>, keys: seq<string>)
    requires Distinct(keys0) && Elems(keys0) == result0.Keys && result0.Keys <= universe
    requires forall j :: 0 <= j < |ps| ==> ps[j].1 in universe
    ensures Expanded(universe, ps, |ps|, queue0, result0, keys0, queue, result, keys)
    ensures Offers(path, ps, |ps|, queue0, result0, queue, result)
  {
    queue, result, keys := queue0, result0, keys0;
    ExpandStart(universe, ps, queue0, result0, keys0);
    OffersStart(path, ps, queue0, result0);
    var j := 0;
    while j < |ps|
      invariant j <= |ps|
      invariant Expanded(universe, ps, j, queue0, result0, keys0, queue, result, keys)
      invariant Offers(path, ps, j, queue0, result0, queue, result)
    {
      var (i, child) := ps[j];
      var newpath := Extend(path, i);
      if child !in result {
        ExpandNew(universe, ps, j, newpath, queue0, result0, keys0, queue, result, keys);
        OffersNew(path, ps, j, queue0, result0, queue, result);
        result := result[child := newpath];
        keys := keys + [child];
        queue := queue + [(child, newpath)];
      } else {
        ExpandKnown(universe, ps, j, newpath, queue0, result0, keys0, queue, result, keys);
        OffersKnown(path, ps, j, queue0, result0, queue, result);
        if PyText.StrLess(newpath, result[child]) {
          result := result[child := newpath];
        }
      }
      j := j + 1;
    }
  }

  /**
   * What the walk keeps: the dictionary's keys (in insertion order) lie in
   * the universe and include the roots, exactly the roots have path "",
   * the queued states are keys, and every key is either queued or done,
   * a done state being a dictionary key all of whose children are keys.
   */
  ghost predicate PathsInv(roots: seq<string>, m: map<string, seq<Transition>>, universe: set<string>,
                           queue: seq<Item>, result: map<string, string>, keys: seq<string>, done: set<string>)
  {
    && Distinct(keys) && Elems(keys) == result.Keys && result.Keys <= universe
    && Elems(roots) <= result.Keys
    && (forall k :: k in result ==> (result[k] == "" <==> k in roots))
    && Waiting(queue) <= result.Keys
    && result.Keys <= done + Waiting(queue)
    && (forall d :: d in done ==> d in m && SuccessorsWithin(m, d, result.Keys))
  }

  /** Every recorded and every queued path spells a walk from a root to its state. */
  ghost predicate PathsSpelled(roots: seq<string>, m: map<string, seq<Transition>>, queue: seq<Item>, result: map<string, string>)
  {
    && (forall k :: k in result ==> SpellsWalk(m, roots, result[k], k))
    && (forall n :: 0 <= n < |queue| ==> SpellsWalk(m, roots, queue[n].1, queue[n].0))
  }

  lemma SpelledStart(roots: seq<string>, m: map<string, seq<Transition>>)
    ensures PathsSpelled(roots, m, RootEntries(roots), RootDict(roots))
  {
    forall k | k in RootDict(roots) ensures SpellsWalk(m, roots, "", k) {
      SpellsRoot(m, roots, k);
    }
    forall n | 0 <= n < |roots| ensures SpellsWalk(m, roots, "", roots[n]) {
      SpellsRoot(m, roots, roots[n]);
    }
  }

  /** A pair offered while expanding a state spells a walk one step past that state's path. */
  lemma SpelledOffer(roots: seq<string>, m: map<string, seq<Transition>>, state: string, path: string, i: nat)
    requires state in m && SpellsWalk(m, roots, path, state)
    requires i < |IndexedChildren(m[state])|
    ensures var ps := IndexedChildren(m[state]); SpellsWalk(m, roots, Extend(path, ps[i].0), ps[i].1)
  {
    var ps := IndexedChildren(m[state]);
    IndexedChildrenPositions(m[state]);
    var t :| t in m[state] && ps[i].0 < |t.children| && t.children[ps[i].0] == ps[i].1;
    SpellsExtend(m, roots, path, state, t, ps[i].0);
  }

  /** Expanding a state whose path spells a walk keeps every path a spelled walk. */
  lemma SpelledStep(roots: seq<string>, m: map<string, seq<Transition>>,
                    queue: seq<Item>, result0: map<string, string>, queue': seq<Item>, result: map<string, string>)
    requires queue != [] && queue[0].0 in m
    requires PathsSpelled(roots, m, queue, result0)
    requires var ps := IndexedChildren(m[queue[0].0]);
      Offers(queue[0].1, ps, |ps|, queue[1..], result0, queue', result)
    ensures PathsSpelled(roots, m, queue', result)
  {
    var (state, path) := queue[0];
    var ps := IndexedChildren(m[state]);
    forall k | k in result ensures SpellsWalk(m, roots, result[k], k) {
      if !(k in result0 && result[k] == result0[k]) {
        var i :| 0 <= i < |ps| && ps[i].1 == k && result[k] == Extend(path, ps[i].0);
        SpelledOffer(roots, m, state, path, i);
      }
    }
    forall n | 0 <= n < |queue'| ensures SpellsWalk(m, roots, queue'[n].1, queue'[n].0) {
      if n < |queue| - 1 {
        assert queue'[n] == queue[1..][n] == queue[n + 1];
      } else {
        var i :| 0 <= i < |ps| && ps[i].1 == queue'[n].0 && queue'[n].1 == Extend(path, ps[i].0)
          && forall h :: 0 <= h < i ==> ps[h].1 != queue'[n].0;
        SpelledOffer(roots, m, state, path, i);
      }
    }
  }

  /** The roots, each with path "", in root order. */
  function RootEntries(roots: seq<string>): (r: seq<Item>)
    ensures |r| == |roots| && forall k :: 0 <= k < |r| ==> r[k] == (roots[k], "")
  {
    seq(|roots|, k requires 0 <= k < |roots| => (roots[k], ""))
  }

  lemma PathsStart(roots: seq<string>, m: map<string, seq<Transition>>, universe: set<string>,
                   result: map<string, string>, keys: seq<string>)
    requires Elems(roots) <= universe
    requires Distinct(keys) && Elems(keys) == Elems(roots)
    requires result.Keys == Elems(roots) && forall k :: k in result ==> result[k] == ""
    ensures PathsInv(roots, m, universe, RootEntries(roots), result, keys, {})
  {
    forall s | s in Elems(roots) ensures s in Waiting(RootEntries(roots)) {
      var k :| 0 <= k < |roots| && roots[k] == s;
      assert RootEntries(roots)[k].0 == s;
    }
  }

  /** Expanding the dequeued state completes it: it is done, and its new children are queued. */
  lemma PathsStep(roots: seq<string>, m: map<string, seq<Transition>>, universe: set<string>,
                  queue: seq<Item>, result0: map<string, string>, keys0: seq<string>, done: set<string>,
                  queue': seq<Item>, result: map<string, string>, keys: seq<string>)
    requires queue != [] && queue[0].0 in m
    requires PathsInv(roots, m, universe, queue, result0, keys0, done)
    requires var ps := IndexedChildren(m[queue[0].0]);
      Expanded(universe, ps, |ps|, queue[1..], result0, keys0, queue', result, keys)
    ensures PathsInv(roots, m, universe, queue', result, keys, done + {queue[0].0})
  {
    var state := queue[0].0;
    var ps := IndexedChildren(m[state]);
    WaitingTail(queue);
    IndexedChildrenAre(m[state]);
    forall c | c in Successors(m, state) ensures c in result.Keys {
      var j :| 0 <= j < |ps| && ps[j].1 == c;
      assert c in NamedUpTo(ps, |ps|);
    }
    forall k | k in result ensures result[k] == "" <==> k in roots {
      if k !in result0 {
        assert k !in Elems(roots);
      }
    }
  }

  /** Once the queue is empty every key is done: the keys are closed under children. */
  lemma PathsDone(roots: seq<string>, m: map<string, seq<Transition>>, universe: set<string>,
                  result: map<string, string>, keys: seq<string>, done: set<string>)
    requires PathsInv(roots, m, universe, [], result, keys, done)
    ensures result.Keys <= m.Keys && Closed(m, result.Keys)
  {
    forall k, t, c | k in result.Keys && k in m && t in m[k] && c in t.children ensures c in result.Keys {
      SuccessorsHold(m, k, t, c);
      assert SuccessorsWithin(m, k, result.Keys);
    }
  }

  /** The dictionary's items in insertion order. */
  function Items(result: map<string, string>, keys: seq<string>): (r: seq<Item>)
    requires Elems(keys) <= result.Keys
    ensures |r| == |keys| && forall k :: 0 <= k < |r| ==> r[k] == (keys[k], result[keys[k]])
  {
    seq(|keys|, k requires 0 <= k < |keys| => (keys[k], result[keys[k]]))
  }

  /** No item's path is smaller than that of an item before it. */
  predicate SortedByPath(s: seq<Item>)
  {
    forall i, j :: 0 <= i < j < |s| ==> !PyText.StrLess(s[j].1, s[i].1)
  }

  /** Inserts x before the first item whose path is not smaller than its own. */
  function InsertByPath(x: Item, s: seq<Item>): (r: seq<Item>)
    requires SortedByPath(s)
    ensures SortedByPath(r) && multiset(r) == multiset(s) + multiset{x}
  {
    if s == [] then [x]
    else if !PyText.StrLess(s[0].1, x.1) then
      assert forall j :: 0 < j < |s| ==> !PyText.StrLess(s[j].1, x.1) by {
        forall j | 0 < j < |s| ensures !PyText.StrLess(s[j].1, x.1) {
          PyText.StrNotLessTransitive(x.1, s[0].1, s[j].1);
        }
      }
      [x] + s
    else
      var t := InsertByPath(x, s[1..]);
      assert s == [s[0]] + s[1..];
      PyText.StrLessAsymmetric(s[0].1, x.1);
      assert forall j :: 0 <= j < |t| ==> !PyText.StrLess(t[j].1, s[0].1) by {
        forall j | 0 <= j < |t| ensures !PyText.StrLess(t[j].1, s[0].1) {
          assert t[j] in multiset(t);
          assert t[j] == x || t[j] in multiset(s[1..]);
          if t[j] != x {
            var k :| 0 <= k < |s[1..]| && s[1..][k] == t[j];
            assert s[k + 1] == t[j];
          }
        }
      }
      [s[0]] + t
  }

  /** `sorted(items, key=lambda item: item[1])`: a stable sort by path. */
  function SortByPath(s: seq<Item>): (r: seq<Item>)
    ensures SortedByPath(r) && multiset(r) == multiset(s)
  {
    if s == [] then []
    else
      assert s == [s[0]] + s[1..];
      InsertByPath(s[0], SortByPath(s[1..]))
  }

  /** The states of a list of items. */
  function Named(items: seq<Item>): set<string>
  {
    set k | 0 <= k < |items| :: items[k].0
  }

  /** Sorting a list of items keeps its states, its paths and the pairing of the two. */
  lemma SortedItems(result: map<string, string>, keys: seq<string>, r: seq<Item>)
    requires Distinct(keys) && Elems(keys) == result.Keys
    requires multiset(r) == multiset(Items(result, keys))
    ensures Named(r) == result.Keys
    ensures forall i :: 0 <= i < |r| ==> r[i].0 in result && r[i].1 == result[r[i].0]
    ensures forall i, j :: 0 <= i < j < |r| ==> r[i].0 != r[j].0
  {
    var items := Items(result, keys);
    forall i | 0 <= i < |r| ensures r[i] in items {
      assert r[i] in multiset(items);
    }
    forall s | s in result.Keys ensures s in Named(r) {
      var k :| 0 <= k < |keys| && keys[k] == s;
      assert items[k] in multiset(r);
      var i :| 0 <= i < |r| && r[i] == items[k];
      assert r[i].0 == s;
    }
    forall i, j | 0 <= i < j < |r| ensures r[i].0 != r[j].0 {
      if r[i].0 == r[j].0 {
        assert r[i] in items && r[j] in items;
        TwiceCount(r, i, j);
        ItemsOnce(keys, result, r[i]);
      }
    }
  }

  /** Distinct keys make every item of the dictionary occur once. */
  lemma ItemsOnce(keys: seq<string>, result: map<string, string>, x: Item)
    requires Distinct(keys) && Elems(keys) == result.Keys
    ensures multiset(Items(result, keys))[x] < 2
  {
    var items := Items(result, keys);
    if multiset(items)[x] >= 2 {
      CountTwice(items, x);
    }
  }

  /** `{i: "" for i in roots}`: every root with path "", keyed in order of first occurrence. */
  function RootDict(roots: seq<string>): (r: map<string, string>)
    ensures r.Keys == Elems(roots) && forall k :: k in r ==> r[k] == ""
  {
    map k | k in Elems(roots) :: ""
  }

  /**
   * `get_shortest_state_paths_dict` over the roots and the dictionary of an
   * automaton. None stands for the KeyError of a dequeued state without a
   * dictionary entry. The pairs come sorted by path, each state once; a
   * path is "" exactly for the roots, every root is there, and the states
   * are closed under children.
   */
  method ShortestStatePaths(roots: seq<string>, m: map<string, seq<Transition>>) returns (r: Option<seq<Item>>)
    ensures r.Some? ==> SortedByPath(r.value)
    ensures r.Some? ==> forall i, j :: 0 <= i < j < |r.value| ==> r.value[i].0 != r.value[j].0
    ensures r.Some? ==> forall i :: 0 <= i < |r.value| ==> (r.value[i].1 == "" <==> r.value[i].0 in roots)
    ensures r.Some? ==> Elems(roots) <= Named(r.value) <= m.Keys
    ensures r.Some? ==> Closed(m, Named(r.value)) && Named(r.value) <= StatesOf(roots, m)
    ensures r.Some? ==> forall i :: 0 <= i < |r.value| ==> SpellsWalk(m, roots, r.value[i].1, r.value[i].0)
  {
    ghost var universe := StatesOf(roots, m);
    SuccessorsInUniverse(roots, m);
    var queue := RootEntries(roots);
    var result := RootDict(roots);
    var keys := Dedup(roots);
    PathsStart(roots, m, universe, result, keys);
    SpelledStart(roots, m);
    ghost var done: set<string> := {};
    while queue != []
      invariant PathsInv(roots, m, universe, queue, result, keys, done)
      invariant PathsSpelled(roots, m, queue, result)
      decreases |universe| - |keys|, |queue|
    {
      var (state, path) := queue[0];
      if state !in m {
        return None;
      }
      var ps := IndexedChildren(m[state]);
      IndexedChildrenAre(m[state]);
      forall j | 0 <= j < |ps| ensures ps[j].1 in universe {
        assert SuccessorsWithin(m, state, universe);
      }
      ghost var keys0, queue0, result0 := keys, queue, result;
      queue, result, keys := ExpandState(path, ps, universe, queue[1..], result, keys);
      PathsStep(roots, m, universe, queue0, result0, keys0, done, queue, result, keys);
      SpelledStep(roots, m, queue0, result0, queue, result);
      done := done + {state};
      OrderBound(keys, universe);
    }
    PathsDone(roots, m, universe, result, keys, done);
    var sorted := SortByPath(Items(result, keys));
    SortedItems(result, keys, sorted);
    return Some(sorted);
  }
}
