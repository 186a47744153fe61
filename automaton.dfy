/**
 * The tree automaton container: a list of root states and a dictionary from
 * each state to its outgoing transitions. The dictionary's key order (Python
 * keeps insertion order) is kept explicitly in `keys`; the inner dictionaries
 * are kept as the lists of their values, in insertion order.
 */
module Automaton {
  import opened Optional
  import opened Seqs
  import opened Transitions
  import Numerals
  import StringManipulation

  /** `iterate_edges`: the transitions of every key, key by key. */
  function EdgesIn(keys: seq<string>, m: map<string, seq<Transition>>): seq<Transition>
  {
    if keys == [] then [] else (if keys[0] in m then m[keys[0]] else []) + EdgesIn(keys[1..], m)
  }

  /** The children of the transitions stored under the states of ks. */
  function ChildStatesIn(ks: set<string>, m: map<string, seq<Transition>>): set<string>
  {
    set k, t, c | k in ks && k in m && t in m[k] && c in t.children :: c
  }

  /** Every state an automaton mentions: roots, dictionary keys and children. */
  function StatesOf(roots: seq<string>, m: map<string, seq<Transition>>): set<string>
  {
    Elems(roots) + m.Keys + ChildStatesIn(m.Keys, m)
  }

  /** Some transition has no children (an output transition). */
  predicate HasOutput(ts: seq<Transition>)
  {
    exists t :: t in ts && t.children == []
  }

  /** No two transitions carry the same symbol. */
  predicate LabelsDistinct(ts: seq<Transition>)
  {
    forall i, j :: 0 <= i < j < |ts| ==> ts[i].info.symbol != ts[j].info.symbol
  }

  predicate IsPort(sym: string)
  {
    |sym| >= 4 && sym[..4] == "Port"
  }

  /** The distinct port symbols. */
  function PortLabels(es: seq<Transition>): set<string>
  {
    set t | t in es && IsPort(t.info.symbol) :: t.info.symbol
  }

  /** `list.remove(x)`: the first occurrence of x is dropped. */
  function RemoveFirst(s: seq<string>, x: string): (r: seq<string>)
    ensures multiset(r) == multiset(s) - multiset{x}
  {
    if s == [] then []
    else if s[0] == x then (assert s == [s[0]] + s[1..]; s[1..])
    else (assert s == [s[0]] + s[1..]; [s[0]] + RemoveFirst(s[1..], x))
  }

  /** The key order without x. */
  function Without(keys: seq<string>, x: string): (r: seq<string>)
    ensures forall y :: y in r <==> y in keys && y != x
    ensures Distinct(keys) ==> Distinct(r)
  {
    if keys == [] then []
    else
      var rest := Without(keys[1..], x);
      assert Distinct(keys) ==> keys[0] !in keys[1..] && Distinct(keys[1..]);
      if keys[0] == x then rest else [keys[0]] + rest
  }

  /** The key order lists every key of the dictionary once. */
  ghost predicate KeyOrder(keys: seq<string>, m: map<string, seq<Transition>>)
  {
    Distinct(keys) && forall k :: k in keys <==> k in m
  }

  /** A state renamed. */
  function RenamedState(s: string, a: string, b: string): string
  {
    if s == a then b else s
  }

  /** A transition with a renamed in its source and its children. */
  function RenameIn(t: Transition, a: string, b: string): (r: Transition)
    ensures r.info == t.info && |r.children| == |t.children|
  {
    t.(src := RenamedState(t.src, a, b), children := seq(|t.children|, i requires 0 <= i < |t.children| => RenamedState(t.children[i], a, b)))
  }

  /** The transitions that do not lead to s. */
  function NotLeadingTo(ts: seq<Transition>, s: string): (r: seq<Transition>)
    ensures forall t :: t in r <==> t in ts && s !in t.children
  {
    if ts == [] then []
    else (if s in ts[0].children then [] else [ts[0]]) + NotLeadingTo(ts[1..], s)
  }

  /** Every child of every transition of every state in s, which is a key, lies in s. */
  ghost predicate Closed(m: map<string, seq<Transition>>, s: set<string>)
  {
    forall k, t, c :: k in s && k in m && t in m[k] && c in t.children ==> c in s
  }

  class TreeAut {
    var roots: seq<string>
    var keys: seq<string>
    var transitions: map<string, seq<Transition>>
    var name: string
    var portArity: int

    /** The key order lists every key of the dictionary once. */
    ghost predicate Valid()
      reads this
    {
      KeyOrder(keys, transitions)
    }

    function Edges(): seq<Transition>
      reads this
    {
      EdgesIn(keys, transitions)
    }

    function States(): set<string>
      reads this
    {
      StatesOf(roots, transitions)
    }

    /** `TTreeAut(roots, transitions, name, port_arity)`: a port arity of 0 is computed from the edges. */
    constructor (roots: seq<string>, keys: seq<string>, transitions: map<string, seq<Transition>>, name: string, portArity: int)
      requires KeyOrder(keys, transitions)
      ensures Valid()
      ensures this.roots == roots && this.keys == keys && this.transitions == transitions && this.name == name
      ensures this.portArity == if portArity == 0 then |PortLabels(EdgesIn(keys, transitions))| else portArity
    {
      this.roots := roots;
      this.keys := keys;
      this.transitions := transitions;
      this.name := name;
      this.portArity := portArity;
      new;
      if portArity == 0 {
        var n := GetPortArity();
        this.portArity := n;
      }
    }

    /** `get_port_arity`: the number of distinct symbols starting with "Port". */
    method GetPortArity() returns (n: nat)
      ensures n == |PortLabels(Edges())|
    {
      var es := Edges();
      var ports: set<string> := {};
      for i := 0 to |es|
        invariant ports == PortLabels(es[..i])
      {
        assert es[..i + 1] == es[..i] + [es[i]];
        if IsPort(es[i].info.symbol) {
          ports := ports + {es[i].info.symbol};
        }
      }
      assert es[..|es|] == es;
      n := |ports|;
    }

    /** `get_output_states`: the states with an output transition. */
    method GetOutputStates() returns (r: set<string>)
      requires Valid()
      ensures r == set k | k in transitions && HasOutput(transitions[k])
    {
      r := {};
      for i := 0 to |keys|
        invariant r == set k | k in keys[..i] && HasOutput(transitions[k])
      {
        var ts := transitions[keys[i]];
        var found := false;
        var j := 0;
        while j < |ts| && !found
          invariant j <= |ts|
          invariant found <==> exists t :: t in ts[..j] && t.children == []
        {
          assert ts[..j + 1] == ts[..j] + [ts[j]];
          if ts[j].children == [] {
            found := true;
          }
          j := j + 1;
        }
        if !found {
          assert ts[..j] == ts;
        }
        assert keys[..i + 1] == keys[..i] + [keys[i]];
        if found {
          r := r + {keys[i]};
        }
      }
      assert keys[..|keys|] == keys;
    }

    /** `is_top_down_deterministic`: no state has two transitions with one symbol. */
    method IsTopDownDeterministic() returns (b: bool)
      requires Valid()
      ensures b <==> forall k :: k in transitions ==> LabelsDistinct(transitions[k])
    {
      for i := 0 to |keys|
        invariant forall k :: k in keys[..i] ==> LabelsDistinct(transitions[k])
      {
        var ts := transitions[keys[i]];
        var used: set<string> := {};
        for j := 0 to |ts|
          invariant used == set t | t in ts[..j] :: t.info.symbol
          invariant LabelsDistinct(ts[..j])
        {
          if ts[j].info.symbol in used {
            var t :| t in ts[..j] && t.info.symbol == ts[j].info.symbol;
            var p :| 0 <= p < j && ts[p] == t;
            assert !LabelsDistinct(ts);
            return false;
          }
          assert ts[..j + 1] == ts[..j] + [ts[j]];
          used := used + {ts[j].info.symbol};
        }
        assert ts[..|ts|] == ts;
        assert keys[..i + 1] == keys[..i] + [keys[i]];
      }
      assert keys[..|keys|] == keys;
      return true;
    }

    /** `get_states`: every mentioned state once, ordered by `state_name_sort`. */
    method GetStates() returns (r: seq<string>)
      requires Valid()
      ensures Elems(r) == States() && Distinct(r)
    {
      var names := AddNew([], roots);
      names := AddNew(names, keys);
      names := AddNew(names, ChildList(Edges()));
      ChildStatesOfKeys(keys, transitions);
      assert Elems(keys) == transitions.Keys;
      r := StringManipulation.StateNameSort(names);
      assert Elems(r) == Elems(names) by {
        forall x ensures x in r <==> x in names {
          assert x in r <==> x in multiset(r);
        }
      }
      assert Distinct(r) by {
        DistinctMultiset(names);
        DistinctMultiset(r);
      }
    }

    /**
     * `rename_state(a, b)`: the first root a becomes a root b at the end; if a
     * is a key its transitions move to key b (b keeps its place if it was
     * already a key, otherwise it goes last), and every source and child a
     * becomes b.
     */
    method RenameState(a: string, b: string)
      requires Valid()
      modifies this`roots, this`keys, this`transitions
      ensures Valid()
      ensures roots == if a in old(roots) then RemoveFirst(old(roots), a) + [b] else old(roots)
      ensures a !in old(transitions) ==> keys == old(keys) && transitions == old(transitions)
      ensures a in old(transitions) ==>
        keys == (if b in old(transitions) && b != a then Without(old(keys), a) else Without(old(keys), a) + [b])
        && transitions == RenameAll((old(transitions) - {a})[b := old(transitions)[a]], a, b)
    {
      if a in roots {
        roots := RemoveFirst(roots, a) + [b];
      }
      if a !in transitions {
        return;
      }
      RenameKeyOrder(keys, transitions, a, b);
      var moved := transitions[a];
      if !(b in transitions && b != a) {
        keys := Without(keys, a) + [b];
      } else {
        keys := Without(keys, a);
      }
      transitions := RenameAll((transitions - {a})[b := moved], a, b);
    }

    /**
     * `remove_state(s)`: the first root s is dropped, the key s is dropped,
     * and every transition leading to s is dropped.
     */
    method RemoveState(s: string)
      requires Valid()
      modifies this`roots, this`keys, this`transitions
      ensures Valid()
      ensures roots == RemoveFirst(old(roots), s)
      ensures keys == Without(old(keys), s)
      ensures transitions == DropLeadingTo(old(transitions) - {s}, s)
    {
      if s in roots {
        roots := RemoveFirst(roots, s);
      } else {
        RemoveFirstAbsent(roots, s);
      }
      RemoveKeyOrder(keys, transitions, s);
      keys := Without(keys, s);
      transitions := DropLeadingTo(transitions - {s}, s);
    }

    /**
     * `shrink_tree_aut(reachable)`: every state outside `reachable` that is a
     * root, a key, a source or a child is removed with `remove_state`. The
     * new state is exactly that: the first root occurrence of each removed
     * state is dropped, its key is dropped, and every transition with a
     * removed child is dropped; everything else keeps its order.
     */
    method ShrinkTreeAut(reachable: set<string>)
      requires Valid()
      modifies this`roots, this`keys, this`transitions
      ensures Valid()
      ensures var gone := Removed(old(roots), old(transitions), reachable);
        && roots == FirstsDropped(old(roots), gone)
        && keys == KeysWithout(old(keys), gone)
        && transitions == PrunedBy(old(transitions), gone)
      ensures Distinct(old(roots)) ==> forall r :: r in roots ==> r in reachable
      ensures forall k :: k in transitions ==> k in reachable
      ensures forall k, t, c :: k in transitions && t in transitions[k] && c in t.children ==> c in reachable
      ensures transitions.Keys <= old(transitions).Keys
      ensures old(States()) + SourcesIn(old(transitions)) <= reachable ==> roots == old(roots) && keys == old(keys) && transitions == old(transitions)
      ensures forall k, t :: k in transitions && t in transitions[k] ==> k in old(transitions) && t in old(transitions)[k]
      ensures multiset(roots) <= multiset(old(roots))
    {
      var toDelete := Outside(roots, keys, transitions, reachable);
      ghost var roots0, keys0, m0 := roots, keys, transitions;
      ghost var gone: set<string> := {};
      NothingDropped(roots0, keys0, m0);
      for i := 0 to |toDelete|
        invariant Valid()
        invariant gone == Elems(toDelete[..i])
        invariant Shrunk(roots0, keys0, m0, roots, keys, transitions, gone)
      {
        var x := toDelete[i];
        PrefixSnoc(toDelete, i);
        ElemsSnoc(toDelete[..i], x);
        DistinctNotBefore(toDelete, i);
        ShrinkStep(roots0, keys0, m0, roots, keys, transitions, gone, x);
        RemoveState(x);
        gone := gone + {x};
      }
      assert toDelete[..|toDelete|] == toDelete;
      ShrinkDone(roots0, keys0, m0, roots, keys, transitions, toDelete, reachable);
    }
  }

  /** The states of an automaton outside `keep`: those `shrink_tree_aut(keep)` removes. */
  function Removed(roots: seq<string>, m: map<string, seq<Transition>>, keep: set<string>): set<string>
  {
    set x | x in StatesOf(roots, m) + SourcesIn(m) && x !in keep
  }

  /** The roots with the first occurrence of each state of S dropped, in order. */
  function FirstsDropped(s: seq<string>, S: set<string>): (r: seq<string>)
    ensures multiset(r) <= multiset(s)
    ensures Distinct(s) ==> Distinct(r) && forall x :: x in S ==> x !in r
  {
    if s == [] then []
    else
      assert s == [s[0]] + s[1..];
      DistinctTail(s);
      if s[0] in S then
        var rest := FirstsDropped(s[1..], S - {s[0]});
        assert Distinct(s) ==> s[0] !in multiset(rest);
        rest
      else
        var rest := FirstsDropped(s[1..], S);
        assert Distinct(s) ==> s[0] !in multiset(rest);
        [s[0]] + rest
  }

  /** A sequence without repetition does not repeat its head in its tail. */
  lemma DistinctTail(s: seq<string>)
    requires s != []
    ensures Distinct(s) ==> Distinct(s[1..]) && s[0] !in multiset(s[1..])
  {
    if Distinct(s) {
      forall i | 0 <= i < |s[1..]| ensures s[1..][i] != s[0] {
        assert s[1..][i] == s[i + 1];
      }
    }
  }

  /** The key order without the states of S. */
  function KeysWithout(keys: seq<string>, S: set<string>): (r: seq<string>)
    ensures forall y :: y in r <==> y in keys && y !in S
  {
    if keys == [] then []
    else (if keys[0] in S then [] else [keys[0]]) + KeysWithout(keys[1..], S)
  }

  /** No child of t lies in S. */
  predicate Spares(t: Transition, S: set<string>)
  {
    forall c :: c in t.children ==> c !in S
  }

  /** The transitions without a child in S, in order. */
  function Sparing(ts: seq<Transition>, S: set<string>): (r: seq<Transition>)
    ensures forall t :: t in r <==> t in ts && Spares(t, S)
  {
    if ts == [] then []
    else (if Spares(ts[0], S) then [ts[0]] else []) + Sparing(ts[1..], S)
  }

  /** The dictionary without the keys in S and without the transitions leading into S. */
  function PrunedBy(m: map<string, seq<Transition>>, S: set<string>): (r: map<string, seq<Transition>>)
    ensures r.Keys == m.Keys - S
  {
    map k | k in m && k !in S :: Sparing(m[k], S)
  }

  /** Removing no state changes nothing. */
  lemma NothingDropped(roots: seq<string>, keys: seq<string>, m: map<string, seq<Transition>>)
    ensures FirstsDropped(roots, {}) == roots && KeysWithout(keys, {}) == keys && PrunedBy(m, {}) == m
  {
    FirstsDroppedNone(roots);
    KeysWithoutNone(keys);
    forall k | k in m ensures Sparing(m[k], {}) == m[k] {
      SparingNone(m[k]);
    }
  }

  lemma {:induction false} FirstsDroppedNone(s: seq<string>)
    ensures FirstsDropped(s, {}) == s
  {
    if s != [] {
      FirstsDroppedNone(s[1..]);
    }
  }

  lemma {:induction false} KeysWithoutNone(keys: seq<string>)
    ensures KeysWithout(keys, {}) == keys
  {
    if keys != [] {
      KeysWithoutNone(keys[1..]);
    }
  }

  lemma {:induction false} SparingNone(ts: seq<Transition>)
    ensures Sparing(ts, {}) == ts
  {
    if ts != [] {
      SparingNone(ts[1..]);
    }
  }

  /** `list.remove(x)` after dropping the first occurrences of S drops that of x too. */
  lemma {:induction false} FirstsDroppedStep(s: seq<string>, S: set<string>, x: string)
    requires x !in S
    ensures RemoveFirst(FirstsDropped(s, S), x) == FirstsDropped(s, S + {x})
  {
    if s != [] {
      if s[0] in S {
        assert S + {x} - {s[0]} == (S - {s[0]}) + {x};
        FirstsDroppedStep(s[1..], S - {s[0]}, x);
      } else if s[0] == x {
        assert S + {x} - {x} == S;
      } else {
        var rest := FirstsDropped(s[1..], S);
        assert ([s[0]] + rest)[1..] == rest;
        FirstsDroppedStep(s[1..], S, x);
      }
    }
  }

  lemma {:induction false} KeysWithoutStep(keys: seq<string>, S: set<string>, x: string)
    ensures Without(KeysWithout(keys, S), x) == KeysWithout(keys, S + {x})
  {
    if keys != [] {
      KeysWithoutStep(keys[1..], S, x);
      var rest := KeysWithout(keys[1..], S);
      if keys[0] !in S {
        assert ([keys[0]] + rest)[1..] == rest;
      } else {
        assert [] + rest == rest;
      }
    }
  }

  lemma {:induction false} SparingStep(ts: seq<Transition>, S: set<string>, x: string)
    ensures NotLeadingTo(Sparing(ts, S), x) == Sparing(ts, S + {x})
  {
    if ts != [] {
      SparingStep(ts[1..], S, x);
      var rest := Sparing(ts[1..], S);
      if Spares(ts[0], S) {
        assert ([ts[0]] + rest)[1..] == rest;
        assert Spares(ts[0], S + {x}) <==> x !in ts[0].children;
      } else {
        assert [] + rest == rest;
      }
    }
  }

  /** `remove_state(x)` on the dictionary pruned by S prunes it by S + {x}. */
  lemma PrunedByStep(m: map<string, seq<Transition>>, S: set<string>, x: string)
    ensures DropLeadingTo(PrunedBy(m, S) - {x}, x) == PrunedBy(m, S + {x})
  {
    forall k | k in m && k !in S + {x}
      ensures NotLeadingTo(Sparing(m[k], S), x) == Sparing(m[k], S + {x})
    {
      SparingStep(m[k], S, x);
    }
  }

  /** An element of a distinct list does not occur before its position. */
  lemma DistinctNotBefore(s: seq<string>, i: nat)
    requires Distinct(s) && i < |s|
    ensures s[i] !in Elems(s[..i])
  {
  }

  /** What is left of an automaton once the states of gone are removed one by one. */
  ghost predicate Shrunk(roots0: seq<string>, keys0: seq<string>, m0: map<string, seq<Transition>>,
                         roots: seq<string>, keys: seq<string>, m: map<string, seq<Transition>>, gone: set<string>)
  {
    && roots == FirstsDropped(roots0, gone)
    && keys == KeysWithout(keys0, gone)
    && Pruned(m, m0, gone)
  }

  lemma ShrinkStep(roots0: seq<string>, keys0: seq<string>, m0: map<string, seq<Transition>>,
                   roots: seq<string>, keys: seq<string>, m: map<string, seq<Transition>>, gone: set<string>, x: string)
    requires x !in gone && Shrunk(roots0, keys0, m0, roots, keys, m, gone)
    ensures Shrunk(roots0, keys0, m0, RemoveFirst(roots, x), Without(keys, x), DropLeadingTo(m - {x}, x), gone + {x})
  {
    FirstsDroppedStep(roots0, gone, x);
    KeysWithoutStep(keys0, gone, x);
    PrunedStep(m, m0, gone, x);
  }

  /** The dictionary m is m0 without the keys in gone and without the transitions leading into gone. */
  ghost predicate Pruned(m: map<string, seq<Transition>>, m0: map<string, seq<Transition>>, gone: set<string>)
  {
    m == PrunedBy(m0, gone)
  }

  lemma PrunedStep(m: map<string, seq<Transition>>, m0: map<string, seq<Transition>>, gone: set<string>, x: string)
    requires Pruned(m, m0, gone)
    ensures Pruned(DropLeadingTo(m - {x}, x), m0, gone + {x})
  {
    PrunedByStep(m0, gone, x);
  }

  /** After the loop of `shrink_tree_aut`: exactly the removed states are gone. */
  lemma ShrinkDone(roots0: seq<string>, keys0: seq<string>, m0: map<string, seq<Transition>>,
                   roots: seq<string>, keys: seq<string>, m: map<string, seq<Transition>>,
                   toDelete: seq<string>, reachable: set<string>)
    requires forall x :: x in toDelete <==> x in StatesOf(roots0, m0) + SourcesIn(m0) && x !in reachable
    requires Shrunk(roots0, keys0, m0, roots, keys, m, Elems(toDelete))
    ensures var gone := Removed(roots0, m0, reachable);
      roots == FirstsDropped(roots0, gone) && keys == KeysWithout(keys0, gone) && m == PrunedBy(m0, gone)
    ensures Distinct(roots0) ==> forall r :: r in roots ==> r in reachable
    ensures forall k :: k in m ==> k in reachable
    ensures forall k, t, c :: k in m && t in m[k] && c in t.children ==> c in reachable
    ensures m.Keys <= m0.Keys
    ensures StatesOf(roots0, m0) + SourcesIn(m0) <= reachable ==> roots == roots0 && keys == keys0 && m == m0
    ensures forall k, t :: k in m && t in m[k] ==> k in m0 && t in m0[k]
    ensures multiset(roots) <= multiset(roots0)
  {
    var gone := Removed(roots0, m0, reachable);
    assert Elems(toDelete) == gone;
    ShrunkWithin(roots0, m0, roots, m, gone, reachable);
    if StatesOf(roots0, m0) + SourcesIn(m0) <= reachable {
      assert gone == {};
      NothingDropped(roots0, keys0, m0);
    }
  }

  /** Once the removed states are gone, only states in reachable remain, and nothing changes when none is removed. */
  lemma ShrunkWithin(roots0: seq<string>, m0: map<string, seq<Transition>>, roots: seq<string>, m: map<string, seq<Transition>>,
                     gone: set<string>, reachable: set<string>)
    requires gone == Removed(roots0, m0, reachable)
    requires roots == FirstsDropped(roots0, gone) && Pruned(m, m0, gone)
    ensures Distinct(roots0) ==> forall r :: r in roots ==> r in reachable
    ensures forall k :: k in m ==> k in reachable
    ensures forall k, t, c :: k in m && t in m[k] && c in t.children ==> c in reachable
    ensures forall k, t :: k in m && t in m[k] ==> k in m0 && t in m0[k]
  {
    forall r | r in roots && Distinct(roots0) ensures r in reachable {
      assert r in multiset(roots0);
    }
    forall k, t, c | k in m && t in m[k] && c in t.children ensures c in reachable {
      assert k in m0 && t in m0[k];
      assert c in ChildStatesIn(m0.Keys, m0);
    }
  }

  lemma RenameKeyOrder(keys: seq<string>, m: map<string, seq<Transition>>, a: string, b: string)
    requires KeyOrder(keys, m) && a in m
    ensures KeyOrder(if b in m && b != a then Without(keys, a) else Without(keys, a) + [b], RenameAll((m - {a})[b := m[a]], a, b))
  {
    var w := Without(keys, a);
    if !(b in m && b != a) {
      assert b !in w;
      assert Distinct(w + [b]) by {
        forall i, j | 0 <= i < j < |w + [b]| ensures (w + [b])[i] != (w + [b])[j] {
          if j == |w| {
            assert (w + [b])[i] == w[i];
          } else {
            assert (w + [b])[i] == w[i] && (w + [b])[j] == w[j];
          }
        }
      }
    }
  }

  lemma RemoveKeyOrder(keys: seq<string>, m: map<string, seq<Transition>>, s: string)
    requires KeyOrder(keys, m)
    ensures KeyOrder(Without(keys, s), DropLeadingTo(m - {s}, s))
  {
  }

  /** Every transition renamed. */
  function RenameAll(m: map<string, seq<Transition>>, a: string, b: string): (r: map<string, seq<Transition>>)
    ensures r.Keys == m.Keys
  {
    map k | k in m :: seq(|m[k]|, i requires 0 <= i < |m[k]| => RenameIn(m[k][i], a, b))
  }

  /** Every transition leading to s dropped. */
  function DropLeadingTo(m: map<string, seq<Transition>>, s: string): (r: map<string, seq<Transition>>)
    ensures r.Keys == m.Keys
  {
    map k | k in m :: NotLeadingTo(m[k], s)
  }

  /** `to_delete` of `shrink_tree_aut`, without repetitions: the roots, keys, sources and children outside `reachable`. */
  function Outside(roots: seq<string>, keys: seq<string>, m: map<string, seq<Transition>>, reachable: set<string>): (r: seq<string>)
    requires KeyOrder(keys, m)
    ensures Distinct(r)
    ensures forall x :: x in r <==> x in StatesOf(roots, m) + SourcesIn(m) && x !in reachable
    ensures StatesOf(roots, m) + SourcesIn(m) <= reachable ==> r == []
  {
    var es := EdgesIn(keys, m);
    var names := roots + keys + SrcList(es) + ChildList(es);
    forall x | x in StatesOf(roots, m) + SourcesIn(m)
      ensures x in names
    {
      if x in ChildStatesIn(m.Keys, m) {
        ChildStatesOfKeys(keys, m);
        assert Elems(keys) == m.Keys;
        assert x in ChildList(es);
      } else if x in SourcesIn(m) && x !in roots && x !in keys {
        var k, t :| k in m && t in m[k] && t.src == x;
        EdgesInHolds(keys, m, k, t);
        SrcListHas(es, t);
      }
    }
    forall x | x in names
      ensures x in StatesOf(roots, m) + SourcesIn(m)
    {
      OutsideNames(roots, keys, m, x);
    }
    var r := FilterOut(names, reachable);
    assert r != [] ==> r[0] in r;
    r
  }

  lemma {:induction false} SrcListHas(es: seq<Transition>, t: Transition)
    requires t in es
    ensures t.src in SrcList(es)
  {
    if es[0] != t {
      SrcListHas(es[1..], t);
    }
  }

  /** The sources of the transitions of a dictionary. */
  function SourcesIn(m: map<string, seq<Transition>>): set<string>
  {
    set k, t | k in m && t in m[k] :: t.src
  }

  lemma OutsideNames(roots: seq<string>, keys: seq<string>, m: map<string, seq<Transition>>, x: string)
    requires KeyOrder(keys, m)
    requires x in roots + keys + SrcList(EdgesIn(keys, m)) + ChildList(EdgesIn(keys, m))
    ensures x in StatesOf(roots, m) + SourcesIn(m)
  {
    var es := EdgesIn(keys, m);
    if x in SrcList(es) {
      var t := SrcListHolds(es, x);
      EdgesInMember(keys, m, t);
    } else if x in ChildList(es) {
      SuccessorsAreChildren(es, x);
      var t :| t in es && x in t.children;
      EdgesInMember(keys, m, t);
    }
  }

  lemma {:induction false} SrcListHolds(es: seq<Transition>, x: string) returns (t: Transition)
    requires x in SrcList(es)
    ensures t in es && t.src == x
  {
    if es[0].src == x {
      t := es[0];
    } else {
      t := SrcListHolds(es[1..], x);
    }
  }

  /** The sources of a list of transitions. */
  function SrcList(es: seq<Transition>): seq<string>
  {
    if es == [] then [] else [es[0].src] + SrcList(es[1..])
  }

  /** The children of a list of transitions, one after another. */
  function ChildList(es: seq<Transition>): seq<string>
  {
    if es == [] then [] else es[0].children + ChildList(es[1..])
  }

  lemma {:induction false} ChildListHolds(es: seq<Transition>, t: Transition, c: string)
    requires t in es && c in t.children
    ensures c in ChildList(es)
  {
    if es[0] != t {
      ChildListHolds(es[1..], t, c);
    }
  }

  lemma {:induction false} EdgesInHolds(keys: seq<string>, m: map<string, seq<Transition>>, k: string, t: Transition)
    requires k in keys && k in m && t in m[k]
    ensures t in EdgesIn(keys, m)
  {
    if keys[0] != k {
      EdgesInHolds(keys[1..], m, k, t);
    }
  }

  lemma {:induction false} EdgesInMember(keys: seq<string>, m: map<string, seq<Transition>>, t: Transition)
    requires t in EdgesIn(keys, m)
    ensures exists k :: k in keys && k in m && t in m[k]
  {
    if keys[0] in m && t in m[keys[0]] {
    } else {
      EdgesInMember(keys[1..], m, t);
    }
  }

  /** The children listed for the edges of the keys are the child states of the keys. */
  lemma ChildStatesOfKeys(keys: seq<string>, m: map<string, seq<Transition>>)
    ensures Elems(ChildList(EdgesIn(keys, m))) == ChildStatesIn(Elems(keys), m)
  {
    forall c | c in ChildList(EdgesIn(keys, m)) ensures c in ChildStatesIn(Elems(keys), m) {
      SuccessorsAreChildren(EdgesIn(keys, m), c);
      var t :| t in EdgesIn(keys, m) && c in t.children;
      EdgesInMember(keys, m, t);
    }
    forall c | c in ChildStatesIn(Elems(keys), m) ensures c in ChildList(EdgesIn(keys, m)) {
      var k, t :| k in keys && k in m && t in m[k] && c in t.children;
      EdgesInHolds(keys, m, k, t);
      ChildListHolds(EdgesIn(keys, m), t, c);
    }
  }

  /** The names outside `keep`, each once, in order of first occurrence. */
  function FilterOut(names: seq<string>, keep: set<string>): (r: seq<string>)
    ensures forall x :: x in names && x !in keep ==> x in r
    ensures forall x :: x in r ==> x in names && x !in keep
    ensures Distinct(r)
  {
    if names == [] then []
    else
      var rest := FilterOut(names[1..], keep);
      if names[0] !in keep && names[0] !in rest then
        assert forall i :: 0 < i < |[names[0]] + rest| ==> ([names[0]] + rest)[i] == rest[i - 1];
        [names[0]] + rest
      else rest
  }

  /** Adding names that are not there yet. */
  method AddNew(names: seq<string>, xs: seq<string>) returns (r: seq<string>)
    requires Distinct(names)
    ensures Distinct(r) && Elems(r) == Elems(names) + Elems(xs)
  {
    r := names;
    for i := 0 to |xs|
      invariant Distinct(r) && Elems(r) == Elems(names) + Elems(xs[..i])
    {
      assert xs[..i + 1] == xs[..i] + [xs[i]];
      if xs[i] !in r {
        assert Elems(r + [xs[i]]) == Elems(r) + {xs[i]};
        r := r + [xs[i]];
      }
    }
    assert xs[..|xs|] == xs;
  }

  lemma DistinctMultiset(s: seq<string>)
    ensures Distinct(s) <==> forall x :: multiset(s)[x] <= 1
  {
    if Distinct(s) {
      forall x ensures multiset(s)[x] <= 1 {
        CountAtMostOne(s, x);
      }
    }
    if forall x :: multiset(s)[x] <= 1 {
      forall i, j | 0 <= i < j < |s| ensures s[i] != s[j] {
        if s[i] == s[j] {
          TwoOccurrences(s, i, j);
        }
      }
    }
  }

  lemma {:induction false} CountAtMostOne(s: seq<string>, x: string)
    requires Distinct(s)
    ensures multiset(s)[x] <= 1
  {
    if s != [] {
      assert s == [s[0]] + s[1..];
      CountAtMostOne(s[1..], x);
      if s[0] == x {
        assert x !in s[1..];
      }
    }
  }

  lemma {:induction false} TwoOccurrences(s: seq<string>, i: nat, j: nat)
    requires i < j < |s| && s[i] == s[j]
    ensures multiset(s)[s[i]] >= 2
  {
    assert s == s[..j] + [s[j]] + s[j + 1..];
    assert s[i] in s[..j];
  }

  lemma {:induction false} RemoveFirstAbsent(s: seq<string>, x: string)
    requires x !in s
    ensures RemoveFirst(s, x) == s
  {
    if s != [] {
      assert s[0] != x && x !in s[1..];
      RemoveFirstAbsent(s[1..], x);
      assert s == [s[0]] + s[1..];
    }
  }

  lemma WithoutAbsent(keys: seq<string>, x: string)
    requires x !in keys
    ensures Without(keys, x) == keys
  {
  }

  /** Without repetitions, removing the first x removes every x. */
  lemma RemoveFirstDistinct(s: seq<string>, x: string)
    requires Distinct(s)
    ensures Distinct(RemoveFirst(s, x)) && x !in RemoveFirst(s, x)
  {
    DistinctMultiset(s);
    var r := RemoveFirst(s, x);
    assert multiset(r)[x] == 0;
    forall y ensures multiset(r)[y] <= 1 {
    }
    DistinctMultiset(r);
  }

  // -----------------------------------------------------------------------
  // Facts about the mutators
  // -----------------------------------------------------------------------

  /**
   * After `rename_state(a, b)` with a a key and a != b, a is no longer a key,
   * a source or a child, and (if it was a root at most once) no longer a root.
   */
  lemma RenameRemovesName(roots: seq<string>, m: map<string, seq<Transition>>, a: string, b: string)
    requires a in m && a != b
    ensures var m' := RenameAll((m - {a})[b := m[a]], a, b);
      a !in m' && forall k, t :: k in m' && t in m'[k] ==> t.src != a && a !in t.children
    ensures multiset(roots)[a] <= 1 ==> a !in RemoveFirst(roots, a) + [b] && a !in RemoveFirst(roots, a)
  {
    RenamedClean((m - {a})[b := m[a]], a, b);
    if multiset(roots)[a] <= 1 {
      var r := RemoveFirst(roots, a);
      assert multiset(r)[a] == 0;
      assert a !in r + [b];
    }
  }

  /** No transition renamed from a to another name still mentions a. */
  lemma RenamedClean(m: map<string, seq<Transition>>, a: string, b: string)
    requires a != b
    ensures var m' := RenameAll(m, a, b);
      forall k, t :: k in m' && t in m'[k] ==> t.src != a && a !in t.children
  {
    var m' := RenameAll(m, a, b);
    forall k: string, t: Transition | k in m' && t in m'[k] ensures t.src != a && a !in t.children {
      var i :| 0 <= i < |m'[k]| && m'[k][i] == t;
    }
  }

  /** After `remove_state(s)`, s is no key and no transition leads to s. */
  lemma RemoveStateRemoves(roots: seq<string>, m: map<string, seq<Transition>>, s: string)
    ensures var m' := DropLeadingTo(m - {s}, s);
      s !in m' && forall k, t :: k in m' && t in m'[k] ==> s !in t.children && t in m[k]
    ensures multiset(roots)[s] <= 1 ==> s !in RemoveFirst(roots, s)
  {
    if multiset(roots)[s] <= 1 {
      assert multiset(RemoveFirst(roots, s))[s] == 0;
    }
  }

  // -----------------------------------------------------------------------
  // Iterators
  // -----------------------------------------------------------------------

  /** The children of the transitions of s, transition by transition. */
  function Successors(m: map<string, seq<Transition>>, s: string): seq<string>
    requires s in m
  {
    ChildList(m[s])
  }

  lemma SuccessorsHold(m: map<string, seq<Transition>>, s: string, t: Transition, c: string)
    requires s in m && t in m[s] && c in t.children
    ensures c in Successors(m, s)
  {
    ChildListHolds(m[s], t, c);
  }

  lemma {:induction false} SuccessorsAreChildren(es: seq<Transition>, c: string)
    requires c in ChildList(es)
    ensures exists t :: t in es && c in t.children
  {
    if c !in es[0].children {
      SuccessorsAreChildren(es[1..], c);
    }
  }

  /** The children an iterator pushes: the successors not yet visited, in order. */
  function Unvisited(succ: seq<string>, visited: set<string>): (r: seq<string>)
    ensures Elems(r) == Elems(succ) - visited
  {
    if succ == [] then []
    else
      assert Elems(succ) == {succ[0]} + Elems(succ[1..]);
      var head := if succ[0] in visited then [] else [succ[0]];
      var rest := Unvisited(succ[1..], visited);
      assert Elems(head + rest) == Elems(head) + Elems(rest);
      head + rest
  }

  /** The successors of v all lie in s. */
  ghost predicate SuccessorsWithin(m: map<string, seq<Transition>>, v: string, s: set<string>)
    requires v in m
  {
    forall c :: c in Successors(m, v) ==> c in s
  }

  /** Every visited state is a key whose successors are visited or still pending. */
  ghost predicate Explored(m: map<string, seq<Transition>>, visited: set<string>, pending: set<string>)
  {
    forall v :: v in visited ==> v in m && SuccessorsWithin(m, v, visited + pending)
  }

  /** What both iterators keep while they run over the work list. */
  ghost predicate WalkInv(roots: seq<string>, m: map<string, seq<Transition>>, universe: set<string>,
                          work: seq<string>, visited: set<string>, order: seq<string>)
  {
    && Elems(work) <= universe && visited <= universe
    && Distinct(order) && Elems(order) == visited
    && Elems(roots) <= visited + Elems(work)
    && Explored(m, visited, Elems(work))
  }

  /** The work list without the entry at `at`, its front or its back. */
  function Rest(work: seq<string>, at: nat): seq<string>
    requires at < |work|
  {
    if at == 0 then work[1..] else work[..at]
  }

  lemma ElemsRest(work: seq<string>, at: nat)
    requires at < |work| && (at == 0 || at == |work| - 1)
    ensures Elems(work) == {work[at]} + Elems(Rest(work, at))
  {
    if at == 0 {
      assert work == [work[at]] + Rest(work, at);
    } else {
      assert work == Rest(work, at) + [work[at]];
    }
  }

  /** Dropping an already visited state from the work list. */
  lemma SkipStep(roots: seq<string>, m: map<string, seq<Transition>>, universe: set<string>,
                 work: seq<string>, at: nat, visited: set<string>, order: seq<string>)
    requires at < |work| && (at == 0 || at == |work| - 1) && work[at] in visited
    requires WalkInv(roots, m, universe, work, visited, order)
    ensures WalkInv(roots, m, universe, Rest(work, at), visited, order)
  {
    ElemsRest(work, at);
    forall v | v in visited ensures v in m && SuccessorsWithin(m, v, visited + Elems(Rest(work, at))) {
      assert SuccessorsWithin(m, v, visited + Elems(work));
    }
  }

  /** Visiting a state of the work list keeps every visited state explored. */
  lemma ExploreStep(m: map<string, seq<Transition>>, visited: set<string>, state: string, rest: seq<string>)
    requires state in m && Explored(m, visited, {state} + Elems(rest))
    ensures Explored(m, visited + {state}, Elems(rest + Unvisited(Successors(m, state), visited + {state})))
  {
    var pushed := Unvisited(Successors(m, state), visited + {state});
    assert Elems(rest + pushed) == Elems(rest) + Elems(pushed);
    var after := visited + {state} + Elems(rest + pushed);
    forall v | v in visited + {state} ensures v in m && SuccessorsWithin(m, v, after) {
      if v != state {
        assert SuccessorsWithin(m, v, visited + ({state} + Elems(rest)));
      }
    }
  }

  /**
   * Visiting the state at `at` and pushing its unvisited successors: the
   * visited states stay distinct, inside the universe and explored.
   */
  lemma VisitStep(roots: seq<string>, m: map<string, seq<Transition>>, universe: set<string>,
                  work: seq<string>, at: nat, visited: set<string>, order: seq<string>)
    requires at < |work| && (at == 0 || at == |work| - 1)
    requires work[at] in m && work[at] !in visited
    requires forall s :: s in m ==> SuccessorsWithin(m, s, universe)
    requires WalkInv(roots, m, universe, work, visited, order)
    ensures var state := work[at];
      && |order| < |universe|
      && WalkInv(roots, m, universe, Rest(work, at) + Unvisited(Successors(m, state), visited + {state}), visited + {state}, order + [state])
  {
    var state := work[at];
    var rest := Rest(work, at);
    var pushed := Unvisited(Successors(m, state), visited + {state});
    ElemsRest(work, at);
    ExploreStep(m, visited, state, rest);
    assert Elems(rest + pushed) == Elems(rest) + Elems(pushed);
    assert Elems(order + [state]) == Elems(order) + {state};
    assert SuccessorsWithin(m, state, universe);
    OrderBound(order + [state], universe);
  }

  /** A list of distinct states of the universe is no longer than the universe. */
  lemma OrderBound(order: seq<string>, universe: set<string>)
    requires Distinct(order) && Elems(order) <= universe
    ensures |order| <= |universe|
  {
    DistinctCard(order);
    SubsetCard(Elems(order), universe);
  }

  lemma SubsetCard(a: set<string>, b: set<string>)
    requires a <= b
    ensures |a| <= |b|
  {
    assert b == a + (b - a);
  }

  // ---------------------------------------------------------------------
  // Top-down reachability
  // ---------------------------------------------------------------------

  /** S contains the roots and every child of a transition of a state in S. */
  ghost predicate ClosedAbove(m: map<string, seq<Transition>>, roots: seq<string>, S: set<string>)
  {
    Elems(roots) <= S && Closed(m, S)
  }

  /** X lies within every set closed under children that contains the roots: X holds only reachable states. */
  ghost predicate OnlyReachable(m: map<string, seq<Transition>>, roots: seq<string>, X: set<string>)
  {
    forall S :: ClosedAbove(m, roots, S) ==> X <= S
  }

  /** Following the transitions of a reachable state adds only reachable states. */
  lemma ReachStep(m: map<string, seq<Transition>>, roots: seq<string>, X: set<string>, state: string, grown: seq<string>)
    requires OnlyReachable(m, roots, X) && state in Elems(roots) + X && state in m
    requires Elems(grown) <= Elems(Successors(m, state))
    ensures OnlyReachable(m, roots, X + Elems(grown))
  {
    forall S | ClosedAbove(m, roots, S)
      ensures X + Elems(grown) <= S
    {
      forall c | c in grown
        ensures c in S
      {
        assert c in Elems(grown);
        SuccessorsAreChildren(m[state], c);
      }
    }
  }

  /** x lies in every set closed under children that contains the roots: x is top-down reachable. */
  ghost predicate Reachable(m: map<string, seq<Transition>>, roots: seq<string>, x: string)
  {
    forall S :: ClosedAbove(m, roots, S) ==> x in S
  }

  /** A list holding the roots, closed under children and holding only reachable states holds exactly the reachable states. */
  lemma {:induction false} ExactlyReachable(m: map<string, seq<Transition>>, roots: seq<string>, result: seq<string>)
    requires Elems(roots) <= Elems(result) && Closed(m, Elems(result)) && OnlyReachable(m, roots, Elems(result))
    ensures forall x :: x in result <==> Reachable(m, roots, x)
  {
    forall x
      ensures x in result <==> Reachable(m, roots, x)
    {
      if x in result {
        assert x in Elems(result);
      } else {
        assert ClosedAbove(m, roots, Elems(result));
      }
    }
  }

  /** A state of a set holding only reachable states is reachable. */
  lemma OnlyReachableHas(m: map<string, seq<Transition>>, roots: seq<string>, X: set<string>, x: string)
    requires OnlyReachable(m, roots, X) && x in X
    ensures Reachable(m, roots, x)
  {
    forall S | ClosedAbove(m, roots, S) ensures x in S {
      assert X <= S;
    }
  }

  /** Part of a set holding only reachable states holds only reachable states. */
  lemma OnlyReachableWithin(m: map<string, seq<Transition>>, roots: seq<string>, X: set<string>, Y: set<string>)
    requires OnlyReachable(m, roots, X) && Y <= X
    ensures OnlyReachable(m, roots, Y)
  {
    forall S | ClosedAbove(m, roots, S) ensures Y <= S {
      assert X <= S;
    }
  }

  // ---------------------------------------------------------------------
  // The state iterators
  // ---------------------------------------------------------------------

  /** The children of s over all its transitions, none when s has no entry. */
  function Kids(m: map<string, seq<Transition>>, s: string): seq<string>
  {
    if s in m then Successors(m, s) else []
  }

  /** The children of the states of order, state by state. */
  function KidsOf(m: map<string, seq<Transition>>, order: seq<string>): seq<string>
  {
    if order == [] then [] else KidsOf(m, order[..|order| - 1]) + Kids(m, order[|order| - 1])
  }

  /**
   * The entries still waiting once the states of order are listed: the
   * start list followed by the children of the listed states, without the
   * listed states.
   */
  function Pending(m: map<string, seq<Transition>>, start: seq<string>, order: seq<string>): seq<string>
  {
    Unvisited(start + KidsOf(m, order), Elems(order))
  }

  /** Each state of r is the first entry waiting once the states before it are listed. */
  predicate ListedFirst(m: map<string, seq<Transition>>, start: seq<string>, r: seq<string>)
  {
    forall i :: 0 <= i < |r| ==> Pending(m, start, r[..i]) != [] && Pending(m, start, r[..i])[0] == r[i]
  }

  /** Each state of r is the last entry waiting once the states before it are listed. */
  predicate ListedLast(m: map<string, seq<Transition>>, start: seq<string>, r: seq<string>)
  {
    forall i :: 0 <= i < |r| ==>
      var p := Pending(m, start, r[..i]); p != [] && p[|p| - 1] == r[i]
  }

  /**
   * Breadth-first order: the roots, then the children of the first listed
   * state, then those of the second, and so on, each state where it first
   * occurs; the list ends when nothing waits.
   */
  predicate BreadthFirst(m: map<string, seq<Transition>>, roots: seq<string>, r: seq<string>)
  {
    ListedFirst(m, roots, r) && Pending(m, roots, r) == []
  }

  /**
   * Depth-first order: the stack starts as the roots reversed and each
   * listed state pushes its children; the next state is the topmost entry
   * not listed yet, and the list ends when nothing waits.
   */
  predicate DepthFirst(m: map<string, seq<Transition>>, roots: seq<string>, r: seq<string>)
  {
    ListedLast(m, Reversed(roots), r) && Pending(m, Reversed(roots), r) == []
  }

  lemma {:induction false} UnvisitedAppend(a: seq<string>, b: seq<string>, V: set<string>)
    ensures Unvisited(a + b, V) == Unvisited(a, V) + Unvisited(b, V)
  {
    if a == [] {
      assert a + b == b;
    } else {
      assert (a + b)[0] == a[0] && (a + b)[1..] == a[1..] + b;
      UnvisitedAppend(a[1..], b, V);
    }
  }

  lemma {:induction false} UnvisitedTwice(a: seq<string>, A: set<string>, B: set<string>)
    ensures Unvisited(Unvisited(a, A), B) == Unvisited(a, A + B)
  {
    if a != [] {
      UnvisitedTwice(a[1..], A, B);
      if a[0] !in A {
        var u := Unvisited(a, A);
        assert u == [a[0]] + Unvisited(a[1..], A);
        assert u != [] && u[0] == a[0] && u[1..] == Unvisited(a[1..], A);
        assert Unvisited(u, B) == (if a[0] in B then [] else [a[0]]) + Unvisited(u[1..], B);
      } else {
        assert Unvisited(a, A) == [] + Unvisited(a[1..], A) == Unvisited(a[1..], A);
      }
      assert Unvisited(a, A + B) == (if a[0] in A + B then [] else [a[0]]) + Unvisited(a[1..], A + B);
    }
  }

  /** Dropping a listed state from either end of the work list keeps what waits in it. */
  lemma WorkSkip(work: seq<string>, rest: seq<string>, s: string, V: set<string>)
    requires (work == [s] + rest || work == rest + [s]) && s in V
    ensures Unvisited(work, V) == Unvisited(rest, V)
  {
    UnvisitedAppend([s], rest, V);
    UnvisitedAppend(rest, [s], V);
    assert Unvisited([s], V) == [];
  }

  /**
   * Listing s from either end of the work list and pushing its unlisted
   * children keeps the waiting entries those of the stream with the
   * children appended; s was the first (from the front) or the last (from
   * the back) waiting entry of the stream.
   */
  lemma WorkVisit(stream: seq<string>, work: seq<string>, rest: seq<string>, s: string, V: set<string>, kids: seq<string>)
    requires Unvisited(work, V) == Unvisited(stream, V)
    requires (work == [s] + rest || work == rest + [s]) && s !in V
    ensures var f := Unvisited(stream, V);
      f != [] && (work == [s] + rest ==> f[0] == s) && (work == rest + [s] ==> f[|f| - 1] == s)
    ensures Unvisited(rest + Unvisited(kids, V + {s}), V + {s}) == Unvisited(stream + kids, V + {s})
  {
    var V' := V + {s};
    UnvisitedAppend([s], rest, V);
    UnvisitedAppend(rest, [s], V);
    assert Unvisited([s], V) == [s];
    UnvisitedAppend(stream, kids, V');
    UnvisitedTwice(stream, V, {s});
    UnvisitedTwice(work, V, {s});
    WorkSkip(work, rest, s, V');
    UnvisitedAppend(rest, Unvisited(kids, V'), V');
    UnvisitedTwice(kids, V', V');
    assert V' + V' == V';
  }

  /** Listing one more state: its children join the stream and it leaves what waits. */
  lemma PendingSnoc(m: map<string, seq<Transition>>, start: seq<string>, order: seq<string>, s: string)
    requires s in m
    ensures Pending(m, start, order + [s]) == Unvisited(start + KidsOf(m, order) + Successors(m, s), Elems(order) + {s})
  {
    assert (order + [s])[..|order|] == order;
    assert Elems(order + [s]) == Elems(order) + {s};
    assert start + (KidsOf(m, order) + Successors(m, s)) == start + KidsOf(m, order) + Successors(m, s);
  }

  lemma ListedFirstSnoc(m: map<string, seq<Transition>>, start: seq<string>, order: seq<string>, s: string)
    requires ListedFirst(m, start, order)
    requires Pending(m, start, order) != [] && Pending(m, start, order)[0] == s
    ensures ListedFirst(m, start, order + [s])
  {
    var r := order + [s];
    forall i | 0 <= i < |r| ensures Pending(m, start, r[..i]) != [] && Pending(m, start, r[..i])[0] == r[i] {
      assert r[..i] == order[..i];
      if i == |order| {
        assert order[..i] == order;
      }
    }
  }

  lemma ListedLastSnoc(m: map<string, seq<Transition>>, start: seq<string>, order: seq<string>, s: string)
    requires ListedLast(m, start, order)
    requires var p := Pending(m, start, order); p != [] && p[|p| - 1] == s
    ensures ListedLast(m, start, order + [s])
  {
    var r := order + [s];
    forall i | 0 <= i < |r| ensures var p := Pending(m, start, r[..i]); p != [] && p[|p| - 1] == r[i] {
      assert r[..i] == order[..i];
      if i == |order| {
        assert order[..i] == order;
      }
    }
  }

  /** What both iterators keep about the order and reachability of what they list. */
  ghost predicate StreamInv(m: map<string, seq<Transition>>, roots: seq<string>, start: seq<string>,
                            work: seq<string>, visited: set<string>, order: seq<string>)
  {
    && Unvisited(work, visited) == Pending(m, start, order)
    && OnlyReachable(m, roots, visited + Elems(work))
  }

  lemma StreamSkip(m: map<string, seq<Transition>>, roots: seq<string>, start: seq<string>,
                   work: seq<string>, at: nat, visited: set<string>, order: seq<string>)
    requires at < |work| && (at == 0 || at == |work| - 1) && work[at] in visited
    requires StreamInv(m, roots, start, work, visited, order)
    ensures StreamInv(m, roots, start, Rest(work, at), visited, order)
  {
    var rest := Rest(work, at);
    if at == 0 {
      assert work == [work[at]] + rest;
    } else {
      assert work == rest + [work[at]];
    }
    WorkSkip(work, rest, work[at], visited);
    ElemsRest(work, at);
    OnlyReachableWithin(m, roots, visited + Elems(work), visited + Elems(rest));
  }

  /** Listing the state at `at`: the stream invariant holds for the longer order, and the state was the one the order asks for. */
  lemma StreamVisit(m: map<string, seq<Transition>>, roots: seq<string>, start: seq<string>,
                    work: seq<string>, at: nat, visited: set<string>, order: seq<string>)
    requires at < |work| && (at == 0 || at == |work| - 1) && work[at] !in visited && work[at] in m
    requires visited == Elems(order)
    requires StreamInv(m, roots, start, work, visited, order)
    ensures var s, p := work[at], Pending(m, start, order);
      && p != [] && (at == 0 ==> p[0] == s) && (at == |work| - 1 ==> p[|p| - 1] == s)
      && StreamInv(m, roots, start, Rest(work, at) + Unvisited(Successors(m, s), visited + {s}), visited + {s}, order + [s])
  {
    PendingVisit(m, start, work, at, visited, order);
    ReachVisit(m, roots, work, at, visited);
  }

  /** The waiting part of the stream invariant, for listing the state at `at`. */
  lemma PendingVisit(m: map<string, seq<Transition>>, start: seq<string>,
                     work: seq<string>, at: nat, visited: set<string>, order: seq<string>)
    requires at < |work| && (at == 0 || at == |work| - 1) && work[at] !in visited && work[at] in m
    requires visited == Elems(order)
    requires Unvisited(work, visited) == Pending(m, start, order)
    ensures var s, p := work[at], Pending(m, start, order);
      && p != [] && (at == 0 ==> p[0] == s) && (at == |work| - 1 ==> p[|p| - 1] == s)
      && Unvisited(Rest(work, at) + Unvisited(Successors(m, s), visited + {s}), visited + {s}) == Pending(m, start, order + [s])
  {
    var s, rest := work[at], Rest(work, at);
    if at == 0 {
      assert work == [s] + rest;
    } else {
      assert work == rest + [s];
    }
    WorkVisit(start + KidsOf(m, order), work, rest, s, visited, Successors(m, s));
    PendingSnoc(m, start, order, s);
  }

  /** The reachability part of the stream invariant, for listing the state at `at`. */
  lemma ReachVisit(m: map<string, seq<Transition>>, roots: seq<string>,
                   work: seq<string>, at: nat, visited: set<string>)
    requires at < |work| && (at == 0 || at == |work| - 1) && work[at] in m
    requires OnlyReachable(m, roots, visited + Elems(work))
    ensures var s := work[at];
      OnlyReachable(m, roots, visited + {s} + Elems(Rest(work, at) + Unvisited(Successors(m, s), visited + {s})))
  {
    var s, rest := work[at], Rest(work, at);
    var pushed := Unvisited(Successors(m, s), visited + {s});
    ElemsRest(work, at);
    ReachStep(m, roots, visited + Elems(work), s, pushed);
    assert Elems(rest + pushed) == Elems(rest) + Elems(pushed);
    OnlyReachableWithin(m, roots, visited + Elems(work) + Elems(pushed), visited + {s} + Elems(rest + pushed));
  }

  /**
   * At the end of either iterator: the listed states are exactly the
   * reachable ones, and a reachable state without an entry would have
   * raised.
   */
  lemma WalkDone(m: map<string, seq<Transition>>, roots: seq<string>, visited: set<string>, order: seq<string>)
    requires Elems(order) == visited && Elems(roots) <= visited && Closed(m, visited)
    requires OnlyReachable(m, roots, visited) && visited <= m.Keys
    ensures forall x :: x in order <==> Reachable(m, roots, x)
    ensures !exists x :: Reachable(m, roots, x) && x !in m
  {
    ExactlyReachable(m, roots, order);
  }

  /**
   * `iterate_states_bfs` over the roots and the dictionary of an automaton:
   * the states in the order the generator yields them; None stands for the
   * KeyError of a visited state without a dictionary entry. The states come
   * once each, starting from the first root, and they are closed under
   * children: every state top-down reachable from a root comes.
   */
  method IterateStatesBfs(roots: seq<string>, m: map<string, seq<Transition>>) returns (r: Option<seq<string>>)
    ensures r.None? <==> exists x :: Reachable(m, roots, x) && x !in m
    ensures r.Some? ==> BreadthFirst(m, roots, r.value)
    ensures r.Some? ==> forall x :: x in r.value <==> Reachable(m, roots, x)
    ensures r.Some? ==> Distinct(r.value) && Elems(r.value) <= StatesOf(roots, m)
    ensures r.Some? ==> Elems(roots) <= Elems(r.value) && Closed(m, Elems(r.value))
    ensures r.Some? && roots != [] ==> |r.value| > 0 && r.value[0] == roots[0]
  {
    ghost var universe := StatesOf(roots, m);
    SuccessorsInUniverse(roots, m);
    var queue := roots;
    var visited: set<string> := {};
    var order: seq<string> := [];
    assert roots + KidsOf(m, order) == roots;
    assert Elems(queue) == {} + Elems(roots);
    while queue != []
      invariant WalkInv(roots, m, universe, queue, visited, order)
      invariant StreamInv(m, roots, roots, queue, visited, order) && ListedFirst(m, roots, order)
      invariant roots != [] && order != [] ==> order[0] == roots[0]
      invariant roots != [] && order == [] ==> queue == roots
      decreases |universe| - |order|, |queue|
    {
      var state := queue[0];
      if state in visited {
        SkipStep(roots, m, universe, queue, 0, visited, order);
        StreamSkip(m, roots, roots, queue, 0, visited, order);
        queue := Rest(queue, 0);
        continue;
      }
      if state !in m {
        OnlyReachableHas(m, roots, visited + Elems(queue), state);
        return None;
      }
      VisitStep(roots, m, universe, queue, 0, visited, order);
      StreamVisit(m, roots, roots, queue, 0, visited, order);
      ListedFirstSnoc(m, roots, order, state);
      order := order + [state];
      queue := Rest(queue, 0) + Unvisited(Successors(m, state), visited + {state});
      visited := visited + {state};
    }
    ClosedBySuccessors(m, visited);
    WalkDone(m, roots, visited, order);
    return Some(order);
  }

  /**
   * `iterate_states_dfs`: like the breadth-first iterator, but the work list
   * is a stack holding the roots reversed, so the first root comes first.
   */
  method IterateStatesDfs(roots: seq<string>, m: map<string, seq<Transition>>) returns (r: Option<seq<string>>)
    ensures r.None? <==> exists x :: Reachable(m, roots, x) && x !in m
    ensures r.Some? ==> DepthFirst(m, roots, r.value)
    ensures r.Some? ==> forall x :: x in r.value <==> Reachable(m, roots, x)
    ensures r.Some? ==> Distinct(r.value) && Elems(r.value) <= StatesOf(roots, m)
    ensures r.Some? ==> Elems(roots) <= Elems(r.value) && Closed(m, Elems(r.value))
    ensures r.Some? && roots != [] ==> |r.value| > 0 && r.value[0] == roots[0]
  {
    ghost var universe := StatesOf(roots, m);
    SuccessorsInUniverse(roots, m);
    var stack := Reversed(roots);
    var visited: set<string> := {};
    var order: seq<string> := [];
    assert Reversed(roots) + KidsOf(m, order) == stack;
    assert Elems(stack) == {} + Elems(roots);
    while stack != []
      invariant WalkInv(roots, m, universe, stack, visited, order)
      invariant StreamInv(m, roots, Reversed(roots), stack, visited, order) && ListedLast(m, Reversed(roots), order)
      invariant roots != [] && order != [] ==> order[0] == roots[0]
      invariant roots != [] && order == [] ==> stack == Reversed(roots)
      decreases |universe| - |order|, |stack|
    {
      var top := |stack| - 1;
      var state := stack[top];
      if state in visited {
        SkipStep(roots, m, universe, stack, top, visited, order);
        StreamSkip(m, roots, Reversed(roots), stack, top, visited, order);
        stack := Rest(stack, top);
        continue;
      }
      if state !in m {
        OnlyReachableHas(m, roots, visited + Elems(stack), state);
        return None;
      }
      VisitStep(roots, m, universe, stack, top, visited, order);
      StreamVisit(m, roots, Reversed(roots), stack, top, visited, order);
      ListedLastSnoc(m, Reversed(roots), order, state);
      order := order + [state];
      stack := Rest(stack, top) + Unvisited(Successors(m, state), visited + {state});
      visited := visited + {state};
    }
    ClosedBySuccessors(m, visited);
    WalkDone(m, roots, visited, order);
    return Some(order);
  }

  function Reversed(s: seq<string>): (r: seq<string>)
    ensures |r| == |s| && Elems(r) == Elems(s)
    ensures s != [] ==> r[|r| - 1] == s[0]
  {
    if s == [] then [] else
      var r := Reversed(s[1..]) + [s[0]];
      assert Elems(s) == Elems(s[1..]) + {s[0]};
      r
  }

  lemma SuccessorsInUniverse(roots: seq<string>, m: map<string, seq<Transition>>)
    ensures forall s :: s in m ==> SuccessorsWithin(m, s, StatesOf(roots, m))
  {
    forall s, c | s in m && c in Successors(m, s) ensures c in StatesOf(roots, m) {
      SuccessorsAreChildren(m[s], c);
    }
  }

  lemma ClosedBySuccessors(m: map<string, seq<Transition>>, visited: set<string>)
    requires Explored(m, visited, {})
    ensures Closed(m, visited)
  {
    forall k, t, c | k in visited && k in m && t in m[k] && c in t.children ensures c in visited {
      SuccessorsHold(m, k, t, c);
      assert SuccessorsWithin(m, k, visited + {});
    }
  }
}
