/**
 * Variable ranges of a box: for every state, the least and the greatest
 * variable that can be read while the box's run is in that state. The
 * entry variable fixes the roots' minimum, the exit variables fix the
 * port states' maxima, leaf states end at the leaf level, and a fixpoint
 * loop propagates bounds along the box's transitions until nothing changes.
 */
module BoxMaterialization {
  import opened Optional
  import opened Seqs

  /** A transition of the box, by its source state and child states. */
  datatype Tr = Tr(src: string, children: seq<string>)

  /**
   * What the range computation reads from the box: its states in order,
   * its roots, the terminable and loopable transitions (one per source, as
   * the dictionaries keep them, in their order), and the states having an
   * output edge labelled "0" or "1".
   */
  datatype BoxView = BoxView(states: seq<string>, roots: set<string>, terminating: seq<Tr>, looping: seq<Tr>, leafStates: set<string>)

  type Bounds = map<string, Option<int>>

  function Sources(trs: seq<Tr>): set<string>
  {
    set k | 0 <= k < |trs| :: trs[k].src
  }

  /** Every state a transition mentions is one of the listed states. */
  predicate WellFormed(b: BoxView)
  {
    (forall k :: 0 <= k < |b.terminating| ==> b.terminating[k].src in b.states && forall c :: c in b.terminating[k].children ==> c in b.states)
    && (forall k :: 0 <= k < |b.looping| ==> b.looping[k].src in b.states && forall c :: c in b.looping[k].children ==> c in b.states)
  }

  /** Both maps have exactly the box's states as keys. */
  predicate Keyed(b: BoxView, mins: Bounds, maxs: Bounds)
  {
    mins.Keys == Elems(b.states) && maxs.Keys == Elems(b.states)
  }

  /** The starting minima: the entry variable plus one for the roots. */
  function InitMins(b: BoxView, invar: int): Bounds
  {
    map s | s in Elems(b.states) :: if s in b.roots then Some(invar + 1) else None
  }

  /** The starting maxima: the leaf level for leaf states, otherwise the exit variable of a port state. */
  function InitMaxs(b: BoxView, outvars: map<string, int>, leafLevel: int): Bounds
  {
    map s | s in Elems(b.states) :: if s in b.leafStates then Some(leafLevel) else if s in outvars then Some(outvars[s]) else None
  }

  /** b only sets bounds a left unset; it changes no bound that was set. */
  predicate Grows(a: Bounds, b: Bounds)
  {
    a.Keys == b.Keys && forall s :: s in a && a[s].Some? ==> b[s] == a[s]
  }

  lemma GrowsTrans(a: Bounds, b: Bounds, c: Bounds)
    requires Grows(a, b) && Grows(b, c)
    ensures Grows(a, c)
    ensures a != b || b != c ==> a != c
  {
    if a != b {
      var x :| x in a && a[x] != b[x];
      assert a[x] != c[x];
    } else if b != c {
      var x :| x in b && b[x] != c[x];
      assert a[x] != c[x];
    }
  }

  // ---------------------------------------------------------------------
  // Where a bound comes from
  // ---------------------------------------------------------------------

  /** A looping transition of a state whose minimum is set has c as a child other than itself, one below. */
  ghost predicate FromParent(looping: seq<Tr>, mins: Bounds, c: string)
    requires c in mins
  {
    exists k, j :: 0 <= k < |looping| && 0 <= j < |looping[k].children| && looping[k].children[j] == c
      && looping[k].src != c && looping[k].src in mins && mins[looping[k].src].Some?
      && mins[c] == Some(mins[looping[k].src].value + 1)
  }

  /** A looping state s has a terminable transition with a child whose minimum is one above the maximum of s. */
  ghost predicate FromChild(b: BoxView, mins: Bounds, maxs: Bounds, s: string)
    requires s in maxs
  {
    s in Sources(b.looping)
    && (exists k, j :: 0 <= k < |b.terminating| && 0 <= j < |b.terminating[k].children| && b.terminating[k].src == s
          && b.terminating[k].children[j] in mins && mins[b.terminating[k].children[j]].Some?
          && maxs[s] == Some(mins[b.terminating[k].children[j]].value - 1))
  }

  /** A state that cannot loop has one bound equal to the other. */
  predicate Copied(b: BoxView, mins: Bounds, maxs: Bounds, s: string)
    requires s in mins && s in maxs
  {
    s !in Sources(b.looping) && mins[s] == maxs[s]
  }

  /** Every set bound is a starting bound or follows from a rule of the fixpoint loop. */
  ghost predicate Justified(b: BoxView, mins0: Bounds, maxs0: Bounds, mins: Bounds, maxs: Bounds)
  {
    Keyed(b, mins0, maxs0) && Keyed(b, mins, maxs)
    && forall s :: s in mins ==>
      (mins[s].None? || mins[s] == mins0[s] || Copied(b, mins, maxs, s) || FromParent(b.looping, mins, s))
      && (maxs[s].None? || maxs[s] == maxs0[s] || Copied(b, mins, maxs, s) || FromChild(b, mins, maxs, s))
  }

  /** A justified bound stays justified when bounds are only added. */
  lemma JustifiedGrow(b: BoxView, mins0: Bounds, maxs0: Bounds, mins: Bounds, maxs: Bounds, mins2: Bounds, maxs2: Bounds, s: string)
    requires Justified(b, mins0, maxs0, mins, maxs) && Grows(mins, mins2) && Grows(maxs, maxs2) && s in mins
    ensures mins[s].Some? ==> mins2[s] == mins0[s] || Copied(b, mins2, maxs2, s) || FromParent(b.looping, mins2, s)
    ensures maxs[s].Some? ==> maxs2[s] == maxs0[s] || Copied(b, mins2, maxs2, s) || FromChild(b, mins2, maxs2, s)
  {
    if mins[s].Some? && mins[s] != mins0[s] && !Copied(b, mins, maxs, s) {
      var k, j :| 0 <= k < |b.looping| && 0 <= j < |b.looping[k].children| && b.looping[k].children[j] == s
        && b.looping[k].src != s && b.looping[k].src in mins && mins[b.looping[k].src].Some?
        && mins[s] == Some(mins[b.looping[k].src].value + 1);
      assert mins2[b.looping[k].src] == mins[b.looping[k].src];
    }
    if maxs[s].Some? && maxs[s] != maxs0[s] && !Copied(b, mins, maxs, s) {
      var k, j :| 0 <= k < |b.terminating| && 0 <= j < |b.terminating[k].children| && b.terminating[k].src == s
        && b.terminating[k].children[j] in mins && mins[b.terminating[k].children[j]].Some?
        && maxs[s] == Some(mins[b.terminating[k].children[j]].value - 1);
      assert mins2[b.terminating[k].children[j]] == mins[b.terminating[k].children[j]];
    }
  }

  /** Adding one bound that a rule justifies keeps every bound justified. */
  lemma JustifiedStep(b: BoxView, mins0: Bounds, maxs0: Bounds, mins: Bounds, maxs: Bounds, mins2: Bounds, maxs2: Bounds, x: string)
    requires Justified(b, mins0, maxs0, mins, maxs) && Grows(mins, mins2) && Grows(maxs, maxs2)
    requires forall s :: s in mins && s != x ==> mins2[s] == mins[s] && maxs2[s] == maxs[s]
    requires x in mins
    requires mins2[x].None? || mins2[x] == mins0[x] || Copied(b, mins2, maxs2, x) || FromParent(b.looping, mins2, x)
    requires maxs2[x].None? || maxs2[x] == maxs0[x] || Copied(b, mins2, maxs2, x) || FromChild(b, mins2, maxs2, x)
    ensures Justified(b, mins0, maxs0, mins2, maxs2)
  {
    forall s | s in mins2
      ensures (mins2[s].None? || mins2[s] == mins0[s] || Copied(b, mins2, maxs2, s) || FromParent(b.looping, mins2, s))
      ensures (maxs2[s].None? || maxs2[s] == maxs0[s] || Copied(b, mins2, maxs2, s) || FromChild(b, mins2, maxs2, s))
    {
      if s != x {
        JustifiedGrow(b, mins0, maxs0, mins, maxs, mins2, maxs2, s);
      }
    }
  }

  // ---------------------------------------------------------------------
  // Termination measure
  // ---------------------------------------------------------------------

  /** The number of positions of ss whose bound is unset. */
  function Unset(m: Bounds, ss: seq<string>): nat
  {
    if ss == [] then 0
    else Unset(m, ss[..|ss| - 1]) + (if ss[|ss| - 1] in m && m[ss[|ss| - 1]].None? then 1 else 0)
  }

  lemma {:induction false} UnsetGrows(a: Bounds, b: Bounds, ss: seq<string>)
    requires Grows(a, b)
    ensures Unset(b, ss) <= Unset(a, ss)
  {
    if ss != [] {
      UnsetGrows(a, b, ss[..|ss| - 1]);
    }
  }

  lemma {:induction false} UnsetDrops(a: Bounds, b: Bounds, ss: seq<string>, x: string)
    requires Grows(a, b) && x in ss && x in a && a[x].None? && b[x].Some?
    ensures Unset(b, ss) < Unset(a, ss)
  {
    var init := ss[..|ss| - 1];
    if ss[|ss| - 1] == x {
      UnsetGrows(a, b, init);
    } else {
      assert x in init by {
        var i :| 0 <= i < |ss| && ss[i] == x;
        assert init[i] == x;
      }
      UnsetDrops(a, b, init, x);
    }
  }

  /** A map that grew and changed has fewer unset bounds. */
  lemma ChangedDrops(a: Bounds, b: Bounds, ss: seq<string>)
    requires Grows(a, b) && a != b && a.Keys == Elems(ss)
    ensures Unset(b, ss) < Unset(a, ss)
  {
    var x :| x in a && a[x] != b[x];
    UnsetDrops(a, b, ss, x);
  }

  // ---------------------------------------------------------------------
  // The three rules
  // ---------------------------------------------------------------------

  /** No state that cannot loop has exactly one bound set. */
  predicate UnloopableStable(b: BoxView, mins: Bounds, maxs: Bounds)
    requires Keyed(b, mins, maxs)
  {
    forall i :: 0 <= i < |b.states| && b.states[i] !in Sources(b.looping) ==>
      (mins[b.states[i]].Some? <==> maxs[b.states[i]].Some?)
  }

  /** A looping state with a terminable transition to a child whose minimum is set has its maximum set. */
  predicate TerminatingStable(b: BoxView, mins: Bounds, maxs: Bounds)
    requires WellFormed(b) && Keyed(b, mins, maxs)
  {
    forall k, j :: 0 <= k < |b.terminating| && 0 <= j < |b.terminating[k].children| ==>
      b.terminating[k].src in Sources(b.looping) && mins[b.terminating[k].children[j]].Some? ==> maxs[b.terminating[k].src].Some?
  }

  /** The children of the looping transition of a state whose minimum is set have their minima set. */
  predicate LoopingStable(b: BoxView, mins: Bounds)
    requires WellFormed(b) && mins.Keys == Elems(b.states)
  {
    forall k, j :: 0 <= k < |b.looping| && 0 <= j < |b.looping[k].children| ==>
      mins[b.looping[k].src].Some? && b.looping[k].children[j] != b.looping[k].src ==> mins[b.looping[k].children[j]].Some?
  }

  /** The first rule: a state that cannot loop takes its missing bound from the other one. */
  method UnloopableStep(b: BoxView, mins: Bounds, maxs: Bounds, ghost mins0: Bounds, ghost maxs0: Bounds)
    returns (mins2: Bounds, maxs2: Bounds, changed: bool)
    requires Justified(b, mins0, maxs0, mins, maxs)
    ensures Justified(b, mins0, maxs0, mins2, maxs2) && Grows(mins, mins2) && Grows(maxs, maxs2)
    ensures changed <==> mins2 != mins || maxs2 != maxs
    ensures !changed ==> UnloopableStable(b, mins, maxs)
  {
    mins2, maxs2, changed := mins, maxs, false;
    var loopSrc := Sources(b.looping);
    var k := 0;
    while k < |b.states|
      invariant k <= |b.states|
      invariant Justified(b, mins0, maxs0, mins2, maxs2) && Grows(mins, mins2) && Grows(maxs, maxs2)
      invariant changed <==> mins2 != mins || maxs2 != maxs
      invariant !changed ==> forall i :: 0 <= i < k && b.states[i] !in loopSrc ==> (mins[b.states[i]].Some? <==> maxs[b.states[i]].Some?)
    {
      var i := b.states[k];
      if i !in loopSrc && maxs2[i].Some? && mins2[i].None? {
        var next := mins2[i := maxs2[i]];
        JustifiedStep(b, mins0, maxs0, mins2, maxs2, next, maxs2, i);
        mins2, changed := next, true;
      }
      if i !in loopSrc && mins2[i].Some? && maxs2[i].None? {
        var next := maxs2[i := mins2[i]];
        JustifiedStep(b, mins0, maxs0, mins2, maxs2, mins2, next, i);
        maxs2, changed := next, true;
      }
      k := k + 1;
    }
  }

  /** The second rule for one terminable transition: a looping source without a maximum ends one below a child's minimum. */
  method TerminatingTransition(b: BoxView, k: nat, mins: Bounds, maxs: Bounds, ghost mins0: Bounds, ghost maxs0: Bounds)
    returns (maxs2: Bounds, changed: bool)
    requires WellFormed(b) && k < |b.terminating| && Justified(b, mins0, maxs0, mins, maxs)
    ensures Justified(b, mins0, maxs0, mins, maxs2) && Grows(maxs, maxs2)
    ensures changed <==> maxs2 != maxs
    ensures !changed ==> forall j :: 0 <= j < |b.terminating[k].children| ==>
      b.terminating[k].src in Sources(b.looping) && mins[b.terminating[k].children[j]].Some? ==> maxs[b.terminating[k].src].Some?
  {
    maxs2, changed := maxs, false;
    var state := b.terminating[k].src;
    var children := b.terminating[k].children;
    var j := 0;
    while j < |children|
      invariant j <= |children|
      invariant Justified(b, mins0, maxs0, mins, maxs2) && Grows(maxs, maxs2)
      invariant changed <==> maxs2 != maxs
      invariant !changed ==> forall i :: 0 <= i < j ==> state in Sources(b.looping) && mins[children[i]].Some? ==> maxs[state].Some?
    {
      var child := children[j];
      assert child in b.terminating[k].children;
      if maxs2[state].None? && mins[child].Some? && state in Sources(b.looping) {
        var next := maxs2[state := Some(mins[child].value - 1)];
        assert FromChild(b, mins, next, state) by {
          assert b.terminating[k].children[j] == child;
        }
        JustifiedStep(b, mins0, maxs0, mins, maxs2, mins, next, state);
        maxs2, changed := next, true;
      }
      j := j + 1;
    }
  }

  /** The second rule over every terminable transition. */
  method TerminatingStep(b: BoxView, mins: Bounds, maxs: Bounds, ghost mins0: Bounds, ghost maxs0: Bounds)
    returns (maxs2: Bounds, changed: bool)
    requires WellFormed(b) && Justified(b, mins0, maxs0, mins, maxs)
    ensures Justified(b, mins0, maxs0, mins, maxs2) && Grows(maxs, maxs2)
    ensures changed <==> maxs2 != maxs
    ensures !changed ==> TerminatingStable(b, mins, maxs)
  {
    maxs2, changed := maxs, false;
    var k := 0;
    while k < |b.terminating|
      invariant k <= |b.terminating|
      invariant Justified(b, mins0, maxs0, mins, maxs2) && Grows(maxs, maxs2)
      invariant changed <==> maxs2 != maxs
      invariant !changed ==> forall t, j :: 0 <= t < k && 0 <= j < |b.terminating[t].children| ==>
        b.terminating[t].src in Sources(b.looping) && mins[b.terminating[t].children[j]].Some? ==> maxs[b.terminating[t].src].Some?
    {
      var next, c := TerminatingTransition(b, k, mins, maxs2, mins0, maxs0);
      GrowsTrans(maxs, maxs2, next);
      maxs2, changed := next, changed || c;
      k := k + 1;
    }
  }

  /** The third rule for one looping transition: its other children without a minimum start one below its source. */
  method LoopingTransition(b: BoxView, k: nat, mins: Bounds, maxs: Bounds, ghost mins0: Bounds, ghost maxs0: Bounds)
    returns (mins2: Bounds, changed: bool)
    requires WellFormed(b) && k < |b.looping| && Justified(b, mins0, maxs0, mins, maxs)
    ensures Justified(b, mins0, maxs0, mins2, maxs) && Grows(mins, mins2)
    ensures changed <==> mins2 != mins
    ensures !changed ==> forall j :: 0 <= j < |b.looping[k].children| ==>
      mins[b.looping[k].src].Some? && b.looping[k].children[j] != b.looping[k].src ==> mins[b.looping[k].children[j]].Some?
  {
    mins2, changed := mins, false;
    var state := b.looping[k].src;
    if mins[state].None? {
      return;
    }
    var children := b.looping[k].children;
    var j := 0;
    while j < |children|
      invariant j <= |children|
      invariant Justified(b, mins0, maxs0, mins2, maxs) && Grows(mins, mins2)
      invariant mins2[state] == mins[state]
      invariant changed <==> mins2 != mins
      invariant !changed ==> forall i :: 0 <= i < j && children[i] != state ==> mins[children[i]].Some?
    {
      var child := children[j];
      assert child in b.looping[k].children;
      if child != state && mins2[child].None? {
        var next := mins2[child := Some(mins2[state].value + 1)];
        assert FromParent(b.looping, next, child) by {
          assert b.looping[k].children[j] == child;
        }
        JustifiedStep(b, mins0, maxs0, mins2, maxs, next, maxs, child);
        mins2, changed := next, true;
      }
      j := j + 1;
    }
  }

  /** The third rule over every looping transition. */
  method LoopingStep(b: BoxView, mins: Bounds, maxs: Bounds, ghost mins0: Bounds, ghost maxs0: Bounds)
    returns (mins2: Bounds, changed: bool)
    requires WellFormed(b) && Justified(b, mins0, maxs0, mins, maxs)
    ensures Justified(b, mins0, maxs0, mins2, maxs) && Grows(mins, mins2)
    ensures changed <==> mins2 != mins
    ensures !changed ==> LoopingStable(b, mins)
  {
    mins2, changed := mins, false;
    var k := 0;
    while k < |b.looping|
      invariant k <= |b.looping|
      invariant Justified(b, mins0, maxs0, mins2, maxs) && Grows(mins, mins2)
      invariant changed <==> mins2 != mins
      invariant !changed ==> forall t, j :: 0 <= t < k && 0 <= j < |b.looping[t].children| ==>
        mins[b.looping[t].src].Some? && b.looping[t].children[j] != b.looping[t].src ==> mins[b.looping[t].children[j]].Some?
    {
      var next, c := LoopingTransition(b, k, mins2, maxs, mins0, maxs0);
      GrowsTrans(mins, mins2, next);
      mins2, changed := next, changed || c;
      k := k + 1;
    }
  }

  /** Whether no rule applies any more. */
  predicate Stable(b: BoxView, mins: Bounds, maxs: Bounds)
    requires WellFormed(b) && Keyed(b, mins, maxs)
  {
    UnloopableStable(b, mins, maxs) && TerminatingStable(b, mins, maxs) && LoopingStable(b, mins)
  }

  /** One pass of the loop body: the three rules in turn; a pass that sets a bound leaves fewer unset. */
  method Sweep(b: BoxView, mins: Bounds, maxs: Bounds, ghost mins0: Bounds, ghost maxs0: Bounds)
    returns (mins2: Bounds, maxs2: Bounds, change: bool)
    requires WellFormed(b) && Justified(b, mins0, maxs0, mins, maxs)
    ensures Justified(b, mins0, maxs0, mins2, maxs2) && Grows(mins, mins2) && Grows(maxs, maxs2)
    ensures change ==> Unset(mins2, b.states) + Unset(maxs2, b.states) < Unset(mins, b.states) + Unset(maxs, b.states)
    ensures !change ==> mins2 == mins && maxs2 == maxs && Stable(b, mins, maxs)
  {
    var c1, c2, c3;
    var minsA, maxsA;
    minsA, maxsA, c1 := UnloopableStep(b, mins, maxs, mins0, maxs0);
    maxs2, c2 := TerminatingStep(b, minsA, maxsA, mins0, maxs0);
    mins2, c3 := LoopingStep(b, minsA, maxs2, mins0, maxs0);
    GrowsTrans(mins, minsA, mins2);
    GrowsTrans(maxs, maxsA, maxs2);
    change := c1 || c2 || c3;
    UnsetGrows(mins, mins2, b.states);
    UnsetGrows(maxs, maxs2, b.states);
    if mins != mins2 {
      ChangedDrops(mins, mins2, b.states);
    }
    if maxs != maxs2 {
      ChangedDrops(maxs, maxs2, b.states);
    }
  }

  /** The result: both bounds of every state. */
  function Ranges(b: BoxView, mins: Bounds, maxs: Bounds): map<string, (Option<int>, Option<int>)>
    requires Keyed(b, mins, maxs)
  {
    map s | s in Elems(b.states) :: (mins[s], maxs[s])
  }

  /**
   * `compute_variable_ranges`: the starting bounds, then the three rules
   * applied in sweeps until a sweep changes nothing. Every state gets an
   * entry; the starting bounds are kept; at the end no rule applies; and
   * every bound set is a starting bound or follows from a rule.
   */
  method ComputeVariableRanges(b: BoxView, invar: int, outvars: map<string, int>, leafLevel: int)
    returns (r: map<string, (Option<int>, Option<int>)>)
    requires WellFormed(b)
    ensures r.Keys == Elems(b.states)
    ensures forall s :: s in r && s in b.roots ==> r[s].0 == Some(invar + 1)
    ensures forall s :: s in r && s in b.leafStates ==> r[s].1 == Some(leafLevel)
    ensures forall s :: s in r && s !in b.leafStates && s in outvars ==> r[s].1 == Some(outvars[s])
    ensures exists mins, maxs :: Keyed(b, mins, maxs) && r == Ranges(b, mins, maxs) && Stable(b, mins, maxs)
                                  && Justified(b, InitMins(b, invar), InitMaxs(b, outvars, leafLevel), mins, maxs)
  {
    ghost var mins0, maxs0 := InitMins(b, invar), InitMaxs(b, outvars, leafLevel);
    var mins := map s | s in Elems(b.states) :: if s in b.roots then Some(invar + 1) else None;
    var maxs := map s | s in Elems(b.states) :: if s in outvars then Some(outvars[s]) else None;
    maxs := map s | s in maxs :: if s in b.leafStates then Some(leafLevel) else maxs[s];
    assert mins == mins0 && maxs == maxs0;
    var change := true;
    while change
      invariant Justified(b, mins0, maxs0, mins, maxs) && Grows(mins0, mins) && Grows(maxs0, maxs)
      invariant !change ==> Stable(b, mins, maxs)
      decreases Unset(mins, b.states) + Unset(maxs, b.states) + (if change then 1 else 0)
    {
      ghost var minsStart, maxsStart := mins, maxs;
      mins, maxs, change := Sweep(b, mins, maxs, mins0, maxs0);
      GrowsTrans(mins0, minsStart, mins);
      GrowsTrans(maxs0, maxsStart, maxs);
    }
    r := map s | s in Elems(b.states) :: (mins[s], maxs[s]);
    assert r == Ranges(b, mins, maxs);
  }
}
