/**
 * The variable order of the BLIF compiler: a depth-first pre-order walk of
 * the gate dependency map (output id -> input ids) from every id that is no
 * gate's input, optionally filtered to the declared inputs, and the choice
 * of the result function among the unused stored functions.
 */
module BlifOrder {
  import opened BoolEngine
  import opened Optional
  import opened Seqs

  /** `reference[v]`: the inputs of v, empty for an id that is not a key. */
  function Children(reference: map<int, seq<int>>, v: int): seq<int>
  {
    if v in reference then reference[v] else []
  }

  /** The ids occurring in some dependency list. */
  function UsedIds(reference: map<int, seq<int>>): set<int>
  {
    set k, x | k in reference && x in reference[k] :: x
  }

  /** Every id the dependency map mentions, as a key or inside a list. */
  function Universe(reference: map<int, seq<int>>): set<int>
  {
    reference.Keys + UsedIds(reference)
  }

  /** The DFS roots: keys that are no gate's input. */
  function RootIds(reference: map<int, seq<int>>): set<int>
  {
    set k | k in reference && k !in UsedIds(reference)
  }

  /** Every id the map lists as an input lies in `ids`. */
  ghost predicate InputsWithin(reference: map<int, seq<int>>, ids: set<int>)
  {
    forall x, c :: c in Children(reference, x) ==> c in ids
  }

  lemma UniverseHoldsInputs(reference: map<int, seq<int>>)
    ensures InputsWithin(reference, Universe(reference))
  {
    forall x, c | c in Children(reference, x) ensures c in Universe(reference) {
      assert x in reference;
    }
  }

  /** Every child of every id in `ids` is in `within`. */
  ghost predicate ChildrenIn(reference: map<int, seq<int>>, ids: set<int>, within: set<int>)
  {
    forall x, c :: x in ids && c in Children(reference, x) ==> c in within
  }

  /** The walk's bookkeeping: `visited` holds exactly the listed ids, each listed once. */
  ghost predicate Walked(ids: set<int>, visited: set<int>, order: seq<int>)
  {
    visited == Elems(order) && Distinct(order) && visited <= ids
  }

  lemma AppendFresh(order: seq<int>, v: int)
    requires Distinct(order) && v !in order
    ensures Distinct(order + [v]) && Elems(order + [v]) == Elems(order) + {v}
  {
  }

  /**
   * The ids the walk from v lists when `visited` are already listed: none
   * when v is visited, otherwise v followed by the walks from its inputs in
   * list order, each walk skipping what the earlier ones listed.
   */
  ghost function PreOrder(reference: map<int, seq<int>>, ids: set<int>, visited: set<int>, v: int): (r: seq<int>)
    requires InputsWithin(reference, ids) && v in ids && visited <= ids
    ensures Elems(r) <= ids && Elems(r) !! visited
    decreases ids - visited, 0, 0
  {
    if v in visited then []
    else [v] + PreOrderList(reference, ids, visited + {v}, Children(reference, v))
  }

  /** The walks from each id of vs in turn, sharing what is listed. */
  ghost function PreOrderList(reference: map<int, seq<int>>, ids: set<int>, visited: set<int>, vs: seq<int>): (r: seq<int>)
    requires InputsWithin(reference, ids) && visited <= ids && forall c :: c in vs ==> c in ids
    ensures Elems(r) <= ids && Elems(r) !! visited
    decreases ids - visited, 1, |vs|
  {
    if vs == [] then []
    else
      var w := PreOrder(reference, ids, visited, vs[0]);
      w + PreOrderList(reference, ids, visited + Elems(w), vs[1..])
  }

  /** The `outputs` of `variable_order_dfs`: the ids of `keys` no gate reads, in that order. */
  function OutputIds(reference: map<int, seq<int>>, keys: seq<int>): (r: seq<int>)
    ensures forall x :: x in r <==> x in keys && x !in UsedIds(reference)
  {
    if keys == [] then []
    else (if keys[0] !in UsedIds(reference) then [keys[0]] else []) + OutputIds(reference, keys[1..])
  }

  /**
   * The order `variable_order_dfs` builds before filtering: the walks from
   * the outputs in turn, each skipping what the earlier ones listed.
   */
  ghost function DfsWalk(reference: map<int, seq<int>>, keys: seq<int>): seq<int>
    requires Elems(keys) <= reference.Keys
  {
    RestWalk(reference, keys, {})
  }

  /** The walks from the outputs among `keys` once `visited` are listed. */
  ghost function RestWalk(reference: map<int, seq<int>>, keys: seq<int>, visited: set<int>): seq<int>
    requires Elems(keys) <= reference.Keys && visited <= Universe(reference)
  {
    UniverseHoldsInputs(reference);
    PreOrderList(reference, Universe(reference), visited, OutputIds(reference, keys))
  }

  /** One key of the outer loop of `variable_order_dfs`: an output is walked from, any other key skipped. */
  lemma RestWalkStep(reference: map<int, seq<int>>, keys: seq<int>, order: seq<int>, order': seq<int>)
    requires Elems(keys) <= reference.Keys && keys != [] && Elems(order) <= Universe(reference)
    requires InputsWithin(reference, Universe(reference))
    requires order' == if keys[0] in UsedIds(reference) then order
                       else order + PreOrder(reference, Universe(reference), Elems(order), keys[0])
    ensures order + RestWalk(reference, keys, Elems(order)) == order' + RestWalk(reference, keys[1..], Elems(order'))
  {
    if keys[0] !in UsedIds(reference) {
      assert keys[0] in Elems(keys);
      assert OutputIds(reference, keys)[1..] == OutputIds(reference, keys[1..]);
      WalkListStep(reference, Universe(reference), Elems(order), OutputIds(reference, keys), order, order');
    } else {
      assert OutputIds(reference, keys) == OutputIds(reference, keys[1..]);
    }
  }

  /**
   * `var_label_dfs`: visits `v` unless already visited, appending it before
   * its inputs (pre-order) and recursing into each input in list order.
   * `ids` is any finite set holding v and every listed input.
   */
  method VarLabelDfs(reference: map<int, seq<int>>, ghost ids: set<int>, visited: set<int>, order: seq<int>, v: int)
    returns (visited': set<int>, order': seq<int>)
    requires InputsWithin(reference, ids) && v in ids
    requires Walked(ids, visited, order)
    ensures Walked(ids, visited', order')
    ensures visited <= visited' && v in visited'
    ensures |order| <= |order'| && order'[..|order|] == order
    ensures v in visited ==> order' == order
    ensures v !in visited ==> |order'| > |order| && order'[|order|] == v
    ensures ChildrenIn(reference, visited' - visited, visited')
    ensures order' == order + PreOrder(reference, ids, visited, v)
    decreases ids - visited
  {
    if v in visited {
      return visited, order;
    }
    AppendFresh(order, v);
    visited' := visited + {v};
    order' := order + [v];
    var kids := Children(reference, v);
    ghost var rest := PreOrderList(reference, ids, visited', kids);
    assert kids[0..] == kids;
    var i := 0;
    while i < |kids|
      invariant 0 <= i <= |kids|
      invariant Walked(ids, visited', order')
      invariant order + [v] + rest == order' + PreOrderList(reference, ids, visited', kids[i..])
      invariant |order| < |order'| && order'[..|order|] == order && order'[|order|] == v
      invariant visited + {v} <= visited'
      invariant ChildrenIn(reference, visited' - visited - {v}, visited')
      invariant forall j :: 0 <= j < i ==> kids[j] in visited'
    {
      assert kids[i] in kids;
      assert ids - visited' < ids - visited by {
        assert v in ids - visited;
      }
      ghost var before, beforeOrder := visited', order';
      visited', order' := VarLabelDfs(reference, ids, visited', order', kids[i]);
      WalkListStep(reference, ids, before, kids[i..], beforeOrder, order');
      DfsStep(reference, ids, visited, order, v, kids, i, before, beforeOrder, visited', order');
      i := i + 1;
    }
    assert kids[i..] == [];
    assert order + PreOrder(reference, ids, visited, v) == order + [v] + rest;
  }

  /** After the walk from the first id of vs, the walks from the others remain. */
  lemma WalkListStep(reference: map<int, seq<int>>, ids: set<int>, visited: set<int>, vs: seq<int>,
                     order: seq<int>, order': seq<int>)
    requires InputsWithin(reference, ids) && visited <= ids && vs != [] && forall c :: c in vs ==> c in ids
    requires visited == Elems(order) && order' == order + PreOrder(reference, ids, visited, vs[0])
    ensures order + PreOrderList(reference, ids, visited, vs) == order' + PreOrderList(reference, ids, Elems(order'), vs[1..])
  {
    var w := PreOrder(reference, ids, visited, vs[0]);
    assert Elems(order') == visited + Elems(w);
  }

  /** One child walk inside `VarLabelDfs` keeps the loop's bookkeeping. */
  lemma DfsStep(reference: map<int, seq<int>>, ids: set<int>, visited: set<int>, order: seq<int>, v: int,
                kids: seq<int>, i: nat, before: set<int>, beforeOrder: seq<int>, after: set<int>, afterOrder: seq<int>)
    requires i < |kids|
    requires |order| < |beforeOrder| && beforeOrder[..|order|] == order && beforeOrder[|order|] == v
    requires visited + {v} <= before
    requires ChildrenIn(reference, before - visited - {v}, before)
    requires forall j :: 0 <= j < i ==> kids[j] in before
    requires before <= after && kids[i] in after
    requires |beforeOrder| <= |afterOrder| && afterOrder[..|beforeOrder|] == beforeOrder
    requires ChildrenIn(reference, after - before, after)
    ensures |order| < |afterOrder| && afterOrder[..|order|] == order && afterOrder[|order|] == v
    ensures visited + {v} <= after
    ensures ChildrenIn(reference, after - visited - {v}, after)
    ensures forall j :: 0 <= j < i + 1 ==> kids[j] in after
  {
    forall j | 0 <= j < i + 1 ensures kids[j] in after {
      if j < i {
        assert kids[j] in before;
      }
    }
    assert afterOrder[..|beforeOrder|][..|order|] == afterOrder[..|order|];
    assert afterOrder[|order|] == afterOrder[..|beforeOrder|][|order|];
  }

  /** The order of `variable_order_dfs` before filtering: one walk per root, sharing `visited`. */
  method DfsOrder(reference: map<int, seq<int>>, keys: seq<int>) returns (order: seq<int>)
    requires Elems(keys) == reference.Keys
    ensures order == DfsWalk(reference, keys)
    ensures Distinct(order) && Elems(order) <= Universe(reference)
    ensures RootIds(reference) <= Elems(order)
    ensures ChildrenIn(reference, Elems(order), Elems(order))
  {
    var used := UsedIds(reference);
    ghost var ids := Universe(reference);
    UniverseHoldsInputs(reference);
    var visited: set<int> := {};
    order := [];
    assert keys[0..] == keys;
    ghost var target := DfsWalk(reference, keys);
    for i := 0 to |keys|
      invariant Walked(ids, visited, order)
      invariant ChildrenIn(reference, visited, visited)
      invariant forall j :: 0 <= j < i && keys[j] !in used ==> keys[j] in visited
      invariant Elems(keys[i..]) <= reference.Keys
      invariant order + RestWalk(reference, keys[i..], visited) == target
    {
      assert keys[i..][1..] == keys[i + 1..];
      ghost var before := order;
      if keys[i] !in used {
        assert keys[i] in reference.Keys;
        visited, order := VarLabelDfs(reference, ids, visited, order, keys[i]);
      }
      RestWalkStep(reference, keys[i..], before, order);
    }
    assert RestWalk(reference, keys[|keys|..], visited) == [] by {
      assert keys[|keys|..] == [];
    }
    forall r | r in RootIds(reference)
      ensures r in visited
    {
      assert r in Elems(keys);
      var j :| 0 <= j < |keys| && keys[j] == r;
    }
  }

  /** The elements of s satisfying `keep`, in order. */
  function Filter(s: seq<int>, keep: set<int>): (r: seq<int>)
    ensures |r| <= |s|
  {
    if s == [] then []
    else Filter(s[..|s| - 1], keep) + (if s[|s| - 1] in keep then [s[|s| - 1]] else [])
  }

  lemma {:induction false} FilterAppend(a: seq<int>, b: seq<int>, keep: set<int>)
    ensures Filter(a + b, keep) == Filter(a, keep) + Filter(b, keep)
    decreases |b|
  {
    if b == [] {
      assert a + b == a;
    } else {
      assert (a + b)[..|a + b| - 1] == a + b[..|b| - 1];
      FilterAppend(a, b[..|b| - 1], keep);
    }
  }

  lemma FilterKept(s: seq<int>, keep: set<int>)
    requires forall k :: 0 <= k < |s| ==> s[k] in keep
    ensures Filter(s, keep) == s
  {
    if s != [] {
      FilterKept(s[..|s| - 1], keep);
    }
  }

  /** The filtered order holds exactly the kept elements, in their original relative order. */
  lemma {:induction false} FilterMembers(s: seq<int>, keep: set<int>)
    ensures forall x :: x in Filter(s, keep) <==> x in s && x in keep
  {
    if s != [] {
      FilterMembers(s[..|s| - 1], keep);
      assert s == s[..|s| - 1] + [s[|s| - 1]];
    }
  }

  /** `toRemove` lists, ascending, exactly the positions of `order` whose id is not kept. */
  ghost predicate RemovalList(order: seq<int>, keep: set<int>, toRemove: seq<nat>)
  {
    (forall k :: 0 <= k < |toRemove| ==> toRemove[k] < |order| && order[toRemove[k]] !in keep)
    && (forall k, l :: 0 <= k < l < |toRemove| ==> toRemove[k] < toRemove[l])
    && (forall p :: 0 <= p < |order| && order[p] !in keep ==> p in toRemove)
  }

  /** Looking at one more position: it joins the list when its id is not kept. */
  lemma RemovalStep(order: seq<int>, keep: set<int>, toRemove: seq<nat>, i: nat)
    requires i < |order| && RemovalList(order[..i], keep, toRemove)
    ensures RemovalList(order[..i + 1], keep, if order[i] !in keep then toRemove + [i] else toRemove)
  {
    var pre, pre1 := order[..i], order[..i + 1];
    assert forall p :: 0 <= p < i ==> pre1[p] == pre[p];
    var tr := if order[i] !in keep then toRemove + [i] else toRemove;
    assert forall k :: 0 <= k < |toRemove| ==> tr[k] == toRemove[k];
    forall k | 0 <= k < |tr|
      ensures tr[k] < |pre1| && pre1[tr[k]] !in keep
    {
      if k < |toRemove| {
        assert pre[toRemove[k]] !in keep;
      }
    }
    forall k, l | 0 <= k < l < |tr|
      ensures tr[k] < tr[l]
    {
      assert toRemove[k] < i;
    }
    forall p | 0 <= p < |pre1| && pre1[p] !in keep
      ensures p in tr
    {
      if p < i {
        assert pre[p] !in keep && p in toRemove;
      }
    }
  }

  /** Between two consecutive removal positions every id is kept. */
  lemma KeptBetween(order: seq<int>, keep: set<int>, toRemove: seq<nat>, j: nat, k: int)
    requires RemovalList(order, keep, toRemove)
    requires j <= |toRemove|
    requires (if j == 0 then 0 else toRemove[j - 1] + 1) <= k < (if j < |toRemove| then toRemove[j] else |order|)
    ensures order[k] in keep
  {
    forall m | 0 <= m < |toRemove| ensures toRemove[m] != k {
      if m < j - 1 {
        assert toRemove[m] < toRemove[j - 1];
      } else if j < m {
        assert toRemove[j] < toRemove[m];
      }
    }
  }

  /** Erasing a dropped position q, left of a filtered suffix that starts at p, extends the filtered part to q. */
  lemma EraseStep(order: seq<int>, keep: set<int>, q: nat, p: nat, r: seq<int>)
    requires q < p <= |order| && order[q] !in keep
    requires forall k :: q < k < p ==> order[k] in keep
    requires r == order[..p] + Filter(order[p..], keep)
    ensures q < |r| && r[..q] + r[q + 1..] == order[..q] + Filter(order[q..], keep)
  {
    var mid := order[q + 1..p];
    FilterKept(mid, keep);
    assert order[q..] == [order[q]] + (mid + order[p..]);
    FilterAppend([order[q]], mid + order[p..], keep);
    FilterAppend(mid, order[p..], keep);
    assert Filter([order[q]], keep) == [] by {
      assert [order[q]][..0] == [];
    }
    assert order[..p] == order[..q] + [order[q]] + mid;
    var f := Filter(order[p..], keep);
    assert Filter(order[q..], keep) == mid + f;
    DropAt(order[..q], order[q], mid, f);
  }

  /** Erasing the element after a from a + [x] + mid + f leaves a + (mid + f). */
  lemma DropAt(a: seq<int>, x: int, mid: seq<int>, f: seq<int>)
    ensures var s := a + [x] + mid + f;
      |s| > |a| && s[..|a|] + s[|a| + 1..] == a + (mid + f)
  {
    var s := a + [x] + mid + f;
    assert s[..|a|] == a;
    assert s[|a| + 1..] == mid + f;
  }

  /** The positions from toRemove[j] on are erased: r is the prefix up to there, then the filtered rest. */
  ghost predicate ErasedFrom(order: seq<int>, keep: set<int>, toRemove: seq<nat>, j: nat, r: seq<int>)
    requires j <= |toRemove|
  {
    var p := if j < |toRemove| then toRemove[j] else |order|;
    p <= |order| && r == order[..p] + Filter(order[p..], keep)
  }

  lemma EraseStart(order: seq<int>, keep: set<int>, toRemove: seq<nat>)
    ensures ErasedFrom(order, keep, toRemove, |toRemove|, order)
  {
    assert order[|order|..] == [];
    assert order[..|order|] == order;
  }

  lemma EraseNext(order: seq<int>, keep: set<int>, toRemove: seq<nat>, j: nat, r: seq<int>)
    requires RemovalList(order, keep, toRemove)
    requires 0 < j <= |toRemove| && ErasedFrom(order, keep, toRemove, j, r)
    ensures toRemove[j - 1] < |r|
    ensures ErasedFrom(order, keep, toRemove, j - 1, r[..toRemove[j - 1]] + r[toRemove[j - 1] + 1..])
  {
    var p := if j < |toRemove| then toRemove[j] else |order|;
    var q := toRemove[j - 1];
    forall k | q < k < p ensures order[k] in keep {
      KeptBetween(order, keep, toRemove, j, k);
    }
    EraseStep(order, keep, q, p, r);
  }

  lemma ErasedAll(order: seq<int>, keep: set<int>, toRemove: seq<nat>, r: seq<int>)
    requires RemovalList(order, keep, toRemove) && ErasedFrom(order, keep, toRemove, 0, r)
    ensures r == Filter(order, keep)
  {
    var p := if 0 < |toRemove| then toRemove[0] else |order|;
    var front := order[..p];
    forall k | 0 <= k < |front| ensures front[k] in keep {
      KeptBetween(order, keep, toRemove, 0, k);
    }
    FilterKept(front, keep);
    assert front + order[p..] == order;
    FilterAppend(front, order[p..], keep);
  }

  /**
   * The filtering step of `variable_order_dfs`: collects, in ascending order,
   * the positions whose id is not kept, then erases them from the back.
   */
  method FilterToInputs(order: seq<int>, keep: set<int>) returns (r: seq<int>)
    ensures r == Filter(order, keep)
  {
    var toRemove: seq<nat> := [];
    var i := 0;
    while i < |order|
      invariant 0 <= i <= |order|
      invariant RemovalList(order[..i], keep, toRemove)
    {
      RemovalStep(order, keep, toRemove, i);
      if order[i] !in keep {
        toRemove := toRemove + [i];
      }
      i := i + 1;
    }
    assert order[..i] == order;
    r := order;
    var j: nat := |toRemove|;
    EraseStart(order, keep, toRemove);
    while j > 0
      invariant j <= |toRemove| && ErasedFrom(order, keep, toRemove, j, r)
    {
      EraseNext(order, keep, toRemove, j, r);
      var q := toRemove[j - 1];
      r := r[..q] + r[q + 1..];
      j := j - 1;
    }
    ErasedAll(order, keep, toRemove, r);
  }

  /** Sum of node counts over the unused entries among the first n keys of `keys`. */
  function UnusedTotal(keys: seq<int>, bddMap: map<int, (Bdd, bool)>, nodeCount: Bdd -> nat, n: nat): nat
    requires n <= |keys|
    requires forall k :: 0 <= k < |keys| ==> keys[k] in bddMap
  {
    if n == 0 then 0
    else
      var k := keys[n - 1];
      UnusedTotal(keys, bddMap, nodeCount, n - 1) + if bddMap[k].1 then 0 else nodeCount(bddMap[k].0)
  }

  /**
   * The loop of `pick_result` over the stored functions in the map's
   * iteration order `keys`: skips entries flagged as used, totals the node
   * counts of the others, and keeps the first with strictly the greatest
   * count above zero (None when no entry has a positive count).
   */
  method PickMax(keys: seq<int>, bddMap: map<int, (Bdd, bool)>, nodeCount: Bdd -> nat)
    returns (best: Option<int>, total: nat)
    requires Distinct(keys) && forall k :: 0 <= k < |keys| ==> keys[k] in bddMap
    requires forall v :: v in bddMap ==> v in keys
    ensures total == UnusedTotal(keys, bddMap, nodeCount, |keys|)
    ensures best.None? <==> forall v :: v in bddMap && !bddMap[v].1 ==> nodeCount(bddMap[v].0) == 0
    ensures best.Some? ==>
      var b := best.value;
      b in bddMap && !bddMap[b].1 && nodeCount(bddMap[b].0) > 0
      && (forall v :: v in bddMap && !bddMap[v].1 ==> nodeCount(bddMap[v].0) <= nodeCount(bddMap[b].0))
      && exists p :: 0 <= p < |keys| && keys[p] == b
           && forall q :: 0 <= q < p && !bddMap[keys[q]].1 ==> nodeCount(bddMap[keys[q]].0) < nodeCount(bddMap[b].0)
  {
    best := None;
    total := 0;
    var maxNodes: nat := 0;
    var i := 0;
    while i < |keys|
      invariant 0 <= i <= |keys|
      invariant total == UnusedTotal(keys, bddMap, nodeCount, i)
      invariant forall q :: 0 <= q < i && !bddMap[keys[q]].1 ==> nodeCount(bddMap[keys[q]].0) <= maxNodes
      invariant best.None? ==> maxNodes == 0
      invariant best.Some? ==>
        var b := best.value;
        b in bddMap && !bddMap[b].1 && maxNodes == nodeCount(bddMap[b].0) > 0
        && exists p :: 0 <= p < i && keys[p] == b
             && forall q :: 0 <= q < p && !bddMap[keys[q]].1 ==> nodeCount(bddMap[keys[q]].0) < maxNodes
    {
      var k := keys[i];
      if !bddMap[k].1 {
        var count := nodeCount(bddMap[k].0);
        total := total + count;
        if count > maxNodes {
          best := Some(k);
          maxNodes := count;
        }
      }
      i := i + 1;
    }
    forall v | v in bddMap && !bddMap[v].1 ensures nodeCount(bddMap[v].0) <= maxNodes {
      var q :| 0 <= q < |keys| && keys[q] == v;
    }
  }
}
