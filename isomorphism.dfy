/**
 * Brute-force isomorphism check of two tree automata: every bijection
 * between their states is tried in `itertools.permutations` order, and the
 * first one under which the output symbols, the edge counts and the
 * non-output edges of every state agree is returned.
 */
module Isomorphism {
  import opened Optional
  import opened Seqs
  import opened Transitions
  import opened Automaton
  import Determinization

  // ---------------------------------------------------------------------
  // Permutations and state mappings
  // ---------------------------------------------------------------------

  /** The list without its element at index i. */
  function Remove<T>(s: seq<T>, i: nat): seq<T>
    requires i < |s|
  {
    s[..i] + s[i + 1..]
  }

  /**
   * `itertools.permutations(s)`: for each position in turn, its element
   * followed by every permutation of the other elements.
   */
  function Permutations(s: seq<string>): seq<seq<string>>
    decreases |s|, 1
  {
    if s == [] then [[]] else PermutationsFrom(s, 0)
  }

  /** The permutations of s that start with the element at position i or a later one. */
  function PermutationsFrom(s: seq<string>, i: nat): seq<seq<string>>
    requires i <= |s|
    decreases |s|, 0, |s| - i
  {
    if i == |s| then []
    else Determinization.Fronted([s[i]], Permutations(Remove(s, i))) + PermutationsFrom(s, i + 1)
  }

  lemma RemoveMultiset(s: seq<string>, i: nat)
    requires i < |s|
    ensures multiset(Remove(s, i)) + multiset{s[i]} == multiset(s)
  {
    assert s == s[..i] + [s[i]] + s[i + 1..];
  }

  lemma {:induction false} PermutationsFromMembers(s: seq<string>, i: nat, p: seq<string>)
    requires i <= |s|
    ensures p in PermutationsFrom(s, i) <==>
      exists j :: i <= j < |s| && p != [] && p[0] == s[j] && p[1..] in Permutations(Remove(s, j))
    decreases |s| - i
  {
    if i < |s| {
      PermutationsFromMembers(s, i + 1, p);
      Determinization.FrontedMembers([s[i]], Permutations(Remove(s, i)), p);
    }
  }

  lemma ConsMultiset(p: seq<string>)
    requires p != []
    ensures multiset(p) == multiset{p[0]} + multiset(p[1..])
  {
    assert p == [p[0]] + p[1..];
  }

  lemma {:induction false} PermutationsSound(s: seq<string>, p: seq<string>)
    requires p in Permutations(s)
    ensures multiset(p) == multiset(s)
    decreases |s|
  {
    if s != [] {
      PermutationsFromMembers(s, 0, p);
      var j :| 0 <= j < |s| && p != [] && p[0] == s[j] && p[1..] in Permutations(Remove(s, j));
      PermutationsSound(Remove(s, j), p[1..]);
      RemoveMultiset(s, j);
      ConsMultiset(p);
    }
  }

  lemma {:induction false} PermutationsComplete(s: seq<string>, p: seq<string>)
    requires multiset(p) == multiset(s)
    ensures p in Permutations(s)
    decreases |s|
  {
    if s == [] {
      assert |p| == |multiset(p)| == 0;
    } else {
      assert s[0] in multiset(s);
      assert p != [];
      assert p[0] in multiset(s) by {
        assert p[0] in multiset(p);
      }
      var j :| 0 <= j < |s| && s[j] == p[0];
      ConsMultiset(p);
      RemoveMultiset(s, j);
      assert multiset(p[1..]) == multiset(p) - multiset{p[0]};
      assert multiset(Remove(s, j)) == multiset(s) - multiset{s[j]};
      PermutationsComplete(Remove(s, j), p[1..]);
      PermutationsFromMembers(s, 0, p);
    }
  }

  /** The permutations of s are exactly the lists holding the same elements as often as s. */
  lemma PermutationsMembers(s: seq<string>, p: seq<string>)
    ensures p in Permutations(s) <==> multiset(p) == multiset(s)
  {
    if p in Permutations(s) {
      PermutationsSound(s, p);
    }
    if multiset(p) == multiset(s) {
      PermutationsComplete(s, p);
    }
  }

  /**
   * `dict(map(lambda i, j: (i, j), list1, list2))`: the pairs of the two
   * lists up to the shorter one, a later pair overriding an earlier one.
   */
  function ZipMap(l1: seq<string>, l2: seq<string>): map<string, string>
  {
    if l1 == [] || l2 == [] then map[] else map[l1[0] := l2[0]] + ZipMap(l1[1..], l2[1..])
  }

  lemma {:induction false} ZipMapAt(l1: seq<string>, l2: seq<string>)
    requires Distinct(l1) && |l1| == |l2|
    ensures ZipMap(l1, l2).Keys == Elems(l1)
    ensures forall i :: 0 <= i < |l1| ==> ZipMap(l1, l2)[l1[i]] == l2[i]
  {
    if l1 != [] {
      var rest := ZipMap(l1[1..], l2[1..]);
      ZipMapAt(l1[1..], l2[1..]);
      assert l1[0] !in rest;
      assert ZipMap(l1, l2) == map[l1[0] := l2[0]] + rest;
      assert Elems(l1) == {l1[0]} + Elems(l1[1..]) by {
        assert l1 == [l1[0]] + l1[1..];
      }
      forall i | 0 < i < |l1|
        ensures ZipMap(l1, l2)[l1[i]] == l2[i]
      {
        assert l1[1..][i - 1] == l1[i] && l2[1..][i - 1] == l2[i];
      }
    }
  }

  /** `generate_state_mappings`: one mapping of list1 onto each permutation of list2. */
  function GenerateStateMappings(l1: seq<string>, l2: seq<string>): seq<map<string, string>>
  {
    var ps := Permutations(l2);
    seq(|ps|, k requires 0 <= k < |ps| => ZipMap(l1, ps[k]))
  }

  /** m maps the states a one-to-one onto the states b. */
  ghost predicate Bijection(m: map<string, string>, a: set<string>, b: set<string>)
  {
    m.Keys == a
    && (forall x :: x in m ==> m[x] in b)
    && (forall x, y :: x in m && y in m && m[x] == m[y] ==> x == y)
    && (forall z :: z in b ==> exists x :: x in m && m[x] == z)
  }

  lemma DistinctPermutation(p: seq<string>, s: seq<string>)
    requires multiset(p) == multiset(s) && Distinct(s)
    ensures Distinct(p) && |p| == |s|
  {
    assert |p| == |multiset(p)|;
    DistinctMultiset(s);
    DistinctMultiset(p);
  }

  /** Every generated mapping of two duplicate-free lists of one length is a bijection. */
  lemma MappingsAreBijections(l1: seq<string>, l2: seq<string>, m: map<string, string>)
    requires Distinct(l1) && Distinct(l2) && |l1| == |l2|
    requires m in GenerateStateMappings(l1, l2)
    ensures Bijection(m, Elems(l1), Elems(l2))
  {
    var ps := Permutations(l2);
    var k :| 0 <= k < |ps| && m == ZipMap(l1, ps[k]);
    var p := ps[k];
    PermutationsMembers(l2, p);
    DistinctPermutation(p, l2);
    ZipBijection(l1, p, l2);
  }

  /** Zipping a duplicate-free list with a rearrangement of another is a bijection between their elements. */
  lemma ZipBijection(l1: seq<string>, p: seq<string>, l2: seq<string>)
    requires Distinct(l1) && Distinct(p) && |l1| == |p| && multiset(p) == multiset(l2)
    ensures Bijection(ZipMap(l1, p), Elems(l1), Elems(l2))
  {
    ZipMapAt(l1, p);
    ZipInto(l1, p, l2);
    ZipInjective(l1, p);
    ZipOnto(l1, p, l2);
  }

  lemma ZipInto(l1: seq<string>, p: seq<string>, l2: seq<string>)
    requires Distinct(l1) && |l1| == |p| && multiset(p) == multiset(l2)
    ensures forall x :: x in ZipMap(l1, p) ==> ZipMap(l1, p)[x] in Elems(l2)
  {
    var m := ZipMap(l1, p);
    ZipMapAt(l1, p);
    forall x | x in m
      ensures m[x] in Elems(l2)
    {
      var i :| 0 <= i < |l1| && l1[i] == x;
      assert p[i] in multiset(p);
    }
  }

  lemma ZipInjective(l1: seq<string>, p: seq<string>)
    requires Distinct(l1) && Distinct(p) && |l1| == |p|
    ensures forall x, y :: x in ZipMap(l1, p) && y in ZipMap(l1, p) && ZipMap(l1, p)[x] == ZipMap(l1, p)[y] ==> x == y
  {
    var m := ZipMap(l1, p);
    ZipMapAt(l1, p);
    forall x, y | x in m && y in m && m[x] == m[y]
      ensures x == y
    {
      var i :| 0 <= i < |l1| && l1[i] == x;
      var j :| 0 <= j < |l1| && l1[j] == y;
      assert p[i] == p[j];
    }
  }

  lemma ZipOnto(l1: seq<string>, p: seq<string>, l2: seq<string>)
    requires Distinct(l1) && |l1| == |p| && multiset(p) == multiset(l2)
    ensures forall z :: z in Elems(l2) ==> exists x :: x in ZipMap(l1, p) && ZipMap(l1, p)[x] == z
  {
    var m := ZipMap(l1, p);
    ZipMapAt(l1, p);
    forall z | z in Elems(l2)
      ensures exists x :: x in m && m[x] == z
    {
      assert z in multiset(p) by {
        assert z in multiset(l2);
      }
      var i :| 0 <= i < |p| && p[i] == z;
      assert m[l1[i]] == z;
    }
  }

  /** Two duplicate-free lists with the same elements hold each element equally often. */
  lemma SameElemsMultiset(p: seq<string>, q: seq<string>)
    requires Distinct(p) && Distinct(q) && Elems(p) == Elems(q)
    ensures multiset(p) == multiset(q)
  {
    DistinctMultiset(p);
    DistinctMultiset(q);
    forall x
      ensures multiset(p)[x] == multiset(q)[x]
    {
      assert x in multiset(p) <==> x in Elems(p);
      assert x in multiset(q) <==> x in Elems(q);
    }
  }

  /** The images of l1 under a bijection onto the elements of l2 list those elements once each. */
  lemma ImageList(l1: seq<string>, l2: seq<string>, m: map<string, string>) returns (p: seq<string>)
    requires Distinct(l1) && Bijection(m, Elems(l1), Elems(l2))
    ensures |p| == |l1| && Distinct(p) && Elems(p) == Elems(l2)
    ensures forall i :: 0 <= i < |l1| ==> p[i] == m[l1[i]]
  {
    p := seq(|l1|, i requires 0 <= i < |l1| => m[l1[i]]);
    forall z | z in Elems(l2)
      ensures z in p
    {
      var x :| x in m && m[x] == z;
      var i :| 0 <= i < |l1| && l1[i] == x;
      assert p[i] == z;
    }
  }

  /** Every bijection between the elements of two duplicate-free lists of one length is generated. */
  lemma BijectionsAreGenerated(l1: seq<string>, l2: seq<string>, m: map<string, string>)
    requires Distinct(l1) && Distinct(l2) && |l1| == |l2|
    requires Bijection(m, Elems(l1), Elems(l2))
    ensures m in GenerateStateMappings(l1, l2)
  {
    var p := ImageList(l1, l2, m);
    SameElemsMultiset(p, l2);
    PermutationsMembers(l2, p);
    ZipMapAt(l1, p);
    assert ZipMap(l1, p) == m;
    Generated(l1, l2, p);
  }

  lemma Generated(l1: seq<string>, l2: seq<string>, p: seq<string>)
    requires p in Permutations(l2)
    ensures ZipMap(l1, p) in GenerateStateMappings(l1, l2)
  {
    var ps := Permutations(l2);
    var k :| 0 <= k < |ps| && ps[k] == p;
    assert GenerateStateMappings(l1, l2)[k] == ZipMap(l1, p);
  }

  // ---------------------------------------------------------------------
  // Output symbols
  // ---------------------------------------------------------------------

  /** A label as the port-blind check sees it: a label starting with "Port" is "Port". */
  function PortRenamed(x: string): string
  {
    if IsPort(x) then "Port" else x
  }

  /** Each label of l2 is the label at its position in l renamed. */
  ghost predicate RenamedList(l: seq<string>, l2: seq<string>)
  {
    |l2| == |l| && forall i :: 0 <= i < |l| ==> l2[i] == PortRenamed(l[i])
  }

  /** out2 is out with every list renamed when ports are ignored, and out itself otherwise. */
  ghost predicate RenamedFrom(out: map<string, seq<string>>, out2: map<string, seq<string>>, ignorePorts: bool)
  {
    if ignorePorts then out2.Keys == out.Keys && forall k :: k in out ==> RenamedList(out[k], out2[k])
    else out2 == out
  }

  /** Renaming twice renames once: repeating `rename_ports` on the same lists changes nothing. */
  lemma RenamedTwice(out: map<string, seq<string>>, out1: map<string, seq<string>>, out2: map<string, seq<string>>, ignorePorts: bool)
    requires RenamedFrom(out, out1, ignorePorts) && RenamedFrom(out1, out2, ignorePorts)
    ensures RenamedFrom(out, out2, ignorePorts)
  {
    if ignorePorts {
      forall k | k in out
        ensures RenamedList(out[k], out2[k])
      {
        forall i | 0 <= i < |out[k]|
          ensures out2[k][i] == PortRenamed(out[k][i])
        {
          assert IsPort("Port");
        }
      }
    }
  }

  /** The dictionary of the check so far: still as computed, or already renamed. */
  ghost predicate SoFar(out: map<string, seq<string>>, cur: map<string, seq<string>>, ignorePorts: bool)
  {
    cur == out || RenamedFrom(out, cur, ignorePorts)
  }

  lemma RenamedAfter(out: map<string, seq<string>>, cur: map<string, seq<string>>, next: map<string, seq<string>>, ignorePorts: bool)
    requires SoFar(out, cur, ignorePorts) && RenamedFrom(cur, next, ignorePorts)
    ensures RenamedFrom(out, next, ignorePorts)
  {
    if cur != out {
      RenamedTwice(out, cur, next, ignorePorts);
    }
  }

  /** The inner loop of `rename_ports` on one list. */
  method RenameList(l: seq<string>) returns (r: seq<string>)
    ensures RenamedList(l, r)
  {
    r := l;
    for i := 0 to |l|
      invariant |r| == |l|
      invariant forall j :: 0 <= j < i ==> r[j] == PortRenamed(l[j])
      invariant forall j :: i <= j < |l| ==> r[j] == l[j]
    {
      if IsPort(r[i]) {
        r := r[i := "Port"];
      }
    }
  }

  /**
   * `rename_ports`: every label starting with "Port" in every list of the
   * dictionary becomes "Port", every other label and every key stays.
   * The lists are changed in place in the source; here the changed
   * dictionary is returned.
   */
  method RenamePorts(order: seq<string>, out: map<string, seq<string>>) returns (r: map<string, seq<string>>)
    requires Distinct(order) && Elems(order) == out.Keys
    ensures RenamedFrom(out, r, true)
  {
    r := out;
    for i := 0 to |order|
      invariant r.Keys == out.Keys
      invariant forall k :: k in out && k in order[..i] ==> RenamedList(out[k], r[k])
      invariant forall k :: k in out && k !in order[..i] ==> r[k] == out[k]
    {
      var k := order[i];
      assert k !in order[..i];
      var l := RenameList(r[k]);
      r := r[k := l];
      assert order[..i + 1] == order[..i] + [k];
    }
    assert order[..|order|] == order;
  }

  /** The output check of one pair of states: both or neither have output symbols, and then the same ones. */
  predicate OutputsAgree(out1: map<string, seq<string>>, out2: map<string, seq<string>>, s1: string, s2: string)
  {
    (s1 in out1 <==> s2 in out2) && (s1 in out1 ==> Elems(out1[s1]) == Elems(out2[s2]))
  }

  /** One of the two symbol loops of `check_output_edges`: every symbol of a is in b. */
  method Contained(a: seq<string>, b: seq<string>) returns (r: bool)
    ensures r <==> Elems(a) <= Elems(b)
  {
    for i := 0 to |a|
      invariant Elems(a[..i]) <= Elems(b)
    {
      if a[i] !in b {
        assert a[i] in Elems(a);
        return false;
      }
      assert a[..i + 1] == a[..i] + [a[i]];
    }
    assert a[..|a|] == a;
    return true;
  }

  /**
   * `check_output_edges`: with ports ignored both dictionaries are renamed
   * first (and returned, as the source renames them in place); the result
   * holds exactly when every state of the mapping, visited in the order
   * l1, agrees with its image on output symbols.
   */
  method CheckOutputEdges(l1: seq<string>, m: map<string, string>,
                          order1: seq<string>, out1: map<string, seq<string>>,
                          order2: seq<string>, out2: map<string, seq<string>>,
                          ignorePorts: bool)
    returns (ok: bool, renamed1: map<string, seq<string>>, renamed2: map<string, seq<string>>)
    requires Distinct(order1) && Elems(order1) == out1.Keys
    requires Distinct(order2) && Elems(order2) == out2.Keys
    requires Elems(l1) <= m.Keys
    ensures RenamedFrom(out1, renamed1, ignorePorts) && RenamedFrom(out2, renamed2, ignorePorts)
    ensures ok <==> forall s :: s in l1 ==> OutputsAgree(renamed1, renamed2, s, m[s])
  {
    renamed1, renamed2 := out1, out2;
    if ignorePorts {
      renamed1 := RenamePorts(order1, out1);
      renamed2 := RenamePorts(order2, out2);
    }
    for i := 0 to |l1|
      invariant forall s :: s in l1[..i] ==> OutputsAgree(renamed1, renamed2, s, m[s])
    {
      var s1 := l1[i];
      var s2 := m[s1];
      assert l1[..i + 1] == l1[..i] + [s1];
      if (s1 in renamed1) != (s2 in renamed2) {
        ok := false;
        return;
      }
      if s1 in renamed1 {
        var forward := Contained(renamed1[s1], renamed2[s2]);
        if !forward {
          ok := false;
        return;
        }
        var backward := Contained(renamed2[s2], renamed1[s1]);
        if !backward {
          ok := false;
        return;
        }
      }
    }
    assert l1[..|l1|] == l1;
    ok := true;
  }

  // ---------------------------------------------------------------------
  // Edge counts
  // ---------------------------------------------------------------------

  /** `get_edge_counts`: the number of transitions stored under each key. */
  function EdgeCounts(m: map<string, seq<Transition>>): map<string, nat>
  {
    map s | s in m :: |m[s]|
  }

  /**
   * `check_edge_counts`: every state of the mapping, visited in the order
   * l1, has as many transitions as its image. A state or image that is not
   * in its dictionary raises KeyError (None) unless an earlier pair already
   * disagreed.
   */
  method CheckEdgeCounts(l1: seq<string>, m: map<string, string>, counts1: map<string, nat>, counts2: map<string, nat>)
    returns (r: Option<bool>)
    requires Elems(l1) <= m.Keys
    ensures r == Some(true) <==> forall s :: s in l1 ==> s in counts1 && m[s] in counts2 && counts1[s] == counts2[m[s]]
    ensures r == Some(false) ==> exists s :: s in l1 && s in counts1 && m[s] in counts2 && counts1[s] != counts2[m[s]]
    ensures r.None? ==> exists s :: s in l1 && (s !in counts1 || m[s] !in counts2)
  {
    for i := 0 to |l1|
      invariant forall s :: s in l1[..i] ==> s in counts1 && m[s] in counts2 && counts1[s] == counts2[m[s]]
    {
      var s1 := l1[i];
      assert l1[..i + 1] == l1[..i] + [s1];
      if s1 !in counts1 || m[s1] !in counts2 {
        return None;
      }
      if counts1[s1] != counts2[m[s1]] {
        return Some(false);
      }
    }
    assert l1[..|l1|] == l1;
    return Some(true);
  }

  // ---------------------------------------------------------------------
  // Comparing edges
  // ---------------------------------------------------------------------

  /** Every child of e has an image under m. */
  predicate Mapped(m: map<string, string>, e: Transition)
  {
    forall c :: c in e.children ==> c in m
  }

  /**
   * `compare_edges` is true: the image of the source of e1 is the source
   * of e2, the labels, box arrays and variables are equal, and the image
   * of each child of e1 is the child of e2 at its position (e2 may have
   * more children).
   */
  predicate Matches(m: map<string, string>, e1: Transition, e2: Transition)
  {
    e1.src in m && m[e1.src] == e2.src && e1.info == e2.info && |e1.children| <= |e2.children|
    && forall i :: 0 <= i < |e1.children| ==> e1.children[i] in m && m[e1.children[i]] == e2.children[i]
  }

  /**
   * `compare_edges` raises IndexError: the heads agree, e2 has fewer
   * children than e1, and the image of each of the first children of e1
   * is the child of e2 at its position.
   */
  predicate Overruns(m: map<string, string>, e1: Transition, e2: Transition)
  {
    e1.src in m && m[e1.src] == e2.src && e1.info == e2.info && |e2.children| < |e1.children|
    && forall i :: 0 <= i < |e2.children| ==> e1.children[i] in m && m[e1.children[i]] == e2.children[i]
  }

  /** The outcome of `compare_edges`: None when it raises (a source without image, or too few children in e2). */
  function Compared(m: map<string, string>, e1: Transition, e2: Transition): Option<bool>
  {
    if e1.src !in m || Overruns(m, e1, e2) then None else Some(Matches(m, e1, e2))
  }

  /** `compare_edges` on an edge whose children all have images. */
  method CompareEdges(m: map<string, string>, e1: Transition, e2: Transition) returns (r: Option<bool>)
    requires Mapped(m, e1)
    ensures r == Compared(m, e1, e2)
  {
    if e1.src !in m {
      return None;
    }
    if e2.src != m[e1.src] || e1.info.symbol != e2.info.symbol || e1.info.boxArray != e2.info.boxArray
      || e1.info.variable != e2.info.variable
    {
      return Some(false);
    }
    for i := 0 to |e1.children|
      invariant i <= |e2.children|
      invariant forall j :: 0 <= j < i ==> m[e1.children[j]] == e2.children[j]
    {
      if i >= |e2.children| {
        return None;
      }
      if m[e1.children[i]] != e2.children[i] {
        return Some(false);
      }
    }
    assert e1.info == e2.info;
    return Some(true);
  }

  /** The edge e with its source and children replaced by their images. */
  function MapEdge(m: map<string, string>, e: Transition): Transition
    requires e.src in m && Mapped(m, e)
  {
    Transition(m[e.src], e.info, seq(|e.children|, i requires 0 <= i < |e.children| => m[e.children[i]]))
  }

  /**
   * When each box array is as long as its children list (as every edge of
   * an automaton has it), `compare_edges` never raises and holds exactly
   * when e1 with its states renamed by m is e2.
   */
  lemma CompareEdgesMeaning(m: map<string, string>, e1: Transition, e2: Transition)
    requires e1.src in m && Mapped(m, e1)
    requires |e1.info.boxArray| == |e1.children| && |e2.info.boxArray| == |e2.children|
    ensures Compared(m, e1, e2) == Some(MapEdge(m, e1) == e2)
  {
    if Matches(m, e1, e2) {
      assert MapEdge(m, e1).children == e2.children;
    }
    if MapEdge(m, e1) == e2 {
      forall i | 0 <= i < |e1.children|
        ensures m[e1.children[i]] == e2.children[i]
      {
        assert MapEdge(m, e1).children[i] == m[e1.children[i]];
      }
    }
  }

  // ---------------------------------------------------------------------
  // Greedy matching of the non-output edges of a state
  // ---------------------------------------------------------------------

  /** The outcome of the search for a partner of one edge. */
  datatype Search = Raises | NotFound | FoundAt(index: nat)

  /** A search over a list that starts n places further on. */
  function Shifted(r: Search, n: nat): Search
  {
    if r.FoundAt? then FoundAt(r.index + n) else r
  }

  /** Every candidate before position n compares false with e1. */
  predicate FalseBefore(m: map<string, string>, e1: Transition, cands: seq<Transition>, n: nat)
    requires n <= |cands|
  {
    forall j :: 0 <= j < n ==> Compared(m, e1, cands[j]) == Some(false)
  }

  /**
   * The loop over the remaining edges of the image state: the first
   * candidate that compares true with e1, unless a comparison raises first.
   */
  function FirstMatch(m: map<string, string>, e1: Transition, cands: seq<Transition>): Search
    decreases |cands|
  {
    if cands == [] then NotFound
    else match Compared(m, e1, cands[0])
      case None => Raises
      case Some(true) => FoundAt(0)
      case Some(false) => Shifted(FirstMatch(m, e1, cands[1..]), 1)
  }

  /**
   * The search finds the first candidate comparing true with e1 after
   * candidates that all compare false; it fails when every candidate
   * compares false, and raises when a comparison raises before any
   * comparison holds.
   */
  lemma {:induction false} FirstMatchMeaning(m: map<string, string>, e1: Transition, cands: seq<Transition>)
    ensures FirstMatch(m, e1, cands).FoundAt? ==>
      FirstMatch(m, e1, cands).index < |cands| && Matches(m, e1, cands[FirstMatch(m, e1, cands).index])
      && FalseBefore(m, e1, cands, FirstMatch(m, e1, cands).index)
    ensures FirstMatch(m, e1, cands).NotFound? ==> FalseBefore(m, e1, cands, |cands|)
    ensures FirstMatch(m, e1, cands).Raises? ==>
      exists j :: 0 <= j < |cands| && Compared(m, e1, cands[j]).None? && FalseBefore(m, e1, cands, j)
    decreases |cands|
  {
    if cands != [] && Compared(m, e1, cands[0]) == Some(false) {
      var rest := cands[1..];
      FirstMatchMeaning(m, e1, rest);
      var r := FirstMatch(m, e1, rest);
      assert forall j :: 0 < j <= |rest| ==> cands[j] == rest[j - 1];
      if r.Raises? {
        var j :| 0 <= j < |rest| && Compared(m, e1, rest[j]).None? && FalseBefore(m, e1, rest, j);
        assert Compared(m, e1, cands[j + 1]).None? && FalseBefore(m, e1, cands, j + 1);
      }
    }
  }

  /**
   * The loop `for k2 in edgeset2` of `tree_aut_isomorphic`, on the
   * remaining candidates in their list order.
   */
  method FindMatch(m: map<string, string>, e1: Transition, cands: seq<Transition>) returns (r: Search)
    requires Mapped(m, e1)
    ensures r == FirstMatch(m, e1, cands)
  {
    for j := 0 to |cands|
      invariant FirstMatch(m, e1, cands) == Shifted(FirstMatch(m, e1, cands[j..]), j)
    {
      var c := CompareEdges(m, e1, cands[j]);
      assert cands[j..][0] == cands[j] && cands[j..][1..] == cands[j + 1..];
      if c.None? {
        return Raises;
      }
      if c.value {
        return FoundAt(j);
      }
    }
    return NotFound;
  }

  /**
   * The matching of the non-output edges of one state: each edge of es1 in
   * turn takes the first remaining candidate of es2 it compares true
   * with; an edge without one fails the state, a comparison that raises
   * raises (None).
   */
  function Greedy(m: map<string, string>, es1: seq<Transition>, cands: seq<Transition>): Option<bool>
    decreases |es1|
  {
    if es1 == [] then Some(true)
    else match FirstMatch(m, es1[0], cands)
      case Raises => None
      case NotFound => Some(false)
      case FoundAt(i) =>
        FirstMatchMeaning(m, es1[0], cands);
        Greedy(m, es1[1..], Remove(cands, i))
  }

  /** pick pairs each edge of es1 with a distinct edge of es2 that it matches. */
  ghost predicate Pairing(m: map<string, string>, es1: seq<Transition>, es2: seq<Transition>, pick: seq<nat>)
  {
    |pick| == |es1| && Distinct(pick)
    && forall i :: 0 <= i < |es1| ==> pick[i] < |es2| && Matches(m, es1[i], es2[pick[i]])
  }

  /** The position in a list of the element at position j of the list with position i removed. */
  function Lift(j: nat, i: nat): nat
  {
    if j < i then j else j + 1
  }

  /** Distinct positions in the list with position i removed, as positions in the whole list after i itself. */
  lemma Lifted(cands: seq<Transition>, i: nat, tail: seq<nat>) returns (pick: seq<nat>)
    requires i < |cands| && Distinct(tail)
    requires forall k :: 0 <= k < |tail| ==> tail[k] < |cands| - 1
    ensures |pick| == |tail| + 1 && pick[0] == i && Distinct(pick)
    ensures forall k :: 0 <= k < |tail| ==> pick[k + 1] < |cands| && cands[pick[k + 1]] == Remove(cands, i)[tail[k]]
  {
    pick := [i] + seq(|tail|, k requires 0 <= k < |tail| => Lift(tail[k], i));
    forall a, b | 0 <= a < b < |pick|
      ensures pick[a] != pick[b]
    {
      if a > 0 {
        assert tail[a - 1] != tail[b - 1];
      }
    }
  }

  /** A successful greedy matching pairs the edges of es1 one-to-one with edges of es2 they match. */
  lemma {:induction false} GreedyPairs(m: map<string, string>, es1: seq<Transition>, cands: seq<Transition>)
    returns (pick: seq<nat>)
    requires Greedy(m, es1, cands) == Some(true)
    ensures Pairing(m, es1, cands, pick)
    decreases |es1|
  {
    if es1 == [] {
      pick := [];
    } else {
      FirstMatchMeaning(m, es1[0], cands);
      var i := FirstMatch(m, es1[0], cands).index;
      var rest := Remove(cands, i);
      var tail := GreedyPairs(m, es1[1..], rest);
      pick := Lifted(cands, i, tail);
      forall k | 0 <= k < |es1|
        ensures pick[k] < |cands| && Matches(m, es1[k], cands[pick[k]])
      {
        if k > 0 {
          assert es1[k] == es1[1..][k - 1];
        }
      }
    }
  }

  /** A greedy matching raises only when some comparison of an edge of es1 with an edge of es2 raises. */
  lemma {:induction false} GreedyRaises(m: map<string, string>, es1: seq<Transition>, cands: seq<Transition>)
    requires Greedy(m, es1, cands).None?
    ensures exists e1, e2 :: e1 in es1 && e2 in cands && Compared(m, e1, e2).None?
    decreases |es1|
  {
    FirstMatchMeaning(m, es1[0], cands);
    var r := FirstMatch(m, es1[0], cands);
    if r.Raises? {
      var j :| 0 <= j < |cands| && Compared(m, es1[0], cands[j]).None? && FalseBefore(m, es1[0], cands, j);
      assert es1[0] in es1 && cands[j] in cands;
    } else {
      var rest := Remove(cands, r.index);
      GreedyRaises(m, es1[1..], rest);
      var e1, e2 :| e1 in es1[1..] && e2 in rest && Compared(m, e1, e2).None?;
      assert e2 in cands by {
        assert cands == cands[..r.index] + [cands[r.index]] + cands[r.index + 1..];
      }
    }
  }

  /** Every edge of es1 has all its children mapped. */
  predicate AllMapped(m: map<string, string>, es1: seq<Transition>)
  {
    forall e :: e in es1 ==> Mapped(m, e)
  }

  /** The loop `for k1 in edgeset1` of `tree_aut_isomorphic`, on the edges in their list order. */
  method MatchState(m: map<string, string>, es1: seq<Transition>, es2: seq<Transition>) returns (r: Option<bool>)
    requires AllMapped(m, es1)
    ensures r == Greedy(m, es1, es2)
  {
    var cands := es2;
    for i := 0 to |es1|
      invariant Greedy(m, es1, es2) == Greedy(m, es1[i..], cands)
    {
      assert es1[i..][0] == es1[i] && es1[i..][1..] == es1[i + 1..];
      var found := FindMatch(m, es1[i], cands);
      FirstMatchMeaning(m, es1[i], cands);
      match found {
        case Raises =>
          return None;
        case NotFound =>
          return Some(false);
        case FoundAt(j) =>
          cands := Remove(cands, j);
      }
    }
    assert es1[|es1|..] == [];
    return Some(true);
  }

  // ---------------------------------------------------------------------
  // The check
  // ---------------------------------------------------------------------

  /** The transitions with at least one child: the edge sets of the main loop. */
  function NonLeaf(ts: seq<Transition>): (r: seq<Transition>)
    ensures forall t :: t in r <==> t in ts && t.children != []
  {
    if ts == [] then []
    else (if ts[0].children != [] then [ts[0]] else []) + NonLeaf(ts[1..])
  }

  /** Every state of l1 and its image are keys, and the children of the non-output edges of the state have images. */
  ghost predicate Keyed(m: map<string, string>, l1: seq<string>, t1: map<string, seq<Transition>>, t2: map<string, seq<Transition>>)
  {
    forall s :: s in l1 ==> s in m && s in t1 && m[s] in t2 && AllMapped(m, NonLeaf(t1[s]))
  }

  /**
   * The loop over the pairs of the mapping in `tree_aut_isomorphic`: the
   * greedy matching of each state of l1 with its image, up to the first
   * state that fails (Some(false)) or raises (None).
   */
  method MatchStates(m: map<string, string>, l1: seq<string>, t1: map<string, seq<Transition>>, t2: map<string, seq<Transition>>)
    returns (r: Option<bool>)
    requires Keyed(m, l1, t1, t2)
    ensures r == Some(true) <==> forall s :: s in l1 ==> Greedy(m, NonLeaf(t1[s]), NonLeaf(t2[m[s]])) == Some(true)
    ensures r == Some(false) ==> exists s :: s in l1 && Greedy(m, NonLeaf(t1[s]), NonLeaf(t2[m[s]])) == Some(false)
    ensures r.None? ==> exists s :: s in l1 && Greedy(m, NonLeaf(t1[s]), NonLeaf(t2[m[s]])).None?
  {
    for i := 0 to |l1|
      invariant forall s :: s in l1[..i] ==> Greedy(m, NonLeaf(t1[s]), NonLeaf(t2[m[s]])) == Some(true)
    {
      var s1 := l1[i];
      assert l1[..i + 1] == l1[..i] + [s1];
      var g := MatchState(m, NonLeaf(t1[s1]), NonLeaf(t2[m[s1]]));
      if g != Some(true) {
        return g;
      }
    }
    assert l1[..|l1|] == l1;
    return Some(true);
  }

  /** An output symbol as the check compares it. */
  function Label(x: string, ignorePorts: bool): string
  {
    if ignorePorts then PortRenamed(x) else x
  }

  /** The symbols of the output edges of s among es, as the check compares them. */
  ghost function LeafLabels(es: seq<Transition>, s: string, ignorePorts: bool): set<string>
  {
    set e | e in es && e.children == [] && e.src == s :: Label(e.info.symbol, ignorePorts)
  }

  /** The labels of a list as the check compares them. */
  ghost function Labels(l: seq<string>, ignorePorts: bool): set<string>
  {
    set v | v in l :: Label(v, ignorePorts)
  }

  /** The dictionary of `get_output_edges(inverse=True)` lists for s exactly the output symbols of s. */
  lemma OutputSymbols(es: seq<Transition>, out: map<string, seq<string>>, ignorePorts: bool, s: string)
    requires Determinization.OutputsOf(out, es, true)
    ensures s in out <==> LeafLabels(es, s, ignorePorts) != {}
    ensures s in out ==> Labels(out[s], ignorePorts) == LeafLabels(es, s, ignorePorts)
  {
    if s in out {
      assert out[s][0] in out[s];
      assert Label(out[s][0], ignorePorts) in Labels(out[s], ignorePorts);
      forall x | x in Labels(out[s], ignorePorts)
        ensures x in LeafLabels(es, s, ignorePorts)
      {
        var v :| v in out[s] && x == Label(v, ignorePorts);
        var f :| f in es && f.children == [] && Determinization.OutKey(f, true) == s && Determinization.OutValue(f, true) == v;
      }
      forall x | x in LeafLabels(es, s, ignorePorts)
        ensures x in Labels(out[s], ignorePorts)
      {
        var f :| f in es && f.children == [] && f.src == s && x == Label(f.info.symbol, ignorePorts);
        assert Determinization.OutKey(f, true) == s;
      }
    }
    forall e | e in es && e.children == [] && e.src == s
      ensures s in out
    {
      assert Determinization.OutKey(e, true) == s;
    }
  }

  lemma RenamedLabels(out: map<string, seq<string>>, renamed: map<string, seq<string>>, ignorePorts: bool, s: string)
    requires RenamedFrom(out, renamed, ignorePorts) && s in out
    ensures s in renamed && Elems(renamed[s]) == Labels(out[s], ignorePorts)
  {
    if ignorePorts {
      forall x | x in renamed[s]
        ensures x in Labels(out[s], ignorePorts)
      {
        var i :| 0 <= i < |renamed[s]| && renamed[s][i] == x;
        assert out[s][i] in out[s];
      }
      forall x | x in Labels(out[s], ignorePorts)
        ensures x in renamed[s]
      {
        var v :| v in out[s] && x == Label(v, ignorePorts);
        var i :| 0 <= i < |out[s]| && out[s][i] == v;
        assert renamed[s][i] == x;
      }
    }
  }

  /**
   * The dictionary of `get_output_edges(inverse=True)`, renamed as the
   * check renames it, lists for s exactly the output symbols of s.
   */
  lemma OutputLabels(es: seq<Transition>, out: map<string, seq<string>>, renamed: map<string, seq<string>>, ignorePorts: bool, s: string)
    requires Determinization.OutputsOf(out, es, true) && RenamedFrom(out, renamed, ignorePorts)
    ensures s in renamed <==> LeafLabels(es, s, ignorePorts) != {}
    ensures s in renamed ==> Elems(renamed[s]) == LeafLabels(es, s, ignorePorts)
  {
    OutputSymbols(es, out, ignorePorts, s);
    assert renamed.Keys == out.Keys;
    if s in out {
      RenamedLabels(out, renamed, ignorePorts, s);
    }
  }

  /** Under m, every state of states has the same output symbols as its image. */
  ghost predicate LabelsAgree(m: map<string, string>, states: set<string>, es1: seq<Transition>, es2: seq<Transition>, ignorePorts: bool)
  {
    forall s :: s in states ==> s in m && LeafLabels(es1, s, ignorePorts) == LeafLabels(es2, m[s], ignorePorts)
  }

  /** Under m, every state of states and its image are keys with as many transitions. */
  ghost predicate CountsAgree(m: map<string, string>, states: set<string>, t1: map<string, seq<Transition>>, t2: map<string, seq<Transition>>)
  {
    forall s :: s in states ==> s in m && s in t1 && m[s] in t2 && |t1[s]| == |t2[m[s]]|
  }

  /** Under m, the greedy matching of the non-output edges of every state of states with those of its image succeeds. */
  ghost predicate EdgesAgree(m: map<string, string>, states: set<string>, t1: map<string, seq<Transition>>, t2: map<string, seq<Transition>>)
  {
    forall s :: s in states && s in m && s in t1 && m[s] in t2 ==> Greedy(m, NonLeaf(t1[s]), NonLeaf(t2[m[s]])) == Some(true)
  }

  /**
   * Under m, every state agrees with its image in everything
   * `tree_aut_isomorphic` compares: output symbols, transition counts and
   * non-output edges.
   */
  ghost predicate Accepted(m: map<string, string>, states: set<string>, es1: seq<Transition>, t1: map<string, seq<Transition>>,
                           es2: seq<Transition>, t2: map<string, seq<Transition>>, ignorePorts: bool)
  {
    LabelsAgree(m, states, es1, es2, ignorePorts) && CountsAgree(m, states, t1, t2) && EdgesAgree(m, states, t1, t2)
  }

  /** The non-output edges of es1 are paired one-to-one with matching edges of es2. */
  ghost predicate Embeds(m: map<string, string>, es1: seq<Transition>, es2: seq<Transition>)
  {
    exists pick :: Pairing(m, es1, es2, pick)
  }

  /** The outcome of `tree_aut_isomorphic`: a mapping (empty when none is found), or an exception. */
  datatype Verdict = Raised | Result(mapping: map<string, string>)

  /**
   * What can make `tree_aut_isomorphic` raise: a state of either automaton
   * that is not a key (KeyError in `check_edge_counts`), an edge whose
   * source is no state (KeyError in `compare_edges`), or two edges with
   * equal labels, box arrays and variables of which the second has fewer
   * children (IndexError in `compare_edges`).
   */
  ghost predicate MayRaise(states1: set<string>, es1: seq<Transition>, t1: map<string, seq<Transition>>,
                           states2: set<string>, es2: seq<Transition>, t2: map<string, seq<Transition>>)
  {
    (exists s :: s in states1 && s !in t1)
    || (exists s :: s in states2 && s !in t2)
    || (exists e1, e2 :: RaisePair(states1, es1, es2, e1, e2))
  }

  /** Comparing e1 of es1 with e2 of es2 can raise: e1 has a source outside known, or e2 has fewer children and the same label. */
  ghost predicate RaisePair(known: set<string>, es1: seq<Transition>, es2: seq<Transition>, e1: Transition, e2: Transition)
  {
    e1 in es1 && e2 in es2 && (e1.src !in known || (e1.info == e2.info && |e2.children| < |e1.children|))
  }

  /** An automaton's dictionary with its key order and its states. */
  ghost predicate Shape(keys: seq<string>, t: map<string, seq<Transition>>, states: set<string>)
  {
    KeyOrder(keys, t) && t.Keys <= states && ChildStatesIn(t.Keys, t) <= states
  }

  /**
   * What the loop of `tree_aut_isomorphic` starts from: the states of the
   * first automaton once each, both dictionaries with their key orders and
   * states, and both dictionaries of output symbols with their key orders.
   */
  ghost predicate Prepared(l1: seq<string>, states2: set<string>,
                           keys1: seq<string>, t1: map<string, seq<Transition>>, es1: seq<Transition>,
                           keys2: seq<string>, t2: map<string, seq<Transition>>, es2: seq<Transition>,
                           order1: seq<string>, out1: map<string, seq<string>>, order2: seq<string>, out2: map<string, seq<string>>)
  {
    Distinct(l1) && Shape(keys1, t1, Elems(l1)) && Shape(keys2, t2, states2)
    && es1 == EdgesIn(keys1, t1) && es2 == EdgesIn(keys2, t2)
    && Determinization.OutputsOf(out1, es1, true) && Distinct(order1) && Elems(order1) == out1.Keys
    && Determinization.OutputsOf(out2, es2, true) && Distinct(order2) && Elems(order2) == out2.Keys
  }

  /**
   * One pass of the loop over the state mappings of `tree_aut_isomorphic`:
   * the output check, then the edge-count check, then the greedy matching of
   * every state. The result holds exactly when every state is accepted
   * under m; None is an exception.
   */
  method TryMapping(m: map<string, string>, l1: seq<string>, ghost states2: set<string>,
                    keys1: seq<string>, t1: map<string, seq<Transition>>, ghost es1: seq<Transition>,
                    keys2: seq<string>, t2: map<string, seq<Transition>>, ghost es2: seq<Transition>,
                    order1: seq<string>, ghost out1: map<string, seq<string>>, renamed1: map<string, seq<string>>,
                    order2: seq<string>, ghost out2: map<string, seq<string>>, renamed2: map<string, seq<string>>,
                    ignorePorts: bool)
    returns (v: Option<bool>, next1: map<string, seq<string>>, next2: map<string, seq<string>>)
    requires Prepared(l1, states2, keys1, t1, es1, keys2, t2, es2, order1, out1, order2, out2)
    requires Bijection(m, Elems(l1), states2) && SoFar(out1, renamed1, ignorePorts) && SoFar(out2, renamed2, ignorePorts)
    ensures RenamedFrom(out1, next1, ignorePorts) && RenamedFrom(out2, next2, ignorePorts)
    ensures v == Some(true) <==> Accepted(m, Elems(l1), es1, t1, es2, t2, ignorePorts)
    ensures v.None? ==> MayRaise(Elems(l1), es1, t1, states2, es2, t2)
  {
    var ok;
    ok, next1, next2 := CheckOutputEdges(l1, m, order1, renamed1, order2, renamed2, ignorePorts);
    RenamedAfter(out1, renamed1, next1, ignorePorts);
    RenamedAfter(out2, renamed2, next2, ignorePorts);
    OutputsChecked(m, l1, es1, out1, next1, es2, out2, next2, ignorePorts);
    if !ok {
      return Some(false), next1, next2;
    }
    v := CheckCountsAndEdges(m, l1, states2, keys1, t1, keys2, t2);
  }

  /** The edge-count check and the matching of the edges of `tree_aut_isomorphic`, for one mapping. */
  method CheckCountsAndEdges(m: map<string, string>, l1: seq<string>, ghost states2: set<string>,
                             keys1: seq<string>, t1: map<string, seq<Transition>>, keys2: seq<string>, t2: map<string, seq<Transition>>)
    returns (v: Option<bool>)
    requires Bijection(m, Elems(l1), states2)
    requires Shape(keys1, t1, Elems(l1)) && Shape(keys2, t2, states2)
    ensures v == Some(true) <==> CountsAgree(m, Elems(l1), t1, t2) && EdgesAgree(m, Elems(l1), t1, t2)
    ensures v.None? ==> MayRaise(Elems(l1), EdgesIn(keys1, t1), t1, states2, EdgesIn(keys2, t2), t2)
  {
    var c := CheckEdgeCounts(l1, m, EdgeCounts(t1), EdgeCounts(t2));
    CountsChecked(m, l1, t1, t2);
    if c.None? {
      return None;
    }
    if !c.value {
      return Some(false);
    }
    KeyedStates(m, l1, t1, t2);
    var g := MatchStates(m, l1, t1, t2);
    EdgesChecked(m, l1, t1, t2);
    if g.None? {
      GreedyRaisesIn(m, l1, keys1, t1, keys2, t2);
      return None;
    }
    return g;
  }

  lemma KeyedStates(m: map<string, string>, l1: seq<string>, t1: map<string, seq<Transition>>, t2: map<string, seq<Transition>>)
    requires m.Keys == Elems(l1) && ChildStatesIn(t1.Keys, t1) <= Elems(l1) && CountsAgree(m, Elems(l1), t1, t2)
    ensures Keyed(m, l1, t1, t2)
  {
    forall s, e, c | s in l1 && e in NonLeaf(t1[s]) && c in e.children
      ensures c in m
    {
      assert c in ChildStatesIn(t1.Keys, t1);
    }
  }

  lemma EdgesChecked(m: map<string, string>, l1: seq<string>, t1: map<string, seq<Transition>>, t2: map<string, seq<Transition>>)
    requires forall s :: s in l1 ==> s in m && s in t1 && m[s] in t2
    ensures (forall s :: s in l1 ==> Greedy(m, NonLeaf(t1[s]), NonLeaf(t2[m[s]])) == Some(true)) <==> EdgesAgree(m, Elems(l1), t1, t2)
  {
  }

  lemma OutputsChecked(m: map<string, string>, l1: seq<string>,
                       es1: seq<Transition>, out1: map<string, seq<string>>, next1: map<string, seq<string>>,
                       es2: seq<Transition>, out2: map<string, seq<string>>, next2: map<string, seq<string>>, ignorePorts: bool)
    requires Elems(l1) <= m.Keys
    requires Determinization.OutputsOf(out1, es1, true) && RenamedFrom(out1, next1, ignorePorts)
    requires Determinization.OutputsOf(out2, es2, true) && RenamedFrom(out2, next2, ignorePorts)
    ensures (forall s :: s in l1 ==> OutputsAgree(next1, next2, s, m[s])) <==> LabelsAgree(m, Elems(l1), es1, es2, ignorePorts)
  {
    forall s | s in l1
      ensures OutputsAgree(next1, next2, s, m[s]) <==> LeafLabels(es1, s, ignorePorts) == LeafLabels(es2, m[s], ignorePorts)
    {
      OutputLabels(es1, out1, next1, ignorePorts, s);
      OutputLabels(es2, out2, next2, ignorePorts, m[s]);
    }
  }

  lemma CountsChecked(m: map<string, string>, l1: seq<string>, t1: map<string, seq<Transition>>, t2: map<string, seq<Transition>>)
    requires Elems(l1) <= m.Keys
    ensures (forall s :: s in l1 ==> s in EdgeCounts(t1) && m[s] in EdgeCounts(t2) && EdgeCounts(t1)[s] == EdgeCounts(t2)[m[s]])
      <==> CountsAgree(m, Elems(l1), t1, t2)
    ensures (exists s :: s in l1 && (s !in EdgeCounts(t1) || m[s] !in EdgeCounts(t2))) ==>
      exists s :: s in l1 && (s !in t1 || m[s] !in t2)
  {
  }

  lemma GreedyRaisesIn(m: map<string, string>, l1: seq<string>, keys1: seq<string>, t1: map<string, seq<Transition>>,
                       keys2: seq<string>, t2: map<string, seq<Transition>>)
    requires KeyOrder(keys1, t1) && KeyOrder(keys2, t2)
    requires forall s :: s in l1 ==> s in m && s in t1 && m[s] in t2
    requires exists s :: s in l1 && Greedy(m, NonLeaf(t1[s]), NonLeaf(t2[m[s]])).None?
    ensures exists e1, e2 :: RaisePair(m.Keys, EdgesIn(keys1, t1), EdgesIn(keys2, t2), e1, e2)
  {
    var s :| s in l1 && Greedy(m, NonLeaf(t1[s]), NonLeaf(t2[m[s]])).None?;
    GreedyRaises(m, NonLeaf(t1[s]), NonLeaf(t2[m[s]]));
    var e1, e2 :| e1 in NonLeaf(t1[s]) && e2 in NonLeaf(t2[m[s]]) && Compared(m, e1, e2).None?;
    assert e1.src !in m || Overruns(m, e1, e2);
    EdgesInHolds(keys1, t1, s, e1);
    EdgesInHolds(keys2, t2, m[s], e2);
    assert RaisePair(m.Keys, EdgesIn(keys1, t1), EdgesIn(keys2, t2), e1, e2);
  }

  /**
   * `tree_aut_isomorphic`: the empty mapping when the automata differ in
   * their numbers of states or of edges; otherwise the first bijection
   * between their states, in `itertools.permutations` order, under which
   * every state is accepted, or the empty mapping when there is none (or
   * the automata have no states). Raised stands for an exception.
   */
  method TreeAutIsomorphic(a1: TreeAut, a2: TreeAut, ignorePorts: bool) returns (r: Verdict)
    requires a1.Valid() && a2.Valid()
    ensures |a1.States()| != |a2.States()| ==> r == Result(map[])
    ensures |a1.Edges()| != |a2.Edges()| ==> r == Result(map[])
    ensures r.Result? && r.mapping != map[] ==>
      Bijection(r.mapping, a1.States(), a2.States())
      && Accepted(r.mapping, a1.States(), a1.Edges(), a1.transitions, a2.Edges(), a2.transitions, ignorePorts)
    ensures r == Result(map[]) && a1.States() != {} && |a1.States()| == |a2.States()| && |a1.Edges()| == |a2.Edges()| ==>
      forall m :: Bijection(m, a1.States(), a2.States()) ==>
        !Accepted(m, a1.States(), a1.Edges(), a1.transitions, a2.Edges(), a2.transitions, ignorePorts)
    ensures r.Raised? ==> MayRaise(a1.States(), a1.Edges(), a1.transitions, a2.States(), a2.Edges(), a2.transitions)
  {
    var order1, out1 := Determinization.GetOutputEdges(a1.Edges(), true);
    var order2, out2 := Determinization.GetOutputEdges(a2.Edges(), true);
    var states1 := a1.GetStates();
    var states2 := a2.GetStates();
    DistinctCard(states1);
    DistinctCard(states2);
    if |states1| != |states2| {
      return Result(map[]);
    }
    if |a1.Edges()| != |a2.Edges()| {
      return Result(map[]);
    }
    assert Prepared(states1, a2.States(), a1.keys, a1.transitions, a1.Edges(), a2.keys, a2.transitions, a2.Edges(),
                    order1, out1, order2, out2);
    r := SearchMappings(states1, states2, a1.keys, a1.transitions, a1.Edges(), a2.keys, a2.transitions, a2.Edges(),
                        order1, out1, order2, out2, ignorePorts);
  }

  /** The loop over `generate_state_mappings(states_1, states_2)` of `tree_aut_isomorphic`. */
  method SearchMappings(l1: seq<string>, l2: seq<string>,
                        keys1: seq<string>, t1: map<string, seq<Transition>>, ghost es1: seq<Transition>,
                        keys2: seq<string>, t2: map<string, seq<Transition>>, ghost es2: seq<Transition>,
                        order1: seq<string>, out1: map<string, seq<string>>, order2: seq<string>, out2: map<string, seq<string>>,
                        ignorePorts: bool)
    returns (r: Verdict)
    requires Distinct(l1) && Distinct(l2) && |l1| == |l2|
    requires Prepared(l1, Elems(l2), keys1, t1, es1, keys2, t2, es2, order1, out1, order2, out2)
    ensures r.Result? && r.mapping != map[] ==>
      Bijection(r.mapping, Elems(l1), Elems(l2))
      && Accepted(r.mapping, Elems(l1), es1, t1, es2, t2, ignorePorts)
    ensures r == Result(map[]) && l1 != [] ==>
      forall m :: Bijection(m, Elems(l1), Elems(l2)) ==>
        !Accepted(m, Elems(l1), es1, t1, es2, t2, ignorePorts)
    ensures r.Raised? ==> MayRaise(Elems(l1), es1, t1, Elems(l2), es2, t2)
  {
    var mappings := GenerateStateMappings(l1, l2);
    var renamed1, renamed2 := out1, out2;
    for k := 0 to |mappings|
      invariant SoFar(out1, renamed1, ignorePorts) && SoFar(out2, renamed2, ignorePorts)
      invariant RejectedBefore(mappings, k, Elems(l1), es1, t1, es2, t2, ignorePorts)
    {
      var m := mappings[k];
      MappingsAreBijections(l1, l2, m);
      var v;
      v, renamed1, renamed2 := TryMapping(m, l1, Elems(l2), keys1, t1, es1, keys2, t2, es2,
                                          order1, out1, renamed1, order2, out2, renamed2, ignorePorts);
      if v.None? {
        return Raised;
      }
      if v.value {
        assert l1 != [] ==> l1[0] in m;
        return Result(m);
      }
      RejectedStep(mappings, k, Elems(l1), es1, t1, es2, t2, ignorePorts);
    }
    NoneAccepted(l1, l2, mappings, es1, t1, es2, t2, ignorePorts);
    return Result(map[]);
  }

  /** No mapping before position k is accepted. */
  ghost predicate RejectedBefore(mappings: seq<map<string, string>>, k: nat, states: set<string>,
                                 es1: seq<Transition>, t1: map<string, seq<Transition>>, es2: seq<Transition>, t2: map<string, seq<Transition>>,
                                 ignorePorts: bool)
    requires k <= |mappings|
  {
    forall j :: 0 <= j < k ==> !Accepted(mappings[j], states, es1, t1, es2, t2, ignorePorts)
  }

  lemma RejectedStep(mappings: seq<map<string, string>>, k: nat, states: set<string>,
                     es1: seq<Transition>, t1: map<string, seq<Transition>>, es2: seq<Transition>, t2: map<string, seq<Transition>>,
                     ignorePorts: bool)
    requires k < |mappings| && RejectedBefore(mappings, k, states, es1, t1, es2, t2, ignorePorts)
    requires !Accepted(mappings[k], states, es1, t1, es2, t2, ignorePorts)
    ensures RejectedBefore(mappings, k + 1, states, es1, t1, es2, t2, ignorePorts)
  {
  }

  lemma NoneAccepted(l1: seq<string>, l2: seq<string>, mappings: seq<map<string, string>>,
                     es1: seq<Transition>, t1: map<string, seq<Transition>>, es2: seq<Transition>, t2: map<string, seq<Transition>>,
                     ignorePorts: bool)
    requires Distinct(l1) && Distinct(l2) && |l1| == |l2| && mappings == GenerateStateMappings(l1, l2)
    requires RejectedBefore(mappings, |mappings|, Elems(l1), es1, t1, es2, t2, ignorePorts)
    ensures forall m :: Bijection(m, Elems(l1), Elems(l2)) ==> !Accepted(m, Elems(l1), es1, t1, es2, t2, ignorePorts)
  {
    forall m | Bijection(m, Elems(l1), Elems(l2))
      ensures !Accepted(m, Elems(l1), es1, t1, es2, t2, ignorePorts)
    {
      BijectionsAreGenerated(l1, l2, m);
    }
  }

  /**
   * Under an accepted mapping, the non-output edges of every state are
   * paired one-to-one with non-output edges of its image that they match.
   */
  lemma AcceptedEmbeds(m: map<string, string>, states: set<string>, es1: seq<Transition>, t1: map<string, seq<Transition>>,
                       es2: seq<Transition>, t2: map<string, seq<Transition>>, ignorePorts: bool)
    requires Accepted(m, states, es1, t1, es2, t2, ignorePorts)
    ensures forall s :: s in states ==> s in m && s in t1 && m[s] in t2 && Embeds(m, NonLeaf(t1[s]), NonLeaf(t2[m[s]]))
  {
    forall s | s in states
      ensures s in m && s in t1 && m[s] in t2 && Embeds(m, NonLeaf(t1[s]), NonLeaf(t2[m[s]]))
    {
      var pick := GreedyPairs(m, NonLeaf(t1[s]), NonLeaf(t2[m[s]]));
    }
  }
}
