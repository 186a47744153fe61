/**
 * Bottom-up subset construction of a tree automaton over an alphabet that
 * gives each symbol an arity. A macrostate is a list of states of the input
 * automaton; the construction explores the macrostates reachable bottom-up
 * and records, for every symbol and every tuple of explored macrostates, the
 * macrostate of the parents of that tuple.
 */
module Determinization {
  import opened Optional
  import opened Seqs
  import opened Transitions
  import opened Automaton
  import opened PyText
  import opened StringManipulation
  import opened TreeNodes
  import Reachability

  /** A macrostate: a list of states of the input automaton. */
  type Macro = seq<string>

  /** `[parents, symbol, children]`: an edge of the result before its macrostates are named. */
  datatype DetEdge = DetEdge(parents: Macro, symbol: string, children: seq<Macro>)

  /** `{symbol: {children: [parents]}}` of `det_create_lookup`. */
  type Lookup = map<string, map<seq<string>, seq<string>>>

  /** `done_tuples`: symbol -> tuple of macrostates -> the parents found for it. */
  type DoneTuples = map<string, map<seq<Macro>, Macro>>

  // ---------------------------------------------------------------------
  // itertools.product

  /** c picks one element of each list, in order. */
  ghost predicate Picks<T>(c: seq<T>, lists: seq<seq<T>>)
  {
    |c| == |lists| && forall i :: 0 <= i < |c| ==> c[i] in lists[i]
  }

  /** Each head in turn put in front of every row. */
  function Fronted<T>(heads: seq<T>, rows: seq<seq<T>>): seq<seq<T>>
  {
    if heads == [] then []
    else seq(|rows|, i requires 0 <= i < |rows| => [heads[0]] + rows[i]) + Fronted(heads[1..], rows)
  }

  /** `itertools.product(*lists)`: one element of each list, the last list varying fastest. */
  function Product<T>(lists: seq<seq<T>>): seq<seq<T>>
  {
    if lists == [] then [[]] else Fronted(lists[0], Product(lists[1..]))
  }

  lemma {:induction false} FrontedMembers<T>(heads: seq<T>, rows: seq<seq<T>>, c: seq<T>)
    ensures c in Fronted(heads, rows) <==> c != [] && c[0] in heads && c[1..] in rows
  {
    if heads != [] {
      FrontedMembers(heads[1..], rows, c);
      var front := seq(|rows|, i requires 0 <= i < |rows| => [heads[0]] + rows[i]);
      assert Fronted(heads, rows) == front + Fronted(heads[1..], rows);
      if c in front {
        var i :| 0 <= i < |rows| && front[i] == c;
        assert c[1..] == rows[i];
      }
      if c != [] && c[0] == heads[0] && c[1..] in rows {
        var i :| 0 <= i < |rows| && rows[i] == c[1..];
        assert front[i] == c;
      }
    }
  }

  /** The product holds exactly the picks of one element of each list. */
  lemma {:induction false} ProductMembers<T>(lists: seq<seq<T>>, c: seq<T>)
    ensures c in Product(lists) <==> Picks(c, lists)
    decreases |lists|
  {
    if lists != [] {
      FrontedMembers(lists[0], Product(lists[1..]), c);
      if c != [] {
        ProductMembers(lists[1..], c[1..]);
        if c[0] in lists[0] && Picks(c[1..], lists[1..]) {
          forall i | 0 <= i < |c|
            ensures c[i] in lists[i]
          {
            if i > 0 {
              assert c[1..][i - 1] == c[i];
            }
          }
        }
        if Picks(c, lists) {
          forall i | 0 <= i < |c| - 1
            ensures c[1..][i] in lists[1..][i]
          {
            assert c[i + 1] in lists[i + 1];
          }
        }
      }
    }
  }

  /** The rows that contain x, in order. */
  function Containing(rows: seq<seq<Macro>>, x: Macro): (r: seq<seq<Macro>>)
    ensures forall c :: c in r <==> c in rows && x in c
  {
    if rows == [] then []
    else (if x in rows[0] then [rows[0]] else []) + Containing(rows[1..], x)
  }

  /** `det_generate_tuples`: the tuples of `product(states, repeat=size)` that contain state. */
  function GenerateTuples(states: seq<Macro>, state: Macro, size: nat): seq<seq<Macro>>
  {
    Containing(Product(seq(size, _ => states)), state)
  }

  /**
   * A generated tuple has length size, contains state and is drawn from
   * states; and every such tuple is generated.
   */
  lemma GenerateTuplesMembers(states: seq<Macro>, state: Macro, size: nat, c: seq<Macro>)
    ensures c in GenerateTuples(states, state, size) <==>
      |c| == size && state in c && forall i :: 0 <= i < |c| ==> c[i] in states
  {
    ProductMembers(seq(size, _ => states), c);
  }

  // ---------------------------------------------------------------------
  // list.sort() on strings

  /** Non-decreasing in Python's string order. */
  predicate Sorted(s: seq<string>)
  {
    forall i :: 0 <= i < |s| - 1 ==> !StrLess(s[i + 1], s[i])
  }

  /** x put before the first element it is not above. */
  function Insert(x: string, s: seq<string>): (r: seq<string>)
    requires Sorted(s)
    ensures Sorted(r) && multiset(r) == multiset(s) + multiset{x}
    ensures r[0] == x || (s != [] && r[0] == s[0])
  {
    if s == [] || !StrLess(s[0], x) then [x] + s
    else
      var rest := Insert(x, s[1..]);
      StrLessAsymmetric(s[0], x);
      assert s == [s[0]] + s[1..];
      [s[0]] + rest
  }

  /** `list.sort()`: the sorted permutation. */
  function SortStrings(s: seq<string>): (r: seq<string>)
    ensures Sorted(r) && multiset(r) == multiset(s)
  {
    if s == [] then []
    else
      assert s == [s[0]] + s[1..];
      Insert(s[0], SortStrings(s[1..]))
  }

  /** Sorting keeps the elements, and a list without repetitions stays so. */
  lemma SortStringsDistinct(s: seq<string>)
    ensures Elems(SortStrings(s)) == Elems(s)
    ensures Distinct(s) ==> Distinct(SortStrings(s))
  {
    var r := SortStrings(s);
    forall x
      ensures x in r <==> x in s
    {
      assert x in r <==> x in multiset(r);
      assert x in s <==> x in multiset(s);
    }
    if Distinct(s) && !Distinct(r) {
      var i, j :| 0 <= i < j < |r| && r[i] == r[j];
      TwiceCount(r, i, j);
      CountTwice(s, r[i]);
    }
  }

  // ---------------------------------------------------------------------
  // det_create_lookup

  /**
   * The lookup describes the edges: for each of its symbols, c maps to a
   * list holding p exactly when an edge with that symbol leads from p to the
   * children c, and no list repeats a state.
   */
  ghost predicate LooksUp(lookup: Lookup, es: seq<Transition>)
  {
    (forall s, c, p :: s in lookup && c in lookup[s] && p in lookup[s][c] ==>
      exists e :: e in es && e.info.symbol == s && e.children == c && e.src == p)
    && (forall e :: e in es && e.info.symbol in lookup ==>
      e.children in lookup[e.info.symbol] && e.src in lookup[e.info.symbol][e.children])
    && (forall s, c :: s in lookup && c in lookup[s] ==> Distinct(lookup[s][c]))
  }

  /** Recording one edge in the lookup of its symbol. */
  function Record(lookup: Lookup, e: Transition): Lookup
    requires e.info.symbol in lookup
  {
    var inner := lookup[e.info.symbol];
    var ps := if e.children in inner then inner[e.children] else [];
    lookup[e.info.symbol := inner[e.children := if e.src in ps then ps else ps + [e.src]]]
  }

  lemma RecordStep(lookup: Lookup, es: seq<Transition>, e: Transition)
    requires LooksUp(lookup, es) && e.info.symbol in lookup
    ensures LooksUp(Record(lookup, e), es + [e]) && Record(lookup, e).Keys == lookup.Keys
  {
    var r := Record(lookup, e);
    forall s, c, p | s in r && c in r[s] && p in r[s][c]
      ensures exists f :: f in es + [e] && f.info.symbol == s && f.children == c && f.src == p
    {
      if s == e.info.symbol && c == e.children && p == e.src {
        assert e in es + [e];
      } else {
        assert p in lookup[s][c];
        var f :| f in es && f.info.symbol == s && f.children == c && f.src == p;
        assert f in es + [e];
      }
    }
  }

  /**
   * `det_create_lookup`: one entry per symbol of the alphabet, filled from the
   * edges in order; an edge whose symbol is not in the alphabet raises
   * KeyError (None here).
   */
  method CreateLookup(es: seq<Transition>, symbols: seq<string>) returns (r: Option<Lookup>)
    ensures r.None? <==> exists e :: e in es && e.info.symbol !in symbols
    ensures r.Some? ==> r.value.Keys == Elems(symbols) && LooksUp(r.value, es)
  {
    var result: Lookup := map s | s in symbols :: map[];
    for i := 0 to |es|
      invariant result.Keys == Elems(symbols)
      invariant forall e :: e in es[..i] ==> e.info.symbol in symbols
      invariant LooksUp(result, es[..i])
    {
      var e := es[i];
      if e.info.symbol !in result {
        return None;
      }
      RecordStep(result, es[..i], e);
      result := Record(result, e);
      assert es[..i + 1] == es[..i] + [e];
    }
    assert es[..|es|] == es;
    return Some(result);
  }

  // ---------------------------------------------------------------------
  // det_child_handle

  /** p is a parent, in the lookup of one symbol, of some pick of one state from each macrostate. */
  ghost predicate ParentOf(tuple: seq<Macro>, lookup: map<seq<string>, seq<string>>, p: string)
  {
    exists c :: Picks(c, tuple) && c in lookup && p in lookup[c]
  }

  /** The parents the lookup lists for the children lists in cs. */
  function ParentsIn(cs: seq<seq<string>>, lookup: map<seq<string>, seq<string>>): set<string>
  {
    if cs == [] then {}
    else
      var last := cs[|cs| - 1];
      ParentsIn(cs[..|cs| - 1], lookup) + (if last in lookup then Elems(lookup[last]) else {})
  }

  lemma {:induction false} ParentsInMembers(cs: seq<seq<string>>, lookup: map<seq<string>, seq<string>>, p: string)
    ensures p in ParentsIn(cs, lookup) <==> exists c :: c in cs && c in lookup && p in lookup[c]
  {
    if cs != [] {
      var init := cs[..|cs| - 1];
      ParentsInMembers(init, lookup, p);
      assert cs == init + [cs[|cs| - 1]];
    }
  }

  lemma ParentsOfProduct(tuple: seq<Macro>, lookup: map<seq<string>, seq<string>>, p: string)
    ensures p in ParentsIn(Product(tuple), lookup) <==> ParentOf(tuple, lookup, p)
  {
    ParentsInMembers(Product(tuple), lookup, p);
    forall c
      ensures c in Product(tuple) <==> Picks(c, tuple)
    {
      ProductMembers(tuple, c);
    }
  }

  /**
   * `det_child_handle`: the parents of every pick of one state from each
   * macrostate of the tuple, without repetition and sorted.
   */
  method ChildHandle(tuple: seq<Macro>, lookup: map<seq<string>, seq<string>>) returns (r: Macro)
    ensures Sorted(r) && Distinct(r)
    ensures forall p :: p in r <==> ParentOf(tuple, lookup, p)
  {
    var children := Product(tuple);
    var result: seq<string> := [];
    for i := 0 to |children|
      invariant Distinct(result) && Elems(result) == ParentsIn(children[..i], lookup)
    {
      var c := children[i];
      assert children[..i + 1][..i] == children[..i];
      if c in lookup {
        result := AddNew(result, lookup[c]);
      }
    }
    assert children[..|children|] == children;
    SortStringsDistinct(result);
    r := SortStrings(result);
    forall p
      ensures p in r <==> ParentOf(tuple, lookup, p)
    {
      assert p in r <==> p in Elems(result);
      ParentsOfProduct(tuple, lookup, p);
    }
  }

  // ---------------------------------------------------------------------
  // get_output_edges and det_out_edges

  /** The key of a leaf edge in `get_output_edges(inverse)`: its symbol, or its source when inverse. */
  function OutKey(e: Transition, inverse: bool): string
  {
    if inverse then e.src else e.info.symbol
  }

  /** The value listed for a leaf edge: its source, or its symbol when inverse. */
  function OutValue(e: Transition, inverse: bool): string
  {
    if inverse then e.info.symbol else e.src
  }

  /**
   * `get_output_edges(inverse)`: v is listed under k exactly when a leaf edge
   * has key k and value v, and no list is empty.
   */
  ghost predicate OutputsOf(out: map<string, seq<string>>, es: seq<Transition>, inverse: bool)
  {
    (forall k, v :: k in out && v in out[k] ==>
      exists e :: e in es && e.children == [] && OutKey(e, inverse) == k && OutValue(e, inverse) == v)
    && (forall e :: e in es && e.children == [] ==> OutKey(e, inverse) in out && OutValue(e, inverse) in out[OutKey(e, inverse)])
    && (forall k :: k in out ==> out[k] != [])
  }

  lemma OutputStep(out: map<string, seq<string>>, es: seq<Transition>, inverse: bool, e: Transition)
    requires OutputsOf(out, es, inverse) && e.children == []
    ensures var k := OutKey(e, inverse);
      var vs := if k in out then out[k] else [];
      OutputsOf(out[k := vs + [OutValue(e, inverse)]], es + [e], inverse)
  {
    var k := OutKey(e, inverse);
    var vs := if k in out then out[k] else [];
    var grown := out[k := vs + [OutValue(e, inverse)]];
    forall k', v | k' in grown && v in grown[k']
      ensures exists f :: f in es + [e] && f.children == [] && OutKey(f, inverse) == k' && OutValue(f, inverse) == v
    {
      if k' == k && v == OutValue(e, inverse) {
        assert e in es + [e];
      } else {
        assert v in out[k'];
        var f :| f in es && f.children == [] && OutKey(f, inverse) == k' && OutValue(f, inverse) == v;
        assert f in es + [e];
      }
    }
  }

  /** The loop of `get_output_edges(inverse)` before the lists are sorted. */
  method CollectOutputs(es: seq<Transition>, inverse: bool) returns (order: seq<string>, out: map<string, seq<string>>)
    ensures Distinct(order) && Elems(order) == out.Keys
    ensures OutputsOf(out, es, inverse)
  {
    order, out := [], map[];
    for i := 0 to |es|
      invariant Distinct(order) && Elems(order) == out.Keys
      invariant OutputsOf(out, es[..i], inverse)
    {
      var e := es[i];
      assert es[..i + 1] == es[..i] + [e];
      if e.children == [] {
        OutputStep(out, es[..i], inverse, e);
        var k := OutKey(e, inverse);
        if k !in out {
          order := order + [k];
          out := out[k := [OutValue(e, inverse)]];
        } else {
          out := out[k := out[k] + [OutValue(e, inverse)]];
        }
      }
    }
    assert es[..|es|] == es;
  }

  /**
   * `get_output_edges(inverse)`: for each key (the symbol of a leaf edge, or
   * its source when inverse), in order of first occurrence, the sorted list
   * of the values of its leaf edges (a value of two such edges is listed
   * twice).
   */
  method GetOutputEdges(es: seq<Transition>, inverse: bool) returns (order: seq<string>, out: map<string, seq<string>>)
    ensures Distinct(order) && Elems(order) == out.Keys
    ensures OutputsOf(out, es, inverse)
    ensures forall k :: k in out ==> Sorted(out[k])
  {
    var unsorted;
    order, unsorted := CollectOutputs(es, inverse);
    out := map k | k in unsorted :: SortStrings(unsorted[k]);
    SortedOutputs(unsorted, es, inverse);
  }

  lemma SortedOutputs(out: map<string, seq<string>>, es: seq<Transition>, inverse: bool)
    requires OutputsOf(out, es, inverse)
    ensures OutputsOf(map k | k in out :: SortStrings(out[k]), es, inverse)
  {
    forall k | k in out
      ensures (forall v :: v in SortStrings(out[k]) <==> v in out[k]) && SortStrings(out[k]) != []
    {
      SortStringsDistinct(out[k]);
      assert forall v :: v in SortStrings(out[k]) <==> v in Elems(out[k]);
      assert out[k][0] in SortStrings(out[k]);
    }
  }

  /**
   * The leaf edges of the result: the output list of each output symbol, and
   * the empty macrostate for each arity-0 symbol of the alphabet with no output.
   */
  ghost predicate LeafEdge(order: seq<string>, out: map<string, Macro>, symbols: seq<string>, arity: map<string, nat>, e: DetEdge)
  {
    e.children == [] &&
    ((e.symbol in order && e.symbol in out && e.parents == out[e.symbol])
     || (e.symbol in symbols && e.symbol !in out && e.symbol in arity && arity[e.symbol] == 0 && e.parents == []))
  }

  /** No two edges share both symbol and tuple. */
  ghost predicate PairsDistinct(es: seq<DetEdge>)
  {
    forall i, j :: 0 <= i < j < |es| ==> es[i].symbol != es[j].symbol || es[i].children != es[j].children
  }

  /**
   * `det_out_edges` on an empty `done_edges`: the leaf edges, one per output
   * symbol and one per arity-0 symbol without output, and the macrostates
   * they lead to, with the empty one listed once.
   */
  method OutEdges(order: seq<string>, out: map<string, Macro>, symbols: seq<string>, arity: map<string, nat>)
    returns (result: seq<Macro>, leaves: seq<DetEdge>)
    requires Distinct(order) && Elems(order) == out.Keys
    requires Distinct(symbols) && Elems(symbols) == arity.Keys
    ensures forall e :: e in leaves <==> LeafEdge(order, out, symbols, arity, e)
    ensures PairsDistinct(leaves)
    ensures forall M :: M in result <==> exists e :: e in leaves && e.parents == M
  {
    var outputs: seq<DetEdge> := [];
    result := [];
    for i := 0 to |order|
      invariant |outputs| == i && forall j :: 0 <= j < i ==> outputs[j] == DetEdge(out[order[j]], order[j], [])
      invariant forall M :: M in result <==> exists e :: e in outputs && e.parents == M
    {
      var symbol := order[i];
      outputs := outputs + [DetEdge(out[symbol], symbol, [])];
      result := result + [out[symbol]];
    }
    var empties: seq<DetEdge> := [];
    for i := 0 to |symbols|
      invariant forall e :: e in empties <==>
        e.symbol in symbols[..i] && e.symbol !in out && arity[e.symbol] == 0 && e == DetEdge([], e.symbol, [])
      invariant PairsDistinct(empties)
      invariant forall M :: M in result <==> exists e :: (e in outputs || e in empties) && e.parents == M
    {
      var symbol := symbols[i];
      assert symbols[..i + 1] == symbols[..i] + [symbol];
      if symbol !in out && arity[symbol] == 0 {
        empties := empties + [DetEdge([], symbol, [])];
        if [] !in result {
          result := result + [[]];
        }
      }
    }
    assert symbols[..|symbols|] == symbols;
    leaves := outputs + empties;
    LeavesDistinct(order, out, outputs, empties);
  }

  lemma LeavesDistinct(order: seq<string>, out: map<string, Macro>, outputs: seq<DetEdge>, empties: seq<DetEdge>)
    requires Distinct(order) && |outputs| == |order| && Elems(order) == out.Keys
    requires forall j :: 0 <= j < |order| ==> outputs[j] == DetEdge(out[order[j]], order[j], [])
    requires forall e :: e in empties ==> e.symbol !in out
    requires PairsDistinct(empties)
    ensures PairsDistinct(outputs + empties)
  {
    var leaves := outputs + empties;
    forall i, j | 0 <= i < j < |leaves|
      ensures leaves[i].symbol != leaves[j].symbol || leaves[i].children != leaves[j].children
    {
      if j < |outputs| {
      } else if i < |outputs| {
        assert leaves[j] in empties;
        assert order[i] in Elems(order);
      } else {
        assert leaves[i] == empties[i - |outputs|] && leaves[j] == empties[j - |outputs|];
      }
    }
  }

  // ---------------------------------------------------------------------
  // The work-list loop of tree_aut_determinization

  /**
   * The parents of an edge, sorted and without repetition, are exactly the
   * states with an edge of its symbol whose children pick one state from
   * each macrostate of its tuple.
   */
  ghost predicate Correct(es: seq<Transition>, e: DetEdge)
  {
    Sorted(e.parents) && Distinct(e.parents) && Parents(es, e)
  }

  /** The parents of an edge are the states with an edge of its symbol whose children pick from its tuple. */
  ghost predicate Parents(es: seq<Transition>, e: DetEdge)
  {
    forall p :: p in e.parents <==>
      exists t :: t in es && t.info.symbol == e.symbol && t.src == p && Picks(t.children, e.children)
  }

  /** An edge's tuple is not empty, has its symbol's arity and is drawn from the explored macrostates. */
  ghost predicate Shaped(arity: map<string, nat>, doneSet: seq<Macro>, e: DetEdge)
  {
    e.symbol in arity && e.children != [] && |e.children| == arity[e.symbol]
    && forall i :: 0 <= i < |e.children| ==> e.children[i] in doneSet
  }

  /** `done_tuples` and the edges found so far describe each other, and no pair is found twice. */
  ghost predicate Recorded(done: DoneTuples, found: seq<DetEdge>)
  {
    (forall i :: 0 <= i < |found| ==>
      found[i].symbol in done && found[i].children in done[found[i].symbol]
      && done[found[i].symbol][found[i].children] == found[i].parents)
    && (forall s, t :: s in done && t in done[s] ==> DetEdge(done[s][t], s, t) in found)
    && PairsDistinct(found)
  }

  /** Some found edge leads to M. */
  ghost predicate Reached(found: seq<DetEdge>, M: Macro)
  {
    exists e :: e in found && e.parents == M
  }

  /** Some found edge has this symbol and tuple. */
  ghost predicate HasEdge(found: seq<DetEdge>, s: string, t: seq<Macro>)
  {
    exists e :: e in found && e.symbol == s && e.children == t
  }

  /** Every tuple of explored macrostates of every symbol with positive arity has an edge. */
  ghost predicate Complete(arity: map<string, nat>, doneSet: seq<Macro>, found: seq<DetEdge>)
  {
    forall s, t :: s in arity && |t| == arity[s] && t != [] && (forall i :: 0 <= i < |t| ==> t[i] in doneSet) ==>
      HasEdge(found, s, t)
  }

  /** What the loop keeps at every step. */
  ghost predicate Explored(es: seq<Transition>, arity: map<string, nat>, symbols: seq<string>, done: DoneTuples,
                           found: seq<DetEdge>, doneSet: seq<Macro>, workSet: seq<Macro>)
  {
    done.Keys == Elems(symbols) && Recorded(done, found)
    && forall e :: e in found ==>
      Correct(es, e) && Shaped(arity, doneSet, e) && (e.parents in doneSet || e.parents in workSet)
  }

  /** `done_tuples` only grows. */
  ghost predicate Within(done0: DoneTuples, done: DoneTuples)
  {
    forall s, t :: s in done0 && t in done0[s] ==> s in done && t in done[s]
  }

  /**
   * Every tuple of explored macrostates of a symbol with positive arity is
   * recorded, or holds a macrostate still in the work list.
   */
  ghost predicate Covered(arity: map<string, nat>, done: DoneTuples, doneSet: seq<Macro>, workSet: seq<Macro>)
  {
    forall s, t :: s in done && s in arity && |t| == arity[s] && t != [] && (forall i :: 0 <= i < |t| ==> t[i] in doneSet) ==>
      t in done[s] || exists i :: 0 <= i < |t| && t[i] in workSet
  }

  /** det_child_handle on the lookup of a symbol gives the parents Correct asks for. */
  lemma HandleCorrect(lookup: Lookup, es: seq<Transition>, s: string, tuple: seq<Macro>, parents: Macro)
    requires LooksUp(lookup, es) && s in lookup
    requires Sorted(parents) && Distinct(parents)
    requires forall p :: p in parents <==> ParentOf(tuple, lookup[s], p)
    ensures Correct(es, DetEdge(parents, s, tuple))
  {
    forall p
      ensures p in parents <==> exists t :: t in es && t.info.symbol == s && t.src == p && Picks(t.children, tuple)
    {
      if p in parents {
        var c :| Picks(c, tuple) && c in lookup[s] && p in lookup[s][c];
        var t :| t in es && t.info.symbol == s && t.children == c && t.src == p;
      }
      if exists t :: t in es && t.info.symbol == s && t.src == p && Picks(t.children, tuple) {
        var t :| t in es && t.info.symbol == s && t.src == p && Picks(t.children, tuple);
        assert t.children in lookup[s] && p in lookup[s][t.children];
      }
    }
  }

  /** Recording a new pair keeps the invariant. */
  lemma RecordPair(es: seq<Transition>, arity: map<string, nat>, symbols: seq<string>, done: DoneTuples,
                   found: seq<DetEdge>, doneSet: seq<Macro>, workSet: seq<Macro>, e: DetEdge, workSet2: seq<Macro>)
    requires Explored(es, arity, symbols, done, found, doneSet, workSet)
    requires e.symbol in done && e.children !in done[e.symbol]
    requires Correct(es, e) && Shaped(arity, doneSet, e)
    requires e.parents in workSet2 && forall M :: M in workSet ==> M in workSet2
    ensures Explored(es, arity, symbols, done[e.symbol := done[e.symbol][e.children := e.parents]], found + [e], doneSet, workSet2)
    ensures Within(done, done[e.symbol := done[e.symbol][e.children := e.parents]])
  {
    var done2 := done[e.symbol := done[e.symbol][e.children := e.parents]];
    var found2 := found + [e];
    forall i | 0 <= i < |found2|
      ensures found2[i].symbol in done2 && found2[i].children in done2[found2[i].symbol]
        && done2[found2[i].symbol][found2[i].children] == found2[i].parents
    {
      if i < |found| {
        assert found2[i] == found[i];
      }
    }
    forall s, t | s in done2 && t in done2[s]
      ensures DetEdge(done2[s][t], s, t) in found2
    {
      if s != e.symbol || t != e.children {
        assert DetEdge(done[s][t], s, t) in found;
      }
    }
    forall i, j | 0 <= i < j < |found2|
      ensures found2[i].symbol != found2[j].symbol || found2[i].children != found2[j].children
    {
      if j == |found| {
        assert found2[i] == found[i];
      }
    }
  }

  /** What the inner loop adds to the recorded tuples, the edges and the work list, and nothing else. */
  ghost predicate Grown(done: DoneTuples, found: seq<DetEdge>, workSet: seq<Macro>,
                        done': DoneTuples, found': seq<DetEdge>, workSet': seq<Macro>)
  {
    && Within(done, done')
    && (forall M :: M in workSet ==> M in workSet')
    && (forall e :: e in found ==> e in found')
    && (forall M :: M in workSet' ==> M in workSet || Reached(found', M))
  }

  lemma GrownStep(done: DoneTuples, found: seq<DetEdge>, workSet: seq<Macro>,
                  done': DoneTuples, found': seq<DetEdge>, workSet': seq<Macro>, e: DetEdge)
    requires Grown(done, found, workSet, done', found', workSet') && e.symbol in done'
    ensures Grown(done, found, workSet, done'[e.symbol := done'[e.symbol][e.children := e.parents]], found' + [e],
                  if e.parents in workSet' then workSet' else workSet' + [e.parents])
  {
    var found2 := found' + [e];
    assert e in found2;
    forall M | M in workSet' ensures Reached(found', M) ==> Reached(found2, M) {
      if Reached(found', M) {
        var d :| d in found' && d.parents == M;
        assert d in found2;
      }
    }
  }

  /** One more tuple of the list is recorded. */
  lemma RecordedStep(combos: seq<seq<Macro>>, i: nat, m: map<seq<Macro>, Macro>, m2: map<seq<Macro>, Macro>)
    requires i < |combos| && (forall c :: c in combos[..i] ==> c in m) && combos[i] in m2 && m.Keys <= m2.Keys
    ensures forall c :: c in combos[..i + 1] ==> c in m2
  {
    assert combos[..i + 1] == combos[..i] + [combos[i]];
  }

  /**
   * One round of the inner loop of `tree_aut_determinization` for one symbol:
   * each tuple not yet recorded gets its parents from det_child_handle, is
   * recorded, gives an edge, and its parents join the work list unless they
   * are in it already.
   */
  method ProcessTuples(ghost es: seq<Transition>, arity: map<string, nat>, ghost symbols: seq<string>, lookup: Lookup,
                       symbol: string, combos: seq<seq<Macro>>, done: DoneTuples, found: seq<DetEdge>,
                       doneSet: seq<Macro>, workSet: seq<Macro>)
    returns (done': DoneTuples, found': seq<DetEdge>, workSet': seq<Macro>)
    requires Explored(es, arity, symbols, done, found, doneSet, workSet)
    requires LooksUp(lookup, es) && symbol in lookup && symbol in done && symbol in arity
    requires forall c :: c in combos ==> c != [] && |c| == arity[symbol] && forall i :: 0 <= i < |c| ==> c[i] in doneSet
    ensures Explored(es, arity, symbols, done', found', doneSet, workSet')
    ensures Within(done, done') && forall M :: M in workSet ==> M in workSet'
    ensures forall c :: c in combos ==> c in done'[symbol]
    ensures forall e :: e in found ==> e in found'
    ensures forall M :: M in workSet' ==> M in workSet || Reached(found', M)
  {
    done', found', workSet' := done, found, workSet;
    for i := 0 to |combos|
      invariant Explored(es, arity, symbols, done', found', doneSet, workSet')
      invariant Grown(done, found, workSet, done', found', workSet')
      invariant symbol in done' && forall c :: c in combos[..i] ==> c in done'[symbol]
    {
      var t := combos[i];
      ghost var before := done'[symbol];
      if t !in done'[symbol] {
        var parents := ChildHandle(t, lookup[symbol]);
        HandleCorrect(lookup, es, symbol, t, parents);
        var grown := if parents in workSet' then workSet' else workSet' + [parents];
        RecordPair(es, arity, symbols, done', found', doneSet, workSet', DetEdge(parents, symbol, t), grown);
        GrownStep(done, found, workSet, done', found', workSet', DetEdge(parents, symbol, t));
        done' := done'[symbol := done'[symbol][t := parents]];
        workSet' := grown;
        found' := found' + [DetEdge(parents, symbol, t)];
      }
      RecordedStep(combos, i, before, done'[symbol]);
    }
    assert combos[..|combos|] == combos;
  }

  /** Moving the first macrostate of the work list to the explored ones keeps the invariant. */
  lemma PopStep(es: seq<Transition>, arity: map<string, nat>, symbols: seq<string>, done: DoneTuples,
                found: seq<DetEdge>, doneSet: seq<Macro>, workSet: seq<Macro>)
    requires Explored(es, arity, symbols, done, found, doneSet, workSet) && workSet != []
    ensures Explored(es, arity, symbols, done, found, doneSet + [workSet[0]], workSet[1..])
  {
    forall e | e in found
      ensures Shaped(arity, doneSet + [workSet[0]], e)
      ensures e.parents in doneSet + [workSet[0]] || e.parents in workSet[1..]
    {
      assert workSet == [workSet[0]] + workSet[1..];
    }
  }

  /** The tuples generated for a symbol have its arity and are drawn from the explored macrostates. */
  lemma SymbolTuples(doneSet: seq<Macro>, state: Macro, n: nat, combos: seq<seq<Macro>>)
    requires combos == GenerateTuples(doneSet, state, n)
    ensures forall c :: c in combos ==> c != [] && |c| == n && forall i :: 0 <= i < |c| ==> c[i] in doneSet
  {
    forall c | c in combos
      ensures c != [] && |c| == n && forall i :: 0 <= i < |c| ==> c[i] in doneSet
    {
      GenerateTuplesMembers(doneSet, state, n, c);
    }
  }

  /** After a symbol's tuples are processed, every tuple of it with the popped macrostate is recorded. */
  lemma SymbolDone(doneSet: seq<Macro>, state: Macro, n: nat, combos: seq<seq<Macro>>, recorded: map<seq<Macro>, Macro>)
    requires combos == GenerateTuples(doneSet, state, n)
    requires forall c :: c in combos ==> c in recorded
    ensures forall c :: (|c| == n && state in c && forall i :: 0 <= i < |c| ==> c[i] in doneSet) ==> c in recorded
  {
    forall c
      ensures c in combos <==> |c| == n && state in c && forall i :: 0 <= i < |c| ==> c[i] in doneSet
    {
      GenerateTuplesMembers(doneSet, state, n, c);
    }
  }

  /** One round of the outer loop keeps the coverage. */
  lemma CoveredStep(arity: map<string, nat>, done0: DoneTuples, done: DoneTuples, doneSet0: seq<Macro>,
                    workSet0: seq<Macro>, workSet: seq<Macro>)
    requires Covered(arity, done0, doneSet0, workSet0) && workSet0 != []
    requires Within(done0, done) && done.Keys == done0.Keys
    requires forall M :: M in workSet0[1..] ==> M in workSet
    requires DoneFor(done, arity, doneSet0 + [workSet0[0]], workSet0[0], done.Keys)
    ensures Covered(arity, done, doneSet0 + [workSet0[0]], workSet)
  {
    var state := workSet0[0];
    var doneSet := doneSet0 + [state];
    forall s, t | s in done && s in arity && |t| == arity[s] && t != [] && (forall i :: 0 <= i < |t| ==> t[i] in doneSet)
      ensures t in done[s] || exists i :: 0 <= i < |t| && t[i] in workSet
    {
      if state !in t {
        forall i | 0 <= i < |t|
          ensures t[i] in doneSet0
        {
          assert t[i] in doneSet && t[i] != state;
        }
        if t !in done0[s] {
          var i :| 0 <= i < |t| && t[i] in workSet0;
          assert workSet0 == [state] + workSet0[1..];
          assert t[i] in workSet0[1..];
        }
      }
    }
  }

  /** For the symbols in syms, every tuple of explored macrostates that contains state is recorded. */
  ghost predicate DoneFor(done: DoneTuples, arity: map<string, nat>, doneSet: seq<Macro>, state: Macro, syms: set<string>)
  {
    forall s, c :: (s in syms && s in done && s in arity && |c| == arity[s] && state in c
      && forall i :: 0 <= i < |c| ==> c[i] in doneSet) ==> c in done[s]
  }

  lemma DoneForStep(before: DoneTuples, done: DoneTuples, arity: map<string, nat>, doneSet: seq<Macro>, state: Macro,
                    syms: set<string>, symbol: string)
    requires DoneFor(before, arity, doneSet, state, syms) && Within(before, done) && before.Keys == done.Keys
    requires symbol in done && symbol in arity
    requires forall c :: (|c| == arity[symbol] && state in c && forall i :: 0 <= i < |c| ==> c[i] in doneSet) ==> c in done[symbol]
    ensures DoneFor(done, arity, doneSet, state, syms + {symbol})
  {
  }

  /** Before the loop every non-empty tuple of macrostates holds one in the work list. */
  lemma CoveredStart(arity: map<string, nat>, done: DoneTuples, initial: seq<Macro>)
    ensures Covered(arity, done, initial, initial)
  {
    forall s, t | s in done && s in arity && |t| == arity[s] && t != [] && (forall i :: 0 <= i < |t| ==> t[i] in initial)
      ensures exists i :: 0 <= i < |t| && t[i] in initial
    {
      assert t[0] in initial;
    }
  }

  /**
   * The body of the `for symbol, arity in alphabet.items()` loop for one
   * popped macrostate: afterwards every tuple of explored macrostates that
   * contains it is recorded for every symbol.
   */
  method Round(ghost es: seq<Transition>, symbols: seq<string>, arity: map<string, nat>, lookup: Lookup,
               state: Macro, done: DoneTuples, found: seq<DetEdge>, doneSet: seq<Macro>, workSet: seq<Macro>)
    returns (done': DoneTuples, found': seq<DetEdge>, workSet': seq<Macro>)
    requires LooksUp(lookup, es) && lookup.Keys == Elems(symbols) && arity.Keys == Elems(symbols)
    requires Explored(es, arity, symbols, done, found, doneSet, workSet)
    ensures Explored(es, arity, symbols, done', found', doneSet, workSet')
    ensures Within(done, done') && forall M :: M in workSet ==> M in workSet'
    ensures DoneFor(done', arity, doneSet, state, Elems(symbols))
    ensures forall e :: e in found ==> e in found'
    ensures forall M :: M in workSet' ==> M in workSet || Reached(found', M)
  {
    done', found', workSet' := done, found, workSet;
    for k := 0 to |symbols|
      invariant Explored(es, arity, symbols, done', found', doneSet, workSet')
      invariant Within(done, done') && forall M :: M in workSet ==> M in workSet'
      invariant DoneFor(done', arity, doneSet, state, Elems(symbols[..k]))
      invariant forall e :: e in found ==> e in found'
      invariant forall M :: M in workSet' ==> M in workSet || Reached(found', M)
    {
      var symbol := symbols[k];
      assert symbols[..k + 1] == symbols[..k] + [symbol];
      var combos := GenerateTuples(doneSet, state, arity[symbol]);
      SymbolTuples(doneSet, state, arity[symbol], combos);
      ghost var before := done';
      done', found', workSet' := ProcessTuples(es, arity, symbols, lookup, symbol, combos, done', found', doneSet, workSet');
      SymbolDone(doneSet, state, arity[symbol], combos, done'[symbol]);
      DoneForStep(before, done', arity, doneSet, state, Elems(symbols[..k]), symbol);
    }
  }

  /**
   * The `while work_set` loop of `tree_aut_determinization`, started with
   * the macrostates of the leaf edges. It stops early (ok false) when fuel
   * rounds did not empty the work list. The tuples and edges found so far
   * are always correct and each (symbol, tuple) pair is found at most once;
   * when ok, every tuple of explored macrostates of every symbol with
   * positive arity has its edge, and every edge leads to an explored
   * macrostate.
   */
  method Explore(ghost es: seq<Transition>, symbols: seq<string>, arity: map<string, nat>, lookup: Lookup,
                 initial: seq<Macro>, fuel: nat)
    returns (ok: bool, doneSet: seq<Macro>, found: seq<DetEdge>)
    requires LooksUp(lookup, es) && lookup.Keys == Elems(symbols) && arity.Keys == Elems(symbols)
    ensures |doneSet| >= |initial| && doneSet[..|initial|] == initial
    ensures forall M :: M in doneSet ==> M in initial || Reached(found, M)
    ensures PairsDistinct(found)
    ensures forall e :: e in found ==> Correct(es, e) && Shaped(arity, doneSet, e)
    ensures ok ==> forall e :: e in found ==> e.parents in doneSet
    ensures ok ==> Complete(arity, doneSet, found)
  {
    doneSet := initial;
    var workSet := initial;
    var done: DoneTuples := map s | s in symbols :: map[];
    found := [];
    CoveredStart(arity, done, initial);
    var budget := fuel;
    while workSet != []
      invariant Explored(es, arity, symbols, done, found, doneSet, workSet)
      invariant Covered(arity, done, doneSet, workSet)
      invariant |doneSet| >= |initial| && doneSet[..|initial|] == initial
      invariant forall M :: M in doneSet || M in workSet ==> M in initial || Reached(found, M)
      decreases budget
    {
      if budget == 0 {
        return false, doneSet, found;
      }
      budget := budget - 1;
      var state := workSet[0];
      ghost var done0, doneSet0, workSet0, found0 := done, doneSet, workSet, found;
      PopStep(es, arity, symbols, done, found, doneSet, workSet);
      workSet := workSet[1..];
      doneSet := doneSet + [state];
      done, found, workSet := Round(es, symbols, arity, lookup, state, done, found, doneSet, workSet);
      CoveredStep(arity, done0, done, doneSet0, workSet0, workSet);
      ReachedKept(found0, found, doneSet0, workSet0, initial);
    }
    ok := true;
    Finished(es, arity, symbols, done, found, doneSet);
  }

  /** Macrostates stay accounted for across a round. */
  lemma ReachedKept(found0: seq<DetEdge>, found: seq<DetEdge>, doneSet0: seq<Macro>, workSet0: seq<Macro>, initial: seq<Macro>)
    requires workSet0 != []
    requires forall M :: M in doneSet0 || M in workSet0 ==> M in initial || Reached(found0, M)
    requires forall e :: e in found0 ==> e in found
    ensures forall M :: M in doneSet0 + [workSet0[0]] || M in workSet0 ==> M in initial || Reached(found, M)
  {
    forall M | (M in doneSet0 + [workSet0[0]] || M in workSet0) && M !in initial
      ensures Reached(found, M)
    {
      assert M in doneSet0 || M in workSet0;
      var e :| e in found0 && e.parents == M;
      assert e in found;
    }
  }

  /** With an empty work list the invariant gives completeness. */
  lemma Finished(es: seq<Transition>, arity: map<string, nat>, symbols: seq<string>, done: DoneTuples,
                 found: seq<DetEdge>, doneSet: seq<Macro>)
    requires Explored(es, arity, symbols, done, found, doneSet, []) && Covered(arity, done, doneSet, [])
    requires arity.Keys == Elems(symbols)
    ensures forall e :: e in found ==> e.parents in doneSet
    ensures Complete(arity, doneSet, found)
  {
    forall s, t | s in arity && |t| == arity[s] && t != [] && (forall i :: 0 <= i < |t| ==> t[i] in doneSet)
      ensures HasEdge(found, s, t)
    {
      assert DetEdge(done[s][t], s, t) in found;
    }
  }

  // ---------------------------------------------------------------------
  // det_create_roots and det_create_relation

  /** The names of the macrostates of ms that hold a state of roots. */
  ghost function RootNames(ms: seq<Macro>, roots: seq<string>): set<string>
  {
    set M, q | M in ms && q in roots && q in M :: NameSetString(M)
  }

  /**
   * `det_create_roots`: the names of the explored macrostates that hold a
   * root of the input, each once, in set order.
   */
  method CreateRoots(doneStates: seq<Macro>, roots: seq<string>) returns (r: seq<string>)
    ensures Distinct(r)
    ensures forall x :: x in r <==> exists M :: M in doneStates && x == NameSetString(M) && exists q :: q in roots && q in M
  {
    var result: set<string> := {};
    for i := 0 to |doneStates|
      invariant result == RootNames(doneStates[..i], roots)
    {
      var M := doneStates[i];
      assert doneStates[..i + 1] == doneStates[..i] + [M];
      for j := 0 to |roots|
        invariant result == RootNames(doneStates[..i], roots) + (if exists q :: q in roots[..j] && q in M then {NameSetString(M)} else {})
      {
        assert roots[..j + 1] == roots[..j] + [roots[j]];
        if roots[j] in M {
          result := result + {NameSetString(M)};
        }
      }
      assert roots[..|roots|] == roots;
    }
    assert doneStates[..|doneStates|] == doneStates;
    r := Reachability.ListOfSet(result);
    forall x
      ensures x in r <==> exists M :: M in doneStates && x == NameSetString(M) && exists q :: q in roots && q in M
    {
      assert x in r <==> x in Elems(r);
    }
  }

  /**
   * The transition `det_create_relation` makes of an edge: its macrostates
   * named by `create_string_from_name_set`, its symbol with one short box per
   * child of the symbol's arity, and no variable.
   */
  function Named(e: DetEdge, arity: map<string, nat>): Transition
    requires e.symbol in arity
  {
    Transition(NameSetString(e.parents), Edge(e.symbol, seq(arity[e.symbol], _ => None), ""),
      seq(|e.children|, i requires 0 <= i < |e.children| => NameSetString(e.children[i])))
  }

  /** The transitions of all edges, in order. */
  function NamedAll(edges: seq<DetEdge>, arity: map<string, nat>): (r: seq<Transition>)
    requires forall e :: e in edges ==> e.symbol in arity
  {
    if edges == [] then [] else NamedAll(edges[..|edges| - 1], arity) + [Named(edges[|edges| - 1], arity)]
  }

  /**
   * The dictionary groups the transitions by source: key k holds exactly
   * the transitions with source k, each once, and every key holds one.
   */
  ghost predicate Groups(keys: seq<string>, m: map<string, seq<Transition>>, ts: seq<Transition>)
  {
    KeyOrder(keys, m)
    && (forall t :: t in ts ==> t.src in m && t in m[t.src])
    && (forall k, t :: k in m && t in m[k] ==> t.src == k && t in ts)
    && (forall k :: k in m ==> m[k] != [] && Distinct(m[k]))
  }

  lemma GroupStep(keys: seq<string>, m: map<string, seq<Transition>>, ts: seq<Transition>, t: Transition)
    requires Groups(keys, m, ts)
    ensures var old_ := if t.src in m then m[t.src] else [];
      Groups(if t.src in m then keys else keys + [t.src], m[t.src := if t in old_ then old_ else old_ + [t]], ts + [t])
  {
    var old_ := if t.src in m then m[t.src] else [];
    var keys2 := if t.src in m then keys else keys + [t.src];
    assert Distinct(keys2) by {
      if t.src !in m {
        assert t.src !in keys;
      }
    }
  }

  lemma {:induction false} NamedAllMembers(edges: seq<DetEdge>, arity: map<string, nat>, t: Transition)
    requires forall e :: e in edges ==> e.symbol in arity
    ensures t in NamedAll(edges, arity) <==> exists e :: e in edges && t == Named(e, arity)
  {
    if edges != [] {
      var init := edges[..|edges| - 1];
      NamedAllMembers(init, arity, t);
      SplitLast(edges);
    }
  }

  /**
   * `det_create_relation` as the dictionary of a tree automaton: the
   * sources in order of first appearance, each with its named edges; an
   * edge named like one already there replaces it in place (here: is not
   * added again). A symbol missing from the alphabet raises KeyError (None).
   */
  method CreateRelation(edges: seq<DetEdge>, arity: map<string, nat>) returns (r: Option<(seq<string>, map<string, seq<Transition>>)>)
    ensures r.None? <==> exists e :: e in edges && e.symbol !in arity
    ensures r.Some? ==> Groups(r.value.0, r.value.1, NamedAll(edges, arity))
  {
    var keys: seq<string> := [];
    var m: map<string, seq<Transition>> := map[];
    for i := 0 to |edges|
      invariant forall e :: e in edges[..i] ==> e.symbol in arity
      invariant Groups(keys, m, NamedAll(edges[..i], arity))
    {
      var e := edges[i];
      if e.symbol !in arity {
        return None;
      }
      var t := Named(e, arity);
      assert edges[..i + 1][..i] == edges[..i];
      GroupStep(keys, m, NamedAll(edges[..i], arity), t);
      var ts := if t.src in m then m[t.src] else [];
      if t.src !in m {
        keys := keys + [t.src];
      }
      m := m[t.src := if t in ts then ts else ts + [t]];
    }
    assert edges[..|edges|] == edges;
    return Some((keys, m));
  }

  // ---------------------------------------------------------------------
  // tree_aut_determinization

  /**
   * What the construction delivers: over the explored macrostates, at most
   * one edge per (symbol, tuple); every edge leads to an explored macrostate
   * and from explored ones, and its parents are the states with an edge of
   * its symbol from a pick of its tuple; every arity-0 symbol has a leaf
   * edge and every tuple of explored macrostates of every symbol with
   * positive arity has an edge.
   */
  ghost predicate Subsets(es: seq<Transition>, arity: map<string, nat>, doneSet: seq<Macro>, edges: seq<DetEdge>)
  {
    PairsDistinct(edges)
    && (forall e :: e in edges ==>
      e.parents in doneSet && (forall i :: 0 <= i < |e.children| ==> e.children[i] in doneSet) && Parents(es, e))
    && (forall s :: s in arity && arity[s] == 0 ==> HasEdge(edges, s, []))
    && Complete(arity, doneSet, edges)
  }

  /** The leaf edges list the sources of the input's leaf edges. */
  lemma LeavesParents(es: seq<Transition>, order: seq<string>, out: map<string, Macro>, symbols: seq<string>,
                      arity: map<string, nat>, e: DetEdge)
    requires OutputsOf(out, es, false) && LeafEdge(order, out, symbols, arity, e)
    ensures Parents(es, e)
  {
    forall p
      ensures p in e.parents <==> exists t :: t in es && t.info.symbol == e.symbol && t.src == p && Picks(t.children, e.children)
    {
      if exists t :: t in es && t.info.symbol == e.symbol && t.src == p && Picks(t.children, e.children) {
        var t :| t in es && t.info.symbol == e.symbol && t.src == p && Picks(t.children, e.children);
        assert t.children == [];
      }
    }
  }

  /** Leaf edges and the edges of the loop together make what Subsets asks for. */
  lemma Assembled(es: seq<Transition>, order: seq<string>, out: map<string, Macro>, symbols: seq<string>,
                  arity: map<string, nat>, initial: seq<Macro>, leaves: seq<DetEdge>, doneSet: seq<Macro>, found: seq<DetEdge>)
    requires OutputsOf(out, es, false) && Elems(order) == out.Keys && Elems(symbols) == arity.Keys
    requires forall e :: e in leaves <==> LeafEdge(order, out, symbols, arity, e)
    requires PairsDistinct(leaves)
    requires forall M :: M in initial <==> exists e :: e in leaves && e.parents == M
    requires |doneSet| >= |initial| && doneSet[..|initial|] == initial
    requires PairsDistinct(found)
    requires forall e :: e in found ==> Correct(es, e) && Shaped(arity, doneSet, e) && e.parents in doneSet
    requires Complete(arity, doneSet, found)
    ensures Subsets(es, arity, doneSet, leaves + found)
  {
    var edges := leaves + found;
    forall i, j | 0 <= i < j < |edges|
      ensures edges[i].symbol != edges[j].symbol || edges[i].children != edges[j].children
    {
      if j < |leaves| {
      } else if i >= |leaves| {
        assert edges[i] == found[i - |leaves|] && edges[j] == found[j - |leaves|];
      } else {
        assert edges[i] in leaves && edges[j] in found;
      }
    }
    forall e | e in edges
      ensures e.parents in doneSet && (forall i :: 0 <= i < |e.children| ==> e.children[i] in doneSet) && Parents(es, e)
    {
      if e in leaves {
        LeavesParents(es, order, out, symbols, arity, e);
        assert e.parents in initial;
        var k :| 0 <= k < |initial| && initial[k] == e.parents;
        assert doneSet[k] == e.parents;
      }
    }
    forall s | s in arity && arity[s] == 0
      ensures HasEdge(edges, s, [])
    {
      if s in out {
        assert s in order;
        assert DetEdge(out[s], s, []) in leaves;
      } else {
        assert DetEdge([], s, []) in leaves;
      }
    }
    forall s, t | s in arity && |t| == arity[s] && t != [] && (forall i :: 0 <= i < |t| ==> t[i] in doneSet)
      ensures HasEdge(edges, s, t)
    {
      assert HasEdge(found, s, t);
    }
  }

  /** Every symbol of a leaf edge or of a loop edge is in the alphabet. */
  lemma InAlphabet(es: seq<Transition>, order: seq<string>, out: map<string, Macro>, symbols: seq<string>,
                   arity: map<string, nat>, leaves: seq<DetEdge>, doneSet: seq<Macro>, found: seq<DetEdge>)
    requires OutputsOf(out, es, false) && forall e :: e in es ==> e.info.symbol in arity
    requires forall e :: e in leaves ==> LeafEdge(order, out, symbols, arity, e)
    requires forall e :: e in found ==> Shaped(arity, doneSet, e)
    ensures forall e :: e in leaves + found ==> e.symbol in arity
  {
    forall e | e in leaves && e.symbol in out
      ensures e.symbol in arity
    {
      var p := out[e.symbol][0];
      assert p in out[e.symbol];
      var t :| t in es && t.children == [] && t.info.symbol == e.symbol && t.src == p;
    }
  }

  /**
   * The lookup, the leaf edges and the work-list loop of
   * `tree_aut_determinization`: on success, the explored macrostates and
   * all edges, leaf edges first.
   */
  method Construct(es: seq<Transition>, symbols: seq<string>, arity: map<string, nat>, lookup: Lookup, fuel: nat)
    returns (ok: bool, doneSet: seq<Macro>, edges: seq<DetEdge>)
    requires Distinct(symbols) && Elems(symbols) == arity.Keys && lookup.Keys == Elems(symbols)
    requires LooksUp(lookup, es) && forall e :: e in es ==> e.info.symbol in arity
    ensures ok ==> Subsets(es, arity, doneSet, edges) && forall e :: e in edges ==> e.symbol in arity
  {
    var order, out := GetOutputEdges(es, false);
    var initial, leaves := OutEdges(order, out, symbols, arity);
    var found;
    ok, doneSet, found := Explore(es, symbols, arity, lookup, initial, fuel);
    edges := leaves + found;
    if ok {
      Assembled(es, order, out, symbols, arity, initial, leaves, doneSet, found);
      InAlphabet(es, order, out, symbols, arity, leaves, doneSet, found);
    }
  }

  /** Where `tree_aut_determinization` ends. */
  datatype Outcome = UnknownSymbol | OutOfFuel | Determinized(aut: TreeAut)

  /**
   * `tree_aut_determinization`: the lookup, the leaf edges, the work-list
   * loop (at most fuel rounds), the roots and the relation of the result.
   * An edge whose symbol is not in the alphabet raises KeyError
   * (UnknownSymbol). On success the explored macrostates and their edges
   * satisfy Subsets; the roots of the result are the names of the explored
   * macrostates holding an input root, and its transitions are the named
   * edges grouped by source.
   */
  method TreeAutDeterminization(ta: TreeAut, symbols: seq<string>, arity: map<string, nat>, fuel: nat)
    returns (r: Outcome, ghost doneSet: seq<Macro>, ghost edges: seq<DetEdge>)
    requires ta.Valid()
    requires Distinct(symbols) && Elems(symbols) == arity.Keys
    ensures r.UnknownSymbol? <==> exists e :: e in ta.Edges() && e.info.symbol !in arity
    ensures r.Determinized? ==> fresh(r.aut) && r.aut.Valid() && r.aut.name == "determinized(" + ta.name + ")"
    ensures r.Determinized? ==> Subsets(ta.Edges(), arity, doneSet, edges)
    ensures r.Determinized? ==> forall x :: x in r.aut.roots <==>
      exists M :: M in doneSet && x == NameSetString(M) && exists q :: q in ta.roots && q in M
    ensures r.Determinized? ==> forall e :: e in edges ==> e.symbol in arity
    ensures r.Determinized? ==> Groups(r.aut.keys, r.aut.transitions, NamedAll(edges, arity))
  {
    var es := ta.Edges();
    var lookup := CreateLookup(es, symbols);
    if lookup.None? {
      return UnknownSymbol, [], [];
    }
    var ok, explored, all := Construct(es, symbols, arity, lookup.value, fuel);
    doneSet, edges := explored, all;
    if !ok {
      return OutOfFuel, doneSet, edges;
    }
    var roots := CreateRoots(explored, ta.roots);
    var relation := CreateRelation(all, arity);
    var aut := new TreeAut(roots, relation.value.0, relation.value.1, "determinized(" + ta.name + ")", 0);
    return Determinized(aut), doneSet, edges;
  }

  // ---------------------------------------------------------------------
  // The language is kept

  /** A run of the input: the tree reaches q bottom-up over the edges es. */
  ghost predicate RunsTo(es: seq<Transition>, t: Tree, q: string)
    decreases t, 1
  {
    exists e :: e in es && e.src == q && e.info.symbol == t.value && ChildrenRunTo(es, t, e.children)
  }

  /** The subtrees of t reach the states cs, one each. */
  ghost predicate ChildrenRunTo(es: seq<Transition>, t: Tree, cs: seq<string>)
    decreases t, 0
  {
    |cs| == |t.children| && forall i :: 0 <= i < |cs| ==> RunsTo(es, t.children[i], cs[i])
  }

  /** Every node's symbol is in the alphabet with the node's number of children as its arity. */
  ghost predicate OverAlphabet(arity: map<string, nat>, t: Tree)
    decreases t
  {
    t.value in arity && arity[t.value] == |t.children|
    && forall i :: 0 <= i < |t.children| ==> OverAlphabet(arity, t.children[i])
  }

  /** The parents of the first edge with the symbol and the tuple. */
  function EdgeFor(edges: seq<DetEdge>, s: string, t: seq<Macro>): Option<Macro>
  {
    if edges == [] then None
    else if edges[0].symbol == s && edges[0].children == t then Some(edges[0].parents)
    else EdgeFor(edges[1..], s, t)
  }

  /** The macrostate the edges of the result assign to a tree bottom-up. */
  function DetRun(edges: seq<DetEdge>, t: Tree): Option<Macro>
    decreases t, 1
  {
    match DetChildren(edges, t, |t.children|)
    case None => None
    case Some(ms) => EdgeFor(edges, t.value, ms)
  }

  /** The macrostates of the first k subtrees of t. */
  function DetChildren(edges: seq<DetEdge>, t: Tree, k: nat): Option<seq<Macro>>
    requires k <= |t.children|
    decreases t, 0, k
  {
    if k == 0 then Some([])
    else
      match DetChildren(edges, t, k - 1)
      case None => None
      case Some(ms) =>
        match DetRun(edges, t.children[k - 1])
        case None => None
        case Some(M) => Some(ms + [M])
  }

  /** With no pair repeated, the edge found for a pair is the one edge of that pair. */
  lemma {:induction false} EdgeForUnique(edges: seq<DetEdge>, e: DetEdge)
    requires PairsDistinct(edges) && e in edges
    ensures EdgeFor(edges, e.symbol, e.children) == Some(e.parents)
  {
    if edges[0] != e {
      var j :| 0 <= j < |edges| && edges[j] == e;
      assert edges[0].symbol != e.symbol || edges[0].children != e.children;
      assert edges[1..][j - 1] == e;
      EdgeForUnique(edges[1..], e);
    }
  }

  /** A pick from the macrostates of the subtrees is a list of states the subtrees reach. */
  lemma PicksRun(es: seq<Transition>, t: Tree, ms: seq<Macro>, cs: seq<string>)
    requires |ms| == |t.children|
    requires forall i :: 0 <= i < |ms| ==> forall q :: q in ms[i] <==> RunsTo(es, t.children[i], q)
    ensures Picks(cs, ms) <==> ChildrenRunTo(es, t, cs)
  {
  }

  lemma {:induction false} ChildrenReach(es: seq<Transition>, arity: map<string, nat>, doneSet: seq<Macro>,
                                         edges: seq<DetEdge>, t: Tree, k: nat)
    requires Subsets(es, arity, doneSet, edges) && OverAlphabet(arity, t) && k <= |t.children|
    ensures DetChildren(edges, t, k).Some?
    ensures var ms := DetChildren(edges, t, k).value;
      |ms| == k && forall i :: 0 <= i < k ==> ms[i] in doneSet && forall q :: q in ms[i] <==> RunsTo(es, t.children[i], q)
    decreases t, 0, k
  {
    if k > 0 {
      ChildrenReach(es, arity, doneSet, edges, t, k - 1);
      DeterminizedRun(es, arity, doneSet, edges, t.children[k - 1]);
    }
  }

  /**
   * The result keeps the language: on every tree over the alphabet its
   * edges reach an explored macrostate, which holds exactly the states the
   * input reaches; so the tree is accepted at a root of the result exactly
   * when the input accepts it at one of its roots.
   */
  lemma {:induction false} DeterminizedRun(es: seq<Transition>, arity: map<string, nat>, doneSet: seq<Macro>,
                                           edges: seq<DetEdge>, t: Tree)
    requires Subsets(es, arity, doneSet, edges) && OverAlphabet(arity, t)
    ensures DetRun(edges, t).Some? && DetRun(edges, t).value in doneSet
    ensures forall q :: q in DetRun(edges, t).value <==> RunsTo(es, t, q)
    decreases t, 1
  {
    ChildrenReach(es, arity, doneSet, edges, t, |t.children|);
    var ms := DetChildren(edges, t, |t.children|).value;
    assert HasEdge(edges, t.value, ms);
    var e :| e in edges && e.symbol == t.value && e.children == ms;
    EdgeForUnique(edges, e);
    forall q
      ensures q in e.parents <==> RunsTo(es, t, q)
    {
      forall cs
        ensures Picks(cs, ms) <==> ChildrenRunTo(es, t, cs)
      {
        PicksRun(es, t, ms, cs);
      }
    }
  }
}
