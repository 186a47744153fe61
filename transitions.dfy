/**
 * Edges and transitions of a tree automaton. An edge carries a symbol, one
 * optional box name per child (None is a short edge part) and a variable
 * name ("" for none); a transition leads from a source state over an edge to
 * a list of child states.
 */
module Transitions {
  import opened Optional

  /** `TEdge`. */
  datatype Edge = Edge(symbol: string, boxArray: seq<Option<string>>, variable: string)

  /** `TTransition`. */
  datatype Transition = Transition(src: string, info: Edge, children: seq<string>)

  /** `shorten_edge`: every part of the hyper-edge becomes short; arity, symbol and variable stay. */
  function ShortenEdge(e: Edge): (r: Edge)
    ensures |r.boxArray| == |e.boxArray| && forall i :: 0 <= i < |r.boxArray| ==> r.boxArray[i].None?
    ensures r.symbol == e.symbol && r.variable == e.variable
  {
    e.(boxArray := seq(|e.boxArray|, _ => None))
  }

  /** Shortening twice is shortening once. */
  lemma ShortenEdgeIdempotent(e: Edge)
    ensures ShortenEdge(ShortenEdge(e)) == ShortenEdge(e)
  {
    var once := ShortenEdge(e);
    assert ShortenEdge(once).boxArray == once.boxArray;
  }

  /** `is_self_loop`: the source is among the children. */
  predicate IsSelfLoop(t: Transition)
  {
    t.src in t.children
  }

  /** The loop of `is_full_self_loop`: every child is s. */
  predicate AllAre(cs: seq<string>, s: string)
  {
    cs == [] || (cs[0] == s && AllAre(cs[1..], s))
  }

  /** `is_full_self_loop`: there are children and each of them is the source. */
  predicate IsFullSelfLoop(t: Transition)
  {
    t.children != [] && AllAre(t.children, t.src)
  }

  lemma {:induction false} AllAreMeaning(cs: seq<string>, s: string)
    ensures AllAre(cs, s) <==> forall i :: 0 <= i < |cs| ==> cs[i] == s
  {
    if cs != [] {
      AllAreMeaning(cs[1..], s);
      assert forall i :: 1 <= i < |cs| ==> cs[i] == cs[1..][i - 1];
    }
  }

  /** A full self loop is false without children and otherwise means every child is the source. */
  lemma FullSelfLoopMeaning(t: Transition)
    ensures IsFullSelfLoop(t) <==> |t.children| > 0 && forall i :: 0 <= i < |t.children| ==> t.children[i] == t.src
  {
    AllAreMeaning(t.children, t.src);
  }

  /** A full self loop is a self loop. */
  lemma FullSelfLoopIsSelfLoop(t: Transition)
    requires IsFullSelfLoop(t)
    ensures IsSelfLoop(t)
  {
    assert t.children[0] == t.src;
  }
}
