/**
 * Negation of ABDDs: every box label is replaced by its negated counterpart
 * (0 and 1 swap in the box's outputs; the port boxes stay), the two terminals
 * swap, and negated nodes are shared through the unique table and remembered
 * in a negation cache keyed by node identity.
 */
module Negation {
  import opened Optional
  import opened AbddNodeCache
  import Seqs

  /** The labels `negate_box_label` knows: no box (a short edge) and the seven box names. */
  predicate KnownLabel(b: Option<string>)
  {
    b.None? || b.value in {"X", "L0", "L1", "H0", "H1", "LPort", "HPort"}
  }

  /** `negate_box_label`; None stands for the KeyError of any other label. */
  function NegateBoxLabel(b: Option<string>): (r: Option<Option<string>>)
    ensures r.Some? <==> KnownLabel(b)
  {
    match b
    case None => Some(None)
    case Some(name) =>
      if name == "L0" then Some(Some("L1"))
      else if name == "L1" then Some(Some("L0"))
      else if name == "H0" then Some(Some("H1"))
      else if name == "H1" then Some(Some("H0"))
      else if name in {"X", "LPort", "HPort"} then Some(b)
      else None
  }

  /** Negating a label twice gives it back. */
  lemma NegateBoxLabelInvolution(b: Option<string>)
    requires KnownLabel(b)
    ensures KnownLabel(NegateBoxLabel(b).value) && NegateBoxLabel(NegateBoxLabel(b).value) == Some(b)
  {
  }

  /** No box, X and the port boxes are fixed; L0/L1 and H0/H1 swap. */
  lemma NegateBoxLabelCases(b: Option<string>)
    requires KnownLabel(b)
    ensures NegateBoxLabel(b).value == b <==> b in {None, Some("X"), Some("LPort"), Some("HPort")}
    ensures b in {Some("L0"), Some("L1")} <==> NegateBoxLabel(b).value in {Some("L0"), Some("L1")}
    ensures b in {Some("H0"), Some("H1")} <==> NegateBoxLabel(b).value in {Some("H0"), Some("H1")}
  {
  }

  /** A node whose boxes, and those of every node below it, are known labels; the walk down it ends. */
  ghost predicate Negatable(n: AbddNode)
    decreases n.level
  {
    && KnownLabel(n.lowBox) && KnownLabel(n.highBox)
    && (forall c :: c in n.low ==> c.level < n.level && Negatable(c))
    && (forall c :: c in n.high ==> c.level < n.level && Negatable(c))
  }

  /** The targets of ns, each negated through the cache nc. */
  ghost predicate MappedBy(ns: seq<AbddNode>, ms: seq<AbddNode>, nc: map<AbddNode, AbddNode>)
  {
    |ms| == |ns| && forall i :: 0 <= i < |ns| ==> ns[i] in nc && nc[ns[i]] == ms[i]
  }

  /** m is a negation of n: same variable, negated boxes, and targets that are the cached negations of n's. */
  ghost predicate NegEntry(n: AbddNode, m: AbddNode, nc: map<AbddNode, AbddNode>)
  {
    && m.variable == n.variable
    && NegateBoxLabel(n.lowBox) == Some(m.lowBox) && NegateBoxLabel(n.highBox) == Some(m.highBox)
    && MappedBy(n.low, m.low, nc) && MappedBy(n.high, m.high, nc)
  }

  /** nc2 keeps every entry of nc. */
  ghost predicate Extends(nc: map<AbddNode, AbddNode>, nc2: map<AbddNode, AbddNode>)
  {
    forall n :: n in nc ==> n in nc2 && nc2[n] == nc[n]
  }

  /** Every cached pair is a node and its negation. */
  ghost predicate Negates(nc: map<AbddNode, AbddNode>)
  {
    forall n :: n in nc ==> NegEntry(n, nc[n], nc)
  }

  lemma ExtendsTrans(a: map<AbddNode, AbddNode>, b: map<AbddNode, AbddNode>, c: map<AbddNode, AbddNode>)
    requires Extends(a, b) && Extends(b, c)
    ensures Extends(a, c)
  {
  }

  lemma MappedGrows(ns: seq<AbddNode>, ms: seq<AbddNode>, nc: map<AbddNode, AbddNode>, nc2: map<AbddNode, AbddNode>)
    requires MappedBy(ns, ms, nc) && Extends(nc, nc2)
    ensures MappedBy(ns, ms, nc2)
  {
  }

  lemma MappedSnoc(ns: seq<AbddNode>, ms: seq<AbddNode>, n: AbddNode, m: AbddNode, nc: map<AbddNode, AbddNode>)
    requires MappedBy(ns, ms, nc) && n in nc && nc[n] == m
    ensures MappedBy(ns + [n], ms + [m], nc)
  {
  }

  /** Entries stay negations when the cache grows. */
  lemma NegEntryGrows(n: AbddNode, m: AbddNode, nc: map<AbddNode, AbddNode>, nc2: map<AbddNode, AbddNode>)
    requires NegEntry(n, m, nc) && Extends(nc, nc2)
    ensures NegEntry(n, m, nc2)
  {
  }

  /**
   * The parts of the apply helper negation uses: the negation cache, the
   * unique table and the node counter.
   */
  class NegationHelper {
    var negationCache: map<AbddNode, AbddNode>
    const nodeCache: NodeCache
    var counter: int

    /** The unique table is valid and every cached pair is a node and its negation. */
    ghost predicate Valid()
      reads this, nodeCache
    {
      nodeCache.Valid() && Negates(negationCache)
    }

    /** The negation cache starts with the two terminals swapped; the counter continues the table's. */
    constructor (cache: NodeCache)
      requires cache.Valid() && cache.terminal0.variable == cache.terminal1.variable
      requires cache.terminal0.lowBox == cache.terminal0.highBox == None && cache.terminal0.low == cache.terminal0.high == []
      requires cache.terminal1.lowBox == cache.terminal1.highBox == None && cache.terminal1.low == cache.terminal1.high == []
      ensures Valid() && nodeCache == cache && counter == cache.counter
      ensures negationCache == map[cache.terminal0 := cache.terminal1, cache.terminal1 := cache.terminal0]
    {
      nodeCache := cache;
      negationCache := map[cache.terminal0 := cache.terminal1, cache.terminal1 := cache.terminal0];
      counter := cache.counter;
    }

    /**
     * `negate_subtree`: the cached negation of node, or a node with the same
     * variable, the negated boxes and the negated targets, taken from the
     * unique table when it holds one and otherwise created with the next
     * index and inserted. Every node created adds one key to the table.
     */
    method NegateSubtree(node: AbddNode) returns (r: AbddNode)
      requires Valid() && Negatable(node)
      modifies this`negationCache, this`counter, nodeCache`cache, nodeCache`order
      ensures Valid() && Extends(old(negationCache), negationCache)
      ensures node in negationCache && negationCache[node] == r && NegEntry(node, r, negationCache)
      ensures counter - |nodeCache.order| == old(counter - |nodeCache.order|)
      ensures node in old(negationCache) ==> r == old(negationCache[node]) && counter == old(counter) && nodeCache.cache == old(nodeCache.cache)
      ensures node !in old(negationCache) ==> KeyOf(r) in nodeCache.cache && nodeCache.cache[KeyOf(r)] == r
      ensures forall n :: n in negationCache && n !in old(negationCache) ==> n.level <= node.level
      decreases node.level, 1
    {
      if node in negationCache {
        return negationCache[node];
      }
      var negLow := NegateAll(node.low, node.level);
      ghost var nc1 := negationCache;
      var negHigh := NegateAll(node.high, node.level);
      MappedGrows(node.low, negLow, nc1, negationCache);
      ExtendsTrans(old(negationCache), nc1, negationCache);
      var lowBox := NegateBoxLabel(node.lowBox).value;
      var highBox := NegateBoxLabel(node.highBox).value;
      r := MakeUnique(node.variable, node.isLeaf, lowBox, negLow, highBox, negHigh);
      ghost var nc2 := negationCache;
      Cached(node, r);
      ExtendsTrans(old(negationCache), nc2, negationCache);
    }

    /**
     * The end of `negate_subtree`: a node with these fields gets the next
     * index; the unique table's node with the same key replaces it, and
     * otherwise it is inserted and the counter advances.
     */
    method MakeUnique(v: int, leaf: bool, lb: Option<string>, lo: seq<AbddNode>, hb: Option<string>, hi: seq<AbddNode>) returns (r: AbddNode)
      requires nodeCache.Valid()
      modifies this`counter, nodeCache`cache, nodeCache`order
      ensures nodeCache.Valid() && KeyOf(r) == Key(v, None, lb, lo, hb, hi)
      ensures KeyOf(r) in nodeCache.cache && nodeCache.cache[KeyOf(r)] == r
      ensures KeyOf(r) in old(nodeCache.cache) ==> r == old(nodeCache.cache)[KeyOf(r)] && counter == old(counter) && nodeCache.cache == old(nodeCache.cache) && nodeCache.order == old(nodeCache.order)
      ensures KeyOf(r) !in old(nodeCache.cache) ==>
        fresh(r) && r.node == old(counter) && r.isLeaf == leaf && counter == old(counter) + 1
        && nodeCache.cache == old(nodeCache.cache)[KeyOf(r) := r] && nodeCache.order == old(nodeCache.order) + [KeyOf(r)]
    {
      var newnode := new AbddNode(counter, v, leaf, lb, lo, hb, hi);
      var hit := nodeCache.FindNode(newnode);
      if hit.None? {
        counter := counter + 1;
        nodeCache.InsertNode(newnode);
        r := newnode;
      } else {
        r := hit.value;
      }
    }

    /** Records r as the negation of node, which it is by its variable, boxes and targets. */
    method Cached(node: AbddNode, r: AbddNode)
      requires Valid() && node !in negationCache
      requires r.variable == node.variable
      requires NegateBoxLabel(node.lowBox) == Some(r.lowBox) && NegateBoxLabel(node.highBox) == Some(r.highBox)
      requires MappedBy(node.low, r.low, negationCache) && MappedBy(node.high, r.high, negationCache)
      modifies this`negationCache
      ensures Valid() && negationCache == old(negationCache)[node := r]
    {
      var nc := negationCache[node := r];
      forall n | n in nc
        ensures NegEntry(n, nc[n], nc)
      {
        NegEntryGrows(n, nc[n], negationCache, nc);
      }
      assert Negates(nc);
      negationCache := nc;
    }

    /** The list comprehension over a node's targets: each target negated, in order. */
    method NegateAll(ns: seq<AbddNode>, ghost bound: nat) returns (ms: seq<AbddNode>)
      requires Valid() && forall c :: c in ns ==> c.level < bound && Negatable(c)
      modifies this`negationCache, this`counter, nodeCache`cache, nodeCache`order
      ensures Valid() && Extends(old(negationCache), negationCache) && MappedBy(ns, ms, negationCache)
      ensures counter - |nodeCache.order| == old(counter - |nodeCache.order|)
      ensures forall n :: n in negationCache && n !in old(negationCache) ==> n.level < bound
      decreases bound, 0
    {
      ms := [];
      ghost var start := negationCache;
      ghost var gap := counter - |nodeCache.order|;
      var i := 0;
      while i < |ns|
        invariant 0 <= i <= |ns|
        invariant Valid() && Extends(start, negationCache) && MappedBy(ns[..i], ms, negationCache)
        invariant counter - |nodeCache.order| == gap
        invariant forall n :: n in negationCache && n !in start ==> n.level < bound
      {
        ghost var nc := negationCache;
        var m := NegateSubtree(ns[i]);
        MappedGrows(ns[..i], ms, nc, negationCache);
        MappedSnoc(ns[..i], ms, ns[i], m, negationCache);
        ExtendsTrans(start, nc, negationCache);
        Seqs.PrefixSnoc(ns, i);
        ms := ms + [m];
        i := i + 1;
      }
      assert ns[..i] == ns;
    }
  }
}
