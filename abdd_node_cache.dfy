/**
 * The unique table of ABDD nodes. A node is identified by its variable, its
 * leaf value, and the box and target nodes (by identity) of its low and high
 * edges; the table maps such a key to the one node that has it, so that
 * structurally equal nodes are shared. Node objects keep their index in a
 * mutable field, which `refresh_nodes` renumbers.
 */
module AbddNodeCache {
  import opened Optional

  /**
   * An ABDD node. Only its index is updated once it exists; the level is a
   * ghost height above the leaves, which bounds every walk down the node.
   */
  class AbddNode {
    var node: int
    const variable: int
    const isLeaf: bool
    const leafVal: Option<int>
    const lowBox: Option<string>
    const low: seq<AbddNode>
    const highBox: Option<string>
    const high: seq<AbddNode>
    ghost const level: nat

    /** A terminal node: `ABDDNode(index)` followed by `set_as_leaf(value)`. */
    constructor Terminal(index: int, value: int)
      ensures node == index && variable == 0 && isLeaf && leafVal == Some(value)
      ensures lowBox == None && low == [] && highBox == None && high == [] && level == 0
    {
      node := index;
      variable := 0;
      isLeaf := true;
      leafVal := Some(value);
      lowBox := None;
      low := [];
      highBox := None;
      high := [];
      level := 0;
    }

    /** `ABDDNode(index)` with its variable, leaf flag, boxes and targets set afterwards; the leaf value stays unset. */
    constructor (index: int, v: int, leaf: bool, lb: Option<string>, lo: seq<AbddNode>, hb: Option<string>, hi: seq<AbddNode>)
      ensures node == index && variable == v && isLeaf == leaf && leafVal == None
      ensures lowBox == lb && low == lo && highBox == hb && high == hi
      ensures forall c :: c in lo || c in hi ==> c.level < level
    {
      node := index;
      variable := v;
      isLeaf := leaf;
      leafVal := None;
      lowBox := lb;
      low := lo;
      highBox := hb;
      high := hi;
      level := 1 + MaxLevel(lo + hi);
    }
  }

  /** The highest level among some nodes (0 for none). */
  ghost function MaxLevel(ns: seq<AbddNode>): (m: nat)
    ensures forall c :: c in ns ==> c.level <= m
  {
    if ns == [] then 0
    else
      var rest := MaxLevel(ns[1..]);
      assert forall c :: c in ns ==> c == ns[0] || c in ns[1..];
      if ns[0].level > rest then ns[0].level else rest
  }

  /** The unique-table key: variable, leaf value, low box and targets, high box and targets. */
  datatype Key = Key(variable: int, leafVal: Option<int>, lowBox: Option<string>, low: seq<AbddNode>, highBox: Option<string>, high: seq<AbddNode>)

  /** The key `insert_node` and `find_node` compute for a node. */
  function KeyOf(n: AbddNode): Key
  {
    Key(n.variable, n.leafVal, n.lowBox, n.low, n.highBox, n.high)
  }

  /** The number of inner nodes among ns. */
  function InnerCount(ns: seq<AbddNode>): (k: nat)
    ensures k <= |ns|
  {
    if ns == [] then 0 else InnerCount(ns[..|ns| - 1]) + (if ns[|ns| - 1].isLeaf then 0 else 1)
  }

  /** The nodes of a sequence, as a set. */
  function Members(vs: seq<AbddNode>): set<AbddNode>
  {
    set j | 0 <= j < |vs| :: vs[j]
  }

  /** The table's values in the order the dictionary holds its keys. */
  function ValuesIn(order: seq<Key>, cache: map<Key, AbddNode>): (vs: seq<AbddNode>)
    requires forall i :: 0 <= i < |order| ==> order[i] in cache
    ensures |vs| == |order| && forall i :: 0 <= i < |order| ==> vs[i] == cache[order[i]]
  {
    if order == [] then [] else ValuesIn(order[..|order| - 1], cache) + [cache[order[|order| - 1]]]
  }

  /** The keys held in an order. */
  function KeySet(order: seq<Key>): set<Key>
  {
    set i | 0 <= i < |order| :: order[i]
  }

  lemma KeySetSnoc(order: seq<Key>, k: Key)
    ensures KeySet(order + [k]) == KeySet(order) + {k}
  {
    var o := order + [k];
    assert forall i :: 0 <= i < |order| ==> o[i] == order[i];
    assert o[|order|] == k;
  }

  /** `ABDDNodeCacheClass`: the table, the order of its keys, the two terminals and the node counter. */
  class NodeCache {
    var cache: map<Key, AbddNode>
    var order: seq<Key>
    const terminal0: AbddNode
    const terminal1: AbddNode
    var counter: int

    /** The keys are held once each, in order; every node sits under its own key. */
    ghost predicate Valid()
      reads this
    {
      && cache.Keys == KeySet(order)
      && (forall i, j :: 0 <= i < j < |order| ==> order[i] != order[j])
      && (forall i :: 0 <= i < |order| ==> KeyOf(cache[order[i]]) == order[i])
    }

    /** Every node sits under its own key. */
    lemma Keyed(k: Key)
      requires Valid() && k in cache
      ensures KeyOf(cache[k]) == k
    {
      assert k in KeySet(order);
      var i :| 0 <= i < |order| && order[i] == k;
    }

    /** The table's nodes, in the order of its keys. */
    ghost function Nodes(): (vs: seq<AbddNode>)
      reads this
      requires Valid()
      ensures |vs| == |order|
    {
      ValuesIn(order, cache)
    }

    /** A new table holds the terminals 0 and 1 under their keys, and the counter is 2. */
    constructor ()
      ensures Valid() && counter == 2
      ensures terminal0.isLeaf && terminal0.leafVal == Some(0) && terminal0.node == 0
      ensures terminal1.isLeaf && terminal1.leafVal == Some(1) && terminal1.node == 1
      ensures cache == map[KeyOf(terminal0) := terminal0, KeyOf(terminal1) := terminal1]
      ensures order == [KeyOf(terminal0), KeyOf(terminal1)]
    {
      var zero := new AbddNode.Terminal(0, 0);
      var one := new AbddNode.Terminal(1, 1);
      terminal0 := zero;
      terminal1 := one;
      cache := map[KeyOf(zero) := zero, KeyOf(one) := one];
      order := [KeyOf(zero), KeyOf(one)];
      counter := 2;
      KeySetSnoc([KeyOf(zero)], KeyOf(one));
      KeySetSnoc([], KeyOf(zero));
      assert KeySet([]) == {};
      assert [] + [KeyOf(zero)] == [KeyOf(zero)];
      assert [KeyOf(zero)] + [KeyOf(one)] == [KeyOf(zero), KeyOf(one)];
    }

    /** `insert_node`: the node is stored under its key; a new key goes to the end of the order. */
    method InsertNode(n: AbddNode)
      requires Valid()
      modifies this`cache, this`order
      ensures Valid()
      ensures cache == old(cache)[KeyOf(n) := n]
      ensures order == if KeyOf(n) in old(cache) then old(order) else old(order) + [KeyOf(n)]
    {
      var lookup := KeyOf(n);
      if lookup !in cache {
        KeySetSnoc(order, lookup);
        order := order + [lookup];
      }
      cache := cache[lookup := n];
    }

    /** `find_node`: the stored node with the same key as n, so with the same variable, leaf value, boxes and targets. */
    method FindNode(n: AbddNode) returns (r: Option<AbddNode>)
      requires Valid()
      ensures r.Some? <==> KeyOf(n) in cache
      ensures r.Some? ==> r.value == cache[KeyOf(n)] && KeyOf(r.value) == KeyOf(n)
    {
      var lookup := KeyOf(n);
      if lookup in cache {
        Keyed(lookup);
        return Some(cache[lookup]);
      }
      return None;
    }

    /**
     * `refresh_nodes`: the inner nodes are numbered 2, 3, ... in the order of
     * the table and the counter is set past the last number; leaves keep
     * their numbers.
     */
    method RefreshNodes()
      requires Valid()
      modifies this`counter, Members(ValuesIn(order, cache))
      ensures Valid() && cache == old(cache) && order == old(order)
      ensures counter == 2 + InnerCount(Nodes())
      ensures forall i :: 0 <= i < |order| && Nodes()[i].isLeaf ==> Nodes()[i].node == old(Nodes()[i].node)
      ensures forall i :: 0 <= i < |order| && !Nodes()[i].isLeaf ==> Nodes()[i].node == 2 + InnerCount(Nodes()[..i])
    {
      var vs := ValuesIn(order, cache);
      DistinctNodes();
      counter := Renumber(vs);
    }

    /** No node sits under two keys, so the table's nodes are distinct. */
    lemma DistinctNodes()
      requires Valid()
      ensures forall i, j :: 0 <= i < j < |order| ==> Nodes()[i] != Nodes()[j]
    {
      var vs := Nodes();
      forall i, j | 0 <= i < j < |order|
        ensures vs[i] != vs[j]
      {
        assert order[i] in cache && order[j] in cache;
        assert KeyOf(vs[i]) == order[i] && KeyOf(vs[j]) == order[j];
      }
    }
  }

  /** The inner nodes of vs, which are distinct, numbered 2, 3, ... in order; the result is the next number. */
  method Renumber(vs: seq<AbddNode>) returns (c: int)
    requires forall a, b :: 0 <= a < b < |vs| ==> vs[a] != vs[b]
    modifies Members(vs)
    ensures c == 2 + InnerCount(vs)
    ensures forall j :: 0 <= j < |vs| && vs[j].isLeaf ==> vs[j].node == old(vs[j].node)
    ensures forall j :: 0 <= j < |vs| && !vs[j].isLeaf ==> vs[j].node == 2 + InnerCount(vs[..j])
  {
    c := 2;
    var i := 0;
    while i < |vs|
      invariant 0 <= i <= |vs|
      invariant c == 2 + InnerCount(vs[..i])
      invariant forall j :: 0 <= j < i && !vs[j].isLeaf ==> vs[j].node == 2 + InnerCount(vs[..j])
      invariant forall j :: 0 <= j < |vs| && (j >= i || vs[j].isLeaf) ==> vs[j].node == old(vs[j].node)
    {
      assert vs[..i + 1][..i] == vs[..i];
      if !vs[i].isLeaf {
        vs[i].node := c;
        c := c + 1;
      }
      i := i + 1;
    }
    assert vs[..i] == vs;
  }

  /** After `insert_node(n)`, `find_node` of any node with n's key gives n. */
  lemma FindAfterInsert(cache: map<Key, AbddNode>, n: AbddNode, m: AbddNode)
    requires KeyOf(m) == KeyOf(n)
    ensures KeyOf(m) in cache[KeyOf(n) := n] && cache[KeyOf(n) := n][KeyOf(m)] == n
  {
  }
}
