/**
 * The reference apply of two binary decision diagrams: both diagrams are
 * walked together in the order of a variable index, leaves are combined by a
 * Boolean operation on Python values, and result nodes are shared through a
 * cache keyed by terminal value or by (variable, low name, high name). Nodes
 * are values here; a node's name stands for the object identity Python uses.
 */
module BddApply {
  import opened Optional
  import Numerals
  import opened PyText
  import StringManipulation

  // ---------------------------------------------------------------------
  // Variable order
  // ---------------------------------------------------------------------

  /**
   * The index dictionary the loop of `create_var_order_for_apply` builds from
   * acc with next index idx: each name not yet present gets the next index.
   */
  function OrderFrom(acc: map<string, int>, idx: int, vs: seq<string>): (r: map<string, int>)
    ensures acc.Keys <= r.Keys && forall x :: x in vs ==> x in r
    decreases |vs|
  {
    if vs == [] then acc
    else if vs[0] in acc then OrderFrom(acc, idx, vs[1..])
    else OrderFrom(acc[vs[0] := idx], idx + 1, vs[1..])
  }

  /** `create_var_order_for_apply`: the sorted names, each numbered from 1 at its first occurrence. */
  method CreateVarOrderForApply(variables: seq<string>) returns (result: map<string, int>)
    ensures result == OrderFrom(map[], 1, StringManipulation.StateNameSort(variables))
  {
    var vs := StringManipulation.StateNameSort(variables);
    result := map[];
    var idx := 1;
    var i := 0;
    while i < |vs|
      invariant 0 <= i <= |vs|
      invariant OrderFrom(result, idx, vs[i..]) == OrderFrom(map[], 1, vs)
    {
      assert vs[i..][0] == vs[i] && vs[i..][1..] == vs[i + 1..];
      if vs[i] !in result {
        result := result[vs[i] := idx];
        idx := idx + 1;
      }
      i := i + 1;
    }
    assert vs[i..] == [];
  }

  /** The indices are 1, 2, ... with no gaps or repeats: distinct and each at most the number of names. */
  predicate Numbered(m: map<string, int>)
  {
    && (forall k :: k in m ==> 1 <= m[k] <= |m.Keys|)
    && (forall a, b :: a in m && b in m && m[a] == m[b] ==> a == b)
  }

  /** The order has the names already numbered, with their numbers, and every given name. */
  lemma {:induction false} OrderKeys(acc: map<string, int>, idx: int, vs: seq<string>)
    ensures var m := OrderFrom(acc, idx, vs);
      m.Keys == acc.Keys + (set x | x in vs) && forall k :: k in acc ==> m[k] == acc[k]
    decreases |vs|
  {
    if vs != [] {
      var acc' := if vs[0] in acc then acc else acc[vs[0] := idx];
      var idx' := if vs[0] in acc then idx else idx + 1;
      OrderKeys(acc', idx', vs[1..]);
      assert (set x | x in vs) == {vs[0]} + (set x | x in vs[1..]);
    }
  }

  /** Numbering continues without gaps or repeats. */
  lemma {:induction false} OrderNumbered(acc: map<string, int>, idx: int, vs: seq<string>)
    requires Numbered(acc) && idx == |acc.Keys| + 1
    ensures Numbered(OrderFrom(acc, idx, vs))
    decreases |vs|
  {
    if vs != [] && vs[0] !in acc {
      NumberedAdd(acc, vs[0], idx);
      OrderNumbered(acc[vs[0] := idx], idx + 1, vs[1..]);
    } else if vs != [] {
      OrderNumbered(acc, idx, vs[1..]);
    }
  }

  /** A new name numbered one past the names present keeps the numbering without gaps or repeats. */
  lemma NumberedAdd(acc: map<string, int>, x: string, idx: int)
    requires Numbered(acc) && x !in acc && idx == |acc.Keys| + 1
    ensures Numbered(acc[x := idx]) && |acc[x := idx].Keys| == idx
  {
    assert acc[x := idx].Keys == acc.Keys + {x};
  }

  /** A name seen first gets a smaller index than every name seen first after it, and every new name an index from idx on. */
  lemma {:induction false} OrderFirstSeen(acc: map<string, int>, idx: int, vs: seq<string>)
    requires forall k :: k in acc ==> acc[k] < idx
    ensures var m := OrderFrom(acc, idx, vs);
      && (forall i :: 0 <= i < |vs| && vs[i] !in acc ==> m[vs[i]] >= idx)
      && (forall i, j :: 0 <= i < j < |vs| && vs[j] !in acc && vs[j] !in vs[..j] ==> m[vs[i]] < m[vs[j]])
    decreases |vs|
  {
    if vs != [] {
      var x := vs[0];
      var acc' := if x in acc then acc else acc[x := idx];
      var idx' := if x in acc then idx else idx + 1;
      OrderFirstSeen(acc', idx', vs[1..]);
      OrderKeys(acc', idx', vs[1..]);
      OrderKeys(acc, idx, vs);
      var m := OrderFrom(acc, idx, vs);
      assert m == OrderFrom(acc', idx', vs[1..]);
      forall i | 0 <= i < |vs| && vs[i] !in acc
        ensures m[vs[i]] >= idx
      {
        if i > 0 && vs[i] != x {
          assert vs[i] == vs[1..][i - 1];
        }
      }
      forall i, j | 0 <= i < j < |vs| && vs[j] !in acc && vs[j] !in vs[..j]
        ensures m[vs[i]] < m[vs[j]]
      {
        assert vs[j] == vs[1..][j - 1];
        assert vs[..j][0] == x;
        if i > 0 {
          assert vs[1..][..j - 1] == vs[..j][1..];
          assert vs[i] == vs[1..][i - 1];
        }
      }
    }
  }

  /** The dictionary `create_var_order_for_apply` returns numbers the distinct names from 1 in sorted, first-seen order. */
  lemma VarOrderNumbered(variables: seq<string>)
    ensures var vs := StringManipulation.StateNameSort(variables);
      var m := OrderFrom(map[], 1, vs);
      && Numbered(m) && m.Keys == (set x | x in vs)
      && (forall i, j :: 0 <= i < j < |vs| && vs[j] !in vs[..j] ==> m[vs[i]] < m[vs[j]])
  {
    var vs := StringManipulation.StateNameSort(variables);
    OrderKeys(map[], 1, vs);
    OrderNumbered(map[], 1, vs);
    OrderFirstSeen(map[], 1, vs);
  }

  // ---------------------------------------------------------------------
  // Leaf values and leaf operations
  // ---------------------------------------------------------------------

  /** A terminal value: a Python int, or the bool that `not` produces. */
  datatype PyVal = I(n: int) | B(b: bool)

  /** Python truthiness. */
  predicate Truthy(v: PyVal)
  {
    match v
    case I(n) => n != 0
    case B(b) => b
  }

  /** The int a value counts as in arithmetic and comparison (True is 1). */
  function AsInt(v: PyVal): int
  {
    match v
    case I(n) => n
    case B(b) => if b then 1 else 0
  }

  /** Bitwise exclusive or of non-negative integers. */
  function XorNat(a: nat, b: nat): nat
    decreases a + b
  {
    if a == 0 then b
    else if b == 0 then a
    else 2 * XorNat(a / 2, b / 2) + (if a % 2 != b % 2 then 1 else 0)
  }

  /** Python's `^` on ints, two's complement on negative operands (~x is -x - 1). */
  function XorInt(a: int, b: int): int
  {
    if a >= 0 && b >= 0 then XorNat(a, b)
    else if a < 0 && b < 0 then XorNat(-a - 1, -b - 1)
    else if a < 0 then -1 - XorNat(-a - 1, b)
    else -1 - XorNat(a, -b - 1)
  }

  /** The operations `leaf_apply_op` knows. */
  datatype LeafOp = Or | And | Xor | Nor | Nand

  /** The lookup of `leaf_apply_op`; None stands for the KeyError of any other name. */
  function ParseOp(name: string): (r: Option<LeafOp>)
    ensures r.Some? <==> name in {"or", "and", "xor", "nor", "nand"}
  {
    if name == "or" then Some(Or)
    else if name == "and" then Some(And)
    else if name == "xor" then Some(Xor)
    else if name == "nor" then Some(Nor)
    else if name == "nand" then Some(Nand)
    else None
  }

  /** `leaf_apply_op` on two leaf values: Python's `or`, `and`, `^`, `not (or)`, `not (and)`. */
  function LeafApply(op: LeafOp, a: PyVal, b: PyVal): PyVal
  {
    match op
    case Or => if Truthy(a) then a else b
    case And => if !Truthy(a) then a else b
    case Xor => if a.B? && b.B? then B(a.b != b.b) else I(XorInt(AsInt(a), AsInt(b)))
    case Nor => B(!(Truthy(a) || Truthy(b)))
    case Nand => B(!(Truthy(a) && Truthy(b)))
  }

  /** The Boolean operation an operation name stands for. */
  function BoolOp(op: LeafOp, x: bool, y: bool): bool
  {
    match op
    case Or => x || y
    case And => x && y
    case Xor => x != y
    case Nor => !(x || y)
    case Nand => !(x && y)
  }

  /** On the terminals 0 and 1, `leaf_apply_op` computes the Boolean operation; or, and and xor give 0 or 1 again. */
  lemma LeafApplyBoolean(op: LeafOp, a: PyVal, b: PyVal)
    requires a in {I(0), I(1)} && b in {I(0), I(1)}
    ensures Truthy(LeafApply(op, a, b)) == BoolOp(op, a == I(1), b == I(1))
    ensures op in {Or, And, Xor} ==> LeafApply(op, a, b) in {I(0), I(1)}
  {
    assert XorNat(1, 1) == 2 * XorNat(0, 0);
  }

  /** `str(v)`. */
  function Text(v: PyVal): string
  {
    match v
    case I(n) => Numerals.IntToString(n)
    case B(b) => if b then "True" else "False"
  }

  /** Different values print differently. */
  lemma TextInjective(a: PyVal, b: PyVal)
    requires Text(a) == Text(b)
    ensures a == b
  {
    if a.I? && b.I? {
      PyIntOfIntToString(a.n);
      PyIntOfIntToString(b.n);
    } else if a.I? || b.I? {
      var n := if a.I? then a.n else b.n;
      var t := Numerals.IntToString(n);
      IntTextStart(n);
      assert false;
    }
  }

  /** The text of an int starts with a digit or a minus sign and has no comma. */
  lemma IntTextStart(n: int)
    ensures var t := Numerals.IntToString(n); t != [] && (Numerals.IsDigit(t[0]) || t[0] == '-') && Avoids(t, ',')
  {
    var d := Numerals.NatToString(if n < 0 then -n else n);
    assert d[0] == d[0];
    if n < 0 {
      assert Numerals.IntToString(n) == "-" + d;
      assert forall k :: 0 < k < |"-" + d| ==> ("-" + d)[k] == d[k - 1];
    }
  }

  // ---------------------------------------------------------------------
  // Nodes
  // ---------------------------------------------------------------------

  /** A BDD node: a leaf with its value, or an inner node with its variable and its low and high children. */
  datatype Node = Leaf(name: string, value: PyVal) | Inner(name: string, variable: string, low: Node, high: Node)

  function Size(n: Node): nat
  {
    match n
    case Leaf(_, _) => 1
    case Inner(_, _, lo, hi) => 1 + Size(lo) + Size(hi)
  }

  /** The value a diagram gives when exactly the variables of env are true. */
  function Eval(n: Node, env: set<string>): PyVal
  {
    match n
    case Leaf(_, v) => v
    case Inner(_, x, lo, hi) => if x in env then Eval(hi, env) else Eval(lo, env)
  }

  /** Every variable of the diagram is in vars. */
  predicate Covered(n: Node, vars: map<string, int>)
  {
    match n
    case Leaf(_, _) => true
    case Inner(_, x, lo, hi) => x in vars && Covered(lo, vars) && Covered(hi, vars)
  }

  /** No variable of the diagram contains a comma. */
  predicate CommaFree(n: Node)
  {
    match n
    case Leaf(_, _) => true
    case Inner(_, x, lo, hi) => Avoids(x, ',') && CommaFree(lo) && CommaFree(hi)
  }

  /** No two variables share an index. */
  predicate Injective(vars: map<string, int>)
  {
    forall a, b :: a in vars && b in vars && vars[a] == vars[b] ==> a == b
  }

  /** `low.value == high.value`: leaf values compare as ints, variables as strings, a leaf never equals an inner node. */
  predicate ValueEq(a: Node, b: Node)
  {
    if a.Leaf? && b.Leaf? then AsInt(a.value) == AsInt(b.value)
    else if a.Inner? && b.Inner? then a.variable == b.variable
    else false
  }

  /** The cases of `decide_case`. */
  datatype ApplyCase =
    | BothLeaves   // a: combine the two leaves
    | IntoSecond   // b: the second node's variable comes first
    | IntoFirst    // c: the first node's variable comes first
    | IntoBoth     // d: both nodes test the same variable

  /** `decide_case`: which node the walk descends into. */
  function DecideCase(n1: Node, n2: Node, vars: map<string, int>): (c: ApplyCase)
    requires n1.Inner? ==> n1.variable in vars
    requires n2.Inner? ==> n2.variable in vars
    ensures c == BothLeaves <==> n1.Leaf? && n2.Leaf?
    ensures c == IntoSecond ==> n2.Inner? && (n1.Leaf? || vars[n1.variable] > vars[n2.variable])
    ensures c == IntoFirst ==> n1.Inner? && (n2.Leaf? || vars[n1.variable] < vars[n2.variable])
    ensures c == IntoBoth ==> n1.Inner? && n2.Inner? && vars[n1.variable] == vars[n2.variable]
  {
    if n1.Leaf? && n2.Leaf? then BothLeaves
    else if n1.Inner? && n2.Leaf? then IntoFirst
    else if n1.Leaf? && n2.Inner? then IntoSecond
    else if vars[n1.variable] > vars[n2.variable] then IntoSecond
    else if vars[n1.variable] < vars[n2.variable] then IntoFirst
    else IntoBoth
  }

  /** The cache key of a leaf, `t{v}`. */
  function LeafName(v: PyVal): string
  {
    "t" + Text(v)
  }

  /** The name of the k-th inner node created, `n{k}`. */
  function NodeName(k: nat): string
  {
    "n" + Numerals.NatToString(k)
  }

  /** The cache key of an inner node, `{value},{low.name},{high.name}`. */
  function LookupKey(x: string, lo: string, hi: string): string
  {
    x + "," + lo + "," + hi
  }

  /** A key read back into its three parts. */
  function ParseLookup(k: string): Option<(string, string, string)>
  {
    var parts := SplitOn(k, ',');
    if |parts| == 3 then Some((parts[0], parts[1], parts[2])) else None
  }

  lemma LookupKeyParts(x: string, lo: string, hi: string)
    requires Avoids(x, ',') && Avoids(lo, ',') && Avoids(hi, ',')
    ensures ParseLookup(LookupKey(x, lo, hi)) == Some((x, lo, hi)) && !Avoids(LookupKey(x, lo, hi), ',')
  {
    var k := LookupKey(x, lo, hi);
    var ws := [x, lo, hi];
    SplitOnJoin(ws, ',');
    assert Join(ws, [',']) == k by {
      assert ws[1..] == [lo, hi] && ws[1..][1..] == [hi] && ws[1..][1..][1..] == [];
      assert Prefixed([hi], ",") == "," + hi + "";
    }
    assert k[|x|] == ',';
  }

  /** A node's name is the one its kind of creation gives it; inner names are numbered below count. */
  predicate NameOk(x: Node, count: nat)
  {
    if x.Leaf? then x.name == LeafName(x.value)
    else |x.name| >= 2 && x.name[0] == 'n' && Numerals.AllDigits(x.name[1..]) && Numerals.Value(x.name[1..]) < count
  }

  /**
   * What the cache may hold under key k: a leaf under its own name, an inner
   * node under the key of its variable and children, or a node recorded
   * under the key of some variable with it as both children.
   */
  ghost predicate CacheEntry(k: string, x: Node)
  {
    || (x.Leaf? && k == x.name)
    || (x.Inner? && k == LookupKey(x.variable, x.low.name, x.high.name))
    || (exists v :: Avoids(v, ',') && k == LookupKey(v, x.name, x.name))
  }

  /** Names identify the nodes made so far. */
  ghost predicate UniqueNames(made: set<Node>)
  {
    forall x, y :: x in made && y in made && x.name == y.name ==> x == y
  }

  /** Every made node carries the name its creation gives it. */
  ghost predicate NamedBelow(made: set<Node>, count: nat)
  {
    forall x :: x in made ==> NameOk(x, count)
  }

  /** The made nodes are closed under children, and no made node has equal children. */
  ghost predicate Closed(made: set<Node>)
  {
    forall x :: x in made && x.Inner? ==> x.low in made && x.high in made && x.low != x.high && Avoids(x.variable, ',')
  }

  /** Every made leaf is cached under its name. */
  ghost predicate LeavesCached(cache: map<string, Node>, made: set<Node>)
  {
    forall x :: x in made && x.Leaf? ==> x.name in cache && cache[x.name] == x
  }

  /** Every cache entry is a made node of the form its key describes. */
  ghost predicate EntriesMade(cache: map<string, Node>, made: set<Node>)
  {
    forall k :: k in cache ==> cache[k] in made && CacheEntry(k, cache[k])
  }

  /** The invariant of an apply's memory. */
  ghost predicate Inv(count: nat, cache: map<string, Node>, made: set<Node>)
  {
    UniqueNames(made) && NamedBelow(made, count) && Closed(made) && LeavesCached(cache, made) && EntriesMade(cache, made)
  }

  lemma NamesCommaFree(x: Node, count: nat)
    requires NameOk(x, count)
    ensures Avoids(x.name, ',')
  {
    if x.Leaf? {
      if x.value.I? {
        IntTextStart(x.value.n);
      }
    } else {
      forall k | 0 <= k < |x.name|
        ensures x.name[k] != ','
      {
        if k > 0 {
          assert x.name[k] == x.name[1..][k - 1];
        }
      }
    }
  }

  lemma FreshNodeName(count: nat, x: Node)
    requires NameOk(x, count)
    ensures x.name != NodeName(count)
  {
    if x.Leaf? {
      assert x.name[0] != NodeName(count)[0];
    } else if x.name == NodeName(count) {
      Numerals.ValueOfNatToString(count);
    }
  }

  /** A lookup key has a comma, so it is never a leaf's name. */
  lemma KeyHasComma(x: string, lo: string, hi: string)
    ensures !Avoids(LookupKey(x, lo, hi), ',')
  {
    assert LookupKey(x, lo, hi)[|x|] == ',';
  }

  /** Comma-free parts give equal lookup keys only when the parts are equal. */
  lemma LookupKeyInjective(x: string, lo: string, hi: string, y: string, lo2: string, hi2: string)
    requires Avoids(x, ',') && Avoids(lo, ',') && Avoids(hi, ',') && Avoids(y, ',') && Avoids(lo2, ',') && Avoids(hi2, ',')
    requires LookupKey(x, lo, hi) == LookupKey(y, lo2, hi2)
    ensures x == y && lo == lo2 && hi == hi2
  {
    LookupKeyParts(x, lo, hi);
    LookupKeyParts(y, lo2, hi2);
  }

  /** A leaf value found in the cache under its name is the leaf of that value. */
  lemma CachedLeaf(count: nat, cache: map<string, Node>, made: set<Node>, t: PyVal)
    requires Inv(count, cache, made) && LeafName(t) in cache
    ensures cache[LeafName(t)] == Leaf(LeafName(t), t)
  {
    var k := LeafName(t);
    var r := cache[k];
    NamesCommaFree(Leaf(k, t), count);
    assert CacheEntry(k, r);
    if r.Inner? && k == LookupKey(r.variable, r.low.name, r.high.name) {
      KeyHasComma(r.variable, r.low.name, r.high.name);
      assert false;
    }
    if exists v :: Avoids(v, ',') && k == LookupKey(v, r.name, r.name) {
      var v :| Avoids(v, ',') && k == LookupKey(v, r.name, r.name);
      KeyHasComma(v, r.name, r.name);
      assert false;
    }
    assert r.Leaf? && r.name == k;
    assert NameOk(r, count);
    TextInjective(r.value, t);
  }

  /** Adding a leaf whose name is not cached keeps the names unique. */
  lemma LeafUnique(count: nat, cache: map<string, Node>, made: set<Node>, r: Node)
    requires UniqueNames(made) && NamedBelow(made, count) && LeavesCached(cache, made)
    requires r.Leaf? && r.name !in cache && r.name == LeafName(r.value)
    ensures UniqueNames(made + {r})
  {
    forall x | x in made
      ensures x.name != r.name
    {
      if x.Inner? {
        assert x.name[0] == 'n';
      }
    }
  }

  /** Adding the leaf of a value not yet cached keeps the invariant. */
  lemma LeafAdded(count: nat, cache: map<string, Node>, made: set<Node>, t: PyVal)
    requires Inv(count, cache, made) && LeafName(t) !in cache
    ensures var r := Leaf(LeafName(t), t); Inv(count, cache[LeafName(t) := r], made + {r})
  {
    var r := Leaf(LeafName(t), t);
    LeafUnique(count, cache, made, r);
    assert CacheEntry(r.name, r);
  }

  /** Caching a made node under a key that describes it keeps the entries well formed. */
  lemma EntryAdded(cache: map<string, Node>, made: set<Node>, k: string, x: Node)
    requires EntriesMade(cache, made) && x in made && CacheEntry(k, x)
    ensures EntriesMade(cache[k := x], made)
  {
  }

  /** Caching under a key with a comma leaves every made leaf's entry in place. */
  lemma LeavesKept(count: nat, cache: map<string, Node>, made: set<Node>, k: string, x: Node)
    requires LeavesCached(cache, made) && NamedBelow(made, count) && !Avoids(k, ',')
    ensures LeavesCached(cache[k := x], made)
  {
    forall y | y in made && y.Leaf?
      ensures y.name != k
    {
      NamesCommaFree(y, count);
    }
  }

  /** Recording a child under the key of a node whose two children coincide keeps the invariant. */
  lemma ChildRecorded(count: nat, cache: map<string, Node>, made: set<Node>, value: string, low: Node, high: Node)
    requires Inv(count, cache, made) && low in made && high in made && Avoids(value, ',') && low.name == high.name
    ensures low == high && Inv(count, cache[LookupKey(value, low.name, high.name) := low], made)
  {
    var k := LookupKey(value, low.name, high.name);
    assert Avoids(value, ',') && k == LookupKey(value, low.name, low.name);
    assert CacheEntry(k, low);
    EntryAdded(cache, made, k, low);
    KeyHasComma(value, low.name, high.name);
    LeavesKept(count, cache, made, k, low);
  }

  /** Under a lookup key, a node whose children differ finds the inner node with that variable and those children. */
  lemma CachedInner(count: nat, cache: map<string, Node>, made: set<Node>, value: string, low: Node, high: Node)
    requires Inv(count, cache, made) && low in made && high in made && Avoids(value, ',') && low.name != high.name
    requires LookupKey(value, low.name, high.name) in cache
    ensures var r := cache[LookupKey(value, low.name, high.name)]; r in made && r.Inner? && r.variable == value && r.low == low && r.high == high
  {
    var k := LookupKey(value, low.name, high.name);
    var r := cache[k];
    assert r in made && CacheEntry(k, r);
    NamesCommaFree(low, count);
    NamesCommaFree(high, count);
    NamesCommaFree(r, count);
    LookupKeyParts(value, low.name, high.name);
    if r.Leaf? && k == r.name {
      assert false;
    }
    if exists v :: Avoids(v, ',') && k == LookupKey(v, r.name, r.name) {
      var v :| Avoids(v, ',') && k == LookupKey(v, r.name, r.name);
      LookupKeyInjective(value, low.name, high.name, v, r.name, r.name);
      assert false;
    }
    assert r.Inner? && k == LookupKey(r.variable, r.low.name, r.high.name);
    assert r.low in made && r.high in made;
    NamesCommaFree(r.low, count);
    NamesCommaFree(r.high, count);
    LookupKeyInjective(value, low.name, high.name, r.variable, r.low.name, r.high.name);
  }

  /** The name n{count} is new, and it is well formed one step later. */
  lemma FreshInner(count: nat, made: set<Node>, r: Node)
    requires UniqueNames(made) && NamedBelow(made, count) && r.Inner? && r.name == NodeName(count)
    ensures UniqueNames(made + {r}) && NamedBelow(made + {r}, count + 1)
  {
    Numerals.ValueOfNatToString(count);
    assert r.name[1..] == Numerals.NatToString(count);
    forall x | x in made
      ensures x.name != r.name && NameOk(x, count + 1)
    {
      FreshNodeName(count, x);
    }
  }

  /** A new inner node over two different made children keeps the made nodes closed. */
  lemma ClosedGrow(made: set<Node>, r: Node)
    requires Closed(made) && r.Inner? && r.low in made && r.high in made && r.low != r.high && Avoids(r.variable, ',')
    ensures Closed(made + {r})
  {
  }

  /** A new node leaves every entry made. */
  lemma EntriesGrow(cache: map<string, Node>, made: set<Node>, r: Node)
    requires EntriesMade(cache, made)
    ensures EntriesMade(cache, made + {r})
  {
  }

  /** A fresh inner node n{count} over two different made children keeps the invariant, with count advanced. */
  lemma InnerAdded(count: nat, cache: map<string, Node>, made: set<Node>, value: string, low: Node, high: Node)
    requires Inv(count, cache, made) && low in made && high in made && Avoids(value, ',') && low != high
    requires LookupKey(value, low.name, high.name) !in cache
    ensures var r := Inner(NodeName(count), value, low, high);
      Inv(count + 1, cache[LookupKey(value, low.name, high.name) := r], made + {r})
  {
    var r := Inner(NodeName(count), value, low, high);
    var k := LookupKey(value, low.name, high.name);
    FreshInner(count, made, r);
    ClosedGrow(made, r);
    KeyHasComma(value, low.name, high.name);
    LeavesKept(count, cache, made, k, r);
    EntriesGrow(cache, made, r);
    EntryAdded(cache, made + {r}, k, r);
  }

  /** r denotes "if value then high else low". */
  ghost predicate Ite(r: Node, value: string, low: Node, high: Node)
  {
    forall env :: Eval(r, env) == if value in env then Eval(high, env) else Eval(low, env)
  }

  /** r denotes op applied to the functions of n1 and n2. */
  ghost predicate Computes(r: Node, op: LeafOp, n1: Node, n2: Node)
  {
    forall env :: Eval(r, env) == LeafApply(op, Eval(n1, env), Eval(n2, env))
  }

  /** Shannon expansion on the second operand's variable. */
  lemma ExpandSecond(op: LeafOp, n1: Node, n2: Node, low: Node, high: Node, r: Node)
    requires n2.Inner? && Computes(low, op, n1, n2.low) && Computes(high, op, n1, n2.high) && Ite(r, n2.variable, low, high)
    ensures Computes(r, op, n1, n2)
  {
  }

  /** Shannon expansion on the first operand's variable. */
  lemma ExpandFirst(op: LeafOp, n1: Node, n2: Node, low: Node, high: Node, r: Node)
    requires n1.Inner? && Computes(low, op, n1.low, n2) && Computes(high, op, n1.high, n2) && Ite(r, n1.variable, low, high)
    ensures Computes(r, op, n1, n2)
  {
  }

  /** Shannon expansion on a variable both operands test. */
  lemma ExpandBoth(op: LeafOp, n1: Node, n2: Node, low: Node, high: Node, r: Node)
    requires n1.Inner? && n2.Inner? && n1.variable == n2.variable
    requires Computes(low, op, n1.low, n2.low) && Computes(high, op, n1.high, n2.high) && Ite(r, n1.variable, low, high)
    ensures Computes(r, op, n1, n2)
  {
  }

  /**
   * The memory of one apply (`ApplyHelper`): the counter for fresh names,
   * the cache, and the variable index. made is the set of nodes created so far.
   */
  class ApplyHelper {
    var count: nat
    var cache: map<string, Node>
    const vars: map<string, int>
    ghost var made: set<Node>

    ghost predicate Valid()
      reads this
    {
      Inv(count, cache, made)
    }

    /** `ApplyHelper(bdd1, bdd2, vars)` once the order is known: nothing counted or cached yet. */
    constructor (order: map<string, int>)
      ensures Valid() && vars == order && count == 0 && cache == map[] && made == {}
    {
      count := 0;
      cache := map[];
      vars := order;
      made := {};
    }

    /** The two leaves of `apply_from`: the cached leaf named `t{v}`, or a new one cached under that name. */
    method MakeLeaf(t: PyVal) returns (r: Node)
      requires Valid()
      modifies this`cache, this`made
      ensures Valid() && old(made) <= made && r in made
      ensures r == Leaf(LeafName(t), t)
      ensures cache == old(cache)[LeafName(t) := r]
    {
      var name := LeafName(t);
      if name in cache {
        r := cache[name];
        CachedLeaf(count, cache, made, t);
        return;
      }
      r := Leaf(name, t);
      LeafAdded(count, cache, made, t);
      made := made + {r};
      cache := cache[name := r];
    }

    /**
     * The end of `apply_from`: equal children give the child itself
     * (recorded under the key), a known key gives the cached node, and
     * otherwise a fresh node `n{count}` is made and cached.
     */
    method MakeNode(value: string, low: Node, high: Node) returns (r: Node)
      requires Valid() && low in made && high in made && Avoids(value, ',')
      modifies this`cache, this`made, this`count
      ensures Valid() && old(made) <= made && r in made && Ite(r, value, low, high)
      ensures var key := LookupKey(value, low.name, high.name);
        if low.name == high.name && ValueEq(low, high) then r == low && cache == old(cache)[key := low] && count == old(count)
        else if key in old(cache) then r == old(cache)[key] && cache == old(cache) && count == old(count)
        else r == Inner(NodeName(old(count)), value, low, high) && cache == old(cache)[key := r] && count == old(count) + 1
    {
      var lookup := LookupKey(value, low.name, high.name);
      if low.name == high.name {
        ChildRecorded(count, cache, made, value, low, high);
        if ValueEq(low, high) {
          cache := cache[lookup := low];
          return low;
        }
        assert false;
      }
      if lookup in cache {
        r := cache[lookup];
        CachedInner(count, cache, made, value, low, high);
        return;
      }
      r := Inner(NodeName(count), value, low, high);
      InnerAdded(count, cache, made, value, low, high);
      made := made + {r};
      cache := cache[lookup := r];
      count := count + 1;
    }

    /**
     * `apply_from`: the node for op applied to the functions of n1 and n2,
     * descending along the variable order vars.
     */
    method ApplyFrom(op: LeafOp, n1: Node, n2: Node) returns (r: Node)
      requires Valid() && Injective(vars)
      requires Covered(n1, vars) && Covered(n2, vars) && CommaFree(n1) && CommaFree(n2)
      modifies this`cache, this`made, this`count
      ensures Valid() && old(made) <= made && r in made && Computes(r, op, n1, n2)
      decreases Size(n1) + Size(n2)
    {
      var c := DecideCase(n1, n2, vars);
      if c == BothLeaves {
        r := MakeLeaf(LeafApply(op, n1.value, n2.value));
        return;
      }
      var low, high;
      if c == IntoSecond {
        low := ApplyFrom(op, n1, n2.low);
        high := ApplyFrom(op, n1, n2.high);
        r := MakeNode(n2.variable, low, high);
        ExpandSecond(op, n1, n2, low, high, r);
      } else if c == IntoFirst {
        low := ApplyFrom(op, n1.low, n2);
        high := ApplyFrom(op, n1.high, n2);
        r := MakeNode(n1.variable, low, high);
        ExpandFirst(op, n1, n2, low, high, r);
      } else {
        low := ApplyFrom(op, n1.low, n2.low);
        high := ApplyFrom(op, n1.high, n2.high);
        r := MakeNode(n1.variable, low, high);
        ExpandBoth(op, n1, n2, low, high, r);
      }
    }
  }

  // ---------------------------------------------------------------------
  // apply_function
  // ---------------------------------------------------------------------

  /** The `var_order` argument: absent, a list of names, or an index dictionary. */
  datatype VarOrderArg = NoOrder | OrderList(names: seq<string>) | OrderDict(index: map<string, int>)

  /** A diagram `BDD(name, root)`. */
  datatype Bdd = Bdd(name: Option<string>, root: Option<Node>)

  /** The variables of a diagram in preorder; `get_variable_list` lists the same names, sorted and without repeats. */
  function VarList(n: Node): seq<string>
  {
    match n
    case Leaf(_, _) => []
    case Inner(_, x, lo, hi) => [x] + VarList(lo) + VarList(hi)
  }

  /** A diagram whose listed variables are all indexed is covered by the index. */
  lemma {:induction false} CoveredByList(n: Node, vars: map<string, int>)
    requires forall x :: x in VarList(n) ==> x in vars
    ensures Covered(n, vars)
  {
    if n.Inner? {
      CoveredByList(n.low, vars);
      CoveredByList(n.high, vars);
    }
  }

  /** Every inner node of the diagram has two different children. */
  predicate Reduced(n: Node)
  {
    match n
    case Leaf(_, _) => true
    case Inner(_, _, lo, hi) => lo != hi && Reduced(lo) && Reduced(hi)
  }

  /** Every node an apply makes is reduced. */
  lemma {:induction false} MadeReduced(made: set<Node>, x: Node)
    requires Closed(made) && x in made
    ensures Reduced(x)
  {
    if x.Inner? {
      MadeReduced(made, x.low);
      MadeReduced(made, x.high);
    }
  }

  /**
   * The order `ApplyHelper.__init__` settles on, as written: the dictionary
   * given, or the one built from the diagrams' variables when none is given;
   * None for a list, whose branch reads `_temp2` before anything is assigned
   * to it (an UnboundLocalError).
   */
  function HelperOrderAsWritten(given: VarOrderArg, found: seq<string>): (r: Option<map<string, int>>)
    ensures r.None? <==> given.OrderList?
  {
    match given
    case NoOrder => Some(OrderFrom(map[], 1, StringManipulation.StateNameSort(found)))
    case OrderList(_) => None
    case OrderDict(m) => Some(m)
  }

  /** A list given as the order is never used: every list fails. */
  lemma ListOrderFails(names: seq<string>, found: seq<string>)
    ensures HelperOrderAsWritten(OrderList(names), found).None?
    ensures names != [] ==> names[0] in HelperOrder(OrderList(names), found)
  {
    OrderListCovers(names);
  }

  /** The order `ApplyHelper.__init__` evidently intends: a list is numbered as the diagrams' own variables would be. */
  function HelperOrder(given: VarOrderArg, found: seq<string>): map<string, int>
  {
    match given
    case NoOrder => OrderFrom(map[], 1, StringManipulation.StateNameSort(found))
    case OrderList(names) => OrderFrom(map[], 1, StringManipulation.StateNameSort(names))
    case OrderDict(m) => m
  }

  /** The order built from a list numbers exactly its names, without gaps or repeats. */
  lemma OrderListCovers(names: seq<string>)
    ensures var m := OrderFrom(map[], 1, StringManipulation.StateNameSort(names));
      Numbered(m) && Injective(m) && m.Keys == (set x | x in names)
  {
    var vs := StringManipulation.StateNameSort(names);
    VarOrderNumbered(names);
    forall x
      ensures x in vs <==> x in names
    {
      assert x in vs <==> x in multiset(vs);
      assert x in names <==> x in multiset(names);
    }
  }

  /** Except for a dictionary given, the intended order numbers the diagrams' variables (or the list) without gaps or repeats. */
  lemma HelperOrderNumbered(given: VarOrderArg, found: seq<string>)
    requires !given.OrderDict?
    ensures Numbered(HelperOrder(given, found)) && Injective(HelperOrder(given, found))
    ensures var src := if given.OrderList? then given.names else found; HelperOrder(given, found).Keys == (set x | x in src)
  {
    if given.OrderList? {
      OrderListCovers(given.names);
    } else {
      OrderListCovers(found);
    }
  }

  /** The order a helper is given covers the variables: all of them are listed, or indexed and told apart. */
  predicate OrderFits(given: VarOrderArg, vs: seq<string>)
  {
    match given
    case NoOrder => true
    case OrderList(names) => forall x :: x in vs ==> x in names
    case OrderDict(m) => (forall x :: x in vs ==> x in m) && Injective(m)
  }

  /** The order of `ApplyHelper.__init__`, built by `create_var_order_for_apply` unless a dictionary is given. */
  method OrderFor(given: VarOrderArg, found: seq<string>) returns (order: map<string, int>)
    ensures order == HelperOrder(given, found)
  {
    match given {
      case NoOrder =>
        order := CreateVarOrderForApply(found);
      case OrderList(names) =>
        order := CreateVarOrderForApply(names);
      case OrderDict(m) =>
        order := m;
    }
  }

  /** An order that fits the two diagrams covers both and tells their variables apart. */
  lemma OrderCovers(given: VarOrderArg, n1: Node, n2: Node)
    requires OrderFits(given, VarList(n1) + VarList(n2))
    ensures var m := HelperOrder(given, VarList(n1) + VarList(n2)); Covered(n1, m) && Covered(n2, m) && Injective(m)
  {
    var found := VarList(n1) + VarList(n2);
    var m := HelperOrder(given, found);
    if !given.OrderDict? {
      HelperOrderNumbered(given, found);
    }
    assert forall x :: x in VarList(n1) ==> x in found;
    assert forall x :: x in VarList(n2) ==> x in found;
    CoveredByList(n1, m);
    CoveredByList(n2, m);
  }

  /**
   * `apply_function`: with both roots absent an empty diagram, with one
   * absent the other root; otherwise the diagram "BDD" whose root computes
   * op on the two diagrams' functions and is reduced. None stands for the
   * KeyError of an unknown operation name.
   */
  method ApplyFunction(func: string, bdd1: Bdd, bdd2: Bdd, varOrder: VarOrderArg) returns (r: Option<Bdd>)
    requires bdd1.root.Some? ==> CommaFree(bdd1.root.value)
    requires bdd2.root.Some? ==> CommaFree(bdd2.root.value)
    requires bdd1.root.Some? && bdd2.root.Some? ==> OrderFits(varOrder, VarList(bdd1.root.value) + VarList(bdd2.root.value))
    ensures bdd1.root.None? && bdd2.root.None? ==> r == Some(Bdd(None, None))
    ensures bdd1.root.None? && bdd2.root.Some? ==> r == Some(Bdd(None, bdd2.root))
    ensures bdd1.root.Some? && bdd2.root.None? ==> r == Some(Bdd(None, bdd1.root))
    ensures bdd1.root.Some? && bdd2.root.Some? ==> (r.None? <==> ParseOp(func).None?)
    ensures bdd1.root.Some? && bdd2.root.Some? && r.Some? ==>
      && r.value.name == Some("BDD") && r.value.root.Some? && Reduced(r.value.root.value)
      && Computes(r.value.root.value, ParseOp(func).value, bdd1.root.value, bdd2.root.value)
  {
    if bdd1.root.None? && bdd2.root.None? {
      return Some(Bdd(None, None));
    }
    if bdd1.root.None? {
      return Some(Bdd(None, bdd2.root));
    }
    if bdd2.root.None? {
      return Some(Bdd(None, bdd1.root));
    }
    var n1 := bdd1.root.value;
    var n2 := bdd2.root.value;
    var op := ParseOp(func);
    if op.None? {
      return None;
    }
    var order := OrderFor(varOrder, VarList(n1) + VarList(n2));
    OrderCovers(varOrder, n1, n2);
    var data := new ApplyHelper(order);
    var root := data.ApplyFrom(op.value, n1, n2);
    MadeReduced(data.made, root);
    return Some(Bdd(Some("BDD"), Some(root)));
  }
}
