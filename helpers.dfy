/**
 * `generate_possible_children`: every list of a given length over the
 * parent states (in the order of `itertools.product`) that contains a given
 * state at least once. Bottom-up reachability uses it to enumerate the child
 * tuples a newly reached state can complete.
 */
module Helpers {
  import opened Seqs

  function Power(b: nat, e: nat): nat
  {
    if e == 0 then 1 else b * Power(b, e - 1)
  }

  /** The lists `[p] + t` for every t of ts, in order. */
  function Prefixed(p: string, ts: seq<seq<string>>): (r: seq<seq<string>>)
    ensures |r| == |ts| && forall i :: 0 <= i < |r| ==> r[i] == [p] + ts[i]
  {
    seq(|ts|, i requires 0 <= i < |ts| => [p] + ts[i])
  }

  /** Every head of hs in front of every tail of ts, head by head. */
  function ProductFrom(hs: seq<string>, ts: seq<seq<string>>): seq<seq<string>>
  {
    if hs == [] then [] else Prefixed(hs[0], ts) + ProductFrom(hs[1..], ts)
  }

  /** `itertools.product(parents, repeat=size)`, each tuple as a list. */
  function Product(parents: seq<string>, size: nat): seq<seq<string>>
  {
    if size == 0 then [[]] else ProductFrom(parents, Product(parents, size - 1))
  }

  /** The tuples of ts that contain state, in order. */
  function Containing(state: string, ts: seq<seq<string>>): (r: seq<seq<string>>)
    ensures forall t :: t in r <==> t in ts && state in t
  {
    if ts == [] then []
    else
      var rest := Containing(state, ts[1..]);
      assert forall t :: t in ts <==> t == ts[0] || t in ts[1..];
      (if state in ts[0] then [ts[0]] else []) + rest
  }

  /** The comprehension of `generate_possible_children(state, parents, size)`. */
  function GeneratePossibleChildren(state: string, parents: seq<string>, size: nat): (r: seq<seq<string>>)
    ensures forall t :: t in r ==> |t| == size && state in t && Elems(t) <= Elems(parents)
  {
    forall t ensures t in Product(parents, size) <==> |t| == size && Elems(t) <= Elems(parents) {
      ProductMember(parents, size, t);
    }
    Containing(state, Product(parents, size))
  }

  /** How many times x occurs in s (`s.count(x)`). */
  function Count(s: seq<string>, x: string): (r: nat)
    ensures r <= |s|
  {
    if s == [] then 0 else (if s[0] == x then 1 else 0) + Count(s[1..], x)
  }

  /** Membership in ProductFrom: a head of hs followed by a tail of ts. */
  lemma {:induction false} ProductFromMember(hs: seq<string>, ts: seq<seq<string>>, t: seq<string>)
    ensures t in ProductFrom(hs, ts) <==> t != [] && t[0] in hs && t[1..] in ts
  {
    if hs != [] {
      ProductFromMember(hs[1..], ts, t);
      var pre := Prefixed(hs[0], ts);
      assert ProductFrom(hs, ts) == pre + ProductFrom(hs[1..], ts);
      if t != [] && t[0] == hs[0] && t[1..] in ts {
        var i :| 0 <= i < |ts| && ts[i] == t[1..];
        assert pre[i] == t;
      }
      if t in pre {
        var i :| 0 <= i < |pre| && pre[i] == t;
        assert t[1..] == ts[i];
      }
    }
  }

  lemma ConsElems(t: seq<string>)
    requires t != []
    ensures Elems(t) == {t[0]} + Elems(t[1..])
  {
    assert t == [t[0]] + t[1..];
  }

  /** The tuples of the product are exactly the lists of the right length over the parents. */
  lemma {:induction false} ProductMember(parents: seq<string>, size: nat, t: seq<string>)
    ensures t in Product(parents, size) <==> |t| == size && Elems(t) <= Elems(parents)
  {
    if size > 0 {
      ProductFromMember(parents, Product(parents, size - 1), t);
      if t != [] {
        ProductMember(parents, size - 1, t[1..]);
        ConsElems(t);
      }
    }
  }

  /** A result is exactly a list of the right length over the parents that contains the state. */
  lemma GeneratePossibleChildrenMembers(state: string, parents: seq<string>, size: nat, t: seq<string>)
    ensures t in GeneratePossibleChildren(state, parents, size) <==>
      |t| == size && state in t && Elems(t) <= Elems(parents)
  {
    ProductMember(parents, size, t);
  }

  lemma {:induction false} ContainingConcat(state: string, a: seq<seq<string>>, b: seq<seq<string>>)
    ensures Containing(state, a + b) == Containing(state, a) + Containing(state, b)
  {
    if a != [] {
      ContainingConcat(state, a[1..], b);
      assert (a + b)[0] == a[0] && (a + b)[1..] == a[1..] + b;
      var head: seq<seq<string>> := if state in a[0] then [a[0]] else [];
      assert Containing(state, a + b) == head + Containing(state, a[1..] + b);
      assert Containing(state, a) == head + Containing(state, a[1..]);
    } else {
      assert a + b == b;
    }
  }

  /** Putting p in front adds the state to every tuple when p is the state, to none otherwise. */
  lemma {:induction false} ContainingPrefixed(state: string, p: string, ts: seq<seq<string>>)
    ensures |Containing(state, Prefixed(p, ts))| == if p == state then |ts| else |Containing(state, ts)|
  {
    if ts != [] {
      ContainingPrefixed(state, p, ts[1..]);
      var pre := Prefixed(p, ts);
      assert pre[1..] == Prefixed(p, ts[1..]);
      assert pre[0] == [p] + ts[0];
      assert state in pre[0] <==> p == state || state in ts[0];
    }
  }

  lemma SplitHead(k: nat, m: nat, total: nat, c: nat, x: nat, hit: bool)
    requires k <= m && x == (if hit then total else c)
    ensures x + (k * total + (m - k) * c)
      == (k + (if hit then 1 else 0)) * total + ((m + 1) - (k + (if hit then 1 else 0))) * c
  {
  }

  /** Counting over heads: the k copies of the state keep every tail, the others keep the tails with it. */
  lemma {:induction false} ContainingProductFrom(state: string, hs: seq<string>, ts: seq<seq<string>>)
    ensures |Containing(state, ProductFrom(hs, ts))|
      == Count(hs, state) * |ts| + (|hs| - Count(hs, state)) * |Containing(state, ts)|
  {
    if hs != [] {
      ContainingProductFrom(state, hs[1..], ts);
      ContainingConcat(state, Prefixed(hs[0], ts), ProductFrom(hs[1..], ts));
      ContainingPrefixed(state, hs[0], ts);
      SplitHead(Count(hs[1..], state), |hs[1..]|, |ts|, |Containing(state, ts)|,
                |Containing(state, Prefixed(hs[0], ts))|, hs[0] == state);
    }
  }

  lemma CountStep(n: nat, k: nat, a: nat, b: nat, t: nat, x: nat, total: nat)
    requires k <= n && b <= a && t == a && x == a - b && total == k * t + (n - k) * x
    ensures total == n * a - (n - k) * b
  {
    assert (n - k) * x == (n - k) * a - (n - k) * b;
  }

  lemma {:induction false} ContainingProductCount(state: string, parents: seq<string>, size: nat)
    ensures |Containing(state, Product(parents, size))|
      == Power(|parents|, size) - Power(|parents| - Count(parents, state), size)
  {
    var n := |parents|;
    var k := Count(parents, state);
    if size > 0 {
      var tails := Product(parents, size - 1);
      ContainingProductCount(state, parents, size - 1);
      ProductCount(parents, size - 1);
      ContainingProductFrom(state, parents, tails);
      PowerMonotone(n - k, n, size - 1);
      CountStep(n, k, Power(n, size - 1), Power(n - k, size - 1), |tails|, |Containing(state, tails)|,
                |Containing(state, ProductFrom(parents, tails))|);
    } else {
      assert Product(parents, 0) == [[]];
      assert Containing(state, [[]]) == [];
    }
  }

  /**
   * With k copies of the state among n parents, n^size lists minus the
   * (n - k)^size lists that avoid it.
   */
  lemma GeneratePossibleChildrenCount(state: string, parents: seq<string>, size: nat)
    ensures |GeneratePossibleChildren(state, parents, size)|
      == Power(|parents|, size) - Power(|parents| - Count(parents, state), size)
  {
    ContainingProductCount(state, parents, size);
  }

  lemma {:induction false} ProductCount(parents: seq<string>, size: nat)
    ensures |Product(parents, size)| == Power(|parents|, size)
  {
    if size > 0 {
      ProductCount(parents, size - 1);
      ProductFromCount(parents, Product(parents, size - 1));
    }
  }

  lemma {:induction false} ProductFromCount(hs: seq<string>, ts: seq<seq<string>>)
    ensures |ProductFrom(hs, ts)| == |hs| * |ts|
  {
    if hs != [] {
      ProductFromCount(hs[1..], ts);
    }
  }

  lemma MulMonotone(b: nat, c: nat, x: nat, y: nat)
    requires b <= c && x <= y
    ensures b * x <= c * y
  {
    assert b * x <= c * x;
  }

  lemma {:induction false} PowerMonotone(b: nat, c: nat, e: nat)
    requires b <= c
    ensures Power(b, e) <= Power(c, e)
  {
    if e > 0 {
      PowerMonotone(b, c, e - 1);
      MulMonotone(b, c, Power(b, e - 1), Power(c, e - 1));
    }
  }

  /** Different parents give different lists: the result has no duplicates. */
  lemma GeneratePossibleChildrenDistinct(state: string, parents: seq<string>, size: nat)
    requires Distinct(parents)
    ensures Distinct(GeneratePossibleChildren(state, parents, size))
  {
    ProductDistinct(parents, size);
    ContainingDistinct(state, Product(parents, size));
  }

  lemma {:induction false} ProductDistinct(parents: seq<string>, size: nat)
    requires Distinct(parents)
    ensures Distinct(Product(parents, size))
  {
    if size > 0 {
      ProductDistinct(parents, size - 1);
      ProductFromDistinct(parents, Product(parents, size - 1));
    }
  }

  lemma {:induction false} ProductFromDistinct(hs: seq<string>, ts: seq<seq<string>>)
    requires Distinct(hs) && Distinct(ts)
    ensures Distinct(ProductFrom(hs, ts))
  {
    if hs != [] {
      ProductFromDistinct(hs[1..], ts);
      var pre := Prefixed(hs[0], ts);
      var post := ProductFrom(hs[1..], ts);
      assert Distinct(pre) by {
        forall i, j | 0 <= i < j < |pre| ensures pre[i] != pre[j] {
          assert pre[i][1..] == ts[i] && pre[j][1..] == ts[j];
        }
      }
      forall x | x in pre ensures x !in post {
        ProductFromMember(hs[1..], ts, x);
        assert x[0] == hs[0] && hs[0] !in hs[1..];
      }
      DistinctConcat(pre, post);
    }
  }

  lemma DistinctConcat<T>(a: seq<T>, b: seq<T>)
    requires Distinct(a) && Distinct(b) && forall x :: x in a ==> x !in b
    ensures Distinct(a + b)
  {
    forall i, j | 0 <= i < j < |a + b| ensures (a + b)[i] != (a + b)[j] {
      if i < |a| && j >= |a| {
        assert (a + b)[i] in a && (a + b)[j] == b[j - |a|];
      }
    }
  }

  lemma {:induction false} ContainingDistinct(state: string, ts: seq<seq<string>>)
    requires Distinct(ts)
    ensures Distinct(Containing(state, ts))
  {
    if ts != [] {
      ContainingDistinct(state, ts[1..]);
      var head: seq<seq<string>> := if state in ts[0] then [ts[0]] else [];
      forall x | x in head ensures x !in Containing(state, ts[1..]) {
        assert ts[0] !in ts[1..];
      }
      DistinctConcat(head, Containing(state, ts[1..]));
    }
  }

  /** The sample calls of the unit tests have 19, 7, 3, 61 and 15 results. */
  lemma SampleCountThreeOfThree()
    ensures |GeneratePossibleChildren("q0", ["q0", "q1", "q2"], 3)| == 19
  {
    SampleCount(["q0", "q1", "q2"], 3, 19);
  }

  lemma SampleCountThreeOfTwo()
    ensures |GeneratePossibleChildren("q0", ["q0", "q1"], 3)| == 7
  {
    SampleCount(["q0", "q1"], 3, 7);
  }

  lemma SampleCountTwoOfTwo()
    ensures |GeneratePossibleChildren("q0", ["q0", "q1"], 2)| == 3
  {
    SampleCount(["q0", "q1"], 2, 3);
  }

  lemma SampleCountThreeOfFive()
    ensures |GeneratePossibleChildren("q0", ["q0", "q1", "q2", "q3", "q4"], 3)| == 61
  {
    assert Power(5, 3) == 125 by {
      assert Power(5, 1) == 5;
    }
    assert Power(4, 3) == 64 by {
      assert Power(4, 1) == 4;
    }
    SampleCount(["q0", "q1", "q2", "q3", "q4"], 3, 61);
  }

  lemma SampleCountFourOfTwo()
    ensures |GeneratePossibleChildren("q0", ["q0", "q1"], 4)| == 15
  {
    SampleCount(["q0", "q1"], 4, 15);
  }

  lemma SampleCount(parents: seq<string>, size: nat, expected: nat)
    requires parents != [] && parents[0] == "q0" && "q0" !in parents[1..]
    requires Power(|parents|, size) - Power(|parents| - 1, size) == expected
    ensures |GeneratePossibleChildren("q0", parents, size)| == expected
  {
    NotCounted(parents[1..], "q0");
    assert Count(parents, "q0") == 1;
    GeneratePossibleChildrenCount("q0", parents, size);
  }

  lemma {:induction false} NotCounted(s: seq<string>, x: string)
    requires x !in s
    ensures Count(s, x) == 0
  {
    if s != [] {
      NotCounted(s[1..], x);
    }
  }
}
