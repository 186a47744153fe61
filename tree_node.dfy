/**
 * `TTreeNode`: the n-ary trees a tree automaton accepts. A node object has
 * a value, a parent link, an ordered list of children and a depth field
 * that the mutating operations keep equal to the distance from the root.
 * The shape of a node (its value and its children's shapes, without links
 * or depths) is the value type `Tree`, which the string conversions and
 * the matching functions work on.
 */
module TreeNodes {
  import opened Optional

  /** The shape of a tree: a node value and its children, left to right. */
  datatype Tree = Node(value: string, children: seq<Tree>)

  /** The number of levels of a tree; a single node has one. */
  function Levels(t: Tree): (r: nat)
    ensures r >= 1
    decreases t
  {
    1 + MaxLevels(t.children)
  }

  function MaxLevels(ts: seq<Tree>): (r: nat)
    ensures forall i :: 0 <= i < |ts| ==> Levels(ts[i]) <= r
    ensures ts != [] ==> exists i :: 0 <= i < |ts| && Levels(ts[i]) == r
    ensures ts == [] ==> r == 0
    decreases ts
  {
    if ts == [] then 0
    else
      var rest := MaxLevels(ts[..|ts| - 1]);
      var last := Levels(ts[|ts| - 1]);
      assert forall i :: 0 <= i < |ts| - 1 ==> ts[..|ts| - 1][i] == ts[i];
      if last > rest then last else rest
  }

  class TreeNode {
    var value: string
    var parent: TreeNode?
    var children: seq<TreeNode>
    var depth: int
    ghost var Repr: set<TreeNode>

    /**
     * The children are subtrees with pairwise disjoint footprints not
     * containing this node, each linked back to this node as its parent.
     */
    ghost predicate Valid()
      reads this`Repr, this`children, Repr`Repr, Repr`children, Repr`parent
      decreases Repr
    {
      && this in Repr
      && (forall i :: 0 <= i < |children| ==>
            && children[i] in Repr && children[i].Repr <= Repr && this !in children[i].Repr
            && children[i].parent == this && children[i].Valid())
      && (forall i, j :: 0 <= i < j < |children| ==> children[i].Repr !! children[j].Repr)
    }

    /** The shape below this node. */
    ghost function Shape(): Tree
      requires Valid()
      reads this`Repr, this`value, this`children, Repr`Repr, Repr`children, Repr`parent, Repr`value
      decreases Repr, |children| + 1
    {
      Node(value, ChildShapes(|children|))
    }

    /** The shapes of the first k children. */
    ghost function ChildShapes(k: nat): (r: seq<Tree>)
      requires Valid() && k <= |children|
      reads this`Repr, this`children, Repr`Repr, Repr`children, Repr`parent, Repr`value
      ensures |r| == k && forall i :: 0 <= i < k ==> r[i] == children[i].Shape()
      decreases Repr, k
    {
      if k == 0 then [] else ChildShapes(k - 1) + [children[k - 1].Shape()]
    }

    /** Every node at distance n below this node has depth d + n. */
    ghost predicate DepthsFrom(d: int)
      requires Valid()
      reads this`Repr, this`children, this`depth, Repr`Repr, Repr`children, Repr`parent, Repr`depth
      decreases Repr
    {
      depth == d && forall i :: 0 <= i < |children| ==> children[i].DepthsFrom(d + 1)
    }

    /** What `get_depth` computes: depth + 1 at a leaf, else the largest of that and the children's values. */
    ghost function Height(): int
      requires Valid()
      reads this`Repr, this`children, this`depth, Repr`Repr, Repr`children, Repr`parent, Repr`depth
      decreases Repr, |children| + 1
    {
      HeightUpTo(|children|)
    }

    /** The running maximum of `get_depth` after the first k children. */
    ghost function HeightUpTo(k: nat): int
      requires Valid() && k <= |children|
      reads this`Repr, this`children, this`depth, Repr`Repr, Repr`children, Repr`parent, Repr`depth
      decreases Repr, k
    {
      if k == 0 then depth + 1
      else
        var h := children[k - 1].Height();
        var m := HeightUpTo(k - 1);
        if h > m then h else m
    }

    /** A new parentless leaf at depth 0. */
    constructor (value: string)
      ensures Valid() && fresh(Repr) && Repr == {this}
      ensures this.value == value && parent == null && children == [] && depth == 0
    {
      this.value := value;
      parent := null;
      children := [];
      depth := 0;
      Repr := {this};
    }

    /**
     * `update_depth`: this node gets depth d and every descendant the depth
     * d plus its distance from this node; nothing but depths changes.
     */
    method UpdateDepth(d: int)
      requires Valid()
      modifies Repr`depth
      ensures Valid() && DepthsFrom(d)
      decreases Repr
    {
      depth := d;
      for i := 0 to |children|
        invariant depth == d
        invariant forall k :: 0 <= k < i ==> children[k].DepthsFrom(d + 1)
      {
        children[i].UpdateDepth(d + 1);
      }
    }

    /**
     * `connect_child`: node becomes the last child of this node, gets this
     * node as parent, and its subtree's depths are renumbered from this
     * node's depth + 1.
     */
    method ConnectChild(node: TreeNode)
      requires Valid() && node.Valid() && Repr !! node.Repr
      modifies this`children, this`Repr, node`parent, node.Repr`depth
      ensures Valid()
      ensures children == old(children) + [node] && node.parent == this
      ensures Repr == old(Repr) + node.Repr
      ensures node.DepthsFrom(depth + 1)
    {
      children := children + [node];
      node.parent := this;
      assert node.Valid();
      Repr := Repr + node.Repr;
      node.UpdateDepth(depth + 1);
    }

    /**
     * `remove_child`: the leftmost child with the given value leaves the
     * list of children; with no such child nothing changes.
     */
    method RemoveChild(v: string)
      requires Valid()
      modifies this`children
      ensures Valid()
      ensures (forall i :: 0 <= i < |old(children)| ==> old(children)[i].value != v) ==> children == old(children)
      ensures forall i :: (0 <= i < |old(children)| && old(children)[i].value == v && forall j :: 0 <= j < i ==> old(children)[j].value != v) ==>
        children == old(children)[..i] + old(children)[i + 1..]
    {
      for i := 0 to |children|
        invariant forall j :: 0 <= j < i ==> children[j].value != v
      {
        if children[i].value == v {
          RemoveAt(i);
          return;
        }
      }
    }

    /** `children.pop(i)`, keeping the footprint. */
    method RemoveAt(i: nat)
      requires Valid() && i < |children|
      modifies this`children
      ensures Valid() && children == old(children)[..i] + old(children)[i + 1..]
    {
      ghost var cs := children;
      children := children[..i] + children[i + 1..];
      assert forall k :: 0 <= k < |children| ==> children[k] == if k < i then cs[k] else cs[k + 1];
    }

    /** `get_depth`: the largest depth + 1 over the subtree. */
    method GetDepth() returns (r: int)
      requires Valid()
      ensures r == Height()
      decreases Repr
    {
      r := depth + 1;
      for i := 0 to |children|
        invariant r == HeightUpTo(i)
      {
        var h := children[i].GetDepth();
        if h > r {
          r := h;
        }
      }
    }

    /**
     * With depths numbered from d, `get_depth` is d plus the number of
     * levels of the tree: after `update_depth(0)` it is the tree's height
     * counted in levels.
     */
    lemma HeightOfNumbered(d: int)
      requires Valid() && DepthsFrom(d)
      ensures Height() == d + Levels(Shape())
      decreases Repr, |children| + 1
    {
      HeightUpToNumbered(d, |children|);
    }

    lemma HeightUpToNumbered(d: int, k: nat)
      requires Valid() && DepthsFrom(d) && k <= |children|
      ensures HeightUpTo(k) == d + 1 + MaxLevels(ChildShapes(k))
      decreases Repr, k
    {
      if k > 0 {
        HeightUpToNumbered(d, k - 1);
        children[k - 1].HeightOfNumbered(d + 1);
        var ts := ChildShapes(k);
        assert ts[..k - 1] == ChildShapes(k - 1);
        assert ts[k - 1] == children[k - 1].Shape();
      }
    }
  }

  // ---------------------------------------------------------------------
  // String form: `x[y;z]` is the node x with children y and z
  // ---------------------------------------------------------------------

  /** `convert_tree_to_string`: a leaf is its value; an inner node is its value followed by its children's strings in brackets, separated by ';'. */
  function ToString(t: Tree): (r: string)
    ensures |r| >= |t.value| && r[..|t.value|] == t.value
    ensures WordTree(t) ==> r != [] && !IsSpace(r[0]) && !IsSpace(r[|r| - 1])
    decreases t, 1
  {
    t.value + Tail(t)
  }

  /** What follows a node's value in its string: nothing for a leaf, else the bracketed children. */
  function Tail(t: Tree): (r: string)
    ensures t.children == [] <==> r == []
    ensures t.children != [] ==> r[0] == '[' && r[|r| - 1] == ']'
    decreases t, 0
  {
    if t.children == [] then [] else "[" + ToString(t.children[0]) + Separated(t.children[1..]) + "]"
  }

  /** The strings of ts, each preceded by ';'. */
  function Separated(ts: seq<Tree>): (r: string)
    ensures ts == [] <==> r == []
    ensures ts != [] ==> r[0] == ';'
    decreases ts
  {
    if ts == [] then [] else ";" + ToString(ts[0]) + Separated(ts[1..])
  }

  /** The whitespace `str.strip` removes (its ASCII part). */
  predicate IsSpace(c: char)
  {
    c == ' ' || c == '\t' || c == '\n' || c == '\r' || c == '\U{000B}' || c == '\U{000C}'
  }

  /** A character `\w` matches (its ASCII part). */
  predicate IsWordChar(c: char)
  {
    ('a' <= c <= 'z') || ('A' <= c <= 'Z') || ('0' <= c <= '9') || c == '_'
  }

  function StripLeft(s: string): (r: string)
    ensures |r| <= |s| && (r == [] || !IsSpace(r[0]))
    ensures s == [] || !IsSpace(s[0]) ==> r == s
  {
    if s != [] && IsSpace(s[0]) then StripLeft(s[1..]) else s
  }

  function StripRight(s: string): (r: string)
    ensures |r| <= |s| && r == s[..|r|] && (r == [] || !IsSpace(r[|r| - 1]))
    ensures s == [] || !IsSpace(s[|s| - 1]) ==> r == s
  {
    if s != [] && IsSpace(s[|s| - 1]) then StripRight(s[..|s| - 1]) else s
  }

  /** `str.strip()`: leading and trailing whitespace removed. */
  function Strip(s: string): (r: string)
    ensures |r| <= |s|
    ensures r != [] ==> !IsSpace(r[0]) && !IsSpace(r[|r| - 1])
    ensures s == [] || (!IsSpace(s[0]) && !IsSpace(s[|s| - 1])) ==> r == s
  {
    var l := StripLeft(s);
    var r := StripRight(l);
    assert r != [] ==> r[0] == l[0];
    r
  }

  /** `str.lstrip(chars)`: leading characters that occur in chars removed. */
  function LStrip(s: string, chars: string): (r: string)
    ensures |r| <= |s| && r == s[|s| - |r|..]
  {
    if s != [] && s[0] in chars then LStrip(s[1..], chars) else s
  }

  /** The length of the longest prefix of word characters (what `re.match("^[\w]+", s)` matches). */
  function WordLength(s: string): (n: nat)
    ensures n <= |s| && (forall i :: 0 <= i < n ==> IsWordChar(s[i])) && (n == |s| || !IsWordChar(s[n]))
  {
    if s != [] && IsWordChar(s[0]) then 1 + WordLength(s[1..]) else 0
  }

  /** Stripping the characters of a maximal word prefix strips exactly that prefix. */
  lemma {:induction false} LStripWord(s: string, k: nat, name: string)
    requires k <= WordLength(s) == |name| && name == s[..|name|]
    ensures LStrip(s[k..], name) == s[|name|..]
    decreases |name| - k
  {
    if k < |name| {
      assert s[k..][0] == s[k] == name[k];
      assert s[k..][1..] == s[k + 1..];
      LStripWord(s, k + 1, name);
    } else if k < |s| {
      assert forall c :: c in name ==> IsWordChar(c);
      assert s[k..][0] == s[k];
    }
  }

  /**
   * `get_node_from_string`: the stripped string's leading word is the new
   * node's value; the rest follows it. No leading word is the
   * AttributeError of matching nothing (None).
   */
  function GetNode(s: string): (r: Option<(string, string)>)
    ensures r.None? <==> WordLength(Strip(s)) == 0
    ensures r.Some? ==> var t := Strip(s); var n := WordLength(t); r.value == (t[..n], t[n..])
    ensures r.Some? ==> r.value.0 != [] && |r.value.1| < |s|
    ensures r.Some? ==> forall i :: 0 <= i < |r.value.0| ==> IsWordChar(r.value.0[i])
  {
    var s := Strip(s);
    var n := WordLength(s);
    if n == 0 then None
    else
      LStripWord(s, 0, s[..n]);
      assert s[0..] == s;
      Some((s[..n], LStrip(s, s[..n])))
  }

  /** A node whose children are still being read: its value and the children completed so far. */
  datatype Frame = Frame(value: string, done: seq<Tree>)

  /** What `convert_string_to_tree` gives back: a tree, None (an empty string) or an exception. */
  datatype Built = Built(tree: Tree) | NoTree | Fails

  /** The innermost open node is complete: it joins its parent's children. */
  function Attach(stack: seq<Frame>): (r: seq<Frame>)
    requires |stack| >= 2
    ensures |r| == |stack| - 1
  {
    var n := |stack|;
    var top := stack[n - 1];
    var up := stack[n - 2];
    stack[..n - 2] + [Frame(up.value, up.done + [Node(top.value, top.done)])]
  }

  /** One step of reading: a final answer, or the stack and the text left to read. */
  datatype Step = Done(result: Built) | Continue(stack: seq<Frame>, rest: string)

  /**
   * One call of `build_tree_from_string` with the chain of parent links of
   * the current node as a stack of open nodes, the current one last (no
   * current node: the empty stack). '[' opens a child of the current node,
   * ';' a sibling, ']' returns to the parent, and a word starts a new root.
   * Using the parent of a node that has none, or a missing node, is an
   * AttributeError (Fails). At the end the current node is the result.
   */
  function ReadStep(stack: seq<Frame>, s: string): (r: Step)
    ensures r.Continue? ==> |r.rest| < |s|
  {
    var s := Strip(s);
    if s == [] then
      Done(if stack == [] then NoTree else Built(Node(stack[|stack| - 1].value, stack[|stack| - 1].done)))
    else if s[0] == '[' then
      match GetNode(s[1..])
      case None => Done(Fails)
      case Some((name, rest)) => if stack == [] then Done(Fails) else Continue(stack + [Frame(name, [])], rest)
    else if s[0] == ';' then
      match GetNode(s[1..])
      case None => Done(Fails)
      case Some((name, rest)) => if |stack| < 2 then Done(Fails) else Continue(Attach(stack) + [Frame(name, [])], rest)
    else if s[0] == ']' then
      if stack == [] then Done(Fails)
      else if |stack| == 1 then Continue([], s[1..])
      else Continue(Attach(stack), s[1..])
    else
      match GetNode(s)
      case None => Done(Fails)
      case Some((name, rest)) => Continue([Frame(name, [])], rest)
  }

  /** `build_tree_from_string`: steps until an answer. */
  function Build(stack: seq<Frame>, s: string): Built
    decreases |s|
  {
    match ReadStep(stack, s)
    case Done(b) => b
    case Continue(next, rest) => Build(next, rest)
  }

  /** `convert_string_to_tree`. */
  function Parse(s: string): Built
  {
    Build([], s)
  }

  /** Every value is a nonempty word, so the string form can be read back. */
  predicate WordTree(t: Tree)
    decreases t
  {
    && t.value != []
    && (forall i :: 0 <= i < |t.value| ==> IsWordChar(t.value[i]))
    && forall i :: 0 <= i < |t.children| ==> WordTree(t.children[i])
  }

  function Size(t: Tree): nat
    decreases t
  {
    1 + SizeAll(t.children)
  }

  function SizeAll(ts: seq<Tree>): nat
    decreases ts
  {
    if ts == [] then 0 else Size(ts[0]) + SizeAll(ts[1..])
  }

  /** What may follow a complete node: nothing, a sibling or a closing bracket, ending in no whitespace. */
  predicate Follows(rest: string)
  {
    rest == [] || ((rest[0] == ';' || rest[0] == ']') && !IsSpace(rest[|rest| - 1]))
  }

  /** A word followed by text that does not continue it is read as a node named by that word. */
  lemma ReadWord(v: string, after: string)
    requires v != [] && (forall i :: 0 <= i < |v| ==> IsWordChar(v[i]))
    requires after == [] || (!IsWordChar(after[0]) && !IsSpace(after[|after| - 1]))
    ensures GetNode(v + after) == Some((v, after))
  {
    var s := v + after;
    assert s[0] == v[0];
    assert !IsSpace(s[|s| - 1]) by {
      if after == [] {
        assert s[|s| - 1] == v[|v| - 1];
      } else {
        assert s[|s| - 1] == after[|after| - 1];
      }
    }
    assert Strip(s) == s;
    WordLengthOf(v, after);
    assert s[..|v|] == v && s[|v|..] == after;
  }

  lemma {:induction false} WordLengthOf(v: string, after: string)
    requires forall i :: 0 <= i < |v| ==> IsWordChar(v[i])
    requires after == [] || !IsWordChar(after[0])
    ensures WordLength(v + after) == |v|
  {
    if v != [] {
      assert (v + after)[0] == v[0];
      assert (v + after)[1..] == v[1..] + after;
      WordLengthOf(v[1..], after);
    } else {
      assert v + after == after;
    }
  }

  /** What is read after a word: it starts with no word character and ends in no whitespace. */
  predicate Delimited(after: string)
  {
    after == [] || (!IsWordChar(after[0]) && !IsSpace(after[|after| - 1]))
  }

  /** On stripped text starting with '[' and a word, with a current node, the word is opened as its child. */
  lemma StepOpen(stack: seq<Frame>, s: string, v: string, after: string)
    requires Strip(s) == s && s != [] && s[0] == '[' && GetNode(s[1..]) == Some((v, after)) && stack != []
    ensures Build(stack, s) == Build(stack + [Frame(v, [])], after)
  {
  }

  /** On stripped text starting with ';' and a word, with a current node that has a parent, the word is opened as its sibling. */
  lemma StepNext(stack: seq<Frame>, s: string, v: string, after: string)
    requires Strip(s) == s && s != [] && s[0] == ';' && GetNode(s[1..]) == Some((v, after)) && |stack| >= 2
    ensures Build(stack, s) == Build(Attach(stack) + [Frame(v, [])], after)
  {
  }

  /** On stripped text starting with ']', with a current node that has a parent, the current node is completed. */
  lemma StepClose(stack: seq<Frame>, s: string)
    requires Strip(s) == s && s != [] && s[0] == ']' && |stack| >= 2
    ensures Build(stack, s) == Build(Attach(stack), s[1..])
  {
  }

  /** On stripped text starting with a word, the word is a new root. */
  lemma StepWord(stack: seq<Frame>, s: string, v: string, after: string)
    requires Strip(s) == s && s != [] && s[0] != '[' && s[0] != ';' && s[0] != ']' && GetNode(s) == Some((v, after))
    ensures Build(stack, s) == Build([Frame(v, [])], after)
  {
  }

  /** A mark followed by a word and delimited text is already stripped, and the word is read after the mark. */
  lemma MarkedWord(mark: char, v: string, after: string)
    requires !IsSpace(mark) && v != [] && (forall i :: 0 <= i < |v| ==> IsWordChar(v[i])) && Delimited(after)
    ensures var s := [mark] + v + after; Strip(s) == s && s[0] == mark && GetNode(s[1..]) == Some((v, after))
  {
    var s := [mark] + v + after;
    assert s[|s| - 1] == if after == [] then v[|v| - 1] else after[|after| - 1];
    assert s[1..] == v + after;
    ReadWord(v, after);
  }

  /** '[' followed by a word opens a child of the current node. */
  lemma BuildOpen(stack: seq<Frame>, v: string, after: string)
    requires stack != [] && v != [] && (forall i :: 0 <= i < |v| ==> IsWordChar(v[i])) && Delimited(after)
    ensures Build(stack, "[" + v + after) == Build(stack + [Frame(v, [])], after)
  {
    MarkedWord('[', v, after);
    StepOpen(stack, "[" + v + after, v, after);
  }

  /** ';' followed by a word completes the current node and opens its next sibling. */
  lemma BuildNext(stack: seq<Frame>, v: string, after: string)
    requires |stack| >= 2 && v != [] && (forall i :: 0 <= i < |v| ==> IsWordChar(v[i])) && Delimited(after)
    ensures Build(stack, ";" + v + after) == Build(Attach(stack) + [Frame(v, [])], after)
  {
    MarkedWord(';', v, after);
    StepNext(stack, ";" + v + after, v, after);
  }

  /** ']' completes the current node and returns to its parent. */
  lemma BuildClose(stack: seq<Frame>, rest: string)
    requires |stack| >= 2 && Follows(rest)
    ensures Build(stack, "]" + rest) == Build(Attach(stack), rest)
  {
    var s := "]" + rest;
    assert Strip(s) == s;
    assert s[1..] == rest;
    StepClose(stack, s);
  }

  /** The text after a node's value, when a sibling or a bracket follows it, does not continue the word. */
  lemma TailDelimited(t: Tree, rest: string)
    requires Follows(rest)
    ensures Delimited(Tail(t) + rest)
  {
    var a := Tail(t) + rest;
    if Tail(t) != [] {
      assert a[0] == '[';
      assert a[|a| - 1] == if rest == [] then ']' else rest[|rest| - 1];
    } else {
      assert a == rest;
    }
  }

  /** The rest of a child list: its siblings and the closing bracket, which a closing bracket or a sibling may follow. */
  lemma SiblingsFollow(more: seq<Tree>, rest: string)
    requires Follows(rest)
    ensures Follows(Separated(more) + "]" + rest)
  {
    var a := Separated(more) + "]" + rest;
    if more == [] {
      assert a[0] == ']';
    } else {
      assert a[0] == ';';
    }
    assert a[|a| - 1] == if rest == [] then ']' else rest[|rest| - 1];
  }

  /** The tail of an inner node opens its first child. */
  lemma BuildFirstChild(stack: seq<Frame>, t: Tree, rest: string)
    requires WordTree(t) && t.children != [] && Follows(rest)
    ensures Build(stack + [Frame(t.value, [])], Tail(t) + rest)
         == Build(stack + [Frame(t.value, []), Frame(t.children[0].value, [])], Tail(t.children[0]) + (Separated(t.children[1..]) + "]" + rest))
  {
    var open := stack + [Frame(t.value, [])];
    assert open + [Frame(t.children[0].value, [])] == stack + [Frame(t.value, []), Frame(t.children[0].value, [])];
    var c := t.children[0];
    var tailRest := Separated(t.children[1..]) + "]" + rest;
    var after := Tail(c) + tailRest;
    assert WordTree(c);
    assert Delimited(after) by {
      SiblingsFollow(t.children[1..], rest);
      TailDelimited(c, tailRest);
    }
    TailSplit(t, rest);
    BuildOpen(open, c.value, after);
  }

  /** The tail of an inner node: '[', its first child's value and tail, the other children, ']'. */
  lemma TailSplit(t: Tree, rest: string)
    requires t.children != []
    ensures Tail(t) + rest == "[" + t.children[0].value + (Tail(t.children[0]) + (Separated(t.children[1..]) + "]" + rest))
  {
    var c := t.children[0];
    Regroup("[", c.value, Tail(c), Separated(t.children[1..]), "]", rest);
  }

  lemma Regroup(a: string, b: string, c: string, d: string, e: string, f: string)
    ensures a + (b + c) + d + e + f == a + b + (c + (d + e + f))
  {
  }

  /**
   * Reading what follows a node's value: once the node is open on the
   * stack, its tail leaves it complete on the stack.
   */
  lemma {:induction false} BuildTail(stack: seq<Frame>, t: Tree, rest: string)
    requires WordTree(t) && Follows(rest)
    ensures Build(stack + [Frame(t.value, [])], Tail(t) + rest) == Build(stack + [Frame(t.value, t.children)], rest)
    decreases Size(t), 1
  {
    if t.children != [] {
      BuildFirstChild(stack, t, rest);
      BuildChildren(stack, t, rest);
    }
  }

  /** Once the first child of t is open, the rest of t's tail completes t. */
  lemma {:induction false} BuildChildren(stack: seq<Frame>, t: Tree, rest: string)
    requires WordTree(t) && t.children != [] && Follows(rest)
    ensures Build(stack + [Frame(t.value, []), Frame(t.children[0].value, [])], Tail(t.children[0]) + (Separated(t.children[1..]) + "]" + rest))
         == Build(stack + [Frame(t.value, t.children)], rest)
    decreases Size(t), 0
  {
    var c := t.children[0];
    var more := t.children[1..];
    var tailRest := Separated(more) + "]" + rest;
    var open := stack + [Frame(t.value, [])];
    assert t.children == [c] + more;
    assert Size(c) < Size(t) && SizeAll(more) < Size(t);
    assert WordTree(c) && Follows(tailRest) by {
      SiblingsFollow(more, rest);
    }
    calc {
      Build(stack + [Frame(t.value, []), Frame(c.value, [])], Tail(c) + tailRest);
      { assert stack + [Frame(t.value, []), Frame(c.value, [])] == open + [Frame(c.value, [])]; }
      Build(open + [Frame(c.value, [])], Tail(c) + tailRest);
      { BuildTail(open, c, tailRest); }
      Build(open + [Frame(c.value, c.children)], tailRest);
      { assert open + [Frame(c.value, c.children)] == stack + [Frame(t.value, []), Frame(c.value, c.children)]; }
      Build(stack + [Frame(t.value, []), Frame(c.value, c.children)], tailRest);
      { BuildSiblings(stack, Frame(t.value, []), c, more, rest); }
      Build(stack + [Frame(t.value, [] + [c] + more)], rest);
      { assert [] + [c] + more == t.children; }
      Build(stack + [Frame(t.value, t.children)], rest);
    }
  }

  /** The siblings' text, when there are siblings, opens the first of them. */
  lemma BuildNextSibling(full: seq<Frame>, more: seq<Tree>, rest: string)
    requires |full| >= 2 && more != [] && WordTree(more[0]) && Follows(rest)
    ensures Build(full, Separated(more) + "]" + rest)
         == Build(Attach(full) + [Frame(more[0].value, [])], Tail(more[0]) + (Separated(more[1..]) + "]" + rest))
  {
    var d := more[0];
    var tailRest := Separated(more[1..]) + "]" + rest;
    var after := Tail(d) + tailRest;
    assert Delimited(after) by {
      SiblingsFollow(more[1..], rest);
      TailDelimited(d, tailRest);
    }
    assert Separated(more) + "]" + rest == ";" + d.value + after by {
      Regroup(";", d.value, Tail(d), Separated(more[1..]), "]", rest);
    }
    BuildNext(full, d.value, after);
  }

  /**
   * Reading the remaining siblings of a complete child c of the open node
   * f, and the closing bracket: f is left complete with c and the siblings
   * as its last children.
   */
  lemma {:induction false} BuildSiblings(stack: seq<Frame>, f: Frame, c: Tree, more: seq<Tree>, rest: string)
    requires forall i :: 0 <= i < |more| ==> WordTree(more[i])
    requires Follows(rest)
    ensures Build(stack + [f, Frame(c.value, c.children)], Separated(more) + "]" + rest)
         == Build(stack + [Frame(f.value, f.done + [c] + more)], rest)
    decreases SizeAll(more), 2
  {
    var full := stack + [f, Frame(c.value, c.children)];
    var f2 := Frame(f.value, f.done + [c]);
    assert Attach(full) == stack + [f2];
    if more == [] {
      assert Separated(more) + "]" + rest == "]" + rest;
      BuildClose(full, rest);
      assert f.done + [c] + more == f2.done;
    } else {
      var d := more[0];
      var tailRest := Separated(more[1..]) + "]" + rest;
      assert WordTree(d) && Follows(tailRest) by {
        SiblingsFollow(more[1..], rest);
      }
      assert SizeAll(more) == Size(d) + SizeAll(more[1..]);
      calc {
        Build(full, Separated(more) + "]" + rest);
        { BuildNextSibling(full, more, rest); }
        Build(Attach(full) + [Frame(d.value, [])], Tail(d) + tailRest);
        Build(stack + [f2] + [Frame(d.value, [])], Tail(d) + tailRest);
        { BuildTail(stack + [f2], d, tailRest); }
        Build(stack + [f2] + [Frame(d.value, d.children)], tailRest);
        { assert stack + [f2] + [Frame(d.value, d.children)] == stack + [f2, Frame(d.value, d.children)]; }
        Build(stack + [f2, Frame(d.value, d.children)], tailRest);
        { BuildSiblings(stack, f2, d, more[1..], rest); }
        Build(stack + [Frame(f.value, f2.done + [d] + more[1..])], rest);
        { assert f2.done + [d] + more[1..] == f.done + [c] + more; }
        Build(stack + [Frame(f.value, f.done + [c] + more)], rest);
      }
    }
  }

  /** The string form of a tree whose values are words is stripped, and starts with the root's value. */
  lemma RootText(t: Tree)
    requires WordTree(t)
    ensures var s := ToString(t); Strip(s) == s && s != [] && s[0] != '[' && s[0] != ';' && s[0] != ']'
    ensures GetNode(ToString(t)) == Some((t.value, Tail(t)))
  {
    var s := ToString(t);
    assert s[0] == t.value[0] && IsWordChar(s[0]);
    TailDelimited(t, []);
    assert Tail(t) + [] == Tail(t);
    ReadWord(t.value, Tail(t));
  }

  /** Reading the string form of a tree whose values are words gives the tree back. */
  lemma StringRoundTrip(t: Tree)
    requires WordTree(t)
    ensures Parse(ToString(t)) == Built(t)
  {
    calc {
      Parse(ToString(t));
      Build([], ToString(t));
      { RootText(t); StepWord([], ToString(t), t.value, Tail(t)); }
      Build([Frame(t.value, [])], Tail(t));
      { assert [Frame(t.value, [])] == [] + [Frame(t.value, [])] && Tail(t) == Tail(t) + []; }
      Build([] + [Frame(t.value, [])], Tail(t) + []);
      { BuildTail([], t, []); }
      Build([] + [Frame(t.value, t.children)], []);
      { assert [] + [Frame(t.value, t.children)] == [Frame(t.value, t.children)]; }
      Build([Frame(t.value, t.children)], []);
      { assert ReadStep([Frame(t.value, t.children)], []) == Done(Built(t)); }
      Built(t);
    }
  }

  /** The example of `convert_string_to_tree`'s documentation: `x[y;z]` is x with the children y and z. */
  lemma ParseExample()
    ensures Parse("x[y;z]") == Built(Node("x", [Node("y", []), Node("z", [])]))
  {
    var t := Node("x", [Node("y", []), Node("z", [])]);
    ExampleText(t);
    StringRoundTrip(t);
  }

  lemma ExampleText(t: Tree)
    requires t == Node("x", [Node("y", []), Node("z", [])])
    ensures WordTree(t) && ToString(t) == "x[y;z]"
  {
    assert WordTree(t.children[0]) && WordTree(t.children[1]);
    assert t.children[1..] == [Node("z", [])];
    assert Separated([Node("z", [])]) == ";z";
  }

  /** Blank text gives no tree. */
  lemma ParseBlank()
    ensures Parse(" ") == NoTree
  {
    assert Strip(" ") == [];
  }

  /** A child with no node before it is an error. */
  lemma ParseOrphanChild()
    ensures Parse("[x]") == Fails
  {
    assert Strip("[x]") == "[x]" && "[x]"[1..] == "x]";
    assert Strip("x]") == "x]" && WordLength("x]") == 1;
  }

  /** A sibling of the root is an error: the root has no parent. */
  lemma ParseRootSibling()
    ensures Parse("x;y") == Fails
  {
    WordFirst("x", ";y");
    assert "x" + ";y" == "x;y";
    SiblingOfRoot();
  }

  lemma SiblingOfRoot()
    ensures Build([Frame("x", [])], ";y") == Fails
  {
    assert Strip(";y") == ";y" && ";y"[1..] == "y";
    assert Strip("y") == "y" && WordLength("y") == 1;
  }

  /** A bracket must be followed by a node. */
  lemma ParseMissingWord()
    ensures Parse("x[]") == Fails
  {
    WordFirst("x", "[]");
    assert "x" + "[]" == "x[]";
    NoWordInBrackets();
  }

  lemma NoWordInBrackets()
    ensures Build([Frame("x", [])], "[]") == Fails
  {
    assert Strip("[]") == "[]" && "[]"[1..] == "]";
    assert Strip("]") == "]" && WordLength("]") == 0;
  }

  /** Text starting with a word and then a mark is read as a new root named by the word. */
  lemma WordFirst(v: string, after: string)
    requires v != [] && (forall i :: 0 <= i < |v| ==> IsWordChar(v[i])) && Delimited(after)
    ensures Build([], v + after) == Build([Frame(v, [])], after)
  {
    var s := v + after;
    assert s[0] == v[0] && !IsSpace(s[0]);
    assert s[|s| - 1] == if after == [] then v[|v| - 1] else after[|after| - 1];
    ReadWord(v, after);
    StepWord([], s, v, after);
  }
}
