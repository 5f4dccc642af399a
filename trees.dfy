/** Expression trees in the flattened post-order layout.

    A tree is a sequence of nodes in post-order: the children of a node sit in
    the contiguous block right before it and the root is the last node. A
    node's `length` counts its DESCENDANTS, so the subtree rooted at index i is
    the slice [i - length, i] and holds length + 1 nodes.

    The Tree class (tree.hpp) is not part of this model. What the modelled code
    needs from it is defined here: the layout invariant, UpdateNodes (which
    re-derives every `length` after a raw node sequence is assembled), and the
    Level and Depth queries. The layout invariant is phrased through the
    stack effect of a node: evaluating a post-order sequence pops `arity`
    operands and pushes one result per node, so a sequence is a forest of m
    trees exactly when the running count never drops below one and ends at m. */
module Trees {
  import opened Symbols

  /** Identity of a variable column or a function symbol (a 64-bit hash in the source). */
  type Hash = nat

  datatype Node = Node(kind: NodeType, arity: nat, length: nat, value: real, hash: Hash)
  {
    predicate IsLeaf() { arity == 0 }
    predicate IsConstant() { kind == Constant }
    predicate IsVariable() { kind == Variable }
  }

  /** Net number of values a node leaves on the evaluation stack. */
  function Balance(n: Node): int
  {
    1 - n.arity
  }

  /** Net stack effect of a node sequence. */
  function Sum(s: seq<Node>): int
    decreases |s|
  {
    if s == [] then 0 else Sum(s[..|s| - 1]) + Balance(s[|s| - 1])
  }

  /** `s` evaluates to exactly `m` values and never pops an empty stack. */
  ghost predicate IsForest(s: seq<Node>, m: int)
  {
    Sum(s) == m && StackNeverEmpty(s)
  }

  /** Every non-empty prefix of `s` leaves at least one value on the stack. */
  ghost predicate StackNeverEmpty(s: seq<Node>)
    decreases |s|
  {
    s == [] || (Sum(s) >= 1 && StackNeverEmpty(s[..|s| - 1]))
  }

  lemma {:induction false} PrefixPositive(s: seq<Node>, p: nat)
    requires StackNeverEmpty(s) && 1 <= p <= |s|
    ensures Sum(s[..p]) >= 1
    decreases |s|
  {
    if p == |s| {
      assert s[..p] == s;
    } else {
      var t := s[..|s| - 1];
      assert t[..p] == s[..p];
      PrefixPositive(t, p);
    }
  }

  lemma AllPrefixesPositive(s: seq<Node>)
    requires StackNeverEmpty(s)
    ensures forall p :: 1 <= p <= |s| ==> Sum(s[..p]) >= 1
  {
    forall p | 1 <= p <= |s|
      ensures Sum(s[..p]) >= 1
    {
      PrefixPositive(s, p);
    }
  }

  lemma {:induction false} NeverEmptyFromPrefixes(s: seq<Node>)
    requires forall p :: 1 <= p <= |s| ==> Sum(s[..p]) >= 1
    ensures StackNeverEmpty(s)
    decreases |s|
  {
    if s != [] {
      assert s[..|s|] == s;
      var t := s[..|s| - 1];
      forall p | 1 <= p <= |t|
        ensures Sum(t[..p]) >= 1
      {
        assert t[..p] == s[..p];
      }
      NeverEmptyFromPrefixes(t);
    }
  }

  /** `s` is one tree in post-order. */
  ghost predicate IsTree(s: seq<Node>)
  {
    IsForest(s, 1)
  }

  /** A tree whose `length` fields are the ones UpdateNodes derives: every
      node's descendant count fits before it and delimits a subtree. */
  ghost predicate ValidTree(s: seq<Node>)
  {
    && IsTree(s)
    && forall i :: 0 <= i < |s| ==> SpansSubtree(s, i)
  }

  /** Node i's descendant count fits before it and delimits a tree. */
  ghost predicate SpansSubtree(s: seq<Node>, i: nat)
    requires i < |s|
  {
    s[i].length <= i && IsTree(s[i - s[i].length .. i + 1])
  }

  /** The subtree slice of node i in a valid tree is itself a tree. */
  lemma SubtreeAt(s: seq<Node>, i: nat)
    requires ValidTree(s) && i < |s|
    ensures s[i].length <= i && IsTree(s[i - s[i].length .. i + 1])
  {
    assert SpansSubtree(s, i);
  }

  /** Two node sequences have the same shape when their arities agree. */
  ghost predicate SameShape(a: seq<Node>, b: seq<Node>)
  {
    |a| == |b| && forall i :: 0 <= i < |a| ==> a[i].arity == b[i].arity
  }

  lemma {:induction false} SumAppend(a: seq<Node>, b: seq<Node>)
    ensures Sum(a + b) == Sum(a) + Sum(b)
    decreases |b|
  {
    if b == [] {
      assert a + b == a;
    } else {
      var b' := b[..|b| - 1];
      assert (a + b)[..|a + b| - 1] == a + b';
      SumAppend(a, b');
    }
  }

  lemma SumSingle(n: Node)
    ensures Sum([n]) == Balance(n)
  {
    assert [n][..0] == [];
  }

  /** The stack effect of a slice is the difference of two prefix effects. */
  lemma SliceSum(s: seq<Node>, a: nat, b: nat)
    requires a <= b <= |s|
    ensures Sum(s[a..b]) == Sum(s[..b]) - Sum(s[..a])
  {
    assert s[..b] == s[..a] + s[a..b];
    SumAppend(s[..a], s[a..b]);
  }

  lemma {:induction false} ShapeSum(a: seq<Node>, b: seq<Node>)
    requires SameShape(a, b)
    ensures Sum(a) == Sum(b)
    decreases |a|
  {
    if a != [] {
      ShapeSum(a[..|a| - 1], b[..|b| - 1]);
    }
  }

  lemma ShapeForest(a: seq<Node>, b: seq<Node>, m: int)
    requires SameShape(a, b) && IsForest(a, m)
    ensures IsForest(b, m)
  {
    ShapeSum(a, b);
    AllPrefixesPositive(a);
    forall p | 1 <= p <= |b|
      ensures Sum(b[..p]) >= 1
    {
      ShapeSum(a[..p], b[..p]);
    }
    NeverEmptyFromPrefixes(b);
  }

  /** Forests concatenate: m trees followed by k trees are m + k trees. */
  lemma ForestConcat(a: seq<Node>, m: int, b: seq<Node>, k: int)
    requires IsForest(a, m) && IsForest(b, k)
    ensures IsForest(a + b, m + k)
  {
    SumAppend(a, b);
    AllPrefixesPositive(a);
    AllPrefixesPositive(b);
    assert m >= 0 by {
      if a != [] { assert a[..|a|] == a; }
    }
    forall p | 1 <= p <= |a + b|
      ensures Sum((a + b)[..p]) >= 1
    {
      if p <= |a| {
        assert (a + b)[..p] == a[..p];
      } else {
        assert (a + b)[..p] == a + b[..p - |a|];
        SumAppend(a, b[..p - |a|]);
      }
    }
    NeverEmptyFromPrefixes(a + b);
  }

  /** A node whose arity equals the number of trees before it closes them
      into a single tree. */
  lemma CloseForest(f: seq<Node>, n: Node)
    requires IsForest(f, n.arity)
    ensures IsTree(f + [n])
  {
    SumAppend(f, [n]);
    AllPrefixesPositive(f);
    assert [n][..0] == [];
    forall p | 1 <= p <= |f + [n]|
      ensures Sum((f + [n])[..p]) >= 1
    {
      if p <= |f| {
        assert (f + [n])[..p] == f[..p];
      } else {
        assert (f + [n])[..p] == f + [n];
      }
    }
    NeverEmptyFromPrefixes(f + [n]);
  }

  /** Replacing one subtree of a tree by any other tree gives a tree: the
      layout invariant crossover relies on. */
  lemma SpliceTree(pre: seq<Node>, cut: seq<Node>, post: seq<Node>, donor: seq<Node>)
    requires IsTree(pre + cut + post) && IsTree(cut) && IsTree(donor)
    ensures IsTree(pre + donor + post)
  {
    var s := pre + cut + post;
    var t := pre + donor + post;
    AllPrefixesPositive(s);
    AllPrefixesPositive(donor);
    assert Sum(pre) >= 0 by {
      if pre != [] { assert s[..|pre|] == pre; }
    }
    SumAppend(pre, cut);
    SumAppend(pre + cut, post);
    SumAppend(pre, donor);
    SumAppend(pre + donor, post);
    forall p | 1 <= p <= |t|
      ensures Sum(t[..p]) >= 1
    {
      if p <= |pre| {
        assert t[..p] == s[..p];
      } else if p <= |pre| + |donor| {
        var q := p - |pre|;
        assert t[..p] == pre + donor[..q];
        SumAppend(pre, donor[..q]);
      } else {
        var q := p - |pre| - |donor|;
        assert t[..p] == (pre + donor) + post[..q];
        assert s[..|pre| + |cut| + q] == (pre + cut) + post[..q];
        SumAppend(pre + donor, post[..q]);
        SumAppend(pre + cut, post[..q]);
      }
    }
    NeverEmptyFromPrefixes(t);
  }

  /** Net stack effect of the nodes m..i. */
  function SuffixSum(s: seq<Node>, m: nat, i: nat): int
    requires m <= i < |s|
  {
    Sum(s[m..i + 1])
  }

  /** A slice ending at i whose effect is 1 while every shorter suffix has
      effect at most 0 is a tree. */
  lemma SegmentTree(s: seq<Node>, start: nat, i: nat)
    requires start <= i < |s|
    requires SuffixSum(s, start, i) == 1
    requires forall m :: start < m <= i ==> SuffixSum(s, m, i) <= 0
    ensures IsTree(s[start..i + 1])
  {
    var seg := s[start..i + 1];
    forall p | 1 <= p <= |seg|
      ensures Sum(seg[..p]) >= 1
    {
      if p < |seg| {
        assert seg[..p] == s[start..start + p];
        SliceSum(s, start, start + p);
        SliceSum(s, start, i + 1);
        SliceSum(s, start + p, i + 1);
        assert SuffixSum(s, start + p, i) <= 0;
      } else {
        assert seg[..p] == seg;
      }
    }
    NeverEmptyFromPrefixes(seg);
  }

  /** Scans down from k for the first index where the suffix ending at i has
      effect 1: the first node of i's subtree. */
  function StartFrom(s: seq<Node>, i: nat, k: nat): (start: nat)
    requires k <= i < |s|
    requires Sum(s[..i + 1]) >= 1
    requires SuffixSum(s, k, i) <= 1
    requires forall m :: k < m <= i ==> SuffixSum(s, m, i) <= 0
    ensures start <= k
    ensures SuffixSum(s, start, i) == 1
    ensures forall m :: start < m <= i ==> SuffixSum(s, m, i) <= 0
    decreases k
  {
    if SuffixSum(s, k, i) == 1 then k
    else
      assert k > 0 by {
        assert s[0..i + 1] == s[..i + 1];
      }
      assert s[k - 1..i + 1] == [s[k - 1]] + s[k..i + 1];
      SumAppend([s[k - 1]], s[k..i + 1]);
      assert [s[k - 1]][..0] == [];
      StartFrom(s, i, k - 1)
  }

  /** Index of the first node of the subtree rooted at i. */
  function SubtreeStart(s: seq<Node>, i: nat): (start: nat)
    requires IsTree(s) && i < |s|
    ensures start <= i
    ensures IsTree(s[start..i + 1])
  {
    assert s[i..i + 1] == [s[i]];
    SumSingle(s[i]);
    PrefixPositive(s, i + 1);
    var start := StartFrom(s, i, i);
    SegmentTree(s, start, i);
    start
  }

  /** Every node with its descendant count re-derived from the arities. */
  function Relength(s: seq<Node>): (r: seq<Node>)
    requires IsTree(s)
  {
    seq(|s|, i requires 0 <= i < |s| => s[i].(length := i - SubtreeStart(s, i)))
  }

  /** Re-derives every node's descendant count from the arities alone and
      changes nothing else (UpdateNodesValid: the result is a valid tree). */
  function UpdateNodes(s: seq<Node>): (r: seq<Node>)
    requires IsTree(s)
    ensures |r| == |s|
    ensures forall i :: 0 <= i < |s| ==> r[i] == s[i].(length := r[i].length)
  {
    Relength(s)
  }

  /** After UpdateNodes every length delimits the node's subtree. */
  lemma UpdateNodesValid(s: seq<Node>)
    requires IsTree(s)
    ensures ValidTree(UpdateNodes(s))
  {
    RelengthValid(s);
  }

  lemma RelengthValid(s: seq<Node>)
    requires IsTree(s)
    ensures ValidTree(Relength(s))
  {
    var r := Relength(s);
    assert SameShape(s, r);
    ShapeForest(s, r, 1);
    forall i | 0 <= i < |r|
      ensures SpansSubtree(r, i)
    {
      RelengthAt(s, r, i);
    }
  }

  lemma RelengthAt(s: seq<Node>, r: seq<Node>, i: nat)
    requires IsTree(s) && r == Relength(s) && i < |s|
    ensures r[i].length <= i && IsTree(r[i - r[i].length .. i + 1])
  {
    var st := SubtreeStart(s, i);
    assert r[i].length == i - st;
    assert SameShape(s[st..i + 1], r[st..i + 1]);
    ShapeForest(s[st..i + 1], r[st..i + 1], 1);
  }

  /** In a tree, a slice ending at i that is itself a tree is unique: two such
      slices would make the longer one's prefix effect drop to zero. */
  lemma SubtreeUnique(s: seq<Node>, a: nat, b: nat, i: nat)
    requires a <= b <= i < |s|
    requires IsTree(s[a..i + 1]) && IsTree(s[b..i + 1])
    ensures a == b
  {
    if a < b {
      var seg := s[a..i + 1];
      PrefixPositive(seg, b - a);
      assert seg[..b - a] == s[a..b];
      assert seg[b - a..] == s[b..i + 1];
      assert seg == seg[..b - a] + seg[b - a..];
      SumAppend(seg[..b - a], seg[b - a..]);
    }
  }

  /** UpdateNodes is the only way to make a sequence valid: any valid tree with
      the same shape already carries the derived lengths. */
  lemma ValidTreeLengths(s: seq<Node>, i: nat)
    requires ValidTree(s) && i < |s|
    ensures s[i].length == i - SubtreeStart(s, i)
  {
    SubtreeAt(s, i);
    var st := SubtreeStart(s, i);
    var a := i - s[i].length;
    if a <= st { SubtreeUnique(s, a, st, i); } else { SubtreeUnique(s, st, a, i); }
  }

  /** The root is the last node and spans the whole tree. */
  lemma RootSpansTree(s: seq<Node>)
    requires ValidTree(s)
    ensures |s| > 0 && s[|s| - 1].length == |s| - 1
  {
    assert |s| > 0;
    var last := |s| - 1;
    SubtreeAt(s, last);
    var a := last - s[last].length;
    assert s[0..last + 1] == s;
    SubtreeUnique(s, 0, a, last);
  }

  // ---------------------------------------------------------------------
  // Depth and Level
  //
  // Both are read off the evaluation of the post-order sequence. Each value
  // on the stack carries the height of the subtree that produced it: a leaf
  // pushes 0 and a node pushes one more than the highest of the operands it
  // pops. Following one value while the rest of the sequence runs counts the
  // nodes that consume it, directly or through their results: its ancestors.

  function Max(a: nat, b: nat): nat
  {
    if a < b then b else a
  }

  /** A bound on h carries over to anything equal to h, against anything equal to its limit. */
  lemma MaxTransfer(d: nat, h: nat, dl: nat, hl: nat, x: nat)
    requires d == h && h <= Max(hl, x) && dl == hl
    ensures d <= Max(dl, x)
  {
  }

  /** A bound against x stays a bound against any m at least x. */
  lemma MaxMono(d: nat, a: nat, x: nat, m: nat)
    requires d <= Max(a, x) && x <= m
    ensures d <= Max(a, m)
    ensures a <= m ==> d <= m
  {
  }

  /** Largest height in u (0 when u is empty). */
  function MaxOf(u: seq<nat>): nat
    decreases |u|
  {
    if u == [] then 0 else Max(MaxOf(u[..|u| - 1]), u[|u| - 1])
  }

  /** Number of operands node n pops from a stack of z values (all of them when
      fewer than its arity are there, which never happens on a tree). */
  function Pops(n: Node, z: nat): nat
  {
    if n.arity <= z then n.arity else z
  }

  /** The stack of heights after node n runs on st. */
  function Step(st: seq<nat>, n: Node): (r: seq<nat>)
    ensures |r| == |st| - Pops(n, |st|) + 1
  {
    var a := Pops(n, |st|);
    st[..|st| - a] + [if a == 0 then 0 else 1 + MaxOf(st[|st| - a..])]
  }

  /** The stack of heights after s runs on st. */
  function Run(st: seq<nat>, s: seq<Node>): (r: seq<nat>)
    ensures s != [] ==> |r| > 0
    decreases |s|
  {
    if s == [] then st else Step(Run(st, s[..|s| - 1]), s[|s| - 1])
  }

  /** The value on top of a stack of heights (0 when it is empty). */
  function Top(r: seq<nat>): nat
  {
    if r == [] then 0 else r[|r| - 1]
  }

  /** Height, in edges, of the value s leaves on top of the stack. */
  function Height(s: seq<Node>): nat
  {
    Top(Run([], s))
  }

  /** The stack of heights after the nodes a..k-1 of s run on an empty stack. */
  function RunRange(s: seq<Node>, a: nat, k: nat): (r: seq<nat>)
    requires a <= k <= |s|
    ensures a < k ==> |r| > 0
    decreases k - a
  {
    if k == a then [] else Step(RunRange(s, a, k - 1), s[k - 1])
  }

  /** Height of the subtree rooted at i, in edges (a leaf has depth 0). */
  function Depth(s: seq<Node>, i: nat): nat
    requires i < |s|
  {
    Top(RunRange(s, if s[i].length <= i then i - s[i].length else 0, i + 1))
  }

  /** Where a followed value sits while a sequence runs: the stack size, the
      value's position on the stack and how many nodes have consumed it. */
  datatype Trail = Trail(size: nat, pos: nat, count: nat)

  /** The trail one step later, after node n runs. */
  function NextTrail(t: Trail, n: Node): Trail
  {
    var a := Pops(n, t.size);
    if a > 0 && t.pos >= t.size - a then Trail(t.size - a + 1, t.size - a, t.count + 1)
    else Trail(t.size - a + 1, t.pos, t.count)
  }

  /** Follows the value at position p of a stack of z values while s runs. */
  function Follow(z: nat, p: nat, s: seq<Node>): (t: Trail)
    ensures t.count <= |s|
    decreases |s|
  {
    if s == [] then Trail(z, p, 0) else NextTrail(Follow(z, p, s[..|s| - 1]), s[|s| - 1])
  }

  /** Follows the value at position p of a stack of z values while the nodes
      a..k-1 of s run. */
  function FollowRange(s: seq<Node>, z: nat, p: nat, a: nat, k: nat): (t: Trail)
    requires a <= k <= |s|
    ensures t.count <= k - a
    decreases k - a
  {
    if k == a then Trail(z, p, 0) else NextTrail(FollowRange(s, z, p, a, k - 1), s[k - 1])
  }

  /** Distance from node i to the root, in edges (the root has level 0): the
      number of later nodes that consume node i's value. */
  function Level(s: seq<Node>, i: nat): (l: nat)
    requires i < |s|
    ensures l <= |s| - 1 - i
  {
    var z := |RunRange(s, 0, i + 1)|;
    FollowRange(s, z, z - 1, i + 1, |s|).count
  }

  lemma RunLast(t: seq<Node>, u: seq<Node>, n: Node)
    requires t == u + [n]
    ensures Run([], t) == Step(Run([], u), n)
  {
    assert t[..|t| - 1] == u;
  }

  lemma FollowLast(z: nat, p: nat, t: seq<Node>, u: seq<Node>, n: Node)
    requires t == u + [n]
    ensures Follow(z, p, t) == NextTrail(Follow(z, p, u), n)
  {
    assert t[..|t| - 1] == u;
  }

  lemma {:induction false} RunRangeSlice(s: seq<Node>, a: nat, k: nat)
    requires a <= k <= |s|
    ensures RunRange(s, a, k) == Run([], s[a..k])
    decreases k - a
  {
    if k > a {
      assert s[a..k] == s[a..k - 1] + [s[k - 1]];
      RunLast(s[a..k], s[a..k - 1], s[k - 1]);
      RunRangeSlice(s, a, k - 1);
    }
  }

  lemma {:induction false} FollowRangeSlice(s: seq<Node>, z: nat, p: nat, a: nat, k: nat)
    requires a <= k <= |s|
    ensures FollowRange(s, z, p, a, k) == Follow(z, p, s[a..k])
    decreases k - a
  {
    if k > a {
      assert s[a..k] == s[a..k - 1] + [s[k - 1]];
      FollowLast(z, p, s[a..k], s[a..k - 1], s[k - 1]);
      FollowRangeSlice(s, z, p, a, k - 1);
    }
  }

  /** The depth of node i is the height of its subtree slice. */
  lemma DepthIsHeight(s: seq<Node>, i: nat)
    requires i < |s| && s[i].length <= i
    ensures Depth(s, i) == Height(s[i - s[i].length .. i + 1])
  {
    RunRangeSlice(s, i - s[i].length, i + 1);
  }

  /** The level of node i follows its value through the nodes after it. */
  lemma LevelIsFollow(s: seq<Node>, i: nat)
    requires i < |s|
    ensures Level(s, i) == Follow(|Run([], s[..i + 1])|, |Run([], s[..i + 1])| - 1, s[i + 1..]).count
  {
    var z := |RunRange(s, 0, i + 1)|;
    assert z == |Run([], s[..i + 1])| by {
      RunRangeSlice(s, 0, i + 1);
      assert s[0..i + 1] == s[..i + 1];
    }
    assert FollowRange(s, z, z - 1, i + 1, |s|) == Follow(z, z - 1, s[i + 1..]) by {
      FollowRangeSlice(s, z, z - 1, i + 1, |s|);
      assert s[i + 1..|s|] == s[i + 1..];
    }
  }

  lemma {:induction false} RunAppend(st: seq<nat>, a: seq<Node>, b: seq<Node>)
    ensures Run(st, a + b) == Run(Run(st, a), b)
    decreases |b|
  {
    if b == [] {
      assert a + b == a;
    } else {
      var b' := b[..|b| - 1];
      assert (a + b)[..|a + b| - 1] == a + b';
      RunAppend(st, a, b');
    }
  }

  /** A node that finds its operands in r leaves the stack below r untouched. */
  lemma StepOnTop(st: seq<nat>, r: seq<nat>, n: Node)
    requires n.arity <= |r|
    ensures Step(st + r, n) == st + Step(r, n)
  {
    var a := n.arity;
    assert (st + r)[..|st + r| - a] == st + r[..|r| - a];
    assert (st + r)[|st + r| - a..] == r[|r| - a..];
  }

  /** A sequence that never pops an empty stack leaves the values below it
      untouched and adds as many values as its stack effect. */
  lemma {:induction false} RunOnTop(st: seq<nat>, x: seq<Node>)
    requires StackNeverEmpty(x)
    ensures Run(st, x) == st + Run([], x)
    ensures |Run([], x)| == Sum(x)
    decreases |x|
  {
    if x != [] {
      var x' := x[..|x| - 1];
      RunOnTop(st, x');
      StepOnTop(st, Run([], x'), x[|x| - 1]);
    }
  }

  /** A tree leaves exactly one value: its height. */
  lemma TreeRun(st: seq<nat>, x: seq<Node>)
    requires IsTree(x)
    ensures Run(st, x) == st + [Height(x)]
  {
    RunOnTop(st, x);
  }

  /** Raising the height of every operand by at most k raises the largest by at most k. */
  lemma {:induction false} MaxOfBound(u: seq<nat>, v: seq<nat>, k: nat)
    requires |u| == |v|
    requires forall q :: 0 <= q < |u| ==> v[q] <= Max(u[q], k)
    ensures MaxOf(v) <= Max(MaxOf(u), k)
    decreases |u|
  {
    if u != [] {
      MaxOfBound(u[..|u| - 1], v[..|v| - 1], k);
    }
  }

  /** Two stacks that differ only at the followed position t.pos, where the
      second holds at most the first or h plus the number of nodes that have
      consumed the followed value. */
  ghost predicate Tracks(r1: seq<nat>, r2: seq<nat>, t: Trail, h: nat)
  {
    && |r1| == t.size && |r2| == t.size && t.pos < t.size
    && (forall q :: 0 <= q < t.size && q != t.pos ==> r1[q] == r2[q])
    && r2[t.pos] <= Max(r1[t.pos], h + t.count)
  }

  /** One node keeps two tracking stacks tracking. */
  lemma TracksStep(u1: seq<nat>, u2: seq<nat>, t: Trail, h: nat, n: Node)
    requires Tracks(u1, u2, t, h)
    ensures Tracks(Step(u1, n), Step(u2, n), NextTrail(t, n), h)
  {
    var a := Pops(n, t.size);
    var lo := t.size - a;
    if a > 0 && t.pos >= lo {
      MaxOfBound(u1[lo..], u2[lo..], h + t.count);
    } else {
      assert u1[lo..] == u2[lo..];
    }
  }

  /** Running s on two stacks that differ only in their top value, h1 versus
      h2, keeps them tracking: they end up differing only at the followed
      position, where the second is at most the first or h2 plus the number
      of nodes that consumed the followed value. */
  lemma {:induction false} FollowRun(st: seq<nat>, h1: nat, h2: nat, s: seq<Node>)
    ensures Tracks(Run(st + [h1], s), Run(st + [h2], s), Follow(|st| + 1, |st|, s), h2)
    decreases |s|
  {
    if s != [] {
      FollowRun(st, h1, h2, s[..|s| - 1]);
      TracksStep(Run(st + [h1], s[..|s| - 1]), Run(st + [h2], s[..|s| - 1]),
                 Follow(|st| + 1, |st|, s[..|s| - 1]), h2, s[|s| - 1]);
    }
  }

  /** Any prefix of a sequence that never pops an empty stack does not either. */
  lemma PrefixNeverEmpty(s: seq<Node>, p: nat)
    requires StackNeverEmpty(s) && p <= |s|
    ensures StackNeverEmpty(s[..p])
  {
    AllPrefixesPositive(s);
    forall k | 1 <= k <= p
      ensures Sum(s[..p][..k]) >= 1
    {
      assert s[..p][..k] == s[..k];
    }
    NeverEmptyFromPrefixes(s[..p]);
  }

  /** A tree x grafted after pre runs as pre followed by x's height. */
  lemma GraftRun(pre: seq<Node>, x: seq<Node>, post: seq<Node>)
    requires StackNeverEmpty(pre) && IsTree(x)
    ensures Run([], pre + x + post) == Run(Run([], pre) + [Height(x)], post)
    ensures |Run([], pre + x)| == |Run([], pre)| + 1
  {
    RunOnTop([], pre);
    RunAppend([], pre, x);
    TreeRun(Run([], pre), x);
    RunAppend([], pre + x, post);
  }

  /** The level of node i depends only on the size of the stack up to i
      and on the nodes after i. */
  lemma LevelAfter(s: seq<Node>, i: nat, z: nat, post: seq<Node>)
    requires i < |s| && |Run([], s[..i + 1])| == z && s[i + 1..] == post
    ensures Level(s, i) == Follow(z, z - 1, post).count
  {
    LevelIsFollow(s, i);
  }

  /** The root of a subtree x grafted after pre has as level the number of
      nodes after it that consume its height. */
  lemma Graft(pre: seq<Node>, x: seq<Node>, post: seq<Node>)
    requires StackNeverEmpty(pre) && IsTree(x)
    ensures Level(pre + x + post, |pre| + |x| - 1)
      == Follow(|Run([], pre)| + 1, |Run([], pre)|, post).count
  {
    var s := pre + x + post;
    var i := |pre| + |x| - 1;
    assert s[..i + 1] == pre + x && s[i + 1..] == post;
    GraftRun(pre, x, post);
    LevelAfter(s, i, |Run([], pre)| + 1, post);
  }

  /** The nodes before a subtree of a tree never pop an empty stack. */
  lemma PreNeverEmpty(pre: seq<Node>, cut: seq<Node>, post: seq<Node>)
    requires IsTree(pre + cut + post)
    ensures StackNeverEmpty(pre)
  {
    assert (pre + cut + post)[..|pre|] == pre;
    PrefixNeverEmpty(pre + cut + post, |pre|);
  }

  /** Two sequences that run as the same stack p under different top values
      hc and hd, followed by the same nodes post, differ in height at most by
      hd plus the number of nodes of post that consume that top value. */
  lemma TopSwapHeight(s: seq<Node>, t: seq<Node>, p: seq<nat>, post: seq<Node>, hc: nat, hd: nat, level: nat)
    requires IsTree(s)
    requires Run([], s) == Run(p + [hc], post)
    requires Run([], t) == Run(p + [hd], post)
    requires level == Follow(|p| + 1, |p|, post).count
    ensures Height(t) <= Max(Height(s), hd + level)
  {
    RunOnTop([], s);
    FollowRun(p, hc, hd, post);
    var r1 := Run(p + [hc], post);
    var r2 := Run(p + [hd], post);
    assert Tracks(r1, r2, Follow(|p| + 1, |p|, post), hd);
  }

  /** Replacing one subtree of a tree by another tree keeps the height within
      the larger of the old height and the new subtree's height plus the
      level it is grafted at. */
  lemma SpliceHeight(pre: seq<Node>, cut: seq<Node>, post: seq<Node>, donor: seq<Node>)
    requires IsTree(pre + cut + post) && IsTree(cut) && IsTree(donor)
    ensures Height(pre + donor + post)
      <= Max(Height(pre + cut + post), Height(donor) + Level(pre + cut + post, |pre| + |cut| - 1))
  {
    var s := pre + cut + post;
    var p := Run([], pre);
    var level := Level(s, |pre| + |cut| - 1);
    assert Run([], s) == Run(p + [Height(cut)], post) && level == Follow(|p| + 1, |p|, post).count by {
      PreNeverEmpty(pre, cut, post);
      GraftRun(pre, cut, post);
      Graft(pre, cut, post);
    }
    assert Run([], pre + donor + post) == Run(p + [Height(donor)], post) by {
      PreNeverEmpty(pre, cut, post);
      GraftRun(pre, donor, post);
    }
    TopSwapHeight(s, pre + donor + post, p, post, Height(cut), Height(donor), level);
  }

  /** Height depends only on the arities, not on the length fields. */
  lemma {:induction false} ShapeRun(st: seq<nat>, a: seq<Node>, b: seq<Node>)
    requires SameShape(a, b)
    ensures Run(st, a) == Run(st, b)
    decreases |a|
  {
    if a != [] {
      ShapeRun(st, a[..|a| - 1], b[..|b| - 1]);
      StepArity(Run(st, a[..|a| - 1]), a[|a| - 1], b[|b| - 1]);
    }
  }

  /** A step depends on the node's arity alone. */
  lemma StepArity(st: seq<nat>, m: Node, n: Node)
    requires m.arity == n.arity
    ensures Step(st, m) == Step(st, n)
  {
    assert Pops(m, |st|) == Pops(n, |st|);
  }

  /** The depth of a valid tree's root is the height of the whole tree. */
  lemma RootDepthIsHeight(s: seq<Node>)
    requires ValidTree(s)
    ensures |s| > 0 && Depth(s, |s| - 1) == Height(s)
  {
    RootSpansTree(s);
    DepthIsHeight(s, |s| - 1);
    assert s[0..|s|] == s;
  }

  /** The largest of h followed by u is the larger of h and the largest of u. */
  lemma {:induction false} MaxOfCons(h: nat, u: seq<nat>)
    ensures MaxOf([h] + u) == Max(h, MaxOf(u))
    decreases |u|
  {
    if u != [] {
      var v := [h] + u;
      assert v[..|v| - 1] == [h] + u[..|u| - 1];
      MaxOfCons(h, u[..|u| - 1]);
    }
  }

  /** A node whose operands are exactly the stack leaves one value: 0 for a
      leaf, one more than the highest operand otherwise. */
  lemma StepAll(u: seq<nat>, n: Node)
    requires n.arity == |u|
    ensures Step(u, n) == [if u == [] then 0 else 1 + MaxOf(u)]
  {
    assert u[|u| - n.arity..] == u;
  }

  /** A valid tree with the same arities as a tree s has s's height as its
      root's depth. */
  lemma ShapeDepth(s: seq<Node>, t: seq<Node>)
    requires ValidTree(t) && SameShape(s, t)
    ensures |t| > 0 && Depth(t, |t| - 1) == Height(s)
  {
    RootDepthIsHeight(t);
    ShapeRun([], s, t);
  }
}
