/** Random tree growth under a length and depth budget
    (src/operators/initialization.cpp).

    Randomness is an input. `rng` is the stream of unit draws in [0, 1) that
    the random engine yields, consumed in the order the source consumes them;
    a uniform real draw on [lo, hi) is `lo + u * (hi - lo)`, a uniform index
    draw on 0..n-1 is the floor of `u * n`, and a normal draw is `normal(u)`
    for a parameter function `normal`. */
module Initialization {
  import opened Wrappers
  import opened Symbols
  import opened Trees
  import opened Native
  import opened Grammars

  /** A symbol with a weight: a grammar entry, or a partial with its
      cumulative weight. */
  type Weighted = (NodeType, real)

  /** Machine epsilon of double (2^-52), which the sampler subtracts from its
      upper bound. */
  const Epsilon: real := 1.0 / 4503599627370496.0

  /** Every draw of the stream lies in [0, 1). */
  ghost predicate UnitDraws(rng: nat -> real)
  {
    forall k: nat :: 0.0 <= rng(k) < 1.0
  }

  /** A fresh node of type `t`. The Node constructor lives in tree.hpp, which
      is not part of this model: the node takes its arity from `arity`, the
      value 1 and its type as hash; its length is recomputed later. */
  function NewNode(t: NodeType, arity: NodeType -> nat): Node
  {
    Node(t, arity(t), arity(t), 1.0, t as nat)
  }

  // ---------------------------------------------------------------------
  // Partials and SampleProportional

  /** Sum of the weights of `ws`. */
  function TotalWeight(ws: seq<Weighted>): real
    decreases |ws|
  {
    if ws == [] then 0.0 else TotalWeight(ws[..|ws| - 1]) + ws[|ws| - 1].1
  }

  /** The inclusive scan of the allowed entries: the first entry as it is,
      then each symbol with the previous partial's weight plus its own. */
  function Partials(allowed: seq<Weighted>): (p: seq<Weighted>)
    ensures |p| == |allowed|
    ensures forall k :: 0 <= k < |p| ==> p[k].0 == allowed[k].0
    decreases |allowed|
  {
    if |allowed| <= 1 then allowed
    else
      var front := Partials(allowed[..|allowed| - 1]);
      var last := allowed[|allowed| - 1];
      front + [(last.0, front[|front| - 1].1 + last.1)]
  }

  /** Partial k carries the total weight of the entries 0..k. */
  lemma {:induction false} PartialsSum(allowed: seq<Weighted>, k: nat)
    requires k < |allowed|
    ensures Partials(allowed)[k].1 == TotalWeight(allowed[..k + 1])
    decreases |allowed|
  {
    if |allowed| == 1 {
      assert allowed[..1][..0] == [];
    } else {
      var front := allowed[..|allowed| - 1];
      if k < |front| {
        PartialsSum(front, k);
        assert front[..k + 1] == allowed[..k + 1];
      } else {
        PartialsSum(front, k - 1);
        assert front[..k] == front;
        assert allowed[..k + 1] == allowed;
      }
    }
  }

  /** With every weight at least epsilon, every partial is at least epsilon. */
  lemma {:induction false} PartialsAtLeastEpsilon(allowed: seq<Weighted>)
    requires forall k :: 0 <= k < |allowed| ==> allowed[k].1 >= Epsilon
    ensures forall k :: 0 <= k < |allowed| ==> Partials(allowed)[k].1 >= Epsilon
    decreases |allowed|
  {
    if |allowed| > 1 {
      PartialsAtLeastEpsilon(allowed[..|allowed| - 1]);
    }
  }

  /** A uniform real draw on [lo, hi) from the unit draw u. */
  function Uniform(lo: real, hi: real, u: real): real
  {
    lo + u * (hi - lo)
  }

  /** The threshold SampleProportional compares the partials with: a
      uniform draw below the last cumulative weight minus epsilon. */
  function Threshold(partials: seq<Weighted>, u: real): real
    requires |partials| > 0
  {
    Uniform(0.0, partials[|partials| - 1].1 - Epsilon, u)
  }

  lemma ThresholdBelowTotal(partials: seq<Weighted>, u: real)
    requires |partials| > 0 && partials[|partials| - 1].1 >= Epsilon
    requires 0.0 <= u < 1.0
    ensures Threshold(partials, u) < partials[|partials| - 1].1
  {
    var x := partials[|partials| - 1].1 - Epsilon;
    assert u * x <= x by {
      assert (1.0 - u) * x >= 0.0;
    }
  }

  /** The first position from j on whose cumulative weight exceeds r. */
  function FirstAbove(partials: seq<Weighted>, r: real, j: nat): (k: nat)
    requires j < |partials| && partials[|partials| - 1].1 > r
    ensures j <= k < |partials| && partials[k].1 > r
    ensures forall q :: j <= q < k ==> partials[q].1 <= r
    decreases |partials| - j
  {
    if partials[j].1 > r then j else FirstAbove(partials, r, j + 1)
  }

  /** The position SampleProportional picks: the first partial whose
      cumulative weight is strictly above the draw. One always exists because
      the draw stays below the last cumulative weight. */
  function SampledIndex(partials: seq<Weighted>, u: real): (k: nat)
    requires |partials| > 0 && partials[|partials| - 1].1 >= Epsilon
    requires 0.0 <= u < 1.0
    ensures k < |partials|
    ensures partials[k].1 > Threshold(partials, u)
    ensures forall q :: 0 <= q < k ==> partials[q].1 <= Threshold(partials, u)
  {
    ThresholdBelowTotal(partials, u);
    FirstAbove(partials, Threshold(partials, u), 0)
  }

  function SampleProportional(partials: seq<Weighted>, u: real, arity: NodeType -> nat): Node
    requires |partials| > 0 && partials[|partials| - 1].1 >= Epsilon
    requires 0.0 <= u < 1.0
  {
    NewNode(partials[SampledIndex(partials, u)].0, arity)
  }

  // ---------------------------------------------------------------------
  // Grow

  /** The fewest nodes a branch rooted at `t` can have: two operands before
      Log, one after. */
  function MinLength(t: NodeType): nat
  {
    if t < Log then 2 else 1
  }

  /** A symbol may root an internal node of a branch with budget L. */
  predicate IsCandidate(t: NodeType, maxBranchLength: nat)
  {
    t <= Square && MinLength(t) < maxBranchLength
  }

  /** The partials kept as internal-node candidates, in order and with
      their cumulative weights unchanged. */
  function Candidates(partials: seq<Weighted>, maxBranchLength: nat): (c: seq<Weighted>)
    decreases |partials|
  {
    if partials == [] then []
    else
      var front := Candidates(partials[..|partials| - 1], maxBranchLength);
      var last := partials[|partials| - 1];
      if IsCandidate(last.0, maxBranchLength) then front + [last] else front
  }

  /** The candidates are exactly the partials whose symbol is a candidate. */
  lemma {:induction false} CandidatesExact(partials: seq<Weighted>, maxBranchLength: nat, e: Weighted)
    ensures e in Candidates(partials, maxBranchLength) <==> e in partials && IsCandidate(e.0, maxBranchLength)
    decreases |partials|
  {
    if partials != [] {
      var front := partials[..|partials| - 1];
      assert partials == front + [partials[|partials| - 1]];
      CandidatesExact(front, maxBranchLength, e);
    }
  }

  /** What a growth run reads besides its budgets: the draw stream, the
      grammar's frequencies of Constant (pc) and Variable (pv), the partials,
      each symbol's arity, and the grammar's minimum function arity. */
  datatype Setup = Setup(rng: nat -> real, pc: real, pv: real, partials: seq<Weighted>,
                         arity: NodeType -> nat, minArity: nat)

  ghost predicate SetupOk(g: Setup)
  {
    && UnitDraws(g.rng)
    && ArityFits(g.arity)
    && g.pc + g.pv >= 0.0
    && forall k :: 0 <= k < |g.partials| ==> g.partials[k].1 >= Epsilon
  }

  lemma CandidatesSampleable(g: Setup, maxBranchLength: nat)
    requires SetupOk(g)
    ensures var c := Candidates(g.partials, maxBranchLength);
      |c| > 0 ==> c[|c| - 1].1 >= Epsilon && IsCandidate(c[|c| - 1].0, maxBranchLength)
  {
    var c := Candidates(g.partials, maxBranchLength);
    if |c| > 0 {
      CandidatesExact(g.partials, maxBranchLength, c[|c| - 1]);
    }
  }

  /** A grown branch: its nodes in pre-order, the next unused draw, and how
      deeply the growth nested (a leaf is 0). */
  datatype Growth = Growth(nodes: seq<Node>, next: nat, height: nat)

  datatype GrowError =
    | NoCandidate(maxBranchLength: nat)
    | TooLong(length: nat, maxLength: nat)

  /** Only a leaf may be grown: no depth left, a single node of length
      left, or no more length than the smallest function arity. */
  predicate LeafOnly(g: Setup, maxBranchLength: nat, maxBranchDepth: nat)
  {
    maxBranchDepth == 0 || maxBranchLength == 1 || maxBranchLength <= g.minArity
  }

  /** A leaf is a Constant when the draw on [0, pc + pv) falls below pc. */
  function LeafKind(g: Setup, u: real): NodeType
  {
    if Uniform(0.0, g.pc + g.pv, u) < g.pc then Constant else Variable
  }

  /** Each child's length budget: the parent's budget minus the parent,
      shared equally among `arity` children. */
  function ChildLength(maxBranchLength: nat, arity: nat): nat
    requires maxBranchLength >= 1
  {
    if arity == 0 then 0 else (maxBranchLength - 1) / arity
  }

  /** The growth of one branch from draw `cursor` on. */
  function GrowBranch(g: Setup, cursor: nat, maxBranchLength: nat, maxBranchDepth: nat): Result<Growth, GrowError>
    requires SetupOk(g)
    decreases maxBranchDepth, 1, 0
  {
    if LeafOnly(g, maxBranchLength, maxBranchDepth) then
      Ok(Growth([NewNode(LeafKind(g, g.rng(cursor)), g.arity)], cursor + 1, 0))
    else
      var candidates := Candidates(g.partials, maxBranchLength);
      if candidates == [] then Err(NoCandidate(maxBranchLength))
      else
        CandidatesSampleable(g, maxBranchLength);
        var node := SampleProportional(candidates, g.rng(cursor), g.arity);
        match GrowChildren(g, cursor + 1, ChildLength(maxBranchLength, node.arity), maxBranchDepth, node.arity)
        case Err(e) => Err(e)
        case Ok(children) => Ok(Growth([node] + children.nodes, children.next, children.height + 1))
  }

  /** The growth of the first k children of a node with depth budget
      `parentDepth`, each child with length budget `childLength`. */
  function GrowChildren(g: Setup, cursor: nat, childLength: nat, parentDepth: nat, k: nat): Result<Growth, GrowError>
    requires SetupOk(g) && parentDepth >= 1
    decreases parentDepth, 0, k
  {
    if k == 0 then Ok(Growth([], cursor, 0))
    else
      match GrowChildren(g, cursor, childLength, parentDepth, k - 1)
      case Err(e) => Err(e)
      case Ok(front) =>
        match GrowBranch(g, front.next, childLength, parentDepth - 1)
        case Err(e) => Err(e)
        case Ok(child) => Ok(Growth(front.nodes + child.nodes, child.next, Max(front.height, child.height)))
  }

  /** Once a child fails, growing more children fails with the same error. */
  lemma {:induction false} ChildFailureStays(g: Setup, cursor: nat, childLength: nat, parentDepth: nat, k: nat, m: nat)
    requires SetupOk(g) && parentDepth >= 1 && k <= m
    requires GrowChildren(g, cursor, childLength, parentDepth, k).Err?
    ensures GrowChildren(g, cursor, childLength, parentDepth, m) == GrowChildren(g, cursor, childLength, parentDepth, k)
    decreases m
  {
    if k < m {
      ChildFailureStays(g, cursor, childLength, parentDepth, k, m - 1);
    }
  }

  /** The node sequence backwards: post-order of a pre-order growth. The
      ensures only spell out the comprehension, for the solver's use;
      `ReversedConcat` and the `Reverse` loop carry what reversal means. */
  function Reversed<T>(s: seq<T>): (r: seq<T>)
    ensures |r| == |s|
    ensures forall i :: 0 <= i < |s| ==> r[i] == s[|s| - 1 - i]
  {
    seq(|s|, i requires 0 <= i < |s| => s[|s| - 1 - i])
  }

  lemma ReversedConcat<T>(a: seq<T>, b: seq<T>)
    ensures Reversed(a + b) == Reversed(b) + Reversed(a)
  {
  }

  /** A grown branch has at least one node and at most its length budget
      (one node when the budget is 0), nests no deeper than its depth
      budget, and read backwards is one tree in post-order. */
  lemma {:induction false} GrowBranchShape(g: Setup, cursor: nat, maxBranchLength: nat, maxBranchDepth: nat)
    requires SetupOk(g)
    ensures GrowBranch(g, cursor, maxBranchLength, maxBranchDepth).Ok? ==>
      var b := GrowBranch(g, cursor, maxBranchLength, maxBranchDepth).value;
      && 1 <= |b.nodes| <= Max(maxBranchLength, 1)
      && b.height <= maxBranchDepth
      && IsTree(Reversed(b.nodes))
    decreases maxBranchDepth, 1, 0
  {
    var r := GrowBranch(g, cursor, maxBranchLength, maxBranchDepth);
    if r.Ok? {
      if LeafOnly(g, maxBranchLength, maxBranchDepth) {
        var n := NewNode(LeafKind(g, g.rng(cursor)), g.arity);
        assert Reversed([n]) == [n];
        assert [] + [n] == [n];
        CloseForest([], n);
      } else {
        var candidates := Candidates(g.partials, maxBranchLength);
        CandidatesSampleable(g, maxBranchLength);
        var k := SampledIndex(candidates, g.rng(cursor));
        var node := SampleProportional(candidates, g.rng(cursor), g.arity);
        CandidatesExact(g.partials, maxBranchLength, candidates[k]);
        var a := node.arity;
        var cl := ChildLength(maxBranchLength, a);
        GrowChildrenShape(g, cursor + 1, cl, maxBranchDepth, a);
        var children := GrowChildren(g, cursor + 1, cl, maxBranchDepth, a).value;
        ReversedConcat([node], children.nodes);
        assert Reversed([node]) == [node];
        CloseForest(Reversed(children.nodes), node);
        assert a <= maxBranchLength - 1;
        if a > 0 {
          SharedBudget(maxBranchLength - 1, a);
        }
      }
    }
  }

  /** The first k children together hold at most k times the child budget
      (k nodes when the budget is 0), nest at most one level less than the
      parent, and read backwards are k trees. */
  lemma {:induction false} GrowChildrenShape(g: Setup, cursor: nat, childLength: nat, parentDepth: nat, k: nat)
    requires SetupOk(g) && parentDepth >= 1
    ensures GrowChildren(g, cursor, childLength, parentDepth, k).Ok? ==>
      var f := GrowChildren(g, cursor, childLength, parentDepth, k).value;
      && |f.nodes| <= k * Max(childLength, 1)
      && f.height <= parentDepth - 1
      && IsForest(Reversed(f.nodes), k)
    decreases parentDepth, 0, k
  {
    var r := GrowChildren(g, cursor, childLength, parentDepth, k);
    if r.Ok? {
      if k == 0 {
        assert Reversed<Node>([]) == [];
      } else {
        GrowChildrenShape(g, cursor, childLength, parentDepth, k - 1);
        var front := GrowChildren(g, cursor, childLength, parentDepth, k - 1).value;
        GrowBranchShape(g, front.next, childLength, parentDepth - 1);
        var child := GrowBranch(g, front.next, childLength, parentDepth - 1).value;
        ReversedConcat(front.nodes, child.nodes);
        ForestConcat(Reversed(child.nodes), 1, Reversed(front.nodes), k - 1);
        assert (k - 1) * Max(childLength, 1) + Max(childLength, 1) == k * Max(childLength, 1);
      }
    }
  }

  /** The growth's nesting bounds the tree it reads backwards to: its height
      on the evaluation stack is at most the recursion height. (A function
      symbol of arity 0 counts one level in the recursion and none on the
      stack.) */
  lemma {:induction false} GrowBranchHeight(g: Setup, cursor: nat, maxBranchLength: nat, maxBranchDepth: nat)
    requires SetupOk(g)
    ensures GrowBranch(g, cursor, maxBranchLength, maxBranchDepth).Ok? ==>
      var b := GrowBranch(g, cursor, maxBranchLength, maxBranchDepth).value;
      Height(Reversed(b.nodes)) <= b.height
    decreases maxBranchDepth, 1, 0
  {
    var r := GrowBranch(g, cursor, maxBranchLength, maxBranchDepth);
    if r.Ok? {
      if LeafOnly(g, maxBranchLength, maxBranchDepth) {
        var n := NewNode(LeafKind(g, g.rng(cursor)), g.arity);
        assert Reversed([n]) == [n];
        StepAll([], n);
      } else {
        var candidates := Candidates(g.partials, maxBranchLength);
        CandidatesSampleable(g, maxBranchLength);
        var node := SampleProportional(candidates, g.rng(cursor), g.arity);
        var a := node.arity;
        var cl := ChildLength(maxBranchLength, a);
        var children := GrowChildren(g, cursor + 1, cl, maxBranchDepth, a).value;
        assert Height(Reversed([node] + children.nodes)) <= children.height + 1 by {
          GrowChildrenShape(g, cursor + 1, cl, maxBranchDepth, a);
          GrowChildrenHeights(g, cursor + 1, cl, maxBranchDepth, a);
          ClosedHeight(node, children.nodes, children.height);
        }
      }
    }
  }

  /** A node grown in pre-order before a forest of its arity many trees,
      whose heights are at most h, reads backwards to a tree of height at
      most h + 1. */
  lemma ClosedHeight(node: Node, children: seq<Node>, h: nat)
    requires IsForest(Reversed(children), node.arity)
    requires MaxOf(Run([], Reversed(children))) <= h
    ensures Height(Reversed([node] + children)) <= h + 1
  {
    var c := Reversed(children);
    ReversedConcat([node], children);
    assert Reversed([node]) == [node];
    var s := c + [node];
    assert s[..|s| - 1] == c;
    RunOnTop([], c);
    StepAll(Run([], c), node);
  }

  /** The first k children, read backwards, leave k heights on the stack,
      the highest no higher than their recursion height. */
  lemma {:induction false} GrowChildrenHeights(g: Setup, cursor: nat, childLength: nat, parentDepth: nat, k: nat)
    requires SetupOk(g) && parentDepth >= 1
    ensures GrowChildren(g, cursor, childLength, parentDepth, k).Ok? ==>
      var f := GrowChildren(g, cursor, childLength, parentDepth, k).value;
      MaxOf(Run([], Reversed(f.nodes))) <= f.height
    decreases parentDepth, 0, k
  {
    var r := GrowChildren(g, cursor, childLength, parentDepth, k);
    if r.Ok? && k > 0 {
      var rf := GrowChildren(g, cursor, childLength, parentDepth, k - 1);
      assert rf.Ok?;
      var front := rf.value;
      var rc := GrowBranch(g, front.next, childLength, parentDepth - 1);
      assert rc.Ok?;
      var child := rc.value;
      assert r.value == Growth(front.nodes + child.nodes, child.next, Max(front.height, child.height));
      assert IsForest(Reversed(front.nodes), k - 1) && MaxOf(Run([], Reversed(front.nodes))) <= front.height by {
        GrowChildrenShape(g, cursor, childLength, parentDepth, k - 1);
        GrowChildrenHeights(g, cursor, childLength, parentDepth, k - 1);
      }
      assert IsTree(Reversed(child.nodes)) && Height(Reversed(child.nodes)) <= child.height by {
        GrowBranchShape(g, front.next, childLength, parentDepth - 1);
        GrowBranchHeight(g, front.next, childLength, parentDepth - 1);
      }
      JoinHeights(front, child, k - 1);
    }
  }

  /** Appending a child's growth to that of the earlier children keeps the
      highest stack height within the larger recursion height. */
  lemma JoinHeights(front: Growth, child: Growth, m: nat)
    requires IsForest(Reversed(front.nodes), m) && MaxOf(Run([], Reversed(front.nodes))) <= front.height
    requires IsTree(Reversed(child.nodes)) && Height(Reversed(child.nodes)) <= child.height
    ensures MaxOf(Run([], Reversed(front.nodes + child.nodes))) <= Max(front.height, child.height)
  {
    ReversedConcat(front.nodes, child.nodes);
    RowHeights(Reversed(child.nodes), Reversed(front.nodes), m);
  }

  /** A tree x followed by a forest y leaves x's height below y's heights. */
  lemma RowHeights(x: seq<Node>, y: seq<Node>, m: nat)
    requires IsTree(x) && IsForest(y, m)
    ensures MaxOf(Run([], x + y)) == Max(Height(x), MaxOf(Run([], y)))
  {
    RunAppend([], x, y);
    TreeRun([], x);
    assert [] + [Height(x)] == [Height(x)];
    RunOnTop([Height(x)], y);
    MaxOfCons(Height(x), Run([], y));
  }

  /** Sharing a budget of n nodes equally among a children leaves at least
      one node each when a <= n, and never more than n in all. */
  lemma SharedBudget(n: nat, a: nat)
    requires 0 < a <= n
    ensures n / a >= 1 && a * (n / a) <= n
  {
    assert n == a * (n / a) + n % a;
  }

  /** The leaf rule: with no depth left, a length budget of 1, or a budget no
      larger than the minimum function arity, growth emits exactly one leaf,
      a Constant when the draw falls below pc and a Variable otherwise. When
      internal nodes are allowed but no symbol fits the length budget, growth
      fails; otherwise the branch root is a candidate symbol. */
  lemma GrowRules(g: Setup, cursor: nat, maxBranchLength: nat, maxBranchDepth: nat)
    requires SetupOk(g)
    ensures var r := GrowBranch(g, cursor, maxBranchLength, maxBranchDepth);
      LeafOnly(g, maxBranchLength, maxBranchDepth) ==>
        && r.Ok? && |r.value.nodes| == 1 && r.value.nodes[0].IsLeaf()
        && (r.value.nodes[0].kind == Constant <==> Uniform(0.0, g.pc + g.pv, g.rng(cursor)) < g.pc)
        && (r.value.nodes[0].kind == Variable <==> !(Uniform(0.0, g.pc + g.pv, g.rng(cursor)) < g.pc))
    ensures var r := GrowBranch(g, cursor, maxBranchLength, maxBranchDepth);
      !LeafOnly(g, maxBranchLength, maxBranchDepth) ==>
        && (Candidates(g.partials, maxBranchLength) == [] ==> r == Err(NoCandidate(maxBranchLength)))
        && (r.Ok? ==> |r.value.nodes| >= 1 && IsCandidate(r.value.nodes[0].kind, maxBranchLength))
  {
    if !LeafOnly(g, maxBranchLength, maxBranchDepth) {
      var candidates := Candidates(g.partials, maxBranchLength);
      if candidates != [] {
        CandidatesSampleable(g, maxBranchLength);
        var k := SampledIndex(candidates, g.rng(cursor));
        CandidatesExact(g.partials, maxBranchLength, candidates[k]);
      }
    }
  }

  /** The nodes and next draw of a growth appended to `nodes`. */
  function AppendTo(nodes: seq<Node>, r: Result<Growth, GrowError>): Result<(seq<Node>, nat), GrowError>
  {
    match r
    case Ok(b) => Ok((nodes + b.nodes, b.next))
    case Err(e) => Err(e)
  }

  /** Grows one branch from draw `cursor` on, appending its nodes to
      `nodes` in pre-order: the node first, then each child's branch. */
  method Grow(g: Setup, cursor: nat, nodes: seq<Node>, maxBranchLength: nat, maxBranchDepth: nat)
    returns (r: Result<(seq<Node>, nat), GrowError>)
    requires SetupOk(g)
    ensures r == AppendTo(nodes, GrowBranch(g, cursor, maxBranchLength, maxBranchDepth))
    decreases maxBranchDepth, 1
  {
    if maxBranchDepth == 0 || maxBranchLength == 1 || maxBranchLength <= g.minArity {
      var u := g.rng(cursor);
      var node := if Uniform(0.0, g.pc + g.pv, u) < g.pc then NewNode(Constant, g.arity) else NewNode(Variable, g.arity);
      return Ok((nodes + [node], cursor + 1));
    }
    var candidates := Candidates(g.partials, maxBranchLength);
    if |candidates| == 0 {
      return Err(NoCandidate(maxBranchLength));
    }
    CandidatesSampleable(g, maxBranchLength);
    var node := SampleProportional(candidates, g.rng(cursor), g.arity);
    var r' := GrowChildrenOf(g, cursor + 1, nodes + [node], maxBranchLength, node.arity, maxBranchDepth);
    ghost var children := GrowChildren(g, cursor + 1, ChildLength(maxBranchLength, node.arity), maxBranchDepth, node.arity);
    if children.Ok? {
      assert nodes + [node] + children.value.nodes == nodes + ([node] + children.value.nodes);
    }
    return r';
  }

  /** The loop of Grow over the children of a node of the given arity: each
      child is grown with the length budget (maxBranchLength - 1) / arity
      and one level less depth, its nodes appended after its left siblings;
      the first failing child ends the loop with its error. */
  method GrowChildrenOf(g: Setup, cursor: nat, nodes: seq<Node>, maxBranchLength: nat, arity: nat, maxBranchDepth: nat)
    returns (r: Result<(seq<Node>, nat), GrowError>)
    requires SetupOk(g) && maxBranchLength >= 1 && maxBranchDepth >= 1
    ensures r == AppendTo(nodes, GrowChildren(g, cursor, ChildLength(maxBranchLength, arity), maxBranchDepth, arity))
    decreases maxBranchDepth, 0
  {
    ghost var childLength := ChildLength(maxBranchLength, arity);
    var acc := nodes;
    var next := cursor;
    ghost var front := Growth([], cursor, 0);
    var i := 0;
    while i < arity
      invariant i <= arity
      invariant GrowChildren(g, cursor, childLength, maxBranchDepth, i) == Ok(front)
      invariant acc == nodes + front.nodes && next == front.next
    {
      var maxChildLength := (maxBranchLength - 1) / arity;
      var child := Grow(g, next, acc, maxChildLength, maxBranchDepth - 1);
      GrowChildrenStep(g, cursor, childLength, maxBranchDepth, i, front);
      ghost var b := GrowBranch(g, next, childLength, maxBranchDepth - 1);
      if child.Err? {
        ChildFailureStays(g, cursor, childLength, maxBranchDepth, i + 1, arity);
        return Err(child.error);
      }
      assert acc + b.value.nodes == nodes + (front.nodes + b.value.nodes);
      front := Growth(front.nodes + b.value.nodes, b.value.next, Max(front.height, b.value.height));
      acc, next := child.value.0, child.value.1;
      i := i + 1;
    }
    return Ok((acc, next));
  }

  /** Growing one more child extends the first k children with that
      child's branch, or fails with the child's error. */
  lemma GrowChildrenStep(g: Setup, cursor: nat, childLength: nat, parentDepth: nat, k: nat, front: Growth)
    requires SetupOk(g) && parentDepth >= 1
    requires GrowChildren(g, cursor, childLength, parentDepth, k) == Ok(front)
    ensures var b := GrowBranch(g, front.next, childLength, parentDepth - 1);
      b.Err? ==> GrowChildren(g, cursor, childLength, parentDepth, k + 1) == Err(b.error)
    ensures var b := GrowBranch(g, front.next, childLength, parentDepth - 1);
      b.Ok? ==>
        GrowChildren(g, cursor, childLength, parentDepth, k + 1)
          == Ok(Growth(front.nodes + b.value.nodes, b.value.next, Max(front.height, b.value.height)))
  {
  }

  // ---------------------------------------------------------------------
  // GrowTreeCreator

  /** A uniform index draw on 0..n-1 from the unit draw u. */
  function DrawIndex(u: real, n: nat): (i: nat)
    requires 0.0 <= u < 1.0 && n > 0
    ensures i < n
  {
    assert u * n as real < n as real by {
      assert (1.0 - u) * n as real > 0.0;
    }
    (u * n as real).Floor
  }

  /** One node finalised from draw c on: a Variable takes the hash of a
      drawn variable, then a leaf takes a drawn normal value. */
  function FinalizeNode(n: Node, variables: seq<Hash>, rng: nat -> real, normal: real -> real, c: nat): (Node, nat)
    requires UnitDraws(rng) && |variables| > 0
  {
    var (n1, c1) := if n.IsVariable() then (n.(hash := variables[DrawIndex(rng(c), |variables|)]), c + 1) else (n, c);
    if n1.IsLeaf() then (n1.(value := normal(rng(c1))), c1 + 1) else (n1, c1)
  }

  /** The nodes finalised in order from draw c on, with the next unused draw. */
  function Finalized(s: seq<Node>, variables: seq<Hash>, rng: nat -> real, normal: real -> real, c: nat): (r: (seq<Node>, nat))
    requires UnitDraws(rng) && |variables| > 0
    ensures |r.0| == |s|
    decreases |s|
  {
    if s == [] then ([], c)
    else
      var (front, c1) := Finalized(s[..|s| - 1], variables, rng, normal, c);
      var (n, c2) := FinalizeNode(s[|s| - 1], variables, rng, normal, c1);
      (front + [n], c2)
  }

  /** Finalisation changes only hashes and values: a Variable ends with the
      hash of one of `variables`, a leaf ends with a value drawn from
      `normal`, and every other hash and value stays. */
  lemma {:induction false} FinalizedEffect(s: seq<Node>, variables: seq<Hash>, rng: nat -> real, normal: real -> real, c: nat, i: nat)
    requires UnitDraws(rng) && |variables| > 0 && i < |s|
    ensures var n := Finalized(s, variables, rng, normal, c).0[i];
      && n == s[i].(hash := n.hash, value := n.value)
      && (if s[i].IsVariable() then n.hash in variables else n.hash == s[i].hash)
      && (if s[i].IsLeaf() then exists d: nat :: n.value == normal(rng(d)) else n.value == s[i].value)
    decreases |s|
  {
    var (front, c1) := Finalized(s[..|s| - 1], variables, rng, normal, c);
    if i < |s| - 1 {
      FinalizedEffect(s[..|s| - 1], variables, rng, normal, c, i);
    } else {
      var n1 := if s[i].IsVariable() then s[i].(hash := variables[DrawIndex(rng(c1), |variables|)]) else s[i];
      var c2 := if s[i].IsVariable() then c1 + 1 else c1;
      if s[i].IsLeaf() {
        assert Finalized(s, variables, rng, normal, c).0[i].value == normal(rng(c2));
      }
    }
  }

  /** The length budget of each child of the root: maxLength - 1 in size_t,
      shared among the root's children. */
  function RootChildLength(maxLength: nat, arity: nat): nat
  {
    if arity == 0 then 0 else SizeT(maxLength - 1) / arity
  }

  /** The depth budget of the root as GrowChildren takes it: each child gets
      maxDepth - 1 in size_t. */
  function RootDepth(maxDepth: nat): nat
  {
    SizeT(maxDepth - 1) + 1
  }

  /** The root, drawn from all allowed symbols with the first draw, then its
      children's branches, in pre-order. */
  function GrowRoot(g: Setup, maxLength: nat, maxDepth: nat): Result<Growth, GrowError>
    requires SetupOk(g) && |g.partials| > 0
  {
    var root := SampleProportional(g.partials, g.rng(0), g.arity);
    match GrowChildren(g, 1, RootChildLength(maxLength, root.arity), RootDepth(maxDepth), root.arity)
    case Err(e) => Err(e)
    case Ok(children) => Ok(Growth([root] + children.nodes, children.next, children.height + 1))
  }

  /** The grown root is first in pre-order, and the growth read backwards
      is one tree. */
  lemma GrowRootTree(g: Setup, maxLength: nat, maxDepth: nat)
    requires SetupOk(g) && |g.partials| > 0
    ensures GrowRoot(g, maxLength, maxDepth).Ok? ==>
      var b := GrowRoot(g, maxLength, maxDepth).value;
      && |b.nodes| >= 1
      && b.nodes[0] == SampleProportional(g.partials, g.rng(0), g.arity)
      && IsTree(Reversed(b.nodes))
  {
    var r := GrowRoot(g, maxLength, maxDepth);
    if r.Ok? {
      var root := SampleProportional(g.partials, g.rng(0), g.arity);
      var cl := RootChildLength(maxLength, root.arity);
      GrowChildrenShape(g, 1, cl, RootDepth(maxDepth), root.arity);
      var children := GrowChildren(g, 1, cl, RootDepth(maxDepth), root.arity).value;
      ReversedConcat([root], children.nodes);
      assert Reversed([root]) == [root];
      CloseForest(Reversed(children.nodes), root);
    }
  }

  /** The grown tree fits maxLength whenever maxLength exceeds the root's
      arity, and nests no deeper than a positive maxDepth. */
  lemma GrowRootBounds(g: Setup, maxLength: nat, maxDepth: nat)
    requires SetupOk(g) && |g.partials| > 0
    ensures GrowRoot(g, maxLength, maxDepth).Ok? ==>
      var b := GrowRoot(g, maxLength, maxDepth).value;
      && (SampleProportional(g.partials, g.rng(0), g.arity).arity < maxLength < SizeModulus ==> |b.nodes| <= maxLength)
      && (1 <= maxDepth < SizeModulus ==> b.height <= maxDepth)
  {
    var r := GrowRoot(g, maxLength, maxDepth);
    if r.Ok? {
      var root := SampleProportional(g.partials, g.rng(0), g.arity);
      var a := root.arity;
      var cl := RootChildLength(maxLength, a);
      GrowChildrenShape(g, 1, cl, RootDepth(maxDepth), a);
      if 0 < a < maxLength < SizeModulus {
        SharedBudget(maxLength - 1, a);
      }
    }
  }

  /** The finalised growth read backwards is still a tree. */
  lemma FinalizedTree(s: seq<Node>, variables: seq<Hash>, rng: nat -> real, normal: real -> real, c: nat)
    requires UnitDraws(rng) && |variables| > 0 && IsTree(Reversed(s))
    ensures IsTree(Reversed(Finalized(s, variables, rng, normal, c).0))
  {
    var f := Finalized(s, variables, rng, normal, c).0;
    forall i | 0 <= i < |s|
      ensures f[i].arity == s[i].arity
    {
      FinalizedEffect(s, variables, rng, normal, c, i);
    }
    assert SameShape(Reversed(s), Reversed(f));
    ShapeForest(Reversed(s), Reversed(f), 1);
  }

  /** What the creator returns: the root growth, finalised, reversed into
      post-order with derived lengths, and rejected when longer than
      maxLength. */
  function CreatedTree(g: Setup, variables: seq<Hash>, normal: real -> real, maxLength: nat, maxDepth: nat): Result<seq<Node>, GrowError>
    requires SetupOk(g) && |g.partials| > 0 && |variables| > 0
  {
    match GrowRoot(g, maxLength, maxDepth)
    case Err(e) => Err(e)
    case Ok(b) =>
      GrowRootTree(g, maxLength, maxDepth);
      Finished(b.nodes, b.next, variables, g.rng, normal, maxLength)
  }

  /** A pre-order growth finalised from draw `next` on, reversed into
      post-order with derived lengths, and rejected when over maxLength. */
  function Finished(nodes: seq<Node>, next: nat, variables: seq<Hash>, rng: nat -> real, normal: real -> real, maxLength: nat): Result<seq<Node>, GrowError>
    requires UnitDraws(rng) && |variables| > 0 && IsTree(Reversed(nodes))
  {
    FinalizedTree(nodes, variables, rng, normal, next);
    var tree := UpdateNodes(Reversed(Finalized(nodes, variables, rng, normal, next).0));
    if |tree| > maxLength then Err(TooLong(|tree|, maxLength)) else Ok(tree)
  }

  /** A finished tree is a valid post-order tree within maxLength whose
      last node has the symbol of the first grown node, and whose Variable
      nodes all carry the hash of one of `variables`. */
  lemma FinishedShape(nodes: seq<Node>, next: nat, variables: seq<Hash>, rng: nat -> real, normal: real -> real, maxLength: nat)
    requires UnitDraws(rng) && |variables| > 0 && IsTree(Reversed(nodes)) && |nodes| >= 1
    ensures Finished(nodes, next, variables, rng, normal, maxLength).Ok? ==>
      var t := Finished(nodes, next, variables, rng, normal, maxLength).value;
      && ValidTree(t)
      && 1 <= |t| <= maxLength
      && t[|t| - 1].kind == nodes[0].kind
      && forall i :: 0 <= i < |t| && t[i].IsVariable() ==> t[i].hash in variables
  {
    var r := Finished(nodes, next, variables, rng, normal, maxLength);
    if r.Ok? {
      FinalizedTree(nodes, variables, rng, normal, next);
      var f := Finalized(nodes, variables, rng, normal, next).0;
      UpdateNodesValid(Reversed(f));
      var t := r.value;
      FinalizedEffect(nodes, variables, rng, normal, next, 0);
      assert t[|t| - 1].kind == f[0].kind;
      forall i | 0 <= i < |t| && t[i].IsVariable()
        ensures t[i].hash in variables
      {
        FinalizedEffect(nodes, variables, rng, normal, next, |f| - 1 - i);
        assert t[i].kind == f[|f| - 1 - i].kind;
      }
    }
  }

  /** A created tree is a valid post-order tree within maxLength whose last
      node (the root) has the symbol sampled first, and whose Variable nodes
      all carry the hash of one of `variables`. */
  lemma CreatedTreeShape(g: Setup, variables: seq<Hash>, normal: real -> real, maxLength: nat, maxDepth: nat)
    requires SetupOk(g) && |g.partials| > 0 && |variables| > 0
    ensures CreatedTree(g, variables, normal, maxLength, maxDepth).Ok? ==>
      var t := CreatedTree(g, variables, normal, maxLength, maxDepth).value;
      && ValidTree(t)
      && |t| <= maxLength
      && |t| >= 1
      && t[|t| - 1].kind == g.partials[SampledIndex(g.partials, g.rng(0))].0
      && forall i :: 0 <= i < |t| && t[i].IsVariable() ==> t[i].hash in variables
  {
    if CreatedTree(g, variables, normal, maxLength, maxDepth).Ok? {
      var b := GrowRoot(g, maxLength, maxDepth).value;
      GrowRootTree(g, maxLength, maxDepth);
      FinishedShape(b.nodes, b.next, variables, g.rng, normal, maxLength);
    }
  }

  /** The final length check fails only for a root whose arity is at least
      maxLength: otherwise the budgets already keep the tree within it. */
  lemma CreatedTreeFits(g: Setup, variables: seq<Hash>, normal: real -> real, maxLength: nat, maxDepth: nat)
    requires SetupOk(g) && |g.partials| > 0 && |variables| > 0
    requires maxLength < SizeModulus
    requires SampleProportional(g.partials, g.rng(0), g.arity).arity < maxLength
    ensures CreatedTree(g, variables, normal, maxLength, maxDepth).Err? ==>
      && GrowRoot(g, maxLength, maxDepth).Err?
      && CreatedTree(g, variables, normal, maxLength, maxDepth).error == GrowRoot(g, maxLength, maxDepth).error
  {
    GrowRootBounds(g, maxLength, maxDepth);
  }

  /** The root growth, read backwards, is no higher on the evaluation stack
      than its recursion height. */
  lemma GrowRootHeight(g: Setup, maxLength: nat, maxDepth: nat)
    requires SetupOk(g) && |g.partials| > 0
    ensures GrowRoot(g, maxLength, maxDepth).Ok? ==>
      var b := GrowRoot(g, maxLength, maxDepth).value;
      Height(Reversed(b.nodes)) <= b.height
  {
    var r := GrowRoot(g, maxLength, maxDepth);
    if r.Ok? {
      var root := SampleProportional(g.partials, g.rng(0), g.arity);
      var cl := RootChildLength(maxLength, root.arity);
      var rc := GrowChildren(g, 1, cl, RootDepth(maxDepth), root.arity);
      assert rc.Ok?;
      var children := rc.value;
      assert Height(Reversed([root] + children.nodes)) <= children.height + 1 by {
        GrowChildrenShape(g, 1, cl, RootDepth(maxDepth), root.arity);
        GrowChildrenHeights(g, 1, cl, RootDepth(maxDepth), root.arity);
        ClosedHeight(root, children.nodes, children.height);
      }
    }
  }

  /** Finalising, reversing and renormalising keep every arity, so the
      finished tree's root depth is the height of the growth read
      backwards. */
  lemma FinishedDepth(nodes: seq<Node>, next: nat, variables: seq<Hash>, rng: nat -> real, normal: real -> real, maxLength: nat)
    requires UnitDraws(rng) && |variables| > 0 && IsTree(Reversed(nodes)) && |nodes| >= 1
    ensures Finished(nodes, next, variables, rng, normal, maxLength).Ok? ==>
      var t := Finished(nodes, next, variables, rng, normal, maxLength).value;
      |t| > 0 && Depth(t, |t| - 1) == Height(Reversed(nodes))
  {
    var r := Finished(nodes, next, variables, rng, normal, maxLength);
    if r.Ok? {
      FinishedShape(nodes, next, variables, rng, normal, maxLength);
      var f := Finalized(nodes, variables, rng, normal, next).0;
      forall i | 0 <= i < |nodes|
        ensures f[i].arity == nodes[i].arity
      {
        FinalizedEffect(nodes, variables, rng, normal, next, i);
      }
      assert SameShape(Reversed(nodes), r.value);
      ShapeDepth(Reversed(nodes), r.value);
    }
  }

  /** A created tree's root depth is within a maxDepth of at least 1: the
      depth budget of the growth bounds the finished tree. */
  lemma CreatedTreeDepth(g: Setup, variables: seq<Hash>, normal: real -> real, maxLength: nat, maxDepth: nat)
    requires SetupOk(g) && |g.partials| > 0 && |variables| > 0
    ensures CreatedTree(g, variables, normal, maxLength, maxDepth).Ok? && 1 <= maxDepth < SizeModulus ==>
      var t := CreatedTree(g, variables, normal, maxLength, maxDepth).value;
      |t| > 0 && Depth(t, |t| - 1) <= maxDepth
  {
    if CreatedTree(g, variables, normal, maxLength, maxDepth).Ok? && 1 <= maxDepth < SizeModulus {
      var b := GrowRoot(g, maxLength, maxDepth).value;
      GrowRootTree(g, maxLength, maxDepth);
      GrowRootBounds(g, maxLength, maxDepth);
      GrowRootHeight(g, maxLength, maxDepth);
      FinishedDepth(b.nodes, b.next, variables, g.rng, normal, maxLength);
    }
  }

  /** The growth setup the creator reads from a grammar. */
  function CreatorSetup(grammar: Grammar, rng: nat -> real, arity: NodeType -> nat, minArity: nat): Setup
    reads grammar
    requires Constant in grammar.frequencies && Variable in grammar.frequencies
    requires forall t :: t in grammar.order ==> t in grammar.frequencies
  {
    Setup(rng, grammar.frequencies[Constant], grammar.frequencies[Variable],
          Partials(EnabledEntries(grammar.order, grammar.frequencies, grammar.config)), arity, minArity)
  }

  /** What the creator needs of its grammar: Constant and Variable in the
      table with a non-negative sum, at least one enabled symbol in the table,
      and every enabled frequency at least epsilon. */
  ghost predicate GrammarReady(grammar: Grammar)
    reads grammar
  {
    && grammar.Valid()
    && Constant in grammar.frequencies && Variable in grammar.frequencies
    && grammar.frequencies[Constant] + grammar.frequencies[Variable] >= 0.0
    && (exists t :: t in grammar.frequencies && grammar.IsEnabled(t))
    && forall t :: t in grammar.frequencies && grammar.IsEnabled(t) ==> grammar.frequencies[t] >= Epsilon
  }

  lemma CreatorSetupOk(grammar: Grammar, rng: nat -> real, arity: NodeType -> nat, minArity: nat)
    requires GrammarReady(grammar) && UnitDraws(rng) && ArityFits(arity)
    ensures SetupOk(CreatorSetup(grammar, rng, arity, minArity))
    ensures |CreatorSetup(grammar, rng, arity, minArity).partials| > 0
  {
    var allowed := EnabledEntries(grammar.order, grammar.frequencies, grammar.config);
    var t :| t in grammar.frequencies && grammar.IsEnabled(t);
    EnabledEntriesExact(grammar.order, grammar.frequencies, grammar.config, t, grammar.frequencies[t]);
    forall k | 0 <= k < |allowed|
      ensures allowed[k].1 >= Epsilon
    {
      EnabledEntriesExact(grammar.order, grammar.frequencies, grammar.config, allowed[k].0, allowed[k].1);
    }
    PartialsAtLeastEpsilon(allowed);
  }

  /** Reverses the nodes in place. */
  method Reverse<T>(a: array<T>)
    modifies a
    ensures a[..] == Reversed(old(a[..]))
  {
    ghost var s := a[..];
    var n, i := a.Length, 0;
    while i < n / 2
      invariant 0 <= i <= n / 2
      invariant forall k :: 0 <= k < i ==> a[k] == s[n - 1 - k]
      invariant forall k :: n - i <= k < n ==> a[k] == s[n - 1 - k]
      invariant forall k :: i <= k < n - i ==> a[k] == s[k]
    {
      a[i], a[n - 1 - i] := a[n - 1 - i], a[i];
      i := i + 1;
    }
    assert forall k :: 0 <= k < n ==> a[k] == Reversed(s)[k];
  }

  /** Finalising one more node extends the finalised prefix by that node,
      finalised from the draw the prefix left off at. */
  lemma FinalizedStep(s: seq<Node>, variables: seq<Hash>, rng: nat -> real, normal: real -> real, c: nat, k: nat)
    requires UnitDraws(rng) && |variables| > 0 && k < |s|
    ensures var (front, c1) := Finalized(s[..k], variables, rng, normal, c);
      Finalized(s[..k + 1], variables, rng, normal, c)
        == (front + [FinalizeNode(s[k], variables, rng, normal, c1).0], FinalizeNode(s[k], variables, rng, normal, c1).1)
  {
    assert s[..k + 1][..k] == s[..k];
  }

  /** Finalises the nodes in place, in order, from draw c on, and returns
      the next unused draw. */
  method FinalizeNodes(a: array<Node>, variables: seq<Hash>, rng: nat -> real, normal: real -> real, c: nat)
    returns (next: nat)
    requires UnitDraws(rng) && |variables| > 0
    modifies a
    ensures (a[..], next) == Finalized(old(a[..]), variables, rng, normal, c)
  {
    ghost var s := a[..];
    ghost var done: seq<Node> := [];
    next := c;
    var k := 0;
    while k < a.Length
      invariant 0 <= k <= a.Length && |done| == k
      invariant (done, next) == Finalized(s[..k], variables, rng, normal, c)
      invariant forall j :: 0 <= j < k ==> a[j] == done[j]
      invariant forall j :: k <= j < a.Length ==> a[j] == s[j]
    {
      FinalizedStep(s, variables, rng, normal, c, k);
      ghost var step := FinalizeNode(s[k], variables, rng, normal, next);
      if a[k].IsVariable() {
        a[k] := a[k].(hash := variables[DrawIndex(rng(next), |variables|)]);
        next := next + 1;
      }
      if a[k].IsLeaf() {
        a[k] := a[k].(value := normal(rng(next)));
        next := next + 1;
      }
      assert a[k] == step.0 && next == step.1;
      done := done + [a[k]];
      k := k + 1;
    }
    assert s[..k] == s;
    assert a[..] == done;
  }

  /** Samples the root from all partials, grows each child's branch with
      the root's share of maxLength - 1 and depth maxDepth - 1, finalises the
      nodes in place, reverses them into post-order, derives the lengths and
      rejects a tree over maxLength. */
  method Create(g: Setup, variables: seq<Hash>, normal: real -> real, maxLength: nat, maxDepth: nat)
    returns (r: Result<seq<Node>, GrowError>)
    requires SetupOk(g) && |g.partials| > 0 && |variables| > 0
    ensures r == CreatedTree(g, variables, normal, maxLength, maxDepth)
  {
    var root := SampleProportional(g.partials, g.rng(0), g.arity);
    var grown := GrowRootChildren(g, root, maxLength, maxDepth);
    if grown.Err? {
      return Err(grown.error);
    }
    GrowRootTree(g, maxLength, maxDepth);
    r := Finish(grown.value.0, grown.value.1, variables, g.rng, normal, maxLength);
  }

  /** The creator's loop over the root's children: each child's branch is
      grown with length budget (maxLength - 1) / arity and depth budget
      maxDepth - 1, both in size_t, its nodes appended after the root and its
      left siblings; the first failing child ends the loop with its error. */
  method GrowRootChildren(g: Setup, root: Node, maxLength: nat, maxDepth: nat)
    returns (r: Result<(seq<Node>, nat), GrowError>)
    requires SetupOk(g)
    ensures r == AppendTo([root], GrowChildren(g, 1, RootChildLength(maxLength, root.arity), RootDepth(maxDepth), root.arity))
  {
    ghost var childLength := RootChildLength(maxLength, root.arity);
    ghost var depth := RootDepth(maxDepth);
    var nodes := [root];
    var next := 1;
    ghost var front := Growth([], 1, 0);
    var i := 0;
    while i < root.arity
      invariant i <= root.arity
      invariant GrowChildren(g, 1, childLength, depth, i) == Ok(front)
      invariant nodes == [root] + front.nodes && next == front.next
    {
      var maxBranchLength := SizeT(maxLength - 1) / root.arity;
      var maxBranchDepth := SizeT(maxDepth - 1);
      assert maxBranchLength == childLength && maxBranchDepth == depth - 1;
      var branch := Grow(g, next, nodes, maxBranchLength, maxBranchDepth);
      GrowChildrenStep(g, 1, childLength, depth, i, front);
      ghost var child := GrowBranch(g, next, childLength, depth - 1);
      if branch.Err? {
        ChildFailureStays(g, 1, childLength, depth, i + 1, root.arity);
        return Err(branch.error);
      }
      assert nodes + child.value.nodes == [root] + (front.nodes + child.value.nodes);
      front := Growth(front.nodes + child.value.nodes, child.value.next, Max(front.height, child.value.height));
      nodes, next := branch.value.0, branch.value.1;
      i := i + 1;
    }
    return Ok((nodes, next));
  }

  /** Finalises the grown nodes in place, reverses them into post-order,
      derives the lengths and rejects a tree over maxLength. */
  method Finish(nodes: seq<Node>, next: nat, variables: seq<Hash>, rng: nat -> real, normal: real -> real, maxLength: nat)
    returns (r: Result<seq<Node>, GrowError>)
    requires UnitDraws(rng) && |variables| > 0 && IsTree(Reversed(nodes))
    ensures r == Finished(nodes, next, variables, rng, normal, maxLength)
  {
    FinalizedTree(nodes, variables, rng, normal, next);
    var a := new Node[|nodes|](k requires 0 <= k < |nodes| => nodes[k]);
    assert a[..] == nodes;
    var _ := FinalizeNodes(a, variables, rng, normal, next);
    Reverse(a);
    var tree := UpdateNodes(a[..]);
    if |tree| > maxLength {
      return Err(TooLong(|tree|, maxLength));
    }
    return Ok(tree);
  }

  /** Grows a whole tree from the grammar's allowed symbols. */
  method GrowTree(grammar: Grammar, variables: seq<Hash>, rng: nat -> real, normal: real -> real,
                  arity: NodeType -> nat, minArity: nat, maxLength: nat, maxDepth: nat)
    returns (r: Result<seq<Node>, GrowError>)
    requires GrammarReady(grammar) && UnitDraws(rng) && ArityFits(arity) && |variables| > 0
    ensures (CreatorSetupOk(grammar, rng, arity, minArity);
      r == CreatedTree(CreatorSetup(grammar, rng, arity, minArity), variables, normal, maxLength, maxDepth))
  {
    CreatorSetupOk(grammar, rng, arity, minArity);
    var allowed := grammar.AllowedSymbols();
    var partials := Partials(allowed);
    var g := Setup(rng, grammar.GetFrequency(Constant), grammar.GetFrequency(Variable), partials, arity, minArity);
    assert g == CreatorSetup(grammar, rng, arity, minArity);
    r := Create(g, variables, normal, maxLength, maxDepth);
  }
}
