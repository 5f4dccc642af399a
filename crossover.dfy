/** Subtree crossover (src/operators/crossover.cpp).

    The offspring is the first parent with one subtree replaced by a subtree
    of the second parent that fits the remaining length and depth budget.
    Randomness is an input: each parent's shuffled index vector is a
    permutation `order`, and the uniform draws compared with the internal
    probability are the booleans `coins` (true: prefer an internal node). */
module Crossover {
  import opened Wrappers
  import opened Trees
  import opened Native

  /** `order` holds each index 0..n-1 exactly once. */
  ghost predicate IsPermutation(order: seq<nat>, n: nat)
  {
    && |order| == n
    && (forall p :: 0 <= p < n ==> order[p] < n)
    && (forall p, q :: 0 <= p < q < n ==> order[p] != order[q])
  }

  /** A node's kind agrees with its coin: true asks for an internal node, false for a leaf. */
  predicate CoinMatches(n: Node, coin: bool)
  {
    coin != n.IsLeaf()
  }

  /** The subtree at i fits a donor budget of `maxLength` nodes and `maxDepth` levels. */
  predicate Fits(tree: seq<Node>, i: nat, maxDepth: nat, maxLength: nat)
    requires i < |tree|
  {
    tree[i].length + 1 <= maxLength && Depth(tree, i) <= maxDepth
  }

  // ---------------------------------------------------------------------
  // SelectRandomBranch

  /** Coins consumed before position q of the scan: one per index that passed the filter. */
  function FitsBefore(tree: seq<Node>, order: seq<nat>, maxDepth: nat, maxLength: nat, q: nat): (c: nat)
    requires IsPermutation(order, |tree|) && q <= |order|
    ensures c <= q
  {
    if q == 0 then 0
    else FitsBefore(tree, order, maxDepth, maxLength, q - 1)
         + (if Fits(tree, order[q - 1], maxDepth, maxLength) then 1 else 0)
  }

  /** Position q of the scan returns its index: the index passes the filter and matches its coin. */
  predicate BranchHit(tree: seq<Node>, order: seq<nat>, coins: seq<bool>, maxDepth: nat, maxLength: nat, q: nat)
    requires IsPermutation(order, |tree|) && |coins| >= |order| && q < |order|
  {
    && Fits(tree, order[q], maxDepth, maxLength)
    && CoinMatches(tree[order[q]], coins[FitsBefore(tree, order, maxDepth, maxLength, q)])
  }

  /** First position at or after p whose index the scan returns (|order| when none). */
  function FirstBranchHit(tree: seq<Node>, order: seq<nat>, coins: seq<bool>, maxDepth: nat, maxLength: nat, p: nat): (q: nat)
    requires IsPermutation(order, |tree|) && |coins| >= |order| && p <= |order|
    ensures p <= q <= |order|
    ensures q < |order| ==> BranchHit(tree, order, coins, maxDepth, maxLength, q)
    ensures forall k :: p <= k < q ==> !BranchHit(tree, order, coins, maxDepth, maxLength, k)
    decreases |order| - p
  {
    if p == |order| then p
    else if BranchHit(tree, order, coins, maxDepth, maxLength, p) then p
    else FirstBranchHit(tree, order, coins, maxDepth, maxLength, p + 1)
  }

  /** The donor index SelectRandomBranch returns, if any. */
  function SelectedBranch(tree: seq<Node>, order: seq<nat>, coins: seq<bool>, maxDepth: nat, maxLength: nat): (r: Option<nat>)
    requires IsPermutation(order, |tree|) && |coins| >= |order|
    ensures r.Some? ==> r.value < |tree| && tree[r.value].length + 1 <= maxLength
  {
    var q := FirstBranchHit(tree, order, coins, maxDepth, maxLength, 0);
    if q < |order| then Some(order[q]) else None
  }

  /** Every index SelectRandomBranch returns is in bounds, fits the budget and
      matches its coin, and is the first such index in scan order; when it
      returns nothing, no index in the scan both fits and matches its coin. */
  lemma SelectedBranchSound(tree: seq<Node>, order: seq<nat>, coins: seq<bool>, maxDepth: nat, maxLength: nat)
    requires IsPermutation(order, |tree|) && |coins| >= |order|
    ensures match SelectedBranch(tree, order, coins, maxDepth, maxLength)
      case Some(i) =>
        && i < |tree|
        && tree[i].length + 1 <= maxLength && Depth(tree, i) <= maxDepth
        && exists q :: 0 <= q < |order| && order[q] == i
             && BranchHit(tree, order, coins, maxDepth, maxLength, q)
             && forall k :: 0 <= k < q ==> !BranchHit(tree, order, coins, maxDepth, maxLength, k)
      case None =>
        forall q :: 0 <= q < |order| ==> !BranchHit(tree, order, coins, maxDepth, maxLength, q)
  {
    var q := FirstBranchHit(tree, order, coins, maxDepth, maxLength, 0);
    if q < |order| {
      assert order[q] == SelectedBranch(tree, order, coins, maxDepth, maxLength).value;
    }
  }

  /** Scans the shuffled indices and returns the first whose subtree fits the
      budget and whose kind matches a fresh coin. */
  method SelectRandomBranch(tree: seq<Node>, order: seq<nat>, coins: seq<bool>, maxBranchDepth: nat, maxBranchLength: nat)
    returns (r: Option<nat>)
    requires IsPermutation(order, |tree|) && |coins| >= |order|
    ensures r == SelectedBranch(tree, order, coins, maxBranchDepth, maxBranchLength)
  {
    var p := 0;
    var c := 0;
    while p < |order|
      invariant p <= |order|
      invariant c == FitsBefore(tree, order, maxBranchDepth, maxBranchLength, p)
      invariant forall k :: 0 <= k < p ==> !BranchHit(tree, order, coins, maxBranchDepth, maxBranchLength, k)
    {
      var i := order[p];
      if tree[i].length + 1 > maxBranchLength || Depth(tree, i) > maxBranchDepth {
        p := p + 1;
        continue;
      }
      if coins[c] != tree[i].IsLeaf() {
        assert BranchHit(tree, order, coins, maxBranchDepth, maxBranchLength, p);
        return Some(i);
      }
      c := c + 1;
      p := p + 1;
    }
    return None;
  }

  // ---------------------------------------------------------------------
  // CutRandom

  /** First position at or after p whose index matches its coin (|order| when none). */
  function FirstCutHit(tree: seq<Node>, order: seq<nat>, coins: seq<bool>, p: nat): (q: nat)
    requires IsPermutation(order, |tree|) && |coins| >= |order| && p <= |order|
    ensures p <= q <= |order|
    ensures q < |order| ==> CoinMatches(tree[order[q]], coins[q])
    ensures forall k :: p <= k < q ==> !CoinMatches(tree[order[k]], coins[k])
    decreases |order| - p
  {
    if p == |order| then p
    else if CoinMatches(tree[order[p]], coins[p]) then p
    else FirstCutHit(tree, order, coins, p + 1)
  }

  /** The cut point CutRandom returns: the first coin-matching index, else the last one scanned. */
  function CutPoint(tree: seq<Node>, order: seq<nat>, coins: seq<bool>): (i: nat)
    requires |tree| > 0 && IsPermutation(order, |tree|) && |coins| >= |order|
    ensures i < |tree|
  {
    var q := FirstCutHit(tree, order, coins, 0);
    if q < |order| then order[q] else order[|order| - 1]
  }

  /** The cut point is the first index in scan order whose kind matches its
      coin; when no index matches, it is the last index scanned. */
  lemma CutPointSound(tree: seq<Node>, order: seq<nat>, coins: seq<bool>)
    requires |tree| > 0 && IsPermutation(order, |tree|) && |coins| >= |order|
    ensures var i := CutPoint(tree, order, coins);
      || (exists q :: 0 <= q < |order| && order[q] == i && CoinMatches(tree[i], coins[q])
            && forall k :: 0 <= k < q ==> !CoinMatches(tree[order[k]], coins[k]))
      || (i == order[|order| - 1] && forall k :: 0 <= k < |order| ==> !CoinMatches(tree[order[k]], coins[k]))
  {
    var q := FirstCutHit(tree, order, coins, 0);
    if q < |order| {
      assert order[q] == CutPoint(tree, order, coins);
    }
  }

  /** Scans the shuffled indices and returns the first whose kind matches a
      fresh coin, falling back to the last index scanned. */
  method CutRandom(tree: seq<Node>, order: seq<nat>, coins: seq<bool>) returns (i: nat)
    requires |tree| > 0 && IsPermutation(order, |tree|) && |coins| >= |order|
    ensures i == CutPoint(tree, order, coins)
  {
    var p := 0;
    while p < |order|
      invariant p <= |order|
      invariant forall k :: 0 <= k < p ==> !CoinMatches(tree[order[k]], coins[k])
    {
      var n := order[p];
      if coins[p] != tree[n].IsLeaf() {
        return n;
      }
      p := p + 1;
    }
    return order[|order| - 1];
  }

  // ---------------------------------------------------------------------
  // Budgets and splice

  /** Depth budget for the donor: maxDepth - Level(i), computed in size_t. */
  function DepthBudget(maxDepth: nat, level: nat): nat
  {
    SizeT(maxDepth - level)
  }

  /** Length budget for the donor: maxLength minus the nodes of lhs that stay, in size_t. */
  function LengthBudget(maxLength: nat, lhsLength: nat, cutSize: nat): nat
  {
    SizeT(maxLength - SizeT(lhsLength - cutSize))
  }

  /** The precondition checks on the budgets pass exactly when the cut point
      sits no deeper than maxDepth and the nodes of lhs that stay number at
      most maxLength; then each budget is the plain difference and never
      exceeds its global limit. Otherwise the subtraction wraps around to a
      budget above that limit. */
  lemma BudgetChecks(maxDepth: nat, maxLength: nat, lhsLength: nat, cutSize: nat, level: nat)
    requires maxDepth < SizeModulus && maxLength < SizeModulus && level < SizeModulus
    requires cutSize <= lhsLength < SizeModulus
    ensures (DepthBudget(maxDepth, level) <= maxDepth) <==> level <= maxDepth
    ensures (LengthBudget(maxLength, lhsLength, cutSize) <= maxLength) <==> lhsLength - cutSize <= maxLength
    ensures level <= maxDepth ==> DepthBudget(maxDepth, level) == maxDepth - level
    ensures lhsLength - cutSize <= maxLength ==> LengthBudget(maxLength, lhsLength, cutSize) == maxLength - (lhsLength - cutSize)
  {
  }

  /** The offspring node sequence: lhs before the cut subtree, the donor
      subtree of rhs, then lhs after the cut point. */
  function Splice(lhs: seq<Node>, i: nat, rhs: seq<Node>, j: nat): (r: seq<Node>)
    requires i < |lhs| && lhs[i].length <= i
    requires j < |rhs| && rhs[j].length <= j
  {
    lhs[..i - lhs[i].length] + rhs[j - rhs[j].length .. j + 1] + lhs[i + 1..]
  }

  /** The splice of two valid trees is a tree whose length is that of lhs
      minus the cut subtree plus the donor subtree. */
  lemma SpliceIsTree(lhs: seq<Node>, i: nat, rhs: seq<Node>, j: nat)
    requires ValidTree(lhs) && i < |lhs| && lhs[i].length <= i
    requires ValidTree(rhs) && j < |rhs| && rhs[j].length <= j
    ensures IsTree(Splice(lhs, i, rhs, j))
    ensures |Splice(lhs, i, rhs, j)| == |lhs| - (lhs[i].length + 1) + (rhs[j].length + 1)
  {
    SubtreeAt(lhs, i);
    SubtreeAt(rhs, j);
    SpliceSlices(lhs, i - lhs[i].length, i, rhs[j - rhs[j].length .. j + 1]);
  }

  lemma SpliceSlices(lhs: seq<Node>, a: nat, i: nat, donor: seq<Node>)
    requires a <= i < |lhs|
    requires IsTree(lhs) && IsTree(lhs[a..i + 1]) && IsTree(donor)
    ensures IsTree(lhs[..a] + donor + lhs[i + 1..])
  {
    assert lhs == lhs[..a] + lhs[a..i + 1] + lhs[i + 1..];
    SpliceTree(lhs[..a], lhs[a..i + 1], lhs[i + 1..], donor);
  }

  /** The splice's height is at most that of lhs, or that of the donor
      subtree plus the cut point's level, whichever is larger. */
  lemma SpliceHeightAt(lhs: seq<Node>, i: nat, rhs: seq<Node>, j: nat)
    requires ValidTree(lhs) && i < |lhs| && lhs[i].length <= i
    requires ValidTree(rhs) && j < |rhs| && rhs[j].length <= j
    ensures Height(Splice(lhs, i, rhs, j)) <= Max(Height(lhs), Depth(rhs, j) + Level(lhs, i))
  {
    var a := i - lhs[i].length;
    var pre, cut, post := lhs[..a], lhs[a..i + 1], lhs[i + 1..];
    var donor := rhs[j - rhs[j].length .. j + 1];
    assert IsTree(cut) by { SubtreeAt(lhs, i); }
    assert IsTree(donor) && Depth(rhs, j) == Height(donor) by {
      SubtreeAt(rhs, j);
      DepthIsHeight(rhs, j);
    }
    assert pre + cut + post == lhs && |pre| + |cut| - 1 == i;
    assert Splice(lhs, i, rhs, j) == pre + donor + post;
    SpliceHeight(pre, cut, post, donor);
  }

  /** A valid tree with the splice's shape (the renormalised splice) is no
      deeper than lhs, or than the donor subtree grafted at the cut point's
      level, whichever is deeper. */
  lemma SpliceDepth(lhs: seq<Node>, i: nat, rhs: seq<Node>, j: nat, child: seq<Node>)
    requires ValidTree(lhs) && i < |lhs| && lhs[i].length <= i
    requires ValidTree(rhs) && j < |rhs| && rhs[j].length <= j
    requires ValidTree(child) && SameShape(Splice(lhs, i, rhs, j), child)
    ensures |child| > 0 && Depth(child, |child| - 1) <= Max(Depth(lhs, |lhs| - 1), Depth(rhs, j) + Level(lhs, i))
  {
    var spliced := Splice(lhs, i, rhs, j);
    assert Height(spliced) <= Max(Height(lhs), Depth(rhs, j) + Level(lhs, i)) by {
      SpliceHeightAt(lhs, i, rhs, j);
    }
    assert |child| > 0 && Depth(child, |child| - 1) == Height(spliced) by {
      ShapeRun([], spliced, child);
      RootDepthIsHeight(child);
    }
    assert Depth(lhs, |lhs| - 1) == Height(lhs) by {
      RootDepthIsHeight(lhs);
    }
    MaxTransfer(Depth(child, |child| - 1), Height(spliced), Depth(lhs, |lhs| - 1), Height(lhs),
                Depth(rhs, j) + Level(lhs, i));
  }

  datatype CrossoverError = BudgetCheckFailed

  /** Nodes of lhs that stay when the subtree at i is cut out. */
  function Kept(lhs: seq<Node>, i: nat): nat
    requires i < |lhs| && lhs[i].length < |lhs|
  {
    |lhs| - (lhs[i].length + 1)
  }

  /** What a crossover of lhs and rhs yields. It fails only when the budget
      precondition checks fail (the source aborts there); when no donor fits,
      the offspring is lhs itself; otherwise it is the renormalised splice. */
  function Offspring(lhs: seq<Node>, rhs: seq<Node>,
                     lhsOrder: seq<nat>, lhsCoins: seq<bool>, rhsOrder: seq<nat>, rhsCoins: seq<bool>,
                     maxDepth: nat, maxLength: nat): Result<seq<Node>, CrossoverError>
    requires ValidTree(lhs) && ValidTree(rhs)
    requires IsPermutation(lhsOrder, |lhs|) && |lhsCoins| >= |lhsOrder|
    requires IsPermutation(rhsOrder, |rhs|) && |rhsCoins| >= |rhsOrder|
  {
    var i := CutPoint(lhs, lhsOrder, lhsCoins);
    SubtreeAt(lhs, i);
    if Level(lhs, i) > maxDepth || Kept(lhs, i) > maxLength then Err(BudgetCheckFailed)
    else
      match SelectedBranch(rhs, rhsOrder, rhsCoins, maxDepth - Level(lhs, i), maxLength - Kept(lhs, i))
      case None => Ok(lhs)
      case Some(j) =>
        SubtreeAt(rhs, j);
        SpliceIsTree(lhs, i, rhs, j);
        Ok(UpdateNodes(Splice(lhs, i, rhs, j)))
  }

  /** Crossover fails exactly when the cut point lies deeper than maxDepth or
      the nodes of lhs that stay already exceed maxLength. */
  lemma OffspringFails(lhs: seq<Node>, rhs: seq<Node>,
                       lhsOrder: seq<nat>, lhsCoins: seq<bool>, rhsOrder: seq<nat>, rhsCoins: seq<bool>,
                       maxDepth: nat, maxLength: nat)
    requires ValidTree(lhs) && ValidTree(rhs)
    requires IsPermutation(lhsOrder, |lhs|) && |lhsCoins| >= |lhsOrder|
    requires IsPermutation(rhsOrder, |rhs|) && |rhsCoins| >= |rhsOrder|
    ensures var i := CutPoint(lhs, lhsOrder, lhsCoins);
      Offspring(lhs, rhs, lhsOrder, lhsCoins, rhsOrder, rhsCoins, maxDepth, maxLength).Err?
      <==> Level(lhs, i) > maxDepth || |lhs| - (lhs[i].length + 1) > maxLength
  {
    SubtreeAt(lhs, CutPoint(lhs, lhsOrder, lhsCoins));
  }

  /** When both budget checks pass but no donor fits, the offspring is lhs
      itself. */
  lemma OffspringNoDonor(lhs: seq<Node>, rhs: seq<Node>,
                         lhsOrder: seq<nat>, lhsCoins: seq<bool>, rhsOrder: seq<nat>, rhsCoins: seq<bool>,
                         maxDepth: nat, maxLength: nat)
    requires ValidTree(lhs) && ValidTree(rhs)
    requires IsPermutation(lhsOrder, |lhs|) && |lhsCoins| >= |lhsOrder|
    requires IsPermutation(rhsOrder, |rhs|) && |rhsCoins| >= |rhsOrder|
    ensures var i := CutPoint(lhs, lhsOrder, lhsCoins);
      lhs[i].length < |lhs| && Level(lhs, i) <= maxDepth && Kept(lhs, i) <= maxLength
      && SelectedBranch(rhs, rhsOrder, rhsCoins, maxDepth - Level(lhs, i), maxLength - Kept(lhs, i)) == None
      ==> Offspring(lhs, rhs, lhsOrder, lhsCoins, rhsOrder, rhsCoins, maxDepth, maxLength) == Ok(lhs)
  {
  }

  /** A successful offspring is lhs itself (`OffspringNoDonor`) or a splice
      within maxLength, so it fits maxLength whenever lhs does. */
  lemma OffspringLength(lhs: seq<Node>, rhs: seq<Node>,
                       lhsOrder: seq<nat>, lhsCoins: seq<bool>, rhsOrder: seq<nat>, rhsCoins: seq<bool>,
                       maxDepth: nat, maxLength: nat)
    requires ValidTree(lhs) && ValidTree(rhs)
    requires IsPermutation(lhsOrder, |lhs|) && |lhsCoins| >= |lhsOrder|
    requires IsPermutation(rhsOrder, |rhs|) && |rhsCoins| >= |rhsOrder|
    ensures var r := Offspring(lhs, rhs, lhsOrder, lhsCoins, rhsOrder, rhsCoins, maxDepth, maxLength);
      r.Ok? ==>
        (r.value == lhs || |r.value| <= maxLength)
        && (|lhs| <= maxLength ==> |r.value| <= maxLength)
  {
    var i := CutPoint(lhs, lhsOrder, lhsCoins);
    SubtreeAt(lhs, i);
    if Level(lhs, i) <= maxDepth && Kept(lhs, i) <= maxLength {
      var b := SelectedBranch(rhs, rhsOrder, rhsCoins, maxDepth - Level(lhs, i), maxLength - Kept(lhs, i));
      if b.Some? {
        var j := b.value;
        SubtreeAt(rhs, j);
        SpliceIsTree(lhs, i, rhs, j);
        var child := Splice(lhs, i, rhs, j);
        assert Offspring(lhs, rhs, lhsOrder, lhsCoins, rhsOrder, rhsCoins, maxDepth, maxLength) == Ok(UpdateNodes(child));
      }
    }
  }

  /** When the budgets hold and the donor search finds j, the offspring is
      the renormalised splice of rhs's subtree at j into lhs's cut point. */
  lemma OffspringSplices(lhs: seq<Node>, rhs: seq<Node>,
                         lhsOrder: seq<nat>, lhsCoins: seq<bool>, rhsOrder: seq<nat>, rhsCoins: seq<bool>,
                         maxDepth: nat, maxLength: nat, j: nat)
    requires ValidTree(lhs) && ValidTree(rhs)
    requires IsPermutation(lhsOrder, |lhs|) && |lhsCoins| >= |lhsOrder|
    requires IsPermutation(rhsOrder, |rhs|) && |rhsCoins| >= |rhsOrder|
    requires var i := CutPoint(lhs, lhsOrder, lhsCoins);
      && lhs[i].length <= i
      && Level(lhs, i) <= maxDepth && Kept(lhs, i) <= maxLength
      && SelectedBranch(rhs, rhsOrder, rhsCoins, maxDepth - Level(lhs, i), maxLength - Kept(lhs, i)) == Some(j)
    ensures var i := CutPoint(lhs, lhsOrder, lhsCoins);
      && i < |lhs| && lhs[i].length <= i && j < |rhs| && rhs[j].length <= j
      && IsTree(Splice(lhs, i, rhs, j))
      && Offspring(lhs, rhs, lhsOrder, lhsCoins, rhsOrder, rhsCoins, maxDepth, maxLength)
           == Ok(UpdateNodes(Splice(lhs, i, rhs, j)))
  {
    var i := CutPoint(lhs, lhsOrder, lhsCoins);
    SubtreeAt(lhs, i);
    SubtreeAt(rhs, j);
    SpliceIsTree(lhs, i, rhs, j);
  }

  /** A tree shaped like the splice, whose donor fits the depth budget left
      below the cut point, is no deeper than lhs or maxDepth, whichever is
      deeper. */
  lemma SpliceWithinDepth(lhs: seq<Node>, i: nat, rhs: seq<Node>, j: nat, child: seq<Node>, maxDepth: nat)
    requires ValidTree(lhs) && i < |lhs| && lhs[i].length <= i
    requires ValidTree(rhs) && j < |rhs| && rhs[j].length <= j
    requires ValidTree(child) && SameShape(Splice(lhs, i, rhs, j), child)
    requires Depth(rhs, j) + Level(lhs, i) <= maxDepth
    ensures |child| > 0 && Depth(child, |child| - 1) <= Max(Depth(lhs, |lhs| - 1), maxDepth)
    ensures Depth(lhs, |lhs| - 1) <= maxDepth ==> Depth(child, |child| - 1) <= maxDepth
  {
    SpliceDepth(lhs, i, rhs, j, child);
    MaxMono(Depth(child, |child| - 1), Depth(lhs, |lhs| - 1), Depth(rhs, j) + Level(lhs, i), maxDepth);
  }

  /** When the donor search finds j, the offspring is a valid tree shaped like
      the splice, and the donor fits the depth budget below the cut point. */
  lemma GraftedShape(lhs: seq<Node>, rhs: seq<Node>,
                     lhsOrder: seq<nat>, lhsCoins: seq<bool>, rhsOrder: seq<nat>, rhsCoins: seq<bool>,
                     maxDepth: nat, maxLength: nat, j: nat)
    requires ValidTree(lhs) && ValidTree(rhs)
    requires IsPermutation(lhsOrder, |lhs|) && |lhsCoins| >= |lhsOrder|
    requires IsPermutation(rhsOrder, |rhs|) && |rhsCoins| >= |rhsOrder|
    requires var i := CutPoint(lhs, lhsOrder, lhsCoins);
      && lhs[i].length <= i
      && Level(lhs, i) <= maxDepth && Kept(lhs, i) <= maxLength
      && SelectedBranch(rhs, rhsOrder, rhsCoins, maxDepth - Level(lhs, i), maxLength - Kept(lhs, i)) == Some(j)
    ensures var i := CutPoint(lhs, lhsOrder, lhsCoins);
      var r := Offspring(lhs, rhs, lhsOrder, lhsCoins, rhsOrder, rhsCoins, maxDepth, maxLength);
      && j < |rhs| && rhs[j].length <= j
      && r.Ok? && ValidTree(r.value) && SameShape(Splice(lhs, i, rhs, j), r.value)
      && Depth(rhs, j) + Level(lhs, i) <= maxDepth
  {
    var i := CutPoint(lhs, lhsOrder, lhsCoins);
    OffspringSplices(lhs, rhs, lhsOrder, lhsCoins, rhsOrder, rhsCoins, maxDepth, maxLength, j);
    UpdateNodesValid(Splice(lhs, i, rhs, j));
    SelectedBranchSound(rhs, rhsOrder, rhsCoins, maxDepth - Level(lhs, i), maxLength - Kept(lhs, i));
  }

  /** When a branch j of rhs is grafted, the offspring is no deeper than lhs
      or maxDepth, whichever is deeper. */
  lemma GraftedDepth(lhs: seq<Node>, rhs: seq<Node>,
                     lhsOrder: seq<nat>, lhsCoins: seq<bool>, rhsOrder: seq<nat>, rhsCoins: seq<bool>,
                     maxDepth: nat, maxLength: nat, j: nat)
    requires ValidTree(lhs) && ValidTree(rhs)
    requires IsPermutation(lhsOrder, |lhs|) && |lhsCoins| >= |lhsOrder|
    requires IsPermutation(rhsOrder, |rhs|) && |rhsCoins| >= |rhsOrder|
    requires var i := CutPoint(lhs, lhsOrder, lhsCoins);
      && lhs[i].length <= i
      && Level(lhs, i) <= maxDepth && Kept(lhs, i) <= maxLength
      && SelectedBranch(rhs, rhsOrder, rhsCoins, maxDepth - Level(lhs, i), maxLength - Kept(lhs, i)) == Some(j)
    ensures var r := Offspring(lhs, rhs, lhsOrder, lhsCoins, rhsOrder, rhsCoins, maxDepth, maxLength);
      && r.Ok? && |lhs| > 0 && |r.value| > 0
      && Depth(r.value, |r.value| - 1) <= Max(Depth(lhs, |lhs| - 1), maxDepth)
      && (Depth(lhs, |lhs| - 1) <= maxDepth ==> Depth(r.value, |r.value| - 1) <= maxDepth)
  {
    var i := CutPoint(lhs, lhsOrder, lhsCoins);
    GraftedShape(lhs, rhs, lhsOrder, lhsCoins, rhsOrder, rhsCoins, maxDepth, maxLength, j);
    var child := Offspring(lhs, rhs, lhsOrder, lhsCoins, rhsOrder, rhsCoins, maxDepth, maxLength).value;
    SpliceWithinDepth(lhs, i, rhs, j, child, maxDepth);
  }

  /** The offspring is no deeper than lhs or maxDepth, whichever is deeper;
      so when lhs respects maxDepth, so does the offspring. */
  lemma OffspringDepth(lhs: seq<Node>, rhs: seq<Node>,
                       lhsOrder: seq<nat>, lhsCoins: seq<bool>, rhsOrder: seq<nat>, rhsCoins: seq<bool>,
                       maxDepth: nat, maxLength: nat)
    requires ValidTree(lhs) && ValidTree(rhs)
    requires IsPermutation(lhsOrder, |lhs|) && |lhsCoins| >= |lhsOrder|
    requires IsPermutation(rhsOrder, |rhs|) && |rhsCoins| >= |rhsOrder|
    ensures var r := Offspring(lhs, rhs, lhsOrder, lhsCoins, rhsOrder, rhsCoins, maxDepth, maxLength);
      r.Ok? ==>
        && |lhs| > 0 && |r.value| > 0
        && Depth(r.value, |r.value| - 1) <= Max(Depth(lhs, |lhs| - 1), maxDepth)
        && (Depth(lhs, |lhs| - 1) <= maxDepth ==> Depth(r.value, |r.value| - 1) <= maxDepth)
  {
    var r := Offspring(lhs, rhs, lhsOrder, lhsCoins, rhsOrder, rhsCoins, maxDepth, maxLength);
    var i := CutPoint(lhs, lhsOrder, lhsCoins);
    SubtreeAt(lhs, i);
    if Level(lhs, i) <= maxDepth && Kept(lhs, i) <= maxLength {
      var b := SelectedBranch(rhs, rhsOrder, rhsCoins, maxDepth - Level(lhs, i), maxLength - Kept(lhs, i));
      if b.Some? {
        GraftedDepth(lhs, rhs, lhsOrder, lhsCoins, rhsOrder, rhsCoins, maxDepth, maxLength, b.value);
      } else {
        assert r == Ok(lhs);
      }
    } else {
      assert r.Err?;
    }
  }

  /** The offspring is always a valid post-order tree with derived lengths. */
  lemma OffspringValid(lhs: seq<Node>, rhs: seq<Node>,
                       lhsOrder: seq<nat>, lhsCoins: seq<bool>, rhsOrder: seq<nat>, rhsCoins: seq<bool>,
                       maxDepth: nat, maxLength: nat)
    requires ValidTree(lhs) && ValidTree(rhs)
    requires IsPermutation(lhsOrder, |lhs|) && |lhsCoins| >= |lhsOrder|
    requires IsPermutation(rhsOrder, |rhs|) && |rhsCoins| >= |rhsOrder|
    ensures var r := Offspring(lhs, rhs, lhsOrder, lhsCoins, rhsOrder, rhsCoins, maxDepth, maxLength);
      r.Ok? ==> ValidTree(r.value)
  {
    var r := Offspring(lhs, rhs, lhsOrder, lhsCoins, rhsOrder, rhsCoins, maxDepth, maxLength);
    var i := CutPoint(lhs, lhsOrder, lhsCoins);
    SubtreeAt(lhs, i);
    if Level(lhs, i) <= maxDepth && Kept(lhs, i) <= maxLength {
      var b := SelectedBranch(rhs, rhsOrder, rhsCoins, maxDepth - Level(lhs, i), maxLength - Kept(lhs, i));
      if b.Some? {
        var j := b.value;
        SubtreeAt(rhs, j);
        SpliceIsTree(lhs, i, rhs, j);
        var child := Splice(lhs, i, rhs, j);
        UpdateNodesValid(child);
        assert r == Ok(UpdateNodes(child));
      } else {
        assert r == Ok(lhs);
      }
    } else {
      assert r.Err?;
    }
  }

  /** Recombines lhs and rhs: cut point, size_t budgets and their checks,
      donor search, then the three-slice splice and renormalisation. */
  method Cross(lhs: seq<Node>, rhs: seq<Node>,
               lhsOrder: seq<nat>, lhsCoins: seq<bool>, rhsOrder: seq<nat>, rhsCoins: seq<bool>,
               maxDepth: nat, maxLength: nat)
    returns (r: Result<seq<Node>, CrossoverError>)
    requires ValidTree(lhs) && ValidTree(rhs)
    requires IsPermutation(lhsOrder, |lhs|) && |lhsCoins| >= |lhsOrder|
    requires IsPermutation(rhsOrder, |rhs|) && |rhsCoins| >= |rhsOrder|
    requires maxDepth < SizeModulus && maxLength < SizeModulus && |lhs| < SizeModulus
    ensures r == Offspring(lhs, rhs, lhsOrder, lhsCoins, rhsOrder, rhsCoins, maxDepth, maxLength)
  {
    var i := CutRandom(lhs, lhsOrder, lhsCoins);
    SubtreeAt(lhs, i);
    var cutSize := lhs[i].length + 1;
    var maxBranchDepth := DepthBudget(maxDepth, Level(lhs, i));
    var maxBranchLength := LengthBudget(maxLength, |lhs|, cutSize);
    BudgetChecks(maxDepth, maxLength, |lhs|, cutSize, Level(lhs, i));
    if !(maxBranchDepth <= maxDepth) || !(maxBranchLength <= maxLength) {
      return Err(BudgetCheckFailed);
    }
    assert maxBranchDepth == maxDepth - Level(lhs, i);
    assert maxBranchLength == maxLength - Kept(lhs, i);
    var result := SelectRandomBranch(rhs, rhsOrder, rhsCoins, maxBranchDepth, maxBranchLength);
    if result.Some? {
      var j := result.value;
      SubtreeAt(rhs, j);
      var nodes: seq<Node> := [];
      nodes := nodes + lhs[..i - lhs[i].length];
      nodes := nodes + rhs[j - rhs[j].length .. j + 1];
      nodes := nodes + lhs[i + 1..];
      assert nodes == Splice(lhs, i, rhs, j);
      OffspringSplices(lhs, rhs, lhsOrder, lhsCoins, rhsOrder, rhsCoins, maxDepth, maxLength, j);
      return Ok(UpdateNodes(nodes));
    }
    return Ok(lhs);
  }
}
