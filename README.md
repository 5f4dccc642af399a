# Operon core: tree recombination, tree growth, batched evaluation, grammar

This project models four pieces of Operon, a genetic-programming library for
symbolic regression, and proves properties of them in Dafny.

Operon stores an expression tree as a flat sequence of nodes in post-order.
The children of a node sit in the block just before it, and the root is the
last node. A node's `Length` counts its descendants.

- **Subtree crossover** (`src/operators/crossover.cpp`). It picks a cut
  point in the first parent and a donor branch in the second. The donor
  must fit the depth and length budget that is left. The result is the
  three-slice splice of the two. Shuffles and coin flips are inputs: a
  permutation of the indices and a sequence of booleans.
- **Grow tree creation** (`src/operators/initialization.cpp`).
  - It forms the running sums ("partials") of the enabled symbols'
    frequencies.
  - It samples symbols in proportion to their frequencies.
  - It grows branches recursively in pre-order under a length and depth
    budget.
  - It gives Variable leaves a dataset hash and every leaf a value.
  - It reverses the nodes into post-order and rejects trees that are too
    long.

  Random draws are an input stream of unit reals.
- **The interpreter** (`include/operon/interpreter/interpreter.hpp`).
  - It collects per-node metadata, with one parameter per leaf in node order.
  - It fills a scratch matrix batch by batch, one column per node, in
    increasing node index.
  - It copies the root column into the output.
  - The chunked overload cuts the row range into chunks of at most
    `batchSize` rows.

  The numeric type and the dispatch-table callables are abstract. A callable
  is modelled row by row.
- **The grammar** (`src/core/grammar.hpp`). It holds a bitmask of enabled
  symbol types and a frequency table. The table's unspecified iteration
  order is made explicit as a sequence.

Files:
- `wrappers.dfy`: Option and Result.
- `symbols.dfy`: the node type bitmask.
- `native.dfy`: `size_t` arithmetic.
- `trees.dfy`: the post-order layout, plus the `UpdateNodes`, `Level` and
  `Depth` that the modelled code relies on. `Depth` and `Level` are read off
  the evaluation of the post-order sequence as a stack machine. Each stack
  value carries the height of the subtree that produced it. `Depth(s, i)` is
  the height left by node i's subtree slice. `Level(s, i)` counts the later
  nodes that consume node i's value, directly or through their results.
- One file for each piece above.

## Model

| member | source | states |
|---|---|---|
| Native.SizeT | src/operators/crossover.cpp:52-53 | a `size_t` result: below 2^64, unchanged when representable, a negative difference wraps by adding 2^64 |
| Trees.UpdateNodes | src/operators/crossover.cpp:68 | keeps the node count and every node except its `length` field |
| Trees.UpdateNodesValid | src/operators/crossover.cpp:68 | renormalising a post-order tree yields lengths that span each node's subtree exactly |
| Crossover.FirstBranchHit | src/operators/crossover.cpp:15-26 | the scan position reached is the first from `p` whose index fits the budget and matches its coin; none before it does |
| Crossover.SelectedBranch | src/operators/crossover.cpp:7-28 | a returned index is in bounds and its subtree has at most `maxBranchLength` nodes |
| Crossover.SelectedBranchSound | src/operators/crossover.cpp:11-27 | a returned index fits both budgets, matches its coin, and is the first such in shuffle order; `None` means no index in the scan qualifies |
| Crossover.SelectRandomBranch | src/operators/crossover.cpp:7-28 | the loop with early return computes exactly `SelectedBranch` |
| Crossover.FirstCutHit | src/operators/crossover.cpp:38-44 | the position reached is the first from `p` whose node kind matches its coin |
| Crossover.CutPoint | src/operators/crossover.cpp:30-46 | the cut point of a non-empty tree is in bounds |
| Crossover.CutPointSound | src/operators/crossover.cpp:38-45 | the cut point is the first coin-matching index in shuffle order, or the last shuffled index when none matches |
| Crossover.CutRandom | src/operators/crossover.cpp:30-46 | the loop computes exactly `CutPoint` |
| Crossover.BudgetChecks | src/operators/crossover.cpp:52-56 | the wrapped budgets stay within `maxDepth` and `maxLength` exactly when the cut level and the kept length do; in that case they equal the plain differences |
| Crossover.SpliceIsTree | src/operators/crossover.cpp:64-66 | the three-slice splice of two valid trees is a tree whose length is that of lhs, minus `lhs[i].Length + 1`, plus `rhs[j].Length + 1` |
| Crossover.SpliceSlices | src/operators/crossover.cpp:64-66 | replacing a subtree slice of a tree by any tree yields a tree |
| Crossover.OffspringFails | src/operators/crossover.cpp:52-56 | crossover aborts exactly when the cut point's level exceeds `maxDepth` or the kept part of lhs exceeds `maxLength`; that these are the failing `Expects` of the source comes from `BudgetChecks` together with `Cross` |
| Crossover.OffspringLength | src/operators/crossover.cpp:53-71 | a successful offspring is lhs itself or fits `maxLength`, and always fits when lhs does |
| Crossover.OffspringNoDonor | src/operators/crossover.cpp:58-71 | when both budget checks pass but the donor search finds nothing, the offspring is lhs itself |
| Crossover.OffspringSplices | src/operators/crossover.cpp:52-68 | when both budget checks pass and the donor search finds `j`, the offspring is the renormalised splice of rhs's subtree at `j` into lhs's cut point; the budget checks are the source's `Expects` by `BudgetChecks` together with `Cross` |
| Crossover.OffspringValid | src/operators/crossover.cpp:64-68 | every successful offspring is a valid post-order tree |
| Trees.TreeRun | src/operators/crossover.cpp:64-66 | a tree run on any stack leaves that stack untouched and pushes exactly its own height |
| Trees.RunOnTop | src/operators/crossover.cpp:64-66 | a sequence that never pops an empty stack runs on top of any stack without touching it, and leaves `Sum` values |
| Trees.DepthIsHeight | src/operators/crossover.cpp:17 | the depth of node i is the height of its subtree slice `i - Length .. i` |
| Trees.RootDepthIsHeight | src/operators/crossover.cpp:17 | the depth of a valid tree's root is the height of the whole tree |
| Trees.LevelIsFollow | src/operators/crossover.cpp:52 | the level of node i counts the nodes after i that consume the value i leaves on the stack |
| Trees.Graft | src/operators/crossover.cpp:52 | the level of a subtree's root depends only on the stack below the subtree and the nodes after it |
| Trees.FollowRun | src/operators/crossover.cpp:64-66 | two stacks that differ only in their top value stay equal through any later nodes except at one followed position; there the second stack's value is at most the first's or the new top plus the nodes that consumed it |
| Trees.SpliceHeight | src/operators/crossover.cpp:64-66 | replacing a subtree of a tree by another tree gives a height at most the old height or the new subtree's height plus the cut point's level |
| Trees.ShapeRun | src/operators/crossover.cpp:68 | two sequences with the same arities node by node run to the same stack of heights, so renormalising lengths keeps every height |
| Crossover.SpliceHeightAt | src/operators/crossover.cpp:52-66 | the three-slice splice is no higher than lhs, or than the donor's depth plus the cut point's level |
| Crossover.SpliceDepth | src/operators/crossover.cpp:52-68 | the renormalised splice's root depth is at most lhs's root depth or the donor's depth plus the cut point's level |
| Crossover.SpliceWithinDepth | src/operators/crossover.cpp:52-68 | when the donor fits `maxDepth - Level(i)`, the offspring is no deeper than lhs or `maxDepth`, and within `maxDepth` when lhs is |
| Crossover.GraftedShape | src/operators/crossover.cpp:17-68 | when a donor `j` is found, the offspring is a valid tree shaped like the splice, and the donor's depth plus the cut level fits `maxDepth` |
| Crossover.GraftedDepth | src/operators/crossover.cpp:52-68 | when a donor `j` is found, the offspring is no deeper than lhs or `maxDepth`, and within `maxDepth` when lhs is |
| Crossover.OffspringDepth | src/operators/crossover.cpp:48-72 | every successful offspring's root depth is at most that of lhs or `maxDepth`, so an lhs within `maxDepth` gives an offspring within `maxDepth` |
| Crossover.Cross | src/operators/crossover.cpp:48-72 | the operator computes exactly `Offspring`, with its failure and no-donor cases |
| Initialization.Partials | src/operators/initialization.cpp:56-57 | one partial per allowed entry, with the entry's symbol |
| Initialization.PartialsSum | src/operators/initialization.cpp:57 | partial k carries the total weight of entries 0..k |
| Initialization.PartialsAtLeastEpsilon | src/operators/initialization.cpp:57 | weights of at least epsilon give running sums of at least epsilon |
| Initialization.ThresholdBelowTotal | src/operators/initialization.cpp:12-13 | the draw on `[0, last - epsilon)` stays below the last cumulative weight |
| Initialization.FirstAbove | src/operators/initialization.cpp:14 | the search finds the first partial from `j` whose cumulative weight exceeds `r` |
| Initialization.SampledIndex | src/operators/initialization.cpp:10-17 | the sampled partial always exists; it is the first whose weight exceeds the draw, and all earlier ones do not |
| Initialization.CandidatesExact | src/operators/initialization.cpp:32-37 | a partial is a candidate exactly when its symbol is at most Square and its minimum length (2 before Log, else 1) is below the budget |
| Initialization.CandidatesSampleable | src/operators/initialization.cpp:38-43 | a non-empty candidate list can be sampled: its last weight is at least epsilon |
| Initialization.ChildFailureStays | src/operators/initialization.cpp:45-49 | once a child's growth throws, the whole branch fails with that error |
| Initialization.ReversedConcat | src/operators/initialization.cpp:83 | reversing a concatenation reverses the order of the parts |
| Initialization.GrowRules | src/operators/initialization.cpp:21-43 | under the leaf rule, growth emits one leaf, Constant iff the draw is below `pc`, else Variable; otherwise it fails when no candidate exists, and on success the root is a candidate |
| Initialization.GrowBranchShape | src/operators/initialization.cpp:43-48 | a grown branch has between 1 and `max(L, 1)` nodes, nests at most `D` deep, and read backwards is one post-order tree |
| Initialization.GrowChildrenShape | src/operators/initialization.cpp:45-49 | k children with budget `(L-1)/arity` hold at most `k * max(budget, 1)` nodes, nest one level less, and read backwards form k trees |
| Initialization.GrowBranchHeight | src/operators/initialization.cpp:19-51 | a grown branch read backwards is no higher on the evaluation stack than its recursion height, so with `GrowBranchShape` its height is within the depth budget |
| Initialization.GrowChildrenHeights | src/operators/initialization.cpp:45-49 | the children grown so far, read backwards, leave stack heights no higher than their recursion height |
| Initialization.SharedBudget | src/operators/initialization.cpp:47 | sharing `n` nodes among `a <= n` children leaves each at least one, and at most `n` in all |
| Initialization.Grow | src/operators/initialization.cpp:19-51 | the recursive push-back growth appends exactly the `GrowBranch` nodes, or fails with its error |
| Initialization.GrowChildrenOf | src/operators/initialization.cpp:45-49 | the loop over a node's children appends exactly the `GrowChildren` nodes, or fails with the first failing child's error |
| Initialization.DrawIndex | src/operators/initialization.cpp:70-76 | a uniform index draw lies in `0..n-1` |
| Initialization.Finalized | src/operators/initialization.cpp:72-82 | finalisation keeps the node count |
| Initialization.FinalizedEffect | src/operators/initialization.cpp:72-82 | only hash and value change; a Variable's hash is one of `variables`; a leaf's value is a normal draw; other hashes and values stay |
| Initialization.FinalizedTree | src/operators/initialization.cpp:72-83 | finalisation keeps the reversed sequence a tree |
| Initialization.GrowRootTree | src/operators/initialization.cpp:59-69 | the sampled root is first in pre-order, and the growth read backwards is one tree |
| Initialization.GrowRootBounds | src/operators/initialization.cpp:64-69 | with `maxLength` above the root's arity the growth fits `maxLength`; with `maxDepth >= 1` it nests at most `maxDepth` deep |
| Initialization.GrowRootHeight | src/operators/initialization.cpp:59-69 | the root growth read backwards is no higher on the evaluation stack than its recursion height |
| Trees.ShapeDepth | src/operators/initialization.cpp:83-85 | a valid tree with the same arities as a tree s has s's height as its root depth |
| Initialization.FinishedDepth | src/operators/initialization.cpp:72-85 | finalising, reversing and renormalising keep the arities, so the finished tree's root depth is the height of the growth read backwards |
| Initialization.CreatedTreeDepth | src/operators/initialization.cpp:53-91 | with `1 <= maxDepth < 2^64` a created tree's root depth is at most `maxDepth` |
| Initialization.FinishedShape | src/operators/initialization.cpp:72-90 | a finished tree is valid, non-empty and within `maxLength`; its last node has the first grown node's symbol; every Variable carries a hash of `variables` |
| Initialization.CreatedTreeShape | src/operators/initialization.cpp:83-90 | a created tree is valid, non-empty and within `maxLength`; its root is the sampled symbol; every Variable carries a hash of `variables` |
| Initialization.CreatedTreeFits | src/operators/initialization.cpp:86-89 | when `maxLength` exceeds the root's arity, the length check never fires |
| Initialization.CreatorSetupOk | src/operators/initialization.cpp:55-57 | the setup the creator reads from a ready grammar is non-empty and samplable |
| Initialization.Reverse | src/operators/initialization.cpp:83 | the in-place reversal leaves `Reversed` of the old contents |
| Initialization.FinalizeNodes | src/operators/initialization.cpp:72-82 | the in-place loop leaves exactly the `Finalized` nodes and draw cursor |
| Initialization.GrowRootChildren | src/operators/initialization.cpp:64-69 | the creator's loop over the root's children, with `size_t` budgets, appends exactly the `GrowChildren` nodes after the root, or fails with the first failing child's error |
| Initialization.Create | src/operators/initialization.cpp:58-90 | root sampling, the children loop and finishing compute exactly `CreatedTree` |
| Initialization.Finish | src/operators/initialization.cpp:72-90 | finalising, reversing, renormalising and the length check compute exactly `Finished` |
| Initialization.GrowTree | src/operators/initialization.cpp:53-91 | the creator on a grammar computes `CreatedTree` of the setup read from that grammar |
| Grammars.EnableEffect | src/core/grammar.hpp:16-17 | setting the bits of a non-zero `t` makes `t` enabled; a type whose bits are disjoint from `t` keeps its state |
| Grammars.DisableEffect | src/core/grammar.hpp:16-17 | clearing the bits of `t` makes `t` disabled; a type whose bits are disjoint from `t` keeps its state |
| Grammars.MasksNested | src/core/grammar.hpp:21-23 | each preset equals the union of node types that defines it; Arithmetic is within TypeCoherent, which is within Full; Arithmetic enables Constant and Variable; Full excludes Square |
| Grammars.EnabledEntries | src/core/grammar.hpp:25-30 | the filter never yields more entries than the table holds |
| Grammars.EnabledEntriesExact | src/core/grammar.hpp:25-30 | an entry is allowed exactly when its symbol is in the table and enabled, with its own frequency |
| Grammars.EnabledPositions | src/core/grammar.hpp:28 | the enabled positions of the iteration order strictly increase, and a position is listed exactly when its symbol is enabled |
| Grammars.EnabledEntriesOrdered | src/core/grammar.hpp:25-30 | the allowed entries match the enabled positions one for one: entry k is the symbol at the k-th enabled position, with its frequency, so the entries keep the table's iteration order |
| Grammars.Grammar.constructor | src/core/grammar.hpp:33-48 | the default grammar is Arithmetic, with the 13 listed symbols at frequency 1 |
| Grammars.Grammar.IsEnabled | src/core/grammar.hpp:16 | holds exactly when `config & t` is non-zero, so never for a type with no bits; a symbol of the table is enabled exactly when the allowed-symbols filter lists it with its frequency |
| Grammars.Grammar.GetFrequency | src/core/grammar.hpp:19 | the stored frequency of `t`, which is the one the allowed-symbols filter reports when `t` is enabled; `t` must be in the table, since `find(type)->second` on a missing key is undefined |
| Grammars.Grammar.SetEnabled | src/core/grammar.hpp:17 | enabling ORs the bits of `t` into the configuration and disabling clears them; the table and its order stay (`EnableEffect` and `DisableEffect` give the effect on each type) |
| Grammars.Grammar.SetFrequency | src/core/grammar.hpp:18-19 | the table becomes `old[t := f]`, so `GetFrequency(t)` reads back `f` and other entries stay; a new key joins the iteration order; config stays |
| Grammars.Grammar.AllowedSymbols | src/core/grammar.hpp:25-30 | the copy loop yields exactly the enabled `(type, frequency)` entries in iteration order |
| Interpreter.LeafCount | include/operon/interpreter/interpreter.hpp:79-84 | the leaf counter never exceeds the node index |
| Interpreter.LeafCountGrows | include/operon/interpreter/interpreter.hpp:79-84 | a leaf's parameter index is below that of every later position: no two leaves share a parameter, and each index is below the leaf total |
| Interpreter.LeafOfParameter | include/operon/interpreter/interpreter.hpp:79-84 | every parameter index below the leaf total is taken by some leaf: one parameter per leaf, in node order |
| Interpreter.RowValues | include/operon/interpreter/interpreter.hpp:100-109 | one value per node evaluated so far at a row |
| Interpreter.OverrideRows | include/operon/interpreter/interpreter.hpp:79-88 | a parameter array holding each leaf's own value, cast to T, at that leaf's index gives every node the value it takes without parameters |
| Interpreter.ParameterOverride | include/operon/interpreter/interpreter.hpp:79-88 | parameter override: with the tree's own leaf values as parameters, the output at every row equals the output without parameters |
| Interpreter.RowValuesCells | include/operon/interpreter/interpreter.hpp:100-109 | evaluating further nodes never changes earlier ones: a node sees exactly the final values of the nodes before it |
| Interpreter.FillColumn | include/operon/interpreter/interpreter.hpp:86 | `setConstant` fills column i and nothing else |
| Interpreter.SetupMeta | include/operon/interpreter/interpreter.hpp:77-92 | one metadata entry per node; the k-th leaf takes `parameters[k]`, or its own value without parameters; Variables get the range's values; Constant columns are filled before any batch |
| Interpreter.Invoke | include/operon/interpreter/interpreter.hpp:103-104 | the callable of node i writes column i from the earlier columns of each row, and nothing else |
| Interpreter.LoadColumn | include/operon/interpreter/interpreter.hpp:105-107 | a Variable's column rows 0..remaining-1 become `param * value[row + k]`; nothing else changes |
| Interpreter.CopySegment | include/operon/interpreter/interpreter.hpp:111 | the root column's first rows land at `result[row ..]`; nothing else in the result changes |
| Interpreter.EvaluateBatch | include/operon/interpreter/interpreter.hpp:100-109 | after a batch, every column holds its node's value at each of the batch's rows; pre-filled columns stay intact |
| Interpreter.EvaluateSpan | include/operon/interpreter/interpreter.hpp:59-113 | every output row holds the root's value at its dataset row; nothing outside the span is written |
| Interpreter.Evaluate | include/operon/interpreter/interpreter.hpp:32-37 | the result has `range.Size()` entries, each the root's value at its row |
| Interpreter.ChunkCountIsCeiling | include/operon/interpreter/interpreter.hpp:45-47 | `n + (m != 0)` is the ceiling of `Size / batchSize` |
| Interpreter.ChunkWithin | include/operon/interpreter/interpreter.hpp:50-52 | each chunk is a non-empty part of the range, at most `batchSize` long |
| Interpreter.ChunksAdjacent | include/operon/interpreter/interpreter.hpp:50-51 | each chunk ends where the next begins |
| Interpreter.ChunkOfRow | include/operon/interpreter/interpreter.hpp:50-51 | every row of the range lies in exactly one chunk: the chunks are disjoint and cover the range |
| Interpreter.EvaluateChunk | include/operon/interpreter/interpreter.hpp:49-54 | chunk idx fills result positions `idx*batchSize ..` with the root's values at those rows; the rest is unchanged; the row counter bound applies to one chunk, not the whole range |
| Interpreter.EvaluateChunked | include/operon/interpreter/interpreter.hpp:40-56 | the result has `range.Size()` entries, row for row equal to the unchunked evaluation |

## Left out

- `tree.hpp`, `node.hpp`, `dataset.hpp` and `dispatch_table.hpp` are not part of this model. Several things are therefore modelled as assumptions:
  - the node type bit values (Add..Div at bits 0..3, then Log, Exp, Sin, Cos, Tan, Sqrt, Cbrt, Square, Constant and Variable);
  - the arity of each node type, an input function `arity` checked by `ArityFits`;
  - the Node constructor (value 1, the type as hash);
  - `UpdateNodes`, and `Level` and `Depth` as edge counts read off the evaluation stack;
  - the dataset, as a map from hash to column.
- Random engines and distributions are inputs: permutations and coin sequences for shuffles and Bernoulli draws, a stream of unit draws, a `normal` function, and a uniform index draw taken as `floor(u * n)`. Distributions themselves are not modelled.
- Floating point: weights, thresholds and values are exact reals. Machine epsilon 2^-52 is kept where the sampler subtracts it.
- The grammar's `MinimumFunctionArity` is not in `grammar.hpp` as modelled, so it is the parameter `minArity`.
- Exception messages (`fmt::format`) are dropped. A throw or a failed `Expects` is an `Err` result.
- CalculatedHashValue is set together with HashValue in the source. The model has one hash field, and hash recomputation by `UpdateNodes` is not modelled.
- The numeric type `T`, Eigen, SIMD batch width and the dispatch callables are abstract. A callable is modelled as writing column i row by row from the earlier columns of the same row. A callable that reads other columns, or mixes rows, is outside the model.
- The static `Evaluate` wrappers that build a temporary Interpreter (interpreter.hpp:115-125) and the dispatch-table getters are thin forwarding code and are not modelled.
- The grammar's hash map stays a Dafny map, with an explicit iteration order. Bucket layout and rehashing are not modelled. The default grammar takes the listing order of its symbols as that iteration order; `std::unordered_map` promises no particular order, and the other grammar lemmas hold for any order.
- GrowTree: requires every enabled frequency to be at least 2^-52. The source only needs each sampled list's last partial to be, so this is stronger than what it strictly demands.
- GrowTree: requires at least one variable. The source builds the index distribution over `[0, variables.size() - 1]` (initialization.cpp:70) even for an empty list, and that is harmless. It indexes `variables` (:76) only when it finalises a Variable node. The model demands a non-empty list regardless of whether a Variable node is grown.
- Create: requires at least one variable, as GrowTree does.
- CreatedTree: requires at least one variable, as GrowTree does.
- CreatedTreeShape: requires at least one variable, as GrowTree does.
- CreatedTreeFits: requires at least one variable, as GrowTree does.
- Finish: requires at least one variable, even when the nodes hold no Variable, as GrowTree does.
- Finished: requires at least one variable, as Finish does.
- FinishedShape: requires at least one variable, as Finish does.
- FinishedDepth: requires at least one variable, as Finish does.
- CreatedTreeDepth: requires at least one variable, as GrowTree does.
- CreatedTreeDepth: bounds the depth only for `1 <= maxDepth < 2^64`. With `maxDepth == 0`, the children's depth budget `maxDepth - 1` (initialization.cpp:67) wraps to 2^64-1. The leaf rule at :21 then never fires on depth, and only the length check at :86-89 limits the tree. A root with arity above 0 therefore yields a tree of depth at least 1, deeper than `maxDepth`.
- FinalizeNodes: requires at least one variable, even when the nodes hold no Variable, as GrowTree does.
- Finalized: requires at least one variable, as FinalizeNodes does.
- FinalizedEffect: requires at least one variable, as FinalizeNodes does.
- FinalizedTree: requires at least one variable, as FinalizeNodes does.
- EvaluateSpan: requires `range.Size() + S <= 2^31`, so that the source's `int` row counter and `row += S` do not overflow. Behaviour beyond that is not modelled. The chunked overload asks this only of one chunk, `min(batchSize, range.Size()) + S <= 2^31`.
- EvaluateSpan: requires every Variable leaf's column to reach `range.End()`, and a parameter array long enough for every leaf. The source reads out of bounds otherwise.
- The offspring generator in `basic.hpp` is orchestration over components not modelled here and is left out.
