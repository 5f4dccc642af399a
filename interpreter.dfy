/** Evaluation of a tree over a range of dataset rows
    (include/operon/interpreter/interpreter.hpp).

    The interpreter keeps a scratch matrix with S rows (the batch width of the
    numeric type) and one column per node. For every batch of S rows it fills
    the columns in increasing node index, so that in post-order every child's
    column is ready before its parent's, and copies the root's (last) column
    into the output.

    The numeric type T is abstract: its zero, its multiplication and its
    conversion from a dataset value are parameters. The dispatch-table callable
    of a function symbol is abstract too, modelled row by row: `kernel(nodes,
    i, r, prev)` is the value node i takes at absolute dataset row r when the
    nodes before it took the values `prev` at that row. What is proved is the
    scheduling: which value lands in which output position. */
module Interpreter {
  import opened Wrappers
  import opened Trees

  /** The largest value of the 32-bit signed `int` the batch loop counts in. */
  const IntMax: int := 0x7fff_ffff

  function Min(a: int, b: int): int
  {
    if a <= b then a else b
  }

  /** A half-open range of dataset rows. */
  datatype Range = Range(start: nat, end: nat)
  {
    predicate Valid()
    {
      start <= end
    }

    function Size(): nat
      requires Valid()
    {
      end - start
    }
  }

  /** What an evaluation depends on besides the rows: the tree in post-order,
      the dataset as one column of values per variable hash, the optional
      parameter array, the dispatch callables, and the operations of T. */
  datatype Context<!T> = Context(
    nodes: seq<Node>,
    columns: map<Hash, seq<real>>,
    parameters: Option<seq<T>>,
    kernel: (seq<Node>, nat, nat, seq<T>) -> T,
    mul: (T, T) -> T,
    cast: real -> T,
    zero: T)

  /** Number of leaves among the first i nodes: the parameter index the
      leaf at i (if it is one) consumes. */
  function LeafCount(nodes: seq<Node>, i: nat): (c: nat)
    requires i <= |nodes|
    ensures c <= i
  {
    if i == 0 then 0 else LeafCount(nodes, i - 1) + (if nodes[i - 1].IsLeaf() then 1 else 0)
  }

  /** A leaf consumes an index below that of every later position, so two
      leaves never share a parameter and every leaf's index is below the
      total count. */
  lemma {:induction false} LeafCountGrows(nodes: seq<Node>, i: nat, j: nat)
    requires i < j <= |nodes| && nodes[i].IsLeaf()
    ensures LeafCount(nodes, i) < LeafCount(nodes, j)
    decreases j
  {
    if j > i + 1 {
      LeafCountGrows(nodes, i, j - 1);
    }
  }

  /** Every parameter index below the total leaf count is consumed by some
      leaf: with `LeafCountGrows`, the k-th leaf in node order takes the k-th
      parameter, one each. */
  lemma {:induction false} LeafOfParameter(nodes: seq<Node>, n: nat, k: nat)
    requires n <= |nodes| && k < LeafCount(nodes, n)
    ensures exists i :: 0 <= i < n && nodes[i].IsLeaf() && LeafCount(nodes, i) == k
    decreases n
  {
    if k < LeafCount(nodes, n - 1) {
      LeafOfParameter(nodes, n - 1, k);
      var i :| 0 <= i < n - 1 && nodes[i].IsLeaf() && LeafCount(nodes, i) == k;
      assert 0 <= i < n && nodes[i].IsLeaf() && LeafCount(nodes, i) == k;
    } else {
      assert nodes[n - 1].IsLeaf() && LeafCount(nodes, n - 1) == k;
    }
  }

  /** The parameter array, when given, holds a value for every leaf. */
  predicate ParamsOk<T>(ctx: Context<T>)
  {
    ctx.parameters.Some? ==> LeafCount(ctx.nodes, |ctx.nodes|) <= |ctx.parameters.value|
  }

  /** Every Variable leaf names a dataset column reaching row `end`. */
  ghost predicate Covers<T>(ctx: Context<T>, end: nat)
  {
    forall j :: 0 <= j < |ctx.nodes| && ctx.nodes[j].IsLeaf() && ctx.nodes[j].IsVariable() ==>
      ctx.nodes[j].hash in ctx.columns && end <= |ctx.columns[ctx.nodes[j].hash]|
  }

  /** The coefficient of leaf i: the parameter its leaf index selects, or the
      node's own value without parameters. */
  function Param<T>(ctx: Context<T>, i: nat): T
    requires ParamsOk(ctx) && i < |ctx.nodes| && ctx.nodes[i].IsLeaf()
  {
    match ctx.parameters
    case Some(p) =>
      LeafCountGrows(ctx.nodes, i, |ctx.nodes|);
      p[LeafCount(ctx.nodes, i)]
    case None => ctx.cast(ctx.nodes[i].value)
  }

  /** The value of dataset column `hash` at row r. Under `Covers` the column
      exists and reaches r; elsewhere the value is never used. */
  function ColumnValue<T>(ctx: Context<T>, hash: Hash, r: nat): T
  {
    if hash in ctx.columns && r < |ctx.columns[hash]| then ctx.cast(ctx.columns[hash][r]) else ctx.zero
  }

  /** The value node i takes at absolute row r, given the values `prev` the
      nodes before it took at that row. A leaf that is neither a Constant nor
      a Variable keeps the matrix's initial zero. */
  function NodeValue<T>(ctx: Context<T>, r: nat, i: nat, prev: seq<T>): T
    requires ParamsOk(ctx) && i < |ctx.nodes|
  {
    var n := ctx.nodes[i];
    if n.arity > 0 then ctx.kernel(ctx.nodes, i, r, prev)
    else if n.IsVariable() then ctx.mul(Param(ctx, i), ColumnValue(ctx, n.hash, r))
    else if n.IsConstant() then Param(ctx, i)
    else ctx.zero
  }

  /** The values of nodes 0..k-1 at absolute row r, computed in node order. */
  function RowValues<T>(ctx: Context<T>, r: nat, k: nat): (vs: seq<T>)
    requires ParamsOk(ctx) && k <= |ctx.nodes|
    ensures |vs| == k
  {
    if k == 0 then []
    else
      var prev := RowValues(ctx, r, k - 1);
      prev + [NodeValue(ctx, r, k - 1, prev)]
  }

  /** The value of node j at absolute row r. */
  function Cell<T>(ctx: Context<T>, r: nat, j: nat): T
    requires ParamsOk(ctx) && j < |ctx.nodes|
  {
    RowValues(ctx, r, j + 1)[j]
  }

  /** The tree's value at absolute row r: its root's, the last node's. */
  function RowOutput<T>(ctx: Context<T>, r: nat): T
    requires ParamsOk(ctx) && |ctx.nodes| > 0
  {
    Cell(ctx, r, |ctx.nodes| - 1)
  }

  /** Computing more nodes does not change the earlier ones: the values of
      nodes 0..k-1 are the cells of those nodes. */
  lemma {:induction false} RowValuesCells<T>(ctx: Context<T>, r: nat, k: nat)
    requires ParamsOk(ctx) && k <= |ctx.nodes|
    ensures forall j :: 0 <= j < k ==> RowValues(ctx, r, k)[j] == Cell(ctx, r, j)
    decreases k
  {
    if k > 0 {
      RowValuesCells(ctx, r, k - 1);
    }
  }

  /** Supplying the tree's own leaf values, cast to T, as the parameter array
      gives every node the value it takes without a parameter array. */
  lemma {:induction false} OverrideRows<T>(ctx: Context<T>, p: seq<T>, r: nat, k: nat)
    requires k <= |ctx.nodes| && LeafCount(ctx.nodes, |ctx.nodes|) <= |p|
    requires forall i :: 0 <= i < |ctx.nodes| && ctx.nodes[i].IsLeaf() ==>
      LeafCount(ctx.nodes, i) < |p| && p[LeafCount(ctx.nodes, i)] == ctx.cast(ctx.nodes[i].value)
    ensures RowValues(ctx.(parameters := Some(p)), r, k) == RowValues(ctx.(parameters := None), r, k)
    decreases k
  {
    if k > 0 {
      OverrideRows(ctx, p, r, k - 1);
    }
  }

  /** Parameter override: the tree's output with its own leaf values as
      parameters equals its output without parameters, at every row. */
  lemma ParameterOverride<T>(ctx: Context<T>, p: seq<T>, r: nat)
    requires |ctx.nodes| > 0 && LeafCount(ctx.nodes, |ctx.nodes|) <= |p|
    requires forall i :: 0 <= i < |ctx.nodes| && ctx.nodes[i].IsLeaf() ==>
      LeafCount(ctx.nodes, i) < |p| && p[LeafCount(ctx.nodes, i)] == ctx.cast(ctx.nodes[i].value)
    ensures RowOutput(ctx.(parameters := Some(p)), r) == RowOutput(ctx.(parameters := None), r)
  {
    OverrideRows(ctx, p, r, |ctx.nodes|);
  }

  /** Per-node data the source collects before the batch loop: the leaf
      coefficient, the variable's values over the range, and the hash by
      which a function node's callable is looked up. */
  datatype Meta<T> = Meta(param: T, values: seq<real>, func: Option<Hash>)

  function MetaOf<T>(ctx: Context<T>, range: Range, i: nat): Meta<T>
    requires ParamsOk(ctx) && range.Valid() && Covers(ctx, range.end) && i < |ctx.nodes|
  {
    var n := ctx.nodes[i];
    if n.IsLeaf() then
      Meta(Param(ctx, i), if n.IsVariable() then ctx.columns[n.hash][range.start .. range.end] else [], None)
    else
      Meta(ctx.zero, [], Some(n.hash))
  }

  /** The scratch matrix has S rows and a column per node, and the columns
      the batch loop never writes hold what they must: a Constant leaf's
      column its coefficient, any other non-Variable leaf's column zero. */
  ghost predicate Prepared<T>(ctx: Context<T>, m: array2<T>)
    requires ParamsOk(ctx)
    reads m
  {
    && m.Length1 == |ctx.nodes|
    && forall k, j :: 0 <= k < m.Length0 && 0 <= j < m.Length1 && ctx.nodes[j].IsLeaf() && !ctx.nodes[j].IsVariable() ==>
         m[k, j] == (if ctx.nodes[j].IsConstant() then Param(ctx, j) else ctx.zero)
  }

  /** Row k of the matrix over columns 0..i-1. */
  function RowPrefix<T>(m: array2<T>, k: nat, i: nat): (vs: seq<T>)
    requires k < m.Length0 && i <= m.Length1
    reads m
    ensures |vs| == i && forall j :: 0 <= j < i ==> vs[j] == m[k, j]
  {
    seq(i, j requires 0 <= j < i reads m => m[k, j])
  }

  /** Fills column i with `v` and changes nothing else. */
  method FillColumn<T>(m: array2<T>, i: nat, v: T)
    requires i < m.Length1
    modifies m
    ensures forall k, j :: 0 <= k < m.Length0 && 0 <= j < m.Length1 ==>
      m[k, j] == if j == i then v else old(m[k, j])
  {
    for k := 0 to m.Length0
      invariant forall k', j :: 0 <= k' < m.Length0 && 0 <= j < m.Length1 ==>
        m[k', j] == if j == i && k' < k then v else old(m[k', j])
    {
      m[k, i] := v;
    }
  }

  /** The metadata pass: one entry per node in node order, the leaf counter
      advancing once per leaf, Constant columns filled before any batch. */
  method SetupMeta<T>(ctx: Context<T>, range: Range, m: array2<T>) returns (meta: seq<Meta<T>>)
    requires ParamsOk(ctx) && range.Valid() && Covers(ctx, range.end)
    requires m.Length1 == |ctx.nodes|
    requires forall k, j :: 0 <= k < m.Length0 && 0 <= j < m.Length1 ==> m[k, j] == ctx.zero
    modifies m
    ensures |meta| == |ctx.nodes| && forall i :: 0 <= i < |meta| ==> meta[i] == MetaOf(ctx, range, i)
    ensures Prepared(ctx, m)
  {
    meta := [];
    var idx := 0;
    for i := 0 to |ctx.nodes|
      invariant |meta| == i && idx == LeafCount(ctx.nodes, i)
      invariant forall i' :: 0 <= i' < i ==> meta[i'] == MetaOf(ctx, range, i')
      invariant forall k, j :: 0 <= k < m.Length0 && 0 <= j < m.Length1 ==>
        m[k, j] == if j < i && ctx.nodes[j].IsLeaf() && ctx.nodes[j].IsConstant() then Param(ctx, j) else ctx.zero
    {
      var n := ctx.nodes[i];
      if n.IsLeaf() {
        var v;
        if ctx.parameters.Some? {
          LeafCountGrows(ctx.nodes, i, |ctx.nodes|);
          v := ctx.parameters.value[idx];
        } else {
          v := ctx.cast(n.value);
        }
        idx := idx + 1;
        var values := [];
        if n.IsConstant() {
          FillColumn(m, i, v);
        }
        if n.IsVariable() {
          values := ctx.columns[n.hash][range.start .. range.end];
        }
        meta := meta + [Meta(v, values, None)];
      } else {
        meta := meta + [Meta(ctx.zero, [], Some(n.hash))];
      }
    }
  }

  /** The dispatch-table callable of node i for the batch starting at
      absolute row `base`: writes every row of column i from the earlier
      columns of the same row, and nothing else. */
  method Invoke<T>(ctx: Context<T>, m: array2<T>, i: nat, base: nat)
    requires i < m.Length1
    modifies m
    ensures forall k, j :: 0 <= k < m.Length0 && 0 <= j < m.Length1 ==>
      m[k, j] == if j == i then ctx.kernel(ctx.nodes, i, base + k, old(RowPrefix(m, k, i))) else old(m[k, j])
  {
    for k := 0 to m.Length0
      invariant forall k', j :: 0 <= k' < m.Length0 && 0 <= j < m.Length1 ==>
        m[k', j] == if j == i && k' < k then ctx.kernel(ctx.nodes, i, base + k', old(RowPrefix(m, k', i))) else old(m[k', j])
    {
      assert RowPrefix(m, k, i) == old(RowPrefix(m, k, i));
      m[k, i] := ctx.kernel(ctx.nodes, i, base + k, RowPrefix(m, k, i));
    }
  }

  /** Loads the first `count` rows of column i with `param` times the
      variable's values from relative row `row` on; the other rows keep what
      they held. */
  method LoadColumn<T>(m: array2<T>, i: nat, param: T, values: seq<real>, row: nat, count: nat, mul: (T, T) -> T, cast: real -> T)
    requires i < m.Length1 && count <= m.Length0 && row + count <= |values|
    modifies m
    ensures forall k, j :: 0 <= k < m.Length0 && 0 <= j < m.Length1 ==>
      m[k, j] == if j == i && k < count then mul(param, cast(values[row + k])) else old(m[k, j])
  {
    for k := 0 to count
      invariant forall k', j :: 0 <= k' < m.Length0 && 0 <= j < m.Length1 ==>
        m[k', j] == if j == i && k' < k then mul(param, cast(values[row + k'])) else old(m[k', j])
    {
      m[k, i] := mul(param, cast(values[row + k]));
    }
  }

  /** Copies the first `count` rows of column `col` to result[at .. at+count)
      and changes nothing else. */
  method CopySegment<T>(m: array2<T>, col: nat, result: array<T>, at: nat, count: nat)
    requires col < m.Length1 && count <= m.Length0 && at + count <= result.Length
    modifies result
    ensures forall q :: 0 <= q < result.Length ==>
      result[q] == if at <= q < at + count then m[q - at, col] else old(result[q])
  {
    for k := 0 to count
      invariant forall q :: 0 <= q < result.Length ==>
        result[q] == if at <= q < at + k then m[q - at, col] else old(result[q])
    {
      result[at + k] := m[k, col];
    }
  }

  /** One batch: the nodes in increasing index, each function node through
      its callable and each Variable leaf from its values. Afterwards the
      first `count` rows of every column hold the node values of the rows
      range.start + row .. + count. */
  method EvaluateBatch<T>(ctx: Context<T>, range: Range, meta: seq<Meta<T>>, m: array2<T>, row: nat, count: nat)
    requires ParamsOk(ctx) && range.Valid() && Covers(ctx, range.end)
    requires |meta| == |ctx.nodes| && forall i :: 0 <= i < |meta| ==> meta[i] == MetaOf(ctx, range, i)
    requires Prepared(ctx, m) && count <= m.Length0 && row + count <= range.Size()
    modifies m
    ensures Prepared(ctx, m)
    ensures forall k, j :: 0 <= k < count && 0 <= j < m.Length1 ==> m[k, j] == Cell(ctx, range.start + row + k, j)
  {
    for i := 0 to |ctx.nodes|
      invariant Prepared(ctx, m)
      invariant forall k, j :: 0 <= k < count && 0 <= j < i ==> m[k, j] == Cell(ctx, range.start + row + k, j)
    {
      var s := ctx.nodes[i];
      if s.arity > 0 {
        label before:
        Invoke(ctx, m, i, range.start + row);
        forall k | 0 <= k < count
          ensures m[k, i] == Cell(ctx, range.start + row + k, i)
        {
          var r := range.start + row + k;
          RowValuesCells(ctx, r, i);
          assert old@before(RowPrefix(m, k, i)) == RowValues(ctx, r, i);
        }
      } else if s.IsVariable() {
        LoadColumn(m, i, meta[i].param, meta[i].values, row, count, ctx.mul, ctx.cast);
      }
    }
  }

  /** The span overload: evaluates the rows of `range` into
      result[offset .. offset + range.Size()), batch by batch, and writes
      nothing else. The batch width is S and the row counter is a 32-bit
      `int`. */
  method EvaluateSpan<T>(ctx: Context<T>, S: nat, range: Range, result: array<T>, offset: nat)
    requires |ctx.nodes| > 0 && 0 < S
    requires ParamsOk(ctx) && range.Valid() && Covers(ctx, range.end)
    requires offset + range.Size() <= result.Length
    requires range.Size() + S <= IntMax + 1
    modifies result
    ensures forall q :: offset <= q < offset + range.Size() ==> result[q] == RowOutput(ctx, range.start + (q - offset))
    ensures forall q :: 0 <= q < result.Length && !(offset <= q < offset + range.Size()) ==> result[q] == old(result[q])
  {
    var n := |ctx.nodes|;
    var m := new T[S, n]((_, _) => ctx.zero);
    var meta := SetupMeta(ctx, range, m);
    var numRows := range.Size();
    var row := 0;
    while row < numRows
      invariant row <= numRows + S - 1
      invariant Prepared(ctx, m) && m.Length0 == S
      invariant forall q :: offset <= q < offset + numRows && q < offset + row ==> result[q] == RowOutput(ctx, range.start + (q - offset))
      invariant forall q :: 0 <= q < result.Length && !(offset <= q < offset + numRows) ==> result[q] == old(result[q])
    {
      var remainingRows := Min(S, numRows - row);
      label batch:
      EvaluateBatch(ctx, range, meta, m, row, remainingRows);
      CopySegment(m, n - 1, result, offset + row, remainingRows);
      forall q | offset <= q < offset + numRows && q < offset + row + S
        ensures result[q] == RowOutput(ctx, range.start + (q - offset))
      {
        if q < offset + row {
          assert result[q] == old@batch(result[q]);
        } else {
          assert result[q] == m[q - offset - row, n - 1];
        }
      }
      row := row + S;
    }
  }

  /** The overload returning a fresh vector of range.Size() values. */
  method Evaluate<T>(ctx: Context<T>, S: nat, range: Range) returns (result: array<T>)
    requires |ctx.nodes| > 0 && 0 < S
    requires ParamsOk(ctx) && range.Valid() && Covers(ctx, range.end)
    requires range.Size() + S <= IntMax + 1
    ensures result.Length == range.Size()
    ensures forall rel :: 0 <= rel < range.Size() ==> result[rel] == RowOutput(ctx, range.start + rel)
  {
    result := new T[range.Size()](_ => ctx.zero);
    EvaluateSpan(ctx, S, range, result, 0);
  }

  /** Number of chunks of at most `batchSize` rows a range of `size` rows is
      cut into. */
  function ChunkCount(size: nat, batchSize: nat): nat
    requires batchSize > 0
  {
    size / batchSize + (if size % batchSize != 0 then 1 else 0)
  }

  /** The chunk count is the ceiling of size / batchSize. */
  lemma ChunkCountIsCeiling(size: nat, batchSize: nat)
    requires batchSize > 0
    ensures size <= ChunkCount(size, batchSize) * batchSize
    ensures ChunkCount(size, batchSize) == 0 || (ChunkCount(size, batchSize) - 1) * batchSize < size
  {
    var q, r := size / batchSize, size % batchSize;
    assert size == q * batchSize + r;
    if r != 0 {
      assert ChunkCount(size, batchSize) * batchSize == q * batchSize + batchSize;
    }
  }

  /** Rows of chunk idx: [ChunkStart, ChunkEnd). */
  function ChunkStart(range: Range, batchSize: nat, idx: nat): nat
  {
    range.start + idx * batchSize
  }

  function ChunkEnd(range: Range, batchSize: nat, idx: nat): nat
  {
    Min(ChunkStart(range, batchSize, idx) + batchSize, range.end)
  }

  /** Every chunk is a non-empty part of the range no longer than
      batchSize. */
  lemma ChunkWithin(range: Range, batchSize: nat, idx: nat)
    requires range.Valid() && batchSize > 0 && idx < ChunkCount(range.Size(), batchSize)
    ensures range.start <= ChunkStart(range, batchSize, idx) < ChunkEnd(range, batchSize, idx) <= range.end
    ensures ChunkEnd(range, batchSize, idx) - ChunkStart(range, batchSize, idx) <= batchSize
  {
    ChunkCountIsCeiling(range.Size(), batchSize);
    MulLess(idx, ChunkCount(range.Size(), batchSize) - 1, batchSize);
  }

  lemma MulLess(a: nat, b: nat, c: nat)
    requires a <= b
    ensures a * c <= b * c
  {
  }

  /** Consecutive chunks meet: each ends where the next begins. */
  lemma ChunksAdjacent(range: Range, batchSize: nat, idx: nat)
    requires range.Valid() && batchSize > 0 && idx + 1 < ChunkCount(range.Size(), batchSize)
    ensures ChunkEnd(range, batchSize, idx) == ChunkStart(range, batchSize, idx + 1)
  {
    ChunkWithin(range, batchSize, idx + 1);
  }

  /** The quotient k of d by b is the one k with k * b <= d < k * b + b. */
  lemma QuotientUnique(d: nat, b: nat, k: nat)
    requires b > 0 && k * b <= d < k * b + b
    ensures k == d / b
  {
    var q := d / b;
    assert q * b <= d < q * b + b;
    assert (q + 1) * b == q * b + b;
    assert (k + 1) * b == k * b + b;
    MulCancelLess(k, q + 1, b);
    MulCancelLess(q, k + 1, b);
  }

  lemma MulCancelLess(a: int, c: int, b: int)
    requires b > 0 && a * b < c * b
    ensures a < c
  {
  }

  /** The chunk holding offset d of a range of the given size is one of the
      ChunkCount chunks. */
  lemma QuotientBelowCount(size: nat, b: nat, d: nat)
    requires b > 0 && d < size
    ensures d / b < ChunkCount(size, b)
  {
    var q := d / b;
    assert q * b <= d;
    ChunkCountIsCeiling(size, b);
    if ChunkCount(size, b) <= q {
      MulLess(ChunkCount(size, b), q, b);
    }
  }

  /** Every row of the range lies in exactly one chunk, the one at
      (r - start) / batchSize: the chunks are disjoint and cover the range. */
  lemma ChunkOfRow(range: Range, batchSize: nat, r: nat)
    requires range.Valid() && batchSize > 0 && range.start <= r < range.end
    ensures (r - range.start) / batchSize < ChunkCount(range.Size(), batchSize)
    ensures ChunkStart(range, batchSize, (r - range.start) / batchSize) <= r < ChunkEnd(range, batchSize, (r - range.start) / batchSize)
    ensures forall idx :: ChunkStart(range, batchSize, idx) <= r < ChunkEnd(range, batchSize, idx) ==> idx == (r - range.start) / batchSize
  {
    var d := r - range.start;
    var q := d / batchSize;
    assert q * batchSize <= d < q * batchSize + batchSize;
    QuotientBelowCount(range.Size(), batchSize, d);
    forall idx: nat | ChunkStart(range, batchSize, idx) <= r < ChunkEnd(range, batchSize, idx)
      ensures idx == q
    {
      QuotientUnique(d, batchSize, idx);
    }
  }

  /** Chunk idx of the chunked overload: its rows are evaluated by the span
      overload into the part of the result at idx * batchSize, the rest of
      the result is unchanged. */
  method EvaluateChunk<T>(ctx: Context<T>, S: nat, range: Range, batchSize: nat, idx: nat, result: array<T>)
    requires |ctx.nodes| > 0 && 0 < S && 0 < batchSize
    requires ParamsOk(ctx) && range.Valid() && Covers(ctx, range.end)
    requires Min(batchSize, range.Size()) + S <= IntMax + 1
    requires idx < ChunkCount(range.Size(), batchSize) && result.Length == range.Size()
    modifies result
    ensures forall rel :: 0 <= rel < result.Length ==>
      result[rel] == if idx * batchSize <= rel < idx * batchSize + batchSize then RowOutput(ctx, range.start + rel) else old(result[rel])
  {
    var start := range.start + idx * batchSize;
    var end := Min(start + batchSize, range.end);
    ChunkWithin(range, batchSize, idx);
    EvaluateSpan(ctx, S, Range(start, end), result, idx * batchSize);
  }

  /** The chunked overload: the range is cut into ChunkCount chunks, each
      evaluated into the part of the result at the same offset. The result
      equals the unchunked one, row by row. */
  method EvaluateChunked<T>(ctx: Context<T>, S: nat, range: Range, batchSize: nat) returns (result: array<T>)
    requires |ctx.nodes| > 0 && 0 < S && 0 < batchSize
    requires ParamsOk(ctx) && range.Valid() && Covers(ctx, range.end)
    requires Min(batchSize, range.Size()) + S <= IntMax + 1
    ensures result.Length == range.Size()
    ensures forall rel :: 0 <= rel < range.Size() ==> result[rel] == RowOutput(ctx, range.start + rel)
  {
    var size := range.Size();
    result := new T[size](_ => ctx.zero);
    var n := size / batchSize;
    var m := size % batchSize;
    var count := n + (if m != 0 then 1 else 0);
    for idx := 0 to count
      invariant forall rel :: 0 <= rel < size && rel < idx * batchSize ==> result[rel] == RowOutput(ctx, range.start + rel)
    {
      EvaluateChunk(ctx, S, range, batchSize, idx, result);
      assert (idx + 1) * batchSize == idx * batchSize + batchSize;
    }
    ChunkCountIsCeiling(size, batchSize);
  }
}
