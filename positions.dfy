/**
 * Index bookkeeping around the decoder: the position indices `SeqEmbedding.call` builds
 * for a token sequence, and the `b h w c -> b (h w) c` flattening of the feature map.
 */
module Positions {
  import opened Wrappers

  /** A lookup of an index past the end of an embedding table. */
  datatype LookupError = IndexOutOfTable(index: nat)

  /**
   * The position indices `0 .. length-1` of a sequence of `length` tokens, looked up in a
   * position table of `tableSize` rows; a lookup past the table fails at the first index
   * the table does not have.
   */
  function PositionIndices(tableSize: nat, length: nat): (r: Result<seq<nat>, LookupError>)
    ensures r.Ok? <==> length <= tableSize
    ensures r.Ok? ==> |r.value| == length
    ensures r.Ok? ==> forall k :: 0 <= k < length ==> r.value[k] == k && r.value[k] < tableSize
    ensures r.Err? ==> r.error == IndexOutOfTable(tableSize) && tableSize < length
  {
    if length <= tableSize then Ok(seq(length, k requires 0 <= k < length => k))
    else Err(IndexOutOfTable(tableSize))
  }

  /** Every row of the grid has `width` cells. */
  predicate Rectangular<C>(grid: seq<seq<C>>, width: nat) {
    forall i :: 0 <= i < |grid| ==> |grid[i]| == width
  }

  /** The feature map's rows laid end to end: `b h w c -> b (h w) c` for one image. */
  function Flatten<C>(grid: seq<seq<C>>): (flat: seq<C>)
    ensures |grid| > 0 ==> |grid[0]| <= |flat| && flat[..|grid[0]|] == grid[0]
  {
    if grid == [] then [] else grid[0] + Flatten(grid[1..])
  }

  /** Cell `(i, j)` of an `h` by `w` grid lands at row `i*w + j` of the flattened sequence. */
  lemma {:induction false} FlattenCell<C>(grid: seq<seq<C>>, w: nat, i: nat, j: nat)
    requires Rectangular(grid, w) && i < |grid| && j < w
    ensures |Flatten(grid)| == |grid| * w
    ensures i * w + j < |grid| * w && Flatten(grid)[i * w + j] == grid[i][j]
  {
    FlattenLength(grid, w);
    if i == 0 {
      FlattenFront(grid, w, j);
    } else {
      FlattenCell(grid[1..], w, i - 1, j);
      MulStep(i, w);
      MulStep(|grid|, w);
      FlattenBack(grid, w, (i - 1) * w + j);
    }
  }

  /** The first row's cells open the flattened sequence. */
  lemma FlattenFront<C>(grid: seq<seq<C>>, w: nat, j: nat)
    requires |grid| > 0 && |grid[0]| == w && j < w
    ensures j < |Flatten(grid)| && Flatten(grid)[j] == grid[0][j]
  {
  }

  /** After the first row, the flattened sequence continues with the rest of the grid. */
  lemma FlattenBack<C>(grid: seq<seq<C>>, w: nat, k: nat)
    requires |grid| > 0 && |grid[0]| == w && k < |Flatten(grid[1..])|
    ensures w + k < |Flatten(grid)| && Flatten(grid)[w + k] == Flatten(grid[1..])[k]
  {
  }

  lemma {:induction false} FlattenLength<C>(grid: seq<seq<C>>, w: nat)
    requires Rectangular(grid, w)
    ensures |Flatten(grid)| == |grid| * w
  {
    if grid != [] {
      FlattenLength(grid[1..], w);
    }
  }

  /** Conversely, row `k` of the flattened sequence is cell `(k / w, k % w)` of the grid. */
  lemma FlattenRow<C>(grid: seq<seq<C>>, w: nat, k: nat)
    requires Rectangular(grid, w) && k < |grid| * w
    ensures |Flatten(grid)| == |grid| * w
    ensures k / w < |grid| && k % w < w && Flatten(grid)[k] == grid[k / w][k % w]
  {
    RowOfIndex(k, w, |grid|);
    FlattenCell(grid, w, k / w, k % w);
  }

  /** Index `k` below `h * w` splits into a row below `h` and a column below `w`. */
  lemma RowOfIndex(k: nat, w: nat, h: nat)
    requires k < h * w
    ensures w > 0 && k / w < h && k % w < w && k == (k / w) * w + k % w
  {
    var i := k / w;
    assert k == i * w + k % w;
    if h <= i {
      MulMonotone(h, i, w);
    }
  }

  /** Peeling one factor off a product: `n * w == w + (n - 1) * w`. */
  lemma MulStep(n: nat, w: nat)
    requires n > 0
    ensures n * w == w + (n - 1) * w
  {
  }

  lemma MulMonotone(a: nat, b: nat, w: nat)
    requires a <= b
    ensures a * w <= b * w
  {
    assert b * w == a * w + (b - a) * w;
  }
}
