/** Two-dimensional sample grids, stored row by row as numpy stores a 2-D array. */
module Grids {

  type Grid<T> = seq<seq<T>>

  /** A (row, column) position. */
  type Cell = (int, int)

  predicate InGrid<T>(g: Grid<T>, i: int, j: int) {
    0 <= i < |g| && 0 <= j < |g[i]|
  }

  /** The sample at (i, j), or `outside` for a position off the grid. */
  function At<T>(g: Grid<T>, i: int, j: int, outside: T): T {
    if InGrid(g, i, j) then g[i][j] else outside
  }

  predicate SameShape<A, B>(g: Grid<A>, h: Grid<B>) {
    |g| == |h| && forall i :: 0 <= i < |g| ==> |g[i]| == |h[i]|
  }

  /** Every row has the same length, as in every numpy 2-D array. */
  predicate Rect<T>(g: Grid<T>) {
    forall i :: 0 <= i < |g| ==> |g[i]| == |g[0]|
  }

  function Width<T>(g: Grid<T>): nat {
    if |g| == 0 then 0 else |g[0]|
  }

  /** Pointwise inclusion of boolean masks of one shape: `a` is true only where `b` is. */
  predicate Within(a: Grid<bool>, b: Grid<bool>) {
    SameShape(a, b) && forall i, j :: 0 <= i < |a| && 0 <= j < |a[i]| && a[i][j] ==> b[i][j]
  }

  /** `np.where(mask, data, 0)`: the sample where the mask holds, 0 elsewhere. */
  function Where(mask: Grid<bool>, g: Grid<real>): Grid<real> {
    seq(|g|, i requires 0 <= i < |g| =>
      seq(|g[i]|, j requires 0 <= j < |g[i]| => if At(mask, i, j, false) then g[i][j] else 0.0))
  }

  /** `np.abs(data) > threshold`: the strict threshold mask. */
  function Threshold(g: Grid<real>, t: real): Grid<bool> {
    seq(|g|, i requires 0 <= i < |g| =>
      seq(|g[i]|, j requires 0 <= j < |g[i]| => Abs(g[i][j]) > t))
  }

  function Abs(x: real): real {
    if x < 0.0 then -x else x
  }

  /** Masking keeps the sample exactly where the mask holds and writes 0 everywhere else. */
  lemma WhereSelects(mask: Grid<bool>, g: Grid<real>)
    ensures SameShape(Where(mask, g), g)
    ensures forall i, j :: InGrid(g, i, j) && At(mask, i, j, false) ==> Where(mask, g)[i][j] == g[i][j]
    ensures forall i, j :: InGrid(g, i, j) && !At(mask, i, j, false) ==> Where(mask, g)[i][j] == 0.0
  {
  }

  /** The threshold mask has the grid's shape and holds exactly where |x| > t. */
  lemma ThresholdExact(g: Grid<real>, t: real)
    ensures SameShape(Threshold(g, t), g)
    ensures forall i, j :: InGrid(g, i, j) ==> (Threshold(g, t)[i][j] <==> (g[i][j] > t || g[i][j] < -t))
  {
  }
}
