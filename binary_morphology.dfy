/**
 * scipy.ndimage binary erosion, dilation, opening and closing with a k-by-k square
 * of ones, origin 0 and border_value 0 (cells off the grid count as false).
 *
 * The erosion footprint of cell (i, j) covers rows i - k/2 .. i - k/2 + k - 1 (and
 * likewise columns). The dilation uses the reflected footprint, rows
 * i + k/2 - (k - 1) .. i + k/2: for odd k the two coincide, for even k the
 * dilation is shifted by one, as scipy shifts the origin of an even structure.
 */
module BinaryMorphology {
  import opened Grids

  /** Element (a, b) of the square placed for erosion at (i, j) lies on a true cell. */
  predicate Covered(m: Grid<bool>, k: nat, i: int, j: int, a: int, b: int) {
    At(m, i - k / 2 + a, j - k / 2 + b, false)
  }

  /** Element (a, b) of the reflected square placed for dilation at (i, j) lies on a true cell. */
  predicate Reached(m: Grid<bool>, k: nat, i: int, j: int, a: int, b: int) {
    At(m, i + k / 2 - a, j + k / 2 - b, false)
  }

  /** The whole square fits inside the true cells. */
  predicate Fits(m: Grid<bool>, k: nat, i: int, j: int) {
    forall a, b | 0 <= a < k && 0 <= b < k :: Covered(m, k, i, j, a, b)
  }

  /** The reflected square meets some true cell. */
  predicate Hits(m: Grid<bool>, k: nat, i: int, j: int) {
    exists a, b | 0 <= a < k && 0 <= b < k :: Reached(m, k, i, j, a, b)
  }

  /** `binary_erosion(m, structure=np.ones((k, k)))`. */
  function Erode(m: Grid<bool>, k: nat): Grid<bool> {
    seq(|m|, i requires 0 <= i < |m| => seq(|m[i]|, j requires 0 <= j < |m[i]| => Fits(m, k, i, j)))
  }

  /** `binary_dilation(m, structure=np.ones((k, k)))`. */
  function Dilate(m: Grid<bool>, k: nat): Grid<bool> {
    seq(|m|, i requires 0 <= i < |m| => seq(|m[i]|, j requires 0 <= j < |m[i]| => Hits(m, k, i, j)))
  }

  /** `binary_opening`: erosion, then dilation. */
  function Open(m: Grid<bool>, k: nat): Grid<bool> {
    Dilate(Erode(m, k), k)
  }

  /** `binary_closing`: dilation, then erosion. */
  function Close(m: Grid<bool>, k: nat): Grid<bool> {
    Erode(Dilate(m, k), k)
  }

  /** Opening never sets a cell that was clear: the opened mask lies within the mask. */
  lemma OpenShrinks(m: Grid<bool>, k: nat)
    ensures Within(Open(m, k), m)
  {
    var e := Erode(m, k);
    forall i, j | 0 <= i < |m| && 0 <= j < |m[i]| && Open(m, k)[i][j]
      ensures m[i][j]
    {
      assert Hits(e, k, i, j);
      var a, b :| 0 <= a < k && 0 <= b < k && Reached(e, k, i, j, a, b);
      var i', j' := i + k / 2 - a, j + k / 2 - b;
      assert InGrid(e, i', j') && e[i'][j'];
      assert Fits(m, k, i', j');
      assert Covered(m, k, i', j', a, b);
      assert i' - k / 2 + a == i && j' - k / 2 + b == j;
    }
  }

  /** Erosion is monotone: a larger mask erodes to a larger mask. */
  lemma ErodeMonotone(a: Grid<bool>, b: Grid<bool>, k: nat)
    requires Within(a, b)
    ensures Within(Erode(a, k), Erode(b, k))
  {
    forall i, j | 0 <= i < |a| && 0 <= j < |a[i]| && Erode(a, k)[i][j]
      ensures Erode(b, k)[i][j]
    {
      forall x, y | 0 <= x < k && 0 <= y < k ensures Covered(b, k, i, j, x, y) {
        assert Covered(a, k, i, j, x, y);
      }
    }
  }

  /** Dilation is monotone. */
  lemma DilateMonotone(a: Grid<bool>, b: Grid<bool>, k: nat)
    requires Within(a, b)
    ensures Within(Dilate(a, k), Dilate(b, k))
  {
    forall i, j | 0 <= i < |a| && 0 <= j < |a[i]| && Dilate(a, k)[i][j]
      ensures Dilate(b, k)[i][j]
    {
      assert Hits(a, k, i, j);
      var x, y :| 0 <= x < k && 0 <= y < k && Reached(a, k, i, j, x, y);
      assert Reached(b, k, i, j, x, y);
    }
  }

  /** Opening and closing are monotone. */
  lemma OpenCloseMonotone(a: Grid<bool>, b: Grid<bool>, k: nat)
    requires Within(a, b)
    ensures Within(Open(a, k), Open(b, k))
    ensures Within(Close(a, k), Close(b, k))
  {
    ErodeMonotone(a, b, k);
    DilateMonotone(Erode(a, k), Erode(b, k), k);
    DilateMonotone(a, b, k);
    ErodeMonotone(Dilate(a, k), Dilate(b, k), k);
  }

  /**
   * With border_value 0 the closing is not extensive at the border: closing a
   * fully set 3x3 mask with a 3x3 square clears its corner cell.
   */
  lemma ClosingClearsBorder()
    ensures Close([[true, true, true], [true, true, true], [true, true, true]], 3)[0][0] == false
  {
    var m := [[true, true, true], [true, true, true], [true, true, true]];
    assert !Covered(Dilate(m, 3), 3, 0, 0, 0, 0);
  }
}
