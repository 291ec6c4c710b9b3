/**
 * Connected components of a boolean mask under 4-connectivity (the cross-shaped
 * structure `scipy.ndimage.label` uses when no structure is given), labels in
 * raster-scan order, and the minimum-mapping-unit rule that keeps a mask cell
 * exactly when its component has at least `minPixels` cells.
 */
module Components {
  import opened Grids

  /** The positions of the true cells. */
  function MaskCells(m: Grid<bool>): set<Cell> {
    set i, j | 0 <= i < |m| && 0 <= j < |m[i]| && m[i][j] :: (i, j)
  }

  /** Edge neighbours: the same row and adjacent columns, or the same column and adjacent rows. */
  predicate Adjacent(p: Cell, q: Cell) {
    (p.0 == q.0 && (p.1 == q.1 + 1 || q.1 == p.1 + 1)) ||
    (p.1 == q.1 && (p.0 == q.0 + 1 || q.0 == p.0 + 1))
  }

  /** Adds every true cell adjacent to a cell of `s`. */
  function Grow(m: Grid<bool>, s: set<Cell>): set<Cell> {
    s + set q | q in MaskCells(m) && exists p | p in s :: Adjacent(p, q)
  }

  function Iterate(m: Grid<bool>, s: set<Cell>, n: nat): set<Cell>
    decreases n
  {
    if n == 0 then s else Iterate(m, Grow(m, s), n - 1)
  }

  /** The component of `p`: `Grow` applied as many times as there are true cells. */
  function ComponentOf(m: Grid<bool>, p: Cell): set<Cell> {
    Iterate(m, {p}, |MaskCells(m)|)
  }

  /** No true cell adjacent to a member of `s` is missing from `s`. */
  ghost predicate Closed(m: Grid<bool>, s: set<Cell>) {
    forall p, q :: p in s && q in MaskCells(m) && Adjacent(p, q) ==> q in s
  }

  lemma ProperSubsetSize(s: set<Cell>, t: set<Cell>)
    requires s <= t && s != t
    ensures |s| < |t|
  {
    assert t == s + (t - s);
    assert s * (t - s) == {};
  }

  /** A cell outside a closed set has no true neighbour inside it. */
  lemma OutsideStaysOutside(m: Grid<bool>, c: set<Cell>, r: Cell, r': Cell)
    requires Closed(m, c) && r !in c && r in MaskCells(m) && Adjacent(r, r')
    ensures r' !in c
  {
    assert Adjacent(r', r);
  }

  lemma {:induction false} IterateWithin(m: Grid<bool>, s: set<Cell>, n: nat)
    requires s <= MaskCells(m)
    ensures s <= Iterate(m, s, n) <= MaskCells(m)
    decreases n
  {
    if n > 0 {
      IterateWithin(m, Grow(m, s), n - 1);
    }
  }

  lemma {:induction false} IterateStable(m: Grid<bool>, s: set<Cell>, n: nat)
    requires Grow(m, s) == s
    ensures Iterate(m, s, n) == s
    decreases n
  {
    if n > 0 {
      IterateStable(m, s, n - 1);
    }
  }

  /** Each round of `Grow` either changes nothing or adds at least one cell. */
  lemma {:induction false} IterateGrowsOrSettles(m: Grid<bool>, s: set<Cell>, n: nat)
    requires s <= MaskCells(m)
    ensures Grow(m, Iterate(m, s, n)) == Iterate(m, s, n) || |Iterate(m, s, n)| >= |s| + n
    decreases n
  {
    if n > 0 {
      if Grow(m, s) == s {
        IterateStable(m, s, n);
      } else {
        ProperSubsetSize(s, Grow(m, s));
        IterateGrowsOrSettles(m, Grow(m, s), n - 1);
      }
    }
  }

  /** Iterating from inside a closed set never leaves it. */
  lemma {:induction false} IterateLeast(m: Grid<bool>, s: set<Cell>, c: set<Cell>, n: nat)
    requires Closed(m, c) && s <= c
    ensures Iterate(m, s, n) <= c
    decreases n
  {
    if n > 0 {
      IterateLeast(m, Grow(m, s), c, n - 1);
    }
  }

  /**
   * The component of a true cell contains it, consists of true cells, and is closed
   * under adjacency.
   */
  lemma ComponentIsClosed(m: Grid<bool>, p: Cell)
    requires p in MaskCells(m)
    ensures p in ComponentOf(m, p) && ComponentOf(m, p) <= MaskCells(m)
    ensures Closed(m, ComponentOf(m, p))
  {
    var c := ComponentOf(m, p);
    IterateWithin(m, {p}, |MaskCells(m)|);
    IterateGrowsOrSettles(m, {p}, |MaskCells(m)|);
    assert |c| <= |MaskCells(m)| by {
      assert c <= MaskCells(m);
      if c != MaskCells(m) {
        ProperSubsetSize(c, MaskCells(m));
      }
    }
    assert Grow(m, c) == c;
  }

  /** The component is the least closed set containing the cell. */
  lemma ComponentLeast(m: Grid<bool>, p: Cell, c: set<Cell>)
    requires Closed(m, c) && p in c
    ensures ComponentOf(m, p) <= c
  {
    IterateLeast(m, {p}, c, |MaskCells(m)|);
  }

  /** Two cells of one component have the same component. */
  lemma SameComponent(m: Grid<bool>, p: Cell, q: Cell)
    requires p in MaskCells(m) && q in ComponentOf(m, p)
    ensures ComponentOf(m, q) == ComponentOf(m, p)
  {
    var cp := ComponentOf(m, p);
    ComponentIsClosed(m, p);
    assert q in MaskCells(m);
    var cq := ComponentOf(m, q);
    ComponentIsClosed(m, q);
    ComponentLeast(m, q, cp);
    if p !in cq {
      var d := cp - cq;
      forall r, r' | r in d && r' in MaskCells(m) && Adjacent(r, r')
        ensures r' in d
      {
        assert r' in cp;
        OutsideStaysOutside(m, cq, r, r');
      }
      assert Closed(m, d);
      ComponentLeast(m, p, d);
      assert false;
    }
    ComponentLeast(m, p, cq);
  }

  lemma SameComponentIf(m: Grid<bool>, p: Cell, q: Cell)
    requires p in MaskCells(m)
    ensures q in ComponentOf(m, p) ==> ComponentOf(m, q) == ComponentOf(m, p)
  {
    if q in ComponentOf(m, p) {
      SameComponent(m, p, q);
    }
  }

  // ------------------------------------------------------------------
  // Labelling in raster-scan order

  /** True cells of row i from column j on, left to right. */
  function RowCells(m: Grid<bool>, i: nat, j: nat): seq<Cell>
    requires i < |m| && j <= |m[i]|
    decreases |m[i]| - j
  {
    if j == |m[i]| then [] else (if m[i][j] then [(i, j as int)] else []) + RowCells(m, i, j + 1)
  }

  /** True cells of rows i.. in raster-scan order. */
  function ScanCells(m: Grid<bool>, i: nat): seq<Cell>
    requires i <= |m|
    decreases |m| - i
  {
    if i == |m| then [] else RowCells(m, i, 0) + ScanCells(m, i + 1)
  }

  lemma {:induction false} RowCellsExact(m: Grid<bool>, i: nat, j: nat)
    requires i < |m| && j <= |m[i]|
    ensures forall x :: x in RowCells(m, i, j) <==> x.0 == i && j <= x.1 < |m[i]| && m[i][x.1]
    decreases |m[i]| - j
  {
    if j < |m[i]| {
      RowCellsExact(m, i, j + 1);
    }
  }

  lemma {:induction false} ScanCellsExact(m: Grid<bool>, i: nat)
    requires i <= |m|
    ensures forall x :: x in ScanCells(m, i) <==> x in MaskCells(m) && x.0 >= i
    decreases |m| - i
  {
    if i < |m| {
      RowCellsExact(m, i, 0);
      ScanCellsExact(m, i + 1);
    }
  }

  predicate Labelled(labels: seq<set<Cell>>, p: Cell) {
    exists k | 0 <= k < |labels| :: p in labels[k]
  }

  /** Scans the cells in order, opening a new label at each cell no earlier label holds. */
  function LabelScan(m: Grid<bool>, ps: seq<Cell>): seq<set<Cell>>
    decreases |ps|
  {
    if ps == [] then []
    else
      var labels := LabelScan(m, ps[..|ps| - 1]);
      var p := ps[|ps| - 1];
      if Labelled(labels, p) then labels else labels + [ComponentOf(m, p)]
  }

  /** `ndimage.label(mask)`: the components, numbered by their first cell in raster order. */
  function Labels(m: Grid<bool>): seq<set<Cell>> {
    LabelScan(m, ScanCells(m, 0))
  }

  /** What a labelling of the cells `ps` promises. */
  ghost predicate IsLabelling(m: Grid<bool>, labels: seq<set<Cell>>, ps: seq<Cell>) {
    (forall k, x :: 0 <= k < |labels| && x in labels[k] ==> x in MaskCells(m) && labels[k] == ComponentOf(m, x)) &&
    (forall x :: x in ps ==> Labelled(labels, x)) &&
    (forall k1, k2 :: 0 <= k1 < k2 < |labels| ==> labels[k1] !! labels[k2])
  }

  lemma {:induction false} LabelScanCorrect(m: Grid<bool>, ps: seq<Cell>)
    requires forall x :: x in ps ==> x in MaskCells(m)
    ensures IsLabelling(m, LabelScan(m, ps), ps)
    decreases |ps|
  {
    if ps != [] {
      var front := ps[..|ps| - 1];
      var p := ps[|ps| - 1];
      assert forall x :: x in front ==> x in ps;
      LabelScanCorrect(m, front);
      var before := LabelScan(m, front);
      assert ps == front + [p];
      if !Labelled(before, p) {
        NewLabel(m, before, front, p);
      }
    }
  }

  /** Opening a label for an unlabelled true cell keeps the labelling's promises. */
  lemma NewLabel(m: Grid<bool>, before: seq<set<Cell>>, front: seq<Cell>, p: Cell)
    requires IsLabelling(m, before, front)
    requires p in MaskCells(m) && !Labelled(before, p)
    ensures IsLabelling(m, before + [ComponentOf(m, p)], front + [p])
  {
    var labels := before + [ComponentOf(m, p)];
    ComponentIsClosed(m, p);
    forall k, x | 0 <= k < |labels| && x in labels[k]
      ensures x in MaskCells(m) && labels[k] == ComponentOf(m, x)
    {
      if k == |before| {
        SameComponent(m, p, x);
      }
    }
    forall k1, k2 | 0 <= k1 < k2 < |labels| ensures labels[k1] !! labels[k2] {
      if k2 == |before| {
        forall y | y in labels[k1] ensures y !in labels[k2] {
          SameComponentIf(m, p, y);
          assert p in before[k1] ==> Labelled(before, p);
        }
      }
    }
    forall x | x in front + [p] ensures Labelled(labels, x) {
      if x in front {
        var k :| 0 <= k < |before| && x in before[k];
        assert x in labels[k];
      } else {
        assert x in labels[|before|];
      }
    }
  }

  /** The labels are pairwise disjoint, cover every true cell, and each is the component of each of its cells. */
  lemma LabelsCorrect(m: Grid<bool>)
    ensures IsLabelling(m, Labels(m), ScanCells(m, 0))
    ensures forall x :: x in MaskCells(m) ==> Labelled(Labels(m), x)
  {
    ScanCellsExact(m, 0);
    LabelScanCorrect(m, ScanCells(m, 0));
  }

  // ------------------------------------------------------------------
  // Minimum mapping unit

  /** A cell survives when it is set and its component has at least `minPixels` cells. */
  function Kept(m: Grid<bool>, minPixels: int): Grid<bool> {
    seq(|m|, i requires 0 <= i < |m| =>
      seq(|m[i]|, j requires 0 <= j < |m[i]| => m[i][j] && |ComponentOf(m, (i, j))| >= minPixels))
  }

  lemma MaskCellsExact(m: Grid<bool>, p: Cell)
    ensures p in MaskCells(m) <==> InGrid(m, p.0, p.1) && m[p.0][p.1]
  {
    if InGrid(m, p.0, p.1) && m[p.0][p.1] {
      assert (p.0, p.1) == p;
    }
  }

  /**
   * Components survive whole or vanish whole: every cell of a component of at least
   * `minPixels` cells survives, and no cell of a smaller component does.
   */
  lemma KeptWholeComponents(m: Grid<bool>, minPixels: int, p: Cell)
    requires p in MaskCells(m)
    ensures |ComponentOf(m, p)| >= minPixels ==>
              forall q :: q in ComponentOf(m, p) ==> InGrid(m, q.0, q.1) && Kept(m, minPixels)[q.0][q.1]
    ensures |ComponentOf(m, p)| < minPixels ==>
              forall q :: q in ComponentOf(m, p) ==> InGrid(m, q.0, q.1) && !Kept(m, minPixels)[q.0][q.1]
  {
    ComponentIsClosed(m, p);
    forall q | q in ComponentOf(m, p)
      ensures InGrid(m, q.0, q.1) && m[q.0][q.1] && ComponentOf(m, (q.0, q.1)) == ComponentOf(m, p)
    {
      MaskCellsExact(m, q);
      SameComponent(m, p, q);
    }
  }

  /** Only set cells survive, and the survivors have the mask's shape. */
  lemma KeptWithin(m: Grid<bool>, minPixels: int)
    ensures Within(Kept(m, minPixels), m)
  {
  }

  /** Raising `minPixels` never keeps more cells. */
  lemma KeptAntitone(m: Grid<bool>, lo: int, hi: int)
    requires lo <= hi
    ensures Within(Kept(m, hi), Kept(m, lo))
  {
  }

  /** With `minPixels` at most 1 nothing is removed. */
  lemma KeptAllWhenSmall(m: Grid<bool>, minPixels: int)
    requires minPixels <= 1
    ensures Kept(m, minPixels) == m
  {
    forall i, j | 0 <= i < |m| && 0 <= j < |m[i]| && m[i][j]
      ensures |ComponentOf(m, (i, j))| >= 1
    {
      MaskCellsExact(m, (i, j));
      ComponentIsClosed(m, (i, j));
    }
    forall i | 0 <= i < |m| ensures Kept(m, minPixels)[i] == m[i] {
    }
  }
}
