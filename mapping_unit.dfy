/**
 * The `minimum_mapping_unit` filter: threshold, label the 4-connected components,
 * clear every component smaller than `min_pixels` from the mask in place, then keep
 * the data where the mask survives.
 */
module MappingUnit {
  import opened Grids
  import opened Components

  /** The contents of a 2-D array as a grid. */
  function Snapshot(a: array2<bool>): Grid<bool>
    reads a
  {
    seq(a.Length0, i requires 0 <= i < a.Length0 reads a =>
      seq(a.Length1, j requires 0 <= j < a.Length1 reads a => a[i, j]))
  }

  /** `p` lies in one of the first `k` labels that has fewer than `minPixels` cells. */
  predicate RemovedBy(labels: seq<set<Cell>>, minPixels: int, k: nat, p: Cell)
    requires k <= |labels|
  {
    k > 0 && (RemovedBy(labels, minPixels, k - 1, p) || (|labels[k - 1]| < minPixels && p in labels[k - 1]))
  }

  lemma {:induction false} RemovedByExists(labels: seq<set<Cell>>, minPixels: int, k: nat, p: Cell)
    requires k <= |labels|
    ensures RemovedBy(labels, minPixels, k, p) <==> exists t :: 0 <= t < k && |labels[t]| < minPixels && p in labels[t]
  {
    if k > 0 {
      RemovedByExists(labels, minPixels, k - 1, p);
    }
  }

  /**
   * Running the removal over all labels clears exactly the true cells whose component
   * has fewer than `minPixels` cells.
   */
  lemma RemovedByAllLabels(m: Grid<bool>, minPixels: int, p: Cell)
    ensures RemovedBy(Labels(m), minPixels, |Labels(m)|, p) <==>
            p in MaskCells(m) && |ComponentOf(m, p)| < minPixels
  {
    var labels := Labels(m);
    LabelsCorrect(m);
    RemovedByExists(labels, minPixels, |labels|, p);
    if p in MaskCells(m) {
      var t :| 0 <= t < |labels| && p in labels[t];
      assert labels[t] == ComponentOf(m, p);
    }
  }

  /** `binary_mask[component_mask] = False`. */
  method ClearCells(mask: array2<bool>, cells: set<Cell>)
    modifies mask
    ensures forall a, b :: 0 <= a < mask.Length0 && 0 <= b < mask.Length1 ==>
              mask[a, b] == (old(mask[a, b]) && (a, b) !in cells)
  {
    for i := 0 to mask.Length0
      invariant forall a, b :: 0 <= a < mask.Length0 && 0 <= b < mask.Length1 ==>
                  mask[a, b] == (old(mask[a, b]) && !(a < i && (a, b) in cells))
    {
      for j := 0 to mask.Length1
        invariant forall a, b :: 0 <= a < mask.Length0 && 0 <= b < mask.Length1 ==>
                    mask[a, b] == (old(mask[a, b]) && !((a < i || (a == i && b < j)) && (a, b) in cells))
      {
        if (i, j) in cells {
          mask[i, j] := false;
        }
      }
    }
  }

  /** The loop over labels: every label with fewer than `minPixels` cells is cleared from the mask. */
  method RemoveSmallComponents(mask: array2<bool>, minPixels: int)
    modifies mask
    ensures Snapshot(mask) == Kept(old(Snapshot(mask)), minPixels)
  {
    var m := Snapshot(mask);
    var labels := Labels(m);
    for k := 0 to |labels|
      invariant forall i, j :: 0 <= i < mask.Length0 && 0 <= j < mask.Length1 ==>
                  mask[i, j] == (m[i][j] && !RemovedBy(labels, minPixels, k, (i, j)))
    {
      if |labels[k]| < minPixels {
        ClearCells(mask, labels[k]);
      }
    }
    forall i, j | 0 <= i < mask.Length0 && 0 <= j < mask.Length1
      ensures mask[i, j] == Kept(m, minPixels)[i][j]
    {
      RemovedByAllLabels(m, minPixels, (i, j));
      MaskCellsExact(m, (i, j));
    }
    forall i | 0 <= i < mask.Length0
      ensures Snapshot(mask)[i] == Kept(m, minPixels)[i]
    {
    }
  }

  /**
   * `apply_filters(data, 'minimum_mapping_unit', threshold=t, min_pixels=minPixels)`:
   * the data where the surviving mask holds, 0 elsewhere.
   */
  method MinimumMappingUnit(data: Grid<real>, t: real, minPixels: int) returns (out: Grid<real>)
    requires Rect(data)
    ensures out == Where(Kept(Threshold(data, t), minPixels), data)
  {
    var h, w := |data|, Width(data);
    var mask := new bool[h, w]((i, j) requires 0 <= i < h && 0 <= j < w => Abs(data[i][j]) > t);
    forall i | 0 <= i < h ensures Snapshot(mask)[i] == Threshold(data, t)[i] {
    }
    assert Snapshot(mask) == Threshold(data, t);
    RemoveSmallComponents(mask, minPixels);
    out := Where(Snapshot(mask), data);
  }
}
