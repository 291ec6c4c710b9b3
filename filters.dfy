/**
 * `apply_filters`: a dispatch over a closed set of filter names with a fall-through
 * for every other name, which returns the data unchanged.
 */
module Filters {
  import opened Results
  import opened Grids
  import opened OrderStatistics
  import opened BinaryMorphology
  import opened Components

  datatype FilterType =
    | Median
    | Gaussian
    | Morphological
    | MinimumMappingUnit
    | Bilateral
    | Combined
    | Unrecognised(name: string)

  const KnownNames: set<string> :=
    {"median", "gaussian", "morphological", "minimum_mapping_unit", "bilateral", "combined"}

  /** The branch of the `if`/`elif` chain that a `filter_type` string selects. */
  function FilterTypeOf(name: string): FilterType {
    if name == "median" then Median
    else if name == "gaussian" then Gaussian
    else if name == "morphological" then Morphological
    else if name == "minimum_mapping_unit" then MinimumMappingUnit
    else if name == "bilateral" then Bilateral
    else if name == "combined" then Combined
    else Unrecognised(name)
  }

  function NameOf(f: FilterType): string {
    match f
    case Median => "median"
    case Gaussian => "gaussian"
    case Morphological => "morphological"
    case MinimumMappingUnit => "minimum_mapping_unit"
    case Bilateral => "bilateral"
    case Combined => "combined"
    case Unrecognised(name) => name
  }

  /** Exactly the six known names select a filter; reading the name back gives the string. */
  lemma FilterNamesRoundTrip(name: string, f: FilterType)
    ensures NameOf(FilterTypeOf(name)) == name
    ensures FilterTypeOf(name).Unrecognised? <==> name !in KnownNames
    ensures (f.Unrecognised? ==> f.name !in KnownNames) ==> FilterTypeOf(NameOf(f)) == f
  {
  }

  /** The keyword arguments; a missing one takes the default each branch gives it. */
  datatype Params = Params(
    size: Option<int>,
    sigma: Option<real>,
    threshold: Option<real>,
    structureSize: Option<int>,
    minPixels: Option<int>,
    medianSize: Option<int>,
    gaussianSigma: Option<real>)

  /** No keyword arguments: every parameter takes the branch's default. */
  const NoParams: Params := Params(None, None, None, None, None, None, None)

  /** `gaussian_filter(data, sigma=s)`, left uninterpreted. */
  type Smoother = (Grid<real>, real) -> Grid<real>

  /** scipy refuses a median window without any element. */
  datatype FilterError = InvalidMedianSize(size: int)

  /** scipy's 'reflect' border: (d c b a | a b c d | d c b a), the edge cell repeated. */
  function Reflect(x: int, n: nat): int {
    if n == 0 then x
    else
      var r := x % (2 * n);
      if r < n then r else 2 * n - 1 - r
  }

  lemma MulPositive(k: nat)
    requires k > 0
    ensures k * k > 0
  {
  }

  /** The k*k samples of the square window of cell (i, j), read through the reflecting border. */
  function Window(g: Grid<real>, k: nat, i: int, j: int): (w: seq<real>)
    requires k > 0
    ensures |w| > 0
  {
    MulPositive(k);
    seq(k * k, t requires 0 <= t < k * k =>
      At(g, Reflect(i - k / 2 + t / k, |g|), Reflect(j - k / 2 + t % k, Width(g)), 0.0))
  }

  /** `median_filter(data, size=k)`: each cell becomes the rank-(k*k/2) element of its window. */
  function MedianFilter(g: Grid<real>, k: int): Result<Grid<real>, FilterError> {
    if k < 1 then Failure(InvalidMedianSize(k))
    else Success(seq(|g|, i requires 0 <= i < |g| =>
                   seq(|g[i]|, j requires 0 <= j < |g[i]| => OrderStatistics.Median(Window(g, k, i, j)))))
  }

  /** The mask of the `morphological` branch: threshold, then opening and closing when s > 0. */
  function MorphologicalMask(data: Grid<real>, t: real, s: int): Grid<bool> {
    var m := Threshold(data, t);
    if s > 0 then Close(Open(m, s), s) else m
  }

  /** The mask of the `combined` branch: threshold, then opening only when s > 0. */
  function CombinedMask(data: Grid<real>, t: real, s: int): Grid<bool> {
    var m := Threshold(data, t);
    if s > 0 then Open(m, s) else m
  }

  /** The `minimum_mapping_unit` branch (its in-place loop is `MappingUnit.MinimumMappingUnit`). */
  function MappingUnitFilter(data: Grid<real>, t: real, minPixels: int): Grid<real> {
    Where(Kept(Threshold(data, t), minPixels), data)
  }

  /** `apply_filters(data, filter_type, **kwargs)`. */
  function ApplyFilters(data: Grid<real>, f: FilterType := Median, p: Params := NoParams, gaussian: Smoother): Result<Grid<real>, FilterError> {
    match f
    case Median => MedianFilter(data, p.size.GetOr(3))
    case Gaussian => Success(gaussian(data, p.sigma.GetOr(1.0)))
    case Morphological =>
      Success(Where(MorphologicalMask(data, p.threshold.GetOr(0.5), p.structureSize.GetOr(3)), data))
    case MinimumMappingUnit =>
      Success(MappingUnitFilter(data, p.threshold.GetOr(0.5), p.minPixels.GetOr(9)))
    case Bilateral => Success(gaussian(data, p.sigma.GetOr(1.0)))
    case Combined =>
      var median :- MedianFilter(data, p.medianSize.GetOr(3));
      var smooth := gaussian(median, p.gaussianSigma.GetOr(0.8));
      Success(Where(CombinedMask(smooth, p.threshold.GetOr(0.3), p.structureSize.GetOr(2)), smooth))
    case Unrecognised(_) => Success(data)
  }

  // ------------------------------------------------------------------
  // Properties

  /** An unrecognised name returns the data unchanged, as the `else` branch does. */
  lemma UnrecognisedIsIdentity(data: Grid<real>, name: string, p: Params, gaussian: Smoother)
    requires name !in KnownNames
    ensures ApplyFilters(data, FilterTypeOf(name), p, gaussian) == Success(data)
  {
  }

  /** The median filter fails exactly for a non-positive size and otherwise keeps the shape. */
  lemma MedianFilterShape(g: Grid<real>, k: int)
    ensures MedianFilter(g, k).Failure? <==> k < 1
    ensures MedianFilter(g, k).Success? ==> SameShape(MedianFilter(g, k).value, g)
  {
  }

  lemma ReflectInRange(x: int, n: nat)
    requires n > 0
    ensures 0 <= Reflect(x, n) < n
  {
  }

  /** The median filter of a constant grid is that grid. */
  lemma WindowOfConstant(g: Grid<real>, k: nat, i: int, j: int, c: real)
    requires Rect(g) && k >= 1 && InGrid(g, i, j)
    requires forall a, b :: InGrid(g, a, b) ==> g[a][b] == c
    ensures forall t :: 0 <= t < |Window(g, k, i, j)| ==> Window(g, k, i, j)[t] == c
  {
    var w := Window(g, k, i, j);
    forall t | 0 <= t < |w| ensures w[t] == c {
      var a, b := i - k / 2 + t / k, j - k / 2 + t % k;
      ReflectInRange(a, |g|);
      ReflectInRange(b, Width(g));
      assert InGrid(g, Reflect(a, |g|), Reflect(b, Width(g)));
    }
  }

  lemma MedianOfConstantGrid(g: Grid<real>, k: int, c: real)
    requires Rect(g) && k >= 1
    requires forall i, j :: InGrid(g, i, j) ==> g[i][j] == c
    ensures MedianFilter(g, k) == Success(g)
  {
    var r := MedianFilter(g, k).value;
    forall i, j | InGrid(g, i, j) ensures r[i][j] == c {
      WindowOfConstant(g, k, i, j, c);
      MedianOfConstant(Window(g, k, i, j), c);
    }
    forall i | 0 <= i < |g| ensures r[i] == g[i] {
      assert |r[i]| == |g[i]|;
      assert forall j :: 0 <= j < |g[i]| ==> r[i][j] == g[i][j];
    }
    assert r == g;
  }

  /**
   * The masking branches keep the data's shape, and each output cell is either 0 or
   * exactly the data's value at that cell.
   */
  lemma MaskingKeepsOrZeroes(data: Grid<real>, f: FilterType, p: Params, gaussian: Smoother)
    requires f == Morphological || f == MinimumMappingUnit
    ensures ApplyFilters(data, f, p, gaussian).Success?
    ensures SameShape(ApplyFilters(data, f, p, gaussian).value, data)
    ensures forall i, j :: InGrid(data, i, j) ==>
              ApplyFilters(data, f, p, gaussian).value[i][j] in {0.0, data[i][j]}
  {
    var r := ApplyFilters(data, f, p, gaussian).value;
    if f == Morphological {
      WhereSelects(MorphologicalMask(data, p.threshold.GetOr(0.5), p.structureSize.GetOr(3)), data);
    } else {
      WhereSelects(Kept(Threshold(data, p.threshold.GetOr(0.5)), p.minPixels.GetOr(9)), data);
    }
  }

  /** With structure_size <= 0 the morphological branch is plain threshold masking. */
  lemma MorphologicalWithoutStructure(data: Grid<real>, p: Params, gaussian: Smoother)
    requires p.structureSize.GetOr(3) <= 0
    ensures ApplyFilters(data, Morphological, p, gaussian) ==
            Success(Where(Threshold(data, p.threshold.GetOr(0.5)), data))
    ensures forall i, j :: InGrid(data, i, j) ==>
              ApplyFilters(data, Morphological, p, gaussian).value[i][j] ==
              (if Abs(data[i][j]) > p.threshold.GetOr(0.5) then data[i][j] else 0.0)
  {
  }

  /**
   * The combined branch only opens the mask: a nonzero output cell holds the smoothed
   * value there, and that value's magnitude exceeds the threshold.
   */
  lemma CombinedOnlyOpens(data: Grid<real>, p: Params, gaussian: Smoother)
    requires p.medianSize.GetOr(3) >= 1
    ensures ApplyFilters(data, Combined, p, gaussian).Success?
    ensures var smooth := gaussian(MedianFilter(data, p.medianSize.GetOr(3)).value, p.gaussianSigma.GetOr(0.8));
            var r := ApplyFilters(data, Combined, p, gaussian).value;
            SameShape(r, smooth) &&
            forall i, j :: InGrid(r, i, j) && r[i][j] != 0.0 ==>
              r[i][j] == smooth[i][j] && Abs(smooth[i][j]) > p.threshold.GetOr(0.3)
  {
    var smooth := gaussian(MedianFilter(data, p.medianSize.GetOr(3)).value, p.gaussianSigma.GetOr(0.8));
    var t, s := p.threshold.GetOr(0.3), p.structureSize.GetOr(2);
    var m := CombinedMask(smooth, t, s);
    ThresholdExact(smooth, t);
    if s > 0 {
      OpenShrinks(Threshold(smooth, t), s);
    }
    assert Within(m, Threshold(smooth, t));
    WhereSelects(m, smooth);
  }

  /** With a shape-preserving smoother every branch returns a grid of the data's shape. */
  lemma FiltersKeepShape(data: Grid<real>, f: FilterType, p: Params, gaussian: Smoother)
    requires forall g: Grid<real>, s: real :: SameShape(gaussian(g, s), g)
    requires ApplyFilters(data, f, p, gaussian).Success?
    ensures SameShape(ApplyFilters(data, f, p, gaussian).value, data)
  {
    if f == Combined {
      var median := MedianFilter(data, p.medianSize.GetOr(3)).value;
      MedianFilterShape(data, p.medianSize.GetOr(3));
      var sigma := p.gaussianSigma.GetOr(0.8);
      var smooth := gaussian(median, sigma);
      assert SameShape(gaussian(median, sigma), median);
      WhereSelects(CombinedMask(smooth, p.threshold.GetOr(0.3), p.structureSize.GetOr(2)), smooth);
    } else if f == Median {
      MedianFilterShape(data, p.size.GetOr(3));
    } else if f == Gaussian || f == Bilateral {
      var sigma := p.sigma.GetOr(1.0);
      assert SameShape(gaussian(data, sigma), data);
    } else if f == Morphological || f == MinimumMappingUnit {
      MaskingKeepsOrZeroes(data, f, p, gaussian);
    }
  }

  /** With min_pixels <= 1 the minimum-mapping-unit branch is plain threshold masking. */
  lemma MappingUnitRemovesNothing(data: Grid<real>, t: real, minPixels: int)
    requires minPixels <= 1
    ensures MappingUnitFilter(data, t, minPixels) == Where(Threshold(data, t), data)
  {
    KeptAllWhenSmall(Threshold(data, t), minPixels);
  }

  /** Raising min_pixels never keeps more cells: whatever survives the larger bound survives the smaller. */
  lemma MappingUnitAntitone(data: Grid<real>, t: real, lo: int, hi: int)
    requires lo <= hi
    ensures forall i, j :: InGrid(data, i, j) && MappingUnitFilter(data, t, hi)[i][j] != 0.0 ==>
              MappingUnitFilter(data, t, lo)[i][j] == MappingUnitFilter(data, t, hi)[i][j]
  {
    var m := Threshold(data, t);
    KeptAntitone(m, lo, hi);
    ThresholdExact(data, t);
  }

  /**
   * The cells the minimum-mapping-unit branch keeps are a union of whole 4-connected
   * components of {|x| > t}: a component with at least min_pixels cells keeps all its
   * values, a smaller one is zeroed entirely.
   */
  lemma MappingUnitWholeComponents(data: Grid<real>, t: real, minPixels: int, p: Cell)
    requires p in MaskCells(Threshold(data, t))
    ensures var comp := ComponentOf(Threshold(data, t), p);
            var r := MappingUnitFilter(data, t, minPixels);
            forall q :: q in comp ==>
              InGrid(data, q.0, q.1) &&
              r[q.0][q.1] == (if |comp| >= minPixels then data[q.0][q.1] else 0.0)
  {
    var m := Threshold(data, t);
    ThresholdExact(data, t);
    KeptWholeComponents(m, minPixels, p);
  }
}
