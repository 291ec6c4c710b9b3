/**
 * `calculate_change_detection`: read two bands, guard non-positive intensities, take
 * the log-ratio 10*log10(b3) - 10*log10(b1), clamp non-finite values to 0, filter,
 * and set the output profile to one float32 band with nodata 0.
 */
module ChangeDetection {
  import opened Results
  import opened Grids
  import opened Samples
  import opened Filters

  datatype ProfileValue = IntValue(i: int) | TextValue(s: string) | RealValue(r: real) | NoneValue | OpaqueValue(tag: string)

  /** A rasterio profile: driver, width, height, count, dtype, crs, transform, nodata, ... */
  type Profile = map<string, ProfileValue>

  /** A multi-band raster: bands numbered from 1, and its profile. */
  datatype Raster = Raster(bands: seq<Grid<Sample>>, profile: Profile)

  datatype Error = BandIndexOutOfRange(band: int) | FilterFailed(cause: FilterError)

  /** The change raster and the profile it is written with. */
  datatype Output = Output(change: Grid<real>, profile: Profile)

  /** `src.read(band)`: rasterio refuses a band number outside 1 .. count. */
  function ReadBand(r: Raster, band: int): Result<Grid<Sample>, Error> {
    if 1 <= band <= |r.bands| then Success(r.bands[band - 1]) else Failure(BandIndexOutOfRange(band))
  }

  /** `np.where(band <= 0, epsilon, band)`. */
  function GuardBand(g: Grid<Sample>): Grid<Sample> {
    seq(|g|, i requires 0 <= i < |g| => seq(|g[i]|, j requires 0 <= j < |g[i]| => Guard(g[i][j])))
  }

  /** `10 * np.log10(b3) - 10 * np.log10(b1)` over the cells of b1 (both bands share one shape). */
  function LogRatioGrid(lg: real -> real, b1: Grid<Sample>, b3: Grid<Sample>): Grid<Sample> {
    seq(|b1|, i requires 0 <= i < |b1| =>
      seq(|b1[i]|, j requires 0 <= j < |b1[i]| => LogRatio(lg, b1[i][j], At(b3, i, j, NaN))))
  }

  /** `np.where(np.isfinite(change), change, 0)`. */
  function ClampGrid(g: Grid<Sample>): Grid<real> {
    seq(|g|, i requires 0 <= i < |g| => seq(|g[i]|, j requires 0 <= j < |g[i]| => Clamp(g[i][j])))
  }

  /** The change raster before filtering. */
  function ChangeGrid(lg: real -> real, b1: Grid<Sample>, b3: Grid<Sample>): Grid<real> {
    ClampGrid(LogRatioGrid(lg, GuardBand(b1), GuardBand(b3)))
  }

  const OutputKeys: set<string> := {"count", "dtype", "nodata"}

  /** `profile.update({'count': 1, 'dtype': 'float32', 'nodata': 0})`. */
  function UpdateProfile(p: Profile): (r: Profile)
    ensures r.Keys == p.Keys + OutputKeys
    ensures r["count"] == IntValue(1) && r["dtype"] == TextValue("float32") && r["nodata"] == IntValue(0)
    ensures forall key :: key in p && key !in OutputKeys ==> r[key] == p[key]
  {
    p["count" := IntValue(1)]["dtype" := TextValue("float32")]["nodata" := IntValue(0)]
  }

  /** `calculate_change_detection(input, output, band1, band3, filter_type, filter_params)` up to the write. */
  method CalculateChangeDetection(raster: Raster, band1: int := 1, band3: int := 3, filterName: string := "median",
                                  params: Params := NoParams, lg: real -> real, gaussian: Smoother)
    returns (res: Result<Output, Error>)
    ensures !(1 <= band1 <= |raster.bands|) ==> res == Failure(BandIndexOutOfRange(band1))
    ensures 1 <= band1 <= |raster.bands| && !(1 <= band3 <= |raster.bands|) ==>
              res == Failure(BandIndexOutOfRange(band3))
    ensures res.Success? ==> res.value.profile == UpdateProfile(raster.profile)
    ensures 1 <= band1 <= |raster.bands| && 1 <= band3 <= |raster.bands| ==>
              var change := ChangeGrid(lg, raster.bands[band1 - 1], raster.bands[band3 - 1]);
              if filterName == "none" then res == Success(Output(change, UpdateProfile(raster.profile)))
              else match ApplyFilters(change, FilterTypeOf(filterName), params, gaussian)
                   case Success(filtered) => res == Success(Output(filtered, UpdateProfile(raster.profile)))
                   case Failure(e) => res == Failure(FilterFailed(e))
  {
    var b1 :- ReadBand(raster, band1);
    var b3 :- ReadBand(raster, band3);
    var profile := raster.profile;
    b1 := GuardBand(b1);
    b3 := GuardBand(b3);
    var raw := LogRatioGrid(lg, b1, b3);
    var change := ClampGrid(raw);
    if filterName != "none" {
      var filtered := ApplyFilters(change, FilterTypeOf(filterName), params, gaussian);
      if filtered.Failure? {
        return Failure(FilterFailed(filtered.error));
      }
      change := filtered.value;
    }
    profile := UpdateProfile(profile);
    res := Success(Output(change, profile));
  }

  // ------------------------------------------------------------------
  // Properties

  /**
   * Every cell of the unfiltered change raster is the log-ratio when neither intensity
   * is NaN or +inf (zero and negative intensities included), and the nodata value 0
   * otherwise; the raster has the shape of the first band.
   */
  lemma ChangeGridCells(lg: real -> real, b1: Grid<Sample>, b3: Grid<Sample>)
    requires SameShape(b1, b3)
    ensures SameShape(ChangeGrid(lg, b1, b3), b1)
    ensures forall i, j :: InGrid(b1, i, j) ==>
              var v := LogRatio(lg, Guard(b1[i][j]), Guard(b3[i][j]));
              if b1[i][j] in {NaN, PosInf} || b3[i][j] in {NaN, PosInf} then ChangeGrid(lg, b1, b3)[i][j] == 0.0
              else v.Finite? && ChangeGrid(lg, b1, b3)[i][j] == v.x
  {
    forall i, j | InGrid(b1, i, j)
      ensures IsFinite(LogRatio(lg, Guard(b1[i][j]), Guard(b3[i][j]))) <==>
              (b1[i][j] != NaN && b1[i][j] != PosInf && b3[i][j] != NaN && b3[i][j] != PosInf)
    {
      GuardedRatioFiniteIff(lg, b1[i][j], b3[i][j]);
    }
  }

  /**
   * A band whose intensities are everywhere ten times those of the first band, with a
   * logarithm satisfying lg(10x) = lg(x) + 1, gives a change raster of 10 everywhere.
   */
  lemma TenfoldBandIsConstantTen(lg: real -> real, b1: Grid<Sample>, b3: Grid<Sample>)
    requires SameShape(b1, b3)
    requires forall i, j :: InGrid(b1, i, j) ==>
               b1[i][j].Finite? && b1[i][j].x > 0.0 && b3[i][j] == Finite(10.0 * b1[i][j].x)
    requires forall x: real :: x > 0.0 ==> lg(10.0 * x) == lg(x) + 1.0
    ensures SameShape(ChangeGrid(lg, b1, b3), b1)
    ensures forall i, j :: InGrid(b1, i, j) ==> ChangeGrid(lg, b1, b3)[i][j] == 10.0
  {
    forall i, j | InGrid(b1, i, j) ensures ChangeGrid(lg, b1, b3)[i][j] == 10.0 {
      TenfoldRatioIsTen(lg, b1[i][j].x);
    }
  }
}
