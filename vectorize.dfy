/**
 * `vectorize`: optionally clean the burn mask, then either write an empty layer (no
 * cell equals 1) or one feature per polygon traced from the cells equal to 1, each
 * with its area in hectares. Polygon tracing and the shapely operations are
 * parameters: the model fixes what is done with their results, not their geometry.
 */
module Vectorize {
  import opened Grids
  import GreyMorphology
  import opened Paths

  /** `Config`: the input mask, the output file, and whether to clean the mask. */
  datatype Config = Config(maskTif: Path, outGeojson: Path, clean: bool)

  /** `Config(mask_tif, out_geojson, clean=True)` with both paths normalised by `Path`. */
  function MakeConfig(maskTif: PathLike, outGeojson: PathLike, clean: bool := true): (c: Config)
    ensures maskTif.FromText? ==> Normal(c.maskTif)
    ensures outGeojson.FromText? ==> Normal(c.outGeojson)
    ensures maskTif.FromPath? ==> c.maskTif == maskTif.path
    ensures outGeojson.FromPath? ==> c.outGeojson == outGeojson.path
  {
    Config(ToPath(maskTif), ToPath(outGeojson), clean)
  }

  /** The affine transform from pixel to map coordinates. */
  datatype Affine = Affine(a: real, b: real, c: real, d: real, e: real, f: real)

  /** A traced or repaired geometry: a polygon with its rings, or a collection. */
  datatype Geometry = Polygon(rings: seq<seq<(real, real)>>) | Collection(members: seq<Geometry>)

  /**
   * `rasterio.features.shapes(mask, mask=mask == 1, transform=transform)`: the pairs
   * (geometry, value) of the regions of cells selected by the `mask == 1` grid. Only
   * selected cells are traced and each of them holds 1, so the tracer sees nothing
   * but that grid.
   */
  type Tracer = (Grid<bool>, Affine) -> seq<(Geometry, int)>

  /** shapely's `is_valid`, `make_valid` and `area`. */
  datatype Shapely = Shapely(isValid: Geometry -> bool, makeValid: Geometry -> Geometry, area: Geometry -> real)

  datatype Feature = Feature(geometry: Geometry, areaHa: real)

  /** The written layer: an empty frame with named columns, or a list of features. */
  datatype Layer = EmptyLayer(columns: seq<string>) | Features(features: seq<Feature>)

  const EmptyColumns: seq<string> := ["geometry", "area_ha"]

  /** `mask == 1`. */
  function Ones(m: Grid<nat>): (r: Grid<bool>)
    ensures SameShape(r, m)
    ensures forall i, j :: 0 <= i < |m| && 0 <= j < |m[i]| ==> (r[i][j] <==> m[i][j] == 1)
  {
    seq(|m|, i requires 0 <= i < |m| => seq(|m[i]|, j requires 0 <= j < |m[i]| => m[i][j] == 1))
  }

  /** `(mask == 1).any()`. */
  predicate AnyOne(m: Grid<nat>) {
    exists i, j :: 0 <= i < |m| && 0 <= j < |m[i]| && m[i][j] == 1
  }

  /** The mask `vectorize` works on: cleaned when the configuration asks for it. */
  function Prepared(cfg: Config, mask: Grid<nat>): Grid<nat> {
    if cfg.clean then GreyMorphology.Clean(mask) else mask
  }

  /** `poly if poly.is_valid else make_valid(poly)`. */
  function Repair(geo: Shapely, g: Geometry): Geometry {
    if geo.isValid(g) then g else geo.makeValid(g)
  }

  /** The number of traced pairs whose value is nonzero. */
  function NonZeroCount(pairs: seq<(Geometry, int)>): nat {
    if |pairs| == 0 then 0 else NonZeroCount(pairs[..|pairs| - 1]) + (if pairs[|pairs| - 1].1 != 0 then 1 else 0)
  }

  /** `_iter_polys`: the repaired geometry of every traced pair with a nonzero value. */
  function IterPolys(geo: Shapely, pairs: seq<(Geometry, int)>): (r: seq<Geometry>)
    ensures |r| == NonZeroCount(pairs)
  {
    if |pairs| == 0 then []
    else
      var last := pairs[|pairs| - 1];
      IterPolys(geo, pairs[..|pairs| - 1]) + (if last.1 != 0 then [Repair(geo, last.0)] else [])
  }

  /** `_ha`: square metres to hectares. */
  function Hectares(area: real): (r: real)
    ensures r * 10000.0 == area
  {
    area / 10000.0
  }

  /** The feature list of the polygons: one feature per polygon, in order, with its area in hectares. */
  function FeatureList(geo: Shapely, polys: seq<Geometry>): (r: seq<Feature>)
    ensures |r| == |polys|
    ensures forall k :: 0 <= k < |r| ==> r[k].geometry == polys[k] && r[k].areaHa * 10000.0 == geo.area(polys[k])
  {
    seq(|polys|, k requires 0 <= k < |polys| => Feature(polys[k], Hectares(geo.area(polys[k]))))
  }

  /** Tracing one more pair adds at most one feature at the end. */
  lemma FeatureListSnoc(geo: Shapely, pairs: seq<(Geometry, int)>, n: nat)
    requires n < |pairs|
    ensures FeatureList(geo, IterPolys(geo, pairs[..n + 1])) ==
              FeatureList(geo, IterPolys(geo, pairs[..n]))
              + (if pairs[n].1 != 0 then [Feature(Repair(geo, pairs[n].0), Hectares(geo.area(Repair(geo, pairs[n].0))))] else [])
  {
    assert pairs[..n + 1][..n] == pairs[..n];
  }

  /** What `vectorize` writes for a loaded mask. */
  function LayerOf(cfg: Config, mask: Grid<nat>, transform: Affine, tracer: Tracer, geo: Shapely): Layer {
    var m := Prepared(cfg, mask);
    if !AnyOne(m) then EmptyLayer(EmptyColumns)
    else Features(FeatureList(geo, IterPolys(geo, tracer(Ones(m), transform))))
  }

  /** `vectorize` on the mask it loaded. */
  method RunVectorize(cfg: Config, loaded: Grid<nat>, transform: Affine, tracer: Tracer, geo: Shapely) returns (layer: Layer)
    ensures layer == LayerOf(cfg, loaded, transform, tracer, geo)
    ensures layer.EmptyLayer? <==> !AnyOne(Prepared(cfg, loaded))
    ensures layer.EmptyLayer? ==> layer.columns == EmptyColumns
    ensures layer.Features? ==>
              var pairs := tracer(Ones(Prepared(cfg, loaded)), transform);
              |layer.features| == NonZeroCount(pairs)
              && forall k :: 0 <= k < |layer.features| ==> layer.features[k].areaHa * 10000.0 == geo.area(layer.features[k].geometry)
  {
    var mask := loaded;
    if cfg.clean {
      mask := GreyMorphology.Clean(mask);
    }
    if !AnyOne(mask) {
      return EmptyLayer(EmptyColumns);
    }
    var pairs := tracer(Ones(mask), transform);
    var feats: seq<Feature> := [];
    for n := 0 to |pairs|
      invariant feats == FeatureList(geo, IterPolys(geo, pairs[..n]))
    {
      var (g, value) := pairs[n];
      FeatureListSnoc(geo, pairs, n);
      if value != 0 {
        var p := Repair(geo, g);
        feats := feats + [Feature(p, Hectares(geo.area(p)))];
      }
    }
    assert pairs[..|pairs|] == pairs;
    layer := Features(feats);
  }

  /** The empty layer is written exactly when no cell of the (cleaned) mask equals 1. */
  lemma EmptyExactlyWithoutOnes(cfg: Config, mask: Grid<nat>, transform: Affine, tracer: Tracer, geo: Shapely)
    ensures LayerOf(cfg, mask, transform, tracer, geo) == EmptyLayer(EmptyColumns) <==> !AnyOne(Prepared(cfg, mask))
  {
  }

  /** Preparing the mask, cleaned or not, is monotone: a mask below another stays below it. */
  lemma PreparedMonotone(cfg: Config, a: Grid<nat>, b: Grid<nat>)
    requires GreyMorphology.Below(a, b)
    ensures GreyMorphology.Below(Prepared(cfg, a), Prepared(cfg, b))
  {
    if cfg.clean {
      GreyMorphology.CleanMonotone(a, b);
    }
  }

  lemma AnyOneOfOnes(a: Grid<nat>, b: Grid<nat>)
    requires Ones(a) == Ones(b)
    ensures AnyOne(a) <==> AnyOne(b)
  {
    if AnyOne(a) {
      var i, j :| 0 <= i < |a| && 0 <= j < |a[i]| && a[i][j] == 1;
      assert Ones(a)[i][j];
    }
    if AnyOne(b) {
      var i, j :| 0 <= i < |b| && 0 <= j < |b[i]| && b[i][j] == 1;
      assert Ones(b)[i][j];
    }
  }

  /**
   * Masks whose prepared (cleaned, when cleaning is on) versions agree on the cells
   * equal to 1 give the same layer. This restates a modelling choice: `shapes(mask,
   * mask=mask == 1)` traces only those cells, so the tracer is given `Ones` alone.
   */
  lemma OnlyOnesMatter(cfg: Config, a: Grid<nat>, b: Grid<nat>, transform: Affine, tracer: Tracer, geo: Shapely)
    requires Ones(Prepared(cfg, a)) == Ones(Prepared(cfg, b))
    ensures LayerOf(cfg, a, transform, tracer, geo) == LayerOf(cfg, b, transform, tracer, geo)
  {
    AnyOneOfOnes(Prepared(cfg, a), Prepared(cfg, b));
  }

  /**
   * Every traced pair with a nonzero value gives a polygon, repaired where it is
   * invalid and never dropped: the k-th polygon is the repair of the k-th such pair.
   */
  lemma {:induction false} IterPolysRepairsEveryPair(geo: Shapely, pairs: seq<(Geometry, int)>, k: nat)
    requires k < |pairs| && pairs[k].1 != 0
    ensures NonZeroCount(pairs[..k]) < |IterPolys(geo, pairs)|
    ensures IterPolys(geo, pairs)[NonZeroCount(pairs[..k])] == Repair(geo, pairs[k].0)
  {
    var last := |pairs| - 1;
    assert pairs[..|pairs|][..k] == pairs[..k];
    if k < last {
      IterPolysRepairsEveryPair(geo, pairs[..last], k);
      assert pairs[..last][..k] == pairs[..k];
      assert pairs[..last][k] == pairs[k];
    } else {
      assert pairs[..k] == pairs[..last];
    }
  }

  /** When the repair always yields a valid geometry, every written geometry is valid. */
  lemma {:induction false} IterPolysValid(geo: Shapely, pairs: seq<(Geometry, int)>)
    requires forall g :: geo.isValid(geo.makeValid(g))
    ensures forall k :: 0 <= k < |IterPolys(geo, pairs)| ==> geo.isValid(IterPolys(geo, pairs)[k])
  {
    if |pairs| > 0 {
      IterPolysValid(geo, pairs[..|pairs| - 1]);
    }
  }

  /** A 0/1 mask stays a 0/1 mask of the same shape, cleaned or not. */
  lemma PreparedBinary(cfg: Config, mask: Grid<nat>)
    requires GreyMorphology.Binary(mask)
    ensures GreyMorphology.Binary(Prepared(cfg, mask))
    ensures SameShape(Prepared(cfg, mask), mask)
  {
    if cfg.clean {
      GreyMorphology.CleanBinary(mask);
      GreyMorphology.CleanShape(mask);
    }
  }

  /**
   * Cleaned or not, the traced mask lies between the opening and the closing of the
   * loaded mask.
   */
  lemma PreparedBetween(cfg: Config, mask: Grid<nat>)
    ensures GreyMorphology.Below(GreyMorphology.Open(mask), Prepared(cfg, mask))
    ensures GreyMorphology.Below(Prepared(cfg, mask), GreyMorphology.Close(mask))
  {
    if cfg.clean {
      GreyMorphology.CleanBetween(mask);
    } else {
      GreyMorphology.OpenBelow(mask);
      GreyMorphology.CloseAbove(mask);
    }
  }

  /**
   * The default `clean=True` changes the outcome: a lone burn pixel next to an
   * unburnt one is removed by the opening, so the default configuration writes the
   * empty layer, while `clean=False` traces the pixel.
   */
  lemma CleanByDefault(maskTif: PathLike, outGeojson: PathLike)
    ensures !AnyOne(Prepared(MakeConfig(maskTif, outGeojson), [[1, 0]]))
    ensures AnyOne(Prepared(MakeConfig(maskTif, outGeojson, false), [[1, 0]]))
  {
    var m: Grid<nat> := [[1, 0]];
    assert m[0][0] == 1;
    GreyMorphology.LonePixelErodes();
    var o := GreyMorphology.Open(m);
    GreyMorphology.ZeroStaysZero(GreyMorphology.Erode(m));
    GreyMorphology.ZeroStaysZero(o);
    GreyMorphology.ZeroStaysZero(GreyMorphology.Dilate(o));
    assert GreyMorphology.Zero(GreyMorphology.Clean(m));
  }

}
