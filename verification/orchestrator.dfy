/** `run_extract_tiled_covar_year`: load the footprint index, reproject the
    points into its system, clip and join to attach tile references, reset the
    index and hand everything to `ExtractTiledRaster`. */
module Orchestrator {
  import opened Results
  import opened Frames
  import opened TileJoin
  import opened Extract

  /** The table the orchestrator passes to `ExtractTiledRaster`: the points in
      the footprint index's system, joined with the footprints and relabelled
      0..n-1 — unmatched points included. */
  function JoinForExtraction(points: Table, index: FootprintIndex, transform: Transform, covers: Covers)
    : (t: Table)
    ensures t.crs == index.crs
    ensures DefaultIndexed(t.rows)
    ensures |t.rows| >= |points.rows|
  {
    var moved := ToCrs(points, index.crs, transform);
    var (joined, _) := ClipAndJoin(moved, index, covers);
    ResetIndex(joined)
  }

  /** Relabelling and replacing the tile reference commute. */
  lemma RelabelKeepsTileUpdate(r: Row, k: int, tile: Option<string>)
    ensures Relabel(r, k).(tile := tile) == Relabel(r.(tile := tile), k)
  {
  }

  /** Every input point reaches extraction, overlapping footprints or not:
      some row of the joined table is the point reprojected, relabelled by
      `reset_index()`, with a tile reference attached. */
  lemma {:induction false} JoinForExtractionKeepsPoints(points: Table, index: FootprintIndex, transform: Transform, covers: Covers)
    ensures
      var t := JoinForExtraction(points, index, transform, covers);
      forall i :: 0 <= i < |points.rows| ==>
        var p := Reproject(transform, points.crs, index.crs, points.rows[i].geom);
        exists k :: 0 <= k < |t.rows| && t.rows[k].(tile := points.rows[i].tile) == Relabel(points.rows[i].(geom := p), k)
  {
    var moved := ToCrs(points, index.crs, transform);
    var joined := ClipAndJoin(moved, index, covers).0;
    var t := JoinForExtraction(points, index, transform, covers);
    ClipAndJoinKeepsPoints(moved, index, covers);
    forall i | 0 <= i < |points.rows|
      ensures
        var p := Reproject(transform, points.crs, index.crs, points.rows[i].geom);
        exists k :: 0 <= k < |t.rows| && t.rows[k].(tile := points.rows[i].tile) == Relabel(points.rows[i].(geom := p), k)
    {
      var p := Reproject(transform, points.crs, index.crs, points.rows[i].geom);
      var k :| 0 <= k < |joined.rows| && joined.rows[k].(tile := moved.rows[i].tile) == moved.rows[i];
      assert moved.rows[i] == points.rows[i].(geom := p);
      RelabelKeepsTileUpdate(joined.rows[k], k, points.rows[i].tile);
      assert t.rows[k] == Relabel(joined.rows[k], k);
    }
  }

  /** Under disjoint footprints the joined table has exactly one row per input
      point, in input order: row `i` is point `i` reprojected, labelled `i`
      with its old label in the `index` column, carrying the covering tile's
      reference or a NaN one. */
  lemma {:induction false} JoinKeepsEveryPoint(points: Table, index: FootprintIndex, transform: Transform, covers: Covers)
    requires Disjoint(index.tiles, ToCrs(points, index.crs, transform).rows, covers)
    ensures |JoinForExtraction(points, index, transform, covers).rows| == |points.rows|
    ensures forall i :: 0 <= i < |points.rows| ==>
              var p := Reproject(transform, points.crs, index.crs, points.rows[i].geom);
              JoinForExtraction(points, index, transform, covers).rows[i]
                == Relabel(points.rows[i].(geom := p, tile := CoveringRef(index.tiles, p, covers)), i)
  {
    var moved := ToCrs(points, index.crs, transform);
    ClipAndJoinKeepsEveryPoint(moved, index, covers);
  }

  /** What the orchestrator returns once the table to extract from is known. */
  function Wrap(r: Result<Table, Fault>): Result<Option<Table>, Fault> {
    match r
    case Ok(t) => Ok(Some(t))
    case Err(e) => Err(e)
  }

  /** `run_extract_tiled_covar_year(points, raster_dict, tcc_year, bandnum,
      has_joined)`. With no year the raster dictionary is subscripted before it
      is checked for None (a TypeError); with `has_joined` set, the joined table
      is never bound (a NameError). */
  method RunExtractTiledCovarYear(
    points: Table,
    rd: Option<RasterDict>,
    year: Option<int>,
    bandnum: int,
    hasJoined: bool,
    raster: Raster,
    readFootprints: string -> Option<FootprintIndex>,
    covers: Covers)
    returns (r: Result<Option<Table>, Fault>)
    ensures rd.None? ==> r == (if year.None? then Err(NoneNotSubscriptable) else Ok(None))
    ensures rd.Some? && hasJoined ==> r == Err(UnboundName("joined_points_gdf"))
    ensures rd.Some? && !hasJoined && readFootprints(rd.value.footprintFn).None? ==>
              r == Err(FootprintReadFailed(rd.value.footprintFn))
    ensures rd.Some? && !hasJoined && readFootprints(rd.value.footprintFn).Some? ==>
              var index := readFootprints(rd.value.footprintFn).value;
              r == Wrap(TiledSpec(JoinForExtraction(points, index, raster.transform, covers), rd.value, year, bandnum, raster))
    ensures r.Ok? && r.value.Some? && rd.Some? && (rd.value.location == "local" || rd.value.location == "s3") ==>
              var index := readFootprints(rd.value.footprintFn).value;
              Disjoint(index.tiles, ToCrs(points, index.crs, raster.transform).rows, covers) ==>
                |r.value.value.rows| == |points.rows|
  {
    if year.None? && rd.None? {
      return Err(NoneNotSubscriptable);
    }
    if rd.None? {
      return Ok(None);
    }
    if hasJoined {
      return Err(UnboundName("joined_points_gdf"));
    }
    var dict := rd.value;
    var index := readFootprints(dict.footprintFn);
    if index.None? {
      return Err(FootprintReadFailed(dict.footprintFn));
    }
    var joined := JoinForExtraction(points, index.value, raster.transform, covers);
    var extracted := ExtractTiledRaster(joined, dict, year, bandnum, raster);
    r := Wrap(extracted);
    if Disjoint(index.value.tiles, ToCrs(points, index.value.crs, raster.transform).rows, covers) {
      JoinKeepsEveryPoint(points, index.value, raster.transform, covers);
    }
  }
}
