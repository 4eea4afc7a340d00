/** `ExtractTiledRaster`, `do_s3_point_query` and `ExtractUntiledRaster`:
    sampling a raster at every point of a table. Raster access is abstract:
    opening a raster yields its coordinate system or fails, and sampling is an
    oracle. */
module Extract {
  import opened Results
  import opened Frames
  import PosixPath
  import opened YearToken

  /** The raster configuration dictionary (`ras_dict`). */
  datatype RasterDict = RasterDict(
    location: string,
    dataDir: string,
    fileName: string,
    dataName: string,
    footprintFn: string)

  /** The Python exceptions the core lets escape. */
  datatype Fault =
    | RasterOpenFailed(path: string)
    | BandIndexOutOfRange(bandnum: int, bands: nat)
    | RowPositionOutOfRange(position: int, rows: nat)
    | NothingToConcatenate
    | UnboundName(name: string)
    | NoneNotSubscriptable
    | FootprintReadFailed(path: string)

  /** What the raster libraries answer. `open` gives the raster's coordinate
      system, or `None` when `rasterio.open` raises; `pointQuery` is
      `rasterstats.point_query(..., interpolate='nearest')` at one point;
      `sample` is the band vector `dataset.sample` yields for one point. */
  datatype Raster = Raster(
    transform: Transform,
    open: string -> Option<Crs>,
    pointQuery: (string, Pt) -> Value,
    sample: (string, Pt) -> seq<Value>)

  // ---------------------------------------------------------------------
  // Local tiled branch

  /** The value the local branch stores for one row: NaN without opening
      anything when the tile reference is missing, otherwise the sample of the
      tile `data_dir/location` at the point reprojected into the tile's system. */
  function LocalValue(crs: Crs, row: Row, rd: RasterDict, raster: Raster): (r: Result<Value, Fault>)
    ensures row.tile.None? ==> r == Ok(NaN)
    ensures row.tile.Some? ==> (r.Err? <==> raster.open(PosixPath.Join(rd.dataDir, row.tile.value)).None?)
  {
    match row.tile
    case None => Ok(NaN)
    case Some(location) =>
      var path := PosixPath.Join(rd.dataDir, location);
      match raster.open(path)
      case None => Err(RasterOpenFailed(path))
      case Some(rasterCrs) => Ok(raster.pointQuery(path, Reproject(raster.transform, crs, rasterCrs, row.geom)))
  }

  /** A row whose tile opens gets the raster's value at the point, reprojected
      from the table's system into the tile's. */
  lemma LocalValueSamples(crs: Crs, row: Row, rd: RasterDict, raster: Raster)
    requires row.tile.Some?
    ensures
      var path := PosixPath.Join(rd.dataDir, row.tile.value);
      raster.open(path).Some? ==>
        LocalValue(crs, row, rd, raster)
          == Ok(raster.pointQuery(path, Reproject(raster.transform, crs, raster.open(path).value, row.geom)))
  {
  }

  /** The per-row outcomes of the local branch, in row order. */
  function LocalCells(t: Table, rd: RasterDict, raster: Raster): (cells: seq<Result<Value, Fault>>)
    ensures |cells| == |t.rows|
    ensures forall i :: 0 <= i < |t.rows| ==> cells[i] == LocalValue(t.crs, t.rows[i], rd, raster)
  {
    seq(|t.rows|, i requires 0 <= i < |t.rows| => LocalValue(t.crs, t.rows[i], rd, raster))
  }

  /** The local branch as a whole: the column of per-row values, or the first
      exception. */
  function LocalSpec(t: Table, rd: RasterDict, raster: Raster): (r: Result<Table, Fault>)
    ensures r.Ok? ==> r.value.crs == t.crs && |r.value.rows| == |t.rows|
    ensures |t.rows| == 0 ==> r == Ok(t)
  {
    var cells := LocalCells(t, rd, raster);
    match Collect(cells)
    case Err(e) => Err(e)
    case Ok(values) => Ok(AddColumn(t, rd.dataName, values))
  }

  /** When every row yields a value, the branch stores exactly those values. */
  lemma {:induction false} LocalSpecSucceeds(t: Table, rd: RasterDict, raster: Raster, values: seq<Value>)
    requires |values| == |t.rows|
    requires forall k :: 0 <= k < |t.rows| ==> LocalValue(t.crs, t.rows[k], rd, raster) == Ok(values[k])
    ensures LocalSpec(t, rd, raster) == Ok(AddColumn(t, rd.dataName, values))
  {
    CollectAllOk(LocalCells(t, rd, raster), values);
  }

  /** The first row that cannot be sampled decides the branch's error. */
  lemma {:induction false} LocalSpecFails(t: Table, rd: RasterDict, raster: Raster, i: int)
    requires 0 <= i < |t.rows|
    requires LocalValue(t.crs, t.rows[i], rd, raster).Err?
    requires forall k :: 0 <= k < i ==> LocalValue(t.crs, t.rows[k], rd, raster).Ok?
    ensures LocalSpec(t, rd, raster) == Err(LocalValue(t.crs, t.rows[i], rd, raster).error)
  {
    var cells := LocalCells(t, rd, raster);
    assert FirstFailureAt(cells, i);
    CollectStopsAtFirstFailure(cells, i);
  }

  /** The number of rows among the first `i` whose tile reference is missing
      (`nnan` after `i` rows). */
  function MissingCount(rows: seq<Row>, i: int): (k: nat)
    requires 0 <= i <= |rows|
    ensures k <= i
    decreases i
  {
    if i == 0 then 0
    else MissingCount(rows, i - 1) + (if rows[i - 1].tile.None? then 1 else 0)
  }

  /** The tile paths the local branch samples for the first `i` rows, in row
      order: one per row that has a tile reference (each is opened twice,
      once for its system and once to sample it). */
  function OpenedPaths(rows: seq<Row>, i: int, dataDir: string): seq<string>
    requires 0 <= i <= |rows|
    decreases i
  {
    if i == 0 then []
    else
      var last := rows[i - 1];
      OpenedPaths(rows, i - 1, dataDir)
        + (if last.tile.Some? then [PosixPath.Join(dataDir, last.tile.value)] else [])
  }

  /** Every row is either counted as NaN or contributes exactly one tile path. */
  lemma {:induction false} OpenedPlusMissing(rows: seq<Row>, i: int, dataDir: string)
    requires 0 <= i <= |rows|
    ensures |OpenedPaths(rows, i, dataDir)| + MissingCount(rows, i) == i
    decreases i
  {
    if i > 0 {
      OpenedPlusMissing(rows, i - 1, dataDir);
    }
  }

  /** The values of the local branch's loop: one per row, stopping at the
      first exception; `n` counts the rows the loop reached. */
  method LocalLoop(t: Table, rd: RasterDict, raster: Raster)
    returns (r: Result<seq<Value>, Fault>, n: nat)
    ensures r == Collect(LocalCells(t, rd, raster))
    ensures n <= |t.rows|
    ensures r.Ok? ==> n == |t.rows|
  {
    ghost var cells := LocalCells(t, rd, raster);
    var values: seq<Value> := [];
    n := 0;
    while n < |t.rows|
      invariant n <= |t.rows| && |values| == n
      invariant forall k :: 0 <= k < n ==> cells[k] == Ok(values[k])
    {
      var cell := LocalValue(t.crs, t.rows[n], rd, raster);
      assert cells[n] == cell;
      if cell.Err? {
        assert FirstFailureAt(cells, n);
        CollectStopsAtFirstFailure(cells, n);
        return Err(cell.error), n + 1;
      }
      ghost var before := values;
      values := values + [cell.value];
      assert forall k :: 0 <= k < n ==> values[k] == before[k];
      n := n + 1;
    }
    CollectAllOk(cells, values);
    r := Ok(values);
  }

  /** The `nnan` tally of the local branch's loop over its first `m` rows, and
      the tile paths it samples on the way. */
  method LocalTally(rows: seq<Row>, m: nat, dataDir: string) returns (nnan: nat, tilesOpened: seq<string>)
    requires m <= |rows|
    ensures nnan == MissingCount(rows, m) && nnan <= m
    ensures tilesOpened == OpenedPaths(rows, m, dataDir) && |tilesOpened| == m - nnan
  {
    nnan, tilesOpened := 0, [];
    var i := 0;
    while i < m
      invariant i <= m
      invariant nnan == MissingCount(rows, i)
      invariant tilesOpened == OpenedPaths(rows, i, dataDir)
    {
      if rows[i].tile.None? {
        nnan := nnan + 1;
      } else {
        tilesOpened := tilesOpened + [PosixPath.Join(dataDir, rows[i].tile.value)];
      }
      i := i + 1;
    }
    OpenedPlusMissing(rows, m, dataDir);
  }

  /** The local branch of `ExtractTiledRaster`, with its `n`/`nnan` tally and
      the tile paths it samples. The tally depends on the rows alone, so it is
      taken over the rows the value loop reached. */
  method ExtractLocal(t: Table, rd: RasterDict, raster: Raster)
    returns (r: Result<Table, Fault>, n: nat, nnan: nat, tilesOpened: seq<string>)
    ensures r == LocalSpec(t, rd, raster)
    ensures r.Ok? ==> n == |t.rows| && nnan == MissingCount(t.rows, n) && nnan <= n
    ensures r.Ok? ==> tilesOpened == OpenedPaths(t.rows, n, rd.dataDir) && |tilesOpened| == n - nnan
  {
    var values;
    values, n := LocalLoop(t, rd, raster);
    nnan, tilesOpened := LocalTally(t.rows, n, rd.dataDir);
    if values.Err? {
      return Err(values.error), n, nnan, tilesOpened;
    }
    r := Ok(AddColumn(t, rd.dataName, values.value));
  }

  /** The local branch keeps every row, in order, adds one value to each, and
      stores NaN for exactly the rows it could not resolve to a tile; it fails
      only when a referenced tile cannot be opened. */
  lemma {:induction false} LocalKeepsRows(t: Table, rd: RasterDict, raster: Raster)
    ensures LocalSpec(t, rd, raster).Ok? <==>
              forall i :: 0 <= i < |t.rows| && t.rows[i].tile.Some? ==>
                raster.open(PosixPath.Join(rd.dataDir, t.rows[i].tile.value)).Some?
    ensures LocalSpec(t, rd, raster).Ok? ==>
              var out := LocalSpec(t, rd, raster).value;
              && out.crs == t.crs
              && |out.rows| == |t.rows|
              && (forall i :: 0 <= i < |t.rows| ==>
                    out.rows[i] == SetCell(t.rows[i], rd.dataName, Cell(out.rows[i], rd.dataName)))
              && (forall i :: 0 <= i < |t.rows| && t.rows[i].tile.None? ==> Cell(out.rows[i], rd.dataName) == NaN)
              && (forall i :: 0 <= i < |t.rows| && t.rows[i].tile.Some? ==>
                    var path := PosixPath.Join(rd.dataDir, t.rows[i].tile.value);
                    && raster.open(path).Some?
                    && Cell(out.rows[i], rd.dataName)
                         == raster.pointQuery(path, Reproject(raster.transform, t.crs, raster.open(path).value, t.rows[i].geom)))
  {
    var cells := LocalCells(t, rd, raster);
    assert forall i :: 0 <= i < |t.rows| ==> cells[i] == LocalValue(t.crs, t.rows[i], rd, raster);
    forall i | 0 <= i < |t.rows| && t.rows[i].tile.Some? {
      LocalValueSamples(t.crs, t.rows[i], rd, raster);
    }
  }

  // ---------------------------------------------------------------------
  // S3 tiled branch

  /** `sample[0][bandnum - 1]`: bands are numbered from 1, and Python's negative
      indexing makes band 0 the last band. */
  function PickBand(bands: seq<Value>, bandnum: int): (r: Result<Value, Fault>)
    ensures 1 <= bandnum <= |bands| ==> r == Ok(bands[bandnum - 1])
    ensures bandnum == 0 && |bands| > 0 ==> r == Ok(bands[|bands| - 1])
    ensures r.Err? <==> !(-|bands| < bandnum <= |bands|)
    ensures r.Ok? ==> r.value in bands
  {
    var k := bandnum - 1;
    if 0 <= k < |bands| then Ok(bands[k])
    else if -|bands| <= k < 0 then Ok(bands[|bands| + k])
    else Err(BandIndexOutOfRange(bandnum, |bands|))
  }

  /** The raster at `url` opens and its sample at point `p` (given in system
      `frameCrs`) has a band numbered `bandnum`. */
  predicate Samplable(url: string, p: Pt, frameCrs: Crs, bandnum: int, raster: Raster) {
    && raster.open(url).Some?
    && var bands := raster.sample(url, Reproject(raster.transform, frameCrs, raster.open(url).value, p));
       -|bands| < bandnum <= |bands|
  }

  /** `do_s3_point_query(url, frame, col, bandnum)` on the one-row frame
      holding `row`: open the raster, reproject the row into its system, and
      store the chosen band of the sample at that point under `col`. */
  function S3PointQuery(url: string, row: Row, frameCrs: Crs, col: string, bandnum: int, raster: Raster)
    : (r: Result<Table, Fault>)
    ensures raster.open(url).None? ==> r == Err(RasterOpenFailed(url))
    ensures r.Ok? ==> raster.open(url) == Some(r.value.crs) && |r.value.rows| == 1
    ensures r.Ok? ==>
              var p := Reproject(raster.transform, frameCrs, r.value.crs, row.geom);
              && r.value.rows[0].geom == p
              && PickBand(raster.sample(url, p), bandnum) == Ok(Cell(r.value.rows[0], col))
              && r.value.rows[0] == SetCell(row.(geom := p), col, Cell(r.value.rows[0], col))
  {
    match raster.open(url)
    case None => Err(RasterOpenFailed(url))
    case Some(datasetCrs) =>
      var moved := row.(geom := Reproject(raster.transform, frameCrs, datasetCrs, row.geom));
      var v :- PickBand(raster.sample(url, moved.geom), bandnum);
      Ok(Table(datasetCrs, [SetCell(moved, col, v)]))
  }

  /** The point query succeeds exactly when the raster opens and has the
      requested band at the reprojected point. */
  lemma S3PointQueryOk(url: string, row: Row, frameCrs: Crs, col: string, bandnum: int, raster: Raster)
    ensures S3PointQuery(url, row, frameCrs, col, bandnum, raster).Ok? <==> Samplable(url, row.geom, frameCrs, bandnum, raster)
  {
  }

  /** Some row before position `i` had a string tile path. */
  predicate PathSeen(rows: seq<Row>, i: int) {
    exists j :: 0 <= j < i && j < |rows| && rows[j].tile.Some?
  }

  /** `col_name` on entry to row `i`: the raw `data_name` until a row with a
      string path has been processed with a year given, the substituted name
      from then on. */
  function ColumnBefore(rows: seq<Row>, i: int, dataName: string, year: Option<int>): (c: string)
    ensures c == dataName || c == SubstituteColumn(dataName, year)
    ensures !PathSeen(rows, i) ==> c == dataName
  {
    if year.Some? && PathSeen(rows, i) then SubstituteColumn(dataName, year) else dataName
  }

  /** `col_name` while row `i` is processed (after its own update, if any). */
  function ColumnAt(rows: seq<Row>, i: int, dataName: string, year: Option<int>): (c: string)
    requires 0 <= i < |rows|
    ensures c == ColumnBefore(rows, i + 1, dataName, year)
  {
    assert PathSeen(rows, i + 1) <==> PathSeen(rows, i) || rows[i].tile.Some?;
    if rows[i].tile.Some? && year.Some? then SubstituteColumn(dataName, year)
    else ColumnBefore(rows, i, dataName, year)
  }

  /** The single-row frame the S3 loop appends for row `i`, already
      reprojected back to the table's system. The row is picked with
      `iloc[[index]]`, by the row's index label used as a position. */
  function S3Frame(t: Table, i: int, rd: RasterDict, year: Option<int>, bandnum: int, raster: Raster)
    : (r: Result<Table, Fault>)
    requires 0 <= i < |t.rows|
    ensures r.Ok? ==> |r.value.rows| == 1 && r.value.crs == t.crs
  {
    var row := t.rows[i];
    var col := ColumnAt(t.rows, i, rd.dataName, year);
    match Iloc(t, row.index)
    case None => Err(RowPositionOutOfRange(row.index, |t.rows|))
    case Some(picked) =>
      if row.tile.Some? then
        var frame :- S3PointQuery(SubstitutePath(row.tile.value, year), picked, t.crs, col, bandnum, raster);
        Ok(ToCrs(frame, t.crs, raster.transform))
      else
        Ok(ToCrs(Table(t.crs, [SetCell(picked, col, NaN)]), t.crs, raster.transform))
  }

  /** The frame for row `i` is built exactly when the row's label is a
      position of the table and, for a row with a string path, the
      year-substituted raster opens and has the requested band at the picked
      row's point; a label that is not a position raises the IndexError. */
  lemma {:induction false} S3FrameOk(t: Table, i: int, rd: RasterDict, year: Option<int>, bandnum: int, raster: Raster)
    requires 0 <= i < |t.rows|
    ensures S3Frame(t, i, rd, year, bandnum, raster).Ok? <==>
              && Iloc(t, t.rows[i].index).Some?
              && (t.rows[i].tile.Some? ==>
                    Samplable(SubstitutePath(t.rows[i].tile.value, year), Iloc(t, t.rows[i].index).value.geom, t.crs, bandnum, raster))
    ensures Iloc(t, t.rows[i].index).None? ==>
              S3Frame(t, i, rd, year, bandnum, raster) == Err(RowPositionOutOfRange(t.rows[i].index, |t.rows|))
  {
    var row := t.rows[i];
    if Iloc(t, row.index).Some? && row.tile.Some? {
      S3PointQueryOk(SubstitutePath(row.tile.value, year), Iloc(t, row.index).value, t.crs,
                     ColumnAt(t.rows, i, rd.dataName, year), bandnum, raster);
    }
  }

  /** The per-row frames of the S3 branch, in row order. */
  function S3Frames(t: Table, rd: RasterDict, year: Option<int>, bandnum: int, raster: Raster)
    : (frames: seq<Result<Table, Fault>>)
    ensures |frames| == |t.rows|
    ensures forall i :: 0 <= i < |t.rows| ==> frames[i] == S3Frame(t, i, rd, year, bandnum, raster)
  {
    seq(|t.rows|, i requires 0 <= i < |t.rows| => S3Frame(t, i, rd, year, bandnum, raster))
  }

  /** The S3 branch as a whole: the concatenation of the per-row frames, the
      first exception, or the ValueError of `pd.concat([])` on an empty table. */
  function S3Spec(t: Table, rd: RasterDict, year: Option<int>, bandnum: int, raster: Raster)
    : (r: Result<Table, Fault>)
    ensures r.Ok? ==> r.value.crs == t.crs
    ensures |t.rows| == 0 ==> r == Err(NothingToConcatenate)
  {
    var frames := S3Frames(t, rd, year, bandnum, raster);
    match Collect(frames)
    case Err(e) => Err(e)
    case Ok(fs) => if |fs| == 0 then Err(NothingToConcatenate) else Ok(Concat(t.crs, fs))
  }

  /** When every row yields its frame, the branch concatenates exactly
      those frames (or fails on an empty table). */
  lemma {:induction false} S3SpecSucceeds(t: Table, rd: RasterDict, year: Option<int>, bandnum: int, raster: Raster, appended: seq<Table>)
    requires |appended| == |t.rows|
    requires forall k :: 0 <= k < |t.rows| ==> S3Frame(t, k, rd, year, bandnum, raster) == Ok(appended[k])
    ensures S3Spec(t, rd, year, bandnum, raster)
            == if |appended| == 0 then Err(NothingToConcatenate) else Ok(Concat(t.crs, appended))
  {
    CollectAllOk(S3Frames(t, rd, year, bandnum, raster), appended);
  }

  /** The first row whose frame fails decides the branch's error. */
  lemma {:induction false} S3SpecFails(t: Table, rd: RasterDict, year: Option<int>, bandnum: int, raster: Raster, i: int)
    requires 0 <= i < |t.rows|
    requires S3Frame(t, i, rd, year, bandnum, raster).Err?
    requires forall k :: 0 <= k < i ==> S3Frame(t, k, rd, year, bandnum, raster).Ok?
    ensures S3Spec(t, rd, year, bandnum, raster) == Err(S3Frame(t, i, rd, year, bandnum, raster).error)
  {
    var frames := S3Frames(t, rd, year, bandnum, raster);
    assert FirstFailureAt(frames, i);
    CollectStopsAtFirstFailure(frames, i);
  }

  /** The S3 branch succeeds exactly when the table has a row and every row's
      frame can be built. */
  lemma {:induction false} S3SpecOk(t: Table, rd: RasterDict, year: Option<int>, bandnum: int, raster: Raster)
    ensures S3Spec(t, rd, year, bandnum, raster).Ok? <==>
              |t.rows| > 0 && forall i :: 0 <= i < |t.rows| ==> S3Frame(t, i, rd, year, bandnum, raster).Ok?
  {
    var frames := S3Frames(t, rd, year, bandnum, raster);
    assert forall i :: 0 <= i < |t.rows| ==> frames[i] == S3Frame(t, i, rd, year, bandnum, raster);
  }

  /** On a default-indexed table the S3 branch succeeds exactly when the table
      has a row and, for every row with a string path, the year-substituted
      raster opens and its sample at the row's point has the requested band. */
  lemma {:induction false} S3SpecOkOnDefaultIndex(t: Table, rd: RasterDict, year: Option<int>, bandnum: int, raster: Raster)
    requires DefaultIndexed(t.rows)
    ensures S3Spec(t, rd, year, bandnum, raster).Ok? <==>
              && |t.rows| > 0
              && forall i :: 0 <= i < |t.rows| && t.rows[i].tile.Some? ==>
                   Samplable(SubstitutePath(t.rows[i].tile.value, year), t.rows[i].geom, t.crs, bandnum, raster)
  {
    S3SpecOk(t, rd, year, bandnum, raster);
    forall i | 0 <= i < |t.rows|
      ensures S3Frame(t, i, rd, year, bandnum, raster).Ok? <==>
                (t.rows[i].tile.Some? ==>
                   Samplable(SubstitutePath(t.rows[i].tile.value, year), t.rows[i].geom, t.crs, bandnum, raster))
    {
      IlocOwnLabel(t, i);
      S3FrameOk(t, i, rd, year, bandnum, raster);
    }
  }

  /** One pass of the S3 loop body: update `col_name` and the URL when the
      row has a string path and a year is given, pick the row by its label,
      query the raster when the row has a string path, and bring the frame
      back to the table's system. */
  method S3Step(t: Table, i: int, rd: RasterDict, year: Option<int>, bandnum: int, raster: Raster, col: string)
    returns (r: Result<Table, Fault>, col': string)
    requires 0 <= i < |t.rows|
    requires col == ColumnBefore(t.rows, i, rd.dataName, year)
    ensures r == S3Frame(t, i, rd, year, bandnum, raster)
    ensures col' == ColumnBefore(t.rows, i + 1, rd.dataName, year)
  {
    var row := t.rows[i];
    var url := if row.tile.Some? then row.tile.value else "";
    col' := col;
    if row.tile.Some? && year.Some? {
      url := SubstitutePath(url, year);
      col' := SubstituteColumn(rd.dataName, year);
    }
    assert col' == ColumnAt(t.rows, i, rd.dataName, year);
    var picked := Iloc(t, row.index);
    if picked.None? {
      return Err(RowPositionOutOfRange(row.index, |t.rows|)), col';
    }
    if row.tile.Some? {
      var queried := S3PointQuery(url, picked.value, t.crs, col', bandnum, raster);
      if queried.Err? {
        return Err(queried.error), col';
      }
      r := Ok(ToCrs(queried.value, t.crs, raster.transform));
    } else {
      r := Ok(ToCrs(Table(t.crs, [SetCell(picked.value, col', NaN)]), t.crs, raster.transform));
    }
  }

  /** The loop of the S3 branch: carries `col_name` from row to row and
      appends one frame per row, stopping at the first exception. */
  method S3Loop(t: Table, rd: RasterDict, year: Option<int>, bandnum: int, raster: Raster)
    returns (r: Result<seq<Table>, Fault>)
    ensures r == Collect(S3Frames(t, rd, year, bandnum, raster))
  {
    ghost var frames := S3Frames(t, rd, year, bandnum, raster);
    var appended: seq<Table> := [];
    var col := rd.dataName;
    var i := 0;
    while i < |t.rows|
      invariant 0 <= i <= |t.rows| && |appended| == i
      invariant col == ColumnBefore(t.rows, i, rd.dataName, year)
      invariant forall k :: 0 <= k < i ==> frames[k] == Ok(appended[k])
    {
      var frame;
      frame, col := S3Step(t, i, rd, year, bandnum, raster, col);
      assert frames[i] == frame;
      if frame.Err? {
        assert FirstFailureAt(frames, i);
        CollectStopsAtFirstFailure(frames, i);
        return Err(frame.error);
      }
      ghost var before := appended;
      appended := appended + [frame.value];
      assert forall k :: 0 <= k < i ==> appended[k] == before[k];
      i := i + 1;
    }
    CollectAllOk(frames, appended);
    r := Ok(appended);
  }

  /** The S3 branch of `ExtractTiledRaster`: the loop's frames concatenated,
      or the `ValueError` of `pd.concat([])` on an empty table. */
  method ExtractS3(t: Table, rd: RasterDict, year: Option<int>, bandnum: int, raster: Raster)
    returns (r: Result<Table, Fault>)
    ensures r == S3Spec(t, rd, year, bandnum, raster)
  {
    var appended := S3Loop(t, rd, year, bandnum, raster);
    if appended.Err? {
      return Err(appended.error);
    }
    if |appended.value| == 0 {
      r := Err(NothingToConcatenate);
    } else {
      r := Ok(Concat(t.crs, appended.value));
    }
  }

  /** When the S3 branch succeeds, its output row `i` is the single row of
      row `i`'s frame. */
  lemma {:induction false} S3OutputRow(t: Table, rd: RasterDict, year: Option<int>, bandnum: int, raster: Raster, i: int)
    requires 0 <= i < |t.rows|
    requires S3Spec(t, rd, year, bandnum, raster).Ok?
    ensures S3Frame(t, i, rd, year, bandnum, raster).Ok?
    ensures |S3Spec(t, rd, year, bandnum, raster).value.rows| == |t.rows|
    ensures S3Spec(t, rd, year, bandnum, raster).value.rows[i] == S3Frame(t, i, rd, year, bandnum, raster).value.rows[0]
  {
    var frames := S3Frames(t, rd, year, bandnum, raster);
    var fs := Collect(frames).value;
    assert forall k :: 0 <= k < |t.rows| ==> frames[k] == Ok(fs[k]);
    assert S3Spec(t, rd, year, bandnum, raster).value == Concat(t.crs, fs);
  }

  /** The frame of a default-indexed row with a string path holds, under
      `col_name`, the chosen band of the sample taken from the row's own
      (year-substituted) path at the row's point. */
  lemma {:induction false} S3FrameSample(t: Table, i: int, rd: RasterDict, year: Option<int>, bandnum: int, raster: Raster)
    requires DefaultIndexed(t.rows)
    requires 0 <= i < |t.rows| && t.rows[i].tile.Some?
    requires S3Frame(t, i, rd, year, bandnum, raster).Ok?
    ensures
      var url := SubstitutePath(t.rows[i].tile.value, year);
      && raster.open(url).Some?
      && PickBand(raster.sample(url, Reproject(raster.transform, t.crs, raster.open(url).value, t.rows[i].geom)), bandnum)
           == Ok(Cell(S3Frame(t, i, rd, year, bandnum, raster).value.rows[0], ColumnAt(t.rows, i, rd.dataName, year)))
  {
    IlocOwnLabel(t, i);
  }

  /** The frame for row `i` of a default-indexed table is that row with one
      more column: `col_name` as it stood at the row, NaN there when the row
      has no string path, and every other column untouched. */
  lemma {:induction false} S3FrameRow(t: Table, i: int, rd: RasterDict, year: Option<int>, bandnum: int, raster: Raster)
    requires DefaultIndexed(t.rows)
    requires 0 <= i < |t.rows|
    requires S3Frame(t, i, rd, year, bandnum, raster).Ok?
    ensures
      var row := S3Frame(t, i, rd, year, bandnum, raster).value.rows[0];
      var col := ColumnAt(t.rows, i, rd.dataName, year);
      && row.index == t.rows[i].index
      && row.tile == t.rows[i].tile
      && (t.rows[i].tile.None? ==> row == SetCell(t.rows[i], col, NaN))
      && (forall c :: c != col ==> Cell(row, c) == Cell(t.rows[i], c))
  {
    IlocOwnLabel(t, i);
    var col := ColumnAt(t.rows, i, rd.dataName, year);
    var src := t.rows[i];
    if src.tile.Some? {
      var url := SubstitutePath(src.tile.value, year);
      var queried := S3PointQuery(url, src, t.crs, col, bandnum, raster);
      assert queried.Ok?;
      var q := queried.value.rows[0];
      assert q == SetCell(src.(geom := q.geom), col, Cell(q, col));
    }
  }

  /** The S3 branch keeps the length and order of its input: on a
      default-indexed table, output row `i` is input row `i` with one more
      column, `col_name` as it stood at that row; a row without a string path
      gets NaN there, and no other column changes. */
  lemma {:induction false} S3KeepsRows(t: Table, rd: RasterDict, year: Option<int>, bandnum: int, raster: Raster)
    requires DefaultIndexed(t.rows)
    ensures S3Spec(t, rd, year, bandnum, raster).Ok? ==>
              var out := S3Spec(t, rd, year, bandnum, raster).value;
              && out.crs == t.crs
              && |out.rows| == |t.rows|
              && forall i :: 0 <= i < |t.rows| ==>
                   var col := ColumnAt(t.rows, i, rd.dataName, year);
                   && out.rows[i].index == t.rows[i].index
                   && out.rows[i].tile == t.rows[i].tile
                   && (t.rows[i].tile.None? ==> out.rows[i] == SetCell(t.rows[i], col, NaN))
                   && (forall c :: c != col ==> Cell(out.rows[i], c) == Cell(t.rows[i], c))
  {
    var frames := S3Frames(t, rd, year, bandnum, raster);
    if S3Spec(t, rd, year, bandnum, raster).Ok? {
      var fs := Collect(frames).value;
      var out := S3Spec(t, rd, year, bandnum, raster).value;
      assert out == Concat(t.crs, fs);
      forall i | 0 <= i < |t.rows|
        ensures |fs[i].rows| == 1
      {
        assert frames[i] == Ok(fs[i]);
      }
      forall i | 0 <= i < |t.rows|
        ensures
          var col := ColumnAt(t.rows, i, rd.dataName, year);
          && out.rows[i].index == t.rows[i].index
          && out.rows[i].tile == t.rows[i].tile
          && (t.rows[i].tile.None? ==> out.rows[i] == SetCell(t.rows[i], col, NaN))
          && (forall c :: c != col ==> Cell(out.rows[i], c) == Cell(t.rows[i], c))
      {
        assert frames[i] == Ok(fs[i]);
        assert out.rows[i] == fs[i].rows[0];
        S3FrameRow(t, i, rd, year, bandnum, raster);
      }
    }
  }

  /** `iloc[[idx]]` uses the index label as a position: a row whose label
      is not a position of the table (outside -n..n-1) makes the branch fail,
      and when every earlier row's frame was built, it fails with that row's
      IndexError. */
  lemma {:induction false} S3NeedsDefaultIndex(t: Table, rd: RasterDict, year: Option<int>, bandnum: int, raster: Raster, i: int)
    requires 0 <= i < |t.rows|
    requires !(-|t.rows| <= t.rows[i].index < |t.rows|)
    ensures S3Spec(t, rd, year, bandnum, raster).Err?
    ensures (forall k :: 0 <= k < i ==> S3Frame(t, k, rd, year, bandnum, raster).Ok?) ==>
              S3Spec(t, rd, year, bandnum, raster) == Err(RowPositionOutOfRange(t.rows[i].index, |t.rows|))
  {
    S3SpecOk(t, rd, year, bandnum, raster);
    S3FrameOk(t, i, rd, year, bandnum, raster);
    if forall k :: 0 <= k < i ==> S3Frame(t, k, rd, year, bandnum, raster).Ok? {
      S3SpecFails(t, rd, year, bandnum, raster, i);
    }
  }

  /** A row without a string path that comes before every row with one gets its
      NaN under the raw `data_name`, even when a year is requested. */
  lemma {:induction false} S3EarlyMissingUsesRawName(t: Table, rd: RasterDict, year: Option<int>, bandnum: int, raster: Raster, i: int)
    requires DefaultIndexed(t.rows)
    requires 0 <= i < |t.rows|
    requires forall j :: 0 <= j <= i ==> t.rows[j].tile.None?
    requires S3Spec(t, rd, year, bandnum, raster).Ok?
    ensures Cell(S3Spec(t, rd, year, bandnum, raster).value.rows[i], rd.dataName) == NaN
    ensures S3Spec(t, rd, year, bandnum, raster).value.rows[i] == SetCell(t.rows[i], rd.dataName, NaN)
  {
    S3KeepsRows(t, rd, year, bandnum, raster);
    assert !PathSeen(t.rows, i + 1);
    assert ColumnAt(t.rows, i, rd.dataName, year) == rd.dataName;
  }

  /** With a year given, a row without a string path that comes after a row
      with one gets its NaN under the substituted column name: `col_name`
      keeps the last value assigned to it. */
  lemma {:induction false} S3LateMissingUsesYearName(t: Table, rd: RasterDict, y: int, bandnum: int, raster: Raster, i: int, j: int)
    requires DefaultIndexed(t.rows)
    requires 0 <= j < i < |t.rows|
    requires t.rows[j].tile.Some? && t.rows[i].tile.None?
    requires S3Spec(t, rd, Some(y), bandnum, raster).Ok?
    ensures S3Spec(t, rd, Some(y), bandnum, raster).value.rows[i]
            == SetCell(t.rows[i], SubstituteColumn(rd.dataName, Some(y)), NaN)
  {
    S3KeepsRows(t, rd, Some(y), bandnum, raster);
    assert PathSeen(t.rows, i + 1);
    assert ColumnAt(t.rows, i, rd.dataName, Some(y)) == SubstituteColumn(rd.dataName, Some(y));
  }

  /** With a year given, a row with a string path is sampled from its own path
      with the year token substituted, and the chosen band is stored under the
      substituted column name — both computed from the originals, whatever
      earlier rows did. */
  lemma {:induction false} S3RowUsesYear(t: Table, rd: RasterDict, y: int, bandnum: int, raster: Raster, i: int)
    requires DefaultIndexed(t.rows)
    requires 0 <= i < |t.rows| && t.rows[i].tile.Some?
    requires S3Spec(t, rd, Some(y), bandnum, raster).Ok?
    ensures
      var url := SubstitutePath(t.rows[i].tile.value, Some(y));
      var col := SubstituteColumn(rd.dataName, Some(y));
      var out := S3Spec(t, rd, Some(y), bandnum, raster).value.rows[i];
      && raster.open(url).Some?
      && PickBand(raster.sample(url, Reproject(raster.transform, t.crs, raster.open(url).value, t.rows[i].geom)), bandnum)
           == Ok(Cell(out, col))
  {
    S3OutputRow(t, rd, Some(y), bandnum, raster, i);
    S3FrameSample(t, i, rd, Some(y), bandnum, raster);
    assert ColumnAt(t.rows, i, rd.dataName, Some(y)) == SubstituteColumn(rd.dataName, Some(y));
  }


  // ---------------------------------------------------------------------
  // Dispatch

  /** `ExtractTiledRaster` as a function of its inputs. */
  function TiledSpec(t: Table, rd: RasterDict, year: Option<int>, bandnum: int, raster: Raster)
    : (r: Result<Table, Fault>)
    ensures rd.location != "local" && rd.location != "s3" ==> r == Ok(t)
  {
    if rd.location == "local" then LocalSpec(t, rd, raster)
    else if rd.location == "s3" then S3Spec(t, rd, year, bandnum, raster)
    else Ok(t)
  }

  /** `ExtractTiledRaster(gdf, ras_dict, tcc_year, bandnum)`: an unrecognised
      location returns the input table unchanged. */
  method ExtractTiledRaster(t: Table, rd: RasterDict, year: Option<int>, bandnum: int, raster: Raster)
    returns (r: Result<Table, Fault>)
    ensures r == TiledSpec(t, rd, year, bandnum, raster)
    ensures rd.location != "local" && rd.location != "s3" ==> r == Ok(t)
    ensures r.Ok? && rd.location == "local" ==> |r.value.rows| == |t.rows|
    ensures r.Ok? && rd.location == "s3" ==> |r.value.rows| == |t.rows|
  {
    if rd.location == "local" {
      var n, nnan, tilesOpened;
      r, n, nnan, tilesOpened := ExtractLocal(t, rd, raster);
      LocalKeepsRows(t, rd, raster);
    } else if rd.location == "s3" {
      r := ExtractS3(t, rd, year, bandnum, raster);
      if r.Ok? {
        S3SpecOk(t, rd, year, bandnum, raster);
        S3OutputRow(t, rd, year, bandnum, raster, 0);
      }
    } else {
      r := Ok(t);
    }
  }

  // ---------------------------------------------------------------------
  // Untiled rasters

  /** `ExtractUntiledRaster(gdf, ras_dict)`: for a local raster the whole table
      is reprojected into the raster's system once and every point sampled; the
      S3 branch stops with a NameError (`rasterio` is not bound in that module);
      any other location returns nothing. */
  function ExtractUntiledRaster(t: Table, rd: RasterDict, raster: Raster): (r: Result<Option<Table>, Fault>)
    ensures rd.location == "s3" ==> r == Err(UnboundName("rasterio"))
    ensures rd.location != "local" && rd.location != "s3" ==> r == Ok(None)
    ensures rd.location == "local" ==>
              var path := PosixPath.Join(rd.dataDir, rd.fileName);
              (r.Ok? <==> raster.open(path).Some?)
              && (r.Ok? ==>
                    && r.value.Some?
                    && r.value.value.crs == raster.open(path).value
                    && |r.value.value.rows| == |t.rows|
                    && forall i :: 0 <= i < |t.rows| ==>
                         var p := Reproject(raster.transform, t.crs, r.value.value.crs, t.rows[i].geom);
                         r.value.value.rows[i] == SetCell(t.rows[i].(geom := p), rd.dataName, raster.pointQuery(path, p)))
  {
    if rd.location == "local" then
      var path := PosixPath.Join(rd.dataDir, rd.fileName);
      match raster.open(path)
      case None => Err(RasterOpenFailed(path))
      case Some(rasterCrs) =>
        var moved := ToCrs(t, rasterCrs, raster.transform);
        var values := seq(|moved.rows|, i requires 0 <= i < |moved.rows| => raster.pointQuery(path, moved.rows[i].geom));
        Ok(Some(AddColumn(moved, rd.dataName, values)))
    else if rd.location == "s3" then Err(UnboundName("rasterio"))
    else Ok(None)
  }
}
