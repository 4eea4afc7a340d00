# maap_tools extraction and tile download core, in Dafny

This project models two Python modules of `maap_tools` and proves properties
of the model.

- `lib/ExtractLib.py` samples covariate rasters at survey points.
  - `run_extract_tiled_covar_year` reprojects the points into the footprint
    index's system.
  - `clip_and_join` attaches to each point the tile that covers it.
  - `ExtractTiledRaster` walks the rows in order and samples each point from
    its own tile. Its local branch counts `n`/`nnan`. Its S3 branch
    substitutes the requested year into the tile path and the column name,
    and picks a 1-indexed band.
  - `ExtractUntiledRaster` samples one global raster.
- `lib/download_gee_tiles.py` downloads Earth Engine assets tile by tile.
  - `load_tiles_index` parses an optional comma list of tile numbers and
    filters the index by it.
  - `process_tile` names the output file (tile number zero-padded to 7
    digits), skips existing files and looks the tile up. It then dispatches
    on the asset type and downloads the tile. A partial file is removed when
    the download raises.
  - `main` runs every tile in order and tallies successes and failures.

The geospatial and remote libraries are oracles:

- Reprojection is a `Transform` function, and the identity when both systems
  agree.
- Raster opening and sampling are fields of `Extract.Raster`.
- Point-in-footprint is a `covers` predicate.
- Reading a file is an `Option` input.
- The filesystem is the set of existing paths.
- What Earth Engine and geedim do during one tile attempt is a
  `GeeTiles.Remote` record.

Python exceptions that escape the core are `Err` values: `Extract.Fault`,
`GeeTiles.LoadError` and `PyInt.ParseError`. Errors that `process_tile`
catches are `GeeTiles.Outcome` values.

The Python primitives the core relies on are modelled from their documented
behaviour:

- `str.replace`, `str.split`, `str.join` and `str.strip` are in `PyStr`.
- `str(int)`, `int(str)` and the `{n:07}` format are in `PyInt`.
- `os.path.join` is in `PosixPath`.
- `iloc`, `reset_index`, `to_crs`, `pd.concat` and column assignment are in
  `Frames`.

The loops of the source are methods (`Extract.LocalLoop` and
`Extract.LocalTally` inside `Extract.ExtractLocal`, `Extract.S3Loop` inside
`Extract.ExtractS3`, and `GeeTiles.RunTiles`). Each is proved equal to a
functional reference (`LocalSpec`, `S3Spec`, `RunReports`), and the
properties are lemmas about those references.

Where the code and its documentation disagree, the model follows the code:

- The docstrings say points are reprojected "to the raster". In the code,
  the joined table is in the footprint index's system. The local branch
  returns it in that system; the S3 branch converts every frame back to it.
- Exceptions are not isolated per point: the first failing row aborts the
  whole call (`Collect`).
- `ExtractUntiledRaster`'s S3 branch cannot work. `rasterio` is not bound in
  that module (`ExtractLib.py:94`), so it raises NameError
  (`Err(UnboundName("rasterio"))`).
- `run_extract_tiled_covar_year` with `has_joined=True` reaches line 214 with
  `joined_points_gdf` unbound, which is a NameError.
- With no year, the orchestrator dereferences `raster_dict` before checking
  it for None (line 194). A None dictionary is then a TypeError
  (`NoneNotSubscriptable`).
- The S3 loop selects rows with `iloc[[idx]]`, the index label used as a
  position. This is right only because the orchestrator calls
  `reset_index()` first. `Extract.S3NeedsDefaultIndex` shows the IndexError
  for any row whose label is not a position of the table.

## Model

| member | source | states |
|---|---|---|
| Extract.LocalValue | lib/ExtractLib.py:115-123 | a row with no tile reference yields NaN without opening any raster; a row with one fails exactly when the tile `data_dir/location` cannot be opened |
| Extract.LocalValueSamples | lib/ExtractLib.py:118-123 | a row whose tile opens gets that tile's point-query value at the point reprojected from the table's system into the tile's |
| Extract.LocalSpec | lib/ExtractLib.py:113-125 | a success is in the table's system with one row per input row; an empty table comes back unchanged |
| Extract.MissingCount | lib/ExtractLib.py:110-117 | `nnan` after `i` rows is at most `i`; that it counts the rows without a tile reference, one for each row that contributes no tile path, is `Extract.OpenedPlusMissing` |
| Extract.LocalLoop | lib/ExtractLib.py:113-123 | the loop's values are the per-row values in row order, or the first failing row's exception; it reaches every row when it succeeds |
| Extract.LocalTally | lib/ExtractLib.py:110-122 | after `m` rows `nnan` counts the rows without a tile reference, the tile paths sampled are one per referenced row in row order, and there are `m - nnan` of them |
| Extract.ExtractLocal | lib/ExtractLib.py:108-126 | the branch computes its reference result; on success `n` is the number of rows, `nnan` the number of rows without a tile reference, `nnan <= n`, and the tile paths sampled are one per referenced row, in row order, `n - nnan` of them |
| Extract.OpenedPlusMissing | lib/ExtractLib.py:110-126 | every row is either counted in `nnan` or contributes exactly one tile path |
| Extract.LocalSpecSucceeds | lib/ExtractLib.py:113-125 | when every row yields a value, the branch stores exactly those values as the new column |
| Extract.LocalSpecFails | lib/ExtractLib.py:113-123 | the first row whose tile cannot be opened decides the branch's exception |
| Extract.LocalKeepsRows | lib/ExtractLib.py:113-125 | the branch succeeds iff every referenced tile opens; then the table keeps its system, length and order, each row gains one value in the new column and nothing else changes; rows without a tile reference get NaN, and every other row gets its tile's point-query value at the point reprojected into the tile's system |
| Extract.PickBand | lib/ExtractLib.py:40 | band `bandnum` is element `bandnum - 1`; band 0 is the last band (negative indexing); an IndexError happens exactly outside `-len < bandnum <= len`; a chosen value is one of the bands |
| Extract.S3PointQuery | lib/ExtractLib.py:23-43 | an unopenable URL raises; otherwise the one-row frame is in the raster's system, its point is reprojected, the chosen band of the sample is stored under the column and nothing else changes |
| Extract.S3PointQueryOk | lib/ExtractLib.py:23-43 | the query succeeds exactly when the raster opens and its sample at the reprojected point has band `bandnum` (`-len < bandnum <= len`) |
| Extract.ColumnBefore | lib/ExtractLib.py:133-145 | `col_name` on entry to a row is the raw `data_name` or the substituted name, and it is the raw name while no row with a string path has been seen |
| Extract.ColumnAt | lib/ExtractLib.py:137-145 | the column name in use at a row is the name on entry to the next row |
| Extract.S3Frame | lib/ExtractLib.py:137-166 | every row that succeeds contributes exactly one frame, in the table's system |
| Extract.S3FrameOk | lib/ExtractLib.py:137-166 | a row's frame is built exactly when its label is a position of the table and, for a row with a string path, the year-substituted raster opens and has the band at the picked row's point; a label that is not a position raises IndexError |
| Extract.S3Frames | lib/ExtractLib.py:134-166 | the per-row frames are one per row, in row order |
| Extract.S3Spec | lib/ExtractLib.py:128-168 | a success is in the table's system; an empty table raises the ValueError of `pd.concat([])` |
| Extract.S3SpecOk | lib/ExtractLib.py:134-168 | the branch succeeds exactly when the table has a row and every row's frame is built |
| Extract.S3SpecOkOnDefaultIndex | lib/ExtractLib.py:134-168 | on a default-indexed table the branch succeeds exactly when the table has a row and every row with a string path has an openable year-substituted raster with the band at the row's point |
| Extract.S3SpecSucceeds | lib/ExtractLib.py:166-168 | when every row yields its frame, the result is the concatenation of those frames in order, or the ValueError of `pd.concat([])` on an empty table |
| Extract.S3SpecFails | lib/ExtractLib.py:134-168 | the first row whose frame fails decides the branch's exception |
| Extract.S3Step | lib/ExtractLib.py:137-166 | one pass of the loop body builds the row's frame and leaves `col_name` as it must stand on entry to the next row |
| Extract.S3Loop | lib/ExtractLib.py:132-166 | the loop's frames are the per-row frames in row order, or the first failing row's exception |
| Extract.ExtractS3 | lib/ExtractLib.py:128-168 | the branch concatenates the loop's frames, which is its reference result, or raises the first row's exception or the ValueError of `pd.concat([])` |
| Extract.S3OutputRow | lib/ExtractLib.py:166-168 | when the branch succeeds, output row `i` is the single row of row `i`'s frame |
| Extract.S3FrameSample | lib/ExtractLib.py:137-153 | on a default-indexed table a row with a string path holds, under the current column, the chosen band of the sample taken from its year-substituted path at its own point |
| Extract.S3FrameRow | lib/ExtractLib.py:153-166 | on a default-indexed table a row's frame keeps its label and tile, gets NaN under the current column when it has no string path, and changes no other column |
| Extract.S3KeepsRows | lib/ExtractLib.py:134-168 | on a default-indexed table the result has the input's system, length and order; each row keeps its label and tile reference, and no value column other than the current one changes (geometry: see Left out) |
| Extract.S3NeedsDefaultIndex | lib/ExtractLib.py:153-159 | a row whose label is not a position of the table (outside `-n..n-1`) makes the branch fail; when every earlier row's frame was built, it fails with that row's IndexError |
| Extract.S3EarlyMissingUsesRawName | lib/ExtractLib.py:133-160 | a row without a string path that precedes every row with one is the input row with NaN under the raw `data_name`, even when a year is requested |
| Extract.S3LateMissingUsesYearName | lib/ExtractLib.py:133-160 | with a year, a row without a string path that follows a row with one is the input row with NaN under the year-substituted column name |
| Extract.S3RowUsesYear | lib/ExtractLib.py:141-153 | with a year, a row with a string path is sampled from its year-substituted path and its band is stored under the year-substituted column, whatever earlier rows did |
| Extract.TiledSpec | lib/ExtractLib.py:108-170 | an unrecognised location returns the input table unchanged |
| Extract.ExtractTiledRaster | lib/ExtractLib.py:102-170 | dispatch on location; an unrecognised one returns the table unchanged; a successful local or S3 branch has one row per input row |
| Extract.ExtractUntiledRaster | lib/ExtractLib.py:79-100 | local: fails iff the raster does not open, otherwise every point is reprojected into the raster's system and sampled, in order; S3: NameError; other locations: None |
| YearToken.SubstitutePath | lib/ExtractLib.py:138-144 | with no year the path is unchanged; with a year the path split at `y2020` is rejoined with `y<year>` |
| YearToken.SubstituteColumn | lib/ExtractLib.py:145 | with no year the name is unchanged; with a year the name split at `tcc2020` is rejoined with `tcc<year>` |
| YearToken.Year2020IsIdentity | lib/ExtractLib.py:141-145 | asking for 2020 leaves both the path and the column name unchanged |
| YearToken.NoTokenIsIdentity | lib/ExtractLib.py:144-145 | a path or name without the token is unaffected by any year |
| YearToken.TokenPathPerYear | lib/ExtractLib.py:144 | the token itself becomes `y` followed by the year |
| YearToken.EveryTokenReplaced | lib/ExtractLib.py:144-145 | every token is replaced: the path (name) is cut at its tokens into token-free pieces that rejoin to it, and the substituted path (name) joins those pieces with `y<year>` (`tcc<year>`) |
| PyStr.ReplaceIsJoinOfSplit | lib/ExtractLib.py:144-145 | `str.replace` replaces every non-overlapping occurrence, left to right: it equals splitting at the pattern and joining with the replacement |
| PyStr.Replace | lib/ExtractLib.py:144-145 | with an empty pattern the result has `|s| + (|s|+1)·|rep|` characters: one copy of the replacement per position between characters and at both ends |
| PyStr.Split | lib/download_gee_tiles.py:100 | a split always gives at least one piece |
| PyStr.SplitPiecesAvoidSep | lib/ExtractLib.py:144-145 | no piece of a split contains the separator |
| PyStr.ReplaceBySelf | lib/ExtractLib.py:144-145 | replacing a pattern by itself is the identity |
| PyStr.ReplaceAbsent | lib/ExtractLib.py:144-145 | replacing an absent pattern is the identity |
| PyStr.JoinSplit | lib/download_gee_tiles.py:100 | joining the pieces of a split with the same separator gives back the string |
| PyStr.SplitJoin | lib/download_gee_tiles.py:100 | splitting at a character a join of separator-free pieces gives back the pieces |
| PyStr.Strip | lib/download_gee_tiles.py:100 | the result has no whitespace at either end and is the input with only whitespace removed from its ends |
| PyStr.StripUnchanged | lib/download_gee_tiles.py:100 | a string without whitespace at its ends is its own strip |
| PyInt.ParseInt | lib/download_gee_tiles.py:100 | `int(s)` succeeds exactly on an optional sign followed by at least one digit; a `-` sign gives a value `<= 0`, otherwise `>= 0`; a failure is the ValueError naming the text |
| PyInt.IntToString | lib/ExtractLib.py:144 | `str(n)` is digits for a non-negative number and `-` then digits for a negative one, with no leading zero |
| PyInt.FormatZeroPadded | lib/download_gee_tiles.py:114 | the field is exactly `width` characters or the width of `str(n)` when that is wider; digits for a non-negative number and `-` then digits for a negative one |
| PyInt.IntToStringFits | lib/download_gee_tiles.py:114 | a number from 0 below `10 ** w` has at most `w` digits, so `{n:07}` of such a tile is exactly seven characters |
| PyInt.ParseIntToString | lib/download_gee_tiles.py:100 | `int(str(n)) == n` for every integer |
| PyInt.ParseZeroPadded | lib/download_gee_tiles.py:114 | the zero-padded field reads back as the number, negative ones included |
| PyInt.FormatZeroPaddedInjective | lib/download_gee_tiles.py:114 | distinct numbers give distinct zero-padded fields |
| Results.Collect | lib/ExtractLib.py:113-168 | the list of results succeeds iff every element does, with the values in order; otherwise it is the error of a first failing element |
| Results.CollectStopsAtFirstFailure | lib/ExtractLib.py:113-168 | the error is that of the first failing element |
| TileJoin.Covering | lib/ExtractLib.py:73 | the footprints listed for a point are exactly the index's footprints that cover it, and no more than the index holds |
| TileJoin.CoveringAppend | lib/ExtractLib.py:73 | covering respects index order: for an index in two parts, the covering footprints are those of the first part followed by those of the second |
| TileJoin.CoveringOne | lib/ExtractLib.py:73 | a single footprint is listed exactly when it covers the point |
| TileJoin.Clip | lib/ExtractLib.py:72 | the clipped index holds exactly the footprints that meet some point |
| TileJoin.JoinPoint | lib/ExtractLib.py:73 | a point with no covering footprint yields one row with a NaN tile reference; otherwise one row per covering footprint, the `k`-th carrying the `k`-th footprint's tile reference; nothing else of the row changes |
| TileJoin.LeftJoin | lib/ExtractLib.py:73 | the left join has at least as many rows as points; that every point appears is `TileJoin.LeftJoinKeepsPoints` |
| TileJoin.LeftJoinKeepsPoints | lib/ExtractLib.py:73 | every point appears in the left join, with only its tile reference possibly changed |
| TileJoin.LeftJoinAddsNoRow | lib/ExtractLib.py:73 | every row of the left join is one of the points with only its tile reference possibly changed |
| TileJoin.ClipAndJoin | lib/ExtractLib.py:66-77 | `has_joined` is always True; the table keeps its system and has at least as many rows as points; that every point appears is `TileJoin.ClipAndJoinKeepsPoints` |
| TileJoin.ClipAndJoinKeepsPoints | lib/ExtractLib.py:66-77 | `clip_and_join` loses no point, whether or not footprints overlap |
| TileJoin.ClipAndJoinAddsNoPoint | lib/ExtractLib.py:66-77 | every row `clip_and_join` returns is one of the points with only its tile reference possibly changed |
| TileJoin.ClipKeepsCovering | lib/ExtractLib.py:72-73 | clipping loses no footprint that covers a point |
| TileJoin.LeftJoinOnePerPoint | lib/ExtractLib.py:73 | with disjoint footprints every point comes out exactly once, in order, with its covering tile's reference or NaN |
| TileJoin.ClipAndJoinKeepsEveryPoint | lib/ExtractLib.py:66-77 | with disjoint footprints `clip_and_join` keeps every point exactly once, in order, changing only its tile reference |
| Frames.SetCell | lib/ExtractLib.py:160 | assigning a column sets that column and leaves the label, geometry, tile and other columns alone |
| Frames.Relabel | lib/ExtractLib.py:217 | a relabelled row has the new label, its old label as a number in the `index` column, and the same geometry, tile and other columns |
| Frames.AddColumn | lib/ExtractLib.py:125 | the new column holds one value per row, in row order, and nothing else changes |
| Frames.ResetIndex | lib/ExtractLib.py:217 | rows keep their order and are relabelled 0..n-1; each keeps its geometry, tile and columns and gains its old label in the `index` column |
| Frames.Iloc | lib/ExtractLib.py:153-159 | a position selects from the front, a negative one from the back, anything else raises |
| Frames.IlocOwnLabel | lib/ExtractLib.py:153-159 | on a default-indexed table a row's own label selects that row |
| Frames.ToCrs | lib/ExtractLib.py:61-64 | every row is reprojected and nothing else changes; converting to the table's own system is the identity |
| Frames.Reproject | lib/ExtractLib.py:61-64 | reprojecting between equal systems leaves the point where it is |
| Frames.Concat | lib/ExtractLib.py:168 | concatenating one-row frames gives their rows, in order |
| PosixPath.Join | lib/ExtractLib.py:119 | an absolute second part replaces the first; otherwise the name follows the directory with exactly one `/` between them unless the directory is empty or already ends in `/` |
| PosixPath.JoinSeparator | lib/ExtractLib.py:119 | a relative name follows an empty directory or one ending in `/` directly, and any other directory after exactly one `/` |
| Orchestrator.JoinForExtraction | lib/ExtractLib.py:206-217 | the table handed to extraction is in the footprint index's system, labelled 0..n-1, and has at least as many rows as points; that every point appears is `Orchestrator.JoinForExtractionKeepsPoints` |
| Orchestrator.JoinForExtractionKeepsPoints | lib/ExtractLib.py:206-217 | every input point reaches extraction, reprojected into the index's system and relabelled with its old label in the `index` column, whether or not footprints overlap |
| Orchestrator.JoinKeepsEveryPoint | lib/ExtractLib.py:206-217 | with disjoint footprints row `i` is point `i` reprojected, labelled `i` with its old label in the `index` column, carrying its covering tile's reference or NaN; unmatched points are kept |
| Orchestrator.RunExtractTiledCovarYear | lib/ExtractLib.py:172-219 | None dictionary: None, or TypeError when no year is given; `has_joined`: NameError; unreadable footprints raise; otherwise the result is `ExtractTiledRaster` of the joined table, and with disjoint footprints a tiled result has one row per input point |
| GeeTiles.OutputFilename | lib/download_gee_tiles.py:114 | the name starts with `outdir/asset_type_year_scale` + `m_copdemtiles` and ends in `.tif`; for a non-negative tile the field between them is all digits, and for a tile from 0 to 9999999 it is exactly seven digits |
| GeeTiles.TileNumberFromFilename | lib/download_gee_tiles.py:114 | the field between that prefix and `.tif` reads back as the tile number |
| GeeTiles.OutputFilenameInjective | lib/download_gee_tiles.py:114-119 | distinct tiles of one job never share an output file |
| GeeTiles.ParseTileList | lib/download_gee_tiles.py:100 | on success there is one number per comma-separated piece, each the stripped piece parsed; failure means some piece is not an integer |
| GeeTiles.ParsePieces | lib/download_gee_tiles.py:100 | one `int(x.strip())` per piece, in order |
| GeeTiles.TileNumberText | lib/download_gee_tiles.py:100 | a number's text has no comma and reads back as the number |
| GeeTiles.ParseFormattedTileList | lib/download_gee_tiles.py:100 | a comma list of numbers parses back to exactly those numbers in order |
| GeeTiles.FilterIndex | lib/download_gee_tiles.py:101 | the filtered index holds exactly the rows whose tile number is listed |
| GeeTiles.FilterIndexFirst | lib/download_gee_tiles.py:125-130 | the first row of the filtered index is the earliest index row whose tile number is listed (what `iloc[0]` picks) |
| GeeTiles.FilterKeepsListedTiles | lib/download_gee_tiles.py:99-101 | a listed tile is in the filtered index iff it is in the full index |
| GeeTiles.LoadTilesIndex | lib/download_gee_tiles.py:93-108 | an unreadable index fails; with no list the index is returned whole; with a list that does not parse it fails; otherwise it is filtered to exactly the listed tiles |
| GeeTiles.AllTileNumbers | lib/download_gee_tiles.py:207 | one tile number per index row, in index order |
| GeeTiles.SelectImage | lib/download_gee_tiles.py:135-146 | a collection is filtered to a date window whose start reads back as the job's year and whose end as the next year, and its images are stacked band by band (`toBands`); an image is used directly; both come from the job's asset over the tile; any other type is unsupported |
| GeeTiles.YearStart | lib/download_gee_tiles.py:139-141 | the date `f'{year}-01-01'` reads back as the year |
| GeeTiles.CollectionWindowIsOneYear | lib/download_gee_tiles.py:139-141 | the collection date window starts on 1 January of the job's year and ends on 1 January of the next year |
| GeeTiles.ProcessTile | lib/download_gee_tiles.py:110-187 | only the tile's own output path can appear or disappear; an existing output is a success with no download; a success leaves the output in place |
| GeeTiles.ProcessTileOutcomes | lib/download_gee_tiles.py:117-187 | an unindexed tile fails with no request; a download is requested only for an indexed tile of a supported asset type, at its own path, in EPSG:4326 with the job's scale and resampling; True iff the file pre-existed or the download finished and left it; a raising download fails and leaves a file only if removing it raised |
| GeeTiles.ProcessTileDownloads | lib/download_gee_tiles.py:117-172 | a missing output, an indexed tile, a geometry that builds and an IMAGE or IMAGE_COLLECTION asset always lead to a download request over the tile's first index row, and the result is True exactly when the download finishes and leaves the file |
| GeeTiles.ProcessTileCleansUp | lib/download_gee_tiles.py:174-183 | a raising download leaves the output behind exactly when it had been written and removing it raised |
| GeeTiles.ProcessTileKeepsFiles | lib/download_gee_tiles.py:117-183 | processing a tile never deletes a file that existed before it |
| GeeTiles.ChainPrefix | lib/download_gee_tiles.py:217-232 | the reports of a prefix of the tile list are the prefix of the reports |
| GeeTiles.ChainAt | lib/download_gee_tiles.py:217-227 | tile `i` is processed at its position against the filesystem left by tile `i - 1` |
| GeeTiles.SuccessCount | lib/download_gee_tiles.py:229-232 | the `successful` tally never exceeds the number of reports; `GeeTiles.RunTiles` proves the loop's counter equals it |
| GeeTiles.SuccessCountExtremes | lib/download_gee_tiles.py:229-232 | the tally equals the number of tiles exactly when every tile succeeded, and is zero exactly when none did |
| GeeTiles.RunReports | lib/download_gee_tiles.py:217-227 | one report per listed tile |
| GeeTiles.RunReportAt | lib/download_gee_tiles.py:217-227 | each tile is processed by `process_tile` against the filesystem left by the tile before it |
| GeeTiles.RunProcessesInOrder | lib/download_gee_tiles.py:217-227 | every listed tile is processed exactly once, in list order |
| GeeTiles.FilesOnlyAccumulate | lib/download_gee_tiles.py:217-227 | when no step loses a file, the filesystem only grows along the run |
| GeeTiles.RunStepKeepsFiles | lib/download_gee_tiles.py:217-227 | a step of the run loses no file and leaves its own output when it succeeds |
| GeeTiles.RunKeepsSuccessfulFiles | lib/download_gee_tiles.py:217-232 | every tile reported successful still has its output file when the run ends |
| GeeTiles.RunTiles | lib/download_gee_tiles.py:214-232 | the loop computes the run's reference reports; `successful + failed` is the number of tiles, `successful` is the number of True results, and every successful tile's file exists at the end |
| GeeTiles.RunDownloads | lib/download_gee_tiles.py:189-237 | a load failure ends the run; otherwise the tiles run are the parsed list against the filtered index, or every indexed tile when no list is given, with total, successes and failures tallied |

## Left out

- Reprojection numerics (`pyproj`, `to_crs`, `shapely.ops.transform`) are an
  uninterpreted `Transform`. Only "no change when the systems agree" is
  modelled.
- Raster sampling (`rasterstats.point_query`, `dataset.sample`) and rasterio
  sessions and environments are oracles. For a single geometry,
  `point_query` returns a list; that value is opaque here.
- Polygon geometry in `gpd.clip` and `gpd.sjoin` is a `covers` oracle.
  - One-row-per-point results assume disjoint footprints.
  - The join's row order for points covered by several footprints is taken
    as index order.
  - The `index_right` column and the footprint attributes the join adds are
    not modelled.
- The tile-reference columns `location` (local) and `s3_path` (S3) are one
  `Option<string>` field. So the AttributeError or KeyError a table without
  that column would raise (lines 115, 137, 209) is not modelled. In
  particular `run_extract_tiled_covar_year` prints a count of the joined
  table's `s3_path` column (line 209) whatever the location is, so a local
  footprint index that has only a `location` column (line 70) raises
  KeyError there, before extraction; the model goes on to extract.
- Python `float` NaN in other columns is the `Value.NaN` constructor. Values
  are otherwise opaque reals.
- Output that does not change a result is not modelled: the `print`
  logging, the shape print at line 214, and the `n`/`nnan` message
  at line 126. The counts themselves are modelled.
- `DEBUG=True` is not modelled; the model is the `DEBUG=False` behaviour.
  Under `DEBUG` the S3 loop prints `point.index1` (line 136), which raises
  AttributeError unless the table has an `index1` column, so `DEBUG` can
  change the result.
- The local branch assigns the new column into the caller's GeoDataFrame
  (line 125) and returns that same object (line 170). The model returns a new
  table, so the change the caller sees through its own reference is not
  modelled.
- Every table has a coordinate system (`Crs`). The ValueError that `to_crs`
  raises on a table without one (lines 64, 166, 207), and the error of
  `Transformer.from_crs` with a missing system (line 59), are not modelled.
- Tile numbers are `int`. A `tile_num` column that pandas reads as float or
  text is not modelled. Without `--tile_list` the tiles come from that same
  column (line 207), so the `isin` lookup at line 125 still matches, but the
  output name at line 114 changes: `{5.0:07}` gives `00005.0`, and a text
  number is padded on the right (`5000000`) or, on older Pythons, raises a
  ValueError outside the `try` at line 123 and ends the run. Only a text
  column filtered with a `--tile_list` of integers (line 101) matches nothing.
- Each referenced tile in the local branch is opened twice: once by
  `get_transformation` (line 56, called at line 121) for its system, and once
  by `point_query` (line 53, called at line 122) to sample it. The model
  records one tile path per referenced row.
- The local branch's tally (`n`, `nnan`, the tile paths sampled) is computed in a
  second pass over the rows the value loop reached (`Extract.LocalTally`);
  the source does both in one loop.
- The `if False:` branch at lines 210-212 is dead code.
- `gdf.sindex` (line 74) only builds a spatial index.
- `parse_arguments`, `initialize_ee` and `os.makedirs` are command-line and
  credential plumbing. The tile list and the read index come in as
  parameters.
- Exceptions and warnings:
  - The `geedim` deprecation-warning filter is not modelled.
  - `ee.ImageCollection`/`ee.Image` construction, and `getAsset`'s `type`
    lookup raising, are folded into `AssetLookupFailed`. They are caught by
    the same handler.
  - A failure of the tile's `to_crs(4326)` or of `ee.Geometry` is
    `GeometryFailed`.
- PyInt.ParseInt: does not accept underscores between digits or non-ASCII
  digits, which Python's `int` does. Tile numbers are ASCII decimal.
- PyStr.Strip: strips the ASCII whitespace characters only, not every
  Unicode space Python's `str.strip` removes.
- `main` parses the tile list a second time (line 205). It gives the same
  list `load_tiles_index` already parsed, so `RunDownloads` reuses that
  parse. Its possible ValueError is unreachable once loading succeeded.
- GeeTiles.ProcessTile: its own contract states only the frame and skip
  properties. The full outcome analysis is the all-inputs lemma
  `GeeTiles.ProcessTileOutcomes`.
- GeeTiles.ProcessTileDownloads: its requires describe the scenario it is
  about (a missing output, an indexed tile, a supported asset). The other
  cases are stated by `GeeTiles.ProcessTileOutcomes`.
- Extract.S3KeepsRows: states nothing about a row's geometry. Each frame is
  reprojected into the raster's system (line 33) and back (line 166), and the
  two opaque reprojections are not assumed to be inverse.
- Frames.ResetIndex: when the table already has an `index` column, pandas
  names the new column `level_0`, or raises ValueError when that exists too.
  Neither is modelled.
- PyStr.Split: its own contract states only that there is at least one
  piece. That the pieces rejoin to the string is `PyStr.JoinSplit`, and that
  no piece contains the separator is `PyStr.SplitPiecesAvoidSep`.
- PyStr.Join: has no contract of its own. It is characterised by
  `PyStr.JoinSplit` and `PyStr.SplitJoin`.
- PyStr.Replace: for an empty pattern its own contract states only the
  result's length, not where the copies of the replacement go. For a
  non-empty pattern its meaning is `PyStr.ReplaceIsJoinOfSplit`.
