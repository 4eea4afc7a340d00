/** `download_gee_tiles.py`: choosing the tiles to fetch, naming their output
    files, deciding per tile whether to skip, download or give up, and
    tallying the run. Earth Engine, geedim and the filesystem are oracles: the
    filesystem is the set of existing paths, and each download attempt is
    described by what the remote side does. */
module GeeTiles {
  import opened Results
  import opened PyStr
  import opened PyInt
  import opened Frames

  /** One row of the tile index: its tile number and its footprint. */
  datatype TileRow = TileRow(tileNum: int, outline: Polygon)

  /** The command-line job shared by every tile. */
  datatype Job = Job(
    assetPath: string,
    assetType: string,
    year: int,
    scale: int,
    outdir: string,
    resampling: string)

  // ---------------------------------------------------------------------
  // Output file names

  const TileNumberWidth: int := 7

  /** Everything in the output name that does not depend on the tile. */
  function FilenameStem(job: Job): string {
    job.outdir + "/" + job.assetType + "_" + IntToString(job.year) + "_" + IntToString(job.scale) + "m_copdemtiles"
  }

  /** `f'{outdir}/{asset_type}_{year}_{scale}m_copdemtiles{focal_tile:07}.tif'`:
      a tile number from 0 to 9999999 takes exactly seven characters, a
      longer or negative one its own width. */
  function OutputFilename(job: Job, tile: int): (name: string)
    ensures |name| >= |FilenameStem(job)| + TileNumberWidth + 4
    ensures 0 <= tile ==> AllDigits(name[|FilenameStem(job)|..|name| - 4])
    ensures 0 <= tile < Pow10(TileNumberWidth) ==> |name| == |FilenameStem(job)| + TileNumberWidth + 4
    ensures FilenameStem(job) <= name
    ensures name[|name| - 4..] == ".tif"
  {
    IntToStringFits(tile, TileNumberWidth);
    FilenameStem(job) + FormatZeroPadded(tile, TileNumberWidth) + ".tif"
  }

  /** The tile number can be read back from the output name: what lies between
      the stem and `.tif` is the zero-padded number. */
  lemma {:induction false} TileNumberFromFilename(job: Job, tile: int)
    ensures
      var name := OutputFilename(job, tile);
      ParseInt(name[|FilenameStem(job)|..|name| - 4]) == Ok(tile)
  {
    var stem := FilenameStem(job);
    var field := FormatZeroPadded(tile, TileNumberWidth);
    var name := OutputFilename(job, tile);
    assert name == stem + field + ".tif";
    assert name[|stem|..|name| - 4] == field;
    ParseZeroPadded(tile, TileNumberWidth);
  }

  /** Distinct tiles of one job never share an output file, so the
      existence check skips a tile only when that tile's own file is there. */
  lemma {:induction false} OutputFilenameInjective(job: Job, a: int, b: int)
    requires OutputFilename(job, a) == OutputFilename(job, b)
    ensures a == b
  {
    TileNumberFromFilename(job, a);
    TileNumberFromFilename(job, b);
  }

  // ---------------------------------------------------------------------
  // Tile list and tile index

  /** Python truthiness of the optional `--tile_list` string. */
  predicate Given(tileList: Option<string>) {
    tileList.Some? && |tileList.value| > 0
  }

  /** `int(x.strip())` for every piece, in order. */
  function ParsePieces(parts: seq<string>): (parsed: seq<Result<int, ParseError>>)
    ensures |parsed| == |parts|
    ensures forall i :: 0 <= i < |parts| ==> parsed[i] == ParseInt(Strip(parts[i]))
  {
    seq(|parts|, i requires 0 <= i < |parts| => ParseInt(Strip(parts[i])))
  }

  /** `[int(x.strip()) for x in tile_list.split(',')]` */
  function ParseTileList(s: string): (r: Result<seq<int>, ParseError>)
    ensures r.Ok? ==> |r.value| == |Split(s, ",")|
    ensures r.Ok? ==> forall i :: 0 <= i < |r.value| ==> ParseInt(Strip(Split(s, ",")[i])) == Ok(r.value[i])
    ensures r.Err? ==> exists i :: 0 <= i < |Split(s, ",")| && ParseInt(Strip(Split(s, ",")[i])).Err?
  {
    var parsed := ParsePieces(Split(s, ","));
    Collect(parsed)
  }

  /** The comma list a user would type for `nums`. */
  function FormatTileList(nums: seq<int>): string
    requires |nums| >= 1
  {
    Join(seq(|nums|, i requires 0 <= i < |nums| => IntToString(nums[i])), ",")
  }

  /** The text of one tile number has no comma and reads back as that number
      after stripping. */
  lemma {:induction false} TileNumberText(n: int)
    ensures ',' !in IntToString(n)
    ensures ParseInt(Strip(IntToString(n))) == Ok(n)
  {
    var s := IntToString(n);
    if n < 0 {
      assert s == "-" + NatDigits(-n);
      assert forall k :: 1 <= k < |s| ==> s[k] == NatDigits(-n)[k - 1];
    }
    assert forall k :: 1 <= k < |s| ==> IsDigit(s[k]);
    assert s[0] == '-' || IsDigit(s[0]);
    assert forall k :: 0 <= k < |s| ==> s[k] != ',';
    StripUnchanged(s);
    ParseIntToString(n);
  }

  /** Reading back a comma list of tile numbers gives the numbers, in order. */
  lemma {:induction false} ParseFormattedTileList(nums: seq<int>)
    requires |nums| >= 1
    ensures ParseTileList(FormatTileList(nums)) == Ok(nums)
  {
    var pieces := seq(|nums|, i requires 0 <= i < |nums| => IntToString(nums[i]));
    forall i | 0 <= i < |nums|
      ensures ',' !in pieces[i]
      ensures ParseInt(Strip(pieces[i])) == Ok(nums[i])
    {
      TileNumberText(nums[i]);
    }
    SplitJoin(pieces, ',');
    var text := FormatTileList(nums);
    assert Split(text, ",") == pieces;
    var r := ParseTileList(text);
    assert r.Ok?;
    assert r.value == nums;
  }

  /** `tiles_index[tiles_index.tile_num.isin(nums)]`, in index order. */
  function FilterIndex(index: seq<TileRow>, nums: seq<int>): (r: seq<TileRow>)
    ensures |r| <= |index|
    ensures forall row :: row in r <==> row in index && row.tileNum in nums
    decreases |index|
  {
    if |index| == 0 then []
    else (if index[0].tileNum in nums then [index[0]] else []) + FilterIndex(index[1..], nums)
  }

  /** A listed tile is in the filtered index exactly when it is in the full
      index: filtering by the list never hides a tile the run asks for. */
  lemma {:induction false} FilterKeepsListedTiles(index: seq<TileRow>, nums: seq<int>, n: int)
    requires n in nums
    ensures (exists row :: row in FilterIndex(index, nums) && row.tileNum == n)
            <==> (exists row :: row in index && row.tileNum == n)
  {
    var filtered := FilterIndex(index, nums);
    if exists row :: row in index && row.tileNum == n {
      var row :| row in index && row.tileNum == n;
      assert row in filtered;
    }
  }

  /** The first row of the filtered index is the first row of the full index
      whose tile number is listed: `.iloc[0]` picks the earliest match. */
  lemma {:induction false} FilterIndexFirst(index: seq<TileRow>, nums: seq<int>)
    requires |FilterIndex(index, nums)| > 0
    ensures exists j :: 0 <= j < |index| && index[j] == FilterIndex(index, nums)[0]
                        && index[j].tileNum in nums
                        && forall m :: 0 <= m < j ==> index[m].tileNum !in nums
    decreases |index|
  {
    if index[0].tileNum !in nums {
      assert FilterIndex(index, nums) == FilterIndex(index[1..], nums);
      FilterIndexFirst(index[1..], nums);
      var j :| 0 <= j < |index[1..]| && index[1..][j] == FilterIndex(index[1..], nums)[0]
               && index[1..][j].tileNum in nums
               && forall m :: 0 <= m < j ==> index[1..][m].tileNum !in nums;
      assert index[j + 1] == FilterIndex(index, nums)[0];
      forall m | 0 <= m < j + 1 ensures index[m].tileNum !in nums {
        if m > 0 { assert index[m] == index[1..][m - 1]; }
      }
    } else {
      assert FilterIndex(index, nums)[0] == index[0];
    }
  }

  /** Reading or parsing failed: the script prints and exits with status 1. */
  datatype LoadError = IndexUnreadable | BadTileList(cause: ParseError)

  /** `load_tiles_index(path, tile_list)`; `read` is what `gpd.read_file`
      produced, or `None` when it raised. */
  function LoadTilesIndex(read: Option<seq<TileRow>>, tileList: Option<string>)
    : (r: Result<seq<TileRow>, LoadError>)
    ensures read.None? ==> r == Err(IndexUnreadable)
    ensures read.Some? && !Given(tileList) ==> r == Ok(read.value)
    ensures read.Some? && Given(tileList) ==>
              match ParseTileList(tileList.value)
              case Err(e) => r == Err(BadTileList(e))
              case Ok(nums) => r.Ok? && forall row :: row in r.value <==> row in read.value && row.tileNum in nums
  {
    match read
    case None => Err(IndexUnreadable)
    case Some(rows) =>
      if Given(tileList) then
        match ParseTileList(tileList.value)
        case Err(e) => Err(BadTileList(e))
        case Ok(nums) => Ok(FilterIndex(rows, nums))
      else Ok(rows)
  }

  function AllTileNumbers(index: seq<TileRow>): (nums: seq<int>)
    ensures |nums| == |index| && forall i :: 0 <= i < |index| ==> nums[i] == index[i].tileNum
  {
    seq(|index|, i requires 0 <= i < |index| => index[i].tileNum)
  }

  // ---------------------------------------------------------------------
  // One tile

  /** What the remote side and the filesystem do during one attempt:
      whether building the Earth Engine geometry raises, the asset type
      `ee.data.getAsset` reports (`None` when it raises), whether the download
      raises, whether it leaves a file at the output path, and whether removing
      a partial file raises. */
  datatype Remote = Remote(
    geometryRaises: bool,
    assetType: Option<string>,
    downloadRaises: bool,
    writesFile: bool,
    removeRaises: bool)

  /** The image handed to the downloader. */
  datatype Image =
    | CollectionBands(asset: string, region: TileRow, start: string, end: string)
    | SingleImage(asset: string, region: TileRow)

  datatype Request = Request(image: Image, path: string, region: TileRow, crs: string, scale: int, resampling: string)

  datatype Outcome =
    | AlreadyExists
    | NotInIndex
    | GeometryFailed
    | AssetLookupFailed
    | UnsupportedAsset(kind: string)
    | Downloaded
    | MissingAfterDownload
    | DownloadRaised

  /** What `process_tile` returned, the download it asked for (if any) and
      the filesystem afterwards. */
  datatype TileReport = TileReport(success: bool, outcome: Outcome, request: Option<Request>, fs: set<string>)

  /** The year a `YYYY-01-01` date string names. */
  function YearOf(date: string): Result<int, ParseError> {
    if |date| >= 6 && date[|date| - 6..] == "-01-01" then ParseInt(date[..|date| - 6])
    else Err(InvalidLiteral(date))
  }

  /** `f'{year}-01-01'`: the first day of `year`, which reads back as `year`. */
  function YearStart(year: int): (date: string)
    ensures YearOf(date) == Ok(year)
  {
    var date := IntToString(year) + "-01-01";
    assert date[..|date| - 6] == IntToString(year);
    ParseIntToString(year);
    date
  }

  /** Asset dispatch: a collection is filtered to the requested year and its
      images stacked band by band (`toBands`), an image is used directly,
      anything else is unsupported. */
  function SelectImage(kind: string, job: Job, region: TileRow): (r: Option<Image>)
    ensures r.Some? <==> kind == "IMAGE_COLLECTION" || kind == "IMAGE"
    ensures r.Some? ==> r.value.asset == job.assetPath && r.value.region == region
    ensures kind == "IMAGE_COLLECTION" ==> r.Some? && r.value.CollectionBands?
    ensures kind == "IMAGE_COLLECTION" ==> YearOf(r.value.start) == Ok(job.year) && YearOf(r.value.end) == Ok(job.year + 1)
    ensures kind == "IMAGE" ==> r.Some? && r.value.SingleImage?
  {
    if kind == "IMAGE_COLLECTION" then
      Some(CollectionBands(job.assetPath, region, YearStart(job.year), YearStart(job.year + 1)))
    else if kind == "IMAGE" then Some(SingleImage(job.assetPath, region))
    else None
  }

  /** The collection filter is the window [year-01-01, (year+1)-01-01): it
      starts in the requested year and ends one year later. */
  lemma CollectionWindowIsOneYear(job: Job, region: TileRow)
    ensures
      var image := SelectImage("IMAGE_COLLECTION", job, region).value;
      YearOf(image.start) == Ok(job.year) && YearOf(image.end) == Ok(job.year + 1)
  {
  }

  /** `process_tile(focal_tile, tiles_index, ...)`: only the tile's own
      output path may appear or disappear, an existing output is a success
      without any download, and a success leaves the output in place. */
  function ProcessTile(focal: int, index: seq<TileRow>, job: Job, fs: set<string>, remote: Remote)
    : (r: TileReport)
    ensures r.fs - {OutputFilename(job, focal)} == fs - {OutputFilename(job, focal)}
    ensures OutputFilename(job, focal) in fs ==> r == TileReport(true, AlreadyExists, None, fs)
    ensures r.success ==> OutputFilename(job, focal) in r.fs
  {
    var path := OutputFilename(job, focal);
    if path in fs then TileReport(true, AlreadyExists, None, fs)
    else
      var matches := FilterIndex(index, [focal]);
      assert |matches| > 0 ==> matches[0] in matches && matches[0].tileNum == focal;
      if |matches| == 0 then TileReport(false, NotInIndex, None, fs)
      else if remote.geometryRaises then TileReport(false, GeometryFailed, None, fs)
      else
        assert matches[0] in matches;
        match remote.assetType
        case None => TileReport(false, AssetLookupFailed, None, fs)
        case Some(kind) =>
          match SelectImage(kind, job, matches[0])
          case None => TileReport(false, UnsupportedAsset(kind), None, fs)
          case Some(image) =>
            var request := Request(image, path, matches[0], "EPSG:4326", job.scale, job.resampling);
            var written := if remote.writesFile then fs + {path} else fs;
            if !remote.downloadRaises then
              if path in written then TileReport(true, Downloaded, Some(request), written)
              else TileReport(false, MissingAfterDownload, Some(request), written)
            else
              var after := if path in written && !remote.removeRaises then written - {path} else written;
              TileReport(false, DownloadRaised, Some(request), after)
  }

  /** The outcomes of one tile: a tile missing from the index fails without
      a request; a download is requested only for an indexed tile whose asset
      is an image or an image collection; the result is True exactly when the
      output already existed or the download finished and left the file; and a
      failed download leaves a partial file only when removing it raised. */
  lemma {:induction false} ProcessTileOutcomes(focal: int, index: seq<TileRow>, job: Job, fs: set<string>, remote: Remote)
    ensures
      var path := OutputFilename(job, focal);
      var r := ProcessTile(focal, index, job, fs, remote);
      && (path !in fs && (forall row :: row in index ==> row.tileNum != focal) ==>
            r == TileReport(false, NotInIndex, None, fs))
      && (r.outcome != DownloadRaised ==> (r.success <==> path in r.fs))
      && (r.outcome == DownloadRaised ==> !r.success && (path in r.fs ==> remote.writesFile && remote.removeRaises))
      && (r.request.Some? ==>
            && path !in fs
            && r.request.value.path == path
            && r.request.value.region in index
            && r.request.value.region.tileNum == focal
            && r.request.value.crs == "EPSG:4326"
            && r.request.value.scale == job.scale
            && r.request.value.resampling == job.resampling
            && !remote.geometryRaises
            && remote.assetType.Some?
            && Some(r.request.value.image) == SelectImage(remote.assetType.value, job, r.request.value.region))
      && (r.request.None? ==> r.fs == fs)
      && (r.success <==> path in fs || r.outcome == Downloaded)
      && (r.outcome == Downloaded ==> r.request.Some? && !remote.downloadRaises && remote.writesFile)
  {
    var path := OutputFilename(job, focal);
    var matches := FilterIndex(index, [focal]);
    if path !in fs && |matches| > 0 && !remote.geometryRaises && remote.assetType.Some? {
      assert matches[0] in matches && matches[0].tileNum == focal;
      var r := ProcessTile(focal, index, job, fs, remote);
      var image := SelectImage(remote.assetType.value, job, matches[0]);
      if image.Some? {
        assert r.request == Some(Request(image.value, path, matches[0], "EPSG:4326", job.scale, job.resampling));
      }
    } else if path !in fs && |matches| > 0 {
      assert matches[0] in matches;
    }
  }

  /** The success direction: an output that does not exist yet, a tile the
      index holds, a geometry that builds and an image or image-collection
      asset always lead to a download request for the tile's first index row,
      and the result is True exactly when the download finished and left the
      file. */
  lemma {:induction false} ProcessTileDownloads(focal: int, index: seq<TileRow>, job: Job, fs: set<string>, remote: Remote)
    requires OutputFilename(job, focal) !in fs
    requires exists row :: row in index && row.tileNum == focal
    requires !remote.geometryRaises
    requires remote.assetType in {Some("IMAGE"), Some("IMAGE_COLLECTION")}
    ensures |FilterIndex(index, [focal])| > 0
    ensures
      var r := ProcessTile(focal, index, job, fs, remote);
      && r.request.Some?
      && r.request.value.region == FilterIndex(index, [focal])[0]
      && (r.success <==> !remote.downloadRaises && remote.writesFile)
  {
    var row :| row in index && row.tileNum == focal;
    assert row in FilterIndex(index, [focal]);
  }

  /** A download that raises leaves the output behind exactly when it had
      been written and removing it raised in turn. */
  lemma {:induction false} ProcessTileCleansUp(focal: int, index: seq<TileRow>, job: Job, fs: set<string>, remote: Remote)
    ensures
      var r := ProcessTile(focal, index, job, fs, remote);
      r.request.Some? && remote.downloadRaises ==>
        (OutputFilename(job, focal) in r.fs <==> remote.writesFile && remote.removeRaises)
  {
    var path := OutputFilename(job, focal);
    if path !in fs {
      var matches := FilterIndex(index, [focal]);
      if |matches| > 0 && !remote.geometryRaises && remote.assetType.Some? {
        var selected := SelectImage(remote.assetType.value, job, matches[0]);
        if selected.Some? && remote.downloadRaises {
          var written := if remote.writesFile then fs + {path} else fs;
          assert path in written <==> remote.writesFile;
        }
      }
    }
  }

  // ---------------------------------------------------------------------
  // The run

  /** The filesystem tile `i` of the run starts from. */
  function FsBefore(reports: seq<TileReport>, fs0: set<string>, i: int): set<string>
    requires 0 <= i <= |reports|
  {
    if i == 0 then fs0 else reports[i - 1].fs
  }

  function SuccessCount(reports: seq<TileReport>): (k: nat)
    ensures k <= |reports|
    decreases |reports|
  {
    if |reports| == 0 then 0
    else SuccessCount(reports[..|reports| - 1]) + (if reports[|reports| - 1].success then 1 else 0)
  }

  /** The tally is the whole list exactly when every tile succeeded, and zero
      exactly when none did. */
  lemma {:induction false} SuccessCountExtremes(reports: seq<TileReport>)
    ensures SuccessCount(reports) == |reports| <==> forall i :: 0 <= i < |reports| ==> reports[i].success
    ensures SuccessCount(reports) == 0 <==> forall i :: 0 <= i < |reports| ==> !reports[i].success
    decreases |reports|
  {
    if |reports| > 0 {
      var init := reports[..|reports| - 1];
      SuccessCountExtremes(init);
      assert forall i :: 0 <= i < |init| ==> init[i] == reports[i];
    }
  }

  /** One step of a run: the report for a tile, processed at a position of
      the list against a filesystem. */
  type Step = (int, set<string>, nat) -> TileReport

  /** The reports of a run of `step` over `tiles`: each tile is processed
      against the filesystem its predecessor left behind. */
  function Chain(tiles: seq<int>, fs0: set<string>, step: Step): (reports: seq<TileReport>)
    ensures |reports| == |tiles|
    decreases |tiles|
  {
    if |tiles| == 0 then []
    else
      var before := Chain(tiles[..|tiles| - 1], fs0, step);
      before + [step(tiles[|tiles| - 1], FsBefore(before, fs0, |before|), |tiles| - 1)]
  }

  /** The reports of a prefix of the tile list are the prefix of the
      reports: a tile's outcome never depends on the tiles after it. */
  lemma {:induction false} ChainPrefix(tiles: seq<int>, fs0: set<string>, step: Step, m: int)
    requires 0 <= m <= |tiles|
    ensures Chain(tiles[..m], fs0, step) == Chain(tiles, fs0, step)[..m]
    decreases |tiles|
  {
    if m < |tiles| {
      var front := tiles[..|tiles| - 1];
      ChainPrefix(front, fs0, step, m);
      assert front[..m] == tiles[..m];
    } else {
      assert tiles[..m] == tiles;
    }
  }

  /** Tile `i` is processed at position `i` against the filesystem left by
      tile `i - 1` (the initial one for the first tile). */
  lemma {:induction false} ChainAt(tiles: seq<int>, fs0: set<string>, step: Step, i: int)
    requires 0 <= i < |tiles|
    ensures
      var reports := Chain(tiles, fs0, step);
      reports[i] == step(tiles[i], FsBefore(reports, fs0, i), i)
  {
    var reports := Chain(tiles, fs0, step);
    var upto := tiles[..i + 1];
    ChainPrefix(tiles, fs0, step, i + 1);
    ChainPrefix(tiles, fs0, step, i);
    assert upto[..i] == tiles[..i];
    var before := Chain(tiles[..i], fs0, step);
    assert before == reports[..i];
    assert FsBefore(before, fs0, i) == FsBefore(reports, fs0, i);
  }

  /** The step of `main`'s loop: `process_tile` with the remote behaviour of
      that position. */
  function TileStep(index: seq<TileRow>, job: Job, remote: nat -> Remote): Step {
    (t: int, fs: set<string>, k: nat) => ProcessTile(t, index, job, fs, remote(k))
  }

  /** The reports of the whole run as a function of its inputs. */
  function RunReports(tiles: seq<int>, index: seq<TileRow>, job: Job, fs0: set<string>, remote: nat -> Remote)
    : (reports: seq<TileReport>)
    ensures |reports| == |tiles|
  {
    Chain(tiles, fs0, TileStep(index, job, remote))
  }

  /** Tile `i` is processed against the filesystem left by tile `i - 1` (the
      initial one for the first tile). */
  lemma {:induction false} RunReportAt(tiles: seq<int>, index: seq<TileRow>, job: Job, fs0: set<string>, remote: nat -> Remote, i: int)
    requires 0 <= i < |tiles|
    ensures
      var reports := RunReports(tiles, index, job, fs0, remote);
      reports[i] == ProcessTile(tiles[i], index, job, FsBefore(reports, fs0, i), remote(i))
  {
    ChainAt(tiles, fs0, TileStep(index, job, remote), i);
  }

  /** Processing a tile never deletes a file that existed before: the only
      path it may remove is the tile's own, and that one is left alone when it
      already exists. */
  lemma {:induction false} ProcessTileKeepsFiles(focal: int, index: seq<TileRow>, job: Job, fs: set<string>, remote: Remote)
    ensures fs <= ProcessTile(focal, index, job, fs, remote).fs
  {
    var path := OutputFilename(job, focal);
    var after := ProcessTile(focal, index, job, fs, remote).fs;
    forall other | other in fs
      ensures other in after
    {
      if other != path {
        assert other in fs - {path};
      }
    }
  }

  /** Along a chain of reports in which no step loses a file, the filesystem
      only grows. */
  lemma {:induction false} FilesOnlyAccumulate(reports: seq<TileReport>, fs0: set<string>, a: int, b: int)
    requires forall k {:trigger FsBefore(reports, fs0, k)} :: 0 <= k < |reports| ==> FsBefore(reports, fs0, k) <= reports[k].fs
    requires 0 <= a <= b <= |reports|
    ensures FsBefore(reports, fs0, a) <= FsBefore(reports, fs0, b)
    decreases b
  {
    if a < b {
      FilesOnlyAccumulate(reports, fs0, a, b - 1);
      assert FsBefore(reports, fs0, b - 1) <= reports[b - 1].fs;
    }
  }

  /** Every tile is processed exactly once, in list order, against the
      filesystem left by the tile before it. */
  lemma {:induction false} RunProcessesInOrder(tiles: seq<int>, index: seq<TileRow>, job: Job, fs0: set<string>, remote: nat -> Remote)
    ensures
      var reports := RunReports(tiles, index, job, fs0, remote);
      forall i :: 0 <= i < |tiles| ==>
        reports[i] == ProcessTile(tiles[i], index, job, FsBefore(reports, fs0, i), remote(i))
  {
    forall i | 0 <= i < |tiles| {
      RunReportAt(tiles, index, job, fs0, remote, i);
    }
  }

  /** Step `k` of the run loses no file, and writes its own when it succeeds. */
  lemma {:induction false} RunStepKeepsFiles(tiles: seq<int>, index: seq<TileRow>, job: Job, fs0: set<string>, remote: nat -> Remote, k: int)
    requires 0 <= k < |tiles|
    ensures
      var reports := RunReports(tiles, index, job, fs0, remote);
      && FsBefore(reports, fs0, k) <= reports[k].fs
      && (reports[k].success ==> OutputFilename(job, tiles[k]) in reports[k].fs)
  {
    var reports := RunReports(tiles, index, job, fs0, remote);
    RunReportAt(tiles, index, job, fs0, remote, k);
    ProcessTileKeepsFiles(tiles[k], index, job, FsBefore(reports, fs0, k), remote(k));
  }

  /** A tile reported successful still has its output file when the run
      ends: later tiles never remove it. */
  lemma {:induction false} RunKeepsSuccessfulFiles(tiles: seq<int>, index: seq<TileRow>, job: Job, fs0: set<string>, remote: nat -> Remote)
    ensures
      var reports := RunReports(tiles, index, job, fs0, remote);
      forall i :: 0 <= i < |tiles| && reports[i].success ==>
        OutputFilename(job, tiles[i]) in FsBefore(reports, fs0, |tiles|)
  {
    var reports := RunReports(tiles, index, job, fs0, remote);
    forall k | 0 <= k < |reports|
      ensures FsBefore(reports, fs0, k) <= reports[k].fs
      ensures reports[k].success ==> OutputFilename(job, tiles[k]) in reports[k].fs
    {
      RunStepKeepsFiles(tiles, index, job, fs0, remote, k);
    }
    forall i | 0 <= i < |tiles| && reports[i].success
      ensures OutputFilename(job, tiles[i]) in FsBefore(reports, fs0, |tiles|)
    {
      FilesOnlyAccumulate(reports, fs0, i + 1, |tiles|);
    }
  }

  /** The loop of `main`: the tiles processed in order, each counted as
      exactly one success or one failure. */
  method RunTiles(tiles: seq<int>, index: seq<TileRow>, job: Job, fs0: set<string>, remote: nat -> Remote)
    returns (successful: nat, failed: nat, reports: seq<TileReport>, fs: set<string>)
    ensures reports == RunReports(tiles, index, job, fs0, remote)
    ensures fs == FsBefore(reports, fs0, |tiles|)
    ensures successful + failed == |tiles|
    ensures successful == SuccessCount(reports)
    ensures forall i :: 0 <= i < |tiles| && reports[i].success ==> OutputFilename(job, tiles[i]) in fs
  {
    successful, failed, reports, fs := 0, 0, [], fs0;
    var i := 0;
    while i < |tiles|
      invariant 0 <= i <= |tiles|
      invariant reports == RunReports(tiles[..i], index, job, fs0, remote)
      invariant fs == FsBefore(reports, fs0, i)
      invariant successful + failed == i
      invariant successful == SuccessCount(reports)
    {
      var report := ProcessTile(tiles[i], index, job, fs, remote(i));
      assert tiles[..i + 1][..i] == tiles[..i];
      reports := reports + [report];
      assert reports[..i] == reports[..|reports| - 1];
      if report.success {
        successful := successful + 1;
      } else {
        failed := failed + 1;
      }
      fs := report.fs;
      i := i + 1;
    }
    assert tiles[..i] == tiles;
    RunKeepsSuccessfulFiles(tiles, index, job, fs0, remote);
  }

  datatype Summary = Summary(successful: nat, failed: nat, total: nat, reports: seq<TileReport>, fs: set<string>)

  /** `main()` after argument parsing and Earth Engine initialisation: load
      the index, take the tile list (or every indexed tile), process each tile
      and tally the results. */
  method RunDownloads(read: Option<seq<TileRow>>, tileList: Option<string>, job: Job, fs0: set<string>, remote: nat -> Remote)
    returns (r: Result<Summary, LoadError>)
    ensures LoadTilesIndex(read, tileList).Err? ==> r == Err(LoadTilesIndex(read, tileList).error)
    ensures r.Ok? <==> LoadTilesIndex(read, tileList).Ok?
    ensures r.Ok? && !Given(tileList) ==>
              r.value.reports == RunReports(AllTileNumbers(read.value), read.value, job, fs0, remote)
    ensures r.Ok? && Given(tileList) ==>
              && ParseTileList(tileList.value).Ok?
              && r.value.reports == RunReports(ParseTileList(tileList.value).value, LoadTilesIndex(read, tileList).value, job, fs0, remote)
    ensures r.Ok? ==> r.value.total == |r.value.reports| && r.value.successful + r.value.failed == r.value.total
    ensures r.Ok? ==> r.value.successful == SuccessCount(r.value.reports)
    ensures r.Ok? ==> r.value.fs == FsBefore(r.value.reports, fs0, r.value.total)
  {
    var loaded := LoadTilesIndex(read, tileList);
    if loaded.Err? {
      return Err(loaded.error);
    }
    var tiles: seq<int>;
    if Given(tileList) {
      var parsed := ParseTileList(tileList.value);
      tiles := if parsed.Ok? then parsed.value else [];
    } else {
      tiles := AllTileNumbers(loaded.value);
    }
    var successful, failed, reports, fs := RunTiles(tiles, loaded.value, job, fs0, remote);
    r := Ok(Summary(successful, failed, |tiles|, reports, fs));
  }
}
