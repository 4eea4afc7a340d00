/** The point tables the extraction functions pass around: a GeoDataFrame of
    point rows with a coordinate reference system, reduced to what the core
    reads and writes. */
module Frames {
  import opened Results

  datatype Pt = Pt(x: real, y: real)

  /** A footprint outline; its geometry is only ever consulted through
      oracles. */
  datatype Polygon = Polygon(outline: seq<Pt>)

  /** A coordinate reference system, known only by its name. */
  datatype Crs = Crs(name: string)

  /** A raster value, or the NaN sentinel for "no value". */
  datatype Value = NaN | Num(v: real)

  /** One point row: its index label, its geometry, the tile reference the
      spatial join attached (`None` when the join left the NaN float there), and
      the value columns extracted so far. */
  datatype Row = Row(index: int, geom: Pt, tile: Option<string>, values: map<string, Value>)

  datatype Table = Table(crs: Crs, rows: seq<Row>)

  /** The coordinate transformation between two distinct systems. */
  type Transform = (Crs, Crs, Pt) -> Pt

  /** Reading a column: a row that never received it reads NaN, which is how
      `pd.concat` fills columns missing from some of the frames. */
  function Cell(r: Row, col: string): Value {
    if col in r.values then r.values[col] else NaN
  }

  /** `frame[col] = v` on a single row. */
  function SetCell(r: Row, col: string, v: Value): (r': Row)
    ensures Cell(r', col) == v
    ensures forall c :: c != col ==> Cell(r', c) == Cell(r, c)
    ensures r'.index == r.index && r'.geom == r.geom && r'.tile == r.tile
  {
    r.(values := r.values[col := v])
  }

  /** `gdf[col] = values`: one value per row, in row order. */
  function AddColumn(t: Table, col: string, values: seq<Value>): (t': Table)
    requires |values| == |t.rows|
    ensures t'.crs == t.crs && |t'.rows| == |t.rows|
    ensures forall i :: 0 <= i < |t.rows| ==> Cell(t'.rows[i], col) == values[i]
    ensures forall i :: 0 <= i < |t.rows| ==> t'.rows[i] == SetCell(t.rows[i], col, values[i])
  {
    Table(t.crs, seq(|t.rows|, i requires 0 <= i < |t.rows| => SetCell(t.rows[i], col, values[i])))
  }

  /** Labels are the default RangeIndex 0..n-1. */
  predicate DefaultIndexed(rows: seq<Row>) {
    forall i :: 0 <= i < |rows| ==> rows[i].index == i
  }

  /** The column `reset_index()` moves the old labels into. */
  const IndexColumn: string := "index"

  /** Row `r` moved to position `k` by `reset_index()`: labelled `k`, its old
      label kept as a value in the `index` column. */
  function Relabel(r: Row, k: int): (r': Row)
    ensures r'.index == k && r'.geom == r.geom && r'.tile == r.tile
    ensures Cell(r', IndexColumn) == Num(r.index as real)
    ensures forall c :: c != IndexColumn ==> Cell(r', c) == Cell(r, c)
  {
    SetCell(r.(index := k), IndexColumn, Num(r.index as real))
  }

  /** `reset_index()`: the rows keep their order, are relabelled 0..n-1, and
      each gains its old label as a value in the `index` column. */
  function ResetIndex(t: Table): (t': Table)
    ensures t'.crs == t.crs && |t'.rows| == |t.rows|
    ensures DefaultIndexed(t'.rows)
    ensures forall i :: 0 <= i < |t.rows| ==> t'.rows[i] == Relabel(t.rows[i], i)
  {
    Table(t.crs, seq(|t.rows|, i requires 0 <= i < |t.rows| => Relabel(t.rows[i], i)))
  }

  /** `t.iloc[[k]]` reduced to its one row: position `k` counted from the front,
      or from the back when `k` is negative; `None` is the IndexError. */
  function Iloc(t: Table, k: int): (r: Option<Row>)
    ensures r.Some? <==> -|t.rows| <= k < |t.rows|
    ensures 0 <= k < |t.rows| ==> r == Some(t.rows[k])
    ensures -|t.rows| <= k < 0 ==> r == Some(t.rows[|t.rows| + k])
  {
    if 0 <= k < |t.rows| then Some(t.rows[k])
    else if -|t.rows| <= k < 0 then Some(t.rows[|t.rows| + k])
    else None
  }

  /** On a default-indexed table, looking a row up by its own index label selects
      that very row, which is what the S3 loop relies on. */
  lemma {:induction false} IlocOwnLabel(t: Table, i: int)
    requires DefaultIndexed(t.rows)
    requires 0 <= i < |t.rows|
    ensures Iloc(t, t.rows[i].index) == Some(t.rows[i])
  {
    assert t.rows[i].index == i;
  }

  /** Reprojecting a point: a no-op when both systems are the same (geopandas
      returns the geometry untouched), the transformation otherwise. */
  function Reproject(transform: Transform, from: Crs, to: Crs, p: Pt): (q: Pt)
    ensures from == to ==> q == p
  {
    if from == to then p else transform(from, to, p)
  }

  /** `gdf.to_crs(crs)`: every row reprojected, nothing else changed. */
  function ToCrs(t: Table, crs: Crs, transform: Transform): (t': Table)
    ensures t'.crs == crs && |t'.rows| == |t.rows|
    ensures forall i :: 0 <= i < |t.rows| ==> t'.rows[i] == t.rows[i].(geom := Reproject(transform, t.crs, crs, t.rows[i].geom))
    ensures t.crs == crs ==> t' == t
  {
    var rows := seq(|t.rows|, i requires 0 <= i < |t.rows| => t.rows[i].(geom := Reproject(transform, t.crs, crs, t.rows[i].geom)));
    assert t.crs == crs ==> rows == t.rows;
    Table(crs, rows)
  }

  /** `pd.concat(frames)` of frames already in the system `crs`. */
  function Concat(crs: Crs, frames: seq<Table>): (t: Table)
    ensures t.crs == crs
    ensures (forall i :: 0 <= i < |frames| ==> |frames[i].rows| == 1) ==>
              |t.rows| == |frames| && forall i :: 0 <= i < |frames| ==> t.rows[i] == frames[i].rows[0]
    decreases |frames|
  {
    if |frames| == 0 then Table(crs, [])
    else Table(crs, frames[0].rows + Concat(crs, frames[1..]).rows)
  }
}
