/** `clip_and_join`: the tile footprints that meet the points are kept
    (`gpd.clip`), then every point is left-joined (`gpd.sjoin(how="left")`) with
    the footprints covering it, which attaches the tile reference. Geometry is
    abstract: whether a footprint covers a point is an oracle. */
module TileJoin {
  import opened Results
  import opened Frames

  /** One tile of the footprint index: its tile path and its coverage. */
  datatype Footprint = Footprint(tileRef: string, polygon: Polygon)

  datatype FootprintIndex = FootprintIndex(crs: Crs, tiles: seq<Footprint>)

  /** Point-in-footprint, decided by the geometry library. */
  type Covers = (Footprint, Pt) -> bool

  /** The footprints covering `p`, in index order. */
  function Covering(tiles: seq<Footprint>, p: Pt, covers: Covers): (r: seq<Footprint>)
    ensures |r| <= |tiles|
    ensures forall f :: f in r <==> f in tiles && covers(f, p)
    decreases |tiles|
  {
    if |tiles| == 0 then []
    else (if covers(tiles[0], p) then [tiles[0]] else []) + Covering(tiles[1..], p, covers)
  }

  /** Covering respects index order: the covering footprints of two index
      parts in a row are those of the first part, then those of the second. */
  lemma {:induction false} CoveringAppend(a: seq<Footprint>, b: seq<Footprint>, p: Pt, covers: Covers)
    ensures Covering(a + b, p, covers) == Covering(a, p, covers) + Covering(b, p, covers)
    decreases |a|
  {
    if |a| > 0 {
      CoveringAppend(a[1..], b, p, covers);
      var h := if covers(a[0], p) then [a[0]] else [];
      assert (a + b)[1..] == a[1..] + b;
      assert (a + b)[0] == a[0];
      assert Covering(a + b, p, covers) == h + Covering(a[1..] + b, p, covers);
      assert Covering(a, p, covers) == h + Covering(a[1..], p, covers);
    } else {
      assert a + b == b;
    }
  }

  /** A single footprint is listed exactly when it covers the point. */
  lemma {:induction false} CoveringOne(f: Footprint, p: Pt, covers: Covers)
    ensures Covering([f], p, covers) == if covers(f, p) then [f] else []
  {
    assert [f][1..] == [];
  }

  /** Some point of `rows` lies in footprint `f`. */
  predicate MeetsPoints(f: Footprint, rows: seq<Row>, covers: Covers) {
    exists i :: 0 <= i < |rows| && covers(f, rows[i].geom)
  }

  /** `gpd.clip(footprints, points)`: the footprints that meet the points. */
  function Clip(tiles: seq<Footprint>, rows: seq<Row>, covers: Covers): (r: seq<Footprint>)
    ensures forall f :: f in r <==> f in tiles && MeetsPoints(f, rows, covers)
    decreases |tiles|
  {
    if |tiles| == 0 then []
    else (if MeetsPoints(tiles[0], rows, covers) then [tiles[0]] else []) + Clip(tiles[1..], rows, covers)
  }

  /** The rows the left join produces for one point: one per covering
      footprint, or the point alone with a NaN tile reference. */
  function JoinPoint(row: Row, matches: seq<Footprint>): (r: seq<Row>)
    ensures |r| >= 1
    ensures |matches| == 0 ==> r == [row.(tile := None)]
    ensures |matches| > 0 ==> |r| == |matches|
    ensures |matches| > 0 ==> forall k :: 0 <= k < |r| ==> r[k].tile == Some(matches[k].tileRef)
    ensures forall k :: 0 <= k < |r| ==> r[k].(tile := row.tile) == row
  {
    if |matches| == 0 then [row.(tile := None)]
    else seq(|matches|, k requires 0 <= k < |matches| => row.(tile := Some(matches[k].tileRef)))
  }

  /** `out` holds every row of `src`, perhaps with another tile reference. */
  predicate KeepsEveryRow(out: seq<Row>, src: seq<Row>) {
    forall i :: 0 <= i < |src| ==> exists k :: 0 <= k < |out| && out[k].(tile := src[i].tile) == src[i]
  }

  /** Every row of `out` is a row of `src`, perhaps with another tile reference. */
  predicate AddsNoRow(out: seq<Row>, src: seq<Row>) {
    forall k :: 0 <= k < |out| ==> exists i :: 0 <= i < |src| && out[k].(tile := src[i].tile) == src[i]
  }

  /** `gpd.sjoin(points, footprints, how="left")`, row by row in point order. */
  function LeftJoin(rows: seq<Row>, tiles: seq<Footprint>, covers: Covers): (r: seq<Row>)
    ensures |r| >= |rows|
    decreases |rows|
  {
    if |rows| == 0 then []
    else JoinPoint(rows[0], Covering(tiles, rows[0].geom, covers)) + LeftJoin(rows[1..], tiles, covers)
  }

  /** The rows of a left join: those of the first point, then the rest. */
  lemma {:induction false} LeftJoinCons(rows: seq<Row>, tiles: seq<Footprint>, covers: Covers)
    requires |rows| > 0
    ensures LeftJoin(rows, tiles, covers)
            == JoinPoint(rows[0], Covering(tiles, rows[0].geom, covers)) + LeftJoin(rows[1..], tiles, covers)
  {
  }

  /** The left join loses no point, whatever the footprints. */
  lemma {:induction false} LeftJoinKeepsPoints(rows: seq<Row>, tiles: seq<Footprint>, covers: Covers)
    ensures KeepsEveryRow(LeftJoin(rows, tiles, covers), rows)
    decreases |rows|
  {
    if |rows| > 0 {
      var rest' := rows[1..];
      LeftJoinKeepsPoints(rest', tiles, covers);
      var head := JoinPoint(rows[0], Covering(tiles, rows[0].geom, covers));
      var rest := LeftJoin(rest', tiles, covers);
      LeftJoinCons(rows, tiles, covers);
      var r := head + rest;
      forall i | 0 <= i < |rows|
        ensures exists k :: 0 <= k < |r| && r[k].(tile := rows[i].tile) == rows[i]
      {
        if i == 0 {
          assert r[0] == head[0];
        } else {
          assert rest'[i - 1] == rows[i];
          var k :| 0 <= k < |rest| && rest[k].(tile := rest'[i - 1].tile) == rest'[i - 1];
          assert r[|head| + k] == rest[k];
        }
      }
    }
  }

  /** Every row the left join produces is one of the points with a tile
      reference attached. */
  lemma {:induction false} LeftJoinAddsNoRow(rows: seq<Row>, tiles: seq<Footprint>, covers: Covers)
    ensures AddsNoRow(LeftJoin(rows, tiles, covers), rows)
    decreases |rows|
  {
    if |rows| > 0 {
      var rest' := rows[1..];
      LeftJoinAddsNoRow(rest', tiles, covers);
      var head := JoinPoint(rows[0], Covering(tiles, rows[0].geom, covers));
      var rest := LeftJoin(rest', tiles, covers);
      LeftJoinCons(rows, tiles, covers);
      var r := head + rest;
      forall k | 0 <= k < |r|
        ensures exists i :: 0 <= i < |rows| && r[k].(tile := rows[i].tile) == rows[i]
      {
        if k < |head| {
          assert r[k] == head[k];
          assert r[k].(tile := rows[0].tile) == rows[0];
        } else {
          assert r[k] == rest[k - |head|];
          var i :| 0 <= i < |rest'| && rest[k - |head|].(tile := rest'[i].tile) == rest'[i];
          assert rest'[i] == rows[i + 1];
        }
      }
    }
  }

  /** `clip_and_join(gdf, ras_gdf)`: the joined points, and `has_joined`,
      which is always True. */
  function ClipAndJoin(t: Table, index: FootprintIndex, covers: Covers): (r: (Table, bool))
    ensures r.1
    ensures r.0.crs == t.crs && |r.0.rows| >= |t.rows|
  {
    (Table(t.crs, LeftJoin(t.rows, Clip(index.tiles, t.rows, covers), covers)), true)
  }

  /** `clip_and_join` loses no point, whether or not footprints overlap. */
  lemma {:induction false} ClipAndJoinKeepsPoints(t: Table, index: FootprintIndex, covers: Covers)
    ensures KeepsEveryRow(ClipAndJoin(t, index, covers).0.rows, t.rows)
  {
    LeftJoinKeepsPoints(t.rows, Clip(index.tiles, t.rows, covers), covers);
  }

  /** `clip_and_join` adds no row that is not one of the points with a tile
      reference attached. */
  lemma {:induction false} ClipAndJoinAddsNoPoint(t: Table, index: FootprintIndex, covers: Covers)
    ensures AddsNoRow(ClipAndJoin(t, index, covers).0.rows, t.rows)
  {
    LeftJoinAddsNoRow(t.rows, Clip(index.tiles, t.rows, covers), covers);
  }

  /** No point lies in two footprints (the tiling scheme's promise). */
  predicate Disjoint(tiles: seq<Footprint>, rows: seq<Row>, covers: Covers) {
    forall i :: 0 <= i < |rows| ==> |Covering(tiles, rows[i].geom, covers)| <= 1
  }

  /** The tile reference a point gets: that of its covering footprint, if any. */
  function CoveringRef(tiles: seq<Footprint>, p: Pt, covers: Covers): Option<string> {
    var c := Covering(tiles, p, covers);
    if |c| == 0 then None else Some(c[0].tileRef)
  }

  /** Clipping loses no footprint that covers one of the points: for each
      point, the clipped index and the full index cover it alike. */
  lemma {:induction false} ClipKeepsCovering(tiles: seq<Footprint>, rows: seq<Row>, covers: Covers, i: int)
    requires 0 <= i < |rows|
    ensures Covering(Clip(tiles, rows, covers), rows[i].geom, covers) == Covering(tiles, rows[i].geom, covers)
    decreases |tiles|
  {
    if |tiles| > 0 {
      var p := rows[i].geom;
      ClipKeepsCovering(tiles[1..], rows, covers, i);
      var rest := Clip(tiles[1..], rows, covers);
      if MeetsPoints(tiles[0], rows, covers) {
        assert Clip(tiles, rows, covers) == [tiles[0]] + rest;
        assert ([tiles[0]] + rest)[1..] == rest;
      } else {
        assert Clip(tiles, rows, covers) == rest;
        assert !covers(tiles[0], p);
        assert Covering(tiles, p, covers) == Covering(tiles[1..], p, covers);
      }
    }
  }

  /** Under disjoint footprints the left join keeps every point exactly once,
      in order, carrying its covering tile reference or NaN. */
  lemma {:induction false} LeftJoinOnePerPoint(rows: seq<Row>, tiles: seq<Footprint>, covers: Covers)
    requires Disjoint(tiles, rows, covers)
    ensures |LeftJoin(rows, tiles, covers)| == |rows|
    ensures forall i :: 0 <= i < |rows| ==>
              LeftJoin(rows, tiles, covers)[i] == rows[i].(tile := CoveringRef(tiles, rows[i].geom, covers))
    decreases |rows|
  {
    if |rows| > 0 {
      assert Disjoint(tiles, rows[1..], covers) by {
        forall i | 0 <= i < |rows[1..]|
          ensures |Covering(tiles, rows[1..][i].geom, covers)| <= 1
        {
          assert rows[1..][i] == rows[i + 1];
        }
      }
      LeftJoinOnePerPoint(rows[1..], tiles, covers);
      var head := JoinPoint(rows[0], Covering(tiles, rows[0].geom, covers));
      assert |Covering(tiles, rows[0].geom, covers)| <= 1;
      assert head == [rows[0].(tile := CoveringRef(tiles, rows[0].geom, covers))];
      var r := LeftJoin(rows, tiles, covers);
      assert r == head + LeftJoin(rows[1..], tiles, covers);
      forall i | 1 <= i < |rows|
        ensures r[i] == rows[i].(tile := CoveringRef(tiles, rows[i].geom, covers))
      {
        assert r[i] == LeftJoin(rows[1..], tiles, covers)[i - 1];
        assert rows[1..][i - 1] == rows[i];
      }
    }
  }

  /** The join contract: when no point lies in two footprints, every input
      point comes out exactly once, in input order, with only its tile
      reference changed — matched or not. */
  lemma {:induction false} ClipAndJoinKeepsEveryPoint(t: Table, index: FootprintIndex, covers: Covers)
    requires Disjoint(index.tiles, t.rows, covers)
    ensures |ClipAndJoin(t, index, covers).0.rows| == |t.rows|
    ensures forall i :: 0 <= i < |t.rows| ==>
              ClipAndJoin(t, index, covers).0.rows[i] == t.rows[i].(tile := CoveringRef(index.tiles, t.rows[i].geom, covers))
  {
    var clipped := Clip(index.tiles, t.rows, covers);
    forall i | 0 <= i < |t.rows|
      ensures Covering(clipped, t.rows[i].geom, covers) == Covering(index.tiles, t.rows[i].geom, covers)
    {
      ClipKeepsCovering(index.tiles, t.rows, covers, i);
    }
    LeftJoinOnePerPoint(t.rows, clipped, covers);
  }
}
