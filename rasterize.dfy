/** The per-tile driver of `rasterize` (robosat_pink/tools/rasterize.py:113-249): the
    input-mode and zoom checks, one `write_tile` per cover tile in cover order, the
    GeoJSON burn-or-blank rule and the PostGIS decode-or-blank rule with its warning
    and reconnection. Rasterising polygons, the database and image encoding are
    parameters or symbolic records; what is modelled is which raster each tile gets,
    where it is written, and when the run stops. */
module Rasterize {
  import opened Common
  import opened Tiles
  import opened Wkb
  import opened WkbReader
  import opened FeatureIndex

  /** The array handed to `write_tile`. */
  datatype Raster =
    | Zeros(size: nat, dtype: Dtype)     // np.zeros((size, size), dtype)
    | Squeezed(grid: Grid)               // np.squeeze(out, axis=2) of a one-band decoded raster
    | Burnt(tile: Tile, polygons: seq<Rings>, size: nat, epsg: string)
                                         // geojson_tile_burn(tile, polygons, size, 1, epsg)

  /** A saved tile: the file and the array written to it. */
  datatype Output = Output(path: string, raster: Raster)

  /** How the run ended: normally, by `sys.exit(message)`, or by an uncaught exception. */
  datatype Outcome = Completed | Exited(message: string) | Crashed

  const ModeMessage := "Input features to rasterize must be either GeoJSON or PostGIS"
  const ZoomMessage := "With GeoJson input, zoom level and cover tiles z values have to be the same."

  /** What `pg.execute(query); row = pg.fetchone()` gives for a tile: an exception, no
      row, or the row's WKB raster bytes. */
  datatype QueryResult = QueryRaised | NoRow | Row(wkb: seq<byte>)

  /** `"Warning: Invalid geometries, skipping {}".format(tile)`. */
  function InvalidGeometries(t: Tile): string
  {
    "Warning: Invalid geometries, skipping " + TileRepr(t)
  }

  /** rasterize.py:127: exactly one of the two inputs must be given (an empty query string
      counts as absent, as does a missing file list). */
  predicate OneMode(geojson: seq<FeatureFile>, postgis: string)
  {
    (|geojson| > 0) != (|postgis| > 0)
  }

  // ---------------------------------------------------------------------
  // GeoJSON

  /** rasterize.py:167: every cover tile is at the requested zoom. */
  predicate AllAtZoom(cover: seq<Tile>, zoom: nat)
  {
    forall k :: 0 <= k < |cover| ==> cover[k].z == zoom
  }

  /** rasterize.py:186-189: the tile's polygons burnt, or a blank uint8 tile when the map
      has no list for it. */
  function GeoJsonRaster(features: map<Tile, seq<Rings>>, t: Tile, size: nat, epsg: string): Raster
  {
    if t in features then Burnt(t, features[t], size, epsg) else Zeros(size, U1)
  }

  /** What the GeoJSON tile loop (rasterize.py:185-191) writes for one cover tile. */
  function GeoJsonOutput(features: map<Tile, seq<Rings>>, size: nat, epsg: string, root: string): Tile -> Output
  {
    t => Output(TilePath(root, t), GeoJsonRaster(features, t, size, epsg))
  }

  /** The writes of the GeoJSON tile loop, one per cover tile, in order. */
  function GeoJsonOutputs(cover: seq<Tile>, features: map<Tile, seq<Rings>>, size: nat, epsg: string,
                          root: string): seq<Output>
  {
    Map(cover, GeoJsonOutput(features, size, epsg, root))
  }

  /** The whole GeoJSON branch on values: its outcome, the lines it logs, the files it writes. */
  datatype Run = Run(outcome: Outcome, log: seq<string>, written: seq<Output>)

  function GeoJsonRun(cover: seq<Tile>, zoom: nat, files: seq<FeatureFile>, burn: Burn, size: nat,
                      root: string): Run
  {
    if !AllAtZoom(cover, zoom) then Run(Exited(ZoomMessage), [], [])
    else
      match FilesStep(Index(map[], []), files, burn, zoom)
      case None => Run(Crashed, [], [])
      case Some(ix) => Run(Completed, ix.log, GeoJsonOutputs(cover, ix.features, size, LastEpsg(files), root))
  }

  /** A cover tile at another zoom stops the run before any file is read or written. */
  lemma GeoJsonZoomMismatch(cover: seq<Tile>, zoom: nat, files: seq<FeatureFile>, burn: Burn, size: nat,
                            root: string, k: nat)
    requires k < |cover| && cover[k].z != zoom
    ensures GeoJsonRun(cover, zoom, files, burn, size, root) == Run(Exited(ZoomMessage), [], [])
  {
  }

  /** A completed GeoJSON run writes each cover tile once, in cover order, at
      `root/z/x/y.png`; distinct tiles go to distinct files; a tile gets the burn of
      the planar polygons listed for it, or a blank uint8 tile when none are. */
  lemma GeoJsonRunWrites(cover: seq<Tile>, zoom: nat, files: seq<FeatureFile>, burn: Burn, size: nat,
                         root: string)
    requires GeoJsonRun(cover, zoom, files, burn, size, root).outcome == Completed
    ensures var r := GeoJsonRun(cover, zoom, files, burn, size, root);
            && |r.written| == |cover|
            && (forall k :: 0 <= k < |cover| ==> r.written[k].path == TilePath(root, cover[k]))
            && (forall k, j :: 0 <= k < |cover| && 0 <= j < |cover| && cover[k] != cover[j] ==>
                  r.written[k].path != r.written[j].path)
            && (forall k :: 0 <= k < |cover| ==>
                  || r.written[k].raster == Zeros(size, U1)
                  || (&& r.written[k].raster.Burnt?
                      && r.written[k].raster.tile == cover[k]
                      && |r.written[k].raster.polygons| > 0
                      && (forall n :: 0 <= n < |r.written[k].raster.polygons| ==>
                            Planar(r.written[k].raster.polygons[n]))))
    ensures var r := GeoJsonRun(cover, zoom, files, burn, size, root);
            var ix := FilesStep(Index(map[], []), files, burn, zoom).value;
            forall k :: 0 <= k < |cover| ==>
              && (r.written[k].raster == Zeros(size, U1) <==> cover[k] !in ix.features)
              && (cover[k] in ix.features ==>
                    r.written[k].raster == Burnt(cover[k], ix.features[cover[k]], size, LastEpsg(files)))
  {
    var ix := FilesStep(Index(map[], []), files, burn, zoom).value;
    FilesStepSound(Index(map[], []), files, burn, zoom);
    forall k, j | 0 <= k < |cover| && 0 <= j < |cover| && cover[k] != cover[j]
      ensures TilePath(root, cover[k]) != TilePath(root, cover[j])
    {
      if TilePath(root, cover[k]) == TilePath(root, cover[j]) {
        TilePathInjective(root, cover[k], cover[j]);
      }
    }
  }

  // ---------------------------------------------------------------------
  // PostGIS

  /** What one cover tile comes to (rasterize.py:210-249): a raster to write and whether
      the handler caught an exception (warning and reconnection), or the decoder's exit. */
  datatype TileOutcome = Write(raster: Raster, caught: bool) | Exit(message: string)

  /** The squeeze of the decoded array (rasterize.py:242): a one-band array loses its band
      axis; None or any other band count makes `np.squeeze(..., axis=2)` raise. */
  function PostGisTile(q: QueryResult, size: nat): TileOutcome
  {
    var blank := Zeros(size, F8);
    match q
    case QueryRaised => Write(blank, true)
    case NoRow => Write(blank, false)
    case Row(wkb) =>
      match Decode(wkb, 0).result
      case Err(e) => if e.Fatal() then Exit(e.ExitMessage()) else Write(blank, true)
      case Ok(None) => Write(blank, true)
      case Ok(Some(g)) => if g.bands == 1 then Write(Squeezed(g), false) else Write(blank, true)
  }

  /** What each cover tile comes to when the database answers `fetch`. */
  function TileOutcomes(fetch: Tile -> QueryResult, size: nat): Tile -> TileOutcome
  {
    t => PostGisTile(fetch(t), size)
  }

  /** Progress of the PostGIS tile loop: files written, lines logged, reconnections made,
      and the exit message once the decoder has ended the run. */
  datatype Progress = Progress(written: seq<Output>, log: seq<string>, reconnects: nat, exit: Option<string>)

  /** The tile loop of rasterize.py:209-249 over what each tile comes to (`PostGisTile` of
      its query result, in the run): a write, with a warning and a reconnection when the
      handler caught an exception, until the first exit. */
  function PostGisRun(cover: seq<Tile>, outcome: Tile -> TileOutcome, root: string): Progress
    decreases |cover|
  {
    if cover == [] then Progress([], [], 0, None)
    else
      var k := |cover| - 1;
      var p := PostGisRun(cover[..k], outcome, root);
      if p.exit.Some? then p
      else
        match outcome(cover[k])
        case Exit(message) => Progress(p.written, p.log, p.reconnects, Some(message))
        case Write(raster, caught) =>
          Progress(p.written + [Output(TilePath(root, cover[k]), raster)],
                   p.log + (if caught then [InvalidGeometries(cover[k])] else []),
                   p.reconnects + (if caught then 1 else 0), None)
  }

  /** A tile whose query fails, returns no row, returns bytes the decoder rejects with an
      exception, or returns anything but one band is written blank (float64 zeros); only
      the offline-band and mixed-type errors end the run, with their message. */
  lemma PostGisTileCases(q: QueryResult, size: nat)
    ensures var o := PostGisTile(q, size);
            && (o.Exit? <==> q.Row? && Decode(q.wkb, 0).result.Err? && Decode(q.wkb, 0).result.error.Fatal())
            && (o.Exit? ==> o.message == "OffLine PostGIS WKB Data not supported."
                            || o.message == "Mixed PostGIS WBK Data type not supported.")
            && (o.Write? && o.raster != Zeros(size, F8) ==>
                  q.Row? && Decode(q.wkb, 0).result == Ok(Some(o.raster.grid)) && o.raster.grid.bands == 1
                  && o.raster.grid.Valid())
            && (o.Write? ==> (o.caught <==> q.QueryRaised? || (q.Row? && o.raster == Zeros(size, F8))))
  {
    if q.Row? {
      DecodeAccounting(q.wkb, 0);
    }
  }

  /** The 8-bit single-band raster the query builds is written as its one band, whatever
      its flag bits besides the offline bit and the pixel type. */
  lemma PostGisTile8BUI(flag: byte, h: Header, bits: byte, nodata: byte, pixels: seq<byte>, size: nat)
    requires HeaderFits(h) && h.bands == 1 && |pixels| == h.width * h.height
    requires !OfflineBit(bits) && PixelCode(bits) == 4
    ensures PostGisTile(Row(EncodeRaster(flag, h, [BandWire(bits, [nodata], pixels)])), size)
            == Write(Squeezed(Grid(h.height, h.width, 1, U1, [pixels])), false)
  {
    Decode8BUI(flag, h, bits, nodata, pixels);
  }

  /** The PostGIS loop logs one warning per reconnection, writes at most one file per
      cover tile, and covers every tile unless the decoder exited, in which case the
      first tile not written is the one whose outcome is that exit. */
  lemma {:induction false} PostGisRunShape(cover: seq<Tile>, outcome: Tile -> TileOutcome, root: string)
    ensures var p := PostGisRun(cover, outcome, root);
            && |p.log| == p.reconnects
            && |p.written| <= |cover|
            && (p.exit.None? <==> |p.written| == |cover|)
            && (p.exit.Some? ==> outcome(cover[|p.written|]) == Exit(p.exit.value))
    decreases |cover|
  {
    if cover != [] {
      var k := |cover| - 1;
      PostGisRunShape(cover[..k], outcome, root);
      var p := PostGisRun(cover[..k], outcome, root);
      if p.exit.Some? {
        assert cover[..k][|p.written|] == cover[|p.written|];
      }
    }
  }

  /** The n-th file the PostGIS loop writes is the n-th cover tile's, at `root/z/x/y.png`,
      holding the raster that tile's query result comes to. */
  lemma {:induction false} PostGisRunWrittenAt(cover: seq<Tile>, outcome: Tile -> TileOutcome, root: string, n: nat)
    requires n < |PostGisRun(cover, outcome, root).written|
    ensures && n < |cover|
            && outcome(cover[n]).Write?
            && PostGisRun(cover, outcome, root).written[n]
               == Output(TilePath(root, cover[n]), outcome(cover[n]).raster)
    decreases |cover|
  {
    var k := |cover| - 1;
    var p := PostGisRun(cover[..k], outcome, root);
    var r := PostGisRun(cover, outcome, root);
    if n < |p.written| {
      assert r.written[n] == p.written[n];
      PostGisRunWrittenAt(cover[..k], outcome, root, n);
      assert cover[..k][n] == cover[n];
    } else {
      PostGisRunShape(cover[..k], outcome, root);
      assert p.exit.None? && outcome(cover[k]).Write? && n == k;
      assert r.written[n] == Output(TilePath(root, cover[k]), outcome(cover[k]).raster);
    }
  }

  /** Tiles from the first one whose outcome is an exit on are never written, and the run
      ends with an exit. */
  lemma PostGisFatalStops(cover: seq<Tile>, outcome: Tile -> TileOutcome, root: string, k: nat)
    requires k < |cover| && outcome(cover[k]).Exit?
    ensures var p := PostGisRun(cover, outcome, root);
            p.exit.Some? && |p.written| <= k
  {
    PostGisRunShape(cover, outcome, root);
    var p := PostGisRun(cover, outcome, root);
    if |p.written| > k {
      PostGisRunWrittenAt(cover, outcome, root, k);
      assert false;
    }
  }

  // ---------------------------------------------------------------------
  // The run

  /** The state `main` changes as it goes: the files written under `root`, the log, the
      number of database connections opened after the first. */
  class Rasterizer {
    const root: string
    const tileSize: nat
    var written: seq<Output>
    var log: seq<string>
    var reconnects: nat

    constructor(root: string, tileSize: nat)
      ensures this.root == root && this.tileSize == tileSize
      ensures written == [] && log == [] && reconnects == 0
    {
      this.root := root;
      this.tileSize := tileSize;
      written := [];
      log := [];
      reconnects := 0;
    }

    /** `write_tile(root, tile, colors, out)`: saves `out` as `root/z/x/y.png`. */
    method WriteTile(t: Tile, raster: Raster)
      modifies this`written
      ensures written == old(written) + [Output(TilePath(root, t), raster)]
    {
      written := written + [Output(TilePath(root, t), raster)];
    }

    /** The GeoJSON branch (rasterize.py:165-191). */
    method RunGeoJson(cover: seq<Tile>, zoom: nat, files: seq<FeatureFile>, burn: Burn)
      returns (outcome: Outcome)
      modifies this`written, this`log
      ensures var r := GeoJsonRun(cover, zoom, files, burn, tileSize, root);
              && outcome == r.outcome
              && (outcome != Crashed ==> written == old(written) + r.written && log == old(log) + r.log)
    {
      if !AllAtZoom(cover, zoom) {
        return Exited(ZoomMessage);
      }
      var index := new Indexer(burn, zoom);
      var ok, epsg := index.AddFiles(files);
      if !ok {
        return Crashed;
      }
      ghost var ix := FilesStep(Index(map[], []), files, burn, zoom).value;
      var features := index.featureMap;
      log := log + index.log;
      assert features == ix.features && log == old(log) + ix.log;
      var k := 0;
      while k < |cover|
        invariant k <= |cover|
        invariant written == old(written) + GeoJsonOutputs(cover[..k], features, tileSize, epsg, root)
        invariant log == old(log) + ix.log
      {
        var t := cover[k];
        var raster := GeoJsonRaster(features, t, tileSize, epsg);
        MapSnoc(cover, GeoJsonOutput(features, tileSize, epsg, root), k);
        WriteTile(t, raster);
        k := k + 1;
      }
      assert cover[..k] == cover;
      return Completed;
    }

    /** The `try` block of one cover tile of the PostGIS loop (rasterize.py:238-243): decode
        the row's bytes from a fresh stream and squeeze the band axis; an exception is
        caught, and the decoder's `sys.exit` is not. */
    method QueryTile(q: QueryResult) returns (o: TileOutcome)
      ensures o == PostGisTile(q, tileSize)
    {
      var raster := Zeros(tileSize, F8);
      match q {
        case QueryRaised =>
          return Write(raster, true);
        case NoRow =>
          return Write(raster, false);
        case Row(wkb) =>
          var stream := new ByteStream(wkb);
          var decoded := WkbToNumpy(stream);
          match decoded {
            case Err(e) =>
              if e.Fatal() {
                return Exit(e.ExitMessage());
              }
              return Write(raster, true);
            case Ok(None) =>
              return Write(raster, true);
            case Ok(Some(g)) =>
              if g.bands == 1 {
                return Write(Squeezed(g), false);
              }
              return Write(raster, true);
          }
      }
    }

    /** The handler and the write that end one cover tile (rasterize.py:245-249): on a
        caught exception a warning is logged and the connection reopened; then the tile's
        raster is saved. */
    method FinishTile(t: Tile, raster: Raster, caught: bool)
      modifies this`written, this`log, this`reconnects
      ensures written == old(written) + [Output(TilePath(root, t), raster)]
      ensures log == old(log) + (if caught then [InvalidGeometries(t)] else [])
      ensures reconnects == old(reconnects) + (if caught then 1 else 0)
    {
      if caught {
        log := log + [InvalidGeometries(t)];
        reconnects := reconnects + 1;
      }
      WriteTile(t, raster);
    }

    /** The PostGIS branch (rasterize.py:207-249); `fetch` stands for the database. */
    method RunPostGis(cover: seq<Tile>, fetch: Tile -> QueryResult) returns (outcome: Outcome)
      modifies this`written, this`log, this`reconnects
      ensures var p := PostGisRun(cover, TileOutcomes(fetch, tileSize), root);
              && outcome == (if p.exit.Some? then Exited(p.exit.value) else Completed)
              && written == old(written) + p.written && log == old(log) + p.log
              && reconnects == old(reconnects) + p.reconnects
    {
      ghost var outcomes := TileOutcomes(fetch, tileSize);
      var k := 0;
      while k < |cover|
        invariant k <= |cover|
        invariant var p := PostGisRun(cover[..k], outcomes, root);
                  && p.exit.None?
                  && written == old(written) + p.written && log == old(log) + p.log
                  && reconnects == old(reconnects) + p.reconnects
      {
        var o := QueryTile(fetch(cover[k]));
        assert o == outcomes(cover[k]);
        PostGisRunNext(cover, outcomes, root, k);
        if o.Exit? {
          PostGisRunExited(cover, outcomes, root, k + 1);
          return Exited(o.message);
        }
        FinishTile(cover[k], o.raster, o.caught);
        k := k + 1;
      }
      assert cover[..k] == cover;
      return Completed;
    }

    /** `main` after configuration (rasterize.py:127-249): the mode check, then the branch
        for the input given. */
    method Execute(geojson: seq<FeatureFile>, postgis: string, zoom: nat, cover: seq<Tile>, burn: Burn,
                fetch: Tile -> QueryResult) returns (outcome: Outcome)
      modifies this`written, this`log, this`reconnects
      ensures !OneMode(geojson, postgis) ==>
                && outcome == Exited(ModeMessage)
                && written == old(written) && log == old(log) && reconnects == old(reconnects)
      ensures OneMode(geojson, postgis) && |geojson| > 0 ==>
                var r := GeoJsonRun(cover, zoom, geojson, burn, tileSize, root);
                && outcome == r.outcome && reconnects == old(reconnects)
                && (outcome != Crashed ==> written == old(written) + r.written && log == old(log) + r.log)
      ensures OneMode(geojson, postgis) && |postgis| > 0 ==>
                var p := PostGisRun(cover, TileOutcomes(fetch, tileSize), root);
                && outcome == (if p.exit.Some? then Exited(p.exit.value) else Completed)
                && written == old(written) + p.written && log == old(log) + p.log
                && reconnects == old(reconnects) + p.reconnects
    {
      if !OneMode(geojson, postgis) {
        return Exited(ModeMessage);
      }
      if |geojson| > 0 {
        outcome := RunGeoJson(cover, zoom, geojson, burn);
      } else {
        outcome := RunPostGis(cover, fetch);
      }
    }
  }

  /** One more cover tile, while the decoder has not exited: the loop ends with that
      tile's exit, or writes its raster, with a warning and a reconnection when caught. */
  lemma PostGisRunNext(cover: seq<Tile>, outcome: Tile -> TileOutcome, root: string, k: nat)
    requires k < |cover| && PostGisRun(cover[..k], outcome, root).exit.None?
    ensures var p, t := PostGisRun(cover[..k], outcome, root), cover[k];
            PostGisRun(cover[..k + 1], outcome, root)
            == match outcome(t)
               case Exit(message) => Progress(p.written, p.log, p.reconnects, Some(message))
               case Write(raster, caught) =>
                 Progress(p.written + [Output(TilePath(root, t), raster)],
                          p.log + (if caught then [InvalidGeometries(t)] else []),
                          p.reconnects + (if caught then 1 else 0), None)
  {
    assert cover[..k + 1][..k] == cover[..k];
  }

  /** Once the decoder has exited at some tile, the loop's result keeps that exit. */
  lemma {:induction false} PostGisRunExited(cover: seq<Tile>, outcome: Tile -> TileOutcome, root: string, k: nat)
    requires k <= |cover| && PostGisRun(cover[..k], outcome, root).exit.Some?
    ensures PostGisRun(cover, outcome, root) == PostGisRun(cover[..k], outcome, root)
    decreases |cover| - k
  {
    if k < |cover| {
      assert cover[..k + 1][..k] == cover[..k];
      PostGisRunExited(cover, outcome, root, k + 1);
    } else {
      assert cover[..k] == cover;
    }
  }
}
