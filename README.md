# rasterize: a verified model

This project models the core of robosat.pink's `rasterize` tool
(`robosat_pink/tools/rasterize.py`). The tool turns vector features into one
label PNG per tile of a cover list. The model has three parts.

- **The PostGIS WKB raster decoder** (`wkb_to_numpy`). It reads a flag byte,
  the 60-byte `HHddddddIHH` header, and then, per band, a flag byte, a skipped
  no-data value and a row-major `width*height` pixel block. The result is a
  `height x width x bands` array. The rules are:
  - An out-of-line band ends the process. So does a band whose pixel type
    differs from band 0's.
  - A pixel code outside the 11-entry tables raises.
  - So does data cut short.
  - In module `Wkb` this is the function `Decode` over the bytes and absolute
    stream positions. `WkbReader.WkbToNumpy` is the stream-advancing method,
    proved equal to it. It works over a `ByteStream` (`io.BytesIO`) and fills
    one pixel block per band in an array.
  - `EncodeRaster` writes the layout, so the round trip and the error cases can
    be stated as lemmas.
- **The GeoJSON feature map** (`geojson_parse_polygon`,
  `geojson_parse_geometry` and the file and feature loops). Each polygon is cut
  down to planar `[x, y]` rings. It is appended to the list of every tile the
  burn-tiles primitive returns. A `ValueError` from the burn logs a warning;
  a non-surfacic geometry logs a notice.
  - Module `FeatureIndex` holds step functions on values (`PolygonStep` …
    `FilesStep`).
  - The class `Indexer` holds the mutable map and log. Its methods are proved
    against those functions.
- **The per-tile driver** (`main` after configuration, and `write_tile`), in
  module `Rasterize`. It covers:
  - the input-mode check and the zoom check;
  - one write per cover tile, in cover order, to `root/z/x/y.png` (module
    `Tiles`);
  - the GeoJSON burn-or-blank rule;
  - the PostGIS decode-or-blank rule, with its warning and reconnection;
  - the decoder's `sys.exit`, which the per-tile handler does not catch.

  `GeoJsonRun` and `PostGisRun` specify the two branches on values. The class
  `Rasterizer` runs them with state: files written, log lines, reconnections.

Where the code and its documentation differ, the model follows the code:
- A GeometryCollection is opened one level only. A collection nested in it
  gets the "non surfacic" notice (`GeometryStepSound`).
- An empty PostGIS payload is an empty `BytesIO`, which is truthy. It therefore
  raises on the first read instead of returning None, and the tile is written
  blank (`DecodeRejectsShortHeader`, `PostGisTileCases`).
- The invalid-feature warning carries the index the ring loop left in `i`, not the
  feature's (`PolygonStep`, `Indexer.ParsePolygon`, `PolygonStepEffect`); the run's log
  is the program's. The intended line is modelled beside it (see "## Findings").
- The byte-order flag is never honoured. `struct.unpack` returns a tuple, and a
  tuple never equals `0`, so every raster is read little-endian
  (`ByteOrderAlwaysLittle`, `DecodeIgnoresByteOrderFlag`).
- A PostGIS query that returns no row writes a blank `float64` tile with no warning
  and no reconnection; only a raised query and a blank decode warn (`PostGisTileCases`).

## Model

| member | source | states |
|---|---|---|
| Common.NatToString | robosat_pink/tools/rasterize.py:115-122 | `str(n)` of a non-negative integer is a nonempty string of decimal digits |
| Common.ParseNatToString | robosat_pink/tools/rasterize.py:115-122 | reading the digits of `str(n)` back gives `n` |
| Common.NatToStringInjective | robosat_pink/tools/rasterize.py:115-122 | different numbers print differently |
| Tiles.TilePath | robosat_pink/tools/rasterize.py:115-122 | the file `write_tile` saves is the root's directory prefix followed by `z/x/y.png` |
| Tiles.TileSuffixInjective | robosat_pink/tools/rasterize.py:117-122 | the path below the root determines the tile |
| Tiles.TilePathInjective | robosat_pink/tools/rasterize.py:115-122 | distinct tiles are saved to distinct files under one root |
| Wkb.PixelCode | robosat_pink/tools/rasterize.py:97-98 | `bits & 15` is below 16 |
| Wkb.ItemSize | robosat_pink/tools/rasterize.py:97-98 | every element type has an item size of 1, 2, 4 or 8 bytes |
| Wkb.TablesAgree | robosat_pink/tools/rasterize.py:97-98 | for each of the 11 codes, the size table agrees with the item size of the dtype table |
| Wkb.ScaleIsProduct | robosat_pink/tools/rasterize.py:108 | the block length used by the model is `n * size` |
| Wkb.CellsIsProduct | robosat_pink/tools/rasterize.py:108 | a band has `height * width` cells |
| Wkb.CellsPositive | robosat_pink/tools/rasterize.py:108 | a band has cells exactly when both height and width are positive |
| Wkb.UnsignedLE | robosat_pink/tools/rasterize.py:87-89 | a little-endian unsigned field of `n` bytes is below `256^n` |
| Wkb.LEBytes | robosat_pink/tools/rasterize.py:87-89 | writing `v` as `n` little-endian bytes and reading them back gives `v` |
| Wkb.Signed | robosat_pink/tools/rasterize.py:98 | the two's-complement reading of `i1`/`i2`/`i4` is in range, equals `v` or `v - 256^n`, and is negative exactly when the top bit is set |
| Wkb.ZeroBlock | robosat_pink/tools/rasterize.py:103 | the buffer behind `np.zeros` holds `count` items of the type's size |
| Wkb.ZeroBlockItems | robosat_pink/tools/rasterize.py:103 | every item of a zero buffer is the zero of its type |
| Wkb.ZeroGrid | robosat_pink/tools/rasterize.py:103 | `np.zeros((height, width, bands), dtype)` is a well-formed array of that shape and type |
| Wkb.ZeroGridCells | robosat_pink/tools/rasterize.py:103 | every element of that array is zero |
| Wkb.CellInPlane | robosat_pink/tools/rasterize.py:108 | cell (r, c) sits at a row-major offset inside its band |
| Wkb.ByteOrderAlwaysLittle | robosat_pink/tools/rasterize.py:86 | whatever the first byte, the byte order chosen is little-endian |
| Wkb.ChunkIsSlice | robosat_pink/tools/rasterize.py:88-108 | a `read(n)` inside the data is the slice of the next `n` bytes |
| Wkb.BandStep | robosat_pink/tools/rasterize.py:93-108 | one band pass only moves the stream forward, and a band it accepts has a code inside the tables |
| Wkb.DecodeBands | robosat_pink/tools/rasterize.py:91-110 | the band loop only moves the stream forward and stays inside the data |
| Wkb.Decode | robosat_pink/tools/rasterize.py:74-110 | the decoder leaves the stream between its start and the end of the data |
| Wkb.BandWireSizeIsProduct | robosat_pink/tools/rasterize.py:93-108 | one band takes `1 + size + width*height*size` bytes |
| Wkb.BandStepAccounting | robosat_pink/tools/rasterize.py:93-108 | an accepted band consumes its flag byte, its no-data value and its full block, unless the block is empty and the no-data value runs short at the end of the data; after band 0 its code equals band 0's |
| Wkb.BandStepAtEnd | robosat_pink/tools/rasterize.py:93 | no band can be read from exhausted data; the result is a raise |
| Wkb.DecodeBandsShape | robosat_pink/tools/rasterize.py:91-110 | an array returned by the band loop has the announced height, width and band count and, once a band has fixed the pixel type, that type's dtype; None only when there are no bands |
| Wkb.DecodeAccounting | robosat_pink/tools/rasterize.py:86-110 | on success the decoder consumes 1 + 60 bytes and, per band, `1 + size + width*height*size` bytes (cut at the end of the data only when a band is empty), and returns the header's shape with the dtype of band 0's pixel code (the flag byte at offset 61); zero bands leaves `out` None after 61 bytes |
| Wkb.LoopAccounting | robosat_pink/tools/rasterize.py:91-110 | the same accounting, shape and band-0 dtype for the band loop alone |
| Wkb.DecodeBandsAccounting | robosat_pink/tools/rasterize.py:97-108 | band 0 fixes the pixel type, so every band takes the same number of bytes |
| Wkb.RestAccounting | robosat_pink/tools/rasterize.py:102-108 | from band 1 on, each band read takes the size of band 0's code |
| Wkb.AccountingStep | robosat_pink/tools/rasterize.py:91-108 | one band plus the rest of the loop adds up to the span of all bands |
| Wkb.DecodeAfterHeader | robosat_pink/tools/rasterize.py:86-91 | a raster shorter than 61 bytes raises at the header; otherwise decoding is the band loop after it |
| Wkb.ChunkReadsAhead | robosat_pink/tools/rasterize.py:88-108 | a read depends only on the bytes it returns |
| Wkb.BandStepReadsAhead | robosat_pink/tools/rasterize.py:93-108 | a band pass reads nothing before its start |
| Wkb.DecodeBandsReadsAhead | robosat_pink/tools/rasterize.py:91-108 | the band loop reads nothing before its start |
| Wkb.DecodeIgnoresByteOrderFlag | robosat_pink/tools/rasterize.py:86 | changing the byte-order flag changes nothing in the outcome |
| Wkb.EncodeHeader | robosat_pink/tools/rasterize.py:87-89 | a written header is 60 bytes long |
| Wkb.ParseEncodedHeader | robosat_pink/tools/rasterize.py:87-89 | parsing a written header as `HHddddddIHH` gives it back |
| Wkb.WindowParts | robosat_pink/tools/rasterize.py:93-108 | the flag byte and the pixel block of a written band lie where a reader looks for them |
| Wkb.EncodedBandBytes | robosat_pink/tools/rasterize.py:93-108 | a written band holds its flag byte first and its pixel block last |
| Wkb.BandStepEncoded | robosat_pink/tools/rasterize.py:93-108 | a well-formed band is read whole and its block stored as written |
| Wkb.RunAtSplit | robosat_pink/tools/rasterize.py:91-108 | a run of written bands is its first band followed by the rest of the run |
| Wkb.RunIsLaidOut | robosat_pink/tools/rasterize.py:91-108 | the bands of a written run sit one after the other |
| Wkb.EncodedStepsThrough | robosat_pink/tools/rasterize.py:91-108 | band passes over written bands read them one after the other |
| Wkb.DecodeEncodedBands | robosat_pink/tools/rasterize.py:91-110 | the band loop over written bands of one type stores each block and stops right after the last |
| Wkb.DecodeBandsStop | robosat_pink/tools/rasterize.py:93-108 | a band that fails ends the loop with its error |
| Wkb.DecodeBandsNext | robosat_pink/tools/rasterize.py:91-108 | a band read whole lets the loop go on with its block stored |
| Wkb.DecodeAfterEncodedHeader | robosat_pink/tools/rasterize.py:86-91 | a written header is read back and the band loop starts at byte 61 |
| Wkb.DecodeEncodedPrefix | robosat_pink/tools/rasterize.py:86-108 | after a written header and a run of good bands, decoding is the band loop from the next band |
| Wkb.EncodedRasterSteps | robosat_pink/tools/rasterize.py:86-108 | where a written raster puts its header and its bands |
| Wkb.DecodeEncodedRaster | robosat_pink/tools/rasterize.py:74-110 | round trip: a written raster decodes to the `height x width x bands` array of its blocks, or to None when it has no bands; trailing bytes are not read |
| Wkb.BlocksLayout | robosat_pink/tools/rasterize.py:103-108 | `out[r, c, b]` is item `r*width + c` of band `b`'s block, decoded as the code's dtype |
| Wkb.Decode8BUI | robosat_pink/tools/rasterize.py:74-110 | the one-band 8BUI raster the query returns, with any in-line band flag of pixel type 4 (no-data bit set or not), decodes to a one-band `u1` array of its pixel bytes |
| Wkb.U1GridAt | robosat_pink/tools/rasterize.py:108 | cell (r, c) of a one-band `u1` array is the unsigned byte at offset `r*width + c` |
| Wkb.DecodeRejectsOfflineBand | robosat_pink/tools/rasterize.py:93-95 | a band flag with bit 7 set, after any run of good bands, ends the run with the offline exit |
| Wkb.DecodeRejectsMixedPixelType | robosat_pink/tools/rasterize.py:102-106 | a later band with another known code ends the run with the mixed-type exit |
| Wkb.DecodeRejectsUnknownPixelType | robosat_pink/tools/rasterize.py:97-98 | codes 11 to 15 raise an ordinary exception |
| Wkb.DecodeRejectsShortBlock | robosat_pink/tools/rasterize.py:108 | a pixel block cut short raises |
| Wkb.DecodeRejectsShortHeader | robosat_pink/tools/rasterize.py:86-89 | fewer than 61 bytes raise before any band is read |
| WkbReader.ByteStream.constructor | robosat_pink/tools/rasterize.py:242 | `io.BytesIO(row[0])` starts at position 0 |
| WkbReader.ByteStream.Read | robosat_pink/tools/rasterize.py:86-108 | `read(n)` returns the next bytes, at most `n`, and fewer at the end of the data |
| WkbReader.BlockBytes | robosat_pink/tools/rasterize.py:108 | `width * height * size` is the block length the specification uses |
| WkbReader.ReadBand | robosat_pink/tools/rasterize.py:93-108 | one pass of the band loop on the stream is `BandStep`, and leaves the stream where it says |
| WkbReader.ReadHeader | robosat_pink/tools/rasterize.py:86-89 | the flag byte and the header are read as `HeaderAt`, or the reads fall short and the stream is at its end |
| WkbReader.ReadBands | robosat_pink/tools/rasterize.py:91-110 | the band loop that fills the array allocated at band 0 returns what `DecodeBands` specifies and leaves the stream where it says |
| WkbReader.DecodeFromHeader | robosat_pink/tools/rasterize.py:86-91 | once the header is read, decoding is the band loop after it |
| WkbReader.WkbToNumpy | robosat_pink/tools/rasterize.py:74-110 | no stream gives None; otherwise the result and the stream position are those of `Decode` |
| FeatureIndex.FlattenRing | robosat_pink/tools/rasterize.py:141-142 | a ring is flattened exactly when every position has at least two coordinates, and each position becomes its first two |
| FeatureIndex.FlattenRings | robosat_pink/tools/rasterize.py:141-142 | a polygon is flattened exactly when every ring is, ring for ring |
| FeatureIndex.FlattenRingsPlanar | robosat_pink/tools/rasterize.py:141-142 | every position of a flattened polygon has exactly two coordinates |
| FeatureIndex.AppendAllLists | robosat_pink/tools/rasterize.py:144-145 | after the append loop each tile's list is its old list plus one copy of the polygon per time the burn returned that tile; a tile has a list exactly when it had one or was returned |
| FeatureIndex.InvalidFeatureInjective | robosat_pink/tools/rasterize.py:148 | different feature indices give different warning lines |
| FeatureIndex.EpsgCode | robosat_pink/tools/rasterize.py:175 | `crs['init'][5:]` is what follows the 5-character prefix, or empty when the entry is shorter |
| FeatureIndex.GrowsTransitive | robosat_pink/tools/rasterize.py:173-182 | the map only grows, step after step |
| FeatureIndex.PolygonStepEffect | robosat_pink/tools/rasterize.py:138-150 | a polygon is appended once per returned tile with the log unchanged; when the burn raises `ValueError`, every list stays as it was and the one warning logged carries the index the ring loop rebound (the last ring index, or `i` when there are no rings) |
| FeatureIndex.PolygonStepSound | robosat_pink/tools/rasterize.py:138-150 | the map keeps only nonempty lists of planar polygons, and a polygon step logs nothing but invalid-feature warnings (`WarningsOnly`), all of them lines its feature can log |
| FeatureIndex.FeatureLinesAppend | robosat_pink/tools/rasterize.py:147-161 | lines one feature can log (its notices and invalid-feature warnings), logged in two stretches, are still lines that feature can log |
| FeatureIndex.StepOkChain | robosat_pink/tools/rasterize.py:152-163 | two steps for the same feature make one step for it |
| FeatureIndex.WarningsOnlyAppend | robosat_pink/tools/rasterize.py:147-159 | invalid-feature warnings logged in two stretches are warnings throughout |
| FeatureIndex.PolygonsStepSound | robosat_pink/tools/rasterize.py:157-159 | the members of a MultiPolygon keep the map sound, only add to it, and log nothing but invalid-feature warnings (`WarningsOnly`) |
| FeatureIndex.GeometryStepSound | robosat_pink/tools/rasterize.py:152-163 | a geometry step keeps the map sound and logs only notices naming the feature or invalid-feature warnings; any type but Polygon and MultiPolygon, a nested collection included, logs one notice with its type and index and changes no list |
| FeatureIndex.GeometriesStepSound | robosat_pink/tools/rasterize.py:178-180 | the members of a collection keep the map sound and log only notices naming the feature or invalid-feature warnings |
| FeatureIndex.FeatureStepSound | robosat_pink/tools/rasterize.py:178-182 | one feature logs only notices naming it or invalid-feature warnings, and the map stays sound and only grows |
| FeatureIndex.FilesStepSound | robosat_pink/tools/rasterize.py:173-182 | building the map from files keeps it sound, and only grows it and the log |
| FeatureIndex.FeaturesStepSound | robosat_pink/tools/rasterize.py:176-182 | the features of one file keep the map sound, and only grow it and the log |
| FeatureIndex.PolygonsStepFails | robosat_pink/tools/rasterize.py:158-159 | an uncaught exception in one member polygon ends the run |
| FeatureIndex.GeometriesStepFails | robosat_pink/tools/rasterize.py:179-180 | an uncaught exception in one collection member ends the run |
| FeatureIndex.FeaturesStepFails | robosat_pink/tools/rasterize.py:176-182 | an uncaught exception in one feature ends the run |
| FeatureIndex.FilesStepFails | robosat_pink/tools/rasterize.py:173-182 | an uncaught exception in one file ends the run |
| FeatureIndex.PolygonsStepSplit | robosat_pink/tools/rasterize.py:157-159 | a MultiPolygon's members are taken one after the other: the steps for `ps + qs` are those for `ps`, then those for `qs` |
| FeatureIndex.MultiPolygonOfOne | robosat_pink/tools/rasterize.py:154-159 | a MultiPolygon with one member behaves as that Polygon with the same index |
| FeatureIndex.WarnedIndexAsWritten | robosat_pink/tools/rasterize.py:141-148 | as written, the warning shows the last ring index, or the feature index when the polygon has no rings |
| FeatureIndex.AsWrittenWarningMisnamesFeature | robosat_pink/tools/rasterize.py:141-148 | as written, a one-ring polygon of feature 5 is reported as "invalid feature 0" |
| FeatureIndex.AsWrittenWarningIgnoresFeature | robosat_pink/tools/rasterize.py:141-148 | as written, polygons with the same number of rings give the same warning, whatever the feature |
| FeatureIndex.PolygonStepIntendedAgrees | robosat_pink/tools/rasterize.py:138-150 | the step with the intended warning differs from the step as written only in the warning line, which agrees exactly when no warning is logged or the rebound index happens to be the feature's |
| FeatureIndex.IntendedWarningIdentifiesFeature | robosat_pink/tools/rasterize.py:147-148 | with the intended warning, two polygons whose burns raise leave the same log only when they belong to the same feature |
| FeatureIndex.Indexer.constructor | robosat_pink/tools/rasterize.py:170-171 | the `defaultdict(list)` starts empty, and so does the log |
| FeatureIndex.Indexer.ParsePolygon | robosat_pink/tools/rasterize.py:138-150 | the in-place flatten, which rebinds the index to each ring's, and the appends or the warning leave the map and log `PolygonStep` gives, or report the uncaught exception |
| FeatureIndex.Indexer.ParseGeometry | robosat_pink/tools/rasterize.py:152-163 | the dispatch leaves the map and log `GeometryStep` gives |
| FeatureIndex.Indexer.AddFeature | robosat_pink/tools/rasterize.py:178-182 | one feature leaves the map and log `FeatureStep` gives |
| FeatureIndex.Indexer.AddFeatures | robosat_pink/tools/rasterize.py:176-182 | the feature loop leaves the map and log `FeaturesStep` gives |
| FeatureIndex.Indexer.AddFiles | robosat_pink/tools/rasterize.py:170-182 | the file loop leaves the map and log `FilesStep` gives, and the EPSG code is the last file's, or 4326 when there are none |
| Rasterize.GeoJsonZoomMismatch | robosat_pink/tools/rasterize.py:167-168 | a cover tile at another zoom ends the run with the zoom message, before any file is read or written |
| Rasterize.GeoJsonRunWrites | robosat_pink/tools/rasterize.py:185-191 | a completed GeoJSON run writes each cover tile once, in cover order, at `root/z/x/y.png`; distinct tiles go to distinct files; a tile is blank (`uint8` zeros) exactly when the feature map built from the files has no entry for it, and otherwise is the burn of exactly that entry (a nonempty list of planar polygons) at the configured tile size, reprojected from the EPSG code of the last file read |
| Rasterize.PostGisTileCases | robosat_pink/tools/rasterize.py:238-249 | a tile exits exactly when its row decodes to a fatal error, with one of the two messages; anything but a decoded one-band array is written blank (`float64` zeros); the warning is logged exactly when the query raised or the row gave a blank |
| Rasterize.PostGisTile8BUI | robosat_pink/tools/rasterize.py:228-242 | the 8BUI raster the query builds, whatever its band flag besides the offline bit and pixel type, is written as its one band, with no warning |
| Rasterize.PostGisRunShape | robosat_pink/tools/rasterize.py:207-249 | one warning per reconnection; at most one file per cover tile; every tile is written unless the decoder exited, and then the first tile not written is the one that exited |
| Rasterize.PostGisRunWrittenAt | robosat_pink/tools/rasterize.py:207-249 | the n-th file written is the n-th cover tile's, at its path, with the raster its query result gives |
| Rasterize.PostGisFatalStops | robosat_pink/tools/rasterize.py:238-249 | the decoder's exit is not swallowed: from the first tile that exits on, no tile is written and the run ends with that exit |
| Rasterize.PostGisRunNext | robosat_pink/tools/rasterize.py:207-249 | one more tile either ends the loop with its exit or adds its write, plus a warning and a reconnection when caught |
| Rasterize.PostGisRunExited | robosat_pink/tools/rasterize.py:207-249 | once the decoder has exited, later tiles change nothing |
| Rasterize.Rasterizer.constructor | robosat_pink/tools/rasterize.py:135-136 | a run starts with no files written, an empty log and no reconnection |
| Rasterize.Rasterizer.WriteTile | robosat_pink/tools/rasterize.py:113-122 | `write_tile` adds exactly one file, at `root/z/x/y.png`, holding the raster |
| Rasterize.Rasterizer.RunGeoJson | robosat_pink/tools/rasterize.py:165-191 | the GeoJSON branch ends as `GeoJsonRun` says, and unless it crashes, it writes and logs what that run does |
| Rasterize.Rasterizer.QueryTile | robosat_pink/tools/rasterize.py:238-243 | the try block of one tile comes to `PostGisTile` of its query result |
| Rasterize.Rasterizer.FinishTile | robosat_pink/tools/rasterize.py:244-249 | a caught exception logs the warning naming the tile and reconnects; then the tile is written |
| Rasterize.Rasterizer.RunPostGis | robosat_pink/tools/rasterize.py:207-249 | the PostGIS branch writes, logs, reconnects and ends as `PostGisRun` says |
| Rasterize.Rasterizer.Execute | robosat_pink/tools/rasterize.py:127-249 | both inputs or neither end the run with the mode message, writing, logging and reconnecting nothing; otherwise the files, log lines, reconnections and outcome are those of the GeoJSON or the PostGIS branch |

## Left out

- Database I/O is left out: the connection, the SRID query and its exits (rasterize.py:195-205), and the SQL text (:212-236). The query result of each tile is a parameter, `fetch`. A reconnection is counted, not performed. The reconnection itself raising is not modelled.
- Reprojection and rasterisation (`geojson_to_mercator`, `geojson_tile_burn`, :51-71) are floating-point geometry in foreign libraries. A burnt tile is the symbolic record `Burnt(tile, polygons, size, epsg)`.
- `burntiles.burn` is third-party. It is the parameter `burn`, returning the tiles or None for `ValueError`.
- `mercantile.bounds` is third-party and only feeds the SQL text.
- Image output is left out: PIL encoding, the palette, `os.makedirs` (:115-121). Only the path of the saved file is kept.
- robosat_pink/logs.py is not part of this model. Logging is an appended sequence of lines.
- argparse, config loading (so `tile_size` and the colours), fiona file reading, tqdm and `web_ui` (:251-255) are external. Each file is given as its CRS `init` entry and its geometries, and the tile size is a constructor argument.
- A feature without a geometry, or a geometry without `coordinates`, raises `KeyError`/`TypeError` in the source. Geometries are a datatype here, so such inputs do not arise.
- Float pixels (`f4`, `f8`) are kept as their raw bytes, not interpreted. The pixel block is read little-endian, i.e. the model assumes a little-endian host, since numpy's unprefixed dtypes use native order.
- WkbReader.WkbToNumpy: the `not wkb` branch is modelled as a null stream. In `main` the decoder only ever receives a `BytesIO`, which is always truthy, so that branch is unreachable there.
- The `ndarray` element values of a decoded array are computed from the stored blocks (`Grid.At`); numpy's strided memory layout is not modelled.
- The pixel-code tables are modelled exactly as written at :97-98. They are not checked against the PostGIS raster format's own type numbering.

- Rasterize.GeoJsonRun: an exception that escapes the feature loop (a position with fewer than two coordinates, whose `IndexError` the `except ValueError` does not catch) ends the run as `Crashed` with an empty log and no files. The warnings `log.log` had already written before the crash are not recorded, because the indexing step returns no partial index.
- Rasterize.GeoJsonRun: exceptions raised inside the tile loop are not modelled. In particular `int(epsg)` (rasterize.py:58) raises on a non-numeric code, such as the empty code `EpsgCode` gives for a short `init` entry; the source then stops with the earlier tiles already written, while the model reports `Completed` with a `Burnt` record carrying that code, because reprojection is outside the model.
- Rasterize.Rasterizer.RunGeoJson: on `Crashed` the method promises only the outcome; it leaves `written` and `log` unchanged, so the lines logged before the crash are not recorded either.

## Findings

| source | as written | input that shows it | evidently intended | confidence | as-written member | corrected member |
|---|---|---|---|---|---|---|
| robosat_pink/tools/rasterize.py:141-148 | `for i, ring in enumerate(...)` rebinds the feature index `i`, so the `ValueError` warning prints the last ring index | feature 5, a Polygon with one ring, for which the burn raises `ValueError`: the log says "invalid feature 0" | the warning names the feature being skipped (feature 5) | not executed | FeatureIndex.AsWrittenWarningMisnamesFeature | FeatureIndex.IntendedWarningIdentifiesFeature |

The run itself keeps the line as written: `PolygonStep` and `Indexer.ParsePolygon` log
`InvalidFeatureAsWritten`, so the log `GeoJsonRun` and `Rasterizer.RunGeoJson` produce is
the program's, and the soundness lemmas only promise an invalid-feature warning with some
index. `PolygonStepIntended` is the corrected step; `PolygonStepIntendedAgrees` relates it
to the step as written.
