/** The GeoJSON feature map of `rasterize` (robosat_pink/tools/rasterize.py:138-182):
    polygons are made planar, assigned to the tiles the burn-tiles primitive returns,
    and appended to those tiles' lists; invalid and non-surfacic geometries are logged
    and skipped. The functions here specify each step on values; `Indexer` is the
    object the source mutates, with one method per step proved against them. */
module FeatureIndex {
  import opened Common
  import opened Tiles

  /** A GeoJSON position: its coordinate values, of any dimension. */
  type Position = seq<real>
  type Ring = seq<Position>
  /** A polygon's `coordinates`: its rings, exterior first. */
  type Rings = seq<Ring>

  /** The name of a GeoJSON type the code does not dispatch on (Point, LineString, ...). */
  type OtherKind = kind: string | kind != "Polygon" && kind != "MultiPolygon" && kind != "GeometryCollection"
    witness "Point"

  /** The geometry of a feature, by its GeoJSON `type`. `Other` is every type the code
      does not dispatch on, carrying its type name. */
  datatype Geometry =
    | Polygon(rings: Rings)
    | MultiPolygon(polygons: seq<Rings>)
    | GeometryCollection(geometries: seq<Geometry>)
    | Other(kind: OtherKind)

  /** `geometry["type"]`. */
  function TypeName(g: Geometry): string
  {
    match g
    case Polygon(_) => "Polygon"
    case MultiPolygon(_) => "MultiPolygon"
    case GeometryCollection(_) => "GeometryCollection"
    case Other(kind) => kind
  }

  /** `burntiles.burn([feature], zoom)`: the tiles of the zoom level a polygon touches,
      or None when it raises `ValueError`. A third-party primitive, so a parameter. */
  type Burn = (Rings, nat) -> Option<seq<Tile>>

  // ---------------------------------------------------------------------
  // Making rings planar (rasterize.py:141-142)

  /** Every position of the polygon has exactly the two coordinates x and y. */
  ghost predicate Planar(p: Rings)
  {
    forall k, j :: 0 <= k < |p| && 0 <= j < |p[k]| ==> |p[k][j]| == 2
  }

  /** `[[x, y] for point in ring for x, y in zip([point[0]], [point[1]])]`: each position
      cut down to its first two coordinates; a position with fewer raises `IndexError`
      (None), which the surrounding `except ValueError` does not catch. */
  function FlattenRing(ring: Ring): (r: Option<Ring>)
    ensures r.Some? <==> forall j :: 0 <= j < |ring| ==> |ring[j]| >= 2
    ensures r.Some? ==> |r.value| == |ring| && forall j :: 0 <= j < |ring| ==> r.value[j] == ring[j][..2]
    decreases |ring|
  {
    if ring == [] then Some([])
    else if |ring[0]| < 2 then None
    else
      match FlattenRing(ring[1..])
      case None => None
      case Some(rest) =>
        assert [ring[0][0], ring[0][1]] == ring[0][..2];
        Some([[ring[0][0], ring[0][1]]] + rest)
  }

  /** The ring loop: every ring rewritten by `FlattenRing`, in order; None when one raises. */
  function FlattenRings(rings: Rings): (r: Option<Rings>)
    ensures r.Some? <==> forall k :: 0 <= k < |rings| ==> FlattenRing(rings[k]).Some?
    ensures r.Some? ==> |r.value| == |rings|
                        && forall k :: 0 <= k < |rings| ==> r.value[k] == FlattenRing(rings[k]).value
    decreases |rings|
  {
    if rings == [] then Some([])
    else
      match FlattenRing(rings[0])
      case None => None
      case Some(first) =>
        match FlattenRings(rings[1..])
        case None => None
        case Some(rest) => Some([first] + rest)
  }

  /** What the ring loop leaves behind is planar and keeps every ring's length. */
  lemma FlattenRingsPlanar(rings: Rings)
    requires FlattenRings(rings).Some?
    ensures var p := FlattenRings(rings).value;
            Planar(p) && |p| == |rings| && forall k :: 0 <= k < |p| ==> |p[k]| == |rings[k]|
  {
    var p := FlattenRings(rings).value;
    forall k, j | 0 <= k < |p| && 0 <= j < |p[k]| ensures |p[k][j]| == 2 {
      assert p[k] == FlattenRing(rings[k]).value;
    }
  }

  // ---------------------------------------------------------------------
  // The feature map and the log

  /** `feature_map` (tile to the polygons assigned to it) and the lines logged so far. */
  datatype Index = Index(features: map<Tile, seq<Rings>>, log: seq<string>)

  /** `feature_map[t]` of the `defaultdict(list)`: empty for a tile never appended to. */
  function Lookup(m: map<Tile, seq<Rings>>, t: Tile): seq<Rings>
  {
    if t in m then m[t] else []
  }

  /** `feature_map[t].append(p)` for each tile `t` of `tiles`, in order. */
  function AppendAll(m: map<Tile, seq<Rings>>, tiles: seq<Tile>, p: Rings): map<Tile, seq<Rings>>
    decreases |tiles|
  {
    if tiles == [] then m
    else
      var before := AppendAll(m, tiles[..|tiles| - 1], p);
      var t := tiles[|tiles| - 1];
      before[t := Lookup(before, t) + [p]]
  }

  function Copies(p: Rings, n: nat): (r: seq<Rings>)
    ensures |r| == n && forall k :: 0 <= k < n ==> r[k] == p
  {
    seq(n, _ => p)
  }

  /** Each tile's list grows by one copy of `p` per occurrence of the tile in `tiles` and
      nothing else changes; the tiles with a list are the old ones and those of `tiles`. */
  lemma {:induction false} AppendAllLists(m: map<Tile, seq<Rings>>, tiles: seq<Tile>, p: Rings, t: Tile)
    ensures Lookup(AppendAll(m, tiles, p), t) == Lookup(m, t) + Copies(p, multiset(tiles)[t])
    ensures t in AppendAll(m, tiles, p) <==> t in m || t in tiles
    decreases |tiles|
  {
    if tiles != [] {
      var init, last := tiles[..|tiles| - 1], tiles[|tiles| - 1];
      AppendAllLists(m, init, p, t);
      var before := AppendAll(m, init, p);
      AppendLastCount(tiles, t);
      if t == last {
        assert Lookup(AppendAll(m, tiles, p), t) == Lookup(before, t) + [p];
        assert Copies(p, multiset(init)[t]) + [p] == Copies(p, multiset(tiles)[t]);
      } else {
        assert Lookup(AppendAll(m, tiles, p), t) == Lookup(before, t);
      }
    }
  }

  /** Splitting the last element off a nonempty sequence, for counts and membership. */
  lemma AppendLastCount(tiles: seq<Tile>, t: Tile)
    requires tiles != []
    ensures multiset(tiles)[t] == multiset(tiles[..|tiles| - 1])[t] + (if t == tiles[|tiles| - 1] then 1 else 0)
    ensures t in tiles <==> t in tiles[..|tiles| - 1] || t == tiles[|tiles| - 1]
  {
    assert tiles == tiles[..|tiles| - 1] + [tiles[|tiles| - 1]];
  }

  /** `"Warning: invalid feature {}, skipping".format(i)`. */
  function InvalidFeature(i: nat): string
  {
    "Warning: invalid feature " + NatToString(i) + ", skipping"
  }

  /** `"Notice: {} is a non surfacic geometry type, skipping feature {}".format(type, i)`. */
  function NonSurfacic(kind: string, i: nat): string
  {
    "Notice: " + kind + " is a non surfacic geometry type, skipping feature " + NatToString(i)
  }

  /** The index the warning prints, as written: the ring loop `for i, ring in
      enumerate(polygon["coordinates"])` rebinds the feature index `i`, so after a
      polygon with rings the warning carries the last ring's index. */
  function WarnedIndexAsWritten(rings: Rings, i: nat): (shown: nat)
    ensures |rings| > 0 ==> shown < |rings|
    ensures |rings| == 0 ==> shown == i
  {
    if |rings| == 0 then i else |rings| - 1
  }

  /** The warning line as written. */
  function InvalidFeatureAsWritten(rings: Rings, i: nat): string
  {
    InvalidFeature(WarnedIndexAsWritten(rings, i))
  }

  /** Different features get different warning lines. */
  lemma InvalidFeatureInjective(i: nat, j: nat)
    requires InvalidFeature(i) == InvalidFeature(j)
    ensures i == j
  {
    var pre, post := "Warning: invalid feature ", ", skipping";
    var a, b := NatToString(i), NatToString(j);
    assert InvalidFeature(i) == pre + a + post && InvalidFeature(j) == pre + b + post;
    assert |a| == |b|;
    assert a == (pre + a + post)[|pre|..|pre| + |a|];
    assert b == (pre + b + post)[|pre|..|pre| + |b|];
    NatToStringInjective(i, j);
  }

  // ---------------------------------------------------------------------
  // The steps, on values; None is an exception the run does not survive

  /** `geojson_parse_polygon(feature_map, polygon, i)` (rasterize.py:138-150): flatten the
      rings, burn the planar polygon, append it to each tile's list; a `ValueError` from
      the burn leaves the map as it was and logs the warning as written, whose index the
      ring loop has rebound (`InvalidFeatureAsWritten`). */
  function PolygonStep(ix: Index, rings: Rings, i: nat, burn: Burn, zoom: nat): Option<Index>
  {
    match FlattenRings(rings)
    case None => None
    case Some(p) =>
      match burn(p, zoom)
      case None => Some(Index(ix.features, ix.log + [InvalidFeatureAsWritten(rings, i)]))
      case Some(tiles) => Some(Index(AppendAll(ix.features, tiles, p), ix.log))
  }

  /** The MultiPolygon loop (rasterize.py:158-159): each member in turn, all under index `i`. */
  function PolygonsStep(ix: Index, polygons: seq<Rings>, i: nat, burn: Burn, zoom: nat): Option<Index>
    decreases |polygons|
  {
    if polygons == [] then Some(ix)
    else
      match PolygonsStep(ix, polygons[..|polygons| - 1], i, burn, zoom)
      case None => None
      case Some(before) => PolygonStep(before, polygons[|polygons| - 1], i, burn, zoom)
  }

  /** `geojson_parse_geometry(feature_map, geometry, i)` (rasterize.py:152-163). */
  function GeometryStep(ix: Index, g: Geometry, i: nat, burn: Burn, zoom: nat): Option<Index>
  {
    match g
    case Polygon(rings) => PolygonStep(ix, rings, i, burn, zoom)
    case MultiPolygon(polygons) => PolygonsStep(ix, polygons, i, burn, zoom)
    case _ => Some(Index(ix.features, ix.log + [NonSurfacic(TypeName(g), i)]))
  }

  /** The GeometryCollection loop (rasterize.py:179-180): members in turn, all under `i`. */
  function GeometriesStep(ix: Index, gs: seq<Geometry>, i: nat, burn: Burn, zoom: nat): Option<Index>
    decreases |gs|
  {
    if gs == [] then Some(ix)
    else
      match GeometriesStep(ix, gs[..|gs| - 1], i, burn, zoom)
      case None => None
      case Some(before) => GeometryStep(before, gs[|gs| - 1], i, burn, zoom)
  }

  /** One feature of a file (rasterize.py:178-182): a collection is opened one level, any
      other geometry goes to `GeometryStep` as it is. */
  function FeatureStep(ix: Index, g: Geometry, i: nat, burn: Burn, zoom: nat): Option<Index>
  {
    if g.GeometryCollection? then GeometriesStep(ix, g.geometries, i, burn, zoom)
    else GeometryStep(ix, g, i, burn, zoom)
  }

  /** The features of one file, the k-th under index k (`enumerate`, rasterize.py:176). */
  function FeaturesStep(ix: Index, features: seq<Geometry>, burn: Burn, zoom: nat): Option<Index>
    decreases |features|
  {
    if features == [] then Some(ix)
    else
      var k := |features| - 1;
      match FeaturesStep(ix, features[..k], burn, zoom)
      case None => None
      case Some(before) => FeatureStep(before, features[k], k, burn, zoom)
  }

  /** A GeoJSON file as fiona opens it: the `init` entry of its CRS and its geometries. */
  datatype FeatureFile = FeatureFile(crsInit: string, features: seq<Geometry>)

  /** The file loop (rasterize.py:173-182); the index starts again at 0 in every file. */
  function FilesStep(ix: Index, files: seq<FeatureFile>, burn: Burn, zoom: nat): Option<Index>
    decreases |files|
  {
    if files == [] then Some(ix)
    else
      match FilesStep(ix, files[..|files| - 1], burn, zoom)
      case None => None
      case Some(before) => FeaturesStep(before, files[|files| - 1].features, burn, zoom)
  }

  /** `crs['init'][5:]`: the code after the `epsg:` prefix (empty when the entry is shorter). */
  function EpsgCode(init: string): (code: string)
    ensures |init| >= 5 ==> init == init[..5] + code
    ensures |init| <= 5 ==> code == []
  {
    if |init| <= 5 then [] else init[5..]
  }

  /** The EPSG code the tiles are burnt with: the last file's (rasterize.py:171, 175). */
  function LastEpsg(files: seq<FeatureFile>): string
  {
    if files == [] then "4326" else EpsgCode(files[|files| - 1].crsInit)
  }

  // ---------------------------------------------------------------------
  // What a step does to the map and the log

  /** The map `ix2` has every list of `ix1` as a prefix, and the polygons it added are planar. */
  ghost predicate Grows(ix1: Index, ix2: Index)
  {
    && (forall t :: t in ix1.features ==> t in ix2.features)
    && (forall t :: Lookup(ix1.features, t) <= Lookup(ix2.features, t))
    && (forall t, k :: |Lookup(ix1.features, t)| <= k < |Lookup(ix2.features, t)| ==>
          Planar(Lookup(ix2.features, t)[k]))
    && ix1.log <= ix2.log
  }

  /** Every line in `lines` is one that feature `i` can log: a non-surfacic notice naming
      it, or an invalid-feature warning. As written the warning's index is whatever the
      ring loop left behind (`WarnedIndexAsWritten`), so it need not be `i`. */
  ghost predicate FeatureLines(lines: seq<string>, i: nat)
  {
    forall k :: 0 <= k < |lines| ==> FeatureLine(lines[k], i)
  }

  ghost predicate FeatureLine(line: string, i: nat)
  {
    IsWarning(line) || exists kind :: line == NonSurfacic(kind, i)
  }

  /** An invalid-feature warning, with whatever index it shows. */
  ghost predicate IsWarning(line: string)
  {
    exists n :: line == InvalidFeature(n)
  }

  /** Every line in `lines` is an invalid-feature warning: what polygons log. */
  ghost predicate WarningsOnly(lines: seq<string>)
  {
    forall k :: 0 <= k < |lines| ==> IsWarning(lines[k])
  }

  /** The map keeps its nonempty lists of planar polygons (only appends create a list). */
  ghost predicate Sound(ix: Index)
  {
    forall t :: t in ix.features ==>
      |ix.features[t]| > 0 && forall k :: 0 <= k < |ix.features[t]| ==> Planar(ix.features[t][k])
  }

  lemma GrowsTransitive(a: Index, b: Index, c: Index)
    requires Grows(a, b) && Grows(b, c)
    ensures Grows(a, c)
  {
    forall t, k | |Lookup(a.features, t)| <= k < |Lookup(c.features, t)|
      ensures Planar(Lookup(c.features, t)[k])
    {
      if k < |Lookup(b.features, t)| {
        assert Lookup(c.features, t)[k] == Lookup(b.features, t)[k];
      }
    }
  }

  /** A polygon either goes to each tile the burn returned (one copy per occurrence, the
      log untouched) or, when the burn raises, leaves every list as it was and logs one
      warning, with the index as written. The map only grows, by planar polygons. */
  lemma PolygonStepEffect(ix: Index, rings: Rings, i: nat, burn: Burn, zoom: nat)
    requires PolygonStep(ix, rings, i, burn, zoom).Some?
    ensures var r := PolygonStep(ix, rings, i, burn, zoom).value;
            var p := FlattenRings(rings).value;
            && Grows(ix, r)
            && (burn(p, zoom).None? ==>
                  r.features == ix.features && r.log == ix.log + [InvalidFeatureAsWritten(rings, i)])
            && (burn(p, zoom).Some? ==>
                  && r.log == ix.log
                  && forall t :: Lookup(r.features, t)
                                 == Lookup(ix.features, t) + Copies(p, multiset(burn(p, zoom).value)[t]))
  {
    var r := PolygonStep(ix, rings, i, burn, zoom).value;
    var p := FlattenRings(rings).value;
    FlattenRingsPlanar(rings);
    if burn(p, zoom).Some? {
      var tiles := burn(p, zoom).value;
      forall t ensures Lookup(r.features, t) == Lookup(ix.features, t) + Copies(p, multiset(tiles)[t]) {
        AppendAllLists(ix.features, tiles, p, t);
      }
      forall t | t in ix.features ensures t in r.features {
        AppendAllLists(ix.features, tiles, p, t);
      }
    }
  }

  /** Polygon steps keep the map sound and log nothing but invalid-feature warnings. */
  lemma PolygonStepSound(ix: Index, rings: Rings, i: nat, burn: Burn, zoom: nat)
    requires Sound(ix) && PolygonStep(ix, rings, i, burn, zoom).Some?
    ensures var r := PolygonStep(ix, rings, i, burn, zoom).value;
            Sound(r) && Grows(ix, r) && FeatureLines(r.log[|ix.log|..], i) && WarningsOnly(r.log[|ix.log|..])
  {
    var r := PolygonStep(ix, rings, i, burn, zoom).value;
    PolygonStepEffect(ix, rings, i, burn, zoom);
    var p := FlattenRings(rings).value;
    if burn(p, zoom).Some? {
      var tiles := burn(p, zoom).value;
      forall t | t in r.features
        ensures |r.features[t]| > 0 && forall k :: 0 <= k < |r.features[t]| ==> Planar(r.features[t][k])
      {
        AppendAllLists(ix.features, tiles, p, t);
        assert Lookup(r.features, t) == r.features[t];
        if t !in ix.features {
          assert t in tiles;
          assert multiset(tiles)[t] > 0;
        }
        forall k | 0 <= k < |r.features[t]| ensures Planar(r.features[t][k]) {
          if k < |Lookup(ix.features, t)| {
            assert r.features[t][k] == ix.features[t][k];
          }
        }
      }
      assert r.log[|ix.log|..] == [];
    } else {
      assert r.log[|ix.log|..] == [InvalidFeature(WarnedIndexAsWritten(rings, i))];
    }
  }

  /** The steps that a feature runs keep the map sound, only grow it, and log only lines
      that feature can log. */
  ghost predicate StepOk(ix: Index, r: Option<Index>, i: nat)
  {
    r.Some? ==> Sound(r.value) && Grows(ix, r.value) && FeatureLines(r.value.log[|ix.log|..], i)
  }

  lemma FeatureLinesAppend(a: seq<string>, b: seq<string>, c: seq<string>, i: nat)
    requires a <= b <= c && FeatureLines(b[|a|..], i) && FeatureLines(c[|b|..], i)
    ensures FeatureLines(c[|a|..], i)
  {
    forall k | 0 <= k < |c[|a|..]|
      ensures FeatureLine(c[|a|..][k], i)
    {
      if |a| + k < |b| {
        assert c[|a|..][k] == b[|a|..][k];
      } else {
        assert c[|a|..][k] == c[|b|..][|a| + k - |b|];
      }
    }
  }

  lemma StepOkChain(a: Index, b: Index, c: Option<Index>, i: nat)
    requires StepOk(a, Some(b), i) && StepOk(b, c, i)
    ensures StepOk(a, c, i)
  {
    if c.Some? {
      GrowsTransitive(a, b, c.value);
      FeatureLinesAppend(a.log, b.log, c.value.log, i);
    }
  }

  /** Warnings logged in two stretches are warnings throughout. */
  lemma WarningsOnlyAppend(a: seq<string>, b: seq<string>, c: seq<string>)
    requires a <= b <= c && WarningsOnly(b[|a|..]) && WarningsOnly(c[|b|..])
    ensures WarningsOnly(c[|a|..])
  {
    forall k | 0 <= k < |c[|a|..]| ensures IsWarning(c[|a|..][k]) {
      if |a| + k < |b| {
        assert c[|a|..][k] == b[|a|..][k];
      } else {
        assert c[|a|..][k] == c[|b|..][|a| + k - |b|];
      }
    }
  }

  /** The members of a MultiPolygon keep the map sound and log nothing but invalid-feature
      warnings. */
  lemma {:induction false} PolygonsStepSound(ix: Index, polygons: seq<Rings>, i: nat, burn: Burn, zoom: nat)
    requires Sound(ix)
    ensures StepOk(ix, PolygonsStep(ix, polygons, i, burn, zoom), i)
    ensures var r := PolygonsStep(ix, polygons, i, burn, zoom);
            r.Some? ==> WarningsOnly(r.value.log[|ix.log|..])
    decreases |polygons|
  {
    if polygons == [] {
      assert ix.log[|ix.log|..] == [];
    } else {
      var init := polygons[..|polygons| - 1];
      PolygonsStepSound(ix, init, i, burn, zoom);
      var before := PolygonsStep(ix, init, i, burn, zoom);
      if before.Some? && PolygonStep(before.value, polygons[|polygons| - 1], i, burn, zoom).Some? {
        var r := PolygonStep(before.value, polygons[|polygons| - 1], i, burn, zoom);
        PolygonStepSound(before.value, polygons[|polygons| - 1], i, burn, zoom);
        StepOkChain(ix, before.value, r, i);
        WarningsOnlyAppend(ix.log, before.value.log, r.value.log);
      }
    }
  }

  /** A non-surfacic geometry, a nested collection included, changes no list and logs
      exactly one notice with its type and the feature index. */
  lemma {:induction false} GeometryStepSound(ix: Index, g: Geometry, i: nat, burn: Burn, zoom: nat)
    requires Sound(ix)
    ensures StepOk(ix, GeometryStep(ix, g, i, burn, zoom), i)
    ensures !g.Polygon? && !g.MultiPolygon? ==>
              GeometryStep(ix, g, i, burn, zoom) == Some(Index(ix.features, ix.log + [NonSurfacic(TypeName(g), i)]))
  {
    match g
    case Polygon(rings) =>
      if PolygonStep(ix, rings, i, burn, zoom).Some? {
        PolygonStepSound(ix, rings, i, burn, zoom);
      }
    case MultiPolygon(polygons) =>
      PolygonsStepSound(ix, polygons, i, burn, zoom);
    case _ =>
      var line := NonSurfacic(TypeName(g), i);
      assert (ix.log + [line])[|ix.log|..] == [line];
  }

  lemma {:induction false} GeometriesStepSound(ix: Index, gs: seq<Geometry>, i: nat, burn: Burn, zoom: nat)
    requires Sound(ix)
    ensures StepOk(ix, GeometriesStep(ix, gs, i, burn, zoom), i)
    decreases |gs|
  {
    if gs == [] {
      assert ix.log[|ix.log|..] == [];
    } else {
      var init := gs[..|gs| - 1];
      GeometriesStepSound(ix, init, i, burn, zoom);
      var before := GeometriesStep(ix, init, i, burn, zoom);
      if before.Some? {
        GeometryStepSound(before.value, gs[|gs| - 1], i, burn, zoom);
        StepOkChain(ix, before.value, GeometryStep(before.value, gs[|gs| - 1], i, burn, zoom), i);
      }
    }
  }

  /** Everything one feature adds to the log is a notice naming that feature's index or an
      invalid-feature warning; the map stays sound and only grows. */
  lemma FeatureStepSound(ix: Index, g: Geometry, i: nat, burn: Burn, zoom: nat)
    requires Sound(ix)
    ensures StepOk(ix, FeatureStep(ix, g, i, burn, zoom), i)
  {
    if g.GeometryCollection? {
      GeometriesStepSound(ix, g.geometries, i, burn, zoom);
    } else {
      GeometryStepSound(ix, g, i, burn, zoom);
    }
  }

  /** Building the index from files keeps the map sound and only grows it and the log. */
  lemma {:induction false} FilesStepSound(ix: Index, files: seq<FeatureFile>, burn: Burn, zoom: nat)
    requires Sound(ix)
    ensures var r := FilesStep(ix, files, burn, zoom);
            r.Some? ==> Sound(r.value) && Grows(ix, r.value)
    decreases |files|
  {
    if files != [] {
      var init := files[..|files| - 1];
      FilesStepSound(ix, init, burn, zoom);
      var before := FilesStep(ix, init, burn, zoom);
      if before.Some? {
        FeaturesStepSound(before.value, files[|files| - 1].features, burn, zoom);
        var r := FilesStep(ix, files, burn, zoom);
        if r.Some? {
          GrowsTransitive(ix, before.value, r.value);
        }
      }
    }
  }

  lemma {:induction false} FeaturesStepSound(ix: Index, features: seq<Geometry>, burn: Burn, zoom: nat)
    requires Sound(ix)
    ensures var r := FeaturesStep(ix, features, burn, zoom);
            r.Some? ==> Sound(r.value) && Grows(ix, r.value)
    decreases |features|
  {
    if features != [] {
      var k := |features| - 1;
      FeaturesStepSound(ix, features[..k], burn, zoom);
      var before := FeaturesStep(ix, features[..k], burn, zoom);
      if before.Some? {
        FeatureStepSound(before.value, features[k], k, burn, zoom);
        var r := FeaturesStep(ix, features, burn, zoom);
        if r.Some? {
          GrowsTransitive(ix, before.value, r.value);
        }
      }
    }
  }

  // ---------------------------------------------------------------------
  // An escaping exception ends every enclosing loop

  lemma {:induction false} PolygonsStepFails(ix: Index, ps: seq<Rings>, k: nat, i: nat, burn: Burn, zoom: nat)
    requires k <= |ps| && PolygonsStep(ix, ps[..k], i, burn, zoom).None?
    ensures PolygonsStep(ix, ps, i, burn, zoom).None?
    decreases |ps| - k
  {
    if k < |ps| {
      assert ps[..k + 1][..k] == ps[..k];
      PolygonsStepFails(ix, ps, k + 1, i, burn, zoom);
    } else {
      assert ps[..k] == ps;
    }
  }

  lemma {:induction false} GeometriesStepFails(ix: Index, gs: seq<Geometry>, k: nat, i: nat, burn: Burn, zoom: nat)
    requires k <= |gs| && GeometriesStep(ix, gs[..k], i, burn, zoom).None?
    ensures GeometriesStep(ix, gs, i, burn, zoom).None?
    decreases |gs| - k
  {
    if k < |gs| {
      assert gs[..k + 1][..k] == gs[..k];
      GeometriesStepFails(ix, gs, k + 1, i, burn, zoom);
    } else {
      assert gs[..k] == gs;
    }
  }

  lemma {:induction false} FeaturesStepFails(ix: Index, features: seq<Geometry>, k: nat, burn: Burn, zoom: nat)
    requires k <= |features| && FeaturesStep(ix, features[..k], burn, zoom).None?
    ensures FeaturesStep(ix, features, burn, zoom).None?
    decreases |features| - k
  {
    if k < |features| {
      assert features[..k + 1][..k] == features[..k];
      FeaturesStepFails(ix, features, k + 1, burn, zoom);
    } else {
      assert features[..k] == features;
    }
  }

  lemma {:induction false} FilesStepFails(ix: Index, files: seq<FeatureFile>, k: nat, burn: Burn, zoom: nat)
    requires k <= |files| && FilesStep(ix, files[..k], burn, zoom).None?
    ensures FilesStep(ix, files, burn, zoom).None?
    decreases |files| - k
  {
    if k < |files| {
      assert files[..k + 1][..k] == files[..k];
      FilesStepFails(ix, files, k + 1, burn, zoom);
    } else {
      assert files[..k] == files;
    }
  }

  // ---------------------------------------------------------------------
  // Dispatch

  /** A MultiPolygon behaves as its members one after another: splitting the member list
      anywhere gives the same result as running the two parts in turn. */
  lemma {:induction false} PolygonsStepSplit(ix: Index, ps: seq<Rings>, qs: seq<Rings>, i: nat, burn: Burn, zoom: nat)
    ensures PolygonsStep(ix, ps + qs, i, burn, zoom)
            == match PolygonsStep(ix, ps, i, burn, zoom)
               case None => None
               case Some(mid) => PolygonsStep(mid, qs, i, burn, zoom)
    decreases |qs|
  {
    if qs == [] {
      assert ps + qs == ps;
    } else {
      var init := qs[..|qs| - 1];
      PolygonsStepSplit(ix, ps, init, i, burn, zoom);
      assert (ps + qs)[..|ps + qs| - 1] == ps + init;
      assert (ps + qs)[|ps + qs| - 1] == qs[|qs| - 1];
    }
  }

  /** A one-member MultiPolygon is that Polygon under the same index. */
  lemma MultiPolygonOfOne(ix: Index, rings: Rings, i: nat, burn: Burn, zoom: nat)
    ensures GeometryStep(ix, MultiPolygon([rings]), i, burn, zoom) == GeometryStep(ix, Polygon(rings), i, burn, zoom)
  {
    assert [rings][..0] == [];
    assert PolygonsStep(ix, [], i, burn, zoom) == Some(ix);
  }

  // ---------------------------------------------------------------------
  // The warning's index, as written

  /** As written, feature 5, a one-ring polygon whose burn raises, is reported as
      "invalid feature 0". */
  lemma AsWrittenWarningMisnamesFeature()
    ensures InvalidFeatureAsWritten([[[0.0, 0.0], [1.0, 0.0], [0.0, 1.0], [0.0, 0.0]]], 5) == InvalidFeature(0)
    ensures InvalidFeatureAsWritten([[[0.0, 0.0], [1.0, 0.0], [0.0, 1.0], [0.0, 0.0]]], 5) != InvalidFeature(5)
  {
    var ring: Ring := [[0.0, 0.0], [1.0, 0.0], [0.0, 1.0], [0.0, 0.0]];
    assert WarnedIndexAsWritten([ring], 5) == 0;
    if InvalidFeature(0) == InvalidFeature(5) {
      InvalidFeatureInjective(0, 5);
    }
  }

  /** As written, any two polygons with as many rings give the same warning whichever
      features they belong to, so the line does not identify the feature. */
  lemma AsWrittenWarningIgnoresFeature(rings: Rings, others: Rings, i: nat, j: nat)
    requires |rings| == |others| > 0
    ensures InvalidFeatureAsWritten(rings, i) == InvalidFeatureAsWritten(others, j)
  {
  }

  // ---------------------------------------------------------------------
  // The warning's index, as intended

  /** `geojson_parse_polygon` as evidently intended: the warning names the feature being
      skipped. Everything else is as in `PolygonStep`. */
  function PolygonStepIntended(ix: Index, rings: Rings, i: nat, burn: Burn, zoom: nat): Option<Index>
  {
    match FlattenRings(rings)
    case None => None
    case Some(p) =>
      match burn(p, zoom)
      case None => Some(Index(ix.features, ix.log + [InvalidFeature(i)]))
      case Some(tiles) => Some(Index(AppendAll(ix.features, tiles, p), ix.log))
  }

  /** The intended step differs from the step as written only in the warning's index: the
      same outcome and the same map, and the same log exactly when no warning is logged or
      the ring loop happens to leave the index at `i`. */
  lemma PolygonStepIntendedAgrees(ix: Index, rings: Rings, i: nat, burn: Burn, zoom: nat)
    ensures var a, b := PolygonStep(ix, rings, i, burn, zoom), PolygonStepIntended(ix, rings, i, burn, zoom);
            && a.Some? == b.Some?
            && (a.Some? ==> a.value.features == b.value.features && |a.value.log| == |b.value.log|)
            && (a == b <==> a.None? || burn(FlattenRings(rings).value, zoom).Some?
                            || WarnedIndexAsWritten(rings, i) == i)
  {
    var a, b := PolygonStep(ix, rings, i, burn, zoom), PolygonStepIntended(ix, rings, i, burn, zoom);
    if a.Some? && burn(FlattenRings(rings).value, zoom).None? && a == b {
      assert a.value.log[|ix.log|] == InvalidFeature(WarnedIndexAsWritten(rings, i));
      assert b.value.log[|ix.log|] == InvalidFeature(i);
      InvalidFeatureInjective(WarnedIndexAsWritten(rings, i), i);
    }
  }

  /** With the intended step the warning identifies the feature: two polygons whose burns
      raise leave the same log only when they belong to the same feature. */
  lemma IntendedWarningIdentifiesFeature(ix: Index, rings: Rings, i: nat, others: Rings, j: nat,
                                         burn: Burn, zoom: nat)
    requires PolygonStepIntended(ix, rings, i, burn, zoom).Some?
    requires PolygonStepIntended(ix, others, j, burn, zoom).Some?
    requires burn(FlattenRings(rings).value, zoom).None? && burn(FlattenRings(others).value, zoom).None?
    requires PolygonStepIntended(ix, rings, i, burn, zoom).value.log
             == PolygonStepIntended(ix, others, j, burn, zoom).value.log
    ensures i == j
  {
    var a, b := PolygonStepIntended(ix, rings, i, burn, zoom), PolygonStepIntended(ix, others, j, burn, zoom);
    assert a.value.log[|ix.log|] == InvalidFeature(i);
    assert b.value.log[|ix.log|] == InvalidFeature(j);
    InvalidFeatureInjective(i, j);
  }

  // ---------------------------------------------------------------------
  // The object the source mutates

  /** The `feature_map` defaultdict and the log, updated in place by the parse helpers;
      `burn` and `zoom` are what `main` closes over. */
  class Indexer {
    var featureMap: map<Tile, seq<Rings>>
    var log: seq<string>
    const burn: Burn
    const zoom: nat

    function Contents(): Index
      reads this
    {
      Index(featureMap, log)
    }

    /** `collections.defaultdict(list)` and an empty log. */
    constructor(burn: Burn, zoom: nat)
      ensures Contents() == Index(map[], []) && this.burn == burn && this.zoom == zoom
    {
      featureMap := map[];
      log := [];
      this.burn := burn;
      this.zoom := zoom;
    }

    /** `geojson_parse_polygon`: rewrite the rings in place, rebinding `i` to each ring's
        index as it goes, then burn and append, or log the warning with the index the loop
        left. False: a position had fewer than two coordinates and `IndexError` escaped. */
    method ParsePolygon(rings: Rings, i: nat) returns (ok: bool)
      modifies this
      ensures var r := PolygonStep(old(Contents()), rings, i, burn, zoom);
              ok == r.Some? && (ok ==> Contents() == r.value)
    {
      var coordinates := rings;
      var shown := i;  // the name the ring loop rebinds
      var k := 0;
      while k < |coordinates|
        invariant k <= |coordinates| == |rings| && coordinates[k..] == rings[k..]
        invariant shown == if k == 0 then i else k - 1
        invariant forall j :: 0 <= j < k ==> FlattenRing(rings[j]).Some? && coordinates[j] == FlattenRing(rings[j]).value
        invariant featureMap == old(featureMap) && log == old(log)
      {
        var flat := FlattenRing(coordinates[k]);
        assert coordinates[k] == rings[k];
        if flat.None? {
          return false;
        }
        coordinates := coordinates[k := flat.value];
        shown := k;
        k := k + 1;
      }
      assert FlattenRings(rings).Some?;
      assert FlattenRings(rings).value == coordinates;
      var burnt := burn(coordinates, zoom);
      if burnt.None? {
        log := log + [InvalidFeature(shown)];
        return true;
      }
      var tiles := burnt.value;
      var n := 0;
      while n < |tiles|
        invariant n <= |tiles| && log == old(log)
        invariant featureMap == AppendAll(old(featureMap), tiles[..n], coordinates)
      {
        var t := tiles[n];
        assert tiles[..n + 1][..n] == tiles[..n];
        featureMap := featureMap[t := Lookup(featureMap, t) + [coordinates]];
        n := n + 1;
      }
      assert tiles[..n] == tiles;
      return true;
    }

    /** `geojson_parse_geometry`. */
    method ParseGeometry(g: Geometry, i: nat) returns (ok: bool)
      modifies this
      ensures var r := GeometryStep(old(Contents()), g, i, burn, zoom);
              ok == r.Some? && (ok ==> Contents() == r.value)
    {
      match g
      case Polygon(rings) =>
        ok := ParsePolygon(rings, i);
      case MultiPolygon(polygons) =>
        var k := 0;
        ok := true;
        while k < |polygons|
          invariant k <= |polygons|
          invariant PolygonsStep(old(Contents()), polygons[..k], i, burn, zoom) == Some(Contents())
        {
          assert polygons[..k + 1][..k] == polygons[..k];
          ok := ParsePolygon(polygons[k], i);
          if !ok {
            PolygonsStepFails(old(Contents()), polygons, k + 1, i, burn, zoom);
            return;
          }
          k := k + 1;
        }
        assert polygons[..k] == polygons;
      case _ =>
        log := log + [NonSurfacic(TypeName(g), i)];
        ok := true;
    }

    /** One feature of the loop at rasterize.py:176-182. */
    method AddFeature(g: Geometry, i: nat) returns (ok: bool)
      modifies this
      ensures var r := FeatureStep(old(Contents()), g, i, burn, zoom);
              ok == r.Some? && (ok ==> Contents() == r.value)
    {
      if g.GeometryCollection? {
        var gs := g.geometries;
        var k := 0;
        ok := true;
        while k < |gs|
          invariant k <= |gs|
          invariant GeometriesStep(old(Contents()), gs[..k], i, burn, zoom) == Some(Contents())
        {
          assert gs[..k + 1][..k] == gs[..k];
          ok := ParseGeometry(gs[k], i);
          if !ok {
            GeometriesStepFails(old(Contents()), gs, k + 1, i, burn, zoom);
            return;
          }
          k := k + 1;
        }
        assert gs[..k] == gs;
      } else {
        ok := ParseGeometry(g, i);
      }
    }

    /** The features of one file (rasterize.py:176-182), the k-th under index k. */
    method AddFeatures(features: seq<Geometry>) returns (ok: bool)
      modifies this
      ensures var r := FeaturesStep(old(Contents()), features, burn, zoom);
              ok == r.Some? && (ok ==> Contents() == r.value)
    {
      var i := 0;
      ok := true;
      while i < |features|
        invariant i <= |features|
        invariant FeaturesStep(old(Contents()), features[..i], burn, zoom) == Some(Contents())
      {
        assert features[..i + 1][..i] == features[..i];
        ok := AddFeature(features[i], i);
        if !ok {
          FeaturesStepFails(old(Contents()), features, i + 1, burn, zoom);
          return;
        }
        i := i + 1;
      }
      assert features[..i] == features;
    }

    /** The file loop of rasterize.py:170-182; also returns the EPSG code of the last file. */
    method AddFiles(files: seq<FeatureFile>) returns (ok: bool, epsg: string)
      modifies this
      ensures var r := FilesStep(old(Contents()), files, burn, zoom);
              ok == r.Some? && (ok ==> Contents() == r.value && epsg == LastEpsg(files))
    {
      epsg := "4326";
      var f := 0;
      ok := true;
      while f < |files|
        invariant f <= |files| && epsg == LastEpsg(files[..f])
        invariant FilesStep(old(Contents()), files[..f], burn, zoom) == Some(Contents())
      {
        assert files[..f + 1][..f] == files[..f];
        epsg := EpsgCode(files[f].crsInit);
        ok := AddFeatures(files[f].features);
        if !ok {
          FilesStepFails(old(Contents()), files, f + 1, burn, zoom);
          return;
        }
        f := f + 1;
      }
      assert files[..f] == files;
    }
  }
}
