/** Web-map tiles and the output path `write_tile` derives from a tile
    (robosat_pink/tools/rasterize.py:113-122). */
module Tiles {
  import opened Common

  /** A `mercantile.Tile`: column x, row y, zoom z. Covers hold non-negative indices. */
  datatype Tile = Tile(x: nat, y: nat, z: nat)

  predicate NoSlash(s: string)
  {
    forall k :: 0 <= k < |s| ==> s[k] != '/'
  }

  /** POSIX `os.path.join(a, b)`: an absolute `b` replaces `a`; otherwise a
      separator is inserted unless `a` is empty or already ends with one. */
  function Join(a: string, b: string): string
  {
    if |b| > 0 && b[0] == '/' then b
    else if a == [] || a[|a| - 1] == '/' then a + b
    else a + "/" + b
  }

  /** What `Join(root, c)` puts in front of a relative component `c`. */
  function DirPrefix(root: string): string
  {
    if root == [] || root[|root| - 1] == '/' then root else root + "/"
  }

  /** The part of a tile's path below the root: `z/x/y.png`. */
  function TileSuffix(t: Tile): string
  {
    NatToString(t.z) + ("/" + (NatToString(t.x) + ("/" + (NatToString(t.y) + ".png"))))
  }

  /** The file `write_tile` saves: `os.path.join(root, str(z), str(x))` and then `"{y}.png"` inside it.
      Whatever the root, the path ends in the components z, x and `y.png`. */
  function TilePath(root: string, t: Tile): (p: string)
    ensures p == DirPrefix(root) + TileSuffix(t)
  {
    var zs, xs, ys := NatToString(t.z), NatToString(t.x), NatToString(t.y);
    assert zs[0] != '/' && xs[0] != '/' && (ys + ".png")[0] != '/';
    var zDir := Join(root, zs);
    assert zDir == DirPrefix(root) + zs;
    var xDir := Join(zDir, xs);
    assert xDir == zDir + "/" + xs;
    Join(xDir, ys + ".png")
  }

  /** `str(tile)` of the namedtuple, as it appears in log lines. */
  function TileRepr(t: Tile): string
  {
    "Tile(x=" + NatToString(t.x) + ", y=" + NatToString(t.y) + ", z=" + NatToString(t.z) + ")"
  }

  lemma DigitsHaveNoSlash(n: nat)
    ensures NoSlash(NatToString(n))
  {
    var s := NatToString(n);
    forall k | 0 <= k < |s| ensures s[k] != '/' {
      assert IsDigit(s[k]);
    }
  }

  /** A path component without separators is recovered from `a + "/" + rest`. */
  lemma SplitAtSlash(a: string, b: string, c: string, d: string)
    requires NoSlash(a) && NoSlash(c)
    requires a + ("/" + b) == c + ("/" + d)
    ensures a == c && b == d
  {
    var l, r := a + ("/" + b), c + ("/" + d);
    assert l[|a|] == '/' && r[|c|] == '/';
    assert |a| == |c|;
    assert a == l[..|a|] && c == r[..|c|];
    assert b == l[|a| + 1..] && d == r[|c| + 1..];
  }

  /** The path below the root determines the tile. */
  lemma TileSuffixInjective(t1: Tile, t2: Tile)
    requires TileSuffix(t1) == TileSuffix(t2)
    ensures t1 == t2
  {
    var y1, y2 := NatToString(t1.y), NatToString(t2.y);
    DigitsHaveNoSlash(t1.z); DigitsHaveNoSlash(t2.z);
    DigitsHaveNoSlash(t1.x); DigitsHaveNoSlash(t2.x);
    SplitAtSlash(NatToString(t1.z), NatToString(t1.x) + ("/" + (y1 + ".png")),
                 NatToString(t2.z), NatToString(t2.x) + ("/" + (y2 + ".png")));
    SplitAtSlash(NatToString(t1.x), y1 + ".png", NatToString(t2.x), y2 + ".png");
    assert y1 == (y1 + ".png")[..|y1|] && y2 == (y2 + ".png")[..|y2|];
    NatToStringInjective(t1.z, t2.z);
    NatToStringInjective(t1.x, t2.x);
    NatToStringInjective(t1.y, t2.y);
  }

  /** Different tiles are written to different files under the same root. */
  lemma TilePathInjective(root: string, t1: Tile, t2: Tile)
    requires TilePath(root, t1) == TilePath(root, t2)
    ensures t1 == t2
  {
    var pre := DirPrefix(root);
    assert TileSuffix(t1) == (pre + TileSuffix(t1))[|pre|..];
    assert TileSuffix(t2) == (pre + TileSuffix(t2))[|pre|..];
    TileSuffixInjective(t1, t2);
  }
}
