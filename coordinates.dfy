/** Points, tiles, and the offset arithmetic between tile-local viewer coordinates
    and full-mosaic pixel coordinates. Pixel coordinates are 1-based. */
module Coordinates {

  datatype Point = Point(x: real, y: real)

  /** A section of the mosaic as the program passes it around: the tuple
      (x_min, x_max, y_min, y_max), bounds inclusive in the viewer's cutout syntax. */
  datatype Tile = Tile(xMin: int, xMax: int, yMin: int, yMax: int)

  /** Mosaic to tile-local, as load_regions redisplays a stored point: the tile's
      first pixel becomes (1, 1), and a pixel lies within the tile's bounds exactly
      when its local position lies within 1 .. the tile's extent. */
  function ToTileLocal(g: Point, t: Tile): (p: Point)
    ensures g == Point(t.xMin as real, t.yMin as real) ==> p == Point(1.0, 1.0)
    ensures t.xMin as real <= g.x <= t.xMax as real <==> 1.0 <= p.x <= (t.xMax - t.xMin + 1) as real
    ensures t.yMin as real <= g.y <= t.yMax as real <==> 1.0 <= p.y <= (t.yMax - t.yMin + 1) as real
  {
    Point(g.x - t.xMin as real + 1.0, g.y - t.yMin as real + 1.0)
  }

  /** Tile-local to mosaic, as the main loop converts the cursor of a `d` event;
      it undoes ToTileLocal exactly. */
  function ToMosaic(p: Point, t: Tile): (g: Point)
    ensures ToTileLocal(g, t) == p
  {
    Point(p.x + t.xMin as real - 1.0, p.y + t.yMin as real - 1.0)
  }

  lemma LocalRoundTrip(g: Point, t: Tile)
    ensures ToMosaic(ToTileLocal(g, t), t) == g
  {
  }

  /** Tile-local to mosaic as save_regions writes it: the y offset is taken from the
      tile's x_max instead of its y_min, so the result is ToMosaic shifted up by
      x_max - y_min. */
  function ToMosaicAsSaved(p: Point, t: Tile): (g: Point)
    ensures g.x == ToMosaic(p, t).x
    ensures g.y == ToMosaic(p, t).y + (t.xMax - t.yMin) as real
  {
    Point(p.x + t.xMin as real - 1.0, p.y + t.xMax as real - 1.0)
  }

  /** A stored point reloaded and saved again keeps its x, and keeps its y exactly
      when the tile's x_max equals its y_min. */
  lemma SavedRoundTrip(g: Point, t: Tile)
    ensures ToMosaicAsSaved(ToTileLocal(g, t), t).x == g.x
    ensures ToMosaicAsSaved(ToTileLocal(g, t), t).y == g.y <==> t.xMax == t.yMin
  {
  }

  /** A mark at tile-local (64, 64) on the first 128-pixel tile is written with y = 192,
      where the mosaic position is (64, 64). */
  lemma SaveShiftsY()
    ensures ToMosaic(Point(64.0, 64.0), Tile(1, 129, 1, 129)) == Point(64.0, 64.0)
    ensures ToMosaicAsSaved(Point(64.0, 64.0), Tile(1, 129, 1, 129)) == Point(64.0, 192.0)
  {
  }

  /** Squared distance below one: the test `sqrt(dx**2 + dy**2) < 1` of delete_region.
      A point is near itself, and a near point is less than a pixel away on each axis. */
  function Near(p: Point, c: Point): (near: bool)
    ensures p == c ==> near
    ensures near ==> -1.0 < p.x - c.x < 1.0 && -1.0 < p.y - c.y < 1.0
  {
    var dx, dy := p.x - c.x, p.y - c.y;
    assert dx <= -1.0 || 1.0 <= dx ==> dx * dx >= 1.0;
    assert dy <= -1.0 || 1.0 <= dy ==> dy * dy >= 1.0;
    dx * dx + dy * dy < 1.0
  }

  /** Each stored point moved into the tile's local frame (load_regions). */
  function Reloaded(pts: seq<Point>, t: Tile): (r: seq<Point>)
    ensures |r| == |pts|
  {
    seq(|pts|, i requires 0 <= i < |pts| => ToTileLocal(pts[i], t))
  }

  /** Each displayed mark as save_regions writes it. */
  function StoredAsWritten(pts: seq<Point>, t: Tile): (r: seq<Point>)
    ensures |r| == |pts|
  {
    seq(|pts|, i requires 0 <= i < |pts| => ToMosaicAsSaved(pts[i], t))
  }

  /** Each displayed mark moved to the mosaic with the tile's y_min offset. */
  function Stored(pts: seq<Point>, t: Tile): (r: seq<Point>)
    ensures |r| == |pts|
  {
    seq(|pts|, i requires 0 <= i < |pts| => ToMosaic(pts[i], t))
  }

  /** Reloading a sidecar and storing the marks with the y_min offset gives the sidecar back. */
  lemma StoredAfterReloaded(pts: seq<Point>, t: Tile)
    ensures Stored(Reloaded(pts, t), t) == pts
  {
    forall i | 0 <= i < |pts| ensures Stored(Reloaded(pts, t), t)[i] == pts[i] {
      LocalRoundTrip(pts[i], t);
    }
  }

  /** Reloading a sidecar and saving it as save_regions does gives the sidecar back
      only when it is empty or the tile's x_max equals its y_min. */
  lemma StoredAsWrittenAfterReloaded(pts: seq<Point>, t: Tile)
    ensures StoredAsWritten(Reloaded(pts, t), t) == pts <==> pts == [] || t.xMax == t.yMin
  {
    var r := StoredAsWritten(Reloaded(pts, t), t);
    if t.xMax == t.yMin {
      forall i | 0 <= i < |pts| ensures r[i] == pts[i] {
        SavedRoundTrip(pts[i], t);
      }
    } else if pts != [] {
      SavedRoundTrip(pts[0], t);
      assert r[0] != pts[0];
    }
  }

  /** Saving displayed marks as save_regions writes them and reloading the file gives
      the marks back only when there are none or the tile's x_max equals its y_min. */
  lemma ReloadedAfterStoredAsWritten(pts: seq<Point>, t: Tile)
    ensures Reloaded(StoredAsWritten(pts, t), t) == pts <==> pts == [] || t.xMax == t.yMin
  {
    var r := Reloaded(StoredAsWritten(pts, t), t);
    if t.xMax == t.yMin {
      forall i | 0 <= i < |pts| ensures r[i] == pts[i] {
        assert ToTileLocal(ToMosaicAsSaved(pts[i], t), t) == pts[i];
      }
    } else if pts != [] {
      assert r[0].y == pts[0].y + (t.xMax - t.yMin) as real;
    }
  }

  /** The stored points that survive a delete at `c`, in file order. */
  function Kept(pts: seq<Point>, c: Point): (r: seq<Point>)
    ensures |r| <= |pts|
    ensures forall p :: p in r <==> p in pts && !Near(p, c)
  {
    if pts == [] then []
    else Kept(pts[..|pts| - 1], c) + (if Near(pts[|pts| - 1], c) then [] else [pts[|pts| - 1]])
  }

  /** Filtering respects concatenation, so Kept keeps the order of the file. */
  lemma {:induction false} KeptAppend(a: seq<Point>, b: seq<Point>, c: Point)
    ensures Kept(a + b, c) == Kept(a, c) + Kept(b, c)
  {
    if b != [] {
      KeptAppend(a, b[..|b| - 1], c);
      assert (a + b)[..|a + b| - 1] == a + b[..|b| - 1];
    } else {
      assert a + b == a;
    }
  }

  lemma KeptExample()
    ensures Kept([Point(0.0, 0.0), Point(0.5, 0.5), Point(10.0, 10.0)], Point(0.0, 0.0))
         == [Point(10.0, 10.0)]
  {
    var pts := [Point(0.0, 0.0), Point(0.5, 0.5), Point(10.0, 10.0)];
    assert pts[..2] == [Point(0.0, 0.0), Point(0.5, 0.5)];
    assert pts[..2][..1] == [Point(0.0, 0.0)];
    assert pts[..2][..1][..0] == [];
  }
}
