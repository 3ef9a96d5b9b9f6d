/** The tile grid of the main program (stack.py:212-220) and the saturating
    navigation over it (stack.py:233-242). */
module TileGrid {
  import opened Coordinates

  /** The tile edge (stack.py:212). */
  const Width: int := 128

  /** The number of values in Python's `range(1, limit + 1, w)`. */
  function RangeLen(limit: int, w: int): nat
    requires w > 0
  {
    if limit < 1 then 0 else (limit - 1) / w + 1
  }

  /** `range(1, limit + 1, w)`: the first pixel of every tile along one axis, from 1 to
      the last stride point within the limit. */
  function Starts(limit: int, w: int): (r: seq<int>)
    requires w > 0
    ensures |r| == RangeLen(limit, w)
    ensures r != [] ==> r[0] == 1 && r[|r| - 1] <= limit < r[|r| - 1] + w
  {
    var r := seq(RangeLen(limit, w), i => 1 + i * w);
    if limit < 1 then r else StartBelow(limit, w, limit); r
  }

  lemma {:induction false} MulStep(a: int, b: int, w: int)
    requires w > 0 && a < b
    ensures a * w + w <= b * w
    decreases b - a
  {
    assert (a + 1) * w == a * w + w;
    if a + 1 < b {
      MulStep(a + 1, b, w);
    }
  }

  lemma DivUnique(n: int, w: int, q: int, r: int)
    requires w > 0 && 0 <= r < w && n == q * w + r
    ensures n / w == q && n % w == r
  {
    var q' := n / w;
    assert n == q' * w + n % w;
    if q' < q {
      MulStep(q', q, w);
    } else if q < q' {
      MulStep(q, q', w);
    }
  }

  lemma DivMono(a: int, b: int, w: int)
    requires w > 0 && 0 <= a <= b
    ensures a / w <= b / w
  {
    assert a == (a / w) * w + a % w;
    assert b == (b / w) * w + b % w;
    if b / w < a / w {
      MulStep(b / w, a / w, w);
    }
  }

  lemma MulCancel(a: int, b: int, w: int)
    requires w > 0 && a * w == b * w
    ensures a == b
  {
    DivUnique(a * w, w, a, 0);
    DivUnique(b * w, w, b, 0);
  }

  lemma RowBound(i: int, j: int, m: int, n: int)
    requires 0 <= i < n && 0 <= j < m
    ensures 0 <= i * m + j < n * m
  {
    MulStep(i, n, m);
  }

  lemma RowOf(k: int, m: int, n: int)
    requires m > 0 && 0 <= k < n * m
    ensures k == (k / m) * m + k % m && 0 <= k % m < m
    ensures 0 <= k / m < n
  {
    assert n >= 1 by {
      if n < 1 { MulStep(n, 1, m); }
    }
    DivMono(0, k, m);
    DivMono(k, n * m - 1, m);
    DivUnique(n * m - 1, m, n - 1, m - 1);
  }

  /** One axis holds ceil(limit / w) tile starts. */
  lemma StartsCount(limit: int, w: int)
    requires w > 0 && limit >= 0
    ensures |Starts(limit, w)| == (limit + w - 1) / w
  {
    if limit >= 1 {
      var q, r := (limit - 1) / w, (limit - 1) % w;
      DivUnique(limit + w - 1, w, q + 1, r);
    } else {
      DivUnique(w - 1, w, 0, w - 1);
    }
  }

  /** The i-th start lies within the limit and on the stride. */
  lemma StartAt(limit: int, w: int, i: int)
    requires w > 0 && 0 <= i < RangeLen(limit, w)
    ensures Starts(limit, w)[i] <= limit && (Starts(limit, w)[i] - 1) % w == 0
  {
    var q := (limit - 1) / w;
    assert limit - 1 == q * w + (limit - 1) % w;
    if i < q {
      MulStep(i, q, w);
    }
    DivUnique(i * w, w, i, 0);
  }

  /** The tile starts along one axis are exactly 1, 1 + w, 1 + 2w, ... up to the limit. */
  lemma StartsMembers(limit: int, w: int, v: int)
    requires w > 0
    ensures v in Starts(limit, w) <==> 1 <= v <= limit && (v - 1) % w == 0
  {
    var s := Starts(limit, w);
    if v in s {
      var i :| 0 <= i < |s| && s[i] == v;
      StartAt(limit, w, i);
    }
    if 1 <= v <= limit && (v - 1) % w == 0 {
      StartBelow(limit, w, v);
      assert s[(v - 1) / w] == v;
    }
  }

  /** The tiles with left edge x, one per y start, in order. */
  function Column(x: int, ys: seq<int>, w: int): seq<Tile> {
    seq(|ys|, j requires 0 <= j < |ys| => Tile(x, x + w, ys[j], ys[j] + w))
  }

  /** The nested loops of stack.py:218-220 as a value: x outer, y inner; one tile per
      pair of starts. */
  function Grid(xs: seq<int>, ys: seq<int>, w: int): (r: seq<Tile>)
    ensures |r| == |xs| * |ys|
  {
    if xs == [] then []
    else
      assert |xs| * |ys| == (|xs| - 1) * |ys| + |ys|;
      Grid(xs[..|xs| - 1], ys, w) + Column(xs[|xs| - 1], ys, w)
  }

  /** The tile list of the main program for a width x height mosaic. */
  function Sections(width: int, height: int, w: int): (r: seq<Tile>)
    requires w > 0
    ensures |r| == RangeLen(width, w) * RangeLen(height, w)
  {
    Grid(Starts(width, w), Starts(height, w), w)
  }

  /** The tile for the i-th x start and the j-th y start sits at i * |ys| + j. */
  lemma {:induction false} GridAt(xs: seq<int>, ys: seq<int>, w: int, i: int, j: int)
    requires 0 <= i < |xs| && 0 <= j < |ys|
    ensures |Grid(xs, ys, w)| == |xs| * |ys|
    ensures 0 <= i * |ys| + j < |Grid(xs, ys, w)|
    ensures Grid(xs, ys, w)[i * |ys| + j] == Tile(xs[i], xs[i] + w, ys[j], ys[j] + w)
  {
    var n, m := |xs|, |ys|;
    var front := xs[..n - 1];
    var k := i * m + j;
    RowBound(i, j, m, n);
    if i == n - 1 {
      assert k == (n - 1) * m + j;
      assert Grid(xs, ys, w)[k] == Column(xs[n - 1], ys, w)[j];
    } else {
      GridAt(front, ys, w, i, j);
      assert Grid(xs, ys, w)[k] == Grid(front, ys, w)[k];
    }
  }

  /** Every position of the grid is the tile of one (x start, y start) pair. */
  lemma GridIndex(xs: seq<int>, ys: seq<int>, w: int, k: int)
    requires 0 <= k < |Grid(xs, ys, w)|
    ensures |ys| > 0 && 0 <= k / |ys| < |xs|
    ensures Grid(xs, ys, w)[k] == Tile(xs[k / |ys|], xs[k / |ys|] + w, ys[k % |ys|], ys[k % |ys|] + w)
  {
    var m := |ys|;
    assert m > 0;
    RowOf(k, m, |xs|);
    GridAt(xs, ys, w, k / m, k % m);
  }

  /** The main program's tiles: ceil(W/w) * ceil(H/w) of them (StartsCount), each w
      pixels on a side from its start to its end bound, starting on the stride, ordered
      x outer and y inner. */
  lemma SectionsShape(width: int, height: int, w: int, i: int, j: int)
    requires w > 0
    requires 0 <= i < RangeLen(width, w) && 0 <= j < RangeLen(height, w)
    ensures |Sections(width, height, w)| == RangeLen(width, w) * RangeLen(height, w)
    ensures i * RangeLen(height, w) + j < |Sections(width, height, w)|
    ensures Sections(width, height, w)[i * RangeLen(height, w) + j]
         == Tile(1 + i * w, 1 + i * w + w, 1 + j * w, 1 + j * w + w)
  {
    GridAt(Starts(width, w), Starts(height, w), w, i, j);
  }

  /** Exactly one tile per pair of starts: no tile appears twice. */
  lemma SectionsDistinct(width: int, height: int, w: int, k1: int, k2: int)
    requires w > 0
    requires 0 <= k1 < |Sections(width, height, w)| && 0 <= k2 < |Sections(width, height, w)|
    requires Sections(width, height, w)[k1] == Sections(width, height, w)[k2]
    ensures k1 == k2
  {
    var xs, ys := Starts(width, w), Starts(height, w);
    GridIndex(xs, ys, w, k1);
    GridIndex(xs, ys, w, k2);
    var m := |ys|;
    RowOf(k1, m, |xs|);
    RowOf(k2, m, |xs|);
    MulCancel(k1 / m, k2 / m, w);
    MulCancel(k1 % m, k2 % m, w);
  }

  /** The tile start at or below pixel v on one axis. */
  lemma StartBelow(limit: int, w: int, v: int)
    requires w > 0 && 1 <= v <= limit
    ensures 0 <= (v - 1) / w < RangeLen(limit, w)
    ensures 1 + ((v - 1) / w) * w <= v < 1 + ((v - 1) / w) * w + w
  {
    DivMono(0, v - 1, w);
    DivMono(v - 1, limit - 1, w);
    assert v - 1 == ((v - 1) / w) * w + (v - 1) % w;
  }

  /** Every pixel of the mosaic lies in some tile, counting each tile's start bound and
      not its end bound. */
  lemma SectionsCover(width: int, height: int, w: int, px: int, py: int)
    requires w > 0 && 1 <= px <= width && 1 <= py <= height
    ensures exists k :: 0 <= k < |Sections(width, height, w)| &&
                        Sections(width, height, w)[k].xMin <= px < Sections(width, height, w)[k].xMax &&
                        Sections(width, height, w)[k].yMin <= py < Sections(width, height, w)[k].yMax
  {
    var i, j := (px - 1) / w, (py - 1) / w;
    StartBelow(width, w, px);
    StartBelow(height, w, py);
    SectionsShape(width, height, w, i, j);
    var k := i * RangeLen(height, w) + j;
    assert Sections(width, height, w)[k].xMin <= px < Sections(width, height, w)[k].xMax;
  }

  /** Neighbouring tiles of one column share a row of pixels: the end bound of one is
      the start bound of the next, and both bounds are inclusive in a cutout. */
  lemma SectionsOverlap(width: int, height: int, w: int, i: int, j: int)
    requires w > 0 && 0 <= i < RangeLen(width, w) && 0 <= j && j + 1 < RangeLen(height, w)
    ensures i * RangeLen(height, w) + j + 1 < |Sections(width, height, w)|
    ensures Sections(width, height, w)[i * RangeLen(height, w) + j].yMax
         == Sections(width, height, w)[i * RangeLen(height, w) + j + 1].yMin
  {
    var m := RangeLen(height, w);
    SectionsShape(width, height, w, i, j);
    SectionsShape(width, height, w, i, j + 1);
    assert i * m + (j + 1) == i * m + j + 1;
  }

  /** Builds the tile list by appending in nested loops (stack.py:214-220). */
  method BuildSections(width: int, height: int, w: int) returns (sections: seq<Tile>)
    requires w > 0
    ensures sections == Sections(width, height, w)
  {
    var dxs := Starts(width, w);
    var dys := Starts(height, w);
    sections := [];
    for a := 0 to |dxs|
      invariant sections == Grid(dxs[..a], dys, w)
    {
      var x1 := dxs[a];
      for b := 0 to |dys|
        invariant sections == Grid(dxs[..a], dys, w) + Column(x1, dys[..b], w)
      {
        var y1 := dys[b];
        sections := sections + [Tile(x1, x1 + w, y1, y1 + w)];
        assert Column(x1, dys[..b + 1], w) == Column(x1, dys[..b], w) + [Tile(x1, x1 + w, y1, y1 + w)];
      }
      assert dxs[..a + 1][..a] == dxs[..a];
      assert dys[..|dys|] == dys;
    }
    assert dxs[..|dxs|] == dxs;
  }

  /** Key `n`: `min(idx + 1, len - 1)`. From a valid index it moves forward by one,
      except on the last tile, where it stays. */
  function Next(idx: int, n: int): (r: int)
    ensures 0 <= idx < n ==> 0 <= r < n && (r == idx <==> idx == n - 1) && (r != idx ==> r == idx + 1)
  {
    if idx + 1 < n - 1 then idx + 1 else n - 1
  }

  /** Key `p`: `max(idx - 1, 0)`. From a valid index it moves back by one, except on
      the first tile, where it stays. */
  function Prev(idx: int, n: int): (r: int)
    ensures 0 <= idx < n ==> 0 <= r < n && (r == idx <==> idx == 0) && (r != idx ==> r == idx - 1)
  {
    if idx - 1 > 0 then idx - 1 else 0
  }

  lemma PrevUndoesNext(idx: int, n: int)
    requires 0 <= idx < n - 1
    ensures Prev(Next(idx, n), n) == idx
  {
  }

  lemma NextUndoesPrev(idx: int, n: int)
    requires 0 < idx < n
    ensures Next(Prev(idx, n), n) == idx
  {
  }
}
