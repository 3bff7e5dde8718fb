/**
  Planning of the sliding-window grid of `Tester.inference` (ssseg/test.py).

  Along one axis of length `dim`, with crop size `crop` and stride `stride`,
  the grid has `max(dim - crop + stride - 1, 0) / stride + 1` windows; window
  `i` ends at `min(i * stride + crop, dim)` and starts `crop` before its end,
  but never before 0. The last window is therefore shifted inward instead of
  being cut short. The 2-D grid visits rows (h) in the outer loop and columns
  (w) in the inner loop.
*/
module TileGrid {

  function Min(a: int, b: int): int { if a <= b then a else b }
  function Max(a: int, b: int): int { if a >= b then a else b }

  /** A half-open interval [lo, hi) of pixel indices along one axis. */
  datatype Span = Span(lo: nat, hi: nat)

  /** A crop window: columns [x1, x2), rows [y1, y2). */
  datatype Tile = Tile(x1: nat, y1: nat, x2: nat, y2: nat)

  /** Image size and the `cropsize`/`stride` options of slide mode. */
  datatype Geometry = Geometry(height: nat, width: nat,
                               cropH: nat, cropW: nat,
                               strideH: nat, strideW: nat)

  /** Both strides are positive, so the grid-count divisions are defined. */
  predicate WellFormed(g: Geometry) { g.strideH > 0 && g.strideW > 0 }

  /** Number of windows along one axis (test.py lines 126-127). */
  function NumGrids(dim: nat, crop: nat, stride: nat): (n: nat)
    requires stride > 0
    ensures n >= 1
    ensures dim <= crop ==> n == 1
  {
    Max(dim - crop + stride - 1, 0) / stride + 1
  }

  /** Window `i` along one axis (test.py lines 132-134). */
  function AxisSpan(i: nat, dim: nat, crop: nat, stride: nat): (s: Span)
    ensures s.lo <= s.hi <= dim
    ensures s.hi - s.lo == Min(crop, dim)
    ensures i * stride + crop <= dim ==> s == Span(i * stride, i * stride + crop)
    ensures i * stride + crop >= dim ==> s.hi == dim
  {
    var a2 := Min(i * stride + crop, dim);
    var a1 := Max(a2 - crop, 0);
    Span(a1, a2)
  }

  function RowsOf(g: Geometry): (n: nat) requires WellFormed(g) { NumGrids(g.height, g.cropH, g.strideH) }
  function ColsOf(g: Geometry): (n: nat) requires WellFormed(g) { NumGrids(g.width, g.cropW, g.strideW) }

  /** Whether a window lies inside the image and has the clamped crop size. */
  predicate InImage(g: Geometry, t: Tile)
  {
    t.x1 <= t.x2 <= g.width && t.y1 <= t.y2 <= g.height &&
    t.x2 - t.x1 == Min(g.cropW, g.width) && t.y2 - t.y1 == Min(g.cropH, g.height)
  }

  /** The window of grid cell (h, w). */
  function TileAt(g: Geometry, h: nat, w: nat): (t: Tile)
    ensures InImage(g, t)
  {
    var r := AxisSpan(h, g.height, g.cropH, g.strideH);
    var c := AxisSpan(w, g.width, g.cropW, g.strideW);
    Tile(c.lo, r.lo, c.hi, r.hi)
  }

  /** The windows of grid row h, left to right. */
  function Row(g: Geometry, h: nat): (ts: seq<Tile>)
    requires WellFormed(g)
    ensures |ts| == ColsOf(g)
  {
    seq(ColsOf(g), w requires 0 <= w => TileAt(g, h, w))
  }

  /** The windows of grid rows 0 .. n-1 in visiting order. */
  function Rows(g: Geometry, n: nat): (ts: seq<Tile>)
    requires WellFormed(g)
    ensures |ts| == n * ColsOf(g)
    ensures forall t :: t in ts ==> InImage(g, t)
  {
    if n == 0 then [] else Rows(g, n - 1) + Row(g, n - 1)
  }

  /** The whole grid in the order `Tester.inference` visits it. */
  function Grid(g: Geometry): (ts: seq<Tile>)
    requires WellFormed(g)
    ensures |ts| == RowsOf(g) * ColsOf(g)
    ensures forall t :: t in ts ==> InImage(g, t)
  {
    Rows(g, RowsOf(g))
  }

  /** Grid cell (h, w) is the (h * columns + w)-th window visited: row-major order. */
  lemma {:induction false} RowsIndex(g: Geometry, n: nat, h: nat, w: nat)
    requires WellFormed(g) && h < n && w < ColsOf(g)
    ensures h * ColsOf(g) + w < |Rows(g, n)|
    ensures Rows(g, n)[h * ColsOf(g) + w] == TileAt(g, h, w)
  {
    var nw := ColsOf(g);
    assert (h + 1) * nw == h * nw + nw;
    if h < n - 1 {
      RowsIndex(g, n - 1, h, w);
      assert (n - 1) * nw >= (h + 1) * nw;
    } else {
      assert Rows(g, n)[h * nw + w] == Row(g, h)[w];
    }
  }

  /** Conversely, every window visited is the window of some grid cell. */
  lemma {:induction false} RowsMember(g: Geometry, n: nat, k: nat) returns (h: nat, w: nat)
    requires WellFormed(g) && k < |Rows(g, n)|
    ensures h < n && w < ColsOf(g)
    ensures Rows(g, n)[k] == TileAt(g, h, w)
  {
    var before := Rows(g, n - 1);
    if k < |before| {
      h, w := RowsMember(g, n - 1, k);
    } else {
      h, w := n - 1, k - |before|;
      assert Rows(g, n)[k] == Row(g, n - 1)[w];
    }
  }

  lemma GridIndex(g: Geometry, h: nat, w: nat)
    requires WellFormed(g) && h < RowsOf(g) && w < ColsOf(g)
    ensures h * ColsOf(g) + w < |Grid(g)|
    ensures Grid(g)[h * ColsOf(g) + w] == TileAt(g, h, w)
  {
    RowsIndex(g, RowsOf(g), h, w);
  }

  /**
    The grid is exactly long enough: the last unclamped window reaches the
    far edge, and (with two or more windows) the one before it does not.
  */
  lemma NumGridsTight(dim: nat, crop: nat, stride: nat)
    requires stride > 0
    ensures (NumGrids(dim, crop, stride) - 1) * stride + crop >= dim
    ensures NumGrids(dim, crop, stride) >= 2 ==> (NumGrids(dim, crop, stride) - 2) * stride + crop < dim
  {
    var m := Max(dim - crop + stride - 1, 0);
    var q := m / stride;
    assert m == q * stride + m % stride;
    assert (q + 1) * stride == q * stride + stride;
    if q >= 1 {
      assert (q - 1) * stride == q * stride - stride;
    }
  }

  /** The last window along an axis ends exactly at the image edge. */
  lemma LastSpanAtEdge(dim: nat, crop: nat, stride: nat)
    requires stride > 0
    ensures AxisSpan(NumGrids(dim, crop, stride) - 1, dim, crop, stride).hi == dim
  {
    NumGridsTight(dim, crop, stride);
  }

  lemma MulMono(a: nat, b: nat, c: nat)
    requires a <= b
    ensures a * c <= b * c
  {
  }

  /** With stride <= crop every pixel along an axis lies in some window. */
  lemma AxisCover(dim: nat, crop: nat, stride: nat, p: nat) returns (i: nat)
    requires 0 < stride <= crop && p < dim
    ensures i < NumGrids(dim, crop, stride)
    ensures AxisSpan(i, dim, crop, stride).lo <= p < AxisSpan(i, dim, crop, stride).hi
  {
    var n := NumGrids(dim, crop, stride);
    var q := p / stride;
    assert q * stride <= p < q * stride + stride by {
      assert p == q * stride + p % stride;
    }
    if q < n {
      i := q;
    } else {
      i := n - 1;
      LastSpanAtEdge(dim, crop, stride);
      NumGridsTight(dim, crop, stride);
      MulMono(n, q, stride);
      assert n * stride == (n - 1) * stride + stride;
      assert dim - crop < p;
    }
  }

  /** A crop at least as large as the image gives one window, the whole image. */
  lemma SingleTileWhenCropCovers(g: Geometry)
    requires WellFormed(g) && g.cropH >= g.height && g.cropW >= g.width
    ensures Grid(g) == [Tile(0, 0, g.width, g.height)]
  {
    assert RowsOf(g) == 1 && ColsOf(g) == 1;
    assert Rows(g, 1) == Rows(g, 0) + Row(g, 0);
    assert Row(g, 0)[0] == TileAt(g, 0, 0);
  }

  /** A 10-pixel axis with crop 4 and stride 4 has windows at 0, 4 and 6 (not 8). */
  lemma TenPixelsCropFourStrideFour()
    ensures NumGrids(10, 4, 4) == 3
    ensures AxisSpan(0, 10, 4, 4) == Span(0, 4)
    ensures AxisSpan(1, 10, 4, 4) == Span(4, 8)
    ensures AxisSpan(2, 10, 4, 4) == Span(6, 10)
  {
  }

  /**
    With stride > crop the windows can leave gaps: on a 3-pixel axis with
    crop 1 and stride 2 there are two windows, [0, 1) and [2, 3), and pixel 1
    is in neither.
  */
  lemma StrideAboveCropLeavesGap()
    ensures NumGrids(3, 1, 2) == 2
    ensures AxisSpan(0, 3, 1, 2) == Span(0, 1) && AxisSpan(1, 3, 1, 2) == Span(2, 3)
    ensures forall i :: 0 <= i < NumGrids(3, 1, 2) ==> !(AxisSpan(i, 3, 1, 2).lo <= 1 < AxisSpan(i, 3, 1, 2).hi)
  {
    forall i | 0 <= i < NumGrids(3, 1, 2)
      ensures !(AxisSpan(i, 3, 1, 2).lo <= 1 < AxisSpan(i, 3, 1, 2).hi)
    {
      assert i == 0 || i == 1;
    }
  }
}
