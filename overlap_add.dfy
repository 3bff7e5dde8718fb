/**
  Overlap-add accumulation of `Tester.inference` in slide mode
  (ssseg/test.py lines 128-140): a zeroed score buffer (class x H x W) and a
  zeroed count buffer (H x W); every window adds the predictor's block into
  its region of the scores and 1 into its region of the counts; once every
  pixel has been counted at least once, the scores are divided by the counts.
*/
module OverlapAdd {
  import opened TileGrid

  /**
    The network, seen from the tiler: the score it gives, for the crop under
    window `t`, to class `c` at row `dy` and column `dx` of the crop.
  */
  type Predictor = (Tile, nat, nat, nat) -> real

  /** Whether window `t` contains pixel (y, x). */
  predicate Covers(t: Tile, y: nat, x: nat)
    ensures Covers(t, y, x) ==> t.y1 < t.y2 && t.x1 < t.x2
  {
    t.y1 <= y < t.y2 && t.x1 <= x < t.x2
  }

  /** The number of windows of `ts` that contain pixel (y, x). */
  function CoverCount(ts: seq<Tile>, y: nat, x: nat): (k: nat)
    ensures k <= |ts|
  {
    if ts == [] then 0
    else CoverCount(ts[..|ts| - 1], y, x) + (if Covers(ts[|ts| - 1], y, x) then 1 else 0)
  }

  /** The sum, over the windows of `ts` that contain (y, x), of their class-`c` score there. */
  function ScoreSum(ts: seq<Tile>, predict: Predictor, c: nat, y: nat, x: nat): (r: real)
    ensures (forall k :: 0 <= k < |ts| ==> !Covers(ts[k], y, x)) ==> r == 0.0
  {
    if ts == [] then 0.0
    else
      var t := ts[|ts| - 1];
      ScoreSum(ts[..|ts| - 1], predict, c, y, x)
        + (if Covers(t, y, x) then predict(t, c, y - t.y1, x - t.x1) else 0.0)
  }

  /** The overlap average at a covered pixel: the mean of the scores of the windows over it. */
  function Averaged(ts: seq<Tile>, predict: Predictor, c: nat, y: nat, x: nat): (r: real)
    requires CoverCount(ts, y, x) > 0
    ensures CoverCount(ts, y, x) == 1 ==> r == ScoreSum(ts, predict, c, y, x)
  {
    ScoreSum(ts, predict, c, y, x) / CoverCount(ts, y, x) as real
  }

  /** `a` added `n` times: a * n, written without multiplication so the bounds below stay linear. */
  function Repeated(a: real, n: nat): (r: real)
    ensures r == a * n as real
  {
    if n == 0 then 0.0 else Repeated(a, n - 1) + a
  }

  /** With every window score in [lo, hi], the summed score lies between lo and hi times the count. */
  lemma {:induction false} ScoreSumBounds(ts: seq<Tile>, predict: Predictor, lo: real, hi: real, c: nat, y: nat, x: nat)
    requires forall t, c', dy, dx :: lo <= predict(t, c', dy, dx) <= hi
    ensures Repeated(lo, CoverCount(ts, y, x)) <= ScoreSum(ts, predict, c, y, x) <= Repeated(hi, CoverCount(ts, y, x))
  {
    if ts != [] {
      ScoreSumBounds(ts[..|ts| - 1], predict, lo, hi, c, y, x);
    }
  }

  lemma QuotientBounds(s: real, n: nat, lo: real, hi: real, q: real)
    requires n > 0 && Repeated(lo, n) <= s <= Repeated(hi, n) && q == s / n as real
    ensures lo <= q <= hi
  {
  }

  lemma QuotientOfMultiple(s: real, v: real, n: nat, q: real)
    requires n > 0 && s == Repeated(v, n) && q == s / n as real
    ensures q == v
  {
  }

  /** The overlap average never leaves the range of the scores it averages. */
  lemma AveragedBounds(ts: seq<Tile>, predict: Predictor, lo: real, hi: real, c: nat, y: nat, x: nat)
    requires forall t, c', dy, dx :: lo <= predict(t, c', dy, dx) <= hi
    requires CoverCount(ts, y, x) > 0
    ensures lo <= Averaged(ts, predict, c, y, x) <= hi
  {
    var n := CoverCount(ts, y, x);
    var s := ScoreSum(ts, predict, c, y, x);
    ScoreSumBounds(ts, predict, lo, hi, c, y, x);
    QuotientBounds(s, n, lo, hi, Averaged(ts, predict, c, y, x));
  }

  /** A pixel's count is zero exactly when no window contains it. */
  lemma {:induction false} CoverCountZero(ts: seq<Tile>, y: nat, x: nat)
    ensures CoverCount(ts, y, x) == 0 <==> forall k :: 0 <= k < |ts| ==> !Covers(ts[k], y, x)
  {
    if ts != [] {
      var init := ts[..|ts| - 1];
      CoverCountZero(init, y, x);
      assert forall k :: 0 <= k < |init| ==> init[k] == ts[k];
    }
  }

  /** A constant predictor makes every sum the constant times the count. */
  lemma {:induction false} ConstantScoreSum(ts: seq<Tile>, predict: Predictor, v: real, c: nat, y: nat, x: nat)
    requires forall t, c', dy, dx :: predict(t, c', dy, dx) == v
    ensures ScoreSum(ts, predict, c, y, x) == Repeated(v, CoverCount(ts, y, x))
  {
    if ts != [] {
      ConstantScoreSum(ts[..|ts| - 1], predict, v, c, y, x);
    }
  }

  /** Whatever the overlap, averaging a constant predictor's scores gives that constant back. */
  lemma ConstantPredictorAverage(ts: seq<Tile>, predict: Predictor, v: real, c: nat, y: nat, x: nat)
    requires forall t, c', dy, dx :: predict(t, c', dy, dx) == v
    requires CoverCount(ts, y, x) > 0
    ensures Averaged(ts, predict, c, y, x) == v
  {
    ConstantScoreSum(ts, predict, v, c, y, x);
    QuotientOfMultiple(ScoreSum(ts, predict, c, y, x), v, CoverCount(ts, y, x), Averaged(ts, predict, c, y, x));
  }

  /** With stride <= crop on both axes, every pixel of the image is in some grid window. */
  lemma GridCoversImage(g: Geometry, y: nat, x: nat)
    requires WellFormed(g) && g.strideH <= g.cropH && g.strideW <= g.cropW
    requires y < g.height && x < g.width
    ensures CoverCount(Grid(g), y, x) >= 1
  {
    var h := AxisCover(g.height, g.cropH, g.strideH, y);
    var w := AxisCover(g.width, g.cropW, g.strideW, x);
    GridIndex(g, h, w);
    CoverCountZero(Grid(g), y, x);
  }

  /** A column that no window along the width covers is a column of zero counts. */
  lemma ColumnGap(g: Geometry, y: nat, x: nat)
    requires WellFormed(g)
    requires forall i :: 0 <= i < ColsOf(g) ==>
      !(AxisSpan(i, g.width, g.cropW, g.strideW).lo <= x < AxisSpan(i, g.width, g.cropW, g.strideW).hi)
    ensures CoverCount(Grid(g), y, x) == 0
  {
    forall k | 0 <= k < |Grid(g)|
      ensures !Covers(Grid(g)[k], y, x)
    {
      var h, w := RowsMember(g, RowsOf(g), k);
    }
    CoverCountZero(Grid(g), y, x);
  }

  /**
    On a 1 x 3 image with crop 1 and stride 2, pixel (0, 1) is counted zero times.
    The geometry is a parameter pinned by the requires, so that the verifier
    does not unfold `Grid` on literal arguments (which is very costly).
  */
  lemma GapExample(g: Geometry)
    requires g == Geometry(1, 3, 1, 1, 2, 2)
    ensures WellFormed(g) && CoverCount(Grid(g), 0, 1) == 0
  {
    StrideAboveCropLeavesGap();
    ColumnGap(g, 0, 1);
  }

  /** The number of the first `n` windows along one axis that contain position p. */
  function AxisCount(n: nat, dim: nat, crop: nat, stride: nat, p: nat): (k: nat)
    ensures k <= n
  {
    if n == 0 then 0
    else
      var s := AxisSpan(n - 1, dim, crop, stride);
      AxisCount(n - 1, dim, crop, stride, p) + (if s.lo <= p < s.hi then 1 else 0)
  }

  lemma {:induction false} CoverCountConcat(a: seq<Tile>, b: seq<Tile>, y: nat, x: nat)
    ensures CoverCount(a + b, y, x) == CoverCount(a, y, x) + CoverCount(b, y, x)
  {
    if b == [] {
      assert a + b == a;
    } else {
      var b' := b[..|b| - 1];
      CoverCountConcat(a, b', y, x);
      assert (a + b)[..|a + b| - 1] == a + b';
      assert (a + b)[|a + b| - 1] == b[|b| - 1];
    }
  }

  /** Within one grid row, the windows over (y, x) are the column windows over x, if the row covers y. */
  lemma {:induction false} RowPrefixCount(g: Geometry, h: nat, w: nat, y: nat, x: nat)
    requires WellFormed(g) && w <= ColsOf(g)
    ensures CoverCount(Row(g, h)[..w], y, x) ==
      var r := AxisSpan(h, g.height, g.cropH, g.strideH);
      if r.lo <= y < r.hi then AxisCount(w, g.width, g.cropW, g.strideW, x) else 0
  {
    if w > 0 {
      RowPrefixCount(g, h, w - 1, y, x);
      assert Row(g, h)[..w][..w - 1] == Row(g, h)[..w - 1];
    }
  }

  /** A whole grid row: the column windows over x if the row covers y, none otherwise. */
  lemma RowCount(g: Geometry, h: nat, y: nat, x: nat)
    requires WellFormed(g)
    ensures CoverCount(Row(g, h), y, x) ==
      var r := AxisSpan(h, g.height, g.cropH, g.strideH);
      if r.lo <= y < r.hi then AxisCount(ColsOf(g), g.width, g.cropW, g.strideW, x) else 0
  {
    RowPrefixCount(g, h, ColsOf(g), y, x);
    assert Row(g, h)[..ColsOf(g)] == Row(g, h);
  }

  lemma AddMul(total: nat, first: nat, last: nat, a: nat, e: nat, b: nat)
    requires total == first + last && first == a * b && last == e * b
    ensures total == (a + e) * b
  {
  }

  /**
    The count of a pixel factors: it is the number of row windows over its row
    times the number of column windows over its column.
  */
  lemma {:induction false} RowsCount(g: Geometry, n: nat, y: nat, x: nat)
    requires WellFormed(g)
    ensures CoverCount(Rows(g, n), y, x) ==
      AxisCount(n, g.height, g.cropH, g.strideH, y) * AxisCount(ColsOf(g), g.width, g.cropW, g.strideW, x)
  {
    if n > 0 {
      RowsCount(g, n - 1, y, x);
      RowsCountStep(g, n, y, x);
    } else {
      assert AxisCount(0, g.height, g.cropH, g.strideH, y) == 0;
    }
  }

  lemma RowsCountStep(g: Geometry, n: nat, y: nat, x: nat)
    requires WellFormed(g) && n > 0
    requires CoverCount(Rows(g, n - 1), y, x) ==
      AxisCount(n - 1, g.height, g.cropH, g.strideH, y) * AxisCount(ColsOf(g), g.width, g.cropW, g.strideW, x)
    ensures CoverCount(Rows(g, n), y, x) ==
      AxisCount(n, g.height, g.cropH, g.strideH, y) * AxisCount(ColsOf(g), g.width, g.cropW, g.strideW, x)
  {
    var a := AxisCount(n - 1, g.height, g.cropH, g.strideH, y);
    var b := AxisCount(ColsOf(g), g.width, g.cropW, g.strideW, x);
    var r := AxisSpan(n - 1, g.height, g.cropH, g.strideH);
    var e := if r.lo <= y < r.hi then 1 else 0;
    CoverCountConcat(Rows(g, n - 1), Row(g, n - 1), y, x);
    RowCount(g, n - 1, y, x);
    AddMul(CoverCount(Rows(g, n), y, x), CoverCount(Rows(g, n - 1), y, x), CoverCount(Row(g, n - 1), y, x), a, e, b);
    assert AxisCount(n, g.height, g.cropH, g.strideH, y) == a + e;
  }

  lemma GridCount(g: Geometry, y: nat, x: nat)
    requires WellFormed(g)
    ensures CoverCount(Grid(g), y, x) ==
      AxisCount(RowsOf(g), g.height, g.cropH, g.strideH, y) * AxisCount(ColsOf(g), g.width, g.cropW, g.strideW, x)
  {
    RowsCount(g, RowsOf(g), y, x);
  }

  /**
    Adds window `t`'s scores into its region of `scores` (the `+=` of the
    zero-padded block, test.py line 137) and 1 into its region of `counts`
    (line 138); every other cell keeps its value.
  */
  method Deposit(scores: array3<real>, counts: array2<int>, t: Tile, predict: Predictor)
    requires scores.Length1 == counts.Length0 && scores.Length2 == counts.Length1
    requires t.y2 <= counts.Length0 && t.x2 <= counts.Length1
    modifies scores, counts
    ensures forall y, x :: 0 <= y < counts.Length0 && 0 <= x < counts.Length1 ==>
      counts[y, x] == old(counts[y, x]) + (if Covers(t, y, x) then 1 else 0)
    ensures forall c, y, x :: 0 <= c < scores.Length0 && 0 <= y < scores.Length1 && 0 <= x < scores.Length2 ==>
      scores[c, y, x] == old(scores[c, y, x]) + (if Covers(t, y, x) then predict(t, c, y - t.y1, x - t.x1) else 0.0)
  {
    forall c, y, x | 0 <= c < scores.Length0 && 0 <= y < scores.Length1 && 0 <= x < scores.Length2 {
      scores[c, y, x] := scores[c, y, x] + (if Covers(t, y, x) then predict(t, c, y - t.y1, x - t.x1) else 0.0);
    }
    forall y, x | t.y1 <= y < t.y2 && t.x1 <= x < t.x2 {
      counts[y, x] := counts[y, x] + 1;
    }
  }

  /** The buffers hold exactly the overlap-add of the windows `ts`. */
  ghost predicate Accumulated(scores: array3<real>, counts: array2<int>, ts: seq<Tile>, predict: Predictor)
    reads scores, counts
  {
    scores.Length1 == counts.Length0 && scores.Length2 == counts.Length1 &&
    (forall y, x :: 0 <= y < counts.Length0 && 0 <= x < counts.Length1 ==>
      counts[y, x] == CoverCount(ts, y, x)) &&
    (forall c, y, x :: 0 <= c < scores.Length0 && 0 <= y < scores.Length1 && 0 <= x < scores.Length2 ==>
      scores[c, y, x] == ScoreSum(ts, predict, c, y, x))
  }

  /** Depositing one more window extends the accumulated sequence by that window. */
  method DepositNext(scores: array3<real>, counts: array2<int>, ghost ts: seq<Tile>, t: Tile, predict: Predictor)
    requires Accumulated(scores, counts, ts, predict)
    requires t.y2 <= counts.Length0 && t.x2 <= counts.Length1
    modifies scores, counts
    ensures Accumulated(scores, counts, ts + [t], predict)
  {
    Deposit(scores, counts, t, predict);
    assert (ts + [t])[..|ts|] == ts;
  }

  /**
    The number of zero cells of `counts` (the reduction `(count_mat == 0).sum()`,
    line 139). Only what line 139 uses is specified: whether that number is 0.
  */
  method CountZeros(counts: array2<int>) returns (z: nat)
    ensures z == 0 <==> forall y, x :: 0 <= y < counts.Length0 && 0 <= x < counts.Length1 ==> counts[y, x] != 0
    ensures z <= counts.Length0 * counts.Length1
  {
    z := 0;
    var y := 0;
    while y < counts.Length0
      invariant 0 <= y <= counts.Length0
      invariant z <= y * counts.Length1
      invariant z == 0 <==> forall i, j :: 0 <= i < y && 0 <= j < counts.Length1 ==> counts[i, j] != 0
    {
      var x := 0;
      while x < counts.Length1
        invariant 0 <= x <= counts.Length1
        invariant z <= y * counts.Length1 + x
        invariant z == 0 <==> forall i, j :: (0 <= i < y && 0 <= j < counts.Length1) || (i == y && 0 <= j < x) ==> counts[i, j] != 0
      {
        if counts[y, x] == 0 {
          z := z + 1;
        }
        x := x + 1;
      }
      y := y + 1;
    }
  }

  /** Divides every class score by its pixel's count (line 140). */
  method Normalize(scores: array3<real>, counts: array2<int>)
    requires scores.Length1 == counts.Length0 && scores.Length2 == counts.Length1
    requires forall y, x :: 0 <= y < counts.Length0 && 0 <= x < counts.Length1 ==> counts[y, x] > 0
    modifies scores
    ensures forall c, y, x :: 0 <= c < scores.Length0 && 0 <= y < scores.Length1 && 0 <= x < scores.Length2 ==>
      scores[c, y, x] == old(scores[c, y, x]) / counts[y, x] as real
  {
    forall c, y, x | 0 <= c < scores.Length0 && 0 <= y < scores.Length1 && 0 <= x < scores.Length2 {
      scores[c, y, x] := scores[c, y, x] / counts[y, x] as real;
    }
  }
}
