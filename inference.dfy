/**
  `Tester.inference` (ssseg/test.py lines 117-141) for one image: in `whole`
  mode the predictor runs once on the full image; in `slide` mode it runs
  once per grid window and the window outputs are overlap-averaged.
*/
module Inference {
  import opened Wrappers
  import opened TileGrid
  import opened OverlapAdd

  /** The ways `inference` can fail. */
  datatype InferenceError =
    | UnknownMode      // the mode is neither "whole" nor "slide" (line 118)
    | ZeroStride       // a stride of 0 makes the grid-count division fail (lines 126-127)
    | CoverageGap      // some pixel lies in no window (line 139)

  /** The window that is the whole image: what the predictor sees in `whole` mode. */
  function WholeTile(height: nat, width: nat): (t: Tile)
    ensures forall y: nat, x: nat :: Covers(t, y, x) <==> y < height && x < width
  {
    Tile(0, 0, width, height)
  }

  /** The class-`c` score at (y, x) that slide mode produces for a fully covered image. */
  function SlideScore(g: Geometry, predict: Predictor, c: nat, y: nat, x: nat): real
    requires WellFormed(g) && CoverCount(Grid(g), y, x) > 0
  {
    Averaged(Grid(g), predict, c, y, x)
  }

  /**
    What slide mode promises: ZeroStride exactly when a stride is 0;
    otherwise CoverageGap exactly when some pixel is in no grid window;
    otherwise a `numClasses` x height x width array holding, at every cell,
    the mean of the scores of the windows containing that pixel.
  */
  ghost predicate SlideOutcome(g: Geometry, numClasses: nat, predict: Predictor,
                               r: Result<array3<real>, InferenceError>)
    reads if r.Success? then {r.value} else {}
  {
    (r.Failure? ==> r.error == ZeroStride || r.error == CoverageGap) &&
    (!WellFormed(g) <==> r == Failure(ZeroStride)) &&
    (WellFormed(g) ==>
      (r == Failure(CoverageGap) <==>
        exists y, x :: 0 <= y < g.height && 0 <= x < g.width && CoverCount(Grid(g), y, x) == 0)) &&
    (r.Success? ==>
      r.value.Length0 == numClasses && r.value.Length1 == g.height && r.value.Length2 == g.width &&
      WellFormed(g) &&
      forall c, y, x :: 0 <= c < numClasses && 0 <= y < g.height && 0 <= x < g.width ==>
        CoverCount(Grid(g), y, x) > 0 && r.value[c, y, x] == SlideScore(g, predict, c, y, x))
  }

  /** Slide mode (lines 122-140). */
  method Slide(g: Geometry, numClasses: nat, predict: Predictor)
    returns (r: Result<array3<real>, InferenceError>)
    ensures r.Success? ==> fresh(r.value)
    ensures SlideOutcome(g, numClasses, predict, r)
  {
    if g.strideH == 0 || g.strideW == 0 {
      return Failure(ZeroStride);
    }
    var scores := new real[numClasses, g.height, g.width]((c, y, x) => 0.0);
    var counts := new int[g.height, g.width]((y, x) => 0);
    AccumulateGrid(g, scores, counts, predict);
    var zeros := CountZeros(counts);
    if zeros != 0 {
      var y, x :| 0 <= y < g.height && 0 <= x < g.width && counts[y, x] == 0;
      assert CoverCount(Grid(g), y, x) == 0;
      return Failure(CoverageGap);
    }
    Normalize(scores, counts);
    return Success(scores);
  }

  /**
    `inference` for one image of the given size: only the modes "whole" and
    "slide" are accepted; "whole" returns the predictor's output on the full
    image unchanged; "slide" behaves as Slide.
  */
  method Infer(mode: string, g: Geometry, numClasses: nat, predict: Predictor)
    returns (r: Result<array3<real>, InferenceError>)
    ensures r.Success? ==> fresh(r.value)
    ensures r == Failure(UnknownMode) <==> mode != "whole" && mode != "slide"
    ensures mode == "whole" ==>
      r.Success? &&
      r.value.Length0 == numClasses && r.value.Length1 == g.height && r.value.Length2 == g.width &&
      forall c, y, x :: 0 <= c < numClasses && 0 <= y < g.height && 0 <= x < g.width ==>
        r.value[c, y, x] == predict(WholeTile(g.height, g.width), c, y, x)
    ensures mode == "slide" ==> SlideOutcome(g, numClasses, predict, r)
  {
    if mode != "whole" && mode != "slide" {
      return Failure(UnknownMode);
    }
    if mode == "whole" {
      var t := WholeTile(g.height, g.width);
      var out := new real[numClasses, g.height, g.width]((c, y, x) requires 0 <= c && 0 <= y && 0 <= x => predict(t, c, y, x));
      return Success(out);
    }
    r := Slide(g, numClasses, predict);
  }

  /**
    When the crop is at least the image size on both axes, slide mode makes
    one window, counts every pixel once and yields exactly whole mode's scores.
  */
  lemma SlideMatchesWholeForFullCrop(g: Geometry, predict: Predictor, c: nat, y: nat, x: nat)
    requires WellFormed(g) && g.cropH >= g.height && g.cropW >= g.width
    requires y < g.height && x < g.width
    ensures CoverCount(Grid(g), y, x) == 1
    ensures SlideScore(g, predict, c, y, x) == predict(WholeTile(g.height, g.width), c, y, x)
  {
    SingleTileWhenCropCovers(g);
    var t := WholeTile(g.height, g.width);
    assert Grid(g) == [t] && [t][..0] == [];
    assert ScoreSum([t], predict, c, y, x) == predict(t, c, y - t.y1, x - t.x1);
  }

  /** The nested `h_idx`/`w_idx` loops (lines 130-138): deposit every grid window in order. */
  method AccumulateGrid(g: Geometry, scores: array3<real>, counts: array2<int>, predict: Predictor)
    requires WellFormed(g) && Accumulated(scores, counts, [], predict)
    requires counts.Length0 == g.height && counts.Length1 == g.width
    modifies scores, counts
    ensures Accumulated(scores, counts, Grid(g), predict)
  {
    var rows := RowsOf(g);
    var h := 0;
    while h < rows
      invariant h <= rows
      invariant Accumulated(scores, counts, Rows(g, h), predict)
    {
      AccumulateRow(g, h, scores, counts, predict);
      h := h + 1;
    }
  }

  /** The inner `w_idx` loop: deposit the windows of grid row h from left to right. */
  method AccumulateRow(g: Geometry, h: nat, scores: array3<real>, counts: array2<int>, predict: Predictor)
    requires WellFormed(g) && Accumulated(scores, counts, Rows(g, h), predict)
    requires counts.Length0 == g.height && counts.Length1 == g.width
    modifies scores, counts
    ensures Accumulated(scores, counts, Rows(g, h + 1), predict)
  {
    var cols := ColsOf(g);
    ghost var done := Rows(g, h);
    var w := 0;
    while w < cols
      invariant w <= cols
      invariant done == Rows(g, h) + Row(g, h)[..w]
      invariant Accumulated(scores, counts, done, predict)
    {
      var t := TileAt(g, h, w);
      DepositNext(scores, counts, done, t, predict);
      assert Row(g, h)[..w + 1] == Row(g, h)[..w] + [t];
      done := done + [t];
      w := w + 1;
    }
    assert Row(g, h)[..w] == Row(g, h);
  }
}
