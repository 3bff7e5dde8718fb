# Sliding-window segmentation inference, modelled in Dafny

This project models the test-time core of the sssegmentation tester
(`ssseg/test.py`): the tiled ("slide") inference of `Tester.inference`, its
"whole" mode, the ground-truth remap and result lists of `Tester.start`, and
the per-process split of the loader settings.

- `tile_grid.dfy` (module `TileGrid`): the grid of crop windows. Along an axis
  of length `dim` there are `max(dim - crop + stride - 1, 0) / stride + 1`
  windows. Window `i` ends at `min(i * stride + crop, dim)` and starts `crop`
  before that end, but never before 0. The grid is visited row by row.
- `overlap_add.dfy` (module `OverlapAdd`): the score buffer (class x height x
  width, `array3<real>`) and the count buffer (height x width, `array2<int>`).
  It holds the deposit of one window, the zero-count scan and the division. The
  specification functions `CoverCount` and `ScoreSum` give, for a sequence of
  windows, how many contain a pixel and the sum of their scores there.
- `inference.dfy` (module `Inference`): `Infer` (mode check, whole mode, slide
  mode) and the nested row/column loops of slide mode.
- `results.dfy` (module `Results`): the in-place remap of ground-truth labels
  `>= num_classes` to the ignore label -1, and the two parallel result lists.
- `loader_split.dfy` (module `LoaderSplit`): batch size and worker count divided
  by the number of processes, with the two divisibility assertions.
- `wrappers.dfy` (module `Wrappers`): `Option` and `Result`.

The predictor (the segmentation network) is a parameter. It is a total function
from a window and a class index and a position inside the window to a real
score. Whole mode applies it to the window that spans the whole image.
Tensor operations that act on a whole slice at once become Dafny `forall`
statements: the `+=` of the zero-padded block, the slice `+= 1` on the count
map, the masked write and the division. The nested `h_idx`/`w_idx` loops of
slide mode (test.py lines 130-131) become `while` loops with invariants, and
so does the zero-count reduction `(count_mat == 0).sum()` of line 139. The
per-image loop of line 108 is modelled by one iteration, `Collected.Add`.

## Model

| member | source | states |
|---|---|---|
| TileGrid.NumGrids | ssseg/test.py:126-127 | an axis always gets at least one window, and exactly one when the crop is at least as long as the axis |
| TileGrid.NumGridsTight | ssseg/test.py:126-127 | the window count is the least that reaches the edge: the last unclamped window ends at or past `dim`, and the one before it ends short of `dim` |
| TileGrid.AxisSpan | ssseg/test.py:132-134 | every window lies in `[0, dim]` and has length `min(crop, dim)`; a window that fits is not moved; a window that would overrun ends exactly at `dim` (shifted inward, not shrunk) |
| TileGrid.LastSpanAtEdge | ssseg/test.py:126-134 | the last window along an axis ends exactly at the image edge |
| TileGrid.AxisCover | ssseg/test.py:126-134 | with `stride <= crop`, every position of the axis lies inside some window of the grid |
| TileGrid.TileAt | ssseg/test.py:132-135 | the window of grid cell (h, w) lies inside the image, so the crop reads no pixel outside it, and has size `min(crop, dim)` on each axis |
| TileGrid.Row | ssseg/test.py:131-134 | a grid row has one window per column index |
| TileGrid.Grid | ssseg/test.py:130-134 | the whole grid has rows x columns windows, every one inside the image with size `min(crop, dim)` per axis |
| TileGrid.Rows | ssseg/test.py:130-134 | the first n rows give n x columns windows, all inside the image |
| TileGrid.RowsMember | ssseg/test.py:130-134 | every visited window is the window of some grid cell (h, w) |
| TileGrid.GridIndex | ssseg/test.py:130-134 | grid cell (h, w) is visited at position h x columns + w (row-major order, h outer, w inner) |
| TileGrid.SingleTileWhenCropCovers | ssseg/test.py:126-134 | a crop at least as large as the image on both axes gives one window, the whole image |
| TileGrid.TenPixelsCropFourStrideFour | ssseg/test.py:126-134 | a 10-pixel axis with crop 4 and stride 4 has 3 windows starting at 0, 4 and 6 (not 8) |
| TileGrid.StrideAboveCropLeavesGap | ssseg/test.py:126-134 | on a 3-pixel axis with crop 1 and stride 2 the windows are [0,1) and [2,3), and position 1 is in neither |
| OverlapAdd.Covers | ssseg/test.py:135-138 | the slice region `[y1:y2, x1:x2]` of a window; a window containing any pixel is non-empty on both axes |
| OverlapAdd.ScoreSum | ssseg/test.py:137 | reference definition of the accumulated score: the sum over the windows containing a pixel of their scores there; a pixel outside every window accumulates exactly 0 |
| OverlapAdd.Averaged | ssseg/test.py:140 | reference definition of the overlap average at a counted pixel; a pixel in exactly one window keeps that window's score unchanged |
| OverlapAdd.ScoreSumBounds | ssseg/test.py:137-138 | when every window score lies in [lo, hi], the accumulated score lies between lo and hi times the pixel's count |
| OverlapAdd.AveragedBounds | ssseg/test.py:137-140 | when every window score lies in [lo, hi], the overlap average lies in [lo, hi] as well, whatever the overlap |
| OverlapAdd.CoverCount | ssseg/test.py:138 | reference definition of a pixel's count: the number of windows containing it (its own contract only bounds it by the number of windows; the facts about it are CoverCountZero, GridCount and GridCoversImage) |
| OverlapAdd.CoverCountZero | ssseg/test.py:138-139 | a pixel's count is zero if and only if no window contains it |
| OverlapAdd.ConstantScoreSum | ssseg/test.py:137-138 | with a constant predictor v, the summed score at a pixel is v added once per window over it, that is v times the pixel's count |
| OverlapAdd.ConstantPredictorAverage | ssseg/test.py:137-140 | with a constant predictor v, the averaged score is v at every counted pixel, whatever the overlap |
| OverlapAdd.GridCoversImage | ssseg/test.py:130-139 | with stride <= crop on both axes, every pixel of the image has count at least 1, so the coverage assertion cannot fail |
| OverlapAdd.ColumnGap | ssseg/test.py:130-139 | a column that no width window covers has count 0 in every row |
| OverlapAdd.GapExample | ssseg/test.py:130-139 | on a 1 x 3 image with crop 1 and stride 2, pixel (0, 1) has count 0, so the coverage assertion does fire |
| OverlapAdd.AxisCount | ssseg/test.py:130-134 | reference definition: the number of the first n windows of an axis that contain a position (its own contract only bounds it by n; GridCount states what it is for) |
| OverlapAdd.RowCount | ssseg/test.py:131-138 | within one grid row, the windows over (y, x) are the column windows over x when the row window covers y, and none otherwise |
| OverlapAdd.RowsCount | ssseg/test.py:130-138 | after the first n rows, a pixel's count is (row windows over y among them) x (column windows over x) |
| OverlapAdd.GridCount | ssseg/test.py:130-138 | a pixel's final count is the number of row windows over its row times the number of column windows over its column |
| OverlapAdd.Deposit | ssseg/test.py:137-138 | adds the window's scores into its region of the score buffer and 1 into its region of the count buffer; every cell outside the window keeps its value |
| OverlapAdd.DepositNext | ssseg/test.py:137-138 | if the buffers hold the overlap-add of windows ts, after the deposit they hold that of ts followed by the new window |
| OverlapAdd.CountZeros | ssseg/test.py:139 | the result is 0 exactly when every cell of the count map is nonzero (only zero versus nonzero is specified, which is all line 139 uses) |
| OverlapAdd.Normalize | ssseg/test.py:140 | every class score is divided by its pixel's count |
| Inference.WholeTile | ssseg/test.py:119-120 | the whole-image window contains exactly the pixels of the image |
| Inference.AccumulateGrid | ssseg/test.py:130-138 | starting from zeroed buffers, the nested loops leave every count equal to the number of grid windows containing that pixel and every score equal to the sum of those windows' scores there |
| Inference.AccumulateRow | ssseg/test.py:131-138 | one pass of the inner loop extends the deposited windows by the whole grid row, left to right |
| Inference.Slide | ssseg/test.py:122-140 | fails with ZeroStride exactly when a stride is 0 and with CoverageGap exactly when some pixel is in no grid window; otherwise returns a fresh class x H x W array whose every cell is the mean of the scores of the windows containing that pixel |
| Inference.Infer | ssseg/test.py:117-141 | fails with UnknownMode exactly when the mode is neither "whole" nor "slide"; "whole" returns the predictor's output on the whole image unchanged, at the image's size; "slide" behaves as Slide |
| Inference.SlideMatchesWholeForFullCrop | ssseg/test.py:119-140 | when the crop is at least the image size, slide mode counts every pixel once and returns exactly whole mode's scores |
| Results.RemapLabel | ssseg/test.py:114 | a remapped label is below num_classes or is -1, and it differs from the original exactly when the original was >= num_classes and not already -1 |
| Results.Remapped | ssseg/test.py:114 | a remapped map has the same length, and each label is -1 where the original was >= num_classes and unchanged elsewhere |
| Results.RemappedIsEvaluable | ssseg/test.py:113-114 | after the remap every label is below num_classes or is -1, and remapping again changes nothing |
| Results.RemapKeepsValidMaps | ssseg/test.py:113-114 | a map whose labels are all below num_classes is left exactly as it is |
| Results.RemapInPlace | ssseg/test.py:114 | rewrites the ground-truth array in place into the remap of its old contents |
| Results.Collected.constructor | ssseg/test.py:163 | the result lists start empty |
| Results.Collected.Add | ssseg/test.py:108-115 | appends the prediction unchanged, remaps the ground truth in place and appends it; the two lists stay the same length and every stored ground truth stays evaluable |
| LoaderSplit.PerProcess | ssseg/test.py:63-69 | outside distributed mode the settings are unchanged; in it, the split succeeds exactly when the process count divides both the batch size and the worker count, with the batch size checked first, and then each process gets exactly the quotients, losing nothing to rounding |
| LoaderSplit.FiveAcrossFourFails | ssseg/test.py:63-67 | a batch of 5 over 4 processes fails with UnsuitableBatchSize |

## Left out

- Inference.Slide: assumes the network returns, for every window, a score block with exactly the window's height and width and `numClasses` channels (the predictor gives a score at every offset inside the window). In the source, the `+=` of the padded block (line 137) raises a shape error when the block has another size, and that error is not modelled. The one network in the repository that is shown returns, outside training, its logits at backbone resolution without upsampling them (`ssseg/modules/models/annnet/annnet.py` lines 82-93). Slide mode with that network would therefore stop at line 137. That network is not part of this model.
- Inference.Infer: whole mode's output is stated at the image's size, which rests on the same assumption about the predictor. With a network whose output is smaller, the source's whole mode returns the smaller block, and only the resize of line 110 (not modelled) brings it to the image's size.
- The `.astype(np.int32)` casts of lines 111 and 113: labels here are unbounded `int`, so a label outside the 32-bit range, which the cast would wrap or truncate, is not modelled.
- The batch loop of line 104 is not modelled, and the per-image loop of line 108 is modelled by one iteration only (`Collected.Add`). The loops only repeat the modelled steps over the dataset.
- The batch dimension: one image is modelled. The grid depends only on the image size, which is the same for every image of a batch, so each image repeats the same geometry.
- Floating point: scores are reals and counts are integers (the source's count map is a float tensor holding whole numbers). The average is exact real division.
- The network itself (`ssseg/modules/models/annnet/annnet.py` is not part of this model). It is the predictor parameter, a total function, so a failing forward pass, which aborts the run in the source, is not modelled.
- The bilinear resize `F.interpolate` with `align_corners` and the arg-max over classes (test.py lines 109-111): floating-point library code that is not visible. `Collected.Add` takes the predicted label map as given.
- The default inference configuration `{'mode': 'whole'}` used when the config has none (lines 97-100): `Infer` takes the mode as a parameter.
- Negative crop sizes, strides, batch sizes, worker counts and process counts: they are `nat` here. A zero stride is modelled, as the error ZeroStride, and so is a zero process count, as NoProcesses.
- Label maps are flat row-major arrays. The remap is element by element, so the 2-D shape does not matter.
- The check that the dataset's class count equals the model's (line 61), the dataset and loader, checkpoint loading, logging, the progress bar, argument parsing, pickling of the results and `dataset.evaluate` (lines 24-34, 57-62, 70-92, 145-173): these are I/O or collaborators whose code is not shown.
- Distributed set-up and devices (lines 42-54, 74-86, 102): process-group initialisation, CUDA device selection, parallel model wrapping and sampler epochs. `main` forces distributed mode off (lines 149-151), so `PerProcess` models a path that the shipped entry point does not take.
- Only rank 0 writes the results, and the other processes' results are never gathered (lines 167-169). This is not modelled, because each process's lists are independent.
