/**
  Collection of per-image results in `Tester.start` (ssseg/test.py lines
  108-115): each image's predicted label map is appended to `all_preds` as it
  is, and its ground-truth label map is appended to `all_gts` after every
  label >= numClasses has been rewritten in place to the ignore label -1.
  Label maps are stored row-major, one int per pixel.
*/
module Results {

  /** The label evaluation skips. */
  const IgnoreLabel: int := -1

  /** One ground-truth label after the remap of line 114. */
  function RemapLabel(v: int, numClasses: int): (r: int)
    ensures r < numClasses || r == IgnoreLabel
    ensures r == v <==> v < numClasses || v == IgnoreLabel
  {
    if v >= numClasses then IgnoreLabel else v
  }

  /** A whole ground-truth map after the remap. */
  function Remapped(m: seq<int>, numClasses: int): (r: seq<int>)
    ensures |r| == |m|
    ensures forall i :: 0 <= i < |m| ==> r[i] == RemapLabel(m[i], numClasses)
  {
    seq(|m|, i requires 0 <= i < |m| => RemapLabel(m[i], numClasses))
  }

  /** Every label is a class index below numClasses or the ignore label. */
  predicate Evaluable(m: seq<int>, numClasses: int)
  {
    forall i :: 0 <= i < |m| ==> m[i] < numClasses || m[i] == IgnoreLabel
  }

  /**
    Remapping leaves nothing at or above numClasses except possibly the
    ignore label itself, and doing it twice changes nothing more.
  */
  lemma RemappedIsEvaluable(m: seq<int>, numClasses: int)
    ensures Evaluable(Remapped(m, numClasses), numClasses)
    ensures Remapped(Remapped(m, numClasses), numClasses) == Remapped(m, numClasses)
  {
  }

  /** A map that is already in range (and has no ignore labels) is left exactly as it is. */
  lemma RemapKeepsValidMaps(m: seq<int>, numClasses: int)
    requires forall i :: 0 <= i < |m| ==> m[i] < numClasses
    ensures Remapped(m, numClasses) == m
  {
  }

  /** The masked write `gt[gt >= num_classes] = -1` (line 114), in place. */
  method RemapInPlace(gt: array<int>, numClasses: int)
    modifies gt
    ensures gt[..] == Remapped(old(gt[..]), numClasses)
  {
    forall i | 0 <= i < gt.Length {
      gt[i] := RemapLabel(gt[i], numClasses);
    }
  }

  /** The two parallel lists `all_preds` and `all_gts`. */
  class Collected {
    var preds: seq<seq<int>>
    var gts: seq<seq<int>>
    const numClasses: int

    /** The lists stay parallel, and every stored ground truth is ready for evaluation. */
    ghost predicate Valid()
      reads this
    {
      |preds| == |gts| && forall k :: 0 <= k < |gts| ==> Evaluable(gts[k], numClasses)
    }

    constructor (numClasses: int)
      ensures Valid() && preds == [] && gts == [] && this.numClasses == numClasses
    {
      preds, gts := [], [];
      this.numClasses := numClasses;
    }

    /**
      One iteration of the loop of lines 108-115: the prediction is appended
      unchanged, the ground truth is remapped in place and then appended.
    */
    method Add(pred: array<int>, gt: array<int>)
      requires Valid()
      requires pred != gt
      modifies this`preds, this`gts, gt
      ensures Valid()
      ensures preds == old(preds) + [old(pred[..])]
      ensures gt[..] == Remapped(old(gt[..]), numClasses)
      ensures gts == old(gts) + [gt[..]]
    {
      preds := preds + [pred[..]];
      RemapInPlace(gt, numClasses);
      RemappedIsEvaluable(old(gt[..]), numClasses);
      gts := gts + [gt[..]];
    }
  }
}
