/** From patch scores to the regions of an image (src/detection/post_process_utils.cpp, BuildDetectionResult;
    src/detection/detection_result.cpp, MaxScore). */
module DetectionResult {
  import opened ConnectedComponents
  import opened PixelGrid
  import opened RegionStatistics
  import opened Resampling
  import opened Smoothing
  import opened Vectors

  datatype AnomalyMap = AnomalyMap(scores: seq<real>, gridH: nat, gridW: nat)

  datatype Detection = Detection(anomalyMap: AnomalyMap, regions: seq<RegionProposal>, imageLevelScore: real)

  /** The largest patch score; zero when there is none. */
  function MaxScore(scores: seq<real>): (m: real)
    ensures scores == [] ==> m == 0.0
    ensures forall i :: 0 <= i < |scores| ==> scores[i] <= m
    ensures scores != [] ==> m in scores
  {
    if scores == [] then 0.0
    else if |scores| == 1 then scores[0]
    else
      var rest := MaxScore(scores[..|scores| - 1]);
      if rest < scores[|scores| - 1] then scores[|scores| - 1] else rest
  }

  /** The largest lower bound of a nonempty list of scores. */
  ghost function MinScore(scores: seq<real>): (m: real)
    ensures forall i :: 0 <= i < |scores| ==> m <= scores[i]
  {
    if scores == [] then 0.0
    else if |scores| == 1 then scores[0]
    else
      var rest := MinScore(scores[..|scores| - 1]);
      if rest > scores[|scores| - 1] then scores[|scores| - 1] else rest
  }

  /** The score map at image resolution, smoothed. */
  ghost function ImageScores(m: AnomalyMap, imageH: nat, imageW: nat, sigma: nat, exp: real -> real): (scores: seq<real>)
    requires FitsImage(m, imageH, imageW) && IsPositive(exp)
    ensures |scores| == imageH * imageW
  {
    Blurred(Upsampled(m.scores, m.gridH, m.gridW, imageH, imageW), imageH, imageW, sigma, exp)
  }

  /** The map is a full grid, and not an empty one unless the image is empty too. */
  predicate FitsImage(m: AnomalyMap, imageH: nat, imageW: nat) {
    && |m.scores| == m.gridH * m.gridW
    && ((m.gridH > 0 && m.gridW > 0) || imageH * imageW == 0)
  }

  function Mask(scores: seq<real>, threshold: real): (binary: seq<real>)
    ensures |binary| == |scores|
    ensures forall i :: 0 <= i < |scores| ==> binary[i] == if scores[i] > threshold then 1.0 else 0.0
  {
    seq(|scores|, i requires 0 <= i < |scores| => if scores[i] > threshold then 1.0 else 0.0)
  }

  /** The regions of the pixels above the threshold, with their exact statistics, best first. */
  ghost predicate IsDetection(d: Detection, imageH: nat, imageW: nat, sigma: nat, threshold: real, exp: real -> real) {
    && FitsImage(d.anomalyMap, imageH, imageW) && IsPositive(exp)
    && d.imageLevelScore == MaxScore(d.anomalyMap.scores)
    && (imageH == 0 || imageW == 0 ==> d.regions == [])
    && ByScore(d.regions)
    && (imageW > 0 ==>
          var scores := ImageScores(d.anomalyMap, imageH, imageW, sigma, exp);
          ExactRegions(Mask(scores, threshold), imageW, scores, d.regions))
  }

  method Binarize(scores: seq<real>, threshold: real) returns (binary: seq<real>)
    ensures binary == Mask(scores, threshold)
  {
    var mask := new real[|scores|];
    for i: nat := 0 to |scores|
      invariant forall j :: 0 <= j < i ==> mask[j] == if scores[j] > threshold then 1.0 else 0.0
    {
      mask[i] := if scores[i] > threshold then 1.0 else 0.0;
    }
    binary := mask[..];
  }

  method BuildDetectionResult(patchScores: seq<real>, gridH: nat, gridW: nat, imageH: nat, imageW: nat, sigma: nat,
                              threshold: real, exp: real -> real)
    returns (d: Detection)
    requires FitsImage(AnomalyMap(patchScores, gridH, gridW), imageH, imageW) && IsPositive(exp)
    requires imageH <= SIZE_MAX && imageW <= SIZE_MAX
    ensures d.anomalyMap == AnomalyMap(patchScores, gridH, gridW)
    ensures IsDetection(d, imageH, imageW, sigma, threshold, exp)
  {
    var anomalyMap := AnomalyMap(patchScores, gridH, gridW);
    var imageLevelScore := MaxScore(anomalyMap.scores);
    var upsampled := BilinearUpsample(anomalyMap.scores, gridH, gridW, imageH, imageW);
    var blurred := GaussianBlur(upsampled, imageH, imageW, sigma, exp);
    var binary := Binarize(blurred, threshold);
    var regions := Label(binary, imageH, imageW, blurred);
    d := Detection(anomalyMap, regions, imageLevelScore);
  }

  // ---- The maximum principle ----

  /** No pixel of the smoothed map leaves the range of the patch scores. */
  lemma ImageScoresWithin(m: AnomalyMap, imageH: nat, imageW: nat, sigma: nat, exp: real -> real)
    requires FitsImage(m, imageH, imageW) && IsPositive(exp)
    ensures Within(ImageScores(m, imageH, imageW, sigma, exp), MinScore(m.scores), MaxScore(m.scores))
  {
    UpsampledWithin(m.scores, m.gridH, m.gridW, imageH, imageW, MinScore(m.scores), MaxScore(m.scores));
    BlurredWithin(Upsampled(m.scores, m.gridH, m.gridW, imageH, imageW), imageH, imageW, sigma, exp, MinScore(m.scores), MaxScore(m.scores));
  }

  lemma PartScores(scores: seq<real>, w: nat, threshold: real, part: set<nat>, lo: real, hi: real)
    requires w > 0 && IsComponent(Mask(scores, threshold), w, part) && Within(scores, lo, hi)
    ensures forall p :: p in part ==> p < |scores| && threshold < scores[p] <= hi
  {
    forall p | p in part
      ensures p < |scores| && threshold < scores[p] <= hi
    {
      assert Foreground(Mask(scores, threshold), p);
    }
  }

  /** The pixels of a region score above the threshold and no higher than the image. */
  lemma RegionPixels(d: Detection, imageH: nat, imageW: nat, sigma: nat, threshold: real, exp: real -> real, region: RegionProposal)
    returns (part: set<nat>, scores: seq<real>)
    requires IsDetection(d, imageH, imageW, sigma, threshold, exp) && region in d.regions
    ensures imageW > 0 && part != {} && Describes(region, part, scores, imageW)
    ensures forall p :: p in part ==> p < |scores| && threshold < scores[p] <= d.imageLevelScore
  {
    scores := ImageScores(d.anomalyMap, imageH, imageW, sigma, exp);
    part := RegionHasPart(Mask(scores, threshold), imageW, scores, d.regions, region);
    ImageScoresWithin(d.anomalyMap, imageH, imageW, sigma, exp);
    PartScores(scores, imageW, threshold, part, MinScore(d.anomalyMap.scores), d.imageLevelScore);
  }

  /** The mean score of every region lies above the threshold and no higher than the image score, whatever the threshold. */
  lemma RegionMeans(d: Detection, imageH: nat, imageW: nat, sigma: nat, threshold: real, exp: real -> real, region: RegionProposal)
    requires IsDetection(d, imageH, imageW, sigma, threshold, exp) && region in d.regions
    ensures threshold < region.meanAnomalyScore <= d.imageLevelScore
  {
    var part, scores := RegionPixels(d, imageH, imageW, sigma, threshold, exp, region);
    AverageBetween(scores, part, region.meanAnomalyScore, threshold, d.imageLevelScore);
  }

  /** For a threshold of at least zero so does its maximum. */
  lemma RegionMaxima(d: Detection, imageH: nat, imageW: nat, sigma: nat, threshold: real, exp: real -> real, region: RegionProposal)
    requires IsDetection(d, imageH, imageW, sigma, threshold, exp) && region in d.regions && threshold >= 0.0
    ensures threshold < region.maxAnomalyScore <= d.imageLevelScore
  {
    var part, scores := RegionPixels(d, imageH, imageW, sigma, threshold, exp, region);
    MaxBetween(scores, part, region.maxAnomalyScore, threshold, d.imageLevelScore);
  }

  /** An image score at or below the threshold leaves no region. */
  lemma QuietImageHasNoRegions(d: Detection, imageH: nat, imageW: nat, sigma: nat, threshold: real, exp: real -> real)
    requires IsDetection(d, imageH, imageW, sigma, threshold, exp) && d.imageLevelScore <= threshold
    ensures d.regions == []
  {
    if d.regions != [] {
      RegionMeans(d, imageH, imageW, sigma, threshold, exp, d.regions[0]);
    }
  }

  lemma MaximumBelowImage(d: Detection, imageH: nat, imageW: nat, sigma: nat, threshold: real, exp: real -> real, region: RegionProposal)
    requires IsDetection(d, imageH, imageW, sigma, threshold, exp) && region in d.regions
    ensures region.maxAnomalyScore <= d.imageLevelScore <==> d.imageLevelScore >= 0.0
  {
    var part, scores := RegionPixels(d, imageH, imageW, sigma, threshold, exp, region);
    assert IsMaxScore(scores, part, region.maxAnomalyScore);
  }

  ghost predicate SomeAbove(scores: seq<real>, threshold: real) {
    exists p :: 0 <= p < |scores| && scores[p] > threshold
  }

  lemma MaskForeground(scores: seq<real>, threshold: real)
    ensures HasForeground(Mask(scores, threshold)) <==> SomeAbove(scores, threshold)
  {
    if SomeAbove(scores, threshold) {
      var p :| 0 <= p < |scores| && scores[p] > threshold;
      assert Foreground(Mask(scores, threshold), p);
    }
  }

  /** There is a region exactly when some pixel of the smoothed image scores above the threshold. */
  lemma RegionsExactlyWhenPixels(d: Detection, imageH: nat, imageW: nat, sigma: nat, threshold: real, exp: real -> real)
    requires IsDetection(d, imageH, imageW, sigma, threshold, exp)
    ensures d.regions != [] <==> SomeAbove(ImageScores(d.anomalyMap, imageH, imageW, sigma, exp), threshold)
  {
    var scores := ImageScores(d.anomalyMap, imageH, imageW, sigma, exp);
    MaskForeground(scores, threshold);
    if imageW > 0 {
      RegionsExistWhenForegroundDoes(Mask(scores, threshold), imageW, scores, d.regions);
    }
  }

  /** Region maxima start at zero, so with negative scores they can exceed the image score: exactly when it is negative and some
      pixel still lies above the threshold. */
  lemma MaximaBoundedExactlyWhen(d: Detection, imageH: nat, imageW: nat, sigma: nat, threshold: real, exp: real -> real)
    requires IsDetection(d, imageH, imageW, sigma, threshold, exp)
    ensures (forall region :: region in d.regions ==> region.maxAnomalyScore <= d.imageLevelScore)
       <==> MaxScore(d.anomalyMap.scores) >= 0.0 || !SomeAbove(ImageScores(d.anomalyMap, imageH, imageW, sigma, exp), threshold)
  {
    forall region | region in d.regions
      ensures region.maxAnomalyScore <= d.imageLevelScore <==> d.imageLevelScore >= 0.0
    {
      MaximumBelowImage(d, imageH, imageW, sigma, threshold, exp, region);
    }
    assert d.regions != [] ==> d.regions[0] in d.regions;
    RegionsExactlyWhenPixels(d, imageH, imageW, sigma, threshold, exp);
  }

  /** With a threshold below every patch score the whole image is foreground. */
  lemma LowThresholdFindsRegions(d: Detection, imageH: nat, imageW: nat, sigma: nat, threshold: real, exp: real -> real)
    requires IsDetection(d, imageH, imageW, sigma, threshold, exp) && imageH * imageW > 0
    requires threshold < MinScore(d.anomalyMap.scores)
    ensures d.regions != []
  {
    assert imageW > 0;
    var scores := ImageScores(d.anomalyMap, imageH, imageW, sigma, exp);
    ImageScoresWithin(d.anomalyMap, imageH, imageW, sigma, exp);
    assert Foreground(Mask(scores, threshold), 0);
    RegionsExistWhenForegroundDoes(Mask(scores, threshold), imageW, scores, d.regions);
  }

  /** With only negative patch scores and a threshold below all of them, some region claims a maximum above the image score. */
  lemma MaximumExceedsImage(d: Detection, imageH: nat, imageW: nat, sigma: nat, threshold: real, exp: real -> real)
    requires IsDetection(d, imageH, imageW, sigma, threshold, exp) && imageH * imageW > 0
    requires threshold < MinScore(d.anomalyMap.scores) && MaxScore(d.anomalyMap.scores) < 0.0
    ensures exists region :: region in d.regions && region.maxAnomalyScore > d.imageLevelScore
  {
    LowThresholdFindsRegions(d, imageH, imageW, sigma, threshold, exp);
    MaximumBelowImage(d, imageH, imageW, sigma, threshold, exp, d.regions[0]);
    assert d.regions[0] in d.regions;
  }
}
